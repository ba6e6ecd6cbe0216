/**
  The report's file names: the walked path with the first occurrence of
  `Target + "/"` removed, as `strings.Replace(path, Target+"/", "", 1)` does.
  The replacement is not anchored: the occurrence may sit anywhere in the path.
*/
module Paths {
  import opened Wrappers

  /** `pat` occurs in `s` starting at index `i`. */
  predicate OccursAt(s: string, pat: string, i: int)
  {
    0 <= i && i + |pat| <= |s| && s[i..i + |pat|] == pat
  }

  /** `i` is the leftmost occurrence of `pat` in `s`. */
  predicate FirstOccurrence(s: string, pat: string, i: int)
  {
    OccursAt(s, pat, i) && forall j :: 0 <= j < i ==> !OccursAt(s, pat, j)
  }

  predicate Absent(s: string, pat: string)
  {
    forall j :: 0 <= j <= |s| ==> !OccursAt(s, pat, j)
  }

  /** The leftmost occurrence of `pat` in `s` at or after `from`, scanning rightwards. */
  function IndexFrom(s: string, pat: string, from: nat): (r: Option<nat>)
    requires from <= |s|
    ensures r.Some? ==> from <= r.value && OccursAt(s, pat, r.value)
    ensures r.Some? ==> forall j :: from <= j < r.value ==> !OccursAt(s, pat, j)
    ensures r.None? ==> forall j :: from <= j <= |s| ==> !OccursAt(s, pat, j)
    decreases |s| - from
  {
    if OccursAt(s, pat, from) then Some(from)
    else if from == |s| then None
    else IndexFrom(s, pat, from + 1)
  }

  /** `strings.Index`: the leftmost occurrence, if any. */
  function Index(s: string, pat: string): (r: Option<nat>)
    ensures r.Some? ==> FirstOccurrence(s, pat, r.value)
    ensures r.None? ==> Absent(s, pat)
  {
    IndexFrom(s, pat, 0)
  }

  /**
    `strings.Replace(s, pattern, replacement, 1)`: the leftmost occurrence of `pattern` is
    replaced by `replacement`; without an occurrence `s` is returned as it is.
  */
  function ReplaceFirst(s: string, pattern: string, replacement: string): (r: string)
    ensures Absent(s, pattern) ==> r == s
    ensures forall i :: FirstOccurrence(s, pattern, i) ==> r == s[..i] + replacement + s[i + |pattern|..]
  {
    match Index(s, pattern)
    case None =>
      s
    case Some(i) =>
      FirstOccurrenceUnique(s, pattern, i);
      s[..i] + replacement + s[i + |pattern|..]
  }

  lemma FirstOccurrenceUnique(s: string, pat: string, i: int)
    requires FirstOccurrence(s, pat, i)
    ensures forall j :: FirstOccurrence(s, pat, j) ==> j == i
  {
  }

  /** The name a file is reported under, relative to the export root `target`. */
  function RelativeName(target: string, file: string): (r: string)
    ensures Absent(file, target + "/") ==> r == file
    ensures forall i :: FirstOccurrence(file, target + "/", i) ==>
              r == file[..i] + file[i + |target| + 1..] && |r| == |file| - |target| - 1
  {
    ReplaceFirst(file, target + "/", "")
  }

  /** A path directly under the root is reported without the root prefix. */
  lemma RelativeNameStripsRoot(target: string, rest: string)
    ensures RelativeName(target, target + "/" + rest) == rest
  {
    var file := target + "/" + rest;
    assert file[..|target| + 1] == target + "/";
    assert FirstOccurrence(file, target + "/", 0);
    assert file[|target| + 1..] == rest;
  }

  /** The removal is not anchored at the start: a root name further in the path is cut out there. */
  lemma RelativeNameCutsInside()
    ensures RelativeName("out", "a/out/p") == "a/p"
  {
    var file := "a/out/p";
    assert "out" + "/" == "out/";
    assert FirstOccurrence(file, "out/", 2) by {
      assert file[2..6] == "out/";
      assert file[0..4][0] == 'a' && file[1..5][0] == '/';
    }
    assert file[..2] + file[6..] == "a/p";
  }
}
