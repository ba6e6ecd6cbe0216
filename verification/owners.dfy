/**
  Memoised owner lookup (`findOwner`): a map from a composite key to the
  owner resolved for it. Only successful lookups are remembered.
*/
module Owners {
  import opened Objects
  import opened Remote
  import opened Wrappers
  import opened Paths

  type Cache = map<string, Owner>

  /** The memo key: namespace, declared apiVersion and name joined by '#'. The kind and the uid are not part of it. */
  function CacheKey(namespace: string, ref: OwnerRef): string
  {
    namespace + "#" + ref.apiVersion + "#" + ref.name
  }

  predicate NoHash(s: string)
  {
    forall i :: 0 <= i < |s| ==> s[i] != '#'
  }

  /** Reads a key back: the text before the first '#', between it and the next '#', and after that. */
  function SplitKey(k: string): Option<(string, string, string)>
  {
    match Index(k, "#")
    case None => None
    case Some(i) =>
      var rest := k[i + 1..];
      match Index(rest, "#")
      case None => None
      case Some(j) => Some((k[..i], rest[..j], rest[j + 1..]))
  }

  /** In `a + "#" + b` with `a` free of '#', the first '#' sits right after `a`. */
  lemma FirstHashAt(a: string, b: string)
    ensures (a + "#" + b)[..|a|] == a && (a + "#" + b)[|a| + 1..] == b
    ensures NoHash(a) ==> Index(a + "#" + b, "#") == Some(|a|)
  {
    var s := a + "#" + b;
    assert s[..|a|] == a && s[|a| + 1..] == b;
    if NoHash(a) {
      assert OccursAt(s, "#", |a|) by {
        assert s[|a|..|a| + 1] == "#";
      }
      forall j | 0 <= j < |a|
        ensures !OccursAt(s, "#", j)
      {
        assert s[j..j + 1][0] == a[j];
      }
      assert FirstOccurrence(s, "#", |a|);
      FirstOccurrenceUnique(s, "#", |a|);
    }
  }

  /**
    `SplitKey` reads a key back into namespace, apiVersion and name, provided
    neither the namespace nor the apiVersion contains the delimiter.
  */
  lemma CacheKeyRoundTrip(namespace: string, ref: OwnerRef)
    requires NoHash(namespace) && NoHash(ref.apiVersion)
    ensures SplitKey(CacheKey(namespace, ref)) == Some((namespace, ref.apiVersion, ref.name))
  {
    var rest := ref.apiVersion + "#" + ref.name;
    assert CacheKey(namespace, ref) == namespace + "#" + rest;
    FirstHashAt(namespace, rest);
    FirstHashAt(ref.apiVersion, ref.name);
  }

  /**
    If neither the namespace nor the apiVersion contains the delimiter, equal
    keys come from equal namespaces, apiVersions and names.
  */
  lemma CacheKeyInjective(ns1: string, ref1: OwnerRef, ns2: string, ref2: OwnerRef)
    requires NoHash(ns1) && NoHash(ref1.apiVersion)
    requires NoHash(ns2) && NoHash(ref2.apiVersion)
    requires CacheKey(ns1, ref1) == CacheKey(ns2, ref2)
    ensures ns1 == ns2 && ref1.apiVersion == ref2.apiVersion && ref1.name == ref2.name
  {
    CacheKeyRoundTrip(ns1, ref1);
    CacheKeyRoundTrip(ns2, ref2);
  }

  /** What `findOwner` hands back: the lookup, the updated memo, and whether the memo missed so that `Resolve` was evaluated. */
  datatype Resolution = Resolution(result: Lookup, cache: Cache, consulted: bool)

  /**
    Look the owner up in the memo first; on a miss resolve it remotely and
    remember it only if the lookup succeeded. Existing entries never change.
  */
  function FindOwner(remote: Remote, cache: Cache, namespace: string, ref: OwnerRef): (r: Resolution)
    ensures var key := CacheKey(namespace, ref);
            && (key in cache ==> r.result == Found(cache[key]) && r.cache == cache && !r.consulted)
            && (key !in cache ==> r.consulted && r.result == Resolve(remote, namespace, ref.Describe()))
            && r.cache.Keys == (if r.result.Found? then cache.Keys + {key} else cache.Keys)
            && (r.result.Found? ==> r.cache[key] == r.result.owner)
    ensures forall k :: k in cache ==> k in r.cache && r.cache[k] == cache[k]
  {
    var key := CacheKey(namespace, ref);
    if key in cache then
      Resolution(Found(cache[key]), cache, false)
    else
      var result := Resolve(remote, namespace, ref.Describe());
      if result.Found? then
        Resolution(result, cache[key := result.owner], true)
      else
        Resolution(result, cache, true)
  }
}
