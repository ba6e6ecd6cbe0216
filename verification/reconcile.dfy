/**
  `updateFile`: walk one document's owner references in declared order,
  resolve each through a memo that lives for this file only, correct stale
  uids, record one report row per correction or failed lookup, and decide
  whether the document has to be written back.
*/
module Reconcile {
  import opened Wrappers
  import opened Objects
  import opened Remote
  import opened Owners
  import opened Paths

  /** What one reference saw: the lookup result and whether the memo missed so that `Resolve` was evaluated. */
  datatype Visit = Visit(result: Lookup, consulted: bool)

  /**
    The loop state of `updateFile` after some references: the (partly
    corrected) reference list, the memo, the rows appended so far, the
    `changed` flag, and one visit per reference handled.
  */
  datatype Pass = Pass(refs: seq<OwnerRef>, cache: Cache, rows: seq<Row>, changed: bool, visits: seq<Visit>)

  /** Handle reference `i`: look it up, then report a failure, correct a stale uid, or do nothing. */
  function Step(remote: Remote, fileName: string, namespace: string, st: Pass, i: nat): (r: Pass)
    requires i < |st.refs|
    ensures |r.refs| == |st.refs| && |r.visits| == |st.visits| + 1 && r.visits[..|st.visits|] == st.visits
    ensures var ref := st.refs[i];
            var found := FindOwner(remote, st.cache, namespace, ref);
            var l := r.visits[|st.visits|].result;
            && r.visits[|st.visits|] == Visit(found.result, found.consulted)
            && r.cache == found.cache
            // a failed lookup: one marker row, nothing else changes
            && (!l.Found? ==>
                  && r.refs == st.refs && r.changed == st.changed
                  && r.rows == st.rows + [Row(fileName, ref.kind, ref.name, ref.uid,
                                              if l.NotFound? then NotFoundMarker else ErrorMarker)])
            // a stale uid: corrected in place, one row from old to new, file marked changed
            && (l.Found? && l.owner.uid != ref.uid ==>
                  && r.refs == st.refs[i := ref.(uid := l.owner.uid)] && r.changed
                  && r.rows == st.rows + [Row(fileName, ref.kind, ref.name, ref.uid, l.owner.uid)])
            // a current uid: no row, no mutation
            && (l.Found? && l.owner.uid == ref.uid ==>
                  r.refs == st.refs && r.rows == st.rows && r.changed == st.changed)
  {
    var ref := st.refs[i];
    var found := FindOwner(remote, st.cache, namespace, ref);
    var st := st.(cache := found.cache, visits := st.visits + [Visit(found.result, found.consulted)]);
    if !found.result.Found? then
      var errMsg := if found.result.NotFound? then NotFoundMarker else ErrorMarker;
      st.(rows := st.rows + [Row(fileName, ref.kind, ref.name, ref.uid, errMsg)])
    else if ref.uid != found.result.owner.uid then
      st.(rows := st.rows + [Row(fileName, ref.kind, ref.name, ref.uid, found.result.owner.uid)],
          refs := st.refs[i := ref.(uid := found.result.owner.uid)],
          changed := true)
    else
      st
  }

  /**
    The loop state once references `0..n` have been handled, starting from an
    empty memo, no rows and `changed` false. Handled references keep their
    owner identity; the others are untouched.
  */
  function ReconcileUpTo(remote: Remote, fileName: string, namespace: string, refs: seq<OwnerRef>, n: nat): (r: Pass)
    requires n <= |refs|
    ensures |r.refs| == |refs| && |r.visits| == n
    ensures forall j :: 0 <= j < |refs| ==> r.refs[j].SameOwner(refs[j])
    ensures forall j :: n <= j < |refs| ==> r.refs[j] == refs[j]
    ensures forall k :: 0 <= k < |r.rows| ==> r.rows[k].file == fileName
    decreases n
  {
    if n == 0 then
      Pass(refs, map[], [], false, [])
    else
      Step(remote, fileName, namespace, ReconcileUpTo(remote, fileName, namespace, refs, n - 1), n - 1)
  }

  /** The whole loop of `updateFile` over a reference list. */
  function ReconcileRefs(remote: Remote, fileName: string, namespace: string, refs: seq<OwnerRef>): (r: Pass)
    ensures |r.refs| == |refs| && |r.visits| == |refs|
    ensures forall j :: 0 <= j < |refs| ==> r.refs[j].SameOwner(refs[j])
  {
    ReconcileUpTo(remote, fileName, namespace, refs, |refs|)
  }

  /** The rows one file contributes and the document to write back, if any. */
  datatype FileOutcome = FileOutcome(rows: seq<Row>, write: Option<Document>)

  /**
    The decision part of `updateFile` for a decoded document: nothing for a
    document without owner references; otherwise reconcile, and write the
    document with its corrected reference list when a uid was corrected.
  */
  function ReconcileDocument(remote: Remote, fileName: string, doc: Document): (r: FileOutcome)
    ensures |doc.ownerReferences| == 0 ==> r == FileOutcome([], None)
    ensures r.write.Some? ==>
              && r.write.value.namespace == doc.namespace
              && r.write.value.body == doc.body
              && |r.write.value.ownerReferences| == |doc.ownerReferences|
              && forall j :: 0 <= j < |doc.ownerReferences| ==>
                   r.write.value.ownerReferences[j].SameOwner(doc.ownerReferences[j])
    ensures forall k :: 0 <= k < |r.rows| ==> r.rows[k].file == fileName
  {
    var refs := doc.ownerReferences;
    if |refs| > 0 then
      var pass := ReconcileRefs(remote, fileName, doc.namespace, refs);
      if pass.changed then
        FileOutcome(pass.rows, Some(doc.(ownerReferences := pass.refs)))
      else
        FileOutcome(pass.rows, None)
    else
      FileOutcome([], None)
  }

  datatype ReadStatus = Decoded(doc: Document) | ReadFailed(error: string)
  datatype WriteStatus = Written | WriteFailed(error: string)

  /** The file system as the reconciler uses it: decode a path, write a document to a path. */
  datatype Files = Files(read: string -> ReadStatus, write: (string, Document) -> WriteStatus)

  /**
    `updateFile`: rows are reported under the path relative to `target`; a
    read failure or a failed write ends the file with that error.
  */
  function UpdateFile(files: Files, remote: Remote, target: string, file: string): (r: Result<FileOutcome>)
    ensures files.read(file).ReadFailed? ==> r == Err(files.read(file).error)
    ensures r.Err? && files.read(file).Decoded? ==>
              var o := ReconcileDocument(remote, RelativeName(target, file), files.read(file).doc);
              o.write.Some? && files.write(file, o.write.value) == WriteFailed(r.error)
    ensures r.Ok? ==>
              && files.read(file).Decoded?
              && r.value == ReconcileDocument(remote, RelativeName(target, file), files.read(file).doc)
              && (r.value.write.Some? ==> files.write(file, r.value.write.value).Written?)
  {
    var fileName := RelativeName(target, file);
    match files.read(file)
    case ReadFailed(e) => Err(e)
    case Decoded(doc) =>
      var outcome := ReconcileDocument(remote, fileName, doc);
      if outcome.write.Some? then
        match files.write(file, outcome.write.value)
        case WriteFailed(e) => Err(e)
        case Written => Ok(outcome)
      else
        Ok(outcome)
  }
}
