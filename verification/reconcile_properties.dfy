/**
  Consequences of the memo-free description of `updateFile`: what the memo
  shares and what it does not, the write decision, idempotence, and two
  end-to-end scenarios.
*/
module ReconcileProperties {
  import opened Wrappers
  import opened Objects
  import opened Remote
  import opened Owners
  import opened Paths
  import opened Reconcile
  import opened ReconcileFacts

  /**
    The whole loop over a reference list: every reference is visited in
    order, sees its observed lookup, and is corrected by it; the rows are the
    per-reference rows in declared order; `changed` iff some uid was corrected.
  */
  lemma ReconcileRefsSpec(remote: Remote, fileName: string, namespace: string, refs: seq<OwnerRef>)
    ensures var p := ReconcileRefs(remote, fileName, namespace, refs);
            && |p.refs| == |refs| && |p.visits| == |refs|
            && (forall i :: 0 <= i < |refs| ==> p.visits[i] == Observed(remote, namespace, refs, i))
            && (forall i :: 0 <= i < |refs| ==> p.refs[i] == Apply(refs[i], p.visits[i].result))
            && p.rows == RowsUpTo(fileName, refs, p.visits, |refs|)
            && (p.changed <==> exists i :: 0 <= i < |refs| && Corrects(refs[i], p.visits[i].result))
  {
    VisitsAreObserved(remote, fileName, namespace, refs, |refs|);
    OutcomeFollowsVisits(remote, fileName, namespace, refs, |refs|);
  }

  /** Once a key has a first success, it stays the first success. */
  lemma {:induction false} FirstSuccessStable(remote: Remote, namespace: string, refs: seq<OwnerRef>, key: string, a: nat, b: nat)
    requires a <= b <= |refs|
    requires FirstSuccess(remote, namespace, refs, key, a).Some?
    ensures FirstSuccess(remote, namespace, refs, key, b) == FirstSuccess(remote, namespace, refs, key, a)
    decreases b
  {
    if b > a {
      FirstSuccessStable(remote, namespace, refs, key, a, b - 1);
    }
  }

  /**
    References of one file that share a memo key see the same owner: after a
    successful lookup, every later reference with that key reads it from the
    memo without asking the remote.
  */
  lemma SharedKeySeesSameOwner(remote: Remote, fileName: string, namespace: string, refs: seq<OwnerRef>, i: nat, j: nat)
    requires i < j < |refs|
    requires CacheKey(namespace, refs[i]) == CacheKey(namespace, refs[j])
    requires ReconcileRefs(remote, fileName, namespace, refs).visits[i].result.Found?
    ensures var p := ReconcileRefs(remote, fileName, namespace, refs);
            p.visits[j] == Visit(p.visits[i].result, false)
  {
    ReconcileRefsSpec(remote, fileName, namespace, refs);
    var key := CacheKey(namespace, refs[i]);
    var first := FirstSuccess(remote, namespace, refs, key, i);
    if first.Some? {
      FirstSuccessStable(remote, namespace, refs, key, i, j);
    } else {
      assert SucceedsWith(remote, namespace, refs[i], key);
      assert FirstSuccess(remote, namespace, refs, key, i + 1) == Some(i);
      FirstSuccessStable(remote, namespace, refs, key, i + 1, j);
    }
  }

  /** Within one file the remote answers successfully at most once per memo key. */
  lemma AtMostOneSuccessfulConsultPerKey(remote: Remote, fileName: string, namespace: string, refs: seq<OwnerRef>, i: nat, j: nat)
    requires i < j < |refs|
    requires CacheKey(namespace, refs[i]) == CacheKey(namespace, refs[j])
    requires var p := ReconcileRefs(remote, fileName, namespace, refs);
             p.visits[i].consulted && p.visits[j].consulted
    ensures !ReconcileRefs(remote, fileName, namespace, refs).visits[i].result.Found?
  {
    if ReconcileRefs(remote, fileName, namespace, refs).visits[i].result.Found? {
      SharedKeySeesSameOwner(remote, fileName, namespace, refs, i, j);
    }
  }

  /**
    Failed lookups are not remembered: a reference whose key has not yet
    been resolved successfully in this file asks the remote afresh.
  */
  lemma FailuresAreNotRemembered(remote: Remote, fileName: string, namespace: string, refs: seq<OwnerRef>, i: nat)
    requires i < |refs|
    requires var p := ReconcileRefs(remote, fileName, namespace, refs);
             forall j :: 0 <= j < i && CacheKey(namespace, refs[j]) == CacheKey(namespace, refs[i]) ==>
               !p.visits[j].result.Found?
    ensures var p := ReconcileRefs(remote, fileName, namespace, refs);
            p.visits[i] == Visit(Resolve(remote, namespace, refs[i].Describe()), true)
  {
    ReconcileRefsSpec(remote, fileName, namespace, refs);
    var key := CacheKey(namespace, refs[i]);
    var first := FirstSuccess(remote, namespace, refs, key, i);
    if first.Some? {
      assert false;
    }
  }

  /**
    The memo lives for one file: the first reference of every document asks
    the remote, whatever earlier documents resolved.
  */
  lemma MemoStartsEmptyPerFile(remote: Remote, fileName: string, namespace: string, refs: seq<OwnerRef>)
    requires |refs| > 0
    ensures ReconcileRefs(remote, fileName, namespace, refs).visits[0]
            == Visit(Resolve(remote, namespace, refs[0].Describe()), true)
  {
    ReconcileRefsSpec(remote, fileName, namespace, refs);
  }

  /**
    A malformed apiVersion is not fatal: that reference gets an `<ERROR>` row
    in its place and keeps its uid, and every reference is still visited.
  */
  lemma MalformedApiVersionIsNotFatal(remote: Remote, fileName: string, namespace: string, refs: seq<OwnerRef>, i: nat)
    requires i < |refs|
    requires remote.parseGroupVersion(refs[i].apiVersion).None?
    requires forall j :: 0 <= j < i && CacheKey(namespace, refs[j]) == CacheKey(namespace, refs[i]) ==>
               refs[j].apiVersion == refs[i].apiVersion
    ensures var p := ReconcileRefs(remote, fileName, namespace, refs);
            && |p.visits| == |refs|
            && p.visits[i] == Visit(OtherError, true)
            && p.refs[i] == refs[i]
            && RowsUpTo(fileName, refs, p.visits, i + 1)
               == RowsUpTo(fileName, refs, p.visits, i) + [Row(fileName, refs[i].kind, refs[i].name, refs[i].uid, ErrorMarker)]
  {
    ReconcileRefsSpec(remote, fileName, namespace, refs);
    var key := CacheKey(namespace, refs[i]);
    var first := FirstSuccess(remote, namespace, refs, key, i);
    if first.Some? {
      assert false;
    }
  }

  /** Every two references of the list with the same memo key resolve alike. */
  ghost predicate KeyDeterminesOwner(remote: Remote, namespace: string, refs: seq<OwnerRef>)
  {
    forall i, j :: 0 <= i < |refs| && 0 <= j < |refs| && CacheKey(namespace, refs[i]) == CacheKey(namespace, refs[j]) ==>
      Resolve(remote, namespace, refs[i].Describe()) == Resolve(remote, namespace, refs[j].Describe())
  }

  /**
    When the memo key determines the owner, the memo is invisible: every
    reference sees exactly what a fresh remote lookup would return.
  */
  lemma MemoIsTransparent(remote: Remote, fileName: string, namespace: string, refs: seq<OwnerRef>)
    requires KeyDeterminesOwner(remote, namespace, refs)
    ensures var p := ReconcileRefs(remote, fileName, namespace, refs);
            forall i :: 0 <= i < |refs| ==> p.visits[i].result == Resolve(remote, namespace, refs[i].Describe())
  {
    ReconcileRefsSpec(remote, fileName, namespace, refs);
  }

  /**
    The memo key leaves out the kind: a ReplicaSet reference that follows a
    Deployment reference with the same apiVersion and name is given the
    Deployment's uid, although the remote knows the ReplicaSet under another.
  */
  lemma KindIsNotPartOfTheKey(remote: Remote, namespace: string)
    requires Resolve(remote, namespace, Descriptor("apps/v1", "Deployment", "web")) == Found(Owner("uid-deploy"))
    requires Resolve(remote, namespace, Descriptor("apps/v1", "ReplicaSet", "web")) == Found(Owner("uid-rs"))
    ensures var refs := [OwnerRef("Deployment", "apps/v1", "web", "uid-deploy"),
                         OwnerRef("ReplicaSet", "apps/v1", "web", "uid-rs")];
            var p := ReconcileRefs(remote, "pod.yaml", namespace, refs);
            && p.refs[1].uid == "uid-deploy"
            && p.rows == [Row("pod.yaml", "ReplicaSet", "web", "uid-rs", "uid-deploy")]
            && p.changed
  {
    var refs := [OwnerRef("Deployment", "apps/v1", "web", "uid-deploy"),
                 OwnerRef("ReplicaSet", "apps/v1", "web", "uid-rs")];
    var p0 := ReconcileUpTo(remote, "pod.yaml", namespace, refs, 0);
    var p1 := ReconcileUpTo(remote, "pod.yaml", namespace, refs, 1);
    var p2 := ReconcileUpTo(remote, "pod.yaml", namespace, refs, 2);
    var key := CacheKey(namespace, refs[0]);
    assert refs[0].Describe() == Descriptor("apps/v1", "Deployment", "web");
    assert p1 == Step(remote, "pod.yaml", namespace, p0, 0);
    assert p1.cache == map[key := Owner("uid-deploy")] && p1.rows == [] && !p1.changed;
    assert CacheKey(namespace, refs[1]) == key;
    assert p2 == Step(remote, "pod.yaml", namespace, p1, 1);
  }

  /** Running the loop on lists that differ only in uids asks and sees the same. */
  lemma {:induction false} VisitsIgnoreUids(remote: Remote, fileName: string, namespace: string, refs: seq<OwnerRef>, refs': seq<OwnerRef>, n: nat)
    requires |refs| == |refs'| && n <= |refs|
    requires forall j :: 0 <= j < |refs| ==> refs'[j].SameOwner(refs[j])
    ensures ReconcileUpTo(remote, fileName, namespace, refs', n).visits
            == ReconcileUpTo(remote, fileName, namespace, refs, n).visits
  {
    VisitsAreObserved(remote, fileName, namespace, refs, n);
    VisitsAreObserved(remote, fileName, namespace, refs', n);
    forall i | 0 <= i < n
      ensures Observed(remote, namespace, refs', i) == Observed(remote, namespace, refs, i)
    {
      var key := CacheKey(namespace, refs[i]);
      assert CacheKey(namespace, refs'[i]) == key;
      FirstSuccessIgnoresUids(remote, namespace, refs, refs', key, i);
      var first := FirstSuccess(remote, namespace, refs, key, i);
      if first.Some? {
        assert refs'[first.value].Describe() == refs[first.value].Describe();
      }
    }
  }

  lemma {:induction false} FirstSuccessIgnoresUids(remote: Remote, namespace: string, refs: seq<OwnerRef>, refs': seq<OwnerRef>, key: string, n: nat)
    requires |refs| == |refs'| && n <= |refs|
    requires forall j :: 0 <= j < |refs| ==> refs'[j].SameOwner(refs[j])
    ensures FirstSuccess(remote, namespace, refs', key, n) == FirstSuccess(remote, namespace, refs, key, n)
  {
    if n > 0 {
      FirstSuccessIgnoresUids(remote, namespace, refs, refs', key, n - 1);
      assert refs'[n - 1].Describe() == refs[n - 1].Describe();
      assert CacheKey(namespace, refs'[n - 1]) == CacheKey(namespace, refs[n - 1]);
    }
  }

  /** The rows of the lookups among references `0..n` that failed, in declared order. */
  function FailureRows(fileName: string, refs: seq<OwnerRef>, visits: seq<Visit>, n: nat): seq<Row>
    requires n <= |refs| && n <= |visits|
  {
    if n == 0 then []
    else
      FailureRows(fileName, refs, visits, n - 1)
      + if visits[n - 1].result.Found? then [] else RowsFor(fileName, refs[n - 1], visits[n - 1].result)
  }

  /** On a list already corrected by its lookups, seeing the same lookups again reports only the failures. */
  lemma {:induction false} SecondPassReportsFailures(fileName: string, refs: seq<OwnerRef>, visits: seq<Visit>, n: nat)
    requires n <= |refs| && n <= |visits|
    ensures var fixed := seq(|refs|, i requires 0 <= i < |refs| =>
                           if i < |visits| then Apply(refs[i], visits[i].result) else refs[i]);
            RowsUpTo(fileName, fixed, visits, n) == FailureRows(fileName, refs, visits, n)
  {
    if n > 0 {
      SecondPassReportsFailures(fileName, refs, visits, n - 1);
    }
  }

  /**
    Idempotence: reconciling the corrected list again against the same remote
    sees the same lookups, changes nothing, and reports exactly the rows of
    the lookups that failed, in declared order.
  */
  lemma ReconcileIdempotent(remote: Remote, fileName: string, namespace: string, refs: seq<OwnerRef>)
    ensures var first := ReconcileRefs(remote, fileName, namespace, refs);
            var second := ReconcileRefs(remote, fileName, namespace, first.refs);
            && second.visits == first.visits
            && second.refs == first.refs
            && !second.changed
            && second.rows == FailureRows(fileName, refs, first.visits, |refs|)
  {
    var first := ReconcileRefs(remote, fileName, namespace, refs);
    var second := ReconcileRefs(remote, fileName, namespace, first.refs);
    SecondPassChangesNothing(remote, fileName, namespace, refs);
    OutcomeFollowsVisits(remote, fileName, namespace, first.refs, |refs|);
    assert second.rows == RowsUpTo(fileName, first.refs, first.visits, |refs|);
    var fixed := seq(|refs|, i requires 0 <= i < |refs| =>
                   if i < |first.visits| then Apply(refs[i], first.visits[i].result) else refs[i]);
    OutcomeFollowsVisits(remote, fileName, namespace, refs, |refs|);
    assert fixed == first.refs;
    SecondPassReportsFailures(fileName, refs, first.visits, |refs|);
  }

  /** The second pass sees the first pass's lookups, and they confirm every corrected uid. */
  lemma SecondPassChangesNothing(remote: Remote, fileName: string, namespace: string, refs: seq<OwnerRef>)
    ensures var first := ReconcileRefs(remote, fileName, namespace, refs);
            var second := ReconcileRefs(remote, fileName, namespace, first.refs);
            && second.visits == first.visits
            && second.refs == first.refs
            && !second.changed
  {
    var first := ReconcileRefs(remote, fileName, namespace, refs);
    OutcomeFollowsVisits(remote, fileName, namespace, refs, |refs|);
    VisitsIgnoreUids(remote, fileName, namespace, refs, first.refs, |refs|);
    var second := ReconcileRefs(remote, fileName, namespace, first.refs);
    OutcomeFollowsVisits(remote, fileName, namespace, first.refs, |refs|);
    forall i | 0 <= i < |refs|
      ensures second.refs[i] == first.refs[i] && !Corrects(first.refs[i], second.visits[i].result)
    {
    }
  }

  /**
    The write decision: a document is written back exactly when some owner's
    uid was corrected, that is exactly when its reference list changed, and
    then with the corrected list and everything else as it was.
  */
  lemma WrittenIffUidCorrected(remote: Remote, fileName: string, doc: Document)
    ensures var refs := doc.ownerReferences;
            var p := ReconcileRefs(remote, fileName, doc.namespace, refs);
            var r := ReconcileDocument(remote, fileName, doc);
            && (r.write.Some? <==> exists i :: 0 <= i < |refs| && Corrects(refs[i], p.visits[i].result))
            && (r.write.Some? <==> p.refs != refs)
            && (r.write.Some? ==> r.write.value == doc.(ownerReferences := p.refs))
            && r.rows == RowsUpTo(fileName, refs, p.visits, |refs|)
  {
    var refs := doc.ownerReferences;
    var p := ReconcileRefs(remote, fileName, doc.namespace, refs);
    ReconcileRefsSpec(remote, fileName, doc.namespace, refs);
    if p.changed {
      var i :| 0 <= i < |refs| && Corrects(refs[i], p.visits[i].result);
      assert p.refs[i].uid != refs[i].uid;
    } else {
      assert p.refs == refs;
    }
  }

  /**
    A written document, reconciled again against the same remote, is not
    written again, and its rows are exactly those of the failed lookups.
  */
  lemma DocumentIdempotent(remote: Remote, fileName: string, doc: Document)
    requires ReconcileDocument(remote, fileName, doc).write.Some?
    ensures var again := ReconcileDocument(remote, fileName, ReconcileDocument(remote, fileName, doc).write.value);
            && again.write.None?
            && again.rows == FailureRows(fileName, doc.ownerReferences,
                                         ReconcileRefs(remote, fileName, doc.namespace, doc.ownerReferences).visits,
                                         |doc.ownerReferences|)
  {
    var refs := doc.ownerReferences;
    var doc' := ReconcileDocument(remote, fileName, doc).write.value;
    assert doc'.ownerReferences == ReconcileRefs(remote, fileName, doc.namespace, refs).refs;
    ReconcileIdempotent(remote, fileName, doc.namespace, refs);
  }

  /**
    A stale owner: `pod.yaml` under the export root, owned by
    ReplicaSet `rs-a` whose recorded uid is stale, is rewritten with the live
    uid and reported in exactly one row.
  */
  lemma StaleOwnerScenario(files: Files, remote: Remote, root: string)
    requires var doc := Document("ns1", [OwnerRef("ReplicaSet", "apps/v1", "rs-a", "old-uid")], "pod");
             && files.read(root + "/pod.yaml") == Decoded(doc)
             && files.write(root + "/pod.yaml", doc.(ownerReferences := [OwnerRef("ReplicaSet", "apps/v1", "rs-a", "new-uid")])) == Written
    requires Resolve(remote, "ns1", Descriptor("apps/v1", "ReplicaSet", "rs-a")) == Found(Owner("new-uid"))
    ensures var doc := Document("ns1", [OwnerRef("ReplicaSet", "apps/v1", "rs-a", "old-uid")], "pod");
            UpdateFile(files, remote, root, root + "/pod.yaml")
            == Ok(FileOutcome([Row("pod.yaml", "ReplicaSet", "rs-a", "old-uid", "new-uid")],
                              Some(doc.(ownerReferences := [OwnerRef("ReplicaSet", "apps/v1", "rs-a", "new-uid")]))))
  {
    assert root + "/pod.yaml" == root + "/" + "pod.yaml";
    RelativeNameStripsRoot(root, "pod.yaml");
    assert RelativeName(root, root + "/pod.yaml") == "pod.yaml";
    StaleOwnerDocument(remote);
  }

  /** The document part of the stale-owner case: one correction, one row, one write. */
  lemma StaleOwnerDocument(remote: Remote)
    requires Resolve(remote, "ns1", Descriptor("apps/v1", "ReplicaSet", "rs-a")) == Found(Owner("new-uid"))
    ensures var ref := OwnerRef("ReplicaSet", "apps/v1", "rs-a", "old-uid");
            var doc := Document("ns1", [ref], "pod");
            ReconcileDocument(remote, "pod.yaml", doc)
            == FileOutcome([Row("pod.yaml", "ReplicaSet", "rs-a", "old-uid", "new-uid")],
                           Some(doc.(ownerReferences := [ref.(uid := "new-uid")])))
  {
    var ref := OwnerRef("ReplicaSet", "apps/v1", "rs-a", "old-uid");
    assert ref.Describe() == Descriptor("apps/v1", "ReplicaSet", "rs-a");
    var p0 := ReconcileUpTo(remote, "pod.yaml", "ns1", [ref], 0);
    var p1 := ReconcileUpTo(remote, "pod.yaml", "ns1", [ref], 1);
    assert p1 == Step(remote, "pod.yaml", "ns1", p0, 0);
    assert p1.refs == [ref.(uid := "new-uid")];
    assert p1.rows == [Row("pod.yaml", "ReplicaSet", "rs-a", "old-uid", "new-uid")];
    assert p1.changed;
    assert ReconcileRefs(remote, "pod.yaml", "ns1", [ref]) == p1;
  }

  /**
    Partial-failure isolation: when the middle of three owners is missing, the
    first and third are still corrected and reported, around a not-found row.
  */
  lemma MissingOwnerDoesNotStopTheFile(remote: Remote, fileName: string, namespace: string, a: OwnerRef, b: OwnerRef, c: OwnerRef, ua: string, uc: string)
    requires Resolve(remote, namespace, a.Describe()) == Found(Owner(ua)) && ua != a.uid
    requires Resolve(remote, namespace, b.Describe()) == NotFound
    requires Resolve(remote, namespace, c.Describe()) == Found(Owner(uc)) && uc != c.uid
    requires CacheKey(namespace, a) != CacheKey(namespace, b) && CacheKey(namespace, a) != CacheKey(namespace, c)
    ensures var p := ReconcileRefs(remote, fileName, namespace, [a, b, c]);
            && p.refs == [a.(uid := ua), b, c.(uid := uc)]
            && p.rows == [Row(fileName, a.kind, a.name, a.uid, ua),
                          Row(fileName, b.kind, b.name, b.uid, NotFoundMarker),
                          Row(fileName, c.kind, c.name, c.uid, uc)]
            && p.changed
  {
    var refs := [a, b, c];
    var p2 := ReconcileUpTo(remote, fileName, namespace, refs, 2);
    MissingOwnerFirstTwo(remote, fileName, namespace, a, b, c, ua);
    assert ReconcileUpTo(remote, fileName, namespace, refs, 3) == Step(remote, fileName, namespace, p2, 2);
    assert p2.refs[2] == c;
    StepResolvesMiss(remote, fileName, namespace, p2, 2, uc);
    assert p2.refs[2 := c.(uid := uc)] == [a.(uid := ua), b, c.(uid := uc)];
  }

  /** The first two references of the partial-failure case: a correction, then a not-found row. */
  lemma MissingOwnerFirstTwo(remote: Remote, fileName: string, namespace: string, a: OwnerRef, b: OwnerRef, c: OwnerRef, ua: string)
    requires Resolve(remote, namespace, a.Describe()) == Found(Owner(ua)) && ua != a.uid
    requires Resolve(remote, namespace, b.Describe()) == NotFound
    requires CacheKey(namespace, a) != CacheKey(namespace, b)
    ensures var p := ReconcileUpTo(remote, fileName, namespace, [a, b, c], 2);
            && p.refs == [a.(uid := ua), b, c]
            && p.rows == [Row(fileName, a.kind, a.name, a.uid, ua), Row(fileName, b.kind, b.name, b.uid, NotFoundMarker)]
            && p.changed
            && p.cache == map[CacheKey(namespace, a) := Owner(ua)]
  {
    var refs := [a, b, c];
    var p0 := ReconcileUpTo(remote, fileName, namespace, refs, 0);
    var p1 := ReconcileUpTo(remote, fileName, namespace, refs, 1);
    assert p1 == Step(remote, fileName, namespace, p0, 0);
    StepResolvesMiss(remote, fileName, namespace, p0, 0, ua);
    assert p1.refs == [a.(uid := ua), b, c];
    assert ReconcileUpTo(remote, fileName, namespace, refs, 2) == Step(remote, fileName, namespace, p1, 1);
    StepMissesOwner(remote, fileName, namespace, p1, 1);
  }

  /** A memo miss whose owner is found with another uid: the uid is corrected, reported and remembered. */
  lemma StepResolvesMiss(remote: Remote, fileName: string, namespace: string, p: Pass, i: nat, u: string)
    requires i < |p.refs|
    requires CacheKey(namespace, p.refs[i]) !in p.cache
    requires Resolve(remote, namespace, p.refs[i].Describe()) == Found(Owner(u)) && u != p.refs[i].uid
    ensures var q := Step(remote, fileName, namespace, p, i);
            var ref := p.refs[i];
            && q.refs == p.refs[i := ref.(uid := u)]
            && q.rows == p.rows + [Row(fileName, ref.kind, ref.name, ref.uid, u)]
            && q.changed
            && q.cache == p.cache[CacheKey(namespace, ref) := Owner(u)]
  {
  }

  /** A memo miss whose owner is not found: one `<NOT FOUND>` row, nothing else changes. */
  lemma StepMissesOwner(remote: Remote, fileName: string, namespace: string, p: Pass, i: nat)
    requires i < |p.refs|
    requires CacheKey(namespace, p.refs[i]) !in p.cache
    requires Resolve(remote, namespace, p.refs[i].Describe()) == NotFound
    ensures var q := Step(remote, fileName, namespace, p, i);
            var ref := p.refs[i];
            && q.refs == p.refs
            && q.rows == p.rows + [Row(fileName, ref.kind, ref.name, ref.uid, NotFoundMarker)]
            && q.changed == p.changed
            && q.cache == p.cache
  {
  }
}
