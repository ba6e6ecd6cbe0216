/**
  What `updateFile`'s loop computes, stated without the memo: each
  reference sees the result of resolving the first reference with its key
  that resolved successfully, or its own resolution when there is none; its
  outcome then depends only on that result.
*/
module ReconcileFacts {
  import opened Wrappers
  import opened Objects
  import opened Remote
  import opened Owners
  import opened Reconcile

  /** A reference after its lookup: a found owner's uid replaces the recorded one. */
  function Apply(ref: OwnerRef, l: Lookup): OwnerRef
  {
    if l.Found? then ref.(uid := l.owner.uid) else ref
  }

  /** The lookup shows the recorded uid to be stale. */
  predicate Corrects(ref: OwnerRef, l: Lookup)
  {
    l.Found? && l.owner.uid != ref.uid
  }

  /** The rows one reference contributes: a marker row for a failure, a from/to row for a stale uid. */
  function RowsFor(fileName: string, ref: OwnerRef, l: Lookup): seq<Row>
  {
    match l
    case NotFound => [Row(fileName, ref.kind, ref.name, ref.uid, NotFoundMarker)]
    case OtherError => [Row(fileName, ref.kind, ref.name, ref.uid, ErrorMarker)]
    case Found(owner) =>
      if owner.uid == ref.uid then [] else [Row(fileName, ref.kind, ref.name, ref.uid, owner.uid)]
  }

  /** The rows of references `0..n`, in declared order. */
  function RowsUpTo(fileName: string, refs: seq<OwnerRef>, visits: seq<Visit>, n: nat): seq<Row>
    requires n <= |refs| && n <= |visits|
  {
    if n == 0 then []
    else RowsUpTo(fileName, refs, visits, n - 1) + RowsFor(fileName, refs[n - 1], visits[n - 1].result)
  }

  /** Reference `ref` carries `key` and resolves successfully. */
  predicate SucceedsWith(remote: Remote, namespace: string, ref: OwnerRef, key: string)
  {
    CacheKey(namespace, ref) == key && Resolve(remote, namespace, ref.Describe()).Found?
  }

  /** The first of references `0..n` that carries `key` and resolves successfully. */
  function FirstSuccess(remote: Remote, namespace: string, refs: seq<OwnerRef>, key: string, n: nat): (r: Option<nat>)
    requires n <= |refs|
    ensures r.Some? ==> r.value < n && SucceedsWith(remote, namespace, refs[r.value], key)
    ensures r.Some? ==> forall j :: 0 <= j < r.value ==> !SucceedsWith(remote, namespace, refs[j], key)
    ensures r.None? ==> forall j :: 0 <= j < n ==> !SucceedsWith(remote, namespace, refs[j], key)
  {
    if n == 0 then None
    else
      var earlier := FirstSuccess(remote, namespace, refs, key, n - 1);
      if earlier.Some? then earlier
      else if SucceedsWith(remote, namespace, refs[n - 1], key) then Some(n - 1)
      else None
  }

  /**
    The memo-free description of what reference `i` sees: the owner first
    resolved for its key, read from the memo, or otherwise a fresh remote lookup.
  */
  function Observed(remote: Remote, namespace: string, refs: seq<OwnerRef>, i: nat): Visit
    requires i < |refs|
  {
    match FirstSuccess(remote, namespace, refs, CacheKey(namespace, refs[i]), i)
    case Some(j) => Visit(Resolve(remote, namespace, refs[j].Describe()), false)
    case None => Visit(Resolve(remote, namespace, refs[i].Describe()), true)
  }

  /** The memo after `n` references holds exactly the first successful owner per key. */
  ghost predicate CacheHoldsFirstSuccesses(remote: Remote, namespace: string, refs: seq<OwnerRef>, n: nat, cache: Cache)
    requires n <= |refs|
  {
    forall key ::
      && (key in cache <==> FirstSuccess(remote, namespace, refs, key, n).Some?)
      && (key in cache ==>
            Resolve(remote, namespace, refs[FirstSuccess(remote, namespace, refs, key, n).value].Describe())
            == Found(cache[key]))
  }

  lemma {:induction false} RowsUpToPrefix(fileName: string, refs: seq<OwnerRef>, v1: seq<Visit>, v2: seq<Visit>, n: nat)
    requires n <= |refs| && n <= |v1| && n <= |v2|
    requires v1[..n] == v2[..n]
    ensures RowsUpTo(fileName, refs, v1, n) == RowsUpTo(fileName, refs, v2, n)
  {
    if n > 0 {
      assert v1[..n - 1] == v1[..n][..n - 1];
      assert v2[..n - 1] == v2[..n][..n - 1];
      assert v1[n - 1] == v1[..n][n - 1];
      assert v2[n - 1] == v2[..n][n - 1];
      RowsUpToPrefix(fileName, refs, v1, v2, n - 1);
    }
  }

  /** One step of the memo: looking up reference `m` keeps the memo holding the first successes. */
  lemma MemoStep(remote: Remote, namespace: string, refs: seq<OwnerRef>, m: nat, cache: Cache)
    requires m < |refs|
    requires CacheHoldsFirstSuccesses(remote, namespace, refs, m, cache)
    ensures var found := FindOwner(remote, cache, namespace, refs[m]);
            && Visit(found.result, found.consulted) == Observed(remote, namespace, refs, m)
            && CacheHoldsFirstSuccesses(remote, namespace, refs, m + 1, found.cache)
  {
    var ref := refs[m];
    var key := CacheKey(namespace, ref);
    var found := FindOwner(remote, cache, namespace, ref);
    if key in cache {
      var j := FirstSuccess(remote, namespace, refs, key, m).value;
      assert Resolve(remote, namespace, refs[j].Describe()) == Found(cache[key]);
    } else {
      assert FirstSuccess(remote, namespace, refs, key, m).None?;
    }
    forall k
      ensures && (k in found.cache <==> FirstSuccess(remote, namespace, refs, k, m + 1).Some?)
              && (k in found.cache ==>
                    Resolve(remote, namespace, refs[FirstSuccess(remote, namespace, refs, k, m + 1).value].Describe())
                    == Found(found.cache[k]))
    {
      var before := FirstSuccess(remote, namespace, refs, k, m);
      assert k in cache <==> before.Some?;
      if k != key {
        assert !SucceedsWith(remote, namespace, ref, k);
        assert FirstSuccess(remote, namespace, refs, k, m + 1) == before;
      } else if key in cache {
        assert FirstSuccess(remote, namespace, refs, k, m + 1) == before;
      } else if found.result.Found? {
        assert SucceedsWith(remote, namespace, ref, k);
        assert FirstSuccess(remote, namespace, refs, k, m + 1) == Some(m);
      } else {
        assert !SucceedsWith(remote, namespace, ref, k);
        assert FirstSuccess(remote, namespace, refs, k, m + 1) == before;
      }
    }
  }

  /** Each visit so far is the observed one, and the memo holds the first successes. */
  ghost predicate MemoInvariant(remote: Remote, fileName: string, namespace: string, refs: seq<OwnerRef>, n: nat)
    requires n <= |refs|
  {
    var p := ReconcileUpTo(remote, fileName, namespace, refs, n);
    && (forall i :: 0 <= i < n ==> p.visits[i] == Observed(remote, namespace, refs, i))
    && CacheHoldsFirstSuccesses(remote, namespace, refs, n, p.cache)
  }

  /**
    What the memo makes each reference see: visit `i` is the observed one,
    and the memo holds the first successful owner of each key so far.
  */
  lemma {:induction false} VisitsAreObserved(remote: Remote, fileName: string, namespace: string, refs: seq<OwnerRef>, n: nat)
    requires n <= |refs|
    ensures MemoInvariant(remote, fileName, namespace, refs, n)
  {
    if n == 0 {
      MemoInvariantStart(remote, fileName, namespace, refs);
    } else {
      VisitsAreObserved(remote, fileName, namespace, refs, n - 1);
      MemoInvariantStep(remote, fileName, namespace, refs, n - 1);
    }
  }

  lemma MemoInvariantStart(remote: Remote, fileName: string, namespace: string, refs: seq<OwnerRef>)
    ensures MemoInvariant(remote, fileName, namespace, refs, 0)
  {
    assert ReconcileUpTo(remote, fileName, namespace, refs, 0).cache == map[];
    EmptyMemoHoldsFirstSuccesses(remote, namespace, refs);
  }

  lemma MemoInvariantStep(remote: Remote, fileName: string, namespace: string, refs: seq<OwnerRef>, m: nat)
    requires m < |refs|
    requires MemoInvariant(remote, fileName, namespace, refs, m)
    ensures MemoInvariant(remote, fileName, namespace, refs, m + 1)
  {
    var p := ReconcileUpTo(remote, fileName, namespace, refs, m);
    var q := ReconcileUpTo(remote, fileName, namespace, refs, m + 1);
    assert p.refs[m] == refs[m];
    var found := FindOwner(remote, p.cache, namespace, refs[m]);
    assert q.cache == found.cache && q.visits[m] == Visit(found.result, found.consulted);
    MemoStep(remote, namespace, refs, m, p.cache);
    forall i | 0 <= i < m
      ensures q.visits[i] == Observed(remote, namespace, refs, i)
    {
      assert q.visits[i] == q.visits[..m][i] == p.visits[i];
    }
  }

  lemma EmptyMemoHoldsFirstSuccesses(remote: Remote, namespace: string, refs: seq<OwnerRef>)
    ensures CacheHoldsFirstSuccesses(remote, namespace, refs, 0, map[])
  {
    forall key
      ensures FirstSuccess(remote, namespace, refs, key, 0).None?
    {
    }
  }

  /** Each handled reference is corrected by its lookup; rows and `changed` follow the lookups. */
  ghost predicate OutcomeInvariant(remote: Remote, fileName: string, namespace: string, refs: seq<OwnerRef>, n: nat)
    requires n <= |refs|
  {
    var p := ReconcileUpTo(remote, fileName, namespace, refs, n);
    && (forall i :: 0 <= i < n ==> p.refs[i] == Apply(refs[i], p.visits[i].result))
    && p.rows == RowsUpTo(fileName, refs, p.visits, n)
    && (p.changed <==> exists i :: 0 <= i < n && Corrects(refs[i], p.visits[i].result))
  }

  /**
    The loop's effect after `n` references in terms of what they saw: each
    handled reference is corrected by its lookup, the rows are the
    per-reference rows in declared order, and `changed` records a correction.
  */
  lemma {:induction false} OutcomeFollowsVisits(remote: Remote, fileName: string, namespace: string, refs: seq<OwnerRef>, n: nat)
    requires n <= |refs|
    ensures OutcomeInvariant(remote, fileName, namespace, refs, n)
  {
    if n == 0 {
      assert ReconcileUpTo(remote, fileName, namespace, refs, 0) == Pass(refs, map[], [], false, []);
    } else {
      OutcomeFollowsVisits(remote, fileName, namespace, refs, n - 1);
      OutcomeInvariantStep(remote, fileName, namespace, refs, n - 1);
    }
  }

  lemma OutcomeInvariantStep(remote: Remote, fileName: string, namespace: string, refs: seq<OwnerRef>, m: nat)
    requires m < |refs|
    requires OutcomeInvariant(remote, fileName, namespace, refs, m)
    ensures OutcomeInvariant(remote, fileName, namespace, refs, m + 1)
  {
    var p := ReconcileUpTo(remote, fileName, namespace, refs, m);
    assert ReconcileUpTo(remote, fileName, namespace, refs, m + 1) == Step(remote, fileName, namespace, p, m);
    StepKeepsOutcome(remote, fileName, namespace, refs, p, m);
  }

  /** The outcome conjuncts of `OutcomeInvariant`, for an arbitrary pass `p` over `refs[..m]`. */
  ghost predicate OutcomeHolds(fileName: string, refs: seq<OwnerRef>, p: Pass, m: nat)
    requires m <= |refs| && |p.refs| == |refs| && |p.visits| == m
  {
    && (forall i :: 0 <= i < m ==> p.refs[i] == Apply(refs[i], p.visits[i].result))
    && p.rows == RowsUpTo(fileName, refs, p.visits, m)
    && (p.changed <==> exists i :: 0 <= i < m && Corrects(refs[i], p.visits[i].result))
  }

  /** One step of the loop extends the outcome by the rows and correction of reference `m`. */
  lemma StepKeepsOutcome(remote: Remote, fileName: string, namespace: string, refs: seq<OwnerRef>, p: Pass, m: nat)
    requires m < |refs| && |p.refs| == |refs| && |p.visits| == m && p.refs[m] == refs[m]
    requires OutcomeHolds(fileName, refs, p, m)
    ensures var q := Step(remote, fileName, namespace, p, m);
            |q.refs| == |refs| && |q.visits| == m + 1 && OutcomeHolds(fileName, refs, q, m + 1)
  {
    var q := Step(remote, fileName, namespace, p, m);
    forall i | 0 <= i < m
      ensures q.visits[i] == p.visits[i]
    {
      assert q.visits[i] == q.visits[..m][i];
    }
    StepCorrectsRef(remote, fileName, namespace, refs, p, m);
    StepAppendsRows(remote, fileName, namespace, refs, p, m);
    StepTracksChanged(remote, fileName, namespace, refs, p, m);
  }

  lemma StepCorrectsRef(remote: Remote, fileName: string, namespace: string, refs: seq<OwnerRef>, p: Pass, m: nat)
    requires m < |refs| && |p.refs| == |refs| && |p.visits| == m && p.refs[m] == refs[m]
    requires forall i :: 0 <= i < m ==> p.refs[i] == Apply(refs[i], p.visits[i].result)
    ensures var q := Step(remote, fileName, namespace, p, m);
            forall i :: 0 <= i <= m ==> q.refs[i] == Apply(refs[i], q.visits[i].result)
  {
    var q := Step(remote, fileName, namespace, p, m);
    forall i | 0 <= i <= m
      ensures q.refs[i] == Apply(refs[i], q.visits[i].result)
    {
      if i < m {
        assert q.visits[i] == q.visits[..m][i];
        assert q.refs[i] == p.refs[i];
      }
    }
  }

  lemma StepAppendsRows(remote: Remote, fileName: string, namespace: string, refs: seq<OwnerRef>, p: Pass, m: nat)
    requires m < |refs| && |p.refs| == |refs| && |p.visits| == m && p.refs[m] == refs[m]
    requires p.rows == RowsUpTo(fileName, refs, p.visits, m)
    ensures var q := Step(remote, fileName, namespace, p, m);
            q.rows == RowsUpTo(fileName, refs, q.visits, m + 1)
  {
    var q := Step(remote, fileName, namespace, p, m);
    RowsUpToPrefix(fileName, refs, p.visits, q.visits, m);
    assert q.rows == p.rows + RowsFor(fileName, refs[m], q.visits[m].result);
  }

  lemma StepTracksChanged(remote: Remote, fileName: string, namespace: string, refs: seq<OwnerRef>, p: Pass, m: nat)
    requires m < |refs| && |p.refs| == |refs| && |p.visits| == m && p.refs[m] == refs[m]
    requires p.changed <==> exists i :: 0 <= i < m && Corrects(refs[i], p.visits[i].result)
    ensures var q := Step(remote, fileName, namespace, p, m);
            q.changed <==> exists i :: 0 <= i <= m && Corrects(refs[i], q.visits[i].result)
  {
    var q := Step(remote, fileName, namespace, p, m);
    if exists i :: 0 <= i <= m && Corrects(refs[i], q.visits[i].result) {
      var i :| 0 <= i <= m && Corrects(refs[i], q.visits[i].result);
      if i < m {
        assert q.visits[i] == q.visits[..m][i];
        assert Corrects(refs[i], p.visits[i].result);
      }
    }
    if p.changed {
      var i :| 0 <= i < m && Corrects(refs[i], p.visits[i].result);
      assert q.visits[i] == q.visits[..m][i];
    }
  }
}
