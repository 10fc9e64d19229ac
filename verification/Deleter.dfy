/**
 Halve-and-retry deletion. Whatever the runner does, every id is judged exactly once,
 and each verdict is backed by a run in the log.
 */
module Deleter {

  const DEFAULT_BATCH_SIZE: nat := 500
  const MIN_BATCH_SIZE: nat := 8

  /** The outcome of `strfry delete`: call number and ids decide whether it fails. */
  class Runner {
    const fails: (nat, seq<string>) -> bool
    ghost var log: seq<(seq<string>, bool)>
    var calls: nat

    constructor (fails: (nat, seq<string>) -> bool)
      ensures this.fails == fails && log == [] && Valid()
    {
      this.fails, log, calls := fails, [], 0;
    }

    ghost predicate Valid()
      reads this
    {
      |log| == calls && forall k :: 0 <= k < |log| ==> log[k].1 == fails(k, log[k].0)
    }

    method RunDelete(ids: seq<string>) returns (err: bool)
      requires Valid()
      modifies this
      ensures Valid() && log == old(log) + [(ids, err)]
    {
      err := fails(calls, ids);
      log, calls := log + [(ids, err)], calls + 1;
    }
  }

  class Result {
    var deleted: seq<string>
    var failed: seq<string>

    constructor ()
      ensures deleted == [] && failed == []
    {
      deleted, failed := [], [];
    }
  }

  // ---------------------------------------------------------------------------
  // Verdicts
  // ---------------------------------------------------------------------------

  /** The ids with a given verdict, in order. */
  function Pick(ids: seq<string>, verdict: seq<bool>, v: bool): (s: seq<string>)
    requires |ids| == |verdict|
  {
    if ids == [] then [] else Head(ids, verdict, v) + Pick(ids[1..], verdict[1..], v)
  }

  function Head(ids: seq<string>, verdict: seq<bool>, v: bool): (s: seq<string>)
    requires |ids| == |verdict| && ids != []
  {
    if verdict[0] == v then [ids[0]] else []
  }

  lemma {:induction false} PickConcat(a: seq<string>, va: seq<bool>, b: seq<string>, vb: seq<bool>, v: bool)
    requires |a| == |va| && |b| == |vb|
    ensures Pick(a + b, va + vb, v) == Pick(a, va, v) + Pick(b, vb, v)
  {
    if a == [] {
      assert a + b == b && va + vb == vb;
    } else {
      PickConcat(a[1..], va[1..], b, vb, v);
      var h, x, y := Head(a, va, v), Pick(a[1..], va[1..], v), Pick(b, vb, v);
      assert (a + b)[1..] == a[1..] + b && (va + vb)[1..] == va[1..] + vb;
      assert Pick(a + b, va + vb, v) == h + (x + y);
      assert h + (x + y) == (h + x) + y;
    }
  }

  /** Deleted and failed together are exactly the ids, each as often as it was given. */
  lemma {:induction false} PickPartitions(ids: seq<string>, verdict: seq<bool>)
    requires |ids| == |verdict|
    ensures multiset(Pick(ids, verdict, true)) + multiset(Pick(ids, verdict, false)) == multiset(ids)
  {
    if ids != [] {
      PickPartitions(ids[1..], verdict[1..]);
      var x, t, f := ids[0], Pick(ids[1..], verdict[1..], true), Pick(ids[1..], verdict[1..], false);
      assert ids == [x] + ids[1..];
      if verdict[0] {
        assert Pick(ids, verdict, true) == [x] + t && Pick(ids, verdict, false) == [] + f == f;
      } else {
        assert Pick(ids, verdict, true) == [] + t == t && Pick(ids, verdict, false) == [x] + f;
      }
    }
  }

  /** A run since `from` that succeeded with `id` in its batch. */
  ghost predicate Succeeded(log: seq<(seq<string>, bool)>, from: nat, id: string)
  {
    exists k :: from <= k < |log| && !log[k].1 && id in log[k].0
  }

  /** A run since `from` for `id` alone that failed. */
  ghost predicate FailedAlone(log: seq<(seq<string>, bool)>, from: nat, id: string)
  {
    exists k :: from <= k < |log| && log[k] == ([id], true)
  }

  ghost predicate Backed(log: seq<(seq<string>, bool)>, from: nat, ids: seq<string>, verdict: seq<bool>)
  {
    && |verdict| == |ids|
    && forall i :: 0 <= i < |ids| ==>
         if verdict[i] then Succeeded(log, from, ids[i]) else FailedAlone(log, from, ids[i])
  }

  lemma BackedLater(log: seq<(seq<string>, bool)>, log': seq<(seq<string>, bool)>, from: nat, from': nat,
                    ids: seq<string>, verdict: seq<bool>)
    requires Backed(log, from, ids, verdict) && log <= log' && from' <= from
    ensures Backed(log', from', ids, verdict)
  {
  }

  lemma BackedConcat(log: seq<(seq<string>, bool)>, from: nat, a: seq<string>, va: seq<bool>, b: seq<string>,
                     vb: seq<bool>)
    requires Backed(log, from, a, va) && Backed(log, from, b, vb)
    ensures Backed(log, from, a + b, va + vb)
  {
  }

  /** What a deletion of `ids` has done to the result, with its verdict on every id. */
  ghost predicate Outcome(log: seq<(seq<string>, bool)>, from: nat, ids: seq<string>, verdict: seq<bool>,
                          deleted0: seq<string>, failed0: seq<string>, deleted: seq<string>, failed: seq<string>)
  {
    && Backed(log, from, ids, verdict)
    && deleted == deleted0 + Pick(ids, verdict, true)
    && failed == failed0 + Pick(ids, verdict, false)
  }

  lemma OutcomeConcat(log1: seq<(seq<string>, bool)>, log: seq<(seq<string>, bool)>, from: nat, a: seq<string>,
                      va: seq<bool>, b: seq<string>, vb: seq<bool>, d0: seq<string>, f0: seq<string>, d1: seq<string>,
                      f1: seq<string>, d2: seq<string>, f2: seq<string>)
    requires log1 <= log && from <= |log1|
    requires Outcome(log1, from, a, va, d0, f0, d1, f1) && Outcome(log, |log1|, b, vb, d1, f1, d2, f2)
    ensures Outcome(log, from, a + b, va + vb, d0, f0, d2, f2)
  {
    BackedLater(log1, log, from, from, a, va);
    BackedLater(log, log, |log1|, from, b, vb);
    BackedConcat(log, from, a, va, b, vb);
    PickConcat(a, va, b, vb, true);
    PickConcat(a, va, b, vb, false);
  }

  // ---------------------------------------------------------------------------
  // Deletion
  // ---------------------------------------------------------------------------

  ghost function AllTrue(n: nat): (s: seq<bool>)
    ensures |s| == n && forall i :: 0 <= i < n ==> s[i]
  {
    seq(n, i => true)
  }

  lemma {:induction false} PickAll(ids: seq<string>)
    ensures Pick(ids, AllTrue(|ids|), true) == ids && Pick(ids, AllTrue(|ids|), false) == []
  {
    if ids != [] {
      PickAll(ids[1..]);
      assert AllTrue(|ids|)[1..] == AllTrue(|ids[1..]|);
      assert ids == [ids[0]] + ids[1..];
    }
  }

  lemma PickOne(id: string, v: bool)
    ensures Pick([id], [v], true) == (if v then [id] else []) && Pick([id], [v], false) == (if v then [] else [id])
  {
  }

  /** Every run since `from` is for at least one and at most `size` ids. */
  ghost predicate RunsWithin(log: seq<(seq<string>, bool)>, from: nat, size: nat)
  {
    forall k :: from <= k < |log| ==> 1 <= |log[k].0| <= size
  }

  lemma MoreRuns(log0: seq<(seq<string>, bool)>, log1: seq<(seq<string>, bool)>, log: seq<(seq<string>, bool)>,
                 size: nat)
    requires log0 <= log1 <= log && RunsWithin(log1, |log0|, size) && RunsWithin(log, |log1|, size)
    ensures RunsWithin(log, |log0|, size)
  {
  }

  /** Run number k is for these ids. */
  ghost predicate IsRunFor(log: seq<(seq<string>, bool)>, k: nat, ids: seq<string>)
  {
    k < |log| && log[k].0 == ids
  }

  /** The first batch of a range starts its runs. */
  lemma FirstBatch(log0: seq<(seq<string>, bool)>, log1: seq<(seq<string>, bool)>, log: seq<(seq<string>, bool)>,
                   ids: seq<string>, start: nat, end: nat, size: nat)
    requires log0 <= log1 <= log && start < |ids| && size >= 1
    requires end == if start + size > |ids| then |ids| else start + size
    requires start == 0 ==> log1 == log0
    requires start > 0 ==> IsRunFor(log1, |log0|, First(ids, size))
    requires IsRunFor(log, |log1|, ids[start..end])
    ensures IsRunFor(log, |log0|, First(ids, size))
  {
    if start == 0 {
      assert ids[start..end] == First(ids, size);
    }
  }

  /** At most the first n ids. */
  function First(ids: seq<string>, n: nat): (s: seq<string>)
  {
    if n < |ids| then ids[..n] else ids
  }

  /** One id on its own. */
  method DeleteOne(r: Runner, id: string, res: Result) returns (ghost verdict: seq<bool>)
    requires r.Valid()
    modifies r, res
    ensures r.Valid() && old(r.log) <= r.log && |r.log| == |old(r.log)| + 1 && r.log[|old(r.log)|].0 == [id]
    ensures Outcome(r.log, |old(r.log)|, [id], verdict, old(res.deleted), old(res.failed), res.deleted, res.failed)
  {
    var err := r.RunDelete([id]);
    assert r.log[|old(r.log)|] == ([id], err);
    PickOne(id, !err);
    verdict := [!err];
    if err {
      res.failed := res.failed + [id];
    } else {
      assert id in r.log[|old(r.log)|].0;
      res.deleted := res.deleted + [id];
    }
  }

  /** The runs since `from` are one for each id on its own, in order. */
  ghost predicate AreSingles(log: seq<(seq<string>, bool)>, from: nat, ids: seq<string>)
  {
    |log| == from + |ids| && forall k :: from <= k < |log| ==> log[k].0 == [ids[k - from]]
  }

  lemma OneMoreSingle(log1: seq<(seq<string>, bool)>, log: seq<(seq<string>, bool)>, from: nat, batch: seq<string>,
                      i: nat, va: seq<bool>, vb: seq<bool>, d0: seq<string>, f0: seq<string>, d1: seq<string>,
                      f1: seq<string>, d2: seq<string>, f2: seq<string>)
    requires i < |batch| && from <= |log1| && log1 <= log && |log| == |log1| + 1 && log[|log1|].0 == [batch[i]]
    requires AreSingles(log1, from, batch[..i]) && Outcome(log1, from, batch[..i], va, d0, f0, d1, f1)
    requires Outcome(log, |log1|, [batch[i]], vb, d1, f1, d2, f2)
    ensures AreSingles(log, from, batch[..i + 1]) && Outcome(log, from, batch[..i + 1], va + vb, d0, f0, d2, f2)
  {
    OutcomeConcat(log1, log, from, batch[..i], va, [batch[i]], vb, d0, f0, d1, f1, d2, f2);
    assert batch[..i + 1] == batch[..i] + [batch[i]];
  }

  method DeleteOneByOne(r: Runner, batch: seq<string>, res: Result) returns (ghost verdict: seq<bool>)
    requires r.Valid()
    modifies r, res
    ensures r.Valid() && old(r.log) <= r.log && AreSingles(r.log, |old(r.log)|, batch)
    ensures Outcome(r.log, |old(r.log)|, batch, verdict, old(res.deleted), old(res.failed), res.deleted, res.failed)
  {
    verdict := [];
    for i := 0 to |batch|
      invariant r.Valid() && old(r.log) <= r.log && AreSingles(r.log, |old(r.log)|, batch[..i])
      invariant Outcome(r.log, |old(r.log)|, batch[..i], verdict, old(res.deleted), old(res.failed), res.deleted,
                        res.failed)
    {
      ghost var log1, d1, f1 := r.log, res.deleted, res.failed;
      ghost var v := DeleteOne(r, batch[i], res);
      OneMoreSingle(log1, r.log, |old(r.log)|, batch, i, verdict, v, old(res.deleted), old(res.failed), d1, f1,
                    res.deleted, res.failed);
      verdict := verdict + v;
    }
    assert batch[..|batch|] == batch;
  }

  /**
   One batch of the loop in `deleteRange`: one run for the whole of it, and only if that fails and it has several
   ids, runs for its parts, of half the size or, below 8, of single ids.
   */
  method DeleteBatch(r: Runner, batch: seq<string>, batchSize: nat, res: Result) returns (ghost verdict: seq<bool>)
    requires r.Valid() && 1 <= |batch| <= batchSize
    modifies r, res
    ensures r.Valid() && old(r.log) <= r.log && IsRunFor(r.log, |old(r.log)|, batch)
    ensures RunsWithin(r.log, |old(r.log)|, batchSize)
    ensures !r.log[|old(r.log)|].1 || |batch| == 1 ==> |r.log| == |old(r.log)| + 1
    ensures r.log[|old(r.log)|].1 && |batch| > 1 ==>
              IsRunFor(r.log, |old(r.log)| + 1, First(batch, if batchSize / 2 < 8 then 1 else batchSize / 2))
    ensures Outcome(r.log, |old(r.log)|, batch, verdict, old(res.deleted), old(res.failed), res.deleted, res.failed)
    decreases batchSize, 0
  {
    ghost var log0 := r.log;
    var err := r.RunDelete(batch);
    ghost var log1 := r.log;
    assert log1[|log0|] == (batch, err);
    if !err {
      verdict := AllTrue(|batch|);
      PickAll(batch);
      forall i | 0 <= i < |batch| ensures Succeeded(r.log, |log0|, batch[i]) {
        assert batch[i] in log1[|log0|].0;
      }
      res.deleted := res.deleted + batch;
    } else if |batch| == 1 {
      assert batch == [batch[0]];
      PickOne(batch[0], false);
      verdict := [false];
      res.failed := res.failed + [batch[0]];
    } else {
      if batchSize / 2 < MIN_BATCH_SIZE {
        verdict := DeleteOneByOne(r, batch, res);
      } else {
        verdict := DeleteRange(r, batch, batchSize / 2, res);
      }
      BackedLater(r.log, r.log, |log1|, |log0|, batch, verdict);
      assert r.log[|log0|] == (batch, true);
      assert RunsWithin(r.log, |log1|, batchSize) by {
        assert forall k :: |log1| <= k < |r.log| ==> 1 <= |r.log[k].0| <= batchSize;
      }
    }
  }

  /** `deleteRange`: batch by batch, halving on failure. */
  method DeleteRange(r: Runner, ids: seq<string>, batchSize: nat, res: Result) returns (ghost verdict: seq<bool>)
    requires r.Valid() && batchSize >= 1
    modifies r, res
    ensures r.Valid() && old(r.log) <= r.log && RunsWithin(r.log, |old(r.log)|, batchSize)
    ensures ids != [] ==> IsRunFor(r.log, |old(r.log)|, First(ids, batchSize))
    ensures Outcome(r.log, |old(r.log)|, ids, verdict, old(res.deleted), old(res.failed), res.deleted, res.failed)
    decreases batchSize, 1
  {
    verdict := [];
    var start := 0;
    while start < |ids|
      invariant start <= |ids| && r.Valid() && old(r.log) <= r.log && RunsWithin(r.log, |old(r.log)|, batchSize)
      invariant start == 0 ==> r.log == old(r.log)
      invariant start > 0 ==> IsRunFor(r.log, |old(r.log)|, First(ids, batchSize))
      invariant Outcome(r.log, |old(r.log)|, ids[..start], verdict, old(res.deleted), old(res.failed), res.deleted,
                        res.failed)
      decreases |ids| - start
    {
      var end := if start + batchSize > |ids| then |ids| else start + batchSize;
      ghost var log1, d1, f1 := r.log, res.deleted, res.failed;
      ghost var v := DeleteBatch(r, ids[start..end], batchSize, res);
      OutcomeConcat(log1, r.log, |old(r.log)|, ids[..start], verdict, ids[start..end], v, old(res.deleted),
                    old(res.failed), d1, f1, res.deleted, res.failed);
      assert ids[..end] == ids[..start] + ids[start..end];
      MoreRuns(old(r.log), log1, r.log, batchSize);
      FirstBatch(old(r.log), log1, r.log, ids, start, end, batchSize);
      verdict := verdict + v;
      start := end;
    }
    assert ids[..start] == ids;
  }

  function EffectiveBatchSize(batchSize: int): (n: nat)
    ensures n >= 1
  {
    if batchSize <= 0 then DEFAULT_BATCH_SIZE else batchSize
  }

  /** `DeleteByIDs`: terminates for any runner and judges every id once. */
  method DeleteByIds(r: Runner, batchSize: int, ids: seq<string>) returns (res: Result, ghost verdict: seq<bool>)
    requires r.Valid()
    modifies r
    ensures fresh(res) && r.Valid() && old(r.log) <= r.log
    ensures RunsWithin(r.log, |old(r.log)|, if batchSize <= 0 then 500 else batchSize)
    ensures ids != [] ==> IsRunFor(r.log, |old(r.log)|, First(ids, if batchSize <= 0 then 500 else batchSize))
    ensures Outcome(r.log, |old(r.log)|, ids, verdict, [], [], res.deleted, res.failed)
    ensures multiset(res.deleted) + multiset(res.failed) == multiset(ids)
  {
    res := new Result();
    verdict := DeleteRange(r, ids, EffectiveBatchSize(batchSize), res);
    PickPartitions(ids, verdict);
  }

  /** If a run fails exactly when its batch holds a poison id, exactly the poison ids fail. */
  lemma ExactlyPoisonFails(r: Runner, from: nat, ids: seq<string>, verdict: seq<bool>, poison: set<string>, i: nat)
    requires r.Valid() && Backed(r.log, from, ids, verdict) && i < |ids|
    requires forall t: nat, batch :: r.fails(t, batch) <==> exists id :: id in batch && id in poison
    ensures verdict[i] <==> ids[i] !in poison
  {
  }
}
