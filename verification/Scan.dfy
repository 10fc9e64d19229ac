/**
 Cursor scans over one DUPSORT index, each window in its own read transaction.

 LMDB is taken as an ordered set: a snapshot is a strictly ordered sequence of
 `(key, levId)` entries, and `RangeOf` says what `range` and `rev_range` yield, including the
 inclusive-bound behaviour of `rev_range` on a duplicate group. strfry may write between
 any two transactions, so a sub-database is a history of snapshots.
 */
module Scan {
  import opened Bytes
  import opened Comparators

  type LevId = u64

  const DEFAULT_WINDOW_SIZE: nat := 256

  datatype Entry = Entry(key: Key, lev: LevId)

  datatype Direction = Forward | Reverse

  datatype Bound = Included(key: Key) | Excluded(key: Key)

  // ---------------------------------------------------------------------------
  // Order
  // ---------------------------------------------------------------------------

  /** Index order: by key, duplicates of a key by levId (MDB_INTEGERDUP). */
  predicate EntryLess(o: Order, a: Entry, b: Entry)
  {
    KeyLess(o, a.key, b.key) || (a.key == b.key && a.lev < b.lev)
  }

  predicate Before(o: Order, dir: Direction, a: Entry, b: Entry)
  {
    if dir.Forward? then EntryLess(o, a, b) else EntryLess(o, b, a)
  }

  ghost predicate Ordered(o: Order, dir: Direction, s: seq<Entry>)
  {
    forall i, j :: 0 <= i < j < |s| ==> Before(o, dir, s[i], s[j])
  }

  ghost predicate AllOk(o: Order, s: seq<Entry>)
  {
    forall i :: 0 <= i < |s| ==> o.ok(s[i].key.prefix)
  }

  ghost predicate Snapshot(o: Order, idx: seq<Entry>)
  {
    Ordered(o, Forward, idx) && AllOk(o, idx)
  }

  lemma EntryOrderIsStrictTotal(o: Order)
    requires Lawful(o)
    ensures forall a: Entry :: !EntryLess(o, a, a)
    ensures forall a: Entry, b: Entry ::
              o.ok(a.key.prefix) && o.ok(b.key.prefix) && EntryLess(o, a, b) ==> !EntryLess(o, b, a)
    ensures forall a: Entry, b: Entry, c: Entry ::
              (o.ok(a.key.prefix) && o.ok(b.key.prefix) && o.ok(c.key.prefix) &&
               EntryLess(o, a, b) && EntryLess(o, b, c)) ==> EntryLess(o, a, c)
    ensures forall a: Entry, b: Entry ::
              o.ok(a.key.prefix) && o.ok(b.key.prefix) ==> a == b || EntryLess(o, a, b) || EntryLess(o, b, a)
  {
  }

  /** An ordered sequence is determined by its elements. */
  lemma {:induction false} OrderedIsUnique(o: Order, dir: Direction, s: seq<Entry>, t: seq<Entry>)
    requires Lawful(o) && AllOk(o, s) && AllOk(o, t)
    requires Ordered(o, dir, s) && Ordered(o, dir, t)
    requires forall e :: e in s <==> e in t
    ensures s == t
  {
    EntryOrderIsStrictTotal(o);
    if s + t != [] {
      var x := (s + t)[0];
      assert x in s || x in t;
      assert s[0] in t;
      assert t[0] in s;
      assert s[0] == t[0];
      forall e ensures e in s[1..] <==> e in t[1..] {
        if e in s[1..] { assert e in t; }
        if e in t[1..] { assert e in s; }
      }
      OrderedIsUnique(o, dir, s[1..], t[1..]);
      assert s == [s[0]] + s[1..] && t == [t[0]] + t[1..];
    }
  }

  // ---------------------------------------------------------------------------
  // range and rev_range
  // ---------------------------------------------------------------------------

  /**
   Whether an iterator over `idx` yields its entry `e`. `rev_range` with an inclusive bound
   positions at the smallest duplicate of the bound key and then steps to the previous key,
   so of that group it yields only the smallest levId.
   */
  predicate Yields(o: Order, dir: Direction, idx: seq<Entry>, bound: Bound, e: Entry)
  {
    match (dir, bound)
    case (Forward, Included(k)) => !KeyLess(o, e.key, k)
    case (Forward, Excluded(k)) => KeyLess(o, k, e.key)
    case (Reverse, Excluded(k)) => KeyLess(o, e.key, k)
    case (Reverse, Included(k)) =>
      KeyLess(o, e.key, k) || (e.key == k && forall d | d in idx && d.key == k :: e.lev <= d.lev)
  }

  function Yielded(o: Order, dir: Direction, idx: seq<Entry>, bound: Bound, rest: seq<Entry>): (s: seq<Entry>)
    ensures forall e :: e in s <==> e in rest && Yields(o, dir, idx, bound, e)
  {
    if rest == [] then []
    else
      var tail := Yielded(o, dir, idx, bound, rest[1..]);
      if Yields(o, dir, idx, bound, rest[0]) then [rest[0]] + tail else tail
  }

  lemma {:induction false} YieldedIsOrdered(o: Order, dir: Direction, idx: seq<Entry>, bound: Bound, rest: seq<Entry>)
    requires Ordered(o, Forward, rest)
    ensures Ordered(o, Forward, Yielded(o, dir, idx, bound, rest))
  {
    if rest != [] {
      YieldedIsOrdered(o, dir, idx, bound, rest[1..]);
      var tail := Yielded(o, dir, idx, bound, rest[1..]);
      forall j | 0 <= j < |tail| ensures Before(o, Forward, rest[0], tail[j]) {
        assert tail[j] in rest[1..];
      }
    }
  }

  function Reversed(s: seq<Entry>): (r: seq<Entry>)
    ensures |r| == |s| && forall i :: 0 <= i < |s| ==> r[i] == s[|s| - 1 - i]
  {
    if s == [] then [] else Reversed(s[1..]) + [s[0]]
  }

  /** The entries an iterator over the snapshot yields, in iteration order. */
  function RangeOf(o: Order, dir: Direction, idx: seq<Entry>, bound: Bound): (s: seq<Entry>)
  {
    var s := Yielded(o, dir, idx, bound, idx);
    if dir.Forward? then s else Reversed(s)
  }

  lemma RangeIsOrdered(o: Order, dir: Direction, idx: seq<Entry>, bound: Bound)
    requires Snapshot(o, idx)
    ensures Ordered(o, dir, RangeOf(o, dir, idx, bound)) && AllOk(o, RangeOf(o, dir, idx, bound))
    ensures forall e :: e in RangeOf(o, dir, idx, bound) <==> e in idx && Yields(o, dir, idx, bound, e)
  {
    var s := Yielded(o, dir, idx, bound, idx);
    YieldedIsOrdered(o, dir, idx, bound, idx);
    var r := Reversed(s);
    forall e ensures e in r <==> e in s {
      if e in r { var i :| 0 <= i < |r| && r[i] == e; assert e == s[|s| - 1 - i]; }
      if e in s { var i :| 0 <= i < |s| && s[i] == e; assert e == r[|s| - 1 - i]; }
    }
    forall i | 0 <= i < |s| ensures o.ok(s[i].key.prefix) { assert s[i] in idx; }
  }

  // ---------------------------------------------------------------------------
  // Resume positions
  // ---------------------------------------------------------------------------

  /** The iterator bound for a resume position; see `reverse_upper_bound` for the first reverse window. */
  function StartBound(dir: Direction, resume: Key, first: bool): (b: Bound)
  {
    if !first then Excluded(resume)
    else if dir.Forward? then Included(resume)
    else if resume.ts < U64_MAX then Excluded(Key(resume.prefix, resume.ts + 1))
    else Included(resume)
  }

  /** Keys a scan at this position has still to visit. */
  predicate Ahead(o: Order, dir: Direction, resume: Key, first: bool, k: Key)
  {
    (first && k == resume) || (if dir.Forward? then KeyLess(o, resume, k) else KeyLess(o, k, resume))
  }

  /** The bytes handed to LMDB for a first reverse window are the bound above. */
  lemma StartBoundIsReverseUpperBound(resume: Key)
    ensures ReverseUpperBound(Encode(resume)) ==
            (Encode(StartBound(Reverse, resume, true).key), StartBound(Reverse, resume, true).Excluded?)
  {
    ReverseUpperBoundOnKeys(resume);
  }

  /** No timestamp of u64::MAX is shared by two levIds under one key. */
  ghost predicate SingleAtMax(entries: set<Entry>)
  {
    forall a, b :: a in entries && b in entries && a.key == b.key && a.key.ts == U64_MAX ==> a.lev == b.lev
  }

  /** A scan started at a position yields exactly what is ahead of it. */
  lemma RangeIsWhatIsAhead(o: Order, dir: Direction, idx: seq<Entry>, resume: Key, first: bool)
    requires Lawful(o) && Snapshot(o, idx) && o.ok(resume.prefix)
    requires SingleAtMax(set e | e in idx)
    ensures forall e :: e in RangeOf(o, dir, idx, StartBound(dir, resume, first)) <==>
                        e in idx && Ahead(o, dir, resume, first, e.key)
  {
    var b := StartBound(dir, resume, first);
    RangeIsOrdered(o, dir, idx, b);
    KeyOrderIsStrictTotal(o);
    forall e | e in idx ensures Yields(o, dir, idx, b, e) <==> Ahead(o, dir, resume, first, e.key) {
      if first && dir.Reverse? && resume.ts < U64_MAX {
        ExcludedSuccessorIsInclusive(o, e.key, resume);
      }
    }
  }

  /**
   Without that hypothesis the first reverse window at u64::MAX is complete exactly when the
   bound key has at most one levId.
   */
  lemma MaxTimestampIsCompleteIff(o: Order, idx: seq<Entry>, resume: Key)
    requires Lawful(o) && Snapshot(o, idx) && o.ok(resume.prefix) && resume.ts == U64_MAX
    ensures
      (forall e :: e in idx && Ahead(o, Reverse, resume, true, e.key) ==>
         e in RangeOf(o, Reverse, idx, StartBound(Reverse, resume, true)))
      <==>
      (forall a, b :: a in idx && b in idx && a.key == resume && b.key == resume ==> a.lev == b.lev)
  {
    var b := StartBound(Reverse, resume, true);
    RangeIsOrdered(o, Reverse, idx, b);
    KeyOrderIsStrictTotal(o);
    if forall e :: e in idx && Ahead(o, Reverse, resume, true, e.key) ==> e in RangeOf(o, Reverse, idx, b) {
      forall a, c | a in idx && c in idx && a.key == resume && c.key == resume ensures a.lev == c.lev {
        assert Yields(o, Reverse, idx, b, a) && Yields(o, Reverse, idx, b, c);
      }
    }
  }

  /** Two levIds at u64::MAX: the scan meets the smaller one and never the larger. */
  lemma MaxTimestampLosesADuplicate()
    ensures
      var last := Key([], U64_MAX);
      var idx := [Entry(last, 1), Entry(last, 2)];
      && Snapshot(OrderOf(EventCreatedAt), idx) && Ahead(OrderOf(EventCreatedAt), Reverse, last, true, idx[1].key)
      && idx[0] in RangeOf(OrderOf(EventCreatedAt), Reverse, idx, StartBound(Reverse, last, true))
      && idx[1] !in RangeOf(OrderOf(EventCreatedAt), Reverse, idx, StartBound(Reverse, last, true))
  {
    var last := Key([], U64_MAX);
    var idx := [Entry(last, 1), Entry(last, 2)];
    RangeIsOrdered(OrderOf(EventCreatedAt), Reverse, idx, StartBound(Reverse, last, true));
    assert idx[0] in idx && idx[0].lev < idx[1].lev;
  }

  // ---------------------------------------------------------------------------
  // A sub-database: one index over time
  // ---------------------------------------------------------------------------

  /** The LMDB environment: all sub-databases share its sequence of read transactions. */
  class Env {
    var txns: nat

    constructor ()
      ensures txns == 0
    {
      txns := 0;
    }
  }

  /**
   One `Event__*` index. The t-th read transaction of the environment sees `history(t)`. `must` is a set of
   entries present in every snapshot, `may` bounds what any snapshot holds; an index nobody
   writes to has `must == may`.
   */
  class SubDb {
    const env: Env
    const ord: Order
    const history: nat -> seq<Entry>
    ghost const must: set<Entry>
    ghost const may: set<Entry>

    ghost predicate Valid()
    {
      && Lawful(ord)
      && (forall t: nat :: Snapshot(ord, history(t)))
      && (forall t: nat, e :: e in must ==> e in history(t))
      && (forall t: nat, e :: e in history(t) ==> e in may)
      && (forall e :: e in may ==> ord.ok(e.key.prefix))
      && SingleAtMax(may)
    }

    /** Nobody writes to the index. */
    ghost predicate Still()
    {
      forall t: nat :: history(t) == history(0)
    }

    constructor (env: Env, ord: Order, history: nat -> seq<Entry>, ghost must: set<Entry>, ghost may: set<Entry>)
      ensures this.env == env && this.ord == ord && this.history == history
      ensures this.must == must && this.may == may
    {
      this.env, this.ord, this.history, this.must, this.may := env, ord, history, must, may;
    }

    /** A short read transaction: whatever strfry has committed by now. */
    method ReadTxn() returns (snapshot: seq<Entry>)
      modifies env
      ensures snapshot == history(old(env.txns)) && env.txns == old(env.txns) + 1
    {
      snapshot := history(env.txns);
      env.txns := env.txns + 1;
    }
  }

  // ---------------------------------------------------------------------------
  // Windows
  // ---------------------------------------------------------------------------

  /** `w` is the window of size `n` of the iteration `s`: full, then drained to a key boundary. */
  ghost predicate IsWindow(s: seq<Entry>, n: nat, w: seq<Entry>)
  {
    && w <= s
    && (|w| < |s| ==> n <= |w| && (w == [] || w[|w| - 1].key != s[|w|].key))
    && (forall j :: n <= j < |w| && 0 < j ==> w[j].key == w[j - 1].key)
  }

  /** Where the window of size `n` ends, looking on from position `i`. */
  function WindowEnd(s: seq<Entry>, n: nat, i: nat): (end: nat)
    requires i <= |s|
    ensures i <= end <= |s|
    ensures end < |s| ==> n <= end && (end == 0 || s[end - 1].key != s[end].key)
    ensures forall j :: i <= j < end && n <= j && 0 < j ==> s[j].key == s[j - 1].key
    decreases |s| - i
  {
    if i == |s| || (n <= i && (i == 0 || s[i - 1].key != s[i].key)) then i else WindowEnd(s, n, i + 1)
  }

  function Window(s: seq<Entry>, n: nat): (w: seq<Entry>)
    ensures IsWindow(s, n, w)
  {
    s[..WindowEnd(s, n, 0)]
  }

  /** There is only one window of a given size. */
  lemma WindowIsUnique(s: seq<Entry>, n: nat, v: seq<Entry>, w: seq<Entry>)
    requires IsWindow(s, n, v) && IsWindow(s, n, w) && 1 <= n
    ensures v == w
  {
    WindowIsShortest(s, n, v, w);
    WindowIsShortest(s, n, w, v);
    assert v == s[..|v|] && w == s[..|w|];
  }

  lemma WindowIsShortest(s: seq<Entry>, n: nat, v: seq<Entry>, w: seq<Entry>)
    requires IsWindow(s, n, v) && IsWindow(s, n, w) && 1 <= n
    ensures |w| <= |v|
  {
  }

  method CollectWindow(o: Order, idx: seq<Entry>, dir: Direction, resume: Key, first: bool, windowSize: nat)
    returns (w: seq<Entry>)
    ensures IsWindow(RangeOf(o, dir, idx, StartBound(dir, resume, first)), windowSize, w)
  {
    var s := RangeOf(o, dir, idx, StartBound(dir, resume, first));
    w := [];
    for i := 0 to |s|
      invariant w == s[..i]
      invariant forall j :: windowSize <= j < |w| && 0 < j ==> w[j].key == w[j - 1].key
    {
      if |w| >= windowSize && (w == [] || w[|w| - 1].key != s[i].key) {
        return;
      }
      w := w + [s[i]];
    }
  }

  /** A window overshoots its size only inside the duplicate group of its last key. */
  lemma {:induction false} WindowOvershootsInOneGroup(s: seq<Entry>, n: nat, w: seq<Entry>, j: nat)
    requires IsWindow(s, n, w) && 1 <= n && n - 1 <= j < |w|
    ensures w[j].key == w[|w| - 1].key
    decreases |w| - j
  {
    if j + 1 < |w| {
      WindowOvershootsInOneGroup(s, n, w, j + 1);
    }
  }

  /** A window ends on a key boundary: everything left is strictly beyond its last key. */
  lemma WindowEndsOnKeyBoundary(o: Order, dir: Direction, s: seq<Entry>, n: nat, w: seq<Entry>)
    requires Lawful(o) && Ordered(o, dir, s) && AllOk(o, s) && IsWindow(s, n, w) && w != []
    ensures forall e :: e in s ==> e in w || Ahead(o, dir, w[|w| - 1].key, false, e.key)
    ensures forall e :: e in w ==> !Ahead(o, dir, w[|w| - 1].key, false, e.key)
  {
  }

  /** Where the scan resumes after a batch. */
  function NextKey(resume: Key, batch: seq<Entry>): (next: Key)
  {
    if batch == [] then resume else batch[|batch| - 1].key
  }

  /**
   A window taken at a position, and the position after it: the batch was ahead and no longer
   is, and a durable entry that was ahead is in the batch or still ahead.
   */
  ghost predicate IsStep(db: SubDb, dir: Direction, resume: Key, first: bool, batch: seq<Entry>, next: Key)
  {
    && db.ord.ok(next.prefix)
    && Ordered(db.ord, dir, batch)
    && (forall e :: e in batch ==> e in db.may && Ahead(db.ord, dir, resume, first, e.key))
    && (forall e :: e in batch ==> !Ahead(db.ord, dir, next, false, e.key))
    && next == NextKey(resume, batch)
    && (forall e :: e in db.must && Ahead(db.ord, dir, resume, first, e.key) ==>
                    e in batch || (batch != [] && Ahead(db.ord, dir, next, false, e.key)))
  }

  /** The window a transaction reads. */
  ghost function WindowAt(db: SubDb, dir: Direction, resume: Key, first: bool, n: nat, t: nat): (w: seq<Entry>)
  {
    Window(RangeOf(db.ord, dir, db.history(t), StartBound(dir, resume, first)), n)
  }

  lemma WindowIsStep(db: SubDb, dir: Direction, resume: Key, first: bool, n: nat, t: nat, batch: seq<Entry>)
    requires db.Valid() && db.ord.ok(resume.prefix) && n >= 1 && batch == WindowAt(db, dir, resume, first, n, t)
    ensures IsStep(db, dir, resume, first, batch, NextKey(resume, batch))
    ensures forall e :: e in batch ==> e in db.history(t)
  {
    var idx := db.history(t);
    var s := RangeOf(db.ord, dir, idx, StartBound(dir, resume, first));
    RangeIsOrdered(db.ord, dir, idx, StartBound(dir, resume, first));
    assert SingleAtMax(set e | e in idx);
    RangeIsWhatIsAhead(db.ord, dir, idx, resume, first);
    assert forall e :: e in batch ==> e in s;
    if batch == [] {
      assert s == [];
    } else {
      WindowEndsOnKeyBoundary(db.ord, dir, s, n, batch);
      assert batch[|batch| - 1] in s;
    }
  }

  /** One dup-group-complete window and the position to resume from. */
  method OneWindow(db: SubDb, dir: Direction, resume: Key, first: bool, windowSize: nat)
    returns (batch: seq<Entry>, next: Key, nextFirst: bool)
    requires db.Valid() && db.ord.ok(resume.prefix) && windowSize >= 1
    modifies db.env
    ensures IsStep(db, dir, resume, first, batch, next) && !nextFirst
    ensures db.env.txns == old(db.env.txns) + 1
    ensures batch == WindowAt(db, dir, resume, first, windowSize, old(db.env.txns))
    ensures forall e :: e in batch ==> e in db.history(old(db.env.txns))
  {
    ghost var t := db.env.txns;
    var idx := db.ReadTxn();
    batch := CollectWindow(db.ord, idx, dir, resume, first, windowSize);
    WindowIsUnique(RangeOf(db.ord, dir, idx, StartBound(dir, resume, first)), windowSize, batch,
                   WindowAt(db, dir, resume, first, windowSize, t));
    WindowIsStep(db, dir, resume, first, windowSize, t, batch);
    next, nextFirst := NextKey(resume, batch), false;
  }

  // ---------------------------------------------------------------------------
  // Whole scans
  // ---------------------------------------------------------------------------

  ghost function Left(db: SubDb, dir: Direction, resume: Key, first: bool): (s: set<Entry>)
  {
    set e | e in db.may && Ahead(db.ord, dir, resume, first, e.key)
  }

  /** A position that has moved on leaves strictly less ahead. */
  lemma MovedOn(db: SubDb, dir: Direction, resume: Key, first: bool, next: Key, e: Entry)
    requires db.Valid() && db.ord.ok(resume.prefix) && db.ord.ok(next.prefix)
    requires e in db.may && next == e.key && Ahead(db.ord, dir, resume, first, e.key)
    ensures forall k: Key :: db.ord.ok(k.prefix) && Ahead(db.ord, dir, next, false, k) ==>
              Ahead(db.ord, dir, resume, false, k)
    ensures |Left(db, dir, next, false)| < |Left(db, dir, resume, first)|
  {
    KeyOrderIsStrictTotal(db.ord);
    var before, after := Left(db, dir, resume, first), Left(db, dir, next, false);
    assert after <= before - {e};
    SmallerSubset(after, before - {e});
  }

  lemma {:induction false} SmallerSubset<T>(a: set<T>, b: set<T>)
    requires a <= b
    ensures |a| <= |b|
  {
    if a != {} {
      var x :| x in a;
      SmallerSubset(a - {x}, b - {x});
    }
  }

  /**
   The unbounded scan: windows until one is empty. In scan order, without repeats, it returns
   only entries that were there and every entry that was there throughout; on an index
   nobody writes to it is the whole ordered remainder, whatever the window size.
   */
  method ScanWindowed(db: SubDb, dir: Direction, start: Key, windowSize: nat) returns (all: seq<Entry>)
    requires db.Valid() && db.ord.ok(start.prefix) && windowSize >= 1
    modifies db.env
    ensures Ordered(db.ord, dir, all)
    ensures forall e :: e in all ==> e in db.may && Ahead(db.ord, dir, start, true, e.key)
    ensures forall e :: e in db.must && Ahead(db.ord, dir, start, true, e.key) ==> e in all
    ensures db.must == db.may ==>
              forall t: nat :: all == RangeOf(db.ord, dir, db.history(t), StartBound(dir, start, true))
  {
    all := [];
    var resume, first := start, true;
    ghost var stop := false;
    while true
      invariant db.ord.ok(resume.prefix)
      invariant Ordered(db.ord, dir, all)
      invariant first ==> resume == start && all == []
      invariant forall e :: e in all ==> e in db.may && Ahead(db.ord, dir, start, true, e.key)
      invariant forall e :: e in all ==> !Ahead(db.ord, dir, resume, false, e.key)
      invariant forall k: Key :: db.ord.ok(k.prefix) && Ahead(db.ord, dir, resume, first, k) ==>
                  Ahead(db.ord, dir, start, true, k)
      invariant forall e :: e in db.must && Ahead(db.ord, dir, start, true, e.key) ==>
                            e in all || (!stop && Ahead(db.ord, dir, resume, first, e.key))
      decreases |Left(db, dir, resume, first)|
    {
      var batch, next, nextFirst := OneWindow(db, dir, resume, first, windowSize);
      if batch == [] {
        stop := true;
        break;
      }
      ghost var last := batch[|batch| - 1];
      assert last in batch;
      MovedOn(db, dir, resume, first, next, last);
      AppendBatch(db, dir, all, batch, resume, first, next);
      all := all + batch;
      resume, first := next, nextFirst;
    }
    if db.must == db.may {
      forall t: nat ensures all == RangeOf(db.ord, dir, db.history(t), StartBound(dir, start, true)) {
        StaticScanIsTheRange(db, dir, start, all, t);
      }
    }
  }

  lemma AppendBatch(db: SubDb, dir: Direction, all: seq<Entry>, batch: seq<Entry>, resume: Key, first: bool, next: Key)
    requires db.Valid() && db.ord.ok(resume.prefix) && db.ord.ok(next.prefix)
    requires Ordered(db.ord, dir, all) && Ordered(db.ord, dir, batch)
    requires first ==> all == []
    requires forall e :: e in all ==> e in db.may && !Ahead(db.ord, dir, resume, false, e.key)
    requires forall e :: e in batch ==> e in db.may && Ahead(db.ord, dir, resume, first, e.key)
    requires forall e :: e in batch ==> !Ahead(db.ord, dir, next, false, e.key)
    requires forall k: Key :: db.ord.ok(k.prefix) && Ahead(db.ord, dir, next, false, k) ==>
               Ahead(db.ord, dir, resume, false, k)
    ensures Ordered(db.ord, dir, all + batch)
    ensures forall e :: e in all + batch ==> !Ahead(db.ord, dir, next, false, e.key)
  {
  }

  lemma StaticScanIsTheRange(db: SubDb, dir: Direction, start: Key, all: seq<Entry>, t: nat)
    requires db.Valid() && db.ord.ok(start.prefix) && db.must == db.may
    requires Ordered(db.ord, dir, all)
    requires forall e :: e in all <==> e in db.may && Ahead(db.ord, dir, start, true, e.key)
    ensures all == RangeOf(db.ord, dir, db.history(t), StartBound(dir, start, true))
  {
    var idx, b := db.history(t), StartBound(dir, start, true);
    RangeIsOrdered(db.ord, dir, idx, b);
    RangeIsWhatIsAhead(db.ord, dir, idx, start, true);
    forall i | 0 <= i < |all| ensures db.ord.ok(all[i].key.prefix) { assert all[i] in all; }
    OrderedIsUnique(db.ord, dir, all, RangeOf(db.ord, dir, idx, b));
  }

  /** At most `limit` entries from `start` in one transaction; 0 means no limit. */
  method ScanBounded(db: SubDb, dir: Direction, start: Key, limit: nat) returns (out: seq<Entry>)
    requires db.Valid() && db.ord.ok(start.prefix)
    modifies db.env
    ensures limit > 0 ==>
              var s := RangeOf(db.ord, dir, db.history(old(db.env.txns)), StartBound(dir, start, true));
              out == if limit < |s| then s[..limit] else s
    ensures limit == 0 ==> Ordered(db.ord, dir, out)
    ensures limit == 0 ==> forall e :: e in out ==> e in db.may && Ahead(db.ord, dir, start, true, e.key)
    ensures limit == 0 ==> forall e :: e in db.must && Ahead(db.ord, dir, start, true, e.key) ==> e in out
    ensures limit > 0 ==> db.env.txns == old(db.env.txns) + 1
    ensures limit == 0 && db.must == db.may ==>
              forall t: nat :: out == RangeOf(db.ord, dir, db.history(t), StartBound(dir, start, true))
  {
    if limit == 0 {
      out := ScanWindowed(db, dir, start, DEFAULT_WINDOW_SIZE);
      return;
    }
    var idx := db.ReadTxn();
    var s := RangeOf(db.ord, dir, idx, StartBound(dir, start, true));
    out := [];
    for i := 0 to if limit < |s| then limit else |s|
      invariant out == s[..i]
    {
      out := out + [s[i]];
    }
  }
}
