/**
 The k-way merge of per-prefix reverse scans.

 Each stream scans one prefix downwards in windows, sieves every window (prefix guard,
 intra-group floor, `since` cut) and buffers what survives; a max-heap over the
 stream heads emits entries newest first. The pure `View` of a stream carries the whole
 argument: nothing eligible is lost between windows, and nothing pending outranks what
 has been emitted.
 */
module Merge {
  import opened Bytes
  import opened Comparators
  import opened Scan

  // ---------------------------------------------------------------------------
  // The sort key (created_at, levId)
  // ---------------------------------------------------------------------------

  datatype Rank = Rank(ts: u64, lev: LevId)

  function RankOf(e: Entry): (r: Rank)
  {
    Rank(e.key.ts, e.lev)
  }

  predicate Below(a: Rank, b: Rank)
  {
    a.ts < b.ts || (a.ts == b.ts && a.lev < b.lev)
  }

  predicate AtMost(a: Rank, b: Rank)
  {
    a == b || Below(a, b)
  }

  // ---------------------------------------------------------------------------
  // What one stream is asked for
  // ---------------------------------------------------------------------------

  /** The floor filter: inside the floor's second only smaller levIds pass. */
  predicate FloorKeeps(floor: Option<Rank>, e: Entry)
  {
    floor.None? || e.key.ts != floor.value.ts || e.lev < floor.value.lev
  }

  /** The entries a stream that starts at `start` has to deliver. */
  predicate Eligible(start: Key, since: u64, floor: Option<Rank>, e: Entry)
  {
    e.key.prefix == start.prefix && since <= e.key.ts <= start.ts && FloorKeeps(floor, e)
  }

  /** No stored key of a smaller prefix passes the byte guard of `prefix`. */
  ghost predicate NoAlias(db: SubDb, prefix: bytes)
  {
    forall e :: e in db.may && db.ord.less(e.key.prefix, prefix) ==> !Guard(prefix, e.key)
  }

  predicate AtOrBelow(o: Order, k: Key, start: Key)
  {
    k == start || KeyLess(o, k, start)
  }

  // ---------------------------------------------------------------------------
  // Sieving one window
  // ---------------------------------------------------------------------------

  function TakeWhileGuard(prefix: bytes, s: seq<Entry>): (r: seq<Entry>)
    ensures r <= s
    ensures forall e :: e in r ==> Guard(prefix, e.key)
    ensures |r| < |s| ==> !Guard(prefix, s[|r|].key)
  {
    if s == [] || !Guard(prefix, s[0].key) then [] else [s[0]] + TakeWhileGuard(prefix, s[1..])
  }

  function DropAboveFloor(floor: Option<Rank>, s: seq<Entry>): (r: seq<Entry>)
    ensures forall e :: e in r <==> e in s && FloorKeeps(floor, e)
  {
    if s == [] then []
    else if FloorKeeps(floor, s[0]) then [s[0]] + DropAboveFloor(floor, s[1..])
    else DropAboveFloor(floor, s[1..])
  }

  /** Cut at the first entry older than `since`. */
  function CutAtSince(since: u64, s: seq<Entry>): (r: seq<Entry>)
    ensures r <= s
    ensures forall e :: e in r ==> since <= e.key.ts
    ensures |r| < |s| ==> s[|r|].key.ts < since
  {
    if s == [] || s[0].key.ts < since then [] else [s[0]] + CutAtSince(since, s[1..])
  }

  lemma {:induction false} DropAboveFloorKeepsOrder(o: Order, floor: Option<Rank>, s: seq<Entry>)
    requires Ordered(o, Reverse, s)
    ensures Ordered(o, Reverse, DropAboveFloor(floor, s))
  {
    if s != [] {
      DropAboveFloorKeepsOrder(o, floor, s[1..]);
      var tail := DropAboveFloor(floor, s[1..]);
      forall j | 0 <= j < |tail| ensures Before(o, Reverse, s[0], tail[j]) {
        assert tail[j] in s[1..];
      }
    }
  }

  /** In a window of a reverse scan below `start`, the guard keeps exactly the prefix group. */
  lemma GuardKeepsTheGroup(db: SubDb, start: Key, batch: seq<Entry>)
    requires db.Valid() && db.ord.ok(start.prefix) && NoAlias(db, start.prefix)
    requires Ordered(db.ord, Reverse, batch)
    requires forall e :: e in batch ==> e in db.may && AtOrBelow(db.ord, e.key, start)
    ensures forall e :: e in TakeWhileGuard(start.prefix, batch) <==> e in batch && e.key.prefix == start.prefix
  {
  }

  lemma GuardAcceptsItsPrefix(p: bytes, k: Key)
    requires k.prefix == p
    ensures Guard(p, k)
  {
  }

  lemma CutKeepsTheRecent(o: Order, since: u64, s: seq<Entry>, p: bytes)
    requires Lawful(o) && Ordered(o, Reverse, s) && forall e :: e in s ==> e.key.prefix == p
    ensures forall e :: e in CutAtSince(since, s) <==> e in s && since <= e.key.ts
  {
  }

  // ---------------------------------------------------------------------------
  // The state of one stream, as a value
  // ---------------------------------------------------------------------------

  datatype View = View(resume: Key, first: bool, exhausted: bool, rest: seq<Entry>)

  ghost predicate StreamInv(db: SubDb, start: Key, since: u64, floor: Option<Rank>, v: View)
  {
    && db.ord.ok(v.resume.prefix) && db.ord.ok(start.prefix)
    && (v.first ==> v.resume == start && v.rest == [])
    && AtOrBelow(db.ord, v.resume, start)
    && Ordered(db.ord, Reverse, v.rest)
    && (forall e :: e in v.rest ==> e in db.may && Eligible(start, since, floor, e))
    && (forall e :: e in v.rest ==> !Ahead(db.ord, Reverse, v.resume, v.first, e.key))
  }

  /** An entry the stream can still deliver: buffered, or not yet scanned. */
  ghost predicate Pending(o: Order, v: View, e: Entry)
  {
    e in v.rest || (!v.exhausted && Ahead(o, Reverse, v.resume, v.first, e.key))
  }

  ghost predicate Settled(v: View)
  {
    v.exhausted || v.rest != []
  }

  /** One refill: nothing new becomes pending, nothing durable and eligible stops being pending. */
  ghost predicate Refilled(db: SubDb, start: Key, since: u64, floor: Option<Rank>, v: View, v': View)
  {
    && StreamInv(db, start, since, floor, v')
    && Settled(v')
    && (forall e: Entry :: db.ord.ok(e.key.prefix) && Pending(db.ord, v', e) ==> Pending(db.ord, v, e))
    && (forall e :: e in db.must && Eligible(start, since, floor, e) && Pending(db.ord, v, e) ==>
          Pending(db.ord, v', e))
  }

  /** A buffered head outranks everything else its stream can still deliver. */
  lemma HeadOutranksStream(db: SubDb, start: Key, since: u64, floor: Option<Rank>, v: View, e: Entry)
    requires db.Valid() && StreamInv(db, start, since, floor, v) && v.rest != []
    requires db.ord.ok(e.key.prefix) && Eligible(start, since, floor, e) && Pending(db.ord, v, e)
    ensures AtMost(RankOf(e), RankOf(v.rest[0]))
  {
  }

  // ---------------------------------------------------------------------------
  // StreamState
  // ---------------------------------------------------------------------------

  class StreamState {
    var resume: Key
    var first: bool
    var prefix: bytes
    var exhausted: bool
    var buffer: seq<Entry>
    var pos: nat

    constructor (start: Key)
      ensures WellFormed() && prefix == start.prefix
      ensures ViewOf() == View(start, true, false, [])
    {
      resume, first, prefix, exhausted, buffer, pos := start, true, start.prefix, false, [], 0;
    }

    ghost predicate WellFormed()
      reads this
    {
      pos <= |buffer|
    }

    function ViewOf(): (v: View)
      requires WellFormed()
      reads this
    {
      View(resume, first, exhausted, buffer[pos..])
    }

    predicate NeedsRefill()
      reads this
    {
      !exhausted && pos >= |buffer|
    }

    method Stop()
      modifies this
      ensures WellFormed() && prefix == old(prefix)
      ensures ViewOf() == View(old(resume), old(first), true, [])
    {
      exhausted, buffer, pos := true, [], 0;
    }

    /** Sieve one window into the buffer; reports whether the floor emptied it. */
    method Sift(batch: seq<Entry>, since: u64, floor: Option<Rank>) returns (emptied: bool)
      requires WellFormed() && NeedsRefill()
      modifies this
      ensures WellFormed() && prefix == old(prefix)
      ensures (ViewOf(), emptied) == Sifted(prefix, since, floor, batch, old(resume), old(first))
    {
      var guarded := TakeWhileGuard(prefix, batch);
      if guarded == [] {
        Stop();
        return false;
      }
      var kept := DropAboveFloor(floor, guarded);
      if kept == [] {
        buffer, pos := [], 0;
        return true;
      }
      var truncated := CutAtSince(since, kept);
      if |truncated| < |kept| {
        exhausted := true;
      }
      buffer, pos := truncated, 0;
      return false;
    }

    /** One window: scan, advance the position, sieve. */
    method TryWindow(db: SubDb, batchSize: nat, since: u64, floor: Option<Rank>)
      returns (emptied: bool, ghost batch: seq<Entry>)
      requires db.Valid() && batchSize >= 1 && db.ord.ok(resume.prefix)
      requires WellFormed() && NeedsRefill()
      modifies this, db.env
      ensures WellFormed() && prefix == old(prefix) && db.env.txns == old(db.env.txns) + 1
      ensures batch == WindowAt(db, Reverse, old(resume), old(first), batchSize, old(db.env.txns))
      ensures IsStep(db, Reverse, old(resume), old(first), batch, NextKey(old(resume), batch))
      ensures forall e :: e in batch ==> e in db.history(old(db.env.txns))
      ensures (ViewOf(), emptied) == Sifted(prefix, since, floor, batch, NextKey(old(resume), batch), false)
    {
      var window, next, nextFirst := OneWindow(db, Reverse, resume, first, batchSize);
      resume, first := next, nextFirst;
      batch := window;
      if window == [] {
        Stop();
        return false, batch;
      }
      emptied := Sift(window, since, floor);
    }

    /** One attempt of a refill that began with the view `v0`. */
    method Attempt(db: SubDb, batchSize: nat, since: u64, floor: Option<Rank>, ghost start: Key, ghost t0: nat,
                   ghost v0: View, ghost attempt: nat)
      returns (emptied: bool)
      requires db.Valid() && batchSize >= 1 && attempt <= 1 && t0 <= db.env.txns
      requires WellFormed() && NeedsRefill() && prefix == start.prefix
      requires IsRetry(db, start, since, floor, v0, ViewOf(), attempt)
      requires IsOnTrack(db, start, batchSize, since, floor, v0, ViewOf(), attempt)
      modifies this, db.env
      ensures WellFormed() && prefix == start.prefix && t0 <= db.env.txns && (emptied ==> NeedsRefill())
      ensures emptied ==> IsRetry(db, start, since, floor, v0, ViewOf(), attempt + 1)
      ensures emptied ==> IsOnTrack(db, start, batchSize, since, floor, v0, ViewOf(), attempt + 1)
      ensures !emptied ==> IsRefill(db, start, since, floor, t0, db.env.txns, v0, ViewOf())
      ensures !emptied ==> IsStillRefill(db, start, batchSize, since, floor, v0, ViewOf())
    {
      ghost var v, t := ViewOf(), db.env.txns;
      ghost var batch;
      emptied, batch := TryWindow(db, batchSize, since, floor);
      AttemptIsRefill(db, start, batchSize, since, floor, t0, t, v0, v, batch, attempt);
      AttemptIsOnTrack(db, start, batchSize, since, floor, t, v0, v, batch, attempt);
    }

    /**
     Scan until something survives the sieve or the stream is known to be exhausted, in at most
     two windows. Whatever is stored, the buffer holds only entries read meanwhile that pass the
     sieve, and on a still index it is what `RefillOn` says; without aliases nothing is lost.
     */
    method Refill(db: SubDb, batchSize: nat, since: u64, floor: Option<Rank>, ghost start: Key)
      requires db.Valid() && batchSize >= 1 && db.ord.ok(resume.prefix)
      requires WellFormed() && NeedsRefill() && prefix == start.prefix
      requires NoAlias(db, start.prefix) ==> StreamInv(db, start, since, floor, ViewOf())
      modifies this, db.env
      ensures WellFormed() && prefix == start.prefix && old(db.env.txns) <= db.env.txns
      ensures IsRefill(db, start, since, floor, old(db.env.txns), db.env.txns, old(ViewOf()), ViewOf())
      ensures IsStillRefill(db, start, batchSize, since, floor, old(ViewOf()), ViewOf())
    {
      ghost var v0, t0 := ViewOf(), db.env.txns;
      for attempt := 0 to 2
        invariant WellFormed() && NeedsRefill() && prefix == start.prefix && t0 <= db.env.txns
        invariant IsRetry(db, start, since, floor, v0, ViewOf(), attempt)
        invariant IsOnTrack(db, start, batchSize, since, floor, v0, ViewOf(), attempt)
      {
        var emptied := Attempt(db, batchSize, since, floor, start, t0, v0, attempt);
        if !emptied {
          return;
        }
      }
      GaveUp(db, start, since, floor, t0, db.env.txns, v0, ViewOf());
      Stop();
    }
  }

  /** What sieving a window makes of a stream that had run dry. */
  function Sifted(prefix: bytes, since: u64, floor: Option<Rank>, batch: seq<Entry>, resume: Key,
                  first: bool): (r: (View, bool))
  {
    var guarded := TakeWhileGuard(prefix, batch);
    if guarded == [] then (View(resume, first, true, []), false)
    else
      var kept := DropAboveFloor(floor, guarded);
      if kept == [] then (View(resume, first, false, []), true)
      else
        var cut := CutAtSince(since, kept);
        (View(resume, first, |cut| < |kept|, cut), false)
  }

  /** A stream over an index nobody writes to: its contents, where it starts, and the window size. */
  datatype StillStream = StillStream(ord: Order, idx: seq<Entry>, start: Key, n: nat, since: u64, floor: Option<Rank>)

  /** The window a still stream takes at a position. */
  function NextWindow(c: StillStream, v: View): (w: seq<Entry>)
  {
    Window(RangeOf(c.ord, Reverse, c.idx, StartBound(Reverse, v.resume, v.first)), c.n)
  }

  /** What a refill does then: sieve windows until one is not emptied by the floor. */
  function RefillOn(c: StillStream, v: View, attempts: nat): (v': View)
    decreases attempts
  {
    if attempts == 0 then View(v.resume, v.first, true, [])
    else
      var w := NextWindow(c, v);
      var (v', emptied) := Sifted(c.start.prefix, c.since, c.floor, w, NextKey(v.resume, w), false);
      if emptied then RefillOn(c, v', attempts - 1) else v'
  }

  /** A refill as a step on views. */
  function Refiller(c: StillStream): (step: View -> View)
  {
    v => RefillOn(c, v, 2)
  }

  ghost function OnStill(db: SubDb, start: Key, n: nat, since: u64, floor: Option<Rank>): (c: StillStream)
  {
    StillStream(db.ord, db.history(0), start, n, since, floor)
  }

  /** On a still index a refill is `RefillOn`. */
  ghost predicate IsStillRefill(db: SubDb, start: Key, n: nat, since: u64, floor: Option<Rank>, v: View, v': View)
  {
    db.Still() ==> v' == Refiller(OnStill(db, start, n, since, floor))(v)
  }

  ghost predicate IsOnTrack(db: SubDb, start: Key, n: nat, since: u64, floor: Option<Rank>, v0: View, v: View,
                            attempt: int)
  {
    attempt <= 2 &&
    IsStillRefill(db, start, n, since, floor, v0, RefillOn(OnStill(db, start, n, since, floor), v, 2 - attempt))
  }

  lemma AttemptIsOnTrack(db: SubDb, start: Key, n: nat, since: u64, floor: Option<Rank>, t: nat, v0: View, v: View,
                         batch: seq<Entry>, attempt: nat)
    requires attempt <= 1 && IsOnTrack(db, start, n, since, floor, v0, v, attempt)
    requires batch == WindowAt(db, Reverse, v.resume, v.first, n, t)
    ensures
      var (v', emptied) := Sifted(start.prefix, since, floor, batch, NextKey(v.resume, batch), false);
      if emptied then IsOnTrack(db, start, n, since, floor, v0, v', attempt + 1)
      else IsStillRefill(db, start, n, since, floor, v0, v')
  {
    var c := OnStill(db, start, n, since, floor);
    var (v', emptied) := Sifted(start.prefix, since, floor, batch, NextKey(v.resume, batch), false);
    if db.Still() {
      assert batch == NextWindow(c, v);
      assert RefillOn(c, v, 2 - attempt) == if emptied then RefillOn(c, v', 1 - attempt) else v';
    }
  }

  /** An entry read in one of the transactions `from`, ..., `to - 1`. */
  ghost predicate Seen(db: SubDb, from: nat, to: nat, e: Entry)
  {
    exists t: nat :: from <= t < to && e in db.history(t)
  }

  /** What the sieve lets through, whatever is stored. */
  ghost predicate Passes(prefix: bytes, since: u64, floor: Option<Rank>, e: Entry)
  {
    Guard(prefix, e.key) && since <= e.key.ts && FloorKeeps(floor, e)
  }

  ghost predicate Loaded(db: SubDb, prefix: bytes, since: u64, floor: Option<Rank>, from: nat, to: nat, v: View)
  {
    && db.ord.ok(v.resume.prefix)
    && forall e :: e in v.rest ==> Seen(db, from, to, e) && Passes(prefix, since, floor, e)
  }

  lemma SiftedIsLoaded(db: SubDb, prefix: bytes, since: u64, floor: Option<Rank>, batch: seq<Entry>, next: Key, t: nat)
    requires db.ord.ok(next.prefix) && forall e :: e in batch ==> e in db.history(t)
    ensures Loaded(db, prefix, since, floor, t, t + 1, Sifted(prefix, since, floor, batch, next, false).0)
  {
    var guarded := TakeWhileGuard(prefix, batch);
    var kept := DropAboveFloor(floor, guarded);
    forall e | e in CutAtSince(since, kept) ensures Seen(db, t, t + 1, e) && Passes(prefix, since, floor, e) {
      assert e in kept && e in guarded && e in batch;
    }
  }

  // ---------------------------------------------------------------------------
  // The cases of a refill
  // ---------------------------------------------------------------------------

  ghost predicate Narrowed(db: SubDb, start: Key, since: u64, floor: Option<Rank>, v: View, v': View)
  {
    && (forall e: Entry :: db.ord.ok(e.key.prefix) && Pending(db.ord, v', e) ==> Pending(db.ord, v, e))
    && (forall e :: e in db.must && Eligible(start, since, floor, e) && Pending(db.ord, v, e) ==>
          Pending(db.ord, v', e))
  }

  /** Everything this prefix still has is older than the floor. */
  ghost predicate PastFloor(o: Order, start: Key, floor: Option<Rank>, resume: Key, first: bool)
  {
    floor.Some? &&
    forall k: Key :: o.ok(k.prefix) && k.prefix == start.prefix && Ahead(o, Reverse, resume, first, k) ==>
             k.ts < floor.value.ts
  }

  /** A stream without aliases between two attempts of a refill; a third attempt does not happen. */
  ghost predicate CanRetry(db: SubDb, start: Key, since: u64, floor: Option<Rank>, v0: View, v: View, attempt: int)
  {
    && attempt <= 1
    && StreamInv(db, start, since, floor, v)
    && Narrowed(db, start, since, floor, v0, v)
    && (attempt == 1 ==> PastFloor(db.ord, start, floor, v.resume, v.first))
  }

  /** A refill after `attempt` windows that the floor has emptied. */
  ghost predicate IsRetry(db: SubDb, start: Key, since: u64, floor: Option<Rank>, v0: View, v: View, attempt: int)
  {
    && attempt <= 2 && db.ord.ok(v.resume.prefix)
    && (NoAlias(db, start.prefix) ==> CanRetry(db, start, since, floor, v0, v, attempt))
  }

  /**
   A refill. Whatever is stored, the buffer holds only entries read meanwhile that pass the sieve;
   without aliases nothing is lost.
   */
  ghost predicate IsRefill(db: SubDb, start: Key, since: u64, floor: Option<Rank>, from: nat, to: nat, v: View,
                           v': View)
  {
    && Settled(v') && Loaded(db, start.prefix, since, floor, from, to, v')
    && (NoAlias(db, start.prefix) ==> Refilled(db, start, since, floor, v, v'))
  }

  /** A window of a stream lies at or below the start, and what is ahead after it was ahead before. */
  lemma WindowIsBelowStart(db: SubDb, start: Key, since: u64, floor: Option<Rank>, v: View, batch: seq<Entry>,
                           next: Key)
    requires db.Valid() && StreamInv(db, start, since, floor, v)
    requires IsStep(db, Reverse, v.resume, v.first, batch, next)
    ensures forall e :: e in batch ==> AtOrBelow(db.ord, e.key, start)
    ensures AtOrBelow(db.ord, next, start)
    ensures forall k: Key :: db.ord.ok(k.prefix) && Ahead(db.ord, Reverse, next, false, k) ==>
              Ahead(db.ord, Reverse, v.resume, v.first, k)
  {
  }

  /** Stopping is right when no durable eligible entry is ahead. */
  lemma StoppedLosesNothing(db: SubDb, start: Key, since: u64, floor: Option<Rank>, v0: View, v: View, next: Key)
    requires db.Valid() && StreamInv(db, start, since, floor, v) && Narrowed(db, start, since, floor, v0, v)
    requires db.ord.ok(next.prefix) && AtOrBelow(db.ord, next, start)
    requires forall e :: e in db.must && Eligible(start, since, floor, e) ==> !Pending(db.ord, v, e)
    ensures Refilled(db, start, since, floor, v0, View(next, false, true, []))
  {
  }

  lemma AfterTheLastWindow(db: SubDb, start: Key, since: u64, floor: Option<Rank>, v0: View, v: View, next: Key)
    requires db.Valid() && StreamInv(db, start, since, floor, v) && Narrowed(db, start, since, floor, v0, v)
    requires v.rest == [] && IsStep(db, Reverse, v.resume, v.first, [], next)
    ensures Refilled(db, start, since, floor, v0, View(next, false, true, []))
  {
  }

  /** A window without a guarded entry has left the prefix group behind. */
  lemma AfterLeavingTheGroup(db: SubDb, start: Key, since: u64, floor: Option<Rank>, v0: View, v: View,
                             batch: seq<Entry>, next: Key)
    requires db.Valid() && NoAlias(db, start.prefix)
    requires StreamInv(db, start, since, floor, v) && Narrowed(db, start, since, floor, v0, v)
    requires v.rest == [] && IsStep(db, Reverse, v.resume, v.first, batch, next)
    requires batch != [] && TakeWhileGuard(start.prefix, batch) == []
    ensures Refilled(db, start, since, floor, v0, View(next, false, true, []))
  {
    var o := db.ord;
    WindowIsBelowStart(db, start, since, floor, v, batch, next);
    GuardKeepsTheGroup(db, start, batch);
    var last := batch[|batch| - 1];
    assert last in batch;
    assert o.less(next.prefix, start.prefix);
    assert !o.less(start.prefix, start.prefix);
    assert !o.less(start.prefix, next.prefix);
    forall e | e in db.must && Eligible(start, since, floor, e) ensures !Pending(o, v, e) {
      assert !KeyLess(o, e.key, next);
    }
    StoppedLosesNothing(db, start, since, floor, v0, v, next);
  }

  /**
   A window whose guarded entries are all dropped by the floor consisted of the floor's own
   duplicate group, and has drained it: nothing of that second is left for this prefix.
   */
  lemma AfterAFlooredWindow(db: SubDb, start: Key, since: u64, floor: Option<Rank>, v0: View, v: View,
                            batch: seq<Entry>, next: Key)
    requires db.Valid() && NoAlias(db, start.prefix)
    requires StreamInv(db, start, since, floor, v) && Narrowed(db, start, since, floor, v0, v)
    requires v.rest == [] && !v.exhausted && IsStep(db, Reverse, v.resume, v.first, batch, next)
    requires TakeWhileGuard(start.prefix, batch) != []
    requires DropAboveFloor(floor, TakeWhileGuard(start.prefix, batch)) == []
    ensures StreamInv(db, start, since, floor, View(next, false, false, []))
    ensures Narrowed(db, start, since, floor, v0, View(next, false, false, []))
    ensures PastFloor(db.ord, start, floor, next, false)
  {
    var o, guarded := db.ord, TakeWhileGuard(start.prefix, batch);
    WindowIsBelowStart(db, start, since, floor, v, batch, next);
    GuardKeepsTheGroup(db, start, batch);
    var g := guarded[0];
    assert g in guarded && g !in DropAboveFloor(floor, guarded);
    KeyOrderIsStrictTotal(o);
    assert !o.less(start.prefix, start.prefix);
    forall k: Key | o.ok(k.prefix) && k.prefix == start.prefix && Ahead(o, Reverse, next, false, k)
      ensures k.ts < floor.value.ts
    {
      assert g.key == next || KeyLess(o, next, g.key);
      assert KeyLess(o, k, g.key);
    }
  }

  /** So the floor leaves the following window alone: two windows suffice. */
  lemma SecondWindowIsUntouched(db: SubDb, start: Key, since: u64, floor: Option<Rank>, v: View, batch: seq<Entry>,
                                next: Key)
    requires db.Valid() && NoAlias(db, start.prefix) && StreamInv(db, start, since, floor, v)
    requires IsStep(db, Reverse, v.resume, v.first, batch, next)
    requires PastFloor(db.ord, start, floor, v.resume, v.first)
    requires TakeWhileGuard(start.prefix, batch) != []
    ensures DropAboveFloor(floor, TakeWhileGuard(start.prefix, batch)) != []
  {
  }

  /** The survivors of guard and floor, in order. */
  lemma KeptOfWindow(db: SubDb, start: Key, since: u64, floor: Option<Rank>, v: View, batch: seq<Entry>, next: Key,
                     kept: seq<Entry>)
    requires db.Valid() && NoAlias(db, start.prefix) && StreamInv(db, start, since, floor, v)
    requires IsStep(db, Reverse, v.resume, v.first, batch, next)
    requires kept == DropAboveFloor(floor, TakeWhileGuard(start.prefix, batch))
    ensures Ordered(db.ord, Reverse, kept) && Ordered(db.ord, Reverse, CutAtSince(since, kept))
    ensures forall e :: e in kept <==> e in batch && e.key.prefix == start.prefix && FloorKeeps(floor, e)
    ensures forall e :: e in CutAtSince(since, kept) <==> e in kept && since <= e.key.ts
  {
    var guarded := TakeWhileGuard(start.prefix, batch);
    WindowIsBelowStart(db, start, since, floor, v, batch, next);
    GuardKeepsTheGroup(db, start, batch);
    assert Ordered(db.ord, Reverse, guarded);
    DropAboveFloorKeepsOrder(db.ord, floor, guarded);
    CutKeepsTheRecent(db.ord, since, kept, start.prefix);
  }

  lemma LoadedStreamInv(db: SubDb, start: Key, since: u64, floor: Option<Rank>, v: View, batch: seq<Entry>, next: Key,
                        v': View)
    requires db.Valid() && NoAlias(db, start.prefix) && StreamInv(db, start, since, floor, v)
    requires IsStep(db, Reverse, v.resume, v.first, batch, next)
    requires v'.resume == next && !v'.first
    requires v'.rest == CutAtSince(since, DropAboveFloor(floor, TakeWhileGuard(start.prefix, batch)))
    ensures StreamInv(db, start, since, floor, v')
  {
    KeptOfWindow(db, start, since, floor, v, batch, next, DropAboveFloor(floor, TakeWhileGuard(start.prefix, batch)));
    WindowIsBelowStart(db, start, since, floor, v, batch, next);
    assert !db.ord.less(start.prefix, start.prefix);
    forall e | e in v'.rest
      ensures e in db.may && Eligible(start, since, floor, e) && !Ahead(db.ord, Reverse, next, false, e.key)
    {
      assert e in batch && AtOrBelow(db.ord, e.key, start);
    }
  }

  lemma AfterSifting(db: SubDb, start: Key, since: u64, floor: Option<Rank>, v0: View, v: View, batch: seq<Entry>,
                     next: Key)
    requires db.Valid() && NoAlias(db, start.prefix)
    requires StreamInv(db, start, since, floor, v) && Narrowed(db, start, since, floor, v0, v)
    requires v.rest == [] && !v.exhausted && batch != [] && IsStep(db, Reverse, v.resume, v.first, batch, next)
    requires !Sifted(start.prefix, since, floor, batch, next, false).1
    ensures Refilled(db, start, since, floor, v0, Sifted(start.prefix, since, floor, batch, next, false).0)
  {
    if TakeWhileGuard(start.prefix, batch) == [] {
      AfterLeavingTheGroup(db, start, since, floor, v0, v, batch, next);
    } else {
      var kept := DropAboveFloor(floor, TakeWhileGuard(start.prefix, batch));
      var v' := Sifted(start.prefix, since, floor, batch, next, false).0;
      LoadedStreamInv(db, start, since, floor, v, batch, next, v');
      LoadedNarrows(db, start, since, floor, v, batch, next, kept, v');
      assert Settled(v');
    }
  }

  /** One attempt of a refill ends it, or leaves a stream for which one more window suffices. */
  lemma AfterAttempt(db: SubDb, start: Key, since: u64, floor: Option<Rank>, v0: View, v: View, batch: seq<Entry>,
                     attempt: nat)
    requires db.Valid() && NoAlias(db, start.prefix) && CanRetry(db, start, since, floor, v0, v, attempt)
    requires v.rest == [] && !v.exhausted && IsStep(db, Reverse, v.resume, v.first, batch, NextKey(v.resume, batch))
    ensures
      var (v', emptied) := Sifted(start.prefix, since, floor, batch, NextKey(v.resume, batch), false);
      if emptied then CanRetry(db, start, since, floor, v0, v', attempt + 1)
      else Refilled(db, start, since, floor, v0, v')
  {
    var next := NextKey(v.resume, batch);
    if batch == [] {
      AfterTheLastWindow(db, start, since, floor, v0, v, next);
    } else if !Sifted(start.prefix, since, floor, batch, next, false).1 {
      AfterSifting(db, start, since, floor, v0, v, batch, next);
    } else if attempt == 1 {
      SecondWindowIsUntouched(db, start, since, floor, v, batch, next);
      assert false;
    } else {
      AfterAFlooredWindow(db, start, since, floor, v0, v, batch, next);
    }
  }

  lemma AttemptIsRefill(db: SubDb, start: Key, n: nat, since: u64, floor: Option<Rank>, from: nat, t: nat, v0: View,
                        v: View, batch: seq<Entry>, attempt: nat)
    requires db.Valid() && n >= 1 && attempt <= 1 && from <= t && IsRetry(db, start, since, floor, v0, v, attempt)
    requires v.rest == [] && !v.exhausted && batch == WindowAt(db, Reverse, v.resume, v.first, n, t)
    ensures
      var (v', emptied) := Sifted(start.prefix, since, floor, batch, NextKey(v.resume, batch), false);
      if emptied then IsRetry(db, start, since, floor, v0, v', attempt + 1)
      else IsRefill(db, start, since, floor, from, t + 1, v0, v')
  {
    WindowIsStep(db, Reverse, v.resume, v.first, n, t, batch);
    SiftedIsLoaded(db, start.prefix, since, floor, batch, NextKey(v.resume, batch), t);
    if NoAlias(db, start.prefix) {
      AfterAttempt(db, start, since, floor, v0, v, batch, attempt);
    }
  }

  /** Giving up after two windows, which happens only among aliases. */
  lemma GaveUp(db: SubDb, start: Key, since: u64, floor: Option<Rank>, from: nat, to: nat, v0: View, v: View)
    requires IsRetry(db, start, since, floor, v0, v, 2)
    ensures !NoAlias(db, start.prefix)
    ensures IsRefill(db, start, since, floor, from, to, v0, View(v.resume, v.first, true, []))
  {
  }

  lemma LoadedNarrows(db: SubDb, start: Key, since: u64, floor: Option<Rank>, v: View, batch: seq<Entry>, next: Key,
                      kept: seq<Entry>, v': View)
    requires db.Valid() && NoAlias(db, start.prefix) && StreamInv(db, start, since, floor, v)
    requires v.rest == [] && !v.exhausted && IsStep(db, Reverse, v.resume, v.first, batch, next)
    requires kept == DropAboveFloor(floor, TakeWhileGuard(start.prefix, batch)) && kept != []
    requires v' == View(next, false, |CutAtSince(since, kept)| < |kept|, CutAtSince(since, kept))
    ensures Narrowed(db, start, since, floor, v, v')
  {
    var cut := CutAtSince(since, kept);
    KeptOfWindow(db, start, since, floor, v, batch, next, kept);
    WindowIsBelowStart(db, start, since, floor, v, batch, next);
    if |cut| < |kept| {
      assert kept[|cut|] in kept;
      CutMeansDone(db, start, since, kept[|cut|], next);
    }
  }

  /** Once one entry of the group is older than `since`, so is everything ahead. */
  lemma CutMeansDone(db: SubDb, start: Key, since: u64, c: Entry, next: Key)
    requires db.Valid() && db.ord.ok(start.prefix) && db.ord.ok(next.prefix)
    requires c.key.prefix == start.prefix && c.key.ts < since && !Ahead(db.ord, Reverse, next, false, c.key)
    ensures forall k: Key :: k.prefix == start.prefix && Ahead(db.ord, Reverse, next, false, k) ==> k.ts < since
  {
  }

  // ---------------------------------------------------------------------------
  // The heap of stream heads
  // ---------------------------------------------------------------------------

  datatype Candidate = Candidate(entry: Entry, stream: nat)

  ghost predicate HeapInv(vs: seq<View>, heap: set<Candidate>)
  {
    && (forall c :: c in heap ==> c.stream < |vs| && vs[c.stream].rest != [] && c.entry == vs[c.stream].rest[0])
    && (forall i :: 0 <= i < |vs| && vs[i].rest != [] ==> Candidate(vs[i].rest[0], i) in heap)
  }

  /** A greatest candidate; which one of several equal ranks is left open. */
  method PopMax(heap: set<Candidate>) returns (c: Candidate, rest: set<Candidate>)
    requires heap != {}
    ensures c in heap && rest == heap - {c}
    ensures forall d :: d in heap ==> AtMost(RankOf(d.entry), RankOf(c.entry))
  {
    c :| c in heap;
    var todo := heap - {c};
    while todo != {}
      invariant c in heap && todo <= heap
      invariant forall d :: d in heap - todo ==> AtMost(RankOf(d.entry), RankOf(c.entry))
      decreases todo
    {
      var d :| d in todo;
      if Below(RankOf(c.entry), RankOf(d.entry)) {
        c := d;
      }
      todo := todo - {d};
    }
    rest := heap - {c};
  }

  // ---------------------------------------------------------------------------
  // The merge
  // ---------------------------------------------------------------------------

  ghost predicate Wanted(starts: seq<Key>, since: u64, floor: Option<Rank>, e: Entry)
  {
    exists i :: 0 <= i < |starts| && Eligible(starts[i], since, floor, e)
  }

  ghost predicate Descending(out: seq<Entry>)
  {
    forall i, j :: 0 <= i < j < |out| ==> AtMost(RankOf(out[j]), RankOf(out[i])) && out[i] != out[j]
  }

  /**
   What a merge delivers: distinct wanted entries, newest first, and of the durable wanted
   entries all, or the `emitLimit` greatest.
   */
  ghost predicate IsMerge(db: SubDb, starts: seq<Key>, since: u64, floor: Option<Rank>, emitLimit: nat, out: seq<Entry>)
  {
    && |out| <= emitLimit
    && Descending(out)
    && (forall e :: e in out ==> e in db.may && Wanted(starts, since, floor, e))
    && (forall e :: e in db.must && Wanted(starts, since, floor, e) ==>
                    e in out || (|out| == emitLimit && forall r :: r in out ==> AtMost(RankOf(e), RankOf(r))))
  }

  ghost predicate StartsOk(db: SubDb, starts: seq<Key>)
  {
    && (forall i :: 0 <= i < |starts| ==> db.ord.ok(starts[i].prefix))
    && (forall i, j :: 0 <= i < j < |starts| ==> starts[i].prefix != starts[j].prefix)
  }

  ghost predicate AliasFree(db: SubDb, starts: seq<Key>)
  {
    forall i :: 0 <= i < |starts| ==> NoAlias(db, starts[i].prefix)
  }

  ghost predicate MergeInv(db: SubDb, starts: seq<Key>, since: u64, floor: Option<Rank>, vs: seq<View>, out: seq<Entry>)
  {
    && |vs| == |starts|
    && (forall i :: 0 <= i < |vs| ==> StreamInv(db, starts[i], since, floor, vs[i]))
    && Descending(out)
    && (forall e :: e in out ==> e in db.may && Wanted(starts, since, floor, e))
    && (forall r, i, e: Entry ::
          r in out && 0 <= i < |vs| && e in db.may + db.must && Eligible(starts[i], since, floor, e) &&
          Pending(db.ord, vs[i], e) ==>
            AtMost(RankOf(e), RankOf(r)) && e != r)
    && (forall i, e :: 0 <= i < |vs| && e in db.must && Eligible(starts[i], since, floor, e) ==>
          e in out || Pending(db.ord, vs[i], e))
  }

  /** What replaces a stream's view when its head has been emitted. */
  ghost predicate Advanced(db: SubDb, start: Key, since: u64, floor: Option<Rank>, v: View, v': View)
    requires v.rest != []
  {
    && StreamInv(db, start, since, floor, v')
    && (forall e: Entry :: db.ord.ok(e.key.prefix) && Pending(db.ord, v', e) ==>
          Pending(db.ord, v, e) && e != v.rest[0])
    && (forall e :: e in db.must && Eligible(start, since, floor, e) && Pending(db.ord, v, e) ==>
          e == v.rest[0] || Pending(db.ord, v', e))
  }

  lemma EmitOne(db: SubDb, starts: seq<Key>, since: u64, floor: Option<Rank>, vs: seq<View>, out: seq<Entry>, k: nat,
                v': View)
    requires db.Valid() && StartsOk(db, starts) && MergeInv(db, starts, since, floor, vs, out)
    requires forall i :: 0 <= i < |vs| ==> Settled(vs[i])
    requires k < |vs| && vs[k].rest != []
    requires forall i :: 0 <= i < |vs| && vs[i].rest != [] ==> AtMost(RankOf(vs[i].rest[0]), RankOf(vs[k].rest[0]))
    requires Advanced(db, starts[k], since, floor, vs[k], v')
    ensures MergeInv(db, starts, since, floor, vs[k := v'], out + [vs[k].rest[0]])
  {
    var c, vs', out' := vs[k].rest[0], vs[k := v'], out + [vs[k].rest[0]];
    assert c in vs[k].rest && Pending(db.ord, vs[k], c);
    assert c in db.may && Eligible(starts[k], since, floor, c);
    forall i | 0 <= i < |out| ensures AtMost(RankOf(c), RankOf(out[i])) && out[i] != c {
      assert out[i] in out;
    }
    forall r, i, e: Entry |
      r in out' && 0 <= i < |vs'| && e in db.may + db.must && Eligible(starts[i], since, floor, e) &&
      Pending(db.ord, vs'[i], e)
      ensures AtMost(RankOf(e), RankOf(r)) && e != r
    {
      assert e in db.may by { if e in db.must { assert e in db.history(0); } }
      if r == c {
        PendingIsBelowHead(db, starts, since, floor, vs, k, v', i, e);
      }
    }
    forall i, e | 0 <= i < |vs'| && e in db.must && Eligible(starts[i], since, floor, e)
      ensures e in out' || Pending(db.ord, vs'[i], e)
    {
      assert e in out || Pending(db.ord, vs[i], e);
    }
  }

  /** The greatest head outranks whatever any stream can still deliver. */
  lemma PendingIsBelowHead(db: SubDb, starts: seq<Key>, since: u64, floor: Option<Rank>, vs: seq<View>, k: nat,
                           v': View, i: nat, e: Entry)
    requires db.Valid() && StartsOk(db, starts) && |vs| == |starts| && k < |vs| && i < |vs| && vs[k].rest != []
    requires StreamInv(db, starts[i], since, floor, vs[i]) && StreamInv(db, starts[k], since, floor, vs[k]) &&
             Settled(vs[i])
    requires vs[i].rest != [] ==> AtMost(RankOf(vs[i].rest[0]), RankOf(vs[k].rest[0]))
    requires Advanced(db, starts[k], since, floor, vs[k], v')
    requires e in db.may && Eligible(starts[i], since, floor, e) && Pending(db.ord, vs[k := v'][i], e)
    ensures AtMost(RankOf(e), RankOf(vs[k].rest[0])) && e != vs[k].rest[0]
  {
    assert vs[k].rest[0] in vs[k].rest;
    assert Pending(db.ord, vs[i], e);
    if vs[i].rest != [] {
      HeadOutranksStream(db, starts[i], since, floor, vs[i], e);
    }
    assert i != k ==> starts[i].prefix != starts[k].prefix;
  }

  /** Consuming the head leaves the rest pending. */
  lemma ConsumeHead(db: SubDb, start: Key, since: u64, floor: Option<Rank>, v: View)
    requires db.Valid() && StreamInv(db, start, since, floor, v) && v.rest != []
    ensures Advanced(db, start, since, floor, v, v.(rest := v.rest[1..]))
  {
  }

  /** When every stream is exhausted and drained, or the limit is reached, the merge is complete. */
  lemma MergeIsComplete(db: SubDb, starts: seq<Key>, since: u64, floor: Option<Rank>, emitLimit: nat, vs: seq<View>,
                        out: seq<Entry>)
    requires db.Valid() && StartsOk(db, starts) && MergeInv(db, starts, since, floor, vs, out)
    requires |out| <= emitLimit
    requires |out| == emitLimit || forall i :: 0 <= i < |vs| ==> vs[i].exhausted && vs[i].rest == []
    ensures IsMerge(db, starts, since, floor, emitLimit, out)
  {
  }

  ghost predicate Apart(streams: seq<StreamState>)
  {
    forall i, j :: 0 <= i < j < |streams| ==> streams[i] != streams[j]
  }

  /** The stream objects are distinct and show the views `vs`. */
  ghost predicate Mirrors(streams: seq<StreamState>, starts: seq<Key>, vs: seq<View>)
    reads streams
  {
    && |streams| == |starts| == |vs| && Apart(streams)
    && forall i :: 0 <= i < |streams| ==>
         streams[i].WellFormed() && streams[i].prefix == starts[i].prefix && streams[i].ViewOf() == vs[i]
  }

  // ---------------------------------------------------------------------------
  // A single stream on a still index
  // ---------------------------------------------------------------------------

  /** A stream after `k` refills; an exhausted stream delivers nothing more. */
  function StreamAfter(step: View -> View, start: Key, k: nat): (v: View)
  {
    if k == 0 then View(start, true, false, [])
    else
      var v := StreamAfter(step, start, k - 1);
      if v.exhausted then v.(rest := []) else step(v.(rest := []))
  }

  /** All that the first `k` refills have loaded. */
  function Drained(step: View -> View, start: Key, k: nat): (s: seq<Entry>)
  {
    if k == 0 then [] else Drained(step, start, k - 1) + StreamAfter(step, start, k).rest
  }

  /** The first `emitLimit` entries a stream delivers. */
  ghost predicate IsStreamHead(step: View -> View, start: Key, emitLimit: nat, out: seq<Entry>)
  {
    |out| <= emitLimit && exists k: nat ::
      && out <= Drained(step, start, k)
      && (|out| == emitLimit || (out == Drained(step, start, k) && StreamAfter(step, start, k).exhausted))
  }

  ghost predicate StreamAt(step: View -> View, start: Key, k: nat, v: View, out: seq<Entry>)
  {
    v == StreamAfter(step, start, k).(rest := v.rest) && out + v.rest == Drained(step, start, k)
  }

  /** The entries emitted so far and the buffer are what some number of refills have loaded. */
  ghost predicate InSeries(step: View -> View, start: Key, v: View, out: seq<Entry>)
  {
    exists k: nat :: StreamAt(step, start, k, v, out)
  }

  function AdvanceOn(step: View -> View, v: View): (v': View)
    requires v.rest != []
  {
    if |v.rest| == 1 && !v.exhausted then step(v.(rest := [])) else v.(rest := v.rest[1..])
  }

  lemma SeriesStarts(step: View -> View, start: Key)
    ensures InSeries(step, start, step(View(start, true, false, [])), [])
  {
    assert StreamAfter(step, start, 0) == View(start, true, false, []);
    assert Drained(step, start, 1) == Drained(step, start, 0) + StreamAfter(step, start, 1).rest;
    assert StreamAt(step, start, 1, StreamAfter(step, start, 1), []);
  }

  lemma SeriesAdvances(step: View -> View, start: Key, v: View, out: seq<Entry>)
    requires InSeries(step, start, v, out) && v.rest != []
    ensures InSeries(step, start, AdvanceOn(step, v), out + [v.rest[0]])
  {
    var k: nat :| StreamAt(step, start, k, v, out);
    assert v.rest == [v.rest[0]] + v.rest[1..];
    if |v.rest| == 1 && !v.exhausted {
      assert Drained(step, start, k + 1) == out + [v.rest[0]] + StreamAfter(step, start, k + 1).rest;
      assert StreamAt(step, start, k + 1, AdvanceOn(step, v), out + [v.rest[0]]);
    } else {
      assert out + [v.rest[0]] + v.rest[1..] == out + v.rest;
      assert StreamAt(step, start, k, AdvanceOn(step, v), out + [v.rest[0]]);
    }
  }

  // ---------------------------------------------------------------------------
  // merge_windowed
  // ---------------------------------------------------------------------------

  /** Read during the call, and let through by the sieve of one of the streams. */
  ghost predicate Delivered(db: SubDb, starts: seq<Key>, since: u64, floor: Option<Rank>, from: nat, to: nat, e: Entry)
  {
    Seen(db, from, to, e) && exists i :: 0 <= i < |starts| && Passes(starts[i].prefix, since, floor, e)
  }

  /**
   The contract of a merge. Whatever is stored, it emits only entries that were read meanwhile
   and passed a sieve; without aliases it is a merge as `IsMerge` says.
   */
  ghost predicate IsEmission(db: SubDb, starts: seq<Key>, since: u64, floor: Option<Rank>, emitLimit: nat, from: nat,
                             to: nat, out: seq<Entry>)
  {
    && |out| <= emitLimit
    && (forall e :: e in out ==> Delivered(db, starts, since, floor, from, to, e))
    && (AliasFree(db, starts) ==> IsMerge(db, starts, since, floor, emitLimit, out))
  }

  ghost predicate LoopInv(db: SubDb, starts: seq<Key>, since: u64, floor: Option<Rank>, vs: seq<View>,
                          heap: set<Candidate>, out: seq<Entry>)
  {
    && MergeInv(db, starts, since, floor, vs, out)
    && (forall i :: 0 <= i < |vs| ==> Settled(vs[i]))
    && HeapInv(vs, heap)
  }

  /** The state of the merge loop, whatever is stored. */
  ghost predicate LoopOk(db: SubDb, starts: seq<Key>, since: u64, floor: Option<Rank>, from: nat, to: nat,
                         vs: seq<View>, heap: set<Candidate>, out: seq<Entry>)
  {
    && |vs| == |starts| && HeapInv(vs, heap)
    && (forall i :: 0 <= i < |vs| ==> Settled(vs[i]) && Loaded(db, starts[i].prefix, since, floor, from, to, vs[i]))
    && (forall i :: 0 <= i < |vs| && NoAlias(db, starts[i].prefix) ==> StreamInv(db, starts[i], since, floor, vs[i]))
    && (forall e :: e in out ==> Delivered(db, starts, since, floor, from, to, e))
    && (AliasFree(db, starts) ==> LoopInv(db, starts, since, floor, vs, heap, out))
  }

  /** A stream with its first window loaded. */
  ghost predicate Opened(db: SubDb, start: Key, since: u64, floor: Option<Rank>, from: nat, to: nat, v: View)
  {
    IsRefill(db, start, since, floor, from, to, View(start, true, false, []), v)
  }

  method OpenStream(db: SubDb, start: Key, batchSize: nat, since: u64, floor: Option<Rank>) returns (s: StreamState)
    requires db.Valid() && db.ord.ok(start.prefix) && batchSize >= 1
    modifies db.env
    ensures fresh(s) && s.WellFormed() && s.prefix == start.prefix && old(db.env.txns) <= db.env.txns
    ensures Opened(db, start, since, floor, old(db.env.txns), db.env.txns, s.ViewOf())
    ensures IsStillRefill(db, start, batchSize, since, floor, View(start, true, false, []), s.ViewOf())
  {
    s := new StreamState(start);
    assert StreamInv(db, start, since, floor, s.ViewOf());
    s.Refill(db, batchSize, since, floor, start);
  }

  ghost predicate AllOpened(db: SubDb, starts: seq<Key>, since: u64, floor: Option<Rank>, from: nat, to: nat,
                            vs: seq<View>)
  {
    |vs| <= |starts| && forall i :: 0 <= i < |vs| ==> Opened(db, starts[i], since, floor, from, to, vs[i])
  }

  lemma OneMoreOpened(db: SubDb, starts: seq<Key>, since: u64, floor: Option<Rank>, from: nat, mid: nat, to: nat,
                      vs: seq<View>, v: View)
    requires AllOpened(db, starts, since, floor, from, mid, vs) && |vs| < |starts| && from <= mid <= to
    requires Opened(db, starts[|vs|], since, floor, mid, to, v)
    ensures AllOpened(db, starts, since, floor, from, to, vs + [v])
  {
  }

  lemma LoadedLonger(db: SubDb, prefix: bytes, since: u64, floor: Option<Rank>, from: nat, mid: nat, to: nat, to': nat,
                     v: View)
    requires Loaded(db, prefix, since, floor, mid, to, v) && from <= mid && to <= to'
    ensures Loaded(db, prefix, since, floor, from, to', v)
  {
  }

  /** Build the streams and load the first window of each. */
  method OpenStreams(db: SubDb, starts: seq<Key>, batchSize: nat, since: u64, floor: Option<Rank>)
    returns (streams: seq<StreamState>, ghost vs: seq<View>)
    requires db.Valid() && StartsOk(db, starts) && batchSize >= 1
    modifies db.env
    ensures fresh(streams) && Mirrors(streams, starts, vs) && old(db.env.txns) <= db.env.txns
    ensures AllOpened(db, starts, since, floor, old(db.env.txns), db.env.txns, vs)
    ensures IsSingleOpened(db, starts, batchSize, since, floor, vs)
  {
    streams, vs := [], [];
    ghost var from := db.env.txns;
    for k := 0 to |starts|
      invariant fresh(streams) && Mirrors(streams, starts[..k], vs) && from <= db.env.txns
      invariant AllOpened(db, starts, since, floor, from, db.env.txns, vs)
      invariant k == 1 ==> IsSingleOpened(db, starts, batchSize, since, floor, vs)
    {
      ghost var mid := db.env.txns;
      var s := OpenStream(db, starts[k], batchSize, since, floor);
      OneMoreOpened(db, starts, since, floor, from, mid, db.env.txns, vs, s.ViewOf());
      MirrorOneMore(streams, starts, vs, k, s);
      streams, vs := streams + [s], vs + [s.ViewOf()];
    }
    assert starts[..|starts|] == starts;
  }

  lemma MirrorOneMore(streams: seq<StreamState>, starts: seq<Key>, vs: seq<View>, k: nat, s: StreamState)
    requires k < |starts| && Mirrors(streams, starts[..k], vs) && s !in streams
    requires s.WellFormed() && s.prefix == starts[k].prefix
    ensures Mirrors(streams + [s], starts[..k + 1], vs + [s.ViewOf()])
  {
  }

  ghost predicate IsSingleOpened(db: SubDb, starts: seq<Key>, n: nat, since: u64, floor: Option<Rank>, vs: seq<View>)
  {
    |starts| == 1 ==>
      |vs| == 1 && IsStillRefill(db, starts[0], n, since, floor, View(starts[0], true, false, []), vs[0])
  }

  /** Seed the heap with the head of every stream that has one. */
  method SeedHeap(streams: seq<StreamState>, starts: seq<Key>, ghost vs: seq<View>) returns (heap: set<Candidate>)
    requires Mirrors(streams, starts, vs)
    ensures HeapInv(vs, heap)
  {
    heap := {};
    for i := 0 to |streams|
      invariant forall c :: c in heap ==> c.stream < i && vs[c.stream].rest != [] && c.entry == vs[c.stream].rest[0]
      invariant forall j :: 0 <= j < i && vs[j].rest != [] ==> Candidate(vs[j].rest[0], j) in heap
    {
      if streams[i].pos < |streams[i].buffer| {
        heap := heap + {Candidate(streams[i].buffer[streams[i].pos], i)};
      }
    }
  }

  lemma LoopStarts(db: SubDb, starts: seq<Key>, since: u64, floor: Option<Rank>, from: nat, to: nat, vs: seq<View>,
                   heap: set<Candidate>)
    requires db.Valid() && StartsOk(db, starts) && |vs| == |starts| && HeapInv(vs, heap)
    requires AllOpened(db, starts, since, floor, from, to, vs)
    ensures LoopOk(db, starts, since, floor, from, to, vs, heap, [])
  {
  }

  /** A stream whose head has been emitted, whatever is stored. */
  ghost predicate IsAdvance(db: SubDb, start: Key, since: u64, floor: Option<Rank>, from: nat, to: nat, v: View,
                            v': View)
    requires v.rest != []
  {
    && Settled(v') && Loaded(db, start.prefix, since, floor, from, to, v')
    && (NoAlias(db, start.prefix) ==> Advanced(db, start, since, floor, v, v'))
  }

  ghost predicate IsStillAdvance(db: SubDb, start: Key, n: nat, since: u64, floor: Option<Rank>, v: View, v': View)
    requires v.rest != []
  {
    db.Still() ==> v' == AdvanceOn(Refiller(OnStill(db, start, n, since, floor)), v)
  }

  lemma ConsumeIsAdvance(db: SubDb, start: Key, since: u64, floor: Option<Rank>, from: nat, to: nat, v: View)
    requires db.Valid() && v.rest != [] && Settled(v) && Loaded(db, start.prefix, since, floor, from, to, v)
    requires NoAlias(db, start.prefix) ==> StreamInv(db, start, since, floor, v)
    requires v.exhausted || |v.rest| > 1
    ensures IsAdvance(db, start, since, floor, from, to, v, v.(rest := v.rest[1..]))
  {
  }

  lemma RefillIsAdvance(db: SubDb, start: Key, since: u64, floor: Option<Rank>, from: nat, mid: nat, to: nat, v: View,
                        v': View)
    requires db.Valid() && v.rest != [] && from <= mid <= to
    requires NoAlias(db, start.prefix) ==> StreamInv(db, start, since, floor, v)
    requires !v.exhausted && |v.rest| == 1
    requires IsRefill(db, start, since, floor, mid, to, v.(rest := []), v')
    ensures IsAdvance(db, start, since, floor, from, to, v, v')
  {
  }

  /** Consume the head of one stream, refill it if it has run dry, and hand back its new head. */
  method AdvanceStream(db: SubDb, stream: StreamState, batchSize: nat, since: u64, floor: Option<Rank>,
                       ghost start: Key, ghost from: nat)
    returns (head: Option<Entry>)
    requires db.Valid() && batchSize >= 1 && from <= db.env.txns
    requires stream.WellFormed() && stream.prefix == start.prefix && stream.ViewOf().rest != []
    requires Settled(stream.ViewOf()) && Loaded(db, start.prefix, since, floor, from, db.env.txns, stream.ViewOf())
    requires NoAlias(db, start.prefix) ==> StreamInv(db, start, since, floor, stream.ViewOf())
    modifies stream, db.env
    ensures stream.WellFormed() && stream.prefix == start.prefix && old(db.env.txns) <= db.env.txns
    ensures IsAdvance(db, start, since, floor, from, db.env.txns, old(stream.ViewOf()), stream.ViewOf())
    ensures IsStillAdvance(db, start, batchSize, since, floor, old(stream.ViewOf()), stream.ViewOf())
    ensures var rest := stream.ViewOf().rest; head == if rest == [] then None else Some(rest[0])
  {
    ghost var v, mid := stream.ViewOf(), db.env.txns;
    if NoAlias(db, start.prefix) {
      ConsumeHead(db, start, since, floor, v);
    }
    stream.pos := stream.pos + 1;
    assert stream.ViewOf() == v.(rest := v.rest[1..]);
    if stream.NeedsRefill() {
      assert stream.ViewOf() == v.(rest := []) && |v.rest| == 1;
      stream.Refill(db, batchSize, since, floor, start);
      RefillIsAdvance(db, start, since, floor, from, mid, db.env.txns, v, stream.ViewOf());
    } else {
      ConsumeIsAdvance(db, start, since, floor, from, mid, v);
    }
    head := if stream.pos < |stream.buffer| then Some(stream.buffer[stream.pos]) else None;
  }

  lemma HeadsAreCandidates(vs: seq<View>, heap: set<Candidate>, c: Candidate)
    requires HeapInv(vs, heap) && forall d :: d in heap ==> AtMost(RankOf(d.entry), RankOf(c.entry))
    ensures forall i :: 0 <= i < |vs| && vs[i].rest != [] ==> AtMost(RankOf(vs[i].rest[0]), RankOf(c.entry))
  {
  }

  /** Replacing a popped candidate by its stream's next head. */
  lemma HeapAfterAdvance(vs: seq<View>, heap: set<Candidate>, c: Candidate, v': View, heap': set<Candidate>)
    requires HeapInv(vs, heap) && c in heap
    requires heap' == heap - {c} + HeadOf(v', c.stream)
    ensures HeapInv(vs[c.stream := v'], heap')
  {
  }

  ghost function HeadOf(v: View, stream: nat): (s: set<Candidate>)
  {
    if v.rest == [] then {} else {Candidate(v.rest[0], stream)}
  }

  lemma EmitKeepsInv(db: SubDb, starts: seq<Key>, since: u64, floor: Option<Rank>, vs: seq<View>, heap: set<Candidate>,
                     out: seq<Entry>, c: Candidate, v': View, heap': set<Candidate>)
    requires db.Valid() && StartsOk(db, starts) && LoopInv(db, starts, since, floor, vs, heap, out)
    requires c in heap && forall d :: d in heap ==> AtMost(RankOf(d.entry), RankOf(c.entry))
    requires Advanced(db, starts[c.stream], since, floor, vs[c.stream], v') && Settled(v')
    requires heap' == heap - {c} + HeadOf(v', c.stream)
    ensures LoopInv(db, starts, since, floor, vs[c.stream := v'], heap', out + [c.entry])
  {
    HeadsAreCandidates(vs, heap, c);
    EmitOne(db, starts, since, floor, vs, out, c.stream, v');
    HeapAfterAdvance(vs, heap, c, v', heap');
  }

  lemma DeliveredLonger(db: SubDb, starts: seq<Key>, since: u64, floor: Option<Rank>, from: nat, to: nat, to': nat,
                        out: seq<Entry>)
    requires to <= to' && forall e :: e in out ==> Delivered(db, starts, since, floor, from, to, e)
    ensures forall e :: e in out ==> Delivered(db, starts, since, floor, from, to', e)
  {
  }

  /** The head of a loaded stream may be emitted. */
  lemma HeadIsDelivered(db: SubDb, starts: seq<Key>, since: u64, floor: Option<Rank>, from: nat, to: nat, vs: seq<View>,
                        k: nat)
    requires |vs| == |starts| && k < |vs| && vs[k].rest != []
    requires Loaded(db, starts[k].prefix, since, floor, from, to, vs[k])
    ensures Delivered(db, starts, since, floor, from, to, vs[k].rest[0])
  {
  }

  lemma EmitKeepsLoop(db: SubDb, starts: seq<Key>, since: u64, floor: Option<Rank>, from: nat, to: nat, to': nat,
                      vs: seq<View>, heap: set<Candidate>, out: seq<Entry>, c: Candidate, v': View,
                      heap': set<Candidate>)
    requires db.Valid() && StartsOk(db, starts) && LoopOk(db, starts, since, floor, from, to, vs, heap, out) &&
             to <= to'
    requires c in heap && forall d :: d in heap ==> AtMost(RankOf(d.entry), RankOf(c.entry))
    requires IsAdvance(db, starts[c.stream], since, floor, from, to', vs[c.stream], v')
    requires heap' == heap - {c} + HeadOf(v', c.stream)
    ensures LoopOk(db, starts, since, floor, from, to', vs[c.stream := v'], heap', out + [c.entry])
  {
    HeapAfterAdvance(vs, heap, c, v', heap');
    HeadIsDelivered(db, starts, since, floor, from, to, vs, c.stream);
    DeliveredLonger(db, starts, since, floor, from, to, to', out + [c.entry]);
    forall i | 0 <= i < |vs| && i != c.stream ensures Loaded(db, starts[i].prefix, since, floor, from, to', vs[i]) {
      LoadedLonger(db, starts[i].prefix, since, floor, from, from, to, to', vs[i]);
    }
    if AliasFree(db, starts) {
      EmitKeepsInv(db, starts, since, floor, vs, heap, out, c, v', heap');
    }
  }

  /** The last entry the limit allows. */
  lemma EmitLast(db: SubDb, starts: seq<Key>, since: u64, floor: Option<Rank>, vs: seq<View>, heap: set<Candidate>,
                 out: seq<Entry>, c: Candidate)
    requires db.Valid() && StartsOk(db, starts) && LoopInv(db, starts, since, floor, vs, heap, out)
    requires c in heap && forall d :: d in heap ==> AtMost(RankOf(d.entry), RankOf(c.entry))
    ensures IsMerge(db, starts, since, floor, |out| + 1, out + [c.entry])
  {
    var v' := vs[c.stream].(rest := vs[c.stream].rest[1..]);
    ConsumeHead(db, starts[c.stream], since, floor, vs[c.stream]);
    HeadsAreCandidates(vs, heap, c);
    EmitOne(db, starts, since, floor, vs, out, c.stream, v');
    MergeIsComplete(db, starts, since, floor, |out| + 1, vs[c.stream := v'], out + [c.entry]);
  }

  lemma LimitReached(db: SubDb, starts: seq<Key>, since: u64, floor: Option<Rank>, from: nat, to: nat, vs: seq<View>,
                     heap: set<Candidate>, out: seq<Entry>, c: Candidate)
    requires db.Valid() && StartsOk(db, starts) && LoopOk(db, starts, since, floor, from, to, vs, heap, out)
    requires c in heap && forall d :: d in heap ==> AtMost(RankOf(d.entry), RankOf(c.entry))
    ensures IsEmission(db, starts, since, floor, |out| + 1, from, to, out + [c.entry])
  {
    HeadIsDelivered(db, starts, since, floor, from, to, vs, c.stream);
    if AliasFree(db, starts) {
      EmitLast(db, starts, since, floor, vs, heap, out, c);
    }
  }

  lemma NothingLeft(db: SubDb, starts: seq<Key>, since: u64, floor: Option<Rank>, emitLimit: nat, from: nat, to: nat,
                    vs: seq<View>, out: seq<Entry>)
    requires db.Valid() && StartsOk(db, starts) && LoopOk(db, starts, since, floor, from, to, vs, {}, out)
    requires |out| <= emitLimit
    ensures IsEmission(db, starts, since, floor, emitLimit, from, to, out)
  {
  }

  /** What happens to a single stream when its head is emitted. */
  ghost predicate IsSingleAdvance(db: SubDb, starts: seq<Key>, n: nat, since: u64, floor: Option<Rank>, vs: seq<View>,
                                  vs': seq<View>, c: Candidate)
  {
    |starts| == 1 ==>
      && |vs| == |vs'| == 1 && vs[0].rest != [] && c.entry == vs[0].rest[0]
      && IsStillAdvance(db, starts[0], n, since, floor, vs[0], vs'[0])
  }

  /** A single stream on a still index is in step with what it emits. */
  ghost predicate IsInStep(db: SubDb, starts: seq<Key>, n: nat, since: u64, floor: Option<Rank>, vs: seq<View>,
                           out: seq<Entry>)
  {
    |starts| == 1 && db.Still() ==>
      |vs| == 1 && InSeries(Refiller(OnStill(db, starts[0], n, since, floor)), starts[0], vs[0], out)
  }

  /** A single stream on a still index comes out as it is. */
  ghost predicate IsSingleStream(db: SubDb, starts: seq<Key>, n: nat, since: u64, floor: Option<Rank>, emitLimit: nat,
                                 out: seq<Entry>)
  {
    |starts| == 1 && db.Still() ==>
      IsStreamHead(Refiller(OnStill(db, starts[0], n, since, floor)), starts[0], emitLimit, out)
  }

  lemma StepStarts(db: SubDb, starts: seq<Key>, n: nat, since: u64, floor: Option<Rank>, vs: seq<View>)
    requires |starts| == |vs| && IsSingleOpened(db, starts, n, since, floor, vs)
    ensures IsInStep(db, starts, n, since, floor, vs, [])
  {
    if |starts| == 1 && db.Still() {
      SeriesStarts(Refiller(OnStill(db, starts[0], n, since, floor)), starts[0]);
    }
  }

  lemma StepAdvances(db: SubDb, starts: seq<Key>, n: nat, since: u64, floor: Option<Rank>, vs: seq<View>,
                     vs': seq<View>, out: seq<Entry>, c: Candidate)
    requires IsInStep(db, starts, n, since, floor, vs, out) && IsSingleAdvance(db, starts, n, since, floor, vs, vs', c)
    ensures IsInStep(db, starts, n, since, floor, vs', out + [c.entry])
  {
    if |starts| == 1 && db.Still() {
      SeriesAdvances(Refiller(OnStill(db, starts[0], n, since, floor)), starts[0], vs[0], out);
    }
  }

  lemma StepEnds(db: SubDb, starts: seq<Key>, n: nat, since: u64, floor: Option<Rank>, from: nat, to: nat,
                 emitLimit: nat, vs: seq<View>, heap: set<Candidate>, out: seq<Entry>)
    requires IsInStep(db, starts, n, since, floor, vs, out) && LoopOk(db, starts, since, floor, from, to, vs, heap, out)
    requires |out| <= emitLimit && (heap == {} || |out| == emitLimit)
    ensures IsSingleStream(db, starts, n, since, floor, emitLimit, out)
  {
  }

  /** The entry that reaches the limit. */
  lemma StepReachesLimit(db: SubDb, starts: seq<Key>, n: nat, since: u64, floor: Option<Rank>, vs: seq<View>,
                         heap: set<Candidate>, out: seq<Entry>, c: Candidate)
    requires IsInStep(db, starts, n, since, floor, vs, out) && HeapInv(vs, heap) && c in heap
    ensures IsSingleStream(db, starts, n, since, floor, |out| + 1, out + [c.entry])
  {
  }

  /** Pop a greatest candidate, emit it, and move its stream on. */
  method EmitNext(db: SubDb, starts: seq<Key>, batchSize: nat, since: u64, floor: Option<Rank>,
                  streams: seq<StreamState>, heap: set<Candidate>, c: Candidate, ghost from: nat, ghost vs: seq<View>,
                  ghost out: seq<Entry>)
    returns (heap': set<Candidate>, ghost vs': seq<View>)
    requires db.Valid() && StartsOk(db, starts) && batchSize >= 1 && from <= db.env.txns
    requires Mirrors(streams, starts, vs)
    requires LoopOk(db, starts, since, floor, from, db.env.txns, vs, heap, out)
    requires c in heap && forall d :: d in heap ==> AtMost(RankOf(d.entry), RankOf(c.entry))
    modifies streams, db.env
    ensures Mirrors(streams, starts, vs') && from <= db.env.txns
    ensures LoopOk(db, starts, since, floor, from, db.env.txns, vs', heap', out + [c.entry])
    ensures IsSingleAdvance(db, starts, batchSize, since, floor, vs, vs', c)
  {
    var k := c.stream;
    ghost var to := db.env.txns;
    var head := AdvanceStream(db, streams[k], batchSize, since, floor, starts[k], from);
    ghost var v' := streams[k].ViewOf();
    heap' := heap - {c} + if head.None? then {} else {Candidate(head.value, k)};
    EmitKeepsLoop(db, starts, since, floor, from, to, db.env.txns, vs, heap, out, c, v', heap');
    vs' := vs[k := v'];
  }

  /**
   The k-way merge, for any number of streams, any window size and whatever strfry writes in
   the meantime.
   */
  method MergeWindowed(db: SubDb, starts: seq<Key>, batchSize: nat, emitLimit: nat, since: u64, floor: Option<Rank>)
    returns (out: seq<Entry>)
    requires db.Valid() && StartsOk(db, starts) && batchSize >= 1
    modifies db.env
    ensures old(db.env.txns) <= db.env.txns
    ensures IsEmission(db, starts, since, floor, emitLimit, old(db.env.txns), db.env.txns, out)
    ensures IsSingleStream(db, starts, batchSize, since, floor, emitLimit, out)
  {
    if |starts| == 0 || emitLimit == 0 {
      NothingEmitted(db, starts, batchSize, since, floor, emitLimit, db.env.txns);
      return [];
    }
    ghost var from := db.env.txns;
    ghost var vs;
    var streams;
    streams, vs := OpenStreams(db, starts, batchSize, since, floor);
    var heap := SeedHeap(streams, starts, vs);
    LoopStarts(db, starts, since, floor, from, db.env.txns, vs, heap);
    StepStarts(db, starts, batchSize, since, floor, vs);
    out := [];
    while heap != {}
      invariant fresh(streams) && Mirrors(streams, starts, vs) && from <= db.env.txns
      invariant LoopOk(db, starts, since, floor, from, db.env.txns, vs, heap, out)
      invariant IsInStep(db, starts, batchSize, since, floor, vs, out)
      invariant |out| < emitLimit
      decreases emitLimit - |out|
    {
      var c, _ := PopMax(heap);
      if |out| + 1 >= emitLimit {
        LimitReached(db, starts, since, floor, from, db.env.txns, vs, heap, out, c);
        StepReachesLimit(db, starts, batchSize, since, floor, vs, heap, out, c);
        out := out + [c.entry];
        return;
      }
      ghost var before := vs;
      heap, vs := EmitNext(db, starts, batchSize, since, floor, streams, heap, c, from, vs, out);
      StepAdvances(db, starts, batchSize, since, floor, before, vs, out, c);
      out := out + [c.entry];
    }
    NothingLeft(db, starts, since, floor, emitLimit, from, db.env.txns, vs, out);
    StepEnds(db, starts, batchSize, since, floor, from, db.env.txns, emitLimit, vs, heap, out);
  }

  lemma NothingEmitted(db: SubDb, starts: seq<Key>, n: nat, since: u64, floor: Option<Rank>, emitLimit: nat, t: nat)
    requires |starts| == 0 || emitLimit == 0
    ensures IsEmission(db, starts, since, floor, emitLimit, t, t, [])
    ensures IsSingleStream(db, starts, n, since, floor, emitLimit, [])
  {
    if |starts| == 1 {
      assert Drained(Refiller(OnStill(db, starts[0], n, since, floor)), starts[0], 0) == [];
    }
  }

  // ---------------------------------------------------------------------------
  // The merge as "sort the union, take the first emitLimit"
  // ---------------------------------------------------------------------------

  /** `all` lists the wanted entries of an index nobody writes to, newest first. */
  ghost predicate IsSortedUnion(db: SubDb, starts: seq<Key>, since: u64, floor: Option<Rank>, all: seq<Entry>)
  {
    Descending(all) && forall e :: e in all <==> e in db.may && Wanted(starts, since, floor, e)
  }

  /** On an index nobody writes to, a merge is the head of the sorted union, rank by rank. */
  lemma MergeIsHeadOfSortedUnion(db: SubDb, starts: seq<Key>, since: u64, floor: Option<Rank>, emitLimit: nat,
                                 out: seq<Entry>, all: seq<Entry>)
    requires db.must == db.may && IsMerge(db, starts, since, floor, emitLimit, out)
    requires IsSortedUnion(db, starts, since, floor, all)
    ensures |out| == (if |all| < emitLimit then |all| else emitLimit)
    ensures forall k :: 0 <= k < |out| ==> RankOf(out[k]) == RankOf(all[k])
  {
    HeadOfSorted(out, all, emitLimit);
  }

  lemma {:induction false} HeadOfSorted(out: seq<Entry>, all: seq<Entry>, n: nat)
    requires Descending(out) && Descending(all) && |out| <= n
    requires forall e :: e in out ==> e in all
    requires forall e :: e in all ==> e in out || (|out| == n && forall r :: r in out ==> AtMost(RankOf(e), RankOf(r)))
    ensures |out| == (if |all| < n then |all| else n)
    ensures forall k :: 0 <= k < |out| ==> RankOf(out[k]) == RankOf(all[k])
  {
    if out == [] {
      if all != [] { assert all[0] in all; }
    } else {
      var h := out[0];
      assert h in out;
      var j :| 0 <= j < |all| && all[j] == h;
      GreatestFirst(out, all, n, j);
      var rest := all[..j] + all[j + 1..];
      RemoveOne(all, j, rest);
      forall e | e in out[1..] ensures e in rest {
        var i :| 1 <= i < |out| && out[i] == e;
        assert out[0] != out[i] && e in out;
        assert e in all && e != all[j];
      }
      forall e | e in rest && e !in out[1..]
        ensures |out[1..]| == n - 1 && forall r :: r in out[1..] ==> AtMost(RankOf(e), RankOf(r))
      {
        assert e in all && e != h;
        assert e !in out by { assert out == [out[0]] + out[1..]; }
        forall r | r in out[1..] ensures AtMost(RankOf(e), RankOf(r)) { assert r in out; }
      }
      HeadOfSorted(out[1..], rest, n - 1);
      forall k | 0 <= k < |out| ensures RankOf(out[k]) == RankOf(all[k]) {
        if k > 0 {
          assert RankOf(out[1..][k - 1]) == RankOf(rest[k - 1]);
          assert RankOf(rest[k - 1]) == RankOf(all[k]);
        }
      }
    }
  }

  /** The first of `out` carries the greatest rank, and so does everything before it in `all`. */
  lemma GreatestFirst(out: seq<Entry>, all: seq<Entry>, n: nat, j: nat)
    requires Descending(out) && Descending(all) && out != [] && j < |all| && all[j] == out[0]
    requires forall e :: e in all ==> e in out || (|out| == n && forall r :: r in out ==> AtMost(RankOf(e), RankOf(r)))
    ensures forall i :: 0 <= i <= j ==> RankOf(all[i]) == RankOf(out[0])
  {
  }

  /** Taking one of several equal ranks out of a descending list shifts the ranks by one place. */
  lemma RemoveOne(all: seq<Entry>, j: nat, rest: seq<Entry>)
    requires Descending(all) && j < |all| && rest == all[..j] + all[j + 1..]
    requires forall i :: 0 <= i <= j ==> RankOf(all[i]) == RankOf(all[j])
    ensures Descending(rest)
    ensures forall e :: e in rest <==> e in all && e != all[j]
    ensures forall k :: 0 <= k < |rest| ==> RankOf(rest[k]) == RankOf(all[k + 1])
  {
  }

  // ---------------------------------------------------------------------------
  // The prefix guard, exactly
  // ---------------------------------------------------------------------------

  /** In the fixed-width indexes the guard cannot be fooled. */
  lemma FixedWidthHasNoAlias(db: SubDb, kind: IndexKind, prefix: bytes)
    requires db.Valid() && db.ord == OrderOf(kind) && !kind.EventTag? && PrefixOk(kind, prefix)
    ensures NoAlias(db, prefix)
  {
    forall e | e in db.may && db.ord.less(e.key.prefix, prefix) ensures !Guard(prefix, e.key) {
      assert db.ord.ok(e.key.prefix);
      GuardSplitsThreeWays(kind, prefix, e.key);
      assert !db.ord.less(prefix, prefix);
    }
  }

  /** In the tag index it is fooled exactly by aliases. */
  lemma TagGuardIsFooledByAliasesOnly(db: SubDb, prefix: bytes)
    requires db.Valid() && db.ord == OrderOf(EventTag) && PrefixOk(EventTag, prefix)
    ensures NoAlias(db, prefix) <==> forall e :: e in db.may ==> !Alias(prefix, e.key)
  {
    assert !db.ord.less(prefix, prefix);
    forall e | e in db.may ensures db.ord.less(e.key.prefix, prefix) && Guard(prefix, e.key) <==> Alias(prefix, e.key) {
      assert db.ord.ok(e.key.prefix) && db.ord.ok(prefix);
      GuardSplitsThreeWays(EventTag, prefix, e.key);
      assert !(db.ord.less(e.key.prefix, prefix) && db.ord.less(prefix, e.key.prefix));
    }
  }
}
