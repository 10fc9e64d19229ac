/**
 What aliases do. The prefix guard is a byte test on the whole key, so in the tag index a key of a
 shorter value can pass it: an alias. Here is when a stream delivers nothing but the group of its
 prefix, and what happens to a merge, to a round and to a page when it does not.
 */
module Aliases {
  import opened Bytes
  import opened Comparators
  import opened Scan
  import opened Merge
  import opened Router
  import opened Engine
  import opened Hex

  // ---------------------------------------------------------------------------
  // Windows of a still index
  // ---------------------------------------------------------------------------

  ghost predicate IsStill(o: Order, idx: seq<Entry>, start: Key)
  {
    Lawful(o) && Snapshot(o, idx) && o.ok(start.prefix) && SingleAtMax(set e | e in idx)
  }

  /** What a stream has still to scan. */
  function ToScan(c: StillStream, v: View): (s: seq<Entry>)
  {
    RangeOf(c.ord, Reverse, c.idx, StartBound(Reverse, v.resume, v.first))
  }

  /** After a window comes exactly what the window has left. */
  lemma RangeAfterWindow(c: StillStream, v: View, w: seq<Entry>)
    requires IsStill(c.ord, c.idx, c.start) && c.ord.ok(v.resume.prefix) && c.n >= 1
    requires w != [] && IsWindow(ToScan(c, v), c.n, w)
    ensures c.ord.ok(w[|w| - 1].key.prefix)
    ensures RangeOf(c.ord, Reverse, c.idx, StartBound(Reverse, w[|w| - 1].key, false)) == ToScan(c, v)[|w|..]
  {
    var o, s, last := c.ord, ToScan(c, v), w[|w| - 1].key;
    RangeIsOrdered(o, Reverse, c.idx, StartBound(Reverse, v.resume, v.first));
    assert w[|w| - 1] == s[|w| - 1];
    var next := RangeOf(o, Reverse, c.idx, StartBound(Reverse, last, false));
    RangeIsOrdered(o, Reverse, c.idx, StartBound(Reverse, last, false));
    forall e ensures e in next <==> e in s[|w|..] {
      RestIsBeyond(c, v, w, e);
    }
    OrderedIsUnique(o, Reverse, next, s[|w|..]);
  }

  lemma RestIsBeyond(c: StillStream, v: View, w: seq<Entry>, e: Entry)
    requires IsStill(c.ord, c.idx, c.start) && c.ord.ok(v.resume.prefix) && c.n >= 1
    requires w != [] && IsWindow(ToScan(c, v), c.n, w)
    ensures e in ToScan(c, v)[|w|..] <==> e in c.idx && KeyLess(c.ord, e.key, w[|w| - 1].key)
  {
    var s := ToScan(c, v);
    RangeIsOrdered(c.ord, Reverse, c.idx, StartBound(Reverse, v.resume, v.first));
    RangeIsWhatIsAhead(c.ord, Reverse, c.idx, v.resume, v.first);
    KeyOrderIsStrictTotal(c.ord);
    RestOfWindow(c.ord, s, c.n, w, e);
    assert w[|w| - 1] in s;
  }

  lemma RestOfWindow(o: Order, s: seq<Entry>, n: nat, w: seq<Entry>, e: Entry)
    requires Lawful(o) && Ordered(o, Reverse, s) && AllOk(o, s) && IsWindow(s, n, w) && w != []
    ensures w[|w| - 1] in s && (e in s[|w|..] <==> e in s && KeyLess(o, e.key, w[|w| - 1].key))
  {
  }

  // ---------------------------------------------------------------------------
  // When a stream is the group of its prefix
  // ---------------------------------------------------------------------------

  /** No stored key of a smaller prefix passes the byte guard of `prefix`. */
  ghost predicate NoAliasIn(o: Order, idx: seq<Entry>, prefix: bytes)
  {
    forall e :: e in idx && o.less(e.key.prefix, prefix) ==> !Guard(prefix, e.key)
  }

  /** Whatever the stream delivers has its prefix. */
  ghost predicate DeliversOnlyGroup(c: StillStream)
  {
    forall k: nat, e :: e in StreamAfter(Refiller(c), c.start, k).rest ==> e.key.prefix == c.start.prefix
  }

  /** A stream that finds nothing, or first something the guard refuses. */
  ghost predicate StopsAtOnce(o: Order, idx: seq<Entry>, start: Key)
  {
    var s := RangeOf(o, Reverse, idx, StartBound(Reverse, start, true));
    s == [] || !Guard(start.prefix, s[0].key)
  }

  /** A position of the stream, at or below its start. */
  ghost predicate PosOk(c: StillStream, v: View)
  {
    c.ord.ok(v.resume.prefix) && AtOrBelow(c.ord, v.resume, c.start)
  }

  lemma WindowOfGroup(c: StillStream, v: View)
    requires IsStill(c.ord, c.idx, c.start) && PosOk(c, v) && NoAliasIn(c.ord, c.idx, c.start.prefix)
    ensures
      var w := NextWindow(c, v);
      && PosOk(c, View(NextKey(v.resume, w), false, false, []))
      && forall e :: e in w && Guard(c.start.prefix, e.key) ==> e.key.prefix == c.start.prefix
  {
    var w := NextWindow(c, v);
    RangeIsOrdered(c.ord, Reverse, c.idx, StartBound(Reverse, v.resume, v.first));
    RangeIsWhatIsAhead(c.ord, Reverse, c.idx, v.resume, v.first);
    KeyOrderIsStrictTotal(c.ord);
    forall e | e in w ensures e in c.idx && AtOrBelow(c.ord, e.key, c.start) {
      assert e in ToScan(c, v);
    }
    if w != [] {
      assert w[|w| - 1] in w;
    }
  }

  ghost predicate InGroup(c: StillStream, v: View)
  {
    PosOk(c, v) && forall e :: e in v.rest ==> e.key.prefix == c.start.prefix
  }

  lemma SiftStaysInGroup(c: StillStream, v: View, w: seq<Entry>)
    requires IsStill(c.ord, c.idx, c.start) && PosOk(c, v) && NoAliasIn(c.ord, c.idx, c.start.prefix)
    requires w == NextWindow(c, v)
    ensures InGroup(c, Sifted(c.start.prefix, c.since, c.floor, w, NextKey(v.resume, w), false).0)
  {
    WindowOfGroup(c, v);
    SiftedIsGuarded(c, w, NextKey(v.resume, w));
  }

  lemma {:induction false} RefillStaysInGroup(c: StillStream, v: View, attempts: nat)
    requires IsStill(c.ord, c.idx, c.start) && PosOk(c, v) && NoAliasIn(c.ord, c.idx, c.start.prefix)
    ensures InGroup(c, RefillOn(c, v, attempts))
    decreases attempts
  {
    if attempts > 0 {
      var w := NextWindow(c, v);
      SiftStaysInGroup(c, v, w);
      var (v', emptied) := Sifted(c.start.prefix, c.since, c.floor, w, NextKey(v.resume, w), false);
      if emptied {
        RefillStaysInGroup(c, v', attempts - 1);
      }
    }
  }

  lemma SiftedIsGuarded(c: StillStream, w: seq<Entry>, next: Key)
    ensures
      var v := Sifted(c.start.prefix, c.since, c.floor, w, next, false).0;
      v.resume == next && forall e :: e in v.rest ==> e in w && Guard(c.start.prefix, e.key)
  {
    var guarded := TakeWhileGuard(c.start.prefix, w);
    var kept := DropAboveFloor(c.floor, guarded);
    forall e | e in CutAtSince(c.since, kept) ensures e in w && Guard(c.start.prefix, e.key) {
      assert e in kept && e in guarded;
    }
  }

  /** What every refill keeps holds of the stream throughout. */
  lemma {:induction false} StreamInvariant(step: View -> View, start: Key, inv: View -> bool, k: nat)
    requires inv(View(start, true, false, []))
    requires forall v: View :: inv(v) ==> inv(v.(rest := []))
    requires forall v: View :: inv(v) && !v.exhausted && v.rest == [] ==> inv(step(v))
    ensures inv(StreamAfter(step, start, k))
  {
    if k > 0 {
      StreamInvariant(step, start, inv, k - 1);
    }
  }

  lemma StreamStaysInGroup(c: StillStream, k: nat)
    requires IsStill(c.ord, c.idx, c.start) && NoAliasIn(c.ord, c.idx, c.start.prefix)
    ensures InGroup(c, StreamAfter(Refiller(c), c.start, k))
  {
    var step := Refiller(c);
    forall v: View | InGroup(c, v) ensures InGroup(c, step(v)) {
      RefillStaysInGroup(c, v, 2);
    }
    StreamInvariant(step, c.start, v => InGroup(c, v), k);
  }

  lemma FirstWindowStops(c: StillStream)
    requires StopsAtOnce(c.ord, c.idx, c.start)
    ensures var v := RefillOn(c, View(c.start, true, false, []), 2); v.exhausted && v.rest == []
  {
  }

  lemma StoppedStaysEmpty(c: StillStream, k: nat)
    requires StopsAtOnce(c.ord, c.idx, c.start)
    ensures StreamAfter(Refiller(c), c.start, k).rest == []
  {
    var step, v0 := Refiller(c), View(c.start, true, false, []);
    FirstWindowStops(c);
    assert step(v0) == RefillOn(c, v0, 2);
    StreamInvariant(step, c.start, (v: View) => v.rest == [] && (v == v0 || v.exhausted), k);
  }

  lemma {:induction false} NothingCut(s: seq<Entry>)
    ensures DropAboveFloor(None, s) == s && CutAtSince(0, s) == s
  {
    if s != [] {
      NothingCut(s[1..]);
      assert s == [s[0]] + s[1..];
    }
  }

  lemma SiftGuarded(prefix: bytes, w: seq<Entry>, next: Key)
    requires w != [] && Guard(prefix, w[0].key)
    ensures Sifted(prefix, 0, None, w, next, false) == (View(next, false, false, TakeWhileGuard(prefix, w)), false)
    ensures w[0] in TakeWhileGuard(prefix, w)
  {
    var guarded := TakeWhileGuard(prefix, w);
    NothingCut(guarded);
    assert guarded[0] == w[0];
  }

  /** Without floor and since, a window whose first entry is guarded is delivered from there on. */
  lemma GuardedWindowIsLoaded(c: StillStream, v: View)
    requires c.since == 0 && c.floor.None?
    requires var w := NextWindow(c, v); w != [] && Guard(c.start.prefix, w[0].key)
    ensures
      var w := NextWindow(c, v);
      RefillOn(c, v, 2) == View(w[|w| - 1].key, false, false, TakeWhileGuard(c.start.prefix, w)) &&
      w[0] in RefillOn(c, v, 2).rest
  {
    var w := NextWindow(c, v);
    SiftGuarded(c.start.prefix, w, NextKey(v.resume, w));
  }

  /** The first entry of a key in a range. */
  lemma {:induction false} FirstOfKey(s: seq<Entry>, i: nat) returns (j: nat)
    requires i < |s|
    ensures j <= i && s[j].key == s[i].key && (j == 0 || s[j - 1].key != s[j].key)
  {
    j := i;
    if i > 0 && s[i - 1].key == s[i].key {
      j := FirstOfKey(s, i - 1);
    }
  }

  /** A window that ends just before an alias lets the next one start with it. */
  lemma AliasIsDelivered(o: Order, idx: seq<Entry>, start: Key, j: nat)
    requires IsStill(o, idx, start) && !StopsAtOnce(o, idx, start)
    requires
      var s := RangeOf(o, Reverse, idx, StartBound(Reverse, start, true));
      && j < |s| && Guard(start.prefix, s[j].key) && s[j].key.prefix != start.prefix
      && (j == 0 || s[j - 1].key != s[j].key)
    ensures !DeliversOnlyGroup(StillStream(o, idx, start, if j == 0 then 1 else j, 0, None))
  {
    var c := StillStream(o, idx, start, if j == 0 then 1 else j, 0, None);
    var step := Refiller(c);
    if j == 0 {
      AliasAtTheTop(c);
      assert !DeliversOnlyGroup(c) by { TwoRefills(step, start); }
    } else {
      AliasAfterAWindow(c, j);
      assert !DeliversOnlyGroup(c) by { TwoRefills(step, start); }
    }
  }

  lemma AliasAtTheTop(c: StillStream)
    requires c.n == 1 && c.since == 0 && c.floor.None?
    requires
      var s := RangeOf(c.ord, Reverse, c.idx, StartBound(Reverse, c.start, true));
      s != [] && Guard(c.start.prefix, s[0].key) && s[0].key.prefix != c.start.prefix
    ensures exists e :: e in RefillOn(c, View(c.start, true, false, []), 2).rest && e.key.prefix != c.start.prefix
  {
  }

  lemma AliasAfterAWindow(c: StillStream, j: nat)
    requires IsStill(c.ord, c.idx, c.start) && c.n == j > 0 && c.since == 0 && c.floor.None?
    requires
      var s := RangeOf(c.ord, Reverse, c.idx, StartBound(Reverse, c.start, true));
      && j < |s| && Guard(c.start.prefix, s[0].key) && Guard(c.start.prefix, s[j].key)
      && s[j - 1].key != s[j].key && s[j].key.prefix != c.start.prefix
    ensures
      var v := RefillOn(c, View(c.start, true, false, []), 2);
      && !v.exhausted
      && exists e :: e in RefillOn(c, v.(rest := []), 2).rest && e.key.prefix != c.start.prefix
  {
    var v := View(ToScan(c, View(c.start, true, false, []))[j - 1].key, false, false, []);
    WindowBeforeAlias(c, j);
    WindowHead(ToScan(c, v), j);
    GuardedWindowIsLoaded(c, v);
  }

  lemma WindowHead(s: seq<Entry>, n: nat)
    requires s != [] && n >= 1
    ensures Window(s, n) != [] && Window(s, n)[0] == s[0]
  {
  }

  lemma WindowBeforeAlias(c: StillStream, j: nat)
    requires IsStill(c.ord, c.idx, c.start) && c.n == j > 0 && c.since == 0 && c.floor.None?
    requires
      var s := ToScan(c, View(c.start, true, false, []));
      j < |s| && Guard(c.start.prefix, s[0].key) && s[j - 1].key != s[j].key
    ensures
      var s := ToScan(c, View(c.start, true, false, []));
      var v := View(s[j - 1].key, false, false, []);
      RefillOn(c, View(c.start, true, false, []), 2).(rest := []) == v && ToScan(c, v) == s[j..]
  {
    var v0 := View(c.start, true, false, []);
    var s := ToScan(c, v0);
    WindowUpTo(s, j);
    RefillOfWindow(c, v0, s[..j]);
    RangeAfterWindow(c, v0, s[..j]);
  }

  lemma RefillOfWindow(c: StillStream, v: View, w: seq<Entry>)
    requires c.since == 0 && c.floor.None? && w == NextWindow(c, v) && w != [] && Guard(c.start.prefix, w[0].key)
    ensures RefillOn(c, v, 2).(rest := []) == View(w[|w| - 1].key, false, false, [])
  {
    GuardedWindowIsLoaded(c, v);
  }

  lemma WindowUpTo(s: seq<Entry>, j: nat)
    requires 0 < j < |s| && s[j - 1].key != s[j].key
    ensures Window(s, j) == s[..j] && IsWindow(s, j, s[..j])
  {
    WindowIsUnique(s, j, Window(s, j), s[..j]);
  }

  lemma TwoRefills(step: View -> View, start: Key)
    ensures StreamAfter(step, start, 1) == step(View(start, true, false, []))
    ensures
      var v := step(View(start, true, false, []));
      !v.exhausted ==> StreamAfter(step, start, 2) == step(v.(rest := []))
  {
  }

  /** The same for every window size, every `since` and every floor. */
  ghost predicate AlwaysOnlyGroup(o: Order, idx: seq<Entry>, start: Key)
  {
    forall n: nat, since: u64, floor :: n >= 1 ==> DeliversOnlyGroup(StillStream(o, idx, start, n, since, floor))
  }

  /**
   The guard, exactly. On an index nobody writes to, a stream delivers nothing but the group of its
   prefix, for every window size, if and only if no alias is stored below the group or the stream
   stops at once. A stream that finds its group does not stop at once, so then the absence
   of aliases is the exact condition.
   */
  lemma StreamIsTheGroupIff(o: Order, idx: seq<Entry>, start: Key)
    requires IsStill(o, idx, start)
    ensures AlwaysOnlyGroup(o, idx, start) <==> NoAliasIn(o, idx, start.prefix) || StopsAtOnce(o, idx, start)
    ensures (exists e :: e in idx && e.key.prefix == start.prefix && e.key.ts <= start.ts) ==>
              (AlwaysOnlyGroup(o, idx, start) <==> NoAliasIn(o, idx, start.prefix))
  {
    if NoAliasIn(o, idx, start.prefix) || StopsAtOnce(o, idx, start) {
      forall n: nat, since: u64, floor | n >= 1 ensures DeliversOnlyGroup(StillStream(o, idx, start, n, since, floor)) {
        NothingElseDelivered(StillStream(o, idx, start, n, since, floor));
      }
    } else {
      SomeSizeDeliversAnAlias(o, idx, start);
    }
    forall e | e in idx && e.key.prefix == start.prefix && e.key.ts <= start.ts ensures !StopsAtOnce(o, idx, start) {
      GroupComesFirst(o, idx, start, e);
    }
  }

  lemma NothingElseDelivered(c: StillStream)
    requires IsStill(c.ord, c.idx, c.start)
    requires NoAliasIn(c.ord, c.idx, c.start.prefix) || StopsAtOnce(c.ord, c.idx, c.start)
    ensures DeliversOnlyGroup(c)
  {
    forall k: nat, e | e in StreamAfter(Refiller(c), c.start, k).rest ensures e.key.prefix == c.start.prefix {
      if StopsAtOnce(c.ord, c.idx, c.start) {
        StoppedStaysEmpty(c, k);
      } else {
        StreamStaysInGroup(c, k);
      }
    }
  }

  lemma SomeSizeDeliversAnAlias(o: Order, idx: seq<Entry>, start: Key)
    requires IsStill(o, idx, start) && !NoAliasIn(o, idx, start.prefix) && !StopsAtOnce(o, idx, start)
    ensures !AlwaysOnlyGroup(o, idx, start)
  {
    var z :| z in idx && o.less(z.key.prefix, start.prefix) && Guard(start.prefix, z.key);
    var s := RangeOf(o, Reverse, idx, StartBound(Reverse, start, true));
    RangeIsOrdered(o, Reverse, idx, StartBound(Reverse, start, true));
    RangeIsWhatIsAhead(o, Reverse, idx, start, true);
    assert !o.less(start.prefix, start.prefix);
    assert z in s;
    var i :| 0 <= i < |s| && s[i] == z;
    var j := FirstOfKey(s, i);
    AliasIsDelivered(o, idx, start, j);
  }

  /** If the group has an entry at or below the start, the range begins with the group. */
  lemma GroupComesFirst(o: Order, idx: seq<Entry>, start: Key, e: Entry)
    requires IsStill(o, idx, start) && e in idx && e.key.prefix == start.prefix && e.key.ts <= start.ts
    ensures !StopsAtOnce(o, idx, start)
  {
    var s := RangeOf(o, Reverse, idx, StartBound(Reverse, start, true));
    RangeIsOrdered(o, Reverse, idx, StartBound(Reverse, start, true));
    RangeIsWhatIsAhead(o, Reverse, idx, start, true);
    KeyOrderIsStrictTotal(o);
    assert e in s && s[0] in s;
    var i :| 0 <= i < |s| && s[i] == e;
    assert s[0] == e || EntryLess(o, e, s[0]);
    assert s[0].key.prefix == start.prefix;
    GuardAcceptsItsPrefix(start.prefix, s[0].key);
  }

  // ---------------------------------------------------------------------------
  // Streams in which everything passes the guard
  // ---------------------------------------------------------------------------

  lemma {:induction false} AllGuardedTaken(prefix: bytes, s: seq<Entry>)
    requires forall i :: 0 <= i < |s| ==> Guard(prefix, s[i].key)
    ensures TakeWhileGuard(prefix, s) == s
  {
  }

  /** A stream that has delivered `out` of its range `s` and has the rest still to scan. */
  ghost predicate IsOnRange(c: StillStream, s: seq<Entry>, v: View, out: seq<Entry>)
  {
    && out <= s && c.ord.ok(v.resume.prefix)
    && (if v.exhausted then out == s else ToScan(c, v) == s[|out|..])
  }

  lemma EmptyWindowExhausts(c: StillStream, v: View)
    requires NextWindow(c, v) == []
    ensures RefillOn(c, v, 2) == View(v.resume, false, true, [])
  {
  }

  lemma NextSlice(s: seq<Entry>, out: seq<Entry>, w: seq<Entry>)
    requires out <= s && w <= s[|out|..]
    ensures out + w <= s && s[|out|..][|w|..] == s[|out + w|..]
    ensures forall i :: 0 <= i < |w| ==> w[i] == s[|out| + i]
  {
  }

  lemma WindowStaysOnRange(c: StillStream, s: seq<Entry>, v: View, out: seq<Entry>, w: seq<Entry>)
    requires IsStill(c.ord, c.idx, c.start) && c.n >= 1 && IsOnRange(c, s, v, out) && !v.exhausted
    requires w != [] && w == NextWindow(c, v)
    ensures IsOnRange(c, s, View(w[|w| - 1].key, false, false, w), out + w)
    ensures forall i :: 0 <= i < |w| ==> w[i] == s[|out| + i]
  {
    RangeAfterWindow(c, v, w);
    NextSlice(s, out, w);
  }

  lemma RefillStaysOnRange(c: StillStream, s: seq<Entry>, v: View, out: seq<Entry>)
    requires IsStill(c.ord, c.idx, c.start) && c.since == 0 && c.floor.None? && c.n >= 1
    requires (forall i :: 0 <= i < |s| ==> Guard(c.start.prefix, s[i].key)) && IsOnRange(c, s, v, out) && !v.exhausted
    ensures IsOnRange(c, s, RefillOn(c, v, 2), out + RefillOn(c, v, 2).rest)
  {
    var w := NextWindow(c, v);
    if w == [] {
      EmptyWindowExhausts(c, v);
      assert s[|out|..] == [];
      assert out == s && out + [] == s;
    } else {
      WindowStaysOnRange(c, s, v, out, w);
      AllGuardedTaken(c.start.prefix, w);
      GuardedWindowIsLoaded(c, v);
    }
  }

  lemma {:induction false} StreamStaysOnRange(c: StillStream, s: seq<Entry>, step: View -> View, k: nat)
    requires IsOnRange(c, s, View(c.start, true, false, []), [])
    requires forall v, out :: IsOnRange(c, s, v, out) && !v.exhausted ==> IsOnRange(c, s, step(v), out + step(v).rest)
    ensures IsOnRange(c, s, StreamAfter(step, c.start, k), Drained(step, c.start, k))
  {
    if k > 0 {
      StreamStaysOnRange(c, s, step, k - 1);
      var v, out := StreamAfter(step, c.start, k - 1), Drained(step, c.start, k - 1);
      assert IsOnRange(c, s, v.(rest := []), out);
      assert v.exhausted ==> Drained(step, c.start, k) == out;
    }
  }

  /** Such a stream delivers its whole range, for every window size. */
  lemma GuardedStreamIsItsRange(c: StillStream, s: seq<Entry>, emitLimit: nat, out: seq<Entry>)
    requires IsStill(c.ord, c.idx, c.start) && c.since == 0 && c.floor.None? && c.n >= 1
    requires s == RangeOf(c.ord, Reverse, c.idx, StartBound(Reverse, c.start, true))
    requires forall i :: 0 <= i < |s| ==> Guard(c.start.prefix, s[i].key)
    requires IsStreamHead(Refiller(c), c.start, emitLimit, out)
    ensures out == if emitLimit < |s| then s[..emitLimit] else s
  {
    var step := Refiller(c);
    var k: nat :| out <= Drained(step, c.start, k) &&
                  (|out| == emitLimit || (out == Drained(step, c.start, k) && StreamAfter(step, c.start, k).exhausted));
    forall v, out | IsOnRange(c, s, v, out) && !v.exhausted ensures IsOnRange(c, s, step(v), out + step(v).rest) {
      RefillStaysOnRange(c, s, v, out);
    }
    StreamStaysOnRange(c, s, step, k);
  }

  // ---------------------------------------------------------------------------
  // A merge out of order
  // ---------------------------------------------------------------------------

  // Tag `t` with the values "a", "`" and "" as index prefixes.
  const TA: bytes := [0x74, 0x61]
  const TQ: bytes := [0x74, 0x60]
  const T: bytes := [0x74]

  lemma TagsAreOrdered()
    ensures Lex(T, TQ) && Lex(TQ, TA) && Lex(T, TA)
    ensures Alias(TA, Key(T, 97)) && !Guard(TA, Key(TQ, 9))
  {
  }

  const OUT_OF_ORDER: seq<Entry> := [Entry(Key(T, 97), 2), Entry(Key(TQ, 9), 3), Entry(Key(TA, 5), 1)]

  lemma OutOfOrderIndex()
    ensures IsStill(OrderOf(EventTag), OUT_OF_ORDER, Key(TA, 10))
  {
    TagsAreOrdered();
    OrderIsLawful(EventTag);
    ThreeInOrder(OrderOf(EventTag), OUT_OF_ORDER[0], OUT_OF_ORDER[1], OUT_OF_ORDER[2]);
  }

  lemma ThreeInOrder(o: Order, z: Entry, b: Entry, a: Entry)
    requires o.less(z.key.prefix, b.key.prefix) && o.less(b.key.prefix, a.key.prefix)
    requires o.less(z.key.prefix, a.key.prefix)
    requires o.ok(z.key.prefix) && o.ok(b.key.prefix) && o.ok(a.key.prefix)
    requires z.key.ts < U64_MAX && b.key.ts < U64_MAX && a.key.ts < U64_MAX
    ensures Snapshot(o, [z, b, a]) && SingleAtMax(set e | e in [z, b, a])
  {
  }

  /** A range of three entries below the start. */
  lemma RangeOfThree(o: Order, a: Entry, b: Entry, z: Entry, start: Key)
    requires IsStill(o, [z, b, a], start) && KeyLess(o, a.key, start)
    ensures RangeOf(o, Reverse, [z, b, a], StartBound(Reverse, start, true)) == [a, b, z]
  {
    var idx := [z, b, a];
    RangeIsOrdered(o, Reverse, idx, StartBound(Reverse, start, true));
    RangeIsWhatIsAhead(o, Reverse, idx, start, true);
    EntryOrderIsStrictTotal(o);
    KeyOrderIsStrictTotal(o);
    assert EntryLess(o, idx[0], idx[1]) && EntryLess(o, idx[1], idx[2]) && EntryLess(o, idx[0], idx[2]);
    assert o.ok(idx[0].key.prefix) && o.ok(idx[1].key.prefix) && o.ok(idx[2].key.prefix);
    OrderedIsUnique(o, Reverse, RangeOf(o, Reverse, idx, StartBound(Reverse, start, true)), [a, b, z]);
  }

  /** The first window of size 2 overshoots a group of one entry. */
  lemma FirstOvershoots(c: StillStream, a: Entry, b: Entry, z: Entry)
    requires IsStill(c.ord, c.idx, c.start) && c.n == 2 && c.since == 0 && c.floor.None?
    requires RangeOf(c.ord, Reverse, c.idx, StartBound(Reverse, c.start, true)) == [a, b, z]
    requires Guard(c.start.prefix, a.key) && !Guard(c.start.prefix, b.key) && b.key != z.key
    ensures RefillOn(c, View(c.start, true, false, []), 2) == View(b.key, false, false, [a])
    ensures c.ord.ok(b.key.prefix)
    ensures RangeOf(c.ord, Reverse, c.idx, StartBound(Reverse, b.key, false)) == [z]
  {
    var s, v0 := [a, b, z], View(c.start, true, false, []);
    assert IsWindow(s, 2, [a, b]) by { assert s[..2] == [a, b]; }
    WindowIsUnique(s, 2, NextWindow(c, v0), [a, b]);
    RangeAfterWindow(c, v0, [a, b]);
    assert s[2..] == [z];
    GuardedWindowIsLoaded(c, v0);
    TakesOne(c.start.prefix, [a, b]);
  }

  /** The second one starts with the alias. */
  lemma SecondStartsWithAlias(c: StillStream, b: Entry, z: Entry)
    requires c.n == 2 && c.since == 0 && c.floor.None? && Guard(c.start.prefix, z.key)
    requires RangeOf(c.ord, Reverse, c.idx, StartBound(Reverse, b.key, false)) == [z]
    ensures RefillOn(c, View(b.key, false, false, []), 2) == View(z.key, false, false, [z])
  {
    var v := View(b.key, false, false, []);
    WindowIsUnique([z], 2, NextWindow(c, v), [z]);
    GuardedWindowIsLoaded(c, v);
    TakesOne(c.start.prefix, [z]);
  }

  /**
   The entry just below the group is no alias, and still an alias is delivered: the first window
   overshoots the group and leaves the stream open, and the second one starts with the alias.
   */
  lemma OvershootReachesAlias(c: StillStream, a: Entry, b: Entry, z: Entry)
    requires IsStill(c.ord, c.idx, c.start) && c.n == 2 && c.since == 0 && c.floor.None?
    requires RangeOf(c.ord, Reverse, c.idx, StartBound(Reverse, c.start, true)) == [a, b, z] && b.key != z.key
    requires Guard(c.start.prefix, a.key) && !Guard(c.start.prefix, b.key) && Guard(c.start.prefix, z.key)
    ensures IsStreamHead(Refiller(c), c.start, 2, [a, z])
  {
    FirstOvershoots(c, a, b, z);
    SecondStartsWithAlias(c, b, z);
    TwoLoads(c, a, b, z);
  }

  lemma TwoLoads(c: StillStream, a: Entry, b: Entry, z: Entry)
    requires RefillOn(c, View(c.start, true, false, []), 2) == View(b.key, false, false, [a])
    requires RefillOn(c, View(b.key, false, false, []), 2) == View(z.key, false, false, [z])
    ensures IsStreamHead(Refiller(c), c.start, 2, [a, z])
  {
    var v, w := View(b.key, false, false, [a]), View(z.key, false, false, [z]);
    DrainedTwice(Refiller(c), c.start, v, w);
    assert v.rest + w.rest == [a, z];
  }

  /** A merge of one stream emits 5 before 97. */
  lemma AliasIsDeliveredOutOfOrder() returns (c: StillStream)
    ensures IsStill(c.ord, c.idx, c.start) && c.ord == OrderOf(EventTag) && c.idx == OUT_OF_ORDER
    ensures IsStreamHead(Refiller(c), c.start, 2, [OUT_OF_ORDER[2], OUT_OF_ORDER[0]])
    ensures !Descending([OUT_OF_ORDER[2], OUT_OF_ORDER[0]])
  {
    OutOfOrderIndex();
    TagsAreOrdered();
    c := StillStream(OrderOf(EventTag), OUT_OF_ORDER, Key(TA, 10), 2, 0, None);
    var a, b, z := OUT_OF_ORDER[2], OUT_OF_ORDER[1], OUT_OF_ORDER[0];
    GuardAcceptsItsPrefix(TA, a.key);
    RangeOfThree(c.ord, a, b, z, c.start);
    OvershootReachesAlias(c, a, b, z);
    var out := [a, z];
    assert !AtMost(RankOf(out[1]), RankOf(out[0]));
  }

  lemma TakesOne(prefix: bytes, s: seq<Entry>)
    requires s != [] && Guard(prefix, s[0].key) && (|s| > 1 ==> !Guard(prefix, s[1].key))
    ensures TakeWhileGuard(prefix, s) == [s[0]]
  {
  }

  lemma DrainedTwice(step: View -> View, start: Key, v: View, w: View)
    requires !v.exhausted && v == step(View(start, true, false, [])) && w == step(v.(rest := []))
    ensures IsStreamHead(step, start, |v.rest + w.rest|, v.rest + w.rest)
  {
    assert StreamAfter(step, start, 0) == View(start, true, false, []);
    assert StreamAfter(step, start, 1) == v;
    assert StreamAfter(step, start, 2) == w;
    assert Drained(step, start, 1) == Drained(step, start, 0) + v.rest;
    assert Drained(step, start, 2) == Drained(step, start, 1) + w.rest;
  }

  // ---------------------------------------------------------------------------
  // A round that lifts the boundary
  // ---------------------------------------------------------------------------

  /** `m` entries of the group of TA, created at 1, ..., m, and below them an alias newer than all of them. */
  function Flood(m: nat): (idx: seq<Entry>)
    requires m <= 2000
  {
    seq(m + 1, i requires 0 <= i <= m => if i == 0 then Entry(Key(T, 97 + 256 * m + 256), 0) else Entry(Key(TA, i), i))
  }

  lemma FloodIsGuarded(m: nat, e: Entry)
    requires m <= 2000 && e in Flood(m)
    ensures Guard(TA, e.key) && OrderOf(EventTag).ok(e.key.prefix) &&
            KeyLess(OrderOf(EventTag), e.key, Key(TA, U64_MAX))
  {
  }

  lemma FloodIsStill(m: nat)
    requires m <= 2000
    ensures IsStill(OrderOf(EventTag), Flood(m), Key(TA, U64_MAX))
  {
    TagsAreOrdered();
    OrderIsLawful(EventTag);
    assert OrderOf(EventTag).less(T, TA);
  }

  lemma RangeOfFlood(m: nat, s: seq<Entry>)
    requires m <= 2000 && s == RangeOf(OrderOf(EventTag), Reverse, Flood(m),
                                       StartBound(Reverse, Key(TA, U64_MAX), true))
    ensures s == Reversed(Flood(m)) && forall i :: 0 <= i < |s| ==> Guard(TA, s[i].key)
  {
    var o, start, idx := OrderOf(EventTag), Key(TA, U64_MAX), Flood(m);
    FloodIsStill(m);
    RangeIsOrdered(o, Reverse, idx, StartBound(Reverse, start, true));
    forall e ensures e in s <==> e in idx {
      InRangeOfFlood(m, e);
    }
    ReversedIsRange(o, idx, s);
    forall i | 0 <= i < |s| ensures Guard(TA, s[i].key) {
      assert s[i] in s;
      FloodIsGuarded(m, s[i]);
    }
  }

  lemma InRangeOfFlood(m: nat, e: Entry)
    requires m <= 2000
    ensures e in RangeOf(OrderOf(EventTag), Reverse, Flood(m), StartBound(Reverse, Key(TA, U64_MAX), true)) <==>
            e in Flood(m)
  {
    var o, start, idx := OrderOf(EventTag), Key(TA, U64_MAX), Flood(m);
    FloodIsStill(m);
    RangeIsOrdered(o, Reverse, idx, StartBound(Reverse, start, true));
    RangeIsWhatIsAhead(o, Reverse, idx, start, true);
    if e in idx {
      FloodIsGuarded(m, e);
    }
  }

  /** A reverse range that holds everything is the index read backwards. */
  lemma ReversedIsRange(o: Order, idx: seq<Entry>, s: seq<Entry>)
    requires Lawful(o) && Snapshot(o, idx) && Ordered(o, Reverse, s) && AllOk(o, s) && forall e :: e in s <==> e in idx
    ensures s == Reversed(idx)
  {
    var t := Reversed(idx);
    forall e ensures e in t <==> e in idx {
      if e in idx {
        var i :| 0 <= i < |idx| && idx[i] == e;
        assert t[|idx| - 1 - i] == e;
      }
    }
    OrderedIsUnique(o, Reverse, s, t);
  }

  /**
   A full batch that ends with an alias. For every limit up to 500 and every window size, the first round
   over this index emits exactly the emit limit, so the walk goes on below its last entry; but that
   entry is newer than all others. The next round is asked for all of them again, its exclusion lets
   them pass, and rows of the first round are pushed a second time.
   */
  lemma AliasLiftsTheBoundary(limit: nat, n: nat, out: seq<Entry>, e: Entry)
    requires 1 <= limit <= 500 && n >= 1
    requires
      var c := StillStream(OrderOf(EventTag), Flood(EmitLimit(limit) - 1), Key(TA, U64_MAX), n, 0, None);
      IsStreamHead(Refiller(c), c.start, EmitLimit(limit), out)
    requires e in out && e != out[|out| - 1]
    ensures |out| == EmitLimit(limit) && IsAskedAgain(out[|out| - 1], e)
  {
    var m := EmitLimit(limit) - 1;
    FloodComesOut(m, n, out);
    var i :| 0 <= i < |out| && out[i] == e;
    OlderThanTheAlias(m, i);
    OlderIsAskedAgain(out[|out| - 1], e);
  }

  /** With `last` as its boundary, the next round over TA is asked for `e`, and its exclusion keeps it. */
  ghost predicate IsAskedAgain(last: Entry, e: Entry)
  {
    && Below(RankOf(e), RankOf(last))
    && Wanted([Key(TA, last.key.ts)], 0, Some(RankOf(last)), e)
    && e in ExcludeAbove(Some(RankOf(last)), [e])
  }

  lemma OlderIsAskedAgain(last: Entry, e: Entry)
    requires e.key.prefix == TA && e.key.ts < last.key.ts
    ensures IsAskedAgain(last, e)
  {
    var starts := [Key(TA, last.key.ts)];
    assert Eligible(starts[0], 0, Some(RankOf(last)), e);
    assert e in [e];
  }

  lemma FloodComesOut(m: nat, n: nat, out: seq<Entry>)
    requires m <= 2000 && n >= 1
    requires
      var c := StillStream(OrderOf(EventTag), Flood(m), Key(TA, U64_MAX), n, 0, None);
      IsStreamHead(Refiller(c), c.start, m + 1, out)
    ensures out == Reversed(Flood(m))
  {
    var c := StillStream(OrderOf(EventTag), Flood(m), Key(TA, U64_MAX), n, 0, None);
    var s := RangeOf(c.ord, Reverse, c.idx, StartBound(Reverse, c.start, true));
    FloodIsStill(m);
    RangeOfFlood(m, s);
    GuardedStreamIsItsRange(c, s, m + 1, out);
  }

  lemma OlderThanTheAlias(m: nat, i: nat)
    requires m <= 2000 && i <= m && Reversed(Flood(m))[i] != Reversed(Flood(m))[m]
    ensures
      var e, last := Reversed(Flood(m))[i], Reversed(Flood(m))[m];
      e.key.prefix == TA && e.key.ts < last.key.ts
  {
  }

  // ---------------------------------------------------------------------------
  // A page that leaves the requested time range
  // ---------------------------------------------------------------------------

  const TAB: bytes := [0x74, 0x61, 0x62]

  // An event created at 98 = 0x62 with the tags t = "a" and t = "ab", in the tag index.
  const TAGS: seq<seq<Text>> := [[[0x74], [0x61]], [[0x74], [0x61, 0x62]]]
  const ESCAPING: seq<Entry> := [Entry(Key(TA, 98), 1), Entry(Key(TAB, 98), 1)]

  // t = "ab", nothing newer than 50.
  const UNTIL_50: NostrFilter :=
    NostrFilter(None, None, None, Some([TagFilter([0x74], [[0x61, 0x62]])]), None, Some(50), 10)

  lemma EscapingIsTheIndex(ev: Event)
    requires ev.createdAt == 98 && ev.tags == TAGS
    ensures IndexKeys(EventTag, ev) == set e | e in ESCAPING :: e.key
  {
    assert TagPrefix(0x74, [0x61]) == TA && TagPrefix(0x74, [0x61, 0x62]) == TAB;
    var ks := TagKeys(ev);
    assert ks == {Key(TA, 98), Key(TAB, 98)} by {
      assert ev.tags[0] == [[0x74], [0x61]] && ev.tags[1] == [[0x74], [0x61, 0x62]];
      assert Key(TA, 98) in ks && Key(TAB, 98) in ks;
    }
    assert ESCAPING[0] in ESCAPING && ESCAPING[1] in ESCAPING;
  }

  /** The store that holds just this event. */
  ghost predicate IsEscapingStore(db: SubDb, p: Payloads, ev: Event)
  {
    && db.env == p.env && db.ord == OrderOf(EventTag)
    && (forall t: nat :: db.history(t) == ESCAPING)
    && db.must == db.may == (set e | e in ESCAPING)
    && (forall lev :: p.event(lev) == ev && p.decodable(lev)) && (forall t: nat :: p.stored(t) == {1})
  }

  lemma EscapingIsStill(start: Key)
    requires start.prefix == TAB
    ensures IsStill(OrderOf(EventTag), ESCAPING, start)
  {
    OrderIsLawful(EventTag);
    ProperPrefixIsLess(TA, TAB);
    assert OrderOf(EventTag).less(TA, TAB);
  }

  lemma EscapingServes(db: SubDb, p: Payloads, ev: Event)
    requires IsEscapingStore(db, p, ev) && ev.createdAt == 98
    ensures Serves(db, p, UNTIL_50) && StaysStored(db, p) && db.Still()
  {
    EscapingIsStill(Key(TAB, 50));
  }

  /** The stream of t = "ab" up to 50 consists of the alias alone. */
  lemma EscapingStream(n: nat, emitLimit: nat, out: seq<Entry>)
    requires n >= 1 && emitLimit >= 1
    requires
      var c := StillStream(OrderOf(EventTag), ESCAPING, Key(TAB, 50), n, 0, None);
      IsStreamHead(Refiller(c), c.start, emitLimit, out)
    ensures out == [ESCAPING[0]]
  {
    var o, start := OrderOf(EventTag), Key(TAB, 50);
    var c := StillStream(o, ESCAPING, start, n, 0, None);
    EscapingIsStill(start);
    var s := RangeOf(o, Reverse, ESCAPING, StartBound(Reverse, start, true));
    RangeOfEscaping(s);
    EscapingAlias();
    GuardedStreamIsItsRange(c, s, emitLimit, out);
  }

  lemma EscapingAlias()
    ensures Guard(TAB, ESCAPING[0].key)
  {
  }

  lemma RangeOfEscaping(s: seq<Entry>)
    requires s == RangeOf(OrderOf(EventTag), Reverse, ESCAPING, StartBound(Reverse, Key(TAB, 50), true))
    ensures s == [ESCAPING[0]]
  {
    var o, start := OrderOf(EventTag), Key(TAB, 50);
    EscapingIsStill(start);
    RangeIsOrdered(o, Reverse, ESCAPING, StartBound(Reverse, start, true));
    RangeIsWhatIsAhead(o, Reverse, ESCAPING, start, true);
    ProperPrefixIsLess(TA, TAB);
    LexIrreflexive(TAB);
    assert o.less(TA, TAB) && !o.less(TAB, TAB);
    assert forall e :: e in s <==> e == ESCAPING[0];
    OrderedIsUnique(o, Reverse, s, [ESCAPING[0]]);
  }

  lemma EscapingAsks(b: bytes)
    ensures AsksFor(UNTIL_50, SelectIndex(UNTIL_50), b) <==> b == TAB
  {
    assert TagPrefix(0x74, [0x61, 0x62]) == TAB;
    var tf := TagFilter([0x74], [[0x61, 0x62]]);
    assert Items(UNTIL_50.tags) == [tf] && tf in [tf] && [0x61, 0x62] in tf.values;
  }

  lemma EscapingStart(db: SubDb, g: Goal, starts: seq<Key>)
    requires (forall b :: b in g.prefixes <==> b == TAB) && g.until == 50
    requires StartsOk(db, starts) && StartsFor(g, None, starts)
    ensures starts == [Key(TAB, 50)]
  {
    assert Key(TAB, 50) in starts;
    forall i | 0 <= i < |starts| ensures starts[i] == Key(TAB, 50) {
      assert starts[i] in starts;
    }
    assert |starts| > 1 ==> starts[0].prefix != starts[1].prefix;
  }

  lemma EscapingIsAccepted(ev: Event, now: u64)
    requires ev.tags == TAGS
    ensures Acceptance(UNTIL_50, now)(ev)
  {
    EscapingPasses(ev);
    EscapingIsLive(ev, now);
  }

  lemma EscapingPasses(ev: Event)
    requires ev.tags == TAGS
    ensures Residual(UNTIL_50, ev)
  {
    var tf := TagFilter([0x74], [[0x61, 0x62]]);
    assert UNTIL_50.tags == Some([tf]);
    assert ev.tags[1] in ev.tags && TagMatches(tf, ev.tags[1]);
  }

  lemma EscapingIsLive(ev: Event, now: u64)
    requires ev.tags == TAGS
    ensures !Expired(ev, now)
  {
    forall tag | tag in ev.tags ensures !ExpiresBy(tag, now) {
      assert |tag[0]| == 1;
    }
  }

  lemma EscapingFirstRound(db: SubDb, p: Payloads, ev: Event, now: u64, n: nat, first: seq<Entry>, rows: seq<Row>)
    requires IsEscapingStore(db, p, ev) && ev.tags == TAGS && n >= 1 && db.Still()
    requires IsFirstRound(db, GoalOf(p, UNTIL_50, now), None, n, EmitLimit(10), 10, first, rows)
    ensures rows != []
  {
    var g := GoalOf(p, UNTIL_50, now);
    EscapingGoal(p, ev, now);
    EscapingFirst(db, p, ev, g, n, first, rows);
    assert ESCAPING[0] in first;
  }

  lemma EscapingGoal(p: Payloads, ev: Event, now: u64)
    requires ev.tags == TAGS && forall lev :: p.event(lev) == ev && p.decodable(lev)
    ensures
      var g := GoalOf(p, UNTIL_50, now);
      (forall b: bytes :: b in g.prefixes <==> b == TAB) && g.since == 0 && g.until == 50 && 1 in g.levs
  {
    forall b: bytes ensures b in GoalOf(p, UNTIL_50, now).prefixes <==> b == TAB { EscapingAsks(b); }
    EscapingIsWanted(p, ev, now);
  }

  lemma EscapingFirst(db: SubDb, p: Payloads, ev: Event, g: Goal, n: nat, first: seq<Entry>, rows: seq<Row>)
    requires IsEscapingStore(db, p, ev) && n >= 1 && db.Still()
    requires (forall b: bytes :: b in g.prefixes <==> b == TAB) && g.since == 0 && g.until == 50
    requires IsFirstRound(db, g, None, n, EmitLimit(10), 10, first, rows)
    ensures first == [ESCAPING[0]]
  {
    var starts :| StartsOk(db, starts) && StartsFor(g, None, starts) &&
                  IsSingleStream(db, starts, n, g.since, None, EmitLimit(10), first);
    EscapingStart(db, g, starts);
    EscapingStream(n, EmitLimit(10), first);
  }

  lemma EscapingIsWanted(p: Payloads, ev: Event, now: u64)
    requires ev.tags == TAGS && forall lev :: p.event(lev) == ev && p.decodable(lev)
    ensures 1 in GoalOf(p, UNTIL_50, now).levs
  {
    EscapingIsAccepted(ev, now);
    assert Match(p, Acceptance(UNTIL_50, now), 1);
  }

  /**
   The whole query, on the store with this one event: asked for t = "ab" up to 50, the page contains the event
   created at 98, whatever the window size. The residual check looks at the tags and not
   at the time, which was left to the scan.
   */
  method AliasEscapesUntil(ev: Event, now: u64, batchSize: nat) returns (page: Page)
    requires ev.createdAt == 98 && ev.tags == TAGS && batchSize >= 1
    ensures IndexKeys(EventTag, ev) == set e | e in ESCAPING :: e.key
    ensures page.rows != []
    ensures UNTIL_50.until == Some(50)
    ensures forall i :: 0 <= i < |page.rows| ==> page.rows[i].event == ev && 50 < page.rows[i].ts
  {
    EscapingIsTheIndex(ev);
    var env := new Env();
    ghost var entries := set e | e in ESCAPING;
    var db := new SubDb(env, OrderOf(EventTag), t => ESCAPING, entries, entries);
    var p := new Payloads(env, lev => ev, lev => true, t => {1});
    page := AskEscaping(db, p, ev, now, batchSize);
  }

  method AskEscaping(db: SubDb, p: Payloads, ev: Event, now: u64, batchSize: nat) returns (page: Page)
    requires IsEscapingStore(db, p, ev) && ev.createdAt == 98 && ev.tags == TAGS && batchSize >= 1
    modifies db.env
    ensures page.rows != []
    ensures forall i :: 0 <= i < |page.rows| ==> page.rows[i].event == ev && page.rows[i].ts == 98
  {
    EscapingServes(db, p, ev);
    ghost var from := db.env.txns;
    var r;
    ghost var first, hydrated;
    r, first, hydrated := ExecuteQuery(db, p, UNTIL_50, now, None, batchSize);
    page := r.value;
    EscapingFirstRound(db, p, ev, now, batchSize, first, page.rows);
    forall i | 0 <= i < |page.rows| ensures page.rows[i].event == ev && page.rows[i].ts == 98 {
      EscapingRow(db, p, ev, now, from, db.env.txns, page.rows[i]);
    }
  }

  lemma EscapingRow(db: SubDb, p: Payloads, ev: Event, now: u64, from: nat, to: nat, row: Row)
    requires IsEscapingStore(db, p, ev) && IsSoundRow(db, p, UNTIL_50, now, from, to, row)
    ensures row.event == ev && row.ts == 98
  {
    var e :| Seen(db, from, to, e) && RankOf(e) == RowRank(row);
    assert e in ESCAPING;
  }
}
