/** `latest_per_author`: the newest events of one kind, author by author. */
module Latest {
  import opened Bytes
  import opened Comparators
  import opened Scan
  import opened Merge
  import opened Hex
  import opened Router
  import opened Engine

  /** Where the reverse scan of an author's events of one kind starts. */
  function StartKey(pubkey: bytes, kind: u64): (k: Key)
  {
    Key(pubkey + LeBytes(kind, 8), U64_MAX)
  }

  function LevsOf(entries: seq<Entry>): (levs: seq<LevId>)
  {
    seq(|entries|, i requires 0 <= i < |entries| => entries[i].lev)
  }

  /** Newest first, by created_at and inside a second by levId. */
  ghost predicate RanksDescend(entries: seq<Entry>)
  {
    forall i, j :: 0 <= i < j < |entries| ==> Below(RankOf(entries[j]), RankOf(entries[i]))
  }

  /**
   `newest` are the at most `n` newest entries of the author and kind, newest first: keys that consist of
   the pubkey, the 8 bytes of the kind and the time.
   */
  ghost predicate AreNewest(db: SubDb, pubkey: bytes, kind: u64, n: nat, newest: seq<Entry>)
  {
    && |newest| <= n && RanksDescend(newest)
    && (forall e :: e in newest ==> e in db.may && e.key.prefix == pubkey + LeBytes(kind, 8))
    && (forall e :: e in db.must && e.key.prefix == pubkey + LeBytes(kind, 8) ==>
          e in newest || (|newest| == n && forall r :: r in newest ==> Below(RankOf(e), RankOf(r))))
  }

  /** The bounded scan delivers them as a merge of one stream. */
  lemma NewestIsMerge(db: SubDb, pubkey: bytes, kind: u64, n: nat, newest: seq<Entry>)
    ensures AreNewest(db, pubkey, kind, n, newest) <==> IsMerge(db, [StartKey(pubkey, kind)], 0, None, n, newest)
  {
    var starts := [StartKey(pubkey, kind)];
    forall e: Entry ensures Wanted(starts, 0, None, e) <==> e.key.prefix == pubkey + LeBytes(kind, 8) {
      assert Eligible(starts[0], 0, None, e) <==> e.key.prefix == pubkey + LeBytes(kind, 8);
    }
    if IsMerge(db, starts, 0, None, n, newest) {
      forall i, j | 0 <= i < j < |newest| ensures Below(RankOf(newest[j]), RankOf(newest[i])) {
        assert newest[i] in newest && newest[j] in newest;
        assert newest[i] != newest[j] && newest[i].key.prefix == newest[j].key.prefix;
      }
    }
  }

  /** On an index nobody writes to they are determined, whoever asks and in whatever order. */
  lemma NewestAreUnique(db: SubDb, pubkey: bytes, kind: u64, n: nat, a: seq<Entry>, b: seq<Entry>)
    requires db.must == db.may && AreNewest(db, pubkey, kind, n, a) && AreNewest(db, pubkey, kind, n, b)
    ensures a == b
  {
    var starts := [StartKey(pubkey, kind)];
    NewestIsMerge(db, pubkey, kind, n, a);
    NewestIsMerge(db, pubkey, kind, n, b);
    SameLength(db, starts, n, a, b);
    SameEntries(db, starts, n, a, b);
  }

  // ---------------------------------------------------------------------------
  // The bucket
  // ---------------------------------------------------------------------------

  /** An entry whose event decodes and has not expired. */
  ghost predicate IsLive(p: Payloads, now: u64, e: Entry)
  {
    p.decodable(e.lev) && !Expired(p.event(e.lev), now)
  }

  /** The events of the live ones among the newest entries, each entry once, newest first. */
  ghost predicate IsBucketOf(p: Payloads, now: u64, newest: seq<Entry>, kept: seq<Entry>, evs: seq<Event>)
  {
    && |evs| == |kept| && RanksDescend(kept)
    && (forall i :: 0 <= i < |kept| ==> evs[i] == p.event(kept[i].lev))
    && (forall e :: e in kept <==> e in newest && IsLive(p, now, e))
  }

  ghost predicate IsBucket(p: Payloads, now: u64, newest: seq<Entry>, evs: seq<Event>)
  {
    exists kept :: IsBucketOf(p, now, newest, kept, evs)
  }

  /** Where the keys tell the events' timestamps, a bucket is newest first by `created_at`. */
  lemma BucketIsNewestFirst(db: SubDb, p: Payloads, now: u64, newest: seq<Entry>, evs: seq<Event>, i: nat, j: nat)
    requires forall e :: e in db.may ==> e.key.ts == p.event(e.lev).createdAt
    requires (forall e :: e in newest ==> e in db.may) && IsBucket(p, now, newest, evs) && i < j < |evs|
    ensures evs[j].createdAt <= evs[i].createdAt
  {
    var kept :| IsBucketOf(p, now, newest, kept, evs);
    assert kept[i] in kept && kept[j] in kept;
    assert Below(RankOf(kept[j]), RankOf(kept[i]));
  }

  /** The newest entries determine the bucket. */
  lemma BucketIsUnique(p: Payloads, now: u64, newest: seq<Entry>, a: seq<Event>, b: seq<Event>)
    requires IsBucket(p, now, newest, a) && IsBucket(p, now, newest, b)
    ensures a == b
  {
    var ka :| IsBucketOf(p, now, newest, ka, a);
    var kb :| IsBucketOf(p, now, newest, kb, b);
    DescendingIsUnique(ka, kb);
  }

  lemma {:induction false} DescendingIsUnique(a: seq<Entry>, b: seq<Entry>)
    requires RanksDescend(a) && RanksDescend(b) && forall e :: e in a <==> e in b
    ensures a == b
  {
    if a + b != [] {
      var x := (a + b)[0];
      assert x in a || x in b;
      assert a[0] in b && b[0] in a;
      assert a[0] == b[0];
      forall e ensures e in a[1..] <==> e in b[1..] {
        if e in a[1..] { assert e in b; }
        if e in b[1..] { assert e in a; }
      }
      DescendingIsUnique(a[1..], b[1..]);
      assert a == [a[0]] + a[1..] && b == [b[0]] + b[1..];
    }
  }

  ghost predicate Increasing(at: seq<nat>)
  {
    forall i, j :: 0 <= i < j < |at| ==> at[i] < at[j]
  }

  /** Drop the expired ones; `at` tells where each survivor was. */
  method DropExpired(pairs: seq<(LevId, Event)>, now: u64) returns (evs: seq<Event>, ghost at: seq<nat>)
    ensures |at| == |evs| && Increasing(at)
    ensures forall i :: 0 <= i < |at| ==> at[i] < |pairs| && evs[i] == pairs[at[i]].1
    ensures forall j :: 0 <= j < |pairs| ==> (j in at <==> !Expired(pairs[j].1, now))
  {
    evs, at := [], [];
    for k := 0 to |pairs|
      invariant |at| == |evs| && Increasing(at)
      invariant forall i :: 0 <= i < |at| ==> at[i] < k && evs[i] == pairs[at[i]].1
      invariant forall j :: 0 <= j < k ==> (j in at <==> !Expired(pairs[j].1, now))
    {
      var expired := IsExpired(pairs[k].1, now);
      if !expired {
        evs, at := evs + [pairs[k].1], at + [k];
      }
    }
  }

  /** `at` tells where each pair of a hydrated batch was in the input. */
  ghost predicate IsTrace(p: Payloads, levs: seq<LevId>, pairs: seq<(LevId, Event)>, at: seq<nat>)
  {
    && |at| == |pairs| && Increasing(at)
    && (forall i :: 0 <= i < |at| ==> at[i] < |levs| && pairs[i] == (levs[at[i]], p.event(levs[at[i]])))
    && (forall j :: 0 <= j < |levs| ==> (j in at <==> p.decodable(levs[j])))
  }

  /** Hydration drops the undecodable ones and keeps the order. */
  lemma {:induction false} DecodedFrom(p: Payloads, levs: seq<LevId>) returns (at: seq<nat>)
    ensures IsTrace(p, levs, p.Decoded(levs), at)
  {
    at := [];
    if levs != [] {
      var rest := DecodedFrom(p, levs[1..]);
      at := seq(|rest|, i requires 0 <= i < |rest| => rest[i] + 1);
      TraceShifts(p, levs, p.Decoded(levs[1..]), rest, at);
      if p.decodable(levs[0]) {
        TraceStarts(p, levs, p.Decoded(levs[1..]), at);
        at := [0] + at;
      }
    }
  }

  /** The trace of the rest, seen from the whole input. */
  ghost predicate IsShiftedTrace(p: Payloads, levs: seq<LevId>, pairs: seq<(LevId, Event)>, at: seq<nat>)
  {
    && |at| == |pairs| && Increasing(at)
    && (forall i :: 0 <= i < |at| ==> 0 < at[i] < |levs| && pairs[i] == (levs[at[i]], p.event(levs[at[i]])))
    && (forall j :: 0 <= j < |levs| ==> (j in at <==> j > 0 && p.decodable(levs[j])))
  }

  lemma TraceShifts(p: Payloads, levs: seq<LevId>, pairs: seq<(LevId, Event)>, rest: seq<nat>, at: seq<nat>)
    requires levs != [] && IsTrace(p, levs[1..], pairs, rest)
    requires |at| == |rest| && forall i :: 0 <= i < |rest| ==> at[i] == rest[i] + 1
    ensures IsShiftedTrace(p, levs, pairs, at)
  {
    forall j | 0 <= j < |levs| ensures j in at <==> j > 0 && p.decodable(levs[j]) {
      ShiftedHas(rest, at, j);
      if j > 0 { assert levs[1..][j - 1] == levs[j]; }
    }
    forall i | 0 <= i < |at| ensures 0 < at[i] < |levs| && pairs[i] == (levs[at[i]], p.event(levs[at[i]])) {
      assert levs[1..][rest[i]] == levs[at[i]];
    }
  }

  lemma TraceStarts(p: Payloads, levs: seq<LevId>, pairs: seq<(LevId, Event)>, at: seq<nat>)
    requires levs != [] && IsShiftedTrace(p, levs, pairs, at) && p.decodable(levs[0])
    ensures IsTrace(p, levs, [(levs[0], p.event(levs[0]))] + pairs, [0] + at)
  {
    var all := [0] + at;
    forall j | 0 <= j < |levs| ensures j in all <==> p.decodable(levs[j]) {
      assert j in all <==> j == 0 || j in at;
    }
  }

  lemma ShiftedHas(rest: seq<nat>, shifted: seq<nat>, j: nat)
    requires |shifted| == |rest| && forall i :: 0 <= i < |rest| ==> shifted[i] == rest[i] + 1
    ensures j in shifted <==> j > 0 && j - 1 in rest
  {
    if j > 0 && j - 1 in rest {
      var i :| 0 <= i < |rest| && rest[i] == j - 1;
      assert shifted[i] == j;
    }
  }

  /** Hydrating the newest entries and dropping the expired ones gives the bucket. */
  lemma SurvivorsAreTheBucket(p: Payloads, now: u64, newest: seq<Entry>, evs: seq<Event>, live: seq<nat>)
    requires RanksDescend(newest) && |live| == |evs| && Increasing(live)
    requires
      var pairs := p.Decoded(LevsOf(newest));
      && (forall i :: 0 <= i < |live| ==> live[i] < |pairs| && evs[i] == pairs[live[i]].1)
      && (forall j :: 0 <= j < |pairs| ==> (j in live <==> !Expired(pairs[j].1, now)))
    ensures IsBucket(p, now, newest, evs)
  {
    var pairs := p.Decoded(LevsOf(newest));
    var at := DecodedFrom(p, LevsOf(newest));
    var kept := seq(|live|, i requires 0 <= i < |live| => newest[at[live[i]]]);
    forall e ensures e in kept <==> e in newest && IsLive(p, now, e) {
      KeptAreLive(p, now, newest, pairs, at, live, kept, e);
    }
    assert IsBucketOf(p, now, newest, kept, evs);
  }

  lemma KeptAreLive(p: Payloads, now: u64, newest: seq<Entry>, pairs: seq<(LevId, Event)>, at: seq<nat>, live: seq<nat>,
                    kept: seq<Entry>, e: Entry)
    requires IsTrace(p, LevsOf(newest), pairs, at) && |kept| == |live|
    requires forall i :: 0 <= i < |live| ==> live[i] < |pairs| && kept[i] == newest[at[live[i]]]
    requires forall j :: 0 <= j < |pairs| ==> (j in live <==> !Expired(pairs[j].1, now))
    ensures e in kept <==> e in newest && IsLive(p, now, e)
  {
    if e in kept {
      var i :| 0 <= i < |live| && kept[i] == e;
      assert live[i] in live && at[live[i]] in at;
    }
    if e in newest && IsLive(p, now, e) {
      var j :| 0 <= j < |newest| && newest[j] == e;
      assert LevsOf(newest)[j] == e.lev;
      assert j in at;
      var d :| 0 <= d < |at| && at[d] == j;
      assert d in live;
      var i :| 0 <= i < |live| && live[i] == d;
      assert kept[i] == e;
    }
  }

  // ---------------------------------------------------------------------------
  // The scan
  // ---------------------------------------------------------------------------

  lemma WantedSharePrefix(starts: seq<Key>, x: Entry)
    requires |starts| == 1 && Wanted(starts, 0, None, x)
    ensures x.key.prefix == starts[0].prefix
  {
  }

  lemma {:induction false} SamePrefix(db: SubDb, starts: seq<Key>, n: nat, a: seq<Entry>, b: seq<Entry>, k: nat)
    requires db.must == db.may && |starts| == 1 && IsMerge(db, starts, 0, None, n, a) &&
             IsMerge(db, starts, 0, None, n, b)
    requires k <= |a| && k <= |b|
    ensures a[..k] == b[..k]
  {
    if k > 0 {
      SamePrefix(db, starts, n, a, b, k - 1);
      var x, y := a[k - 1], b[k - 1];
      assert x in a && y in b;
      WantedSharePrefix(starts, x);
      WantedSharePrefix(starts, y);
      NotBelow(db, starts, n, a, b, k - 1);
      NotBelow(db, starts, n, b, a, k - 1);
      assert x == y;
      assert a[..k] == a[..k - 1] + [x] && b[..k] == b[..k - 1] + [y];
    }
  }

  /** The next entry of one list is not below the next entry of the other. */
  lemma NotBelow(db: SubDb, starts: seq<Key>, n: nat, a: seq<Entry>, b: seq<Entry>, k: nat)
    requires db.must == db.may && |starts| == 1 && IsMerge(db, starts, 0, None, n, a) &&
             IsMerge(db, starts, 0, None, n, b)
    requires k < |a| && k < |b| && a[..k] == b[..k]
    ensures AtMost(RankOf(b[k]), RankOf(a[k]))
  {
  }

  lemma SameLength(db: SubDb, starts: seq<Key>, n: nat, a: seq<Entry>, b: seq<Entry>)
    requires db.must == db.may && |starts| == 1 && IsMerge(db, starts, 0, None, n, a) &&
             IsMerge(db, starts, 0, None, n, b)
    ensures |a| == |b|
  {
    NotShorter(db, starts, n, a, b);
    NotShorter(db, starts, n, b, a);
  }

  lemma NotShorter(db: SubDb, starts: seq<Key>, n: nat, a: seq<Entry>, b: seq<Entry>)
    requires db.must == db.may && |starts| == 1 && IsMerge(db, starts, 0, None, n, a) &&
             IsMerge(db, starts, 0, None, n, b)
    ensures |b| <= |a|
  {
    if |a| < n {
      var x, y := set e | e in a, set e | e in b;
      assert y <= x;
      SmallerSubset(y, x);
      CountDistinct(a);
      CountDistinct(b);
    }
  }

  /** A descending list has as many elements as entries. */
  lemma {:induction false} CountDistinct(a: seq<Entry>)
    requires Descending(a)
    ensures |set e | e in a| == |a|
  {
    if a != [] {
      CountDistinct(a[1..]);
      assert a[0] !in a[1..];
      assert (set e | e in a) == {a[0]} + (set e | e in a[1..]);
    }
  }

  lemma SameEntries(db: SubDb, starts: seq<Key>, n: nat, a: seq<Entry>, b: seq<Entry>)
    requires db.must == db.may && |starts| == 1 && IsMerge(db, starts, 0, None, n, a) &&
             IsMerge(db, starts, 0, None, n, b)
    requires |a| == |b|
    ensures a == b
  {
    SamePrefix(db, starts, n, a, b, |a|);
    assert a == a[..|a|] && b == b[..|a|];
  }

  // ---------------------------------------------------------------------------
  // One author
  // ---------------------------------------------------------------------------

  function KeepPrefix(prefix: bytes, s: seq<Entry>): (r: seq<Entry>)
    ensures forall e :: e in r <==> e in s && e.key.prefix == prefix
    ensures |r| <= |s|
  {
    if s == [] then []
    else if s[0].key.prefix == prefix then [s[0]] + KeepPrefix(prefix, s[1..])
    else KeepPrefix(prefix, s[1..])
  }

  /** If the matching entries come first, keeping them is taking a head of the list. */
  lemma {:induction false} KeepPrefixOfHead(prefix: bytes, s: seq<Entry>)
    requires forall i, j :: 0 <= i < j < |s| && s[j].key.prefix == prefix ==> s[i].key.prefix == prefix
    ensures KeepPrefix(prefix, s) <= s
    ensures |KeepPrefix(prefix, s)| < |s| ==> s[|KeepPrefix(prefix, s)|].key.prefix != prefix
  {
    if s != [] {
      if s[0].key.prefix == prefix {
        KeepPrefixOfHead(prefix, s[1..]);
      } else {
        NoneKept(prefix, s);
      }
    }
  }

  lemma {:induction false} NoneKept(prefix: bytes, s: seq<Entry>)
    requires forall i :: 0 <= i < |s| ==> s[i].key.prefix != prefix
    ensures KeepPrefix(prefix, s) == []
  {
    if s != [] {
      NoneKept(prefix, s[1..]);
    }
  }

  lemma {:induction false} AllKept(prefix: bytes, s: seq<Entry>)
    requires forall i :: 0 <= i < |s| ==> s[i].key.prefix == prefix
    ensures KeepPrefix(prefix, s) == s
  {
    if s != [] {
      AllKept(prefix, s[1..]);
      assert s == [s[0]] + s[1..];
    }
  }

  /** Matching keys form a head of the reverse scan, so a bounded scan meets the newest of them. */
  lemma ScanMeetsTheNewest(db: SubDb, idx: seq<Entry>, start: Key, s: seq<Entry>, n: nat, out: seq<Entry>)
    requires db.Valid() && db.ord.ok(start.prefix) && start.ts == U64_MAX
    requires Snapshot(db.ord, idx) && (forall e :: e in idx ==> e in db.may) && (forall e :: e in db.must ==> e in idx)
    requires s == RangeOf(db.ord, Reverse, idx, StartBound(Reverse, start, true)) &&
             out == if n < |s| then s[..n] else s
    requires n >= 1
    ensures IsMerge(db, [start], 0, None, n, KeepPrefix(start.prefix, out))
  {
    var o, p := db.ord, start.prefix;
    var kept := KeepPrefix(p, out);
    RangeIsOrdered(o, Reverse, idx, StartBound(Reverse, start, true));
    RangeIsWhatIsAhead(o, Reverse, idx, start, true);
    MatchesComeFirst(db, idx, start, s);
    KeepPrefixOfHead(p, out);
    DescendingInGroup(db, start, kept, s);
    forall e | e in kept ensures e in db.may && Wanted([start], 0, None, e) {
      assert e in s;
      assert Eligible([start][0], 0, None, e);
    }
    forall e | e in db.must && Wanted([start], 0, None, e) && e !in kept
      ensures |kept| == n && forall r :: r in kept ==> AtMost(RankOf(e), RankOf(r))
    {
      WantedSharePrefix([start], e);
      assert e.key == start || KeyLess(o, e.key, start);
      assert e in s;
      var i :| 0 <= i < |s| && s[i] == e;
      MissedIsOlder(db, start, s, n, out, i);
    }
  }

  lemma MatchesComeFirst(db: SubDb, idx: seq<Entry>, start: Key, s: seq<Entry>)
    requires db.Valid() && db.ord.ok(start.prefix) && start.ts == U64_MAX
    requires AllOk(db.ord, s) && Ordered(db.ord, Reverse, s)
    requires forall e :: e in s ==> Ahead(db.ord, Reverse, start, true, e.key)
    ensures forall i, j :: 0 <= i < j < |s| && s[j].key.prefix == start.prefix ==> s[i].key.prefix == start.prefix
  {
  }

  lemma DescendingInGroup(db: SubDb, start: Key, kept: seq<Entry>, s: seq<Entry>)
    requires db.Valid() && Ordered(db.ord, Reverse, s) && kept <= s
    requires forall e :: e in kept ==> e.key.prefix == start.prefix
    ensures Descending(kept)
  {
  }

  lemma MissedIsOlder(db: SubDb, start: Key, s: seq<Entry>, n: nat, out: seq<Entry>, i: nat)
    requires db.Valid() && Ordered(db.ord, Reverse, s) && i < |s| && s[i].key.prefix == start.prefix
    requires forall i, j :: 0 <= i < j < |s| && s[j].key.prefix == start.prefix ==> s[i].key.prefix == start.prefix
    requires out == (if n < |s| then s[..n] else s) && s[i] !in KeepPrefix(start.prefix, out)
    ensures |KeepPrefix(start.prefix, out)| == n
    ensures forall r :: r in KeepPrefix(start.prefix, out) ==> AtMost(RankOf(s[i]), RankOf(r))
  {
    AllKept(start.prefix, out);
    assert !db.ord.less(start.prefix, start.prefix);
    forall k | 0 <= k < n ensures AtMost(RankOf(s[i]), RankOf(s[k])) {
      assert Before(db.ord, Reverse, s[k], s[i]);
    }
  }

  /** The bounded reverse scan and the exact-key filter of one author. */
  method ScanNewest(db: SubDb, start: Key, n: nat) returns (matching: seq<Entry>)
    requires db.Valid() && db.ord.ok(start.prefix) && start.ts == U64_MAX && n >= 1
    modifies db.env
    ensures db.env.txns == old(db.env.txns) + 1 && IsMerge(db, [start], 0, None, n, matching)
    ensures forall e :: e in matching ==> e in db.history(old(db.env.txns))
  {
    ghost var idx := db.history(db.env.txns);
    var out := ScanBounded(db, Reverse, start, n);
    matching := KeepPrefix(start.prefix, out);
    ghost var s := RangeOf(db.ord, Reverse, idx, StartBound(Reverse, start, true));
    ScanMeetsTheNewest(db, idx, start, s, n, out);
    RangeIsOrdered(db.ord, Reverse, idx, StartBound(Reverse, start, true));
    assert forall e :: e in matching ==> e in s;
  }

  /** One bucket: bounded reverse scan, exact-key filter, batch hydration, expiry. */
  method AuthorBucket(db: SubDb, p: Payloads, pubkey: bytes, kind: u64, perAuthor: nat, now: u64)
    returns (r: Result<seq<Event>>, ghost newest: seq<Entry>)
    requires db.Valid() && db.env == p.env && db.ord == OrderOf(EventPubkeyKind) && |pubkey| == 32 && perAuthor >= 1
    modifies db.env
    ensures old(db.env.txns) <= db.env.txns && AreNewest(db, pubkey, kind, perAuthor, newest)
    ensures r.Ok? ==> IsBucket(p, now, newest, r.value)
    ensures r.Err? ==> Vanished(db, p, old(db.env.txns), db.env.txns, r.missing)
    ensures StaysStored(db, p) ==> r.Ok?
  {
    ghost var t := db.env.txns;
    var matching := ScanNewest(db, StartKey(pubkey, kind), perAuthor);
    newest := matching;
    NewestIsMerge(db, pubkey, kind, perAuthor, newest);
    if matching == [] {
      assert IsBucketOf(p, now, newest, [], []);
      return Ok([]), newest;
    }
    var levs := LevsOf(matching);
    var h := p.HydrateBatch(levs);
    if h.Err? {
      MissingAuthorEvent(db, p, t, matching, h.missing);
      return Err(h.missing), newest;
    }
    var evs;
    ghost var live;
    evs, live := DropExpired(h.value, now);
    SurvivorsAreTheBucket(p, now, newest, evs, live);
    r := Ok(evs);
  }

  lemma MissingAuthorEvent(db: SubDb, p: Payloads, t: nat, matching: seq<Entry>, missing: LevId)
    requires forall e :: e in matching ==> e in db.history(t)
    requires missing in LevsOf(matching) && missing !in p.stored(t + 1)
    ensures Vanished(db, p, t, t + 2, missing)
  {
    var i :| 0 <= i < |matching| && LevsOf(matching)[i] == missing;
    assert matching[i] in matching;
  }

  /** What an author's bucket must be, and that there is one exactly when it is not empty. */
  ghost predicate BucketOk(db: SubDb, p: Payloads, kind: u64, perAuthor: nat, now: u64, m: map<Text, seq<Event>>,
                           author: Text)
  {
    match Hex32(author)
    case None => author !in m
    case Some(pubkey) =>
      && (author in m ==> m[author] != [])
      && exists newest :: AreNewest(db, pubkey, kind, perAuthor, newest) &&
                          IsBucket(p, now, newest, if author in m then m[author] else [])
  }

  /**
   `latest_per_author`: each requested author's bucket is the live part of the newest entries of
   that author and kind; malformed authors and empty buckets are left out.
   */
  method LatestPerAuthor(db: SubDb, p: Payloads, kind: u64, perAuthor: nat, authors: seq<Text>, now: u64)
    returns (r: Result<map<Text, seq<Event>>>)
    requires db.Valid() && db.env == p.env && db.ord == OrderOf(EventPubkeyKind)
    modifies db.env
    ensures perAuthor == 0 ==> r == Ok(map[])
    ensures r.Ok? ==> forall a :: a in r.value ==> a in authors
    ensures r.Ok? && perAuthor > 0 ==> forall a :: a in authors ==> BucketOk(db, p, kind, perAuthor, now, r.value, a)
    ensures r.Err? ==> Vanished(db, p, old(db.env.txns), db.env.txns, r.missing)
    ensures StaysStored(db, p) ==> r.Ok?
  {
    if perAuthor == 0 {
      return Ok(map[]);
    }
    var m: map<Text, seq<Event>> := map[];
    ghost var from := db.env.txns;
    for i := 0 to |authors|
      invariant from <= db.env.txns && forall a :: a in m ==> a in authors[..i]
      invariant forall a :: a in authors[..i] ==> BucketOk(db, p, kind, perAuthor, now, m, a)
    {
      var a := authors[i];
      ghost var before := m;
      assert authors[..i + 1] == authors[..i] + [a];
      var pk := Hex32(a);
      if pk.Some? {
        var bucket;
        ghost var newest, mid := [], db.env.txns;
        bucket, newest := AuthorBucket(db, p, pk.value, kind, perAuthor, now);
        if bucket.Err? {
          VanishedInCall(db, p, from, mid, db.env.txns, bucket.missing);
          return Err(bucket.missing);
        }
        if bucket.value != [] {
          m := m[a := bucket.value];
        }
        AnotherAuthor(db, p, kind, perAuthor, now, before, m, a, pk.value, newest, bucket.value, authors[..i]);
      }
      forall b | b in authors[..i + 1] ensures BucketOk(db, p, kind, perAuthor, now, m, b) {
        assert b == a || b in authors[..i];
      }
    }
    assert authors[..|authors|] == authors;
    r := Ok(m);
  }

  lemma AnotherAuthor(db: SubDb, p: Payloads, kind: u64, perAuthor: nat, now: u64, before: map<Text, seq<Event>>,
                      after: map<Text, seq<Event>>, a: Text, pubkey: bytes, newest: seq<Entry>, evs: seq<Event>,
                      done: seq<Text>)
    requires Hex32(a) == Some(pubkey) && AreNewest(db, pubkey, kind, perAuthor, newest) && IsBucket(p, now, newest, evs)
    requires after == if evs == [] then before else before[a := evs]
    requires a in before ==> a in done
    requires forall b :: b in done ==> BucketOk(db, p, kind, perAuthor, now, before, b)
    ensures BucketOk(db, p, kind, perAuthor, now, after, a)
    ensures forall b :: b in done ==> BucketOk(db, p, kind, perAuthor, now, after, b)
  {
    if a in before && evs == [] {
      assert BucketOk(db, p, kind, perAuthor, now, before, a);
    } else {
      assert (if a in after then after[a] else []) == evs;
    }
  }
}
