/**
 The query engine: one page, and the walk over all pages.

 A page runs up to MAX_ROUNDS merges, each strictly below the previous one, drops
 what the filter does not accept after hydration, and returns a cursor. The page
 contract says exactly which ranks a page covers; the walk contract follows from it,
 whatever strfry writes in between.
 */
module Engine {
  import opened Bytes
  import opened Comparators
  import opened Scan
  import opened Merge
  import opened Router

  const MAX_ROUNDS: nat := 8

  datatype Row = Row(ts: u64, lev: LevId, event: Event)

  function RowRank(r: Row): (k: Rank)
  {
    Rank(r.ts, r.lev)
  }

  /** The only error of the read path: an index entry whose payload is gone. */
  datatype Result<+T> = Ok(value: T) | Err(missing: LevId)

  datatype Page = Page(rows: seq<Row>, next: Option<Rank>)

  // ---------------------------------------------------------------------------
  // Hydration
  // ---------------------------------------------------------------------------

  /**
   The EventPayload table of the environment. A levId always denotes the same event; whether it is
   stored can change between transactions, and a stored payload may fail to decode.
   */
  class Payloads {
    const env: Env
    const event: LevId -> Event
    const decodable: LevId -> bool
    const stored: nat -> set<LevId>

    constructor (env: Env, event: LevId -> Event, decodable: LevId -> bool, stored: nat -> set<LevId>)
      ensures this.env == env && this.event == event && this.decodable == decodable && this.stored == stored
    {
      this.env, this.event, this.decodable, this.stored := env, event, decodable, stored;
    }

    function Decoded(levs: seq<LevId>): (r: seq<(LevId, Event)>)
      ensures |r| <= |levs|
    {
      if levs == [] then []
      else if decodable(levs[0]) then [(levs[0], event(levs[0]))] + Decoded(levs[1..])
      else Decoded(levs[1..])
    }

    lemma {:induction false} DecodedPairs(levs: seq<LevId>)
      ensures forall x :: x in Decoded(levs) <==> x.0 in levs && decodable(x.0) && x.1 == event(x.0)
    {
      if levs != [] {
        DecodedPairs(levs[1..]);
        assert levs == [levs[0]] + levs[1..];
      }
    }

    lemma DecodeNext(levs: seq<LevId>, i: nat, out: seq<(LevId, Event)>)
      requires i < |levs| && Decoded(levs) == out + Decoded(levs[i..])
      ensures Decoded(levs) ==
              (if decodable(levs[i]) then out + [(levs[i], event(levs[i]))] else out) + Decoded(levs[i + 1..])
    {
    }

    /** The i-th levId is stored in the i-th transaction from `t` on. */
    ghost predicate InTime(levs: seq<LevId>, t: nat, i: nat)
    {
      i < |levs| && levs[i] in stored(t + i)
    }

    /**
     One transaction per levId: the surviving pairs in input order if every levId is stored when
     its turn comes; otherwise the first missing one is the error. Undecodable ones are skipped.
     */
    method Hydrate(levs: seq<LevId>) returns (r: Result<seq<(LevId, Event)>>, ghost at: nat)
      modifies env
      ensures r.Ok? ==> r.value == Decoded(levs) && env.txns == old(env.txns) + |levs|
      ensures r.Ok? ==> forall i :: 0 <= i < |levs| ==> InTime(levs, old(env.txns), i)
      ensures r.Err? ==> at < |levs| && r.missing == levs[at] && r.missing !in stored(old(env.txns) + at)
      ensures r.Err? ==> forall i :: 0 <= i < at ==> InTime(levs, old(env.txns), i)
      ensures r.Err? ==> env.txns == old(env.txns) + at + 1
    {
      var out: seq<(LevId, Event)> := [];
      at := 0;
      ghost var t := env.txns;
      assert levs[0..] == levs;
      for i := 0 to |levs|
        invariant env.txns == t + i
        invariant forall j :: 0 <= j < i ==> InTime(levs, t, j)
        invariant Decoded(levs) == out + Decoded(levs[i..])
      {
        var found := levs[i] in stored(env.txns);
        env.txns := env.txns + 1;
        if !found {
          return Err(levs[i]), i;
        }
        DecodeNext(levs, i, out);
        if decodable(levs[i]) {
          out := out + [(levs[i], event(levs[i]))];
        }
      }
      r := Ok(out);
    }

    /** The same in one transaction for the whole slice. */
    method HydrateBatch(levs: seq<LevId>) returns (r: Result<seq<(LevId, Event)>>)
      modifies env
      ensures env.txns == old(env.txns) + if levs == [] then 0 else 1
      ensures r.Ok? <==> forall lev :: lev in levs ==> lev in stored(old(env.txns))
      ensures r.Ok? ==> r.value == Decoded(levs)
      ensures r.Err? ==> r.missing in levs && r.missing !in stored(old(env.txns))
    {
      if levs == [] {
        return Ok([]);
      }
      ghost var t := env.txns;
      var snapshot := stored(env.txns);
      env.txns := env.txns + 1;
      var out := [];
      assert levs[0..] == levs;
      for i := 0 to |levs|
        invariant env.txns == t + 1 && forall j :: 0 <= j < i ==> levs[j] in snapshot
        invariant Decoded(levs) == out + Decoded(levs[i..])
      {
        if levs[i] !in snapshot {
          assert levs[i] in levs && levs[i] !in stored(t);
          return Err(levs[i]);
        }
        DecodeNext(levs, i, out);
        if decodable(levs[i]) {
          out := out + [(levs[i], event(levs[i]))];
        }
      }
      r := Ok(out);
    }
  }

  /**
   A levId that was in the index when one of the transactions `from`, ..., `to - 1` read it, and
   whose payload was gone in a later one.
   */
  ghost predicate Vanished(db: SubDb, p: Payloads, from: nat, to: nat, lev: LevId)
  {
    exists e, t: nat, t': nat :: from <= t <= t' < to && e in db.history(t) && e.lev == lev && lev !in p.stored(t')
  }

  /** No payload disappears once its event is indexed. New events may come in at any time. */
  ghost predicate StaysStored(db: SubDb, p: Payloads)
  {
    forall e, t: nat, t': nat :: t <= t' && e in db.history(t) ==> e.lev in p.stored(t')
  }

  method ToMap(p: Payloads, pairs: seq<(LevId, Event)>) returns (m: map<LevId, Event>)
    requires forall x :: x in pairs ==> x.1 == p.event(x.0)
    ensures forall lev :: lev in m <==> exists x :: x in pairs && x.0 == lev
    ensures forall lev :: lev in m ==> m[lev] == p.event(lev)
  {
    m := map[];
    for i := 0 to |pairs|
      invariant forall lev :: lev in m ==> m[lev] == p.event(lev) && exists x :: x in pairs && x.0 == lev
      invariant forall j :: 0 <= j < i ==> pairs[j].0 in m
    {
      assert pairs[i] in pairs;
      m := m[pairs[i].0 := pairs[i].1];
    }
  }

  // ---------------------------------------------------------------------------
  // What a query is after
  // ---------------------------------------------------------------------------

  /** The check on a decoded event, as a value: expiry and the residual filter. */
  ghost function Acceptance(f: NostrFilter, now: u64): (accept: Event -> bool)
  {
    ev => !Expired(ev, now) && Residual(f, ev)
  }

  /** The check as the source runs it: expiry first, then field by field. */
  method Accepts(f: NostrFilter, now: u64, ev: Event, ghost accept: Event -> bool) returns (ok: bool)
    requires accept == Acceptance(f, now)
    ensures ok == accept(ev)
  {
    var expired := IsExpired(ev, now);
    if expired {
      return false;
    }
    ok := PassesResidual(f, ev);
  }

  ghost predicate Match(p: Payloads, accept: Event -> bool, lev: LevId)
  {
    p.decodable(lev) && accept(p.event(lev))
  }

  /** The prefixes scanned, the levIds accepted after hydration, and the time range. */
  datatype Goal = Goal(prefixes: iset<bytes>, levs: iset<LevId>, since: u64, until: u64)

  ghost function Matching(p: Payloads, accept: Event -> bool): (levs: iset<LevId>)
  {
    iset lev: LevId | Match(p, accept, lev)
  }

  ghost function GoalOf(p: Payloads, f: NostrFilter, now: u64): (g: Goal)
  {
    Goal((iset b: bytes | AsksFor(f, SelectIndex(f), b)), Matching(p, Acceptance(f, now)), SinceOf(f), UntilOf(f))
  }

  function SinceOf(f: NostrFilter): (ts: u64)
  {
    match f.since case Some(ts) => ts case None => 0
  }

  function UntilOf(f: NostrFilter): (ts: u64)
  {
    match f.until case Some(ts) => ts case None => U64_MAX
  }

  /** Ranks still to be visited at a cursor; a cursor takes the place of `until`. */
  ghost predicate InScope(g: Goal, cursor: Option<Rank>, r: Rank)
  {
    g.since <= r.ts && if cursor.None? then r.ts <= g.until else Below(r, cursor.value)
  }

  ghost predicate Hit(g: Goal, e: Entry)
  {
    e.key.prefix in g.prefixes && e.lev in g.levs
  }

  ghost predicate Scanned(g: Goal, entries: set<Entry>, r: Rank)
  {
    exists e :: e in entries && e.key.prefix in g.prefixes && RankOf(e) == r
  }

  ghost predicate HasRow(rows: seq<Row>, r: Rank)
  {
    exists i :: 0 <= i < |rows| && RowRank(rows[i]) == r
  }

  ghost predicate NewestFirst(rows: seq<Row>)
  {
    forall i, j :: 0 <= i < j < |rows| ==> Below(RowRank(rows[j]), RowRank(rows[i]))
  }

  ghost predicate RowOk(db: SubDb, p: Payloads, g: Goal, cursor: Option<Rank>, row: Row)
  {
    && row.event == p.event(row.lev) && row.lev in g.levs
    && InScope(g, cursor, RowRank(row)) && Scanned(g, db.may, RowRank(row))
  }

  ghost predicate RowsOk(db: SubDb, p: Payloads, g: Goal, cursor: Option<Rank>, rows: seq<Row>)
  {
    NewestFirst(rows) && forall i :: 0 <= i < |rows| ==> RowOk(db, p, g, cursor, rows[i])
  }

  /**
   The contract of one page: accepted rows below the old cursor, newest first, and of the
   durable hits all down to and including the new cursor; all of them when there is no new
   cursor. A new cursor is a scanned rank below the old one.
   */
  ghost predicate IsPage(db: SubDb, p: Payloads, g: Goal, cursor: Option<Rank>, limit: nat, rows: seq<Row>,
                         next: Option<Rank>)
  {
    && |rows| <= limit && RowsOk(db, p, g, cursor, rows)
    && (next.Some? ==> InScope(g, cursor, next.value) && Scanned(g, db.may, next.value) &&
                       forall i :: 0 <= i < |rows| ==> AtMost(next.value, RowRank(rows[i])))
    && (forall e ::
          e in db.must && Hit(g, e) && InScope(g, cursor, RankOf(e)) &&
          (next.None? || AtMost(next.value, RankOf(e))) ==>
            HasRow(rows, RankOf(e)))
  }

  // ---------------------------------------------------------------------------
  // One round
  // ---------------------------------------------------------------------------

  /** The state between rounds: everything in scope at or above the boundary has been dealt with. */
  ghost predicate PageInv(db: SubDb, p: Payloads, g: Goal, cursor: Option<Rank>, boundary: Option<Rank>, rows: seq<Row>)
  {
    && RowsOk(db, p, g, cursor, rows)
    && (forall r: Rank :: InScope(g, boundary, r) ==> InScope(g, cursor, r))
    && (forall i :: 0 <= i < |rows| ==> boundary.Some? && AtMost(boundary.value, RowRank(rows[i])))
    && (boundary == cursor || (boundary.Some? && InScope(g, cursor, boundary.value) &&
                               Scanned(g, db.may, boundary.value)))
    && (forall e :: e in db.must && Hit(g, e) && InScope(g, cursor, RankOf(e)) && !InScope(g, boundary, RankOf(e)) ==>
                    HasRow(rows, RankOf(e)))
  }

  /** `g` is what the filter asks of this index. */
  ghost predicate IsGoal(p: Payloads, f: NostrFilter, accept: Event -> bool, g: Goal)
  {
    && (forall b :: b in g.prefixes <==> AsksFor(f, SelectIndex(f), b))
    && g.levs == Matching(p, accept) && g.since == SinceOf(f) && g.until == UntilOf(f)
  }

  ghost predicate StartsFor(g: Goal, boundary: Option<Rank>, starts: seq<Key>)
  {
    forall k ::
      k in starts <==> k.ts == (if boundary.None? then g.until else boundary.value.ts) && k.prefix in g.prefixes
  }

  /** A round's merge is asked for exactly the scanned ranks in scope at its boundary. */
  lemma WantedIsInScope(g: Goal, boundary: Option<Rank>, starts: seq<Key>, e: Entry)
    requires StartsFor(g, boundary, starts)
    ensures Wanted(starts, g.since, boundary, e) <==> e.key.prefix in g.prefixes && InScope(g, boundary, RankOf(e))
  {
    var ts := if boundary.None? then g.until else boundary.value.ts;
    if Wanted(starts, g.since, boundary, e) {
      var i :| 0 <= i < |starts| && Eligible(starts[i], g.since, boundary, e);
      assert starts[i] in starts;
    }
    if e.key.prefix in g.prefixes && InScope(g, boundary, RankOf(e)) {
      assert Key(e.key.prefix, ts) in starts;
      var i :| 0 <= i < |starts| && starts[i] == Key(e.key.prefix, ts);
      assert Eligible(starts[i], g.since, boundary, e);
    }
  }

  /** A round's merge, in the engine's terms. */
  ghost predicate IsRound(db: SubDb, g: Goal, boundary: Option<Rank>, emitLimit: nat, batch: seq<Entry>)
  {
    && |batch| <= emitLimit && Descending(batch)
    && (forall i :: 0 <= i < |batch| ==>
          batch[i] in db.may && batch[i].key.prefix in g.prefixes && InScope(g, boundary, RankOf(batch[i])))
    && (forall e :: e in db.must && e.key.prefix in g.prefixes && InScope(g, boundary, RankOf(e)) ==>
                    e in batch ||
                    (|batch| == emitLimit && forall i :: 0 <= i < |batch| ==> AtMost(RankOf(e), RankOf(batch[i]))))
  }

  lemma MergeIsRound(db: SubDb, g: Goal, boundary: Option<Rank>, starts: seq<Key>, emitLimit: nat, batch: seq<Entry>)
    requires StartsFor(g, boundary, starts) && IsMerge(db, starts, g.since, boundary, emitLimit, batch)
    ensures IsRound(db, g, boundary, emitLimit, batch)
  {
    forall i | 0 <= i < |batch|
      ensures batch[i] in db.may && batch[i].key.prefix in g.prefixes && InScope(g, boundary, RankOf(batch[i]))
    {
      assert batch[i] in batch;
      WantedIsInScope(g, boundary, starts, batch[i]);
    }
    forall e | e in db.must && e.key.prefix in g.prefixes && InScope(g, boundary, RankOf(e)) && e !in batch
      ensures |batch| == emitLimit && forall i :: 0 <= i < |batch| ==> AtMost(RankOf(e), RankOf(batch[i]))
    {
      WantedIsInScope(g, boundary, starts, e);
    }
  }

  /** At or above a boundary: emitted before. */
  predicate IsAbove(boundary: Option<Rank>, e: Entry)
  {
    boundary.Some? &&
    (e.key.ts > boundary.value.ts || (e.key.ts == boundary.value.ts && e.lev >= boundary.value.lev))
  }

  /** Cursor exclusion: what is left is strictly below the boundary. */
  function ExcludeAbove(boundary: Option<Rank>, batch: seq<Entry>): (r: seq<Entry>)
    ensures |r| <= |batch|
    ensures forall e :: e in r <==> e in batch && (boundary.None? || Below(RankOf(e), boundary.value))
  {
    if batch == [] then []
    else if IsAbove(boundary, batch[0]) then ExcludeAbove(boundary, batch[1..])
    else [batch[0]] + ExcludeAbove(boundary, batch[1..])
  }

  /** The floor has already excluded them. */
  lemma {:induction false} ExclusionIsRedundant(g: Goal, boundary: Option<Rank>, batch: seq<Entry>)
    requires forall i :: 0 <= i < |batch| ==> InScope(g, boundary, RankOf(batch[i]))
    ensures ExcludeAbove(boundary, batch) == batch
  {
    if batch != [] {
      ExclusionIsRedundant(g, boundary, batch[1..]);
      assert batch == [batch[0]] + batch[1..];
    }
  }

  /** A row for each accepted rank among the first `m` entries of a batch, and no other row. */
  ghost predicate IsPick(p: Payloads, g: Goal, batch: seq<Entry>, m: nat, rows: seq<Row>)
    requires m <= |batch|
  {
    && (forall k :: 0 <= k < |rows| ==>
          rows[k].event == p.event(rows[k].lev) && rows[k].lev in g.levs && FromBatch(batch, m, RowRank(rows[k])))
    && (forall i :: 0 <= i < m && batch[i].lev in g.levs ==> HasRow(rows, RankOf(batch[i])))
  }

  /** The new rows of a round, in order. */
  ghost predicate IsHarvest(p: Payloads, g: Goal, batch: seq<Entry>, m: nat, rows: seq<Row>)
    requires m <= |batch|
  {
    NewestFirst(rows) && IsPick(p, g, batch, m, rows)
  }

  ghost predicate FromBatch(batch: seq<Entry>, m: nat, r: Rank)
  {
    exists i :: 0 <= i < m && i < |batch| && RankOf(batch[i]) == r
  }

  /** In a descending batch with one timestamp per levId, a new levId ranks below all before it. */
  lemma NewLevIsBelow(batch: seq<Entry>, j: nat, r: Rank)
    requires Descending(batch) && j < |batch| && FromBatch(batch, j, r) && r.lev != batch[j].lev
    ensures Below(RankOf(batch[j]), r)
  {
  }

  /**
   The filtering loop of a round. Each levId is taken out of the hydrated map when it is first
   met, so an event found through several tag streams yields one row.
   */
  method Harvest(p: Payloads, f: NostrFilter, now: u64, room: nat, batch: seq<Entry>, hydrated: map<LevId, Event>,
                 ghost g: Goal, ghost accept: Event -> bool)
    returns (rows: seq<Row>, ghost m: nat)
    requires room >= 1 && accept == Acceptance(f, now) && g.levs == Matching(p, accept)
    requires forall i :: 0 <= i < |batch| ==> batch[i].key.ts == p.event(batch[i].lev).createdAt
    requires forall lev :: lev in hydrated ==> p.decodable(lev) && hydrated[lev] == p.event(lev)
    requires forall i :: 0 <= i < |batch| && p.decodable(batch[i].lev) ==> batch[i].lev in hydrated
    ensures |rows| <= room && m <= |batch| && (m < |batch| ==> |rows| == room)
    ensures IsPick(p, g, batch, m, rows) && (Descending(batch) ==> IsHarvest(p, g, batch, m, rows))
    ensures Descending(batch) && |rows| == room ==>
              forall i :: m <= i < |batch| ==> AtMost(RankOf(batch[i]), RowRank(rows[|rows| - 1]))
  {
    rows := [];
    var left: map<LevId, Event> := hydrated;
    for j := 0 to |batch|
      invariant |rows| <= room && IsLeft(batch, hydrated, j, left)
      invariant IsPick(p, g, batch, j, rows) && (Descending(batch) ==> NewestFirst(rows))
    {
      if |rows| >= room {
        m := j;
        if Descending(batch) {
          LastRowBoundsTheRest(p, g, batch, j, rows);
        }
        return;
      }
      var ok := false;
      if batch[j].lev in left {
        ok := Accepts(f, now, left[batch[j].lev], accept);
      }
      rows, left := HarvestOne(p, batch, j, left, rows, ok, hydrated, g, accept);
    }
    m := |batch|;
  }

  /** What is left of the hydrated map after the first `j` entries of the batch. */
  ghost predicate IsLeft(batch: seq<Entry>, hydrated: map<LevId, Event>, j: nat, left: map<LevId, Event>)
    requires j <= |batch|
  {
    && (forall lev :: lev in left ==> lev in hydrated && left[lev] == hydrated[lev])
    && (forall i :: 0 <= i < j ==> batch[i].lev !in left)
    && (forall lev :: lev in hydrated && lev !in left ==> exists i :: 0 <= i < j && batch[i].lev == lev)
  }

  /** One entry of the batch: it is taken if it is met for the first time, decoded, and accepted. */
  method HarvestOne(p: Payloads, batch: seq<Entry>, j: nat, left: map<LevId, Event>, rows: seq<Row>, ok: bool,
                    ghost hydrated: map<LevId, Event>, ghost g: Goal, ghost accept: Event -> bool)
    returns (rows': seq<Row>, left': map<LevId, Event>)
    requires j < |batch| && g.levs == Matching(p, accept)
    requires batch[j].lev in left ==> ok == accept(left[batch[j].lev])
    requires forall i :: 0 <= i < |batch| ==> batch[i].key.ts == p.event(batch[i].lev).createdAt
    requires forall lev :: lev in hydrated ==> p.decodable(lev) && hydrated[lev] == p.event(lev)
    requires forall i :: 0 <= i < |batch| && p.decodable(batch[i].lev) ==> batch[i].lev in hydrated
    requires IsLeft(batch, hydrated, j, left)
    requires IsPick(p, g, batch, j, rows) && (Descending(batch) ==> NewestFirst(rows))
    ensures IsLeft(batch, hydrated, j + 1, left') && |rows'| <= |rows| + 1
    ensures IsPick(p, g, batch, j + 1, rows') && (Descending(batch) ==> NewestFirst(rows'))
  {
    var e := batch[j];
    rows', left' := rows, left;
    if e.lev in left {
      var ev := left[e.lev];
      left' := left - {e.lev};
      assert ok <==> Match(p, accept, e.lev);
      if ok {
        HarvestTakes(p, g, batch, j, rows);
        rows' := rows + [Row(e.key.ts, e.lev, ev)];
        return;
      }
    }
    HarvestSkips(p, g, batch, j, rows);
  }

  lemma LastRowBoundsTheRest(p: Payloads, g: Goal, batch: seq<Entry>, m: nat, rows: seq<Row>)
    requires Descending(batch) && m <= |batch| && IsHarvest(p, g, batch, m, rows) && rows != []
    ensures forall i :: m <= i < |batch| ==> AtMost(RankOf(batch[i]), RowRank(rows[|rows| - 1]))
  {
  }

  lemma FromLongerBatch(batch: seq<Entry>, j: nat, rows: seq<Row>)
    requires j < |batch| && forall k :: 0 <= k < |rows| ==> FromBatch(batch, j, RowRank(rows[k]))
    ensures forall k :: 0 <= k < |rows| ==> FromBatch(batch, j + 1, RowRank(rows[k]))
  {
  }

  lemma HarvestTakes(p: Payloads, g: Goal, batch: seq<Entry>, j: nat, rows: seq<Row>)
    requires j < |batch| && IsPick(p, g, batch, j, rows)
    requires batch[j].lev in g.levs && forall i :: 0 <= i < j ==> batch[i].lev != batch[j].lev
    ensures
      var after := rows + [Row(batch[j].key.ts, batch[j].lev, p.event(batch[j].lev))];
      IsPick(p, g, batch, j + 1, after) && (Descending(batch) && NewestFirst(rows) ==> NewestFirst(after))
  {
    var e := batch[j];
    var after := rows + [Row(e.key.ts, e.lev, p.event(e.lev))];
    FromLongerBatch(batch, j, rows);
    assert FromBatch(batch, j + 1, RankOf(e));
    if Descending(batch) {
      forall k | 0 <= k < |rows| ensures Below(RankOf(e), RowRank(rows[k])) {
        assert FromBatch(batch, j, RowRank(rows[k]));
        NewLevIsBelow(batch, j, RowRank(rows[k]));
      }
    }
    forall i | 0 <= i <= j && batch[i].lev in g.levs ensures HasRow(after, RankOf(batch[i])) {
      if i < j {
        var k :| 0 <= k < |rows| && RowRank(rows[k]) == RankOf(batch[i]);
        assert RowRank(after[k]) == RankOf(batch[i]);
      } else {
        assert RowRank(after[|rows|]) == RankOf(e);
      }
    }
  }

  lemma HarvestSkips(p: Payloads, g: Goal, batch: seq<Entry>, j: nat, rows: seq<Row>)
    requires j < |batch| && IsPick(p, g, batch, j, rows)
    requires forall i :: 0 <= i < |batch| ==> batch[i].key.ts == p.event(batch[i].lev).createdAt
    requires batch[j].lev !in g.levs || exists i :: 0 <= i < j && batch[i].lev == batch[j].lev
    ensures IsPick(p, g, batch, j + 1, rows)
  {
  }

  // ---------------------------------------------------------------------------
  // What a round achieves
  // ---------------------------------------------------------------------------

  lemma HasRowInSum(a: seq<Row>, b: seq<Row>, r: Rank)
    requires HasRow(a, r) || HasRow(b, r)
    ensures HasRow(a + b, r)
  {
    if HasRow(a, r) {
      var i :| 0 <= i < |a| && RowRank(a[i]) == r;
      assert RowRank((a + b)[i]) == r;
    } else {
      var i :| 0 <= i < |b| && RowRank(b[i]) == r;
      assert RowRank((a + b)[|a| + i]) == r;
    }
  }

  /** The rows of a round continue the rows before it. */
  lemma HarvestExtends(db: SubDb, p: Payloads, g: Goal, cursor: Option<Rank>, boundary: Option<Rank>, rows: seq<Row>,
                       emitLimit: nat, batch: seq<Entry>, m: nat, added: seq<Row>)
    requires PageInv(db, p, g, cursor, boundary, rows) && IsRound(db, g, boundary, emitLimit, batch)
    requires m <= |batch| && IsHarvest(p, g, batch, m, added)
    ensures RowsOk(db, p, g, cursor, rows + added)
  {
  }

  /** Durable hits of a round: accepted so far, found in this batch, or not above any of it. */
  lemma HitsOfRound(db: SubDb, p: Payloads, g: Goal, cursor: Option<Rank>, boundary: Option<Rank>, rows: seq<Row>,
                    emitLimit: nat, batch: seq<Entry>, m: nat, added: seq<Row>, e: Entry)
    requires PageInv(db, p, g, cursor, boundary, rows) && IsRound(db, g, boundary, emitLimit, batch)
    requires m <= |batch| && IsHarvest(p, g, batch, m, added)
    requires e in db.must && Hit(g, e) && InScope(g, cursor, RankOf(e))
    ensures HasRow(rows + added, RankOf(e)) ||
            (exists i :: m <= i < |batch| && batch[i] == e) ||
            (|batch| == emitLimit && forall i :: 0 <= i < |batch| ==> AtMost(RankOf(e), RankOf(batch[i])))
  {
    if !InScope(g, boundary, RankOf(e)) {
      HasRowInSum(rows, added, RankOf(e));
    } else if e in batch {
      var i :| 0 <= i < |batch| && batch[i] == e;
      if i < m {
        HasRowInSum(rows, added, RankOf(e));
      }
    }
  }

  lemma RoundLeavesBoundary(db: SubDb, p: Payloads, g: Goal, cursor: Option<Rank>, boundary: Option<Rank>,
                            rows: seq<Row>, emitLimit: nat, batch: seq<Entry>, added: seq<Row>)
    requires PageInv(db, p, g, cursor, boundary, rows) && IsRound(db, g, boundary, emitLimit, batch)
    requires batch != [] && IsHarvest(p, g, batch, |batch|, added)
    ensures
      var last := RankOf(batch[|batch| - 1]);
      PageInv(db, p, g, cursor, Some(last), rows + added) && Some(last) != boundary && Scanned(g, db.may, last)
  {
    var z := batch[|batch| - 1];
    var last := RankOf(z);
    HarvestExtends(db, p, g, cursor, boundary, rows, emitLimit, batch, |batch|, added);
    assert InScope(g, boundary, last) && InScope(g, cursor, last) && Scanned(g, db.may, last);
    forall k | 0 <= k < |added| ensures AtMost(last, RowRank(added[k])) {
      var i :| 0 <= i < |batch| && RankOf(batch[i]) == RowRank(added[k]);
      assert i == |batch| - 1 || AtMost(RankOf(batch[|batch| - 1]), RankOf(batch[i]));
    }
    forall e | e in db.must && Hit(g, e) && InScope(g, cursor, RankOf(e)) && !InScope(g, Some(last), RankOf(e))
      ensures HasRow(rows + added, RankOf(e))
    {
      HitsOfRound(db, p, g, cursor, boundary, rows, emitLimit, batch, |batch|, added, e);
      if !HasRow(rows + added, RankOf(e)) {
        assert AtMost(RankOf(e), last);
        assert RankOf(e) == last && z.lev in g.levs;
        HasRowInSum(rows, added, last);
        assert false;
      }
    }
  }

  lemma RoundExhausts(db: SubDb, p: Payloads, g: Goal, cursor: Option<Rank>, boundary: Option<Rank>, rows: seq<Row>,
                      emitLimit: nat, batch: seq<Entry>, added: seq<Row>, limit: nat)
    requires PageInv(db, p, g, cursor, boundary, rows) && IsRound(db, g, boundary, emitLimit, batch)
    requires |batch| < emitLimit && IsHarvest(p, g, batch, |batch|, added) && |rows + added| <= limit
    ensures IsPage(db, p, g, cursor, limit, rows + added, None)
  {
    HarvestExtends(db, p, g, cursor, boundary, rows, emitLimit, batch, |batch|, added);
    forall e | e in db.must && Hit(g, e) && InScope(g, cursor, RankOf(e)) ensures HasRow(rows + added, RankOf(e)) {
      HitsOfRound(db, p, g, cursor, boundary, rows, emitLimit, batch, |batch|, added, e);
    }
  }

  lemma RoundFillsPage(db: SubDb, p: Payloads, g: Goal, cursor: Option<Rank>, boundary: Option<Rank>, rows: seq<Row>,
                       emitLimit: nat, batch: seq<Entry>, m: nat, added: seq<Row>)
    requires PageInv(db, p, g, cursor, boundary, rows) && IsRound(db, g, boundary, emitLimit, batch)
    requires m <= |batch| && IsHarvest(p, g, batch, m, added) && added != []
    requires forall i :: m <= i < |batch| ==> AtMost(RankOf(batch[i]), RowRank(added[|added| - 1]))
    ensures IsPage(db, p, g, cursor, |rows + added|, rows + added, Some(RowRank(added[|added| - 1])))
  {
    var c := RowRank(added[|added| - 1]);
    HarvestExtends(db, p, g, cursor, boundary, rows, emitLimit, batch, m, added);
    assert (rows + added)[|rows + added| - 1] == added[|added| - 1];
    assert FromBatch(batch, m, c);
    forall e | e in db.must && Hit(g, e) && InScope(g, cursor, RankOf(e)) && AtMost(c, RankOf(e))
      ensures HasRow(rows + added, RankOf(e))
    {
      HitsOfRound(db, p, g, cursor, boundary, rows, emitLimit, batch, m, added, e);
      assert AtMost(RankOf(e), c) ==> RankOf(e) == c;
      assert HasRow(added, c);
      HasRowInSum(rows, added, c);
    }
  }

  // ---------------------------------------------------------------------------
  // execute_query
  // ---------------------------------------------------------------------------

  function LimitOf(f: NostrFilter): (n: nat)
    ensures n >= 1
  {
    if f.limit == 0 then DEFAULT_WINDOW_SIZE else f.limit
  }

  function SaturatingAdd(a: nat, b: nat): (c: nat)
  {
    if a + b > U64_MAX then U64_MAX else a + b
  }

  function EmitLimit(limit: nat): (n: nat)
    requires limit >= 1
    ensures 1 <= n <= 2 * limit + DEFAULT_WINDOW_SIZE
  {
    SaturatingAdd(SaturatingAdd(limit, DEFAULT_WINDOW_SIZE), limit)
  }

  /**
   The index is the one the filter selects, in one environment with the payloads, and its keys tell
   the events' timestamps.
   */
  ghost predicate Serves(db: SubDb, p: Payloads, f: NostrFilter)
  {
    && db.Valid() && db.env == p.env && db.ord == OrderOf(SelectIndex(f))
    && (forall e :: e in db.may ==> e.key.ts == p.event(e.lev).createdAt)
  }

  /** No stored key is an alias of a prefix the filter asks for. */
  ghost predicate Clean(db: SubDb, f: NostrFilter)
  {
    forall b :: AsksFor(f, SelectIndex(f), b) ==> NoAlias(db, b)
  }

  /** The five fixed-width indexes are always clean. */
  lemma FixedWidthIsClean(db: SubDb, f: NostrFilter)
    requires db.Valid() && db.ord == OrderOf(SelectIndex(f)) && !SelectIndex(f).EventTag?
    ensures Clean(db, f)
  {
    forall b | AsksFor(f, SelectIndex(f), b) ensures NoAlias(db, b) {
      AskedPrefixesAreOk(f, SelectIndex(f), b);
      FixedWidthHasNoAlias(db, SelectIndex(f), b);
    }
  }

  /** Hydrate a batch and keep what the filter accepts. */
  method HydrateAndHarvest(p: Payloads, f: NostrFilter, now: u64, room: nat, batch: seq<Entry>, ghost g: Goal,
                           ghost accept: Event -> bool)
    returns (r: Result<seq<Row>>, ghost m: nat)
    requires room >= 1 && accept == Acceptance(f, now) && g.levs == Matching(p, accept)
    requires forall i :: 0 <= i < |batch| ==> batch[i].key.ts == p.event(batch[i].lev).createdAt
    modifies p.env
    ensures old(p.env.txns) <= p.env.txns
    ensures r.Err? ==> exists i, t: nat :: 0 <= i < |batch| && r.missing == batch[i].lev &&
                                           old(p.env.txns) <= t < p.env.txns && batch[i].lev !in p.stored(t)
    ensures r.Ok? ==>
              && |r.value| <= room && m <= |batch| && (m < |batch| ==> |r.value| == room)
              && IsPick(p, g, batch, m, r.value) && (Descending(batch) ==> IsHarvest(p, g, batch, m, r.value))
              && (Descending(batch) && |r.value| == room ==>
                    forall i :: m <= i < |batch| ==> AtMost(RankOf(batch[i]), RowRank(r.value[|r.value| - 1])))
  {
    m := 0;
    if batch == [] {
      return Ok([]), 0;
    }
    ghost var t := p.env.txns;
    var levs := seq(|batch|, i requires 0 <= i < |batch| => batch[i].lev);
    var h;
    ghost var at;
    h, at := p.Hydrate(levs);
    if h.Err? {
      assert batch[at].lev !in p.stored(t + at);
      return Err(h.missing), 0;
    }
    p.DecodedPairs(levs);
    var hydrated := ToMap(p, h.value);
    forall i | 0 <= i < |batch| && p.decodable(batch[i].lev) ensures batch[i].lev in hydrated {
      assert levs[i] in levs;
      assert (batch[i].lev, p.event(batch[i].lev)) in h.value;
    }
    var rows;
    rows, m := Harvest(p, f, now, room, batch, hydrated, g, accept);
    r := Ok(rows);
  }

  datatype Round = Round(rows: seq<Row>, exhausted: bool, last: Option<Rank>)

  ghost predicate IsRoundOutcome(db: SubDb, p: Payloads, g: Goal, cursor: Option<Rank>, boundary: Option<Rank>,
                                 limit: nat, o: Round)
  {
    && |o.rows| <= limit
    && (|o.rows| == limit ==>
          o.rows != [] && IsPage(db, p, g, cursor, limit, o.rows, Some(RowRank(o.rows[|o.rows| - 1]))))
    && (|o.rows| < limit && o.exhausted ==> IsPage(db, p, g, cursor, limit, o.rows, None))
    && (|o.rows| < limit && !o.exhausted ==>
          o.last.Some? && o.last != boundary && InScope(g, cursor, o.last.value) &&
          Scanned(g, db.may, o.last.value) && PageInv(db, p, g, cursor, o.last, o.rows))
  }

  lemma RoundOutcome(db: SubDb, p: Payloads, g: Goal, cursor: Option<Rank>, boundary: Option<Rank>, rows: seq<Row>,
                     emitLimit: nat, batch: seq<Entry>, m: nat, added: seq<Row>, limit: nat)
    requires PageInv(db, p, g, cursor, boundary, rows) && IsRound(db, g, boundary, emitLimit, batch)
    requires emitLimit >= 1 && |rows| < limit && |added| <= limit - |rows|
    requires m <= |batch| && IsHarvest(p, g, batch, m, added) && (m < |batch| ==> |added| == limit - |rows|)
    requires |added| == limit - |rows| ==>
               forall i :: m <= i < |batch| ==> AtMost(RankOf(batch[i]), RowRank(added[|added| - 1]))
    ensures IsRoundOutcome(db, p, g, cursor, boundary, limit,
                           Round(rows + added, |batch| < emitLimit,
                                 if batch == [] then None else Some(RankOf(batch[|batch| - 1]))))
  {
    if |rows + added| == limit {
      RoundFillsPage(db, p, g, cursor, boundary, rows, emitLimit, batch, m, added);
      assert (rows + added)[|rows + added| - 1] == added[|added| - 1];
    } else if |batch| < emitLimit {
      RoundExhausts(db, p, g, cursor, boundary, rows, emitLimit, batch, added, limit);
    } else {
      RoundLeavesBoundary(db, p, g, cursor, boundary, rows, emitLimit, batch, added);
      assert InScope(g, boundary, RankOf(batch[|batch| - 1]));
    }
  }

  /**
   What every row is, whatever is stored: an accepted event, read in the index during the call, not
   older than `since`.
   */
  ghost predicate RowSound(db: SubDb, p: Payloads, g: Goal, from: nat, to: nat, row: Row)
  {
    && row.event == p.event(row.lev) && row.lev in g.levs && g.since <= row.ts
    && exists e :: Seen(db, from, to, e) && RankOf(e) == RowRank(row)
  }

  ghost predicate RowsSound(db: SubDb, p: Payloads, g: Goal, from: nat, to: nat, rows: seq<Row>)
  {
    forall i :: 0 <= i < |rows| ==> RowSound(db, p, g, from, to, rows[i])
  }

  lemma RowsStaySound(db: SubDb, p: Payloads, g: Goal, from: nat, to: nat, to': nat, rows: seq<Row>)
    requires RowsSound(db, p, g, from, to, rows) && to <= to'
    ensures RowsSound(db, p, g, from, to', rows)
  {
  }

  /** Rows picked from what a merge has delivered. */
  lemma PickIsSound(db: SubDb, p: Payloads, g: Goal, starts: seq<Key>, floor: Option<Rank>, from: nat, to: nat,
                    batch: seq<Entry>, m: nat, rows: seq<Row>)
    requires forall e :: e in batch ==> Delivered(db, starts, g.since, floor, from, to, e)
    requires m <= |batch| && IsPick(p, g, batch, m, rows)
    ensures RowsSound(db, p, g, from, to, rows)
  {
    forall k | 0 <= k < |rows| ensures RowSound(db, p, g, from, to, rows[k]) {
      var i :| 0 <= i < m && RankOf(batch[i]) == RowRank(rows[k]);
      assert batch[i] in batch;
    }
  }

  /**
   The first round of a page: a single stream on a still index comes out as it is, and what the filter
   accepts of it, and the cursor does not exclude, is on the page unless the page is full.
   */
  ghost predicate IsFirstRound(db: SubDb, g: Goal, cursor: Option<Rank>, n: nat, emitLimit: nat, limit: nat,
                               batch: seq<Entry>, rows: seq<Row>)
  {
    && (exists starts :: StartsOk(db, starts) && StartsFor(g, cursor, starts) &&
                         IsSingleStream(db, starts, n, g.since, cursor, emitLimit, batch))
    && (|rows| < limit ==>
          forall e :: e in batch && e.lev in g.levs && !IsAbove(cursor, e) ==> HasRow(rows, RankOf(e)))
  }

  /** What is picked completely has a row for every accepted entry. */
  lemma PickIsComplete(p: Payloads, g: Goal, batch: seq<Entry>, rows: seq<Row>, added: seq<Row>, e: Entry)
    requires IsPick(p, g, batch, |batch|, added) && e in batch && e.lev in g.levs
    ensures HasRow(rows + added, RankOf(e))
  {
    var i :| 0 <= i < |batch| && batch[i] == e;
    HasRowInSum(rows, added, RankOf(e));
  }

  /** One round below `boundary`, given its start keys. */
  method RunRound(db: SubDb, p: Payloads, f: NostrFilter, now: u64, starts: seq<Key>, batchSize: nat, emitLimit: nat,
                  limit: nat, boundary: Option<Rank>, rows: seq<Row>, since: u64, ghost g: Goal,
                  ghost cursor: Option<Rank>, ghost from: nat, ghost clean: bool, ghost accept: Event -> bool)
    returns (r: Result<Round>, ghost batch: seq<Entry>, ghost hydrated: nat)
    requires db.Valid() && db.env == p.env && StartsOk(db, starts) && batchSize >= 1 && emitLimit >= 1
    requires StartsFor(g, boundary, starts) && since == g.since
    requires accept == Acceptance(f, now) && g.levs == Matching(p, accept)
    requires forall e :: e in db.may ==> e.key.ts == p.event(e.lev).createdAt
    requires |rows| < limit && from <= db.env.txns && RowsSound(db, p, g, from, db.env.txns, rows)
    requires clean ==> AliasFree(db, starts) && PageInv(db, p, g, cursor, boundary, rows)
    modifies db.env
    ensures old(db.env.txns) <= db.env.txns
    ensures r.Err? ==> Vanished(db, p, old(db.env.txns), db.env.txns, r.missing)
    ensures r.Ok? ==> RowsSound(db, p, g, from, db.env.txns, r.value.rows) && IsRoundShape(r.value, rows, limit)
    ensures r.Ok? ==> IsFirstRound(db, g, boundary, batchSize, emitLimit, limit, batch, r.value.rows)
    ensures r.Ok? && clean ==> IsRoundOutcome(db, p, g, cursor, boundary, limit, r.value)
    ensures hydrated <= emitLimit && (r.Ok? && clean && !r.value.exhausted ==> hydrated == emitLimit)
  {
    ghost var t0 := db.env.txns;
    var merged := MergeWindowed(db, starts, batchSize, emitLimit, since, boundary);
    ghost var t1 := db.env.txns;
    batch := merged;
    DeliveredKeepsTime(db, p, starts, since, boundary, t0, t1, merged);
    var exhausted := |merged| < emitLimit;
    var last := if merged == [] then None else Some(RankOf(merged[|merged| - 1]));
    var filtered := ExcludeAbove(boundary, merged);
    hydrated := |filtered|;
    forall i | 0 <= i < |filtered| ensures filtered[i].key.ts == p.event(filtered[i].lev).createdAt {
      assert filtered[i] in filtered;
    }
    var added;
    ghost var m;
    added, m := HydrateAndHarvest(p, f, now, limit - |rows|, filtered, g, accept);
    if added.Err? {
      MissingHasVanished(db, p, starts, since, boundary, t0, t1, db.env.txns, filtered, added.missing);
      return Err(added.missing), batch, hydrated;
    }
    r := Ok(Round(rows + added.value, exhausted, last));
    RoundIsSound(db, p, g, starts, boundary, from, t0, t1, db.env.txns, filtered, m, rows, added.value);
    RoundIsFirst(db, p, g, boundary, starts, batchSize, emitLimit, limit, merged, m, rows, added.value);
    if clean {
      MergeIsRound(db, g, boundary, starts, emitLimit, merged);
      ExclusionIsRedundant(g, boundary, merged);
      RoundOutcome(db, p, g, cursor, boundary, rows, emitLimit, merged, m, added.value, limit);
    }
  }

  /** A round keeps the rows before it, and if it goes on it has a last entry to go on from. */
  ghost predicate IsRoundShape(o: Round, rows: seq<Row>, limit: nat)
  {
    rows <= o.rows && |o.rows| <= limit && (o.exhausted || o.last.Some?)
  }

  /** In every delivered entry the key tells the event's timestamp. */
  lemma DeliveredKeepsTime(db: SubDb, p: Payloads, starts: seq<Key>, since: u64, floor: Option<Rank>, from: nat,
                           to: nat, batch: seq<Entry>)
    requires db.Valid() && forall e :: e in db.may ==> e.key.ts == p.event(e.lev).createdAt
    requires forall e :: e in batch ==> Delivered(db, starts, since, floor, from, to, e)
    ensures forall e :: e in batch ==> e.key.ts == p.event(e.lev).createdAt
  {
  }

  lemma MissingHasVanished(db: SubDb, p: Payloads, starts: seq<Key>, since: u64, floor: Option<Rank>, t0: nat, t1: nat,
                           t2: nat, batch: seq<Entry>, missing: LevId)
    requires forall e :: e in batch ==> Delivered(db, starts, since, floor, t0, t1, e)
    requires exists i, t: nat ::
               0 <= i < |batch| && missing == batch[i].lev && t1 <= t < t2 && batch[i].lev !in p.stored(t)
    ensures Vanished(db, p, t0, t2, missing)
  {
    var i, t': nat :| 0 <= i < |batch| && missing == batch[i].lev && t1 <= t' < t2 && batch[i].lev !in p.stored(t');
    assert batch[i] in batch;
    var t: nat :| t0 <= t < t1 && batch[i] in db.history(t);
  }

  lemma RoundIsSound(db: SubDb, p: Payloads, g: Goal, starts: seq<Key>, floor: Option<Rank>, from: nat, t0: nat,
                     t1: nat, t2: nat, batch: seq<Entry>, m: nat, rows: seq<Row>, added: seq<Row>)
    requires from <= t0 <= t1 <= t2 && RowsSound(db, p, g, from, t0, rows)
    requires forall e :: e in batch ==> Delivered(db, starts, g.since, floor, t0, t1, e)
    requires m <= |batch| && IsPick(p, g, batch, m, added)
    ensures RowsSound(db, p, g, from, t2, rows + added)
  {
    RowsStaySound(db, p, g, from, t0, t2, rows);
    PickIsSound(db, p, g, starts, floor, t0, t1, batch, m, added);
    forall i | 0 <= i < |added| ensures RowSound(db, p, g, from, t2, added[i]) {
      assert RowSound(db, p, g, t0, t1, added[i]);
      var e :| Seen(db, t0, t1, e) && RankOf(e) == RowRank(added[i]);
      assert Seen(db, from, t2, e);
    }
  }

  lemma RoundIsFirst(db: SubDb, p: Payloads, g: Goal, boundary: Option<Rank>, starts: seq<Key>, n: nat, emitLimit: nat,
                     limit: nat, merged: seq<Entry>, m: nat, rows: seq<Row>, added: seq<Row>)
    requires StartsOk(db, starts) && StartsFor(g, boundary, starts)
    requires IsSingleStream(db, starts, n, g.since, boundary, emitLimit, merged)
    requires
      var filtered := ExcludeAbove(boundary, merged);
      m <= |filtered| && IsPick(p, g, filtered, m, added) && (m < |filtered| ==> |rows + added| == limit)
    ensures IsFirstRound(db, g, boundary, n, emitLimit, limit, merged, rows + added)
  {
    if |rows + added| < limit {
      forall e | e in merged && e.lev in g.levs && !IsAbove(boundary, e) ensures HasRow(rows + added, RankOf(e)) {
        PickIsComplete(p, g, ExcludeAbove(boundary, merged), rows, added, e);
      }
    }
  }

  /** The four cursor cases at the end of a page. */
  function NextCursor(limit: nat, rows: seq<Row>, exhausted: bool, deepest: Option<Rank>): (next: Option<Rank>)
  {
    if |rows| == limit then (if rows == [] then None else Some(RowRank(rows[|rows| - 1])))
    else if rows != [] && !exhausted then Some(RowRank(rows[|rows| - 1]))
    else if rows == [] && !exhausted then deepest
    else None
  }

  /** A full page has a cursor, and the cursor of a page with rows is its last row. */
  ghost predicate IsCursorOf(limit: nat, page: Page)
  {
    && (limit >= 1 && |page.rows| == limit ==> page.next.Some?)
    && (page.rows != [] && page.next.Some? ==> page.next.value == RowRank(page.rows[|page.rows| - 1]))
  }

  /** Start keys of one round. */
  method RoundStarts(db: SubDb, p: Payloads, f: NostrFilter, boundary: Option<Rank>, ghost g: Goal)
    returns (starts: seq<Key>)
    requires Serves(db, p, f) && g.until == UntilOf(f) && forall b :: b in g.prefixes <==> AsksFor(f, SelectIndex(f), b)
    ensures StartsOk(db, starts) && StartsFor(g, boundary, starts) && (Clean(db, f) ==> AliasFree(db, starts))
  {
    var until := if boundary.None? then UntilOf(f) else boundary.value.ts;
    starts := BuildStartKeys(f, SelectIndex(f), until);
    forall i | 0 <= i < |starts|
      ensures db.ord.ok(starts[i].prefix) && (Clean(db, f) ==> NoAlias(db, starts[i].prefix))
    {
      assert starts[i] in starts;
      AskedPrefixesAreOk(f, SelectIndex(f), starts[i].prefix);
    }
  }

  /** What the loop does after a round: `stop` with a page, or go on below a new boundary. */
  ghost predicate IsTurn(db: SubDb, p: Payloads, g: Goal, cursor: Option<Rank>, limit: nat, rounds: nat, rows: seq<Row>,
                         exhausted: bool, deepest: Option<Rank>, stop: bool)
  {
    if stop then IsPage(db, p, g, cursor, limit, rows, NextCursor(limit, rows, exhausted, deepest))
    else
      && rounds < MAX_ROUNDS && |rows| < limit && !exhausted && deepest.Some?
      && Scanned(g, db.may, deepest.value) && PageInv(db, p, g, cursor, deepest, rows)
  }

  lemma RoundIsTurn(db: SubDb, p: Payloads, g: Goal, cursor: Option<Rank>, boundary: Option<Rank>, limit: nat,
                    rounds: nat, o: Round, deepest: Option<Rank>)
    requires limit >= 1 && rounds <= MAX_ROUNDS && IsRoundOutcome(db, p, g, cursor, boundary, limit, o)
    requires o.last.Some? ==> deepest == o.last
    ensures IsTurn(db, p, g, cursor, limit, rounds, o.rows, o.exhausted, deepest,
                   |o.rows| >= limit || o.exhausted || rounds >= MAX_ROUNDS)
    ensures !(|o.rows| >= limit || o.exhausted) ==> o.last != boundary
  {
  }

  /**
   The end of a turn: whether to stop, and the deepest rank scanned. A round that has made no progress
   steps below the second it is stuck in.
   */
  function AfterRound(o: Round, boundary: Option<Rank>, deepest: Option<Rank>, limit: nat, rounds: nat)
    : (r: (bool, Option<Rank>))
  {
    var scanned := if o.last.Some? then o.last else deepest;
    if |o.rows| >= limit || o.exhausted || rounds >= MAX_ROUNDS then (true, scanned)
    else if o.last == boundary then
      (true, if o.last.Some? && o.last.value.ts > 0 then Some(Rank(o.last.value.ts - 1, U64_MAX)) else scanned)
    else (false, scanned)
  }

  /** The cursor of a stalled page is the highest position below the second it is stuck in. */
  lemma StalledPageStepsDown(o: Round, boundary: Rank, deepest: Option<Rank>, limit: nat, rounds: nat)
    requires |o.rows| < limit && !o.exhausted && rounds < MAX_ROUNDS && o.last == Some(boundary) && boundary.ts > 0
    ensures
      var (stop, cursor) := AfterRound(o, Some(boundary), deepest, limit, rounds);
      stop && cursor.Some? && forall r: Rank :: r.ts < boundary.ts <==> AtMost(r, cursor.value)
  {
  }

  /** The state of a page between turns, whatever is stored. */
  ghost predicate IsTurnState(db: SubDb, p: Payloads, g: Goal, cursor: Option<Rank>, limit: nat, from: nat, to: nat,
                              rounds: nat, boundary: Option<Rank>, rows: seq<Row>, deepest: Option<Rank>, clean: bool)
  {
    && rounds < MAX_ROUNDS && |rows| < limit && from <= to && RowsSound(db, p, g, from, to, rows)
    && (if rounds == 0 then boundary == cursor && deepest.None? else boundary == deepest && deepest.Some?)
    && (clean ==> PageInv(db, p, g, cursor, boundary, rows) && (rounds > 0 ==> Scanned(g, db.may, deepest.value)))
  }

  /** The outcome of a turn, whatever is stored. */
  ghost predicate IsTurnOutcome(db: SubDb, p: Payloads, g: Goal, cursor: Option<Rank>, limit: nat, from: nat, to: nat,
                                rounds: nat, rows: seq<Row>, o: Round, deepest: Option<Rank>, stop: bool, clean: bool)
  {
    && rows <= o.rows && |o.rows| <= limit && RowsSound(db, p, g, from, to, o.rows)
    && (!stop ==> rounds < MAX_ROUNDS && |o.rows| < limit && o.last.Some? && deepest == o.last)
    && (clean ==> IsTurn(db, p, g, cursor, limit, rounds, o.rows, o.exhausted, deepest, stop))
  }

  /** A page that ends with a cursor although it is not full. */
  ghost predicate StopsShort(limit: nat, o: Round, deepest: Option<Rank>, stop: bool)
  {
    stop && |o.rows| < limit && NextCursor(limit, o.rows, o.exhausted, deepest).Some?
  }

  /** Without aliases the no-progress branch is dead. */
  lemma TurnFollows(db: SubDb, p: Payloads, g: Goal, cursor: Option<Rank>, limit: nat, from: nat, to: nat, rounds: nat,
                    boundary: Option<Rank>, rows: seq<Row>, deepest: Option<Rank>, o: Round, clean: bool)
    requires rounds < MAX_ROUNDS && limit >= 1 && IsRoundShape(o, rows, limit) && RowsSound(db, p, g, from, to, o.rows)
    requires clean ==> IsRoundOutcome(db, p, g, cursor, boundary, limit, o)
    ensures
      var (stop, deepest') := AfterRound(o, boundary, deepest, limit, rounds + 1);
      && IsTurnOutcome(db, p, g, cursor, limit, from, to, rounds + 1, rows, o, deepest', stop, clean)
      && (clean ==> (stop <==> |o.rows| >= limit || o.exhausted || rounds + 1 >= MAX_ROUNDS))
  {
    if clean {
      RoundIsTurn(db, p, g, cursor, boundary, limit, rounds + 1, o, if o.last.Some? then o.last else deepest);
    }
  }

  /** A filter that asks for nothing ends the page. */
  lemma NoStarts(db: SubDb, p: Payloads, g: Goal, cursor: Option<Rank>, limit: nat, from: nat, to: nat, rounds: nat,
                 boundary: Option<Rank>, rows: seq<Row>, deepest: Option<Rank>, n: nat, emitLimit: nat,
                 starts: seq<Key>, clean: bool)
    requires IsTurnState(db, p, g, cursor, limit, from, to, rounds, boundary, rows, deepest, clean)
    requires StartsOk(db, starts) && StartsFor(g, boundary, starts) && starts == []
    ensures IsTurnOutcome(db, p, g, cursor, limit, from, to, rounds + 1, rows, Round(rows, false, None), deepest, true,
                          clean)
    ensures clean ==> NextCursor(limit, rows, false, deepest).None?
    ensures IsFirstRound(db, g, boundary, n, emitLimit, limit, [], rows)
  {
    if clean {
      NothingAsked(db, p, g, cursor, boundary, rows, limit, starts);
    }
    assert IsSingleStream(db, starts, n, g.since, boundary, emitLimit, []);
  }

  /** One turn of the round loop. */
  method TakeTurn(db: SubDb, p: Payloads, f: NostrFilter, now: u64, batchSize: nat, limit: nat, emitLimit: nat,
                  rounds: nat, boundary: Option<Rank>, rows: seq<Row>, deepest: Option<Rank>, ghost g: Goal,
                  ghost cursor: Option<Rank>, ghost from: nat, ghost clean: bool, ghost accept: Event -> bool)
    returns (r: Result<Round>, stop: bool, deepest': Option<Rank>, ghost batch: seq<Entry>, ghost hydrated: nat)
    requires Serves(db, p, f) && accept == Acceptance(f, now) && IsGoal(p, f, accept, g)
    requires batchSize >= 1 && emitLimit >= 1
    requires IsTurnState(db, p, g, cursor, limit, from, db.env.txns, rounds, boundary, rows, deepest, clean)
    requires clean ==> Clean(db, f)
    modifies db.env
    ensures old(db.env.txns) <= db.env.txns
    ensures r.Err? ==> Vanished(db, p, old(db.env.txns), db.env.txns, r.missing)
    ensures r.Ok? ==> IsTurnOutcome(db, p, g, cursor, limit, from, db.env.txns, rounds + 1, rows, r.value, deepest',
                                    stop, clean)
    ensures r.Ok? ==> IsFirstRound(db, g, boundary, batchSize, emitLimit, limit, batch, r.value.rows)
    ensures hydrated <= emitLimit && (r.Ok? && clean && !stop ==> hydrated == emitLimit)
    ensures r.Ok? && clean && StopsShort(limit, r.value, deepest', stop) ==>
              rounds + 1 == MAX_ROUNDS && hydrated == emitLimit
  {
    stop, deepest', batch, hydrated := true, deepest, [], 0;
    var starts := RoundStarts(db, p, f, boundary, g);
    if |starts| == 0 {
      NoStarts(db, p, g, cursor, limit, from, db.env.txns, rounds, boundary, rows, deepest, batchSize, emitLimit,
               starts, clean);
      return Ok(Round(rows, false, None)), true, deepest, [], 0;
    }
    r, batch, hydrated := RunRound(db, p, f, now, starts, batchSize, emitLimit, limit, boundary, rows, SinceOf(f), g,
                                   cursor, from, clean, accept);
    if r.Err? {
      return;
    }
    TurnFollows(db, p, g, cursor, limit, from, db.env.txns, rounds, boundary, rows, deepest, r.value, clean);
    var decision := AfterRound(r.value, boundary, deepest, limit, rounds + 1);
    stop, deepest' := decision.0, decision.1;
  }

  /** Rows of later rounds leave the first round as it was. */
  lemma FirstRoundStays(db: SubDb, g: Goal, cursor: Option<Rank>, n: nat, emitLimit: nat, limit: nat, batch: seq<Entry>,
                        rows: seq<Row>, rows': seq<Row>)
    requires IsFirstRound(db, g, cursor, n, emitLimit, limit, batch, rows) && |rows| < limit && rows <= rows'
    ensures IsFirstRound(db, g, cursor, n, emitLimit, limit, batch, rows')
  {
  }

  /** The payloads hydrated round by round: at most, or in `full` rounds exactly, the emit limit. */
  ghost predicate IsSpent(emitLimit: nat, hydrated: seq<nat>, full: bool)
  {
    forall i :: 0 <= i < |hydrated| ==> if full then hydrated[i] == emitLimit else hydrated[i] <= emitLimit
  }

  lemma SpendMore(emitLimit: nat, hydrated: seq<nat>, cost: nat, full: bool)
    requires IsSpent(emitLimit, hydrated, false) && IsSpent(emitLimit, hydrated, full) && cost <= emitLimit
    ensures IsSpent(emitLimit, hydrated + [cost], false)
    ensures cost == emitLimit ==> IsSpent(emitLimit, hydrated + [cost], full)
  {
  }

  lemma CursorOfPage(limit: nat, rows: seq<Row>, exhausted: bool, deepest: Option<Rank>)
    requires |rows| <= limit
    ensures IsCursorOf(limit, Page(rows, NextCursor(limit, rows, exhausted, deepest)))
  {
  }

  /** The round loop. */
  method RunRounds(db: SubDb, p: Payloads, f: NostrFilter, now: u64, cursor: Option<Rank>, batchSize: nat, limit: nat,
                   emitLimit: nat, ghost g: Goal, ghost clean: bool, ghost accept: Event -> bool)
    returns (r: Result<Page>, ghost first: seq<Entry>, ghost hydrated: seq<nat>)
    requires Serves(db, p, f) && accept == Acceptance(f, now) && IsGoal(p, f, accept, g)
    requires batchSize >= 1 && limit >= 1 && emitLimit >= 1
    requires clean ==> Clean(db, f)
    modifies db.env
    ensures old(db.env.txns) <= db.env.txns
    ensures r.Err? ==> Vanished(db, p, old(db.env.txns), db.env.txns, r.missing)
    ensures r.Ok? ==> |r.value.rows| <= limit && RowsSound(db, p, g, old(db.env.txns), db.env.txns, r.value.rows)
    ensures r.Ok? ==> IsFirstRound(db, g, cursor, batchSize, emitLimit, limit, first, r.value.rows)
    ensures r.Ok? && clean ==> IsPage(db, p, g, cursor, limit, r.value.rows, r.value.next)
    ensures r.Ok? ==> IsCursorOf(limit, r.value)
    ensures |hydrated| <= MAX_ROUNDS && IsSpent(emitLimit, hydrated, false)
    ensures r.Ok? && clean && r.value.next.Some? && |r.value.rows| < limit ==>
              |hydrated| == MAX_ROUNDS && IsSpent(emitLimit, hydrated, true)
  {
    var rows: seq<Row>, boundary, deepest: Option<Rank>, rounds := [], cursor, None, 0;
    ghost var from := db.env.txns;
    first, hydrated := [], [];
    while true
      invariant IsTurnState(db, p, g, cursor, limit, from, db.env.txns, rounds, boundary, rows, deepest, clean)
      invariant rounds > 0 ==> IsFirstRound(db, g, cursor, batchSize, emitLimit, limit, first, rows)
      invariant |hydrated| == rounds && IsSpent(emitLimit, hydrated, false) && IsSpent(emitLimit, hydrated, clean)
      decreases MAX_ROUNDS - rounds
    {
      var turn, stop, deepest';
      ghost var batch, cost;
      ghost var mid := db.env.txns;
      turn, stop, deepest', batch, cost :=
        TakeTurn(db, p, f, now, batchSize, limit, emitLimit, rounds, boundary, rows, deepest, g, cursor,
                 from, clean, accept);
      SpendMore(emitLimit, hydrated, cost, clean);
      hydrated := hydrated + [cost];
      if turn.Err? {
        VanishedInCall(db, p, from, mid, db.env.txns, turn.missing);
        return Err(turn.missing), first, hydrated;
      }
      if rounds == 0 {
        first := batch;
      } else {
        FirstRoundStays(db, g, cursor, batchSize, emitLimit, limit, first, rows, turn.value.rows);
      }
      rows, deepest := turn.value.rows, deepest';
      CursorOfPage(limit, rows, turn.value.exhausted, deepest);
      if stop {
        return Ok(Page(rows, NextCursor(limit, rows, turn.value.exhausted, deepest))), first, hydrated;
      }
      rounds, boundary := rounds + 1, turn.value.last;
    }
  }

  lemma VanishedInCall(db: SubDb, p: Payloads, from: nat, mid: nat, to: nat, lev: LevId)
    requires from <= mid && Vanished(db, p, mid, to, lev)
    ensures Vanished(db, p, from, to, lev)
  {
  }

  // ---------------------------------------------------------------------------
  // The page in the terms of the filter
  // ---------------------------------------------------------------------------

  /** A levId whose event decodes, has not expired and fails no field of the filter. */
  ghost predicate IsAccepted(p: Payloads, f: NostrFilter, now: u64, lev: LevId)
  {
    && p.decodable(lev) && !Expired(p.event(lev), now)
    && !FailsKind(f, p.event(lev)) && !FailsAuthor(f, p.event(lev))
    && !FailsId(f, p.event(lev)) && !FailsTags(f, p.event(lev))
  }

  /** Not older than `since`; and not newer than `until`, or strictly below the cursor if there is one. */
  ghost predicate IsInRange(f: NostrFilter, cursor: Option<Rank>, r: Rank)
  {
    && (f.since.Some? ==> f.since.value <= r.ts)
    && (cursor.None? && f.until.Some? ==> r.ts <= f.until.value)
    && (cursor.Some? ==> Below(r, cursor.value))
  }

  /** An entry under one of the prefixes the filter asks for. */
  ghost predicate IsAskedFor(f: NostrFilter, e: Entry)
  {
    AsksFor(f, SelectIndex(f), e.key.prefix)
  }

  ghost predicate IsRowOf(db: SubDb, p: Payloads, f: NostrFilter, now: u64, cursor: Option<Rank>, row: Row)
  {
    && row.event == p.event(row.lev) && IsAccepted(p, f, now, row.lev) && IsInRange(f, cursor, RowRank(row))
    && exists e :: e in db.may && IsAskedFor(f, e) && RankOf(e) == RowRank(row)
  }

  /**
   One page of a query: at most `limit` accepted events of the asked prefixes in range, newest first, and of the
   durable ones all down to and including the cursor returned; all of them when there is none.
   */
  ghost predicate IsPageOf(db: SubDb, p: Payloads, f: NostrFilter, now: u64, cursor: Option<Rank>, page: Page)
  {
    && |page.rows| <= (if f.limit == 0 then 256 else f.limit) && NewestFirst(page.rows)
    && (forall i :: 0 <= i < |page.rows| ==> IsRowOf(db, p, f, now, cursor, page.rows[i]))
    && (page.next.Some? ==> IsInRange(f, cursor, page.next.value))
    && (forall e ::
          e in db.must && IsAskedFor(f, e) && IsAccepted(p, f, now, e.lev) && IsInRange(f, cursor, RankOf(e)) &&
          (page.next.None? || AtMost(page.next.value, RankOf(e))) ==>
            HasRow(page.rows, RankOf(e)))
  }

  lemma ScopeIsRange(p: Payloads, f: NostrFilter, now: u64, cursor: Option<Rank>, r: Rank)
    ensures InScope(GoalOf(p, f, now), cursor, r) <==> IsInRange(f, cursor, r)
  {
  }

  lemma GoalIsAccepted(p: Payloads, f: NostrFilter, now: u64, lev: LevId)
    ensures lev in GoalOf(p, f, now).levs <==> IsAccepted(p, f, now, lev)
  {
    assert lev in GoalOf(p, f, now).levs <==> Match(p, Acceptance(f, now), lev);
  }

  lemma PageInFilterTerms(db: SubDb, p: Payloads, f: NostrFilter, now: u64, cursor: Option<Rank>, page: Page)
    requires IsPage(db, p, GoalOf(p, f, now), cursor, LimitOf(f), page.rows, page.next)
    ensures IsPageOf(db, p, f, now, cursor, page)
  {
    var g := GoalOf(p, f, now);
    forall i | 0 <= i < |page.rows| ensures IsRowOf(db, p, f, now, cursor, page.rows[i]) {
      assert RowOk(db, p, g, cursor, page.rows[i]);
      ScopeIsRange(p, f, now, cursor, RowRank(page.rows[i]));
      GoalIsAccepted(p, f, now, page.rows[i].lev);
      var e :| e in db.may && e.key.prefix in g.prefixes && RankOf(e) == RowRank(page.rows[i]);
      assert IsAskedFor(f, e);
    }
    if page.next.Some? {
      ScopeIsRange(p, f, now, cursor, page.next.value);
    }
    forall e | e in db.must && IsAskedFor(f, e) && IsAccepted(p, f, now, e.lev) && IsInRange(f, cursor, RankOf(e)) &&
               (page.next.None? || AtMost(page.next.value, RankOf(e)))
      ensures HasRow(page.rows, RankOf(e))
    {
      ScopeIsRange(p, f, now, cursor, RankOf(e));
      GoalIsAccepted(p, f, now, e.lev);
      assert Hit(g, e);
    }
  }

  /** What is true of a row on any store: accepted, read during the call, not older than `since`. */
  ghost predicate IsSoundRow(db: SubDb, p: Payloads, f: NostrFilter, now: u64, from: nat, to: nat, row: Row)
  {
    && row.event == p.event(row.lev) && IsAccepted(p, f, now, row.lev) && (f.since.Some? ==> f.since.value <= row.ts)
    && exists e :: Seen(db, from, to, e) && RankOf(e) == RowRank(row)
  }

  lemma SoundInFilterTerms(db: SubDb, p: Payloads, f: NostrFilter, now: u64, from: nat, to: nat, rows: seq<Row>, i: nat)
    requires RowsSound(db, p, GoalOf(p, f, now), from, to, rows) && i < |rows|
    ensures IsSoundRow(db, p, f, now, from, to, rows[i])
  {
    assert RowSound(db, p, GoalOf(p, f, now), from, to, rows[i]);
    GoalIsAccepted(p, f, now, rows[i].lev);
    ScopeIsRange(p, f, now, None, RowRank(rows[i]));
  }

  /** The number of payloads a full round hydrates: 2 * limit + 256, saturating. */
  ghost function FullRound(f: NostrFilter): (n: nat)
  {
    var limit := if f.limit == 0 then 256 else f.limit;
    if 2 * limit + 256 <= U64_MAX then 2 * limit + 256 else U64_MAX
  }

  /**
   One page, whatever strfry writes meanwhile. For the fixed-width indexes, and for the tag index if no
   alias is stored, it is `IsPageOf`, and it stops short of its limit with a cursor only after 8 full
   rounds. On any store every row is an accepted event, no more than 8 full rounds are hydrated
   (`hydrated` counts them round by round), and it fails only on a payload that disappeared between
   two of its transactions.
   */
  method ExecuteQuery(db: SubDb, p: Payloads, f: NostrFilter, now: u64, cursor: Option<Rank>, batchSize: nat)
    returns (r: Result<Page>, ghost first: seq<Entry>, ghost hydrated: seq<nat>)
    requires Serves(db, p, f) && batchSize >= 1
    modifies db.env
    ensures old(db.env.txns) <= db.env.txns
    ensures r.Ok? && (SelectIndex(f).EventTag? ==> Clean(db, f)) ==> IsPageOf(db, p, f, now, cursor, r.value)
    ensures r.Ok? && (SelectIndex(f).EventTag? ==> Clean(db, f)) ==>
              IsPage(db, p, GoalOf(p, f, now), cursor, LimitOf(f), r.value.rows, r.value.next)
    ensures r.Ok? ==>
              forall i :: 0 <= i < |r.value.rows| ==>
                IsSoundRow(db, p, f, now, old(db.env.txns), db.env.txns, r.value.rows[i])
    ensures r.Ok? ==> |r.value.rows| <= LimitOf(f) && IsCursorOf(LimitOf(f), r.value)
    ensures r.Ok? ==> IsFirstRound(db, GoalOf(p, f, now), cursor, batchSize, EmitLimit(LimitOf(f)), LimitOf(f), first,
                                   r.value.rows)
    ensures r.Err? ==> Vanished(db, p, old(db.env.txns), db.env.txns, r.missing)
    ensures StaysStored(db, p) ==> r.Ok?
    ensures |hydrated| <= 8 && forall i :: 0 <= i < |hydrated| ==> hydrated[i] <= FullRound(f)
    ensures r.Ok? && (SelectIndex(f).EventTag? ==> Clean(db, f)) && r.value.next.Some? &&
            |r.value.rows| < LimitOf(f) ==>
              |hydrated| == 8 && forall i :: 0 <= i < |hydrated| ==> hydrated[i] == FullRound(f)
  {
    if !SelectIndex(f).EventTag? {
      FixedWidthIsClean(db, f);
    }
    ghost var from := db.env.txns;
    r, first, hydrated := RunRounds(db, p, f, now, cursor, batchSize, LimitOf(f), EmitLimit(LimitOf(f)),
                                    GoalOf(p, f, now), Clean(db, f), Acceptance(f, now));
    if r.Ok? {
      forall i | 0 <= i < |r.value.rows|
        ensures IsSoundRow(db, p, f, now, from, db.env.txns, r.value.rows[i])
      {
        SoundInFilterTerms(db, p, f, now, from, db.env.txns, r.value.rows, i);
      }
      if Clean(db, f) {
        PageInFilterTerms(db, p, f, now, cursor, r.value);
      }
    }
  }

  lemma NothingAsked(db: SubDb, p: Payloads, g: Goal, cursor: Option<Rank>, boundary: Option<Rank>, rows: seq<Row>,
                     limit: nat, starts: seq<Key>)
    requires PageInv(db, p, g, cursor, boundary, rows) && StartsFor(g, boundary, starts) && starts == []
    ensures g.prefixes == iset{} && rows == [] && IsPage(db, p, g, cursor, limit, [], None)
    ensures forall r: Rank :: !Scanned(g, db.may, r)
  {
    var ts := if boundary.None? then g.until else boundary.value.ts;
    forall b: bytes ensures b !in g.prefixes {
      assert Key(b, ts) !in starts;
    }
    assert rows == [] || RowOk(db, p, g, cursor, rows[0]);
  }
}
