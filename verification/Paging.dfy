/**
 Following cursors from the first page to the last, and the whole walk against
 "filter everything, sort newest first".
 */
module Paging {
  import opened Bytes
  import opened Comparators
  import opened Scan
  import opened Merge
  import opened Router
  import opened Engine

  // ---------------------------------------------------------------------------
  // The walk
  // ---------------------------------------------------------------------------

  /** Every durable hit once, nothing that was never there, newest first. */
  ghost predicate IsWalk(db: SubDb, p: Payloads, g: Goal, rows: seq<Row>)
  {
    && RowsOk(db, p, g, None, rows)
    && forall e :: e in db.must && Hit(g, e) && InScope(g, None, RankOf(e)) ==> HasRow(rows, RankOf(e))
  }

  /** Index entries below a cursor: what makes the walk end. */
  ghost function Remaining(g: Goal, entries: set<Entry>, cursor: Option<Rank>): (s: set<Entry>)
  {
    set e | e in entries && InScope(g, cursor, RankOf(e))
  }

  /** A page continues the walk strictly below everything before it. */
  lemma PageExtendsWalk(db: SubDb, p: Payloads, g: Goal, cursor: Option<Rank>, all: seq<Row>, limit: nat,
                        rows: seq<Row>, next: Option<Rank>)
    requires PageInv(db, p, g, None, cursor, all) && IsPage(db, p, g, cursor, limit, rows, next)
    ensures RowsOk(db, p, g, None, all + rows)
    ensures next.None? ==> IsWalk(db, p, g, all + rows)
    ensures next.Some? ==> PageInv(db, p, g, None, next, all + rows)
  {
    forall i | 0 <= i < |rows| ensures RowOk(db, p, g, None, rows[i]) {
      assert RowOk(db, p, g, cursor, rows[i]);
    }
    forall i, j | 0 <= i < |all| && 0 <= j < |rows| ensures Below(RowRank(rows[j]), RowRank(all[i])) {
      assert RowOk(db, p, g, cursor, rows[j]);
    }
    forall e | e in db.must && Hit(g, e) && InScope(g, None, RankOf(e)) && (next.Some? ==> !InScope(g, next, RankOf(e)))
      ensures HasRow(all + rows, RankOf(e))
    {
      HasRowInSum(all, rows, RankOf(e));
    }
  }

  /** A page that returns a cursor leaves fewer index entries below it. */
  lemma CursorMovesDown(db: SubDb, p: Payloads, g: Goal, cursor: Option<Rank>, limit: nat, rows: seq<Row>, next: Rank)
    requires IsPage(db, p, g, cursor, limit, rows, Some(next))
    ensures cursor.Some? ==> Below(next, cursor.value)
    ensures |Remaining(g, db.may, Some(next))| < |Remaining(g, db.may, cursor)|
  {
    var e :| e in db.may && e.key.prefix in g.prefixes && RankOf(e) == next;
    var before, after := Remaining(g, db.may, cursor), Remaining(g, db.may, Some(next));
    forall x | x in after ensures x in before - {e} {
      assert Below(RankOf(x), next);
    }
    SmallerSubset(after, before - {e});
  }

  /** Follow cursors from none until none and concatenate the pages. */
  method WalkPages(db: SubDb, p: Payloads, f: NostrFilter, now: u64, batchSize: nat) returns (r: Result<seq<Row>>)
    requires Serves(db, p, f) && batchSize >= 1 && (SelectIndex(f).EventTag? ==> Clean(db, f))
    modifies db.env
    ensures r.Ok? ==> IsWalk(db, p, GoalOf(p, f, now), r.value)
    ensures r.Err? ==> Vanished(db, p, old(db.env.txns), db.env.txns, r.missing)
    ensures StaysStored(db, p) ==> r.Ok?
  {
    ghost var from := db.env.txns;
    ghost var g := GoalOf(p, f, now);
    var all: seq<Row> := [];
    var cursor: Option<Rank> := None;
    while true
      invariant PageInv(db, p, g, None, cursor, all) && from <= db.env.txns
      decreases |Remaining(g, db.may, cursor)|
    {
      ghost var mid := db.env.txns;
      var page, _, _ := ExecuteQuery(db, p, f, now, cursor, batchSize);
      if page.Err? {
        VanishedInCall(db, p, from, mid, db.env.txns, page.missing);
        return Err(page.missing);
      }
      PageExtendsWalk(db, p, g, cursor, all, LimitOf(f), page.value.rows, page.value.next);
      all := all + page.value.rows;
      if page.value.next.None? {
        return Ok(all);
      }
      CursorMovesDown(db, p, g, cursor, LimitOf(f), page.value.rows, page.value.next.value);
      cursor := page.value.next;
    }
  }

  // ---------------------------------------------------------------------------
  // The naive query
  // ---------------------------------------------------------------------------

  /** The store is still: the selected index holds exactly the keys of the live events. */
  ghost predicate Still(db: SubDb, p: Payloads, f: NostrFilter, live: set<LevId>)
  {
    && db.must == db.may
    && (forall lev :: lev in live ==> WellFormed(p.event(lev)))
    && (forall e :: e in db.may <==> e.lev in live && e.key in IndexKeys(SelectIndex(f), p.event(e.lev)))
  }

  /** A live event the filter accepts. */
  ghost predicate Accepted(p: Payloads, f: NostrFilter, now: u64, live: set<LevId>, lev: LevId)
  {
    && lev in live && IsAccepted(p, f, now, lev)
    && (f.since.Some? ==> f.since.value <= p.event(lev).createdAt)
    && (f.until.Some? ==> p.event(lev).createdAt <= f.until.value)
  }

  function RowOf(p: Payloads, lev: LevId): (row: Row)
  {
    Row(p.event(lev).createdAt, lev, p.event(lev))
  }

  /** Filter everything, sort by (created_at, levId) descending. */
  ghost predicate IsNaiveAnswer(p: Payloads, f: NostrFilter, now: u64, live: set<LevId>, rows: seq<Row>)
  {
    && NewestFirst(rows)
    && (forall row :: row in rows <==> row == RowOf(p, row.lev) && Accepted(p, f, now, live, row.lev))
  }

  /** The naive answer is one list: any two agree. */
  lemma {:induction false} NaiveAnswerIsUnique(a: seq<Row>, b: seq<Row>)
    requires NewestFirst(a) && NewestFirst(b) && forall row :: row in a <==> row in b
    ensures a == b
  {
    if a + b != [] {
      var x := (a + b)[0];
      assert x in a || x in b;
      assert a[0] in b && b[0] in a;
      assert a[0] == b[0];
      forall row ensures row in a[1..] <==> row in b[1..] {
        if row in a[1..] { assert row in b; }
        if row in b[1..] { assert row in a; }
      }
      NaiveAnswerIsUnique(a[1..], b[1..]);
      assert a == [a[0]] + a[1..] && b == [b[0]] + b[1..];
    }
  }

  /** A filter the router can answer: only a filter routed to tags without a one-byte name is not. */
  predicate Routable(f: NostrFilter)
  {
    SelectIndex(f).EventTag? ==> HasOneByteTag(f)
  }

  lemma WalkRowsAreAccepted(db: SubDb, p: Payloads, f: NostrFilter, now: u64, live: set<LevId>, rows: seq<Row>,
                            row: Row)
    requires Still(db, p, f, live) && IsWalk(db, p, GoalOf(p, f, now), rows) && row in rows
    ensures row == RowOf(p, row.lev) && Accepted(p, f, now, live, row.lev) && Reached(f, p.event(row.lev))
  {
  }

  lemma AcceptedIsInWalk(db: SubDb, p: Payloads, f: NostrFilter, now: u64, live: set<LevId>, rows: seq<Row>, lev: LevId)
    requires Still(db, p, f, live) && IsWalk(db, p, GoalOf(p, f, now), rows) && Routable(f)
    requires Accepted(p, f, now, live, lev)
    ensures RowOf(p, lev) in rows
  {
    var g, ev := GoalOf(p, f, now), p.event(lev);
    AcceptedEventsAreReachedIff(f, ev);
    var k :| k in IndexKeys(SelectIndex(f), ev) && AsksFor(f, SelectIndex(f), k.prefix);
    IndexKeysAreOk(SelectIndex(f), ev, k);
    var e := Entry(k, lev);
    assert e in db.may;
    assert Hit(g, e) by { assert Match(p, Acceptance(f, now), lev); }
    assert InScope(g, None, RankOf(e));
    var i :| 0 <= i < |rows| && RowRank(rows[i]) == RankOf(e);
    WalkRowsAreAccepted(db, p, f, now, live, rows, rows[i]);
    assert rows[i] == RowOf(p, lev);
  }

  /**
   Full pagination refines the naive query: for every store, filter, limit and window size, the
   concatenated pages are the naive answer if and only if the filter is routable or nothing
   in the store would be accepted.
   */
  lemma PaginationIsNaiveQueryIff(db: SubDb, p: Payloads, f: NostrFilter, now: u64, live: set<LevId>, rows: seq<Row>)
    requires Still(db, p, f, live) && IsWalk(db, p, GoalOf(p, f, now), rows)
    ensures IsNaiveAnswer(p, f, now, live, rows) <==> Routable(f) || forall lev :: !Accepted(p, f, now, live, lev)
  {
    forall row | row in rows ensures row == RowOf(p, row.lev) && Accepted(p, f, now, live, row.lev) {
      WalkRowsAreAccepted(db, p, f, now, live, rows, row);
    }
    if Routable(f) {
      forall row: Row | row == RowOf(p, row.lev) && Accepted(p, f, now, live, row.lev) ensures row in rows {
        AcceptedIsInWalk(db, p, f, now, live, rows, row.lev);
      }
    } else {
      UnroutableWalkIsEmpty(db, p, f, now, live, rows);
      if IsNaiveAnswer(p, f, now, live, rows) {
        forall lev ensures !Accepted(p, f, now, live, lev) {
          assert RowOf(p, lev) !in rows;
        }
      }
    }
  }

  lemma UnroutableWalkIsEmpty(db: SubDb, p: Payloads, f: NostrFilter, now: u64, live: set<LevId>, rows: seq<Row>)
    requires Still(db, p, f, live) && IsWalk(db, p, GoalOf(p, f, now), rows) && !Routable(f)
    ensures rows == []
  {
    assert rows == [] || RowOk(db, p, GoalOf(p, f, now), None, rows[0]);
  }

  /** The whole read path on a still store: pages, concatenated, are the naive answer. */
  method AnswerInPages(db: SubDb, p: Payloads, f: NostrFilter, now: u64, batchSize: nat, ghost live: set<LevId>)
    returns (rows: seq<Row>)
    requires Serves(db, p, f) && batchSize >= 1 && Still(db, p, f, live) && StaysStored(db, p) && Routable(f)
    requires SelectIndex(f).EventTag? ==> Clean(db, f)
    modifies db.env
    ensures IsNaiveAnswer(p, f, now, live, rows)
  {
    var r := WalkPages(db, p, f, now, batchSize);
    PaginationIsNaiveQueryIff(db, p, f, now, live, r.value);
    rows := r.value;
  }

  /**
   Outside the tag index the streams are disjoint: no levId is eligible for two start keys, and none
   twice for one.
   */
  lemma StreamsAreDisjoint(db: SubDb, p: Payloads, f: NostrFilter, live: set<LevId>, starts: seq<Key>, since: u64,
                           floor: Option<Rank>, i: nat, j: nat, a: Entry, b: Entry)
    requires Still(db, p, f, live) && !SelectIndex(f).EventTag? && StartsOk(db, starts) && i < |starts| && j < |starts|
    requires a in db.may && Eligible(starts[i], since, floor, a)
    requires b in db.may && Eligible(starts[j], since, floor, b)
    requires a.lev == b.lev
    ensures i == j && a == b
  {
  }
}
