/**
 The crash-safe author walk: `enumerate::run` against the author listing, an asynchronous
 writer, a flush barrier and a durable cursor, as a state machine whose steps interleave with
 writer commits, writer failures and crashes; and the bounded retry around every request.
 */
module Enumerate {
  import opened Bytes
  import opened Hex
  import opened Router
  import opened Authors

  // ---------------------------------------------------------------------------
  // Bounded retry
  // ---------------------------------------------------------------------------

  const MAX_ATTEMPTS: nat := 5
  const BACKOFF_BASE: nat := 250
  const BACKOFF_CAP: nat := 10000

  datatype ClientError = Unavailable | Transport | PayloadTooLarge | Graphql(code: Option<Text>)

  datatype Reply<+T> = Good(value: T) | Bad(error: ClientError)

  predicate IsRetryable(e: ClientError)
  {
    match e
    case Unavailable => true
    case Transport => true
    case PayloadTooLarge => false
    case Graphql(code) => code.None?
  }

  /** A failure that may pass: the service is down or unreachable, or an error without a code. */
  ghost predicate IsTransient<T>(r: Reply<T>)
  {
    r.Bad? && (r.error == Unavailable || r.error == Transport || r.error == Graphql(None))
  }

  /**
   `retry`: attempt k gets the reply `op(k)`. The reply of the first attempt that succeeds, fails
   for good or is the fifth is returned; before each further attempt it sleeps, twice as long each time.
   */
  method Retry<T>(op: nat -> Reply<T>) returns (r: Reply<T>, attempts: nat, sleeps: seq<nat>)
    ensures 1 <= attempts <= 5 && r == op(attempts - 1)
    ensures forall k :: 0 <= k < attempts - 1 ==> IsTransient(op(k))
    ensures IsTransient(r) ==> attempts == 5
    ensures sleeps == [250, 500, 1000, 2000][..attempts - 1]
  {
    var delay := BACKOFF_BASE;
    attempts, sleeps := 1, [];
    ghost var all := [250, 500, 1000, 2000];
    while true
      invariant 1 <= attempts <= MAX_ATTEMPTS && sleeps == all[..attempts - 1]
      invariant attempts <= 4 ==> delay == all[attempts - 1]
      invariant forall k :: 0 <= k < attempts - 1 ==> IsTransient(op(k))
      decreases MAX_ATTEMPTS - attempts
    {
      r := op(attempts - 1);
      if r.Bad? && IsRetryable(r.error) && attempts < MAX_ATTEMPTS {
        sleeps := sleeps + [delay];
        delay := if 2 * delay < BACKOFF_CAP then 2 * delay else BACKOFF_CAP;
        attempts := attempts + 1;
      } else {
        return;
      }
    }
  }

  // ---------------------------------------------------------------------------
  // The protocol
  // ---------------------------------------------------------------------------

  datatype Status = Running | Aborted | Done

  datatype Run = Run(cursor: Option<Text>, status: Status)

  /** Where `run` is. `full` says the listing was walked to its end. */
  datatype Pc =
    | Down
    | Probing
    | Fetching
    | Enqueued(end: Option<Text>)
    | Flushed(cursor: Text)
    | Stopping
    | EndProbing(full: bool)
    | Returned(ok: bool, full: bool)

  /**
   The writer's queue, the durable rows, and the local variables of `run`. `dropped` records what
   the writer of this process took out of the queue without committing it when it failed.
   */
  datatype State = State(
    queue: seq<seq<Text>>,
    writerAlive: bool,
    durable: set<Text>,
    dropped: set<Text>,
    runs: seq<Run>,
    pc: Pc,
    run: nat,
    after: Option<Text>,
    count: nat,
    limit: Option<nat>)

  datatype Action =
    | Start(resume: bool, limit: Option<nat>)
    | ProbeOk | ProbeFails
    | Page(authors: seq<Text>, end: Option<Text>)
    | CursorRejected | FetchFails
    | FlushReturns | CursorStored | CursorFails
    | FinalFlush | EndProbeOk | EndProbeFails
    | WriterCommits(batches: nat) | WriterDies
    | MarkDone | Crash

  function Elements(queue: seq<seq<Text>>): (s: set<Text>)
    ensures forall a :: a in s <==> exists i :: 0 <= i < |queue| && a in queue[i]
  {
    if queue == [] then {}
    else (set a | a in queue[0]) + Elements(queue[1..])
  }

  /** `is_valid_pubkey` applied to a page. */
  function Valid(authors: seq<Text>): (s: seq<Text>)
    ensures forall a :: a in s <==> a in authors && IsHexKey(a)
    ensures |s| == CountValid(authors)
  {
    if authors == [] then []
    else
      CountValidCons(authors[0], authors[1..]);
      assert authors == [authors[0]] + authors[1..];
      if IsHexKey(authors[0]) then [authors[0]] + Valid(authors[1..]) else Valid(authors[1..])
  }

  /** How many entries of a page are valid. */
  function CountValid(authors: seq<Text>): (n: nat)
  {
    if authors == [] then 0
    else CountValid(authors[..|authors| - 1]) + if IsHexKey(authors[|authors| - 1]) then 1 else 0
  }

  lemma {:induction false} CountValidCons(a: Text, authors: seq<Text>)
    ensures CountValid([a] + authors) == CountValid(authors) + if IsHexKey(a) then 1 else 0
  {
    if authors == [] {
      assert [a] + authors == [a];
      assert [a][..0] == [];
    } else {
      var init, last := authors[..|authors| - 1], authors[|authors| - 1];
      CountValidCons(a, init);
      assert ([a] + authors)[..|authors|] == [a] + init;
    }
  }

  /** `latest_unfinished_run`: the greatest run id that is not done. */
  function LatestUnfinished(runs: seq<Run>): (r: Option<nat>)
    ensures r.Some? ==> r.value < |runs| && !runs[r.value].status.Done?
    ensures forall i :: 0 <= i < |runs| && !runs[i].status.Done? ==> r.Some? && i <= r.value
  {
    if runs == [] then None
    else if !runs[|runs| - 1].status.Done? then Some(|runs| - 1)
    else LatestUnfinished(runs[..|runs| - 1])
  }

  function Begin(s: State, resume: bool, limit: Option<nat>): (s': State)
  {
    var latest := LatestUnfinished(s.runs);
    if resume && latest.Some? then
      s.(pc := Probing, run := latest.value, after := s.runs[latest.value].cursor, count := 0, limit := limit)
    else
      s.(runs := s.runs + [Run(None, Running)], pc := Probing, run := |s.runs|, after := None, count := 0,
         limit := limit)
  }

  ghost predicate Init(s: State)
  {
    s == State([], true, {}, {}, [], Down, 0, None, 0, None)
  }

  /** One step. The pager is honest about the authors `must`, which are there throughout. */
  ghost predicate Step(must: set<Text>, s: State, act: Action, s': State)
  {
    match act
    case Start(resume, limit) => s.pc.Down? && s' == Begin(s, resume, limit)
    case ProbeOk => s.pc.Probing? && s' == s.(pc := Fetching)
    case ProbeFails => s.pc.Probing? && s' == s.(pc := Returned(false, false))
    case Page(authors, end) =>
      // With a dead writer insert_pubkeys panics instead: see Crash.
      && s.pc.Fetching? && s.writerAlive && Honest(must, s.after, authors, end)
      && s' == s.(queue := s.queue + [Valid(authors)], count := s.count + |Valid(authors)|, pc := Enqueued(end))
    case CursorRejected => s.pc.Fetching? && s.after.Some? && s' == s.(after := None)
    case FetchFails =>
      s.pc.Fetching? && s.run < |s.runs| &&
      s' == s.(runs := s.runs[s.run := s.runs[s.run].(status := Aborted)], pc := Returned(false, false))
    case FlushReturns =>
      // The barrier waits for the queue; when the writer has died it returns at once, without an error.
      s.pc.Enqueued? && s.pc.end.Some? && s.queue == [] && s' == s.(pc := Flushed(s.pc.end.value))
    case CursorStored =>
      s.pc.Flushed? && s.run < |s.runs| &&
      s' == s.(runs := s.runs[s.run := s.runs[s.run].(cursor := Some(s.pc.cursor))], after := Some(s.pc.cursor),
               pc := if s.limit.Some? && s.count >= s.limit.value then Stopping else Fetching)
    case CursorFails => s.pc.Flushed? && s' == s.(pc := Returned(false, false))
    case FinalFlush =>
      && s.queue == []
      && (if s.pc.Stopping? then s' == s.(pc := EndProbing(false))
          else s.pc == Enqueued(None) && s' == s.(pc := EndProbing(true)))
    case EndProbeOk => s.pc.EndProbing? && s' == s.(pc := Returned(true, s.pc.full))
    case EndProbeFails => s.pc.EndProbing? && s' == s.(pc := Returned(false, s.pc.full))
    case WriterCommits(n) =>
      s.writerAlive && n <= |s.queue| && s' == s.(durable := s.durable + Elements(s.queue[..n]), queue := s.queue[n..])
    case WriterDies => s.writerAlive && s' == s.(writerAlive := false, dropped := Elements(s.queue), queue := [])
    case MarkDone =>
      s.pc.Returned? && s.pc.ok && s.run < |s.runs| &&
      s' == s.(runs := s.runs[s.run := s.runs[s.run].(status := Done)])
    case Crash => s' == s.(queue := [], writerAlive := true, dropped := {}, pc := Down)
  }

  /** A run of the protocol from the empty store. */
  ghost predicate IsRun(must: set<Text>, tr: seq<State>, acts: seq<Action>)
  {
    && |tr| == |acts| + 1 && Init(tr[0])
    && forall i :: 0 <= i < |acts| ==> Step(must, tr[i], acts[i], tr[i + 1])
  }

  // ---------------------------------------------------------------------------
  // What every step keeps
  // ---------------------------------------------------------------------------

  /** At or below a cursor. */
  predicate UpTo(c: Option<Text>, a: Text)
  {
    c.Some? && !Lex(c.value, a)
  }

  /** Covered by the page that ends at `end`; a page without an end cursor ends the listing. */
  predicate Covered(end: Option<Text>, a: Text)
  {
    end.None? || UpTo(end, a)
  }

  /** Every author at or below a stored cursor is durable. */
  ghost predicate CursorSafe(must: set<Text>, s: State)
  {
    forall i, a :: 0 <= i < |s.runs| && a in must && UpTo(s.runs[i].cursor, a) ==> a in s.durable
  }

  /** What the barrier has to account for: durable, or taken by the writer that failed. */
  predicate Kept(s: State, a: Text)
  {
    a in s.durable || a in s.dropped
  }

  ghost predicate PcInv(must: set<Text>, s: State)
  {
    match s.pc
    case Enqueued(end) => forall a :: a in must && Covered(end, a) ==> Kept(s, a) || a in Elements(s.queue)
    case Flushed(c) => forall a :: a in must && UpTo(Some(c), a) ==> Kept(s, a)
    case Stopping => s.limit.Some?
    case EndProbing(full) => if full then forall a :: a in must ==> Kept(s, a) else s.limit.Some?
    case Returned(ok, full) => ok ==> if full then forall a :: a in must ==> a in s.durable else s.limit.Some?
    case _ => true
  }

  /** Only a dead writer has dropped anything, and only a page waiting for its barrier is queued. */
  ghost predicate WriterInv(s: State)
  {
    && (s.writerAlive ==> s.dropped == {})
    && (!s.writerAlive || !s.pc.Enqueued? ==> s.queue == [])
  }

  ghost predicate Inv(must: set<Text>, s: State)
  {
    && CursorSafe(must, s)
    && WriterInv(s)
    && (!s.pc.Down? ==> (forall a :: a in must && UpTo(s.after, a) ==> a in s.durable) && PcInv(must, s))
  }

  /** Authors that were lost with a failed writer, and that the end of the page covers. */
  ghost predicate AllWritten(must: set<Text>, lost: set<Text>, end: Option<Text>, durable: set<Text>)
  {
    forall a :: a in must && a in lost && Covered(end, a) ==> a in durable
  }

  lemma PageKeepsInv(must: set<Text>, s: State, act: Action, s': State)
    requires (forall a :: a in must ==> IsHexKey(a)) && Inv(must, s) && act.Page? && Step(must, s, act, s')
    ensures Inv(must, s')
  {
    var batch := Valid(act.authors);
    assert s'.queue[|s.queue|] == batch;
    forall a | a in must && Covered(act.end, a) ensures Kept(s', a) || a in Elements(s'.queue) {
      if Beyond(s.after, a) {
        assert a in act.authors && a in batch;
      }
    }
  }

  lemma StartKeepsInv(must: set<Text>, s: State, act: Action, s': State)
    requires Inv(must, s) && act.Start? && Step(must, s, act, s')
    ensures Inv(must, s')
  {
  }

  /** A cursor may be stored when nothing it covers was lost. */
  lemma CursorKeepsInv(must: set<Text>, s: State, act: Action, s': State)
    requires Inv(must, s) && act.CursorStored? && Step(must, s, act, s')
    requires AllWritten(must, s.dropped, Some(s.pc.cursor), s.durable)
    ensures Inv(must, s')
  {
  }

  lemma WriterKeepsInv(must: set<Text>, s: State, act: Action, s': State)
    requires Inv(must, s) && (act.WriterCommits? || act.WriterDies? || act.Crash?) && Step(must, s, act, s')
    ensures Inv(must, s')
  {
  }

  /**
   Every step, crash and writer action keeps the invariant, provided that the walk relies on a
   barrier only when nothing its page needed was lost.
   */
  lemma StepKeepsInv(must: set<Text>, s: State, act: Action, s': State)
    requires (forall a :: a in must ==> IsHexKey(a)) && Inv(must, s) && Step(must, s, act, s')
    requires act.CursorStored? ==> AllWritten(must, s.dropped, Some(s.pc.cursor), s.durable)
    requires act.EndProbeOk? && s.pc.full ==> AllWritten(must, s.dropped, None, s.durable)
    ensures Inv(must, s')
  {
    if act.Page? {
      PageKeepsInv(must, s, act, s');
    } else if act.Start? {
      StartKeepsInv(must, s, act, s');
    } else if act.CursorStored? {
      CursorKeepsInv(must, s, act, s');
    } else if act.WriterCommits? || act.WriterDies? || act.Crash? {
      WriterKeepsInv(must, s, act, s');
    }
  }

  // ---------------------------------------------------------------------------
  // Crash safety
  // ---------------------------------------------------------------------------

  /** In every state the stored cursors are safe, and a walk that returned well at the end has everything. */
  ghost predicate SafeThroughout(must: set<Text>, tr: seq<State>)
  {
    forall i :: 0 <= i < |tr| ==>
      CursorSafe(must, tr[i]) && (tr[i].pc == Returned(true, true) ==> forall a :: a in must ==> a in tr[i].durable)
  }

  /** At step d the writer fails with a page in its queue, and the walk goes on as if it had been written. */
  predicate TrustedFailure(tr: seq<State>, acts: seq<Action>, d: nat)
    requires |tr| == |acts| + 1
  {
    && d + 2 < |acts| && acts[d].WriterDies? && tr[d].pc.Enqueued?
    && (acts[d + 2].CursorStored? || acts[d + 2].EndProbeOk?)
  }

  /** Every author such a failure took out of the queue had been written before. */
  ghost predicate FailuresAreHarmless(must: set<Text>, tr: seq<State>, acts: seq<Action>)
    requires |tr| == |acts| + 1
  {
    forall d: nat :: TrustedFailure(tr, acts, d) ==>
      AllWritten(must, Elements(tr[d].queue), tr[d].pc.end, tr[d].durable)
  }

  /** The writer was alive whenever a barrier returned to a walk that had a page in the queue. */
  predicate BarriersAnswered(tr: seq<State>, acts: seq<Action>)
    requires |tr| == |acts| + 1
  {
    forall j :: 0 <= j < |acts| && (acts[j].FlushReturns? || acts[j].FinalFlush?) && tr[j].pc.Enqueued? ==>
      tr[j].writerAlive
  }

  lemma {:induction false} RunKeepsWriterInv(must: set<Text>, tr: seq<State>, acts: seq<Action>, i: nat)
    requires IsRun(must, tr, acts) && i < |tr|
    ensures WriterInv(tr[i])
  {
    if i > 0 {
      RunKeepsWriterInv(must, tr, acts, i - 1);
      assert Step(must, tr[i - 1], acts[i - 1], tr[i]);
    }
  }

  /** Something is lost in a page waiting for its barrier only if the writer failed in the step before. */
  lemma LostWhileQueued(must: set<Text>, tr: seq<State>, acts: seq<Action>, i: nat)
    requires IsRun(must, tr, acts) && i < |tr| && tr[i].dropped != {} && tr[i].pc.Enqueued?
    ensures i > 0 && acts[i - 1].WriterDies? && tr[i - 1].pc == tr[i].pc
    ensures tr[i].dropped == Elements(tr[i - 1].queue) && tr[i].durable == tr[i - 1].durable
  {
    RunKeepsWriterInv(must, tr, acts, i);
    if i > 0 {
      RunKeepsWriterInv(must, tr, acts, i - 1);
      assert Step(must, tr[i - 1], acts[i - 1], tr[i]);
    }
  }

  /** And behind the barrier only if that barrier returned right after the failure. */
  lemma LostBehindBarrier(must: set<Text>, tr: seq<State>, acts: seq<Action>, i: nat)
    requires IsRun(must, tr, acts) && i < |tr| && tr[i].dropped != {}
    requires tr[i].pc.Flushed? || tr[i].pc == EndProbing(true)
    ensures i > 1 && acts[i - 2].WriterDies?
    ensures tr[i - 2].pc == Enqueued(if tr[i].pc.Flushed? then Some(tr[i].pc.cursor) else None)
    ensures tr[i].dropped == Elements(tr[i - 2].queue) && tr[i].durable == tr[i - 2].durable
  {
    RunKeepsWriterInv(must, tr, acts, i);
    if i > 0 {
      RunKeepsWriterInv(must, tr, acts, i - 1);
      assert Step(must, tr[i - 1], acts[i - 1], tr[i]);
      if acts[i - 1].FlushReturns? || acts[i - 1].FinalFlush? {
        LostWhileQueued(must, tr, acts, i - 1);
      }
    }
  }

  lemma {:induction false} RunKeepsInv(must: set<Text>, tr: seq<State>, acts: seq<Action>, i: nat)
    requires (forall a :: a in must ==> IsHexKey(a)) && IsRun(must, tr, acts) && i < |tr|
    requires FailuresAreHarmless(must, tr, acts)
    ensures Inv(must, tr[i])
  {
    if i > 0 {
      RunKeepsInv(must, tr, acts, i - 1);
      var s, act := tr[i - 1], acts[i - 1];
      assert Step(must, s, act, tr[i]);
      if s.dropped != {} && (act.CursorStored? || (act.EndProbeOk? && s.pc.full)) {
        LostBehindBarrier(must, tr, acts, i - 1);
        assert TrustedFailure(tr, acts, i - 3);
      }
      StepKeepsInv(must, s, act, tr[i]);
    }
  }

  /** The walk comes to rely on a lost page only through a barrier that returns on a dead writer. */
  lemma TrustedFailureIsABarrier(must: set<Text>, tr: seq<State>, acts: seq<Action>, d: nat)
    requires IsRun(must, tr, acts) && TrustedFailure(tr, acts, d)
    ensures acts[d + 1].FlushReturns? || acts[d + 1].FinalFlush?
    ensures tr[d + 1].pc.Enqueued? && !tr[d + 1].writerAlive
  {
    assert Step(must, tr[d], acts[d], tr[d + 1]);
    assert Step(must, tr[d + 1], acts[d + 1], tr[d + 2]);
    assert Step(must, tr[d + 2], acts[d + 2], tr[d + 3]);
  }

  /** What the walk relies on after a trusted failure is what had been written before it. */
  lemma TrustedFailureShows(must: set<Text>, tr: seq<State>, acts: seq<Action>, d: nat)
    requires IsRun(must, tr, acts) && TrustedFailure(tr, acts, d) && SafeThroughout(must, tr)
    ensures AllWritten(must, Elements(tr[d].queue), tr[d].pc.end, tr[d].durable)
  {
    assert Step(must, tr[d], acts[d], tr[d + 1]);
    assert Step(must, tr[d + 1], acts[d + 1], tr[d + 2]);
    assert Step(must, tr[d + 2], acts[d + 2], tr[d + 3]);
    var s := tr[d + 3];
    assert s.durable == tr[d].durable;
    if acts[d + 2].CursorStored? {
      assert s.runs[s.run].cursor == tr[d].pc.end;
    } else {
      assert s.pc == Returned(true, true);
    }
  }

  /**
   Crash safety, exactly. Whatever the interleaving of crashes, aborts, resumes, rejected cursors
   and writer failures: the cursors are safe and the result is complete throughout a run if and
   only if every page that was queued when the writer failed, and that the walk went on
   to rely on, held nothing that was not durable already.
   */
  lemma WalkIsSafeIff(must: set<Text>, tr: seq<State>, acts: seq<Action>)
    requires (forall a :: a in must ==> IsHexKey(a)) && IsRun(must, tr, acts)
    ensures SafeThroughout(must, tr) <==> FailuresAreHarmless(must, tr, acts)
  {
    if FailuresAreHarmless(must, tr, acts) {
      forall i | 0 <= i < |tr|
        ensures CursorSafe(must, tr[i])
        ensures tr[i].pc == Returned(true, true) ==> forall a :: a in must ==> a in tr[i].durable
      {
        RunKeepsInv(must, tr, acts, i);
      }
    }
    if SafeThroughout(must, tr) {
      forall d: nat | TrustedFailure(tr, acts, d)
        ensures AllWritten(must, Elements(tr[d].queue), tr[d].pc.end, tr[d].durable)
      {
        TrustedFailureShows(must, tr, acts, d);
      }
    }
  }

  /**
   The writer may fail at any step: as long as no barrier returns to a queued page on a dead
   writer, no durable cursor ever runs ahead of the durable authors.
   */
  lemma CrashSafety(must: set<Text>, tr: seq<State>, acts: seq<Action>)
    requires (forall a :: a in must ==> IsHexKey(a)) && IsRun(must, tr, acts) && BarriersAnswered(tr, acts)
    ensures SafeThroughout(must, tr)
  {
    forall d: nat ensures !TrustedFailure(tr, acts, d) {
      if TrustedFailure(tr, acts, d) {
        TrustedFailureIsABarrier(must, tr, acts, d);
        assert false;
      }
    }
    WalkIsSafeIff(must, tr, acts);
  }

  // ---------------------------------------------------------------------------
  // How far a walk goes
  // ---------------------------------------------------------------------------

  /** The valid authors in the pages of the steps `lo`, ..., `hi - 1`. */
  function Fetched(acts: seq<Action>, lo: nat, hi: nat): (n: nat)
    requires lo <= hi <= |acts|
    decreases hi
  {
    if lo == hi then 0
    else Fetched(acts, lo, hi - 1) + if acts[hi - 1].Page? then CountValid(acts[hi - 1].authors) else 0
  }

  /** Step b is the last start before i. */
  ghost predicate IsLastStart(acts: seq<Action>, b: nat, i: nat)
  {
    b < i <= |acts| && acts[b].Start? && forall j :: b < j < i ==> !acts[j].Start?
  }

  /** Step k is the last page before i, after the start at b. */
  ghost predicate IsLastPage(acts: seq<Action>, b: nat, k: nat, i: nat)
  {
    b < k < i <= |acts| && acts[k].Page? && forall j :: k < j < i ==> !acts[j].Page?
  }

  ghost predicate NoPages(acts: seq<Action>, b: nat, i: nat)
  {
    forall j :: b < j < i && j < |acts| ==> !acts[j].Page?
  }

  /** Before the page at k the limit was not reached, or there was no page. */
  ghost predicate WasShort(acts: seq<Action>, b: nat, k: nat, limit: Option<nat>)
    requires b < k <= |acts|
  {
    NoPages(acts, b, k) || limit.None? || Fetched(acts, b + 1, k) < limit.value
  }

  /** What the counter and the position of a walk say about the pages since its start. */
  ghost predicate LimitInv(s: State, acts: seq<Action>, b: nat, i: nat, k: nat)
    requires IsLastStart(acts, b, i)
  {
    && s.limit == acts[b].limit && s.count == Fetched(acts, b + 1, i)
    && (s.pc.Probing? || s.pc.Fetching? ==> WasShort(acts, b, i, s.limit))
    && (s.pc.Enqueued? || s.pc.Flushed? || s.pc.Stopping? || s.pc.EndProbing? || (s.pc.Returned? && s.pc.ok) ==>
          IsLastPage(acts, b, k, i) && WasShort(acts, b, k, s.limit))
    && (s.pc.Stopping? || s.pc == EndProbing(false) || s.pc == Returned(true, false) ==>
          s.limit.Some? && s.limit.value <= s.count)
  }

  lemma {:induction false} WalkKeepsLimitInv(must: set<Text>, tr: seq<State>, acts: seq<Action>, b: nat, i: nat)
    returns (k: nat)
    requires IsRun(must, tr, acts) && IsLastStart(acts, b, i)
    ensures LimitInv(tr[i], acts, b, i, k)
  {
    k := 0;
    if b + 1 == i {
      StartGivesLimitInv(must, tr, acts, b);
    } else {
      k := WalkKeepsLimitInv(must, tr, acts, b, i - 1);
      RunStepKeepsLimitInv(must, tr, acts, b, i, k);
      if acts[i - 1].Page? {
        k := i - 1;
      }
    }
  }

  lemma StartGivesLimitInv(must: set<Text>, tr: seq<State>, acts: seq<Action>, b: nat)
    requires IsRun(must, tr, acts) && IsLastStart(acts, b, b + 1)
    ensures LimitInv(tr[b + 1], acts, b, b + 1, 0)
  {
    assert Step(must, tr[b], acts[b], tr[b + 1]);
  }

  lemma RunStepKeepsLimitInv(must: set<Text>, tr: seq<State>, acts: seq<Action>, b: nat, i: nat, k: nat)
    requires IsRun(must, tr, acts) && IsLastStart(acts, b, i) && b + 1 < i && LimitInv(tr[i - 1], acts, b, i - 1, k)
    ensures LimitInv(tr[i], acts, b, i, if acts[i - 1].Page? then i - 1 else k)
  {
    assert Step(must, tr[i - 1], acts[i - 1], tr[i]);
    StepKeepsLimitInv(must, tr[i - 1], acts, b, i, tr[i], k);
  }

  lemma StepKeepsLimitInv(must: set<Text>, s: State, acts: seq<Action>, b: nat, i: nat, s': State, k: nat)
    requires IsLastStart(acts, b, i) && b + 1 < i && Step(must, s, acts[i - 1], s')
    requires LimitInv(s, acts, b, i - 1, k)
    ensures LimitInv(s', acts, b, i, if acts[i - 1].Page? then i - 1 else k)
  {
  }

  /**
   `--limit`: a walk returns well short of the end of the listing only if it was last started with a limit and its
   pages held that many valid authors; and up to its last page they did not, unless that was the
   only one.
   */
  lemma LimitedWalkStopsInTime(must: set<Text>, tr: seq<State>, acts: seq<Action>, b: nat, i: nat) returns (k: nat)
    requires IsRun(must, tr, acts) && IsLastStart(acts, b, i) && tr[i].pc == Returned(true, false)
    ensures acts[b].limit.Some? && acts[b].limit.value <= Fetched(acts, b + 1, i)
    ensures IsLastPage(acts, b, k, i) && (NoPages(acts, b, k) || Fetched(acts, b + 1, k) < acts[b].limit.value)
  {
    k := WalkKeepsLimitInv(must, tr, acts, b, i);
  }

  /**
   A walk last started without a limit, on whatever earlier walks left behind, never stops early: if it returns
   well it has walked to the end of the listing and has every author durable.
   */
  lemma CompleteWhenReturned(must: set<Text>, tr: seq<State>, acts: seq<Action>, b: nat, i: nat)
    requires (forall a :: a in must ==> IsHexKey(a)) && IsRun(must, tr, acts)
    requires IsLastStart(acts, b, i) && acts[b].limit.None? && tr[i].pc.Returned? && tr[i].pc.ok
    ensures tr[i].pc.full
    ensures FailuresAreHarmless(must, tr, acts) ==> forall a :: a in must ==> a in tr[i].durable
  {
    var k := WalkKeepsLimitInv(must, tr, acts, b, i);
    if FailuresAreHarmless(must, tr, acts) {
      RunKeepsInv(must, tr, acts, i);
    }
  }

  // ---------------------------------------------------------------------------
  // Where a walk asks
  // ---------------------------------------------------------------------------

  ghost predicate IsLatestUnfinished(runs: seq<Run>, u: nat)
  {
    u < |runs| && !runs[u].status.Done? && forall i :: u < i < |runs| ==> runs[i].status.Done?
  }

  /** Until a cursor is stored or rejected, a walk is where its start has put it. */
  lemma {:induction false} PositionAfterStart(must: set<Text>, tr: seq<State>, acts: seq<Action>, b: nat, i: nat)
    requires IsRun(must, tr, acts) && IsLastStart(acts, b, i)
    requires forall j :: b < j < i ==> !acts[j].CursorStored? && !acts[j].CursorRejected?
    ensures tr[i].run == tr[b + 1].run && tr[i].after == tr[b + 1].after
  {
    if b + 1 < i {
      PositionAfterStart(must, tr, acts, b, i - 1);
      assert Step(must, tr[i - 1], acts[i - 1], tr[i]);
    }
  }

  /**
   The first page of a resumed walk is asked for beyond the stored cursor of the latest unfinished run, into that run;
   without one, or without resuming, it is asked for from the beginning, into a new run.
   */
  lemma FirstRequest(must: set<Text>, tr: seq<State>, acts: seq<Action>, b: nat, i: nat)
    requires IsRun(must, tr, acts) && IsLastStart(acts, b, i) && i < |acts| && acts[i].Page?
    requires forall j :: b < j < i ==> !acts[j].CursorStored? && !acts[j].CursorRejected?
    ensures forall u: nat :: acts[b].resume && IsLatestUnfinished(tr[b].runs, u) ==>
              tr[i].run == u && tr[i].after == tr[b].runs[u].cursor &&
              Honest(must, tr[b].runs[u].cursor, acts[i].authors, acts[i].end)
    ensures !acts[b].resume || (forall u: nat :: !IsLatestUnfinished(tr[b].runs, u)) ==>
              tr[i].run == |tr[b].runs| && tr[i].after.None? && Honest(must, None, acts[i].authors, acts[i].end) &&
              tr[b + 1].runs == tr[b].runs + [Run(None, Running)]
  {
    PositionAfterStart(must, tr, acts, b, i);
    assert Step(must, tr[b], acts[b], tr[b + 1]);
    assert Step(must, tr[i], acts[i], tr[i + 1]);
    var latest := LatestUnfinished(tr[b].runs);
    if latest.Some? {
      assert IsLatestUnfinished(tr[b].runs, latest.value);
    }
  }

  /** Every further page is asked for beyond the end cursor just stored, or from the beginning after a rejection. */
  lemma {:induction false} NextRequest(must: set<Text>, tr: seq<State>, acts: seq<Action>, r: nat, i: nat)
    requires IsRun(must, tr, acts) && r < i < |acts| && acts[i].Page? &&
             (acts[r].CursorStored? || acts[r].CursorRejected?)
    requires forall j :: r < j < i ==> !acts[j].CursorStored? && !acts[j].CursorRejected? && !acts[j].Start?
    ensures acts[r].CursorRejected? ==> Honest(must, None, acts[i].authors, acts[i].end)
    ensures acts[r].CursorStored? ==>
              tr[r].pc.Flushed? && Honest(must, Some(tr[r].pc.cursor), acts[i].authors, acts[i].end)
  {
    assert Step(must, tr[r], acts[r], tr[r + 1]);
    assert Step(must, tr[i], acts[i], tr[i + 1]);
    PositionStays(must, tr, acts, r + 1, i);
  }

  lemma {:induction false} PositionStays(must: set<Text>, tr: seq<State>, acts: seq<Action>, r: nat, i: nat)
    requires IsRun(must, tr, acts) && r <= i < |tr|
    requires forall j :: r <= j < i ==> !acts[j].CursorStored? && !acts[j].CursorRejected? && !acts[j].Start?
    ensures tr[i].after == tr[r].after && tr[i].run == tr[r].run
  {
    if r < i {
      PositionStays(must, tr, acts, r, i - 1);
      assert Step(must, tr[i - 1], acts[i - 1], tr[i]);
    }
  }

  /** The cursor that is stored is the end cursor of the last page. */
  lemma {:induction false} StoredCursorIsPageEnd(must: set<Text>, tr: seq<State>, acts: seq<Action>, i: nat)
    returns (k: nat)
    requires IsRun(must, tr, acts) && i < |tr| && (tr[i].pc.Enqueued? || tr[i].pc.Flushed?)
    ensures k < i && acts[k].Page? && forall j :: k < j < i ==> !acts[j].Page?
    ensures acts[k].end == if tr[i].pc.Enqueued? then tr[i].pc.end else Some(tr[i].pc.cursor)
  {
    k := 0;
    if i > 0 {
      assert Step(must, tr[i - 1], acts[i - 1], tr[i]);
      if acts[i - 1].Page? {
        k := i - 1;
      } else {
        k := StoredCursorIsPageEnd(must, tr, acts, i - 1);
      }
    }
  }

  // ---------------------------------------------------------------------------
  // The rows
  // ---------------------------------------------------------------------------

  /**
   Run rows: a new one appears only at a start, running and without cursor. A cursor changes only when it is stored,
   in the current run; a status only when the current run is aborted by a failed request or marked
   done after a good return.
   */
  lemma RowsChangeOnly(must: set<Text>, s: State, act: Action, s': State, i: nat)
    requires Step(must, s, act, s') && i < |s'.runs|
    ensures |s.runs| <= |s'.runs| && (i >= |s.runs| ==> act.Start? && s'.runs[i] == Run(None, Running))
    ensures i < |s.runs| && s'.runs[i].cursor != s.runs[i].cursor ==>
              act.CursorStored? && i == s.run && s.pc.Flushed? && s'.runs[i].cursor == Some(s.pc.cursor)
    ensures i < |s.runs| && s'.runs[i].status != s.runs[i].status ==>
              i == s.run &&
              if act.FetchFails? then s'.runs[i].status == Aborted
              else act.MarkDone? && s'.runs[i].status == Done && s.pc.Returned? && s.pc.ok
  {
  }

  /** The author is in one of the first n batches. */
  ghost predicate IsAmong(queue: seq<seq<Text>>, n: nat, a: Text)
  {
    exists i :: 0 <= i < n && i < |queue| && a in queue[i]
  }

  /** Authors become durable only by a commit, which takes whole batches from the front of the queue. */
  lemma WritesAreCommits(must: set<Text>, s: State, act: Action, s': State, a: Text)
    requires Step(must, s, act, s')
    ensures a in s'.durable <==> a in s.durable || (act.WriterCommits? && IsAmong(s.queue, act.batches, a))
    ensures act.WriterCommits? ==> act.batches <= |s.queue| && s'.queue == s.queue[act.batches..]
  {
  }

  /** A failed probe, request or store call ends the walk with an error, and no cursor moves. */
  lemma FailuresEndTheWalk(must: set<Text>, s: State, act: Action, s': State)
    requires Step(must, s, act, s') && (act.ProbeFails? || act.FetchFails? || act.CursorFails? || act.EndProbeFails?)
    ensures s'.pc.Returned? && !s'.pc.ok && s'.durable == s.durable && s'.queue == s.queue
    ensures |s'.runs| == |s.runs| && forall i :: 0 <= i < |s.runs| ==> s'.runs[i].cursor == s.runs[i].cursor
    ensures act.FetchFails? ==> s.run < |s.runs| && s'.runs[s.run].status == Aborted
  {
  }

  /** A run is done only because a walk into it returned well. */
  lemma {:induction false} DoneMeansReturned(must: set<Text>, tr: seq<State>, acts: seq<Action>, n: nat, i: nat)
    returns (j: nat)
    requires IsRun(must, tr, acts) && n < |tr| && i < |tr[n].runs| && tr[n].runs[i].status.Done?
    ensures j < n && acts[j].MarkDone? && tr[j].run == i && tr[j].pc.Returned? && tr[j].pc.ok
  {
    j := 0;
    if n > 0 {
      j := n - 1;
      assert Step(must, tr[n - 1], acts[n - 1], tr[n]);
      RowsChangeOnly(must, tr[n - 1], acts[n - 1], tr[n], i);
      if i < |tr[n - 1].runs| && tr[n - 1].runs[i].status.Done? {
        j := DoneMeansReturned(must, tr, acts, n - 1, i);
      }
    }
  }

  /** A valid author of a page that was fetched before. */
  ghost predicate WasFetched(acts: seq<Action>, i: nat, a: Text)
  {
    IsHexKey(a) && exists j :: 0 <= j < i && j < |acts| && acts[j].Page? && a in acts[j].authors
  }

  /** Nothing is written but valid authors that a page contained. */
  lemma {:induction false} OnlyFetchedIsWritten(must: set<Text>, tr: seq<State>, acts: seq<Action>, i: nat)
    requires IsRun(must, tr, acts) && i < |tr|
    ensures forall a :: a in tr[i].durable || a in Elements(tr[i].queue) ==> WasFetched(acts, i, a)
  {
    if i > 0 {
      OnlyFetchedIsWritten(must, tr, acts, i - 1);
      var s, act, s' := tr[i - 1], acts[i - 1], tr[i];
      assert Step(must, s, act, s');
      forall a | a in s'.durable || a in Elements(s'.queue) ensures WasFetched(acts, i, a) {
        OneStepWrites(must, s, act, s', a);
        assert (a in s.durable || a in Elements(s.queue)) ==> WasFetched(acts, i - 1, a);
      }
    }
  }

  lemma OneStepWrites(must: set<Text>, s: State, act: Action, s': State, a: Text)
    requires Step(must, s, act, s') && (a in s'.durable || a in Elements(s'.queue))
    ensures a in s.durable || a in Elements(s.queue) || (act.Page? && a in act.authors && IsHexKey(a))
  {
  }

  /** A run of six steps: one author, one page, and a writer that dies with the page in its queue. */
  ghost function Mishap(a: Text, k: nat): (s: State)
  {
    var page := Valid([a]);
    var empty := State([], true, {}, {}, [], Down, 0, None, 0, None);
    var begun := empty.(runs := [Run(None, Running)], pc := Probing);
    var queued := begun.(queue := [page], count := |page|, pc := Enqueued(Some(a)));
    var dead := queued.(queue := [], writerAlive := false, dropped := Elements([page]));
    if k == 0 then empty
    else if k == 1 then begun
    else if k == 2 then begun.(pc := Fetching)
    else if k == 3 then queued
    else if k == 4 then dead
    else if k == 5 then dead.(pc := Flushed(a))
    else dead.(runs := [Run(Some(a), Running)], after := Some(a), pc := Fetching)
  }

  ghost function MishapAction(a: Text, k: nat): (act: Action)
  {
    if k == 0 then Start(false, None)
    else if k == 1 then ProbeOk
    else if k == 2 then Page([a], Some(a))
    else if k == 3 then WriterDies
    else if k == 4 then FlushReturns
    else CursorStored
  }

  lemma MishapBegins(a: Text, k: nat)
    requires k < 3
    ensures Step({a}, Mishap(a, k), MishapAction(a, k), Mishap(a, k + 1))
  {
  }

  lemma MishapEnds(a: Text, k: nat)
    requires 3 <= k < 6
    ensures Step({a}, Mishap(a, k), MishapAction(a, k), Mishap(a, k + 1))
  {
  }

  /**
   The barrier is silent about a failed writer: `flush` returns normally and the cursor is stored
   past an author that never became durable.
   */
  lemma FailedWriterBreaksSafety(a: Text) returns (tr: seq<State>, acts: seq<Action>)
    requires IsHexKey(a)
    ensures IsRun({a}, tr, acts) && !CursorSafe({a}, tr[|tr| - 1])
  {
    tr := seq(7, k requires 0 <= k => Mishap(a, k));
    acts := seq(6, k requires 0 <= k => MishapAction(a, k));
    forall k | 0 <= k < 6 ensures Step({a}, tr[k], acts[k], tr[k + 1]) {
      if k < 3 { MishapBegins(a, k); } else { MishapEnds(a, k); }
    }
    LexIrreflexive(a);
    assert UpTo(tr[6].runs[0].cursor, a) && a !in tr[6].durable;
  }
}
