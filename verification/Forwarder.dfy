/**
 The rescue pipeline: a dispatcher hands pubkeys to a pool of workers, each worker publishes
 its events oldest first, and what the relay accepted is later deleted from quarantine.
 The pool is a state machine; every interleaving is a run of it.
 */
module Forwarder {
  import Deleter

  datatype Event = Event(id: string, createdAt: int, decodable: bool)

  datatype Job = Job(pubkey: string, events: seq<Event>)

  /** A worker dials the relay once; then it holds what is left of its current job. */
  datatype Worker = Starting | Live(connected: bool, pubkey: string, rest: seq<Event>) | Exited

  datatype Publish = Publish(worker: nat, pubkey: string, event: Event)

  /**
   `pending` are the pubkeys not yet dispatched, in map iteration order; `failing` is what is left
   of a job the dispatcher fails itself because of cancellation.
   */
  datatype State = State(
    pending: seq<Job>,
    failing: seq<Event>,
    closed: bool,
    workers: seq<Worker>,
    cancelled: bool,
    success: seq<string>,
    failed: seq<string>,
    published: seq<Publish>,
    accepted: set<string>)

  datatype Action =
    | Cancel
    | Connect(w: nat, ok: bool)
    | Dispatch(w: nat)
    | DispatchCancelled
    | FailOne
    | Process(w: nat, relayAccepts: bool, acknowledged: bool)
    | Close
    | Exit(w: nat)

  // ---------------------------------------------------------------------------
  // Sorting a pubkey's events
  // ---------------------------------------------------------------------------

  ghost predicate OldestFirst(s: seq<Event>)
  {
    forall i, j :: 0 <= i < j < |s| ==> s[i].createdAt <= s[j].createdAt
  }

  function Insert(s: seq<Event>, e: Event): (r: seq<Event>)
    ensures |r| == |s| + 1
  {
    if s == [] || s[|s| - 1].createdAt <= e.createdAt then s + [e] else Insert(s[..|s| - 1], e) + [s[|s| - 1]]
  }

  /** The stable sort by created_at. */
  function StableSort(events: seq<Event>): (r: seq<Event>)
    ensures |r| == |events|
  {
    if events == [] then [] else Insert(StableSort(events[..|events| - 1]), events[|events| - 1])
  }

  /** The events of one second, in order. */
  function AtTime(s: seq<Event>, t: int): (r: seq<Event>)
  {
    if s == [] then [] else AtTime(s[..|s| - 1], t) + if s[|s| - 1].createdAt == t then [s[|s| - 1]] else []
  }

  lemma {:induction false} InsertKeepsEvents(s: seq<Event>, e: Event)
    ensures multiset(Insert(s, e)) == multiset(s) + multiset{e}
  {
    if s != [] && e.createdAt < s[|s| - 1].createdAt {
      InsertKeepsEvents(s[..|s| - 1], e);
      assert s == s[..|s| - 1] + [s[|s| - 1]];
    }
  }

  lemma {:induction false} InsertKeepsOrder(s: seq<Event>, e: Event)
    requires OldestFirst(s)
    ensures OldestFirst(Insert(s, e))
  {
    if s != [] && e.createdAt < s[|s| - 1].createdAt {
      var init, last := s[..|s| - 1], s[|s| - 1];
      InsertKeepsOrder(init, e);
      InsertKeepsEvents(init, e);
      var r := Insert(init, e);
      forall i | 0 <= i < |r| ensures r[i].createdAt <= last.createdAt {
        assert r[i] in multiset(r);
        assert r[i] in multiset(init) || r[i] == e;
      }
    }
  }

  lemma AtTimeSnoc(s: seq<Event>, e: Event, t: int)
    ensures AtTime(s + [e], t) == AtTime(s, t) + if e.createdAt == t then [e] else []
  {
  }

  lemma {:induction false} InsertIsStable(s: seq<Event>, e: Event, t: int)
    ensures AtTime(Insert(s, e), t) == AtTime(s, t) + if e.createdAt == t then [e] else []
  {
    if s == [] || s[|s| - 1].createdAt <= e.createdAt {
      AtTimeSnoc(s, e, t);
    } else {
      var init, last := s[..|s| - 1], s[|s| - 1];
      InsertIsStable(init, e, t);
      AtTimeSnoc(Insert(init, e), last, t);
      AtTimeSnoc(init, last, t);
      assert s == init + [last];
    }
  }

  /** Oldest first, and the same events. */
  lemma {:induction false} StableSortSorts(events: seq<Event>)
    ensures OldestFirst(StableSort(events)) && multiset(StableSort(events)) == multiset(events)
  {
    if events != [] {
      var init, last := events[..|events| - 1], events[|events| - 1];
      StableSortSorts(init);
      InsertKeepsOrder(StableSort(init), last);
      InsertKeepsEvents(StableSort(init), last);
      assert events == init + [last];
    }
  }

  /** Events of one second stay in their order of arrival. */
  lemma {:induction false} StableSortIsStable(events: seq<Event>, t: int)
    ensures AtTime(StableSort(events), t) == AtTime(events, t)
  {
    if events != [] {
      StableSortIsStable(events[..|events| - 1], t);
      InsertIsStable(StableSort(events[..|events| - 1]), events[|events| - 1], t);
    }
  }

  // ---------------------------------------------------------------------------
  // The steps
  // ---------------------------------------------------------------------------

  ghost predicate Init(jobs: seq<Job>, n: nat, s: State)
  {
    s == State(jobs, [], false, seq(n, i => Starting), false, [], [], [], {})
  }

  predicate Idle(w: Worker)
  {
    w.Live? && w.rest == []
  }

  /** A worker receives a job, its events sorted. */
  function Take(w: Worker, job: Job): (w': Worker)
    requires w.Live?
  {
    Live(w.connected, job.pubkey, StableSort(job.events))
  }

  /** A worker deals with the first event of its job. */
  function ProcessOne(s: State, w: nat, relayAccepts: bool, acknowledged: bool): (s': State)
    requires w < |s.workers| && s.workers[w].Live? && s.workers[w].rest != []
  {
    var worker := s.workers[w];
    var ev := worker.rest[0];
    var moved := s.(workers := s.workers[w := worker.(rest := worker.rest[1..])]);
    if !worker.connected || s.cancelled || !ev.decodable then moved.(failed := s.failed + [ev.id])
    else
      var sent := moved.(published := s.published + [Publish(w, worker.pubkey, ev)],
                         accepted := if relayAccepts then s.accepted + {ev.id} else s.accepted);
      // The relay can accept an event whose acknowledgement is lost, never the other way round.
      if relayAccepts && acknowledged then sent.(success := s.success + [ev.id])
      else sent.(failed := s.failed + [ev.id])
  }

  ghost predicate Step(s: State, act: Action, s': State)
  {
    match act
    case Cancel => !s.cancelled && s' == s.(cancelled := true)
    case Connect(w, ok) =>
      w < |s.workers| && s.workers[w].Starting? && s' == s.(workers := s.workers[w := Live(ok, "", [])])
    case Dispatch(w) =>
      && s.pending != [] && s.failing == [] && w < |s.workers| && Idle(s.workers[w])
      && s' == s.(pending := s.pending[1..], workers := s.workers[w := Take(s.workers[w], s.pending[0])])
    case DispatchCancelled =>
      && s.pending != [] && s.failing == [] && s.cancelled
      && s' == s.(pending := s.pending[1..], failing := StableSort(s.pending[0].events))
    case FailOne => s.failing != [] && s' == s.(failing := s.failing[1..], failed := s.failed + [s.failing[0].id])
    case Process(w, relayAccepts, acknowledged) =>
      w < |s.workers| && s.workers[w].Live? && s.workers[w].rest != [] &&
      s' == ProcessOne(s, w, relayAccepts, acknowledged)
    case Close => s.pending == [] && s.failing == [] && !s.closed && s' == s.(closed := true)
    case Exit(w) => s.closed && w < |s.workers| && Idle(s.workers[w]) && s' == s.(workers := s.workers[w := Exited])
  }

  ghost predicate IsRun(jobs: seq<Job>, n: nat, tr: seq<State>, acts: seq<Action>)
  {
    && |tr| == |acts| + 1 && Init(jobs, n, tr[0])
    && forall i :: 0 <= i < |acts| ==> Step(tr[i], acts[i], tr[i + 1])
  }

  predicate Finished(s: State)
  {
    s.closed && forall i :: 0 <= i < |s.workers| ==> s.workers[i].Exited?
  }

  // ---------------------------------------------------------------------------
  // Conservation of ids
  // ---------------------------------------------------------------------------

  /** How often an id occurs among events. */
  function Count(events: seq<Event>, id: string): (n: nat)
  {
    if events == [] then 0 else (if events[0].id == id then 1 else 0) + Count(events[1..], id)
  }

  function CountJobs(jobs: seq<Job>, id: string): (n: nat)
  {
    if jobs == [] then 0 else Count(jobs[0].events, id) + CountJobs(jobs[1..], id)
  }

  function RestOf(w: Worker): (s: seq<Event>)
  {
    if w.Live? then w.rest else []
  }

  function CountWorkers(ws: seq<Worker>, id: string): (n: nat)
  {
    if ws == [] then 0 else Count(RestOf(ws[0]), id) + CountWorkers(ws[1..], id)
  }

  lemma {:induction false} CountWorkersUpdate(ws: seq<Worker>, w: nat, x: Worker, id: string)
    requires w < |ws|
    ensures CountWorkers(ws[w := x], id) == CountWorkers(ws, id) - Count(RestOf(ws[w]), id) + Count(RestOf(x), id)
  {
    if w == 0 {
      assert ws[0 := x][1..] == ws[1..];
    } else {
      CountWorkersUpdate(ws[1..], w - 1, x, id);
      assert ws[w := x][1..] == ws[1..][w - 1 := x];
    }
  }

  lemma {:induction false} CountSnoc(s: seq<Event>, e: Event, id: string)
    ensures Count(s + [e], id) == Count(s, id) + if e.id == id then 1 else 0
  {
    if s == [] {
      assert s + [e] == [e];
      assert [e][1..] == [];
    } else {
      CountSnoc(s[1..], e, id);
      assert (s + [e])[1..] == s[1..] + [e];
    }
  }

  lemma {:induction false} CountInsert(s: seq<Event>, e: Event, id: string)
    ensures Count(Insert(s, e), id) == Count(s, id) + if e.id == id then 1 else 0
  {
    if s == [] || s[|s| - 1].createdAt <= e.createdAt {
      CountSnoc(s, e, id);
    } else {
      var init, last := s[..|s| - 1], s[|s| - 1];
      CountInsert(init, e, id);
      CountSnoc(Insert(init, e), last, id);
      CountSnoc(init, last, id);
      assert s == init + [last];
    }
  }

  /** Sorting does not change how often an id occurs. */
  lemma {:induction false} CountSorted(events: seq<Event>, id: string)
    ensures Count(StableSort(events), id) == Count(events, id)
  {
    if events != [] {
      var init, last := events[..|events| - 1], events[|events| - 1];
      CountSorted(init, id);
      CountInsert(StableSort(init), last, id);
      CountSnoc(init, last, id);
      assert events == init + [last];
    }
  }

  /** Where an id is: waiting, in some worker's hands, or in one of the two results. */
  function Everywhere(s: State, id: string): (n: nat)
  {
    CountJobs(s.pending, id) + Count(s.failing, id) + CountWorkers(s.workers, id) +
    multiset(s.success)[id] + multiset(s.failed)[id]
  }

  lemma StepConserves(s: State, act: Action, s': State, id: string)
    requires Step(s, act, s')
    ensures Everywhere(s', id) == Everywhere(s, id)
  {
    match act
    case Cancel =>
    case Connect(w, ok) => CountWorkersUpdate(s.workers, w, Live(ok, "", []), id);
    case Dispatch(w) =>
      CountWorkersUpdate(s.workers, w, Take(s.workers[w], s.pending[0]), id);
      CountSorted(s.pending[0].events, id);
    case DispatchCancelled => CountSorted(s.pending[0].events, id);
    case FailOne => CountAppend(s.failed, s.failing[0].id, id);
    case Process(w, relayAccepts, acknowledged) => ProcessConserves(s, w, relayAccepts, acknowledged, id);
    case Close =>
    case Exit(w) => CountWorkersUpdate(s.workers, w, Exited, id);
  }

  lemma CountAppend(s: seq<string>, x: string, id: string)
    ensures multiset(s + [x])[id] == multiset(s)[id] + if x == id then 1 else 0
  {
  }

  lemma ProcessConserves(s: State, w: nat, relayAccepts: bool, acknowledged: bool, id: string)
    requires w < |s.workers| && s.workers[w].Live? && s.workers[w].rest != []
    ensures Everywhere(ProcessOne(s, w, relayAccepts, acknowledged), id) == Everywhere(s, id)
  {
    var worker := s.workers[w];
    CountWorkersUpdate(s.workers, w, worker.(rest := worker.rest[1..]), id);
    CountAppend(s.success, worker.rest[0].id, id);
    CountAppend(s.failed, worker.rest[0].id, id);
  }

  lemma {:induction false} NoWorkYet(ws: seq<Worker>, id: string)
    requires forall i :: 0 <= i < |ws| ==> RestOf(ws[i]) == []
    ensures CountWorkers(ws, id) == 0
  {
    if ws != [] {
      NoWorkYet(ws[1..], id);
    }
  }

  lemma {:induction false} RunConserves(jobs: seq<Job>, n: nat, tr: seq<State>, acts: seq<Action>, i: nat, id: string)
    requires IsRun(jobs, n, tr, acts) && i < |tr|
    ensures Everywhere(tr[i], id) == CountJobs(jobs, id)
  {
    if i == 0 {
      NoWorkYet(tr[0].workers, id);
    } else {
      RunConserves(jobs, n, tr, acts, i - 1, id);
      StepConserves(tr[i - 1], acts[i - 1], tr[i], id);
    }
  }

  // ---------------------------------------------------------------------------
  // Order and acceptance
  // ---------------------------------------------------------------------------

  predicate Busy(ws: seq<Worker>, w: int)
  {
    0 <= w < |ws| && ws[w].Live? && ws[w].rest != []
  }

  /** Publishes of one pubkey come from one worker, oldest first. */
  ghost predicate InOrder(published: seq<Publish>)
  {
    forall i, j :: 0 <= i < j < |published| && published[i].pubkey == published[j].pubkey ==>
                   published[i].worker == published[j].worker &&
                   published[i].event.createdAt <= published[j].event.createdAt
  }

  ghost predicate DistinctJobs(jobs: seq<Job>)
  {
    forall i, j :: 0 <= i < j < |jobs| ==> jobs[i].pubkey != jobs[j].pubkey
  }

  /** `p` was published by worker `w` and is no newer than anything `w` still holds. */
  ghost predicate Precedes(p: Publish, w: int, rest: seq<Event>)
  {
    p.worker == w && forall k :: 0 <= k < |rest| ==> p.event.createdAt <= rest[k].createdAt
  }

  /** A pubkey is waiting, with one worker, or done; what was published of it is older than what is left. */
  ghost predicate Owned(pending: seq<Job>, ws: seq<Worker>, published: seq<Publish>)
  {
    && DistinctJobs(pending)
    && (forall i, j :: 0 <= i < |published| && 0 <= j < |pending| ==> published[i].pubkey != pending[j].pubkey)
    && (forall w, j :: Busy(ws, w) && 0 <= j < |pending| ==> ws[w].pubkey != pending[j].pubkey)
    && (forall w, x :: Busy(ws, w) && Busy(ws, x) && ws[w].pubkey == ws[x].pubkey ==> w == x)
    && (forall w :: Busy(ws, w) ==> OldestFirst(ws[w].rest))
    && (forall w, i :: Busy(ws, w) && 0 <= i < |published| && published[i].pubkey == ws[w].pubkey ==>
          Precedes(published[i], w, ws[w].rest))
  }

  ghost predicate Inv(s: State)
  {
    && InOrder(s.published) && Owned(s.pending, s.workers, s.published)
    && (forall id :: id in s.success ==> id in s.accepted)
    && (s.closed ==> s.pending == [] && s.failing == [])
    && (forall w :: 0 <= w < |s.workers| && s.workers[w].Exited? ==> s.closed)
  }

  lemma FewerPending(pending: seq<Job>, ws: seq<Worker>, published: seq<Publish>)
    requires Owned(pending, ws, published) && pending != []
    ensures Owned(pending[1..], ws, published)
  {
  }

  /** A worker that was not busy takes over a pubkey nobody has touched. */
  lemma TakeJob(pending: seq<Job>, ws: seq<Worker>, published: seq<Publish>, w: nat, x: Worker)
    requires Owned(pending, ws, published) && pending != [] && w < |ws| && !Busy(ws, w)
    requires x.Live? && x.pubkey == pending[0].pubkey && OldestFirst(x.rest)
    ensures Owned(pending[1..], ws[w := x], published)
  {
  }

  /** A worker that becomes or stays idle owns nothing. */
  lemma IdleWorker(pending: seq<Job>, ws: seq<Worker>, published: seq<Publish>, w: nat, x: Worker)
    requires Owned(pending, ws, published) && w < |ws| && RestOf(x) == []
    ensures Owned(pending, ws[w := x], published)
  {
  }

  /** Moving past the first event of a job. */
  lemma AdvanceWorker(pending: seq<Job>, ws: seq<Worker>, published: seq<Publish>, w: nat)
    requires Owned(pending, ws, published) && Busy(ws, w)
    ensures Owned(pending, ws[w := ws[w].(rest := ws[w].rest[1..])], published)
  {
  }

  /** Publishing an event that is no newer than the rest of its job. */
  lemma PublishOne(pending: seq<Job>, ws: seq<Worker>, published: seq<Publish>, w: nat, e: Event)
    requires Owned(pending, ws, published) && Busy(ws, w) && ws[w].rest[0] == e
    ensures Owned(pending, ws, published + [Publish(w, ws[w].pubkey, e)])
    ensures InOrder(published) ==> InOrder(published + [Publish(w, ws[w].pubkey, e)])
  {
  }

  lemma ProcessKeepsInv(s: State, w: nat, relayAccepts: bool, acknowledged: bool)
    requires Inv(s) && Busy(s.workers, w)
    ensures Inv(ProcessOne(s, w, relayAccepts, acknowledged))
  {
    var worker := s.workers[w];
    var s' := ProcessOne(s, w, relayAccepts, acknowledged);
    PublishOne(s.pending, s.workers, s.published, w, worker.rest[0]);
    AdvanceWorker(s.pending, s.workers, s'.published, w);
  }

  lemma StepKeepsInv(s: State, act: Action, s': State)
    requires Inv(s) && Step(s, act, s')
    ensures Inv(s')
  {
    match act
    case Cancel =>
    case Connect(w, ok) => IdleWorker(s.pending, s.workers, s.published, w, Live(ok, "", []));
    case Dispatch(w) =>
      StableSortSorts(s.pending[0].events);
      TakeJob(s.pending, s.workers, s.published, w, Take(s.workers[w], s.pending[0]));
    case DispatchCancelled => FewerPending(s.pending, s.workers, s.published);
    case FailOne =>
    case Process(w, relayAccepts, acknowledged) => ProcessKeepsInv(s, w, relayAccepts, acknowledged);
    case Close =>
    case Exit(w) => IdleWorker(s.pending, s.workers, s.published, w, Exited);
  }

  lemma {:induction false} RunKeepsInv(jobs: seq<Job>, n: nat, tr: seq<State>, acts: seq<Action>, i: nat)
    requires IsRun(jobs, n, tr, acts) && DistinctJobs(jobs) && i < |tr|
    ensures Inv(tr[i])
  {
    if i > 0 {
      RunKeepsInv(jobs, n, tr, acts, i - 1);
      StepKeepsInv(tr[i - 1], acts[i - 1], tr[i]);
    }
  }

  // ---------------------------------------------------------------------------
  // The results
  // ---------------------------------------------------------------------------

  /**
   For every interleaving, with failed connections and cancellation: when the pool has finished,
   each id is exactly as often in success and failed together as it was exported, and in success as often
   as it was delivered; each pubkey was published by one worker oldest first, and only its own events; and
   every id in success was accepted by the relay.
   */
  lemma EveryEventIsAccountedFor(jobs: seq<Job>, n: nat, tr: seq<State>, acts: seq<Action>)
    requires IsRun(jobs, n, tr, acts) && DistinctJobs(jobs) && Finished(tr[|tr| - 1])
    ensures var s := tr[|tr| - 1];
            && (forall id :: multiset(s.success)[id] + multiset(s.failed)[id] == CountJobs(jobs, id))
            && (forall id :: multiset(s.success)[id] == Deliveries(tr, acts, |acts|, id))
            && InOrder(s.published)
            && (forall i :: 0 <= i < |s.published| ==> IsFrom(jobs, s.published[i].pubkey, s.published[i].event))
            && forall id :: id in s.success ==> id in s.accepted
  {
    var s := tr[|tr| - 1];
    RunKeepsInv(jobs, n, tr, acts, |tr| - 1);
    RunKeepsExported(jobs, n, tr, acts, |tr| - 1);
    forall id ensures multiset(s.success)[id] == Deliveries(tr, acts, |acts|, id) {
      SuccessesAreDeliveries(jobs, n, tr, acts, |acts|, id);
    }
    forall id ensures multiset(s.success)[id] + multiset(s.failed)[id] == CountJobs(jobs, id) {
      RunConserves(jobs, n, tr, acts, |tr| - 1, id);
      NoWorkYet(s.workers, id);
    }
  }

  // ---------------------------------------------------------------------------
  // What is forwarded
  // ---------------------------------------------------------------------------

  /** Worker w has reached the relay before step i. */
  ghost predicate Dialled(acts: seq<Action>, i: nat, w: nat)
  {
    exists c :: 0 <= c < i && c < |acts| && acts[c] == Connect(w, true)
  }

  ghost predicate Cancelled(acts: seq<Action>, i: nat)
  {
    exists c :: 0 <= c < i && c < |acts| && acts[c].Cancel?
  }

  /** Connections and cancellation are what the actions so far say. */
  ghost predicate TellsHistory(s: State, acts: seq<Action>, i: nat)
  {
    && (s.cancelled <==> Cancelled(acts, i))
    && forall w: nat :: w < |s.workers| ==> WorkerTells(s.workers[w], acts, i, w)
  }

  lemma StepTellsHistory(s: State, acts: seq<Action>, i: nat, s': State)
    requires i < |acts| && TellsHistory(s, acts, i) && Step(s, acts[i], s')
    ensures TellsHistory(s', acts, i + 1)
  {
    assert Cancelled(acts, i + 1) <==> Cancelled(acts, i) || acts[i].Cancel?;
    assert |s'.workers| == |s.workers|;
    forall w: nat | w < |s'.workers| ensures WorkerTells(s'.workers[w], acts, i + 1, w) {
      WorkerStepTells(s, acts, i, s', w);
    }
  }

  ghost predicate WorkerTells(worker: Worker, acts: seq<Action>, i: nat, w: nat)
  {
    && (worker.Starting? ==> !Dialled(acts, i, w))
    && (worker.Live? ==> (worker.connected <==> Dialled(acts, i, w)))
  }

  lemma WorkerStepTells(s: State, acts: seq<Action>, i: nat, s': State, w: nat)
    requires i < |acts| && Step(s, acts[i], s') && w < |s.workers| && WorkerTells(s.workers[w], acts, i, w)
    ensures w < |s'.workers| && WorkerTells(s'.workers[w], acts, i + 1, w)
  {
    assert Dialled(acts, i + 1, w) <==> Dialled(acts, i, w) || acts[i] == Connect(w, true);
  }

  lemma {:induction false} RunTellsHistory(jobs: seq<Job>, n: nat, tr: seq<State>, acts: seq<Action>, i: nat)
    requires IsRun(jobs, n, tr, acts) && i < |tr|
    ensures TellsHistory(tr[i], acts, i)
  {
    if i > 0 {
      RunTellsHistory(jobs, n, tr, acts, i - 1);
      StepTellsHistory(tr[i - 1], acts, i - 1, tr[i]);
    }
  }

  /** At step j a worker that has reached the relay sends `ev` of `pubkey`: decodable, and nothing was cancelled. */
  ghost predicate Sends(tr: seq<State>, acts: seq<Action>, j: nat, pubkey: string, ev: Event)
  {
    && j < |acts| && j < |tr| && acts[j].Process? && Busy(tr[j].workers, acts[j].w)
    && tr[j].workers[acts[j].w].pubkey == pubkey && tr[j].workers[acts[j].w].rest[0] == ev
    && Dialled(acts, j, acts[j].w) && !Cancelled(acts, j) && ev.decodable
  }

  /** The id is sent at step j, accepted by the relay and acknowledged. */
  ghost predicate Delivers(tr: seq<State>, acts: seq<Action>, j: nat, id: string)
  {
    exists pubkey, ev :: Sends(tr, acts, j, pubkey, ev) && ev.id == id && acts[j].relayAccepts && acts[j].acknowledged
  }

  /** How many of the first i steps deliver the id. */
  ghost function Deliveries(tr: seq<State>, acts: seq<Action>, i: nat, id: string): (n: nat)
  {
    if i == 0 then 0 else Deliveries(tr, acts, i - 1, id) + if Delivers(tr, acts, i - 1, id) then 1 else 0
  }

  /** What one step does to the results: a delivery adds the id to the successes, and nothing else does. */
  lemma StepDelivers(jobs: seq<Job>, n: nat, tr: seq<State>, acts: seq<Action>, j: nat, id: string)
    requires IsRun(jobs, n, tr, acts) && j < |acts|
    ensures multiset(tr[j + 1].success)[id] ==
            multiset(tr[j].success)[id] + if Delivers(tr, acts, j, id) then 1 else 0
  {
    RunTellsHistory(jobs, n, tr, acts, j);
    assert Step(tr[j], acts[j], tr[j + 1]);
    if acts[j].Process? {
      var worker := tr[j].workers[acts[j].w];
      CountAppend(tr[j].success, worker.rest[0].id, id);
      assert Sends(tr, acts, j, worker.pubkey, worker.rest[0]) <==>
             worker.connected && !tr[j].cancelled && worker.rest[0].decodable;
    }
  }

  /** In every state of every run an id is as often in `success` as it was delivered. */
  lemma {:induction false} SuccessesAreDeliveries(jobs: seq<Job>, n: nat, tr: seq<State>, acts: seq<Action>, i: nat,
                                                  id: string)
    requires IsRun(jobs, n, tr, acts) && i < |tr|
    ensures multiset(tr[i].success)[id] == Deliveries(tr, acts, i, id)
  {
    if i > 0 {
      SuccessesAreDeliveries(jobs, n, tr, acts, i - 1, id);
      StepDelivers(jobs, n, tr, acts, i - 1, id);
    }
  }

  /**
   A step publishes exactly if it sends: then it adds that event under its pubkey. And an id becomes accepted only by
   being sent and accepted.
   */
  lemma PublishedIsSent(jobs: seq<Job>, n: nat, tr: seq<State>, acts: seq<Action>, j: nat)
    requires IsRun(jobs, n, tr, acts) && j < |acts|
    ensures forall pubkey, ev :: Sends(tr, acts, j, pubkey, ev) ==>
              && tr[j + 1].published == tr[j].published + [Publish(acts[j].w, pubkey, ev)]
              && tr[j + 1].accepted == tr[j].accepted + if acts[j].relayAccepts then {ev.id} else {}
    ensures (forall pubkey, ev :: !Sends(tr, acts, j, pubkey, ev)) ==>
              tr[j + 1].published == tr[j].published && tr[j + 1].accepted == tr[j].accepted
  {
    RunTellsHistory(jobs, n, tr, acts, j);
    assert Step(tr[j], acts[j], tr[j + 1]);
    if acts[j].Process? {
      var worker := tr[j].workers[acts[j].w];
      assert Sends(tr, acts, j, worker.pubkey, worker.rest[0]) <==>
             worker.connected && !tr[j].cancelled && worker.rest[0].decodable;
    }
  }

  /** The event was exported under that pubkey. */
  ghost predicate IsFrom(jobs: seq<Job>, pubkey: string, ev: Event)
  {
    exists k :: 0 <= k < |jobs| && jobs[k].pubkey == pubkey && ev in jobs[k].events
  }

  /** Whatever is waiting, held or published was exported under its pubkey. */
  ghost predicate AllExported(jobs: seq<Job>, s: State)
  {
    && (forall k, ev :: 0 <= k < |s.pending| && ev in s.pending[k].events ==> IsFrom(jobs, s.pending[k].pubkey, ev))
    && (forall w, ev :: Busy(s.workers, w) && ev in s.workers[w].rest ==> IsFrom(jobs, s.workers[w].pubkey, ev))
    && (forall i :: 0 <= i < |s.published| ==> IsFrom(jobs, s.published[i].pubkey, s.published[i].event))
  }

  lemma SortedHas(events: seq<Event>, ev: Event)
    ensures ev in StableSort(events) <==> ev in events
  {
    StableSortSorts(events);
    assert ev in multiset(StableSort(events)) <==> ev in multiset(events);
  }

  lemma StepKeepsExported(jobs: seq<Job>, s: State, act: Action, s': State)
    requires AllExported(jobs, s) && Step(s, act, s')
    ensures AllExported(jobs, s')
  {
    match act
    case Dispatch(w) =>
      forall ev ensures ev in StableSort(s.pending[0].events) <==> ev in s.pending[0].events {
        SortedHas(s.pending[0].events, ev);
      }
    case Process(w, relayAccepts, acknowledged) =>
      assert s.workers[w].rest[0] in s.workers[w].rest;
    case _ =>
  }

  lemma {:induction false} RunKeepsExported(jobs: seq<Job>, n: nat, tr: seq<State>, acts: seq<Action>, i: nat)
    requires IsRun(jobs, n, tr, acts) && i < |tr|
    ensures AllExported(jobs, tr[i])
  {
    if i > 0 {
      RunKeepsExported(jobs, n, tr, acts, i - 1);
      StepKeepsExported(jobs, tr[i - 1], acts[i - 1], tr[i]);
    }
  }

  /** Every connection succeeds, nothing is cancelled, and every publish is accepted and acknowledged. */
  ghost predicate AllGood(acts: seq<Action>)
  {
    forall j :: 0 <= j < |acts| ==>
      && !acts[j].Cancel?
      && (acts[j].Connect? ==> acts[j].ok)
      && (acts[j].Process? ==> acts[j].relayAccepts && acts[j].acknowledged)
  }

  ghost predicate NothingFailed(s: State)
  {
    s.failed == [] && s.failing == [] && !s.cancelled && forall w :: 0 <= w < |s.workers| && s.workers[w].Live? ==>
      s.workers[w].connected
  }

  lemma {:induction false} GoodRunFailsNothing(jobs: seq<Job>, n: nat, tr: seq<State>, acts: seq<Action>, i: nat)
    requires IsRun(jobs, n, tr, acts) && AllGood(acts) && i < |tr|
    requires forall k, ev :: 0 <= k < |jobs| && ev in jobs[k].events ==> ev.decodable
    ensures NothingFailed(tr[i])
  {
    if i > 0 {
      GoodRunFailsNothing(jobs, n, tr, acts, i - 1);
      RunKeepsExported(jobs, n, tr, acts, i - 1);
      var s, act := tr[i - 1], acts[i - 1];
      assert Step(s, act, tr[i]);
      if act.Process? {
        assert s.workers[act.w].rest[0] in s.workers[act.w].rest;
      }
    }
  }

  /**
   If every connection is good, nothing is cancelled, every event decodes and every publish is acknowledged, a
   finished pool has forwarded every exported id, as often as it was exported, and failed none.
   */
  lemma GoodRunForwardsEverything(jobs: seq<Job>, n: nat, tr: seq<State>, acts: seq<Action>, id: string)
    requires IsRun(jobs, n, tr, acts) && AllGood(acts) && Finished(tr[|tr| - 1])
    requires forall k, ev :: 0 <= k < |jobs| && ev in jobs[k].events ==> ev.decodable
    requires DistinctJobs(jobs)
    ensures tr[|tr| - 1].failed == [] && multiset(tr[|tr| - 1].success)[id] == CountJobs(jobs, id)
  {
    GoodRunFailsNothing(jobs, n, tr, acts, |tr| - 1);
    EveryEventIsAccountedFor(jobs, n, tr, acts);
  }

  function Weight(w: Worker): (k: nat)
  {
    match w case Starting => 2 case Live(_, _, rest) => 1 + |rest| case Exited => 0
  }

  function Weights(ws: seq<Worker>): (k: nat)
  {
    if ws == [] then 0 else Weight(ws[0]) + Weights(ws[1..])
  }

  function PendingWeight(jobs: seq<Job>): (k: nat)
  {
    if jobs == [] then 0 else 1 + |jobs[0].events| + PendingWeight(jobs[1..])
  }

  lemma {:induction false} WeightsUpdate(ws: seq<Worker>, w: nat, x: Worker)
    requires w < |ws|
    ensures Weights(ws[w := x]) + Weight(ws[w]) == Weights(ws) + Weight(x)
  {
    if w == 0 {
      assert ws[0 := x][1..] == ws[1..];
    } else {
      WeightsUpdate(ws[1..], w - 1, x);
      assert ws[w := x][1..] == ws[1..][w - 1 := x];
    }
  }

  /** Steps that are left, at most. */
  function Measure(s: State): (k: nat)
  {
    PendingWeight(s.pending) + |s.failing| + Weights(s.workers) +
    (if s.closed then 0 else 1) + (if s.cancelled then 0 else 1)
  }

  /** Every step brings the pool nearer to its end, so every run is finite. */
  lemma StepDecreasesMeasure(s: State, act: Action, s': State)
    requires Step(s, act, s')
    ensures Measure(s') < Measure(s)
  {
    match act
    case Connect(w, ok) => WeightsUpdate(s.workers, w, Live(ok, "", []));
    case Dispatch(w) =>
      WeightsUpdate(s.workers, w, Take(s.workers[w], s.pending[0]));
    case Process(w, relayAccepts, acknowledged) =>
      WeightsUpdate(s.workers, w, s.workers[w].(rest := s.workers[w].rest[1..]));
    case Exit(w) => WeightsUpdate(s.workers, w, Exited);
    case _ =>
  }

  /** A pool with at least one worker never gets stuck before it has finished. */
  lemma NoDeadlock(s: State) returns (act: Action, s': State)
    requires Inv(s) && |s.workers| >= 1 && !Finished(s)
    ensures Step(s, act, s')
  {
    if w :| 0 <= w < |s.workers| && s.workers[w].Starting? {
      act, s' := Connect(w, true), s.(workers := s.workers[w := Live(true, "", [])]);
    } else if w :| 0 <= w < |s.workers| && s.workers[w].Live? && s.workers[w].rest != [] {
      act, s' := Process(w, true, true), ProcessOne(s, w, true, true);
    } else if s.failing != [] {
      act, s' := FailOne, s.(failing := s.failing[1..], failed := s.failed + [s.failing[0].id]);
    } else if s.pending != [] {
      assert s.workers[0].Live?;
      act, s' := Dispatch(0), s.(pending := s.pending[1..],
                                 workers := s.workers[0 := Take(s.workers[0], s.pending[0])]);
    } else if !s.closed {
      act, s' := Close, s.(closed := true);
    } else {
      var w :| 0 <= w < |s.workers| && !s.workers[w].Exited?;
      act, s' := Exit(w), s.(workers := s.workers[w := Exited]);
    }
  }

  /** Nothing is lost: whatever a finished rescue deletes from quarantine, the main relay has accepted. */
  method DeleteForwarded(r: Deleter.Runner, batchSize: int, s: State, ghost jobs: seq<Job>, ghost n: nat,
                         ghost tr: seq<State>, ghost acts: seq<Action>)
    returns (res: Deleter.Result)
    requires r.Valid() && IsRun(jobs, n, tr, acts) && DistinctJobs(jobs) && s == tr[|tr| - 1] && Finished(s)
    modifies r
    ensures fresh(res) && forall id :: id in res.deleted ==> id in s.accepted
    ensures forall id ::
              multiset(res.deleted)[id] + multiset(res.failed)[id] + multiset(s.failed)[id] == CountJobs(jobs, id)
  {
    EveryEventIsAccountedFor(jobs, n, tr, acts);
    ghost var verdict;
    res, verdict := Deleter.DeleteByIds(r, batchSize, s.success);
    forall id | id in res.deleted ensures id in s.accepted {
      assert id in multiset(res.deleted);
      assert id in multiset(s.success);
    }
    forall id ensures multiset(res.deleted)[id] + multiset(res.failed)[id] == multiset(s.success)[id] {
      assert (multiset(res.deleted) + multiset(res.failed))[id] == multiset(s.success)[id];
    }
  }
}
