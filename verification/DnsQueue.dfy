/** The query pipeline of loopyDNS.c: callers put queries on the pending list, any number of worker
    threads resolve them and put the results on the completed list, and the event loop delivers
    those. Every locked section, the resolver call, the eventfd write and read, and the callback are
    one step each. The resolver answers arbitrarily. */
module DnsQueue {
  import opened Sums

  type Answer = int

  datatype Status = Cancelled | Resolved(answer: Answer)

  datatype Query = Query(id: nat, cancelled: bool)

  datatype Completed = Completed(id: nat, status: Status)

  /** A worker is about to test the pending list, asleep, resolving, done, or about to notify. */
  datatype Worker = Looking | Asleep | Got(query: Query) | Done(result: Completed) | Notifying

  datatype Loop = Polling | Draining | Calling(result: Completed)

  /** `delivered` and `cancels`, the ids that some cancel call reported as cancelled, are history. */
  datatype State = State(limit: nat, nextId: nat, pending: seq<Query>, workers: seq<Worker>,
                         completed: seq<Completed>, efd: nat, loop: Loop,
                         delivered: seq<Completed>, cancels: set<nat>)

  /** In Resolve, `w` is the sleeping worker that the condition variable wakes, if there is one. */
  datatype Action =
    | Resolve(w: nat) | Cancel(id: nat) | CancelAll
    | Take(w: nat) | Spurious(w: nat) | Process(w: nat, answer: Answer) | Enqueue(w: nat) | Notify(w: nat)
    | ReadEvent | Pop | Deliver

  function Init(limit: nat, workers: nat): (s: State)
  {
    State(limit, 1, [], seq(workers, _ => Looking), [], 0, Polling, [], {})
  }

  ghost predicate SomeAsleep(s: State)
  {
    exists i :: 0 <= i < |s.workers| && s.workers[i].Asleep?
  }

  predicate Is(s: State, w: nat, worker: Worker)
  {
    w < |s.workers| && s.workers[w] == worker
  }

  ghost predicate Enabled(s: State, a: Action)
  {
    match a
    case Resolve(w) => SomeAsleep(s) ==> Is(s, w, Asleep)
    case Cancel(_) => true
    case CancelAll => true
    case Take(w) => Is(s, w, Looking)
    case Spurious(w) => Is(s, w, Asleep)
    case Process(w, _) => w < |s.workers| && s.workers[w].Got?
    case Enqueue(w) => w < |s.workers| && s.workers[w].Done?
    case Notify(w) => Is(s, w, Notifying)
    case ReadEvent => s.loop.Polling? && s.efd > 0
    case Pop => s.loop.Draining?
    case Deliver => s.loop.Calling?
  }

  function Put(s: State, w: nat, worker: Worker): (s': State)
    requires w < |s.workers|
  {
    s.(workers := s.workers[w := worker])
  }

  /** loopyDNSCancel's walk: the first pending query with the id is marked. */
  function Mark(pending: seq<Query>, id: nat): (r: seq<Query>)
    ensures |r| == |pending|
  {
    if pending == [] then []
    else if pending[0].id == id then [pending[0].(cancelled := true)] + pending[1..]
    else [pending[0]] + Mark(pending[1..], id)
  }

  function MarkAll(pending: seq<Query>): (r: seq<Query>)
  {
    seq(|pending|, i requires 0 <= i < |pending| => pending[i].(cancelled := true))
  }

  ghost predicate IsPending(pending: seq<Query>, id: nat)
  {
    exists i :: 0 <= i < |pending| && pending[i].id == id
  }

  function Outcome(q: Query, answer: Answer): (r: Completed)
  {
    Completed(q.id, if q.cancelled then Cancelled else Resolved(answer))
  }

  ghost function StepResolve(s: State, w: nat): (s': State)
    requires Enabled(s, Resolve(w))
  {
    if |s.pending| >= s.limit then s
    else
      var s1 := if SomeAsleep(s) then Put(s, w, Looking) else s;
      s1.(pending := s.pending + [Query(s.nextId, false)], nextId := s.nextId + 1)
  }

  ghost function Step(s: State, a: Action): (s': State)
    requires Enabled(s, a)
  {
    match a
    case Resolve(w) => StepResolve(s, w)
    case Cancel(id) =>
      if IsPending(s.pending, id) then s.(pending := Mark(s.pending, id), cancels := s.cancels + {id}) else s
    case CancelAll =>
      s.(pending := MarkAll(s.pending),
         cancels := s.cancels + set i | 0 <= i < |s.pending| :: s.pending[i].id)
    case Take(w) =>
      if s.pending == [] then Put(s, w, Asleep)
      else Put(s, w, Got(s.pending[0])).(pending := s.pending[1..])
    case Spurious(w) => Put(s, w, Looking)
    case Process(w, answer) => Put(s, w, Done(Outcome(s.workers[w].query, answer)))
    case Enqueue(w) => Put(s, w, Notifying).(completed := s.completed + [s.workers[w].result])
    case Notify(w) => Put(s, w, Looking).(efd := s.efd + 1)
    case ReadEvent => s.(efd := 0, loop := Draining)
    case Pop =>
      if s.completed == [] then s.(loop := Polling)
      else s.(loop := Calling(s.completed[0]), completed := s.completed[1..])
    case Deliver => s.(loop := Draining, delivered := s.delivered + [s.loop.result])
  }

  /** How often the query `id` is pending, with a worker, completed, in its callback, or delivered. */
  function PendingIs(id: nat): (r: Query -> int)
  {
    (q: Query) => if q.id == id then 1 else 0
  }

  function ResultIs(id: nat): (r: Completed -> int)
  {
    (c: Completed) => if c.id == id then 1 else 0
  }

  function WorkerHas(id: nat): (r: Worker -> int)
  {
    (w: Worker) => if (w.Got? && w.query.id == id) || (w.Done? && w.result.id == id) then 1 else 0
  }

  function InCallback(s: State, id: nat): (n: int)
  {
    if s.loop.Calling? && s.loop.result.id == id then 1 else 0
  }

  function Undelivered(s: State, id: nat): (n: int)
  {
    Sum(PendingIs(id), s.pending) + Sum(WorkerHas(id), s.workers) + Sum(ResultIs(id), s.completed) + InCallback(s, id)
  }

  function Places(s: State, id: nat): (n: int)
  {
    Undelivered(s, id) + Sum(ResultIs(id), s.delivered)
  }

  /** A query in the pipeline is marked, and its result says so, exactly if a cancel was confirmed. */
  ghost predicate Marked(cancels: set<nat>, q: Query)
  {
    q.cancelled <==> q.id in cancels
  }

  ghost predicate Told(cancels: set<nat>, c: Completed)
  {
    c.status.Cancelled? <==> c.id in cancels
  }

  ghost predicate CancelInv(s: State)
  {
    && (forall id :: id in s.cancels ==> id < s.nextId)
    && (forall i :: 0 <= i < |s.pending| ==> Marked(s.cancels, s.pending[i]))
    && (forall i :: 0 <= i < |s.workers| && s.workers[i].Got? ==> Marked(s.cancels, s.workers[i].query))
    && (forall i :: 0 <= i < |s.workers| && s.workers[i].Done? ==> Told(s.cancels, s.workers[i].result))
    && (forall i :: 0 <= i < |s.completed| ==> Told(s.cancels, s.completed[i]))
    && (s.loop.Calling? ==> Told(s.cancels, s.loop.result))
    && (forall i :: 0 <= i < |s.delivered| ==> Told(s.cancels, s.delivered[i]))
  }

  ghost predicate SomeNotifying(s: State)
  {
    exists i :: 0 <= i < |s.workers| && s.workers[i].Notifying?
  }

  ghost predicate WakeInv(s: State)
  {
    && |s.pending| <= s.limit
    && (s.completed != [] ==> s.efd > 0 || SomeNotifying(s) || !s.loop.Polling?)
    && (SomeAsleep(s) ==> |s.pending| <= Sum(IsLooking, s.workers))
  }

  function IsLooking(w: Worker): (n: int)
  {
    if w.Looking? then 1 else 0
  }

  ghost predicate PlaceInv(s: State)
  {
    forall id: nat :: Places(s, id) == if 1 <= id < s.nextId then 1 else 0
  }

  ghost predicate Inv(s: State)
  {
    s.nextId >= 1 && PlaceInv(s) && CancelInv(s) && WakeInv(s)
  }

  lemma InitHolds(limit: nat, workers: nat)
    ensures Inv(Init(limit, workers))
  {
    forall id: nat ensures Places(Init(limit, workers), id) == 0 {
      SumZero(WorkerHas(id), Init(limit, workers).workers);
    }
  }

  lemma {:induction false} MarkKeeps(pending: seq<Query>, id: nat, x: nat)
    ensures Sum(PendingIs(x), Mark(pending, id)) == Sum(PendingIs(x), pending)
    decreases pending
  {
    if pending != [] {
      if pending[0].id == id {
        assert Mark(pending, id)[1..] == pending[1..];
      } else {
        assert Mark(pending, id)[1..] == Mark(pending[1..], id);
        MarkKeeps(pending[1..], id, x);
      }
    }
  }

  lemma {:induction false} MarkAllKeeps(pending: seq<Query>, x: nat)
    ensures Sum(PendingIs(x), MarkAll(pending)) == Sum(PendingIs(x), pending)
    decreases pending
  {
    if pending != [] {
      assert MarkAll(pending)[1..] == MarkAll(pending[1..]);
      MarkAllKeeps(pending[1..], x);
    }
  }

  lemma ResolvePlaces(s: State, w: nat, id: nat)
    requires Inv(s) && Enabled(s, Resolve(w))
    ensures Places(Step(s, Resolve(w)), id) == if 1 <= id < Step(s, Resolve(w)).nextId then 1 else 0
  {
    assert Places(s, id) == if 1 <= id < s.nextId then 1 else 0;
    SumAppend(PendingIs(id), s.pending, Query(s.nextId, false));
    if SomeAsleep(s) { SumUpdate(WorkerHas(id), s.workers, w, Looking); }
  }

  lemma TakePlaces(s: State, w: nat, id: nat)
    requires Inv(s) && Enabled(s, Take(w))
    ensures Places(Step(s, Take(w)), id) == if 1 <= id < Step(s, Take(w)).nextId then 1 else 0
  {
    assert Places(s, id) == if 1 <= id < s.nextId then 1 else 0;
    SumUpdate(WorkerHas(id), s.workers, w, if s.pending == [] then Asleep else Got(s.pending[0]));
  }

  lemma EnqueuePlaces(s: State, w: nat, id: nat)
    requires Inv(s) && Enabled(s, Enqueue(w))
    ensures Places(Step(s, Enqueue(w)), id) == if 1 <= id < Step(s, Enqueue(w)).nextId then 1 else 0
  {
    assert Places(s, id) == if 1 <= id < s.nextId then 1 else 0;
    SumUpdate(WorkerHas(id), s.workers, w, Notifying);
    SumAppend(ResultIs(id), s.completed, s.workers[w].result);
  }

  /** No step loses, duplicates or invents a query. */
  lemma PlacesStep(s: State, a: Action, id: nat)
    requires Inv(s) && Enabled(s, a)
    ensures Places(Step(s, a), id) == if 1 <= id < Step(s, a).nextId then 1 else 0
  {
    assert Places(s, id) == if 1 <= id < s.nextId then 1 else 0;
    match a
    case Resolve(w) => ResolvePlaces(s, w, id);
    case Cancel(x) => MarkKeeps(s.pending, x, id);
    case CancelAll => MarkAllKeeps(s.pending, id);
    case Take(w) => TakePlaces(s, w, id);
    case Spurious(w) => SumUpdate(WorkerHas(id), s.workers, w, Looking);
    case Process(w, answer) =>
      SumUpdate(WorkerHas(id), s.workers, w, Done(Outcome(s.workers[w].query, answer)));
    case Enqueue(w) => EnqueuePlaces(s, w, id);
    case Notify(w) => SumUpdate(WorkerHas(id), s.workers, w, Looking);
    case ReadEvent =>
    case Pop =>
    case Deliver => SumAppend(ResultIs(id), s.delivered, s.loop.result);
  }

  /** A pending query is nowhere else, and is pending once. */
  lemma OnlyPending(s: State, i: nat)
    requires PlaceInv(s) && i < |s.pending|
    ensures forall j :: 0 <= j < |s.pending| && j != i ==> s.pending[j].id != s.pending[i].id
    ensures forall j :: 0 <= j < |s.workers| ==> WorkerHas(s.pending[i].id)(s.workers[j]) == 0
    ensures forall j :: 0 <= j < |s.completed| ==> s.completed[j].id != s.pending[i].id
    ensures s.loop.Calling? ==> s.loop.result.id != s.pending[i].id
    ensures forall j :: 0 <= j < |s.delivered| ==> s.delivered[j].id != s.pending[i].id
  {
    var id := s.pending[i].id;
    assert Places(s, id) <= 1;
    var without := s.pending[i := Query(id + 1, false)];
    SumUpdate(PendingIs(id), s.pending, i, Query(id + 1, false));
    SumNonNegative(PendingIs(id), without);
    SumNonNegative(WorkerHas(id), s.workers);
    SumNonNegative(ResultIs(id), s.completed);
    SumNonNegative(ResultIs(id), s.delivered);
    forall j | 0 <= j < |s.pending| && j != i ensures s.pending[j].id != id {
      SumMember(PendingIs(id), without, j);
    }
    forall j | 0 <= j < |s.workers| ensures WorkerHas(id)(s.workers[j]) == 0 {
      SumMember(WorkerHas(id), s.workers, j);
    }
    forall j | 0 <= j < |s.completed| ensures s.completed[j].id != id {
      SumMember(ResultIs(id), s.completed, j);
    }
    forall j | 0 <= j < |s.delivered| ensures s.delivered[j].id != id {
      SumMember(ResultIs(id), s.delivered, j);
    }
  }

  /** Mark changes exactly the queries with the id when there is one at most. */
  lemma {:induction false} MarkExactly(pending: seq<Query>, id: nat)
    requires forall i, j :: 0 <= i < j < |pending| ==> pending[i].id != pending[j].id
    ensures forall i :: 0 <= i < |pending| ==>
              Mark(pending, id)[i] == if pending[i].id == id then pending[i].(cancelled := true) else pending[i]
    decreases pending
  {
    if pending != [] && pending[0].id != id {
      MarkExactly(pending[1..], id);
      assert forall i :: 1 <= i < |pending| ==> pending[i] == pending[1..][i - 1];
    }
  }

  lemma PendingDistinct(s: State)
    requires PlaceInv(s)
    ensures forall i, j :: 0 <= i < j < |s.pending| ==> s.pending[i].id != s.pending[j].id
  {
    forall i, j | 0 <= i < j < |s.pending| ensures s.pending[i].id != s.pending[j].id {
      OnlyPending(s, i);
    }
  }

  /** Only ids that were given out are in the pipeline. */
  lemma PendingKnown(s: State, i: nat)
    requires Inv(s) && i < |s.pending|
    ensures s.pending[i].id < s.nextId
  {
    var id := s.pending[i].id;
    SumMember(PendingIs(id), s.pending, i);
    SumNonNegative(WorkerHas(id), s.workers);
    SumNonNegative(ResultIs(id), s.completed);
    SumNonNegative(ResultIs(id), s.delivered);
    assert Places(s, id) > 0;
  }

  lemma CancelStep(s: State, id: nat)
    requires Inv(s)
    ensures CancelInv(Step(s, Cancel(id)))
  {
    if IsPending(s.pending, id) {
      var i :| 0 <= i < |s.pending| && s.pending[i].id == id;
      OnlyPending(s, i);
      PendingKnown(s, i);
      PendingDistinct(s);
      MarkExactly(s.pending, id);
    }
  }

  lemma CancelAllStep(s: State)
    requires Inv(s)
    ensures CancelInv(Step(s, CancelAll))
  {
    forall i | 0 <= i < |s.pending|
      ensures s.pending[i].id < s.nextId
      ensures forall j :: 0 <= j < |s.workers| ==> WorkerHas(s.pending[i].id)(s.workers[j]) == 0
      ensures forall j :: 0 <= j < |s.completed| ==> s.completed[j].id != s.pending[i].id
      ensures s.loop.Calling? ==> s.loop.result.id != s.pending[i].id
      ensures forall j :: 0 <= j < |s.delivered| ==> s.delivered[j].id != s.pending[i].id
    {
      OnlyPending(s, i);
      PendingKnown(s, i);
    }
  }

  lemma CancelInvStep(s: State, a: Action)
    requires Inv(s) && Enabled(s, a)
    ensures CancelInv(Step(s, a))
  {
    match a
    case Cancel(id) => CancelStep(s, id);
    case CancelAll => CancelAllStep(s);
    case Resolve(w) =>
    case Take(w) =>
    case Spurious(w) =>
    case Process(w, answer) =>
    case Enqueue(w) =>
    case Notify(w) =>
    case ReadEvent =>
    case Pop =>
    case Deliver =>
  }

  lemma WakeInvStep(s: State, a: Action)
    requires Inv(s) && Enabled(s, a)
    ensures WakeInv(Step(s, a))
  {
    var s' := Step(s, a);
    match a
    case Resolve(w) =>
      if SomeAsleep(s) {
        SumUpdate(IsLooking, s.workers, w, Looking);
      }
      if SomeNotifying(s) { StillNotifying(s, s'); }
    case Cancel(id) =>
    case CancelAll =>
    case Take(w) =>
      SumUpdate(IsLooking, s.workers, w, s'.workers[w]);
      SumNonNegative(IsLooking, s'.workers);
      if SomeNotifying(s) { StillNotifying(s, s'); }
    case Spurious(w) =>
      SumUpdate(IsLooking, s.workers, w, s'.workers[w]);
      if SomeNotifying(s) { StillNotifying(s, s'); }
    case Process(w, answer) =>
      SumUpdate(IsLooking, s.workers, w, s'.workers[w]);
      if SomeNotifying(s) { StillNotifying(s, s'); }
    case Enqueue(w) =>
      SumUpdate(IsLooking, s.workers, w, s'.workers[w]);
      assert s'.workers[w].Notifying?;
    case Notify(w) => SumUpdate(IsLooking, s.workers, w, s'.workers[w]);
    case ReadEvent =>
    case Pop =>
    case Deliver =>
  }

  lemma StillNotifying(s: State, s': State)
    requires SomeNotifying(s) && |s'.workers| == |s.workers|
    requires forall i :: 0 <= i < |s.workers| && s.workers[i].Notifying? ==> s'.workers[i].Notifying?
    ensures SomeNotifying(s')
  {
    var i :| 0 <= i < |s.workers| && s.workers[i].Notifying?;
    assert s'.workers[i].Notifying?;
  }

  lemma StepKeeps(s: State, a: Action)
    requires Inv(s) && Enabled(s, a)
    ensures Inv(Step(s, a))
  {
    forall id: nat ensures Places(Step(s, a), id) == if 1 <= id < Step(s, a).nextId then 1 else 0 {
      PlacesStep(s, a, id);
    }
    CancelInvStep(s, a);
    WakeInvStep(s, a);
  }

  ghost predicate Legal(s: State, run: seq<Action>)
    decreases |run|
  {
    run == [] || (Enabled(s, run[0]) && Legal(Step(s, run[0]), run[1..]))
  }

  ghost function End(s: State, run: seq<Action>): (s': State)
    requires Legal(s, run)
    decreases |run|
  {
    if run == [] then s else End(Step(s, run[0]), run[1..])
  }

  lemma {:induction false} RunsKeep(s: State, run: seq<Action>)
    requires Inv(s) && Legal(s, run)
    ensures Inv(End(s, run))
    decreases |run|
  {
    if run != [] {
      StepKeeps(s, run[0]);
      RunsKeep(Step(s, run[0]), run[1..]);
    }
  }

  /** A worker that held the unmarked query `id` got this answer from the resolver. */
  ghost predicate Answered(s: State, run: seq<Action>, id: nat, answer: Answer)
    requires Legal(s, run)
    decreases |run|
  {
    run != [] &&
    (|| (run[0].Process? && run[0].answer == answer && s.workers[run[0].w] == Got(Query(id, false)))
     || Answered(Step(s, run[0]), run[1..], id, answer))
  }

  /** The result is on its way to its delivery, or delivered. */
  ghost predicate Holds(s: State, c: Completed)
  {
    || Done(c) in s.workers || c in s.completed || s.loop == Calling(c) || c in s.delivered
  }

  lemma HeldBefore(s: State, a: Action, c: Completed)
    requires Enabled(s, a) && Holds(Step(s, a), c) && c.status.Resolved?
    ensures Holds(s, c) || (a.Process? && a.answer == c.status.answer && s.workers[a.w] == Got(Query(c.id, false)))
  {
  }

  lemma {:induction false} ResultsAreAnswers(s: State, run: seq<Action>, c: Completed)
    requires Legal(s, run) && Holds(End(s, run), c) && c.status.Resolved? && !Holds(s, c)
    ensures Answered(s, run, c.id, c.status.answer)
    decreases |run|
  {
    if run != [] && !Answered(s, run, c.id, c.status.answer) {
      if Holds(Step(s, run[0]), c) {
        HeldBefore(s, run[0], c);
      } else {
        ResultsAreAnswers(Step(s, run[0]), run[1..], c);
      }
    }
  }

  /** A cancel call found the query pending, or all pending queries were cancelled while it was. */
  ghost predicate Confirmed(s: State, run: seq<Action>, id: nat)
    requires Legal(s, run)
    decreases |run|
  {
    run != [] &&
    (|| ((run[0] == Cancel(id) || run[0] == CancelAll) && IsPending(s.pending, id))
     || Confirmed(Step(s, run[0]), run[1..], id))
  }

  lemma {:induction false} CancelsAreConfirmed(s: State, run: seq<Action>, id: nat)
    requires Legal(s, run)
    ensures id in End(s, run).cancels <==> id in s.cancels || Confirmed(s, run, id)
    decreases |run|
  {
    if run != [] {
      assert id in Step(s, run[0]).cancels <==>
             id in s.cancels || ((run[0] == Cancel(id) || run[0] == CancelAll) && IsPending(s.pending, id));
      CancelsAreConfirmed(Step(s, run[0]), run[1..], id);
    }
  }

  /** The resolve calls of the run that found room on the pending list. */
  ghost function Accepted(s: State, run: seq<Action>): (n: nat)
    requires Legal(s, run)
    decreases |run|
  {
    if run == [] then 0
    else (if run[0].Resolve? && |s.pending| < s.limit then 1 else 0) + Accepted(Step(s, run[0]), run[1..])
  }

  /** The queries that workers took in the run, and the results they put on the completed list, in order. */
  ghost function TakenIds(s: State, run: seq<Action>): (ids: seq<nat>)
    requires Legal(s, run)
    decreases |run|
  {
    if run == [] then []
    else
      (if run[0].Take? && s.pending != [] then [s.pending[0].id] else []) + TakenIds(Step(s, run[0]), run[1..])
  }

  ghost function Enqueued(s: State, run: seq<Action>): (cs: seq<Completed>)
    requires Legal(s, run)
    decreases |run|
  {
    if run == [] then []
    else
      (if run[0].Enqueue? then [s.workers[run[0].w].result] else []) + Enqueued(Step(s, run[0]), run[1..])
  }

  function Ids(pending: seq<Query>): (ids: seq<nat>)
  {
    seq(|pending|, i requires 0 <= i < |pending| => pending[i].id)
  }

  function Range(from: nat, upTo: nat): (ids: seq<nat>)
    requires from <= upTo
  {
    seq(upTo - from, i => from + i)
  }

  function InHand(s: State): (cs: seq<Completed>)
  {
    (if s.loop.Calling? then [s.loop.result] else []) + s.completed
  }

  /** Every resolve call that finds room is accepted under the next id; workers take the queries in the order
      in which they were accepted; and results are delivered in the order in which they were completed. */
  lemma {:induction false} FirstComeFirstServed(s: State, run: seq<Action>)
    requires Inv(s) && Legal(s, run)
    ensures End(s, run).nextId == s.nextId + Accepted(s, run)
    ensures TakenIds(s, run) + Ids(End(s, run).pending) == Ids(s.pending) + Range(s.nextId, End(s, run).nextId)
    ensures End(s, run).delivered + InHand(End(s, run)) == s.delivered + InHand(s) + Enqueued(s, run)
    decreases |run|
  {
    if run != [] {
      var s' := Step(s, run[0]);
      StepKeeps(s, run[0]);
      FirstComeFirstServed(s', run[1..]);
      OrderStep(s, run[0], TakenIds(s', run[1..]), Ids(End(s, run).pending), End(s, run).nextId);
      DeliveryStep(s, run[0], Enqueued(s', run[1..]));
    }
  }

  lemma OrderStep(s: State, a: Action, taken: seq<nat>, left: seq<nat>, next: nat)
    requires Inv(s) && Enabled(s, a) && Step(s, a).nextId <= next
    requires taken + left == Ids(Step(s, a).pending) + Range(Step(s, a).nextId, next)
    ensures s.nextId <= next
    ensures
      var now := if a.Take? && s.pending != [] then [s.pending[0].id] else [];
      now + taken + left == Ids(s.pending) + Range(s.nextId, next)
  {
    var s', range := Step(s, a), Range(Step(s, a).nextId, next);
    if a.Take? && s.pending != [] {
      var first, rest := [s.pending[0].id], Ids(s.pending[1..]);
      assert Ids(s.pending) == first + rest;
      assert first + taken + left == first + (taken + left);
      assert first + (rest + range) == first + rest + range;
    } else if a.Resolve? && |s.pending| < s.limit {
      assert Ids(s'.pending) == Ids(s.pending) + [s.nextId];
      assert Range(s.nextId, next) == [s.nextId] + range;
      assert Ids(s.pending) + [s.nextId] + range == Ids(s.pending) + ([s.nextId] + range);
      assert [] + taken + left == taken + left;
    } else {
      if a.Cancel? { MarkIds(s.pending, a.id); }
      assert Ids(s'.pending) == Ids(s.pending);
      assert [] + taken + left == taken + left;
    }
  }

  lemma IdsFirst(q: Query, rest: seq<Query>)
    ensures Ids([q] + rest) == [q.id] + Ids(rest)
  {
  }

  lemma {:induction false} MarkIds(pending: seq<Query>, id: nat)
    ensures Ids(Mark(pending, id)) == Ids(pending)
    decreases |pending|
  {
    if pending != [] {
      var first, rest := pending[0], pending[1..];
      assert pending == [first] + rest;
      IdsFirst(first, rest);
      if first.id == id {
        IdsFirst(first.(cancelled := true), rest);
      } else {
        MarkIds(rest, id);
        IdsFirst(first, Mark(rest, id));
      }
    }
  }

  lemma DeliveryStep(s: State, a: Action, later: seq<Completed>)
    requires Inv(s) && Enabled(s, a)
    ensures
      var now := if a.Enqueue? then [s.workers[a.w].result] else [];
      Step(s, a).delivered + InHand(Step(s, a)) + later == s.delivered + InHand(s) + (now + later)
  {
    var now := if a.Enqueue? then [s.workers[a.w].result] else [];
    InHandStep(s, a, now);
    assert s.delivered + InHand(s) + now + later == s.delivered + InHand(s) + (now + later);
  }

  lemma InHandStep(s: State, a: Action, now: seq<Completed>)
    requires Inv(s) && Enabled(s, a) && now == if a.Enqueue? then [s.workers[a.w].result] else []
    ensures Step(s, a).delivered + InHand(Step(s, a)) == s.delivered + InHand(s) + now
  {
    var s' := Step(s, a);
    assert s.delivered + InHand(s) + [] == s.delivered + InHand(s);
    match a {
      case Deliver => DeliverInHand(s);
      case Enqueue(w) => EnqueueInHand(s, w);
      case Pop => assert InHand(s') == InHand(s);
      case _ => assert s'.completed == s.completed && s'.loop.Calling? == s.loop.Calling?;
    }
  }

  lemma DeliverInHand(s: State)
    requires Enabled(s, Deliver)
    ensures Step(s, Deliver).delivered + InHand(Step(s, Deliver)) == s.delivered + InHand(s)
  {
    assert InHand(s) == [s.loop.result] + s.completed && InHand(Step(s, Deliver)) == s.completed;
    assert s.delivered + [s.loop.result] + s.completed == s.delivered + ([s.loop.result] + s.completed);
  }

  lemma EnqueueInHand(s: State, w: nat)
    requires Enabled(s, Enqueue(w))
    ensures
      Step(s, Enqueue(w)).delivered + InHand(Step(s, Enqueue(w))) ==
      s.delivered + InHand(s) + [s.workers[w].result]
  {
    var now := [s.workers[w].result];
    assert InHand(Step(s, Enqueue(w))) == InHand(s) + now;
    assert s.delivered + (InHand(s) + now) == s.delivered + InHand(s) + now;
  }

  /** In every interleaving each accepted query is in exactly one place - pending, with a worker,
      completed, in its callback, or delivered - so none is lost and none is delivered twice; a
      delivered status is CANCELLED exactly if a cancel was confirmed; and a completed result has a
      pending notification, a worker about to notify, or the drain in progress. */
  lemma EveryInterleaving(limit: nat, workers: nat, run: seq<Action>, t: State)
    requires Legal(Init(limit, workers), run) && t == End(Init(limit, workers), run)
    ensures forall id: nat :: Undelivered(t, id) + Sum(ResultIs(id), t.delivered) == if 1 <= id < t.nextId then 1 else 0
    ensures forall i, j :: 0 <= i < j < |t.delivered| ==> t.delivered[i].id != t.delivered[j].id
    ensures forall i :: 0 <= i < |t.delivered| ==>
              1 <= t.delivered[i].id < t.nextId
                && (t.delivered[i].status.Cancelled? <==> t.delivered[i].id in t.cancels)
    ensures forall i :: 0 <= i < |t.delivered| ==>
              match t.delivered[i].status
              case Cancelled => Confirmed(Init(limit, workers), run, t.delivered[i].id)
              case Resolved(answer) => Answered(Init(limit, workers), run, t.delivered[i].id, answer)
    ensures t.completed != [] ==> t.efd > 0 || SomeNotifying(t) || !t.loop.Polling?
    ensures |t.pending| <= limit
  {
    InitHolds(limit, workers);
    RunsKeep(Init(limit, workers), run);
    LimitStays(Init(limit, workers), run);
    forall id: nat ensures Undelivered(t, id) + Sum(ResultIs(id), t.delivered) == if 1 <= id < t.nextId then 1 else 0 {
      assert Places(t, id) == if 1 <= id < t.nextId then 1 else 0;
    }
    forall i | 0 <= i < |t.delivered| ensures 1 <= t.delivered[i].id < t.nextId && Told(t.cancels, t.delivered[i]) {
      DeliveredOnce(t, i, i);
    }
    forall i, j | 0 <= i < j < |t.delivered| ensures t.delivered[i].id != t.delivered[j].id {
      DeliveredOnce(t, i, j);
    }
    forall i | 0 <= i < |t.delivered|
      ensures t.delivered[i].status.Cancelled? ==> Confirmed(Init(limit, workers), run, t.delivered[i].id)
      ensures t.delivered[i].status.Resolved? ==>
                Answered(Init(limit, workers), run, t.delivered[i].id, t.delivered[i].status.answer)
    {
      DeliveredOnce(t, i, i);
      CancelsAreConfirmed(Init(limit, workers), run, t.delivered[i].id);
      if t.delivered[i].status.Resolved? { ResultsAreAnswers(Init(limit, workers), run, t.delivered[i]); }
    }
  }

  lemma DeliveredOnce(s: State, i: nat, j: nat)
    requires Inv(s) && i <= j < |s.delivered|
    ensures 1 <= s.delivered[i].id < s.nextId
    ensures i < j ==> s.delivered[i].id != s.delivered[j].id
  {
    var id := s.delivered[i].id;
    var without := s.delivered[i := Completed(id + 1, Cancelled)];
    assert Places(s, id) == if 1 <= id < s.nextId then 1 else 0;
    UndeliveredNonNegative(s, id);
    SumUpdate(ResultIs(id), s.delivered, i, Completed(id + 1, Cancelled));
    SumNonNegative(ResultIs(id), without);
    if i < j && s.delivered[j].id == id {
      SumMember(ResultIs(id), without, j);
    }
  }

  lemma UndeliveredNonNegative(s: State, id: nat)
    ensures Undelivered(s, id) >= 0
  {
    SumNonNegative(PendingIs(id), s.pending);
    SumNonNegative(WorkerHas(id), s.workers);
    SumNonNegative(ResultIs(id), s.completed);
  }

  lemma {:induction false} LimitStays(s: State, run: seq<Action>)
    requires Legal(s, run)
    ensures End(s, run).limit == s.limit && |End(s, run).workers| == |s.workers|
    decreases |run|
  {
    if run != [] {
      LimitStays(Step(s, run[0]), run[1..]);
    }
  }

  /** The work left: every accepted query and every notification on the way counts down as it moves. */
  function Weight(w: Worker): (n: int)
  {
    match w
    case Got(_) => 8
    case Done(_) => 7
    case Notifying => 4
    case Looking => 0
    case Asleep => 0
  }

  function Work(s: State): (n: int)
  {
    9 * |s.pending| + Sum(Weight, s.workers) + 2 * |s.completed| + (if s.efd > 0 then 3 else 0)
    + (match s.loop case Polling => 0 case Draining => 2 case Calling(_) => 3)
  }

  /** A step that moves a query or a notification on. */
  predicate Helpful(s: State, a: Action)
  {
    match a
    case Take(_) => s.pending != []
    case Process(_, _) => true
    case Enqueue(_) => true
    case Notify(_) => true
    case ReadEvent => true
    case Pop => true
    case Deliver => true
    case Resolve(_) => false
    case Cancel(_) => false
    case CancelAll => false
    case Spurious(_) => false
  }

  lemma WorkFalls(s: State, a: Action)
    requires Inv(s) && Enabled(s, a)
    ensures Work(Step(s, a)) + (if Helpful(s, a) then 1 else 0) <= Work(s) + 9 * (Step(s, a).nextId - s.nextId)
  {
    var s' := Step(s, a);
    match a
    case Resolve(w) => if SomeAsleep(s) { SumUpdate(Weight, s.workers, w, Looking); }
    case Cancel(id) =>
    case CancelAll =>
    case Take(w) => SumUpdate(Weight, s.workers, w, s'.workers[w]);
    case Spurious(w) => SumUpdate(Weight, s.workers, w, s'.workers[w]);
    case Process(w, answer) => SumUpdate(Weight, s.workers, w, s'.workers[w]);
    case Enqueue(w) => SumUpdate(Weight, s.workers, w, s'.workers[w]);
    case Notify(w) => SumUpdate(Weight, s.workers, w, s'.workers[w]);
    case ReadEvent =>
    case Pop =>
    case Deliver =>
  }

  /** Workers never all sleep over pending queries: while some accepted query is undelivered, a
      helpful step is enabled. */
  lemma HelpfulEnabled(s: State, id: nat) returns (a: Action)
    requires Inv(s) && |s.workers| > 0 && Undelivered(s, id) > 0
    ensures Enabled(s, a) && Helpful(s, a)
  {
    if s.loop.Calling? {
      a := Deliver;
    } else if s.loop.Draining? {
      a := Pop;
    } else if w: nat :| w < |s.workers| && !s.workers[w].Looking? && !s.workers[w].Asleep? {
      a := match s.workers[w] case Got(_) => Process(w, 0) case Done(_) => Enqueue(w) case Notifying => Notify(w);
    } else if s.efd > 0 {
      a := ReadEvent;
    } else {
      assert s.completed == [];
      SumZero(WorkerHas(id), s.workers);
      assert s.pending != [];
      if SomeAsleep(s) {
        var w := SumPositive(IsLooking, s.workers);
        a := Take(w);
      } else {
        a := Take(0);
      }
    }
  }

  ghost function HelpfulSteps(s: State, run: seq<Action>): (n: nat)
    requires Legal(s, run)
    decreases |run|
  {
    if run == [] then 0
    else (if Helpful(s, run[0]) then 1 else 0) + HelpfulSteps(Step(s, run[0]), run[1..])
  }

  lemma {:induction false} WorkBound(s: State, run: seq<Action>)
    requires Inv(s) && Legal(s, run)
    ensures HelpfulSteps(s, run) + Work(End(s, run)) <= Work(s) + 9 * (End(s, run).nextId - s.nextId)
    decreases |run|
  {
    if run != [] {
      StepKeeps(s, run[0]);
      WorkFalls(s, run[0]);
      WorkBound(Step(s, run[0]), run[1..]);
    }
  }

  /** After enough helpful steps - nine for every query accepted meanwhile, and a bounded number for
      what was in the pipeline - every accepted query has been delivered. */
  lemma EveryQueryIsDelivered(s: State, run: seq<Action>, id: nat)
    requires Inv(s) && Legal(s, run) && 1 <= id < End(s, run).nextId
    requires HelpfulSteps(s, run) >= Work(s) + 9 * (End(s, run).nextId - s.nextId)
    ensures exists i :: 0 <= i < |End(s, run).delivered| && End(s, run).delivered[i].id == id
  {
    var t := End(s, run);
    RunsKeep(s, run);
    WorkBound(s, run);
    SumNonNegative(Weight, t.workers);
    if Sum(WorkerHas(id), t.workers) > 0 {
      var w := SumPositive(WorkerHas(id), t.workers);
      SumMember(Weight, t.workers, w);
    }
    assert Places(t, id) == 1;
    var i := SumPositive(ResultIs(id), t.delivered);
  }

  /** A sleeping worker wakes exactly spuriously or by the signal of an accepted query that picks it. */
  lemma SleepEndsExactly(s: State, a: Action, w: nat)
    requires Enabled(s, a) && w < |s.workers| && s.workers[w].Asleep?
    ensures w < |Step(s, a).workers|
    ensures Step(s, a).workers[w] != Asleep <==> a == Spurious(w) || (a == Resolve(w) && |s.pending| < s.limit)
    ensures Step(s, a).workers[w] == Asleep || Step(s, a).workers[w] == Looking
  {
    assert SomeAsleep(s);
  }
}
