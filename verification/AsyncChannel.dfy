/** Queued channel operations of loopyChannel.c: any thread pushes an operation on the list under
    the mutex and then signals; the loop's handler takes the whole list and executes it. */
module AsyncChannel {
  import opened Sums
  import Wake = AsyncWake

  datatype Handler = Outside | Taking | Executing(batch: seq<nat>)

  /** Operations are numbered in the order they were pushed. `ops` is the list, newest first;
      `taken` and `before` (how many had been pushed at the latest take and at the one before),
      `pushed` and `executed` are history. */
  datatype State = State(wake: Wake.State, ops: seq<nat>, handler: Handler,
                         pushed: nat, taken: nat, before: nat, executed: seq<nat>)

  /** Push is the locked section of an async send or receive; the thread then enters the wake-up. */
  datatype Action = Push(t: nat) | Signal(a: Wake.Action) | Loop(a: Wake.Action) | Take | Execute

  function Init(threads: nat): (s: State)
  {
    State(Wake.Init(threads), [], Outside, 0, 0, 0, [])
  }

  predicate Enabled(s: State, a: Action)
  {
    match a
    case Push(t) => Wake.Enabled(s.wake, Wake.Call(t))
    case Signal(w) => (w.Cas? || w.Write?) && Wake.Enabled(s.wake, w)
    case Loop(w) =>
      && (w.Drain? || w.Clear? || w.Start? || w.Finish?)
      && Wake.Enabled(s.wake, w)
      && (w.Finish? ==> s.handler == Executing([]))
    case Take => s.handler.Taking?
    case Execute => s.handler.Executing? && s.handler.batch != []
  }

  function Step(s: State, a: Action): (s': State)
    requires Enabled(s, a)
  {
    match a
    case Push(t) =>
      s.(ops := [s.pushed] + s.ops, pushed := s.pushed + 1, wake := Wake.Step(s.wake, Wake.Call(t)))
    case Signal(w) => s.(wake := Wake.Step(s.wake, w))
    case Loop(w) =>
      s.(wake := Wake.Step(s.wake, w),
         handler := if w.Start? then Taking else if w.Finish? then Outside else s.handler)
    case Take => s.(ops := [], handler := Executing(s.ops), before := s.taken, taken := s.pushed)
    case Execute =>
      s.(handler := Executing(s.handler.batch[1..]), executed := s.executed + [s.handler.batch[0]])
  }

  function Remaining(s: State): (r: seq<nat>)
  {
    if s.handler.Executing? then s.handler.batch else []
  }

  /** The numbers from `hi` - 1 down to `lo`. */
  ghost predicate Descending(xs: seq<nat>, lo: nat, hi: nat)
  {
    lo <= hi && |xs| == hi - lo && forall i :: 0 <= i < |xs| ==> xs[i] == hi - 1 - i
  }

  ghost predicate NoDuplicates(xs: seq<nat>)
  {
    forall i, j :: 0 <= i < j < |xs| ==> xs[i] != xs[j]
  }

  ghost predicate Unsignalled(s: State)
  {
    exists t :: 0 <= t < |s.wake.senders| && s.wake.senders[t].Entering?
  }

  /** Somebody is still bound to bring the handler to its take. */
  ghost predicate Promised(s: State)
  {
    Unsignalled(s) || s.wake.pending || s.wake.loop.Cleared? || s.handler.Taking?
  }

  ghost predicate Inv(s: State)
  {
    && Wake.Inv(s.wake)
    && (s.wake.loop.Running? <==> !s.handler.Outside?)
    && s.before <= s.taken <= s.pushed
    && Descending(s.ops, s.taken, s.pushed)
    && Descending(Remaining(s), s.before, s.before + |Remaining(s)|) && s.before + |Remaining(s)| <= s.taken
    && NoDuplicates(s.executed)
    && (forall id :: id in s.executed <==> 0 <= id < s.before || s.before + |Remaining(s)| <= id < s.taken)
    && (s.ops != [] ==> Promised(s))
  }

  lemma InitHolds(threads: nat)
    ensures Inv(Init(threads))
  {
    Wake.InitHolds(threads);
  }

  lemma PushKeeps(s: State, t: nat)
    requires Inv(s) && Enabled(s, Push(t))
    ensures Inv(Step(s, Push(t)))
  {
    Wake.StepKeeps(s.wake, Wake.Call(t));
    var s' := Step(s, Push(t));
    assert s'.wake.senders[t].Entering?;
  }

  lemma SignalKeeps(s: State, w: Wake.Action)
    requires Inv(s) && Enabled(s, Signal(w))
    ensures Inv(Step(s, Signal(w)))
  {
    Wake.StepKeeps(s.wake, w);
    var s' := Step(s, Signal(w));
    if s.ops != [] && !s.wake.pending && Unsignalled(s) && w.Write? {
      var t :| 0 <= t < |s.wake.senders| && s.wake.senders[t].Entering?;
      assert s'.wake.senders[t].Entering?;
    }
  }

  lemma LoopKeeps(s: State, w: Wake.Action)
    requires Inv(s) && Enabled(s, Loop(w))
    ensures Inv(Step(s, Loop(w)))
  {
    Wake.StepKeeps(s.wake, w);
    assert Step(s, Loop(w)).wake.senders == s.wake.senders;
    if s.handler.Outside? || w.Finish? { assert Remaining(s) == []; }
  }

  lemma TakeKeeps(s: State)
    requires Inv(s) && Enabled(s, Take)
    ensures Inv(Step(s, Take))
  {
  }

  lemma ExecuteKeeps(s: State)
    requires Inv(s) && Enabled(s, Execute)
    ensures Inv(Step(s, Execute))
  {
    var id := s.handler.batch[0];
    var s' := Step(s, Execute);
    assert id == s.before + |Remaining(s)| - 1 && id !in s.executed;
    forall x ensures x in s'.executed <==> x in s.executed || x == id {
    }
  }

  lemma StepKeeps(s: State, a: Action)
    requires Inv(s) && Enabled(s, a)
    ensures Inv(Step(s, a))
  {
    match a
    case Push(t) => PushKeeps(s, t);
    case Signal(w) => SignalKeeps(s, w);
    case Loop(w) => LoopKeeps(s, w);
    case Take => TakeKeeps(s);
    case Execute => ExecuteKeeps(s);
  }

  ghost predicate Legal(s: State, run: seq<Action>)
    decreases |run|
  {
    run == [] || (Enabled(s, run[0]) && Legal(Step(s, run[0]), run[1..]))
  }

  ghost function End(s: State, run: seq<Action>): (s': State)
    requires Legal(s, run)
    decreases |run|
  {
    if run == [] then s else End(Step(s, run[0]), run[1..])
  }

  lemma {:induction false} RunsKeep(s: State, run: seq<Action>)
    requires Inv(s) && Legal(s, run)
    ensures Inv(End(s, run))
    decreases |run|
  {
    if run != [] {
      StepKeeps(s, run[0]);
      RunsKeep(Step(s, run[0]), run[1..]);
    }
  }

  /** In every interleaving each pushed operation is in exactly one place - the list, the batch
      being executed, or the executed log, in which it occurs once; a list that is not empty has
      somebody bound to bring the handler; and a batch is executed newest first. */
  lemma NothingIsStranded(threads: nat, run: seq<Action>, t: State)
    requires Legal(Init(threads), run) && t == End(Init(threads), run)
    ensures NoDuplicates(t.executed)
    ensures forall id :: 0 <= id < t.pushed ==>
              (if id in t.ops then 1 else 0) + (if id in Remaining(t) then 1 else 0)
                + (if id in t.executed then 1 else 0) == 1
    ensures t.ops != [] ==> Promised(t)
    ensures forall i, j :: 0 <= i < j < |Remaining(t)| ==> Remaining(t)[i] > Remaining(t)[j]
    ensures forall i, j :: 0 <= i < j < |t.ops| ==> t.ops[i] > t.ops[j]
  {
    InitHolds(threads);
    RunsKeep(Init(threads), run);
    forall id | 0 <= id < t.pushed
      ensures (if id in t.ops then 1 else 0) + (if id in Remaining(t) then 1 else 0)
              + (if id in t.executed then 1 else 0) == 1
    {
      DescendingMembers(t.ops, t.taken, t.pushed, id);
      DescendingMembers(Remaining(t), t.before, t.before + |Remaining(t)|, id);
    }
  }

  lemma DescendingMembers(xs: seq<nat>, lo: nat, hi: nat, id: nat)
    requires Descending(xs, lo, hi)
    ensures id in xs <==> lo <= id < hi
  {
    if lo <= id < hi {
      assert xs[hi - 1 - id] == id;
    }
  }

  /** The action that brings the handler's next take nearer. */
  ghost predicate Helpful(s: State, a: Action)
  {
    match s.handler
    case Taking => a.Take?
    case Executing(batch) => if batch != [] then a.Execute? else a == Loop(Wake.Finish)
    case Outside =>
      match s.wake.loop
      case Cleared => a == Loop(Wake.Start)
      case Drained => a == Loop(Wake.Clear)
      case _ =>
        if s.wake.efd > 0 then a == Loop(Wake.Drain)
        else if s.wake.pending then a.Signal? && a.a.Write?
        else a.Signal? && a.a.Cas?
  }

  /** How many helpful steps are left until the handler takes the list. */
  function Distance(s: State): (n: nat)
  {
    var polling := if s.wake.efd > 0 then 4 else if s.wake.pending then 5 else 6;
    match s.handler
    case Taking => 1
    case Executing(batch) => |batch| + 1 + polling
    case Outside => if s.wake.loop.Cleared? then 2 else if s.wake.loop.Drained? then 3 else polling
  }

  ghost function HelpfulSteps(s: State, run: seq<Action>): (n: nat)
    requires Legal(s, run)
    decreases |run|
  {
    if run == [] then 0
    else (if Helpful(s, run[0]) then 1 else 0) + HelpfulSteps(Step(s, run[0]), run[1..])
  }

  /** While the list is not empty a helpful action is enabled. */
  lemma HelpfulEnabled(s: State) returns (a: Action)
    requires Inv(s) && s.ops != []
    ensures Enabled(s, a) && Helpful(s, a)
  {
    match s.handler
    case Taking => a := Take;
    case Executing(batch) => a := if batch != [] then Execute else Loop(Wake.Finish);
    case Outside =>
      match s.wake.loop
      case Cleared => a := Loop(Wake.Start);
      case Drained => a := Loop(Wake.Clear);
      case Running => assert false;
      case Polling =>
        if s.wake.efd > 0 {
          a := Loop(Wake.Drain);
        } else if s.wake.pending {
          var t := SumPositive(Wake.Token, s.wake.senders);
          a := Signal(Wake.Write(t));
        } else {
          var t :| 0 <= t < |s.wake.senders| && s.wake.senders[t].Entering?;
          a := Signal(Wake.Cas(t));
        }
  }

  /** No step other than the take moves the take further away. */
  lemma DistanceFalls(s: State, a: Action)
    requires Inv(s) && s.ops != [] && Enabled(s, a) && !a.Take?
    ensures Distance(Step(s, a)) + (if Helpful(s, a) then 1 else 0) <= Distance(s)
  {
    SumNonNegative(Wake.Token, s.wake.senders);
  }

  /** A pushed operation is taken after a bounded number of helpful steps, in any interleaving. */
  lemma {:induction false} TakenInTime(s: State, run: seq<Action>)
    requires Inv(s) && s.ops != [] && Legal(s, run) && HelpfulSteps(s, run) >= Distance(s)
    ensures s.pushed <= End(s, run).taken
    decreases |run|
  {
    var s' := Step(s, run[0]);
    StepKeeps(s, run[0]);
    if run[0].Take? {
      TakenStays(s', run[1..]);
    } else {
      DistanceFalls(s, run[0]);
      TakenInTime(s', run[1..]);
    }
  }

  lemma {:induction false} TakenStays(s: State, run: seq<Action>)
    requires Inv(s) && Legal(s, run)
    ensures s.taken <= End(s, run).taken
    decreases |run|
  {
    if run != [] {
      StepKeeps(s, run[0]);
      TakenStays(Step(s, run[0]), run[1..]);
    }
  }

  function Executes(run: seq<Action>): (n: nat)
  {
    if run == [] then 0 else (if run[0].Execute? then 1 else 0) + Executes(run[1..])
  }

  /** Once taken, the i-th operation of the batch is executed by the (i+1)-th execution. */
  lemma {:induction false} ExecutedInTurn(s: State, run: seq<Action>, i: nat)
    requires Inv(s) && i < |Remaining(s)| && Legal(s, run) && Executes(run) > i
    ensures Remaining(s)[i] in End(s, run).executed
    decreases |run|
  {
    var s' := Step(s, run[0]);
    StepKeeps(s, run[0]);
    if run[0].Execute? {
      if i == 0 {
        ExecutedStays(s', run[1..], Remaining(s)[0]);
      } else {
        ExecutedInTurn(s', run[1..], i - 1);
      }
    } else {
      assert Remaining(s') == Remaining(s);
      ExecutedInTurn(s', run[1..], i);
    }
  }

  lemma {:induction false} ExecutedStays(s: State, run: seq<Action>, id: nat)
    requires id in s.executed && Legal(s, run)
    ensures id in End(s, run).executed
    decreases |run|
  {
    if run != [] {
      ExecutedStays(Step(s, run[0]), run[1..], id);
    }
  }

  function Pushes(run: seq<Action>): (n: nat)
  {
    if run == [] then 0 else (if run[0].Push? then 1 else 0) + Pushes(run[1..])
  }

  /** Every push puts an operation on the list, and every execution executes one. */
  lemma {:induction false} CountsAreTheSteps(s: State, run: seq<Action>)
    requires Legal(s, run)
    ensures End(s, run).pushed == s.pushed + Pushes(run)
    ensures |End(s, run).executed| == |s.executed| + Executes(run)
    decreases |run|
  {
    if run != [] {
      CountsAreTheSteps(Step(s, run[0]), run[1..]);
    }
  }
}
