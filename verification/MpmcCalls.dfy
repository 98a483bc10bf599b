/** How the calls of one thread on the locked channel end, whatever the other threads do: a send or receive
    by its commit, or for a reason; a close with the flag set and everybody woken. */
module MpmcCalls {
  import opened MpmcChannel

  /** Thread `i` begins no further call in the run. */
  ghost predicate NoCallBy(run: seq<Action>, i: nat)
  {
    forall k :: 0 <= k < |run| ==> !((run[k].Call? || run[k].Close?) && run[k].t == i)
  }

  /** The step completes, or gives up by a timeout, the call of thread `i`. */
  predicate Concludes(a: Action, i: nat)
  {
    (a.Finish? || a.Timeout? || a.LateTimeout?) && a.t == i
  }

  lemma {:induction false} StaysOut(s: State, run: seq<Action>, i: nat)
    requires Inv(s) && Legal(s, run) && NoCallBy(run, i) && i < |s.threads| && s.threads[i].Idle?
    ensures i < |End(s, run).threads| && End(s, run).threads[i].Idle?
    decreases |run|
  {
    if run != [] {
      StepKeeps(s, run[0]);
      assert !((run[0].Call? || run[0].Close?) && run[0].t == i) && NoCallBy(run[1..], i);
      OthersStep(s, run[0], i);
      StaysOut(Step(s, run[0]), run[1..], i);
    }
  }

  /** A step of another thread can wake thread `i`, and nothing else. */
  lemma OthersStep(s: State, a: Action, i: nat)
    requires Inv(s) && Enabled(s, a) && i < |s.threads|
    ensures |Step(s, a).threads| == |s.threads|
    ensures a.t != i ==>
              || Step(s, a).threads[i] == s.threads[i]
              || (s.threads[i].In? && s.threads[i].at.Asleep? && Step(s, a).threads[i] == s.threads[i].(at := Woken))
  {
    if a.Advance? {
      OthersAdvance(s, a.t, i);
    } else if a.Finish? {
      OthersFinish(s, a.t, a.w, i);
    }
  }

  lemma OthersAdvance(s: State, t: nat, i: nat)
    requires Enabled(s, Advance(t)) && i < |s.threads|
    ensures |StepAdvance(s, t).threads| == |s.threads|
    ensures t != i ==>
              || StepAdvance(s, t).threads[i] == s.threads[i]
              || (&& s.threads[i].In? && s.threads[i].at.Asleep?
                  && StepAdvance(s, t).threads[i] == s.threads[i].(at := Woken))
  {
  }

  lemma OthersFinish(s: State, t: nat, w: nat, i: nat)
    requires Inv(s) && Enabled(s, Finish(t, w)) && i < |s.threads|
    ensures |StepFinish(s, t, w).threads| == |s.threads|
    ensures t != i ==>
              || StepFinish(s, t, w).threads[i] == s.threads[i]
              || (&& s.threads[i].In? && s.threads[i].at.Asleep?
                  && StepFinish(s, t, w).threads[i] == s.threads[i].(at := Woken))
  {
  }

  lemma CallStep(s: State, a: Action, i: nat)
    requires Inv(s) && Enabled(s, a) && i < |s.threads| && s.threads[i].In?
    ensures |Step(s, a).threads| == |s.threads| && !Step(s, a).threads[i].Closing?
    ensures
      var th' := Step(s, a).threads[i];
      th'.In? ==> th'.role == s.threads[i].role && th'.mode == s.threads[i].mode && !Concludes(a, i)
  {
    OthersStep(s, a, i);
  }

  /** While a send or receive is in progress it is that of its call, has not committed and has not timed out. */
  lemma {:induction false} CallGoesOn(b: State, run: seq<Action>, i: nat)
    requires Inv(b) && Legal(b, run) && NoCallBy(run, i) && i < |b.threads| && b.threads[i].In?
    requires i < |End(b, run).threads| && End(b, run).threads[i].In?
    ensures End(b, run).threads[i].role == b.threads[i].role && End(b, run).threads[i].mode == b.threads[i].mode
    ensures forall k :: 0 <= k < |run| ==> !Concludes(run[k], i)
    decreases |run|
  {
    if run != [] {
      StepKeeps(b, run[0]);
      CallStep(b, run[0], i);
      assert NoCallBy(run[1..], i);
      if Step(b, run[0]).threads[i].Idle? {
        StaysOut(Step(b, run[0]), run[1..], i);
      } else {
        CallGoesOn(Step(b, run[0]), run[1..], i);
      }
    }
  }

  /** A send or receive that thread `i` began in `s` and that, after `run`, ends with the step `a`: the step
      is its commit, which appends exactly its element or takes exactly the first one; or nothing happens to
      the queue, and the channel is closed - and empty, for a receive -, or the queue is full, or empty, and
      the call was not to block, or the timeout that was set has expired. */
  lemma CallEnds(s: State, i: nat, role: Role, mode: Mode, run: seq<Action>, a: Action)
    requires Inv(s) && Enabled(s, Call(i, role, mode)) && Inv(Step(s, Call(i, role, mode)))
    requires Legal(Step(s, Call(i, role, mode)), run) && NoCallBy(run, i)
    requires
      var t := End(Step(s, Call(i, role, mode)), run);
      i < |t.threads| && t.threads[i].In? && Enabled(t, a) && Inv(Step(t, a))
    requires
      var t := End(Step(s, Call(i, role, mode)), run);
      i < |Step(t, a).threads| && Step(t, a).threads[i].Idle?
    ensures a.t == i
    ensures
      var t := End(Step(s, Call(i, role, mode)), run);
      var q, q', full := Queue(t), Queue(Step(t, a)), |Queue(t)| == |t.slots|;
      if a.Finish? then
        match role
        case Sender(x) => !full && q' == q + [x]
        case Receiver => q != [] && q' == q[1..]
      else
        && q' == q
        && (|| (t.closed && (role.Receiver? ==> q == []))
            || ((if role.Sender? then full else q == []) && mode.NonBlocking?)
            || ((a.Timeout? || a.LateTimeout?) && mode == Blocking(true)))
  {
    var b := Step(s, Call(i, role, mode));
    var t := End(b, run);
    CallGoesOn(b, run, i);
    OthersStep(t, a, i);
    StepRefinesFifo(t, a);
  }

  /** The steps of the run that thread `i` itself takes. */
  function OwnSteps(run: seq<Action>, i: nat): (n: nat)
  {
    if run == [] then 0
    else
      (if (run[0].Acquire? || run[0].Advance? || run[0].Finish?) && run[0].t == i then 1 else 0)
      + OwnSteps(run[1..], i)
  }

  /** How many own steps a call that does not go to sleep has left at most. */
  function CallLeft(th: Thread): (n: nat)
  {
    match th
    case Idle => 0
    case Closing(step) => (match step case Store => 3 case Lock => 2 case Broadcast => 1)
    case In(_, _, at) =>
      match at
      case Enter => 4
      case Woken => 4
      case Locked => 3
      case Checking => 2
      case Blocked => 1
      case Commit => 1
      case Waiting => 6
      case Asleep => 5
  }

  /** The call does not go to sleep: it is not to block, or the channel is closed. */
  ghost predicate StaysAwake(s: State, i: nat)
    requires i < |s.threads|
  {
    match s.threads[i]
    case Idle => true
    case Closing(_) => true
    case In(_, mode, at) => mode.NonBlocking? || (s.closed && !at.Waiting? && !at.Asleep?)
  }

  lemma ComesNearer(s: State, a: Action, i: nat)
    requires Inv(s) && Enabled(s, a) && i < |s.threads| && StaysAwake(s, i)
    requires !((a.Call? || a.Close?) && a.t == i)
    ensures i < |Step(s, a).threads| && StaysAwake(Step(s, a), i)
    ensures
      var own := if (a.Acquire? || a.Advance? || a.Finish?) && a.t == i then 1 else 0;
      CallLeft(Step(s, a).threads[i]) + own <= CallLeft(s.threads[i])
  {
    OthersStep(s, a, i);
    if s.closed { ClosedByStep(s, a); }
    if a.t == i { OwnStepComesNearer(s, a, i); }
  }

  lemma ClosedByStep(s: State, a: Action)
    requires Inv(s) && Enabled(s, a) && s.closed
    ensures Step(s, a).closed
  {
  }

  lemma OwnStepComesNearer(s: State, a: Action, i: nat)
    requires Inv(s) && Enabled(s, a) && i < |s.threads| && StaysAwake(s, i) && a.t == i && !a.Call? && !a.Close?
    ensures i < |Step(s, a).threads| && StaysAwake(Step(s, a), i)
    ensures
      var own := if a.Acquire? || a.Advance? || a.Finish? then 1 else 0;
      CallLeft(Step(s, a).threads[i]) + own <= CallLeft(s.threads[i])
  {
    assert ThreadInv(s, s.threads[i]);
  }

  lemma {:induction false} CallIsBoundedBy(b: State, run: seq<Action>, i: nat)
    requires Inv(b) && Legal(b, run) && NoCallBy(run, i) && i < |b.threads| && StaysAwake(b, i)
    ensures i < |End(b, run).threads| && OwnSteps(run, i) + CallLeft(End(b, run).threads[i]) <= CallLeft(b.threads[i])
    decreases |run|
  {
    if run != [] {
      StepKeeps(b, run[0]);
      assert !((run[0].Call? || run[0].Close?) && run[0].t == i) && NoCallBy(run[1..], i);
      ComesNearer(b, run[0], i);
      CallIsBoundedBy(Step(b, run[0]), run[1..], i);
    }
  }

  /** A call that is not to block, or that is awake on a closed channel, is over after at most four more own
      steps, a close after three. While it is in progress its own next step is enabled, unless it waits for
      the mutex - and then whoever holds the mutex can step. */
  lemma BoundedCall(b: State, run: seq<Action>, i: nat) returns (j: nat, a: Action)
    requires Inv(b) && Legal(b, run) && NoCallBy(run, i) && i < |b.threads| && StaysAwake(b, i)
    ensures OwnSteps(run, i) <= 4 && i < |End(b, run).threads|
    ensures OwnSteps(run, i) == 4 ==> End(b, run).threads[i].Idle?
    ensures !End(b, run).threads[i].Idle? ==>
              && Enabled(End(b, run), a) && a.t == j && (a.Acquire? || a.Advance? || a.Finish?)
              && (j == i || (j < |End(b, run).threads| && Holds(End(b, run).threads[j])))
  {
    CallIsBoundedBy(b, run, i);
    StillAwake(b, run, i);
    j, a := SomebodySteps(End(b, run), i);
  }

  lemma {:induction false} StillAwake(b: State, run: seq<Action>, i: nat)
    requires Inv(b) && Legal(b, run) && NoCallBy(run, i) && i < |b.threads| && StaysAwake(b, i)
    ensures i < |End(b, run).threads| && StaysAwake(End(b, run), i)
    decreases |run|
  {
    if run != [] {
      StepKeeps(b, run[0]);
      assert !((run[0].Call? || run[0].Close?) && run[0].t == i) && NoCallBy(run[1..], i);
      ComesNearer(b, run[0], i);
      StillAwake(Step(b, run[0]), run[1..], i);
    }
  }

  /** Whoever holds the mutex can step; if nobody does, whoever is awake can take it. */
  lemma SomebodySteps(s: State, i: nat) returns (j: nat, a: Action)
    requires Inv(s) && i < |s.threads| && StaysAwake(s, i)
    ensures !s.threads[i].Idle? ==>
              && Enabled(s, a) && a.t == j && (a.Acquire? || a.Advance? || a.Finish?)
              && (j == i || (j < |s.threads| && Holds(s.threads[j])))
  {
    j, a := i, Acquire(i);
    assert ThreadInv(s, s.threads[i]);
    if s.threads[i] == Closing(Store) {
      a := Advance(i);
    } else if Holds(s.threads[i]) || s.mutex {
      if !Holds(s.threads[i]) {
        j :| 0 <= j < |s.threads| && Holds(s.threads[j]);
      }
      a := HolderStep(s, j);
    }
  }

  lemma HolderStep(s: State, j: nat) returns (a: Action)
    requires Inv(s) && j < |s.threads| && Holds(s.threads[j])
    ensures Enabled(s, a) && a.t == j && (a.Advance? || a.Finish?)
  {
    a := Advance(j);
    if s.threads[j].In? && s.threads[j].at.Commit? {
      var sender := !s.threads[j].role.Sender?;
      if Sleeper(s, sender) {
        var w: nat :| w < |s.threads| && Sleeps(s.threads[w], sender);
        a := Finish(j, w);
      } else {
        a := Finish(j, 0);
      }
    }
  }

  /** How many own steps a thread holds the mutex for at most. */
  function HoldLeft(th: Thread): (n: nat)
  {
    match th
    case Idle => 0
    case Closing(step) => if step.Broadcast? then 1 else 0
    case In(_, _, at) =>
      match at
      case Locked => 3
      case Blocked => 2
      case Checking => 2
      case Waiting => 1
      case Commit => 1
      case _ => 0
  }

  ghost predicate HoldsThroughout(s: State, run: seq<Action>, i: nat)
    requires Inv(s) && Legal(s, run)
    decreases |run|
  {
    && i < |s.threads| && Holds(s.threads[i])
    && (run == [] || (StepKeeps(s, run[0]); HoldsThroughout(Step(s, run[0]), run[1..], i)))
  }

  lemma HoldStep(s: State, a: Action, i: nat)
    requires Inv(s) && Enabled(s, a) && i < |s.threads| && Holds(s.threads[i])
    ensures i < |Step(s, a).threads|
    ensures
      var own := if (a.Acquire? || a.Advance? || a.Finish?) && a.t == i then 1 else 0;
      HoldLeft(Step(s, a).threads[i]) + own <= HoldLeft(s.threads[i])
  {
    OthersStep(s, a, i);
  }

  /** Nobody keeps the mutex for more than three own steps: it sleeps, leaves, or is done. */
  lemma {:induction false} MutexIsReleased(s: State, run: seq<Action>, i: nat)
    requires Inv(s) && Legal(s, run) && HoldsThroughout(s, run, i)
    ensures OwnSteps(run, i) + 1 <= HoldLeft(s.threads[i]) <= 3
    decreases |run|
  {
    if run != [] {
      StepKeeps(s, run[0]);
      HoldStep(s, run[0], i);
      MutexIsReleased(Step(s, run[0]), run[1..], i);
    }
  }

  /** A close that has ended has closed the channel and woken everybody. */
  lemma {:induction false} CloseEnds(b: State, run: seq<Action>, i: nat)
    requires Inv(b) && Legal(b, run) && NoCallBy(run, i) && i < |b.threads| && b.threads[i].Closing?
    ensures i < |End(b, run).threads| && !End(b, run).threads[i].In?
    ensures End(b, run).threads[i].Idle? ==> End(b, run).closed && End(b, run).broadcast
    decreases |run|
  {
    if run != [] {
      StepKeeps(b, run[0]);
      assert NoCallBy(run[1..], i) && !((run[0].Call? || run[0].Close?) && run[0].t == i);
      OthersStep(b, run[0], i);
      if Step(b, run[0]).threads[i].Idle? {
        StaysOut(Step(b, run[0]), run[1..], i);
        ClosedStays(Step(b, run[0]), run[1..]);
      } else {
        CloseEnds(Step(b, run[0]), run[1..], i);
      }
    }
  }

  lemma {:induction false} ClosedStays(s: State, run: seq<Action>)
    requires Inv(s) && Legal(s, run) && s.closed && s.broadcast
    ensures End(s, run).closed && End(s, run).broadcast
    decreases |run|
  {
    if run != [] {
      StepKeeps(s, run[0]);
      ClosedStaysOneStep(s, run[0]);
      ClosedStays(Step(s, run[0]), run[1..]);
    }
  }

  lemma ClosedStaysOneStep(s: State, a: Action)
    requires Inv(s) && Enabled(s, a) && s.closed && s.broadcast
    ensures Step(s, a).closed && Step(s, a).broadcast
  {
  }

  /** Some receive of the run has left because it found the queue empty and then the channel closed. */
  ghost predicate LeftClosed(s: State, run: seq<Action>)
    requires Inv(s) && Legal(s, run)
    decreases |run|
  {
    run != [] &&
    (|| LeavesClosed(s, run[0])
     || (StepKeeps(s, run[0]); LeftClosed(Step(s, run[0]), run[1..])))
  }

  ghost predicate LeavesClosed(s: State, a: Action)
    requires Enabled(s, a)
  {
    var th := s.threads[a.t];
    a.Advance? && s.closed && th.In? && th.role.Receiver? && th.at.Blocked?
  }

  /** The history that ClosedIsFinal speaks of is that of such receives. */
  lemma {:induction false} DrainedByReceives(s: State, run: seq<Action>)
    requires Inv(s) && Legal(s, run)
    ensures End(s, run).drained <==> s.drained || LeftClosed(s, run)
    decreases |run|
  {
    if run != [] {
      StepKeeps(s, run[0]);
      DrainedStep(s, run[0]);
      DrainedByReceives(Step(s, run[0]), run[1..]);
    }
  }

  lemma DrainedStep(s: State, a: Action)
    requires Inv(s) && Enabled(s, a)
    ensures Step(s, a).drained <==> s.drained || LeavesClosed(s, a)
  {
  }

  /** Once a receive has left because of the close, everything accepted has been received, and nothing is
      accepted any more. */
  lemma {:induction false} NothingAfterClosed(s: State, run: seq<Action>, t: State, more: seq<Action>)
    requires Inv(s) && Legal(s, run) && LeftClosed(s, run) && t == End(s, run) && Legal(t, more)
    ensures Queue(t) == [] && End(t, more).accepted == t.accepted && End(t, more).received == t.received
  {
    DrainedByReceives(s, run);
    ClosedIsFinal(t, more);
  }

  /** A close that thread `i` begins is over after three of its own steps, and then the channel is closed and
      everybody has been woken. */
  lemma CloseCloses(s: State, run: seq<Action>, i: nat)
    requires Inv(s) && Enabled(s, Close(i)) && Inv(Step(s, Close(i))) && Legal(Step(s, Close(i)), run)
    requires NoCallBy(run, i)
    ensures i < |End(Step(s, Close(i)), run).threads|
    ensures
      var t := End(Step(s, Close(i)), run);
      && OwnSteps(run, i) <= 3 && (OwnSteps(run, i) == 3 ==> t.threads[i].Idle?)
      && (t.threads[i].Idle? ==> t.closed && t.broadcast)
  {
    var b := Step(s, Close(i));
    CallIsBoundedBy(b, run, i);
    CloseEnds(b, run, i);
  }

  /** A sleeper is woken exactly by a spurious wake-up or timeout of its own, by the broadcast of a close, or by
      the one signal of a commit of the other role that picks it. */
  lemma SleepEndsExactly(s: State, a: Action, i: nat)
    requires Inv(s) && Enabled(s, a) && i < |s.threads| && s.threads[i].In? && s.threads[i].at.Asleep?
    ensures i < |Step(s, a).threads|
    ensures Step(s, a).threads[i] != s.threads[i] <==>
            || a == Spurious(i) || a == Timeout(i)
            || (a.Advance? && s.threads[a.t] == Closing(Broadcast))
            || (a.Finish? && a.w == i && s.threads[a.t].role.Sender? != s.threads[i].role.Sender?)
  {
    OthersStep(s, a, i);
    if a.Finish? { assert Sleeps(s.threads[i], s.threads[i].role.Sender?); }
  }
}
