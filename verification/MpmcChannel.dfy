/** The mutex and condition-variable channel of loopyChannel.c, for any number of senders,
    receivers and closers. The steps are: taking the mutex, the loop test, each load of the closed
    flag (it is set outside the mutex), going to sleep, the commit that copies, signals and unlocks,
    and the close protocol. Wake-ups may be spurious; timed waits may expire. */
module MpmcChannel {
  import opened Sums
  import Words

  type Elem = int

  datatype Mode = NonBlocking | Blocking(timed: bool)

  datatype Role = Sender(x: Elem) | Receiver

  /** Where in the call a thread is. Enter and Woken wait for the mutex, Asleep waits for a signal;
      the others hold the mutex: Blocked is about to load the closed flag after a failed loop test,
      Waiting about to sleep, Checking about to load the flag after the loop. */
  datatype Point = Enter | Locked | Blocked | Waiting | Asleep | Woken | Checking | Commit

  datatype CloseAt = Store | Lock | Broadcast

  datatype Thread = Idle | In(role: Role, mode: Mode, at: Point) | Closing(step: CloseAt)

  /** `accepted` and `received` are history; so are `drained`, set when a receive returns CLOSED,
      and `broadcast`, set when a close has broadcast. */
  datatype State = State(slots: seq<Elem>, head: nat, tail: nat, count: nat, closed: bool, mutex: bool,
                         threads: seq<Thread>, accepted: seq<Elem>, received: seq<Elem>,
                         drained: bool, broadcast: bool)

  /** In Finish, `w` is the sleeper the commit signals, if there is one. LateTimeout is a timed wait
      that expires although it was already signalled, which POSIX allows to consume the signal. */
  datatype Action =
    | Call(t: nat, role: Role, mode: Mode) | Close(t: nat)
    | Acquire(t: nat) | Advance(t: nat) | Finish(t: nat, w: nat)
    | Spurious(t: nat) | Timeout(t: nat) | LateTimeout(t: nat)

  function Init(capacity: nat, threads: nat): (s: State)
  {
    State(seq(capacity, _ => 0), 0, 0, 0, false, false, seq(threads, _ => Idle), [], [], false, false)
  }

  predicate Holds(th: Thread)
  {
    match th
    case Idle => false
    case In(_, _, at) => !at.Enter? && !at.Asleep? && !at.Woken?
    case Closing(step) => step.Broadcast?
  }

  predicate Sleeps(th: Thread, sender: bool)
  {
    th.In? && th.at.Asleep? && th.role.Sender? == sender
  }

  predicate Sleeper(s: State, sender: bool)
  {
    exists i :: 0 <= i < |s.threads| && Sleeps(s.threads[i], sender)
  }

  /** The loop test of a sender or a receiver. */
  predicate MustWait(s: State, role: Role)
  {
    if role.Sender? then s.count >= |s.slots| else s.count == 0
  }

  predicate Enabled(s: State, a: Action)
  {
    a.t < |s.threads| &&
    var th := s.threads[a.t];
    match a
    case Call(_, _, _) => th.Idle?
    case Close(_) => th.Idle?
    case Acquire(_) => !s.mutex && ((th.In? && (th.at.Enter? || th.at.Woken?)) || th == Closing(Lock))
    case Advance(_) =>
      || (th.In? && (th.at.Locked? || th.at.Blocked? || th.at.Waiting? || th.at.Checking?))
      || th == Closing(Store) || th == Closing(Broadcast)
    case Finish(_, w) =>
      && th.In? && th.at.Commit?
      && (Sleeper(s, !th.role.Sender?) ==> w < |s.threads| && Sleeps(s.threads[w], !th.role.Sender?))
    case Spurious(_) => th.In? && th.at.Asleep?
    case Timeout(_) => th.In? && th.at.Asleep? && th.mode == Blocking(true)
    case LateTimeout(_) => th.In? && th.at.Woken? && th.mode == Blocking(true)
  }

  function Put(s: State, t: nat, th: Thread): (s': State)
    requires t < |s.threads|
  {
    s.(threads := s.threads[t := th])
  }

  function WakeAll(th: Thread): (th': Thread)
  {
    if th.In? && th.at.Asleep? then th.(at := Woken) else th
  }

  function Signalled(s: State, sender: bool, w: nat): (s': State)
    requires Sleeper(s, sender) ==> w < |s.threads| && Sleeps(s.threads[w], sender)
  {
    if Sleeper(s, sender) then Put(s, w, s.threads[w].(at := Woken)) else s
  }

  function StepAdvance(s: State, t: nat): (s': State)
    requires Enabled(s, Advance(t))
  {
    var th := s.threads[t];
    match th
    case Closing(step) =>
      if step.Store? then Put(s, t, Closing(Lock)).(closed := true)
      else s.(threads := seq(|s.threads|, i requires 0 <= i < |s.threads| =>
                               if i == t then Idle else WakeAll(s.threads[i])),
              mutex := false, broadcast := true)
    case In(role, mode, at) =>
      match at
      case Locked =>
        Put(s, t, th.(at := if MustWait(s, role) then Blocked else if role.Sender? then Checking else Commit))
      case Blocked =>
        if s.closed then Put(s, t, Idle).(mutex := false, drained := s.drained || role.Receiver?)
        else if mode.NonBlocking? then Put(s, t, Idle).(mutex := false)
        else Put(s, t, th.(at := Waiting))
      case Waiting => Put(s, t, th.(at := Asleep)).(mutex := false)
      case Checking =>
        if s.closed then Put(s, t, Idle).(mutex := false) else Put(s, t, th.(at := Commit))
  }

  /** One thread at most holds the mutex, and the flag says whether one does. */
  ghost predicate MutexInv(s: State)
  {
    && (forall i, j :: 0 <= i < j < |s.threads| ==> !(Holds(s.threads[i]) && Holds(s.threads[j])))
    && (s.mutex <==> exists i :: 0 <= i < |s.threads| && Holds(s.threads[i]))
  }

  ghost predicate RingInv(s: State)
  {
    && |s.slots| > 0
    && s.received <= s.accepted && |s.accepted| == |s.received| + s.count && s.count <= |s.slots|
    && s.head == |s.accepted| % |s.slots| && s.tail == |s.received| % |s.slots|
    && (forall i :: |s.received| <= i < |s.accepted| ==> s.slots[i % |s.slots|] == s.accepted[i])
  }

  /** What a thread inside the mutex has established by its tests. */
  ghost predicate ThreadInv(s: State, th: Thread)
  {
    th.In? ==>
      && (th.at.Blocked? || th.at.Waiting? ==> MustWait(s, th.role))
      && (th.at.Checking? || th.at.Commit? ==> !MustWait(s, th.role))
      && (th.at.Checking? ==> th.role.Sender?)
      && (th.at.Waiting? || th.at.Asleep? || th.at.Woken? ==> th.mode.Blocking?)
      && (s.broadcast ==> !th.at.Waiting? && !th.at.Asleep?)
      && (s.drained ==> !(th.at.Commit? && th.role.Sender?))
  }

  ghost predicate CloserPending(s: State)
  {
    exists i :: 0 <= i < |s.threads| && (s.threads[i] == Closing(Lock) || s.threads[i] == Closing(Broadcast))
  }

  ghost predicate Inv(s: State)
  {
    && MutexInv(s) && RingInv(s)
    && (forall i :: 0 <= i < |s.threads| ==> ThreadInv(s, s.threads[i]))
    && (s.broadcast || s.drained || CloserPending(s) ==> s.closed)
    && (s.closed && !s.broadcast ==> CloserPending(s))
    && (s.drained ==> s.count == 0)
  }

  function StepFinish(s: State, t: nat, w: nat): (s': State)
    requires Inv(s) && Enabled(s, Finish(t, w))
  {
    var role := s.threads[t].role;
    var s1 := Put(Signalled(s, !role.Sender?, w), t, Idle).(mutex := false);
    match role
    case Sender(x) =>
      s1.(slots := s.slots[s.head := x], head := (s.head + 1) % |s.slots|, count := s.count + 1,
          accepted := s.accepted + [x])
    case Receiver =>
      assert ThreadInv(s, s.threads[t]);
      s1.(tail := (s.tail + 1) % |s.slots|, count := s.count - 1, received := s.received + [s.slots[s.tail]])
  }

  function Step(s: State, a: Action): (s': State)
    requires Inv(s) && Enabled(s, a)
  {
    var th := s.threads[a.t];
    match a
    case Call(t, role, mode) => Put(s, t, In(role, mode, Enter))
    case Close(t) => Put(s, t, Closing(Store))
    case Acquire(t) => Put(s, t, if th.In? then th.(at := Locked) else Closing(Broadcast)).(mutex := true)
    case Advance(t) => StepAdvance(s, t)
    case Finish(t, w) => StepFinish(s, t, w)
    case Spurious(t) => Put(s, t, th.(at := Woken))
    case Timeout(t) => Put(s, t, Idle)
    case LateTimeout(t) => Put(s, t, Idle)
  }

  lemma InitHolds(capacity: nat, threads: nat)
    requires capacity > 0
    ensures Inv(Init(capacity, threads))
  {
  }

  /** A thread that releases or never held the mutex changes its own program point only. */
  lemma PutKeepsMutex(s: State, t: nat, th: Thread, mutex: bool)
    requires MutexInv(s) && t < |s.threads|
    requires Holds(th) ==> mutex && (Holds(s.threads[t]) || !s.mutex)
    requires !Holds(th) ==> mutex == (s.mutex && !Holds(s.threads[t]))
    ensures MutexInv(Put(s, t, th).(mutex := mutex))
  {
    var s' := Put(s, t, th).(mutex := mutex);
    if Holds(th) {
      assert Holds(s'.threads[t]);
    } else if mutex {
      var i :| 0 <= i < |s.threads| && Holds(s.threads[i]);
      assert Holds(s'.threads[i]);
    }
  }

  /** Steps that leave the ring alone. */
  lemma QuietKeeps(s: State, a: Action)
    requires Inv(s) && Enabled(s, a) && !a.Finish? && !a.Advance?
    ensures Inv(Step(s, a))
  {
    var s' := Step(s, a);
    PutKeepsMutex(s, a.t, s'.threads[a.t], s'.mutex);
    QuietCloser(s, a);
  }

  lemma QuietCloser(s: State, a: Action)
    requires Inv(s) && Enabled(s, a) && !a.Finish? && !a.Advance?
    ensures CloserPending(s) <==> CloserPending(Step(s, a))
  {
    var s' := Step(s, a);
    if CloserPending(s) {
      var i :| 0 <= i < |s.threads| && (s.threads[i] == Closing(Lock) || s.threads[i] == Closing(Broadcast));
      assert s'.threads[i] == Closing(Lock) || s'.threads[i] == Closing(Broadcast);
    }
  }

  lemma CloseStepKeeps(s: State, t: nat)
    requires Inv(s) && Enabled(s, Advance(t)) && s.threads[t].Closing?
    ensures Inv(StepAdvance(s, t))
  {
    var s' := StepAdvance(s, t);
    if s.threads[t].step.Store? {
      PutKeepsMutex(s, t, Closing(Lock), s.mutex);
      assert s'.threads[t] == Closing(Lock);
    } else {
      assert Holds(s.threads[t]);
      forall i | 0 <= i < |s'.threads| ensures !Holds(s'.threads[i]) && ThreadInv(s', s'.threads[i]) {
        if i != t {
          assert !Holds(s.threads[i]) && ThreadInv(s, s.threads[i]);
        }
      }
    }
  }

  lemma SameClosers(s: State, s': State)
    requires |s'.threads| == |s.threads|
    requires forall i :: 0 <= i < |s.threads| && (s.threads[i].Closing? || s'.threads[i].Closing?) ==>
               s'.threads[i] == s.threads[i]
    ensures CloserPending(s') <==> CloserPending(s)
  {
    if CloserPending(s) {
      var i :| 0 <= i < |s.threads| && (s.threads[i] == Closing(Lock) || s.threads[i] == Closing(Broadcast));
      assert s'.threads[i] == s.threads[i];
    }
    if CloserPending(s') {
      var i :| 0 <= i < |s.threads| && (s'.threads[i] == Closing(Lock) || s'.threads[i] == Closing(Broadcast));
      assert s'.threads[i] == s.threads[i];
    }
  }

  /** One step inside the mutex moves its thread only, and the ring stays. */
  lemma AdvanceMoves(s: State, t: nat)
    requires Inv(s) && Enabled(s, Advance(t)) && s.threads[t].In?
    ensures
      var s' := StepAdvance(s, t);
      && s' == Put(s, t, s'.threads[t]).(mutex := s'.mutex, drained := s'.drained)
      && !s'.threads[t].Closing? && Holds(s.threads[t]) && s.mutex
      && (s'.mutex <==> Holds(s'.threads[t]))
      && (s'.drained && !s.drained ==> s.closed && s.count == 0)
  {
    assert ThreadInv(s, s.threads[t]);
  }

  /** The thread that moved has established what its new point needs, and the others are not affected. */
  lemma AdvanceKeepsThreads(s: State, t: nat, i: nat)
    requires Inv(s) && Enabled(s, Advance(t)) && s.threads[t].In? && i < |s.threads|
    ensures ThreadInv(StepAdvance(s, t), StepAdvance(s, t).threads[i])
  {
    AdvanceMoves(s, t);
    assert ThreadInv(s, s.threads[t]) && ThreadInv(s, s.threads[i]);
    if i != t {
      assert !Holds(s.threads[i]);
    }
  }

  lemma AdvanceKeeps(s: State, t: nat)
    requires Inv(s) && Enabled(s, Advance(t)) && s.threads[t].In?
    ensures Inv(StepAdvance(s, t))
  {
    var s' := StepAdvance(s, t);
    AdvanceMoves(s, t);
    PutKeepsMutex(s, t, s'.threads[t], s'.mutex);
    forall i | 0 <= i < |s'.threads| ensures ThreadInv(s', s'.threads[i]) {
      AdvanceKeepsThreads(s, t, i);
    }
    SameClosers(s, s');
  }

  lemma FinishKeepsRing(s: State, t: nat, w: nat)
    requires Inv(s) && Enabled(s, Finish(t, w))
    ensures RingInv(StepFinish(s, t, w))
  {
    assert ThreadInv(s, s.threads[t]);
    if s.threads[t].role.Sender? {
      SendKeepsRing(s, t, w);
    } else {
      ReceiveKeepsRing(s, t, w);
    }
  }

  lemma SendKeepsRing(s: State, t: nat, w: nat)
    requires Inv(s) && Enabled(s, Finish(t, w)) && s.threads[t].role.Sender? && !MustWait(s, s.threads[t].role)
    ensures RingInv(StepFinish(s, t, w))
  {
    var s', n := StepFinish(s, t, w), |s.slots|;
    Words.NextMod(|s.accepted|, n);
    forall i | |s.received| <= i < |s.accepted| ensures s'.slots[i % n] == s.accepted[i] {
      Words.DistinctSlots(i, |s.accepted|, n);
    }
  }

  lemma ReceiveKeepsRing(s: State, t: nat, w: nat)
    requires Inv(s) && Enabled(s, Finish(t, w)) && s.threads[t].role.Receiver? && !MustWait(s, s.threads[t].role)
    ensures RingInv(StepFinish(s, t, w))
  {
    var s', n := StepFinish(s, t, w), |s.slots|;
    Words.NextMod(|s.received|, n);
    assert s.slots[|s.received| % n] == s.accepted[|s.received|];
    assert s'.received == s.accepted[..|s.received| + 1];
  }

  lemma FinishKeeps(s: State, t: nat, w: nat)
    requires Inv(s) && Enabled(s, Finish(t, w))
    ensures Inv(StepFinish(s, t, w))
  {
    FinishKeepsRing(s, t, w);
    var s1 := Signalled(s, !s.threads[t].role.Sender?, w);
    var s' := StepFinish(s, t, w);
    assert Holds(s.threads[t]) && ThreadInv(s, s.threads[t]);
    forall i | 0 <= i < |s'.threads| ensures !Holds(s'.threads[i]) && ThreadInv(s', s'.threads[i]) {
      assert ThreadInv(s, s.threads[i]);
    }
    SameClosers(s, s');
  }

  lemma StepKeeps(s: State, a: Action)
    requires Inv(s) && Enabled(s, a)
    ensures Inv(Step(s, a))
  {
    match a
    case Advance(t) => if s.threads[t].In? { AdvanceKeeps(s, t); } else { CloseStepKeeps(s, t); }
    case Finish(t, w) => FinishKeeps(s, t, w);
    case _ => QuietKeeps(s, a);
  }

  /** A receiver that was woken, or is past the mutex and bound to take an item if there is one. */
  function RecvCredit(th: Thread): (n: int)
  {
    if th.In? && th.role.Receiver? && (th.at.Woken? || th.at.Locked? || th.at.Commit?) then 1 else 0
  }

  function SendCredit(th: Thread): (n: int)
  {
    if th.In? && th.role.Sender? && (th.at.Woken? || th.at.Locked? || th.at.Checking? || th.at.Commit?) then 1 else 0
  }

  function Credit(sender: bool): (r: Thread -> int) { if sender then SendCredit else RecvCredit }

  /** What the sleepers of a role wait for: free slots or items. */
  function Wanted(s: State, sender: bool): (n: int)
  {
    if sender then |s.slots| - s.count else s.count
  }

  /** While the channel is open: an unwoken sleeper means that every free slot (for senders) or buffered
      item (for receivers) is spoken for by a thread of its role that was woken or is already inside. */
  ghost predicate WakeInv(s: State, sender: bool)
  {
    !s.closed && Sleeper(s, sender) ==> Wanted(s, sender) <= Sum(Credit(sender), s.threads)
  }

  lemma PutCredits(s: State, t: nat, th: Thread, sender: bool)
    requires t < |s.threads|
    ensures
      Sum(Credit(sender), Put(s, t, th).threads) ==
      Sum(Credit(sender), s.threads) - Credit(sender)(s.threads[t]) + Credit(sender)(th)
    ensures Sleeper(Put(s, t, th), sender) ==> Sleeper(s, sender) || Sleeps(th, sender)
  {
    SumUpdate(Credit(sender), s.threads, t, th);
    var s' := Put(s, t, th);
    if Sleeper(s', sender) {
      var i :| 0 <= i < |s'.threads| && Sleeps(s'.threads[i], sender);
      if i != t { assert Sleeps(s.threads[i], sender); }
    }
  }

  lemma AdvanceKeepsWakes(s: State, t: nat, sender: bool)
    requires Inv(s) && WakeInv(s, sender) && Enabled(s, Advance(t))
    ensures WakeInv(StepAdvance(s, t), sender)
  {
    assert ThreadInv(s, s.threads[t]);
    if s.threads[t].In? {
      PutCredits(s, t, StepAdvance(s, t).threads[t], sender);
    }
    SumNonNegative(Credit(sender), s.threads);
    SumNonNegative(Credit(sender), StepAdvance(s, t).threads);
  }

  lemma FinishKeepsWakes(s: State, t: nat, w: nat, sender: bool)
    requires Inv(s) && WakeInv(s, sender) && Enabled(s, Finish(t, w))
    ensures WakeInv(StepFinish(s, t, w), sender)
  {
    var signalled := !s.threads[t].role.Sender?;
    var s1 := Signalled(s, signalled, w);
    if Sleeper(s, signalled) {
      PutCredits(s, w, s.threads[w].(at := Woken), sender);
    }
    PutCredits(s1, t, Idle, sender);
  }

  /** A timed wait that expires together with its signal is the only way for a role to lose a wake-up, and
      it is a wait of that role. */
  lemma StepKeepsWakes(s: State, a: Action, sender: bool)
    requires Inv(s) && WakeInv(s, sender) && Enabled(s, a)
    requires a.LateTimeout? ==> s.threads[a.t].role.Sender? != sender
    ensures WakeInv(Step(s, a), sender)
  {
    if a.Advance? {
      AdvanceKeepsWakes(s, a.t, sender);
    } else if a.Finish? {
      FinishKeepsWakes(s, a.t, a.w, sender);
    } else {
      PutCredits(s, a.t, Step(s, a).threads[a.t], sender);
    }
  }

  ghost predicate Legal(s: State, run: seq<Action>)
    requires Inv(s)
    decreases |run|
  {
    run == [] || (Enabled(s, run[0]) && (StepKeeps(s, run[0]); Legal(Step(s, run[0]), run[1..])))
  }

  ghost function End(s: State, run: seq<Action>): (t: State)
    requires Inv(s) && Legal(s, run)
    ensures Inv(t)
    decreases |run|
  {
    if run == [] then s else (StepKeeps(s, run[0]); End(Step(s, run[0]), run[1..]))
  }

  ghost predicate Reaches(capacity: nat, threads: nat, run: seq<Action>, t: State)
  {
    && capacity > 0
    && (InitHolds(capacity, threads); Legal(Init(capacity, threads), run) && t == End(Init(capacity, threads), run))
  }

  /** No send of the run, or no receive, is a blocking call with a timeout. */
  predicate Untimed(run: seq<Action>, sender: bool)
  {
    forall i :: 0 <= i < |run| ==> !(run[i].Call? && run[i].role.Sender? == sender && run[i].mode == Blocking(true))
  }

  ghost predicate NobodyTimed(s: State, sender: bool)
  {
    forall i :: 0 <= i < |s.threads| ==> !Timed(s.threads[i], sender)
  }

  predicate Timed(th: Thread, sender: bool)
  {
    th.In? && th.role.Sender? == sender && th.mode == Blocking(true)
  }

  lemma TimedByAdvance(s: State, t: nat, sender: bool, i: nat)
    requires Inv(s) && Enabled(s, Advance(t)) && i < |s.threads| && !Timed(s.threads[i], sender)
    ensures i < |StepAdvance(s, t).threads| && !Timed(StepAdvance(s, t).threads[i], sender)
  {
    if s.threads[t].In? {
      AdvanceMoves(s, t);
    }
  }

  lemma TimedByFinish(s: State, t: nat, w: nat, sender: bool, i: nat)
    requires Inv(s) && Enabled(s, Finish(t, w)) && i < |s.threads| && !Timed(s.threads[i], sender)
    ensures i < |StepFinish(s, t, w).threads| && !Timed(StepFinish(s, t, w).threads[i], sender)
  {
    var s1 := Signalled(s, !s.threads[t].role.Sender?, w);
    assert StepFinish(s, t, w).threads == s1.threads[t := Idle];
  }

  lemma TimedStays(s: State, a: Action, sender: bool, i: nat)
    requires Inv(s) && Enabled(s, a) && i < |s.threads| && !Timed(s.threads[i], sender)
    requires !(a.Call? && a.role.Sender? == sender && a.mode == Blocking(true))
    ensures i < |Step(s, a).threads| && !Timed(Step(s, a).threads[i], sender)
  {
    if a.Advance? {
      TimedByAdvance(s, a.t, sender, i);
    } else if a.Finish? {
      TimedByFinish(s, a.t, a.w, sender, i);
    } else {
      assert Step(s, a).threads == s.threads[a.t := Step(s, a).threads[a.t]];
    }
  }

  lemma StepStaysUntimed(s: State, a: Action, sender: bool)
    requires Inv(s) && NobodyTimed(s, sender) && Enabled(s, a) && Untimed([a], sender)
    ensures NobodyTimed(Step(s, a), sender)
    ensures a.LateTimeout? ==> s.threads[a.t].role.Sender? != sender
  {
    assert [a][0] == a;
    forall i | 0 <= i < |Step(s, a).threads| ensures !Timed(Step(s, a).threads[i], sender) {
      TimedStays(s, a, sender, i);
    }
  }

  lemma {:induction false} UntimedRunKeepsWakes(s: State, run: seq<Action>, sender: bool)
    requires Inv(s) && WakeInv(s, sender) && NobodyTimed(s, sender) && Legal(s, run) && Untimed(run, sender)
    ensures WakeInv(End(s, run), sender)
    decreases |run|
  {
    if run != [] {
      assert Untimed([run[0]], sender) by { assert [run[0]][0] == run[0]; }
      StepKeeps(s, run[0]);
      StepStaysUntimed(s, run[0], sender);
      StepKeepsWakes(s, run[0], sender);
      UntimedRunKeepsWakes(Step(s, run[0]), run[1..], sender);
    }
  }

  function WokenReceiver(th: Thread): (n: int) { if th.In? && th.role.Receiver? && th.at.Woken? then 1 else 0 }

  function WokenSender(th: Thread): (n: int) { if th.In? && th.role.Sender? && th.at.Woken? then 1 else 0 }

  function Woke(sender: bool): (r: Thread -> int) { if sender then WokenSender else WokenReceiver }

  /** Open, nobody inside the mutex: a sleeping receiver means no more items than woken receivers,
      a sleeping sender no more free slots than woken senders. */
  ghost predicate NoLostWakeup(s: State, sender: bool)
  {
    !s.closed && !s.mutex && Sleeper(s, sender) ==> Wanted(s, sender) <= Sum(Woke(sender), s.threads)
  }

  lemma {:induction false} SumSame<T>(f: T -> int, g: T -> int, xs: seq<T>)
    requires forall i :: 0 <= i < |xs| ==> f(xs[i]) == g(xs[i])
    ensures Sum(f, xs) == Sum(g, xs)
  {
    if xs != [] {
      SumSame(f, g, xs[1..]);
    }
  }

  /** No lost wake-up of senders when no send is timed, nor of receivers when no receive is, for any number
      of threads, spurious wakes included. */
  lemma NoLostWakeups(capacity: nat, threads: nat, run: seq<Action>, t: State, sender: bool)
    requires Reaches(capacity, threads, run, t) && Untimed(run, sender)
    ensures NoLostWakeup(t, sender)
  {
    InitHolds(capacity, threads);
    UntimedRunKeepsWakes(Init(capacity, threads), run, sender);
    if !t.mutex {
      forall i | 0 <= i < |t.threads| ensures !Holds(t.threads[i]) {
      }
      SumSame(Credit(sender), Woke(sender), t.threads);
    }
  }

  lemma {:induction false} RunsAppend(s: State, run: seq<Action>, a: Action)
    requires Inv(s) && Legal(s, run) && Enabled(End(s, run), a)
    ensures Legal(s, run + [a]) && End(s, run + [a]) == Step(End(s, run), a)
    decreases |run|
  {
    var all := run + [a];
    StepKeeps(s, all[0]);
    if run == [] {
      assert all[1..] == [];
    } else {
      assert all[1..] == run[1..] + [a];
      RunsAppend(Step(s, run[0]), run[1..], a);
    }
  }

  /** In every interleaving, with or without timed waits: the ring holds exactly the accepted items
      not yet received, in order; after a close has broadcast nobody is asleep or about to sleep,
      and until then a closer is on its way to broadcast; after a receive returned CLOSED nothing
      is left and no send is past its test. */
  lemma EveryInterleaving(capacity: nat, threads: nat, run: seq<Action>, t: State)
    requires Reaches(capacity, threads, run, t)
    ensures t.received <= t.accepted && t.count == |t.accepted| - |t.received| <= |t.slots|
    ensures |t.slots| > 0 && t.tail == |t.received| % |t.slots|
    ensures forall i :: |t.received| <= i < |t.accepted| ==> t.slots[i % |t.slots|] == t.accepted[i]
    ensures t.broadcast ==>
              forall i :: 0 <= i < |t.threads| && t.threads[i].In? ==>
                !t.threads[i].at.Asleep? && !t.threads[i].at.Waiting?
    ensures t.closed && !t.broadcast ==> CloserPending(t)
    ensures t.drained ==> t.closed && t.received == t.accepted
  {
    InitHolds(capacity, threads);
    forall i | t.broadcast && 0 <= i < |t.threads| && t.threads[i].In?
      ensures !t.threads[i].at.Asleep? && !t.threads[i].at.Waiting?
    {
      assert ThreadInv(t, t.threads[i]);
    }
  }

  /** A receive that returned CLOSED is final: from then on no send is accepted and nothing is left. */
  lemma {:induction false} ClosedIsFinal(s: State, run: seq<Action>)
    requires Inv(s) && s.drained && Legal(s, run)
    ensures End(s, run).drained && End(s, run).accepted == s.accepted == s.received == End(s, run).received
    decreases |run|
  {
    if run != [] {
      assert ThreadInv(s, s.threads[run[0].t]);
      StepKeeps(s, run[0]);
      ClosedIsFinal(Step(s, run[0]), run[1..]);
    }
  }

  /** After the broadcast nobody ever sleeps again. */
  lemma {:induction false} NobodySleepsAfterBroadcast(s: State, run: seq<Action>)
    requires Inv(s) && s.broadcast && Legal(s, run)
    ensures End(s, run).broadcast && !Sleeper(End(s, run), true) && !Sleeper(End(s, run), false)
    decreases |run|
  {
    if run != [] {
      StepKeeps(s, run[0]);
      NobodySleepsAfterBroadcast(Step(s, run[0]), run[1..]);
    }
  }

  function Queue(s: State): (r: seq<Elem>)
    requires s.received <= s.accepted
  {
    s.accepted[|s.received|..]
  }

  lemma FinishRefinesFifo(s: State, a: Action)
    requires Inv(s) && Enabled(s, a) && a.Finish? && Inv(Step(s, a))
    ensures
      var q, q', th := Queue(s), Queue(Step(s, a)), s.threads[a.t];
      if th.role.Sender? then |q| < |s.slots| && q' == q + [th.role.x]
      else |q| > 0 && s.slots[s.tail] == q[0] && q' == q[1..]
  {
    var th := s.threads[a.t];
    assert ThreadInv(s, th) && !MustWait(s, th.role);
    if th.role.Sender? {
      assert Step(s, a).accepted == s.accepted + [th.role.x] && Step(s, a).received == s.received;
    } else {
      assert s.slots[|s.received| % |s.slots|] == s.accepted[|s.received|];
      assert Step(s, a).accepted == s.accepted && Step(s, a).received == s.received + [s.slots[s.tail]];
    }
  }

  lemma QueueStays(s: State, a: Action)
    requires Inv(s) && Enabled(s, a) && !a.Finish? && Inv(Step(s, a))
    ensures Queue(Step(s, a)) == Queue(s)
  {
  }

  /** A call that leaves without sending or receiving says why: full, empty or closed. */
  lemma AnswerIsTrue(s: State, t: nat)
    requires Inv(s) && Enabled(s, Advance(t)) && s.threads[t].In?
    ensures
      s.threads[t].at.Blocked? && Step(s, Advance(t)).threads[t].Idle? ==>
        (if s.threads[t].role.Sender? then |Queue(s)| == |s.slots| else Queue(s) == [])
        && (s.closed || s.threads[t].mode.NonBlocking?)
    ensures
      s.threads[t].at.Checking? ==>
        && s.threads[t].role.Sender? && |Queue(s)| < |s.slots|
        && (Step(s, Advance(t)).threads[t].Idle? <==> s.closed)
  {
    assert ThreadInv(s, s.threads[t]);
  }

  /** Every step is a step of a bounded FIFO queue, and each way a call ends tells the truth about
      that queue: FULL only when it is full, EMPTY only when it is empty, CLOSED to a receiver only
      when it is closed and empty. */
  lemma StepRefinesFifo(s: State, a: Action)
    requires Inv(s) && Enabled(s, a)
    ensures Inv(Step(s, a))
    ensures
      var q, q', th := Queue(s), Queue(Step(s, a)), s.threads[a.t];
      if a.Finish? && th.role.Sender? then |q| < |s.slots| && q' == q + [th.role.x]
      else if a.Finish? then |q| > 0 && s.slots[s.tail] == q[0] && q' == q[1..]
      else q' == q
    ensures
      a.Advance? && s.threads[a.t].In? && s.threads[a.t].at.Blocked? && Step(s, a).threads[a.t].Idle? ==>
        (if s.threads[a.t].role.Sender? then |Queue(s)| == |s.slots| else Queue(s) == [])
        && (s.closed || s.threads[a.t].mode.NonBlocking?)
    ensures
      a.Advance? && s.threads[a.t].In? && s.threads[a.t].at.Checking? ==>
        && s.threads[a.t].role.Sender? && |Queue(s)| < |s.slots|
        && (Step(s, a).threads[a.t].Idle? <==> s.closed)
  {
    StepKeeps(s, a);
    if a.Finish? {
      FinishRefinesFifo(s, a);
    } else {
      QueueStays(s, a);
    }
    if a.Advance? && s.threads[a.t].In? { AnswerIsTrue(s, a.t); }
  }

  lemma Extend(capacity: nat, threads: nat, run: seq<Action>, s: State, a: Action) returns (run': seq<Action>, t: State)
    requires Reaches(capacity, threads, run, s) && Enabled(s, a)
    ensures Inv(s) && t == Step(s, a) && Reaches(capacity, threads, run', t)
  {
    InitHolds(capacity, threads);
    RunsAppend(Init(capacity, threads), run, a);
    run', t := run + [a], Step(s, a);
  }

  /** A timed wait of either role that has to wait falls asleep. */
  lemma FallsAsleep(capacity: nat, threads: nat, run0: seq<Action>, s: State, i: nat, role: Role)
      returns (run: seq<Action>, t: State)
    requires Reaches(capacity, threads, run0, s) && i < |s.threads|
    requires s.threads[i].Idle? && MustWait(s, role) && !s.closed && !s.mutex
    ensures t == Put(s, i, In(role, Blocking(true), Asleep)) && Reaches(capacity, threads, run, t)
  {
    run, t := Extend(capacity, threads, run0, s, Call(i, role, Blocking(true)));
    run, t := Extend(capacity, threads, run, t, Acquire(i));
    run, t := Extend(capacity, threads, run, t, Advance(i));
    run, t := Extend(capacity, threads, run, t, Advance(i));
    run, t := Extend(capacity, threads, run, t, Advance(i));
  }

  /** A send on a channel with room, up to its commit. */
  lemma ComesToSend(capacity: nat, threads: nat, run0: seq<Action>, s: State, i: nat)
      returns (run: seq<Action>, t: State)
    requires Reaches(capacity, threads, run0, s) && i < |s.threads| && s.threads[i].Idle?
    requires s.count < |s.slots| && !s.closed && !s.mutex
    ensures Reaches(capacity, threads, run, t)
    ensures t == s.(threads := s.threads[i := In(Sender(7), NonBlocking, Commit)], mutex := true)
  {
    run, t := Extend(capacity, threads, run0, s, Call(i, Sender(7), NonBlocking));
    run, t := Extend(capacity, threads, run, t, Acquire(i));
    run, t := Extend(capacity, threads, run, t, Advance(i));
    run, t := Extend(capacity, threads, run, t, Advance(i));
    assert t.threads == s.threads[i := In(Sender(7), NonBlocking, Commit)];
  }

  lemma SendsAndSignals(capacity: nat, threads: nat, run0: seq<Action>, s: State, i: nat, w: nat)
      returns (run: seq<Action>, t: State)
    requires Reaches(capacity, threads, run0, s) && i < |s.threads| && w < |s.threads| && i != w
    requires s.threads[i].Idle? && Sleeps(s.threads[w], false) && s.count < |s.slots| && !s.closed && !s.mutex
    ensures t.threads == s.threads[w := s.threads[w].(at := Woken)] && t.count == s.count + 1
    ensures Reaches(capacity, threads, run, t) && !t.closed && !t.mutex
  {
    run, t := ComesToSend(capacity, threads, run0, s, i);
    assert Sleeps(t.threads[w], false);
    run, t := Extend(capacity, threads, run, t, Finish(i, w));
  }

  lemma ReceivesAndSignals(capacity: nat, threads: nat, run0: seq<Action>, s: State, i: nat, w: nat)
      returns (run: seq<Action>, t: State)
    requires Reaches(capacity, threads, run0, s) && i < |s.threads| && w < |s.threads| && i != w
    requires s.threads[i].Idle? && Sleeps(s.threads[w], true) && s.count > 0 && !s.closed && !s.mutex
    ensures t.threads == s.threads[w := s.threads[w].(at := Woken)] && t.count == s.count - 1
    ensures Reaches(capacity, threads, run, t) && !t.closed && !t.mutex && |t.slots| == |s.slots|
  {
    run, t := Extend(capacity, threads, run0, s, Call(i, Receiver, NonBlocking));
    run, t := Extend(capacity, threads, run, t, Acquire(i));
    run, t := Extend(capacity, threads, run, t, Advance(i));
    assert t.threads == s.threads[i := In(Receiver, NonBlocking, Commit)];
    assert Sleeps(t.threads[w], true);
    run, t := Extend(capacity, threads, run, t, Finish(i, w));
  }

  /** The channel is filled by thread 2 while nobody else does anything. */
  lemma {:induction false} FillsUp(capacity: nat, run0: seq<Action>, s: State) returns (run: seq<Action>, t: State)
    requires Reaches(capacity, 3, run0, s) && s.threads == [Idle, Idle, Idle] && !s.closed && !s.mutex
    ensures Reaches(capacity, 3, run, t) && t.threads == [Idle, Idle, Idle] && !t.closed && !t.mutex
    ensures t.count == |t.slots| == |s.slots| > 0
    decreases |s.slots| - s.count
  {
    InitHolds(capacity, 3);
    run, t := run0, s;
    if s.count < |s.slots| {
      run, t := SendsAlone(capacity, run0, s);
      run, t := FillsUp(capacity, run, t);
    }
  }

  lemma SendsAlone(capacity: nat, run0: seq<Action>, s: State) returns (run: seq<Action>, t: State)
    requires Reaches(capacity, 3, run0, s) && s.threads == [Idle, Idle, Idle] && !s.closed && !s.mutex
    requires s.count < |s.slots|
    ensures Reaches(capacity, 3, run, t) && t.threads == [Idle, Idle, Idle] && !t.closed && !t.mutex
    ensures t.count == s.count + 1 && |t.slots| == |s.slots|
  {
    run, t := ComesToSend(capacity, 3, run0, s, 2);
    assert t.threads == [Idle, Idle, In(Sender(7), NonBlocking, Commit)];
    run, t := Extend(capacity, 3, run, t, Finish(2, 0));
  }

  lemma TwoReceiversAsleep(capacity: nat) returns (run: seq<Action>, t: State)
    requires capacity > 0
    ensures Reaches(capacity, 3, run, t) && t.count == 0 < |t.slots| && !t.closed && !t.mutex
    ensures t.threads == [In(Receiver, Blocking(true), Asleep), In(Receiver, Blocking(true), Asleep), Idle]
  {
    InitHolds(capacity, 3);
    run, t := [], Init(capacity, 3);
    run, t := FallsAsleep(capacity, 3, run, t, 0, Receiver);
    run, t := FallsAsleep(capacity, 3, run, t, 1, Receiver);
  }

  /** With timed receives a wake-up can be lost: two receivers sleep, a send signals the first, its
      wait expires at the same moment, and the second sleeps on beside a buffered item. */
  lemma TimedWaitLosesWakeup(capacity: nat) returns (run: seq<Action>, t: State)
    requires capacity > 0
    ensures Reaches(capacity, 3, run, t) && !NoLostWakeup(t, false)
  {
    run, t := TwoReceiversAsleep(capacity);
    run, t := SendsAndSignals(capacity, 3, run, t, 2, 0);
    run, t := Extend(capacity, 3, run, t, LateTimeout(0));
    assert Sleeps(t.threads[1], false);
    SumZero(WokenReceiver, t.threads);
  }

  lemma TwoSendersAsleep(capacity: nat) returns (run: seq<Action>, t: State)
    requires capacity > 0
    ensures Reaches(capacity, 3, run, t) && t.count == |t.slots| > 0 && !t.closed && !t.mutex
    ensures t.threads == [In(Sender(7), Blocking(true), Asleep), In(Sender(7), Blocking(true), Asleep), Idle]
  {
    InitHolds(capacity, 3);
    assert Init(capacity, 3).threads == [Idle, Idle, Idle];
    run, t := FillsUp(capacity, [], Init(capacity, 3));
    run, t := FallsAsleep(capacity, 3, run, t, 0, Sender(7));
    run, t := FallsAsleep(capacity, 3, run, t, 1, Sender(7));
  }

  /** And with timed sends: on a full channel two senders sleep, a receive signals the first, its wait
      expires, and the second sleeps on beside a free slot. */
  lemma TimedSendLosesWakeup(capacity: nat) returns (run: seq<Action>, t: State)
    requires capacity > 0
    ensures Reaches(capacity, 3, run, t) && !NoLostWakeup(t, true)
  {
    run, t := TwoSendersAsleep(capacity);
    run, t := ReceivesAndSignals(capacity, 3, run, t, 2, 0);
    run, t := Extend(capacity, 3, run, t, LateTimeout(0));
    assert Sleeps(t.threads[1], true);
    SumZero(WokenSender, t.threads);
  }

  /** Senders, or receivers, never lose a wake-up if and only if no send, or no receive, has a timeout -
      whatever timeouts the other role uses. */
  lemma NoLostWakeupExactlyWhenUntimed(capacity: nat, sender: bool, timed: bool)
    requires capacity > 0
    ensures
      (forall threads, run, t :: Reaches(capacity, threads, run, t) && (timed || Untimed(run, sender))
        ==> NoLostWakeup(t, sender))
      <==> !timed
  {
    if !timed {
      forall threads, run, t | Reaches(capacity, threads, run, t) && Untimed(run, sender)
        ensures NoLostWakeup(t, sender) {
        NoLostWakeups(capacity, threads, run, t, sender);
      }
    } else if sender {
      var run, t := TimedSendLosesWakeup(capacity);
    } else {
      var run, t := TimedWaitLosesWakeup(capacity);
    }
  }
}
