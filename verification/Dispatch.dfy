/** Event processing and deferred deletion of loopy.c. Callbacks are arbitrary: at every point where
    one runs, any sequence of registrations, removals, table growth, stops and deletion requests may
    happen before it returns; none runs a nested loop. The reference for what is registered is the
    log of the calls themselves. */
module Dispatch {
  import opened Masks

  datatype Slot = Slot(mask: Mask, readCb: nat, writeCb: nat, data: nat)

  datatype Fired = Fired(fd: nat, mask: Mask)

  datatype Event =
    | Registered(fd: nat, mask: Mask, cb: nat, data: nat)
    | Unregistered(fd: nat, mask: Mask)
    | Called(fd: nat, write: bool, cb: nat, data: nat, fired: Mask)

  /** Inside one fired event: before the read test, in the read callback, before the write test, in
      the write callback. */
  datatype Part = AtRead | InRead | AtWrite | InWrite

  datatype Phase = Out | Head | Files(fired: seq<Fired>, j: nat, part: Part) | Timers | InTimer

  /** `live` says that the tables have not been freed. `frees`, `asked` (deletion was requested) and
      `log` are history. */
  datatype State = State(slots: seq<Slot>, phase: Phase, depth: nat, stop: bool, pendingDelete: bool, live: bool,
                         frees: nat, asked: bool, log: seq<Event>)

  datatype Action =
    | Register(fd: nat, mask: Mask, cb: nat, data: nat, size: nat, ok: bool) | Unregister(fd: nat, mask: Mask)
    | Grow(size: nat) | Stop | Delete
    | Run | Poll(fired: seq<Fired>) | Test | Return | RunTimer | EndProcessing | Exit

  const EMPTY := Slot(NONE, 0, 0, 0)

  function Init(size: nat): (s: State)
  {
    State(seq(size, _ => EMPTY), Out, 0, false, false, true, 0, false, [])
  }

  function SlotOf(s: State, fd: nat): (r: Slot)
  {
    if fd < |s.slots| then s.slots[fd] else EMPTY
  }

  predicate Covers(mask: Mask, write: bool)
  {
    if write then mask.write else mask.read
  }

  /** Where callbacks, or the code around the loop, may use the loop. */
  predicate InUserCode(s: State)
  {
    s.phase.Out? || s.phase.InTimer? || (s.phase.Files? && (s.phase.part.InRead? || s.phase.part.InWrite?))
  }

  predicate Enabled(s: State, a: Action)
  {
    match a
    case Register(fd, mask, _, _, size, _) => s.live && InUserCode(s) && !mask.Empty() && fd < size && |s.slots| <= size
    case Unregister(_, mask) => s.live && InUserCode(s) && !mask.Empty()
    case Grow(size) => s.live && InUserCode(s) && |s.slots| <= size
    case Stop => s.live && InUserCode(s)
    case Delete => InUserCode(s)
    case Run => s.phase.Out? && s.live
    case Poll(fired) => s.phase.Head? && !s.stop && forall i :: 0 <= i < |fired| ==> fired[i].fd < |s.slots|
    case Test => s.phase.Files? && (s.phase.part.AtRead? || s.phase.part.AtWrite?)
    case Return => InUserCode(s) && !s.phase.Out?
    case RunTimer => s.phase.Timers?
    case EndProcessing => s.phase.Timers?
    case Exit => s.phase.Head? && s.stop
  }

  function Grown(slots: seq<Slot>, size: nat): (r: seq<Slot>)
    requires |slots| <= size
  {
    slots + seq(size - |slots|, _ => EMPTY)
  }

  function Put(slot: Slot, mask: Mask, cb: nat, data: nat): (r: Slot)
  {
    Slot(slot.mask.Or(mask), if mask.read then cb else slot.readCb, if mask.write then cb else slot.writeCb, data)
  }

  /** The table after a call that enlarged it to `size` first. */
  function StepRegister(s: State, fd: nat, mask: Mask, cb: nat, data: nat, size: nat, ok: bool): (s': State)
    requires fd < size && |s.slots| <= size
  {
    var slots := Grown(s.slots, size);
    if !ok then s.(slots := slots)
    else s.(slots := slots[fd := Put(slots[fd], mask, cb, data)], log := s.log + [Registered(fd, mask, cb, data)])
  }

  function StepUnregister(s: State, fd: nat, mask: Mask): (s': State)
  {
    if fd >= |s.slots| || s.slots[fd].mask.Empty() then s
    else
      s.(slots := s.slots[fd := s.slots[fd].(mask := s.slots[fd].mask.Minus(mask))],
         log := s.log + [Unregistered(fd, mask)])
  }

  function Free(s: State): (s': State)
  {
    s.(live := false, frees := s.frees + 1)
  }

  /** loopyDelete: deferred while events are processed, nothing when already deleted. */
  function StepDelete(s: State): (s': State)
  {
    if !s.live then s
    else if s.depth > 0 then s.(pendingDelete := true, stop := true, asked := true)
    else Free(s).(asked := true)
  }

  /** One test of the dispatch loop: the handler registered now is called if its action fired. */
  function StepTest(s: State): (s': State)
    requires Enabled(s, Test)
  {
    var p := s.phase;
    if p.j >= |p.fired| then s.(phase := Timers)
    else
      var f := p.fired[p.j];
      var slot := SlotOf(s, f.fd);
      var write := p.part.AtWrite?;
      if Covers(slot.mask, write) && Covers(f.mask, write) then
        s.(phase := p.(part := if write then InWrite else InRead),
           log := s.log + [Called(f.fd, write, if write then slot.writeCb else slot.readCb, slot.data, f.mask)])
      else s.(phase := if write then Files(p.fired, p.j + 1, AtRead) else p.(part := AtWrite))
  }

  function StepReturn(s: State): (s': State)
    requires Enabled(s, Return)
  {
    match s.phase
    case InTimer => s.(phase := Timers)
    case Files(fired, j, part) =>
      s.(phase := if part.InRead? then Files(fired, j, AtWrite) else Files(fired, j + 1, AtRead))
  }

  function Step(s: State, a: Action): (s': State)
    requires Enabled(s, a)
  {
    match a
    case Register(fd, mask, cb, data, size, ok) => StepRegister(s, fd, mask, cb, data, size, ok)
    case Unregister(fd, mask) => StepUnregister(s, fd, mask)
    case Grow(size) => s.(slots := Grown(s.slots, size))
    case Stop => s.(stop := true)
    case Delete => StepDelete(s)
    case Run => s.(phase := Head, stop := false)
    case Poll(fired) => s.(phase := Files(fired, 0, AtRead), depth := s.depth + 1)
    case Test => StepTest(s)
    case Return => StepReturn(s)
    case RunTimer => s.(phase := InTimer)
    case EndProcessing => s.(phase := Head, depth := if s.depth > 0 then s.depth - 1 else 0)
    case Exit => if s.pendingDelete then Free(s).(phase := Out, pendingDelete := false) else s.(phase := Out)
  }

  /** What the log says is registered: the latest registration of the descriptor's action, unless a
      removal came after it. */
  datatype Handler = Nobody | Is(cb: nat)

  function Holder(log: seq<Event>, fd: nat, write: bool): (r: Handler)
    decreases |log|
  {
    if log == [] then Nobody
    else
      var e := log[|log| - 1];
      if e.Registered? && e.fd == fd && Covers(e.mask, write) then Is(e.cb)
      else if e.Unregistered? && e.fd == fd && Covers(e.mask, write) then Nobody
      else Holder(log[..|log| - 1], fd, write)
  }

  /** The client data given with the latest registration of the descriptor, whichever action it was. */
  function DataOf(log: seq<Event>, fd: nat): (n: nat)
    decreases |log|
  {
    if log == [] then 0
    else
      var e := log[|log| - 1];
      if e.Registered? && e.fd == fd then e.data else DataOf(log[..|log| - 1], fd)
  }

  ghost predicate SlotInv(s: State, fd: nat)
  {
    var slot := SlotOf(s, fd);
    && Holder(s.log, fd, false) == (if slot.mask.read then Is(slot.readCb) else Nobody)
    && Holder(s.log, fd, true) == (if slot.mask.write then Is(slot.writeCb) else Nobody)
    && DataOf(s.log, fd) == slot.data
  }

  ghost predicate Justified(log: seq<Event>, k: nat)
    requires k < |log|
  {
    log[k].Called? ==>
      && Holder(log[..k], log[k].fd, log[k].write) == Is(log[k].cb)
      && log[k].data == DataOf(log[..k], log[k].fd)
      && Covers(log[k].fired, log[k].write)
  }

  ghost predicate LifeInv(s: State)
  {
    && (s.live <==> s.frees == 0) && s.frees <= 1
    && (!s.phase.Out? ==> s.live)
    && s.depth == (if s.phase.Out? || s.phase.Head? then 0 else 1)
    && (s.pendingDelete ==> s.stop && !s.phase.Out?)
    && (s.asked <==> s.pendingDelete || !s.live)
    && (s.phase.Files? ==> forall i :: 0 <= i < |s.phase.fired| ==> s.phase.fired[i].fd < |s.slots|)
  }

  ghost predicate Inv(s: State)
  {
    && LifeInv(s)
    && (forall fd: nat :: SlotInv(s, fd))
    && (forall k :: 0 <= k < |s.log| ==> Justified(s.log, k))
  }

  lemma LogGrows(s: State, s': State, e: Event)
    requires s'.log == s.log + [e] && forall k :: 0 <= k < |s.log| ==> Justified(s.log, k)
    requires Justified(s'.log, |s.log|)
    ensures forall k :: 0 <= k < |s'.log| ==> Justified(s'.log, k)
  {
    forall k | 0 <= k < |s'.log| ensures Justified(s'.log, k) {
      if k < |s.log| {
        assert Justified(s.log, k) && s'.log[..k] == s.log[..k];
      }
    }
  }

  /** What the last event of a log does to the registrations. */
  lemma HolderAfter(log: seq<Event>, e: Event, fd: nat, write: bool)
    ensures Holder(log + [e], fd, write) ==
              if e.Called? || e.fd != fd || !Covers(e.mask, write) then Holder(log, fd, write)
              else if e.Registered? then Is(e.cb) else Nobody
    ensures DataOf(log + [e], fd) == if e.Registered? && e.fd == fd then e.data else DataOf(log, fd)
  {
    assert (log + [e])[..|log|] == log;
  }

  lemma SlotAfterRegister(s: State, a: Action, fd: nat)
    requires a.Register? && Enabled(s, a) && a.ok && SlotInv(s, fd)
    ensures SlotInv(Step(s, a), fd)
  {
    var e := Registered(a.fd, a.mask, a.cb, a.data);
    HolderAfter(s.log, e, fd, false);
    HolderAfter(s.log, e, fd, true);
    assert SlotOf(Step(s, a), fd) == if fd == a.fd then Put(SlotOf(s, fd), a.mask, a.cb, a.data) else SlotOf(s, fd);
  }

  lemma RegisterKeeps(s: State, a: Action)
    requires Inv(s) && Enabled(s, a) && a.Register?
    ensures Inv(Step(s, a))
  {
    var s' := Step(s, a);
    if a.ok {
      LogGrows(s, s', Registered(a.fd, a.mask, a.cb, a.data));
      forall fd: nat ensures SlotInv(s', fd) {
        assert SlotInv(s, fd);
        SlotAfterRegister(s, a, fd);
      }
    } else {
      SlotsStay(s, s');
    }
  }

  lemma SlotAfterUnregister(s: State, fd: nat, mask: Mask, x: nat)
    requires Enabled(s, Unregister(fd, mask)) && fd < |s.slots| && !s.slots[fd].mask.Empty() && SlotInv(s, x)
    ensures SlotInv(Step(s, Unregister(fd, mask)), x)
  {
    HolderAfter(s.log, Unregistered(fd, mask), x, false);
    HolderAfter(s.log, Unregistered(fd, mask), x, true);
    assert SlotOf(Step(s, Unregister(fd, mask)), x) ==
           if x == fd then SlotOf(s, fd).(mask := SlotOf(s, fd).mask.Minus(mask)) else SlotOf(s, x);
  }

  lemma UnregisterKeeps(s: State, fd: nat, mask: Mask)
    requires Inv(s) && Enabled(s, Unregister(fd, mask))
    ensures Inv(Step(s, Unregister(fd, mask)))
  {
    var s' := Step(s, Unregister(fd, mask));
    if fd < |s.slots| && !s.slots[fd].mask.Empty() {
      LogGrows(s, s', Unregistered(fd, mask));
      forall x: nat ensures SlotInv(s', x) {
        assert SlotInv(s, x);
        SlotAfterUnregister(s, fd, mask, x);
      }
    }
  }

  /** A test keeps the table; if it calls, the slot and the log agree on whom. */
  lemma TestCalls(s: State)
    requires Inv(s) && Enabled(s, Test)
    ensures Step(s, Test).slots == s.slots && LifeInv(Step(s, Test))
    ensures Step(s, Test).log != s.log ==>
              && |Step(s, Test).log| == |s.log| + 1 && Step(s, Test).log[..|s.log|] == s.log
              && Step(s, Test).log[|s.log|].Called? && Justified(Step(s, Test).log, |s.log|)
  {
    var p := s.phase;
    if p.j < |p.fired| {
      assert SlotInv(s, p.fired[p.j].fd);
    }
  }

  /** A test calls exactly if its action fired and the log has a handler for it, and then that one. */
  lemma TestCallsExactly(s: State, f: Fired)
    requires Inv(s) && Enabled(s, Test) && s.phase.j < |s.phase.fired| && f == s.phase.fired[s.phase.j]
    ensures
      var write := s.phase.part.AtWrite?;
      var holder := Holder(s.log, f.fd, write);
      Step(s, Test).log ==
        s.log +
        if Covers(f.mask, write) && holder.Is? then [Called(f.fd, write, holder.cb, DataOf(s.log, f.fd), f.mask)]
        else []
  {
    assert SlotInv(s, f.fd);
  }

  lemma TestKeeps(s: State)
    requires Inv(s) && Enabled(s, Test)
    ensures Inv(Step(s, Test))
  {
    var s' := Step(s, Test);
    TestCalls(s);
    if s'.log != s.log {
      var e := s'.log[|s.log|];
      assert s'.log == s.log + [e];
      LogGrows(s, s', e);
      forall fd: nat ensures SlotInv(s', fd) {
        assert SlotInv(s, fd);
        HolderAfter(s.log, e, fd, false);
        HolderAfter(s.log, e, fd, true);
      }
    } else {
      SlotsStay(s, s');
    }
  }

  lemma SlotsStay(s: State, s': State)
    requires forall fd: nat :: SlotInv(s, fd)
    requires s'.log == s.log && forall fd: nat :: SlotOf(s', fd) == SlotOf(s, fd)
    ensures forall fd: nat :: SlotInv(s', fd)
  {
    forall fd: nat ensures SlotInv(s', fd) {
      assert SlotInv(s, fd) && SlotOf(s', fd) == SlotOf(s, fd);
    }
  }

  lemma StepKeeps(s: State, a: Action)
    requires Inv(s) && Enabled(s, a)
    ensures Inv(Step(s, a))
  {
    if a.Register? {
      RegisterKeeps(s, a);
    } else if a.Unregister? {
      UnregisterKeeps(s, a.fd, a.mask);
    } else if a.Test? {
      TestKeeps(s);
    } else {
      SlotsStay(s, Step(s, a));
    }
  }

  ghost predicate Legal(s: State, run: seq<Action>)
    decreases |run|
  {
    run == [] || (Enabled(s, run[0]) && Legal(Step(s, run[0]), run[1..]))
  }

  ghost function End(s: State, run: seq<Action>): (s': State)
    requires Legal(s, run)
    decreases |run|
  {
    if run == [] then s else End(Step(s, run[0]), run[1..])
  }

  lemma {:induction false} RunsKeep(s: State, run: seq<Action>)
    requires Inv(s) && Legal(s, run)
    ensures Inv(End(s, run))
    decreases |run|
  {
    if run != [] {
      StepKeeps(s, run[0]);
      RunsKeep(Step(s, run[0]), run[1..]);
    }
  }

  lemma InitHolds(size: nat)
    ensures Inv(Init(size))
  {
    forall fd: nat ensures SlotInv(Init(size), fd) {
    }
  }

  /** What the calls of the run make of the handler of the descriptor's action, and of its client data: the
      latest successful registration counts, for the handler until a removal. */
  function HandlerBy(run: seq<Action>, fd: nat, write: bool, before: Handler): (r: Handler)
  {
    if run == [] then before
    else
      var a := run[0];
      HandlerBy(run[1..], fd, write,
                if a.Register? && a.ok && a.fd == fd && (if write then a.mask.write else a.mask.read) then Is(a.cb)
                else if a.Unregister? && a.fd == fd && (if write then a.mask.write else a.mask.read) then Nobody
                else before)
  }

  function DataBy(run: seq<Action>, fd: nat, before: nat): (n: nat)
  {
    if run == [] then before
    else DataBy(run[1..], fd, if run[0].Register? && run[0].ok && run[0].fd == fd then run[0].data else before)
  }

  lemma LogAfter(s: State, a: Action, fd: nat, write: bool)
    requires Inv(s) && Enabled(s, a)
    ensures
      Holder(Step(s, a).log, fd, write) ==
        if a.Register? && a.ok && a.fd == fd && (if write then a.mask.write else a.mask.read) then Is(a.cb)
        else if a.Unregister? && a.fd == fd && (if write then a.mask.write else a.mask.read) then Nobody
        else Holder(s.log, fd, write)
    ensures
      DataOf(Step(s, a).log, fd) == if a.Register? && a.ok && a.fd == fd then a.data else DataOf(s.log, fd)
  {
    assert SlotInv(s, fd);
    if a.Test? {
      TestCalls(s);
      var log := Step(s, a).log;
      if log != s.log {
        assert log == s.log + [log[|s.log|]];
        HolderAfter(s.log, log[|s.log|], fd, write);
      }
    } else if a.Register? && a.ok {
      HolderAfter(s.log, Registered(a.fd, a.mask, a.cb, a.data), fd, write);
    } else if a.Unregister? && Step(s, a).log != s.log {
      HolderAfter(s.log, Unregistered(a.fd, a.mask), fd, write);
    }
  }

  /** The log says of every descriptor what the calls of the run say. */
  lemma {:induction false} LogIsTheCalls(s: State, run: seq<Action>, fd: nat, write: bool)
    requires Inv(s) && Legal(s, run)
    ensures Holder(End(s, run).log, fd, write) == HandlerBy(run, fd, write, Holder(s.log, fd, write))
    ensures DataOf(End(s, run).log, fd) == DataBy(run, fd, DataOf(s.log, fd))
    decreases |run|
  {
    if run != [] {
      StepKeeps(s, run[0]);
      LogAfter(s, run[0], fd, write);
      LogIsTheCalls(Step(s, run[0]), run[1..], fd, write);
    }
  }

  /** In every run, a test calls exactly if its action fired and the calls made so far have registered a
      handler for the action and not removed it, and then it calls that one with the data of the
      descriptor's latest registration. */
  lemma TestsFollowTheCalls(size: nat, run: seq<Action>, f: Fired)
    requires Legal(Init(size), run) && Enabled(End(Init(size), run), Test)
    requires End(Init(size), run).phase.j < |End(Init(size), run).phase.fired|
    requires f == End(Init(size), run).phase.fired[End(Init(size), run).phase.j]
    ensures
      var t := End(Init(size), run);
      var write := t.phase.part.AtWrite?;
      var handler := HandlerBy(run, f.fd, write, Nobody);
      Step(t, Test).log ==
        t.log +
        if (if write then f.mask.write else f.mask.read) && handler.Is?
        then [Called(f.fd, write, handler.cb, DataBy(run, f.fd, 0), f.mask)]
        else []
  {
    var t := End(Init(size), run);
    InitHolds(size);
    RunsKeep(Init(size), run);
    LogIsTheCalls(Init(size), run, f.fd, t.phase.part.AtWrite?);
    TestCallsExactly(t, f);
  }

  /** The loop has been told to stop; it stays so until it is left. */
  lemma {:induction false} StopIsFinal(s: State, run: seq<Action>)
    requires Inv(s) && s.stop && !s.phase.Out? && Legal(s, run) && Exit !in run
    ensures forall i :: 0 <= i < |run| ==> !run[i].Poll?
    ensures End(s, run).stop && !End(s, run).phase.Out?
    decreases |run|
  {
    if run != [] {
      assert run[0] != Exit;
      StepKeeps(s, run[0]);
      StopIsFinal(Step(s, run[0]), run[1..]);
    }
  }

  /** After a stop, or a deletion, asked for inside the loop nothing is polled any more: what had fired is
      dispatched, and the loop is left. Once it is at its head, leaving is the only step it can take. */
  lemma StopEndsTheLoop(s: State, a: Action, run: seq<Action>)
    requires Inv(s) && Enabled(s, a) && (a.Stop? || (a.Delete? && s.live)) && !s.phase.Out?
    requires Legal(Step(s, a), run) && Exit !in run
    ensures forall i :: 0 <= i < |run| ==> !run[i].Poll?
    ensures
      var t := End(Step(s, a), run);
      t.phase.Head? ==> Enabled(t, Exit) && Step(t, Exit).phase.Out? && forall fired :: !Enabled(t, Poll(fired))
  {
    StepKeeps(s, a);
    StopIsFinal(Step(s, a), run);
  }

  /** The loop's own steps: everything but what user code does while it runs. */
  predicate LoopStep(a: Action)
  {
    a.Test? || a.Return? || a.EndProcessing? || a.Exit?
  }

  function LoopSteps(run: seq<Action>): (n: nat)
  {
    if run == [] then 0 else (if LoopStep(run[0]) then 1 else 0) + LoopSteps(run[1..])
  }

  /** How many own steps a loop that has been told to stop has left until it is left, timers aside. */
  function StepsToExit(s: State): (n: int)
  {
    match s.phase
    case Out => 0
    case Head => 1
    case Timers => 2
    case InTimer => 3
    case Files(fired, j, part) =>
      4 * (if j < |fired| then |fired| - j else 0) + 3
      - (match part case AtRead => 0 case InRead => 1 case AtWrite => 2 case InWrite => 3)
  }

  lemma ExitComesNearer(s: State, a: Action)
    requires Inv(s) && FilesInRange(s) && Enabled(s, a) && !a.Poll? && !a.Run? && !a.RunTimer?
    ensures FilesInRange(Step(s, a))
    ensures StepsToExit(Step(s, a)) + (if LoopStep(a) then 1 else 0) <= StepsToExit(s)
    ensures StepsToExit(s) >= 0
  {
  }

  /** A fired event is being tested, or the table of fired events is through. */
  ghost predicate FilesInRange(s: State)
  {
    s.phase.Files? ==> s.phase.j < |s.phase.fired| || (s.phase.j == |s.phase.fired| && s.phase.part.AtRead?)
  }

  /** A loop that has been told to stop is left after at most four own steps for each fired event and three,
      as long as no further timer is run. */
  lemma {:induction false} StoppedLoopIsLeft(s: State, run: seq<Action>)
    requires Inv(s) && FilesInRange(s) && s.stop && !s.phase.Out? && Legal(s, run)
    requires forall i :: 0 <= i < |run| ==> !run[i].RunTimer? && run[i] != Exit
    ensures LoopSteps(run) < StepsToExit(s)
    decreases |run|
  {
    if run != [] {
      assert !run[0].RunTimer? && run[0] != Exit;
      StepKeeps(s, run[0]);
      ExitComesNearer(s, run[0]);
      StoppedLoopIsLeft(Step(s, run[0]), run[1..]);
    }
  }

  /** Whatever the callbacks do, a handler is called only while it is the one that the calls so far
      registered for that descriptor and action, for an action that fired, and with the client data of
      the latest registration of the descriptor. */
  lemma OnlyRegisteredHandlers(size: nat, run: seq<Action>, t: State, k: nat)
    requires Legal(Init(size), run) && t == End(Init(size), run) && k < |t.log| && t.log[k].Called?
    ensures Holder(t.log[..k], t.log[k].fd, t.log[k].write) == Is(t.log[k].cb)
    ensures DataOf(t.log[..k], t.log[k].fd) == t.log[k].data
    ensures Covers(t.log[k].fired, t.log[k].write)
  {
    InitHolds(size);
    RunsKeep(Init(size), run);
    assert Justified(t.log, k);
  }

  /** The tables live while events are processed and every index used is inside them; they are freed
      once at most; and once the loop has been left, they are freed exactly if deletion was asked for. */
  lemma DeletedExactlyOnce(size: nat, run: seq<Action>, t: State)
    requires Legal(Init(size), run) && t == End(Init(size), run)
    ensures !t.phase.Out? ==> t.live
    ensures t.phase.Files? && t.phase.j < |t.phase.fired| ==> t.phase.fired[t.phase.j].fd < |t.slots|
    ensures t.frees <= 1 && (t.live <==> t.frees == 0)
    ensures t.phase.Out? ==> (Delete in run <==> t.frees == 1)
    ensures t.pendingDelete ==> !t.phase.Out? && t.live && forall fired :: !Enabled(t, Poll(fired))
  {
    InitHolds(size);
    RunsKeep(Init(size), run);
    AskedByDelete(Init(size), run);
  }

  lemma {:induction false} AskedByDelete(s: State, run: seq<Action>)
    requires Inv(s) && Legal(s, run)
    ensures End(s, run).asked <==> s.asked || Delete in run
    decreases |run|
  {
    if run != [] {
      StepKeeps(s, run[0]);
      AskedByDelete(Step(s, run[0]), run[1..]);
    }
  }

  /** The table never shrinks, and reaches every size that a call enlarged it to, also if that call failed. */
  lemma {:induction false} TableReaches(s: State, run: seq<Action>)
    requires Legal(s, run)
    ensures |End(s, run).slots| >= |s.slots|
    ensures forall i :: 0 <= i < |run| && (run[i].Register? || run[i].Grow?) ==> run[i].size <= |End(s, run).slots|
    decreases |run|
  {
    if run != [] {
      TableReaches(Step(s, run[0]), run[1..]);
      forall i | 0 <= i < |run| && (run[i].Register? || run[i].Grow?)
        ensures run[i].size <= |End(s, run).slots|
      {
        if i > 0 { assert run[1..][i - 1] == run[i]; }
      }
    }
  }

  function TestCount(run: seq<Action>): (n: nat)
  {
    if run == [] then 0 else (if run[0].Test? then 1 else 0) + TestCount(run[1..])
  }

  /** Whether the latest of the starts and returns in the run started a timer. */
  function TimerStarted(run: seq<Action>, before: bool): (b: bool)
  {
    if run == [] then before
    else TimerStarted(run[1..], if run[0].RunTimer? then true else if run[0].Return? then false else before)
  }

  /** After `n` tests the loop is at, or in, the read or write half of the event that is due, or through. */
  ghost predicate Due(s: State, fired: seq<Fired>, n: nat)
  {
    match s.phase
    case Files(fired', j, part) =>
      && fired' == fired && j <= |fired| && (j == |fired| ==> part.AtRead?)
      && n == 2 * j + (match part case AtRead => 0 case InRead => 1 case AtWrite => 1 case InWrite => 2)
    case Timers => n == 2 * |fired| + 1
    case InTimer => n == 2 * |fired| + 1
    case _ => false
  }

  lemma DueMoves(s: State, a: Action, fired: seq<Fired>, n: nat)
    requires Due(s, fired, n) && Enabled(s, a) && (a.Test? || a.Return?)
    ensures Due(Step(s, a), fired, if a.Test? then n + 1 else n) && !Step(s, a).phase.InTimer?
  {
  }

  lemma DueStays(s: State, a: Action, fired: seq<Fired>, n: nat)
    requires Due(s, fired, n) && Enabled(s, a) && !a.Test? && !a.Return? && !a.EndProcessing?
    ensures Due(Step(s, a), fired, n)
    ensures Step(s, a).phase.InTimer? <==> a.RunTimer? || s.phase.InTimer?
  {
  }

  lemma {:induction false} TestsInTurn(s: State, fired: seq<Fired>, n: nat, run: seq<Action>)
    requires Due(s, fired, n) && Legal(s, run) && EndProcessing !in run
    ensures Due(End(s, run), fired, n + TestCount(run))
    ensures End(s, run).phase.InTimer? <==> TimerStarted(run, s.phase.InTimer?)
    decreases |run|
  {
    if run != [] {
      assert run[0] != EndProcessing;
      var n' := if run[0].Test? then n + 1 else n;
      if run[0].Test? || run[0].Return? {
        DueMoves(s, run[0], fired, n);
      } else {
        DueStays(s, run[0], fired, n);
      }
      TestsInTurn(Step(s, run[0]), fired, n', run[1..]);
    }
  }

  /** Every fired event is tested for reading and then for writing, in the order of the poll, whatever the
      callbacks do: the n-th test (from 0) is of event n / 2, for writing if n is odd; one test more finds
      the events through. The processing ends only then. */
  lemma EveryEventIsTestedTwice(s: State, fired: seq<Fired>, run: seq<Action>)
    requires Inv(s) && Enabled(s, Poll(fired)) && Legal(Step(s, Poll(fired)), run) && EndProcessing !in run
    ensures
      var t, n := End(Step(s, Poll(fired)), run), TestCount(run);
      && (Enabled(t, Test) ==>
            && t.phase.fired == fired && t.phase.j == n / 2 && n <= 2 * |fired|
            && (t.phase.part.AtWrite? <==> n % 2 == 1))
      && (Enabled(t, EndProcessing) ==> n == 2 * |fired| + 1)
      && (n == 2 * |fired| + 1 && !TimerStarted(run, false) ==>
            Enabled(t, EndProcessing) && Enabled(t, RunTimer) && Step(t, EndProcessing).phase.Head?)
      && (n <= 2 * |fired| ==> Enabled(t, Test) || Enabled(t, Return))
      && (TimerStarted(run, false) && n == 2 * |fired| + 1 ==> InUserCode(t) && Enabled(t, Return))
  {
    TestsInTurn(Step(s, Poll(fired)), fired, 0, run);
  }

  /** Whether the run leaves the loop running, and whether it leaves it told to stop. */
  function Running(run: seq<Action>, before: bool): (b: bool)
  {
    if run == [] then before
    else Running(run[1..], if run[0].Run? then true else if run[0].Exit? then false else before)
  }

  function Stopped(run: seq<Action>, running: bool, before: bool): (b: bool)
  {
    if run == [] then before
    else
      Stopped(run[1..], if run[0].Run? then true else if run[0].Exit? then false else running,
              if run[0].Run? then false else if run[0].Stop? || (run[0].Delete? && running) then true else before)
  }

  /** The loop runs from a Run to the next Exit, and is told to stop exactly by a stop, or by a deletion while
      it runs, since it was last run; at its head it polls on exactly if it has not been told to. */
  lemma {:induction false} RunsUntilStopped(s: State, run: seq<Action>)
    requires Inv(s) && Legal(s, run)
    ensures !End(s, run).phase.Out? <==> Running(run, !s.phase.Out?)
    ensures End(s, run).stop <==> Stopped(run, !s.phase.Out?, s.stop)
    ensures End(s, run).phase.Head? ==>
              && (Enabled(End(s, run), Poll([])) <==> !End(s, run).stop)
              && (Enabled(End(s, run), Exit) <==> End(s, run).stop)
    decreases |run|
  {
    if run != [] {
      StepKeeps(s, run[0]);
      RunsUntilStopped(Step(s, run[0]), run[1..]);
    }
  }
}
