/** The dispatch loop of loopy.c over its table in place. The slot of a fired descriptor is reached
    through the array that was current when the loop came to it; a callback may replace that array, and
    the code takes the new one only after comparing the two references. A callback is a script of calls. */
module DispatchCode {
  import opened Masks
  import opened Dispatch

  /** What a callback may do. */
  predicate UserCall(a: Action)
  {
    a.Register? || a.Unregister? || a.Grow? || a.Stop? || a.Delete?
  }

  ghost predicate Script(s: State, calls: seq<Action>)
  {
    Legal(s, calls) && forall i :: 0 <= i < |calls| ==> UserCall(calls[i])
  }

  /** A callback leaves the loop where it is, and the table never shrinks. */
  lemma {:induction false} ScriptKeeps(s: State, calls: seq<Action>)
    requires Script(s, calls)
    ensures End(s, calls).phase == s.phase && |End(s, calls).slots| >= |s.slots|
    decreases |calls|
  {
    if calls != [] {
      assert UserCall(calls[0]);
      assert forall i :: 0 <= i < |calls[1..]| ==> UserCall(calls[1..][i]);
      ScriptKeeps(Step(s, calls[0]), calls[1..]);
    }
  }

  /** The machine's steps from one test to the next: the test and, if it called, the callback. */
  ghost predicate Tests(s: State, calls: seq<Action>)
  {
    && Enabled(s, Test)
    && (InUserCode(Step(s, Test)) ==>
          Script(Step(s, Test), calls) && Enabled(End(Step(s, Test), calls), Return))
  }

  ghost function Tested(s: State, calls: seq<Action>): (s': State)
    requires Tests(s, calls)
  {
    var t := Step(s, Test);
    if InUserCode(t) then Step(End(t, calls), Return) else t
  }

  /** The two tests of one fired event. */
  ghost predicate Handles(s: State, read: seq<Action>, write: seq<Action>)
  {
    Tests(s, read) && Tests(Tested(s, read), write)
  }

  ghost function Handled(s: State, read: seq<Action>, write: seq<Action>): (s': State)
    requires Handles(s, read, write)
  {
    Tested(Tested(s, read), write)
  }

  lemma TestedKeeps(s: State, calls: seq<Action>)
    requires Inv(s) && Tests(s, calls)
    ensures Inv(Tested(s, calls))
  {
    var t := Step(s, Test);
    StepKeeps(s, Test);
    if InUserCode(t) {
      RunsKeep(t, calls);
      StepKeeps(End(t, calls), Return);
    }
  }

  /** All fired events, with what the callbacks of each do. */
  ghost predicate AllHandle(s: State, onRead: seq<seq<Action>>, onWrite: seq<seq<Action>>)
    requires |onRead| == |onWrite|
    decreases |onRead|
  {
    || onRead == []
    || (Handles(s, onRead[0], onWrite[0]) && AllHandle(Handled(s, onRead[0], onWrite[0]), onRead[1..], onWrite[1..]))
  }

  ghost function AllHandled(s: State, onRead: seq<seq<Action>>, onWrite: seq<seq<Action>>): (s': State)
    requires |onRead| == |onWrite| && AllHandle(s, onRead, onWrite)
    decreases |onRead|
  {
    if onRead == [] then s else AllHandled(Handled(s, onRead[0], onWrite[0]), onRead[1..], onWrite[1..])
  }

  class Loop {
    var events: array<Slot>
    var depth: nat
    var stop: bool
    var pendingDelete: bool
    var live: bool
    /** Where the machine stands, and its history. */
    ghost var phase: Phase
    ghost var frees: nat
    ghost var asked: bool
    ghost var log: seq<Event>

    ghost function View(): (s: State)
      reads this, events
    {
      State(events[..], phase, depth, stop, pendingDelete, live, frees, asked, log)
    }

    constructor (size: nat)
      ensures View() == Init(size) && fresh(events)
    {
      events := new Slot[size](_ => EMPTY);
      depth, stop, pendingDelete, live := 0, false, false, true;
      phase, frees, asked, log := Out, 0, false, [];
    }

    /** zrealloc: a new array with the old slots first. */
    method Enlarge(size: nat)
      requires events.Length <= size
      modifies this`events
      ensures View() == old(View()).(slots := Grown(old(View()).slots, size))
      ensures events == old(events) || fresh(events)
    {
      if size == events.Length {
        assert Grown(events[..], size) == events[..];
        return;
      }
      var grown := new Slot[size](_ => EMPTY);
      var i := 0;
      while i < events.Length
        invariant 0 <= i <= events.Length && events == old(events) && events[..] == old(events[..])
        invariant grown[..i] == events[..i] && forall j :: i <= j < size ==> grown[j] == EMPTY
      {
        grown[i] := events[i];
        i := i + 1;
      }
      assert grown[..] == Grown(events[..], size);
      events := grown;
    }

    method DoRegister(fd: nat, mask: Mask, cb: nat, data: nat, size: nat, ok: bool)
      requires fd < size && events.Length <= size
      modifies this`events, this`log, events
      ensures View() == StepRegister(old(View()), fd, mask, cb, data, size, ok)
      ensures events == old(events) || fresh(events)
    {
      Enlarge(size);
      ghost var slots := events[..];
      if ok {
        events[fd] := Put(events[fd], mask, cb, data);
        log := log + [Registered(fd, mask, cb, data)];
        assert events[..] == slots[fd := Put(slots[fd], mask, cb, data)];
      }
    }

    method DoUnregister(fd: nat, mask: Mask)
      modifies this`log, events
      ensures View() == StepUnregister(old(View()), fd, mask)
    {
      if fd < events.Length && !events[fd].mask.Empty() {
        ghost var slots := events[..];
        events[fd] := events[fd].(mask := events[fd].mask.Minus(mask));
        log := log + [Unregistered(fd, mask)];
        assert events[..] == slots[fd := slots[fd].(mask := slots[fd].mask.Minus(mask))];
      }
    }

    /** loopyDelete. */
    method DoDelete()
      modifies this`live, this`pendingDelete, this`stop, this`frees, this`asked
      ensures View() == StepDelete(old(View()))
    {
      if live {
        asked := true;
        if depth > 0 {
          pendingDelete, stop := true, true;
        } else {
          live, frees := false, frees + 1;
        }
      }
    }

    method UserAction(a: Action)
      requires Enabled(View(), a) && UserCall(a)
      modifies this, events
      ensures View() == Step(old(View()), a)
      ensures events == old(events) || fresh(events)
    {
      match a
      case Register(fd, mask, cb, data, size, ok) => DoRegister(fd, mask, cb, data, size, ok);
      case Unregister(fd, mask) => DoUnregister(fd, mask);
      case Grow(size) => Enlarge(size);
      case Stop => stop := true;
      case Delete => DoDelete();
    }

    /** A callback runs. */
    method Callback(calls: seq<Action>)
      requires Script(View(), calls)
      modifies this, events
      ensures View() == End(old(View()), calls)
      ensures events == old(events) || fresh(events)
      decreases |calls|
    {
      if calls != [] {
        assert UserCall(calls[0]);
        assert forall i :: 0 <= i < |calls[1..]| ==> UserCall(calls[1..][i]);
        UserAction(calls[0]);
        Callback(calls[1..]);
      }
    }

    /** The read half of the loop body: `base` is the array the slot pointer points into, and the result
        is the array it points into afterwards. */
    method ReadHalf(base: array<Slot>, f: Fired, calls: seq<Action>) returns (after: array<Slot>)
      requires At(f, AtRead) && base == events && Tests(View(), calls)
      modifies this, events
      ensures View() == Tested(old(View()), calls) && after == events && At(f, AtWrite)
      ensures phase == old(phase).(part := AtWrite)
      ensures events == old(events) || fresh(events)
    {
      after := base;
      var slot := base[f.fd];
      if slot.mask.read && f.mask.read {
        log := log + [Called(f.fd, false, slot.readCb, slot.data, f.mask)];
        phase := phase.(part := InRead);
        assert View() == Step(old(View()), Test);
        ScriptKeeps(View(), calls);
        var eventsBefore := events;
        Callback(calls);
        phase := phase.(part := AtWrite);
        if events != eventsBefore {
          after := events;
        }
      } else {
        phase := phase.(part := AtWrite);
      }
    }

    /** The write half, through the pointer that the read half left. */
    method WriteHalf(base: array<Slot>, f: Fired, calls: seq<Action>)
      requires At(f, AtWrite) && base == events && Tests(View(), calls)
      modifies this, events
      ensures View() == Tested(old(View()), calls) && phase == Files(old(phase).fired, old(phase).j + 1, AtRead)
      ensures events == old(events) || fresh(events)
    {
      var slot := base[f.fd];
      if slot.mask.write && f.mask.write {
        log := log + [Called(f.fd, true, slot.writeCb, slot.data, f.mask)];
        phase := phase.(part := InWrite);
        assert View() == Step(old(View()), Test);
        ScriptKeeps(View(), calls);
        Callback(calls);
      }
      phase := Files(phase.fired, phase.j + 1, AtRead);
    }

    /** The loop stands at the given test of the fired event `f`, whose slot is in the table. */
    ghost predicate At(f: Fired, part: Part)
      reads this, events
    {
      && phase.Files? && phase.part == part && phase.j < |phase.fired| && phase.fired[phase.j] == f
      && f.fd < events.Length
    }

    /** One round of the dispatch loop, with what its callbacks do. */
    method HandleFired(f: Fired, read: seq<Action>, write: seq<Action>)
      requires Inv(View()) && At(f, AtRead) && Handles(View(), read, write)
      modifies this, events
      ensures View() == Handled(old(View()), read, write) && Inv(View())
      ensures phase == Files(old(phase).fired, old(phase).j + 1, AtRead)
      ensures events == old(events) || fresh(events)
    {
      TestedKeeps(View(), read);
      var base := events;
      base := ReadHalf(base, f, read);
      TestedKeeps(View(), write);
      WriteHalf(base, f, write);
    }

    /** The dispatch loop of loopyProcessEvents. */
    method ProcessFired(fired: seq<Fired>, onRead: seq<seq<Action>>, onWrite: seq<seq<Action>>)
      requires Inv(View()) && phase == Files(fired, 0, AtRead)
      requires |onRead| == |onWrite| == |fired| && AllHandle(View(), onRead, onWrite)
      modifies this, events
      ensures View() == AllHandled(old(View()), onRead, onWrite) && phase == Files(fired, |fired|, AtRead)
    {
      var j := 0;
      while j < |fired|
        invariant j <= |fired| && Inv(View()) && phase == Files(fired, j, AtRead)
        invariant events == old(events) || fresh(events)
        invariant AllHandle(View(), onRead[j..], onWrite[j..])
        invariant AllHandled(View(), onRead[j..], onWrite[j..]) == AllHandled(old(View()), onRead, onWrite)
      {
        assert onRead[j..][1..] == onRead[j + 1..] && onWrite[j..][1..] == onWrite[j + 1..];
        HandleFired(fired[j], onRead[j], onWrite[j]);
        j := j + 1;
      }
    }
  }
}
