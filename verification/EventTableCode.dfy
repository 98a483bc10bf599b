/** loopy.c's table code in place: the events array that is reallocated as it grows, maxfd, and the
    calls to the epoll adapter. Each method does what the step of EventTable says. */
module EventTableCode {
  import opened Masks
  import Table = EventTable

  class Loop {
    var events: array<Mask>
    var setSize: nat
    var fdHeap: set<nat>
    var maxfd: int
    var interest: map<nat, Mask>
    ghost var refusals: nat

    ghost predicate Valid()
      reads this
    {
      events.Length == setSize > 0
    }

    ghost function View(): (r: Table.State)
      reads this, events
    {
      Table.State(events[..], fdHeap, maxfd, interest, refusals)
    }

    constructor (size: nat)
      requires size > 0
      ensures Valid() && View() == Table.Init(size) && fresh(events)
    {
      events := new Mask[size](_ => NONE);
      setSize := size;
      fdHeap, maxfd, interest, refusals := {}, -1, map[], 0;
    }

    /** The top of the heap of registered descriptors. */
    method Peek() returns (m: int)
      ensures m == Table.MaxOf(fdHeap)
    {
      var rest := fdHeap;
      m := -1;
      while rest != {}
        invariant rest <= fdHeap && (m == -1 || m in fdHeap - rest) && forall x :: x in fdHeap - rest ==> x <= m
        invariant fdHeap != rest ==> m in fdHeap
        decreases |rest|
      {
        var x :| x in rest;
        assert forall y :: y in fdHeap - (rest - {x}) ==> y == x || y in fdHeap - rest;
        rest := rest - {x};
        if m < x {
          m := x;
        }
      }
      assert fdHeap - rest == fdHeap;
      Table.MaxIs(fdHeap, m);
    }

    /** fdStorageResize: false, and nothing done, when the size is already the wanted one. */
    method Resize(size: nat) returns (ok: bool)
      requires Valid() && size >= setSize
      modifies this`events, this`setSize
      ensures Valid() && (ok <==> size > old(setSize))
      ensures View() == old(View()).(masks := Table.Grown(old(View()).masks, size))
      ensures if ok then fresh(events) else events == old(events)
    {
      if size == setSize {
        assert Table.Grown(events[..], size) == events[..];
        return false;
      }
      ghost var before := events[..];
      var grown := new Mask[size](_ => NONE);
      var i := 0;
      while i < setSize
        invariant 0 <= i <= setSize && events[..] == before && events.Length == setSize < size == grown.Length
        invariant grown[..i] == before[..i] && forall j :: i <= j < size ==> grown[j] == NONE
      {
        grown[i] := events[i];
        i := i + 1;
      }
      events, setSize := grown, size;
      ok := true;
      assert grown[..] == Table.Grown(before, size);
    }

    /** fdConformStorageBounds. */
    method Conform(fd: nat)
      requires Valid()
      modifies this`events, this`setSize
      ensures Valid() && View() == Table.Conform(old(View()), fd) && fd < setSize
      ensures events == old(events) || fresh(events)
    {
      if fd < setSize {
        assert Table.Grown(events[..], setSize) == events[..];
        return;
      }
      var newSize := setSize;
      while newSize <= fd
        invariant setSize <= newSize && 0 < newSize && Table.Doubled(newSize, fd) == Table.Doubled(setSize, fd)
        decreases fd + 1 - newSize
      {
        newSize := 2 * newSize;
      }
      var _ := Resize(newSize);
    }

    /** epoll_ctl. */
    method Ctl(op: Table.Op, fd: nat, mask: Mask, refuse: bool) returns (ok: bool)
      modifies this`interest
      ensures ok <==> !refuse && Table.Accepts(old(interest), op, fd)
      ensures interest == if ok then Table.Ctl(old(interest), op, fd, mask) else old(interest)
    {
      ok := !refuse && Table.Accepts(interest, op, fd);
      if ok {
        interest := Table.Ctl(interest, op, fd, mask);
      }
    }

    /** _loopyNewFileEvent with the adapter's add. */
    method NewFileEvent(fd: nat, mask: Mask, refuse: bool) returns (ok: bool)
      requires Valid() && !mask.Empty()
      modifies this, events
      ensures Valid() && View() == Table.Step(old(View()), Table.Register(fd, mask, refuse))
      ensures ok <==> !refuse && Table.Accepts(old(interest), Table.AddOp(Table.Conform(old(View()), fd), fd), fd)
    {
      Conform(fd);
      ok := AddToTable(fd, mask, refuse);
    }

    method AddToTable(fd: nat, mask: Mask, refuse: bool) returns (ok: bool)
      requires Valid() && fd < setSize
      modifies this`fdHeap, this`maxfd, this`interest, events
      ensures Valid() && View() == Table.New(old(View()), fd, mask, refuse)
      ensures ok <==> !refuse && Table.Accepts(old(interest), Table.AddOp(old(View()), fd), fd)
    {
      var wasEmpty := events[fd].Empty();
      ghost var before := View();
      ok := Ctl(if wasEmpty then Table.Add else Table.Mod, fd, mask.Or(events[fd]), refuse);
      if !ok {
        return false;
      }
      events[fd] := events[fd].Or(mask);
      if wasEmpty {
        fdHeap := fdHeap + {fd};
      }
      maxfd := Peek();
      assert events[..] == before.masks[fd := mask.Or(before.masks[fd])];
    }

    /** _loopyDeleteFileEvent with the adapter's delete, which comes first and ignores the answer. */
    method DeleteFileEvent(fd: nat, mask: Mask, refuse: bool)
      requires Valid()
      modifies this`fdHeap, this`maxfd, this`interest, this`refusals, events
      ensures Valid() && View() == Table.Delete(old(View()), fd, mask, refuse)
    {
      if fd >= setSize || events[fd].Empty() {
        return;
      }
      ghost var before := View();
      var left := events[fd].Minus(mask);
      var ok := Ctl(if left.Empty() then Table.Del else Table.Mod, fd, left, refuse);
      if !ok {
        refusals := refusals + 1;
      }
      events[fd] := left;
      if left.Empty() {
        fdHeap := fdHeap - {fd};
        maxfd := Peek();
      }
    }
  }
}
