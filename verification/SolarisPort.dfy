/** The event-port backend of loopyAdapterSolaris.c, driven by loopy.c. A descriptor that a poll
    returned is dissociated by the kernel and kept on a pending list until the next poll associates
    it again. loopy.c calls the adapter's delete before it updates the registered mask, the adapter
    expects the opposite order; `maskFirst` selects the order, and loopy.c's is false. */
module SolarisPort {
  import opened Masks

  const BATCH: nat := 512

  datatype Entry = Entry(fd: int, mask: Mask)

  /** `masks` holds the registered masks, absent meaning none; `assoc` is the kernel's side. */
  datatype State = State(maskFirst: bool, masks: map<nat, Mask>, assoc: map<nat, Mask>, pending: seq<Entry>,
                         aborted: bool)

  /** `refuse` says that port_associate fails, if it is called. */
  datatype Action =
    | Register(fd: nat, mask: Mask, refuse: bool)
    | Unregister(fd: nat, mask: Mask, refuse: bool)
    | Poll(events: seq<nat>, refuse: bool)

  function MaskOf(masks: map<nat, Mask>, fd: nat): (r: Mask)
  {
    if fd in masks then masks[fd] else NONE
  }

  /** loopyInternalLookupPending: the first position of the descriptor, or -1. */
  function LookUp(pending: seq<Entry>, fd: int): (i: int)
    ensures -1 <= i < |pending| && (i >= 0 ==> pending[i].fd == fd)
  {
    if pending == [] then -1
    else if pending[0].fd == fd then 0
    else
      var i := LookUp(pending[1..], fd);
      if i < 0 then -1 else i + 1
  }

  lemma {:induction false} LookUpFinds(pending: seq<Entry>, fd: int, i: nat)
    requires i < |pending| && pending[i].fd == fd
    ensures 0 <= LookUp(pending, fd) <= i
  {
    if pending[0].fd != fd {
      LookUpFinds(pending[1..], fd, i - 1);
    }
  }

  /** loopyInternalAddEvent: whether it succeeds, and the state it leaves. */
  function AddEvent(s: State, fd: nat, mask: Mask, refuse: bool): (bool, State)
  {
    var full := mask.Or(MaskOf(s.masks, fd));
    var p := LookUp(s.pending, fd);
    if p >= 0 then (true, s.(pending := s.pending[p := Entry(fd, s.pending[p].mask.Or(full))]))
    else if refuse then (false, s)
    else (true, s.(assoc := s.assoc[fd := full]))
  }

  /** loopyInternalDelEvent. A pending entry whose mask empties is marked deleted with -1; a kernel
      failure aborts the process. */
  function DelEvent(s: State, fd: nat, mask: Mask, refuse: bool): (s': State)
  {
    var p := LookUp(s.pending, fd);
    if p >= 0 then
      var left := s.pending[p].mask.Minus(mask);
      s.(pending := s.pending[p := Entry(if left.Empty() then -1 else fd, left)])
    else
      var full := MaskOf(s.masks, fd);
      if full.Empty() then
        if fd in s.assoc then s.(assoc := map x | x in s.assoc && x != fd :: s.assoc[x]) else s.(aborted := true)
      else if refuse then s.(aborted := true)
      else s.(assoc := s.assoc[fd := full])
  }

  /** The first loop of loopyInternalPoll over the entries from `i` on. */
  function Reassociated(assoc: map<nat, Mask>, pending: seq<Entry>, i: nat): (r: map<nat, Mask>)
    requires i <= |pending|
    decreases |pending| - i
  {
    if i == |pending| then assoc
    else if pending[i].fd < 0 then Reassociated(assoc, pending, i + 1)
    else Reassociated(assoc[pending[i].fd := pending[i].mask], pending, i + 1)
  }

  predicate HasLive(pending: seq<Entry>)
  {
    exists i :: 0 <= i < |pending| && pending[i].fd >= 0
  }

  predicate Distinct(xs: seq<nat>)
  {
    forall i, j :: 0 <= i < j < |xs| ==> xs[i] != xs[j]
  }

  predicate Enabled(s: State, a: Action)
  {
    !s.aborted &&
    match a
    case Register(_, mask, _) => !mask.Empty()
    case Unregister(_, mask, _) => !mask.Empty()
    case Poll(events, _) =>
      |events| <= BATCH && Distinct(events) && forall i :: 0 <= i < |events| ==>
        events[i] in Reassociated(s.assoc, s.pending, 0)
  }

  /** _loopyNewFileEvent, _loopyDeleteFileEvent and loopyInternalPoll, whose events the kernel picks
      among the associated descriptors. */
  function Step(s: State, a: Action): (s': State)
    requires Enabled(s, a)
  {
    match a
    case Register(fd, mask, refuse) =>
      var (ok, s') := AddEvent(s, fd, mask, refuse);
      if ok then s'.(masks := s.masks[fd := MaskOf(s.masks, fd).Or(mask)]) else s'
    case Unregister(fd, mask, refuse) =>
      var left := MaskOf(s.masks, fd).Minus(mask);
      if MaskOf(s.masks, fd).Empty() then s
      else if s.maskFirst then DelEvent(s.(masks := s.masks[fd := left]), fd, mask, refuse)
      else DelEvent(s, fd, mask, refuse).(masks := s.masks[fd := left])
    case Poll(events, refuse) =>
      var assoc := Reassociated(s.assoc, s.pending, 0);
      if refuse && HasLive(s.pending) then s.(aborted := true)
      else s.(assoc := map x | x in assoc && x !in events :: assoc[x],
              pending := seq(|events|, i requires 0 <= i < |events| => Entry(events[i], assoc[events[i]])))
  }

  function Init(maskFirst: bool): (s: State)
  {
    State(maskFirst, map[], map[], [], false)
  }

  ghost predicate Associated(s: State, fd: nat, mask: Mask)
  {
    fd in s.assoc && mask.Within(s.assoc[fd])
  }

  ghost predicate Pending(s: State, fd: nat, mask: Mask)
  {
    exists i :: 0 <= i < |s.pending| && s.pending[i].fd == fd && mask.Within(s.pending[i].mask)
  }

  ghost predicate IsPending(s: State, fd: nat)
  {
    exists i :: 0 <= i < |s.pending| && s.pending[i].fd == fd
  }

  /** Either place, never both, and each pending descriptor once. */
  ghost predicate Separate(s: State)
  {
    && (forall i :: 0 <= i < |s.pending| ==> s.pending[i].fd >= -1)
    && (forall i :: 0 <= i < |s.pending| && s.pending[i].fd >= 0 ==> s.pending[i].fd !in s.assoc)
    && (forall i, j :: 0 <= i < j < |s.pending| && s.pending[i].fd >= 0 ==> s.pending[i].fd != s.pending[j].fd)
  }

  ghost predicate Kept(s: State, fd: nat)
  {
    MaskOf(s.masks, fd).Empty() || Associated(s, fd, MaskOf(s.masks, fd)) || Pending(s, fd, MaskOf(s.masks, fd))
  }

  /** Nothing but the registered interest is anywhere. */
  ghost predicate Exact(s: State)
  {
    && (forall fd :: fd in s.assoc ==> s.assoc[fd] == MaskOf(s.masks, fd) && !s.assoc[fd].Empty())
    && (forall i :: 0 <= i < |s.pending| && s.pending[i].fd >= 0 ==>
          s.pending[i].mask == MaskOf(s.masks, s.pending[i].fd) && !s.pending[i].mask.Empty())
  }

  ghost predicate Inv(s: State)
  {
    s.aborted || (|s.pending| <= BATCH && Separate(s) && (forall fd: nat :: Kept(s, fd)) && (s.maskFirst ==> Exact(s)))
  }

  lemma NotPending(s: State, fd: nat)
    requires LookUp(s.pending, fd) < 0
    ensures !IsPending(s, fd)
  {
    if i :| 0 <= i < |s.pending| && s.pending[i].fd == fd {
      LookUpFinds(s.pending, fd, i);
    }
  }

  lemma OnlyPendingAt(s: State, fd: nat, p: nat)
    requires Separate(s) && p < |s.pending| && s.pending[p].fd == fd
    ensures forall i :: 0 <= i < |s.pending| && s.pending[i].fd == fd ==> i == p
  {
  }

  /** Updating the entry of `fd`, or marking it deleted, keeps the places separate. */
  lemma EntryKeepsSeparate(s: State, p: nat, e: Entry)
    requires Separate(s) && p < |s.pending| && (e.fd == -1 || e.fd == s.pending[p].fd)
    ensures Separate(s.(pending := s.pending[p := e]))
  {
    var t := s.(pending := s.pending[p := e]);
    forall i, j | 0 <= i < j < |t.pending| && t.pending[i].fd >= 0 ensures t.pending[i].fd != t.pending[j].fd {
      assert s.pending[i].fd == t.pending[i].fd;
      assert s.pending[i].fd != s.pending[j].fd;
    }
  }

  lemma AddKeepsSeparate(s: State, fd: nat, mask: Mask, refuse: bool)
    requires Separate(s)
    ensures Separate(AddEvent(s, fd, mask, refuse).1) && |AddEvent(s, fd, mask, refuse).1.pending| == |s.pending|
  {
    var p := LookUp(s.pending, fd);
    if p >= 0 {
      EntryKeepsSeparate(s, p, AddEvent(s, fd, mask, refuse).1.pending[p]);
    } else {
      NotPending(s, fd);
    }
  }

  lemma DelKeepsSeparate(s: State, fd: nat, mask: Mask, refuse: bool)
    requires Separate(s)
    ensures Separate(DelEvent(s, fd, mask, refuse)) && |DelEvent(s, fd, mask, refuse).pending| == |s.pending|
  {
    var p := LookUp(s.pending, fd);
    if p >= 0 {
      EntryKeepsSeparate(s, p, DelEvent(s, fd, mask, refuse).pending[p]);
    } else {
      NotPending(s, fd);
    }
  }

  lemma RegisterKeeps(s: State, fd: nat, mask: Mask, refuse: bool)
    requires Inv(s) && Enabled(s, Register(fd, mask, refuse))
    ensures Inv(Step(s, Register(fd, mask, refuse)))
  {
    var s' := Step(s, Register(fd, mask, refuse));
    AddKeepsSeparate(s, fd, mask, refuse);
    forall x: nat ensures Kept(s', x) {
      KeptByRegister(s, fd, mask, refuse, x);
    }
    if s.maskFirst { ExactByRegister(s, fd, mask, refuse); }
  }

  lemma ExactByRegister(s: State, fd: nat, mask: Mask, refuse: bool)
    requires Inv(s) && Enabled(s, Register(fd, mask, refuse)) && Exact(s)
    ensures Exact(Step(s, Register(fd, mask, refuse)))
  {
    var p := LookUp(s.pending, fd);
    if p >= 0 {
      OnlyPendingAt(s, fd, p);
    } else {
      NotPending(s, fd);
    }
  }

  lemma KeptByRegister(s: State, fd: nat, mask: Mask, refuse: bool, x: nat)
    requires Inv(s) && Enabled(s, Register(fd, mask, refuse))
    ensures Kept(Step(s, Register(fd, mask, refuse)), x)
  {
    var s' := Step(s, Register(fd, mask, refuse));
    var p := LookUp(s.pending, fd);
    assert Kept(s, x);
    if p >= 0 {
      assert s'.pending[p].fd == fd && MaskOf(s'.masks, fd).Within(s'.pending[p].mask);
      if x != fd && Pending(s, x, MaskOf(s.masks, x)) {
        var i :| 0 <= i < |s.pending| && s.pending[i].fd == x && MaskOf(s.masks, x).Within(s.pending[i].mask);
        assert s'.pending[i] == s.pending[i];
      }
    }
  }

  lemma UnregisterKeeps(s: State, fd: nat, mask: Mask, refuse: bool)
    requires Inv(s) && Enabled(s, Unregister(fd, mask, refuse))
    ensures Inv(Step(s, Unregister(fd, mask, refuse)))
  {
    var s' := Step(s, Unregister(fd, mask, refuse));
    var left := MaskOf(s.masks, fd).Minus(mask);
    DelKeepsSeparate(s, fd, mask, refuse);
    DelKeepsSeparate(s.(masks := s.masks[fd := left]), fd, mask, refuse);
    if !s'.aborted {
      forall x: nat ensures Kept(s', x) {
        KeptByUnregister(s, fd, mask, refuse, x);
      }
      if s.maskFirst { ExactByUnregister(s, fd, mask, refuse); }
    }
  }

  lemma ExactByUnregister(s: State, fd: nat, mask: Mask, refuse: bool)
    requires Inv(s) && Enabled(s, Unregister(fd, mask, refuse)) && s.maskFirst
    requires !Step(s, Unregister(fd, mask, refuse)).aborted
    ensures Exact(Step(s, Unregister(fd, mask, refuse)))
  {
    var p := LookUp(s.pending, fd);
    if p >= 0 {
      OnlyPendingAt(s, fd, p);
    } else {
      NotPending(s, fd);
    }
  }

  /** The pending entries of a state after a removal. */
  lemma EntriesAfter(s: State, fd: nat, mask: Mask, refuse: bool, i: nat)
    requires Inv(s) && Enabled(s, Unregister(fd, mask, refuse)) && i < |s.pending|
    requires !MaskOf(s.masks, fd).Empty()
    ensures |Step(s, Unregister(fd, mask, refuse)).pending| == |s.pending|
    ensures s.pending[i].fd != fd ==> Step(s, Unregister(fd, mask, refuse)).pending[i] == s.pending[i]
    ensures s.pending[i].fd == fd ==>
              var left := s.pending[i].mask.Minus(mask);
              Step(s, Unregister(fd, mask, refuse)).pending[i] == Entry(if left.Empty() then -1 else fd, left)
  {
    if s.pending[i].fd == fd {
      LookUpFinds(s.pending, fd, i);
      OnlyPendingAt(s, fd, i);
    }
  }

  lemma KeptByUnregister(s: State, fd: nat, mask: Mask, refuse: bool, x: nat)
    requires Inv(s) && Enabled(s, Unregister(fd, mask, refuse)) && !Step(s, Unregister(fd, mask, refuse)).aborted
    ensures Kept(Step(s, Unregister(fd, mask, refuse)), x)
  {
    var s' := Step(s, Unregister(fd, mask, refuse));
    assert Kept(s, x);
    if MaskOf(s.masks, fd).Empty() || MaskOf(s'.masks, x).Empty() {
    } else if Pending(s, x, MaskOf(s.masks, x)) {
      var i :| 0 <= i < |s.pending| && s.pending[i].fd == x && MaskOf(s.masks, x).Within(s.pending[i].mask);
      EntriesAfter(s, fd, mask, refuse, i);
      assert s'.pending[i].fd == x && MaskOf(s'.masks, x).Within(s'.pending[i].mask);
    } else {
      AssociatedStays(s, fd, mask, refuse, x);
    }
  }

  lemma AssociatedStays(s: State, fd: nat, mask: Mask, refuse: bool, x: nat)
    requires Inv(s) && Enabled(s, Unregister(fd, mask, refuse)) && !Step(s, Unregister(fd, mask, refuse)).aborted
    requires Associated(s, x, MaskOf(s.masks, x)) && !MaskOf(Step(s, Unregister(fd, mask, refuse)).masks, x).Empty()
    ensures Associated(Step(s, Unregister(fd, mask, refuse)), x, MaskOf(Step(s, Unregister(fd, mask, refuse)).masks, x))
  {
  }

  /** After the first loop of a poll everything pending is associated, with its pending mask. */
  lemma {:induction false} ReassociatedExactly(assoc: map<nat, Mask>, pending: seq<Entry>, i: nat)
    requires i <= |pending|
    requires forall j, k :: i <= j < k < |pending| && pending[j].fd >= 0 ==> pending[j].fd != pending[k].fd
    ensures forall j :: i <= j < |pending| && pending[j].fd >= 0 ==>
              pending[j].fd in Reassociated(assoc, pending, i)
                && Reassociated(assoc, pending, i)[pending[j].fd] == pending[j].mask
    ensures forall x :: x in assoc ==> x in Reassociated(assoc, pending, i)
    ensures forall x ::
              x in Reassociated(assoc, pending, i) && (forall j :: i <= j < |pending| ==> pending[j].fd != x) ==>
              x in assoc && Reassociated(assoc, pending, i)[x] == assoc[x]
    decreases |pending| - i
  {
    if i < |pending| {
      if pending[i].fd < 0 {
        ReassociatedExactly(assoc, pending, i + 1);
      } else {
        ReassociatedExactly(assoc[pending[i].fd := pending[i].mask], pending, i + 1);
      }
    }
  }

  lemma KeptByPoll(s: State, events: seq<nat>, refuse: bool, x: nat)
    requires Inv(s) && Enabled(s, Poll(events, refuse)) && !Step(s, Poll(events, refuse)).aborted
    ensures Kept(Step(s, Poll(events, refuse)), x)
  {
    var s' := Step(s, Poll(events, refuse));
    var assoc := Reassociated(s.assoc, s.pending, 0);
    ReassociatedExactly(s.assoc, s.pending, 0);
    assert Kept(s, x);
    if !MaskOf(s.masks, x).Empty() {
      assert x in assoc && MaskOf(s.masks, x).Within(assoc[x]);
      if x in events {
        var i :| 0 <= i < |events| && events[i] == x;
        assert s'.pending[i] == Entry(x, assoc[x]);
      }
    }
  }

  lemma PollKeeps(s: State, events: seq<nat>, refuse: bool)
    requires Inv(s) && Enabled(s, Poll(events, refuse))
    ensures Inv(Step(s, Poll(events, refuse)))
  {
    var s' := Step(s, Poll(events, refuse));
    ReassociatedExactly(s.assoc, s.pending, 0);
    if !s'.aborted {
      forall x: nat ensures Kept(s', x) {
        KeptByPoll(s, events, refuse, x);
      }
      if s.maskFirst { PollStaysExact(s, events, refuse); }
    }
  }

  lemma StepKeeps(s: State, a: Action)
    requires Inv(s) && Enabled(s, a)
    ensures Inv(Step(s, a))
  {
    match a
    case Register(fd, mask, refuse) => RegisterKeeps(s, fd, mask, refuse);
    case Unregister(fd, mask, refuse) => UnregisterKeeps(s, fd, mask, refuse);
    case Poll(events, refuse) => PollKeeps(s, events, refuse);
  }

  ghost predicate Legal(s: State, run: seq<Action>)
    decreases |run|
  {
    run == [] || (Enabled(s, run[0]) && Legal(Step(s, run[0]), run[1..]))
  }

  ghost function End(s: State, run: seq<Action>): (s': State)
    requires Legal(s, run)
    decreases |run|
  {
    if run == [] then s else End(Step(s, run[0]), run[1..])
  }

  lemma {:induction false} RunsKeep(s: State, run: seq<Action>)
    requires Inv(s) && Legal(s, run)
    ensures Inv(End(s, run)) && End(s, run).maskFirst == s.maskFirst
    decreases |run|
  {
    if run != [] {
      StepKeeps(s, run[0]);
      RunsKeep(Step(s, run[0]), run[1..]);
    }
  }

  /** In every run of registrations, removals and polls, in either order of mask and delete: no
      descriptor is both associated and pending, none is pending twice, and every registered one is
      in one of the two places with at least its registered mask. */
  lemma NoInterestIsLost(maskFirst: bool, run: seq<Action>, t: State)
    requires Legal(Init(maskFirst), run) && t == End(Init(maskFirst), run) && !t.aborted
    ensures forall fd: nat :: !(IsPending(t, fd) && fd in t.assoc)
    ensures forall i, j :: 0 <= i < j < |t.pending| && t.pending[i].fd >= 0 ==> t.pending[i].fd != t.pending[j].fd
    ensures forall fd: nat :: !MaskOf(t.masks, fd).Empty() ==>
              Associated(t, fd, MaskOf(t.masks, fd)) || Pending(t, fd, MaskOf(t.masks, fd))
    ensures |t.pending| <= BATCH
  {
    RunsKeep(Init(maskFirst), run);
    forall fd: nat | !MaskOf(t.masks, fd).Empty()
      ensures Associated(t, fd, MaskOf(t.masks, fd)) || Pending(t, fd, MaskOf(t.masks, fd))
    {
      assert Kept(t, fd);
    }
  }

  /** In the order the adapter expects, the port holds nothing but the registered interest. */
  lemma ExactInAssumedOrder(run: seq<Action>, t: State)
    requires Legal(Init(true), run) && t == End(Init(true), run) && !t.aborted
    ensures forall fd: nat :: fd in t.assoc || IsPending(t, fd) <==> !MaskOf(t.masks, fd).Empty()
    ensures forall fd :: fd in t.assoc ==> t.assoc[fd] == MaskOf(t.masks, fd)
  {
    RunsKeep(Init(true), run);
    forall fd: nat ensures fd in t.assoc || IsPending(t, fd) <==> !MaskOf(t.masks, fd).Empty() {
      assert Kept(t, fd);
    }
  }

  /** In loopy.c's order a removal keeps the port at exactly the registered interest if and only if the
      descriptor is pending or the removal takes nothing away: an associated one keeps its old mask. */
  lemma RemovalExactly(s: State, fd: nat, mask: Mask)
    requires Inv(s) && Exact(s) && !s.maskFirst && Enabled(s, Unregister(fd, mask, false))
    ensures !Step(s, Unregister(fd, mask, false)).aborted
    ensures Exact(Step(s, Unregister(fd, mask, false))) <==> IsPending(s, fd) || MaskOf(s.masks, fd).And(mask).Empty()
  {
    var t := Step(s, Unregister(fd, mask, false));
    var p := LookUp(s.pending, fd);
    assert Kept(s, fd);
    if p >= 0 {
      OnlyPendingAt(s, fd, p);
    } else {
      NotPending(s, fd);
      if !MaskOf(s.masks, fd).And(mask).Empty() {
        assert fd in t.assoc && t.assoc[fd] != MaskOf(t.masks, fd);
      }
    }
  }

  lemma RegisterStaysExact(s: State, fd: nat, mask: Mask, refuse: bool)
    requires Inv(s) && Exact(s) && Enabled(s, Register(fd, mask, refuse))
    ensures Exact(Step(s, Register(fd, mask, refuse)))
  {
    ExactByRegister(s, fd, mask, refuse);
  }

  lemma ReassociatedStaysExact(s: State, x: nat)
    requires Inv(s) && !s.aborted && Exact(s) && x in Reassociated(s.assoc, s.pending, 0)
    ensures Reassociated(s.assoc, s.pending, 0)[x] == MaskOf(s.masks, x) && !MaskOf(s.masks, x).Empty()
  {
    ReassociatedExactly(s.assoc, s.pending, 0);
    if IsPending(s, x) {
      var j :| 0 <= j < |s.pending| && s.pending[j].fd == x;
    }
  }

  lemma PollStaysExact(s: State, events: seq<nat>, refuse: bool)
    requires Inv(s) && Exact(s) && Enabled(s, Poll(events, refuse)) && !Step(s, Poll(events, refuse)).aborted
    ensures Exact(Step(s, Poll(events, refuse)))
  {
    forall x | x in Reassociated(s.assoc, s.pending, 0)
      ensures Reassociated(s.assoc, s.pending, 0)[x] == MaskOf(s.masks, x) && !MaskOf(s.masks, x).Empty()
    {
      ReassociatedStaysExact(s, x);
    }
  }

  /** The action is no removal, or one of a pending descriptor, or one that takes nothing away. */
  ghost predicate Harmless(s: State, a: Action)
  {
    a.Unregister? ==> IsPending(s, a.fd) || MaskOf(s.masks, a.fd).And(a.mask).Empty()
  }

  ghost predicate AllHarmless(s: State, run: seq<Action>)
    requires Legal(s, run)
    decreases |run|
  {
    run == [] || (Harmless(s, run[0]) && AllHarmless(Step(s, run[0]), run[1..]))
  }

  /** So the port stays exact along every run in loopy.c's order whose removals are all harmless. */
  lemma {:induction false} HarmlessRunsStayExact(s: State, run: seq<Action>)
    requires Inv(s) && Exact(s) && !s.maskFirst && Legal(s, run) && AllHarmless(s, run) && !End(s, run).aborted
    ensures Exact(End(s, run))
    decreases |run|
  {
    if run != [] {
      var s' := Step(s, run[0]);
      StepKeeps(s, run[0]);
      assert !s'.aborted;
      match run[0] {
        case Register(fd, mask, refuse) => RegisterStaysExact(s, fd, mask, refuse);
        case Unregister(fd, mask, refuse) => HarmlessRemoval(s, fd, mask, refuse);
        case Poll(events, refuse) => PollStaysExact(s, events, refuse);
      }
      HarmlessRunsStayExact(s', run[1..]);
    }
  }

  lemma HarmlessRemoval(s: State, fd: nat, mask: Mask, refuse: bool)
    requires Inv(s) && Exact(s) && !s.maskFirst && Enabled(s, Unregister(fd, mask, refuse))
    requires Harmless(s, Unregister(fd, mask, refuse)) && !Step(s, Unregister(fd, mask, refuse)).aborted
    ensures Exact(Step(s, Unregister(fd, mask, refuse)))
  {
    RemovalExactly(s, fd, mask);
    assert Step(s, Unregister(fd, mask, refuse)) == Step(s, Unregister(fd, mask, false));
  }

  /** Runs of one step, and of one step more in front. */
  lemma Single(s: State, a: Action)
    requires Enabled(s, a)
    ensures Legal(s, [a]) && End(s, [a]) == Step(s, a)
  {
    assert [a][1..] == [];
  }

  lemma InFront(s: State, a: Action, run: seq<Action>)
    requires Enabled(s, a) && Legal(Step(s, a), run)
    ensures Legal(s, [a] + run) && End(s, [a] + run) == End(Step(s, a), run)
  {
    assert ([a] + run)[1..] == run;
  }

  /** An ordinary run that ends with more interest in the port than is registered: read and write are
      registered, write is taken back. */
  lemma StaleWriteInterest() returns (run: seq<Action>, t: State)
    ensures Legal(Init(false), run) && t == End(Init(false), run) && !t.aborted
    ensures t.masks == map[3 := READ] && t.assoc == map[3 := READ.Or(WRITE)]
  {
    var a, b, c := Register(3, READ, false), Register(3, WRITE, false), Unregister(3, WRITE, false);
    var s1 := Step(Init(false), a);
    var s2 := Step(s1, b);
    t := Step(s2, c);
    Single(s2, c);
    InFront(s1, b, [c]);
    run := [a] + ([b] + [c]);
    InFront(Init(false), a, [b] + [c]);
  }

  /** With loopy.c's order the adapter's dissociating branch is dead: along any run a descriptor leaves
      the port only because a poll returned it, whatever is removed. */
  lemma {:induction false} NeverDissociated(s: State, run: seq<Action>, x: nat)
    requires Inv(s) && !s.maskFirst && Legal(s, run) && x in s.assoc && !End(s, run).aborted
    requires forall i :: 0 <= i < |run| && run[i].Poll? ==> x !in run[i].events
    ensures x in End(s, run).assoc
    decreases |run|
  {
    if run != [] {
      assert run[0].Poll? ==> x !in run[0].events;
      StepKeeps(s, run[0]);
      if run[0].Poll? { ReassociatedExactly(s.assoc, s.pending, 0); }
      assert x in Step(s, run[0]).assoc;
      NeverDissociated(Step(s, run[0]), run[1..], x);
    }
  }

  predicate Listens(s: State, fd: nat, write: bool)
  {
    Names(MaskOf(s.masks, fd), write)
  }

  /** What the latest call that named reading, or writing, on the descriptor and took effect has left, if
      `before` was so at the start. A registration fails only if port_associate is called and refused. */
  ghost function Wanted(s: State, run: seq<Action>, fd: nat, write: bool, before: bool): (b: bool)
    requires Legal(s, run)
    decreases |run|
  {
    if run == [] then before
    else Wanted(Step(s, run[0]), run[1..], fd, write, WantedAfter(s, run[0], fd, write, before))
  }

  ghost predicate WantedAfter(s: State, a: Action, fd: nat, write: bool, before: bool)
  {
    match a
    case Register(fd', mask, refuse) =>
      before || (fd' == fd && (if write then mask.write else mask.read) && (!refuse || IsPending(s, fd)))
    case Unregister(fd', mask, _) => before && !(fd' == fd && (if write then mask.write else mask.read))
    case Poll(_, _) => before
  }

  lemma ListensAfter(s: State, a: Action, fd: nat, write: bool)
    requires Enabled(s, a)
    ensures Listens(Step(s, a), fd, write) <==> WantedAfter(s, a, fd, write, Listens(s, fd, write))
  {
    if a.Register? && LookUp(s.pending, a.fd) < 0 { NotPending(s, a.fd); }
  }

  /** In every run, in either order, a descriptor is registered for reading, or for writing, exactly as the
      latest call that named that and took effect on it left it. */
  lemma {:induction false} CallsDecide(s: State, run: seq<Action>, fd: nat, write: bool)
    requires Legal(s, run)
    ensures Listens(End(s, run), fd, write) <==> Wanted(s, run, fd, write, Listens(s, fd, write))
    decreases |run|
  {
    if run != [] {
      ListensAfter(s, run[0], fd, write);
      CallsDecide(Step(s, run[0]), run[1..], fd, write);
    }
  }

  /** What a poll does, in either order, unless the process is aborted: the pending descriptors go back to the
      port with the masks they were pending with, the ones that it returns leave the port and are pending
      with the masks they had in it, all others stay in the port as they were. */
  lemma PollMoves(s: State, events: seq<nat>, refuse: bool)
    requires Inv(s) && Enabled(s, Poll(events, refuse)) && !Step(s, Poll(events, refuse)).aborted
    ensures
      var t := Step(s, Poll(events, refuse));
      && t.masks == s.masks && |t.pending| == |events|
      && (forall i :: 0 <= i < |events| ==> t.pending[i].fd == events[i] && events[i] !in t.assoc)
      && (forall i :: 0 <= i < |events| && events[i] in s.assoc ==> t.pending[i].mask == s.assoc[events[i]])
      && (forall i, p :: 0 <= i < |events| && 0 <= p < |s.pending| && s.pending[p].fd == events[i] ==>
            t.pending[i].mask == s.pending[p].mask)
    ensures
      var t := Step(s, Poll(events, refuse));
      && (forall x: nat :: x !in events ==> (x in t.assoc <==> x in s.assoc || IsPending(s, x)))
      && (forall x: nat :: x in s.assoc && x !in events ==> t.assoc[x] == s.assoc[x])
      && (forall p :: 0 <= p < |s.pending| && s.pending[p].fd >= 0 && s.pending[p].fd !in events ==>
            t.assoc[s.pending[p].fd] == s.pending[p].mask)
  {
    ReassociatedExactly(s.assoc, s.pending, 0);
    forall x: nat | x in Reassociated(s.assoc, s.pending, 0) ensures x in s.assoc || IsPending(s, x) {
      if !IsPending(s, x) { assert forall j :: 0 <= j < |s.pending| ==> s.pending[j].fd != x; }
    }
  }

  /** The adapter makes a kernel call that it cannot do without: a poll, if it has to put a descriptor back, and
      a removal from a registered descriptor that is in the port, unless it takes it out. */
  ghost predicate CannotFail(s: State, a: Action)
  {
    match a
    case Register(_, _, _) => false
    case Poll(_, _) => exists x: nat :: IsPending(s, x)
    case Unregister(fd, mask, _) =>
      && !IsPending(s, fd) && !MaskOf(s.masks, fd).Empty()
      && (s.maskFirst ==> !MaskOf(s.masks, fd).Minus(mask).Empty())
  }

  /** A step aborts the process exactly if the kernel refuses such a call. */
  lemma AbortsExactly(s: State, a: Action)
    requires Inv(s) && Enabled(s, a)
    ensures Step(s, a).aborted <==> a.refuse && CannotFail(s, a)
  {
    match a {
      case Register(_, _, _) =>
      case Unregister(fd, mask, _) =>
        assert Kept(s, fd);
        if LookUp(s.pending, fd) < 0 { NotPending(s, fd); }
      case Poll(_, _) =>
        if HasLive(s.pending) {
          var i :| 0 <= i < |s.pending| && s.pending[i].fd >= 0;
          assert IsPending(s, s.pending[i].fd);
        }
    }
  }

  /** So it is aborted in a run only if the kernel refuses something. */
  lemma {:induction false} AbortsOnlyWhenRefused(s: State, run: seq<Action>)
    requires Inv(s) && !s.aborted && Legal(s, run) && forall i :: 0 <= i < |run| ==> !run[i].refuse
    ensures !End(s, run).aborted
    decreases |run|
  {
    if run != [] {
      StepKeeps(s, run[0]);
      AbortsExactly(s, run[0]);
      AbortsOnlyWhenRefused(Step(s, run[0]), run[1..]);
    }
  }
}
