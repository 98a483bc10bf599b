/** The registration table of loopy.c over the epoll backend: one mask per descriptor, the heap of
    registered descriptors, the highest of them, and the kernel's interest map. */
module EventTable {
  import opened Masks
  import opened Words

  /** `refusals` is history: how many of the kernel calls whose result is ignored were refused. */
  datatype State = State(masks: seq<Mask>, heap: set<nat>, maxfd: int, interest: map<nat, Mask>, refusals: nat)

  datatype Op = Add | Mod | Del

  /** `refuse` says that the kernel turns the call down for a reason of its own. */
  datatype Action =
    | Register(fd: nat, mask: Mask, refuse: bool)
    | RegisterWriteIfNone(fd: nat, refuse: bool)
    | Unregister(fd: nat, mask: Mask, refuse: bool)
    | Resize(size: nat)

  /** The kernel's rules: ADD wants an absent descriptor, MOD and DEL a present one. */
  predicate Accepts(interest: map<nat, Mask>, op: Op, fd: nat)
  {
    if op.Add? then fd !in interest else fd in interest
  }

  function Ctl(interest: map<nat, Mask>, op: Op, fd: nat, mask: Mask): (r: map<nat, Mask>)
  {
    if op.Del? then map x | x in interest && x != fd :: interest[x] else interest[fd := mask]
  }

  /** fdConformStorageBounds: the size is doubled until it exceeds the descriptor. */
  function Doubled(size: nat, fd: nat): (n: nat)
    requires size > 0
    decreases fd + 1 - size
  {
    if size > fd then size else Doubled(2 * size, fd)
  }

  function Grown(masks: seq<Mask>, size: nat): (r: seq<Mask>)
    requires |masks| <= size
  {
    masks + seq(size - |masks|, _ => NONE)
  }

  lemma {:induction false} DoubledGrows(size: nat, fd: nat)
    requires size > 0
    ensures size <= Doubled(size, fd) && fd < Doubled(size, fd)
    decreases fd + 1 - size
  {
    if size <= fd {
      DoubledGrows(2 * size, fd);
    }
  }

  /** The growth loop ends at the least doubling of the size above the descriptor. */
  lemma {:induction false} DoubledIsLeast(size: nat, fd: nat) returns (k: nat)
    requires size > 0
    ensures Doubled(size, fd) == size * Pow2(k) > fd
    ensures forall j: nat :: size * Pow2(j) > fd ==> k <= j
    decreases fd + 1 - size
  {
    if size > fd {
      k := 0;
    } else {
      var k' := DoubledIsLeast(2 * size, fd);
      k := k' + 1;
      DoubledPow(size, k);
      forall j: nat | size * Pow2(j) > fd ensures k <= j {
        if j > 0 { DoubledPow(size, j); }
      }
    }
  }

  lemma DoubledPow(size: nat, k: nat)
    requires k > 0
    ensures (2 * size) * Pow2(k - 1) == size * Pow2(k)
  {
    assert Pow2(k) == 2 * Pow2(k - 1);
  }

  function Conform(s: State, fd: nat): (r: State)
    requires |s.masks| > 0
    ensures fd < |r.masks|
  {
    DoubledGrows(|s.masks|, fd);
    s.(masks := Grown(s.masks, Doubled(|s.masks|, fd)))
  }

  ghost predicate IsMax(heap: set<nat>, m: int)
  {
    (heap == {} ==> m == -1) && (heap != {} ==> m in heap) && forall x :: x in heap ==> x <= m
  }

  lemma {:induction false} MaxExists(heap: set<nat>) returns (m: int)
    ensures IsMax(heap, m)
    decreases |heap|
  {
    if heap == {} {
      m := -1;
    } else {
      var x :| x in heap;
      m := MaxExists(heap - {x});
      assert forall y :: y in heap ==> y == x || y in heap - {x};
      if m < x {
        m := x;
      }
    }
  }

  /** What the heap's peek gives the loop. */
  ghost function MaxOf(heap: set<nat>): (m: int)
    ensures IsMax(heap, m)
  {
    var w := assert exists m :: IsMax(heap, m) by { var m := MaxExists(heap); }
             var m :| IsMax(heap, m); m;
    w
  }

  lemma MaxIs(heap: set<nat>, m: int)
    requires IsMax(heap, m)
    ensures m == MaxOf(heap)
  {
    assert IsMax(heap, MaxOf(heap));
  }

  /** The kernel operation of loopyInternalAddEvent and of loopyInternalDelEvent. */
  function AddOp(s: State, fd: nat): (r: Op)
    requires fd < |s.masks|
  {
    if s.masks[fd].Empty() then Add else Mod
  }

  function DelOp(s: State, fd: nat, mask: Mask): (r: Op)
    requires fd < |s.masks|
  {
    if s.masks[fd].Minus(mask).Empty() then Del else Mod
  }

  /** _loopyNewFileEvent after the table was grown. */
  ghost function New(s: State, fd: nat, mask: Mask, refuse: bool): (s': State)
    requires fd < |s.masks|
  {
    if refuse || !Accepts(s.interest, AddOp(s, fd), fd) then s
    else
      var full := mask.Or(s.masks[fd]);
      var heap := if s.masks[fd].Empty() then s.heap + {fd} else s.heap;
      s.(masks := s.masks[fd := full], heap := heap, maxfd := MaxOf(heap),
        interest := Ctl(s.interest, AddOp(s, fd), fd, full))
  }

  /** _loopyDeleteFileEvent: the kernel's answer is ignored. */
  ghost function Delete(s: State, fd: nat, mask: Mask, refuse: bool): (s': State)
  {
    if fd >= |s.masks| || s.masks[fd].Empty() then s
    else
      var left := s.masks[fd].Minus(mask);
      var refused := refuse || !Accepts(s.interest, DelOp(s, fd, mask), fd);
      var heap := if left.Empty() then s.heap - {fd} else s.heap;
      State(s.masks[fd := left], heap, if left.Empty() then MaxOf(heap) else s.maxfd,
            if refused then s.interest else Ctl(s.interest, DelOp(s, fd, mask), fd, left),
            s.refusals + if refused then 1 else 0)
  }

  predicate Enabled(s: State, a: Action)
  {
    match a
    case Register(_, mask, _) => !mask.Empty()
    case RegisterWriteIfNone(_, _) => true
    case Unregister(_, mask, _) => !mask.Empty()
    case Resize(size) => size >= |s.masks|
  }

  ghost function Step(s: State, a: Action): (s': State)
    requires |s.masks| > 0 && Enabled(s, a)
  {
    match a
    case Register(fd, mask, refuse) => New(Conform(s, fd), fd, mask, refuse)
    case RegisterWriteIfNone(fd, refuse) =>
      if Conform(s, fd).masks[fd].write then Conform(s, fd) else New(Conform(s, fd), fd, WRITE, refuse)
    case Unregister(fd, mask, refuse) => Delete(s, fd, mask, refuse)
    case Resize(size) => s.(masks := Grown(s.masks, size))
  }

  ghost predicate Registered(s: State, fd: nat)
  {
    fd < |s.masks| && !s.masks[fd].Empty()
  }

  /** The kernel watches exactly the registered descriptors, with exactly their masks. */
  ghost predicate Agrees(s: State)
  {
    && (forall fd :: fd in s.interest <==> Registered(s, fd))
    && (forall fd :: fd in s.interest ==> s.interest[fd] == s.masks[fd])
  }

  ghost predicate Inv(s: State)
  {
    && |s.masks| > 0
    && (forall fd :: fd in s.heap <==> Registered(s, fd))
    && IsMax(s.heap, s.maxfd)
    && (s.refusals == 0 ==> Agrees(s))
  }

  function Init(size: nat): (s: State)
  {
    State(seq(size, _ => NONE), {}, -1, map[], 0)
  }

  lemma NewKeeps(s: State, fd: nat, mask: Mask, refuse: bool)
    requires Inv(s) && fd < |s.masks| && !mask.Empty()
    ensures Inv(New(s, fd, mask, refuse))
  {
    var s' := New(s, fd, mask, refuse);
    forall x ensures x in s'.heap <==> Registered(s', x) {
      assert x in s.heap <==> Registered(s, x);
    }
  }

  lemma DeleteKeeps(s: State, fd: nat, mask: Mask, refuse: bool)
    requires Inv(s)
    ensures Inv(Delete(s, fd, mask, refuse))
  {
    var s' := Delete(s, fd, mask, refuse);
    forall x ensures x in s'.heap <==> Registered(s', x) {
      assert x in s.heap <==> Registered(s, x);
    }
  }

  lemma GrownKeeps(s: State, size: nat)
    requires Inv(s) && |s.masks| <= size
    ensures Inv(s.(masks := Grown(s.masks, size)))
  {
    var s' := s.(masks := Grown(s.masks, size));
    forall x ensures Registered(s', x) <==> Registered(s, x) {
    }
  }

  lemma ConformKeeps(s: State, fd: nat)
    requires Inv(s)
    ensures Inv(Conform(s, fd)) && Conform(s, fd).refusals == s.refusals
    ensures fd < |s.masks| ==> Conform(s, fd).masks[fd] == s.masks[fd]
  {
    DoubledGrows(|s.masks|, fd);
    GrownKeeps(s, Doubled(|s.masks|, fd));
  }

  lemma StepKeeps(s: State, a: Action)
    requires Inv(s) && Enabled(s, a)
    ensures Inv(Step(s, a))
  {
    match a
    case Register(fd, mask, refuse) =>
      ConformKeeps(s, fd);
      NewKeeps(Conform(s, fd), fd, mask, refuse);
    case RegisterWriteIfNone(fd, refuse) =>
      ConformKeeps(s, fd);
      NewKeeps(Conform(s, fd), fd, WRITE, refuse);
    case Unregister(fd, mask, refuse) => DeleteKeeps(s, fd, mask, refuse);
    case Resize(size) => GrownKeeps(s, size);
  }

  ghost predicate Legal(s: State, run: seq<Action>)
    requires |s.masks| > 0
    decreases |run|
  {
    run == [] || (Enabled(s, run[0]) && (SizeKept(s, run[0]); Legal(Step(s, run[0]), run[1..])))
  }

  lemma SizeKept(s: State, a: Action)
    requires |s.masks| > 0 && Enabled(s, a)
    ensures |Step(s, a).masks| > 0
  {
  }

  ghost function End(s: State, run: seq<Action>): (s': State)
    requires |s.masks| > 0 && Legal(s, run)
    decreases |run|
  {
    if run == [] then s else (SizeKept(s, run[0]); End(Step(s, run[0]), run[1..]))
  }

  lemma {:induction false} RunsKeep(s: State, run: seq<Action>)
    requires Inv(s) && Legal(s, run)
    ensures Inv(End(s, run))
    decreases |run|
  {
    if run != [] {
      StepKeeps(s, run[0]);
      RunsKeep(Step(s, run[0]), run[1..]);
    }
  }

  /** After any registrations, removals and growth, with any calls refused by the kernel: the heap
      holds exactly the registered descriptors, maxfd is the highest of them or -1, all are inside
      the table; and unless the refusal of a removal was ignored, the kernel's interest map is the
      table of masks. */
  lemma AnyRun(size: nat, run: seq<Action>, t: State)
    requires size > 0 && Legal(Init(size), run) && t == End(Init(size), run)
    ensures forall fd: nat :: fd in t.heap <==> fd < |t.masks| && !t.masks[fd].Empty()
    ensures t.heap == {} ==> t.maxfd == -1
    ensures t.heap != {} ==> t.maxfd in t.heap && forall fd: nat :: fd in t.heap ==> fd <= t.maxfd < |t.masks|
    ensures t.refusals == 0 ==> t.interest == map fd | fd in t.heap :: t.masks[fd]
  {
    RunsKeep(Init(size), run);
    if t.refusals == 0 {
      var kept := map fd | fd in t.heap :: t.masks[fd];
      assert forall fd :: fd in t.interest <==> fd in kept;
      assert forall fd :: fd in t.interest ==> t.interest[fd] == kept[fd];
    }
  }

  ghost predicate Refused(a: Action)
  {
    !a.Resize? && a.refuse
  }

  /** While the maps agree, a call fails only if the kernel refuses it. */
  lemma AddAccepted(s: State, fd: nat, mask: Mask)
    requires Inv(s) && s.refusals == 0 && fd < |s.masks| && !mask.Empty()
    ensures
      var s' := New(s, fd, mask, false);
      s'.refusals == 0 && fd in s'.interest && mask.Within(s'.interest[fd]) && s.masks[fd].Within(s'.interest[fd])
  {
    assert fd in s.interest <==> Registered(s, fd);
  }

  lemma DeleteAccepted(s: State, fd: nat, mask: Mask)
    requires Inv(s) && s.refusals == 0 && !mask.Empty()
    ensures Delete(s, fd, mask, false).refusals == 0
  {
    assert fd in s.interest <==> Registered(s, fd);
  }

  lemma AcceptedWhileAgreeing(s: State, a: Action)
    requires Inv(s) && s.refusals == 0 && Enabled(s, a) && !Refused(a)
    ensures Step(s, a).refusals == 0
  {
    match a {
      case Register(fd, mask, _) =>
        ConformKeeps(s, fd);
        AddAccepted(Conform(s, fd), fd, mask);
      case RegisterWriteIfNone(fd, _) =>
        ConformKeeps(s, fd);
        AddAccepted(Conform(s, fd), fd, WRITE);
      case Unregister(fd, mask, _) => DeleteAccepted(s, fd, mask);
      case Resize(_) =>
    }
  }

  lemma {:induction false} RunsNeverRefused(s: State, run: seq<Action>)
    requires Inv(s) && s.refusals == 0 && Legal(s, run) && forall i :: 0 <= i < |run| ==> !Refused(run[i])
    ensures End(s, run).refusals == 0
    decreases |run|
  {
    if run != [] {
      AcceptedWhileAgreeing(s, run[0]);
      StepKeeps(s, run[0]);
      RunsNeverRefused(Step(s, run[0]), run[1..]);
    }
  }

  /** ADD is used on absent descriptors only, MOD and DEL on present ones only: in a run in which the kernel
      turns nothing down for reasons of its own no call ever fails, and every registration takes effect. */
  lemma OnlyRefusalsFail(size: nat, run: seq<Action>, t: State, fd: nat, mask: Mask)
    requires size > 0 && !mask.Empty() && Legal(Init(size), run) && t == End(Init(size), run)
    requires forall i :: 0 <= i < |run| ==> !Refused(run[i])
    ensures t.refusals == 0 && |t.masks| > 0
    ensures
      var t' := Step(t, Register(fd, mask, false));
      && fd in t'.interest && mask.Within(t'.interest[fd])
      && (fd < |t.masks| ==> t.masks[fd].Within(t'.interest[fd]))
  {
    RunsKeep(Init(size), run);
    RunsNeverRefused(Init(size), run);
    ConformKeeps(t, fd);
    AddAccepted(Conform(t, fd), fd, mask);
  }

  /** A removal keeps the two maps in agreement exactly if it is not refused or has nothing to take away. */
  lemma RemovalAgreesExactly(s: State, fd: nat, mask: Mask, refuse: bool)
    requires Inv(s) && Agrees(s) && !mask.Empty()
    ensures Agrees(Delete(s, fd, mask, refuse)) <==> !refuse || fd >= |s.masks| || s.masks[fd].And(mask).Empty()
  {
    var s' := Delete(s, fd, mask, refuse);
    assert fd in s.interest <==> Registered(s, fd);
    if fd < |s.masks| && !s.masks[fd].Empty() {
      assert Registered(s', fd) <==> !s'.masks[fd].Empty();
      if !refuse || s.masks[fd].And(mask).Empty() {
        forall x ensures x in s'.interest <==> Registered(s', x) {
          assert x in s.interest <==> Registered(s, x);
        }
      }
    }
  }

  /** Runs of one step, and of one step more in front. */
  lemma Single(s: State, a: Action)
    requires |s.masks| > 0 && Enabled(s, a)
    ensures Legal(s, [a]) && End(s, [a]) == Step(s, a)
  {
    assert [a][1..] == [];
  }

  lemma InFront(s: State, a: Action, run: seq<Action>)
    requires |s.masks| > 0 && Enabled(s, a) && |Step(s, a).masks| > 0 && Legal(Step(s, a), run)
    ensures Legal(s, [a] + run) && End(s, [a] + run) == End(Step(s, a), run)
  {
    assert ([a] + run)[1..] == run;
  }

  /** A removal that epoll refuses: the table and the heap have forgotten the descriptor, the kernel has not. */
  lemma RefusedRemovalDisagrees(size: nat) returns (run: seq<Action>, t: State)
    requires size > 3
    ensures Legal(Init(size), run) && t == End(Init(size), run)
    ensures t.heap == {} && t.maxfd == -1 && t.masks[..] == Init(size).masks && t.interest == map[3 := READ]
  {
    var a, b, s0 := Register(3, READ, false), Unregister(3, READ, true), Init(size);
    var s1 := Step(s0, a);
    t := Step(s1, b);
    assert Conform(s0, 3) == s0;
    MaxIs({}, -1);
    assert s1.heap == {3} && t.heap == {} && t.masks == s0.masks;
    Single(s1, b);
    run := [a] + [b];
    InFront(s0, a, [b]);
  }

  /** Whether the descriptor is registered for reading, or for writing. */
  predicate Listens(s: State, fd: nat, write: bool)
  {
    fd < |s.masks| && Names(s.masks[fd], write)
  }

  /** The kernel takes a registration of the descriptor: its own ADD or MOD, unless it turns that down. */
  ghost predicate Taken(s: State, fd: nat, refuse: bool)
  {
    !refuse && (fd in s.interest <==> fd < |s.masks| && s.masks[fd] != Mask(false, false))
  }

  /** What the latest call that named reading, or writing, on the descriptor and took effect has left, if
      `before` was so at the start. */
  ghost function Wanted(s: State, run: seq<Action>, fd: nat, write: bool, before: bool): (b: bool)
    requires |s.masks| > 0 && Legal(s, run)
    decreases |run|
  {
    if run == [] then before
    else
      SizeKept(s, run[0]);
      Wanted(Step(s, run[0]), run[1..], fd, write, WantedAfter(s, run[0], fd, write, before))
  }

  ghost predicate WantedAfter(s: State, a: Action, fd: nat, write: bool, before: bool)
  {
    match a
    case Register(fd', mask, refuse) =>
      before || (fd' == fd && (if write then mask.write else mask.read) && Taken(s, fd, refuse))
    case RegisterWriteIfNone(fd', refuse) => before || (fd' == fd && write && Taken(s, fd, refuse))
    case Unregister(fd', mask, _) => before && !(fd' == fd && (if write then mask.write else mask.read))
    case Resize(_) => before
  }

  lemma ListensAfter(s: State, a: Action, fd: nat, write: bool)
    requires Inv(s) && Enabled(s, a)
    ensures Listens(Step(s, a), fd, write) <==> WantedAfter(s, a, fd, write, Listens(s, fd, write))
  {
    match a
    case Register(x, _, _) => DoubledGrows(|s.masks|, x);
    case RegisterWriteIfNone(x, _) => DoubledGrows(|s.masks|, x);
    case _ =>
  }

  /** In every run a descriptor is registered for reading, or for writing, exactly as the latest call that
      named that and took effect on it left it; calls on other descriptors do not matter. */
  lemma {:induction false} CallsDecide(s: State, run: seq<Action>, fd: nat, write: bool)
    requires Inv(s) && Legal(s, run)
    ensures Listens(End(s, run), fd, write) <==> Wanted(s, run, fd, write, Listens(s, fd, write))
    decreases |run|
  {
    if run != [] {
      StepKeeps(s, run[0]);
      ListensAfter(s, run[0], fd, write);
      CallsDecide(Step(s, run[0]), run[1..], fd, write);
    }
  }

  /** The table is at least as large as every growth asked for, holds every descriptor that was registered,
      and never shrinks. */
  lemma {:induction false} TableReaches(s: State, run: seq<Action>)
    requires Inv(s) && Legal(s, run)
    ensures |End(s, run).masks| >= |s.masks|
    ensures forall i :: 0 <= i < |run| && run[i].Resize? ==> run[i].size <= |End(s, run).masks|
    ensures forall i :: 0 <= i < |run| && run[i].Register? ==> run[i].fd < |End(s, run).masks|
    decreases |run|
  {
    if run != [] {
      StepKeeps(s, run[0]);
      if run[0].Register? || run[0].RegisterWriteIfNone? { DoubledGrows(|s.masks|, run[0].fd); }
      TableReaches(Step(s, run[0]), run[1..]);
      forall i | 0 <= i < |run| && run[i].Resize? ensures run[i].size <= |End(s, run).masks| {
        if i > 0 { assert run[1..][i - 1] == run[i]; }
      }
      forall i | 0 <= i < |run| && run[i].Register? ensures run[i].fd < |End(s, run).masks| {
        if i > 0 { assert run[1..][i - 1] == run[i]; }
      }
    }
  }
}
