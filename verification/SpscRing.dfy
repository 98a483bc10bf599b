/** The lock-free single-producer single-consumer ring of loopyChannel.c: one step per atomic
    access, per copied byte and per local index check, in any interleaving of the two threads. */
module SpscRing {
  import opened Words

  newtype byte = x: int | 0 <= x < 256
  type Elem = seq<byte>

  /** `ring` is log2 of the number of slots, so the index mask is 2^ring - 1. */
  datatype Config = Config(capacity: nat, size: nat, ring: nat) {
    predicate Valid() {
      capacity >= 1 && size >= 1 && capacity < Pow2(ring) && ring <= 63
    }

    function Slots(): (n: nat) { Pow2(ring) }

    function Slot(index: nat): (n: nat) { And(index, Pow2(ring) - 1) }

    function Count(head: nat, tail: nat): (n: nat)
      requires head < WORD && tail < WORD
    {
      And(WordSub(head, tail), Pow2(ring) - 1)
    }
  }

  /** The shared words and buffer; `sent`, `received`, `seenTail` and `seenHead` are history:
      what was published and taken so far, and the unwrapped values behind the cached indices. */
  datatype Ring = Ring(head: nat, cachedTail: nat, tail: nat, cachedHead: nat, slots: seq<Elem>,
                       sent: seq<Elem>, received: seq<Elem>, seenTail: nat, seenHead: nat)

  datatype Mode = NonBlocking | Blocking(timed: bool)

  datatype Producer =
    | PIdle
    | PGate(x: Elem, mode: Mode)
    | PLoad(x: Elem, mode: Mode)
    | PCheck(x: Elem, mode: Mode, h: nat)
    | PRefresh(x: Elem, mode: Mode, h: nat)
    | PCopy(x: Elem, mode: Mode, h: nat, done: set<nat>)
    | PFailed(x: Elem, mode: Mode)

  /** `checkedAt` in CEmpty is history: how much had been sent when the ring was seen empty. */
  datatype Consumer =
    | CIdle
    | CLoad(mode: Mode)
    | CCheck(mode: Mode, t: nat)
    | CRefresh(mode: Mode, t: nat)
    | CCopy(mode: Mode, t: nat, out: Elem, done: set<nat>)
    | CEmpty(mode: Mode, checkedAt: nat)

  datatype State = State(r: Ring, closed: bool, p: Producer, c: Consumer)

  datatype Action =
    | Send(x: Elem, sendMode: Mode) | ProducerStep | ProducerByte(i: nat) | SendTimeout
    | Recv(recvMode: Mode) | ConsumerStep | ConsumerByte(i: nat) | RecvTimeout
    | Close

  function Init(cfg: Config): (s: State)
  {
    State(Ring(0, 0, 0, 0, seq(cfg.Slots(), _ => seq(cfg.size, _ => 0)), [], [], 0, 0), false, PIdle, CIdle)
  }

  ghost predicate Copied(cfg: Config, done: set<nat>)
  {
    forall i: nat :: i < cfg.size ==> i in done
  }

  ghost predicate Enabled(cfg: Config, s: State, a: Action)
  {
    match a
    case Send(_, _) => s.p.PIdle?
    case ProducerStep => !s.p.PIdle? && (s.p.PCopy? ==> Copied(cfg, s.p.done))
    case ProducerByte(i) => s.p.PCopy? && i < cfg.size && i !in s.p.done
    case SendTimeout => s.p.PFailed? && s.p.mode == Blocking(true)
    case Recv(_) => s.c.CIdle?
    case ConsumerStep => !s.c.CIdle? && (s.c.CCopy? ==> Copied(cfg, s.c.done))
    case ConsumerByte(i) => s.c.CCopy? && i < cfg.size && i !in s.c.done
    case RecvTimeout => s.c.CEmpty? && s.c.mode == Blocking(true)
    case Close => true
  }

  ghost predicate RingInv(cfg: Config, r: Ring)
  {
    && |r.slots| == cfg.Slots()
    && (forall i :: 0 <= i < |r.slots| ==> |r.slots[i]| == cfg.size)
    && (forall i :: 0 <= i < |r.sent| ==> |r.sent[i]| == cfg.size)
    && r.received <= r.sent
    && |r.sent| <= |r.received| + cfg.capacity
    && r.head == |r.sent| % WORD && r.tail == |r.received| % WORD
    && r.seenTail <= |r.received| && |r.sent| <= r.seenTail + cfg.capacity
    && r.cachedTail == r.seenTail % WORD
    && |r.received| <= r.seenHead <= |r.sent| && r.cachedHead == r.seenHead % WORD
    && (forall i :: |r.received| <= i < |r.sent| ==> r.slots[i % cfg.Slots()] == r.sent[i])
  }

  ghost predicate ProducerInv(cfg: Config, r: Ring, p: Producer)
    requires RingInv(cfg, r)
  {
    && (p.PCheck? || p.PRefresh? || p.PCopy? ==> |p.x| == cfg.size && p.h == r.head)
    && (p.PCopy? ==>
          && |r.sent| < r.seenTail + cfg.capacity
          && (forall i: nat :: i in p.done ==> i < cfg.size && r.slots[|r.sent| % cfg.Slots()][i] == p.x[i]))
  }

  ghost predicate ConsumerInv(cfg: Config, r: Ring, c: Consumer)
    requires RingInv(cfg, r)
  {
    && (c.CCheck? || c.CRefresh? || c.CCopy? ==> c.t == r.tail)
    && (c.CCopy? ==>
          && |r.received| < r.seenHead && |c.out| == cfg.size
          && (forall i: nat :: i in c.done ==> i < cfg.size && c.out[i] == r.sent[|r.received|][i]))
    && (c.CEmpty? ==> |r.received| == c.checkedAt)
  }

  ghost predicate Inv(cfg: Config, s: State)
  {
    && RingInv(cfg, s.r)
    && ProducerInv(cfg, s.r, s.p)
    && ConsumerInv(cfg, s.r, s.c)
  }

  function StepProducer(cfg: Config, s: State): (s': State)
    requires Inv(cfg, s)
  {
    var r := s.r;
    match s.p
    case PIdle => s
    case PGate(x, mode) => s.(p := if s.closed then PIdle else PLoad(x, mode))
    case PLoad(x, mode) => s.(p := if |x| != cfg.size then PFailed(x, mode) else PCheck(x, mode, r.head))
    case PCheck(x, mode, h) =>
      s.(p := if cfg.Count(h, r.cachedTail) >= cfg.capacity then PRefresh(x, mode, h) else PCopy(x, mode, h, {}))
    case PRefresh(x, mode, h) =>
      s.(r := r.(cachedTail := r.tail, seenTail := |r.received|),
         p := if cfg.Count(h, r.tail) >= cfg.capacity then PFailed(x, mode) else PCopy(x, mode, h, {}))
    case PCopy(x, mode, h, done) =>
      s.(r := r.(head := (h + 1) % WORD, sent := r.sent + [x]), p := PIdle)
    case PFailed(x, mode) =>
      s.(p := if mode.NonBlocking? || s.closed then PIdle else PLoad(x, mode))
  }

  function StepConsumer(cfg: Config, s: State): (s': State)
    requires Inv(cfg, s)
  {
    var r := s.r;
    match s.c
    case CIdle => s
    case CLoad(mode) => s.(c := CCheck(mode, r.tail))
    case CCheck(mode, t) =>
      s.(c := if t == r.cachedHead then CRefresh(mode, t) else CCopy(mode, t, seq(cfg.size, _ => 0), {}))
    case CRefresh(mode, t) =>
      s.(r := r.(cachedHead := r.head, seenHead := |r.sent|),
         c := if t == r.head then CEmpty(mode, |r.sent|) else CCopy(mode, t, seq(cfg.size, _ => 0), {}))
    case CCopy(mode, t, out, done) =>
      s.(r := r.(tail := (t + 1) % WORD, received := r.received + [out]), c := CIdle)
    case CEmpty(mode, _) =>
      s.(c := if mode.NonBlocking? || s.closed then CIdle else CLoad(mode))
  }

  ghost function Step(cfg: Config, s: State, a: Action): (s': State)
    requires cfg.Valid() && Inv(cfg, s) && Enabled(cfg, s, a)
  {
    match a
    case Send(x, mode) => s.(p := PGate(x, mode))
    case ProducerStep => StepProducer(cfg, s)
    case ProducerByte(i) =>
      SlotOfHead(cfg, s.r);
      var slot := cfg.Slot(s.p.h);
      s.(r := s.r.(slots := s.r.slots[slot := s.r.slots[slot][i := s.p.x[i]]]),
         p := s.p.(done := s.p.done + {i}))
    case SendTimeout => s.(p := PIdle)
    case Recv(mode) => s.(c := CLoad(mode))
    case ConsumerStep => StepConsumer(cfg, s)
    case ConsumerByte(i) =>
      SlotOfTail(cfg, s.r);
      s.(c := s.c.(out := s.c.out[i := s.r.slots[cfg.Slot(s.c.t)][i]], done := s.c.done + {i}))
    case RecvTimeout => s.(c := CIdle)
    case Close => s.(closed := true)
  }

  lemma SlotOfHead(cfg: Config, r: Ring)
    requires cfg.Valid() && RingInv(cfg, r)
    ensures cfg.Slot(r.head) == |r.sent| % cfg.Slots()
  {
    WordSlot(|r.sent|, cfg.ring);
  }

  lemma SlotOfTail(cfg: Config, r: Ring)
    requires cfg.Valid() && RingInv(cfg, r)
    ensures cfg.Slot(r.tail) == |r.received| % cfg.Slots()
  {
    WordSlot(|r.received|, cfg.ring);
  }

  /** The masked count the producer computes is the number of elements past the index it holds. */
  lemma ProducerCount(cfg: Config, r: Ring)
    requires cfg.Valid() && RingInv(cfg, r)
    ensures cfg.Count(r.head, r.cachedTail) == |r.sent| - r.seenTail
    ensures cfg.Count(r.head, r.tail) == |r.sent| - |r.received|
  {
    WordDifference(|r.sent|, r.seenTail, cfg.ring);
    WordDifference(|r.sent|, |r.received|, cfg.ring);
  }

  /** The index comparison the consumer makes tells exactly whether something is left. */
  lemma ConsumerComparison(cfg: Config, r: Ring)
    requires cfg.Valid() && RingInv(cfg, r)
    ensures r.tail == r.cachedHead <==> |r.received| == r.seenHead
    ensures r.tail == r.head <==> r.received == r.sent
  {
    WordIsPow2();
    Pow2Monotone(cfg.ring, 64);
    WrappedEqual(r.seenHead, |r.received|, WORD);
    WrappedEqual(|r.sent|, |r.received|, WORD);
    if |r.received| == |r.sent| { assert r.received == r.sent; }
  }

  /** The slot being written holds no element that is still to be received. */
  lemma WritesOnlyFreeSlot(cfg: Config, r: Ring, i: nat)
    requires cfg.Valid() && RingInv(cfg, r) && |r.sent| < |r.received| + cfg.Slots()
    requires |r.received| <= i < |r.sent|
    ensures i % cfg.Slots() != cfg.Slot(r.head)
  {
    SlotOfHead(cfg, r);
    DistinctSlots(i, |r.sent|, cfg.Slots());
  }

  lemma ProducerByteKeeps(cfg: Config, s: State, i: nat)
    requires cfg.Valid() && Inv(cfg, s) && Enabled(cfg, s, ProducerByte(i))
    ensures Inv(cfg, Step(cfg, s, ProducerByte(i)))
  {
    var r, r' := s.r, Step(cfg, s, ProducerByte(i)).r;
    SlotOfHead(cfg, r);
    forall j | |r.received| <= j < |r.sent| ensures r'.slots[j % cfg.Slots()] == r.sent[j] {
      WritesOnlyFreeSlot(cfg, r, j);
    }
  }

  lemma PublishKeeps(cfg: Config, s: State)
    requires cfg.Valid() && Inv(cfg, s) && s.p.PCopy? && Enabled(cfg, s, ProducerStep)
    ensures Inv(cfg, Step(cfg, s, ProducerStep))
  {
    var r, r' := s.r, Step(cfg, s, ProducerStep).r;
    NextMod(|r.sent|, WORD);
    var slot := |r.sent| % cfg.Slots();
    assert r.slots[slot] == s.p.x;
    assert r'.sent[..|r.sent|] == r.sent;
  }

  lemma TakeKeeps(cfg: Config, s: State)
    requires cfg.Valid() && Inv(cfg, s) && s.c.CCopy? && Enabled(cfg, s, ConsumerStep)
    ensures Inv(cfg, Step(cfg, s, ConsumerStep))
    ensures s.c.out == s.r.sent[|s.r.received|]
  {
    var r := s.r;
    NextMod(|r.received|, WORD);
    assert s.c.out == r.sent[|r.received|];
    assert r.received + [s.c.out] == r.sent[..|r.received| + 1];
  }

  lemma ProducerStepKeeps(cfg: Config, s: State)
    requires cfg.Valid() && Inv(cfg, s) && Enabled(cfg, s, ProducerStep)
    ensures Inv(cfg, StepProducer(cfg, s))
  {
    if s.p.PCopy? {
      PublishKeeps(cfg, s);
    } else if s.p.PCheck? {
      ProducerCount(cfg, s.r);
    } else if s.p.PRefresh? {
      RefreshKeeps(cfg, s);
    }
  }

  lemma RefreshKeeps(cfg: Config, s: State)
    requires cfg.Valid() && Inv(cfg, s) && s.p.PRefresh?
    ensures Inv(cfg, StepProducer(cfg, s))
  {
    ProducerCount(cfg, s.r.(cachedTail := s.r.tail, seenTail := |s.r.received|));
  }

  lemma ConsumerStepKeeps(cfg: Config, s: State)
    requires cfg.Valid() && Inv(cfg, s) && Enabled(cfg, s, ConsumerStep)
    ensures Inv(cfg, StepConsumer(cfg, s))
  {
    if s.c.CCopy? {
      TakeKeeps(cfg, s);
    } else if s.c.CCheck? || s.c.CRefresh? {
      ConsumerComparison(cfg, s.r);
    }
  }

  /** Every step of either thread keeps the invariant. */
  lemma StepKeeps(cfg: Config, s: State, a: Action)
    requires cfg.Valid() && Inv(cfg, s) && Enabled(cfg, s, a)
    ensures Inv(cfg, Step(cfg, s, a))
  {
    match a
    case ProducerStep => ProducerStepKeeps(cfg, s);
    case ProducerByte(i) => ProducerByteKeeps(cfg, s, i);
    case ConsumerStep => ConsumerStepKeeps(cfg, s);
    case ConsumerByte(i) => SlotOfTail(cfg, s.r);
    case _ =>
  }

  lemma InitHolds(cfg: Config)
    requires cfg.Valid()
    ensures Inv(cfg, Init(cfg))
  {
    Pow2Monotone(0, 64);
  }

  /** `t` is reached from `s` by the actions `run`, each enabled when it is taken. */
  ghost predicate Runs(cfg: Config, s: State, run: seq<Action>, t: State)
    requires cfg.Valid() && Inv(cfg, s)
    decreases |run|
  {
    if run == [] then s == t
    else
      Enabled(cfg, s, run[0]) &&
      (StepKeeps(cfg, s, run[0]); Runs(cfg, Step(cfg, s, run[0]), run[1..], t))
  }

  lemma {:induction false} RunsKeep(cfg: Config, s: State, run: seq<Action>, t: State)
    requires cfg.Valid() && Inv(cfg, s) && Runs(cfg, s, run, t)
    ensures Inv(cfg, t)
    decreases |run|
  {
    if run != [] {
      StepKeeps(cfg, s, run[0]);
      RunsKeep(cfg, Step(cfg, s, run[0]), run[1..], t);
    }
  }

  /** `t` is reached by a run from the start. */
  ghost predicate Reaches(cfg: Config, run: seq<Action>, t: State)
  {
    cfg.Valid() && (InitHolds(cfg); Runs(cfg, Init(cfg), run, t))
  }

  function Queue(r: Ring): (result: seq<Elem>)
    requires r.received <= r.sent
  {
    r.sent[|r.received|..]
  }

  /** In every interleaving: what was received is an in-order prefix of what was sent, at most
      `capacity` elements are in flight, and the slot under the producer's pen is a free one. */
  lemma EveryInterleaving(cfg: Config, run: seq<Action>, t: State)
    requires Reaches(cfg, run, t)
    ensures Inv(cfg, t) && t.r.received <= t.r.sent && |Queue(t.r)| <= cfg.capacity
    ensures cfg.Count(t.r.head, t.r.tail) == |Queue(t.r)|
    ensures t.p.PCopy? ==> forall i: nat :: |t.r.received| <= i < |t.r.sent| ==> i % cfg.Slots() != cfg.Slot(t.p.h)
    ensures t.c.CCopy? ==> |Queue(t.r)| > 0 && forall i :: i in t.c.done ==>
              i < |t.c.out| && t.c.out[i] == Queue(t.r)[0][i]
  {
    InitHolds(cfg);
    RunsKeep(cfg, Init(cfg), run, t);
    ProducerCount(cfg, t.r);
    if t.p.PCopy? {
      forall i: nat | |t.r.received| <= i < |t.r.sent| ensures i % cfg.Slots() != cfg.Slot(t.p.h) {
        WritesOnlyFreeSlot(cfg, t.r, i);
      }
    }
  }

  /** Every step is a step of a bounded FIFO queue: append one, take the first, or neither. */
  lemma StepRefinesFifo(cfg: Config, s: State, a: Action)
    requires cfg.Valid() && Inv(cfg, s) && Enabled(cfg, s, a)
    ensures Inv(cfg, Step(cfg, s, a))
    ensures
      var q, q' := Queue(s.r), Queue(Step(cfg, s, a).r);
      if a.ProducerStep? && s.p.PCopy? then |q| < cfg.capacity && q' == q + [s.p.x]
      else if a.ConsumerStep? && s.c.CCopy? then |q| > 0 && s.c.out == q[0] && q' == q[1..]
      else q' == q
  {
    StepKeeps(cfg, s, a);
    if a.ConsumerStep? && s.c.CCopy? {
      TakeKeeps(cfg, s);
    }
  }

  /** A try-send gives up exactly on a wrong length or, at its refresh, on a full ring. */
  lemma SendFailsExactlyWhenFull(cfg: Config, s: State)
    requires cfg.Valid() && Inv(cfg, s) && Enabled(cfg, s, ProducerStep)
    ensures StepProducer(cfg, s).p.PFailed? <==>
            (s.p.PLoad? && |s.p.x| != cfg.size) || (s.p.PRefresh? && |Queue(s.r)| == cfg.capacity)
    ensures StepProducer(cfg, s).p.PCopy? ==> |Queue(s.r)| < cfg.capacity
  {
    ProducerCount(cfg, s.r);
  }

  /** A try-receive reports an empty ring exactly when, at its refresh, nothing was in it. */
  lemma RecvFailsExactlyWhenEmpty(cfg: Config, s: State)
    requires cfg.Valid() && Inv(cfg, s) && Enabled(cfg, s, ConsumerStep)
    ensures StepConsumer(cfg, s).c.CEmpty? <==> s.c.CRefresh? && Queue(s.r) == []
    ensures StepConsumer(cfg, s).c.CCopy? ==> Queue(s.r) != []
  {
    ConsumerComparison(cfg, s.r);
  }

  /** The next consumer step makes a blocking receive return CLOSED. */
  ghost predicate ReturnsClosed(s: State)
  {
    s.c.CEmpty? && s.c.mode.Blocking? && s.closed
  }

  /** What a blocking receive leaves behind when it returns CLOSED is exactly what was sent after
      its emptiness check: CLOSED is final if and only if nothing was published in between. */
  lemma ClosedLeavesLateSends(cfg: Config, run: seq<Action>, t: State)
    requires Reaches(cfg, run, t) && ReturnsClosed(t)
    ensures t.r.received <= t.r.sent && t.c.checkedAt <= |t.r.sent|
    ensures Queue(t.r) == t.r.sent[t.c.checkedAt..]
    ensures Queue(t.r) == [] <==> |t.r.sent| == t.c.checkedAt
  {
    InitHolds(cfg);
    RunsKeep(cfg, Init(cfg), run, t);
  }

  lemma {:induction false} RunsAppend(cfg: Config, s: State, run: seq<Action>, t: State, a: Action)
    requires cfg.Valid() && Inv(cfg, s) && Runs(cfg, s, run, t) && Inv(cfg, t) && Enabled(cfg, t, a)
    ensures Runs(cfg, s, run + [a], Step(cfg, t, a))
    decreases |run|
  {
    var all := run + [a];
    StepKeeps(cfg, s, all[0]);
    if run == [] {
      StepKeeps(cfg, t, a);
      assert all[1..] == [];
    } else {
      assert all[1..] == run[1..] + [a];
      RunsAppend(cfg, Step(cfg, s, run[0]), run[1..], t, a);
    }
  }

  /** A blocking receive can return CLOSED while an element is buffered: it sees the ring empty,
      an element is published, the channel is closed, and only then does it look at the flag. */
  lemma ClosedWithBacklog(x: Elem) returns (cfg: Config, run: seq<Action>, t: State)
    requires |x| == 1
    ensures Reaches(cfg, run, t)
    ensures ReturnsClosed(t) && t.r.received == [] && t.r.sent == [x]
  {
    cfg := Config(1, 1, 1);
    InitHolds(cfg);
    run, t := SeesEmpty(cfg);
    run, t := Publishes(cfg, run, t, x);
    run, t := Extend(cfg, run, t, Close);
  }

  lemma SeesEmpty(cfg: Config) returns (run: seq<Action>, t: State)
    requires cfg.Valid() && Inv(cfg, Init(cfg))
    ensures Runs(cfg, Init(cfg), run, t) && Inv(cfg, t)
    ensures t == Init(cfg).(c := CEmpty(Blocking(false), 0))
  {
    run, t := Extend(cfg, [], Init(cfg), Recv(Blocking(false)));
    run, t := Extend(cfg, run, t, ConsumerStep);
    run, t := Extend(cfg, run, t, ConsumerStep);
    run, t := Extend(cfg, run, t, ConsumerStep);
  }

  lemma Publishes(cfg: Config, run0: seq<Action>, s: State, x: Elem) returns (run: seq<Action>, t: State)
    requires cfg.Valid() && Inv(cfg, Init(cfg)) && Runs(cfg, Init(cfg), run0, s) && Inv(cfg, s)
    requires s.p.PIdle? && !s.closed && |x| == cfg.size == 1 && |s.r.sent| < s.r.seenTail + cfg.capacity
    ensures Runs(cfg, Init(cfg), run, t) && Inv(cfg, t)
    ensures t.c == s.c && t.closed == s.closed && t.r.sent == s.r.sent + [x] && t.r.received == s.r.received
  {
    run, t := Extend(cfg, run0, s, Send(x, NonBlocking));
    run, t := Extend(cfg, run, t, ProducerStep);
    run, t := Extend(cfg, run, t, ProducerStep);
    assert t == s.(p := PCheck(x, NonBlocking, s.r.head));
    ProducerCount(cfg, t.r);
    run, t := Extend(cfg, run, t, ProducerStep);
    assert t == s.(p := PCopy(x, NonBlocking, s.r.head, {}));
    run, t := Extend(cfg, run, t, ProducerByte(0));
    assert t.p.done == {0};
    run, t := Extend(cfg, run, t, ProducerStep);
  }

  lemma Extend(cfg: Config, run: seq<Action>, s: State, a: Action) returns (run': seq<Action>, t: State)
    requires cfg.Valid() && Inv(cfg, Init(cfg)) && Runs(cfg, Init(cfg), run, s) && Inv(cfg, s) && Enabled(cfg, s, a)
    ensures Inv(cfg, t) && t == Step(cfg, s, a) && Runs(cfg, Init(cfg), run', t)
  {
    RunsAppend(cfg, Init(cfg), run, s, a);
    StepKeeps(cfg, s, a);
    run', t := run + [a], Step(cfg, s, a);
  }

  /** The producer can still publish an element, now or after closing: it is inside a send that has
      passed the gate with an element of the right length, or can start or go on to one because the channel
      is open. A blocking send of a wrong length without a timeout never ends while the channel is open. */
  ghost predicate MayPublish(cfg: Config, s: State)
  {
    match s.p
    case PIdle => !s.closed
    case PGate(x, mode) => !s.closed && (|x| == cfg.size || mode != Blocking(false))
    case PLoad(x, mode) => |x| == cfg.size || (!s.closed && mode != Blocking(false))
    case PCheck(_, _, _) => true
    case PRefresh(_, _, _) => true
    case PCopy(_, _, _, _) => true
    case PFailed(x, mode) => !s.closed && (|x| == cfg.size || mode != Blocking(false))
  }

  ghost predicate NoRecv(run: seq<Action>)
  {
    forall i :: 0 <= i < |run| ==> !run[i].Recv?
  }

  /** A blocking receive that starts in `s` comes, after `run`, to return CLOSED in `t`. */
  ghost predicate CallReturnsClosed(cfg: Config, s: State, mode: Mode, run: seq<Action>, t: State)
    requires cfg.Valid() && Inv(cfg, s) && s.c.CIdle?
  {
    StepKeeps(cfg, s, Recv(mode));
    Runs(cfg, Step(cfg, s, Recv(mode)), run, t) && NoRecv(run) && ReturnsClosed(t)
  }

  lemma StaysQuiet(cfg: Config, s: State, a: Action)
    requires cfg.Valid() && Inv(cfg, s) && Enabled(cfg, s, a) && !MayPublish(cfg, s)
    ensures !MayPublish(cfg, Step(cfg, s, a)) && Step(cfg, s, a).r.sent == s.r.sent
  {
  }

  /** If nothing can be published any more, CLOSED leaves nothing. */
  lemma {:induction false} QuietLeavesNothing(cfg: Config, s: State, run: seq<Action>, t: State)
    requires cfg.Valid() && Inv(cfg, s) && !MayPublish(cfg, s) && Runs(cfg, s, run, t) && ReturnsClosed(t)
    requires s.c.CEmpty? ==> s.c.checkedAt == |s.r.sent|
    ensures t.r.received <= t.r.sent && Queue(t.r) == []
    decreases |run|
  {
    if run != [] {
      StepKeeps(cfg, s, run[0]);
      StaysQuiet(cfg, s, run[0]);
      QuietLeavesNothing(cfg, Step(cfg, s, run[0]), run[1..], t);
    }
  }

  ghost predicate WillTake(s: State)
  {
    s.c.CIdle? || (!s.c.CEmpty? && s.r.received <= s.r.sent && Queue(s.r) != [])
  }

  lemma StillTakes(cfg: Config, s: State, a: Action)
    requires cfg.Valid() && Inv(cfg, s) && Enabled(cfg, s, a) && WillTake(s) && !a.Recv?
    ensures WillTake(Step(cfg, s, a))
  {
    StepRefinesFifo(cfg, s, a);
    ConsumerComparison(cfg, s.r);
  }

  /** A receive that starts with something in the ring takes it and does not return CLOSED. */
  lemma {:induction false} TakesWhatIsThere(cfg: Config, s: State, run: seq<Action>, t: State)
    requires cfg.Valid() && Inv(cfg, s) && WillTake(s) && Runs(cfg, s, run, t) && NoRecv(run)
    ensures !ReturnsClosed(t)
    decreases |run|
  {
    if run != [] {
      StepKeeps(cfg, s, run[0]);
      StillTakes(cfg, s, run[0]);
      assert NoRecv(run[1..]);
      TakesWhatIsThere(cfg, Step(cfg, s, run[0]), run[1..], t);
    }
  }

  /** A run from `b` without a receive has come to `s`, whose consumer found the ring empty. */
  ghost predicate FoundEmpty(cfg: Config, b: State, run: seq<Action>, s: State)
  {
    && cfg.Valid() && Inv(cfg, b) && Runs(cfg, b, run, s) && NoRecv(run) && Inv(cfg, s)
    && s.c.CEmpty? && s.c.mode.Blocking? && s.r.received == s.r.sent
  }

  /** The run went on to publish one element behind the consumer's back. */
  ghost predicate Slipped(cfg: Config, b: State, run: seq<Action>, s: State)
  {
    && cfg.Valid() && Inv(cfg, b) && Runs(cfg, b, run, s) && NoRecv(run) && Inv(cfg, s)
    && s.c.CEmpty? && s.c.mode.Blocking? && |s.r.received| < |s.r.sent|
  }

  lemma Append(cfg: Config, b: State, run: seq<Action>, s: State, a: Action) returns (run': seq<Action>, t: State)
    requires cfg.Valid() && Inv(cfg, b) && Runs(cfg, b, run, s) && NoRecv(run) && Inv(cfg, s)
    requires Enabled(cfg, s, a) && !a.Recv?
    ensures t == Step(cfg, s, a) && Inv(cfg, t) && Runs(cfg, b, run', t) && NoRecv(run')
  {
    StepKeeps(cfg, s, a);
    RunsAppend(cfg, b, run, s, a);
    run', t := run + [a], Step(cfg, s, a);
  }

  /** The bytes from `i` on are copied. */
  lemma {:induction false} CopiesOn(cfg: Config, b: State, run0: seq<Action>, s: State, i: nat)
      returns (run: seq<Action>, t: State)
    requires FoundEmpty(cfg, b, run0, s) && s.p.PCopy? && i <= cfg.size && forall j: nat :: j < i ==> j in s.p.done
    ensures FoundEmpty(cfg, b, run, t) && t.p.PCopy? && Copied(cfg, t.p.done)
    decreases cfg.size - i
  {
    run, t := run0, s;
    if i < cfg.size {
      if i !in s.p.done {
        run, t := Append(cfg, b, run0, s, ProducerByte(i));
      }
      run, t := CopiesOn(cfg, b, run, t, i + 1);
    }
  }

  lemma SlipsFromCopy(cfg: Config, b: State, run0: seq<Action>, s: State) returns (run: seq<Action>, t: State)
    requires FoundEmpty(cfg, b, run0, s) && s.p.PCopy?
    ensures Slipped(cfg, b, run, t)
  {
    run, t := CopiesOn(cfg, b, run0, s, 0);
    run, t := Append(cfg, b, run, t, ProducerStep);
  }

  lemma SlipsFromCheck(cfg: Config, b: State, run0: seq<Action>, s: State) returns (run: seq<Action>, t: State)
    requires FoundEmpty(cfg, b, run0, s) && (s.p.PCheck? || s.p.PRefresh?)
    ensures Slipped(cfg, b, run, t)
  {
    ProducerCount(cfg, s.r);
    run, t := Append(cfg, b, run0, s, ProducerStep);
    if t.p.PRefresh? {
      ProducerCount(cfg, t.r);
      run, t := Append(cfg, b, run, t, ProducerStep);
    }
    run, t := SlipsFromCopy(cfg, b, run, t);
  }

  /** A send of the right length, at its gate of the open channel or past it. */
  lemma SlipsFromGate(cfg: Config, b: State, run0: seq<Action>, s: State) returns (run: seq<Action>, t: State)
    requires FoundEmpty(cfg, b, run0, s) && (s.p.PLoad? || (s.p.PGate? && !s.closed)) && |s.p.x| == cfg.size
    ensures Slipped(cfg, b, run, t)
  {
    run, t := run0, s;
    if s.p.PGate? {
      run, t := Append(cfg, b, run, t, ProducerStep);
    }
    run, t := Append(cfg, b, run, t, ProducerStep);
    run, t := SlipsFromCheck(cfg, b, run, t);
  }

  lemma SlipsFromIdle(cfg: Config, b: State, run0: seq<Action>, s: State) returns (run: seq<Action>, t: State)
    requires FoundEmpty(cfg, b, run0, s) && s.p.PIdle? && !s.closed
    ensures Slipped(cfg, b, run, t)
  {
    var x: Elem := seq(cfg.size, _ => 0);
    run, t := Append(cfg, b, run0, s, Send(x, NonBlocking));
    run, t := SlipsFromGate(cfg, b, run, t);
  }

  /** A send that failed on the open channel is tried again or given up. */
  lemma SlipsFromFailed(cfg: Config, b: State, run0: seq<Action>, s: State) returns (run: seq<Action>, t: State)
    requires FoundEmpty(cfg, b, run0, s) && s.p.PFailed? && MayPublish(cfg, s)
    ensures Slipped(cfg, b, run, t)
  {
    if s.p.mode == Blocking(true) {
      run, t := Append(cfg, b, run0, s, SendTimeout);
      run, t := SlipsFromIdle(cfg, b, run, t);
    } else {
      run, t := Append(cfg, b, run0, s, ProducerStep);
      if t.p.PIdle? {
        run, t := SlipsFromIdle(cfg, b, run, t);
      } else {
        run, t := SlipsFromGate(cfg, b, run, t);
      }
    }
  }

  /** A send of a wrong length on the open channel fails. */
  lemma SlipsFromWrong(cfg: Config, b: State, run0: seq<Action>, s: State) returns (run: seq<Action>, t: State)
    requires FoundEmpty(cfg, b, run0, s) && MayPublish(cfg, s) && (s.p.PGate? || s.p.PLoad?) && |s.p.x| != cfg.size
    ensures Slipped(cfg, b, run, t)
  {
    run, t := run0, s;
    if s.p.PGate? {
      run, t := Append(cfg, b, run, t, ProducerStep);
    }
    run, t := Append(cfg, b, run, t, ProducerStep);
    run, t := SlipsFromFailed(cfg, b, run, t);
  }

  lemma Slips(cfg: Config, b: State, run0: seq<Action>, s: State) returns (run: seq<Action>, t: State)
    requires FoundEmpty(cfg, b, run0, s) && MayPublish(cfg, s)
    ensures Slipped(cfg, b, run, t)
  {
    match s.p
    case PIdle => run, t := SlipsFromIdle(cfg, b, run0, s);
    case PGate(x, _) =>
      if |x| == cfg.size {
        run, t := SlipsFromGate(cfg, b, run0, s);
      } else {
        run, t := SlipsFromWrong(cfg, b, run0, s);
      }
    case PLoad(x, _) =>
      if |x| == cfg.size {
        run, t := SlipsFromGate(cfg, b, run0, s);
      } else {
        run, t := SlipsFromWrong(cfg, b, run0, s);
      }
    case PCheck(_, _, _) => run, t := SlipsFromCheck(cfg, b, run0, s);
    case PRefresh(_, _, _) => run, t := SlipsFromCheck(cfg, b, run0, s);
    case PCopy(_, _, _, _) => run, t := SlipsFromCopy(cfg, b, run0, s);
    case PFailed(_, _) => run, t := SlipsFromFailed(cfg, b, run0, s);
  }

  /** From the start of a receive on an empty ring to the point where the ring was found empty. */
  lemma FindsEmpty(cfg: Config, b: State) returns (run: seq<Action>, s: State)
    requires cfg.Valid() && Inv(cfg, b) && b.c.CLoad? && b.c.mode.Blocking? && b.r.received == b.r.sent
    ensures FoundEmpty(cfg, b, run, s) && s.p == b.p && s.closed == b.closed
  {
    ConsumerComparison(cfg, b.r);
    run, s := Append(cfg, b, [], b, ConsumerStep);
    run, s := Append(cfg, b, run, s, ConsumerStep);
    run, s := Append(cfg, b, run, s, ConsumerStep);
  }

  lemma LeavesBacklog(cfg: Config, s: State, mode: Mode) returns (run: seq<Action>, t: State)
    requires cfg.Valid() && Inv(cfg, s) && s.c.CIdle? && mode.Blocking?
    requires Queue(s.r) == [] && MayPublish(cfg, s)
    ensures CallReturnsClosed(cfg, s, mode, run, t) && t.r.received <= t.r.sent && Queue(t.r) != []
  {
    StepKeeps(cfg, s, Recv(mode));
    var b := Step(cfg, s, Recv(mode));
    assert b.r.received == b.r.sent by { assert |b.r.received| == |b.r.sent|; }
    run, t := FindsEmpty(cfg, b);
    run, t := Slips(cfg, b, run, t);
    if !t.closed {
      run, t := Append(cfg, b, run, t, Close);
    }
  }

  /** A blocking receive's CLOSED is final - nothing is left in the ring when it returns, whatever the
      producer does meanwhile - exactly if, when the receive starts, something is in the ring (then it takes
      that and does not return CLOSED), or nothing can be published any more. */
  lemma ClosedFinalExactly(cfg: Config, s: State, mode: Mode)
    requires cfg.Valid() && Inv(cfg, s) && s.c.CIdle? && mode.Blocking?
    ensures
      (forall run, t :: CallReturnsClosed(cfg, s, mode, run, t) ==> t.r.received <= t.r.sent && Queue(t.r) == [])
      <==> Queue(s.r) != [] || !MayPublish(cfg, s)
  {
    StepKeeps(cfg, s, Recv(mode));
    var b := Step(cfg, s, Recv(mode));
    if Queue(s.r) == [] && MayPublish(cfg, s) {
      var run, t := LeavesBacklog(cfg, s, mode);
    } else {
      forall run, t | CallReturnsClosed(cfg, s, mode, run, t) ensures t.r.received <= t.r.sent && Queue(t.r) == [] {
        if Queue(s.r) != [] {
          TakesWhatIsThere(cfg, b, run, t);
        } else {
          QuietLeavesNothing(cfg, b, run, t);
        }
      }
    }
  }

  /** In particular CLOSED is final when the channel was closed before the receive started and no send had
      passed its gate. */
  lemma ClosedBeforeIsFinal(cfg: Config, s: State, mode: Mode, run: seq<Action>, t: State)
    requires cfg.Valid() && Inv(cfg, s) && s.c.CIdle? && mode.Blocking?
    requires s.closed && (s.p.PIdle? || s.p.PGate?) && CallReturnsClosed(cfg, s, mode, run, t)
    ensures t.r.received <= t.r.sent && Queue(t.r) == []
  {
    ClosedFinalExactly(cfg, s, mode);
  }
}
