/** How the calls on the single-producer single-consumer ring end: a blocking call goes round its loop until
    it succeeds, the channel is closed or its timeout expires; a non-blocking one ends within a bounded
    number of its own steps, whatever the other side does. */
module SpscCalls {
  import opened SpscRing

  /** In one of the states of the run, the last included, `seen` holds. */
  ghost predicate Sometime(cfg: Config, s: State, run: seq<Action>, t: State, seen: State -> bool)
    requires cfg.Valid() && Inv(cfg, s) && Runs(cfg, s, run, t)
    decreases |run|
  {
    || seen(s)
    || (run != [] && (StepKeeps(cfg, s, run[0]); Sometime(cfg, Step(cfg, s, run[0]), run[1..], t, seen)))
  }

  /** Everything sent has been received. */
  ghost function RingEmpty(): (r: State -> bool)
  {
    (s: State) => s.r.received == s.r.sent
  }

  ghost function RingFull(cfg: Config): (r: State -> bool)
  {
    (s: State) => |s.r.sent| == |s.r.received| + cfg.capacity
  }

  ghost predicate NoSend(run: seq<Action>)
  {
    forall i :: 0 <= i < |run| ==> !run[i].Send?
  }

  lemma {:induction false} ReceiverStaysOut(cfg: Config, s: State, run: seq<Action>, t: State)
    requires cfg.Valid() && Inv(cfg, s) && s.c.CIdle? && Runs(cfg, s, run, t) && NoRecv(run)
    ensures t.c.CIdle? && t.r.received == s.r.received
    decreases |run|
  {
    if run != [] {
      StepKeeps(cfg, s, run[0]);
      assert NoRecv(run[1..]) && !run[0].Recv?;
      ReceiverStaysOut(cfg, Step(cfg, s, run[0]), run[1..], t);
    }
  }

  /** One step of anybody while a receive is in progress. */
  lemma ReceiveStep(cfg: Config, s: State, a: Action)
    requires cfg.Valid() && Inv(cfg, s) && Enabled(cfg, s, a) && !s.c.CIdle?
    ensures
      var t := Step(cfg, s, a);
      !t.c.CIdle? ==>
        && a != RecvTimeout && t.c.mode == s.c.mode && t.r.received == s.r.received
        && (t.c.CEmpty? && !s.c.CEmpty? ==> RingEmpty()(s))
  {
    ConsumerComparison(cfg, s.r);
  }

  /** While a receive is in progress its timeout has not expired, it has its mode, has taken nothing, and has
      failed only after a moment when the ring was empty. */
  lemma {:induction false} ReceiveGoesOn(cfg: Config, b: State, run: seq<Action>, t: State)
    requires cfg.Valid() && Inv(cfg, b) && !b.c.CIdle? && Runs(cfg, b, run, t) && NoRecv(run) && !t.c.CIdle?
    ensures t.c.mode == b.c.mode && t.r.received == b.r.received && RecvTimeout !in run
    ensures t.c.CEmpty? ==> b.c.CEmpty? || Sometime(cfg, b, run, t, RingEmpty())
    decreases |run|
  {
    if run != [] {
      var s := Step(cfg, b, run[0]);
      StepKeeps(cfg, b, run[0]);
      ReceiveStep(cfg, b, run[0]);
      assert NoRecv(run[1..]);
      if s.c.CIdle? {
        ReceiverStaysOut(cfg, s, run[1..], t);
      } else {
        ReceiveGoesOn(cfg, s, run[1..], t);
      }
    }
  }

  /** A receive that began in `s` and, after `run`, ends with the step `a`: it has taken exactly the oldest
      element, or nothing - and then the ring was empty at some moment of the call, and the call was not to
      block, or the step was taken on a closed channel, or it was the expiry of a timeout that was set. */
  lemma ReceiveEnds(cfg: Config, s: State, mode: Mode, run: seq<Action>, t: State, a: Action)
    requires cfg.Valid() && Inv(cfg, s) && s.c.CIdle? && NoRecv(run)
    requires Inv(cfg, Step(cfg, s, Recv(mode))) && Runs(cfg, Step(cfg, s, Recv(mode)), run, t)
    requires Inv(cfg, t) && !t.c.CIdle? && Enabled(cfg, t, a) && Step(cfg, t, a).c.CIdle?
    ensures
      var before, after := s.r.received, Step(cfg, t, a).r.received;
      || (|before| < |t.r.sent| && after == before + [t.r.sent[|before|]])
      || (&& after == before && Sometime(cfg, Step(cfg, s, Recv(mode)), run, t, RingEmpty())
          && (mode.NonBlocking? || t.closed || (mode == Blocking(true) && a == RecvTimeout)))
  {
    ReceiveGoesOn(cfg, Step(cfg, s, Recv(mode)), run, t);
    if t.c.CCopy? && a.ConsumerStep? { TakeKeeps(cfg, t); }
  }

  lemma {:induction false} SenderStaysOut(cfg: Config, s: State, run: seq<Action>, t: State)
    requires cfg.Valid() && Inv(cfg, s) && s.p.PIdle? && Runs(cfg, s, run, t) && NoSend(run)
    ensures t.p.PIdle? && t.r.sent == s.r.sent
    decreases |run|
  {
    if run != [] {
      StepKeeps(cfg, s, run[0]);
      assert NoSend(run[1..]) && !run[0].Send?;
      SenderStaysOut(cfg, Step(cfg, s, run[0]), run[1..], t);
    }
  }

  lemma SendStep(cfg: Config, s: State, a: Action)
    requires cfg.Valid() && Inv(cfg, s) && Enabled(cfg, s, a) && !s.p.PIdle?
    ensures
      var t := Step(cfg, s, a);
      !t.p.PIdle? ==>
        && a != SendTimeout && t.p.mode == s.p.mode && t.p.x == s.p.x && t.r.sent == s.r.sent
        && (t.p.PFailed? && !s.p.PFailed? ==> |s.p.x| != cfg.size || RingFull(cfg)(s))
  {
    ProducerCount(cfg, s.r);
  }

  lemma {:induction false} SendGoesOn(cfg: Config, b: State, run: seq<Action>, t: State)
    requires cfg.Valid() && Inv(cfg, b) && !b.p.PIdle? && Runs(cfg, b, run, t) && NoSend(run) && !t.p.PIdle?
    ensures t.p.mode == b.p.mode && t.p.x == b.p.x && t.r.sent == b.r.sent && SendTimeout !in run
    ensures t.p.PFailed? ==> b.p.PFailed? || |b.p.x| != cfg.size || Sometime(cfg, b, run, t, RingFull(cfg))
    decreases |run|
  {
    if run != [] {
      var s := Step(cfg, b, run[0]);
      StepKeeps(cfg, b, run[0]);
      SendStep(cfg, b, run[0]);
      assert NoSend(run[1..]);
      if s.p.PIdle? {
        SenderStaysOut(cfg, s, run[1..], t);
      } else {
        SendGoesOn(cfg, s, run[1..], t);
      }
    }
  }

  /** A send that began in `s` and, after `run`, ends with the step `a`: it has published exactly its
      element, or nothing - and then the step was taken on a closed channel, or the element had a wrong
      length or met a full ring, and the call was not to block or its timeout expired. */
  lemma SendEnds(cfg: Config, s: State, x: Elem, mode: Mode, run: seq<Action>, t: State, a: Action)
    requires cfg.Valid() && Inv(cfg, s) && s.p.PIdle? && NoSend(run)
    requires Inv(cfg, Step(cfg, s, Send(x, mode))) && Runs(cfg, Step(cfg, s, Send(x, mode)), run, t)
    requires Inv(cfg, t) && !t.p.PIdle? && Enabled(cfg, t, a) && Step(cfg, t, a).p.PIdle?
    ensures
      var before, after := s.r.sent, Step(cfg, t, a).r.sent;
      || (after == before + [x] && |x| == cfg.size)
      || (after == before && t.closed)
      || (&& after == before
          && (|x| != cfg.size || Sometime(cfg, Step(cfg, s, Send(x, mode)), run, t, RingFull(cfg)))
          && (mode.NonBlocking? || (mode == Blocking(true) && a == SendTimeout)))
  {
    SendGoesOn(cfg, Step(cfg, s, Send(x, mode)), run, t);
  }

  /** After a close, with no send past its gate, nothing is published any more. */
  lemma {:induction false} ClosedRefusesSends(cfg: Config, s: State, run: seq<Action>, t: State)
    requires cfg.Valid() && Inv(cfg, s) && s.closed && (s.p.PIdle? || s.p.PGate?) && Runs(cfg, s, run, t)
    ensures t.r.sent == s.r.sent && t.closed && (t.p.PIdle? || t.p.PGate?)
    decreases |run|
  {
    if run != [] {
      StepKeeps(cfg, s, run[0]);
      ClosedRefusesSends(cfg, Step(cfg, s, run[0]), run[1..], t);
    }
  }

  /** The steps of the run that are the receiver's, or the sender's, own. */
  function ReceiverSteps(run: seq<Action>): (n: nat)
  {
    if run == [] then 0
    else (if run[0].ConsumerStep? || run[0].ConsumerByte? then 1 else 0) + ReceiverSteps(run[1..])
  }

  function SenderSteps(run: seq<Action>): (n: nat)
  {
    if run == [] then 0
    else (if run[0].ProducerStep? || run[0].ProducerByte? then 1 else 0) + SenderSteps(run[1..])
  }

  /** How many own steps a receive, or a send, has left at most that does not fail again and go on. */
  function ReceiveLeft(cfg: Config, s: State): (n: int)
  {
    match s.c
    case CIdle => 0
    case CLoad(_) => cfg.size + 4
    case CCheck(_, _) => cfg.size + 3
    case CRefresh(_, _) => cfg.size + 2
    case CCopy(_, _, _, done) => cfg.size + 1 - |done|
    case CEmpty(mode, _) => if mode.NonBlocking? || s.closed then 1 else cfg.size + 5
  }

  function SendLeft(cfg: Config, s: State): (n: int)
  {
    match s.p
    case PIdle => 0
    case PGate(_, _) => cfg.size + 5
    case PLoad(_, _) => cfg.size + 4
    case PCheck(_, _, _) => cfg.size + 3
    case PRefresh(_, _, _) => cfg.size + 2
    case PCopy(_, _, _, done) => cfg.size + 1 - |done|
    case PFailed(_, mode) => if mode.NonBlocking? || s.closed then 1 else cfg.size + 5
  }

  /** Bytes copied once each are at most all of them. */
  lemma {:induction false} AtMost(done: set<nat>, n: nat)
    requires forall i :: i in done ==> i < n
    ensures |done| <= n
  {
    if n > 0 {
      AtMost(done - {n - 1}, n - 1);
    } else {
      assert done == {};
    }
  }

  /** The receive does not find the ring empty and go on: it is not to block, there is something in the ring,
      or the channel is closed. */
  ghost predicate ReceiveIsBounded(s: State)
  {
    s.c.CIdle? || s.c.mode.NonBlocking? || |s.r.received| < |s.r.sent| || s.closed
  }

  lemma ReceiveComesNearer(cfg: Config, s: State, a: Action)
    requires cfg.Valid() && Inv(cfg, s) && Enabled(cfg, s, a) && !a.Recv? && ReceiveIsBounded(s)
    ensures ReceiveIsBounded(Step(cfg, s, a))
    ensures
      var own := if a.ConsumerStep? || a.ConsumerByte? then 1 else 0;
      ReceiveLeft(cfg, Step(cfg, s, a)) + own <= ReceiveLeft(cfg, s)
  {
    if a.ConsumerStep? {
      ReceiverComesNearer(cfg, s);
    } else {
      OthersDoNotDelayReceive(cfg, s, a);
    }
  }

  lemma ReceiverComesNearer(cfg: Config, s: State)
    requires cfg.Valid() && Inv(cfg, s) && Enabled(cfg, s, ConsumerStep) && ReceiveIsBounded(s)
    ensures ReceiveIsBounded(StepConsumer(cfg, s)) && ReceiveLeft(cfg, StepConsumer(cfg, s)) < ReceiveLeft(cfg, s)
  {
    if s.c.CCheck? || s.c.CRefresh? { ConsumerComparison(cfg, s.r); }
    if s.c.CCopy? { AtMost(s.c.done, cfg.size); }
  }

  lemma OthersDoNotDelayReceive(cfg: Config, s: State, a: Action)
    requires cfg.Valid() && Inv(cfg, s) && Enabled(cfg, s, a) && !a.Recv? && !a.ConsumerStep? && ReceiveIsBounded(s)
    ensures ReceiveIsBounded(Step(cfg, s, a))
    ensures ReceiveLeft(cfg, Step(cfg, s, a)) + (if a.ConsumerByte? then 1 else 0) <= ReceiveLeft(cfg, s)
  {
  }

  lemma {:induction false} ReceiveIsBoundedBy(cfg: Config, b: State, run: seq<Action>, t: State)
    requires cfg.Valid() && Inv(cfg, b) && ReceiveIsBounded(b) && Runs(cfg, b, run, t) && NoRecv(run)
    ensures ReceiverSteps(run) + ReceiveLeft(cfg, t) <= ReceiveLeft(cfg, b) && ReceiveIsBounded(t)
    decreases |run|
  {
    if run != [] {
      StepKeeps(cfg, b, run[0]);
      assert NoRecv(run[1..]) && !run[0].Recv?;
      ReceiveComesNearer(cfg, b, run[0]);
      ReceiveIsBoundedBy(cfg, Step(cfg, b, run[0]), run[1..], t);
    }
  }

  /** A receive that is not to block, or for which there is something in the ring, or whose channel is closed,
      be it from the start or by now, is over after at most as many more own steps as an element has bytes, and
      five; and its next step is always enabled. */
  lemma BoundedReceive(cfg: Config, b: State, run: seq<Action>, t: State)
    requires cfg.Valid() && Inv(cfg, b) && !b.c.CIdle? && NoRecv(run) && Runs(cfg, b, run, t)
    requires b.c.mode.NonBlocking? || Queue(b.r) != [] || b.closed
    ensures ReceiverSteps(run) <= cfg.size + 5
    ensures ReceiverSteps(run) == cfg.size + 5 ==> t.c.CIdle?
    ensures Inv(cfg, t)
    ensures !t.c.CIdle? ==> exists a: Action :: (a.ConsumerStep? || a.ConsumerByte?) && Enabled(cfg, t, a)
  {
    RunsKeep(cfg, b, run, t);
    ReceiveIsBoundedBy(cfg, b, run, t);
    if t.c.CCopy? { AtMost(t.c.done, cfg.size); }
    if !t.c.CIdle? && !Enabled(cfg, t, ConsumerStep) {
      var i: nat :| i < cfg.size && i !in t.c.done;
      assert Enabled(cfg, t, ConsumerByte(i));
    }
  }

  /** The send will find room: its element has the right length, and only it can fill the ring. */
  ghost predicate WillPublish(cfg: Config, s: State)
  {
    !s.p.PIdle? && |s.p.x| == cfg.size && |s.r.sent| < |s.r.received| + cfg.capacity
  }

  ghost predicate SendIsBounded(cfg: Config, s: State)
  {
    s.p.PIdle? || s.p.mode.NonBlocking? || WillPublish(cfg, s) || s.closed
  }

  lemma SendComesNearer(cfg: Config, s: State, a: Action)
    requires cfg.Valid() && Inv(cfg, s) && Enabled(cfg, s, a) && !a.Send? && SendIsBounded(cfg, s)
    ensures SendIsBounded(cfg, Step(cfg, s, a))
    ensures
      var own := if a.ProducerStep? || a.ProducerByte? then 1 else 0;
      SendLeft(cfg, Step(cfg, s, a)) + own <= SendLeft(cfg, s)
  {
    if a.ProducerStep? {
      SenderComesNearer(cfg, s);
    } else {
      OthersDoNotDelaySend(cfg, s, a);
    }
  }

  lemma SenderComesNearer(cfg: Config, s: State)
    requires cfg.Valid() && Inv(cfg, s) && Enabled(cfg, s, ProducerStep) && SendIsBounded(cfg, s)
    ensures SendIsBounded(cfg, StepProducer(cfg, s)) && SendLeft(cfg, StepProducer(cfg, s)) < SendLeft(cfg, s)
  {
    if s.p.PCheck? || s.p.PRefresh? { ProducerCount(cfg, s.r); }
    if s.p.PCopy? { AtMost(s.p.done, cfg.size); }
  }

  lemma OthersDoNotDelaySend(cfg: Config, s: State, a: Action)
    requires cfg.Valid() && Inv(cfg, s) && Enabled(cfg, s, a) && !a.Send? && !a.ProducerStep? && SendIsBounded(cfg, s)
    ensures SendIsBounded(cfg, Step(cfg, s, a))
    ensures SendLeft(cfg, Step(cfg, s, a)) + (if a.ProducerByte? then 1 else 0) <= SendLeft(cfg, s)
  {
  }

  lemma {:induction false} SendIsBoundedBy(cfg: Config, b: State, run: seq<Action>, t: State)
    requires cfg.Valid() && Inv(cfg, b) && SendIsBounded(cfg, b) && Runs(cfg, b, run, t) && NoSend(run)
    ensures SenderSteps(run) + SendLeft(cfg, t) <= SendLeft(cfg, b)
    decreases |run|
  {
    if run != [] {
      StepKeeps(cfg, b, run[0]);
      assert NoSend(run[1..]) && !run[0].Send?;
      SendComesNearer(cfg, b, run[0]);
      SendIsBoundedBy(cfg, Step(cfg, b, run[0]), run[1..], t);
    }
  }

  /** A send that is not to block, or for whose element there is room, or whose channel is closed is over after
      at most as many more own steps as an element has bytes, and five; and its next step is always enabled. */
  lemma BoundedSend(cfg: Config, b: State, run: seq<Action>, t: State)
    requires cfg.Valid() && Inv(cfg, b) && !b.p.PIdle? && NoSend(run) && Runs(cfg, b, run, t)
    requires b.p.mode.NonBlocking? || WillPublish(cfg, b) || b.closed
    ensures SenderSteps(run) <= cfg.size + 5
    ensures SenderSteps(run) == cfg.size + 5 ==> t.p.PIdle?
    ensures Inv(cfg, t)
    ensures !t.p.PIdle? ==> exists a: Action :: (a.ProducerStep? || a.ProducerByte?) && Enabled(cfg, t, a)
  {
    RunsKeep(cfg, b, run, t);
    SendIsBoundedBy(cfg, b, run, t);
    if t.p.PCopy? { AtMost(t.p.done, cfg.size); }
    if !t.p.PIdle? && !Enabled(cfg, t, ProducerStep) {
      var i: nat :| i < cfg.size && i !in t.p.done;
      assert Enabled(cfg, t, ProducerByte(i));
    }
  }
}
