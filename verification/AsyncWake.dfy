/** The wake-up of loopyAsync.c: a pending flag set by compare-and-swap, an eventfd written by the
    winner, and a loop callback that drains, clears and then runs the user callback. */
module AsyncWake {
  import opened Sums

  /** A thread inside loopyAsyncSend: about to compare-and-swap, or winner about to write. */
  datatype Sender = Idle | Entering | Won

  datatype Loop = Polling | Drained | Cleared | Running

  /** `sends` counts the compare-and-swaps made so far, `served` how many of them the latest start
      of the user callback came after; both are history. */
  datatype State = State(pending: bool, efd: nat, senders: seq<Sender>, loop: Loop, sends: nat, served: nat)

  datatype Action = Call(t: nat) | Cas(t: nat) | Write(t: nat) | Drain | Clear | Start | Finish

  function Init(threads: nat): (s: State)
  {
    State(false, 0, seq(threads, _ => Idle), Polling, 0, 0)
  }

  predicate Enabled(s: State, a: Action)
  {
    match a
    case Call(t) => t < |s.senders| && s.senders[t].Idle?
    case Cas(t) => t < |s.senders| && s.senders[t].Entering?
    case Write(t) => t < |s.senders| && s.senders[t].Won?
    case Drain => s.loop.Polling? && s.efd > 0
    case Clear => s.loop.Drained?
    case Start => s.loop.Cleared?
    case Finish => s.loop.Running?
  }

  function Step(s: State, a: Action): (s': State)
    requires Enabled(s, a)
  {
    match a
    case Call(t) => s.(senders := s.senders[t := Entering])
    case Cas(t) =>
      if s.pending then s.(senders := s.senders[t := Idle], sends := s.sends + 1)
      else s.(pending := true, senders := s.senders[t := Won], sends := s.sends + 1)
    case Write(t) => s.(efd := s.efd + 1, senders := s.senders[t := Idle])
    case Drain => s.(efd := 0, loop := Drained)
    case Clear => s.(pending := false, loop := Cleared)
    case Start => s.(loop := Running, served := s.sends)
    case Finish => s.(loop := Polling)
  }

  function Token(x: Sender): (n: int) { if x.Won? then 1 else 0 }

  /** The flag is exactly one token, held by a winner, by the eventfd, or by the drained callback. */
  ghost predicate Inv(s: State)
  {
    && (if s.pending then 1 else 0) == Sum(Token, s.senders) + s.efd + (if s.loop.Drained? then 1 else 0)
    && s.served <= s.sends
    && (s.served < s.sends ==> s.pending || s.loop.Cleared?)
  }

  lemma InitHolds(threads: nat)
    ensures Inv(Init(threads))
  {
    SumZero(Token, Init(threads).senders);
  }

  lemma StepKeeps(s: State, a: Action)
    requires Inv(s) && Enabled(s, a)
    ensures Inv(Step(s, a))
  {
    SumNonNegative(Token, s.senders);
    match a
    case Call(t) => SumUpdate(Token, s.senders, t, Entering);
    case Cas(t) => SumUpdate(Token, s.senders, t, if s.pending then Idle else Won);
    case Write(t) =>
      SumMember(Token, s.senders, t);
      SumUpdate(Token, s.senders, t, Idle);
    case _ =>
  }

  /** Each action of the run is enabled when it is taken. */
  ghost predicate Legal(s: State, run: seq<Action>)
    decreases |run|
  {
    run == [] || (Enabled(s, run[0]) && Legal(Step(s, run[0]), run[1..]))
  }

  ghost function End(s: State, run: seq<Action>): (s': State)
    requires Legal(s, run)
    decreases |run|
  {
    if run == [] then s else End(Step(s, run[0]), run[1..])
  }

  lemma {:induction false} RunsKeep(s: State, run: seq<Action>)
    requires Inv(s) && Legal(s, run)
    ensures Inv(End(s, run))
    decreases |run|
  {
    if run != [] {
      StepKeeps(s, run[0]);
      RunsKeep(Step(s, run[0]), run[1..]);
    }
  }

  /** For any number of threads and any interleaving the eventfd count never exceeds one, nobody
      writes while it is readable, and a readable eventfd means the flag is set. */
  lemma TokenConservation(threads: nat, run: seq<Action>, t: State)
    requires Legal(Init(threads), run) && t == End(Init(threads), run)
    ensures (if t.pending then 1 else 0) == Sum(Token, t.senders) + t.efd + (if t.loop.Drained? then 1 else 0)
    ensures t.efd <= 1 && (t.efd == 1 ==> t.pending && forall i :: 0 <= i < |t.senders| ==> !t.senders[i].Won?)
  {
    InitHolds(threads);
    RunsKeep(Init(threads), run);
    SumNonNegative(Token, t.senders);
    forall i | t.efd == 1 && 0 <= i < |t.senders| ensures !t.senders[i].Won? {
      SumMember(Token, t.senders, i);
    }
  }

  /** The one action that brings the start of the user callback nearer while a send is unserved. */
  ghost predicate Helpful(s: State, a: Action)
  {
    match s.loop
    case Cleared => a == Start
    case Drained => a == Clear
    case Running => a == Finish
    case Polling => if s.efd > 0 then a == Drain else a.Write?
  }

  /** How many helpful steps are left until the user callback starts. */
  function Distance(s: State): (n: nat)
  {
    match s.loop
    case Cleared => 1
    case Drained => 2
    case Polling => if s.efd > 0 then 3 else 4
    case Running => if s.efd > 0 then 4 else 5
  }

  /** While some send is unserved a helpful action is enabled. */
  lemma HelpfulEnabled(s: State) returns (a: Action)
    requires Inv(s) && s.served < s.sends
    ensures Enabled(s, a) && Helpful(s, a)
  {
    match s.loop
    case Cleared => a := Start;
    case Drained => a := Clear;
    case Running => a := Finish;
    case Polling =>
      if s.efd > 0 {
        a := Drain;
      } else {
        var t := SumPositive(Token, s.senders);
        a := Write(t);
      }
  }

  ghost function HelpfulSteps(s: State, run: seq<Action>): (n: nat)
    requires Legal(s, run)
    decreases |run|
  {
    if run == [] then 0
    else (if Helpful(s, run[0]) then 1 else 0) + HelpfulSteps(Step(s, run[0]), run[1..])
  }

  /** Whatever else the other threads do, at most five helpful steps are taken between the n-th
      compare-and-swap and a later start of the user callback: every send is served, whether it won or lost. */
  lemma {:induction false} EverySendIsServed(s: State, run: seq<Action>, n: nat)
    requires Inv(s) && s.served < n <= s.sends && Legal(s, run)
    ensures End(s, run).served < n ==> HelpfulSteps(s, run) + Distance(End(s, run)) <= Distance(s) <= 5
    ensures HelpfulSteps(s, run) >= Distance(s) ==> n <= End(s, run).served
    decreases |run|
  {
    if run != [] {
      var s' := Step(s, run[0]);
      StepKeeps(s, run[0]);
      SumNonNegative(Token, s.senders);
      SumNonNegative(Token, s'.senders);
      if s'.served < n {
        EverySendIsServed(s', run[1..], n);
      } else {
        ServedStays(s', run[1..], n);
      }
    }
  }

  lemma {:induction false} ServedStays(s: State, run: seq<Action>, n: nat)
    requires Inv(s) && n <= s.served && Legal(s, run)
    ensures n <= End(s, run).served
    decreases |run|
  {
    if run != [] {
      StepKeeps(s, run[0]);
      ServedStays(Step(s, run[0]), run[1..], n);
    }
  }

  /** The sends of the run, and how many sends the latest start of the user callback came after. */
  function Sends(run: seq<Action>): (n: nat)
  {
    if run == [] then 0 else (if run[0].Cas? then 1 else 0) + Sends(run[1..])
  }

  function ServedBy(run: seq<Action>, sends: nat, served: nat): (n: nat)
  {
    if run == [] then served
    else ServedBy(run[1..], if run[0].Cas? then sends + 1 else sends, if run[0].Start? then sends else served)
  }

  /** The counts are those of the steps taken. */
  lemma {:induction false} CountsAreTheSteps(s: State, run: seq<Action>)
    requires Legal(s, run)
    ensures End(s, run).sends == s.sends + Sends(run)
    ensures End(s, run).served == ServedBy(run, s.sends, s.served)
    decreases |run|
  {
    if run != [] {
      CountsAreTheSteps(Step(s, run[0]), run[1..]);
    }
  }

  /** The steps that thread `t` takes inside loopyAsyncSend, and how many it has left at most. */
  function SenderSteps(run: seq<Action>, t: nat): (n: nat)
  {
    if run == [] then 0 else (if run[0] == Cas(t) || run[0] == Write(t) then 1 else 0) + SenderSteps(run[1..], t)
  }

  function SenderLeft(x: Sender): (n: nat)
  {
    match x
    case Idle => 0
    case Entering => 2
    case Won => 1
  }

  /** A send never waits: its next step is enabled, and it takes two at most, whatever the others do. */
  lemma {:induction false} SendIsBounded(s: State, run: seq<Action>, t: nat)
    requires t < |s.senders| && Legal(s, run) && Call(t) !in run
    ensures t < |End(s, run).senders|
    ensures SenderSteps(run, t) + SenderLeft(End(s, run).senders[t]) <= SenderLeft(s.senders[t])
    ensures !End(s, run).senders[t].Idle? ==> Enabled(End(s, run), Cas(t)) || Enabled(End(s, run), Write(t))
    decreases |run|
  {
    if run != [] {
      assert run[0] != Call(t);
      SendIsBounded(Step(s, run[0]), run[1..], t);
    }
  }
}
