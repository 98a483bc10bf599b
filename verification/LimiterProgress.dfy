/** Calls of the limiter that are left alone end, from wherever they stand; and what a removal does. */
module LimiterProgress {
  import opened Words
  import opened ConcurrencyLimiter
  import opened LimiterCalls

  /** The others do nothing, and nothing fails spuriously. */
  ghost predicate Quiet(rounds: seq<Round>)
  {
    forall i :: 0 <= i < |rounds| ==> rounds[i].acts == [] && !rounds[i].spurious
  }

  /** What the thread is about to compare with is what is there. */
  ghost predicate Current(s: State, th: Thread)
  {
    match th
    case CasGlobal(_, _, seen) => seen == Wrap(s.global)
    case CasUser(u, _, _, a) => u < |s.users| && a == s.users[u].active
    case CasPeak(u, _, _, seenPeak) => u < |s.users| && seenPeak == s.users[u].peak
    case CasGlobalPeak(_, oldPeak) => oldPeak == s.globalPeak
    case CasRelease(u, _, a) => u < |s.users| && a == s.users[u].active
    case _ => true
  }

  /** The steps left to a thread whose comparisons succeed. */
  function StepsLeft(th: Thread): (n: nat)
  {
    match th
    case Idle => 0
    case LoadGlobal(_, _) => 9
    case CasGlobal(_, _, _) => 8
    case LoadUser(_, _, _) => 7
    case CasUser(_, _, _, _) => 6
    case Rollback(_, _) => 1
    case AddGlobal(_, _, _) => 5
    case LoadPeak(_, _, _) => 4
    case CasPeak(_, _, _, _) => 3
    case LoadGlobalPeak(_) => 2
    case CasGlobalPeak(_, _) => 1
    case LoadRelease(_, _) => 3
    case CasRelease(_, _, _) => 2
    case Exchange(_) => 2
    case SubGlobal(_) => 1
    case LoadRemove(_) => 2
    case SubRemove(_, _) => 1
  }

  ghost function Patience(s: State, t: nat): (n: nat)
    requires t < |s.threads|
  {
    if Current(s, s.threads[t]) then StepsLeft(s.threads[t]) else 10
  }

  lemma AcquireComesNearer(s: State, t: nat)
    requires Ready(s, t) && Acquiring(s.threads[t])
    ensures t < |AdvanceAcquire(s, t).threads| && Patience(AdvanceAcquire(s, t), t) < Patience(s, t)
  {
    assert ThreadInv(s, s.threads[t]);
  }

  lemma ReleaseComesNearer(s: State, t: nat)
    requires Ready(s, t) && !Acquiring(s.threads[t])
    ensures t < |AdvanceRelease(s, t).threads| && Patience(AdvanceRelease(s, t), t) < Patience(s, t)
  {
    assert ThreadInv(s, s.threads[t]);
  }

  /** Whenever the others pause, a call in progress - an acquire, a release, a release-all or a removal, and
      wherever it stands - ends within ten of its own steps. */
  lemma {:induction false} LeftAloneItEnds(s: State, t: nat, rounds: seq<Round>)
    requires Busy(s, t) && Schedule(s, t, rounds) && Quiet(rounds) && |rounds| >= Patience(s, t)
    ensures Answer(s, t, rounds) != StillTrying && Patience(s, t) <= 10
    decreases |rounds|
  {
    assert rounds[0].acts == [] && !rounds[0].spurious && Before(s, t, rounds[0]) == s;
    var s' := Turn(s, t, rounds[0]);
    if Acquiring(s.threads[t]) {
      AcquireComesNearer(s, t);
    } else {
      ReleaseComesNearer(s, t);
    }
    if !s'.threads[t].Idle? {
      assert Quiet(rounds[1..]);
      LeftAloneItEnds(s', t, rounds[1..]);
    }
  }

  /** Nobody else touches a user that is being removed. */
  lemma OthersSpare(s: State, a: Action, t: nat, u: nat)
    requires Inv(s) && Enabled(s, a) && t < |s.threads| && (a.AddUser? || a.t != t)
    requires On(s.threads[t], u) && Removes(s.threads[t]) && u < |s.users|
    ensures u < |Step(s, a).users| && Step(s, a).users[u] == s.users[u]
  {
    if a.Advance? {
      assert ThreadInv(s, s.threads[a.t]);
      assert !On(s.threads[a.t], u);
    }
  }

  lemma {:induction false} OthersSpareRemoved(s: State, acts: seq<Action>, t: nat, u: nat)
    requires Inv(s) && Legal(s, acts) && ByOthers(acts, t) && t < |s.threads|
    requires On(s.threads[t], u) && Removes(s.threads[t]) && u < |s.users|
    ensures u < |End(s, acts).users| && End(s, acts).users[u] == s.users[u]
    decreases |acts|
  {
    if acts != [] {
      StepKeeps(s, acts[0]);
      OthersUnmoved(s, acts[0], t);
      OthersSpare(s, acts[0], t, u);
      assert ByOthers(acts[1..], t);
      OthersSpareRemoved(Step(s, acts[0]), acts[1..], t, u);
    }
  }

  ghost predicate InRemoval(s: State, t: nat, u: nat)
  {
    t < |s.threads| && u < |s.users| && Removes(s.threads[t]) && s.threads[t].u == u
  }

  lemma RemovalStep(s: State, t: nat, u: nat, spurious: bool)
    requires Ready(s, t) && InRemoval(s, t, u)
    ensures
      var s' := Own(s, t, spurious);
      var held := if s'.threads[t].Idle? then s.users[u].active else 0;
      && |s'.users| == |s.users| && s'.global == s.global - held && s'.users[u].active == s.users[u].active - held
      && (forall x :: 0 <= x < |s.users| && x != u ==> s'.users[x].active == s.users[x].active)
      && (s'.threads[t].Idle? ==> !s'.users[u].alive)
      && (!s'.threads[t].Idle? ==> InRemoval(s', t, u))
  {
    assert ThreadInv(s, s.threads[t]);
  }

  /** A removal that has ended has taken exactly the slots its user held out of the global counter, whatever
      others did meanwhile, and touched no other user; its user is gone for good. */
  lemma {:induction false} RemoveEffect(s: State, t: nat, u: nat, rounds: seq<Round>)
    requires Busy(s, t) && InRemoval(s, t, u) && Schedule(s, t, rounds)
    ensures
      var held := if Answer(s, t, rounds) == StillTrying then 0 else s.users[u].active;
      OwnGlobal(s, t, rounds) == -held && OwnActive(s, t, rounds, u) == -held
    ensures forall x :: 0 <= x < |s.users| && x != u ==> OwnActive(s, t, rounds, x) == 0
    ensures Answer(s, t, rounds) != StillTrying ==>
              u < |Finish(s, t, rounds).users| && !Finish(s, t, rounds).users[u].alive
    decreases |rounds|
  {
    if rounds != [] {
      var b, s' := Before(s, t, rounds[0]), Turn(s, t, rounds[0]);
      OthersLeave(s, rounds[0].acts, t);
      OthersSpareRemoved(s, rounds[0].acts, t, u);
      RemovalStep(b, t, u, rounds[0].spurious);
      if s'.threads[t].Idle? {
        NothingMore(s', t, rounds[1..]);
      } else {
        RemoveEffect(s', t, u, rounds[1..]);
      }
    }
  }

  /** A removed user stays removed. */
  lemma {:induction false} RemovedForGood(s: State, run: seq<Action>, u: nat)
    requires Inv(s) && Legal(s, run) && u < |s.users| && !s.users[u].alive
    ensures u < |End(s, run).users| && !End(s, run).users[u].alive
    decreases |run|
  {
    if run != [] {
      StepKeeps(s, run[0]);
      StaysRemoved(s, run[0], u);
      RemovedForGood(Step(s, run[0]), run[1..], u);
    }
  }

  lemma StaysRemoved(s: State, a: Action, u: nat)
    requires Inv(s) && Enabled(s, a) && u < |s.users| && !s.users[u].alive
    ensures u < |Step(s, a).users| && !Step(s, a).users[u].alive
  {
    if a.Advance? { assert ThreadInv(s, s.threads[a.t]); }
  }
}
