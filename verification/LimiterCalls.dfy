/** One call of the limiter amid the others: a schedule says what the other threads do before each step
    of the calling thread, and which of its compare-and-swaps fail spuriously. Given the schedule, where
    the call ends and what it answers are determined, and so is what the call's own steps change. */
module LimiterCalls {
  import opened Words
  import opened ConcurrencyLimiter

  /** What the threads share. */
  datatype Memory = Memory(global: word, globalPeak: word, active: seq<nat>, peak: seq<nat>, limits: seq<word>)

  ghost function MemoryOf(s: State): (r: Memory)
  {
    Memory(Wrap(s.global), s.globalPeak,
           seq(|s.users|, i requires 0 <= i < |s.users| => s.users[i].active),
           seq(|s.users|, i requires 0 <= i < |s.users| => s.users[i].peak),
           seq(|s.users|, i requires 0 <= i < |s.users| => s.users[i].limit))
  }

  /** Before a step of the calling thread the others take `acts`, which leaves `memory`; the step is a
      spurious failure if `spurious` says so and it can be one. */
  datatype Round = Round(acts: seq<Action>, memory: Memory, spurious: bool)

  datatype Result = Ok | GlobalLimit | UserLimit | Released(n: nat) | StillTrying

  predicate ByOthers(acts: seq<Action>, t: nat)
  {
    forall i :: 0 <= i < |acts| ==> acts[i].AddUser? || acts[i].t != t
  }

  ghost predicate Interferes(s: State, t: nat, r: Round)
    requires Inv(s)
  {
    && Legal(s, r.acts) && ByOthers(r.acts, t) && r.memory == MemoryOf(End(s, r.acts))
    && NoOverflow(End(s, r.acts), Advance(t))
  }

  /** The other threads do not move the calling one. */
  lemma {:induction false} OthersLeave(s: State, acts: seq<Action>, t: nat)
    requires Inv(s) && t < |s.threads| && Legal(s, acts) && ByOthers(acts, t)
    ensures |End(s, acts).threads| == |s.threads| && End(s, acts).threads[t] == s.threads[t]
    ensures End(s, acts).limit == s.limit && |End(s, acts).users| >= |s.users|
    ensures forall u :: 0 <= u < |s.users| ==> End(s, acts).users[u].limit == s.users[u].limit
    decreases |acts|
  {
    if acts != [] {
      StepKeeps(s, acts[0]);
      OthersUnmoved(s, acts[0], t);
      UsersStay(s, acts[0]);
      assert ByOthers(acts[1..], t);
      OthersLeave(Step(s, acts[0]), acts[1..], t);
    }
  }

  ghost predicate Busy(s: State, t: nat)
  {
    match s case State(_, _, _, _, threads, _, _) => Inv(s) && t < |threads| && !threads[t].Idle?
  }

  /** Busy, and if its next step is a limit test, that does not overflow. */
  ghost predicate Ready(s: State, t: nat)
  {
    Busy(s, t) && NoOverflow(s, Advance(t))
  }

  /** The state in which the calling thread takes its step of the round. */
  ghost function Before(s: State, t: nat, r: Round): (s': State)
    requires Busy(s, t) && Interferes(s, t, r)
    ensures Ready(s', t) && s'.threads[t] == s.threads[t] && s'.limit == s.limit
  {
    OthersLeave(s, r.acts, t);
    End(s, r.acts)
  }

  ghost function OwnAction(s: State, t: nat, spurious: bool): (a: Action)
    requires Busy(s, t)
    ensures Enabled(s, a)
  {
    if spurious && Enabled(s, SpuriousFailure(t)) then SpuriousFailure(t) else Advance(t)
  }

  ghost function Own(s: State, t: nat, spurious: bool): (s': State)
    requires Ready(s, t)
    ensures Inv(s') && |s'.threads| == |s.threads|
  {
    var a := OwnAction(s, t, spurious);
    StepKeeps(s, a);
    UsersStay(s, a);
    SameThreads(s, a);
    Step(s, a)
  }

  lemma SameThreads(s: State, a: Action)
    requires Inv(s) && Enabled(s, a)
    ensures |Step(s, a).threads| == |s.threads|
  {
    if a.Advance? { assert ThreadInv(s, s.threads[a.t]); }
  }

  ghost function Turn(s: State, t: nat, r: Round): (s': State)
    requires Busy(s, t) && Interferes(s, t, r)
    ensures Inv(s') && t < |s'.threads|
  {
    Own(Before(s, t, r), t, r.spurious)
  }

  ghost predicate Schedule(s: State, t: nat, rounds: seq<Round>)
    requires Inv(s) && t < |s.threads|
    decreases |rounds|
  {
    Busy(s, t) && rounds != [] ==> Interferes(s, t, rounds[0]) && Schedule(Turn(s, t, rounds[0]), t, rounds[1..])
  }

  /** Where the call, or the schedule, ends. */
  ghost function Finish(s: State, t: nat, rounds: seq<Round>): (s': State)
    requires Inv(s) && t < |s.threads| && Schedule(s, t, rounds)
    ensures t < |s'.threads|
    decreases |rounds|
  {
    if Busy(s, t) && rounds != [] then Finish(Turn(s, t, rounds[0]), t, rounds[1..]) else s
  }

  /** What a call answers that ends with the step from this program point. */
  function AnswerAt(th: Thread): (r: Result)
  {
    match th
    case LoadGlobal(_, _) => GlobalLimit
    case LoadUser(_, _, _) => UserLimit
    case Rollback(_, _) => UserLimit
    case SubGlobal(c) => Released(c)
    case LoadRelease(_, _) => Released(0)
    case Exchange(_) => Released(0)
    case _ => Ok
  }

  ghost function Answer(s: State, t: nat, rounds: seq<Round>): (r: Result)
    requires Inv(s) && t < |s.threads| && Schedule(s, t, rounds)
    decreases |rounds|
  {
    if !Busy(s, t) || rounds == [] then StillTrying
    else if Turn(s, t, rounds[0]).threads[t].Idle? then AnswerAt(s.threads[t])
    else Answer(Turn(s, t, rounds[0]), t, rounds[1..])
  }

  /** What the calling thread's own steps change in the counter of user `x`, and in the global one. */
  ghost function OwnActive(s: State, t: nat, rounds: seq<Round>, x: nat): (n: int)
    requires Inv(s) && t < |s.threads| && Schedule(s, t, rounds) && x < |s.users|
    decreases |rounds|
  {
    if !Busy(s, t) || rounds == [] then 0
    else
      var b, s' := Before(s, t, rounds[0]), Turn(s, t, rounds[0]);
      OthersLeave(s, rounds[0].acts, t);
      UsersStay(b, OwnAction(b, t, rounds[0].spurious));
      s'.users[x].active - b.users[x].active + OwnActive(s', t, rounds[1..], x)
  }

  ghost function OwnGlobal(s: State, t: nat, rounds: seq<Round>): (n: int)
    requires Inv(s) && t < |s.threads| && Schedule(s, t, rounds)
    decreases |rounds|
  {
    if !Busy(s, t) || rounds == [] then 0
    else
      var b, s' := Before(s, t, rounds[0]), Turn(s, t, rounds[0]);
      s'.global - b.global + OwnGlobal(s', t, rounds[1..])
  }

  /** Some step of the call is taken in a state where `seen` holds. */
  ghost predicate Sometime(s: State, t: nat, rounds: seq<Round>, seen: State -> bool)
    requires Inv(s) && t < |s.threads| && Schedule(s, t, rounds)
    decreases |rounds|
  {
    && Busy(s, t) && rounds != []
    && (seen(Before(s, t, rounds[0])) || Sometime(Turn(s, t, rounds[0]), t, rounds[1..], seen))
  }

  /** The thread is inside an acquire of `c` slots for user `u`. */
  predicate InAcquire(th: Thread, u: nat, c: nat)
  {
    match th
    case LoadGlobal(u', c') => u' == u && c' == c
    case CasGlobal(u', c', _) => u' == u && c' == c
    case LoadUser(u', c', _) => u' == u && c' == c
    case CasUser(u', c', _, _) => u' == u && c' == c
    case Rollback(u', c') => u' == u && c' == c
    case AddGlobal(u', c', _) => u' == u && c' == c
    case LoadPeak(u', _, _) => u' == u
    case CasPeak(u', _, _, _) => u' == u
    case LoadGlobalPeak(_) => true
    case CasGlobalPeak(_, _) => true
    case _ => false
  }

  /** How much of `c` the acquire has put into the user's and into the global counter so far. */
  function PutActive(th: Thread, c: nat): (n: nat)
  {
    if th.AddGlobal? || th.LoadPeak? || th.CasPeak? || th.LoadGlobalPeak? || th.CasGlobalPeak? then c else 0
  }

  function PutGlobal(th: Thread, c: nat, limit: nat): (n: nat)
  {
    if th.LoadUser? || th.CasUser? then (if limit > 0 then c else 0)
    else if th.Rollback? || th.LoadPeak? || th.CasPeak? || th.LoadGlobalPeak? || th.CasGlobalPeak? then c
    else 0
  }

  /** What one own step of an acquire does: it changes the counters by what its program point says, and
      when the call ends, the whole count is in both if it succeeded, and none of it in either if not. */
  ghost predicate Effect(s: State, s': State, t: nat, u: nat, c: nat)
    requires t < |s.threads| == |s'.threads| && u < |s.users| == |s'.users|
  {
    var th, th' := s.threads[t], s'.threads[t];
    var done := if AnswerAt(th) == Ok then c else 0;
    && (forall x :: 0 <= x < |s.users| && x != u ==> s'.users[x].active == s.users[x].active)
    && (if th'.Idle? then AnswerAt(th) in {Ok, GlobalLimit, UserLimit} else InAcquire(th', u, c))
    && s'.users[u].active - s.users[u].active == (if th'.Idle? then done else PutActive(th', c)) - PutActive(th, c)
    && s'.global - s.global == (if th'.Idle? then done else PutGlobal(th', c, s.limit)) - PutGlobal(th, c, s.limit)
  }

  lemma RetryEffect(s: State, t: nat, u: nat, c: nat)
    requires Ready(s, t) && InAcquire(s.threads[t], u, c) && u < |s.users| && Enabled(s, SpuriousFailure(t))
    ensures |Retry(s, t).users| == |s.users| && Effect(s, Retry(s, t), t, u, c)
  {
  }

  lemma ReserveEffect(s: State, t: nat, u: nat, c: nat)
    requires Ready(s, t) && InAcquire(s.threads[t], u, c) && u < |s.users|
    requires s.threads[t].LoadGlobal? || s.threads[t].CasGlobal?
    ensures |AdvanceAcquire(s, t).users| == |s.users| && Effect(s, AdvanceAcquire(s, t), t, u, c)
  {
    assert ThreadInv(s, s.threads[t]);
  }

  lemma UserEffect(s: State, t: nat, u: nat, c: nat)
    requires Ready(s, t) && InAcquire(s.threads[t], u, c) && u < |s.users|
    requires s.threads[t].LoadUser? || s.threads[t].CasUser?
    ensures |AdvanceAcquire(s, t).users| == |s.users| && Effect(s, AdvanceAcquire(s, t), t, u, c)
  {
    assert ThreadInv(s, s.threads[t]);
  }

  lemma SettleEffect(s: State, t: nat, u: nat, c: nat)
    requires Ready(s, t) && InAcquire(s.threads[t], u, c) && u < |s.users|
    requires s.threads[t].Rollback? || s.threads[t].AddGlobal?
    ensures |AdvanceAcquire(s, t).users| == |s.users| && Effect(s, AdvanceAcquire(s, t), t, u, c)
  {
    assert ThreadInv(s, s.threads[t]);
  }

  lemma PeakEffect(s: State, t: nat, u: nat, c: nat)
    requires Ready(s, t) && InAcquire(s.threads[t], u, c) && u < |s.users|
    requires s.threads[t].LoadPeak? || s.threads[t].CasPeak? || s.threads[t].LoadGlobalPeak?
             || s.threads[t].CasGlobalPeak?
    ensures |AdvanceAcquire(s, t).users| == |s.users| && Effect(s, AdvanceAcquire(s, t), t, u, c)
  {
    assert ThreadInv(s, s.threads[t]);
  }

  lemma AcquireStep(s: State, t: nat, u: nat, c: nat, spurious: bool)
    requires Ready(s, t) && InAcquire(s.threads[t], u, c) && u < |s.users|
    ensures |Own(s, t, spurious).users| == |s.users| && Own(s, t, spurious).limit == s.limit
    ensures Effect(s, Own(s, t, spurious), t, u, c)
  {
    var th := s.threads[t];
    UsersStay(s, OwnAction(s, t, spurious));
    if OwnAction(s, t, spurious).SpuriousFailure? {
      RetryEffect(s, t, u, c);
    } else if th.LoadGlobal? || th.CasGlobal? {
      ReserveEffect(s, t, u, c);
    } else if th.LoadUser? || th.CasUser? {
      UserEffect(s, t, u, c);
    } else if th.Rollback? || th.AddGlobal? {
      SettleEffect(s, t, u, c);
    } else {
      PeakEffect(s, t, u, c);
    }
  }

  /** Whatever the others do, an acquire that succeeds has by its own steps added exactly `c` to its user's
      counter and to the global one; one that is denied has added nothing to either; and in no case does it
      touch another user. */
  lemma {:induction false} AcquireEffect(s: State, t: nat, u: nat, c: nat, rounds: seq<Round>)
    requires Busy(s, t) && InAcquire(s.threads[t], u, c) && u < |s.users| && Schedule(s, t, rounds)
    ensures Answer(s, t, rounds) in {Ok, GlobalLimit, UserLimit, StillTrying}
    ensures Answer(s, t, rounds) != StillTrying <==> Finish(s, t, rounds).threads[t].Idle?
    ensures
      var done := if Answer(s, t, rounds) == Ok then c else 0;
      Answer(s, t, rounds) != StillTrying ==>
        && OwnActive(s, t, rounds, u) == done - PutActive(s.threads[t], c)
        && OwnGlobal(s, t, rounds) == done - PutGlobal(s.threads[t], c, s.limit)
    ensures forall x :: 0 <= x < |s.users| && x != u ==> OwnActive(s, t, rounds, x) == 0
    decreases |rounds|
  {
    if rounds != [] {
      var b, s' := Before(s, t, rounds[0]), Turn(s, t, rounds[0]);
      OthersLeave(s, rounds[0].acts, t);
      AcquireStep(b, t, u, c, rounds[0].spurious);
      if s'.threads[t].Idle? {
        NothingMore(s', t, rounds[1..]);
      } else {
        AcquireEffect(s', t, u, c, rounds[1..]);
      }
    }
  }

  lemma NothingMore(s: State, t: nat, rounds: seq<Round>)
    requires Inv(s) && t < |s.threads| && s.threads[t].Idle? && Schedule(s, t, rounds)
    ensures Finish(s, t, rounds) == s && OwnGlobal(s, t, rounds) == 0
    ensures forall x :: 0 <= x < |s.users| ==> OwnActive(s, t, rounds, x) == 0
  {
  }

  /** The thread's load found too little room. */
  function NoGlobalRoom(t: nat, c: nat): (r: State -> bool)
  {
    (s: State) => t < |s.threads| && s.threads[t].LoadGlobal? && Wrap(s.global) + c > s.limit
  }

  function NoUserRoom(t: nat, u: nat, c: nat): (r: State -> bool)
  {
    (s: State) =>
      && t < |s.threads| && s.threads[t].LoadUser? && u < |s.users|
      && s.users[u].active + c > s.users[u].limit
  }

  /** A denial had its reason: in the state of one of the call's own loads the counter left no room. */
  lemma {:induction false} DenialHasReason(s: State, t: nat, u: nat, c: nat, rounds: seq<Round>)
    requires Busy(s, t) && InAcquire(s.threads[t], u, c) && u < |s.users| && Schedule(s, t, rounds)
    ensures Answer(s, t, rounds) == GlobalLimit ==> Sometime(s, t, rounds, NoGlobalRoom(t, c))
    ensures Answer(s, t, rounds) == UserLimit ==>
              s.threads[t].Rollback? || Sometime(s, t, rounds, NoUserRoom(t, u, c))
    decreases |rounds|
  {
    if rounds != [] {
      var b, s' := Before(s, t, rounds[0]), Turn(s, t, rounds[0]);
      OthersLeave(s, rounds[0].acts, t);
      AcquireStep(b, t, u, c, rounds[0].spurious);
      LeavesForReason(b, t, u, c, rounds[0].spurious);
      if !s'.threads[t].Idle? {
        DenialHasReason(s', t, u, c, rounds[1..]);
      }
    }
  }

  lemma LeavesForReason(s: State, t: nat, u: nat, c: nat, spurious: bool)
    requires Ready(s, t) && InAcquire(s.threads[t], u, c) && u < |s.users|
    ensures
      var th, th' := s.threads[t], Own(s, t, spurious).threads[t];
      && (th'.Idle? && th.LoadGlobal? ==> NoGlobalRoom(t, c)(s))
      && ((th'.Idle? && th.LoadUser?) || (th'.Rollback? && !th.Rollback?) ==> NoUserRoom(t, u, c)(s))
  {
    assert ThreadInv(s, s.threads[t]);
  }

  /** The thread is inside a release, of at most `c` slots, or a release-all for user `u`. */
  predicate InRelease(th: Thread, u: nat)
  {
    (th.LoadRelease? && th.u == u) || (th.CasRelease? && th.u == u) || (th.Exchange? && th.u == u) || th.SubGlobal?
  }

  function TakenActive(th: Thread): (n: nat)
  {
    if th.SubGlobal? then th.c else 0
  }

  ghost predicate GivesBack(s: State, s': State, t: nat, u: nat)
    requires t < |s.threads| == |s'.threads| && u < |s.users| == |s'.users|
  {
    var th, th' := s.threads[t], s'.threads[t];
    && (forall x :: 0 <= x < |s.users| && x != u ==> s'.users[x].active == s.users[x].active)
    && (if th'.Idle? then AnswerAt(th).Released? && TakenActive(th) == AnswerAt(th).n else InRelease(th', u))
    && s.users[u].active - s'.users[u].active
      == (if th'.Idle? then TakenActive(th) else TakenActive(th')) - TakenActive(th)
    && s.global - s'.global == (if th'.Idle? then TakenActive(th) else 0)
  }

  lemma ReleaseStep(s: State, t: nat, u: nat, spurious: bool)
    requires Ready(s, t) && InRelease(s.threads[t], u) && u < |s.users|
    ensures |Own(s, t, spurious).users| == |s.users| && GivesBack(s, Own(s, t, spurious), t, u)
  {
    assert ThreadInv(s, s.threads[t]);
    UsersStay(s, OwnAction(s, t, spurious));
  }

  /** Whatever the others do, a release that answers has by its own steps taken exactly that amount out of
      its user's counter and out of the global one, and touched no other user. */
  lemma {:induction false} ReleaseEffect(s: State, t: nat, u: nat, rounds: seq<Round>)
    requires Busy(s, t) && InRelease(s.threads[t], u) && u < |s.users| && Schedule(s, t, rounds)
    ensures Answer(s, t, rounds) != StillTrying <==> Finish(s, t, rounds).threads[t].Idle?
    ensures Answer(s, t, rounds) != StillTrying ==>
              && Answer(s, t, rounds).Released?
              && OwnActive(s, t, rounds, u) == TakenActive(s.threads[t]) - Answer(s, t, rounds).n
              && OwnGlobal(s, t, rounds) + Answer(s, t, rounds).n == 0
    ensures forall x :: 0 <= x < |s.users| && x != u ==> OwnActive(s, t, rounds, x) == 0
    decreases |rounds|
  {
    if rounds != [] {
      var b, s' := Before(s, t, rounds[0]), Turn(s, t, rounds[0]);
      OthersLeave(s, rounds[0].acts, t);
      ReleaseStep(b, t, u, rounds[0].spurious);
      if s'.threads[t].Idle? {
        NothingMore(s', t, rounds[1..]);
      } else {
        ReleaseEffect(s', t, u, rounds[1..]);
      }
    }
  }

  /** The thread's load, or exchange, found exactly `n` slots of the user taken. */
  function Found(t: nat, u: nat, n: nat): (r: State -> bool)
  {
    (s: State) =>
      && t < |s.threads| && (s.threads[t].LoadRelease? || s.threads[t].Exchange?)
      && u < |s.users| && s.users[u].active == n
  }

  /** A release returns what it was asked to, or all that one of its loads found; a release-all returns
      what its exchange found. */
  ghost predicate Asked(th: Thread, n: nat)
  {
    (th.LoadRelease? || th.CasRelease? || th.SubGlobal?) && th.c == n
  }

  lemma {:induction false} ReleasedAmount(s: State, t: nat, u: nat, rounds: seq<Round>)
    requires Busy(s, t) && InRelease(s.threads[t], u) && u < |s.users| && Schedule(s, t, rounds)
    ensures
      var r := Answer(s, t, rounds);
      r.Released? ==>
        && (!s.threads[t].Exchange? ==> r.n <= s.threads[t].c)
        && (Asked(s.threads[t], r.n) || Sometime(s, t, rounds, Found(t, u, r.n)))
    decreases |rounds|
  {
    if rounds != [] {
      var b, s' := Before(s, t, rounds[0]), Turn(s, t, rounds[0]);
      OthersLeave(s, rounds[0].acts, t);
      ReleaseStep(b, t, u, rounds[0].spurious);
      AmountStep(b, t, u, rounds[0].spurious);
      if !s'.threads[t].Idle? {
        ReleasedAmount(s', t, u, rounds[1..]);
      }
    }
  }

  /** One step of a release keeps the amount asked for, or lowers it to what it found. */
  lemma AmountStep(s: State, t: nat, u: nat, spurious: bool)
    requires Ready(s, t) && InRelease(s.threads[t], u) && u < |s.users|
    ensures
      var th, th' := s.threads[t], Own(s, t, spurious).threads[t];
      if th'.Idle? then
        !th.SubGlobal? ==> Found(t, u, 0)(s)
      else
        && !th'.Exchange?
        && (th.Exchange? ==> Found(t, u, th'.c)(s))
        && (!th.Exchange? ==> th'.c <= th.c && (th'.c == th.c || Found(t, u, th'.c)(s)))
  {
    assert ThreadInv(s, s.threads[t]);
  }

  /** A call of thread `t` that began in `s0` with the schedule `rounds`. */
  datatype Call = Call(s0: State, rounds: seq<Round>, t: nat)

  /** The call has come to `s` with `rest` of its schedule left. */
  ghost predicate Continues(call: Call, s: State, rest: seq<Round>)
  {
    match call
    case Call(s0, rounds, t) =>
      && Busy(s0, t) && Busy(s, t) && Schedule(s0, t, rounds) && Schedule(s, t, rest)
      && Finish(s, t, rest) == Finish(s0, t, rounds) && Answer(s, t, rest) == Answer(s0, t, rounds)
  }

  /** It has ended in `s`, or run out of rounds there, with the answer `r`. */
  ghost predicate Over(call: Call, s: State, r: Result)
  {
    match call
    case Call(s0, rounds, t) =>
      Busy(s0, t) && Schedule(s0, t, rounds) && s == Finish(s0, t, rounds) && r == Answer(s0, t, rounds)
  }

  lemma Begin(s: State, rounds: seq<Round>, t: nat)
    requires Busy(s, t) && Schedule(s, t, rounds)
    ensures Continues(Call(s, rounds, t), s, rounds)
  {
  }

  /** The call stands at a busy thread, and the next round can be taken. */
  lemma Standing(call: Call, s: State, rest: seq<Round>)
    requires Continues(call, s, rest)
    ensures Busy(s, call.t) && Schedule(s, call.t, rest)
  {
  }

  /** A part of the call, seen as a call of its own, takes it on or ends it. */
  lemma Joined(call: Call, s: State, rest: seq<Round>, s': State, rest': seq<Round>, r: Result)
    requires Continues(call, s, rest)
    ensures Continues(Call(s, rest, call.t), s', rest') ==> Continues(call, s', rest')
    ensures Over(Call(s, rest, call.t), s', r) ==> Over(call, s', r)
  {
  }

  /** One turn takes the call on, or ends it. */
  lemma GoOn(call: Call, s: State, rest: seq<Round>)
    requires Continues(call, s, rest) && rest != []
    ensures Busy(s, call.t) && Interferes(s, call.t, rest[0])
    ensures
      var s' := Turn(s, call.t, rest[0]);
      if s'.threads[call.t].Idle? then Over(call, s', AnswerAt(s.threads[call.t]))
      else Continues(call, s', rest[1..])
  {
  }

  lemma RunOut(call: Call, s: State)
    requires Continues(call, s, [])
    ensures Over(call, s, StillTrying)
  {
  }

  /** The state in which a call has just begun. */
  ghost function Called(s: State, a: Action): (s': State)
    requires Inv(s) && Enabled(s, a) && (a.Acquire? || a.Release? || a.ReleaseAll?)
    ensures Busy(s', a.t) && s'.threads[a.t] == Entry(s, a) && |s'.users| == |s.users| && s'.limit == s.limit
  {
    StepKeeps(s, a);
    Step(s, a)
  }

  function Entry(s: State, a: Action): (th': Thread)
    requires a.Acquire? || a.Release? || a.ReleaseAll?
  {
    if a.ReleaseAll? then Exchange(a.u)
    else if a.Release? then LoadRelease(a.u, a.c)
    else if s.limit > 0 then LoadGlobal(a.u, a.c) else LoadUser(a.u, a.c, 0)
  }

  /** What an acquire called in `s` with the answer `r` has done: on success its own steps have added
      exactly `c` to both counters, on a denial nothing, and the denial had its reason. */
  ghost predicate Acquired(s: State, t: nat, u: nat, c: word, rounds: seq<Round>, r: Result)
    requires Inv(s) && Enabled(s, Acquire(t, u, c)) && Schedule(Called(s, Acquire(t, u, c)), t, rounds)
  {
    var s0 := Called(s, Acquire(t, u, c));
    match r
    case Ok => OwnActive(s0, t, rounds, u) == c == OwnGlobal(s0, t, rounds)
    case GlobalLimit =>
      OwnActive(s0, t, rounds, u) == 0 == OwnGlobal(s0, t, rounds) && Sometime(s0, t, rounds, NoGlobalRoom(t, c))
    case UserLimit =>
      OwnActive(s0, t, rounds, u) == 0 == OwnGlobal(s0, t, rounds) && Sometime(s0, t, rounds, NoUserRoom(t, u, c))
    case Released(_) => false
    case StillTrying => !Finish(s0, t, rounds).threads[t].Idle?
  }

  lemma AcquireDoes(s: State, t: nat, u: nat, c: word, rounds: seq<Round>)
    requires Inv(s) && Enabled(s, Acquire(t, u, c)) && Schedule(Called(s, Acquire(t, u, c)), t, rounds)
    ensures Acquired(s, t, u, c, rounds, Answer(Called(s, Acquire(t, u, c)), t, rounds))
  {
    var s0 := Called(s, Acquire(t, u, c));
    AcquireEffect(s0, t, u, c, rounds);
    DenialHasReason(s0, t, u, c, rounds);
  }

  /** What a release of `c` slots called in `s` with the answer `r` has done: its own steps have taken the
      answered amount out of both counters, and that is what was asked for or all that a load found. */
  ghost predicate GaveBack(s: State, a: Action, rounds: seq<Round>, r: Result)
    requires a.Release? || a.ReleaseAll?
    requires Inv(s) && Enabled(s, a) && Schedule(Called(s, a), a.t, rounds)
  {
    var s0 := Called(s, a);
    match r
    case Released(n) =>
      && OwnActive(s0, a.t, rounds, a.u) + n == 0 == OwnGlobal(s0, a.t, rounds) + n
      && ((a.Release? && n == a.c) || Sometime(s0, a.t, rounds, Found(a.t, a.u, n)))
      && (a.Release? ==> n <= a.c)
    case StillTrying => !Finish(s0, a.t, rounds).threads[a.t].Idle?
    case _ => false
  }

  lemma ReleaseDoes(s: State, a: Action, rounds: seq<Round>)
    requires a.Release? || a.ReleaseAll?
    requires Inv(s) && Enabled(s, a) && Schedule(Called(s, a), a.t, rounds)
    ensures GaveBack(s, a, rounds, Answer(Called(s, a), a.t, rounds))
  {
    var s0 := Called(s, a);
    ReleaseEffect(s0, a.t, a.u, rounds);
    ReleasedAmount(s0, a.t, a.u, rounds);
  }
}
