/** The two-level limiter of loopyConcurrencyPool.c: every atomic load, compare-and-swap, exchange,
    add and subtract is one step of one of any number of threads. `global` is the true balance of
    globalActive; the counter itself is a 64-bit word and holds Wrap(global), so a balance below zero
    is read as a huge count. */
module ConcurrencyLimiter {
  import opened Sums
  import opened Words

  /** `top` is history: the largest value the user's counter has had. */
  datatype User = User(active: nat, limit: word, alive: bool, peak: nat, top: nat)

  /** Program points; `g` is the global count this acquire reserved, `v` the user count it produced. */
  datatype Thread =
    | Idle
    | LoadGlobal(u: nat, c: nat)
    | CasGlobal(u: nat, c: nat, seen: word)
    | LoadUser(u: nat, c: nat, g: word)
    | CasUser(u: nat, c: nat, g: word, a: nat)
    | Rollback(u: nat, c: nat)
    | AddGlobal(u: nat, c: nat, v: nat)
    | LoadPeak(u: nat, v: nat, g: word)
    | CasPeak(u: nat, v: nat, g: word, seenPeak: nat)
    | LoadGlobalPeak(g: word)
    | CasGlobalPeak(g: word, oldPeak: word)
    | LoadRelease(u: nat, c: nat)
    | CasRelease(u: nat, c: nat, a: nat)
    | Exchange(u: nat)
    | SubGlobal(c: nat)
    | LoadRemove(u: nat)
    | SubRemove(u: nat, a: nat)

  /** History: `topCounter` is the largest true value the global counter has had, `topWord` the largest
      value that an acquire on its way to the peak saw in it. */
  datatype State = State(limit: word, global: int, globalPeak: word, users: seq<User>, threads: seq<Thread>,
                         topCounter: int, topWord: word)

  datatype Action =
    | Acquire(t: nat, u: nat, c: word) | Release(t: nat, u: nat, c: word) | ReleaseAll(t: nat, u: nat)
    | Remove(t: nat, u: nat) | AddUser(userLimit: word)
    | Advance(t: nat) | SpuriousFailure(t: nat)

  function Init(limit: word, threads: nat): (s: State)
  {
    State(limit, 0, 0, [], seq(threads, _ => Idle), 0, 0)
  }

  predicate NamesUser(th: Thread)
  {
    !th.Idle? && !th.LoadGlobalPeak? && !th.CasGlobalPeak? && !th.SubGlobal?
  }

  /** The thread works on user `u`. */
  predicate On(th: Thread, u: nat)
  {
    NamesUser(th) && th.u == u
  }

  predicate Quiet(s: State, u: nat)
  {
    forall i :: 0 <= i < |s.threads| ==> !On(s.threads[i], u)
  }

  predicate Removes(th: Thread) { th.LoadRemove? || th.SubRemove? }

  predicate BeingRemoved(s: State, u: nat)
  {
    exists i :: 0 <= i < |s.threads| && On(s.threads[i], u) && Removes(s.threads[i])
  }

  /** The thread is about to compare and swap; the peak loops do so only while their value is larger. */
  predicate Swaps(th: Thread)
  {
    || th.CasGlobal? || th.CasUser? || th.CasRelease?
    || (th.CasPeak? && th.v > th.seenPeak) || (th.CasGlobalPeak? && th.g > th.oldPeak)
  }

  /** A call may start on a live user nobody is removing; a removal only on a user nobody uses. */
  predicate Enabled(s: State, a: Action)
  {
    match a
    case Acquire(t, u, c) =>
      t < |s.threads| && s.threads[t].Idle? && u < |s.users| && s.users[u].alive && !BeingRemoved(s, u) && c > 0
    case Release(t, u, c) =>
      t < |s.threads| && s.threads[t].Idle? && u < |s.users| && s.users[u].alive && !BeingRemoved(s, u) && c > 0
    case ReleaseAll(t, u) =>
      t < |s.threads| && s.threads[t].Idle? && u < |s.users| && s.users[u].alive && !BeingRemoved(s, u)
    case Remove(t, u) =>
      t < |s.threads| && s.threads[t].Idle? && u < |s.users| && s.users[u].alive && Quiet(s, u)
    case AddUser(_) => true
    case Advance(t) => t < |s.threads| && !s.threads[t].Idle?
    case SpuriousFailure(t) =>
      t < |s.threads| && Swaps(s.threads[t])
  }

  function Put(s: State, t: nat, th: Thread): (s': State)
    requires t < |s.threads|
  {
    s.(threads := s.threads[t := th])
  }

  function SetUser(s: State, u: nat, x: User): (s': State)
    requires u < |s.users|
  {
    s.(users := s.users[u := x])
  }

  function Max(a: int, b: int): (n: int) { if a < b then b else a }

  /** An acquire adds `c` to the global counter. */
  function Raised(s: State, c: nat): (s': State)
  {
    s.(global := s.global + c, topCounter := Max(s.topCounter, s.global + c))
  }

  /** An acquire that has both its reservations saw `g` in the global counter. */
  function Seen(s: State, g: word): (s': State)
  {
    s.(topWord := if s.topWord < g then g else s.topWord)
  }

  /** The limit test of an acquire, on 64-bit words. */
  predicate HasRoom(n: nat, c: nat, limit: word)
  {
    Wrap(n + c) <= limit
  }

  /** If the step makes a limit test, the sum it computes does not overflow. */
  predicate NoOverflow(s: State, a: Action)
  {
    a.Advance? && a.t < |s.threads| ==>
      match s.threads[a.t]
      case LoadGlobal(_, c) => Wrap(s.global) + c < WORD
      case LoadUser(u, c, _) => u < |s.users| ==> s.users[u].active + c < WORD
      case _ => true
  }

  /** Where a compare-and-swap that did not succeed goes: back to its load, with the value it found. */
  function Retry(s: State, t: nat): (s': State)
    requires Enabled(s, SpuriousFailure(t)) && UsersExist(s)
  {
    match s.threads[t]
    case CasGlobal(u, c, _) => Put(s, t, LoadGlobal(u, c))
    case CasUser(u, c, g, _) => Put(s, t, LoadUser(u, c, g))
    case CasPeak(u, v, g, _) => Put(s, t, CasPeak(u, v, g, s.users[u].peak))
    case CasGlobalPeak(g, _) => Put(s, t, CasGlobalPeak(g, s.globalPeak))
    case CasRelease(u, c, _) => Put(s, t, LoadRelease(u, c))
  }

  ghost predicate UsersExist(s: State)
  {
    forall i :: 0 <= i < |s.threads| && NamesUser(s.threads[i]) ==> s.threads[i].u < |s.users|
  }

  function AdvanceAcquire(s: State, t: nat): (s': State)
    requires Enabled(s, Advance(t)) && UsersExist(s)
  {
    match s.threads[t]
    case LoadGlobal(u, c) =>
      Put(s, t, if HasRoom(Wrap(s.global), c, s.limit) then CasGlobal(u, c, Wrap(s.global)) else Idle)
    case CasGlobal(u, c, seen) =>
      if Wrap(s.global) == seen then Raised(Put(s, t, LoadUser(u, c, Wrap(seen + c))), c)
      else Retry(s, t)
    case LoadUser(u, c, g) =>
      Put(s, t,
          if HasRoom(s.users[u].active, c, s.users[u].limit) then CasUser(u, c, g, s.users[u].active)
          else if s.limit > 0 then Rollback(u, c)
          else Idle)
    case CasUser(u, c, g, a) =>
      var x := s.users[u];
      if x.active != a then Retry(s, t)
      else
        var v := Wrap(a + c);
        var s1 := SetUser(s, u, x.(active := v, top := Max(x.top, v)));
        if s.limit > 0 then Seen(Put(s1, t, LoadPeak(u, v, g)), g) else Put(s1, t, AddGlobal(u, c, v))
    case Rollback(u, c) => Put(s, t, Idle).(global := s.global - c)
    case AddGlobal(u, c, v) =>
      Seen(Raised(Put(s, t, LoadPeak(u, v, Wrap(s.global + c))), c), Wrap(s.global + c))
    case LoadPeak(u, v, g) => Put(s, t, CasPeak(u, v, g, s.users[u].peak))
    case CasPeak(u, v, g, seenPeak) =>
      if v <= seenPeak then Put(s, t, LoadGlobalPeak(g))
      else if s.users[u].peak == seenPeak then Put(SetUser(s, u, s.users[u].(peak := v)), t, LoadGlobalPeak(g))
      else Retry(s, t)
    case LoadGlobalPeak(g) => Put(s, t, CasGlobalPeak(g, s.globalPeak))
    case CasGlobalPeak(g, oldPeak) =>
      if g <= oldPeak then Put(s, t, Idle)
      else if s.globalPeak == oldPeak then Put(s, t, Idle).(globalPeak := g)
      else Retry(s, t)
    case _ => s
  }

  function AdvanceRelease(s: State, t: nat): (s': State)
    requires Enabled(s, Advance(t)) && UsersExist(s)
  {
    match s.threads[t]
    case LoadRelease(u, c) =>
      var a := s.users[u].active;
      Put(s, t, if a == 0 then Idle else CasRelease(u, if c > a then a else c, a))
    case CasRelease(u, c, a) =>
      if s.users[u].active == a && c <= a then Put(SetUser(s, u, s.users[u].(active := a - c)), t, SubGlobal(c))
      else Retry(s, t)
    case Exchange(u) =>
      var a := s.users[u].active;
      Put(SetUser(s, u, s.users[u].(active := 0)), t, if a > 0 then SubGlobal(a) else Idle)
    case SubGlobal(c) => Put(s, t, Idle).(global := s.global - c)
    case LoadRemove(u) => Put(s, t, SubRemove(u, s.users[u].active))
    case SubRemove(u, a) =>
      Put(SetUser(s, u, s.users[u].(alive := false, active := 0)), t, Idle).(global := s.global - a)
    case _ => s
  }

  function Step(s: State, a: Action): (s': State)
    requires Enabled(s, a) && UsersExist(s)
  {
    match a
    case Acquire(t, u, c) => Put(s, t, if s.limit > 0 then LoadGlobal(u, c) else LoadUser(u, c, 0))
    case Release(t, u, c) => Put(s, t, LoadRelease(u, c))
    case ReleaseAll(t, u) => Put(s, t, Exchange(u))
    case Remove(t, u) => Put(s, t, LoadRemove(u))
    case AddUser(userLimit) => s.(users := s.users + [User(0, userLimit, true, 0, 0)])
    case Advance(t) => if Acquiring(s.threads[t]) then AdvanceAcquire(s, t) else AdvanceRelease(s, t)
    case SpuriousFailure(t) => Retry(s, t)
  }

  predicate Acquiring(th: Thread)
  {
    !th.Idle? && !th.LoadRelease? && !th.CasRelease? && !th.Exchange? && !th.SubGlobal? && !th.LoadRemove?
      && !th.SubRemove?
  }

  /** Slots a thread has taken from, or not yet given back to, the global counter without the user
      counter knowing. Without a global limit the user counter is first, so the amount is negative. */
  function InFlightLimited(th: Thread): (n: int)
  {
    match th
    case LoadUser(_, c, _) => c
    case CasUser(_, c, _, _) => c
    case Rollback(_, c) => c
    case SubGlobal(c) => c
    case _ => 0
  }

  function InFlightUnlimited(th: Thread): (n: int)
  {
    match th
    case AddGlobal(_, c, _) => var held: int := c; -held
    case SubGlobal(c) => c
    case _ => 0
  }

  function Flight(limit: nat): (r: Thread -> int) { if limit > 0 then InFlightLimited else InFlightUnlimited }

  function Active(x: User): (n: int) { x.active }

  ghost predicate ThreadInv(s: State, th: Thread)
  {
    && (NamesUser(th) ==> th.u < |s.users| && s.users[th.u].alive)
    && (th.LoadGlobal? || th.CasGlobal? || th.Rollback? ==> s.limit > 0)
    && (th.AddGlobal? ==> s.limit == 0)
    && (th.CasGlobal? ==> th.seen + th.c <= s.limit)
    && (th.LoadUser? || th.CasUser? ==> s.limit > 0 ==> th.g <= s.topCounter)
    && (th.CasUser? ==> th.a + th.c <= s.users[th.u].limit)
    && (th.LoadRelease? ==> 0 < th.c) && (th.CasRelease? ==> 0 < th.c <= th.a)
    && (th.SubRemove? ==> th.a == s.users[th.u].active)
    && (th.LoadPeak? || th.CasPeak? || th.AddGlobal? ==> th.v <= s.users[th.u].top)
    && (th.LoadPeak? || th.CasPeak? || th.LoadGlobalPeak? || th.CasGlobalPeak? ==> th.g <= s.topWord)
    && (th.CasPeak? ==> th.seenPeak <= s.users[th.u].peak)
    && (th.CasGlobalPeak? ==> th.oldPeak <= s.globalPeak)
  }

  /** Nobody shares a user with a removal. */
  ghost predicate RemovalAlone(s: State)
  {
    forall i, j :: 0 <= i < |s.threads| && 0 <= j < |s.threads| && i != j && Removes(s.threads[i]) ==>
      !On(s.threads[j], s.threads[i].u)
  }

  ghost predicate UserInv(x: User)
  {
    x.active <= x.limit && x.peak <= x.top <= x.limit && x.active <= x.top
  }

  ghost predicate Inv(s: State)
    ensures Inv(s) ==> UsersExist(s)
  {
    assert (forall i :: 0 <= i < |s.threads| ==> ThreadInv(s, s.threads[i])) ==> UsersExist(s) by {
      forall i | 0 <= i < |s.threads| && ThreadInv(s, s.threads[i]) && NamesUser(s.threads[i])
        ensures s.threads[i].u < |s.users| {
      }
    }
    && (forall i :: 0 <= i < |s.threads| ==> ThreadInv(s, s.threads[i]))
    && RemovalAlone(s)
    && (forall u :: 0 <= u < |s.users| ==> UserInv(s.users[u]))
    && s.global == Sum(Active, s.users) + Sum(Flight(s.limit), s.threads)
    && s.globalPeak <= s.topWord
    && s.global <= s.topCounter
    && (s.limit > 0 ==> s.topWord <= s.topCounter <= s.limit)
  }

  lemma InitHolds(limit: word, threads: nat)
    ensures Inv(Init(limit, threads))
  {
    SumZero(Flight(limit), Init(limit, threads).threads);
  }

  /** What one thread's step may do to the state beside moving that thread. */
  ghost predicate Frame(s: State, s': State, t: nat)
    requires t < |s.threads| == |s'.threads|
  {
    && |s'.users| == |s.users| && s'.limit == s.limit
    && s'.topWord >= s.topWord && s'.globalPeak >= s.globalPeak && s'.topCounter >= s.topCounter
    && s'.threads == s.threads[t := s'.threads[t]]
    && (forall u :: 0 <= u < |s.users| ==>
          if On(s.threads[t], u) then UserGrows(s.users[u], s'.users[u]) else s'.users[u] == s.users[u])
  }

  ghost predicate UserGrows(x: User, x': User)
  {
    x'.limit == x.limit && x'.top >= x.top && x'.peak >= x.peak
  }

  /** The step keeps its user alive unless it is a removal, and does not turn to another user. */
  ghost predicate SameUser(s: State, s': State, t: nat)
    requires t < |s.threads| == |s'.threads| && |s'.users| == |s.users| && UsersExist(s)
  {
    var th, th' := s.threads[t], s'.threads[t];
    && (NamesUser(th') ==> On(th, th'.u))
    && (Removes(th') ==> Removes(th))
    && (NamesUser(th) && !Removes(th) ==> s'.users[th.u].alive == s.users[th.u].alive)
  }

  lemma OthersKeep(s: State, s': State, t: nat, i: nat)
    requires Inv(s) && t < |s.threads| == |s'.threads| && Frame(s, s', t) && SameUser(s, s', t)
    requires i < |s.threads| && i != t
    ensures ThreadInv(s', s'.threads[i])
  {
    assert ThreadInv(s, s.threads[i]) && ThreadInv(s, s.threads[t]);
    assert s'.threads[i] == s.threads[i];
  }

  lemma SumsMove(s: State, s': State, t: nat)
    requires Inv(s) && t < |s.threads| == |s'.threads| && Frame(s, s', t)
    ensures
      Sum(Flight(s.limit), s'.threads) ==
      Sum(Flight(s.limit), s.threads) - Flight(s.limit)(s.threads[t]) + Flight(s.limit)(s'.threads[t])
    ensures Sum(Active, s'.users) == Sum(Active, s.users) + ActiveChange(s, s', t)
  {
    SumUpdate(Flight(s.limit), s.threads, t, s'.threads[t]);
    var th := s.threads[t];
    if NamesUser(th) {
      SumUpdate(Active, s.users, th.u, s'.users[th.u]);
      assert s'.users == s.users[th.u := s'.users[th.u]];
    } else {
      assert s'.users == s.users;
    }
  }

  function ActiveChange(s: State, s': State, t: nat): (n: int)
    requires t < |s.threads| && |s'.users| == |s.users| && UsersExist(s)
  {
    var th := s.threads[t];
    if NamesUser(th) then s'.users[th.u].active - s.users[th.u].active else 0
  }

  /** The global counter moved by what the user counter and the thread's in-flight amount moved. */
  ghost predicate Balanced(s: State, s': State, t: nat)
    requires t < |s.threads| == |s'.threads| && |s'.users| == |s.users| && UsersExist(s)
  {
    s'.global - s.global == ActiveChange(s, s', t) + Flight(s.limit)(s'.threads[t]) - Flight(s.limit)(s.threads[t])
  }

  /** The obligations of one step, from which the invariant follows. */
  lemma Moves(s: State, s': State, t: nat)
    requires Inv(s) && t < |s.threads| == |s'.threads| && Frame(s, s', t) && SameUser(s, s', t)
    requires ThreadInv(s', s'.threads[t])
    requires NamesUser(s.threads[t]) ==> UserInv(s'.users[s.threads[t].u])
    requires Balanced(s, s', t)
    requires s'.globalPeak <= s'.topWord
    requires s'.global <= s'.topCounter && (s.limit > 0 ==> s'.topWord <= s'.topCounter <= s.limit)
    ensures Inv(s')
  {
    forall i | 0 <= i < |s'.threads| ensures ThreadInv(s', s'.threads[i]) {
      if i != t { OthersKeep(s, s', t, i); }
    }
    SumsMove(s, s', t);
  }

  lemma StartKeeps(s: State, a: Action)
    requires Inv(s) && Enabled(s, a) && (a.Acquire? || a.Release? || a.ReleaseAll? || a.Remove?)
    ensures Inv(Step(s, a))
  {
    var s' := Step(s, a);
    var th := s'.threads[a.t];
    assert Flight(s.limit)(th) == 0 == Flight(s.limit)(Idle);
    SumUpdate(Flight(s.limit), s.threads, a.t, th);
    assert ThreadInv(s', th);
    forall i | 0 <= i < |s'.threads| && i != a.t ensures ThreadInv(s', s'.threads[i]) {
      SameData(s, s', s.threads[i]);
    }
    StartedAlone(s, a);
  }

  lemma SameData(s: State, s': State, th: Thread)
    requires ThreadInv(s, th)
    requires s.users <= s'.users && s'.limit == s.limit && s'.topWord == s.topWord && s'.globalPeak == s.globalPeak
    requires s'.topCounter == s.topCounter
    ensures ThreadInv(s', th)
  {
  }

  lemma StartedAlone(s: State, a: Action)
    requires Inv(s) && Enabled(s, a) && (a.Acquire? || a.Release? || a.ReleaseAll? || a.Remove?)
    ensures RemovalAlone(Step(s, a))
  {
    var s' := Step(s, a);
    assert On(s'.threads[a.t], a.u) && forall i :: 0 <= i < |s.threads| && i != a.t ==> s'.threads[i] == s.threads[i];
  }

  lemma AddUserKeeps(s: State, userLimit: word)
    requires Inv(s)
    ensures Inv(Step(s, AddUser(userLimit)))
  {
    var s' := Step(s, AddUser(userLimit));
    SumAppend(Active, s.users, User(0, userLimit, true, 0, 0));
    forall i | 0 <= i < |s'.threads| ensures ThreadInv(s', s'.threads[i]) {
      SameData(s, s', s.threads[i]);
    }
  }

  lemma GlobalNonNegative(s: State)
    requires Inv(s) && s.limit > 0
    ensures 0 <= Sum(Active, s.users) <= s.global <= s.limit
  {
    SumNonNegative(Active, s.users);
    SumNonNegative(Flight(s.limit), s.threads);
  }

  lemma RetryKeeps(s: State, t: nat)
    requires Inv(s) && Enabled(s, SpuriousFailure(t))
    ensures Inv(Retry(s, t))
  {
    assert ThreadInv(s, s.threads[t]);
    Moves(s, Retry(s, t), t);
  }

  lemma AcquireKeeps(s: State, t: nat)
    requires Inv(s) && Enabled(s, Advance(t)) && Acquiring(s.threads[t])
    requires NoOverflow(s, Advance(t))
    ensures Inv(AdvanceAcquire(s, t))
  {
    var th := s.threads[t];
    assert ThreadInv(s, th);
    if th.LoadGlobal? || th.CasGlobal? || th.LoadUser? || th.Rollback? {
      ReserveKeeps(s, t);
    } else if th.CasUser? || th.AddGlobal? {
      CommitKeeps(s, t);
    } else {
      PeaksKeep(s, t);
    }
  }

  lemma ReserveKeeps(s: State, t: nat)
    requires Inv(s) && Enabled(s, Advance(t))
    requires NoOverflow(s, Advance(t))
    requires s.threads[t].LoadGlobal? || s.threads[t].CasGlobal? || s.threads[t].LoadUser? || s.threads[t].Rollback?
    ensures Inv(AdvanceAcquire(s, t))
  {
    assert ThreadInv(s, s.threads[t]);
    assert UserInv(s.users[s.threads[t].u]);
    if s.limit > 0 { GlobalNonNegative(s); }
    if s.threads[t].CasGlobal? && Wrap(s.global) != s.threads[t].seen {
      RetryKeeps(s, t);
    } else {
      Moves(s, AdvanceAcquire(s, t), t);
    }
  }

  lemma CommitKeeps(s: State, t: nat)
    requires Inv(s) && Enabled(s, Advance(t)) && (s.threads[t].CasUser? || s.threads[t].AddGlobal?)
    ensures Inv(AdvanceAcquire(s, t))
  {
    assert ThreadInv(s, s.threads[t]);
    assert UserInv(s.users[s.threads[t].u]);
    if s.threads[t].CasUser? && s.users[s.threads[t].u].active != s.threads[t].a {
      RetryKeeps(s, t);
    } else {
      Moves(s, AdvanceAcquire(s, t), t);
    }
  }

  lemma PeaksKeep(s: State, t: nat)
    requires Inv(s) && Enabled(s, Advance(t))
    requires s.threads[t].LoadPeak? || s.threads[t].CasPeak? || s.threads[t].LoadGlobalPeak?
             || s.threads[t].CasGlobalPeak?
    ensures Inv(AdvanceAcquire(s, t))
  {
    if s.threads[t].LoadPeak? || s.threads[t].CasPeak? {
      UserPeakKeeps(s, t);
    } else {
      GlobalPeakKeeps(s, t);
    }
  }

  lemma UserPeakKeeps(s: State, t: nat)
    requires Inv(s) && Enabled(s, Advance(t)) && (s.threads[t].LoadPeak? || s.threads[t].CasPeak?)
    ensures Inv(AdvanceAcquire(s, t))
  {
    assert ThreadInv(s, s.threads[t]);
    assert UserInv(s.users[s.threads[t].u]);
    Moves(s, AdvanceAcquire(s, t), t);
  }

  lemma GlobalPeakKeeps(s: State, t: nat)
    requires Inv(s) && Enabled(s, Advance(t)) && (s.threads[t].LoadGlobalPeak? || s.threads[t].CasGlobalPeak?)
    ensures Inv(AdvanceAcquire(s, t))
  {
    assert ThreadInv(s, s.threads[t]);
    Moves(s, AdvanceAcquire(s, t), t);
  }

  lemma ReleaseKeeps(s: State, t: nat)
    requires Inv(s) && Enabled(s, Advance(t)) && !Acquiring(s.threads[t])
    ensures Inv(AdvanceRelease(s, t))
  {
    if Removes(s.threads[t]) {
      RemoveKeeps(s, t);
    } else if s.threads[t].LoadRelease? || s.threads[t].CasRelease? {
      ReleaseSomeKeeps(s, t);
    } else {
      ReturnKeeps(s, t);
    }
  }

  lemma ReleaseSomeKeeps(s: State, t: nat)
    requires Inv(s) && Enabled(s, Advance(t)) && (s.threads[t].LoadRelease? || s.threads[t].CasRelease?)
    ensures Inv(AdvanceRelease(s, t))
  {
    assert ThreadInv(s, s.threads[t]);
    if s.threads[t].LoadRelease? {
      Moves(s, AdvanceRelease(s, t), t);
    } else if s.users[s.threads[t].u].active != s.threads[t].a {
      RetryKeeps(s, t);
    } else {
      ReleaseSwapKeeps(s, t);
    }
  }

  lemma ReleaseSwapKeeps(s: State, t: nat)
    requires Inv(s) && Enabled(s, Advance(t)) && s.threads[t].CasRelease?
    requires UsersExist(s) && s.users[s.threads[t].u].active == s.threads[t].a
    ensures Inv(AdvanceRelease(s, t))
  {
    assert ThreadInv(s, s.threads[t]);
    assert UserInv(s.users[s.threads[t].u]);
    Moves(s, AdvanceRelease(s, t), t);
  }

  lemma ReturnKeeps(s: State, t: nat)
    requires Inv(s) && Enabled(s, Advance(t)) && (s.threads[t].Exchange? || s.threads[t].SubGlobal?)
    ensures Inv(AdvanceRelease(s, t))
  {
    assert ThreadInv(s, s.threads[t]);
    if NamesUser(s.threads[t]) { assert UserInv(s.users[s.threads[t].u]); }
    Moves(s, AdvanceRelease(s, t), t);
  }

  lemma RemoveKeeps(s: State, t: nat)
    requires Inv(s) && Enabled(s, Advance(t)) && Removes(s.threads[t])
    ensures Inv(AdvanceRelease(s, t))
  {
    assert ThreadInv(s, s.threads[t]);
    assert UserInv(s.users[s.threads[t].u]);
    SumMember(Active, s.users, s.threads[t].u);
    Moves(s, AdvanceRelease(s, t), t);
  }

  lemma StepKeeps(s: State, a: Action)
    requires Inv(s) && Enabled(s, a) && NoOverflow(s, a)
    ensures UsersExist(s) && Inv(Step(s, a))
  {
    match a
    case Advance(t) => if Acquiring(s.threads[t]) { AcquireKeeps(s, t); } else { ReleaseKeeps(s, t); }
    case SpuriousFailure(t) => RetryKeeps(s, t);
    case AddUser(userLimit) => AddUserKeeps(s, userLimit);
    case _ => StartKeeps(s, a);
  }

  /** The thread carries a global count on its way to globalPeak. */
  predicate CarriesGlobal(th: Thread, g: word)
  {
    (th.LoadPeak? || th.CasPeak? || th.LoadGlobalPeak? || th.CasGlobalPeak?) && th.g == g
  }

  predicate CarriesUser(th: Thread, u: nat, v: nat)
  {
    (th.AddGlobal? || th.LoadPeak? || th.CasPeak?) && th.u == u && th.v == v
  }

  ghost predicate GlobalPeakOwed(s: State)
  {
    exists i :: 0 <= i < |s.threads| && CarriesGlobal(s.threads[i], s.topWord)
  }

  ghost predicate UserPeakOwed(s: State, u: nat)
    requires u < |s.users|
  {
    exists i :: 0 <= i < |s.threads| && CarriesUser(s.threads[i], u, s.users[u].top)
  }

  /** The largest count is already the recorded peak, or somebody is on the way to record it. */
  ghost predicate PeakInv(s: State)
  {
    && (s.globalPeak == s.topWord || GlobalPeakOwed(s))
    && (forall u :: 0 <= u < |s.users| ==> s.users[u].peak == s.users[u].top || UserPeakOwed(s, u))
  }

  lemma StepKeepsGlobalPeak(s: State, a: Action)
    requires Inv(s) && PeakInv(s) && Enabled(s, a)
    ensures Step(s, a).globalPeak == Step(s, a).topWord || GlobalPeakOwed(Step(s, a))
  {
    var s' := Step(s, a);
    GlobalTopMoves(s, a);
    if s'.topWord == s.topWord && GlobalPeakOwed(s) {
      var i :| 0 <= i < |s.threads| && CarriesGlobal(s.threads[i], s.topWord);
      if !a.AddUser? && i == a.t {
        GlobalCarrierMoves(s, a);
      } else {
        OthersUnmoved(s, a, i);
        assert CarriesGlobal(s'.threads[i], s'.topWord);
      }
    }
  }

  lemma GlobalTopMoves(s: State, a: Action)
    requires Inv(s) && Enabled(s, a)
    ensures
      var s' := Step(s, a);
      if s'.topWord != s.topWord then GlobalPeakOwed(s')
      else s'.globalPeak == s.globalPeak || (s.globalPeak < s'.globalPeak <= s.topWord)
  {
    var s' := Step(s, a);
    if a.Advance? {
      assert ThreadInv(s, s.threads[a.t]);
      if s'.topWord != s.topWord {
        assert CarriesGlobal(s'.threads[a.t], s'.topWord);
      }
    }
  }

  /** The carrier of the largest global count goes on carrying it until it has recorded it. */
  lemma GlobalCarrierMoves(s: State, a: Action)
    requires Inv(s) && PeakInv(s) && Enabled(s, a) && !a.AddUser?
    requires CarriesGlobal(s.threads[a.t], s.topWord) && Step(s, a).topWord == s.topWord
    ensures Step(s, a).globalPeak == Step(s, a).topWord || GlobalPeakOwed(Step(s, a))
  {
    var s' := Step(s, a);
    assert ThreadInv(s, s.threads[a.t]);
    assert CarriesGlobal(s'.threads[a.t], s'.topWord) || s'.globalPeak == s'.topWord;
  }

  lemma CarrierMoves(s: State, t: nat, u: nat)
    requires Inv(s) && (Enabled(s, Advance(t)) || Enabled(s, SpuriousFailure(t))) && u < |s.users|
    requires CarriesUser(s.threads[t], u, s.users[u].top)
    ensures Enabled(s, SpuriousFailure(t)) ==> CarriesUser(Retry(s, t).threads[t], u, s.users[u].top)
    ensures Enabled(s, Advance(t)) ==>
              var s' := AdvanceAcquire(s, t);
              |s'.users| == |s.users| && |s'.threads| == |s.threads| && s'.users[u].top == s.users[u].top
              && (CarriesUser(s'.threads[t], u, s.users[u].top) || s'.users[u].peak >= s.users[u].top)
  {
    assert ThreadInv(s, s.threads[t]);
  }

  lemma TopMoves(s: State, a: Action, u: nat)
    requires Inv(s) && Enabled(s, a) && u < |s.users|
    ensures
      var s' := Step(s, a);
      |s'.users| >= |s.users| &&
      if s'.users[u].top != s.users[u].top then a.Advance? && CarriesUser(s'.threads[a.t], u, s'.users[u].top)
      else s'.users[u].peak >= s.users[u].peak
  {
    if a.Advance? {
      assert ThreadInv(s, s.threads[a.t]);
    }
  }

  lemma OthersUnmoved(s: State, a: Action, i: nat)
    requires Inv(s) && Enabled(s, a) && i < |s.threads| && (a.AddUser? || i != a.t)
    ensures |Step(s, a).threads| == |s.threads| && Step(s, a).threads[i] == s.threads[i]
  {
    if a.SpuriousFailure? {
      OthersUnmovedByRetry(s, a.t, i);
    } else if a.Advance? && Acquiring(s.threads[a.t]) {
      OthersUnmovedByAcquire(s, a.t, i);
    } else if a.Advance? {
      OthersUnmovedByRelease(s, a.t, i);
    }
  }

  lemma OthersUnmovedByRetry(s: State, t: nat, i: nat)
    requires Enabled(s, SpuriousFailure(t)) && UsersExist(s) && i < |s.threads| && i != t
    ensures |Retry(s, t).threads| == |s.threads| && Retry(s, t).threads[i] == s.threads[i]
  {
  }

  lemma OthersUnmovedByAcquire(s: State, t: nat, i: nat)
    requires Enabled(s, Advance(t)) && UsersExist(s) && i < |s.threads| && i != t
    ensures |AdvanceAcquire(s, t).threads| == |s.threads| && AdvanceAcquire(s, t).threads[i] == s.threads[i]
  {
  }

  lemma OthersUnmovedByRelease(s: State, t: nat, i: nat)
    requires Enabled(s, Advance(t)) && UsersExist(s) && i < |s.threads| && i != t
    ensures |AdvanceRelease(s, t).threads| == |s.threads| && AdvanceRelease(s, t).threads[i] == s.threads[i]
  {
  }

  lemma StepKeepsUserPeak(s: State, a: Action, u: nat)
    requires Inv(s) && Enabled(s, a) && NoOverflow(s, a) && u < |s.users|
    requires s.users[u].peak == s.users[u].top || UserPeakOwed(s, u)
    ensures u < |Step(s, a).users|
    ensures Step(s, a).users[u].peak == Step(s, a).users[u].top || UserPeakOwed(Step(s, a), u)
  {
    StepKeeps(s, a);
    TopMoves(s, a, u);
    var top := s.users[u].top;
    if s.users[u].peak != top {
      var i :| 0 <= i < |s.threads| && CarriesUser(s.threads[i], u, top);
      StepKeepsCarried(s, a, u, i);
    } else {
      PeakArrived(s, a, u);
    }
  }

  lemma PeakArrived(s: State, a: Action, u: nat)
    requires Inv(s) && Enabled(s, a) && NoOverflow(s, a) && u < |s.users| && s.users[u].peak == s.users[u].top
    ensures u < |Step(s, a).users|
    ensures Step(s, a).users[u].peak == Step(s, a).users[u].top || UserPeakOwed(Step(s, a), u)
  {
    StepKeeps(s, a);
    TopMoves(s, a, u);
    PeakReached(Step(s, a), u);
    if Step(s, a).users[u].top != s.users[u].top {
      assert CarriesUser(Step(s, a).threads[a.t], u, Step(s, a).users[u].top);
    }
  }

  /** A top that one thread carries to the peak stays carried, or has arrived. */
  lemma StepKeepsCarried(s: State, a: Action, u: nat, i: nat)
    requires Inv(s) && Enabled(s, a) && NoOverflow(s, a) && u < |s.users|
    requires i < |s.threads| && CarriesUser(s.threads[i], u, s.users[u].top)
    ensures u < |Step(s, a).users|
    ensures Step(s, a).users[u].peak == Step(s, a).users[u].top || UserPeakOwed(Step(s, a), u)
  {
    StepKeeps(s, a);
    TopMoves(s, a, u);
    if a.AddUser? || i != a.t {
      OthersUnmoved(s, a, i);
    } else {
      CarrierMoves(s, i, u);
    }
    PeakOrOwed(s, Step(s, a), u, i);
  }

  lemma PeakReached(s: State, u: nat)
    requires Inv(s) && u < |s.users|
    ensures s.users[u].peak >= s.users[u].top ==> s.users[u].peak == s.users[u].top
  {
    assert UserInv(s.users[u]);
  }

  lemma PeakOrOwed(s: State, s': State, u: nat, i: nat)
    requires u < |s.users| && u < |s'.users| && i < |s'.threads| && Inv(s')
    requires s'.users[u].top == s.users[u].top ==>
               CarriesUser(s'.threads[i], u, s.users[u].top) || s'.users[u].peak >= s.users[u].top
    requires s'.users[u].top != s.users[u].top ==> UserPeakOwed(s', u)
    ensures s'.users[u].peak == s'.users[u].top || UserPeakOwed(s', u)
  {
    PeakReached(s', u);
  }

  lemma StepKeepsPeaks(s: State, a: Action)
    requires Inv(s) && PeakInv(s) && Enabled(s, a) && NoOverflow(s, a)
    ensures PeakInv(Step(s, a))
  {
    var s' := Step(s, a);
    StepKeepsGlobalPeak(s, a);
    forall u | 0 <= u < |s'.users| ensures s'.users[u].peak == s'.users[u].top || UserPeakOwed(s', u) {
      if u < |s.users| {
        StepKeepsUserPeak(s, a, u);
      } else {
        NewUser(s, a, u);
      }
    }
  }

  lemma NewUser(s: State, a: Action, u: nat)
    requires Inv(s) && Enabled(s, a) && |s.users| <= u < |Step(s, a).users|
    ensures Step(s, a).users[u].peak == Step(s, a).users[u].top == 0
  {
  }

  /** A run in which no limit test overflows. */
  ghost predicate Legal(s: State, run: seq<Action>)
    requires Inv(s)
    decreases |run|
  {
    || run == []
    || (Enabled(s, run[0]) && NoOverflow(s, run[0]) && (StepKeeps(s, run[0]); Legal(Step(s, run[0]), run[1..])))
  }

  ghost function End(s: State, run: seq<Action>): (t: State)
    requires Inv(s) && Legal(s, run)
    ensures Inv(t) && t.limit == s.limit
    decreases |run|
  {
    if run == [] then s else (StepKeeps(s, run[0]); End(Step(s, run[0]), run[1..]))
  }

  lemma {:induction false} RunsKeepPeaks(s: State, run: seq<Action>)
    requires Inv(s) && PeakInv(s) && Legal(s, run)
    ensures PeakInv(End(s, run))
    decreases |run|
  {
    if run != [] {
      StepKeeps(s, run[0]);
      StepKeepsPeaks(s, run[0]);
      RunsKeepPeaks(Step(s, run[0]), run[1..]);
    }
  }

  lemma PeaksGrow(s: State, a: Action)
    requires Inv(s) && Enabled(s, a)
    ensures Step(s, a).globalPeak >= s.globalPeak && |Step(s, a).users| >= |s.users|
    ensures forall u :: 0 <= u < |s.users| ==> Step(s, a).users[u].peak >= s.users[u].peak
  {
    if a.Advance? && Acquiring(s.threads[a.t]) { assert ThreadInv(s, s.threads[a.t]); }
  }

  lemma {:induction false} PeaksNeverFall(s: State, run: seq<Action>)
    requires Inv(s) && Legal(s, run)
    ensures End(s, run).globalPeak >= s.globalPeak && |End(s, run).users| >= |s.users|
    ensures forall u :: 0 <= u < |s.users| ==> End(s, run).users[u].peak >= s.users[u].peak
    decreases |run|
  {
    if run != [] {
      StepKeeps(s, run[0]);
      PeaksGrow(s, run[0]);
      PeaksNeverFall(Step(s, run[0]), run[1..]);
    }
  }

  /** Thread `t` leaves its peak loop with the first step of the run. */
  ghost predicate LeavesPeakLoop(s: State, t: nat, run: seq<Action>)
    requires Inv(s) && Legal(s, run)
  {
    && run != [] && run[0] == Advance(t)
    && (|| (s.threads[t].CasPeak? && !Step(s, run[0]).threads[t].CasPeak?)
        || (s.threads[t].CasGlobalPeak? && !Step(s, run[0]).threads[t].CasGlobalPeak?))
  }

  /** The peak loop is left only when the recorded peak is at least the value it was given, and whatever
      happens afterwards it stays so: for the user's peak and for the global one. */
  lemma PeakLoopRecords(s: State, t: nat, run: seq<Action>)
    requires Inv(s) && Legal(s, run) && LeavesPeakLoop(s, t, run)
    ensures s.threads[t].CasPeak? ==>
              && s.threads[t].u < |End(s, run).users|
              && End(s, run).users[s.threads[t].u].peak >= s.threads[t].v
    ensures s.threads[t].CasGlobalPeak? ==> End(s, run).globalPeak >= s.threads[t].g
  {
    LeavingRecords(s, t);
    StepKeeps(s, run[0]);
    PeaksNeverFall(Step(s, run[0]), run[1..]);
  }

  lemma LeavingRecords(s: State, t: nat)
    requires Inv(s) && Enabled(s, Advance(t))
    ensures
      var th, s' := s.threads[t], AdvanceAcquire(s, t);
      && (th.CasPeak? && !s'.threads[t].CasPeak? ==> th.u < |s'.users| && s'.users[th.u].peak >= th.v)
      && (th.CasGlobalPeak? && !s'.threads[t].CasGlobalPeak? ==> s'.globalPeak >= th.g)
  {
    assert ThreadInv(s, s.threads[t]);
  }

  /** `t` is reached with global limit `limit` (0 for none) by some interleaving of `threads` threads. */
  ghost predicate Reaches(limit: word, threads: nat, run: seq<Action>, t: State)
  {
    InitHolds(limit, threads);
    Legal(Init(limit, threads), run) && t == End(Init(limit, threads), run)
  }

  /** What the next subtraction of a thread takes from the global counter. */
  function NextSubtraction(th: Thread): (n: nat)
  {
    match th
    case Rollback(_, c) => c
    case SubGlobal(c) => c
    case SubRemove(_, a) => a
    case _ => 0
  }

  /** Limited mode: the users' slots never exceed the global count, the global count never exceeds
      the limit, and no pending subtraction can take it below zero. No user exceeds its own limit. */
  lemma LimitsHold(limit: word, threads: nat, run: seq<Action>, t: State)
    requires Reaches(limit, threads, run, t)
    ensures t.global == Sum(Active, t.users) + Sum(Flight(limit), t.threads)
    ensures limit > 0 ==> 0 <= Sum(Active, t.users) <= t.global <= limit
    ensures limit > 0 ==> t.globalPeak <= limit
    ensures limit > 0 ==> forall i :: 0 <= i < |t.threads| ==> NextSubtraction(t.threads[i]) <= t.global
    ensures forall u :: 0 <= u < |t.users| ==>
              t.users[u].active <= t.users[u].limit && t.users[u].peak <= t.users[u].limit
  {
    InitHolds(limit, threads);
    SumNonNegative(Active, t.users);
    if limit > 0 {
      SumNonNegative(Flight(limit), t.threads);
      forall i | 0 <= i < |t.threads| ensures NextSubtraction(t.threads[i]) <= t.global {
        SumMember(Flight(limit), t.threads, i);
        assert ThreadInv(t, t.threads[i]);
        if t.threads[i].SubRemove? {
          SumMember(Active, t.users, t.threads[i].u);
        }
      }
    }
    forall u | 0 <= u < |t.users| ensures t.users[u].active <= t.users[u].limit && t.users[u].peak <= t.users[u].limit {
      assert UserInv(t.users[u]);
    }
  }

  ghost predicate Quiescent(s: State)
  {
    forall i :: 0 <= i < |s.threads| ==> s.threads[i].Idle?
  }

  /** In either mode, with no thread inside a call: the true global count is the sum of the users'
      slots, each user's peak is exactly the largest count its counter has had, and the global peak is the
      largest value that an acquire with both reservations saw in the global counter. With a limit that is
      at most the largest value the counter has had. */
  lemma QuiescentCountsAgree(limit: word, threads: nat, run: seq<Action>, t: State)
    requires Reaches(limit, threads, run, t) && Quiescent(t)
    ensures t.global == Sum(Active, t.users)
    ensures t.globalPeak == t.topWord && (limit > 0 ==> t.globalPeak <= t.topCounter <= limit)
    ensures forall u :: 0 <= u < |t.users| ==> t.users[u].peak == t.users[u].top >= t.users[u].active
  {
    InitHolds(limit, threads);
    RunsKeepPeaks(Init(limit, threads), run);
    SumZero(Flight(limit), t.threads);
    forall u | 0 <= u < |t.users| ensures t.users[u].peak == t.users[u].top >= t.users[u].active {
      assert UserInv(t.users[u]);
    }
  }

  lemma {:induction false} RunsAppend(s: State, run: seq<Action>, a: Action)
    requires Inv(s) && Legal(s, run) && Enabled(End(s, run), a) && NoOverflow(End(s, run), a)
    ensures Legal(s, run + [a]) && End(s, run + [a]) == Step(End(s, run), a)
    decreases |run|
  {
    var all := run + [a];
    StepKeeps(s, all[0]);
    if run == [] {
      assert all[1..] == [];
    } else {
      assert all[1..] == run[1..] + [a];
      RunsAppend(Step(s, run[0]), run[1..], a);
    }
  }

  lemma Extend(limit: word, threads: nat, run: seq<Action>, s: State, a: Action) returns (run': seq<Action>, t: State)
    requires Reaches(limit, threads, run, s) && Enabled(s, a) && NoOverflow(s, a)
    ensures Inv(s) && t == Step(s, a) && Reaches(limit, threads, run', t) && run' == run + [a]
  {
    InitHolds(limit, threads);
    RunsAppend(Init(limit, threads), run, a);
    run', t := run + [a], Step(s, a);
  }

  lemma OneUser() returns (run: seq<Action>, t: State)
    ensures Reaches(0, 2, run, t)
    ensures t == State(0, 0, 0, [User(0, 1, true, 0, 0)], [Idle, Idle], 0, 0)
  {
    InitHolds(0, 2);
    assert Init(0, 2).threads == [Idle, Idle];
    run, t := Extend(0, 2, [], Init(0, 2), AddUser(1));
  }

  lemma SeesUserSlot() returns (run: seq<Action>, t: State)
    ensures Reaches(0, 2, run, t)
    ensures t == State(0, 0, 0, [User(0, 1, true, 0, 0)], [CasUser(0, 1, 0, 0), Idle], 0, 0)
  {
    run, t := OneUser();
    run, t := Extend(0, 2, run, t, Acquire(0, 0, 1));
    assert t.threads == [LoadUser(0, 1, 0), Idle];
    run, t := Extend(0, 2, run, t, Advance(0));
    assert t.threads == [CasUser(0, 1, 0, 0), Idle];
  }

  lemma TakesUserSlot() returns (run: seq<Action>, t: State)
    ensures Reaches(0, 2, run, t)
    ensures t == State(0, 0, 0, [User(1, 1, true, 0, 1)], [AddGlobal(0, 1, 1), Idle], 0, 0)
  {
    run, t := SeesUserSlot();
    run, t := Extend(0, 2, run, t, Advance(0));
    assert t.users == [User(1, 1, true, 0, 1)] && t.threads == [AddGlobal(0, 1, 1), Idle];
  }

  lemma ReleaseOvertakes() returns (run: seq<Action>, t: State)
    ensures Reaches(0, 2, run, t)
    ensures t == State(0, 0, 0, [User(1, 1, true, 0, 1)], [AddGlobal(0, 1, 1), CasRelease(0, 1, 1)], 0, 0)
  {
    run, t := TakesUserSlot();
    run, t := Extend(0, 2, run, t, Release(1, 0, 1));
    assert t.threads == [AddGlobal(0, 1, 1), LoadRelease(0, 1)];
    run, t := Extend(0, 2, run, t, Advance(1));
    assert t.threads == [AddGlobal(0, 1, 1), CasRelease(0, 1, 1)];
  }

  /** Without a global limit the user counter moves first, so a release that overtakes an acquire
      takes the global counter below zero for a while. */
  lemma UnlimitedGoesNegative() returns (run: seq<Action>, t: State)
    ensures Reaches(0, 2, run, t) && t.global == -1
  {
    run, t := ReleaseOvertakes();
    run, t := Extend(0, 2, run, t, Advance(1));
    assert t.threads == [AddGlobal(0, 1, 1), SubGlobal(1)];
    run, t := Extend(0, 2, run, t, Advance(1));
  }

  /** The global counter never goes below zero if and only if a global limit is set. */
  lemma NeverNegativeExactlyWhenLimited(limit: word)
    ensures (forall threads, run, t :: Reaches(limit, threads, run, t) ==> t.global >= 0) <==> limit > 0
  {
    if limit > 0 {
      forall threads, run, t | Reaches(limit, threads, run, t) ensures t.global >= 0 {
        LimitsHold(limit, threads, run, t);
      }
    } else {
      var run, t := UnlimitedGoesNegative();
    }
  }

  /** Thread `i` takes user slots in unlimited mode, up to the point before it tells the global counter. */
  lemma TakesAhead(run0: seq<Action>, s: State, i: nat, c: nat) returns (run: seq<Action>, t: State)
    requires Reaches(0, 3, run0, s) && s.limit == 0 && i < |s.threads| && s.threads[i].Idle? && c > 0
    requires |s.users| == 1 && s.users[0].alive && s.users[0].active + c <= s.users[0].limit && !BeingRemoved(s, 0)
    ensures Reaches(0, 3, run, t)
    ensures
      var x, a := s.users[0], s.users[0].active + c;
      t == s.(users := [x.(active := a, top := Max(x.top, a))], threads := s.threads[i := AddGlobal(0, c, a)])
  {
    run, t := Extend(0, 3, run0, s, Acquire(i, 0, c));
    run, t := Extend(0, 3, run, t, Advance(i));
    assert t == s.(threads := s.threads[i := CasUser(0, c, 0, s.users[0].active)]);
    run, t := Extend(0, 3, run, t, Advance(i));
    assert t.users == [t.users[0]];
  }

  lemma AddsCount(run0: seq<Action>, s: State, i: nat) returns (run: seq<Action>, t: State)
    requires Reaches(0, 3, run0, s) && i < |s.threads| && s.threads[i].AddGlobal?
    ensures Reaches(0, 3, run, t)
    ensures
      var th := s.threads[i];
      var g := Wrap(s.global + th.c);
      t == Seen(Raised(Put(s, i, LoadPeak(th.u, th.v, g)), th.c), g)
  {
    run, t := Extend(0, 3, run0, s, Advance(i));
  }

  lemma RaisesPeak(run0: seq<Action>, s: State, i: nat) returns (run: seq<Action>, t: State)
    requires Reaches(0, 3, run0, s) && i < |s.threads| && s.threads[i].LoadPeak? && s.threads[i].u == 0
             && |s.users| == 1
    ensures Reaches(0, 3, run, t)
    ensures
      var x, v := s.users[0], s.threads[i].v;
      t == s.(users := [x.(peak := if v > x.peak then v else x.peak)],
              threads := s.threads[i := LoadGlobalPeak(s.threads[i].g)])
  {
    run, t := Extend(0, 3, run0, s, Advance(i));
    assert t == s.(threads := s.threads[i := CasPeak(0, s.threads[i].v, s.threads[i].g, s.users[0].peak)]);
    run, t := Extend(0, 3, run, t, Advance(i));
    assert t.users == [t.users[0]];
    assert t.threads == s.threads[i := LoadGlobalPeak(s.threads[i].g)];
  }

  lemma RaisesGlobalPeak(run0: seq<Action>, s: State, i: nat) returns (run: seq<Action>, t: State)
    requires Reaches(0, 3, run0, s) && i < |s.threads| && s.threads[i].LoadGlobalPeak?
    ensures Reaches(0, 3, run, t)
    ensures
      var g := s.threads[i].g;
      t == s.(threads := s.threads[i := Idle], globalPeak := if g > s.globalPeak then g else s.globalPeak)
  {
    run, t := Extend(0, 3, run0, s, Advance(i));
    assert t == s.(threads := s.threads[i := CasGlobalPeak(s.threads[i].g, s.globalPeak)]);
    run, t := Extend(0, 3, run, t, Advance(i));
    assert t.threads == s.threads[i := Idle];
  }

  /** The rest of such an acquire, which records the global count it sees in the counter. */
  lemma CountsUp(run0: seq<Action>, s: State, i: nat) returns (run: seq<Action>, t: State)
    requires Reaches(0, 3, run0, s) && i < |s.threads| && s.threads[i].AddGlobal?
    requires |s.users| == 1 && s.threads[i].u == 0
    ensures Reaches(0, 3, run, t)
    ensures |t.users| == 1 && t.users[0].limit == s.users[0].limit
    ensures t.threads == s.threads[i := Idle] && t.global == s.global + s.threads[i].c
    ensures t.topCounter == Max(s.topCounter, t.global)
    ensures t.globalPeak == if Wrap(t.global) > s.globalPeak then Wrap(t.global) else s.globalPeak
  {
    run, t := AddsCount(run0, s, i);
    run, t := RaisesPeak(run, t, i);
    run, t := RaisesGlobalPeak(run, t, i);
  }

  /** A release-all that overtakes acquires. */
  lemma GivesAllBack(run0: seq<Action>, s: State, i: nat) returns (run: seq<Action>, t: State)
    requires Reaches(0, 3, run0, s) && i < |s.threads| && s.threads[i].Idle?
    requires |s.users| == 1 && s.users[0].alive && s.users[0].active > 0 && !BeingRemoved(s, 0)
    ensures Reaches(0, 3, run, t)
    ensures t == s.(users := [s.users[0].(active := 0)], global := s.global - s.users[0].active)
  {
    run, t := Extend(0, 3, run0, s, ReleaseAll(i, 0));
    run, t := Extend(0, 3, run, t, Advance(i));
    assert t.users == [s.users[0].(active := 0)];
    run, t := Extend(0, 3, run, t, Advance(i));
    assert t.threads == s.threads;
  }

  lemma ThreeIdle(m: word) returns (run: seq<Action>, t: State)
    requires m >= 3
    ensures Reaches(0, 3, run, t)
    ensures t == State(0, 0, 0, [User(0, m, true, 0, 0)], [Idle, Idle, Idle], 0, 0)
  {
    InitHolds(0, 3);
    assert Init(0, 3).threads == [Idle, Idle, Idle];
    run, t := Extend(0, 3, [], Init(0, 3), AddUser(m));
  }

  lemma Overtaken(m: word) returns (run: seq<Action>, t: State)
    requires m >= 3
    ensures Reaches(0, 3, run, t)
    ensures t == State(0, -3, 0, [User(0, m, true, 0, 3)], [AddGlobal(0, 1, 1), AddGlobal(0, 2, 3), Idle], 0, 0)
  {
    run, t := ThreeIdle(m);
    run, t := TakesAhead(run, t, 0, 1);
    assert t.threads == [AddGlobal(0, 1, 1), Idle, Idle];
    run, t := TakesAhead(run, t, 1, 2);
    assert t.threads == [AddGlobal(0, 1, 1), AddGlobal(0, 2, 3), Idle];
    run, t := GivesAllBack(run, t, 2);
  }

  /** Without a global limit, two acquires overtaken by a release-all: the first reads a balance of -2
      as 2^64 - 2 and records that as the global peak, for good, although the true count never exceeded 0. */
  lemma UnlimitedPeakPoisoned(m: word) returns (run: seq<Action>, t: State)
    requires m >= 3
    ensures Reaches(0, 3, run, t) && Quiescent(t)
    ensures t.topCounter == 0 && t.globalPeak == WORD - 2 && UsersHold(t, m)
  {
    run, t := Overtaken(m);
    assert Wrap(-2) == WORD - 2;
    run, t := CountsUp(run, t, 0);
    assert t.threads == [Idle, AddGlobal(0, 2, 3), Idle];
    run, t := CountsUp(run, t, 1);
    assert t.threads == [Idle, Idle, Idle];
  }

  /** Every user that was ever added may hold at least `m` slots. */
  ghost predicate UsersHold(s: State, m: nat)
  {
    forall u :: 0 <= u < |s.users| ==> s.users[u].limit >= m
  }

  /** With a limit, an acquire reserves globally, its user has no room, and it gives the reservation back
      without a word to the peak: the counter has been at `m + 1`, the recorded peak is 0. */
  lemma RollbackMissesPeak(limit: word, m: word) returns (run: seq<Action>, t: State)
    requires m < limit
    ensures Reaches(limit, 1, run, t) && Quiescent(t) && UsersHold(t, m)
    ensures t.topCounter == m + 1 && t.globalPeak == 0
  {
    InitHolds(limit, 1);
    assert Init(limit, 1).threads == [Idle];
    run, t := Extend(limit, 1, [], Init(limit, 1), AddUser(m));
    run, t := Extend(limit, 1, run, t, Acquire(0, 0, m + 1));
    assert t.threads == [LoadGlobal(0, m + 1)];
    run, t := Extend(limit, 1, run, t, Advance(0));
    assert t.threads == [CasGlobal(0, m + 1, 0)];
    run, t := ReservesInVain(limit, m, run, t);
  }

  lemma ReservesInVain(limit: word, m: word, run0: seq<Action>, s: State) returns (run: seq<Action>, t: State)
    requires m < limit && Reaches(limit, 1, run0, s)
    requires s == State(limit, 0, 0, [User(0, m, true, 0, 0)], [CasGlobal(0, m + 1, 0)], 0, 0)
    ensures Reaches(limit, 1, run, t) && Quiescent(t) && UsersHold(t, m)
    ensures t.topCounter == m + 1 && t.globalPeak == 0
  {
    run, t := Extend(limit, 1, run0, s, Advance(0));
    assert t == State(limit, m + 1, 0, s.users, [LoadUser(0, m + 1, m + 1)], m + 1, 0);
    run, t := IsDenied(limit, m, run, t);
  }

  lemma IsDenied(limit: word, m: word, run0: seq<Action>, s: State) returns (run: seq<Action>, t: State)
    requires m < limit && Reaches(limit, 1, run0, s)
    requires s == State(limit, m + 1, 0, [User(0, m, true, 0, 0)], [LoadUser(0, m + 1, m + 1)], m + 1, 0)
    ensures Reaches(limit, 1, run, t) && Quiescent(t) && UsersHold(t, m)
    ensures t.topCounter == m + 1 && t.globalPeak == 0
  {
    run, t := Extend(limit, 1, run0, s, Advance(0));
    assert t.threads == [Rollback(0, m + 1)];
    run, t := Extend(limit, 1, run, t, Advance(0));
    assert t.threads == [Idle];
  }

  /** Where the recorded global peak is exact: with nobody inside it is the largest value the counter has
      had, in every run whose users may hold at least `m` slots each, if and only if there is a limit and
      it is at most `m`, so that no reservation is ever rolled back. */
  lemma PeakExactly(limit: word, m: word)
    ensures
      (forall threads, run, t :: Reaches(limit, threads, run, t) && UsersHold(t, m) && Quiescent(t) ==>
         t.globalPeak == t.topCounter)
      <==> 0 < limit <= m
  {
    if limit == 0 {
      var run, t := UnlimitedPeakPoisoned(if m < 3 then 3 else m);
    } else if m < limit {
      var run, t := RollbackMissesPeak(limit, m);
    } else {
      forall threads, run, t | Reaches(limit, threads, run, t) && UsersHold(t, m) && Quiescent(t)
        ensures t.globalPeak == t.topCounter
      {
        InitHolds(limit, threads);
        RunsKeepCounterPeak(Init(limit, threads), run);
      }
    }
  }

  /** Every user may hold as many slots as the pool. */
  ghost predicate Roomy(s: State)
  {
    s.limit > 0 && UsersHold(s, s.limit)
  }

  /** The thread carries a value of the global counter that it reserved, and will bring it to the peak if
      its user has room. */
  predicate CarriesCounter(th: Thread, g: int)
  {
    match th
    case LoadUser(_, _, g') => g' == g
    case CasUser(_, _, g', _) => g' == g
    case LoadPeak(_, _, g') => g' == g
    case CasPeak(_, _, g', _) => g' == g
    case LoadGlobalPeak(g') => g' == g
    case CasGlobalPeak(g', _) => g' == g
    case _ => false
  }

  ghost predicate CounterOwed(s: State)
  {
    exists i :: 0 <= i < |s.threads| && CarriesCounter(s.threads[i], s.topCounter)
  }

  ghost predicate NoRollback(s: State)
  {
    forall i :: 0 <= i < |s.threads| ==> !s.threads[i].Rollback?
  }

  /** A reservation in progress is part of the global count, so its user's slots and it fit the limit. */
  lemma RoomFor(s: State, i: nat)
    requires Inv(s) && s.limit > 0 && i < |s.threads| && (s.threads[i].LoadUser? || s.threads[i].CasUser?)
    ensures s.threads[i].u < |s.users| && s.users[s.threads[i].u].active + s.threads[i].c <= s.limit
  {
    assert ThreadInv(s, s.threads[i]);
    SumMember(Active, s.users, s.threads[i].u);
    SumMember(Flight(s.limit), s.threads, i);
  }

  /** Users stay, with their limits. */
  lemma UsersStay(s: State, a: Action)
    requires Inv(s) && Enabled(s, a)
    ensures Step(s, a).limit == s.limit && |Step(s, a).users| >= |s.users|
    ensures forall u :: 0 <= u < |s.users| ==> Step(s, a).users[u].limit == s.users[u].limit
  {
    if a.Advance? { assert ThreadInv(s, s.threads[a.t]); }
  }

  lemma {:induction false} UsersLast(s: State, run: seq<Action>)
    requires Inv(s) && Legal(s, run)
    ensures |End(s, run).users| >= |s.users|
    ensures forall u :: 0 <= u < |s.users| ==> End(s, run).users[u].limit == s.users[u].limit
    decreases |run|
  {
    if run != [] {
      StepKeeps(s, run[0]);
      UsersStay(s, run[0]);
      UsersLast(Step(s, run[0]), run[1..]);
    }
  }

  lemma NeverRollsBack(s: State, a: Action)
    requires Inv(s) && Roomy(s) && NoRollback(s) && Enabled(s, a)
    ensures NoRollback(Step(s, a))
  {
    var s' := Step(s, a);
    forall i | 0 <= i < |s'.threads| ensures !s'.threads[i].Rollback? {
      if a.AddUser? || i != a.t {
        OthersUnmoved(s, a, i);
      } else {
        MoverDoesNotRollBack(s, a);
      }
    }
  }

  lemma MoverDoesNotRollBack(s: State, a: Action)
    requires Inv(s) && Roomy(s) && NoRollback(s) && Enabled(s, a) && !a.AddUser?
    ensures a.t < |Step(s, a).threads| && !Step(s, a).threads[a.t].Rollback?
  {
    if a.Advance? && Acquiring(s.threads[a.t]) {
      HasRoomOrDoesNotAsk(s, a.t);
    }
  }

  lemma HasRoomOrDoesNotAsk(s: State, t: nat)
    requires Inv(s) && Roomy(s) && Enabled(s, Advance(t))
    ensures t < |AdvanceAcquire(s, t).threads|
    ensures AdvanceAcquire(s, t).threads[t].Rollback? ==> s.threads[t].Rollback?
  {
    if s.threads[t].LoadUser? { RoomFor(s, t); }
  }

  /** A step that takes the counter to a new top carries it. */
  lemma CounterTopMoves(s: State, a: Action)
    requires Inv(s) && s.limit > 0 && Enabled(s, a)
    ensures Step(s, a).topCounter != s.topCounter ==> CounterOwed(Step(s, a))
    ensures s.globalPeak <= Step(s, a).globalPeak <= s.topCounter
  {
    if a.Advance? {
      assert ThreadInv(s, s.threads[a.t]);
      if Step(s, a).topCounter != s.topCounter {
        assert CarriesCounter(Step(s, a).threads[a.t], Step(s, a).topCounter);
      }
    }
  }

  lemma CounterCarrierMoves(s: State, a: Action)
    requires Inv(s) && Roomy(s) && Enabled(s, a) && !a.AddUser?
    requires CarriesCounter(s.threads[a.t], s.topCounter) && Step(s, a).topCounter == s.topCounter
    ensures Step(s, a).globalPeak == s.topCounter || CounterOwed(Step(s, a))
  {
    var s' := Step(s, a);
    assert ThreadInv(s, s.threads[a.t]);
    if s.threads[a.t].LoadUser? { RoomFor(s, a.t); }
    assert CarriesCounter(s'.threads[a.t], s'.topCounter) || s'.globalPeak == s.topCounter;
  }

  /** With a limit that every user could fill alone, the largest value of the counter is already the
      recorded peak, or somebody is on the way to record it. */
  ghost predicate CounterPeakInv(s: State)
  {
    Roomy(s) && NoRollback(s) && (s.globalPeak == s.topCounter || CounterOwed(s))
  }

  lemma StepKeepsCounterPeak(s: State, a: Action)
    requires Inv(s) && CounterPeakInv(s) && Enabled(s, a) && Roomy(Step(s, a))
    ensures CounterPeakInv(Step(s, a))
  {
    var s' := Step(s, a);
    NeverRollsBack(s, a);
    CounterTopMoves(s, a);
    if s'.topCounter == s.topCounter && s.globalPeak != s.topCounter {
      var i :| 0 <= i < |s.threads| && CarriesCounter(s.threads[i], s.topCounter);
      if !a.AddUser? && i == a.t {
        CounterCarrierMoves(s, a);
      } else {
        OthersUnmoved(s, a, i);
        assert CarriesCounter(s'.threads[i], s'.topCounter);
      }
    }
  }

  lemma {:induction false} RunsKeepCounterPeak(s: State, run: seq<Action>)
    requires Inv(s) && CounterPeakInv(s) && Legal(s, run) && Roomy(End(s, run))
    ensures CounterPeakInv(End(s, run))
    decreases |run|
  {
    if run != [] {
      StepKeeps(s, run[0]);
      UsersLast(Step(s, run[0]), run[1..]);
      StepKeepsCounterPeak(s, run[0]);
      RunsKeepCounterPeak(Step(s, run[0]), run[1..]);
    }
  }
}
