/** The limiter when limit plus requested count may pass 2^64: its limit tests then add to a small sum and
    grant what there is no room for. Runs here are unrestricted; the results elsewhere are about runs in
    which no limit test overflows. */
module LimiterOverflow {
  import opened Words
  import opened Sums
  import opened ConcurrencyLimiter

  /** The limit test is right for every count up to the limit if and only if limit plus requested count is
      below 2^64; otherwise a full counter passes it. */
  lemma RoomTestExactly(c: word, limit: word)
    ensures (forall n: word :: n <= limit ==> (HasRoom(n, c, limit) <==> n + c <= limit)) <==> limit + c < WORD
    ensures limit + c >= WORD ==> HasRoom(limit, c, limit) && c > 0
  {
    if limit + c < WORD {
      forall n: word | n <= limit ensures HasRoom(n, c, limit) <==> n + c <= limit {
        assert Wrap(n + c) == n + c;
      }
    } else {
      assert Wrap(limit + c) == limit + c - WORD;
      assert HasRoom(limit, c, limit);
    }
  }

  lemma UsersStillExist(s: State, a: Action)
    requires UsersExist(s) && Enabled(s, a)
    ensures UsersExist(Step(s, a))
  {
    if a.Advance? && Acquiring(s.threads[a.t]) {
      StillExistInAcquire(s, a.t);
    } else if a.Advance? {
      StillExistInRelease(s, a.t);
    }
  }

  lemma StillExistInAcquire(s: State, t: nat)
    requires UsersExist(s) && Enabled(s, Advance(t))
    ensures UsersExist(AdvanceAcquire(s, t))
  {
  }

  lemma StillExistInRelease(s: State, t: nat)
    requires UsersExist(s) && Enabled(s, Advance(t))
    ensures UsersExist(AdvanceRelease(s, t))
  {
  }

  /** Any run. */
  ghost predicate Possible(s: State, run: seq<Action>)
    requires UsersExist(s)
    decreases |run|
  {
    || run == []
    || (Enabled(s, run[0]) && (UsersStillExist(s, run[0]); Possible(Step(s, run[0]), run[1..])))
  }

  ghost function Outcome(s: State, run: seq<Action>): (t: State)
    requires UsersExist(s) && Possible(s, run)
    ensures UsersExist(t)
    decreases |run|
  {
    if run == [] then s else (UsersStillExist(s, run[0]); Outcome(Step(s, run[0]), run[1..]))
  }

  ghost predicate Attains(limit: word, threads: nat, run: seq<Action>, t: State)
  {
    Possible(Init(limit, threads), run) && t == Outcome(Init(limit, threads), run)
  }

  ghost predicate RequestsWithin(run: seq<Action>, c: word)
  {
    forall i :: 0 <= i < |run| && run[i].Acquire? ==> run[i].c <= c
  }

  ghost predicate UserLimitsWithin(run: seq<Action>, m: word)
  {
    forall i :: 0 <= i < |run| && run[i].AddUser? ==> run[i].userLimit <= m
  }

  /** Nothing is reserved, and no thread is about to reserve, beyond a limit. */
  ghost predicate WithinLimits(s: State)
  {
    && (s.limit > 0 ==> s.global <= s.limit)
    && (forall u :: 0 <= u < |s.users| ==> s.users[u].active <= s.users[u].limit)
    && (forall i :: 0 <= i < |s.threads| ==> AsksWithinLimits(s, s.threads[i]))
  }

  ghost predicate AsksWithinLimits(s: State, th: Thread)
  {
    && (th.CasGlobal? ==> th.seen + th.c <= s.limit)
    && (th.CasUser? ==> th.u < |s.users| && th.a + th.c <= s.users[th.u].limit)
  }

  lemma InvWithinLimits(s: State)
    requires Inv(s)
    ensures WithinLimits(s)
  {
    forall i | 0 <= i < |s.threads| ensures AsksWithinLimits(s, s.threads[i]) {
      assert ThreadInv(s, s.threads[i]);
    }
    forall u | 0 <= u < |s.users| ensures s.users[u].active <= s.users[u].limit {
      assert UserInv(s.users[u]);
    }
  }

  /** The thread still has a limit test before it, for at most `c` slots. */
  predicate AsksFor(th: Thread, c: nat)
  {
    match th
    case LoadGlobal(_, c') => c' <= c
    case CasGlobal(_, c', _) => c' <= c
    case LoadUser(_, c', _) => c' <= c
    case CasUser(_, c', _, _) => c' <= c
    case _ => true
  }

  /** All requests are for at most `c` slots and leave the limits that are tested below 2^64. */
  ghost predicate Fitting(s: State, c: word, m: word)
  {
    && (if s.limit > 0 then s.limit else m) + c < WORD
    && (forall i :: 0 <= i < |s.threads| ==> AsksFor(s.threads[i], c))
    && (s.limit == 0 ==> forall u :: 0 <= u < |s.users| ==> s.users[u].limit <= m)
  }

  lemma FittingTestsAreSound(s: State, a: Action, c: word, m: word)
    requires Inv(s) && Fitting(s, c, m) && Enabled(s, a)
    ensures NoOverflow(s, a)
  {
    if a.Advance? {
      var th := s.threads[a.t];
      assert ThreadInv(s, th) && AsksFor(th, c);
      if th.LoadGlobal? {
        GlobalNonNegative(s);
      } else if th.LoadUser? && s.limit > 0 {
        RoomFor(s, a.t);
      } else if th.LoadUser? {
        assert UserInv(s.users[th.u]);
      }
    }
  }

  lemma FittingStays(s: State, a: Action, c: word, m: word)
    requires Inv(s) && Fitting(s, c, m) && Enabled(s, a)
    requires (a.Acquire? ==> a.c <= c) && (a.AddUser? && s.limit == 0 ==> a.userLimit <= m)
    ensures Fitting(Step(s, a), c, m)
  {
    var s' := Step(s, a);
    UsersStay(s, a);
    forall i | 0 <= i < |s'.threads| ensures AsksFor(s'.threads[i], c) {
      if a.AddUser? || i != a.t {
        OthersUnmoved(s, a, i);
      } else {
        MoverAsks(s, a, c);
      }
    }
    if s.limit == 0 { NewUsersWithin(s, a, m); }
  }

  lemma MoverAsks(s: State, a: Action, c: word)
    requires Inv(s) && Enabled(s, a) && !a.AddUser? && AsksFor(s.threads[a.t], c) && (a.Acquire? ==> a.c <= c)
    ensures a.t < |Step(s, a).threads| && AsksFor(Step(s, a).threads[a.t], c)
  {
    if a.Advance? && Acquiring(s.threads[a.t]) {
      AcquirerAsks(s, a.t, c);
    } else if a.Advance? {
      ReleaserAsks(s, a.t, c);
    }
  }

  lemma AcquirerAsks(s: State, t: nat, c: word)
    requires UsersExist(s) && Enabled(s, Advance(t)) && AsksFor(s.threads[t], c)
    ensures t < |AdvanceAcquire(s, t).threads| && AsksFor(AdvanceAcquire(s, t).threads[t], c)
  {
  }

  lemma ReleaserAsks(s: State, t: nat, c: word)
    requires UsersExist(s) && Enabled(s, Advance(t)) && AsksFor(s.threads[t], c)
    ensures t < |AdvanceRelease(s, t).threads| && AsksFor(AdvanceRelease(s, t).threads[t], c)
  {
  }

  lemma NewUsersWithin(s: State, a: Action, m: word)
    requires Inv(s) && Enabled(s, a) && (a.AddUser? ==> a.userLimit <= m)
    requires forall u :: 0 <= u < |s.users| ==> s.users[u].limit <= m
    ensures forall u :: 0 <= u < |Step(s, a).users| ==> Step(s, a).users[u].limit <= m
  {
    if a.Advance? { assert ThreadInv(s, s.threads[a.t]); }
  }

  /** While every request fits, no limit test overflows, so the run is one of those proved about. */
  lemma {:induction false} FittingRunsAreLegal(s: State, run: seq<Action>, c: word, m: word)
    requires Inv(s) && Fitting(s, c, m) && Possible(s, run) && RequestsWithin(run, c)
    requires s.limit == 0 ==> UserLimitsWithin(run, m)
    ensures Legal(s, run) && End(s, run) == Outcome(s, run)
    decreases |run|
  {
    if run != [] {
      var s' := Step(s, run[0]);
      FittingTestsAreSound(s, run[0], c, m);
      FittingStays(s, run[0], c, m);
      StepKeeps(s, run[0]);
      UsersStay(s, run[0]);
      assert RequestsWithin(run[1..], c) && (s.limit == 0 ==> UserLimitsWithin(run[1..], m));
      FittingRunsAreLegal(s', run[1..], c, m);
    }
  }

  lemma {:induction false} LegalIsPossible(s: State, run: seq<Action>)
    requires Inv(s) && Legal(s, run)
    ensures Possible(s, run) && Outcome(s, run) == End(s, run)
    decreases |run|
  {
    if run != [] {
      StepKeeps(s, run[0]);
      LegalIsPossible(Step(s, run[0]), run[1..]);
    }
  }

  lemma {:induction false} PossibleAppend(s: State, run: seq<Action>, a: Action)
    requires UsersExist(s) && Possible(s, run) && Enabled(Outcome(s, run), a)
    ensures Possible(s, run + [a]) && Outcome(s, run + [a]) == Step(Outcome(s, run), a)
    decreases |run|
  {
    var all := run + [a];
    UsersStillExist(s, all[0]);
    if run == [] {
      assert all[1..] == [];
    } else {
      assert all[1..] == run[1..] + [a];
      PossibleAppend(Step(s, run[0]), run[1..], a);
    }
  }

  /** A legal step more, whose request and user limit stay within the bounds. */
  lemma ExtendWithin(limit: word, threads: nat, c: word, m: word, run: seq<Action>, s: State, a: Action)
      returns (run': seq<Action>, t: State)
    requires Reaches(limit, threads, run, s) && Enabled(s, a) && NoOverflow(s, a)
    requires RequestsWithin(run, c) && UserLimitsWithin(run, m)
    requires (a.Acquire? ==> a.c <= c) && (a.AddUser? ==> a.userLimit <= m)
    ensures Inv(s) && t == Step(s, a) && Reaches(limit, threads, run', t)
    ensures RequestsWithin(run', c) && UserLimitsWithin(run', m)
  {
    run', t := Extend(limit, threads, run, s, a);
  }

  /** A step more of thread `i`, sound or not. */
  lemma OneMore(limit: word, threads: nat, c: word, m: word, run: seq<Action>, s: State, i: nat)
      returns (run': seq<Action>, t: State)
    requires Reaches(limit, threads, run, s) && Enabled(s, Advance(i))
    requires RequestsWithin(run, c) && UserLimitsWithin(run, m)
    ensures UsersExist(s) && t == Step(s, Advance(i)) && Attains(limit, threads, run', t)
    ensures RequestsWithin(run', c) && UserLimitsWithin(run', m)
  {
    InitHolds(limit, threads);
    LegalIsPossible(Init(limit, threads), run);
    PossibleAppend(Init(limit, threads), run, Advance(i));
    run', t := run + [Advance(i)], Step(s, Advance(i));
  }

  /** The first `k` threads have reserved a slot each, the others wait. */
  ghost predicate FirstReserve(s: State, k: nat)
  {
    && (forall i :: 0 <= i < |s.threads| ==> s.threads[i].Idle? || s.threads[i].LoadUser? || s.threads[i].AddGlobal?)
    && (forall i :: k <= i < |s.threads| ==> s.threads[i].Idle?)
  }

  lemma {:induction false} FillsGlobally(limit: word, c: word, k: nat) returns (run: seq<Action>, t: State)
    requires 0 < limit && c > 0 && k <= limit
    ensures Reaches(limit, limit + 1, run, t) && RequestsWithin(run, c) && UserLimitsWithin(run, 1)
    ensures t == State(limit, k, 0, [User(0, 1, true, 0, 0)], t.threads, k, 0)
    ensures |t.threads| == limit + 1 && FirstReserve(t, k)
  {
    if k == 0 {
      InitHolds(limit, limit + 1);
      run, t := ExtendWithin(limit, limit + 1, c, 1, [], Init(limit, limit + 1), AddUser(1));
    } else {
      run, t := FillsGlobally(limit, c, k - 1);
      run, t := ReservesOne(limit, c, k - 1, run, t);
    }
  }

  lemma SeesRoom(limit: word, c: word, k: nat, run0: seq<Action>, s: State) returns (run: seq<Action>, t: State)
    requires k < limit && c > 0
    requires Reaches(limit, limit + 1, run0, s) && RequestsWithin(run0, c) && UserLimitsWithin(run0, 1)
    requires s == State(limit, k, 0, [User(0, 1, true, 0, 0)], s.threads, k, 0)
    requires |s.threads| == limit + 1 && FirstReserve(s, k)
    ensures Reaches(limit, limit + 1, run, t) && RequestsWithin(run, c) && UserLimitsWithin(run, 1)
    ensures t == Put(s, k, CasGlobal(0, 1, k))
  {
    run, t := ExtendWithin(limit, limit + 1, c, 1, run0, s, Acquire(k, 0, 1));
    assert t == Put(s, k, LoadGlobal(0, 1));
    run, t := ExtendWithin(limit, limit + 1, c, 1, run, t, Advance(k));
    assert t.threads == s.threads[k := CasGlobal(0, 1, k)];
  }

  lemma ReservesOne(limit: word, c: word, k: nat, run0: seq<Action>, s: State) returns (run: seq<Action>, t: State)
    requires k < limit && c > 0
    requires Reaches(limit, limit + 1, run0, s) && RequestsWithin(run0, c) && UserLimitsWithin(run0, 1)
    requires s == State(limit, k, 0, [User(0, 1, true, 0, 0)], s.threads, k, 0)
    requires |s.threads| == limit + 1 && FirstReserve(s, k)
    ensures Reaches(limit, limit + 1, run, t) && RequestsWithin(run, c) && UserLimitsWithin(run, 1)
    ensures t == State(limit, k + 1, 0, [User(0, 1, true, 0, 0)], t.threads, k + 1, 0)
    ensures |t.threads| == limit + 1 && FirstReserve(t, k + 1)
  {
    run, t := SeesRoom(limit, c, k, run0, s);
    run, t := ExtendWithin(limit, limit + 1, c, 1, run, t, Advance(k));
    assert t.threads == s.threads[k := LoadUser(0, 1, k + 1)];
  }

  /** With every slot of the pool reserved, a request that takes the sum past 2^64 passes the limit test. */
  lemma GlobalTestOverflows(limit: word, c: word) returns (run: seq<Action>, t: State)
    requires limit > 0 && limit + c >= WORD
    ensures Attains(limit, limit + 1, run, t) && RequestsWithin(run, c) && !WithinLimits(t)
  {
    run, t := FillsGlobally(limit, c, limit);
    run, t := ExtendWithin(limit, limit + 1, c, 1, run, t, Acquire(limit, 0, c));
    FullTestPasses(limit, c, t);
    run, t := OneMore(limit, limit + 1, c, 1, run, t, limit);
    assert !AsksWithinLimits(t, t.threads[limit]);
  }

  lemma FullTestPasses(limit: word, c: word, s: State)
    requires UsersExist(s) && s.global == limit == s.limit && limit + c >= WORD
    requires limit < |s.threads| && s.threads[limit] == LoadGlobal(0, c)
    ensures Step(s, Advance(limit)) == Put(s, limit, CasGlobal(0, c, limit))
  {
    assert Wrap(limit + c) == limit + c - WORD;
  }

  lemma {:induction false} FillsUser(m: word, c: word, k: nat) returns (run: seq<Action>, t: State)
    requires c > 0 && k <= m
    ensures Reaches(0, m + 1, run, t) && RequestsWithin(run, c) && UserLimitsWithin(run, m)
    ensures t == State(0, 0, 0, [User(k, m, true, 0, k)], t.threads, 0, 0)
    ensures |t.threads| == m + 1 && FirstReserve(t, k)
  {
    if k == 0 {
      InitHolds(0, m + 1);
      run, t := ExtendWithin(0, m + 1, c, m, [], Init(0, m + 1), AddUser(m));
    } else {
      run, t := FillsUser(m, c, k - 1);
      run, t := TakesOne(m, c, k - 1, run, t);
    }
  }

  lemma SeesUserRoom(m: word, c: word, k: nat, run0: seq<Action>, s: State) returns (run: seq<Action>, t: State)
    requires k < m && c > 0
    requires Reaches(0, m + 1, run0, s) && RequestsWithin(run0, c) && UserLimitsWithin(run0, m)
    requires s == State(0, 0, 0, [User(k, m, true, 0, k)], s.threads, 0, 0)
    requires |s.threads| == m + 1 && FirstReserve(s, k)
    ensures Reaches(0, m + 1, run, t) && RequestsWithin(run, c) && UserLimitsWithin(run, m)
    ensures t == Put(s, k, CasUser(0, 1, 0, k))
  {
    run, t := ExtendWithin(0, m + 1, c, m, run0, s, Acquire(k, 0, 1));
    assert t == Put(s, k, LoadUser(0, 1, 0));
    run, t := ExtendWithin(0, m + 1, c, m, run, t, Advance(k));
    assert t.threads == s.threads[k := CasUser(0, 1, 0, k)];
  }

  lemma TakesOne(m: word, c: word, k: nat, run0: seq<Action>, s: State) returns (run: seq<Action>, t: State)
    requires k < m && c > 0
    requires Reaches(0, m + 1, run0, s) && RequestsWithin(run0, c) && UserLimitsWithin(run0, m)
    requires s == State(0, 0, 0, [User(k, m, true, 0, k)], s.threads, 0, 0)
    requires |s.threads| == m + 1 && FirstReserve(s, k)
    ensures Reaches(0, m + 1, run, t) && RequestsWithin(run, c) && UserLimitsWithin(run, m)
    ensures t == State(0, 0, 0, [User(k + 1, m, true, 0, k + 1)], t.threads, 0, 0)
    ensures |t.threads| == m + 1 && FirstReserve(t, k + 1)
  {
    run, t := SeesUserRoom(m, c, k, run0, s);
    run, t := ExtendWithin(0, m + 1, c, m, run, t, Advance(k));
    assert t.threads == s.threads[k := AddGlobal(0, 1, k + 1)];
    assert t.users == [User(k + 1, m, true, 0, k + 1)];
  }

  lemma UserTestOverflows(m: word, c: word) returns (run: seq<Action>, t: State)
    requires m + c >= WORD
    ensures Attains(0, m + 1, run, t) && RequestsWithin(run, c) && UserLimitsWithin(run, m) && !WithinLimits(t)
  {
    run, t := FillsUser(m, c, m);
    run, t := ExtendWithin(0, m + 1, c, m, run, t, Acquire(m, 0, c));
    FullUserTestPasses(m, c, t);
    run, t := OneMore(0, m + 1, c, m, run, t, m);
    assert !AsksWithinLimits(t, t.threads[m]);
  }

  lemma FullUserTestPasses(m: word, c: word, s: State)
    requires UsersExist(s) && |s.users| == 1 && s.users[0].active == m == s.users[0].limit && m + c >= WORD
    requires m < |s.threads| && s.threads[m] == LoadUser(0, c, 0)
    ensures Step(s, Advance(m)) == Put(s, m, CasUser(0, c, 0, m))
  {
    assert Wrap(m + c) == m + c - WORD;
  }

  /** Requests being for at most `c` slots, and users holding at most `m` where they are the only limit:
      the limits hold in every run if and only if the limit that is tested first, the pool's or else the
      users', plus `c` is below 2^64. */
  lemma LimitsHoldExactlyWhenRequestsFit(limit: word, c: word, m: word)
    requires c > 0
    ensures
      (forall threads, run, t ::
         Attains(limit, threads, run, t) && RequestsWithin(run, c) && (limit == 0 ==> UserLimitsWithin(run, m)) ==>
           WithinLimits(t))
      <==> (if limit > 0 then limit else m) + c < WORD
  {
    if (if limit > 0 then limit else m) + c < WORD {
      forall threads, run, t |
        Attains(limit, threads, run, t) && RequestsWithin(run, c) && (limit == 0 ==> UserLimitsWithin(run, m))
        ensures WithinLimits(t)
      {
        InitHolds(limit, threads);
        FittingRunsAreLegal(Init(limit, threads), run, c, m);
        InvWithinLimits(t);
      }
    } else if limit > 0 {
      var run, t := GlobalTestOverflows(limit, c);
    } else {
      var run, t := UserTestOverflows(m, c);
    }
  }
}
