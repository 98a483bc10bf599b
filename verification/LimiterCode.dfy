/** The calls of loopyConcurrencyPool.c in place, over the shared counters, while other threads run
    before every atomic access as a schedule says. Every access is proved to be a step of the machine in
    ConcurrencyLimiter, every call to end where the schedule determines and to answer what LimiterCalls
    says. */
module LimiterCode {
  import opened Words
  import opened ConcurrencyLimiter
  import opened LimiterCalls

  lemma WrapAdd(x: int, c: int)
    ensures Wrap(Wrap(x) + c) == Wrap(x + c)
  {
  }

  /** The step of the swap that reserves globally. */
  lemma OwnSwapGlobal(s: State, t: nat, u: nat, c: nat, g: word, spurious: bool)
    requires Ready(s, t) && s.threads[t] == CasGlobal(u, c, g)
    ensures
      var s' := Own(s, t, spurious);
      var ok := Wrap(s.global) == g && !spurious;
      && s'.threads == s.threads[t := if ok then LoadUser(u, c, Wrap(g + c)) else LoadGlobal(u, c)]
      && Wrap(s'.global) == (if ok then Wrap(g + c) else Wrap(s.global))
      && s'.limit == s.limit && s'.globalPeak == s.globalPeak && s'.users == s.users
  {
    WrapAdd(s.global, c);
    assert Own(s, t, spurious) == if spurious then Retry(s, t) else AdvanceAcquire(s, t);
  }

  /** The step of the swap that reserves for the user. */
  lemma OwnSwapUser(s: State, t: nat, u: nat, c: nat, g: word, a: nat, spurious: bool)
    requires Ready(s, t) && s.threads[t] == CasUser(u, c, g, a)
    ensures
      var s' := Own(s, t, spurious);
      && u < |s.users| && s'.limit == s.limit && s'.globalPeak == s.globalPeak && s'.global == s.global
      && if s.users[u].active == a && !spurious then
           && Wrap(a + c) == a + c
           && s'.threads == s.threads[t := if s.limit > 0 then LoadPeak(u, a + c, g) else AddGlobal(u, c, a + c)]
           && s'.users == s.users[u := s.users[u].(active := a + c, top := Max(s.users[u].top, a + c))]
         else
           s'.threads == s.threads[t := LoadUser(u, c, g)] && s'.users == s.users
  {
    assert ThreadInv(s, s.threads[t]);
    assert Own(s, t, spurious) == if spurious then Retry(s, t) else AdvanceAcquire(s, t);
  }

  /** What a change to one user, and nothing else, does to the shared memory. */
  lemma UserMemory(s: State, s': State, u: nat)
    requires u < |s.users| == |s'.users| && s'.users == s.users[u := s'.users[u]]
    ensures MemoryOf(s').active == MemoryOf(s).active[u := s'.users[u].active]
    ensures MemoryOf(s').peak == MemoryOf(s).peak[u := s'.users[u].peak]
    ensures s'.users[u].limit == s.users[u].limit ==> MemoryOf(s').limits == MemoryOf(s).limits
  {
  }

  lemma SameMemory(s: State, s': State)
    requires s'.users == s.users
    ensures MemoryOf(s') == MemoryOf(s).(global := Wrap(s'.global), globalPeak := s'.globalPeak)
  {
  }

  /** The acquire has its user reservation, with which the user holds `v`. */
  predicate Committed(th: Thread, limit: nat, u: nat, c: nat, v: nat, g: word)
  {
    match th
    case LoadPeak(u', v', g') => limit > 0 && u' == u && v' == v && g' == g
    case AddGlobal(u', c', v') => limit == 0 && u' == u && c' == c && v' == v
    case _ => false
  }

  /** The machine is in order, and the shared memory is what it says. */
  ghost predicate Mirrors(s: State, limit: word, m: Memory)
  {
    match s case State(bound, _, _, _, _, _, _) => Inv(s) && bound == limit && MemoryOf(s) == m
  }

  class Pool {
    const limit: word
    var globalActive: word
    var globalPeak: word
    /** The active count, peak and limit of each user. */
    var active: seq<nat>
    var peak: seq<nat>
    var limits: seq<word>
    /** The machine: the true counts, and where every thread stands. */
    ghost var s: State

    ghost predicate Valid()
      reads this
    {
      Mirrors(s, limit, Memory(globalActive, globalPeak, active, peak, limits))
    }

    constructor (limit: word, ghost threads: nat)
      ensures Valid() && s == Init(limit, threads)
    {
      this.limit := limit;
      globalActive, globalPeak, active, peak, limits := 0, 0, [], [], [];
      s := Init(limit, threads);
      new;
      InitHolds(limit, threads);
    }

    /** Other threads run. */
    method OthersRun(t: nat, r: Round)
      requires Valid() && Busy(s, t) && Interferes(s, t, r)
      modifies this
      ensures Valid() && s == Before(old(s), t, r)
    {
      globalActive, globalPeak := r.memory.global, r.memory.globalPeak;
      active, peak, limits := r.memory.active, r.memory.peak, r.memory.limits;
      s := Before(s, t, r);
    }

    method LoadGlobalCount(t: nat, u: nat, c: nat, spurious: bool) returns (g: word, room: bool)
      requires Valid() && Ready(s, t) && s.threads[t] == LoadGlobal(u, c)
      modifies this`s
      ensures Valid() && s == Own(old(s), t, spurious)
      ensures g == globalActive && (room <==> HasRoom(g, c, limit))
      ensures t < |s.threads| && s.threads[t] == if room then CasGlobal(u, c, g) else Idle
    {
      g := globalActive;
      room := HasRoom(g, c, limit);
      ghost var b := s;
      s := Own(b, t, spurious);
      assert s == AdvanceAcquire(b, t);
      SameMemory(b, s);
    }

    method SwapGlobal(t: nat, u: nat, c: nat, g: word, spurious: bool) returns (ok: bool)
      requires Valid() && Ready(s, t) && s.threads[t] == CasGlobal(u, c, g)
      modifies this`s, this`globalActive
      ensures Valid() && s == Own(old(s), t, spurious)
      ensures ok <==> old(globalActive) == g && !spurious
      ensures t < |s.threads| && s.threads[t] == if ok then LoadUser(u, c, Wrap(g + c)) else LoadGlobal(u, c)
    {
      ok := globalActive == g && !spurious;
      if ok {
        globalActive := Wrap(g + c);
      }
      ghost var b := s;
      OwnSwapGlobal(b, t, u, c, g, spurious);
      s := Own(b, t, spurious);
      SameMemory(b, s);
    }

    method LoadUserCount(t: nat, u: nat, c: nat, g: word, spurious: bool) returns (a: nat, room: bool)
      requires Valid() && Ready(s, t) && s.threads[t] == LoadUser(u, c, g)
      modifies this`s
      ensures Valid() && s == Own(old(s), t, spurious)
      ensures u < |active| && a == active[u] && (room <==> HasRoom(a, c, limits[u]))
      ensures t < |s.threads|
      ensures s.threads[t] == if room then CasUser(u, c, g, a) else if limit > 0 then Rollback(u, c) else Idle
    {
      ghost var b := s;
      assert ThreadInv(b, b.threads[t]);
      a := active[u];
      room := HasRoom(a, c, limits[u]);
      s := Own(b, t, spurious);
      assert s == AdvanceAcquire(b, t);
      SameMemory(b, s);
    }

    method SwapUser(t: nat, u: nat, c: nat, g: word, a: nat, spurious: bool) returns (ok: bool)
      requires Valid() && Ready(s, t) && s.threads[t] == CasUser(u, c, g, a)
      modifies this`s, this`active
      ensures Valid() && s == Own(old(s), t, spurious)
      ensures t < |s.threads|
      ensures s.threads[t] ==
                if !ok then LoadUser(u, c, g)
                else if limit > 0 then LoadPeak(u, a + c, g) else AddGlobal(u, c, a + c)
    {
      ghost var b := s;
      assert ThreadInv(b, b.threads[t]);
      ok := active[u] == a && !spurious;
      if ok {
        active := active[u := Wrap(a + c)];
      }
      OwnSwapUser(b, t, u, c, g, a, spurious);
      s := Own(b, t, spurious);
      UserMemory(b, s, u);
    }

    method RollBack(t: nat, u: nat, c: nat, spurious: bool)
      requires Valid() && Ready(s, t) && s.threads[t] == Rollback(u, c)
      modifies this`s, this`globalActive
      ensures Valid() && s == Own(old(s), t, spurious) && t < |s.threads| && s.threads[t] == Idle
    {
      ghost var b := s;
      WrapAdd(b.global, -(c as int));
      globalActive := Wrap(globalActive - c);
      s := Own(b, t, spurious);
      assert s == AdvanceAcquire(b, t);
      SameMemory(b, s);
    }

    /** atomic_fetch_add, plus the count. */
    method AddToGlobal(t: nat, u: nat, c: nat, v: nat, spurious: bool) returns (g: word)
      requires Valid() && Ready(s, t) && s.threads[t] == AddGlobal(u, c, v)
      modifies this`s, this`globalActive
      ensures Valid() && s == Own(old(s), t, spurious) && t < |s.threads| && s.threads[t] == LoadPeak(u, v, g)
      ensures g == globalActive
    {
      ghost var b := s;
      WrapAdd(b.global, c);
      globalActive := Wrap(globalActive + c);
      g := globalActive;
      s := Own(b, t, spurious);
      assert s == AdvanceAcquire(b, t);
      SameMemory(b, s);
    }

    method ReadPeak(t: nat, u: nat, v: nat, g: word, spurious: bool) returns (p: nat)
      requires Valid() && Ready(s, t) && s.threads[t] == LoadPeak(u, v, g)
      modifies this`s
      ensures Valid() && s == Own(old(s), t, spurious) && t < |s.threads| && s.threads[t] == CasPeak(u, v, g, p)
    {
      ghost var b := s;
      assert ThreadInv(b, b.threads[t]);
      p := peak[u];
      s := Own(b, t, spurious);
      assert s == AdvanceAcquire(b, t);
      SameMemory(b, s);
    }

    /** The test and the compare-and-swap of the peak loop. */
    method SwapPeak(t: nat, u: nat, v: nat, g: word, p: nat, spurious: bool) returns (done: bool, found: nat)
      requires Valid() && Ready(s, t) && s.threads[t] == CasPeak(u, v, g, p)
      modifies this`s, this`peak
      ensures Valid() && s == Own(old(s), t, spurious) && t < |s.threads|
      ensures s.threads[t] == if done then LoadGlobalPeak(g) else CasPeak(u, v, g, found)
    {
      ghost var b := s;
      assert ThreadInv(b, b.threads[t]);
      found := peak[u];
      done := v <= p || (found == p && !spurious);
      if done && v > p {
        peak := peak[u := v];
      }
      s := Own(b, t, spurious);
      assert s == if spurious && v > p then Retry(b, t) else AdvanceAcquire(b, t);
      UserMemory(b, s, u);
    }

    method ReadGlobalPeak(t: nat, g: word, spurious: bool) returns (p: word)
      requires Valid() && Ready(s, t) && s.threads[t] == LoadGlobalPeak(g)
      modifies this`s
      ensures Valid() && s == Own(old(s), t, spurious) && t < |s.threads| && s.threads[t] == CasGlobalPeak(g, p)
    {
      ghost var b := s;
      p := globalPeak;
      s := Own(b, t, spurious);
      assert s == AdvanceAcquire(b, t);
      SameMemory(b, s);
    }

    method SwapGlobalPeak(t: nat, g: word, p: word, spurious: bool) returns (done: bool, found: word)
      requires Valid() && Ready(s, t) && s.threads[t] == CasGlobalPeak(g, p)
      modifies this`s, this`globalPeak
      ensures Valid() && s == Own(old(s), t, spurious) && t < |s.threads|
      ensures s.threads[t] == if done then Idle else CasGlobalPeak(g, found)
    {
      ghost var b := s;
      found := globalPeak;
      done := g <= p || (found == p && !spurious);
      if done && g > p {
        globalPeak := g;
      }
      s := Own(b, t, spurious);
      assert s == if spurious && g > p then Retry(b, t) else AdvanceAcquire(b, t);
      SameMemory(b, s);
    }

    /** One round of the loop of step 1: the load and the swap. */
    method AttemptGlobal(t: nat, u: nat, c: nat, rounds: seq<Round>)
        returns (again: bool, r: Result, g: word, rest: seq<Round>)
      requires Valid() && Busy(s, t) && s.threads[t] == LoadGlobal(u, c) && Schedule(s, t, rounds) && rounds != []
      modifies this
      ensures Valid() && r in {Ok, GlobalLimit, StillTrying} && |rest| < |rounds|
      ensures again ==> Continues(Call(old(s), rounds, t), s, rest) && s.threads[t] == LoadGlobal(u, c)
      ensures !again && r == Ok ==> Continues(Call(old(s), rounds, t), s, rest) && s.threads[t] == LoadUser(u, c, g)
      ensures !again && r != Ok ==> Over(Call(old(s), rounds, t), s, r)
    {
      ghost var call := Call(s, rounds, t);
      Begin(s, rounds, t);
      rest := rounds;
      GoOn(call, s, rest);
      OthersRun(t, rest[0]);
      var room;
      g, room := LoadGlobalCount(t, u, c, rest[0].spurious);
      rest := rest[1..];
      if !room {
        return false, GlobalLimit, g, rest;
      }
      if rest == [] {
        RunOut(call, s);
        return false, StillTrying, g, rest;
      }
      GoOn(call, s, rest);
      OthersRun(t, rest[0]);
      var ok := SwapGlobal(t, u, c, g, rest[0].spurious);
      return !ok, Ok, Wrap(g + c), rest[1..];
    }

    /** Step 1 of the acquire: the retry loop that reserves globally. */
    method ReserveGlobal(t: nat, u: nat, c: nat, rounds: seq<Round>) returns (r: Result, g: word, rest: seq<Round>)
      requires Valid() && Busy(s, t) && s.threads[t] == LoadGlobal(u, c) && Schedule(s, t, rounds)
      modifies this
      ensures Valid() && r in {Ok, GlobalLimit, StillTrying}
      ensures r == Ok ==> Continues(Call(old(s), rounds, t), s, rest) && s.threads[t] == LoadUser(u, c, g)
      ensures r != Ok ==> Over(Call(old(s), rounds, t), s, r)
    {
      rest, g := rounds, 0;
      ghost var call := Call(s, rounds, t);
      Begin(s, rounds, t);
      while rest != []
        invariant Valid() && Continues(call, s, rest) && s.threads[t] == LoadGlobal(u, c)
        decreases |rest|
      {
        ghost var before, ahead := s, rest;
        Standing(call, s, rest);
        var again;
        again, r, g, rest := AttemptGlobal(t, u, c, rest);
        Joined(call, before, ahead, s, rest, r);
        if !again {
          return;
        }
      }
      RunOut(call, s);
      r := StillTrying;
    }

    /** The denied acquire gives its global reservation back. */
    method GiveBack(t: nat, u: nat, c: nat, rounds: seq<Round>) returns (r: Result)
      requires Valid() && Busy(s, t) && s.threads[t] == Rollback(u, c) && Schedule(s, t, rounds)
      modifies this
      ensures Valid() && r in {UserLimit, StillTrying} && Over(Call(old(s), rounds, t), s, r)
    {
      ghost var call := Call(s, rounds, t);
      Begin(s, rounds, t);
      if rounds == [] {
        RunOut(call, s);
        return StillTrying;
      }
      GoOn(call, s, rounds);
      OthersRun(t, rounds[0]);
      RollBack(t, u, c, rounds[0].spurious);
      r := UserLimit;
    }

    /** One round of the loop of step 2: the load, and the swap or the rollback. */
    method AttemptUser(t: nat, u: nat, c: nat, g: word, rounds: seq<Round>)
        returns (again: bool, r: Result, a: nat, rest: seq<Round>)
      requires Valid() && Busy(s, t) && s.threads[t] == LoadUser(u, c, g) && Schedule(s, t, rounds) && rounds != []
      modifies this
      ensures Valid() && r in {Ok, UserLimit, StillTrying} && |rest| < |rounds|
      ensures again ==> Continues(Call(old(s), rounds, t), s, rest) && s.threads[t] == LoadUser(u, c, g)
      ensures !again && r == Ok ==>
                && Continues(Call(old(s), rounds, t), s, rest)
                && Committed(s.threads[t], limit, u, c, a + c, g)
      ensures !again && r != Ok ==> Over(Call(old(s), rounds, t), s, r)
    {
      ghost var call := Call(s, rounds, t);
      Begin(s, rounds, t);
      rest := rounds;
      GoOn(call, s, rest);
      OthersRun(t, rest[0]);
      var room;
      a, room := LoadUserCount(t, u, c, g, rest[0].spurious);
      rest := rest[1..];
      if !room && limit == 0 {
        return false, UserLimit, a, rest;
      }
      if !room {
        ghost var before := s;
        Standing(call, s, rest);
        r := GiveBack(t, u, c, rest);
        Joined(call, before, rest, s, [], r);
        return false, r, a, rest;
      }
      if rest == [] {
        RunOut(call, s);
        return false, StillTrying, a, rest;
      }
      GoOn(call, s, rest);
      OthersRun(t, rest[0]);
      var ok := SwapUser(t, u, c, g, a, rest[0].spurious);
      return !ok, Ok, a, rest[1..];
    }

    /** Step 2: the retry loop that reserves for the user, or gives the global reservation back. */
    method ReserveUser(t: nat, u: nat, c: nat, g: word, rounds: seq<Round>)
        returns (r: Result, a: nat, rest: seq<Round>)
      requires Valid() && Busy(s, t) && s.threads[t] == LoadUser(u, c, g) && Schedule(s, t, rounds)
      modifies this
      ensures Valid() && r in {Ok, UserLimit, StillTrying}
      ensures r == Ok ==>
                && Continues(Call(old(s), rounds, t), s, rest)
                && Committed(s.threads[t], limit, u, c, a + c, g)
      ensures r != Ok ==> Over(Call(old(s), rounds, t), s, r)
    {
      rest, a := rounds, 0;
      ghost var call := Call(s, rounds, t);
      Begin(s, rounds, t);
      while rest != []
        invariant Valid() && Continues(call, s, rest) && s.threads[t] == LoadUser(u, c, g)
        decreases |rest|
      {
        ghost var before, ahead := s, rest;
        Standing(call, s, rest);
        var again;
        again, r, a, rest := AttemptUser(t, u, c, g, rest);
        Joined(call, before, ahead, s, rest, r);
        if !again {
          return;
        }
      }
      RunOut(call, s);
      r := StillTrying;
    }

    /** Step 3, without a global limit: the global counter is told now. */
    method CountGlobally(t: nat, u: nat, c: nat, v: nat, rounds: seq<Round>)
        returns (r: Result, g: word, rest: seq<Round>)
      requires Valid() && Busy(s, t) && s.threads[t] == AddGlobal(u, c, v) && Schedule(s, t, rounds)
      modifies this
      ensures Valid() && r in {Ok, StillTrying}
      ensures r == Ok ==> Continues(Call(old(s), rounds, t), s, rest) && s.threads[t] == LoadPeak(u, v, g)
      ensures r != Ok ==> Over(Call(old(s), rounds, t), s, r)
    {
      ghost var call := Call(s, rounds, t);
      Begin(s, rounds, t);
      rest, g := rounds, 0;
      if rest == [] {
        RunOut(call, s);
        return StillTrying, g, rest;
      }
      GoOn(call, s, rest);
      OthersRun(t, rest[0]);
      g := AddToGlobal(t, u, c, v, rest[0].spurious);
      rest := rest[1..];
      r := Ok;
    }

    /** updatePeak for the user. */
    method UpdatePeak(t: nat, u: nat, v: nat, g: word, rounds: seq<Round>) returns (r: Result, rest: seq<Round>)
      requires Valid() && Busy(s, t) && s.threads[t] == LoadPeak(u, v, g) && Schedule(s, t, rounds)
      modifies this
      ensures Valid() && r in {Ok, StillTrying}
      ensures r == Ok ==> Continues(Call(old(s), rounds, t), s, rest) && s.threads[t] == LoadGlobalPeak(g)
      ensures r != Ok ==> Over(Call(old(s), rounds, t), s, r)
    {
      ghost var call := Call(s, rounds, t);
      Begin(s, rounds, t);
      rest := rounds;
      if rest == [] {
        RunOut(call, s);
        return StillTrying, rest;
      }
      GoOn(call, s, rest);
      OthersRun(t, rest[0]);
      var p := ReadPeak(t, u, v, g, rest[0].spurious);
      rest := rest[1..];
      while rest != []
        invariant Valid() && Continues(call, s, rest) && s.threads[t] == CasPeak(u, v, g, p)
        decreases |rest|
      {
        GoOn(call, s, rest);
        OthersRun(t, rest[0]);
        var done;
        done, p := SwapPeak(t, u, v, g, p, rest[0].spurious);
        rest := rest[1..];
        if done {
          return Ok, rest;
        }
      }
      RunOut(call, s);
      r := StillTrying;
    }

    /** updatePeak for the pool: the last thing an acquire does. */
    method UpdateGlobalPeak(t: nat, g: word, rounds: seq<Round>) returns (r: Result)
      requires Valid() && Busy(s, t) && s.threads[t] == LoadGlobalPeak(g) && Schedule(s, t, rounds)
      modifies this
      ensures Valid() && Over(Call(old(s), rounds, t), s, r)
    {
      ghost var call := Call(s, rounds, t);
      Begin(s, rounds, t);
      if rounds == [] {
        RunOut(call, s);
        return StillTrying;
      }
      GoOn(call, s, rounds);
      OthersRun(t, rounds[0]);
      var p := ReadGlobalPeak(t, g, rounds[0].spurious);
      ghost var before := s;
      Standing(call, s, rounds[1..]);
      r := RaiseGlobalPeak(t, g, p, rounds[1..]);
      Joined(call, before, rounds[1..], s, [], r);
    }

    /** Its loop, with the peak it read. */
    method RaiseGlobalPeak(t: nat, g: word, seen: word, rounds: seq<Round>) returns (r: Result)
      requires Valid() && Busy(s, t) && s.threads[t] == CasGlobalPeak(g, seen) && Schedule(s, t, rounds)
      modifies this
      ensures Valid() && Over(Call(old(s), rounds, t), s, r)
    {
      ghost var call := Call(s, rounds, t);
      Begin(s, rounds, t);
      var rest, p := rounds, seen;
      while rest != []
        invariant Valid() && Continues(call, s, rest) && s.threads[t] == CasGlobalPeak(g, p)
        decreases |rest|
      {
        GoOn(call, s, rest);
        OthersRun(t, rest[0]);
        var done;
        done, p := SwapGlobalPeak(t, g, p, rest[0].spurious);
        rest := rest[1..];
        if done {
          return Ok;
        }
      }
      RunOut(call, s);
      r := StillTrying;
    }

    /** The peaks of an acquire that has both reservations. */
    method UpdatePeaks(t: nat, u: nat, v: nat, g: word, rounds: seq<Round>) returns (r: Result)
      requires Valid() && Busy(s, t) && s.threads[t] == LoadPeak(u, v, g) && Schedule(s, t, rounds)
      modifies this
      ensures Valid() && Over(Call(old(s), rounds, t), s, r)
    {
      var rest;
      r, rest := UpdatePeak(t, u, v, g, rounds);
      if r == Ok {
        r := UpdateGlobalPeak(t, g, rest);
      }
    }

    /** Steps 2 and 3 of the acquire: both counters have the count. */
    method CommitForUser(t: nat, u: nat, c: nat, reserved: word, rounds: seq<Round>)
        returns (r: Result, v: nat, g: word, rest: seq<Round>)
      requires Valid() && Busy(s, t) && s.threads[t] == LoadUser(u, c, reserved) && Schedule(s, t, rounds)
      modifies this
      ensures Valid()
      ensures r == Ok ==> Continues(Call(old(s), rounds, t), s, rest) && s.threads[t] == LoadPeak(u, v, g)
      ensures r != Ok ==> Over(Call(old(s), rounds, t), s, r)
    {
      ghost var call := Call(s, rounds, t);
      var a;
      g := reserved;
      r, a, rest := ReserveUser(t, u, c, g, rounds);
      v := a + c;
      if r == Ok && limit == 0 {
        ghost var before, ahead := s, rest;
        r, g, rest := CountGlobally(t, u, c, v, rest);
        Joined(call, before, ahead, s, rest, r);
      }
    }

    /** An acquire after its global reservation. */
    method AcquireForUser(t: nat, u: nat, c: nat, reserved: word, rounds: seq<Round>) returns (r: Result)
      requires Valid() && Busy(s, t) && s.threads[t] == LoadUser(u, c, reserved) && Schedule(s, t, rounds)
      modifies this
      ensures Valid() && Over(Call(old(s), rounds, t), s, r)
    {
      ghost var call := Call(s, rounds, t);
      var v, g, rest;
      r, v, g, rest := CommitForUser(t, u, c, reserved, rounds);
      if r == Ok {
        ghost var before := s;
        Standing(call, s, rest);
        r := UpdatePeaks(t, u, v, g, rest);
        Joined(call, before, rest, s, [], r);
      }
    }

    /** loopyConcurrencyUserTryAcquire: it ends in the state, and with the answer, that the schedule
        determines. */
    method TryAcquire(t: nat, u: nat, c: word, rounds: seq<Round>) returns (r: Result)
      requires Valid() && Enabled(s, Acquire(t, u, c)) && Schedule(Called(s, Acquire(t, u, c)), t, rounds)
      modifies this
      ensures Valid() && Over(Call(Called(old(s), Acquire(t, u, c)), rounds, t), s, r)
      ensures Acquired(old(s), t, u, c, rounds, r)
    {
      ghost var b := s;
      AcquireDoes(s, t, u, c, rounds);
      s := Called(s, Acquire(t, u, c));
      SameMemory(b, s);
      var g, rest := 0, rounds;
      r := Ok;
      if limit > 0 {
        r, g, rest := ReserveGlobal(t, u, c, rounds);
      }
      if r == Ok {
        r := AcquireForUser(t, u, c, g, rest);
      }
    }

    method LoadForRelease(t: nat, u: nat, c: nat, spurious: bool) returns (a: nat, some: nat)
      requires Valid() && Ready(s, t) && s.threads[t] == LoadRelease(u, c)
      modifies this`s
      ensures Valid() && s == Own(old(s), t, spurious)
      ensures u < |active| && a == active[u] && (a > 0 ==> some == if c > a then a else c) && (a == 0 ==> some == 0)
      ensures t < |s.threads| && s.threads[t] == if a == 0 then Idle else CasRelease(u, some, a)
    {
      ghost var b := s;
      assert ThreadInv(b, b.threads[t]);
      a := active[u];
      some := if c > a then a else c;
      s := Own(b, t, spurious);
      assert s == AdvanceRelease(b, t);
      SameMemory(b, s);
    }

    method SwapRelease(t: nat, u: nat, c: nat, a: nat, spurious: bool) returns (ok: bool)
      requires Valid() && Ready(s, t) && s.threads[t] == CasRelease(u, c, a)
      modifies this`s, this`active
      ensures Valid() && s == Own(old(s), t, spurious)
      ensures t < |s.threads| && s.threads[t] == if ok then SubGlobal(c) else LoadRelease(u, c)
    {
      ghost var b := s;
      assert ThreadInv(b, b.threads[t]);
      ok := active[u] == a && !spurious;
      if ok {
        active := active[u := a - c];
      }
      s := Own(b, t, spurious);
      assert s == if spurious then Retry(b, t) else AdvanceRelease(b, t);
      UserMemory(b, s, u);
    }

    method SubtractGlobal(t: nat, c: nat, spurious: bool)
      requires Valid() && Ready(s, t) && s.threads[t] == SubGlobal(c)
      modifies this`s, this`globalActive
      ensures Valid() && s == Own(old(s), t, spurious) && t < |s.threads| && s.threads[t] == Idle
    {
      ghost var b := s;
      WrapAdd(b.global, -(c as int));
      globalActive := Wrap(globalActive - c);
      s := Own(b, t, spurious);
      assert s == AdvanceRelease(b, t);
      SameMemory(b, s);
    }

    method ExchangeActive(t: nat, u: nat, spurious: bool) returns (a: nat)
      requires Valid() && Ready(s, t) && s.threads[t] == Exchange(u)
      modifies this`s, this`active
      ensures Valid() && s == Own(old(s), t, spurious)
      ensures t < |s.threads| && s.threads[t] == if a > 0 then SubGlobal(a) else Idle
    {
      ghost var b := s;
      assert ThreadInv(b, b.threads[t]);
      a := active[u];
      active := active[u := 0];
      s := Own(b, t, spurious);
      assert s == AdvanceRelease(b, t);
      UserMemory(b, s, u);
    }

    /** The last access of a release: the amount leaves the global counter too. */
    method ReturnGlobally(t: nat, c: nat, rounds: seq<Round>) returns (r: Result)
      requires Valid() && Busy(s, t) && s.threads[t] == SubGlobal(c) && Schedule(s, t, rounds)
      modifies this
      ensures Valid() && r in {Released(c), StillTrying} && Over(Call(old(s), rounds, t), s, r)
    {
      ghost var call := Call(s, rounds, t);
      Begin(s, rounds, t);
      if rounds == [] {
        RunOut(call, s);
        return StillTrying;
      }
      GoOn(call, s, rounds);
      OthersRun(t, rounds[0]);
      SubtractGlobal(t, c, rounds[0].spurious);
      r := Released(c);
    }

    /** One round of the release loop: the load and the swap. The count, once lowered to what is held,
        stays lowered. */
    method AttemptRelease(t: nat, u: nat, count: nat, rounds: seq<Round>)
        returns (again: bool, r: Result, c: nat, rest: seq<Round>)
      requires Valid() && Busy(s, t) && s.threads[t] == LoadRelease(u, count) && Schedule(s, t, rounds) && rounds != []
      modifies this
      ensures Valid() && r in {Ok, Released(0), StillTrying} && |rest| < |rounds|
      ensures again ==> Continues(Call(old(s), rounds, t), s, rest) && s.threads[t] == LoadRelease(u, c)
      ensures !again && r == Ok ==> Continues(Call(old(s), rounds, t), s, rest) && s.threads[t] == SubGlobal(c)
      ensures !again && r != Ok ==> Over(Call(old(s), rounds, t), s, r)
    {
      ghost var call := Call(s, rounds, t);
      Begin(s, rounds, t);
      rest := rounds;
      GoOn(call, s, rest);
      OthersRun(t, rest[0]);
      var a;
      a, c := LoadForRelease(t, u, count, rest[0].spurious);
      rest := rest[1..];
      if a == 0 {
        return false, Released(0), c, rest;
      }
      if rest == [] {
        RunOut(call, s);
        return false, StillTrying, c, rest;
      }
      GoOn(call, s, rest);
      OthersRun(t, rest[0]);
      var ok := SwapRelease(t, u, c, a, rest[0].spurious);
      return !ok, Ok, c, rest[1..];
    }

    /** The release loop: it takes the amount out of the user's counter. */
    method TakeFromUser(t: nat, u: nat, count: nat, rounds: seq<Round>)
        returns (r: Result, c: nat, rest: seq<Round>)
      requires Valid() && Busy(s, t) && s.threads[t] == LoadRelease(u, count) && Schedule(s, t, rounds)
      modifies this
      ensures Valid() && r in {Ok, Released(0), StillTrying}
      ensures r == Ok ==> Continues(Call(old(s), rounds, t), s, rest) && s.threads[t] == SubGlobal(c)
      ensures r != Ok ==> Over(Call(old(s), rounds, t), s, r)
    {
      rest, c := rounds, count;
      ghost var call := Call(s, rounds, t);
      Begin(s, rounds, t);
      while rest != []
        invariant Valid() && Continues(call, s, rest) && s.threads[t] == LoadRelease(u, c)
        decreases |rest|
      {
        ghost var before, ahead := s, rest;
        Standing(call, s, rest);
        var again;
        again, r, c, rest := AttemptRelease(t, u, c, rest);
        Joined(call, before, ahead, s, rest, r);
        if !again {
          return;
        }
      }
      RunOut(call, s);
      r := StillTrying;
    }

    /** loopyConcurrencyUserRelease. */
    method Release(t: nat, u: nat, count: word, rounds: seq<Round>) returns (r: Result)
      requires Valid() && Enabled(s, ConcurrencyLimiter.Release(t, u, count))
      requires Schedule(Called(s, ConcurrencyLimiter.Release(t, u, count)), t, rounds)
      modifies this
      ensures Valid() && Over(Call(Called(old(s), ConcurrencyLimiter.Release(t, u, count)), rounds, t), s, r)
      ensures GaveBack(old(s), ConcurrencyLimiter.Release(t, u, count), rounds, r)
    {
      ghost var b := s;
      ReleaseDoes(s, ConcurrencyLimiter.Release(t, u, count), rounds);
      s := Called(s, ConcurrencyLimiter.Release(t, u, count));
      SameMemory(b, s);
      var c, rest;
      r, c, rest := TakeFromUser(t, u, count, rounds);
      if r == Ok {
        r := ReturnGlobally(t, c, rest);
      }
    }

    /** loopyConcurrencyUserReleaseAll. */
    method ReleaseAll(t: nat, u: nat, rounds: seq<Round>) returns (r: Result)
      requires Valid() && Enabled(s, ConcurrencyLimiter.ReleaseAll(t, u))
      requires Schedule(Called(s, ConcurrencyLimiter.ReleaseAll(t, u)), t, rounds)
      modifies this
      ensures Valid() && Over(Call(Called(old(s), ConcurrencyLimiter.ReleaseAll(t, u)), rounds, t), s, r)
      ensures GaveBack(old(s), ConcurrencyLimiter.ReleaseAll(t, u), rounds, r)
    {
      ghost var b := s;
      ReleaseDoes(s, ConcurrencyLimiter.ReleaseAll(t, u), rounds);
      s := Called(s, ConcurrencyLimiter.ReleaseAll(t, u));
      SameMemory(b, s);
      ghost var call := Call(s, rounds, t);
      Begin(s, rounds, t);
      if rounds == [] {
        RunOut(call, s);
        return StillTrying;
      }
      GoOn(call, s, rounds);
      OthersRun(t, rounds[0]);
      var a := ExchangeActive(t, u, rounds[0].spurious);
      if a == 0 {
        return Released(0);
      }
      r := ReturnGlobally(t, a, rounds[1..]);
    }
  }
}
