/** The connection pool of loopyConnPool.c: an intrusive idle list, counters kept by hand, a queue
    of waiting acquires, and the two maintenance passes that unlink cells while walking. The clock
    is a parameter that never goes back; user callbacks answer through parameters. */
module ConnPool {
  import opened LinkedList

  datatype ConnData = ConnData(createTime: nat, lastUseTime: nat, inUse: bool)

  type Conn = Cell<ConnData>

  datatype PoolConfig = PoolConfig(minIdle: nat, maxTotal: nat, idleTimeout: nat, maxLifetime: nat)

  /** isConnectionExpired and isConnectionIdleTooLong at clock reading `now`. */
  predicate Expired(cfg: PoolConfig, d: ConnData, now: nat)
  {
    cfg.maxLifetime != 0 && now - d.createTime >= cfg.maxLifetime
  }

  predicate IdleTooLong(cfg: PoolConfig, d: ConnData, now: nat)
  {
    cfg.idleTimeout != 0 && now - d.lastUseTime >= cfg.idleTimeout
  }

  predicate Usable(cfg: PoolConfig, d: ConnData, valid: bool, now: nat)
  {
    valid && !Expired(cfg, d, now)
  }

  /** Clock readings that never go back, the first not before `from`. */
  ghost predicate Clock(from: nat, clock: seq<nat>)
  {
    (forall i :: 0 <= i < |clock| ==> from <= clock[i]) && forall i, j :: 0 <= i < j < |clock| ==> clock[i] <= clock[j]
  }

  /** Idle connections: not in use, last used no later than `latest`, most recently used first. */
  ghost predicate NewestFirst(conns: seq<Conn>, latest: nat)
    reads conns`value
  {
    && (forall i :: 0 <= i < |conns| ==> !conns[i].value.inUse && conns[i].value.lastUseTime <= latest)
    && (forall i, j {:trigger NoOlder(conns[i], conns[j])} :: 0 <= i < j < |conns| ==> NoOlder(conns[i], conns[j]))
  }

  /** `a` was used no earlier than `b`. */
  ghost predicate NoOlder(a: Conn, b: Conn)
    reads a`value, b`value
  {
    a.value.lastUseTime >= b.value.lastUseTime
  }

  /** The first `upTo` connections without those that failed their check. */
  function Kept(conns: seq<Conn>, valid: seq<bool>, upTo: nat): (r: seq<Conn>)
    requires upTo <= |conns| == |valid|
    ensures |r| <= upTo
  {
    if upTo == 0 then [] else Kept(conns, valid, upTo - 1) + (if valid[upTo - 1] then [conns[upTo - 1]] else [])
  }

  /** A walk keeps the order by last use, and keeps members only. */
  lemma {:induction false} KeptInOrder(conns: seq<Conn>, keep: seq<bool>, upTo: nat, latest: nat)
    requires upTo <= |conns| == |keep| && NewestFirst(conns, latest)
    ensures NewestFirst(Kept(conns, keep, upTo), latest)
    ensures forall x :: x in Kept(conns, keep, upTo) ==> x in conns[..upTo]
  {
    if upTo > 0 {
      KeptInOrder(conns, keep, upTo - 1, latest);
      var before: seq<Conn> := Kept(conns, keep, upTo - 1);
      forall i | 0 <= i < |before| ensures NoOlder(before[i], conns[upTo - 1]) {
        assert before[i] in conns[..upTo - 1];
        var j :| 0 <= j < upTo - 1 && conns[j] == before[i];
        assert NoOlder(conns[j], conns[upTo - 1]);
      }
    }
  }

  /** A connection of the first `upTo` distinct ones is kept exactly if it passed its check. */
  lemma {:induction false} KeptExactly(conns: seq<Conn>, valid: seq<bool>, upTo: nat, i: nat)
    requires upTo <= |conns| == |valid| && i < upTo && DistinctCells(conns)
    ensures conns[i] in Kept(conns, valid, upTo) <==> valid[i]
  {
    if i < upTo - 1 {
      assert Differ(conns, i, upTo - 1);
      KeptExactly(conns, valid, upTo - 1, i);
    } else {
      OnlyBefore(conns, valid, i);
      forall j | 0 <= j < i ensures conns[j] != conns[i] { assert Differ(conns, j, i); }
      assert conns[i] !in conns[..i];
    }
  }

  lemma {:induction false} OnlyBefore(conns: seq<Conn>, valid: seq<bool>, upTo: nat)
    requires upTo <= |conns| == |valid|
    ensures forall x :: x in Kept(conns, valid, upTo) ==> x in conns[..upTo]
  {
    if upTo > 0 {
      OnlyBefore(conns, valid, upTo - 1);
    }
  }

  function Min(a: nat, b: nat): (n: nat) { if a < b then a else b }

  /** How many of the first `i` connections a cleanup drops, when `k` is the first idle too long and
      at most `most` may go. */
  function Dropped(k: nat, most: nat, i: nat): (n: nat)
  {
    if i <= k then 0 else Min(i - k, most)
  }

  /** The connections that such a cleanup keeps. */
  ghost predicate Spares(keep: seq<bool>, k: nat, most: nat)
  {
    forall i :: 0 <= i < |keep| ==> (keep[i] <==> !(k <= i < k + most))
  }

  lemma {:induction false} SparedCells(conns: seq<Conn>, keep: seq<bool>, k: nat, most: nat, i: nat)
    requires k <= |conns| && i <= |conns| == |keep| && Spares(keep, k, most)
    ensures Kept(conns, keep, i) ==
              if i <= k then conns[..i] else conns[..k] + conns[k + Dropped(k, most, i)..i]
  {
    if i > 0 {
      SparedCells(conns, keep, k, most, i - 1);
      var d := Dropped(k, most, i - 1);
      if i <= k {
        assert conns[..i] == conns[..i - 1] + [conns[i - 1]];
      } else if keep[i - 1] {
        assert k + d < i && Dropped(k, most, i) == d;
        assert conns[k + d..i] == conns[k + d..i - 1] + [conns[i - 1]];
        assert conns[..k] + conns[k + d..i - 1] + [conns[i - 1]] == conns[..k] + conns[k + d..i];
      } else {
        assert k + d == i - 1 && k + Dropped(k, most, i) == i;
        assert conns[k + d..i - 1] == [] == conns[i..i];
      }
    }
  }

  lemma CleanedUp(conns: seq<Conn>, keep: seq<bool>, k: nat, most: nat)
    requires k <= |conns| == |keep| && Spares(keep, k, most)
    ensures
      var d := Min(|conns| - k, most);
      Kept(conns, keep, |conns|) == conns[..k] + conns[k + d..] && |Kept(conns, keep, |conns|)| == |conns| - d
  {
    var d := Min(|conns| - k, most);
    SparedCells(conns, keep, k, most, |conns|);
    assert conns[k + d..|conns|] == conns[k + d..];
    if k == |conns| {
      assert d == 0 && conns[k..] == [] && conns[..k] + [] == conns[..k];
    }
  }

  /** Position `i` of a walk over what was the idle list `cells`: the ones kept so far are `done`, the
      ones still to visit are `rest`. */
  datatype Walk = Walk(cells: seq<Conn>, keep: seq<bool>, i: nat, done: seq<Conn>, rest: seq<Conn>)

  class Pool {
    const cfg: PoolConfig
    /** idleConns and the connections behind it. */
    const idle: Stack<ConnData>
    var totalConns: nat
    var idleCount: nat
    var activeCount: nat
    var totalCreates: nat
    var totalDestroys: nat
    /** The wait queue, longest-waiting request first. */
    const waits: Queue<nat>
    /** History: the connections handed out, how many of those taken from the idle list Acquire
        threw away, the latest clock reading, and the waiters served. */
    ghost var out: set<Conn>
    ghost var discards: nat
    ghost var latest: nat
    ghost var served: seq<nat>

    ghost predicate IdleInv()
      reads this`idleCount, this`latest, idle, idle.repr
    {
      idle.Valid() && idleCount == |idle.cells| && NewestFirst(idle.cells, latest)
    }

    ghost predicate OutInv()
      reads this`out, this`latest, idle, (set c: Conn | c in out)`value
    {
      forall c: Conn :: c in out ==> c !in idle.repr && c.value.inUse && c.value.lastUseTime <= latest
    }

    /** `held` connections are in the hands of the running operation: neither idle nor out. */
    ghost predicate Counts(held: nat)
      reads this`out, this`totalConns, this`totalCreates, this`totalDestroys, idle
    {
      && totalConns == |idle.cells| + |out| + held <= cfg.maxTotal
      && totalCreates == totalDestroys + totalConns
    }

    ghost predicate Valid()
      reads this, idle, idle.repr, out
    {
      IdleInv() && OutInv() && Counts(0) && activeCount == |out| + discards
    }

    ghost function Waiting(): (ws: seq<nat>)
      reads waits`cells, waits.cells`value
      ensures |ws| == |waits.cells|
    {
      Values(waits.cells)
    }

    /** Nobody waits while a connection is idle or could be created. */
    ghost predicate Conserving()
      reads this`totalConns, idle`cells, waits`cells
    {
      waits.cells == [] || (idle.cells == [] && totalConns == cfg.maxTotal)
    }

    constructor (cfg: PoolConfig)
      ensures Valid() && this.cfg == cfg && idle.cells == [] && out == {} && discards == 0 && latest == 0
      ensures fresh(idle) && idle.repr == {} && fresh(waits) && waits.Valid() && Waiting() == [] && served == []
    {
      this.cfg := cfg;
      totalConns, idleCount, activeCount, totalCreates, totalDestroys := 0, 0, 0, 0, 0;
      idle := new Stack();
      waits := new Queue();
      out, discards, latest, served := {}, 0, 0, [];
    }

    /** A clock reading. */
    method Tick(now: nat)
      requires IdleInv() && OutInv() && latest <= now
      modifies this`latest
      ensures IdleInv() && OutInv() && latest == now
    {
      latest := now;
    }

    /** createConnection: null at capacity or when the user callback fails. */
    method CreateConnection(createOk: bool, now: nat) returns (c: Cell?<ConnData>)
      requires Counts(0)
      modifies this`totalConns, this`totalCreates
      ensures c == null <==> !createOk || old(totalConns) >= cfg.maxTotal
      ensures c == null ==> Counts(0) && totalConns == old(totalConns) && totalCreates == old(totalCreates)
      ensures c != null ==> Counts(1) && fresh(c) && c.value == ConnData(now, now, false) && c.next == null
    {
      if totalConns >= cfg.maxTotal || !createOk {
        return null;
      }
      c := new Cell(ConnData(now, now, false));
      totalConns, totalCreates := totalConns + 1, totalCreates + 1;
    }

    method DestroyConnection(ghost held: nat)
      requires Counts(held + 1)
      modifies this`totalConns, this`totalDestroys
      ensures Counts(held) && totalConns == old(totalConns) - 1 && totalDestroys == old(totalDestroys) + 1
    {
      totalConns, totalDestroys := totalConns - 1, totalDestroys + 1;
    }

    /** addToIdleList: the connection used last goes first. */
    method AddToIdleList(c: Conn)
      requires IdleInv() && c !in idle.repr && !c.value.inUse && c.value.lastUseTime == latest
      modifies this`idleCount, idle`head, idle`cells, idle`repr, c`next
      ensures IdleInv() && idle.cells == [c] + old(idle.cells) && idle.repr == old(idle.repr) + {c}
    {
      idle.Push(c);
      idleCount := idleCount + 1;
    }

    /** removeFromIdleList: it also counts the connection as active. */
    method RemoveFromIdleList() returns (c: Conn)
      requires IdleInv() && idle.cells != []
      modifies this`idleCount, this`activeCount, idle`head, idle`cells, idle`repr, idle.repr`next
      ensures IdleInv() && c == old(idle.cells)[0] && idle.cells == old(idle.cells)[1..]
              && idle.repr == old(idle.repr) - {c}
      ensures c.next == null && c !in idle.repr && activeCount == old(activeCount) + 1
    {
      c := idle.Pop();
      idleCount := idleCount - 1;
      activeCount := activeCount + 1;
    }

    /** One round of the reuse loop of loopyConnPoolAcquire: the first idle connection is taken if it
        is usable and destroyed if it is not. Its activeCount increment is not undone. */
    method TakeFirst(valid: bool, now: nat) returns (c: Cell?<ConnData>, ghost first: Conn)
      requires IdleInv() && OutInv() && Counts(0) && activeCount == |out| + discards && idle.cells != []
      modifies this`idleCount, this`activeCount, this`totalConns, this`totalDestroys, this`discards,
               idle`head, idle`cells, idle`repr, idle.repr`next
      ensures IdleInv() && OutInv() && Counts(if c != null then 1 else 0)
      ensures first == old(idle.cells)[0] && idle.cells == old(idle.cells)[1..] && first !in idle.repr
              && idle.repr <= old(idle.repr)
      ensures c == if Usable(cfg, first.value, valid, now) then first else null
      ensures c != null ==> c.next == null && c !in out
      ensures activeCount == |out| + discards + (if c != null then 1 else 0)
      ensures discards == old(discards) + (if c != null then 0 else 1)
      ensures totalDestroys == old(totalDestroys) + (if c != null then 0 else 1)
    {
      first := idle.cells[0];
      var conn := RemoveFromIdleList();
      if Usable(cfg, conn.value, valid, now) {
        return conn, first;
      }
      DestroyConnection(0);
      discards := discards + 1;
      c := null;
    }

    /** The reuse loop: discard from the front until a usable connection. The k-th idle connection is
        checked against valid[k] and clock[k]. */
    method TakeUsable(valid: seq<bool>, clock: seq<nat>) returns (c: Cell?<ConnData>, ghost k: nat)
      requires Valid() && |valid| == |clock| == |idle.cells|
      modifies this`idleCount, this`activeCount, this`totalConns, this`totalDestroys, this`discards,
               idle`head, idle`cells, idle`repr, idle.repr`next
      ensures IdleInv() && OutInv() && Counts(if c != null then 1 else 0)
      ensures activeCount == |out| + discards + (if c != null then 1 else 0)
      ensures k <= |old(idle.cells)| && (c != null <==> k < |old(idle.cells)|)
      ensures forall i :: 0 <= i < k ==> !Usable(cfg, old(idle.cells)[i].value, valid[i], clock[i])
      ensures c != null ==> c == old(idle.cells)[k] && c.next == null && Usable(cfg, c.value, valid[k], clock[k])
      ensures c != null ==> c !in idle.repr && c !in out
      ensures idle.cells == old(idle.cells)[if c != null then k + 1 else k..]
      ensures discards == old(discards) + k && totalDestroys == old(totalDestroys) + k
    {
      k := 0;
      var i := 0;
      ghost var cells, repr := idle.cells, idle.repr;
      c := null;
      while idle.head != null
        invariant IdleInv() && OutInv() && Counts(0) && activeCount == |out| + discards
        invariant c == null && k == i <= |cells| && idle.cells == cells[i..] && idle.repr <= repr
        invariant discards == old(discards) + i && totalDestroys == old(totalDestroys) + i
        invariant forall j :: 0 <= j < i ==> !Usable(cfg, cells[j].value, valid[j], clock[j])
        decreases |idle.cells|
      {
        ghost var first;
        c, first := TakeFirst(valid[i], clock[i]);
        if c != null {
          return c, k;
        }
        i := i + 1;
        k := i;
      }
    }

    /** A usable idle connection, or else a new one: held by the running acquire. */
    method TakeOrCreate(valid: seq<bool>, clock: seq<nat>, createOk: bool, now: nat)
        returns (c: Cell?<ConnData>, ghost k: nat)
      requires Valid() && latest == now && |valid| == |clock| == |idle.cells|
      modifies this`idleCount, this`activeCount, this`totalConns, this`totalCreates, this`totalDestroys,
               this`discards, idle`head, idle`cells, idle`repr, idle.repr`next
      ensures IdleInv() && OutInv() && Counts(if c != null then 1 else 0)
      ensures activeCount == |out| + discards + (if c != null then 1 else 0)
      ensures c != null ==> c !in idle.repr && c !in out
      ensures k <= |old(idle.cells)| && discards == old(discards) + k && totalDestroys == old(totalDestroys) + k
      ensures forall i :: 0 <= i < k ==> !Usable(cfg, old(idle.cells)[i].value, valid[i], clock[i])
      ensures k < |old(idle.cells)| ==>
                c == old(idle.cells)[k] && idle.cells == old(idle.cells)[k + 1..]
                  && Usable(cfg, c.value, valid[k], clock[k])
      ensures k == |old(idle.cells)| ==>
                idle.cells == [] && (c == null <==> !createOk || old(totalConns) - k >= cfg.maxTotal)
                  && (c != null ==> fresh(c))
    {
      c, k := TakeUsable(valid, clock);
      if c == null {
        c := CreateConnection(createOk, now);
        if c != null {
          activeCount := activeCount + 1;
        }
      }
    }

    /** loopyConnPoolAcquire. Exactly the first `k` idle connections were unusable and are destroyed;
        the next one is handed out, or when there is none a new one if one may be created. */
    method Acquire(valid: seq<bool>, clock: seq<nat>, createOk: bool, now: nat)
        returns (c: Cell?<ConnData>, ghost k: nat)
      requires Valid() && |valid| == |clock| == |idle.cells| && Clock(latest, clock + [now])
      modifies this`idleCount, this`activeCount, this`totalConns, this`totalCreates, this`totalDestroys,
               this`discards, this`latest, this`out, idle`head, idle`cells, idle`repr, idle.repr
      ensures Valid() && k <= |old(idle.cells)| && discards == old(discards) + k
      ensures totalDestroys == old(totalDestroys) + k
      ensures forall i :: 0 <= i < k ==>
                || !valid[i]
                || (cfg.maxLifetime != 0 && clock[i] - old(idle.cells[i].value.createTime) >= cfg.maxLifetime)
      ensures k < |old(idle.cells)| ==>
                && c == old(idle.cells)[k] && idle.cells == old(idle.cells)[k + 1..] && valid[k]
                && (cfg.maxLifetime == 0 || clock[k] - old(idle.cells[k].value.createTime) < cfg.maxLifetime)
      ensures k == |old(idle.cells)| ==>
                idle.cells == [] && (c == null <==> !createOk || old(totalConns) - k >= cfg.maxTotal)
                  && (c != null ==> fresh(c))
      ensures c == null ==> out == old(out)
      ensures c != null ==> c !in old(out) && out == old(out) + {c} && c.value.inUse && c.value.lastUseTime == now
      ensures old(Conserving()) ==> Conserving()
    {
      assert now == (clock + [now])[|clock|];
      Tick(now);
      c, k := TakeOrCreate(valid, clock, createOk, now);
      if c != null {
        HandOut(c, now);
      }
    }

    /** The end of an acquire: the held connection becomes the caller's. */
    method HandOut(c: Conn, now: nat)
      requires IdleInv() && OutInv() && Counts(1) && activeCount == |out| + discards + 1
      requires c !in idle.repr && c !in out && latest == now
      modifies this`out, c`value
      ensures IdleInv() && OutInv() && Counts(0) && activeCount == |out| + discards
      ensures out == old(out) + {c} && c.value == old(c.value).(lastUseTime := now, inUse := true)
    {
      c.value := c.value.(lastUseTime := now, inUse := true);
      out := out + {c};
    }

    /** enqueueWaitRequest. */
    method EnqueueWait(waiter: nat)
      requires Valid() && waits.Valid()
      modifies waits, waits.repr`next
      ensures Valid() && waits.Valid() && Waiting() == old(Waiting()) + [waiter]
    {
      ghost var before := waits.cells;
      var request := new Cell(waiter);
      waits.Enqueue(request);
      ValuesAppend(before, request);
      assert Values(before) == old(Waiting());
    }

    /** dequeueWaitRequest, for the request that gets the released connection. */
    method ServeWait()
      requires Valid() && waits.Valid() && Waiting() != []
      modifies this`served, waits, waits.repr`next
      ensures Valid() && waits.Valid()
      ensures served == old(served) + [old(Waiting())[0]] && Waiting() == old(Waiting())[1..]
    {
      var request := waits.Dequeue();
      served := served + [request.value];
    }

    /** loopyConnPoolAcquireAsync: at once, as by an acquire, when something is idle or may be created, else
        in the queue. */
    method AcquireAsync(waiter: nat, valid: seq<bool>, clock: seq<nat>, createOk: bool, now: nat)
        returns (immediate: bool, c: Cell?<ConnData>, ghost k: nat)
      requires Valid() && waits.Valid() && |valid| == |clock| == |idle.cells| && Clock(latest, clock + [now])
      modifies this`idleCount, this`activeCount, this`totalConns, this`totalCreates, this`totalDestroys,
               this`discards, this`latest, this`out, idle`head, idle`cells, idle`repr, idle.repr, waits, waits.repr`next
      ensures Valid() && waits.Valid()
      ensures immediate <==> old(idle.cells) != [] || old(totalConns) < cfg.maxTotal
      ensures Waiting() == old(Waiting()) + (if immediate then [] else [waiter])
      ensures !immediate ==> c == null && out == old(out) && idle.cells == old(idle.cells)
      ensures immediate ==> k <= |old(idle.cells)| && totalDestroys == old(totalDestroys) + k
      ensures immediate ==> forall i :: 0 <= i < k ==>
                || !valid[i]
                || (cfg.maxLifetime != 0 && clock[i] - old(idle.cells[i].value.createTime) >= cfg.maxLifetime)
      ensures immediate && k < |old(idle.cells)| ==>
                && c == old(idle.cells)[k] && idle.cells == old(idle.cells)[k + 1..] && valid[k]
                && (cfg.maxLifetime == 0 || clock[k] - old(idle.cells[k].value.createTime) < cfg.maxLifetime)
      ensures immediate && k == |old(idle.cells)| ==>
                idle.cells == [] && (c == null <==> !createOk || old(totalConns) - k >= cfg.maxTotal)
                  && (c != null ==> fresh(c))
      ensures immediate ==> out == old(out) + (if c != null then {c} else {})
      ensures c != null ==> c !in old(out) && c.value.inUse && c.value.lastUseTime == now
      ensures old(Conserving()) ==> Conserving()
    {
      c, k := null, 0;
      immediate := idle.head != null || totalConns < cfg.maxTotal;
      if immediate {
        c, k := AcquireNow(valid, clock, createOk, now);
      } else {
        EnqueueWait(waiter);
      }
    }

    /** An acquire that does not wait, whatever others wait for. */
    method AcquireNow(valid: seq<bool>, clock: seq<nat>, createOk: bool, now: nat)
        returns (c: Cell?<ConnData>, ghost k: nat)
      requires Valid() && waits.Valid() && |valid| == |clock| == |idle.cells| && Clock(latest, clock + [now])
      modifies this`idleCount, this`activeCount, this`totalConns, this`totalCreates, this`totalDestroys,
               this`discards, this`latest, this`out, idle`head, idle`cells, idle`repr, idle.repr
      ensures Valid() && waits.Valid() && Waiting() == old(Waiting())
      ensures k <= |old(idle.cells)| && totalDestroys == old(totalDestroys) + k
      ensures forall i :: 0 <= i < k ==>
                || !valid[i]
                || (cfg.maxLifetime != 0 && clock[i] - old(idle.cells[i].value.createTime) >= cfg.maxLifetime)
      ensures k < |old(idle.cells)| ==>
                && c == old(idle.cells)[k] && idle.cells == old(idle.cells)[k + 1..] && valid[k]
                && (cfg.maxLifetime == 0 || clock[k] - old(idle.cells[k].value.createTime) < cfg.maxLifetime)
      ensures k == |old(idle.cells)| ==>
                idle.cells == [] && (c == null <==> !createOk || old(totalConns) - k >= cfg.maxTotal)
                  && (c != null ==> fresh(c))
      ensures out == old(out) + (if c != null then {c} else {})
      ensures c != null ==> c !in old(out) && c.value.inUse && c.value.lastUseTime == now
      ensures old(Conserving()) ==> Conserving()
    {
      c, k := Acquire(valid, clock, createOk, now);
    }

    /** The caller gives a connection back: it is in the hands of the running release. */
    method Detach(c: Conn)
      requires Valid() && c in out
      modifies this`activeCount, this`out
      ensures IdleInv() && OutInv() && Counts(1) && activeCount == |out| + discards
      ensures out == old(out) - {c} && c !in idle.repr
    {
      activeCount := activeCount - 1;
      out := out - {c};
    }

    /** The branch of a release that destroys: no waiter is served, the minimum is topped up. */
    method ReleaseBad(c: Conn, createOk: bool, now: nat)
      requires Valid() && c in out && latest <= now
      modifies this`activeCount, this`totalConns, this`totalCreates, this`totalDestroys, this`idleCount,
               this`latest, this`out, idle`head, idle`cells, idle`repr
      ensures Valid() && latest == now && out == old(out) - {c} && totalDestroys == old(totalDestroys) + 1
      ensures old(totalConns) - 1 < cfg.minIdle && createOk ==>
                |idle.cells| == |old(idle.cells)| + 1 && fresh(idle.cells[0]) && idle.cells[1..] == old(idle.cells)
      ensures !(old(totalConns) - 1 < cfg.minIdle && createOk) ==> idle.cells == old(idle.cells)
      ensures old(Conserving()) ==> (Conserving() <==> waits.cells == [])
    {
      Detach(c);
      DestroyConnection(0);
      Tick(now);
      if totalConns < cfg.minIdle {
        var _ := TopUp(createOk, now);
      }
    }

    /** One new connection for the idle list, if one can be made. */
    method TopUp(createOk: bool, now: nat) returns (created: bool)
      requires Valid() && latest == now
      modifies this`totalConns, this`totalCreates, this`idleCount, idle`head, idle`cells, idle`repr
      ensures Valid() && (created <==> createOk && old(totalConns) < cfg.maxTotal)
      ensures created ==> totalConns == old(totalConns) + 1 && |idle.cells| == |old(idle.cells)| + 1
      ensures created ==> fresh(idle.cells[0]) && idle.cells[1..] == old(idle.cells)
      ensures !created ==> totalConns == old(totalConns) && idle.cells == old(idle.cells)
      ensures fresh(idle.repr - old(idle.repr))
    {
      var c := CreateConnection(createOk, now);
      created := c != null;
      if created {
        AddToIdleList(c);
      }
    }

    /** The branch that puts the connection back at the front of the idle list. */
    method ReleaseToIdle(c: Conn, now: nat)
      requires Valid() && c in out && latest <= now
      modifies this`activeCount, this`idleCount, this`latest, this`out, idle`head, idle`cells, idle`repr, c
      ensures Valid() && latest == now && out == old(out) - {c} && idle.cells == [c] + old(idle.cells)
      ensures c.value == old(c.value).(lastUseTime := now, inUse := false)
    {
      Tick(now);
      Detach(c);
      Shelve(c, now);
    }

    /** The connection held by the running release is no longer in use. */
    method Shelve(c: Conn, now: nat)
      requires latest == now && IdleInv() && OutInv() && Counts(1) && activeCount == |out| + discards
               && c !in idle.repr && c !in out
      modifies this`idleCount, idle`head, idle`cells, idle`repr, c
      ensures Valid() && idle.cells == [c] + old(idle.cells)
      ensures c.value == old(c.value).(lastUseTime := now, inUse := false)
    {
      Rest(c, now);
      AddToIdleList(c);
    }

    method Rest(c: Conn, now: nat)
      requires latest == now && IdleInv() && OutInv() && c !in idle.repr && c !in out
      modifies c`value
      ensures IdleInv() && OutInv() && c.value == old(c.value).(lastUseTime := now, inUse := false)
    {
      c.value := c.value.(lastUseTime := now, inUse := false);
    }

    /** The branch that hands the connection straight on: it stays in use. */
    method HandOn(c: Conn, now: nat)
      requires Valid() && c in out && latest <= now
      modifies this`latest, c`value
      ensures Valid() && latest == now && c.value == old(c.value).(lastUseTime := now)
    {
      Tick(now);
      c.value := c.value.(lastUseTime := now);
    }

    /** Something created then has outlived its lifetime at this clock reading. */
    ghost predicate TooOld(created: nat, reading: nat)
    {
      cfg.maxLifetime != 0 && reading - created >= cfg.maxLifetime
    }

    /** loopyConnPoolRelease. A healthy connection goes to the longest-waiting request, or else to the
        front of the idle list; an unhealthy or expired one is destroyed and serves nobody. So after a
        release somebody may wait beside room for a connection exactly if it destroyed one while somebody
        waited. */
    method Release(c: Conn, healthy: bool, checked: nat, createOk: bool, now: nat)
      requires Valid() && waits.Valid() && c in out && Clock(latest, [checked, now])
      modifies this`activeCount, this`totalConns, this`totalCreates, this`totalDestroys, this`idleCount,
               this`latest, this`out, this`served, idle`head, idle`cells, idle`repr, c, waits, waits.repr`next
      ensures Valid() && waits.Valid()
      ensures !healthy || TooOld(old(c.value.createTime), checked) ==>
                && out == old(out) - {c} && served == old(served) && Waiting() == old(Waiting())
                && totalDestroys == old(totalDestroys) + 1
      ensures !healthy || TooOld(old(c.value.createTime), checked) ==>
                if old(totalConns) - 1 < cfg.minIdle && createOk
                then |idle.cells| == |old(idle.cells)| + 1 && fresh(idle.cells[0]) && idle.cells[1..] == old(idle.cells)
                else idle.cells == old(idle.cells)
      ensures healthy && !TooOld(old(c.value.createTime), checked) && old(Waiting()) != [] ==>
                out == old(out) && idle.cells == old(idle.cells)
                && served == old(served) + [old(Waiting())[0]] && Waiting() == old(Waiting())[1..]
                && c.value == old(c.value).(lastUseTime := now) && totalDestroys == old(totalDestroys)
      ensures healthy && !TooOld(old(c.value.createTime), checked) && old(Waiting()) == [] ==>
                && out == old(out) - {c} && idle.cells == [c] + old(idle.cells) && served == old(served)
                && c.value == old(c.value).(lastUseTime := now, inUse := false)
                && totalDestroys == old(totalDestroys)
      ensures old(Conserving()) ==>
                (Conserving() <==> (healthy && !TooOld(old(c.value.createTime), checked)) || old(Waiting()) == [])
      ensures TooOld(old(c.value.createTime), checked) <==>
                cfg.maxLifetime != 0 && checked - old(c.value.createTime) >= cfg.maxLifetime
    {
      assert [checked, now][0] == checked && [checked, now][1] == now;
      if !healthy || Expired(cfg, c.value, checked) {
        ReleaseBad(c, createOk, now);
        assert waits.Valid() && Waiting() == old(Waiting());
      } else {
        Reuse(c, now);
      }
    }

    /** A healthy connection goes on. */
    method Reuse(c: Conn, now: nat)
      requires Valid() && waits.Valid() && c in out && latest <= now
      modifies this`activeCount, this`idleCount, this`latest, this`out, this`served,
               idle`head, idle`cells, idle`repr, c, waits, waits.repr`next
      ensures Valid() && waits.Valid()
      ensures old(Waiting()) != [] ==>
                out == old(out) && idle.cells == old(idle.cells)
                && served == old(served) + [old(Waiting())[0]] && Waiting() == old(Waiting())[1..]
                && c.value == old(c.value).(lastUseTime := now)
      ensures old(Waiting()) == [] ==>
                out == old(out) - {c} && idle.cells == [c] + old(idle.cells) && served == old(served) && Waiting() == []
                && c.value == old(c.value).(lastUseTime := now, inUse := false)
      ensures old(Conserving()) ==> Conserving()
    {
      if waits.head != null {
        ServeWait();
        HandOn(c, now);
      } else {
        ReleaseToIdle(c, now);
      }
    }

    /** The part of the invariant that a walk over the idle list keeps at every cell. */
    ghost predicate WalkInv()
      reads this`idleCount, this`out, this`totalConns, this`totalCreates, this`totalDestroys, idle, idle.repr`next
    {
      idle.Valid() && idleCount == |idle.cells| && Counts(0)
    }

    /** loopyConnPoolPrewarm, a count of zero meaning the minimum: connections are created until the
        count is reached, the pool is full or a creation fails, and all of them become idle. */
    method Prewarm(count: nat, createOk: seq<bool>, clock: seq<nat>) returns (created: nat)
      requires Valid() && |createOk| == |clock| == (if count == 0 then cfg.minIdle else count) && Clock(latest, clock)
      modifies this`totalConns, this`totalCreates, this`idleCount, this`latest, idle`head, idle`cells, idle`repr
      ensures Valid() && created <= |createOk| && totalConns == old(totalConns) + created
      ensures |idle.cells| == |old(idle.cells)| + created && idle.cells[created..] == old(idle.cells)
      ensures created == |createOk| || totalConns == cfg.maxTotal || !createOk[created]
      ensures forall j :: 0 <= j < created ==> createOk[j]
      ensures fresh(idle.repr - old(idle.repr)) && (latest == old(latest) || latest in clock)
      ensures old(Conserving()) ==> Conserving()
    {
      created := 0;
      var i := 0;
      while i < |createOk| && totalConns < cfg.maxTotal
        invariant Valid() && created == i <= |createOk| && totalConns == old(totalConns) + created
        invariant |idle.cells| == |old(idle.cells)| + created && idle.cells[created..] == old(idle.cells)
        invariant fresh(idle.repr - old(idle.repr)) && (latest == old(latest) || latest in clock)
        invariant (forall j :: 0 <= j < i ==> createOk[j]) && forall j :: i <= j < |clock| ==> latest <= clock[j]
      {
        var ok := Grow(createOk[i], clock[i]);
        if !ok {
          break;
        }
        assert idle.cells[created + 1..] == idle.cells[1..][created..];
        created := created + 1;
        i := i + 1;
      }
    }

    /** One round of the prewarming loop. */
    method Grow(createOk: bool, now: nat) returns (created: bool)
      requires Valid() && latest <= now
      modifies this`totalConns, this`totalCreates, this`idleCount, this`latest, idle`head, idle`cells, idle`repr
      ensures Valid() && latest == now && (created <==> createOk && old(totalConns) < cfg.maxTotal)
      ensures totalConns == old(totalConns) + (if created then 1 else 0)
      ensures |idle.cells| == |old(idle.cells)| + (if created then 1 else 0)
      ensures idle.cells[if created then 1 else 0..] == old(idle.cells) && fresh(idle.repr - old(idle.repr))
    {
      Tick(now);
      created := TopUp(createOk, now);
    }

    /** The books of every valid pool: the counters agree with the connections there are, and idle
        plus active is the total exactly when no Acquire has thrown an idle connection away. */
    lemma Accounting()
      requires Valid()
      ensures totalCreates - totalDestroys == totalConns == idleCount + |out| && totalConns <= cfg.maxTotal
      ensures activeCount == |out| + discards
      ensures idleCount + activeCount == totalConns <==> discards == 0
    {
    }

    /** Bypass the idle connection at position `k` and destroy it. */
    method DropAt(prev: Cell?<ConnData>, next: Cell?<ConnData>, ghost k: nat)
      requires WalkInv() && k < |idle.cells| && next == idle.cells[k].next
      requires prev == if k == 0 then null else idle.cells[k - 1]
      modifies this`idleCount, this`totalConns, this`totalDestroys, idle`head, idle`cells, idle.repr`next
      ensures WalkInv() && idle.cells == old(idle.cells)[..k] + old(idle.cells)[k + 1..]
      ensures totalConns == old(totalConns) - 1 && totalDestroys == old(totalDestroys) + 1
    {
      idle.Unlink(prev, next, k);
      idleCount := idleCount - 1;
      DestroyConnection(0);
    }

    /** The walk of both maintenance passes stands between `done` and `rest`. */
    ghost predicate Walking(prev: Cell?<ConnData>, curr: Cell?<ConnData>, done: seq<Conn>, rest: seq<Conn>)
      reads idle
    {
      && idle.cells == done + rest
      && prev == (if done == [] then null else done[|done| - 1])
      && curr == At(rest, 0)
    }

    /** The cell after the current one. */
    method Following(prev: Cell?<ConnData>, curr: Conn, ghost done: seq<Conn>, ghost rest: seq<Conn>)
        returns (next: Cell?<ConnData>)
      requires WalkInv() && Walking(prev, curr, done, rest)
      ensures next == curr.next == At(rest, 1) && rest != [] && idle.cells[|done|] == curr
    {
      assert idle.cells[|done|] == curr && (|rest| > 1 ==> idle.cells[|done| + 1] == rest[1]);
      next := curr.next;
    }

    /** One round: the current connection is bypassed and destroyed, or becomes the previous one. */
    method WalkStep(prev: Cell?<ConnData>, curr: Conn, drop: bool, ghost done: seq<Conn>, ghost rest: seq<Conn>)
        returns (prev': Cell?<ConnData>, next: Cell?<ConnData>)
      requires WalkInv() && Walking(prev, curr, done, rest)
      modifies this`idleCount, this`totalConns, this`totalDestroys, idle`head, idle`cells, idle.repr`next
      ensures WalkInv() && rest != [] && Walking(prev', next, if drop then done else done + [curr], rest[1..])
      ensures totalConns == old(totalConns) - (if drop then 1 else 0)
      ensures totalDestroys == old(totalDestroys) + (if drop then 1 else 0)
    {
      next := Following(prev, curr, done, rest);
      if drop {
        DropAt(prev, next, |done|);
        prev' := prev;
      } else {
        prev' := curr;
      }
    }

    /** loopyConnPoolHealthCheck: exactly the connections that fail validation go, the order stays. */
    method HealthCheck(valid: seq<bool>) returns (destroyed: nat)
      requires Valid() && |valid| == |idle.cells|
      modifies this`idleCount, this`totalConns, this`totalDestroys, idle`head, idle`cells, idle.repr`next
      ensures Valid() && idle.cells == Kept(old(idle.cells), valid, |valid|)
      ensures forall i :: 0 <= i < |valid| ==> (old(idle.cells)[i] in idle.cells <==> valid[i])
      ensures destroyed == |old(idle.cells)| - |idle.cells| && totalDestroys == old(totalDestroys) + destroyed
      ensures old(Conserving()) ==> Conserving()
    {
      ghost var cells: seq<Conn> := idle.cells;
      assert DistinctCells(cells);
      destroyed := HealthWalk(valid);
      forall i | 0 <= i < |valid| ensures cells[i] in idle.cells <==> valid[i] {
        KeptExactly(cells, valid, |valid|, i);
      }
      KeptInOrder(cells, valid, |valid|, latest);
    }

    /** The walk has come to `w`: the list is now `done` and then `rest`, and `prev` is the last cell kept. */
    ghost predicate Standing(prev: Cell?<ConnData>, curr: Cell?<ConnData>, w: Walk)
      reads this`idleCount, this`out, this`totalConns, this`totalCreates, this`totalDestroys, idle, idle.repr`next
    {
      match w
      case Walk(cells, keep, i, done, rest) =>
        && WalkInv() && Walking(prev, curr, done, rest)
        && i <= |cells| == |keep| && done == Kept(cells, keep, i) && rest == cells[i..]
    }

    lemma StandingStart(cells: seq<Conn>, keep: seq<bool>)
      requires WalkInv() && cells == idle.cells && |cells| == |keep|
      ensures Standing(null, idle.head, Walk(cells, keep, 0, [], cells))
    {
    }

    lemma StandingAt(prev: Cell?<ConnData>, curr: Cell?<ConnData>, w: Walk)
      requires Standing(prev, curr, w)
      ensures curr != null ==> w.i < |w.cells| == |w.keep| && curr == w.cells[w.i] && w.rest != []
      ensures curr == null ==> w.i == |w.cells| && WalkInv() && idle.cells == Kept(w.cells, w.keep, |w.cells|)
    {
      if curr == null {
        assert w.done + w.rest == w.done;
      }
    }

    /** One round of a walk. */
    method KeepRound(prev: Cell?<ConnData>, curr: Conn, drop: bool, ghost w: Walk)
        returns (prev': Cell?<ConnData>, next: Cell?<ConnData>, ghost w': Walk)
      requires Standing(prev, curr, w) && w.i < |w.keep| && (drop <==> !w.keep[w.i])
      modifies this`idleCount, this`totalConns, this`totalDestroys, idle`head, idle`cells, idle.repr`next
      ensures Standing(prev', next, w')
      ensures w'.cells == w.cells && w'.keep == w.keep && w'.i == w.i + 1 && |w'.rest| < |w.rest|
      ensures totalConns == old(totalConns) - (if drop then 1 else 0)
      ensures totalDestroys == old(totalDestroys) + (if drop then 1 else 0)
    {
      assert curr == w.cells[w.i] && w.rest[1..] == w.cells[w.i + 1..];
      w' := w.(i := w.i + 1, done := if drop then w.done else w.done + [curr], rest := w.rest[1..]);
      prev', next := WalkStep(prev, curr, drop, w.done, w.rest);
    }

    /** The loop of the health check. */
    method HealthWalk(valid: seq<bool>) returns (destroyed: nat)
      requires WalkInv() && |valid| == |idle.cells|
      modifies this`idleCount, this`totalConns, this`totalDestroys, idle`head, idle`cells, idle.repr`next
      ensures WalkInv() && idle.cells == Kept(old(idle.cells), valid, |valid|)
      ensures totalConns == old(totalConns) - destroyed && totalDestroys == old(totalDestroys) + destroyed
    {
      destroyed := 0;
      ghost var w: Walk := Walk(idle.cells, valid, 0, [], idle.cells);
      var prev: Cell?<ConnData>, curr, i := null, idle.head, 0;
      StandingStart(idle.cells, valid);
      while curr != null
        invariant Standing(prev, curr, w) && w.cells == old(idle.cells) && w.keep == valid && w.i == i
        invariant totalConns == old(totalConns) - destroyed && totalDestroys == old(totalDestroys) + destroyed
        decreases |w.rest|
      {
        StandingAt(prev, curr, w);
        prev, curr, w := KeepRound(prev, curr, !valid[i], w);
        destroyed := if valid[i] then destroyed else destroyed + 1;
        i := i + 1;
      }
      StandingAt(prev, curr, w);
    }

    /** How many connections a cleanup may close. */
    ghost function Excess(total: nat): (n: nat)
    {
      if total > cfg.minIdle then total - cfg.minIdle else 0
    }

    /** Checked at clock[i], the connections idle too long are those from position `k` on. */
    ghost predicate LateFrom(conns: seq<Conn>, clock: seq<nat>, k: nat)
      reads conns`value
    {
      && k <= |conns| == |clock|
      && forall i {:trigger conns[i]} :: 0 <= i < |conns| ==>
           (cfg.idleTimeout != 0 && clock[i] - conns[i].value.lastUseTime >= cfg.idleTimeout <==> k <= i)
    }

    /** loopyConnPoolCleanupIdle, the i-th connection checked at clock[i]. Because the idle list is
        newest first and the clock does not go back, the connections idle too long are a suffix, from
        `k`; exactly its first min(its length, totalConns above minIdle) members are destroyed. */
    method CleanupIdle(clock: seq<nat>) returns (closed: nat, ghost k: nat)
      requires Valid() && |clock| == |idle.cells| && Clock(latest, clock)
      modifies this`idleCount, this`totalConns, this`totalDestroys, idle`head, idle`cells, idle.repr`next
      ensures Valid() && old(LateFrom(idle.cells, clock, k))
      ensures closed == Min(|old(idle.cells)| - k, Excess(old(totalConns)))
      ensures closed <= |old(idle.cells)| - k && (closed > 0 ==> totalConns >= cfg.minIdle)
      ensures closed < |old(idle.cells)| - k ==> totalConns <= cfg.minIdle
      ensures idle.cells == old(idle.cells)[..k] + old(idle.cells)[k + closed..]
      ensures totalConns == old(totalConns) - closed && totalDestroys == old(totalDestroys) + closed
      ensures old(totalConns) >= cfg.minIdle ==> totalConns >= cfg.minIdle
      ensures old(Conserving()) ==> Conserving()
    {
      k := FirstTooLong(clock);
      closed := CleanupFrom(clock, k);
    }

    /** The cleanup of a list whose connections idle too long are those from `k` on. */
    method CleanupFrom(clock: seq<nat>, ghost k: nat) returns (closed: nat)
      requires Valid() && LateFrom(idle.cells, clock, k)
      modifies this`idleCount, this`totalConns, this`totalDestroys, idle`head, idle`cells, idle.repr`next
      ensures Valid() && closed == Min(|old(idle.cells)| - k, Excess(old(totalConns)))
      ensures idle.cells == old(idle.cells)[..k] + old(idle.cells)[k + closed..]
      ensures totalConns == old(totalConns) - closed && totalDestroys == old(totalDestroys) + closed
    {
      ghost var cells: seq<Conn>, most := idle.cells, Excess(totalConns);
      ghost var keep := seq(|cells|, i => !(k <= i < k + most));
      CleanedUp(cells, keep, k, most);
      closed := CleanupWalk(clock, k, keep);
      KeptInOrder(cells, keep, |cells|, latest);
    }

    /** A cleanup at `w` that is to keep what is before `k` or more than the excess after it. */
    ghost predicate Cleaning(prev: Cell?<ConnData>, curr: Cell?<ConnData>, w: Walk, clock: seq<nat>, k: nat)
      reads this`idleCount, this`out, this`totalConns, this`totalCreates, this`totalDestroys, idle, idle.repr`next,
            w.cells`value
    {
      match w
      case Walk(cells, keep, i, done, rest) =>
        Standing(prev, curr, w) && LateFrom(cells, clock, k) && Spares(keep, k, Excess(|cells| + |out|))
    }

    /** The test of the cleanup loop spares exactly the connections to keep: they are not idle too long,
        or by now the pool is down to its minimum. */
    lemma TestSpares(prev: Cell?<ConnData>, curr: Conn, w: Walk, clock: seq<nat>, k: nat)
      requires Cleaning(prev, curr, w, clock, k)
      ensures w.i < |clock| == |w.keep|
      ensures IdleTooLong(cfg, curr.value, clock[w.i]) && totalConns > cfg.minIdle <==> !w.keep[w.i]
    {
      StandingAt(prev, curr, w);
      SparedCells(w.cells, w.keep, k, Excess(|w.cells| + |out|), w.i);
    }

    /** One round of the cleanup loop. */
    method CleanupRound(prev: Cell?<ConnData>, curr: Conn, reading: nat, ghost w: Walk, ghost clock: seq<nat>,
                        ghost k: nat)
        returns (prev': Cell?<ConnData>, next: Cell?<ConnData>, drop: bool, ghost w': Walk)
      requires Cleaning(prev, curr, w, clock, k) && w.i < |clock| && reading == clock[w.i]
      modifies this`idleCount, this`totalConns, this`totalDestroys, idle`head, idle`cells, idle.repr`next
      ensures Cleaning(prev', next, w', clock, k)
      ensures w'.cells == w.cells && w'.keep == w.keep && w'.i == w.i + 1 && |w'.rest| < |w.rest|
      ensures totalConns == old(totalConns) - (if drop then 1 else 0)
      ensures totalDestroys == old(totalDestroys) + (if drop then 1 else 0)
    {
      drop := IdleTooLong(cfg, curr.value, reading) && totalConns > cfg.minIdle;
      TestSpares(prev, curr, w, clock, k);
      prev', next, w' := KeepRound(prev, curr, drop, w);
    }

    /** The loop of the cleanup. */
    method CleanupWalk(clock: seq<nat>, ghost k: nat, ghost keep: seq<bool>) returns (closed: nat)
      requires WalkInv() && LateFrom(idle.cells, clock, k) && |keep| == |idle.cells|
               && Spares(keep, k, Excess(totalConns))
      modifies this`idleCount, this`totalConns, this`totalDestroys, idle`head, idle`cells, idle.repr`next
      ensures WalkInv() && idle.cells == Kept(old(idle.cells), keep, |keep|)
      ensures totalConns == old(totalConns) - closed && totalDestroys == old(totalDestroys) + closed
    {
      closed := 0;
      ghost var w: Walk := Walk(idle.cells, keep, 0, [], idle.cells);
      var prev: Cell?<ConnData>, curr, i := null, idle.head, 0;
      StandingStart(idle.cells, keep);
      while curr != null
        invariant Cleaning(prev, curr, w, clock, k) && w.cells == old(idle.cells) && w.keep == keep && w.i == i
        invariant totalConns == old(totalConns) - closed && totalDestroys == old(totalDestroys) + closed
        decreases |w.rest|
      {
        StandingAt(prev, curr, w);
        var drop;
        prev, curr, drop, w := CleanupRound(prev, curr, clock[i], w, clock, k);
        closed := if drop then closed + 1 else closed;
        i := i + 1;
      }
      StandingAt(prev, curr, w);
    }

    /** The connections idle too long are a suffix of the idle list. */
    lemma FirstTooLong(clock: seq<nat>) returns (k: nat)
      requires Valid() && |clock| == |idle.cells| && Clock(latest, clock)
      ensures LateFrom(idle.cells, clock, k)
    {
      k := 0;
      while k < |idle.cells| && !IdleTooLong(cfg, idle.cells[k].value, clock[k])
        invariant k <= |idle.cells|
        invariant forall i :: 0 <= i < k ==> !IdleTooLong(cfg, idle.cells[i].value, clock[i])
      {
        k := k + 1;
      }
      forall i | k < i < |idle.cells| ensures IdleTooLong(cfg, idle.cells[i].value, clock[i]) {
        assert NoOlder(idle.cells[k], idle.cells[i]) && clock[k] <= clock[i];
      }
    }
  }

  /** An acquire that throws an idle connection away leaves it counted as active: a pool whose counters no
      longer add up. */
  method DiscardStaysCounted() returns (pool: Pool)
    ensures fresh(pool) && pool.Valid() && pool.discards == 1
    ensures pool.totalConns == 1 && pool.idleCount + pool.activeCount == 2
  {
    pool := new Pool(PoolConfig(0, 1, 0, 0));
    var created := pool.Prewarm(1, [true], [0]);
    var c, k := pool.Acquire([false], [0], true, 0);
  }
}
