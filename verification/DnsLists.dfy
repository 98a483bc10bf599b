/** The locked sections of loopyDNS.c in place: the pending and completed lists with their tail
    pointers, the pending count and the next query id. Each does to the lists what the step of
    DnsQueue of the same name does. */
module DnsLists {
  import opened LinkedList
  import Dns = DnsQueue

  /** Marking one cell's query is marking the first query with the id. */
  lemma {:induction false} MarkAt(qs: seq<Dns.Query>, k: nat, id: nat)
    requires k < |qs| && qs[k].id == id && forall i :: 0 <= i < k ==> qs[i].id != id
    ensures Dns.Mark(qs, id) == qs[k := qs[k].(cancelled := true)]
  {
    if k > 0 {
      MarkAt(qs[1..], k - 1, id);
      assert qs == [qs[0]] + qs[1..];
    }
  }

  class Lists {
    const limit: nat
    const pending: Queue<Dns.Query>
    const completed: Queue<Dns.Completed>
    var pendingCount: nat
    var nextId: nat

    ghost predicate Valid()
      reads this, pending, completed, pending.repr`next, completed.repr`next
    {
      pending.Valid() && completed.Valid() && pendingCount == |pending.cells| && nextId >= 1
    }

    ghost function Pending(): (qs: seq<Dns.Query>)
      reads pending`cells, pending.cells`value
      ensures |qs| == |pending.cells|
    {
      Values(pending.cells)
    }

    ghost function CompletedOnes(): (cs: seq<Dns.Completed>)
      reads completed`cells, completed.cells`value
      ensures |cs| == |completed.cells|
    {
      Values(completed.cells)
    }

    constructor (limit: nat)
      ensures Valid() && this.limit == limit && Pending() == [] && CompletedOnes() == [] && nextId == 1
    {
      this.limit := limit;
      pending := new Queue();
      completed := new Queue();
      pendingCount, nextId := 0, 1;
    }

    /** loopyDNSResolve: refused with id 0 exactly when the pending list is full. */
    method Resolve() returns (id: nat)
      requires Valid()
      modifies this, pending, pending.repr`next
      ensures Valid() && (id == 0 <==> |old(Pending())| >= limit)
      ensures id == 0 ==> Pending() == old(Pending()) && nextId == old(nextId)
      ensures id != 0 ==> id == old(nextId) && nextId == id + 1 && Pending() == old(Pending()) + [Dns.Query(id, false)]
    {
      if pendingCount >= limit {
        return 0;
      }
      var query := new Cell(Dns.Query(nextId, false));
      id := nextId;
      nextId := nextId + 1;
      Append(query);
    }

    method Append(query: Cell<Dns.Query>)
      requires Valid() && query !in pending.repr
      modifies this`pendingCount, pending, pending.repr`next, query`next
      ensures Valid() && Pending() == old(Pending()) + [query.value]
    {
      ValuesAppend(pending.cells, query);
      pending.Enqueue(query);
      pendingCount := pendingCount + 1;
    }

    /** loopyDNSCancel: true exactly if the query is still pending, and then it is marked. */
    method Cancel(id: nat) returns (found: bool)
      requires Valid()
      modifies pending.repr`value
      ensures Valid() && (found <==> id != 0 && Dns.IsPending(old(Pending()), id))
      ensures Pending() == if found then Dns.Mark(old(Pending()), id) else old(Pending())
    {
      if id == 0 {
        return false;
      }
      ghost var qs, k := Pending(), 0;
      var q := pending.head;
      while q != null
        invariant Valid() && k <= |pending.cells| && q == At(pending.cells, k) && Pending() == qs
        invariant forall i :: 0 <= i < k ==> qs[i].id != id
        decreases |pending.cells| - k
      {
        if q.value.id == id {
          OnlyAt(pending.cells, k);
          MarkAt(qs, k, id);
          q.value := q.value.(cancelled := true);
          assert Pending() == qs[k := qs[k].(cancelled := true)];
          return true;
        }
        q := q.next;
        k := k + 1;
      }
      found := false;
    }

    /** loopyDNSCancelAll. */
    method CancelAll()
      requires Valid()
      modifies pending.repr`value
      ensures Valid() && Pending() == Dns.MarkAll(old(Pending()))
    {
      ghost var qs, k := Pending(), 0;
      var q := pending.head;
      while q != null
        invariant Valid() && k <= |pending.cells| && q == At(pending.cells, k)
        invariant forall i :: 0 <= i < |qs| ==>
                    pending.cells[i].value == if i < k then qs[i].(cancelled := true) else qs[i]
        decreases |pending.cells| - k
      {
        OnlyAt(pending.cells, k);
        q.value := q.value.(cancelled := true);
        q := q.next;
        k := k + 1;
      }
    }

    /** dnsDequeueQuery. */
    method Dequeue() returns (query: Cell?<Dns.Query>)
      requires Valid()
      modifies this`pendingCount, pending, pending.repr`next
      ensures Valid() && (query == null <==> old(Pending()) == [])
      ensures query == null ==> Pending() == []
      ensures query != null ==>
                query.value == old(Pending())[0] && query.next == null && Pending() == old(Pending())[1..]
    {
      if pending.head == null {
        return null;
      }
      query := pending.Dequeue();
      pendingCount := pendingCount - 1;
    }

    /** dnsEnqueueCompleted. */
    method EnqueueCompleted(result: Cell<Dns.Completed>)
      requires Valid() && result !in completed.repr
      modifies completed, completed.repr`next, result`next
      ensures Valid() && CompletedOnes() == old(CompletedOnes()) + [result.value]
    {
      ValuesAppend(completed.cells, result);
      completed.Enqueue(result);
    }

    /** The locked section of dnsProcessCompleted. */
    method PopCompleted() returns (result: Cell?<Dns.Completed>)
      requires Valid()
      modifies completed, completed.repr`next
      ensures Valid() && (result == null <==> old(CompletedOnes()) == [])
      ensures result == null ==> CompletedOnes() == []
      ensures result != null ==> result.value == old(CompletedOnes())[0] && CompletedOnes() == old(CompletedOnes())[1..]
    {
      if completed.head == null {
        return null;
      }
      result := completed.Dequeue();
    }
  }
}
