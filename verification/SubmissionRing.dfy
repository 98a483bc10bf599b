/** The io_uring submission queue of loopyAdapterIouring.c: 32-bit head and tail that wrap, the
    kernel consuming at any moment, and the submission of a chain of linked operations. */
module SubmissionRing {
  import opened Words
  import opened OpTable
  import opened OpTableCode

  datatype Sqe = Sqe(opcode: nat, userData: nat, flags: nat)

  const Zeroed: Sqe := Sqe(0, 0, 0)

  /** One operation of a chain; a callback of 0 is a null pointer. */
  datatype LinkOp = LinkOp(opcode: nat, cb: nat, userData: nat)

  function LinkRequest(op: LinkOp): (r: Request)
  {
    Request(op.cb, false, 0, op.userData, false)
  }

  /** The entries a chain consists of: consecutive ids, the link flag on all but the last. */
  function ChainEntries(chain: seq<LinkOp>, firstId: nat, linkFlag: nat, upTo: nat): (es: seq<Sqe>)
    requires upTo <= |chain|
    ensures |es| == upTo
    ensures forall i :: 0 <= i < upTo ==>
              es[i] == Sqe(chain[i].opcode, TagBit + firstId + i, if i < |chain| - 1 then linkFlag else 0)
  {
    seq(upTo, i requires 0 <= i < upTo =>
      Sqe(chain[i].opcode, TagBit + firstId + i, if i < |chain| - 1 then linkFlag else 0))
  }

  /** The operations that a chain issues: each with the callback and user data given for it, and the word
      that is in its entry. */
  function ChainRecords(chain: seq<LinkOp>, firstId: nat, upTo: nat): (rs: seq<Record>)
    requires upTo <= |chain|
    ensures |rs| == upTo
    ensures forall i :: 0 <= i < upTo ==> rs[i] == LinkRecord(chain[i], TagBit + firstId + i)
  {
    seq(upTo, i requires 0 <= i < upTo => LinkRecord(chain[i], TagBit + firstId + i))
  }

  function LinkRecord(op: LinkOp, tagged: nat): (r: Record)
    ensures r.req.cb == op.cb && r.req.userData == op.userData && !r.req.pooled && !r.req.multishot
    ensures r.tagged == tagged && !r.failed && r.cqes == []
  {
    Record(LinkRequest(op), tagged, false, [])
  }

  lemma RecordsNext(before: seq<Record>, chain: seq<LinkOp>, firstId: nat, i: nat)
    requires i < |chain|
    ensures before + ChainRecords(chain, firstId, i + 1) ==
              before + ChainRecords(chain, firstId, i) + [LinkRecord(chain[i], TagBit + firstId + i)]
  {
  }

  lemma ChainNext(before: seq<Sqe>, chain: seq<LinkOp>, firstId: nat, linkFlag: nat, i: nat)
    requires i < |chain|
    ensures before + ChainEntries(chain, firstId, linkFlag, i + 1) ==
              before + ChainEntries(chain, firstId, linkFlag, i)
              + [Sqe(chain[i].opcode, TagBit + firstId + i, if i < |chain| - 1 then linkFlag else 0)]
  {
  }

  /** The unconsumed entries are where the kernel will look for them, in submission order. */
  ghost predicate InPlace(sqes: seq<Sqe>, index: seq<nat>, submitted: seq<Sqe>, from: nat, n: nat)
    requires n > 0 && |sqes| == |index| == n
  {
    forall i :: from <= i < |submitted| ==> index[i % n] == i % n && sqes[i % n] == submitted[i]
  }

  lemma PublishOne(sqes: seq<Sqe>, index: seq<nat>, submitted: seq<Sqe>, from: nat, n: nat)
    requires n > 0 && |sqes| == |index| == n && InPlace(sqes, index, submitted, from, n)
    requires from <= |submitted| < from + n
    ensures var slot := |submitted| % n;
      InPlace(sqes, index[slot := slot], submitted + [sqes[slot]], from, n)
  {
    forall i | from <= i < |submitted| ensures i % n != |submitted| % n {
      DistinctSlots(i, |submitted|, n);
    }
  }

  lemma WriteFreeSlot(sqes: seq<Sqe>, index: seq<nat>, submitted: seq<Sqe>, from: nat, n: nat, e: Sqe)
    requires n > 0 && |sqes| == |index| == n && InPlace(sqes, index, submitted, from, n)
    requires from <= |submitted| < from + n
    ensures InPlace(sqes[|submitted| % n := e], index, submitted, from, n)
  {
    forall i | from <= i < |submitted| ensures i % n != |submitted| % n {
      DistinctSlots(i, |submitted|, n);
    }
  }

  /** What masking and subtracting wrapped counters of `width` bits gives. */
  lemma RingCounts(tail: nat, head: nat, ring: nat, width: nat)
    requires ring < width && head <= tail <= head + Pow2(ring)
    ensures And(tail % Pow2(width), Pow2(ring) - 1) == tail % Pow2(ring)
    ensures And(head % Pow2(width), Pow2(ring) - 1) == head % Pow2(ring)
    ensures WrapSub(tail % Pow2(width), head % Pow2(width), width) == tail - head
  {
    MaskedSlot(tail, ring, width);
    MaskedSlot(head, ring, width);
    Pow2Monotone(ring, width - 1);
    ModDifference(tail, head, Pow2(width));
  }

  class SubmissionQueue {
    ghost const ring: nat
    const mask: nat
    var sqHead: nat
    var sqTail: nat
    const sqes: array<Sqe>
    const sqArray: array<nat>
    ghost var submitted: seq<Sqe>
    ghost var consumed: seq<Sqe>

    ghost predicate Valid()
      reads this, sqes, sqArray
    {
      var n := Pow2(ring);
      && ring <= 31 && mask == n - 1 && sqes.Length == n && sqArray.Length == n
      && consumed <= submitted && |submitted| <= |consumed| + n
      && sqHead == |consumed| % Pow2(32) && sqTail == |submitted| % Pow2(32)
      && InPlace(sqes[..], sqArray[..], submitted, |consumed|, n)
    }

    constructor (ghost ring: nat, entries: nat)
      requires ring <= 31 && entries == Pow2(ring)
      ensures Valid() && fresh(sqes) && fresh(sqArray) && submitted == [] && this.ring == ring
    {
      this.ring, mask := ring, entries - 1;
      sqHead, sqTail := 0, 0;
      sqes := new Sqe[entries](_ => Zeroed);
      sqArray := new nat[entries](_ => 0);
      submitted, consumed := [], [];
      new;
      assert 0 % Pow2(32) == 0;
    }

    lemma TailSlot()
      requires Valid()
      ensures And(sqTail, mask) == |submitted| % Pow2(ring)
      ensures And(sqHead, mask) == |consumed| % Pow2(ring)
      ensures WrapSub(sqTail, sqHead, 32) == |submitted| - |consumed|
    {
      RingCounts(|submitted|, |consumed|, ring, 32);
    }

    /** The kernel takes any number of entries through the index array. What it sees is the
        submissions, in order: `consumed` stays a prefix of `submitted`. */
    method KernelRuns()
      requires Valid()
      modifies this`sqHead, this`consumed
      ensures Valid() && old(consumed) <= consumed
    {
      var n: nat := *;
      while n > 0 && sqHead != sqTail
        invariant Valid() && old(consumed) <= consumed
      {
        KernelTakes();
        n := n - 1;
      }
    }

    method KernelTakes()
      requires Valid() && sqHead != sqTail
      modifies this`sqHead, this`consumed
      ensures Valid() && |consumed| == |old(consumed)| + 1 && old(consumed) <= consumed
    {
      TailSlot();
      var entry := sqes[sqArray[And(sqHead, mask)]];
      assert entry == submitted[|consumed|] && consumed + [entry] == submitted[..|consumed| + 1];
      NextMod(|consumed|, Pow2(32));
      sqHead, consumed := (sqHead + 1) % Pow2(32), consumed + [entry];
    }

    /** ioUringGetSqe: the zeroed entry at the tail, unless the queue is full. */
    method GetSqe() returns (ok: bool, slot: nat)
      requires Valid()
      modifies this`sqHead, this`consumed, sqes
      ensures Valid() && old(consumed) <= consumed
      ensures ok <==> |submitted| - |consumed| < Pow2(ring)
      ensures ok ==> slot == |submitted| % Pow2(ring) && slot < sqes.Length && sqes[slot] == Zeroed
    {
      KernelRuns();
      TailSlot();
      var head := sqHead;
      var tail := sqTail;
      if WrapSub(tail, head, 32) >= mask + 1 {
        return false, 0;
      }
      ok, slot := true, And(tail, mask);
      WriteFreeSlot(sqes[..], sqArray[..], submitted, |consumed|, Pow2(ring), Zeroed);
      label before:
      sqes[slot] := Zeroed;
      assert sqes[..] == old@before(sqes[..])[slot := Zeroed];
    }

    /** Filling an entry obtained from GetSqe. */
    method Fill(slot: nat, e: Sqe)
      requires Valid() && |submitted| - |consumed| < Pow2(ring) && slot == |submitted| % Pow2(ring)
      modifies sqes
      ensures Valid() && sqes[slot] == e
    {
      WriteFreeSlot(sqes[..], sqArray[..], submitted, |consumed|, Pow2(ring), e);
      sqes[slot] := e;
      assert sqes[..] == old(sqes[..])[slot := e];
    }

    /** ioUringSubmitSqe: the entry at the tail becomes the kernel's. */
    method SubmitSqe()
      requires Valid() && |submitted| - |consumed| < Pow2(ring)
      modifies this`sqTail, this`submitted, sqArray
      ensures Valid() && submitted == old(submitted) + [old(sqes[|submitted| % Pow2(ring)])]
    {
      TailSlot();
      NextMod(|submitted|, Pow2(32));
      PublishOne(sqes[..], sqArray[..], submitted, |consumed|, Pow2(ring));
      var tail := sqTail;
      var slot := And(tail, mask);
      sqArray[slot] := slot;
      assert sqArray[..] == old(sqArray[..])[slot := slot];
      submitted := submitted + [sqes[slot]];
      sqTail := (tail + 1) % Pow2(32);
    }
  }

  /** One round of the chain loop: entry, id, fill, publish. */
  method SubmitLink(q: SubmissionQueue, table: Table, op: LinkOp, flags: nat) returns (published: bool)
    requires q.Valid() && table.Valid() && table.nextId < TagBit
    modifies q`sqHead, q`sqTail, q`submitted, q`consumed, q.sqes, q.sqArray, table, table.ops
    ensures q.Valid() && table.Valid() && old(q.consumed) <= q.consumed
    ensures table.ops == old(table.ops) || fresh(table.ops)
    ensures published ==> q.submitted == old(q.submitted) + [Sqe(op.opcode, TagBit + old(table.nextId), flags)]
    ensures published ==> table.nextId == old(table.nextId) + 1
    ensures published ==> table.issued == old(table.issued) + [LinkRecord(op, TagBit + old(table.nextId))]
    ensures !published ==>
              q.submitted == old(q.submitted) && table.nextId == old(table.nextId) && table.issued == old(table.issued)
    ensures !published ==> op.cb == 0 || |q.submitted| - |q.consumed| == Pow2(q.ring)
  {
    var got, slot := q.GetSqe();
    if !got || op.cb == 0 {
      return false;
    }
    PublishLink(q, table, op, flags, slot);
    published := true;
  }

  /** The entry at `slot` is filled for a new operation and published. */
  method PublishLink(q: SubmissionQueue, table: Table, op: LinkOp, flags: nat, slot: nat)
    requires q.Valid() && table.Valid() && table.nextId < TagBit && op.cb != 0
    requires |q.submitted| - |q.consumed| < Pow2(q.ring) && slot == |q.submitted| % Pow2(q.ring)
    modifies q`sqHead, q`sqTail, q`submitted, q`consumed, q.sqes, q.sqArray, table, table.ops
    ensures q.Valid() && table.Valid() && old(q.consumed) <= q.consumed
    ensures table.ops == old(table.ops) || fresh(table.ops)
    ensures q.submitted == old(q.submitted) + [Sqe(op.opcode, TagBit + old(table.nextId), flags)]
    ensures table.nextId == old(table.nextId) + 1
    ensures table.issued == old(table.issued) + [LinkRecord(op, TagBit + old(table.nextId))]
  {
    AllocateKeeps(table.View(), LinkRequest(op), 0);
    var opId := table.OpAllocate(LinkRequest(op));
    q.Fill(slot, Sqe(op.opcode, opId, flags));
    q.KernelRuns();
    q.SubmitSqe();
  }

  /** The chain found no null callback and there was room for all of it from the start. */
  ghost predicate ChainFits(q: SubmissionQueue, chain: seq<LinkOp>, submitted: nat, consumed: nat)
  {
    (forall i :: 0 <= i < |chain| ==> chain[i].cb != 0) && submitted - consumed + |chain| <= Pow2(q.ring)
  }

  /** loopyIoUringLinkChainSubmit. `done` operations were published: consecutively, in order, with
      consecutive ids and the link flag on all but the chain's last. It stops short only at a null
      callback or a full queue, and what it then leaves behind all carries the link flag. */
  method LinkChainSubmit(q: SubmissionQueue, table: Table, chain: seq<LinkOp>, linkFlag: nat, entered: bool)
      returns (ok: bool, ghost done: nat)
    requires q.Valid() && table.Valid() && table.nextId + |chain| <= TagBit
    modifies q`sqHead, q`sqTail, q`submitted, q`consumed, q.sqes, q.sqArray, table, table.ops
    ensures q.Valid() && table.Valid() && old(q.consumed) <= q.consumed
    ensures done <= |chain| && table.nextId == old(table.nextId) + done
    ensures q.submitted == old(q.submitted) + ChainEntries(chain, old(table.nextId), linkFlag, done)
    ensures table.issued == old(table.issued) + ChainRecords(chain, old(table.nextId), done)
    ensures ok <==> entered && done == |chain| && chain != []
    ensures done < |chain| ==> chain[done].cb == 0 || |q.submitted| - |q.consumed| == Pow2(q.ring)
    ensures ChainFits(q, chain, old(|q.submitted|), old(|q.consumed|)) ==> done == |chain|
  {
    done := 0;
    if |chain| == 0 {
      return false, 0;
    }
    ghost var firstId := table.nextId;
    var i := 0;
    while i < |chain|
      invariant i <= |chain| && done == i && q.Valid() && table.Valid() && old(q.consumed) <= q.consumed
      invariant table.nextId == firstId + i && (table.ops == old(table.ops) || fresh(table.ops))
      invariant q.submitted == old(q.submitted) + ChainEntries(chain, firstId, linkFlag, i)
      invariant table.issued == old(table.issued) + ChainRecords(chain, firstId, i)
    {
      RecordsNext(old(table.issued), chain, firstId, i);
      ChainNext(old(q.submitted), chain, firstId, linkFlag, i);
      var published := SubmitLink(q, table, chain[i], if i < |chain| - 1 then linkFlag else 0);
      if !published {
        return false, done;
      }
      i := i + 1;
      done := i;
    }
    ok := entered;
  }
}
