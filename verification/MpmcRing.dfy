/** The buffer of the locked channel of loopyChannel.c in place: what a send and a receive do to the
    array, the two indices and the count while they hold the mutex. */
module MpmcRing {
  import opened Words

  class Ring {
    const buffer: array<int>
    var head: nat
    var tail: nat
    var count: nat
    /** History: everything accepted, and how much of it has been received. */
    ghost var accepted: seq<int>
    ghost var received: nat

    ghost predicate Valid()
      reads this, buffer
    {
      && buffer.Length > 0 && received + count == |accepted| && count <= buffer.Length
      && head == |accepted| % buffer.Length && tail == received % buffer.Length
      && forall i :: received <= i < |accepted| ==> buffer[i % buffer.Length] == accepted[i]
    }

    /** The FIFO the ring stands for. */
    ghost function Contents(): (r: seq<int>)
      requires received <= |accepted|
      reads this
    {
      accepted[received..]
    }

    constructor (capacity: nat)
      requires capacity > 0
      ensures Valid() && Contents() == [] && buffer.Length == capacity && fresh(buffer)
    {
      buffer := new int[capacity];
      head, tail, count, accepted, received := 0, 0, 0, [], 0;
    }

    /** The tail of mpmcSend: refused exactly when full. */
    method Push(x: int) returns (ok: bool)
      requires Valid()
      modifies this`head, this`count, this`accepted, buffer
      ensures Valid() && (ok <==> old(|Contents()|) < buffer.Length)
      ensures Contents() == if ok then old(Contents()) + [x] else old(Contents())
    {
      if count >= buffer.Length {
        return false;
      }
      NextMod(|accepted|, buffer.Length);
      forall i | received <= i < |accepted| ensures i % buffer.Length != head {
        DistinctSlots(i, |accepted|, buffer.Length);
      }
      buffer[head] := x;
      head := (head + 1) % buffer.Length;
      count := count + 1;
      accepted := accepted + [x];
      ok := true;
    }

    /** The tail of mpmcRecv: refused exactly when empty. */
    method Pop() returns (ok: bool, x: int)
      requires Valid()
      modifies this`tail, this`count, this`received
      ensures Valid() && (ok <==> old(Contents()) != [])
      ensures ok ==> x == old(Contents())[0] && Contents() == old(Contents())[1..]
      ensures !ok ==> Contents() == old(Contents())
    {
      if count == 0 {
        return false, 0;
      }
      NextMod(received, buffer.Length);
      x := buffer[tail];
      tail := (tail + 1) % buffer.Length;
      count := count - 1;
      received := received + 1;
      ok := true;
    }
  }
}
