/** spscInit, spscTrySend and spscTryRecv as code over shared fields, with the other thread
    running between any two shared accesses. The step-by-step interleavings are in SpscRing. */
module SpscChannel {
  import opened Words
  import opened SpscRing

  /** The sizes spscInit computes. The ring has a spare slot exactly when the request is below 2^63. */
  method RingSize(capacity: nat) returns (slots: nat, mask: nat, ghost k: nat)
    requires 1 <= capacity < Pow2(64)
    ensures capacity < slots <==> capacity < Pow2(63)
    ensures capacity < Pow2(63) ==> k <= 63 && LeastPow2(capacity + 1, slots, k) && mask == Pow2(k) - 1
  {
    slots, k := NextPowerOf2((capacity + 1) % Pow2(64));
    mask := (slots + Pow2(64) - 1) % Pow2(64);
    RingFits(capacity, slots, k);
  }

  lemma RingFits(capacity: nat, slots: nat, k: nat)
    requires 1 <= capacity < Pow2(64) && RoundedUp((capacity + 1) % Pow2(64), slots, k)
    ensures capacity < slots <==> capacity < Pow2(63)
    ensures capacity < Pow2(63) ==> k <= 63 && LeastPow2(capacity + 1, slots, k)
    ensures capacity < Pow2(63) ==> (slots + Pow2(64) - 1) % Pow2(64) == Pow2(k) - 1
  {
    Pow2Monotone(63, 64);
    WrappedSuccessor(capacity);
    if capacity < Pow2(63) {
      Pow2Monotone(k, 63);
      WrappedPredecessor(slots);
    }
  }

  lemma WrappedSuccessor(n: nat)
    requires n < Pow2(64)
    ensures (n + 1) % Pow2(64) == if n + 1 < Pow2(64) then n + 1 else 0
  {
    if n + 1 < Pow2(64) {
      DivModUnique(n + 1, Pow2(64), 0, n + 1);
    } else {
      DivModUnique(n + 1, Pow2(64), 1, 0);
    }
  }

  lemma WrappedPredecessor(n: nat)
    requires 0 < n <= Pow2(64)
    ensures (n + Pow2(64) - 1) % Pow2(64) == n - 1
  {
    DivModUnique(n + Pow2(64) - 1, Pow2(64), 1, n - 1);
  }

  /** Writing the head slot and moving the head on keeps every unread element. */
  lemma PublishKeepsRing(cfg: Config, r: Ring, x: Elem)
    requires cfg.Valid() && RingInv(cfg, r) && |x| == cfg.size && |r.sent| < r.seenTail + cfg.capacity
    ensures cfg.Slot(r.head) < |r.slots|
    ensures RingInv(cfg, r.(slots := r.slots[cfg.Slot(r.head) := x], head := (r.head + 1) % WORD, sent := r.sent + [x]))
  {
    SlotOfHead(cfg, r);
    forall j | |r.received| <= j < |r.sent| ensures j % cfg.Slots() != cfg.Slot(r.head) {
      WritesOnlyFreeSlot(cfg, r, j);
    }
    NextMod(|r.sent|, WORD);
    assert (r.sent + [x])[..|r.sent|] == r.sent;
  }

  class Spsc {
    ghost const cfg: Config
    const capacity: nat
    const size: nat
    const mask: nat
    const slots: array<Elem>
    var head: nat
    var cachedTail: nat
    var tail: nat
    var cachedHead: nat
    ghost var sent: seq<Elem>
    ghost var received: seq<Elem>
    ghost var seenTail: nat
    ghost var seenHead: nat

    ghost function View(): (r: Ring)
      reads this, slots
    {
      Ring(head, cachedTail, tail, cachedHead, slots[..], sent, received, seenTail, seenHead)
    }

    ghost predicate Valid()
      reads this, slots
    {
      && cfg == Config(capacity, size, cfg.ring) && mask == Pow2(cfg.ring) - 1
      && cfg.Valid() && RingInv(cfg, View())
    }

    constructor (capacity: nat, size: nat)
      requires 1 <= capacity < Pow2(63) && size >= 1
      ensures Valid() && fresh(slots) && this.capacity == capacity && this.size == size
      ensures sent == [] && received == []
    {
      Pow2Monotone(63, 64);
      var n, m, k := RingSize(capacity);
      this.capacity, this.size, this.mask := capacity, size, m;
      this.cfg := Config(capacity, size, k);
      slots := new Elem[n](_ => seq(size, _ => 0));
      head, cachedTail, tail, cachedHead := 0, 0, 0, 0;
      sent, received, seenTail, seenHead := [], [], 0, 0;
      new;
      assert 0 % WORD == 0;
    }

    /** Any number of consumer steps: only the consumer's own words change, and only forwards. */
    method ConsumerRuns()
      requires Valid()
      modifies this`tail, this`cachedHead, this`received, this`seenHead
      ensures Valid() && old(received) <= received
    {
      var n: nat := *;
      while n > 0
        invariant Valid() && old(received) <= received
      {
        ConsumerComparison(cfg, View());
        if * {
          cachedHead, seenHead := head, |sent|;
        } else if tail != cachedHead {
          NextMod(|received|, WORD);
          tail, received := (tail + 1) % WORD, sent[..|received| + 1];
        }
        n := n - 1;
      }
    }

    /** Any number of producer steps. The elements still to be received stay where they are. */
    method ProducerRuns()
      requires Valid()
      modifies this`head, this`cachedTail, this`sent, this`seenTail, slots
      ensures Valid() && old(sent) <= sent
    {
      var n: nat := *;
      while n > 0
        invariant Valid() && old(sent) <= sent
      {
        ProducerCount(cfg, View());
        if * {
          cachedTail, seenTail := tail, |received|;
        } else if And(WordSub(head, cachedTail), mask) < capacity {
          var y: Elem := *;
          if |y| == size {
            Publish(y);
          }
        }
        n := n - 1;
      }
    }

    /** memcpy into the head slot, then the release store of the head. */
    method Publish(x: Elem)
      requires Valid() && |x| == size && |sent| < seenTail + capacity
      modifies this`head, this`sent, slots
      ensures Valid() && sent == old(sent) + [x]
    {
      SlotOfHead(cfg, View());
      NextMod(|sent|, WORD);
      PublishKeepsRing(cfg, View(), x);
      ghost var before := slots[..];
      slots[And(head, mask)] := x;
      assert slots[..] == before[cfg.Slot(head) := x];
      head, sent := (head + 1) % WORD, sent + [x];
    }

    /** The masked count the producer compares with the capacity. */
    method LooksFull(h: nat) returns (full: bool)
      requires Valid() && h == head
      ensures full <==> |sent| - seenTail == capacity
    {
      ProducerCount(cfg, View());
      var count := And(WordSub(h, cachedTail), mask);
      full := count >= capacity;
    }

    /** The comparison the consumer makes. */
    method LooksEmpty(t: nat) returns (empty: bool)
      requires Valid() && t == tail
      ensures empty <==> |received| == seenHead
    {
      ConsumerComparison(cfg, View());
      empty := t == cachedHead;
    }

    method RefreshTail()
      requires Valid()
      modifies this`cachedTail, this`seenTail
      ensures Valid() && seenTail == |received|
    {
      cachedTail, seenTail := tail, |received|;
    }

    method RefreshHead()
      requires Valid()
      modifies this`cachedHead, this`seenHead
      ensures Valid() && seenHead == |sent|
    {
      cachedHead, seenHead := head, |sent|;
    }

    /** memcpy out of the tail slot. */
    method CopyOut(t: nat) returns (out: Elem)
      requires Valid() && t == tail && |received| < seenHead
      ensures out == sent[|received|]
    {
      SlotOfTail(cfg, View());
      out := slots[And(t, mask)];
    }

    /** The release store of the tail. */
    method Take(t: nat, ghost out: Elem)
      requires Valid() && t == tail && |received| < seenHead && out == sent[|received|]
      modifies this`tail, this`received
      ensures Valid() && received == old(received) + [out]
    {
      NextMod(|received|, WORD);
      assert received + [out] == sent[..|received| + 1];
      tail, received := (t + 1) % WORD, received + [out];
    }

    /** spscTrySend against a running consumer. It fails only on a wrong length or because at some
        moment of the call, when `taken` had been received, the ring held `capacity` elements. */
    method TrySend(x: Elem) returns (ok: bool, ghost taken: seq<Elem>)
      requires Valid()
      modifies this, slots
      ensures Valid() && old(received) <= taken <= received
      ensures ok ==> |x| == size && sent == old(sent) + [x]
      ensures !ok ==> sent == old(sent) && (|x| != size || |sent| - |taken| == capacity)
    {
      taken := received;
      if |x| != size {
        return false, taken;
      }
      ConsumerRuns();
      var h := head;
      var full := LooksFull(h);
      if full {
        ConsumerRuns();
        RefreshTail();
        taken := received;
        full := LooksFull(h);
        if full {
          return false, taken;
        }
      }
      ConsumerRuns();
      Publish(x);
      ok := true;
    }

    /** spscTryRecv against a running producer. It takes the oldest element, and finds nothing only
        when at some moment of the call nothing was in the ring. */
    method TryRecv() returns (r: Option<Elem>)
      requires Valid()
      modifies this, slots
      ensures Valid() && old(sent) <= sent
      ensures r.Some? ==>
                |old(received)| < |sent| && r.value == sent[|old(received)|] && received == old(received) + [r.value]
      ensures r.None? ==> received == old(received) && old(sent) <= received
    {
      ProducerRuns();
      var t := tail;
      var empty := LooksEmpty(t);
      if empty {
        ProducerRuns();
        RefreshHead();
        empty := LooksEmpty(t);
        if empty {
          assert received == sent;
          return None;
        }
      }
      ProducerRuns();
      var out := CopyOut(t);
      ProducerRuns();
      Take(t, out);
      r := Some(out);
    }
  }

  datatype Option<T> = None | Some(value: T)
}
