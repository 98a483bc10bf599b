/** loopyAdapterSolaris.c in place: the two pending arrays, their fill count, and the calls to the
    event port. Each method does what the function of SolarisPort of the same name says. */
module SolarisPortCode {
  import opened Masks
  import opened SolarisPort

  class Port {
    const maskFirst: bool
    const pendingFds: array<int>
    const pendingMasks: array<Mask>
    var npending: nat
    /** The registered masks of the loop, the kernel's associations, and whether abort was called. */
    var masks: map<nat, Mask>
    var assoc: map<nat, Mask>
    var aborted: bool

    ghost predicate Valid()
      reads this
    {
      pendingFds.Length == pendingMasks.Length == BATCH && npending <= BATCH
    }

    ghost function Entries(): (es: seq<Entry>)
      requires Valid()
      reads this, pendingFds, pendingMasks
      ensures |es| == npending && forall i :: 0 <= i < npending ==> es[i] == Entry(pendingFds[i], pendingMasks[i])
    {
      seq(npending, i requires 0 <= i < pendingFds.Length && i < pendingMasks.Length reads pendingFds, pendingMasks =>
        Entry(pendingFds[i], pendingMasks[i]))
    }

    ghost function View(): (s: State)
      requires Valid()
      reads this, pendingFds, pendingMasks
    {
      State(maskFirst, masks, assoc, Entries(), aborted)
    }

    constructor (maskFirst: bool)
      ensures Valid() && View() == Init(maskFirst) && fresh(pendingFds) && fresh(pendingMasks)
    {
      this.maskFirst := maskFirst;
      pendingFds := new int[BATCH](_ => -1);
      pendingMasks := new Mask[BATCH](_ => NONE);
      npending, masks, assoc, aborted := 0, map[], map[], false;
    }

    /** loopyInternalLookupPending. */
    method LookupPending(fd: nat) returns (i: int)
      requires Valid()
      ensures i == LookUp(Entries(), fd)
    {
      var k := 0;
      while k < npending
        invariant k <= npending && forall j :: 0 <= j < k ==> pendingFds[j] != fd
      {
        if pendingFds[k] == fd {
          FirstIs(Entries(), fd, k);
          return k;
        }
        k := k + 1;
      }
      NoneIs(Entries(), fd);
      i := -1;
    }

    /** port_associate. */
    method Associate(fd: nat, mask: Mask, refuse: bool) returns (ok: bool)
      modifies this`assoc
      ensures ok == !refuse && assoc == if ok then old(assoc)[fd := mask] else old(assoc)
    {
      ok := !refuse;
      if ok {
        assoc := assoc[fd := mask];
      }
    }

    method Add(fd: nat, mask: Mask, refuse: bool) returns (ok: bool)
      requires Valid()
      modifies this`assoc, pendingMasks
      ensures Valid() && (ok, View()) == AddEvent(old(View()), fd, mask, refuse)
    {
      var full := mask.Or(MaskOf(masks, fd));
      var pfd := LookupPending(fd);
      if pfd != -1 {
        pendingMasks[pfd] := pendingMasks[pfd].Or(full);
        assert Entries() == old(Entries())[pfd := Entry(fd, pendingMasks[pfd])];
        return true;
      }
      ok := Associate(fd, full, refuse);
      assert Entries() == old(Entries());
    }

    method Del(fd: nat, mask: Mask, refuse: bool)
      requires Valid()
      modifies this`assoc, this`aborted, pendingFds, pendingMasks
      ensures Valid() && View() == DelEvent(old(View()), fd, mask, refuse)
    {
      var pfd := LookupPending(fd);
      if pfd != -1 {
        pendingMasks[pfd] := pendingMasks[pfd].Minus(mask);
        if pendingMasks[pfd].Empty() {
          pendingFds[pfd] := -1;
        }
        assert Entries() == old(Entries())[pfd := Entry(pendingFds[pfd], pendingMasks[pfd])];
        return;
      }
      var full := MaskOf(masks, fd);
      if full.Empty() {
        if fd in assoc {
          assoc := map x | x in assoc && x != fd :: assoc[x];
        } else {
          aborted := true;
        }
      } else {
        var ok := Associate(fd, full, refuse);
        if !ok {
          aborted := true;
        }
      }
      assert Entries() == old(Entries());
    }

    /** loopyInternalPoll, where the kernel returns `events`. */
    method PollEvents(events: seq<nat>, refuse: bool)
      requires Valid() && Inv(View()) && Enabled(View(), Poll(events, refuse))
      modifies this`assoc, this`npending, this`aborted, pendingFds, pendingMasks
      ensures Valid() && (aborted <==> Step(old(View()), Poll(events, refuse)).aborted)
      ensures !aborted ==> View() == Step(old(View()), Poll(events, refuse))
    {
      assert forall i :: 0 <= i < npending ==> Entries()[i].fd == pendingFds[i];
      var ok := Reassociate(refuse);
      if !ok {
        aborted := true;
        return;
      }
      Collect(events);
      assert View() == Step(old(View()), Poll(events, refuse));
    }

    /** The first loop of loopyInternalPoll: false where the source aborts. */
    method Reassociate(refuse: bool) returns (ok: bool)
      requires Valid() && forall i :: 0 <= i < npending ==> pendingFds[i] >= -1
      modifies this`assoc, this`npending, pendingFds, pendingMasks
      ensures Valid() && (ok <==> !(refuse && HasLive(old(Entries()))))
      ensures ok ==> assoc == Reassociated(old(assoc), old(Entries()), 0) && npending == 0
    {
      ghost var es := Entries();
      var i := 0;
      while i < npending
        invariant i <= npending == |es| && Valid()
                  && (forall j :: i <= j < npending ==> es[j] == Entry(pendingFds[j], pendingMasks[j]))
        invariant refuse ==> forall j :: 0 <= j < i ==> es[j].fd < 0
        invariant Reassociated(assoc, es, i) == Reassociated(old(assoc), es, 0)
        invariant forall j :: 0 <= j < npending ==> pendingFds[j] >= -1
      {
        if pendingFds[i] != -1 {
          assert es[i].fd >= 0;
          var done := Associate(pendingFds[i], pendingMasks[i], refuse);
          if !done {
            return false;
          }
          pendingMasks[i] := NONE;
          pendingFds[i] := -1;
        }
        i := i + 1;
      }
      npending := 0;
      ok := true;
    }

    /** The second loop: the kernel dissociated the descriptors it returned; they become pending. */
    method Collect(events: seq<nat>)
      requires Valid() && npending == 0 && |events| <= BATCH && forall i :: 0 <= i < |events| ==> events[i] in assoc
      modifies this`assoc, this`npending, pendingFds, pendingMasks
      ensures Valid() && assoc == map x | x in old(assoc) && x !in events :: old(assoc)[x]
      ensures |Entries()| == |events| && forall i :: 0 <= i < |events| ==>
                Entries()[i] == Entry(events[i], old(assoc)[events[i]])
    {
      npending := |events|;
      var i := 0;
      while i < |events|
        invariant i <= |events| == npending && Valid() && assoc == old(assoc)
        invariant forall j :: 0 <= j < i ==> pendingFds[j] == events[j] && pendingMasks[j] == assoc[events[j]]
      {
        pendingFds[i] := events[i];
        pendingMasks[i] := assoc[events[i]];
        i := i + 1;
      }
      assoc := map x | x in assoc && x !in events :: assoc[x];
    }
  }

  lemma {:induction false} FirstIs(es: seq<Entry>, fd: int, k: nat)
    requires k < |es| && es[k].fd == fd && forall j :: 0 <= j < k ==> es[j].fd != fd
    ensures LookUp(es, fd) == k
  {
    if k > 0 {
      FirstIs(es[1..], fd, k - 1);
    }
  }

  lemma {:induction false} NoneIs(es: seq<Entry>, fd: int)
    requires forall j :: 0 <= j < |es| ==> es[j].fd != fd
    ensures LookUp(es, fd) == -1
  {
    if es != [] {
      NoneIs(es[1..], fd);
    }
  }
}
