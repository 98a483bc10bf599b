/** The operation table as code over an array: the slot searches, growth by doubling, and the
    dispatch of one completion-queue entry. */
module OpTableCode {
  import opened Words
  import opened OpTable

  class Table {
    var ops: array<Op>
    var nextId: nat
    var log: seq<Call>
    ghost var issued: seq<Record>

    ghost function View(): (s: State)
      reads this, ops
    {
      State(ops[..], nextId, log, issued)
    }

    ghost predicate Valid()
      reads this, ops
    {
      Inv(View())
    }

    constructor ()
      ensures View() == Init(256) && fresh(ops)
    {
      ops := new Op[256](_ => FreeOp);
      nextId, log, issued := 1, [], [];
    }

    /** The free-slot search at the head of both allocation routines. */
    method FindFree() returns (i: nat)
      ensures i == FirstFree(ops[..])
    {
      i := 0;
      while i < ops.Length && ops[i].active
        invariant i <= ops.Length && forall j :: 0 <= j < i ==> ops[j].active
      {
        i := i + 1;
      }
    }

    method Double()
      requires ops.Length > 0
      modifies this`ops
      ensures fresh(ops) && ops[..] == old(ops[..]) + seq(old(ops.Length), _ => FreeOp)
    {
      var newOps := new Op[2 * ops.Length](_ => FreeOp);
      var i := 0;
      while i < ops.Length
        invariant i <= ops.Length && newOps.Length == 2 * ops.Length
        invariant ops == old(ops) && ops[..] == old(ops[..])
        invariant forall j :: 0 <= j < i ==> newOps[j] == ops[j]
        invariant forall j :: i <= j < newOps.Length ==> newOps[j] == FreeOp
      {
        newOps[i] := ops[i];
        i := i + 1;
      }
      ops := newOps;
    }

    /** ioUringFileOpAllocate and ioUringBufferOpAllocate, with the multishot mark their callers set.
        The result is the id tagged in bit 63. */
    method OpAllocate(req: Request) returns (userData: nat)
      requires ops.Length > 0
      modifies this, ops
      ensures View() == Allocate(old(View()), req) && (old(nextId) < TagBit ==> userData == TagBit + old(nextId))
      ensures nextId == old(nextId) + 1 && issued == old(issued) + [Record(req, userData, false, [])]
      ensures ops == old(ops) || fresh(ops)
    {
      ghost var s := View();
      var i := FindFree();
      if i == ops.Length {
        Double();
      }
      var id := nextId;
      nextId := nextId + 1;
      ops[i] := Filled(id, req);
      userData := Tag(id);
      issued := issued + [Record(req, userData, false, [])];
      assert ops[..] == Allocate(s, req).ops;
    }

    /** ioUringFileOpFind: the id may still carry bit 63. */
    method OpFind(id: word) returns (i: int)
      requires DistinctIds(ops[..])
      ensures i == Find(ops[..], Strip(id))
    {
      var idToFind := Strip(id);
      var k := 0;
      while k < ops.Length
        invariant k <= ops.Length && forall j :: 0 <= j < k ==> !(ops[j].active && ops[j].id == idToFind)
      {
        if ops[k].active && ops[k].id == idToFind {
          assert ops[..][k] == ops[k];
          return k;
        }
        k := k + 1;
      }
      i := -1;
    }

    /** One iteration of the completion loop. The callback runs through `nested`, what it submits. */
    method Dispatch(cqe: Cqe, nested: seq<Request>)
      requires Valid() && Enabled(View(), DoComplete(cqe, nested))
      modifies this, ops
      ensures Valid() && View() == Complete(old(View()), cqe, nested)
    {
      ghost var s := View();
      StepKeeps(s, DoComplete(cqe, nested));
      issued := Witnessed(s, cqe).issued;
      if IsFileOp(cqe.userData) {
        var id := Strip(cqe.userData);
        var i := OpFind(id);
        if i >= 0 {
          var op := ops[i];
          var multishot := op.multishot;
          InvokeKeeps(s, i, cqe);
          var given := Plain;
          if op.bufferCb != 0 {
            given := if cqe.buffer then Buffer(op.group, cqe.bufferId) else NoBuffer;
          }
          var cb := if op.bufferCb != 0 then op.bufferCb else op.cb;
          log := log + [Call(op.id, cb, op.userData, cqe.res, given)];
          assert View() == Invoke(Witnessed(s, cqe), op, cqe);
          Callback(nested, id);
          if !multishot || !cqe.more {
            Release(id);
          }
        }
      }
    }

    /** The callback submits each of its operations. */
    method Callback(nested: seq<Request>, ghost x: nat)
      requires InvDuring(View(), x) && x <= |issued| && nextId + |nested| <= TagBit
      requires forall k :: 0 <= k < |nested| ==> nested[k].cb != 0
      modifies this, ops
      ensures View() == SubmitAll(old(View()), nested) && InvDuring(View(), x)
      ensures ops == old(ops) || fresh(ops)
      decreases |nested|
    {
      if nested != [] {
        AllocateKeeps(View(), nested[0], x);
        var _ := OpAllocate(nested[0]);
        Callback(nested[1..], x);
      }
    }

    method Release(id: word)
      requires DistinctIds(ops[..])
      modifies ops
      ensures View() == Free(old(View()), Strip(id))
    {
      ghost var s := View();
      var i := OpFind(id);
      if i >= 0 {
        ops[i] := ops[i].(active := false);
        assert ops[..] == Free(s, Strip(id)).ops;
      }
    }
  }
}
