/** The io_uring operation table of loopyAdapterIouring.c: slots are reused and the array doubles,
    ids count up, a completion carries an id tagged in bit 63, and a multishot operation stays. */
module OpTable {
  import opened Words

  const TagBit: nat := 0x8000_0000_0000_0000

  /** id | 1 << 63 on a 64-bit word. */
  function Tag(id: nat): (tagged: nat)
    ensures id < WORD ==> tagged < WORD
  {
    if id < TagBit then id + TagBit else id
  }

  predicate IsFileOp(userData: word) { userData >= TagBit }

  function Strip(userData: word): (id: word)
    ensures id < TagBit
  {
    if userData >= TagBit then userData - TagBit else userData
  }

  /** What a submitter asks for: an ordinary callback, or a buffer-aware one with its group. */
  datatype Request = Request(cb: nat, pooled: bool, group: nat, userData: nat, multishot: bool)

  /** A slot. `cb` and `bufferCb` hold a callback or, when 0, none. */
  datatype Op = Op(id: nat, cb: nat, bufferCb: nat, userData: nat, active: bool, multishot: bool, group: nat)

  /** `bufferId` is the selected buffer if `buffer` says that there is one. */
  datatype Cqe = Cqe(userData: word, res: int, more: bool, buffer: bool, bufferId: nat)

  /** How a callback is called: as an ordinary one, or as a buffer-aware one without or with a buffer. */
  datatype Given = Plain | NoBuffer | Buffer(group: nat, bufferId: nat)

  /** One callback invocation: which function, with which user data, result and buffer. */
  datatype Call = Call(id: nat, cb: nat, userData: nat, res: int, given: Given)

  datatype Answer = Answer(res: int, given: Given)

  /** History of one id: what was asked, the word the submitter put into its entry, whether the submit
      failed, and the completions that carried that word. */
  datatype Record = Record(req: Request, tagged: nat, failed: bool, cqes: seq<Cqe>)

  datatype State = State(ops: seq<Op>, nextId: nat, log: seq<Call>, issued: seq<Record>)

  const FreeOp: Op := Op(0, 0, 0, 0, false, false, 0)

  function Init(size: nat): (s: State)
  {
    State(seq(size, _ => FreeOp), 1, [], [])
  }

  /** The first slot that is not active, or the length. */
  function FirstFree(ops: seq<Op>): (i: nat)
    ensures i <= |ops| && (i < |ops| ==> !ops[i].active)
    ensures forall j :: 0 <= j < i ==> ops[j].active
  {
    if ops == [] || !ops[0].active then 0 else 1 + FirstFree(ops[1..])
  }

  function Filled(id: nat, req: Request): (r: Op)
  {
    Op(id, if req.pooled then 0 else req.cb, if req.pooled then req.cb else 0,
       req.userData, true, req.multishot, req.group)
  }

  /** Allocate an id and fill the first free slot; double the table when there is none. */
  function Allocate(s: State, req: Request): (s': State)
  {
    var i := FirstFree(s.ops);
    var room := if i < |s.ops| then s.ops else s.ops + seq(|s.ops|, _ => FreeOp);
    State(if i < |room| then room[i := Filled(s.nextId, req)] else room, s.nextId + 1, s.log,
          s.issued + [Record(req, Tag(s.nextId), false, [])])
  }

  /** The slot whose active operation has the id, or -1. */
  function Find(ops: seq<Op>, id: nat): (i: int)
    ensures -1 <= i < |ops|
    ensures i >= 0 ==> ops[i].active && ops[i].id == id
    ensures i < 0 ==> forall j :: 0 <= j < |ops| ==> !(ops[j].active && ops[j].id == id)
  {
    if ops == [] then -1
    else if ops[0].active && ops[0].id == id then 0
    else var i := Find(ops[1..], id); if i < 0 then -1 else i + 1
  }

  function Free(s: State, id: nat): (s': State)
  {
    var i := Find(s.ops, id);
    if i < 0 then s else s.(ops := s.ops[i := s.ops[i].(active := false)])
  }

  /** A submit whose system call fails gives its slot back and reports no id. */
  function Submit(s: State, req: Request, entered: bool): (s': State)
  {
    var s1 := Allocate(s, req);
    if entered then s1
    else Free(s1, s.nextId).(issued := s1.issued[|s.issued| := s1.issued[|s.issued|].(failed := true)])
  }

  function SubmitAll(s: State, reqs: seq<Request>): (s': State)
    decreases |reqs|
  {
    if reqs == [] then s else SubmitAll(Submit(s, reqs[0], true), reqs[1..])
  }

  function Invoke(s: State, op: Op, cqe: Cqe): (s': State)
  {
    var cb := if op.bufferCb != 0 then op.bufferCb else op.cb;
    var given :=
      if op.bufferCb == 0 then Plain else if cqe.buffer then Buffer(op.group, cqe.bufferId) else NoBuffer;
    s.(log := s.log + [Call(op.id, cb, op.userData, cqe.res, given)])
  }

  /** History: the completion belongs to whoever was handed the word that it carries. */
  function Witnessed(s: State, cqe: Cqe): (s': State)
  {
    s.(issued := seq(|s.issued|, i requires 0 <= i < |s.issued| =>
                       if s.issued[i].tagged == cqe.userData then s.issued[i].(cqes := s.issued[i].cqes + [cqe])
                       else s.issued[i]))
  }

  predicate Final(multishot: bool, cqe: Cqe) { !multishot || !cqe.more }

  /** One completion-queue entry. `nested` is what the callback submits while it runs. */
  function Complete(s: State, cqe: Cqe, nested: seq<Request>): (s': State)
  {
    var s0 := Witnessed(s, cqe);
    if !IsFileOp(cqe.userData) then s0
    else
      var id := Strip(cqe.userData);
      var i := Find(s.ops, id);
      if i < 0 then s0
      else
        var s1 := SubmitAll(Invoke(s0, s.ops[i], cqe), nested);
        if Final(s.ops[i].multishot, cqe) then Free(s1, id) else s1
  }

  datatype Action = DoSubmit(req: Request, entered: bool) | DoComplete(cqe: Cqe, nested: seq<Request>)

  /** Callbacks are not null, and what a callback submits fits the free slots: the code keeps a
      pointer into the table across the callback. */
  ghost predicate Enabled(s: State, a: Action)
  {
    match a
    case DoSubmit(req, _) => req.cb != 0 && s.nextId < TagBit
    case DoComplete(cqe, nested) =>
      && s.nextId + |nested| <= TagBit
      && (forall k :: 0 <= k < |nested| ==> nested[k].cb != 0)
      && |Complete(s, cqe, nested).ops| == |s.ops|
  }

  function Step(s: State, a: Action): (s': State)
  {
    match a
    case DoSubmit(req, entered) => Submit(s, req, entered)
    case DoComplete(cqe, nested) => Complete(s, cqe, nested)
  }

  /** What the callbacks of one id were given, in order. */
  function CallsOf(log: seq<Call>, id: nat): (r: seq<Answer>)
  {
    if log == [] then []
    else
      var last := log[|log| - 1];
      CallsOf(log[..|log| - 1], id) + (if last.id == id then [Answer(last.res, last.given)] else [])
  }

  /** What the request lets its callback expect from a completion: its result, and for a request from a
      buffer pool the buffer of its own group that the kernel selected, if it did. */
  function Expected(req: Request, cqe: Cqe): (a: Answer)
  {
    Answer(cqe.res,
           if !req.pooled then Plain else if cqe.buffer then Buffer(req.group, cqe.bufferId) else NoBuffer)
  }

  /** That of the completions up to and including the first final one. */
  function UntilFinal(req: Request, cqes: seq<Cqe>): (r: seq<Answer>)
  {
    if cqes == [] then []
    else if Final(req.multishot, cqes[0]) then [Expected(req, cqes[0])]
    else [Expected(req, cqes[0])] + UntilFinal(req, cqes[1..])
  }

  predicate Ended(multishot: bool, cqes: seq<Cqe>)
  {
    exists k :: 0 <= k < |cqes| && Final(multishot, cqes[k])
  }

  ghost predicate SlotInv(s: State, op: Op)
  {
    op.active ==> 0 < op.id <= |s.issued| && op == Filled(op.id, s.issued[op.id - 1].req)
  }

  ghost predicate Live(ops: seq<Op>, id: nat)
  {
    exists i :: 0 <= i < |ops| && ops[i].active && ops[i].id == id
  }

  /** An id is live until its submit failed or its final completion came, and its callback has been
      called with exactly the completions up to then. While the callback of `x` runs, its slot is
      still occupied. */
  ghost predicate RecordInv(s: State, id: nat, x: nat)
    requires 0 < id <= |s.issued|
  {
    var r := s.issued[id - 1];
    && r.req.cb != 0 && r.tagged == TagBit + id
    && (Live(s.ops, id) <==> id == x || (!r.failed && !Ended(r.req.multishot, r.cqes)))
    && CallsOf(s.log, id) == if r.failed then [] else UntilFinal(r.req, r.cqes)
  }

  /** Every invocation used the callback and user data that were submitted under its id. */
  ghost predicate CallInv(s: State, c: Call)
  {
    0 < c.id <= |s.issued| && c.cb == s.issued[c.id - 1].req.cb && c.userData == s.issued[c.id - 1].req.userData
  }

  ghost predicate DistinctIds(ops: seq<Op>)
  {
    forall i, j :: 0 <= i < j < |ops| && ops[i].active && ops[j].active ==> ops[i].id != ops[j].id
  }

  ghost predicate InvDuring(s: State, x: nat)
  {
    && |s.ops| > 0 && s.nextId == |s.issued| + 1 <= TagBit
    && (forall i :: 0 <= i < |s.ops| ==> SlotInv(s, s.ops[i]))
    && DistinctIds(s.ops)
    && (forall id :: 0 < id <= |s.issued| ==> RecordInv(s, id, x))
    && (forall k :: 0 <= k < |s.log| ==> CallInv(s, s.log[k]))
  }

  ghost predicate Inv(s: State)
  {
    InvDuring(s, 0)
  }

  lemma {:induction false} NoCallsYet(log: seq<Call>, id: nat)
    requires forall k :: 0 <= k < |log| ==> log[k].id != id
    ensures CallsOf(log, id) == []
  {
    if log != [] {
      NoCallsYet(log[..|log| - 1], id);
    }
  }

  lemma {:induction false} UntilFinalAppend(req: Request, cqes: seq<Cqe>, c: Cqe)
    ensures UntilFinal(req, cqes + [c]) == UntilFinal(req, cqes)
            + (if Ended(req.multishot, cqes) then [] else [Expected(req, c)])
    ensures Ended(req.multishot, cqes + [c]) <==> Ended(req.multishot, cqes) || Final(req.multishot, c)
  {
    var all, multishot := cqes + [c], req.multishot;
    assert all[|cqes|] == c && forall k :: 0 <= k < |cqes| ==> all[k] == cqes[k];
    if cqes == [] {
    } else {
      assert all[1..] == cqes[1..] + [c];
      UntilFinalAppend(req, cqes[1..], c);
      if Ended(multishot, cqes) && !Final(multishot, cqes[0]) {
        var k :| 0 <= k < |cqes| && Final(multishot, cqes[k]);
        assert Final(multishot, cqes[1..][k - 1]);
      }
      if Ended(multishot, cqes[1..]) {
        var k :| 0 <= k < |cqes[1..]| && Final(multishot, cqes[1..][k]);
        assert Final(multishot, cqes[k + 1]);
      }
    }
  }

  lemma FillTable(s: State, req: Request) returns (i: nat)
    requires |s.ops| > 0
    ensures i == FirstFree(s.ops) && var ops := Allocate(s, req).ops;
      i < |ops| && |ops| >= |s.ops| && ops[i] == Filled(s.nextId, req)
      && (forall j :: 0 <= j < |ops| && j != i ==>
            if j < |s.ops| then ops[j] == s.ops[j] else !ops[j].active)
      && (i < |s.ops| ==> !s.ops[i].active)
  {
    i := FirstFree(s.ops);
  }

  lemma AllocateLive(s: State, req: Request, id: nat)
    requires |s.ops| > 0
    ensures Live(Allocate(s, req).ops, id) <==> Live(s.ops, id) || id == s.nextId
  {
    var i := FillTable(s, req);
    var ops := Allocate(s, req).ops;
    if Live(s.ops, id) {
      var j :| 0 <= j < |s.ops| && s.ops[j].active && s.ops[j].id == id;
      assert ops[j] == s.ops[j];
    }
    if id == s.nextId {
      assert ops[i].active && ops[i].id == id;
    }
  }

  lemma AllocateKeeps(s: State, req: Request, x: nat)
    requires InvDuring(s, x) && req.cb != 0 && s.nextId < TagBit && x <= |s.issued|
    ensures InvDuring(Allocate(s, req), x)
  {
    var s' := Allocate(s, req);
    var i := FillTable(s, req);
    forall j | 0 <= j < |s'.ops| ensures SlotInv(s', s'.ops[j]) {
      if j != i && j < |s.ops| { assert SlotInv(s, s.ops[j]); }
    }
    forall id | 0 < id <= |s'.issued| ensures RecordInv(s', id, x) {
      AllocateLive(s, req, id);
      if id <= |s.issued| {
        assert RecordInv(s, id, x);
      } else {
        forall k | 0 <= k < |s.log| ensures s.log[k].id != id { assert CallInv(s, s.log[k]); }
        NoCallsYet(s.log, id);
      }
    }
    forall k | 0 <= k < |s'.log| ensures CallInv(s', s'.log[k]) { assert CallInv(s, s.log[k]); }
    AllocateDistinct(s, req, x);
  }

  lemma AllocateDistinct(s: State, req: Request, x: nat)
    requires InvDuring(s, x)
    ensures DistinctIds(Allocate(s, req).ops)
  {
    var i := FillTable(s, req);
    forall j | 0 <= j < |s.ops| && s.ops[j].active ensures s.ops[j].id < s.nextId {
      assert SlotInv(s, s.ops[j]);
    }
  }

  lemma FreeLive(s: State, id: nat, other: nat)
    requires DistinctIds(s.ops)
    ensures Live(Free(s, id).ops, other) <==> Live(s.ops, other) && other != id
  {
    var i := Find(s.ops, id);
    var ops := Free(s, id).ops;
    if Live(s.ops, other) && other != id {
      var j :| 0 <= j < |s.ops| && s.ops[j].active && s.ops[j].id == other;
      assert ops[j].active && ops[j].id == other;
    }
  }

  lemma FreeSlots(s: State, id: nat, x: nat)
    requires InvDuring(s, x)
    ensures var s' := Free(s, id);
      && |s'.ops| == |s.ops| && s'.nextId == s.nextId && s'.log == s.log && s'.issued == s.issued
      && DistinctIds(s'.ops) && forall i :: 0 <= i < |s'.ops| ==> SlotInv(s', s'.ops[i])
  {
    var s' := Free(s, id);
    forall i | 0 <= i < |s'.ops| ensures SlotInv(s', s'.ops[i]) {
      assert SlotInv(s, s.ops[i]);
    }
  }

  /** The callback of a finished operation returns: its slot is given back. */
  lemma FreeEnds(s: State, x: nat)
    requires InvDuring(s, x) && 0 < x <= |s.issued|
    requires Ended(s.issued[x - 1].req.multishot, s.issued[x - 1].cqes) || s.issued[x - 1].failed
    ensures Inv(Free(s, x))
  {
    var s' := Free(s, x);
    FreeSlots(s, x, x);
    forall id | 0 < id <= |s'.issued| ensures RecordInv(s', id, 0) {
      assert RecordInv(s, id, x);
      FreeLive(s, x, id);
    }
    forall k | 0 <= k < |s'.log| ensures CallInv(s', s'.log[k]) { assert CallInv(s, s.log[k]); }
  }

  lemma SubmitKeeps(s: State, req: Request, entered: bool)
    requires Inv(s) && req.cb != 0 && s.nextId < TagBit
    ensures Inv(Submit(s, req, entered))
  {
    AllocateKeeps(s, req, 0);
    if !entered {
      var s1 := Allocate(s, req);
      var id := s.nextId;
      var s2 := s1.(issued := s1.issued[|s.issued| := s1.issued[|s.issued|].(failed := true)]);
      MarkFailed(s1, s2, id);
      FreeEnds(s2, id);
      assert Free(s2, id) == Submit(s, req, false);
    }
  }

  lemma MarkFailed(s: State, s': State, id: nat)
    requires Inv(s) && 0 < id <= |s.issued| && s.issued[id - 1].cqes == [] && !s.issued[id - 1].failed
    requires s' == s.(issued := s.issued[id - 1 := s.issued[id - 1].(failed := true)])
    ensures InvDuring(s', id)
  {
    forall i | 0 <= i < |s'.ops| ensures SlotInv(s', s'.ops[i]) { assert SlotInv(s, s.ops[i]); }
    forall other | 0 < other <= |s'.issued| ensures RecordInv(s', other, id) { assert RecordInv(s, other, 0); }
    forall k | 0 <= k < |s'.log| ensures CallInv(s', s'.log[k]) { assert CallInv(s, s.log[k]); }
  }

  lemma {:induction false} SubmitAllKeeps(s: State, reqs: seq<Request>, x: nat)
    requires InvDuring(s, x) && x <= |s.issued| && s.nextId + |reqs| <= TagBit
    requires forall k :: 0 <= k < |reqs| ==> reqs[k].cb != 0
    ensures InvDuring(SubmitAll(s, reqs), x)
    ensures |SubmitAll(s, reqs).issued| == |s.issued| + |reqs| && s.issued <= SubmitAll(s, reqs).issued
    ensures SubmitAll(s, reqs).log == s.log
    decreases |reqs|
  {
    if reqs != [] {
      AllocateKeeps(s, reqs[0], x);
      SubmitAllKeeps(Submit(s, reqs[0], true), reqs[1..], x);
    }
  }

  /** A completion whose word names no active operation changes nothing but the history. */
  lemma StrayKeeps(s: State, cqe: Cqe)
    requires Inv(s) && (IsFileOp(cqe.userData) ==> !Live(s.ops, Strip(cqe.userData)))
    ensures Inv(Witnessed(s, cqe))
  {
    var s' := Witnessed(s, cqe);
    forall i | 0 <= i < |s'.ops| ensures SlotInv(s', s'.ops[i]) { assert SlotInv(s, s.ops[i]); }
    forall id | 0 < id <= |s'.issued| ensures RecordInv(s', id, 0) { StrayRecord(s, cqe, id); }
    forall k | 0 <= k < |s'.log| ensures CallInv(s', s'.log[k]) { assert CallInv(s, s.log[k]); }
  }

  lemma StrayRecord(s: State, cqe: Cqe, id: nat)
    requires Inv(s) && 0 < id <= |s.issued| && (IsFileOp(cqe.userData) ==> !Live(s.ops, Strip(cqe.userData)))
    ensures RecordInv(Witnessed(s, cqe), id, 0)
  {
    assert RecordInv(s, id, 0);
    UntilFinalAppend(s.issued[id - 1].req, s.issued[id - 1].cqes, cqe);
  }

  /** A completion for an active operation calls its callback, once. */
  lemma InvokeKeeps(s: State, i: nat, cqe: Cqe)
    requires Inv(s) && i < |s.ops| && s.ops[i].active && cqe.userData == TagBit + s.ops[i].id
    ensures s.ops[i].id <= |s.issued| && InvDuring(Invoke(Witnessed(s, cqe), s.ops[i], cqe), s.ops[i].id)
  {
    var op := s.ops[i];
    assert SlotInv(s, op);
    var s' := Invoke(Witnessed(s, cqe), op, cqe);
    forall j | 0 <= j < |s'.ops| ensures SlotInv(s', s'.ops[j]) { assert SlotInv(s, s.ops[j]); }
    forall id | 0 < id <= |s'.issued| ensures RecordInv(s', id, op.id) { InvokeRecord(s, i, cqe, id); }
    forall k | 0 <= k < |s'.log| ensures CallInv(s', s'.log[k]) {
      if k < |s.log| { assert CallInv(s, s.log[k]); }
    }
  }

  lemma InvokeRecord(s: State, i: nat, cqe: Cqe, id: nat)
    requires Inv(s) && i < |s.ops| && s.ops[i].active && cqe.userData == TagBit + s.ops[i].id && 0 < id <= |s.issued|
    ensures RecordInv(Invoke(Witnessed(s, cqe), s.ops[i], cqe), id, s.ops[i].id)
  {
    var op, s' := s.ops[i], Invoke(Witnessed(s, cqe), s.ops[i], cqe);
    assert SlotInv(s, op) && RecordInv(s, id, 0);
    assert s'.log[..|s'.log| - 1] == s.log;
    if id == op.id {
      assert Live(s.ops, id);
      UntilFinalAppend(s.issued[id - 1].req, s.issued[id - 1].cqes, cqe);
    }
  }

  lemma CompleteKeeps(s: State, cqe: Cqe, nested: seq<Request>)
    requires Inv(s) && Enabled(s, DoComplete(cqe, nested))
    ensures Inv(Complete(s, cqe, nested))
  {
    if !IsFileOp(cqe.userData) {
      StrayKeeps(s, cqe);
    } else {
      var id := Strip(cqe.userData);
      var i := Find(s.ops, id);
      if i < 0 {
        StrayKeeps(s, cqe);
      } else {
        InvokeKeeps(s, i, cqe);
        var s1 := Invoke(Witnessed(s, cqe), s.ops[i], cqe);
        SubmitAllKeeps(s1, nested, id);
        FinishComplete(s, s1, SubmitAll(s1, nested), i, cqe);
      }
    }
  }

  lemma FinishComplete(s: State, s1: State, s2: State, i: nat, cqe: Cqe)
    requires Inv(s) && i < |s.ops| && s.ops[i].active && s.ops[i].id <= |s.issued|
    requires cqe.userData == TagBit + s.ops[i].id
    requires s1 == Invoke(Witnessed(s, cqe), s.ops[i], cqe)
    requires InvDuring(s2, s.ops[i].id) && s1.issued <= s2.issued
    ensures Inv(if Final(s.ops[i].multishot, cqe) then Free(s2, s.ops[i].id) else s2)
  {
    var id := s.ops[i].id;
    assert SlotInv(s, s.ops[i]) && Live(s.ops, id) && RecordInv(s, id, 0);
    var r := s.issued[id - 1];
    assert s2.issued[id - 1] == r.(cqes := r.cqes + [cqe]);
    UntilFinalAppend(r.req, r.cqes, cqe);
    if Final(s.ops[i].multishot, cqe) {
      FreeEnds(s2, id);
    } else {
      forall other | 0 < other <= |s2.issued| ensures RecordInv(s2, other, 0) { assert RecordInv(s2, other, id); }
    }
  }

  lemma StepKeeps(s: State, a: Action)
    requires Inv(s) && Enabled(s, a)
    ensures Inv(Step(s, a))
  {
    match a
    case DoSubmit(req, entered) => SubmitKeeps(s, req, entered);
    case DoComplete(cqe, nested) => CompleteKeeps(s, cqe, nested);
  }

  ghost predicate Legal(s: State, run: seq<Action>)
    decreases |run|
  {
    run == [] || (Enabled(s, run[0]) && Legal(Step(s, run[0]), run[1..]))
  }

  ghost function End(s: State, run: seq<Action>): (s': State)
    requires Legal(s, run)
    decreases |run|
  {
    if run == [] then s else End(Step(s, run[0]), run[1..])
  }

  lemma {:induction false} RunsKeep(s: State, run: seq<Action>)
    requires Inv(s) && Legal(s, run)
    ensures Inv(End(s, run))
    decreases |run|
  {
    if run != [] {
      StepKeeps(s, run[0]);
      RunsKeep(Step(s, run[0]), run[1..]);
    }
  }

  lemma PollChangesNothing(s: State, cqe: Cqe)
    requires Inv(s) && cqe.userData < TagBit
    ensures Witnessed(s, cqe) == s
  {
    forall i | 0 <= i < |s.issued| ensures s.issued[i].tagged != cqe.userData { assert RecordInv(s, i + 1, 0); }
    assert Witnessed(s, cqe).issued == s.issued;
  }

  /** Over any run of submits, failed submits, completions, nested submits, slot reuse and doubling:
      live ids are distinct and below the next one, each operation was handed the word 2^63 + its id, and
      the callback submitted under an id has been invoked with that submit's user data, and the buffers of
      its group, exactly for the completions carrying that word, up to and including the first final one
      (so a one-shot operation calls back at most once). A completion whose word is below 2^63 changes
      nothing. */
  lemma CompletionsReachTheirOperation(size: nat, run: seq<Action>, t: State)
    requires size > 0 && Legal(Init(size), run) && t == End(Init(size), run)
    ensures DistinctIds(t.ops) && forall i :: 0 <= i < |t.ops| && t.ops[i].active ==> 0 < t.ops[i].id < t.nextId
    ensures t.nextId == |t.issued| + 1
    ensures forall i :: 0 <= i < |t.issued| ==> t.issued[i].tagged == 0x8000_0000_0000_0000 + i + 1
    ensures forall cqe: Cqe, nested: seq<Request> :: cqe.userData < 0x8000_0000_0000_0000 ==>
              Complete(t, cqe, nested) == t
    ensures forall id :: 0 < id <= |t.issued| && !t.issued[id - 1].failed ==>
              CallsOf(t.log, id) == UntilFinal(t.issued[id - 1].req, t.issued[id - 1].cqes)
    ensures forall id :: 0 < id <= |t.issued| && (t.issued[id - 1].failed || !t.issued[id - 1].req.multishot) ==>
              |CallsOf(t.log, id)| <= 1
    ensures forall id :: 0 < id <= |t.issued| && t.issued[id - 1].failed ==> CallsOf(t.log, id) == []
    ensures forall k :: 0 <= k < |t.log| ==> CallInv(t, t.log[k])
  {
    RunsKeep(Init(size), run);
    forall cqe: Cqe, nested: seq<Request> | cqe.userData < 0x8000_0000_0000_0000
      ensures Complete(t, cqe, nested) == t
    {
      PollChangesNothing(t, cqe);
    }
    forall i | 0 <= i < |t.issued| ensures t.issued[i].tagged == 0x8000_0000_0000_0000 + i + 1 {
      assert RecordInv(t, i + 1, 0);
    }
    forall id | 0 < id <= |t.issued|
      ensures !t.issued[id - 1].failed ==>
                CallsOf(t.log, id) == UntilFinal(t.issued[id - 1].req, t.issued[id - 1].cqes)
      ensures t.issued[id - 1].failed || !t.issued[id - 1].req.multishot ==> |CallsOf(t.log, id)| <= 1
      ensures t.issued[id - 1].failed ==> CallsOf(t.log, id) == []
    {
      assert RecordInv(t, id, 0);
    }
    forall i | 0 <= i < |t.ops| && t.ops[i].active ensures 0 < t.ops[i].id < t.nextId {
      assert SlotInv(t, t.ops[i]);
    }
  }

  /** What the run submits, in order: the request, and whether the submit failed. What a callback submits
      counts if the completion reaches a live operation. */
  ghost function Submitted(s: State, run: seq<Action>): (rs: seq<(Request, bool)>)
    requires Legal(s, run)
    decreases |run|
  {
    if run == [] then []
    else SubmittedBy(s, run[0]) + Submitted(Step(s, run[0]), run[1..])
  }

  ghost function SubmittedBy(s: State, a: Action): (rs: seq<(Request, bool)>)
  {
    match a
    case DoSubmit(req, entered) => [(req, !entered)]
    case DoComplete(cqe, nested) =>
      if cqe.userData >= 0x8000_0000_0000_0000 && Live(s.ops, cqe.userData - 0x8000_0000_0000_0000) then
        Granted(nested)
      else []
  }

  function Asked(issued: seq<Record>): (rs: seq<(Request, bool)>)
  {
    seq(|issued|, i requires 0 <= i < |issued| => (issued[i].req, issued[i].failed))
  }

  lemma AskedAfterSubmit(s: State, req: Request, entered: bool)
    ensures Asked(Submit(s, req, entered).issued) == Asked(s.issued) + [(req, !entered)]
  {
    var issued := Submit(s, req, entered).issued;
    assert issued == s.issued + [Record(req, Tag(s.nextId), !entered, [])];
    assert Asked(issued)[..|s.issued|] == Asked(s.issued);
  }

  function Granted(nested: seq<Request>): (rs: seq<(Request, bool)>)
  {
    seq(|nested|, k requires 0 <= k < |nested| => (nested[k], false))
  }

  lemma {:induction false} AskedAfterAll(s: State, nested: seq<Request>)
    ensures Asked(SubmitAll(s, nested).issued) == Asked(s.issued) + Granted(nested)
    decreases |nested|
  {
    if nested != [] {
      AskedAfterSubmit(s, nested[0], true);
      AskedAfterAll(Submit(s, nested[0], true), nested[1..]);
      assert Granted(nested) == [(nested[0], false)] + Granted(nested[1..]);
      assert Asked(s.issued) + [(nested[0], false)] + Granted(nested[1..]) ==
             Asked(s.issued) + ([(nested[0], false)] + Granted(nested[1..]));
    } else {
      assert Asked(s.issued) + Granted(nested) == Asked(s.issued);
    }
  }

  lemma AskedAfterCompletion(s: State, cqe: Cqe, nested: seq<Request>)
    ensures Asked(Complete(s, cqe, nested).issued) == Asked(s.issued) + SubmittedBy(s, DoComplete(cqe, nested))
  {
    var s0 := Witnessed(s, cqe);
    assert Asked(s0.issued) == Asked(s.issued);
    if IsFileOp(cqe.userData) {
      var i := Find(s.ops, Strip(cqe.userData));
      if i >= 0 {
        assert Live(s.ops, Strip(cqe.userData));
        AskedAfterAll(Invoke(s0, s.ops[i], cqe), nested);
      }
    }
  }

  lemma AskedAfter(s: State, a: Action)
    ensures Asked(Step(s, a).issued) == Asked(s.issued) + SubmittedBy(s, a)
  {
    match a
    case DoSubmit(req, entered) => AskedAfterSubmit(s, req, entered);
    case DoComplete(cqe, nested) => AskedAfterCompletion(s, cqe, nested);
  }

  /** Every submit of the run gets the next id, in order, and is marked as failed exactly if it failed. */
  lemma {:induction false} IssuedInOrder(s: State, run: seq<Action>)
    requires Legal(s, run)
    ensures Asked(End(s, run).issued) == Asked(s.issued) + Submitted(s, run)
    decreases |run|
  {
    if run != [] {
      var first, rest := SubmittedBy(s, run[0]), Submitted(Step(s, run[0]), run[1..]);
      AskedAfter(s, run[0]);
      IssuedInOrder(Step(s, run[0]), run[1..]);
      assert Asked(s.issued) + first + rest == Asked(s.issued) + (first + rest);
    } else {
      assert Asked(s.issued) + [] == Asked(s.issued);
    }
  }
}
