/** msr_batch.c and msr-smp.c: admission of a batch and its execution by one handler per CPU. */
module Batch {
  import opened Words
  import opened AllowlistText
  import opened AllowlistSpec
  import opened AllowlistStore
  import opened Registers

  datatype Op = Op(cpu: u16, isrdmsr: u16, err: int, msr: u32, msrdata: bv64, wmask: bv64) {
    function Target(): Cell {
      Cell(cpu, msr)
    }
  }

  // ---- Admission ----

  function AdmitOp(env: Env, table: Table, op: Op): Op {
    if op.cpu !in env.online then op.(err := ENXIO)
    else if !Listed(table, op.msr) then op.(err := EACCES)
    else
      var mask := MaskOf(table, op.msr);
      op.(wmask := mask, err := if mask == 0 && op.isrdmsr == 0 then EROFS else 0)
  }

  function Admit(env: Env, table: Table, ops: seq<Op>): seq<Op> {
    seq(|ops|, i requires 0 <= i < |ops| => AdmitOp(env, table, ops[i]))
  }

  /** The code of the last op that has one, or 0. */
  function LastError(ops: seq<Op>): int {
    if ops == [] then 0
    else if ops[|ops| - 1].err != 0 then ops[|ops| - 1].err
    else LastError(ops[..|ops| - 1])
  }

  /** The code of the first op that has one, or 0. */
  function FirstError(ops: seq<Op>): int {
    if ops == [] then 0 else if ops[0].err != 0 then ops[0].err else FirstError(ops[1..])
  }

  lemma LastErrorNext(ops: seq<Op>, i: nat)
    requires i <= |ops|
    ensures LastError(ops[..0]) == 0
    ensures i < |ops| ==>
              LastError(ops[..i + 1]) == if ops[i].err != 0 then ops[i].err else LastError(ops[..i])
  {
    if i < |ops| {
      assert ops[..i + 1][..i] == ops[..i];
    }
  }

  /** The loop body of msrbatch_apply_allowlist: the op as it is left, and the code it sets, if any. */
  method AdmitOne(env: Env, list: Allowlist, input: Op) returns (op: Op, code: int)
    requires list.Valid()
    ensures op == AdmitOp(env, list.Contents(), input) && code == op.err
  {
    hide MaskOf, Listed, Allowlist.Valid;
    op := input.(err := 0);
    if op.cpu !in env.online {
      code := ENXIO;
      op := op.(err := code);
      return;
    }
    var exists_ := list.MaskExists(op.msr);
    if !exists_ {
      code := EACCES;
      op := op.(err := code);
      return;
    }
    var mask := list.WriteMask(op.msr);
    op := op.(wmask := mask);
    code := 0;
    if mask == 0 && op.isrdmsr == 0 {
      code := EROFS;
      op := op.(err := code);
    }
  }

  /** msrbatch_apply_allowlist */
  method ApplyAllowlist(env: Env, list: Allowlist, ops: array<Op>) returns (err: int)
    requires list.Valid()
    modifies ops
    ensures list.Valid() && list.Contents() == old(list.Contents())
    ensures ops[..] == Admit(env, old(list.Contents()), old(ops[..]))
    ensures err == LastError(ops[..])
  {
    hide AdmitOp, Scan, Allowlist.Valid, LastError;
    err := 0;
    var i := 0;
    LastErrorNext(ops[..], 0);
    while i < ops.Length
      invariant i <= ops.Length
      invariant list.Valid() && list.Contents() == old(list.Contents())
      invariant forall j | 0 <= j < i :: ops[j] == AdmitOp(env, old(list.Contents()), old(ops[j]))
      invariant forall j | i <= j < ops.Length :: ops[j] == old(ops[j])
      invariant err == LastError(ops[..i])
    {
      ghost var before := ops[..i];
      var code;
      ops[i], code := AdmitOne(env, list, ops[i]);
      if code != 0 {
        err := code;
      }
      assert ops[..i] == before;
      LastErrorNext(ops[..], i);
      i := i + 1;
    }
    assert ops[..] == ops[..ops.Length];
  }
}
