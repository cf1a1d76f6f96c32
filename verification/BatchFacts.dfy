/** What a batch amounts to for its caller. */
module BatchFacts {
  import opened Words
  import opened AllowlistText
  import opened AllowlistSpec
  import opened Registers
  import opened SingleAccess
  import opened Batch
  import opened BatchExec

  // ---- Admission ----

  /** The op names an online CPU and a listed address, and some bit may be written if it is a write. */
  predicate Admissible(env: Env, table: Table, op: Op) {
    op.cpu in env.online && Listed(table, op.msr) && (op.isrdmsr == 0 ==> MaskOf(table, op.msr) != 0)
  }

  /** The code of an op that is not admissible. */
  function Refusal(env: Env, table: Table, op: Op): int {
    if op.cpu !in env.online then ENXIO else if !Listed(table, op.msr) then EACCES else EROFS
  }

  lemma AdmitOpIs(env: Env, table: Table, op: Op)
    ensures Admissible(env, table, op) ==> AdmitOp(env, table, op) == op.(wmask := MaskOf(table, op.msr), err := 0)
    ensures !Admissible(env, table, op) ==>
              && AdmitOp(env, table, op).err == Refusal(env, table, op) != 0
              && AdmitOp(env, table, op) ==
                   op.(err := Refusal(env, table, op),
                       wmask := if Refusal(env, table, op) == EROFS then 0 else op.wmask)
  {
    hide MaskOf, Listed;
  }

  lemma {:induction false} LastErrorIs(ops: seq<Op>, i: nat)
    requires i < |ops| && ops[i].err != 0 && forall j | i < j < |ops| :: ops[j].err == 0
    ensures LastError(ops) == ops[i].err
  {
    if i < |ops| - 1 {
      LastErrorIs(ops[..|ops| - 1], i);
    }
  }

  lemma {:induction false} NoLastError(ops: seq<Op>)
    ensures LastError(ops) == 0 <==> forall i | 0 <= i < |ops| :: ops[i].err == 0
  {
    if ops != [] {
      NoLastError(ops[..|ops| - 1]);
    }
  }

  /** The code that execution reports is that of the failing op with the lowest index. */
  lemma {:induction false} FirstErrorIs(ops: seq<Op>, i: nat)
    requires i < |ops| && ops[i].err != 0 && forall j | 0 <= j < i :: ops[j].err == 0
    ensures FirstError(ops) == ops[i].err
  {
    if i > 0 {
      FirstErrorIs(ops[1..], i - 1);
    }
  }

  lemma {:induction false} NoFirstError(ops: seq<Op>)
    ensures FirstError(ops) == 0 <==> forall i | 0 <= i < |ops| :: ops[i].err == 0
    ensures FirstError(ops) == 0 || exists i | 0 <= i < |ops| :: FirstError(ops) == ops[i].err
  {
    if ops != [] {
      NoFirstError(ops[1..]);
    }
  }

  predicate AllAdmissible(env: Env, table: Table, ops: seq<Op>) {
    forall i | 0 <= i < |ops| :: Admissible(env, table, ops[i])
  }

  /** The ops with the masks that the allowlist has for their addresses. */
  function Granted(table: Table, ops: seq<Op>): seq<Op> {
    seq(|ops|, i requires 0 <= i < |ops| => ops[i].(wmask := MaskOf(table, ops[i].msr), err := 0))
  }

  /** Op `i` is the last one that is refused. */
  ghost predicate LastRefused(env: Env, table: Table, ops: seq<Op>, i: nat) {
    && i < |ops| && !Admissible(env, table, ops[i])
    && forall j | i < j < |ops| :: Admissible(env, table, ops[j])
  }

  lemma {:induction false} SomeLastRefused(env: Env, table: Table, ops: seq<Op>, k: nat) returns (i: nat)
    requires !AllAdmissible(env, table, ops) && k <= |ops|
    requires forall j | k <= j < |ops| :: Admissible(env, table, ops[j])
    ensures LastRefused(env, table, ops, i)
    decreases k
  {
    hide Admissible;
    if !Admissible(env, table, ops[k - 1]) {
      i := k - 1;
    } else {
      i := SomeLastRefused(env, table, ops, k - 1);
    }
  }

  /** Op `i` is the first one that is refused. */
  ghost predicate FirstRefused(env: Env, table: Table, ops: seq<Op>, i: nat) {
    && i < |ops| && !Admissible(env, table, ops[i])
    && forall j | 0 <= j < i :: Admissible(env, table, ops[j])
  }

  lemma {:induction false} SomeFirstRefused(env: Env, table: Table, ops: seq<Op>, k: nat) returns (i: nat)
    requires !AllAdmissible(env, table, ops) && k <= |ops|
    requires forall j | 0 <= j < k :: Admissible(env, table, ops[j])
    ensures FirstRefused(env, table, ops, i)
    decreases |ops| - k
  {
    hide Admissible;
    if !Admissible(env, table, ops[k]) {
      i := k;
    } else {
      i := SomeFirstRefused(env, table, ops, k + 1);
    }
  }

  /** How admission leaves an op: with its mask, or with the code of its refusal. */
  function LeftOp(env: Env, table: Table, op: Op): Op {
    if Admissible(env, table, op) then op.(err := 0, wmask := MaskOf(table, op.msr))
    else op.(err := Refusal(env, table, op), wmask := if Refusal(env, table, op) == EROFS then 0 else op.wmask)
  }

  /** One refused op stops the whole batch: no register is touched, and the last refusal is the code. */
  lemma RefusedAsAWhole(env: Env, table: Table, ops: seq<Op>, regs: Regs) returns (i: nat)
    requires !AllAdmissible(env, table, ops)
    ensures LastRefused(env, table, ops, i)
    ensures var r := BatchOutcome(env, table, ops, regs);
            && r.regs == regs && r.ret == Refusal(env, table, ops[i]) != 0
            && |r.ops| == |ops| && forall j | 0 <= j < |ops| :: r.ops[j] == LeftOp(env, table, ops[j])
  {
    hide Admissible, AdmitOp, RegsAfter, Refusal, LastError, FirstError, OpsAfter;
    i := SomeLastRefused(env, table, ops, |ops|);
    var admitted := Admit(env, table, ops);
    forall j | 0 <= j < |ops|
      ensures admitted[j] == LeftOp(env, table, ops[j])
      ensures Admissible(env, table, ops[j]) ==> admitted[j].err == 0
      ensures !Admissible(env, table, ops[j]) ==> admitted[j].err == Refusal(env, table, ops[j]) != 0
    {
      AdmitOpIs(env, table, ops[j]);
    }
    LastErrorIs(admitted, i);
  }

  /**
    * With every op admissible, each goes on with the mask that the allowlist has for its address, the batch is
    * executed as a whole, and the code is 0 if no op faults and EIO otherwise.
    */
  lemma AdmittedAsAWhole(env: Env, table: Table, ops: seq<Op>, regs: Regs)
    requires AllAdmissible(env, table, ops)
    ensures var r := BatchOutcome(env, table, ops, regs);
            var granted := Granted(table, ops);
            && r.regs == RegsAfter(env, granted, regs, |ops|)
            && r.ops == OpsAfter(env, granted, regs)
            && (r.ret == 0 || r.ret == EIO)
            && (r.ret == 0 <==> forall i | 0 <= i < |ops| :: r.ops[i].err == 0)
    ensures Unique(table) ==> forall i, k | 0 <= i < |ops| && 0 <= k < |table| && table[k].msr == ops[i].msr ::
              Granted(table, ops)[i].wmask == Bits(table[k].wmask)
  {
    hide Admissible, AdmitOp, MaskOf, Bits, RegsAfter, LastError, FirstError, OpsAfter;
    var admitted, granted := Admit(env, table, ops), Granted(table, ops);
    forall j | 0 <= j < |ops|
      ensures admitted[j] == granted[j]
    {
      AdmitOpIs(env, table, ops[j]);
    }
    assert admitted == granted;
    if Unique(table) {
      forall k | 0 <= k < |table|
        ensures MaskOf(table, table[k].msr) == Bits(table[k].wmask)
      {
        MaskIs(table, k);
      }
    }
    NoLastError(admitted);
    OnlyIo(env, table, ops, regs);
    NoFirstError(OpsAfter(env, granted, regs));
  }

  /** An executed op of an online CPU succeeds or fails with EIO. */
  lemma OnlyIo(env: Env, table: Table, ops: seq<Op>, regs: Regs)
    requires AllAdmissible(env, table, ops)
    ensures |OpsAfter(env, Granted(table, ops), regs)| == |ops|
    ensures forall i | 0 <= i < |ops| ::
              var err := OpsAfter(env, Granted(table, ops), regs)[i].err; err == 0 || err == EIO
  {
    hide Merge, MaskOf, Listed, RegsAfter;
  }

  /**
    * The code is that of the first op with an error, as documented, unless the batch is refused and its last
    * refusal has another code than its first.
    */
  lemma FirstErrorReported(env: Env, table: Table, ops: seq<Op>, regs: Regs)
    ensures var r := BatchOutcome(env, table, ops, regs);
            r.ret == FirstError(r.ops) <==>
              forall i: nat, k: nat | FirstRefused(env, table, ops, i) && LastRefused(env, table, ops, k) ::
                Refusal(env, table, ops[i]) == Refusal(env, table, ops[k])
  {
    hide Admissible, AdmitOp, RegsAfter, Refusal, LastError, FirstError, OpsAfter;
    var admitted := Admit(env, table, ops);
    forall j | 0 <= j < |ops|
      ensures Admissible(env, table, ops[j]) ==> admitted[j].err == 0
      ensures !Admissible(env, table, ops[j]) ==> admitted[j].err == Refusal(env, table, ops[j]) != 0
    {
      AdmitOpIs(env, table, ops[j]);
    }
    NoLastError(admitted);
    forall i: nat | FirstRefused(env, table, ops, i)
      ensures FirstError(admitted) == Refusal(env, table, ops[i])
    {
      FirstErrorIs(admitted, i);
    }
    forall i: nat | LastRefused(env, table, ops, i)
      ensures LastError(admitted) == Refusal(env, table, ops[i])
    {
      LastErrorIs(admitted, i);
    }
    if !AllAdmissible(env, table, ops) {
      var i := SomeFirstRefused(env, table, ops, 0);
      var k := SomeLastRefused(env, table, ops, |ops|);
    }
  }

  /**
    * A batch that is refused with another code than that of its first refused op, and does not carry out the
    * admissible write in it.
    */
  lemma LaterRefusalReported(regs: Regs)
    ensures var env := Env(_ => false, (_, _) => false, {0});
            var table := [Entry(0x10, 0x0F)];
            var ops := [Op(1, 1, 0, 0x10, 0, 0), Op(0, 0, 0, 0x10, 1, 0), Op(0, 1, 0, 0x11, 0, 0)];
            var r := BatchOutcome(env, table, ops, regs);
            && Admissible(env, table, ops[1])
            && r.ret == EACCES && FirstError(r.ops) == ENXIO && r.regs == regs
  {
    var env := Env(_ => false, (_, _) => false, {0});
    var table := [Entry(0x10, 0x0F)];
    var ops := [Op(1, 1, 0, 0x10, 0, 0), Op(0, 0, 0, 0x10, 1, 0), Op(0, 1, 0, 0x11, 0, 0)];
    ScanIs(table, 0x10, 0);
    FirstErrorIs(Admit(env, table, ops), 0);
    LastErrorIs(Admit(env, table, ops), 2);
  }

  // ---- Execution ----

  /** Register `c` may have changed, and no other. */
  ghost predicate OnlyCell(regs: Regs, regs': Regs, c: Cell) {
    forall d: Cell | d != c :: regs'[d] == regs[d]
  }

  /**
    * What executing an admitted op does: it fails with EIO, and then only says so; or it reads the register into
    * its data; or it writes its data into the register, under its mask.
    */
  lemma ExecOpIs(env: Env, op: Op, regs: Regs)
    requires op.cpu in env.online
    ensures var r := ExecOp(env, op, regs);
            var c := Cell(op.cpu, op.msr);
            && (r.op.err == 0 || r.op.err == EIO)
            && (r.op.err == EIO ==> r.op == op.(err := EIO) && r.regs == regs)
            && (r.op.err == 0 && op.isrdmsr != 0 ==> r.op == op.(err := 0, msrdata := regs[c]) && r.regs == regs)
            && (r.op.err == 0 && op.isrdmsr == 0 ==>
                  && r.op == op.(err := 0) && OnlyCell(regs, r.regs, c)
                  && Agree(r.regs[c], op.msrdata, op.wmask) && Within(r.regs[c], regs[c], op.wmask)
                  && !env.writeFault(c, r.regs[c]))
            && (env.readFault(c) ==> r.op.err == EIO)
            && (!env.readFault(c) && op.isrdmsr != 0 ==> r.op.err == 0)
            && (!env.readFault(c) && (forall v :: !env.writeFault(c, v)) ==> r.op.err == 0)
  {
    hide Merge, Agree, Within;
    MergeInside(op.wmask, op.msrdata, regs[op.Target()]);
    MergeOutside(op.wmask, op.msrdata, regs[op.Target()]);
  }

  // ---- The handlers can always finish ----

  lemma {:induction false} Finish(env: Env, x: Exec, regs: Regs, cpus: set<u16>, cpu: u16) returns (schedule: seq<u16>)
    requires forall c | c in x.pc && c !in cpus && c != cpu :: Idle(x, c)
    ensures Finished(RunHandlers(env, x, regs, schedule).exec)
    decreases cpus, if Idle(x, cpu) then 0 else |x.ops| - x.pc[cpu], if cpu in x.held then 0 else 1
  {
    hide Merge;
    if !Idle(x, cpu) {
      StepFrame(env, x, regs, cpu);
      var s := HandlerStep(env, x, regs, cpu);
      var rest := Finish(env, s.exec, s.regs, cpus, cpu);
      schedule := [cpu] + rest;
      assert schedule[1..] == rest;
    } else if cpus == {} {
      schedule := [];
    } else {
      var next :| next in cpus;
      schedule := Finish(env, x, regs, cpus - {next}, next);
    }
  }

  /** From wherever the handlers are, some schedule brings them all to the end, with the sequential result. */
  lemma HandlersFinish(env: Env, ops: seq<Op>, regs: Regs, begun: seq<u16>) returns (rest: seq<u16>)
    ensures var s := RunHandlers(env, Start(env, ops), regs, begun);
            var t := RunHandlers(env, s.exec, s.regs, rest);
            Finished(t.exec) && t.regs == RegsAfter(env, ops, regs, |ops|) && t.exec.ops == OpsAfter(env, ops, regs)
  {
    hide Inv, HandlerStep, RunHandlers, Start, Finished;
    StartBehaves(env, ops, regs);
    RunBehaves(env, ops, regs, Start(env, ops), regs, begun);
    var s := RunHandlers(env, Start(env, ops), regs, begun);
    rest := Finish(env, s.exec, s.regs, s.exec.pc.Keys, 0);
    RunBehaves(env, ops, regs, s.exec, s.regs, rest);
    var t := RunHandlers(env, s.exec, s.regs, rest);
    FinishedIsSequential(env, ops, regs, t.exec, t.regs);
  }

  // ---- Single accesses and one-op batches ----

  lemma OneOp(env: Env, table: Table, op: Op, regs: Regs)
    ensures var r := BatchOutcome(env, table, [op], regs);
            var admitted := AdmitOp(env, table, op);
            if admitted.err != 0 then r == BatchResult(admitted.err, [admitted], regs)
            else var x := ExecOp(env, admitted, regs); r == BatchResult(x.op.err, [x.op], x.regs)
  {
    hide AdmitOp, ExecOp;
    var admitted := AdmitOp(env, table, op);
    assert Admit(env, table, [op]) == [admitted];
    NoLastError([admitted]);
    if admitted.err == 0 {
      var after := ExecOp(env, admitted, regs).op;
      assert [after][1..] == [];
      assert RegsAfter(env, [admitted], regs, 0) == regs;
      assert OpsAfter(env, [admitted], regs) == [ExecOp(env, admitted, regs).op];
      assert RegsAfter(env, [admitted], regs, 1) == ExecOp(env, admitted, regs).regs;
      assert LastError([admitted]) == 0;
      assert FirstError([after]) == after.err;
      assert BatchOutcome(env, table, [op], regs).ops == [after];
      assert BatchOutcome(env, table, [op], regs).ret == after.err;
    }
  }

  /**
    * A single write and a batch of one write: the batch succeeds exactly when the single write does and the
    * register can be read, which a single write under a full mask does without. Then both leave the same
    * registers.
    */
  lemma SingleWriteIsBatch(env: Env, table: Table, regs: Regs, pos: u64, op: Op)
    requires op.msr == Truncate(pos) && op.isrdmsr == 0 && op.cpu in env.online
    ensures var single := WriteReg(env, table, regs, op.cpu, pos, op.msrdata);
            var batch := BatchOutcome(env, table, [op], regs);
            && (batch.ret == 0 <==> single.ret == 8 && !env.readFault(op.Target()))
            && (batch.ret == 0 ==> batch.regs == single.regs)
            && (batch.ret != 0 ==> batch.regs == regs)
  {
    hide MaskOf, Merge, BatchOutcome;
    OneOp(env, table, op, regs);
    NoMaskUnlisted(table, op.msr);
  }

  /** A single read and a batch of one read agree on success and on the word read. */
  lemma SingleReadIsBatch(env: Env, table: Table, regs: Regs, pos: u64, op: Op)
    requires op.msr == Truncate(pos) && op.isrdmsr != 0 && op.cpu in env.online
    ensures var single := ReadReg(env, table, regs, op.cpu, pos);
            var batch := BatchOutcome(env, table, [op], regs);
            && batch.regs == regs && |batch.ops| == 1
            && match single
               case Ok(v) => batch.ret == 0 && batch.ops[0].msrdata == v
               case Err(code) => batch.ret == code
  {
    hide MaskOf, Merge, BatchOutcome, Listed;
    OneOp(env, table, op, regs);
  }
}
