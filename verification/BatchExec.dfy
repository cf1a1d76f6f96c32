/**
  * msr-smp.c: the handlers of one batch. Each CPU's handler walks the whole op array and executes the ops of
  * that CPU; the handlers run concurrently. A step is one register read or one register write.
  */
module BatchExec {
  import opened Words
  import opened AllowlistText
  import opened AllowlistStore
  import opened Registers
  import opened Batch

  datatype OpResult = OpResult(op: Op, regs: Regs)

  // ---- Reference: one pass in array order ----

  /** An admitted op, executed in one go. No handler runs on a CPU that is offline. */
  function ExecOp(env: Env, op: Op, regs: Regs): OpResult {
    var c := op.Target();
    if op.cpu !in env.online then OpResult(op, regs)
    else if env.readFault(c) then OpResult(op.(err := EIO), regs)
    else if op.isrdmsr != 0 then OpResult(op.(err := 0, msrdata := regs[c]), regs)
    else
      var v := Merge(op.wmask, op.msrdata, regs[c]);
      if env.writeFault(c, v) then OpResult(op.(err := EIO), regs) else OpResult(op.(err := 0), regs[c := v])
  }

  /** The registers after the first `k` ops. */
  function RegsAfter(env: Env, ops: seq<Op>, regs: Regs, k: nat): Regs
    requires k <= |ops|
  {
    if k == 0 then regs else ExecOp(env, ops[k - 1], RegsAfter(env, ops, regs, k - 1)).regs
  }

  /** What op `i` looks like after the pass. */
  function OpAfter(env: Env, ops: seq<Op>, regs: Regs, i: nat): Op
    requires i < |ops|
  {
    ExecOp(env, ops[i], RegsAfter(env, ops, regs, i)).op
  }

  function OpsAfter(env: Env, ops: seq<Op>, regs: Regs): seq<Op> {
    seq(|ops|, i requires 0 <= i < |ops| => OpAfter(env, ops, regs, i))
  }

  // ---- The handlers as a step system ----

  /** A running batch: the op array, each handler's position, and the words handlers have read to merge into. */
  datatype Exec = Exec(ops: seq<Op>, pc: map<u16, nat>, held: map<u16, bv64>)

  datatype Step = Step(exec: Exec, regs: Regs)

  /** The handlers start on the online CPUs that some op names. */
  function Start(env: Env, ops: seq<Op>): Exec {
    Exec(ops, map op | op in ops && op.cpu in env.online :: op.cpu := 0, map[])
  }

  /** Handler `cpu` is done, or does not exist. */
  predicate Idle(x: Exec, cpu: u16) {
    cpu !in x.pc || x.pc[cpu] >= |x.ops|
  }

  predicate Finished(x: Exec) {
    forall cpu | cpu in x.pc :: x.pc[cpu] >= |x.ops|
  }

  /** The next step of handler `cpu`; nothing if it is idle. */
  function HandlerStep(env: Env, x: Exec, regs: Regs, cpu: u16): Step {
    if Idle(x, cpu) then
      Step(x, regs)
    else
      var p := x.pc[cpu];
      var op := x.ops[p];
      var c := op.Target();
      var on := x.pc[cpu := p + 1];
      if op.cpu != cpu then
        Step(x.(pc := on), regs)
      else if cpu !in x.held then
        if env.readFault(c) then
          Step(x.(ops := x.ops[p := op.(err := EIO)], pc := on), regs)
        else if op.isrdmsr != 0 then
          Step(x.(ops := x.ops[p := op.(err := 0, msrdata := regs[c])], pc := on), regs)
        else
          Step(x.(ops := x.ops[p := op.(err := 0)], held := x.held[cpu := regs[c]]), regs)
      else
        var v := Merge(op.wmask, op.msrdata, x.held[cpu]);
        var y := x.(pc := on, held := x.held - {cpu});
        if env.writeFault(c, v) then
          Step(y.(ops := x.ops[p := op.(err := EIO)]), regs)
        else
          Step(y, regs[c := v])
  }

  /** The handlers take turns as `schedule` says. */
  function RunHandlers(env: Env, x: Exec, regs: Regs, schedule: seq<u16>): Step
    decreases |schedule|
  {
    if schedule == [] then Step(x, regs)
    else
      var s := HandlerStep(env, x, regs, schedule[0]);
      RunHandlers(env, s.exec, s.regs, schedule[1..])
  }

  // ---- Confluence ----

  /** How far a handler is: the part of the sequential pass that concerns its CPU. */
  ghost predicate Behaved(env: Env, ops: seq<Op>, regs0: Regs, x: Exec, regs: Regs, cpu: u16) {
    if cpu in x.pc then
      var p := x.pc[cpu];
      && p <= |ops|
      && (forall m: u32 :: regs[Cell(cpu, m)] == RegsAfter(env, ops, regs0, p)[Cell(cpu, m)])
      && (cpu in x.held ==>
            && p < |ops| && ops[p].cpu == cpu && ops[p].isrdmsr == 0
            && !env.readFault(ops[p].Target()) && x.held[cpu] == regs[ops[p].Target()])
    else
      forall m: u32 :: regs[Cell(cpu, m)] == regs0[Cell(cpu, m)]
  }

  /** What the handlers have made of op `i` so far. */
  ghost predicate BehavedOp(env: Env, ops: seq<Op>, regs0: Regs, x: Exec, i: nat)
    requires i < |ops| == |x.ops|
  {
    var cpu := ops[i].cpu;
    if cpu in x.pc && i < x.pc[cpu] then x.ops[i] == OpAfter(env, ops, regs0, i)
    else if cpu in x.pc && i == x.pc[cpu] && cpu in x.held then x.ops[i] == ops[i].(err := 0)
    else x.ops[i] == ops[i]
  }

  ghost predicate Inv(env: Env, ops: seq<Op>, regs0: Regs, x: Exec, regs: Regs) {
    && |x.ops| == |ops|
    && (forall cpu: u16 :: cpu in x.pc <==> cpu in Start(env, ops).pc)
    && (forall cpu: u16 :: Behaved(env, ops, regs0, x, regs, cpu))
    && (forall i | 0 <= i < |ops| :: BehavedOp(env, ops, regs0, x, i))
  }

  /** Handler `cpu` is at work, and it and the op it is at are as they should be. */
  ghost predicate At(env: Env, ops: seq<Op>, regs0: Regs, x: Exec, regs: Regs, cpu: u16) {
    && |x.ops| == |ops| && !Idle(x, cpu)
    && Behaved(env, ops, regs0, x, regs, cpu)
    && BehavedOp(env, ops, regs0, x, x.pc[cpu])
  }

  lemma StartBehaves(env: Env, ops: seq<Op>, regs: Regs)
    ensures Inv(env, ops, regs, Start(env, ops), regs)
  {}

  /** A handler touches its own position, its own op and registers of its own CPU. */
  lemma StepFrame(env: Env, x: Exec, regs: Regs, cpu: u16)
    requires !Idle(x, cpu)
    ensures var s := HandlerStep(env, x, regs, cpu);
            var p := x.pc[cpu];
            && s.exec.pc.Keys == x.pc.Keys && |s.exec.ops| == |x.ops|
            && (s.exec.pc[cpu] == p || s.exec.pc[cpu] == p + 1)
            && (forall c | c in x.pc && c != cpu :: s.exec.pc[c] == x.pc[c])
            && (forall c | c != cpu :: c in s.exec.held <==> c in x.held)
            && (forall c | c != cpu && c in x.held :: s.exec.held[c] == x.held[c])
            && (forall i | 0 <= i < |x.ops| && i != p :: s.exec.ops[i] == x.ops[i])
            && (x.ops[p].cpu != cpu ==> s.exec.ops[p] == x.ops[p])
            && (x.ops[p].cpu == cpu && s.exec.pc[cpu] == p + 1 ==> cpu !in s.exec.held)
            && (x.ops[p].cpu != cpu && cpu !in x.held ==> cpu !in s.exec.held)
            && (forall c: Cell | c.cpu != cpu :: s.regs[c] == regs[c])
  {
    hide Merge;
  }

  lemma OthersBehave(env: Env, ops: seq<Op>, regs0: Regs, x: Exec, regs: Regs, cpu: u16, other: u16)
    requires !Idle(x, cpu) && Behaved(env, ops, regs0, x, regs, other) && other != cpu
    ensures var s := HandlerStep(env, x, regs, cpu); Behaved(env, ops, regs0, s.exec, s.regs, other)
  {
    hide Merge, ExecOp, HandlerStep;
    StepFrame(env, x, regs, cpu);
  }

  lemma OpAfterKeeps(env: Env, ops: seq<Op>, regs: Regs, i: nat)
    requires i < |ops|
    ensures OpAfter(env, ops, regs, i).cpu == ops[i].cpu
  {}

  lemma OtherOpsBehave(env: Env, ops: seq<Op>, regs0: Regs, x: Exec, regs: Regs, cpu: u16, i: nat)
    requires At(env, ops, regs0, x, regs, cpu) && i < |ops| && BehavedOp(env, ops, regs0, x, i)
    requires i != x.pc[cpu] || ops[i].cpu != cpu
    ensures var s := HandlerStep(env, x, regs, cpu); BehavedOp(env, ops, regs0, s.exec, i)
  {
    hide Merge, ExecOp, HandlerStep, OpAfter, RegsAfter;
    StepFrame(env, x, regs, cpu);
    var p := x.pc[cpu];
    OpAfterKeeps(env, ops, regs0, p);
    assert x.ops[p].cpu == ops[p].cpu;
  }

  /** The handler passes over an op of another CPU. */
  lemma SelfSkips(env: Env, ops: seq<Op>, regs0: Regs, x: Exec, regs: Regs, cpu: u16)
    requires At(env, ops, regs0, x, regs, cpu) && ops[x.pc[cpu]].cpu != cpu
    ensures var s := HandlerStep(env, x, regs, cpu); Behaved(env, ops, regs0, s.exec, s.regs, cpu)
  {
    hide Merge, OpAfter;
    var p := x.pc[cpu];
    OpAfterKeeps(env, ops, regs0, p);
  }

  /** The handler reads the register of its own op. */
  lemma SelfReads(env: Env, ops: seq<Op>, regs0: Regs, x: Exec, regs: Regs, cpu: u16)
    requires At(env, ops, regs0, x, regs, cpu) && ops[x.pc[cpu]].cpu == cpu && cpu !in x.held
    requires cpu in env.online
    ensures var s := HandlerStep(env, x, regs, cpu);
            Behaved(env, ops, regs0, s.exec, s.regs, cpu) && BehavedOp(env, ops, regs0, s.exec, x.pc[cpu])
  {
    hide Merge;
    var p := x.pc[cpu];
    assert regs[ops[p].Target()] == RegsAfter(env, ops, regs0, p)[ops[p].Target()];
  }

  /** The handler merges into the word it holds and writes it back. */
  lemma SelfWrites(env: Env, ops: seq<Op>, regs0: Regs, x: Exec, regs: Regs, cpu: u16)
    requires At(env, ops, regs0, x, regs, cpu) && ops[x.pc[cpu]].cpu == cpu && cpu in x.held
    requires cpu in env.online
    ensures var s := HandlerStep(env, x, regs, cpu);
            Behaved(env, ops, regs0, s.exec, s.regs, cpu) && BehavedOp(env, ops, regs0, s.exec, x.pc[cpu])
  {
    hide Merge;
    var p := x.pc[cpu];
    assert regs[ops[p].Target()] == RegsAfter(env, ops, regs0, p)[ops[p].Target()];
  }

  lemma StepBehaves(env: Env, ops: seq<Op>, regs0: Regs, x: Exec, regs: Regs, cpu: u16)
    requires Inv(env, ops, regs0, x, regs)
    ensures var s := HandlerStep(env, x, regs, cpu); Inv(env, ops, regs0, s.exec, s.regs)
  {
    hide Behaved, BehavedOp, HandlerStep;
    if Idle(x, cpu) {
      IdleStep(env, x, regs, cpu);
    } else {
      StepFrame(env, x, regs, cpu);
      var p := x.pc[cpu];
      assert At(env, ops, regs0, x, regs, cpu);
      OnlineHandlers(env, ops, regs0, x, regs, cpu);
      if ops[p].cpu != cpu {
        SelfSkips(env, ops, regs0, x, regs, cpu);
        OtherOpsBehave(env, ops, regs0, x, regs, cpu, p);
      } else if cpu !in x.held {
        SelfReads(env, ops, regs0, x, regs, cpu);
      } else {
        SelfWrites(env, ops, regs0, x, regs, cpu);
      }
      forall other: u16 | other != cpu
        ensures var s := HandlerStep(env, x, regs, cpu); Behaved(env, ops, regs0, s.exec, s.regs, other)
      {
        OthersBehave(env, ops, regs0, x, regs, cpu, other);
      }
      forall i | 0 <= i < |ops| && i != x.pc[cpu]
        ensures var s := HandlerStep(env, x, regs, cpu); BehavedOp(env, ops, regs0, s.exec, i)
      {
        OtherOpsBehave(env, ops, regs0, x, regs, cpu, i);
      }
    }
  }

  lemma OnlineHandlers(env: Env, ops: seq<Op>, regs0: Regs, x: Exec, regs: Regs, cpu: u16)
    requires Inv(env, ops, regs0, x, regs) && cpu in x.pc
    ensures cpu in env.online
  {}

  lemma IdleStep(env: Env, x: Exec, regs: Regs, cpu: u16)
    requires Idle(x, cpu)
    ensures HandlerStep(env, x, regs, cpu) == Step(x, regs)
  {}

  lemma {:induction false} RunBehaves(env: Env, ops: seq<Op>, regs0: Regs, x: Exec, regs: Regs, schedule: seq<u16>)
    requires Inv(env, ops, regs0, x, regs)
    ensures var s := RunHandlers(env, x, regs, schedule); Inv(env, ops, regs0, s.exec, s.regs)
    decreases |schedule|
  {
    hide Inv, HandlerStep;
    if schedule != [] {
      var s := HandlerStep(env, x, regs, schedule[0]);
      StepBehaves(env, ops, regs0, x, regs, schedule[0]);
      RunBehaves(env, ops, regs0, s.exec, s.regs, schedule[1..]);
    }
  }

  /** Registers of a CPU that no op names do not change in the sequential pass. */
  lemma {:induction false} UnnamedCpu(env: Env, ops: seq<Op>, regs: Regs, k: nat, c: Cell)
    requires k <= |ops| && c.cpu !in Start(env, ops).pc
    ensures RegsAfter(env, ops, regs, k)[c] == regs[c]
  {
    hide Merge;
    if k > 0 {
      UnnamedCpu(env, ops, regs, k - 1, c);
      assert ops[k - 1] in ops;
    }
  }

  /** When all handlers have come to their end, the registers and ops are those of one pass in array order. */
  lemma FinishedIsSequential(env: Env, ops: seq<Op>, regs0: Regs, x: Exec, regs: Regs)
    requires Inv(env, ops, regs0, x, regs) && Finished(x)
    ensures regs == RegsAfter(env, ops, regs0, |ops|) && x.ops == OpsAfter(env, ops, regs0)
  {
    hide Merge, ExecOp;
    var last := RegsAfter(env, ops, regs0, |ops|);
    forall c: Cell
      ensures regs[c] == last[c]
    {
      assert Behaved(env, ops, regs0, x, regs, c.cpu);
      if c.cpu !in x.pc {
        UnnamedCpu(env, ops, regs0, |ops|, c);
      }
    }
    forall i | 0 <= i < |ops|
      ensures x.ops[i] == OpAfter(env, ops, regs0, i)
    {
      assert BehavedOp(env, ops, regs0, x, i);
      OfflineOp(env, ops, regs0, i);
    }
  }

  lemma OfflineOp(env: Env, ops: seq<Op>, regs: Regs, i: nat)
    requires i < |ops|
    ensures ops[i].cpu !in env.online ==> OpAfter(env, ops, regs, i) == ops[i]
    ensures ops[i].cpu in env.online ==> ops[i].cpu in Start(env, ops).pc
  {
    assert ops[i] in ops;
  }

  /** Every schedule that lets the handlers finish has the result of the sequential pass. */
  lemma Confluence(env: Env, ops: seq<Op>, regs: Regs, schedule: seq<u16>)
    ensures var s := RunHandlers(env, Start(env, ops), regs, schedule);
            Finished(s.exec) ==>
              && s.regs == RegsAfter(env, ops, regs, |ops|)
              && s.exec.ops == OpsAfter(env, ops, regs)
              && FirstError(s.exec.ops) == FirstError(OpsAfter(env, ops, regs))
  {
    hide Inv, HandlerStep, RunHandlers, Start;
    StartBehaves(env, ops, regs);
    RunBehaves(env, ops, regs, Start(env, ops), regs, schedule);
    var s := RunHandlers(env, Start(env, ops), regs, schedule);
    if Finished(s.exec) {
      FinishedIsSequential(env, ops, regs, s.exec, s.regs);
    }
  }

  // ---- The driver ----

  /** What a handler leaves of the state of the others: its own position is at the end, theirs are unchanged. */
  ghost predicate Moved(x: Exec, y: Exec, cpu: u16, k: nat) {
    y.pc == x.pc[cpu := k] && y.held == x.held && |y.ops| == |x.ops|
  }

  /** The loop body of __msr_safe_batch for an op of this CPU: one step of the system, or two with a write. */
  method HandleOp(m: Machine, ops: array<Op>, i: nat, cpu: u16, ghost x: Exec) returns (ghost y: Exec, ghost w: Exec)
    requires cpu in x.pc && x.pc[cpu] == i < ops.Length && cpu !in x.held
    requires ops[..] == x.ops && ops[i].cpu == cpu
    modifies m, ops
    ensures y == HandlerStep(m.env, x, old(m.regs), cpu).exec
    ensures cpu in y.pc && (y.pc[cpu] == i || y.pc[cpu] == i + 1)
    ensures ops[..] == w.ops && Moved(x, w, cpu, i + 1)
    ensures if y.pc[cpu] == i + 1 then w == y && m.regs == HandlerStep(m.env, x, old(m.regs), cpu).regs
            else var s := HandlerStep(m.env, y, old(m.regs), cpu); w == s.exec && m.regs == s.regs
    ensures y.pc[cpu] == i ==> HandlerStep(m.env, x, old(m.regs), cpu).regs == old(m.regs)
  {
    hide Merge;
    y := HandlerStep(m.env, x, m.regs, cpu).exec;
    w := y;
    ops[i] := ops[i].(err := 0);
    var fault, oldmsr := m.Rdmsr(ops[i].Target());
    if fault {
      ops[i] := ops[i].(err := EIO);
      return;
    }
    if ops[i].isrdmsr != 0 {
      ops[i] := ops[i].(msrdata := oldmsr);
      return;
    }
    w := HandlerStep(m.env, y, m.regs, cpu).exec;
    var newmsr := MergeWords(ops[i].wmask, ops[i].msrdata, oldmsr);
    fault := m.Wrmsr(ops[i].Target(), newmsr);
    if fault {
      ops[i] := ops[i].(err := EIO);
    }
  }

  /** __msr_safe_batch on CPU `cpu`, as a part of the step system that leaves the other handlers alone. */
  method Handler(m: Machine, ops: array<Op>, cpu: u16, ghost ops0: seq<Op>, ghost regs0: Regs, ghost x: Exec)
    returns (ghost y: Exec)
    requires Inv(m.env, ops0, regs0, x, m.regs) && ops[..] == x.ops
    requires cpu in x.pc && x.pc[cpu] == 0 && cpu !in x.held
    modifies m, ops
    ensures Inv(m.env, ops0, regs0, y, m.regs) && ops[..] == y.ops
    ensures Moved(x, y, cpu, ops.Length)
  {
    hide Inv, HandlerStep;
    y := x;
    var i := 0;
    while i < ops.Length
      invariant i <= ops.Length
      invariant Inv(m.env, ops0, regs0, y, m.regs) && ops[..] == y.ops
      invariant Moved(x, y, cpu, i)
    {
      StepBehaves(m.env, ops0, regs0, y, m.regs, cpu);
      if ops[i].cpu != cpu {
        StepOver(m.env, y, m.regs, cpu);
        y := HandlerStep(m.env, y, m.regs, cpu).exec;
      } else {
        ghost var before := m.regs;
        ghost var z;
        z, y := HandleOp(m, ops, i, cpu, y);
        if z.pc[cpu] == i {
          StepBehaves(m.env, ops0, regs0, z, before, cpu);
        }
      }
      i := i + 1;
    }
  }

  lemma StepOver(env: Env, x: Exec, regs: Regs, cpu: u16)
    requires !Idle(x, cpu) && x.ops[x.pc[cpu]].cpu != cpu
    ensures HandlerStep(env, x, regs, cpu) == Step(x.(pc := x.pc[cpu := x.pc[cpu] + 1]), regs)
  {}

  /** The merge of a batch write. */
  method MergeWords(wmask: bv64, msrdata: bv64, oldmsr: bv64) returns (newmsr: bv64)
    ensures Agree(newmsr, msrdata, wmask) && Within(newmsr, oldmsr, wmask)
    ensures newmsr == Merge(wmask, msrdata, oldmsr)
  {
    newmsr := msrdata & wmask;
    newmsr := newmsr | (oldmsr & !wmask);
    MergeBits(wmask, msrdata, oldmsr, newmsr);
  }

  /** The CPUs that some op names. */
  method CpuMask(ops: array<Op>) returns (cpus: set<u16>)
    ensures forall c :: c in cpus <==> exists op | op in ops[..] :: op.cpu == c
  {
    cpus := {};
    for i := 0 to ops.Length
      invariant forall c :: c in cpus <==> exists op | op in ops[..i] :: op.cpu == c
    {
      cpus := cpus + {ops[i].cpu};
      assert ops[..i + 1] == ops[..i] + [ops[i]];
    }
    assert ops[..ops.Length] == ops[..];
  }

  /** on_each_cpu_mask: the handlers of the waiting CPUs, in any order. */
  method OnEachCpu(m: Machine, ops: array<Op>, cpus: set<u16>, ghost ops0: seq<Op>, ghost regs0: Regs)
    returns (ghost x: Exec)
    requires ops[..] == ops0 && m.regs == regs0 && cpus == Start(m.env, ops0).pc.Keys
    modifies m, ops
    ensures Inv(m.env, ops0, regs0, x, m.regs) && ops[..] == x.ops && Finished(x)
  {
    hide Inv, HandlerStep, Start;
    x := Start(m.env, ops0);
    StartBehaves(m.env, ops0, regs0);
    StartFacts(m.env, ops0);
    var waiting := cpus;
    while waiting != {}
      invariant Inv(m.env, ops0, regs0, x, m.regs) && ops[..] == x.ops && x.held == map[]
      invariant forall c | c in waiting :: c in x.pc && x.pc[c] == 0
      invariant forall c | c in x.pc && c !in waiting :: x.pc[c] == ops.Length
      decreases waiting
    {
      var cpu :| cpu in waiting;
      x := Handler(m, ops, cpu, ops0, regs0, x);
      waiting := waiting - {cpu};
    }
  }

  lemma StartFacts(env: Env, ops: seq<Op>)
    ensures var x := Start(env, ops);
            x.ops == ops && x.held == map[] && forall c | c in x.pc :: x.pc[c] == 0
  {}

  /** msr_safe_batch. Whatever the order of the handlers, the result is that of one pass in array order. */
  method MsrSafeBatch(m: Machine, ops: array<Op>) returns (err: int)
    modifies m, ops
    ensures m.regs == RegsAfter(m.env, old(ops[..]), old(m.regs), ops.Length)
    ensures ops[..] == OpsAfter(m.env, old(ops[..]), old(m.regs))
    ensures err == FirstError(ops[..])
  {
    hide Inv, HandlerStep, RegsAfter, OpAfter, FirstError, Finished;
    ghost var ops0, regs0 := ops[..], m.regs;
    var cpus := CpuMask(ops);
    assert cpus * m.env.online == Start(m.env, ops0).pc.Keys;
    ghost var x := OnEachCpu(m, ops, cpus * m.env.online, ops0, regs0);
    FinishedIsSequential(m.env, ops0, regs0, x, m.regs);
    err := ReportError(ops);
  }

  /** The loop that picks the return code. */
  method ReportError(ops: array<Op>) returns (err: int)
    ensures err == FirstError(ops[..])
  {
    var i := 0;
    while i < ops.Length
      invariant i <= ops.Length
      invariant FirstError(ops[..]) == FirstError(ops[i..])
    {
      if ops[i].err != 0 {
        return ops[i].err;
      }
      i := i + 1;
    }
    return 0;
  }

  // ---- The ioctl ----

  datatype BatchResult = BatchResult(ret: int, ops: seq<Op>, regs: Regs)

  /** A batch as one step: refused as a whole, or executed as a whole. */
  function BatchOutcome(env: Env, table: Table, ops: seq<Op>, regs: Regs): BatchResult {
    var admitted := Admit(env, table, ops);
    if LastError(admitted) != 0 then
      BatchResult(LastError(admitted), admitted, regs)
    else
      var after := OpsAfter(env, admitted, regs);
      BatchResult(FirstError(after), after, RegsAfter(env, admitted, regs, |ops|))
  }

  /** msrbatch_ioctl behind the checks of its arguments: `ops` is the copy made for the kernel. */
  method MsrBatchIoctl(m: Machine, list: Allowlist, ops: array<Op>) returns (err: int)
    requires list.Valid()
    modifies m, ops
    ensures BatchResult(err, ops[..], m.regs) == BatchOutcome(m.env, old(list.Contents()), old(ops[..]), old(m.regs))
  {
    hide RegsAfter, OpAfter, FirstError, LastError, AdmitOp;
    err := ApplyAllowlist(m.env, list, ops);
    if err != 0 {
      return;
    }
    err := MsrSafeBatch(m, ops);
  }
}
