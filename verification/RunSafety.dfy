/** Bits that no installed allowlist makes writable keep their value, whatever the interleaving. */
module RunSafety {
  import opened Words
  import opened AllowlistSpec
  import opened Registers
  import opened Batch
  import opened BatchExec
  import opened ModuleRuns

  /** The call was granted none of `bits` of register `c`, and holds their value `v`. */
  ghost predicate WriterSafe(w: Writer, c: Cell, bits: bv64, v: bv64) {
    w.cell == c ==>
      match w
      case Asking(_, _) => true
      case Granted(_, mask, _) => Disjoint(mask, bits)
      case Holding(_, mask, _, stale) => Disjoint(mask, bits) && Agree(stale, v, bits)
  }

  ghost predicate OpSafe(op: Op, c: Cell, bits: bv64) {
    op.Target() == c ==> Disjoint(op.wmask, bits)
  }

  ghost predicate HeldSafe(x: Exec, cpu: u16, c: Cell, bits: bv64, v: bv64) {
    cpu in x.held ==>
      && cpu in x.pc && x.pc[cpu] < |x.ops| && x.ops[x.pc[cpu]].cpu == cpu
      && (x.ops[x.pc[cpu]].Target() == c ==> Agree(x.held[cpu], v, bits))
  }

  ghost predicate ExecSafe(x: Exec, c: Cell, bits: bv64, v: bv64) {
    && (forall j | 0 <= j < |x.ops| :: OpSafe(x.ops[j], c, bits))
    && (forall cpu: u16 :: HeldSafe(x, cpu, c, bits, v))
  }

  ghost predicate BatcherSafe(b: Batcher, c: Cell, bits: bv64, v: bv64) {
    match b
    case Admitting(ops, i, err, _) => i <= |ops| && (err == 0 ==> forall j | 0 <= j < i :: OpSafe(ops[j], c, bits))
    case Executing(x) => ExecSafe(x, c, bits, v)
  }

  ghost predicate Safe(s: State, c: Cell, bits: bv64, v: bv64) {
    && Agree(s.regs[c], v, bits)
    && (forall id | id in s.writers :: WriterSafe(s.writers[id], c, bits, v))
    && (forall id | id in s.batches :: BatcherSafe(s.batches[id], c, bits, v))
  }

  /** No bit of `bits` is writable in register `c` under the current allowlist. */
  predicate Withheld(s: State, c: Cell, bits: bv64) {
    Disjoint(MaskOf(s.table, c.msr), bits)
  }

  // ---- Single writes ----

  lemma StoreSafe(env: Env, s: State, id: nat, c: Cell, bits: bv64, v: bv64)
    requires Safe(s, c, bits, v) && id in s.writers
    requires s.writers[id].Holding? || (s.writers[id].Granted? && s.writers[id].mask == FULL)
    ensures Safe(DoStore(env, s, id, s.writers[id]), c, bits, v)
  {
    hide MaskOf, Merge, Agree, Disjoint, BatcherSafe;
    var w := s.writers[id];
    assert WriterSafe(w, c, bits, v);
    if w.cell == c {
      if w.Holding? {
        MergeKeeps(w.mask, w.data, w.stale, bits);
        AgreeTrans(Merge(w.mask, w.data, w.stale), w.stale, v, bits);
      } else {
        DisjointFromFull(w.data, v, bits);
      }
    }
  }

  lemma LookupSafe(s: State, id: nat, c: Cell, bits: bv64, v: bv64)
    requires Safe(s, c, bits, v) && Withheld(s, c, bits) && id in s.writers
    ensures Safe(DoLookup(s, id, s.writers[id]), c, bits, v)
  {
    hide MaskOf, Agree, Disjoint, BatcherSafe;
  }

  lemma LoadSafe(env: Env, s: State, id: nat, c: Cell, bits: bv64, v: bv64)
    requires Safe(s, c, bits, v) && id in s.writers && s.writers[id].Granted?
    ensures Safe(DoLoad(env, s, id, s.writers[id]), c, bits, v)
  {
    hide Agree, Disjoint, BatcherSafe;
    assert WriterSafe(s.writers[id], c, bits, v);
  }

  // ---- Batches ----

  lemma CheckSafe(env: Env, s: State, b: Batcher, c: Cell, bits: bv64, v: bv64)
    requires b.Admitting? && b.i < |b.ops| && BatcherSafe(b, c, bits, v)
    ensures BatcherSafe(DoCheck(env, s, b), c, bits, v)
  {
    hide Disjoint, Listed;
  }

  lemma GrantSafe(s: State, b: Batcher, c: Cell, bits: bv64, v: bv64)
    requires b.Admitting? && b.i < |b.ops| && BatcherSafe(b, c, bits, v) && Withheld(s, c, bits)
    ensures BatcherSafe(DoGrant(s, b), c, bits, v)
  {
    hide Disjoint, MaskOf;
  }

  lemma BeginSafe(env: Env, ops: seq<Op>, c: Cell, bits: bv64, v: bv64)
    requires forall j | 0 <= j < |ops| :: OpSafe(ops[j], c, bits)
    ensures ExecSafe(Start(env, ops), c, bits, v)
  {}

  lemma HandleOthers(env: Env, x: Exec, regs: Regs, cpu: u16, other: u16, c: Cell, bits: bv64, v: bv64)
    requires !Idle(x, cpu) && other != cpu && HeldSafe(x, other, c, bits, v)
    ensures HeldSafe(HandlerStep(env, x, regs, cpu).exec, other, c, bits, v)
  {
    hide Agree, HandlerStep;
    StepFrame(env, x, regs, cpu);
  }

  /** The word a handler writes keeps the bits that its op was not granted. */
  lemma HandlerWrites(env: Env, x: Exec, regs: Regs, cpu: u16, c: Cell, bits: bv64, v: bv64)
    requires !Idle(x, cpu) && HeldSafe(x, cpu, c, bits, v) && OpSafe(x.ops[x.pc[cpu]], c, bits)
    requires Agree(regs[c], v, bits)
    ensures Agree(HandlerStep(env, x, regs, cpu).regs[c], v, bits)
  {
    hide Disjoint, Agree, Merge;
    var op := x.ops[x.pc[cpu]];
    if cpu in x.held && op.Target() == c {
      MergeKeeps(op.wmask, op.msrdata, x.held[cpu], bits);
      AgreeTrans(Merge(op.wmask, op.msrdata, x.held[cpu]), x.held[cpu], v, bits);
    }
  }

  lemma HandleSelf(env: Env, x: Exec, regs: Regs, cpu: u16, c: Cell, bits: bv64, v: bv64)
    requires !Idle(x, cpu) && HeldSafe(x, cpu, c, bits, v) && OpSafe(x.ops[x.pc[cpu]], c, bits)
    requires Agree(regs[c], v, bits)
    ensures var r := HandlerStep(env, x, regs, cpu);
            HeldSafe(r.exec, cpu, c, bits, v) && OpSafe(r.exec.ops[x.pc[cpu]], c, bits)
  {
    hide Disjoint, Agree, Merge;
  }

  lemma HandleSafe(env: Env, x: Exec, regs: Regs, cpu: u16, c: Cell, bits: bv64, v: bv64)
    requires ExecSafe(x, c, bits, v) && Agree(regs[c], v, bits)
    ensures var r := HandlerStep(env, x, regs, cpu); ExecSafe(r.exec, c, bits, v) && Agree(r.regs[c], v, bits)
  {
    hide Agree, HandlerStep, HeldSafe, OpSafe;
    if Idle(x, cpu) {
      IdleStep(env, x, regs, cpu);
    } else {
      StepFrame(env, x, regs, cpu);
      HandleSelf(env, x, regs, cpu, c, bits, v);
      HandlerWrites(env, x, regs, cpu, c, bits, v);
      forall other: u16 | other != cpu
        ensures HeldSafe(HandlerStep(env, x, regs, cpu).exec, other, c, bits, v)
      {
        HandleOthers(env, x, regs, cpu, other, c, bits, v);
      }
    }
  }

  // ---- Runs ----

  lemma StepSafe(env: Env, s: State, e: Event, c: Cell, bits: bv64, v: bv64)
    requires Safe(s, c, bits, v) && Withheld(s, c, bits)
    ensures Safe(React(env, s, e), c, bits, v)
  {
    hide Agree, Withheld, WriteOutcome, Stored, Start, DoStore, DoLookup, DoLoad, DoCheck, DoGrant, HandlerStep,
         ExecSafe;
    match e {
      case Lookup(id) =>
        if id in s.writers { LookupSafe(s, id, c, bits, v); }
      case Load(id) =>
        if id in s.writers && s.writers[id].Granted? { LoadSafe(env, s, id, c, bits, v); }
      case Store(id) =>
        if React(env, s, e) != s { StoreSafe(env, s, id, c, bits, v); }
      case Check(id) =>
        if React(env, s, e) != s { CheckSafe(env, s, s.batches[id], c, bits, v); }
      case Grant(id) =>
        if React(env, s, e) != s { GrantSafe(s, s.batches[id], c, bits, v); }
      case Begin(id) =>
        if React(env, s, e) != s && s.batches[id].err == 0 { BeginSafe(env, s.batches[id].ops, c, bits, v); }
      case Handle(id, cpu) =>
        if id in s.batches && s.batches[id].Executing? {
          HandleSafe(env, s.batches[id].exec, s.regs, cpu, c, bits, v);
        }
      case _ =>
    }
  }

  lemma {:induction false} RunSafe(env: Env, s: State, events: seq<Event>, c: Cell, bits: bv64)
    requires Quiet(s)
    requires forall k | 0 <= k <= |events| :: Withheld(Run(env, s, events[..k]), c, bits)
    ensures Safe(Run(env, s, events), c, bits, s.regs[c])
    decreases |events|
  {
    hide Withheld, React;
    if events != [] {
      var init := events[..|events| - 1];
      forall k | 0 <= k <= |init|
        ensures Withheld(Run(env, s, init[..k]), c, bits)
      {
        assert init[..k] == events[..k];
      }
      RunSafe(env, s, init, c, bits);
      StepSafe(env, Run(env, s, init), events[|events| - 1], c, bits, s.regs[c]);
    }
  }

  /**
    * In any run that starts with no call under way, a register bit that no allowlist of the run marks writable
    * has at the end the value it had at the start.
    */
  lemma BitSafety(env: Env, s: State, events: seq<Event>, c: Cell, bits: bv64)
    requires Quiet(s)
    requires forall k | 0 <= k <= |events| :: MaskOf(Run(env, s, events[..k]).table, c.msr) & bits == 0
    ensures Run(env, s, events).regs[c] & bits == s.regs[c] & bits
  {
    hide MaskOf, Run, WriterSafe, BatcherSafe;
    forall k | 0 <= k <= |events|
      ensures Withheld(Run(env, s, events[..k]), c, bits)
    {}
    RunSafe(env, s, events, c, bits);
    assert Agree(Run(env, s, events).regs[c], s.regs[c], bits);
  }
}
