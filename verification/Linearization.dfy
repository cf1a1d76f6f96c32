/**
  * Under a fixed allowlist the interleaved module is atomic: the register contents that runs can reach are
  * exactly those that sequences of atomic, permitted, masked writes can reach.
  */
module Linearization {
  import opened Words
  import opened AllowlistText
  import opened AllowlistSpec
  import opened Registers
  import opened SingleAccess
  import opened Batch
  import opened BatchExec
  import opened ModuleRuns
  import opened StepsAndCalls

  // ---- Atomic histories ----

  function Apply(regs: Regs, u: Update): Regs {
    regs[u.cell := Merge(u.mask, u.data, regs[u.cell])]
  }

  /** The registers after the updates of `log`, one after the other. */
  function Replay(regs: Regs, log: seq<Update>): Regs {
    if log == [] then regs else Apply(Replay(regs, log[..|log| - 1]), log[|log| - 1])
  }

  /**
    * The driver permits the update: the CPU is online, the mask is the one listed for the address and not
    * empty, the old contents can be read unless the mask makes that unnecessary, and the new ones written.
    */
  ghost predicate Permitted(env: Env, table: Table, regs: Regs, u: Update) {
    && u.cell.cpu in env.online
    && u.mask == MaskOf(table, u.cell.msr) && u.mask != 0
    && (env.readFault(u.cell) ==> u.mask == FULL)
    && !env.writeFault(u.cell, Merge(u.mask, u.data, regs[u.cell]))
  }

  ghost predicate History(env: Env, table: Table, regs: Regs, log: seq<Update>) {
    log == [] || (var init := log[..|log| - 1];
                  History(env, table, regs, init) && Permitted(env, table, Replay(regs, init), log[|log| - 1]))
  }

  lemma OneMore(env: Env, table: Table, regs: Regs, log: seq<Update>, u: Update)
    requires History(env, table, regs, log) && Permitted(env, table, Replay(regs, log), u)
    ensures History(env, table, regs, log + [u])
    ensures Replay(regs, log + [u]) == Apply(Replay(regs, log), u)
  {
    hide Permitted, Apply;
    assert (log + [u])[..|log|] == log;
  }

  // ---- The invariant ----

  /** The word a writer loaded differs from the register only inside the writer's mask. */
  ghost predicate WriterFits(env: Env, table: Table, regs: Regs, w: Writer) {
    && w.cell.cpu in env.online
    && match w
       case Asking(_, _) => true
       case Granted(c, mask, _) => mask == MaskOf(table, c.msr) && mask != 0
       case Holding(c, mask, _, stale) =>
         mask == MaskOf(table, c.msr) && mask != 0 && !env.readFault(c) && Within(stale, regs[c], mask)
  }

  ghost predicate OpFits(env: Env, table: Table, op: Op) {
    op.cpu in env.online && op.wmask == MaskOf(table, op.msr) && (op.isrdmsr == 0 ==> op.wmask != 0)
  }

  ghost predicate HeldFits(env: Env, x: Exec, regs: Regs, cpu: u16) {
    cpu in x.held ==>
      && cpu in x.pc && x.pc[cpu] < |x.ops|
      && var op := x.ops[x.pc[cpu]];
         && op.cpu == cpu && op.isrdmsr == 0 && op.err == 0 && !env.readFault(op.Target())
         && Within(x.held[cpu], regs[op.Target()], op.wmask)
  }

  ghost predicate ExecFits(env: Env, table: Table, regs: Regs, x: Exec) {
    && (forall j | 0 <= j < |x.ops| :: OpFits(env, table, x.ops[j]))
    && (forall cpu: u16 :: HeldFits(env, x, regs, cpu))
  }

  ghost predicate BatcherFits(env: Env, table: Table, regs: Regs, b: Batcher) {
    match b
    case Admitting(ops, i, err, checked) =>
      && i <= |ops|
      && (err == 0 ==> forall j | 0 <= j < i :: OpFits(env, table, ops[j]))
      && (checked ==> i < |ops| && ops[i].cpu in env.online)
    case Executing(x) => ExecFits(env, table, regs, x)
  }

  ghost predicate Fits(env: Env, s: State, table: Table, regs0: Regs) {
    && s.table == table
    && History(env, table, regs0, s.log) && s.regs == Replay(regs0, s.log)
    && (forall id | id in s.writers :: WriterFits(env, table, s.regs, s.writers[id]))
    && (forall id | id in s.batches :: BatcherFits(env, table, s.regs, s.batches[id]))
  }

  /** No register changed outside its mask. */
  ghost predicate Inside(table: Table, regs: Regs, regs': Regs) {
    forall c: Cell :: Within(regs[c], regs'[c], MaskOf(table, c.msr))
  }

  lemma InsideWriter(env: Env, table: Table, regs: Regs, regs': Regs, w: Writer)
    requires WriterFits(env, table, regs, w) && Inside(table, regs, regs')
    ensures WriterFits(env, table, regs', w)
  {
    hide Within, MaskOf;
    if w.Holding? {
      WithinLaws(w.stale, regs[w.cell], regs'[w.cell], w.mask);
    }
  }

  lemma InsideBatcher(env: Env, table: Table, regs: Regs, regs': Regs, b: Batcher)
    requires BatcherFits(env, table, regs, b) && Inside(table, regs, regs')
    ensures BatcherFits(env, table, regs', b)
  {
    hide Within, MaskOf;
    if b.Executing? {
      var x := b.exec;
      forall cpu: u16
        ensures HeldFits(env, x, regs', cpu)
      {
        InsideHeld(env, table, regs, regs', x, cpu);
      }
    }
  }

  lemma InsideHeld(env: Env, table: Table, regs: Regs, regs': Regs, x: Exec, cpu: u16)
    requires ExecFits(env, table, regs, x) && Inside(table, regs, regs')
    ensures HeldFits(env, x, regs', cpu)
  {
    hide Within, MaskOf;
    assert HeldFits(env, x, regs, cpu);
    if cpu in x.held {
      var op := x.ops[x.pc[cpu]];
      assert OpFits(env, table, op);
      WithinLaws(x.held[cpu], regs[op.Target()], regs'[op.Target()], op.wmask);
    }
  }

  lemma ApplyInside(table: Table, regs: Regs, u: Update)
    requires u.mask == MaskOf(table, u.cell.msr)
    ensures Inside(table, regs, Apply(regs, u))
  {
    hide MaskOf, Merge, Within;
    var v := Merge(u.mask, u.data, regs[u.cell]);
    MergeOutside(u.mask, u.data, regs[u.cell]);
    WithinLaws(v, regs[u.cell], v, u.mask);
    forall c: Cell
      ensures Within(regs[c], Apply(regs, u)[c], MaskOf(table, c.msr))
    {
      WithinLaws(regs[c], regs[c], regs[c], MaskOf(table, c.msr));
    }
  }

  /** A permitted update in the log and in the registers keeps the invariant for all calls under way. */
  lemma Commit(env: Env, s: State, u: Update, table: Table, regs0: Regs)
    requires Fits(env, s, table, regs0) && Permitted(env, table, s.regs, u)
    ensures Fits(env, s.(regs := Apply(s.regs, u), log := s.log + [u]), table, regs0)
  {
    hide History, Permitted, Apply, WriterFits, BatcherFits, Inside, Replay;
    OneMore(env, table, regs0, s.log, u);
    PermittedMask(env, table, s.regs, u);
    ApplyInside(table, s.regs, u);
    var regs' := Apply(s.regs, u);
    forall id | id in s.writers
      ensures WriterFits(env, table, regs', s.writers[id])
    {
      InsideWriter(env, table, s.regs, regs', s.writers[id]);
    }
    forall id | id in s.batches
      ensures BatcherFits(env, table, regs', s.batches[id])
    {
      InsideBatcher(env, table, s.regs, regs', s.batches[id]);
    }
  }

  lemma PermittedMask(env: Env, table: Table, regs: Regs, u: Update)
    requires Permitted(env, table, regs, u)
    ensures u.mask == MaskOf(table, u.cell.msr)
  {}

  // ---- Single writes ----

  /** The store of a split write is an atomic masked write: what it merges is still in the register. */
  lemma StoreIsAtomic(env: Env, table: Table, regs: Regs, w: Writer)
    requires WriterFits(env, table, regs, w)
    requires w.Holding? || (w.Granted? && w.mask == FULL)
    ensures var v := if w.Holding? then Merge(w.mask, w.data, w.stale) else w.data;
            v == Merge(w.mask, w.data, regs[w.cell])
  {
    hide Merge, Within, MaskOf;
    if w.Holding? {
      MergeStale(w.mask, w.data, w.stale, regs[w.cell]);
    } else {
      MergeFull(w.data, regs[w.cell]);
    }
  }

  lemma StoreFits(env: Env, s: State, id: nat, table: Table, regs0: Regs)
    requires Fits(env, s, table, regs0) && id in s.writers
    requires s.writers[id].Holding? || (s.writers[id].Granted? && s.writers[id].mask == FULL)
    ensures Fits(env, DoStore(env, s, id, s.writers[id]), table, regs0)
  {
    hide Merge, Within, MaskOf, History, Replay, BatcherFits;
    var w := s.writers[id];
    StoreIsAtomic(env, table, s.regs, w);
    var u := Update(w.cell, w.mask, w.data);
    if !env.writeFault(w.cell, Merge(w.mask, w.data, s.regs[w.cell])) {
      assert Permitted(env, table, s.regs, u);
      assert Fits(env, EndWrite(s, id, 8), table, regs0);
      Commit(env, EndWrite(s, id, 8), u, table, regs0);
    }
  }

  lemma LookupFits(env: Env, s: State, id: nat, table: Table, regs0: Regs)
    requires Fits(env, s, table, regs0) && id in s.writers
    ensures Fits(env, DoLookup(s, id, s.writers[id]), table, regs0)
  {
    hide Within, MaskOf, History, Replay, BatcherFits;
    assert WriterFits(env, table, s.regs, s.writers[id]);
  }

  lemma LoadFits(env: Env, s: State, id: nat, table: Table, regs0: Regs)
    requires Fits(env, s, table, regs0) && id in s.writers && s.writers[id].Granted?
    ensures Fits(env, DoLoad(env, s, id, s.writers[id]), table, regs0)
  {
    hide Within, MaskOf, History, Replay, BatcherFits;
    var w := s.writers[id];
    assert WriterFits(env, table, s.regs, w);
    WithinLaws(s.regs[w.cell], s.regs[w.cell], s.regs[w.cell], w.mask);
  }

  // ---- Batches ----

  lemma CheckFits(env: Env, s: State, b: Batcher, table: Table)
    requires b.Admitting? && b.i < |b.ops| && BatcherFits(env, table, s.regs, b)
    ensures BatcherFits(env, table, s.regs, DoCheck(env, s, b))
  {
    hide MaskOf, Listed;
  }

  lemma GrantFits(env: Env, s: State, b: Batcher, table: Table)
    requires b.Admitting? && b.checked && b.i < |b.ops| && BatcherFits(env, table, s.regs, b) && s.table == table
    ensures BatcherFits(env, table, s.regs, DoGrant(s, b))
  {
    hide MaskOf;
  }

  lemma BeginFits(env: Env, table: Table, regs: Regs, ops: seq<Op>)
    requires forall j | 0 <= j < |ops| :: OpFits(env, table, ops[j])
    ensures ExecFits(env, table, regs, Start(env, ops))
  {
    hide OpFits;
  }

  lemma HandleOthers(env: Env, x: Exec, regs: Regs, cpu: u16, other: u16)
    requires !Idle(x, cpu) && other != cpu && HeldFits(env, x, regs, other)
    ensures HeldFits(env, HandlerStep(env, x, regs, cpu).exec, regs, other)
  {
    hide Within, HandlerStep;
    StepFrame(env, x, regs, cpu);
  }

  lemma HandleSelf(env: Env, table: Table, x: Exec, regs: Regs, cpu: u16)
    requires !Idle(x, cpu) && HeldFits(env, x, regs, cpu) && OpFits(env, table, x.ops[x.pc[cpu]])
    ensures var r := HandlerStep(env, x, regs, cpu);
            && HeldFits(env, r.exec, regs, cpu)
            && OpFits(env, table, r.exec.ops[x.pc[cpu]])
  {
    hide Within, Merge, MaskOf;
    var op := x.ops[x.pc[cpu]];
    WithinLaws(regs[op.Target()], regs[op.Target()], regs[op.Target()], op.wmask);
  }

  lemma HandleFits(env: Env, table: Table, x: Exec, regs: Regs, cpu: u16)
    requires ExecFits(env, table, regs, x)
    ensures ExecFits(env, table, regs, HandlerStep(env, x, regs, cpu).exec)
  {
    hide HandlerStep, HeldFits, OpFits;
    if Idle(x, cpu) {
      IdleStep(env, x, regs, cpu);
    } else {
      StepFrame(env, x, regs, cpu);
      HandleSelf(env, table, x, regs, cpu);
      forall other: u16 | other != cpu
        ensures HeldFits(env, HandlerStep(env, x, regs, cpu).exec, regs, other)
      {
        HandleOthers(env, x, regs, cpu, other);
      }
    }
  }

  /** The write of a handler is an atomic masked write as well. */
  lemma HandlerStores(env: Env, table: Table, x: Exec, regs: Regs, cpu: u16)
    requires ExecFits(env, table, regs, x)
    ensures var log := Stored(env, x, cpu);
            var r := HandlerStep(env, x, regs, cpu);
            if log == [] then r.regs == regs
            else |log| == 1 && Permitted(env, table, regs, log[0]) && r.regs == Apply(regs, log[0])
  {
    hide Within, Merge, MaskOf;
    if !Idle(x, cpu) {
      var op := x.ops[x.pc[cpu]];
      assert OpFits(env, table, op);
      assert HeldFits(env, x, regs, cpu);
      if op.cpu == cpu && cpu in x.held {
        MergeStale(op.wmask, op.msrdata, x.held[cpu], regs[op.Target()]);
      }
    }
  }

  lemma HandleStepFits(env: Env, s: State, id: nat, cpu: u16, table: Table, regs0: Regs)
    requires Fits(env, s, table, regs0) && id in s.batches && s.batches[id].Executing?
    ensures Fits(env, React(env, s, Handle(id, cpu)), table, regs0)
  {
    hide HandlerStep, Stored, ExecFits, History, Replay, WriterFits, Permitted, Apply;
    var x := s.batches[id].exec;
    assert BatcherFits(env, table, s.regs, s.batches[id]);
    HandleFits(env, table, x, s.regs, cpu);
    HandlerStores(env, table, x, s.regs, cpu);
    var log := Stored(env, x, cpu);
    var s' := s.(batches := s.batches[id := Executing(HandlerStep(env, x, s.regs, cpu).exec)]);
    assert Fits(env, s', table, regs0);
    if log == [] {
      assert s.log + log == s.log;
    } else {
      assert log == [log[0]];
      Commit(env, s', log[0], table, regs0);
    }
  }

  // ---- Runs ----

  lemma StepFits(env: Env, s: State, e: Event, table: Table, regs0: Regs)
    requires Fits(env, s, table, regs0) && React(env, s, e).table == table
    ensures Fits(env, React(env, s, e), table, regs0)
  {
    hide WriteOutcome, Stored, Start, DoStore, DoLookup, DoLoad, DoCheck, DoGrant, HandlerStep, ExecFits,
         History, Replay, FirstError, Finished;
    match e {
      case Lookup(id) =>
        if id in s.writers { LookupFits(env, s, id, table, regs0); }
      case Load(id) =>
        if id in s.writers && s.writers[id].Granted? { LoadFits(env, s, id, table, regs0); }
      case Store(id) =>
        if React(env, s, e) != s { StoreFits(env, s, id, table, regs0); }
      case Check(id) =>
        if React(env, s, e) != s { CheckFits(env, s, s.batches[id], table); }
      case Grant(id) =>
        if React(env, s, e) != s { GrantFits(env, s, s.batches[id], table); }
      case Begin(id) =>
        if React(env, s, e) != s && s.batches[id].err == 0 { BeginFits(env, table, s.regs, s.batches[id].ops); }
      case Handle(id, cpu) =>
        if id in s.batches && s.batches[id].Executing? { HandleStepFits(env, s, id, cpu, table, regs0); }
      case _ =>
    }
  }

  lemma {:induction false} RunFits(env: Env, s: State, events: seq<Event>)
    requires Quiet(s) && Fixed(env, s, events)
    ensures Fits(env, Run(env, s, events), s.table, s.regs)
    decreases |events|
  {
    hide Fixed, React, WriterFits, BatcherFits;
    if events != [] {
      var init := events[..|events| - 1];
      FixedPrefix(env, s, events, |init|);
      FixedPrefix(env, s, events, |events|);
      assert events[..|events|] == events;
      RunFits(env, s, init);
      StepFits(env, Run(env, s, init), events[|events| - 1], s.table, s.regs);
    }
  }

  // ---- Every call has the outcome of an atomic access ----

  /** The single write has ended in one step, with the code and the effect of an undisturbed call at that step. */
  ghost predicate EndedAtomically(env: Env, s: State, t: State, id: nat)
    requires id in s.writers
  {
    var w := s.writers[id];
    var r := WriteReg(env, s.table, s.regs, w.cell.cpu, w.cell.msr, w.data);
    t.outcomes == s.outcomes + [WriteEnded(id, r.ret)] && t.regs == r.regs
  }

  lemma LookupEnds(env: Env, s: State, id: nat, table: Table, regs0: Regs)
    requires Fits(env, s, table, regs0) && id in s.writers && id !in DoLookup(s, id, s.writers[id]).writers
    ensures EndedAtomically(env, s, DoLookup(s, id, s.writers[id]), id)
  {
    hide Merge, Within, MaskOf, History, Replay, BatcherFits, WriterFits;
  }

  lemma LoadEnds(env: Env, s: State, id: nat, table: Table, regs0: Regs)
    requires Fits(env, s, table, regs0) && id in s.writers && s.writers[id].Granted? && s.writers[id].mask != FULL
    requires id !in DoLoad(env, s, id, s.writers[id]).writers
    ensures EndedAtomically(env, s, DoLoad(env, s, id, s.writers[id]), id)
  {
    hide Merge, Within, MaskOf, History, Replay, BatcherFits;
    assert WriterFits(env, table, s.regs, s.writers[id]);
  }

  lemma StoreEnds(env: Env, s: State, id: nat, table: Table, regs0: Regs)
    requires Fits(env, s, table, regs0) && id in s.writers
    requires s.writers[id].Holding? || (s.writers[id].Granted? && s.writers[id].mask == FULL)
    ensures EndedAtomically(env, s, DoStore(env, s, id, s.writers[id]), id)
  {
    hide Merge, Within, MaskOf, History, Replay, BatcherFits;
    var w := s.writers[id];
    assert WriterFits(env, table, s.regs, w);
    StoreIsAtomic(env, table, s.regs, w);
  }

  lemma WriteEnds(env: Env, s: State, e: Event, id: nat, table: Table, regs0: Regs)
    requires Fits(env, s, table, regs0) && id in s.writers && id !in React(env, s, e).writers
    ensures EndedAtomically(env, s, React(env, s, e), id)
  {
    hide WriteOutcome, DoCheck, DoGrant, HandlerStep, Stored, Fits, EndedAtomically, Start, MaskOf, Merge, FirstError,
         Finished;
    match e {
      case Lookup(id') =>
        if id' == id { LookupEnds(env, s, id, table, regs0); }
      case Load(id') =>
        if id' == id { LoadEnds(env, s, id, table, regs0); }
      case Store(id') =>
        if id' == id { StoreEnds(env, s, id, table, regs0); }
      case _ =>
    }
  }

  /**
    * A handler's step leaves its op and the registers as the op executed in one go would at that step, or goes
    * no further than the read of a write op, which changes no register.
    */
  ghost predicate HandledAtomically(env: Env, x: Exec, regs: Regs, cpu: u16) {
    !Idle(x, cpu) && x.ops[x.pc[cpu]].cpu == cpu ==>
      var p := x.pc[cpu];
      var now := HandlerStep(env, x, regs, cpu);
      var atomic := ExecOp(env, x.ops[p], regs);
      && cpu in now.exec.pc && |now.exec.ops| == |x.ops|
      && if now.exec.pc[cpu] == p + 1 then now.exec.ops[p] == atomic.op && now.regs == atomic.regs
         else now.exec.ops[p] == x.ops[p].(err := 0) && now.regs == regs
  }

  lemma HandlerEnds(env: Env, table: Table, x: Exec, regs: Regs, cpu: u16)
    requires ExecFits(env, table, regs, x)
    ensures HandledAtomically(env, x, regs, cpu)
  {
    hide Within, Merge, MaskOf;
    if !Idle(x, cpu) && x.ops[x.pc[cpu]].cpu == cpu {
      var op := x.ops[x.pc[cpu]];
      assert OpFits(env, table, op);
      assert HeldFits(env, x, regs, cpu);
      if cpu in x.held {
        MergeStale(op.wmask, op.msrdata, x.held[cpu], regs[op.Target()]);
      }
    }
  }

  /**
    * In every run under a fixed list, whatever calls interleave: a single write that ends has the code and the
    * effect of an undisturbed call at its last step, and an op that is executed has the error, the word read
    * and the effect of the whole op at its last step.
    */
  lemma OutcomesAreAtomic(env: Env, s: State, events: seq<Event>, e: Event)
    requires Quiet(s) && Fixed(env, s, events)
    ensures var t := Run(env, s, events);
            && (forall id | id in t.writers && id !in React(env, t, e).writers ::
                  EndedAtomically(env, t, React(env, t, e), id))
            && (forall id, cpu: u16 | id in t.batches && t.batches[id].Executing? ::
                  HandledAtomically(env, t.batches[id].exec, t.regs, cpu))
  {
    hide React, Fixed, History, Replay, WriterFits, ExecFits, Run, EndedAtomically, HandledAtomically;
    RunFits(env, s, events);
    var t := Run(env, s, events);
    forall id | id in t.writers && id !in React(env, t, e).writers
      ensures EndedAtomically(env, t, React(env, t, e), id)
    {
      WriteEnds(env, t, e, id, s.table, s.regs);
    }
    forall id, cpu: u16 | id in t.batches && t.batches[id].Executing?
      ensures HandledAtomically(env, t.batches[id].exec, t.regs, cpu)
    {
      assert BatcherFits(env, s.table, t.regs, t.batches[id]);
      HandlerEnds(env, s.table, t.batches[id].exec, t.regs, cpu);
    }
  }

  // ---- Every atomic history is a run ----

  lemma FixedSnoc(env: Env, s: State, events: seq<Event>, e: Event)
    requires Fixed(env, s, events) && React(env, Run(env, s, events), e).table == s.table
    ensures Fixed(env, s, events + [e])
    ensures Run(env, s, events + [e]) == React(env, Run(env, s, events), e)
  {
    hide React;
    var longer := events + [e];
    assert longer[..|events|] == events;
    forall k | 0 <= k <= |longer|
      ensures Run(env, s, longer[..k]).table == s.table
    {
      if k <= |events| {
        assert longer[..k] == events[..k];
      } else {
        assert longer[..k] == longer;
      }
    }
  }

  /** Undisturbed, the events of a permitted write carry it out. */
  lemma WriteHappens(env: Env, s: State, u: Update)
    requires Between(s) && Permitted(env, s.table, s.regs, u)
    ensures var t := After4(env, s, WriteEvents(u));
            Between(t) && t.table == s.table && t.regs == Apply(s.regs, u)
  {
    hide Merge, MaskOf, React;
    UndisturbedWrite(env, s, u, u.cell.msr);
  }

  lemma {:induction false} Realize(env: Env, s: State, log: seq<Update>) returns (events: seq<Event>)
    requires Quiet(s) && History(env, s.table, s.regs, log)
    ensures Fixed(env, s, events)
    ensures var t := Run(env, s, events); Between(t) && t.regs == Replay(s.regs, log)
    decreases |log|
  {
    if log == [] {
      events := [];
    } else {
      hide React, Fixed, Run, Permitted, Apply;
      var init := log[..|log| - 1];
      var u := log[|log| - 1];
      events := Realize(env, s, init);
      FixedPrefix(env, s, events, |events|);
      assert events[..|events|] == events;
      WriteHappens(env, Run(env, s, events), u);
      var w := WriteEvents(u);
      OnlyDeviceWrites(env, Run(env, s, events), w[0]);
      FixedSnoc(env, s, events, w[0]);
      events := events + [w[0]];
      OnlyDeviceWrites(env, Run(env, s, events), w[1]);
      FixedSnoc(env, s, events, w[1]);
      events := events + [w[1]];
      OnlyDeviceWrites(env, Run(env, s, events), w[2]);
      FixedSnoc(env, s, events, w[2]);
      events := events + [w[2]];
      OnlyDeviceWrites(env, Run(env, s, events), w[3]);
      FixedSnoc(env, s, events, w[3]);
      events := events + [w[3]];
    }
  }

  ghost predicate Reaches(env: Env, s: State, events: seq<Event>, regs: Regs) {
    Fixed(env, s, events) && Run(env, s, events).regs == regs
  }

  ghost predicate Replays(env: Env, s: State, log: seq<Update>, regs: Regs) {
    History(env, s.table, s.regs, log) && Replay(s.regs, log) == regs
  }

  /**
    * Linearizability: with the allowlist fixed, a register state is reached by some interleaving of split
    * writes and batches if and only if some sequence of atomic permitted masked writes leads to it.
    */
  lemma InterleavedIsAtomic(env: Env, s: State, regs: Regs)
    requires Quiet(s)
    ensures (exists events :: Reaches(env, s, events, regs)) <==> (exists log :: Replays(env, s, log, regs))
  {
    hide Run, Fixed, History, Replay;
    if events :| Reaches(env, s, events, regs) {
      RunFits(env, s, events);
      assert Replays(env, s, Run(env, s, events).log, regs);
    }
    if log :| Replays(env, s, log, regs) {
      var events := Realize(env, s, log);
      assert Reaches(env, s, events, regs);
    }
  }
}
