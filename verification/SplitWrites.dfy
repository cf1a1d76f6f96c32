/**
  * The allowlist is replaced while writes are under way: exactly when the split writes of a register stay atomic.
  */
module SplitWrites {
  import opened Words
  import opened AllowlistText
  import opened AllowlistSpec
  import opened Registers
  import opened Batch
  import opened BatchExec
  import opened ModuleRuns
  import opened RunSafety
  import opened Linearization

  /** The step changes register `c` as the writes it adds to the log would if they were atomic. */
  ghost predicate AtomicStep(env: Env, s: State, e: Event, c: Cell) {
    var t := React(env, s, e);
    s.log <= t.log && t.regs[c] == Replay(s.regs, t.log[|s.log|..])[c]
  }

  /** Every event of the run is one under the list `table`; the last may replace it. */
  ghost predicate Phase(env: Env, s: State, events: seq<Event>, table: Table) {
    events == [] ||
    var init := events[..|events| - 1];
    Phase(env, s, init, table) && Run(env, s, init).table == table
  }

  // ---- One mask ----

  /** A grant to write register `c` is one of all of `mask`. */
  ghost predicate WriterHas(w: Writer, c: Cell, mask: bv64) {
    w.cell == c && !w.Asking? ==> w.mask == mask
  }

  ghost predicate OpHas(op: Op, c: Cell, mask: bv64) {
    op.Target() == c && op.isrdmsr == 0 ==> op.wmask == mask
  }

  /** A handler holds a word only for a write. */
  ghost predicate HoldsForWrite(x: Exec, cpu: u16) {
    cpu in x.held ==> cpu in x.pc && x.pc[cpu] < |x.ops| && x.ops[x.pc[cpu]].cpu == cpu && x.ops[x.pc[cpu]].isrdmsr == 0
  }

  ghost predicate ExecHas(x: Exec, c: Cell, mask: bv64) {
    (forall j | 0 <= j < |x.ops| :: OpHas(x.ops[j], c, mask)) && forall cpu: u16 :: HoldsForWrite(x, cpu)
  }

  ghost predicate BatcherHas(b: Batcher, c: Cell, mask: bv64) {
    match b
    case Admitting(ops, i, err, _) => i <= |ops| && (err == 0 ==> forall j | 0 <= j < i :: OpHas(ops[j], c, mask))
    case Executing(x) => ExecHas(x, c, mask)
  }

  ghost predicate WritersHave(s: State, c: Cell, mask: bv64) {
    forall id | id in s.writers :: WriterHas(s.writers[id], c, mask)
  }

  ghost predicate BatchesHave(s: State, c: Cell, mask: bv64) {
    forall id | id in s.batches :: BatcherHas(s.batches[id], c, mask)
  }

  ghost predicate Has(s: State, c: Cell, mask: bv64) {
    WritersHave(s, c, mask) && BatchesHave(s, c, mask)
  }

  /** The list permits writes of register `c` under `mask` or not at all. */
  predicate Gives(table: Table, c: Cell, mask: bv64) {
    MaskOf(table, c.msr) == 0 || MaskOf(table, c.msr) == mask
  }

  lemma GrantHas(s: State, b: Batcher, c: Cell, mask: bv64)
    requires b.Admitting? && b.i < |b.ops| && BatcherHas(b, c, mask) && Gives(s.table, c, mask)
    ensures BatcherHas(DoGrant(s, b), c, mask)
  {
    hide MaskOf;
  }

  lemma CheckHas(env: Env, s: State, b: Batcher, c: Cell, mask: bv64)
    requires b.Admitting? && b.i < |b.ops| && BatcherHas(b, c, mask)
    ensures BatcherHas(DoCheck(env, s, b), c, mask)
  {
    hide Listed;
  }

  lemma HandleHas(env: Env, x: Exec, regs: Regs, cpu: u16, c: Cell, mask: bv64)
    requires ExecHas(x, c, mask)
    ensures ExecHas(HandlerStep(env, x, regs, cpu).exec, c, mask)
  {
    hide OpHas, HandlerStep, HoldsForWrite;
    if Idle(x, cpu) {
      IdleStep(env, x, regs, cpu);
    } else {
      StepFrame(env, x, regs, cpu);
      OwnOpHas(env, x, regs, cpu, c, mask);
      forall other: u16 | other != cpu
        ensures HoldsForWrite(HandlerStep(env, x, regs, cpu).exec, other)
      {
        OthersHold(env, x, regs, cpu, other);
      }
    }
  }

  lemma OwnOpHas(env: Env, x: Exec, regs: Regs, cpu: u16, c: Cell, mask: bv64)
    requires !Idle(x, cpu) && OpHas(x.ops[x.pc[cpu]], c, mask) && HoldsForWrite(x, cpu)
    ensures var y := HandlerStep(env, x, regs, cpu).exec;
            |y.ops| == |x.ops| && OpHas(y.ops[x.pc[cpu]], c, mask) && HoldsForWrite(y, cpu)
  {
    hide Merge;
  }

  lemma OthersHold(env: Env, x: Exec, regs: Regs, cpu: u16, other: u16)
    requires !Idle(x, cpu) && other != cpu && HoldsForWrite(x, other)
    ensures HoldsForWrite(HandlerStep(env, x, regs, cpu).exec, other)
  {
    hide HandlerStep;
    StepFrame(env, x, regs, cpu);
  }

  lemma WriterSteps(env: Env, s: State, e: Event, c: Cell, mask: bv64)
    requires WritersHave(s, c, mask) && Gives(s.table, c, mask)
    ensures WritersHave(React(env, s, e), c, mask)
  {
    hide WriteOutcome, Stored, MaskOf, Merge, DoCheck, DoGrant, HandlerStep, Start, FirstError, Finished;
  }

  lemma BatchSteps(env: Env, s: State, e: Event, c: Cell, mask: bv64)
    requires BatchesHave(s, c, mask) && Gives(s.table, c, mask)
    ensures BatchesHave(React(env, s, e), c, mask)
  {
    hide WriteOutcome, Stored, MaskOf, Merge, DoCheck, DoGrant, HandlerStep, ExecHas, Start, FirstError, Finished;
    match e {
      case Check(id) =>
        if React(env, s, e) != s { CheckHas(env, s, s.batches[id], c, mask); }
      case Grant(id) =>
        if React(env, s, e) != s { GrantHas(s, s.batches[id], c, mask); }
      case Begin(id) =>
        if React(env, s, e) != s && s.batches[id].err == 0 { BeginHas(env, s.batches[id].ops, c, mask); }
      case Handle(id, cpu) =>
        if id in s.batches && s.batches[id].Executing? {
          assert BatcherHas(s.batches[id], c, mask);
          HandleHas(env, s.batches[id].exec, s.regs, cpu, c, mask);
        }
      case _ =>
    }
  }

  lemma BeginHas(env: Env, ops: seq<Op>, c: Cell, mask: bv64)
    requires forall j | 0 <= j < |ops| :: OpHas(ops[j], c, mask)
    ensures ExecHas(Start(env, ops), c, mask)
  {
    hide OpHas;
  }

  // ---- Runs ----

  lemma Complement(mask: bv64)
    ensures Disjoint(mask, !mask) && Disjoint(0, !mask)
  {}

  /** Grants are of all of `mask`, and nothing outside of it is granted or has changed. */
  ghost predicate Sound(s: State, c: Cell, mask: bv64, v: bv64) {
    Has(s, c, mask) && Safe(s, c, !mask, v)
  }

  lemma QuietIsSound(s: State, c: Cell, mask: bv64)
    requires Quiet(s)
    ensures Sound(s, c, mask, s.regs[c])
  {}

  lemma {:induction false} PhaseSound(env: Env, s: State, events: seq<Event>, table: Table, c: Cell,
                                      mask: bv64, v: bv64)
    requires Sound(s, c, mask, v) && Phase(env, s, events, table) && Gives(table, c, mask)
    ensures Sound(Run(env, s, events), c, mask, v)
    decreases |events|
  {
    hide React, WritersHave, BatchesHave, Safe, MaskOf, Disjoint;
    if events != [] {
      var init := events[..|events| - 1];
      PhaseSound(env, s, init, table, c, mask, v);
      Complement(mask);
      WriterSteps(env, Run(env, s, init), events[|events| - 1], c, mask);
      BatchSteps(env, Run(env, s, init), events[|events| - 1], c, mask);
      StepSafe(env, Run(env, s, init), events[|events| - 1], c, !mask, v);
    }
  }

  // ---- Stores ----

  lemma SameOutside(a: bv64, b: bv64, v: bv64, mask: bv64)
    requires Agree(a, v, !mask) && Agree(b, v, !mask)
    ensures Within(a, b, mask)
  {
    hide Masked;
  }

  lemma ReplayOne(regs: Regs, u: Update, log: seq<Update>)
    requires log == [u]
    ensures Replay(regs, log) == Apply(regs, u)
  {
    hide Apply;
    assert log[..0] == [];
  }

  lemma StoreStep(env: Env, s: State, id: nat, c: Cell, mask: bv64, v: bv64)
    requires Sound(s, c, mask, v)
    ensures AtomicStep(env, s, Store(id), c)
  {
    hide Merge, Agree, Within, BatcherSafe, BatcherHas, Replay;
    var t := React(env, s, Store(id));
    if |t.log| == |s.log| {
      assert t.log[|s.log|..] == [];
      ReplayNone(s.regs, t.log[|s.log|..]);
    } else {
      var w := s.writers[id];
      assert WriterHas(w, c, mask) && WriterSafe(w, c, !mask, v);
      var u := Update(w.cell, w.mask, w.data);
      assert t.log[|s.log|..] == [u];
      ReplayOne(s.regs, u, t.log[|s.log|..]);
      if w.cell == c {
        if w.Holding? {
          SameOutside(w.stale, s.regs[c], v, mask);
          MergeStale(mask, w.data, w.stale, s.regs[c]);
        } else {
          MergeFull(w.data, s.regs[c]);
        }
      }
    }
  }

  lemma ReplayNone(regs: Regs, log: seq<Update>)
    requires log == []
    ensures Replay(regs, log) == regs
  {}

  /** What a handler's step does to register `c` is the atomic write it logs, if any. */
  lemma HandlerStores(env: Env, x: Exec, regs: Regs, cpu: u16, c: Cell, mask: bv64, v: bv64)
    requires ExecHas(x, c, mask) && ExecSafe(x, c, !mask, v) && Agree(regs[c], v, !mask)
    ensures var log := Stored(env, x, cpu);
            |log| <= 1
            && HandlerStep(env, x, regs, cpu).regs[c] == if log == [] then regs[c] else Apply(regs, log[0])[c]
  {
    hide Merge, Agree, Within;
    if !Idle(x, cpu) && cpu in x.held {
      var op := x.ops[x.pc[cpu]];
      assert HoldsForWrite(x, cpu) && HeldSafe(x, cpu, c, !mask, v) && OpHas(op, c, mask);
      if op.Target() == c {
        SameOutside(x.held[cpu], regs[c], v, mask);
        MergeStale(mask, op.msrdata, x.held[cpu], regs[c]);
      }
    }
  }

  lemma HandleStep(env: Env, s: State, id: nat, cpu: u16, c: Cell, mask: bv64, v: bv64)
    requires Sound(s, c, mask, v)
    ensures AtomicStep(env, s, Handle(id, cpu), c)
  {
    hide Agree, Replay, Stored, HandlerStep, ExecHas, ExecSafe, WriterSafe, WriterHas, Apply;
    var t := React(env, s, Handle(id, cpu));
    if id in s.batches && s.batches[id].Executing? {
      var x := s.batches[id].exec;
      assert BatcherHas(s.batches[id], c, mask) && BatcherSafe(s.batches[id], c, !mask, v);
      HandlerStores(env, x, s.regs, cpu, c, mask, v);
      var log := Stored(env, x, cpu);
      assert t.log[|s.log|..] == log;
      if log == [] {
        ReplayNone(s.regs, log);
      } else {
        ReplayOne(s.regs, log[0], log);
      }
    } else {
      ReplayNone(s.regs, t.log[|s.log|..]);
    }
  }

  lemma StepIsAtomic(env: Env, s: State, e: Event, c: Cell, mask: bv64, v: bv64)
    requires Sound(s, c, mask, v)
    ensures AtomicStep(env, s, e, c)
  {
    hide Sound;
    if e.Store? {
      StoreStep(env, s, e.id, c, mask, v);
    } else if e.Handle? {
      HandleStep(env, s, e.id, e.cpu, c, mask, v);
    } else {
      NoStore(env, s, e);
      ReplayNone(s.regs, React(env, s, e).log[|s.log|..]);
    }
  }

  lemma NoStore(env: Env, s: State, e: Event)
    requires !e.Store? && !e.Handle?
    ensures React(env, s, e).log == s.log && React(env, s, e).regs == s.regs
  {
    hide WriteOutcome, MaskOf, Merge, DoCheck, DoGrant, Start, FirstError, Finished;
  }

  // ---- A lost update ----

  /** Every bit, the other way round. */
  function Flip(r: bv64): bv64 {
    !r
  }

  predicate Covers(mask: bv64, other: bv64) {
    Disjoint(other, !mask)
  }

  lemma Opposite(a: bv64, k: bv64)
    requires Agree(a, !a, k)
    ensures k == 0
  {
    assert a & k == !a & k;
    assert (a & k) | (!a & k) == k;
    assert (a & k) & (!a & k) == 0;
  }

  lemma OnBoth(a: bv64, b: bv64, d: bv64, k: bv64, l: bv64)
    requires Agree(a, b, l) && Agree(b, d, k)
    ensures Agree(a, d, k & l)
  {
    hide Masked;
    MaskedBoth(a, l, k);
    MaskedBoth(b, l, k);
    MaskedBoth(b, k, l);
    MaskedBoth(d, k, l);
    assert k & l == l & k;
  }

  lemma MaskedBoth(a: bv64, k: bv64, l: bv64)
    ensures Masked(a, k & l) == Masked(Masked(a, k), l)
  {}

  lemma FlippedInside(mask: bv64, other: bv64, r: bv64, now: bv64)
    requires Within(r, now, mask) && Agree(now, Flip(r), other)
    ensures Covers(mask, other)
  {
    hide Agree;
    OnBoth(r, now, Flip(r), other, !mask);
    Opposite(r, other & !mask);
  }

  /** Merging the word from before a write is atomic only if the merge covers all written bits. */
  lemma StaleMerge(mask: bv64, other: bv64, data: bv64, r: bv64)
    requires Merge(mask, data, r) == Merge(mask, data, Merge(other, Flip(r), r))
    ensures Covers(mask, other)
  {
    hide Merge, Agree, Within, Flip, Covers;
    var w, now := Merge(mask, data, r), Merge(other, Flip(r), r);
    MergeOutside(mask, data, r);
    MergeOutside(mask, data, now);
    WithinLaws(w, r, now, mask);
    WithinLaws(r, w, now, mask);
    MergeInside(other, Flip(r), r);
    FlippedInside(mask, other, r, now);
  }

  lemma SameMasks(a: bv64, b: bv64)
    requires Covers(a, b) && Covers(b, a)
    ensures a == b
  {
    Split(a, b);
    Split(b, a);
    assert a & b == b & a;
  }

  lemma FullCovers(mask: bv64, other: bv64)
    ensures mask == FULL ==> Covers(mask, other)
  {}

  ghost predicate FaultFree(env: Env, c: Cell) {
    !env.readFault(c) && forall v :: !env.writeFault(c, v)
  }

  /** Single write `id` of register `c` has nothing left to do but its store. */
  predicate Waits(s: State, id: nat, c: Cell, mask: bv64, data: bv64, stale: bv64) {
    id in s.writers
    && s.writers[id] == if mask == FULL then Granted(c, mask, data) else Holding(c, mask, data, stale)
  }

  /** Nothing but single write `id` differs. */
  ghost predicate Kept(s: State, t: State, id: nat) {
    && t.table == s.table && t.regs == s.regs && t.writers.Keys == s.writers.Keys + {id}
    && forall other | other != id && other in s.writers :: t.writers[other] == s.writers[other]
  }

  lemma AcquireSteps(env: Env, s: State, id: nat, c: Cell, data: bv64)
    requires id !in s.writers && c.cpu in env.online && MaskOf(s.table, c.msr) != 0 && !env.readFault(c)
    ensures var s1 := React(env, s, OpenWrite(id, c, data));
            var s2 := React(env, s1, Lookup(id));
            var s3 := React(env, s2, Load(id));
            && s1.table == s2.table == s3.table == s.table && Kept(s, s3, id)
            && Waits(s3, id, c, MaskOf(s.table, c.msr), data, s.regs[c])
  {
    hide MaskOf, Merge;
  }

  lemma PhaseSnoc(env: Env, s: State, events: seq<Event>, e: Event, table: Table)
    requires Phase(env, s, events, table) && Run(env, s, events).table == table
    ensures Phase(env, s, events + [e], table)
    ensures Run(env, s, events + [e]) == React(env, Run(env, s, events), e)
  {
    hide React;
    assert (events + [e])[..|events|] == events;
  }

  /** A single write of register `c` is opened, granted and, unless its mask is full, loads. */
  lemma Acquire(env: Env, s: State, begun: seq<Event>, id: nat, c: Cell, data: bv64) returns (events: seq<Event>)
    requires var t := Run(env, s, begun);
             Phase(env, s, begun, t.table) && id !in t.writers && MaskOf(t.table, c.msr) != 0
    requires c.cpu in env.online && !env.readFault(c)
    ensures var t := Run(env, s, begun);
            Phase(env, s, events, t.table) && Kept(t, Run(env, s, events), id)
            && Waits(Run(env, s, events), id, c, MaskOf(t.table, c.msr), data, t.regs[c])
  {
    hide React, Run, Phase, Kept, Waits, MaskOf;
    var t := Run(env, s, begun);
    AcquireSteps(env, t, id, c, data);
    PhaseSnoc(env, s, begun, OpenWrite(id, c, data), t.table);
    events := begun + [OpenWrite(id, c, data)];
    PhaseSnoc(env, s, events, Lookup(id), t.table);
    events := events + [Lookup(id)];
    PhaseSnoc(env, s, events, Load(id), t.table);
    events := events + [Load(id)];
  }

  lemma StoreHappens(env: Env, s: State, id: nat, c: Cell, mask: bv64, data: bv64, stale: bv64)
    requires Waits(s, id, c, mask, data, stale) && FaultFree(env, c)
    ensures var t := React(env, s, Store(id));
            && t.table == s.table && t.regs == s.regs[c := Merge(mask, data, stale)]
            && (forall other | other != id && other in s.writers ::
                  other in t.writers && t.writers[other] == s.writers[other])
  {
    hide Merge;
    MergeFull(data, stale);
  }

  /** The stale store of write 0 takes bits of the other write back. */
  lemma LostUpdate(env: Env, s: State, c: Cell, mask: bv64, other: bv64, r: bv64)
    requires Waits(s, 0, c, mask, 0, r) && FaultFree(env, c)
    requires s.regs[c] == Merge(other, Flip(r), r) && !Covers(mask, other)
    ensures !AtomicStep(env, s, Store(0), c)
  {
    hide Merge, Covers, Flip, Replay;
    FullCovers(mask, other);
    var t := React(env, s, Store(0));
    var u := Update(c, mask, 0);
    assert t.log[|s.log|..] == [u];
    ReplayOne(s.regs, u, [u]);
    if Merge(mask, 0, r) == Merge(mask, 0, Merge(other, Flip(r), r)) {
      StaleMerge(mask, other, 0, r);
    }
  }

  /** The list changes from that of `s` to `table` between the events `before` and `after`. */
  ghost predicate Switched(env: Env, s: State, before: seq<Event>, after: seq<Event>, table: Table) {
    Phase(env, s, before, s.table) && Phase(env, Run(env, s, before), after, table)
  }

  lemma WriteReplaces(env: Env, s: State, input: seq<byte>)
    ensures React(env, s, DeviceWrite(input)) == s.(table := WriteOutcome(s.table, input).table)
  {}

  lemma Started(env: Env, s: State)
    ensures Run(env, s, []) == s && Phase(env, s, [], s.table)
  {}

  /**
    * Write `first` is granted under the old list, and write `1 - first` under the new one; then write 1 stores.
    * Write 0 is left with the word from before.
    */
  lemma Interleave(env: Env, s: State, c: Cell, input: seq<byte>, first: nat)
    returns (before: seq<Event>, after: seq<Event>)
    requires Quiet(s) && c.cpu in env.online && FaultFree(env, c) && first <= 1
    requires MaskOf(s.table, c.msr) != 0 && MaskOf(WriteOutcome(s.table, input).table, c.msr) != 0
    ensures var old', new' := MaskOf(s.table, c.msr), MaskOf(WriteOutcome(s.table, input).table, c.msr);
            var t := Run(env, Run(env, s, before), after);
            var r := s.regs[c];
            && Switched(env, s, before, after, WriteOutcome(s.table, input).table)
            && Waits(t, 0, c, if first == 0 then old' else new', 0, r)
            && t.regs[c] == Merge(if first == 0 then new' else old', Flip(r), r)
  {
    hide React, Run, MaskOf, WriteOutcome, Merge, Flip;
    var r := s.regs[c];
    var table := WriteOutcome(s.table, input).table;
    Started(env, s);
    before := Acquire(env, s, [], first, c, if first == 0 then 0 else Flip(r));
    var s1 := Run(env, s, before);
    PhaseSnoc(env, s, before, DeviceWrite(input), s.table);
    WriteReplaces(env, s1, input);
    before := before + [DeviceWrite(input)];
    var s2 := Run(env, s, before);
    assert s2 == s1.(table := table);
    Started(env, s2);
    after := Acquire(env, s2, [], 1 - first, c, if first == 1 then 0 else Flip(r));
    var s3 := Run(env, s2, after);
    StoreHappens(env, s3, 1, c, MaskOf(if first == 1 then s.table else table, c.msr), Flip(r), r);
    PhaseSnoc(env, s2, after, Store(1), table);
    after := after + [Store(1)];
  }

  lemma SwitchSound(env: Env, s: State, before: seq<Event>, after: seq<Event>, table: Table, c: Cell, mask: bv64)
    requires Quiet(s) && Switched(env, s, before, after, table)
    requires Gives(s.table, c, mask) && Gives(table, c, mask)
    ensures Sound(Run(env, Run(env, s, before), after), c, mask, s.regs[c])
  {
    hide Run, Gives, Sound, Phase;
    QuietIsSound(s, c, mask);
    PhaseSound(env, s, before, s.table, c, mask, s.regs[c]);
    PhaseSound(env, Run(env, s, before), after, table, c, mask, s.regs[c]);
  }

  /** Two masks: a run across the replacement in which a store is not atomic. */
  lemma StoreIsNotAtomic(env: Env, s: State, c: Cell, input: seq<byte>)
    returns (before: seq<Event>, after: seq<Event>)
    requires Quiet(s) && c.cpu in env.online && FaultFree(env, c)
    requires var table := WriteOutcome(s.table, input).table;
             var old', new' := MaskOf(s.table, c.msr), MaskOf(table, c.msr);
             old' != new' && old' != 0 && new' != 0
    ensures Switched(env, s, before, after, WriteOutcome(s.table, input).table)
    ensures !AtomicStep(env, Run(env, Run(env, s, before), after), Store(0), c)
  {
    hide React, Run, MaskOf, WriteOutcome, Merge, Covers, Flip, FaultFree, AtomicStep, Waits, Phase;
    var table := WriteOutcome(s.table, input).table;
    var old', new' := MaskOf(s.table, c.msr), MaskOf(table, c.msr);
    if Covers(old', new') && Covers(new', old') {
      SameMasks(old', new');
    }
    var first := if Covers(old', new') then 1 else 0;
    before, after := Interleave(env, s, c, input, first);
    var t := Run(env, Run(env, s, before), after);
    LostUpdate(env, t, c, if first == 0 then old' else new', if first == 0 then new' else old', s.regs[c]);
  }

  /**
    * A device write replaces the allowlist while writes of a register without faults are under way. Every step
    * of every run changes the register by atomic masked writes only, if and only if the old and the new list
    * have the same mask for it, or one of them permits no write of it.
    */
  lemma AtomicAcrossReplacementIff(env: Env, s: State, c: Cell, input: seq<byte>)
    requires Quiet(s) && c.cpu in env.online && FaultFree(env, c)
    ensures var table := WriteOutcome(s.table, input).table;
            var old', new' := MaskOf(s.table, c.msr), MaskOf(table, c.msr);
            (forall before, after, e | Switched(env, s, before, after, table) ::
               AtomicStep(env, Run(env, Run(env, s, before), after), e, c))
            <==> old' == new' || old' == 0 || new' == 0
  {
    hide React, Run, MaskOf, WriteOutcome, FaultFree, AtomicStep, Switched, Sound, Quiet;
    var table := WriteOutcome(s.table, input).table;
    var old', new' := MaskOf(s.table, c.msr), MaskOf(table, c.msr);
    if old' == new' || old' == 0 || new' == 0 {
      var mask := if old' != 0 then old' else new';
      forall before, after, e | Switched(env, s, before, after, table)
        ensures AtomicStep(env, Run(env, Run(env, s, before), after), e, c)
      {
        SwitchSound(env, s, before, after, table, c, mask);
        StepIsAtomic(env, Run(env, Run(env, s, before), after), e, c, mask, s.regs[c]);
      }
    } else {
      var before, after := StoreIsNotAtomic(env, s, c, input);
    }
  }
}
