/**
  * The whole module as a step system: writes to the allowlist device, single writes split into lookup, load
  * and store, and batches split into admission checks, mask lookups and handler steps, in any interleaving.
  */
module ModuleRuns {
  import opened Words
  import opened AllowlistText
  import opened AllowlistSpec
  import opened Registers
  import opened Batch
  import opened BatchExec

  /** A call of msr_write: before the mask lookup, after it, and after the load of the current contents. */
  datatype Writer =
    | Asking(cell: Cell, data: bv64)
    | Granted(cell: Cell, mask: bv64, data: bv64)
    | Holding(cell: Cell, mask: bv64, data: bv64, stale: bv64)

  /**
    * A call of the batch ioctl. Admission is at op `i`; `checked` says that the op was found to be listed and
    * its mask comes next, in a lookup of its own.
    */
  datatype Batcher =
    | Admitting(ops: seq<Op>, i: nat, err: int, checked: bool)
    | Executing(exec: Exec)

  /** A masked write of `data`. */
  datatype Update = Update(cell: Cell, mask: bv64, data: bv64)

  /** What a call returned to its caller; for a batch, with the ops that are copied back. */
  datatype Outcome = WriteEnded(id: nat, ret: int) | BatchEnded(id: nat, ret: int, ops: seq<Op>)

  /** `log` lists the register writes that took place, `outcomes` the calls that ended; the driver keeps neither. */
  datatype State = State(
    table: Table,
    regs: Regs,
    writers: map<nat, Writer>,
    batches: map<nat, Batcher>,
    log: seq<Update>,
    outcomes: seq<Outcome>)

  datatype Event =
    | DeviceWrite(input: seq<byte>)
    | OpenWrite(id: nat, target: Cell, data: bv64)
    | Lookup(id: nat)
    | Load(id: nat)
    | Store(id: nat)
    | Submit(id: nat, ops: seq<Op>)
    | Check(id: nat)
    | Grant(id: nat)
    | Begin(id: nat)
    | Handle(id: nat, cpu: u16)
    | Finish(id: nat)

  /** Single write `id` returns `ret`. */
  function EndWrite(s: State, id: nat, ret: int): State {
    s.(writers := s.writers - {id}, outcomes := s.outcomes + [WriteEnded(id, ret)])
  }

  /** Batch `id` returns `ret` and copies `ops` back. */
  function EndBatch(s: State, id: nat, ret: int, ops: seq<Op>): State {
    s.(batches := s.batches - {id}, outcomes := s.outcomes + [BatchEnded(id, ret, ops)])
  }

  function DoLookup(s: State, id: nat, w: Writer): State {
    var mask := MaskOf(s.table, w.cell.msr);
    if mask == 0 then EndWrite(s, id, EACCES) else s.(writers := s.writers[id := Granted(w.cell, mask, w.data)])
  }

  function DoLoad(env: Env, s: State, id: nat, w: Writer): State
    requires w.Granted?
  {
    if env.readFault(w.cell) then EndWrite(s, id, EIO)
    else s.(writers := s.writers[id := Holding(w.cell, w.mask, w.data, s.regs[w.cell])])
  }

  /** The write proper: the merge with the loaded word, or the data alone under a full mask. */
  function DoStore(env: Env, s: State, id: nat, w: Writer): State
    requires w.Granted? || w.Holding?
  {
    var v := if w.Holding? then Merge(w.mask, w.data, w.stale) else w.data;
    if env.writeFault(w.cell, v) then EndWrite(s, id, EIO)
    else EndWrite(s, id, 8).(regs := s.regs[w.cell := v], log := s.log + [Update(w.cell, w.mask, w.data)])
  }

  function DoCheck(env: Env, s: State, b: Batcher): Batcher
    requires b.Admitting? && b.i < |b.ops|
  {
    var op := b.ops[b.i];
    if op.cpu !in env.online then Admitting(b.ops[b.i := op.(err := ENXIO)], b.i + 1, ENXIO, false)
    else if !Listed(s.table, op.msr) then Admitting(b.ops[b.i := op.(err := EACCES)], b.i + 1, EACCES, false)
    else b.(ops := b.ops[b.i := op.(err := 0)], checked := true)
  }

  function DoGrant(s: State, b: Batcher): Batcher
    requires b.Admitting? && b.i < |b.ops|
  {
    var mask := MaskOf(s.table, b.ops[b.i].msr);
    var op := b.ops[b.i].(wmask := mask);
    if mask == 0 && op.isrdmsr == 0 then Admitting(b.ops[b.i := op.(err := EROFS)], b.i + 1, EROFS, false)
    else Admitting(b.ops[b.i := op], b.i + 1, b.err, false)
  }

  /** The register write that the next step of handler `cpu` performs, if any. */
  function Stored(env: Env, x: Exec, cpu: u16): seq<Update> {
    if Idle(x, cpu) then []
    else
      var op := x.ops[x.pc[cpu]];
      if op.cpu != cpu || cpu !in x.held
         || env.writeFault(op.Target(), Merge(op.wmask, op.msrdata, x.held[cpu]))
      then []
      else [Update(op.Target(), op.wmask, op.msrdata)]
  }

  /** One step. An event that is not enabled does nothing. */
  function React(env: Env, s: State, e: Event): State {
    match e
    case DeviceWrite(input) =>
      s.(table := WriteOutcome(s.table, input).table)
    case OpenWrite(id, target, data) =>
      if id in s.writers || target.cpu !in env.online then s
      else s.(writers := s.writers[id := Asking(target, data)])
    case Lookup(id) =>
      if id in s.writers && s.writers[id].Asking? then DoLookup(s, id, s.writers[id]) else s
    case Load(id) =>
      if id in s.writers && s.writers[id].Granted? && s.writers[id].mask != FULL
      then DoLoad(env, s, id, s.writers[id]) else s
    case Store(id) =>
      if id in s.writers && (s.writers[id].Holding? || (s.writers[id].Granted? && s.writers[id].mask == FULL))
      then DoStore(env, s, id, s.writers[id]) else s
    case Submit(id, ops) =>
      if id in s.batches then s else s.(batches := s.batches[id := Admitting(ops, 0, 0, false)])
    case Check(id) =>
      if id in s.batches && s.batches[id].Admitting? && !s.batches[id].checked && s.batches[id].i < |s.batches[id].ops|
      then s.(batches := s.batches[id := DoCheck(env, s, s.batches[id])]) else s
    case Grant(id) =>
      if id in s.batches && s.batches[id].Admitting? && s.batches[id].checked && s.batches[id].i < |s.batches[id].ops|
      then s.(batches := s.batches[id := DoGrant(s, s.batches[id])]) else s
    case Begin(id) =>
      if id in s.batches && s.batches[id].Admitting? && s.batches[id].i == |s.batches[id].ops|
      then
        if s.batches[id].err != 0 then EndBatch(s, id, s.batches[id].err, s.batches[id].ops)
        else s.(batches := s.batches[id := Executing(Start(env, s.batches[id].ops))])
      else s
    case Handle(id, cpu) =>
      if id in s.batches && s.batches[id].Executing? then
        var x := s.batches[id].exec;
        var r := HandlerStep(env, x, s.regs, cpu);
        s.(batches := s.batches[id := Executing(r.exec)], regs := r.regs, log := s.log + Stored(env, x, cpu))
      else s
    case Finish(id) =>
      if id in s.batches && s.batches[id].Executing? && Finished(s.batches[id].exec)
      then EndBatch(s, id, FirstError(s.batches[id].exec.ops), s.batches[id].exec.ops)
      else s
  }

  function Run(env: Env, s: State, events: seq<Event>): State {
    if events == [] then s
    else React(env, Run(env, s, events[..|events| - 1]), events[|events| - 1])
  }

  /** No call is under way. */
  predicate Quiet(s: State) {
    s.writers == map[] && s.batches == map[] && s.log == []
  }

  /** The batch call still has the allowlist to look at. */
  predicate Looking(s: State, id: nat) {
    id in s.batches && s.batches[id].Admitting? && s.batches[id].i < |s.batches[id].ops|
  }

  /** As long as batch `id` has to look at the allowlist, it is `table`; the id is not used for another batch. */
  ghost predicate UnderList(env: Env, s: State, events: seq<Event>, id: nat, table: Table) {
    events == [] ||
    var init, e := events[..|events| - 1], events[|events| - 1];
    && UnderList(env, s, init, id, table)
    && (Looking(Run(env, s, init), id) ==> Run(env, s, init).table == table)
    && !(e.Submit? && e.id == id)
  }

  /** The allowlist is the same all through the run. */
  ghost predicate Fixed(env: Env, s: State, events: seq<Event>) {
    forall k | 0 <= k <= |events| :: Run(env, s, events[..k]).table == s.table
  }

  lemma FixedPrefix(env: Env, s: State, events: seq<Event>, k: nat)
    requires Fixed(env, s, events) && k <= |events|
    ensures Fixed(env, s, events[..k]) && Run(env, s, events[..k]).table == s.table
  {
    hide Run;
    forall j | 0 <= j <= k
      ensures Run(env, s, events[..k][..j]).table == s.table
    {
      assert events[..k][..j] == events[..j];
    }
  }

  lemma OnlyDeviceWrites(env: Env, s: State, e: Event)
    requires !e.DeviceWrite?
    ensures React(env, s, e).table == s.table
  {
    hide Stored, HandlerStep, DoCheck, DoGrant;
  }
}
