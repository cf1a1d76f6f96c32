/** The step system takes the same decisions as the calls it splits up. */
module StepsAndCalls {
  import opened Words
  import opened AllowlistText
  import opened AllowlistSpec
  import opened Registers
  import opened SingleAccess
  import opened Batch
  import opened BatchExec
  import opened ModuleRuns

  /** A state between calls. */
  predicate Between(s: State) {
    s.writers == map[] && s.batches == map[]
  }

  /** The four events of a single write. */
  function WriteEvents(u: Update): seq<Event> {
    [OpenWrite(0, u.cell, u.data), Lookup(0), Load(0), Store(0)]
  }

  function After4(env: Env, s: State, w: seq<Event>): State
    requires |w| == 4
  {
    React(env, React(env, React(env, React(env, s, w[0]), w[1]), w[2]), w[3])
  }

  /** Undisturbed, the steps of a single write do what msr_write does. */
  lemma UndisturbedWrite(env: Env, s: State, u: Update, pos: u64)
    requires Between(s) && u.cell.cpu in env.online && u.cell.msr == Truncate(pos)
    ensures var t := After4(env, s, WriteEvents(u));
            var r := WriteReg(env, s.table, s.regs, u.cell.cpu, pos, u.data);
            Between(t) && t.table == s.table
            && t.regs == r.regs && t.outcomes == s.outcomes + [WriteEnded(0, r.ret)]
  {
    hide Merge, MaskOf, WriteOutcome;
    var w := WriteEvents(u);
    var mask := MaskOf(s.table, u.cell.msr);
    var s1 := React(env, s, w[0]);
    assert s1 == s.(writers := map[0 := Asking(u.cell, u.data)]);
    var s2 := React(env, s1, w[1]);
    if mask == 0 {
      assert s2.writers == map[];
    } else {
      assert s2 == s.(writers := map[0 := Granted(u.cell, mask, u.data)]);
      UndisturbedStore(env, s, s2, u.cell, mask, u.data);
    }
  }

  lemma UndisturbedStore(env: Env, s: State, s2: State, c: Cell, mask: bv64, data: bv64)
    requires Between(s) && s2 == s.(writers := map[0 := Granted(c, mask, data)])
    ensures var t := React(env, React(env, s2, Load(0)), Store(0));
            var v := Merge(mask, data, s.regs[c]);
            Between(t) && t.table == s.table
            && if (mask != FULL && env.readFault(c)) || env.writeFault(c, v) then
                 t.regs == s.regs && t.outcomes == s.outcomes + [WriteEnded(0, EIO)]
               else
                 t.regs == s.regs[c := v] && t.outcomes == s.outcomes + [WriteEnded(0, 8)]
  {
    hide Merge;
    MergeFull(data, s.regs[c]);
    var s3 := React(env, s2, Load(0));
    if mask != FULL && env.readFault(c) {
      assert s3.writers == map[];
    } else {
      assert mask != FULL ==> s3 == s.(writers := map[0 := Holding(c, mask, data, s.regs[c])]);
      assert React(env, s3, Store(0)).writers == map[];
    }
  }

  // ---- Admission ----

  /** `op` may have been executed, but it is still the op `admitted` on the same register with the same mask. */
  ghost predicate Grown(op: Op, admitted: Op) {
    && op.Target() == admitted.Target() && op.isrdmsr == admitted.isrdmsr && op.wmask == admitted.wmask
    && (op.isrdmsr == 0 ==> op.msrdata == admitted.msrdata)
  }

  /** The call submitted `ops`, and has come as far with them as `b` says under the allowlist `table`. */
  ghost predicate Tracks(env: Env, table: Table, ops: seq<Op>, b: Batcher) {
    var admitted := Admit(env, table, ops);
    match b
    case Admitting(now, i, err, checked) =>
      && |now| == |ops| && i <= |ops|
      && err == LastError(admitted[..i])
      && (forall j | 0 <= j < i :: now[j] == admitted[j])
      && (forall j | i < j < |ops| :: now[j] == ops[j])
      && (if checked then
            i < |ops| && now[i] == ops[i].(err := 0) && ops[i].cpu in env.online && Listed(table, ops[i].msr)
          else i < |ops| ==> now[i] == ops[i])
    case Executing(x) =>
      LastError(admitted) == 0 && |x.ops| == |ops| && forall j | 0 <= j < |ops| :: Grown(x.ops[j], admitted[j])
  }

  lemma CheckTracks(env: Env, s: State, ops: seq<Op>, b: Batcher)
    requires b.Admitting? && !b.checked && b.i < |b.ops| && Tracks(env, s.table, ops, b)
    ensures Tracks(env, s.table, ops, DoCheck(env, s, b))
  {
    hide Listed, MaskOf, LastError;
    LastErrorNext(Admit(env, s.table, ops), b.i);
  }

  lemma GrantTracks(env: Env, s: State, ops: seq<Op>, b: Batcher)
    requires b.Admitting? && b.checked && b.i < |b.ops| && Tracks(env, s.table, ops, b)
    ensures Tracks(env, s.table, ops, DoGrant(s, b))
  {
    hide Listed, MaskOf, LastError;
    LastErrorNext(Admit(env, s.table, ops), b.i);
  }

  lemma BeginTracks(env: Env, table: Table, ops: seq<Op>, b: Batcher)
    requires b.Admitting? && b.i == |b.ops| && Tracks(env, table, ops, b)
    ensures b.err == LastError(Admit(env, table, ops)) && b.ops == Admit(env, table, ops)
    ensures b.err == 0 ==> Tracks(env, table, ops, Executing(Start(env, b.ops)))
  {
    hide AdmitOp, LastError;
    var admitted := Admit(env, table, ops);
    assert admitted[..|ops|] == admitted;
  }

  lemma HandleTracks(env: Env, table: Table, ops: seq<Op>, x: Exec, regs: Regs, cpu: u16)
    requires Tracks(env, table, ops, Executing(x))
    ensures Tracks(env, table, ops, Executing(HandlerStep(env, x, regs, cpu).exec))
  {
    hide AdmitOp, LastError, Merge;
  }

  /**
    * What one look at the allowlist makes of the batch: refused with the code of its last refusal and as
    * admission left it, or executed with the addresses and masks of admission and the first error as code.
    */
  ghost predicate EndedAs(env: Env, table: Table, id: nat, ops: seq<Op>, o: Outcome) {
    var admitted := Admit(env, table, ops);
    && o.BatchEnded? && o.id == id && |o.ops| == |ops|
    && if LastError(admitted) != 0 then o.ret == LastError(admitted) && o.ops == admitted
       else o.ret == FirstError(o.ops) && forall j | 0 <= j < |ops| :: Grown(o.ops[j], admitted[j])
  }

  /** Where batch `id` is: at work as it should be, or over, with an outcome behind the first `n`. */
  ghost predicate Admitted(env: Env, s: State, id: nat, table: Table, ops: seq<Op>, n: nat) {
    n <= |s.outcomes| &&
    if id in s.batches then Tracks(env, table, ops, s.batches[id])
    else exists k | n <= k < |s.outcomes| :: EndedAs(env, table, id, ops, s.outcomes[k])
  }

  lemma FinishTracks(env: Env, table: Table, id: nat, ops: seq<Op>, b: Batcher)
    requires Tracks(env, table, ops, b)
    ensures b.Executing? ==> EndedAs(env, table, id, ops, BatchEnded(id, FirstError(b.exec.ops), b.exec.ops))
    ensures b.Admitting? && b.i == |b.ops| && b.err != 0 ==>
              EndedAs(env, table, id, ops, BatchEnded(id, b.err, b.ops))
  {
    hide LastError, FirstError, Admit;
    if b.Admitting? && b.i == |b.ops| {
      BeginTracks(env, table, ops, b);
    }
  }

  lemma OutcomesGrow(env: Env, s: State, e: Event)
    ensures s.outcomes <= React(env, s, e).outcomes
    ensures |React(env, s, e).outcomes| <= |s.outcomes| + 1
  {
    hide WriteOutcome, Stored, Start, MaskOf, Merge, DoCheck, DoGrant, HandlerStep;
  }

  /** A step of batch `id` itself. */
  lemma OwnStepTracks(env: Env, s: State, e: Event, id: nat, table: Table, ops: seq<Op>, n: nat)
    requires id in s.batches && Admitted(env, s, id, table, ops, n)
    requires Looking(s, id) ==> s.table == table
    requires e in {Check(id), Grant(id), Begin(id), Finish(id)} || (e.Handle? && e.id == id)
    ensures Admitted(env, React(env, s, e), id, table, ops, n)
  {
    hide Start, DoCheck, DoGrant, HandlerStep, Tracks, LastError, FirstError, Admit, EndedAs, Stored;
    var b := s.batches[id];
    var t := React(env, s, e);
    if t != s {
      match e {
        case Check(_) => CheckTracks(env, s, ops, b);
        case Grant(_) => GrantTracks(env, s, ops, b);
        case Begin(_) =>
          BeginTracks(env, table, ops, b);
          FinishTracks(env, table, id, ops, b);
          assert b.err != 0 ==> t.outcomes[|s.outcomes|] == BatchEnded(id, b.err, b.ops);
        case Handle(_, cpu) => HandleTracks(env, table, ops, b.exec, s.regs, cpu);
        case Finish(_) =>
          FinishTracks(env, table, id, ops, b);
          assert t.outcomes[|s.outcomes|] == BatchEnded(id, FirstError(b.exec.ops), b.exec.ops);
        case _ =>
      }
    }
  }

  lemma StepTracks(env: Env, s: State, e: Event, id: nat, table: Table, ops: seq<Op>, n: nat)
    requires Admitted(env, s, id, table, ops, n) && !(e.Submit? && e.id == id)
    requires Looking(s, id) ==> s.table == table
    ensures Admitted(env, React(env, s, e), id, table, ops, n)
  {
    hide WriteOutcome, Stored, Start, MaskOf, Merge, DoCheck, DoGrant, HandlerStep, Tracks, EndedAs;
    OutcomesGrow(env, s, e);
    if id in s.batches && (e in {Check(id), Grant(id), Begin(id), Finish(id)} || (e.Handle? && e.id == id)) {
      OwnStepTracks(env, s, e, id, table, ops, n);
    } else if id !in s.batches {
      var k :| n <= k < |s.outcomes| && EndedAs(env, table, id, ops, s.outcomes[k]);
      assert React(env, s, e).outcomes[k] == s.outcomes[k];
    }
  }

  /**
    * As long as the list is `table` whenever the batch looks at it, admission decides as one look, whatever
    * other calls do in between and whatever happens to the list afterwards: the batch is refused if and only
    * if that look refuses it, with its last refusal, and otherwise runs with the masks of that look and returns
    * the first error.
    */
  lemma {:induction false} AdmissionIsAtomic(env: Env, s: State, events: seq<Event>, id: nat,
                                             table: Table, ops: seq<Op>)
    requires id in s.batches && s.batches[id] == Admitting(ops, 0, 0, false)
    requires UnderList(env, s, events, id, table)
    ensures Admitted(env, Run(env, s, events), id, table, ops, |s.outcomes|)
    decreases |events|
  {
    hide React, Tracks, Looking, EndedAs;
    if events == [] {
      FirstTracks(env, table, ops);
    } else {
      var init := events[..|events| - 1];
      AdmissionIsAtomic(env, s, init, id, table, ops);
      StepTracks(env, Run(env, s, init), events[|events| - 1], id, table, ops, |s.outcomes|);
    }
  }

  lemma FirstTracks(env: Env, table: Table, ops: seq<Op>)
    ensures Tracks(env, table, ops, Admitting(ops, 0, 0, false))
  {
    hide AdmitOp;
  }
}
