/** The steps of a batch, undisturbed, carry out the whole call. */
module UndisturbedBatch {
  import opened Words
  import opened Registers
  import opened Batch
  import opened BatchExec
  import opened BatchFacts
  import opened ModuleRuns
  import opened StepsAndCalls
  import opened ListReplacement

  lemma {:induction false} RunConcat(env: Env, s: State, a: seq<Event>, b: seq<Event>)
    ensures Run(env, s, a + b) == Run(env, Run(env, s, a), b)
    decreases |b|
  {
    hide React;
    if b == [] {
      assert a + b == a;
    } else {
      var init := b[..|b| - 1];
      RunConcat(env, s, a, init);
      assert (a + b)[..|a + b| - 1] == a + init;
    }
  }

  lemma RunOne(env: Env, s: State, e: Event)
    ensures Run(env, s, [e]) == React(env, s, e)
  {
    hide React;
    assert [e][..0] == [];
  }

  /** Only batch 0 is under way; nothing else has changed. */
  ghost predicate OnlyBatch(s: State, t: State) {
    && t.table == s.table && t.regs == s.regs && t.writers == s.writers && t.outcomes == s.outcomes
    && t.batches.Keys == {0}
  }

  /** The looks at the allowlist change nothing but the batch. */
  lemma {:induction false} LooksOnly(env: Env, s: State, t0: State, events: seq<Event>)
    requires OnlyBatch(s, t0) && forall x | 0 <= x < |events| :: events[x] in {Check(0), Grant(0)}
    ensures OnlyBatch(s, Run(env, t0, events))
    decreases |events|
  {
    hide DoCheck, DoGrant;
    if events != [] {
      LooksOnly(env, s, t0, events[..|events| - 1]);
    }
  }

  /** One step of a handler for each turn of the schedule. */
  function Turns(schedule: seq<u16>): seq<Event> {
    seq(|schedule|, i requires 0 <= i < |schedule| => Handle(0, schedule[i]))
  }

  /** The handlers take their turns as in the system of the handlers alone. */
  lemma {:induction false} TurnsRun(env: Env, s: State, t: State, x: Exec, schedule: seq<u16>)
    requires t.batches == map[0 := Executing(x)]
    requires t.table == s.table && t.writers == s.writers && t.outcomes == s.outcomes
    ensures var r := RunHandlers(env, x, t.regs, schedule);
            var u := Run(env, t, Turns(schedule));
            && u.batches == map[0 := Executing(r.exec)] && u.regs == r.regs
            && u.table == s.table && u.writers == s.writers && u.outcomes == s.outcomes
    decreases |schedule|
  {
    hide HandlerStep, Stored;
    if schedule != [] {
      var e := Handle(0, schedule[0]);
      var r := HandlerStep(env, x, t.regs, schedule[0]);
      var t' := React(env, t, e);
      assert t'.batches == map[0 := Executing(r.exec)];
      TurnsRun(env, s, t', r.exec, schedule[1..]);
      assert Turns(schedule) == [e] + Turns(schedule[1..]);
      RunConcat(env, t, [e], Turns(schedule[1..]));
      RunOne(env, t, e);
    }
  }

  /** Admission, undisturbed: every op as one look at the list leaves it, and the code of the last refusal. */
  lemma Admission(env: Env, s: State, ops: seq<Op>) returns (events: seq<Event>)
    requires Between(s)
    ensures var t := Run(env, s, events);
            var admitted := Admit(env, s.table, ops);
            OnlyBatch(s, t) && t.batches == map[0 := Admitting(admitted, |ops|, LastError(admitted), false)]
  {
    hide React, Run, UnderList, EndedAs, LastError, AdmitOp;
    var s1 := React(env, s, Submit(0, ops));
    Submitted(env, s, ops);
    RunOne(env, s, Submit(0, ops));
    NothingUnder(env, s1, 0, s.table);
    var looks := GoOn(env, s1, [], 0, s.table, |ops|, |ops|, 0);
    LooksOnly(env, s, s1, looks);
    AdmissionIsAtomic(env, s1, looks, 0, s.table, ops);
    var b := Run(env, s1, looks).batches[0];
    assert Tracks(env, s.table, ops, b);
    BeginTracks(env, s.table, ops, b);
    RunConcat(env, s, [Submit(0, ops)], looks);
    events := [Submit(0, ops)] + looks;
    assert Run(env, s, events).batches == map[0 := b];
  }

  lemma Submitted(env: Env, s: State, ops: seq<Op>)
    requires Between(s)
    ensures React(env, s, Submit(0, ops)) == s.(batches := map[0 := Admitting(ops, 0, 0, false)])
  {}

  lemma Refused(env: Env, t: State, ops: seq<Op>, err: int)
    requires t.batches == map[0 := Admitting(ops, |ops|, err, false)] && err != 0
    ensures React(env, t, Begin(0)) == t.(batches := map[], outcomes := t.outcomes + [BatchEnded(0, err, ops)])
  {
    assert t.batches - {0} == map[];
  }

  lemma Begun(env: Env, t: State, ops: seq<Op>)
    requires t.batches == map[0 := Admitting(ops, |ops|, 0, false)]
    ensures React(env, t, Begin(0)) == t.(batches := map[0 := Executing(Start(env, ops))])
  {}

  lemma Ended(env: Env, t: State, x: Exec)
    requires t.batches == map[0 := Executing(x)] && Finished(x)
    ensures React(env, t, Finish(0))
            == t.(batches := map[], outcomes := t.outcomes + [BatchEnded(0, FirstError(x.ops), x.ops)])
  {
    assert t.batches - {0} == map[];
  }

  /**
    * Between calls, every batch can be submitted, admitted and, unless it is refused, executed to its end. What it
    * returns, the ops it copies back and the registers it leaves are those of the whole call.
    */
  lemma BatchHappens(env: Env, s: State, ops: seq<Op>) returns (events: seq<Event>)
    requires Between(s)
    ensures var t := Run(env, s, events);
            var r := BatchOutcome(env, s.table, ops, s.regs);
            && Between(t) && t.table == s.table && t.regs == r.regs
            && t.outcomes == s.outcomes + [BatchEnded(0, r.ret, r.ops)]
  {
    hide React, Run, LastError, FirstError, AdmitOp, RegsAfter, OpAfter, RunHandlers, Start, Finished;
    events := Admission(env, s, ops);
    var t, admitted := Run(env, s, events), Admit(env, s.table, ops);
    RunOne(env, t, Begin(0));
    RunConcat(env, s, events, [Begin(0)]);
    events := events + [Begin(0)];
    if LastError(admitted) != 0 {
      Refused(env, t, admitted, LastError(admitted));
    } else {
      Begun(env, t, admitted);
      var t1 := Run(env, s, events);
      var schedule := HandlersFinish(env, admitted, s.regs, []);
      NoTurns(env, Start(env, admitted), s.regs);
      TurnsRun(env, s, t1, Start(env, admitted), schedule);
      RunConcat(env, s, events, Turns(schedule));
      events := events + Turns(schedule);
      var t2 := Run(env, s, events);
      var x := RunHandlers(env, Start(env, admitted), s.regs, schedule).exec;
      Ended(env, t2, x);
      RunOne(env, t2, Finish(0));
      RunConcat(env, s, events, [Finish(0)]);
      events := events + [Finish(0)];
    }
  }

  lemma NoTurns(env: Env, x: Exec, regs: Regs)
    ensures RunHandlers(env, x, regs, []) == Step(x, regs)
  {}
}
