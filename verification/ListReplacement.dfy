/**
  * The allowlist is replaced while a batch is being admitted: exactly when every moment of the replacement
  * leaves the batch as the old list alone or the new list alone would admit it.
  */
module ListReplacement {
  import opened Words
  import opened AllowlistText
  import opened AllowlistSpec
  import opened Registers
  import opened Batch
  import opened BatchExec
  import opened ModuleRuns
  import opened StepsAndCalls

  /** The op as it is left when `first` is the list at its check, and `second` the one at its mask lookup. */
  function AdmitLooks(env: Env, first: Table, second: Table, op: Op): Op {
    if op.cpu !in env.online then op.(err := ENXIO)
    else if !Listed(first, op.msr) then op.(err := EACCES)
    else GrantOp(second, op.(err := 0))
  }

  function GrantOp(table: Table, op: Op): Op {
    var mask := MaskOf(table, op.msr);
    op.(wmask := mask, err := if mask == 0 && op.isrdmsr == 0 then EROFS else op.err)
  }

  /** The list changes from `old'` to `new'` in front of op `k`, or between its check and its mask lookup. */
  function Blend(env: Env, old': Table, new': Table, ops: seq<Op>, k: nat, between: bool): seq<Op> {
    seq(|ops|, j requires 0 <= j < |ops| =>
      if j < k then AdmitOp(env, old', ops[j])
      else if j == k && between then AdmitLooks(env, old', new', ops[j])
      else AdmitOp(env, new', ops[j]))
  }

  ghost predicate OneOf(env: Env, old': Table, new': Table, ops: seq<Op>, now: seq<Op>) {
    now == Admit(env, old', ops) || now == Admit(env, new', ops)
  }

  /** The replacement makes a difference to this op. */
  predicate Affected(env: Env, old': Table, new': Table, op: Op) {
    AdmitOp(env, old', op) != AdmitOp(env, new', op)
  }

  /** The old list lets the op write, or read with a mask, and the new one does not have its address. */
  predicate Unlisted(env: Env, old': Table, new': Table, op: Op) {
    op.cpu in env.online && MaskOf(old', op.msr) != 0 && !Listed(new', op.msr)
  }

  /** One op at most is affected, and none loses its entry. */
  ghost predicate OneLook(env: Env, old': Table, new': Table, ops: seq<Op>) {
    && (forall i, j | 0 <= i < j < |ops| ::
          !Affected(env, old', new', ops[i]) || !Affected(env, old', new', ops[j]))
    && (forall i | 0 <= i < |ops| :: !Unlisted(env, old', new', ops[i]))
  }

  // ---- Moments ----

  lemma LooksAre(env: Env, old': Table, new': Table, op: Op)
    ensures var mixed := AdmitLooks(env, old', new', op);
            mixed == AdmitOp(env, old', op) || mixed == AdmitOp(env, new', op) <==> !Unlisted(env, old', new', op)
    ensures Unlisted(env, old', new', op) ==> Affected(env, old', new', op) && Listed(old', op.msr)
  {
    hide MaskOf, Listed;
    NoMaskUnlisted(old', op.msr);
    NoMaskUnlisted(new', op.msr);
  }

  lemma GoodMoment(env: Env, old': Table, new': Table, ops: seq<Op>, k: nat, between: bool)
    requires OneLook(env, old', new', ops)
    ensures OneOf(env, old', new', ops, Blend(env, old', new', ops, k, between))
  {
    hide AdmitOp, AdmitLooks, Unlisted;
    var now := Blend(env, old', new', ops, k, between);
    if k < |ops| {
      LooksAre(env, old', new', ops[k]);
    }
    if d :| 0 <= d < |ops| && Affected(env, old', new', ops[d]) {
      if now[d] == AdmitOp(env, old', ops[d]) {
        assert now == Admit(env, old', ops);
      } else {
        assert now == Admit(env, new', ops);
      }
    } else {
      assert now == Admit(env, old', ops);
    }
  }

  lemma BadMoment(env: Env, old': Table, new': Table, ops: seq<Op>) returns (k: nat, between: bool)
    requires !OneLook(env, old', new', ops)
    ensures k < |ops| && !OneOf(env, old', new', ops, Blend(env, old', new', ops, k, between))
    ensures between ==> ops[k].cpu in env.online && Listed(old', ops[k].msr)
  {
    hide AdmitOp, AdmitLooks;
    if i :| 0 <= i < |ops| && Unlisted(env, old', new', ops[i]) {
      k, between := i, true;
      LooksAre(env, old', new', ops[k]);
      assert Blend(env, old', new', ops, k, between)[k] == AdmitLooks(env, old', new', ops[k]);
    } else {
      var i, j :| 0 <= i < j < |ops| && Affected(env, old', new', ops[i]) && Affected(env, old', new', ops[j]);
      k, between := j, false;
      var now := Blend(env, old', new', ops, k, between);
      assert now[i] == AdmitOp(env, old', ops[i]) && now[j] == AdmitOp(env, new', ops[j]);
    }
  }

  // ---- Runs ----

  /** Admission is inside the array, and its code is that of the last op refused so far. */
  ghost predicate Sane(b: Batcher) {
    b.Admitting? ==>
      && b.i <= |b.ops| && b.err == LastError(b.ops[..b.i])
      && (b.checked ==> b.i < |b.ops| && b.ops[b.i].err == 0)
  }

  /** The ops as they will be left if the list stays `table`. */
  function Completion(env: Env, table: Table, b: Batcher): seq<Op>
    requires b.Admitting?
  {
    seq(|b.ops|, j requires 0 <= j < |b.ops| =>
      if j < b.i then b.ops[j]
      else if j == b.i && b.checked then GrantOp(table, b.ops[j])
      else AdmitOp(env, table, b.ops[j]))
  }

  lemma CheckCompletes(env: Env, s: State, b: Batcher)
    requires b.Admitting? && !b.checked && b.i < |b.ops| && Sane(b)
    ensures var b' := DoCheck(env, s, b);
            b'.Admitting? && Sane(b') && Completion(env, s.table, b') == Completion(env, s.table, b)
  {
    hide MaskOf, Listed, LastError;
    LastErrorNext(DoCheck(env, s, b).ops, b.i);
    assert DoCheck(env, s, b).ops[..b.i] == b.ops[..b.i];
    assert Completion(env, s.table, DoCheck(env, s, b)) == Completion(env, s.table, b);
  }

  lemma GrantCompletes(env: Env, s: State, b: Batcher)
    requires b.Admitting? && b.checked && b.i < |b.ops| && Sane(b)
    ensures var b' := DoGrant(s, b);
            b'.Admitting? && Sane(b') && Completion(env, s.table, b') == Completion(env, s.table, b)
  {
    hide MaskOf, Listed, LastError;
    LastErrorNext(DoGrant(s, b).ops, b.i);
    assert DoGrant(s, b).ops[..b.i] == b.ops[..b.i];
    assert Completion(env, s.table, DoGrant(s, b)) == Completion(env, s.table, b);
  }

  lemma StepCompletes(env: Env, s: State, e: Event, id: nat, table: Table)
    requires !(e.Submit? && e.id == id) && (Looking(s, id) ==> s.table == table)
    requires id in s.batches ==> Sane(s.batches[id])
    ensures var t := React(env, s, e);
            id in t.batches && t.batches[id].Admitting? ==>
              && id in s.batches && s.batches[id].Admitting? && Sane(t.batches[id])
              && Completion(env, table, t.batches[id]) == Completion(env, table, s.batches[id])
  {
    hide WriteOutcome, Stored, Start, MaskOf, Merge, DoCheck, DoGrant, HandlerStep, Completion;
    if id in s.batches && s.batches[id].Admitting? && s.batches[id].i < |s.batches[id].ops| {
      if e == Check(id) && !s.batches[id].checked {
        CheckCompletes(env, s, s.batches[id]);
      } else if e == Grant(id) && s.batches[id].checked {
        GrantCompletes(env, s, s.batches[id]);
      }
    }
  }

  /** As long as the list is `table` when the batch looks at it, its completion under `table` is the same. */
  lemma {:induction false} CompletionKept(env: Env, s: State, events: seq<Event>, id: nat, table: Table)
    requires id in s.batches ==> Sane(s.batches[id])
    requires UnderList(env, s, events, id, table)
    ensures var t := Run(env, s, events);
            id in t.batches && t.batches[id].Admitting? ==>
              && id in s.batches && s.batches[id].Admitting? && Sane(t.batches[id])
              && Completion(env, table, t.batches[id]) == Completion(env, table, s.batches[id])
    decreases |events|
  {
    hide React, Completion, Looking;
    if events != [] {
      var init := events[..|events| - 1];
      CompletionKept(env, s, init, id, table);
      StepCompletes(env, Run(env, s, init), events[|events| - 1], id, table);
    }
  }

  lemma Blends(env: Env, old': Table, new': Table, ops: seq<Op>, b: Batcher)
    requires Tracks(env, old', ops, b) && b.Admitting?
    ensures Completion(env, new', b) == Blend(env, old', new', ops, b.i, b.checked) && Sane(b)
  {
    hide LastError, MaskOf, Listed, Scan;
    assert b.ops[..b.i] == Admit(env, old', ops)[..b.i];
  }

  /** Admission ended in `now`, having looked at `old'` in the events `before` and at `new'` in the events `after`. */
  ghost predicate Replaced(env: Env, s: State, before: seq<Event>, after: seq<Event>, id: nat,
                           old': Table, new': Table, now: seq<Op>)
  {
    var t := Run(env, Run(env, s, before), after);
    && UnderList(env, s, before, id, old') && UnderList(env, Run(env, s, before), after, id, new')
    && id in t.batches && t.batches[id].Admitting? && t.batches[id].i == |t.batches[id].ops|
    && t.batches[id].ops == now
  }

  /** What admission ended in is the blend for the moment of the replacement, and its code the last refusal in it. */
  lemma ReplacedIsBlend(env: Env, s: State, before: seq<Event>, after: seq<Event>, id: nat,
                        old': Table, new': Table, ops: seq<Op>, now: seq<Op>)
    requires id in s.batches && s.batches[id] == Admitting(ops, 0, 0, false)
    requires Replaced(env, s, before, after, id, old', new', now)
    ensures var mid := Run(env, s, before);
            && id in mid.batches && mid.batches[id].Admitting?
            && now == Blend(env, old', new', ops, mid.batches[id].i, mid.batches[id].checked)
    ensures Run(env, Run(env, s, before), after).batches[id].err == LastError(now)
  {
    hide Run, Tracks, UnderList, EndedAs, Completion, Blend;
    var mid := Run(env, s, before);
    AdmissionIsAtomic(env, s, before, id, old', ops);
    if id in mid.batches && mid.batches[id].Admitting? {
      Blends(env, old', new', ops, mid.batches[id]);
    }
    CompletionKept(env, mid, after, id, new');
    Completed(env, new', Run(env, mid, after).batches[id]);
  }

  lemma Completed(env: Env, table: Table, b: Batcher)
    requires b.Admitting? && b.i == |b.ops| && Sane(b)
    ensures Completion(env, table, b) == b.ops && b.err == LastError(b.ops)
  {
    hide LastError;
    assert b.ops[..b.i] == b.ops;
  }

  // ---- Every moment comes about ----

  lemma UnderSnoc(env: Env, s: State, events: seq<Event>, e: Event, id: nat, table: Table)
    requires UnderList(env, s, events, id, table) && !(e.Submit? && e.id == id)
    requires Looking(Run(env, s, events), id) ==> Run(env, s, events).table == table
    ensures UnderList(env, s, events + [e], id, table)
    ensures Run(env, s, events + [e]) == React(env, Run(env, s, events), e)
  {
    hide React, Looking;
    assert (events + [e])[..|events|] == events;
  }

  /** Admission stands in front of op `i`, or, with `checked`, behind its check, with the list `table`. */
  ghost predicate StandsAt(s: State, id: nat, table: Table, n: nat, i: nat, checked: bool) {
    && s.table == table && id in s.batches && s.batches[id].Admitting?
    && |s.batches[id].ops| == n && s.batches[id].i == i && s.batches[id].checked == checked
  }

  lemma CheckAndGrant(env: Env, s: State, id: nat, table: Table, n: nat, i: nat)
    requires StandsAt(s, id, table, n, i, false) && i < n
    ensures var t := React(env, s, Check(id));
            (StandsAt(t, id, table, n, i, true) || StandsAt(t, id, table, n, i + 1, false))
            && StandsAt(React(env, t, Grant(id)), id, table, n, i + 1, false)
  {
    hide MaskOf, Listed;
  }

  /** Admission goes on to op `i` under one list. */
  lemma {:induction false} GoOn(env: Env, s: State, begun: seq<Event>, id: nat, table: Table, n: nat, i: nat, j: nat)
    returns (events: seq<Event>)
    requires UnderList(env, s, begun, id, table) && StandsAt(Run(env, s, begun), id, table, n, j, false) && j <= i <= n
    ensures UnderList(env, s, events, id, table) && StandsAt(Run(env, s, events), id, table, n, i, false)
    ensures begun <= events && forall x | |begun| <= x < |events| :: events[x] in {Check(id), Grant(id)}
    decreases i - j
  {
    hide React, Run, UnderList;
    if i == j {
      events := begun;
    } else {
      var t := Run(env, s, begun);
      CheckAndGrant(env, t, id, table, n, j);
      UnderSnoc(env, s, begun, Check(id), id, table);
      var checked := begun + [Check(id)];
      UnderSnoc(env, s, checked, Grant(id), id, table);
      events := GoOn(env, s, checked + [Grant(id)], id, table, n, i, j + 1);
    }
  }

  /** The list is replaced by a device write at the given moment, and admission goes on to its end. */
  lemma MomentHappens(env: Env, s: State, id: nat, ops: seq<Op>, input: seq<byte>, k: nat, between: bool)
    returns (before: seq<Event>, after: seq<Event>, now: seq<Op>)
    requires id in s.batches && s.batches[id] == Admitting(ops, 0, 0, false) && k < |ops|
    requires between ==> ops[k].cpu in env.online && Listed(s.table, ops[k].msr)
    ensures var new' := WriteOutcome(s.table, input).table;
            && Replaced(env, s, before, after, id, s.table, new', now)
            && now == Blend(env, s.table, new', ops, k, between)
  {
    hide React, Run, UnderList, WriteOutcome, Blend, Tracks, Listed;
    var old', new' := s.table, WriteOutcome(s.table, input).table;
    NothingUnder(env, s, id, old');
    before := GoOn(env, s, [], id, old', |ops|, k, 0);
    if between {
      CheckPasses(env, s, before, id, ops, k);
      UnderSnoc(env, s, before, Check(id), id, old');
      before := before + [Check(id)];
    }
    Replacing(env, Run(env, s, before), id, |ops|, k, between, input);
    UnderSnoc(env, s, before, DeviceWrite(input), id, old');
    before := before + [DeviceWrite(input)];
    var mid := Run(env, s, before);
    NothingUnder(env, mid, id, new');
    after := [];
    if between {
      GrantMoves(env, mid, id, new', |ops|, k);
      UnderSnoc(env, mid, [], Grant(id), id, new');
      after := [] + [Grant(id)];
    }
    after := GoOn(env, mid, after, id, new', |ops|, |ops|, if between then k + 1 else k);
    now := Run(env, mid, after).batches[id].ops;
    assert Replaced(env, s, before, after, id, old', new', now);
    ReplacedIsBlend(env, s, before, after, id, old', new', ops, now);
  }

  lemma NothingUnder(env: Env, s: State, id: nat, table: Table)
    ensures UnderList(env, s, [], id, table) && Run(env, s, []) == s
  {}

  lemma CheckPasses(env: Env, s: State, events: seq<Event>, id: nat, ops: seq<Op>, k: nat)
    requires id in s.batches && s.batches[id] == Admitting(ops, 0, 0, false) && k < |ops|
    requires UnderList(env, s, events, id, s.table)
    requires StandsAt(Run(env, s, events), id, s.table, |ops|, k, false)
    requires ops[k].cpu in env.online && Listed(s.table, ops[k].msr)
    ensures StandsAt(React(env, Run(env, s, events), Check(id)), id, s.table, |ops|, k, true)
  {
    hide Run, UnderList, Listed, EndedAs, LastError, AdmitOp;
    AdmissionIsAtomic(env, s, events, id, s.table, ops);
    assert Tracks(env, s.table, ops, Run(env, s, events).batches[id]);
  }

  lemma Replacing(env: Env, s: State, id: nat, n: nat, k: nat, checked: bool, input: seq<byte>)
    requires StandsAt(s, id, s.table, n, k, checked)
    ensures StandsAt(React(env, s, DeviceWrite(input)), id, WriteOutcome(s.table, input).table, n, k, checked)
  {
    hide WriteOutcome;
  }

  lemma GrantMoves(env: Env, s: State, id: nat, table: Table, n: nat, k: nat)
    requires StandsAt(s, id, table, n, k, true) && k < n
    ensures StandsAt(React(env, s, Grant(id)), id, table, n, k + 1, false)
  {
    hide MaskOf;
  }

  /**
    * A device write replaces the allowlist while a batch is being admitted. Whenever it comes, and whatever
    * other calls do, the batch is left as the old list alone or the new list alone would leave it, if and only
    * if the replacement affects one of its ops at most, and takes no entry with a mask from any of them.
    */
  lemma ReplacementIsOneLookIff(env: Env, s: State, id: nat, ops: seq<Op>, input: seq<byte>)
    requires id in s.batches && s.batches[id] == Admitting(ops, 0, 0, false)
    ensures var new' := WriteOutcome(s.table, input).table;
            (forall before, after, now | Replaced(env, s, before, after, id, s.table, new', now) ::
               OneOf(env, s.table, new', ops, now)) <==> OneLook(env, s.table, new', ops)
  {
    hide WriteOutcome, Replaced, OneOf, OneLook, Blend;
    var new' := WriteOutcome(s.table, input).table;
    if OneLook(env, s.table, new', ops) {
      forall before, after, now | Replaced(env, s, before, after, id, s.table, new', now)
        ensures OneOf(env, s.table, new', ops, now)
      {
        ReplacedIsBlend(env, s, before, after, id, s.table, new', ops, now);
        var b := Run(env, s, before).batches[id];
        GoodMoment(env, s.table, new', ops, b.i, b.checked);
      }
    } else {
      var k, between := BadMoment(env, s.table, new', ops);
      var before, after, now := MomentHappens(env, s, id, ops, input, k, between);
    }
  }
}
