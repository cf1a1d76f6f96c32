/** Two batches that are admitted as neither the old allowlist nor the new one alone would admit them. */
module MixedMasks {
  import opened Words
  import opened AllowlistText
  import opened AllowlistPrint
  import opened AllowlistSpec
  import opened Registers
  import opened Batch
  import opened BatchExec
  import opened ModuleRuns
  import opened DeviceFacts

  const OLD: Table := [Entry(0x10, 1)]
  const NEW: Table := [Entry(0x10, 2)]

  /** Two writes of the same register. */
  const OPS: seq<Op> := [Op(0, 0, 0, 0x10, 0, 0), Op(0, 0, 0, 0x10, 0, 0)]

  lemma Masks()
    ensures Listed(OLD, 0x10) && MaskOf(OLD, 0x10) == 1
    ensures Listed(NEW, 0x10) && MaskOf(NEW, 0x10) == 2
  {
    ScanIs(OLD, 0x10, 0);
    ScanIs(NEW, 0x10, 0);
  }

  /** Writing the listing of a one-entry table installs it. */
  lemma Replaces(env: Env, s: State, table: Table)
    requires |table| == 1
    ensures React(env, s, DeviceWrite(ReadOn(table, 0, LINE_MAX))) == s.(table := table)
  {
    hide ReadOn, WriteOutcome;
    Reinstall(table, s.table, LINE_MAX);
    ListingLength(table, 0, LINE_MAX);
  }

  /** Check and mask lookup of op `i` under a list that gives its register the mask `mask`. */
  lemma Admits(env: Env, s: State, ops: seq<Op>, i: nat, mask: bv64)
    requires 0 in s.batches && s.batches[0] == Admitting(ops, i, 0, false) && i < |ops|
    requires ops[i].cpu in env.online && Listed(s.table, ops[i].msr) && MaskOf(s.table, ops[i].msr) == mask != 0
    ensures React(env, React(env, s, Check(0)), Grant(0))
            == s.(batches := s.batches[0 := Admitting(ops[i := ops[i].(err := 0, wmask := mask)], i + 1, 0, false)])
  {
    hide Listed, MaskOf;
    var t := React(env, s, Check(0));
    assert t == s.(batches := s.batches[0 := Admitting(ops[i := ops[i].(err := 0)], i, 0, true)]);
    assert ops[i := ops[i].(err := 0)][i := ops[i].(err := 0, wmask := mask)]
           == ops[i := ops[i].(err := 0, wmask := mask)];
  }

  /**
    * The list is replaced while the batch is being admitted: it goes on with the old mask in one op and the
    * new mask in the other, which it could have got from neither list alone.
    */
  lemma BatchOfTwoLists(env: Env, regs: Regs)
    requires 0 in env.online
    ensures var s0 := State(OLD, regs, map[], map[0 := Admitting(OPS, 0, 0, false)], [], []);
            var s1 := React(env, React(env, s0, Check(0)), Grant(0));
            var s2 := React(env, s1, DeviceWrite(ReadOn(NEW, 0, LINE_MAX)));
            var s3 := React(env, React(env, s2, Check(0)), Grant(0));
            var s4 := React(env, s3, Begin(0));
            && 0 in s4.batches && s4.batches[0].Executing?
            && s4.batches[0].exec.ops != Admit(env, OLD, OPS)
            && s4.batches[0].exec.ops != Admit(env, NEW, OPS)
  {
    hide React, Listed, MaskOf, ReadOn;
    Masks();
    var s0 := State(OLD, regs, map[], map[0 := Admitting(OPS, 0, 0, false)], [], []);
    Admits(env, s0, OPS, 0, 1);
    var first := OPS[0 := OPS[0].(err := 0, wmask := 1)];
    var s1 := s0.(batches := s0.batches[0 := Admitting(first, 1, 0, false)]);
    Replaces(env, s1, NEW);
    var s2 := s1.(table := NEW);
    Admits(env, s2, first, 1, 2);
    var both := first[1 := first[1].(err := 0, wmask := 2)];
    var s3 := s2.(batches := s2.batches[0 := Admitting(both, 2, 0, false)]);
    Begins(env, s3, both);
    assert Admit(env, OLD, OPS)[1].wmask == 1;
    assert Admit(env, NEW, OPS)[0].wmask == 2;
  }

  lemma Begins(env: Env, s: State, ops: seq<Op>)
    requires 0 in s.batches && s.batches[0] == Admitting(ops, |ops|, 0, false)
    ensures React(env, s, Begin(0)).batches == s.batches[0 := Executing(Start(env, ops))]
  {}

  /** A list without register 0x10, and a read of that register. */
  const OTHER: Table := [Entry(0x11, 1)]
  const READ: Op := Op(0, 1, 0, 0x10, 0, 0)

  /**
    * The entry disappears between the check and the mask lookup: the read goes on with mask 0. The old list
    * gives it mask 1, the new one refuses it.
    */
  lemma ReadOfUnlisted(env: Env, regs: Regs)
    requires 0 in env.online
    ensures var s0 := State(OLD, regs, map[], map[0 := Admitting([READ], 0, 0, false)], [], []);
            var s1 := React(env, s0, Check(0));
            var s2 := React(env, s1, DeviceWrite(ReadOn(OTHER, 0, LINE_MAX)));
            var s3 := React(env, React(env, s2, Grant(0)), Begin(0));
            && 0 in s3.batches && s3.batches[0].Executing?
            && s3.batches[0].exec.ops == [READ.(wmask := 0)]
            && Admit(env, OLD, [READ]) == [READ.(wmask := 1)]
            && LastError(Admit(env, OTHER, [READ])) == EACCES
  {
    hide Listed, MaskOf, ReadOn, WriteOutcome;
    Masks();
    Unlists();
    var s0 := State(OLD, regs, map[], map[0 := Admitting([READ], 0, 0, false)], [], []);
    var s1 := s0.(batches := s0.batches[0 := Admitting([READ], 0, 0, true)]);
    assert [READ][0 := READ.(err := 0)] == [READ];
    assert React(env, s0, Check(0)) == s1;
    Replaces(env, s1, OTHER);
    var s2 := s1.(table := OTHER);
    var s3 := s2.(batches := s2.batches[0 := Admitting([READ.(wmask := 0)], 1, 0, false)]);
    assert React(env, s2, Grant(0)) == s3;
    Begins(env, s3, [READ.(wmask := 0)]);
    assert Admit(env, OTHER, [READ]) == [READ.(err := EACCES)];
  }

  lemma Unlists()
    ensures !Listed(OTHER, 0x10) && MaskOf(OTHER, 0x10) == 0
  {
    assert Scan(OTHER[..0], 0x10).None?;
    NoMaskUnlisted(OTHER, 0x10);
  }
}
