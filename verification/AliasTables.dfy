/** Allowlists for which a second restore is always idle, and others. */
module AliasTables {
  import opened Words
  import opened AllowlistText
  import opened AllowlistSpec
  import opened Registers
  import opened SaveRestore
  import opened Restoration
  import opened Idempotence

  /** The entry names no bit that the driver withholds, unless it permits no write of the register at all. */
  predicate CoveredEntry(table: Table, e: Entry) {
    var mask := MaskOf(table, Truncate(e.msr));
    Seekable(e.msr) && mask != 0 ==> Withheld(Bits(e.wmask), mask) == 0
  }

  predicate Covered(table: Table) {
    forall i | 0 <= i < |table| :: CoveredEntry(table, table[i])
  }

  lemma CoveredIsNotHopeless(env: Env, table: Table, regs0: Regs, regs: Regs, cpu: u16, e: Entry)
    requires CoveredEntry(table, e) && !Due(env, table, regs0, regs, cpu, e)
    ensures !Hopeless(env, table, regs0, regs, cpu, e)
  {
    hide Agree, MaskOf, Bits, Listed, Withheld, Allowed;
    var c := Cell(cpu, Truncate(e.msr));
    if MaskOf(table, c.msr) == 0 {
      NothingPermitted(Bits(e.wmask));
    } else {
      EmptyMask(regs[c], regs0[c], 0);
    }
  }

  /** On any machine: behind a restore without a failed write, a second one is idle if the table is covered. */
  lemma SecondRestoreIsIdle(env: Env, table: Table, regs0: Regs, regs: Regs, numCpu: nat, file: seq<bv64>)
    requires Covered(table) && Saved(env, table, regs0, numCpu, file)
    requires Off(numCpu, |table|) <= |file| && forall i | 0 <= i < numCpu :: Opens(env, i)
    ensures var first := RestoreSaved(env, table, regs, file, numCpu);
            first.failures == 0 ==> RestoreSaved(env, table, first.regs, file, numCpu) == Restored(first.regs, 0, 0)
  {
    hide RestoreSaved, Saved, CoveredEntry, Hopeless, Due;
    var first := RestoreSaved(env, table, regs, file, numCpu);
    if first.failures == 0 {
      forall cpu: u16, i | cpu < numCpu && 0 <= i < |table|
        ensures !Hopeless(env, table, regs0, regs, cpu, table[i])
      {
        AllSettled(env, table, regs0, regs, numCpu, file, numCpu, cpu);
        CoveredIsNotHopeless(env, table, regs0, first.regs, cpu, table[i]);
        HopelessStays(env, table, regs0, regs, numCpu, file, cpu, table[i]);
      }
      SecondRestoreIsIdleIff(env, table, regs0, regs, numCpu, file);
    }
  }

  // ---- Tables that are not ----

  ghost predicate Faultless(env: Env) {
    (forall c: Cell :: !env.readFault(c)) && (forall c: Cell, v: bv64 :: !env.writeFault(c, v))
  }

  ghost const ZEROS: Regs := imap c: Cell :: 0

  lemma NothingCollides(env: Env, table: Table, cpu: u16, e: Entry)
    ensures !Collides(env, table, ZEROS, cpu, e)
  {
    hide Listed, IsFull, Bits;
    assert Masked(0, Bits(e.wmask)) == 0;
  }

  lemma VainWrite(mask: bv64, own: bv64, u: bv64)
    requires Disjoint(u, mask)
    ensures Merge(mask, Merge(own, 0, u), u) == u
  {
    hide Merge, Agree, Disjoint;
    DisjointIsZero(u, mask);
    AgreeSmaller(u, 0, mask, own);
    MergeNested(mask, own, 0, u);
    MergeOfEqual(mask & own, 0, u);
  }

  lemma DisjointIsZero(u: bv64, mask: bv64)
    ensures Disjoint(u, mask) <==> Agree(u, 0, mask)
  {
    assert 0 & mask == 0;
  }

  /** Only withheld bits of register `a` of CPU 0 are set: a turn succeeds with every write, but changes nothing. */
  lemma TurnInVain(env: Env, table: Table, o: Restored, a: u32, u: bv64, e: Entry)
    requires Faultless(env) && o.regs == ZEROS[Cell(0, a) := u]
    requires MaskOf(table, a) != 0 && Disjoint(u, MaskOf(table, a))
    ensures var turn := Turn(env, table, ZEROS, o, 0, e);
            turn.regs == o.regs && turn.failures == o.failures
  {
    hide RestoreCell, SavedWord, Collides, MaskOf, Merge, Bits, Disjoint, Listed;
    var c: Cell := Cell(0, Truncate(e.msr));
    var turn := Turn(env, table, ZEROS, o, 0, e);
    NothingCollides(env, table, 0, e);
    RestoringWrite(env, table, ZEROS, o, 0, e);
    VainWrite(MaskOf(table, a), Bits(e.wmask), u);
    forall d: Cell
      ensures turn.regs[d] == o.regs[d]
    {
      if d != c {
        OtherCell(env, table, o, 0, e, SavedWord(env, table, ZEROS, 0, e), d);
      }
    }
    assert turn.regs == o.regs;
  }

  lemma {:induction false} RowInVain(env: Env, table: Table, o: Restored, a: u32, u: bv64, j: nat)
    requires Faultless(env) && o.regs == ZEROS[Cell(0, a) := u]
    requires MaskOf(table, a) != 0 && Disjoint(u, MaskOf(table, a))
    requires j <= |table|
    ensures var p := RowTo(env, table, ZEROS, o, 0, j); p.regs == o.regs && p.failures == o.failures
  {
    hide Turn, RowTo, MaskOf, Disjoint;
    RowStart(env, table, ZEROS, o, 0);
    if j > 0 {
      RowInVain(env, table, o, a, u, j - 1);
      RowNext(env, table, ZEROS, o, 0, j);
      TurnInVain(env, table, RowTo(env, table, ZEROS, o, 0, j - 1), a, u, table[j - 1]);
    }
  }

  /** The save file of CPU 0. */
  lemma OneCpuSaved(env: Env, table: Table, regs0: Regs) returns (file: seq<bv64>)
    requires Unique(table) && 0 in env.online && Clean(env, table, regs0, 0, table)
    ensures Saved(env, table, regs0, 1, file)
  {
    hide Collides, SavedWord;
    file := SavedRow(env, table, regs0, 0, table);
    assert Off(1, |table|) == Off(0, |table|) + |table|;
    assert RowOf(file, |table|, 0) == file;
  }

  /** If the first restore had no failed write, the second asks for no write. */
  ghost predicate IdleAgain(env: Env, table: Table, regs0: Regs, regs: Regs, numCpu: nat, file: seq<bv64>) {
    Saved(env, table, regs0, numCpu, file)
    && Off(numCpu, |table|) <= |file| && (forall i | 0 <= i < numCpu :: Opens(env, i)) ==>
      var first := RestoreSaved(env, table, regs, file, numCpu);
      first.failures == 0 ==> RestoreSaved(env, table, first.regs, file, numCpu).tries == 0
  }

  lemma CutOff(own: bv64, mask: bv64)
    ensures Disjoint(Withheld(own, mask), mask)
  {}

  lemma NotZero(u: bv64)
    requires u != 0
    ensures !Agree(u, 0, u)
  {
    assert u & u == u && 0 & u == 0;
  }

  /** An entry for withheld bits makes every restore write in vain. */
  lemma UncoveredRetries(env: Env, table: Table, x: nat) returns (regs: Regs, file: seq<bv64>)
    requires Unique(table) && Faultless(env) && 0 in env.online
    requires x < |table| && !CoveredEntry(table, table[x])
    ensures !IdleAgain(env, table, ZEROS, regs, 1, file)
  {
    hide Saved, RestoreSaved, RowTo, MaskOf, Disjoint, Agree, Collides, Unique, Withheld;
    var a := Truncate(table[x].msr);
    var u := Withheld(Bits(table[x].wmask), MaskOf(table, a));
    CutOff(Bits(table[x].wmask), MaskOf(table, a));
    NotZero(u);
    regs := ZEROS[Cell(0, a) := u];
    forall j | 0 <= j < |table|
      ensures !Collides(env, table, ZEROS, 0, table[j])
    {
      NothingCollides(env, table, 0, table[j]);
    }
    file := OneCpuSaved(env, table, ZEROS);
    SavedPrefix(env, table, ZEROS, 1, file, 1);
    NextCpu(env, table, ZEROS, regs, 1, file, 1);
    NoCpu(env, table, regs, file);
    NoMaskUnlisted(table, a);
    RowInVain(env, table, Restored(regs, 0, 0), a, u, |table|);
    assert Hopeless(env, table, ZEROS, regs, 0, table[x]);
    assert !NoneHopelessOn(env, table, ZEROS, regs, 0);
    SecondRestoreIsIdleIff(env, table, ZEROS, regs, 1, file);
  }

  /**
    * On a machine without faults, a second restore is idle whatever was saved and whatever the registers hold
    * if and only if no entry of the allowlist names withheld bits.
    */
  lemma AlwaysIdleIff(env: Env, table: Table)
    requires Unique(table) && Faultless(env) && 0 in env.online
    ensures (forall regs0, regs, numCpu, file :: IdleAgain(env, table, regs0, regs, numCpu, file)) <==> Covered(table)
  {
    hide Saved, RestoreSaved, CoveredEntry, Faultless, Unique;
    if Covered(table) {
      forall regs0, regs, numCpu, file
        ensures IdleAgain(env, table, regs0, regs, numCpu, file)
      {
        if Saved(env, table, regs0, numCpu, file) {
          SavedPrefix(env, table, regs0, numCpu, file, numCpu);
          SecondRestoreIsIdle(env, table, regs0, regs, numCpu, file);
        }
      }
    } else {
      var x :| 0 <= x < |table| && !CoveredEntry(table, table[x]);
      var regs, file := UncoveredRetries(env, table, x);
    }
  }

  /** A table that names withheld bits: the second entry is an alias of the first with more bits in its mask. */
  lemma AliasIsUncovered()
    ensures var table := [Entry(0x10, 0x0F), Entry(0x1_0000_0010, 0xFF)]; Unique(table) && !Covered(table)
  {
    var table := [Entry(0x10, 0x0F), Entry(0x1_0000_0010, 0xFF)];
    ScanIs(table, 0x10, 0);
    assert MaskOf(table, 0x10) == 0x0F;
    assert Withheld(0xFF, 0x0F) != 0;
    assert !CoveredEntry(table, table[1]);
  }
}
