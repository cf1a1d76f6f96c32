/** Save, any use of the module under a fixed allowlist, restore: exactly which registers come back. */
module EndToEnd {
  import opened Words
  import opened AllowlistText
  import opened AllowlistSpec
  import opened AllowlistPrint
  import opened AllowlistStore
  import opened Registers
  import opened ModuleRuns
  import opened Linearization
  import opened MsrsaveParser
  import opened SaveRestore
  import opened SaveRestoreMethods
  import opened Restoration
  import opened Idempotence

  /** A user can make register `c`, which held `v0`, hold `w`. */
  ghost predicate Changeable(env: Env, table: Table, c: Cell, v0: bv64, w: bv64) {
    && w != v0 && Within(w, v0, MaskAt(table, c))
    && c.cpu in env.online && !env.writeFault(c, w)
    && (env.readFault(c) ==> MaskAt(table, c) == FULL)
  }

  /** The saved CPUs include that of `c`, and its value `v0` can be read and written. */
  predicate Recoverable(env: Env, numCpu: nat, c: Cell, v0: bv64) {
    c.cpu < numCpu && !env.readFault(c) && !env.writeFault(c, v0)
  }

  lemma NonEmpty(w: bv64, v0: bv64, mask: bv64)
    requires w != v0 && Within(w, v0, mask)
    ensures mask != 0
  {
    if mask == 0 {
      NoMask(w, v0, w);
    }
  }

  /** Whatever permitted writes do to a register, one write could have done. */
  lemma {:induction false} HistoryChanges(env: Env, table: Table, regs: Regs, log: seq<Update>, c: Cell)
    requires History(env, table, regs, log)
    ensures var w := Replay(regs, log)[c]; w == regs[c] || Changeable(env, table, c, regs[c], w)
    decreases |log|
  {
    hide MaskOf, Merge, Within;
    if log != [] {
      var init, u := log[..|log| - 1], log[|log| - 1];
      HistoryChanges(env, table, regs, init, c);
      if u.cell == c {
        var r := Replay(regs, init)[c];
        MergeOutside(u.mask, u.data, r);
        WithinLaws(regs[c], regs[c], regs[c], u.mask);
        WithinLaws(Merge(u.mask, u.data, r), r, regs[c], u.mask);
      }
    }
  }

  /** Every change that a user can make is made by some run of the module. */
  lemma ChangeHappens(env: Env, s: State, c: Cell, w: bv64) returns (events: seq<Event>)
    requires Quiet(s) && Changeable(env, s.table, c, s.regs[c], w)
    ensures Fixed(env, s, events) && Run(env, s, events).regs[c] == w
  {
    hide MaskOf, Merge, Within, Fixed, Run;
    var mask := MaskAt(s.table, c);
    NonEmpty(w, s.regs[c], mask);
    MergeInside(mask, w, s.regs[c]);
    AgreeSelf(w, mask);
    MergeIs(mask, w, s.regs[c], w);
    var u := Update(c, mask, w);
    assert Permitted(env, s.table, s.regs, u);
    assert [u][..0] == [];
    assert History(env, s.table, s.regs, []) && Replay(s.regs, []) == s.regs;
    assert History(env, s.table, s.regs, [u]) && Replay(s.regs, [u]) == Apply(s.regs, u);
    events := Realize(env, s, [u]);
  }

  lemma AgreeSelf(w: bv64, mask: bv64)
    ensures Agree(w, w, mask)
  {}

  /** However the module is used under the allowlist of `s`, restoring gives `c` the contents it has in `s`. */
  ghost predicate ComesBack(env: Env, s: State, numCpu: nat, file: seq<bv64>, c: Cell)
    requires Off(numCpu, |s.table|) <= |file| && forall i | 0 <= i < numCpu :: Opens(env, i)
  {
    forall events | Fixed(env, s, events) ::
      RestoreSaved(env, s.table, Run(env, s, events).regs, file, numCpu).regs[c] == s.regs[c]
  }

  lemma RunChanges(env: Env, s: State, events: seq<Event>, c: Cell)
    requires Quiet(s) && Fixed(env, s, events)
    ensures var w := Run(env, s, events).regs[c]; w == s.regs[c] || Changeable(env, s.table, c, s.regs[c], w)
  {
    hide Changeable, History, Run, Fixed, WriterFits, BatcherFits;
    RunFits(env, s, events);
    HistoryChanges(env, s.table, s.regs, Run(env, s, events).log, c);
  }

  /** Restoring undoes a permitted change if the saved contents can be written back. */
  lemma Undone(env: Env, table: Table, regs0: Regs, regs: Regs, numCpu: nat, file: seq<bv64>, c: Cell)
    requires Saved(env, table, regs0, numCpu, file)
    requires Off(numCpu, |table|) <= |file| && forall i | 0 <= i < numCpu :: Opens(env, i)
    requires regs[c] == regs0[c] || Changeable(env, table, c, regs0[c], regs[c])
    ensures Recoverable(env, numCpu, c, regs0[c]) || regs[c] == regs0[c] ==>
              RestoreSaved(env, table, regs, file, numCpu).regs[c] == regs0[c]
  {
    hide Saved, Within, Agree, Merge, RestoreSaved, MaskAt;
    var mask := MaskAt(table, c);
    RestorePostcondition(env, table, regs0, regs, numCpu, file, c);
    WithinLaws(regs[c], regs0[c], regs[c], mask);
    WithinLaws(regs0[c], regs0[c], regs0[c], mask);
    AgreeSelf(regs0[c], mask);
    MergeIs(mask, regs0[c], regs[c], regs0[c]);
  }

  /** A change that restoring cannot undo stays, or gives way to other contents than the saved ones. */
  lemma NotUndone(env: Env, table: Table, regs0: Regs, regs: Regs, numCpu: nat, file: seq<bv64>, c: Cell)
    requires Saved(env, table, regs0, numCpu, file)
    requires Off(numCpu, |table|) <= |file| && forall i | 0 <= i < numCpu :: Opens(env, i)
    requires !Recoverable(env, numCpu, c, regs0[c]) && regs[c] != regs0[c]
    ensures RestoreSaved(env, table, regs, file, numCpu).regs[c] != regs0[c]
  {
    hide Saved, Within, Merge, RestoreSaved, MaskAt;
    RestorePostcondition(env, table, regs0, regs, numCpu, file, c);
  }

  /**
    * After save, any use of the module under the same allowlist and restore, a register is back to its exact
    * 64-bit contents if and only if they can be read and written on one of the saved CPUs, or nothing could
    * change them in the first place. What does not come back: a register with a full mask whose reads fault
    * (a single write does not read it), contents that fault when written, and a CPU that is not saved.
    */
  lemma SaveUseRestore(env: Env, s: State, numCpu: nat, file: seq<bv64>, c: Cell)
    requires Quiet(s) && Saved(env, s.table, s.regs, numCpu, file)
    requires Off(numCpu, |s.table|) <= |file| && forall i | 0 <= i < numCpu :: Opens(env, i)
    ensures ComesBack(env, s, numCpu, file, c) <==>
            Recoverable(env, numCpu, c, s.regs[c]) || forall w :: !Changeable(env, s.table, c, s.regs[c], w)
  {
    hide Saved, Run, Fixed, RestoreSaved, Changeable, Recoverable;
    var v0 := s.regs[c];
    if Recoverable(env, numCpu, c, v0) || forall w :: !Changeable(env, s.table, c, v0, w) {
      forall events | Fixed(env, s, events)
        ensures RestoreSaved(env, s.table, Run(env, s, events).regs, file, numCpu).regs[c] == v0
      {
        RunChanges(env, s, events, c);
        Undone(env, s.table, s.regs, Run(env, s, events).regs, numCpu, file, c);
      }
    } else {
      var w :| Changeable(env, s.table, c, v0, w);
      var events := ChangeHappens(env, s, c, w);
      ChangeableDiffers(env, s.table, c, v0, w);
      NotUndone(env, s.table, s.regs, Run(env, s, events).regs, numCpu, file, c);
    }
  }

  lemma ChangeableDiffers(env: Env, table: Table, c: Cell, v0: bv64, w: bv64)
    requires Changeable(env, table, c, v0, w)
    ensures w != v0
  {}

  /** A file saved under what the device prints for the installed table is saved under that table. */
  lemma SavedListing(env: Env, table: Table, regs: Regs, numCpu: nat, file: seq<bv64>, count: nat, es: Table)
    requires Unique(table) && table != [] && count >= LINE_MAX
    requires MsrsaveParse(ReadOn(table, 0, count)) == Entries(es)
    requires Saveable(env, table, regs, es, numCpu) && SavedFile(env, table, regs, es, numCpu, file)
    ensures Saved(env, table, regs, numCpu, file)
  {
    hide Unique, Saveable, SavedFile, ReadOn, MsrsaveParse;
    TwoParsersAgree(table, count);
  }

  /**
    * The case without faults: if all online CPUs are saved, and no writable register faults on a read or on
    * writing its saved contents, then restoring brings the whole register file back.
    */
  lemma AllRegistersComeBack(env: Env, s: State, numCpu: nat, file: seq<bv64>, events: seq<Event>)
    requires Quiet(s) && Saved(env, s.table, s.regs, numCpu, file) && Fixed(env, s, events)
    requires forall c: Cell | c.cpu in env.online && MaskAt(s.table, c) != 0 ::
               Recoverable(env, numCpu, c, s.regs[c])
    ensures Off(numCpu, |s.table|) <= |file| && forall i | 0 <= i < numCpu :: Opens(env, i)
    ensures RestoreSaved(env, s.table, Run(env, s, events).regs, file, numCpu).regs == s.regs
  {
    hide Saved, Run, Fixed, RestoreSaved, Recoverable, Within, MaskOf;
    SavedPrefix(env, s.table, s.regs, numCpu, file, numCpu);
    var after := RestoreSaved(env, s.table, Run(env, s, events).regs, file, numCpu).regs;
    forall c: Cell
      ensures after[c] == s.regs[c]
    {
      RunChanges(env, s, events, c);
      var w := Run(env, s, events).regs[c];
      if w != s.regs[c] {
        NonEmpty(w, s.regs[c], MaskAt(s.table, c));
      }
      Undone(env, s.table, s.regs, Run(env, s, events).regs, numCpu, file, c);
    }
  }

  lemma ChangeIsNotHopeless(env: Env, table: Table, regs0: Regs, regs: Regs, cpu: u16, e: Entry)
    requires var c := Cell(cpu, Truncate(e.msr)); regs[c] == regs0[c] || Changeable(env, table, c, regs0[c], regs[c])
    ensures !Hopeless(env, table, regs0, regs, cpu, e)
  {
    hide Within, MaskOf, Agree, Withheld, Listed, Bits;
    var c := Cell(cpu, Truncate(e.msr));
    var bits := Withheld(Bits(e.wmask), MaskOf(table, c.msr));
    AgreeSelf(regs0[c], bits);
    if regs[c] != regs0[c] {
      WithheldStays(regs[c], regs0[c], regs0[c], Bits(e.wmask), MaskOf(table, c.msr));
    }
  }

  /**
    * After save and any use of the module under the same allowlist, a restore without a failed write leaves
    * nothing to do for a second one: for every table, with faults and aliases.
    */
  lemma SecondRestoreAfterUse(env: Env, s: State, numCpu: nat, file: seq<bv64>, events: seq<Event>)
    requires Quiet(s) && Saved(env, s.table, s.regs, numCpu, file) && Fixed(env, s, events)
    ensures Off(numCpu, |s.table|) <= |file| && forall i | 0 <= i < numCpu :: Opens(env, i)
    ensures var first := RestoreSaved(env, s.table, Run(env, s, events).regs, file, numCpu);
            first.failures == 0 ==>
              RestoreSaved(env, s.table, first.regs, file, numCpu) == Restored(first.regs, 0, 0)
  {
    hide Saved, Run, Fixed, RestoreSaved, Changeable, Hopeless;
    SavedPrefix(env, s.table, s.regs, numCpu, file, numCpu);
    var regs := Run(env, s, events).regs;
    if RestoreSaved(env, s.table, regs, file, numCpu).failures == 0 {
      forall cpu: u16, i | cpu < numCpu && 0 <= i < |s.table|
        ensures !Hopeless(env, s.table, s.regs, regs, cpu, s.table[i])
      {
        RunChanges(env, s, events, Cell(cpu, Truncate(s.table[i].msr)));
        ChangeIsNotHopeless(env, s.table, s.regs, regs, cpu, s.table[i]);
      }
      SecondRestoreIsIdleIff(env, s.table, s.regs, regs, numCpu, file);
    }
  }

  lemma RestoreListing(env: Env, table: Table, regs0: Regs, numCpu: nat, file: seq<bv64>)
    requires Saved(env, table, regs0, numCpu, file)
    ensures |file| == Off(numCpu, |table|) && Openable(env, numCpu) == numCpu
    ensures Off(numCpu, |table|) <= |file| && forall i | 0 <= i < numCpu :: Opens(env, i)
  {
    hide Unique;
    SavedPrefix(env, table, regs0, numCpu, file, numCpu);
  }

  /**
    * A job between the two calls of msrsave: it saves what the device lists, the job makes its calls, and it
    * restores from the same listing. If saving succeeds, so does restoring, and every register whose saved
    * contents can be read and written on a saved CPU is as it was.
    */
  method BracketedJob(m: Machine, list: Allowlist, s: State, events: seq<Event>, numCpu: nat, count: nat)
    returns (saved: int, restored: int, file: seq<bv64>)
    requires list.Valid() && list.Contents() == s.table && m.regs == s.regs
    requires Unique(s.table) && s.table != [] && count >= LINE_MAX
    requires Quiet(s) && Fixed(m.env, s, events)
    modifies m
    ensures saved == 0 <==> forall i: nat | i < numCpu :: CanSave(m.env, s.table, s.regs, i, s.table)
    ensures saved == 0 ==>
              && restored == 0 && Saved(m.env, s.table, s.regs, numCpu, file)
              && (forall c: Cell | Recoverable(m.env, numCpu, c, s.regs[c]) :: m.regs[c] == s.regs[c])
              && (forall c: Cell | Run(m.env, s, events).regs[c] == s.regs[c] :: m.regs[c] == s.regs[c])
  {
    hide ReadOn, MsrsaveParse, Allowlist.Valid, Saveable, SavedFile, Fixed, Run, Recoverable, RestoreAll, Openable,
         CanSave;
    var table, text := s.table, ReadOn(s.table, 0, count);
    TwoParsersAgree(table, count);
    saved, file := MsrSave(m, list, text, numCpu);
    restored := -1;
    if saved != 0 {
      return;
    }
    SavedListing(m.env, table, s.regs, numCpu, file, count, table);
    m.regs := Run(m.env, s, events).regs;
    RestoreListing(m.env, table, s.regs, numCpu, file);
    ghost var o;
    restored, o := MsrRestore(m, list, text, file, numCpu);
    forall c: Cell
      ensures Recoverable(m.env, numCpu, c, s.regs[c]) || Run(m.env, s, events).regs[c] == s.regs[c] ==>
                m.regs[c] == s.regs[c]
    {
      RunChanges(m.env, s, events, c);
      Undone(m.env, table, s.regs, Run(m.env, s, events).regs, numCpu, file, c);
    }
  }
}
