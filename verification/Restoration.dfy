/** What restoring achieves: exactly which registers come back after any use of the module. */
module Restoration {
  import opened Words
  import opened AllowlistText
  import opened AllowlistSpec
  import opened Registers
  import opened SaveRestore

  // ---- The failure mark ----

  lemma MarkBits(v: bv64, mask: bv64)
    ensures !IsFull(mask) ==> !IsGoodValue(!mask, mask)
    ensures IsFull(mask) ==> !IsGoodValue(G_COOKIE_BAD_READ, mask)
    ensures !(IsFull(mask) && Masked(v, mask) == G_COOKIE_BAD_READ) ==> IsGoodValue(Masked(v, mask), mask)
  {
    if !IsFull(mask) {
      assert mask & !mask == 0;
      assert mask & (v & mask) == v & mask;
    }
  }

  /** A saved word counts as good if and only if the read at save time succeeded. */
  lemma MarkIsExact(env: Env, table: Table, regs: Regs, cpu: u16, e: Entry)
    requires !Collides(env, table, regs, cpu, e)
    ensures IsGoodValue(SavedWord(env, table, regs, cpu, e), Bits(e.wmask)) <==>
            Pread(env, table, regs, cpu, e.msr).Some?
  {
    hide Pread, IsGoodValue, IsFull, Masked, Bits;
    var r := Pread(env, table, regs, cpu, e.msr);
    MarkBits(if r.Some? then r.value else 0, Bits(e.wmask));
  }

  // ---- Merging saved bits ----

  lemma MergeSavedIs(mask: bv64, saved: bv64, read: bv64)
    ensures MergeSaved(Masked(saved, mask), read, mask) == Merge(mask, saved, read)
  {
    assert Masked(saved, mask) == saved & mask;
    assert MergeSaved(saved & mask, read, mask) == (saved & mask) | (read & !mask);
  }

  lemma MergeTwice(mask: bv64, saved: bv64, read: bv64)
    ensures Merge(mask, Merge(mask, saved, read), read) == Merge(mask, saved, read)
  {}

  lemma MergeOfEqual(mask: bv64, saved: bv64, read: bv64)
    requires Agree(read, saved, mask)
    ensures Merge(mask, saved, read) == read
  {
    Split(read, mask);
    assert saved & mask == read & mask;
  }

  /** Where the permitted bits are back, merging under any other mask changes nothing. */
  lemma MergeAlias(mask: bv64, other: bv64, saved: bv64, read: bv64)
    requires Agree(read, saved, mask)
    ensures Merge(mask, Merge(other, saved, read), read) == read
  {
    hide Merge, Agree;
    MergeNested(mask, other, saved, read);
    AgreeSmaller(read, saved, mask, other);
    MergeOfEqual(mask & other, saved, read);
  }

  lemma MergeNested(mask: bv64, other: bv64, saved: bv64, read: bv64)
    ensures Merge(mask, Merge(other, saved, read), read) == Merge(mask & other, saved, read)
  {
    Distribute(other, saved, read, mask);
    NotBoth(read, mask, other);
    var inside := saved & (other & mask);
    var between := read & (mask & !other);
    Join(inside, between, read & !mask);
    assert other & mask == mask & other;
  }

  lemma NotBoth(a: bv64, mask: bv64, other: bv64)
    ensures a & !(mask & other) == (a & (mask & !other)) | (a & !mask)
  {}

  lemma Join(a: bv64, b: bv64, c: bv64)
    ensures (a | b) | c == a | (b | c)
  {}

  lemma AgreeSmaller(a: bv64, b: bv64, mask: bv64, other: bv64)
    requires Agree(a, b, mask)
    ensures Agree(a, b, mask & other)
  {
    Regroup(a, mask, other);
    Regroup(b, mask, other);
    assert a & mask == b & mask;
  }

  lemma Regroup(a: bv64, mask: bv64, other: bv64)
    ensures a & (mask & other) == (a & mask) & other
  {}

  // ---- One cell ----

  function MaskAt(table: Table, c: Cell): bv64 {
    MaskOf(table, c.msr)
  }

  /**
    * Register `c` held `before` and now holds `after`, with `saved` to be restored: permitted bits at most have
    * changed, only if the register can be read and the new contents written, and not if they were back already.
    */
  ghost predicate Bounded(env: Env, table: Table, c: Cell, saved: bv64, before: bv64, after: bv64) {
    && Within(after, before, MaskAt(table, c))
    && (Agree(before, saved, MaskAt(table, c)) ==> after == before)
    && (after != before ==> !env.readFault(c) && !env.writeFault(c, after))
  }

  lemma BoundedTrans(env: Env, table: Table, c: Cell, saved: bv64, a: bv64, b: bv64, d: bv64)
    requires Bounded(env, table, c, saved, a, b) && Bounded(env, table, c, saved, b, d)
    ensures Bounded(env, table, c, saved, a, d)
  {
    hide Within, MaskAt, Agree;
    WithinLaws(d, b, a, MaskAt(table, c));
  }

  lemma OtherCell(env: Env, table: Table, o: Restored, cpu: u16, e: Entry, word: bv64, c: Cell)
    requires c != Cell(cpu, Truncate(e.msr))
    ensures RestoreCell(env, table, o, cpu, e, word).regs[c] == o.regs[c]
  {
    hide MaskOf, Merge, Bits, IsGoodValue, Masked, MergeSaved, Listed;
  }

  /** With `current` in its register `c`, entry `e` calls for a write: masked bits differ from the saved ones. */
  predicate Asks(env: Env, table: Table, e: Entry, c: Cell, saved: bv64, current: bv64) {
    Seekable(e.msr) && Listed(table, c.msr) && !env.readFault(c) && !Agree(current, saved, Bits(e.wmask))
  }

  /** What the write that `e` calls for would leave. */
  function Target(table: Table, e: Entry, c: Cell, saved: bv64, current: bv64): bv64 {
    Merge(MaskAt(table, c), Merge(Bits(e.wmask), saved, current), current)
  }

  /** One turn of the restore loop in terms of the register contents at save time. */
  lemma RestoringWrite(env: Env, table: Table, regs0: Regs, o: Restored, cpu: u16, e: Entry)
    requires !Collides(env, table, regs0, cpu, e)
    ensures var c := Cell(cpu, Truncate(e.msr));
            var turn := RestoreCell(env, table, o, cpu, e, SavedWord(env, table, regs0, cpu, e));
            var target := Target(table, e, c, regs0[c], o.regs[c]);
            var asks := Asks(env, table, e, c, regs0[c], o.regs[c]);
            var fails := asks && (MaskAt(table, c) == 0 || env.writeFault(c, target));
            && turn.tries == o.tries + (if asks then 1 else 0)
            && turn.failures == o.failures + (if fails then 1 else 0)
            && turn.regs[c] == if asks && !fails then target else o.regs[c]
  {
    hide MaskOf, Merge, Bits, IsGoodValue, Masked, MergeSaved, Listed, Agree;
    var c := Cell(cpu, Truncate(e.msr));
    MarkIsExact(env, table, regs0, cpu, e);
    MergeSavedIs(Bits(e.wmask), regs0[c], o.regs[c]);
    MaskedAgree(regs0[c], o.regs[c], Bits(e.wmask));
  }

  lemma MaskedAgree(a: bv64, b: bv64, mask: bv64)
    ensures Agree(b, a, mask) <==> Masked(a, mask) == Masked(b, mask)
  {
    hide Masked;
  }

  /** Once the permitted bits of a register are back, no turn changes it again, not even one for an alias of it. */
  lemma CellStays(env: Env, table: Table, regs0: Regs, o: Restored, cpu: u16, e: Entry, c: Cell)
    requires !Collides(env, table, regs0, cpu, e)
    requires Agree(o.regs[c], regs0[c], MaskAt(table, c))
    ensures RestoreCell(env, table, o, cpu, e, SavedWord(env, table, regs0, cpu, e)).regs[c] == o.regs[c]
  {
    hide MaskAt, Merge, Agree, RestoreCell, Collides, SavedWord, Bits;
    if c == Cell(cpu, Truncate(e.msr)) {
      RestoringWrite(env, table, regs0, o, cpu, e);
      MergeAlias(MaskAt(table, c), Bits(e.wmask), regs0[c], o.regs[c]);
    } else {
      OtherCell(env, table, o, cpu, e, SavedWord(env, table, regs0, cpu, e), c);
    }
  }

  lemma CellBounded(env: Env, table: Table, regs0: Regs, o: Restored, cpu: u16, e: Entry, c: Cell)
    requires !Collides(env, table, regs0, cpu, e)
    ensures Bounded(env, table, c, regs0[c], o.regs[c],
                    RestoreCell(env, table, o, cpu, e, SavedWord(env, table, regs0, cpu, e)).regs[c])
  {
    hide MaskAt, Merge, Within, Agree, RestoreCell, Collides, SavedWord, Bits;
    var r := o.regs[c];
    WithinLaws(r, r, r, MaskAt(table, c));
    if Agree(r, regs0[c], MaskAt(table, c)) {
      CellStays(env, table, regs0, o, cpu, e, c);
    }
    if c == Cell(cpu, Truncate(e.msr)) {
      RestoringWrite(env, table, regs0, o, cpu, e);
      MergeOutside(MaskAt(table, c), Merge(Bits(e.wmask), regs0[c], r), r);
    } else {
      OtherCell(env, table, o, cpu, e, SavedWord(env, table, regs0, cpu, e), c);
    }
  }

  /** The entry under the register's own address brings the permitted bits back. */
  lemma CellComesBack(env: Env, table: Table, regs0: Regs, o: Restored, cpu: u16, e: Entry)
    requires e.msr < 0x1_0000_0000 && Listed(table, e.msr) && MaskOf(table, e.msr) == Bits(e.wmask)
    requires !Collides(env, table, regs0, cpu, e)
    requires var c := Cell(cpu, e.msr);
             !env.readFault(c) && !env.writeFault(c, Merge(MaskAt(table, c), regs0[c], o.regs[c]))
    ensures var c := Cell(cpu, e.msr);
            RestoreCell(env, table, o, cpu, e, SavedWord(env, table, regs0, cpu, e)).regs[c]
              == Merge(MaskAt(table, c), regs0[c], o.regs[c])
  {
    hide MaskOf, Listed, Merge, Agree, RestoreCell, Collides, SavedWord, Bits;
    var c: Cell := Cell(cpu, e.msr);
    var mask := MaskAt(table, c);
    RestoringWrite(env, table, regs0, o, cpu, e);
    MergeTwice(mask, regs0[c], o.regs[c]);
    if Agree(o.regs[c], regs0[c], mask) {
      MergeOfEqual(mask, regs0[c], o.regs[c]);
    } else if mask == 0 {
      EmptyMask(o.regs[c], regs0[c], mask);
    }
  }

  lemma EmptyMask(a: bv64, b: bv64, mask: bv64)
    requires mask == 0
    ensures Agree(a, b, mask)
  {}

  // ---- One CPU ----

  ghost predicate Clean(env: Env, table: Table, regs0: Regs, cpu: u16, entries: Table) {
    forall j | 0 <= j < |entries| :: !Collides(env, table, regs0, cpu, entries[j])
  }

  lemma {:induction false} RowBounded(env: Env, table: Table, regs0: Regs, o: Restored, cpu: u16, entries: Table,
                                      j: nat, c: Cell)
    requires Clean(env, table, regs0, cpu, entries) && j <= |entries|
    ensures var row := SavedRow(env, table, regs0, cpu, entries);
            Bounded(env, table, c, regs0[c], o.regs[c], RestoreRow(env, table, o, cpu, entries, row, j).regs[c])
  {
    hide Bounded, RestoreCell, Collides, SavedWord;
    var row := SavedRow(env, table, regs0, cpu, entries);
    if j == 0 {
      BoundedSelf(env, table, c, regs0[c], o.regs[c]);
    } else {
      RowBounded(env, table, regs0, o, cpu, entries, j - 1, c);
      var p := RestoreRow(env, table, o, cpu, entries, row, j - 1);
      CellBounded(env, table, regs0, p, cpu, entries[j - 1], c);
      BoundedTrans(env, table, c, regs0[c], o.regs[c], p.regs[c],
                   RestoreRow(env, table, o, cpu, entries, row, j).regs[c]);
    }
  }

  lemma {:induction false} RowElsewhere(env: Env, table: Table, o: Restored, cpu: u16, entries: Table, row: seq<bv64>,
                                        j: nat, c: Cell)
    requires j <= |entries| == |row| && c.cpu != cpu
    ensures RestoreRow(env, table, o, cpu, entries, row, j).regs[c] == o.regs[c]
  {
    hide RestoreCell;
    if j > 0 {
      RowElsewhere(env, table, o, cpu, entries, row, j - 1, c);
      OtherCell(env, table, RestoreRow(env, table, o, cpu, entries, row, j - 1), cpu, entries[j - 1], row[j - 1], c);
    }
  }

  /** The register of entry `i` can be read, and its restored contents written. */
  ghost predicate Reachable(env: Env, table: Table, regs0: Regs, regs: Regs, cpu: u16, entries: Table, i: nat)
    requires i < |entries|
  {
    && entries[i].msr < 0x1_0000_0000
    && Listed(table, entries[i].msr) && MaskOf(table, entries[i].msr) == Bits(entries[i].wmask)
    && var c := Cell(cpu, entries[i].msr);
       !env.readFault(c) && !env.writeFault(c, Merge(MaskAt(table, c), regs0[c], regs[c]))
  }

  lemma {:induction false} RowComesBack(env: Env, table: Table, regs0: Regs, o: Restored, cpu: u16, entries: Table,
                                        i: nat, j: nat)
    requires Clean(env, table, regs0, cpu, entries) && i < j <= |entries|
    requires Reachable(env, table, regs0, o.regs, cpu, entries, i)
    ensures var row := SavedRow(env, table, regs0, cpu, entries);
            var c := Cell(cpu, entries[i].msr);
            RestoreRow(env, table, o, cpu, entries, row, j).regs[c] == Merge(MaskAt(table, c), regs0[c], o.regs[c])
  {
    hide MaskOf, Listed, Within, Agree, Merge, RestoreCell, Collides, SavedWord, Bits;
    var row := SavedRow(env, table, regs0, cpu, entries);
    var c: Cell := Cell(cpu, entries[i].msr);
    var mask := MaskAt(table, c);
    var p := RestoreRow(env, table, o, cpu, entries, row, j - 1);
    if i == j - 1 {
      RowBounded(env, table, regs0, o, cpu, entries, i, c);
      MergeStale(mask, regs0[c], p.regs[c], o.regs[c]);
      CellComesBack(env, table, regs0, p, cpu, entries[i]);
    } else {
      RowComesBack(env, table, regs0, o, cpu, entries, i, j - 1);
      MergeInside(mask, regs0[c], o.regs[c]);
      CellStays(env, table, regs0, p, cpu, entries[j - 1], c);
    }
  }

  // ---- All CPUs ----

  /** The save file was written with register contents `regs0` and the device's own listing. */
  ghost predicate Saved(env: Env, table: Table, regs0: Regs, numCpu: nat, file: seq<bv64>) {
    && Unique(table)
    && Saveable(env, table, regs0, table, numCpu)
    && SavedFile(env, table, regs0, table, numCpu, file)
  }

  lemma RowSaved(env: Env, table: Table, regs0: Regs, numCpu: nat, file: seq<bv64>, i: nat)
    requires Saved(env, table, regs0, numCpu, file) && i < numCpu
    ensures Opens(env, i) && Clean(env, table, regs0, i, table)
    ensures Off(i + 1, |table|) <= |file| && RowOf(file, |table|, i) == SavedRow(env, table, regs0, i, table)
  {
    hide Collides, SavedRow, RowOf, Unique;
    assert SavesCpu(env, table, regs0, table, i);
  }

  lemma SavedPrefix(env: Env, table: Table, regs0: Regs, numCpu: nat, file: seq<bv64>, k: nat)
    requires Saved(env, table, regs0, numCpu, file) && k <= numCpu
    ensures Off(k, |table|) <= |file| && forall i | 0 <= i < k :: Opens(env, i)
  {
    hide Collides, SavedRow, RowOf, Unique;
    if k > 0 {
      RowSaved(env, table, regs0, numCpu, file, k - 1);
    }
  }

  /** Restoring the first `k` CPUs from a save file, starting with register contents `regs`. */
  function RestoreSaved(env: Env, table: Table, regs: Regs, file: seq<bv64>, k: nat): Restored
    requires Off(k, |table|) <= |file| && forall i | 0 <= i < k :: Opens(env, i)
  {
    RestoreAll(env, table, Restored(regs, 0, 0), table, file, k)
  }

  lemma {:induction false} AllBounded(env: Env, table: Table, regs0: Regs, regs: Regs, numCpu: nat, file: seq<bv64>,
                                      k: nat, c: Cell)
    requires Saved(env, table, regs0, numCpu, file) && k <= numCpu
    requires Off(k, |table|) <= |file| && forall i | 0 <= i < k :: Opens(env, i)
    ensures Bounded(env, table, c, regs0[c], regs[c], RestoreSaved(env, table, regs, file, k).regs[c])
    ensures k <= c.cpu ==> RestoreSaved(env, table, regs, file, k).regs[c] == regs[c]
  {
    hide Saved, Bounded, RestoreRow, RowOf, Clean, SavedRow;
    if k == 0 {
      BoundedSelf(env, table, c, regs0[c], regs[c]);
    } else {
      SavedPrefix(env, table, regs0, numCpu, file, k - 1);
      RowSaved(env, table, regs0, numCpu, file, k - 1);
      AllBounded(env, table, regs0, regs, numCpu, file, k - 1, c);
      var p := RestoreSaved(env, table, regs, file, k - 1);
      RowBounded(env, table, regs0, p, k - 1, table, |table|, c);
      BoundedTrans(env, table, c, regs0[c], regs[c], p.regs[c], RestoreSaved(env, table, regs, file, k).regs[c]);
      if c.cpu != k - 1 {
        RowElsewhere(env, table, p, k - 1, table, RowOf(file, |table|, k - 1), |table|, c);
      }
    }
  }

  lemma BoundedSelf(env: Env, table: Table, c: Cell, saved: bv64, v: bv64)
    ensures Bounded(env, table, c, saved, v, v)
  {
    hide MaskAt, Within, Agree;
    WithinLaws(v, v, v, MaskAt(table, c));
  }

  lemma {:induction false} AllComesBack(env: Env, table: Table, regs0: Regs, regs: Regs, numCpu: nat, file: seq<bv64>,
                                        k: nat, cpu: u16, i: nat)
    requires Saved(env, table, regs0, numCpu, file) && cpu < k <= numCpu && i < |table|
    requires Reachable(env, table, regs0, regs, cpu, table, i)
    requires Off(k, |table|) <= |file| && forall i | 0 <= i < k :: Opens(env, i)
    ensures var c := Cell(cpu, table[i].msr);
            RestoreSaved(env, table, regs, file, k).regs[c] == Merge(MaskAt(table, c), regs0[c], regs[c])
  {
    hide Saved, Merge, MaskAt, RestoreRow, RowOf, Clean, SavedRow, MaskOf, Listed, Bits;
    var c: Cell := Cell(cpu, table[i].msr);
    SavedPrefix(env, table, regs0, numCpu, file, k - 1);
    RowSaved(env, table, regs0, numCpu, file, k - 1);
    var p := RestoreSaved(env, table, regs, file, k - 1);
    if cpu == k - 1 {
      AllBounded(env, table, regs0, regs, numCpu, file, k - 1, c);
      RowComesBack(env, table, regs0, p, cpu, table, i, |table|);
    } else {
      AllComesBack(env, table, regs0, regs, numCpu, file, k - 1, cpu, i);
      RowElsewhere(env, table, p, k - 1, table, RowOf(file, |table|, k - 1), |table|, c);
    }
  }

  lemma NoMask(a: bv64, b: bv64, saved: bv64)
    requires Within(a, b, 0)
    ensures a == b && Merge(0, saved, b) == b
  {
    assert a & FULL == a && b & FULL == b;
  }

  /**
    * What restoring does to register `c`, whatever it holds by then: bits outside the mask and registers
    * without a mask are left alone, registers whose save-time read failed and CPUs that were not saved are not
    * written, and otherwise the masked bits are those of save time, unless writing them faults.
    */
  lemma RestorePostcondition(env: Env, table: Table, regs0: Regs, regs: Regs, numCpu: nat, file: seq<bv64>, c: Cell)
    requires Saved(env, table, regs0, numCpu, file)
    requires Off(numCpu, |table|) <= |file| && forall i | 0 <= i < numCpu :: Opens(env, i)
    ensures var after := RestoreSaved(env, table, regs, file, numCpu).regs[c];
            var mask := MaskAt(table, c);
            var target := Merge(mask, regs0[c], regs[c]);
            && Within(after, regs[c], mask)
            && (c.cpu >= numCpu || env.readFault(c) ==> after == regs[c])
            && (c.cpu < numCpu && !env.readFault(c) && !env.writeFault(c, target) ==> after == target)
            && (after != regs[c] ==> !env.writeFault(c, after))
            && (Agree(regs[c], regs0[c], mask) ==> after == regs[c])
  {
    hide RestoreSaved, Within, Agree, Merge, Saved;
    AllBounded(env, table, regs0, regs, numCpu, file, numCpu, c);
    var mask := MaskAt(table, c);
    var target := Merge(mask, regs0[c], regs[c]);
    var after := RestoreSaved(env, table, regs, file, numCpu).regs[c];
    if c.cpu < numCpu && !env.readFault(c) && !env.writeFault(c, target) {
      if Listed(table, c.msr) {
        var i := Scan(table, c.msr).value;
        AllComesBack(env, table, regs0, regs, numCpu, file, numCpu, c.cpu, i);
      } else {
        NoMask(after, regs[c], regs0[c]);
      }
    }
  }
}
