/** msrsave: saving masked register values with failed reads marked in band, and merging them back. */
module SaveRestore {
  import opened Words
  import opened AllowlistText
  import opened AllowlistSpec
  import opened Registers
  import opened SingleAccess

  const G_COOKIE_BAD_READ: bv64 := 0xFB6A_5881_3AEA_28CF

  /** The mask leaves no bit out. */
  predicate IsFull(mask: bv64) {
    !mask == 0
  }

  predicate IsGoodValue(word: bv64, mask: bv64) {
    if !IsFull(mask) then word == mask & word else word != G_COOKIE_BAD_READ
  }

  /** The word that stands for a failed read. */
  function BadValue(mask: bv64): bv64 {
    if !IsFull(mask) then !mask else G_COOKIE_BAD_READ
  }

  /** A word is good if masking leaves it as it is, or, under a full mask, if it is not the one magic word. */
  lemma GoodValueIs(word: bv64, mask: bv64)
    ensures IsGoodValue(word, mask) <==>
            if mask == 0xFFFF_FFFF_FFFF_FFFF then word != 0xFB6A_5881_3AEA_28CF else word & mask == word
  {
    FullIs(mask);
  }

  lemma FullIs(mask: bv64)
    ensures IsFull(mask) <==> mask == 0xFFFF_FFFF_FFFF_FFFF
  {}

  // ---- System calls on the per-CPU device ----

  /** The kernel rejects positions that are negative as signed numbers, or reach that far with 8 bytes. */
  predicate Seekable(pos: u64) {
    pos + 8 < 0x8000_0000_0000_0000
  }

  /** pread of 8 bytes; None is any result but 8. */
  function Pread(env: Env, table: Table, regs: Regs, cpu: u16, pos: u64): Option<bv64> {
    if !Seekable(pos) then None
    else
      var r := ReadReg(env, table, regs, cpu, pos);
      if r.Ok? then Some(r.value) else None
  }

  /** pwrite of 8 bytes. */
  function Pwrite(env: Env, table: Table, regs: Regs, cpu: u16, pos: u64, data: bv64): WriteResult {
    if !Seekable(pos) then WriteResult(EINVAL, regs) else WriteReg(env, table, regs, cpu, pos, data)
  }

  // ---- Saving ----

  function SavedWord(env: Env, table: Table, regs: Regs, cpu: u16, e: Entry): bv64 {
    var r := Pread(env, table, regs, cpu, e.msr);
    if r.Some? then Masked(r.value, Bits(e.wmask)) else BadValue(Bits(e.wmask))
  }

  /** A value that was read looks like the mark of a failed read: saving gives up. */
  predicate Collides(env: Env, table: Table, regs: Regs, cpu: u16, e: Entry) {
    var r := Pread(env, table, regs, cpu, e.msr);
    var mask := Bits(e.wmask);
    r.Some? && IsFull(mask) && Masked(r.value, mask) == G_COOKIE_BAD_READ
  }

  function SavedRow(env: Env, table: Table, regs: Regs, cpu: u16, entries: Table): seq<bv64> {
    seq(|entries|, j requires 0 <= j < |entries| => SavedWord(env, table, regs, cpu, entries[j]))
  }

  predicate Opens(env: Env, cpu: nat) {
    cpu < 0x1_0000 && cpu in env.online
  }

  /** Where the words of CPU `i` start in a file of `n` words per CPU: at i * n. */
  function Off(i: nat, n: nat): nat {
    if i == 0 then 0 else Off(i - 1, n) + n
  }

  lemma {:induction false} OffIsProduct(i: nat, n: nat)
    ensures Off(i, n) == i * n
  {
    if i > 0 {
      OffIsProduct(i - 1, n);
      assert (i - 1) * n + n == i * n;
    }
  }

  lemma {:induction false} OffGrows(i: nat, k: nat, n: nat)
    requires i < k
    ensures Off(i, n) + n <= Off(k, n)
  {
    if i < k - 1 {
      OffGrows(i, k - 1, n);
    }
  }

  function RowOf(file: seq<bv64>, n: nat, i: nat): (row: seq<bv64>)
    requires Off(i, n) + n <= |file|
    ensures |row| == n
  {
    file[Off(i, n)..Off(i, n) + n]
  }

  /** What a successful save writes: one row of words per CPU. */
  ghost predicate SavedFile(env: Env, table: Table, regs: Regs, entries: Table, numCpu: nat, file: seq<bv64>) {
    && |file| == Off(numCpu, |entries|)
    && forall i | 0 <= i < numCpu ::
         && Opens(env, i)
         && Off(i, |entries|) + |entries| <= |file|
         && RowOf(file, |entries|, i) == SavedRow(env, table, regs, i, entries)
  }

  /** What is saved for an entry, in terms of the register: its masked bits, or one of the two marks. */
  lemma SavedWordIs(env: Env, table: Table, regs: Regs, cpu: u16, e: Entry)
    ensures var c := Cell(cpu, Truncate(e.msr));
            SavedWord(env, table, regs, cpu, e) ==
              if e.msr < 0x7FFF_FFFF_FFFF_FFF8 && (exists i | 0 <= i < |table| :: table[i].msr == c.msr)
                 && !env.readFault(c)
              then regs[c] & Bits(e.wmask)
              else if Bits(e.wmask) == 0xFFFF_FFFF_FFFF_FFFF then 0xFB6A_5881_3AEA_28CF
              else !Bits(e.wmask)
  {
    hide Listed, Bits;
    ListedIs(table, Truncate(e.msr));
    FullIs(Bits(e.wmask));
  }

  /** The file holds the word of entry `j` and CPU `i` at index i * n + j, and nothing else. */
  lemma SavedFileAt(env: Env, table: Table, regs: Regs, entries: Table, numCpu: nat, file: seq<bv64>, i: nat, j: nat)
    requires SavedFile(env, table, regs, entries, numCpu, file) && i < numCpu && j < |entries|
    ensures |file| == numCpu * |entries| && i < 0x1_0000 && 0 <= i * |entries| + j < |file|
    ensures file[i * |entries| + j] == SavedWord(env, table, regs, i, entries[j])
  {
    hide SavedWord;
    assert Opens(env, i);
    OffIsProduct(numCpu, |entries|);
    OffIsProduct(i, |entries|);
    var k := Off(i, |entries|) + j;
    assert RowOf(file, |entries|, i)[j] == file[k];
    assert k == i * |entries| + j;
  }

  /** The device opens and no value collides with the mark. */
  ghost predicate SavesCpu(env: Env, table: Table, regs: Regs, entries: Table, i: nat) {
    Opens(env, i) && forall j | 0 <= j < |entries| :: !Collides(env, table, regs, i, entries[j])
  }

  ghost predicate Saveable(env: Env, table: Table, regs: Regs, entries: Table, numCpu: nat) {
    forall i | 0 <= i < numCpu :: SavesCpu(env, table, regs, entries, i)
  }

  /** The register of the entry can be read, and all of it is saved. */
  ghost predicate SavesWhole(env: Env, table: Table, cpu: u16, e: Entry) {
    && e.msr < 0x7FFF_FFFF_FFFF_FFF8 && (exists i | 0 <= i < |table| :: table[i].msr == Truncate(e.msr))
    && !env.readFault(Cell(cpu, Truncate(e.msr))) && Bits(e.wmask) == 0xFFFF_FFFF_FFFF_FFFF
  }

  lemma CollidesIff(env: Env, table: Table, regs: Regs, cpu: u16, e: Entry)
    ensures Collides(env, table, regs, cpu, e) <==>
            SavesWhole(env, table, cpu, e) && regs[Cell(cpu, Truncate(e.msr))] == 0xFB6A_5881_3AEA_28CF
  {
    hide Listed, Bits;
    ListedIs(table, Truncate(e.msr));
    FullIs(Bits(e.wmask));
    WholeWord(regs[Cell(cpu, Truncate(e.msr))]);
  }

  lemma WholeWord(v: bv64)
    ensures v & 0xFFFF_FFFF_FFFF_FFFF == v
  {}

  /** The registers of the CPU that are saved whole do not look like a failed read. */
  ghost predicate NoneMarked(env: Env, table: Table, regs: Regs, cpu: u16, entries: Table) {
    forall j | 0 <= j < |entries| && SavesWhole(env, table, cpu, entries[j]) ::
      regs[Cell(cpu, Truncate(entries[j].msr))] != 0xFB6A_5881_3AEA_28CF
  }

  /** The CPU is online, and none of its registers looks like a failed read. */
  ghost predicate CanSave(env: Env, table: Table, regs: Regs, cpu: nat, entries: Table) {
    cpu < 0x1_0000 && cpu in env.online && NoneMarked(env, table, regs, cpu, entries)
  }

  lemma SavesCpuIff(env: Env, table: Table, regs: Regs, entries: Table, i: nat)
    ensures SavesCpu(env, table, regs, entries, i) <==> CanSave(env, table, regs, i, entries)
  {
    hide Collides, SavesWhole;
    if i < 0x1_0000 {
      forall j | 0 <= j < |entries|
        ensures Collides(env, table, regs, i, entries[j]) <==>
                SavesWhole(env, table, i, entries[j])
                && regs[Cell(i, Truncate(entries[j].msr))] == 0xFB6A_5881_3AEA_28CF
      {
        CollidesIff(env, table, regs, i, entries[j]);
      }
    }
  }

  /**
    * Saving succeeds exactly if the devices of all CPUs open and no register that is saved whole holds
    * 0xFB6A58813AEA28CF.
    */
  lemma SaveableIff(env: Env, table: Table, regs: Regs, entries: Table, numCpu: nat)
    ensures Saveable(env, table, regs, entries, numCpu) <==>
            forall i: nat | i < numCpu :: CanSave(env, table, regs, i, entries)
  {
    hide SavesCpu, CanSave;
    forall i: nat | i < numCpu
      ensures SavesCpu(env, table, regs, entries, i) <==> CanSave(env, table, regs, i, entries)
    {
      SavesCpuIff(env, table, regs, entries, i);
    }
  }

  // ---- Restoring ----

  /** The registers, the number of writes asked for, and the number of those that failed. */
  datatype Restored = Restored(regs: Regs, tries: nat, failures: nat)

  /** The saved bits, with the unmasked bits of the word just read. */
  function MergeSaved(word: bv64, read: bv64, mask: bv64): bv64 {
    word | (read & !mask)
  }

  function RestoreCell(env: Env, table: Table, o: Restored, cpu: u16, e: Entry, word: bv64): Restored {
    var mask := Bits(e.wmask);
    var r := Pread(env, table, o.regs, cpu, e.msr);
    if !IsGoodValue(word, mask) || r.None? || word == Masked(r.value, mask) then
      o
    else
      var w := Pwrite(env, table, o.regs, cpu, e.msr, MergeSaved(word, r.value, mask));
      Restored(w.regs, o.tries + 1, if w.ret == 8 then o.failures else o.failures + 1)
  }

  /** The first `j` entries of one CPU. */
  function RestoreRow(env: Env, table: Table, o: Restored, cpu: u16, entries: Table, row: seq<bv64>, j: nat): Restored
    requires j <= |entries| == |row|
  {
    if j == 0 then o
    else RestoreCell(env, table, RestoreRow(env, table, o, cpu, entries, row, j - 1), cpu, entries[j - 1], row[j - 1])
  }

  /** The first `k` CPUs, which all open. */
  function RestoreAll(env: Env, table: Table, o: Restored, entries: Table, file: seq<bv64>, k: nat): Restored
    requires Off(k, |entries|) <= |file|
    requires forall i | 0 <= i < k :: Opens(env, i)
  {
    if k == 0 then o
    else
      assert Opens(env, k - 1);
      var cpu: u16 := k - 1;
      RestoreRow(env, table, RestoreAll(env, table, o, entries, file, k - 1), cpu, entries,
                 RowOf(file, |entries|, k - 1), |entries|)
  }

  /** How many devices open before the first that does not. */
  function Openable(env: Env, numCpu: nat): (k: nat)
    ensures k <= numCpu && forall i | 0 <= i < k :: Opens(env, i)
    ensures k < numCpu ==> !Opens(env, k)
  {
    if numCpu == 0 then 0
    else
      var k := Openable(env, numCpu - 1);
      if k == numCpu - 1 && Opens(env, k) then k + 1 else k
  }
}
