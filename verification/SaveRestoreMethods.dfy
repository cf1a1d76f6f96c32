/** msr_save and msr_restore as they run, against the functions of SaveRestore. */
module SaveRestoreMethods {
  import opened Words
  import opened AllowlistText
  import opened AllowlistStore
  import opened Registers
  import opened SingleAccess
  import opened MsrsaveParser
  import opened SaveRestore

  method SysPread(m: Machine, list: Allowlist, cpu: u16, pos: u64) returns (r: Option<bv64>)
    requires list.Valid()
    ensures r == Pread(m.env, list.Contents(), m.regs, cpu, pos)
  {
    hide ReadReg;
    if !Seekable(pos) {
      return None;
    }
    var v := MsrRead(m, list, cpu, pos);
    return if v.Ok? then Some(v.value) else None;
  }

  method SysPwrite(m: Machine, list: Allowlist, cpu: u16, pos: u64, data: bv64) returns (ret: int)
    requires list.Valid()
    modifies m
    ensures WriteResult(ret, m.regs) == Pwrite(m.env, list.Contents(), old(m.regs), cpu, pos, data)
  {
    hide WriteReg;
    if !Seekable(pos) {
      return EINVAL;
    }
    ret := MsrWrite(m, list, cpu, pos, data);
  }

  /** One turn of the inner loop of msr_save. */
  method SaveCell(m: Machine, list: Allowlist, cpu: u16, pos: u64, msrMask: bv64, ghost e: Entry)
    returns (ok: bool, word: bv64)
    requires list.Valid() && e.msr == pos && Bits(e.wmask) == msrMask
    ensures ok == !Collides(m.env, list.Contents(), m.regs, cpu, e)
    ensures ok ==> word == SavedWord(m.env, list.Contents(), m.regs, cpu, e)
  {
    hide Pread, Bits, IsFull, Masked, BadValue, Allowlist.Valid, Allowlist.Contents;
    var r := SysPread(m, list, cpu, pos);
    if r.None? {
      return true, BadValue(msrMask);
    }
    word := Masked(r.value, msrMask);
    ok := !(IsFull(msrMask) && word == G_COOKIE_BAD_READ);
  }

  /** The inner loop of msr_save: the words of one CPU. */
  method SaveCpu(m: Machine, list: Allowlist, i: nat, offset: array<u64>, mask: array<u64>, num: nat,
                 buffer: array<bv64>, ghost es: Table)
    returns (ok: bool)
    requires list.Valid() && Opens(m.env, i) && Holds(offset, mask, es) && num == |es|
    requires Off(i, num) + num <= buffer.Length
    requires buffer as object != list.chains && buffer as object? != list.table
    requires buffer as object != offset && buffer as object != mask
    modifies buffer
    ensures list.Valid() && list.Contents() == old(list.Contents()) && Holds(offset, mask, es)
    ensures ok <==> forall j | 0 <= j < num :: !Collides(m.env, list.Contents(), m.regs, i, es[j])
    ensures ok ==> RowOf(buffer[..], num, i) == SavedRow(m.env, list.Contents(), m.regs, i, es)
    ensures forall k | 0 <= k < Off(i, num) :: buffer[k] == old(buffer[k])
  {
    hide SavedWord, Collides, Allowlist.Valid;
    OffIsProduct(i, num);
    var j := 0;
    while j < num
      invariant j <= num
      invariant list.Valid() && list.Contents() == old(list.Contents()) && Holds(offset, mask, es)
      invariant forall x | 0 <= x < j :: !Collides(m.env, list.Contents(), m.regs, i, es[x])
      invariant forall x | 0 <= x < j ::
                  buffer[Off(i, num) + x] == SavedWord(m.env, list.Contents(), m.regs, i, es[x])
      invariant forall k | 0 <= k < Off(i, num) :: buffer[k] == old(buffer[k])
    {
      var word;
      ok, word := SaveCell(m, list, i, offset[j], Bits(mask[j]), es[j]);
      if !ok {
        return;
      }
      buffer[i * num + j] := word;
      j := j + 1;
    }
    ok := true;
  }

  /** The rows of the first `k` CPUs are saved. */
  ghost predicate SavedTo(env: Env, table: Table, regs: Regs, es: Table, k: nat, file: seq<bv64>) {
    forall c | 0 <= c < k ::
      Opens(env, c) && Off(c, |es|) + |es| <= |file| && RowOf(file, |es|, c) == SavedRow(env, table, regs, c, es)
  }

  lemma SavedToKept(env: Env, table: Table, regs: Regs, es: Table, k: nat, file: seq<bv64>, file': seq<bv64>)
    requires SavedTo(env, table, regs, es, k, file) && |file| == |file'| && Off(k, |es|) <= |file|
    requires forall x | 0 <= x < Off(k, |es|) :: file'[x] == file[x]
    ensures SavedTo(env, table, regs, es, k, file')
  {
    hide SavedRow, RowOf;
    forall c | 0 <= c < k
      ensures Off(c, |es|) + |es| <= |file'| && RowOf(file', |es|, c) == RowOf(file, |es|, c)
    {
      OffGrows(c, k, |es|);
      RowKept(file, file', |es|, c);
    }
  }

  lemma RowKept(file: seq<bv64>, file': seq<bv64>, n: nat, c: nat)
    requires Off(c, n) + n <= |file| == |file'|
    requires forall x | 0 <= x < Off(c, n) + n :: file'[x] == file[x]
    ensures RowOf(file', n, c) == RowOf(file, n, c)
  {
    hide Off;
  }

  lemma SaveableNext(env: Env, table: Table, regs: Regs, es: Table, i: nat, n: nat)
    requires Saveable(env, table, regs, es, i) && i < n
    ensures SavesCpu(env, table, regs, es, i) ==> Saveable(env, table, regs, es, i + 1)
    ensures Saveable(env, table, regs, es, n) ==> SavesCpu(env, table, regs, es, i)
  {
    hide SavesCpu;
  }

  lemma SavedToNext(env: Env, table: Table, regs: Regs, es: Table, i: nat, file: seq<bv64>)
    requires SavedTo(env, table, regs, es, i, file) && Opens(env, i) && Off(i, |es|) + |es| <= |file|
    requires RowOf(file, |es|, i) == SavedRow(env, table, regs, i, es)
    ensures SavedTo(env, table, regs, es, i + 1, file)
  {
    hide SavedRow, RowOf;
  }

  lemma NothingSaved(env: Env, table: Table, regs: Regs, es: Table)
    ensures Saveable(env, table, regs, es, 0) && forall file :: SavedTo(env, table, regs, es, 0, file)
  {}

  lemma AllSaved(env: Env, table: Table, regs: Regs, es: Table, numCpu: nat, file: seq<bv64>)
    requires SavedTo(env, table, regs, es, numCpu, file) && |file| == Off(numCpu, |es|)
    ensures SavedFile(env, table, regs, es, numCpu, file)
  {
    hide SavedRow, RowOf;
  }

  /** The outer loop of msr_save. */
  method SaveAll(m: Machine, list: Allowlist, offset: array<u64>, mask: array<u64>, num: nat, numCpu: nat,
                 ghost es: Table)
    returns (err: int, file: seq<bv64>)
    requires list.Valid() && Holds(offset, mask, es) && num == |es|
    ensures err == 0 <==> Saveable(m.env, list.Contents(), m.regs, es, numCpu)
    ensures err == 0 <==> forall i: nat | i < numCpu :: CanSave(m.env, list.Contents(), m.regs, i, es)
    ensures err == 0 ==> SavedFile(m.env, list.Contents(), m.regs, es, numCpu, file)
  {
    hide Collides, SavedRow, RowOf, Allowlist.Valid, Allowlist.Contents, Saveable, SavedTo, CanSave;
    OffIsProduct(numCpu, num);
    ghost var table := list.Contents();
    NothingSaved(m.env, table, m.regs, es);
    SaveableIff(m.env, table, m.regs, es, numCpu);
    var buffer := new bv64[num * numCpu](_ => 0);
    var i := 0;
    while i < numCpu
      invariant i <= numCpu && Holds(offset, mask, es) && Off(i, num) <= buffer.Length
      invariant list.Valid() && list.Contents() == table
      invariant Saveable(m.env, table, m.regs, es, i)
      invariant SavedTo(m.env, table, m.regs, es, i, buffer[..])
    {
      SaveableNext(m.env, table, m.regs, es, i, numCpu);
      if !Opens(m.env, i) {
        return -1, [];
      }
      OffGrows(i, numCpu, num);
      ghost var before := buffer[..];
      var ok := SaveCpu(m, list, i, offset, mask, num, buffer, es);
      if !ok {
        return -1, [];
      }
      SavedToKept(m.env, table, m.regs, es, i, before, buffer[..]);
      SavedToNext(m.env, table, m.regs, es, i, buffer[..]);
      i := i + 1;
    }
    AllSaved(m.env, table, m.regs, es, numCpu, buffer[..]);
    return 0, buffer[..];
  }

  /** msr_save. */
  method MsrSave(m: Machine, list: Allowlist, text: seq<byte>, numCpu: nat) returns (err: int, file: seq<bv64>)
    requires list.Valid()
    ensures match MsrsaveParse(text)
            case Rejected(_) => err != 0
            case Entries(es) =>
              && (err == 0 <==> Saveable(m.env, list.Contents(), m.regs, es, numCpu))
              && (err == 0 <==> forall i: nat | i < numCpu :: CanSave(m.env, list.Contents(), m.regs, i, es))
              && (err == 0 ==> SavedFile(m.env, list.Contents(), m.regs, es, numCpu, file))
  {
    hide MsrsaveParse, Allowlist.Valid, Saveable, SavedFile, CanSave;
    file := [];
    var num, offset, mask;
    err, num, offset, mask := ParseAllowlist(text);
    RejectedCode(text);
    if err == 0 {
      err, file := SaveAll(m, list, offset, mask, num, numCpu, MsrsaveParse(text).table);
    }
  }

  lemma RejectedCode(text: seq<byte>)
    ensures MsrsaveParse(text).Rejected? ==> MsrsaveParse(text).code == -1
  {
    if text != [] {
      ScanCode(text, 0, CountFrom(text, 0));
    }
  }

  lemma {:induction false} ScanCode(b: seq<byte>, p: nat, n: nat)
    requires p <= |b|
    ensures ScanFrom(b, p, n).Rejected? ==> ScanFrom(b, p, n).code == -1
    decreases n
  {
    if n > 0 {
      var q := SkipComments(b, p);
      if q.Some? && NextLine(b, q.value).Some? {
        ScanCode(b, NextLine(b, q.value).value, n - 1);
      }
    }
  }

  // ---- Restoring ----

  /** One turn of the inner loop of msr_restore. */
  method RestoreOne(m: Machine, list: Allowlist, cpu: u16, pos: u64, msrMask: bv64, word: bv64,
                    ghost e: Entry, ghost o: Restored)
    returns (ghost o': Restored)
    requires list.Valid() && e.msr == pos && Bits(e.wmask) == msrMask && o.regs == m.regs
    modifies m
    ensures o' == RestoreCell(m.env, list.Contents(), o, cpu, e, word) && m.regs == o'.regs
  {
    hide Pread, Pwrite, Bits, IsGoodValue, MergeSaved, Masked, Allowlist.Valid, Allowlist.Contents;
    ghost var table := list.Contents();
    o' := o;
    var writeVal := word;
    if IsGoodValue(writeVal, msrMask) {
      var r := SysPread(m, list, cpu, pos);
      if r.Some? {
        var maskedVal := Masked(r.value, msrMask);
        if writeVal != maskedVal {
          writeVal := MergeSaved(writeVal, r.value, msrMask);
          var count := SysPwrite(m, list, cpu, pos, writeVal);
          assert WriteResult(count, m.regs) == Pwrite(m.env, table, o.regs, cpu, pos, writeVal);
          o' := Restored(m.regs, o.tries + 1, if count == 8 then o.failures else o.failures + 1);
        }
      }
    }
    assert list.Contents() == table;
    assert o' == RestoreCell(m.env, table, o, cpu, e, word);
  }

  /** The inner loop of msr_restore. */
  method RestoreCpu(m: Machine, list: Allowlist, i: nat, offset: array<u64>, mask: array<u64>, num: nat,
                    buffer: seq<bv64>, ghost es: Table, ghost o: Restored)
    returns (ghost o': Restored)
    requires list.Valid() && Opens(m.env, i) && Holds(offset, mask, es) && num == |es|
    requires Off(i, num) + num <= |buffer| && o.regs == m.regs
    modifies m
    ensures o' == RestoreRow(m.env, list.Contents(), o, i, es, RowOf(buffer, num, i), num) && m.regs == o'.regs
  {
    hide RestoreCell, Allowlist.Valid;
    OffIsProduct(i, num);
    o' := o;
    var j := 0;
    while j < num
      invariant j <= num && m.regs == o'.regs
      invariant o' == RestoreRow(m.env, list.Contents(), o, i, es, RowOf(buffer, num, i), j)
    {
      o' := RestoreOne(m, list, i, offset[j], Bits(mask[j]), buffer[i * num + j], es[j], o');
      j := j + 1;
    }
  }

  /** msr_restore, from the words in the save file. */
  method MsrRestore(m: Machine, list: Allowlist, text: seq<byte>, file: seq<bv64>, numCpu: nat)
    returns (err: int, ghost o: Restored)
    requires list.Valid()
    modifies m
    ensures m.regs == o.regs
    ensures match MsrsaveParse(text)
            case Rejected(_) => err != 0 && o == Restored(old(m.regs), 0, 0)
            case Entries(es) =>
              if |file| != Off(numCpu, |es|) then
                err != 0 && o == Restored(old(m.regs), 0, 0)
              else
                var k := Openable(m.env, numCpu);
                && (err == 0 <==> k == numCpu)
                && Off(k, |es|) <= |file|
                && o == RestoreAll(m.env, list.Contents(), Restored(old(m.regs), 0, 0), es, file, k)
  {
    hide MsrsaveParse, Allowlist.Valid, RestoreRow;
    o := Restored(m.regs, 0, 0);
    var num, offset, mask;
    err, num, offset, mask := ParseAllowlist(text);
    RejectedCode(text);
    if err != 0 {
      return;
    }
    ghost var es := MsrsaveParse(text).table;
    OffIsProduct(numCpu, num);
    if |file| != num * numCpu {
      return -1, o;
    }
    var i := 0;
    while i < numCpu
      invariant i <= numCpu && Off(i, num) <= |file| && m.regs == o.regs && Holds(offset, mask, es)
      invariant forall c | 0 <= c < i :: Opens(m.env, c)
      invariant o == RestoreAll(m.env, list.Contents(), Restored(old(m.regs), 0, 0), es, file, i)
    {
      OffGrows(i, numCpu, num);
      if !Opens(m.env, i) {
        return -1, o;
      }
      o := RestoreCpu(m, list, i, offset, mask, num, file, es, o);
      i := i + 1;
    }
    return 0, o;
  }
}
