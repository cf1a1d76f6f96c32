/** msr_entry.c: reading and writing one register through the per-CPU device. */
module SingleAccess {
  import opened Words
  import opened AllowlistText
  import opened AllowlistSpec
  import opened AllowlistStore
  import opened Registers

  /** msr_read at file position `pos`. */
  function ReadReg(env: Env, table: Table, regs: Regs, cpu: u16, pos: u64): Result<bv64> {
    var c := Cell(cpu, Truncate(pos));
    if !Listed(table, c.msr) then Err(EACCES)
    else if env.readFault(c) then Err(EIO)
    else Ok(regs[c])
  }

  datatype WriteResult = WriteResult(ret: int, regs: Regs)

  /** msr_write at file position `pos`, undisturbed. */
  function WriteReg(env: Env, table: Table, regs: Regs, cpu: u16, pos: u64, data: bv64): WriteResult {
    var c := Cell(cpu, Truncate(pos));
    var mask := MaskOf(table, c.msr);
    if mask == 0 then WriteResult(EACCES, regs)
    else if mask != FULL && env.readFault(c) then WriteResult(EIO, regs)
    else
      var v := Merge(mask, data, regs[c]);
      if env.writeFault(c, v) then WriteResult(EIO, regs) else WriteResult(8, regs[c := v])
  }

  /** A read of a listed register that does not fault yields its contents. */
  lemma ReadRegIs(env: Env, table: Table, regs: Regs, cpu: u16, pos: u64)
    ensures var c := Cell(cpu, Truncate(pos));
            var r := ReadReg(env, table, regs, cpu, pos);
            if forall i | 0 <= i < |table| :: table[i].msr != c.msr then r == Err(EACCES)
            else if env.readFault(c) then r == Err(EIO)
            else r == Ok(regs[c])
  {
    hide Listed;
    ListedIs(table, Truncate(pos));
  }

  /**
    * A write of a register with entry `i`: refused under an empty mask; failed by a fault of the read, which a full
    * mask makes unnecessary, or of the write; or else done, under the mask of the entry, to this register only.
    */
  lemma WriteRegIs(env: Env, table: Table, regs: Regs, cpu: u16, pos: u64, data: bv64, i: nat)
    requires Unique(table) && i < |table| && table[i].msr == Truncate(pos)
    ensures var c := Cell(cpu, Truncate(pos));
            var mask := Bits(table[i].wmask);
            var r := WriteReg(env, table, regs, cpu, pos, data);
            && (mask == 0 ==> r == WriteResult(EACCES, regs))
            && (mask != 0 && mask != FULL && env.readFault(c) ==> r == WriteResult(EIO, regs))
            && (r.ret == 8 || r == WriteResult(EACCES, regs) || r == WriteResult(EIO, regs))
            && (r.ret == 8 ==>
                  && mask != 0 && (env.readFault(c) ==> mask == FULL) && !env.writeFault(c, r.regs[c])
                  && Agree(r.regs[c], data, mask) && Within(r.regs[c], regs[c], mask)
                  && forall d: Cell | d != c :: r.regs[d] == regs[d])
            && (mask != 0 && (env.readFault(c) ==> mask == FULL) && (forall v :: !env.writeFault(c, v)) ==> r.ret == 8)
  {
    hide Merge, Agree, Within, Bits, MaskOf;
    MaskIs(table, i);
    MergeInside(Bits(table[i].wmask), data, regs[Cell(cpu, Truncate(pos))]);
    MergeOutside(Bits(table[i].wmask), data, regs[Cell(cpu, Truncate(pos))]);
  }

  /** A register that is not listed is not written. */
  lemma UnlistedWrite(env: Env, table: Table, regs: Regs, cpu: u16, pos: u64, data: bv64)
    requires forall i | 0 <= i < |table| :: table[i].msr != Truncate(pos)
    ensures WriteReg(env, table, regs, cpu, pos, data) == WriteResult(EACCES, regs)
  {
    ListedIs(table, Truncate(pos));
    NoMaskUnlisted(table, Truncate(pos));
  }

  method MsrRead(m: Machine, list: Allowlist, cpu: u16, pos: u64) returns (r: Result<bv64>)
    requires list.Valid()
    ensures r == ReadReg(m.env, list.Contents(), m.regs, cpu, pos)
  {
    var reg := Truncate(pos);
    var listed := list.MaskExists(reg);
    if !listed {
      return Err(EACCES);
    }
    var fault, data := m.Rdmsr(Cell(cpu, reg));
    return if fault then Err(EIO) else Ok(data);
  }

  /** The merge of the current contents into the data, both in place. */
  method MergeWords(mask: bv64, current: bv64, input: bv64) returns (data: bv64)
    ensures Agree(data, input, mask) && Within(data, current, mask)
    ensures data == Merge(mask, input, current)
  {
    var curdata := current;
    data := input;
    curdata := curdata & !mask;
    data := data & mask;
    data := data | curdata;
    MergeBits(mask, input, current, data);
  }

  method MsrWrite(m: Machine, list: Allowlist, cpu: u16, pos: u64, input: bv64) returns (ret: int)
    requires list.Valid()
    modifies m
    ensures WriteResult(ret, m.regs) == WriteReg(m.env, list.Contents(), old(m.regs), cpu, pos, input)
  {
    hide Merge, MaskOf, Allowlist.Valid;
    var reg := Truncate(pos);
    var mask := list.WriteMask(reg);
    if mask == 0 {
      return EACCES;
    }
    var data := input;
    var c := Cell(cpu, reg);
    MergeFull(input, m.regs[c]);
    if mask != FULL {
      var fault, curdata := m.Rdmsr(c);
      if fault {
        return EIO;
      }
      data := MergeWords(mask, curdata, data);
    }
    var fault := m.Wrmsr(c, data);
    return if fault then EIO else 8;
  }
}
