/** Model-specific registers as plain storage, with faults that depend only on the access. */
module Registers {
  import opened Words

  datatype Cell = Cell(cpu: u16, msr: u32)

  /** The contents of every register of every logical CPU. */
  type Regs = m: imap<Cell, bv64> | forall c: Cell :: c in m
    ghost witness imap c: Cell :: 0

  /** The machine apart from register contents: which accesses fault and which CPUs are online. */
  datatype Env = Env(readFault: Cell -> bool, writeFault: (Cell, bv64) -> bool, online: set<u16>)

  class Machine {
    const env: Env
    var regs: Regs

    constructor (env: Env, regs: Regs)
      ensures this.env == env && this.regs == regs
    {
      this.env := env;
      this.regs := regs;
    }

    /** rdmsr_safe */
    method Rdmsr(c: Cell) returns (fault: bool, v: bv64)
      ensures fault == env.readFault(c)
      ensures !fault ==> v == regs[c]
    {
      return env.readFault(c), regs[c];
    }

    /** wrmsr_safe */
    method Wrmsr(c: Cell, v: bv64) returns (fault: bool)
      modifies this
      ensures fault == env.writeFault(c, v)
      ensures regs == if fault then old(regs) else old(regs)[c := v]
    {
      fault := env.writeFault(c, v);
      if !fault {
        regs := regs[c := v];
      }
    }
  }
}
