/** Restoring twice: exactly when the second restore finds nothing to do. */
module Idempotence {
  import opened Words
  import opened AllowlistText
  import opened AllowlistSpec
  import opened Registers
  import opened SaveRestore
  import opened Restoration

  // ---- Bits ----

  /** The bits of an entry's mask that the driver lets it write. */
  function Allowed(own: bv64, mask: bv64): bv64 {
    own & mask
  }

  /** The bits of an entry's mask that the driver keeps from it. */
  function Withheld(own: bv64, mask: bv64): bv64 {
    Allowed(own, !mask)
  }

  /** The bits that an unfailing write has to bring back: all of them if the driver permits no write at all. */
  function Owed(own: bv64, mask: bv64): bv64 {
    if mask == 0 then own else Allowed(own, mask)
  }

  /** The written word has the saved bits wherever both masks allow it. */
  lemma TargetSettles(mask: bv64, own: bv64, saved: bv64, r: bv64)
    ensures Agree(Merge(mask, Merge(own, saved, r), r), saved, Allowed(own, mask))
  {
    hide Merge, Agree;
    MergeNested(mask, own, saved, r);
    MergeInside(mask & own, saved, r);
    assert mask & own == Allowed(own, mask);
  }

  lemma TargetKeeps(mask: bv64, own: bv64, saved: bv64, r: bv64, other: bv64)
    requires Agree(r, saved, other)
    ensures Agree(Merge(mask, Merge(own, saved, r), r), saved, other)
  {
    hide Merge;
    MergeNested(mask, own, saved, r);
    MergeToward(mask & own, saved, r, other);
  }

  lemma MergeToward(mask: bv64, saved: bv64, r: bv64, other: bv64)
    requires Agree(r, saved, other)
    ensures Agree(Merge(mask, saved, r), saved, other)
  {
    Distribute(mask, saved, r, other);
    assert r & (other & !mask) == (r & other) & !mask;
    assert saved & (other & !mask) == (saved & other) & !mask;
    assert (saved & (mask & other)) | (saved & (other & !mask)) == saved & other;
  }

  lemma MaskedTwice(a: bv64, own: bv64, mask: bv64)
    ensures Masked(a, Allowed(own, mask)) == Masked(Masked(a, own), mask)
  {}

  lemma MaskedTwiceOutside(a: bv64, own: bv64, mask: bv64)
    ensures Masked(a, Withheld(own, mask)) == Masked(Masked(a, own), !mask)
  {
    hide Masked, Allowed;
    MaskedTwice(a, own, !mask);
  }

  lemma AgreeBoth(a: bv64, b: bv64, mask: bv64)
    requires Agree(a, b, mask) && Within(a, b, mask)
    ensures a == b
  {
    hide Masked;
    SplitMasked(a, mask);
    SplitMasked(b, mask);
  }

  lemma SplitMasked(a: bv64, mask: bv64)
    ensures a == Masked(a, mask) | Masked(a, !mask)
  {}

  lemma AgreeParts(a: bv64, b: bv64, own: bv64, mask: bv64)
    ensures Agree(a, b, own) <==> Agree(a, b, Allowed(own, mask)) && Agree(a, b, Withheld(own, mask))
  {
    hide Masked, Allowed, Withheld;
    MaskedTwice(a, own, mask);
    MaskedTwice(b, own, mask);
    MaskedTwiceOutside(a, own, mask);
    MaskedTwiceOutside(b, own, mask);
    if Agree(a, b, Allowed(own, mask)) && Agree(a, b, Withheld(own, mask)) {
      AgreeBoth(Masked(a, own), Masked(b, own), mask);
    }
  }

  lemma OwedParts(a: bv64, b: bv64, own: bv64, mask: bv64)
    ensures Agree(a, b, own) <==> Agree(a, b, Owed(own, mask)) && Agree(a, b, Withheld(own, mask))
  {
    hide Agree;
    AgreeParts(a, b, own, mask);
    if mask == 0 {
      NothingPermitted(own);
    }
  }

  lemma NothingPermitted(own: bv64)
    ensures Withheld(own, 0) == own
  {}

  lemma MaskedOther(a: bv64, own: bv64, mask: bv64)
    ensures Masked(a, Withheld(own, mask)) == Masked(Masked(a, !mask), own)
  {}

  /** Changes inside a mask do not matter to the bits it withholds. */
  lemma WithheldStays(a: bv64, b: bv64, saved: bv64, own: bv64, mask: bv64)
    requires Within(a, b, mask)
    ensures Agree(a, saved, Withheld(own, mask)) <==> Agree(b, saved, Withheld(own, mask))
  {
    hide Masked, Withheld;
    MaskedOther(a, own, mask);
    MaskedOther(b, own, mask);
  }

  // ---- One turn ----

  function Turn(env: Env, table: Table, regs0: Regs, o: Restored, cpu: u16, e: Entry): Restored {
    RestoreCell(env, table, o, cpu, e, SavedWord(env, table, regs0, cpu, e))
  }

  /** Entry `e` of CPU `cpu` can be read, and its register differs from the saved contents in `bits`. */
  predicate Differs(env: Env, table: Table, regs0: Regs, regs: Regs, cpu: u16, e: Entry, bits: bv64) {
    var c := Cell(cpu, Truncate(e.msr));
    Seekable(e.msr) && Listed(table, c.msr) && !env.readFault(c) && !Agree(regs[c], regs0[c], bits)
  }

  /** Restoring would write for the entry. */
  predicate Pending(env: Env, table: Table, regs0: Regs, regs: Regs, cpu: u16, e: Entry) {
    Differs(env, table, regs0, regs, cpu, e, Bits(e.wmask))
  }

  /** Bits of the entry that an unfailing write has to bring back are not back. */
  predicate Due(env: Env, table: Table, regs0: Regs, regs: Regs, cpu: u16, e: Entry) {
    Differs(env, table, regs0, regs, cpu, e, Owed(Bits(e.wmask), MaskOf(table, Truncate(e.msr))))
  }

  /**
    * Bits differ that the entry names but the driver withholds: the entry is an alias, with an address of more
    * than 32 bits, of a register that is listed under a smaller mask.
    */
  predicate Hopeless(env: Env, table: Table, regs0: Regs, regs: Regs, cpu: u16, e: Entry) {
    Differs(env, table, regs0, regs, cpu, e, Withheld(Bits(e.wmask), MaskOf(table, Truncate(e.msr))))
  }

  lemma PendingParts(env: Env, table: Table, regs0: Regs, regs: Regs, cpu: u16, e: Entry)
    ensures Pending(env, table, regs0, regs, cpu, e) <==>
            Due(env, table, regs0, regs, cpu, e) || Hopeless(env, table, regs0, regs, cpu, e)
  {
    hide Agree, MaskOf, Bits, Listed, Owed, Withheld;
    var c := Cell(cpu, Truncate(e.msr));
    OwedParts(regs[c], regs0[c], Bits(e.wmask), MaskOf(table, Truncate(e.msr)));
  }

  /** An unfailing turn leaves nothing of its entry due. */
  lemma TurnSettles(env: Env, table: Table, regs0: Regs, o: Restored, cpu: u16, e: Entry)
    requires !Collides(env, table, regs0, cpu, e)
    ensures var turn := Turn(env, table, regs0, o, cpu, e);
            turn.failures >= o.failures
            && (turn.failures == o.failures ==> !Due(env, table, regs0, turn.regs, cpu, e))
  {
    hide RestoreCell, SavedWord, Collides, MaskOf, Merge, Bits, Agree, Listed, Allowed, Withheld;
    var c := Cell(cpu, Truncate(e.msr));
    RestoringWrite(env, table, regs0, o, cpu, e);
    TargetSettles(MaskAt(table, c), Bits(e.wmask), regs0[c], o.regs[c]);
    OwedParts(o.regs[c], regs0[c], Bits(e.wmask), MaskAt(table, c));
  }

  /** A turn unsettles no bits of any entry. */
  lemma TurnKeeps(env: Env, table: Table, regs0: Regs, o: Restored, cpu: u16, e: Entry,
                  cpu': u16, e': Entry, bits: bv64)
    requires !Collides(env, table, regs0, cpu, e) && !Differs(env, table, regs0, o.regs, cpu', e', bits)
    ensures !Differs(env, table, regs0, Turn(env, table, regs0, o, cpu, e).regs, cpu', e', bits)
  {
    hide RestoreCell, SavedWord, Collides, MaskOf, Merge, Bits, Agree, Listed, Allowed, Withheld;
    var c := Cell(cpu', Truncate(e'.msr));
    if c == Cell(cpu, Truncate(e.msr)) {
      RestoringWrite(env, table, regs0, o, cpu, e);
      if Agree(o.regs[c], regs0[c], bits) {
        TargetKeeps(MaskAt(table, c), Bits(e.wmask), regs0[c], o.regs[c], bits);
      }
    } else {
      OtherCell(env, table, o, cpu, e, SavedWord(env, table, regs0, cpu, e), c);
    }
  }

  /** A turn does nothing exactly if its entry is not pending. */
  lemma TurnIdle(env: Env, table: Table, regs0: Regs, o: Restored, cpu: u16, e: Entry)
    requires !Collides(env, table, regs0, cpu, e)
    ensures var turn := Turn(env, table, regs0, o, cpu, e);
            if Pending(env, table, regs0, o.regs, cpu, e) then turn.tries > o.tries else turn == o
  {
    hide RestoreCell, SavedWord, Collides, Agree, Bits, Listed, Target;
    var turn := Turn(env, table, regs0, o, cpu, e);
    RestoringWrite(env, table, regs0, o, cpu, e);
    if !Pending(env, table, regs0, o.regs, cpu, e) {
      forall c: Cell
        ensures turn.regs[c] == o.regs[c]
      {
        if c != Cell(cpu, Truncate(e.msr)) {
          OtherCell(env, table, o, cpu, e, SavedWord(env, table, regs0, cpu, e), c);
        }
      }
      assert turn.regs == o.regs;
    }
  }

  // ---- One CPU ----

  function RowTo(env: Env, table: Table, regs0: Regs, o: Restored, cpu: u16, j: nat): Restored
    requires j <= |table|
  {
    RestoreRow(env, table, o, cpu, table, SavedRow(env, table, regs0, cpu, table), j)
  }

  lemma RowStart(env: Env, table: Table, regs0: Regs, o: Restored, cpu: u16)
    ensures RowTo(env, table, regs0, o, cpu, 0) == o
  {}

  lemma RowNext(env: Env, table: Table, regs0: Regs, o: Restored, cpu: u16, j: nat)
    requires 0 < j <= |table|
    ensures RowTo(env, table, regs0, o, cpu, j)
            == Turn(env, table, regs0, RowTo(env, table, regs0, o, cpu, j - 1), cpu, table[j - 1])
  {
    hide RestoreCell, SavedWord;
  }

  /** Nothing of the first `j` entries is due. */
  ghost predicate Settled(env: Env, table: Table, regs0: Regs, regs: Regs, cpu: u16, j: nat)
    requires j <= |table|
  {
    forall i | 0 <= i < j :: !Due(env, table, regs0, regs, cpu, table[i])
  }

  lemma {:induction false} RowKeeps(env: Env, table: Table, regs0: Regs, o: Restored, cpu: u16, j: nat,
                                    cpu': u16, e': Entry, bits: bv64)
    requires Clean(env, table, regs0, cpu, table) && j <= |table|
    requires !Differs(env, table, regs0, o.regs, cpu', e', bits)
    ensures !Differs(env, table, regs0, RowTo(env, table, regs0, o, cpu, j).regs, cpu', e', bits)
  {
    hide Turn, Collides, Differs, RowTo;
    RowStart(env, table, regs0, o, cpu);
    if j > 0 {
      RowKeeps(env, table, regs0, o, cpu, j - 1, cpu', e', bits);
      RowNext(env, table, regs0, o, cpu, j);
      TurnKeeps(env, table, regs0, RowTo(env, table, regs0, o, cpu, j - 1), cpu, table[j - 1], cpu', e', bits);
    }
  }

  lemma DueKept(env: Env, table: Table, regs0: Regs, o: Restored, cpu: u16, e: Entry, cpu': u16, e': Entry)
    requires !Collides(env, table, regs0, cpu, e) && !Due(env, table, regs0, o.regs, cpu', e')
    ensures !Due(env, table, regs0, Turn(env, table, regs0, o, cpu, e).regs, cpu', e')
  {
    hide Turn, Collides, Differs, Bits, MaskOf, Owed;
    TurnKeeps(env, table, regs0, o, cpu, e, cpu', e', Owed(Bits(e'.wmask), MaskOf(table, Truncate(e'.msr))));
  }

  lemma {:induction false} RowSettles(env: Env, table: Table, regs0: Regs, o: Restored, cpu: u16, j: nat)
    requires Clean(env, table, regs0, cpu, table) && j <= |table|
    ensures var p := RowTo(env, table, regs0, o, cpu, j);
            p.failures >= o.failures && (p.failures == o.failures ==> Settled(env, table, regs0, p.regs, cpu, j))
  {
    hide Turn, Collides, Due, RowTo;
    RowStart(env, table, regs0, o, cpu);
    if j > 0 {
      RowSettles(env, table, regs0, o, cpu, j - 1);
      RowNext(env, table, regs0, o, cpu, j);
      var p := RowTo(env, table, regs0, o, cpu, j - 1);
      TurnSettles(env, table, regs0, p, cpu, table[j - 1]);
      forall i | 0 <= i < j - 1 && !Due(env, table, regs0, p.regs, cpu, table[i])
        ensures !Due(env, table, regs0, RowTo(env, table, regs0, o, cpu, j).regs, cpu, table[i])
      {
        DueKept(env, table, regs0, p, cpu, table[j - 1], cpu, table[i]);
      }
    }
  }

  ghost predicate NonePending(env: Env, table: Table, regs0: Regs, regs: Regs, cpu: u16, j: nat)
    requires j <= |table|
  {
    forall i | 0 <= i < j :: !Pending(env, table, regs0, regs, cpu, table[i])
  }

  /** A row does nothing exactly if none of its entries is pending in front of it. */
  lemma {:induction false} RowIdle(env: Env, table: Table, regs0: Regs, o: Restored, cpu: u16, j: nat)
    requires Clean(env, table, regs0, cpu, table) && j <= |table|
    ensures var p := RowTo(env, table, regs0, o, cpu, j);
            if NonePending(env, table, regs0, o.regs, cpu, j) then p == o else p.tries > o.tries
  {
    hide Turn, Collides, Pending, RowTo;
    RowStart(env, table, regs0, o, cpu);
    if j > 0 {
      RowIdle(env, table, regs0, o, cpu, j - 1);
      RowNext(env, table, regs0, o, cpu, j);
      TurnIdle(env, table, regs0, RowTo(env, table, regs0, o, cpu, j - 1), cpu, table[j - 1]);
    }
  }

  // ---- All CPUs ----

  lemma NextCpu(env: Env, table: Table, regs0: Regs, regs: Regs, numCpu: nat, file: seq<bv64>, k: nat)
    requires Saved(env, table, regs0, numCpu, file) && 0 < k <= numCpu
    requires Off(k, |table|) <= |file| && forall i | 0 <= i < k :: Opens(env, i)
    ensures Off(k - 1, |table|) <= |file| && Opens(env, k - 1) && Clean(env, table, regs0, k - 1, table)
    ensures RestoreSaved(env, table, regs, file, k)
            == RowTo(env, table, regs0, RestoreSaved(env, table, regs, file, k - 1), k - 1, |table|)
  {
    hide Saved, RestoreRow, RowOf, SavedRow, Clean;
    SavedPrefix(env, table, regs0, numCpu, file, k - 1);
    RowSaved(env, table, regs0, numCpu, file, k - 1);
  }

  lemma NoCpu(env: Env, table: Table, regs: Regs, file: seq<bv64>)
    ensures RestoreSaved(env, table, regs, file, 0) == Restored(regs, 0, 0)
  {}

  lemma {:induction false} AllSettled(env: Env, table: Table, regs0: Regs, regs: Regs, numCpu: nat, file: seq<bv64>,
                                      k: nat, cpu: u16)
    requires Saved(env, table, regs0, numCpu, file) && cpu < k <= numCpu
    requires Off(k, |table|) <= |file| && forall i | 0 <= i < k :: Opens(env, i)
    requires RestoreSaved(env, table, regs, file, k).failures == 0
    ensures Settled(env, table, regs0, RestoreSaved(env, table, regs, file, k).regs, cpu, |table|)
  {
    hide RestoreSaved, Saved, Clean, RowTo, Differs, Bits, MaskOf, Owed;
    NextCpu(env, table, regs0, regs, numCpu, file, k);
    var p := RestoreSaved(env, table, regs, file, k - 1);
    RowSettles(env, table, regs0, p, k - 1, |table|);
    if cpu < k - 1 {
      AllSettled(env, table, regs0, regs, numCpu, file, k - 1, cpu);
      forall i | 0 <= i < |table|
        ensures !Due(env, table, regs0, RestoreSaved(env, table, regs, file, k).regs, cpu, table[i])
      {
        var e := table[i];
        RowKeeps(env, table, regs0, p, k - 1, |table|, cpu, e, Owed(Bits(e.wmask), MaskOf(table, Truncate(e.msr))));
      }
    }
  }

  /** Restoring does nothing exactly if no entry of a saved CPU is pending in front of it. */
  lemma {:induction false} AllIdle(env: Env, table: Table, regs0: Regs, regs: Regs, numCpu: nat, file: seq<bv64>,
                                   k: nat)
    requires Saved(env, table, regs0, numCpu, file) && k <= numCpu
    requires Off(k, |table|) <= |file| && forall i | 0 <= i < k :: Opens(env, i)
    ensures var p := RestoreSaved(env, table, regs, file, k);
            if forall cpu: u16 | cpu < k :: NonePending(env, table, regs0, regs, cpu, |table|)
            then p == Restored(regs, 0, 0) else p.tries > 0
  {
    hide RestoreSaved, Saved, Clean, RowTo, NonePending;
    if k == 0 {
      NoCpu(env, table, regs, file);
    } else {
      NextCpu(env, table, regs0, regs, numCpu, file, k);
      AllIdle(env, table, regs0, regs, numCpu, file, k - 1);
      var last: u16 := k - 1;
      RowIdle(env, table, regs0, RestoreSaved(env, table, regs, file, k - 1), last, |table|);
    }
  }

  /** No entry of the CPU differs in bits that it names and the driver withholds. */
  ghost predicate NoneHopelessOn(env: Env, table: Table, regs0: Regs, regs: Regs, cpu: u16) {
    forall i | 0 <= i < |table| :: !Hopeless(env, table, regs0, regs, cpu, table[i])
  }

  ghost predicate NoneHopeless(env: Env, table: Table, regs0: Regs, regs: Regs, numCpu: nat) {
    forall cpu: u16 | cpu < numCpu :: NoneHopelessOn(env, table, regs0, regs, cpu)
  }

  /** Restoring changes nothing about withheld bits. */
  lemma HopelessStays(env: Env, table: Table, regs0: Regs, regs: Regs, numCpu: nat, file: seq<bv64>,
                      cpu: u16, e: Entry)
    requires Saved(env, table, regs0, numCpu, file)
    requires Off(numCpu, |table|) <= |file| && forall i | 0 <= i < numCpu :: Opens(env, i)
    ensures Hopeless(env, table, regs0, RestoreSaved(env, table, regs, file, numCpu).regs, cpu, e) <==>
            Hopeless(env, table, regs0, regs, cpu, e)
  {
    hide RestoreSaved, Saved, MaskOf, Bits, Listed, Agree, Within, Withheld;
    var c := Cell(cpu, Truncate(e.msr));
    AllBounded(env, table, regs0, regs, numCpu, file, numCpu, c);
    WithheldStays(RestoreSaved(env, table, regs, file, numCpu).regs[c], regs[c], regs0[c],
                 Bits(e.wmask), MaskOf(table, c.msr));
  }

  lemma PendingIsHopeless(env: Env, table: Table, regs0: Regs, regs: Regs, numCpu: nat, file: seq<bv64>, cpu: u16)
    requires Saved(env, table, regs0, numCpu, file) && cpu < numCpu
    requires Off(numCpu, |table|) <= |file| && forall i | 0 <= i < numCpu :: Opens(env, i)
    requires RestoreSaved(env, table, regs, file, numCpu).failures == 0
    ensures NonePending(env, table, regs0, RestoreSaved(env, table, regs, file, numCpu).regs, cpu, |table|) <==>
            NoneHopelessOn(env, table, regs0, regs, cpu)
  {
    hide RestoreSaved, Saved, Due, Hopeless, Pending;
    var first := RestoreSaved(env, table, regs, file, numCpu);
    AllSettled(env, table, regs0, regs, numCpu, file, numCpu, cpu);
    forall i | 0 <= i < |table|
      ensures Pending(env, table, regs0, first.regs, cpu, table[i]) <==>
              Hopeless(env, table, regs0, regs, cpu, table[i])
    {
      PendingParts(env, table, regs0, first.regs, cpu, table[i]);
      HopelessStays(env, table, regs0, regs, numCpu, file, cpu, table[i]);
    }
  }

  /**
    * Behind a restore without a failed write, a second restore asks for no write if and only if, in front of
    * the first, no entry differed from its saved contents in bits that it names and the driver withholds. It
    * then changes nothing.
    */
  lemma SecondRestoreIsIdleIff(env: Env, table: Table, regs0: Regs, regs: Regs, numCpu: nat, file: seq<bv64>)
    requires Saved(env, table, regs0, numCpu, file)
    requires Off(numCpu, |table|) <= |file| && forall i | 0 <= i < numCpu :: Opens(env, i)
    requires RestoreSaved(env, table, regs, file, numCpu).failures == 0
    ensures var first := RestoreSaved(env, table, regs, file, numCpu);
            var second := RestoreSaved(env, table, first.regs, file, numCpu);
            && (second.tries == 0 <==> NoneHopeless(env, table, regs0, regs, numCpu))
            && (second.tries == 0 ==> second == Restored(first.regs, 0, 0))
  {
    hide RestoreSaved, Saved, NonePending, NoneHopelessOn;
    var first := RestoreSaved(env, table, regs, file, numCpu);
    AllIdle(env, table, regs0, first.regs, numCpu, file, numCpu);
    forall cpu: u16 | cpu < numCpu
      ensures NonePending(env, table, regs0, first.regs, cpu, |table|) <==>
              NoneHopelessOn(env, table, regs0, regs, cpu)
    {
      PendingIsHopeless(env, table, regs0, regs, numCpu, file, cpu);
    }
  }
}
