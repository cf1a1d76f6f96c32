/**
  * Restoring under another allowlist than the one that was saved under: exactly when every register only ever
  * gets bits that were saved from itself.
  */
module ForeignLists {
  import opened Words
  import opened AllowlistText
  import opened AllowlistSpec
  import opened Registers
  import opened SaveRestore
  import opened Restoration
  import opened Idempotence
  import opened AliasTables

  // ---- Bits ----

  /** Every bit of `w` is that of `a` or that of `b`. */
  predicate Mixed(w: bv64, a: bv64, b: bv64) {
    (w ^ a) & (w ^ b) == 0
  }

  lemma MixedSelf(a: bv64, b: bv64)
    ensures Mixed(a, a, b)
  {}

  lemma MixedSame(w: bv64, a: bv64)
    ensures Mixed(w, a, a) ==> w == a
  {}

  lemma MixedTrans(a: bv64, b: bv64, d: bv64, saved: bv64)
    requires Mixed(b, a, saved) && Mixed(d, b, saved)
    ensures Mixed(d, a, saved)
  {}

  lemma MergeIsMixed(mask: bv64, saved: bv64, r: bv64)
    ensures Mixed(Merge(mask, saved, r), r, saved)
  {}

  lemma SameData(mask: bv64, a: bv64, b: bv64, r: bv64)
    requires Agree(a, b, mask)
    ensures Merge(mask, a, r) == Merge(mask, b, r)
  {
    hide Merge, Agree, Within;
    var w := Merge(mask, a, r);
    MergeInside(mask, a, r);
    MergeOutside(mask, a, r);
    AgreeTrans(w, a, b, mask);
    MergeIs(mask, b, r, w);
  }

  lemma GoodFits(word: bv64, mask: bv64)
    requires IsGoodValue(word, mask)
    ensures Masked(word, mask) == word
  {
    if IsFull(mask) {
      assert mask == FULL;
    }
  }

  /** A good word under the mask of the entry, merged under the driver's mask: only the bits in both change. */
  lemma RestoredBits(mask: bv64, own: bv64, word: bv64, r: bv64)
    requires IsGoodValue(word, own)
    ensures Merge(mask, MergeSaved(word, r, own), r) == Merge(Allowed(own, mask), word, r)
  {
    hide IsGoodValue, Merge, Masked, MergeSaved;
    GoodFits(word, own);
    MergeSavedIs(own, word, r);
    MergeNested(mask, own, word, r);
    assert mask & own == Allowed(own, mask);
  }

  lemma MaskedAgrees(r: bv64, own: bv64, mask: bv64)
    ensures Agree(Masked(r, own), r, Allowed(own, mask))
  {
    hide Masked, Allowed;
    MaskedTwice(r, own, mask);
    MaskedTwice(Masked(r, own), own, mask);
    MaskedAgain(r, own);
  }

  lemma MaskedAgain(r: bv64, own: bv64)
    ensures Masked(Masked(r, own), own) == Masked(r, own)
  {}

  // ---- One turn ----

  function ActiveBits(table: Table, e: Entry): bv64 {
    Allowed(Bits(e.wmask), MaskOf(table, Truncate(e.msr)))
  }

  /** A turn with any word: when it writes, and what. */
  lemma AnyTurn(env: Env, table: Table, o: Restored, cpu: u16, e: Entry, word: bv64)
    ensures var c := Cell(cpu, Truncate(e.msr));
            var r := o.regs[c];
            var v := Merge(ActiveBits(table, e), word, r);
            RestoreCell(env, table, o, cpu, e, word).regs[c] ==
              if Seekable(e.msr) && Listed(table, c.msr) && !env.readFault(c) && IsGoodValue(word, Bits(e.wmask))
                 && word != Masked(r, Bits(e.wmask)) && MaskAt(table, c) != 0 && !env.writeFault(c, v)
              then v else r
  {
    hide MaskOf, Merge, Bits, IsGoodValue, Masked, MergeSaved, Listed, Allowed;
    var c := Cell(cpu, Truncate(e.msr));
    if IsGoodValue(word, Bits(e.wmask)) {
      RestoredBits(MaskAt(table, c), Bits(e.wmask), word, o.regs[c]);
    }
  }

  /** The word saved for entry `e` is safe to restore for entry `e'`. */
  predicate SafeEntry(saved: Table, table: Table, e: Entry, e': Entry) {
    Seekable(e'.msr) && ActiveBits(table, e') != 0 ==>
      if Seekable(e.msr) && Listed(saved, Truncate(e.msr)) then
        Truncate(e.msr) == Truncate(e'.msr) && Withheld(ActiveBits(table, e'), Bits(e.wmask)) == 0
      else
        !IsGoodValue(BadValue(Bits(e.wmask)), Bits(e'.wmask))
  }

  /** All registers hold bits that they held in `regs`, or that were saved from them. */
  ghost predicate OnlyOwn(now: Regs, regs: Regs, regs0: Regs) {
    forall c: Cell :: Mixed(now[c], regs[c], regs0[c])
  }

  lemma EmptyMerge(mask: bv64, data: bv64, r: bv64)
    requires mask == 0
    ensures Merge(mask, data, r) == r
  {}

  lemma NothingWithheld(active: bv64, own: bv64)
    requires Withheld(active, own) == 0
    ensures Allowed(own, active) == active
  {
    Split(active, own);
    assert active & !own == 0;
    assert own & active == active & own;
  }

  lemma CoveredBits(v: bv64, own: bv64, active: bv64)
    requires Withheld(active, own) == 0
    ensures Agree(Masked(v, own), v, active)
  {
    hide Masked, Withheld, Allowed;
    NothingWithheld(active, own);
    MaskedTwice(v, own, active);
  }

  lemma SafeTurn(env: Env, saved: Table, table: Table, regs0: Regs, o: Restored, cpu: u16, e: Entry, e': Entry)
    requires SafeEntry(saved, table, e, e')
    ensures OnlyOwn(RestoreCell(env, table, o, cpu, e', SavedWord(env, saved, regs0, cpu, e)).regs, o.regs, regs0)
  {
    hide MaskOf, Merge, Bits, IsGoodValue, Masked, Listed, Mixed, RestoreCell, Withheld, ActiveBits, Agree, BadValue;
    var word := SavedWord(env, saved, regs0, cpu, e);
    var turn := RestoreCell(env, table, o, cpu, e', word);
    var c' := Cell(cpu, Truncate(e'.msr));
    AnyTurn(env, table, o, cpu, e', word);
    forall c: Cell
      ensures Mixed(turn.regs[c], o.regs[c], regs0[c])
    {
      MixedSelf(o.regs[c], regs0[c]);
      if c != c' {
        OtherCell(env, table, o, cpu, e', word, c);
      } else if turn.regs[c] != o.regs[c] {
        SafeWord(env, saved, table, regs0, o.regs[c], cpu, e, e');
      }
    }
  }

  /** A word that is written for a safe entry has the saved bits of the register. */
  lemma SafeWord(env: Env, saved: Table, table: Table, regs0: Regs, r: bv64, cpu: u16, e: Entry, e': Entry)
    requires SafeEntry(saved, table, e, e') && Seekable(e'.msr)
    requires var c := Cell(cpu, Truncate(e'.msr)); !env.readFault(c)
    requires IsGoodValue(SavedWord(env, saved, regs0, cpu, e), Bits(e'.wmask))
    ensures var c := Cell(cpu, Truncate(e'.msr));
            Mixed(Merge(ActiveBits(table, e'), SavedWord(env, saved, regs0, cpu, e), r), r, regs0[c])
  {
    hide MaskOf, Merge, Bits, IsGoodValue, Masked, Listed, Mixed, Withheld, ActiveBits, Agree, BadValue;
    var c := Cell(cpu, Truncate(e'.msr));
    var word, active := SavedWord(env, saved, regs0, cpu, e), ActiveBits(table, e');
    if active == 0 {
      EmptyMerge(active, word, r);
      MixedSelf(r, regs0[c]);
    } else {
      CoveredBits(regs0[c], Bits(e.wmask), active);
      SameData(active, word, regs0[c], r);
      MergeIsMixed(active, regs0[c], r);
    }
  }

  // ---- A whole restore ----

  /** The registers after `j` entries of CPU `cpu`, the CPUs in front of it being done. */
  function PointAt(env: Env, table: Table, regs: Regs, file: seq<bv64>, cpu: u16, j: nat): Restored
    requires j <= |table| && Off(cpu + 1, |table|) <= |file| && forall i | 0 <= i <= cpu :: Opens(env, i)
  {
    assert forall i | 0 <= i < cpu :: Opens(env, i);
    RestoreRow(env, table, RestoreSaved(env, table, regs, file, cpu), cpu, table, RowOf(file, |table|, cpu), j)
  }

  lemma PointStart(env: Env, table: Table, regs: Regs, file: seq<bv64>, cpu: u16)
    requires Off(cpu + 1, |table|) <= |file| && forall i | 0 <= i <= cpu :: Opens(env, i)
    ensures cpu == 0 ==> PointAt(env, table, regs, file, cpu, 0) == Restored(regs, 0, 0)
    ensures cpu > 0 ==> Off(cpu, |table|) <= |file| && PointAt(env, table, regs, file, cpu, 0)
                                                     == PointAt(env, table, regs, file, cpu - 1, |table|)
  {
    hide RestoreCell;
  }

  lemma PointNext(env: Env, saved: Table, table: Table, regs0: Regs, regs: Regs, numCpu: nat, file: seq<bv64>,
                  cpu: u16, j: nat)
    requires Saved(env, saved, regs0, numCpu, file) && |saved| == |table| && cpu < numCpu && 0 < j <= |table|
    ensures Off(cpu + 1, |table|) <= |file| && forall i | 0 <= i <= cpu :: Opens(env, i)
    ensures PointAt(env, table, regs, file, cpu, j) ==
            RestoreCell(env, table, PointAt(env, table, regs, file, cpu, j - 1), cpu, table[j - 1],
                        SavedWord(env, saved, regs0, cpu, saved[j - 1]))
  {
    hide RestoreCell, SavedWord, Saved, Clean, RestoreSaved;
    SavedPrefix(env, saved, regs0, numCpu, file, cpu + 1);
    RowSaved(env, saved, regs0, numCpu, file, cpu);
  }

  predicate SafeLists(saved: Table, table: Table)
    requires |saved| == |table|
  {
    forall j | 0 <= j < |table| :: SafeEntry(saved, table, saved[j], table[j])
  }

  /** After `j` entries of CPU `cpu`, all registers hold only own bits. */
  ghost predicate OwnAt(env: Env, table: Table, regs0: Regs, regs: Regs, file: seq<bv64>, cpu: u16, j: nat)
    requires j <= |table|
  {
    && Off(cpu + 1, |table|) <= |file| && (forall i | 0 <= i <= cpu :: Opens(env, i))
    && OnlyOwn(PointAt(env, table, regs, file, cpu, j).regs, regs, regs0)
  }

  /** So they do at every point of a restore under `table`. */
  ghost predicate OwnThroughout(env: Env, table: Table, regs0: Regs, regs: Regs, numCpu: nat, file: seq<bv64>) {
    forall cpu: u16, j: nat | cpu < numCpu && j <= |table| :: OwnAt(env, table, regs0, regs, file, cpu, j)
  }

  lemma OwnTrans(a: Regs, b: Regs, d: Regs, regs0: Regs)
    requires OnlyOwn(b, a, regs0) && OnlyOwn(d, b, regs0)
    ensures OnlyOwn(d, a, regs0)
  {
    hide Mixed;
    forall c: Cell
      ensures Mixed(d[c], a[c], regs0[c])
    {
      MixedTrans(a[c], b[c], d[c], regs0[c]);
    }
  }

  lemma OwnSelf(a: Regs, regs0: Regs)
    ensures OnlyOwn(a, a, regs0)
  {
    hide Mixed;
    forall c: Cell
      ensures Mixed(a[c], a[c], regs0[c])
    {
      MixedSelf(a[c], regs0[c]);
    }
  }

  /** Up to an entry that is not safe, registers hold only own bits. */
  lemma {:induction false} OwnSoFar(env: Env, saved: Table, table: Table, regs0: Regs, regs: Regs, numCpu: nat,
                                    file: seq<bv64>, cpu: u16, j: nat)
    requires Saved(env, saved, regs0, numCpu, file) && |saved| == |table| && cpu < numCpu && j <= |table|
    requires forall x | 0 <= x < |table| && (cpu > 0 || x < j) :: SafeEntry(saved, table, saved[x], table[x])
    ensures OwnAt(env, table, regs0, regs, file, cpu, j)
    decreases cpu, j
  {
    hide Saved, SafeEntry, OnlyOwn, PointAt, RestoreCell;
    SavedPrefix(env, saved, regs0, numCpu, file, cpu + 1);
    if j > 0 {
      OwnSoFar(env, saved, table, regs0, regs, numCpu, file, cpu, j - 1);
      PointNext(env, saved, table, regs0, regs, numCpu, file, cpu, j);
      var o := PointAt(env, table, regs, file, cpu, j - 1);
      SafeTurn(env, saved, table, regs0, o, cpu, saved[j - 1], table[j - 1]);
      OwnTrans(regs, o.regs, PointAt(env, table, regs, file, cpu, j).regs, regs0);
    } else {
      PointStart(env, table, regs, file, cpu);
      if cpu == 0 {
        OwnSelf(regs, regs0);
      } else {
        var last: u16 := cpu - 1;
        OwnSoFar(env, saved, table, regs0, regs, numCpu, file, last, |table|);
      }
    }
  }

  /** Between safe lists, on any machine, a restore gives every register only bits saved from itself. */
  lemma SafeListsRestoreOwn(env: Env, saved: Table, table: Table, regs0: Regs, regs: Regs, numCpu: nat,
                            file: seq<bv64>)
    requires Saved(env, saved, regs0, numCpu, file) && |saved| == |table| && SafeLists(saved, table)
    ensures OwnThroughout(env, table, regs0, regs, numCpu, file)
  {
    hide Saved, SafeEntry, OwnAt;
    forall cpu: u16, j: nat | cpu < numCpu && j <= |table|
      ensures OwnAt(env, table, regs0, regs, file, cpu, j)
    {
      OwnSoFar(env, saved, table, regs0, regs, numCpu, file, cpu, j);
    }
  }

  // ---- Lists that are not safe ----

  /** Some bits of `bits`, but not the mark of a failed read. */
  function Pick(bits: bv64): bv64 {
    if bits == G_COOKIE_BAD_READ then 1 else bits
  }

  lemma PickIs(bits: bv64)
    requires bits != 0
    ensures Pick(bits) != 0 && Pick(bits) != G_COOKIE_BAD_READ && Masked(Pick(bits), bits) == Pick(bits)
  {}

  /** Contents that differ from `word` in `active`. */
  function Other(word: bv64, bits: bv64): bv64 {
    if Masked(word, Pick(bits)) != 0 then 0 else Pick(bits)
  }

  lemma OtherDiffers(word: bv64, bits: bv64, active: bv64)
    requires bits != 0 && Masked(bits, active) == bits
    ensures !Agree(word, Other(word, bits), active) && Other(word, bits) != G_COOKIE_BAD_READ
  {
    hide Pick;
    PickIs(bits);
    DiffersOn(word, Pick(bits), bits, active);
  }

  lemma Subset(p: bv64, bits: bv64, active: bv64)
    requires Masked(p, bits) == p && Masked(bits, active) == bits
    ensures active & p == p
  {
    assert p & bits == p && bits & active == bits;
  }

  lemma SelfMasked(p: bv64)
    ensures Masked(p, p) == p && Masked(0, p) == 0
  {}

  lemma DiffersOn(word: bv64, p: bv64, bits: bv64, active: bv64)
    requires p != 0 && Masked(p, bits) == p && Masked(bits, active) == bits
    ensures !Agree(word, if Masked(word, p) != 0 then 0 else p, active)
  {
    hide Masked;
    var r := if Masked(word, p) != 0 then 0 else p;
    Subset(p, bits, active);
    SelfMasked(p);
    if Agree(word, r, active) {
      AgreeSmaller(word, r, active, p);
    }
  }

  /** The word that is saved while all registers but that of `e'` are zero, and that one in no bit saved for `e`. */
  function PlainWord(saved: Table, e: Entry): bv64 {
    if Seekable(e.msr) && Listed(saved, Truncate(e.msr)) then 0 else BadValue(Bits(e.wmask))
  }

  /** Bits of the register of `e'` that its word for `e` does not bring back. */
  function LostBits(saved: Table, table: Table, e: Entry, e': Entry): bv64 {
    if Seekable(e.msr) && Listed(saved, Truncate(e.msr)) && Truncate(e.msr) == Truncate(e'.msr)
    then Withheld(ActiveBits(table, e'), Bits(e.wmask))
    else ActiveBits(table, e')
  }

  /** The register of `e'` holds bits that are lost, and all others are zero. */
  ghost function Telling(saved: Table, table: Table, e: Entry, e': Entry): Regs {
    ZEROS[Cell(0, Truncate(e'.msr)) := Other(PlainWord(saved, e), LostBits(saved, table, e, e'))]
  }

  lemma LostInside(active: bv64, own: bv64)
    ensures Masked(Withheld(active, own), active) == Withheld(active, own)
  {
    hide Masked, Allowed;
    AllowedInside(active, !own);
  }

  lemma AllowedInside(active: bv64, mask: bv64)
    ensures Masked(Allowed(active, mask), active) == Allowed(active, mask)
  {}

  lemma LostOutside(active: bv64, own: bv64)
    ensures Masked(Withheld(active, own), own) == 0
  {}

  lemma PartOutside(p: bv64, bits: bv64, own: bv64)
    requires Masked(p, bits) == p && Masked(bits, own) == 0
    ensures Masked(p, own) == 0
  {
    assert p & bits == p && bits & own == 0;
    Regroup(p, bits, own);
  }

  lemma FullMasks(v: bv64, mask: bv64)
    ensures IsFull(mask) ==> Masked(v, mask) == v
  {
    if IsFull(mask) {
      assert mask == FULL;
    }
  }

  lemma ZeroIsGood(own: bv64, mask: bv64)
    ensures IsGoodValue(0, mask) && Masked(0, own) == 0
  {}

  /** Nothing in these contents looks like the mark of a failed read. */
  lemma TellingIsClean(env: Env, saved: Table, table: Table, e: Entry, e': Entry, x: Entry)
    requires LostBits(saved, table, e, e') != 0
    ensures !Collides(env, saved, Telling(saved, table, e, e'), 0, x)
  {
    hide Listed, IsFull, Bits, Masked, LostBits, PlainWord, Pick;
    var regs0 := Telling(saved, table, e, e');
    PickIs(LostBits(saved, table, e, e'));
    FullMasks(regs0[Cell(0, Truncate(x.msr))], Bits(x.wmask));
  }

  /** Of an entry that is not safe, some bits are lost, and its plain word is written. */
  lemma UnsafeLoses(saved: Table, table: Table, e: Entry, e': Entry)
    requires !SafeEntry(saved, table, e, e')
    ensures var bits, active := LostBits(saved, table, e, e'), ActiveBits(table, e');
            && Seekable(e'.msr) && active != 0 && bits != 0 && Masked(bits, active) == bits
            && IsGoodValue(PlainWord(saved, e), Bits(e'.wmask))
  {
    hide Listed, Bits, Masked, ActiveBits, Withheld, IsGoodValue, BadValue;
    ZeroIsGood(0, Bits(e'.wmask));
    LostInside(ActiveBits(table, e'), Bits(e.wmask));
    SelfMasked(ActiveBits(table, e'));
  }

  lemma TellingWord(env: Env, saved: Table, table: Table, e: Entry, e': Entry)
    requires Faultless(env) && !SafeEntry(saved, table, e, e')
    ensures SavedWord(env, saved, Telling(saved, table, e, e'), 0, e) == PlainWord(saved, e)
  {
    hide Listed, Bits, Masked, ActiveBits, Withheld, IsGoodValue, BadValue, Pick;
    var active, own := ActiveBits(table, e'), Bits(e.wmask);
    UnsafeLoses(saved, table, e, e');
    ZeroIsGood(own, own);
    LostOutside(active, own);
    PickIs(LostBits(saved, table, e, e'));
    if Seekable(e.msr) && Listed(saved, Truncate(e.msr)) && Truncate(e.msr) == Truncate(e'.msr) {
      PartOutside(Pick(Withheld(active, own)), Withheld(active, own), own);
    }
  }

  /** The turn for an entry that is not safe changes a register that holds what it held at save time. */
  lemma UnsafeTurn(env: Env, saved: Table, table: Table, e: Entry, e': Entry, o: Restored)
    requires Faultless(env) && !SafeEntry(saved, table, e, e') && o.regs == Telling(saved, table, e, e')
    ensures var c := Cell(0, Truncate(e'.msr));
            RestoreCell(env, table, o, 0, e', SavedWord(env, saved, o.regs, 0, e)).regs[c] != o.regs[c]
  {
    hide Listed, Bits, Masked, Withheld, IsGoodValue, BadValue, Pick, Other, LostBits, PlainWord, SavedWord,
         RestoreCell, Merge, Agree, Allowed, MaskOf;
    var c := Cell(0, Truncate(e'.msr));
    var active, word, r := ActiveBits(table, e'), PlainWord(saved, e), o.regs[c];
    UnsafeLoses(saved, table, e, e');
    TellingWord(env, saved, table, e, e');
    OtherDiffers(word, LostBits(saved, table, e, e'), active);
    AnyTurn(env, table, o, 0, e', word);
    NoMaskUnlisted(table, c.msr);
    NothingAllowed(Bits(e'.wmask), MaskAt(table, c));
    MaskedAgrees(r, Bits(e'.wmask), MaskAt(table, c));
    MergeInside(active, word, r);
    AgreeSym(word, r, active);
  }

  lemma NothingAllowed(own: bv64, mask: bv64)
    ensures mask == 0 ==> Allowed(own, mask) == 0
  {}

  lemma AgreeSym(a: bv64, b: bv64, mask: bv64)
    ensures Agree(a, b, mask) == Agree(b, a, mask)
  {
    hide Masked;
  }

  lemma {:induction false} FirstUnsafe(saved: Table, table: Table, k: nat) returns (j: nat)
    requires |saved| == |table| && !SafeLists(saved, table) && k <= |table|
    requires forall x | 0 <= x < k :: SafeEntry(saved, table, saved[x], table[x])
    ensures j < |table| && !SafeEntry(saved, table, saved[j], table[j])
    ensures forall x | 0 <= x < j :: SafeEntry(saved, table, saved[x], table[x])
    decreases |table| - k
  {
    hide SafeEntry;
    if !SafeEntry(saved, table, saved[k], table[k]) {
      j := k;
    } else {
      j := FirstUnsafe(saved, table, k + 1);
    }
  }

  lemma OnlyOwnIsSame(now: Regs, regs: Regs)
    ensures OnlyOwn(now, regs, regs) ==> now == regs
  {
    hide Mixed;
    if OnlyOwn(now, regs, regs) {
      forall c: Cell
        ensures now[c] == regs[c]
      {
        MixedSame(now[c], regs[c]);
      }
    }
  }

  /** With lists that are not safe, a restore right after the save can give a register bits of another one. */
  lemma UnsafeListsMix(env: Env, saved: Table, table: Table) returns (regs0: Regs, file: seq<bv64>)
    requires Faultless(env) && 0 in env.online && Unique(saved) && |saved| == |table| && !SafeLists(saved, table)
    ensures Saved(env, saved, regs0, 1, file) && !OwnThroughout(env, table, regs0, regs0, 1, file)
  {
    hide Saved, SafeEntry, PointAt, Faultless, Telling, Collides, Unique, OnlyOwn, LostBits, RestoreCell, SavedWord;
    var j := FirstUnsafe(saved, table, 0);
    regs0 := Telling(saved, table, saved[j], table[j]);
    UnsafeLoses(saved, table, saved[j], table[j]);
    forall x | 0 <= x < |saved|
      ensures !Collides(env, saved, regs0, 0, saved[x])
    {
      TellingIsClean(env, saved, table, saved[j], table[j], saved[x]);
    }
    file := OneCpuSaved(env, saved, regs0);
    OwnSoFar(env, saved, table, regs0, regs0, 1, file, 0, j);
    var o := PointAt(env, table, regs0, file, 0, j);
    OnlyOwnIsSame(o.regs, regs0);
    PointNext(env, saved, table, regs0, regs0, 1, file, 0, j + 1);
    UnsafeTurn(env, saved, table, saved[j], table[j], o);
    OnlyOwnIsSame(PointAt(env, table, regs0, file, 0, j + 1).regs, regs0);
    assert !OwnAt(env, table, regs0, regs0, file, 0, j + 1);
  }

  /**
    * Restoring under the list `table` what was saved under the list `saved`, on a machine without faults: for
    * all contents, every register at every point holds only bits that it held or that were saved from it, if
    * and only if each entry is safe.
    */
  lemma RestoresOwnIff(env: Env, saved: Table, table: Table)
    requires Faultless(env) && 0 in env.online && Unique(saved) && |saved| == |table|
    ensures (forall regs0, regs, numCpu, file | Saved(env, saved, regs0, numCpu, file) ::
               OwnThroughout(env, table, regs0, regs, numCpu, file)) <==> SafeLists(saved, table)
  {
    hide Saved, SafeLists, OwnThroughout, Faultless, Unique;
    if SafeLists(saved, table) {
      forall regs0, regs, numCpu, file | Saved(env, saved, regs0, numCpu, file)
        ensures OwnThroughout(env, table, regs0, regs, numCpu, file)
      {
        SafeListsRestoreOwn(env, saved, table, regs0, regs, numCpu, file);
      }
    } else {
      var regs0, file := UnsafeListsMix(env, saved, table);
    }
  }

  /** Two lists of one register each: the restore writes the bits of the one register into the other. */
  lemma OtherRegisterIsUnsafe()
    ensures var saved, table := [Entry(0x10, 0xFF)], [Entry(0x20, 0xFF)];
            Unique(saved) && |saved| == |table| && !SafeLists(saved, table)
  {
    var saved, table := [Entry(0x10, 0xFF)], [Entry(0x20, 0xFF)];
    ScanIs(saved, 0x10, 0);
    ScanIs(table, 0x20, 0);
    assert ActiveBits(table, table[0]) == 0xFF;
    assert !SafeEntry(saved, table, saved[0], table[0]);
  }
}
