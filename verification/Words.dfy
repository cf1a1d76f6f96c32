/** Machine integers, errno values and the masked merge that every register write goes through. */
module Words {

  type byte = x: int | 0 <= x < 0x100
  type u16 = x: int | 0 <= x < 0x1_0000
  type u32 = x: int | 0 <= x < 0x1_0000_0000
  type u64 = x: int | 0 <= x < 0x1_0000_0000_0000_0000

  const EIO := -5
  const ENXIO := -6
  const E2BIG := -7
  const ENOMEM := -12
  const EACCES := -13
  const EINVAL := -22
  const EROFS := -30
  const ERANGE := -34
  const ENOMSG := -42
  const ENOTUNIQ := -76
  const EILSEQ := -84

  datatype Option<+T> = None | Some(value: T)

  datatype Result<+T> = Ok(value: T) | Err(code: int)

  const FULL: bv64 := 0xFFFF_FFFF_FFFF_FFFF

  /** The bits of an unsigned 64-bit integer. */
  function Bits(x: u64): bv64 {
    x as bv64
  }

  /** The bits of the integer value of a word are the word. */
  lemma BitsOfWord(b: bv64)
    ensures b as int < 0x1_0000_0000_0000_0000 && Bits(b as int) == b
  {}

  /** A 64-bit file position cut down to the 32-bit register number the drivers use. */
  function Truncate(x: u64): u32 {
    x % 0x1_0000_0000
  }

  /** The low 32 bits: 32-bit positions are themselves, and positions 2^32 apart are the same. */
  lemma TruncateIs(x: u64, low: u32, high: u32)
    requires x == high * 0x1_0000_0000 + low
    ensures Truncate(x) == low
  {}

  /** The word a masked write leaves: `data` where the mask is set, `current` elsewhere. */
  function Merge(mask: bv64, data: bv64, current: bv64): bv64 {
    (data & mask) | (current & !mask)
  }

  function Masked(v: bv64, mask: bv64): bv64 {
    v & mask
  }

  /** `a` and `b` hold the same bits wherever `mask` is set. */
  predicate Agree(a: bv64, b: bv64, mask: bv64) {
    Masked(a, mask) == Masked(b, mask)
  }

  /** `a` and `b` differ only where `mask` is set. */
  predicate Within(a: bv64, b: bv64, mask: bv64) {
    Agree(a, b, !mask)
  }

  lemma WithinLaws(a: bv64, b: bv64, c: bv64, mask: bv64)
    ensures Within(a, a, mask)
    ensures Within(a, b, mask) ==> Within(b, a, mask)
    ensures Within(a, b, mask) && Within(b, c, mask) ==> Within(a, c, mask)
  {}

  predicate Disjoint(mask: bv64, bits: bv64) {
    mask & bits == 0
  }

  lemma AgreeTrans(a: bv64, b: bv64, c: bv64, mask: bv64)
    requires Agree(a, b, mask) && Agree(b, c, mask)
    ensures Agree(a, c, mask)
  {}

  /** Only no bits at all are disjoint from the full mask. */
  lemma DisjointFromFull(a: bv64, b: bv64, bits: bv64)
    requires Disjoint(FULL, bits)
    ensures Agree(a, b, bits)
  {
    assert bits == FULL & bits;
  }

  lemma Split(a: bv64, mask: bv64)
    ensures a == (a & mask) | (a & !mask)
  {}

  /** A merge does not see the masked bits of the word it merges into. */
  lemma MergeStale(mask: bv64, data: bv64, a: bv64, b: bv64)
    requires Within(a, b, mask)
    ensures Merge(mask, data, a) == Merge(mask, data, b)
  {
    assert a & !mask == b & !mask;
  }

  lemma MergeOutside(mask: bv64, data: bv64, a: bv64)
    ensures Within(Merge(mask, data, a), a, mask)
  {}

  lemma MergeInside(mask: bv64, data: bv64, a: bv64)
    ensures Agree(Merge(mask, data, a), data, mask)
  {}

  lemma MergeBits(mask: bv64, data: bv64, a: bv64, w: bv64)
    requires w == Merge(mask, data, a)
    ensures Agree(w, data, mask) && Within(w, a, mask)
  {
    hide Merge, Agree, Within;
    MergeInside(mask, data, a);
    MergeOutside(mask, data, a);
  }

  lemma MergeFull(data: bv64, a: bv64)
    ensures Merge(FULL, data, a) == data
  {}

  lemma Distribute(mask: bv64, data: bv64, a: bv64, bits: bv64)
    ensures Merge(mask, data, a) & bits == (data & (mask & bits)) | (a & (bits & !mask))
  {}

  lemma OffMask(mask: bv64, bits: bv64)
    requires Disjoint(mask, bits)
    ensures bits & !mask == bits
  {
    assert mask & bits == 0;
  }

  lemma NothingOf(data: bv64, rest: bv64)
    ensures (data & 0) | rest == rest
  {}

  /** Bits the mask does not cover survive a merge. */
  lemma MergeKeeps(mask: bv64, data: bv64, a: bv64, bits: bv64)
    requires Disjoint(mask, bits)
    ensures Agree(Merge(mask, data, a), a, bits)
  {
    hide Merge;
    Distribute(mask, data, a, bits);
    OffMask(mask, bits);
    NothingOf(data, a & bits);
  }

  /** A word that takes its masked bits from `data` and the others from `a` is their merge. */
  lemma MergeIs(mask: bv64, data: bv64, a: bv64, w: bv64)
    requires Agree(w, data, mask) && Within(w, a, mask)
    ensures w == Merge(mask, data, a)
  {
    Split(w, mask);
  }
}
