/** The allowlist as a value: lookups, and the whole effect of writing the device. */
module AllowlistSpec {
  import opened Words
  import opened AllowlistText

  const MAX_WLIST_BSIZE := 128 * 1024 + 1

  /** No two entries share an address. */
  predicate Unique(table: Table) {
    forall i, j | 0 <= i < j < |table| :: table[i].msr != table[j].msr
  }

  /** A linear scan: the first slot that holds address `m`. */
  function Scan(table: Table, m: u64): (r: Option<nat>)
    ensures r.Some? ==> r.value < |table| && table[r.value].msr == m
    ensures r.None? ==> forall i | 0 <= i < |table| :: table[i].msr != m
  {
    if table == [] then None
    else if table[|table| - 1].msr == m && Scan(table[..|table| - 1], m).None? then Some(|table| - 1)
    else Scan(table[..|table| - 1], m)
  }

  predicate Listed(table: Table, m: u64) {
    Scan(table, m).Some?
  }

  /** The bits of register `m` that may be written; none if it is not listed. */
  function MaskOf(table: Table, m: u64): bv64 {
    var r := Scan(table, m);
    if r.Some? then Bits(table[r.value].wmask) else 0
  }

  lemma NoMaskUnlisted(table: Table, m: u64)
    ensures !Listed(table, m) ==> MaskOf(table, m) == 0
  {}

  lemma ScanIs(table: Table, m: u64, i: nat)
    requires Unique(table) && i < |table| && table[i].msr == m
    ensures Scan(table, m) == Some(i)
  {}

  /** The bits that may be written are those of the mask in the entry with the address. */
  lemma MaskIs(table: Table, i: nat)
    requires Unique(table) && i < |table|
    ensures Listed(table, table[i].msr) && MaskOf(table, table[i].msr) == Bits(table[i].wmask)
  {
    hide Bits;
    ScanIs(table, table[i].msr, i);
  }

  /** Entry `i` with the value of word `mask` as its mask makes exactly the bits of that word writable. */
  lemma MaskIsWord(table: Table, i: nat, mask: bv64)
    requires Unique(table) && i < |table| && table[i].wmask == mask as int
    ensures MaskOf(table, table[i].msr) == mask
  {
    MaskIs(table, i);
    BitsOfWord(mask);
  }

  lemma ListedIs(table: Table, m: u64)
    ensures Listed(table, m) <==> exists i | 0 <= i < |table| :: table[i].msr == m
  {
    if Listed(table, m) {
      assert table[Scan(table, m).value].msr == m;
    }
  }

  /** A write of this text gets as far as asking for a new table. */
  predicate Creates(input: seq<byte>) {
    2 < |input| < MAX_WLIST_BSIZE && Parse(input).Entries? && Parse(input).table != []
  }

  datatype Written = Written(ret: int, table: Table)

  /** Writing `input` to the device when the table holds `table` and memory is available. */
  function WriteOutcome(table: Table, input: seq<byte>): Written {
    if |input| <= 2 then Written(|input|, [])
    else if |input| + 1 > MAX_WLIST_BSIZE then Written(E2BIG, table)
    else match Parse(input)
      case Rejected(code) => Written(code, table)
      case Entries(es) =>
        if es == [] then Written(ENOMSG, table)
        else if Unique(es) then Written(|input|, es)
        else Written(ENOTUNIQ, [])
  }
}
