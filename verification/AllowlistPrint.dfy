/** What reading the allowlist device prints, and that the driver's parser reads it back. */
module AllowlistPrint {
  import opened Words
  import opened Text
  import opened Numerals
  import opened NumeralText
  import opened AllowlistText

  /** "%-10s %-18s\n" of "#MSR" and "Write mask". */
  const HEADER: seq<byte> := [
    35, 77, 83, 82, 32, 32, 32, 32, 32, 32, 32,
    87, 114, 105, 116, 101, 32, 109, 97, 115, 107, 32, 32, 32, 32, 32, 32, 32, 32, 10]

  /** "0x%08llX 0x%016llX\n", as a row of the grammar behind `lead`. */
  function PrintedRow(lead: seq<byte>, e: Entry): Row {
    Row(lead, [ZERO, LOWER_X] + Hex(e.msr, 8), [SPACE], [ZERO, LOWER_X] + Hex(e.wmask, 16), NEWLINE)
  }

  function Lead(pos: int): seq<byte> {
    if pos == 0 then HEADER else []
  }

  datatype ReadResult = ReadResult(ret: int, out: seq<byte>, pos: int)

  /** One read call at file position `pos` with room for `count` bytes. */
  function ReadOutcome(table: Table, pos: int, count: nat): (r: ReadResult)
    ensures r.ret > 0 ==> r.ret == |r.out| && r.pos == pos + 1 && 0 <= pos < |table|
    ensures r.ret <= 0 ==> r.out == [] && r.pos == 0
  {
    if pos >= |table| || pos < 0 then
      ReadResult(0, [], 0)
    else
      var text := Render(PrintedRow(Lead(pos), table[pos]));
      if |text| > count then ReadResult(E2BIG, [], 0) else ReadResult(|text|, text, pos + 1)
  }

  /** What a reader gets that starts at `pos` and goes on from where each call leaves it, until one returns no bytes. */
  function ReadOn(table: Table, pos: nat, count: nat): seq<byte>
    decreases |table| - pos
  {
    var r := ReadOutcome(table, pos, count);
    if r.ret <= 0 then [] else r.out[..r.ret] + ReadOn(table, r.pos, count)
  }

  /** The number of its calls. */
  function CallsFrom(table: Table, pos: nat, count: nat): nat
    decreases |table| - pos
  {
    var r := ReadOutcome(table, pos, count);
    if r.ret <= 0 then 1 else 1 + CallsFrom(table, r.pos, count)
  }

  /** Enough room for every line the device can print. */
  const LINE_MAX := 68

  function PrintedRows(table: Table, pos: nat): (rows: seq<Row>)
    requires pos <= |table|
    ensures |rows| == |table| - pos
    decreases |table| - pos
  {
    if pos == |table| then [] else [PrintedRow(Lead(pos), table[pos])] + PrintedRows(table, pos + 1)
  }

  lemma LeadIsFiller(pos: nat)
    ensures Filler(Lead(pos))
  {
    RunEndIs(HEADER, 1, Line, 29);
    assert FillerFrom(HEADER, 30);
  }

  lemma HexToken(v: u64, width: nat)
    ensures All([ZERO, LOWER_X] + Hex(v, width), Token)
  {
    HexValue(v, width);
    var s, h := [ZERO, LOWER_X] + Hex(v, width), Hex(v, width);
    forall i | 0 <= i < |s|
      ensures Token.Has(s[i])
    {
      if i >= 2 {
        assert s[i] == h[i - 2];
      }
    }
  }

  /** A printed line denotes the entry it was printed from. */
  lemma PrintedRowDenotes(pos: nat, e: Entry)
    ensures Denotes(PrintedRow(Lead(pos), e), e)
  {
    hide KStrToULL, FillerFrom, Hex, Means;
    LeadIsFiller(pos);
    HexToken(e.msr, 8);
    HexToken(e.wmask, 16);
    KStrToULLOfHex(e.msr, 8);
    KStrToULLOfHex(e.wmask, 16);
    KStrToULLIff([ZERO, LOWER_X] + Hex(e.msr, 8), e.msr);
    KStrToULLIff([ZERO, LOWER_X] + Hex(e.wmask, 16), e.wmask);
  }

  /** Lines have 30 to 38 bytes, exactly 30 for 32-bit addresses, the first one 30 more. */
  lemma PrintedLength(pos: nat, e: Entry)
    ensures var n := |Render(PrintedRow(Lead(pos), e))|;
            30 <= n - |Lead(pos)| <= 38 && n <= LINE_MAX
    ensures |Render(PrintedRow(Lead(pos), e))| - |Lead(pos)| == 30 <==> e.msr < 0x1_0000_0000
  {
    HexValue(e.msr, 8);
    HexValue(e.wmask, 16);
    HexLength64(e.msr, 8);
    HexLength64(e.wmask, 16);
    HexLength32(e.msr);
  }

  /** The line of entry `i`. */
  function LineOf(table: Table, i: nat): seq<byte>
    requires i < |table|
  {
    Render(PrintedRow(Lead(i), table[i]))
  }

  /** The first entry from `pos` on whose line does not fit into `count` bytes. */
  function Shown(table: Table, pos: nat, count: nat): (end: nat)
    requires pos <= |table|
    ensures pos <= end <= |table|
    ensures end == |table| <==> forall i | pos <= i < |table| :: |LineOf(table, i)| <= count
    decreases |table| - pos
  {
    if pos == |table| || |LineOf(table, pos)| > count then pos else Shown(table, pos + 1, count)
  }

  /** One call per line that fits, and one that ends the reading: with 0 behind the last entry, or else with E2BIG. */
  lemma {:induction false} ReadCalls(table: Table, pos: nat, count: nat)
    requires pos <= |table|
    ensures var end := Shown(table, pos, count);
            && CallsFrom(table, pos, count) == end - pos + 1
            && (forall i | pos <= i < end ::
                  ReadOutcome(table, i, count) == ReadResult(|LineOf(table, i)|, LineOf(table, i), i + 1))
            && ReadOutcome(table, end, count) == ReadResult(if end == |table| then 0 else E2BIG, [], 0)
    decreases |table| - pos
  {
    hide Render, Lead;
    if pos < |table| {
      PrintedLength(pos, table[pos]);
      if pos < Shown(table, pos, count) {
        ReadCalls(table, pos + 1, count);
      }
    }
  }

  /** Reading on prints the rows of the entries up to the first line that does not fit. */
  lemma {:induction false} ReadOnShows(table: Table, pos: nat, count: nat)
    requires pos <= |table|
    ensures var end := Shown(table, pos, count);
            var rows := PrintedRows(table[..end], pos);
            DenotesAll(rows, table[pos..end]) && ReadOn(table, pos, count) == RenderAll(rows)
    decreases |table| - pos
  {
    hide Denotes, Render, Lead;
    var end := Shown(table, pos, count);
    if pos < |table| {
      PrintedLength(pos, table[pos]);
      if pos < end {
        PrintedRowDenotes(pos, table[pos]);
        ReadOnShows(table, pos + 1, count);
        assert PrintedRows(table[..end], pos)[1..] == PrintedRows(table[..end], pos + 1);
      }
    }
  }

  /** A reader with `count` bytes of room gets the entries up to the first that needs more. */
  lemma ParseOfListing(table: Table, count: nat)
    ensures Parse(ReadOn(table, 0, count)) == Entries(table[..Shown(table, 0, count)])
  {
    hide ParseFrom, RenderAll, DenotesAll;
    ReadOnShows(table, 0, count);
    var end := Shown(table, 0, count);
    var rows, t := PrintedRows(table[..end], 0), ReadOn(table, 0, count);
    assert table[0..end] == table[..end];
    ParseOfRows(t, 0, rows, table[..end], []);
  }

  /**
    * What the device prints, its parser reads back as the same table in the same order if and only if the
    * reader offers room for every line.
    */
  lemma PrintParseIff(table: Table, count: nat)
    ensures Parse(ReadOn(table, 0, count)) == Entries(table) <==>
            forall i | 0 <= i < |table| :: |LineOf(table, i)| <= count
  {
    hide Parse, LineOf, ReadOn;
    ParseOfListing(table, count);
    var end := Shown(table, 0, count);
    if end < |table| {
      assert |table[..end]| != |table|;
    } else {
      assert table[..end] == table;
    }
  }

  /** The documented room of 60 bytes is enough exactly if the first address is a 32-bit one. */
  lemma SixtyBytes(table: Table)
    ensures Parse(ReadOn(table, 0, 60)) == Entries(table) <==> table == [] || table[0].msr < 0x1_0000_0000
  {
    hide Parse, ReadOn, Render, PrintedRow;
    PrintParseIff(table, 60);
    forall i | 0 <= i < |table|
      ensures |LineOf(table, i)| <= 60 <==> i > 0 || table[0].msr < 0x1_0000_0000
    {
      PrintedLength(i, table[i]);
    }
    assert table != [] ==> (|LineOf(table, 0)| <= 60 <==> table[0].msr < 0x1_0000_0000);
  }

  /** With room for 68 bytes every line fits. */
  lemma ReadOnPrints(table: Table, count: nat)
    requires count >= LINE_MAX
    ensures Shown(table, 0, count) == |table|
    ensures ReadOn(table, 0, count) == RenderAll(PrintedRows(table, 0))
  {
    hide ReadOn, Render;
    forall i | 0 <= i < |table|
      ensures |LineOf(table, i)| <= count
    {
      PrintedLength(i, table[i]);
    }
    ReadOnShows(table, 0, count);
    assert table[..|table|] == table;
  }

  lemma PrintParse(table: Table, count: nat)
    requires count >= LINE_MAX
    ensures Parse(ReadOn(table, 0, count)) == Entries(table)
  {
    hide Parse, ReadOn, PrintedRows, RenderAll;
    ParseOfListing(table, count);
    ReadOnPrints(table, count);
    assert table[..|table|] == table;
  }

  // ---- The printed characters ----

  lemma HeaderText()
    ensures HEADER == Ascii("#MSR       Write mask        \n")
  {}

  /** The figures of digits in upper case. */
  function UpperCase(ds: seq<nat>): seq<byte>
    requires forall i | 0 <= i < |ds| :: ds[i] < 16
  {
    seq<byte>(|ds|, i requires 0 <= i < |ds| => FigureOf(ds[i], true))
  }

  lemma UpperCaseIs(ds: seq<nat>)
    requires forall i | 0 <= i < |ds| :: ds[i] < 16
    ensures forall i | 0 <= i < |ds| :: UpperCase(ds)[i] as char == UPPER[ds[i]]
  {
    forall i | 0 <= i < |ds|
      ensures UpperCase(ds)[i] as char == UPPER[ds[i]]
    {
      FigureOfIs(ds[i], true);
    }
  }

  lemma HexShort(v: nat)
    ensures Hex(v, 0) == Hex(v, 1)
  {}

  lemma OneDigitWorth(ds: seq<nat>)
    requires |ds| == 1
    ensures Worth(ds, 16, 1) == ds[0]
  {
    NoDigits(ds, 16);
  }

  /** Upper-case figures of the printed value, with no more zeros in front than the width asks for. */
  lemma {:induction false} UpperHex(v: nat, width: nat) returns (ds: seq<nat>)
    requires width > 0
    ensures (forall i | 0 <= i < |ds| :: ds[i] < 16) && Worth(ds, 16, |ds|) == v && Hex(v, width) == UpperCase(ds)
    ensures |ds| >= width && (|ds| > width ==> ds[0] != 0)
    decreases v + width
  {
    if v < 16 && width <= 1 {
      ds := [v];
      OneDigitWorth(ds);
    } else {
      var w: nat := if width > 1 then width - 1 else 1;
      var high := UpperHex(v / 16, w);
      ds := high + [v % 16];
      SamePrefix(high, ds, 16, |high|);
      HexShort(v / 16);
      OneMoreFigure(high, v % 16);
      if |high| == 1 {
        OneDigitWorth(high);
      }
    }
  }

  lemma OneMoreFigure(ds: seq<nat>, d: nat)
    requires d < 16 && forall i | 0 <= i < |ds| :: ds[i] < 16
    ensures UpperCase(ds + [d]) == UpperCase(ds) + [HexDigit(d)]
  {}

  /**
    * The line of an entry, character by character: the address in at least eight upper-case figures, the mask in
    * sixteen.
    */
  lemma LineText(e: Entry) returns (a: seq<nat>, m: seq<nat>)
    ensures (forall i | 0 <= i < |a| :: a[i] < 16) && (forall i | 0 <= i < |m| :: m[i] < 16)
    ensures Worth(a, 16, |a|) == e.msr && |a| >= 8 && (|a| > 8 ==> a[0] != 0)
    ensures Worth(m, 16, |m|) == e.wmask && |m| == 16
    ensures Render(PrintedRow([], e))
            == Ascii("0x") + UpperCase(a) + Ascii(" 0x") + UpperCase(m) + Ascii("\n")
  {
    hide Hex, Worth, UpperCase;
    a := UpperHex(e.msr, 8);
    m := UpperHex(e.wmask, 16);
    HexLength64(e.wmask, 16);
    UpperLength(m);
  }

  lemma UpperLength(ds: seq<nat>)
    requires forall i | 0 <= i < |ds| :: ds[i] < 16
    ensures |UpperCase(ds)| == |ds|
  {}
}
