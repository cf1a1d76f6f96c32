/** Texts that show where writing the device differs from its documentation. */
module DeviceTexts {
  import opened Words
  import opened Text
  import opened Numerals
  import opened NumeralText
  import opened AllowlistText
  import opened AllowlistPrint
  import opened AllowlistSpec
  import opened DeviceFacts

  // ---- A documented line ----

  const PERF_CTL: Row := Row([], Ascii("0x00000199"), Ascii(" "), Ascii("0x000000000000ffff"), SPACE)

  const COMMENT: seq<byte> := Ascii("# \"MSR_PERF_CTL\"\n")

  const ADDRESS: seq<nat> := [0, 0, 0, 0, 0, 1, 9, 9]
  const MASK: seq<nat> := [0, 0, 0, 0, 0, 0, 0, 0, 0, 0, 0, 0, 15, 15, 15, 15]

  lemma DocumentedNumbers()
    ensures Worth(ADDRESS, 16, 8) == 0x199 && Worth(MASK, 16, 16) == 0xFFFF
  {
    assert Worth(ADDRESS, 16, 4) == 0;
    assert Worth(MASK, 16, 4) == 0;
    assert Worth(MASK, 16, 8) == 0;
    assert Worth(MASK, 16, 12) == 0;
  }

  /** Tokens are printable. */
  lemma Printable(t: seq<byte>)
    requires forall i | 0 <= i < |t| :: 33 <= t[i] < 127
    ensures All(t, Token)
  {}

  lemma DocumentedTokens()
    ensures All(PERF_CTL.address, Token) && All(PERF_CTL.mask, Token)
  {
    Printable(PERF_CTL.address);
    Printable(PERF_CTL.mask);
  }

  lemma AddressMeans()
    ensures Means(PERF_CTL.address, 0x199)
  {
    hide Worth;
    DocumentedNumbers();
    assert Figures(PERF_CTL.address[2..], ADDRESS, 16);
    assert Spelled(PERF_CTL.address, 16, ADDRESS);
  }

  lemma MaskMeans()
    ensures Means(PERF_CTL.mask, 0xFFFF)
  {
    hide Worth;
    DocumentedNumbers();
    assert Figures(PERF_CTL.mask[2..], MASK, 16);
    assert Spelled(PERF_CTL.mask, 16, MASK);
  }

  lemma CommentEnds()
    ensures Ending(COMMENT)
  {
    RunEndIs(COMMENT, 1, Line, 16);
    assert COMMENT[16] == NEWLINE;
    assert EndingFrom(COMMENT, 17);
    assert EndingFrom(COMMENT, 16);
  }

  /** The line `0x00000199 0x000000000000ffff # "MSR_PERF_CTL"` makes the low 16 bits of register 0x199 writable. */
  lemma DocumentedLine(table: Table)
    ensures var text := Render(PERF_CTL) + COMMENT;
            WriteOutcome(table, text) == Written(|text|, [Entry(0x199, 0xFFFF)])
  {
    hide Means, WriteOutcome, Ending, All;
    var text := Render(PERF_CTL) + COMMENT;
    var es := [Entry(0x199, 0xFFFF)];
    AddressMeans();
    MaskMeans();
    DocumentedTokens();
    CommentEnds();
    DocumentedLength();
    OneRow(PERF_CTL, es[0], COMMENT);
    InstallsGrammar(table, text, es);
  }

  lemma DocumentedLength()
    ensures |Render(PERF_CTL) + COMMENT| == 47 && PERF_CTL.lead == [] && |PERF_CTL.gap| == 1
    ensures All(PERF_CTL.gap, Spaces)
  {}

  lemma OneRow(row: Row, e: Entry, tail: seq<byte>)
    requires Denotes(row, e) && Ending(tail)
    ensures Spells(Render(row) + tail, [row], tail, [e])
  {
    hide Denotes, Ending, Render;
    assert [row][1..] == [];
    assert RenderAll([row]) == Render(row) + [] == Render(row);
  }

  // ---- Texts that leave the list as it was ----

  /** "0 0" without a blank behind it. */
  const UNENDED: seq<byte> := [ZERO, SPACE, ZERO]

  lemma UnendedKeeps(table: Table)
    ensures WriteOutcome(table, UNENDED) == Written(EILSEQ, table)
  {
    hide KStrToULL;
    RunEndIs(UNENDED, 0, Spaces, 0);
    RunEndIs(UNENDED, 0, Token, 1);
    RunEndIs(UNENDED, 2, Spaces, 2);
    RunEndIs(UNENDED, 2, Token, 3);
    assert BlankEnd(UNENDED, 0) == 0;
    ZeroIsNumber();
    assert UNENDED[0..1] == [ZERO];
    assert Next(UNENDED, 0) == Fail(EILSEQ);
  }

  lemma ZeroIsNumber()
    ensures KStrToULL([ZERO]) == Num(0)
  {
    assert DigitRun([ZERO], 1, Octal, 0) == Sum(0, 1);
  }

  function Blank(n: nat): seq<byte> {
    seq(n, _ => SPACE)
  }

  lemma {:induction false} BlankFills(n: nat, i: nat)
    requires i <= n
    ensures FillerFrom(Blank(n), i)
    decreases n - i
  {
    if i < n {
      BlankFills(n, i + 1);
    }
  }

  /** An entry behind `n` blanks. */
  function Padded(n: nat): Row {
    Row(Blank(n), [ZERO], [SPACE], [ZERO], NEWLINE)
  }

  /** A text that only its length keeps from being installed. */
  lemma TooLongKeeps(table: Table, n: nat)
    ensures var text := Render(Padded(n));
            && Parse(text) == Entries([Entry(0, 0)])
            && WriteOutcome(table, text) ==
                 if n <= 131068 then Written(n + 4, [Entry(0, 0)]) else Written(E2BIG, table)
  {
    hide KStrToULL, Parse, FillerFrom, Means;
    BlankFills(n, 0);
    ZeroIsNumber();
    KStrToULLIff([ZERO], 0);
    var rows, text := [Padded(n)], Render(Padded(n));
    assert rows[1..] == [];
    assert RenderAll(rows) == text;
    assert Spells(text, rows, [], [Entry(0, 0)]) by {
      EmptyEnds();
      assert text + [] == text;
    }
    ParserIsGrammar(text, [Entry(0, 0)]);
  }

  // ---- A table that is too long for its own listing ----

  function ShortTable(n: nat): Table
    requires n <= 0x1_0000
  {
    seq(n, i requires 0 <= i < n => Entry(i, 0))
  }

  /** An entry without padding in its mask. */
  function ShortRow(i: nat): Row {
    Row([], [ZERO, LOWER_X] + Hex(i, 4), [SPACE], [ZERO], NEWLINE)
  }

  function ShortRows(from: nat, n: nat): (rows: seq<Row>)
    requires from <= n
    ensures |rows| == n - from
    decreases n - from
  {
    if from == n then [] else [ShortRow(from)] + ShortRows(from + 1, n)
  }

  lemma ShortRowDenotes(i: u16)
    ensures Denotes(ShortRow(i), Entry(i, 0)) && 3 <= |Render(ShortRow(i))| <= 9
  {
    hide KStrToULL, Hex, Means;
    HexToken(i, 4);
    KStrToULLOfHex(i, 4);
    ZeroIsNumber();
    KStrToULLIff([ZERO, LOWER_X] + Hex(i, 4), i);
    KStrToULLIff([ZERO], 0);
    assert Pow16(4) == 0x1_0000;
    HexLength(i, 4, 4);
  }

  lemma {:induction false} ShortRowsDenote(from: nat, n: nat)
    requires from <= n <= 0x1_0000
    ensures DenotesAll(ShortRows(from, n), ShortTable(n)[from..])
    ensures 3 * (n - from) <= |RenderAll(ShortRows(from, n))| <= 9 * (n - from)
    decreases n - from
  {
    hide Denotes, Render, ShortRow;
    if from < n {
      ShortRowDenotes(from);
      ShortRowsDenote(from + 1, n);
      assert ShortRows(from, n)[1..] == ShortRows(from + 1, n);
    }
  }

  /** Up to 14563 entries can be installed from rows of nine bytes. */
  lemma ShortTextInstalls(n: nat, current: Table) returns (input: seq<byte>)
    requires 0 < n <= 14563
    ensures WriteOutcome(current, input) == Written(|input|, ShortTable(n))
  {
    hide DenotesAll, RenderAll, ShortRows, WriteOutcome, EndingFrom;
    var rows := ShortRows(0, n);
    ShortRowsDenote(0, n);
    input := RenderAll(rows);
    assert ShortTable(n)[0..] == ShortTable(n);
    assert input + [] == input;
    EmptyEnds();
    assert Spells(input, rows, [], ShortTable(n));
    InstallsGrammar(current, input, ShortTable(n));
  }

  lemma EmptyEnds()
    ensures Ending([])
  {}

  /**
    * A table that a device write installs, and that a write of what the device then prints does not reinstall:
    * from 4369 entries on.
    */
  lemma ListingTooLong(n: nat, current: Table, count: nat) returns (input: seq<byte>)
    requires 0 < n <= 14563 && count >= LINE_MAX
    ensures WriteOutcome(current, input) == Written(|input|, ShortTable(n))
    ensures WriteOutcome([], ReadOn(ShortTable(n), 0, count))
            == if n <= 4368 then Written(30 * n + 30, ShortTable(n)) else Written(E2BIG, [])
  {
    hide WriteOutcome, ReadOn;
    input := ShortTextInstalls(n, current);
    Reinstall(ShortTable(n), [], count);
    ListingLength(ShortTable(n), 0, count);
  }
}
