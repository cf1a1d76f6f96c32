/** msrsave's own allowlist parser: a line count, and a scan of as many entries. */
module MsrsaveParser {
  import opened Words
  import opened Text
  import opened Numerals
  import opened AllowlistText
  import opened AllowlistPrint

  // The buffer is `b` and a NUL behind it; a pointer into it is a position.

  predicate AtEnd(b: seq<byte>, p: nat)
    requires p <= |b|
  {
    p == |b| || b[p] == NUL
  }

  /** strchr(p, '\n') + 1, or None if there is no newline. */
  function NextLine(b: seq<byte>, p: nat): (r: Option<nat>)
    requires p <= |b|
    ensures r.Some? ==> p < r.value <= |b|
  {
    var e := RunEnd(b, p, Line);
    if AtEnd(b, e) then None else Some(e + 1)
  }

  /** The number of lines from `p` on that do not start with '#'. */
  function CountFrom(b: seq<byte>, p: nat): nat
    requires p <= |b|
    decreases |b| - p
  {
    if AtEnd(b, p) then 0
    else
      (if b[p] == HASH then 0 else 1) + var q := NextLine(b, p); if q.None? then 0 else CountFrom(b, q.value)
  }

  /** The first line from `p` on that does not start with '#', or None if a comment has no next line. */
  function SkipComments(b: seq<byte>, p: nat): (r: Option<nat>)
    requires p <= |b|
    ensures r.Some? ==> p <= r.value <= |b|
    decreases |b| - p
  {
    if p < |b| && b[p] == HASH then
      var q := NextLine(b, p);
      if q.None? then None else SkipComments(b, q.value)
    else
      Some(p)
  }

  /** sscanf(p, "%zX %zX\n", ...) == 2, and the numbers it stores. */
  function ScanLine(b: seq<byte>, p: nat): Option<Entry>
    requires p <= |b|
  {
    match ScanHex(b, p)
    case NoMatch => None
    case Match(a, n) =>
      match ScanHex(b, n)
      case NoMatch => None
      case Match(m, _) => Some(Entry(a, m))
  }

  /** The entries of `n` lines from `p` on. */
  function ScanFrom(b: seq<byte>, p: nat, n: nat): Listing
    requires p <= |b|
    decreases n
  {
    if n == 0 then Entries([])
    else
      var q := SkipComments(b, p);
      if q.None? || ScanLine(b, q.value).None? then Rejected(-1)
      else
        var e := ScanLine(b, q.value).value;
        var next := NextLine(b, q.value);
        if next.None? then Entries([e])
        else match ScanFrom(b, next.value, n - 1)
          case Rejected(code) => Rejected(code)
          case Entries(es) => Entries([e] + es)
  }

  /** What msr_parse_allowlist makes of the file. */
  function MsrsaveParse(b: seq<byte>): Listing {
    if b == [] then Rejected(-1) else ScanFrom(b, 0, CountFrom(b, 0))
  }

  /** While lines are left to scan, the pointer stands in the buffer. */
  lemma {:induction false} SkipKeepsCount(b: seq<byte>, p: nat)
    requires p <= |b| && CountFrom(b, p) > 0
    ensures var q := SkipComments(b, p);
            && q.Some? && !AtEnd(b, q.value) && b[q.value] != HASH
            && CountFrom(b, q.value) == CountFrom(b, p)
    decreases |b| - p
  {
    if b[p] == HASH {
      SkipKeepsCount(b, NextLine(b, p).value);
    }
  }

  lemma BehindLine(b: seq<byte>, p: nat, n: nat, q: nat, es: Table, e: Entry)
    requires p <= |b| && n > 0 && SkipComments(b, p) == Some(q) && ScanLine(b, q) == Some(e)
    ensures Behind(es, ScanFrom(b, p, n)) == match NextLine(b, q)
                                             case None => Entries(es + [e])
                                             case Some(next) => Behind(es + [e], ScanFrom(b, next, n - 1))
  {
    hide NextLine, ScanLine, SkipComments;
    var next := NextLine(b, q);
    if next.Some? {
      var rest := ScanFrom(b, next.value, n - 1);
      if rest.Entries? {
        assert es + ([e] + rest.table) == es + [e] + rest.table;
      }
    }
  }

  method CountLines(b: seq<byte>) returns (num: nat)
    ensures num == CountFrom(b, 0)
  {
    num := 0;
    var ptr := Some(0);
    while ptr.Some? && !AtEnd(b, ptr.value)
      invariant ptr.Some? ==> ptr.value <= |b|
      invariant CountFrom(b, 0) == num + if ptr.Some? then CountFrom(b, ptr.value) else 0
      decreases if ptr.Some? then |b| - ptr.value + 1 else 0
    {
      if b[ptr.value] != HASH {
        num := num + 1;
      }
      ptr := NextLine(b, ptr.value);
    }
  }

  /** The arrays hold the addresses and masks of the entries. */
  ghost predicate Holds(offset: array<u64>, mask: array<u64>, es: Table)
    reads offset, mask
  {
    && |es| <= offset.Length == mask.Length
    && forall i | 0 <= i < |es| :: offset[i] == es[i].msr && mask[i] == es[i].wmask
  }

  /** msr_parse_allowlist, behind reading the file into the buffer. */
  method ParseAllowlist(b: seq<byte>) returns (err: int, num: nat, offset: array<u64>, mask: array<u64>)
    ensures fresh(offset) && fresh(mask)
    ensures match MsrsaveParse(b)
            case Rejected(code) => err == code
            case Entries(es) => err == 0 && num == |es| == offset.Length && Holds(offset, mask, es)
  {
    hide ScanLine, NextLine;
    num := 0;
    offset, mask := new u64[0], new u64[0];
    if b == [] {
      return -1, num, offset, mask;
    }
    num := CountLines(b);
    offset, mask := new u64[num](_ => 0), new u64[num](_ => 0);
    ghost var es: Table := [];
    var ptr: nat := 0;
    var i := 0;
    while i < num
      invariant i <= num == offset.Length == mask.Length
      invariant i == |es| && Holds(offset, mask, es)
      invariant i < num ==> ptr <= |b| && num - i == CountFrom(b, ptr)
      invariant i < num ==> MsrsaveParse(b) == Behind(es, ScanFrom(b, ptr, num - i))
      invariant i == num ==> MsrsaveParse(b) == Entries(es)
    {
      SkipKeepsCount(b, ptr);
      ghost var p := ptr;
      while ptr < |b| && b[ptr] == HASH
        invariant ptr <= |b| && SkipComments(b, ptr) == SkipComments(b, p)
        decreases |b| - ptr
      {
        var q := NextLine(b, ptr);
        if q.None? {
          // The branch for a comment without a newline: counted lines follow, so there is one.
          assert false;
        }
        ptr := q.value;
      }
      var scan := ScanLine(b, ptr);
      if scan.None? {
        return -1, num, offset, mask;
      }
      offset[i], mask[i] := scan.value.msr, scan.value.wmask;
      ghost var e := scan.value;
      var next := NextLine(b, ptr);
      BehindLine(b, p, num - i, ptr, es, e);
      es := es + [e];
      // Behind a last line without a newline the pointer is no longer used.
      ptr := if next.Some? then next.value else |b| + 1;
      i := i + 1;
    }
    return 0, num, offset, mask;
  }

  // ---- The two parsers agree on what the device prints ----

  lemma HexAt(b: seq<byte>, p: nat, v: u64, width: nat)
    requires At(b, p, [ZERO, LOWER_X] + Hex(v, width))
    ensures var h := Hex(v, width);
            && h != [] && At(b, p + 2, h) && b[p] == ZERO && b[p + 1] == LOWER_X
            && HexText(h) && Value(h, |h|) == v
            && (forall i | p <= i < p + 2 + |h| :: InLine(b[i]) && !IsBlank(b[i]))
  {
    HexValue(v, width);
    HexToken(v, width);
    var s, h := [ZERO, LOWER_X] + Hex(v, width), Hex(v, width);
    AtConcat(b, p, [ZERO, LOWER_X], h);
    assert s[0] == b[p] && s[1] == b[p + 1];
    forall i | p <= i < p + 2 + |h|
      ensures InLine(b[i]) && !IsBlank(b[i])
    {
      assert Token.Has(s[i - p]);
    }
  }

  /** A printed line is one line, and is scanned as its entry. */
  lemma PrintedLine(b: seq<byte>, p: nat, e: Entry)
    requires At(b, p, Render(PrintedRow([], e)))
    ensures b[p] == ZERO
    ensures NextLine(b, p) == Some(p + |Render(PrintedRow([], e))|)
    ensures ScanLine(b, p) == Some(e)
  {
    hide Hex, HexText, Value;
    var r := PrintedRow([], e);
    RowAt(b, p, r);
    var k := p + |r.address|;
    HexAt(b, p, e.msr, 8);
    assert r.gap[0] == b[k];
    HexAt(b, k + 1, e.wmask, 16);
    var n := k + 1 + |r.mask|;
    RunEndIs(b, p, Line, n);
    RunEndIs(b, p, Blanks, p);
    ScanHexOf(b, p, p, Hex(e.msr, 8), e.msr);
    RunEndIs(b, k, Blanks, k + 1);
    ScanHexOf(b, k, k + 1, Hex(e.wmask, 16), e.wmask);
  }

  lemma HeaderLine(b: seq<byte>)
    requires At(b, 0, HEADER)
    ensures b[0] == HASH && NextLine(b, 0) == Some(30)
  {
    assert HEADER[0] == b[0] && HEADER[29] == b[29];
    forall i | 0 <= i < 29
      ensures InLine(b[i])
    {
      assert HEADER[i] == b[i];
    }
    RunEndIs(b, 0, Line, 29);
  }

  /** From the line of entry `pos` on, both passes see the remaining entries. */
  lemma {:induction false} PrintedLines(b: seq<byte>, p: nat, table: Table, pos: nat)
    requires 0 < pos <= |table|
    requires At(b, p, RenderAll(PrintedRows(table, pos))) && |b| == p + |RenderAll(PrintedRows(table, pos))|
    ensures CountFrom(b, p) == |table| - pos
    ensures ScanFrom(b, p, |table| - pos) == Entries(table[pos..])
    decreases |table| - pos
  {
    hide Render, NextLine, ScanLine;
    if pos < |table| {
      var e := table[pos];
      var rows := PrintedRows(table, pos);
      assert rows[0] == PrintedRow([], e) && rows[1..] == PrintedRows(table, pos + 1);
      AtConcat(b, p, Render(rows[0]), RenderAll(rows[1..]));
      PrintedLength(pos, e);
      PrintedLine(b, p, e);
      PrintedLines(b, p + |Render(rows[0])|, table, pos + 1);
      assert table[pos..] == [e] + table[pos + 1..];
    }
  }

  lemma LineBehind(b: seq<byte>, lead: seq<byte>, e: Entry)
    requires At(b, 0, Render(PrintedRow(lead, e)))
    ensures At(b, 0, lead) && At(b, |lead|, Render(PrintedRow([], e)))
    ensures |Render(PrintedRow(lead, e))| == |lead| + |Render(PrintedRow([], e))|
  {
    hide Hex;
    var line := Render(PrintedRow([], e));
    assert Render(PrintedRow(lead, e)) == lead + line by {
      assert [] + line == line;
    }
    AtConcat(b, 0, lead, line);
  }

  /** Both passes on a text that starts with the header, the line of `e`, and lines behind it. */
  lemma FirstPasses(t: seq<byte>, e: Entry, n: nat, rest: Table)
    requires 30 < n <= |t| && t[0] == HASH && NextLine(t, 0) == Some(30) && t[30] == ZERO
    requires NextLine(t, 30) == Some(n) && ScanLine(t, 30) == Some(e)
    requires CountFrom(t, n) == |rest| && ScanFrom(t, n, |rest|) == Entries(rest)
    ensures CountFrom(t, 0) == 1 + |rest| && ScanFrom(t, 0, 1 + |rest|) == Entries([e] + rest)
  {
    hide NextLine, ScanLine;
    assert CountFrom(t, 30) == 1 + CountFrom(t, n);
    assert CountFrom(t, 0) == CountFrom(t, 30);
    assert SkipComments(t, 0) == SkipComments(t, 30) == Some(30);
  }

  /**
    * On what the device prints, msrsave counts the lines of all entries and scans them as the kernel's parser
    * does. Only for an empty table the two differ: msrsave rejects an empty file.
    */
  lemma TwoParsersAgree(table: Table, count: nat)
    requires count >= LINE_MAX
    ensures var t := ReadOn(table, 0, count);
            && CountFrom(t, 0) == |table|
            && (MsrsaveParse(t) == Parse(t) == Entries(table) <==> table != [])
  {
    hide ParseFrom, Render, NextLine, ScanLine, ReadOn, CountFrom, ScanFrom;
    PrintParse(table, count);
    ReadOnPrints(table, count);
    var t := ReadOn(table, 0, count);
    if table == [] {
      EmptyText(t);
    } else {
      var e := table[0];
      var rows := PrintedRows(table, 0);
      assert rows[0] == PrintedRow(HEADER, e) && rows[1..] == PrintedRows(table, 1);
      AtConcat(t, 0, Render(rows[0]), RenderAll(rows[1..]));
      LineBehind(t, HEADER, e);
      HeaderLine(t);
      PrintedLength(1, e);
      PrintedLine(t, 30, e);
      PrintedLines(t, 30 + |Render(PrintedRow([], e))|, table, 1);
      FirstPasses(t, e, 30 + |Render(PrintedRow([], e))|, table[1..]);
      assert table == [e] + table[1..];
    }
  }

  lemma EmptyText(t: seq<byte>)
    requires t == []
    ensures CountFrom(t, 0) == 0 && MsrsaveParse(t) == Rejected(-1)
  {}
}
