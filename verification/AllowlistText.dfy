/** The text form of an allowlist: what the driver accepts and in which grammar it may be written. */
module AllowlistText {
  import opened Words
  import opened Text
  import opened Numerals
  import opened NumeralText

  datatype Entry = Entry(msr: u64, wmask: u64)

  type Table = seq<Entry>

  // ---- The parser ----

  datatype Read = Number(value: u64, next: nat) | Bad(code: int)

  datatype Listing = Entries(table: Table) | Rejected(code: int)

  datatype Parsed = Done | Item(entry: Entry, next: nat) | Fail(code: int)

  predicate ParseError(code: int) {
    code == EILSEQ || code == EINVAL || code == ERANGE
  }

  /** One whitespace-delimited number and the delimiter after it. */
  function Field(b: seq<byte>, p: nat): (r: Read)
    requires p <= |b|
    ensures r.Number? ==> p + 2 <= r.next <= |b|
    ensures r.Bad? ==> ParseError(r.code)
  {
    var k := RunEnd(b, p, Spaces);
    var e := RunEnd(b, k, Token);
    if e == |b| || b[e] == NUL then Bad(EILSEQ)
    else match KStrToULL(b[k..e])
      case NoNum(code) => Bad(code)
      case Num(v) => Number(v, e + 1)
  }

  /** The next entry from `p` on: blanks and comments, an address and a write mask. */
  function Next(b: seq<byte>, p: nat): (r: Parsed)
    requires p <= |b|
    ensures r.Item? ==> p + 4 <= r.next <= |b|
    ensures r.Fail? ==> ParseError(r.code)
  {
    var k := BlankEnd(b, p);
    if k == |b| || b[k] == NUL then Done
    else match Field(b, k)
      case Bad(code) => Fail(code)
      case Number(a, n) =>
        match Field(b, n)
        case Bad(code) => Fail(code)
        case Number(m, n') => Item(Entry(a, m), n')
  }

  /** All entries of the text that starts at `p`, or the first error. */
  function ParseFrom(b: seq<byte>, p: nat): (r: Listing)
    requires p <= |b|
    ensures r.Rejected? ==> ParseError(r.code)
    decreases |b| - p
  {
    match Next(b, p)
    case Done => Entries([])
    case Fail(code) => Rejected(code)
    case Item(e, n) =>
      match ParseFrom(b, n)
      case Rejected(code) => Rejected(code)
      case Entries(es) => Entries([e] + es)
  }

  /** What reading the rest of the text yields, behind entries that were read before. */
  function Behind(es: Table, rest: Listing): Listing {
    match rest
    case Rejected(code) => rest
    case Entries(more) => Entries(es + more)
  }

  function Parse(t: seq<byte>): Listing {
    ParseFrom(t, 0)
  }

  /** Every entry takes at least four bytes of input. */
  lemma {:induction false} EntriesAreBounded(b: seq<byte>, p: nat)
    requires p <= |b|
    ensures ParseFrom(b, p).Entries? ==> 4 * |ParseFrom(b, p).table| <= |b| - p
    decreases |b| - p
  {
    var r := Next(b, p);
    if r.Item? {
      EntriesAreBounded(b, r.next);
    }
  }

  lemma NextOfFields(b: seq<byte>, p: nat, k: nat, a: u64, n: nat, m: u64, n': nat)
    requires p <= |b| && BlankEnd(b, p) == k < |b| && b[k] != NUL
    requires Field(b, k) == Number(a, n) && Field(b, n) == Number(m, n')
    ensures Next(b, p) == Item(Entry(a, m), n')
  {}

  lemma ParseOfNext(b: seq<byte>, p: nat, e: Entry, n: nat, es: Table)
    requires p <= |b| && Next(b, p) == Item(e, n) && ParseFrom(b, n) == Entries(es)
    ensures ParseFrom(b, p) == Entries([e] + es)
  {
    hide Next;
  }

  lemma ParseAlike(b: seq<byte>, p: nat, c: seq<byte>, p': nat)
    requires p <= |b| && p' <= |c|
    requires match Next(b, p)
             case Done => Next(c, p') == Done
             case Fail(code) => Next(c, p') == Fail(code)
             case Item(e, n) =>
               Next(c, p').Item? && Next(c, p').entry == e && ParseFrom(c, Next(c, p').next) == ParseFrom(b, n)
    ensures ParseFrom(b, p) == ParseFrom(c, p')
  {
    hide Next;
  }

  lemma ParseOfEnding(b: seq<byte>, p: nat)
    requires p <= |b|
    ensures Next(b, p).Done? <==> Ending(b[p..])
    ensures Ending(b[p..]) ==> ParseFrom(b, p) == Entries([])
  {
    hide Field;
    EndingIff(b, p, b[p..], 0);
  }

  // ---- Only the rest of the text matters ----

  /** From `p` and from `p'` on, `b` and `c` are the same text. */
  ghost predicate Same(b: seq<byte>, p: nat, c: seq<byte>, p': nat) {
    |b| - p == |c| - p' >= 0 && forall i | p <= i < |b| :: b[i] == c[i - p + p']
  }

  lemma {:induction false} RunEndShift(b: seq<byte>, p: nat, c: seq<byte>, p': nat, q: Class)
    requires Same(b, p, c, p')
    ensures RunEnd(b, p, q) - p == RunEnd(c, p', q) - p'
  {
    RunEndBytes(b, p, q);
    var e := RunEnd(b, p, q);
    forall i | p' <= i < e - p + p'
      ensures q.Has(c[i])
    {
      assert q.Has(b[i - p' + p]);
    }
    RunEndIs(c, p', q, e - p + p');
  }

  lemma {:induction false} BlankEndShift(b: seq<byte>, p: nat, c: seq<byte>, p': nat)
    requires Same(b, p, c, p')
    ensures BlankEnd(b, p) - p == BlankEnd(c, p') - p'
    decreases |b| - p
  {
    if p < |b| {
      if IsSpace(b[p]) {
        BlankEndShift(b, p + 1, c, p' + 1);
      } else if b[p] == HASH {
        RunEndShift(b, p + 1, c, p' + 1, Line);
        BlankEndShift(b, RunEnd(b, p + 1, Line), c, RunEnd(c, p' + 1, Line));
      }
    }
  }

  lemma FieldShift(b: seq<byte>, p: nat, c: seq<byte>, p': nat)
    requires Same(b, p, c, p')
    ensures match Field(b, p)
            case Bad(code) => Field(c, p') == Bad(code)
            case Number(v, n) => Field(c, p') == Number(v, n - p + p')
  {
    hide KStrToULL;
    RunEndShift(b, p, c, p', Spaces);
    var k, k' := RunEnd(b, p, Spaces), RunEnd(c, p', Spaces);
    RunEndShift(b, k, c, k', Token);
    var e, e' := RunEnd(b, k, Token), RunEnd(c, k', Token);
    assert b[k..e] == c[k'..e'];
  }

  lemma NextShift(b: seq<byte>, p: nat, c: seq<byte>, p': nat)
    requires Same(b, p, c, p')
    ensures match Next(b, p)
            case Done => Next(c, p') == Done
            case Fail(code) => Next(c, p') == Fail(code)
            case Item(e, n) => Next(c, p') == Item(e, n - p + p')
  {
    hide KStrToULL;
    BlankEndShift(b, p, c, p');
    var k, k' := BlankEnd(b, p), BlankEnd(c, p');
    FieldShift(b, k, c, k');
    if k < |b| && b[k] != NUL && Field(b, k).Number? {
      FieldShift(b, Field(b, k).next, c, Field(c, k').next);
    }
  }

  lemma {:induction false} ParseShift(b: seq<byte>, p: nat, c: seq<byte>, p': nat)
    requires Same(b, p, c, p')
    ensures ParseFrom(b, p) == ParseFrom(c, p')
    decreases |b| - p
  {
    hide Next, ParseFrom;
    NextShift(b, p, c, p');
    var r := Next(b, p);
    if r.Item? {
      ParseShift(b, r.next, c, r.next - p + p');
    }
    ParseAlike(b, p, c, p');
  }

  // ---- The grammar ----

  /** One entry as it may be written: filler, address, gap, mask, and a blank that ends it. */
  datatype Row = Row(lead: seq<byte>, address: seq<byte>, gap: seq<byte>, mask: seq<byte>, close: byte)

  function Render(r: Row): seq<byte> {
    r.lead + (r.address + (r.gap + (r.mask + [r.close])))
  }

  ghost predicate Denotes(r: Row, e: Entry) {
    && Filler(r.lead)
    && All(r.address, Token) && Means(r.address, e.msr)
    && r.gap != [] && All(r.gap, Spaces)
    && All(r.mask, Token) && Means(r.mask, e.wmask)
    && IsSpace(r.close)
  }

  function RenderAll(rows: seq<Row>): seq<byte> {
    if rows == [] then [] else Render(rows[0]) + RenderAll(rows[1..])
  }

  ghost predicate DenotesAll(rows: seq<Row>, table: Table) {
    |rows| == |table| && forall i | 0 <= i < |rows| :: Denotes(rows[i], table[i])
  }

  /** A token behind optional spaces and in front of a space is one field. */
  lemma FieldOf(b: seq<byte>, p: nat, k: nat, token: seq<byte>, v: u64)
    requires p <= k && At(b, k, token) && k + |token| < |b|
    requires forall i | p <= i < k :: IsSpace(b[i])
    requires All(token, Token) && KStrToULL(token) == Num(v)
    requires IsSpace(b[k + |token|])
    ensures Field(b, p) == Number(v, k + |token| + 1)
  {
    NumeralIsNoComment(token);
    assert InToken(token[0]);
    RunEndIs(b, p, Spaces, k);
    RunOver(b, k, token, Token);
    AtSlice(b, k, token);
  }

  lemma RowAt(b: seq<byte>, p: nat, r: Row)
    requires At(b, p, Render(r))
    ensures At(b, p, r.lead)
    ensures var k := p + |r.lead|; At(b, k, r.address)
    ensures var k := p + |r.lead| + |r.address|; At(b, k, r.gap)
    ensures var k := p + |r.lead| + |r.address| + |r.gap|; At(b, k, r.mask)
    ensures var k := p + |r.lead| + |r.address| + |r.gap| + |r.mask|; k < |b| && b[k] == r.close
    ensures |Render(r)| == |r.lead| + |r.address| + |r.gap| + |r.mask| + 1
  {
    var k1 := p + |r.lead|;
    var k2 := k1 + |r.address|;
    var k3 := k2 + |r.gap|;
    AtConcat(b, p, r.lead, r.address + (r.gap + (r.mask + [r.close])));
    AtConcat(b, k1, r.address, r.gap + (r.mask + [r.close]));
    AtConcat(b, k2, r.gap, r.mask + [r.close]);
    AtConcat(b, k3, r.mask, [r.close]);
    assert [r.close][0] == r.close;
  }

  /** The mask of a row is the second field. */
  lemma MaskField(b: seq<byte>, p: nat, gap: seq<byte>, mask: seq<byte>, m: u64)
    requires At(b, p, gap) && At(b, p + |gap|, mask) && p + |gap| + |mask| < |b|
    requires gap != [] && All(gap, Spaces) && All(mask, Token) && KStrToULL(mask) == Num(m)
    requires IsSpace(b[p + |gap| + |mask|])
    ensures IsSpace(b[p]) && Field(b, p + 1) == Number(m, p + |gap| + |mask| + 1)
  {
    forall i | p <= i < p + |gap|
      ensures IsSpace(b[i])
    {
      assert Spaces.Has(gap[i - p]);
    }
    FieldOf(b, p + 1, p + |gap|, mask, m);
  }

  /** The address of a row is where skipping ends. */
  lemma AddressField(b: seq<byte>, p: nat, lead: seq<byte>, address: seq<byte>, a: u64)
    requires At(b, p, lead) && At(b, p + |lead|, address) && p + |lead| + |address| < |b|
    requires Filler(lead) && All(address, Token) && KStrToULL(address) == Num(a)
    requires IsSpace(b[p + |lead| + |address|])
    ensures var k := p + |lead|;
            && BlankEnd(b, p) == k && b[k] != NUL
            && Field(b, k) == Number(a, k + |address| + 1)
  {
    hide KStrToULL, FillerFrom;
    NumeralIsNoComment(address);
    assert Token.Has(address[0]);
    BlankOverFiller(b, p, lead, 0);
    FieldOf(b, p + |lead|, p + |lead|, address, a);
  }

  /** A row is read as the entry it denotes, and read up to its end, whatever follows. */
  lemma NextOfRow(b: seq<byte>, p: nat, r: Row, e: Entry)
    requires At(b, p, Render(r)) && Denotes(r, e)
    ensures Next(b, p) == Item(e, p + |Render(r)|)
  {
    hide KStrToULL, Next, Means;
    KStrToULLIff(r.address, e.msr);
    KStrToULLIff(r.mask, e.wmask);
    RowAt(b, p, r);
    var k1 := p + |r.lead|;
    var k2 := k1 + |r.address|;
    MaskField(b, k2, r.gap, r.mask, e.wmask);
    AddressField(b, p, r.lead, r.address, e.msr);
    NextOfFields(b, p, k1, e.msr, k2 + 1, e.wmask, k2 + |r.gap| + |r.mask| + 1);
  }

  lemma RowFrom(b: seq<byte>, p: nat, r: Row)
    requires At(b, p, r.lead)
    requires At(b, p + |r.lead|, r.address)
    requires At(b, p + |r.lead| + |r.address|, r.gap)
    requires At(b, p + |r.lead| + |r.address| + |r.gap|, r.mask)
    requires var k := p + |r.lead| + |r.address| + |r.gap| + |r.mask|; k < |b| && b[k] == r.close
    ensures At(b, p, Render(r))
  {
    var k1 := p + |r.lead|;
    var k2 := k1 + |r.address|;
    var k3 := k2 + |r.gap|;
    AtConcat(b, k3, r.mask, [r.close]);
    AtConcat(b, k2, r.gap, r.mask + [r.close]);
    AtConcat(b, k1, r.address, r.gap + (r.mask + [r.close]));
    AtConcat(b, p, r.lead, r.address + (r.gap + (r.mask + [r.close])));
  }

  lemma FieldShape(b: seq<byte>, p: nat)
    requires p <= |b| && Field(b, p).Number?
    ensures var k := RunEnd(b, p, Spaces);
            var e := RunEnd(b, k, Token);
            && Field(b, p).next == e + 1 && e < |b| && IsSpace(b[e])
            && KStrToULL(b[k..e]) == Num(Field(b, p).value)
            && All(b[p..k], Spaces) && All(b[k..e], Token)
  {
    RunEndBytes(b, p, Spaces);
    RunEndBytes(b, RunEnd(b, p, Spaces), Token);
  }

  lemma NextShape(b: seq<byte>, p: nat)
    requires p <= |b| && Next(b, p).Item?
    ensures var k := BlankEnd(b, p);
            && k < |b| && b[k] != NUL
            && Field(b, k).Number?
            && var n := Field(b, k).next;
               Field(b, n).Number? && Next(b, p) == Item(Entry(Field(b, k).value, Field(b, n).value), Field(b, n).next)
  {}

  /** The row that stands between given positions. */
  function Cut(b: seq<byte>, p: nat, k: nat, e: nat, k': nat, e': nat): Row
    requires p <= k <= e <= k' <= e' < |b|
  {
    Row(b[p..k], b[k..e], b[e..k'], b[k'..e'], b[e'])
  }

  lemma CutAt(b: seq<byte>, p: nat, k: nat, e: nat, k': nat, e': nat)
    requires p <= k <= e <= k' <= e' < |b|
    ensures var r := Cut(b, p, k, e, k', e'); At(b, p, Render(r)) && p + |Render(r)| == e' + 1
  {
    RowFrom(b, p, Cut(b, p, k, e, k', e'));
  }

  lemma GapOfSpaces(b: seq<byte>, e: nat, k: nat)
    requires e < k <= |b| && IsSpace(b[e]) && All(b[e + 1..k], Spaces)
    ensures All(b[e..k], Spaces)
  {
    assert b[e..k] == [b[e]] + b[e + 1..k];
  }

  /** Whatever is read as an entry is a row of the grammar. */
  lemma RowOfNext(b: seq<byte>, p: nat) returns (r: Row)
    requires p <= |b| && Next(b, p).Item?
    ensures Denotes(r, Next(b, p).entry)
    ensures p + |Render(r)| == Next(b, p).next
    ensures At(b, p, Render(r))
  {
    hide KStrToULL, Field, Next, Render, FillerFrom, Means;
    NextShape(b, p);
    var k := BlankEnd(b, p);
    BlankIsFiller(b, p, k, b[p..k], 0);
    FieldShape(b, k);
    RunEndIs(b, k, Spaces, k);
    var e := RunEnd(b, k, Token);
    FieldShape(b, e + 1);
    var k' := RunEnd(b, e + 1, Spaces);
    var e' := RunEnd(b, k', Token);
    CutAt(b, p, k, e, k', e');
    r := Cut(b, p, k, e, k', e');
    GapOfSpaces(b, e, k');
    KStrToULLIff(r.address, Next(b, p).entry.msr);
    KStrToULLIff(r.mask, Next(b, p).entry.wmask);
  }

  lemma {:induction false} ParseOfRows(b: seq<byte>, p: nat, rows: seq<Row>, table: Table, tail: seq<byte>)
    requires At(b, p, RenderAll(rows)) && At(b, p + |RenderAll(rows)|, tail)
    requires |b| == p + |RenderAll(rows)| + |tail|
    requires DenotesAll(rows, table) && Ending(tail)
    ensures ParseFrom(b, p) == Entries(table)
    decreases |rows|
  {
    hide Next, ParseFrom, Ending, Denotes, Render;
    if rows == [] {
      AtSlice(b, p, tail);
      assert b[p..] == b[p..p + |tail|];
      ParseOfEnding(b, p);
      assert table == [];
    } else {
      var n := p + |Render(rows[0])|;
      AtConcat(b, p, Render(rows[0]), RenderAll(rows[1..]));
      NextOfRow(b, p, rows[0], table[0]);
      ParseOfRows(b, n, rows[1..], table[1..], tail);
      ParseOfNext(b, p, table[0], n, table[1..]);
      assert table == [table[0]] + table[1..];
    }
  }

  lemma {:induction false} RowsOfParse(b: seq<byte>, p: nat) returns (rows: seq<Row>, tail: seq<byte>)
    requires p <= |b| && ParseFrom(b, p).Entries?
    ensures At(b, p, RenderAll(rows)) && At(b, p + |RenderAll(rows)|, tail)
    ensures |b| == p + |RenderAll(rows)| + |tail|
    ensures DenotesAll(rows, ParseFrom(b, p).table) && Ending(tail)
    decreases |b| - p
  {
    hide Next, Ending, Denotes, Render;
    var r := Next(b, p);
    if r.Done? {
      rows, tail := [], b[p..];
      ParseOfEnding(b, p);
    } else {
      var row := RowOfNext(b, p);
      var rows', tail' := RowsOfParse(b, r.next);
      rows, tail := [row] + rows', tail';
      assert rows[1..] == rows';
      AtConcat(b, p, Render(row), RenderAll(rows'));
    }
  }

  ghost predicate Spells(t: seq<byte>, rows: seq<Row>, tail: seq<byte>, table: Table) {
    t == RenderAll(rows) + tail && DenotesAll(rows, table) && Ending(tail)
  }

  /** The parser accepts exactly the grammar. */
  lemma ParserIsGrammar(t: seq<byte>, table: Table)
    ensures Parse(t) == Entries(table) <==> exists rows, tail :: Spells(t, rows, tail, table)
  {
    hide ParseFrom, RenderAll, DenotesAll, Ending;
    if Parse(t) == Entries(table) {
      var rows, tail := RowsOfParse(t, 0);
      AtConcat(t, 0, RenderAll(rows), tail);
      AtSlice(t, 0, RenderAll(rows) + tail);
      assert Spells(t, rows, tail, table);
    }
    forall rows, tail | Spells(t, rows, tail, table)
      ensures Parse(t) == Entries(table)
    {
      AtSlice(t, 0, RenderAll(rows) + tail);
      AtConcat(t, 0, RenderAll(rows), tail);
      ParseOfRows(t, 0, rows, table, tail);
    }
  }

  // ---- Comments are neutral ----

  /** Position `q` is one where an entry may start: behind an entry, or any filler behind one. */
  ghost predicate Boundary(b: seq<byte>, p: nat, q: nat)
    requires p <= q <= |b|
    decreases |b| - p
  {
    Filler(b[p..q]) || (Next(b, p).Item? && Next(b, p).next <= q && Boundary(b, Next(b, p).next, q))
  }

  /** `t` with `f` put in at position `q`. */
  function Insert(t: seq<byte>, q: nat, f: seq<byte>): seq<byte>
    requires q <= |t|
  {
    t[..q] + (f + t[q..])
  }

  lemma ParseAfterBlank(b: seq<byte>, p: nat, k: nat)
    requires p <= |b| && k <= |b| && BlankEnd(b, p) == BlankEnd(b, k)
    ensures ParseFrom(b, p) == ParseFrom(b, k)
  {
    hide Field;
    assert Next(b, p) == Next(b, k);
  }

  lemma InsertInFiller(t: seq<byte>, p: nat, q: nat, f: seq<byte>)
    requires p <= q <= |t| && Filler(t[p..q]) && Filler(f)
    ensures ParseFrom(Insert(t, q, f), p) == ParseFrom(t, p)
  {
    hide ParseFrom, BlankEnd, FillerFrom;
    var u := Insert(t, q, f);
    BlankOverFiller(t, p, t[p..q], 0);
    ParseAfterBlank(t, p, q);
    BlankOverFiller(u, p, t[p..q], 0);
    BlankOverFiller(u, q, f, 0);
    ParseAfterBlank(u, p, q + |f|);
    ParseShift(t, q, u, q + |f|);
  }

  lemma {:induction false} InsertFrom(t: seq<byte>, p: nat, q: nat, f: seq<byte>)
    requires p <= q <= |t| && Boundary(t, p, q) && Filler(f)
    ensures ParseFrom(Insert(t, q, f), p) == ParseFrom(t, p)
    decreases |t| - p
  {
    hide Next, ParseFrom, BlankEnd, Filler, Render, Denotes;
    var u := Insert(t, q, f);
    if Filler(t[p..q]) {
      InsertInFiller(t, p, q, f);
    } else {
      var r := Next(t, p);
      var row := RowOfNext(t, p);
      NextOfRow(u, p, row, r.entry);
      InsertFrom(t, r.next, q, f);
      ParseAlike(u, p, t, p);
    }
  }

  /** Filler put in where an entry may start changes neither the entries nor the outcome. */
  lemma CommentsAreNeutral(t: seq<byte>, q: nat, f: seq<byte>)
    requires q <= |t| && Boundary(t, 0, q) && Filler(f)
    ensures Parse(Insert(t, q, f)) == Parse(t)
  {
    InsertFrom(t, 0, q, f);
  }
}
