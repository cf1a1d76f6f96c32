/** Which error a text that is not of the grammar is refused with. */
module ParseErrors {
  import opened Words
  import opened Text
  import opened Numerals
  import opened NumeralText
  import opened AllowlistText

  /** Behind rows of the grammar, what follows decides. */
  lemma {:induction false} RowsThen(b: seq<byte>, p: nat, rows: seq<Row>, table: Table)
    requires At(b, p, RenderAll(rows)) && DenotesAll(rows, table)
    ensures ParseFrom(b, p) == Behind(table, ParseFrom(b, p + |RenderAll(rows)|))
    decreases |rows|
  {
    hide Next, ParseFrom, Denotes, Render;
    if rows == [] {
      NothingBehind(ParseFrom(b, p));
    } else {
      var n := p + |Render(rows[0])|;
      AtConcat(b, p, Render(rows[0]), RenderAll(rows[1..]));
      NextOfRow(b, p, rows[0], table[0]);
      RowsThen(b, n, rows[1..], table[1..]);
      FirstBehind(b, p, table, n);
    }
  }

  lemma NothingBehind(rest: Listing)
    ensures Behind([], rest) == rest
  {
    if rest.Entries? {
      assert [] + rest.table == rest.table;
    }
  }

  lemma FirstBehind(b: seq<byte>, p: nat, table: Table, n: nat)
    requires p <= |b| && table != [] && Next(b, p) == Item(table[0], n)
    ensures forall rest :: ParseFrom(b, n) == Behind(table[1..], rest) ==> ParseFrom(b, p) == Behind(table, rest)
  {
    hide Next;
    forall rest | ParseFrom(b, n) == Behind(table[1..], rest)
      ensures ParseFrom(b, p) == Behind(table, rest)
    {
      if rest.Entries? {
        assert [table[0]] + (table[1..] + rest.table) == table + rest.table;
      }
    }
  }

  /** The code for a token that is no number. */
  ghost function CodeOf(token: seq<byte>): int {
    if Overflows(token) then ERANGE else EINVAL
  }

  lemma CodeIs(token: seq<byte>)
    requires forall v: u64 :: !Means(token, v)
    ensures KStrToULL(token) == NoNum(CodeOf(token))
  {
    hide KStrToULL, Means, Overflows;
    RangeErrorIff(token);
    if !Overflows(token) {
      OtherwiseInvalid(token);
    } else {
      assert KStrToULL(token) == NoNum(ERANGE);
    }
  }

  /** A token behind spaces: no number, or not ended by white space. */
  lemma BadField(b: seq<byte>, p: nat, k: nat, token: seq<byte>)
    requires p <= k && At(b, k, token) && token != [] && All(token, Token)
    requires forall i | p <= i < k :: IsSpace(b[i])
    ensures k + |token| == |b| ==> Field(b, p) == Bad(EILSEQ)
    ensures k + |token| < |b| && IsSpace(b[k + |token|]) && (forall v: u64 :: !Means(token, v)) ==>
              Field(b, p) == Bad(CodeOf(token))
  {
    hide KStrToULL, Means, CodeOf;
    assert Token.Has(token[0]);
    RunEndIs(b, p, Spaces, k);
    if k + |token| == |b| || IsSpace(b[k + |token|]) {
      RunOver(b, k, token, Token);
      AtSlice(b, k, token);
    }
    if forall v: u64 :: !Means(token, v) {
      CodeIs(token);
    }
  }

  /** The text goes on with a token that ends with the text, or is no number and is ended by white space. */
  ghost predicate Stuck(token: seq<byte>, rest: seq<byte>) {
    && token != [] && All(token, Token)
    && (rest == [] || (IsSpace(rest[0]) && forall v: u64 :: !Means(token, v)))
  }

  ghost function StuckCode(token: seq<byte>, rest: seq<byte>): int {
    if rest == [] then EILSEQ else CodeOf(token)
  }

  lemma BadAddressField(b: seq<byte>, p: nat, lead: seq<byte>, token: seq<byte>, rest: seq<byte>)
    requires At(b, p, lead + (token + rest)) && |b| == p + |lead + (token + rest)|
    requires Filler(lead) && Stuck(token, rest) && token[0] != HASH
    ensures Next(b, p) == Fail(StuckCode(token, rest))
  {
    hide Field, FillerFrom, Means, CodeOf;
    var k := p + |lead|;
    AtConcat(b, p, lead, token + rest);
    AtConcat(b, k, token, rest);
    BlankOverFiller(b, p, lead, 0);
    assert Token.Has(token[0]);
    assert b[k] == token[0];
    if rest != [] {
      assert b[k + |token|] == rest[0];
    }
    BadField(b, k, k, token);
  }

  /** A text that gets stuck at the address of an entry is refused with the code for that. */
  lemma BadAddress(rows: seq<Row>, table: Table, lead: seq<byte>, token: seq<byte>, rest: seq<byte>)
    requires DenotesAll(rows, table) && Filler(lead) && Stuck(token, rest) && token[0] != HASH
    ensures Parse(RenderAll(rows) + (lead + (token + rest))) == Rejected(StuckCode(token, rest))
  {
    hide Next, DenotesAll, Stuck, StuckCode, Filler;
    var b := RenderAll(rows) + (lead + (token + rest));
    var p := |RenderAll(rows)|;
    AtSlice(b, 0, b);
    AtConcat(b, 0, RenderAll(rows), lead + (token + rest));
    RowsThen(b, 0, rows, table);
    BadAddressField(b, p, lead, token, rest);
  }

  lemma BadMaskField(b: seq<byte>, p: nat, lead: seq<byte>, address: seq<byte>, a: u64, gap: seq<byte>,
                     token: seq<byte>, rest: seq<byte>)
    requires At(b, p, lead + (address + (gap + (token + rest)))) && |b| == p + |lead + (address + (gap + (token + rest)))|
    requires Filler(lead) && All(address, Token) && Means(address, a) && gap != [] && All(gap, Spaces)
    requires Stuck(token, rest)
    ensures Next(b, p) == Fail(StuckCode(token, rest))
  {
    hide Field, FillerFrom, Means, CodeOf, KStrToULL;
    var k := p + |lead|;
    var n := k + |address|;
    var k' := n + |gap|;
    AtConcat(b, p, lead, address + (gap + (token + rest)));
    AtConcat(b, k, address, gap + (token + rest));
    AtConcat(b, n, gap, token + rest);
    AtConcat(b, k', token, rest);
    forall i | n <= i < k'
      ensures IsSpace(b[i])
    {
      assert Spaces.Has(gap[i - n]);
    }
    KStrToULLIff(address, a);
    AddressField(b, p, lead, address, a);
    if rest != [] {
      assert b[k' + |token|] == rest[0];
    }
    BadField(b, n + 1, k', token);
  }

  /** So is a text that gets stuck at the mask. */
  lemma BadMask(rows: seq<Row>, table: Table, lead: seq<byte>, address: seq<byte>, a: u64, gap: seq<byte>,
                token: seq<byte>, rest: seq<byte>)
    requires DenotesAll(rows, table) && Filler(lead) && All(address, Token) && Means(address, a)
    requires gap != [] && All(gap, Spaces) && Stuck(token, rest)
    ensures Parse(RenderAll(rows) + (lead + (address + (gap + (token + rest))))) == Rejected(StuckCode(token, rest))
  {
    hide Next, DenotesAll, Stuck, StuckCode, Filler, Means, All;
    var tail := lead + (address + (gap + (token + rest)));
    var b := RenderAll(rows) + tail;
    AtSlice(b, 0, b);
    AtConcat(b, 0, RenderAll(rows), tail);
    RowsThen(b, 0, rows, table);
    BadMaskField(b, |RenderAll(rows)|, lead, address, a, gap, token, rest);
  }
}
