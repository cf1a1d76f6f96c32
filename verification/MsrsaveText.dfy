/** Which texts msrsave's parser reads, line by line, and as what. */
module MsrsaveText {
  import opened Words
  import opened Text
  import opened Numerals
  import opened NumeralText
  import opened AllowlistText
  import opened MsrsaveParser

  // ---- Numbers ----

  /** Hexadecimal figures, behind an optional sign and an optional prefix. */
  predicate HexSpelled(t: seq<byte>, sign: nat, prefix: nat, ds: seq<nat>) {
    && ds != [] && sign <= 1 && (prefix == 0 || prefix == 2) && |t| == sign + prefix + |ds|
    && (sign == 1 ==> t[0] as char == '+' || t[0] as char == '-')
    && (prefix == 2 ==> t[sign] as char == '0' && (t[sign + 1] as char == 'x' || t[sign + 1] as char == 'X'))
    && Figures(t[sign + prefix..], ds, 16)
  }

  /** What is too large for 64 bits stands for the largest such number, and a minus for the complement to 2^64. */
  function HexValueOf(t: seq<byte>, ds: seq<nat>): (v: u64) {
    var w := Worth(ds, 16, |ds|);
    if w >= LIMIT then LIMIT - 1
    else if t != [] && t[0] as char == '-' then (if w == 0 then 0 else LIMIT - w)
    else w
  }

  /** The text is a hexadecimal number. */
  ghost predicate HexMeans(t: seq<byte>, v: u64) {
    exists sign: nat, prefix: nat, ds :: HexSpelled(t, sign, prefix, ds) && v == HexValueOf(t, ds)
  }

  lemma BlankIsNoDigit(c: byte)
    ensures IsBlank(c) ==> DigitOf(c) == 16 && !IsX(c) && c != PLUS && c != MINUS
    ensures DigitOf(c) < 16 ==> !IsX(c) && !IsBlank(c) && c != PLUS && c != MINUS && c != HASH
  {}

  /** The figures of a number, wherever it stands. */
  lemma FiguresAt(b: seq<byte>, k: nat, t: seq<byte>, sign: nat, prefix: nat, ds: seq<nat>)
    requires At(b, k, t) && HexSpelled(t, sign, prefix, ds)
    ensures DigitsAt(b, k + sign + prefix, ds, Hexadecimal)
    ensures sign == 1 ==> b[k] == PLUS || b[k] == MINUS
    ensures b[k] == t[0]
    ensures prefix == 2 ==> b[k + sign] == ZERO && IsX(b[k + sign + 1])
  {
    var d := k + sign + prefix;
    assert b[d..d + |ds|] == t[sign + prefix..];
    FiguresAreDigits(b, d, ds, Hexadecimal);
  }

  /** What stands in front of the digits is recognised as such, and no more. */
  lemma ScanFrames(b: seq<byte>, p: nat, k: nat, sign: nat, prefix: nat, ds: seq<nat>)
    requires p <= k <= |b| && RunEnd(b, p, Blanks) == k && sign <= 1 && (prefix == 0 || prefix == 2) && ds != []
    requires DigitsAt(b, k + sign + prefix, ds, Hexadecimal)
    requires sign == 1 ==> b[k] == PLUS || b[k] == MINUS
    requires prefix == 2 ==> b[k + sign] == ZERO && IsX(b[k + sign + 1])
    requires var e := k + sign + prefix + |ds|; e < |b| && IsBlank(b[e])
    ensures var r := DigitRun(b, k + sign + prefix, Hexadecimal, 0);
            ScanHex(b, p) ==
              if r.next == k + sign + prefix then NoMatch
              else if r.value >= LIMIT then Match(LIMIT - 1, r.next)
              else if b[k] == MINUS then Match((LIMIT - r.value) % LIMIT, r.next)
              else Match(r.value, r.next)
  {
    hide DigitOf, IsBlank, DigitRun, IsX;
    var d := k + sign + prefix;
    assert DigitOf(b[d]) == ds[0];
    BlankIsNoDigit(b[d]);
    BlankIsNoDigit(b[d + 1]);
    if |ds| > 1 {
      assert DigitOf(b[d + 1]) == ds[1];
    }
  }

  lemma ScanNumber(b: seq<byte>, p: nat, k: nat, t: seq<byte>, v: u64)
    requires p <= k && At(b, k, t) && HexMeans(t, v) && (forall i | p <= i < k :: IsBlank(b[i]))
    requires k + |t| < |b| && IsBlank(b[k + |t|])
    ensures ScanHex(b, p) == Match(v, k + |t|)
  {
    hide DigitOf, IsBlank, ScanHex, HexSpelled, IsX;
    var sign: nat, prefix: nat, ds :| HexSpelled(t, sign, prefix, ds) && v == HexValueOf(t, ds);
    var d := k + sign + prefix;
    FiguresAt(b, k, t, sign, prefix, ds);
    SpelledLength(t, sign, prefix, ds);
    assert DigitOf(b[d]) == ds[0];
    BlankIsNoDigit(b[d]);
    SignsAreNoBlanks(b[k]);
    BlankIsNoDigit(b[k + |t|]);
    RunEndIs(b, p, Blanks, k);
    ScanFrames(b, p, k, sign, prefix, ds);
    Passes(b, d, ds, Hexadecimal, 0);
    NoDigits(ds, 16);
  }

  lemma SpelledLength(t: seq<byte>, sign: nat, prefix: nat, ds: seq<nat>)
    requires HexSpelled(t, sign, prefix, ds)
    ensures ds != [] && |t| == sign + prefix + |ds| && sign <= 1 && (prefix == 0 || prefix == 2)
  {}

  lemma SignsAreNoBlanks(c: byte)
    ensures c == PLUS || c == MINUS || c == ZERO ==> !IsBlank(c)
  {}

  // ---- Lines ----

  /** Ends with its only newline. */
  predicate IsLine(l: seq<byte>) {
    l != [] && l[|l| - 1] == NEWLINE && forall i | 0 <= i < |l| - 1 :: InLine(l[i])
  }

  /** Optional blanks, an address, blanks, a mask, and anything that starts with a blank. */
  ghost predicate LineMeans(l: seq<byte>, e: Entry, lead: seq<byte>, a: seq<byte>, gap: seq<byte>, m: seq<byte>,
                            rest: seq<byte>) {
    && IsLine(l) && l[0] != HASH && l == lead + (a + (gap + (m + rest)))
    && All(lead, Blanks) && gap != [] && All(gap, Blanks) && rest != [] && IsBlank(rest[0])
    && HexMeans(a, e.msr) && HexMeans(m, e.wmask)
  }

  ghost predicate EntryLine(l: seq<byte>, e: Entry) {
    exists lead, a, gap, m, rest :: LineMeans(l, e, lead, a, gap, m, rest)
  }

  /** The lines that are no comments mean the entries of the table, in order. */
  ghost predicate LinesMean(lines: seq<seq<byte>>, table: Table) {
    if lines == [] then table == []
    else if lines[0] != [] && lines[0][0] == HASH then IsLine(lines[0]) && LinesMean(lines[1..], table)
    else table != [] && EntryLine(lines[0], table[0]) && LinesMean(lines[1..], table[1..])
  }

  function Join(lines: seq<seq<byte>>): seq<byte> {
    if lines == [] then [] else lines[0] + Join(lines[1..])
  }

  lemma LineEnds(b: seq<byte>, p: nat, l: seq<byte>)
    requires At(b, p, l) && IsLine(l)
    ensures NextLine(b, p) == Some(p + |l|) && !AtEnd(b, p) && b[p] == l[0]
  {
    forall i | p <= i < p + |l| - 1
      ensures InLine(b[i])
    {
      assert InLine(l[i - p]);
    }
    assert b[p + |l| - 1] == NEWLINE;
    RunEndIs(b, p, Line, p + |l| - 1);
  }

  lemma LineScans(b: seq<byte>, p: nat, l: seq<byte>, e: Entry)
    requires At(b, p, l) && EntryLine(l, e)
    ensures ScanLine(b, p) == Some(e)
  {
    hide HexMeans, IsBlank;
    var lead, a, gap, m, rest :| LineMeans(l, e, lead, a, gap, m, rest);
    var k := p + |lead|;
    var n := k + |a|;
    var k' := n + |gap|;
    AtConcat(b, p, lead, a + (gap + (m + rest)));
    AtConcat(b, k, a, gap + (m + rest));
    AtConcat(b, n, gap, m + rest);
    AtConcat(b, k', m, rest);
    AllBlank(b, p, lead);
    AllBlank(b, n, gap);
    assert b[n] == gap[0] && b[k' + |m|] == rest[0];
    assert Blanks.Has(gap[0]);
    ScanNumber(b, p, k, a, e.msr);
    ScanNumber(b, n, k', m, e.wmask);
  }

  lemma AllBlank(b: seq<byte>, p: nat, s: seq<byte>)
    requires At(b, p, s) && All(s, Blanks)
    ensures forall i | p <= i < p + |s| :: IsBlank(b[i])
  {
    forall i | p <= i < p + |s|
      ensures IsBlank(b[i])
    {
      assert Blanks.Has(s[i - p]);
    }
  }

  lemma CommentSkips(b: seq<byte>, p: nat, next: nat, n: nat)
    requires p < |b| && b[p] == HASH && NextLine(b, p) == Some(next)
    ensures ScanFrom(b, p, n) == ScanFrom(b, next, n)
  {
    hide NextLine, ScanLine;
    assert SkipComments(b, p) == SkipComments(b, next);
  }

  /** From a line on, both passes see the entries that the lines mean. */
  lemma {:induction false} LinesRead(b: seq<byte>, p: nat, lines: seq<seq<byte>>, table: Table)
    requires At(b, p, Join(lines)) && |b| == p + |Join(lines)| && LinesMean(lines, table)
    ensures CountFrom(b, p) == |table| && ScanFrom(b, p, |table|) == Entries(table)
    decreases |lines|
  {
    hide NextLine, ScanLine, EntryLine, IsLine, ScanFrom;
    if lines == [] {
      NoLines(b, p);
    } else {
      var l, next := lines[0], p + |lines[0]|;
      AtConcat(b, p, l, Join(lines[1..]));
      if l != [] && l[0] == HASH {
        LineEnds(b, p, l);
        LinesRead(b, next, lines[1..], table);
        CommentSkips(b, p, next, |table|);
      } else {
        MeansLine(l, table[0]);
        LineEnds(b, p, l);
        LineScans(b, p, l, table[0]);
        LinesRead(b, next, lines[1..], table[1..]);
        EntryScans(b, p, next, table[0], table[1..]);
        assert table == [table[0]] + table[1..];
      }
    }
  }

  lemma NoLines(b: seq<byte>, p: nat)
    requires p <= |b|
    ensures ScanFrom(b, p, 0) == Entries([])
  {}

  lemma MeansLine(l: seq<byte>, e: Entry)
    requires EntryLine(l, e)
    ensures IsLine(l) && l != [] && l[0] != HASH
  {}

  lemma EntryScans(b: seq<byte>, p: nat, next: nat, e: Entry, rest: Table)
    requires p < |b| && b[p] != HASH && NextLine(b, p) == Some(next) && ScanLine(b, p) == Some(e)
    requires ScanFrom(b, next, |rest|) == Entries(rest)
    ensures ScanFrom(b, p, 1 + |rest|) == Entries([e] + rest)
  {
    hide NextLine, ScanLine;
    assert SkipComments(b, p) == Some(p);
  }

  /** msrsave reads every text of complete lines as the entries that its lines mean. */
  lemma MsrsaveReadsLines(lines: seq<seq<byte>>, table: Table)
    requires LinesMean(lines, table)
    ensures CountFrom(Join(lines), 0) == |table|
    ensures Join(lines) != [] ==> MsrsaveParse(Join(lines)) == Entries(table)
  {
    LinesRead(Join(lines), 0, lines, table);
  }
}
