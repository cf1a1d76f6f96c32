/** How numbers may be written: the texts that kstrtoull accepts and what they mean, digit by digit. */
module NumeralText {
  import opened Words
  import opened Text
  import opened Numerals

  const LOWER := "0123456789abcdef"
  const UPPER := "0123456789ABCDEF"

  /** The bytes of a text. */
  function Ascii(t: string): seq<byte>
    requires forall i | 0 <= i < |t| :: t[i] as int < 0x80
  {
    seq(|t|, i requires 0 <= i < |t| => t[i] as int)
  }

  /** The byte is the figure for `d`, in either case. */
  predicate Figure(c: byte, d: nat) {
    d < 16 && (c as char == LOWER[d] || c as char == UPPER[d])
  }

  /** The text writes the digits `ds` of a base, one figure each. */
  predicate Figures(h: seq<byte>, ds: seq<nat>, base: nat) {
    |h| == |ds| && forall i | 0 <= i < |ds| :: ds[i] < base && Figure(h[i], ds[i])
  }

  /** The number that the first `n` digits make. */
  function Worth(ds: seq<nat>, base: nat, n: nat): nat
    requires n <= |ds|
  {
    if n == 0 then 0 else base * Worth(ds, base, n - 1) + ds[n - 1]
  }

  /** Hexadecimal behind `0x` or `0X`, octal with a zero in front, or decimal without one. */
  predicate Unsigned(t: seq<byte>, base: nat, ds: seq<nat>) {
    ds != [] &&
    if base == 16 then
      |t| >= 2 && t[0] as char == '0' && (t[1] as char == 'x' || t[1] as char == 'X') && Figures(t[2..], ds, 16)
    else if base == 8 then Figures(t, ds, 8) && ds[0] == 0
    else base == 10 && Figures(t, ds, 10) && ds[0] != 0
  }

  /** Such a number, behind an optional plus sign. */
  predicate Spelled(s: seq<byte>, base: nat, ds: seq<nat>) {
    Unsigned(if s != [] && s[0] as char == '+' then s[1..] else s, base, ds)
  }

  /** The text is a way to write the number `v`. */
  ghost predicate Means(s: seq<byte>, v: nat) {
    exists base, ds :: Spelled(s, base, ds) && Worth(ds, base, |ds|) == v
  }

  // ---- Figures are digits ----

  lemma FigureIsDigit(c: byte, d: nat)
    ensures Figure(c, d) <==> d < 16 && DigitOf(c) == d
  {
    if d < 16 {
      assert LOWER[d] as int == if d < 10 then 48 + d else 87 + d;
      assert UPPER[d] as int == if d < 10 then 48 + d else 55 + d;
    }
  }

  function Radixed(base: Base): nat {
    match base
    case Octal => 8
    case Decimal => 10
    case Hexadecimal => 16
  }

  lemma Shifting(base: Base, v: nat, d: nat)
    ensures base.Size() == Radixed(base) && base.Shift(v, d) == Radixed(base) * v + d
  {}

  ghost predicate DigitsAt(s: seq<byte>, p: nat, ds: seq<nat>, base: Base) {
    p + |ds| <= |s| && forall i | 0 <= i < |ds| :: DigitOf(s[p + i]) == ds[i] < base.Size()
  }

  lemma FiguresAreDigits(s: seq<byte>, p: nat, ds: seq<nat>, base: Base)
    requires p + |ds| <= |s|
    ensures DigitsAt(s, p, ds, base) <==> Figures(s[p..p + |ds|], ds, Radixed(base))
  {
    var h := s[p..p + |ds|];
    forall i | 0 <= i < |ds|
      ensures DigitOf(s[p + i]) == ds[i] < base.Size() <==> ds[i] < Radixed(base) && Figure(h[i], ds[i])
    {
      FigureIsDigit(h[i], ds[i]);
    }
  }

  /** The scan passes over digits with their number. */
  lemma {:induction false} Passes(s: seq<byte>, p: nat, ds: seq<nat>, base: Base, i: nat)
    requires DigitsAt(s, p, ds, base) && i <= |ds|
    ensures DigitRun(s, p + i, base, Worth(ds, Radixed(base), i))
            == DigitRun(s, p + |ds|, base, Worth(ds, Radixed(base), |ds|))
    decreases |ds| - i
  {
    hide DigitOf;
    if i < |ds| {
      Shifting(base, Worth(ds, Radixed(base), i), ds[i]);
      Passes(s, p, ds, base, i + 1);
    }
  }

  /** What the scan reads is a run of digits with the value it yields. */
  lemma {:induction false} ReadsDigits(s: seq<byte>, p: nat, base: Base, ds: seq<nat>) returns (all: seq<nat>)
    requires DigitsAt(s, p, ds, base)
    ensures ds <= all && DigitsAt(s, p, all, base)
    ensures DigitRun(s, p + |ds|, base, Worth(ds, Radixed(base), |ds|))
            == Sum(Worth(all, Radixed(base), |all|), p + |all|)
    decreases |s| - p - |ds|
  {
    hide DigitOf;
    var q := p + |ds|;
    if q < |s| && DigitOf(s[q]) < base.Size() {
      var longer := ds + [DigitOf(s[q])];
      SamePrefix(ds, longer, Radixed(base), |ds|);
      Shifting(base, Worth(ds, Radixed(base), |ds|), DigitOf(s[q]));
      all := ReadsDigits(s, p, base, longer);
    } else {
      all := ds;
    }
  }

  lemma {:induction false} SamePrefix(ds: seq<nat>, all: seq<nat>, base: nat, n: nat)
    requires n <= |ds| && ds <= all
    ensures Worth(ds, base, n) == Worth(all, base, n)
  {
    if n > 0 {
      SamePrefix(ds, all, base, n - 1);
    }
  }

  lemma {:induction false} RunGrows(s: seq<byte>, p: nat, base: Base, v: nat)
    requires p <= |s|
    ensures DigitRun(s, p, base, v).value >= v
    decreases |s| - p
  {
    hide DigitOf;
    if p < |s| && DigitOf(s[p]) < base.Size() {
      Shifting(base, v, DigitOf(s[p]));
      RunGrows(s, p + 1, base, base.Shift(v, DigitOf(s[p])));
    }
  }

  // ---- kstrtoull ----

  function Signed(s: seq<byte>): nat {
    if s != [] && s[0] as char == '+' then 1 else 0
  }

  function BaseFor(base: nat): Base {
    if base == 16 then Hexadecimal else if base == 8 then Octal else Decimal
  }

  /** Where the digits of a spelling start. */
  function DigitsFrom(s: seq<byte>, base: nat): nat {
    Signed(s) + if base == 16 then 2 else 0
  }

  /** A spelled number, with anything behind it that does not turn its zero into a prefix, selects its base. */
  lemma RadixOf(s: seq<byte>, n: nat, base: nat, ds: seq<nat>)
    requires n <= |s| && Spelled(s[..n], base, ds) && (n == |s| || |ds| > 1)
    ensures Radix(s, Signed(s)) == (BaseFor(base), DigitsFrom(s, base))
    ensures n == DigitsFrom(s, base) + |ds| && DigitsAt(s, DigitsFrom(s, base), ds, BaseFor(base))
  {
    hide DigitOf;
    var t, k := s[..n], DigitsFrom(s, base);
    var u := if t != [] && t[0] as char == '+' then t[1..] else t;
    assert u == s[Signed(s)..n];
    if base == 16 {
      assert u[2..] == s[k..k + |ds|];
    } else {
      assert u == s[k..k + |ds|];
    }
    FiguresAreDigits(s, k, ds, BaseFor(base));
    assert DigitsAt(s, k, ds, BaseFor(base));
    assert DigitOf(s[k]) == ds[0];
    FirstDigit(s[k]);
    if |ds| > 1 {
      assert DigitOf(s[k + 1]) == ds[1];
      XIsNoDigit(s[k + 1]);
    }
  }

  lemma FirstDigit(c: byte)
    ensures DigitOf(c) == 0 <==> c == ZERO
  {}

  lemma XIsNoDigit(c: byte)
    ensures DigitOf(c) < 16 ==> !IsX(c)
  {}

  /** A spelled number is read as its number, or as out of range from 2^64 on. */
  lemma SpellingIsRead(s: seq<byte>, base: nat, ds: seq<nat>)
    requires Spelled(s, base, ds)
    ensures var v := Worth(ds, base, |ds|); KStrToULL(s) == if v < LIMIT then Num(v) else NoNum(ERANGE)
  {
    hide DigitOf, Radix, Spelled;
    assert s[..|s|] == s;
    RadixOf(s, |s|, base, ds);
    SpelledBase(s, base, ds);
    Passes(s, DigitsFrom(s, base), ds, BaseFor(base), 0);
  }

  lemma SpelledBase(s: seq<byte>, base: nat, ds: seq<nat>)
    requires Spelled(s, base, ds)
    ensures Radixed(BaseFor(base)) == base && ds != []
  {}

  /** The digits that kstrtoull has read, with the text up to their end as their spelling. */
  lemma ReadIsSpelled(s: seq<byte>) returns (n: nat, base: nat, ds: seq<nat>)
    requires var (b, d) := Radix(s, Signed(s)); DigitRun(s, d, b, 0).next > d
    ensures var (b, d) := Radix(s, Signed(s));
            var r := DigitRun(s, d, b, 0);
            n == r.next <= |s| && Spelled(s[..n], base, ds) && Worth(ds, base, |ds|) == r.value
  {
    hide DigitOf, DigitRun, Worth, Figure, Figures;
    var (b, d) := Radix(s, Signed(s));
    base := Radixed(b);
    NoDigits([], base);
    ds := ReadsDigits(s, d, b, []);
    n := d + |ds|;
    FiguresAreDigits(s, d, ds, b);
    FirstDigit(s[d]);
    var t := s[..n];
    var u := if t != [] && t[0] as char == '+' then t[1..] else t;
    assert u == s[Signed(s)..n];
    assert DigitOf(s[d]) == ds[0];
    if b.Hexadecimal? {
      assert u[2..] == s[d..d + |ds|];
    } else {
      assert u == s[d..d + |ds|];
    }
  }

  /** kstrtoull accepts exactly the spelled numbers below 2^64, and reads them as what they mean. */
  lemma KStrToULLIff(s: seq<byte>, v: u64)
    ensures KStrToULL(s) == Num(v) <==> Means(s, v)
  {
    hide Spelled, Radix, DigitRun, Worth;
    PlusIs(s);
    if KStrToULL(s) == Num(v) {
      var n, base, ds := ReadIsSpelled(s);
      assert s[..n] == s;
    }
    forall base, ds | Spelled(s, base, ds) && Worth(ds, base, |ds|) == v
      ensures KStrToULL(s) == Num(v)
    {
      SpellingIsRead(s, base, ds);
    }
  }

  lemma PlusIs(s: seq<byte>)
    ensures Signed(s) == if s != [] && s[0] == PLUS then 1 else 0
  {}

  /** Some beginning of the text spells a number from 2^64 on. */
  ghost predicate Overflows(s: seq<byte>) {
    exists n: nat, base, ds :: n <= |s| && Spelled(s[..n], base, ds) && Worth(ds, base, |ds|) >= LIMIT
  }

  /** It reports a range error exactly if some beginning of the text overflows, whatever follows. */
  lemma RangeErrorIff(s: seq<byte>)
    ensures KStrToULL(s) == NoNum(ERANGE) <==> Overflows(s)
  {
    hide Spelled, Radix, DigitRun, Worth;
    PlusIs(s);
    if KStrToULL(s) == NoNum(ERANGE) {
      RunStart(s);
      var n, base, ds := ReadIsSpelled(s);
    }
    if Overflows(s) {
      var n: nat, base, ds :| n <= |s| && Spelled(s[..n], base, ds) && Worth(ds, base, |ds|) >= LIMIT;
      SpelledBase(s[..n], base, ds);
      OneDigit(ds, base, s[..n]);
      RadixOf(s, n, base, ds);
      var b := BaseFor(base);
      Passes(s, DigitsFrom(s, base), ds, b, 0);
      NoDigits(ds, base);
      RunGrows(s, n, b, Worth(ds, base, |ds|));
    }
  }

  lemma NoDigits(ds: seq<nat>, base: nat)
    ensures Worth(ds, base, 0) == 0
  {}

  lemma RunStart(s: seq<byte>)
    ensures var (b, d) := Radix(s, Signed(s)); DigitRun(s, d, b, 0).value > 0 ==> DigitRun(s, d, b, 0).next > d
  {
    hide Radix;
  }

  lemma OneIsSmall(ds: seq<nat>, base: nat, s: seq<byte>)
    requires Spelled(s, base, ds)
    ensures |ds| == 1 ==> Worth(ds, base, |ds|) < 16
  {
    if |ds| == 1 {
      NoDigits(ds, base);
      assert base * Worth(ds, base, 0) == 0;
      assert ds[0] < 16;
    }
  }

  lemma OneDigit(ds: seq<nat>, base: nat, s: seq<byte>)
    requires Spelled(s, base, ds) && Worth(ds, base, |ds|) >= LIMIT
    ensures |ds| > 1
  {
    hide Figures;
    NoDigits(ds, base);
    OneIsSmall(ds, base, s);
  }

  /** Every other text is refused as no number. */
  lemma OtherwiseInvalid(s: seq<byte>)
    requires !Overflows(s) && forall v: u64 :: !Means(s, v)
    ensures KStrToULL(s) == NoNum(EINVAL)
  {
    hide KStrToULL, Means, Overflows;
    RangeErrorIff(s);
    var r := KStrToULL(s);
    if r.Num? {
      KStrToULLIff(s, r.value);
    }
  }

  // ---- Every number can be written ----

  lemma Divide(v: nat, base: nat) returns (quotient: nat, digit: nat)
    requires (base == 8 || base == 10 || base == 16) && base <= v
    ensures v == base * quotient + digit && digit < base && 0 < quotient < v
  {
    if base == 8 {
      quotient, digit := v / 8, v % 8;
    } else if base == 10 {
      quotient, digit := v / 10, v % 10;
    } else {
      quotient, digit := v / 16, v % 16;
    }
  }

  /** The digits of `v`, without leading zeros. */
  lemma {:induction false} Digits(v: nat, base: nat) returns (ds: seq<nat>)
    requires base == 8 || base == 10 || base == 16
    ensures ds != [] && (forall i | 0 <= i < |ds| :: ds[i] < base)
    ensures Worth(ds, base, |ds|) == v && (ds[0] == 0 ==> v == 0)
    decreases v
  {
    if v < base {
      ds := [v];
      NoDigits(ds, base);
    } else {
      var quotient, digit := Divide(v, base);
      var high := Digits(quotient, base);
      ds := high + [digit];
      SamePrefix(high, ds, base, |high|);
    }
  }

  function FigureOf(d: nat, upper: bool): byte
    requires d < 16
  {
    if d < 10 then 48 + d else if upper then 55 + d else 87 + d
  }

  lemma FigureOfIs(d: nat, upper: bool)
    requires d < 16
    ensures FigureOf(d, upper) as char == if upper then UPPER[d] else LOWER[d]
    ensures Figure(FigureOf(d, upper), d) && FigureOf(d, upper) as char != '+'
  {}

  lemma {:induction false} LeadingZero(ds: seq<nat>, base: nat, n: nat)
    requires n <= |ds|
    ensures Worth([0] + ds, base, n + 1) == Worth(ds, base, n)
  {
    if n > 0 {
      LeadingZero(ds, base, n - 1);
    } else {
      NoDigits([0] + ds, base);
    }
  }

  /** The digits in the chosen cases. */
  function Plain(ds: seq<nat>, upper: nat -> bool): (h: seq<byte>)
    requires forall i | 0 <= i < |ds| :: ds[i] < 16
    ensures |h| == |ds|
  {
    seq<byte>(|ds|, i requires 0 <= i < |ds| => FigureOf(ds[i], upper(i)))
  }

  lemma PlainIsFigures(ds: seq<nat>, base: nat, upper: nat -> bool)
    requires base <= 16 && forall i | 0 <= i < |ds| :: ds[i] < base
    ensures Figures(Plain(ds, upper), ds, base)
    ensures forall i | 0 <= i < |ds| :: Plain(ds, upper)[i] as char != '+'
  {
    hide FigureOf, Figure;
    forall i | 0 <= i < |ds|
      ensures Figure(Plain(ds, upper)[i], ds[i]) && Plain(ds, upper)[i] as char != '+'
    {
      FigureOfIs(ds[i], upper(i));
    }
  }

  lemma UnsignedIs(h: seq<byte>, base: nat, ds: seq<nat>)
    requires Figures(h, ds, base) && ds != []
    requires (base == 8 && ds[0] == 0) || (base == 10 && ds[0] != 0) || base == 16
    ensures Unsigned((if base == 16 then Ascii("0x") else []) + h, base, ds)
  {
    hide Figures;
    if base == 16 {
      assert (Ascii("0x") + h)[2..] == h;
    } else {
      assert [] + h == h;
    }
  }

  lemma SignedIs(t: seq<byte>, base: nat, ds: seq<nat>, plus: bool)
    requires Unsigned(t, base, ds) && t != [] && t[0] as char != '+'
    ensures Spelled((if plus then Ascii("+") else []) + t, base, ds)
  {
    hide Unsigned;
    if plus {
      assert (Ascii("+") + t)[1..] == t;
    } else {
      assert [] + t == t;
    }
  }

  /** Every positive number can be written in each base, with any choice of cases and with or without a plus. */
  lemma EveryNumberIsSpelled(v: nat, base: nat, plus: bool, upper: nat -> bool) returns (s: seq<byte>, ds: seq<nat>)
    requires v > 0 && (base == 8 || base == 10 || base == 16)
    ensures (forall i | 0 <= i < |ds| :: ds[i] < 16) && Spelled(s, base, ds) && Worth(ds, base, |ds|) == v
    ensures s == (if plus then Ascii("+") else []) + ((if base == 16 then Ascii("0x") else []) + Plain(ds, upper))
  {
    hide Plain, Figures, Unsigned, Spelled;
    var short := Digits(v, base);
    ds := short;
    if base == 8 {
      ds := [0] + short;
      LeadingZero(short, base, |short|);
    }
    var h := Plain(ds, upper);
    var prefix := if base == 16 then Ascii("0x") else [];
    PlainIsFigures(ds, base, upper);
    UnsignedIs(h, base, ds);
    SignedIs(prefix + h, base, ds, plus);
    s := (if plus then Ascii("+") else []) + (prefix + h);
  }
}
