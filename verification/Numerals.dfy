/** Unsigned numerals: the kernel's kstrtoull, C's hexadecimal printing and scanning. */
module Numerals {
  import opened Words
  import opened Text

  const LIMIT := 0x1_0000_0000_0000_0000

  datatype Sum = Sum(value: nat, next: nat)

  /** The digits from `p` on, added to the value `v` of the digits before them. */
  function DigitRun(s: seq<byte>, p: nat, base: Base, v: nat): (r: Sum)
    requires p <= |s|
    ensures p <= r.next <= |s|
    decreases |s| - p
  {
    if p < |s| && DigitOf(s[p]) < base.Size() then DigitRun(s, p + 1, base, base.Shift(v, DigitOf(s[p])))
    else Sum(v, p)
  }

  /** The value of the first `n` digits of `h`, most significant digit first. */
  function Value(h: seq<byte>, n: nat): nat
    requires n <= |h|
  {
    if n == 0 then 0 else 16 * Value(h, n - 1) + DigitOf(h[n - 1])
  }

  predicate HexText(h: seq<byte>) {
    h != [] && forall i | 0 <= i < |h| :: DigitOf(h[i]) < 16
  }

  /** Scanning a digit string yields its value. */
  lemma {:induction false} DigitsHaveValue(s: seq<byte>, p: nat, h: seq<byte>, i: nat)
    requires At(s, p, h) && HexText(h) && i <= |h|
    requires p + |h| < |s| ==> DigitOf(s[p + |h|]) == 16
    ensures DigitRun(s, p + i, Hexadecimal, Value(h, i)) == Sum(Value(h, |h|), p + |h|)
    decreases |h| - i
  {
    if i < |h| {
      assert h[i] == s[p + i];
      DigitsHaveValue(s, p, h, i + 1);
    }
  }

  lemma {:induction false} ValueOfPrefix(h: seq<byte>, c: byte, n: nat)
    requires n <= |h|
    ensures Value(h + [c], n) == Value(h, n)
  {
    if n > 0 {
      ValueOfPrefix(h, c, n - 1);
    }
  }

  predicate IsX(c: byte) {
    c == 88 || c == 120
  }

  /** Base and start of the digits: `0x` in front of a hexadecimal digit selects 16, another leading zero 8. */
  function Radix(s: seq<byte>, p: nat): (r: (Base, nat))
    requires p <= |s|
    ensures p <= r.1 <= |s|
  {
    if p < |s| && s[p] == ZERO then
      if p + 2 < |s| && IsX(s[p + 1]) && DigitOf(s[p + 2]) < 16 then (Hexadecimal, p + 2) else (Octal, p)
    else
      (Decimal, p)
  }

  datatype Numeral = Num(value: u64) | NoNum(code: int)

  /** kstrtoull with base 0, on a string without a newline. Overflow is reported before trailing garbage. */
  function KStrToULL(s: seq<byte>): (r: Numeral)
    ensures r.NoNum? ==> r.code == EINVAL || r.code == ERANGE
  {
    var (base, d) := Radix(s, if s != [] && s[0] == PLUS then 1 else 0);
    var r := DigitRun(s, d, base, 0);
    if r.value >= LIMIT then NoNum(ERANGE)
    else if r.next == d || r.next < |s| then NoNum(EINVAL)
    else Num(r.value)
  }

  /** The upper-case hexadecimal digit of a value. */
  function HexDigit(d: nat): (c: byte)
    requires d < 16
    ensures DigitOf(c) == d
    ensures InToken(c) && InLine(c) && !IsX(c)
  {
    if d < 10 then 48 + d else 55 + d
  }

  /** `%0<width>llX`: upper-case hexadecimal, zero-padded to at least `width` digits. */
  function Hex(v: nat, width: nat): seq<byte>
    decreases v + width
  {
    if v < 16 && width <= 1 then
      [HexDigit(v)]
    else
      Hex(v / 16, if width > 0 then width - 1 else 0) + [HexDigit(v % 16)]
  }

  /** Printing loses nothing: the digits have the value that was printed. */
  lemma {:induction false} HexValue(v: nat, width: nat)
    ensures var h := Hex(v, width); HexText(h) && |h| >= width && Value(h, |h|) == v
    ensures forall i | 0 <= i < |Hex(v, width)| :: InToken(Hex(v, width)[i])
    decreases v + width
  {
    hide DigitOf, InToken, HexDigit;
    if !(v < 16 && width <= 1) {
      var w: nat := if width > 0 then width - 1 else 0;
      var h, c := Hex(v / 16, w), HexDigit(v % 16);
      HexValue(v / 16, w);
      ValueOfPrefix(h, c, |h|);
      assert Hex(v, width) == h + [c];
    }
  }

  function Pow16(n: nat): (p: nat)
    ensures p >= 1
  {
    if n == 0 then 1 else 16 * Pow16(n - 1)
  }

  /** The padding is the only reason for a numeral longer than its value needs. */
  lemma {:induction false} HexLength(v: nat, width: nat, n: nat)
    requires v < Pow16(n) && width <= n && n > 0
    ensures |Hex(v, width)| <= n
    decreases n
  {
    if !(v < 16 && width <= 1) {
      HexLength(v / 16, if width > 0 then width - 1 else 0, n - 1);
    }
  }

  /** A numeral of `n` digits has a value below 16^n. */
  lemma {:induction false} ValueBound(h: seq<byte>, n: nat)
    requires HexText(h) && n <= |h|
    ensures Value(h, n) < Pow16(n)
  {
    if n > 0 {
      ValueBound(h, n - 1);
    }
  }

  lemma HexLength64(v: u64, width: nat)
    requires width <= 16
    ensures |Hex(v, width)| <= 16
  {
    assert Pow16(4) == 0x1_0000;
    assert Pow16(8) == 0x1_0000_0000;
    assert Pow16(12) == 0x1_0000_0000_0000;
    assert Pow16(16) == LIMIT;
    HexLength(v, width, 16);
  }

  /** Eight digits suffice exactly for 32-bit values. */
  lemma HexLength32(v: nat)
    ensures |Hex(v, 8)| == 8 <==> v < 0x1_0000_0000
  {
    assert Pow16(4) == 0x1_0000;
    assert Pow16(8) == 0x1_0000_0000;
    HexValue(v, 8);
    if v < 0x1_0000_0000 {
      HexLength(v, 8, 8);
    } else {
      ValueBound(Hex(v, 8), |Hex(v, 8)|);
    }
  }

  /** kstrtoull reads a digit string behind `0x` as the value of its digits. */
  lemma KStrToULLOf(h: seq<byte>, v: u64)
    requires HexText(h) && Value(h, |h|) == v
    ensures KStrToULL([ZERO, LOWER_X] + h) == Num(v)
  {
    var s := [ZERO, LOWER_X] + h;
    assert s[2] == h[0];
    DigitsHaveValue(s, 2, h, 0);
  }

  /** kstrtoull reads back every number printed with a `0x` prefix. */
  lemma KStrToULLOfHex(v: u64, width: nat)
    ensures KStrToULL([ZERO, LOWER_X] + Hex(v, width)) == Num(v)
  {
    HexValue(v, width);
    KStrToULLOf(Hex(v, width), v);
  }

  /** A numeral never starts like a comment. */
  lemma NumeralIsNoComment(s: seq<byte>)
    requires KStrToULL(s).Num?
    ensures s != [] && s[0] != HASH
  {}

  datatype Scan = NoMatch | Match(value: u64, next: nat)

  /**
    * A `%zX` conversion (section 7.21.6.2 of ISO C11): skipped white space, an optional sign, an optional
    * `0x` and the digits. A `0x` without a digit after it is a matching failure. As strtoull does, a value
    * out of range becomes the largest one and a minus sign negates modulo 2^64.
    */
  function ScanHex(b: seq<byte>, p: nat): (r: Scan)
    requires p <= |b|
    ensures r.Match? ==> p < r.next <= |b|
  {
    var k := RunEnd(b, p, Blanks);
    var minus := k < |b| && b[k] == MINUS;
    var x := if minus || (k < |b| && b[k] == PLUS) then k + 1 else k;
    var d := if x + 1 < |b| && b[x] == ZERO && IsX(b[x + 1]) then x + 2 else x;
    var r := DigitRun(b, d, Hexadecimal, 0);
    if r.next == d then NoMatch
    else if r.value >= LIMIT then Match(LIMIT - 1, r.next)
    else if minus then Match((LIMIT - r.value) % LIMIT, r.next)
    else Match(r.value, r.next)
  }

  /** The conversion reads blanks, `0x` and a digit string as the value of the digits. */
  lemma ScanHexOf(b: seq<byte>, p: nat, k: nat, h: seq<byte>, v: u64)
    requires p <= k <= |b| && RunEnd(b, p, Blanks) == k
    requires k + 2 < |b| && b[k] == ZERO && b[k + 1] == LOWER_X
    requires At(b, k + 2, h) && HexText(h) && Value(h, |h|) == v
    requires k + 2 + |h| < |b| ==> DigitOf(b[k + 2 + |h|]) == 16
    ensures ScanHex(b, p) == Match(v, k + 2 + |h|)
  {
    DigitsHaveValue(b, k + 2, h, 0);
  }
}
