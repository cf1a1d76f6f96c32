/** Byte classes and runs: the scanning vocabulary shared by the two allowlist parsers. */
module Text {
  import opened Words

  const NUL: byte := 0
  const NEWLINE: byte := 10
  const SPACE: byte := 32
  const HASH: byte := 35
  const PLUS: byte := 43
  const MINUS: byte := 45
  const ZERO: byte := 48
  const LOWER_X: byte := 120

  /** The kernel's isspace: the C locale's blanks and the no-break space 0xA0. */
  predicate IsSpace(c: byte) {
    9 <= c <= 13 || c == SPACE || c == 0xA0
  }

  /** White space of the C locale, as sscanf sees it. */
  predicate IsBlank(c: byte) {
    9 <= c <= 13 || c == SPACE
  }

  lemma SpaceBytes(c: byte)
    ensures IsSpace(c) <==> c in {9, 10, 11, 12, 13, 32, 160}
    ensures IsBlank(c) <==> c in {9, 10, 11, 12, 13, 32}
  {}

  predicate InLine(c: byte) {
    c != NUL && c != NEWLINE
  }

  predicate InToken(c: byte) {
    c != NUL && !IsSpace(c)
  }

  /** The value of a hexadecimal digit, or 16 for any other byte. */
  function DigitOf(c: byte): (d: nat)
    ensures d <= 16
  {
    if 48 <= c <= 57 then c - 48
    else if 65 <= c <= 70 then c - 55
    else if 97 <= c <= 102 then c - 87
    else 16
  }

  datatype Base = Octal | Decimal | Hexadecimal {
    function Size(): (n: nat)
      ensures n <= 16
    {
      match this
      case Octal => 8
      case Decimal => 10
      case Hexadecimal => 16
    }

    /** One more place in front of the digit `d`. */
    function Shift(v: nat, d: nat): nat {
      match this
      case Octal => 8 * v + d
      case Decimal => 10 * v + d
      case Hexadecimal => 16 * v + d
    }
  }

  /** The kinds of bytes that scanning runs over. */
  datatype Class = Spaces | Blanks | Line | Token | Chars {
    predicate Has(c: byte) {
      match this
      case Spaces => IsSpace(c)
      case Blanks => IsBlank(c)
      case Line => InLine(c)
      case Token => InToken(c)
      case Chars => c != NUL
    }
  }

  predicate All(t: seq<byte>, q: Class) {
    forall i | 0 <= i < |t| :: q.Has(t[i])
  }

  /** `s` stands in `b` at position `p`. */
  predicate At(b: seq<byte>, p: nat, s: seq<byte>) {
    p + |s| <= |b| && forall i | 0 <= i < |s| :: s[i] == b[p + i]
  }

  /** The first position from `p` on whose byte fails `q`. */
  function RunEnd(b: seq<byte>, p: nat, q: Class): (e: nat)
    requires p <= |b|
    ensures p <= e <= |b|
    decreases |b| - p
  {
    if p < |b| && q.Has(b[p]) then RunEnd(b, p + 1, q) else p
  }

  /** The C string that starts at `p`. */
  function CString(b: seq<byte>, p: nat): seq<byte>
    requires p <= |b|
  {
    b[p..RunEnd(b, p, Chars)]
  }

  /** Where an entry may start: past whitespace and comments. A comment ends before its newline. */
  function BlankEnd(b: seq<byte>, p: nat): (e: nat)
    requires p <= |b|
    ensures p <= e <= |b|
    ensures e < |b| ==> !IsSpace(b[e]) && b[e] != HASH
    decreases |b| - p
  {
    if p == |b| then p
    else if IsSpace(b[p]) then BlankEnd(b, p + 1)
    else if b[p] == HASH then BlankEnd(b, RunEnd(b, p + 1, Line))
    else p
  }

  /** From `p` on, `t` is nothing but whitespace and complete comment lines. */
  predicate FillerFrom(t: seq<byte>, p: nat)
    requires p <= |t|
    decreases |t| - p
  {
    p == |t|
    || (IsSpace(t[p]) && FillerFrom(t, p + 1))
    || (t[p] == HASH && var e := RunEnd(t, p + 1, Line); e < |t| && t[e] == NEWLINE && FillerFrom(t, e))
  }

  predicate Filler(t: seq<byte>) {
    FillerFrom(t, 0)
  }

  /** From `p` on, `t` holds no entry: blanks and comments up to the end of the string. */
  predicate EndingFrom(t: seq<byte>, p: nat)
    requires p <= |t|
    decreases |t| - p
  {
    p == |t|
    || t[p] == NUL
    || (IsSpace(t[p]) && EndingFrom(t, p + 1))
    || (t[p] == HASH && EndingFrom(t, RunEnd(t, p + 1, Line)))
  }

  predicate Ending(t: seq<byte>) {
    EndingFrom(t, 0)
  }

  lemma AtConcat(b: seq<byte>, p: nat, x: seq<byte>, y: seq<byte>)
    ensures At(b, p, x + y) <==> At(b, p, x) && At(b, p + |x|, y)
  {
    assert forall i | 0 <= i < |x| :: x[i] == (x + y)[i];
    assert forall i | 0 <= i < |y| :: y[i] == (x + y)[|x| + i];
  }

  lemma AtSlice(b: seq<byte>, p: nat, s: seq<byte>)
    requires p + |s| <= |b|
    ensures At(b, p, s) <==> b[p..p + |s|] == s
  {
    if b[p..p + |s|] == s {
      assert forall i | 0 <= i < |s| :: s[i] == b[p + i];
    }
  }

  lemma {:induction false} RunEndBytes(b: seq<byte>, p: nat, q: Class)
    requires p <= |b|
    ensures forall i | p <= i < RunEnd(b, p, q) :: q.Has(b[i])
    ensures var e := RunEnd(b, p, q); e < |b| ==> !q.Has(b[e])
    decreases |b| - p
  {
    if p < |b| && q.Has(b[p]) {
      RunEndBytes(b, p + 1, q);
    }
  }

  lemma RunEndIs(b: seq<byte>, p: nat, q: Class, e: nat)
    requires p <= e <= |b|
    requires forall i | p <= i < e :: q.Has(b[i])
    requires e < |b| ==> !q.Has(b[e])
    ensures RunEnd(b, p, q) == e
  {
    RunEndBytes(b, p, q);
  }

  /** A run over `s` ends behind it when the next byte does not continue it. */
  lemma RunOver(b: seq<byte>, p: nat, s: seq<byte>, q: Class)
    requires At(b, p, s) && All(s, q)
    requires p + |s| < |b| ==> !q.Has(b[p + |s|])
    ensures RunEnd(b, p, q) == p + |s|
  {
    forall i | p <= i < p + |s|
      ensures q.Has(b[i])
    {
      assert q.Has(s[i - p]);
    }
    RunEndIs(b, p, q, p + |s|);
  }

  /** A run that ends inside `s` ends there in every text that holds `s`. */
  lemma RunInside(b: seq<byte>, p: nat, s: seq<byte>, i: nat, q: Class)
    requires At(b, p, s) && i <= |s| && RunEnd(s, i, q) < |s|
    ensures RunEnd(b, p + i, q) == p + RunEnd(s, i, q)
  {
    RunEndBytes(s, i, q);
    var e := RunEnd(s, i, q);
    forall k | p + i <= k < p + e
      ensures q.Has(b[k])
    {
      assert q.Has(s[k - p]);
    }
    assert !q.Has(s[e]);
    RunEndIs(b, p + i, q, p + e);
  }

  /** Skipping starts afresh behind a run of spaces. */
  lemma {:induction false} BlankAfterSpaces(b: seq<byte>, p: nat, k: nat)
    requires p <= k <= |b|
    requires forall i | p <= i < k :: IsSpace(b[i])
    ensures BlankEnd(b, p) == BlankEnd(b, k)
    decreases k - p
  {
    if p < k {
      BlankAfterSpaces(b, p + 1, k);
    }
  }

  lemma {:induction false} BlankOverFiller(b: seq<byte>, p: nat, f: seq<byte>, i: nat)
    requires At(b, p, f) && i <= |f| && FillerFrom(f, i)
    ensures BlankEnd(b, p + i) == BlankEnd(b, p + |f|)
    decreases |f| - i
  {
    if i < |f| {
      if IsSpace(f[i]) {
        BlankOverFiller(b, p, f, i + 1);
      } else {
        RunInside(b, p, f, i + 1, Line);
        BlankOverFiller(b, p, f, RunEnd(f, i + 1, Line));
      }
    }
  }

  /** What is skipped in front of an entry is filler. */
  lemma {:induction false} BlankIsFiller(b: seq<byte>, p: nat, k: nat, f: seq<byte>, i: nat)
    requires p + i <= k < |b| && b[k] != NUL && f == b[p..k] && k == BlankEnd(b, p + i)
    ensures FillerFrom(f, i)
    decreases k - i
  {
    if p + i < k {
      if IsSpace(b[p + i]) {
        BlankIsFiller(b, p, k, f, i + 1);
      } else {
        RunEndBytes(b, p + i + 1, Line);
        var e := RunEnd(b, p + i + 1, Line);
        assert b[e] == NEWLINE;
        RunEndIs(f, i + 1, Line, e - p);
        BlankIsFiller(b, p, k, f, e - p);
      }
    }
  }

  lemma {:induction false} EndingIff(b: seq<byte>, p: nat, t: seq<byte>, i: nat)
    requires p + |t| == |b| && t == b[p..] && i <= |t|
    ensures EndingFrom(t, i) <==> (BlankEnd(b, p + i) == |b| || b[BlankEnd(b, p + i)] == NUL)
    decreases |t| - i
  {
    if i < |t| {
      if IsSpace(t[i]) {
        EndingIff(b, p, t, i + 1);
      } else if t[i] == HASH {
        RunEndBytes(t, i + 1, Line);
        RunEndIs(b, p + i + 1, Line, p + RunEnd(t, i + 1, Line));
        EndingIff(b, p, t, RunEnd(t, i + 1, Line));
      }
    }
  }
}
