/** parse_next_allowlist_entry: the parser that ends each number in place and puts the delimiter back. */
module AllowlistParser {
  import opened Words
  import opened Text
  import opened Numerals
  import opened AllowlistText

  /** The text in a NUL-terminated buffer of `count` bytes and the terminator. */
  ghost function Content(kbuf: array<byte>): seq<byte>
    requires kbuf.Length > 0
    reads kbuf
  {
    kbuf[..kbuf.Length - 1]
  }

  ghost predicate Terminated(kbuf: array<byte>)
    reads kbuf
  {
    kbuf.Length > 0 && kbuf[kbuf.Length - 1] == NUL
  }

  /** The delimiter that is still overwritten when reading a number at `p` fails. */
  ghost function FieldPoke(b: seq<byte>, p: nat): Option<nat>
    requires p <= |b|
  {
    var e := RunEnd(b, RunEnd(b, p, Spaces), Token);
    if e == |b| || b[e] == NUL then None else Some(e)
  }

  ghost function NextPoke(b: seq<byte>, p: nat): Option<nat>
    requires p <= |b|
  {
    var k := BlankEnd(b, p);
    match Field(b, k)
    case Bad(_) => FieldPoke(b, k)
    case Number(_, n) => FieldPoke(b, n)
  }

  /** `b` after a failed parse at `p`. */
  ghost function Poked(b: seq<byte>, at: Option<nat>): seq<byte>
    requires at.Some? ==> at.value < |b|
  {
    if at.Some? then b[at.value := NUL] else b
  }

  method SkipSpaces(kbuf: array<byte>, start: nat) returns (s: nat)
    requires Terminated(kbuf) && start < kbuf.Length
    ensures s == RunEnd(Content(kbuf), start, Spaces)
  {
    s := start;
    ghost var b := Content(kbuf);
    while IsSpace(kbuf[s])
      invariant start <= s <= |b|
      invariant RunEnd(b, s, Spaces) == RunEnd(b, start, Spaces)
      decreases |b| - s
    {
      s := s + 1;
    }
  }

  /** Cutting a token off with a NUL makes it the C string that starts there. */
  lemma CutToken(b: seq<byte>, full: seq<byte>, k: nat, e: nat)
    requires k <= e < |b| && |full| == |b| + 1 && b == full[..|b|]
    requires e == RunEnd(b, k, Token)
    ensures CString(full[e := NUL], k) == b[k..e]
  {
    RunEndBytes(b, k, Token);
    var cut := full[e := NUL];
    forall i | k <= i < e
      ensures Chars.Has(cut[i])
    {
      assert Token.Has(b[i]);
    }
    RunEndIs(cut, k, Chars, e);
    forall i | k <= i < e
      ensures cut[i] == b[i]
    {
      assert full[i] == full[..|b|][i];
    }
    assert cut[k..e] == b[k..e];
  }

  /** One turn of the loop over the two numbers of an entry. */
  method ReadField(kbuf: array<byte>, start: nat) returns (err: int, value: u64, s: nat)
    requires Terminated(kbuf) && start < kbuf.Length
    modifies kbuf
    ensures match Field(old(Content(kbuf)), start)
            case Bad(code) => err == code && kbuf[..] == Poked(old(kbuf[..]), FieldPoke(old(Content(kbuf)), start))
            case Number(v, n) => err == 0 && value == v && s == n && kbuf[..] == old(kbuf[..])
  {
    hide KStrToULL;
    ghost var b, full := Content(kbuf), kbuf[..];
    value := 0;
    var s2 := SkipSpaces(kbuf, start);
    s := s2;
    while !IsSpace(kbuf[s]) && kbuf[s] != NUL
      invariant s2 <= s <= |b| && kbuf[..] == full
      invariant RunEnd(b, s, Token) == RunEnd(b, s2, Token)
      decreases |b| - s
    {
      s := s + 1;
    }
    if kbuf[s] == NUL {
      return EILSEQ, value, s;
    }
    var tmp := kbuf[s];
    kbuf[s] := NUL;
    CutToken(b, full, s2, s);
    assert kbuf[..] == full[s := NUL];
    match KStrToULL(CString(kbuf[..], s2)) {
      case NoNum(code) =>
        return code, value, s;
      case Num(v) =>
        value := v;
    }
    kbuf[s] := tmp;
    assert kbuf[..] == full;
    s := s + 1;
    err := 0;
  }

  /** Skips what stands in front of an entry. */
  method SkipBlank(kbuf: array<byte>, inbuf: nat) returns (s: nat)
    requires Terminated(kbuf) && inbuf < kbuf.Length
    ensures s == BlankEnd(Content(kbuf), inbuf)
  {
    ghost var b := Content(kbuf);
    s := SkipSpaces(kbuf, inbuf);
    RunEndBytes(b, inbuf, Spaces);
    BlankAfterSpaces(b, inbuf, s);
    while kbuf[s] == HASH
      invariant inbuf <= s <= |b|
      invariant s < |b| ==> !IsSpace(b[s])
      invariant BlankEnd(b, s) == BlankEnd(b, inbuf)
      decreases |b| - s
    {
      ghost var s0 := s;
      s := s + 1;
      while kbuf[s] != NUL && kbuf[s] != NEWLINE
        invariant s0 < s <= |b|
        invariant RunEnd(b, s, Line) == RunEnd(b, s0 + 1, Line)
        decreases |b| - s
      {
        s := s + 1;
      }
      ghost var s1 := s;
      s := SkipSpaces(kbuf, s);
      RunEndBytes(b, s1, Spaces);
      BlankAfterSpaces(b, s1, s);
    }
  }

  /**
    * Reads the entry at `inbuf`. A null `table` asks for no entry to be stored; otherwise it goes to slot
    * `entry`, which need only exist when there is an entry to store.
    */
  method ParseNext(kbuf: array<byte>, inbuf: nat, table: array?<Entry>, entry: nat) returns (res: int, next: nat)
    requires Terminated(kbuf) && inbuf < kbuf.Length
    requires table != null && Next(Content(kbuf), inbuf).Item? ==> entry < table.Length
    modifies kbuf, if table == null then {} else {table}
    ensures match Next(old(Content(kbuf)), inbuf)
            case Done =>
              res == 0 && next == inbuf && kbuf[..] == old(kbuf[..])
            case Fail(code) =>
              res == code && next == inbuf && kbuf[..] == Poked(old(kbuf[..]), NextPoke(old(Content(kbuf)), inbuf))
            case Item(e, n) =>
              res == n - inbuf && next == n && kbuf[..] == old(kbuf[..])
    ensures table != null ==>
              table[..] == match Next(old(Content(kbuf)), inbuf)
                           case Item(e, _) => old(table[..])[entry := e]
                           case _ => old(table[..])
  {
    hide KStrToULL, Field, FieldPoke, RunEnd, BlankEnd;
    var s := SkipBlank(kbuf, inbuf);
    if kbuf[s] == NUL {
      return 0, inbuf;
    }
    var err, msr, wmask;
    err, msr, s := ReadField(kbuf, s);
    if err != 0 {
      return err, inbuf;
    }
    err, wmask, s := ReadField(kbuf, s);
    if err != 0 {
      return err, inbuf;
    }
    if table != null {
      table[entry] := Entry(msr, wmask);
    }
    res, next := s - inbuf, s;
  }
}
