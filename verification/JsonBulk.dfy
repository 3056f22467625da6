/** Exactly when the bulk copy changes what a string is read as. */
module JsonBulk {
  import opened Bytes
  import opened JsonText

  /** The next token is an escape of a low surrogate. */
  predicate LowSurrogateNext(t: seq<Byte>) {
    && |t| >= 6 && t[0] == 0x5c && t[1] == 0x75
    && (forall i :: 2 <= i < 6 ==> HexValue(t[i]) >= 0)
    && 0xdc00 <= HexFour(t) < 0xe000
  }

  /** Somewhere between the two escapes of a surrogate pair the bulk copy takes ordinary characters. */
  predicate Mixed(s: Scan, utf8: bool)
    requires Sane(s)
    decreases |s.rest|
  {
    var b := Bulk(s, utf8);
    TokenShrinks(b, utf8);
    || (s.high != 0 && |b.rest| < |s.rest| && LowSurrogateNext(b.rest))
    || (Token(b, utf8).More? && Mixed(Token(b, utf8).scan, utf8))
  }

  // ---------------------------------------------------------------- the text alone decides success

  ghost predicate SameFate(a: Outcome, b: Outcome) {
    || (a.Fault? && a == b)
    || (a.Done? && b.Done? && a.rest == b.rest)
    || (a.More? && b.More? && a.scan.rest == b.scan.rest)
  }

  lemma {:induction false} ContinuedFate(t: seq<Byte>, a: seq<Byte>, b: seq<Byte>, n: nat)
    ensures SameFate(Continued(t, a, n), Continued(t, b, n))
    decreases n
  {
    if n > 0 && t != [] { ContinuedFate(t[1..], a + [t[0]], b + [t[0]], n - 1); }
  }

  lemma TokenFate(a: Scan, b: Scan, utf8: bool)
    requires Sane(a) && Sane(b) && a.rest == b.rest
    ensures SameFate(Token(a, utf8), Token(b, utf8))
  {
    var t := a.rest;
    if t != [] && LeadLength(t[0]) > 0 { ContinuedFate(t[1..], a.out + [t[0]], b.out + [t[0]], LeadLength(t[0]) - 1); }
  }

  lemma {:induction false} UnescapeFate(a: Scan, b: Scan, utf8: bool)
    requires Sane(a) && Sane(b) && a.rest == b.rest
    ensures SameFate(Unescape(a, utf8), Unescape(b, utf8))
    decreases |a.rest|
  {
    hide Token;
    TokenFate(a, b, utf8);
    TokenShrinks(a, utf8);
    TokenShrinks(b, utf8);
    if Token(a, utf8).More? { UnescapeFate(Token(a, utf8).scan, Token(b, utf8).scan, utf8); }
  }

  // ---------------------------------------------------------------- one bulk copy and one token

  /** The state the plain scanner is in where the bulk copy stops. */
  function Plain(s: Scan, utf8: bool): Scan {
    var b := Bulk(s, utf8);
    if |b.rest| < |s.rest| then Scan(b.rest, b.out, 0) else b
  }

  lemma PlainReaches(s: Scan, utf8: bool)
    requires Sane(s)
    ensures Sane(Bulk(s, utf8)) && Sane(Plain(s, utf8)) && Unescape(s, utf8) == Unescape(Plain(s, utf8), utf8)
    ensures Bulk(s, utf8).high == s.high && |Bulk(s, utf8).out| >= |s.out| && Bulk(s, utf8).out[..|s.out|] == s.out
  {
    hide Token;
    if |s.rest| >= 16 {
      var n := RunLength(s.rest, |s.rest| - 15, utf8);
      if n > 0 {
        CopyableToken(s, utf8);
        CopyableToken(Scan(s.rest, s.out, 0), utf8);
        RunIsTokens(s.rest, s.out, n, utf8);
      } else {
        assert s.rest[0..] == s.rest && s.out + s.rest[..0] == s.out;
      }
    }
  }

  lemma PlainToken(s: Scan, utf8: bool)
    requires Sane(s) && Sane(Bulk(s, utf8)) && Sane(Plain(s, utf8))
    requires !(s.high != 0 && |Bulk(s, utf8).rest| < |s.rest| && LowSurrogateNext(Bulk(s, utf8).rest))
    ensures Token(Plain(s, utf8), utf8) == Token(Bulk(s, utf8), utf8)
  {
    hide Bulk, Token, LowSurrogateNext;
    if s.high != 0 && |Bulk(s, utf8).rest| < |s.rest| {
      SurrogateForgotten(Bulk(s, utf8), Plain(s, utf8), utf8);
    } else {
      BulkHigh(s, utf8);
    }
  }

  lemma BulkHigh(s: Scan, utf8: bool)
    ensures Bulk(s, utf8).high == s.high
  {
  }

  lemma SurrogateForgotten(a: Scan, b: Scan, utf8: bool)
    requires Sane(a) && b == Scan(a.rest, a.out, 0) && !LowSurrogateNext(a.rest)
    ensures Token(a, utf8) == Token(b, utf8)
  {
    hide HexFour, HexValue, Continued, LetterValue, Utf8Of2, Utf8Of3, Utf8Of4;
  }

  /** Unless the pair is mixed up right here, both scanners go on from the same state. */
  lemma SameStep(s: Scan, utf8: bool)
    requires Sane(s)
    requires !(s.high != 0 && |Bulk(s, utf8).rest| < |s.rest| && LowSurrogateNext(Bulk(s, utf8).rest))
    ensures Sane(Bulk(s, utf8))
    ensures var r := Token(Bulk(s, utf8), utf8);
      if r.More? then Sane(r.scan) && |r.scan.rest| < |s.rest| && Unescape(s, utf8) == Unescape(r.scan, utf8)
      else Unescape(s, utf8) == r
  {
    hide Token, Bulk;
    PlainReaches(s, utf8);
    PlainToken(s, utf8);
    TokenShrinks(Bulk(s, utf8), utf8);
  }

  // ---------------------------------------------------------------- what stays

  /** Bytes no later rollback can touch. */
  function Settled(s: Scan): nat
    requires Sane(s)
  {
    if s.high == 0 then |s.out| else |s.out| - 3
  }

  ghost predicate Keeps(a: Scan, b: Scan) {
    Sane(a) && Sane(b) && Settled(a) <= Settled(b) && b.out[..Settled(a)] == a.out[..Settled(a)]
  }

  lemma {:induction false} ContinuedKeeps(t: seq<Byte>, out: seq<Byte>, n: nat)
    ensures var r := Continued(t, out, n); r.More? ==> |r.scan.out| >= |out| && r.scan.out[..|out|] == out
    decreases n
  {
    if n > 0 && t != [] { ContinuedKeeps(t[1..], out + [t[0]], n - 1); }
  }

  lemma TokenKeeps(s: Scan, utf8: bool)
    requires Sane(s) && Token(s, utf8).More?
    ensures Sane(Token(s, utf8).scan) && Keeps(s, Token(s, utf8).scan)
  {
    TokenShrinks(s, utf8);
    var t := s.rest;
    if t[0] >= 0x80 && utf8 { ContinuedKeeps(t[1..], s.out + [t[0]], LeadLength(t[0]) - 1); }
    hide HexFour;
  }

  lemma KeepsOn(a: Scan, b: Scan, c: Scan)
    requires Keeps(a, b) && Keeps(b, c)
    ensures Keeps(a, c)
  {
    assert c.out[..Settled(a)] == c.out[..Settled(b)][..Settled(a)];
    assert b.out[..Settled(a)] == b.out[..Settled(b)][..Settled(a)];
  }

  lemma BulkKeeps(s: Scan, utf8: bool)
    requires Sane(s)
    ensures Keeps(s, Bulk(s, utf8))
  {
    PlainReaches(s, utf8);
    var b := Bulk(s, utf8);
    assert b.high == s.high;
    assert b.out[..Settled(s)] == b.out[..|s.out|][..Settled(s)];
  }

  lemma {:induction false} ScanKeeps(s: Scan, utf8: bool)
    requires Sane(s)
    ensures var r := ScanString(s, utf8);
      r.Done? ==> |r.out| >= Settled(s) && r.out[..Settled(s)] == s.out[..Settled(s)]
    decreases |s.rest|
  {
    hide Token, Bulk;
    var b := Bulk(s, utf8);
    BulkKeeps(s, utf8);
    TokenShrinks(b, utf8);
    if Token(b, utf8).More? {
      var n := Token(b, utf8).scan;
      TokenKeeps(b, utf8);
      KeepsOn(s, b, n);
      ScanKeeps(n, utf8);
      Prefix(s, n, ScanString(s, utf8));
    }
  }

  lemma Prefix(a: Scan, b: Scan, r: Outcome)
    requires Keeps(a, b) && (r.Done? ==> |r.out| >= Settled(b) && r.out[..Settled(b)] == b.out[..Settled(b)])
    ensures r.Done? ==> |r.out| >= Settled(a) && r.out[..Settled(a)] == a.out[..Settled(a)]
  {
    if r.Done? {
      assert r.out[..Settled(a)] == r.out[..Settled(b)][..Settled(a)];
      assert b.out[..Settled(a)] == b.out[..Settled(b)][..Settled(a)];
    }
  }

  lemma {:induction false} UnescapeKeeps(s: Scan, utf8: bool)
    requires Sane(s)
    ensures var r := Unescape(s, utf8); r.Done? ==> |r.out| >= Settled(s) && r.out[..Settled(s)] == s.out[..Settled(s)]
    decreases |s.rest|
  {
    hide Token;
    TokenShrinks(s, utf8);
    if Token(s, utf8).More? {
      var n := Token(s, utf8).scan;
      TokenKeeps(s, utf8);
      UnescapeKeeps(n, utf8);
      Prefix(s, n, Unescape(s, utf8));
    }
  }

  // ---------------------------------------------------------------- the exact condition

  lemma LowToken(s: Scan, utf8: bool)
    requires Sane(s) && LowSurrogateNext(s.rest)
    ensures var v := HexFour(s.rest);
      Token(s, utf8) == More(if s.high == 0 then Scan(s.rest[6..], s.out + Utf8Of3(v), 0)
                             else Scan(s.rest[6..],
                                 Dropped(s.out) + Utf8Of4(0x1_0000 + (s.high - 0xd800) * 0x400 + v - 0xdc00), 0))
  {
    hide HexFour, HexValue;
  }

  /** Where a pair is mixed up the results part for good. */
  lemma PartHere(s: Scan, utf8: bool)
    requires Sane(s) && s.high != 0 && |Bulk(s, utf8).rest| < |s.rest| && LowSurrogateNext(Bulk(s, utf8).rest)
    ensures ScanString(s, utf8).Done? && Unescape(s, utf8).Done? ==> ScanString(s, utf8).out != Unescape(s, utf8).out
    ensures SameFate(ScanString(s, utf8), Unescape(s, utf8)) || ScanString(s, utf8).Done?
  {
    hide Token, Bulk, Utf8Of4, HexFour;
    PlainReaches(s, utf8);
    var b, p := Bulk(s, utf8), Plain(s, utf8);
    LowToken(b, utf8);
    LowToken(p, utf8);
    TokenShrinks(b, utf8);
    TokenShrinks(p, utf8);
    var x, y := Token(b, utf8).scan, Token(p, utf8).scan;
    ScanKeeps(x, utf8);
    UnescapeKeeps(y, utf8);
    PartingByte(s, b, HexFour(b.rest));
    ScanFate(x, y, utf8);
    if ScanString(s, utf8).Done? && Unescape(s, utf8).Done? {
      assert ScanString(s, utf8).out[|b.out|] == x.out[|b.out|];
      assert Unescape(s, utf8).out[|b.out|] == y.out[|b.out|];
    }
  }

  lemma PartingByte(s: Scan, b: Scan, v: nat)
    requires IsHigh(b.high) && |b.out| >= 3 && 0xdc00 <= v < 0xe000
    ensures var x := Dropped(b.out) + Utf8Of4(0x1_0000 + (b.high - 0xd800) * 0x400 + v - 0xdc00);
      var y := b.out + Utf8Of3(v);
      |x| == |b.out| + 1 && |y| == |b.out| + 3 && x[|b.out|] != y[|b.out|]
  {
    var c := 0x1_0000 + (b.high - 0xd800) * 0x400 + v - 0xdc00;
    assert Utf8Of4(c)[3] < 0xc0;
    assert Utf8Of3(v)[0] == 0xed;
  }

  /** Whether and where a string ends does not depend on the bulk copy. */
  lemma {:induction false} ScanFate(a: Scan, b: Scan, utf8: bool)
    requires Sane(a) && Sane(b) && a.rest == b.rest
    ensures SameFate(ScanString(a, utf8), Unescape(b, utf8))
    decreases |a.rest|
  {
    hide Token, Bulk;
    PlainReaches(a, utf8);
    UnescapeFate(a, b, utf8);
    UnescapeFate(Plain(a, utf8), Bulk(a, utf8), utf8);
    var c := Bulk(a, utf8);
    TokenShrinks(c, utf8);
    if Token(c, utf8).More? { ScanFate(Token(c, utf8).scan, Token(c, utf8).scan, utf8); }
  }

  /** A string that RFC 8259 has end is read as it has it exactly if no surrogate pair has
      characters inside that the bulk copy takes; one that is to be refused is refused. */
  lemma {:induction false} BulkCopyExact(s: Scan, utf8: bool)
    requires Sane(s)
    ensures Unescape(s, utf8).Done? ==> (ScanString(s, utf8) == Unescape(s, utf8) <==> !Mixed(s, utf8))
    ensures !Unescape(s, utf8).Done? ==> ScanString(s, utf8) == Unescape(s, utf8)
    decreases |s.rest|
  {
    hide Token, Bulk;
    var b := Bulk(s, utf8);
    ScanFate(s, s, utf8);
    PlainReaches(s, utf8);
    TokenShrinks(b, utf8);
    if s.high != 0 && |b.rest| < |s.rest| && LowSurrogateNext(b.rest) {
      PartHere(s, utf8);
    } else {
      SameStep(s, utf8);
      if Token(b, utf8).More? { BulkCopyExact(Token(b, utf8).scan, utf8); }
    }
  }

  // ---------------------------------------------------------------- an input where it matters

  function Spaces(n: nat): seq<Byte> {
    seq<Byte>(n, i => 0x20)
  }

  /** Behind the opening quote: an escaped high surrogate, the letter A, an escaped low
      surrogate, the closing quote, and white space behind the string. */
  function SplitPair(): seq<Byte> {
    UnicodeText(0xd83d) + AfterHigh()
  }

  function AfterHigh(): seq<Byte> {
    [0x41] + AfterLetter()
  }

  function AfterLetter(): seq<Byte> {
    UnicodeText(0xde00) + AfterLow()
  }

  function AfterLow(): seq<Byte> {
    [0x22] + Spaces(10)
  }

  lemma FrontStops(s: Scan, utf8: bool)
    requires s.rest != [] && !Copyable(s.rest[0], utf8)
    ensures Bulk(s, utf8) == s
  {
    if |s.rest| >= 16 {
      assert RunLength(s.rest, |s.rest| - 15, utf8) == 0;
      assert s.rest[0..] == s.rest && s.out + s.rest[..0] == s.out;
    }
  }

  /** With enough text behind it, this string is not read as RFC 8259 has it: the letter is lost. */
  lemma SplitPairMisread(utf8: bool)
    ensures Mixed(Scan(SplitPair(), [], 0), utf8)
    ensures ScanString(Scan(SplitPair(), [], 0), utf8) != Unescape(Scan(SplitPair(), [], 0), utf8)
  {
    hide Token, UnicodeText, Bulk, Mixed;
    var s := Scan(SplitPair(), [], 0);
    var s1 := Scan(AfterHigh(), Utf8Of3(0xd83d), 0xd83d);
    var b1 := Scan(AfterLetter(), Utf8Of3(0xd83d) + [0x41], 0xd83d);
    FirstEscape(utf8);
    LetterCopied(utf8);
    MixedThere(s, s1, b1, utf8);
    BulkCopyExact(s, utf8);
  }

  lemma FirstEscape(utf8: bool)
    ensures var s := Scan(SplitPair(), [], 0);
      Bulk(s, utf8) == s && Token(s, utf8) == More(Scan(AfterHigh(), Utf8Of3(0xd83d), 0xd83d))
  {
    hide Token;
    FrontStops(Scan(SplitPair(), [], 0), utf8);
    UnicodeToken(0xd83d, AfterHigh(), [], 0, utf8);
    assert [] + Utf8Of3(0xd83d) == Utf8Of3(0xd83d);
  }

  lemma LetterCopied(utf8: bool)
    ensures Bulk(Scan(AfterHigh(), Utf8Of3(0xd83d), 0xd83d), utf8)
      == Scan(AfterLetter(), Utf8Of3(0xd83d) + [0x41], 0xd83d)
    ensures LowSurrogateNext(AfterLetter()) && |AfterLetter()| < |AfterHigh()|
  {
    hide Hex, HexValue, Utf8Of3;
    var t := AfterHigh();
    UnicodeBack(0xde00, AfterLow());
    assert t[0] == 0x41 && t[1] == AfterLetter()[0] == 0x5c;
    var n := RunLength(t, |t| - 15, utf8);
    assert n == 1;
    assert t[1..] == AfterLetter() && t[..1] == [0x41];
  }

  lemma MixedThere(s: Scan, s1: Scan, b1: Scan, utf8: bool)
    requires Sane(s) && Sane(s1) && Bulk(s, utf8) == s && Token(s, utf8) == More(s1)
    requires Bulk(s1, utf8) == b1 && s1.high != 0 && b1.rest == AfterLetter() && |b1.rest| < |s1.rest| &&
      LowSurrogateNext(b1.rest)
    requires b1.high == s1.high && |b1.out| >= 3
    ensures Mixed(s, utf8) && ScanString(s, utf8).Done?
  {
    hide Token, Bulk, LowSurrogateNext, Utf8Of3, Utf8Of4, UnicodeText;
    LowToken(b1, utf8);
    UnicodeBack(0xde00, AfterLow());
    assert b1.rest[6..] == AfterLow();
    TokenShrinks(b1, utf8);
    var s2 := Token(b1, utf8).scan;
    assert s2.rest == AfterLow();
    QuoteNext(s2, utf8);
    assert ScanString(s1, utf8) == ScanString(s2, utf8);
  }

  lemma QuoteNext(s: Scan, utf8: bool)
    requires Sane(s) && s.rest == AfterLow()
    ensures ScanString(s, utf8).Done?
  {
    FrontStops(s, utf8);
  }
}
