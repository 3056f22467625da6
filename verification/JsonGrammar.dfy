/** The grammar of RFC 8259 as trees, and the parser against it: a text is parsed to a value
    exactly if some tree spells the text and stands for the value. */
module JsonGrammar {
  import opened Bytes
  import opened Format
  import opened Utf8
  import opened JsonText
  import JsonBulk
  import opened Json
  import Slice

  // ---------------------------------------------------------------- strings (section 7)

  type Unit16 = x: nat | x < 0x1_0000

  type LetterIndex = i: nat | i < 8

  /** The two forms of hexadecimal digits. */
  const LowerDigits: seq<Byte> :=
    [0x30, 0x31, 0x32, 0x33, 0x34, 0x35, 0x36, 0x37, 0x38, 0x39, 0x61, 0x62, 0x63, 0x64, 0x65, 0x66]
  const UpperDigits: seq<Byte> :=
    [0x30, 0x31, 0x32, 0x33, 0x34, 0x35, 0x36, 0x37, 0x38, 0x39, 0x41, 0x42, 0x43, 0x44, 0x45, 0x46]

  /** The letters that may stand behind a backslash, and the characters they stand for. */
  const LetterNames: seq<Byte> := [0x22, 0x5c, 0x2f, 0x62, 0x66, 0x6e, 0x72, 0x74]
  const LetterChars: seq<Byte> := [0x22, 0x5c, 0x2f, 0x08, 0x0c, 0x0a, 0x0d, 0x09]

  /** A character as it is, an escape of one letter, or \u with the case of each of four digits. */
  datatype Piece =
    | Plain(bytes: seq<Byte>)
    | Letter(index: LetterIndex)
    | Code(unit: Unit16, case3: bool, case2: bool, case1: bool, case0: bool)

  function HexChar(d: nat, upper: bool): Byte
    requires d < 16
  {
    if upper then UpperDigits[d] else LowerDigits[d]
  }

  function PieceText(p: Piece): seq<Byte> {
    match p
    case Plain(bytes) => bytes
    case Letter(index) => [0x5c, LetterNames[index]]
    case Code(u, c3, c2, c1, c0) =>
      [0x5c, 0x75, HexChar(u / 0x1000, c3), HexChar(u / 0x100 % 16, c2), HexChar(u / 16 % 16, c1), HexChar(u % 16, c0)]
  }

  function PiecesText(ps: seq<Piece>): seq<Byte> {
    if ps == [] then [] else PieceText(ps[0]) + PiecesText(ps[1..])
  }

  predicate Lead(c: Byte, n: nat) {
    (n == 2 && 0xc0 <= c <= 0xdf) || (n == 3 && 0xe0 <= c <= 0xef) || (n == 4 && 0xf0 <= c <= 0xf7)
  }

  /** A character that needs no escape. With the check of the parser a sequence of several bytes
      has a leading byte and continuation bytes, without it any byte is taken for a character. */
  predicate Unescaped(c: seq<Byte>, utf8: bool) {
    || (|c| == 1 && c[0] >= 0x20 && c[0] != 0x22 && c[0] != 0x5c && (utf8 ==> c[0] < 0x80))
    || (utf8 && |c| >= 2 && Lead(c[0], |c|) && forall i :: 1 <= i < |c| ==> Utf8.Tail(c[i]))
  }

  predicate Spelled(ps: seq<Piece>, utf8: bool) {
    forall i :: 0 <= i < |ps| && ps[i].Plain? ==> Unescaped(ps[i].bytes, utf8)
  }

  predicate HighCode(p: Piece) {
    p.Code? && 0xd800 <= p.unit <= 0xdbff
  }

  predicate LowCode(p: Piece) {
    p.Code? && 0xdc00 <= p.unit <= 0xdfff
  }

  /** The bytes of one piece: UTF-8, and the three-byte pattern for half of a surrogate pair. */
  function PieceChars(p: Piece): seq<Byte> {
    match p
    case Plain(bytes) => bytes
    case Letter(index) => [LetterChars[index]]
    case Code(u, _, _, _, _) =>
      if IsScalar(u) then EncodeScalar(u) else [0xe0 + u / 0x1000, 0x80 + u / 0x40 % 0x40, 0x80 + u % 0x40]
  }

  function PairChars(high: Piece, low: Piece): seq<Byte>
    requires HighCode(high) && LowCode(low)
  {
    EncodeScalar(0x1_0000 + (high.unit - 0xd800) * 0x400 + (low.unit - 0xdc00))
  }

  /** What the pieces stand for: two escaped surrogates, the high one first, are one character. */
  function Chars(ps: seq<Piece>): seq<Byte>
    decreases |ps|
  {
    if ps == [] then []
    else if |ps| >= 2 && HighCode(ps[0]) && LowCode(ps[1]) then PairChars(ps[0], ps[1]) + Chars(ps[2..])
    else PieceChars(ps[0]) + Chars(ps[1..])
  }

  /** Two halves of a surrogate pair with plain characters in between. */
  predicate SplitAt(ps: seq<Piece>, i: nat, j: nat) {
    i + 1 < j < |ps| && HighCode(ps[i]) && LowCode(ps[j]) && forall k :: i < k < j ==> ps[k].Plain?
  }

  ghost predicate Split(ps: seq<Piece>) {
    exists i: nat, j: nat :: SplitAt(ps, i, j)
  }

  // ---------------------------------------------------------------- one piece, one token

  lemma HexCharBack(d: nat, upper: bool)
    requires d < 16
    ensures HexValue(HexChar(d, upper)) == d
  {
  }

  lemma CodeReads(p: Piece, rest: seq<Byte>)
    requires p.Code?
    ensures var t := PieceText(p) + rest;
      |t| >= 6 && t[0] == 0x5c && t[1] == 0x75 && t[6..] == rest &&
      (forall i :: 2 <= i < 6 ==> HexValue(t[i]) >= 0) && HexFour(t) == p.unit
  {
    hide HexChar, HexValue;
    var t := PieceText(p) + rest;
    assert t[6..] == rest;
    HexCharBack(p.unit / 0x1000, p.case3);
    HexCharBack(p.unit / 0x100 % 16, p.case2);
    HexCharBack(p.unit / 16 % 16, p.case1);
    HexCharBack(p.unit % 16, p.case0);
    FourDigits(p.unit);
  }

  lemma LetterReads(p: Piece)
    requires p.Letter?
    ensures LetterValue(LetterNames[p.index]) == LetterChars[p.index]
  {
  }

  /** The scanner's state behind a piece. */
  function Behind(p: Piece, rest: seq<Byte>, out: seq<Byte>, high: nat): Scan {
    if high != 0 && LowCode(p) then
      Scan(rest, Dropped(out) + PairBytes(high, p.unit), 0)
    else Scan(rest, out + PieceChars(p), if HighCode(p) then p.unit else 0)
  }

  function PairBytes(high: nat, low: nat): seq<Byte> {
    if 0xd800 <= high <= 0xdbff && 0xdc00 <= low <= 0xdfff
    then EncodeScalar(0x1_0000 + (high - 0xd800) * 0x400 + (low - 0xdc00))
    else []
  }

  lemma UnicodeIsBehind(p: Piece, rest: seq<Byte>, out: seq<Byte>, high: nat)
    requires p.Code? && Sane(Scan(rest, out, high))
    ensures Unicode(rest, out, high, p.unit) == Behind(p, rest, out, high)
  {
  }

  /** The scanner takes a piece as one token. */
  lemma PieceToken(p: Piece, rest: seq<Byte>, out: seq<Byte>, high: nat, utf8: bool)
    requires Sane(Scan(PieceText(p) + rest, out, high)) && Spelled([p], utf8)
    ensures Token(Scan(PieceText(p) + rest, out, high), utf8) == More(Behind(p, rest, out, high))
    ensures PieceText(p) != [] && PieceText(p)[0] != 0x22
  {
    var t := PieceText(p) + rest;
    match p
    case Plain(c) =>
      assert [p][0].bytes == c;
      PlainReads(c, rest, out, high, utf8);
    case Letter(index) =>
      LetterReads(p);
      assert t[2..] == rest;
    case Code(u, _, _, _, _) =>
      hide HexFour, HexValue, PieceText, Unicode, Behind;
      CodeReads(p, rest);
      UnicodeIsBehind(p, rest, out, high);
      EscapeTaken(t, out, high, utf8);
      assert PieceText(p)[0] == t[0] by { CodeText(p); }
  }

  lemma CodeText(p: Piece)
    requires p.Code?
    ensures |PieceText(p)| == 6 && PieceText(p)[0] == 0x5c
  {
  }

  lemma EscapeTaken(t: seq<Byte>, out: seq<Byte>, high: nat, utf8: bool)
    requires |t| >= 6 && t[0] == 0x5c && t[1] == 0x75 && (forall i :: 2 <= i < 6 ==> HexValue(t[i]) >= 0)
    requires Sane(Scan(t, out, high))
    ensures Token(Scan(t, out, high), utf8) == More(Unicode(t[6..], out, high, HexFour(t)))
  {
    hide HexFour, HexValue, Unicode;
  }

  lemma PlainReads(c: seq<Byte>, rest: seq<Byte>, out: seq<Byte>, high: nat, utf8: bool)
    requires Sane(Scan(c + rest, out, high)) && Unescaped(c, utf8)
    ensures Token(Scan(c + rest, out, high), utf8) == More(Scan(rest, out + c, 0))
  {
    hide Token;
    var t, n := c + rest, |c|;
    if n == 1 {
      assert t[1..] == rest && [t[0]] == c;
      OneByteToken(Scan(t, out, high), utf8);
    } else {
      assert t[1..][n - 1..] == rest && out + [t[0]] + t[1..][..n - 1] == out + c;
      assert forall i :: 0 <= i < n - 1 ==> t[1..][i] == c[i + 1];
      ContinuedTakes(t[1..], out + [t[0]], n - 1);
      SequenceToken(Scan(t, out, high));
    }
  }

  lemma OneByteToken(s: Scan, utf8: bool)
    requires Sane(s) && s.rest != [] && s.rest[0] >= 0x20 && s.rest[0] != 0x22 && s.rest[0] != 0x5c
    requires utf8 ==> s.rest[0] < 0x80
    ensures Token(s, utf8) == More(Scan(s.rest[1..], s.out + [s.rest[0]], 0))
  {
    hide Continued, Escaped;
  }

  lemma SequenceToken(s: Scan)
    requires Sane(s) && s.rest != [] && LeadLength(s.rest[0]) >= 2
    ensures Token(s, true) == Continued(s.rest[1..], s.out + [s.rest[0]], LeadLength(s.rest[0]) - 1)
  {
    hide Continued;
  }

  // ---------------------------------------------------------------- strings of pieces

  /** The scanner in front of `ps`, when `prev`, at most one high surrogate, has just been read. */
  function State(prev: seq<Piece>, ps: seq<Piece>, out: seq<Byte>, tail: seq<Byte>): Scan {
    Scan(PiecesText(ps) + ([0x22] + tail), out + Chars(prev), if prev != [] && prev[0].Code? then prev[0].unit else 0)
  }

  predicate Pending(prev: seq<Piece>) {
    prev == [] || (|prev| == 1 && HighCode(prev[0]))
  }

  /** What is pending behind piece `p`, and what has been put out for good. */
  function NextPrev(p: Piece): seq<Piece> {
    if HighCode(p) then [p] else []
  }

  function NextOut(prev: seq<Piece>, p: Piece, out: seq<Byte>): seq<Byte>
    requires Pending(prev)
  {
    if HighCode(p) then out + Chars(prev)
    else if prev != [] && LowCode(p) then out + PairChars(prev[0], p)
    else out + Chars(prev) + PieceChars(p)
  }

  lemma StateSane(prev: seq<Piece>, ps: seq<Piece>, out: seq<Byte>, tail: seq<Byte>)
    requires Pending(prev)
    ensures Sane(State(prev, ps, out, tail))
  {
    hide Chars, PieceChars, PiecesText;
    CharsOfFew(prev);
  }

  lemma PiecesToken(prev: seq<Piece>, ps: seq<Piece>, out: seq<Byte>, tail: seq<Byte>, utf8: bool)
    requires Pending(prev) && ps != [] && Spelled(ps, utf8)
    ensures Sane(State(prev, ps, out, tail))
    ensures Token(State(prev, ps, out, tail), utf8)
      == More(State(NextPrev(ps[0]), ps[1..], NextOut(prev, ps[0], out), tail))
  {
    hide Token, PieceText, PieceChars, Behind, Unescaped, Chars, PairChars, PiecesText;
    var p, rest := ps[0], PiecesText(ps[1..]) + ([0x22] + tail);
    StateSane(prev, ps, out, tail);
    PiecesTextIs(ps);
    assert PiecesText(ps) + ([0x22] + tail) == PieceText(p) + rest;
    PieceToken(p, rest, out + Chars(prev), if prev == [] then 0 else prev[0].unit, utf8);
    PieceBehind(prev, p, rest, out);
    CharsOfFew([p]);
    CharsOfFew([]);
    assert NextOut(prev, p, out) + [] == NextOut(prev, p, out);
  }

  lemma PiecesMeant(prev: seq<Piece>, ps: seq<Piece>, out: seq<Byte>)
    requires Pending(prev) && ps != []
    ensures NextOut(prev, ps[0], out) + Chars(NextPrev(ps[0]) + ps[1..]) == out + Chars(prev + ps)
  {
    hide PieceChars, Chars, PairChars;
    PiecesStep(prev, ps);
    if HighCode(ps[0]) {
      assert [ps[0]] + ps[1..] == ps;
    } else {
      assert [] + ps[1..] == ps[1..];
    }
  }

  /** What is read of pieces. */
  lemma {:induction false} PiecesRead(prev: seq<Piece>, ps: seq<Piece>, out: seq<Byte>, tail: seq<Byte>, utf8: bool)
    requires Pending(prev) && Spelled(ps, utf8)
    ensures Sane(State(prev, ps, out, tail))
    ensures Unescape(State(prev, ps, out, tail), utf8) == Done(out + Chars(prev + ps), tail)
    decreases |ps|
  {
    hide Token, Unescaped, Chars, Unescape, PiecesText, State, NextPrev, NextOut;
    StateSane(prev, ps, out, tail);
    if ps == [] {
      assert prev + ps == prev;
      StateEnds(prev, out, tail, utf8);
    } else {
      PiecesToken(prev, ps, out, tail, utf8);
      UnescapeStep(State(prev, ps, out, tail), utf8);
      PiecesMeant(prev, ps, out);
      NextPending(ps[0]);
      PiecesRead(NextPrev(ps[0]), ps[1..], NextOut(prev, ps[0], out), tail, utf8);
    }
  }

  lemma NextPending(p: Piece)
    ensures Pending(NextPrev(p))
  {
  }

  lemma StateEnds(prev: seq<Piece>, out: seq<Byte>, tail: seq<Byte>, utf8: bool)
    requires Pending(prev)
    ensures Sane(State(prev, [], out, tail))
    ensures Token(State(prev, [], out, tail), utf8) == Done(out + Chars(prev), tail)
    ensures Unescape(State(prev, [], out, tail), utf8) == Done(out + Chars(prev), tail)
  {
    hide Chars;
    StateSane(prev, [], out, tail);
    assert [] + ([0x22] + tail) == [0x22] + tail;
    assert ([0x22] + tail)[1..] == tail;
  }

  lemma PiecesTextIs(ps: seq<Piece>)
    ensures PiecesText(ps) == if ps == [] then [] else PieceText(ps[0]) + PiecesText(ps[1..])
  {
    hide PieceText;
  }

  lemma UnescapeStep(s: Scan, utf8: bool)
    requires Sane(s) && Token(s, utf8).More?
    ensures Sane(Token(s, utf8).scan) && Unescape(s, utf8) == Unescape(Token(s, utf8).scan, utf8)
  {
    hide Token;
    TokenShrinks(s, utf8);
  }

  lemma CharsOfFew(prev: seq<Piece>)
    requires |prev| <= 1
    ensures prev == [] ==> Chars(prev) == []
    ensures prev != [] ==> Chars(prev) == PieceChars(prev[0])
    ensures prev != [] && HighCode(prev[0]) ==> |Chars(prev)| == 3 && IsHigh(prev[0].unit)
  {
    if prev != [] { assert prev[1..] == []; }
  }

  lemma PieceBehind(prev: seq<Piece>, p: Piece, rest: seq<Byte>, out: seq<Byte>)
    requires prev == [] || (|prev| == 1 && HighCode(prev[0]))
    ensures var b := Behind(p, rest, out + Chars(prev), if prev == [] then 0 else prev[0].unit);
      && b.rest == rest
      && (prev != [] && LowCode(p) ==> b.high == 0 && b.out == out + PairChars(prev[0], p))
      && (!(prev != [] && LowCode(p)) ==>
           b.high == (if HighCode(p) then p.unit else 0) && b.out == out + Chars(prev) + PieceChars(p))
  {
    hide PieceChars, Chars, PairBytes, PairChars;
    CharsOfFew(prev);
    if prev != [] {
      LastDropped(out, Chars(prev));
      if LowCode(p) { PairIsBytes(prev[0], p); }
    }
  }

  lemma LastDropped(out: seq<Byte>, three: seq<Byte>)
    requires |three| == 3
    ensures Dropped(out + three) == out
  {
  }

  lemma PairIsBytes(high: Piece, low: Piece)
    requires HighCode(high) && LowCode(low)
    ensures PairBytes(high.unit, low.unit) == PairChars(high, low)
  {
    hide EncodeScalar;
  }

  /** How the meaning of pieces begins. */
  lemma PiecesStep(prev: seq<Piece>, ps: seq<Piece>)
    requires prev == [] || (|prev| == 1 && HighCode(prev[0]))
    requires ps != []
    ensures prev != [] && LowCode(ps[0]) ==> Chars(prev + ps) == PairChars(prev[0], ps[0]) + Chars(ps[1..])
    ensures !(prev != [] && LowCode(ps[0])) ==> Chars(prev + ps) == Chars(prev) + Chars(ps)
    ensures !HighCode(ps[0]) ==> Chars(ps) == PieceChars(ps[0]) + Chars(ps[1..])
  {
    hide PieceChars, PairChars;
    CharsOfFew(prev);
    if prev == [] {
      assert prev + ps == ps;
    } else {
      assert (prev + ps)[1..] == ps && (prev + ps)[2..] == ps[1..];
    }
  }

  /** A string the plain scanner reads to its end is spelled by pieces. */
  lemma {:induction false} StringSpelled(s: Scan, utf8: bool) returns (ps: seq<Piece>)
    requires Sane(s) && Unescape(s, utf8).Done?
    ensures Spelled(ps, utf8) && s.rest == PiecesText(ps) + ([0x22] + Unescape(s, utf8).rest)
    decreases |s.rest|
  {
    hide Token, PieceText, Unescaped, Chars;
    TokenShrinks(s, utf8);
    if Token(s, utf8).More? {
      var p := TokenSpelled(s, utf8);
      var next := Token(s, utf8).scan;
      var more := StringSpelled(next, utf8);
      ps := [p] + more;
      assert ps[1..] == more;
      assert forall i :: 0 <= i < |ps| ==> ps[i] == if i == 0 then [p][0] else more[i - 1];
    } else {
      ps := [];
      QuoteRead(s, utf8);
    }
  }

  lemma QuoteRead(s: Scan, utf8: bool)
    requires Sane(s) && Token(s, utf8).Done?
    ensures s.rest == [0x22] + Token(s, utf8).rest
  {
    var t := s.rest;
    if t[0] >= 0x80 && LeadLength(t[0]) > 0 { ContinuedShrinks(t[1..], s.out + [t[0]], LeadLength(t[0]) - 1); }
  }

  lemma TokenSpelled(s: Scan, utf8: bool) returns (p: Piece)
    requires Sane(s) && Token(s, utf8).More?
    ensures Spelled([p], utf8) && s.rest == PieceText(p) + Token(s, utf8).scan.rest
  {
    hide Escaped, Continued;
    var t := s.rest;
    if t[0] == 0x5c {
      p := EscapeSpelled(s);
    } else if t[0] < 0x80 || !utf8 {
      p := Plain([t[0]]);
      assert t == [t[0]] + t[1..];
    } else {
      var n := LeadLength(t[0]);
      ContinuedSpelled(t[1..], s.out + [t[0]], n - 1);
      p := Plain(t[..n]);
      assert forall i :: 1 <= i < n ==> t[i] == t[1..][i - 1];
      assert t[1..][n - 1..] == t[n..] && t == t[..n] + t[n..];
    }
  }

  lemma {:induction false} ContinuedSpelled(t: seq<Byte>, out: seq<Byte>, n: nat)
    requires Continued(t, out, n).More?
    ensures n <= |t| && (forall i :: 0 <= i < n ==> Utf8.Tail(t[i])) && Continued(t, out, n).scan.rest == t[n..]
    decreases n
  {
    if n == 0 {
      assert t[0..] == t;
    } else {
      ContinuedSpelled(t[1..], out + [t[0]], n - 1);
      assert forall i :: 1 <= i < n ==> t[i] == t[1..][i - 1];
      assert t[1..][n - 1..] == t[n..];
    }
  }

  lemma EscapeSpelled(s: Scan) returns (p: Piece)
    requires Sane(s) && s.rest != [] && s.rest[0] == 0x5c && Escaped(s).More?
    ensures !p.Plain? && s.rest == PieceText(p) + Escaped(s).scan.rest
  {
    var t := s.rest;
    if LetterValue(t[1]) >= 0 {
      p := LetterSpelled(t[1]);
      assert t == [t[0], t[1]] + t[2..];
    } else {
      hide HexValue, PieceText;
      p := CodeSpelled(t);
      assert t == t[..6] + t[6..];
    }
  }

  lemma LetterSpelled(c: Byte) returns (p: Piece)
    requires LetterValue(c) >= 0
    ensures p.Letter? && PieceText(p) == [0x5c, c]
  {
    var i: LetterIndex := if c == 0x22 then 0 else if c == 0x5c then 1 else if c == 0x2f then 2
      else if c == 0x62 then 3 else if c == 0x66 then 4 else if c == 0x6e then 5 else if c == 0x72 then 6 else 7;
    p := Letter(i);
  }

  /** A hexadecimal digit is one of either form. */
  lemma DigitSpelled(c: Byte) returns (upper: bool)
    requires HexValue(c) >= 0
    ensures HexValue(c) < 16 && HexChar(HexValue(c), upper) == c
  {
    upper := c < 0x60;
  }

  lemma CodeSpelled(t: seq<Byte>) returns (p: Piece)
    requires |t| >= 6 && t[0] == 0x5c && t[1] == 0x75 && forall i :: 2 <= i < 6 ==> HexValue(t[i]) >= 0
    ensures p.Code? && PieceText(p) == t[..6]
  {
    hide HexValue, HexChar;
    var c3 := DigitSpelled(t[2]);
    var c2 := DigitSpelled(t[3]);
    var c1 := DigitSpelled(t[4]);
    var c0 := DigitSpelled(t[5]);
    var a, b, c, d := HexValue(t[2]), HexValue(t[3]), HexValue(t[4]), HexValue(t[5]);
    UnitDigits(a, b, c, d);
    p := Code(a * 0x1000 + b * 0x100 + c * 16 + d, c3, c2, c1, c0);
    assert t[..6] == [t[0], t[1], t[2], t[3], t[4], t[5]];
  }

  lemma UnitDigits(a: nat, b: nat, c: nat, d: nat)
    requires a < 16 && b < 16 && c < 16 && d < 16
    ensures var v := a * 0x1000 + b * 0x100 + c * 16 + d;
      v < 0x1_0000 && v / 0x1000 == a && v / 0x100 % 16 == b && v / 16 % 16 == c && v % 16 == d
  {
    var v := a * 0x1000 + b * 0x100 + c * 16 + d;
    assert v / 16 == a * 0x100 + b * 16 + c;
    assert v / 0x100 == a * 16 + b;
  }

  // ---------------------------------------------------------------- the bulk copy

  /** The bulk copy takes whole plain pieces. */
  lemma {:induction false} RunTakesPieces(ps: seq<Piece>, tail: seq<Byte>, n: nat, utf8: bool)
    requires Spelled(ps, utf8)
    requires var t := PiecesText(ps) + ([0x22] + tail); n <= |t| && forall k :: 0 <= k < n ==> Copyable(t[k], utf8)
    ensures n <= |ps| && (forall k :: 0 <= k < n ==> ps[k].Plain?)
    ensures (PiecesText(ps) + ([0x22] + tail))[n..] == PiecesText(ps[n..]) + ([0x22] + tail)
    decreases n
  {
    hide PieceText;
    var t := PiecesText(ps) + ([0x22] + tail);
    if n == 0 {
      assert t[0..] == t && ps[0..] == ps;
    } else {
      assert t[0] != 0x22;
      QuoteFirst(ps, tail);
      OneByte(ps[0], PiecesText(ps[1..]) + ([0x22] + tail), utf8) by { assert ps[0] == ps[..1][0]; }
      assert t == PieceText(ps[0]) + (PiecesText(ps[1..]) + ([0x22] + tail));
      assert t[1..] == PiecesText(ps[1..]) + ([0x22] + tail);
      assert forall k :: 0 <= k < n - 1 ==> t[1..][k] == t[k + 1];
      RunTakesPieces(ps[1..], tail, n - 1, utf8);
      assert t[1..][n - 1..] == t[n..] && ps[1..][n - 1..] == ps[n..];
      assert forall k :: 1 <= k < n ==> ps[k] == ps[1..][k - 1];
    }
  }

  lemma QuoteFirst(ps: seq<Piece>, tail: seq<Byte>)
    ensures var t := PiecesText(ps) + ([0x22] + tail); t != [] && (ps == [] ==> t[0] == 0x22)
  {
    hide PieceText;
  }

  lemma OneByte(p: Piece, rest: seq<Byte>, utf8: bool)
    requires (p.Plain? ==> Unescaped(p.bytes, utf8)) && PieceText(p) + rest != []
    requires Copyable((PieceText(p) + rest)[0], utf8)
    ensures p.Plain? && |PieceText(p)| == 1
  {
    hide HexChar;
  }

  lemma SplitSuffix(ps: seq<Piece>, k: nat)
    requires k <= |ps| && Split(ps[k..])
    ensures Split(ps)
  {
    var i: nat, j: nat :| SplitAt(ps[k..], i, j);
    assert forall m :: 0 <= m < |ps| - k ==> ps[k..][m] == ps[k + m];
    assert forall m :: k + i < m < k + j ==> ps[m] == ps[k..][m - k];
    assert SplitAt(ps, k + i, k + j);
  }

  lemma LowNextIsPiece(ps: seq<Piece>, tail: seq<Byte>, utf8: bool)
    requires Spelled(ps, utf8) && JsonBulk.LowSurrogateNext(PiecesText(ps) + ([0x22] + tail))
    ensures ps != [] && LowCode(ps[0])
  {
    hide HexValue, HexFour, PieceText;
    var t := PiecesText(ps) + ([0x22] + tail);
    QuoteFirst(ps, tail);
    var rest := PiecesText(ps[1..]) + ([0x22] + tail);
    assert t == PieceText(ps[0]) + rest;
    CodeFirst(ps[0], rest, utf8);
    CodeReads(ps[0], rest);
  }

  lemma CodeFirst(p: Piece, rest: seq<Byte>, utf8: bool)
    requires p.Plain? ==> Unescaped(p.bytes, utf8)
    requires var t := PieceText(p) + rest; |t| >= 2 && t[0] == 0x5c && t[1] == 0x75
    ensures p.Code?
  {
  }

  /** No pair is mixed up where no plain characters stand between its halves. */
  lemma {:induction false} Unmixed(s: Scan, prev: seq<Piece>, ps: seq<Piece>, tail: seq<Byte>, utf8: bool)
    requires Sane(s) && s.rest == PiecesText(ps) + ([0x22] + tail) && Spelled(ps, utf8)
    requires Pending(prev) && s.high == (if prev == [] then 0 else prev[0].unit) && !Split(prev + ps)
    ensures !JsonBulk.Mixed(s, utf8)
    decreases |s.rest|
  {
    hide Token, Bulk, PiecesText, PieceText, JsonBulk.LowSurrogateNext, Split, Unescaped;
    var b := Bulk(s, utf8);
    var n := BulkPieces(s, ps, tail, utf8);
    JsonBulk.BulkKeeps(s, utf8);
    TokenShrinks(b, utf8);
    assert Spelled(ps[n..], utf8);
    if s.high != 0 && |b.rest| < |s.rest| && JsonBulk.LowSurrogateNext(b.rest) {
      LowNextIsPiece(ps[n..], tail, utf8);
      SplitHere(prev, ps, n);
      assert false;
    }
    if Token(b, utf8).More? {
      NextPiece(b, ps[n..], tail, utf8);
      var p := ps[n];
      assert ps[n..][1..] == ps[n + 1..];
      NextPending(p);
      if Split(NextPrev(p) + ps[n + 1..]) { SplitLater(prev, ps, n); }
      Unmixed(Token(b, utf8).scan, NextPrev(p), ps[n + 1..], tail, utf8);
    }
  }

  lemma BulkPieces(s: Scan, ps: seq<Piece>, tail: seq<Byte>, utf8: bool) returns (n: nat)
    requires s.rest == PiecesText(ps) + ([0x22] + tail) && Spelled(ps, utf8)
    ensures n <= |ps| && (forall k :: 0 <= k < n ==> ps[k].Plain?)
    ensures var b := Bulk(s, utf8);
      b.rest == PiecesText(ps[n..]) + ([0x22] + tail) && b.high == s.high && |b.out| >= |s.out| &&
      (|b.rest| < |s.rest| ==> n > 0)
  {
    hide PiecesText, Unescaped;
    n := if |s.rest| < 16 then 0 else RunLength(s.rest, |s.rest| - 15, utf8);
    RunTakesPieces(ps, tail, n, utf8);
    assert ps[0..] == ps;
  }

  lemma SplitHere(prev: seq<Piece>, ps: seq<Piece>, n: nat)
    requires |prev| == 1 && HighCode(prev[0]) && 0 < n < |ps| && LowCode(ps[n]) && forall k :: 0 <= k < n ==>
      ps[k].Plain?
    ensures Split(prev + ps)
  {
    assert forall k :: 0 < k <= n ==> (prev + ps)[k] == ps[k - 1];
    assert (prev + ps)[n + 1] == ps[n];
    assert SplitAt(prev + ps, 0, n + 1);
  }

  lemma SplitLater(prev: seq<Piece>, ps: seq<Piece>, n: nat)
    requires n < |ps| && Split(NextPrev(ps[n]) + ps[n + 1..])
    ensures Split(prev + ps)
  {
    hide Split;
    if HighCode(ps[n]) {
      assert [ps[n]] + ps[n + 1..] == (prev + ps)[|prev| + n..];
      SplitSuffix(prev + ps, |prev| + n);
    } else {
      assert [] + ps[n + 1..] == (prev + ps)[|prev| + n + 1..];
      SplitSuffix(prev + ps, |prev| + n + 1);
    }
  }

  lemma NextPiece(b: Scan, ps: seq<Piece>, tail: seq<Byte>, utf8: bool)
    requires Sane(b) && b.rest == PiecesText(ps) + ([0x22] + tail) && Spelled(ps, utf8) && Token(b, utf8).More?
    ensures ps != []
    ensures var r := Token(b, utf8).scan;
      && r.rest == PiecesText(ps[1..]) + ([0x22] + tail)
      && r.high == if NextPrev(ps[0]) == [] then 0 else ps[0].unit
  {
    hide PieceText, PieceChars, PairBytes, Unescaped, Token;
    if ps == [] {
      assert b.rest == [0x22] + tail;
      QuoteTaken(b, utf8);
    } else {
      var rest := PiecesText(ps[1..]) + ([0x22] + tail);
      assert b.rest == PieceText(ps[0]) + rest;
      PieceToken(ps[0], rest, b.out, b.high, utf8);
    }
  }

  lemma QuoteTaken(b: Scan, utf8: bool)
    requires Sane(b) && b.rest != [] && b.rest[0] == 0x22
    ensures Token(b, utf8).Done?
  {
  }

  // ---------------------------------------------------------------- strings, both ways

  /** The scanner reads every spelled string to its end, and as what it stands for unless a
      surrogate pair is split. */
  lemma SpelledReads(ps: seq<Piece>, tail: seq<Byte>, utf8: bool)
    requires Spelled(ps, utf8)
    ensures var r := ScanString(Scan(PiecesText(ps) + ([0x22] + tail), [], 0), utf8);
      r.Done? && r.rest == tail && (!Split(ps) ==> r.out == Chars(ps))
  {
    hide Split, Spelled, Chars, Unescape, ScanString, PiecesText;
    var s := Scan(PiecesText(ps) + ([0x22] + tail), [], 0);
    CharsOfFew([]);
    assert [] + Chars([]) == [] && [] + ps == ps && [] + Chars(ps) == Chars(ps);
    assert State([], ps, [], tail) == s;
    PiecesRead([], ps, [], tail, utf8);
    JsonBulk.ScanFate(s, s, utf8);
    if !Split(ps) {
      Unmixed(s, [], ps, tail, utf8);
      JsonBulk.BulkCopyExact(s, utf8);
    }
  }

  /** And every string it reads to its end is spelled. */
  lemma ReadIsSpelled(t: seq<Byte>, utf8: bool) returns (ps: seq<Piece>)
    requires ScanString(Scan(t, [], 0), utf8).Done?
    ensures var r := ScanString(Scan(t, [], 0), utf8);
      Spelled(ps, utf8) && t == PiecesText(ps) + ([0x22] + r.rest) && (!Split(ps) ==> r.out == Chars(ps))
  {
    hide Split, Spelled, Chars, Unescape, ScanString, PiecesText;
    var s := Scan(t, [], 0);
    JsonBulk.ScanFate(s, s, utf8);
    ps := StringSpelled(s, utf8);
    SpelledReads(ps, Unescape(s, utf8).rest, utf8);
  }

  // ---------------------------------------------------------------- UTF-8 in strings

  predicate Proper(p: Piece) {
    match p
    case Plain(bytes) => CharLen(bytes) == |bytes| > 0
    case Letter(_) => true
    case Code(u, _, _, _, _) => IsScalar(u)
  }

  /** Every plain character is UTF-8, and no half of a surrogate pair stands alone. */
  predicate AllProper(ps: seq<Piece>)
    decreases |ps|
  {
    if ps == [] then true
    else if |ps| >= 2 && HighCode(ps[0]) && LowCode(ps[1]) then AllProper(ps[2..])
    else Proper(ps[0]) && AllProper(ps[1..])
  }

  lemma CharFirst(c: seq<Byte>, rest: seq<Byte>)
    requires c != []
    ensures CharLen(c) == |c| ==> (WellFormed(c + rest) <==> WellFormed(rest))
    ensures ((|c| >= 2 && Lead(c[0], |c|)) || (|c| == 1 && c[0] < 0x80)) && CharLen(c) != |c| ==> !WellFormed(c + rest)
    ensures |c| == 3 && c[0] == 0xed && c[1] >= 0xa0 ==> !WellFormed(c + rest)
  {
    var t := c + rest;
    assert t[|c|..] == rest;
    assert forall i :: 0 <= i < |c| ==> t[i] == c[i];
  }

  lemma PieceFirst(p: Piece, rest: seq<Byte>)
    requires p.Plain? ==> Unescaped(p.bytes, true)
    ensures WellFormed(PieceChars(p) + rest) <==> Proper(p) && WellFormed(rest)
  {
    hide WellFormed, EncodeScalar;
    CharFirst(PieceChars(p), rest);
    if p.Code? && IsScalar(p.unit) {
      ScalarIsChar(p.unit, []);
      assert EncodeScalar(p.unit) + [] == EncodeScalar(p.unit);
    }
  }

  /** With its check the parser asks for leading and continuation bytes only. The string it reads is
      UTF-8 exactly if every plain character is and no half of a surrogate pair stands alone. */
  lemma {:induction false} ReadIsUtf8(ps: seq<Piece>)
    requires Spelled(ps, true)
    ensures WellFormed(Chars(ps)) <==> AllProper(ps)
    decreases |ps|
  {
    hide PieceChars, Proper, WellFormed, Unescaped, PairChars;
    if ps == [] {
      EmptyIsWellFormed();
    } else if |ps| >= 2 && HighCode(ps[0]) && LowCode(ps[1]) {
      ReadIsUtf8(ps[2..]);
      PairFirst(ps[0], ps[1], Chars(ps[2..]));
    } else {
      ReadIsUtf8(ps[1..]);
      PieceFirst(ps[0], Chars(ps[1..]));
    }
  }

  lemma EmptyIsWellFormed()
    ensures WellFormed([])
  {
  }

  lemma PairFirst(high: Piece, low: Piece, rest: seq<Byte>)
    requires HighCode(high) && LowCode(low)
    ensures WellFormed(PairChars(high, low) + rest) <==> WellFormed(rest)
  {
    hide WellFormed, EncodeScalar;
    var c := 0x1_0000 + (high.unit - 0xd800) * 0x400 + (low.unit - 0xdc00);
    ScalarIsChar(c, []);
    assert EncodeScalar(c) + [] == EncodeScalar(c);
    CharFirst(EncodeScalar(c), rest);
  }

  // ---------------------------------------------------------------- texts (sections 2 to 6)

  /** White space: space, tab, line feed and carriage return. */
  predicate Blank(w: seq<Byte>) {
    forall i :: 0 <= i < |w| ==> w[i] in {0x20, 0x09, 0x0a, 0x0d}
  }

  /** A number without leading zeros. */
  function Numeral(n: nat): (r: seq<Byte>)
    ensures r != []
  {
    if n < 10 then [LowerDigits[n]] else Numeral(n / 10) + [LowerDigits[n % 10]]
  }

  /** A text as a tree: every choice the grammar leaves to whoever writes it is in the tree. Numbers
      are integers; fractions and exponents are left out. */
  datatype Node =
    | WordNull
    | WordTrue
    | WordFalse
    | Number(minus: bool, n: nat)
    | Quote(pieces: seq<Piece>)
    | List(blank: seq<Byte>, items: seq<Item>)
    | Record(blank: seq<Byte>, pairs: seq<Pair>)

  /** A value with the white space around it. */
  datatype Item = Item(before: seq<Byte>, node: Node, after: seq<Byte>)

  /** A name and a value. */
  datatype Pair = Pair(before: seq<Byte>, name: seq<Piece>, gap: seq<Byte>, item: Item)

  function NodeText(d: Node): seq<Byte>
    decreases d, 2
  {
    match d
    case WordNull => [0x6e, 0x75, 0x6c, 0x6c]
    case WordTrue => [0x74, 0x72, 0x75, 0x65]
    case WordFalse => [0x66, 0x61, 0x6c, 0x73, 0x65]
    case Number(minus, n) => (if minus then [0x2d] else []) + Numeral(n)
    case Quote(ps) => QuoteText(ps)
    case List(blank, items) => [0x5b] + (if items == [] then blank else ItemsText(items)) + [0x5d]
    case Record(blank, pairs) => [0x7b] + (if pairs == [] then blank else PairsText(pairs)) + [0x7d]
  }

  function QuoteText(ps: seq<Piece>): seq<Byte> {
    [0x22] + PiecesText(ps) + [0x22]
  }

  function ItemText(x: Item): seq<Byte>
    decreases x, 3
  {
    x.before + NodeText(x.node) + x.after
  }

  function ItemsText(xs: seq<Item>): seq<Byte>
    decreases xs, 1
  {
    if xs == [] then []
    else ItemText(xs[0]) + (if |xs| == 1 then [] else [0x2c] + ItemsText(xs[1..]))
  }

  function PairText(x: Pair): seq<Byte>
    decreases x, 4
  {
    x.before + QuoteText(x.name) + x.gap + [0x3a] + ItemText(x.item)
  }

  function PairsText(xs: seq<Pair>): seq<Byte>
    decreases xs, 1
  {
    if xs == [] then []
    else PairText(xs[0]) + (if |xs| == 1 then [] else [0x2c] + PairsText(xs[1..]))
  }

  /** The tree is one of the grammar, its numbers fit 64 bits, signed or unsigned. */
  predicate Fine(d: Node, utf8: bool)
    decreases d, 2
  {
    match d
    case Number(minus, n) => n < 0x1_0000_0000_0000_0000 && (minus ==> n <= 0x8000_0000_0000_0000)
    case Quote(ps) => Spelled(ps, utf8)
    case List(blank, items) => Blank(blank) && FineItems(items, utf8)
    case Record(blank, pairs) => Blank(blank) && FinePairs(pairs, utf8)
    case _ => true
  }

  predicate FineItem(x: Item, utf8: bool)
    decreases x, 3
  {
    Blank(x.before) && Fine(x.node, utf8) && Blank(x.after)
  }

  predicate FineItems(xs: seq<Item>, utf8: bool)
    decreases xs, 1
  {
    xs == [] || (FineItem(xs[0], utf8) && FineItems(xs[1..], utf8))
  }

  predicate FinePair(x: Pair, utf8: bool)
    decreases x, 4
  {
    Blank(x.before) && Spelled(x.name, utf8) && Blank(x.gap) && FineItem(x.item, utf8)
  }

  predicate FinePairs(xs: seq<Pair>, utf8: bool)
    decreases xs, 1
  {
    xs == [] || (FinePair(xs[0], utf8) && FinePairs(xs[1..], utf8))
  }

  /** No string in the tree splits a surrogate pair. */
  ghost predicate Clear(d: Node)
    decreases d, 2
  {
    match d
    case Quote(ps) => !Split(ps)
    case List(_, items) => ClearItems(items)
    case Record(_, pairs) => ClearPairs(pairs)
    case _ => true
  }

  ghost predicate ClearItems(xs: seq<Item>)
    decreases xs, 1
  {
    xs == [] || (Clear(xs[0].node) && ClearItems(xs[1..]))
  }

  ghost predicate ClearPairs(xs: seq<Pair>)
    decreases xs, 1
  {
    xs == [] || (!Split(xs[0].name) && Clear(xs[0].item.node) && ClearPairs(xs[1..]))
  }

  /** The value a tree stands for. */
  function Meant(d: Node): Value
    decreases d, 2
  {
    match d
    case WordNull => Null
    case WordTrue => Bool(true)
    case WordFalse => Bool(false)
    case Number(minus, n) =>
      if minus then Int(if n <= 0x8000_0000_0000_0000 then 0 - n else 0)
      else UInt(if n < 0x1_0000_0000_0000_0000 then n else 0)
    case Quote(ps) => Str(Chars(ps))
    case List(_, items) => Arr(false, MeantItems(items))
    case Record(_, pairs) => Obj(false, MeantPairs(pairs))
  }

  function MeantItems(xs: seq<Item>): seq<Value>
    decreases xs, 1
  {
    if xs == [] then [] else [Meant(xs[0].node)] + MeantItems(xs[1..])
  }

  function MeantPairs(xs: seq<Pair>): seq<Member>
    decreases xs, 1
  {
    if xs == [] then [] else [Member(Chars(xs[0].name), Meant(xs[0].item.node))] + MeantPairs(xs[1..])
  }

  /** A text: a value with white space around it, behind a byte order mark or not. */
  function DocumentText(mark: bool, x: Item): seq<Byte> {
    (if mark then [0xef, 0xbb, 0xbf] else []) + ItemText(x)
  }

  /** The grammar derives `v` from the text `t`. */
  ghost predicate DerivedBy(t: seq<Byte>, v: Value, utf8: bool, mark: bool, x: Item) {
    && DocumentText(mark, x) == t && FineItem(x, utf8) && Clear(x.node)
    && Meant(x.node) == v && Slice.UniqueKeys(v)
  }

  ghost predicate Derives(t: seq<Byte>, v: Value, utf8: bool) {
    exists mark: bool, x: Item :: DerivedBy(t, v, utf8, mark, x)
  }

  /** Some string of the text splits a surrogate pair. */
  ghost predicate SplitText(t: seq<Byte>, utf8: bool) {
    exists mark: bool, x: Item :: DocumentText(mark, x) == t && FineItem(x, utf8) && !Clear(x.node)
  }

  /** The parser accepts the text and gives the value. */
  predicate Gives(t: seq<Byte>, v: Value, utf8: bool) {
    ParseText(t, utf8).Parsed? && ParseText(t, utf8).value == v
  }

  // ---------------------------------------------------------------- numbers and white space

  lemma BlankIsSpaces(w: seq<Byte>)
    ensures Blank(w) <==> Spaces(w)
  {
    assert forall i :: 0 <= i < |w| ==> (w[i] in {0x20, 0x09, 0x0a, 0x0d} <==> IsSpace(w[i]));
  }

  lemma {:induction false} SkipSplits(t: seq<Byte>) returns (w: seq<Byte>)
    ensures Blank(w) && t == w + SkipSpace(t)
  {
    if t == [] || !IsSpace(t[0]) {
      w := [];
    } else {
      var more := SkipSplits(t[1..]);
      w := [t[0]] + more;
      assert t == [t[0]] + t[1..] && w + SkipSpace(t) == [t[0]] + (more + SkipSpace(t[1..]));
    }
  }

  lemma {:induction false} NumeralIsDecimal(n: nat)
    ensures Numeral(n) == Decimal(n)
  {
    if n >= 10 { NumeralIsDecimal(n / 10); }
  }

  lemma {:induction false} DigitsAreNumeral(ds: seq<Byte>)
    requires ds != [] && (forall i :: 0 <= i < |ds| ==> IsDigit(ds[i])) && (ds[0] == 0x30 ==> |ds| == 1)
    ensures DigitsValue(ds) >= 0 && Numeral(DigitsValue(ds)) == ds
    ensures ds[0] != 0x30 ==> DigitsValue(ds) >= 1
    decreases |ds|
  {
    hide Numeral;
    var front, last := ds[..|ds| - 1], ds[|ds| - 1];
    assert ds == front + [last];
    if front == [] {
      assert DigitsValue(front) == 0;
      NumeralDigit(last - 0x30);
    } else {
      DigitsAreNumeral(front);
      NumeralNext(DigitsValue(front), last - 0x30);
    }
  }

  lemma NumeralDigit(d: nat)
    requires d < 10
    ensures Numeral(d) == [0x30 + d]
  {
  }

  lemma NumeralNext(v: nat, d: nat)
    requires v >= 1 && d < 10
    ensures Numeral(10 * v + d) == Numeral(v) + [0x30 + d]
  {
    assert (10 * v + d) / 10 == v && (10 * v + d) % 10 == d;
    hide Numeral;
    NumeralTens(10 * v + d);
  }

  lemma NumeralTens(n: nat)
    requires n >= 10
    ensures Numeral(n) == Numeral(n / 10) + [0x30 + n % 10]
  {
  }

  lemma {:induction false} DigitsCountedAre(t: seq<Byte>)
    ensures forall i :: 0 <= i < DigitCount(t) ==> IsDigit(t[i])
  {
    if t != [] && IsDigit(t[0]) {
      DigitsCountedAre(t[1..]);
      assert forall i :: 1 <= i < DigitCount(t) ==> t[i] == t[1..][i - 1];
    }
  }

  lemma NumberRead(t: seq<Byte>) returns (d: Node)
    requires t != [] && ParseNumber(t).Parsed?
    ensures d.Number? && Fine(d, true) && Fine(d, false)
    ensures t == NodeText(d) + ParseNumber(t).rest && Meant(d) == ParseNumber(t).value
  {
    hide DigitsValue, DigitCount, Numeral, ParseNumber, Fine, Meant, NodeText;
    var minus := t[0] == 0x2d;
    var u := if minus then t[1..] else t;
    var n := NumberTaken(t, u);
    DigitsAreNumeral(u[..n]);
    d := Number(minus, DigitsValue(u[..n]));
    NumberOf(minus, DigitsValue(u[..n]));
    var sign: seq<Byte> := if minus then [0x2d] else [];
    assert t == sign + u[..n] + u[n..];
  }

  lemma NumberOf(minus: bool, n: nat)
    requires n <= (if minus then 0x8000_0000_0000_0000 else 0xffff_ffff_ffff_ffff)
    ensures var d := Number(minus, n);
      && Fine(d, true) && Fine(d, false) && NodeText(d) == (if minus then [0x2d] else []) + Numeral(n)
      && Meant(d) == if minus then Int(0 - n) else UInt(n)
  {
    hide Numeral;
  }

  lemma NumberTaken(t: seq<Byte>, u: seq<Byte>) returns (n: nat)
    requires t != [] && ParseNumber(t).Parsed? && u == if t[0] == 0x2d then t[1..] else t
    ensures 1 <= n <= |u| && (forall i :: 0 <= i < n ==> IsDigit(u[i])) && (u[0] == 0x30 ==> n == 1)
    ensures ParseNumber(t).rest == u[n..]
    ensures var v := DigitsValue(u[..n]);
      && 0 <= v <= (if t[0] == 0x2d then 0x8000_0000_0000_0000 else 0xffff_ffff_ffff_ffff)
      && ParseNumber(t).value == if t[0] == 0x2d then Int(0 - v) else UInt(v)
  {
    hide DigitsValue, DigitCount;
    n := if u[0] == 0x30 then 1 else DigitCount(u);
    DigitsCountedAre(u);
    FirstCounted(u);
  }

  lemma FirstCounted(u: seq<Byte>)
    requires u != [] && IsDigit(u[0])
    ensures DigitCount(u) >= 1
  {
  }

  // ---------------------------------------------------------------- what the parser reads is in the grammar

  lemma ScalarRead(u: seq<Byte>, utf8: bool) returns (d: Node)
    requires u != [] && !IsSpace(u[0]) && u[0] != 0x7b && u[0] != 0x5b && ParseValue(u, utf8).Parsed?
    ensures Fine(d, utf8) && u == NodeText(d) + ParseValue(u, utf8).rest
    ensures Clear(d) ==> Meant(d) == ParseValue(u, utf8).value && Slice.UniqueKeys(Meant(d))
  {
    hide ParseNumber, ScanString, Split, Chars, PiecesText, Spelled;
    SkipsNothing(u);
    if u[0] == 0x74 {
      d := WordTrue;
      WordRead(TrueText, u, Bool(true));
    } else if u[0] == 0x66 {
      d := WordFalse;
      WordRead(FalseText, u, Bool(false));
    } else if u[0] == 0x6e {
      d := WordNull;
      WordRead(NullText, u, Null);
    } else if u[0] == 0x22 {
      var ps := ReadIsSpelled(u[1..], utf8);
      d := Quote(ps);
      assert u == [0x22] + u[1..];
      assert u == [0x22] + PiecesText(ps) + [0x22] + ParseValue(u, utf8).rest;
    } else {
      d := NumberRead(u);
    }
  }

  lemma WordRead(word: seq<Byte>, t: seq<Byte>, v: Value)
    requires |word| >= 1 && ParseWord(word, t, v).Parsed?
    ensures ParseWord(word, t, v).value == v && t == word + ParseWord(word, t, v).rest
  {
    assert t == t[..|word|] + t[|word|..];
  }

  ghost predicate UniqueValues(vs: seq<Value>) {
    forall i :: 0 <= i < |vs| ==> Slice.UniqueKeys(vs[i])
  }

  ghost predicate UniqueMembers(ms: seq<Member>) {
    forall i :: 0 <= i < |ms| ==> Slice.UniqueKeys(ms[i].value)
  }

  /** Whatever the parser takes from the front of a text is white space and a tree. */
  lemma {:induction false} ValueTaken(t: seq<Byte>, utf8: bool) returns (w: seq<Byte>, d: Node)
    requires ParseValue(t, utf8).Parsed?
    ensures Blank(w) && Fine(d, utf8) && t == w + (NodeText(d) + ParseValue(t, utf8).rest)
    ensures Clear(d) ==> Meant(d) == ParseValue(t, utf8).value && Slice.UniqueKeys(Meant(d))
    decreases |t|, 0
  {
    hide ParseArray, ParseObject, ParseValue, Fine, Clear, Meant, NodeText, Slice.UniqueKeys, Blank;
    w := SkipSplits(t);
    ValueCases(t, utf8);
    var u := SkipSpace(t);
    if u[0] == 0x7b {
      d := ObjectTaken(u[1..], utf8);
    } else if u[0] == 0x5b {
      d := ArrayTaken(u[1..], utf8);
    } else {
      d := ScalarRead(u, utf8);
    }
  }

  lemma ValueCases(t: seq<Byte>, utf8: bool)
    requires ParseValue(t, utf8).Parsed?
    ensures var u := SkipSpace(t);
      && u != [] && !IsSpace(u[0]) && u == [u[0]] + u[1..] && |u| <= |t| && ParseValue(u, utf8) == ParseValue(t, utf8)
      && (u[0] == 0x7b ==> ParseValue(t, utf8) == ParseObject(u[1..], utf8))
      && (u[0] == 0x5b ==> ParseValue(t, utf8) == ParseArray(u[1..], utf8))
  {
    hide ParseArray, ParseObject, ParseNumber, ParseString, ParseWord;
    SkipsNothing(SkipSpace(t));
  }

  lemma {:induction false} ArrayTaken(t: seq<Byte>, utf8: bool) returns (d: Node)
    requires ParseArray(t, utf8).Parsed?
    ensures Fine(d, utf8) && [0x5b] + t == NodeText(d) + ParseArray(t, utf8).rest
    ensures Clear(d) ==> Meant(d) == ParseArray(t, utf8).value && Slice.UniqueKeys(Meant(d))
    decreases |t|, 2
  {
    hide ParseElems, FineItems, ClearItems, MeantItems, ItemsText, Fine, Clear, Meant, NodeText, Blank,
      Slice.UniqueKeys, UniqueValues, ParseArray, SkipSpace;
    ArrayCases(t, utf8);
    var u := SkipSpace(t);
    if u[0] == 0x5d {
      var blank := SkipSplits(t);
      d := List(blank, []);
      EmptyList(blank, utf8);
      Enclosed(t, u, blank, ParseArray(t, utf8).rest);
    } else {
      var xs := ElemsTaken(t, utf8, []);
      d := List([], xs);
      ListOf(xs, utf8);
      assert [] + MeantItems(xs) == MeantItems(xs);
      Enclosed(t, [0x5d] + ParseArray(t, utf8).rest, ItemsText(xs), ParseArray(t, utf8).rest);
    }
  }

  lemma ArrayCases(t: seq<Byte>, utf8: bool)
    requires ParseArray(t, utf8).Parsed?
    ensures var u := SkipSpace(t);
      && u != []
      && (u[0] == 0x5d ==> ParseArray(t, utf8) == Parsed(Arr(false, []), u[1..]) && u == [0x5d] + u[1..])
      && (u[0] != 0x5d ==> ParseArray(t, utf8) == ParseElems(t, utf8, []))
  {
    hide ParseElems, SkipSpace;
  }

  lemma Enclosed(t: seq<Byte>, u: seq<Byte>, body: seq<Byte>, rest: seq<Byte>)
    requires t == body + u && u == [0x5d] + rest
    ensures [0x5b] + t == [0x5b] + body + [0x5d] + rest
  {
  }

  lemma EmptyList(blank: seq<Byte>, utf8: bool)
    requires Blank(blank)
    ensures var d := List(blank, []);
      && Fine(d, utf8) && NodeText(d) == [0x5b] + blank + [0x5d]
      && Meant(d) == Arr(false, []) && Slice.UniqueKeys(Meant(d))
  {
    NoItems(utf8);
  }

  lemma ListOf(xs: seq<Item>, utf8: bool)
    requires xs != [] && FineItems(xs, utf8)
    ensures var d := List([], xs);
      && Fine(d, utf8) && NodeText(d) == [0x5b] + ItemsText(xs) + [0x5d]
      && (Clear(d) <==> ClearItems(xs)) && Meant(d) == Arr(false, MeantItems(xs))
      && (UniqueValues(MeantItems(xs)) ==> Slice.UniqueKeys(Meant(d)))
  {
    hide FineItems, ClearItems, MeantItems, ItemsText;
    NoBlank([]);
    if UniqueValues(MeantItems(xs)) { UniqueArray(MeantItems(xs)); }
  }

  lemma UniqueArray(vs: seq<Value>)
    requires UniqueValues(vs)
    ensures Slice.UniqueKeys(Arr(false, vs))
  {
  }

  lemma NoItems(utf8: bool)
    ensures FineItems([], utf8) && ClearItems([]) && MeantItems([]) == []
    ensures FinePairs([], utf8) && ClearPairs([]) && MeantPairs([]) == []
  {
  }

  lemma ItemHere(t: seq<Byte>, x: Item, rest: seq<Byte>, u: seq<Byte>, utf8: bool)
    requires t == x.before + (NodeText(x.node) + rest) && rest == x.after + u
    requires Blank(x.before) && Fine(x.node, utf8) && Blank(x.after)
    ensures FineItem(x, utf8) && t == ItemText(x) + u
  {
    hide NodeText, Fine, Blank;
  }

  /** Behind an element stands the end of the array or a comma. */
  lemma ElemsCases(t: seq<Byte>, utf8: bool, done: seq<Value>)
    requires ParseElems(t, utf8, done).Parsed?
    ensures var e := ParseValue(t, utf8);
      && e.Parsed?
      && var u := SkipSpace(e.rest);
         && u != [] && u == [u[0]] + u[1..]
         && (if u[0] == 0x5d then ParseElems(t, utf8, done) == Parsed(Arr(false, done + [e.value]), u[1..])
             else u[0] == 0x2c)
  {
    hide ParseValue;
  }

  lemma {:induction false} ElemsTaken(t: seq<Byte>, utf8: bool, done: seq<Value>) returns (xs: seq<Item>)
    requires ParseElems(t, utf8, done).Parsed?
    ensures xs != [] && FineItems(xs, utf8) && t == ItemsText(xs) + ([0x5d] + ParseElems(t, utf8, done).rest)
    ensures ClearItems(xs) ==>
      ParseElems(t, utf8, done).value == Arr(false, done + MeantItems(xs)) && UniqueValues(MeantItems(xs))
    decreases |t|, 1
  {
    hide ParseValue, ParseElems, Fine, Clear, Meant, NodeText, Slice.UniqueKeys, ItemText, FineItem, ItemsText,
      FineItems, ClearItems, MeantItems, Blank;
    ElemsCases(t, utf8, done);
    var e := ParseValue(t, utf8);
    var before, node := ValueTaken(t, utf8);
    var after := SkipSplits(e.rest);
    var u := SkipSpace(e.rest);
    var x := Item(before, node, after);
    ItemHere(t, x, e.rest, u, utf8);
    if u[0] == 0x5d {
      xs := [x];
      LastItem(x, utf8);
    } else {
      var more := ElemsNext(t, utf8, done);
      xs := [x] + more;
      FirstItem(x, more, utf8);
      Regrouped(ItemText(x), ItemsText(more), [0x5d] + ParseElems(t, utf8, done).rest);
      assert done + [e.value] + MeantItems(more) == done + ([e.value] + MeantItems(more));
    }
  }

  lemma Regrouped(a: seq<Byte>, b: seq<Byte>, c: seq<Byte>)
    ensures a + ([0x2c] + (b + c)) == a + ([0x2c] + b) + c
  {
  }

  lemma {:induction false} ElemsNext(t: seq<Byte>, utf8: bool, done: seq<Value>) returns (xs: seq<Item>)
    requires ParseValue(t, utf8).Parsed? && ParseElems(t, utf8, done).Parsed?
    requires var u := SkipSpace(ParseValue(t, utf8).rest); u != [] && u[0] == 0x2c
    ensures xs != [] && FineItems(xs, utf8)
    ensures SkipSpace(ParseValue(t, utf8).rest)[1..] == ItemsText(xs) + ([0x5d] + ParseElems(t, utf8, done).rest)
    ensures ClearItems(xs) ==>
      && ParseElems(t, utf8, done).value == Arr(false, done + [ParseValue(t, utf8).value] + MeantItems(xs))
      && UniqueValues(MeantItems(xs))
    decreases |t|, 0
  {
    hide ParseValue, FineItems, ClearItems, MeantItems, ItemsText, UniqueValues;
    var e := ParseValue(t, utf8);
    xs := ElemsTaken(SkipSpace(e.rest)[1..], utf8, done + [e.value]);
  }

  lemma LastItem(x: Item, utf8: bool)
    requires FineItem(x, utf8)
    ensures FineItems([x], utf8) && ItemsText([x]) == ItemText(x) && (ClearItems([x]) <==> Clear(x.node))
    ensures MeantItems([x]) == [Meant(x.node)]
  {
    hide FineItem, ItemText, Clear, Meant;
    assert [x][1..] == [];
  }

  lemma FirstItem(x: Item, more: seq<Item>, utf8: bool)
    requires more != []
    ensures FineItems([x] + more, utf8) <==> FineItem(x, utf8) && FineItems(more, utf8)
    ensures ItemsText([x] + more) == ItemText(x) + ([0x2c] + ItemsText(more))
    ensures ClearItems([x] + more) <==> Clear(x.node) && ClearItems(more)
    ensures MeantItems([x] + more) == [Meant(x.node)] + MeantItems(more)
  {
    hide FineItem, ItemText, Clear, Meant;
    assert ([x] + more)[1..] == more;
  }

  lemma {:induction false} ObjectTaken(t: seq<Byte>, utf8: bool) returns (d: Node)
    requires ParseObject(t, utf8).Parsed?
    ensures Fine(d, utf8) && [0x7b] + t == NodeText(d) + ParseObject(t, utf8).rest
    ensures Clear(d) ==> Meant(d) == ParseObject(t, utf8).value && Slice.UniqueKeys(Meant(d))
    decreases |t|, 2
  {
    hide ParseMembers, FinePairs, ClearPairs, MeantPairs, PairsText, Distinct, Fine, Clear, Meant, NodeText, Blank,
      Keys, Slice.UniqueKeys, UniqueMembers, ParseObject, SkipSpace;
    ObjectCases(t, utf8);
    var blank := SkipSplits(t);
    var u := SkipSpace(t);
    if u[0] == 0x7d {
      d := Record(blank, []);
      EmptyRecord(blank, utf8);
      Braced(t, u, blank, ParseObject(t, utf8).rest);
    } else {
      var xs := MembersTaken(u, utf8, [], blank);
      d := Record([], xs);
      RecordOf(xs, utf8);
      assert [] + MeantPairs(xs) == MeantPairs(xs);
      assert t == PairsText(xs) + ([0x7d] + ParseObject(t, utf8).rest);
      Braced(t, [0x7d] + ParseObject(t, utf8).rest, PairsText(xs), ParseObject(t, utf8).rest);
    }
  }

  lemma ObjectCases(t: seq<Byte>, utf8: bool)
    requires ParseObject(t, utf8).Parsed?
    ensures var u := SkipSpace(t);
      && u != []
      && (u[0] == 0x7d ==> ParseObject(t, utf8) == Parsed(Obj(false, []), u[1..]) && u == [0x7d] + u[1..])
      && (u[0] != 0x7d ==> ParseObject(t, utf8) == ParseMembers(u, utf8, []))
  {
    hide ParseMembers, SkipSpace;
  }

  lemma Braced(t: seq<Byte>, u: seq<Byte>, body: seq<Byte>, rest: seq<Byte>)
    requires t == body + u && u == [0x7d] + rest
    ensures [0x7b] + t == [0x7b] + body + [0x7d] + rest
  {
  }

  lemma EmptyRecord(blank: seq<Byte>, utf8: bool)
    requires Blank(blank)
    ensures var d := Record(blank, []);
      && Fine(d, utf8) && NodeText(d) == [0x7b] + blank + [0x7d]
      && Meant(d) == Obj(false, []) && Slice.UniqueKeys(Meant(d))
  {
    NoItems(utf8);
  }

  lemma RecordOf(xs: seq<Pair>, utf8: bool)
    requires xs != [] && FinePairs(xs, utf8)
    ensures var d := Record([], xs);
      && Fine(d, utf8) && NodeText(d) == [0x7b] + PairsText(xs) + [0x7d]
      && (Clear(d) <==> ClearPairs(xs)) && Meant(d) == Obj(false, MeantPairs(xs))
      && (Distinct(Keys(MeantPairs(xs))) && UniqueMembers(MeantPairs(xs)) ==> Slice.UniqueKeys(Meant(d)))
  {
    hide FinePairs, ClearPairs, MeantPairs, PairsText, Distinct;
    NoBlank([]);
  }

  /** A name, a colon and a value. */
  lemma MemberCases(t: seq<Byte>, utf8: bool)
    requires t != [] && ParseMember(t, utf8).Parsed?
    ensures t == [0x22] + t[1..] && ParseString(t[1..], utf8).Parsed?
    ensures var k := ParseString(t[1..], utf8);
      var u := SkipSpace(k.rest);
      && u != [] && u == [0x3a] + u[1..] && ParseValue(u[1..], utf8).Parsed? && |u[1..]| < |t|
      && var v := ParseValue(u[1..], utf8);
         ParseMember(t, utf8) == Parsed(Member(k.value, v.value), v.rest)
  {
    hide ParseValue, ParseString;
  }

  lemma NameTaken(t: seq<Byte>, utf8: bool) returns (ps: seq<Piece>)
    requires ParseString(t, utf8).Parsed?
    ensures Spelled(ps, utf8) && [0x22] + t == QuoteText(ps) + ParseString(t, utf8).rest
    ensures !Split(ps) ==> ParseString(t, utf8).value == Chars(ps)
  {
    hide ScanString, Split, Chars, PiecesText, Spelled;
    ps := ReadIsSpelled(t, utf8);
    assert [0x22] + t == QuoteText(ps) + ParseString(t, utf8).rest;
  }

  lemma PairHere(t: seq<Byte>, x: Pair, rest: seq<Byte>, u: seq<Byte>, tail: seq<Byte>)
    requires t == QuoteText(x.name) + rest && rest == x.gap + ([0x3a] + u) && u == ItemText(x.item) + tail
    ensures x.before + t == PairText(x) + tail
  {
    hide QuoteText, ItemText;
  }

  /** A pair but for the white space around it. */
  lemma {:induction false} MemberTaken(t: seq<Byte>, utf8: bool) returns (x: Pair)
    requires t != [] && ParseMember(t, utf8).Parsed?
    ensures x.item.after == [] && FinePair(x, utf8) && t == PairText(x) + ParseMember(t, utf8).rest && x.before == []
    ensures !Split(x.name) && Clear(x.item.node) ==>
      && ParseMember(t, utf8).value == Member(Chars(x.name), Meant(x.item.node))
      && Slice.UniqueKeys(Meant(x.item.node))
    decreases |t|, 0
  {
    hide ParseValue, ParseMember, ParseString, Fine, Clear, Meant, NodeText, Split, Chars, Spelled, Slice.UniqueKeys,
      QuoteText, ItemText, PairText, FineItem, Blank;
    MemberCases(t, utf8);
    var k := ParseString(t[1..], utf8);
    var name := NameTaken(t[1..], utf8);
    var gap := SkipSplits(k.rest);
    var u: seq<Byte> := SkipSpace(k.rest);
    var before, node := ValueTaken(u[1..], utf8);
    var v := ParseValue(u[1..], utf8);
    x := Pair([], name, gap, Item(before, node, []));
    NoBlank(v.rest);
    ItemHere(u[1..], x.item, v.rest, v.rest, utf8);
    PairHere(t, x, k.rest, u[1..], v.rest);
    assert [] + t == t;
  }

  lemma NoBlank(t: seq<Byte>)
    ensures Blank([]) && t == [] + t
  {
  }

  /** The white space around a pair. */
  lemma PairAround(t: seq<Byte>, y: Pair, before: seq<Byte>, after: seq<Byte>, rest: seq<Byte>, u: seq<Byte>,
      utf8: bool)
    requires y.before == [] && y.item.after == [] && FinePair(y, utf8) && t == PairText(y) + rest
    requires rest == after + u && Blank(before) && Blank(after)
    ensures var x := Pair(before, y.name, y.gap, Item(y.item.before, y.item.node, after));
      FinePair(x, utf8) && before + t == PairText(x) + u
  {
    hide QuoteText, NodeText, Fine, Blank, Spelled;
    var x := Pair(before, y.name, y.gap, Item(y.item.before, y.item.node, after));
    assert t == QuoteText(y.name) + y.gap + [0x3a] + y.item.before + NodeText(y.item.node) + rest;
  }

  /** Behind a member stands the end of the object or a comma. */
  lemma MembersCases(t: seq<Byte>, utf8: bool, done: seq<Member>)
    requires t != [] && ParseMembers(t, utf8, done).Parsed?
    ensures var m := ParseMember(t, utf8);
      && m.Parsed?
      && var u := SkipSpace(m.rest);
         && u != [] && u == [u[0]] + u[1..]
         && (if u[0] == 0x7d
             then ParseMembers(t, utf8, done) == Parsed(Obj(false, done + [m.value]), u[1..])
               && Distinct(Keys(done + [m.value]))
             else u[0] == 0x2c)
  {
    hide ParseMember, Distinct, Keys;
  }

  lemma {:induction false} MembersTaken(t: seq<Byte>, utf8: bool, done: seq<Member>, before: seq<Byte>)
    returns (xs: seq<Pair>)
    requires t != [] && ParseMembers(t, utf8, done).Parsed? && Blank(before)
    ensures xs != [] && FinePairs(xs, utf8)
    ensures before + t == PairsText(xs) + ([0x7d] + ParseMembers(t, utf8, done).rest)
    ensures ClearPairs(xs) ==>
      && ParseMembers(t, utf8, done).value == Obj(false, done + MeantPairs(xs))
      && Distinct(Keys(done + MeantPairs(xs))) && UniqueMembers(MeantPairs(xs))
    decreases |t|, 1
  {
    hide ParseMember, ParseMembers, Fine, Clear, Meant, Slice.UniqueKeys, Split, Chars, Distinct, Keys, FinePair,
      FinePairs, PairText, PairsText, ClearPairs, MeantPairs, Blank;
    MembersCases(t, utf8, done);
    var m := ParseMember(t, utf8);
    var y := MemberTaken(t, utf8);
    var after := SkipSplits(m.rest);
    var u := SkipSpace(m.rest);
    var x := Pair(before, y.name, y.gap, Item(y.item.before, y.item.node, after));
    PairAround(t, y, before, after, m.rest, u, utf8);
    if u[0] == 0x7d {
      xs := [x];
      LastPair(x, utf8);
    } else {
      var more := MembersNext(t, utf8, done);
      xs := [x] + more;
      FirstPair(x, more, utf8);
      Regrouped(PairText(x), PairsText(more), [0x7d] + ParseMembers(t, utf8, done).rest);
      assert done + [m.value] + MeantPairs(more) == done + ([m.value] + MeantPairs(more));
    }
  }

  lemma {:induction false} MembersNext(t: seq<Byte>, utf8: bool, done: seq<Member>) returns (xs: seq<Pair>)
    requires t != [] && ParseMember(t, utf8).Parsed? && ParseMembers(t, utf8, done).Parsed?
    requires var u := SkipSpace(ParseMember(t, utf8).rest); u != [] && u[0] == 0x2c
    ensures xs != [] && FinePairs(xs, utf8)
    ensures SkipSpace(ParseMember(t, utf8).rest)[1..] == PairsText(xs) + ([0x7d] + ParseMembers(t, utf8, done).rest)
    ensures ClearPairs(xs) ==>
      && ParseMembers(t, utf8, done).value == Obj(false, done + [ParseMember(t, utf8).value] + MeantPairs(xs))
      && Distinct(Keys(done + [ParseMember(t, utf8).value] + MeantPairs(xs))) && UniqueMembers(MeantPairs(xs))
    decreases |t|, 0
  {
    hide ParseMember, FinePairs, ClearPairs, MeantPairs, PairsText, UniqueMembers, Distinct, Keys;
    var m := ParseMember(t, utf8);
    var u := SkipSpace(m.rest);
    var w := SkipSplits(u[1..]);
    xs := MembersTaken(SkipSpace(u[1..]), utf8, done + [m.value], w);
  }

  lemma LastPair(x: Pair, utf8: bool)
    requires FinePair(x, utf8)
    ensures FinePairs([x], utf8) && PairsText([x]) == PairText(x)
    ensures ClearPairs([x]) <==> !Split(x.name) && Clear(x.item.node)
    ensures MeantPairs([x]) == [Member(Chars(x.name), Meant(x.item.node))]
  {
    hide FinePair, PairText, Clear, Meant, Split, Chars;
    assert [x][1..] == [];
  }

  lemma FirstPair(x: Pair, more: seq<Pair>, utf8: bool)
    requires more != []
    ensures FinePairs([x] + more, utf8) <==> FinePair(x, utf8) && FinePairs(more, utf8)
    ensures PairsText([x] + more) == PairText(x) + ([0x2c] + PairsText(more))
    ensures ClearPairs([x] + more) <==> !Split(x.name) && Clear(x.item.node) && ClearPairs(more)
    ensures MeantPairs([x] + more) == [Member(Chars(x.name), Meant(x.item.node))] + MeantPairs(more)
  {
    hide FinePair, PairText, Clear, Meant, Split, Chars;
    assert ([x] + more)[1..] == more;
  }

  // ---------------------------------------------------------------- what is in the grammar the parser reads

  lemma NodeStarts(d: Node)
    ensures Json.Starts(NodeText(d)) && NodeText(d)[0] < 0x80
  {
    hide ItemsText, PairsText, PiecesText;
    if d.Number? { NumeralStarts(d.n); }
  }

  lemma NumeralStarts(n: nat)
    ensures IsDigit(Numeral(n)[0])
  {
    NumeralIsDecimal(n);
    DecimalReads(n);
  }

  /** White space and what comes behind. */
  lemma Passed(w: seq<Byte>, t: seq<Byte>)
    requires Blank(w)
    ensures SkipSpace(w + t) == SkipSpace(t) && Spaces(w)
    ensures t == [] || !IsSpace(t[0]) ==> SkipSpace(t) == t
    ensures NumberEnds(t) ==> NumberEnds(w + t)
  {
    BlankIsSpaces(w);
    SkipSpaces(w, t);
    if w != [] { assert (w + t)[0] == w[0]; } else { assert w + t == t; }
  }

  lemma WordReadBack(d: Node, tail: seq<Byte>, utf8: bool)
    requires d.WordNull? || d.WordTrue? || d.WordFalse?
    ensures ParseValue(NodeText(d) + tail, utf8) == Parsed(Meant(d), tail)
  {
    hide ParseNumber, ParseString, ParseArray, ParseObject, ParseWord;
    var t := NodeText(d) + tail;
    SkipsNothing(t);
    WordReads(NodeText(d), tail, Meant(d));
  }

  lemma NumberReadBack(d: Node, tail: seq<Byte>, utf8: bool)
    requires d.Number? && Fine(d, utf8) && NumberEnds(tail)
    ensures ParseValue(NodeText(d) + tail, utf8) == Parsed(Meant(d), tail)
  {
    hide ParseNumber, ParseString, ParseArray, ParseObject, ParseWord, Numeral, Decimal;
    NumeralIsDecimal(d.n);
    NumeralStarts(d.n);
    NumberReads(d.n, tail);
    SkipsNothing(NodeText(d) + tail);
    assert [] + Numeral(d.n) == Numeral(d.n);
  }

  lemma QuoteReadBack(ps: seq<Piece>, tail: seq<Byte>, utf8: bool)
    requires Spelled(ps, utf8) && !Split(ps)
    ensures var t := QuoteText(ps) + tail;
      t != [] && t[0] == 0x22 && ParseString(t[1..], utf8) == Parsed(Chars(ps), tail)
  {
    hide ScanString, Chars, Split, PiecesText, Spelled;
    SpelledReads(ps, tail, utf8);
    assert (QuoteText(ps) + tail)[1..] == PiecesText(ps) + ([0x22] + tail);
  }

  lemma StringReadBack(ps: seq<Piece>, tail: seq<Byte>, utf8: bool)
    requires Spelled(ps, utf8) && !Split(ps)
    ensures ParseValue(QuoteText(ps) + tail, utf8) == Parsed(Str(Chars(ps)), tail)
  {
    hide ParseNumber, ParseString, ParseArray, ParseObject, ParseWord, QuoteText, Split, Spelled, Chars;
    QuoteReadBack(ps, tail, utf8);
    SkipsNothing(QuoteText(ps) + tail);
  }

  lemma Opens(begin: Byte, t: seq<Byte>, utf8: bool)
    requires begin == 0x5b || begin == 0x7b
    ensures ParseValue([begin] + t, utf8) == if begin == 0x5b then ParseArray(t, utf8) else ParseObject(t, utf8)
  {
    hide ParseNumber, ParseString, ParseArray, ParseObject, ParseWord;
    SkipsNothing([begin] + t);
    assert ([begin] + t)[1..] == t;
  }

  /** A tree of the grammar is read as what it means. */
  lemma {:induction false} NodeReadBack(d: Node, tail: seq<Byte>, utf8: bool)
    requires Fine(d, utf8) && Clear(d) && Slice.UniqueKeys(Meant(d)) && NumberEnds(tail)
    ensures ParseValue(NodeText(d) + tail, utf8) == Parsed(Meant(d), tail)
    decreases d, 2
  {
    hide ParseValue, ParseArray, ParseObject, ItemsText, PairsText, FineItems, FinePairs, ClearItems, ClearPairs,
      MeantItems, MeantPairs, Blank, Split, Spelled, QuoteText, Numeral, Chars, Distinct, Keys;
    match d
    case Number(_, _) => NumberReadBack(d, tail, utf8);
    case Quote(ps) => StringReadBack(ps, tail, utf8);
    case List(blank, items) =>
      var t := (if items == [] then blank else ItemsText(items)) + ([0x5d] + tail);
      assert NodeText(d) + tail == [0x5b] + t;
      Opens(0x5b, t, utf8);
      ArrayReadBack(blank, items, tail, utf8);
    case Record(blank, pairs) =>
      var t := (if pairs == [] then blank else PairsText(pairs)) + ([0x7d] + tail);
      assert NodeText(d) + tail == [0x7b] + t;
      Opens(0x7b, t, utf8);
      ObjectReadBack(blank, pairs, tail, utf8);
    case _ => WordReadBack(d, tail, utf8);
  }

  /** White space, a tree, white space, and something that ends it. */
  lemma {:induction false} ItemReadBack(x: Item, tail: seq<Byte>, utf8: bool)
    requires FineItem(x, utf8) && Clear(x.node) && Slice.UniqueKeys(Meant(x.node))
    requires NumberEnds(tail) && (tail == [] || !IsSpace(tail[0]))
    ensures ParseValue(ItemText(x) + tail, utf8) == Parsed(Meant(x.node), x.after + tail)
    ensures SkipSpace(x.after + tail) == tail
    decreases x, 0
  {
    hide NodeText, Fine, Clear, Meant, ParseValue, Blank, Slice.UniqueKeys, SkipSpace;
    Passed(x.after, tail);
    NodeReadBack(x.node, x.after + tail, utf8);
    var t := NodeText(x.node) + (x.after + tail);
    Passed(x.before, t);
    assert ItemText(x) + tail == x.before + t;
    SameBehindSpace(x.before + t, t, utf8);
  }

  lemma SameBehindSpace(t: seq<Byte>, u: seq<Byte>, utf8: bool)
    requires SkipSpace(t) == SkipSpace(u)
    ensures ParseValue(t, utf8) == ParseValue(u, utf8)
  {
    hide ParseArray, ParseObject, ParseNumber, ParseString, ParseWord;
  }

  lemma {:induction false} ArrayReadBack(blank: seq<Byte>, items: seq<Item>, tail: seq<Byte>, utf8: bool)
    requires Blank(blank) && FineItems(items, utf8) && ClearItems(items) && UniqueValues(MeantItems(items))
    ensures ParseArray((if items == [] then blank else ItemsText(items)) + ([0x5d] + tail), utf8)
      == Parsed(Arr(false, MeantItems(items)), tail)
    decreases items, 2
  {
    hide ParseElems, FineItems, ClearItems, MeantItems, ItemsText, Blank;
    assert ([0x5d] + tail)[1..] == tail;
    if items == [] {
      Passed(blank, [0x5d] + tail);
      NoItems(utf8);
    } else {
      ItemsReadBack(items, tail, utf8, []);
      ItemsStart(items, [0x5d] + tail, utf8);
      assert [] + MeantItems(items) == MeantItems(items);
    }
  }

  lemma ItemsStart(items: seq<Item>, tail: seq<Byte>, utf8: bool)
    requires items != [] && FineItems(items, utf8)
    ensures Json.Starts(SkipSpace(ItemsText(items) + tail))
  {
    hide NodeText, Fine, Blank;
    var x := items[0];
    var more := if |items| == 1 then [] else [0x2c] + ItemsText(items[1..]);
    var t := NodeText(x.node) + (x.after + more + tail);
    NodeStarts(x.node);
    Passed(x.before, t);
    assert ItemsText(items) == ItemText(x) + more;
    assert ItemsText(items) + tail == x.before + t;
  }

  lemma {:induction false} ItemsReadBack(items: seq<Item>, tail: seq<Byte>, utf8: bool, done: seq<Value>)
    requires items != [] && FineItems(items, utf8) && ClearItems(items) && UniqueValues(MeantItems(items))
    ensures ParseElems(ItemsText(items) + ([0x5d] + tail), utf8, done)
      == Parsed(Arr(false, done + MeantItems(items)), tail)
    decreases items, 1
  {
    hide ParseValue, ParseElems, FineItem, Clear, Meant, ItemText, Slice.UniqueKeys, ItemsText, FineItems, ClearItems,
      MeantItems;
    var x, more := items[0], items[1..];
    assert items == [x] + more;
    if more == [] {
      assert items == [x];
      LastItemConditions(x, utf8);
      ItemReadBack(x, [0x5d] + tail, utf8);
      ElemsEnd(ItemText(x) + ([0x5d] + tail), x.after + ([0x5d] + tail), Meant(x.node), tail, utf8, done);
    } else {
      FirstItemConditions(x, more, utf8);
      var behind := ItemsText(more) + ([0x5d] + tail);
      Regrouped(ItemText(x), ItemsText(more), [0x5d] + tail);
      FirstItem(x, more, utf8);
      assert ItemsText(items) + ([0x5d] + tail) == ItemText(x) + ([0x2c] + behind);
      ItemReadBack(x, [0x2c] + behind, utf8);
      ItemsReadBack(more, tail, utf8, done + [Meant(x.node)]);
      ElemsMore(ItemText(x) + ([0x2c] + behind), x.after + ([0x2c] + behind), Meant(x.node), behind, utf8, done);
      assert done + [Meant(x.node)] + MeantItems(more) == done + ([Meant(x.node)] + MeantItems(more));
    }
  }

  lemma LastItemConditions(x: Item, utf8: bool)
    requires FineItems([x], utf8) && ClearItems([x]) && UniqueValues(MeantItems([x]))
    ensures FineItem(x, utf8) && Clear(x.node) && Slice.UniqueKeys(Meant(x.node))
    ensures ItemsText([x]) == ItemText(x) && MeantItems([x]) == [Meant(x.node)]
  {
    hide FineItem, Clear, Meant, Slice.UniqueKeys, ItemText;
    assert [x][1..] == [];
    assert MeantItems([x])[0] == Meant(x.node);
  }

  lemma FirstItemConditions(x: Item, more: seq<Item>, utf8: bool)
    requires more != [] && FineItems([x] + more, utf8) && ClearItems([x] + more) && UniqueValues(MeantItems([x] + more))
    ensures FineItem(x, utf8) && Clear(x.node) && Slice.UniqueKeys(Meant(x.node))
    ensures FineItems(more, utf8) && ClearItems(more) && UniqueValues(MeantItems(more))
  {
    hide FineItem, Clear, Meant, Slice.UniqueKeys, ItemText, FineItems, ClearItems, MeantItems, ItemsText;
    FirstItem(x, more, utf8);
    var vs := MeantItems([x] + more);
    assert vs[0] == Meant(x.node);
    assert forall i :: 0 <= i < |MeantItems(more)| ==> MeantItems(more)[i] == vs[i + 1];
  }

  lemma ElemsEnd(t: seq<Byte>, rest: seq<Byte>, v: Value, tail: seq<Byte>, utf8: bool, done: seq<Value>)
    requires ParseValue(t, utf8) == Parsed(v, rest) && SkipSpace(rest) == [0x5d] + tail
    ensures ParseElems(t, utf8, done) == Parsed(Arr(false, done + [v]), tail)
  {
    hide ParseValue;
    assert ([0x5d] + tail)[1..] == tail;
  }

  lemma ElemsMore(t: seq<Byte>, rest: seq<Byte>, v: Value, behind: seq<Byte>, utf8: bool, done: seq<Value>)
    requires ParseValue(t, utf8) == Parsed(v, rest) && SkipSpace(rest) == [0x2c] + behind
    ensures ParseElems(t, utf8, done) == ParseElems(behind, utf8, done + [v])
  {
    hide ParseValue;
    assert ([0x2c] + behind)[1..] == behind;
  }

  lemma {:induction false} ObjectReadBack(blank: seq<Byte>, pairs: seq<Pair>, tail: seq<Byte>, utf8: bool)
    requires Blank(blank) && FinePairs(pairs, utf8) && ClearPairs(pairs)
    requires UniqueMembers(MeantPairs(pairs)) && Distinct(Keys(MeantPairs(pairs)))
    ensures ParseObject((if pairs == [] then blank else PairsText(pairs)) + ([0x7d] + tail), utf8)
      == Parsed(Obj(false, MeantPairs(pairs)), tail)
    decreases pairs, 2
  {
    hide ParseMembers, FinePairs, ClearPairs, MeantPairs, PairsText, Blank, Distinct, Keys;
    assert ([0x7d] + tail)[1..] == tail;
    if pairs == [] {
      Passed(blank, [0x7d] + tail);
      NoItems(utf8);
    } else {
      assert [] + MeantPairs(pairs) == MeantPairs(pairs);
      PairsReadBack(pairs, tail, utf8, []);
    }
  }

  lemma {:induction false} PairReadBack(x: Pair, tail: seq<Byte>, utf8: bool)
    requires FinePair(x, utf8) && !Split(x.name) && Clear(x.item.node) && Slice.UniqueKeys(Meant(x.item.node))
    requires NumberEnds(tail) && (tail == [] || !IsSpace(tail[0]))
    ensures var t := SkipSpace(PairText(x) + tail);
      && t != [] && t[0] == 0x22
      && ParseMember(t, utf8) == Parsed(Member(Chars(x.name), Meant(x.item.node)), x.item.after + tail)
    ensures SkipSpace(x.item.after + tail) == tail
    decreases x, 1
  {
    PairBegins(x, tail, utf8);
    hide ParseValue, ParseString, ParseMember, FineItem, Clear, Meant, ItemText, QuoteText, Split, Spelled, Chars,
      Blank, Slice.UniqueKeys, PairText, FinePair, NumberEnds, SkipSpace;
    var behind := ItemText(x.item) + tail;
    var u := x.gap + ([0x3a] + behind);
    var t := QuoteText(x.name) + u;
    QuoteReadBack(x.name, u, utf8);
    Passed(x.before, t);
    Passed(x.gap, [0x3a] + behind);
    ItemReadBack(x.item, tail, utf8);
    MemberIs(t, u, behind, Chars(x.name), Meant(x.item.node), x.item.after + tail, utf8);
  }

  lemma PairBegins(x: Pair, tail: seq<Byte>, utf8: bool)
    requires FinePair(x, utf8)
    ensures Blank(x.before) && Spelled(x.name, utf8) && Blank(x.gap) && FineItem(x.item, utf8)
    ensures PairText(x) + tail == x.before + (QuoteText(x.name) + (x.gap + ([0x3a] + (ItemText(x.item) + tail))))
  {
    hide QuoteText, ItemText, FineItem, Blank, Spelled;
  }

  lemma MemberIs(t: seq<Byte>, u: seq<Byte>, behind: seq<Byte>, name: seq<Byte>, v: Value, rest: seq<Byte>, utf8: bool)
    requires t != [] && t[0] == 0x22 && ParseString(t[1..], utf8) == Parsed(name, u)
    requires SkipSpace(u) == [0x3a] + behind && ParseValue(behind, utf8) == Parsed(v, rest)
    ensures ParseMember(t, utf8) == Parsed(Member(name, v), rest)
  {
    hide ParseValue, ParseString;
    assert ([0x3a] + behind)[1..] == behind;
  }

  lemma {:induction false} PairsReadBack(pairs: seq<Pair>, tail: seq<Byte>, utf8: bool, done: seq<Member>)
    requires pairs != [] && FinePairs(pairs, utf8) && ClearPairs(pairs) && UniqueMembers(MeantPairs(pairs))
    requires Distinct(Keys(done + MeantPairs(pairs)))
    ensures var t := SkipSpace(PairsText(pairs) + ([0x7d] + tail));
      && t != [] && t[0] == 0x22
      && ParseMembers(t, utf8, done) == Parsed(Obj(false, done + MeantPairs(pairs)), tail)
    decreases pairs, 1
  {
    hide ParseMember, ParseMembers, FinePair, Clear, Meant, PairText, Slice.UniqueKeys, PairsText, FinePairs,
      ClearPairs, MeantPairs, Distinct, Keys, Split, Chars;
    var x, more := pairs[0], pairs[1..];
    assert pairs == [x] + more;
    var m := Member(Chars(x.name), Meant(x.item.node));
    if more == [] {
      assert pairs == [x];
      LastPairConditions(x, utf8);
      PairReadBack(x, [0x7d] + tail, utf8);
      MembersEnd(SkipSpace(PairText(x) + ([0x7d] + tail)), x.item.after + ([0x7d] + tail), m, tail, utf8, done);
    } else {
      FirstPairConditions(x, more, utf8);
      var behind := PairsText(more) + ([0x7d] + tail);
      Regrouped(PairText(x), PairsText(more), [0x7d] + tail);
      FirstPair(x, more, utf8);
      assert PairsText(pairs) + ([0x7d] + tail) == PairText(x) + ([0x2c] + behind);
      PairReadBack(x, [0x2c] + behind, utf8);
      assert done + [m] + MeantPairs(more) == done + ([m] + MeantPairs(more));
      PairsReadBack(more, tail, utf8, done + [m]);
      MembersMore(SkipSpace(PairText(x) + ([0x2c] + behind)), x.item.after + ([0x2c] + behind), m, behind, utf8, done);
    }
  }

  lemma LastPairConditions(x: Pair, utf8: bool)
    requires FinePairs([x], utf8) && ClearPairs([x]) && UniqueMembers(MeantPairs([x]))
    ensures FinePair(x, utf8) && !Split(x.name) && Clear(x.item.node) && Slice.UniqueKeys(Meant(x.item.node))
    ensures PairsText([x]) == PairText(x) && MeantPairs([x]) == [Member(Chars(x.name), Meant(x.item.node))]
  {
    hide FinePair, Clear, Meant, Slice.UniqueKeys, PairText, Split, Chars;
    assert [x][1..] == [];
    assert MeantPairs([x])[0].value == Meant(x.item.node);
  }

  lemma FirstPairConditions(x: Pair, more: seq<Pair>, utf8: bool)
    requires more != [] && FinePairs([x] + more, utf8) && ClearPairs([x] + more)
    requires UniqueMembers(MeantPairs([x] + more))
    ensures FinePair(x, utf8) && !Split(x.name) && Clear(x.item.node) && Slice.UniqueKeys(Meant(x.item.node))
    ensures FinePairs(more, utf8) && ClearPairs(more) && UniqueMembers(MeantPairs(more))
  {
    hide FinePair, Clear, Meant, Slice.UniqueKeys, PairText, FinePairs, ClearPairs, MeantPairs, PairsText, Split, Chars;
    FirstPair(x, more, utf8);
    var ms := MeantPairs([x] + more);
    assert ms[0].value == Meant(x.item.node);
    assert forall i :: 0 <= i < |MeantPairs(more)| ==> MeantPairs(more)[i] == ms[i + 1];
  }

  lemma MembersEnd(t: seq<Byte>, rest: seq<Byte>, m: Member, tail: seq<Byte>, utf8: bool, done: seq<Member>)
    requires t != [] && ParseMember(t, utf8) == Parsed(m, rest) && SkipSpace(rest) == [0x7d] + tail
    requires Distinct(Keys(done + [m]))
    ensures ParseMembers(t, utf8, done) == Parsed(Obj(false, done + [m]), tail)
  {
    hide ParseMember, Distinct, Keys;
    assert ([0x7d] + tail)[1..] == tail;
  }

  lemma MembersMore(t: seq<Byte>, rest: seq<Byte>, m: Member, behind: seq<Byte>, utf8: bool, done: seq<Member>)
    requires t != [] && ParseMember(t, utf8) == Parsed(m, rest) && SkipSpace(rest) == [0x2c] + behind
    requires SkipSpace(behind) != []
    ensures ParseMembers(t, utf8, done) == ParseMembers(SkipSpace(behind), utf8, done + [m])
  {
    hide ParseMember, Distinct, Keys;
    assert ([0x2c] + behind)[1..] == behind;
  }

  // ---------------------------------------------------------------- whole texts

  lemma MarkRead(mark: bool, x: Item, utf8: bool)
    requires FineItem(x, utf8)
    ensures var t := DocumentText(mark, x);
      ItemText(x) == if |t| >= 3 && t[0] == 0xef && t[1] == 0xbb && t[2] == 0xbf then t[3..] else t
  {
    hide NodeText, Fine;
    NodeStarts(x.node);
    var t := DocumentText(mark, x);
    if mark {
      assert t[3..] == ItemText(x);
    } else {
      assert t == ItemText(x);
      assert ItemText(x)[0] == if x.before == [] then NodeText(x.node)[0] else x.before[0];
    }
  }

  lemma DerivedIsGiven(t: seq<Byte>, v: Value, utf8: bool)
    requires Derives(t, v, utf8)
    ensures Gives(t, v, utf8)
  {
    hide ParseValue, FineItem, Clear, Meant, ItemText, Slice.UniqueKeys, DocumentText;
    var mark: bool, x: Item :| DerivedBy(t, v, utf8, mark, x);
    MarkRead(mark, x, utf8);
    ItemReadBack(x, [], utf8);
    assert ItemText(x) + [] == ItemText(x) && x.after + [] == x.after;
  }

  lemma GivenIsDerived(t: seq<Byte>, v: Value, utf8: bool)
    requires Gives(t, v, utf8)
    ensures Derives(t, v, utf8) || SplitText(t, utf8)
  {
    hide ParseValue, Fine, Clear, Meant, NodeText, Slice.UniqueKeys, Blank;
    var mark := |t| >= 3 && t[0] == 0xef && t[1] == 0xbb && t[2] == 0xbf;
    var u := if mark then t[3..] else t;
    var before, node := ValueTaken(u, utf8);
    var rest := ParseValue(u, utf8).rest;
    var after := SkipSplits(rest);
    assert after == rest;
    var x := Item(before, node, after);
    assert u == ItemText(x);
    assert t == (if mark then [0xef, 0xbb, 0xbf] else []) + u;
    assert DocumentText(mark, x) == t;
    if Clear(node) { assert DerivedBy(t, v, utf8, mark, x); }
  }

  /** Main theorem: unless a surrogate pair is split, the parser gives a value for a text exactly if
      the grammar derives it; what no value derives is refused. */
  lemma ParserIsGrammar(t: seq<Byte>, v: Value, utf8: bool)
    requires !SplitText(t, utf8)
    ensures Gives(t, v, utf8) <==> Derives(t, v, utf8)
  {
    if Gives(t, v, utf8) { GivenIsDerived(t, v, utf8); }
    if Derives(t, v, utf8) { DerivedIsGiven(t, v, utf8); }
  }

  /** A text with an overlong form of the character 0, which the parser accepts although it checks. */
  lemma OverlongAccepted()
    ensures var t: seq<Byte> := [0x22, 0xc0, 0x80, 0x22]; Gives(t, Str([0xc0, 0x80]), true) && !WellFormed([0xc0, 0x80])
  {
    var ps := [Plain([0xc0, 0x80])];
    assert ps[1..] == [];
    assert Chars(ps) == [0xc0, 0x80];
    var x := Item([], Quote(ps), []);
    assert DerivedBy([0x22, 0xc0, 0x80, 0x22], Str([0xc0, 0x80]), true, false, x);
    DerivedIsGiven([0x22, 0xc0, 0x80, 0x22], Str([0xc0, 0x80]), true);
  }
}
