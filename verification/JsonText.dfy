/** JSON text as the dumper prints it and as the parser reads it (sections 6 and 7 of RFC 8259). */
module JsonText {
  import opened Bytes
  import opened Format
  import opened Utf8

  // ---------------------------------------------------------------- printing strings

  datatype DumpOptions = DumpOptions(prettyPrint: bool, escapeForwardSlashes: bool, escapeUnicode: bool,
      doubleText: UInt64 -> seq<Byte>)

  function Hex(d: nat): Byte
    requires d < 16
  {
    if d < 10 then 0x30 + d else 0x41 + d - 10
  }

  /** \uXXXX. */
  function UnicodeText(v: nat): (r: seq<Byte>)
    requires v < 0x1_0000
    ensures |r| == 6
  {
    [0x5c, 0x75, Hex(v / 0x1000), Hex(v / 0x100 % 16), Hex(v / 16 % 16), Hex(v % 16)]
  }

  /** The letter behind the backslash, 0 for a character that stands for itself. */
  function EscapeLetter(c: Byte): Byte {
    if c == 0x08 then 0x62
    else if c == 0x09 then 0x74
    else if c == 0x0a then 0x6e
    else if c == 0x0c then 0x66
    else if c == 0x0d then 0x72
    else if c < 0x20 then 0x75
    else if c == 0x22 || c == 0x2f || c == 0x5c then c
    else 0
  }

  function EscapeAscii(o: DumpOptions, c: Byte): (r: seq<Byte>)
    requires c < 0x80
    ensures r != []
  {
    var e := EscapeLetter(c);
    if e == 0 then [c]
    else if e == 0x75 then [0x5c, e, 0x30, 0x30, Hex(c / 16), Hex(c % 16)]
    else if c == 0x2f && !o.escapeForwardSlashes then [e]
    else [0x5c, e]
  }

  /** Bytes of the sequence that begins with `c`; 0 for a byte that begins none. */
  function LeadLength(c: Byte): nat {
    if c < 0x80 then 1 else if c < 0xc0 then 0 else if c < 0xe0 then 2 else if c < 0xf0 then 3 else if c < 0xf8 then 4
      else 0
  }

  /** The low bits of a byte. */
  function Bits(c: Byte, m: nat): nat
    requires m > 0
  {
    c as int % m
  }

  function CodePoint(s: seq<Byte>): nat
    requires |s| >= 2 && LeadLength(s[0]) <= |s|
  {
    var n := LeadLength(s[0]);
    if n == 2 then Bits(s[0], 32) * 64 + Bits(s[1], 64)
    else if n == 3 then Bits(s[0], 16) * 0x1000 + Bits(s[1], 64) * 64 + Bits(s[2], 64)
    else if n == 4 then Bits(s[0], 16) * 0x4_0000 + Bits(s[1], 64) * 0x1000 + Bits(s[2], 64) * 64 + Bits(s[3], 64)
    else 0
  }

  /** A code point beyond 16 bits is written as two surrogates. */
  function SurrogatesText(c: nat): seq<Byte> {
    var v := (c - 0x1_0000) % 0x1_0000_0000;
    UnicodeText(v / 0x400 % 0x400 + 0xd800) + UnicodeText(v % 0x400 + 0xdc00)
  }

  function EscapeMulti(o: DumpOptions, s: seq<Byte>): seq<Byte>
    requires s != [] && 2 <= LeadLength(s[0]) <= |s|
  {
    var n := LeadLength(s[0]);
    if !o.escapeUnicode then s[..n]
    else if n == 4 then SurrogatesText(CodePoint(s))
    else UnicodeText(CodePoint(s))
  }

  /** What `dumpString` appends, up to a sequence cut off at the end. */
  function Escape(o: DumpOptions, s: seq<Byte>): seq<Byte>
    decreases |s|
  {
    if s == [] then []
    else
      var n := LeadLength(s[0]);
      if n > |s| then []
      else if n == 1 then EscapeAscii(o, s[0]) + Escape(o, s[1..])
      else if n == 0 then Escape(o, s[1..])
      else EscapeMulti(o, s) + Escape(o, s[n..])
  }

  /** No sequence is cut off at the end. */
  predicate Whole(s: seq<Byte>)
    decreases |s|
  {
    s == [] ||
    var n := LeadLength(s[0]);
    n <= |s| && Whole(s[if n == 0 then 1 else n..])
  }

  // ---------------------------------------------------------------- reading strings

  datatype JsonError =
    | ParseError | UnexpectedControlCharacter | InvalidUtf8Sequence | DuplicateAttributeName | FloatingPoint

  /** The state of the string scanner: text to come, bytes produced, high surrogate or 0. */
  datatype Scan = Scan(rest: seq<Byte>, out: seq<Byte>, high: nat)

  datatype Outcome = More(scan: Scan) | Done(out: seq<Byte>, rest: seq<Byte>) | Fault(error: JsonError)

  predicate Copyable(c: Byte, utf8: bool) {
    c >= 0x20 && c != 0x5c && c != 0x22 && (utf8 ==> c < 0x80)
  }

  /** How many bytes the bulk copy takes. */
  function RunLength(t: seq<Byte>, limit: nat, utf8: bool): (n: nat)
    requires limit <= |t|
    ensures n <= limit && forall i :: 0 <= i < n ==> Copyable(t[i], utf8)
    ensures n < limit ==> !Copyable(t[n], utf8)
    decreases limit
  {
    if limit == 0 || !Copyable(t[0], utf8) then 0 else 1 + RunLength(t[1..], limit - 1, utf8)
  }

  /** The bulk copy, taken with 16 bytes or more to go. It leaves the surrogate alone. */
  function Bulk(s: Scan, utf8: bool): (r: Scan)
    ensures |r.rest| <= |s.rest|
  {
    if |s.rest| < 16 then s
    else
      var n := RunLength(s.rest, |s.rest| - 15, utf8);
      Scan(s.rest[n..], s.out + s.rest[..n], s.high)
  }

  function HexValue(c: Byte): int {
    if 0x30 <= c <= 0x39 then c - 0x30
    else if 0x61 <= c <= 0x66 then c - 0x61 + 10
    else if 0x41 <= c <= 0x46 then c - 0x41 + 10
    else -1
  }

  function Utf8Of2(v: nat): seq<Byte>
    requires v < 0x800
  {
    [0xc0 + v / 64, 0x80 + v % 64]
  }

  function Utf8Of3(v: nat): (r: seq<Byte>)
    requires v < 0x1_0000
    ensures |r| == 3
  {
    [0xe0 + v / 0x1000, 0x80 + v / 64 % 64, 0x80 + v % 64]
  }

  function Utf8Of4(v: nat): seq<Byte>
    requires v < 0x20_0000
  {
    [0xf0 + v / 0x4_0000, 0x80 + v / 0x1000 % 64, 0x80 + v / 64 % 64, 0x80 + v % 64]
  }

  predicate IsHigh(v: nat) {
    0xd800 <= v < 0xdc00
  }

  function Dropped(out: seq<Byte>): seq<Byte> {
    if |out| >= 3 then out[..|out| - 3] else []
  }

  /** A \uXXXX escape of value `v`, the text behind it being `rest`. */
  function Unicode(rest: seq<Byte>, out: seq<Byte>, high: nat, v: nat): Scan
    requires v < 0x1_0000 && (high == 0 || IsHigh(high))
  {
    if v < 0x80 then Scan(rest, out + [v], 0)
    else if v < 0x800 then Scan(rest, out + Utf8Of2(v), 0)
    else if 0xdc00 <= v < 0xe000 && high != 0 then
      Scan(rest, Dropped(out) + Utf8Of4(0x1_0000 + (high - 0xd800) * 0x400 + v - 0xdc00), 0)
    else Scan(rest, out + Utf8Of3(v), if IsHigh(v) then v else 0)
  }

  predicate Sane(s: Scan) {
    s.high == 0 || (IsHigh(s.high) && |s.out| >= 3)
  }

  /** The escapes of one letter; -1 for any other letter. */
  function LetterValue(c: Byte): int {
    if c == 0x22 || c == 0x2f || c == 0x5c then c
    else if c == 0x62 then 0x08
    else if c == 0x66 then 0x0c
    else if c == 0x6e then 0x0a
    else if c == 0x72 then 0x0d
    else if c == 0x74 then 0x09
    else -1
  }

  function Escaped(s: Scan): Outcome
    requires Sane(s) && |s.rest| >= 1
  {
    var t := s.rest;
    if |t| < 2 then Fault(ParseError)
    else if LetterValue(t[1]) >= 0 then More(Scan(t[2..], s.out + [LetterValue(t[1])], 0))
    else if t[1] != 0x75 || |t| < 6 || exists i :: 2 <= i < 6 && HexValue(t[i]) < 0 then Fault(ParseError)
    else More(Unicode(t[6..], s.out, s.high, HexFour(t)))
  }

  function HexFour(t: seq<Byte>): (v: nat)
    requires |t| >= 6 && forall i :: 2 <= i < 6 ==> HexValue(t[i]) >= 0
    ensures v < 0x1_0000
  {
    HexValue(t[2]) * 0x1000 + HexValue(t[3]) * 0x100 + HexValue(t[4]) * 16 + HexValue(t[5])
  }

  /** Continuation bytes of a multi-byte sequence, checked for their two high bits only. */
  function Continued(t: seq<Byte>, out: seq<Byte>, follow: nat): Outcome
    decreases follow
  {
    if follow == 0 then More(Scan(t, out, 0))
    else if t == [] then Fault(ParseError)
    else if !(0x80 <= t[0] < 0xc0) then Fault(InvalidUtf8Sequence)
    else Continued(t[1..], out + [t[0]], follow - 1)
  }

  /** One character, escape or closing quote. */
  function Token(s: Scan, utf8: bool): (r: Outcome)
    requires Sane(s)
  {
    var t := s.rest;
    if t == [] then Fault(ParseError)
    else if t[0] == 0x22 then Done(s.out, t[1..])
    else if t[0] == 0x5c then Escaped(s)
    else if t[0] < 0x20 then Fault(UnexpectedControlCharacter)
    else if t[0] < 0x80 || !utf8 then More(Scan(t[1..], s.out + [t[0]], 0))
    else if LeadLength(t[0]) == 0 then Fault(InvalidUtf8Sequence)
    else Continued(t[1..], s.out + [t[0]], LeadLength(t[0]) - 1)
  }

  lemma {:induction false} ContinuedShrinks(t: seq<Byte>, out: seq<Byte>, follow: nat)
    ensures var r := Continued(t, out, follow);
      && !r.Done? && (r.More? ==> |r.scan.rest| <= |t| && r.scan.high == 0 && |r.scan.out| >= |out|)
    decreases follow
  {
    if follow > 0 && t != [] { ContinuedShrinks(t[1..], out + [t[0]], follow - 1); }
  }

  lemma TokenShrinks(s: Scan, utf8: bool)
    requires Sane(s)
    ensures var r := Token(s, utf8);
      && (r.More? ==> |r.scan.rest| < |s.rest| && Sane(r.scan) && |r.scan.out| > |s.out|)
      && (r.Done? ==> |r.rest| < |s.rest| && r.out == s.out)
  {
    if s.rest != [] && LeadLength(s.rest[0]) > 0 {
      ContinuedShrinks(s.rest[1..], s.out + [s.rest[0]], LeadLength(s.rest[0]) - 1);
    }
  }

  /** What `parseString` makes of the text behind an opening quote. */
  function ScanString(s: Scan, utf8: bool): (r: Outcome)
    requires Sane(s)
    ensures !r.More? && (r.Done? ==> |r.rest| < |s.rest|)
    decreases |s.rest|
  {
    var b := Bulk(s, utf8);
    TokenShrinks(b, utf8);
    var r := Token(b, utf8);
    if r.More? then ScanString(r.scan, utf8) else r
  }

  /** The same without the bulk copy. */
  function Unescape(s: Scan, utf8: bool): (r: Outcome)
    requires Sane(s)
    ensures !r.More?
    decreases |s.rest|
  {
    TokenShrinks(s, utf8);
    var r := Token(s, utf8);
    if r.More? then Unescape(r.scan, utf8) else r
  }

  // ---------------------------------------------------------------- when the bulk copy is harmless

  /** A high surrogate is never directly followed by a byte the bulk copy would take. */
  predicate Tame(s: Scan, utf8: bool)
    requires Sane(s)
    decreases |s.rest|
  {
    && (s.high != 0 && s.rest != [] ==> !Copyable(s.rest[0], utf8))
    && (TokenShrinks(s, utf8);
        var r := Token(s, utf8);
        r.More? ==> Tame(r.scan, utf8))
  }

  lemma CopyableToken(s: Scan, utf8: bool)
    requires Sane(s) && s.rest != [] && Copyable(s.rest[0], utf8)
    ensures Token(s, utf8) == More(Scan(s.rest[1..], s.out + [s.rest[0]], 0))
  {
  }

  /** Copying ahead is scanning ahead. */
  lemma {:induction false} RunIsTokens(t: seq<Byte>, out: seq<Byte>, n: nat, utf8: bool)
    requires n <= |t| && forall i :: 0 <= i < n ==> Copyable(t[i], utf8)
    ensures Unescape(Scan(t, out, 0), utf8) == Unescape(Scan(t[n..], out + t[..n], 0), utf8)
    ensures Tame(Scan(t, out, 0), utf8) ==> Tame(Scan(t[n..], out + t[..n], 0), utf8)
    decreases n
  {
    hide Token, Copyable;
    if n == 0 {
      assert t[0..] == t && out + t[..0] == out;
    } else {
      CopyableToken(Scan(t, out, 0), utf8);
      RunIsTokens(t[1..], out + [t[0]], n - 1, utf8);
      assert t[1..][n - 1..] == t[n..] && out + [t[0]] + t[1..][..n - 1] == out + t[..n];
    }
  }

  lemma BulkIsTokens(s: Scan, utf8: bool)
    requires Sane(s) && Tame(s, utf8)
    ensures Sane(Bulk(s, utf8)) && Tame(Bulk(s, utf8), utf8) && Unescape(Bulk(s, utf8), utf8) == Unescape(s, utf8)
  {
    hide Token;
    if |s.rest| >= 16 {
      var n := RunLength(s.rest, |s.rest| - 15, utf8);
      if s.high == 0 {
        RunIsTokens(s.rest, s.out, n, utf8);
      } else {
        assert n == 0;
        assert s.rest[0..] == s.rest && s.out + s.rest[..0] == s.out;
      }
    }
  }

  lemma {:induction false} TameScan(s: Scan, utf8: bool)
    requires Sane(s) && Tame(s, utf8)
    ensures ScanString(s, utf8) == Unescape(s, utf8)
    decreases |s.rest|
  {
    hide Token, Bulk;
    var b := Bulk(s, utf8);
    BulkIsTokens(s, utf8);
    TokenShrinks(b, utf8);
    if Token(b, utf8).More? { TameScan(Token(b, utf8).scan, utf8); }
  }

  // ---------------------------------------------------------------- strings round trip

  lemma HexBack(d: nat)
    requires d < 16
    ensures HexValue(Hex(d)) == d
  {
  }

  lemma FourDigits(v: nat)
    requires v < 0x1_0000
    ensures v / 0x1000 < 16 && v / 0x1000 * 0x1000 + v / 0x100 % 16 * 0x100 + v / 16 % 16 * 16 + v % 16 == v
  {
    assert v / 0x100 == v / 0x1000 * 16 + v / 0x100 % 16;
    assert v / 16 == v / 0x100 * 16 + v / 16 % 16;
  }

  lemma UnicodeBack(v: nat, rest: seq<Byte>)
    requires v < 0x1_0000
    ensures var t := UnicodeText(v) + rest;
      t[0] == 0x5c && t[1] == 0x75 && t[6..] == rest && (forall i :: 2 <= i < 6 ==> HexValue(t[i]) >= 0) &&
        HexFour(t) == v
  {
    hide Hex, HexValue;
    var t := UnicodeText(v) + rest;
    assert t[6..] == rest;
    assert t[2] == Hex(v / 0x1000) && t[3] == Hex(v / 0x100 % 16) && t[4] == Hex(v / 16 % 16) && t[5] == Hex(v % 16);
    hide UnicodeText;
    HexBack(v / 0x1000);
    HexBack(v / 0x100 % 16);
    HexBack(v / 16 % 16);
    HexBack(v % 16);
    FourDigits(v);
  }

  lemma UnicodeToken(v: nat, rest: seq<Byte>, out: seq<Byte>, high: nat, utf8: bool)
    requires v < 0x1_0000 && Sane(Scan(UnicodeText(v) + rest, out, high))
    ensures Token(Scan(UnicodeText(v) + rest, out, high), utf8) == More(Unicode(rest, out, high, v))
  {
    hide UnicodeText, HexFour, HexValue, Unicode;
    UnicodeBack(v, rest);
  }

  lemma AsciiToken(o: DumpOptions, c: Byte, rest: seq<Byte>, out: seq<Byte>, utf8: bool)
    requires c < 0x80
    ensures Token(Scan(EscapeAscii(o, c) + rest, out, 0), utf8) == More(Scan(rest, out + [c], 0))
  {
    var t := EscapeAscii(o, c) + rest;
    assert t[|EscapeAscii(o, c)|..] == rest;
    if EscapeLetter(c) == 0x75 {
      assert EscapeAscii(o, c) == UnicodeText(c);
      UnicodeToken(c, rest, out, 0, utf8);
    }
  }

  lemma SplitBits(high: nat, low: nat, m: nat)
    requires 0 < m && low < m
    ensures (high * m + low) / m == high && (high * m + low) % m == low
  {
    assert (high * m + low) / m == high by {
      var x := high * m + low;
      var q := x / m;
      assert q * m <= x < q * m + m;
      if q < high { MulLe(q + 1, high, m); }
      if q > high { MulLe(high + 1, q, m); }
    }
  }

  lemma TwoBytes(a: Byte, b: Byte)
    requires 0xc2 <= a <= 0xdf && Tail(b)
    ensures var v := Bits(a, 32) * 64 + Bits(b, 64); 0x80 <= v < 0x800 && Utf8Of2(v) == [a, b]
  {
    SplitBits(Bits(a, 32), Bits(b, 64), 64);
  }

  lemma ThreeBytes(a: Byte, b: Byte, c: Byte)
    requires 0xe0 <= a <= 0xef && Tail(b) && Tail(c) && (a == 0xe0 ==> b >= 0xa0) && (a == 0xed ==> b <= 0x9f)
    ensures var v := Bits(a, 16) * 0x1000 + Bits(b, 64) * 64 + Bits(c, 64);
      0x800 <= v < 0x1_0000 && !(0xd800 <= v < 0xe000) && Utf8Of3(v) == [a, b, c]
  {
    var x, y, z := Bits(a, 16), Bits(b, 64), Bits(c, 64);
    SplitBits(x * 64 + y, z, 64);
    SplitBits(x, y, 64);
    SplitBits(x, y * 64 + z, 0x1000);
    assert x == a - 0xe0 && y == b - 0x80 && z == c - 0x80;
  }

  lemma FourBytes(a: Byte, b: Byte, c: Byte, d: Byte)
    requires 0xf0 <= a <= 0xf4 && Tail(b) && Tail(c) && Tail(d) && (a == 0xf0 ==> b >= 0x90) &&
      (a == 0xf4 ==> b <= 0x8f)
    ensures var v := Bits(a, 16) * 0x4_0000 + Bits(b, 64) * 0x1000 + Bits(c, 64) * 64 + Bits(d, 64);
      0x1_0000 <= v < 0x11_0000 && Utf8Of4(v) == [a, b, c, d]
  {
    var w, x, y, z := Bits(a, 16), Bits(b, 64), Bits(c, 64), Bits(d, 64);
    SplitBits(w * 0x1000 + x * 64 + y, z, 64);
    SplitBits(w * 64 + x, y, 64);
    SplitBits(w * 64 + x, y * 64 + z, 0x1000);
    SplitBits(w, x, 64);
    SplitBits(w, x * 0x1000 + y * 64 + z, 0x4_0000);
    assert w == a - 0xf0 && x == b - 0x80 && y == c - 0x80 && z == d - 0x80;
  }

  /** The bytes of a code point beyond one byte, computed back from it. */
  lemma CodePointBytes(s: seq<Byte>)
    requires CharLen(s) >= 2
    ensures var n := CharLen(s);
      && LeadLength(s[0]) == n <= |s|
      && (n == 2 ==> 0x80 <= CodePoint(s) < 0x800 && Utf8Of2(CodePoint(s)) == s[..n])
      && (n == 3 ==>
        0x800 <= CodePoint(s) < 0x1_0000 && !(0xd800 <= CodePoint(s) < 0xe000) &&
        Utf8Of3(CodePoint(s)) == s[..n])
      && (n == 4 ==> 0x1_0000 <= CodePoint(s) < 0x11_0000 && Utf8Of4(CodePoint(s)) == s[..n])
  {
    hide Bits, Utf8Of2, Utf8Of3, Utf8Of4;
    var n := CharLen(s);
    if n == 2 {
      TwoBytes(s[0], s[1]);
      assert s[..2] == [s[0], s[1]];
    } else if n == 3 {
      ThreeBytes(s[0], s[1], s[2]);
      assert s[..3] == [s[0], s[1], s[2]];
    } else {
      FourBytes(s[0], s[1], s[2], s[3]);
      assert s[..4] == [s[0], s[1], s[2], s[3]];
    }
  }

  /** Scanning goes from `a` to `b`, and is tame if it is tame from there. */
  ghost predicate Leads(a: Scan, b: Scan, utf8: bool) {
    && Sane(a) && Sane(b)
    && Unescape(a, utf8) == Unescape(b, utf8) && (Tame(b, utf8) ==> Tame(a, utf8))
  }

  lemma OneToken(a: Scan, b: Scan, utf8: bool)
    requires Sane(a) && Token(a, utf8) == More(b) && (a.high != 0 && a.rest != [] ==> !Copyable(a.rest[0], utf8))
    ensures Leads(a, b, utf8)
  {
    hide Token;
    TokenShrinks(a, utf8);
  }

  lemma {:induction false} RawBytes(t: seq<Byte>, out: seq<Byte>, n: nat)
    requires n <= |t| && forall i :: 0 <= i < n ==> t[i] >= 0x80
    ensures Leads(Scan(t, out, 0), Scan(t[n..], out + t[..n], 0), false)
    decreases n
  {
    hide Token, Tame, Unescape;
    if n == 0 {
      assert t[0..] == t && out + t[..0] == out;
    } else {
      RawBytes(t[1..], out + [t[0]], n - 1);
      CopyableToken(Scan(t, out, 0), false);
      OneToken(Scan(t, out, 0), Scan(t[1..], out + [t[0]], 0), false);
      assert t[1..][n - 1..] == t[n..] && out + [t[0]] + t[1..][..n - 1] == out + t[..n];
    }
  }

  lemma {:induction false} ContinuedTakes(t: seq<Byte>, out: seq<Byte>, n: nat)
    requires n <= |t| && forall i :: 0 <= i < n ==> 0x80 <= t[i] < 0xc0
    ensures Continued(t, out, n) == More(Scan(t[n..], out + t[..n], 0))
    decreases n
  {
    if n == 0 {
      assert t[0..] == t && out + t[..0] == out;
    } else {
      ContinuedTakes(t[1..], out + [t[0]], n - 1);
      assert t[1..][n - 1..] == t[n..] && out + [t[0]] + t[1..][..n - 1] == out + t[..n];
    }
  }

  /** A well-formed sequence of several bytes, unescaped. */
  lemma RawLeads(s: seq<Byte>, rest: seq<Byte>, out: seq<Byte>, utf8: bool)
    requires CharLen(s) == |s| >= 2
    ensures Leads(Scan(s + rest, out, 0), Scan(rest, out + s, 0), utf8)
  {
    hide Token, Tame, Unescape;
    var t, n := s + rest, |s|;
    assert t[n..] == rest && t[..n] == s;
    if utf8 {
      assert t[1..][n - 1..] == rest && out + [t[0]] + t[1..][..n - 1] == out + s;
      ContinuedTakes(t[1..], out + [t[0]], n - 1);
      MultiToken(Scan(t, out, 0));
      OneToken(Scan(t, out, 0), Scan(rest, out + s, 0), true);
    } else {
      RawBytes(t, out, n);
    }
  }

  lemma MultiToken(s: Scan)
    requires Sane(s) && s.rest != [] && LeadLength(s.rest[0]) >= 2
    ensures Token(s, true) == Continued(s.rest[1..], s.out + [s.rest[0]], LeadLength(s.rest[0]) - 1)
  {
  }

  lemma EscapedLeads(v: nat, rest: seq<Byte>, out: seq<Byte>, high: nat, utf8: bool)
    requires v < 0x1_0000 && Sane(Scan(UnicodeText(v) + rest, out, high)) && Sane(Unicode(rest, out, high, v))
    ensures Leads(Scan(UnicodeText(v) + rest, out, high), Unicode(rest, out, high, v), utf8)
  {
    hide Token, Tame, Unescape, Unicode;
    UnicodeToken(v, rest, out, high, utf8);
    OneToken(Scan(UnicodeText(v) + rest, out, high), Unicode(rest, out, high, v), utf8);
  }

  function HighOf(c: nat): nat
    requires 0x1_0000 <= c < 0x11_0000
  {
    (c - 0x1_0000) / 0x400 + 0xd800
  }

  function LowOf(c: nat): nat
    requires 0x1_0000 <= c < 0x11_0000
  {
    (c - 0x1_0000) % 0x400 + 0xdc00
  }

  lemma SurrogatePair(c: nat)
    requires 0x1_0000 <= c < 0x11_0000
    ensures IsHigh(HighOf(c)) && 0xdc00 <= LowOf(c) < 0xe000
    ensures SurrogatesText(c) == UnicodeText(HighOf(c)) + UnicodeText(LowOf(c))
    ensures 0x1_0000 + (HighOf(c) - 0xd800) * 0x400 + LowOf(c) - 0xdc00 == c
  {
    hide UnicodeText;
    var v := c - 0x1_0000;
    Halves(v);
    var w := (c - 0x1_0000) % 0x1_0000_0000;
    assert w == v;
  }

  lemma Halves(v: nat)
    requires v < 0x10_0000
    ensures v / 0x400 < 0x400 && v / 0x400 % 0x400 == v / 0x400 && v / 0x400 * 0x400 + v % 0x400 == v
  {
  }

  lemma PairTokens(c: nat, more: seq<Byte>, rest: seq<Byte>, out: seq<Byte>)
    requires 0x1_0000 <= c < 0x11_0000
    ensures var high, low := HighOf(c), LowOf(c);
      && IsHigh(high) && low < 0x1_0000
      && Unicode(more, out, 0, high) == Scan(more, out + Utf8Of3(high), high)
      && Unicode(rest, out + Utf8Of3(high), high, low) == Scan(rest, out + Utf8Of4(c), 0)
  {
    SurrogatePair(c);
    assert Dropped(out + Utf8Of3(HighOf(c))) == out;
    hide HighOf, LowOf, Utf8Of4, Utf8Of3, Dropped;
  }

  /** A surrogate pair comes out as the four bytes of its code point. */
  lemma SurrogatesLead(c: nat, rest: seq<Byte>, out: seq<Byte>, utf8: bool)
    requires 0x1_0000 <= c < 0x11_0000
    ensures Leads(Scan(SurrogatesText(c) + rest, out, 0), Scan(rest, out + Utf8Of4(c), 0), utf8)
  {
    hide Token, Tame, Unescape, UnicodeText, SurrogatesText, Utf8Of4, Unicode, HighOf, LowOf, Utf8Of3, Leads;
    var high, low := HighOf(c), LowOf(c);
    SurrogatePair(c);
    var more, middle := UnicodeText(low) + rest, out + Utf8Of3(high);
    PairTokens(c, more, rest, out);
    EscapedLeads(high, more, out, 0, utf8);
    EscapedLeads(low, rest, middle, high, utf8);
    assert SurrogatesText(c) + rest == UnicodeText(high) + more;
    LeadsOn(Scan(SurrogatesText(c) + rest, out, 0), Scan(more, middle, high), Scan(rest, out + Utf8Of4(c), 0), utf8);
  }

  lemma LeadsOn(a: Scan, b: Scan, c: Scan, utf8: bool)
    requires Leads(a, b, utf8) && Leads(b, c, utf8)
    ensures Leads(a, c, utf8)
  {
    hide Tame, Unescape;
  }

  lemma MultiLeads(o: DumpOptions, s: seq<Byte>, rest: seq<Byte>, out: seq<Byte>, utf8: bool)
    requires CharLen(s) >= 2 && LeadLength(s[0]) == CharLen(s)
    ensures Leads(Scan(EscapeMulti(o, s) + rest, out, 0), Scan(rest, out + s[..CharLen(s)], 0), utf8)
  {
    var n := CharLen(s);
    CodePointBytes(s);
    hide Leads, UnicodeText, SurrogatesText, Utf8Of2, Utf8Of3, Utf8Of4, CodePoint;
    if !o.escapeUnicode {
      assert CharLen(s[..n]) == n;
      RawLeads(s[..n], rest, out, utf8);
    } else if n == 4 {
      SurrogatesLead(CodePoint(s), rest, out, utf8);
    } else {
      EscapedLeads(CodePoint(s), rest, out, 0, utf8);
    }
  }

  /** Reading back what was printed: the characters come back, and scanning is tame. */
  lemma {:induction false} EscapeReads(o: DumpOptions, s: seq<Byte>, out: seq<Byte>, tail: seq<Byte>, utf8: bool)
    requires WellFormed(s)
    ensures Whole(s)
    ensures var a := Scan(Escape(o, s) + [0x22] + tail, out, 0);
      Unescape(a, utf8) == Done(out + s, tail) && Tame(a, utf8)
    decreases |s|
  {
    hide Token, EscapeAscii, EscapeMulti, Tame, Unescape;
    if s == [] {
      QuoteEnds(tail, out, utf8);
      assert Escape(o, s) + [0x22] + tail == [0x22] + tail && out + s == out;
    } else {
      var n := CharLen(s);
      LeadIsLength(s);
      var rest := Escape(o, s[n..]) + [0x22] + tail;
      EscapeReads(o, s[n..], out + s[..n], tail, utf8);
      assert out + s[..n] + s[n..] == out + s;
      if n == 1 {
        AsciiToken(o, s[0], rest, out, utf8);
        assert out + s[..1] == out + [s[0]];
        OneToken(Scan(EscapeAscii(o, s[0]) + rest, out, 0), Scan(rest, out + [s[0]], 0), utf8);
        assert Escape(o, s) + [0x22] + tail == EscapeAscii(o, s[0]) + rest;
      } else {
        MultiLeads(o, s, rest, out, utf8);
        assert Escape(o, s) + [0x22] + tail == EscapeMulti(o, s) + rest;
      }
    }
  }

  lemma QuoteEnds(tail: seq<Byte>, out: seq<Byte>, utf8: bool)
    ensures Unescape(Scan([0x22] + tail, out, 0), utf8) == Done(out, tail) && Tame(Scan([0x22] + tail, out, 0), utf8)
  {
    assert ([0x22] + tail)[1..] == tail;
  }

  lemma LeadIsLength(s: seq<Byte>)
    requires s != [] && CharLen(s) > 0
    ensures LeadLength(s[0]) == CharLen(s)
  {
  }

  /** For every well-formed string and every option, the parser's scanner gives the string back. */
  lemma StringRoundTrip(o: DumpOptions, s: seq<Byte>, tail: seq<Byte>, utf8: bool)
    requires WellFormed(s)
    ensures ScanString(Scan(Escape(o, s) + [0x22] + tail, [], 0), utf8) == Done(s, tail)
  {
    EscapeReads(o, s, [], tail, utf8);
    TameScan(Scan(Escape(o, s) + [0x22] + tail, [], 0), utf8);
  }
}
