/** What the options of the dumper change in the text, and what they leave alone. */
module JsonOptions {
  import opened Bytes
  import opened Format
  import opened Utf8
  import opened JsonText
  import opened Json
  import JsonGrammar

  // ---------------------------------------------------------------- escapes for characters beyond ASCII

  predicate Ascii(t: seq<Byte>) {
    forall i :: 0 <= i < |t| ==> t[i] < 0x80
  }

  lemma UnicodeIsAscii(v: nat)
    requires v < 0x1_0000
    ensures Ascii(UnicodeText(v))
  {
  }

  /** With `escapeUnicode` every byte printed is below 0x80, whatever the string. */
  lemma {:induction false} EscapedIsAscii(o: DumpOptions, s: seq<Byte>)
    requires o.escapeUnicode
    ensures Ascii(Escape(o, s))
    decreases |s|
  {
    hide UnicodeText, CodePoint, LeadLength;
    if s != [] {
      var n := LeadLength(s[0]);
      LeadAtMost(s[0]);
      if n <= |s| {
        if n == 0 || n == 1 {
          EscapedIsAscii(o, s[1..]);
        } else {
          EscapedIsAscii(o, s[n..]);
          CodePointFits(s);
          MultiIsAscii(o, s);
        }
      }
    }
  }

  lemma LeadAtMost(c: Byte)
    ensures LeadLength(c) <= 4 && (LeadLength(c) == 1 <==> c < 0x80)
  {
  }

  lemma CodePointFits(s: seq<Byte>)
    requires s != [] && 2 <= LeadLength(s[0]) <= |s|
    ensures LeadLength(s[0]) < 4 ==> CodePoint(s) < 0x1_0000
  {
  }

  lemma MultiIsAscii(o: DumpOptions, s: seq<Byte>)
    requires o.escapeUnicode && s != [] && 2 <= LeadLength(s[0]) <= |s|
    requires LeadLength(s[0]) < 4 ==> CodePoint(s) < 0x1_0000
    ensures Ascii(EscapeMulti(o, s))
  {
    hide UnicodeText, CodePoint, LeadLength;
    LeadAtMost(s[0]);
    if LeadLength(s[0]) == 4 {
      var v := (CodePoint(s) - 0x1_0000) % 0x1_0000_0000;
      UnicodeIsAscii(v / 0x400 % 0x400 + 0xd800);
      UnicodeIsAscii(v % 0x400 + 0xdc00);
    } else {
      UnicodeIsAscii(CodePoint(s));
    }
  }

  /** The bytes from 0x80 up, in order. */
  function High(t: seq<Byte>): seq<Byte> {
    if t == [] then [] else (if t[0] >= 0x80 then [t[0]] else []) + High(t[1..])
  }

  lemma {:induction false} HighAppend(a: seq<Byte>, b: seq<Byte>)
    ensures High(a + b) == High(a) + High(b)
  {
    if a == [] {
      assert a + b == b;
    } else {
      HighAppend(a[1..], b);
      assert (a + b)[1..] == a[1..] + b;
      var first := if a[0] >= 0x80 then [a[0]] else [];
      assert first + (High(a[1..]) + High(b)) == first + High(a[1..]) + High(b);
    }
  }

  lemma {:induction false} HighOfAscii(t: seq<Byte>)
    requires Ascii(t)
    ensures High(t) == []
  {
    if t != [] { HighOfAscii(t[1..]); }
  }

  /** Without it they are copied as they are, and in their order. */
  lemma {:induction false} HighBytesCopied(o: DumpOptions, s: seq<Byte>)
    requires !o.escapeUnicode && WellFormed(s)
    ensures High(Escape(o, s)) == High(s)
    decreases |s|
  {
    hide High, EscapeAscii, CharLen;
    if s == [] {
      HighOfAscii(s);
    } else {
      var n := CharLen(s);
      LeadIsLength(s);
      HighBytesCopied(o, s[n..]);
      HighAppend(s[..n], s[n..]);
      assert s[..n] + s[n..] == s;
      if n == 1 {
        AsciiEscaped(o, s[0]);
        HighOfAscii(EscapeAscii(o, s[0]));
        HighOfAscii(s[..1]);
        HighAppend(EscapeAscii(o, s[0]), Escape(o, s[1..]));
      } else {
        HighAppend(s[..n], Escape(o, s[n..]));
      }
    }
  }

  lemma AsciiEscaped(o: DumpOptions, c: Byte)
    requires LeadLength(c) == 1
    ensures c < 0x80 && Ascii(EscapeAscii(o, c))
  {
  }

  // ---------------------------------------------------------------- slashes

  /** Every slash has a backslash before it. */
  predicate AllSlashesEscaped(t: seq<Byte>) {
    forall i :: 0 <= i < |t| && t[i] == 0x2f ==> i > 0 && t[i - 1] == 0x5c
  }

  /** No slash has one. */
  predicate NoSlashEscaped(t: seq<Byte>) {
    && (t == [] || t[|t| - 1] != 0x5c)
    && forall i :: 0 <= i < |t| - 1 && t[i] == 0x5c ==> t[i + 1] != 0x2f
  }

  function Slashes(t: seq<Byte>): nat {
    if t == [] then 0 else (if t[0] == 0x2f then 1 else 0) + Slashes(t[1..])
  }

  lemma EscapeBegins(o: DumpOptions, s: seq<Byte>)
    requires WellFormed(s) && s != []
    ensures 1 <= LeadLength(s[0]) == CharLen(s) <= |s| && WellFormed(s[CharLen(s)..])
    ensures CharLen(s) == 1 ==> s[0] < 0x80 && Escape(o, s) == EscapeAscii(o, s[0]) + Escape(o, s[1..])
    ensures CharLen(s) > 1 ==> Escape(o, s) == EscapeMulti(o, s) + Escape(o, s[CharLen(s)..])
  {
    LeadIsLength(s);
  }

  /** The text of a character of several bytes has no slash, and no backslash but in front of a `u`. */
  lemma MultiNeutral(o: DumpOptions, s: seq<Byte>)
    requires CharLen(s) > 1 && LeadLength(s[0]) == CharLen(s)
    ensures var t := EscapeMulti(o, s);
      && t != [] && 0x2f !in t && t[|t| - 1] != 0x5c
      && forall i :: 0 <= i < |t| - 1 && t[i] == 0x5c ==> t[i + 1] == 0x75
  {
    hide UnicodeText, CodePoint;
    if o.escapeUnicode {
      CodePointFits(s);
      if CharLen(s) == 4 {
        var v := (CodePoint(s) - 0x1_0000) % 0x1_0000_0000;
        UnicodeNeutral(v / 0x400 % 0x400 + 0xd800);
        UnicodeNeutral(v % 0x400 + 0xdc00);
      } else {
        UnicodeNeutral(CodePoint(s));
      }
    }
  }

  lemma UnicodeNeutral(v: nat)
    requires v < 0x1_0000
    ensures var t := UnicodeText(v); |t| == 6 && t[0] == 0x5c && t[1] == 0x75
    ensures forall i :: 1 <= i < 6 ==> UnicodeText(v)[i] != 0x2f && UnicodeText(v)[i] != 0x5c
  {
  }

  /** With `escapeForwardSlashes` there is a backslash before every slash; */
  lemma {:induction false} SlashesEscaped(o: DumpOptions, s: seq<Byte>)
    requires o.escapeForwardSlashes && WellFormed(s)
    ensures AllSlashesEscaped(Escape(o, s))
    decreases |s|
  {
    hide CharLen, LeadLength, EscapeMulti;
    if s != [] {
      EscapeBegins(o, s);
      SlashesEscaped(o, s[CharLen(s)..]);
      if CharLen(s) > 1 { MultiNeutral(o, s); }
    }
  }

  /** without it there is none before any, in a string that has no backslashes itself; */
  lemma {:induction false} SlashesBare(o: DumpOptions, s: seq<Byte>)
    requires !o.escapeForwardSlashes && WellFormed(s) && 0x5c !in s
    ensures NoSlashEscaped(Escape(o, s))
    decreases |s|
  {
    hide CharLen, LeadLength, EscapeMulti, EscapeAscii, Escape, NoSlashEscaped;
    if s == [] {
      NothingEscaped(o);
    } else {
      EscapeBegins(o, s);
      SlashesBare(o, s[CharLen(s)..]);
      if CharLen(s) > 1 {
        MultiNeutral(o, s);
        BareAppend(EscapeMulti(o, s), Escape(o, s[CharLen(s)..]));
      } else {
        AsciiBare(o, s[0]);
        BareAppend(EscapeAscii(o, s[0]), Escape(o, s[1..]));
      }
    }
  }

  lemma NothingEscaped(o: DumpOptions)
    ensures Escape(o, []) == [] && NoSlashEscaped([])
  {
  }

  lemma AsciiBare(o: DumpOptions, c: Byte)
    requires !o.escapeForwardSlashes && c < 0x80 && c != 0x5c
    ensures var t := EscapeAscii(o, c);
      t != [] && t[|t| - 1] != 0x5c && forall i :: 0 <= i < |t| - 1 && t[i] == 0x5c ==> t[i + 1] != 0x2f
  {
  }

  lemma BareAppend(a: seq<Byte>, b: seq<Byte>)
    requires a != [] && a[|a| - 1] != 0x5c && NoSlashEscaped(b)
    requires forall i :: 0 <= i < |a| - 1 && a[i] == 0x5c ==> a[i + 1] != 0x2f
    ensures NoSlashEscaped(a + b)
  {
  }

  /** and the backslashes before slashes are all that the option adds. */
  lemma {:induction false} SlashesCost(o: DumpOptions, s: seq<Byte>)
    requires WellFormed(s)
    ensures |Escape(o.(escapeForwardSlashes := true), s)|
      == |Escape(o.(escapeForwardSlashes := false), s)| + Slashes(s)
    decreases |s|
  {
    hide CharLen, LeadLength, EscapeAscii, EscapeMulti, Escape, Slashes;
    var on, off := o.(escapeForwardSlashes := true), o.(escapeForwardSlashes := false);
    if s == [] {
      NoSlashes(s);
      NothingEscaped(on);
      NothingEscaped(off);
    } else {
      var n := CharLen(s);
      EscapeBegins(on, s);
      EscapeBegins(off, s);
      SlashesCost(o, s[n..]);
      SlashesAppend(s[..n], s[n..]);
      assert s[..n] + s[n..] == s;
      if n > 1 {
        HighChar(s);
        NoSlashes(s[..n]);
        assert EscapeMulti(on, s) == EscapeMulti(off, s) by { MultiCost(o, s); }
      } else {
        AsciiCost(o, s[0]);
        assert s[..1] == [s[0]];
      }
    }
  }

  lemma MultiCost(o: DumpOptions, s: seq<Byte>)
    requires s != [] && 2 <= LeadLength(s[0]) <= |s|
    ensures EscapeMulti(o.(escapeForwardSlashes := true), s) == EscapeMulti(o.(escapeForwardSlashes := false), s)
  {
    hide UnicodeText, CodePoint, LeadLength;
  }

  lemma AsciiCost(o: DumpOptions, c: Byte)
    requires c < 0x80
    ensures |EscapeAscii(o.(escapeForwardSlashes := true), c)|
      == |EscapeAscii(o.(escapeForwardSlashes := false), c)| + Slashes([c])
  {
  }

  lemma HighChar(s: seq<Byte>)
    requires CharLen(s) > 1
    ensures forall i :: 0 <= i < CharLen(s) ==> s[i] >= 0x80
  {
  }

  lemma {:induction false} NoSlashes(t: seq<Byte>)
    requires forall i :: 0 <= i < |t| ==> t[i] >= 0x80
    ensures Slashes(t) == 0
  {
    if t != [] { NoSlashes(t[1..]); }
  }

  lemma {:induction false} SlashesAppend(a: seq<Byte>, b: seq<Byte>)
    ensures Slashes(a + b) == Slashes(a) + Slashes(b)
  {
    if a == [] {
      assert a + b == b;
    } else {
      SlashesAppend(a[1..], b);
      assert (a + b)[1..] == a[1..] + b;
    }
  }

  // ---------------------------------------------------------------- no escape without need

  predicate UpperHex(c: Byte) {
    0x30 <= c <= 0x39 || 0x41 <= c <= 0x46
  }

  /** Escapes have upper-case digits, also those of control characters. */
  lemma UpperCase(o: DumpOptions, v: nat, c: Byte)
    requires v < 0x1_0000 && c < 0x20 && c !in {0x08, 0x09, 0x0a, 0x0c, 0x0d}
    ensures forall i :: 2 <= i < 6 ==> UpperHex(UnicodeText(v)[i])
    ensures EscapeAscii(o, c) == UnicodeText(c)
  {
  }

  /** Bytes that JSON text needs for a byte of a string. */
  function Cost(c: Byte): nat {
    if c in {0x08, 0x09, 0x0a, 0x0c, 0x0d, 0x22, 0x5c} then 2 else if c < 0x20 then 6 else 1
  }

  function Costs(s: seq<Byte>): nat {
    if s == [] then 0 else Cost(s[0]) + Costs(s[1..])
  }

  lemma {:induction false} CostsAppend(a: seq<Byte>, b: seq<Byte>)
    ensures Costs(a + b) == Costs(a) + Costs(b)
  {
    if a == [] {
      assert a + b == b;
    } else {
      CostsAppend(a[1..], b);
      assert (a + b)[1..] == a[1..] + b;
    }
  }

  lemma {:induction false} HighCosts(a: seq<Byte>)
    requires forall i :: 0 <= i < |a| ==> a[i] >= 0x80
    ensures Costs(a) == |a|
  {
    if a != [] { HighCosts(a[1..]); }
  }

  lemma {:induction false} EscapeCosts(o: DumpOptions, s: seq<Byte>)
    requires !o.escapeUnicode && !o.escapeForwardSlashes && WellFormed(s)
    ensures |Escape(o, s)| == Costs(s)
    decreases |s|
  {
    hide CharLen, LeadLength, Escape, Costs, EscapeAscii;
    if s == [] {
      NothingEscaped(o);
      HighCosts(s);
    } else {
      var n := CharLen(s);
      EscapeBegins(o, s);
      EscapeCosts(o, s[n..]);
      CostsAppend(s[..n], s[n..]);
      assert s[..n] + s[n..] == s;
      if n > 1 {
        HighChar(s);
        HighCosts(s[..n]);
      } else {
        AsciiCosts(o, s[0]);
        assert s[..1] == [s[0]];
      }
    }
  }

  lemma AsciiCosts(o: DumpOptions, c: Byte)
    requires !o.escapeForwardSlashes && c < 0x80
    ensures |EscapeAscii(o, c)| == Costs([c])
  {
  }

  lemma PieceCosts(p: JsonGrammar.Piece, utf8: bool)
    requires p.Plain? ==> JsonGrammar.Unescaped(p.bytes, utf8)
    ensures Costs(JsonGrammar.PieceChars(p)) <= |JsonGrammar.PieceText(p)|
  {
    match p
    case Plain(bytes) => if |bytes| > 1 { HighCosts(bytes); }
    case Letter(index) => LetterCosts(index);
    case Code(u, _, _, _, _) => if u >= 0x80 { HighCosts(JsonGrammar.PieceChars(p)); }
  }

  lemma LetterCosts(index: JsonGrammar.LetterIndex)
    ensures Costs([JsonGrammar.LetterChars[index]]) <= 2
  {
    hide JsonGrammar.HexChar;
  }

  lemma PairCosts(high: JsonGrammar.Piece, low: JsonGrammar.Piece)
    requires JsonGrammar.HighCode(high) && JsonGrammar.LowCode(low)
    ensures Costs(JsonGrammar.PairChars(high, low)) <= |JsonGrammar.PieceText(high)| + |JsonGrammar.PieceText(low)|
  {
    HighCosts(JsonGrammar.PairChars(high, low));
  }

  lemma {:induction false} SpellingCosts(ps: seq<JsonGrammar.Piece>, utf8: bool)
    requires JsonGrammar.Spelled(ps, utf8)
    ensures Costs(JsonGrammar.Chars(ps)) <= |JsonGrammar.PiecesText(ps)|
    decreases |ps|
  {
    hide JsonGrammar.PieceText, JsonGrammar.PieceChars, JsonGrammar.PairChars, Costs, JsonGrammar.Unescaped;
    if ps == [] {
      HighCosts([]);
    } else if |ps| >= 2 && JsonGrammar.HighCode(ps[0]) && JsonGrammar.LowCode(ps[1]) {
      SpellingCosts(ps[2..], utf8);
      PairCosts(ps[0], ps[1]);
      CostsAppend(JsonGrammar.PairChars(ps[0], ps[1]), JsonGrammar.Chars(ps[2..]));
      assert ps[1..][1..] == ps[2..];
    } else {
      SpellingCosts(ps[1..], utf8);
      PieceCosts(ps[0], utf8);
      CostsAppend(JsonGrammar.PieceChars(ps[0]), JsonGrammar.Chars(ps[1..]));
    }
  }

  /** With no options set no spelling of a string that the grammar knows is shorter than the one printed. */
  lemma ShortestSpelling(o: DumpOptions, s: seq<Byte>, ps: seq<JsonGrammar.Piece>, utf8: bool)
    requires !o.escapeUnicode && !o.escapeForwardSlashes && WellFormed(s)
    requires JsonGrammar.Spelled(ps, utf8) && JsonGrammar.Chars(ps) == s
    ensures |Escape(o, s)| <= |JsonGrammar.PiecesText(ps)|
  {
    EscapeCosts(o, s);
    SpellingCosts(ps, utf8);
  }

  // ---------------------------------------------------------------- string literals

  /** What is left of a string literal, with the closing quote. */
  function Literal(t: seq<Byte>, escaped: bool): (n: nat)
    ensures n <= |t|
  {
    if t == [] then 0
    else if !escaped && t[0] == 0x22 then 1
    else 1 + Literal(t[1..], !escaped && t[0] == 0x5c)
  }

  /** Text without quotes and backslashes is passed over. */
  lemma {:induction false} LiteralInside(a: seq<Byte>, t: seq<Byte>)
    requires 0x22 !in a && 0x5c !in a
    ensures Literal(a + t, false) == |a| + Literal(t, false)
  {
    if a == [] {
      assert a + t == t;
    } else {
      LiteralInside(a[1..], t);
      assert (a + t)[1..] == a[1..] + t;
    }
  }

  lemma LiteralEscaped(e: Byte, t: seq<Byte>)
    ensures Literal([0x5c, e] + t, false) == 2 + Literal(t, false)
  {
    assert ([0x5c, e] + t)[1..] == [e] + t && ([e] + t)[1..] == t;
  }

  lemma LiteralUnicode(v: nat, t: seq<Byte>)
    requires v < 0x1_0000
    ensures Literal(UnicodeText(v) + t, false) == 6 + Literal(t, false)
  {
    var u := UnicodeText(v);
    assert u == [0x5c, 0x75] + u[2..] && u + t == [0x5c, 0x75] + (u[2..] + t);
    hide Literal, UnicodeText;
    HexNeutral(v);
    LiteralEscaped(0x75, u[2..] + t);
    LiteralInside(u[2..], t);
  }

  lemma HexNeutral(v: nat)
    requires v < 0x1_0000
    ensures 0x22 !in UnicodeText(v)[2..] && 0x5c !in UnicodeText(v)[2..]
  {
  }

  lemma LiteralAscii(o: DumpOptions, c: Byte, t: seq<Byte>)
    requires c < 0x80
    ensures Literal(EscapeAscii(o, c) + t, false) == |EscapeAscii(o, c)| + Literal(t, false)
  {
    hide Literal;
    var e := EscapeLetter(c);
    if e == 0 || (c == 0x2f && !o.escapeForwardSlashes) {
      LiteralInside([c], t);
    } else if e == 0x75 {
      var x: seq<Byte> := [0x30, 0x30, Hex(c / 16), Hex(c % 16)];
      LiteralEscaped(e, x + t);
      LiteralInside(x, t);
      assert EscapeAscii(o, c) + t == [0x5c, e] + (x + t);
    } else {
      LiteralEscaped(e, t);
    }
  }

  lemma LiteralMulti(o: DumpOptions, s: seq<Byte>, t: seq<Byte>)
    requires CharLen(s) > 1 && LeadLength(s[0]) == CharLen(s)
    ensures Literal(EscapeMulti(o, s) + t, false) == |EscapeMulti(o, s)| + Literal(t, false)
  {
    HighChar(s);
    CodePointFits(s);
    hide Literal, UnicodeText, CodePoint, CharLen, LeadLength;
    if !o.escapeUnicode {
      LiteralInside(s[..CharLen(s)], t);
    } else if CharLen(s) == 4 {
      var v := (CodePoint(s) - 0x1_0000) % 0x1_0000_0000;
      var a, b := UnicodeText(v / 0x400 % 0x400 + 0xd800), UnicodeText(v % 0x400 + 0xdc00);
      LiteralUnicode(v / 0x400 % 0x400 + 0xd800, b + t);
      LiteralUnicode(v % 0x400 + 0xdc00, t);
      assert a + b + t == a + (b + t);
    } else {
      LiteralUnicode(CodePoint(s), t);
    }
  }

  lemma {:induction false} LiteralEscape(o: DumpOptions, s: seq<Byte>, t: seq<Byte>)
    requires WellFormed(s)
    ensures Literal(Escape(o, s) + t, false) == |Escape(o, s)| + Literal(t, false)
    decreases |s|
  {
    hide Literal, CharLen, LeadLength, EscapeAscii, EscapeMulti;
    if s == [] {
      assert Escape(o, s) + t == t;
    } else {
      var n := CharLen(s);
      EscapeBegins(o, s);
      LiteralEscape(o, s[n..], t);
      var first := if n == 1 then EscapeAscii(o, s[0]) else EscapeMulti(o, s);
      var rest := Escape(o, s[n..]);
      assert first + rest + t == first + (rest + t);
      if n == 1 { LiteralAscii(o, s[0], rest + t); } else { LiteralMulti(o, s, rest + t); }
    }
  }

  /** A literal ends where its text ends. */
  lemma LiteralQuoted(o: DumpOptions, s: seq<Byte>, t: seq<Byte>)
    requires WellFormed(s)
    ensures var q := Quoted(o, s) + t;
      q != [] && q[0] == 0x22 && 1 + Literal(q[1..], false) == |Quoted(o, s)| && q[|Quoted(o, s)|..] == t
  {
    hide Escape;
    var q, rest: seq<Byte> := Quoted(o, s) + t, [0x22] + t;
    assert q[1..] == Escape(o, s) + rest;
    LiteralEscape(o, s, rest);
    assert Literal(rest, false) == 1;
  }

  // ---------------------------------------------------------------- what pretty printing adds

  /** The text without the white space that stands outside string literals. */
  function Bare(t: seq<Byte>): seq<Byte>
    decreases |t|
  {
    if t == [] then []
    else if t[0] == 0x22 then
      var n := 1 + Literal(t[1..], false);
      t[..n] + Bare(t[n..])
    else if IsSpace(t[0]) then Bare(t[1..])
    else [t[0]] + Bare(t[1..])
  }

  function Plain(o: DumpOptions): DumpOptions {
    o.(prettyPrint := false)
  }

  /** Text without quotes and white space stays. */
  lemma {:induction false} StripToken(a: seq<Byte>, t: seq<Byte>)
    requires forall i :: 0 <= i < |a| ==> !IsSpace(a[i]) && a[i] != 0x22
    ensures Bare(a + t) == a + Bare(t)
  {
    if a == [] {
      assert a + t == t;
    } else {
      StripToken(a[1..], t);
      assert (a + t)[1..] == a[1..] + t;
    }
  }

  lemma {:induction false} StripSpaces(w: seq<Byte>, t: seq<Byte>)
    requires Spaces(w)
    ensures Bare(w + t) == Bare(t)
  {
    if w == [] {
      assert w + t == t;
    } else {
      StripSpaces(w[1..], t);
      assert (w + t)[1..] == w[1..] + t;
    }
  }

  lemma StripQuoted(o: DumpOptions, s: seq<Byte>, t: seq<Byte>)
    requires WellFormed(s)
    ensures Bare(Quoted(o, s) + t) == Quoted(Plain(o), s) + Bare(t)
  {
    SameEscape(o, s);
    hide Escape, Literal;
    LiteralQuoted(o, s, t);
    assert (Quoted(o, s) + t)[..|Quoted(o, s)|] == Quoted(o, s);
  }

  lemma {:induction false} SameEscape(o: DumpOptions, s: seq<Byte>)
    ensures Escape(Plain(o), s) == Escape(o, s)
    decreases |s|
  {
    hide UnicodeText, CodePoint, LeadLength, EscapeLetter;
    if s != [] {
      LeadAtMost(s[0]);
      SameEscape(o, s[if LeadLength(s[0]) == 0 || LeadLength(s[0]) > |s| then 1 else LeadLength(s[0])..]);
    }
  }

  /** What `t` becomes is what `u` is, in front of any text. */
  predicate StripsTo(t: seq<Byte>, u: seq<Byte>, rest: seq<Byte>) {
    Bare(t + rest) == u + Bare(rest)
  }

  lemma StripsOn(a: seq<Byte>, x: seq<Byte>, b: seq<Byte>, y: seq<Byte>, rest: seq<Byte>)
    requires StripsTo(a, x, b + rest) && StripsTo(b, y, rest)
    ensures StripsTo(a + b, x + y, rest)
  {
    hide Bare;
    assert a + b + rest == a + (b + rest) && x + y + Bare(rest) == x + (y + Bare(rest));
  }

  lemma TokenStrips(a: seq<Byte>, rest: seq<Byte>)
    requires forall i :: 0 <= i < |a| ==> !IsSpace(a[i]) && a[i] != 0x22
    ensures StripsTo(a, a, rest)
  {
    StripToken(a, rest);
  }

  lemma SpacesStrip(w: seq<Byte>, rest: seq<Byte>)
    requires Spaces(w)
    ensures StripsTo(w, [], rest)
  {
    StripSpaces(w, rest);
  }

  lemma ColonStrips(o: DumpOptions, rest: seq<Byte>)
    ensures StripsTo(Colon(o), Colon(Plain(o)), rest)
  {
    hide Bare;
    var w: seq<Byte>, c: seq<Byte> := if o.prettyPrint then [0x20] else [], [0x3a];
    TokenStrips(c, w + rest);
    SpacesStrip(w, rest);
    StripsOn(c, c, w, [], rest);
    SpacesStrip(w, c + w + rest);
    StripsOn(w, [], c + w, c + [], rest);
    assert Colon(o) == w + (c + w) && [] + (c + []) == c;
  }

  lemma FramedStrips(o: DumpOptions, depth: nat, part: seq<Byte>, bare: seq<Byte>, last: bool, rest: seq<Byte>)
    requires forall r :: StripsTo(part, bare, r)
    ensures StripsTo(Framed(o, depth, part, last), Framed(Plain(o), depth, bare, last), rest)
  {
    hide Bare, StripsTo;
    var comma: seq<Byte> := if last then [] else [0x2c];
    if o.prettyPrint {
      var w, line := Indent(depth + 1), [0x0a];
      SpacesStrip(line, rest);
      TokenStrips(comma, line + rest);
      StripsOn(comma, comma, line, [], rest);
      StripsOn(part, bare, comma + line, comma + [], rest);
      SpacesStrip(w, part + (comma + line) + rest);
      StripsOn(w, [], part + (comma + line), bare + (comma + []), rest);
      assert w + (part + (comma + line)) == w + part + comma + line && [] + (bare + (comma + [])) == bare + comma;
    } else {
      TokenStrips(comma, rest);
      StripsOn(part, bare, comma, comma, rest);
    }
  }

  lemma BracketedStrips(o: DumpOptions, depth: nat, begin: Byte, body: seq<Byte>, bare: seq<Byte>, end: Byte,
      rest: seq<Byte>)
    requires forall r :: StripsTo(body, bare, r)
    requires !IsSpace(begin) && begin != 0x22 && !IsSpace(end) && end != 0x22
    ensures StripsTo(Bracketed(o, depth, begin, body, end), Bracketed(Plain(o), depth, begin, bare, end), rest)
  {
    hide Bare, StripsTo;
    var line: seq<Byte>, w := if o.prettyPrint then [0x0a] else [], if o.prettyPrint then Indent(depth) else [];
    TokenStrips([end], rest);
    SpacesStrip(w, [end] + rest);
    StripsOn(w, [], [end], [end], rest);
    StripsOn(body, bare, w + [end], [] + [end], rest);
    SpacesStrip(line, body + (w + [end]) + rest);
    StripsOn(line, [], body + (w + [end]), bare + ([] + [end]), rest);
    TokenStrips([begin], line + (body + (w + [end])) + rest);
    StripsOn([begin], [begin], line + (body + (w + [end])), [] + (bare + ([] + [end])), rest);
    assert [begin] + (line + (body + (w + [end]))) == Bracketed(o, depth, begin, body, end);
    assert [begin] + ([] + (bare + ([] + [end]))) == [begin] + bare + [end];
  }

  lemma DecimalBare(n: nat)
    ensures forall i :: 0 <= i < |Decimal(n)| ==> !IsSpace(Decimal(n)[i]) && Decimal(n)[i] != 0x22
  {
    DecimalReads(n);
  }

  lemma ScalarStrips(o: DumpOptions, v: Value, depth: nat, rest: seq<Byte>)
    requires Printable(v) && !v.Arr? && !v.Obj?
    ensures StripsTo(Print(o, v, depth), Print(Plain(o), v, depth), rest)
  {
    hide Bare, Decimal, Quoted, WellFormed;
    match v
    case Null => TokenStrips(NullText, rest);
    case Bool(f) => TokenStrips(if f then TrueText else FalseText, rest);
    case Int(i) =>
      DecimalBare(if i < 0 then -(i as int) else i);
      TokenStrips(Print(o, v, depth), rest);
    case UInt(u) =>
      DecimalBare(u);
      TokenStrips(Print(o, v, depth), rest);
    case Str(s) => StripQuoted(o, s, rest);
  }

  /** All that pretty printing adds is white space outside string literals. */
  lemma {:induction false} PrettyAddsSpace(o: DumpOptions, v: Value, depth: nat)
    requires Printable(v)
    ensures forall rest :: StripsTo(Print(o, v, depth), Print(Plain(o), v, depth), rest)
    decreases v, 2
  {
    hide StripsTo, Printable;
    forall rest ensures StripsTo(Print(o, v, depth), Print(Plain(o), v, depth), rest) {
      PrettyValue(o, v, depth, rest);
    }
  }

  lemma {:induction false} PrettyValue(o: DumpOptions, v: Value, depth: nat, rest: seq<Byte>)
    requires Printable(v)
    ensures StripsTo(Print(o, v, depth), Print(Plain(o), v, depth), rest)
    decreases v, 1
  {
    hide StripsTo, PrintElems, PrintMembers, Bracketed, WellFormed;
    match v
    case Arr(_, elems) =>
      forall r ensures StripsTo(PrintElems(o, elems, depth), PrintElems(Plain(o), elems, depth), r) {
        PrettyElems(o, elems, depth, r);
      }
      BracketedStrips(o, depth, 0x5b, PrintElems(o, elems, depth), PrintElems(Plain(o), elems, depth), 0x5d, rest);
    case Obj(_, members) =>
      forall r ensures StripsTo(PrintMembers(o, members, depth), PrintMembers(Plain(o), members, depth), r) {
        PrettyMembers(o, members, depth, r);
      }
      BracketedStrips(o, depth, 0x7b, PrintMembers(o, members, depth), PrintMembers(Plain(o), members, depth), 0x7d,
          rest);
    case _ => ScalarStrips(o, v, depth, rest);
  }

  lemma {:induction false} PrettyElems(o: DumpOptions, vs: seq<Value>, depth: nat, rest: seq<Byte>)
    requires forall i :: 0 <= i < |vs| ==> Printable(vs[i])
    ensures StripsTo(PrintElems(o, vs, depth), PrintElems(Plain(o), vs, depth), rest)
    decreases vs, 0
  {
    hide StripsTo, Printable, Print, Framed;
    if vs == [] {
      TokenStrips([], rest);
    } else {
      var part, bare := Print(o, vs[0], depth + 1), Print(Plain(o), vs[0], depth + 1);
      var tail := PrintElems(o, vs[1..], depth);
      PrettyAddsSpace(o, vs[0], depth + 1);
      PrettyElems(o, vs[1..], depth, rest);
      FramedStrips(o, depth, part, bare, |vs| == 1, tail + rest);
      StripsOn(Framed(o, depth, part, |vs| == 1), Framed(Plain(o), depth, bare, |vs| == 1), tail,
          PrintElems(Plain(o), vs[1..], depth), rest);
    }
  }

  lemma {:induction false} PrettyMember(o: DumpOptions, m: Member, depth: nat, rest: seq<Byte>)
    requires WellFormed(m.key) && Printable(m.value)
    ensures StripsTo(PrintMember(o, m, depth), PrintMember(Plain(o), m, depth), rest)
    decreases m, 3
  {
    hide Bare, Printable, Print, Quoted, Colon, WellFormed;
    var value, bare := Print(o, m.value, depth + 1), Print(Plain(o), m.value, depth + 1);
    PrettyAddsSpace(o, m.value, depth + 1);
    assert StripsTo(value, bare, rest);
    ColonStrips(o, value + rest);
    StripsOn(Colon(o), Colon(Plain(o)), value, bare, rest);
    StripQuoted(o, m.key, Colon(o) + value + rest);
    StripsOn(Quoted(o, m.key), Quoted(Plain(o), m.key), Colon(o) + value, Colon(Plain(o)) + bare, rest);
    assert Quoted(o, m.key) + (Colon(o) + value) == PrintMember(o, m, depth);
    assert Quoted(Plain(o), m.key) + (Colon(Plain(o)) + bare) == PrintMember(Plain(o), m, depth);
  }

  lemma {:induction false} PrettyMembers(o: DumpOptions, ms: seq<Member>, depth: nat, rest: seq<Byte>)
    requires forall i :: 0 <= i < |ms| ==> WellFormed(ms[i].key) && Printable(ms[i].value)
    ensures StripsTo(PrintMembers(o, ms, depth), PrintMembers(Plain(o), ms, depth), rest)
    decreases ms, 0
  {
    hide StripsTo, Printable, PrintMember, Framed, WellFormed;
    if ms == [] {
      TokenStrips([], rest);
    } else {
      var part, bare := PrintMember(o, ms[0], depth), PrintMember(Plain(o), ms[0], depth);
      var tail := PrintMembers(o, ms[1..], depth);
      forall r ensures StripsTo(part, bare, r) { PrettyMember(o, ms[0], depth, r); }
      PrettyMembers(o, ms[1..], depth, rest);
      FramedStrips(o, depth, part, bare, |ms| == 1, tail + rest);
      StripsOn(Framed(o, depth, part, |ms| == 1), Framed(Plain(o), depth, bare, |ms| == 1), tail,
          PrintMembers(Plain(o), ms[1..], depth), rest);
    }
  }

  /** Of a whole text: without its white space it is what is printed without the option. */
  lemma PrettyIsPlain(o: DumpOptions, v: Value)
    requires Printable(v)
    ensures Bare(Print(o, v, 0)) == Print(Plain(o), v, 0)
  {
    hide Print, Bare;
    PrettyValue(o, v, 0, []);
    assert Print(o, v, 0) + [] == Print(o, v, 0) && Bare([]) == [] by { BareNothing(); }
  }

  lemma BareNothing()
    ensures Bare([]) == []
  {
  }

  // ---------------------------------------------------------------- lines and indentation

  predicate Opens(c: Byte) {
    c == 0x5b || c == 0x7b
  }

  predicate Closes(c: Byte) {
    c == 0x5d || c == 0x7d
  }

  function Blanks(t: seq<Byte>): (n: nat)
    ensures n <= |t|
  {
    if t == [] || t[0] != 0x20 then 0 else 1 + Blanks(t[1..])
  }

  /** A line at the given depth begins: two spaces for each level, one level less for a bracket
      that closes. */
  predicate Stands(t: seq<Byte>, depth: int) {
    var n := Blanks(t);
    n < |t| && n == 2 * (if Closes(t[n]) then depth - 1 else depth)
  }

  predicate Breaks(t: seq<Byte>) {
    t != [] && t[0] == 0x0a
  }

  predicate Gap(t: seq<Byte>) {
    |t| >= 3 && t[0] == 0x20 && t[1] == 0x3a && t[2] == 0x20
  }

  /** Outside string literals a line ends behind each opening bracket and each comma, and nowhere
      else but in front of a closing bracket, which begins its line; each line is indented by its
      depth; all other spaces stand around colons, one on each side. `lead` says that nothing but
      spaces stands before `t` on its line. */
  predicate Laid(t: seq<Byte>, lead: bool, depth: int)
    decreases |t|
  {
    t == [] ||
    var c, u := t[0], t[1..];
    if c == 0x22 then Laid(u[Literal(u, false)..], false, depth)
    else if Opens(c) then Breaks(u) && Laid(u, false, depth + 1)
    else if Closes(c) then lead && Laid(u, false, depth - 1)
    else if c == 0x2c then Breaks(u) && Laid(u, false, depth)
    else if c == 0x0a then Stands(u, depth) && Laid(u, true, depth)
    else if c == 0x20 && !lead then Gap(t) && Laid(t[3..], false, depth)
    else c != 0x3a && Laid(u, c == 0x20, depth)
  }

  predicate Ordinary(c: Byte) {
    c !in {0x22, 0x2c, 0x0a, 0x20, 0x3a} && !Opens(c) && !Closes(c)
  }

  lemma {:induction false} LaidToken(a: seq<Byte>, t: seq<Byte>, lead: bool, depth: int)
    requires forall i :: 0 <= i < |a| ==> Ordinary(a[i])
    requires Laid(t, false, depth) && a != []
    ensures Laid(a + t, lead, depth)
  {
    assert (a + t)[1..] == a[1..] + t;
    if |a| > 1 { LaidToken(a[1..], t, false, depth); } else { assert a[1..] + t == t; }
  }

  lemma {:induction false} LaidSpaces(w: seq<Byte>, t: seq<Byte>, depth: int)
    requires forall i :: 0 <= i < |w| ==> w[i] == 0x20
    requires Laid(t, true, depth)
    ensures Laid(w + t, true, depth)
    ensures t != [] && t[0] != 0x20 ==> Blanks(w + t) == |w|
  {
    if w == [] {
      assert w + t == t;
    } else {
      assert (w + t)[1..] == w[1..] + t;
      LaidSpaces(w[1..], t, depth);
    }
  }

  /** An indented line in front of `t`. */
  lemma LaidLine(level: nat, t: seq<Byte>, depth: int)
    requires t != [] && t[0] != 0x20 && Laid(t, true, depth) && level == if Closes(t[0]) then depth - 1 else depth
    ensures Stands(Indent(level) + t, depth) && Laid(Indent(level) + t, true, depth)
  {
    hide Laid;
    LaidSpaces(Indent(level), t, depth);
    assert (Indent(level) + t)[2 * level] == t[0];
  }

  lemma LaidBreak(t: seq<Byte>, lead: bool, depth: int)
    requires Stands(t, depth) && Laid(t, true, depth)
    ensures Laid([0x0a] + t, lead, depth) && Breaks([0x0a] + t)
    ensures Laid([0x2c] + ([0x0a] + t), lead, depth)
  {
    hide Stands;
    assert ([0x0a] + t)[1..] == t;
    var u := [0x0a] + t;
    assert Laid(u, false, depth);
    assert ([0x2c] + u)[1..] == u;
  }

  lemma LaidOpen(c: Byte, t: seq<Byte>, lead: bool, depth: int)
    requires Opens(c) && Stands(t, depth + 1) && Laid(t, true, depth + 1)
    ensures Laid([c] + ([0x0a] + t), lead, depth)
  {
    LaidBreak(t, false, depth + 1);
    var u := [0x0a] + t;
    hide Stands;
    assert ([c] + u)[1..] == u;
  }

  lemma LaidClose(c: Byte, t: seq<Byte>, depth: int)
    requires Closes(c) && Laid(t, false, depth)
    ensures Laid([c] + t, true, depth + 1)
  {
    assert ([c] + t)[1..] == t;
  }

  lemma LaidQuoted(o: DumpOptions, s: seq<Byte>, t: seq<Byte>, lead: bool, depth: int)
    requires WellFormed(s) && Laid(t, false, depth)
    ensures Laid(Quoted(o, s) + t, lead, depth)
  {
    hide Escape, Literal;
    LiteralQuoted(o, s, t);
    var q := Quoted(o, s) + t;
    assert q[1..][Literal(q[1..], false)..] == t;
  }

  lemma LaidColon(o: DumpOptions, t: seq<Byte>, depth: int)
    requires o.prettyPrint && Laid(t, false, depth)
    ensures Laid(Colon(o) + t, false, depth)
  {
    assert (Colon(o) + t)[3..] == t;
  }

  lemma DecimalOrdinary(n: nat)
    ensures forall i :: 0 <= i < |Decimal(n)| ==> Ordinary(Decimal(n)[i])
  {
    DecimalReads(n);
  }

  lemma LaidScalar(o: DumpOptions, v: Value, depth: nat, t: seq<Byte>, lead: bool)
    requires Printable(v) && !v.Arr? && !v.Obj? && Laid(t, false, depth)
    ensures Laid(Print(o, v, depth) + t, lead, depth)
  {
    hide Laid, Decimal, Quoted, WellFormed;
    match v
    case Null => LaidToken(NullText, t, lead, depth);
    case Bool(f) => LaidToken(if f then TrueText else FalseText, t, lead, depth);
    case Int(i) =>
      DecimalOrdinary(if i < 0 then -(i as int) else i);
      LaidToken(Print(o, v, depth), t, lead, depth);
    case UInt(u) =>
      DecimalOrdinary(u);
      LaidToken(Print(o, v, depth), t, lead, depth);
    case Str(s) => LaidQuoted(o, s, t, lead, depth);
  }

  /** One member on its line, in front of the lines of the others. */
  lemma LaidFramed(o: DumpOptions, depth: nat, part: seq<Byte>, last: bool, more: seq<Byte>)
    requires o.prettyPrint && part != [] && part[0] != 0x20 && !Closes(part[0])
    requires Stands(more, depth + 1) && Laid(more, true, depth + 1)
    requires forall t :: Laid(t, false, depth + 1) ==> Laid(part + t, true, depth + 1)
    ensures var t := Framed(o, depth, part, last) + more; Stands(t, depth + 1) && Laid(t, true, depth + 1)
  {
    hide Laid, Stands, Indent;
    LaidBreak(more, false, depth + 1);
    var comma: seq<Byte> := if last then [] else [0x2c];
    var rest := comma + ([0x0a] + more);
    assert last ==> rest == [0x0a] + more;
    LaidLine(depth + 1, part + rest, depth + 1);
    assert Framed(o, depth, part, last) + more == Indent(depth + 1) + (part + rest);
  }

  /** The brackets of a compound around the lines of its members. */
  lemma LaidBracketed(o: DumpOptions, depth: nat, begin: Byte, body: seq<Byte>, end: Byte, t: seq<Byte>, lead: bool)
    requires o.prettyPrint && Opens(begin) && Closes(end) && Laid(t, false, depth)
    requires forall r :: Stands(r, depth + 1) && Laid(r, true, depth + 1) ==>
      Stands(body + r, depth + 1) && Laid(body + r, true, depth + 1)
    ensures Laid(Bracketed(o, depth, begin, body, end) + t, lead, depth)
  {
    hide Laid, Stands, Indent;
    LaidClose(end, t, depth);
    var r := Indent(depth) + ([end] + t);
    LaidLine(depth, [end] + t, depth + 1);
    LaidOpen(begin, body + r, lead, depth);
    assert Bracketed(o, depth, begin, body, end) + t == [begin] + ([0x0a] + (body + r));
  }

  /** Pretty text is laid out in lines, at any depth and in front of any text that is. */
  lemma {:induction false} LaidValue(o: DumpOptions, v: Value, depth: nat, t: seq<Byte>, lead: bool)
    requires o.prettyPrint && Printable(v) && Laid(t, false, depth)
    ensures Laid(Print(o, v, depth) + t, lead, depth)
    decreases v, 1
  {
    hide Laid, Stands, PrintElems, PrintMembers, Bracketed, WellFormed;
    match v
    case Arr(_, elems) =>
      forall r | Stands(r, depth + 1) && Laid(r, true, depth + 1)
        ensures var u := PrintElems(o, elems, depth) + r; Stands(u, depth + 1) && Laid(u, true, depth + 1)
      {
        LaidElems(o, elems, depth, r);
      }
      LaidBracketed(o, depth, 0x5b, PrintElems(o, elems, depth), 0x5d, t, lead);
    case Obj(_, members) =>
      forall r | Stands(r, depth + 1) && Laid(r, true, depth + 1)
        ensures var u := PrintMembers(o, members, depth) + r; Stands(u, depth + 1) && Laid(u, true, depth + 1)
      {
        LaidMembers(o, members, depth, r);
      }
      LaidBracketed(o, depth, 0x7b, PrintMembers(o, members, depth), 0x7d, t, lead);
    case _ => LaidScalar(o, v, depth, t, lead);
  }

  lemma BeginsItsLine(o: DumpOptions, v: Value, depth: nat)
    requires !v.Double?
    ensures var t := Print(o, v, depth); t != [] && t[0] != 0x20 && !Closes(t[0])
  {
    hide Print;
    PrintStarts(o, v, depth);
  }

  lemma {:induction false} LaidElems(o: DumpOptions, vs: seq<Value>, depth: nat, r: seq<Byte>)
    requires o.prettyPrint && (forall i :: 0 <= i < |vs| ==> Printable(vs[i]))
    requires Stands(r, depth + 1) && Laid(r, true, depth + 1)
    ensures var u := PrintElems(o, vs, depth) + r; Stands(u, depth + 1) && Laid(u, true, depth + 1)
    decreases vs, 0
  {
    hide Laid, Stands, Print, Framed;
    if vs == [] {
      assert PrintElems(o, vs, depth) + r == r;
    } else {
      var part, more := Print(o, vs[0], depth + 1), PrintElems(o, vs[1..], depth) + r;
      LaidElems(o, vs[1..], depth, r);
      BeginsItsLine(o, vs[0], depth + 1);
      forall t | Laid(t, false, depth + 1) ensures Laid(part + t, true, depth + 1) {
        LaidValue(o, vs[0], depth + 1, t, true);
      }
      LaidFramed(o, depth, part, |vs| == 1, more);
      assert PrintElems(o, vs, depth) + r == Framed(o, depth, part, |vs| == 1) + more;
    }
  }

  lemma {:induction false} LaidMember(o: DumpOptions, m: Member, depth: nat, t: seq<Byte>)
    requires o.prettyPrint && WellFormed(m.key) && Printable(m.value) && Laid(t, false, depth + 1)
    ensures Laid(PrintMember(o, m, depth) + t, true, depth + 1)
    decreases m, 3
  {
    hide Laid, Print, Quoted, Colon, WellFormed, Printable;
    var value := Print(o, m.value, depth + 1) + t;
    LaidValue(o, m.value, depth + 1, t, false);
    LaidColon(o, value, depth + 1);
    LaidQuoted(o, m.key, Colon(o) + value, true, depth + 1);
    assert PrintMember(o, m, depth) + t == Quoted(o, m.key) + (Colon(o) + value);
  }

  lemma {:induction false} LaidMembers(o: DumpOptions, ms: seq<Member>, depth: nat, r: seq<Byte>)
    requires o.prettyPrint && (forall i :: 0 <= i < |ms| ==> WellFormed(ms[i].key) && Printable(ms[i].value))
    requires Stands(r, depth + 1) && Laid(r, true, depth + 1)
    ensures var u := PrintMembers(o, ms, depth) + r; Stands(u, depth + 1) && Laid(u, true, depth + 1)
    decreases ms, 0
  {
    hide Laid, Stands, PrintMember, Framed, WellFormed, Printable;
    if ms == [] {
      assert PrintMembers(o, ms, depth) + r == r;
    } else {
      var part, more := PrintMember(o, ms[0], depth), PrintMembers(o, ms[1..], depth) + r;
      LaidMembers(o, ms[1..], depth, r);
      assert part != [] && part[0] == 0x22 by { MemberBegins(o, ms[0], depth); }
      forall t | Laid(t, false, depth + 1) ensures Laid(part + t, true, depth + 1) {
        LaidMember(o, ms[0], depth, t);
      }
      LaidFramed(o, depth, part, |ms| == 1, more);
      assert PrintMembers(o, ms, depth) + r == Framed(o, depth, part, |ms| == 1) + more;
    }
  }

  lemma MemberBegins(o: DumpOptions, m: Member, depth: nat)
    ensures var t := PrintMember(o, m, depth); t != [] && t[0] == 0x22
  {
    hide Print, Escape;
  }

  /** Of a whole text. */
  lemma PrettyIsLaidOut(o: DumpOptions, v: Value)
    requires o.prettyPrint && Printable(v)
    ensures Laid(Print(o, v, 0), true, 0)
  {
    hide Print;
    LaidValue(o, v, 0, [], true);
    assert Print(o, v, 0) + [] == Print(o, v, 0);
  }
}
