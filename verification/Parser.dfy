/** The JSON parser: recursive descent over a byte buffer, writing into a builder. */
module Parser {
  import opened Bytes
  import opened Format
  import opened Layout
  import opened Slice
  import RoundTrip
  import opened Frames
  import opened JsonText
  import opened Json
  import JsonGrammar
  import opened Builder
  import opened Wrappers

  class Parser {
    const builder: Builder
    const validateUtf8Strings: bool
    var text: seq<Byte>
    var pos: nat

    constructor (builder: Builder, validateUtf8Strings: bool)
      ensures this.builder == builder && this.validateUtf8Strings == validateUtf8Strings && text == [] && pos == 0
    {
      this.builder := builder;
      this.validateUtf8Strings := validateUtf8Strings;
      text, pos := [], 0;
    }

    ghost predicate Inside()
      reads this
    {
      pos <= |text| < Limit
    }

    /** The text not yet read. */
    ghost function Rest(): seq<Byte>
      reads this
      requires pos <= |text|
    {
      text[pos..]
    }

    method Consume() returns (i: int)
      requires Inside()
      modifies this`pos
      ensures Inside()
      ensures old(Rest()) == [] ==> i == -1 && pos == old(pos)
      ensures old(Rest()) != [] ==> i == old(Rest())[0] && Rest() == old(Rest())[1..] && pos == old(pos) + 1
    {
      if pos >= |text| { return -1; }
      i := text[pos];
      pos := pos + 1;
    }

    method Unconsume()
      requires Inside() && pos > 0
      modifies this`pos
      ensures Inside() && pos == old(pos) - 1
    {
      pos := pos - 1;
    }

    /** The byte behind the white space, or -1 at the end of the text. */
    method SkipWhiteSpace() returns (c: int)
      requires Inside()
      modifies this`pos
      ensures Inside() && Rest() == SkipSpace(old(Rest()))
      ensures c == if Rest() == [] then -1 else Rest()[0]
    {
      if pos >= |text| { return -1; }
      c := text[pos];
      if !IsSpace(text[pos]) { return; }
      if c == 0x20 {
        if pos + 1 >= |text| {
          pos := pos + 1;
          return -1;
        }
        c := text[pos + 1];
        if !IsSpace(text[pos + 1]) {
          pos := pos + 1;
          return;
        }
      }
      var remaining := |text| - pos;
      if remaining >= 16 {
        BulkSkip(remaining - 15);
      }
      while pos < |text|
        invariant Inside() && SkipSpace(Rest()) == SkipSpace(old(Rest()))
      {
        if !IsSpace(text[pos]) { return text[pos]; }
        assert Rest()[1..] == text[pos + 1..];
        pos := pos + 1;
      }
      return -1;
    }

    /** JSONSkipWhiteSpace: up to `limit` bytes of white space. */
    method BulkSkip(limit: nat)
      requires Inside() && pos + limit <= |text|
      modifies this`pos
      ensures Inside() && SkipSpace(Rest()) == SkipSpace(old(Rest()))
      ensures old(pos) <= pos <= old(pos) + limit && forall k :: old(pos) <= k < pos ==> IsSpace(text[k])
      ensures pos == old(pos) + limit || !IsSpace(text[pos])
    {
      var end := pos + limit;
      while pos < end && IsSpace(text[pos])
        invariant Inside() && old(pos) <= pos <= end && SkipSpace(Rest()) == SkipSpace(old(Rest()))
        invariant forall k :: old(pos) <= k < pos ==> IsSpace(text[k])
      {
        assert Rest()[1..] == text[pos + 1..];
        pos := pos + 1;
      }
    }

    // -------------------------------------------------------------- strings

    /** What the builder holds of a string under way: a type byte to be corrected, eight bytes
        of room once the string is long, and the characters. */
    ghost predicate Writing(before: seq<Byte>, out: seq<Byte>, large: bool)
      reads builder
    {
      && builder.pos <= |builder.start|
      && UnderWay(builder.Content(), before, out, large)
    }

    lemma WritingBegins(before: seq<Byte>)
      requires builder.pos <= |builder.start| && builder.Content() == before + [0x40]
      ensures Writing(before, [], false)
    {
    }

    lemma WritingLength(before: seq<Byte>, out: seq<Byte>, large: bool)
      requires Writing(before, out, large)
      ensures builder.pos == |before| + (if large then 9 else 1) + |out|
    {
    }

    /** JSONStringCopy and JSONStringCopyCheckUtf8: plain characters, copied without looking further. */
    method BulkCopy(limit: nat, ghost before: seq<Byte>, ghost out: seq<Byte>, large: bool)
      requires Inside() && pos + limit <= |text| && Writing(before, out, large)
      modifies this`pos, builder`start, builder`pos
      ensures Inside()
      ensures var n := RunLength(old(Rest()), limit, validateUtf8Strings);
              Rest() == old(Rest())[n..] && Writing(before, out + old(Rest())[..n], large)
    {
      hide UnderWay;
      ghost var t := Rest();
      var n := 0;
      while n < limit && Copyable(text[pos + n], validateUtf8Strings)
        invariant 0 <= n <= limit && forall i :: 0 <= i < n ==> Copyable(t[i], validateUtf8Strings)
        decreases limit - n
      {
        assert text[pos + n] == t[n];
        n := n + 1;
      }
      if n < limit { assert text[pos + n] == t[n]; }
      RunUnique(t, limit, validateUtf8Strings, n);
      UnderWayMore(builder.Content(), before, out, large, t[..n]);
      assert text[pos..pos + n] == t[..n];
      builder.AppendBytes(text[pos..pos + n]);
      pos := pos + n;
    }

    /** The header switch: eight bytes of room between the type byte and the characters. */
    method MakeRoom(base: nat, ghost before: seq<Byte>, ghost out: seq<Byte>)
      requires Writing(before, out, false) && base == |before|
      modifies builder`start, builder`pos
      ensures Writing(before, out, true)
    {
      var len := builder.pos - (base + 1);
      ghost var c := builder.Content();
      RoomMade(c, before, out);
      builder.Reserve(8);
      ghost var s := builder.start;
      var moved := builder.start[base + 1..base + 1 + len];
      assert moved == c[base + 1..];
      builder.start := Put(builder.start, base + 9, moved);
      builder.pos := builder.pos + 8;
      PutBehind(s, base + 9, moved);
    }

    /** The closing quote: the type byte, and the length of a long string, are patched in. */
    method CloseString(base: nat, large: bool, ghost before: seq<Byte>, ghost out: seq<Byte>)
      requires Writing(before, out, large) && base == |before| && (large <==> |out| > 126)
      modifies builder`start, builder`pos
      ensures builder.pos <= |builder.start| && builder.Content() == before + EncodeString(out)
    {
      hide LE, Put;
      ghost var c := builder.Content();
      HeaderPatched(c, before, out, large);
      if !large {
        var len := builder.pos - (base + 1);
        PutFront(builder.start, base, [0x40 + len], builder.pos);
        builder.start := Put(builder.start, base, [0x40 + len]);
      } else {
        var len := builder.pos - (base + 9);
        PutFront(builder.start, base, [0xbf], builder.pos);
        builder.start := Put(builder.start, base, [0xbf]);
        PutFront(builder.start, base + 1, LE(len, 8), builder.pos);
        builder.StoreLE(base + 1, len, 8);
      }
    }

    /** Bytes appended to a string under way. */
    method AppendText(t: seq<Byte>, ghost before: seq<Byte>, ghost out: seq<Byte>, ghost large: bool)
      requires Writing(before, out, large)
      modifies builder`start, builder`pos
      ensures Writing(before, out + t, large)
    {
      UnderWayMore(builder.Content(), before, out, large, t);
      builder.AppendBytes(t);
    }

    /** Builder::rollback(3): the bytes of the high surrogate are taken back. */
    method Rollback(ghost before: seq<Byte>, ghost out: seq<Byte>, ghost large: bool)
      requires Writing(before, out, large) && |out| >= 3
      modifies builder`pos
      ensures Writing(before, Dropped(out), large)
    {
      UnderWayLess(builder.Content(), before, out, large);
      ghost var c := builder.Content();
      builder.pos := builder.pos - 3;
      assert builder.Content() == c[..|c| - 3];
    }

    /** A code unit from a \uXXXX escape, as UTF-8. */
    method AppendUnicode(v: nat, high: nat, ghost before: seq<Byte>, ghost out: seq<Byte>, ghost large: bool)
      returns (high1: nat, ghost out1: seq<Byte>)
      requires v < 0x1_0000 && Writing(before, out, large) && (high == 0 || (IsHigh(high) && |out| >= 3))
      modifies builder`start, builder`pos
      ensures forall rest :: Unicode(rest, out, high, v) == Scan(rest, out1, high1)
      ensures Writing(before, out1, large)
    {
      hide UnderWay, Dropped;
      out1, high1 := out, 0;
      if v < 0x80 {
        AppendText([v], before, out, large);
        out1 := out + [v];
      } else if v < 0x800 {
        AppendText([0xc0 + v / 64, 0x80 + v % 64], before, out, large);
        out1 := out + Utf8Of2(v);
      } else if 0xdc00 <= v < 0xe000 && high != 0 {
        var c := 0x1_0000 + (high - 0xd800) * 0x400 + v - 0xdc00;
        Rollback(before, out, large);
        AppendText([0xf0 + c / 0x4_0000, 0x80 + c / 0x1000 % 64, 0x80 + c / 64 % 64, 0x80 + c % 64], before,
            Dropped(out), large);
        out1 := Dropped(out) + Utf8Of4(c);
      } else {
        high1 := if 0xd800 <= v < 0xdc00 then v else 0;
        AppendText([0xe0 + v / 0x1000, 0x80 + v / 64 % 64, 0x80 + v % 64], before, out, large);
        out1 := out + Utf8Of3(v);
      }
    }

    /** The four digits of a \uXXXX escape. */
    method ReadHex(ghost t: seq<Byte>) returns (ok: bool, v: nat)
      requires Inside() && |t| >= 2 && Rest() == t[2..]
      modifies this`pos
      ensures Inside()
      ensures ok <==> |t| >= 6 && forall i :: 2 <= i < 6 ==> HexValue(t[i]) >= 0
      ensures ok ==> v == HexFour(t) && Rest() == t[6..]
    {
      hide HexValue;
      v := 0;
      var j := 0;
      while j < 4
        invariant 0 <= j <= 4 && Inside() && 2 + j <= |t| && Rest() == t[2 + j..]
        invariant forall i :: 2 <= i < 2 + j ==> HexValue(t[i]) >= 0
        invariant v == HexPrefix(t, j)
      {
        var i := Consume();
        if i < 0 { return false, v; }
        assert i == t[2 + j];
        var d := HexValue(i);
        if d < 0 { return false, v; }
        v := 16 * v + d;
        assert t[2 + j..][1..] == t[2 + (j + 1)..];
        j := j + 1;
      }
      HexPrefixIsFour(t);
      ok := true;
    }

    method ReadEscape(high: nat, ghost before: seq<Byte>, ghost out: seq<Byte>, ghost large: bool, ghost t: seq<Byte>)
      returns (e: Option<JsonError>, high1: nat, ghost out1: seq<Byte>)
      requires Inside() && t != [] && Rest() == t[1..] && Writing(before, out, large) && Sane(Scan(t, out, high))
      modifies this`pos, builder`start, builder`pos
      ensures Inside()
      ensures Outcomes(Escaped(Scan(t, out, high)), e, Rest(), high1, out1)
      ensures e == None ==> Writing(before, out1, large)
    {
      hide UnderWay, HexValue, HexFour, Unicode, LetterValue;
      high1, out1 := 0, out;
      var i := Consume();
      if i < 0 { return Some(ParseError), high1, out1; }
      assert i == t[1] && t[1..][1..] == t[2..];
      LetterIsByte(i);
      var letter := LetterValue(i);
      if letter >= 0 {
        AppendText([letter], before, out, large);
        out1 := out + [letter];
        return None, 0, out1;
      }
      if i != 0x75 { return Some(ParseError), high1, out1; }
      var ok, v := ReadHex(t);
      if !ok { return Some(ParseError), high1, out1; }
      high1, out1 := AppendUnicode(v, high, before, out, large);
      e := None;
    }

    /** The continuation bytes of a multi-byte sequence. */
    method ReadContinued(follow: nat, ghost before: seq<Byte>, ghost out: seq<Byte>, ghost large: bool)
      returns (e: Option<JsonError>, ghost out1: seq<Byte>)
      requires Inside() && Writing(before, out, large)
      modifies this`pos, builder`start, builder`pos
      ensures Inside()
      ensures Outcomes(Continued(old(Rest()), out, follow), e, Rest(), 0, out1)
      ensures e == None ==> Writing(before, out1, large)
    {
      hide UnderWay;
      out1 := out;
      var j := 0;
      while j < follow
        invariant 0 <= j <= follow && Inside() && Writing(before, out1, large)
        invariant Continued(Rest(), out1, follow - j) == Continued(old(Rest()), out, follow)
      {
        ghost var t := Rest();
        var i := Consume();
        if i < 0 { return Some(ParseError), out1; }
        if !(0x80 <= i < 0xc0) { return Some(InvalidUtf8Sequence), out1; }
        AppendText([i], before, out1, large);
        out1 := out1 + [t[0]];
        j := j + 1;
      }
      e := None;
    }

    /** Everything but the closing quote. */
    method ReadToken(c: Byte, high: nat, ghost before: seq<Byte>, ghost out: seq<Byte>, ghost large: bool,
        ghost t: seq<Byte>)
      returns (e: Option<JsonError>, high1: nat, ghost out1: seq<Byte>)
      requires Inside() && t != [] && t[0] == c != 0x22 && Rest() == t[1..] && Writing(before, out, large) &&
        Sane(Scan(t, out, high))
      modifies this`pos, builder`start, builder`pos
      ensures Inside()
      ensures Outcomes(Token(Scan(t, out, high), validateUtf8Strings), e, Rest(), high1, out1)
      ensures e == None ==> Writing(before, out1, large)
    {
      hide UnderWay, Escaped, Continued;
      high1, out1 := 0, out;
      if c == 0x5c {
        e, high1, out1 := ReadEscape(high, before, out, large, t);
      } else if c < 0x20 {
        e := Some(UnexpectedControlCharacter);
      } else if c < 0x80 || !validateUtf8Strings {
        AppendText([c], before, out, large);
        e, out1 := None, out + [c];
      } else {
        var follow := if 0xc0 <= c < 0xe0 then 1 else if 0xe0 <= c < 0xf0 then 2 else if 0xf0 <= c < 0xf8 then 3 else 0;
        if follow == 0 { return Some(InvalidUtf8Sequence), high1, out1; }
        AppendText([c], before, out, large);
        e, out1 := ReadContinued(follow, before, out + [c], large);
      }
    }

    /** The bulk copy, if at least 16 bytes are left. */
    method CopyPlain(ghost high: nat, ghost before: seq<Byte>, ghost out: seq<Byte>, large: bool)
      returns (ghost out1: seq<Byte>)
      requires Inside() && Writing(before, out, large) && Sane(Scan(Rest(), out, high))
      modifies this`pos, builder`start, builder`pos
      ensures Inside() && Writing(before, out1, large) && |out1| >= |out|
      ensures Scan(Rest(), out1, high) == Bulk(Scan(old(Rest()), out, high), validateUtf8Strings)
    {
      hide Bulk, Writing, RunLength;
      BulkIs(Scan(Rest(), out, high), validateUtf8Strings);
      out1 := Bulk(Scan(Rest(), out, high), validateUtf8Strings).out;
      var remainder := |text| - pos;
      if remainder >= 16 {
        BulkCopy(remainder - 15, before, out, large);
      }
    }

    /** Behind an opening quote: the string is appended to the builder's buffer. */
    method ParseString() returns (e: Option<JsonError>)
      requires Inside() && builder.pos <= |builder.start|
      modifies this`pos, builder`start, builder`pos
      ensures Inside()
      ensures var r := Json.ParseString(old(Rest()), validateUtf8Strings);
        && (r.Failed? ==> e == Some(r.error))
        && (r.Parsed? ==> e == None && Rest() == r.rest)
        && (r.Parsed? ==>
          builder.pos <= |builder.start| &&
          builder.Content() == old(builder.Content()) + EncodeString(r.value))
    {
      hide UnderWay, Token, Bulk, EncodeString, ScanString, Writing;
      ghost var before := builder.Content();
      ghost var out: seq<Byte> := [];
      var base := builder.pos;
      builder.AppendByte(0x40);
      WritingBegins(before);
      var large, high := false, 0;
      while true
        invariant Inside() && Writing(before, out, large) && (large ==> |out| > 126) && Sane(Scan(Rest(), out, high))
        invariant ScanString(Scan(Rest(), out, high), validateUtf8Strings)
          == ScanString(Scan(old(Rest()), [], 0), validateUtf8Strings)
        decreases |text| - pos
      {
        ghost var s := Scan(Rest(), out, high);
        ScanStep(s, validateUtf8Strings);
        ghost var b := Bulk(s, validateUtf8Strings);
        out := CopyPlain(high, before, out, large);
        var i := Consume();
        TokenShrinks(b, validateUtf8Strings);
        if i < 0 {
          EndOfText(b, validateUtf8Strings);
          return Some(ParseError);
        }
        WritingLength(before, out, large);
        if !large && builder.pos - (base + 1) > 126 {
          large := true;
          MakeRoom(base, before, out);
        }
        if i == 0x22 {
          QuoteToken(b, validateUtf8Strings);
          CloseString(base, large, before, out);
          return None;
        }
        e, high, out := ReadToken(i, high, before, out, large, b.rest);
        if e.Some? { return; }
      }
    }

    // -------------------------------------------------------------- numbers and words

    /** The digits of an integer, as long as they fit 64 bits. */
    method ScanDigits() returns (isInteger: bool, intValue: UInt64)
      requires Inside()
      modifies this`pos
      ensures Inside()
      ensures var n := DigitCount(old(Rest())); var v := DigitsValue(old(Rest())[..n]);
        Rest() == old(Rest())[n..] && pos == old(pos) + n && v >= 0 && (isInteger <==> v < 0x1_0000_0000_0000_0000) &&
          (isInteger ==> intValue == v)
    {
      hide DigitCount, DigitsValue;
      ghost var t := Rest();
      isInteger, intValue := true, 0;
      var n := 0;
      NoDigits();
      assert t[..0] == [] && t[0..] == t;
      while true
        invariant Inside() && 0 <= n <= |t| && Rest() == t[n..] && pos == old(pos) + n
        invariant DigitCount(t) == n + DigitCount(t[n..])
        invariant 0 <= DigitsValue(t[..n])
        invariant isInteger <==> DigitsValue(t[..n]) < 0x1_0000_0000_0000_0000
        invariant isInteger ==> intValue == DigitsValue(t[..n])
        decreases |t| - n
      {
        FirstDigit(t, n);
        var i := Consume();
        if i < 0 { return; }
        assert t[n..][1..] == t[n + 1..];
        if !(0x30 <= i <= 0x39) {
          Unconsume();
          return;
        }
        if isInteger {
          if intValue < 1844674407370955161 || (intValue == 1844674407370955161 && i - 0x30 <= 5) {
            intValue := intValue * 10 + (i - 0x30);
          } else {
            isInteger := false;
          }
        }
        n := n + 1;
      }
    }

    /** Sign and digits of a number, up to what may follow. */
    method ScanInteger()
      returns (e: Option<JsonError>, negative: bool, isInteger: bool, intValue: UInt64, ghost u: seq<Byte>,
        ghost n: nat)
      requires Inside() && Rest() != []
      modifies this`pos
      ensures Inside()
      ensures negative == (old(Rest())[0] == 0x2d) && u == if negative then old(Rest())[1..] else old(Rest())
      ensures (e == None <==> u != [] && IsDigit(u[0])) && (e.Some? ==> e == Some(ParseError))
      ensures e == None ==> n == (if u[0] == 0x30 then 1 else DigitCount(u)) <= |u| && Rest() == u[n..] && pos > 0
      ensures e == None ==> DigitsValue(u[..n]) >= 0 && (isInteger <==> DigitsValue(u[..n]) < 0x1_0000_0000_0000_0000)
      ensures e == None && isInteger ==> intValue == DigitsValue(u[..n])
    {
      hide DigitCount, DigitsValue;
      u, n, isInteger, intValue, negative := Rest(), 0, true, 0, false;
      var i := Consume();
      if i == 0x2d {
        u := Rest();
        i := Consume();
        negative := true;
      }
      if !(0x30 <= i <= 0x39) { return Some(ParseError), negative, isInteger, intValue, u, n; }
      ZeroCounts(u);
      if i != 0x30 {
        Unconsume();
        assert Rest() == u;
        isInteger, intValue := ScanDigits();
      }
      n := if i == 0x30 then 1 else DigitCount(u);
      e := None;
    }

    /** An integer becomes a value; a fraction, an exponent or more than 64 bits do not here. */
    method ParseNumber() returns (e: Option<JsonError>, ghost v: Value)
      requires Inside() && Rest() != [] && builder.Valid() && Ready(builder.open)
      modifies this`pos, builder
      ensures Inside()
      ensures Agrees(Json.ParseNumber(old(Rest())), e, Rest(), v)
      ensures e == None ==> builder.Valid()
      ensures e == None ==> builder.roots == AddRoot(old(builder.roots), old(builder.open), v)
      ensures e == None ==> builder.open == AddOpen(old(builder.open), v)
    {
      hide DigitCount, DigitsValue, Json.ParseNumber, AddRoot, AddOpen, Ready;
      NumberStarts(Rest());
      v := Null;
      var negative, isInteger, intValue;
      ghost var u, n;
      e, negative, isInteger, intValue, u, n := ScanInteger();
      if e.Some? { return; }
      var i := Consume();
      if i == 0x2e || i == 0x65 || i == 0x45 { return Some(FloatingPoint), v; }
      if i >= 0 { Unconsume(); }
      assert Rest() == u[n..];
      if !isInteger || (negative && intValue > 0x8000_0000_0000_0000) { return Some(FloatingPoint), v; }
      v := AddInteger(negative, intValue);
    }

    method AddInteger(negative: bool, intValue: UInt64) returns (ghost v: Value)
      requires builder.Valid() && Ready(builder.open) && (negative ==> intValue <= 0x8000_0000_0000_0000)
      modifies builder
      ensures v == if negative then Int(0 - intValue) else UInt(intValue)
      ensures builder.Valid() && builder.roots == AddRoot(old(builder.roots), old(builder.open), v)
      ensures builder.open == AddOpen(old(builder.open), v)
    {
      hide Expected, Encode;
      if negative {
        v := Int(0 - intValue);
        builder.AddInt(0 - intValue);
      } else {
        v := UInt(intValue);
        builder.AddUInt(intValue);
      }
      IntegerBytes(builder.options, v);
      builder.Finish(v);
    }

    /** The letters of a literal, the first of them already consumed. */
    method ParseWord(word: seq<Byte>, ghost t: seq<Byte>) returns (ok: bool)
      requires Inside() && |word| >= 1 && t != [] && t[0] == word[0] && Rest() == t[1..]
      modifies this`pos
      ensures Inside()
      ensures ok <==> |word| <= |t| && t[..|word|] == word
      ensures ok ==> Rest() == t[|word|..]
    {
      var j := 1;
      while j < |word|
        invariant 1 <= j <= |word| && Inside() && j <= |t| && Rest() == t[j..] && t[..j] == word[..j]
      {
        var i := Consume();
        if i != word[j] {
          WordDiffers(t, word, j);
          return false;
        }
        assert t[j..][1..] == t[j + 1..];
        assert t[..j + 1] == t[..j] + [t[j]];
        j := j + 1;
      }
      ok := true;
    }

    /** A literal or a string, whose first byte `c` has been consumed. */
    method ParseScalar(c: Byte, ghost t: seq<Byte>) returns (e: Option<JsonError>, ghost v: Value)
      requires Inside() && t != [] && t[0] == c && c in {0x74, 0x66, 0x6e, 0x22} && Rest() == t[1..]
      requires builder.Valid() && Ready(builder.open)
      modifies this`pos, builder
      ensures Inside()
      ensures Agrees(ScalarResult(t, validateUtf8Strings), e, Rest(), v)
      ensures e == None ==> builder.Valid()
      ensures e == None ==> builder.roots == AddRoot(old(builder.roots), old(builder.open), v)
      ensures e == None ==> builder.open == AddOpen(old(builder.open), v)
    {
      hide Expected, Json.ParseString, AddRoot, AddOpen, Ready, EncodeString;
      v := Null;
      LiteralBytes(builder.options);
      if c == 0x22 {
        e := ParseString();
        if e.Some? { return; }
        ghost var r := Json.ParseString(t[1..], validateUtf8Strings);
        v := Str(r.value);
      } else {
        var word := if c == 0x74 then TrueText else if c == 0x66 then FalseText else NullText;
        var ok := ParseWord(word, t);
        if !ok { return Some(ParseError), v; }
        v := if c == 0x74 then Bool(true) else if c == 0x66 then Bool(false) else Null;
        builder.AppendByte(if c == 0x74 then 0x1a else if c == 0x66 then 0x19 else 0x18);
      }
      builder.Finish(v);
      e := None;
    }

    method ParseJson() returns (e: Option<JsonError>, ghost v: Value)
      requires Inside() && builder.Valid() && Ready(builder.open)
      modifies this`pos, builder
      ensures Inside()
      ensures Agrees(ParseValue(old(Rest()), validateUtf8Strings), e, Rest(), v)
      ensures e == None ==> builder.Valid()
      ensures e == None ==> builder.roots == AddRoot(old(builder.roots), old(builder.open), v)
      ensures e == None ==> builder.open == AddOpen(old(builder.open), v)
      decreases |text| - pos, 0
    {
      hide Json.ParseArray, Json.ParseObject, Json.ParseNumber, Json.ParseString, AddRoot, AddOpen, Ready,
        Json.ParseWord;
      v := Null;
      ValueCases(Rest(), validateUtf8Strings);
      var c := SkipWhiteSpace();
      if c < 0 { return Some(ParseError), v; }
      ghost var u := Rest();
      var i := Consume();
      if i == 0x7b {
        e, v := ParseObject();
      } else if i == 0x5b {
        e, v := ParseArray();
      } else if i == 0x74 || i == 0x66 || i == 0x6e || i == 0x22 {
        e, v := ParseScalar(i, u);
      } else {
        Unconsume();
        e, v := ParseNumber();
      }
    }

    /** The innermost compound `f` is closed and becomes a value of what is around it. */
    method CloseFrame(ghost front: seq<Frame>, ghost f: Frame)
      requires builder.Valid() && builder.open == front + [f] && Closable(f)
      modifies builder
      ensures builder.Valid() && Ready(front)
      ensures builder.roots == AddRoot(old(builder.roots), front, FrameValue(f)) &&
        builder.open == AddOpen(front, FrameValue(f))
    {
      FrameAround(front, f);
      var e := builder.Close();
    }

    method ParseArray() returns (e: Option<JsonError>, ghost v: Value)
      requires Inside() && builder.Valid() && Ready(builder.open)
      modifies this`pos, builder
      ensures Inside()
      ensures Agrees(Json.ParseArray(old(Rest()), validateUtf8Strings), e, Rest(), v)
      ensures e == None ==> builder.Valid()
      ensures e == None ==> builder.roots == AddRoot(old(builder.roots), old(builder.open), v)
      ensures e == None ==> builder.open == AddOpen(old(builder.open), v)
      decreases |text| - pos, 3
    {
      hide ParseElems, AddRoot, AddOpen, Ready, SkipSpace, Json.ParseArray, Builder.Valid, Builder.Shape;
      ArrayCases(Rest(), validateUtf8Strings);
      ghost var front := builder.open;
      builder.AddCompoundValue(true, false);
      v := Arr(false, []);
      var i := SkipWhiteSpace();
      if i < 0 { return Some(ParseError), v; }
      if i == 0x5d {
        pos := pos + 1;
        CloseFrame(front, ArrFrame(false, [], false));
        return None, v;
      }
      e, v := ParseElements(front);
    }

    /** One element, recorded and parsed. */
    method ParseElement(ghost front: seq<Frame>, ghost done: seq<Value>) returns (e: Option<JsonError>, ghost x: Value)
      requires Inside() && builder.Valid() && builder.open == front + [ArrFrame(false, done, false)]
      modifies this`pos, builder
      ensures Inside()
      ensures Agrees(ParseValue(old(Rest()), validateUtf8Strings), e, Rest(), x)
      ensures e == None ==>
        builder.Valid() && builder.roots == old(builder.roots) &&
        builder.open == front + [ArrFrame(false, done + [x], false)]
      decreases |text| - pos, 1
    {
      hide AddRoot, AddOpen, Ready, ParseValue, Builder.Valid, Builder.Shape, Marked;
      FrameAround(front, ArrFrame(false, done, false));
      builder.ReportAdd();
      ElementReady(front, done);
      e, x := ParseJson();
      if e.Some? { return; }
      ElementAdded(old(builder.roots), front, done, x);
    }

    /** The elements of an array that is not empty. */
    method ParseElements(ghost front: seq<Frame>) returns (e: Option<JsonError>, ghost v: Value)
      requires Inside() && builder.Valid() && builder.open == front + [ArrFrame(false, [], false)] && Ready(front)
      modifies this`pos, builder
      ensures Inside()
      ensures Agrees(ParseElems(old(Rest()), validateUtf8Strings, []), e, Rest(), v)
      ensures e == None ==> builder.Valid()
      ensures e == None ==> builder.roots == AddRoot(old(builder.roots), front, v) && builder.open == AddOpen(front, v)
      decreases |text| - pos, 2
    {
      hide AddRoot, AddOpen, Ready, SkipSpace, ParseValue, ParseElems, Builder.Valid, Builder.Shape, Marked;
      ghost var done: seq<Value> := [];
      v := Arr(false, []);
      while true
        invariant Inside() && builder.Valid() && builder.open == front + [ArrFrame(false, done, false)]
        invariant builder.roots == old(builder.roots) && pos >= old(pos)
        invariant ParseElems(Rest(), validateUtf8Strings, done) == ParseElems(old(Rest()), validateUtf8Strings, [])
        decreases |text| - pos
      {
        ElemCases(Rest(), validateUtf8Strings, done);
        ghost var x;
        e, x := ParseElement(front, done);
        if e.Some? { return; }
        done := done + [x];
        var i := SkipWhiteSpace();
        if i < 0 { return Some(ParseError), v; }
        if i == 0x5d {
          pos := pos + 1;
          CloseFrame(front, ArrFrame(false, done, false));
          v := Arr(false, done);
          return None, v;
        }
        if i != 0x2c { return Some(ParseError), v; }
        pos := pos + 1;
      }
    }

    method ParseObject() returns (e: Option<JsonError>, ghost v: Value)
      requires Inside() && builder.Valid() && Ready(builder.open)
      modifies this`pos, builder
      ensures Inside()
      ensures Agrees(Json.ParseObject(old(Rest()), validateUtf8Strings), e, Rest(), v)
      ensures e == None ==> builder.Valid()
      ensures e == None ==> builder.roots == AddRoot(old(builder.roots), old(builder.open), v)
      ensures e == None ==> builder.open == AddOpen(old(builder.open), v)
      decreases |text| - pos, 3
    {
      hide ParseMembers, AddRoot, AddOpen, Ready, SkipSpace, Json.ParseObject, Builder.Valid, Builder.Shape;
      ObjectCases(Rest(), validateUtf8Strings);
      ghost var front := builder.open;
      builder.AddCompoundValue(false, false);
      v := Obj(false, []);
      var i := SkipWhiteSpace();
      if i < 0 { return Some(ParseError), v; }
      if i == 0x7d {
        pos := pos + 1;
        CloseFrame(front, ObjFrame(false, [], false, None));
        return None, v;
      }
      e, v := ParseEntries(front);
    }

    /** A key behind its quote: recorded, written, and read back from the buffer. */
    method ParseKey(ghost front: seq<Frame>, ghost done: seq<Member>) returns (e: Option<JsonError>, name: seq<Byte>)
      requires Inside() && builder.Valid() && builder.open == front + [ObjFrame(false, done, false, None)]
      modifies this`pos, builder
      ensures Inside()
      ensures Agrees(Json.ParseString(old(Rest()), validateUtf8Strings), e, Rest(), name)
      ensures e == None ==>
        builder.Valid() && builder.roots == old(builder.roots) &&
        builder.open == front + [ObjFrame(false, done, true, Some(name))]
    {
      hide SkipSpace, Json.ParseString, EncodeString, Expected, Marked, Keyed, GetString;
      name := [];
      ghost var r := Json.ParseString(Rest(), validateUtf8Strings);
      ghost var key := if r.Parsed? then r.value else [];
      EntryFrames(front, done, key);
      builder.ReportAdd();
      var lastPos := builder.pos;
      ghost var before := builder.Content();
      KeyShort(Rest(), validateUtf8Strings);
      e := ParseString();
      if e.Some? { return; }
      assert builder.start[lastPos..builder.pos] == builder.Content()[lastPos..] == EncodeString(key);
      KeyInBuffer(builder.start, builder.pos, lastPos, key);
      builder.FinishKey(key);
      name := GetString(builder.start, lastPos);
    }

    /** A key, a colon and a value. */
    method ParseEntry(ghost front: seq<Frame>, ghost done: seq<Member>)
      returns (e: Option<JsonError>, name: seq<Byte>, ghost m: Member)
      requires Inside() && Rest() != [] && builder.Valid() && Ready(front) &&
        builder.open == front + [ObjFrame(false, done, false, None)]
      modifies this`pos, builder
      ensures Inside()
      ensures Agrees(ParseMember(old(Rest()), validateUtf8Strings), e, Rest(), m)
      ensures e == None ==>
        builder.Valid() && builder.open == front + [ObjFrame(false, done + [m], false, None)] &&
        builder.roots == old(builder.roots)
      ensures e == None ==> name == m.key
      decreases |text| - pos, 0
    {
      hide AddRoot, AddOpen, Ready, SkipSpace, ParseValue, Json.ParseString, ParseMember, Builder.Valid, Builder.Shape;
      name, m := [], Member([], Null);
      MemberCases(Rest(), validateUtf8Strings);
      var i := Consume();
      if i != 0x22 { return Some(ParseError), name, m; }
      e, name := ParseKey(front, done);
      if e.Some? { return; }
      i := SkipWhiteSpace();
      if i != 0x3a { return Some(ParseError), name, m; }
      pos := pos + 1;
      EntryFrames(front, done, name);
      ghost var x;
      e, x := ParseJson();
      if e.Some? { return; }
      EntryAdded(old(builder.roots), front, done, name, x);
      m := Member(name, x);
    }

    /** The members of an object that is not empty; names are checked to be unique at the end. */
    method ParseEntries(ghost front: seq<Frame>) returns (e: Option<JsonError>, ghost v: Value)
      requires Inside() && Rest() != [] && builder.Valid() &&
        builder.open == front + [ObjFrame(false, [], false, None)] && Ready(front)
      modifies this`pos, builder
      ensures Inside()
      ensures Agrees(ParseMembers(old(Rest()), validateUtf8Strings, []), e, Rest(), v)
      ensures e == None ==> builder.Valid()
      ensures e == None ==> builder.roots == AddRoot(old(builder.roots), front, v) && builder.open == AddOpen(front, v)
      decreases |text| - pos, 2
    {
      hide AddRoot, AddOpen, Ready, SkipSpace, ParseMember, ParseMembers, Builder.Valid, Builder.Shape;
      ghost var done: seq<Member> := [];
      var names: seq<seq<Byte>> := [];
      v := Obj(false, []);
      while true
        invariant Inside() && Rest() != [] && builder.Valid() &&
          builder.open == front + [ObjFrame(false, done, false, None)]
        invariant builder.roots == old(builder.roots) && pos >= old(pos) && names == Keys(done)
        invariant ParseMembers(Rest(), validateUtf8Strings, done) == ParseMembers(old(Rest()), validateUtf8Strings, [])
        decreases |text| - pos
      {
        EntryCases(Rest(), validateUtf8Strings, done);
        ghost var m;
        var name;
        e, name, m := ParseEntry(front, done);
        if e.Some? { return; }
        assert Keys(done + [m]) == Keys(done) + [m.key];
        done, names := done + [m], names + [name];
        var i := SkipWhiteSpace();
        if i < 0 { return Some(ParseError), v; }
        if i == 0x7d {
          pos := pos + 1;
          if !Distinct(names) { return Some(DuplicateAttributeName), v; }
          CloseFrame(front, ObjFrame(false, done, false, None));
          v := Obj(false, done);
          return None, v;
        }
        if i != 0x2c { return Some(ParseError), v; }
        pos := pos + 1;
        i := SkipWhiteSpace();
        if i < 0 { return Some(ParseError), v; }
      }
    }

    /** A whole text, for a builder with nothing open: what the grammar derives is built, and unless
        a surrogate pair is split nothing else is. */
    method Parse(json: seq<Byte>) returns (e: Option<JsonError>, ghost v: Value)
      requires |json| < Limit && builder.Valid() && builder.open == []
      modifies this, builder
      ensures var r := ParseText(json, validateUtf8Strings);
        (r.Failed? ==> e == Some(r.error)) && (r.Parsed? ==> e == None && v == r.value)
      ensures forall x: Value :: JsonGrammar.Derives(json, x, validateUtf8Strings) ==> e == None && v == x
      ensures e == None ==>
        JsonGrammar.Derives(json, v, validateUtf8Strings) || JsonGrammar.SplitText(json, validateUtf8Strings)
      ensures e == None ==> builder.Valid() && builder.open == [] && builder.roots == old(builder.roots) + [v]
    {
      hide ParseValue, SkipSpace, JsonGrammar.Derives, JsonGrammar.SplitText;
      GrammarDecides(json, validateUtf8Strings);
      text, pos := json, 0;
      if |text| >= 3 && text[0] == 0xef && text[1] == 0xbb && text[2] == 0xbf {
        pos := pos + 3;
      }
      assert pos == 0 ==> Rest() == json;
      e, v := ParseJson();
      if e.Some? { return; }
      ghost var rest := Rest();
      var i := SkipWhiteSpace();
      if pos != |text| { return Some(ParseError), v; }
    }
  }

  lemma GrammarDecides(t: seq<Byte>, utf8: bool)
    ensures forall x: Value :: JsonGrammar.Derives(t, x, utf8) ==>
      ParseText(t, utf8).Parsed? && ParseText(t, utf8).value == x
    ensures var r := ParseText(t, utf8);
      r.Parsed? ==> JsonGrammar.Derives(t, r.value, utf8) || JsonGrammar.SplitText(t, utf8)
  {
    hide ParseText, JsonGrammar.Derives, JsonGrammar.SplitText;
    forall x: Value | JsonGrammar.Derives(t, x, utf8)
      ensures ParseText(t, utf8).Parsed? && ParseText(t, utf8).value == x
    {
      JsonGrammar.DerivedIsGiven(t, x, utf8);
    }
    if ParseText(t, utf8).Parsed? { JsonGrammar.GivenIsDerived(t, ParseText(t, utf8).value, utf8); }
  }

  // ---------------------------------------------------------------- the buffer of a string

  ghost predicate UnderWay(content: seq<Byte>, before: seq<Byte>, out: seq<Byte>, large: bool) {
    var header := |before| + if large then 9 else 1;
    |content| == header + |out| && content[..|before|] == before && content[header..] == out
  }

  lemma UnderWayMore(content: seq<Byte>, before: seq<Byte>, out: seq<Byte>, large: bool, more: seq<Byte>)
    requires UnderWay(content, before, out, large)
    ensures UnderWay(content + more, before, out + more, large)
  {
    var header := |before| + if large then 9 else 1;
    assert (content + more)[header..] == content[header..] + more;
  }

  lemma RunUnique(t: seq<Byte>, limit: nat, utf8: bool, n: nat)
    requires n <= limit <= |t| && (forall i :: 0 <= i < n ==> Copyable(t[i], utf8)) &&
      (n < limit ==> !Copyable(t[n], utf8))
    ensures RunLength(t, limit, utf8) == n
    decreases limit
  {
  }

  lemma RoomMade(c: seq<Byte>, before: seq<Byte>, out: seq<Byte>)
    requires UnderWay(c, before, out, false)
    ensures c[|before| + 1..] == out
  {
  }

  /** What patching the header makes of the bytes. */
  lemma HeaderPatched(c: seq<Byte>, before: seq<Byte>, out: seq<Byte>, large: bool)
    requires UnderWay(c, before, out, large) && (large <==> |out| > 126)
    ensures !large ==> Put(c, |before|, [0x40 + |out|]) == before + EncodeString(out)
    ensures large ==> Put(Put(c, |before|, [0xbf]), |before| + 1, LE(|out|, 8)) == before + EncodeString(out)
  {
    hide LE;
    if !large {
      assert c[|before| + 1..] == out;
    } else {
      assert c[|before| + 9..] == out;
      var d := Put(c, |before|, [0xbf]);
      assert d[|before| + 9..] == d[|before| + 1..][8..] == c[|before| + 1..][8..] == c[|before| + 9..];
      assert d[..|before| + 1] == before + [0xbf];
    }
  }

  lemma UnderWayLess(content: seq<Byte>, before: seq<Byte>, out: seq<Byte>, large: bool)
    requires UnderWay(content, before, out, large) && |out| >= 3
    ensures UnderWay(content[..|content| - 3], before, Dropped(out), large)
  {
    var header := |before| + if large then 9 else 1;
    assert content[..|content| - 3][header..] == content[header..][..|out| - 3];
  }

  /** What a method reports is what the specification comes to. */
  ghost predicate Outcomes(r: Outcome, e: Option<JsonError>, rest: seq<Byte>, high: nat, out: seq<Byte>) {
    && (r.Fault? ==> e == Some(r.error))
    && (r.More? ==> e == None && r.scan == Scan(rest, out, high))
    && !r.Done?
  }

  function HexPrefix(t: seq<Byte>, j: nat): int
    requires |t| >= 2 + j
  {
    if j == 0 then 0 else 16 * HexPrefix(t, j - 1) + HexValue(t[1 + j])
  }

  lemma HexPrefixIsFour(t: seq<Byte>)
    requires |t| >= 6 && forall i :: 2 <= i < 6 ==> HexValue(t[i]) >= 0
    ensures HexPrefix(t, 4) == HexFour(t)
  {
    hide HexValue;
    assert HexPrefix(t, 1) == HexValue(t[2]);
    assert HexPrefix(t, 2) == 16 * HexPrefix(t, 1) + HexValue(t[3]);
    assert HexPrefix(t, 3) == 16 * HexPrefix(t, 2) + HexValue(t[4]);
    assert HexPrefix(t, 4) == 16 * HexPrefix(t, 3) + HexValue(t[5]);
  }

  lemma LetterIsByte(c: Byte)
    ensures LetterValue(c) < 256
  {
  }

  lemma BulkIs(s: Scan, utf8: bool)
    requires Sane(s)
    ensures Sane(Bulk(s, utf8)) && |Bulk(s, utf8).out| >= |s.out| && Bulk(s, utf8).high == s.high
    ensures |s.rest| < 16 ==> Bulk(s, utf8) == s
    ensures |s.rest| >= 16 ==>
      var n := RunLength(s.rest, |s.rest| - 15, utf8); Bulk(s, utf8) == Scan(s.rest[n..], s.out + s.rest[..n], s.high)
  {
  }

  lemma ScanStep(s: Scan, utf8: bool)
    requires Sane(s)
    ensures Sane(Bulk(s, utf8))
    ensures var r := Token(Bulk(s, utf8), utf8);
      && (r.More? ==> Sane(r.scan) && ScanString(s, utf8) == ScanString(r.scan, utf8))
      && (!r.More? ==> ScanString(s, utf8) == r)
  {
    hide Token, Bulk;
    BulkIs(s, utf8);
    TokenShrinks(Bulk(s, utf8), utf8);
  }

  lemma EndOfText(s: Scan, utf8: bool)
    requires Sane(s) && s.rest == []
    ensures Token(s, utf8) == Fault(ParseError)
  {
  }

  lemma QuoteToken(s: Scan, utf8: bool)
    requires Sane(s) && s.rest != [] && s.rest[0] == 0x22
    ensures Token(s, utf8) == Done(s.out, s.rest[1..])
  {
  }

  lemma NoDigits()
    ensures DigitsValue([]) == 0
  {
  }

  /** One more digit, or none. */
  lemma FirstDigit(t: seq<Byte>, n: nat)
    requires n <= |t|
    ensures n == |t| || !IsDigit(t[n]) ==> DigitCount(t[n..]) == 0
    ensures n < |t| && IsDigit(t[n]) ==> DigitCount(t[n..]) == 1 + DigitCount(t[n + 1..])
    ensures n < |t| ==> DigitsValue(t[..n + 1]) == 10 * DigitsValue(t[..n]) + (t[n] as int - 0x30)
  {
    if n < |t| {
      assert t[n..][1..] == t[n + 1..];
      assert t[..n + 1][..n] == t[..n];
    }
  }

  /** What a method reports is what the specification comes to. */
  ghost predicate Agrees<T(!new)>(r: Parsed<T>, e: Option<JsonError>, rest: seq<Byte>, v: T) {
    && (r.Failed? ==> e == Some(r.error))
    && (r.Parsed? ==> e == None && rest == r.rest && v == r.value)
  }

  /** The two ways a number can begin and how the specification reads it. */
  lemma NumberStarts(t: seq<Byte>)
    requires t != []
    ensures var negative := t[0] == 0x2d;
      var u := if negative then t[1..] else t;
      var r := Json.ParseNumber(t);
      if u == [] || !IsDigit(u[0]) then r == Failed(ParseError)
      else
        var n := if u[0] == 0x30 then 1 else DigitCount(u);
        var v := DigitsValue(u[..n]);
        var rest := u[n..];
        if rest != [] && (rest[0] == 0x2e || rest[0] == 0x65 || rest[0] == 0x45) then r == Failed(FloatingPoint)
        else if !negative && 0 <= v < 0x1_0000_0000_0000_0000 then r == Parsed(UInt(v), rest)
        else if negative && 0 <= v <= 0x8000_0000_0000_0000 then r == Parsed(Int(0 - v), rest)
        else r == Failed(FloatingPoint)
  {
    hide DigitCount, DigitsValue;
  }

  lemma ZeroCounts(u: seq<Byte>)
    ensures u != [] && u[0] == 0x30 ==> DigitsValue(u[..1]) == 0
    ensures u != [] && IsDigit(u[0]) ==> DigitCount(u) >= 1
  {
    if u != [] { assert u[..1][..0] == []; }
  }

  lemma IntegerBytes(o: Options, v: Value)
    ensures v.Int? ==> Encode(o, v) == EncodeInt(v.num)
    ensures v.UInt? ==> Encode(o, v) == EncodeUInt(v.unum)
  {
  }

  // ---------------------------------------------------------------- words and cases

  lemma WordDiffers(t: seq<Byte>, word: seq<Byte>, j: nat)
    requires j < |word| && j <= |t| && (j < |t| ==> t[j] != word[j])
    ensures !(|word| <= |t| && t[..|word|] == word)
  {
    assert |word| <= |t| ==> t[..|word|][j] == t[j];
  }

  function ScalarResult(t: seq<Byte>, utf8: bool): Parsed<Value>
    requires t != [] && t[0] in {0x74, 0x66, 0x6e, 0x22}
  {
    if t[0] == 0x74 then Json.ParseWord(TrueText, t, Bool(true))
    else if t[0] == 0x66 then Json.ParseWord(FalseText, t, Bool(false))
    else if t[0] == 0x6e then Json.ParseWord(NullText, t, Null)
    else
      var r := Json.ParseString(t[1..], utf8);
      if r.Parsed? then Parsed(Str(r.value), r.rest) else Failed(r.error)
  }

  lemma LiteralBytes(o: Options)
    ensures Encode(o, Null) == [0x18] && Encode(o, Bool(true)) == [0x1a] && Encode(o, Bool(false)) == [0x19]
    ensures forall s :: Encode(o, Str(s)) == EncodeString(s)
  {
  }

  lemma ValueCases(t: seq<Byte>, utf8: bool)
    ensures var u := SkipSpace(t);
      ParseValue(t, utf8) ==
        if u == [] then Failed(ParseError)
        else if u[0] == 0x7b then Json.ParseObject(u[1..], utf8)
        else if u[0] == 0x5b then Json.ParseArray(u[1..], utf8)
        else if u[0] in {0x74, 0x66, 0x6e, 0x22} then ScalarResult(u, utf8)
        else Json.ParseNumber(u)
  {
    hide Json.ParseObject, Json.ParseArray, Json.ParseNumber, Json.ParseWord, Json.ParseString;
  }

  lemma ArrayCases(t: seq<Byte>, utf8: bool)
    ensures var u := SkipSpace(t);
      Json.ParseArray(t, utf8) ==
        if u == [] then Failed(ParseError)
        else if u[0] == 0x5d then Parsed(Arr(false, []), u[1..])
        else ParseElems(t, utf8, [])
    ensures ParseElems(SkipSpace(t), utf8, []) == ParseElems(t, utf8, [])
  {
    SpaceIgnored(t, utf8);
    hide ParseValue;
  }

  lemma SpaceIgnored(t: seq<Byte>, utf8: bool)
    ensures ParseValue(SkipSpace(t), utf8) == ParseValue(t, utf8)
  {
    SkipTwice(t);
    ValueCases(t, utf8);
    ValueCases(SkipSpace(t), utf8);
  }

  lemma SkipTwice(t: seq<Byte>)
    ensures SkipSpace(SkipSpace(t)) == SkipSpace(t)
  {
    if SkipSpace(t) != [] { SkipsNothing(SkipSpace(t)); }
  }

  lemma ElemCases(t: seq<Byte>, utf8: bool, done: seq<Value>)
    ensures var e := ParseValue(t, utf8);
      ParseElems(t, utf8, done) ==
        if e.Failed? then e
        else
          var u := SkipSpace(e.rest);
          if u == [] then Failed(ParseError)
          else if u[0] == 0x5d then Parsed(Arr(false, done + [e.value]), u[1..])
          else if u[0] != 0x2c then Failed(ParseError)
          else ParseElems(u[1..], utf8, done + [e.value])
  {
    hide ParseValue, SkipSpace;
  }

  lemma ObjectCases(t: seq<Byte>, utf8: bool)
    ensures var u := SkipSpace(t);
      Json.ParseObject(t, utf8) ==
        if u == [] then Failed(ParseError)
        else if u[0] == 0x7d then Parsed(Obj(false, []), u[1..])
        else ParseMembers(u, utf8, [])
  {
    hide ParseMembers, SkipSpace;
  }

  lemma MemberCases(t: seq<Byte>, utf8: bool)
    requires t != []
    ensures var k := Json.ParseString(t[1..], utf8);
      ParseMember(t, utf8) ==
        if t[0] != 0x22 then Failed(ParseError)
        else if k.Failed? then Failed(k.error)
        else
          var u := SkipSpace(k.rest);
          if u == [] || u[0] != 0x3a then Failed(ParseError)
          else
            var v := ParseValue(u[1..], utf8);
            if v.Failed? then Failed(v.error) else Parsed(Member(k.value, v.value), v.rest)
  {
    hide ParseValue, SkipSpace, Json.ParseString;
  }

  lemma EntryCases(t: seq<Byte>, utf8: bool, done: seq<Member>)
    requires t != []
    ensures var m := ParseMember(t, utf8);
      ParseMembers(t, utf8, done) ==
        if m.Failed? then Failed(m.error)
        else
          var u := SkipSpace(m.rest);
          if u == [] then Failed(ParseError)
          else if u[0] == 0x7d then
            (if Distinct(Keys(done + [m.value])) then Parsed(Obj(false, done + [m.value]), u[1..])
              else Failed(DuplicateAttributeName))
          else if u[0] != 0x2c then Failed(ParseError)
          else
            var w := SkipSpace(u[1..]);
            if w == [] then Failed(ParseError) else ParseMembers(w, utf8, done + [m.value])
  {
    hide ParseMember, SkipSpace, Distinct, Keys;
  }

  // ---------------------------------------------------------------- open compounds

  lemma FrameAround(front: seq<Frame>, f: Frame)
    ensures var open := front + [f]; open[|open| - 1] == f && open[..|open| - 1] == front
  {
  }

  lemma ElementReady(front: seq<Frame>, done: seq<Value>)
    ensures Marked(front + [ArrFrame(false, done, false)]) == front + [ArrFrame(false, done, true)]
    ensures Ready(front + [ArrFrame(false, done, true)])
  {
    FrameAround(front, ArrFrame(false, done, false));
  }

  lemma ElementAdded(roots: seq<Value>, front: seq<Frame>, done: seq<Value>, x: Value)
    ensures Ready(front + [ArrFrame(false, done, true)])
    ensures AddRoot(roots, front + [ArrFrame(false, done, true)], x) == roots
    ensures AddOpen(front + [ArrFrame(false, done, true)], x) == front + [ArrFrame(false, done + [x], false)]
  {
    FrameAround(front, ArrFrame(false, done, true));
  }

  lemma EntryFrames(front: seq<Frame>, done: seq<Member>, key: seq<Byte>)
    ensures var open := front + [ObjFrame(false, done, false, None)];
      && !open[|open| - 1].pending && Marked(open) == front + [ObjFrame(false, done, true, None)]
    ensures var open := front + [ObjFrame(false, done, true, None)];
      && open[|open| - 1] == ObjFrame(false, done, true, None)
      && Keyed(open, key) == front + [ObjFrame(false, done, true, Some(key))]
    ensures Ready(front + [ObjFrame(false, done, true, Some(key))])
  {
    FrameAround(front, ObjFrame(false, done, false, None));
    FrameAround(front, ObjFrame(false, done, true, None));
  }

  lemma EntryAdded(roots: seq<Value>, front: seq<Frame>, done: seq<Member>, key: seq<Byte>, x: Value)
    ensures Ready(front + [ObjFrame(false, done, true, Some(key))])
    ensures AddRoot(roots, front + [ObjFrame(false, done, true, Some(key))], x) == roots
    ensures AddOpen(front + [ObjFrame(false, done, true, Some(key))], x)
      == front + [ObjFrame(false, done + [Member(key, x)], false, None)]
  {
    FrameAround(front, ObjFrame(false, done, true, Some(key)));
  }

  /** A string is no longer than its text. */
  lemma {:induction false} ScanShortens(s: Scan, utf8: bool)
    requires Sane(s)
    ensures var r := ScanString(s, utf8); r.Done? ==> |r.out| + |r.rest| <= |s.out| + |s.rest|
    decreases |s.rest|
  {
    hide Token;
    var b := Bulk(s, utf8);
    BulkIs(s, utf8);
    TokenShrinks(b, utf8);
    TokenShortens(b, utf8);
    if Token(b, utf8).More? { ScanShortens(Token(b, utf8).scan, utf8); }
  }

  lemma TokenShortens(s: Scan, utf8: bool)
    requires Sane(s)
    ensures var r := Token(s, utf8); r.More? ==> |r.scan.out| + |r.scan.rest| <= |s.out| + |s.rest|
  {
    var t := s.rest;
    if t != [] && utf8 && LeadLength(t[0]) > 0 { ContinuedShortens(t[1..], s.out + [t[0]], LeadLength(t[0]) - 1); }
  }

  lemma {:induction false} ContinuedShortens(t: seq<Byte>, out: seq<Byte>, n: nat)
    ensures var r := Continued(t, out, n); r.More? ==> |r.scan.out| + |r.scan.rest| <= |out| + |t|
    decreases n
  {
    if n > 0 && t != [] { ContinuedShortens(t[1..], out + [t[0]], n - 1); }
  }

  lemma KeyShort(t: seq<Byte>, utf8: bool)
    ensures var r := Json.ParseString(t, utf8); r.Parsed? ==> |r.value| <= |t|
  {
    ScanShortens(Scan(t, [], 0), utf8);
  }

  lemma KeyInBuffer(start: seq<Byte>, pos: nat, at: nat, key: seq<Byte>)
    requires at <= pos <= |start| && start[at..pos] == EncodeString(key) && |key| < Limit
    ensures GetString(start, at) == key
  {
    hide EncodeString, GetString;
    RoundTrip.StringReads(start, at, key);
  }
}
