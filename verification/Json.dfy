/** Whole JSON texts: what the dumper prints for a value and what the parser reads. */
module Json {
  import opened Bytes
  import opened Format
  import opened Utf8
  import opened JsonText

  // ---------------------------------------------------------------- printing values

  function DigitOf(d: nat): Byte
    requires d < 10
  {
    0x30 + d
  }

  function Decimal(n: nat): (r: seq<Byte>)
    ensures r != []
  {
    if n < 10 then [DigitOf(n)] else Decimal(n / 10) + [DigitOf(n % 10)]
  }

  const NullText: seq<Byte> := [0x6e, 0x75, 0x6c, 0x6c]
  const TrueText: seq<Byte> := [0x74, 0x72, 0x75, 0x65]
  const FalseText: seq<Byte> := [0x66, 0x61, 0x6c, 0x73, 0x65]

  function Indent(depth: nat): seq<Byte> {
    seq<Byte>(2 * depth, i => 0x20)
  }

  function Quoted(o: DumpOptions, s: seq<Byte>): seq<Byte> {
    [0x22] + Escape(o, s) + [0x22]
  }

  function Colon(o: DumpOptions): seq<Byte> {
    if o.prettyPrint then [0x20, 0x3a, 0x20] else [0x3a]
  }

  /** One member of a compound, with what pretty printing puts around it. */
  function Framed(o: DumpOptions, depth: nat, part: seq<Byte>, last: bool): seq<Byte> {
    var comma: seq<Byte> := if last then [] else [0x2c];
    if o.prettyPrint then Indent(depth + 1) + part + comma + [0x0a] else part + comma
  }

  function Bracketed(o: DumpOptions, depth: nat, begin: Byte, body: seq<Byte>, end: Byte): seq<Byte> {
    if o.prettyPrint then [begin] + [0x0a] + body + Indent(depth) + [end] else [begin] + body + [end]
  }

  /** What `dumpValue` appends for a value whose strings are whole. */
  function Print(o: DumpOptions, v: Value, depth: nat): (r: seq<Byte>)
    decreases v, 1
  {
    match v
    case Null => NullText
    case Bool(f) => if f then TrueText else FalseText
    case Double(bits) => o.doubleText(bits)
    case Int(i) => if i < 0 then [0x2d] + Decimal(-(i as int)) else Decimal(i)
    case UInt(u) => Decimal(u)
    case Str(s) => Quoted(o, s)
    case Arr(_, elems) => Bracketed(o, depth, 0x5b, PrintElems(o, elems, depth), 0x5d)
    case Obj(_, members) => Bracketed(o, depth, 0x7b, PrintMembers(o, members, depth), 0x7d)
  }

  function PrintElems(o: DumpOptions, vs: seq<Value>, depth: nat): seq<Byte>
    decreases vs, 0
  {
    if vs == [] then []
    else Framed(o, depth, Print(o, vs[0], depth + 1), |vs| == 1) + PrintElems(o, vs[1..], depth)
  }

  function PrintMember(o: DumpOptions, m: Member, depth: nat): seq<Byte>
    decreases m, 2
  {
    Quoted(o, m.key) + Colon(o) + Print(o, m.value, depth + 1)
  }

  function PrintMembers(o: DumpOptions, ms: seq<Member>, depth: nat): seq<Byte>
    decreases ms, 0
  {
    if ms == [] then []
    else Framed(o, depth, PrintMember(o, ms[0], depth), |ms| == 1) + PrintMembers(o, ms[1..], depth)
  }

  // ---------------------------------------------------------------- reading values

  datatype Parsed<+T> = Parsed(value: T, rest: seq<Byte>) | Failed(error: JsonError)

  predicate IsSpace(c: Byte) {
    c == 0x20 || c == 0x09 || c == 0x0a || c == 0x0d
  }

  function SkipSpace(t: seq<Byte>): (r: seq<Byte>)
    ensures |r| <= |t| && (r == [] || !IsSpace(r[0]))
  {
    if t == [] || !IsSpace(t[0]) then t else SkipSpace(t[1..])
  }

  predicate IsDigit(c: Byte) {
    0x30 <= c <= 0x39
  }

  /** How many digits the text begins with. */
  function DigitCount(t: seq<Byte>): (n: nat)
    ensures n <= |t|
  {
    if t == [] || !IsDigit(t[0]) then 0 else 1 + DigitCount(t[1..])
  }

  function DigitsValue(ds: seq<Byte>): int {
    if ds == [] then 0 else 10 * DigitsValue(ds[..|ds| - 1]) + (ds[|ds| - 1] as int - 0x30)
  }

  /** Integers of 64 bits, signed or unsigned; anything else is a floating-point number. */
  function ParseNumber(t: seq<Byte>): (r: Parsed<Value>)
    requires t != []
    ensures r.Parsed? ==> |r.rest| < |t|
  {
    var negative := t[0] == 0x2d;
    var u := if negative then t[1..] else t;
    if u == [] || !IsDigit(u[0]) then Failed(ParseError)
    else
      var n := if u[0] == 0x30 then 1 else DigitCount(u);
      var v := DigitsValue(u[..n]);
      var rest := u[n..];
      if rest != [] && (rest[0] == 0x2e || rest[0] == 0x65 || rest[0] == 0x45) then Failed(FloatingPoint)
      else if !negative && 0 <= v < 0x1_0000_0000_0000_0000 then Parsed(UInt(v), rest)
      else if negative && 0 <= v <= 0x8000_0000_0000_0000 then Parsed(Int(-v), rest)
      else Failed(FloatingPoint)
  }

  function ParseWord(word: seq<Byte>, t: seq<Byte>, v: Value): (r: Parsed<Value>)
    requires |word| >= 1
    ensures r.Parsed? ==> |r.rest| < |t|
  {
    if |word| <= |t| && t[..|word|] == word then Parsed(v, t[|word|..]) else Failed(ParseError)
  }

  function ParseString(t: seq<Byte>, utf8: bool): (r: Parsed<seq<Byte>>)
    ensures r.Parsed? ==> |r.rest| < |t|
  {
    var r := ScanString(Scan(t, [], 0), utf8);
    if r.Done? then Parsed(r.out, r.rest) else Failed(r.error)
  }

  function ParseValue(t: seq<Byte>, utf8: bool): (r: Parsed<Value>)
    ensures r.Parsed? ==> |r.rest| < |t|
    decreases |t|, 0
  {
    var u := SkipSpace(t);
    if u == [] then Failed(ParseError)
    else if u[0] == 0x7b then ParseObject(u[1..], utf8)
    else if u[0] == 0x5b then ParseArray(u[1..], utf8)
    else if u[0] == 0x74 then ParseWord(TrueText, u, Bool(true))
    else if u[0] == 0x66 then ParseWord(FalseText, u, Bool(false))
    else if u[0] == 0x6e then ParseWord(NullText, u, Null)
    else if u[0] == 0x22 then
      var s := ParseString(u[1..], utf8);
      if s.Parsed? then Parsed(Str(s.value), s.rest) else Failed(s.error)
    else ParseNumber(u)
  }

  function ParseArray(t: seq<Byte>, utf8: bool): (r: Parsed<Value>)
    ensures r.Parsed? ==> |r.rest| < |t|
    decreases |t|, 2
  {
    var u := SkipSpace(t);
    if u == [] then Failed(ParseError)
    else if u[0] == 0x5d then Parsed(Arr(false, []), u[1..])
    else ParseElems(t, utf8, [])
  }

  /** Elements from here to the closing bracket, behind the elements `done`. */
  function ParseElems(t: seq<Byte>, utf8: bool, done: seq<Value>): (r: Parsed<Value>)
    ensures r.Parsed? ==> |r.rest| < |t|
    decreases |t|, 1
  {
    var e := ParseValue(t, utf8);
    if e.Failed? then e
    else
      var u := SkipSpace(e.rest);
      if u == [] then Failed(ParseError)
      else if u[0] == 0x5d then Parsed(Arr(false, done + [e.value]), u[1..])
      else if u[0] != 0x2c then Failed(ParseError)
      else ParseElems(u[1..], utf8, done + [e.value])
  }

  function ParseObject(t: seq<Byte>, utf8: bool): (r: Parsed<Value>)
    ensures r.Parsed? ==> |r.rest| < |t|
    decreases |t|, 2
  {
    var u := SkipSpace(t);
    if u == [] then Failed(ParseError)
    else if u[0] == 0x7d then Parsed(Obj(false, []), u[1..])
    else ParseMembers(u, utf8, [])
  }

  /** One key, colon and value. */
  function ParseMember(t: seq<Byte>, utf8: bool): (r: Parsed<Member>)
    requires t != []
    ensures r.Parsed? ==> |r.rest| < |t|
    decreases |t|, 0
  {
    if t[0] != 0x22 then Failed(ParseError)
    else
      var k := ParseString(t[1..], utf8);
      if k.Failed? then Failed(k.error)
      else
        var u := SkipSpace(k.rest);
        if u == [] || u[0] != 0x3a then Failed(ParseError)
        else
          var v := ParseValue(u[1..], utf8);
          if v.Failed? then Failed(v.error) else Parsed(Member(k.value, v.value), v.rest)
  }

  function ParseMembers(t: seq<Byte>, utf8: bool, done: seq<Member>): (r: Parsed<Value>)
    requires t != []
    ensures r.Parsed? ==> |r.rest| < |t|
    decreases |t|, 1
  {
    var m := ParseMember(t, utf8);
    if m.Failed? then Failed(m.error)
    else
      var u := SkipSpace(m.rest);
      if u == [] then Failed(ParseError)
      else if u[0] == 0x7d then
        (if Distinct(Keys(done + [m.value])) then Parsed(Obj(false, done + [m.value]), u[1..])
          else Failed(DuplicateAttributeName))
      else if u[0] != 0x2c then Failed(ParseError)
      else
        var w := SkipSpace(u[1..]);
        if w == [] then Failed(ParseError) else ParseMembers(w, utf8, done + [m.value])
  }

  /** A whole text: an optional byte order mark, one value, white space. */
  function ParseText(t: seq<Byte>, utf8: bool): Parsed<Value> {
    var u := if |t| >= 3 && t[0] == 0xef && t[1] == 0xbb && t[2] == 0xbf then t[3..] else t;
    var r := ParseValue(u, utf8);
    if r.Parsed? && SkipSpace(r.rest) != [] then Failed(ParseError) else r
  }

  // ---------------------------------------------------------------- round trip

  /** The value read back: the same, but non-negative integers come back unsigned and the
      builder is not asked for compact layouts. */
  function Normal(v: Value): Value
    decreases v, 1
  {
    match v
    case Int(i) => if i >= 0 then UInt(i) else v
    case Arr(_, elems) => Arr(false, Normals(elems))
    case Obj(_, members) => Obj(false, NormalMembers(members))
    case _ => v
  }

  function Normals(vs: seq<Value>): (r: seq<Value>)
    ensures |r| == |vs|
    decreases vs, 0
  {
    seq(|vs|, i requires 0 <= i < |vs| => Normal(vs[i]))
  }

  function NormalMembers(ms: seq<Member>): (r: seq<Member>)
    ensures |r| == |ms| && Keys(r) == Keys(ms)
    decreases ms, 0
  {
    seq(|ms|, i requires 0 <= i < |ms| => Member(ms[i].key, Normal(ms[i].value)))
  }

  /** Values JSON can express exactly: no doubles, strings in UTF-8, unique keys. */
  ghost predicate Printable(v: Value)
    decreases v
  {
    match v
    case Double(_) => false
    case Str(s) => WellFormed(s)
    case Arr(_, elems) => forall i :: 0 <= i < |elems| ==> Printable(elems[i])
    case Obj(_, members) =>
      && Distinct(Keys(members))
      && forall i :: 0 <= i < |members| ==> WellFormed(members[i].key) && Printable(members[i].value)
    case _ => true
  }

  predicate NumberEnds(t: seq<Byte>) {
    t == [] || !(IsDigit(t[0]) || t[0] == 0x2e || t[0] == 0x65 || t[0] == 0x45)
  }

  predicate Spaces(t: seq<Byte>) {
    forall i :: 0 <= i < |t| ==> IsSpace(t[i])
  }

  lemma {:induction false} SkipSpaces(w: seq<Byte>, t: seq<Byte>)
    requires Spaces(w)
    ensures SkipSpace(w + t) == SkipSpace(t)
  {
    if w == [] {
      assert w + t == t;
    } else {
      assert (w + t)[1..] == w[1..] + t;
      SkipSpaces(w[1..], t);
    }
  }

  lemma {:induction false} DecimalReads(n: nat)
    ensures DigitsValue(Decimal(n)) == n && (forall i :: 0 <= i < |Decimal(n)| ==> IsDigit(Decimal(n)[i]))
    ensures Decimal(n)[0] == 0x30 <==> n == 0
  {
    if n >= 10 {
      DecimalReads(n / 10);
      assert (Decimal(n / 10) + [DigitOf(n % 10)])[..|Decimal(n)| - 1] == Decimal(n / 10);
    } else {
      assert [DigitOf(n)][..0] == [];
    }
  }

  lemma {:induction false} DigitsCounted(ds: seq<Byte>, t: seq<Byte>)
    requires (forall i :: 0 <= i < |ds| ==> IsDigit(ds[i])) && (t == [] || !IsDigit(t[0]))
    ensures DigitCount(ds + t) == |ds|
  {
    if ds == [] {
      assert ds + t == t;
    } else {
      assert (ds + t)[1..] == ds[1..] + t;
      DigitsCounted(ds[1..], t);
    }
  }

  /** A number written in decimal reads back, with or without a sign. */
  lemma NumberReads(n: nat, tail: seq<Byte>)
    requires n < 0x1_0000_0000_0000_0000 && NumberEnds(tail)
    ensures ParseNumber(Decimal(n) + tail) == Parsed(UInt(n), tail)
    ensures n <= 0x8000_0000_0000_0000 ==> ParseNumber([0x2d] + Decimal(n) + tail) == Parsed(Int(0 - n), tail)
  {
    hide Decimal, DigitsValue, DigitCount;
    DecimalReads(n);
    var u := Decimal(n) + tail;
    DigitsCounted(Decimal(n), tail);
    assert u[0] == Decimal(n)[0];
    var k := if u[0] == 0x30 then 1 else DigitCount(u);
    assert k == |Decimal(n)| by { if n == 0 { ZeroText(); } }
    assert u[..k] == Decimal(n) && u[k..] == tail;
    assert ([0x2d] + Decimal(n) + tail)[1..] == u;
  }

  lemma ZeroText()
    ensures Decimal(0) == [0x30]
  {
  }

  /** What no value's text begins with. */
  predicate Starts(t: seq<Byte>) {
    t != [] && !IsSpace(t[0]) && t[0] != 0x5d && t[0] != 0x7d
  }

  lemma PrintStarts(o: DumpOptions, v: Value, depth: nat)
    requires !v.Double?
    ensures Starts(Print(o, v, depth))
  {
    hide PrintElems, PrintMembers, Escape, Indent;
    match v
    case Int(i) => if i < 0 { DecimalReads(-(i as int)); } else { DecimalReads(i); }
    case UInt(u) => DecimalReads(u);
    case _ =>
  }

  lemma SkipsNothing(t: seq<Byte>)
    requires t != [] && !IsSpace(t[0])
    ensures SkipSpace(t) == t
  {
  }

  lemma WordReads(word: seq<Byte>, tail: seq<Byte>, v: Value)
    requires |word| >= 1
    ensures ParseWord(word, word + tail, v) == Parsed(v, tail)
  {
    assert (word + tail)[..|word|] == word && (word + tail)[|word|..] == tail;
  }

  lemma StringReads(o: DumpOptions, s: seq<Byte>, tail: seq<Byte>, utf8: bool)
    requires WellFormed(s)
    ensures (Quoted(o, s) + tail)[0] == 0x22 && ParseString((Quoted(o, s) + tail)[1..], utf8) == Parsed(s, tail)
  {
    hide Escape, ScanString, WellFormed;
    StringRoundTrip(o, s, tail, utf8);
    assert (Quoted(o, s) + tail)[1..] == Escape(o, s) + [0x22] + tail;
  }

  lemma ScalarReads(o: DumpOptions, v: Value, depth: nat, w: seq<Byte>, tail: seq<Byte>, utf8: bool)
    requires Printable(v) && !v.Arr? && !v.Obj? && NumberEnds(tail) && Spaces(w)
    ensures ParseValue(w + (Print(o, v, depth) + tail), utf8) == Parsed(Normal(v), tail)
  {
    hide ParseNumber, ParseString, ParseWord, WellFormed, Decimal, ParseArray, ParseObject, Quoted;
    PrintStarts(o, v, depth);
    var t := Print(o, v, depth) + tail;
    SkipSpaces(w, t);
    SkipsNothing(t);
    match v
    case Null => WordReads(NullText, tail, v);
    case Bool(f) => WordReads(if f then TrueText else FalseText, tail, v);
    case Int(i) =>
      if i < 0 {
        NumberReads(-(i as int), tail);
      } else {
        NumberReads(i, tail);
        DecimalReads(i);
      }
    case UInt(u) =>
      NumberReads(u, tail);
      DecimalReads(u);
    case Str(s) => StringReads(o, s, tail, utf8);
  }

  /** Parsing what was printed, behind any white space, gives the value back. */
  lemma {:induction false} ValueReads(o: DumpOptions, v: Value, depth: nat, w: seq<Byte>, tail: seq<Byte>, utf8: bool)
    requires Printable(v) && NumberEnds(tail) && Spaces(w)
    ensures ParseValue(w + (Print(o, v, depth) + tail), utf8) == Parsed(Normal(v), tail)
    decreases v, 2
  {
    hide ParseArray, ParseObject, ParseNumber, PrintElems, PrintMembers, Decimal, ParseString, WellFormed, ParseWord;
    match v
    case Arr(_, elems) =>
      CompoundOpens(o, v, depth, w, tail, utf8);
      ArrayReads(o, elems, depth, tail, utf8);
    case Obj(_, members) =>
      CompoundOpens(o, v, depth, w, tail, utf8);
      ObjectReads(o, members, depth, tail, utf8);
    case _ =>
      ScalarReads(o, v, depth, w, tail, utf8);
  }

  function LineBreak(o: DumpOptions): seq<Byte> {
    if o.prettyPrint then [0x0a] else []
  }

  /** What stands behind the members: indentation and the closing bracket. */
  function Closing(o: DumpOptions, depth: nat, end: Byte): seq<Byte> {
    (if o.prettyPrint then Indent(depth) else []) + [end]
  }

  lemma CompoundOpens(o: DumpOptions, v: Value, depth: nat, w: seq<Byte>, tail: seq<Byte>, utf8: bool)
    requires (v.Arr? || v.Obj?) && Spaces(w)
    ensures ParseValue(w + (Print(o, v, depth) + tail), utf8) ==
              if v.Arr? then ParseArray(LineBreak(o)
                  + (PrintElems(o, v.elems, depth) + (Closing(o, depth, 0x5d) + tail)), utf8)
              else ParseObject(LineBreak(o) + (PrintMembers(o, v.members, depth) + (Closing(o, depth, 0x7d) + tail)),
                  utf8)
  {
    hide ParseArray, ParseObject, PrintElems, PrintMembers, ParseNumber, ParseString, ParseWord, Indent, Closing,
      LineBreak;
    var begin: Byte, end: Byte := if v.Arr? then 0x5b else 0x7b, if v.Arr? then 0x5d else 0x7d;
    var body := if v.Arr? then PrintElems(o, v.elems, depth) else PrintMembers(o, v.members, depth);
    var t := Print(o, v, depth) + tail;
    BracketedBehind(o, depth, begin, body, end, tail);
    assert Print(o, v, depth) == Bracketed(o, depth, begin, body, end);
    hide Print, Bracketed;
    SkipSpaces(w, t);
    SkipsNothing(t);
  }

  lemma BracketedBehind(o: DumpOptions, depth: nat, begin: Byte, body: seq<Byte>, end: Byte, tail: seq<Byte>)
    ensures var t := Bracketed(o, depth, begin, body, end) + tail;
      t != [] && t[0] == begin && t[1..] == LineBreak(o) + (body + (Closing(o, depth, end) + tail))
  {
    hide Indent;
    var t := Bracketed(o, depth, begin, body, end) + tail;
    assert t[1..] == LineBreak(o) + (body + (Closing(o, depth, end) + tail));
  }

  lemma LayoutIsSpace(o: DumpOptions, depth: nat)
    ensures Spaces(Indent(depth)) && Spaces(LineBreak(o)) && Spaces(LineBreak(o) + Indent(depth))
  {
  }

  /** Behind the last member only white space and the closing bracket follow. */
  lemma ClosingReads(o: DumpOptions, depth: nat, end: Byte, tail: seq<Byte>)
    requires !IsSpace(end)
    ensures SkipSpace(LineBreak(o) + (Closing(o, depth, end) + tail)) == [end] + tail
    ensures !IsDigit(end) && end != 0x2e && end != 0x65 && end != 0x45 ==>
      NumberEnds(LineBreak(o) + (Closing(o, depth, end) + tail))
  {
    hide Indent;
    LayoutIsSpace(o, depth);
    var w := if o.prettyPrint then [0x0a] + Indent(depth) else [];
    assert LineBreak(o) + (Closing(o, depth, end) + tail) == w + ([end] + tail);
    SkipSpaces(w, [end] + tail);
    SkipsNothing([end] + tail);
  }

  lemma {:induction false} ArrayReads(o: DumpOptions, elems: seq<Value>, depth: nat, tail: seq<Byte>, utf8: bool)
    requires forall i :: 0 <= i < |elems| ==> Printable(elems[i])
    ensures ParseArray(LineBreak(o) + (PrintElems(o, elems, depth) + (Closing(o, depth, 0x5d) + tail)), utf8)
         == Parsed(Arr(false, Normals(elems)), tail)
    decreases elems, 1
  {
    hide Indent, Closing, ParseElems, Print;
    var body := PrintElems(o, elems, depth) + (Closing(o, depth, 0x5d) + tail);
    if elems == [] {
      ClosingReads(o, depth, 0x5d, tail);
      assert body == Closing(o, depth, 0x5d) + tail;
      assert ([0x5d] + tail)[1..] == tail;
    } else {
      ElemsStart(o, elems, depth, Closing(o, depth, 0x5d) + tail);
      LayoutIsSpace(o, depth);
      SkipSpaces(LineBreak(o), body);
      ElemsRead(o, elems, depth, LineBreak(o), tail, utf8, []);
      assert [] + Normals(elems) == Normals(elems);
    }
  }

  /** The first thing behind white space is not a closing bracket. */
  lemma ElemsStart(o: DumpOptions, elems: seq<Value>, depth: nat, rest: seq<Byte>)
    requires elems != [] && !elems[0].Double?
    ensures Starts(SkipSpace(PrintElems(o, elems, depth) + rest))
  {
    hide Print;
    PrintStarts(o, elems[0], depth + 1);
    FramedStarts(o, depth, Print(o, elems[0], depth + 1), |elems| == 1, PrintElems(o, elems[1..], depth) + rest);
    assert PrintElems(o, elems, depth) + rest
        == Framed(o, depth, Print(o, elems[0], depth + 1), |elems| == 1) + (PrintElems(o, elems[1..], depth) + rest);
  }

  lemma FramedStarts(o: DumpOptions, depth: nat, part: seq<Byte>, last: bool, rest: seq<Byte>)
    requires Starts(part)
    ensures Starts(SkipSpace(Framed(o, depth, part, last) + rest))
  {
    hide Indent;
    LayoutIsSpace(o, depth + 1);
    var comma: seq<Byte> := if last then [] else [0x2c];
    var more := part + (comma + (LineBreak(o) + rest));
    var w := if o.prettyPrint then Indent(depth + 1) else [];
    assert Framed(o, depth, part, last) + rest == w + more;
    SkipSpaces(w, more);
    SkipsNothing(more);
  }

  lemma {:induction false} ElemsRead(o: DumpOptions, elems: seq<Value>, depth: nat, w: seq<Byte>, tail: seq<Byte>,
      utf8: bool, done: seq<Value>)
    requires elems != [] && (forall i :: 0 <= i < |elems| ==> Printable(elems[i])) && Spaces(w)
    ensures ParseElems(w + (PrintElems(o, elems, depth) + (Closing(o, depth, 0x5d) + tail)), utf8, done)
         == Parsed(Arr(false, done + Normals(elems)), tail)
    decreases elems, 0
  {
    hide Indent, Closing, Print, ParseValue, LineBreak, Framed;
    LayoutIsSpace(o, depth + 1);
    var end := Closing(o, depth, 0x5d) + tail;
    var part := Print(o, elems[0], depth + 1);
    var lead := Lead(o, depth, w);
    LeadIsSpace(o, depth, w);
    ClosingReads(o, depth, 0x5d, tail);
    if |elems| == 1 {
      LastFramed(o, depth, w, part, end);
      LastElem(o, elems, depth, end);
      ValueReads(o, elems[0], depth + 1, lead, LineBreak(o) + end, utf8);
      assert done + Normals(elems) == done + [Normal(elems[0])];
      assert ([0x5d] + tail)[1..] == tail;
    } else {
      var more := LineBreak(o) + (PrintElems(o, elems[1..], depth) + end);
      NextFramed(o, depth, w, part, PrintElems(o, elems[1..], depth), end);
      CommaNext(more);
      ValueReads(o, elems[0], depth + 1, lead, [0x2c] + more, utf8);
      ElemsRead(o, elems[1..], depth, LineBreak(o), tail, utf8, done + [Normal(elems[0])]);
      assert done + Normals(elems) == done + [Normal(elems[0])] + Normals(elems[1..]);
    }
  }

  lemma LastElem(o: DumpOptions, elems: seq<Value>, depth: nat, end: seq<Byte>)
    requires |elems| == 1
    ensures PrintElems(o, elems, depth) == Framed(o, depth, Print(o, elems[0], depth + 1), true)
  {
    assert elems[1..] == [];
  }

  function Lead(o: DumpOptions, depth: nat, w: seq<Byte>): seq<Byte> {
    if o.prettyPrint then w + Indent(depth + 1) else w
  }

  lemma LeadIsSpace(o: DumpOptions, depth: nat, w: seq<Byte>)
    requires Spaces(w)
    ensures Spaces(Lead(o, depth, w))
  {
  }

  lemma LastFramed(o: DumpOptions, depth: nat, w: seq<Byte>, part: seq<Byte>, end: seq<Byte>)
    ensures w + (Framed(o, depth, part, true) + end) == Lead(o, depth, w) + (part + (LineBreak(o) + end))
  {
    hide Indent;
  }

  lemma NextFramed(o: DumpOptions, depth: nat, w: seq<Byte>, part: seq<Byte>, others: seq<Byte>, end: seq<Byte>)
    ensures w + (Framed(o, depth, part, false) + others + end)
      == Lead(o, depth, w) + (part + ([0x2c] + (LineBreak(o) + (others + end))))
  {
    hide Indent;
  }

  lemma CommaNext(more: seq<Byte>)
    ensures var t := [0x2c] + more; SkipSpace(t) == t && t[1..] == more && NumberEnds(t)
  {
    SkipsNothing([0x2c] + more);
  }

  lemma {:induction false} ObjectReads(o: DumpOptions, members: seq<Member>, depth: nat, tail: seq<Byte>, utf8: bool)
    requires Printable(Obj(false, members))
    ensures ParseObject(LineBreak(o) + (PrintMembers(o, members, depth) + (Closing(o, depth, 0x7d) + tail)), utf8)
         == Parsed(Obj(false, NormalMembers(members)), tail)
    decreases members, 1
  {
    hide Indent, Closing, ParseMembers, PrintMember, WellFormed;
    var body := PrintMembers(o, members, depth) + (Closing(o, depth, 0x7d) + tail);
    LayoutIsSpace(o, depth);
    SkipSpaces(LineBreak(o), body);
    if members == [] {
      ClosingReads(o, depth, 0x7d, tail);
      assert body == Closing(o, depth, 0x7d) + tail;
      assert ([0x7d] + tail)[1..] == tail;
    } else {
      assert [] + members == members;
      MembersRead(o, members, depth, LineBreak(o), tail, utf8, []);
      assert [] + NormalMembers(members) == NormalMembers(members);
    }
  }

  /** One member: key, colon and value. */
  lemma {:induction false} MemberReads(o: DumpOptions, m: Member, depth: nat, tail: seq<Byte>, utf8: bool)
    requires WellFormed(m.key) && Printable(m.value) && NumberEnds(tail)
    ensures var t := PrintMember(o, m, depth) + tail;
      t != [] && t[0] == 0x22 && ParseMember(t, utf8) == Parsed(Member(m.key, Normal(m.value)), tail)
    decreases m, 0
  {
    hide Print, ParseValue, ParseString, Quoted, WellFormed;
    var behind := Print(o, m.value, depth + 1) + tail;
    var space: seq<Byte> := if o.prettyPrint then [0x20] else [];
    StringReads(o, m.key, Colon(o) + behind, utf8);
    assert PrintMember(o, m, depth) + tail == Quoted(o, m.key) + (Colon(o) + behind);
    assert Colon(o) + behind == space + ([0x3a] + (space + behind));
    SkipSpaces(space, [0x3a] + (space + behind));
    SkipsNothing([0x3a] + (space + behind));
    assert ([0x3a] + (space + behind))[1..] == space + behind;
    ValueReads(o, m.value, depth + 1, space, tail, utf8);
  }

  lemma {:induction false} MembersRead(o: DumpOptions, members: seq<Member>, depth: nat, w: seq<Byte>, tail: seq<Byte>,
      utf8: bool, done: seq<Member>)
    requires members != [] && Spaces(w) && Distinct(Keys(done + members))
    requires forall i :: 0 <= i < |members| ==> WellFormed(members[i].key) && Printable(members[i].value)
    ensures var t := SkipSpace(w + (PrintMembers(o, members, depth) + (Closing(o, depth, 0x7d) + tail)));
      Starts(t) && ParseMembers(t, utf8, done) == Parsed(Obj(false, done + NormalMembers(members)), tail)
    decreases members, 0
  {
    hide Indent, Closing, PrintMember, ParseMember, WellFormed, Distinct, LineBreak, Framed, Keys;
    LayoutIsSpace(o, depth + 1);
    var end := Closing(o, depth, 0x7d) + tail;
    var part := PrintMember(o, members[0], depth);
    var lead := Lead(o, depth, w);
    var first := Member(members[0].key, Normal(members[0].value));
    LeadIsSpace(o, depth, w);
    ClosingReads(o, depth, 0x7d, tail);
    KeysKept(done, members);
    if |members| == 1 {
      LastFramed(o, depth, w, part, end);
      LastMember(o, members, depth);
      MemberReads(o, members[0], depth, LineBreak(o) + end, utf8);
      PartNext(lead, part + (LineBreak(o) + end));
      assert done + NormalMembers(members) == done + [first];
      assert done + [first] + members[1..] == done + [first];
      assert ([0x7d] + tail)[1..] == tail;
    } else {
      var more := LineBreak(o) + (PrintMembers(o, members[1..], depth) + end);
      NextFramed(o, depth, w, part, PrintMembers(o, members[1..], depth), end);
      CommaNext(more);
      MemberReads(o, members[0], depth, [0x2c] + more, utf8);
      PartNext(lead, part + ([0x2c] + more));
      MembersRead(o, members[1..], depth, LineBreak(o), tail, utf8, done + [first]);
      assert done + NormalMembers(members) == done + [first] + NormalMembers(members[1..]);
    }
  }

  lemma PartNext(lead: seq<Byte>, t: seq<Byte>)
    requires Spaces(lead) && t != [] && t[0] == 0x22
    ensures SkipSpace(lead + t) == t
  {
    SkipSpaces(lead, t);
    SkipsNothing(t);
  }

  lemma LastMember(o: DumpOptions, members: seq<Member>, depth: nat)
    requires |members| == 1
    ensures PrintMembers(o, members, depth) == Framed(o, depth, PrintMember(o, members[0], depth), true)
  {
    assert members[1..] == [];
  }

  lemma KeysKept(done: seq<Member>, members: seq<Member>)
    requires members != []
    ensures var first := Member(members[0].key, Normal(members[0].value));
      Keys(done + [first] + members[1..]) == Keys(done + members)
  {
    hide Normal;
  }

  /** Main theorem on texts: for every printable value and every option, parsing what the
      dumper prints gives the value back. */
  lemma DumpParses(o: DumpOptions, v: Value, utf8: bool)
    requires Printable(v)
    ensures ParseText(Print(o, v, 0), utf8) == Parsed(Normal(v), [])
  {
    hide Print, ParseValue;
    var t := Print(o, v, 0);
    assert [] + (t + []) == t;
    ValueReads(o, v, 0, [], [], utf8);
    NoMark(o, v);
  }

  /** A printed value never looks like a byte order mark. */
  lemma NoMark(o: DumpOptions, v: Value)
    requires !v.Double?
    ensures Print(o, v, 0) != [] && Print(o, v, 0)[0] < 0x80
  {
    hide PrintElems, PrintMembers, Escape, Indent;
    match v
    case Int(i) => if i < 0 { DecimalReads(-(i as int)); } else { DecimalReads(i); }
    case UInt(u) => DecimalReads(u);
    case _ =>
  }
}
