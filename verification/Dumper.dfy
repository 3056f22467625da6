/** The JSON printer: appends to a sink, with a running indentation. */
module Dumper {
  import opened Bytes
  import opened Format
  import opened JsonText
  import opened Json

  /** Every string of the value ends with a whole sequence, so printing does not throw. */
  ghost predicate Complete(v: Value)
    decreases v
  {
    match v
    case Str(s) => Whole(s)
    case Arr(_, elems) => forall i :: 0 <= i < |elems| ==> Complete(elems[i])
    case Obj(_, members) => forall i :: 0 <= i < |members| ==> Whole(members[i].key) && Complete(members[i].value)
    case _ => true
  }

  lemma {:induction false} DigitStep(v: nat, k: nat)
    requires k > 0
    ensures Pow10(k) == 10 * Pow10(k - 1)
    ensures v >= Pow10(k) ==>
      Decimal(v / Pow10(k)) == (if v >= 10 * Pow10(k) then Decimal(v / (10 * Pow10(k))) else [])
          + [DigitOf(v / Pow10(k) % 10)]
  {
    hide Pow10;
    assert Pow10(k) == 10 * Pow10(k - 1) by { TenTimes(k); }
    var p := Pow10(k);
    if v >= p {
      DivTwice(v, p);
      hide Decimal;
      DecimalStep(v / p);
    }
  }

  lemma DecimalStep(n: nat)
    ensures Decimal(n) == (if n >= 10 then Decimal(n / 10) else []) + [DigitOf(n % 10)]
  {
  }

  lemma DivTwice(v: nat, p: nat)
    requires p > 0
    ensures v / p / 10 == v / (10 * p) && (v >= 10 * p <==> v / p >= 10) && (v >= p <==> v / p >= 1)
  {
    var q := v / p;
    var r := q / 10;
    Multiples(v, p, q);
    assert r * 10 <= q < r * 10 + 10;
    assert r * (10 * p) == r * 10 * p;
    MulLe(r * 10, q, p);
    MulLe(q + 1, r * 10 + 10, p);
    assert (r * 10 + 10) * p == r * (10 * p) + 10 * p;
    Quotients(v, 10 * p, r);
    if 10 <= q { MulLe(10, q, p); }
    if 1 <= q { MulLe(1, q, p); }
    if q < 10 { MulLe(q + 1, 10, p); }
  }

  lemma Multiples(v: nat, p: nat, q: nat)
    requires p > 0 && q == v / p
    ensures q * p <= v < (q + 1) * p
  {
  }

  lemma Quotients(v: nat, d: nat, r: nat)
    requires d > 0 && r * d <= v < r * d + d
    ensures v / d == r
  {
    var q := v / d;
    Multiples(v, d, q);
    if q < r { MulLe(q + 1, r, d); }
    assert (r + 1) * d == r * d + d;
    if q > r { MulLe(r + 1, q, d); }
  }

  lemma Powers()
    ensures Pow10(18) == 1_000_000_000_000_000_000 && Pow10(19) == 10_000_000_000_000_000_000
  {
    assert Pow10(6) == 1_000_000;
    assert Pow10(12) == 1_000_000 * Pow10(6);
    assert Pow10(18) == 1_000_000 * Pow10(12);
  }

  lemma SmallestText(n: nat)
    requires n == 0x8000_0000_0000_0000
    ensures [0x2d] + Decimal(n)
         == [0x2d, 0x39, 0x32, 0x32, 0x33, 0x33, 0x37, 0x32, 0x30, 0x33, 0x36, 0x38, 0x35, 0x34, 0x37, 0x37, 0x35,
             0x38, 0x30, 0x38]
  {
    hide Decimal;
    var k3, k2, k1, k0 := n / 1_0000, n / 1_0000_0000, n / 1_0000_0000_0000, n / 1_0000_0000_0000_0000;
    FirstDigits(k0);
    FourMore(k0, 3, 3, 7, 2);
    FourMore(k1, 0, 3, 6, 8);
    FourMore(k2, 5, 4, 7, 7);
    FourMore(k3, 5, 8, 0, 8);
  }

  lemma FirstDigits(k: nat)
    requires k == 922
    ensures Decimal(k) == [0x39, 0x32, 0x32]
  {
    assert Decimal(k / 10) == [0x39, 0x32];
  }

  lemma FourMore(n: nat, a: nat, b: nat, c: nat, d: nat)
    requires n > 0 && a < 10 && b < 10 && c < 10 && d < 10
    ensures Decimal(10000 * n + 1000 * a + 100 * b + 10 * c + d)
      == Decimal(n) + [DigitOf(a), DigitOf(b), DigitOf(c), DigitOf(d)]
  {
    hide Decimal;
    OneMore(n, a);
    OneMore(10 * n + a, b);
    OneMore(100 * n + 10 * a + b, c);
    OneMore(1000 * n + 100 * a + 10 * b + c, d);
  }

  lemma OneMore(n: nat, a: nat)
    requires n > 0 && a < 10
    ensures Decimal(10 * n + a) == Decimal(n) + [DigitOf(a)]
  {
  }

  lemma CodePointFits(s: seq<Byte>)
    requires s != [] && 2 <= LeadLength(s[0]) <= |s|
    ensures LeadLength(s[0]) < 4 ==> CodePoint(s) < 0x1_0000
  {
  }

  lemma NothingToEscape(o: DumpOptions)
    ensures Escape(o, []) == [] && Whole([])
  {
  }

  /** One character of a string. */
  lemma EscapeStep(o: DumpOptions, s: seq<Byte>)
    requires s != []
    ensures var n := LeadLength(s[0]);
      && (Whole(s) <==> n <= |s| && Whole(s[if n == 0 then 1 else n..]))
      && Escape(o, s) ==
         if n > |s| then []
         else if n == 1 then EscapeAscii(o, s[0]) + Escape(o, s[1..])
         else if n == 0 then Escape(o, s[1..])
         else EscapeMulti(o, s) + Escape(o, s[n..])
  {
    hide EscapeAscii, EscapeMulti;
  }

  lemma ScalarComplete(v: Value)
    ensures !v.Str? && !v.Arr? && !v.Obj? ==> Complete(v)
    ensures v.Str? ==> (Complete(v) <==> Whole(v.text))
  {
    hide Whole;
  }

  /** Without pretty printing the depth does not matter. */
  lemma {:induction false} PrintFlat(o: DumpOptions, v: Value, d: nat, e: nat)
    requires !o.prettyPrint
    ensures Print(o, v, d) == Print(o, v, e)
    decreases v, 1
  {
    hide Quoted, Decimal;
    match v
    case Arr(_, elems) => FlatElems(o, elems, d, e);
    case Obj(_, members) => FlatMembers(o, members, d, e);
    case _ =>
  }

  lemma {:induction false} FlatElems(o: DumpOptions, vs: seq<Value>, d: nat, e: nat)
    requires !o.prettyPrint
    ensures PrintElems(o, vs, d) == PrintElems(o, vs, e)
    decreases vs, 0
  {
    hide Print;
    if vs != [] {
      PrintFlat(o, vs[0], d + 1, e + 1);
      FlatElems(o, vs[1..], d, e);
    }
  }

  lemma {:induction false} FlatMembers(o: DumpOptions, ms: seq<Member>, d: nat, e: nat)
    requires !o.prettyPrint
    ensures PrintMembers(o, ms, d) == PrintMembers(o, ms, e)
    decreases ms, 0
  {
    hide Print, Quoted;
    if ms != [] {
      PrintFlat(o, ms[0].value, d + 1, e + 1);
      FlatMembers(o, ms[1..], d, e);
    }
  }

  /** What is in the sink between two members, apart from the members themselves. */
  function Separator(o: DumpOptions, i: nat, n: nat): seq<Byte> {
    if !o.prettyPrint && 0 < i < n then [0x2c] else []
  }

  /** A member appended: text so far and text to come stay in step. */
  lemma MemberAppended(o: DumpOptions, depth: nat, sink: seq<Byte>, part: seq<Byte>, i: nat, n: nat)
    requires i < n
    ensures var comma: seq<Byte> := if i == n - 1 then [] else [0x2c];
      sink + Separator(o, i, n) + Framed(o, depth, part, i == n - 1) ==
        (if o.prettyPrint then sink + Indent(depth + 1) + part + (comma + [0x0a])
         else sink + (if i != 0 then [0x2c] else []) + part) + Separator(o, i + 1, n)
  {
    hide Indent;
  }

  lemma ElemsStep(o: DumpOptions, vs: seq<Value>, i: nat, depth: nat)
    requires i < |vs|
    ensures PrintElems(o, vs[i..], depth)
      == Framed(o, depth, Print(o, vs[i], depth + 1), i == |vs| - 1) + PrintElems(o, vs[i + 1..], depth)
  {
    hide Framed, Print;
    assert vs[i..][1..] == vs[i + 1..];
  }

  lemma MembersStep(o: DumpOptions, ms: seq<Member>, i: nat, depth: nat)
    requires i < |ms|
    ensures PrintMembers(o, ms[i..], depth)
      == Framed(o, depth, PrintMember(o, ms[i], depth), i == |ms| - 1) + PrintMembers(o, ms[i + 1..], depth)
  {
    hide Framed, PrintMember;
    assert ms[i..][1..] == ms[i + 1..];
  }

  /** Regrouping: what was appended moves from the text to come to the text so far. */
  lemma Moved(total: seq<Byte>, sink: seq<Byte>, sep: seq<Byte>, framed: seq<Byte>, others: seq<Byte>,
      sink1: seq<Byte>, sep1: seq<Byte>)
    requires total == sink + sep + (framed + others) && sink1 + sep1 == sink + sep + framed
    ensures total == sink1 + sep1 + others
  {
  }

  class Dumper {
    const options: DumpOptions
    var sink: seq<Byte>
    var indentation: nat

    constructor (options: DumpOptions)
      ensures this.options == options && sink == [] && indentation == 0
    {
      this.options := options;
      sink, indentation := [], 0;
    }

    method Append(t: seq<Byte>)
      modifies this`sink
      ensures sink == old(sink) + t
    {
      sink := sink + t;
    }

    /** The digits of `v`, each compared with its power of ten; `top` is the largest power used. */
    method AppendDigits(v: nat, top: nat)
      requires v < 10 * Pow10(top)
      modifies this`sink
      ensures sink == old(sink) + Decimal(v)
    {
      var k := top;
      while k > 0
        invariant 0 <= k <= top
        invariant v < 10 * Pow10(k) ==> sink == old(sink)
        invariant v >= 10 * Pow10(k) ==> sink == old(sink) + Decimal(v / (10 * Pow10(k)))
      {
        DigitStep(v, k);
        if Pow10(k) <= v {
          sink := sink + [DigitOf(v / Pow10(k) % 10)];
        }
        k := k - 1;
      }
      sink := sink + [DigitOf(v % 10)];
    }

    method AppendUInt(v: UInt64)
      modifies this`sink
      ensures sink == old(sink) + Decimal(v)
    {
      assert v < 10 * Pow10(19) by { Powers(); }
      AppendDigits(v, 19);
    }

    method DumpInteger(v: Value)
      requires v.Int? || v.UInt?
      modifies this`sink
      ensures sink == old(sink) + Print(options, v, 0)
    {
      Powers();
      hide Decimal, Pow10;
      if v.UInt? {
        AppendUInt(v.unum);
        return;
      }
      var n: int := v.num;
      if n == -0x8000_0000_0000_0000 {
        SmallestText(0 - n);
        Append([0x2d, 0x39, 0x32, 0x32, 0x33, 0x33, 0x37, 0x32, 0x30, 0x33, 0x36, 0x38, 0x35, 0x34, 0x37, 0x37, 0x35,
            0x38, 0x30, 0x38]);
        return;
      }
      ghost var before := sink;
      if n < 0 {
        Append([0x2d]);
        n := -n;
      }
      AppendDigits(n, 18);
      assert sink == before + Print(options, v, 0);
    }

    method DumpUnicodeCharacter(v: nat)
      requires v < 0x1_0000
      modifies this`sink
      ensures sink == old(sink) + UnicodeText(v)
    {
      Append([0x5c, 0x75]);
      Append([Hex(v / 0x1000)]);
      Append([Hex(v / 0x100 % 16)]);
      Append([Hex(v / 16 % 16)]);
      Append([Hex(v % 16)]);
    }

    method Indentation()
      modifies this`sink
      ensures sink == old(sink) + Indent(indentation)
    {
      var i := 0;
      while i < indentation
        invariant i <= indentation && sink == old(sink) + Indent(i)
      {
        assert Indent(i + 1) == Indent(i) + [0x20, 0x20];
        Append([0x20, 0x20]);
        i := i + 1;
      }
    }

    method DumpMulti(s: seq<Byte>)
      requires s != [] && 2 <= LeadLength(s[0]) <= |s|
      modifies this`sink
      ensures sink == old(sink) + EscapeMulti(options, s)
    {
      hide UnicodeText, CodePoint;
      CodePointFits(s);
      var n := LeadLength(s[0]);
      if !options.escapeUnicode {
        Append(s[..n]);
      } else if n == 4 {
        var v := (CodePoint(s) - 0x1_0000) % 0x1_0000_0000;
        DumpUnicodeCharacter(v / 0x400 % 0x400 + 0xd800);
        DumpUnicodeCharacter(v % 0x400 + 0xdc00);
      } else {
        DumpUnicodeCharacter(CodePoint(s));
      }
    }

    method DumpString(s: seq<Byte>) returns (ok: bool)
      modifies this`sink
      ensures ok <==> Whole(s)
      ensures sink == old(sink) + Escape(options, s)
    {
      hide EscapeAscii, EscapeMulti, Escape, Whole;
      NothingToEscape(options);
      var p := 0;
      assert s[0..] == s;
      while p < |s|
        invariant 0 <= p <= |s|
        invariant Whole(s) <==> Whole(s[p..])
        invariant old(sink) + Escape(options, s) == sink + Escape(options, s[p..])
        decreases |s| - p
      {
        EscapeStep(options, s[p..]);
        var n := LeadLength(s[p]);
        assert n <= |s| - p && n > 0 ==> s[p..][n..] == s[p + n..];
        assert s[p..][1..] == s[p + 1..];
        if n > |s| - p {
          assert !Whole(s[p..]) && Escape(options, s[p..]) == [] && sink + [] == sink;
          return false;
        }
        if n == 1 {
          Append(EscapeAscii(options, s[p]));
          p := p + 1;
        } else if n == 0 {
          p := p + 1;
        } else {
          DumpMulti(s[p..]);
          p := p + n;
        }
      }
      assert s[p..] == [] && sink + [] == sink;
      ok := true;
    }

    method DumpQuoted(s: seq<Byte>) returns (ok: bool)
      modifies this`sink
      ensures ok <==> Whole(s)
      ensures old(sink) <= sink && (ok ==> sink == old(sink) + Quoted(options, s))
    {
      hide Escape;
      Append([0x22]);
      ok := DumpString(s);
      if ok { Append([0x22]); }
    }

    method DumpValue(v: Value) returns (ok: bool)
      modifies this
      ensures ok <==> Complete(v)
      ensures old(sink) <= sink
      ensures ok ==> sink == old(sink) + Print(options, v, old(indentation)) && indentation == old(indentation)
      decreases v, 1
    {
      hide Escape, Quoted, Decimal, Complete;
      ScalarComplete(v);
      ok := true;
      match v
      case Null => Append(NullText);
      case Bool(f) => Append(if f then TrueText else FalseText);
      case Double(bits) => Append(options.doubleText(bits));
      case Int(_) => { DumpInteger(v); }
      case UInt(_) => { DumpInteger(v); }
      case Str(s) => { ok := DumpQuoted(s); }
      case Arr(_, elems) => { ok := DumpArray(v); }
      case Obj(_, members) => { ok := DumpObject(v); }
    }

    /** What stands in front of a member, and behind it. */
    method Before(i: nat)
      modifies this`sink
      ensures sink == old(sink) + if options.prettyPrint then Indent(indentation) else if i != 0 then [0x2c] else []
    {
      if options.prettyPrint {
        Indentation();
      } else if i != 0 {
        Append([0x2c]);
      }
    }

    method Behind(i: nat, n: nat)
      requires i < n
      modifies this`sink
      ensures sink == old(sink) + if !options.prettyPrint then [] else (if i == n - 1 then [] else [0x2c]) + [0x0a]
    {
      if options.prettyPrint {
        if i != n - 1 { Append([0x2c]); }
        Append([0x0a]);
      }
    }

    method Begin(begin: Byte)
      modifies this
      ensures sink == old(sink) + if options.prettyPrint then [begin] + [0x0a] else [begin]
      ensures indentation == old(indentation) + if options.prettyPrint then 1 else 0
    {
      Append([begin]);
      if options.prettyPrint {
        Append([0x0a]);
        indentation := indentation + 1;
      }
    }

    method End(end: Byte)
      requires options.prettyPrint ==> indentation > 0
      modifies this
      ensures indentation == old(indentation) - if options.prettyPrint then 1 else 0
      ensures sink == old(sink) + (if options.prettyPrint then Indent(indentation) else []) + [end]
    {
      if options.prettyPrint {
        indentation := indentation - 1;
        Indentation();
      }
      Append([end]);
    }

    /** Element `i` of `n`, with what stands in front of it and behind it. */
    method DumpElem(v: Value, i: nat, n: nat, ghost depth: nat) returns (ok: bool)
      requires i < n && indentation == depth + if options.prettyPrint then 1 else 0
      modifies this
      ensures ok <==> Complete(v)
      ensures old(sink) <= sink
      ensures ok ==> indentation == old(indentation)
      ensures ok ==>
        sink + Separator(options, i + 1, n)
          == old(sink) + Separator(options, i, n) + Framed(options, depth, Print(options, v, depth + 1), i == n - 1)
      decreases v, 2
    {
      hide Print, Framed, Indent, Separator, Complete;
      if !options.prettyPrint { PrintFlat(options, v, depth, depth + 1); }
      MemberAppended(options, depth, sink, Print(options, v, depth + 1), i, n);
      Before(i);
      ok := DumpValue(v);
      if !ok { return; }
      Behind(i, n);
    }

    method DumpArray(v: Value) returns (ok: bool)
      requires v.Arr?
      modifies this
      ensures ok <==> Complete(v)
      ensures old(sink) <= sink
      ensures ok ==> sink == old(sink) + Print(options, v, old(indentation)) && indentation == old(indentation)
      decreases v, 0
    {
      hide Print, Framed, Indent, Separator;
      ghost var depth := indentation;
      Begin(0x5b);
      ghost var begun := sink;
      var i := 0;
      assert v.elems[0..] == v.elems;
      SeparatorEnds(options, |v.elems|);
      while i < |v.elems|
        invariant 0 <= i <= |v.elems| && begun <= sink
        invariant indentation == depth + if options.prettyPrint then 1 else 0
        invariant forall k :: 0 <= k < i ==> Complete(v.elems[k])
        invariant begun + PrintElems(options, v.elems, depth)
               == sink + Separator(options, i, |v.elems|) + PrintElems(options, v.elems[i..], depth)
      {
        ghost var top := sink;
        ElemsStep(options, v.elems, i, depth);
        ok := DumpElem(v.elems[i], i, |v.elems|, depth);
        if !ok { return; }
        Moved(begun + PrintElems(options, v.elems, depth), top, Separator(options, i, |v.elems|),
              Framed(options, depth, Print(options, v.elems[i], depth + 1), i == |v.elems| - 1),
                  PrintElems(options, v.elems[i + 1..], depth),
              sink, Separator(options, i + 1, |v.elems|));
        i := i + 1;
      }
      assert PrintElems(options, v.elems[i..], depth) == [];
      Assembled(options, depth, old(sink), v);
      End(0x5d);
      ok := true;
    }

    method DumpObject(v: Value) returns (ok: bool)
      requires v.Obj?
      modifies this
      ensures ok <==> Complete(v)
      ensures old(sink) <= sink
      ensures ok ==> sink == old(sink) + Print(options, v, old(indentation)) && indentation == old(indentation)
      decreases v, 0
    {
      hide Print, Framed, Indent, Separator, PrintMember;
      ghost var depth := indentation;
      Begin(0x7b);
      ghost var begun := sink;
      var i := 0;
      assert v.members[0..] == v.members;
      SeparatorEnds(options, |v.members|);
      while i < |v.members|
        invariant 0 <= i <= |v.members| && begun <= sink
        invariant indentation == depth + if options.prettyPrint then 1 else 0
        invariant forall k :: 0 <= k < i ==> Whole(v.members[k].key) && Complete(v.members[k].value)
        invariant begun + PrintMembers(options, v.members, depth)
               == sink + Separator(options, i, |v.members|) + PrintMembers(options, v.members[i..], depth)
      {
        ghost var top := sink;
        MembersStep(options, v.members, i, depth);
        ok := DumpEntry(v.members[i], i, |v.members|, depth);
        if !ok { return; }
        Moved(begun + PrintMembers(options, v.members, depth), top, Separator(options, i, |v.members|),
              Framed(options, depth, PrintMember(options, v.members[i], depth), i == |v.members| - 1),
                  PrintMembers(options, v.members[i + 1..], depth),
              sink, Separator(options, i + 1, |v.members|));
        i := i + 1;
      }
      assert PrintMembers(options, v.members[i..], depth) == [];
      Assembled(options, depth, old(sink), v);
      End(0x7d);
      ok := true;
    }

    /** Member `i` of `n`, with what stands in front of it and behind it. */
    method DumpEntry(m: Member, i: nat, n: nat, ghost depth: nat) returns (ok: bool)
      requires i < n && indentation == depth + if options.prettyPrint then 1 else 0
      modifies this
      ensures ok <==> Whole(m.key) && Complete(m.value)
      ensures old(sink) <= sink
      ensures ok ==> indentation == old(indentation)
      ensures ok ==>
        sink + Separator(options, i + 1, n)
          == old(sink) + Separator(options, i, n) + Framed(options, depth, PrintMember(options, m, depth), i == n - 1)
      decreases m, 1
    {
      hide PrintMember, Framed, Indent, Separator, Complete, Whole;
      MemberAppended(options, depth, sink, PrintMember(options, m, depth), i, n);
      Before(i);
      ok := DumpMember(m, depth);
      if !ok { return; }
      Behind(i, n);
    }

    method DumpMember(m: Member, ghost depth: nat) returns (ok: bool)
      requires indentation == depth + if options.prettyPrint then 1 else 0
      modifies this
      ensures ok <==> Whole(m.key) && Complete(m.value)
      ensures old(sink) <= sink
      ensures ok ==> sink == old(sink) + PrintMember(options, m, depth) && indentation == old(indentation)
      decreases m, 0
    {
      hide Print, Quoted, Whole;
      if !options.prettyPrint { PrintFlat(options, m.value, depth, depth + 1); }
      ok := DumpQuoted(m.key);
      if !ok { return; }
      Append(Colon(options));
      ok := DumpValue(m.value);
    }
  }

  /** The parts appended make up the text of the compound. */
  lemma Assembled(o: DumpOptions, depth: nat, before: seq<Byte>, v: Value)
    requires v.Arr? || v.Obj?
    ensures var begin: seq<Byte>, end: seq<Byte> := [if v.Arr? then 0x5b else 0x7b], [if v.Arr? then 0x5d else 0x7d];
      before + Print(o, v, depth) ==
        before + (if o.prettyPrint then begin + [0x0a] else begin)
        + (if v.Arr? then PrintElems(o, v.elems, depth) else PrintMembers(o, v.members, depth))
        + ((if o.prettyPrint then Indent(depth) else []) + end)
  {
    CompoundPrint(o, v, depth);
    hide Indent, PrintElems, PrintMembers, Print;
  }

  lemma SeparatorEnds(o: DumpOptions, n: nat)
    ensures Separator(o, 0, n) == [] && Separator(o, n, n) == []
  {
  }

  lemma CompoundPrint(o: DumpOptions, v: Value, depth: nat)
    requires v.Arr? || v.Obj?
    ensures Print(o, v, depth) ==
      (if o.prettyPrint then [if v.Arr? then 0x5b else 0x7b] + [0x0a] else [if v.Arr? then 0x5b else 0x7b])
      + (if v.Arr? then PrintElems(o, v.elems, depth) else PrintMembers(o, v.members, depth))
      + (if o.prettyPrint then Indent(depth) else []) + [if v.Arr? then 0x5d else 0x7d]
  {
    hide Indent, PrintElems, PrintMembers;
  }
}
