/** Printing a value as JSON and parsing it again, through dumper, parser, builder and slice. */
module JsonRoundTrip {
  import opened Bytes
  import opened Format
  import opened Layout
  import opened Slice
  import opened RoundTrip
  import opened JsonText
  import opened Json
  import Builder
  import Dumper
  import Parser
  import Runs
  import Utf8
  import opened Wrappers

  /** A value read back with non-negative integers unsigned reads back as the value itself. */
  lemma {:induction false} NormalReads(b: seq<Byte>, p: nat, v: Value)
    requires Reads(b, p, Normal(v))
    ensures Reads(b, p, v)
    decreases v, 1
  {
    hide NthOffset, MemberCount, Get, ReadLE, ByteSize;
    match v
    case Int(i) => SignDoesNotMatter(b, p, i);
    case Arr(_, elems) => NormalElementsRead(b, p, v);
    case Obj(_, members) => NormalMembersRead(b, p, v);
    case _ =>
  }

  lemma {:induction false} NormalElementsRead(b: seq<Byte>, p: nat, v: Value)
    requires v.Arr? && Reads(b, p, Normal(v))
    ensures Reads(b, p, v)
    decreases v, 0
  {
    hide NthOffset, MemberCount, Get, GetInt, GetUInt, ReadLE, ByteSize;
    forall i | 0 <= i < |v.elems| ensures NthOffset(b, p, i).Ok? && Reads(b, p + NthOffset(b, p, i).value, v.elems[i]) {
      assert Normals(v.elems)[i] == Normal(v.elems[i]);
      NormalReads(b, p + NthOffset(b, p, i).value, v.elems[i]);
    }
  }

  lemma {:induction false} NormalMembersRead(b: seq<Byte>, p: nat, v: Value)
    requires v.Obj? && Reads(b, p, Normal(v))
    ensures Reads(b, p, v)
    decreases v, 0
  {
    hide NthOffset, MemberCount, Get, GetInt, GetUInt, ReadLE, ByteSize;
    forall i | 0 <= i < |v.members|
      ensures Get(b, p, v.members[i].key).Ok? && Get(b, p, v.members[i].key).value.Some?
      ensures Reads(b, p + Get(b, p, v.members[i].key).value.value, v.members[i].value)
    {
      assert NormalMembers(v.members)[i] == Member(v.members[i].key, Normal(v.members[i].value));
      NormalReads(b, p + Get(b, p, v.members[i].key).value.value, v.members[i].value);
    }
  }

  lemma SignDoesNotMatter(b: seq<Byte>, p: nat, i: Int64)
    requires (i >= 0 && GetUInt(b, p) == Ok(i)) || GetInt(b, p) == Ok(i)
    ensures GetInt(b, p) == Ok(i)
  {
    hide ReadLE;
  }

  lemma {:induction false} NormalUnique(v: Value)
    requires Printable(v)
    ensures UniqueKeys(Normal(v))
    decreases v
  {
    match v
    case Arr(_, elems) =>
      forall i | 0 <= i < |elems| ensures UniqueKeys(Normals(elems)[i]) { NormalUnique(elems[i]); }
    case Obj(_, members) =>
      forall i | 0 <= i < |members| ensures UniqueKeys(NormalMembers(members)[i].value) {
        NormalUnique(members[i].value);
      }
    case _ =>
  }

  lemma {:induction false} PrintableIsComplete(v: Value)
    requires Printable(v)
    ensures Dumper.Complete(v)
    decreases v
  {
    hide Utf8.WellFormed;
    match v
    case Str(s) => WholeString(s);
    case Arr(_, elems) =>
      forall i | 0 <= i < |elems| ensures Dumper.Complete(elems[i]) { PrintableIsComplete(elems[i]); }
    case Obj(_, members) =>
      forall i | 0 <= i < |members| ensures Whole(members[i].key) && Dumper.Complete(members[i].value) {
        WholeString(members[i].key);
        PrintableIsComplete(members[i].value);
      }
    case _ =>
  }

  lemma WholeString(s: seq<Byte>)
    requires Utf8.WellFormed(s)
    ensures Whole(s)
  {
    EscapeReads(DumpOptions(false, false, false, bits => []), s, [], [], true);
  }

  /** What the builder holds after parsing what the dumper printed reads back as the value,
      with or without pretty printing, slash escaping, unicode escaping and UTF-8 checks. */
  method DumpAndParse(v: Value, dumper: Dumper.Dumper, parser: Parser.Parser)
    requires Printable(v) && dumper.sink == [] && dumper.indentation == 0
    requires parser.builder.Valid() && parser.builder.roots == [] && parser.builder.open == []
    requires |Print(dumper.options, v, 0)| < Limit && |Encode(parser.builder.options, Normal(v))| < Limit
    modifies dumper, parser, parser.builder
    ensures parser.builder.Valid() && parser.builder.roots == [Normal(v)]
    ensures Roomy(parser.builder.options, Normal(v)) ==> Reads(parser.builder.Content(), 0, v)
  {
    hide Print, Encode, Reads, ParseText, Normal, Printable, Builder.Builder.Valid, ByteSize, Roomy;
    PrintableIsComplete(v);
    var ok := dumper.DumpValue(v);
    DumpParses(dumper.options, v, parser.validateUtf8Strings);
    ghost var o := parser.builder.options;
    assert dumper.sink == Print(dumper.options, v, 0);
    var e, x := parser.Parse(dumper.sink);
    assert e == None;
    NormalUnique(v);
    Holds(parser.builder, Normal(v));
    if Roomy(o, Normal(v)) {
      EncodingReadsBack(Encode(o, Normal(v)), 0, o, Normal(v));
      NormalReads(Encode(o, Normal(v)), 0, v);
    }
  }

  lemma Holds(b: Builder.Builder, v: Value)
    requires b.Valid() && b.roots == [v] && b.open == []
    ensures b.Content() == Encode(b.options, v) && Has(Encode(b.options, v), 0, Encode(b.options, v))
  {
    hide Encode;
    Runs.SingleRoot(b.options, v);
  }
}
