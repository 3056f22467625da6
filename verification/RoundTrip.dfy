/** What the encoding of a value reads back as, for every value and every layout. */
module RoundTrip {
  import opened Bytes
  import opened Format
  import opened Layout
  import opened Slice
  import opened Sorting
  import opened Wrappers

  /** Wherever `m` stands in `b` there is a slice of exactly its size, not a None byte. */
  ghost predicate Sized(b: seq<Byte>, m: seq<Byte>) {
    forall q: nat :: Has(b, q, m) ==> ByteSize(b, q) == |m| && At(b, q) != 0
  }

  ghost predicate Parts(b: seq<Byte>, ms: seq<seq<Byte>>) {
    && ms != []
    && (forall i :: 0 <= i < |ms| ==> |ms[i]| >= 1)
    && (forall i :: 0 <= i < |ms| ==> Sized(b, ms[i]))
  }

  /** Non-empty parts whose first byte cannot be taken for padding. */
  ghost predicate Solid(b: seq<Byte>, ms: seq<seq<Byte>>) {
    && ms != []
    && (forall i :: 0 <= i < |ms| ==> |ms[i]| >= 1)
    && (forall q: nat :: Has(b, q, ms[0]) ==> At(b, q) != 0)
  }

  lemma PartsAreSolid(b: seq<Byte>, ms: seq<seq<Byte>>)
    requires Parts(b, ms)
    ensures Solid(b, ms)
  {
    assert Sized(b, ms[0]);
  }

  // ---------------------------------------------------------------- scalars

  lemma SignedOfLE(b: seq<Byte>, p: nat, v: int, w: nat)
    requires Has(b, p, LE(v, w)) && -Pow256(w) <= 2 * v < Pow256(w)
    ensures Signed(ReadLE(b, p, w), w) == v
  {
    ReadLEOfLE(b, p, v, w);
  }

  lemma IntReads(b: seq<Byte>, p: nat, v: Int64)
    requires Has(b, p, EncodeInt(v))
    ensures GetInt(b, p) == Ok(v) && ByteSize(b, p) == |EncodeInt(v)| && At(b, p) != 0
    ensures GetUInt(b, p) == if v < 0 then Err(NumberOutOfRange) else Ok(v)
  {
    hide ReadLE, LE, Pow256, Signed, IntWidth, ByteOf;
    var w := IntWidth(v);
    HasBytes(b, p, EncodeInt(v));
    assert At(b, p + 0) == EncodeInt(v)[0];
    if !(-6 <= v <= 9) {
      assert w <= 8 by { Pow256Values(); IntWidthLeast(v, 8); }
      IntWidthFits(v);
      HasConcat(b, p, [0x1f + w], LE(v, w));
      SignedOfLE(b, p + 1, v, w);
    }
  }

  lemma UIntRead(b: seq<Byte>, p: nat, v: UInt64, w: nat)
    requires 1 <= w <= 8 && At(b, p) == 0x27 + w && ReadLE(b, p + 1, w) == v
    ensures GetUInt(b, p) == Ok(v) && ByteSize(b, p) == 1 + w
    ensures GetInt(b, p) == if v >= 0x8000_0000_0000_0000 then Err(NumberOutOfRange) else Ok(v)
  {
    hide ReadLE;
  }

  lemma UIntReads(b: seq<Byte>, p: nat, v: UInt64)
    requires Has(b, p, EncodeUInt(v))
    ensures GetUInt(b, p) == Ok(v) && ByteSize(b, p) == |EncodeUInt(v)| && At(b, p) != 0
    ensures GetInt(b, p) == if v >= 0x8000_0000_0000_0000 then Err(NumberOutOfRange) else Ok(v)
  {
    hide ReadLE, LE, Pow256, UIntWidth, ByteOf;
    var w := UIntWidth(v);
    HasBytes(b, p, EncodeUInt(v));
    assert At(b, p + 0) == EncodeUInt(v)[0];
    if v > 9 {
      hide GetInt, GetUInt, ByteSize;
      assert w <= 8 by { Pow256Values(); UIntWidthLeast(v, 8); }
      UIntWidthFits(v);
      HasConcat(b, p, [0x27 + w], LE(v, w));
      ReadLEOfLE(b, p + 1, v, w);
      UIntRead(b, p, v, w);
    }
  }

  lemma StringReads(b: seq<Byte>, p: nat, s: seq<Byte>)
    requires Has(b, p, EncodeString(s)) && |s| < Limit
    ensures TypeOf(At(b, p)) == TString && GetString(b, p) == s && StringLength(b, p) == |s|
    ensures FullSize(b, p) == |EncodeString(s)| && At(b, p) != 0
  {
    HasBytes(b, p, EncodeString(s));
    assert At(b, p + 0) == EncodeString(s)[0];
    if |s| <= 126 {
      HasConcat(b, p, [0x40 + |s|], s);
      ReadOfHas(b, p + 1, s);
    } else {
      HasConcat(b, p, [0xbf] + LE(|s|, 8), s);
      HasConcat(b, p, [0xbf], LE(|s|, 8));
      Pow256Values();
      ReadLEOfLE(b, p + 1, |s|, 8);
      ReadOfHas(b, p + 9, s);
    }
  }

  // ---------------------------------------------------------------- the shortest forms

  /** No slice of a signed type that reads as `v` is shorter than the one the builder writes. */
  lemma ShortestInt(b: seq<Byte>, p: nat, v: Int64)
    requires TypeOf(At(b, p)) in {TInt, TSmallInt} && GetInt(b, p) == Ok(v)
    ensures |EncodeInt(v)| <= ByteSize(b, p)
  {
    hide ReadLE, IntWidth, Pow256, Signed;
    if TypeOf(At(b, p)) == TInt && !(-6 <= v <= 9) {
      var w: nat := At(b, p) as int - 0x1f;
      NumberBound(Read(b, p + 1, w));
      assert ReadLE(b, p + 1, w) == Number(Read(b, p + 1, w)) by { ReadIs(b, p + 1, w); }
      SignedRange(ReadLE(b, p + 1, w), w);
      IntWidthLeast(v, w);
    }
  }

  lemma ReadIs(b: seq<Byte>, p: int, w: nat)
    ensures ReadLE(b, p, w) == Number(Read(b, p, w))
  {
  }

  lemma SignedRange(x: nat, w: nat)
    requires x < Pow256(w)
    ensures -Pow256(w) <= 2 * Signed(x, w) < Pow256(w)
  {
    hide Pow256;
  }

  /** None of any type that reads as the unsigned `v`. */
  lemma ShortestUInt(b: seq<Byte>, p: nat, v: UInt64)
    requires GetUInt(b, p) == Ok(v)
    ensures |EncodeUInt(v)| <= ByteSize(b, p)
  {
    hide ReadLE, UIntWidth, Pow256, Signed;
    if v > 9 {
      var w: nat := if TypeOf(At(b, p)) == TInt then At(b, p) as int - 0x1f else At(b, p) as int - 0x27;
      NumberBound(Read(b, p + 1, w));
      assert ReadLE(b, p + 1, w) == Number(Read(b, p + 1, w)) by { ReadIs(b, p + 1, w); }
      SignedRange(ReadLE(b, p + 1, w), w);
      UIntWidthLeast(v, w);
    }
  }

  /** And no string with these bytes. */
  lemma ShortestString(b: seq<Byte>, p: nat, s: seq<Byte>)
    requires TypeOf(At(b, p)) == TString && GetString(b, p) == s
    ensures |EncodeString(s)| <= FullSize(b, p)
  {
  }

  // ---------------------------------------------------------------- shapes

  /** The chosen width is always wide enough, and the header always fits before the data. */
  lemma WidthSuffices(o: Options, ms: seq<seq<Byte>>, table: bool, offs: seq<nat>)
    requires ms != [] && forall i :: 0 <= i < |ms| ==> |ms[i]| >= 1
    requires |offs| == |ms| && forall i :: 0 <= i < |ms| ==> offs[i] <= |Flatten(ms)|
    requires var w := Width(o, |Flatten(ms)|, |ms|, table);
             IndexedLength(DataStart(o, w, table), w, |Flatten(ms)|, table, |ms|) < Limit
    requires table ==> Room(o, |Flatten(ms)|, |ms|)
    ensures var w := Width(o, |Flatten(ms)|, |ms|, table);
            IndexedShape(w, DataStart(o, w, table), |Flatten(ms)|, table, |ms|, offs)
  {
    Pow256Values();
    FlattenLength(ms);
    StartAtLeast(ms, |ms|);
  }

  lemma StartsInBody(ms: seq<seq<Byte>>)
    ensures forall i :: 0 <= i < |ms| ==> Starts(ms)[i] <= |Flatten(ms)|
  {
    FlattenLength(ms);
    forall i | 0 <= i < |ms| ensures Starts(ms)[i] <= |Flatten(ms)| {
      StartMonotone(ms, i, |ms|);
    }
  }

  lemma PartAt(b: seq<Byte>, p: nat, ms: seq<seq<Byte>>, i: nat)
    requires i < |ms| && Has(b, p, Flatten(ms))
    ensures Has(b, p + Start(ms, i), ms[i])
  {
    FlattenHas(ms, i);
    HasSlice(b, p, Flatten(ms), Start(ms, i), ms[i]);
  }

  // ---------------------------------------------------------------- walking

  lemma {:induction false} WalkSnoc(b: seq<Byte>, p: nat, off: nat, pairs: bool, k: nat)
    ensures Walk(b, p, off, pairs, k + 1) == Next(b, p, Walk(b, p, off, pairs, k), pairs)
    decreases k
  {
    if k > 0 { WalkSnoc(b, p, Next(b, p, off, pairs), pairs, k - 1); }
  }

  /** Each member ends where the next begins. */
  predicate InLine(b: seq<Byte>, p: nat, data: nat, pairs: bool, ms: seq<seq<Byte>>) {
    forall i :: 0 <= i < |ms| ==> Next(b, p, data + Start(ms, i), pairs) == data + Start(ms, i) + |ms[i]|
  }

  lemma NextInLine(b: seq<Byte>, p: nat, data: nat, pairs: bool, ms: seq<seq<Byte>>, i: nat)
    requires InLine(b, p, data, pairs, ms) && i < |ms|
    ensures Next(b, p, data + Start(ms, i), pairs) == data + Start(ms, i + 1)
  {
    hide Next;
  }

  /** Walking from the first member reaches member `k`. */
  lemma {:induction false} WalkReaches(b: seq<Byte>, p: nat, data: nat, pairs: bool, ms: seq<seq<Byte>>, k: nat)
    requires k <= |ms|
    requires InLine(b, p, data, pairs, ms)
    ensures Walk(b, p, data, pairs, k) == data + Start(ms, k)
  {
    hide Next, InLine;
    if k > 0 {
      hide Walk, Start;
      WalkReaches(b, p, data, pairs, ms, k - 1);
      WalkSnoc(b, p, data, pairs, k - 1);
      NextInLine(b, p, data, pairs, ms, k - 1);
    }
  }

  // ---------------------------------------------------------------- arrays

  lemma FirstMemberFound(b: seq<Byte>, p: nat, base: Byte, w: nat, o: Options, ms: seq<seq<Byte>>, table: bool,
      offs: seq<nat>)
    requires Solid(b, ms) && (base == 0x02 || (base in {0x06, 0x0b} && table)) && (base == 0x02 ==> !table)
    requires w in {1, 2, 4, 8}
    requires IndexedShape(w, DataStart(o, w, table), |Flatten(ms)|, table, |ms|, offs)
    requires Has(b, p, IndexedBytes(base + WidthCode(w), w, DataStart(o, w, table), Flatten(ms), table, |ms|, offs))
    ensures FindDataOffset(b, p) == DataStart(o, w, table)
  {
    hide IndexedBytes, Has, ByteSize, IndexedLength, Width, ReadLE, Flatten;
    var data := DataStart(o, w, table);
    IndexedReads(b, p, base + WidthCode(w), w, data, Flatten(ms), table, |ms|, offs);
    PartAt(b, p + data, ms, 0);
  }

  lemma {:induction false} SameSizeStarts(ms: seq<seq<Byte>>)
    requires ms != [] && SameSize(ms)
    ensures |Flatten(ms)| == |ms| * |ms[0]|
    ensures forall i :: 0 <= i < |ms| ==> Start(ms, i) == i * |ms[0]|
  {
    FlattenLength(ms);
    StartOfEqualParts(ms, |ms|, |ms[0]|);
    forall i | 0 <= i < |ms| ensures Start(ms, i) == i * |ms[0]| { StartOfEqualParts(ms, i, |ms[0]|); }
  }

  lemma DivMul(n: nat, size: nat)
    requires size > 0
    ensures n * size / size == n
  {
    var x := n * size;
    var q := x / size;
    assert q * size <= x < q * size + size;
    if q < n { MulLe(q + 1, n, size); }
    if q > n { MulLe(n + 1, q, size); }
  }

  lemma QuotientExact(n: nat, first: nat, size: nat)
    requires size > 0
    ensures Quotient(first + n * size, first, size) == n
  {
    DivMul(n, size);
  }

  lemma WidthOfHead(base: Byte, w: nat)
    requires base in {0x02, 0x06, 0x0b} && w in {1, 2, 4, 8}
    ensures var h := base + WidthCode(w);
      && EntrySize(h) == w && h <= 0x0e && h != 0x01 && h != 0x0a
      && TypeOf(h) == (if base == 0x0b then TObject else TArray)
      && (h <= 0x05 <==> base == 0x02)
  {
  }

  lemma FixedWidthSize(b: seq<Byte>, p: nat, base: Byte, w: nat)
    requires base in {0x02, 0x06, 0x0b} && w in {1, 2, 4, 8} && At(b, p) == base + WidthCode(w)
    ensures ByteSize(b, p) == ReadLE(b, p + 1, w)
  {
    WidthOfHead(base, w);
    ReadLEBound(b, p + 1, w);
  }

  /** An array whose members all have one size needs no table: position is arithmetic. */
  lemma UnindexedArrayReads(b: seq<Byte>, p: nat, o: Options, ms: seq<seq<Byte>>)
    requires Parts(b, ms) && SameSize(ms)
    requires var w := Width(o, |Flatten(ms)|, |ms|, false);
      && IndexedLength(DataStart(o, w, false), w, |Flatten(ms)|, false, |ms|) < Limit
      && Has(b, p, IndexedBytes(0x02 + WidthCode(w), w, DataStart(o, w, false), Flatten(ms), false, |ms|, Starts(ms)))
    ensures var w := Width(o, |Flatten(ms)|, |ms|, false);
      && At(b, p) == 0x02 + WidthCode(w)
      && ByteSize(b, p) == IndexedLength(DataStart(o, w, false), w, |Flatten(ms)|, false, |ms|)
    ensures MemberCount(b, p) == Ok(|ms|)
    ensures forall i :: 0 <= i < |ms| ==> NthOffset(b, p, i).Ok? && Has(b, p + NthOffset(b, p, i).value, ms[i])
  {
    hide ByteSize, IndexedBytes, Has, ReadLE, Flatten, WidthCode, DataStart, FindDataOffset, TypeOf, EntrySize;
    var w := Width(o, |Flatten(ms)|, |ms|, false);
    var data := DataStart(o, w, false);
    WidthOfHead(0x02, w);
    StartsInBody(ms);
    WidthSuffices(o, ms, false, Starts(ms));
    IndexedReads(b, p, 0x02 + WidthCode(w), w, data, Flatten(ms), false, |ms|, Starts(ms));
    FixedWidthSize(b, p, 0x02, w);
    PartsAreSolid(b, ms);
    FirstMemberFound(b, p, 0x02, w, o, ms, false, Starts(ms));
    SameSizeStarts(ms);
    PartAt(b, p + data, ms, 0);
    assert Sized(b, ms[0]);
    QuotientExact(|ms|, data, |ms[0]|);
    forall i | 0 <= i < |ms| ensures NthOffset(b, p, i).Ok? && Has(b, p + NthOffset(b, p, i).value, ms[i]) {
      PartAt(b, p + data, ms, i);
    }
  }

  /** `ms` laid out at `p` behind an index table in the order `offs`. */
  ghost predicate IndexedAt(b: seq<Byte>, p: nat, base: Byte, o: Options, ms: seq<seq<Byte>>, offs: seq<nat>) {
    && (base == 0x06 || base == 0x0b)
    && Solid(b, ms) && |offs| == |ms| && (forall i :: 0 <= i < |ms| ==> offs[i] <= |Flatten(ms)|)
    && (|ms| == 1 ==> offs[0] == 0) && Room(o, |Flatten(ms)|, |ms|)
    && var w := Width(o, |Flatten(ms)|, |ms|, true);
       && IndexedLength(DataStart(o, w, true), w, |Flatten(ms)|, true, |ms|) < Limit
       && Has(b, p, IndexedBytes(base + WidthCode(w), w, DataStart(o, w, true), Flatten(ms), true, |ms|, offs))
  }

  lemma IndexedCompoundHeader(b: seq<Byte>, p: nat, base: Byte, o: Options, ms: seq<seq<Byte>>, offs: seq<nat>)
    requires IndexedAt(b, p, base, o, ms, offs)
    ensures var w := Width(o, |Flatten(ms)|, |ms|, true);
      && At(b, p) == base + WidthCode(w)
      && ByteSize(b, p) == IndexedLength(DataStart(o, w, true), w, |Flatten(ms)|, true, |ms|)
      && Has(b, p + DataStart(o, w, true), Flatten(ms))
      && Has(b, p + DataStart(o, w, true) + |Flatten(ms)|, Table(offs, DataStart(o, w, true), w))
      && TableBase(b, p) == DataStart(o, w, true) + |Flatten(ms)|
      && IndexedShape(w, DataStart(o, w, true), |Flatten(ms)|, true, |ms|, offs)
    ensures MemberCount(b, p) == Ok(|ms|)
  {
    hide ByteSize, IndexedBytes, Has, ReadLE, Flatten, WidthCode, DataStart, FindDataOffset, TypeOf, EntrySize;
    var w := Width(o, |Flatten(ms)|, |ms|, true);
    var data := DataStart(o, w, true);
    WidthOfHead(base, w);
    WidthSuffices(o, ms, true, offs);
    IndexedReads(b, p, base + WidthCode(w), w, data, Flatten(ms), true, |ms|, offs);
    FixedWidthSize(b, p, base, w);
    assert MemberCount(b, p) == Ok(|ms|);
  }

  /** Position by index table, for arrays and objects alike. */
  lemma IndexedCompoundReads(b: seq<Byte>, p: nat, base: Byte, o: Options, ms: seq<seq<Byte>>, offs: seq<nat>, i: nat)
    requires IndexedAt(b, p, base, o, ms, offs) && i < |ms|
    ensures NthOffset(b, p, i) == Ok(DataStart(o, Width(o, |Flatten(ms)|, |ms|, true), true) + offs[i])
  {
    hide ByteSize, IndexedBytes, Has, ReadLE, Flatten, WidthCode, DataStart, FindDataOffset, TypeOf, EntrySize,
      TableBase, MemberCount;
    var w := Width(o, |Flatten(ms)|, |ms|, true);
    var data := DataStart(o, w, true);
    WidthOfHead(base, w);
    IndexedCompoundHeader(b, p, base, o, ms, offs);
    if |ms| == 1 {
      FirstMemberFound(b, p, base, w, o, ms, true, offs);
    } else {
      TableReads(b, p + data + |Flatten(ms)|, offs, data, w, i);
    }
  }

  // ---------------------------------------------------------------- compact compounds

  lemma CompactSize(b: seq<Byte>, p: nat)
    requires At(b, p) == 0x13 || At(b, p) == 0x14
    ensures FullSize(b, p) == ReadVar(b, p + 1)
    ensures MemberCount(b, p) == Ok(ReadVarRev(b, p + ReadVar(b, p + 1) - 1))
  {
  }

  lemma CompactNth(b: seq<Byte>, p: nat, i: nat)
    requires At(b, p) == 0x13 || At(b, p) == 0x14
    requires MemberCount(b, p).Ok? && i < MemberCount(b, p).value
    ensures NthOffset(b, p, i) == Ok(Walk(b, p, 1 + VarLen(ReadVar(b, p + 1)), At(b, p) == 0x14, i))
  {
    hide MemberCount, Walk, ReadVar, VarLen, ByteSize, FindDataOffset, TableBase, ReadLE;
  }

  lemma CompactCompoundReads(b: seq<Byte>, p: nat, head: Byte, ms: seq<seq<Byte>>)
    requires head == 0x13 || head == 0x14
    requires ms != [] && Has(b, p, CompactBytes(head, Flatten(ms), |ms|)) &&
      |CompactBytes(head, Flatten(ms), |ms|)| < Limit
    requires InLine(b, p, 1 + VarLen(CompactLength(|Flatten(ms)|, |ms|)), head == 0x14, ms)
    ensures At(b, p) == head && ByteSize(b, p) == |CompactBytes(head, Flatten(ms), |ms|)|
    ensures MemberCount(b, p) == Ok(|ms|)
    ensures Has(b, p + 1 + VarLen(CompactLength(|Flatten(ms)|, |ms|)), Flatten(ms))
    ensures forall i :: 0 <= i < |ms| ==>
              NthOffset(b, p, i) == Ok(1 + VarLen(CompactLength(|Flatten(ms)|, |ms|)) + Start(ms, i))
  {
    hide CompactBytes, CompactLength, Has, Flatten, VarLen, ReadVar, ReadVarRev, Next, NthOffset, MemberCount,
      FullSize, Walk, Start, Var, VarRev, TypeOf;
    var size := CompactLength(|Flatten(ms)|, |ms|);
    CompactReads(b, p, head, Flatten(ms), |ms|);
    CompactSize(b, p);
    forall i | 0 <= i < |ms| ensures NthOffset(b, p, i) == Ok(1 + VarLen(size) + Start(ms, i)) {
      CompactNth(b, p, i);
      WalkReaches(b, p, 1 + VarLen(size), head == 0x14, ms, i);
    }
  }

  // ---------------------------------------------------------------- arrays

  lemma EmptyCount(b: seq<Byte>, p: nat)
    requires At(b, p) == 0x01 || At(b, p) == 0x0a
    ensures MemberCount(b, p) == Ok(0)
  {
  }

  lemma CompactArrayReads(b: seq<Byte>, p: nat, ms: seq<seq<Byte>>)
    requires Parts(b, ms) && Has(b, p, CompactBytes(0x13, Flatten(ms), |ms|)) &&
      |CompactBytes(0x13, Flatten(ms), |ms|)| < Limit
    ensures At(b, p) == 0x13 && ByteSize(b, p) == |CompactBytes(0x13, Flatten(ms), |ms|)|
    ensures MemberCount(b, p) == Ok(|ms|)
    ensures forall i :: 0 <= i < |ms| ==> NthOffset(b, p, i).Ok? && Has(b, p + NthOffset(b, p, i).value, ms[i])
  {
    hide CompactBytes, CompactLength, Has, Flatten, ByteSize, MemberCount, NthOffset, VarLen, Start, ReadVar,
      ReadVarRev, Var, VarRev;
    var data := 1 + VarLen(CompactLength(|Flatten(ms)|, |ms|));
    CompactReads(b, p, 0x13, Flatten(ms), |ms|);
    forall i | 0 <= i < |ms| ensures Next(b, p, data + Start(ms, i), false) == data + Start(ms, i) + |ms[i]| {
      PartAt(b, p + data, ms, i);
      assert Sized(b, ms[i]);
      assert Has(b, p + (data + Start(ms, i)), ms[i]);
    }
    assert InLine(b, p, data, false, ms);
    CompactCompoundReads(b, p, 0x13, ms);
    forall i | 0 <= i < |ms| ensures NthOffset(b, p, i).Ok? && Has(b, p + NthOffset(b, p, i).value, ms[i]) {
      PartAt(b, p + data, ms, i);
    }
  }

  /** The length of the bytes is the length announced in the header. */
  lemma IndexedTotal(o: Options, head: Byte, ms: seq<seq<Byte>>, table: bool, offs: seq<nat>)
    requires ms != [] && (forall i :: 0 <= i < |ms| ==> |ms[i]| >= 1) && |offs| == |ms|
    ensures var w := Width(o, |Flatten(ms)|, |ms|, table);
            var data := DataStart(o, w, table);
            |IndexedBytes(head, w, data, Flatten(ms), table, |ms|, offs)|
              == IndexedLength(data, w, |Flatten(ms)|, table, |ms|)
  {
  }

  lemma IndexedHead(head: Byte, w: nat, data: nat, body: seq<Byte>, table: bool, n: nat, offs: seq<nat>)
    ensures IndexedBytes(head, w, data, body, table, n, offs)[0] == head
  {
    hide LE, Table, Zeros;
  }

  lemma UnindexedShape(o: Options, ms: seq<seq<Byte>>)
    requires ms != [] && forall i :: 0 <= i < |ms| ==> |ms[i]| >= 1
    ensures var w := Width(o, |Flatten(ms)|, |ms|, false);
            var data := DataStart(o, w, false);
            |IndexedBytes(0x02 + WidthCode(w), w, data, Flatten(ms), false, |ms|, Starts(ms))|
              == IndexedLength(data, w, |Flatten(ms)|, false, |ms|)
  {
    IndexedTotal(o, 0x02 + WidthCode(Width(o, |Flatten(ms)|, |ms|, false)), ms, false, Starts(ms));
  }

  /** Whatever layout was chosen: the member count and every member. */
  lemma ArrayReads(b: seq<Byte>, p: nat, o: Options, compact: bool, ms: seq<seq<Byte>>)
    requires (ms == [] || Parts(b, ms)) && ArrayRoom(o, compact, ms)
    requires |ArrayBytes(o, compact, ms)| < Limit && Has(b, p, ArrayBytes(o, compact, ms))
    ensures TypeOf(At(b, p)) == TArray && At(b, p) != 0 && ByteSize(b, p) == |ArrayBytes(o, compact, ms)|
    ensures MemberCount(b, p) == Ok(|ms|)
    ensures forall i :: 0 <= i < |ms| ==> NthOffset(b, p, i).Ok? && Has(b, p + NthOffset(b, p, i).value, ms[i])
  {
    hide Flatten, CompactBytes, IndexedBytes, CompactLength, NthOffset, MemberCount, FindDataOffset, ReadVar, Has;
    var body := Flatten(ms);
    if ms == [] {
      var one: seq<Byte> := [0x01];
      HeadAt(b, p, one[0]);
      assert MemberCount(b, p) == Ok(0) by { EmptyCount(b, p); }
    } else if (compact || o.unindexedArrays) && CompactFits(|body|, |ms|) {
      CompactArrayReads(b, p, ms);
    } else if SameSize(ms) {
      StartsInBody(ms);
      UnindexedShape(o, ms);
      UnindexedArrayReads(b, p, o, ms);
      WidthOfHead(0x02, Width(o, |body|, |ms|, false));
    } else {
      var w := Width(o, |body|, |ms|, true);
      var data := DataStart(o, w, true);
      StartsInBody(ms);
      IndexedTotal(o, 0x06 + WidthCode(w), ms, true, Starts(ms));
      assert |ms| != 1;
      PartsAreSolid(b, ms);
      assert IndexedAt(b, p, 0x06, o, ms, Starts(ms));
      IndexedCompoundHeader(b, p, 0x06, o, ms, Starts(ms));
      WidthOfHead(0x06, w);
      forall i | 0 <= i < |ms| ensures NthOffset(b, p, i).Ok? && Has(b, p + NthOffset(b, p, i).value, ms[i]) {
        IndexedCompoundReads(b, p, 0x06, o, ms, Starts(ms), i);
        PartAt(b, p + data, ms, i);
      }
    }
  }

  // ---------------------------------------------------------------- objects

  /** Each part is a key followed by its value. */
  ghost predicate Pairs(b: seq<Byte>, keys: seq<seq<Byte>>, vs: seq<seq<Byte>>, ms: seq<seq<Byte>>) {
    && |keys| == |vs| == |ms| && ms != []
    && (forall i :: 0 <= i < |ms| ==> ms[i] == EncodeString(keys[i]) + vs[i] && |EncodeString(keys[i])| < Limit)
    && (forall i :: 0 <= i < |ms| ==> |vs[i]| >= 1 && Sized(b, vs[i]))
  }

  /** The pair at `q`: its key, the position of its value, and its size. */
  lemma PairReads(b: seq<Byte>, q: nat, key: seq<Byte>, v: seq<Byte>)
    requires |EncodeString(key)| < Limit && Sized(b, v) && Has(b, q, EncodeString(key) + v)
    ensures GetString(b, q) == key && Has(b, q + ByteSize(b, q), v) && At(b, q) != 0
    ensures TypeOf(At(b, q)) == TString && ByteSize(b, q) == |EncodeString(key)|
    ensures ByteSize(b, q) + ByteSize(b, q + ByteSize(b, q)) == |EncodeString(key) + v|
  {
    hide FullSize, GetString, EncodeString, TypeOf;
    HasConcat(b, q, EncodeString(key), v);
    StringShorter(key);
    StringReads(b, q, key);
  }

  lemma PairsAreSolid(b: seq<Byte>, keys: seq<seq<Byte>>, vs: seq<seq<Byte>>, ms: seq<seq<Byte>>)
    requires Pairs(b, keys, vs, ms)
    ensures Solid(b, ms)
  {
    hide EncodeString, TypeOf, ByteSize, GetString;
    forall q: nat | Has(b, q, ms[0]) ensures At(b, q) != 0 {
      PairReads(b, q, keys[0], vs[0]);
    }
  }

  lemma ObjectCompact(b: seq<Byte>, p: nat, keys: seq<seq<Byte>>, vs: seq<seq<Byte>>, ms: seq<seq<Byte>>)
    requires Pairs(b, keys, vs, ms) && Has(b, p, CompactBytes(0x14, Flatten(ms), |ms|)) &&
      |CompactBytes(0x14, Flatten(ms), |ms|)| < Limit
    ensures At(b, p) == 0x14 && ByteSize(b, p) == |CompactBytes(0x14, Flatten(ms), |ms|)|
    ensures MemberCount(b, p) == Ok(|ms|)
    ensures forall i :: 0 <= i < |ms| ==> NthOffset(b, p, i).Ok? && Has(b, p + NthOffset(b, p, i).value, ms[i])
    ensures forall i :: 0 <= i < |ms| ==>
      NthOffset(b, p, i) == Ok(1 + VarLen(CompactLength(|Flatten(ms)|, |ms|)) + Start(ms, i))
  {
    hide CompactBytes, CompactLength, Has, Flatten, ByteSize, MemberCount, NthOffset, VarLen, EncodeString, Start,
      GetString, TypeOf, ReadVar, ReadVarRev, Var, VarRev;
    var data := 1 + VarLen(CompactLength(|Flatten(ms)|, |ms|));
    CompactReads(b, p, 0x14, Flatten(ms), |ms|);
    forall i | 0 <= i < |ms| ensures Next(b, p, data + Start(ms, i), true) == data + Start(ms, i) + |ms[i]| {
      PartAt(b, p + data, ms, i);
      PairReads(b, p + (data + Start(ms, i)), keys[i], vs[i]);
      assert p + (data + Start(ms, i) + ByteSize(b, p + (data + Start(ms, i))))
        == p + (data + Start(ms, i)) + ByteSize(b, p + (data + Start(ms, i)));
    }
    assert InLine(b, p, data, true, ms);
    CompactCompoundReads(b, p, 0x14, ms);
    forall i | 0 <= i < |ms| ensures NthOffset(b, p, i).Ok? && Has(b, p + NthOffset(b, p, i).value, ms[i]) {
      PartAt(b, p + data, ms, i);
    }
  }

  lemma SortedStartsInBody(keys: seq<seq<Byte>>, ms: seq<seq<Byte>>, perm: seq<nat>)
    requires |keys| == |ms| == |perm| && forall i :: 0 <= i < |perm| ==> perm[i] < |ms|
    requires forall i :: 0 <= i < |perm| ==> SortedStarts(keys, Starts(ms))[i] == Starts(ms)[perm[i]]
    ensures forall i :: 0 <= i < |ms| ==> SortedStarts(keys, Starts(ms))[i] <= |Flatten(ms)|
    ensures |ms| == 1 ==> SortedStarts(keys, Starts(ms))[0] == 0
  {
    hide Flatten, SortedStarts;
    StartsInBody(ms);
  }

  lemma ObjectIndexed(b: seq<Byte>, p: nat, o: Options, keys: seq<seq<Byte>>, ms: seq<seq<Byte>>)
    returns (perm: seq<nat>)
    requires |keys| == |ms| && Distinct(keys) && Solid(b, ms) && Room(o, |Flatten(ms)|, |ms|)
    requires var w := Width(o, |Flatten(ms)|, |ms|, true);
      && IndexedLength(DataStart(o, w, true), w, |Flatten(ms)|, true, |ms|) < Limit
      && Has(b, p, IndexedBytes(0x0b + WidthCode(w), w, DataStart(o, w, true), Flatten(ms), true, |ms|,
          SortedStarts(keys, Starts(ms))))
    ensures var w := Width(o, |Flatten(ms)|, |ms|, true);
      && At(b, p) == 0x0b + WidthCode(w)
      && ByteSize(b, p) == IndexedLength(DataStart(o, w, true), w, |Flatten(ms)|, true, |ms|)
    ensures MemberCount(b, p) == Ok(|ms|)
    ensures |perm| == |ms| && (forall i :: 0 <= i < |perm| ==> perm[i] < |ms|) &&
      (forall j :: 0 <= j < |ms| ==> j in perm)
    ensures forall i, j :: 0 <= i < j < |perm| ==> Less(keys[perm[i]], keys[perm[j]])
    ensures forall i :: 0 <= i < |ms| ==> NthOffset(b, p, i).Ok? && Has(b, p + NthOffset(b, p, i).value, ms[perm[i]])
    ensures forall i :: 0 <= i < |ms| ==>
      NthOffset(b, p, i) == Ok(DataStart(o, Width(o, |Flatten(ms)|, |ms|, true), true) + Start(ms, perm[i]))
  {
    hide Flatten, IndexedBytes, NthOffset, MemberCount, FindDataOffset, Has, SortedStarts, Width, DataStart,
      IndexedLength, ByteSize, WidthCode, Less;
    var data := DataStart(o, Width(o, |Flatten(ms)|, |ms|, true), true);
    perm := TableOrder(keys, Starts(ms));
    var offs := SortedStarts(keys, Starts(ms));
    SortedStartsInBody(keys, ms, perm);
    assert IndexedAt(b, p, 0x0b, o, ms, offs);
    IndexedCompoundHeader(b, p, 0x0b, o, ms, offs);
    forall i | 0 <= i < |ms|
      ensures NthOffset(b, p, i) == Ok(data + Start(ms, perm[i])) && Has(b, p + NthOffset(b, p, i).value, ms[perm[i]])
    {
      IndexedCompoundReads(b, p, 0x0b, o, ms, offs, i);
      assert offs[i] == Starts(ms)[perm[i]] == Start(ms, perm[i]);
      PartAt(b, p + data, ms, perm[i]);
    }
  }

  lemma Identity(n: nat) returns (perm: seq<nat>)
    ensures |perm| == n && (forall i :: 0 <= i < n ==> perm[i] == i) && (forall j :: 0 <= j < n ==> j in perm)
  {
    perm := seq(n, i => i);
    forall j | 0 <= j < n ensures j in perm { assert perm[j] == j; }
  }

  lemma NoneTwice(keys: seq<seq<Byte>>, perm: seq<nat>)
    requires forall i :: 0 <= i < |perm| ==> perm[i] < |keys|
    requires forall i, j :: 0 <= i < j < |perm| ==> Less(keys[perm[i]], keys[perm[j]])
    ensures forall i, j :: 0 <= i < j < |perm| ==> perm[i] != perm[j]
  {
    forall i, j | 0 <= i < j < |perm| ensures perm[i] != perm[j] { LessIrreflexive(keys[perm[i]]); }
  }

  /** Whatever layout was chosen: the member count and, in some order, every pair once. */
  lemma ObjectReads(b: seq<Byte>, p: nat, o: Options, compact: bool, keys: seq<seq<Byte>>, vs: seq<seq<Byte>>,
      ms: seq<seq<Byte>>)
    returns (perm: seq<nat>, data: nat)
    requires Pairs(b, keys, vs, ms) && Distinct(keys) && ObjectRoom(o, compact, ms)
    requires |ObjectBytes(o, compact, keys, ms)| < Limit && Has(b, p, ObjectBytes(o, compact, keys, ms))
    ensures TypeOf(At(b, p)) == TObject && At(b, p) != 0 && ByteSize(b, p) == |ObjectBytes(o, compact, keys, ms)|
    ensures MemberCount(b, p) == Ok(|ms|)
    ensures |perm| == |ms| && (forall i :: 0 <= i < |perm| ==> perm[i] < |ms|) &&
      (forall j :: 0 <= j < |ms| ==> j in perm)
    ensures forall i, j :: 0 <= i < j < |perm| ==> perm[i] != perm[j]
    ensures forall i :: 0 <= i < |ms| ==>
      NthOffset(b, p, i) == Ok(data + Start(ms, perm[i])) && Has(b, p + (data + Start(ms, perm[i])), ms[perm[i]])
    ensures TypeOf(At(b, p)) == TObject && At(b, p) <= 0x0e ==> forall i, j :: 0 <= i < j < |perm| ==>
      Less(keys[perm[i]], keys[perm[j]])
  {
    hide Flatten, CompactBytes, IndexedBytes, CompactLength, NthOffset, MemberCount, Has, EncodeString, SortedStarts,
      ByteSize, Less, IndexedLength, DataStart, Width, Start, VarLen, WidthCode;
    PairsAreSolid(b, keys, vs, ms);
    if (compact || o.unindexedObjects || |ms| == 1) && CompactFits(|Flatten(ms)|, |ms|) {
      ObjectCompact(b, p, keys, vs, ms);
      perm := Identity(|ms|);
      data := 1 + VarLen(CompactLength(|Flatten(ms)|, |ms|));
    } else {
      var w := Width(o, |Flatten(ms)|, |ms|, true);
      IndexedTotal(o, 0x0b + WidthCode(w), ms, true, SortedStarts(keys, Starts(ms)));
      perm := ObjectIndexed(b, p, o, keys, ms);
      data := DataStart(o, w, true);
      NoneTwice(keys, perm);
      WidthOfHead(0x0b, w);
    }
  }

  /** Scanning stops at the first member with the key. */
  lemma {:induction false} ScanStops(b: seq<Byte>, p: nat, key: seq<Byte>, i: nat, k: nat, n: nat)
    requires i <= k < n && NthOffset(b, p, k).Ok? && GetString(b, p + NthOffset(b, p, k).value) == key
    requires forall j :: i <= j < k ==> NthOffset(b, p, j).Ok? && GetString(b, p + NthOffset(b, p, j).value) != key
    ensures Scan(b, p, key, i, n) == Some(NthOffset(b, p, k).value + ByteSize(b, p + NthOffset(b, p, k).value))
    decreases k - i
  {
    hide NthOffset, GetString, ByteSize;
    if i < k { ScanStops(b, p, key, i + 1, k, n); }
  }

  lemma {:induction false} ScanMisses(b: seq<Byte>, p: nat, key: seq<Byte>, i: nat, n: nat)
    requires forall j :: i <= j < n ==> NthOffset(b, p, j).Ok? && GetString(b, p + NthOffset(b, p, j).value) != key
    ensures Scan(b, p, key, i, n) == None
    decreases n - i
  {
    hide NthOffset, GetString, ByteSize;
    if i < n { ScanMisses(b, p, key, i + 1, n); }
  }

  /** Looking up a key finds the value stored under it, and nothing for any other key. */
  lemma ObjectGet(b: seq<Byte>, p: nat, o: Options, compact: bool, keys: seq<seq<Byte>>, vs: seq<seq<Byte>>,
      ms: seq<seq<Byte>>)
    requires Pairs(b, keys, vs, ms) && Distinct(keys) && ObjectRoom(o, compact, ms)
    requires |ObjectBytes(o, compact, keys, ms)| < Limit && Has(b, p, ObjectBytes(o, compact, keys, ms))
    ensures forall j :: 0 <= j < |ms| ==>
              && Get(b, p, keys[j]).Ok? && Get(b, p, keys[j]).value.Some?
              && Has(b, p + Get(b, p, keys[j]).value.value, vs[j])
    ensures forall key :: key !in keys ==> Get(b, p, key) == Ok(None)
  {
    hide ObjectBytes, NthOffset, GetString, ByteSize, MemberCount, EncodeString, Has, TypeOf, Scan, ObjectRoom;
    var perm, _ := ObjectReads(b, p, o, compact, keys, vs, ms);
    var n := |ms|;
    forall i | 0 <= i < n
      ensures var q := p + NthOffset(b, p, i).value;
              GetString(b, q) == keys[perm[i]] && Has(b, q + ByteSize(b, q), vs[perm[i]])
    {
      PairReads(b, p + NthOffset(b, p, i).value, keys[perm[i]], vs[perm[i]]);
    }
    forall j | 0 <= j < n
      ensures Get(b, p, keys[j]).Ok? && Get(b, p, keys[j]).value.Some? &&
        Has(b, p + Get(b, p, keys[j]).value.value, vs[j])
    {
      assert j in perm;
      var k :| 0 <= k < n && perm[k] == j;
      var first := FirstWith(perm, j, k);
      ScanStops(b, p, keys[j], 0, first, n);
      var q := p + NthOffset(b, p, first).value;
      assert p + (NthOffset(b, p, first).value + ByteSize(b, q)) == q + ByteSize(b, q);
    }
    forall key | key !in keys ensures Get(b, p, key) == Ok(None) {
      ScanMisses(b, p, key, 0, n);
    }
  }

  lemma {:induction false} FirstWith(perm: seq<nat>, j: nat, k: nat) returns (first: nat)
    requires k < |perm| && perm[k] == j
    ensures first <= k && perm[first] == j && forall i :: 0 <= i < first ==> perm[i] != j
  {
    if i :| 0 <= i < k && perm[i] == j {
      first := FirstWith(perm, j, i);
    } else {
      first := k;
    }
  }

  // ---------------------------------------------------------------- values

  lemma {:induction false} MemberFits(ms: seq<seq<Byte>>, i: nat)
    requires i < |ms|
    ensures |ms[i]| <= |Flatten(ms)|
  {
    FlattenHas(ms, i);
  }

  /** A member of a compound is smaller than the compound. */
  lemma ElementFits(o: Options, compact: bool, elems: seq<Value>, i: nat)
    requires i < |elems|
    ensures |Encode(o, elems[i])| <= |Encode(o, Arr(compact, elems))|
  {
    hide Flatten;
    MemberFits(EncodeAll(o, elems), i);
  }

  lemma PairFits(o: Options, compact: bool, members: seq<Member>, i: nat)
    requires i < |members|
    ensures |EncodeString(members[i].key)| + |Encode(o, members[i].value)| <= |Encode(o, Obj(compact, members))|
  {
    hide Flatten, SortedStarts;
    MemberFits(EncodeMembers(o, members), i);
  }

  /** Main theorem: wherever the encoding of a value stands, it reads back as that value,
      and its size and type byte are its own, if every length fits the width chosen for it. */
  lemma {:induction false} EncodingReadsBack(b: seq<Byte>, p: nat, o: Options, v: Value)
    requires Has(b, p, Encode(o, v)) && |Encode(o, v)| < Limit && UniqueKeys(v) && Roomy(o, v)
    ensures Reads(b, p, v)
    ensures ByteSize(b, p) == |Encode(o, v)| && At(b, p) != 0
    decreases v
  {
    match v
    case Arr(compact, elems) => ArrayReadsBack(b, p, o, compact, elems);
    case Obj(compact, members) => ObjectReadsBack(b, p, o, compact, members);
    case _ => ScalarReadsBack(b, p, o, v);
  }

  lemma WordReadsBack(b: seq<Byte>, p: nat, o: Options, v: Value)
    requires v.Null? || v.Bool? || v.Double?
    requires Has(b, p, Encode(o, v))
    ensures Reads(b, p, v)
    ensures ByteSize(b, p) == |Encode(o, v)| && At(b, p) != 0
  {
    hide ReadLE, LE, ReadVar, MemberCount, NthOffset, Get, GetInt, GetUInt, GetString, EncodeInt, EncodeUInt;
    HasBytes(b, p, Encode(o, v));
    assert At(b, p + 0) == Encode(o, v)[0];
    if v.Double? {
      HasConcat(b, p, [0x1b], LE(v.bits, 8));
      Pow256Values();
      ReadLEOfLE(b, p + 1, v.bits, 8);
    }
  }

  lemma StringFits(s: seq<Byte>)
    ensures |s| < |EncodeString(s)|
  {
    hide LE;
  }

  lemma ScalarReadsBack(b: seq<Byte>, p: nat, o: Options, v: Value)
    requires !v.Arr? && !v.Obj?
    requires Has(b, p, Encode(o, v)) && |Encode(o, v)| < Limit
    ensures Reads(b, p, v)
    ensures ByteSize(b, p) == |Encode(o, v)| && At(b, p) != 0
  {
    hide FullSize, TypeOf, GetInt, GetUInt, GetString, EncodeInt, EncodeUInt, EncodeString;
    match v
    case Int(i) => IntReads(b, p, i);
    case UInt(u) => UIntReads(b, p, u);
    case Str(s) =>
      StringFits(s);
      StringReads(b, p, s);
    case _ => WordReadsBack(b, p, o, v);
  }

  lemma ElementConditions(o: Options, compact: bool, elems: seq<Value>)
    requires UniqueKeys(Arr(compact, elems)) && Roomy(o, Arr(compact, elems))
    ensures ArrayRoom(o, compact, EncodeAll(o, elems))
    ensures forall i :: 0 <= i < |elems| ==> UniqueKeys(elems[i]) && Roomy(o, elems[i])
  {
    hide ArrayRoom, EncodeAll;
  }

  lemma MemberConditions(o: Options, compact: bool, members: seq<Member>)
    requires UniqueKeys(Obj(compact, members)) && Roomy(o, Obj(compact, members))
    ensures ObjectRoom(o, compact, EncodeMembers(o, members)) && Distinct(Keys(members))
    ensures forall i :: 0 <= i < |members| ==> UniqueKeys(members[i].value) && Roomy(o, members[i].value)
  {
    hide ObjectRoom, EncodeMembers, Distinct, Keys;
  }

  lemma {:induction false} ArrayReadsBack(b: seq<Byte>, p: nat, o: Options, compact: bool, elems: seq<Value>)
    requires Has(b, p, Encode(o, Arr(compact, elems))) && |Encode(o, Arr(compact, elems))| < Limit
    requires UniqueKeys(Arr(compact, elems)) && Roomy(o, Arr(compact, elems))
    ensures Reads(b, p, Arr(compact, elems))
    ensures ByteSize(b, p) == |Encode(o, Arr(compact, elems))| && At(b, p) != 0
    decreases elems
  {
    hide ArrayBytes, NthOffset, MemberCount, ByteSize, Has, TypeOf, UniqueKeys, Roomy, ArrayRoom;
    var ms := EncodeAll(o, elems);
    ElementConditions(o, compact, elems);
    forall i | 0 <= i < |ms| ensures Sized(b, ms[i]) {
      ElementFits(o, compact, elems, i);
      forall q: nat | Has(b, q, ms[i]) ensures ByteSize(b, q) == |ms[i]| && At(b, q) != 0 {
        EncodingReadsBack(b, q, o, elems[i]);
      }
    }
    ArrayReads(b, p, o, compact, ms);
    forall i | 0 <= i < |elems| ensures NthOffset(b, p, i).Ok? && Reads(b, p + NthOffset(b, p, i).value, elems[i]) {
      ElementFits(o, compact, elems, i);
      EncodingReadsBack(b, p + NthOffset(b, p, i).value, o, elems[i]);
    }
  }

  function EncodeValues(o: Options, members: seq<Member>): (r: seq<seq<Byte>>)
    ensures |r| == |members|
  {
    seq(|members|, i requires 0 <= i < |members| => Encode(o, members[i].value))
  }

  lemma MembersArePairs(b: seq<Byte>, o: Options, compact: bool, members: seq<Member>)
    requires members != [] && |Encode(o, Obj(compact, members))| < Limit
    requires forall i :: 0 <= i < |members| ==> Sized(b, EncodeValues(o, members)[i])
    ensures Pairs(b, Keys(members), EncodeValues(o, members), EncodeMembers(o, members))
  {
    hide ObjectBytes, EncodeString, Encode;
    forall i | 0 <= i < |members| ensures |EncodeString(Keys(members)[i])| < Limit {
      PairFits(o, compact, members, i);
    }
  }

  lemma ObjectFinds(b: seq<Byte>, p: nat, o: Options, compact: bool, members: seq<Member>)
    requires Has(b, p, Encode(o, Obj(compact, members))) && |Encode(o, Obj(compact, members))| < Limit
    requires members != [] && Distinct(Keys(members)) && ObjectRoom(o, compact, EncodeMembers(o, members))
    requires forall i :: 0 <= i < |members| ==> Sized(b, EncodeValues(o, members)[i])
    ensures TypeOf(At(b, p)) == TObject && MemberCount(b, p) == Ok(|members|)
    ensures ByteSize(b, p) == |Encode(o, Obj(compact, members))| && At(b, p) != 0
    ensures forall i :: 0 <= i < |members| ==>
              && Get(b, p, members[i].key).Ok? && Get(b, p, members[i].key).value.Some?
              && Has(b, p + Get(b, p, members[i].key).value.value, Encode(o, members[i].value))
    ensures forall key :: key !in Keys(members) ==> Get(b, p, key) == Ok(None)
  {
    hide ObjectBytes, NthOffset, MemberCount, ByteSize, Has, TypeOf, Get, EncodeString, EncodeMembers;
    var keys, vs, ms := Keys(members), EncodeValues(o, members), EncodeMembers(o, members);
    assert Encode(o, Obj(compact, members)) == ObjectBytes(o, compact, keys, ms);
    hide Encode;
    MembersArePairs(b, o, compact, members);
    var perm, _ := ObjectReads(b, p, o, compact, keys, vs, ms);
    ObjectGet(b, p, o, compact, keys, vs, ms);
    forall i | 0 <= i < |members|
      ensures Get(b, p, members[i].key).Ok? && Get(b, p, members[i].key).value.Some?
      ensures Has(b, p + Get(b, p, members[i].key).value.value, Encode(o, members[i].value))
    {
      assert members[i].key == keys[i];
      assert vs[i] == Encode(o, members[i].value);
    }
  }

  lemma {:induction false} ObjectReadsBack(b: seq<Byte>, p: nat, o: Options, compact: bool, members: seq<Member>)
    requires Has(b, p, Encode(o, Obj(compact, members))) && |Encode(o, Obj(compact, members))| < Limit
    requires UniqueKeys(Obj(compact, members)) && Roomy(o, Obj(compact, members))
    ensures Reads(b, p, Obj(compact, members))
    ensures ByteSize(b, p) == |Encode(o, Obj(compact, members))| && At(b, p) != 0
    decreases members
  {
    hide Encode, NthOffset, MemberCount, ByteSize, Has, TypeOf, Get, UniqueKeys, Roomy, ObjectRoom, Distinct, Keys,
      EncodeMembers;
    MemberConditions(o, compact, members);
    if members == [] {
      EmptyObjectReads(b, p, o, Obj(compact, members));
      return;
    }
    forall i | 0 <= i < |members| ensures Sized(b, EncodeValues(o, members)[i]) {
      PairFits(o, compact, members, i);
      forall q: nat | Has(b, q, Encode(o, members[i].value))
        ensures ByteSize(b, q) == |Encode(o, members[i].value)| && At(b, q) != 0
      {
        EncodingReadsBack(b, q, o, members[i].value);
      }
    }
    ObjectFinds(b, p, o, compact, members);
    forall i | 0 <= i < |members| ensures Reads(b, p + Get(b, p, members[i].key).value.value, members[i].value) {
      PairFits(o, compact, members, i);
      EncodingReadsBack(b, p + Get(b, p, members[i].key).value.value, o, members[i].value);
    }
  }

  lemma StringShorter(s: seq<Byte>)
    ensures |s| <= |EncodeString(s)|
  {
  }

  lemma EmptyObjectReads(b: seq<Byte>, p: nat, o: Options, v: Value)
    requires v.Obj? && v.members == [] && Has(b, p, Encode(o, v))
    ensures Reads(b, p, v) && ByteSize(b, p) == |Encode(o, v)| && At(b, p) != 0
  {
    hide Scan, NthOffset, Flatten;
    var one: seq<Byte> := [0x0a];
    assert Encode(o, v) == one;
    HeadAt(b, p, one[0]);
    EmptyCount(b, p);
    forall key ensures Scan(b, p, key, 0, 0) == None { ScanMisses(b, p, key, 0, 0); }
  }

  // ---------------------------------------------------------------- lengths that do not fit

  /** A compound whose length does not fit is announced as 256 bytes shorter than it is. */
  lemma ShortByOneByte(b: seq<Byte>, p: nat, o: Options, base: Byte, ms: seq<seq<Byte>>, offs: seq<nat>)
    requires base in {0x06, 0x0b} && ms != [] && (forall i :: 0 <= i < |ms| ==> |ms[i]| >= 1) && |offs| == |ms|
    requires !Room(o, |Flatten(ms)|, |ms|)
    requires var w := Width(o, |Flatten(ms)|, |ms|, true);
      Has(b, p, IndexedBytes(base + WidthCode(w), w, DataStart(o, w, true), Flatten(ms), true, |ms|, offs))
    ensures var w := Width(o, |Flatten(ms)|, |ms|, true);
      var size := |IndexedBytes(base + WidthCode(w), w, DataStart(o, w, true), Flatten(ms), true, |ms|, offs)|;
      ByteSize(b, p) == size - 256 && 256 <= size <= 261
  {
    hide LE, Table, Has, Flatten, ReadLE;
    var n, total := |ms|, 9 + |Flatten(ms)| + |ms|;
    IndexedTotal(o, base, ms, true, offs);
    var head: seq<Byte> := [base];
    var rest := LE(n, 1) + Zeros(6) + Flatten(ms) + Table(offs, 9, 1);
    assert IndexedBytes(base, 1, 9, Flatten(ms), true, n, offs) == head + LE(total, 1) + rest;
    HasConcat(b, p, head + LE(total, 1), rest);
    HasConcat(b, p, head, LE(total, 1));
    HeadAt(b, p, base);
    LEWraps(total - 256, 1);
    Pow256Values();
    ReadLEOfLE(b, p + 1, total - 256, 1);
    FixedWidthSize(b, p, base, 1);
  }

  ghost predicate PartsRoomy(o: Options, v: Value) {
    match v
    case Arr(_, elems) => forall i :: 0 <= i < |elems| ==> Roomy(o, elems[i])
    case Obj(_, members) => forall i :: 0 <= i < |members| ==> Roomy(o, members[i].value)
    case _ => true
  }

  lemma NoRoom(b: seq<Byte>, p: nat, o: Options, v: Value)
    requires PartsRoomy(o, v) && !Roomy(o, v) && Has(b, p, Encode(o, v))
    ensures ByteSize(b, p) == |Encode(o, v)| - 256 && 256 <= |Encode(o, v)| <= 261
  {
    hide Flatten, IndexedBytes, Has, FullSize, WidthCode, DataStart, Width, EncodeAll, EncodeMembers, SortedStarts,
      Starts, CompactFits;
    match v
    case Arr(_, elems) => ShortByOneByte(b, p, o, 0x06, EncodeAll(o, elems), Starts(EncodeAll(o, elems)));
    case Obj(_, members) =>
      var ms := EncodeMembers(o, members);
      ShortByOneByte(b, p, o, 0x0b, ms, SortedStarts(Keys(members), Starts(ms)));
  }

  /** Wherever the bytes of `v` or of a value inside stand, their size is announced. */
  ghost predicate SizesAnnounced(o: Options, v: Value)
    decreases v
  {
    && (forall b: seq<Byte>, p: nat :: Has(b, p, Encode(o, v)) ==> ByteSize(b, p) == |Encode(o, v)|)
    && match v
       case Arr(_, elems) => forall i :: 0 <= i < |elems| ==> SizesAnnounced(o, elems[i])
       case Obj(_, members) => forall i :: 0 <= i < |members| ==> SizesAnnounced(o, members[i].value)
       case _ => true
  }

  /** Sizes are announced at every depth exactly if every length fits the width chosen for it. */
  lemma {:induction false} RoomyExact(o: Options, v: Value)
    requires |Encode(o, v)| < Limit && UniqueKeys(v)
    ensures SizesAnnounced(o, v) <==> Roomy(o, v)
    decreases v
  {
    hide Encode, Has, ByteSize, ArrayRoom, ObjectRoom, Distinct, Reads;
    match v {
      case Arr(compact, elems) =>
        forall i | 0 <= i < |elems| ensures SizesAnnounced(o, elems[i]) <==> Roomy(o, elems[i]) {
          ElementFits(o, compact, elems, i);
          RoomyExact(o, elems[i]);
        }
      case Obj(compact, members) =>
        forall i | 0 <= i < |members| ensures SizesAnnounced(o, members[i].value) <==> Roomy(o, members[i].value) {
          PairFits(o, compact, members, i);
          RoomyExact(o, members[i].value);
        }
      case _ =>
    }
    if Roomy(o, v) {
      forall b: seq<Byte>, p: nat | Has(b, p, Encode(o, v)) ensures ByteSize(b, p) == |Encode(o, v)| {
        EncodingReadsBack(b, p, o, v);
      }
    } else if PartsRoomy(o, v) {
      HasItself(Encode(o, v));
      NoRoom(Encode(o, v), 0, o, v);
    }
  }

  lemma HasItself(s: seq<Byte>)
    ensures Has(s, 0, s)
  {
  }

  /** An array of a string of 235 characters and a null. */
  function Padded(): Value {
    Arr(false, [Str(Zeros(235)), Null])
  }

  lemma PaddedParts(o: Options)
    ensures var ms := EncodeAll(o, Padded().elems);
      |Flatten(ms)| == 245 && !SameSize(ms) && forall i :: 0 <= i < |ms| ==> |ms[i]| >= 1
  {
    hide Zeros, LE;
    var ms := EncodeAll(o, Padded().elems);
    assert |ms[0]| == 244 && |ms[1]| == 1;
    FlattenLength(ms);
    assert Start(ms, 2) == Start(ms, 1) + 1 && Start(ms, 1) == Start(ms, 0) + 244;
  }

  /** With padding in any case its length of 256 bytes is announced as 0. */
  lemma PaddedMisread(o: Options)
    requires o.padding == UsePadding && !o.unindexedArrays
    ensures |Encode(o, Padded())| == 256 && ByteSize(Encode(o, Padded()), 0) == 0
    ensures UniqueKeys(Padded()) && !Roomy(o, Padded())
  {
    hide Zeros, IndexedBytes, ByteSize, Flatten, EncodeAll, SameSize;
    var ms := EncodeAll(o, Padded().elems);
    PaddedParts(o);
    HasItself(Encode(o, Padded()));
    IndexedTotal(o, 0x06, ms, true, Starts(ms));
    NoRoom(Encode(o, Padded()), 0, o, Padded());
  }
}
