/** Checking bytes from an untrusted place: every finished value passes, and what passes is sound. */
module Validator {
  import opened Bytes
  import opened Format
  import opened Layout
  import opened Slice
  import opened RoundTrip
  import opened Validity
  import Utf8

  datatype Reason = InvalidLength | InvalidType | InvalidUtf8Sequence | NotImplemented | ExternalsDisallowed

  datatype Verdict = Valid | Invalid(reason: Reason)

  /** Bytes of the buffer from `p` on. */
  function Gap(b: seq<Byte>, p: nat): nat {
    if p <= |b| then |b| - p else 0
  }

  lemma GapShrinks(b: seq<Byte>, p: nat, q: nat)
    requires At(b, p) != 0 && q > p
    ensures Gap(b, q) < Gap(b, p)
  {
  }

  /** The little-endian number at `p`; bytes beyond the eighth do not count. */
  function ReadInt(b: seq<Byte>, p: int, w: nat): nat {
    ReadLE(b, p, w) % Limit
  }

  lemma ReadIntExact(b: seq<Byte>, p: int, w: nat)
    requires w <= 8
    ensures ReadInt(b, p, w) == ReadLE(b, p, w) < Limit
  {
    ReadLEBound(b, p, w);
  }

  lemma {:induction false} ZerosNumber(s: seq<Byte>)
    requires forall i :: 0 <= i < |s| ==> s[i] == 0
    ensures Number(s) == 0
  {
    if s != [] { ZerosNumber(s[1..]); }
  }

  lemma ReadIntOutside(b: seq<Byte>, p: nat, w: nat)
    requires p >= |b|
    ensures ReadInt(b, p, w) == 0
  {
    var s := Read(b, p, w);
    forall i | 0 <= i < w ensures s[i] == 0 { assert s[i] == At(b, p + i); }
    ZerosNumber(s);
  }

  // ---------------------------------------------------------------- pieces without state

  method ValidateBufferLength(expected: nat, actual: nat, isSubPart: bool) returns (r: Verdict)
    ensures r.Valid? <==> Fits(expected, actual, isSubPart)
  {
    if expected > actual || (expected != actual && !isSubPart) {
      return Invalid(InvalidLength);
    }
    return Valid;
  }

  lemma AddModulo(x: nat, g: nat, r: nat)
    ensures ((x + g) % Limit + r) % Limit == (x + (g + r)) % Limit
  {
  }

  method ReadVariableLengthValue(b: seq<Byte>, p: nat, end: nat, reverse: bool) returns (ok: bool, value: nat, q: int)
    requires p < end
    ensures ok <==> reverse || p + Span(b, p, false) <= end
    ensures ok ==> value == Groups(b, p, reverse, 0) % Limit
    ensures ok ==> q == if reverse then p - Span(b, p, true) else p + Span(b, p, false)
  {
    hide Group;
    var shifter := 0;
    value, q := 0, p;
    while true
      invariant (value + Groups(b, q, reverse, shifter)) % Limit == Groups(b, p, reverse, 0) % Limit
      invariant if reverse then q - Span(b, q, true) == p - Span(b, p, true) && q <= p
                else q + Span(b, q, false) == p + Span(b, p, false) && q < end
      decreases if reverse then q else |b| - q
    {
      var c := At(b, q);
      AddModulo(value, Group(c, shifter), if c < 0x80 then 0 else Groups(b, Ahead(q, reverse), reverse, shifter + 7));
      value := (value + Group(c, shifter)) % Limit;
      shifter := shifter + 7;
      q := Ahead(q, reverse);
      if c < 0x80 { break; }
      if q == end { return false, value, q; }
    }
    ok := true;
  }

  /** Past zero bytes, to `stop` or `end` at most. */
  method SkipPadding(b: seq<Byte>, first: nat, stop: int, end: nat) returns (q: nat)
    ensures q >= first && forall k :: first <= k < q ==> At(b, k) == 0
    ensures q < stop && q < end ==> At(b, q) != 0
    ensures q == first || (q <= stop && q <= end)
  {
    q := first;
    var e := if stop > end then end else stop;
    while q < e && At(b, q) == 0
      invariant first <= q && (q == first || q <= e) && forall k :: first <= k < q ==> At(b, k) == 0
    {
      q := q + 1;
    }
  }

  // ---------------------------------------------------------------- stepping over ready members

  lemma PlanStep(utf8: bool, pairs: bool, b: seq<Byte>, q: nat, ms: seq<seq<Byte>>, k: nat)
    requires ReadyAll(utf8, pairs, b, q, ms) && k < |ms|
    ensures Start(ms, k + 1) == Start(ms, k) + |ms[k]| <= |Flatten(ms)| && |ms[k]| >= 1
    ensures k + 1 == |ms| ==> Start(ms, k + 1) == |Flatten(ms)|
    ensures k + 1 < |ms| ==> Start(ms, k + 1) < |Flatten(ms)|
    ensures if pairs then ReadyPair(utf8, b, q + Start(ms, k), ms[k]) else Ready(utf8, b, q + Start(ms, k), ms[k])
  {
    hide Ready, ReadyPair, Start, Flatten;
    StartStep(ms, k);
  }

  lemma StartStep(ms: seq<seq<Byte>>, k: nat)
    requires k < |ms| && forall i :: 0 <= i < |ms| ==> |ms[i]| >= 1
    ensures Start(ms, k + 1) == Start(ms, k) + |ms[k]| <= |Flatten(ms)|
    ensures k + 1 == |ms| ==> Start(ms, k + 1) == |Flatten(ms)|
    ensures k + 1 < |ms| ==> Start(ms, k + 1) < |Flatten(ms)|
  {
    hide Flatten;
    FlattenLength(ms);
    StartMonotone(ms, k + 1, |ms|);
    if k + 1 < |ms| { StartMonotone(ms, k + 2, |ms|); }
  }

  /** The kind of slice a finished value is. */
  lemma FinishedKind(utf8: bool, o: Options, v: Value, b: seq<Byte>, p: nat)
    requires Built(utf8, o, v, b, p)
    ensures ByteSize(b, p) == |Encode(o, v)| && At(b, p) != 0
    ensures v.Arr? <==> TypeOf(At(b, p)) == TArray
    ensures v.Obj? <==> TypeOf(At(b, p)) == TObject
    ensures v.Str? <==> TypeOf(At(b, p)) == TString
    ensures v.Str? && utf8 ==> Utf8.WellFormed(GetString(b, p))
    ensures TypeOf(At(b, p)) !in {TNone, TBCD, TExternal, TCustom}
    ensures v.Arr? ==> (v.elems == [] <==> At(b, p) == 0x01)
    ensures v.Obj? ==> (v.members == [] <==> At(b, p) == 0x0a)
  {
    hide Encode, ReadLE, Has, UniqueKeys, NthOffset, ByteSize, Get, Utf8.WellFormed, Roomy;
    AcceptableIsRoomy(utf8, o, v);
    EncodingReadsBack(b, p, o, v);
    if v.Arr? {
      EmptyHead(b, p, |v.elems|, 0x01, 0x0a);
    } else if v.Obj? {
      EmptyHead(b, p, |v.members|, 0x0a, 0x01);
    }
    if v.Arr? && v.elems == [] { ArrayEmpty(o, v, b, p); }
    if v.Obj? && v.members == [] { ObjectEmpty(o, v, b, p); }
  }

  lemma EmptyHead(b: seq<Byte>, p: nat, n: nat, h: Byte, g: Byte)
    requires MemberCount(b, p) == Ok(n) && {h, g} == {0x01, 0x0a}
    ensures At(b, p) == h ==> n == 0
  {
    hide ReadLE, ByteSize, FindDataOffset;
  }

  lemma ArrayEmpty(o: Options, v: Value, b: seq<Byte>, p: nat)
    requires v.Arr? && v.elems == [] && Has(b, p, Encode(o, v))
    ensures At(b, p) == 0x01
  {
    HasBytes(b, p, Encode(o, v));
    assert At(b, p + 0) == Encode(o, v)[0];
  }

  lemma ObjectEmpty(o: Options, v: Value, b: seq<Byte>, p: nat)
    requires v.Obj? && v.members == [] && Has(b, p, Encode(o, v))
    ensures At(b, p) == 0x0a
  {
    HasBytes(b, p, Encode(o, v));
    assert At(b, p + 0) == Encode(o, v)[0];
  }

  // ---------------------------------------------------------------- what the loops establish

  /** Where the first member is found by the validator, the reader finds it too. */
  lemma FirstAgrees(b: seq<Byte>, p: nat, q: nat)
    requires var h := At(b, p); 0x02 <= h <= 0x09 || 0x0b <= h <= 0x0d
    requires var h, w := At(b, p), EntrySize(At(b, p));
      var header := 1 + (if h <= 0x05 || w == 8 then w else 2 * w);
      && (q == p + header || q == p + 9) && (q == p + header && header < 9 ==> At(b, q) != 0)
      && forall k :: p + header <= k < q ==> At(b, k) == 0
    ensures FindDataOffset(b, p) == q - p
  {
    hide ReadVar;
  }

  ghost predicate ItemsSound(utf8: bool, ext: bool, b: seq<Byte>, q: nat, size: nat, k: nat) {
    forall i :: 0 <= i < k ==> ItemSound(utf8, ext, b, q, size, i)
  }

  ghost predicate ItemSound(utf8: bool, ext: bool, b: seq<Byte>, q: nat, size: nat, i: nat) {
    ByteSize(b, q + i * size) == size && Sound(utf8, ext, b, q + i * size)
  }

  lemma {:induction false} WalkEqual(utf8: bool, ext: bool, b: seq<Byte>, p: nat, data: nat, size: nat, k: nat)
    requires ItemsSound(utf8, ext, b, p + data, size, k)
    ensures Walk(b, p, data, false, k) == data + k * size
  {
    hide Sound, ByteSize;
    if k > 0 {
      WalkEqual(utf8, ext, b, p, data, size, k - 1);
      WalkSnoc(b, p, data, false, k - 1);
      assert ItemSound(utf8, ext, b, p + data, size, k - 1);
      assert p + (data + (k - 1) * size) == p + data + (k - 1) * size;
      assert k * size == (k - 1) * size + size;
    }
  }

  lemma UnindexedSound(utf8: bool, ext: bool, b: seq<Byte>, p: nat, q: nat, n: nat)
    requires var h := At(b, p); 0x02 <= h <= 0x05
    requires q >= p && FindDataOffset(b, p) == q - p <= ByteSize(b, p)
    requires var size := ByteSize(b, q);
      size > 0 && n >= 1 && n == Div(ByteSize(b, p) - (q - p), size) && ItemsSound(utf8, ext, b, q, size, n)
    requires q > p
    ensures Sound(utf8, ext, b, p)
  {
    var size, data := ByteSize(b, q), q - p;
    hide Sound, SoundPart, MemberCount, FindDataOffset, NthOffset, Walk, ByteSize, MembersEnd, ItemsSound, Div;
    UnindexedCount(b, p, data);
    Division(ByteSize(b, p) - data, size);
    WalkEqual(utf8, ext, b, p, data, size, n);
    forall i | 0 <= i < n
      ensures NthOffset(b, p, i) == Ok(MemberAt(b, p, false, i)) && SoundPart(utf8, ext, b, p, MemberAt(b, p, false, i))
    {
      ItemPart(utf8, ext, b, p, data, size, n, i);
      UnindexedNth(b, p, data, i);
    }
    ArrayConclude(utf8, ext, b, p);
  }

  lemma ItemPart(utf8: bool, ext: bool, b: seq<Byte>, p: nat, data: nat, size: nat, n: nat, i: nat)
    requires i < n && data > 0 && ItemsSound(utf8, ext, b, p + data, size, n)
    requires MembersEnd(b, p) == data + n * size <= ByteSize(b, p)
    ensures Walk(b, p, data, false, i) == data + i * size && SoundPart(utf8, ext, b, p, data + i * size)
  {
    hide Sound, MembersEnd, Walk, ByteSize;
    assert ItemsSound(utf8, ext, b, p + data, size, i) && ItemSound(utf8, ext, b, p + data, size, i);
    WalkEqual(utf8, ext, b, p, data, size, i);
    MulLe(i + 1, n, size);
    assert (i + 1) * size == i * size + size;
    assert p + data + i * size == p + (data + i * size);
  }

  lemma ArrayConclude(utf8: bool, ext: bool, b: seq<Byte>, p: nat)
    requires TypeOf(At(b, p)) == TArray && ListedArray(b, p) && Tiled(b, p, false)
    requires forall i :: 0 <= i < Count(b, p) ==>
      NthOffset(b, p, i) == Ok(MemberAt(b, p, false, i)) && SoundPart(utf8, ext, b, p, MemberAt(b, p, false, i))
    ensures Sound(utf8, ext, b, p)
  {
    hide SoundPart, Tiled, NthOffset, MemberAt, Count, Tidy;
  }

  lemma Division(x: nat, d: nat)
    requires d > 0
    ensures Div(x, d) * d <= x < Div(x, d) * d + d
  {
  }

  lemma UnindexedCount(b: seq<Byte>, p: nat, data: nat)
    requires var h := At(b, p); 0x02 <= h <= 0x05
    requires FindDataOffset(b, p) == data <= ByteSize(b, p) && ByteSize(b, p + data) > 0
    ensures MemberCount(b, p) == Ok(Div(ByteSize(b, p) - data, ByteSize(b, p + data)))
    ensures MembersEnd(b, p) == data + Count(b, p) * ByteSize(b, p + data)
  {
    hide FindDataOffset, ReadLE, ReadVar, ReadVarRev, ByteSize;
    FixedSize(b, p);
  }

  lemma FixedSize(b: seq<Byte>, p: nat)
    requires var h := At(b, p); 0x02 <= h <= 0x09 || 0x0b <= h <= 0x0d
    ensures ByteSize(b, p) == ReadLE(b, p + 1, EntrySize(At(b, p)))
  {
    hide ReadLE, ReadVar;
    ReadLEBound(b, p + 1, EntrySize(At(b, p)));
  }

  lemma UnindexedNth(b: seq<Byte>, p: nat, data: nat, i: nat)
    requires var h := At(b, p); 0x02 <= h <= 0x05
    requires FindDataOffset(b, p) == data && MemberCount(b, p).Ok? && i < MemberCount(b, p).value
    ensures NthOffset(b, p, i) == Ok(data + i * ByteSize(b, p + data))
  {
    hide FindDataOffset, MemberCount, ByteSize, ReadVar;
  }

  lemma IndexedFields(b: seq<Byte>, p: nat, n: nat)
    requires var h := At(b, p); 0x06 <= h <= 0x08 || 0x0b <= h <= 0x0d
    requires n == ReadLE(b, p + 1 + EntrySize(At(b, p)), EntrySize(At(b, p)))
    ensures MemberCount(b, p) == Ok(n) && Count(b, p) == n
    ensures MembersEnd(b, p) == TableBase(b, p) == ByteSize(b, p) - n * EntrySize(At(b, p))
  {
    hide ReadLE, ReadVar, ReadVarRev, ByteSize, FindDataOffset, EntrySize;
    FixedSize(b, p);
    NarrowEntries(b, p);
  }

  lemma NarrowEntries(b: seq<Byte>, p: nat)
    requires var h := At(b, p); 0x06 <= h <= 0x08 || 0x0b <= h <= 0x0d
    ensures EntrySize(At(b, p)) in {1, 2, 4}
  {
  }

  lemma IndexedNth(b: seq<Byte>, p: nat, i: nat)
    requires var h := At(b, p); 0x06 <= h <= 0x09 || 0x0b <= h <= 0x0d
    requires i < Count(b, p)
    ensures NthOffset(b, p, i)
      == Ok(if Count(b, p) == 1 then FindDataOffset(b, p)
        else ReadLE(b, p + TableBase(b, p) + i * EntrySize(At(b, p)), EntrySize(At(b, p))))
  {
    hide ReadLE, ReadVar, ReadVarRev, ByteSize, FindDataOffset, EntrySize, MemberCount, TableBase;
  }

  /** Array member `i` as the validator found it. */
  ghost predicate ListPart(utf8: bool, ext: bool, b: seq<Byte>, p: nat, data: nat, end: int, i: nat) {
    var q := Walk(b, p, data, false, i);
    q >= data && q + ByteSize(b, p + q) <= end && Sound(utf8, ext, b, p + q)
  }

  ghost predicate ListParts(utf8: bool, ext: bool, b: seq<Byte>, p: nat, data: nat, end: int, n: nat) {
    forall i :: 0 <= i < n ==> ListPart(utf8, ext, b, p, data, end, i)
  }

  /** The same, with its entry in the index table. */
  ghost predicate ArrayPart(utf8: bool, ext: bool, b: seq<Byte>, p: nat, data: nat, end: int, w: nat, i: nat) {
    ListPart(utf8, ext, b, p, data, end, i) && ReadLE(b, p + end + i * w, w) == Walk(b, p, data, false, i)
  }

  ghost predicate ArrayParts(utf8: bool, ext: bool, b: seq<Byte>, p: nat, data: nat, end: int, w: nat, n: nat) {
    forall i :: 0 <= i < n ==> ArrayPart(utf8, ext, b, p, data, end, w, i)
  }

  lemma IndexedArraySound(utf8: bool, ext: bool, b: seq<Byte>, p: nat, data: nat, end: int, w: nat, n: nat)
    requires var h := At(b, p); 0x06 <= h <= 0x08
    requires data >= 1 && FindDataOffset(b, p) == data && w == EntrySize(At(b, p))
    requires n >= 1 && n == ReadLE(b, p + 1 + w, w) && end == ByteSize(b, p) - n * w
    requires Walk(b, p, data, false, n) == end
    requires ArrayParts(utf8, ext, b, p, data, end, w, n)
    ensures Sound(utf8, ext, b, p)
  {
    hide Sound, MemberCount, FindDataOffset, NthOffset, Walk, ByteSize, MembersEnd, EntrySize, TableBase, Count,
      ReadLE, ArrayPart, SoundPart;
    IndexedFields(b, p, n);
    forall i | 0 <= i < n
      ensures NthOffset(b, p, i) == Ok(MemberAt(b, p, false, i)) && SoundPart(utf8, ext, b, p, MemberAt(b, p, false, i))
    {
      ArrayPartIsSound(utf8, ext, b, p, data, n, i);
    }
    ArrayConclude(utf8, ext, b, p);
  }

  lemma ArrayPartIsSound(utf8: bool, ext: bool, b: seq<Byte>, p: nat, data: nat, n: nat, i: nat)
    requires var h := At(b, p); 0x06 <= h <= 0x09
    requires data >= 1 && FindDataOffset(b, p) == data && i < n == Count(b, p)
    requires MembersEnd(b, p) == TableBase(b, p) <= ByteSize(b, p)
    requires ArrayPart(utf8, ext, b, p, data, TableBase(b, p), EntrySize(At(b, p)), i)
    ensures NthOffset(b, p, i) == Ok(MemberAt(b, p, false, i)) && SoundPart(utf8, ext, b, p, MemberAt(b, p, false, i))
  {
    hide Sound, MemberCount, FindDataOffset, NthOffset, Walk, ByteSize, MembersEnd, EntrySize, TableBase, Count, ReadLE;
    IndexedNth(b, p, i);
    if n == 1 { WalkZero(b, p, data, false); }
  }

  lemma WalkZero(b: seq<Byte>, p: nat, data: nat, pairs: bool)
    ensures Walk(b, p, data, pairs, 0) == data
  {
  }

  /** Pair `i` of an object as the validator found it. */
  ghost predicate ObjectPart(utf8: bool, ext: bool, b: seq<Byte>, p: nat, data: nat, end: int, i: nat) {
    var q := Walk(b, p, data, true, i);
    var v := q + ByteSize(b, p + q);
    && q >= data && IsKey(At(b, p + q)) && v + ByteSize(b, p + v) <= end
    && Sound(utf8, ext, b, p + q) && Sound(utf8, ext, b, p + v)
  }

  ghost predicate ObjectParts(utf8: bool, ext: bool, b: seq<Byte>, p: nat, data: nat, end: int, n: nat) {
    forall i :: 0 <= i < n ==> ObjectPart(utf8, ext, b, p, data, end, i)
  }

  ghost predicate EntriesFound(b: seq<Byte>, p: nat, data: nat, end: int, w: nat, n: nat) {
    forall i :: 0 <= i < n ==> EntryFound(b, p, data, end, w, n, i)
  }

  ghost predicate EntryFound(b: seq<Byte>, p: nat, data: nat, end: int, w: nat, n: nat, i: nat) {
    exists j :: 0 <= j < n && ReadLE(b, p + end + i * w, w) == Walk(b, p, data, true, j)
  }

  ghost predicate EntriesDiffer(b: seq<Byte>, base: int, w: nat, n: nat) {
    forall i, j :: 0 <= i < j < n ==> ReadLE(b, base + i * w, w) != ReadLE(b, base + j * w, w)
  }

  lemma ObjectSound(utf8: bool, ext: bool, b: seq<Byte>, p: nat, data: nat, end: int, w: nat, n: nat)
    requires var h := At(b, p); 0x0b <= h <= 0x0d
    requires data >= 1 && FindDataOffset(b, p) == data && w == EntrySize(At(b, p))
    requires n >= 1 && n == ReadLE(b, p + 1 + w, w) && end == ByteSize(b, p) - n * w
    requires Walk(b, p, data, true, n) == end
    requires ObjectParts(utf8, ext, b, p, data, end, n) && EntriesFound(b, p, data, end, w, n)
    requires n > 128 ==> EntriesDiffer(b, p + end, w, n)
    ensures Sound(utf8, ext, b, p)
  {
    hide Sound, MemberCount, FindDataOffset, NthOffset, Walk, ByteSize, EntrySize, Count, ReadLE, IsKey, ObjectPart,
      EntriesFound, EntriesDiffer, TableSound, TableBase, MembersEnd;
    IndexedFields(b, p, n);
    ObjectTable(b, p, data, n);
    forall i | 0 <= i < n
      ensures var q := MemberAt(b, p, true, i);
              IsKey(At(b, p + q)) && SoundPart(utf8, ext, b, p, q) && SoundPart(utf8, ext, b, p, q + ByteSize(b, p + q))
    {
      assert ObjectPart(utf8, ext, b, p, data, end, i);
      ObjectPartIsSound(utf8, ext, b, p, data, i);
    }
    ObjectConclude(utf8, ext, b, p);
  }

  lemma ObjectPartIsSound(utf8: bool, ext: bool, b: seq<Byte>, p: nat, data: nat, i: nat)
    requires data >= 1 && FindDataOffset(b, p) == data && MembersEnd(b, p) <= ByteSize(b, p)
    requires ObjectPart(utf8, ext, b, p, data, MembersEnd(b, p), i)
    ensures var q := MemberAt(b, p, true, i);
            IsKey(At(b, p + q)) && SoundPart(utf8, ext, b, p, q) && SoundPart(utf8, ext, b, p, q + ByteSize(b, p + q))
  {
    hide Sound, FindDataOffset, Walk, ByteSize, IsKey, MembersEnd;
  }

  lemma ObjectTable(b: seq<Byte>, p: nat, data: nat, n: nat)
    requires var h := At(b, p); 0x0b <= h <= 0x0d
    requires FindDataOffset(b, p) == data && Count(b, p) == n
    requires var end, w := TableBase(b, p), EntrySize(At(b, p));
      && EntriesFound(b, p, data, end, w, n)
      && (n > 128 ==> EntriesDiffer(b, p + end, w, n))
    ensures TableSound(b, p)
  {
    hide FindDataOffset, NthOffset, EntrySize, Count, ReadLE, EntryFound, IsStart, TableBase;
    forall i | 0 <= i < n ensures IsStart(b, p, NthOffset(b, p, i)) {
      EntryIsStart(b, p, data, n, i);
    }
    if n > 128 {
      forall i, j | 0 <= i < j < n ensures NthOffset(b, p, i) != NthOffset(b, p, j) {
        IndexedNth(b, p, i);
        IndexedNth(b, p, j);
      }
    }
  }

  lemma EntryIsStart(b: seq<Byte>, p: nat, data: nat, n: nat, i: nat)
    requires var h := At(b, p); 0x0b <= h <= 0x0d
    requires i < n == Count(b, p) && FindDataOffset(b, p) == data
    requires EntryFound(b, p, data, TableBase(b, p), EntrySize(At(b, p)), n, i)
    ensures IsStart(b, p, NthOffset(b, p, i))
  {
    hide FindDataOffset, NthOffset, Walk, EntrySize, TableBase, Count, ReadLE;
    IndexedNth(b, p, i);
    if n == 1 {
      WalkZero(b, p, data, true);
      assert NthOffset(b, p, i) == Ok(MemberAt(b, p, true, 0));
    } else {
      var j :| 0 <= j < n && ReadLE(b, p + TableBase(b, p) + i * EntrySize(At(b, p)), EntrySize(At(b, p)))
        == Walk(b, p, data, true, j);
      assert NthOffset(b, p, i) == Ok(MemberAt(b, p, true, j));
    }
  }

  lemma ObjectConclude(utf8: bool, ext: bool, b: seq<Byte>, p: nat)
    requires TypeOf(At(b, p)) == TObject && ListedObject(b, p)
    requires Tiled(b, p, true) && TableSound(b, p)
    requires forall i :: 0 <= i < Count(b, p) ==>
      var q := MemberAt(b, p, true, i);
      IsKey(At(b, p + q)) && SoundPart(utf8, ext, b, p, q) && SoundPart(utf8, ext, b, p, q + ByteSize(b, p + q))
    ensures Sound(utf8, ext, b, p)
  {
    hide SoundPart, Tiled, TableSound, IsKey, MemberAt, Count, ByteSize, Tidy;
  }

  // ---------------------------------------------------------------- the index of an object

  ghost predicate Increasing(table: seq<nat>) {
    forall i, j :: 0 <= i < j < |table| ==> table[i] < table[j]
  }

  /** Each of the `n` offsets in the index is in the table; the table is searched by halving. */
  method CheckOffsets(b: seq<Byte>, indexTable: nat, w: nat, n: nat, table: array<nat>) returns (r: Verdict)
    requires n <= table.Length
    ensures r.Valid? ==> forall i :: 0 <= i < n ==> ReadInt(b, indexTable + i * w, w) in table[..n]
    ensures Increasing(table[..n]) && (forall i :: 0 <= i < n ==> ReadInt(b, indexTable + i * w, w) in table[..n]) ==>
      r.Valid?
  {
    hide ReadInt;
    var pos := 0;
    while pos < n
      invariant pos <= n && forall i :: 0 <= i < pos ==> ReadInt(b, indexTable + i * w, w) in table[..n]
    {
      var offset := ReadInt(b, indexTable + pos * w, w);
      var low, high, found := 0, n, false;
      while low < high && !found
        invariant 0 <= low <= high <= n && (found ==> offset in table[..n])
        invariant !found && Increasing(table[..n]) ==>
                    forall i :: 0 <= i < n && (i < low || i >= high) ==> table[..n][i] != offset
        decreases high - low, !found
      {
        var mid := (low + high) / 2;
        assert table[..n][mid] == table[mid];
        if offset == table[mid] {
          found := true;
        } else if offset < table[mid] {
          high := mid;
        } else {
          low := mid + 1;
        }
      }
      if !found { return Invalid(InvalidLength); }
      pos := pos + 1;
    }
    r := Valid;
  }

  /** The same with a set, from which each offset found is taken away. */
  method TakeOffsets(b: seq<Byte>, indexTable: nat, w: nat, n: nat, starts: set<nat>) returns (r: Verdict)
    ensures r.Valid? ==> forall i :: 0 <= i < n ==> ReadInt(b, indexTable + i * w, w) in starts
    ensures r.Valid? ==> forall i, j :: 0 <= i < j < n ==>
      ReadInt(b, indexTable + i * w, w) != ReadInt(b, indexTable + j * w, w)
    ensures (forall i :: 0 <= i < n ==> ReadInt(b, indexTable + i * w, w) in starts)
      && (forall i, j :: 0 <= i < j < n ==> ReadInt(b, indexTable + i * w, w) != ReadInt(b, indexTable + j * w, w))
      ==> r.Valid?
  {
    hide ReadInt;
    var left, pos := starts, 0;
    while pos < n
      invariant pos <= n && left <= starts
      invariant forall i :: 0 <= i < pos ==>
        ReadInt(b, indexTable + i * w, w) in starts && ReadInt(b, indexTable + i * w, w) !in left
      invariant forall i, j :: 0 <= i < j < pos ==>
        ReadInt(b, indexTable + i * w, w) != ReadInt(b, indexTable + j * w, w)
      invariant forall x :: x in starts && x !in left ==>
        exists i :: 0 <= i < pos && ReadInt(b, indexTable + i * w, w) == x
    {
      var offset := ReadInt(b, indexTable + pos * w, w);
      if offset !in left { return Invalid(InvalidLength); }
      left := left - {offset};
      pos := pos + 1;
    }
    r := Valid;
  }

  lemma HeadWidth(h: Byte)
    ensures 0x02 <= h <= 0x05 ==> Pow2(h - 0x02) == EntrySize(h)
    ensures 0x06 <= h <= 0x09 ==> Pow2(h - 0x06) == EntrySize(h)
    ensures 0x0b <= h <= 0x0e ==> Pow2(h - 0x0b) == EntrySize(h)
    ensures 0x02 <= h <= 0x09 || 0x0b <= h <= 0x0e ==> EntrySize(h) in {1, 2, 4, 8}
    ensures h == 0x05 || h == 0x09 || h == 0x0e <==> EntrySize(h) == 8 && h != 0x12
  {
    assert Pow2(0) == 1 && Pow2(1) == 2 && Pow2(2) == 4 && Pow2(3) == 8;
  }

  lemma CompactFacts(utf8: bool, pairs: bool, b: seq<Byte>, p: nat, ms: seq<seq<Byte>>, length: nat)
    requires CompactPlan(utf8, pairs, b, p, ms) && CompactLength(|Flatten(ms)|, |ms|) <= length
    ensures var size := CompactLength(|Flatten(ms)|, |ms|);
      && 4 <= size <= length && Groups(b, p + 1, false, 0) % Limit == size
      && p + 1 + Span(b, p + 1, false) == p + 1 + VarLen(size) <= p + 1 + length
      && Groups(b, p + size - 1, true, 0) % Limit == |ms| >= 1
      && p + size - Span(b, p + size - 1, true) == p + 1 + VarLen(size) + |Flatten(ms)|
      && ReadyAll(utf8, pairs, b, p + 1 + VarLen(size), ms)
      && Start(ms, 0) == 0
      && (pairs ==> size >= 5)
  {
    hide Groups, Span, CompactLength, VarLen, Flatten, ReadyAll, Start;
    StartZero(ms);
    SomeMembers(utf8, pairs, b, p + 1 + VarLen(CompactLength(|Flatten(ms)|, |ms|)), ms);
  }

  lemma SomeMembers(utf8: bool, pairs: bool, b: seq<Byte>, q: nat, ms: seq<seq<Byte>>)
    requires ReadyAll(utf8, pairs, b, q, ms)
    ensures |ms| >= 1 && |Flatten(ms)| >= if pairs then 2 else 1
  {
    hide Flatten, Finished, ByteSize, IsKey, Start;
    PlanStep(utf8, pairs, b, q, ms, 0);
  }

  lemma UnindexedFacts(utf8: bool, b: seq<Byte>, p: nat, w: nat, data: nat, ms: seq<seq<Byte>>)
    requires FixedPlan(utf8, false, false, b, p, w, data, ms, []) && SameSize(ms)
    ensures w in {1, 2, 4, 8} && (data == 1 + w || data == 9) && ms != [] && |Flatten(ms)| >= 1
    ensures ReadLE(b, p + 1, w) == data + |Flatten(ms)|
    ensures forall q :: p + 1 + w <= q < p + data ==> At(b, q) == 0
    ensures ReadyAll(utf8, false, b, p + data, ms) && At(b, p + data) != 0
    ensures Ready(utf8, b, p + data, ms[0])
    ensures 1 <= |ms[0]| <= |Flatten(ms)| && ByteSize(b, p + data) == |ms[0]| < Limit
    ensures Div(|Flatten(ms)|, |ms[0]|) == |ms|
  {
    hide Flatten, ReadLE, Finished, ByteSize, Start;
    PlanStep(utf8, false, b, p + data, ms, 0);
    StartZero(ms);
    SameSizeStarts(ms);
    DivMul(|ms|, |ms[0]|);
    MulLe(1, |ms|, |ms[0]|);
  }

  lemma StartZero(ms: seq<seq<Byte>>)
    ensures Start(ms, 0) == 0
  {
  }

  lemma ItemStep(utf8: bool, b: seq<Byte>, q: nat, ms: seq<seq<Byte>>, k: nat, room: int)
    requires ReadyAll(utf8, false, b, q, ms) && SameSize(ms) && k < |ms| && room >= |Flatten(ms)| - Start(ms, k)
    ensures ByteSize(b, q + Start(ms, k)) == |ms[0]| >= 1 && Start(ms, k + 1) == Start(ms, k) + |ms[0]| <= |Flatten(ms)|
    ensures Finished(utf8, b, q + Start(ms, k), room, true)
  {
    hide Flatten, Finished, Start, ByteSize, ReadyAll, Ready;
    PlanStep(utf8, false, b, q, ms, k);
    ReadyRoom(utf8, b, q + Start(ms, k), ms[k], room);
  }

  lemma FirstEnds(utf8: bool, b: seq<Byte>, q: nat, ms: seq<seq<Byte>>)
    requires ms != [] && ReadyAll(utf8, false, b, q, ms)
    ensures Start(ms, 1) == |ms[0]|
  {
    hide Flatten, Start, ReadyAll, Ready;
    PlanStep(utf8, false, b, q, ms, 0);
    StartZero(ms);
  }

  lemma ReadyRoom(utf8: bool, b: seq<Byte>, q: nat, m: seq<Byte>, room: int)
    requires Ready(utf8, b, q, m) && |m| <= room
    ensures ByteSize(b, q) == |m| >= 1 && Finished(utf8, b, q, room, true)
  {
    hide Finished, ByteSize;
  }

  lemma FirstItem(utf8: bool, ext: bool, b: seq<Byte>, q: nat, size: nat)
    ensures Sound(utf8, ext, b, q) && ByteSize(b, q) == size ==> ItemsSound(utf8, ext, b, q, size, 1)
  {
    hide Sound, ByteSize;
  }

  lemma NextItem(utf8: bool, ext: bool, b: seq<Byte>, q: nat, size: nat, k: nat)
    requires ItemsSound(utf8, ext, b, q, size, k)
    requires ByteSize(b, q + k * size) == size && Sound(utf8, ext, b, q + k * size)
    ensures ItemsSound(utf8, ext, b, q, size, k + 1)
  {
    hide Sound, ByteSize;
  }

  /** What a ready pair promises in the room it has. */
  lemma PairRooms(utf8: bool, b: seq<Byte>, q: nat, m: seq<Byte>, room: nat)
    requires ReadyPair(utf8, b, q, m) && |m| <= room
    ensures var k := ByteSize(b, q);
      && IsKey(At(b, q)) && k < |m| && ByteSize(b, q + k) == |m| - k
      && Finished(utf8, b, q, room, true) && Finished(utf8, b, q + k, room - k, true)
  {
    hide Finished, ByteSize, IsKey;
  }

  lemma IndexedFacts(utf8: bool, pairs: bool, b: seq<Byte>, p: nat, w: nat, data: nat, ms: seq<seq<Byte>>,
      offs: seq<nat>)
    requires FixedPlan(utf8, pairs, true, b, p, w, data, ms, offs)
    ensures w in {1, 2, 4, 8} && (data == 9 || (w < 4 && data == 1 + 2 * w)) && 1 <= |ms| <= |Flatten(ms)|
    ensures ReadLE(b, p + 1, w) == data + |Flatten(ms)| + |ms| * w + (if w == 8 then 8 else 0) < Limit
    ensures w < 8 ==> ReadLE(b, p + 1 + w, w) == |ms| && forall q :: p + 1 + 2 * w <= q < p + data ==> At(b, q) == 0
    ensures w == 8 ==> ReadLE(b, p + ReadLE(b, p + 1, w) - 8, 8) == |ms|
    ensures ReadyAll(utf8, pairs, b, p + data, ms) && At(b, p + data) != 0
    ensures |offs| == |ms| && forall i :: 0 <= i < |ms| ==>
      ReadLE(b, p + data + |Flatten(ms)| + i * w, w) == data + offs[i]
  {
    hide Flatten, ReadLE, Finished, ByteSize, Start, IsKey;
    PlanStep(utf8, pairs, b, p + data, ms, 0);
    StartZero(ms);
    assert ReadLE(b, p + 1, w) == IndexedLength(data, w, |Flatten(ms)|, true, |ms|);
  }

  lemma NoTableWrap(b: seq<Byte>, p: int, w: nat)
    requires w in {1, 2, 4}
    ensures ReadLE(b, p, w) * w % Limit == ReadLE(b, p, w) * w
  {
    NumberBound(Read(b, p, w));
    Pow256Values();
  }

  lemma OneByteLength(b: seq<Byte>, p: nat)
    ensures ReadLE(b, p, 1) == At(b, p) && Pow2(0) == 1
  {
    assert Read(b, p, 1)[1..] == [];
    assert Number([]) == 0;
  }

  /** What validating a lone string comes to, step by step. */
  lemma LoneFacts(utf8: bool, b: seq<Byte>, p: nat, length: nat)
    requires LoneString(utf8, b, p, length)
    ensures At(b, p) == 0x02 && EntrySize(0x02) == 1 && Pow2(0) == 1 && TypeOf(0xbf) == TString
    ensures ReadLE(b, p + 1, 1) == At(b, p + 1) && 3 <= At(b, p + 1) <= length && At(b, p + 2) == 0xbf
    ensures StringAccepted(utf8, b, p + 2, length - 2) && Fits(ByteSize(b, p + 2), length - 2, true)
    ensures ByteSize(b, p + 2) > 0 && Div(At(b, p + 1) - 2, ByteSize(b, p + 2)) == 1
  {
    hide ByteSize, Utf8.WellFormed, GetString;
    OneByteLength(b, p + 1);
  }

  lemma WideFields(b: seq<Byte>, p: nat, n: nat)
    requires At(b, p) == 0x09 && n == ReadLE(b, p + ByteSize(b, p) - 8, 8)
    ensures EntrySize(0x09) == 8 && MemberCount(b, p) == Ok(n) && Count(b, p) == n
    ensures MembersEnd(b, p) == TableBase(b, p) == ByteSize(b, p) - n * 8 - 8
  {
    hide ReadLE, ReadVar, ReadVarRev, ByteSize, FindDataOffset;
    FixedSize(b, p);
  }

  /** In an 8-byte array the number of members stands at the end. */
  lemma WideArraySound(utf8: bool, ext: bool, b: seq<Byte>, p: nat, end: int, n: nat)
    requires At(b, p) == 0x09 && FindDataOffset(b, p) == 9
    requires n >= 1 && n == ReadLE(b, p + ByteSize(b, p) - 8, 8) && end == ByteSize(b, p) - 8 - n * 8 % Limit
    requires Walk(b, p, 9, false, n) == end
    requires ArrayParts(utf8, ext, b, p, 9, end, 8, n)
    ensures Sound(utf8, ext, b, p)
  {
    hide Sound, MemberCount, FindDataOffset, NthOffset, Walk, ByteSize, MembersEnd, EntrySize, TableBase, Count,
      ReadLE, ArrayPart, SoundPart;
    WideFields(b, p, n);
    if n * 8 < Limit {
      forall i | 0 <= i < n
        ensures NthOffset(b, p, i) == Ok(MemberAt(b, p, false, i))
        ensures SoundPart(utf8, ext, b, p, MemberAt(b, p, false, i))
      {
        ArrayPartIsSound(utf8, ext, b, p, 9, n, i);
      }
      ArrayConclude(utf8, ext, b, p);
    } else {
      UnlistedSound(utf8, ext, b, p);
    }
  }

  /** Where the validator looks for the members of an array with a table. */
  ghost predicate ItemsAt(b: seq<Byte>, p: nat, first: nat, table: int, w: nat, n: nat) {
    && first > p && FindDataOffset(b, p) == first - p && n >= 1 && table - p <= ByteSize(b, p)
    && (w < 8 ==> n == ReadLE(b, p + 1 + w, w) && table == p + ByteSize(b, p) - n * w)
    && (w == 8 ==>
         && n == ReadLE(b, p + ByteSize(b, p) - 8, 8) && first == p + 9
         && table == p + ByteSize(b, p) - 8 - n * 8 % Limit)
  }

  /** Header, members and table of a finished array of `byteSize` bytes. */
  ghost predicate BodyAt(b: seq<Byte>, p: nat, byteSize: nat, w: nat, data: nat, body: nat) {
    var n := ReadLE(b, if w < 8 then p + 1 + w else p + byteSize - 8, w);
    && n >= 1 && byteSize == data + body + n * w + (if w == 8 then 8 else 0) < Limit
    && (data == 9 || (w < 4 && data == 1 + 2 * w))
    && (w < 8 ==> forall k :: p + 1 + 2 * w <= k < p + data ==> At(b, k) == 0)
    && At(b, p + data) != 0
  }

  lemma BodyFields(b: seq<Byte>, p: nat, byteSize: nat, w: nat, data: nat, body: nat)
    requires BodyAt(b, p, byteSize, w, data, body) && w in {1, 2, 4, 8}
    ensures At(b, p + data) != 0
    ensures w == 8 ==>
      && data == 9 && ReadLE(b, p + byteSize - 8, 8) >= 1
      && byteSize == 9 + body + ReadLE(b, p + byteSize - 8, 8) * 8 % Limit + 8
    ensures w < 8 ==>
      && (data == 9 || data == 1 + 2 * w) && ReadLE(b, p + 1 + w, w) >= 1
      && byteSize == data + body + ReadLE(b, p + 1 + w, w) * w % Limit
      && forall k :: p + 1 + 2 * w <= k < p + data ==> At(b, k) == 0
  {
    hide ReadLE;
    if w < 8 { NoTableWrap(b, p + 1 + w, w); }
  }

  lemma ItemsFields(b: seq<Byte>, p: nat, first: nat, table: int, w: nat, n: nat)
    requires 0x06 <= At(b, p) <= 0x09 && w == EntrySize(At(b, p)) && w in {1, 2, 4, 8} && (w == 8 <==> At(b, p) == 0x09)
    requires var byteSize := ReadLE(b, p + 1, w);
      if w == 8 then
        && n == ReadLE(b, p + byteSize - 8, 8) >= 1 && first == p + 9 && table == p + byteSize - 8 - n * 8 % Limit
      else
        && n == ReadLE(b, p + 1 + w, w) >= 1 && table == p + byteSize - n * w % Limit
        && (first == p + 1 + 2 * w || first == p + 9) && (forall k :: p + 1 + 2 * w <= k < first ==> At(b, k) == 0)
        && (first == p + 1 + 2 * w < p + 9 && n * w < Limit ==> At(b, first) != 0)
    ensures ItemsAt(b, p, first, table, w, n) && first > p && n >= 1 && table - p <= ReadLE(b, p + 1, w)
  {
    hide ReadLE, EntrySize, FindDataOffset, ByteSize;
    FixedSize(b, p);
    if w < 8 { NoTableWrap(b, p + 1 + w, w); }
    FirstAgrees(b, p, first);
  }

  lemma ItemsListed(utf8: bool, ext: bool, b: seq<Byte>, p: nat, first: nat, table: int, w: nat, n: nat)
    requires 0x06 <= At(b, p) <= 0x09 && w == EntrySize(At(b, p)) && (w == 8 <==> At(b, p) == 0x09) && w <= 8
    requires ItemsAt(b, p, first, table, w, n)
    requires Walk(b, p, first - p, false, n) == table - p
    requires ArrayParts(utf8, ext, b, p, first - p, table - p, w, n)
    ensures Sound(utf8, ext, b, p)
  {
    hide FindDataOffset, ByteSize, ReadLE, EntrySize, ArrayParts, Walk, Sound;
    if w < 8 {
      IndexedArraySound(utf8, ext, b, p, first - p, table - p, w, n);
    } else {
      WideArraySound(utf8, ext, b, p, table - p, n);
    }
  }

  lemma UnlistedSound(utf8: bool, ext: bool, b: seq<Byte>, p: nat)
    requires TypeOf(At(b, p)) in {TArray, TObject} && !ListedArray(b, p) && !ListedObject(b, p)
    ensures Sound(utf8, ext, b, p)
  {
    hide Count, Tidy;
  }

  lemma StartAll(ms: seq<seq<Byte>>)
    ensures Start(ms, |ms|) == |Flatten(ms)|
  {
    FlattenLength(ms);
  }

  lemma ListStep(utf8: bool, ext: bool, b: seq<Byte>, p: nat, data: nat, end: int, k: nat)
    requires var q := Walk(b, p, data, false, k);
      q >= data && Sound(utf8, ext, b, p + q) && q + ByteSize(b, p + q) <= end
    ensures ListPart(utf8, ext, b, p, data, end, k)
    ensures Walk(b, p, data, false, k + 1) == Walk(b, p, data, false, k) + ByteSize(b, p + Walk(b, p, data, false, k))
  {
    hide Sound, ByteSize;
    WalkSnoc(b, p, data, false, k);
  }

  lemma ArrayStep(utf8: bool, ext: bool, b: seq<Byte>, p: nat, data: nat, end: int, w: nat, k: nat)
    requires var q := Walk(b, p, data, false, k);
      && q >= data && Sound(utf8, ext, b, p + q) && q + ByteSize(b, p + q) <= end && ReadLE(b, p + end + k * w, w) == q
    ensures ArrayPart(utf8, ext, b, p, data, end, w, k)
    ensures Walk(b, p, data, false, k + 1) == Walk(b, p, data, false, k) + ByteSize(b, p + Walk(b, p, data, false, k))
  {
    hide Sound, ByteSize, ReadLE, Walk;
    ListStep(utf8, ext, b, p, data, end, k);
  }

  lemma OtherObjectSound(utf8: bool, ext: bool, b: seq<Byte>, p: nat)
    requires 0x0e <= At(b, p) <= 0x12
    ensures Sound(utf8, ext, b, p)
  {
  }

  lemma NoParts(utf8: bool, ext: bool, b: seq<Byte>, p: nat, data: nat, end: int)
    ensures ObjectParts(utf8, ext, b, p, data, end, 0)
  {
  }

  lemma ObjectStep(utf8: bool, ext: bool, b: seq<Byte>, p: nat, data: nat, end: int, k: nat)
    requires var q := Walk(b, p, data, true, k);
      var v := q + ByteSize(b, p + q);
      && q >= data && IsKey(At(b, p + q)) && v + ByteSize(b, p + v) <= end && Sound(utf8, ext, b, p + q) &&
        Sound(utf8, ext, b, p + v)
    requires ObjectParts(utf8, ext, b, p, data, end, k)
    ensures ObjectParts(utf8, ext, b, p, data, end, k + 1)
    ensures var q := Walk(b, p, data, true, k);
      var v := q + ByteSize(b, p + q);
      Walk(b, p, data, true, k + 1) == v + ByteSize(b, p + v)
  {
    hide Sound, ByteSize, IsKey;
    WalkSnoc(b, p, data, true, k);
    assert ObjectPart(utf8, ext, b, p, data, end, k);
  }

  /** Every index entry of a finished object is one of the starts, each another. */
  lemma EntriesExpected(utf8: bool, b: seq<Byte>, p: nat, first: nat, table: nat, w: nat, ms: seq<seq<Byte>>,
      offs: seq<nat>, perm: seq<nat>, starts: seq<nat>)
    requires ReadyAll(utf8, true, b, first, ms) && w in {1, 2, 4} && PermutedStarts(ms, offs, perm) && first >= p
    requires forall i :: 0 <= i < |ms| ==> ReadLE(b, table + i * w, w) == first - p + offs[i]
    requires |starts| == |ms| && forall i :: 0 <= i < |ms| ==> starts[i] == first - p + Start(ms, i)
    ensures Increasing(starts)
    ensures forall i :: 0 <= i < |ms| ==> ReadInt(b, table + i * w, w) in starts
    ensures forall i, j :: 0 <= i < j < |ms| ==> ReadInt(b, table + i * w, w) != ReadInt(b, table + j * w, w)
  {
    hide ReadLE, ReadInt, ReadyPair, Start, ReadyAll;
    ReadyNonEmpty(utf8, b, first, ms);
    forall i, j | 0 <= i < j < |ms| ensures starts[i] < starts[j] { StartsIncrease(ms, i, j); }
    forall i | 0 <= i < |ms| ensures ReadInt(b, table + i * w, w) in starts {
      ReadIntExact(b, table + i * w, w);
      assert ReadInt(b, table + i * w, w) == starts[perm[i]];
    }
    forall i, j | 0 <= i < j < |ms| ensures ReadInt(b, table + i * w, w) != ReadInt(b, table + j * w, w) {
      ReadIntExact(b, table + i * w, w);
      ReadIntExact(b, table + j * w, w);
      assert perm[i] != perm[j];
      assert starts[perm[i]] != starts[perm[j]];
    }
  }

  lemma ReadyNonEmpty(utf8: bool, b: seq<Byte>, q: nat, ms: seq<seq<Byte>>)
    requires ReadyAll(utf8, true, b, q, ms)
    ensures forall i :: 0 <= i < |ms| ==> |ms[i]| >= 1
  {
    hide ReadyPair;
  }

  lemma StartsIncrease(ms: seq<seq<Byte>>, i: nat, j: nat)
    requires i < j < |ms| && forall k :: 0 <= k < |ms| ==> |ms[k]| >= 1
    ensures Start(ms, i) < Start(ms, j)
  {
    hide Flatten;
    StartStep(ms, i);
    StartMonotone(ms, i + 1, j);
  }

  lemma EntriesAreStarts(b: seq<Byte>, p: nat, data: nat, end: int, base: nat, w: nat, n: nat, starts: seq<nat>)
    requires w in {1, 2, 4} && |starts| == n && base == p + end
    requires forall i :: 0 <= i < n ==> starts[i] == Walk(b, p, data, true, i)
    requires forall i :: 0 <= i < n ==> ReadInt(b, base + i * w, w) in starts
    ensures EntriesFound(b, p, data, end, w, n)
    ensures (forall i, j :: 0 <= i < j < n ==> ReadInt(b, base + i * w, w) != ReadInt(b, base + j * w, w)) ==>
      EntriesDiffer(b, base, w, n)
  {
    hide ReadLE, ReadInt, Walk;
    forall i | 0 <= i < n ensures ReadInt(b, base + i * w, w) == ReadLE(b, base + i * w, w) {
      ReadIntExact(b, base + i * w, w);
    }
    forall i | 0 <= i < n ensures EntryFound(b, p, data, end, w, n, i) {
      var j :| 0 <= j < |starts| && starts[j] == ReadInt(b, base + i * w, w);
      assert p + end + i * w == base + i * w;
      assert ReadLE(b, p + end + i * w, w) == Walk(b, p, data, true, j);
    }
  }

  /** What walking over a compact compound has established, if its lengths are tidy. */
  ghost predicate CompactWalked(b: seq<Byte>, p: nat, data: nat, end: int, n: nat) {
    && data == FindDataOffset(b, p) && end == MembersEnd(b, p) && MemberCount(b, p) == Ok(n) && n >= 1
    && (if At(b, p) == 0x14 then Walk(b, p, data, true, n) == end else Walk(b, p, data, false, n) <= end)
  }

  lemma CompactArraySound(utf8: bool, ext: bool, b: seq<Byte>, p: nat, data: nat, end: int, n: nat)
    requires At(b, p) == 0x13
    requires Tidy(b, p) ==> CompactWalked(b, p, data, end, n) && ListParts(utf8, ext, b, p, data, end, n)
    ensures Sound(utf8, ext, b, p)
  {
    hide Sound, MemberCount, FindDataOffset, NthOffset, Walk, ByteSize, MembersEnd, SoundPart, Tidy, ReadVar, Span,
      ListPart, Groups;
    if Tidy(b, p) {
      TidyFields(b, p);
      forall i | 0 <= i < n
        ensures NthOffset(b, p, i) == Ok(MemberAt(b, p, false, i))
        ensures SoundPart(utf8, ext, b, p, MemberAt(b, p, false, i))
      {
        CompactIndex(b, p, i);
        assert ListPart(utf8, ext, b, p, data, end, i);
        ListPartIsSound(utf8, ext, b, p, i);
      }
      ArrayConclude(utf8, ext, b, p);
    } else {
      UnlistedSound(utf8, ext, b, p);
    }
  }

  lemma CompactIndex(b: seq<Byte>, p: nat, i: nat)
    requires (At(b, p) == 0x13 || At(b, p) == 0x14) && MemberCount(b, p).Ok? && i < Count(b, p)
    ensures NthOffset(b, p, i) == Ok(MemberAt(b, p, At(b, p) == 0x14, i))
  {
    hide MemberCount, NthOffset, FindDataOffset, Walk, ReadVar, VarLen;
    CompactNth(b, p, i);
    CompactData(b, p);
  }

  lemma ListPartIsSound(utf8: bool, ext: bool, b: seq<Byte>, p: nat, i: nat)
    requires FindDataOffset(b, p) >= 1 && MembersEnd(b, p) <= ByteSize(b, p)
    requires ListPart(utf8, ext, b, p, FindDataOffset(b, p), MembersEnd(b, p), i)
    ensures SoundPart(utf8, ext, b, p, MemberAt(b, p, false, i))
  {
    hide Sound, FindDataOffset, Walk, ByteSize, MembersEnd;
  }

  lemma CompactObjectSound(utf8: bool, ext: bool, b: seq<Byte>, p: nat, data: nat, end: int, n: nat)
    requires At(b, p) == 0x14
    requires Tidy(b, p) ==> CompactWalked(b, p, data, end, n) && ObjectParts(utf8, ext, b, p, data, end, n)
    ensures Sound(utf8, ext, b, p)
  {
    hide Sound, MemberCount, FindDataOffset, NthOffset, Walk, ByteSize, MembersEnd, SoundPart, Tidy, ReadVar, Span,
      ObjectPart, IsKey, Groups, TableSound;
    if Tidy(b, p) {
      TidyFields(b, p);
      forall i | 0 <= i < n
        ensures var q := MemberAt(b, p, true, i);
          && IsKey(At(b, p + q))
          && SoundPart(utf8, ext, b, p, q) && SoundPart(utf8, ext, b, p, q + ByteSize(b, p + q))
      {
        assert ObjectPart(utf8, ext, b, p, data, end, i);
        ObjectPartIsSound(utf8, ext, b, p, data, i);
      }
      CompactTable(b, p);
      ObjectConclude(utf8, ext, b, p);
    } else {
      UnlistedSound(utf8, ext, b, p);
    }
  }

  lemma CompactTable(b: seq<Byte>, p: nat)
    requires At(b, p) == 0x14 && MemberCount(b, p).Ok?
    ensures TableSound(b, p)
  {
    hide MemberCount, NthOffset, MemberAt;
    forall i | 0 <= i < Count(b, p) ensures IsStart(b, p, NthOffset(b, p, i)) { CompactIndex(b, p, i); }
  }

  lemma EmptySound(utf8: bool, ext: bool, b: seq<Byte>, p: nat)
    requires At(b, p) == 0x01 || At(b, p) == 0x0a
    ensures Sound(utf8, ext, b, p)
  {
  }

  lemma ScalarSound(utf8: bool, ext: bool, b: seq<Byte>, p: nat)
    requires TypeOf(At(b, p)) !in {TString, TArray, TObject} && Allowed(ext, b, p)
    ensures Sound(utf8, ext, b, p)
  {
  }

  lemma ScalarSize(b: seq<Byte>, p: nat)
    ensures TypeOf(At(b, p)) == TExternal ==> ByteSize(b, p) == 9
  {
  }

  lemma CustomSize(b: seq<Byte>, p: nat)
    requires TypeOf(At(b, p)) == TCustom
    ensures At(b, p) <= 0xf3 ==> ByteSize(b, p) == if At(b, p) == 0xf0 then 2 else if At(b, p) == 0xf1 then 3
      else if At(b, p) == 0xf2 then 5 else 9
    ensures var w := BlobWidth(At(b, p)); At(b, p) > 0xf3 ==> ByteSize(b, p) == (1 + w + ReadLE(b, p + 1, w)) % Limit
  {
    hide ReadLE;
  }

  lemma AcceptedString(utf8: bool, ext: bool, b: seq<Byte>, p: nat, length: nat)
    requires TypeOf(At(b, p)) == TString
    ensures StringAccepted(utf8, b, p, length) ==> Sound(utf8, ext, b, p)
    ensures Finished(utf8, b, p, length, true) ==> StringAccepted(utf8, b, p, length)
    ensures !LoneString(utf8, b, p, length)
  {
    hide ReadLE, Built, Encode, GetString, Utf8.WellFormed, Has;
    if Finished(utf8, b, p, length, true) {
      var o: Options, v: Value :| Built(utf8, o, v, b, p) && Fits(|Encode(o, v)|, length, true);
      FinishedKind(utf8, o, v, b, p);
      FinishedString(utf8, o, v, b, p);
    }
  }

  lemma LoneHead(utf8: bool, b: seq<Byte>, p: nat, length: nat)
    ensures LoneString(utf8, b, p, length) ==> At(b, p) == 0x02 && length > 0
  {
    hide ByteSize, StringAccepted;
  }

  lemma FinishedString(utf8: bool, o: Options, v: Value, b: seq<Byte>, p: nat)
    requires Built(utf8, o, v, b, p) && v.Str?
    ensures At(b, p) == 0xbf ==> |Encode(o, v)| >= 9
  {
    hide LE, ReadLE;
    HasBytes(b, p, Encode(o, v));
    assert At(b, p + 0) == Encode(o, v)[0];
  }

  lemma StringBytes(b: seq<Byte>, p: nat)
    requires TypeOf(At(b, p)) == TString
    ensures GetString(b, p) == if At(b, p) == 0xbf then Read(b, p + 9, ReadLE(b, p + 1, 8))
      else Read(b, p + 1, At(b, p) - 0x40)
    ensures ByteSize(b, p) == if At(b, p) == 0xbf then (9 + ReadLE(b, p + 1, 8)) % Limit else 1 + (At(b, p) - 0x40)
  {
  }

  lemma FinishedFits(utf8: bool, o: Options, v: Value, b: seq<Byte>, p: nat)
    requires Built(utf8, o, v, b, p)
    ensures 1 <= |Encode(o, v)| < Limit
  {
  }

  lemma NoOffsets(utf8: bool, b: seq<Byte>, p: nat, w: nat, data: nat, ms: seq<seq<Byte>>, offs: seq<nat>)
    requires FixedPlan(utf8, false, false, b, p, w, data, ms, offs)
    ensures FixedPlan(utf8, false, false, b, p, w, data, ms, [])
  {
    hide ReadyAll, ReadLE, Flatten;
  }

  // ---------------------------------------------------------------- the validator

  class Validator {
    const validateUtf8Strings: bool
    const disallowExternals: bool
    var level: nat

    constructor (validateUtf8Strings: bool, disallowExternals: bool)
      ensures level == 0
      ensures this.validateUtf8Strings == validateUtf8Strings && this.disallowExternals == disallowExternals
    {
      this.validateUtf8Strings := validateUtf8Strings;
      this.disallowExternals := disallowExternals;
      level := 0;
    }

    method ValidateCompactArray(b: seq<Byte>, p: nat, length: nat, ghost ms: seq<seq<Byte>>) returns (r: Verdict)
      requires At(b, p) == 0x13 && length < Limit
      requires ms != [] ==>
        CompactPlan(validateUtf8Strings, false, b, p, ms) &&
        CompactLength(|Flatten(ms)|, |ms|) <= length
      modifies this
      ensures r.Valid? ==> level == old(level)
      ensures ms != [] ==> r.Valid?
      ensures Misread(b, p) ==> r.Invalid?
      ensures r.Valid? ==> Sound(validateUtf8Strings, disallowExternals, b, p)
      decreases Gap(b, p), 2
    {
      hide Groups, Span, ReadyAll, CompactLength, CompactPlan, VarLen, Flatten, Start, ByteSize, Sound, ListParts,
        Walk, Tidy, MemberCount, FindDataOffset, MembersEnd;
      if ms != [] { CompactFacts(validateUtf8Strings, false, b, p, ms, length); }
      if Tidy(b, p) { TidyFields(b, p); }
      r := ValidateBufferLength(4, length, true);
      if r.Invalid? { return; }
      var ok, byteSize, data := ReadVariableLengthValue(b, p + 1, p + 1 + length, false);
      if !ok || byteSize > length || byteSize < 4 { return Invalid(InvalidLength); }
      var _, nrItems, before := ReadVariableLengthValue(b, p + byteSize - 1, p + byteSize, true);
      if nrItems == 0 { return Invalid(InvalidLength); }
      var e := before + 1;
      r := ValidateListMembers(b, p, data, e, nrItems, ms);
      if r.Valid? { CompactArraySound(validateUtf8Strings, disallowExternals, b, p, data - p, e - p, nrItems); }
    }

    /** As many members as announced, one behind the other. */
    method ValidateListMembers(b: seq<Byte>, p: nat, data: nat, e: int, n: nat, ghost ms: seq<seq<Byte>>)
      returns (r: Verdict)
      requires At(b, p) != 0 && data > p && n >= 1 && e - p < Limit
      requires ms != [] ==>
        ReadyAll(validateUtf8Strings, false, b, data, ms) && n == |ms| && e == data + |Flatten(ms)|
      modifies this
      ensures r.Valid? ==> level == old(level)
      ensures ms != [] ==> r.Valid?
      ensures r.Valid? && data <= e ==>
        && Walk(b, p, data - p, false, n) <= e - p
        && ListParts(validateUtf8Strings, disallowExternals, b, p, data - p, e - p, n)
      decreases Gap(b, p), 1
    {
      hide ReadyAll, Flatten, Start, Finished, ByteSize, StringAccepted, LoneString, Contained, Unwrapped, Sound,
        ListPart, Walk;
      var nrItems, member, i := n, data, 0;
      WalkZero(b, p, data - p, false);
      StartZero(ms);
      r := Valid;
      while nrItems > 0
        invariant i + nrItems == n && r.Valid? && level == old(level) && data <= member
        invariant data <= e ==> member <= e && member == p + Walk(b, p, data - p, false, i)
        invariant data <= e ==> ListParts(validateUtf8Strings, disallowExternals, b, p, data - p, e - p, i)
        invariant ms != [] ==> member == data + Start(ms, i)
      {
        GapShrinks(b, p, member);
        if ms != [] { PlanStep(validateUtf8Strings, false, b, data, ms, i); }
        nrItems := nrItems - 1;
        r := Validate(b, member, (e - member) % Limit, true);
        if r.Invalid? { return; }
        if data <= e { ListStep(validateUtf8Strings, disallowExternals, b, p, data - p, e - p, i); }
        member := member + ByteSize(b, member);
        i := i + 1;
      }
    }

    method ValidateUnindexedArray(b: seq<Byte>, p: nat, length: nat, ghost data: nat, ghost ms: seq<seq<Byte>>)
      returns (r: Verdict)
      requires 0x02 <= At(b, p) <= 0x05 && length < Limit
      requires ms != [] ==>
        && FixedPlan(validateUtf8Strings, false, false, b, p, EntrySize(At(b, p)), data, ms, []) && SameSize(ms)
        && ReadLE(b, p + 1, EntrySize(At(b, p))) <= length
      modifies this
      ensures r.Valid? ==> level == old(level)
      ensures ms != [] || LoneString(validateUtf8Strings, b, p, length) ==> r.Valid?
      ensures r.Valid? ==> Sound(validateUtf8Strings, disallowExternals, b, p)
      decreases Gap(b, p), 2
    {
      hide ReadyAll, Flatten, Start, Finished, ByteSize, ReadLE, EntrySize, Pow2, FindDataOffset, Sound, ItemsSound,
        SameSize, FixedPlan, StringAccepted, LoneString, Contained, Unwrapped, TypeOf, Div, Misread;
      HeadWidth(At(b, p));
      if LoneString(validateUtf8Strings, b, p, length) { LoneFacts(validateUtf8Strings, b, p, length); }
      var w := Pow2(At(b, p) - 0x02);
      ReadIntExact(b, p + 1, w);
      if ms != [] { UnindexedFacts(validateUtf8Strings, b, p, w, data, ms); }
      r := ValidateBufferLength(1 + w + 1, length, true);
      if r.Invalid? { return; }
      var byteSize := ReadInt(b, p + 1, w);
      if byteSize > length { return Invalid(InvalidLength); }
      var q := SkipPadding(b, p + 1 + w, p + 1 + w + (8 - w), p + byteSize);
      if q >= p + byteSize { return Invalid(InvalidLength); }
      if q != p + 1 + w && q != p + 1 + w + (8 - w) { return Invalid(InvalidLength); }
      FixedSize(b, p);
      FirstAgrees(b, p, q);
      GapShrinks(b, p, q);
      r := Validate(b, q, length - (q - p), true);
      if r.Invalid? { return; }
      var itemSize := ByteSize(b, q);
      if itemSize == 0 { return Invalid(InvalidLength); }
      var nrItems := Div(byteSize - (q - p), itemSize);
      if nrItems == 0 { return Invalid(InvalidLength); }
      r := ValidateItems(b, p, length, q, itemSize, nrItems, ms);
      if r.Valid? { UnindexedSound(validateUtf8Strings, disallowExternals, b, p, q, nrItems); }
    }

    /** The members behind the first, all of its size. */
    method ValidateItems(b: seq<Byte>, p: nat, length: nat, q: nat, itemSize: nat, nrItems: nat,
        ghost ms: seq<seq<Byte>>) returns (r: Verdict)
      requires At(b, p) != 0 && length < Limit && q > p && 0 < itemSize == ByteSize(b, q) && nrItems >= 1
      requires Sound(validateUtf8Strings, disallowExternals, b, q)
      requires ms != [] ==>
        ReadyAll(validateUtf8Strings, false, b, q, ms) && SameSize(ms) && nrItems == |ms| &&
        itemSize == |ms[0]|
      requires ms != [] ==> q - p + |Flatten(ms)| <= length
      modifies this
      ensures r.Valid? ==> level == old(level)
      ensures ms != [] || nrItems == 1 ==> r.Valid?
      ensures r.Valid? ==> ItemsSound(validateUtf8Strings, disallowExternals, b, q, itemSize, nrItems)
      decreases Gap(b, p), 1
    {
      hide ReadyAll, Flatten, Finished, Sound, SameSize, Ready, ItemsSound, ByteSize, Start, StringAccepted,
        LoneString, Contained, Unwrapped;
      if ms != [] { FirstEnds(validateUtf8Strings, b, q, ms); }
      FirstItem(validateUtf8Strings, disallowExternals, b, q, itemSize);
      var member, e, k := q + itemSize, p + length, 1;
      r := Valid;
      while k < nrItems
        invariant 1 <= k <= nrItems && r.Valid? && level == old(level) && member == q + k * itemSize > p
        invariant ms != [] ==> member == q + Start(ms, k)
        invariant ItemsSound(validateUtf8Strings, disallowExternals, b, q, itemSize, k)
      {
        if ms != [] { ItemStep(validateUtf8Strings, b, q, ms, k, e - member); }
        if member >= e { return Invalid(InvalidLength); }
        GapShrinks(b, p, member);
        r := Validate(b, member, e - member, true);
        if r.Invalid? { return; }
        if ByteSize(b, member) != itemSize { return Invalid(InvalidLength); }
        NextItem(validateUtf8Strings, disallowExternals, b, q, itemSize, k);
        assert (k + 1) * itemSize == k * itemSize + itemSize;
        member := member + itemSize;
        k := k + 1;
      }
    }

    /** First member and index table behind a header of three fields of `w` bytes, for `w` below 8. */
    static method LocateTable(b: seq<Byte>, p: nat, byteSize: nat, w: nat, ghost data: nat, ghost body: nat)
      returns (r: Verdict, nrItems: nat, first: nat, table: int)
      requires body > 0 ==>
        && w in {1, 2, 4} && (data == 9 || data == 1 + 2 * w) && ReadInt(b, p + 1 + w, w) >= 1
        && byteSize == data + body + ReadInt(b, p + 1 + w, w) * w % Limit
        && (forall k :: p + 1 + 2 * w <= k < p + data ==> At(b, k) == 0) && At(b, p + data) != 0
      ensures r.Valid? ==>
        nrItems == ReadInt(b, p + 1 + w, w) >= 1 &&
        table == p + byteSize - nrItems * w % Limit >= first
      ensures r.Valid? ==>
        (first == p + 1 + 2 * w || first == p + 9) &&
        (forall k :: p + 1 + 2 * w <= k < first ==> At(b, k) == 0)
      ensures r.Valid? && first == p + 1 + 2 * w < p + 9 && w > 0 && nrItems * w < Limit ==> At(b, first) != 0
      ensures body > 0 ==> r.Valid? && first == p + data && table == p + data + body
    {
      hide ReadInt;
      nrItems, first, table := ReadInt(b, p + 1 + w, w), p, p;
      if nrItems == 0 { return Invalid(InvalidLength), nrItems, first, table; }
      first := SkipPadding(b, p + 1 + w + w, p + 1 + w + w + (8 - w - w), p + byteSize);
      if first != p + 1 + w + w && first != p + 1 + w + w + (8 - w - w) {
        return Invalid(InvalidLength), nrItems, first, table;
      }
      table := p + byteSize - nrItems * w % Limit;
      if table < p + w + w || table < first { return Invalid(InvalidLength), nrItems, first, table; }
      r := Valid;
    }

    /** The same for `w` of 8, where the number of members stands at the end. */
    static method LocateWideTable(b: seq<Byte>, p: nat, byteSize: nat, ghost body: nat)
      returns (r: Verdict, nrItems: nat, first: nat, table: int)
      requires body > 0 ==>
        ReadLE(b, p + byteSize - 8, 8) >= 1 && byteSize == 9 + body + ReadLE(b, p + byteSize - 8, 8) * 8 % Limit + 8
      ensures r.Valid? ==>
        && nrItems == ReadLE(b, p + byteSize - 8, 8) >= 1 && first == p + 9
        && table == p + byteSize - 8 - nrItems * 8 % Limit
      ensures body > 0 ==> r.Valid? && table == p + 9 + body
    {
      hide ReadLE, ReadInt;
      ReadIntExact(b, p + byteSize - 8, 8);
      nrItems, first, table := ReadInt(b, p + byteSize - 8, 8), p + 1 + 8, p;
      if nrItems == 0 { return Invalid(InvalidLength), nrItems, first, table; }
      table := p + byteSize - 8 - nrItems * 8 % Limit;
      if table < p + 8 { return Invalid(InvalidLength), nrItems, first, table; }
      r := Valid;
    }

    static method LocateItems(b: seq<Byte>, p: nat, byteSize: nat, w: nat, ghost data: nat, ghost body: nat)
      returns (r: Verdict, nrItems: nat, first: nat, table: int)
      requires 0x06 <= At(b, p) <= 0x09 && w == EntrySize(At(b, p)) && byteSize == ReadLE(b, p + 1, w)
      requires w in {1, 2, 4, 8} && (w == 8 <==> At(b, p) == 0x09)
      requires body > 0 ==> BodyAt(b, p, byteSize, w, data, body)
      ensures r.Valid? ==> ItemsAt(b, p, first, table, w, nrItems)
      ensures r.Valid? ==> first > p && nrItems >= 1 && table - p <= byteSize
      ensures body > 0 ==>
        r.Valid? && first == p + data && table == p + data + body &&
        nrItems == ReadLE(b, if w < 8 then p + 1 + w else p + byteSize - 8, w)
    {
      hide ReadLE, ReadInt, EntrySize, FindDataOffset, ByteSize, BodyAt, ItemsAt;
      if body > 0 { BodyFields(b, p, byteSize, w, data, body); }
      if At(b, p) == 0x09 {
        r, nrItems, first, table := LocateWideTable(b, p, byteSize, body);
      } else {
        ReadIntExact(b, p + 1 + w, w);
        r, nrItems, first, table := LocateTable(b, p, byteSize, w, data, body);
      }
      if r.Valid? { ItemsFields(b, p, first, table, w, nrItems); }
    }

    method ValidateIndexedArray(b: seq<Byte>, p: nat, length: nat, ghost data: nat, ghost ms: seq<seq<Byte>>)
      returns (r: Verdict)
      requires 0x06 <= At(b, p) <= 0x09 && length < Limit
      requires ms != [] ==>
        && FixedPlan(validateUtf8Strings, false, true, b, p, EntrySize(At(b, p)), data, ms, Starts(ms))
        && ReadLE(b, p + 1, EntrySize(At(b, p))) <= length
      modifies this
      ensures r.Valid? ==> level == old(level)
      ensures ms != [] ==> r.Valid?
      ensures r.Valid? ==> Sound(validateUtf8Strings, disallowExternals, b, p)
      decreases Gap(b, p), 2
    {
      hide ReadyAll, Flatten, Start, Finished, ByteSize, ReadLE, EntrySize, Pow2, FindDataOffset, Sound, FixedPlan,
        Starts, ReadInt, ArrayParts, Walk, ItemsAt;
      HeadWidth(At(b, p));
      var w := Pow2(At(b, p) - 0x06);
      ReadIntExact(b, p + 1, w);
      if ms != [] { IndexedFacts(validateUtf8Strings, false, b, p, w, data, ms, Starts(ms)); }
      r := ValidateBufferLength(1 + w + w + 1, length, true);
      if r.Invalid? { return; }
      var byteSize := ReadInt(b, p + 1, w);
      if byteSize > length { return Invalid(InvalidLength); }
      var nrItems, first, table;
      r, nrItems, first, table := LocateItems(b, p, byteSize, w, data, if ms == [] then 0 else |Flatten(ms)|);
      if r.Invalid? { return; }
      r := ValidateArrayMembers(b, p, first, table, w, nrItems, ms);
      if r.Valid? { ItemsListed(validateUtf8Strings, disallowExternals, b, p, first, table, w, nrItems); }
    }

    method ValidateArrayMembers(b: seq<Byte>, p: nat, first: nat, table: int, w: nat, nrItems: nat,
        ghost ms: seq<seq<Byte>>) returns (r: Verdict)
      requires At(b, p) != 0 && first > p && w in {1, 2, 4, 8} && nrItems >= 1 && table - p < Limit
      requires ms != [] ==>
        && ReadyAll(validateUtf8Strings, false, b, first, ms) && table == first + |Flatten(ms)| && nrItems == |ms|
        && forall i :: 0 <= i < |ms| ==> ReadLE(b, table + i * w, w) == first - p + Starts(ms)[i]
      modifies this
      ensures r.Valid? ==> level == old(level)
      ensures ms != [] ==> r.Valid?
      ensures r.Valid? ==>
        && Walk(b, p, first - p, false, nrItems) == table - p
        && ArrayParts(validateUtf8Strings, disallowExternals, b, p, first - p, table - p, w, nrItems)
      decreases Gap(b, p), 1
    {
      hide ReadyAll, Flatten, Finished, ByteSize, Sound, ReadLE, ReadInt, Start, ArrayPart, Walk, StringAccepted,
        LoneString, Contained, Unwrapped;
      var member, actual := first, 0;
      r := Valid;
      StartZero(ms);
      WalkZero(b, p, first - p, false);
      while member < table
        invariant r.Valid? && level == old(level) && first <= member && (member <= table || actual == 0)
        invariant member == p + Walk(b, p, first - p, false, actual)
        invariant ArrayParts(validateUtf8Strings, disallowExternals, b, p, first - p, table - p, w, actual)
        invariant ms != [] ==> actual <= |ms| && member == first + Start(ms, actual)
        decreases |b| - (table + actual * w)
      {
        if ms != [] {
          if actual == |ms| { StartAll(ms); }
          PlanStep(validateUtf8Strings, false, b, first, ms, actual);
          assert Starts(ms)[actual] == Start(ms, actual);
        }
        GapShrinks(b, p, member);
        r := Validate(b, member, table - member, true);
        if r.Invalid? { return; }
        ReadIntExact(b, table + actual * w, w);
        var offset := ReadInt(b, table + actual * w, w);
        if offset != member - p { return Invalid(InvalidLength); }
        if table + actual * w >= |b| { ReadIntOutside(b, table + actual * w, w); }
        ArrayStep(validateUtf8Strings, disallowExternals, b, p, first - p, table - p, w, actual);
        member := member + ByteSize(b, member);
        assert (actual + 1) * w == actual * w + w;
        actual := actual + 1;
      }
      if ms != [] && actual < |ms| { PlanStep(validateUtf8Strings, false, b, first, ms, actual); }
      if actual != nrItems { return Invalid(InvalidLength); }
    }

    method ValidateCompactObject(b: seq<Byte>, p: nat, length: nat, ghost ms: seq<seq<Byte>>) returns (r: Verdict)
      requires At(b, p) == 0x14 && length < Limit
      requires ms != [] ==>
        CompactPlan(validateUtf8Strings, true, b, p, ms) &&
        CompactLength(|Flatten(ms)|, |ms|) <= length
      modifies this
      ensures r.Valid? ==> level == old(level)
      ensures ms != [] ==> r.Valid?
      ensures Misread(b, p) ==> r.Invalid?
      ensures r.Valid? ==> Sound(validateUtf8Strings, disallowExternals, b, p)
      decreases Gap(b, p), 2
    {
      hide Groups, Span, ReadyAll, CompactLength, CompactPlan, VarLen, Flatten, Start, ByteSize, Sound, ObjectParts,
        Walk, Tidy, MemberCount, FindDataOffset, MembersEnd;
      if ms != [] { CompactFacts(validateUtf8Strings, true, b, p, ms, length); }
      if Tidy(b, p) { TidyFields(b, p); }
      r := ValidateBufferLength(5, length, true);
      if r.Invalid? { return; }
      var ok, byteSize, data := ReadVariableLengthValue(b, p + 1, p + 1 + length, false);
      if !ok || byteSize > length || byteSize < 5 { return Invalid(InvalidLength); }
      var _, nrItems, before := ReadVariableLengthValue(b, p + byteSize - 1, p + byteSize, true);
      if nrItems == 0 { return Invalid(InvalidLength); }
      var e := before + 1;
      var end;
      r, end := ValidateListPairs(b, p, data, e, nrItems, ms);
      if r.Invalid? { return; }
      if end != e { return Invalid(InvalidLength); }
      CompactObjectSound(validateUtf8Strings, disallowExternals, b, p, data - p, e - p, nrItems);
    }

    /** A key and a value in what is left of a compact object. */
    method ValidateListPair(b: seq<Byte>, p: nat, member: nat, e: int, ghost m: seq<Byte>)
      returns (r: Verdict, next: nat)
      requires At(b, p) != 0 && member > p && e - p < Limit
      requires m != [] ==> ReadyPair(validateUtf8Strings, b, member, m) && member + |m| <= e
      modifies this
      ensures r.Valid? ==>
        var value := member + ByteSize(b, member);
        && level == old(level) && next == value + ByteSize(b, value) && IsKey(At(b, member))
        && Sound(validateUtf8Strings, disallowExternals, b, member)
        && Sound(validateUtf8Strings, disallowExternals, b, value)
        && (member <= e ==> next <= e)
      ensures m != [] ==> r.Valid? && next == member + |m|
      decreases Gap(b, p), 0
    {
      hide Finished, ByteSize, Sound, IsKey, ReadyPair, StringAccepted, LoneString, Contained, Unwrapped;
      if m != [] { PairRooms(validateUtf8Strings, b, member, m, e - member); }
      next := member;
      GapShrinks(b, p, member);
      r := Validate(b, member, (e - member) % Limit, true);
      if r.Invalid? { return; }
      if !IsKey(At(b, member)) { return Invalid(InvalidLength), member; }
      next := member + ByteSize(b, member);
      GapShrinks(b, p, next);
      r := Validate(b, next, (e - next) % Limit, true);
      next := next + ByteSize(b, next);
    }

    /** As many pairs as announced, one behind the other, and where they end. */
    method ValidateListPairs(b: seq<Byte>, p: nat, data: nat, e: int, n: nat, ghost ms: seq<seq<Byte>>)
      returns (r: Verdict, member: nat)
      requires At(b, p) != 0 && data > p && n >= 1 && e - p < Limit
      requires ms != [] ==>
        ReadyAll(validateUtf8Strings, true, b, data, ms) && n == |ms| && e == data + |Flatten(ms)|
      modifies this
      ensures r.Valid? ==> level == old(level)
      ensures ms != [] ==> r.Valid? && member == e
      ensures r.Valid? && data <= e ==>
        && member == p + Walk(b, p, data - p, true, n)
        && ObjectParts(validateUtf8Strings, disallowExternals, b, p, data - p, e - p, n)
      decreases Gap(b, p), 1
    {
      hide ReadyAll, ReadyPair, Flatten, Start, ByteSize, IsKey, Sound, ObjectParts, Walk;
      member := data;
      var nrItems, i := n, 0;
      WalkZero(b, p, data - p, true);
      NoParts(validateUtf8Strings, disallowExternals, b, p, data - p, e - p);
      StartZero(ms);
      r := Valid;
      while nrItems > 0
        invariant i + nrItems == n && r.Valid? && level == old(level) && data <= member
        invariant data <= e ==> member <= e && member == p + Walk(b, p, data - p, true, i)
        invariant data <= e ==> ObjectParts(validateUtf8Strings, disallowExternals, b, p, data - p, e - p, i)
        invariant ms != [] ==> member == data + Start(ms, i)
      {
        if ms != [] { PlanStep(validateUtf8Strings, true, b, data, ms, i); }
        nrItems := nrItems - 1;
        var next;
        r, next := ValidateListPair(b, p, member, e, if ms == [] then [] else ms[i]);
        if r.Invalid? { return; }
        if data <= e { ObjectStep(validateUtf8Strings, disallowExternals, b, p, data - p, e - p, i); }
        member := next;
        i := i + 1;
      }
      if ms != [] { StartAll(ms); }
    }

    method ValidateIndexedObject(b: seq<Byte>, p: nat, length: nat, ghost data: nat, ghost ms: seq<seq<Byte>>,
        ghost offs: seq<nat>, ghost perm: seq<nat>)
      returns (r: Verdict)
      requires 0x0b <= At(b, p) <= 0x12 && length < Limit
      requires ms != [] ==>
        && At(b, p) <= 0x0d && FixedPlan(validateUtf8Strings, true, true, b, p, EntrySize(At(b, p)), data, ms, offs)
        && PermutedStarts(ms, offs, perm) && ReadLE(b, p + 1, EntrySize(At(b, p))) <= length
      modifies this
      ensures r.Valid? ==> level == old(level)
      ensures ms != [] ==> r.Valid?
      ensures At(b, p) == 0x0e || At(b, p) == 0x12 ==> r.Invalid?
      ensures r.Valid? ==> Sound(validateUtf8Strings, disallowExternals, b, p)
      decreases Gap(b, p), 2
    {
      hide ReadyAll, Flatten, Start, Finished, ByteSize, ReadLE, EntrySize, Pow2, FindDataOffset, Sound, FixedPlan,
        PermutedStarts, ReadInt, ObjectParts, EntriesFound, EntriesDiffer, Walk, StringAccepted, LoneString, Contained,
            Unwrapped;
      HeadWidth(At(b, p));
      var w := Pow2(At(b, p) - 0x0b);
      if At(b, p) <= 0x0d {
        ReadIntExact(b, p + 1, w);
        ReadIntExact(b, p + 1 + w, w);
        NoTableWrap(b, p + 1 + w, w);
      }
      if ms != [] { IndexedFacts(validateUtf8Strings, true, b, p, w, data, ms, offs); }
      r := ValidateBufferLength(1 + w + w + 1, length, true);
      if r.Invalid? { return; }
      var byteSize := ReadInt(b, p + 1, w);
      if byteSize > length { return Invalid(InvalidLength); }
      var nrItems, first, table;
      if At(b, p) == 0x0e || At(b, p) == 0x12 {
        nrItems := ReadInt(b, p + byteSize - w, w);
        if nrItems == 0 { return Invalid(InvalidLength); }
        table := p + byteSize - w - nrItems * w % Limit;
        if table < p + w { return Invalid(InvalidLength); }
        first := p + byteSize;
      } else {
        r, nrItems, first, table := LocateTable(b, p, byteSize, w, data, if ms == [] then 0 else |Flatten(ms)|);
        if r.Invalid? { return; }
        if At(b, p) <= 0x0d { FirstAgrees(b, p, first); }
      }
      r := ValidateObjectMembers(b, p, first, table, w, nrItems, ms, offs, perm);
      if r.Valid? {
        if At(b, p) <= 0x0d {
          FixedSize(b, p);
          assert p + (table - p) == table;
          ObjectSound(validateUtf8Strings, disallowExternals, b, p, first - p, table - p, w, nrItems);
        } else {
          OtherObjectSound(validateUtf8Strings, disallowExternals, b, p);
        }
      }
    }

    /** One key and its value, before the index table. */
    method ValidatePair(b: seq<Byte>, p: nat, member: nat, table: nat, ghost m: seq<Byte>)
      returns (r: Verdict, size: nat)
      requires At(b, p) != 0 && p < member < table && table - p < Limit
      requires m != [] ==> ReadyPair(validateUtf8Strings, b, member, m) && member + |m| <= table
      modifies this
      ensures r.Valid? ==> level == old(level) && IsKey(At(b, member)) && member + size <= table
      ensures m != [] ==> r.Valid? && size == |m|
      ensures r.Valid? ==>
        var value := member + ByteSize(b, member);
        && Sound(validateUtf8Strings, disallowExternals, b, member)
        && Sound(validateUtf8Strings, disallowExternals, b, value)
        && member + size == value + ByteSize(b, value)
      decreases Gap(b, p), 0
    {
      hide Finished, ByteSize, Sound, IsKey, ReadyPair, StringAccepted, LoneString, Contained, Unwrapped;
      size := 0;
      if m != [] { PairRooms(validateUtf8Strings, b, member, m, table - member); }
      GapShrinks(b, p, member);
      r := Validate(b, member, table - member, true);
      if r.Invalid? { return; }
      if !IsKey(At(b, member)) { return Invalid(InvalidLength), 0; }
      var keySize := ByteSize(b, member);
      var value := member + keySize;
      if value >= table { return Invalid(InvalidLength), 0; }
      GapShrinks(b, p, value);
      r := Validate(b, value, table - value, true);
      size := keySize + ByteSize(b, value);
    }

    method ValidateObjectMembers(b: seq<Byte>, p: nat, first: nat, table: nat, w: nat, nrItems: nat,
        ghost ms: seq<seq<Byte>>, ghost offs: seq<nat>, ghost perm: seq<nat>)
      returns (r: Verdict)
      requires At(b, p) != 0 && first > p && nrItems >= 1 && table - p < Limit
      requires ms != [] ==>
        && ReadyAll(validateUtf8Strings, true, b, first, ms) && table == first + |Flatten(ms)| && nrItems == |ms| &&
          w in {1, 2, 4}
        && PermutedStarts(ms, offs, perm)
        && forall i :: 0 <= i < |ms| ==> ReadLE(b, table + i * w, w) == first - p + offs[i]
      modifies this
      ensures r.Valid? ==> level == old(level)
      ensures ms != [] ==> r.Valid?
      ensures first >= table ==> r.Invalid?
      ensures r.Valid? && w in {1, 2, 4} ==>
        && Walk(b, p, first - p, true, nrItems) == table - p
        && ObjectParts(validateUtf8Strings, disallowExternals, b, p, first - p, table - p, nrItems)
        && EntriesFound(b, p, first - p, table - p, w, nrItems)
        && (nrItems > 128 ==> EntriesDiffer(b, table, w, nrItems))
      decreases Gap(b, p), 1
    {
      hide ReadyAll, Flatten, Finished, ByteSize, Sound, ReadLE, ReadInt, Start, ObjectParts, Walk, IsKey,
        PermutedStarts, EntriesFound, EntriesDiffer, StringAccepted, LoneString, Contained, Unwrapped;
      var offsets := new nat[if nrItems <= 128 then nrItems + 1 else 0];
      var offsetSet: set<nat> := {};
      var member, actual := first, 0;
      ghost var starts: seq<nat> := [];
      r := Valid;
      StartZero(ms);
      WalkZero(b, p, first - p, true);
      NoParts(validateUtf8Strings, disallowExternals, b, p, first - p, table - p);
      while member < table
        invariant r.Valid? && level == old(level) && first <= member && (member <= table || actual == 0)
        invariant actual <= nrItems && |starts| == actual && (actual == 0 || first < table)
        invariant if nrItems <= 128 then offsets[..actual] == starts else forall x :: x in offsetSet <==> x in starts
        invariant member == p + Walk(b, p, first - p, true, actual)
        invariant ObjectParts(validateUtf8Strings, disallowExternals, b, p, first - p, table - p, actual)
        invariant forall i :: 0 <= i < actual ==> starts[i] == Walk(b, p, first - p, true, i)
        invariant ms != [] ==> member == first + Start(ms, actual) && forall i :: 0 <= i < actual ==>
          starts[i] == first - p + Start(ms, i)
        decreases nrItems - actual
      {
        if ms != [] {
          if actual == |ms| { StartAll(ms); }
          PlanStep(validateUtf8Strings, true, b, first, ms, actual);
        }
        var size;
        r, size := ValidatePair(b, p, member, table, if ms == [] then [] else ms[actual]);
        if r.Invalid? { return; }
        var offset := member - p;
        if nrItems <= 128 { offsets[actual] := offset; } else { offsetSet := offsetSet + {offset}; }
        ObjectStep(validateUtf8Strings, disallowExternals, b, p, first - p, table - p, actual);
        starts := starts + [offset];
        member := member + size;
        actual := actual + 1;
        if actual > nrItems { return Invalid(InvalidLength); }
      }
      if ms != [] && actual < |ms| { PlanStep(validateUtf8Strings, true, b, first, ms, actual); }
      if actual < nrItems { return Invalid(InvalidLength); }
      if ms != [] { EntriesExpected(validateUtf8Strings, b, p, first, table, w, ms, offs, perm, starts); }
      if nrItems <= 128 {
        r := CheckOffsets(b, table, w, nrItems, offsets);
      } else {
        r := TakeOffsets(b, table, w, nrItems, offsetSet);
      }
      if r.Valid? && w in {1, 2, 4} { EntriesAreStarts(b, p, first - p, table - p, table, w, nrItems, starts); }
    }

    method ValidateArray(b: seq<Byte>, p: nat, length: nat) returns (r: Verdict)
      requires TypeOf(At(b, p)) == TArray && length < Limit
      modifies this
      ensures r.Valid? ==> level == old(level)
      ensures Finished(validateUtf8Strings, b, p, length, true) ==> r.Valid?
      ensures LoneString(validateUtf8Strings, b, p, length) ==> r.Valid?
      ensures Misread(b, p) ==> r.Invalid?
      ensures r.Valid? ==> Sound(validateUtf8Strings, disallowExternals, b, p)
      decreases Gap(b, p), 3
    {
      hide ReadLE, EntrySize, Flatten, CompactLength, FixedPlan, CompactPlan, Built, Encode, SameSize, Sound, ByteSize,
        Starts, StringAccepted, LoneString, Contained, Unwrapped;
      LoneHead(validateUtf8Strings, b, p, length);
      ghost var data, ms, offs := 0, [], [];
      if Finished(validateUtf8Strings, b, p, length, true) {
        ghost var o: Options, v: Value :| Built(validateUtf8Strings, o, v, b, p) && Fits(|Encode(o, v)|, length, true);
        FinishedKind(validateUtf8Strings, o, v, b, p);
        if v.elems != [] {
          data, offs := ArrayPlanned(validateUtf8Strings, o, v.compact, v.elems, b, p);
          ms := EncodeAll(o, v.elems);
        }
      }
      var head := At(b, p);
      r := Valid;
      if head == 0x13 {
        r := ValidateCompactArray(b, p, length, ms);
      } else if 0x02 <= head <= 0x05 {
        if ms != [] { NoOffsets(validateUtf8Strings, b, p, EntrySize(head), data, ms, offs); }
        r := ValidateUnindexedArray(b, p, length, data, ms);
      } else if 0x06 <= head <= 0x09 {
        r := ValidateIndexedArray(b, p, length, data, ms);
      } else {
        EmptySound(validateUtf8Strings, disallowExternals, b, p);
      }
    }

    method ValidateObject(b: seq<Byte>, p: nat, length: nat) returns (r: Verdict)
      requires TypeOf(At(b, p)) == TObject && length < Limit
      modifies this
      ensures r.Valid? ==> level == old(level)
      ensures Finished(validateUtf8Strings, b, p, length, true) ==> r.Valid?
      ensures At(b, p) == 0x0e || At(b, p) == 0x12 ==> r.Invalid?
      ensures Misread(b, p) ==> r.Invalid?
      ensures r.Valid? ==> Sound(validateUtf8Strings, disallowExternals, b, p)
      decreases Gap(b, p), 3
    {
      hide ReadLE, EntrySize, Flatten, CompactLength, FixedPlan, CompactPlan, Built, Encode, Sound, ByteSize,
        PermutedStarts, StringAccepted, LoneString, Contained, Unwrapped;
      ghost var data, ms, offs, perm := 0, [], [], [];
      if Finished(validateUtf8Strings, b, p, length, true) {
        ghost var o: Options, v: Value :| Built(validateUtf8Strings, o, v, b, p) && Fits(|Encode(o, v)|, length, true);
        FinishedKind(validateUtf8Strings, o, v, b, p);
        if v.members != [] {
          data, offs, perm := ObjectPlanned(validateUtf8Strings, o, v.compact, v.members, b, p);
          ms := EncodeMembers(o, v.members);
        }
      }
      var head := At(b, p);
      r := Valid;
      if head == 0x14 {
        r := ValidateCompactObject(b, p, length, ms);
      } else if 0x0b <= head <= 0x12 {
        r := ValidateIndexedObject(b, p, length, data, ms, offs, perm);
      } else {
        EmptySound(validateUtf8Strings, disallowExternals, b, p);
      }
    }

    method ValidateString(b: seq<Byte>, p: nat, length: nat) returns (r: Verdict)
      requires TypeOf(At(b, p)) == TString && 0 < length < Limit
      ensures r.Valid? <==> StringAccepted(validateUtf8Strings, b, p, length)
    {
      hide ReadLE, GetString, Utf8.WellFormed, ByteSize;
      StringBytes(b, p);
      var text: seq<Byte>;
      if At(b, p) == 0xbf {
        r := ValidateBufferLength(1 + 8, length, true);
        if r.Invalid? { return; }
        var len := ReadLE(b, p + 1, 8);
        r := ValidateBufferLength((len + 1 + 8) % Limit, length, true);
        if r.Invalid? { return; }
        text := Read(b, p + 1 + 8, len);
      } else {
        var len := At(b, p) - 0x40;
        r := ValidateBufferLength(len + 1, length, true);
        if r.Invalid? { return; }
        text := Read(b, p + 1, len);
      }
      if validateUtf8Strings {
        var wellFormed := Utf8.IsValidUtf8(text);
        if !wellFormed { return Invalid(InvalidUtf8Sequence); }
      }
    }

    /** A blob of the application's own making: only its length is checked. */
    static method ValidateCustom(b: seq<Byte>, p: nat, length: nat, isSubPart: bool) returns (r: Verdict)
      requires TypeOf(At(b, p)) == TCustom && length > 0
      ensures r.Valid? <==> Allowed(false, b, p) && BlobWidth(At(b, p)) < length
    {
      hide ReadLE, ByteSize;
      CustomSize(b, p);
      var head, byteSize := At(b, p), 0;
      if head == 0xf0 {
        byteSize := 1 + 1;
      } else if head == 0xf1 {
        byteSize := 1 + 2;
      } else if head == 0xf2 {
        byteSize := 1 + 4;
      } else if head == 0xf3 {
        byteSize := 1 + 8;
      } else {
        var w := if head <= 0xf6 then 1 else if head <= 0xf9 then 2 else if head <= 0xfc then 4 else 8;
        r := ValidateBufferLength(1 + w, length, true);
        if r.Invalid? { return; }
        ReadIntExact(b, p + 1, w);
        byteSize := (1 + w + ReadInt(b, p + 1, w)) % Limit;
        if byteSize == 1 + w { return Invalid(InvalidLength); }
      }
      r := ValidateBufferLength(ByteSize(b, p), byteSize, isSubPart);
    }

    method Validate(b: seq<Byte>, p: nat, length: nat, isSubPart: bool) returns (r: Verdict)
      requires length < Limit
      modifies this
      ensures r.Valid? ==> level == old(level)
      ensures Finished(validateUtf8Strings, b, p, length, isSubPart) ==> r.Valid?
      ensures r.Valid? ==> length > 0 && Fits(ByteSize(b, p), length, isSubPart)
      ensures r.Valid? ==> Sound(validateUtf8Strings, disallowExternals, b, p)
      ensures r.Valid? ==> (Contained(b, p) <==> Unwrapped(b, p))
      ensures TypeOf(At(b, p)) !in {TString, TArray, TObject} ==>
        (r.Valid? <==> ScalarAccepted(disallowExternals, b, p, length, isSubPart))
      ensures length > 0 && TypeOf(At(b, p)) == TNone && At(b, p) != 0 ==> r == Invalid(InvalidType)
      ensures length > 0 && TypeOf(At(b, p)) == TBCD ==> r == Invalid(NotImplemented)
      ensures length > 0 && TypeOf(At(b, p)) == TExternal && disallowExternals ==> r == Invalid(ExternalsDisallowed)
      ensures TypeOf(At(b, p)) == TString && length > 0 && Fits(ByteSize(b, p), length, isSubPart) ==>
        (r.Valid? <==> StringAccepted(validateUtf8Strings, b, p, length))
      ensures LoneString(validateUtf8Strings, b, p, length) && Fits(ByteSize(b, p), length, isSubPart) ==> r.Valid?
      ensures At(b, p) == 0x0e || At(b, p) == 0x12 || Misread(b, p) ==> r.Invalid?
      decreases Gap(b, p), 4
    {
      hide Built, Encode, Sound, ByteSize, StringAccepted, LoneString, Contained, Unwrapped;
      if Finished(validateUtf8Strings, b, p, length, isSubPart) {
        ghost var o: Options, v: Value :| Built(validateUtf8Strings, o, v, b, p) && Fits(|Encode(o, v)|, length,
            isSubPart);
        FinishedKind(validateUtf8Strings, o, v, b, p);
        FinishedFits(validateUtf8Strings, o, v, b, p);
        assert Fits(|Encode(o, v)|, length, true);
      }
      LoneHead(validateUtf8Strings, b, p, length);
      if length == 0 { return Invalid(InvalidLength); }
      var head := At(b, p);
      var kind := TypeOf(head);
      if kind == TNone && head != 0x00 { return Invalid(InvalidType); }
      r := Valid;
      if kind == TString {
        r := ValidateString(b, p, length);
        AcceptedString(validateUtf8Strings, disallowExternals, b, p, length);
      } else if kind == TArray {
        level := level + 1;
        r := ValidateArray(b, p, length);
        if r.Invalid? { return; }
        level := level - 1;
      } else if kind == TObject {
        level := level + 1;
        r := ValidateObject(b, p, length);
        if r.Invalid? { return; }
        level := level - 1;
      } else {
        ScalarSize(b, p);
        if kind == TBCD {
          return Invalid(NotImplemented);
        } else if kind == TExternal {
          if disallowExternals { return Invalid(ExternalsDisallowed); }
          r := ValidateBufferLength(1 + 8, length, true);
        } else if kind == TCustom {
          r := ValidateCustom(b, p, length, isSubPart);
        }
      }
      if r.Invalid? { return; }
      r := ValidateBufferLength(ByteSize(b, p), length, isSubPart);
      if kind !in {TString, TArray, TObject} { ScalarSound(validateUtf8Strings, disallowExternals, b, p); }
      if r.Valid? { ContainedExact(validateUtf8Strings, disallowExternals, b, p); }
    }
  }

  /** A value is accepted whose string announces more than there is room for; below the arrays
      and objects that soundness covers, this needs a length that wraps around. */
  method OverlongAccepted(validator: Validator) returns (r: Verdict)
    requires !validator.validateUtf8Strings
    modifies validator
    ensures r.Valid? && !Contained(Overlong(), 0) && !Unwrapped(Overlong(), 0)
  {
    hide LoneString, Contained, Unwrapped, ByteSize;
    OverlongNotContained();
    r := validator.Validate(Overlong(), 0, 11, false);
  }
}
