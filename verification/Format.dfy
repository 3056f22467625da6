/** The VelocyPack values this model covers and the bytes that stand for them. */
module Format {
  import opened Bytes

  datatype Member = Member(key: seq<Byte>, value: Value)

  /** `compact` is the caller's request for the layout without an index table. */
  datatype Value =
    | Null
    | Bool(flag: bool)
    | Double(bits: UInt64)
    | Int(num: Int64)
    | UInt(unum: UInt64)
    | Str(text: seq<Byte>)
    | Arr(compact: bool, elems: seq<Value>)
    | Obj(compact: bool, members: seq<Member>)

  datatype Padding = NoPadding | Flexible | UsePadding

  datatype Options = Options(padding: Padding, unindexedArrays: bool, unindexedObjects: bool)

  // ---------------------------------------------------------------- concatenation

  function Flatten(ms: seq<seq<Byte>>): seq<Byte> {
    if ms == [] then [] else Flatten(ms[..|ms| - 1]) + ms[|ms| - 1]
  }

  /** Where part `i` begins in `Flatten(ms)`. */
  function Start(ms: seq<seq<Byte>>, i: nat): nat
    requires i <= |ms|
  {
    if i == 0 then 0 else Start(ms, i - 1) + |ms[i - 1]|
  }

  lemma {:induction false} StartOfPrefix(ms: seq<seq<Byte>>, n: nat, i: nat)
    requires i <= n <= |ms|
    ensures Start(ms[..n], i) == Start(ms, i)
  {
    if i > 0 { StartOfPrefix(ms, n, i - 1); }
  }

  lemma {:induction false} StartMonotone(ms: seq<seq<Byte>>, i: nat, j: nat)
    requires i <= j <= |ms|
    ensures Start(ms, i) <= Start(ms, j)
    decreases j
  {
    if i < j { StartMonotone(ms, i, j - 1); }
  }

  lemma {:induction false} FlattenLength(ms: seq<seq<Byte>>)
    ensures |Flatten(ms)| == Start(ms, |ms|)
  {
    if ms != [] {
      FlattenLength(ms[..|ms| - 1]);
      StartOfPrefix(ms, |ms| - 1, |ms| - 1);
    }
  }

  /** Parts tile the concatenation: part `i` stands exactly at `Start(ms, i)`. */
  lemma {:induction false} FlattenHas(ms: seq<seq<Byte>>, i: nat)
    requires i < |ms|
    ensures Has(Flatten(ms), Start(ms, i), ms[i])
  {
    var front := ms[..|ms| - 1];
    FlattenLength(front);
    StartOfPrefix(ms, |ms| - 1, i);
    HasConcat(Flatten(ms), 0, Flatten(front), ms[|ms| - 1]);
    assert Flatten(ms)[0..|Flatten(ms)|] == Flatten(ms);
    if i < |ms| - 1 {
      FlattenHas(front, i);
      HasSlice(Flatten(ms), 0, Flatten(front), Start(ms, i), ms[i]);
    }
  }

  lemma FlattenSnoc(ms: seq<seq<Byte>>, m: seq<Byte>)
    ensures Flatten(ms + [m]) == Flatten(ms) + m
  {
    assert (ms + [m])[..|ms|] == ms;
  }

  /** Non-empty parts: at least one byte each. */
  lemma {:induction false} StartAtLeast(ms: seq<seq<Byte>>, i: nat)
    requires i <= |ms| && forall k :: 0 <= k < |ms| ==> |ms[k]| >= 1
    ensures Start(ms, i) >= i
  {
    if i > 0 { StartAtLeast(ms, i - 1); }
  }

  lemma {:induction false} StartOfEqualParts(ms: seq<seq<Byte>>, i: nat, size: nat)
    requires i <= |ms| && forall k :: 0 <= k < |ms| ==> |ms[k]| == size
    ensures Start(ms, i) == i * size
  {
    if i > 0 { StartOfEqualParts(ms, i - 1, size); }
  }

  // ---------------------------------------------------------------- scalars

  /** Bytes of the shortest two's complement form. */
  function IntWidth(v: int): (w: nat)
    ensures w >= 1
    decreases if v < 0 then -v else v
  {
    if -0x80 <= v <= 0x7f then 1 else 1 + IntWidth(v / 256)
  }

  /** Bytes of the shortest unsigned form. */
  function UIntWidth(v: nat): (w: nat)
    ensures w >= 1
  {
    if v < 256 then 1 else 1 + UIntWidth(v / 256)
  }

  lemma {:induction false} IntWidthFits(v: int)
    ensures -Pow256(IntWidth(v)) <= 2 * v < Pow256(IntWidth(v))
    decreases if v < 0 then -v else v
  {
    if !(-0x80 <= v <= 0x7f) { IntWidthFits(v / 256); } else { assert Pow256(1) == 256 * Pow256(0); }
  }

  lemma {:induction false} IntWidthLeast(v: int, w: nat)
    requires w >= 1 && -Pow256(w) <= 2 * v < Pow256(w)
    ensures IntWidth(v) <= w
    decreases w
  {
    if !(-0x80 <= v <= 0x7f) {
      assert Pow256(1) == 256 * Pow256(0);
      IntWidthLeast(v / 256, w - 1);
    }
  }

  lemma {:induction false} UIntWidthFits(v: nat)
    ensures v < Pow256(UIntWidth(v))
  {
    if v >= 256 { UIntWidthFits(v / 256); } else { assert Pow256(1) == 256 * Pow256(0); }
  }

  lemma {:induction false} UIntWidthLeast(v: nat, w: nat)
    requires w >= 1 && v < Pow256(w)
    ensures UIntWidth(v) <= w
    decreases w
  {
    if v >= 256 {
      assert Pow256(1) == 256 * Pow256(0);
      UIntWidthLeast(v / 256, w - 1);
    }
  }

  function EncodeInt(v: Int64): (r: seq<Byte>)
    ensures |r| >= 1
  {
    if 0 <= v <= 9 then [0x30 + v]
    else if -6 <= v < 0 then [0x40 + v]
    else
      IntWidthLeast(v, 8);
      Pow256Values();
      [0x1f + IntWidth(v)] + LE(v, IntWidth(v))
  }

  function EncodeUInt(v: UInt64): (r: seq<Byte>)
    ensures |r| >= 1
  {
    if v <= 9 then [0x30 + v]
    else
      UIntWidthLeast(v, 8);
      Pow256Values();
      [0x27 + UIntWidth(v)] + LE(v, UIntWidth(v))
  }

  function EncodeString(s: seq<Byte>): (r: seq<Byte>)
    ensures |r| >= 1
  {
    if |s| <= 126 then [0x40 + |s|] + s else [0xbf] + LE(|s|, 8) + s
  }

  // ---------------------------------------------------------------- compound layouts

  /** Compact layout: byte length forwards, members, number of members backwards. */
  function CompactLength(body: nat, n: nat): nat {
    var size := 1 + body + VarLen(n);
    size + VarLen(size + VarLen(size))
  }

  predicate CompactFits(body: nat, n: nat) {
    VarLen(CompactLength(body, n)) < 9
  }

  function CompactBytes(head: Byte, body: seq<Byte>, n: nat): (r: seq<Byte>) {
    [head] + Var(CompactLength(|body|, n)) + body + VarRev(n)
  }

  /** Width of the byte length, member count and offsets of a compound whose
      members take `body` bytes; 9 bytes of header were reserved while it was open. With
      padding in any case, 8 bytes of length come for nothing if there is no table. */
  function Width(o: Options, body: nat, n: nat, table: bool): (w: nat)
    ensures w in {1, 2, 4, 8}
  {
    if o.padding == UsePadding && !table then 8
    else if 9 + body + (if table then n else 0) - (if table then 6 else 7) <= 0xff then 1
    else if 9 + body + (if table then 2 * n else 0) <= 0xffff then 2
    else if 9 + body + (if table then 4 * n else 0) <= 0xffff_ffff then 4
    else 8
  }

  function WidthCode(w: nat): (r: nat)
    ensures r <= 3
  {
    if w == 1 then 0 else if w == 2 then 1 else if w == 4 then 2 else 3
  }

  /** Where the members begin: behind the header, or after padding to 9 bytes. */
  function DataStart(o: Options, w: nat, table: bool): nat {
    if (w == 1 && o.padding != UsePadding) || (w == 2 && o.padding == NoPadding)
    then 1 + (if table then 2 * w else w)
    else 9
  }

  function Table(offs: seq<nat>, base: nat, w: nat): (r: seq<Byte>)
    ensures |r| == |offs| * w
  {
    if offs == [] then [] else Table(offs[..|offs| - 1], base, w) + LE(base + offs[|offs| - 1], w)
  }

  function IndexedLength(data: nat, w: nat, body: nat, table: bool, n: nat): nat {
    data + body + (if table then n * w + (if w == 8 then 8 else 0) else 0)
  }

  function IndexedHeader(head: Byte, w: nat, total: nat, table: bool, n: nat): seq<Byte> {
    [head] + LE(total, w) + (if table && w < 8 then LE(n, w) else [])
  }

  /** `offs` are the member positions in table order, relative to the first member. */
  function IndexedBytes(head: Byte, w: nat, data: nat, body: seq<Byte>, table: bool, n: nat, offs: seq<nat>): seq<Byte>
  {
    var header := IndexedHeader(head, w, IndexedLength(data, w, |body|, table, n), table, n);
    header + (if |header| <= data then Zeros(data - |header|) else []) + body
    + (if table then Table(offs, data, w) + (if w == 8 then LE(n, 8) else []) else [])
  }

  predicate SameSize(ms: seq<seq<Byte>>) {
    forall i :: 0 <= i < |ms| ==> |ms[i]| == |ms[0]|
  }

  function Starts(ms: seq<seq<Byte>>): (r: seq<nat>)
    ensures |r| == |ms|
  {
    seq(|ms|, i requires 0 <= i < |ms| => Start(ms, i))
  }

  function ArrayBytes(o: Options, compact: bool, ms: seq<seq<Byte>>): seq<Byte> {
    var body := Flatten(ms);
    if ms == [] then [0x01]
    else if (compact || o.unindexedArrays) && CompactFits(|body|, |ms|) then CompactBytes(0x13, body, |ms|)
    else
      var table := !SameSize(ms);
      var w := Width(o, |body|, |ms|, table);
      IndexedBytes((if table then 0x06 else 0x02) + WidthCode(w), w, DataStart(o, w, table), body, table, |ms|,
          Starts(ms))
  }

  function ObjectBytes(o: Options, compact: bool, keys: seq<seq<Byte>>, ms: seq<seq<Byte>>): seq<Byte>
    requires |keys| == |ms|
  {
    var body := Flatten(ms);
    if ms == [] then [0x0a]
    else if (compact || o.unindexedObjects || |ms| == 1) &&
      CompactFits(|body|, |ms|) then CompactBytes(0x14, body, |ms|)
    else
      var w := Width(o, |body|, |ms|, true);
      IndexedBytes(0x0b + WidthCode(w), w, DataStart(o, w, true), body, true, |ms|, SortedStarts(keys, Starts(ms)))
  }

  // ---------------------------------------------------------------- sorting by key

  datatype Entry = Entry(key: seq<Byte>, off: nat)

  predicate Sorted(es: seq<Entry>) {
    forall i, j :: 0 <= i < j < |es| ==> Less(es[i].key, es[j].key)
  }

  predicate Distinct(keys: seq<seq<Byte>>) {
    forall i, j :: 0 <= i < j < |keys| ==> keys[i] != keys[j]
  }

  function Entries(keys: seq<seq<Byte>>, offs: seq<nat>): (r: seq<Entry>)
    requires |keys| == |offs|
  {
    seq(|keys|, i requires 0 <= i < |keys| => Entry(keys[i], offs[i]))
  }

  function Insert(e: Entry, es: seq<Entry>): (r: seq<Entry>)
    ensures |r| == |es| + 1
    ensures multiset(r) == multiset(es) + multiset{e}
  {
    if es == [] then [e]
    else
      assert es == [es[0]] + es[1..];
      if Less(e.key, es[0].key) then [e] + es else [es[0]] + Insert(e, es[1..])
  }

  function SortEntries(es: seq<Entry>): (r: seq<Entry>)
    ensures |r| == |es|
    ensures multiset(r) == multiset(es)
  {
    if es == [] then []
    else
      assert es == [es[0]] + es[1..];
      Insert(es[0], SortEntries(es[1..]))
  }

  function Offsets(es: seq<Entry>): (r: seq<nat>)
    ensures |r| == |es|
  {
    seq(|es|, i requires 0 <= i < |es| => es[i].off)
  }

  /** The member positions in the order of their keys. */
  function SortedStarts(keys: seq<seq<Byte>>, offs: seq<nat>): (r: seq<nat>)
    requires |keys| == |offs|
    ensures |r| == |offs|
  {
    Offsets(SortEntries(Entries(keys, offs)))
  }

  // ---------------------------------------------------------------- encoding

  function Keys(ms: seq<Member>): (r: seq<seq<Byte>>)
    ensures |r| == |ms|
  {
    seq(|ms|, i requires 0 <= i < |ms| => ms[i].key)
  }

  /** The bytes a finished value occupies. */
  function Encode(o: Options, v: Value): (r: seq<Byte>)
    ensures |r| >= 1
    decreases v, 1
  {
    match v
    case Null => [0x18]
    case Bool(f) => [if f then 0x1a else 0x19]
    case Double(bits) => [0x1b] + LE(bits, 8)
    case Int(i) => EncodeInt(i)
    case UInt(u) => EncodeUInt(u)
    case Str(s) => EncodeString(s)
    case Arr(compact, elems) =>
      ArrayBytes(o, compact, EncodeAll(o, elems))
    case Obj(compact, members) =>
      ObjectBytes(o, compact, Keys(members), EncodeMembers(o, members))
  }

  function EncodeAll(o: Options, vs: seq<Value>): (r: seq<seq<Byte>>)
    ensures |r| == |vs|
    ensures forall i :: 0 <= i < |r| ==> |r[i]| >= 1
    decreases vs, 0
  {
    seq(|vs|, i requires 0 <= i < |vs| => Encode(o, vs[i]))
  }

  function EncodeMembers(o: Options, ms: seq<Member>): (r: seq<seq<Byte>>)
    ensures |r| == |ms|
    ensures forall i :: 0 <= i < |r| ==> |r[i]| >= 1
    decreases ms, 0
  {
    seq(|ms|, i requires 0 <= i < |ms| => EncodeString(ms[i].key) + Encode(o, ms[i].value))
  }
}
