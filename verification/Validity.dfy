/** What the validator promises: which values it must accept, and what an accepted slice is. */
module Validity {
  import opened Bytes
  import opened Format
  import opened Layout
  import opened Slice
  import opened RoundTrip
  import opened Sorting
  import opened Utf8

  predicate Fits(size: nat, length: nat, isSubPart: bool) {
    size <= length && (isSubPart || size == length)
  }

  predicate IsKey(h: Byte) {
    TypeOf(h) in {TString, TInt, TUInt, TSmallInt}
  }

  // ---------------------------------------------------------------- variable-length integers

  /** One 7-bit group, shifted in 32-bit arithmetic; shift counts are taken modulo 32. */
  function Group(c: Byte, shift: nat): (g: nat)
    ensures g < 0x1_0000_0000
  {
    (c % 0x80) * Pow2(shift % 32) % 0x1_0000_0000
  }

  function Ahead(p: int, reverse: bool): int {
    if reverse then p - 1 else p + 1
  }

  /** The sum of the groups that start at `p`. */
  function Groups(b: seq<Byte>, p: int, reverse: bool, shift: nat): nat
    decreases if reverse then p else |b| - p
  {
    var c := At(b, p);
    Group(c, shift) + if c < 0x80 then 0 else Groups(b, Ahead(p, reverse), reverse, shift + 7)
  }

  /** The number of groups that start at `p`. */
  function Span(b: seq<Byte>, p: int, reverse: bool): (n: nat)
    ensures n >= 1
    decreases if reverse then p else |b| - p
  {
    if At(b, p) < 0x80 then 1 else 1 + Span(b, Ahead(p, reverse), reverse)
  }

  function GroupsOf(x: nat, shift: nat): nat {
    if x < 0x80 then Group(x, shift) else Group(0x80 + x % 0x80, shift) + GroupsOf(x / 0x80, shift + 7)
  }

  lemma {:induction false} GroupsForward(b: seq<Byte>, p: nat, x: nat, shift: nat)
    requires Has(b, p, Var(x))
    ensures Groups(b, p, false, shift) == GroupsOf(x, shift) && Span(b, p, false) == VarLen(x)
    decreases x
  {
    hide Group;
    HasBytes(b, p, Var(x));
    assert At(b, p + 0) == Var(x)[0];
    if x >= 0x80 {
      HasConcat(b, p, [0x80 + x % 0x80], Var(x / 0x80));
      GroupsForward(b, p + 1, x / 0x80, shift + 7);
    }
  }

  lemma {:induction false} GroupsBackward(b: seq<Byte>, p: nat, x: nat, shift: nat)
    requires Has(b, p, VarRev(x))
    ensures Groups(b, p + VarLen(x) - 1, true, shift) == GroupsOf(x, shift) &&
      Span(b, p + VarLen(x) - 1, true) == VarLen(x)
    decreases x
  {
    hide Group;
    HasBytes(b, p, VarRev(x));
    var n := VarLen(x);
    assert At(b, p + (n - 1)) == VarRev(x)[n - 1];
    if x >= 0x80 {
      HasConcat(b, p, VarRev(x / 0x80), [0x80 + x % 0x80]);
      GroupsBackward(b, p, x / 0x80, shift + 7);
    }
  }

  lemma Pow2Values()
    ensures Pow2(0) == 1 && Pow2(4) == 0x10 && Pow2(7) == 0x80
    ensures Pow2(14) == 0x4000 && Pow2(21) == 0x20_0000 && Pow2(28) == 0x1000_0000
  {
    assert Pow2(4) == 0x10;
    assert Pow2(7) == 8 * Pow2(4);
    assert Pow2(14) == 0x80 * Pow2(7);
    assert Pow2(21) == 0x80 * Pow2(14);
    assert Pow2(28) == 0x80 * Pow2(21);
  }

  lemma {:induction false} GroupsAtMost(x: nat, shift: nat)
    ensures GroupsOf(x, shift) < VarLen(x) * 0x1_0000_0000
  {
    hide Group;
    if x >= 0x80 { GroupsAtMost(x / 0x80, shift + 7); }
  }

  lemma {:induction false} ManyGroups(x: nat)
    requires x >= 0x8_0000_0000
    ensures (VarLen(x) + 1) * 0x1_0000_0000 < x
  {
    if x / 0x80 >= 0x8_0000_0000 { ManyGroups(x / 0x80); } else { SmallGroups(x / 0x80); }
  }

  lemma SmallGroups(x: nat)
    requires x < 0x8_0000_0000
    ensures VarLen(x) <= 5
  {
    assert VarLen(0x7_ffff_ffff) == 5 by {
      assert VarLen(0x7ff_ffff) == 4;
    }
    VarLenMonotone(x, 0x7_ffff_ffff);
  }

  /** The validator's reading of a length is right exactly for lengths below 4 GiB: its 7-bit
      groups are shifted before they are widened to 64 bits. */
  lemma VariableLengthExact(x: nat)
    ensures GroupsOf(x, 0) == x <==> x < 0x1_0000_0000
    ensures GroupsOf(x, 0) <= x
  {
    if x < 0x8_0000_0000 {
      FiveGroups(x);
    } else {
      ManyGroups(x);
      GroupsAtMost(x, 0);
    }
  }

  lemma FiveGroups(x: nat)
    requires x < 0x8_0000_0000
    ensures GroupsOf(x, 0) == x % 0x1_0000_0000
  {
    hide GroupsOf;
    Pow2Values();
    var x1 := x / 0x80;
    var x2 := x1 / 0x80;
    var x3 := x2 / 0x80;
    LastGroup(x3 / 0x80);
    MoreGroups(x3, 21, 0x20_0000);
    MoreGroups(x2, 14, 0x4000);
    MoreGroups(x1, 7, 0x80);
    MoreGroups(x, 0, 1);
  }

  lemma MoreGroups(x: nat, shift: nat, scale: nat)
    requires shift < 28 && scale == Pow2(shift) && scale in {1, 0x80, 0x4000, 0x20_0000}
    requires GroupsOf(x / 0x80, shift + 7) == x / 0x80 * (0x80 * scale) % 0x1_0000_0000
    ensures GroupsOf(x, shift) == x * scale % 0x1_0000_0000
  {
    hide Pow2;
    if x < 0x80 {
      assert Group(x, shift) == x * scale % 0x1_0000_0000;
    } else {
      var c: Byte := 0x80 + x % 0x80;
      assert Group(c, shift) == (x % 0x80) * scale % 0x1_0000_0000;
      assert GroupsOf(x, shift) == Group(c, shift) + GroupsOf(x / 0x80, shift + 7);
      hide GroupsOf, Group;
      LowGroup(x % 0x80, x / 0x80, scale);
    }
  }

  lemma LowGroup(low: nat, high: nat, scale: nat)
    requires low < 0x80 && scale in {1, 0x80, 0x4000, 0x20_0000}
    ensures low * scale % 0x1_0000_0000 + high * (0x80 * scale) % 0x1_0000_0000
      == (0x80 * high + low) * scale % 0x1_0000_0000
  {
    if scale == 1 {
      Blocks(low, high, 0x80, 0x200_0000);
    } else if scale == 0x80 {
      Blocks(low * 0x80, high, 0x4000, 0x4_0000);
    } else if scale == 0x4000 {
      Blocks(low * 0x4000, high, 0x20_0000, 0x800);
    } else {
      Blocks(low * 0x20_0000, high, 0x1000_0000, 0x10);
    }
  }

  lemma Blocks(low: nat, high: nat, block: nat, n: nat)
    requires low < block && n > 0 && block * n == 0x1_0000_0000
    ensures low % 0x1_0000_0000 + high * block % 0x1_0000_0000 == (high * block + low) % 0x1_0000_0000
  {
    var q, r := high / n, high % n;
    Regroup(q, r, n, block);
    var x, rest := high * block, r * block;
    assert x == q * 0x1_0000_0000 + rest;
    LastBlock(r, n, block);
    Remainder(x, q, rest);
    Remainder(x + low, q, rest + low);
    Remainder(low, 0, low);
  }

  lemma LastBlock(r: nat, n: nat, block: nat)
    requires r < n && n * block == 0x1_0000_0000
    ensures r * block + block <= 0x1_0000_0000
  {
    MulLe(r + 1, n, block);
    assert (r + 1) * block == r * block + block;
  }

  lemma Regroup(q: nat, r: nat, n: nat, block: nat)
    requires n * block == 0x1_0000_0000
    ensures (q * n + r) * block == q * 0x1_0000_0000 + r * block
  {
    assert q * n * block == q * (n * block);
  }

  lemma Remainder(x: nat, q: nat, r: nat)
    requires x == q * 0x1_0000_0000 + r && r < 0x1_0000_0000
    ensures x % 0x1_0000_0000 == r
  {
  }

  lemma LastGroup(x: nat)
    requires x < 0x80
    ensures GroupsOf(x, 28) == x * 0x1000_0000 % 0x1_0000_0000
  {
    Pow2Values();
  }

  /** The lengths of a compact compound are below 4 GiB and do not overlap, and the first has no more
      groups than it needs: the builder writes no others below 4 GiB. */
  predicate Tidy(b: seq<Byte>, p: nat) {
    var size := ReadVar(b, p + 1);
    var n := ReadVarRev(b, p + size - 1);
    && size < 0x1_0000_0000 && n < 0x1_0000_0000
    && Span(b, p + 1, false) == VarLen(size)
    && 1 + VarLen(size) + Span(b, p + size - 1, true) <= size
  }

  function ReadGroups(b: seq<Byte>, p: int, reverse: bool): nat
    requires reverse || p >= 0
  {
    if reverse then ReadVarRev(b, p) else ReadVar(b, p)
  }

  /** Numbers below 2^32 are read right, whatever groups they are stored in. */
  lemma {:induction false} GroupsAreVar(b: seq<Byte>, p: int, reverse: bool, shift: nat)
    requires reverse || p >= 0
    requires ReadGroups(b, p, reverse) * Pow2(shift) < 0x1_0000_0000
    ensures Groups(b, p, reverse, shift) == ReadGroups(b, p, reverse) * Pow2(shift)
    decreases if reverse then p else |b| - p
  {
    hide Group, Pow2;
    var c := At(b, p);
    if c < 0x80 {
      assert c % 0x80 == c;
      GroupFits(c, shift);
    } else {
      assert c % 0x80 == c - 0x80;
      var rest := ReadGroups(b, Ahead(p, reverse), reverse);
      ShiftSplit(c - 0x80, rest, shift);
      GroupFits(c, shift);
      GroupsAreVar(b, Ahead(p, reverse), reverse, shift + 7);
    }
  }

  lemma ShiftSplit(low: nat, rest: nat, shift: nat)
    ensures (low + 0x80 * rest) * Pow2(shift) == low * Pow2(shift) + rest * Pow2(shift + 7)
  {
    hide Pow2;
    Pow2Add(shift, 7);
    Pow2Values();
    var scale := Pow2(shift);
    assert (low + 0x80 * rest) * scale == low * scale + rest * (scale * 0x80);
  }

  lemma ShiftIsPast(low: nat, shift: nat)
    requires shift >= 32 && low * Pow2(shift) < 0x1_0000_0000
    ensures low == 0
  {
    hide Pow2;
    Pow2Add(4, 28);
    Pow2Values();
    Pow2Monotone(32, shift);
    if low >= 1 { MulLe(1, low, Pow2(shift)); }
  }

  lemma GroupFits(c: Byte, shift: nat)
    requires c % 0x80 * Pow2(shift) < 0x1_0000_0000
    ensures Group(c, shift) == c % 0x80 * Pow2(shift)
  {
    hide Pow2, Group;
    var x := c % 0x80 * Pow2(shift);
    if shift < 32 {
      GroupBelow(c, shift);
      Remainder(x, 0, x);
    } else {
      ShiftIsPast(c % 0x80, shift);
      NoGroup(c, shift);
    }
  }

  lemma GroupBelow(c: Byte, shift: nat)
    requires shift < 32
    ensures Group(c, shift) == c % 0x80 * Pow2(shift) % 0x1_0000_0000
  {
    hide Pow2;
    assert shift % 32 == shift;
  }

  lemma NoGroup(c: Byte, shift: nat)
    requires c % 0x80 == 0
    ensures Group(c, shift) == 0
  {
    hide Pow2;
    var scale := Pow2(shift % 32);
    assert (c % 0x80) * scale == 0;
  }

  /** A compact compound that is too short as the validator reads its length, or in which it
      finds no members where that length makes it look for their number. */
  ghost predicate Misread(b: seq<Byte>, p: nat) {
    && (At(b, p) == 0x13 || At(b, p) == 0x14)
    && var size := Groups(b, p + 1, false, 0) % Limit;
       size < 4 || Groups(b, p + size - 1, true, 0) % Limit == 0
  }

  /** Of a finished compact value of 4 GiB or more, up to 32 GiB, the validator sees only as much
      as is left after taking away multiples of 4 GiB. It refuses the value if that is less than
      4 bytes, or if the last of these bytes is 0. */
  lemma HugeCompactMisread(o: Options, v: Value, b: seq<Byte>, p: nat)
    requires Has(b, p, Encode(o, v)) && (Encode(o, v)[0] == 0x13 || Encode(o, v)[0] == 0x14)
    requires (v.Arr? || v.Obj?) && 0x1_0000_0000 <= |Encode(o, v)| < 0x8_0000_0000
    ensures var seen := |Encode(o, v)| % 0x1_0000_0000;
      && Groups(b, p + 1, false, 0) == seen
      && (seen < 4 || At(b, p + seen - 1) == 0 ==> Misread(b, p))
  {
    hide CompactLength, VarLen, Var, VarRev, Groups, Group, Encode, CompactBytes;
    var body, n := CompactForm(o, v);
    var head, size, seen := Encode(o, v)[0], |Encode(o, v)|, |Encode(o, v)| % 0x1_0000_0000;
    CompactParts(b, p, head, body, n);
    GroupsForward(b, p + 1, size, 0);
    FiveGroups(size);
    if seen >= 4 && At(b, p + seen - 1) == 0 { ZeroGroup(b, p + seen - 1); }
  }

  lemma CompactParts(b: seq<Byte>, p: nat, head: Byte, body: seq<Byte>, n: nat)
    requires Has(b, p, CompactBytes(head, body, n))
    ensures At(b, p) == head && Has(b, p + 1, Var(|CompactBytes(head, body, n)|))
  {
    hide Var, VarRev, VarLen, CompactLength;
    CompactReads(b, p, head, body, n);
    var size := CompactLength(|body|, n);
    HasConcat(b, p, [head] + Var(size) + body, VarRev(n));
    HasConcat(b, p, [head] + Var(size), body);
    HasConcat(b, p, [head], Var(size));
  }

  /** A value whose type byte says compact has the compact form. */
  lemma CompactForm(o: Options, v: Value) returns (body: seq<Byte>, n: nat)
    requires (v.Arr? || v.Obj?) && (Encode(o, v)[0] == 0x13 || Encode(o, v)[0] == 0x14)
    ensures Encode(o, v) == CompactBytes(Encode(o, v)[0], body, n)
  {
    hide CompactBytes, IndexedBytes, Flatten, Width, DataStart, CompactFits, SameSize, WidthCode, SortedStarts;
    var ms := if v.Arr? then EncodeAll(o, v.elems) else EncodeMembers(o, v.members);
    body, n := Flatten(ms), |ms|;
    var table := v.Obj? || !SameSize(ms);
    var w := Width(o, |body|, n, table);
    WidthOfHead(if v.Obj? then 0x0b else if table then 0x06 else 0x02, w);
    CompactHead(if v.Arr? then 0x13 else 0x14, body, n);
    IndexedHead((if v.Obj? then 0x0b else if table then 0x06 else 0x02) + WidthCode(w), w, DataStart(o, w, table),
        body, table, n,
                if v.Obj? then SortedStarts(Keys(v.members), Starts(ms)) else Starts(ms));
  }

  /** An array of one string of 2^32 NUL characters, in compact form. */
  function HugeArray(): Value {
    Arr(true, [Str(Zeros(0x1_0000_0000))])
  }

  lemma HugeLength()
    ensures CompactLength(9 + 0x1_0000_0000, 1) == 16 + 0x1_0000_0000
    ensures VarLen(16 + 0x1_0000_0000) == 5
  {
    assert VarLen(0x1000_0000) == 5 by { assert VarLen(0x20_0000) == 4; }
    SmallGroups(16 + 0x1_0000_0000);
    SmallGroups(11 + 0x1_0000_0000);
    VarLenMonotone(0x1000_0000, 16 + 0x1_0000_0000);
    VarLenMonotone(0x1000_0000, 11 + 0x1_0000_0000);
  }

  lemma HugeUnique()
    ensures UniqueKeys(HugeArray())
  {
    hide Zeros;
  }

  lemma HugeString()
    ensures var text := Zeros(0x1_0000_0000);
      EncodeString(text) == [0xbf] + LE(|text|, 8) + text && |EncodeString(text)| == 9 + |text| &&
        |text| == 0x1_0000_0000
  {
    hide Zeros;
  }

  /** Beyond 4 GiB a finished compact value can be refused: the validator reads its length as 16. */
  lemma HugeArrayMisread(o: Options)
    ensures Misread(Encode(o, HugeArray()), 0) && UniqueKeys(HugeArray())
    ensures |Encode(o, HugeArray())| == 16 + 0x1_0000_0000
  {
    hide CompactLength, VarLen, Var, VarRev, Groups, Group, Zeros, Encode, UniqueKeys, EncodeString;
    HugeUnique();
    HugeString();
    var text := Zeros(0x1_0000_0000);
    var body := EncodeString(text);
    var b := Encode(o, HugeArray());
    HugeLength();
    HugeBytes(o, text);
    CompactReads(b, 0, 0x13, body, 1);
    var c: seq<Byte> := [0x13];
    HasConcat(b, 0, c + Var(16 + 0x1_0000_0000) + body, VarRev(1));
    HasConcat(b, 0, c + Var(16 + 0x1_0000_0000), body);
    HasConcat(b, 0, c, Var(16 + 0x1_0000_0000));
    GroupsForward(b, 1, 16 + 0x1_0000_0000, 0);
    FiveGroups(16 + 0x1_0000_0000);
    HasConcat(b, 6, [0xbf] + LE(|text|, 8), text);
    ZeroAt(b, 15, text);
    ZeroGroup(b, 15);
  }

  lemma HugeBytes(o: Options, text: seq<Byte>)
    requires |text| == 0x1_0000_0000
    ensures Encode(o, Arr(true, [Str(text)])) == CompactBytes(0x13, EncodeString(text), 1)
    ensures Has(Encode(o, Arr(true, [Str(text)])), 0, CompactBytes(0x13, EncodeString(text), 1))
  {
    hide CompactBytes, CompactLength, VarLen;
    HugeLength();
    var v := Str(text);
    var ms := EncodeAll(o, [v]);
    assert ms[0] == Encode(o, v) == EncodeString(text);
    assert ms == [EncodeString(text)];
    assert Flatten(ms) == EncodeString(text) by { FlattenSnoc([], EncodeString(text));
      assert [] + [EncodeString(text)] == ms; }
  }

  lemma ZeroAt(b: seq<Byte>, p: nat, text: seq<Byte>)
    requires Has(b, p, text) && |text| > 0 && text == Zeros(|text|)
    ensures At(b, p) == 0
  {
    HasBytes(b, p, text);
    assert At(b, p + 0) == text[0];
  }

  lemma ZeroGroup(b: seq<Byte>, p: nat)
    requires At(b, p) == 0
    ensures Groups(b, p, true, 0) == 0
  {
  }

  /** The length check of a long string in a sub-part agrees with unbounded arithmetic exactly
      when adding the header does not wrap around. */
  lemma LongStringCheckExact(len: nat, length: nat)
    requires 9 <= length < Limit && len < Limit
    ensures ((len + 1 + 8) % Limit <= length <==> len + 9 <= length) <==> len + 9 < Limit
  {
  }

  // ---------------------------------------------------------------- what must be accepted

  /** Strings are UTF-8 if that is asked for, compact compounds are below 4 GiB, no object needs
      offsets of 8 bytes, and every length fits the width chosen for it. */
  ghost predicate Acceptable(utf8: bool, o: Options, v: Value)
    decreases v
  {
    match v
    case Str(s) => utf8 ==> WellFormed(s)
    case Arr(compact, elems) =>
      && ArrayRoom(o, compact, EncodeAll(o, elems))
      && (Encode(o, v)[0] == 0x13 ==> |Encode(o, v)| < 0x1_0000_0000)
      && forall i :: 0 <= i < |elems| ==> Acceptable(utf8, o, elems[i])
    case Obj(compact, members) =>
      && ObjectRoom(o, compact, EncodeMembers(o, members))
      && (Encode(o, v)[0] == 0x14 ==> |Encode(o, v)| < 0x1_0000_0000)
      && Encode(o, v)[0] != 0x0e
      && (forall i :: 0 <= i < |members| ==> utf8 ==> WellFormed(members[i].key))
      && forall i :: 0 <= i < |members| ==> Acceptable(utf8, o, members[i].value)
    case _ => true
  }

  lemma {:induction false} AcceptableIsRoomy(utf8: bool, o: Options, v: Value)
    requires Acceptable(utf8, o, v)
    ensures Roomy(o, v)
    decreases v
  {
    hide Encode, EncodeAll, EncodeMembers, ArrayRoom, ObjectRoom, WellFormed;
    match v
    case Arr(_, elems) =>
      forall i | 0 <= i < |elems| ensures Roomy(o, elems[i]) { AcceptableIsRoomy(utf8, o, elems[i]); }
    case Obj(_, members) =>
      forall i | 0 <= i < |members| ensures Roomy(o, members[i].value) {
        AcceptableIsRoomy(utf8, o, members[i].value);
      }
    case _ =>
  }

  /** The encoding of an acceptable value stands at `p`. */
  ghost predicate Built(utf8: bool, o: Options, v: Value, b: seq<Byte>, p: nat) {
    Has(b, p, Encode(o, v)) && |Encode(o, v)| < Limit && UniqueKeys(v) && Acceptable(utf8, o, v)
  }

  /** Some value a builder can finish stands at `p` and fits. */
  ghost predicate Finished(utf8: bool, b: seq<Byte>, p: nat, length: nat, isSubPart: bool) {
    exists o: Options, v: Value :: Built(utf8, o, v, b, p) && Fits(|Encode(o, v)|, length, isSubPart)
  }

  /** A finished value of exactly the bytes `m` stands at `p`. */
  ghost predicate Ready(utf8: bool, b: seq<Byte>, p: nat, m: seq<Byte>) {
    && 1 <= |m| < Limit && ByteSize(b, p) == |m| && At(b, p) != 0
    && forall room: nat :: |m| <= room ==> Finished(utf8, b, p, room, true)
  }

  ghost predicate ReadyPair(utf8: bool, b: seq<Byte>, p: nat, m: seq<Byte>) {
    var k := ByteSize(b, p);
    && k < |m| < Limit && IsKey(At(b, p))
    && Ready(utf8, b, p, m[..k]) && Ready(utf8, b, p + k, m[k..])
  }

  /** Finished members tile the bytes from `q` on. */
  ghost predicate ReadyAll(utf8: bool, pairs: bool, b: seq<Byte>, q: nat, ms: seq<seq<Byte>>) {
    && ms != []
    && forall i :: 0 <= i < |ms| ==>
         |ms[i]| >= 1 && (if pairs then ReadyPair(utf8, b, q + Start(ms, i), ms[i])
           else Ready(utf8, b, q + Start(ms, i), ms[i]))
  }

  lemma BuiltIsReady(utf8: bool, o: Options, v: Value, b: seq<Byte>, p: nat)
    requires Built(utf8, o, v, b, p)
    ensures Ready(utf8, b, p, Encode(o, v))
  {
    hide Encode, Reads, ByteSize, UniqueKeys, Acceptable, Has, Roomy;
    AcceptableIsRoomy(utf8, o, v);
    EncodingReadsBack(b, p, o, v);
    forall room: nat | |Encode(o, v)| <= room ensures Finished(utf8, b, p, room, true) {
      assert Fits(|Encode(o, v)|, room, true);
    }
  }

  lemma ElementsReady(utf8: bool, o: Options, compact: bool, elems: seq<Value>, b: seq<Byte>, q: nat)
    requires elems != [] && |Encode(o, Arr(compact, elems))| < Limit
    requires UniqueKeys(Arr(compact, elems)) && Acceptable(utf8, o, Arr(compact, elems))
    requires Has(b, q, Flatten(EncodeAll(o, elems)))
    ensures ReadyAll(utf8, false, b, q, EncodeAll(o, elems))
  {
    hide Encode, Flatten, Ready, EncodeAll, UniqueKeys, Acceptable, Start, Has;
    var ms := EncodeAll(o, elems);
    forall i | 0 <= i < |ms| ensures Ready(utf8, b, q + Start(ms, i), ms[i]) {
      PartAt(b, q, ms, i);
      ElementFits(o, compact, elems, i);
      ElementAcceptable(utf8, o, compact, elems, i);
      BuiltIsReady(utf8, o, elems[i], b, q + Start(ms, i));
    }
  }

  lemma ElementAcceptable(utf8: bool, o: Options, compact: bool, elems: seq<Value>, i: nat)
    requires i < |elems| && UniqueKeys(Arr(compact, elems)) && Acceptable(utf8, o, Arr(compact, elems))
    ensures UniqueKeys(elems[i]) && Acceptable(utf8, o, elems[i]) && EncodeAll(o, elems)[i] == Encode(o, elems[i])
  {
    hide Encode, WellFormed, Distinct, ArrayRoom;
  }

  lemma KeyReady(utf8: bool, o: Options, key: seq<Byte>, b: seq<Byte>, q: nat)
    requires (utf8 ==> WellFormed(key)) && Has(b, q, EncodeString(key)) && |EncodeString(key)| < Limit
    ensures Ready(utf8, b, q, EncodeString(key)) && IsKey(At(b, q)) && ByteSize(b, q) == |EncodeString(key)|
  {
    hide EncodeString, Has, WellFormed, FullSize, TypeOf, Ready;
    StringShorter(key);
    StringReads(b, q, key);
    BuiltIsReady(utf8, o, Str(key), b, q);
  }

  lemma PairReady(utf8: bool, o: Options, key: seq<Byte>, v: Value, b: seq<Byte>, q: nat)
    requires (utf8 ==> WellFormed(key)) && UniqueKeys(v) && Acceptable(utf8, o, v)
    requires Has(b, q, EncodeString(key) + Encode(o, v)) && |EncodeString(key) + Encode(o, v)| < Limit
    ensures ReadyPair(utf8, b, q, EncodeString(key) + Encode(o, v))
  {
    hide Encode, Ready, EncodeString, Has, WellFormed, ByteSize, IsKey, UniqueKeys, Acceptable;
    var m, e := EncodeString(key), Encode(o, v);
    HasConcat(b, q, m, e);
    KeyReady(utf8, o, key, b, q);
    BuiltIsReady(utf8, o, v, b, q + |m|);
    assert (m + e)[..|m|] == m && (m + e)[|m|..] == e;
  }

  lemma MembersReady(utf8: bool, o: Options, compact: bool, members: seq<Member>, b: seq<Byte>, q: nat)
    requires members != [] && |Encode(o, Obj(compact, members))| < Limit
    requires UniqueKeys(Obj(compact, members)) && Acceptable(utf8, o, Obj(compact, members))
    requires Has(b, q, Flatten(EncodeMembers(o, members)))
    ensures ReadyAll(utf8, true, b, q, EncodeMembers(o, members))
  {
    hide Encode, Flatten, ReadyPair, EncodeString, WellFormed, Has, EncodeMembers, UniqueKeys, Acceptable, Start;
    var ms := EncodeMembers(o, members);
    forall i | 0 <= i < |ms| ensures ReadyPair(utf8, b, q + Start(ms, i), ms[i]) {
      PartAt(b, q, ms, i);
      PairFits(o, compact, members, i);
      PairBytes(o, members, i);
      MemberAcceptable(utf8, o, compact, members, i);
      PairReady(utf8, o, members[i].key, members[i].value, b, q + Start(ms, i));
    }
  }

  lemma MemberAcceptable(utf8: bool, o: Options, compact: bool, members: seq<Member>, i: nat)
    requires i < |members| && UniqueKeys(Obj(compact, members)) && Acceptable(utf8, o, Obj(compact, members))
    ensures UniqueKeys(members[i].value) && Acceptable(utf8, o, members[i].value) &&
      (utf8 ==> WellFormed(members[i].key))
  {
    hide Encode, WellFormed, Distinct, ObjectRoom;
  }

  lemma PairBytes(o: Options, members: seq<Member>, i: nat)
    requires i < |members|
    ensures EncodeMembers(o, members)[i] == EncodeString(members[i].key) + Encode(o, members[i].value)
  {
  }

  // ---------------------------------------------------------------- layouts that must be accepted

  /** Compact layout of the members `ms`, small enough for the validator's length arithmetic. */
  ghost predicate CompactPlan(utf8: bool, pairs: bool, b: seq<Byte>, p: nat, ms: seq<seq<Byte>>) {
    var n, size := |ms|, CompactLength(|Flatten(ms)|, |ms|);
    && size < 0x1_0000_0000 && n <= |Flatten(ms)|
    && size == 1 + VarLen(size) + |Flatten(ms)| + VarLen(n)
    && Groups(b, p + 1, false, 0) == size && Span(b, p + 1, false) == VarLen(size)
    && Groups(b, p + size - 1, true, 0) == n && Span(b, p + size - 1, true) == VarLen(n)
    && ReadyAll(utf8, pairs, b, p + 1 + VarLen(size), ms)
  }

  /** Header, padding, members and index table of a layout with fixed-width fields. */
  ghost predicate FixedPlan(utf8: bool, pairs: bool, table: bool, b: seq<Byte>, p: nat, w: nat, data: nat,
      ms: seq<seq<Byte>>, offs: seq<nat>) {
    var n, body := |ms|, |Flatten(ms)|;
    var header := 1 + (if table && w < 8 then 2 * w else w);
    var size := IndexedLength(data, w, body, table, n);
    && w in {1, 2, 4, 8} && (data == header || data == 9) && header <= 9
    && n <= body && ReadLE(b, p + 1, w) == size < Limit
    && (table && w < 8 ==> ReadLE(b, p + 1 + w, w) == n)
    && (table && w == 8 ==> ReadLE(b, p + size - 8, 8) == n)
    && (forall q :: p + header <= q < p + data ==> At(b, q) == 0)
    && (table ==> |offs| == n && forall i :: 0 <= i < n ==> ReadLE(b, p + data + body + i * w, w) == data + offs[i])
    && ReadyAll(utf8, pairs, b, p + data, ms)
  }

  lemma CompactPlanned(utf8: bool, pairs: bool, b: seq<Byte>, p: nat, head: Byte, ms: seq<seq<Byte>>)
    requires ms != [] && (forall i :: 0 <= i < |ms| ==> |ms[i]| >= 1)
    requires Has(b, p, CompactBytes(head, Flatten(ms), |ms|)) && |CompactBytes(head, Flatten(ms), |ms|)| < 0x1_0000_0000
    requires ReadyAll(utf8, pairs, b, p + 1 + VarLen(CompactLength(|Flatten(ms)|, |ms|)), ms)
    ensures CompactPlan(utf8, pairs, b, p, ms) && At(b, p) == head
    ensures CompactLength(|Flatten(ms)|, |ms|) == |CompactBytes(head, Flatten(ms), |ms|)|
  {
    hide CompactLength, Var, VarRev, VarLen, Has, Flatten, Start, ReadyAll, Groups, GroupsOf, Span;
    var size := CompactLength(|Flatten(ms)|, |ms|);
    CompactReads(b, p, head, Flatten(ms), |ms|);
    CompactLengthIsExact(|Flatten(ms)|, |ms|);
    FlattenLength(ms);
    StartAtLeast(ms, |ms|);
    var c: seq<Byte> := [head];
    HasConcat(b, p, c + Var(size) + Flatten(ms), VarRev(|ms|));
    HasConcat(b, p, c + Var(size), Flatten(ms));
    HasConcat(b, p, c, Var(size));
    GroupsForward(b, p + 1, size, 0);
    GroupsBackward(b, p + 1 + VarLen(size) + |Flatten(ms)|, |ms|, 0);
    VariableLengthExact(size);
    VariableLengthExact(|ms|);
  }

  lemma FixedPlanned(utf8: bool, pairs: bool, table: bool, b: seq<Byte>, p: nat, o: Options, base: Byte,
      ms: seq<seq<Byte>>, offs: seq<nat>)
    requires base in {0x02, 0x06, 0x0b} && (base == 0x02 <==> !table)
    requires ms != [] && (forall i :: 0 <= i < |ms| ==> |ms[i]| >= 1)
    requires |offs| == |ms| && (forall i :: 0 <= i < |ms| ==> offs[i] <= |Flatten(ms)|)
    requires table ==> Room(o, |Flatten(ms)|, |ms|)
    requires var w := Width(o, |Flatten(ms)|, |ms|, table);
      && |IndexedBytes(base + WidthCode(w), w, DataStart(o, w, table), Flatten(ms), table, |ms|, offs)| < Limit
      && Has(b, p, IndexedBytes(base + WidthCode(w), w, DataStart(o, w, table), Flatten(ms), table, |ms|, offs))
    requires ReadyAll(utf8, pairs, b, p + DataStart(o, Width(o, |Flatten(ms)|, |ms|, table), table), ms)
    ensures var w := Width(o, |Flatten(ms)|, |ms|, table);
      FixedPlan(utf8, pairs, table, b, p, w, DataStart(o, w, table), ms, offs) && At(b, p) == base + WidthCode(w)
    ensures var w := Width(o, |Flatten(ms)|, |ms|, table);
      ReadLE(b, p + 1, w) == |IndexedBytes(base + WidthCode(w), w, DataStart(o, w, table), Flatten(ms), table, |ms|,
          offs)|
  {
    hide IndexedBytes, Has, Flatten, Start, ReadyAll, ReadLE, Table, WidthCode;
    var w := Width(o, |Flatten(ms)|, |ms|, table);
    var data := DataStart(o, w, table);
    IndexedTotal(o, base + WidthCode(w), ms, table, offs);
    WidthSuffices(o, ms, table, offs);
    IndexedReads(b, p, base + WidthCode(w), w, data, Flatten(ms), table, |ms|, offs);
    if table {
      forall i | 0 <= i < |ms| ensures ReadLE(b, p + data + |Flatten(ms)| + i * w, w) == data + offs[i] {
        TableReads(b, p + data + |Flatten(ms)|, offs, data, w, i);
      }
    }
  }

  lemma ArrayPlanned(utf8: bool, o: Options, compact: bool, elems: seq<Value>, b: seq<Byte>, p: nat)
    returns (data: nat, offs: seq<nat>)
    requires Built(utf8, o, Arr(compact, elems), b, p) && elems != []
    ensures var h, ms, size := At(b, p), EncodeAll(o, elems), |Encode(o, Arr(compact, elems))|;
      || (h == 0x13 && CompactPlan(utf8, false, b, p, ms) && size == CompactLength(|Flatten(ms)|, |ms|))
      || (0x02 <= h <= 0x05 && FixedPlan(utf8, false, false, b, p, EntrySize(h), data, ms, offs)
          && size == ReadLE(b, p + 1, EntrySize(h)) && SameSize(ms))
      || (0x06 <= h <= 0x09 && FixedPlan(utf8, false, true, b, p, EntrySize(h), data, ms, offs)
          && size == ReadLE(b, p + 1, EntrySize(h)) && offs == Starts(ms))
  {
    hide CompactBytes, IndexedBytes, CompactLength, CompactFits, Flatten, FixedPlan, CompactPlan, ReadyAll, Has,
      ReadLE, UniqueKeys, DataStart, Start, VarLen, Starts, Width;
    var ms := EncodeAll(o, elems);
    data, offs := 0, Starts(ms);
    var body := Flatten(ms);
    if (compact || o.unindexedArrays) && CompactFits(|body|, |ms|) {
      assert Encode(o, Arr(compact, elems)) == CompactBytes(0x13, body, |ms|);
      CompactHead(0x13, body, |ms|);
      CompactReads(b, p, 0x13, body, |ms|);
      ElementsReady(utf8, o, compact, elems, b, p + 1 + VarLen(CompactLength(|body|, |ms|)));
      CompactPlanned(utf8, false, b, p, 0x13, ms);
    } else {
      var table := !SameSize(ms);
      var base := if table then 0x06 else 0x02;
      var w := Width(o, |body|, |ms|, table);
      data := DataStart(o, w, table);
      assert Encode(o, Arr(compact, elems)) == IndexedBytes(base + WidthCode(w), w, data, body, table, |ms|, offs);
      StartsInBody(ms);
      BodyThere(b, p, o, base, ms, table, offs);
      ElementsReady(utf8, o, compact, elems, b, p + data);
      FixedPlanned(utf8, false, table, b, p, o, base, ms, offs);
      WidthOfHead(base, w);
    }
  }

  lemma CompactHead(head: Byte, body: seq<Byte>, n: nat)
    ensures CompactBytes(head, body, n)[0] == head
  {
    hide Var, VarRev, CompactLength;
  }

  lemma BodyThere(b: seq<Byte>, p: nat, o: Options, base: Byte, ms: seq<seq<Byte>>, table: bool, offs: seq<nat>)
    requires base in {0x02, 0x06, 0x0b} && ms != [] && (forall i :: 0 <= i < |ms| ==> |ms[i]| >= 1)
    requires |offs| == |ms| && (forall i :: 0 <= i < |ms| ==> offs[i] <= |Flatten(ms)|)
    requires table ==> Room(o, |Flatten(ms)|, |ms|)
    requires var w := Width(o, |Flatten(ms)|, |ms|, table);
      && |IndexedBytes(base + WidthCode(w), w, DataStart(o, w, table), Flatten(ms), table, |ms|, offs)| < Limit
      && Has(b, p, IndexedBytes(base + WidthCode(w), w, DataStart(o, w, table), Flatten(ms), table, |ms|, offs))
    ensures Has(b, p + DataStart(o, Width(o, |Flatten(ms)|, |ms|, table), table), Flatten(ms))
  {
    hide IndexedBytes, Has, Flatten, Table, WidthCode;
    var w := Width(o, |Flatten(ms)|, |ms|, table);
    IndexedTotal(o, base + WidthCode(w), ms, table, offs);
    WidthSuffices(o, ms, table, offs);
    IndexedReads(b, p, base + WidthCode(w), w, DataStart(o, w, table), Flatten(ms), table, |ms|, offs);
  }

  lemma ObjectPlanned(utf8: bool, o: Options, compact: bool, members: seq<Member>, b: seq<Byte>, p: nat)
    returns (data: nat, offs: seq<nat>, perm: seq<nat>)
    requires Built(utf8, o, Obj(compact, members), b, p) && members != []
    ensures var h, ms, size := At(b, p), EncodeMembers(o, members), |Encode(o, Obj(compact, members))|;
      || (h == 0x14 && CompactPlan(utf8, true, b, p, ms) && size == CompactLength(|Flatten(ms)|, |ms|))
      || (0x0b <= h <= 0x0d && FixedPlan(utf8, true, true, b, p, EntrySize(h), data, ms, offs)
          && size == ReadLE(b, p + 1, EntrySize(h)) && PermutedStarts(ms, offs, perm))
  {
    hide CompactBytes, IndexedBytes, CompactLength, CompactFits, Flatten, FixedPlan, CompactPlan, ReadyAll, Has,
      ReadLE, DataStart, Start, VarLen, Starts, Width, EncodeMembers, SortedStarts, PermutedStarts;
    var ms, keys := EncodeMembers(o, members), Keys(members);
    data, offs, perm := 0, SortedStarts(keys, Starts(ms)), [];
    var body := Flatten(ms);
    if (compact || o.unindexedObjects || |ms| == 1) && CompactFits(|body|, |ms|) {
      assert Encode(o, Obj(compact, members)) == CompactBytes(0x14, body, |ms|);
      CompactHead(0x14, body, |ms|);
      CompactReads(b, p, 0x14, body, |ms|);
      MembersReady(utf8, o, compact, members, b, p + 1 + VarLen(CompactLength(|body|, |ms|)));
      CompactPlanned(utf8, true, b, p, 0x14, ms);
    } else {
      var w := Width(o, |body|, |ms|, true);
      data := DataStart(o, w, true);
      assert Encode(o, Obj(compact, members)) == IndexedBytes(0x0b + WidthCode(w), w, data, body, true, |ms|, offs);
      perm := SortedIsPermuted(keys, ms);
      BodyThere(b, p, o, 0x0b, ms, true, offs);
      MembersReady(utf8, o, compact, members, b, p + data);
      FixedPlanned(utf8, true, true, b, p, o, 0x0b, ms, offs);
      WidthOfHead(0x0b, w);
      IndexedHead(0x0b + WidthCode(w), w, data, body, true, |ms|, offs);
    }
  }

  /** Each member start stands once in the table. */
  ghost predicate PermutedStarts(ms: seq<seq<Byte>>, offs: seq<nat>, perm: seq<nat>) {
    && |offs| == |perm| == |ms|
    && (forall i :: 0 <= i < |ms| ==> perm[i] < |ms| && offs[i] == Start(ms, perm[i]))
    && forall i, j :: 0 <= i < j < |ms| ==> perm[i] != perm[j]
  }

  lemma SortedIsPermuted(keys: seq<seq<Byte>>, ms: seq<seq<Byte>>) returns (perm: seq<nat>)
    requires |keys| == |ms| && Distinct(keys)
    ensures PermutedStarts(ms, SortedStarts(keys, Starts(ms)), perm)
    ensures forall i :: 0 <= i < |ms| ==> SortedStarts(keys, Starts(ms))[i] <= |Flatten(ms)|
  {
    hide SortedStarts, Less, Flatten;
    perm := TableOrder(keys, Starts(ms));
    SortedStartsInBody(keys, ms, perm);
    forall i, j | 0 <= i < j < |ms| ensures perm[i] != perm[j] {
      LessIrreflexive(keys[perm[i]]);
    }
  }

  // ---------------------------------------------------------------- what acceptance means

  /** Where the members of a compound end: at its index table, for an array without one at the
      last whole member, for a compact compound at the number of its members. */
  function MembersEnd(b: seq<Byte>, p: nat): int {
    var h := At(b, p);
    if h <= 0x05 then
      var data, n := FindDataOffset(b, p), MemberCount(b, p);
      data + (if n.Ok? then n.value else 0) * ByteSize(b, p + data)
    else if h == 0x13 || h == 0x14 then ReadVar(b, p + 1) - Span(b, p + ReadVar(b, p + 1) - 1, true)
    else TableBase(b, p)
  }

  /** The slice at offset `q` of the compound at `p` ends at or before `end`. */
  ghost predicate Within(b: seq<Byte>, p: nat, q: nat, end: int) {
    q + ByteSize(b, p + q) <= end
  }

  function Count(b: seq<Byte>, p: nat): nat {
    if MemberCount(b, p).Ok? then MemberCount(b, p).value else 0
  }

  /** Position of member `i`, counting members one behind the other. */
  function MemberAt(b: seq<Byte>, p: nat, pairs: bool, i: nat): nat {
    Walk(b, p, FindDataOffset(b, p), pairs, i)
  }

  /** The announced number of members, at least one, tiles the data area; behind the members of a
      compact array there may be more. */
  ghost predicate Tiled(b: seq<Byte>, p: nat, pairs: bool) {
    && MemberCount(b, p).Ok? && Count(b, p) >= 1
    && MemberAt(b, p, pairs, Count(b, p)) <= MembersEnd(b, p) <= ByteSize(b, p)
    && (At(b, p) != 0x13 ==> MemberAt(b, p, pairs, Count(b, p)) == MembersEnd(b, p))
    && (At(b, p) <= 0x05 ==> ByteSize(b, p) < MembersEnd(b, p) + ByteSize(b, p + FindDataOffset(b, p)))
  }

  /** What the reader finds at an index is the start of a pair; in a table of more than 128 entries
      each of another. */
  ghost predicate TableSound(b: seq<Byte>, p: nat) {
    && (forall i :: 0 <= i < Count(b, p) ==> IsStart(b, p, NthOffset(b, p, i)))
    && (At(b, p) != 0x14 && Count(b, p) > 128 ==>
         forall i, j :: 0 <= i < j < Count(b, p) ==> NthOffset(b, p, i) != NthOffset(b, p, j))
  }

  /** An array whose members the validator and the reader find at the same places. The table of an
      8-byte array has to be shorter than 2^64 bytes. */
  predicate ListedArray(b: seq<Byte>, p: nat) {
    var h := At(b, p);
    || 0x02 <= h <= 0x08
    || (h == 0x09 && Count(b, p) * 8 < Limit)
    || (h == 0x13 && Tidy(b, p))
  }

  /** An object whose pairs the validator and the reader find at the same places. */
  predicate ListedObject(b: seq<Byte>, p: nat) {
    0x0b <= At(b, p) <= 0x0d || (At(b, p) == 0x14 && Tidy(b, p))
  }

  /** Width of the payload length of a custom blob; 0 where the type byte fixes the size. */
  function BlobWidth(h: Byte): nat {
    if h <= 0xf3 then 0 else if h <= 0xf6 then 1 else if h <= 0xf9 then 2 else if h <= 0xfc then 4 else 8
  }

  /** What is asked of the type: a type the format knows, no decimal number, which is not
      implemented, no pointer if there are to be none (`ext`), and no blob without payload. */
  predicate Allowed(ext: bool, b: seq<Byte>, p: nat) {
    var h := At(b, p);
    match TypeOf(h)
    case TNone => h == 0
    case TBCD => false
    case TExternal => !ext
    case TCustom => h <= 0xf3 || ReadLE(b, p + 1, BlobWidth(h)) != 0
    case _ => true
  }

  /** What is asked of a value that is not a string, array or object: its size and its type, and of
      a blob with a payload length that this can be read at all. */
  predicate ScalarAccepted(ext: bool, b: seq<Byte>, p: nat, length: nat, isSubPart: bool) {
    && length > 0 && Fits(ByteSize(b, p), length, isSubPart)
    && Allowed(ext, b, p) && (TypeOf(At(b, p)) == TCustom ==> BlobWidth(At(b, p)) < length)
  }

  /** What an accepted slice is: the announced number of members tiles the data area, the
      reader finds a validated member at every index, nothing leaves its parent, keys are
      keys, strings are UTF-8 and every type is one that is allowed. Says nothing about what is
      inside compact compounds whose lengths are not `Tidy`, and objects of the unsorted or 8-byte
      kind. */
  ghost predicate Sound(utf8: bool, ext: bool, b: seq<Byte>, p: nat)
    decreases ByteSize(b, p), 1
  {
    if TypeOf(At(b, p)) == TString then utf8 ==> WellFormed(GetString(b, p))
    else if ListedArray(b, p) then
      && Tiled(b, p, false)
      && forall i :: 0 <= i < Count(b, p) ==>
           && NthOffset(b, p, i) == Ok(MemberAt(b, p, false, i))
           && SoundPart(utf8, ext, b, p, MemberAt(b, p, false, i))
    else if ListedObject(b, p) then
      && Tiled(b, p, true) && TableSound(b, p)
      && forall i :: 0 <= i < Count(b, p) ==>
           var q := MemberAt(b, p, true, i);
           && IsKey(At(b, p + q))
           && SoundPart(utf8, ext, b, p, q) && SoundPart(utf8, ext, b, p, q + ByteSize(b, p + q))
    else Allowed(ext, b, p)
  }

  /** The slice at offset `q` of the compound at `p` lies inside its data area and is sound. */
  ghost predicate SoundPart(utf8: bool, ext: bool, b: seq<Byte>, p: nat, q: nat)
    decreases ByteSize(b, p), 0
  {
    Within(b, p, q, MembersEnd(b, p)) && ByteSize(b, p + q) < ByteSize(b, p) && Sound(utf8, ext, b, p + q)
  }

  /** `r` is the position of one of the pairs. */
  ghost predicate IsStart(b: seq<Byte>, p: nat, r: Result<nat>) {
    exists j :: 0 <= j < Count(b, p) && r == Ok(MemberAt(b, p, true, j))
  }

  /** A compact compound with tidy lengths, as the validator sees it, is what the reader sees. */
  lemma TidyFields(b: seq<Byte>, p: nat)
    requires (At(b, p) == 0x13 || At(b, p) == 0x14) && Tidy(b, p)
    ensures var size, n := ByteSize(b, p), Count(b, p);
      && Groups(b, p + 1, false, 0) % Limit == size && MemberCount(b, p) == Ok(n)
      && Groups(b, p + size - 1, true, 0) % Limit == n
      && FindDataOffset(b, p) == 1 + Span(b, p + 1, false) <= MembersEnd(b, p)
      && MembersEnd(b, p) == size - Span(b, p + size - 1, true)
  {
    hide Groups, Span, ReadVar, ReadVarRev, VarLen, ReadLE;
    CompactSize(b, p);
    var size := ReadVar(b, p + 1);
    GroupsAreVar(b, p + 1, false, 0);
    GroupsAreVar(b, p + size - 1, true, 0);
    Pow2Values();
    CompactData(b, p);
  }

  lemma CompactData(b: seq<Byte>, p: nat)
    requires At(b, p) == 0x13 || At(b, p) == 0x14
    ensures FindDataOffset(b, p) == 1 + VarLen(ReadVar(b, p + 1))
  {
    hide ReadVar, VarLen;
  }

  /** The compact compounds a builder writes are tidy, as long as they are below 4 GiB. */
  lemma BuiltIsTidy(b: seq<Byte>, p: nat, head: Byte, body: seq<Byte>, n: nat)
    requires Has(b, p, CompactBytes(head, body, n)) && |CompactBytes(head, body, n)| < 0x1_0000_0000 && n <= |body|
    ensures Tidy(b, p)
  {
    hide CompactLength, Var, VarRev, VarLen, Has, Span, ReadVar, ReadVarRev, Groups, GroupsOf;
    var size := CompactLength(|body|, n);
    CompactReads(b, p, head, body, n);
    CompactLengthIsExact(|body|, n);
    var c: seq<Byte> := [head];
    HasConcat(b, p, c + Var(size) + body, VarRev(n));
    HasConcat(b, p, c + Var(size), body);
    HasConcat(b, p, c, Var(size));
    GroupsForward(b, p + 1, size, 0);
    GroupsBackward(b, p + 1 + VarLen(size) + |body|, n, 0);
  }

  // ---------------------------------------------------------------- payloads that leave their parent

  /** Every slice the members lead to lies inside its parent with all the bytes it announces. */
  ghost predicate Contained(b: seq<Byte>, p: nat)
    decreases ByteSize(b, p), 1
  {
    if ListedArray(b, p) then
      forall i :: 0 <= i < Count(b, p) ==> ContainedPart(b, p, MemberAt(b, p, false, i))
    else if ListedObject(b, p) then
      forall i :: 0 <= i < Count(b, p) ==>
        var q := MemberAt(b, p, true, i);
        ContainedPart(b, p, q) && ContainedPart(b, p, q + ByteSize(b, p + q))
    else true
  }

  ghost predicate ContainedPart(b: seq<Byte>, p: nat, q: nat)
    decreases ByteSize(b, p), 0
  {
    q + FullSize(b, p + q) <= MembersEnd(b, p) && ByteSize(b, p + q) < ByteSize(b, p) && Contained(b, p + q)
  }

  /** For none of these slices does adding the header to the announced length wrap around. */
  ghost predicate Unwrapped(b: seq<Byte>, p: nat)
    decreases ByteSize(b, p), 1
  {
    if ListedArray(b, p) then
      forall i :: 0 <= i < Count(b, p) ==> UnwrappedPart(b, p, MemberAt(b, p, false, i))
    else if ListedObject(b, p) then
      forall i :: 0 <= i < Count(b, p) ==>
        var q := MemberAt(b, p, true, i);
        UnwrappedPart(b, p, q) && UnwrappedPart(b, p, q + ByteSize(b, p + q))
    else true
  }

  ghost predicate UnwrappedPart(b: seq<Byte>, p: nat, q: nat)
    decreases ByteSize(b, p), 0
  {
    FullSize(b, p + q) < Limit && (ByteSize(b, p + q) < ByteSize(b, p) ==> Unwrapped(b, p + q))
  }

  /** A sound slice contains the payloads of all its parts exactly if no length wraps around. */
  lemma {:induction false} ContainedExact(utf8: bool, ext: bool, b: seq<Byte>, p: nat)
    requires Sound(utf8, ext, b, p)
    ensures Contained(b, p) <==> Unwrapped(b, p)
    decreases ByteSize(b, p), 1
  {
    hide ByteSize, MemberCount, NthOffset, Walk, FindDataOffset, MembersEnd, TableSound, WellFormed, IsKey,
      ContainedPart, UnwrappedPart, SoundPart, Tidy;
    if ListedArray(b, p) {
      forall i | 0 <= i < Count(b, p)
        ensures ContainedPart(b, p, MemberAt(b, p, false, i)) <==> UnwrappedPart(b, p, MemberAt(b, p, false, i))
      {
        PartExact(utf8, ext, b, p, MemberAt(b, p, false, i));
      }
    } else if ListedObject(b, p) {
      forall i | 0 <= i < Count(b, p)
        ensures var q := MemberAt(b, p, true, i);
          && (ContainedPart(b, p, q) <==> UnwrappedPart(b, p, q))
          && (ContainedPart(b, p, q + ByteSize(b, p + q)) <==> UnwrappedPart(b, p, q + ByteSize(b, p + q)))
      {
        var q := MemberAt(b, p, true, i);
        PartExact(utf8, ext, b, p, q);
        PartExact(utf8, ext, b, p, q + ByteSize(b, p + q));
      }
    }
  }

  lemma {:induction false} PartExact(utf8: bool, ext: bool, b: seq<Byte>, p: nat, q: nat)
    requires SoundPart(utf8, ext, b, p, q) && MembersEnd(b, p) <= ByteSize(b, p)
    ensures ContainedPart(b, p, q) <==> UnwrappedPart(b, p, q)
    decreases ByteSize(b, p), 0
  {
    hide FullSize, MembersEnd, Sound, Contained, Unwrapped;
    ContainedExact(utf8, ext, b, p + q);
  }

  /** Only lengths of 8 bytes and LEB128 lengths can wrap around. */
  lemma WrapsOnlyWide(b: seq<Byte>, p: nat)
    requires FullSize(b, p) >= Limit
    ensures At(b, p) in {0x13, 0x14, 0xbf, 0xc7, 0xcf, 0xd7, 0xfd, 0xfe, 0xff}
  {
    var h := At(b, p);
    hide ReadLE, ReadVar;
    forall w: nat | w <= 8 ensures ReadLE(b, p + 1, w) < Pow256(w) {
      NumberBound(Read(b, p + 1, w)); ReadIsNumber(b, p + 1, w);
    }
    Pow256Values();
    forall w: nat | w <= 7 ensures Pow256(w) <= Pow256(7) { Pow256Monotone(w, 7); }
  }

  lemma ReadIsNumber(b: seq<Byte>, p: int, w: nat)
    ensures ReadLE(b, p, w) == Number(Read(b, p, w))
  {
  }

  /** What the validator asks of a string with `length` bytes left. */
  predicate StringAccepted(utf8: bool, b: seq<Byte>, p: nat, length: nat) {
    && (At(b, p) == 0xbf ==> 9 <= length)
    && ByteSize(b, p) <= length
    && (utf8 ==> WellFormed(GetString(b, p)))
  }

  /** An array, without a table, of one long string. */
  predicate LoneString(utf8: bool, b: seq<Byte>, p: nat, length: nat) {
    && At(b, p) == 0x02 && At(b, p + 2) == 0xbf && 3 <= At(b, p + 1) <= length
    && StringAccepted(utf8, b, p + 2, length - 2)
    && ByteSize(b, p + 2) > 0 && (At(b, p + 1) - 2) / ByteSize(b, p + 2) == 1
  }

  /** An array of 11 bytes whose string announces 2^64 - 1 characters. */
  function Overlong(): seq<Byte> {
    [0x02, 11, 0xbf, 0xff, 0xff, 0xff, 0xff, 0xff, 0xff, 0xff, 0xff]
  }

  lemma OverlongNotContained()
    ensures LoneString(false, Overlong(), 0, 11) && ByteSize(Overlong(), 0) == 11 && !Contained(Overlong(), 0)
  {
    hide ReadLE, Read, Number, Walk, ReadVar, Sound, Contained;
    var b := Overlong();
    OverlongFields();
    assert FullSize(b, 2) == 9 + (Limit - 1) && ByteSize(b, 2) == 8;
    assert FindDataOffset(b, 0) == 2 && MemberCount(b, 0) == Ok(1);
    OverlongPart(b);
  }

  lemma OverlongFields()
    ensures ReadLE(Overlong(), 1, 1) == 11 && ReadLE(Overlong(), 3, 8) == Limit - 1
  {
    var b := Overlong();
    assert Read(b, 1, 1) == [11] && [11][1..] == [];
    assert Number([]) == 0;
    forall i | 0 <= i < 8 ensures Read(b, 3, 8)[i] == 0xff { assert Read(b, 3, 8)[i] == b[3 + i]; }
    AllOnes(8, Read(b, 3, 8));
    Pow256Values();
  }

  lemma {:induction false} AllOnes(n: nat, s: seq<Byte>)
    requires |s| == n && forall i :: 0 <= i < n ==> s[i] == 0xff
    ensures Number(s) == Pow256(n) - 1
  {
    if n > 0 { AllOnes(n - 1, s[1..]); }
  }

  lemma OverlongPart(b: seq<Byte>)
    requires At(b, 0) == 0x02 && FullSize(b, 2) > Limit && ByteSize(b, 2) == 8 && FindDataOffset(b, 0) == 2 &&
      MemberCount(b, 0) == Ok(1)
    ensures !Contained(b, 0)
  {
    hide FullSize, ByteSize, FindDataOffset, MemberCount;
    assert MemberAt(b, 0, false, 0) == 2;
    assert !ContainedPart(b, 0, MemberAt(b, 0, false, 0));
  }
}
