/** The 16-lane UTF-8 validator: carries of sequence lengths, checked block by block. */
module Utf8Simd {
  import opened Bytes
  import opened Utf8

  // ---------------------------------------------------------------- lanes

  type Lanes = s: seq<Byte> | |s| == 16 witness Zeros(16)

  function SignedByte(x: Byte): int {
    if x < 0x80 then x else x - 0x100
  }

  function Set1(x: Byte): Lanes {
    seq<Byte>(16, i => x)
  }

  /** Unsigned subtraction that stops at zero. */
  function SubsEpu8(a: Lanes, b: Lanes): Lanes {
    seq<Byte>(16, i requires 0 <= i < 16 => if a[i] >= b[i] then a[i] - b[i] else 0)
  }

  /** Addition modulo 256. */
  function AddEpi8(a: Lanes, b: Lanes): Lanes {
    seq<Byte>(16, i requires 0 <= i < 16 => (a[i] as int + b[i] as int) % 0x100)
  }

  function CmpgtEpi8(a: Lanes, b: Lanes): Lanes {
    seq<Byte>(16, i requires 0 <= i < 16 => if SignedByte(a[i]) > SignedByte(b[i]) then 0xff else 0)
  }

  function CmpeqEpi8(a: Lanes, b: Lanes): Lanes {
    seq<Byte>(16, i requires 0 <= i < 16 => if a[i] == b[i] then 0xff else 0)
  }

  /** The last 16 bytes of `b` then `a`, ending `n` bytes before the end of `a`. */
  function AlignrEpi8(a: Lanes, b: Lanes, n: nat): Lanes
    requires n <= 16
  {
    (b + a)[n..n + 16]
  }

  /** Table lookup by the low nibble of lanes whose high bit is clear. */
  function ShuffleEpi8(table: Lanes, index: Lanes): Lanes {
    seq<Byte>(16, i requires 0 <= i < 16 => if index[i] >= 0x80 then 0 else table[index[i] % 16])
  }

  function BitOr(x: nat, y: nat): nat {
    if x == 0 && y == 0 then 0 else 2 * BitOr(x / 2, y / 2) + (if x % 2 == 1 || y % 2 == 1 then 1 else 0)
  }

  function BitAnd(x: nat, y: nat): nat {
    if x == 0 || y == 0 then 0 else 2 * BitAnd(x / 2, y / 2) + (if x % 2 == 1 && y % 2 == 1 then 1 else 0)
  }

  lemma {:induction false} BitOrZero(x: nat, y: nat)
    ensures BitOr(x, y) == 0 <==> x == 0 && y == 0
  {
    if x != 0 || y != 0 {
      BitOrZero(x / 2, y / 2);
    }
  }

  lemma {:induction false} BitBound(x: nat, y: nat, n: nat)
    requires x < Pow2(n) && y < Pow2(n)
    ensures BitOr(x, y) < Pow2(n) && BitAnd(x, y) < Pow2(n)
    decreases n
  {
    if n > 0 { BitBound(x / 2, y / 2, n - 1); }
  }

  lemma ByteBound(x: Byte, y: Byte)
    ensures BitOr(x, y) < 256 && BitAnd(x, y) < 256
  {
    assert Pow2(8) == 256;
    BitBound(x, y, 8);
  }

  /** On comparison masks a bitwise and is a logical one. */
  lemma MaskAnd(x: Byte, y: Byte)
    requires x in {0, 0xff} && y in {0, 0xff}
    ensures BitAnd(x, y) == 0 <==> x == 0 || y == 0
  {
    assert BitAnd(0xff, 0xff) == 0xff;
  }

  function OrByte(x: Byte, y: Byte): (r: Byte)
    ensures r == 0 <==> x == 0 && y == 0
  {
    ByteBound(x, y);
    BitOrZero(x, y);
    BitOr(x, y)
  }

  function AndByte(x: Byte, y: Byte): (r: Byte)
    ensures x in {0, 0xff} && y in {0, 0xff} ==> (r == 0 <==> x == 0 || y == 0)
  {
    ByteBound(x, y);
    assert x in {0, 0xff} && y in {0, 0xff} ==> (BitAnd(x, y) == 0 <==> x == 0 || y == 0) by {
      if x in {0, 0xff} && y in {0, 0xff} { MaskAnd(x, y); }
    }
    BitAnd(x, y)
  }

  function OrSi128(a: Lanes, b: Lanes): Lanes {
    seq<Byte>(16, i requires 0 <= i < 16 => OrByte(a[i], b[i]))
  }

  function AndSi128(a: Lanes, b: Lanes): Lanes {
    seq<Byte>(16, i requires 0 <= i < 16 => AndByte(a[i], b[i]))
  }

  /** The shift by four of 16-bit lanes followed by the mask 0x0f, on bytes 2k and 2k+1 of a lane. */
  function HighNibbles(a: Lanes): Lanes {
    seq<Byte>(16, i requires 0 <= i < 16 =>
      if i % 2 == 0 then (a[i] as int + 0x100 * a[i + 1] as int) / 16 % 0x100 % 16
      else (a[i - 1] as int + 0x100 * a[i] as int) / 16 / 0x100 % 16)
  }

  // ---------------------------------------------------------------- the checks

  const LengthTable: Lanes := [1, 1, 1, 1, 1, 1, 1, 1, 0, 0, 0, 0, 2, 2, 3, 4]
  const InitialMins: Lanes := [0x80, 0x80, 0x80, 0x80, 0x80, 0x80, 0x80, 0x80, 0x80, 0x80, 0x80, 0x80, 0xc2, 0x80,
      0xe1, 0xf1]
  const SecondMins: Lanes := [0x80, 0x80, 0x80, 0x80, 0x80, 0x80, 0x80, 0x80, 0x80, 0x80, 0x80, 0x80, 127, 127, 0xa0,
      0x90]
  const LastMax: Lanes := [9, 9, 9, 9, 9, 9, 9, 9, 9, 9, 9, 9, 9, 9, 9, 1]

  function ContinuationLengths(highNibbles: Lanes): Lanes {
    ShuffleEpi8(LengthTable, highNibbles)
  }

  function CarryContinuations(initialLengths: Lanes, previousCarries: Lanes): Lanes {
    var right1 := SubsEpu8(AlignrEpi8(initialLengths, previousCarries, 15), Set1(1));
    var sum := AddEpi8(initialLengths, right1);
    var right2 := SubsEpu8(AlignrEpi8(sum, previousCarries, 14), Set1(2));
    AddEpi8(sum, right2)
  }

  function CheckSmallerThan0xF4(current: Lanes, hasError: Lanes): Lanes {
    OrSi128(hasError, SubsEpu8(current, Set1(0xf4)))
  }

  function CheckContinuations(initialLengths: Lanes, carries: Lanes, hasError: Lanes): Lanes {
    OrSi128(hasError, CmpeqEpi8(CmpgtEpi8(carries, initialLengths), CmpgtEpi8(initialLengths, Set1(0))))
  }

  function CheckFirstContinuationMax(current: Lanes, off1: Lanes, hasError: Lanes): Lanes {
    var badFollowED := AndSi128(CmpgtEpi8(current, Set1(0x9f)), CmpeqEpi8(off1, Set1(0xed)));
    var badFollowF4 := AndSi128(CmpgtEpi8(current, Set1(0x8f)), CmpeqEpi8(off1, Set1(0xf4)));
    OrSi128(hasError, OrSi128(badFollowED, badFollowF4))
  }

  function CheckOverlong(current: Lanes, off1: Lanes, hibits: Lanes, previousHibits: Lanes, hasError: Lanes): Lanes {
    var off1Hibits := AlignrEpi8(hibits, previousHibits, 15);
    var initialUnder := CmpgtEpi8(ShuffleEpi8(InitialMins, off1Hibits), off1);
    var secondUnder := CmpgtEpi8(ShuffleEpi8(SecondMins, off1Hibits), current);
    OrSi128(hasError, AndSi128(initialUnder, secondUnder))
  }

  datatype Processed = Processed(rawbytes: Lanes, highNibbles: Lanes, carriedContinuations: Lanes)

  function CheckUTF8Bytes(current: Lanes, previous: Processed, hasError: Lanes): (Processed, Lanes) {
    var nibbles := HighNibbles(current);
    var lengths := ContinuationLengths(nibbles);
    var carried := CarryContinuations(lengths, previous.carriedContinuations);
    var off1 := AlignrEpi8(current, previous.rawbytes, 15);
    var e1 := CheckSmallerThan0xF4(current, hasError);
    var e2 := CheckContinuations(lengths, carried, e1);
    var e3 := CheckFirstContinuationMax(current, off1, e2);
    var e4 := CheckOverlong(current, off1, nibbles, previous.highNibbles, e3);
    (Processed(current, nibbles, carried), e4)
  }

  // ---------------------------------------------------------------- what one lane checks

  /** Bytes in the sequence a byte begins; 0 for a continuation byte. */
  function Len(c: Byte): nat {
    if c < 0x80 then 1 else if c < 0xc0 then 0 else if c < 0xe0 then 2 else if c < 0xf0 then 3 else 4
  }

  function Sat(x: nat, y: nat): nat {
    if x >= y then x - y else 0
  }

  predicate BadFollow(prev: Byte, c: Byte) {
    || (prev == 0xed && SignedByte(c) > SignedByte(0x9f))
    || (prev == 0xf4 && SignedByte(c) > SignedByte(0x8f))
  }

  predicate Overlong(prev: Byte, c: Byte) {
    SignedByte(InitialMins[prev / 16]) > SignedByte(prev) && SignedByte(SecondMins[prev / 16]) > SignedByte(c)
  }

  /** `more`: the sequences before `c` leave at least one byte to come. */
  predicate ByteOk(prev: Byte, more: bool, c: Byte) {
    c <= 0xf4 && (more <==> Len(c) == 0) && !BadFollow(prev, c) && !Overlong(prev, c)
  }

  function Right1(lens: seq<nat>, pc15: nat, k: nat): nat
    requires k < |lens|
  {
    Sat(if k == 0 then pc15 else lens[k - 1], 1)
  }

  function Right2(lens: seq<nat>, pc14: nat, pc15: nat, k: nat): nat
    requires k < |lens|
  {
    Sat(if k == 0 then pc14 else if k == 1 then pc15 else lens[k - 2] + Right1(lens, pc15, k - 2), 2)
  }

  function Lens(current: seq<Byte>): (r: seq<nat>) {
    seq(|current|, i requires 0 <= i < |current| => Len(current[i]))
  }

  lemma NibblesAre(a: Lanes)
    ensures forall i :: 0 <= i < 16 ==> HighNibbles(a)[i] == a[i] / 16
  {
    forall i | 0 <= i < 16 ensures HighNibbles(a)[i] == a[i] / 16 {
      if i % 2 == 0 { PairShift(a[i], a[i + 1]); } else { PairShift(a[i - 1], a[i]); }
    }
  }

  lemma PairShift(lo: Byte, hi: Byte)
    ensures (lo as int + 0x100 * hi as int) / 16 % 0x100 % 16 == lo / 16
    ensures (lo as int + 0x100 * hi as int) / 16 / 0x100 % 16 == hi / 16
  {
    var x := lo as int + 0x100 * hi as int;
    assert x / 16 == lo / 16 + 16 * hi as int;
    assert (lo / 16 + 16 * hi as int) % 16 == lo / 16;
    assert (lo / 16 + 16 * hi as int) / 0x100 == hi / 16;
  }

  lemma LengthsAre(current: Lanes)
    ensures forall i :: 0 <= i < 16 ==> ContinuationLengths(HighNibbles(current))[i] == Len(current[i])
  {
    NibblesAre(current);
    var nibbles := HighNibbles(current);
    forall i | 0 <= i < 16 ensures ContinuationLengths(nibbles)[i] == Len(current[i]) {
      LengthLookup(nibbles, i, current[i]);
    }
  }

  lemma LengthLookup(nibbles: Lanes, i: nat, c: Byte)
    requires i < 16 && nibbles[i] == c / 16
    ensures ContinuationLengths(nibbles)[i] == Len(c)
  {
  }

  /** No lane overflows, so carrying is plain arithmetic. */
  lemma CarriesAre(lengths: Lanes, pc: Lanes, lens: seq<nat>, k: nat)
    requires |lens| == 16 && k < 16 && forall i :: 0 <= i < 16 ==> lengths[i] == lens[i] <= 4
    requires pc[14] <= 12 && pc[15] <= 12
    ensures CarryContinuations(lengths, pc)[k] == lens[k] + Right1(lens, pc[15], k) + Right2(lens, pc[14], pc[15], k)
    ensures CarryContinuations(lengths, pc)[k] <= 28
    ensures k >= 4 ==> CarryContinuations(lengths, pc)[k] <= 12
  {
    hide AlignrEpi8, Right1, SubsEpu8, AddEpi8, Set1;
    var sum := AddEpi8(lengths, SubsEpu8(AlignrEpi8(lengths, pc, 15), Set1(1)));
    SumLane(lengths, pc, lens, k);
    if k >= 2 { SumLane(lengths, pc, lens, k - 2); }
    AddShifted(sum, sum, pc, 14, 2, k);
  }

  lemma ShiftLane(a: Lanes, b: Lanes, n: nat, k: nat)
    requires k < 16 && n <= 16
    ensures AlignrEpi8(a, b, n)[k] == if n + k < 16 then b[n + k] else a[n + k - 16]
  {
    assert AlignrEpi8(a, b, n)[k] == (b + a)[n + k];
  }

  lemma AddShifted(x: Lanes, a: Lanes, b: Lanes, n: nat, d: Byte, k: nat)
    requires k < 16 && n <= 16
    ensures AddEpi8(x, SubsEpu8(AlignrEpi8(a, b, n), Set1(d)))[k]
         == (x[k] as int + Sat(if n + k < 16 then b[n + k] else a[n + k - 16], d)) % 0x100
  {
    hide AlignrEpi8;
    ShiftLane(a, b, n, k);
    assert Set1(d)[k] == d;
  }

  lemma SumLane(lengths: Lanes, pc: Lanes, lens: seq<nat>, k: nat)
    requires |lens| == 16 && k < 16 && forall i :: 0 <= i < 16 ==> lengths[i] == lens[i] <= 4
    requires pc[15] <= 12
    ensures AddEpi8(lengths, SubsEpu8(AlignrEpi8(lengths, pc, 15), Set1(1)))[k]
      == lens[k] + Right1(lens, pc[15], k) <= 15
    ensures k > 0 ==> lens[k] + Right1(lens, pc[15], k) <= 7
  {
    hide AlignrEpi8, SubsEpu8, AddEpi8, Set1;
    AddShifted(lengths, lengths, pc, 15, 1, k);
  }

  function PrevByte(current: Lanes, previous: Lanes, k: nat): Byte
    requires k < 16
  {
    if k == 0 then previous[15] else current[k - 1]
  }

  /** What survives in lane `k` of the error mask after one block. */
  lemma LaneError(current: Lanes, previous: Processed, hasError: Lanes, k: nat)
    requires k < 16 && previous.highNibbles == HighNibbles(previous.rawbytes)
    requires previous.carriedContinuations[14] <= 12 && previous.carriedContinuations[15] <= 12
    ensures var (pb, e) := CheckUTF8Bytes(current, previous, hasError);
      var lens, pc := Lens(current), previous.carriedContinuations;
      var more := Right1(lens, pc[15], k) + Right2(lens, pc[14], pc[15], k) > 0;
      && (e[k] == 0 <==> hasError[k] == 0 && ByteOk(PrevByte(current, previous.rawbytes, k), more, current[k]))
      && pb.rawbytes == current && pb.highNibbles == HighNibbles(current)
      && pb.carriedContinuations[k] == lens[k] + Right1(lens, pc[15], k) + Right2(lens, pc[14], pc[15], k)
      && (k >= 4 ==> pb.carriedContinuations[k] <= 12)
  {
    hide BitOr, BitAnd, HighNibbles, CarryContinuations, OrByte, AndByte;
    var lens, pc := Lens(current), previous.carriedContinuations;
    var nibbles := HighNibbles(current);
    NibblesAre(current);
    NibblesAre(previous.rawbytes);
    LengthsAre(current);
    var lengths := ContinuationLengths(nibbles);
    CarriesAre(lengths, pc, lens, k);
    var prev := PrevByte(current, previous.rawbytes, k);
    var off1 := AlignrEpi8(current, previous.rawbytes, 15);
    assert off1[k] == (previous.rawbytes + current)[15 + k] == prev;
    var off1Hibits := AlignrEpi8(nibbles, previous.highNibbles, 15);
    assert off1Hibits[k] == (previous.highNibbles + nibbles)[15 + k] == prev / 16;
    LaneChecks(current, off1, nibbles, previous.highNibbles, lengths, CarryContinuations(lengths, pc), hasError, k);
  }

  lemma LaneChecks(current: Lanes, off1: Lanes, nibbles: Lanes, previousNibbles: Lanes, lengths: Lanes, carried: Lanes,
      hasError: Lanes, k: nat)
    requires k < 16 && lengths[k] == Len(current[k]) <= carried[k] < 0x80
    requires AlignrEpi8(nibbles, previousNibbles, 15)[k] == off1[k] / 16
    ensures var e1 := CheckSmallerThan0xF4(current, hasError);
      var e2 := CheckContinuations(lengths, carried, e1);
      var e3 := CheckFirstContinuationMax(current, off1, e2);
      var e4 := CheckOverlong(current, off1, nibbles, previousNibbles, e3);
      e4[k] == 0 <==> hasError[k] == 0 && ByteOk(off1[k], carried[k] > lengths[k], current[k])
  {
    hide BitOr, BitAnd, OrByte, AndByte, AlignrEpi8;
    var e1 := CheckSmallerThan0xF4(current, hasError);
    assert e1[k] == 0 <==> hasError[k] == 0 && current[k] <= 0xf4;
    var e2 := CheckContinuations(lengths, carried, e1);
    assert e2[k] == 0 <==> e1[k] == 0 && (carried[k] > lengths[k] <==> lengths[k] == 0);
    var e3 := CheckFirstContinuationMax(current, off1, e2);
    assert e3[k] == 0 <==> e2[k] == 0 && !BadFollow(off1[k], current[k]);
    var e4 := CheckOverlong(current, off1, nibbles, previousNibbles, e3);
    assert e4[k] == 0 <==> e3[k] == 0 && !Overlong(off1[k], current[k]);
  }

  // ---------------------------------------------------------------- the whole string

  /** Bytes to come at position `i`, counting the one there. */
  function Carry(s: seq<Byte>, i: int): nat
    decreases i
  {
    if i < 0 || i >= |s| then 0 else Len(s[i]) + Sat(Carry(s, i - 1), 1)
  }

  predicate OkAt(s: seq<Byte>, i: nat)
    requires i < |s|
  {
    ByteOk(At(s, i - 1), Carry(s, i - 1) >= 2, s[i])
  }

  predicate OkBelow(s: seq<Byte>, n: nat)
    requires n <= |s|
  {
    forall i :: 0 <= i < n ==> OkAt(s, i)
  }

  lemma {:induction false} CarryBounds(s: seq<Byte>, i: int)
    requires -1 <= i < |s| && OkBelow(s, i + 1)
    ensures Carry(s, i) <= 4
    ensures i >= 0 ==> Carry(s, i) >= 1
    ensures i >= 0 && Len(s[i]) > 0 ==> Carry(s, i - 1) <= 1 && Carry(s, i) == Len(s[i])
    ensures i >= 0 && Len(s[i]) == 0 ==> Carry(s, i - 1) >= 2 && Carry(s, i) == Carry(s, i - 1) - 1
    decreases i
  {
    if i >= 0 {
      CarryBounds(s, i - 1);
      assert OkAt(s, i);
    }
  }

  /** Looking back over at most three lanes, or into the carries of the last block, finds the
      same thing as carrying from byte to byte, as long as nothing was wrong before. */
  lemma CarryFromLanes(s: seq<Byte>, m: nat, k: nat, lens: seq<nat>)
    requires k < 16 && 16 * m + 16 <= |s| && OkBelow(s, 16 * m + k)
    requires |lens| == 16 && forall j :: 0 <= j < 16 ==> lens[j] == Len(s[16 * m + j])
    ensures var i, pc14, pc15 := 16 * m + k, Carry(s, 16 * m - 2), Carry(s, 16 * m - 1);
      var r1, r2 := Right1(lens, pc15, k), Right2(lens, pc14, pc15, k);
      && (r1 + r2 > 0 <==> Carry(s, i - 1) >= 2)
      && (k >= 3 ==> r1 + r2 == Sat(Carry(s, i - 1), 1))
  {
    hide Len, OkAt;
    var i := 16 * m + k;
    if i >= 1 { CarryBounds(s, i - 1); }
    if i >= 2 { CarryBounds(s, i - 2); }
    if i >= 3 { CarryBounds(s, i - 3); }
    if i >= 4 { CarryBounds(s, i - 4); }
    if k >= 1 { assert lens[k - 1] == Len(s[i - 1]); }
    if k >= 2 { assert lens[k - 2] == Len(s[i - 2]); }
    if k >= 3 { assert lens[k - 3] == Len(s[i - 3]); }
  }

  /** What the state handed from block to block says about the bytes before it. */
  ghost predicate Handed(s: seq<Byte>, n: nat, previous: Processed)
    requires n <= |s|
  {
    && previous.highNibbles == HighNibbles(previous.rawbytes)
    && previous.rawbytes[15] == At(s, n - 1)
    && previous.carriedContinuations[14] <= 12 && previous.carriedContinuations[15] <= 12
    && (OkBelow(s, n) ==>
          && previous.carriedContinuations[14] == Carry(s, n - 2) &&
            previous.carriedContinuations[15] == Carry(s, n - 1)
          && forall k :: 0 <= k < 16 ==> previous.carriedContinuations[k] <= 9)
  }

  ghost predicate Clear(e: Lanes, n: nat) {
    forall k :: 0 <= k < n && k < 16 ==> e[k] == 0
  }

  /** The lanes below `n` stay clear exactly when the bytes below are fine. */
  lemma {:induction false} BlockPrefix(s: seq<Byte>, m: nat, current: Lanes, previous: Processed, hasError: Lanes,
      n: nat)
    requires 16 * m + 16 <= |s| && current == s[16 * m..16 * m + 16] && n <= 16
    requires Handed(s, 16 * m, previous) && Clear(hasError, 16) && OkBelow(s, 16 * m)
    ensures Clear(CheckUTF8Bytes(current, previous, hasError).1, n) <==> OkBelow(s, 16 * m + n)
    decreases n
  {
    hide CheckUTF8Bytes, HighNibbles, ByteOk, Right1, Right2, Carry;
    if n > 0 {
      BlockPrefix(s, m, current, previous, hasError, n - 1);
      var k := n - 1;
      var lens := Lens(current);
      assert forall j :: 0 <= j < 16 ==> current[j] == s[16 * m + j];
      LaneError(current, previous, hasError, k);
      if OkBelow(s, 16 * m + k) {
        CarryFromLanes(s, m, k, lens);
        assert PrevByte(current, previous.rawbytes, k) == At(s, 16 * m + k - 1);
        assert CheckUTF8Bytes(current, previous, hasError).1[k] == 0 <==> OkAt(s, 16 * m + k);
      }
    }
  }

  lemma BlockStep(s: seq<Byte>, m: nat, current: Lanes, previous: Processed, hasError: Lanes)
    requires 16 * m + 16 <= |s| && current == s[16 * m..16 * m + 16]
    requires Handed(s, 16 * m, previous) && (Clear(hasError, 16) <==> OkBelow(s, 16 * m))
    ensures var (pb, e) := CheckUTF8Bytes(current, previous, hasError);
      Handed(s, 16 * m + 16, pb) && (Clear(e, 16) <==> OkBelow(s, 16 * m + 16))
  {
    hide CheckUTF8Bytes, HighNibbles, ByteOk, Right1, Right2, Carry, OkAt;
    var (pb, e) := CheckUTF8Bytes(current, previous, hasError);
    LaneError(current, previous, hasError, 14);
    LaneError(current, previous, hasError, 15);
    assert pb.rawbytes[15] == At(s, 16 * m + 15);
    if OkBelow(s, 16 * m) {
      BlockPrefix(s, m, current, previous, hasError, 16);
      if OkBelow(s, 16 * m + 16) {
        assert OkBelow(s, 16 * m + 14) && OkBelow(s, 16 * m + 15);
        LastCarries(s, m, current);
        forall k | 0 <= k < 16 ensures pb.carriedContinuations[k] <= 9 {
          LaneError(current, previous, hasError, k);
          SmallCarries(s, m, current, k);
        }
      }
    } else {
      ErrorsStay(current, previous, hasError);
    }
  }

  lemma LastCarries(s: seq<Byte>, m: nat, current: Lanes)
    requires 16 * m + 16 <= |s| && current == s[16 * m..16 * m + 16] && OkBelow(s, 16 * m + 16)
    ensures var lens, pc14, pc15 := Lens(current), Carry(s, 16 * m - 2), Carry(s, 16 * m - 1);
      && lens[14] + Right1(lens, pc15, 14) + Right2(lens, pc14, pc15, 14) == Carry(s, 16 * m + 14)
      && lens[15] + Right1(lens, pc15, 15) + Right2(lens, pc14, pc15, 15) == Carry(s, 16 * m + 15)
  {
    hide Right1, Right2, OkAt;
    CarryFromLanes(s, m, 14, Lens(current));
    CarryFromLanes(s, m, 15, Lens(current));
  }

  lemma SmallCarries(s: seq<Byte>, m: nat, current: Lanes, k: nat)
    requires 16 * m + 16 <= |s| && current == s[16 * m..16 * m + 16] && OkBelow(s, 16 * m + 16) && k < 16
    ensures var lens, pc14, pc15 := Lens(current), Carry(s, 16 * m - 2), Carry(s, 16 * m - 1);
            lens[k] + Right1(lens, pc15, k) + Right2(lens, pc14, pc15, k) <= 9
  {
    hide OkAt, Right1, Right2;
    assert OkBelow(s, 16 * m + k) && OkBelow(s, 16 * m + k + 1);
    if k >= 3 {
      CarryFromLanes(s, m, k, Lens(current));
      CarryBounds(s, 16 * m + k - 1);
    } else {
      if m > 0 {
        assert OkBelow(s, 16 * m) && OkBelow(s, 16 * m - 1);
        CarryBounds(s, 16 * m - 1);
        CarryBounds(s, 16 * m - 2);
      }
      if k == 2 {
        assert OkBelow(s, 16 * m + 1);
        CarryBounds(s, 16 * m);
      }
      FirstLanesSmall(Lens(current), Carry(s, 16 * m - 2), Carry(s, 16 * m - 1), k);
    }
  }

  lemma FirstLanesSmall(lens: seq<nat>, pc14: nat, pc15: nat, k: nat)
    requires k < 3 <= |lens| && pc14 <= 4 && pc15 <= 4 && forall j :: 0 <= j < |lens| ==> lens[j] <= 4
    requires k == 2 ==> lens[0] + Sat(pc15, 1) <= 4
    ensures lens[k] + Right1(lens, pc15, k) + Right2(lens, pc14, pc15, k) <= 9
  {
  }

  /** An error once raised is never cleared. */
  lemma ErrorsStay(current: Lanes, previous: Processed, hasError: Lanes)
    requires previous.highNibbles == HighNibbles(previous.rawbytes)
    requires previous.carriedContinuations[14] <= 12 && previous.carriedContinuations[15] <= 12
    requires !Clear(hasError, 16)
    ensures !Clear(CheckUTF8Bytes(current, previous, hasError).1, 16)
  {
    hide CheckUTF8Bytes, HighNibbles, ByteOk, Right1, Right2;
    var k :| 0 <= k < 16 && hasError[k] != 0;
    LaneError(current, previous, hasError, k);
  }

  // ---------------------------------------------------------------- byte checks and RFC 3629

  /** Checking byte by byte, with `c` bytes to come counting the last one read. */
  predicate Scan(prev: Byte, c: nat, t: seq<Byte>)
    decreases |t|
  {
    if t == [] then c <= 1
    else ByteOk(prev, c >= 2, t[0]) && Scan(t[0], Len(t[0]) + Sat(c, 1), t[1..])
  }

  lemma {:induction false} ScanIsOk(s: seq<Byte>, i: nat)
    requires i <= |s|
    ensures Scan(At(s, i - 1), Carry(s, i - 1), s[i..]) <==>
              (forall j :: i <= j < |s| ==> OkAt(s, j)) && Carry(s, |s| - 1) <= 1
    decreases |s| - i
  {
    hide ByteOk;
    if i < |s| {
      ScanIsOk(s, i + 1);
      assert s[i..][0] == s[i] && s[i..][1..] == s[i + 1..];
      ScanStep(At(s, i - 1), Carry(s, i - 1), s[i..]);
      assert Carry(s, i) == Len(s[i]) + Sat(Carry(s, i - 1), 1);
      assert OkAt(s, i) <==> ByteOk(At(s, i - 1), Carry(s, i - 1) >= 2, s[i]);
      if OkAt(s, i) && forall j :: i + 1 <= j < |s| ==> OkAt(s, j) {
        assert forall j :: i <= j < |s| ==> OkAt(s, j);
      }
    }
  }

  predicate NotLead(prev: Byte) {
    prev < 0xc0
  }

  /** Between sequences the byte checks accept exactly the well-formed strings. */
  lemma {:induction false} ScanIsWellFormed(prev: Byte, c: nat, t: seq<Byte>)
    requires NotLead(prev) && c <= 1
    ensures Scan(prev, c, t) <==> WellFormed(t)
    decreases |t|
  {
    if t != [] {
      Unroll(prev, c, t);
      var n := CharLen(t);
      var l := Len(t[0]);
      if n > 0 {
        ScanIsWellFormed(t[n - 1], 1, t[n..]);
      }
    }
  }

  lemma FirstOk(prev: Byte, a: Byte)
    requires NotLead(prev)
    ensures ByteOk(prev, false, a) <==> a < 0x80 || 0xc0 <= a <= 0xf4
    ensures ByteOk(prev, true, a) <==> Tail(a)
  {
  }

  /** The second byte of a sequence, in the ranges of the RFC. */
  lemma SecondOk(a: Byte, b: Byte)
    requires 0xc0 <= a <= 0xf4
    ensures ByteOk(a, true, b) <==>
      Tail(b) && a >= 0xc2 && (a == 0xe0 ==> b >= 0xa0) && (a == 0xed ==> b <= 0x9f) && (a == 0xf0 ==> b >= 0x90) &&
        (a == 0xf4 ==> b <= 0x8f)
  {
  }

  /** What scanning the first four bytes comes to, by the kind of the first byte. */
  lemma Unroll(prev: Byte, c: nat, t: seq<Byte>)
    requires NotLead(prev) && c <= 1 && t != []
    ensures CharLen(t) > 0 ==>
      (Scan(prev, c, t) <==> Scan(t[CharLen(t) - 1], 1, t[CharLen(t)..])) && NotLead(t[CharLen(t) - 1])
    ensures CharLen(t) == 0 ==> !Scan(prev, c, t)
  {
    hide Scan, ByteOk;
    ScanStep(prev, c, t);
    FirstOk(prev, t[0]);
    var l := Len(t[0]);
    if ByteOk(prev, false, t[0]) && l > 1 {
      if |t| == 1 {
        ScanEnd(t[0], l, t[1..]);
      } else {
        ScanStep(t[0], l, t[1..]);
        SecondOk(t[0], t[1]);
        assert t[1..][1..] == t[2..];
        if ByteOk(t[0], true, t[1]) && l > 2 {
          Continue(t, l);
        }
      }
    }
  }

  /** The third and fourth bytes. */
  lemma Continue(t: seq<Byte>, l: nat)
    requires |t| >= 2 && Tail(t[1]) && 3 <= l <= 4
    ensures |t| < l ==> !Scan(t[1], l - 1, t[2..])
    ensures |t| >= 3 && !Tail(t[2]) ==> !Scan(t[1], l - 1, t[2..])
    ensures |t| >= 4 && l == 4 && !Tail(t[3]) ==> !Scan(t[1], l - 1, t[2..])
    ensures |t| >= l && (forall i :: 2 <= i < l ==> Tail(t[i])) ==>
      (Scan(t[1], l - 1, t[2..]) <==> Scan(t[l - 1], 1, t[l..]))
  {
    hide Scan, ByteOk;
    if |t| == 2 {
      ScanEnd(t[1], l - 1, t[2..]);
    } else {
      ScanStep(t[1], l - 1, t[2..]);
      FirstOk(t[1], t[2]);
      assert t[2..][1..] == t[3..];
      if Tail(t[2]) && l == 4 {
        if |t| == 3 {
          ScanEnd(t[2], 2, t[3..]);
        } else {
          ScanStep(t[2], 2, t[3..]);
          FirstOk(t[2], t[3]);
          assert t[3..][1..] == t[4..];
        }
      }
    }
  }

  lemma ScanStep(prev: Byte, c: nat, t: seq<Byte>)
    requires t != []
    ensures Scan(prev, c, t) <==> ByteOk(prev, c >= 2, t[0]) && Scan(t[0], Len(t[0]) + Sat(c, 1), t[1..])
  {
  }

  lemma ScanEnd(prev: Byte, c: nat, t: seq<Byte>)
    requires t == []
    ensures Scan(prev, c, t) <==> c <= 1
  {
  }

  // ---------------------------------------------------------------- the driver

  lemma OkIsWellFormed(s: seq<Byte>)
    ensures OkBelow(s, |s|) && Carry(s, |s| - 1) <= 1 <==> WellFormed(s)
  {
    hide Scan, WellFormed, OkAt;
    ScanIsOk(s, 0);
    assert s[0..] == s;
    ScanIsWellFormed(0, 0, s);
  }

  lemma SamePrefixLen(s: seq<Byte>, k: nat)
    requires s != []
    ensures CharLen(s + Zeros(k)) == CharLen(s)
  {
    var t := s + Zeros(k);
    assert forall i :: 0 <= i < |t| ==> t[i] == if i < |s| then s[i] else 0;
  }

  /** Zero bytes behind a string change nothing. */
  lemma {:induction false} PaddedWellFormed(s: seq<Byte>, k: nat)
    ensures WellFormed(s + Zeros(k)) <==> WellFormed(s)
    decreases |s| + k
  {
    var t := s + Zeros(k);
    if s != [] {
      SamePrefixLen(s, k);
      var n := CharLen(s);
      if n > 0 {
        assert t[n..] == s[n..] + Zeros(k);
        PaddedWellFormed(s[n..], k);
      }
    } else if k > 0 {
      assert t[0] == 0 && t[1..] == s + Zeros(k - 1);
      PaddedWellFormed(s, k - 1);
    }
  }

  predicate TestZ(e: Lanes) {
    forall k :: 0 <= k < 16 ==> e[k] == 0
  }

  lemma OrTestZ(a: Lanes, b: Lanes)
    ensures TestZ(OrSi128(a, b)) <==> TestZ(a) && TestZ(b)
  {
    hide OrByte;
    var e := OrSi128(a, b);
    forall k | 0 <= k < 16 ensures e[k] == 0 <==> a[k] == 0 && b[k] == 0 {
      assert e[k] == OrByte(a[k], b[k]);
    }
  }

  lemma ClearTestZ(e: Lanes)
    ensures TestZ(e) <==> Clear(e, 16)
  {
  }

  /** validate_utf8_fast_sse42 accepts exactly what the automaton accepts: the well-formed strings. */
  method ValidateUtf8FastSse42(src: seq<Byte>) returns (valid: bool)
    ensures valid == WellFormed(src)
  {
    hide CheckUTF8Bytes, HighNibbles, WellFormed, OkAt, OkBelow, Carry, Zeros, Handed, CmpgtEpi8, OrSi128, TestZ, Clear;
    var len := |src|;
    ghost var pad := if len % 16 == 0 then 0 else 16 - len % 16;
    ghost var full := src + Zeros(pad);
    PaddedWellFormed(src, pad);
    OkIsWellFormed(full);
    var i := 0;
    var hasError: Lanes := Set1(0);
    var previous := Processed(Set1(0), Set1(0), Set1(0));
    Beginning(full);
    while i + 16 <= len
      invariant i % 16 == 0 && i <= len
      invariant Handed(full, i, previous) && (Clear(hasError, 16) <==> OkBelow(full, i))
    {
      assert |src[i..i + 16]| == 16;
      var current: Lanes := src[i..i + 16];
      SliceOfPrefix(src, Zeros(pad), i, i + 16);
      BlockStep(full, i / 16, current, previous, hasError);
      var (pb, e) := CheckUTF8Bytes(current, previous, hasError);
      previous, hasError := pb, e;
      i := i + 16;
    }
    if i < len {
      var buffer: Lanes := src[i..] + Zeros(16 - (len - i));
      LastBlock(src, i, pad);
      BlockStep(full, i / 16, buffer, previous, hasError);
      var (pb, e) := CheckUTF8Bytes(buffer, previous, hasError);
      previous, hasError := pb, e;
      EndsWithZero(full, src, pad);
      ClearTestZ(hasError);
      valid := TestZ(hasError);
    } else {
      assert full == src;
      var unfinished := CmpgtEpi8(previous.carriedContinuations, LastMax);
      if OkBelow(full, len) { LastLane(full, previous); }
      OrTestZ(unfinished, hasError);
      ClearTestZ(hasError);
      hasError := OrSi128(unfinished, hasError);
      valid := TestZ(hasError);
    }
  }

  lemma LastBlock(src: seq<Byte>, i: nat, pad: nat)
    requires i < |src| < i + 16 && pad == i + 16 - |src|
    ensures (src + Zeros(pad))[i..i + 16] == src[i..] + Zeros(pad)
  {
  }

  lemma SliceOfPrefix(s: seq<Byte>, t: seq<Byte>, i: nat, j: nat)
    requires i <= j <= |s|
    ensures (s + t)[i..j] == s[i..j]
  {
  }

  lemma Beginning(s: seq<Byte>)
    ensures Handed(s, 0, Processed(Set1(0), Set1(0), Set1(0))) && Clear(Set1(0), 16) && OkBelow(s, 0)
  {
    NibblesAre(Set1(0));
    assert HighNibbles(Set1(0)) == Set1(0);
  }

  /** Padding ends every sequence or raises an error. */
  lemma EndsWithZero(full: seq<Byte>, src: seq<Byte>, pad: nat)
    requires pad > 0 && full == src + Zeros(pad)
    ensures OkBelow(full, |full|) ==> Carry(full, |full| - 1) <= 1
  {
    assert full[|full| - 1] == 0;
    if OkBelow(full, |full|) { CarryBounds(full, |full| - 1); }
  }

  /** Without padding the last lane tells whether a sequence is unfinished. */
  lemma LastLane(s: seq<Byte>, previous: Processed)
    requires |s| % 16 == 0 && Handed(s, |s|, previous) && OkBelow(s, |s|)
    ensures TestZ(CmpgtEpi8(previous.carriedContinuations, LastMax)) <==> Carry(s, |s| - 1) <= 1
  {
    hide OkAt, Carry, HighNibbles;
    var u := CmpgtEpi8(previous.carriedContinuations, LastMax);
    assert u[15] == if previous.carriedContinuations[15] > 1 then 0xff else 0;
    forall k | 0 <= k < 15 ensures u[k] == 0 {
      assert LastMax[k] == 9;
      assert previous.carriedContinuations[k] <= 9;
    }
  }
}