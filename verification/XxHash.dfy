/** XXH32 and XXH64: one call over the whole input, or a state fed chunk by chunk. */
module XxHash {
  import opened Bytes
  import opened Format

  // ---------------------------------------------------------------- words

  function W32(x: int): UInt32 {
    x % 0x1_0000_0000
  }

  function W64(x: int): UInt64 {
    x % 0x1_0000_0000_0000_0000
  }

  function Rotl32(x: UInt32, r: nat): UInt32
    requires r < 32
  {
    W32(x * Pow2(r) + Shr(x, 32 - r))
  }

  function Rotl64(x: UInt64, r: nat): UInt64
    requires r < 64
  {
    W64(x * Pow2(r) + Shr(x, 64 - r))
  }

  function Xor(x: nat, y: nat): nat {
    if x == 0 && y == 0 then 0 else 2 * Xor(x / 2, y / 2) + (if x % 2 != y % 2 then 1 else 0)
  }

  const P32A: UInt32 := 0x9E3779B1
  const P32B: UInt32 := 0x85EBCA77
  const P32C: UInt32 := 0xC2B2AE3D
  const P32D: UInt32 := 0x27D4EB2F
  const P32E: UInt32 := 0x165667B1

  const P64A: UInt64 := 0x9E3779B185EBCA87
  const P64B: UInt64 := 0xC2B2AE3D27D4EB4F
  const P64C: UInt64 := 0x165667B19E3779F9
  const P64D: UInt64 := 0x85EBCA77C2B2AE63
  const P64E: UInt64 := 0x27D4EB2F165667C5

  datatype Lanes = Lanes(v1: int, v2: int, v3: int, v4: int)

  // ---------------------------------------------------------------- XXH32

  function Round32(acc: int, input: nat): UInt32 {
    W32(Rotl32(W32(acc + W32(input * P32B)), 13) * P32A)
  }

  function Avalanche32(h: UInt32): UInt32 {
    var a := W32(Xor(h, Shr(h, 15)) * P32B);
    var b := W32(Xor(a, Shr(a, 13)) * P32C);
    W32(Xor(b, Shr(b, 16)))
  }

  function Begin32(seed: UInt32): Lanes {
    Lanes(W32(seed + P32A + P32B), W32(seed + P32B), seed, W32(seed - P32A))
  }

  function Stripe32(v: Lanes, s: seq<Byte>): Lanes {
    Lanes(Round32(v.v1, ReadLE(s, 0, 4)), Round32(v.v2, ReadLE(s, 4, 4)), Round32(v.v3, ReadLE(s, 8, 4)),
        Round32(v.v4, ReadLE(s, 12, 4)))
  }

  function Merge32(v: Lanes): UInt32 {
    W32(Rotl32(W32(v.v1), 1) + Rotl32(W32(v.v2), 7) + Rotl32(W32(v.v3), 12) + Rotl32(W32(v.v4), 18))
  }

  function Four32(h: UInt32, s: seq<Byte>): UInt32 {
    W32(Rotl32(W32(h + W32(ReadLE(s, 0, 4) * P32C)), 17) * P32D)
  }

  function One32(h: UInt32, c: Byte): UInt32 {
    W32(Rotl32(W32(h + W32(c * P32E)), 11) * P32A)
  }

  /** The bytes that do not fill a stripe: words first, then single bytes. */
  function Finalize32(h: UInt32, tail: seq<Byte>): UInt32
    decreases |tail|
  {
    if |tail| >= 4 then Finalize32(Four32(h, tail), tail[4..])
    else if tail != [] then Finalize32(One32(h, tail[0]), tail[1..])
    else Avalanche32(h)
  }

  /** All whole stripes of `n` bytes, in order. */
  function Fold(f: (Lanes, seq<Byte>) -> Lanes, v: Lanes, s: seq<Byte>, n: nat): Lanes
    requires n > 0
    decreases |s|
  {
    if |s| < n then v else Fold(f, f(v, s[..n]), s[n..], n)
  }

  /** What is left behind the whole stripes. */
  function Left(s: seq<Byte>, n: nat): (r: seq<Byte>)
    requires n > 0
    ensures |r| < n && |r| <= |s|
    decreases |s|
  {
    if |s| < n then s else Left(s[n..], n)
  }

  /** XXH32 of a byte string. */
  function Hash32(seed: UInt32, s: seq<Byte>): UInt32 {
    var h := if |s| >= 16 then Merge32(Fold(Stripe32, Begin32(seed), s, 16)) else W32(seed + P32E);
    Finalize32(W32(h + |s|), Left(s, 16))
  }

  // ---------------------------------------------------------------- XXH64

  function Round64(acc: int, input: nat): UInt64 {
    W64(Rotl64(W64(acc + W64(input * P64B)), 31) * P64A)
  }

  function MergeRound64(acc: UInt64, val: int): UInt64 {
    W64(Xor(acc, Round64(0, W64(val))) * P64A + P64D)
  }

  function Avalanche64(h: UInt64): UInt64 {
    var a := W64(Xor(h, Shr(h, 33)) * P64B);
    var b := W64(Xor(a, Shr(a, 29)) * P64C);
    W64(Xor(b, Shr(b, 32)))
  }

  function Begin64(seed: UInt64): Lanes {
    Lanes(W64(seed + P64A + P64B), W64(seed + P64B), seed, W64(seed - P64A))
  }

  function Stripe64(v: Lanes, s: seq<Byte>): Lanes {
    Lanes(Round64(v.v1, ReadLE(s, 0, 8)), Round64(v.v2, ReadLE(s, 8, 8)), Round64(v.v3, ReadLE(s, 16, 8)),
        Round64(v.v4, ReadLE(s, 24, 8)))
  }

  function Merge64(v: Lanes): UInt64 {
    var h := W64(Rotl64(W64(v.v1), 1) + Rotl64(W64(v.v2), 7) + Rotl64(W64(v.v3), 12) + Rotl64(W64(v.v4), 18));
    MergeRound64(MergeRound64(MergeRound64(MergeRound64(h, v.v1), v.v2), v.v3), v.v4)
  }

  function Eight64(h: UInt64, s: seq<Byte>): UInt64 {
    W64(Rotl64(W64(Xor(h, Round64(0, ReadLE(s, 0, 8)))), 27) * P64A + P64D)
  }

  function Four64(h: UInt64, s: seq<Byte>): UInt64 {
    W64(Rotl64(W64(Xor(h, W64(ReadLE(s, 0, 4) * P64A))), 23) * P64B + P64C)
  }

  function One64(h: UInt64, c: Byte): UInt64 {
    W64(Rotl64(W64(Xor(h, W64(c * P64E))), 11) * P64A)
  }

  function Finalize64(h: UInt64, tail: seq<Byte>): UInt64
    decreases |tail|
  {
    if |tail| >= 8 then Finalize64(Eight64(h, tail), tail[8..])
    else if |tail| >= 4 then Finalize64(Four64(h, tail), tail[4..])
    else if tail != [] then Finalize64(One64(h, tail[0]), tail[1..])
    else Avalanche64(h)
  }

  /** XXH64 of a byte string. */
  function Hash64(seed: UInt64, s: seq<Byte>): UInt64 {
    var h := if |s| >= 32 then Merge64(Fold(Stripe64, Begin64(seed), s, 32)) else W64(seed + P64E);
    Finalize64(W64(h + |s|), Left(s, 32))
  }

  // ---------------------------------------------------------------- folding in pieces

  /** Whole stripes first, the rest later. */
  lemma {:induction false} FoldAppend(f: (Lanes, seq<Byte>) -> Lanes, v: Lanes, s: seq<Byte>, t: seq<Byte>, n: nat)
    requires n > 0
    ensures Fold(f, v, s + t, n) == Fold(f, Fold(f, v, s, n), Left(s, n) + t, n)
    ensures Left(s + t, n) == Left(Left(s, n) + t, n)
    decreases |s|
  {
    if |s| >= n {
      assert (s + t)[..n] == s[..n] && (s + t)[n..] == s[n..] + t;
      FoldAppend(f, f(v, s[..n]), s[n..], t, n);
    }
  }

  lemma LeftShort(s: seq<Byte>, n: nat)
    requires n > 0 && |s| < n
    ensures Left(s, n) == s
    ensures forall f: (Lanes, seq<Byte>) -> Lanes, v: Lanes :: Fold(f, v, s, n) == v
  {
  }

  lemma {:induction false} LeftLength(s: seq<Byte>, n: nat)
    requires n > 0
    ensures |Left(s, n)| == |s| % n
    decreases |s|
  {
    if |s| >= n {
      LeftLength(s[n..], n);
      assert (|s| - n) % n == |s| % n by { ModStep(|s| - n, n); }
    }
  }

  lemma ModStep(x: nat, n: nat)
    requires n > 0
    ensures (x + n) % n == x % n
  {
    var q, r := x / n, x % n;
    assert x + n == (q + 1) * n + r;
    Remainder(x + n, n, q + 1, r);
  }

  lemma Remainder(x: nat, n: nat, q: nat, r: nat)
    requires n > 0 && x == q * n + r && r < n
    ensures x % n == r
  {
    var p := x / n;
    assert x == p * n + x % n;
    if p < q { MulLe(p + 1, q, n); }
    if p > q { MulLe(q + 1, p, n); }
  }

  // ---------------------------------------------------------------- one call

  /** The stripes of one call: four lanes, as long as a whole stripe is left. */
  method Stripes32(input: seq<Byte>, v0: Lanes) returns (v: Lanes, p: nat)
    requires |input| >= 16
    ensures v == Fold(Stripe32, v0, input, 16) && p <= |input| && input[p..] == Left(input, 16)
  {
    hide Stripe32;
    v, p := v0, 0;
    assert input[0..] == input;
    var limit := |input| - 15;
    while true
      invariant p < limit
      invariant Fold(Stripe32, v0, input, 16) == Fold(Stripe32, v, input[p..], 16) &&
        Left(input, 16) == Left(input[p..], 16)
      decreases |input| - p
    {
      assert input[p..][..16] == input[p..p + 16] && input[p..][16..] == input[p + 16..];
      StripeReads32(v, input, p);
      v := Lanes(Round32(v.v1, ReadLE(input, p, 4)), Round32(v.v2, ReadLE(input, p + 4, 4)),
                 Round32(v.v3, ReadLE(input, p + 8, 4)), Round32(v.v4, ReadLE(input, p + 12, 4)));
      p := p + 16;
      if p >= limit { break; }
    }
  }

  lemma ReadSlice(s: seq<Byte>, p: nat, n: nat, q: nat, w: nat)
    requires p + n <= |s| && q + w <= n
    ensures ReadLE(s[p..p + n], q, w) == ReadLE(s, p + q, w)
  {
    var a, b := Read(s[p..p + n], q, w), Read(s, p + q, w);
    forall i | 0 <= i < w ensures a[i] == b[i] {
      assert s[p..p + n][q + i] == s[p + (q + i)];
      assert a[i] == At(s[p..p + n], q + i) && b[i] == At(s, p + q + i);
    }
    assert a == b;
  }

  lemma StripeReads32(v: Lanes, s: seq<Byte>, p: nat)
    requires p + 16 <= |s|
    ensures Stripe32(v, s[p..p + 16]) == Lanes(Round32(v.v1, ReadLE(s, p, 4)), Round32(v.v2, ReadLE(s, p + 4, 4)),
                                             Round32(v.v3, ReadLE(s, p + 8, 4)), Round32(v.v4, ReadLE(s, p + 12, 4)))
  {
    hide Round32, ReadLE;
    ReadSlice(s, p, 16, 0, 4);
    ReadSlice(s, p, 16, 4, 4);
    ReadSlice(s, p, 16, 8, 4);
    ReadSlice(s, p, 16, 12, 4);
  }

  /** XXH32_finalize in its rerolled form. */
  method FinalizeReroll32(h0: UInt32, tail: seq<Byte>) returns (r: UInt32)
    requires |tail| < 16
    ensures r == Finalize32(h0, tail)
  {
    hide Four32, One32, Avalanche32;
    var h, p := h0, 0;
    assert tail[0..] == tail;
    while |tail| - p >= 4
      invariant p <= |tail| && Finalize32(h, tail[p..]) == Finalize32(h0, tail)
    {
      assert tail[p..][4..] == tail[p + 4..];
      h := Four32(h, tail[p..]);
      p := p + 4;
    }
    while p < |tail|
      invariant p <= |tail| && |tail| - p < 4 && Finalize32(h, tail[p..]) == Finalize32(h0, tail)
    {
      assert tail[p..][1..] == tail[p + 1..];
      h := One32(h, tail[p]);
      p := p + 1;
    }
    r := Avalanche32(h);
  }

  /** PROCESS4: a word of the tail is worked in; the hash that comes out in the end stays. */
  method Process4(h0: UInt32, t0: seq<Byte>) returns (h: UInt32, t: seq<Byte>)
    requires |t0| >= 4
    ensures t == t0[4..] && Finalize32(h, t) == Finalize32(h0, t0)
  {
    h, t := Four32(h0, t0), t0[4..];
  }

  /** PROCESS1. */
  method Process1(h0: UInt32, t0: seq<Byte>) returns (h: UInt32, t: seq<Byte>)
    requires 1 <= |t0| < 4
    ensures t == t0[1..] && Finalize32(h, t) == Finalize32(h0, t0)
  {
    h, t := One32(h0, t0[0]), t0[1..];
  }

  lemma NothingLeft32(h: UInt32, t: seq<Byte>)
    requires t == []
    ensures Finalize32(h, t) == Avalanche32(h)
  {
  }

  /** XXH32_finalize in its switch form: every case falls through to the next of its group. */
  method FinalizeSwitch32(h0: UInt32, tail: seq<Byte>) returns (r: UInt32)
    requires |tail| < 16
    ensures r == Finalize32(h0, tail)
  {
    hide Avalanche32, Finalize32;
    var n := |tail|;
    var h, t := h0, tail;
    if n in {12, 8, 4} {
      if n == 12 { h, t := Process4(h, t); }
      if n in {12, 8} { h, t := Process4(h, t); }
      h, t := Process4(h, t);
    } else if n in {13, 9, 5} {
      if n == 13 { h, t := Process4(h, t); }
      if n in {13, 9} { h, t := Process4(h, t); }
      h, t := Process4(h, t);
      h, t := Process1(h, t);
    } else if n in {14, 10, 6} {
      if n == 14 { h, t := Process4(h, t); }
      if n in {14, 10} { h, t := Process4(h, t); }
      h, t := Process4(h, t);
      h, t := Process1(h, t);
      h, t := Process1(h, t);
    } else {
      if n == 15 { h, t := Process4(h, t); }
      if n in {15, 11} { h, t := Process4(h, t); }
      if n in {15, 11, 7} { h, t := Process4(h, t); }
      if n in {15, 11, 7, 3} { h, t := Process1(h, t); }
      if n in {15, 11, 7, 3, 2} { h, t := Process1(h, t); }
      if n in {15, 11, 7, 3, 2, 1} { h, t := Process1(h, t); }
    }
    NothingLeft32(h, t);
    r := Avalanche32(h);
  }

  /** XXH32 in one call. */
  method XXH32(input: seq<Byte>, seed: UInt32) returns (h: UInt32)
    ensures h == Hash32(seed, input)
  {
    hide Stripe32, Merge32, Finalize32;
    var p := 0;
    if |input| >= 16 {
      var v;
      v, p := Stripes32(input, Begin32(seed));
      h := Merge32(v);
    } else {
      h := W32(seed + P32E);
      assert input[0..] == input;
    }
    h := W32(h + W32(|input|));
    W32Add(if |input| >= 16 then Merge32(Fold(Stripe32, Begin32(seed), input, 16)) else W32(seed + P32E), |input|);
    h := FinalizeSwitch32(h, input[p..]);
  }

  lemma W32Add(h: UInt32, n: nat)
    ensures W32(h + W32(n)) == W32(h + n)
  {
  }

  /** XXH32_state_t: lanes, and the bytes that do not fill a stripe yet. */
  class State32 {
    var totalLen: UInt32
    var largeLen: bool
    var v: Lanes
    var mem: seq<Byte>
    var memsize: nat
    ghost var seen: seq<Byte>
    ghost var seed: UInt32

    ghost predicate Valid()
      reads this
    {
      && |mem| == 16 && memsize == |Left(seen, 16)|
      && mem[..memsize] == Left(seen, 16)
      && v == Fold(Stripe32, Begin32(seed), seen, 16)
      && totalLen == W32(|seen|) && (largeLen <==> |seen| >= 16)
    }

    /** XXH32_reset. */
    constructor (seed: UInt32)
      ensures Valid() && seen == [] && this.seed == seed
    {
      totalLen, largeLen, v, mem, memsize := 0, false, Begin32(seed), Zeros(16), 0;
      this.seed, seen := seed, [];
    }

    /** XXH32_update: a stripe is completed from the buffer, whole stripes are taken directly,
        what is left is kept. */
    method Update(input: seq<Byte>)
      requires Valid()
      modifies this
      ensures Valid() && seen == old(seen) + input && seed == old(seed)
    {
      hide Stripe32, Begin32, Left, Fold;
      FoldAppend(Stripe32, Begin32(seed), seen, input, 16);
      LengthGrows(|seen|, |input|);
      seen := seen + input;
      totalLen := W32(totalLen + W32(|input|));
      largeLen := largeLen || |input| >= 16 || totalLen >= 16;
      if memsize + |input| < 16 {
        Keep(input);
        return;
      }
      var p := Complete(input);
      v, p := MoreStripes32(input, p, v);
      if p < |input| {
        mem := Put(mem, 0, input[p..]);
        memsize := |input| - p;
      }
      assert mem[..memsize] == input[p..];
    }

    /** Too little for a stripe: all of it is kept. */
    method Keep(input: seq<Byte>)
      requires |mem| == 16 && memsize + |input| < 16
      modifies this`mem, this`memsize
      ensures |mem| == 16 && memsize < 16 && mem[..memsize] == old(mem[..memsize]) + input
      ensures Fold(Stripe32, v, mem[..memsize], 16) == v && Left(mem[..memsize], 16) == mem[..memsize]
    {
      mem := Put(mem, memsize, input);
      PutBehind(old(mem), memsize, input);
      memsize := memsize + |input|;
      LeftShort(mem[..memsize], 16);
    }

    /** The buffered bytes, if there are any, are completed to a stripe. */
    method Complete(input: seq<Byte>) returns (p: nat)
      requires |mem| == 16 && memsize < 16 && memsize + |input| >= 16
      modifies this`mem, this`memsize, this`v
      ensures |mem| == 16 && memsize == 0 && p <= |input|
      ensures Fold(Stripe32, v, input[p..], 16) == Fold(Stripe32, old(v), old(mem[..memsize]) + input, 16)
      ensures Left(input[p..], 16) == Left(old(mem[..memsize]) + input, 16)
    {
      hide Stripe32, Left, Fold;
      p := 0;
      if memsize > 0 {
        p := 16 - memsize;
        FirstStripe(Stripe32, v, mem[..memsize], input, 16);
        mem := Put(mem, memsize, input[..p]);
        PutBehind(old(mem), memsize, input[..p]);
        v := Stripe32(v, mem);
        memsize := 0;
      } else {
        assert mem[..memsize] + input == input[0..];
      }
    }

    /** XXH32_digest. */
    method Digest() returns (h: UInt32)
      requires Valid()
      ensures h == Hash32(seed, seen)
    {
      hide Stripe32, Merge32, Finalize32, Left, Fold, Begin32;
      if largeLen {
        h := Merge32(v);
      } else {
        FoldShort(Stripe32, Begin32(seed), seen, 16);
        h := W32(SeedLane32(seed, v) + P32E);
      }
      W32Add(h, |seen|);
      h := W32(h + totalLen);
      h := FinalizeSwitch32(h, mem[..memsize]);
    }
  }

  /** As long as no stripe was taken the third lane is the seed. */
  function SeedLane32(ghost seed: UInt32, v: Lanes): (r: UInt32)
    requires v == Begin32(seed)
    ensures r == seed
  {
    v.v3
  }

  lemma FoldShort(f: (Lanes, seq<Byte>) -> Lanes, v: Lanes, s: seq<Byte>, n: nat)
    requires n > 0 && |s| < n
    ensures Fold(f, v, s, n) == v
  {
  }

  /** The stripe completed from the buffer. */
  lemma FirstStripe(f: (Lanes, seq<Byte>) -> Lanes, v: Lanes, left: seq<Byte>, input: seq<Byte>, n: nat)
    requires |left| < n <= |left| + |input|
    ensures var p := n - |left|;
      && Fold(f, v, left + input, n) == Fold(f, f(v, left + input[..p]), input[p..], n)
      && Left(left + input, n) == Left(input[p..], n)
  {
    var p := n - |left|;
    assert (left + input)[..n] == left + input[..p] && (left + input)[n..] == input[p..];
  }

  /** The 32-bit length wraps around; the flag remembers that it was large. */
  lemma LengthGrows(seen: nat, more: nat)
    ensures W32(W32(seen) + W32(more)) == W32(seen + more)
    ensures seen + more >= 16 <==> seen >= 16 || more >= 16 || W32(seen + more) >= 16
  {
  }

  method MoreStripes32(input: seq<Byte>, p0: nat, v0: Lanes) returns (v: Lanes, p: nat)
    requires p0 <= |input|
    ensures p0 <= p <= |input| && v == Fold(Stripe32, v0, input[p0..], 16) && input[p..] == Left(input[p0..], 16)
  {
    hide Stripe32;
    v, p := v0, p0;
    while p + 16 <= |input|
      invariant p0 <= p <= |input|
      invariant Fold(Stripe32, v, input[p..], 16) == Fold(Stripe32, v0, input[p0..], 16) &&
        Left(input[p..], 16) == Left(input[p0..], 16)
    {
      assert input[p..][..16] == input[p..p + 16] && input[p..][16..] == input[p + 16..];
      StripeReads32(v, input, p);
      v := Lanes(Round32(v.v1, ReadLE(input, p, 4)), Round32(v.v2, ReadLE(input, p + 4, 4)),
                 Round32(v.v3, ReadLE(input, p + 8, 4)), Round32(v.v4, ReadLE(input, p + 12, 4)));
      p := p + 16;
    }
  }

  /** Streaming equals one call, for every seed and every way of cutting the input into chunks. */
  method StreamedXXH32(chunks: seq<seq<Byte>>, seed: UInt32) returns (h: UInt32)
    ensures h == Hash32(seed, Flatten(chunks))
  {
    hide Hash32, State32.Valid;
    var state := new State32(seed);
    var i := 0;
    while i < |chunks|
      invariant 0 <= i <= |chunks| && state.Valid() && state.seed == seed && state.seen == Flatten(chunks[..i])
    {
      FlattenSnoc(chunks[..i], chunks[i]);
      assert chunks[..i + 1] == chunks[..i] + [chunks[i]];
      state.Update(chunks[i]);
      i := i + 1;
    }
    assert chunks[..i] == chunks;
    h := state.Digest();
  }

  // ---------------------------------------------------------------- the same for 64 bits

  lemma StripeReads64(v: Lanes, s: seq<Byte>, p: nat)
    requires p + 32 <= |s|
    ensures Stripe64(v, s[p..p + 32]) == Lanes(Round64(v.v1, ReadLE(s, p, 8)), Round64(v.v2, ReadLE(s, p + 8, 8)),
                                             Round64(v.v3, ReadLE(s, p + 16, 8)), Round64(v.v4, ReadLE(s, p + 24, 8)))
  {
    hide Round64, ReadLE;
    ReadSlice(s, p, 32, 0, 8);
    ReadSlice(s, p, 32, 8, 8);
    ReadSlice(s, p, 32, 16, 8);
    ReadSlice(s, p, 32, 24, 8);
  }

  /** XXH64_finalize in its rerolled form. */
  method FinalizeReroll64(h0: UInt64, tail: seq<Byte>) returns (r: UInt64)
    requires |tail| < 32
    ensures r == Finalize64(h0, tail)
  {
    hide Eight64, Four64, One64, Avalanche64;
    var h, p := h0, 0;
    assert tail[0..] == tail;
    while |tail| - p >= 8
      invariant p <= |tail| && Finalize64(h, tail[p..]) == Finalize64(h0, tail)
    {
      assert tail[p..][8..] == tail[p + 8..];
      h := Eight64(h, tail[p..]);
      p := p + 8;
    }
    if |tail| - p >= 4 {
      assert tail[p..][4..] == tail[p + 4..];
      h := Four64(h, tail[p..]);
      p := p + 4;
    }
    while p < |tail|
      invariant p <= |tail| && |tail| - p < 4 && Finalize64(h, tail[p..]) == Finalize64(h0, tail)
    {
      assert tail[p..][1..] == tail[p + 1..];
      h := One64(h, tail[p]);
      p := p + 1;
    }
    r := Avalanche64(h);
  }

  /** PROCESS8_64, PROCESS4_64 and PROCESS1_64: part of the tail is worked in. */
  method Process8of64(h0: UInt64, t0: seq<Byte>) returns (h: UInt64, t: seq<Byte>)
    requires |t0| >= 8
    ensures t == t0[8..] && Finalize64(h, t) == Finalize64(h0, t0)
  {
    h, t := Eight64(h0, t0), t0[8..];
  }

  method Process4of64(h0: UInt64, t0: seq<Byte>) returns (h: UInt64, t: seq<Byte>)
    requires 4 <= |t0| < 8
    ensures t == t0[4..] && Finalize64(h, t) == Finalize64(h0, t0)
  {
    h, t := Four64(h0, t0), t0[4..];
  }

  method Process1of64(h0: UInt64, t0: seq<Byte>) returns (h: UInt64, t: seq<Byte>)
    requires 1 <= |t0| < 4
    ensures t == t0[1..] && Finalize64(h, t) == Finalize64(h0, t0)
  {
    h, t := One64(h0, t0[0]), t0[1..];
  }

  lemma NothingLeft64(h: UInt64, t: seq<Byte>)
    requires t == []
    ensures Finalize64(h, t) == Avalanche64(h)
  {
  }

  /** XXH64_finalize in its switch form: every case falls through to the next of its group. */
  method FinalizeSwitch64(h0: UInt64, tail: seq<Byte>) returns (r: UInt64)
    requires |tail| < 32
    ensures r == Finalize64(h0, tail)
  {
    hide Avalanche64, Finalize64;
    var n := |tail|;
    var h, t := h0, tail;
    if n in {24, 16, 8} {
      if n == 24 { h, t := Process8of64(h, t); }
      if n in {24, 16} { h, t := Process8of64(h, t); }
      h, t := Process8of64(h, t);
    } else if n in {28, 20, 12, 4} {
      if n == 28 { h, t := Process8of64(h, t); }
      if n in {28, 20} { h, t := Process8of64(h, t); }
      if n in {28, 20, 12} { h, t := Process8of64(h, t); }
      h, t := Process4of64(h, t);
    } else if n in {25, 17, 9} {
      if n == 25 { h, t := Process8of64(h, t); }
      if n in {25, 17} { h, t := Process8of64(h, t); }
      h, t := Process8of64(h, t);
      h, t := Process1of64(h, t);
    } else if n in {29, 21, 13, 5} {
      if n == 29 { h, t := Process8of64(h, t); }
      if n in {29, 21} { h, t := Process8of64(h, t); }
      if n in {29, 21, 13} { h, t := Process8of64(h, t); }
      h, t := Process4of64(h, t);
      h, t := Process1of64(h, t);
    } else if n in {26, 18, 10} {
      if n == 26 { h, t := Process8of64(h, t); }
      if n in {26, 18} { h, t := Process8of64(h, t); }
      h, t := Process8of64(h, t);
      h, t := Process1of64(h, t);
      h, t := Process1of64(h, t);
    } else if n in {30, 22, 14, 6} {
      if n == 30 { h, t := Process8of64(h, t); }
      if n in {30, 22} { h, t := Process8of64(h, t); }
      if n in {30, 22, 14} { h, t := Process8of64(h, t); }
      h, t := Process4of64(h, t);
      h, t := Process1of64(h, t);
      h, t := Process1of64(h, t);
    } else if n in {27, 19, 11} {
      if n == 27 { h, t := Process8of64(h, t); }
      if n in {27, 19} { h, t := Process8of64(h, t); }
      h, t := Process8of64(h, t);
      h, t := Process1of64(h, t);
      h, t := Process1of64(h, t);
      h, t := Process1of64(h, t);
    } else {
      if n == 31 { h, t := Process8of64(h, t); }
      if n in {31, 23} { h, t := Process8of64(h, t); }
      if n in {31, 23, 15} { h, t := Process8of64(h, t); }
      if n in {31, 23, 15, 7} { h, t := Process4of64(h, t); }
      if n in {31, 23, 15, 7, 3} { h, t := Process1of64(h, t); }
      if n in {31, 23, 15, 7, 3, 2} { h, t := Process1of64(h, t); }
      if n in {31, 23, 15, 7, 3, 2, 1} { h, t := Process1of64(h, t); }
    }
    NothingLeft64(h, t);
    r := Avalanche64(h);
  }

  /** XXH64 in one call. */
  method XXH64(input: seq<Byte>, seed: UInt64) returns (h: UInt64)
    ensures h == Hash64(seed, input)
  {
    hide Stripe64, Merge64, Finalize64;
    var p := 0;
    assert input[0..] == input;
    if |input| >= 32 {
      var v;
      v, p := MoreStripes64(input, 0, Begin64(seed));
      h := Merge64(v);
    } else {
      h := W64(seed + P64E);
    }
    W64Add(h, |input|);
    h := W64(h + W64(|input|));
    h := FinalizeSwitch64(h, input[p..]);
  }

  lemma W64Add(h: UInt64, n: nat)
    ensures W64(h + W64(n)) == W64(h + n)
  {
  }

  method MoreStripes64(input: seq<Byte>, p0: nat, v0: Lanes) returns (v: Lanes, p: nat)
    requires p0 <= |input|
    ensures p0 <= p <= |input| && v == Fold(Stripe64, v0, input[p0..], 32) && input[p..] == Left(input[p0..], 32)
  {
    hide Stripe64;
    v, p := v0, p0;
    while p + 32 <= |input|
      invariant p0 <= p <= |input|
      invariant Fold(Stripe64, v, input[p..], 32) == Fold(Stripe64, v0, input[p0..], 32) &&
        Left(input[p..], 32) == Left(input[p0..], 32)
    {
      assert input[p..][..32] == input[p..p + 32] && input[p..][32..] == input[p + 32..];
      StripeReads64(v, input, p);
      v := Lanes(Round64(v.v1, ReadLE(input, p, 8)), Round64(v.v2, ReadLE(input, p + 8, 8)),
                 Round64(v.v3, ReadLE(input, p + 16, 8)), Round64(v.v4, ReadLE(input, p + 24, 8)));
      p := p + 32;
    }
  }

  /** XXH64_state_t. Whether a stripe was taken is told from the total length alone. */
  class State64 {
    var totalLen: UInt64
    var v: Lanes
    var mem: seq<Byte>
    var memsize: nat
    ghost var seen: seq<Byte>
    ghost var seed: UInt64

    ghost predicate Valid()
      reads this
    {
      && |mem| == 32 && memsize == |Left(seen, 32)|
      && mem[..memsize] == Left(seen, 32)
      && v == Fold(Stripe64, Begin64(seed), seen, 32)
      && totalLen == W64(|seen|)
    }

    /** XXH64_reset. */
    constructor (seed: UInt64)
      ensures Valid() && seen == [] && this.seed == seed
    {
      totalLen, v, mem, memsize := 0, Begin64(seed), Zeros(32), 0;
      this.seed, seen := seed, [];
    }

    /** XXH64_update. */
    method Update(input: seq<Byte>)
      requires Valid()
      modifies this
      ensures Valid() && seen == old(seen) + input && seed == old(seed)
    {
      hide Stripe64, Begin64, Left, Fold;
      FoldAppend(Stripe64, Begin64(seed), seen, input, 32);
      W64Sum(|seen|, |input|);
      seen := seen + input;
      totalLen := W64(totalLen + W64(|input|));
      if memsize + |input| < 32 {
        Keep(input);
        return;
      }
      var p := Complete(input);
      v, p := MoreStripes64(input, p, v);
      if p < |input| {
        mem := Put(mem, 0, input[p..]);
        memsize := |input| - p;
      }
      assert mem[..memsize] == input[p..];
    }

    method Keep(input: seq<Byte>)
      requires |mem| == 32 && memsize + |input| < 32
      modifies this`mem, this`memsize
      ensures |mem| == 32 && memsize < 32 && mem[..memsize] == old(mem[..memsize]) + input
      ensures Fold(Stripe64, v, mem[..memsize], 32) == v && Left(mem[..memsize], 32) == mem[..memsize]
    {
      mem := Put(mem, memsize, input);
      PutBehind(old(mem), memsize, input);
      memsize := memsize + |input|;
      LeftShort(mem[..memsize], 32);
    }

    method Complete(input: seq<Byte>) returns (p: nat)
      requires |mem| == 32 && memsize < 32 && memsize + |input| >= 32
      modifies this`mem, this`memsize, this`v
      ensures |mem| == 32 && memsize == 0 && p <= |input|
      ensures Fold(Stripe64, v, input[p..], 32) == Fold(Stripe64, old(v), old(mem[..memsize]) + input, 32)
      ensures Left(input[p..], 32) == Left(old(mem[..memsize]) + input, 32)
    {
      hide Stripe64, Left, Fold;
      p := 0;
      if memsize > 0 {
        p := 32 - memsize;
        FirstStripe(Stripe64, v, mem[..memsize], input, 32);
        mem := Put(mem, memsize, input[..p]);
        PutBehind(old(mem), memsize, input[..p]);
        v := Stripe64(v, mem);
        memsize := 0;
      } else {
        assert mem[..memsize] + input == input[0..];
      }
    }

    /** XXH64_digest: the length of the tail is taken from the total length, too. */
    method Digest() returns (h: UInt64)
      requires Valid() && |seen| < 0x1_0000_0000_0000_0000
      ensures h == Hash64(seed, seen)
    {
      hide Stripe64, Merge64, Finalize64, Left, Fold, Begin64;
      LeftLength(seen, 32);
      if totalLen >= 32 {
        h := Merge64(v);
      } else {
        FoldShort(Stripe64, Begin64(seed), seen, 32);
        h := W64(SeedLane64(seed, v) + P64E);
      }
      h := W64(h + totalLen);
      h := FinalizeSwitch64(h, mem[..totalLen % 32]);
    }
  }

  function SeedLane64(ghost seed: UInt64, v: Lanes): (r: UInt64)
    requires v == Begin64(seed)
    ensures r == seed
  {
    v.v3
  }

  lemma W64Sum(x: nat, y: nat)
    ensures W64(W64(x) + W64(y)) == W64(x + y)
  {
  }

  /** Streaming equals one call, for every seed and every way of cutting the input into chunks. */
  method StreamedXXH64(chunks: seq<seq<Byte>>, seed: UInt64) returns (h: UInt64)
    requires |Flatten(chunks)| < 0x1_0000_0000_0000_0000
    ensures h == Hash64(seed, Flatten(chunks))
  {
    hide Hash64, State64.Valid;
    var state := new State64(seed);
    var i := 0;
    while i < |chunks|
      invariant 0 <= i <= |chunks| && state.Valid() && state.seed == seed && state.seen == Flatten(chunks[..i])
    {
      FlattenSnoc(chunks[..i], chunks[i]);
      assert chunks[..i + 1] == chunks[..i] + [chunks[i]];
      state.Update(chunks[i]);
      i := i + 1;
    }
    assert chunks[..i] == chunks;
    h := state.Digest();
  }
}
