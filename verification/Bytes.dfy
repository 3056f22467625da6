/** Bytes, little-endian and LEB128 integers, and the byte order of keys. */
module Bytes {
  type Byte = x: int | 0 <= x < 256

  /** Lengths and positions are 64-bit numbers in the source. */
  const Limit := 0x1_0000_0000_0000_0000

  type UInt32 = x: int | 0 <= x < 0x1_0000_0000
  type UInt64 = x: int | 0 <= x < 0x1_0000_0000_0000_0000
  type Int64 = x: int | -0x8000_0000_0000_0000 <= x < 0x8000_0000_0000_0000

  /** The byte at position `p`; positions outside the buffer read as 0. */
  function At(b: seq<Byte>, p: int): Byte {
    if 0 <= p < |b| then b[p] else 0
  }

  /** `s` stands in `b` at position `p`. */
  predicate Has(b: seq<Byte>, p: nat, s: seq<Byte>) {
    p + |s| <= |b| && b[p..p + |s|] == s
  }

  function Zeros(n: nat): (r: seq<Byte>)
    ensures |r| == n
  {
    seq(n, i => 0)
  }

  /** `s` with the bytes `t` written over it from position `at`. */
  function Put(s: seq<Byte>, at: nat, t: seq<Byte>): (r: seq<Byte>)
    requires at + |t| <= |s|
    ensures |r| == |s|
    ensures r[..at] == s[..at] && r[at..at + |t|] == t && r[at + |t|..] == s[at + |t|..]
  {
    s[..at] + t + s[at + |t|..]
  }

  lemma HasBytes(b: seq<Byte>, p: nat, s: seq<Byte>)
    requires Has(b, p, s)
    ensures forall i :: 0 <= i < |s| ==> At(b, p + i) == s[i]
  {
    forall i | 0 <= i < |s| ensures At(b, p + i) == s[i] {
      assert b[p..p + |s|][i] == b[p + i];
    }
  }

  lemma HeadAt(b: seq<Byte>, p: nat, h: Byte)
    requires Has(b, p, [h])
    ensures At(b, p) == h
  {
    assert b[p..p + 1][0] == b[p];
  }

  lemma HasConcat(b: seq<Byte>, p: nat, s: seq<Byte>, t: seq<Byte>)
    ensures Has(b, p, s + t) <==> Has(b, p, s) && Has(b, p + |s|, t)
  {
    if p + |s| + |t| <= |b| {
      var w := b[p..p + |s| + |t|];
      assert w[..|s|] == b[p..p + |s|] && w[|s|..] == b[p + |s|..p + |s| + |t|];
      assert (s + t)[..|s|] == s && (s + t)[|s|..] == t;
      assert w == w[..|s|] + w[|s|..];
    }
  }

  lemma HasSlice(b: seq<Byte>, p: nat, s: seq<Byte>, q: nat, t: seq<Byte>)
    requires Has(b, p, s) && Has(s, q, t)
    ensures Has(b, p + q, t)
  {
    assert s == s[..q] + (t + s[q + |t|..]);
    HasConcat(b, p, s[..q], t + s[q + |t|..]);
    HasConcat(b, p + q, t, s[q + |t|..]);
  }

  /** What stands up to the end of the bytes written. */
  lemma PutBehind(s: seq<Byte>, at: nat, t: seq<Byte>)
    requires at + |t| <= |s|
    ensures Put(s, at, t)[..at + |t|] == s[..at] + t
    ensures at + |t| == |s| ==> Put(s, at, t) == s[..at] + t
  {
    var r := Put(s, at, t);
    assert r[..at + |t|] == r[..at] + r[at..at + |t|];
    if at + |t| == |s| { assert r[..at + |t|] == r; }
  }

  /** Writing into the front of a buffer is writing into the buffer. */
  lemma PutFront(s: seq<Byte>, at: nat, t: seq<Byte>, n: nat)
    requires at + |t| <= n <= |s|
    ensures Put(s, at, t)[..n] == Put(s[..n], at, t)
  {
  }

  lemma PutHas(s: seq<Byte>, at: nat, t: seq<Byte>)
    requires at + |t| <= |s|
    ensures Has(Put(s, at, t), at, t)
  {
  }

  /** Writing elsewhere keeps what stands at `p`. */
  lemma PutKeeps(s: seq<Byte>, at: nat, t: seq<Byte>, p: nat, u: seq<Byte>)
    requires at + |t| <= |s| && Has(s, p, u) && (p + |u| <= at || at + |t| <= p)
    ensures Has(Put(s, at, t), p, u)
  {
    var r := Put(s, at, t);
    forall i | 0 <= i < |u| ensures r[p..p + |u|][i] == u[i] {
      assert s[p..p + |u|][i] == s[p + i];
      if p + |u| <= at {
        assert r[..at][p + i] == s[..at][p + i];
      } else {
        assert r[at + |t|..][p + i - at - |t|] == s[at + |t|..][p + i - at - |t|];
      }
    }
  }

  /** What stands below `n` survives a change above `n`. */
  lemma HasBelow(s: seq<Byte>, r: seq<Byte>, n: nat, p: nat, u: seq<Byte>)
    requires n <= |s| && n <= |r| && s[..n] == r[..n] && p + |u| <= n && Has(s, p, u)
    ensures Has(r, p, u)
  {
    assert s[p..p + |u|] == s[..n][p..p + |u|] && r[p..p + |u|] == r[..n][p..p + |u|];
  }

  function Pow10(n: nat): (r: nat)
    ensures r > 0
  {
    if n == 0 then 1 else 10 * Pow10(n - 1)
  }

  lemma TenTimes(n: nat)
    requires n > 0
    ensures Pow10(n) == 10 * Pow10(n - 1)
  {
  }

  lemma MulLe(a: int, b: int, c: int)
    requires a <= b && c >= 0
    ensures a * c <= b * c
  {
  }

  function Pow2(n: nat): (r: nat)
    ensures r > 0
  {
    if n == 0 then 1 else 2 * Pow2(n - 1)
  }

  lemma MulAssoc(a: int, b: int, c: int)
    ensures a * b * c == a * (b * c)
  {
  }

  lemma {:induction false} Pow2Add(m: nat, n: nat)
    ensures Pow2(m + n) == Pow2(m) * Pow2(n)
    decreases m
  {
    if m > 0 {
      Pow2Add(m - 1, n);
      assert Pow2(m) == 2 * Pow2(m - 1) && Pow2(m + n) == 2 * Pow2(m - 1 + n);
      hide Pow2;
      MulAssoc(2, Pow2(m - 1), Pow2(n));
    }
  }

  lemma {:induction false} Pow2Monotone(m: nat, n: nat)
    requires m <= n
    ensures Pow2(m) <= Pow2(n)
    decreases n
  {
    if m < n { Pow2Monotone(m, n - 1); }
  }

  function Div(x: nat, d: nat): nat
    requires d > 0
  {
    x / d
  }

  /** A right shift. */
  function Shr(x: nat, k: nat): nat {
    Div(x, Pow2(k))
  }

  // ---------------------------------------------------------------- fixed width

  function Pow256(w: nat): (r: int)
    ensures r > 0
  {
    if w == 0 then 1 else 256 * Pow256(w - 1)
  }

  lemma Pow256Values()
    ensures Pow256(1) == 0x100 && Pow256(2) == 0x1_0000 && Pow256(3) == 0x100_0000 && Pow256(4) == 0x1_0000_0000
    ensures Pow256(5) == 0x100_0000_0000 && Pow256(6) == 0x1_0000_0000_0000
    ensures Pow256(7) == 0x100_0000_0000_0000 && Pow256(8) == 0x1_0000_0000_0000_0000
  {
    assert Pow256(1) == 256 * Pow256(0);
    assert Pow256(2) == 256 * Pow256(1);
    assert Pow256(3) == 256 * Pow256(2);
    assert Pow256(4) == 256 * Pow256(3);
    assert Pow256(5) == 256 * Pow256(4);
    assert Pow256(6) == 256 * Pow256(5);
    assert Pow256(7) == 256 * Pow256(6);
  }

  lemma {:induction false} Pow256Monotone(v: nat, w: nat)
    requires v <= w
    ensures Pow256(v) <= Pow256(w)
    decreases w
  {
    if v < w { Pow256Monotone(v, w - 1); }
  }

  /** Byte `i` of `x`, counted from the least significant; two's complement when `x` is negative. */
  function ByteOf(x: int, i: nat): Byte
    decreases i
  {
    if i == 0 then x % 256 else ByteOf(x / 256, i - 1)
  }

  /** The `w` low bytes of `x`, least significant first. */
  function LE(x: int, w: nat): (r: seq<Byte>)
    ensures |r| == w
  {
    seq(w, i requires 0 <= i < w => ByteOf(x, i))
  }

  lemma LECons(x: int, w: nat)
    requires w > 0
    ensures LE(x, w) == [x % 256] + LE(x / 256, w - 1)
  {
  }

  /** The little-endian number a sequence of bytes stands for. */
  function Number(s: seq<Byte>): nat {
    if s == [] then 0 else s[0] + 256 * Number(s[1..])
  }

  /** The `n` bytes at position `p`. */
  function Read(b: seq<Byte>, p: int, n: nat): (r: seq<Byte>)
    ensures |r| == n
  {
    seq<Byte>(n, i requires 0 <= i < n => At(b, p + i))
  }

  lemma ReadOfHas(b: seq<Byte>, p: nat, s: seq<Byte>)
    requires Has(b, p, s)
    ensures Read(b, p, |s|) == s
  {
    HasBytes(b, p, s);
  }

  /** The little-endian number in the `w` bytes at `p`. */
  function ReadLE(b: seq<Byte>, p: int, w: nat): nat {
    Number(Read(b, p, w))
  }

  lemma {:induction false} NumberBound(s: seq<Byte>)
    ensures Number(s) < Pow256(|s|)
  {
    if s != [] { NumberBound(s[1..]); }
  }

  lemma ReadLEBound(b: seq<Byte>, p: int, w: nat)
    requires w <= 8
    ensures ReadLE(b, p, w) < Limit
  {
    NumberBound(Read(b, p, w));
    Pow256Monotone(w, 8);
    Pow256Values();
  }

  lemma {:induction false} NumberOfLE(x: int, w: nat)
    requires -Pow256(w) <= x < Pow256(w)
    ensures Number(LE(x, w)) == if x >= 0 then x else x + Pow256(w)
    decreases w
  {
    if w > 0 {
      LECons(x, w);
      NumberOfLE(x / 256, w - 1);
    }
  }

  lemma ReadLEOfLE(b: seq<Byte>, p: nat, x: int, w: nat)
    requires Has(b, p, LE(x, w)) && -Pow256(w) <= x < Pow256(w)
    ensures ReadLE(b, p, w) == if x >= 0 then x else x + Pow256(w)
  {
    ReadOfHas(b, p, LE(x, w));
    NumberOfLE(x, w);
  }

  /** Two's complement: adding 256^w does not change the low `w` bytes. */
  lemma {:induction false} LEWraps(x: int, w: nat)
    ensures LE(x + Pow256(w), w) == LE(x, w)
    decreases w
  {
    if w > 0 {
      assert (x + 256 * Pow256(w - 1)) / 256 == x / 256 + Pow256(w - 1);
      LEWraps(x / 256, w - 1);
      LECons(x, w);
      LECons(x + Pow256(w), w);
    }
  }

  // ---------------------------------------------------------------- variable width

  /** Number of bytes of the LEB128 form of `x`. */
  function VarLen(x: nat): (r: nat)
    ensures r >= 1
  {
    if x < 0x80 then 1 else 1 + VarLen(x / 0x80)
  }

  /** The LEB128 form of `x`, least significant group first. */
  function Var(x: nat): (r: seq<Byte>)
    ensures |r| == VarLen(x)
  {
    if x < 0x80 then [x] else [0x80 + x % 0x80] + Var(x / 0x80)
  }

  /** The same groups laid out backwards. */
  function VarRev(x: nat): (r: seq<Byte>)
    ensures |r| == VarLen(x)
  {
    if x < 0x80 then [x] else VarRev(x / 0x80) + [0x80 + x % 0x80]
  }

  function ReadVar(b: seq<Byte>, p: nat): nat
    decreases |b| - p
  {
    var c := At(b, p);
    if c < 0x80 then c else c - 0x80 + 0x80 * ReadVar(b, p + 1)
  }

  function ReadVarRev(b: seq<Byte>, p: int): nat
    decreases p
  {
    var c := At(b, p);
    if c < 0x80 then c else c - 0x80 + 0x80 * ReadVarRev(b, p - 1)
  }

  lemma {:induction false} ReadVarOfVar(b: seq<Byte>, p: nat, x: nat)
    requires Has(b, p, Var(x))
    ensures ReadVar(b, p) == x
    decreases x
  {
    HasBytes(b, p, Var(x));
    assert At(b, p + 0) == Var(x)[0];
    if x >= 0x80 {
      HasConcat(b, p, [0x80 + x % 0x80], Var(x / 0x80));
      ReadVarOfVar(b, p + 1, x / 0x80);
    }
  }

  lemma {:induction false} ReadVarRevOfVarRev(b: seq<Byte>, p: nat, x: nat)
    requires Has(b, p, VarRev(x))
    ensures ReadVarRev(b, p + |VarRev(x)| - 1) == x
  {
    HasBytes(b, p, VarRev(x));
    var n := |VarRev(x)|;
    assert At(b, p + (n - 1)) == VarRev(x)[n - 1];
    if x >= 0x80 {
      HasConcat(b, p, VarRev(x / 0x80), [0x80 + x % 0x80]);
      ReadVarRevOfVarRev(b, p, x / 0x80);
    }
  }

  lemma {:induction false} VarLenMonotone(x: nat, y: nat)
    requires x <= y
    ensures VarLen(x) <= VarLen(y)
  {
    if x >= 0x80 { VarLenMonotone(x / 0x80, y / 0x80); }
  }

  lemma {:induction false} VarLenSmall(x: nat)
    ensures VarLen(x) <= x + 1
  {
    if x >= 0x80 { VarLenSmall(x / 0x80); }
  }

  // ---------------------------------------------------------------- key order

  /** Unsigned byte-wise order, a proper prefix first. */
  predicate Less(a: seq<Byte>, b: seq<Byte>) {
    b != [] && (a == [] || a[0] < b[0] || (a[0] == b[0] && Less(a[1..], b[1..])))
  }

  /** The sign of the first difference among the first `m` bytes, as C's memcmp reports it. */
  function Memcmp(a: seq<Byte>, b: seq<Byte>, m: nat): int
    requires m <= |a| && m <= |b|
  {
    if m == 0 then 0
    else if a[0] != b[0] then a[0] - b[0]
    else Memcmp(a[1..], b[1..], m - 1)
  }

  lemma {:induction false} LessTransitive(a: seq<Byte>, b: seq<Byte>, c: seq<Byte>)
    requires Less(a, b) && Less(b, c)
    ensures Less(a, c)
  {
    if a != [] && a[0] == b[0] && b[0] == c[0] { LessTransitive(a[1..], b[1..], c[1..]); }
  }

  lemma {:induction false} LessTotal(a: seq<Byte>, b: seq<Byte>)
    ensures Less(a, b) || a == b || Less(b, a)
  {
    if a != [] && b != [] && a[0] == b[0] {
      LessTotal(a[1..], b[1..]);
      if a[1..] == b[1..] { assert a == [a[0]] + a[1..] && b == [b[0]] + b[1..]; }
    }
  }

  lemma {:induction false} LessIrreflexive(a: seq<Byte>)
    ensures !Less(a, a)
  {
    if a != [] { LessIrreflexive(a[1..]); }
  }

  function Min(x: nat, y: nat): nat {
    if x <= y then x else y
  }

  /** Comparing common bytes first and lengths second is the byte-wise order. */
  lemma {:induction false} MemcmpLess(a: seq<Byte>, b: seq<Byte>)
    ensures var c := Memcmp(a, b, Min(|a|, |b|));
            (Less(a, b) <==> c < 0 || (c == 0 && |a| < |b|)) && (a == b <==> c == 0 && |a| == |b|)
  {
    if a != [] && b != [] {
      if a[0] == b[0] {
        MemcmpLess(a[1..], b[1..]);
        assert a == [a[0]] + a[1..] && b == [b[0]] + b[1..];
      }
    }
  }
}
