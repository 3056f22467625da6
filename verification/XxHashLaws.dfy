/** What the hashes promise apart from how they are computed: no two inputs that differ in one
    byte have one hash, and known inputs have their known hashes. */
module XxHashLaws {
  import opened Bytes
  import opened Format
  import opened XxHash

  // ---------------------------------------------------------------- steps that lose nothing

  lemma MultipleFar(m: nat, t: int)
    ensures t >= 1 ==> t * m >= m
    ensures t <= -1 ==> t * m <= 0 - m
  {
    if t >= 1 { MulLe(1, t, m); }
    if t <= -1 {
      MulLe(1, 0 - t, m);
      assert (0 - t) * m == 0 - t * m;
    }
  }

  lemma Multiple(d: int, m: nat, t: int)
    requires d == t * m && 0 - m as int < d < m
    ensures d == 0
  {
    MultipleFar(m, t);
  }

  lemma SameRest(x: int, y: int, m: nat) returns (t: int)
    requires m > 0 && x % m == y % m
    ensures x - y == t * m
  {
    t := x / m - y / m;
    assert x == x / m * m + x % m && y == y / m * m + y % m;
    assert t * m == x / m * m - y / m * m;
  }

  /** Adding one number modulo `m`. */
  lemma SumKeeps(a: nat, b: nat, x: int, m: nat)
    requires m > 0 && a < m && b < m && (a + x) % m == (b + x) % m
    ensures a == b
  {
    var t := SameRest(a + x, b + x, m);
    Multiple(a - b, m, t);
  }

  /** Multiplying by a number that has an inverse modulo `m`. */
  lemma ProductKeeps(a: nat, b: nat, p: nat, q: nat, k: nat, m: nat)
    requires m > 0 && a < m && b < m && p * q == 1 + k * m && a * p % m == b * p % m
    ensures a == b
  {
    var t := SameRest(a * p, b * p, m);
    var d := a - b;
    assert d * p == t * m by { assert d * p == a * p - b * p; }
    assert d * (p * q) == t * q * m by {
      assert d * (p * q) == d * p * q;
      assert t * m * q == t * q * m;
    }
    assert d * (1 + k * m) == d + d * k * m by { assert d * (k * m) == d * k * m; }
    assert d == (t * q - d * k) * m by { assert (t * q - d * k) * m == t * q * m - d * k * m; }
    Multiple(d, m, t * q - d * k);
  }

  lemma DivModUnique(q: nat, r: nat, d: nat)
    requires r < d
    ensures (q * d + r) / d == q && (q * d + r) % d == r
  {
    var x := q * d + r;
    var p := x / d;
    assert x == p * d + x % d;
    if p < q { MulLe(p + 1, q, d); }
    if p > q { MulLe(q + 1, p, d); }
  }

  function Turned(x: nat, u: nat, v: nat): nat
    requires u * v > 0 && v > 0
  {
    (x * u + Div(x, v)) % (u * v)
  }

  function Low(x: nat, v: nat): nat
    requires v > 0
  {
    x % v
  }

  /** The two parts of a rotated word change places. */
  lemma Rotated(x: nat, u: nat, v: nat)
    requires u > 0 && v > 0 && x < u * v
    ensures Turned(x, u, v) == Low(x, v) * u + Div(x, v) && Div(x, v) < u && x == Div(x, v) * v + Low(x, v)
  {
    var hi, lo := x / v, x % v;
    assert x == hi * v + lo;
    if hi >= u { MulLe(u, hi, v); }
    assert x * u == hi * (u * v) + lo * u by { assert hi * v * u == hi * (u * v); }
    MulLe(lo + 1, v, u);
    assert (lo + 1) * u == lo * u + u;
    DivModUnique(hi, lo * u + hi, u * v);
  }

  lemma PartsKeep(a: nat, b: nat, c: nat, d: nat, u: nat)
    requires b < u && d < u && a * u + b == c * u + d
    ensures a == c && b == d
  {
    DivModUnique(a, b, u);
    DivModUnique(c, d, u);
  }

  lemma RotationKeeps(x: nat, y: nat, u: nat, v: nat)
    requires u > 0 && v > 0 && x < u * v && y < u * v && Turned(x, u, v) == Turned(y, u, v)
    ensures x == y
  {
    hide Turned, Low, Div;
    Rotated(x, u, v);
    Rotated(y, u, v);
    PartsKeep(Low(x, v), Div(x, v), Low(y, v), Div(y, v), u);
  }

  lemma Rotl32Keeps(x: UInt32, y: UInt32, r: nat)
    requires r < 32 && Rotl32(x, r) == Rotl32(y, r)
    ensures x == y
  {
    Pow2Add(r, 32 - r);
    Pow2Of32();
    hide Pow2;
    RotationKeeps(x, y, Pow2(r), Pow2(32 - r));
  }

  lemma Rotl64Keeps(x: UInt64, y: UInt64, r: nat)
    requires r < 64 && Rotl64(x, r) == Rotl64(y, r)
    ensures x == y
  {
    Pow2Add(r, 64 - r);
    Pow2Of32();
    Pow2Add(32, 32);
    hide Pow2;
    RotationKeeps(x, y, Pow2(r), Pow2(64 - r));
  }

  lemma Pow2Of32()
    ensures Pow2(32) == 0x1_0000_0000
  {
    assert Pow2(8) == 0x100;
    Pow2Add(8, 8);
    Pow2Add(16, 16);
  }

  // ---------------------------------------------------------------- exclusive or

  lemma XorHalves(x: nat, y: nat)
    ensures Xor(x, y) / 2 == Xor(x / 2, y / 2) && Xor(x, y) % 2 == if x % 2 != y % 2 then 1 else 0
  {
  }

  lemma {:induction false} XorKeeps(x: nat, y: nat, z: nat)
    requires Xor(x, z) == Xor(y, z)
    ensures x == y
    decreases x + y + z
  {
    XorHalves(x, z);
    XorHalves(y, z);
    if x != 0 || y != 0 || z != 0 {
      XorKeeps(x / 2, y / 2, z / 2);
      assert x == x / 2 * 2 + x % 2 && y == y / 2 * 2 + y % 2;
    }
  }

  lemma {:induction false} XorSwaps(x: nat, y: nat)
    ensures Xor(x, y) == Xor(y, x)
    decreases x + y
  {
    if x != 0 || y != 0 { XorSwaps(x / 2, y / 2); }
  }

  lemma {:induction false} XorShr(x: nat, y: nat, k: nat)
    ensures Shr(Xor(x, y), k) == Xor(Shr(x, k), Shr(y, k))
    decreases k
  {
    if k > 0 {
      XorShr(x, y, k - 1);
      ShrOnce(Xor(x, y), k);
      ShrOnce(x, k);
      ShrOnce(y, k);
      XorHalves(Shr(x, k - 1), Shr(y, k - 1));
    }
  }

  lemma ShrOnce(x: nat, k: nat)
    requires k > 0
    ensures Shr(x, k) == Shr(x, k - 1) / 2
  {
    var d := Pow2(k - 1);
    assert Pow2(k) == 2 * d;
    hide Pow2;
    var q, r := x / d, x % d;
    assert x == q * d + r;
    assert x == q / 2 * (2 * d) + (q % 2 * d + r) by {
      assert q == q / 2 * 2 + q % 2;
      assert q * d == q / 2 * (2 * d) + q % 2 * d;
    }
    DivModUnique(q / 2, q % 2 * d + r, 2 * d);
  }

  lemma ShrSmaller(x: nat, k: nat)
    requires k > 0
    ensures x > 0 ==> Shr(x, k) < x
    ensures x == 0 ==> Shr(x, k) == 0
  {
    assert Pow2(k) == 2 * Pow2(k - 1);
    hide Pow2;
    var d := Pow2(k);
    var q := x / d;
    assert x == q * d + x % d;
    if q >= 1 { MulLe(2, d, q); }
  }

  /** A word combined with itself shifted down. */
  lemma {:induction false} ShiftXorKeeps(x: nat, y: nat, k: nat)
    requires k > 0 && Xor(x, Shr(x, k)) == Xor(y, Shr(y, k))
    ensures x == y
    decreases x + y
  {
    hide Xor, Shr;
    if x != 0 || y != 0 {
      ShrSmaller(x, k);
      ShrSmaller(y, k);
      XorShr(x, Shr(x, k), k);
      XorShr(y, Shr(y, k), k);
      ShiftXorKeeps(Shr(x, k), Shr(y, k), k);
      XorKeeps(x, y, Shr(x, k));
    }
  }

  // ---------------------------------------------------------------- multiplying by the primes

  /** The primes are odd, so they have inverses modulo 2^32. */
  lemma Times32(a: UInt32, b: UInt32, p: UInt32)
    requires p in {P32A, P32B, P32C, P32D, P32E} && W32(a * p) == W32(b * p)
    ensures a == b
  {
    var m: nat := 0x1_0000_0000;
    if p == P32A { ProductKeeps(a, b, P32A, 0x0e8b_2f51, 0x08fd_0e05, m); }
    if p == P32B { ProductKeeps(a, b, P32B, 0xb6c9_2f47, 0x5f9e_e0ce, m); }
    if p == P32C { ProductKeeps(a, b, P32C, 0xa89e_d915, 0x803e_11b9, m); }
    if p == P32D { ProductKeeps(a, b, P32D, 0xa0fe_3bcf, 0x190c_a18d, m); }
    if p == P32E { ProductKeeps(a, b, P32E, 0xae39_8151, 0x0f33_bf00, m); }
  }

  lemma Times64(a: UInt64, b: UInt64, p: UInt64)
    requires p in {P64A, P64B, P64C, P64D, P64E} && W64(a * p) == W64(b * p)
    ensures a == b
  {
    var m: nat := 0x1_0000_0000_0000_0000;
    if p == P64A { ProductKeeps(a, b, P64A, 0x0887_4934_32ba_db37, 0x0545_584c_cd1f_a67a, m); }
    if p == P64B { ProductKeeps(a, b, P64B, 0x0ba7_9078_168d_4baf, 0x08dd_1dec_2186_0607, m); }
    if p == P64C { ProductKeeps(a, b, P64C, 0xe9e9_f4c4_1d6d_f849, 0x1469_0e60_8137_8f7f, m); }
    if p == P64D { ProductKeeps(a, b, P64D, 0xd872_e78f_6fe1_434b, 0x713b_0ef8_028a_b485, m); }
    if p == P64E { ProductKeeps(a, b, P64E, 0xc592_c09f_dfba_7f0d, 0x1ebd_ae61_ed7c_1b77, m); }
  }

  lemma Plus32(a: UInt32, b: UInt32, x: int)
    requires W32(a + x) == W32(b + x)
    ensures a == b
  {
    SumKeeps(a, b, x, 0x1_0000_0000);
  }

  lemma Plus64(a: UInt64, b: UInt64, x: int)
    requires W64(a + x) == W64(b + x)
    ensures a == b
  {
    SumKeeps(a, b, x, 0x1_0000_0000_0000_0000);
  }

  // ---------------------------------------------------------------- the steps of XXH32

  lemma Round32Keeps(a: UInt32, b: UInt32, i: UInt32, j: UInt32)
    requires Round32(a, i) == Round32(b, j)
    ensures (i == j ==> a == b) && (a == b ==> i == j)
  {
    hide Rotl32, W32;
    Times32(Rotl32(W32(a + W32(i * P32B)), 13), Rotl32(W32(b + W32(j * P32B)), 13), P32A);
    Rotl32Keeps(W32(a + W32(i * P32B)), W32(b + W32(j * P32B)), 13);
    if i == j { Plus32(a, b, W32(i * P32B)); }
    if a == b {
      Plus32(W32(i * P32B), W32(j * P32B), a);
      Times32(i, j, P32B);
    }
  }

  lemma WordKeeps32(h: UInt32, g: UInt32, i: UInt32, j: UInt32)
    requires W32(Rotl32(W32(h + W32(i * P32C)), 17) * P32D) == W32(Rotl32(W32(g + W32(j * P32C)), 17) * P32D)
    ensures (i == j ==> h == g) && (h == g ==> i == j)
  {
    hide Rotl32, W32;
    Times32(Rotl32(W32(h + W32(i * P32C)), 17), Rotl32(W32(g + W32(j * P32C)), 17), P32D);
    Rotl32Keeps(W32(h + W32(i * P32C)), W32(g + W32(j * P32C)), 17);
    if i == j { Plus32(h, g, W32(i * P32C)); }
    if h == g {
      Plus32(W32(i * P32C), W32(j * P32C), h);
      Times32(i, j, P32C);
    }
  }

  lemma Four32Keeps(h: UInt32, g: UInt32, s: seq<Byte>, t: seq<Byte>)
    requires Four32(h, s) == Four32(g, t)
    ensures ReadLE(s, 0, 4) == ReadLE(t, 0, 4) ==> h == g
    ensures h == g ==> ReadLE(s, 0, 4) == ReadLE(t, 0, 4)
  {
    hide Rotl32, W32, ReadLE;
    WordRead32(s, 0);
    WordRead32(t, 0);
    WordKeeps32(h, g, ReadLE(s, 0, 4), ReadLE(t, 0, 4));
  }

  lemma WordRead32(s: seq<Byte>, p: int)
    ensures ReadLE(s, p, 4) < 0x1_0000_0000
  {
    NumberBound(Read(s, p, 4));
    Pow256Values();
  }

  lemma One32Keeps(h: UInt32, g: UInt32, c: Byte, d: Byte)
    requires One32(h, c) == One32(g, d)
    ensures (c == d ==> h == g) && (h == g ==> c == d)
  {
    hide Rotl32, W32;
    Times32(Rotl32(W32(h + W32(c * P32E)), 11), Rotl32(W32(g + W32(d * P32E)), 11), P32A);
    Rotl32Keeps(W32(h + W32(c * P32E)), W32(g + W32(d * P32E)), 11);
    if c == d { Plus32(h, g, W32(c * P32E)); }
    if h == g {
      Plus32(W32(c * P32E), W32(d * P32E), h);
      Times32(c, d, P32E);
    }
  }

  /** Combining two words gives a word. */
  lemma {:induction false} XorBelow(x: nat, y: nat, n: nat)
    requires x < Pow2(n) && y < Pow2(n)
    ensures Xor(x, y) < Pow2(n)
    decreases n
  {
    if n > 0 {
      XorHalves(x, y);
      XorBelow(x / 2, y / 2, n - 1);
    }
  }

  lemma ShiftXor32(x: UInt32, k: nat)
    requires k > 0
    ensures Xor(x, Shr(x, k)) < 0x1_0000_0000
  {
    Pow2Of32();
    hide Pow2;
    ShrSmaller(x, k);
    XorBelow(x, Shr(x, k), 32);
  }

  lemma Avalanche32Keeps(h: UInt32, g: UInt32)
    requires Avalanche32(h) == Avalanche32(g)
    ensures h == g
  {
    hide Xor, Shr;
    ShiftXor32(h, 15);
    ShiftXor32(g, 15);
    var a, b := W32(Xor(h, Shr(h, 15)) * P32B), W32(Xor(g, Shr(g, 15)) * P32B);
    ShiftXor32(a, 13);
    ShiftXor32(b, 13);
    var c, d := W32(Xor(a, Shr(a, 13)) * P32C), W32(Xor(b, Shr(b, 13)) * P32C);
    ShiftXor32(c, 16);
    ShiftXor32(d, 16);
    ShiftXorKeeps(c, d, 16);
    Times32(Xor(a, Shr(a, 13)), Xor(b, Shr(b, 13)), P32C);
    ShiftXorKeeps(a, b, 13);
    Times32(Xor(h, Shr(h, 15)), Xor(g, Shr(g, 15)), P32B);
    ShiftXorKeeps(h, g, 15);
  }

  lemma {:induction false} Finalize32Keeps(h: UInt32, g: UInt32, t: seq<Byte>)
    requires Finalize32(h, t) == Finalize32(g, t)
    ensures h == g
    decreases |t|
  {
    hide Four32, One32, Avalanche32;
    if |t| >= 4 {
      Finalize32Keeps(Four32(h, t), Four32(g, t), t[4..]);
      Four32Keeps(h, g, t, t);
    } else if t != [] {
      Finalize32Keeps(One32(h, t[0]), One32(g, t[0]), t[1..]);
      One32Keeps(h, g, t[0], t[0]);
    } else {
      Avalanche32Keeps(h, g);
    }
  }

  // ---------------------------------------------------------------- inputs that differ in one byte

  /** The inputs differ at `i` and nowhere else. */
  predicate OneByteApart(s: seq<Byte>, t: seq<Byte>, i: nat) {
    |s| == |t| && i < |s| && s[i] != t[i] && forall k :: 0 <= k < |s| && k != i ==> s[k] == t[k]
  }

  lemma {:induction false} NumberKeeps(s: seq<Byte>, t: seq<Byte>)
    requires |s| == |t| && Number(s) == Number(t)
    ensures s == t
  {
    if s != [] {
      assert s[0] == t[0] && Number(s[1..]) == Number(t[1..]);
      NumberKeeps(s[1..], t[1..]);
      assert s == [s[0]] + s[1..] && t == [t[0]] + t[1..];
    }
  }

  lemma ReadApart(s: seq<Byte>, t: seq<Byte>, i: nat, q: nat, w: nat)
    requires OneByteApart(s, t, i) && q + w <= |s|
    ensures ReadLE(s, q, w) == ReadLE(t, q, w) <==> !(q <= i < q + w)
  {
    var a, b := Read(s, q, w), Read(t, q, w);
    assert forall k :: 0 <= k < w ==> a[k] == At(s, q + k) && b[k] == At(t, q + k);
    if q <= i < q + w {
      assert a[i - q] != b[i - q];
      if Number(a) == Number(b) { NumberKeeps(a, b); }
    } else {
      assert a == b;
    }
  }

  lemma Behind(s: seq<Byte>, t: seq<Byte>, i: nat, n: nat)
    requires OneByteApart(s, t, i) && n <= |s|
    ensures i < n ==> s[n..] == t[n..] && OneByteApart(s[..n], t[..n], i)
    ensures i >= n ==> OneByteApart(s[n..], t[n..], i - n) && s[..n] == t[..n]
  {
    assert forall k :: n <= k < |s| ==> s[n..][k - n] == s[k] && t[n..][k - n] == t[k];
  }

  lemma {:induction false} Finalize32Apart(h: UInt32, s: seq<Byte>, t: seq<Byte>, i: nat)
    requires OneByteApart(s, t, i)
    ensures Finalize32(h, s) != Finalize32(h, t)
    decreases |s|
  {
    hide Four32, One32, Avalanche32, OneByteApart, ReadLE;
    var n := if |s| >= 4 then 4 else 1;
    SameLength(s, t, i);
    Behind(s, t, i, n);
    if n == 4 {
      ReadApart(s, t, i, 0, 4);
      if i < 4 {
        if Finalize32(h, s) == Finalize32(h, t) {
          Finalize32Keeps(Four32(h, s), Four32(h, t), s[4..]);
          Four32Keeps(h, h, s, t);
        }
      } else {
        SameFour(h, s, t);
        Finalize32Apart(Four32(h, s), s[4..], t[4..], i - 4);
      }
    } else if i < 1 {
      if Finalize32(h, s) == Finalize32(h, t) {
        Finalize32Keeps(One32(h, s[0]), One32(h, t[0]), s[1..]);
        One32Keeps(h, h, s[0], t[0]);
      }
    } else {
      Finalize32Apart(One32(h, s[0]), s[1..], t[1..], i - 1);
    }
  }

  lemma SameLength(s: seq<Byte>, t: seq<Byte>, i: nat)
    requires OneByteApart(s, t, i)
    ensures |s| == |t| && i < |s| && s[i] != t[i] && (i > 0 ==> s[0] == t[0])
  {
  }

  lemma SameFour(h: UInt32, s: seq<Byte>, t: seq<Byte>)
    requires ReadLE(s, 0, 4) == ReadLE(t, 0, 4)
    ensures Four32(h, s) == Four32(h, t)
  {
    hide ReadLE;
  }

  // ---------------------------------------------------------------- stripes

  function Lane(v: Lanes, k: nat): int
    requires k < 4
  {
    if k == 0 then v.v1 else if k == 1 then v.v2 else if k == 2 then v.v3 else v.v4
  }

  predicate Words32(v: Lanes) {
    forall k :: 0 <= k < 4 ==> 0 <= Lane(v, k) < 0x1_0000_0000
  }

  /** The lanes differ in lane `j` and in no other. */
  predicate LaneApart(v: Lanes, w: Lanes, j: nat) {
    && j < 4 && Words32(v) && Words32(w)
    && forall k :: 0 <= k < 4 ==> (Lane(v, k) == Lane(w, k) <==> k != j)
  }

  lemma StripeLanes(v: Lanes, s: seq<Byte>)
    ensures Words32(Stripe32(v, s))
    ensures forall k :: 0 <= k < 4 ==> Lane(Stripe32(v, s), k) == Round32(Lane(v, k), ReadLE(s, 4 * k, 4))
  {
    hide Round32, ReadLE;
  }

  /** Lanes that differ stay different in the same lane. */
  lemma StripeKeeps(v: Lanes, w: Lanes, j: nat, s: seq<Byte>)
    requires LaneApart(v, w, j)
    ensures LaneApart(Stripe32(v, s), Stripe32(w, s), j)
  {
    hide Round32, ReadLE, Lane, Stripe32;
    StripeLanes(v, s);
    StripeLanes(w, s);
    WordRead32(s, 4 * j);
    if Round32(Lane(v, j), ReadLE(s, 4 * j, 4)) == Round32(Lane(w, j), ReadLE(s, 4 * j, 4)) {
      Round32Keeps(Lane(v, j), Lane(w, j), ReadLE(s, 4 * j, 4), ReadLE(s, 4 * j, 4));
    }
  }

  /** A byte of a stripe goes into one lane. */
  lemma StripeApart(v: Lanes, s: seq<Byte>, t: seq<Byte>, i: nat)
    requires Words32(v) && |s| == 16 && OneByteApart(s, t, i)
    ensures LaneApart(Stripe32(v, s), Stripe32(v, t), i / 4)
  {
    hide Round32, ReadLE, Lane, Stripe32, OneByteApart;
    SameLength(s, t, i);
    StripeLanes(v, s);
    StripeLanes(v, t);
    forall k | 0 <= k < 4
      ensures Round32(Lane(v, k), ReadLE(s, 4 * k, 4)) == Round32(Lane(v, k), ReadLE(t, 4 * k, 4)) <==> k != i / 4
    {
      ReadApart(s, t, i, 4 * k, 4);
      WordRead32(s, 4 * k);
      WordRead32(t, 4 * k);
      if k == i / 4 && Round32(Lane(v, k), ReadLE(s, 4 * k, 4)) == Round32(Lane(v, k), ReadLE(t, 4 * k, 4)) {
        Round32Keeps(Lane(v, k), Lane(v, k), ReadLE(s, 4 * k, 4), ReadLE(t, 4 * k, 4));
      }
    }
  }

  lemma {:induction false} FoldKeeps(v: Lanes, w: Lanes, j: nat, s: seq<Byte>)
    requires LaneApart(v, w, j)
    ensures LaneApart(Fold(Stripe32, v, s, 16), Fold(Stripe32, w, s, 16), j)
    decreases |s|
  {
    hide Stripe32, LaneApart;
    if |s| >= 16 {
      StripeKeeps(v, w, j, s[..16]);
      FoldKeeps(Stripe32(v, s[..16]), Stripe32(w, s[..16]), j, s[16..]);
    }
  }

  lemma {:induction false} FoldSame(f: (Lanes, seq<Byte>) -> Lanes, v: Lanes, s: seq<Byte>, t: seq<Byte>, i: nat,
      n: nat)
    requires n > 0 && OneByteApart(s, t, i) && i >= |s| - |Left(s, n)|
    ensures Fold(f, v, s, n) == Fold(f, v, t, n) && OneByteApart(Left(s, n), Left(t, n), i - (|s| - |Left(s, n)|))
    decreases |s|
  {
    hide OneByteApart;
    SameLength(s, t, i);
    if |s| >= n {
      Behind(s, t, i, n);
      FoldSame(f, f(v, s[..n]), s[n..], t[n..], i - n, n);
    }
  }

  lemma {:induction false} FoldApart(v: Lanes, s: seq<Byte>, t: seq<Byte>, i: nat) returns (j: nat)
    requires Words32(v) && OneByteApart(s, t, i) && i < |s| - |Left(s, 16)|
    ensures LaneApart(Fold(Stripe32, v, s, 16), Fold(Stripe32, v, t, 16), j) && Left(s, 16) == Left(t, 16)
    decreases |s|
  {
    hide Stripe32, OneByteApart, LaneApart, Words32;
    SameLength(s, t, i);
    Behind(s, t, i, 16);
    if i < 16 {
      j := i / 4;
      StripeApart(v, s[..16], t[..16], i);
      FoldKeeps(Stripe32(v, s[..16]), Stripe32(v, t[..16]), j, s[16..]);
    } else {
      StripeLanes(v, s[..16]);
      j := FoldApart(Stripe32(v, s[..16]), s[16..], t[16..], i - 16);
    }
  }

  lemma SumApart(a: UInt32, b: UInt32, x: int, y: int, z: int, r: nat)
    requires r < 32 && a != b
    ensures W32(Rotl32(a, r) + (x + y + z)) != W32(Rotl32(b, r) + (x + y + z))
  {
    hide Rotl32, W32;
    if W32(Rotl32(a, r) + (x + y + z)) == W32(Rotl32(b, r) + (x + y + z)) {
      Plus32(Rotl32(a, r), Rotl32(b, r), x + y + z);
      Rotl32Keeps(a, b, r);
    }
  }

  lemma WordsMerge(v: Lanes)
    requires Words32(v)
    ensures 0 <= v.v1 < 0x1_0000_0000 && 0 <= v.v2 < 0x1_0000_0000
    ensures 0 <= v.v3 < 0x1_0000_0000 && 0 <= v.v4 < 0x1_0000_0000
    ensures Merge32(v) == W32(Rotl32(v.v1, 1) + Rotl32(v.v2, 7) + Rotl32(v.v3, 12) + Rotl32(v.v4, 18))
  {
    hide Rotl32;
    assert Lane(v, 0) == v.v1 && Lane(v, 1) == v.v2 && Lane(v, 2) == v.v3 && Lane(v, 3) == v.v4;
  }

  lemma LanesApart(v: Lanes, w: Lanes, j: nat)
    requires LaneApart(v, w, j)
    ensures (v.v1 == w.v1 <==> j != 0) && (v.v2 == w.v2 <==> j != 1) && (v.v3 == w.v3 <==> j != 2)
    ensures v.v4 == w.v4 <==> j != 3
  {
    assert Lane(v, 0) == v.v1 && Lane(v, 1) == v.v2 && Lane(v, 2) == v.v3 && Lane(v, 3) == v.v4;
    assert Lane(w, 0) == w.v1 && Lane(w, 1) == w.v2 && Lane(w, 2) == w.v3 && Lane(w, 3) == w.v4;
  }

  lemma MergeApart(v: Lanes, w: Lanes, j: nat)
    requires LaneApart(v, w, j)
    ensures Merge32(v) != Merge32(w)
  {
    hide Rotl32, Merge32, W32;
    WordsMerge(v);
    WordsMerge(w);
    LanesApart(v, w, j);
    SumsApart(v.v1, v.v2, v.v3, v.v4, w.v1, w.v2, w.v3, w.v4, j);
  }

  lemma SumsApart(v1: UInt32, v2: UInt32, v3: UInt32, v4: UInt32, w1: UInt32, w2: UInt32, w3: UInt32, w4: UInt32,
      j: nat)
    requires j < 4 && (v1 == w1 <==> j != 0) && (v2 == w2 <==> j != 1)
    requires (v3 == w3 <==> j != 2) && (v4 == w4 <==> j != 3)
    ensures W32(Rotl32(v1, 1) + Rotl32(v2, 7) + Rotl32(v3, 12) + Rotl32(v4, 18))
      != W32(Rotl32(w1, 1) + Rotl32(w2, 7) + Rotl32(w3, 12) + Rotl32(w4, 18))
  {
    hide Rotl32, W32;
    var a1, a2, a3, a4 := Rotl32(v1, 1), Rotl32(v2, 7), Rotl32(v3, 12), Rotl32(v4, 18);
    if j == 0 {
      SumApart(v1, w1, a2, a3, a4, 1);
    } else if j == 1 {
      SumApart(v2, w2, a1, a3, a4, 7);
    } else if j == 2 {
      SumApart(v3, w3, a1, a2, a4, 12);
    } else {
      SumApart(v4, w4, a1, a2, a3, 18);
    }
  }

  /** Changing one byte of an input of any length changes XXH32. */
  lemma Hash32Apart(seed: UInt32, s: seq<Byte>, t: seq<Byte>, i: nat)
    requires OneByteApart(s, t, i)
    ensures Hash32(seed, s) != Hash32(seed, t)
  {
    hide Merge32, Finalize32, Fold, Stripe32, OneByteApart, Left, Begin32, W32;
    SameLength(s, t, i);
    BeginWords(seed);
    if i >= |s| - |Left(s, 16)| {
      FoldSame(Stripe32, Begin32(seed), s, t, i, 16);
      var h := if |s| >= 16 then Merge32(Fold(Stripe32, Begin32(seed), s, 16)) else W32(seed + P32E);
      Finalize32Apart(W32(h + |s|), Left(s, 16), Left(t, 16), i - (|s| - |Left(s, 16)|));
    } else {
      LeftAll(s);
      var j := FoldApart(Begin32(seed), s, t, i);
      MergeApart(Fold(Stripe32, Begin32(seed), s, 16), Fold(Stripe32, Begin32(seed), t, 16), j);
      var h, g := Merge32(Fold(Stripe32, Begin32(seed), s, 16)), Merge32(Fold(Stripe32, Begin32(seed), t, 16));
      if Finalize32(W32(h + |s|), Left(s, 16)) == Finalize32(W32(g + |s|), Left(s, 16)) {
        Finalize32Keeps(W32(h + |s|), W32(g + |s|), Left(s, 16));
        Plus32(h, g, |s|);
      }
    }
  }

  lemma BeginWords(seed: UInt32)
    ensures Words32(Begin32(seed))
  {
  }

  lemma LeftAll(s: seq<Byte>)
    ensures |s| < 16 ==> |Left(s, 16)| == |s|
  {
  }

  // ---------------------------------------------------------------- the steps of XXH64

  lemma Pow2Of64()
    ensures Pow2(64) == 0x1_0000_0000_0000_0000
  {
    Pow2Of32();
    Pow2Add(32, 32);
  }

  lemma Xor64(x: UInt64, y: UInt64)
    ensures W64(Xor(x, y)) == Xor(x, y)
  {
    Pow2Of64();
    hide Pow2, Xor;
    XorBelow(x, y, 64);
  }

  /** One word combined with another: each determines the other. */
  lemma XorKeeps64(h: UInt64, g: UInt64, x: UInt64, y: UInt64)
    requires W64(Xor(h, x)) == W64(Xor(g, y))
    ensures (x == y ==> h == g) && (h == g ==> x == y)
  {
    hide Xor, W64;
    Xor64(h, x);
    Xor64(g, y);
    if x == y { XorKeeps(h, g, x); }
    if h == g {
      XorSwaps(h, x);
      XorSwaps(g, y);
      XorKeeps(x, y, h);
    }
  }

  /** Combine, rotate, multiply, add. */
  lemma MixKeeps64(h: UInt64, g: UInt64, x: UInt64, y: UInt64, r: nat, p: UInt64, q: UInt64)
    requires r < 64 && p in {P64A, P64B, P64C, P64D, P64E}
    requires W64(Rotl64(W64(Xor(h, x)), r) * p + q) == W64(Rotl64(W64(Xor(g, y)), r) * p + q)
    ensures (x == y ==> h == g) && (h == g ==> x == y)
  {
    hide Xor, W64, Rotl64;
    var a, b := Rotl64(W64(Xor(h, x)), r), Rotl64(W64(Xor(g, y)), r);
    SumProduct64(a * p, b * p, q);
    Times64(a, b, p);
    Rotl64Keeps(W64(Xor(h, x)), W64(Xor(g, y)), r);
    XorKeeps64(h, g, x, y);
  }

  lemma SumProduct64(x: nat, y: nat, q: UInt64)
    requires W64(x + q) == W64(y + q)
    ensures W64(x) == W64(y)
  {
    W64Sum(x, q);
    W64Sum(y, q);
    assert W64(W64(x) + q) == W64(x + q) && W64(W64(y) + q) == W64(y + q);
    Plus64(W64(x), W64(y), q);
  }

  lemma Round64Keeps(i: UInt64, j: UInt64)
    requires Round64(0, i) == Round64(0, j)
    ensures i == j
  {
    WordOfWord(i * P64B);
    WordOfWord(j * P64B);
    hide Rotl64, W64;
    Times64(Rotl64(W64(0 + W64(i * P64B)), 31), Rotl64(W64(0 + W64(j * P64B)), 31), P64A);
    Rotl64Keeps(W64(0 + W64(i * P64B)), W64(0 + W64(j * P64B)), 31);
    Times64(i, j, P64B);
  }

  lemma WordOfWord(x: nat)
    ensures W64(0 + W64(x)) == W64(x)
  {
  }

  lemma WordRead64(s: seq<Byte>, w: nat)
    requires w <= 8
    ensures ReadLE(s, 0, w) < 0x1_0000_0000_0000_0000
  {
    ReadLEBound(s, 0, w);
  }

  lemma Eight64Keeps(h: UInt64, g: UInt64, s: seq<Byte>, t: seq<Byte>)
    requires Eight64(h, s) == Eight64(g, t)
    ensures ReadLE(s, 0, 8) == ReadLE(t, 0, 8) ==> h == g
    ensures h == g ==> ReadLE(s, 0, 8) == ReadLE(t, 0, 8)
  {
    hide Xor, W64, Rotl64, Round64, ReadLE;
    WordRead64(s, 8);
    WordRead64(t, 8);
    MixKeeps64(h, g, Round64(0, ReadLE(s, 0, 8)), Round64(0, ReadLE(t, 0, 8)), 27, P64A, P64D);
    if h == g { Round64Keeps(ReadLE(s, 0, 8), ReadLE(t, 0, 8)); }
  }

  lemma Four64Keeps(h: UInt64, g: UInt64, s: seq<Byte>, t: seq<Byte>)
    requires Four64(h, s) == Four64(g, t)
    ensures ReadLE(s, 0, 4) == ReadLE(t, 0, 4) ==> h == g
    ensures h == g ==> ReadLE(s, 0, 4) == ReadLE(t, 0, 4)
  {
    hide Xor, W64, Rotl64, ReadLE;
    WordRead64(s, 4);
    WordRead64(t, 4);
    MixKeeps64(h, g, W64(ReadLE(s, 0, 4) * P64A), W64(ReadLE(t, 0, 4) * P64A), 23, P64B, P64C);
    if h == g { Times64(ReadLE(s, 0, 4), ReadLE(t, 0, 4), P64A); }
  }

  lemma One64Keeps(h: UInt64, g: UInt64, c: Byte, d: Byte)
    requires One64(h, c) == One64(g, d)
    ensures (c == d ==> h == g) && (h == g ==> c == d)
  {
    hide Xor, W64, Rotl64;
    Times64(Rotl64(W64(Xor(h, W64(c * P64E))), 11), Rotl64(W64(Xor(g, W64(d * P64E))), 11), P64A);
    Rotl64Keeps(W64(Xor(h, W64(c * P64E))), W64(Xor(g, W64(d * P64E))), 11);
    XorKeeps64(h, g, W64(c * P64E), W64(d * P64E));
    if h == g { Times64(c, d, P64E); }
  }

  lemma ShiftXor64(x: UInt64, k: nat)
    requires k > 0
    ensures Xor(x, Shr(x, k)) < 0x1_0000_0000_0000_0000
  {
    Pow2Of64();
    hide Pow2;
    ShrSmaller(x, k);
    XorBelow(x, Shr(x, k), 64);
  }

  lemma Avalanche64Keeps(h: UInt64, g: UInt64)
    requires Avalanche64(h) == Avalanche64(g)
    ensures h == g
  {
    hide Xor, Shr;
    ShiftXor64(h, 33);
    ShiftXor64(g, 33);
    var a, b := W64(Xor(h, Shr(h, 33)) * P64B), W64(Xor(g, Shr(g, 33)) * P64B);
    ShiftXor64(a, 29);
    ShiftXor64(b, 29);
    var c, d := W64(Xor(a, Shr(a, 29)) * P64C), W64(Xor(b, Shr(b, 29)) * P64C);
    ShiftXor64(c, 32);
    ShiftXor64(d, 32);
    ShiftXorKeeps(c, d, 32);
    Times64(Xor(a, Shr(a, 29)), Xor(b, Shr(b, 29)), P64C);
    ShiftXorKeeps(a, b, 29);
    Times64(Xor(h, Shr(h, 33)), Xor(g, Shr(g, 33)), P64B);
    ShiftXorKeeps(h, g, 33);
  }

  lemma {:induction false} Finalize64Keeps(h: UInt64, g: UInt64, t: seq<Byte>)
    requires Finalize64(h, t) == Finalize64(g, t)
    ensures h == g
    decreases |t|
  {
    hide Eight64, Four64, One64, Avalanche64;
    if |t| >= 8 {
      Finalize64Keeps(Eight64(h, t), Eight64(g, t), t[8..]);
      Eight64Keeps(h, g, t, t);
    } else if |t| >= 4 {
      Finalize64Keeps(Four64(h, t), Four64(g, t), t[4..]);
      Four64Keeps(h, g, t, t);
    } else if t != [] {
      Finalize64Keeps(One64(h, t[0]), One64(g, t[0]), t[1..]);
      One64Keeps(h, g, t[0], t[0]);
    } else {
      Avalanche64Keeps(h, g);
    }
  }

  /** What the first step of the tail makes of the hash, and how many bytes it takes. */
  function First64(h: UInt64, s: seq<Byte>): UInt64
    requires s != []
  {
    if |s| >= 8 then Eight64(h, s) else if |s| >= 4 then Four64(h, s) else One64(h, s[0])
  }

  function Taken64(n: nat): nat {
    if n >= 8 then 8 else if n >= 4 then 4 else 1
  }

  lemma Finalize64First(h: UInt64, s: seq<Byte>)
    requires s != []
    ensures Taken64(|s|) <= |s| && Finalize64(h, s) == Finalize64(First64(h, s), s[Taken64(|s|)..])
  {
    hide Eight64, Four64, One64, Avalanche64;
  }

  lemma First64Apart(h: UInt64, s: seq<Byte>, t: seq<Byte>, i: nat)
    requires OneByteApart(s, t, i)
    ensures First64(h, s) == First64(h, t) <==> i >= Taken64(|s|)
  {
    hide Eight64, Four64, One64, OneByteApart, ReadLE;
    SameLength(s, t, i);
    if |s| >= 8 {
      ReadApart(s, t, i, 0, 8);
      if ReadLE(s, 0, 8) == ReadLE(t, 0, 8) { SameEight64(h, s, t); } else if Eight64(h, s) == Eight64(h, t) {
        Eight64Keeps(h, h, s, t);
      }
    } else if |s| >= 4 {
      ReadApart(s, t, i, 0, 4);
      if ReadLE(s, 0, 4) == ReadLE(t, 0, 4) { SameFour64(h, s, t); } else if Four64(h, s) == Four64(h, t) {
        Four64Keeps(h, h, s, t);
      }
    } else if i == 0 && One64(h, s[0]) == One64(h, t[0]) {
      One64Keeps(h, h, s[0], t[0]);
    }
  }

  lemma SameEight64(h: UInt64, s: seq<Byte>, t: seq<Byte>)
    requires ReadLE(s, 0, 8) == ReadLE(t, 0, 8)
    ensures Eight64(h, s) == Eight64(h, t)
  {
    hide ReadLE;
  }

  lemma SameFour64(h: UInt64, s: seq<Byte>, t: seq<Byte>)
    requires ReadLE(s, 0, 4) == ReadLE(t, 0, 4)
    ensures Four64(h, s) == Four64(h, t)
  {
    hide ReadLE;
  }

  lemma {:induction false} Finalize64Apart(h: UInt64, s: seq<Byte>, t: seq<Byte>, i: nat)
    requires OneByteApart(s, t, i)
    ensures Finalize64(h, s) != Finalize64(h, t)
    decreases |s|
  {
    hide First64, Finalize64, OneByteApart;
    SameLength(s, t, i);
    var n := Taken64(|s|);
    Finalize64First(h, s);
    Finalize64First(h, t);
    First64Apart(h, s, t, i);
    Behind(s, t, i, n);
    if i < n {
      if Finalize64(h, s) == Finalize64(h, t) { Finalize64Keeps(First64(h, s), First64(h, t), s[n..]); }
    } else {
      Finalize64Apart(First64(h, s), s[n..], t[n..], i - n);
    }
  }

  /** Changing one byte behind the whole stripes changes XXH64; without a whole stripe, any byte. */
  lemma Hash64Apart(seed: UInt64, s: seq<Byte>, t: seq<Byte>, i: nat)
    requires OneByteApart(s, t, i) && i >= |s| - |s| % 32
    ensures Hash64(seed, s) != Hash64(seed, t)
  {
    hide Merge64, Finalize64, Fold, Stripe64, OneByteApart, Left, Begin64, W64;
    SameLength(s, t, i);
    LeftLength(s, 32);
    FoldSame(Stripe64, Begin64(seed), s, t, i, 32);
    var h := if |s| >= 32 then Merge64(Fold(Stripe64, Begin64(seed), s, 32)) else W64(seed + P64E);
    Finalize64Apart(W64(h + |s|), Left(s, 32), Left(t, 32), i - (|s| - |Left(s, 32)|));
  }

  /** Inputs too short for a stripe: two seeds give two hashes. */
  lemma Seeds32Apart(seed: UInt32, other: UInt32, s: seq<Byte>)
    requires |s| < 16 && seed != other
    ensures Hash32(seed, s) != Hash32(other, s)
  {
    hide Merge32, Finalize32, Fold, Stripe32, Begin32, W32;
    LeftShort(s, 16);
    var h, g := W32(seed + P32E), W32(other + P32E);
    if Finalize32(W32(h + |s|), s) == Finalize32(W32(g + |s|), s) {
      Finalize32Keeps(W32(h + |s|), W32(g + |s|), s);
      Plus32(h, g, |s|);
      Plus32(seed, other, P32E);
    }
  }

  lemma Seeds64Apart(seed: UInt64, other: UInt64, s: seq<Byte>)
    requires |s| < 32 && seed != other
    ensures Hash64(seed, s) != Hash64(other, s)
  {
    hide Merge64, Finalize64, Fold, Stripe64, Begin64, W64;
    LeftShort(s, 32);
    var h, g := W64(seed + P64E), W64(other + P64E);
    if Finalize64(W64(h + |s|), s) == Finalize64(W64(g + |s|), s) {
      Finalize64Keeps(W64(h + |s|), W64(g + |s|), s);
      Plus64(h, g, |s|);
      Plus64(seed, other, P64E);
    }
  }
}
