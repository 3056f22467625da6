/** Grisu2: from the bits of a double to its shortest digits. */
module Fpconv {
  import opened Bytes
  import opened Grisu

  class Fp {
    var frac: UInt64
    var exp: int

    constructor (frac: UInt64, exp: int)
      ensures this.frac == frac && this.exp == exp
    {
      this.frac := frac;
      this.exp := exp;
    }
  }

  // ---------------------------------------------------------------- doubles

  const Two52: nat := 0x10_0000_0000_0000

  /** Bits of a positive finite double. */
  predicate Finite(bits: UInt64) {
    0 < bits < 0x7ff * Two52
  }

  function Significand(bits: UInt64): nat {
    bits % Two52 + if bits / Two52 % 0x800 > 0 then HiddenBit else 0
  }

  function Exponent(bits: UInt64): int {
    if bits / Two52 % 0x800 > 0 then bits / Two52 % 0x800 - 1075 else -1074
  }

  /** Adjacent bit patterns are one unit in the last place apart, also across powers of two. */
  lemma NextDouble(bits: UInt64)
    requires bits < 0x7ff * Two52
    ensures var e := Exponent(bits + 1) - Exponent(bits);
      e in {0, 1} && Significand(bits + 1) * Pow2(e) == Significand(bits) + 1
    ensures Exponent(bits + 1) > Exponent(bits) <==> Significand(bits + 1) == HiddenBit && bits + 1 > Two52
  {
    assert Pow2(0) == 1 && Pow2(1) == 2;
    var q, r := bits / Two52, bits % Two52;
    if r + 1 < Two52 {
      assert (bits + 1) / Two52 == q && (bits + 1) % Two52 == r + 1;
    } else {
      assert (bits + 1) / Two52 == q + 1 && (bits + 1) % Two52 == 0;
    }
  }

  lemma SignificandBounds(bits: UInt64)
    requires Finite(bits)
    ensures 0 < Significand(bits) < 2 * HiddenBit
  {
  }

  method BuildFp(bits: UInt64) returns (fp: Fp)
    ensures fresh(fp) && fp.frac == Significand(bits) && fp.exp == Exponent(bits)
  {
    fp := new Fp(bits % Two52, bits / Two52 % 0x800);
    if fp.exp != 0 {
      fp.frac := fp.frac + HiddenBit;
      fp.exp := fp.exp - 1075;
    } else {
      fp.exp := -1075 + 1;
    }
  }

  // ---------------------------------------------------------------- shifting

  lemma ShlAdd(x: nat, m: nat, n: nat)
    ensures Shl(Shl(x, m), n) == Shl(x, m + n)
  {
    Pow2Add(m, n);
    hide Pow2;
    MulAssoc(x, Pow2(m), Pow2(n));
  }

  lemma ShlOne(x: nat)
    ensures Shl(x, 1) == 2 * x && Shl(x, 0) == x && Shl(x, 2) == 4 * x
  {
    assert Pow2(0) == 1 && Pow2(1) == 2 && Pow2(2) == 4;
  }

  lemma ShlNine(x: nat)
    ensures Shl(x, 9) == 0x200 * x && Shl(x, 10) == 0x400 * x && Shl(x, 11) == 0x800 * x
  {
    assert Pow2(8) == 0x100;
    assert Pow2(9) == 0x200 && Pow2(10) == 0x400 && Pow2(11) == 0x800;
  }

  /** Bit 52 set, then moved up to bit 63: the value stays, written with another exponent. */
  method Normalize(fp: Fp)
    requires 0 < fp.frac < 2 * HiddenBit
    modifies fp
    ensures Max64 / 2 <= fp.frac && fp.exp <= old(fp.exp) && fp.frac == Shl(old(fp.frac), old(fp.exp) - fp.exp)
  {
    hide Shl;
    ShlOne(fp.frac);
    while fp.frac / HiddenBit % 2 == 0
      invariant 0 < fp.frac < 2 * HiddenBit
      invariant fp.exp <= old(fp.exp) && fp.frac == Shl(old(fp.frac), old(fp.exp) - fp.exp)
      decreases 2 * HiddenBit - fp.frac
    {
      ShlAdd(old(fp.frac), old(fp.exp) - fp.exp, 1);
      ShlOne(fp.frac);
      fp.frac := 2 * fp.frac;
      fp.exp := fp.exp - 1;
    }
    var shift := 64 - 52 - 1;
    ShlAdd(old(fp.frac), old(fp.exp) - fp.exp, shift);
    ShlNine(fp.frac);
    fp.frac := Shl(fp.frac, shift);
    fp.exp := fp.exp - shift;
  }

  /** Twice the lower boundary, in units of half the last place of `f`. */
  function TwiceBelow(f: nat): int {
    if f == HiddenBit then 4 * f - 1 else 4 * f - 2
  }

  /** The boundaries, with the exponent the normalized number has too. */
  method GetNormalizedBoundaries(fp: Fp, lower: Fp, upper: Fp)
    requires 0 < fp.frac < 2 * HiddenBit && fp != lower && fp != upper && lower != upper
    modifies lower, upper
    ensures lower.exp == upper.exp <= fp.exp - 11
    ensures var d: nat := fp.exp - upper.exp;
      && 4 * upper.frac == Shl(4 * fp.frac + 2, d)
      && 4 * lower.frac == Shl(TwiceBelow(fp.frac), d)
      && Max64 / 2 <= Shl(fp.frac, d) < Max64
  {
    hide Shl;
    ghost var f, e := fp.frac, fp.exp;
    upper.frac := 2 * fp.frac + 1;
    upper.exp := fp.exp - 1;
    ghost var n: nat := 0;
    ShlOne(2 * f + 1);
    ShlOne(f);
    while upper.frac / (2 * HiddenBit) % 2 == 0
      invariant 0 < upper.frac < 4 * HiddenBit && upper.exp == e - 1 - n && upper.frac == Shl(2 * f + 1, n)
      invariant f < 2 * HiddenBit && Shl(f, n) < 2 * HiddenBit
      invariant fp.frac == f && fp.exp == e
      decreases 4 * HiddenBit - upper.frac
    {
      ShlAdd(2 * f + 1, n, 1);
      ShlAdd(f, n, 1);
      ShlOne(upper.frac);
      ShlOne(Shl(f, n));
      ShlOdd(f, n);
      upper.frac := 2 * upper.frac;
      upper.exp := upper.exp - 1;
      n := n + 1;
    }
    assert upper.frac >= 2 * HiddenBit;
    TopBit(f, n);
    ghost var d: nat := n + 11;
    var uShift := 64 - 52 - 2;
    ShlAdd(2 * f + 1, n, uShift);
    ShlNine(upper.frac);
    upper.frac := Shl(upper.frac, uShift);
    upper.exp := upper.exp - uShift;
    ShlDouble(2 * f + 1, n + 10);
    var lShift := if fp.frac == HiddenBit then 2 else 1;
    ShlOne(fp.frac);
    LowerShift(f, n, lShift);
    lower.frac := Shl(fp.frac, lShift) - 1;
    lower.exp := fp.exp - lShift;
    lower.frac := Shl(lower.frac, lower.exp - upper.exp);
    lower.exp := upper.exp;
    ShlAdd(f, n, 11);
    ShlNine(Shl(f, n));
  }

  lemma ShlOdd(f: nat, n: nat)
    ensures Shl(2 * f + 1, n) == 2 * Shl(f, n) + Pow2(n)
  {
    hide Pow2;
  }

  lemma ShlDouble(x: nat, n: nat)
    ensures Shl(2 * x, n + 1) == 4 * Shl(x, n)
  {
    assert Pow2(n + 1) == 2 * Pow2(n);
    hide Pow2;
    assert 2 * x * (2 * Pow2(n)) == 4 * (x * Pow2(n));
  }

  /** The top bit of 2f + 1 is that of f, one place up. */
  lemma TopBit(f: nat, n: nat)
    requires f > 0 && Shl(2 * f + 1, n) >= 2 * HiddenBit && Shl(f, n) < 2 * HiddenBit
    ensures Shl(f, n) >= HiddenBit
  {
    assert Pow2(52) == HiddenBit by { HiddenBitIs(); }
    hide Pow2;
    if n <= 52 {
      Pow2Add(n, 52 - n);
      var u, m := Pow2(n), Pow2(52 - n);
      assert (2 * f + 1) * u >= 2 * (u * m);
      if f < m {
        TooSmall(f, m, u);
      }
      MulLe(m, f, u);
    } else {
      Pow2Monotone(52, n);
      MulLe(1, f, Pow2(n));
    }
  }

  lemma TooSmall(f: nat, m: nat, u: nat)
    requires f < m && u > 0
    ensures (2 * f + 1) * u < 2 * (u * m)
  {
    MulLe(2 * f + 1, 2 * m - 1, u);
    assert (2 * m - 1) * u == 2 * (u * m) - u;
  }

  lemma HiddenBitIs()
    ensures Pow2(52) == HiddenBit
  {
    assert Pow2(8) == 0x100;
    assert Pow2(16) == 0x100 * Pow2(8);
    assert Pow2(24) == 0x100 * Pow2(16);
    assert Pow2(32) == 0x100 * Pow2(24);
    assert Pow2(40) == 0x100 * Pow2(32);
    assert Pow2(48) == 0x100 * Pow2(40);
    assert Pow2(52) == 0x10 * Pow2(48);
  }

  lemma LowerShift(f: nat, n: nat, l: nat)
    requires 0 < f && l == (if f == HiddenBit then 2 else 1) && Shl(f, n) < 2 * HiddenBit
    ensures Shl(f, l) >= 1
    ensures 4 * Shl(Shl(f, l) - 1, n + 11 - l) == Shl(TwiceBelow(f), n + 11)
    ensures Shl(Shl(f, l) - 1, n + 11 - l) < Max64
  {
    ShlOne(f);
    ShlAdd(f, n, 11);
    ShlNine(Shl(f, n));
    if l == 2 {
      assert 4 * Shl(4 * f - 1, n + 9) == Shl(4 * f - 1, n + 11) by { Quadruple(4 * f - 1, n + 9); }
      Smaller(4 * f - 1, 4 * f, n + 9);
      Quadruple(f, n + 9);
      FourTimes(f, n + 9);
    } else {
      ShlDouble(2 * f - 1, n + 10);
      Smaller(2 * f - 1, 2 * f, n + 10);
      Twice(f, n + 10);
    }
  }

  lemma Quadruple(x: nat, n: nat)
    ensures Shl(x, n + 2) == 4 * Shl(x, n)
  {
    ShlAdd(x, n, 2);
    ShlOne(Shl(x, n));
  }

  lemma FourTimes(x: nat, n: nat)
    ensures Shl(4 * x, n) == 4 * Shl(x, n)
  {
    hide Pow2;
  }

  lemma Twice(x: nat, n: nat)
    ensures Shl(2 * x, n) == Shl(x, n + 1)
  {
    assert Pow2(n + 1) == 2 * Pow2(n);
  }

  lemma Smaller(x: nat, y: nat, n: nat)
    requires x < y
    ensures Shl(x, n) < Shl(y, n)
  {
    hide Pow2;
    MulLe(x + 1, y, Pow2(n));
  }

  // ---------------------------------------------------------------- the rounded product

  /** The upper 64 bits of the exact product, rounded half up. */
  function Product(a: UInt64, b: UInt64): nat {
    (a * b + Max64 / 2) / Max64
  }

  method Multiply(a: Fp, b: Fp) returns (fp: Fp)
    ensures fresh(fp) && fp.frac == Product(a.frac, b.frac) && fp.exp == a.exp + b.exp + 64
  {
    hide Product;
    var m := 0x1_0000_0000;
    var ah, al, bh, bl := a.frac / m, a.frac % m, b.frac / m, b.frac % m;
    Halves(ah, bl);
    Halves(al, bh);
    Halves(al, bl);
    Halves(ah, bh);
    var ahBl: UInt64, alBh: UInt64, alBl: UInt64, ahBh: UInt64 := ah * bl, al * bh, al * bl, ah * bh;
    var tmp: UInt64 := ahBl % m + alBh % m + alBl / m;
    tmp := tmp + 0x8000_0000;
    Assembled(a.frac, b.frac, ah, al, bh, bl);
    fp := new Fp(ahBh + ahBl / m + alBh / m + tmp / m, a.exp + b.exp + 64);
  }

  lemma Halves(x: nat, y: nat)
    requires x < 0x1_0000_0000 && y < 0x1_0000_0000
    ensures 0 <= x * y <= 0xffff_fffe_0000_0001
  {
    MulLe(x, 0xffff_ffff, y);
    assert 0xffff_ffff * y <= 0xffff_fffe_0000_0001;
    MulLe(0, x, y);
  }

  lemma Assembled(a: UInt64, b: UInt64, ah: nat, al: nat, bh: nat, bl: nat)
    requires a == ah * 0x1_0000_0000 + al && b == bh * 0x1_0000_0000 + bl
    requires ah < 0x1_0000_0000 && al < 0x1_0000_0000 && bh < 0x1_0000_0000 && bl < 0x1_0000_0000
    ensures var m := 0x1_0000_0000;
      var tmp := ah * bl % m + al * bh % m + al * bl / m + 0x8000_0000;
      ah * bh + ah * bl / m + al * bh / m + tmp / m == Product(a, b) < Max64
  {
    var m := 0x1_0000_0000;
    var p, q, r, t := ah * bh, ah * bl, al * bh, al * bl;
    assert a * b == p * Max64 + (q + r) * m + t by {
      assert (ah * m + al) * (bh * m + bl) == ah * bh * m * m + ah * bl * m + al * bh * m + al * bl;
    }
    TopHalf(p, q, r, t);
    assert a * b <= (Max64 - 1) * (Max64 - 1) by { MulLe(a, Max64 - 1, b); MulLe(b, Max64 - 1, Max64 - 1); }
  }

  lemma TopHalf(p: nat, q: nat, r: nat, t: nat)
    ensures var m := 0x1_0000_0000;
      var tmp := q % m + r % m + t / m + 0x8000_0000;
      (p * Max64 + (q + r) * m + t + Max64 / 2) / Max64 == p + q / m + r / m + tmp / m
  {
  }

  lemma ProductBounds(x: UInt64, y: UInt64)
    ensures 2 * x * y - Max64 < 2 * Max64 * Product(x, y) <= 2 * x * y + Max64
    ensures Product(x, y) < Max64
  {
    var n := x * y + Max64 / 2;
    assert Max64 * (n / Max64) <= n < Max64 * (n / Max64) + Max64;
    assert 2 * x * y == 2 * (x * y);
    assert x * y <= (Max64 - 1) * (Max64 - 1) by { MulLe(x, Max64 - 1, y); MulLe(y, Max64 - 1, Max64 - 1); }
  }

  // ---------------------------------------------------------------- real powers

  function Power(base: real, n: int): (r: real)
    requires base > 0.0
    ensures r > 0.0
    decreases Abs(n)
  {
    if n == 0 then 1.0
    else if n > 0 then base * Power(base, n - 1)
    else
      DividePositive(Power(base, n + 1), base);
      Power(base, n + 1) / base
  }

  lemma DividePositive(x: real, y: real)
    requires x > 0.0 && y > 0.0
    ensures x / y > 0.0 && x / y * y == x
  {
  }

  lemma PowerStep(base: real, n: int)
    requires base > 0.0
    ensures Power(base, n + 1) == base * Power(base, n)
  {
    if n < 0 { DividePositive(Power(base, n + 1), base); }
  }

  lemma {:induction false} PowerAdd(base: real, m: int, n: int)
    requires base > 0.0
    ensures Power(base, m + n) == Power(base, m) * Power(base, n)
    decreases Abs(m)
  {
    hide Power;
    if m == 0 {
      assert Power(base, 0) == 1.0 by { PowerZero(base); }
    } else if m > 0 {
      PowerAdd(base, m - 1, n);
      PowerStep(base, m - 1);
      PowerStep(base, m - 1 + n);
      Associative(base, Power(base, m - 1), Power(base, n));
    } else {
      PowerAdd(base, m + 1, n);
      PowerStep(base, m);
      PowerStep(base, m + n);
      Associative(base, Power(base, m), Power(base, n));
      CancelReal(base, Power(base, m + n), Power(base, m) * Power(base, n));
    }
  }

  lemma PowerZero(base: real)
    requires base > 0.0
    ensures Power(base, 0) == 1.0
  {
  }

  lemma Associative(x: real, y: real, z: real)
    ensures x * y * z == x * (y * z)
  {
  }

  lemma CancelReal(x: real, y: real, z: real)
    requires x > 0.0 && x * y == x * z
    ensures y == z
  {
  }

  function Two(n: int): (r: real)
    ensures r > 0.0
  {
    Power(2.0, n)
  }

  function Ten(n: int): (r: real)
    ensures r > 0.0
  {
    Power(10.0, n)
  }

  lemma {:induction false} TwoIsPow2(n: nat)
    ensures Two(n) == Pow2(n) as real
  {
    if n > 0 { TwoIsPow2(n - 1); }
  }

  lemma {:induction false} TenIsPow10(n: nat)
    ensures Ten(n) == Pow10(n) as real
  {
    if n > 0 { TenIsPow10(n - 1); }
  }

  // ---------------------------------------------------------------- values and midpoints

  function Val(bits: UInt64): real {
    Significand(bits) as real * Two(Exponent(bits))
  }

  /** Halfway to the next larger double. */
  function MidAbove(bits: UInt64): real
    requires Finite(bits)
  {
    (Val(bits) + Val(bits + 1)) / 2.0
  }

  function MidBelow(bits: UInt64): real
    requires Finite(bits)
  {
    (Val(bits - 1) + Val(bits)) / 2.0
  }

  lemma TwoShift(n: int, d: nat)
    ensures Two(n + d) == Pow2(d) as real * Two(n)
  {
    hide Power;
    PowerAdd(2.0, d, n);
    TwoIsPow2(d);
  }

  /** A boundary in quarters of the last place, as a real number. */
  lemma Quarters(frac: nat, exp: int, q: nat, e: int)
    requires e >= exp && 4 * frac == Shl(q, e - exp)
    ensures frac as real * Two(exp) == q as real / 4.0 * Two(e)
  {
    hide Power, Pow2;
    TwoShift(exp, e - exp);
    ScaleReal(4 * frac, q, Pow2(e - exp), Two(exp));
  }

  lemma ScaleReal(x: nat, q: nat, u: nat, t: real)
    requires x == q * u
    ensures x as real * t == q as real * (u as real * t)
  {
    assert x as real == q as real * u as real;
  }

  /** The upper boundary is the midpoint between the double and the next larger one. */
  lemma UpperIsMidpoint(bits: UInt64)
    requires Finite(bits)
    ensures (4 * Significand(bits) + 2) as real / 4.0 * Two(Exponent(bits)) == MidAbove(bits)
  {
    hide Power, Significand, Exponent;
    NextDouble(bits);
    var e, d := Exponent(bits), Exponent(bits + 1) - Exponent(bits);
    TwoShift(e, d);
    ScaleReal(Significand(bits) + 1, Significand(bits + 1), Pow2(d), Two(e));
  }

  /** The lower boundary, as a real number. */
  function LowerBoundary(bits: UInt64): real {
    TwiceBelow(Significand(bits)) as real / 4.0 * Two(Exponent(bits))
  }

  /** So is the lower one, except that it is nearer for the smallest number in normal form. */
  lemma LowerIsMidpoint(bits: UInt64)
    requires Finite(bits)
    ensures LowerBoundary(bits) >= MidBelow(bits)
    ensures LowerBoundary(bits) == MidBelow(bits) <==> bits != Two52
  {
    hide Significand, Exponent, MidBelow, LowerBoundary;
    SmallestNormal(bits);
    if Exponent(bits - 1) == Exponent(bits) {
      LowerSame(bits);
    } else {
      LowerHalf(bits);
    }
  }

  lemma LowerSame(bits: UInt64)
    requires Finite(bits) && Exponent(bits - 1) == Exponent(bits)
    ensures LowerBoundary(bits) >= MidBelow(bits)
    ensures LowerBoundary(bits) == MidBelow(bits) <==> Significand(bits) != HiddenBit
  {
    hide Significand, Exponent, Two, TwiceBelow, MidBelow;
    PreviousSignificand(bits);
    MidBelowIs(bits);
    EqualSpacing(Significand(bits), Two(Exponent(bits)));
  }

  lemma LowerHalf(bits: UInt64)
    requires Finite(bits) && Exponent(bits - 1) != Exponent(bits)
    ensures LowerBoundary(bits) == MidBelow(bits)
  {
    SmallestNormal(bits);
    hide Significand, Exponent, Two, TwiceBelow, MidBelow;
    PreviousSignificand(bits);
    MidBelowIs(bits);
    assert Exponent(bits) > Exponent(bits - 1);
    HalfSpacing(Significand(bits), Two(Exponent(bits)), Two(Exponent(bits) - 1));
  }

  lemma MidBelowIs(bits: UInt64)
    requires Finite(bits)
    ensures MidBelow(bits) == (Significand(bits - 1) as real * Two(Exponent(bits - 1))
        + Significand(bits) as real * Two(Exponent(bits))) / 2.0
  {
  }

  lemma PreviousSignificand(bits: UInt64)
    requires Finite(bits)
    ensures Exponent(bits - 1) == Exponent(bits) ==> Significand(bits - 1) == Significand(bits) - 1
    ensures Exponent(bits - 1) != Exponent(bits) ==> Significand(bits - 1) == 2 * Significand(bits) - 1
    ensures Exponent(bits - 1) != Exponent(bits) ==>
      Exponent(bits - 1) == Exponent(bits) - 1 && Two(Exponent(bits) - 1) * 2.0 == Two(Exponent(bits))
  {
    hide Two, Significand, Exponent;
    NextDouble(bits - 1);
    assert Pow2(0) == 1 && Pow2(1) == 2;
    TwoShift(Exponent(bits) - 1, 1);
  }

  lemma SmallestNormal(bits: UInt64)
    requires Finite(bits)
    ensures Exponent(bits) >= Exponent(bits - 1)
    ensures Exponent(bits) > Exponent(bits - 1) <==> Significand(bits) == HiddenBit && bits != Two52
    ensures bits == Two52 ==> Significand(bits) == HiddenBit
  {
    NextDouble(bits - 1);
  }

  lemma EqualSpacing(f: nat, t: real)
    requires f > 0 && t > 0.0
    ensures ((f - 1) as real * t + f as real * t) / 2.0 == (4 * f - 2) as real / 4.0 * t
    ensures TwiceBelow(f) as real / 4.0 * t >= (4 * f - 2) as real / 4.0 * t
    ensures TwiceBelow(f) as real / 4.0 * t == (4 * f - 2) as real / 4.0 * t <==> f != HiddenBit
  {
  }

  lemma HalfSpacing(f: nat, t: real, half: real)
    requires f == HiddenBit && half * 2.0 == t
    ensures ((2 * f - 1) as real * half + f as real * t) / 2.0 == TwiceBelow(f) as real / 4.0 * t
  {
  }

  // ---------------------------------------------------------------- the shortest digits of a double

  /** A power of ten as `frac * 2^exp`, standing for 10^k. */
  datatype CachedPower = CachedPower(frac: UInt64, exp: int, k: int)

  /** A full 64-bit fraction, off by half a unit in its last place at most. */
  ghost predicate Accurate(c: CachedPower) {
    && Max64 / 2 <= c.frac
    && c.frac as real * Two(c.exp) - Two(c.exp) / 2.0 <= Ten(c.k) <= c.frac as real * Two(c.exp) + Two(c.exp) / 2.0
  }

  /** Lowered by one, the rounded product of the upper boundary is below the exact one. */
  lemma UpperStrict(x: UInt64, c: UInt64, t: real, a: real)
    requires a > 0.0 && c as real * a <= t + a / 2.0
    ensures (Product(x, c) as real - 1.0) * a * Max64 as real < x as real * t
  {
    ProductBounds(x, c);
    hide Product;
    StrictReal(Product(x, c) as real - 1.0, x, c, t, a);
  }

  lemma StrictReal(m: real, x: UInt64, c: UInt64, t: real, a: real)
    requires a > 0.0 && c as real * a <= t + a / 2.0
    requires 2.0 * Max64 as real * m <= 2.0 * (x * c) as real - Max64 as real
    ensures m * a * Max64 as real < x as real * t
  {
    var big := Max64 as real;
    var q, y, z := (x * c) as real * a, x as real * a, big * a;
    MulReal(2.0 * big * m, 2.0 * (x * c) as real - big, a);
    Doubled(big, m, a);
    Spread(2.0 * (x * c) as real, big, a);
    Spread(big, 1.0, a);
    assert 2.0 * (m * a * big) <= 2.0 * (x * c) as real * a - z;
    assert 2.0 * (x * c) as real * a == 2.0 * q;
    ProductReal(x, c, a);
    MulReal(c as real * a, t + a / 2.0, x as real);
    HalfMore(x as real, t, a);
    assert q <= x as real * t + y / 2.0;
    MulReal(x as real, big - 1.0, a);
    assert y <= z - a;
  }

  lemma Doubled(big: real, m: real, a: real)
    ensures 2.0 * big * m * a == 2.0 * (m * a * big)
  {
  }

  lemma Spread(x: real, y: real, a: real)
    ensures (x - y) * a == x * a - y * a
  {
  }

  lemma HalfMore(x: real, t: real, a: real)
    ensures x * (t + a / 2.0) == x * t + x * a / 2.0
    ensures x * (t - a / 2.0) == x * t - x * a / 2.0
  {
  }

  lemma MulReal(x: real, y: real, a: real)
    requires x <= y && a >= 0.0
    ensures x * a <= y * a && a * x <= a * y
  {
  }

  lemma ProductReal(x: nat, c: nat, a: real)
    ensures (x * c) as real * a == x as real * (c as real * a)
  {
    assert (x * c) as real == x as real * c as real;
  }

  /** Raised by one, the rounded product of the lower boundary is above the exact one. */
  lemma LowerStrict(x: UInt64, c: UInt64, t: real, a: real)
    requires a > 0.0 && c as real * a >= t - a / 2.0
    ensures (Product(x, c) as real + 1.0) * a * Max64 as real > x as real * t
  {
    ProductBounds(x, c);
    hide Product;
    StrictRealBelow(Product(x, c) as real + 1.0, x, c, t, a);
  }

  lemma StrictRealBelow(m: real, x: UInt64, c: UInt64, t: real, a: real)
    requires a > 0.0 && c as real * a >= t - a / 2.0
    requires 2.0 * Max64 as real * m >= 2.0 * (x * c) as real + Max64 as real
    ensures m * a * Max64 as real > x as real * t
  {
    var big := Max64 as real;
    var q, y, z := (x * c) as real * a, x as real * a, big * a;
    MulReal(2.0 * (x * c) as real + big, 2.0 * big * m, a);
    Doubled(big, m, a);
    Spread(2.0 * (x * c) as real, 0.0 - big, a);
    Spread(big, 1.0, a);
    assert 2.0 * (m * a * big) >= 2.0 * (x * c) as real * a + z;
    assert 2.0 * (x * c) as real * a == 2.0 * q;
    ProductReal(x, c, a);
    MulReal(t - a / 2.0, c as real * a, x as real);
    HalfMore(x as real, t, a);
    assert q >= x as real * t - y / 2.0;
    MulReal(x as real, big - 1.0, a);
    assert y <= z - a;
  }

  /** `d` units, as a real number of the scaled interval. */
  lemma UnitReal(s: nat, kappa: int, d: nat)
    ensures (d * Unit(s, kappa)) as real == d as real * Ten(kappa) * Two(s) * Scale(kappa) as real
  {
    hide Power, Pow2, Pow10, Two, Ten, Unit, Scale;
    if kappa >= 0 {
      UnitWhole(s, kappa);
      ThreeReals(d, Unit(s, kappa), Ten(kappa), Two(s));
    } else {
      UnitFraction(s, kappa);
      FourReals(d, Unit(s, kappa), Ten(kappa), Two(s), Scale(kappa) as real);
    }
  }

  lemma UnitWhole(s: nat, kappa: nat)
    ensures Unit(s, kappa) as real == Two(s) * Ten(kappa) && Scale(kappa) == 1
  {
    hide Power, Two, Ten;
    TwoIsPow2(s);
    TenIsPow10(kappa);
    WholeUnit(s, kappa);
    ProductReal(Pow10(kappa), Pow2(s), 1.0);
  }

  lemma UnitFraction(s: nat, kappa: int)
    requires kappa < 0
    ensures Unit(s, kappa) as real == Two(s) && Ten(kappa) * Scale(kappa) as real == 1.0
  {
    hide Power;
    TwoIsPow2(s);
    TenIsPow10(0 - kappa);
    PowerAdd(10.0, kappa, 0 - kappa);
    PowerZero(10.0);
  }

  lemma ThreeReals(d: nat, u: nat, x: real, y: real)
    requires u as real == y * x
    ensures (d * u) as real == d as real * x * y
  {
    assert (d * u) as real == d as real * u as real;
  }

  lemma FourReals(d: nat, u: nat, x: real, y: real, z: real)
    requires u as real == y && x * z == 1.0
    ensures (d * u) as real == d as real * x * y * z
  {
    assert (d * u) as real == d as real * u as real;
    assert d as real * x * y * z == d as real * y * (x * z);
  }

  lemma CompareScaled(x: nat, y: nat, r: real, scale: nat)
    requires scale > 0 && y as real == r * scale as real
    ensures x * scale <= y ==> x as real <= r
    ensures y <= x * scale ==> r <= x as real
  {
    assert (x * scale) as real == x as real * scale as real;
    if x * scale <= y && x as real > r { CancelLe(r, x as real, scale as real); }
    if y <= x * scale && r > x as real { CancelLe(x as real, r, scale as real); }
  }

  lemma CancelLe(x: real, y: real, z: real)
    requires x < y && z > 0.0
    ensures x * z < y * z
  {
  }

  /** What the digits stand for, once the cached power is taken out again. */
  lemma Unscaled(d: nat, kappa: int, s: nat, c: CachedPower, exp: int, x: UInt64, m: real)
    requires s == -(exp + c.exp + 64) && Accurate(c)
    ensures d as real * Ten(kappa) * Two(s) <= m && m * Two(c.exp) * Max64 as real < x as real * Ten(c.k)
            ==> d as real * Ten(kappa - c.k) < x as real * Two(exp)
    ensures d as real * Ten(kappa) * Two(s) >= m && m * Two(c.exp) * Max64 as real > x as real * Ten(c.k)
            ==> d as real * Ten(kappa - c.k) > x as real * Two(exp)
  {
    hide Power, Two, Ten;
    var r, v := d as real * Ten(kappa), x as real;
    Exponents(s, c.exp, exp);
    Tens10(kappa, c.k);
    Moved(d as real, Ten(kappa), Two(s), Two(c.exp), Max64 as real, Two(exp), Ten(c.k), Ten(kappa - c.k), v, m);
  }

  lemma Pow64()
    ensures Pow2(64) == Max64
  {
    OneBounds(60);
    HiddenBitIs();
    Pow2Add(52, 12);
    assert Pow2(12) == 0x1000;
  }

  /** The exponents of normalized numbers. */
  lemma ExponentRange(bits: UInt64, d: nat)
    requires Finite(bits) && d >= 11 && Shl(Significand(bits), d) < Max64
    ensures -1137 <= Exponent(bits) - d <= 960
  {
    SignificandBounds(bits);
    hide Significand;
    Pow64();
    if d >= 64 {
      Pow2Monotone(64, d);
      MulLe(1, Significand(bits), Pow2(d));
    }
  }

  lemma Exponents(s: nat, ce: int, exp: int)
    requires s == -(exp + ce + 64)
    ensures Two(s) * Two(ce) * Max64 as real * Two(exp) == 1.0
  {
    hide Power;
    TwoIsPow2(64);
    Pow64();
    PowerAdd(2.0, s, ce);
    PowerAdd(2.0, s + ce, 64);
    PowerAdd(2.0, s + ce + 64, exp);
    PowerZero(2.0);
  }

  lemma Tens10(kappa: int, k: int)
    ensures Ten(kappa - k) * Ten(k) == Ten(kappa)
  {
    hide Power;
    PowerAdd(10.0, kappa - k, k);
  }

  lemma Moved(d: real, tk: real, ts: real, tc: real, big: real, te: real, tenk: real, tenr: real, x: real, m: real)
    requires ts > 0.0 && tc > 0.0 && big > 0.0 && te > 0.0 && tenk > 0.0
    requires ts * tc * big * te == 1.0 && tenr * tenk == tk
    ensures d * tk * ts <= m && m * tc * big < x * tenk ==> d * tenr < x * te
    ensures d * tk * ts >= m && m * tc * big > x * tenk ==> d * tenr > x * te
  {
    var y := d * tk * ts;
    MulPositive(tc, big);
    assert y * tc * big * te == d * tk by { Regrouped(d * tk, ts, tc, big, te); }
    assert d * tk == d * tenr * tenk by { Associative(d, tenr, tenk); }
    if y <= m && m * tc * big < x * tenk {
      MulReal(y, m, tc * big);
      assert y * tc * big == y * (tc * big) &&
        m * tc * big == m * (tc * big) by { Associative(y, tc, big); Associative(m, tc, big); }
      CancelLe(y * tc * big, x * tenk, te);
      Conclude(d * tenr, x * te, tenk, x, te);
    }
    if y >= m && m * tc * big > x * tenk {
      MulReal(m, y, tc * big);
      assert y * tc * big == y * (tc * big) &&
        m * tc * big == m * (tc * big) by { Associative(y, tc, big); Associative(m, tc, big); }
      CancelLe(x * tenk, y * tc * big, te);
      Conclude(d * tenr, x * te, tenk, x, te);
    }
  }

  lemma MulPositive(x: real, y: real)
    requires x > 0.0 && y > 0.0
    ensures x * y > 0.0
  {
  }

  lemma Regrouped(a: real, ts: real, tc: real, big: real, te: real)
    requires ts * tc * big * te == 1.0
    ensures a * ts * tc * big * te == a
  {
    assert a * ts * tc * big * te == a * (ts * tc * big * te);
  }

  lemma Conclude(y: real, z: real, tenk: real, x: real, te: real)
    requires tenk > 0.0 && z == x * te
    ensures y * tenk < x * tenk * te ==> y < z
    ensures y * tenk > x * tenk * te ==> y > z
  {
    assert x * tenk * te == z * tenk;
    if y >= z { MulReal(z, y, tenk); }
    if y <= z { MulReal(y, z, tenk); }
  }

  lemma SameShift(f: nat, m: nat, n: nat)
    requires f > 0 && Max64 / 2 <= Shl(f, m) < Max64 && Max64 / 2 <= Shl(f, n) < Max64
    ensures m == n
  {
    if m < n { ShiftGrows(f, m, n); }
    if n < m { ShiftGrows(f, n, m); }
  }

  lemma ShiftGrows(f: nat, m: nat, n: nat)
    requires m < n
    ensures Shl(f, n) >= 2 * Shl(f, m)
  {
    Pow2Monotone(m + 1, n);
    assert Pow2(m + 1) == 2 * Pow2(m);
    hide Pow2;
    MulLe(2 * Pow2(m), Pow2(n), f);
  }

  /** The boundaries stay well apart from the number and from each other. */
  lemma BoundariesApart(f: nat, d: nat, lower: nat, w: nat, upper: nat)
    requires f > 0 && d >= 11 && w == Shl(f, d) && 4 * upper == Shl(4 * f + 2, d) && 4 * lower == Shl(TwiceBelow(f), d)
    ensures upper - w >= 1024 && w - lower >= 512
  {
    Pow2Monotone(11, d);
    assert Pow2(11) == 0x800 by { ShlNine(1); }
    hide Pow2;
    assert Shl(4 * f + 2, d) == 4 * Shl(f, d) + 2 * Pow2(d);
    assert Shl(TwiceBelow(f), d) <= 4 * Shl(f, d) - Pow2(d) by {
      MulLe(TwiceBelow(f), 4 * f - 1, Pow2(d));
      assert (4 * f - 1) * Pow2(d) == 4 * (f * Pow2(d)) - Pow2(d);
    }
  }

  lemma MulSub(a: int, b: int, c: int)
    ensures (a - b) * c == a * c - b * c
  {
  }

  lemma RoundedApart(p: int, q: int, x: int, y: int, d: int)
    requires 2 * Max64 * p <= 2 * x + Max64 && 2 * y - Max64 < 2 * Max64 * q && Max64 / 2 * d <= y - x
    ensures 2 * (q - p) > d - 2
  {
  }

  lemma ProductsApart(x: UInt64, y: UInt64, c: UInt64)
    requires x < y && c >= Max64 / 2
    ensures 2 * (Product(y, c) - Product(x, c)) > y - x - 2
  {
    hide Product;
    ProductBounds(x, c);
    ProductBounds(y, c);
    MulLe(Max64 / 2, c, y - x);
    MulSub(y, x, c);
    MulAssoc(2, x, c);
    MulAssoc(2, y, c);
    RoundedApart(Product(x, c), Product(y, c), x * c, y * c, y - x);
  }

  /** The digits written lie strictly between the midpoints to the neighbouring doubles. */
  lemma StrictlyBetween(bits: UInt64, ds: seq<char>, s: nat, kappa: int, c: CachedPower, exp: int, lower: UInt64,
      w: UInt64, upper: UInt64)
    requires Finite(bits) && Accurate(c) && s == -(exp + c.exp + 64) && exp <= Exponent(bits)
    requires 4 * upper == Shl(4 * Significand(bits) + 2, Exponent(bits) - exp)
    requires 4 * lower == Shl(TwiceBelow(Significand(bits)), Exponent(bits) - exp)
    requires Product(lower, c.frac) + 1 < Max64 && 1 <= Product(upper, c.frac) <= Max64 && w < Max64
    requires Result(s, kappa, ds, Product(lower, c.frac) + 1, w, Product(upper, c.frac) - 1)
    ensures Written(ds, Value(ds)) && MidBelow(bits) < Value(ds) as real * Ten(kappa - c.k) < MidAbove(bits)
  {
    hide Power, Two, Ten, Product, Significand, Exponent, TwiceBelow, MidBelow, MidAbove, Shl, Accurate, LowerBoundary,
      Written, Shortest, Unit, Scale;
    var d: nat :| Written(ds, d) &&
      Shortest(Unit(s, kappa), d, (Product(lower, c.frac) + 1) * Scale(kappa), w * Scale(kappa),
          (Product(upper, c.frac) - 1) * Scale(kappa));
    WrittenValue(ds, d);
    WithinScaled(s, kappa, d, Product(lower, c.frac) + 1, w, Product(upper, c.frac) - 1);
    Inverted(d, kappa, s, c, exp, lower, upper);
    Quarters(upper, exp, 4 * Significand(bits) + 2, Exponent(bits));
    QuartersBelow(bits, lower, exp);
    UpperIsMidpoint(bits);
    LowerIsMidpoint(bits);
  }

  lemma QuartersBelow(bits: UInt64, lower: UInt64, exp: int)
    requires Finite(bits) && exp <= Exponent(bits) &&
      4 * lower == Shl(TwiceBelow(Significand(bits)), Exponent(bits) - exp)
    ensures lower as real * Two(exp) == LowerBoundary(bits)
  {
    SignificandBounds(bits);
    Quarters(lower, exp, TwiceBelow(Significand(bits)), Exponent(bits));
  }

  lemma WrittenValue(ds: seq<char>, d: nat)
    requires Written(ds, d)
    ensures Value(ds) == d
  {
  }

  lemma ShortestInside(unit: nat, d: int, low: int, mid: int, top: int)
    requires Shortest(unit, d, low, mid, top)
    ensures low <= d * unit <= top
  {
  }

  lemma WithinScaled(s: nat, kappa: int, d: nat, low: UInt64, mid: UInt64, top: UInt64)
    requires Shortest(Unit(s, kappa), d, low * Scale(kappa), mid * Scale(kappa), top * Scale(kappa))
    ensures low as real <= d as real * Ten(kappa) * Two(s) <= top as real
  {
    hide Power, Two, Ten, Shortest, Unit, Scale;
    ScalePositive(kappa);
    ShortestInside(Unit(s, kappa), d, low * Scale(kappa), mid * Scale(kappa), top * Scale(kappa));
    UnitReal(s, kappa, d);
    CompareScaled(low, d * Unit(s, kappa), d as real * Ten(kappa) * Two(s), Scale(kappa));
    CompareScaled(top, d * Unit(s, kappa), d as real * Ten(kappa) * Two(s), Scale(kappa));
  }

  lemma ScalePositive(kappa: int)
    ensures Scale(kappa) > 0
  {
  }

  lemma Inverted(d: nat, kappa: int, s: nat, c: CachedPower, exp: int, lower: UInt64, upper: UInt64)
    requires Accurate(c) && s == -(exp + c.exp + 64)
    requires Product(lower, c.frac) as real
        + 1.0 <= d as real * Ten(kappa) * Two(s) <= Product(upper, c.frac) as real - 1.0
    ensures lower as real * Two(exp) < d as real * Ten(kappa - c.k) < upper as real * Two(exp)
  {
    hide Power, Two, Ten, Product;
    UpperStrict(upper, c.frac, Ten(c.k), Two(c.exp));
    LowerStrict(lower, c.frac, Ten(c.k), Two(c.exp));
    Unscaled(d, kappa, s, c, exp, upper, Product(upper, c.frac) as real - 1.0);
    Unscaled(d, kappa, s, c, exp, lower, Product(lower, c.frac) as real + 1.0);
  }

  // ---------------------------------------------------------------- shortest and nearest

  /** What `x` stands for with the decimal exponent `k`. */
  function Times10(x: int, k: int): real {
    x as real * Ten(k)
  }

  function Far(x: real, y: real): real {
    if x >= y then x - y else y - x
  }

  /** All that the two roundings can cost: 2^-60 of the value. */
  function Slack(bits: UInt64): real {
    Val(bits) / 0x1000_0000_0000_0000 as real
  }

  /** `x * 10^k` lies between the boundaries, clear of both by more than the roundings cost. */
  ghost predicate Clear(bits: UInt64, x: nat, k: int)
    requires Finite(bits)
  {
    LowerBoundary(bits) + Slack(bits) <= Times10(x, k) <= MidAbove(bits) - Slack(bits)
  }

  /** `d * 10^k` is as near to the double as any number with that exponent which is clear of the
      boundaries, up to the roundings. */
  ghost predicate Nearest(bits: UInt64, d: int, k: int)
    requires Finite(bits)
  {
    forall x: nat :: Clear(bits, x, k) ==>
      Far(Times10(d, k), Val(bits)) <= Far(Times10(x, k), Val(bits)) + Slack(bits)
  }

  /** No number with that exponent is clear of the boundaries. */
  ghost predicate NoneClear(bits: UInt64, k: int)
    requires Finite(bits)
  {
    forall x: nat :: !Clear(bits, x, k)
  }

  /** One unit of the scaled fractions, as a real number. */
  function Gap(c: CachedPower, exp: int): (r: real)
    ensures r > 0.0
  {
    MulPositive(Two(c.exp), Max64 as real);
    MulPositive(Two(c.exp) * Max64 as real, Two(exp));
    DividePositive(Two(c.exp) * Max64 as real * Two(exp), Ten(c.k));
    Two(c.exp) * Max64 as real * Two(exp) / Ten(c.k)
  }

  lemma GapIs(c: CachedPower, exp: int)
    ensures Gap(c, exp) * Ten(c.k) == Two(c.exp) * Max64 as real * Two(exp)
  {
    hide Two, Ten;
    MulPositive(Two(c.exp), Max64 as real);
    MulPositive(Two(c.exp) * Max64 as real, Two(exp));
    DividePositive(Two(c.exp) * Max64 as real * Two(exp), Ten(c.k));
  }

  /** A rounded product is off by less than one unit. */
  lemma ProductNear(x: UInt64, c: CachedPower, exp: int)
    requires Accurate(c)
    ensures (Product(x, c.frac) as real - 1.0) * Gap(c, exp) < x as real * Two(exp)
    ensures x as real * Two(exp) < (Product(x, c.frac) as real + 1.0) * Gap(c, exp)
  {
    hide Product, Two, Ten, Gap;
    UpperStrict(x, c.frac, Ten(c.k), Two(c.exp));
    LowerStrict(x, c.frac, Ten(c.k), Two(c.exp));
    GapIs(c, exp);
    Rescaled(Product(x, c.frac) as real - 1.0, Two(c.exp), Max64 as real, x as real, Ten(c.k), Two(exp), Gap(c, exp));
    Rescaled(Product(x, c.frac) as real + 1.0, Two(c.exp), Max64 as real, x as real, Ten(c.k), Two(exp), Gap(c, exp));
  }

  lemma Rescaled(m: real, a: real, big: real, x: real, t: real, te: real, g: real)
    requires t > 0.0 && te > 0.0 && g * t == a * big * te
    ensures m * a * big < x * t ==> m * g < x * te
    ensures m * a * big > x * t ==> m * g > x * te
  {
    assert m * g * t == m * a * big * te by {
      assert m * g * t == m * (g * t);
      assert m * (a * big * te) == m * a * big * te;
    }
    assert x * te * t == x * t * te;
    if m * a * big < x * t {
      CancelLe(m * a * big, x * t, te);
      if m * g >= x * te { MulReal(x * te, m * g, t); }
    }
    if m * a * big > x * t {
      CancelLe(x * t, m * a * big, te);
      if m * g <= x * te { MulReal(m * g, x * te, t); }
    }
  }

  /** Multiples of a power of ten in the scaled interval and in the real one. */
  lemma DigitsReal(x: nat, kappa: int, s: nat, c: CachedPower, exp: int)
    requires s == -(exp + c.exp + 64)
    ensures Times10(x, kappa) * Two(s) * Gap(c, exp) == Times10(x, kappa - c.k)
  {
    hide Two, Ten, Gap;
    GapIs(c, exp);
    Exponents(s, c.exp, exp);
    Tens10(kappa, c.k);
    Regauged(x as real, Ten(kappa), Two(s), Gap(c, exp), Ten(c.k), Ten(kappa - c.k),
        Two(c.exp) * Max64 as real * Two(exp));
    assert Two(s) * (Two(c.exp) * Max64 as real * Two(exp)) == Two(s) * Two(c.exp) * Max64 as real * Two(exp);
  }

  lemma Regauged(x: real, tk: real, ts: real, g: real, t: real, tr: real, big: real)
    requires t > 0.0 && g * t == big && ts * big == 1.0 && tr * t == tk
    ensures x * tk * ts * g == x * tr
  {
    assert x * tk * ts * g == x * tr * (ts * (g * t));
  }

  /** Two units are less than the slack: the product has its 63rd bit set. */
  lemma SlackCovers(bits: UInt64, w: UInt64, c: CachedPower, exp: int)
    requires Accurate(c) && w >= Max64 / 2 && w as real * Two(exp) == Val(bits)
    ensures 2.0 * Gap(c, exp) < Slack(bits)
  {
    hide Val, Two, Ten, Gap, Product;
    ProductNear(w, c, exp);
    LargeProduct(w, c.frac);
    var m, g := Product(w, c.frac) as real - 1.0, Gap(c, exp);
    MulReal(0x3fff_ffff_ffff_ffff as real, m, g);
  }

  lemma LargeProduct(x: UInt64, y: UInt64)
    requires x >= Max64 / 2 && y >= Max64 / 2
    ensures Product(x, y) >= 0x4000_0000_0000_0000
  {
    MulLe(Max64 / 2, x, y);
    MulLe(Max64 / 2, y, Max64 / 2);
    ProductBounds(x, y);
  }

  /** Comparisons in the scaled interval, as real numbers. */
  lemma RealsCompare(x: nat, kappa: int, s: nat, m: nat)
    ensures m as real < Times10(x, kappa) * Two(s) ==> m * Scale(kappa) < x * Unit(s, kappa)
    ensures m as real > Times10(x, kappa) * Two(s) ==> m * Scale(kappa) > x * Unit(s, kappa)
  {
    hide Two, Ten, Unit, Scale;
    ScalePositive(kappa);
    UnitReal(s, kappa, x);
    var r, z := Times10(x, kappa) * Two(s), Scale(kappa) as real;
    assert (m * Scale(kappa)) as real == m as real * z;
    if m as real < r { CancelLe(m as real, r, z); }
    if m as real > r { CancelLe(r, m as real, z); }
  }

  lemma TenFold(x: nat, k: int)
    ensures Times10(10 * x, k) == Times10(x, k + 1)
  {
    PowerStep(10.0, k);
    hide Power;
    assert (10 * x) as real == 10.0 * x as real;
    assert 10.0 * x as real * Ten(k) == x as real * (10.0 * Ten(k));
  }

  /** What is clear of the boundaries lies within the interval that was searched. */
  lemma ClearInside(bits: UInt64, x: nat, kappa: int, s: nat, c: CachedPower, exp: int, lower: UInt64, w: UInt64,
      upper: UInt64)
    requires Finite(bits) && Accurate(c) && s == -(exp + c.exp + 64) && w >= Max64 / 2
    requires lower as real * Two(exp) == LowerBoundary(bits) && upper as real * Two(exp) == MidAbove(bits)
    requires w as real * Two(exp) == Val(bits) && Product(upper, c.frac) >= 1
    requires Clear(bits, x, kappa - c.k)
    ensures (Product(lower, c.frac) + 1) * Scale(kappa) < x * Unit(s, kappa)
    ensures x * Unit(s, kappa) < (Product(upper, c.frac) - 1) * Scale(kappa)
  {
    hide Val, LowerBoundary, MidAbove, Slack, Two, Ten, Gap, Product, Times10, Accurate, Unit, Scale;
    var low, top := Product(lower, c.frac), Product(upper, c.frac);
    SlackCovers(bits, w, c, exp);
    ProductNear(lower, c, exp);
    ProductNear(upper, c, exp);
    DigitsReal(x, kappa, s, c, exp);
    Between(Times10(x, kappa) * Two(s), Gap(c, exp), low as real, top as real, LowerBoundary(bits), MidAbove(bits),
        Slack(bits));
    RealsCompare(x, kappa, s, low + 1);
    RealsCompare(x, kappa, s, top - 1);
  }

  lemma Between(r: real, g: real, low: real, top: real, lb: real, ub: real, slack: real)
    requires g > 0.0 && 2.0 * g < slack && (low - 1.0) * g < lb && ub < (top + 1.0) * g
    requires lb + slack <= r * g <= ub - slack
    ensures low + 1.0 < r < top - 1.0
  {
    UnitsApart(low, g);
    UnitsApart(top, g);
    if low + 1.0 >= r { MulReal(r, low + 1.0, g); }
    if top - 1.0 <= r { MulReal(top - 1.0, r, g); }
  }

  lemma UnitsApart(m: real, g: real)
    ensures (m + 1.0) * g == (m - 1.0) * g + 2.0 * g
  {
  }

  /** Nearer in the scaled interval is nearer, up to the rounding of the middle. */
  lemma NearerReal(d: nat, x: nat, kappa: int, s: nat, c: CachedPower, exp: int, w: UInt64)
    requires Accurate(c) && s == -(exp + c.exp + 64)
    requires var z := Product(w, c.frac) * Scale(kappa); Abs(d * Unit(s, kappa) - z) <= Abs(x * Unit(s, kappa) - z)
    ensures var v := w as real * Two(exp);
      Far(Times10(d, kappa - c.k), v) <= Far(Times10(x, kappa - c.k), v) + 2.0 * Gap(c, exp)
  {
    hide Two, Ten, Gap, Product, Times10, Accurate, Unit, Scale, Abs, Far;
    ProductNear(w, c, exp);
    DigitsReal(d, kappa, s, c, exp);
    DigitsReal(x, kappa, s, c, exp);
    var z := Product(w, c.frac) * Scale(kappa);
    var y, r := Times10(d, kappa) * Two(s), Times10(x, kappa) * Two(s);
    FarReal(d, kappa, s, Product(w, c.frac), z, y);
    FarReal(x, kappa, s, Product(w, c.frac), z, r);
    ScalePositive(kappa);
    Nearer(y, r, Product(w, c.frac) as real, w as real * Two(exp), Gap(c, exp), Scale(kappa) as real,
        Times10(d, kappa - c.k), Times10(x, kappa - c.k), Abs(d * Unit(s, kappa) - z), Abs(x * Unit(s, kappa) - z));
  }

  lemma Nearer(y: real, r: real, m: real, v: real, g: real, scale: real, yg: real, rg: real, i: int, j: int)
    requires scale > 0.0 && g > 0.0 && yg == y * g && rg == r * g
    requires i <= j && i as real == Far(y, m) * scale && j as real == Far(r, m) * scale
    requires (m - 1.0) * g < v < (m + 1.0) * g
    ensures Far(yg, v) <= Far(rg, v) + 2.0 * g
  {
    hide Far;
    assert Far(y, m) <= Far(r, m) by {
      if Far(y, m) > Far(r, m) { CancelLe(Far(r, m), Far(y, m), scale); }
    }
    MulReal(Far(y, m), Far(r, m), g);
    FarTimes(y, m, g);
    FarTimes(r, m, g);
    Spread(m, 1.0, g);
    Spread(m, -1.0, g);
    Detour(yg, rg, m * g, v, g);
  }

  lemma Detour(y: real, r: real, m: real, v: real, g: real)
    requires Far(y, m) <= Far(r, m) && m - g < v < m + g
    ensures Far(y, v) <= Far(r, v) + 2.0 * g
  {
  }

  lemma FarReal(x: nat, kappa: int, s: nat, m: nat, z: nat, r: real)
    requires z == m * Scale(kappa) && r == Times10(x, kappa) * Two(s)
    ensures Abs(x * Unit(s, kappa) - z) as real == Far(r, m as real) * Scale(kappa) as real
  {
    hide Two, Ten, Unit, Scale;
    ScalePositive(kappa);
    UnitReal(s, kappa, x);
    assert (m * Scale(kappa)) as real == m as real * Scale(kappa) as real;
    FarTimes(Times10(x, kappa) * Two(s), m as real, Scale(kappa) as real);
  }

  lemma FarTimes(x: real, y: real, g: real)
    requires g > 0.0
    ensures Far(x, y) * g == Far(x * g, y * g)
  {
    Spread(x, y, g);
    Spread(y, x, g);
    if x > y { CancelLe(y, x, g); }
    if x < y { CancelLe(x, y, g); }
  }

  /** The shortest digits of the scaled interval, and among them the nearest, are those of the double. */
  lemma ShortestNearest(bits: UInt64, d: nat, kappa: int, s: nat, c: CachedPower, exp: int, lower: UInt64, w: UInt64,
      upper: UInt64)
    requires Finite(bits) && Accurate(c) && s == -(exp + c.exp + 64) && w >= Max64 / 2
    requires lower as real * Two(exp) == LowerBoundary(bits) && upper as real * Two(exp) == MidAbove(bits)
    requires w as real * Two(exp) == Val(bits) && Product(upper, c.frac) >= 1
    requires Shortest(Unit(s, kappa), d, (Product(lower, c.frac) + 1) * Scale(kappa), Product(w, c.frac) * Scale(kappa),
        (Product(upper, c.frac) - 1) * Scale(kappa))
    ensures Nearest(bits, d, kappa - c.k) && NoneClear(bits, kappa - c.k + 1)
  {
    hide Val, LowerBoundary, MidAbove, Two, Ten, Gap, Product, Times10, Accurate, Unit, Scale, Clear, Far, Abs;
    var k := kappa - c.k;
    forall x: nat | Clear(bits, x, k)
      ensures Far(Times10(d, k), Val(bits)) <= Far(Times10(x, k), Val(bits)) + Slack(bits)
    {
      hide Slack;
      SlackCovers(bits, w, c, exp);
      ClearInside(bits, x, kappa, s, c, exp, lower, w, upper);
      NearerReal(d, x, kappa, s, c, exp, w);
    }
    var above := k + 1;
    forall x: nat ensures !Clear(bits, x, above) {
      hide Slack;
      if Clear(bits, x, above) { ShorterInside(bits, x, kappa, s, c, exp, lower, w, upper); }
    }
  }

  lemma ShorterInside(bits: UInt64, x: nat, kappa: int, s: nat, c: CachedPower, exp: int, lower: UInt64, w: UInt64,
      upper: UInt64)
    requires Finite(bits) && Accurate(c) && s == -(exp + c.exp + 64) && w >= Max64 / 2
    requires lower as real * Two(exp) == LowerBoundary(bits) && upper as real * Two(exp) == MidAbove(bits)
    requires w as real * Two(exp) == Val(bits) && Product(upper, c.frac) >= 1
    requires Clear(bits, x, kappa - c.k + 1)
    ensures (Product(lower, c.frac) + 1) * Scale(kappa) < x * (10 * Unit(s, kappa))
    ensures x * (10 * Unit(s, kappa)) < (Product(upper, c.frac) - 1) * Scale(kappa)
  {
    hide Val, LowerBoundary, MidAbove, Slack, Two, Ten, Gap, Product, Times10, Accurate, Unit, Scale, Clear;
    ClearTenFold(bits, x, kappa - c.k);
    ClearInside(bits, 10 * x, kappa, s, c, exp, lower, w, upper);
    assert 10 * x * Unit(s, kappa) == x * (10 * Unit(s, kappa));
  }

  lemma ClearTenFold(bits: UInt64, x: nat, k: int)
    requires Finite(bits) && Clear(bits, x, k + 1)
    ensures Clear(bits, 10 * x, k)
  {
    hide Val, LowerBoundary, MidAbove, Slack, Times10;
    TenFold(x, k);
  }

  /** The digits written are the shortest and among those the nearest. */
  lemma WrittenNearest(bits: UInt64, ds: seq<char>, s: nat, kappa: int, c: CachedPower, exp: int, lower: UInt64,
      w: UInt64, upper: UInt64)
    requires Finite(bits) && Accurate(c) && s == -(exp + c.exp + 64) && exp <= Exponent(bits)
    requires 4 * upper == Shl(4 * Significand(bits) + 2, Exponent(bits) - exp)
    requires 4 * lower == Shl(TwiceBelow(Significand(bits)), Exponent(bits) - exp)
    requires w == Shl(Significand(bits), Exponent(bits) - exp) && w >= Max64 / 2
    requires Product(lower, c.frac) + 1 < Max64 && 1 <= Product(upper, c.frac) <= Max64 && Product(w, c.frac) < Max64
    requires Result(s, kappa, ds, Product(lower, c.frac) + 1, Product(w, c.frac), Product(upper, c.frac) - 1)
    ensures Written(ds, Value(ds))
    ensures Nearest(bits, Value(ds), kappa - c.k) && NoneClear(bits, kappa - c.k + 1)
  {
    hide Two, Ten, Product, Significand, Exponent, TwiceBelow, MidAbove, Shl, Accurate, LowerBoundary, Written,
      Shortest, Unit, Scale, Nearest, NoneClear, Value;
    var d: nat :| Written(ds, d) &&
      Shortest(Unit(s, kappa), d, (Product(lower, c.frac) + 1) * Scale(kappa), Product(w, c.frac) * Scale(kappa),
          (Product(upper, c.frac) - 1) * Scale(kappa));
    WrittenValue(ds, d);
    Quarters(upper, exp, 4 * Significand(bits) + 2, Exponent(bits));
    QuartersBelow(bits, lower, exp);
    UpperIsMidpoint(bits);
    ValueScaled(bits, w, exp);
    ShortestNearest(bits, d, kappa, s, c, exp, lower, w, upper);
  }

  lemma ValueScaled(bits: UInt64, w: UInt64, exp: int)
    requires exp <= Exponent(bits) && w == Shl(Significand(bits), Exponent(bits) - exp)
    ensures w as real * Two(exp) == Val(bits)
  {
    hide Two, Significand, Exponent, Pow2;
    TwoShift(exp, Exponent(bits) - exp);
    ScaleReal(w, Significand(bits), Pow2(Exponent(bits) - exp), Two(exp));
  }

  /** The digits of a positive finite double: at most 18, and `digits * 10^K` is nearer to it
      than to any other double. No shorter number is clear of the boundaries, and none of the same
      length which is clear of them is nearer by more than the roundings cost. Cached powers are asked for at
      exponents that occur, only. */
  method Grisu2(bits: UInt64, cached: int -> CachedPower, digits: array<char>) returns (n: nat, K: int)
    requires Finite(bits) && digits.Length == 18
    requires forall e: int :: -1137 <= e <= 960 ==> Accurate(cached(e)) && -60 <= e + cached(e).exp + 64 <= -32
    modifies digits
    ensures 1 <= n <= 18 && Written(digits[..n], Value(digits[..n]))
    ensures MidBelow(bits) < Value(digits[..n]) as real * Ten(K) < MidAbove(bits)
    ensures Nearest(bits, Value(digits[..n]), K) && NoneClear(bits, K + 1)
  {
    hide Shl, Product, Significand, Exponent, TwiceBelow, Accurate, Result, Written, Value, MidBelow, MidAbove, Ten,
      Nearest, NoneClear;
    SignificandBounds(bits);
    var w := BuildFp(bits);
    var lower := new Fp(0, 0);
    var upper := new Fp(0, 0);
    GetNormalizedBoundaries(w, lower, upper);
    ghost var lo, up, exp := lower.frac, upper.frac, upper.exp;
    Normalize(w);
    SameShift(Significand(bits), Exponent(bits) - w.exp, Exponent(bits) - exp);
    BoundariesApart(Significand(bits), Exponent(bits) - exp, lo, w.frac, up);
    ExponentRange(bits, Exponent(bits) - exp);
    var c := cached(upper.exp);
    AccurateIsFull(c);
    ProductsApart(lo, w.frac, c.frac);
    ProductsApart(w.frac, up, c.frac);
    ProductBounds(up, c.frac);
    ghost var mid := w.frac;
    var cp := new Fp(c.frac, c.exp);
    w := Multiply(w, cp);
    upper := Multiply(upper, cp);
    lower := Multiply(lower, cp);
    lower.frac := lower.frac + 1;
    upper.frac := upper.frac - 1;
    K := -c.k;
    n, K := GenerateDigits(w.frac, lower.frac, upper.frac, -upper.exp, digits, K);
    StrictlyBetween(bits, digits[..n], -upper.exp, K + c.k, c, exp, lo, w.frac, up);
    WrittenNearest(bits, digits[..n], -upper.exp, K + c.k, c, exp, lo, mid, up);
  }

  lemma AccurateIsFull(c: CachedPower)
    requires Accurate(c)
    ensures c.frac >= Max64 / 2
  {
  }
}
