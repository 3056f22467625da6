/** Shortest digits of a double: boundaries, the rounded product, and the digit loops. */
module Grisu {
  import opened Bytes

  const Max64: nat := 0x1_0000_0000_0000_0000

  const HiddenBit: nat := 0x10_0000_0000_0000

  /** The powers of ten below 2^64, largest first. */
  function Tens(): (r: seq<UInt64>)
    ensures |r| == 20
  {
    [
    10_000_000_000_000_000_000, 1_000_000_000_000_000_000, 100_000_000_000_000_000,
    10_000_000_000_000_000, 1_000_000_000_000_000, 100_000_000_000_000,
    10_000_000_000_000, 1_000_000_000_000, 100_000_000_000,
    10_000_000_000, 1_000_000_000, 100_000_000,
    10_000_000, 1_000_000, 100_000,
    10_000, 1_000, 100,
    10, 1]
  }

  /** A left shift, before any bits are lost. */
  function Shl(x: nat, s: nat): nat {
    x * Pow2(s)
  }

  /** The bits a right shift drops. */
  function Mask(x: nat, s: nat): (r: nat)
    ensures r < Pow2(s)
  {
    x % Pow2(s)
  }

  lemma Division(x: nat, d: nat)
    requires d > 0
    ensures x == Div(x, d) * d + x % d && Div(x, d) <= x && x % d < d
  {
    var q := x / d;
    if q >= 1 { MulLe(1, d, q); }
  }

  lemma ShiftSplits(x: nat, s: nat)
    ensures x == Shl(Shr(x, s), s) + Mask(x, s) && Shr(x, s) <= x
  {
    hide Pow2;
    Division(x, Pow2(s));
  }

  lemma {:induction false} TensIndex(i: nat)
    requires i < 20
    ensures Tens()[19 - i] == Pow10(i)
  {
    if i > 0 {
      TensIndex(i - 1);
      assert Tens()[19 - i] == 10 * Tens()[20 - i];
    }
  }

  /** The number a run of decimal digits stands for. */
  function Value(ds: seq<char>): int {
    if ds == [] then 0 else 10 * Value(ds[..|ds| - 1]) + Digit(ds[|ds| - 1])
  }

  function Digit(c: char): int {
    c as int - '0' as int
  }

  predicate Decimal(ds: seq<char>) {
    forall i :: 0 <= i < |ds| ==> '0' <= ds[i] <= '9'
  }

  function Abs(x: int): nat {
    if x < 0 then -x else x
  }

  lemma {:induction false} ValueBounds(ds: seq<char>)
    requires Decimal(ds)
    ensures 0 <= Value(ds) < Pow10(|ds|)
    ensures ds != [] && ds[0] != '0' ==> Value(ds) >= Pow10(|ds| - 1)
  {
    if ds != [] {
      ValueBounds(ds[..|ds| - 1]);
    }
  }

  // ---------------------------------------------------------------- rounding towards w

  /** Distances from the upper boundary, in steps of `unit`, that stay inside the interval. */
  ghost predicate Closest(delta: int, rem: int, unit: int, frac: int, t: nat) {
    && rem + t * unit <= delta
    && forall i: nat :: rem + i * unit <= delta ==> Abs(rem + t * unit - frac) <= Abs(rem + i * unit - frac)
  }

  lemma StepsApart(unit: int, i: nat, t: nat)
    requires unit > 0
    ensures i < t ==> i * unit + unit <= t * unit
    ensures t < i ==> t * unit + unit <= i * unit
  {
    if i < t { MulLe(i + 1, t, unit); }
    if t < i { MulLe(t + 1, i, unit); }
  }

  method RoundDigit(digits: array<char>, n: nat, delta: UInt64, rem0: UInt64, kappa: UInt64, frac: UInt64)
    returns (ghost t: nat)
    requires 1 <= n <= digits.Length && kappa > 0 && rem0 <= delta
    requires '0' <= digits[n - 1] <= '9'
    requires rem0 + (Digit(digits[n - 1]) + 1) * kappa > delta
    modifies digits
    ensures forall i :: 0 <= i < digits.Length && i != n - 1 ==> digits[i] == old(digits[i])
    ensures '0' <= digits[n - 1] <= '9' && Digit(digits[n - 1]) == old(Digit(digits[n - 1])) - t
    ensures Closest(delta, rem0, kappa, frac, t)
  {
    var rem: UInt64 := rem0;
    t := 0;
    while rem < frac && delta - rem >= kappa && (rem + kappa < frac || frac - rem > rem + kappa - frac)
      invariant rem == rem0 + t * kappa <= delta
      invariant forall i :: 0 <= i < digits.Length && i != n - 1 ==> digits[i] == old(digits[i])
      invariant 0 <= t <= old(Digit(digits[n - 1])) && digits[n - 1] as int == old(digits[n - 1]) as int - t
      invariant t > 0 ==> rem - kappa < frac && Abs(rem - frac) < Abs(rem - kappa - frac)
      decreases delta - rem
    {
      assert rem0 + (t + 1) * kappa <= delta;
      if t + 1 > old(Digit(digits[n - 1])) { MulLe(old(Digit(digits[n - 1])) + 1, t + 1, kappa); }
      digits[n - 1] := digits[n - 1] - 1 as char;
      rem := rem + kappa;
      t := t + 1;
    }
    forall i: nat | rem0 + i * kappa <= delta ensures Abs(rem0 + t * kappa - frac) <= Abs(rem0 + i * kappa - frac) {
      StepsApart(kappa, i, t);
    }
  }

  // ---------------------------------------------------------------- what the digits promise

  /** The boundaries are fractions with `s` binary places. With `kappa` the decimal exponent of
      the last digit, `d` digits stand for `d * Unit` in numbers scaled up by `Scale`. */
  function Unit(s: nat, kappa: int): nat {
    Pow2(s) * if kappa > 0 then Pow10(kappa) else 1
  }

  function Scale(kappa: int): nat {
    if kappa < 0 then Pow10(-kappa) else 1
  }

  /** `d` times `unit` lies between `low` and `top`, no multiple of a higher power of ten does,
      and no other multiple of `unit` in there is nearer to `mid`. */
  ghost predicate Shortest(unit: nat, d: int, low: int, mid: int, top: int) {
    && low <= d * unit <= top
    && (forall x: nat :: !(low < x * (10 * unit) <= top))
    && forall x: nat :: low <= x * unit <= top ==> Abs(d * unit - mid) <= Abs(x * unit - mid)
  }

  lemma LastUnits(v: nat, rem: nat, unit: nat, y: nat)
    requires y * unit <= v * unit + rem && rem < unit
    ensures y <= v
  {
    if y > v { MulLe(v + 1, y, unit); }
  }

  lemma NoHigher(top: nat, low: int, v: nat, digit: nat, rem: nat, unit: nat, x: nat)
    requires top == (10 * v + digit) * unit + rem && digit <= 9 && rem < unit && digit * unit + rem >= top - low
    ensures !(low < x * (10 * unit) <= top)
  {
    if x * (10 * unit) <= top {
      assert 10 * x * unit == x * (10 * unit);
      LastUnits(10 * v + digit, rem, unit, 10 * x);
      assert x <= v;
      MulLe(x, v, 10 * unit);
      assert v * (10 * unit) + digit * unit == (10 * v + digit) * unit;
    }
  }

  lemma NearestOf(top: nat, low: int, mid: int, v: nat, rem: nat, unit: nat, t: nat, x: nat)
    requires top == v * unit + rem && rem < unit && Closest(top - low, rem, unit, top - mid, t)
    requires low <= x * unit <= top
    ensures Abs((v - t) * unit - mid) <= Abs(x * unit - mid)
  {
    LastUnits(v, rem, unit, x);
    var i := v - x;
    assert i * unit == v * unit - x * unit;
    assert (v - t) * unit == v * unit - t * unit;
    assert rem + i * unit <= top - low;
  }

  lemma Outcome(unit: nat, v: nat, digit: nat, rem: nat, t: nat, low: int, mid: int, top: nat)
    requires top == (10 * v + digit) * unit + rem && digit <= 9 && rem < unit
    requires digit * unit + rem >= top - low && Closest(top - low, rem, unit, top - mid, t)
    ensures Shortest(unit, 10 * v + digit - t, low, mid, top)
  {
    hide Closest;
    Inside(unit, 10 * v + digit, rem, t, low, mid, top);
    forall x: nat ensures !(low < x * (10 * unit) <= top) {
      NoHigher(top, low, v, digit, rem, unit, x);
    }
    forall x: nat | low <= x * unit <= top ensures Abs((10 * v + digit - t) * unit - mid) <= Abs(x * unit - mid) {
      NearestOf(top, low, mid, 10 * v + digit, rem, unit, t, x);
    }
  }

  lemma Inside(unit: nat, n: nat, rem: nat, t: nat, low: int, mid: int, top: nat)
    requires top == n * unit + rem && Closest(top - low, rem, unit, top - mid, t)
    ensures low <= (n - t) * unit <= top
  {
    assert (n - t) * unit == n * unit - t * unit;
  }

  // ---------------------------------------------------------------- bounds

  /** An interval of width 185 or more needs at most 18 digits, any interval at most 21. */
  lemma DigitCount(delta: nat, one: nat, scale: nat, upper: UInt64, v: nat, n: nat)
    requires delta >= 1 && one >= 1 && delta * scale <= one && v * one <= upper * (10 * scale) && n >= 1 &&
      v >= Pow10(n - 1)
    ensures n <= 21 && (delta >= 185 ==> n <= 18)
  {
    hide Pow10;
    var power := Pow10(n - 1);
    MulLe(power, v, one);
    Cancel(power, delta, one, scale, upper);
    Pow10Values();
    if n >= 22 {
      Pow10Monotone(21, n - 1);
      MulLe(1, delta, power);
    }
    if delta >= 185 && n >= 19 {
      Pow10Monotone(18, n - 1);
      MulLe(185, delta, power);
    }
  }

  lemma Cancel(power: nat, delta: nat, one: nat, scale: nat, upper: nat)
    requires one >= 1 && power * one <= upper * (10 * scale) && delta * scale <= one
    ensures delta * power <= 10 * upper
  {
    MulLe(power * one, upper * (10 * scale), delta);
    assert power * one * delta == delta * power * one;
    assert upper * (10 * scale) * delta == 10 * upper * (delta * scale);
    MulLe(delta * scale, one, 10 * upper);
    assert delta * power * one <= 10 * upper * one;
    if delta * power > 10 * upper { MulLe(10 * upper + 1, delta * power, one); }
  }

  lemma {:induction false} Pow10Monotone(m: nat, n: nat)
    requires m <= n
    ensures Pow10(m) <= Pow10(n)
    decreases n
  {
    if m < n { Pow10Monotone(m, n - 1); }
  }

  lemma Pow10Values()
    ensures Pow10(9) == 1_000_000_000 && Pow10(10) == 10_000_000_000
    ensures Pow10(18) == 1_000_000_000_000_000_000 && Pow10(19) == 10_000_000_000_000_000_000
    ensures Pow10(21) == 1_000_000_000_000_000_000_000
  {
    TensIndex(9);
    TensIndex(10);
    TensIndex(18);
    TensIndex(19);
    assert Pow10(21) == 100 * Pow10(19);
  }

  lemma OneBounds(s: nat)
    requires 32 <= s <= 60
    ensures 0x1_0000_0000 <= Pow2(s) <= 0x1000_0000_0000_0000
  {
    assert Pow2(8) == 0x100;
    assert Pow2(16) == 0x100 * Pow2(8);
    assert Pow2(24) == 0x100 * Pow2(16);
    assert Pow2(32) == 0x100 * Pow2(24);
    assert Pow2(40) == 0x100 * Pow2(32);
    assert Pow2(48) == 0x100 * Pow2(40);
    assert Pow2(56) == 0x100 * Pow2(48);
    assert Pow2(60) == 0x10 * Pow2(56);
    Pow2Monotone(32, s);
    Pow2Monotone(s, 60);
  }

  /** The loop over fractional digits ends while powers of ten still fit 64 bits. */
  lemma FewSteps(delta: nat, j: nat, s: nat)
    requires delta >= 1 && Scaled(delta, j) < Pow2(s) <= 0x1000_0000_0000_0000
    ensures j <= 18
  {
    hide Pow10, Pow2;
    Pow10Values();
    MulLe(1, delta, Pow10(j));
    if j >= 19 { Pow10Monotone(19, j); }
  }

  // ---------------------------------------------------------------- generating digits

  /** The digits written so far: their value, and no leading zero. */
  ghost predicate Written(ds: seq<char>, v: int) {
    Decimal(ds) && Value(ds) == v && (ds != [] ==> ds[0] != '0')
  }

  lemma WrittenNext(ds: seq<char>, v: nat, digit: nat)
    requires Written(ds, v) && digit <= 9
    ensures digit > 0 || ds != [] ==> Written(ds + [('0' as int + digit) as char], 10 * v + digit)
    ensures digit == 0 && ds == [] ==> Written(ds, 10 * v + digit)
    ensures ds == [] <==> v == 0
  {
    var c := ('0' as int + digit) as char;
    assert (ds + [c])[..|ds|] == ds;
    ValueBounds(ds);
  }

  /** Rounding the last digit down by `t`. */
  lemma WrittenRounded(ds: seq<char>, es: seq<char>, v: nat, t: nat)
    requires Written(ds, v) && |es| == |ds| >= 1 && es[..|es| - 1] == ds[..|ds| - 1]
    requires '0' <= es[|es| - 1] <= '9' && Digit(es[|es| - 1]) == Digit(ds[|ds| - 1]) - t && v > t
    ensures Written(es, v - t)
  {
    forall i | 0 <= i < |es| ensures '0' <= es[i] <= '9' {
      if i < |es| - 1 { assert es[i] == es[..|es| - 1][i] == ds[..|ds| - 1][i]; }
    }
    if |es| > 1 { assert es[0] == es[..|es| - 1][0] == ds[..|ds| - 1][0]; }
  }

  lemma DigitsRoom(ds: seq<char>, v: nat, delta: nat, one: nat, scale: nat, upper: UInt64, room: nat)
    requires Written(ds, v) && delta >= 1 && one >= 1 && delta * scale <= one && v * one <= upper * (10 * scale)
    requires room >= 21 || (delta >= 185 && room >= 18)
    ensures |ds| <= room
  {
    ValueBounds(ds);
    if |ds| >= 1 { DigitCount(delta, one, scale, upper, v, |ds|); }
  }

  /** The last digit, rounded: what `generate_digits` does when it stops. */
  method Finish(digits: array<char>, n: nat, delta: UInt64, rem: UInt64, unit: UInt64, frac: UInt64, ghost v: nat,
      ghost digit: nat, ghost top: nat)
    requires 1 <= n <= digits.Length && Written(digits[..n], 10 * v + digit) && Digit(digits[n - 1]) == digit <= 9
    requires unit > 0 && rem < unit && rem <= delta && frac <= delta < top
    requires top == (10 * v + digit) * unit + rem && digit * unit + rem >= delta
    modifies digits
    ensures exists d: nat :: Written(digits[..n], d) && Shortest(unit, d, top - delta, top - frac, top)
  {
    ghost var before := digits[..n];
    assert rem + (digit + 1) * unit == digit * unit + rem + unit;
    ghost var t := RoundDigit(digits, n, delta, rem, unit, frac);
    ghost var d := 10 * v + digit - t;
    Outcome(unit, v, digit, rem, t, top - delta, top - frac, top);
    if d <= 0 { MulLe(d, 0, unit); }
    assert digits[..n][..n - 1] == before[..n - 1];
    assert digits[..n][n - 1] == digits[n - 1] && before[n - 1] == old(digits[n - 1]);
    WrittenRounded(before, digits[..n], 10 * v + digit, t);
  }

  /** A digit is written unless it would be a leading zero. */
  method WriteDigit(digits: array<char>, n0: nat, digit: nat, ghost v: nat) returns (n: nat)
    requires digit <= 9 && n0 <= digits.Length && Written(digits[..n0], v) &&
      (digit > 0 || n0 > 0 ==> n0 < digits.Length)
    modifies digits
    ensures n0 <= n <= n0 + 1 && n <= digits.Length && Written(digits[..n], 10 * v + digit)
    ensures n > 0 ==> Digit(digits[n - 1]) == digit
    ensures 10 * v + digit > 0 ==> n > 0
  {
    n := n0;
    WrittenNext(digits[..n], v, digit);
    if digit > 0 || n > 0 {
      digits[n] := ('0' as int + digit) as char;
      n := n + 1;
      assert digits[..n] == old(digits[..n0]) + [digits[n - 1]];
    }
  }

  /** `v` is the number above the last `kappa` whole digits, which are in `part1`. */
  ghost predicate WholePart(upper: nat, v: nat, kappa: nat, s: nat, part1: nat, part2: nat) {
    part1 < Pow10(kappa) && part2 < Pow2(s) && upper == v * Shl(Pow10(kappa), s) + Shl(part1, s) + part2
  }

  /** `v` is the number with `j` decimal places, `part2` what is left. */
  ghost predicate FractionPart(upper: nat, v: nat, j: nat, s: nat, part2: nat) {
    part2 < Pow2(s) && upper * Pow10(j) == Shl(v, s) + part2
  }

  ghost predicate Result(s: nat, kappa: int, ds: seq<char>, lower: UInt64, w: UInt64, upper: UInt64) {
    exists d: nat :: Written(ds, d) &&
      Shortest(Unit(s, kappa), d, lower * Scale(kappa), w * Scale(kappa), upper * Scale(kappa))
  }

  /** The exponent of the last digit is added to `K0`. */
  method GenerateDigits(w: UInt64, lower: UInt64, upper: UInt64, s: nat, digits: array<char>, K0: int)
    returns (n: nat, K: int)
    requires 32 <= s <= 60 && 0 < lower < w < upper
    requires digits.Length >= 21 || (upper - lower >= 185 && digits.Length >= 18)
    modifies digits
    ensures 1 <= n <= digits.Length && Result(s, K - K0, digits[..n], lower, w, upper)
  {
    hide Pow2, Pow10, Tens, Shl, Shr, Mask, Div, Shortest, Written, WholePart, Unit, Scale, Result;
    OneBounds(s);
    var wfrac: UInt64, delta: UInt64 := upper - w, upper - lower;
    Beginning(upper, s);
    var part1: UInt64, part2: UInt64 := Shr(upper, s), Mask(upper, s);
    var kappa, divp := 10, 10;
    n := 0;
    ghost var v: nat := 0;
    NothingWritten(digits[..0]);
    while kappa > 0
      invariant 0 <= kappa <= 10 && divp == 20 - kappa && n <= 10 - kappa
      invariant WholePart(upper, v, kappa, s, part1, part2) && Shl(part1, s) + part2 > delta
      invariant Written(digits[..n], v)
    {
      TensIndex(kappa - 1);
      var div: UInt64 := Tens()[divp];
      var digit := Div(part1, div);
      WholeStep(upper, v, kappa, s, part1, part2);
      n := WriteDigit(digits, n, digit, v);
      part1 := part1 - digit * div;
      kappa := kappa - 1;
      divp := divp + 1;
      var tmp: UInt64 := Shl(part1, s) + part2;
      if tmp <= delta {
        K := K0 + kappa;
        Finish(digits, n, delta, tmp, Shl(div, s), wfrac, v, digit, upper);
        WholeResult(s, kappa, digits[..n], lower, w, upper);
        return;
      }
      v := 10 * v + digit;
    }
    WholeDone(upper, v, s, part1, part2);
    n, K := FractionDigits(w, lower, upper, s, digits, K0, n, part2, v);
  }

  lemma Beginning(upper: UInt64, s: nat)
    requires Pow2(s) >= 0x1_0000_0000
    ensures WholePart(upper, 0, 10, s, Shr(upper, s), Mask(upper, s))
    ensures Shr(upper, s) <= upper && Shl(Shr(upper, s), s) + Mask(upper, s) == upper
  {
    hide Pow10, Pow2, Tens, Shr, Mask;
    Pow10Values();
    ShiftSplits(upper, s);
    if Shr(upper, s) >= 0x1_0000_0000 { MulLe(0x1_0000_0000, Shr(upper, s), Pow2(s)); }
  }

  /** One more whole digit. */
  lemma WholeStep(upper: UInt64, v: nat, kappa: nat, s: nat, part1: nat, part2: nat)
    requires kappa > 0 && WholePart(upper, v, kappa, s, part1, part2)
    ensures var div := Pow10(kappa - 1);
      var digit := Div(part1, div);
      var rest := part1 - digit * div;
      && digit <= 9 && rest >= 0
      && WholePart(upper, 10 * v + digit, kappa - 1, s, rest, part2)
      && upper == (10 * v + digit) * Shl(div, s) + (Shl(rest, s) + part2)
      && digit * Shl(div, s) + Shl(rest, s) == Shl(part1, s)
      && Shl(rest, s) + part2 < Shl(div, s) && Shl(rest, s) + part2 <= upper
      && (Shl(rest, s) + part2 < upper ==> Shl(div, s) <= upper)
  {
    TenTimes(kappa);
    hide Pow10, Pow2, Div;
    var div := Pow10(kappa - 1);
    var digit := Div(part1, div);
    Divide(part1, div, digit);
    Regroup(upper, v, digit, div, Pow2(s), part1, part1 - digit * div, part2);
    if Shl(part1 - digit * div, s) + part2 < upper {
      UnitFits(upper, 10 * v + digit, Shl(div, s), Shl(part1 - digit * div, s) + part2);
    }
  }

  lemma WholeDone(upper: UInt64, v: nat, s: nat, part1: nat, part2: nat)
    requires WholePart(upper, v, 0, s, part1, part2)
    ensures Shl(part1, s) == 0 && part2 < Pow2(s) && FractionPart(upper, v, 0, s, part2)
  {
  }

  lemma WholeResult(s: nat, kappa: nat, ds: seq<char>, lower: UInt64, w: UInt64, upper: UInt64)
    requires exists d: nat :: Written(ds, d) && Shortest(Shl(Pow10(kappa), s), d, lower, w, upper)
    ensures Result(s, kappa, ds, lower, w, upper)
  {
    WholeUnit(s, kappa);
    hide Written, Shortest, Pow10, Pow2, Shl, Unit, Scale;
  }

  lemma WholeUnit(s: nat, kappa: nat)
    ensures Unit(s, kappa) == Shl(Pow10(kappa), s) && Scale(kappa) == 1
  {
  }

  lemma UnitFits(upper: UInt64, v: nat, unit: nat, rem: nat)
    requires upper == v * unit + rem && rem < upper
    ensures unit <= upper
  {
    if v >= 1 { MulLe(1, v, unit); }
  }

  lemma NothingWritten(ds: seq<char>)
    requires ds == []
    ensures Written(ds, 0)
  {
  }

  lemma Divide(part: nat, div: nat, digit: nat)
    requires div > 0 && part < 10 * div && digit == Div(part, div)
    ensures digit <= 9 && 0 <= part - digit * div < div
  {
    Division(part, div);
    if digit >= 10 { MulLe(10, digit, div); }
  }

  lemma Regroup(upper: nat, v: nat, digit: nat, div: nat, one: nat, rest: nat, part1: nat, part2: nat)
    requires upper == v * (10 * div * one) + rest * one + part2 && part1 == rest - digit * div && part1 < div &&
      part2 < one
    ensures upper == (10 * v + digit) * (div * one) + part1 * one + part2
    ensures digit * (div * one) + part1 * one == rest * one
    ensures part1 * one + part2 < div * one && part1 * one + part2 <= upper
  {
    var u := div * one;
    assert v * (10 * div * one) == 10 * v * u by { Associate(v, 10, div, one); }
    Split(rest, digit, div, part1, one);
    Below(part1, part2, div, one);
  }

  lemma Associate(v: nat, ten: nat, div: nat, one: nat)
    ensures v * (ten * div * one) == ten * v * (div * one)
  {
    assert ten * div * one == ten * (div * one);
    assert v * (ten * (div * one)) == v * ten * (div * one);
  }

  lemma Split(rest: nat, digit: nat, div: nat, part1: nat, one: nat)
    requires rest == digit * div + part1
    ensures rest * one == digit * (div * one) + part1 * one
  {
    assert (digit * div) * one == digit * (div * one);
  }

  lemma Below(part1: nat, part2: nat, div: nat, one: nat)
    requires part1 < div && part2 < one
    ensures part1 * one + part2 < div * one
  {
    MulLe(part1 + 1, div, one);
  }

  /** The digits behind the decimal point. */
  method FractionDigits(w: UInt64, lower: UInt64, upper: UInt64, s: nat, digits: array<char>, K0: int, n0: nat,
      rest: UInt64, ghost v0: nat) returns (n: nat, K: int)
    requires 32 <= s <= 60 && 0 < lower < w < upper
    requires digits.Length >= 21 || (upper - lower >= 185 && digits.Length >= 18)
    requires n0 <= digits.Length && Written(digits[..n0], v0)
    requires FractionPart(upper, v0, 0, s, rest) && upper - lower <= rest < Pow2(s)
    modifies digits
    ensures 1 <= n <= digits.Length && Result(s, K - K0, digits[..n], lower, w, upper)
  {
    hide Pow2, Pow10, Tens, Shl, Shr, Mask, Scaled, Shortest, Written, FractionPart, Unit, Scale, Result;
    OneBounds(s);
    ghost var delta0 := upper - lower;
    var wfrac: UInt64, delta: UInt64 := upper - w, upper - lower;
    var one: UInt64 := Pow2(s);
    var part2: UInt64 := rest;
    var kappa, unit := 0, 18;
    n := n0;
    ghost var v: nat := v0;
    ghost var j: nat := 0;
    Unscaled(delta0);
    while true
      invariant 0 <= j <= 18 && kappa == 0 - j && unit == 18 - j && n <= digits.Length && Written(digits[..n], v)
      invariant FractionPart(upper, v, j, s, part2) && delta == Scaled(delta0, j) <= part2 < one
      decreases 20 - j
    {
      FractionStep(upper, v, j, s, part2, delta0);
      part2 := part2 * 10;
      delta := delta * 10;
      kappa := kappa - 1;
      var digit := Shr(part2, s);
      if digit > 0 || n > 0 { FractionRoom(digits[..n], v, digit, delta0, s, j, upper, Mask(part2, s), digits.Length); }
      n := WriteDigit(digits, n, digit, v);
      part2 := Mask(part2, s);
      j := j + 1;
      if part2 < delta {
        K := K0 + kappa;
        FractionScaled(j, wfrac, delta0, upper);
        FractionTop(upper, 10 * v + digit, j, s, part2, digit);
        Finish(digits, n, delta, part2, one, ScaledBy(wfrac, unit), v, digit, Scaled(upper, j));
        FractionResult(s, j, digits[..n], lower, w, upper);
        return;
      }
      FewSteps(delta0, j, s);
      v := 10 * v + digit;
      unit := unit - 1;
    }
  }

  function Scaled(x: nat, j: nat): nat {
    x * Pow10(j)
  }

  lemma Unscaled(x: nat)
    ensures Scaled(x, 0) == x
  {
  }

  /** The multiplication by a power of ten from the table. */
  function ScaledBy(x: nat, unit: nat): (r: nat)
    requires unit <= 18
    ensures r == Scaled(x, 19 - unit)
  {
    TensIndex(19 - unit);
    x * Tens()[unit]
  }

  lemma FractionStep(upper: UInt64, v: nat, j: nat, s: nat, part2: nat, delta: nat)
    requires FractionPart(upper, v, j, s, part2)
    ensures var digit := Shr(part2 * 10, s);
      && digit <= 9 && digit * Pow2(s) + Mask(part2 * 10, s) == part2 * 10
      && FractionPart(upper, 10 * v + digit, j + 1, s, Mask(part2 * 10, s))
    ensures Scaled(delta, j + 1) == 10 * Scaled(delta, j)
  {
    TenTimes(j + 1);
    hide Pow10, Pow2, Shr, Mask;
    ShiftSplits(part2 * 10, s);
    var digit := Shr(part2 * 10, s);
    if digit >= 10 { MulLe(10, digit, Pow2(s)); }
    Places(upper, v, Pow10(j), Pow2(s), part2, digit, Mask(part2 * 10, s));
    assert delta * (10 * Pow10(j)) == 10 * (delta * Pow10(j));
  }

  lemma Places(upper: nat, v: nat, power: nat, one: nat, part: nat, digit: nat, rest: nat)
    requires upper * power == v * one + part && digit * one + rest == part * 10
    ensures upper * (10 * power) == (10 * v + digit) * one + rest
  {
    assert upper * (10 * power) == 10 * (upper * power);
    assert (10 * v + digit) * one == 10 * (v * one) + digit * one;
  }

  lemma FractionTop(upper: UInt64, v: nat, j: nat, s: nat, part2: nat, digit: nat)
    requires FractionPart(upper, v, j, s, part2)
    ensures Scaled(upper, j) == v * Pow2(s) + part2
  {
    hide Pow10, Pow2;
  }

  lemma FractionRoom(ds: seq<char>, v: nat, digit: nat, delta: nat, s: nat, j: nat, upper: UInt64, rest: nat, room: nat)
    requires Written(ds, v) && digit <= 9 && (digit > 0 || ds != []) && delta >= 1
    requires Scaled(delta, j) <= Pow2(s) && FractionPart(upper, 10 * v + digit, j + 1, s, rest)
    requires room >= 21 || (delta >= 185 && room >= 18)
    ensures |ds| < room
  {
    TenTimes(j + 1);
    hide Written, Pow10, Pow2;
    WrittenNext(ds, v, digit);
    DigitsRoom(ds + [('0' as int + digit) as char], 10 * v + digit, delta, Pow2(s), Pow10(j), upper, room);
  }

  lemma FractionScaled(j: nat, wfrac: nat, delta: nat, upper: nat)
    requires wfrac <= delta < upper
    ensures Scaled(wfrac, j) <= Scaled(delta, j) < Scaled(upper, j)
    ensures Scaled(upper, j) - Scaled(delta, j) == Scaled(upper - delta, j)
    ensures Scaled(upper, j) - Scaled(wfrac, j) == Scaled(upper - wfrac, j)
  {
    hide Pow10;
    MulLe(wfrac, delta, Pow10(j));
    MulLe(delta + 1, upper, Pow10(j));
  }

  lemma FractionResult(s: nat, j: nat, ds: seq<char>, lower: UInt64, w: UInt64, upper: UInt64)
    requires j > 0
    requires exists d: nat :: Written(ds, d) && Shortest(Pow2(s), d, Scaled(lower, j), Scaled(w, j), Scaled(upper, j))
    ensures Result(s, 0 - j, ds, lower, w, upper)
  {
    hide Written, Shortest, Pow10, Pow2;
  }
}
