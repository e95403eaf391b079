/**
  The order of floating point payloads.

  The C# runtime keeps a double as the signed 64-bit reading of its bits and compares
  two of them after exclusive-or with a mask built by shifting. This module writes the
  bit operations out on integers and proves that the result is the totalOrder predicate
  of section 5.10 of IEEE 754-2019, clause by clause.
 */
module FloatOrder {

  const TWO_52 := 0x10_0000_0000_0000
  const TWO_63 := 0x8000_0000_0000_0000
  const TWO_64 := 0x1_0000_0000_0000_0000

  type Long = x: int | -TWO_63 <= x < TWO_63

  // ---------------------------------------------------------------- bit operations

  function Pow2(n: nat): (p: nat)
    ensures p >= 1
  {
    if n == 0 then 1 else 2 * Pow2(n - 1)
  }

  lemma {:induction false} Pow2Sum(m: nat, n: nat)
    ensures Pow2(m + n) == Pow2(m) * Pow2(n)
  {
    if n > 0 {
      Pow2Sum(m, n - 1);
    }
  }

  lemma Pow2Is63()
    ensures Pow2(63) == TWO_63
  {
    assert Pow2(3) == 8 && Pow2(4) == 16 && Pow2(7) == 128 by { Pow2Sum(3, 4); }
    Pow2Sum(7, 7);
    Pow2Sum(14, 7);
    Pow2Sum(21, 21);
    Pow2Sum(42, 21);
  }

  function Xor(a: nat, b: nat): nat {
    if a == 0 && b == 0 then 0 else (a % 2 + b % 2) % 2 + 2 * Xor(a / 2, b / 2)
  }

  /** `h << n`, and n ones. */
  function Shifted(h: nat, n: nat): nat { if n == 0 then h else 2 * Shifted(h, n - 1) }
  function Ones(n: nat): nat { if n == 0 then 0 else 2 * Ones(n - 1) + 1 }

  lemma {:induction false} OnesArePow2(n: nat)
    ensures Ones(n) == Pow2(n) - 1 && Shifted(1, n) == Pow2(n)
  {
    if n > 0 {
      OnesArePow2(n - 1);
    }
  }

  /** The lowest bits of the two arguments, and the bits above them. */
  lemma LowestBits(n: nat, h: nat, low: nat)
    requires n > 0
    ensures var a := Shifted(h, n) + low; a % 2 == low % 2 && a / 2 == Shifted(h, n - 1) + low / 2
    ensures Ones(n) % 2 == 1 && Ones(n) / 2 == Ones(n - 1)
    ensures low <= Ones(n) ==> low / 2 <= Ones(n - 1)
  {
    assert Shifted(h, n) == 2 * Shifted(h, n - 1) && Ones(n) == 2 * Ones(n - 1) + 1;
    hide Shifted, Ones;
    HalvesOf(Shifted(h, n - 1), low);
    HalvesOf(Ones(n - 1), 1);
  }

  lemma HalvesOf(k: nat, low: nat)
    ensures (2 * k + low) % 2 == low % 2 && (2 * k + low) / 2 == k + low / 2
  {
  }

  lemma XorStep(a: nat, b: nat)
    requires b > 0
    ensures Xor(a, b) == (a % 2 + b % 2) % 2 + 2 * Xor(a / 2, b / 2)
  {
  }

  /** Exclusive-or with n ones flips the n low bits and leaves the bits above them. */
  lemma {:induction false} XorFlipsLowBits(n: nat, h: nat, low: nat)
    requires low <= Ones(n)
    ensures Xor(Shifted(h, n) + low, Ones(n)) == Shifted(h, n) + (Ones(n) - low)
  {
    if n == 0 {
      XorZero(h);
    } else {
      assert Shifted(h, n) == 2 * Shifted(h, n - 1) && Ones(n) == 2 * Ones(n - 1) + 1;
      hide Shifted, Ones, Xor;
      LowestBits(n, h, low);
      XorStep(Shifted(h, n) + low, Ones(n));
      XorFlipsLowBits(n - 1, h, low / 2);
      FlipsLowest(Shifted(h, n - 1), Ones(n - 1), low);
    }
  }

  lemma FlipsLowest(high: nat, ones: nat, low: nat)
    requires low / 2 <= ones
    ensures (low % 2 + 1) % 2 + 2 * (high + (ones - low / 2)) == 2 * high + (2 * ones + 1 - low)
  {
  }

  lemma XorZero(a: nat)
    ensures Xor(a, 0) == a
  {
  }

  function Unsigned(x: Long): nat { if x < 0 then x + TWO_64 else x }

  function Signed(u: nat): Long
    requires u < TWO_64
  {
    if u < TWO_63 then u else u - TWO_64
  }

  /** `(ulong)(x >> 63) >> 1`: the arithmetic shift broadcasts the sign, the logical one drops a bit. */
  function Mask(x: Long): nat {
    Unsigned(x / TWO_63) / 2
  }

  function Flipped(x: Long): nat {
    Xor(Unsigned(x), Mask(x))
  }

  lemma FlippedBits(x: Long)
    ensures Flipped(x) == if x < 0 then TWO_63 - 1 - x else x
    ensures Flipped(x) < TWO_64
  {
    Pow2Is63();
    if x < 0 {
      hide Xor, Ones, Shifted, Pow2;
      OnesArePow2(63);
      XorFlipsLowBits(63, 1, x + TWO_63);
    } else {
      XorZero(x);
    }
  }

  /** The sort key: `x ^ (long)((ulong)(x >> 63) >> 1)`. */
  function Key(x: Long): Long {
    FlippedBits(x);
    Signed(Flipped(x))
  }

  function CompareFloatBits(left: Long, right: Long): int {
    if Key(left) < Key(right) then -1 else if Key(left) > Key(right) then 1 else 0
  }

  // ---------------------------------------------------------------- the binary64 format

  predicate Negative(x: Long) { x < 0 }
  function Magnitude(x: Long): nat { if x < 0 then x + TWO_63 else x }
  function Exponent(x: Long): nat { Magnitude(x) / TWO_52 }
  function Fraction(x: Long): nat { Magnitude(x) % TWO_52 }

  predicate IsNaN(x: Long) { Exponent(x) == 0x7FF && Fraction(x) != 0 }
  predicate IsFinite(x: Long) { Exponent(x) < 0x7FF }
  predicate IsQuiet(x: Long) { Fraction(x) >= TWO_52 / 2 }
  function Payload(x: Long): nat { Fraction(x) % (TWO_52 / 2) }

  /** The absolute value in units of the smallest subnormal; infinity lies above every finite value. */
  function Scaled(exponent: nat, fraction: nat): nat {
    if exponent == 0 then fraction else (TWO_52 + fraction) * Pow2(exponent - 1)
  }

  function Number(x: Long): int {
    var m: int := Scaled(Exponent(x), Fraction(x));
    if Negative(x) then -m else m
  }

  /** Clauses a) to d) of section 5.10 of IEEE 754-2019. */
  predicate TotalOrder(x: Long, y: Long) {
    if !IsNaN(x) && !IsNaN(y) then
      if Number(x) != Number(y) then Number(x) < Number(y)
      else Negative(x) || !Negative(y)
    else if !IsNaN(y) then Negative(x)
    else if !IsNaN(x) then !Negative(y)
    else if Negative(x) != Negative(y) then Negative(x)
    else if IsQuiet(x) != IsQuiet(y) then (if Negative(x) then IsQuiet(x) else IsQuiet(y))
    else if Negative(x) then Payload(x) >= Payload(y)
    else Payload(x) <= Payload(y)
  }

  lemma {:induction false} Pow2Grows(m: nat, n: nat)
    requires m < n
    ensures 2 * Pow2(m) <= Pow2(n)
    decreases n
  {
    if m + 1 < n {
      Pow2Grows(m, n - 1);
    }
  }

  lemma Times(a: nat, b: nat, p: nat)
    requires p >= 1 && a <= b
    ensures a * p <= b * p && (a < b ==> a * p < b * p)
  {
    assert b * p == a * p + (b - a) * p;
  }

  /** Absolute values are ordered as their exponent and fraction fields are. */
  lemma ScaledMonotone(e1: nat, f1: nat, e2: nat, f2: nat)
    requires f1 < TWO_52 && f2 < TWO_52
    requires e1 < e2 || (e1 == e2 && f1 < f2)
    ensures Scaled(e1, f1) < Scaled(e2, f2)
  {
    hide Pow2;
    if e1 == e2 {
      if e1 != 0 {
        Times(TWO_52 + f1, TWO_52 + f2, Pow2(e1 - 1));
      }
    } else {
      var p2 := Pow2(e2 - 1);
      Times(TWO_52, TWO_52 + f2, p2);
      if e1 != 0 {
        var p1 := Pow2(e1 - 1);
        Pow2Grows(e1 - 1, e2 - 1);
        Times(TWO_52 + f1, 2 * TWO_52, p1);
      }
    }
  }

  lemma MagnitudeOrder(x: Long, y: Long)
    ensures Magnitude(x) < Magnitude(y) <==>
            Scaled(Exponent(x), Fraction(x)) < Scaled(Exponent(y), Fraction(y))
  {
    var ex, fx, ey, fy := Exponent(x), Fraction(x), Exponent(y), Fraction(y);
    assert Magnitude(x) == ex * TWO_52 + fx && Magnitude(y) == ey * TWO_52 + fy;
    if ex < ey || (ex == ey && fx < fy) {
      ScaledMonotone(ex, fx, ey, fy);
    } else if ey < ex || fy < fx {
      ScaledMonotone(ey, fy, ex, fx);
    }
  }

  lemma NumberOrder(x: Long, y: Long)
    ensures !Negative(x) && !Negative(y) ==> (x < y <==> Number(x) < Number(y))
    ensures Negative(x) && Negative(y) ==> (x < y <==> Number(x) > Number(y))
    ensures Negative(x) && !Negative(y) ==> Number(x) <= Number(y)
  {
    MagnitudeOrder(x, y);
  }

  lemma NaNFields(x: Long)
    ensures IsNaN(x) <==> Magnitude(x) > 0x7FF * TWO_52
    ensures Fraction(x) == Payload(x) + (if IsQuiet(x) then TWO_52 / 2 else 0)
    ensures IsNaN(x) ==> Magnitude(x) == 0x7FF * TWO_52 + Fraction(x)
  {
    assert Magnitude(x) == Exponent(x) * TWO_52 + Fraction(x);
    assert Exponent(x) <= 0x7FF;
  }

  /** The exclusive-or trick orders doubles exactly by totalOrder. */
  lemma CompareIsTotalOrder(x: Long, y: Long)
    ensures CompareFloatBits(x, y) <= 0 <==> TotalOrder(x, y)
    ensures CompareFloatBits(x, y) == 0 <==> x == y
  {
    FlippedBits(x);
    FlippedBits(y);
    NaNFields(x);
    NaNFields(y);
    NumberOrder(x, y);
    NumberOrder(y, x);
  }
}
