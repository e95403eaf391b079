/**
  Decimal numerals as text, the rationals they denote, and a reader of the number grammar
  of section 6 of RFC 8259.
 */
module DecimalText {
  import opened Wrappers
  import opened Utf8Order

  const ZERO: CodeUnit := 48
  const MINUS: CodeUnit := 45
  const PLUS: CodeUnit := 43
  const POINT: CodeUnit := 46
  const SMALL_E: CodeUnit := 101
  const LARGE_E: CodeUnit := 69

  lemma CharactersOfNumbers()
    ensures [ZERO, MINUS, PLUS, POINT, SMALL_E, LARGE_E] == Literal("0-+.eE")
  {
  }

  predicate IsDigit(c: CodeUnit) { ZERO <= c <= ZERO + 9 }

  predicate Digits(s: Text) { forall i | 0 <= i < |s| :: IsDigit(s[i]) }

  /** A lowercase hexadecimal digit. */
  function HexDigit(n: nat): CodeUnit
    requires n < 16
  {
    if n < 10 then ZERO + n else 87 + n
  }

  lemma HexDigitIs(n: nat)
    requires n < 16
    ensures HexDigit(n) == Literal("0123456789abcdef")[n]
  {
  }

  function Pow10(n: nat): (p: nat)
    ensures p >= 1
  {
    if n == 0 then 1 else 10 * Pow10(n - 1)
  }

  lemma {:induction false} Pow10Sum(m: nat, n: nat)
    ensures Pow10(m + n) == Pow10(m) * Pow10(n)
  {
    if n > 0 {
      Pow10Sum(m, n - 1);
      assert Pow10(m + n) == 10 * (Pow10(m) * Pow10(n - 1));
    }
  }

  lemma {:induction false} Pow10Monotone(m: nat, n: nat)
    requires m <= n
    ensures Pow10(m) <= Pow10(n)
  {
    if m < n {
      Pow10Monotone(m, n - 1);
    }
  }

  // ---------------------------------------------------------------- numerals

  function Number(s: Text): nat
    requires Digits(s)
  {
    if s == [] then 0 else Number(s[..|s| - 1]) * 10 + (s[|s| - 1] - ZERO)
  }

  /** `ToString` of a non-negative integer. */
  function Decimal(n: nat): (s: Text)
    ensures Digits(s) && s != []
  {
    if n < 10 then [ZERO + n] else Decimal(n / 10) + [ZERO + n % 10]
  }

  function Zeros(n: nat): (s: Text)
    ensures |s| == n && Digits(s) && forall i | 0 <= i < n :: s[i] == ZERO
  {
    seq(n, _ => ZERO)
  }

  lemma {:induction false} DecimalReads(n: nat)
    ensures Number(Decimal(n)) == n
  {
    if n >= 10 {
      DecimalReads(n / 10);
      var s := Decimal(n);
      assert s[..|s| - 1] == Decimal(n / 10);
    }
  }

  /** No leading zeros, and so the one numeral of the number. */
  lemma {:induction false} DecimalIsWhole(n: nat)
    ensures WholePart(Decimal(n)) && (n > 0 ==> Decimal(n)[0] != ZERO)
  {
    if n >= 10 {
      DecimalIsWhole(n / 10);
    }
  }

  lemma {:induction false} NumberConcat(a: Text, b: Text)
    requires Digits(a) && Digits(b)
    ensures Digits(a + b) && Number(a + b) == Number(a) * Pow10(|b|) + Number(b)
  {
    if b == [] {
      assert a + b == a;
    } else {
      var init := b[..|b| - 1];
      assert (a + b)[..|a + b| - 1] == a + init;
      NumberConcat(a, init);
      assert Pow10(|b|) == 10 * Pow10(|init|) && (a + b)[|a + b| - 1] == b[|b| - 1];
      hide Pow10;
      NextDigit(Number(a), Pow10(|init|), Number(init), b[|b| - 1] - ZERO);
    }
  }

  lemma NextDigit(n: nat, p: nat, low: nat, digit: int)
    ensures (n * p + low) * 10 + digit == n * (10 * p) + (low * 10 + digit)
  {
  }

  lemma {:induction false} ZerosAreZero(s: Text)
    requires forall i | 0 <= i < |s| :: s[i] == ZERO
    ensures Digits(s) && Number(s) == 0
  {
    if s != [] {
      ZerosAreZero(s[..|s| - 1]);
    }
  }

  /** A numeral without leading zeros lies between two powers of ten. */
  lemma {:induction false} NumberBounds(s: Text)
    requires Digits(s)
    ensures Number(s) < Pow10(|s|)
    ensures s != [] && s[0] != ZERO ==> Pow10(|s| - 1) <= Number(s)
  {
    if s != [] {
      NumberBounds(s[..|s| - 1]);
      if |s| == 1 {
        assert s[..0] == [];
      }
    }
  }

  // ---------------------------------------------------------------- rationals

  function Ten(e: int): (r: real)
    ensures r > 0.0
    decreases if e < 0 then -e else e
  {
    if e == 0 then 1.0 else if e > 0 then 10.0 * Ten(e - 1) else Ten(e + 1) / 10.0
  }

  lemma Associates(x: real, y: real, z: real)
    ensures (x * y) * z == x * (y * z)
  {
  }

  lemma TenNext(e: int)
    ensures Ten(e + 1) == 10.0 * Ten(e)
  {
  }

  lemma {:induction false} TenIsPow10(n: nat)
    ensures Ten(n) == Pow10(n) as real
  {
    if n > 0 {
      TenIsPow10(n - 1);
    }
  }

  /** Moving powers of ten between a whole factor and the exponent. */
  lemma {:induction false} TenSum(e: int, n: nat)
    ensures Ten(e + n) == Pow10(n) as real * Ten(e)
  {
    if n > 0 {
      TenSum(e, n - 1);
      TenNext(e + n - 1);
      assert Pow10(n) as real == 10.0 * Pow10(n - 1) as real;
      Associates(10.0, Pow10(n - 1) as real, Ten(e));
    }
  }

  lemma {:induction false} TenMonotone(e: int, n: nat)
    ensures Ten(e) <= Ten(e + n)
  {
    if n > 0 {
      TenMonotone(e, n - 1);
      TenNext(e + n - 1);
    }
  }

  /** What a numeral with a sign and an exponent denotes. */
  datatype Reading = Reading(negative: bool, coefficient: nat, scale: int)

  ghost function Meaning(r: Reading): real {
    (if r.negative then -(r.coefficient as real) else r.coefficient as real) * Ten(r.scale)
  }

  lemma {:induction false} RealProduct(x: nat, y: nat)
    ensures (x * y) as real == x as real * y as real
  {
    if y > 0 {
      RealProduct(x, y - 1);
      assert x * y == x * (y - 1) + x;
    }
  }

  /** More zeros behind the coefficient and a smaller exponent denote the same number. */
  lemma Rescaled(negative: bool, coefficient: nat, n: nat, scale: int)
    ensures Meaning(Reading(negative, coefficient * Pow10(n), scale))
            == Meaning(Reading(negative, coefficient, scale + n))
  {
    hide Ten, Pow10;
    TenSum(scale, n);
    var c, p, t := coefficient as real, Pow10(n) as real, Ten(scale);
    RealProduct(coefficient, Pow10(n));
    Associates(c, p, t);
    Associates(-1.0, c * p, t);
    Associates(-1.0, c, p * t);
  }

  // ---------------------------------------------------------------- reading numbers

  /** The length of the longest run of digits a text starts with. */
  function DigitRun(s: Text): (n: nat)
    ensures n <= |s| && Digits(s[..n]) && (n < |s| ==> !IsDigit(s[n]))
  {
    if s == [] || !IsDigit(s[0]) then 0
    else
      var n := DigitRun(s[1..]);
      assert s[..n + 1] == [s[0]] + s[1..][..n];
      n + 1
  }

  function ReadExponent(s: Text): Option<int> {
    if s == [] then Some(0)
    else if (s[0] != SMALL_E && s[0] != LARGE_E) || |s| < 2 then None
    else
      var signed := s[1] == PLUS || s[1] == MINUS;
      var digits := if signed then s[2..] else s[1..];
      if digits == [] || !Digits(digits) then None
      else Some(if s[1] == MINUS then -(Number(digits) as int) else Number(digits))
  }

  /** What follows the point. */
  function ReadFraction(negative: bool, whole: Text, rest: Text): Option<Reading>
    requires Digits(whole)
  {
    var k := DigitRun(rest);
    var exponent := ReadExponent(rest[k..]);
    if k == 0 || exponent.None? then None
    else assert Digits(whole + rest[..k]); Some(Reading(negative, Number(whole + rest[..k]), exponent.value - k))
  }

  /** A whole part is a zero alone, or starts with another digit. */
  predicate WholePart(s: Text) {
    s != [] && (|s| == 1 || s[0] != ZERO)
  }

  function ReadMagnitude(negative: bool, s: Text): Option<Reading> {
    var n := DigitRun(s);
    if !WholePart(s[..n]) then None
    else if n < |s| && s[n] == POINT then ReadFraction(negative, s[..n], s[n + 1..])
    else
      var exponent := ReadExponent(s[n..]);
      if exponent.None? then None else Some(Reading(negative, Number(s[..n]), exponent.value))
  }

  function ReadNumber(s: Text): Option<Reading> {
    if s != [] && s[0] == MINUS then ReadMagnitude(true, s[1..]) else ReadMagnitude(false, s)
  }

  /** The digits a text starts with are read up to the first other character. */
  lemma {:induction false} DigitRunIs(digits: Text, rest: Text)
    requires Digits(digits) && (rest == [] || !IsDigit(rest[0]))
    ensures DigitRun(digits + rest) == |digits|
  {
    var s := digits + rest;
    if digits == [] {
      assert s == rest;
    } else {
      assert s[1..] == digits[1..] + rest;
      DigitRunIs(digits[1..], rest);
    }
  }

  lemma ReadsWhole(negative: bool, digits: Text, tail: Text, e: int)
    requires Digits(digits) && WholePart(digits) && ReadExponent(tail) == Some(e)
    ensures ReadMagnitude(negative, digits + tail) == Some(Reading(negative, Number(digits), e))
  {
    DigitRunIs(digits, tail);
    var s := digits + tail;
    assert s[..|digits|] == digits && s[|digits|..] == tail;
  }

  lemma ReadsFraction(negative: bool, whole: Text, fraction: Text, tail: Text, e: int)
    requires Digits(whole) && WholePart(whole) && Digits(fraction) && fraction != [] && ReadExponent(tail) == Some(e)
    ensures Digits(whole + fraction)
    ensures ReadMagnitude(negative, whole + ([POINT] + (fraction + tail)))
            == Some(Reading(negative, Number(whole + fraction), e - |fraction|))
  {
    NumberConcat(whole, fraction);
    var rest := fraction + tail;
    Around(whole, POINT, rest);
    DigitRunIs(whole, [POINT] + rest);
    ReadsAfterPoint(negative, whole, fraction, tail, e);
    hide DigitRun, ReadExponent, Number, ReadFraction, Digits, WholePart;
  }

  lemma Around(a: Text, c: CodeUnit, b: Text)
    ensures var s := a + ([c] + b); s[..|a|] == a && s[|a|] == c && s[|a| + 1..] == b
  {
  }

  lemma ReadsAfterPoint(negative: bool, whole: Text, fraction: Text, tail: Text, e: int)
    requires && Digits(whole)
             && Digits(fraction)
             && fraction != []
             && ReadExponent(tail) == Some(e)
             && Digits(whole + fraction)
    ensures ReadFraction(negative, whole, fraction + tail)
            == Some(Reading(negative, Number(whole + fraction), e - |fraction|))
  {
    ExponentStart(tail);
    hide DigitRun, ReadExponent, Number, Digits;
    Cut(fraction, tail);
    DigitRunIs(fraction, tail);
  }

  lemma Cut(a: Text, b: Text)
    ensures (a + b)[..|a|] == a && (a + b)[|a|..] == b
  {
  }

  lemma ExponentStart(tail: Text)
    requires ReadExponent(tail).Some?
    ensures tail == [] || !IsDigit(tail[0])
  {
  }

  lemma ReadsExponent(negative: bool, n: nat)
    ensures ReadExponent([SMALL_E, if negative then MINUS else PLUS] + Decimal(n))
            == Some(if negative then -(n as int) else n)
  {
    DecimalReads(n);
    var s := [SMALL_E, if negative then MINUS else PLUS] + Decimal(n);
    assert s[2..] == Decimal(n);
  }
}
