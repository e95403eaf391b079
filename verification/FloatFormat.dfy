/**
  The text of a finite double. The shortest round-trip digits come from the platform; this is the choice
  of notation on top of them, as `serde_json` makes it.
 */
module FloatFormat {
  import opened Wrappers
  import opened Utf8Order
  import opened DecimalText

  // ---------------------------------------------------------------- the platform's digits

  function DotAt(s: Text): (p: nat)
    ensures p <= |s| && (p < |s| ==> s[p] == POINT)
  {
    if s == [] || s[0] == POINT then 0 else 1 + DotAt(s[1..])
  }

  function WithoutPoints(s: Text): Text {
    if s == [] then [] else WithoutPoints(s[..|s| - 1]) + if s[|s| - 1] == POINT then [] else [s[|s| - 1]]
  }

  /** Digits with at most one point among them. */
  ghost predicate Mantissa(s: Text) {
    Digits(s[..DotAt(s)]) && (DotAt(s) < |s| ==> Digits(s[DotAt(s) + 1..]))
  }

  function TrimStart(s: Text): (t: Text)
    ensures t != [] ==> t[0] != ZERO
  {
    if s != [] && s[0] == ZERO then TrimStart(s[1..]) else s
  }

  function TrimEnd(s: Text): (t: Text)
    ensures t != [] ==> t[|t| - 1] != ZERO
  {
    if s != [] && s[|s| - 1] == ZERO then TrimEnd(s[..|s| - 1]) else s
  }

  // ---------------------------------------------------------------- the notation

  /** The significant digits, read as an integer, times ten to the scale. */
  function Notation(significant: Text, scale: int): Text
    requires significant != []
  {
    var point := |significant| + scale;
    if scale >= 0 && point <= 16 then significant + Zeros(scale) + [POINT, ZERO]
    else if 0 < point <= 16 then significant[..point] + [POINT] + significant[point..]
    else if -5 < point <= 0 then [ZERO, POINT] + Zeros(-point) + significant
    else
      var tail := ExponentPart(point - 1);
      if |significant| == 1 then significant + tail
      else significant[..1] + [POINT] + significant[1..] + tail
  }

  function ExponentPart(exponent: int): Text {
    [SMALL_E, if exponent < 0 then MINUS else PLUS] + Decimal(if exponent < 0 then -exponent else exponent)
  }

  datatype Shortest = Shortest(significant: Text, scale: int)

  /** Splits the platform's text, given as mantissa and exponent, into significant digits and a scale. */
  function Split(mantissa: Text, exponent: int): Shortest {
    var digits := WithoutPoints(mantissa);
    var scale := exponent + DotAt(mantissa) - |digits|;
    var trimmed := TrimStart(digits);
    var significant := TrimEnd(trimmed);
    Shortest(significant, scale + |trimmed| - |significant|)
  }

  function FormatFloat(negative: bool, mantissa: Text, exponent: int): Text {
    var shortest := Split(mantissa, exponent);
    var body :=
      if shortest.significant == [] then [ZERO, POINT, ZERO] else Notation(shortest.significant, shortest.scale);
    if negative then [MINUS] + body else body
  }

  // ---------------------------------------------------------------- splitting keeps the number

  /** What the platform's text denotes. */
  function Source(negative: bool, mantissa: Text, exponent: int): Reading
    requires Digits(WithoutPoints(mantissa))
  {
    Reading(negative, Number(WithoutPoints(mantissa)), exponent + DotAt(mantissa) - |WithoutPoints(mantissa)|)
  }

  lemma {:induction false} NoPoints(s: Text)
    requires Digits(s)
    ensures WithoutPoints(s) == s
  {
    if s != [] {
      NoPoints(s[..|s| - 1]);
      assert s == s[..|s| - 1] + [s[|s| - 1]];
    }
  }

  lemma {:induction false} WithoutPointsConcat(a: Text, b: Text)
    ensures WithoutPoints(a + b) == WithoutPoints(a) + WithoutPoints(b)
  {
    if b == [] {
      assert a + b == a;
    } else {
      assert (a + b)[..|a + b| - 1] == a + b[..|b| - 1];
      WithoutPointsConcat(a, b[..|b| - 1]);
    }
  }

  lemma PointIsDropped()
    ensures WithoutPoints([POINT]) == []
  {
  }

  lemma PointJoins(whole: Text, fraction: Text)
    requires Digits(whole) && Digits(fraction)
    ensures WithoutPoints(whole + ([POINT] + fraction)) == whole + fraction && Digits(whole + fraction)
  {
    hide WithoutPoints, Number, Digits;
    PointIsDropped();
    WithoutPointsConcat(whole, [POINT] + fraction);
    WithoutPointsConcat([POINT], fraction);
    NoPoints(whole);
    NoPoints(fraction);
    NumberConcat(whole, fraction);
  }

  /** Removing the point joins the whole part and the fraction. */
  lemma MantissaDigits(s: Text)
    requires Mantissa(s)
    ensures Digits(WithoutPoints(s))
    ensures DotAt(s) == |s| ==> WithoutPoints(s) == s
    ensures DotAt(s) < |s| ==> WithoutPoints(s) == s[..DotAt(s)] + s[DotAt(s) + 1..]
  {
    hide DotAt, WithoutPoints, Digits;
    if DotAt(s) < |s| {
      DropPoint(s, DotAt(s));
    } else {
      assert s[..DotAt(s)] == s;
      NoPoints(s);
    }
  }

  lemma DropPoint(s: Text, p: nat)
    requires p < |s| && s[p] == POINT && Digits(s[..p]) && Digits(s[p + 1..])
    ensures WithoutPoints(s) == s[..p] + s[p + 1..] && Digits(s[..p] + s[p + 1..])
  {
    hide WithoutPoints, Digits;
    assert s == s[..p] + ([POINT] + s[p + 1..]);
    PointJoins(s[..p], s[p + 1..]);
  }

  lemma {:induction false} TrimStartKeeps(s: Text)
    requires Digits(s)
    ensures Digits(TrimStart(s)) && Number(TrimStart(s)) == Number(s) && |TrimStart(s)| <= |s|
  {
    if s != [] && s[0] == ZERO {
      assert s == [ZERO] + s[1..];
      TrimStartKeeps(s[1..]);
      NumberConcat([ZERO], s[1..]);
    }
  }

  lemma {:induction false} TrimEndScales(s: Text)
    requires Digits(s)
    ensures Digits(TrimEnd(s)) && |TrimEnd(s)| <= |s| && TrimEnd(s) <= s
    ensures Number(s) == Number(TrimEnd(s)) * Pow10(|s| - |TrimEnd(s)|)
  {
    if s != [] && s[|s| - 1] == ZERO {
      TrimEndScales(s[..|s| - 1]);
    }
  }

  /** The significant digits: they start and end with a digit other than zero, and none are left only for zero. */
  lemma SplitKeeps(mantissa: Text, exponent: int)
    requires Digits(WithoutPoints(mantissa))
    ensures var x := Split(mantissa, exponent);
            && Digits(x.significant)
            && (x.significant != [] ==> x.significant[0] != ZERO && x.significant[|x.significant| - 1] != ZERO)
    ensures var x := Split(mantissa, exponent); x.significant == [] <==> Number(WithoutPoints(mantissa)) == 0
    ensures var x, n := Split(mantissa, exponent), Source(false, mantissa, exponent);
            x.scale >= n.scale && n.coefficient == Number(x.significant) * Pow10(x.scale - n.scale)
  {
    hide Number, Pow10, Digits, TrimStart, TrimEnd, WithoutPoints;
    var digits := WithoutPoints(mantissa);
    var trimmed := TrimStart(digits);
    var significant := TrimEnd(trimmed);
    TrimStartKeeps(digits);
    TrimEndScales(trimmed);
    NumberBounds(significant);
    EmptyIsZero();
    if significant != [] {
      assert significant[0] == trimmed[0];
      PositiveProduct(Number(significant), Pow10(|trimmed| - |significant|));
    }
  }

  lemma EmptyIsZero()
    ensures Number([]) == 0
  {
  }

  lemma PositiveProduct(x: nat, y: nat)
    requires x > 0 && y > 0
    ensures x * y > 0
  {
  }

  // ---------------------------------------------------------------- the notation keeps the number

  /** The zeros the positional form of a whole number adds. */
  function Padding(significant: Text, scale: int): nat {
    if scale >= 0 && |significant| + scale <= 16 then scale + 1 else 0
  }

  /** What each notation reads as, digit for digit. */
  lemma NotationReads(negative: bool, significant: Text, scale: int)
    requires significant != [] && Digits(significant) && significant[0] != ZERO
    ensures var k := Padding(significant, scale);
            ReadMagnitude(negative, Notation(significant, scale))
              == Some(Reading(negative, Number(significant) * Pow10(k), scale - k))
  {
    hide ReadMagnitude, ReadFraction, ReadExponent, DigitRun, Number, Digits, ExponentPart, Pow10;
    NoExponent();
    Unpadded(Number(significant));
    var point := |significant| + scale;
    if scale >= 0 && point <= 16 {
      ReadsPadded(negative, significant, scale);
    } else if 0 < point <= 16 {
      ReadsCut(negative, significant, point, [], 0);
      assert significant[..point] + [POINT] + significant[point..]
             == significant[..point] + ([POINT] + (significant[point..] + []));
    } else if -5 < point <= 0 {
      ReadsSmall(negative, significant, -point);
    } else {
      ReadsScientific(negative, significant, scale);
    }
  }

  lemma ExponentPartReads(exponent: int)
    ensures ReadExponent(ExponentPart(exponent)) == Some(exponent)
  {
    hide ReadExponent, Decimal;
    ReadsExponent(exponent < 0, if exponent < 0 then -exponent else exponent);
  }

  lemma Unpadded(n: nat)
    ensures n * Pow10(0) == n
  {
  }

  lemma ReadsScientific(negative: bool, significant: Text, scale: int)
    requires significant != [] && Digits(significant) && significant[0] != ZERO && !(-5 < |significant| + scale <= 16)
    ensures ReadMagnitude(negative, Notation(significant, scale)) == Some(Reading(negative, Number(significant), scale))
  {
    hide ReadMagnitude, ReadFraction, ReadExponent, DigitRun, Number, Digits, ExponentPart;
    var exponent := |significant| + scale - 1;
    var tail := ExponentPart(exponent);
    ExponentPartReads(exponent);
    if |significant| == 1 {
      ReadsWhole(negative, significant, tail, exponent);
    } else {
      ReadsCut(negative, significant, 1, tail, exponent);
      assert significant[..1] + [POINT] + significant[1..] + tail
             == significant[..1] + ([POINT] + (significant[1..] + tail));
    }
  }

  lemma DigitsSlice(s: Text, at: nat)
    requires Digits(s) && at <= |s|
    ensures Digits(s[..at]) && Digits(s[at..]) && s[..at] + s[at..] == s
  {
  }

  lemma NoExponent()
    ensures ReadExponent([]) == Some(0)
  {
  }

  lemma ReadsPadded(negative: bool, significant: Text, n: nat)
    requires significant != [] && Digits(significant) && significant[0] != ZERO
    ensures ReadMagnitude(negative, significant + Zeros(n) + [POINT, ZERO])
            == Some(Reading(negative, Number(significant) * Pow10(n + 1), -1))
  {
    hide ReadMagnitude, ReadFraction, ReadExponent, DigitRun, Number, Digits, Pow10;
    var whole := significant + Zeros(n);
    NoExponent();
    NumberConcat(significant, Zeros(n));
    NumberConcat(significant, Zeros(n + 1));
    assert Zeros(1) == [ZERO];
    ZerosAreZero(Zeros(n + 1));
    ReadsFraction(negative, whole, [ZERO], [], 0);
    assert whole + [ZERO] == significant + Zeros(n + 1);
    assert whole + [POINT, ZERO] == whole + ([POINT] + ([ZERO] + []));
  }

  lemma ReadsCut(negative: bool, significant: Text, at: nat, tail: Text, e: int)
    requires 0 < at < |significant| && Digits(significant) && significant[0] != ZERO && ReadExponent(tail) == Some(e)
    ensures ReadMagnitude(negative, significant[..at] + ([POINT] + (significant[at..] + tail)))
            == Some(Reading(negative, Number(significant), e - (|significant| - at)))
  {
    hide ReadMagnitude, ReadFraction, ReadExponent, DigitRun, Number, Digits, Pow10;
    DigitsSlice(significant, at);
    ReadsFraction(negative, significant[..at], significant[at..], tail, e);
  }

  lemma ReadsSmall(negative: bool, significant: Text, n: nat)
    requires significant != [] && Digits(significant)
    ensures ReadMagnitude(negative, [ZERO, POINT] + Zeros(n) + significant)
            == Some(Reading(negative, Number(significant), -(n + |significant|)))
  {
    hide ReadMagnitude, ReadFraction, ReadExponent, DigitRun, Number, Digits, Pow10;
    var fraction := Zeros(n) + significant;
    NoExponent();
    NumberConcat(Zeros(n), significant);
    assert Zeros(1) == [ZERO];
    ReadsFraction(negative, [ZERO], fraction, [], 0);
    assert [ZERO, POINT] + Zeros(n) + significant == [ZERO] + ([POINT] + (fraction + []));
    assert [ZERO] + fraction == Zeros(n + 1) + significant;
    NumberConcat(Zeros(n + 1), significant);
    ZerosAreZero(Zeros(n + 1));
  }

  lemma {:induction false} NotationStart(significant: Text, scale: int)
    requires significant != [] && Digits(significant)
    ensures Notation(significant, scale) != [] && IsDigit(Notation(significant, scale)[0])
  {
  }

  /** The text of a finite double denotes exactly the number the platform's digits denote, sign included. */
  lemma FormatIsExact(negative: bool, mantissa: Text, exponent: int)
    requires Mantissa(mantissa)
    ensures Digits(WithoutPoints(mantissa))
    ensures ReadNumber(FormatFloat(negative, mantissa, exponent)).Some?
    ensures var r := ReadNumber(FormatFloat(negative, mantissa, exponent)).value;
            r.negative == negative && Meaning(r) == Meaning(Source(negative, mantissa, exponent))
  {
    hide Split, WithoutPoints, Number, Ten, Pow10, ReadNumber, FormatFloat, Digits, Mantissa, DotAt, Meaning;
    MantissaDigits(mantissa);
    SplitKeeps(mantissa, exponent);
    var x, n := Split(mantissa, exponent), Source(negative, mantissa, exponent);
    FormatReads(negative, mantissa, exponent);
    if x.significant == [] {
      ZeroMeans(negative, -1);
      ZeroMeans(negative, n.scale);
    } else {
      var padding := Padding(x.significant, x.scale);
      Rescaled(negative, Number(x.significant), padding, x.scale - padding);
      Rescaled(negative, Number(x.significant), x.scale - n.scale, n.scale);
    }
  }

  lemma ZeroMeans(negative: bool, scale: int)
    ensures Meaning(Reading(negative, 0, scale)) == 0.0
  {
  }

  /** What the text reads as. */
  lemma FormatReads(negative: bool, mantissa: Text, exponent: int)
    requires Digits(WithoutPoints(mantissa)) && Digits(Split(mantissa, exponent).significant)
    requires var significant := Split(mantissa, exponent).significant; significant != [] ==> significant[0] != ZERO
    ensures var x := Split(mantissa, exponent);
            x.significant == [] ==>
              ReadNumber(FormatFloat(negative, mantissa, exponent)) == Some(Reading(negative, 0, -1))
    ensures var x := Split(mantissa, exponent);
            var k := Padding(x.significant, x.scale);
            x.significant != [] ==>
              ReadNumber(FormatFloat(negative, mantissa, exponent))
                == Some(Reading(negative, Number(x.significant) * Pow10(k), x.scale - k))
  {
    hide Split, WithoutPoints, Number, ReadMagnitude, Notation, Digits, Pow10, ReadExponent;
    var x := Split(mantissa, exponent);
    var body := if x.significant == [] then [ZERO, POINT, ZERO] else Notation(x.significant, x.scale);
    if x.significant == [] {
      NoExponent();
      assert Zeros(1) == [ZERO] && Zeros(2) == [ZERO] + [ZERO];
      ReadsFraction(negative, [ZERO], [ZERO], [], 0);
      ZerosAreZero([ZERO] + [ZERO]);
      assert body == [ZERO] + ([POINT] + ([ZERO] + []));
    } else {
      NotationReads(negative, x.significant, x.scale);
      NotationStart(x.significant, x.scale);
    }
    assert ([MINUS] + body)[1..] == body;
  }

  // ---------------------------------------------------------------- which notation

  lemma NotationIsPositional(significant: Text, scale: int)
    requires significant != [] && Digits(significant)
    ensures SMALL_E !in Notation(significant, scale) <==> -5 < |significant| + scale <= 16
  {
    var point := |significant| + scale;
    var text := Notation(significant, scale);
    if scale >= 0 && point <= 16 {
      assert SMALL_E !in text;
    } else if 0 < point <= 16 {
      assert SMALL_E !in text;
    } else if -5 < point <= 0 {
      assert SMALL_E !in text;
    } else if |significant| == 1 {
      assert text[1] == SMALL_E;
    } else {
      assert text[|significant| + 1] == SMALL_E;
    }
  }

  /** One point, a digit on either side of it, no zero in front that can go and none behind. */
  ghost predicate Positional(s: Text) {
    exists k ::
      && 0 < k < |s| - 1 && s[k] == POINT
      && Digits(s[..k]) && WholePart(s[..k])
      && Digits(s[k + 1..]) && (k == |s| - 2 || s[|s| - 1] != ZERO)
  }

  /** Digits that start and end with one other than zero, the point after the first if there are more. */
  ghost predicate Scaled(m: Text) {
    || (|m| == 1 && IsDigit(m[0]) && m[0] != ZERO)
    || (|m| > 2 && IsDigit(m[0]) && m[0] != ZERO && m[1] == POINT && Digits(m[2..]) && m[|m| - 1] != ZERO)
  }

  /** Scaled digits, an `e`, a sign and an exponent. */
  ghost predicate Scientific(s: Text) {
    exists m: Text, e: int :: s == m + ExponentText(e) && Scaled(m)
  }

  /** `e-6`, `e+16`. */
  ghost function ExponentText(e: int): Text {
    if e < 0 then [SMALL_E, MINUS] + Decimal(-e) else [SMALL_E, PLUS] + Decimal(e)
  }

  lemma PositionalAt(s: Text, whole: Text, fraction: Text)
    requires Digits(whole) && WholePart(whole) && Digits(fraction) && fraction != []
    requires s == whole + [POINT] + fraction && (|fraction| == 1 || fraction[|fraction| - 1] != ZERO)
    ensures Positional(s)
  {
    assert s[|whole|] == POINT && s[..|whole|] == whole && s[|whole| + 1..] == fraction;
  }

  lemma DigitsJoin(a: Text, b: Text)
    requires Digits(a) && Digits(b)
    ensures Digits(a + b)
  {
  }

  lemma ScientificForm(significant: Text, e: int)
    requires significant != [] && Digits(significant)
    requires significant[0] != ZERO && significant[|significant| - 1] != ZERO
    ensures var m := if |significant| == 1 then significant else significant[..1] + [POINT] + significant[1..];
            Scientific(m + ExponentText(e))
  {
    var m := if |significant| == 1 then significant else significant[..1] + [POINT] + significant[1..];
    DigitsSlice(significant, 1);
    hide ExponentText;
    assert |m| > 1 ==> m[2..] == significant[1..] && m[1] == POINT && m[|m| - 1] == significant[|significant| - 1];
    assert Scaled(m);
  }

  lemma NotationIsCanonical(significant: Text, scale: int)
    requires significant != [] && Digits(significant)
    requires significant[0] != ZERO && significant[|significant| - 1] != ZERO
    ensures var point, s := |significant| + scale, Notation(significant, scale);
            if -5 < point <= 16 then Positional(s) else Scientific(s)
  {
    hide Positional, Scientific, Digits, Decimal;
    var point, s := |significant| + scale, Notation(significant, scale);
    if scale >= 0 && point <= 16 {
      OneZero();
      DigitsJoin(significant, Zeros(scale));
      PositionalAt(s, significant + Zeros(scale), [ZERO]);
    } else if 0 < point <= 16 {
      DigitsSlice(significant, point);
      PositionalAt(s, significant[..point], significant[point..]);
    } else if -5 < point <= 0 {
      OneZero();
      DigitsJoin(Zeros(-point), significant);
      PositionalAt(s, [ZERO], Zeros(-point) + significant);
    } else {
      ScientificForm(significant, point - 1);
    }
  }

  lemma OneZero()
    ensures Digits([ZERO])
  {
  }

  /**
    The form of the text: a sign exactly for a negative number, then a decimal point in positional form and a signed
    exponent in the other, and no zero that could be left away.
   */
  lemma FormatIsCanonical(negative: bool, mantissa: Text, exponent: int)
    requires Digits(WithoutPoints(mantissa))
    ensures var s := FormatFloat(negative, mantissa, exponent);
            && s != [] && (s[0] == MINUS <==> negative)
            && var body := if negative then s[1..] else s;
            if SMALL_E in s then Scientific(body) else Positional(body)
  {
    hide Split, WithoutPoints, Number, Digits, Notation, Scientific, Positional;
    SplitKeeps(mantissa, exponent);
    var x, s := Split(mantissa, exponent), FormatFloat(negative, mantissa, exponent);
    if x.significant == [] {
      ZeroIsPositional();
    } else {
      NotationIsCanonical(x.significant, x.scale);
      NotationIsPositional(x.significant, x.scale);
      NotationStart(x.significant, x.scale);
      assert negative ==> s[1..] == Notation(x.significant, x.scale);
    }
    assert negative ==> forall c :: c in s <==> c == MINUS || c in s[1..];
  }

  lemma ZeroIsPositional()
    ensures Positional([ZERO, POINT, ZERO])
  {
    PositionalAt([ZERO, POINT, ZERO], [ZERO], [ZERO]);
  }

  /** Significant digits and a scale put a number between two powers of ten. */
  lemma Magnitude(significant: Text, scale: int)
    requires significant != [] && Digits(significant) && significant[0] != ZERO
    ensures Ten(|significant| + scale - 1) <= Number(significant) as real * Ten(scale) < Ten(|significant| + scale)
  {
    hide Ten, Pow10, Number, Digits;
    NumberBounds(significant);
    var n := |significant|;
    TenSum(scale, n);
    TenSum(scale, n - 1);
    assert n + scale == scale + n && n + scale - 1 == scale + (n - 1);
    Scale(Pow10(n - 1), Number(significant), Pow10(n), Ten(scale), Ten(n + scale - 1), Ten(n + scale));
  }

  lemma Scale(low: nat, n: nat, high: nat, t: real, least: real, bound: real)
    requires low <= n < high && t > 0.0 && least == low as real * t && bound == high as real * t
    ensures least <= n as real * t < bound
  {
    var x, y, z := low as real, n as real, high as real;
    assert x <= y < z;
    assert (y - x) * t >= 0.0 && (z - y) * t > 0.0;
  }

  /** A nonzero double is written positionally exactly when its magnitude is at least 10^-5 and below 10^16. */
  lemma PositionalExactly(negative: bool, mantissa: Text, exponent: int)
    requires Mantissa(mantissa) && Digits(WithoutPoints(mantissa)) && Number(WithoutPoints(mantissa)) != 0
    ensures SMALL_E !in FormatFloat(negative, mantissa, exponent) <==>
              Ten(-5) <= Meaning(Source(false, mantissa, exponent)) < Ten(16)
  {
    hide Ten, Pow10, Number, Split, Notation, WithoutPoints, Digits, Mantissa, DotAt, Meaning;
    SplitKeeps(mantissa, exponent);
    var x, n := Split(mantissa, exponent), Source(false, mantissa, exponent);
    var point := |x.significant| + x.scale;
    Rescaled(false, Number(x.significant), x.scale - n.scale, n.scale);
    PositiveMeans(Number(x.significant), x.scale);
    Magnitude(x.significant, x.scale);
    NotationIsPositional(x.significant, x.scale);
    if point <= 16 { TenMonotone(point, 16 - point); } else { TenMonotone(16, point - 1 - 16); }
    if point > -5 { TenMonotone(-5, point + 4); } else { TenMonotone(point, -5 - point); }
  }

  lemma PositiveMeans(coefficient: nat, scale: int)
    ensures Meaning(Reading(false, coefficient, scale)) == coefficient as real * Ten(scale)
  {
  }
}
