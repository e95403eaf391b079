/**
  Readers of doubles and what they do to the round trip: one that rounds correctly, one wrong about a single double,
  and one that takes two doubles for each other.
 */
module Readers {
  import opened Utf8Order
  import FO = FloatOrder
  import opened DecimalText
  import opened FloatFormat
  import opened JsonText
  import opened CaptureJson
  import opened WireFormat
  import opened RoundTrip
  import opened Wrappers
  import V = Values
  import VC = ValueCollections

  // ---------------------------------------------------------------- a reader that rounds correctly

  /** With a correctly rounding reader the tagged form is read as the value exactly when its doubles are finite. */
  lemma FromJsonInverts(d: Doubles, v: V.Value)
    requires Faithful(d) && Canonical(v)
    ensures FromJson(d, ToJson(d, v)) == if AllFinite(Floats(v)) then Some(v) else None
  {
    hide Canonical, FromJson, ToJson, ReadBack, Floats, Reread;
    FromJsonReads(d, v);
    if AllFinite(Floats(v)) {
      RereadStays(d, v);
    }
  }

  /** And so is the text: a value with a NaN or an infinity in it cannot be read back at all. */
  lemma WireRoundTrip(d: Doubles, v: V.Value)
    requires Faithful(d) && Canonical(v)
    ensures Decode(d, Print(ToJson(d, v))) == if AllFinite(Floats(v)) then Some(v) else None
  {
    hide Canonical, Decode, Print, ToJson, ReadBack, Floats, Reread;
    WireReads(d, v);
    if AllFinite(Floats(v)) {
      RereadStays(d, v);
    }
  }

  /** The whole number a reading denotes, when its scale is not negative. */
  function Whole(r: Reading): nat {
    r.coefficient * Pow10(if r.scale < 0 then 0 else r.scale)
  }

  lemma {:induction false} NormalKeepsWhole(r: Reading)
    requires r.scale >= 0
    ensures Whole(Normal(r)) == Whole(r) && Normal(r).negative == r.negative && Normal(r).scale >= 0
    decreases r.coefficient
  {
    if r.coefficient != 0 && r.coefficient % 10 == 0 {
      var c, p := r.coefficient / 10, Pow10(r.scale);
      NormalKeepsWhole(Reading(r.negative, c, r.scale + 1));
      assert Pow10(r.scale + 1) == 10 * p && r.coefficient == 10 * c;
      assert c * (10 * p) == (10 * c) * p;
    }
  }

  /** Conversions that write the bits of a double, without its sign, as a whole number. */
  const BITWISE := Doubles(
    (bits: FO.Long) => Decimal(FO.Magnitude(bits)),
    (bits: FO.Long) => 0,
    (r: Reading) =>
      if Whole(r) >= FO.TWO_63 then 0 else if r.negative then Whole(r) - FO.TWO_63 else Whole(r))

  /** A reader can be faithful to all doubles. */
  lemma FaithfulExists()
    ensures Faithful(BITWISE)
  {
    hide FO.IsFinite, Digits, Decimal, Normal, Whole, WithoutPoints, DotAt;
    forall bits: FO.Long
      ensures Digits(WithoutPoints(BITWISE.mantissa(bits))) && Reread(BITWISE, bits) == bits
    {
      BitwiseRereads(bits);
    }
  }

  lemma BitwiseRereads(bits: FO.Long)
    ensures Digits(WithoutPoints(BITWISE.mantissa(bits))) && Reread(BITWISE, bits) == bits
  {
    hide FO.IsFinite, Digits, Decimal, Normal, WithoutPoints, DotAt, Number;
    var n := FO.Magnitude(bits);
    var text := Decimal(n);
    DecimalReads(n);
    NoPoints(text);
    WithoutDot(text);
    var r := Source(bits < 0, text, 0);
    assert r == Reading(bits < 0, n, 0);
    NormalKeepsWhole(r);
    assert Pow10(0) == 1;
    assert Whole(Normal(r)) == n;
  }

  lemma {:induction false} WithoutDot(s: Text)
    requires Digits(s)
    ensures DotAt(s) == |s|
  {
    if s != [] {
      assert IsDigit(s[0]);
      WithoutDot(s[1..]);
    }
  }

  // ---------------------------------------------------------------- readers that misread

  /** What the digits of a double say. */
  function DigitsOf(d: Doubles, bits: FO.Long): Reading
    requires Digits(WithoutPoints(d.mantissa(bits)))
  {
    Normal(Source(bits < 0, d.mantissa(bits), d.exponent(bits)))
  }

  /** The same reader, except that it takes the digits of one double for another. */
  function Misreading(d: Doubles, wrong: FO.Long, instead: FO.Long): Doubles
    requires Digits(WithoutPoints(d.mantissa(wrong)))
  {
    d.(nearest := r => if r == DigitsOf(d, wrong) then instead else d.nearest(r))
  }

  lemma MisreadsOne(d: Doubles, wrong: FO.Long, instead: FO.Long, bits: FO.Long)
    requires Faithful(d) && FO.IsFinite(wrong) && FO.IsFinite(bits)
    ensures Digits(WithoutPoints(d.mantissa(wrong)))
    ensures Reread(Misreading(d, wrong, instead), bits) == if bits == wrong then instead else bits
  {
    hide FO.IsFinite, Normal, Source, Digits, WithoutPoints;
    assert Reread(d, wrong) == wrong && Reread(d, bits) == bits;
  }

  lemma MisreadingWrites(d: Doubles, wrong: FO.Long, instead: FO.Long)
    requires Faithful(d) && FO.IsFinite(wrong)
    ensures Digits(WithoutPoints(d.mantissa(wrong))) && WritesDigits(Misreading(d, wrong, instead))
  {
    hide FO.IsFinite, Normal, Source, Digits, WithoutPoints;
  }

  /**
    A reader wrong about one double only: of the values with finite doubles exactly those that do not hold that
    double come back, sets included.
   */
  lemma OneMisreadDouble(d: Doubles, wrong: FO.Long, instead: FO.Long, v: V.Value)
    requires Faithful(d) && FO.IsFinite(wrong) && instead != wrong && Canonical(v) && AllFinite(Floats(v))
    ensures Digits(WithoutPoints(d.mantissa(wrong)))
    ensures ComesBack(Misreading(d, wrong, instead), v) <==> wrong !in Floats(v)
  {
    MisreadingWrites(d, wrong, instead);
    var bad := Misreading(d, wrong, instead);
    hide Faithful, FO.IsFinite, Canonical, Floats, ComesBack, Misreading, Digits, WithoutPoints, WritesDigits, Reread;
    forall bits | bits in Floats(v)
      ensures Reread(bad, bits) == if bits == wrong then instead else bits
    {
      MisreadsOne(d, wrong, instead, bits);
    }
    if wrong !in Floats(v) {
      RereadComesBack(bad, v);
    } else if ComesBack(bad, v) {
      ComingBackPermutes(bad, v);
      assert false;
    }
  }

  /** The same reader, except that it takes two doubles for each other. */
  function Swapping(d: Doubles, x: FO.Long, y: FO.Long): Doubles
    requires Digits(WithoutPoints(d.mantissa(x))) && Digits(WithoutPoints(d.mantissa(y)))
  {
    d.(nearest := r => if r == DigitsOf(d, x) then y else if r == DigitsOf(d, y) then x else d.nearest(r))
  }

  lemma SwapsTwo(d: Doubles, x: FO.Long, y: FO.Long)
    requires Faithful(d) && FO.IsFinite(x) && FO.IsFinite(y) && x != y
    ensures Digits(WithoutPoints(d.mantissa(x))) && Digits(WithoutPoints(d.mantissa(y)))
    ensures var s := Swapping(d, x, y); WritesDigits(s) && Reread(s, x) == y && Reread(s, y) == x
  {
    hide FO.IsFinite, Normal, Source, Digits, WithoutPoints;
    assert Reread(d, x) == x && Reread(d, y) == y;
  }

  /** Why the converse needs its premise: a reader that swaps two doubles gives the set of the two back. */
  lemma SwappedSetComesBack(d: Doubles, x: FO.Long, y: FO.Long)
    requires Faithful(d) && FO.IsFinite(x) && FO.IsFinite(y) && FO.CompareFloatBits(x, y) < 0
    ensures Digits(WithoutPoints(d.mantissa(x))) && Digits(WithoutPoints(d.mantissa(y)))
    ensures var s, v := Swapping(d, x, y), V.Set([V.Float(x), V.Float(y)]);
            Canonical(v) && ComesBack(s, v) && !AllReread(s, Floats(v))
  {
    hide Faithful, FO.IsFinite, Digits, WithoutPoints, WritesDigits, Reread, Swapping, ComesBack, FO.CompareFloatBits,
         Floats, FloatsOf, Canonical;
    FO.CompareIsTotalOrder(x, y);
    SwapsTwo(d, x, y);
    var s, items := Swapping(d, x, y), [V.Float(x), V.Float(y)];
    TwoFloats(x, y);
    var read := ReadBackAll(s, items);
    assert read == [V.Float(y), V.Float(x)];
    assert multiset([V.Float(y), V.Float(x)]) == multiset(items);
    ComesBackUnderAnyReader(s, V.Set(items));
  }

  lemma TwoFloats(x: FO.Long, y: FO.Long)
    requires FO.CompareFloatBits(x, y) < 0
    ensures var items := [V.Float(x), V.Float(y)];
            && VC.StrictlyAscending(items) && Canonical(V.Set(items))
            && FloatsOf(items) == {x, y} && Floats(V.Set(items)) == {x, y}
  {
    hide FO.CompareFloatBits;
    var items := [V.Float(x), V.Float(y)];
    forall bits: FO.Long
      ensures bits in FloatsOf(items) <==> bits == x || bits == y
    {
      InFloatsOf(items, bits);
      assert items[0] in items && items[1] in items;
      assert bits in Floats(V.Float(x)) <==> bits == x;
      assert bits in Floats(V.Float(y)) <==> bits == y;
    }
  }
}
