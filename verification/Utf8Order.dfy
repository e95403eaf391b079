/**
  The string order of the C# runtime.

  A C# string is a sequence of UTF-16 code units. `Compare` walks two strings code
  point by code point; this module proves that the walk is the byte order of the
  UTF-8 encodings, which is the order Rust's `String` and `BTreeMap<String, _>` use,
  and that it is a total order on all strings, well-formed or not.
 */
module Utf8Order {

  type CodeUnit = u: int | 0 <= u < 0x1_0000
  type Text = seq<CodeUnit>
  type CodePoint = p: int | 0 <= p < 0x11_0000
  type Byte = b: int | 0 <= b < 0x100

  /** A literal without characters beyond the basic plane. */
  function Literal(s: string): (t: Text)
    ensures |t| == |s| && forall i | 0 <= i < |s| :: s[i] as int < 0x1_0000 ==> t[i] == s[i] as int
  {
    seq(|s|, i requires 0 <= i < |s| => if s[i] as int < 0x1_0000 then s[i] as int else 0xFFFD)
  }

  // ---------------------------------------------------------------- lexicographic order

  function Sign(left: int, right: int): int {
    if left < right then -1 else if left > right then 1 else 0
  }

  /** Lexicographic comparison, a proper prefix coming first. */
  function Lex(left: seq<int>, right: seq<int>): int {
    if left == [] then Sign(0, |right|)
    else if right == [] then 1
    else if left[0] != right[0] then Sign(left[0], right[0])
    else Lex(left[1..], right[1..])
  }

  lemma {:induction false} LexTotalOrder(a: seq<int>, b: seq<int>)
    ensures Lex(a, b) == 0 <==> a == b
    ensures Lex(a, b) == -Lex(b, a)
    ensures -1 <= Lex(a, b) <= 1
  {
    if a != [] && b != [] {
      assert a == [a[0]] + a[1..] && b == [b[0]] + b[1..];
      LexTotalOrder(a[1..], b[1..]);
    }
  }

  lemma {:induction false} LexTransitive(a: seq<int>, b: seq<int>, c: seq<int>)
    requires Lex(a, b) <= 0 && Lex(b, c) <= 0
    ensures Lex(a, c) <= 0
    ensures Lex(a, b) < 0 || Lex(b, c) < 0 ==> Lex(a, c) < 0
  {
    if a != [] && b != [] && c != [] && a[0] == b[0] == c[0] {
      LexTransitive(a[1..], b[1..], c[1..]);
    }
  }

  lemma {:induction false} LexCommonPrefix(prefix: seq<int>, a: seq<int>, b: seq<int>)
    ensures Lex(prefix + a, prefix + b) == Lex(a, b)
  {
    if prefix == [] {
      assert prefix + a == a && prefix + b == b;
    } else {
      assert (prefix + a)[1..] == prefix[1..] + a && (prefix + b)[1..] == prefix[1..] + b;
      LexCommonPrefix(prefix[1..], a, b);
    }
  }

  /** What it means to come first: a proper prefix, or smaller at the first difference. */
  ghost predicate Precedes(a: seq<int>, b: seq<int>) {
    || (|a| < |b| && a == b[..|a|])
    || exists k :: 0 <= k < |a| && k < |b| && a[..k] == b[..k] && a[k] < b[k]
  }

  lemma {:induction false} LexMeans(a: seq<int>, b: seq<int>)
    ensures Lex(a, b) < 0 <==> Precedes(a, b)
  {
    if a != [] && b != [] && a[0] == b[0] {
      LexMeans(a[1..], b[1..]);
      if Precedes(a[1..], b[1..]) {
        if j :| 0 <= j < |a[1..]| && j < |b[1..]| && a[1..][..j] == b[1..][..j] && a[1..][j] < b[1..][j] {
          assert a[..j + 1] == [a[0]] + a[1..][..j] && b[..j + 1] == [b[0]] + b[1..][..j];
          assert a[j + 1] < b[j + 1];
        } else {
          assert a == [a[0]] + a[1..] && b[..|a|] == [b[0]] + b[1..][..|a| - 1];
        }
      }
      if Precedes(a, b) {
        if k :| 0 <= k < |a| && k < |b| && a[..k] == b[..k] && a[k] < b[k] {
          assert a[1..][..k - 1] == a[..k][1..] && b[1..][..k - 1] == b[..k][1..];
          assert a[1..][k - 1] < b[1..][k - 1];
        } else {
          assert b[1..][..|a| - 1] == b[..|a|][1..];
        }
      }
    } else if a != [] && b != [] && a[0] < b[0] {
      assert a[..0] == b[..0];
    }
  }

  /** The first differing position decides. */
  lemma LexFirstDifference(a: seq<int>, b: seq<int>, k: nat)
    requires k < |a| && k < |b| && a[..k] == b[..k] && a[k] != b[k]
    ensures Lex(a, b) == Sign(a[k], b[k])
  {
    assert a == a[..k] + a[k..] && b == a[..k] + b[k..];
    LexCommonPrefix(a[..k], a[k..], b[k..]);
  }

  // ---------------------------------------------------------------- UTF-16 decoding

  predicate IsHigh(u: CodeUnit) { 0xD800 <= u < 0xDC00 }
  predicate IsLow(u: CodeUnit) { 0xDC00 <= u < 0xE000 }

  predicate PairAt(t: Text, i: nat)
    requires i < |t|
  {
    IsHigh(t[i]) && i + 1 < |t| && IsLow(t[i + 1])
  }

  function Width(t: Text, i: nat): (w: nat)
    requires i < |t|
    ensures 1 <= w && i + w <= |t|
  {
    if PairAt(t, i) then 2 else 1
  }

  /** An unpaired surrogate stands for its own code unit (section 2 of RFC 2781 leaves it undefined). */
  function PointAt(t: Text, i: nat): (p: CodePoint)
    requires i < |t|
  {
    if PairAt(t, i) then FromPair(t[i], t[i + 1]) else t[i]
  }

  function FromPair(high: int, low: int): int {
    0x1_0000 + (high - 0xD800) * 0x400 + (low - 0xDC00)
  }

  function Points(t: Text, i: nat): seq<CodePoint>
    requires i <= |t|
    decreases |t| - i
  {
    if i == |t| then [] else [PointAt(t, i)] + Points(t, i + Width(t, i))
  }

  function Utf16(p: CodePoint): Text {
    if p < 0x1_0000 then [p]
    else [0xD800 + (p - 0x1_0000) / 0x400, 0xDC00 + (p - 0x1_0000) % 0x400]
  }

  function Utf16All(ps: seq<CodePoint>): Text {
    if ps == [] then [] else Utf16(ps[0]) + Utf16All(ps[1..])
  }

  lemma PointKeepsUnits(t: Text, i: nat)
    requires i < |t|
    ensures Utf16(PointAt(t, i)) == t[i..i + Width(t, i)]
  {
  }

  lemma {:induction false} DecodingLosesNothing(t: Text, i: nat)
    requires i <= |t|
    ensures Utf16All(Points(t, i)) == t[i..]
    decreases |t| - i
  {
    if i < |t| {
      var w := Width(t, i);
      DecodingLosesNothing(t, i + w);
      PointKeepsUnits(t, i);
      hide PointAt, Utf16, Width;
      assert t[i..] == t[i..i + w] + t[i + w..];
      assert Points(t, i)[1..] == Points(t, i + w);
    }
  }

  /** No code point that is a high surrogate is followed by one that is a low surrogate. */
  ghost predicate NoSplitPair(ps: seq<CodePoint>) {
    forall i | 0 <= i < |ps| - 1 :: !(0xD800 <= ps[i] <= 0xDBFF && 0xDC00 <= ps[i + 1] <= 0xDFFF)
  }

  /** Scalar values: the code points that UTF-8 and UTF-16 are defined for. */
  ghost predicate Scalars(ps: seq<CodePoint>) {
    forall i | 0 <= i < |ps| :: !(0xD800 <= ps[i] <= 0xDFFF)
  }

  lemma Utf16Starts(ps: seq<CodePoint>)
    ensures ps == [] ==> Utf16All(ps) == []
    ensures ps != [] ==> Utf16All(ps) != [] && (0xDC00 <= Utf16All(ps)[0] <= 0xDFFF <==> 0xDC00 <= ps[0] <= 0xDFFF)
  {
  }

  /** Decoding undoes encoding, behind any prefix. */
  lemma {:induction false} DecodesEncoded(prefix: Text, ps: seq<CodePoint>)
    requires NoSplitPair(ps)
    ensures Points(prefix + Utf16All(ps), |prefix|) == ps
    decreases |ps|
  {
    var t, i := prefix + Utf16All(ps), |prefix|;
    if ps != [] {
      var unit, rest := Utf16(ps[0]), Utf16All(ps[1..]);
      assert t == (prefix + unit) + rest;
      assert t[i] == unit[0] && (i + 1 < |t| ==> t[i + 1] == (unit + rest)[1]);
      Utf16Starts(ps[1..]);
      assert |ps| > 1 ==> !(0xD800 <= ps[0] <= 0xDBFF && 0xDC00 <= ps[1] <= 0xDFFF);
      assert Width(t, i) == |unit| && PointAt(t, i) == ps[0];
      hide PointAt, Utf16, Width;
      assert NoSplitPair(ps[1..]);
      DecodesEncoded(prefix + unit, ps[1..]);
      assert ps == [ps[0]] + ps[1..];
    }
  }

  lemma NotTorn(t: Text, i: nat)
    requires i < |t| && i + Width(t, i) < |t|
    ensures !(0xD800 <= PointAt(t, i) <= 0xDBFF && 0xDC00 <= PointAt(t, i + Width(t, i)) <= 0xDFFF)
  {
  }

  lemma {:induction false} DecodedPairs(t: Text, i: nat)
    requires i <= |t|
    ensures NoSplitPair(Points(t, i))
    decreases |t| - i
  {
    hide PointAt, Width;
    if i < |t| {
      var next := i + Width(t, i);
      DecodedPairs(t, next);
      if next < |t| {
        NotTorn(t, i);
        assert Points(t, next)[0] == PointAt(t, next);
      }
      var ps, rest := Points(t, i), Points(t, next);
      forall k | 0 <= k < |ps| - 1
        ensures !(0xD800 <= ps[k] <= 0xDBFF && 0xDC00 <= ps[k + 1] <= 0xDFFF)
      {
        assert ps[k + 1] == rest[k] && (k > 0 ==> ps[k] == rest[k - 1]);
      }
    }
  }

  /**
    The decoder is the inverse of UTF-16 encoding: the one sequence of code points that encodes to the string and does
    not tear a surrogate pair apart. For a well-formed string these are its scalar values.
   */
  lemma DecodingIsInverse(t: Text, ps: seq<CodePoint>)
    ensures Points(t, 0) == ps <==> Utf16All(ps) == t && NoSplitPair(ps)
    ensures Scalars(ps) ==> NoSplitPair(ps)
  {
    DecodingLosesNothing(t, 0);
    DecodedPairs(t, 0);
    if Utf16All(ps) == t && NoSplitPair(ps) {
      DecodesEncoded([], ps);
      assert [] + t == t;
    }
  }

  // ---------------------------------------------------------------- UTF-8 encoding

  /** The table of section 3 of RFC 3629. */
  function Utf8(p: CodePoint): (bytes: seq<Byte>)
    ensures 1 <= |bytes| <= 4
  {
    if p < 0x80 then [p]
    else if p < 0x800 then [0xC0 + p / 0x40, 0x80 + p % 0x40]
    else if p < 0x1_0000 then [0xE0 + p / 0x1000, 0x80 + p / 0x40 % 0x40, 0x80 + p % 0x40]
    else [0xF0 + p / 0x4_0000, 0x80 + p / 0x1000 % 0x40, 0x80 + p / 0x40 % 0x40, 0x80 + p % 0x40]
  }

  /** The payload of a byte of the form 10xxxxxx. */
  ghost predicate Continues(b: int, payload: int) { 0x80 <= b <= 0xBF && payload == b - 0x80 }

  /** The forms of section 3 of RFC 3629: the bits of the code point, in the fewest bytes. */
  ghost predicate Encodes(b: seq<int>, p: int) {
    || (|b| == 1 && 0 <= p <= 0x7F && b[0] == p)
    || (|b| == 2 && 0x80 <= p <= 0x7FF && 0xC0 <= b[0] <= 0xDF && Continues(b[1], p - (b[0] - 0xC0) * 0x40))
    || (|b| == 3 && 0x800 <= p <= 0xFFFF && 0xE0 <= b[0] <= 0xEF &&
        exists c: int :: Continues(b[1], c) && Continues(b[2], p - (b[0] - 0xE0) * 0x1000 - c * 0x40))
    || (|b| == 4 && 0x1_0000 <= p <= 0x10_FFFF && 0xF0 <= b[0] <= 0xF7 &&
        exists c: int, d: int ::
          && Continues(b[1], c) && Continues(b[2], d)
          && Continues(b[3], p - (b[0] - 0xF0) * 0x4_0000 - c * 0x1000 - d * 0x40))
  }

  lemma DigitShift(p: nat)
    ensures p / 0x40 == p / 0x1000 * 0x40 + p / 0x40 % 0x40 && p / 0x1000 == p / 0x4_0000 * 0x40 + p / 0x1000 % 0x40
    ensures p == p / 0x40 * 0x40 + p % 0x40
  {
    assert p / 0x40 / 0x40 == p / 0x1000 && p / 0x1000 / 0x40 == p / 0x4_0000;
  }

  lemma Utf8Encodes(p: CodePoint)
    ensures Encodes(Utf8(p), p)
  {
    DigitShift(p);
    var b := Utf8(p);
    if |b| == 3 {
      assert Continues(b[1], p / 0x40 % 0x40);
    } else if |b| == 4 {
      assert Continues(b[1], p / 0x1000 % 0x40) && Continues(b[2], p / 0x40 % 0x40);
    }
  }

  function Utf8All(ps: seq<CodePoint>): seq<Byte> {
    if ps == [] then [] else Utf8(ps[0]) + Utf8All(ps[1..])
  }

  /** The UTF-8 encoding of a string. */
  function Encode(t: Text): seq<Byte> {
    Utf8All(Points(t, 0))
  }

  /** One base-64 digit: equal high parts leave the comparison to the last digit. */
  lemma DigitOrder(p: nat, q: nat)
    requires p < q
    ensures p / 0x40 < q / 0x40 || (p / 0x40 == q / 0x40 && p % 0x40 < q % 0x40)
    ensures p / 0x40 / 0x40 == p / 0x1000 && p / 0x1000 / 0x40 == p / 0x4_0000
    ensures q / 0x40 / 0x40 == q / 0x1000 && q / 0x1000 / 0x40 == q / 0x4_0000
  {
  }

  /** The encodings of two different code points differ first where the smaller one is smaller. */
  lemma Utf8Difference(p: CodePoint, q: CodePoint) returns (k: nat)
    requires p < q
    ensures k < |Utf8(p)| && k < |Utf8(q)|
    ensures Utf8(p)[..k] == Utf8(q)[..k] && Utf8(p)[k] < Utf8(q)[k]
  {
    k := 0;
    DigitOrder(p, q);
    if |Utf8(p)| == |Utf8(q)| == 2 {
      k := if p / 0x40 < q / 0x40 then 0 else 1;
    } else if |Utf8(p)| == |Utf8(q)| == 3 {
      k := Difference3(p, q);
    } else if |Utf8(p)| == |Utf8(q)| == 4 {
      k := Difference4(p, q);
    }
  }

  lemma Difference3(p: CodePoint, q: CodePoint) returns (k: nat)
    requires 0x800 <= p < q < 0x1_0000
    ensures k < 3 && Utf8(p)[..k] == Utf8(q)[..k] && Utf8(p)[k] < Utf8(q)[k]
  {
    DigitOrder(p, q);
    k := 2;
    if p / 0x40 < q / 0x40 {
      DigitOrder(p / 0x40, q / 0x40);
      k := if p / 0x1000 < q / 0x1000 then 0 else 1;
    }
  }

  lemma Difference4(p: CodePoint, q: CodePoint) returns (k: nat)
    requires 0x1_0000 <= p < q
    ensures k < 4 && Utf8(p)[..k] == Utf8(q)[..k] && Utf8(p)[k] < Utf8(q)[k]
  {
    DigitOrder(p, q);
    k := 3;
    if p / 0x40 < q / 0x40 {
      DigitOrder(p / 0x40, q / 0x40);
      k := 2;
      if p / 0x1000 < q / 0x1000 {
        DigitOrder(p / 0x1000, q / 0x1000);
        k := if p / 0x4_0000 < q / 0x4_0000 then 0 else 1;
      }
    }
  }

  /** Strings that start with a smaller code point come first, whatever follows. */
  lemma SmallerPoint(p: CodePoint, q: CodePoint, a: seq<Byte>, b: seq<Byte>)
    requires p < q
    ensures Lex(Utf8(p) + a, Utf8(q) + b) == -1 && Lex(Utf8(q) + b, Utf8(p) + a) == 1
  {
    hide Utf8, Lex;
    var k := Utf8Difference(p, q);
    var x, y := Utf8(p) + a, Utf8(q) + b;
    assert x[..k] == Utf8(p)[..k] && y[..k] == Utf8(q)[..k];
    LexFirstDifference(x, y, k);
    LexFirstDifference(y, x, k);
  }

  lemma {:induction false} PointOrderIsByteOrder(ps: seq<CodePoint>, qs: seq<CodePoint>)
    ensures Lex(Utf8All(ps), Utf8All(qs)) == Lex(ps, qs)
  {
    hide Utf8;
    if ps != [] && qs != [] {
      var a, b := Utf8All(ps[1..]), Utf8All(qs[1..]);
      if ps[0] == qs[0] {
        LexCommonPrefix(Utf8(ps[0]), a, b);
        PointOrderIsByteOrder(ps[1..], qs[1..]);
      } else if ps[0] < qs[0] {
        SmallerPoint(ps[0], qs[0], a, b);
      } else {
        SmallerPoint(qs[0], ps[0], b, a);
      }
    }
  }

  // ---------------------------------------------------------------- the comparer

  /** What the comparer computes: the lexicographic order of the code points. */
  function Order(x: Text, y: Text): int {
    Lex(Points(x, 0), Points(y, 0))
  }

  method NextCodePoint(text: Text, index: nat) returns (point: CodePoint, next: nat)
    requires index < |text|
    ensures index < next <= |text| && Points(text, index) == [point] + Points(text, next)
  {
    var current := text[index];
    next := index;
    if IsHigh(current) && next + 1 < |text| && IsLow(text[next + 1]) {
      next := next + 2;
      return FromPair(current, text[next - 1]), next;
    }
    next := next + 1;
    return current, next;
  }

  method Compare(x: Text, y: Text) returns (order: int)
    ensures order == Order(x, y)
  {
    var left: nat, right: nat := 0, 0;
    while left < |x| && right < |y|
      invariant left <= |x| && right <= |y|
      invariant Order(x, y) == Lex(Points(x, left), Points(y, right))
      decreases |x| - left
    {
      var leftPoint, rightPoint;
      leftPoint, left := NextCodePoint(x, left);
      rightPoint, right := NextCodePoint(y, right);
      if leftPoint != rightPoint {
        return if leftPoint < rightPoint then -1 else 1;
      }
    }
    return Sign(|x| - left, |y| - right);
  }

  /** The comparer has the sign of the byte comparison of the UTF-8 encodings. */
  lemma OrderIsUtf8Order(x: Text, y: Text)
    ensures Order(x, y) == Lex(Encode(x), Encode(y))
  {
    PointOrderIsByteOrder(Points(x, 0), Points(y, 0));
  }

  /** The same without the decoder: two texts, given by their code points, compare as their UTF-8 bytes. */
  lemma OrderOfEncoded(ps: seq<CodePoint>, qs: seq<CodePoint>)
    requires NoSplitPair(ps) && NoSplitPair(qs)
    ensures Order(Utf16All(ps), Utf16All(qs)) == Lex(Utf8All(ps), Utf8All(qs))
    ensures Order(Utf16All(ps), Utf16All(qs)) < 0 <==> Precedes(Utf8All(ps), Utf8All(qs))
  {
    DecodingIsInverse(Utf16All(ps), ps);
    DecodingIsInverse(Utf16All(qs), qs);
    PointOrderIsByteOrder(ps, qs);
    LexMeans(Utf8All(ps), Utf8All(qs));
  }

  /** A total order on all strings, zero only on equal ones, also when surrogates are unpaired. */
  lemma OrderIsTotal(x: Text, y: Text)
    ensures Order(x, y) == 0 <==> x == y
    ensures Order(x, y) == -Order(y, x)
    ensures -1 <= Order(x, y) <= 1
  {
    LexTotalOrder(Points(x, 0), Points(y, 0));
    DecodingLosesNothing(x, 0);
    DecodingLosesNothing(y, 0);
  }

  lemma OrderIsTransitive(x: Text, y: Text, z: Text)
    requires Order(x, y) <= 0 && Order(y, z) <= 0
    ensures Order(x, z) <= 0
    ensures Order(x, y) < 0 || Order(y, z) < 0 ==> Order(x, z) < 0
  {
    LexTransitive(Points(x, 0), Points(y, 0), Points(z, 0));
  }
}
