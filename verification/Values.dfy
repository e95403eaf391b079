/**
  The semantic value algebra and its order.

  `Compare` is the C# order; `RustCompare` is the `Ord` of the Rust runtime on the same
  value with its strings in UTF-8. The main results: `Compare` is a total order on all
  nested values, it is zero exactly on equal values, and the two producers agree.
 */
module Values {
  import opened Utf8Order
  import opened FloatOrder

  type ULong = x: int | 0 <= x < TWO_64

  /** `Set` items and `Map` entries are kept in the order the constructors leave them in. */
  datatype Value =
    | Bool(flag: bool)
    | Integer(signed: Long)
    | Unsigned64(unsigned: ULong)
    | Float(bits: Long)
    | String(text: Text)
    | List(items: seq<Value>)
    | Set(items: seq<Value>)
    | Map(entries: seq<Entry>)

  datatype Entry = Entry(key: Text, value: Value)

  /** The declaration order of `ValueKind`, which is also Rust's `variant_rank`. */
  function Rank(v: Value): nat {
    match v
    case Bool(_) => 0
    case Integer(_) => 1
    case Unsigned64(_) => 2
    case Float(_) => 3
    case String(_) => 4
    case List(_) => 5
    case Set(_) => 6
    case Map(_) => 7
  }

  function Bit(flag: bool): int { if flag then 1 else 0 }

  // ---------------------------------------------------------------- the C# order

  function Compare(left: Value, right: Value): int
    decreases left, 1
  {
    if Rank(left) != Rank(right) then Sign(Rank(left), Rank(right))
    else
      match left
      case Bool(flag) => Sign(Bit(flag), Bit(right.flag))
      case Integer(n) => Sign(n, right.signed)
      case Unsigned64(n) => Sign(n, right.unsigned)
      case Float(bits) => CompareFloatBits(bits, right.bits)
      case String(text) => Order(text, right.text)
      case List(items) => CompareItems(items, right.items)
      case Set(items) => CompareItems(items, right.items)
      case Map(entries) => CompareEntries(entries, right.entries)
  }

  function CompareItems(left: seq<Value>, right: seq<Value>): int
    decreases left, 0
  {
    if left == [] then Sign(0, |right|)
    else if right == [] then 1
    else
      var head := Compare(left[0], right[0]);
      if head != 0 then head else CompareItems(left[1..], right[1..])
  }

  function CompareEntries(left: seq<Entry>, right: seq<Entry>): int
    decreases left, 0
  {
    if left == [] then Sign(0, |right|)
    else if right == [] then 1
    else if Order(left[0].key, right[0].key) != 0 then Order(left[0].key, right[0].key)
    else
      var head := Compare(left[0].value, right[0].value);
      if head != 0 then head else CompareEntries(left[1..], right[1..])
  }

  method CompareValues(left: Value, right: Value) returns (order: int)
    ensures order == Compare(left, right)
    decreases left, 1
  {
    if Rank(left) != Rank(right) {
      return Sign(Rank(left), Rank(right));
    }
    match left {
      case Bool(flag) => order := Sign(Bit(flag), Bit(right.flag));
      case Integer(n) => order := Sign(n, right.signed);
      case Unsigned64(n) => order := Sign(n, right.unsigned);
      case Float(bits) => order := CompareFloatBits(bits, right.bits);
      case String(text) => order := Utf8Order.Compare(text, right.text);
      case List(items) => order := CompareSequences(items, right.items);
      case Set(items) => order := CompareSequences(items, right.items);
      case Map(entries) => order := CompareMaps(entries, right.entries);
    }
  }

  method CompareSequences(left: seq<Value>, right: seq<Value>) returns (order: int)
    ensures order == CompareItems(left, right)
    decreases left, 0
  {
    var shared := if |left| < |right| then |left| else |right|;
    for index := 0 to shared
      invariant CompareItems(left, right) == CompareItems(left[index..], right[index..])
    {
      order := CompareValues(left[index], right[index]);
      if order != 0 {
        return;
      }
    }
    return Sign(|left|, |right|);
  }

  method CompareMaps(left: seq<Entry>, right: seq<Entry>) returns (order: int)
    ensures order == CompareEntries(left, right)
    decreases left, 0
  {
    var next := 0;
    while next < |left|
      invariant next <= |left| && next <= |right|
      invariant CompareEntries(left, right) == CompareEntries(left[next..], right[next..])
    {
      if next == |right| {
        return 1;
      }
      order := Utf8Order.Compare(left[next].key, right[next].key);
      if order != 0 {
        return;
      }
      order := CompareValues(left[next].value, right[next].value);
      if order != 0 {
        return;
      }
      next := next + 1;
    }
    return if next < |right| then -1 else 0;
  }

  // ---------------------------------------------------------------- a total order

  lemma {:induction false} CompareTotal(a: Value, b: Value)
    ensures Compare(a, b) == 0 <==> a == b
    ensures Compare(a, b) == -Compare(b, a)
    ensures -1 <= Compare(a, b) <= 1
    decreases a, 1
  {
    if Rank(a) == Rank(b) {
      match a {
        case Bool(_) =>
        case Integer(_) =>
        case Unsigned64(_) =>
        case Float(bits) => CompareIsTotalOrder(bits, b.bits);
        case String(text) => OrderIsTotal(text, b.text);
        case List(items) => CompareItemsTotal(items, b.items);
        case Set(items) => CompareItemsTotal(items, b.items);
        case Map(entries) => CompareEntriesTotal(entries, b.entries);
      }
    }
  }

  lemma {:induction false} CompareItemsTotal(a: seq<Value>, b: seq<Value>)
    ensures CompareItems(a, b) == 0 <==> a == b
    ensures CompareItems(a, b) == -CompareItems(b, a)
    ensures -1 <= CompareItems(a, b) <= 1
    decreases a, 0
  {
    if a != [] && b != [] {
      assert a == [a[0]] + a[1..] && b == [b[0]] + b[1..];
      CompareTotal(a[0], b[0]);
      CompareItemsTotal(a[1..], b[1..]);
    }
  }

  lemma {:induction false} CompareEntriesTotal(a: seq<Entry>, b: seq<Entry>)
    ensures CompareEntries(a, b) == 0 <==> a == b
    ensures CompareEntries(a, b) == -CompareEntries(b, a)
    ensures -1 <= CompareEntries(a, b) <= 1
    decreases a, 0
  {
    if a != [] && b != [] {
      assert a == [a[0]] + a[1..] && b == [b[0]] + b[1..];
      OrderIsTotal(a[0].key, b[0].key);
      CompareTotal(a[0].value, b[0].value);
      CompareEntriesTotal(a[1..], b[1..]);
    }
  }

  /** Composition of two comparison results, strictness included. */
  ghost predicate Chains(ab: int, bc: int, ac: int) {
    ab <= 0 && bc <= 0 ==> ac <= 0 && (ab < 0 || bc < 0 ==> ac < 0)
  }

  lemma {:induction false} CompareTransitive(a: Value, b: Value, c: Value)
    ensures Chains(Compare(a, b), Compare(b, c), Compare(a, c))
    decreases a, 1
  {
    if Rank(a) == Rank(b) == Rank(c) {
      match a {
        case Bool(_) =>
        case Integer(_) =>
        case Unsigned64(_) =>
        case Float(_) =>
        case String(text) =>
          if Compare(a, b) <= 0 && Compare(b, c) <= 0 {
            OrderIsTransitive(text, b.text, c.text);
          }
        case List(items) => CompareItemsTransitive(items, b.items, c.items);
        case Set(items) => CompareItemsTransitive(items, b.items, c.items);
        case Map(entries) => CompareEntriesTransitive(entries, b.entries, c.entries);
      }
    }
  }

  lemma {:induction false} CompareItemsTransitive(a: seq<Value>, b: seq<Value>, c: seq<Value>)
    ensures Chains(CompareItems(a, b), CompareItems(b, c), CompareItems(a, c))
    decreases a, 0
  {
    if a != [] && b != [] && c != [] {
      CompareTransitive(a[0], b[0], c[0]);
      CompareTotal(a[0], b[0]);
      CompareTotal(b[0], c[0]);
      CompareTotal(a[0], c[0]);
      CompareItemsTransitive(a[1..], b[1..], c[1..]);
    }
  }

  lemma {:induction false} CompareEntriesTransitive(a: seq<Entry>, b: seq<Entry>, c: seq<Entry>)
    ensures Chains(CompareEntries(a, b), CompareEntries(b, c), CompareEntries(a, c))
    decreases a, 0
  {
    if a != [] && b != [] && c != [] {
      OrderIsTotal(a[0].key, b[0].key);
      OrderIsTotal(b[0].key, c[0].key);
      OrderIsTotal(a[0].key, c[0].key);
      if Order(a[0].key, b[0].key) <= 0 && Order(b[0].key, c[0].key) <= 0 {
        OrderIsTransitive(a[0].key, b[0].key, c[0].key);
      }
      CompareTransitive(a[0].value, b[0].value, c[0].value);
      CompareTotal(a[0].value, b[0].value);
      CompareTotal(b[0].value, c[0].value);
      CompareTotal(a[0].value, c[0].value);
      CompareEntriesTransitive(a[1..], b[1..], c[1..]);
    }
  }

  // ---------------------------------------------------------------- the Rust order

  /** The Rust runtime's value: the same tree with strings as UTF-8 bytes. */
  datatype RustValue =
    | RBool(flag: bool)
    | RInteger(signed: Long)
    | RUnsigned(unsigned: ULong)
    | RFloat(bits: Long)
    | RString(bytes: seq<Byte>)
    | RList(items: seq<RustValue>)
    | RSet(items: seq<RustValue>)
    | RMap(entries: seq<RustEntry>)

  datatype RustEntry = RustEntry(key: seq<Byte>, value: RustValue)

  function VariantRank(v: RustValue): nat {
    match v
    case RBool(_) => 0
    case RInteger(_) => 1
    case RUnsigned(_) => 2
    case RFloat(_) => 3
    case RString(_) => 4
    case RList(_) => 5
    case RSet(_) => 6
    case RMap(_) => 7
  }

  /** `f64::total_cmp`, by the standard's own definition of the order. */
  function TotalCmp(x: Long, y: Long): int {
    if x == y then 0 else if TotalOrder(x, y) then -1 else 1
  }

  function RustCompare(a: RustValue, b: RustValue): int
    decreases a, 1
  {
    match (a, b)
    case (RString(x), RString(y)) => Lex(x, y)
    case (RInteger(x), RInteger(y)) => Sign(x, y)
    case (RUnsigned(x), RUnsigned(y)) => Sign(x, y)
    case (RFloat(x), RFloat(y)) => TotalCmp(x, y)
    case (RBool(x), RBool(y)) => if x == y then 0 else if y then -1 else 1
    case (RList(x), RList(y)) => RustCompareItems(x, y)
    case (RMap(x), RMap(y)) => RustCompareEntries(x, y)
    case (RSet(x), RSet(y)) => RustCompareItems(x, y)
    case _ => Sign(VariantRank(a), VariantRank(b))
  }

  function RustCompareItems(a: seq<RustValue>, b: seq<RustValue>): int
    decreases a, 0
  {
    if a == [] && b == [] then 0
    else if a == [] then -1
    else if b == [] then 1
    else
      var head := RustCompare(a[0], b[0]);
      if head != 0 then head else RustCompareItems(a[1..], b[1..])
  }

  /** Maps compare as sequences of (key, value) pairs. */
  function RustCompareEntries(a: seq<RustEntry>, b: seq<RustEntry>): int
    decreases a, 0
  {
    if a == [] && b == [] then 0
    else if a == [] then -1
    else if b == [] then 1
    else
      var key := Lex(a[0].key, b[0].key);
      var head := if key != 0 then key else RustCompare(a[0].value, b[0].value);
      if head != 0 then head else RustCompareEntries(a[1..], b[1..])
  }

  function ToRust(v: Value): RustValue
    decreases v, 1
  {
    match v
    case Bool(flag) => RBool(flag)
    case Integer(n) => RInteger(n)
    case Unsigned64(n) => RUnsigned(n)
    case Float(bits) => RFloat(bits)
    case String(text) => RString(Encode(text))
    case List(items) => RList(ToRustItems(items))
    case Set(items) => RSet(ToRustItems(items))
    case Map(entries) => RMap(ToRustEntries(entries))
  }

  function ToRustItems(vs: seq<Value>): (rs: seq<RustValue>)
    ensures |rs| == |vs|
    decreases vs, 0
  {
    if vs == [] then [] else [ToRust(vs[0])] + ToRustItems(vs[1..])
  }

  function ToRustEntries(es: seq<Entry>): (rs: seq<RustEntry>)
    ensures |rs| == |es|
    decreases es, 0
  {
    if es == [] then [] else [RustEntry(Encode(es[0].key), ToRust(es[0].value))] + ToRustEntries(es[1..])
  }

  /** The C# order of two values is the Rust order of the same two values. */
  lemma {:induction false} ProducersAgree(a: Value, b: Value)
    ensures Compare(a, b) == RustCompare(ToRust(a), ToRust(b))
    decreases a, 1
  {
    if Rank(a) == Rank(b) {
      match a {
        case Bool(_) =>
        case Integer(_) =>
        case Unsigned64(_) =>
        case Float(bits) => CompareIsTotalOrder(bits, b.bits);
        case String(text) => OrderIsUtf8Order(text, b.text);
        case List(items) => ProducersAgreeOnItems(items, b.items);
        case Set(items) => ProducersAgreeOnItems(items, b.items);
        case Map(entries) => ProducersAgreeOnEntries(entries, b.entries);
      }
    }
  }

  lemma {:induction false} ProducersAgreeOnItems(a: seq<Value>, b: seq<Value>)
    ensures CompareItems(a, b) == RustCompareItems(ToRustItems(a), ToRustItems(b))
    decreases a, 0
  {
    if a != [] && b != [] {
      ProducersAgree(a[0], b[0]);
      ProducersAgreeOnItems(a[1..], b[1..]);
      assert ToRustItems(a)[1..] == ToRustItems(a[1..]) && ToRustItems(b)[1..] == ToRustItems(b[1..]);
    }
  }

  lemma {:induction false} ProducersAgreeOnEntries(a: seq<Entry>, b: seq<Entry>)
    ensures CompareEntries(a, b) == RustCompareEntries(ToRustEntries(a), ToRustEntries(b))
    decreases a, 0
  {
    if a != [] && b != [] {
      OrderIsUtf8Order(a[0].key, b[0].key);
      ProducersAgree(a[0].value, b[0].value);
      ProducersAgreeOnEntries(a[1..], b[1..]);
      assert ToRustEntries(a)[1..] == ToRustEntries(a[1..]) && ToRustEntries(b)[1..] == ToRustEntries(b[1..]);
    }
  }
}
