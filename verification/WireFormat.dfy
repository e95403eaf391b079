/**
  Reading the tagged form back: the deserializer of the Rust side, and what it makes of the text of the C# writer,
  whatever way its library rounds decimals. `RoundTrip` says when that is the value that was written.
 */
module WireFormat {
  import opened Wrappers
  import opened Utf8Order
  import FO = FloatOrder
  import opened DecimalText
  import opened FloatFormat
  import opened JsonText
  import opened JsonReader
  import opened CaptureJson
  import V = Values
  import VC = ValueCollections

  // ---------------------------------------------------------------- the reader

  // The names of the serde attributes of the reader, apart from the table of the writer.
  const TAG := Literal("kind")
  const CONTENT := Literal("value")

  datatype Tagged = Tagged(kind: Text, payload: Json)

  /** Exactly a kind and a value, in either order. */
  function Untag(j: Json): (t: Option<Tagged>)
    ensures t.Some? ==> t.value.payload < j
  {
    if !j.Obj? || |j.members| != 2 then None
    else
      var a, b := j.members[0], j.members[1];
      if a.name == TAG && a.value.Str? && b.name == CONTENT then Some(Tagged(a.value.text, b.value))
      else if b.name == TAG && b.value.Str? && a.name == CONTENT then Some(Tagged(b.value.text, a.value))
      else None
  }

  /** A minus in front of zero makes a float, not an integer. */
  function ReadInteger(token: Text): Option<int> {
    var negative := token != [] && token[0] == MINUS;
    var digits := if negative then token[1..] else token;
    if !WholePart(digits) || !Digits(digits) || (negative && digits == [ZERO]) then None
    else Some(if negative then -(Number(digits) as int) else Number(digits))
  }

  /** The variants of `ValueOwned`, renamed to snake case. */
  function ReadKind(name: Text): Option<Kind> {
    if name == Literal("string") then Some(StringKind)
    else if name == Literal("integer") then Some(IntegerKind)
    else if name == Literal("unsigned") then Some(UnsignedKind)
    else if name == Literal("float") then Some(FloatKind)
    else if name == Literal("bool") then Some(BoolKind)
    else if name == Literal("list") then Some(ListKind)
    else if name == Literal("map") then Some(MapKind)
    else if name == Literal("set") then Some(SetKind)
    else None
  }

  function FromJson(d: Doubles, j: Json): Option<V.Value>
    decreases j, 0
  {
    var t := Untag(j);
    if t.None? then None
    else
      var kind := ReadKind(t.value.kind);
      if kind.None? then None else Content(d, kind.value, t.value.payload)
  }

  function Content(d: Doubles, kind: Kind, p: Json): Option<V.Value>
    decreases p, 2
  {
    match kind
    case BoolKind => if p.Boolean? then Some(V.Bool(p.flag)) else None
    case IntegerKind => ReadLong(p)
    case UnsignedKind => ReadULong(p)
    case FloatKind => ReadDouble(d, p)
    case StringKind => if p.Str? then Some(V.String(p.text)) else None
    case ListKind =>
      if !p.Arr? then None
      else
        var items := ItemsFromJson(d, p.items);
        if items.None? then None else Some(V.List(items.value))
    case SetKind =>
      if !p.Arr? then None
      else
        var items := ItemsFromJson(d, p.items);
        if items.None? then None else Some(V.Set(VC.Compact(VC.Sort(items.value))))
    case MapKind =>
      if !p.Obj? then None
      else
        var entries := EntriesFromJson(d, p.members);
        if entries.None? then None else Some(VC.MapOf(entries.value))
  }

  function ReadLong(p: Json): Option<V.Value> {
    if !p.Num? then None
    else
      var n := ReadInteger(p.token);
      if n.Some? && -FO.TWO_63 <= n.value < FO.TWO_63 then Some(V.Integer(n.value)) else None
  }

  function ReadULong(p: Json): Option<V.Value> {
    if !p.Num? then None
    else
      var n := ReadInteger(p.token);
      if n.Some? && 0 <= n.value < FO.TWO_64 then Some(V.Unsigned64(n.value)) else None
  }

  function ReadDouble(d: Doubles, p: Json): Option<V.Value> {
    if !p.Num? then None
    else
      var r := ReadNumber(p.token);
      if r.None? then None else Some(V.Float(d.nearest(Normal(r.value))))
  }

  function ItemsFromJson(d: Doubles, items: seq<Json>): Option<seq<V.Value>>
    decreases items, 1
  {
    if items == [] then Some([])
    else
      var first, rest := FromJson(d, items[0]), ItemsFromJson(d, items[1..]);
      if first.None? || rest.None? then None else Some([first.value] + rest.value)
  }

  function EntriesFromJson(d: Doubles, members: seq<Member>): Option<seq<V.Entry>>
    decreases members, 1
  {
    if members == [] then Some([])
    else
      var first, rest := FromJson(d, members[0].value), EntriesFromJson(d, members[1..]);
      if first.None? || rest.None? then None else Some([V.Entry(members[0].name, first.value)] + rest.value)
  }

  /** A whole document. */
  function Decode(d: Doubles, text: Text): Option<V.Value> {
    var p := ReadJson(text);
    if p.Failed? || p.rest != [] then None else FromJson(d, p.value)
  }

  // ---------------------------------------------------------------- the values

  /** The values the constructors build: sets in strict order, maps in key order. */
  ghost predicate Canonical(v: V.Value)
    decreases v
  {
    match v
    case List(items) => forall i | 0 <= i < |items| :: Canonical(items[i])
    case Set(items) => VC.StrictlyAscending(items) && forall i | 0 <= i < |items| :: Canonical(items[i])
    case Map(entries) => VC.KeysAscending(entries) && forall i | 0 <= i < |entries| :: Canonical(entries[i].value)
    case _ => true
  }

  /** The doubles a value holds. */
  ghost function Floats(v: V.Value): set<FO.Long>
    decreases v
  {
    match v
    case Float(bits) => {bits}
    case List(items) => FloatsOf(items)
    case Set(items) => FloatsOf(items)
    case Map(entries) => FloatsIn(entries)
    case _ => {}
  }

  ghost function FloatsOf(items: seq<V.Value>): set<FO.Long>
    decreases items
  {
    if items == [] then {} else Floats(items[0]) + FloatsOf(items[1..])
  }

  ghost function FloatsIn(entries: seq<V.Entry>): set<FO.Long>
    decreases entries
  {
    if entries == [] then {} else Floats(entries[0].value) + FloatsIn(entries[1..])
  }

  ghost predicate AllFinite(floats: set<FO.Long>) {
    forall bits <- floats :: FO.IsFinite(bits)
  }

  /** The value with every double as the reader makes it, and the sets and maps built anew. */
  function ReadBack(d: Doubles, v: V.Value): V.Value
    decreases v
  {
    match v
    case Float(bits) => V.Float(Reread(d, bits))
    case List(items) => V.List(ReadBackAll(d, items))
    case Set(items) => V.Set(VC.Compact(VC.Sort(ReadBackAll(d, items))))
    case Map(entries) => VC.MapOf(ReadBackEntries(d, entries))
    case _ => v
  }

  function ReadBackAll(d: Doubles, items: seq<V.Value>): (r: seq<V.Value>)
    ensures |r| == |items| && forall i | 0 <= i < |items| :: r[i] == ReadBack(d, items[i])
    decreases items
  {
    seq(|items|, i requires 0 <= i < |items| => ReadBack(d, items[i]))
  }

  function ReadBackEntries(d: Doubles, entries: seq<V.Entry>): (r: seq<V.Entry>)
    ensures && |r| == |entries|
            && forall i | 0 <= i < |entries| :: r[i] == V.Entry(entries[i].key, ReadBack(d, entries[i].value))
    decreases entries
  {
    seq(|entries|, i requires 0 <= i < |entries| => V.Entry(entries[i].key, ReadBack(d, entries[i].value)))
  }

  // ---------------------------------------------------------------- numbers

  lemma ReadsSigned(n: int)
    ensures ReadInteger(SignedDecimal(n)) == Some(n)
  {
    var m := if n < 0 then -n else n;
    DecimalReads(m);
    DecimalIsWhole(m);
    var digits := Decimal(m);
    assert IsDigit(digits[0]);
    hide Decimal, Number;
    assert ([MINUS] + digits)[1..] == digits;
  }

  lemma {:induction false} NormalScales(negative: bool, coefficient: nat, n: nat, scale: int)
    ensures Normal(Reading(negative, coefficient * Pow10(n), scale))
            == Normal(Reading(negative, coefficient, scale + n))
    decreases n
  {
    if coefficient > 0 && n > 0 {
      var c, p := coefficient, Pow10(n - 1);
      assert c * Pow10(n) == 10 * (c * p) by { assert Pow10(n) == 10 * p; }
      assert c * p > 0;
      hide Pow10;
      NormalStep(negative, c * p, scale);
      NormalScales(negative, c, n - 1, scale + 1);
    } else if coefficient == 0 {
    } else {
      assert Pow10(0) == 1;
    }
  }

  lemma NormalStep(negative: bool, c: nat, scale: int)
    requires c > 0
    ensures Normal(Reading(negative, 10 * c, scale)) == Normal(Reading(negative, c, scale + 1))
  {
    assert (10 * c) % 10 == 0 && (10 * c) / 10 == c;
  }

  /** The text of a finite double is read as its digits are. */
  lemma ReadsFloat(d: Doubles, bits: FO.Long)
    requires WritesDigits(d) && FO.IsFinite(bits)
    ensures ReadDouble(d, Num(FloatToken(d, bits))) == Some(V.Float(Reread(d, bits)))
  {
    hide Split, WithoutPoints, Number, Pow10, FormatFloat, Digits, DotAt, Normal, WritesDigits, FO.IsFinite,
         ReadNumber, Source;
    HasDigits(d, bits);
    FormatIsNormal(bits < 0, d.mantissa(bits), d.exponent(bits));
  }

  lemma HasDigits(d: Doubles, bits: FO.Long)
    requires WritesDigits(d) && FO.IsFinite(bits)
    ensures Digits(WithoutPoints(d.mantissa(bits)))
  {
  }

  /** The text and the platform's digits have the same normal reading. */
  lemma FormatIsNormal(negative: bool, mantissa: Text, exponent: int)
    requires Digits(WithoutPoints(mantissa))
    ensures var r := ReadNumber(FormatFloat(negative, mantissa, exponent));
            r.Some? && Normal(r.value) == Normal(Source(negative, mantissa, exponent))
  {
    hide Split, WithoutPoints, Number, Pow10, FormatFloat, Digits, DotAt, Normal, ReadNumber;
    SplitKeeps(mantissa, exponent);
    FormatReads(negative, mantissa, exponent);
    var x, n := Split(mantissa, exponent), Source(negative, mantissa, exponent);
    if x.significant == [] {
      NormalZero(negative, -1);
      NormalZero(negative, n.scale);
    } else {
      var padding := Padding(x.significant, x.scale);
      NormalScales(negative, Number(x.significant), padding, x.scale - padding);
      NormalScales(negative, Number(x.significant), x.scale - n.scale, n.scale);
    }
  }

  lemma NormalZero(negative: bool, scale: int)
    ensures Normal(Reading(negative, 0, scale)) == Reading(negative, 0, 0)
  {
  }

  // ---------------------------------------------------------------- values

  /** The name of a variant as the Rust side spells it. */
  function VariantName(k: Kind): Text {
    match k
    case StringKind => Literal("string")
    case IntegerKind => Literal("integer")
    case UnsignedKind => Literal("unsigned")
    case FloatKind => Literal("float")
    case BoolKind => Literal("bool")
    case ListKind => Literal("list")
    case MapKind => Literal("map")
    case SetKind => Literal("set")
  }

  /** The two tables, written apart in the two producers, agree. */
  lemma SameNames(k: Kind)
    ensures NameOf(k) == VariantName(k) && KIND == TAG && VALUE == CONTENT
  {
    var a, b := NameOf(k), VariantName(k);
    assert |a| == |b| && forall i | 0 <= i < |a| :: a[i] == b[i];
  }

  lemma ReadsVariant(k: Kind)
    ensures ReadKind(VariantName(k)) == Some(k)
  {
    var s := VariantName(k);
    assert s[0] == match k case BoolKind => 98 case IntegerKind => 105 case UnsignedKind => 117 case FloatKind => 102
                           case StringKind => 115 case ListKind => 108 case SetKind => 115 case MapKind => 109;
    var names := [Literal("string"), Literal("integer"), Literal("unsigned"), Literal("float"), Literal("bool"),
                  Literal("list"), Literal("map"), Literal("set")];
    assert && names[0][0] == 115 && names[1][0] == 105 && names[2][0] == 117 && names[3][0] == 102
           && names[4][0] == 98 && names[5][0] == 108 && names[6][0] == 109 && names[7][0] == 115;
  }

  lemma ReadsKind(k: Kind)
    ensures ReadKind(NameOf(k)) == Some(k)
  {
    hide ReadKind, NameOf, VariantName;
    SameNames(k);
    ReadsVariant(k);
  }

  /** What serde makes of a value of the Rust runtime; `text` is how its library prints a finite double. */
  ghost function Serialized(text: FO.Long -> Text, v: V.Value): Json
    decreases v, 1
  {
    Obj([Member(TAG, Str(VariantName(KindOf(v)))), Member(CONTENT, SerializedContent(text, v))])
  }

  ghost function SerializedContent(text: FO.Long -> Text, v: V.Value): Json
    decreases v, 0
  {
    match v
    case String(value) => Str(value)
    case Integer(n) => Num(SignedDecimal(n))
    case Unsigned64(n) => Num(SignedDecimal(n))
    case Float(bits) => if FO.Exponent(bits) == 0x7FF then Null else Num(text(bits))
    case Bool(flag) => Boolean(flag)
    case List(items) => Arr(seq(|items|, i requires 0 <= i < |items| => Serialized(text, items[i])))
    case Set(items) => Arr(seq(|items|, i requires 0 <= i < |items| => Serialized(text, items[i])))
    case Map(entries) =>
      Obj(seq(|entries|, i requires 0 <= i < |entries| =>
            Member(entries[i].key, Serialized(text, entries[i].value))))
  }

  /** Both producers print the same document, as long as they print the same finite doubles. */
  lemma {:induction false} ProducersPrintAlike(d: Doubles, text: FO.Long -> Text, v: V.Value)
    requires forall bits: FO.Long :: FO.IsFinite(bits) ==> text(bits) == FloatToken(d, bits)
    ensures ToJson(d, v) == Serialized(text, v)
    decreases v
  {
    SameNames(KindOf(v));
    hide NameOf, VariantName, FloatToken, SignedDecimal, TAG, CONTENT, KIND, VALUE;
    match v {
      case List(items) =>
        forall i | 0 <= i < |items| ensures ToJson(d, items[i]) == Serialized(text, items[i]) {
          ProducersPrintAlike(d, text, items[i]);
        }
        assert Payload(d, v).items == SerializedContent(text, v).items;
      case Set(items) =>
        forall i | 0 <= i < |items| ensures ToJson(d, items[i]) == Serialized(text, items[i]) {
          ProducersPrintAlike(d, text, items[i]);
        }
        assert Payload(d, v).items == SerializedContent(text, v).items;
      case Map(entries) =>
        forall i | 0 <= i < |entries| ensures ToJson(d, entries[i].value) == Serialized(text, entries[i].value) {
          ProducersPrintAlike(d, text, entries[i].value);
        }
        assert Payload(d, v).members == SerializedContent(text, v).members;
      case Float(bits) => FiniteExactly(bits);
      case _ =>
    }
  }

  lemma FiniteExactly(bits: FO.Long)
    ensures FO.IsFinite(bits) <==> FO.Exponent(bits) != 0x7FF
  {
  }

  /** The tag is understood. */
  lemma FromTagged(d: Doubles, v: V.Value)
    ensures FromJson(d, ToJson(d, v)) == Content(d, KindOf(v), Payload(d, v))
  {
    ReadsKind(KindOf(v));
    hide ReadKind, NameOf, Content, Payload;
  }

  /** Reading the tagged form, for every reader and every value: it fails exactly on a float that is not finite. */
  lemma {:induction false} FromJsonReads(d: Doubles, v: V.Value)
    requires WritesDigits(d)
    ensures FromJson(d, ToJson(d, v)) == if AllFinite(Floats(v)) then Some(ReadBack(d, v)) else None
    decreases v, 1
  {
    hide FromJson, ToJson, WritesDigits, AllFinite, Content, Payload, VC.Compact, VC.Sort, VC.MapOf;
    FromTagged(d, v);
    match v {
      case List(items) =>
        ItemsRead(d, items);
        ListContent(d, items);
      case Set(items) =>
        ItemsRead(d, items);
        SetContent(d, items);
      case Map(entries) =>
        EntriesRead(d, entries);
        MapContent(d, entries);
      case _ => ScalarReads(d, v);
    }
  }

  lemma ScalarReads(d: Doubles, v: V.Value)
    requires WritesDigits(d) && !v.List? && !v.Set? && !v.Map?
    ensures Content(d, KindOf(v), Payload(d, v)) == if AllFinite(Floats(v)) then Some(ReadBack(d, v)) else None
  {
    hide WritesDigits, FO.IsFinite, FloatToken, ReadDouble, ReadInteger, SignedDecimal, Reread;
    match v {
      case Integer(n) => ReadsSigned(n);
      case Unsigned64(n) => ReadsSigned(n);
      case Float(bits) =>
        assert AllFinite({bits}) <==> FO.IsFinite(bits);
        if FO.IsFinite(bits) {
          ReadsFloat(d, bits);
        } else {
          NullIsNoDouble(d);
        }
      case _ =>
    }
  }

  lemma ListContent(d: Doubles, items: seq<V.Value>)
    ensures var r := ItemsFromJson(d, ItemsToJson(d, items));
            Content(d, ListKind, Payload(d, V.List(items))) == if r.None? then None else Some(V.List(r.value))
  {
    hide ItemsFromJson, ItemsToJson;
  }

  lemma SetContent(d: Doubles, items: seq<V.Value>)
    ensures var r := ItemsFromJson(d, ItemsToJson(d, items));
            Content(d, SetKind, Payload(d, V.Set(items)))
              == if r.None? then None else Some(V.Set(VC.Compact(VC.Sort(r.value))))
  {
    hide ItemsFromJson, ItemsToJson, VC.Compact, VC.Sort;
  }

  lemma MapContent(d: Doubles, entries: seq<V.Entry>)
    ensures var r := EntriesFromJson(d, EntriesToJson(d, entries));
            Content(d, MapKind, Payload(d, V.Map(entries))) == if r.None? then None else Some(VC.MapOf(r.value))
  {
    hide EntriesFromJson, EntriesToJson, VC.MapOf;
  }

  lemma NullIsNoDouble(d: Doubles)
    ensures ReadDouble(d, Null) == None
  {
  }

  lemma {:induction false} ItemsRead(d: Doubles, items: seq<V.Value>)
    requires WritesDigits(d)
    ensures ItemsFromJson(d, ItemsToJson(d, items))
            == if AllFinite(FloatsOf(items)) then Some(ReadBackAll(d, items)) else None
    decreases items, 0
  {
    hide FromJson, ToJson, WritesDigits, FO.IsFinite, Floats, ReadBack, ReadBackAll;
    if items != [] {
      assert ItemsToJson(d, items)[1..] == ItemsToJson(d, items[1..]);
      FromJsonReads(d, items[0]);
      ItemsRead(d, items[1..]);
      assert ReadBackAll(d, items) == [ReadBack(d, items[0])] + ReadBackAll(d, items[1..]);
    }
  }

  lemma {:induction false} EntriesRead(d: Doubles, entries: seq<V.Entry>)
    requires WritesDigits(d)
    ensures EntriesFromJson(d, EntriesToJson(d, entries))
            == if AllFinite(FloatsIn(entries)) then Some(ReadBackEntries(d, entries)) else None
    decreases entries, 0
  {
    hide FromJson, ToJson, WritesDigits, FO.IsFinite, Floats, ReadBack, ReadBackEntries;
    if entries != [] {
      assert EntriesToJson(d, entries)[1..] == EntriesToJson(d, entries[1..]);
      FromJsonReads(d, entries[0].value);
      EntriesRead(d, entries[1..]);
      assert ReadBackEntries(d, entries)
             == [V.Entry(entries[0].key, ReadBack(d, entries[0].value))] + ReadBackEntries(d, entries[1..]);
    }
  }

  // ---------------------------------------------------------------- documents

  lemma DigitsAreUnits(s: Text)
    requires Digits(s)
    ensures Units(s)
  {
    forall i | 0 <= i < |s|
      ensures NumberUnit(s[i])
    {
      assert IsDigit(s[i]);
    }
  }

  ghost predicate Units(s: Text) { forall i | 0 <= i < |s| :: NumberUnit(s[i]) }

  lemma UnitsConcat(a: Text, b: Text)
    requires Units(a) && Units(b)
    ensures Units(a + b)
  {
    hide NumberUnit;
  }

  lemma NotationUnits(significant: Text, scale: int)
    requires significant != [] && Digits(significant)
    ensures Units(Notation(significant, scale)) && Notation(significant, scale) != []
  {
    var point := |significant| + scale;
    if scale >= 0 && point <= 16 {
      DigitsAreUnits(significant + Zeros(scale));
      UnitsConcat(significant + Zeros(scale), [POINT, ZERO]);
    } else if 0 < point <= 16 {
      DigitsAreUnits(significant[..point]);
      DigitsAreUnits(significant[point..]);
      UnitsConcat(significant[..point], [POINT]);
      UnitsConcat(significant[..point] + [POINT], significant[point..]);
    } else if -5 < point <= 0 {
      DigitsAreUnits(Zeros(-point) + significant);
      UnitsConcat([ZERO, POINT], Zeros(-point) + significant);
      assert [ZERO, POINT] + Zeros(-point) + significant == [ZERO, POINT] + (Zeros(-point) + significant);
    } else {
      var n := if point - 1 < 0 then 1 - point else point - 1;
      DigitsAreUnits(Decimal(n));
      var head := [SMALL_E, if point - 1 < 0 then MINUS else PLUS];
      UnitsConcat(head, Decimal(n));
      DigitsAreUnits(significant);
      if |significant| == 1 {
        UnitsConcat(significant, ExponentPart(point - 1));
      } else {
        DigitsAreUnits(significant[..1]);
        DigitsAreUnits(significant[1..]);
        UnitsConcat(significant[..1], [POINT]);
        UnitsConcat(significant[..1] + [POINT], significant[1..]);
        UnitsConcat(significant[..1] + [POINT] + significant[1..], ExponentPart(point - 1));
      }
    }
  }

  lemma FloatTokenUnits(d: Doubles, bits: FO.Long)
    requires WritesDigits(d) && FO.IsFinite(bits)
    ensures FloatToken(d, bits) != [] && Units(FloatToken(d, bits))
  {
    var mantissa, exponent := d.mantissa(bits), d.exponent(bits);
    assert Digits(WithoutPoints(mantissa));
    hide Split, WithoutPoints, Number, Notation, WritesDigits, FO.IsFinite, Digits, DotAt;
    SplitKeeps(mantissa, exponent);
    var x := Split(mantissa, exponent);
    var body := if x.significant == [] then [ZERO, POINT, ZERO] else Notation(x.significant, x.scale);
    if x.significant != [] {
      NotationUnits(x.significant, x.scale);
    }
    UnitsConcat([MINUS], body);
  }

  lemma SignedUnits(n: int)
    ensures SignedDecimal(n) != [] && Units(SignedDecimal(n))
  {
    var digits := Decimal(if n < 0 then -n else n);
    DigitsAreUnits(digits);
    UnitsConcat([MINUS], digits);
  }

  /** Everything the writer prints can be read. */
  lemma {:induction false} ToJsonIsClean(d: Doubles, v: V.Value)
    requires WritesDigits(d)
    ensures Clean(ToJson(d, v))
    decreases v, 1
  {
    PayloadIsClean(d, v);
    hide Payload, KindName;
    assert Clean(Str(KindName(v)));
  }

  lemma {:induction false} PayloadIsClean(d: Doubles, v: V.Value)
    requires WritesDigits(d)
    ensures Clean(Payload(d, v))
    decreases v, 0
  {
    hide ToJson, WritesDigits, FO.IsFinite, FloatToken, SignedDecimal;
    match v {
      case Integer(n) => SignedUnits(n);
      case Unsigned64(n) => SignedUnits(n);
      case Float(bits) =>
        if FO.IsFinite(bits) {
          FloatTokenUnits(d, bits);
        }
      case List(items) =>
        forall i | 0 <= i < |items| ensures Clean(ToJson(d, items[i])) { ToJsonIsClean(d, items[i]); }
      case Set(items) =>
        forall i | 0 <= i < |items| ensures Clean(ToJson(d, items[i])) { ToJsonIsClean(d, items[i]); }
      case Map(entries) =>
        forall i | 0 <= i < |entries| ensures Clean(ToJson(d, entries[i].value)) { ToJsonIsClean(d, entries[i].value); }
      case _ =>
    }
  }

  /** Decoding the written text, for every reader and every value. */
  lemma WireReads(d: Doubles, v: V.Value)
    requires WritesDigits(d)
    ensures Decode(d, Print(ToJson(d, v))) == if AllFinite(Floats(v)) then Some(ReadBack(d, v)) else None
  {
    hide Print, ReadJson, ToJson, FromJson, WritesDigits, Floats, AllFinite, ReadBack, Clean;
    ToJsonIsClean(d, v);
    ReadsJson(ToJson(d, v), []);
    assert Print(ToJson(d, v)) + [] == Print(ToJson(d, v));
    FromJsonReads(d, v);
  }
}
