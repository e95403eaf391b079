/**
  The tagged JSON form of a semantic value, and the recursive writer that drives the flag-driven text.
 */
module CaptureJson {
  import opened Utf8Order
  import opened FloatOrder
  import opened DecimalText
  import opened FloatFormat
  import opened JsonText
  import opened JsonReader
  import V = Values

  // ---------------------------------------------------------------- doubles

  /** The platform's two conversions: a finite double to its shortest digits, and a decimal to the nearest double. */
  datatype Doubles = Doubles(mantissa: Long -> Text, exponent: Long -> int, nearest: Reading -> Long)

  /** A reading with the zeros behind its coefficient moved into the scale. */
  function Normal(r: Reading): Reading
    decreases r.coefficient
  {
    if r.coefficient == 0 then Reading(r.negative, 0, 0)
    else if r.coefficient % 10 == 0 then Normal(Reading(r.negative, r.coefficient / 10, r.scale + 1))
    else r
  }

  /** Every finite double is written as decimal digits. Nothing is asked of the reader. */
  ghost predicate WritesDigits(d: Doubles) {
    forall bits: Long :: IsFinite(bits) ==> Digits(WithoutPoints(d.mantissa(bits)))
  }

  /** What the reader makes of the digits of a double. */
  function Reread(d: Doubles, bits: Long): Long {
    if Digits(WithoutPoints(d.mantissa(bits)))
    then d.nearest(Normal(Source(bits < 0, d.mantissa(bits), d.exponent(bits))))
    else bits
  }

  /** The reader gives every finite double back from its own digits, as a correctly rounding one does. */
  ghost predicate Faithful(d: Doubles) {
    WritesDigits(d) && forall bits: Long :: IsFinite(bits) ==> Reread(d, bits) == bits
  }

  // ---------------------------------------------------------------- the wire form

  const KIND: Text := [107, 105, 110, 100]
  const VALUE: Text := [118, 97, 108, 117, 101]

  datatype Kind = BoolKind | IntegerKind | UnsignedKind | FloatKind | StringKind | ListKind | SetKind | MapKind

  function KindOf(v: V.Value): Kind {
    match v
    case Bool(_) => BoolKind
    case Integer(_) => IntegerKind
    case Unsigned64(_) => UnsignedKind
    case Float(_) => FloatKind
    case String(_) => StringKind
    case List(_) => ListKind
    case Set(_) => SetKind
    case Map(_) => MapKind
  }

  /** "bool", "integer", "unsigned", "float", "string", "list", "set", "map". */
  function NameOf(k: Kind): Text {
    match k
    case BoolKind => [98, 111, 111, 108]
    case IntegerKind => [105, 110, 116, 101, 103, 101, 114]
    case UnsignedKind => [117, 110, 115, 105, 103, 110, 101, 100]
    case FloatKind => [102, 108, 111, 97, 116]
    case StringKind => [115, 116, 114, 105, 110, 103]
    case ListKind => [108, 105, 115, 116]
    case SetKind => [115, 101, 116]
    case MapKind => [109, 97, 112]
  }

  function KindName(v: V.Value): Text { NameOf(KindOf(v)) }

  function SignedDecimal(n: int): Text {
    if n < 0 then [MINUS] + Decimal(-n) else Decimal(n)
  }

  function FloatToken(d: Doubles, bits: Long): Text {
    FormatFloat(bits < 0, d.mantissa(bits), d.exponent(bits))
  }

  function ToJson(d: Doubles, v: V.Value): Json
    decreases v, 1
  {
    Obj([Member(KIND, Str(KindName(v))), Member(VALUE, Payload(d, v))])
  }

  function Payload(d: Doubles, v: V.Value): Json
    decreases v, 0
  {
    match v
    case Bool(flag) => Boolean(flag)
    case Integer(n) => Num(SignedDecimal(n))
    case Unsigned64(n) => Num(SignedDecimal(n))
    case Float(bits) => if IsFinite(bits) then Num(FloatToken(d, bits)) else Null
    case String(text) => Str(text)
    case List(items) => Arr(ItemsToJson(d, items))
    case Set(items) => Arr(ItemsToJson(d, items))
    case Map(entries) => Obj(EntriesToJson(d, entries))
  }

  function ItemsToJson(d: Doubles, items: seq<V.Value>): (r: seq<Json>)
    ensures |r| == |items| && forall i | 0 <= i < |items| :: r[i] == ToJson(d, items[i])
    decreases items
  {
    seq(|items|, i requires 0 <= i < |items| => ToJson(d, items[i]))
  }

  function EntriesToJson(d: Doubles, entries: seq<V.Entry>): (r: seq<Member>)
    ensures && |r| == |entries|
            && forall i | 0 <= i < |entries| :: r[i] == Member(entries[i].key, ToJson(d, entries[i].value))
    decreases entries
  {
    seq(|entries|, i requires 0 <= i < |entries| => Member(entries[i].key, ToJson(d, entries[i].value)))
  }

  // ---------------------------------------------------------------- the writer

  lemma Joined(a: Text, b: Text, c: Text, d: Text)
    ensures a + b + c + d == a + (b + c + d)
  {
  }

  /** The tag that precedes every payload. */
  function Tag(kind: Text): Text {
    [OPEN_BRACE] + Quoted(KIND) + [COLON] + Quoted(kind) + [COMMA] + Quoted(VALUE) + [COLON]
  }

  lemma TaggedPrint(kind: Text, payload: Json)
    ensures Print(Obj([Member(KIND, Str(kind)), Member(VALUE, payload)])) == Tag(kind) + Print(payload) + [CLOSE_BRACE]
  {
    var first, second := Member(KIND, Str(kind)), Member(VALUE, payload);
    MemberText(first);
    MemberText(second);
    assert Print(Str(kind)) == Quoted(kind);
    ObjectText([first, second]);
    hide Print, PrintMember, PrintMembers, Quoted;
    TwoMembers(first, second);
    TagGroups(Quoted(KIND), Quoted(kind), Quoted(VALUE), Print(payload));
  }

  lemma ObjectText(members: seq<Member>)
    ensures Print(Obj(members)) == [OPEN_BRACE] + PrintMembers(members) + [CLOSE_BRACE]
  {
  }

  lemma TwoMembers(first: Member, second: Member)
    ensures PrintMembers([first, second]) == PrintMember(first) + [COMMA] + PrintMember(second)
  {
    hide PrintMember, PrintMembers;
    PrintMembersLast([], first);
    PrintMembersLast([first], second);
    PrintMembersNone();
    assert [] + [first] == [first] && [first] + [second] == [first, second];
  }

  lemma TagGroups(a: Text, b: Text, c: Text, p: Text)
    ensures [OPEN_BRACE] + ((a + [COLON] + b) + [COMMA] + (c + [COLON] + p)) + [CLOSE_BRACE]
            == ([OPEN_BRACE] + a + [COLON] + b + [COMMA] + c + [COLON]) + p + [CLOSE_BRACE]
  {
  }

  /** Drives the text: the same as printing the tagged form, after the comma the flags call for. */
  method WriteValue(writer: Writer, d: Doubles, v: V.Value)
    modifies writer
    ensures writer.Complete(old(writer.text + writer.Pending()) + Print(ToJson(d, v)))
    decreases v, 1
  {
    hide Print, Quoted, Payload;
    ghost var before := writer.text + writer.Pending();
    writer.WriteStartObject();
    writer.WritePropertyName(KIND);
    writer.WriteStringValue(KindName(v));
    writer.WritePropertyName(VALUE);
    assert writer.text == before + Tag(KindName(v)) && writer.afterProperty;
    WritePayload(writer, d, v);
    writer.WriteEndObject();
    TaggedPrint(KindName(v), Payload(d, v));
    Joined(before, Tag(KindName(v)), Print(Payload(d, v)), [CLOSE_BRACE]);
  }

  method WritePayload(writer: Writer, d: Doubles, v: V.Value)
    modifies writer
    ensures writer.Complete(old(writer.text + writer.Pending()) + Print(Payload(d, v)))
    decreases v, 0
  {
    hide ItemsToJson, EntriesToJson, ToJson, Quoted, PrintItems, PrintMembers, FloatToken, SignedDecimal, IsFinite;
    match v {
      case Bool(flag) => writer.WriteRawValue(if flag then TRUE else FALSE);
      case Integer(n) => writer.WriteRawValue(SignedDecimal(n));
      case Unsigned64(n) => writer.WriteRawValue(SignedDecimal(n));
      case Float(bits) => writer.WriteRawValue(if IsFinite(bits) then FloatToken(d, bits) else NULL);
      case String(text) => writer.WriteStringValue(text);
      case List(items) => WriteItems(writer, d, items);
      case Set(items) => WriteItems(writer, d, items);
      case Map(entries) => WriteEntries(writer, d, entries);
    }
  }

  method WriteItems(writer: Writer, d: Doubles, items: seq<V.Value>)
    modifies writer
    ensures writer.Complete(old(writer.text + writer.Pending()) + Print(Arr(ItemsToJson(d, items))))
    decreases items
  {
    ghost var before, all := writer.text + writer.Pending(), ItemsToJson(d, items);
    assert Print(Arr(all)) == [OPEN_BRACKET] + PrintItems(all) + [CLOSE_BRACKET];
    PrintItemsNone();
    hide Print, PrintItems, ToJson, ItemsToJson;
    writer.WriteStartArray();
    ghost var start := before + [OPEN_BRACKET];
    for i := 0 to |items|
      invariant writer.text == start + PrintItems(all[..i]) && !writer.afterProperty
      invariant writer.needsComma <==> i > 0
    {
      PrintItemsNext(all, i);
      Joined(start, PrintItems(all[..i]), Separator(i), Print(all[i]));
      WriteValue(writer, d, items[i]);
    }
    assert all[..|items|] == all;
    writer.WriteEndArray();
    Joined(before, [OPEN_BRACKET], PrintItems(all), [CLOSE_BRACKET]);
  }

  method WriteEntries(writer: Writer, d: Doubles, entries: seq<V.Entry>)
    modifies writer
    ensures writer.Complete(old(writer.text + writer.Pending()) + Print(Obj(EntriesToJson(d, entries))))
    decreases entries
  {
    hide Print, PrintMembers, PrintMember, ToJson, EntriesToJson, Quoted;
    ghost var before, all := writer.text + writer.Pending(), EntriesToJson(d, entries);
    ObjectText(all);
    PrintMembersNone();
    writer.WriteStartObject();
    ghost var start := before + [OPEN_BRACE];
    for i := 0 to |entries|
      invariant writer.text == start + PrintMembers(all[..i]) && !writer.afterProperty
      invariant writer.needsComma <==> i > 0
    {
      PrintMembersNext(all, i);
      Joined(start, PrintMembers(all[..i]), Separator(i), PrintMember(all[i]));
      writer.WritePropertyName(entries[i].key);
      assert writer.text + writer.Pending()
             == start + PrintMembers(all[..i]) + Separator(i) + Quoted(all[i].name) + [COLON];
      WriteValue(writer, d, entries[i].value);
      MemberJoins(start + PrintMembers(all[..i]) + Separator(i), all[i]);
    }
    assert all[..|entries|] == all;
    writer.WriteEndObject();
    Joined(before, [OPEN_BRACE], PrintMembers(all), [CLOSE_BRACE]);
  }

  lemma MemberText(m: Member)
    ensures PrintMember(m) == Quoted(m.name) + [COLON] + Print(m.value)
  {
  }

  lemma MemberJoins(before: Text, m: Member)
    ensures before + Quoted(m.name) + [COLON] + Print(m.value) == before + PrintMember(m)
  {
    MemberText(m);
    hide PrintMember, Print, Quoted;
  }
}
