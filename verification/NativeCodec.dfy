/**
  The projection of native Rust values to semantic values, and the decoders that build them back.

  A native set is listed in the order of its projections, so that two equal sets have one listing;
  `NativeSetOrder` shows that the order the source iterates in makes no difference.
 */
module NativeCodec {
  import opened Wrappers
  import opened Utf8Order
  import V = Values
  import VC = ValueCollections
  import FO = FloatOrder
  import W = WireFormat

  /** The types both directions support. */
  datatype Type =
    | TString | TBool | TI32 | TI64 | TU32 | TU64 | TF32 | TF64 | TUnit
    | TVec(item: Type)
    | TOption(item: Type)
    | TTuple(fields: seq<Type>)
    | TSet(item: Type)
    | TMap(item: Type)

  /** The 32 bits of an `f32`. */
  type Word = x: int | 0 <= x < TWO_32

  /**
    The platform's conversions between `f32` and `f64`, bit for bit. Nothing is asked of them; narrowing what was
    widened need not give a NaN back.
   */
  datatype Singles = Singles(widen: Word -> FO.Long, narrow: FO.Long -> Word)

  /** `Whole` holds an `i32`, `i64` or `u32`, `Large` a `u64`. */
  datatype Native =
    | Str(text: Text)
    | Flag(flag: bool)
    | Whole(number: FO.Long)
    | Large(size: V.ULong)
    | Single(word: Word)
    | Double(bits: FO.Long)
    | Unit
    | Vector(items: seq<Native>)
    | Present(item: Native)
    | Absent
    | Tuple(items: seq<Native>)
    | Collection(items: seq<Native>)
    | Table(rows: seq<Row>)

  datatype Row = Row(key: Text, value: Native)

  const SOME: Text := [83, 111, 109, 101]
  const NONE: Text := [78, 111, 110, 101]

  // The tags the decoder asks for.
  const SOME_TAG := Literal("Some")
  const NONE_TAG := Literal("None")

  lemma SameTags()
    ensures SOME == SOME_TAG && NONE == NONE_TAG && SOME != NONE
  {
    assert forall i | 0 <= i < 4 :: SOME[i] == SOME_TAG[i] && NONE[i] == NONE_TAG[i];
  }

  const TWO_31 := 0x8000_0000
  const TWO_32 := 0x1_0000_0000

  lemma WidthsAreExact()
    ensures TWO_31 + TWO_31 == TWO_32 && TWO_32 * TWO_32 == FO.TWO_64 && FO.TWO_63 + FO.TWO_63 == FO.TWO_64
  {
  }

  // ---------------------------------------------------------------- projection

  /** Two neighbours are equal. */
  predicate Repeats(s: seq<V.Value>) {
    exists i | 0 <= i < |s| :: i + 1 < |s| && s[i] == s[i + 1]
  }

  /** Sorts, and keeps a list when two projections collide. */
  function NativeSet(values: seq<V.Value>): V.Value {
    var sorted := VC.Sort(values);
    if Repeats(sorted) then V.List(sorted) else V.Set(sorted)
  }

  function ToNativeValue(c: Singles, x: Native): V.Value
    decreases x
  {
    match x
    case Str(text) => V.String(text)
    case Flag(flag) => V.Bool(flag)
    case Whole(n) => V.Integer(n)
    case Large(n) => V.Unsigned64(n)
    case Single(word) => V.Float(c.widen(word))
    case Double(bits) => V.Float(bits)
    case Unit => V.Map([])
    case Vector(items) => V.List(ProjectAll(c, items))
    case Present(item) => V.Map([V.Entry(SOME, ToNativeValue(c, item))])
    case Absent => V.Map([V.Entry(NONE, V.Map([]))])
    case Tuple(items) => V.List(ProjectAll(c, items))
    case Collection(items) => NativeSet(ProjectAll(c, items))
    case Table(rows) => V.Map(ProjectRows(c, rows))
  }

  function ProjectAll(c: Singles, items: seq<Native>): (r: seq<V.Value>)
    ensures |r| == |items| && forall i | 0 <= i < |items| :: r[i] == ToNativeValue(c, items[i])
    decreases items
  {
    seq(|items|, i requires 0 <= i < |items| => ToNativeValue(c, items[i]))
  }

  function ProjectRows(c: Singles, rows: seq<Row>): (r: seq<V.Entry>)
    ensures |r| == |rows| && forall i | 0 <= i < |rows| :: r[i] == V.Entry(rows[i].key, ToNativeValue(c, rows[i].value))
    decreases rows
  {
    seq(|rows|, i requires 0 <= i < |rows| => V.Entry(rows[i].key, ToNativeValue(c, rows[i].value)))
  }

  ghost predicate RowsAscending(rows: seq<Row>) {
    forall i, j | 0 <= i < j < |rows| :: Order(rows[i].key, rows[j].key) < 0
  }

  /** The values of a type. A set holds pairwise different elements, listed by projection; a map its keys in order. */
  ghost predicate HasType(c: Singles, t: Type, x: Native)
    decreases x
  {
    match x
    case Str(_) => t == TString
    case Flag(_) => t == TBool
    case Whole(n) => t == TI64 || (t == TI32 && -TWO_31 <= n < TWO_31) || (t == TU32 && 0 <= n < TWO_32)
    case Large(_) => t == TU64
    case Single(_) => t == TF32
    case Double(_) => t == TF64
    case Unit => t == TUnit
    case Vector(items) => t.TVec? && forall i | 0 <= i < |items| :: HasType(c, t.item, items[i])
    case Present(item) => t.TOption? && HasType(c, t.item, item)
    case Absent => t.TOption?
    case Tuple(items) =>
      t.TTuple? && |t.fields| == |items| && forall i | 0 <= i < |items| :: HasType(c, t.fields[i], items[i])
    case Collection(items) =>
      && t.TSet? && (forall i | 0 <= i < |items| :: HasType(c, t.item, items[i]))
      && (forall i, j | 0 <= i < j < |items| :: items[i] != items[j])
      && VC.Ascending(ProjectAll(c, items))
    case Table(rows) =>
      t.TMap? && RowsAscending(rows) && forall i | 0 <= i < |rows| :: HasType(c, t.item, rows[i].value)
  }

  /** Every `f32` in the value survives widening and narrowing. */
  ghost predicate Exact(c: Singles, x: Native)
    decreases x
  {
    match x
    case Single(word) => c.narrow(c.widen(word)) == word
    case Vector(items) => forall i | 0 <= i < |items| :: Exact(c, items[i])
    case Present(item) => Exact(c, item)
    case Tuple(items) => forall i | 0 <= i < |items| :: Exact(c, items[i])
    case Collection(items) => forall i | 0 <= i < |items| :: Exact(c, items[i])
    case Table(rows) => forall i | 0 <= i < |rows| :: Exact(c, rows[i].value)
    case _ => true
  }

  // ---------------------------------------------------------------- decoding

  function Decode(c: Singles, t: Type, v: V.Value): Option<Native>
    decreases v, 1
  {
    match t
    case TString => if v.String? then Some(Str(v.text)) else None
    case TBool => if v.Bool? then Some(Flag(v.flag)) else None
    case TI32 => if v.Integer? && -TWO_31 <= v.signed < TWO_31 then Some(Whole(v.signed)) else None
    case TI64 => if v.Integer? then Some(Whole(v.signed)) else None
    case TU32 => if v.Integer? && 0 <= v.signed < TWO_32 then Some(Whole(v.signed)) else None
    case TU64 => if v.Unsigned64? then Some(Large(v.unsigned)) else None
    case TF32 => if v.Float? && c.widen(c.narrow(v.bits)) == v.bits then Some(Single(c.narrow(v.bits))) else None
    case TF64 => if v.Float? then Some(Double(v.bits)) else None
    case TUnit => if v == V.Map([]) then Some(Unit) else None
    case TVec(item) =>
      if v.List? then WrapItems(DecodeAll(c, item, v.items), (items: seq<Native>) => Vector(items)) else None
    case TOption(item) => if v.Map? then DecodeOption(c, item, v.entries) else None
    case TTuple(fields) =>
      if v.List? then WrapItems(DecodeFields(c, fields, v.items), (items: seq<Native>) => Tuple(items)) else None
    case TSet(item) =>
      if v.Set? then WrapItems(DecodeSet(c, item, v.items), (items: seq<Native>) => Collection(items)) else None
    case TMap(item) =>
      if !v.Map? then None
      else
        var rows := DecodeRows(c, item, v.entries);
        if rows.None? then None else Some(Table(rows.value))
  }

  function WrapItems(items: Option<seq<Native>>, wrap: seq<Native> -> Native): Option<Native> {
    if items.None? then None else Some(wrap(items.value))
  }

  function DecodeAll(c: Singles, t: Type, items: seq<V.Value>): Option<seq<Native>>
    decreases items
  {
    if items == [] then Some([])
    else
      var init, last := DecodeAll(c, t, items[..|items| - 1]), Decode(c, t, items[|items| - 1]);
      if init.None? || last.None? then None else Some(init.value + [last.value])
  }

  /** Exactly one entry, tagged `Some` or, around a unit, `None`. */
  function DecodeOption(c: Singles, t: Type, entries: seq<V.Entry>): Option<Native>
    decreases entries
  {
    if |entries| != 1 then None
    else if entries[0].key == SOME_TAG then
      var item := Decode(c, t, entries[0].value);
      if item.None? then None else Some(Present(item.value))
    else if entries[0].key == NONE_TAG && entries[0].value == V.Map([]) then Some(Absent)
    else None
  }

  /** One value for each field, and none left over. */
  function DecodeFields(c: Singles, ts: seq<Type>, items: seq<V.Value>): Option<seq<Native>>
    decreases items
  {
    if ts == [] then if items == [] then Some([]) else None
    else if items == [] then None
    else
      var init := DecodeFields(c, ts[..|ts| - 1], items[..|items| - 1]);
      var last := Decode(c, ts[|ts| - 1], items[|items| - 1]);
      if init.None? || last.None? then None else Some(init.value + [last.value])
  }

  /** Inserts one element after another, and stops at a repeated one. */
  function DecodeSet(c: Singles, t: Type, items: seq<V.Value>): Option<seq<Native>>
    decreases items
  {
    if items == [] then Some([])
    else
      var init, last := DecodeSet(c, t, items[..|items| - 1]), Decode(c, t, items[|items| - 1]);
      if init.None? || last.None? || last.value in init.value then None else Some(init.value + [last.value])
  }

  function DecodeRows(c: Singles, t: Type, entries: seq<V.Entry>): Option<seq<Row>>
    decreases entries
  {
    if entries == [] then Some([])
    else
      var init, last := DecodeRows(c, t, entries[..|entries| - 1]), Decode(c, t, entries[|entries| - 1].value);
      if init.None? || last.None? then None else Some(init.value + [Row(entries[|entries| - 1].key, last.value)])
  }

  // ---------------------------------------------------------------- projecting, then decoding

  lemma ProjectLast(c: Singles, items: seq<Native>)
    requires items != []
    ensures var n := |items| - 1;
            && ProjectAll(c, items)[..n] == ProjectAll(c, items[..n])
            && ProjectAll(c, items)[n] == ToNativeValue(c, items[n])
  {
    hide ToNativeValue, ProjectAll;
  }

  lemma RowsLast(c: Singles, rows: seq<Row>)
    requires rows != []
    ensures var n := |rows| - 1;
            && ProjectRows(c, rows)[..n] == ProjectRows(c, rows[..n])
            && ProjectRows(c, rows)[n] == V.Entry(rows[n].key, ToNativeValue(c, rows[n].value))
  {
    hide ToNativeValue, ProjectRows;
  }

  lemma ProjectAppended(c: Singles, items: seq<Native>, x: Native)
    ensures ProjectAll(c, items + [x]) == ProjectAll(c, items) + [ToNativeValue(c, x)]
  {
    hide ToNativeValue, ProjectAll;
  }

  lemma RowsAppended(c: Singles, rows: seq<Row>, row: Row)
    ensures ProjectRows(c, rows + [row]) == ProjectRows(c, rows) + [V.Entry(row.key, ToNativeValue(c, row.value))]
  {
    hide ToNativeValue, ProjectRows;
  }

  /** Decoding undoes projecting where narrowing undoes widening. */
  lemma {:induction false} ExactUndone(c: Singles, t: Type, x: Native)
    requires HasType(c, t, x) && Exact(c, x)
    ensures Decode(c, t, ToNativeValue(c, x)) == Some(x)
    decreases x, 1
  {
    hide Decode, ToNativeValue;
    match x {
      case Vector(items) =>
        VectorUndone(c, t.item, items);
        VectorCase(c, t, items);
      case Present(item) =>
        ExactUndone(c, t.item, item);
        PresentCase(c, t, item);
      case Tuple(items) =>
        FieldsUndone(c, t.fields, items);
        TupleCase(c, t, items);
      case Collection(items) =>
        SetUndone(c, t.item, items);
        SetIsSet(c, t.item, items);
        SetCase(c, t, items);
      case Table(rows) =>
        RowsUndone(c, t.item, rows);
        TableCase(c, t, rows);
      case _ => ScalarCase(c, t, x);
    }
  }

  lemma ScalarCase(c: Singles, t: Type, x: Native)
    requires HasType(c, t, x) && Exact(c, x) && !x.Vector? && !x.Present? && !x.Tuple? && !x.Collection? && !x.Table?
    ensures Decode(c, t, ToNativeValue(c, x)) == Some(x)
  {
    SameTags();
  }

  lemma VectorCase(c: Singles, t: Type, items: seq<Native>)
    requires t.TVec? && DecodeAll(c, t.item, ProjectAll(c, items)) == Some(items)
    ensures Decode(c, t, ToNativeValue(c, Vector(items))) == Some(Vector(items))
  {
    hide DecodeAll, ProjectAll;
  }

  lemma PresentCase(c: Singles, t: Type, item: Native)
    requires t.TOption? && Decode(c, t.item, ToNativeValue(c, item)) == Some(item)
    ensures Decode(c, t, ToNativeValue(c, Present(item))) == Some(Present(item))
  {
    SameTags();
    var v := ToNativeValue(c, item);
    assert ToNativeValue(c, Present(item)) == V.Map([V.Entry(SOME, v)]);
    assert DecodeOption(c, t.item, [V.Entry(SOME, v)]) == Some(Present(item)) by {
      hide Decode, ToNativeValue;
    }
  }

  lemma TupleCase(c: Singles, t: Type, items: seq<Native>)
    requires t.TTuple? && DecodeFields(c, t.fields, ProjectAll(c, items)) == Some(items)
    ensures Decode(c, t, ToNativeValue(c, Tuple(items))) == Some(Tuple(items))
  {
    hide DecodeFields, ProjectAll;
  }

  lemma SetCase(c: Singles, t: Type, items: seq<Native>)
    requires t.TSet? && DecodeSet(c, t.item, ProjectAll(c, items)) == Some(items)
    requires NativeSet(ProjectAll(c, items)) == V.Set(ProjectAll(c, items))
    ensures Decode(c, t, ToNativeValue(c, Collection(items))) == Some(Collection(items))
  {
    hide DecodeSet, ProjectAll, NativeSet;
  }

  lemma TableCase(c: Singles, t: Type, rows: seq<Row>)
    requires t.TMap? && DecodeRows(c, t.item, ProjectRows(c, rows)) == Some(rows)
    ensures Decode(c, t, ToNativeValue(c, Table(rows))) == Some(Table(rows))
  {
    hide DecodeRows, ProjectRows;
  }

  lemma {:induction false} VectorUndone(c: Singles, t: Type, items: seq<Native>)
    requires forall i | 0 <= i < |items| :: HasType(c, t, items[i]) && Exact(c, items[i])
    ensures DecodeAll(c, t, ProjectAll(c, items)) == Some(items)
    decreases items, 0
  {
    hide HasType, Exact, Decode, ToNativeValue;
    if items != [] {
      var n := |items| - 1;
      ProjectLast(c, items);
      ExactUndone(c, t, items[n]);
      VectorUndone(c, t, items[..n]);
      assert items == items[..n] + [items[n]];
    }
  }

  lemma {:induction false} FieldsUndone(c: Singles, ts: seq<Type>, items: seq<Native>)
    requires |ts| == |items| && forall i | 0 <= i < |items| :: HasType(c, ts[i], items[i]) && Exact(c, items[i])
    ensures DecodeFields(c, ts, ProjectAll(c, items)) == Some(items)
    decreases items, 0
  {
    hide HasType, Exact, Decode, ToNativeValue;
    if items != [] {
      var n := |items| - 1;
      ProjectLast(c, items);
      ExactUndone(c, ts[n], items[n]);
      FieldsUndone(c, ts[..n], items[..n]);
      assert items == items[..n] + [items[n]];
    }
  }

  lemma {:induction false} SetUndone(c: Singles, t: Type, items: seq<Native>)
    requires forall i | 0 <= i < |items| :: HasType(c, t, items[i]) && Exact(c, items[i])
    requires forall i, j | 0 <= i < j < |items| :: items[i] != items[j]
    ensures DecodeSet(c, t, ProjectAll(c, items)) == Some(items)
    decreases items, 0
  {
    hide HasType, Exact, Decode, ToNativeValue, ProjectAll;
    if items != [] {
      var n := |items| - 1;
      ProjectLast(c, items);
      ExactUndone(c, t, items[n]);
      SetUndone(c, t, items[..n]);
      assert items[n] !in items[..n] && items == items[..n] + [items[n]];
    }
  }

  lemma {:induction false} RowsUndone(c: Singles, t: Type, rows: seq<Row>)
    requires forall i | 0 <= i < |rows| :: HasType(c, t, rows[i].value) && Exact(c, rows[i].value)
    ensures DecodeRows(c, t, ProjectRows(c, rows)) == Some(rows)
    decreases rows, 0
  {
    hide HasType, Exact, Decode, ToNativeValue;
    if rows != [] {
      var n := |rows| - 1;
      RowsLast(c, rows);
      ExactUndone(c, t, rows[n].value);
      RowsUndone(c, t, rows[..n]);
      assert rows == rows[..n] + [rows[n]];
    }
  }

  /** Different elements have different projections, so a set is projected to a set and never falls back to a list. */
  lemma {:induction false} SetIsSet(c: Singles, t: Type, items: seq<Native>)
    requires forall i | 0 <= i < |items| :: HasType(c, t, items[i]) && Exact(c, items[i])
    requires (forall i, j | 0 <= i < j < |items| :: items[i] != items[j]) && VC.Ascending(ProjectAll(c, items))
    ensures NativeSet(ProjectAll(c, items)) == V.Set(ProjectAll(c, items)) && VC.StrictlyAscending(ProjectAll(c, items))
    decreases items, 0
  {
    hide HasType, Exact, Decode, ToNativeValue, V.Compare;
    var values := ProjectAll(c, items);
    VC.SortingIsUnique(VC.Sort(values), values);
    forall i, j | 0 <= i < j < |values|
      ensures values[i] != values[j] && V.Compare(values[i], values[j]) < 0
    {
      ExactUndone(c, t, items[i]);
      ExactUndone(c, t, items[j]);
      V.CompareTotal(values[i], values[j]);
    }
    assert !Repeats(values);
  }

  /** The order in which a set is iterated makes no difference to its projection. */
  lemma NativeSetOrder(a: seq<V.Value>, b: seq<V.Value>)
    requires multiset(a) == multiset(b)
    ensures NativeSet(a) == NativeSet(b)
  {
    VC.SortingIsUnique(VC.Sort(a), VC.Sort(b));
  }

  /** Without repeated neighbours a sorted sequence is strictly ascending. */
  lemma NoRepeats(s: seq<V.Value>)
    requires VC.Ascending(s) && !Repeats(s)
    ensures VC.StrictlyAscending(s)
  {
    hide V.Compare;
    forall i, j | 0 <= i < j < |s|
      ensures V.Compare(s[i], s[j]) < 0
    {
      assert s[i] != s[i + 1];
      V.CompareTotal(s[i], s[i + 1]);
      if i + 1 < j {
        V.CompareTransitive(s[i], s[i + 1], s[j]);
      }
    }
  }

  /** A native set is canonical when its elements are, whether or not it falls back to a list. */
  lemma NativeSetIsCanonical(values: seq<V.Value>)
    requires forall v <- values :: W.Canonical(v)
    ensures W.Canonical(NativeSet(values))
  {
    var sorted := VC.Sort(values);
    VC.SortKeepsElements(values);
    if !Repeats(sorted) {
      NoRepeats(sorted);
    }
  }

  /** Every projection is canonical, and so within the premises of the wire form. */
  lemma {:induction false} ProjectionIsCanonical(c: Singles, t: Type, x: Native)
    requires HasType(c, t, x)
    ensures W.Canonical(ToNativeValue(c, x))
    decreases x
  {
    match x {
      case Vector(items) =>
        forall i | 0 <= i < |items| ensures W.Canonical(ToNativeValue(c, items[i])) {
          ProjectionIsCanonical(c, t.item, items[i]);
        }
      case Present(item) => ProjectionIsCanonical(c, t.item, item);
      case Tuple(items) =>
        forall i | 0 <= i < |items| ensures W.Canonical(ToNativeValue(c, items[i])) {
          ProjectionIsCanonical(c, t.fields[i], items[i]);
        }
      case Collection(items) =>
        forall i | 0 <= i < |items| ensures W.Canonical(ToNativeValue(c, items[i])) {
          ProjectionIsCanonical(c, t.item, items[i]);
        }
        NativeSetIsCanonical(ProjectAll(c, items));
      case Table(rows) =>
        forall i | 0 <= i < |rows| ensures W.Canonical(ToNativeValue(c, rows[i].value)) {
          ProjectionIsCanonical(c, t.item, rows[i].value);
        }
      case _ =>
    }
  }

  // ---------------------------------------------------------------- decoding, then projecting

  /** Whatever a decoder accepts, projecting the result gives that same value back. */
  lemma {:induction false} ProjectUndoesDecode(c: Singles, t: Type, v: V.Value)
    requires W.Canonical(v) && Decode(c, t, v).Some?
    ensures HasType(c, t, Decode(c, t, v).value) && Exact(c, Decode(c, t, v).value)
    ensures ToNativeValue(c, Decode(c, t, v).value) == v
    decreases v, 1
  {
    SameTags();
    match t {
      case TVec(item) => AllRestored(c, item, v.items);
      case TOption(item) => if v.entries[0].key == SOME_TAG { ProjectUndoesDecode(c, item, v.entries[0].value); }
      case TTuple(fields) => FieldsRestored(c, fields, v.items);
      case TSet(item) => SetRestored(c, item, v.items);
      case TMap(item) => RowsRestored(c, item, v.entries);
      case _ =>
    }
  }

  lemma {:induction false} AllRestored(c: Singles, t: Type, items: seq<V.Value>)
    requires (forall i | 0 <= i < |items| :: W.Canonical(items[i])) && DecodeAll(c, t, items).Some?
    ensures var r := DecodeAll(c, t, items).value;
            ProjectAll(c, r) == items && forall i | 0 <= i < |r| :: HasType(c, t, r[i]) && Exact(c, r[i])
    decreases items, 0
  {
    hide HasType, Exact, Decode, ToNativeValue, W.Canonical, ProjectAll;
    if items != [] {
      var n := |items| - 1;
      AllRestored(c, t, items[..n]);
      ProjectUndoesDecode(c, t, items[n]);
      ProjectAppended(c, DecodeAll(c, t, items[..n]).value, Decode(c, t, items[n]).value);
      assert items == items[..n] + [items[n]];
    }
  }

  lemma {:induction false} FieldsRestored(c: Singles, ts: seq<Type>, items: seq<V.Value>)
    requires (forall i | 0 <= i < |items| :: W.Canonical(items[i])) && DecodeFields(c, ts, items).Some?
    ensures var r := DecodeFields(c, ts, items).value;
            && ProjectAll(c, r) == items && |r| == |ts|
            && forall i | 0 <= i < |r| :: HasType(c, ts[i], r[i]) && Exact(c, r[i])
    decreases items, 0
  {
    hide HasType, Exact, Decode, ToNativeValue, W.Canonical, ProjectAll;
    if items != [] && ts != [] {
      var n, k := |items| - 1, |ts| - 1;
      FieldsRestored(c, ts[..k], items[..n]);
      ProjectUndoesDecode(c, ts[k], items[n]);
      ProjectAppended(c, DecodeFields(c, ts[..k], items[..n]).value, Decode(c, ts[k], items[n]).value);
      assert items == items[..n] + [items[n]];
    }
  }

  lemma {:induction false} ElementsRestored(c: Singles, t: Type, items: seq<V.Value>)
    requires (forall i | 0 <= i < |items| :: W.Canonical(items[i])) && DecodeSet(c, t, items).Some?
    ensures var r := DecodeSet(c, t, items).value;
            && ProjectAll(c, r) == items
            && (forall i | 0 <= i < |r| :: HasType(c, t, r[i]) && Exact(c, r[i]))
            && forall i, j | 0 <= i < j < |r| :: r[i] != r[j]
    decreases items, 0
  {
    hide HasType, Exact, Decode, ToNativeValue, W.Canonical, ProjectAll;
    if items != [] {
      var n := |items| - 1;
      ElementsRestored(c, t, items[..n]);
      ProjectUndoesDecode(c, t, items[n]);
      ProjectAppended(c, DecodeSet(c, t, items[..n]).value, Decode(c, t, items[n]).value);
      assert items == items[..n] + [items[n]];
    }
  }

  lemma {:induction false} SetRestored(c: Singles, t: Type, items: seq<V.Value>)
    requires && VC.StrictlyAscending(items)
             && (forall i | 0 <= i < |items| :: W.Canonical(items[i]))
             && DecodeSet(c, t, items).Some?
    ensures var x := Collection(DecodeSet(c, t, items).value);
            HasType(c, TSet(t), x) && Exact(c, x) && ToNativeValue(c, x) == V.Set(items)
    decreases items, 1
  {
    ElementsRestored(c, t, items);
    SetIsSet(c, t, DecodeSet(c, t, items).value);
  }

  lemma {:induction false} RowsRestored(c: Singles, t: Type, entries: seq<V.Entry>)
    requires && VC.KeysAscending(entries)
             && (forall i | 0 <= i < |entries| :: W.Canonical(entries[i].value))
             && DecodeRows(c, t, entries).Some?
    ensures var r := DecodeRows(c, t, entries).value;
            && ProjectRows(c, r) == entries && RowsAscending(r)
            && forall i | 0 <= i < |r| :: HasType(c, t, r[i].value) && Exact(c, r[i].value)
    decreases entries, 0
  {
    hide HasType, Exact, Decode, ToNativeValue, W.Canonical, ProjectRows;
    if entries != [] {
      var n := |entries| - 1;
      RowsRestored(c, t, entries[..n]);
      ProjectUndoesDecode(c, t, entries[n].value);
      var init, last := DecodeRows(c, t, entries[..n]).value, Row(entries[n].key, Decode(c, t, entries[n].value).value);
      RowsAppended(c, init, last);
      assert entries == entries[..n] + [entries[n]];
      SameKeys(c, init + [last], entries);
    }
  }

  lemma SameKeys(c: Singles, rows: seq<Row>, entries: seq<V.Entry>)
    requires ProjectRows(c, rows) == entries && VC.KeysAscending(entries)
    ensures RowsAscending(rows)
  {
    hide ProjectRows, Order;
    assert forall i | 0 <= i < |rows| :: rows[i].key == entries[i].key;
  }

  /**
    Decoding undoes projecting exactly for the values whose every `f32` survives widening and narrowing, and so for
    every value that holds no `f32`.
   */
  lemma DecodeUndoesProject(c: Singles, t: Type, x: Native)
    requires HasType(c, t, x)
    ensures Decode(c, t, ToNativeValue(c, x)) == Some(x) <==> Exact(c, x)
  {
    hide HasType, Exact, Decode, ToNativeValue, W.Canonical;
    if Exact(c, x) {
      ExactUndone(c, t, x);
    } else if Decode(c, t, ToNativeValue(c, x)) == Some(x) {
      ProjectionIsCanonical(c, t, x);
      ProjectUndoesDecode(c, t, ToNativeValue(c, x));
      assert false;
    }
  }

  /** A signalling NaN of 32 bits, and the quiet NaN with the same payload. */
  const SIGNALLING: Word := 0x7F80_0001
  const QUIET: Word := 0x7FC0_0001

  /** Where widening quiets a signalling NaN, one of the two does not come back. */
  lemma QuietedIsLost(c: Singles)
    requires c.widen(SIGNALLING) == c.widen(QUIET)
    ensures exists word: Word | word == SIGNALLING || word == QUIET ::
              HasType(c, TF32, Single(word)) && Decode(c, TF32, ToNativeValue(c, Single(word))) != Some(Single(word))
  {
    var lost: Word := if c.narrow(c.widen(QUIET)) == QUIET then SIGNALLING else QUIET;
    DecodeUndoesProject(c, TF32, Single(lost));
  }

  /** A decoder accepts exactly the projections of the exact values of its type. */
  lemma DecoderAcceptsExactlyProjections(c: Singles, t: Type, v: V.Value)
    requires W.Canonical(v)
    ensures Decode(c, t, v).Some? <==> exists x :: HasType(c, t, x) && Exact(c, x) && ToNativeValue(c, x) == v
  {
    hide HasType, Exact, Decode, ToNativeValue, W.Canonical;
    if Decode(c, t, v).Some? {
      ProjectUndoesDecode(c, t, v);
    }
    if x :| HasType(c, t, x) && Exact(c, x) && ToNativeValue(c, x) == v {
      ExactUndone(c, t, x);
    }
  }
}
