/**
  Canonical forms under recursive CTSC equality, and the collections that rely on them.

  `Canonicalize` maps a value of a declared type to a representative; `Equivalent` says
  directly when two values of that type are equal. The main result, `CanonicalDecides`,
  is that two values have the same canonical form exactly when they are equivalent.
 */
module SemanticEquality {
  import opened Utf8Order
  import FloatOrder
  import opened Values
  import opened ValueCollections

  type Name = nat

  /** The semantic type tree. `Entry_` is the element type of a map written as an entry list. */
  datatype Type =
    | Plain
    | Floating
    | Sequence(element: Type)
    | Bag(element: Type)
    | UniqueSet(element: Type)
    | OrderedSet(element: Type)
    | Tuple(first: Type, second: Type)
    | Group(first: Type, second: Type)
    | Optional(element: Type)
    | Outcome(ok: Type, err: Type)
    | Mapping(first: Type, second: Type)
    | OrderedMapping(first: Type, second: Type)
    | KeyValue(first: Type, second: Type)
    | Named(name: Name)

  datatype Member = Member(name: Text, ty: Type)

  /** An annotated CLR type: an enum, an abstract base with its variants, or a record. */
  datatype Declaration =
    | Enumeration
    | Union(variants: map<Text, Name>)
    | Record(members: seq<Member>)

  type Declarations = map<Name, Declaration>

  // The tags of the projection: "key", "value", "items", "None", "Err".
  const KEY: Text := [0x6B, 0x65, 0x79]
  const VALUE: Text := [0x76, 0x61, 0x6C, 0x75, 0x65]
  const ITEMS: Text := [0x69, 0x74, 0x65, 0x6D, 0x73]
  const NONE: Text := [0x4E, 0x6F, 0x6E, 0x65]
  const ERR: Text := [0x45, 0x72, 0x72]

  lemma TagsOfProjection()
    ensures KEY == Literal("key") && VALUE == Literal("value") && ITEMS == Literal("items")
    ensures NONE == Literal("None") && ERR == Literal("Err")
  {
  }

  /** The bits of `double.NaN` (0xFFF8000000000000). */
  const NAN: FloatOrder.Long := -0x8_0000_0000_0000

  /** The platform's quiet NaN: negative, with no payload. */
  lemma NanIsQuiet()
    ensures FloatOrder.IsNaN(NAN) && FloatOrder.IsQuiet(NAN) && FloatOrder.Negative(NAN)
    ensures FloatOrder.Payload(NAN) == 0
  {
  }

  // ---------------------------------------------------------------- well-typed values

  /** The shapes `Canonicalize` can read; anything else makes its accessors throw. */
  ghost predicate HasType(env: Declarations, t: Type, v: Value)
    decreases v, 1
  {
    match t
    case Plain => true
    case Floating => v.Float?
    case Sequence(e) => (v.List? || v.Set?) && HaveType(env, e, v.items)
    case Bag(e) => (v.List? || v.Set?) && HaveType(env, e, v.items)
    case UniqueSet(e) => (v.List? || v.Set?) && HaveType(env, e, v.items)
    case OrderedSet(e) => (v.List? || v.Set?) && HaveType(env, e, v.items)
    case Tuple(a, b) => v.List? && |v.items| == 2 && HasType(env, a, v.items[0]) && HasType(env, b, v.items[1])
    case Group(a, b) => HasFields(v, KEY, ITEMS) && HasType(env, a, Field(v, KEY)) && HasType(env, b, Field(v, ITEMS))
    case Optional(e) => Tagged(v) && (v.entries[0].key == NONE || HasType(env, e, v.entries[0].value))
    case Outcome(a, b) => Tagged(v) && HasType(env, if v.entries[0].key == ERR then b else a, v.entries[0].value)
    case Mapping(a, b) =>
      if v.Map? then KeysAscending(v.entries) && ValuesHaveType(env, b, v.entries)
      else v.List? && HaveType(env, KeyValue(a, b), v.items)
    case OrderedMapping(a, b) =>
      if v.Map? then KeysAscending(v.entries) && ValuesHaveType(env, b, v.entries)
      else v.List? && HaveType(env, KeyValue(a, b), v.items)
    case KeyValue(a, b) =>
      HasFields(v, KEY, VALUE) && HasType(env, a, Field(v, KEY)) && HasType(env, b, Field(v, VALUE))
    case Named(name) =>
      name in env &&
      match env[name]
      case Enumeration => true
      case Union(variants) =>
        Tagged(v) && v.entries[0].key in variants && HasType(env, Named(variants[v.entries[0].key]), v.entries[0].value)
      case Record(members) =>
        v.Map? && DistinctNames(members) &&
        forall i | 0 <= i < |members| ::
          HasKey(v.entries, members[i].name) && HasType(env, members[i].ty, Field(v, members[i].name))
  }

  ghost predicate Tagged(v: Value) { v.Map? && |v.entries| == 1 }

  ghost predicate DistinctNames(members: seq<Member>) {
    forall i, j | 0 <= i < j < |members| :: members[i].name != members[j].name
  }

  ghost predicate HasFields(v: Value, left: Text, right: Text) {
    v.Map? && HasKey(v.entries, left) && HasKey(v.entries, right)
  }

  function Field(v: Value, key: Text): Value
    requires v.Map? && HasKey(v.entries, key)
  {
    v.entries[Find(v.entries, key)].value
  }

  ghost predicate HaveType(env: Declarations, t: Type, vs: seq<Value>)
    decreases vs, 0
  {
    forall i | 0 <= i < |vs| :: HasType(env, t, vs[i])
  }

  ghost predicate ValuesHaveType(env: Declarations, t: Type, es: seq<Entry>)
    decreases es, 0
  {
    forall i | 0 <= i < |es| :: HasType(env, t, es[i].value)
  }

  // ---------------------------------------------------------------- canonical forms

  function Canonicalize(env: Declarations, t: Type, v: Value): Value
    requires HasType(env, t, v)
    decreases v, 1
  {
    match t
    case Plain => v
    case Floating => if FloatOrder.IsNaN(v.bits) then Float(NAN) else v
    case Sequence(e) => List(CanonicalizeAll(env, e, v.items))
    case Bag(e) => List(Sort(CanonicalizeAll(env, e, v.items)))
    case UniqueSet(e) => List(Sort(CanonicalizeAll(env, e, v.items)))
    case OrderedSet(e) => List(CanonicalizeAll(env, e, v.items))
    case Tuple(a, b) => List([Canonicalize(env, a, v.items[0]), Canonicalize(env, b, v.items[1])])
    case Group(a, b) =>
      MapOf([Entry(KEY, Canonicalize(env, a, Field(v, KEY))),
             Entry(ITEMS, Canonicalize(env, b, Field(v, ITEMS)))])
    case Optional(e) =>
      var tag := v.entries[0];
      if tag.key == NONE then v else MapOf([Entry(tag.key, Canonicalize(env, e, tag.value))])
    case Outcome(a, b) =>
      var tag := v.entries[0];
      MapOf([Entry(tag.key, Canonicalize(env, if tag.key == ERR then b else a, tag.value))])
    case Mapping(a, b) =>
      if v.Map? then MapOf(CanonicalizeValues(env, b, v.entries))
      else List(Sort(CanonicalizeAll(env, KeyValue(a, b), v.items)))
    case OrderedMapping(a, b) =>
      if v.Map? then MapOf(CanonicalizeValues(env, b, v.entries))
      else List(CanonicalizeAll(env, KeyValue(a, b), v.items))
    case KeyValue(a, b) =>
      List([Canonicalize(env, a, Field(v, KEY)),
            Canonicalize(env, b, Field(v, VALUE))])
    case Named(name) =>
      match env[name]
      case Enumeration => v
      case Union(variants) =>
        var tag := v.entries[0];
        MapOf([Entry(tag.key, Canonicalize(env, Named(variants[tag.key]), tag.value))])
      case Record(members) => MapOf(CanonicalizeMembers(env, members, v))
  }

  function CanonicalizeAll(env: Declarations, t: Type, vs: seq<Value>): (cs: seq<Value>)
    requires HaveType(env, t, vs)
    ensures |cs| == |vs|
    ensures forall i | 0 <= i < |vs| :: cs[i] == Canonicalize(env, t, vs[i])
    decreases vs, 0
  {
    seq(|vs|, i requires 0 <= i < |vs| => Canonicalize(env, t, vs[i]))
  }

  function CanonicalizeValues(env: Declarations, t: Type, es: seq<Entry>): (cs: seq<Entry>)
    requires ValuesHaveType(env, t, es)
    ensures |cs| == |es|
    ensures forall i | 0 <= i < |es| :: cs[i] == Entry(es[i].key, Canonicalize(env, t, es[i].value))
    decreases es, 0
  {
    seq(|es|, i requires 0 <= i < |es| => Entry(es[i].key, Canonicalize(env, t, es[i].value)))
  }

  function CanonicalizeMembers(env: Declarations, members: seq<Member>, v: Value): (cs: seq<Entry>)
    requires v.Map?
    requires forall i | 0 <= i < |members| ::
      HasKey(v.entries, members[i].name) && HasType(env, members[i].ty, Field(v, members[i].name))
    ensures |cs| == |members|
    ensures forall i | 0 <= i < |members| ::
      cs[i] == Entry(members[i].name, Canonicalize(env, members[i].ty, Field(v, members[i].name)))
    decreases v, 0
  {
    seq(|members|, i requires 0 <= i < |members| =>
      Entry(members[i].name, Canonicalize(env, members[i].ty, Field(v, members[i].name))))
  }

  // ---------------------------------------------------------------- equivalence

  /**
    Recursive equality of two values of one type: bags, sets and unordered entry lists as
    multisets, string-keyed maps and records by key, ordered kinds position by position,
    and all NaNs identified.
   */
  ghost predicate Equivalent(env: Declarations, t: Type, a: Value, b: Value)
    requires HasType(env, t, a) && HasType(env, t, b)
    decreases a, 1
  {
    match t
    case Plain => a == b
    case Floating => a == b || (FloatOrder.IsNaN(a.bits) && FloatOrder.IsNaN(b.bits))
    case Sequence(e) => Pointwise(env, e, a.items, b.items)
    case Bag(e) => SameBag(env, e, a.items, b.items)
    case UniqueSet(e) => SameBag(env, e, a.items, b.items)
    case OrderedSet(e) => Pointwise(env, e, a.items, b.items)
    case Tuple(x, y) => Equivalent(env, x, a.items[0], b.items[0]) && Equivalent(env, y, a.items[1], b.items[1])
    case Group(x, y) =>
      Equivalent(env, x, Field(a, KEY), Field(b, KEY)) && Equivalent(env, y, Field(a, ITEMS), Field(b, ITEMS))
    case Optional(e) =>
      a.entries[0].key == b.entries[0].key
      && if a.entries[0].key == NONE then a.entries[0].value == b.entries[0].value
         else Equivalent(env, e, a.entries[0].value, b.entries[0].value)
    case Outcome(x, y) =>
      a.entries[0].key == b.entries[0].key
      && Equivalent(env, if a.entries[0].key == ERR then y else x, a.entries[0].value, b.entries[0].value)
    case Mapping(x, y) =>
      && a.Map? == b.Map?
      && if a.Map? then SameMap(env, y, a.entries, b.entries) else SameBag(env, KeyValue(x, y), a.items, b.items)
    case OrderedMapping(x, y) =>
      && a.Map? == b.Map?
      && if a.Map? then SameMap(env, y, a.entries, b.entries) else Pointwise(env, KeyValue(x, y), a.items, b.items)
    case KeyValue(x, y) =>
      Equivalent(env, x, Field(a, KEY), Field(b, KEY)) && Equivalent(env, y, Field(a, VALUE), Field(b, VALUE))
    case Named(name) =>
      match env[name]
      case Enumeration => a == b
      case Union(variants) =>
        a.entries[0].key == b.entries[0].key
        && Equivalent(env, Named(variants[a.entries[0].key]), a.entries[0].value, b.entries[0].value)
      case Record(members) =>
        forall i | 0 <= i < |members| ::
          Equivalent(env, members[i].ty, Field(a, members[i].name),
                     Field(b, members[i].name))
  }

  ghost predicate Pointwise(env: Declarations, t: Type, a: seq<Value>, b: seq<Value>)
    requires HaveType(env, t, a) && HaveType(env, t, b)
    decreases a, 0
  {
    |a| == |b| && forall i | 0 <= i < |a| :: Equivalent(env, t, a[i], b[i])
  }

  /** The elements can be paired off, each with an equivalent partner. */
  ghost predicate SameBag(env: Declarations, t: Type, a: seq<Value>, b: seq<Value>)
    requires HaveType(env, t, a) && HaveType(env, t, b)
    decreases a, 0
  {
    if a == [] then b == [] else
      exists j :: 0 <= j < |b| && Equivalent(env, t, a[0], b[j]) && SameBag(env, t, a[1..], Without(b, j))
  }

  ghost function Without(s: seq<Value>, j: nat): seq<Value>
    requires j < |s|
  {
    s[..j] + s[j + 1..]
  }

  /** The same keys, with equivalent values. */
  ghost predicate SameMap(env: Declarations, t: Type, a: seq<Entry>, b: seq<Entry>)
    requires ValuesHaveType(env, t, a) && ValuesHaveType(env, t, b)
    decreases a, 0
  {
    (forall k :: HasKey(a, k) <==> HasKey(b, k))
    && forall k | HasKey(a, k) && HasKey(b, k) :: Equivalent(env, t, a[Find(a, k)].value, b[Find(b, k)].value)
  }

  // ---------------------------------------------------------------- canonical forms decide equivalence

  lemma MapOfOne(e: Entry)
    ensures MapOf([e]) == Map([e])
  {
    assert PutAll([], [e]) == PutAll(Put([], e), [e][1..]);
  }

  /** Maps built from the same pairwise different keys are equal exactly when the values are. */
  lemma MapOfInjective(cs: seq<Entry>, ds: seq<Entry>)
    requires |cs| == |ds| && forall i | 0 <= i < |cs| :: cs[i].key == ds[i].key
    requires forall i, j | 0 <= i < j < |cs| :: cs[i].key != cs[j].key
    ensures MapOf(cs) == MapOf(ds) <==> cs == ds
  {
    if MapOf(cs) == MapOf(ds) {
      forall i | 0 <= i < |cs| ensures cs[i] == ds[i] {
        GetLastIsGet(cs, i);
        GetLastIsGet(ds, i);
        PutAllGets([], cs, cs[i].key);
        PutAllGets([], ds, cs[i].key);
      }
    }
  }

  lemma CanonicalValueAt(env: Declarations, t: Type, es: seq<Entry>, k: Text)
    requires KeysAscending(es) && ValuesHaveType(env, t, es)
    ensures var built := PutAll([], CanonicalizeValues(env, t, es));
            (HasKey(built, k) <==> HasKey(es, k))
            && (HasKey(es, k) ==> Get(built, k) == Canonicalize(env, t, es[Find(es, k)].value))
  {
    var cs := CanonicalizeValues(env, t, es);
    PutAllGets([], cs, k);
    HasKeyIsMembership(es, k);
    HasKeyIsMembership(cs, k);
    if HasKey(es, k) {
      AscendingKeysDiffer(es);
      GetLastIsGet(cs, Find(es, k));
    }
  }

  /** Two values of one type have the same canonical form exactly when they are equivalent. */
  lemma {:induction false} CanonicalDecides(env: Declarations, t: Type, a: Value, b: Value)
    requires HasType(env, t, a) && HasType(env, t, b)
    ensures Canonicalize(env, t, a) == Canonicalize(env, t, b) <==> Equivalent(env, t, a, b)
    decreases a, 2
  {
    match t {
      case Plain => CanonicalDecidesScalar(env, t, a, b);
      case Floating => CanonicalDecidesScalar(env, t, a, b);
      case Sequence(_) => CanonicalDecidesCollection(env, t, a, b);
      case Bag(_) => CanonicalDecidesCollection(env, t, a, b);
      case UniqueSet(_) => CanonicalDecidesCollection(env, t, a, b);
      case OrderedSet(_) => CanonicalDecidesCollection(env, t, a, b);
      case Tuple(_, _) => CanonicalDecidesProduct(env, t, a, b);
      case Group(_, _) => CanonicalDecidesProduct(env, t, a, b);
      case KeyValue(_, _) => CanonicalDecidesProduct(env, t, a, b);
      case Optional(_) => CanonicalDecidesTag(env, t, a, b);
      case Outcome(_, _) => CanonicalDecidesTag(env, t, a, b);
      case Mapping(_, _) => CanonicalDecidesMapping(env, t, a, b);
      case OrderedMapping(_, _) => CanonicalDecidesMapping(env, t, a, b);
      case Named(name) =>
        match env[name] {
          case Enumeration => CanonicalDecidesScalar(env, t, a, b);
          case Union(_) => CanonicalDecidesTag(env, t, a, b);
          case Record(members) => CanonicalDecidesRecord(env, members, a, b);
        }
    }
  }

  lemma CanonicalDecidesScalar(env: Declarations, t: Type, a: Value, b: Value)
    requires t.Plain? || t.Floating? || (t.Named? && t.name in env && env[t.name].Enumeration?)
    requires HasType(env, t, a) && HasType(env, t, b)
    ensures Canonicalize(env, t, a) == Canonicalize(env, t, b) <==> Equivalent(env, t, a, b)
  {
    assert FloatOrder.IsNaN(NAN);
  }

  lemma {:induction false} CanonicalDecidesCollection(env: Declarations, t: Type, a: Value, b: Value)
    requires (t.Sequence? || t.Bag? || t.UniqueSet? || t.OrderedSet?) && HasType(env, t, a) && HasType(env, t, b)
    ensures Canonicalize(env, t, a) == Canonicalize(env, t, b) <==> Equivalent(env, t, a, b)
    decreases a, 1
  {
    match t {
      case Sequence(e) => CanonicalDecidesPointwise(env, e, a.items, b.items);
      case Bag(e) => CanonicalDecidesBag(env, e, a.items, b.items);
      case UniqueSet(e) => CanonicalDecidesBag(env, e, a.items, b.items);
      case OrderedSet(e) => CanonicalDecidesPointwise(env, e, a.items, b.items);
    }
  }

  lemma {:induction false} CanonicalDecidesProduct(env: Declarations, t: Type, a: Value, b: Value)
    requires (t.Tuple? || t.Group? || t.KeyValue?) && HasType(env, t, a) && HasType(env, t, b)
    ensures Canonicalize(env, t, a) == Canonicalize(env, t, b) <==> Equivalent(env, t, a, b)
    decreases a, 1
  {
    match t {
      case Tuple(x, y) =>
        CanonicalDecides(env, x, a.items[0], b.items[0]);
        CanonicalDecides(env, y, a.items[1], b.items[1]);
      case Group(x, y) => CanonicalDecidesFields(env, x, ITEMS, y, a, b);
      case KeyValue(x, y) => CanonicalDecidesFields(env, x, VALUE, y, a, b);
    }
  }

  lemma {:induction false} CanonicalDecidesMapping(env: Declarations, t: Type, a: Value, b: Value)
    requires (t.Mapping? || t.OrderedMapping?) && HasType(env, t, a) && HasType(env, t, b)
    ensures Canonicalize(env, t, a) == Canonicalize(env, t, b) <==> Equivalent(env, t, a, b)
    decreases a, 1
  {
    match t {
      case Mapping(x, y) =>
        if a.Map? && b.Map? {
          CanonicalDecidesMap(env, y, a.entries, b.entries);
        } else if a.List? && b.List? {
          CanonicalDecidesBag(env, KeyValue(x, y), a.items, b.items);
        }
      case OrderedMapping(x, y) =>
        if a.Map? && b.Map? {
          CanonicalDecidesMap(env, y, a.entries, b.entries);
        } else if a.List? && b.List? {
          CanonicalDecidesPointwise(env, KeyValue(x, y), a.items, b.items);
        }
    }
  }

  lemma {:induction false} CanonicalDecidesPointwise(env: Declarations, t: Type, a: seq<Value>, b: seq<Value>)
    requires HaveType(env, t, a) && HaveType(env, t, b)
    ensures CanonicalizeAll(env, t, a) == CanonicalizeAll(env, t, b) <==> Pointwise(env, t, a, b)
    decreases a, 0
  {
    hide HasType, Canonicalize, Equivalent;
    var cs, ds := CanonicalizeAll(env, t, a), CanonicalizeAll(env, t, b);
    if |a| == |b| {
      forall i | 0 <= i < |a| ensures cs[i] == ds[i] <==> Equivalent(env, t, a[i], b[i]) {
        CanonicalDecides(env, t, a[i], b[i]);
      }
      if Pointwise(env, t, a, b) {
        assert cs == ds;
      }
    }
  }

  lemma {:induction false} CanonicalDecidesBag(env: Declarations, t: Type, a: seq<Value>, b: seq<Value>)
    requires HaveType(env, t, a) && HaveType(env, t, b)
    ensures Sort(CanonicalizeAll(env, t, a)) == Sort(CanonicalizeAll(env, t, b)) <==> SameBag(env, t, a, b)
    decreases a, 1
  {
    var cs, ds := CanonicalizeAll(env, t, a), CanonicalizeAll(env, t, b);
    if Sort(cs) == Sort(ds) {
      SameMultisetIsSameBag(env, t, a, b);
    }
    if SameBag(env, t, a, b) {
      SameBagIsSameMultiset(env, t, a, b);
      SortingIsUnique(Sort(cs), Sort(ds));
    }
  }

  lemma {:induction false} SameBagIsSameMultiset(env: Declarations, t: Type, a: seq<Value>, b: seq<Value>)
    requires HaveType(env, t, a) && HaveType(env, t, b) && SameBag(env, t, a, b)
    ensures multiset(CanonicalizeAll(env, t, a)) == multiset(CanonicalizeAll(env, t, b))
    decreases a, 0
  {
    if a != [] {
      var j := Partner(env, t, a, b);
      CanonicalDecides(env, t, a[0], b[j]);
      SameBagIsSameMultiset(env, t, a[1..], Without(b, j));
      SameMultisetStep(env, t, a, b, j);
    }
  }

  lemma Partner(env: Declarations, t: Type, a: seq<Value>, b: seq<Value>) returns (j: nat)
    requires HaveType(env, t, a) && HaveType(env, t, b) && SameBag(env, t, a, b) && a != []
    ensures j < |b| && HaveType(env, t, Without(b, j)) && HaveType(env, t, a[1..])
    ensures Equivalent(env, t, a[0], b[j]) && SameBag(env, t, a[1..], Without(b, j))
  {
    hide Equivalent, HasType, Without;
    TailHasType(env, t, a);
    forall k: nat | k < |b|
      ensures HaveType(env, t, Without(b, k))
    {
      WithoutHasType(env, t, b, k);
    }
    j :| 0 <= j < |b| && Equivalent(env, t, a[0], b[j]) && SameBag(env, t, a[1..], Without(b, j));
  }

  lemma TailHasType(env: Declarations, t: Type, a: seq<Value>)
    requires HaveType(env, t, a) && a != []
    ensures HaveType(env, t, a[1..])
  {
    hide HasType;
  }

  lemma WithoutHasType(env: Declarations, t: Type, b: seq<Value>, j: nat)
    requires HaveType(env, t, b) && j < |b|
    ensures HaveType(env, t, Without(b, j))
  {
    hide HasType;
  }

  lemma SameMultisetStep(env: Declarations, t: Type, a: seq<Value>, b: seq<Value>, j: nat)
    requires HaveType(env, t, a) && HaveType(env, t, b) && a != [] && j < |b|
    requires Canonicalize(env, t, a[0]) == Canonicalize(env, t, b[j])
    ensures HaveType(env, t, a[1..]) && HaveType(env, t, Without(b, j))
    ensures multiset(CanonicalizeAll(env, t, a)) == multiset(CanonicalizeAll(env, t, b)) <==>
            multiset(CanonicalizeAll(env, t, a[1..])) == multiset(CanonicalizeAll(env, t, Without(b, j)))
  {
    CanonicalTail(env, t, a);
    CanonicalWithout(env, t, b, j);
    RemoveHead(CanonicalizeAll(env, t, a), CanonicalizeAll(env, t, b), j);
  }

  lemma {:induction false} SameMultisetIsSameBag(env: Declarations, t: Type, a: seq<Value>, b: seq<Value>)
    requires HaveType(env, t, a) && HaveType(env, t, b)
    requires multiset(CanonicalizeAll(env, t, a)) == multiset(CanonicalizeAll(env, t, b))
    ensures SameBag(env, t, a, b)
    decreases a, 0
  {
    var cs, ds := CanonicalizeAll(env, t, a), CanonicalizeAll(env, t, b);
    if a == [] {
      assert |multiset(ds)| == |ds|;
    } else {
      assert cs[0] in multiset(ds);
      var j :| 0 <= j < |ds| && ds[j] == cs[0];
      SameMultisetStep(env, t, a, b, j);
      SameMultisetIsSameBag(env, t, a[1..], Without(b, j));
      assert Equivalent(env, t, a[0], b[j]) by { CanonicalDecides(env, t, a[0], b[j]); }
    }
  }

  lemma CanonicalTail(env: Declarations, t: Type, a: seq<Value>)
    requires HaveType(env, t, a) && a != []
    ensures CanonicalizeAll(env, t, a[1..]) == CanonicalizeAll(env, t, a)[1..]
  {
    hide HasType, Canonicalize;
  }

  lemma CanonicalWithout(env: Declarations, t: Type, b: seq<Value>, j: nat)
    requires HaveType(env, t, b) && j < |b|
    ensures HaveType(env, t, Without(b, j))
    ensures CanonicalizeAll(env, t, Without(b, j)) == Without(CanonicalizeAll(env, t, b), j)
  {
    hide HasType, Canonicalize;
    var rest := Without(b, j);
    assert forall i | 0 <= i < |rest| :: rest[i] == if i < j then b[i] else b[i + 1];
  }

  /** Removing the same element from both sides neither makes nor breaks equality of multisets. */
  lemma RemoveHead(cs: seq<Value>, ds: seq<Value>, j: nat)
    requires cs != [] && j < |ds| && cs[0] == ds[j]
    ensures multiset(cs) == multiset(ds) <==> multiset(cs[1..]) == multiset(Without(ds, j))
  {
    assert cs == [cs[0]] + cs[1..];
    assert ds == ds[..j] + [ds[j]] + ds[j + 1..];
    assert multiset(cs[1..]) == multiset(cs) - multiset{cs[0]};
    assert multiset(Without(ds, j)) == multiset(ds) - multiset{ds[j]};
  }

  lemma {:induction false} CanonicalDecidesFields(env: Declarations, x: Type, right: Text, y: Type, a: Value, b: Value)
    requires right == ITEMS || right == VALUE
    requires HasFields(a, KEY, right) && HasType(env, x, Field(a, KEY)) && HasType(env, y, Field(a, right))
    requires HasFields(b, KEY, right) && HasType(env, x, Field(b, KEY)) && HasType(env, y, Field(b, right))
    ensures var l, r := Canonicalize(env, x, Field(a, KEY)), Canonicalize(env, y, Field(a, right));
            var l', r' := Canonicalize(env, x, Field(b, KEY)), Canonicalize(env, y, Field(b, right));
            ((l == l' && r == r') <==>
            (Equivalent(env, x, Field(a, KEY), Field(b, KEY)) && Equivalent(env, y, Field(a, right), Field(b, right))))
            && (MapOf([Entry(KEY, l), Entry(right, r)]) == MapOf([Entry(KEY, l'), Entry(right, r')]) <==>
                  l == l' && r == r')
    decreases a, 0
  {
    CanonicalDecides(env, x, Field(a, KEY), Field(b, KEY));
    CanonicalDecides(env, y, Field(a, right), Field(b, right));
    var l, r := Canonicalize(env, x, Field(a, KEY)), Canonicalize(env, y, Field(a, right));
    var l', r' := Canonicalize(env, x, Field(b, KEY)), Canonicalize(env, y, Field(b, right));
    assert KEY != right by { assert |KEY| == 3 && |ITEMS| == 5 && |VALUE| == 5; }
    var cs, ds := [Entry(KEY, l), Entry(right, r)], [Entry(KEY, l'), Entry(right, r')];
    MapOfInjective(cs, ds);
    assert cs == ds <==> cs[0] == ds[0] && cs[1] == ds[1];
  }

  lemma {:induction false} CanonicalDecidesTag(env: Declarations, t: Type, a: Value, b: Value)
    requires HasType(env, t, a) && HasType(env, t, b)
    requires t.Optional? || t.Outcome? || (t.Named? && env[t.name].Union?)
    ensures Canonicalize(env, t, a) == Canonicalize(env, t, b) <==> Equivalent(env, t, a, b)
    decreases a, 0
  {
    var p, q := a.entries[0], b.entries[0];
    assert a == Map([p]) && b == Map([q]);
    if t.Optional? && (p.key == NONE || q.key == NONE) {
      if p.key != NONE {
        MapOfOne(Entry(p.key, Canonicalize(env, t.element, p.value)));
      }
      if q.key != NONE {
        MapOfOne(Entry(q.key, Canonicalize(env, t.element, q.value)));
      }
    } else {
      var tp := PayloadType(env, t, p.key);
      var tq := PayloadType(env, t, q.key);
      MapOfOne(Entry(p.key, Canonicalize(env, tp, p.value)));
      MapOfOne(Entry(q.key, Canonicalize(env, tq, q.value)));
      if p.key == q.key {
        CanonicalDecides(env, tp, p.value, q.value);
      }
    }
  }

  ghost function PayloadType(env: Declarations, t: Type, key: Text): Type
    requires t.Optional? || t.Outcome? ||
             (t.Named? && t.name in env && env[t.name].Union? && key in env[t.name].variants)
  {
    if t.Optional? then t.element
    else if t.Outcome? then (if key == ERR then t.err else t.ok)
    else Named(env[t.name].variants[key])
  }

  lemma {:induction false} CanonicalDecidesMap(env: Declarations, t: Type, a: seq<Entry>, b: seq<Entry>)
    requires KeysAscending(a) && ValuesHaveType(env, t, a)
    requires KeysAscending(b) && ValuesHaveType(env, t, b)
    ensures MapOf(CanonicalizeValues(env, t, a)) == MapOf(CanonicalizeValues(env, t, b)) <==> SameMap(env, t, a, b)
    decreases a, 2
  {
    hide PutAll, Find, Get, HasKey, Equivalent, CanonicalizeValues;
    if MapOf(CanonicalizeValues(env, t, a)) == MapOf(CanonicalizeValues(env, t, b)) {
      forall k ensures HasKey(a, k) <==> HasKey(b, k) {
        CanonicalDecidesAt(env, t, a, b, k);
      }
      forall k | HasKey(a, k) && HasKey(b, k) ensures Equivalent(env, t, a[Find(a, k)].value, b[Find(b, k)].value) {
        CanonicalDecidesAt(env, t, a, b, k);
      }
    }
    if SameMap(env, t, a, b) {
      SameMapIsSameForm(env, t, a, b);
    }
  }

  lemma {:induction false} SameMapIsSameForm(env: Declarations, t: Type, a: seq<Entry>, b: seq<Entry>)
    requires KeysAscending(a) && ValuesHaveType(env, t, a)
    requires KeysAscending(b) && ValuesHaveType(env, t, b)
    requires SameMap(env, t, a, b)
    ensures PutAll([], CanonicalizeValues(env, t, a)) == PutAll([], CanonicalizeValues(env, t, b))
    decreases a, 1
  {
    var ca, cb := PutAll([], CanonicalizeValues(env, t, a)), PutAll([], CanonicalizeValues(env, t, b));
    forall k ensures HasKey(ca, k) <==> HasKey(cb, k) {
      CanonicalDecidesAt(env, t, a, b, k);
    }
    forall k | HasKey(ca, k) ensures Get(ca, k) == Get(cb, k) {
      CanonicalDecidesAt(env, t, a, b, k);
    }
    MapIsUnique(ca, cb);
  }

  lemma {:induction false} CanonicalDecidesAt(env: Declarations, t: Type, a: seq<Entry>, b: seq<Entry>, k: Text)
    requires KeysAscending(a) && ValuesHaveType(env, t, a)
    requires KeysAscending(b) && ValuesHaveType(env, t, b)
    ensures var ca, cb := PutAll([], CanonicalizeValues(env, t, a)), PutAll([], CanonicalizeValues(env, t, b));
            (HasKey(ca, k) <==> HasKey(a, k)) && (HasKey(cb, k) <==> HasKey(b, k))
            && (HasKey(a, k) && HasKey(b, k) ==>
            (Get(ca, k) == Get(cb, k) <==> Equivalent(env, t, a[Find(a, k)].value, b[Find(b, k)].value)))
    decreases a, 0
  {
    CanonicalValueAt(env, t, a, k);
    CanonicalValueAt(env, t, b, k);
    if HasKey(a, k) && HasKey(b, k) {
      CanonicalDecides(env, t, a[Find(a, k)].value, b[Find(b, k)].value);
    }
  }

  lemma {:induction false} CanonicalDecidesRecord(env: Declarations, members: seq<Member>, a: Value, b: Value)
    requires a.Map? && b.Map? && DistinctNames(members)
    requires forall i | 0 <= i < |members| ::
      HasKey(a.entries, members[i].name) && HasType(env, members[i].ty, Field(a, members[i].name))
    requires forall i | 0 <= i < |members| ::
      HasKey(b.entries, members[i].name) && HasType(env, members[i].ty, Field(b, members[i].name))
    ensures MapOf(CanonicalizeMembers(env, members, a)) == MapOf(CanonicalizeMembers(env, members, b)) <==>
            forall i | 0 <= i < |members| ::
              Equivalent(env, members[i].ty, Field(a, members[i].name), Field(b, members[i].name))
    decreases a, 0
  {
    var cs, ds := CanonicalizeMembers(env, members, a), CanonicalizeMembers(env, members, b);
    MapOfInjective(cs, ds);
    forall i | 0 <= i < |members|
      ensures cs[i] == ds[i] <==> Equivalent(env, members[i].ty, Field(a, members[i].name), Field(b, members[i].name))
    {
      CanonicalDecides(env, members[i].ty, Field(a, members[i].name), Field(b, members[i].name));
    }
  }
}
