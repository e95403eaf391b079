/**
  Building one registry from the components of several schemas, merging repeated components as they come.

  The main results: the incremental merge succeeds exactly when the declarations agree, and its component list is
  the sorted union of what was given, so the order of the schemas does not matter. Repeating one matters exactly
  when it gives a component with unsorted dependencies for the second time.
 */
module RegistryMerge {
  import opened Wrappers
  import opened KeyedOrder

  /** An operation or a named type; the content is everything but the name. */
  datatype Declaration = Declaration(name: Name, content: int)

  datatype Component = Component(id: Name, dependencies: seq<Name>, operations: seq<Declaration>,
                                 types: seq<Declaration>)

  const BY_NAME: Declaration -> Name := (d: Declaration) => d.name
  const BY_ID: Component -> Name := (c: Component) => c.id
  const ITSELF: Name -> Name := n => n

  // ---------------------------------------------------------------- merging two components

  ghost predicate Agree(a: seq<Declaration>, b: seq<Declaration>) {
    forall x, y | x in a && y in b && x.name == y.name :: x == y
  }

  method FindByName(s: seq<Declaration>, name: Name) returns (found: Option<Declaration>)
    ensures found.Some? ==> found.value in s && found.value.name == name
    ensures found.None? ==> forall x | x in s :: x.name != name
  {
    for i := 0 to |s|
      invariant forall j | 0 <= j < i :: s[j].name != name
    {
      if s[i].name == name {
        return Some(s[i]);
      }
    }
    return None;
  }

  /** Adds the declarations that are not there yet, stops at a disagreement, then sorts by name. */
  method MergeDeclarations(existing: seq<Declaration>, incoming: seq<Declaration>) returns (r: Option<seq<Declaration>>)
    requires Strict(BY_NAME, existing) && DistinctKeys(BY_NAME, incoming)
    ensures r.Some? <==> Agree(existing, incoming)
    ensures r.Some? ==> Strict(BY_NAME, r.value) && forall x :: x in r.value <==> x in existing || x in incoming
  {
    var all := existing;
    StrictDistinct(existing);
    for i := 0 to |incoming|
      invariant DistinctKeys(BY_NAME, all) && Agree(existing, incoming[..i])
      invariant forall x :: x in all <==> x in existing || x in incoming[..i]
    {
      var op := incoming[i];
      assert incoming[..i + 1] == incoming[..i] + [op];
      var found := FindByName(all, op.name);
      if found.Some? {
        if found.value != op {
          return None;
        }
      } else {
        all := all + [op];
      }
    }
    assert incoming[..|incoming|] == incoming;
    SortStrict(BY_NAME, all);
    forall x
      ensures x in Sort(BY_NAME, all) <==> x in all
    {
      SortElements(BY_NAME, all, x);
    }
    return Some(Sort(BY_NAME, all));
  }

  lemma StrictDistinct(s: seq<Declaration>)
    requires Strict(BY_NAME, s)
    ensures DistinctKeys(BY_NAME, s)
  {
    forall i, j | 0 <= i < j < |s|
      ensures BY_NAME(s[i]) != BY_NAME(s[j])
    {
      Utf8Order.LexTotalOrder(s[i].name, s[j].name);
    }
  }

  /** The names of both lists, in a set. */
  method MergeNames(a: seq<Name>, b: seq<Name>) returns (r: seq<Name>)
    ensures Strict(ITSELF, r) && forall n :: n in r <==> n in a || n in b
  {
    var all := a + b;
    r := [];
    for i := 0 to |all|
      invariant Strict(ITSELF, r) && forall n :: n in r <==> n in all[..i]
    {
      assert all[..i + 1] == all[..i] + [all[i]];
      if all[i] !in r {
        forall n
          ensures n in Insert(ITSELF, all[i], r) <==> n == all[i] || n in r
        {
          InsertElements(ITSELF, all[i], r, n);
        }
        InsertStrict(ITSELF, all[i], r);
        r := Insert(ITSELF, all[i], r);
      }
    }
    assert all[..|all|] == all;
  }

  /** What decoding one schema guarantees of each component: declarations sorted by name, names unique. */
  ghost predicate Decoded(c: Component) {
    Strict(BY_NAME, c.operations) && Strict(BY_NAME, c.types)
  }

  ghost predicate Compatible(a: Component, b: Component) {
    Agree(a.operations, b.operations) && Agree(a.types, b.types)
  }

  ghost predicate IsUnion(m: Component, a: Component, b: Component) {
    && m.id == a.id && Decoded(m) && Strict(ITSELF, m.dependencies)
    && (forall n :: n in m.dependencies <==> n in a.dependencies || n in b.dependencies)
    && (forall x :: x in m.operations <==> x in a.operations || x in b.operations)
    && (forall x :: x in m.types <==> x in a.types || x in b.types)
  }

  method MergeComponent(existing: Component, incoming: Component) returns (r: Option<Component>)
    requires Decoded(existing) && Decoded(incoming)
    ensures r.Some? <==> Compatible(existing, incoming)
    ensures r.Some? ==> IsUnion(r.value, existing, incoming)
  {
    var dependencies := MergeNames(existing.dependencies, incoming.dependencies);
    StrictDistinct(incoming.operations);
    var operations := MergeDeclarations(existing.operations, incoming.operations);
    if operations.None? {
      return None;
    }
    StrictDistinct(incoming.types);
    var types := MergeDeclarations(existing.types, incoming.types);
    if types.None? {
      return None;
    }
    return Some(Component(existing.id, dependencies, operations.value, types.value));
  }

  // ---------------------------------------------------------------- merging a stream of components

  ghost predicate Declares(stream: seq<Component>, id: Name, op: Declaration) {
    exists c | c in stream :: c.id == id && op in c.operations
  }

  ghost predicate DeclaresType(stream: seq<Component>, id: Name, ty: Declaration) {
    exists c | c in stream :: c.id == id && ty in c.types
  }

  ghost predicate DependsOn(stream: seq<Component>, id: Name, dependency: Name) {
    exists c | c in stream :: c.id == id && dependency in c.dependencies
  }

  function Count(stream: seq<Component>, id: Name): nat {
    if stream == [] then 0 else Count(stream[..|stream| - 1], id) + if stream[|stream| - 1].id == id then 1 else 0
  }

  /** Every two declarations of one name in one component are the same. */
  ghost predicate AllAgree(stream: seq<Component>) {
    forall a, b | a in stream && b in stream && a.id == b.id :: Compatible(a, b)
  }

  /** The component is the sorted union of its declarations; dependencies given once are kept as given. */
  ghost predicate Summarizes(stream: seq<Component>, m: Component) {
    && Decoded(m) && Count(stream, m.id) > 0
    && (forall op :: op in m.operations <==> Declares(stream, m.id, op))
    && (forall ty :: ty in m.types <==> DeclaresType(stream, m.id, ty))
    && (forall n :: n in m.dependencies <==> DependsOn(stream, m.id, n))
    && (Count(stream, m.id) > 1 ==> Strict(ITSELF, m.dependencies))
    && (Count(stream, m.id) == 1 ==> forall c | c in stream && c.id == m.id :: m.dependencies == c.dependencies)
  }

  /** One summary for each component, in the order of their ids. */
  ghost predicate IsRegistry(stream: seq<Component>, registry: seq<Component>) {
    && Strict(BY_ID, registry)
    && (forall m | m in registry :: Summarizes(stream, m))
    && (forall c | c in stream :: HasKey(BY_ID, registry, c.id))
  }

  method FindById(registry: seq<Component>, id: Name) returns (i: nat)
    ensures i <= |registry|
    ensures i < |registry| ==> registry[i].id == id
    ensures i == |registry| ==> !HasKey(BY_ID, registry, id)
  {
    i := 0;
    while i < |registry| && registry[i].id != id
      invariant i <= |registry| && forall j | 0 <= j < i :: registry[j].id != id
    {
      i := i + 1;
    }
  }

  /** `encode_all` over the components of all schemas, up to the document it serializes. */
  method EncodeAll(stream: seq<Component>) returns (r: Option<seq<Component>>)
    requires forall c | c in stream :: Decoded(c)
    ensures r.Some? <==> stream != [] && AllAgree(stream)
    ensures r.Some? ==> IsRegistry(stream, r.value)
  {
    if stream == [] {
      return None;
    }
    var registry := [];
    for i := 0 to |stream|
      invariant AllAgree(stream[..i]) && IsRegistry(stream[..i], registry)
    {
      var c := stream[i];
      assert stream[..i + 1] == stream[..i] + [c];
      var at := FindById(registry, c.id);
      if at < |registry| {
        assert registry[at] in registry && Summarizes(stream[..i], registry[at]);
        var merged := MergeComponent(registry[at], c);
        AgreeNext(stream[..i], registry, at, c);
        if merged.None? {
          Disagree(stream, i);
          return None;
        }
        RegistryMerged(stream[..i], registry, at, c, merged.value);
        registry := registry[at := merged.value];
      } else {
        RegistryAdded(stream[..i], registry, c);
        registry := Insert(BY_ID, c, registry);
      }
    }
    assert stream[..|stream|] == stream;
    return Some(registry);
  }

  lemma Disagree(stream: seq<Component>, i: nat)
    requires i < |stream| && !AllAgree(stream[..i + 1])
    ensures !AllAgree(stream)
  {
  }

  lemma CountNext(stream: seq<Component>, c: Component, id: Name)
    ensures Count(stream + [c], id) == Count(stream, id) + if c.id == id then 1 else 0
  {
    assert (stream + [c])[..|stream|] == stream;
  }

  lemma {:induction false} CountIsMembership(stream: seq<Component>, id: Name)
    ensures Count(stream, id) > 0 <==> exists c | c in stream :: c.id == id
  {
    if stream != [] {
      var init, last := stream[..|stream| - 1], stream[|stream| - 1];
      assert stream == init + [last];
      CountIsMembership(init, id);
    }
  }

  /** The next component agrees with all before it exactly when it agrees with their summary. */
  lemma AgreeNext(stream: seq<Component>, registry: seq<Component>, at: nat, c: Component)
    requires && AllAgree(stream)
             && IsRegistry(stream, registry)
             && at < |registry|
             && registry[at].id == c.id
             && Decoded(c)
    ensures AllAgree(stream + [c]) <==> Compatible(registry[at], c)
  {
    var m := registry[at];
    assert m in registry;
    SelfCompatible(c);
    if Compatible(m, c) {
      forall a, b | a in stream + [c] && b in stream + [c] && a.id == b.id
        ensures Compatible(a, b)
      {
        if a in stream && b !in stream {
          PartCompatible(stream, m, a, c);
        } else if b in stream && a !in stream {
          PartCompatible(stream, m, b, c);
          CompatibleSymmetric(b, c);
        }
      }
    } else if AllAgree(stream + [c]) {
      forall x, y | x in m.operations && y in c.operations && x.name == y.name
        ensures x == y
      {
        assert Declares(stream, m.id, x);
        var a :| a in stream && a.id == m.id && x in a.operations;
        assert Compatible(a, c);
      }
      forall x, y | x in m.types && y in c.types && x.name == y.name
        ensures x == y
      {
        assert DeclaresType(stream, m.id, x);
        var a :| a in stream && a.id == m.id && x in a.types;
        assert Compatible(a, c);
      }
    }
  }

  lemma SelfCompatible(c: Component)
    requires Decoded(c)
    ensures Compatible(c, c)
  {
    StrictDistinct(c.operations);
    StrictDistinct(c.types);
    UniqueByName(c.operations);
    UniqueByName(c.types);
  }

  lemma UniqueByName(s: seq<Declaration>)
    requires DistinctKeys(BY_NAME, s)
    ensures Agree(s, s)
  {
    forall x, y | x in s && y in s && x.name == y.name
      ensures x == y
    {
      var i :| 0 <= i < |s| && s[i] == x;
      var j :| 0 <= j < |s| && s[j] == y;
      assert BY_NAME(s[i]) == BY_NAME(s[j]);
    }
  }

  lemma CompatibleSymmetric(a: Component, b: Component)
    requires Compatible(a, b)
    ensures Compatible(b, a)
  {
  }

  lemma PartCompatible(stream: seq<Component>, m: Component, a: Component, c: Component)
    requires Summarizes(stream, m) && a in stream && a.id == m.id && Compatible(m, c)
    ensures Compatible(a, c)
  {
    assert forall x | x in a.operations :: Declares(stream, m.id, x);
    assert forall x | x in a.types :: DeclaresType(stream, m.id, x);
  }

  // ---------------------------------------------------------------- one more component

  lemma DeclaresNext(stream: seq<Component>, c: Component, id: Name, x: Declaration, n: Name)
    ensures Declares(stream + [c], id, x) <==> Declares(stream, id, x) || (c.id == id && x in c.operations)
    ensures DeclaresType(stream + [c], id, x) <==> DeclaresType(stream, id, x) || (c.id == id && x in c.types)
    ensures DependsOn(stream + [c], id, n) <==> DependsOn(stream, id, n) || (c.id == id && n in c.dependencies)
  {
    var all := stream + [c];
    assert c in all && forall a | a in stream :: a in all;
    if a :| a in all && a.id == id && x in a.operations { assert a in stream || a == c; }
    if a :| a in all && a.id == id && x in a.types { assert a in stream || a == c; }
    if a :| a in all && a.id == id && n in a.dependencies { assert a in stream || a == c; }
  }

  /** Summaries of other components stay. */
  lemma SummaryStays(stream: seq<Component>, c: Component, m: Component)
    requires Summarizes(stream, m) && c.id != m.id
    ensures Summarizes(stream + [c], m)
  {
    CountNext(stream, c, m.id);
    forall x, n {
      DeclaresNext(stream, c, m.id, x, n);
    }
  }

  /** The union of a summary and one more declaration is the new summary. */
  lemma SummaryGrows(stream: seq<Component>, c: Component, m: Component, merged: Component)
    requires Summarizes(stream, m) && c.id == m.id && IsUnion(merged, m, c)
    ensures Summarizes(stream + [c], merged)
  {
    CountNext(stream, c, m.id);
    forall x, n {
      DeclaresNext(stream, c, m.id, x, n);
    }
  }

  /** A component seen for the first time is its own summary. */
  lemma SummaryStarts(stream: seq<Component>, c: Component)
    requires Count(stream, c.id) == 0 && Decoded(c)
    ensures Summarizes(stream + [c], c)
  {
    CountNext(stream, c, c.id);
    CountIsMembership(stream, c.id);
    forall x, n {
      DeclaresNext(stream, c, c.id, x, n);
    }
  }

  lemma RegistryMerged(stream: seq<Component>, registry: seq<Component>, at: nat, c: Component, merged: Component)
    requires && IsRegistry(stream, registry)
             && at < |registry|
             && registry[at].id == c.id
             && IsUnion(merged, registry[at], c)
    ensures IsRegistry(stream + [c], registry[at := merged])
  {
    var after := registry[at := merged];
    forall i | 0 <= i < |after|
      ensures Summarizes(stream + [c], after[i])
    {
      assert registry[i] in registry;
      if i == at {
        SummaryGrows(stream, c, registry[at], merged);
      } else {
        Utf8Order.LexTotalOrder(BY_ID(registry[i]), BY_ID(registry[at]));
        SummaryStays(stream, c, registry[i]);
      }
    }
    forall a | a in stream + [c]
      ensures HasKey(BY_ID, after, a.id)
    {
      if a in stream {
        assert HasKey(BY_ID, registry, a.id);
        var i :| 0 <= i < |registry| && BY_ID(registry[i]) == a.id;
        assert BY_ID(after[i]) == a.id;
      } else {
        assert BY_ID(after[at]) == a.id;
      }
    }
  }

  lemma RegistryAdded(stream: seq<Component>, registry: seq<Component>, c: Component)
    requires AllAgree(stream) && IsRegistry(stream, registry) && !HasKey(BY_ID, registry, c.id) && Decoded(c)
    ensures AllAgree(stream + [c]) && IsRegistry(stream + [c], Insert(BY_ID, c, registry))
  {
    var after := Insert(BY_ID, c, registry);
    InsertStrict(BY_ID, c, registry);
    CountIsMembership(stream, c.id);
    SelfCompatible(c);
    forall m | m in after
      ensures Summarizes(stream + [c], m)
    {
      InsertElements(BY_ID, c, registry, m);
      if m == c {
        SummaryStarts(stream, c);
      } else {
        KeyOfMember(registry, m);
        SummaryStays(stream, c, m);
      }
    }
    forall a | a in stream + [c]
      ensures HasKey(BY_ID, after, a.id)
    {
      if a in stream {
        var i :| 0 <= i < |registry| && BY_ID(registry[i]) == a.id;
        InsertElements(BY_ID, c, registry, registry[i]);
        KeyOfMember(after, registry[i]);
      } else {
        InsertElements(BY_ID, c, registry, c);
        KeyOfMember(after, c);
      }
    }
  }

  lemma KeyOfMember(registry: seq<Component>, m: Component)
    requires m in registry
    ensures HasKey(BY_ID, registry, m.id)
  {
    var i :| 0 <= i < |registry| && registry[i] == m;
    assert BY_ID(registry[i]) == m.id;
  }

  // ---------------------------------------------------------------- order and repetition

  lemma SameDeclared(a: seq<Component>, b: seq<Component>, id: Name)
    requires forall c :: c in a <==> c in b
    ensures forall x :: Declares(a, id, x) <==> Declares(b, id, x)
    ensures forall x :: DeclaresType(a, id, x) <==> DeclaresType(b, id, x)
    ensures forall n :: DependsOn(a, id, n) <==> DependsOn(b, id, n)
  {
  }

  /** How often a component is given does not matter, or its dependency lists are sorted. */
  ghost predicate SameForm(a: seq<Component>, b: seq<Component>, id: Name) {
    (Count(a, id) > 1 <==> Count(b, id) > 1) || forall c | c in a && c.id == id :: Strict(ITSELF, c.dependencies)
  }

  lemma SummaryIsUnique(a: seq<Component>, b: seq<Component>, m: Component, w: Component)
    requires (forall c :: c in a <==> c in b) && m.id == w.id && SameForm(a, b, m.id)
    requires Summarizes(a, m) && Summarizes(b, w)
    ensures m == w
  {
    SameDeclared(a, b, m.id);
    StrictIsUnique(BY_NAME, m.operations, w.operations);
    StrictIsUnique(BY_NAME, m.types, w.types);
    CountIsMembership(a, m.id);
    var c :| c in a && c.id == m.id;
    if Count(a, m.id) > 1 || Count(b, m.id) > 1 {
      StrictIsUnique(ITSELF, m.dependencies, w.dependencies);
    } else {
      assert m.dependencies == c.dependencies == w.dependencies;
    }
  }

  /** The registry depends only on which components are given, and on how often for unsorted dependencies. */
  lemma RegistryIsUnique(a: seq<Component>, b: seq<Component>, ra: seq<Component>, rb: seq<Component>)
    requires (forall c :: c in a <==> c in b) && forall id :: SameForm(a, b, id)
    requires IsRegistry(a, ra) && IsRegistry(b, rb)
    ensures ra == rb
  {
    forall m
      ensures m in ra <==> m in rb
    {
      if m in ra {
        InOther(a, b, ra, rb, m);
      }
      if m in rb {
        OtherForm(a, b);
        InOther(b, a, rb, ra, m);
      }
    }
    StrictIsUnique(BY_ID, ra, rb);
  }

  lemma OtherForm(a: seq<Component>, b: seq<Component>)
    requires (forall c :: c in a <==> c in b) && forall id :: SameForm(a, b, id)
    ensures forall id :: SameForm(b, a, id)
  {
    forall id
      ensures SameForm(b, a, id)
    {
      assert SameForm(a, b, id);
    }
  }

  lemma InOther(a: seq<Component>, b: seq<Component>, ra: seq<Component>, rb: seq<Component>, m: Component)
    requires (forall c :: c in a <==> c in b) && forall id :: SameForm(a, b, id)
    requires IsRegistry(a, ra) && IsRegistry(b, rb) && m in ra
    ensures m in rb
  {
    CountIsMembership(a, m.id);
    var c :| c in a && c.id == m.id;
    assert HasKey(BY_ID, rb, c.id);
    var i :| 0 <= i < |rb| && BY_ID(rb[i]) == m.id;
    assert rb[i] in rb;
    SummaryIsUnique(a, b, m, rb[i]);
  }

  lemma {:induction false} CountConcat(a: seq<Component>, b: seq<Component>, id: Name)
    ensures Count(a + b, id) == Count(a, id) + Count(b, id)
  {
    if b == [] {
      assert a + b == a;
    } else {
      assert (a + b)[..|a + b| - 1] == a + b[..|b| - 1];
      CountConcat(a, b[..|b| - 1], id);
    }
  }

  function Without(s: seq<Component>, i: nat): seq<Component>
    requires i < |s|
  {
    s[..i] + s[i + 1..]
  }

  lemma CountWithout(s: seq<Component>, i: nat, id: Name)
    requires i < |s|
    ensures Count(s, id) == Count(Without(s, i), id) + if s[i].id == id then 1 else 0
  {
    hide Count;
    assert s == (s[..i] + [s[i]]) + s[i + 1..];
    CountConcat(s[..i] + [s[i]], s[i + 1..], id);
    CountNext(s[..i], s[i], id);
    CountConcat(s[..i], s[i + 1..], id);
  }

  lemma BagWithout(s: seq<Component>, i: nat)
    requires i < |s|
    ensures multiset(Without(s, i)) == multiset(s) - multiset{s[i]}
  {
    assert s == s[..i] + [s[i]] + s[i + 1..];
  }

  lemma {:induction false} CountPermutes(a: seq<Component>, b: seq<Component>, id: Name)
    requires multiset(a) == multiset(b)
    ensures Count(a, id) == Count(b, id)
    decreases |a|
  {
    assert |multiset(a)| == |a| && |multiset(b)| == |b|;
    if a != [] {
      hide Count;
      assert a[0] in multiset(b);
      var i :| 0 <= i < |b| && b[i] == a[0];
      BagWithout(a, 0);
      BagWithout(b, i);
      CountWithout(a, 0, id);
      CountWithout(b, i, id);
      CountPermutes(Without(a, 0), Without(b, i), id);
    }
  }

  /** The order of the schemas does not matter, for success or for the registry. */
  lemma OrderDoesNotMatter(a: seq<Component>, b: seq<Component>, ra: seq<Component>, rb: seq<Component>)
    requires multiset(a) == multiset(b)
    ensures AllAgree(a) <==> AllAgree(b)
    ensures IsRegistry(a, ra) && IsRegistry(b, rb) ==> ra == rb
  {
    forall c
      ensures c in a <==> c in b
    {
      assert c in multiset(a) <==> c in multiset(b);
    }
    if IsRegistry(a, ra) && IsRegistry(b, rb) {
      forall id
        ensures SameForm(a, b, id)
      {
        CountPermutes(a, b, id);
      }
      RegistryIsUnique(a, b, ra, rb);
    }
  }

  /** The components whose first repetition the added ones are keep their dependencies only when those are sorted. */
  ghost predicate RepeatsSorted(stream: seq<Component>, more: seq<Component>) {
    forall c | c in stream && Count(stream, c.id) == 1 && Count(stream + more, c.id) > 1 ::
      Strict(ITSELF, c.dependencies)
  }

  lemma RepeatedForm(stream: seq<Component>, more: seq<Component>, id: Name)
    requires (forall c | c in more :: c in stream) && RepeatsSorted(stream, more)
    ensures SameForm(stream, stream + more, id)
  {
    CountConcat(stream, more, id);
    CountIsMembership(stream, id);
    CountIsMembership(more, id);
  }

  /** Where a component's only list is repeated, an unchanged registry means that the list was sorted. */
  lemma UnchangedIsSorted(stream: seq<Component>, more: seq<Component>, r: seq<Component>, c: Component)
    requires IsRegistry(stream, r) && IsRegistry(stream + more, r)
    requires c in stream && Count(stream, c.id) == 1 && Count(stream + more, c.id) > 1
    ensures Strict(ITSELF, c.dependencies)
  {
    assert HasKey(BY_ID, r, c.id);
    var i :| 0 <= i < |r| && BY_ID(r[i]) == c.id;
    assert r[i] in r && Summarizes(stream, r[i]) && Summarizes(stream + more, r[i]);
  }

  /**
    Giving schemas again changes nothing if and only if every component that was given once and is now repeated
    had its dependencies sorted.
   */
  lemma RepetitionExactly(stream: seq<Component>, more: seq<Component>, r: seq<Component>, again: seq<Component>)
    requires forall c | c in more :: c in stream
    ensures AllAgree(stream) <==> AllAgree(stream + more)
    ensures IsRegistry(stream, r) && IsRegistry(stream + more, again) ==> (r == again <==> RepeatsSorted(stream, more))
  {
    assert forall c :: c in stream + more <==> c in stream;
    if IsRegistry(stream, r) && IsRegistry(stream + more, again) {
      if RepeatsSorted(stream, more) {
        forall id
          ensures SameForm(stream, stream + more, id)
        {
          RepeatedForm(stream, more, id);
        }
        RegistryIsUnique(stream, stream + more, r, again);
      }
      if r == again {
        forall c | c in stream && Count(stream, c.id) == 1 && Count(stream + more, c.id) > 1
          ensures Strict(ITSELF, c.dependencies)
        {
          UnchangedIsSorted(stream, more, r, c);
        }
      }
    }
  }

  /** In particular, with all dependency lists sorted repetition never matters. */
  lemma RepetitionDoesNotMatter(stream: seq<Component>, more: seq<Component>, r: seq<Component>, again: seq<Component>)
    requires (forall c | c in more :: c in stream) && forall c | c in stream :: Strict(ITSELF, c.dependencies)
    ensures IsRegistry(stream, r) && IsRegistry(stream + more, again) ==> r == again
  {
    RepetitionExactly(stream, more, r, again);
  }

  lemma Unsorted()
    ensures !Strict(ITSELF, [[3], [2]])
  {
    var s: seq<Name> := [[3], [2]];
    assert Utf8Order.Lex(ITSELF(s[0]), ITSELF(s[1])) == 1;
  }

  /** An example that does change: giving this component a second time sorts its dependencies. */
  lemma RepetitionSortsDependencies(r: seq<Component>, again: seq<Component>)
    requires var c := Component([1], [[3], [2]], [], []); IsRegistry([c], r) && IsRegistry([c] + [c], again)
    ensures r != again
  {
    var c := Component([1], [[3], [2]], [], []);
    assert Count([c], [1]) == 1 by { assert [c][..0] == []; }
    CountConcat([c], [c], [1]);
    Unsorted();
    RepetitionExactly([c], [c], r, again);
    assert c in [c] && Count([c], c.id) == 1 && Count([c] + [c], c.id) > 1;
  }
}
