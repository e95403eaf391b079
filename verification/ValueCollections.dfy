/**
  How sets and maps of values are built: `Value.Set` sorts and compacts an array,
  `Value.Map` fills a dictionary sorted by UTF-8 key order.
 */
module ValueCollections {
  import opened Utf8Order
  import opened Values

  // ---------------------------------------------------------------- sorting

  ghost predicate Ascending(s: seq<Value>) {
    forall i, j | 0 <= i < j < |s| :: Values.Compare(s[i], s[j]) <= 0
  }

  ghost predicate StrictlyAscending(s: seq<Value>) {
    forall i, j | 0 <= i < j < |s| :: Values.Compare(s[i], s[j]) < 0
  }

  /** Sorting by `Compare`. The algorithm is immaterial: see `SortingIsUnique`. */
  function Sort(s: seq<Value>): (r: seq<Value>)
    ensures Ascending(r) && multiset(r) == multiset(s)
  {
    if s == [] then [] else
      var rest := Sort(s[1..]);
      assert s == [s[0]] + s[1..];
      InsertPermutes(s[0], rest);
      InsertAscending(s[0], rest);
      Insert(s[0], rest)
  }

  function Insert(v: Value, s: seq<Value>): seq<Value> {
    if s == [] then [v]
    else if Values.Compare(v, s[0]) <= 0 then [v] + s
    else [s[0]] + Insert(v, s[1..])
  }

  lemma {:induction false} InsertPermutes(v: Value, s: seq<Value>)
    ensures multiset(Insert(v, s)) == multiset(s) + multiset{v}
  {
    if s != [] && Values.Compare(v, s[0]) > 0 {
      assert s == [s[0]] + s[1..];
      InsertPermutes(v, s[1..]);
    }
  }

  lemma {:induction false} InsertAscending(v: Value, s: seq<Value>)
    requires Ascending(s)
    ensures Ascending(Insert(v, s))
  {
    hide Values.Compare;
    if s != [] {
      if Values.Compare(v, s[0]) <= 0 {
        forall i | 0 <= i < |s| ensures Values.Compare(v, s[i]) <= 0 {
          CompareTransitive(v, s[0], s[i]);
          CompareTotal(s[0], s[i]);
        }
      } else {
        InsertAscending(v, s[1..]);
        var rest := Insert(v, s[1..]);
        forall i | 0 <= i < |rest| ensures Values.Compare(s[0], rest[i]) <= 0 {
          CompareTotal(v, s[0]);
          InsertPermutes(v, s[1..]);
          assert rest[i] in multiset(rest);
        }
      }
    }
  }

  lemma InBoth(a: seq<Value>, b: seq<Value>, v: Value)
    requires multiset(a) == multiset(b) && v in a
    ensures v in b
  {
    assert v in multiset(a);
  }

  lemma SameHead(a: seq<Value>, b: seq<Value>)
    requires Ascending(a) && Ascending(b) && multiset(a) == multiset(b) && a != [] && b != []
    ensures a[0] == b[0]
  {
    InBoth(a, b, a[0]);
    InBoth(b, a, b[0]);
    CompareTotal(a[0], b[0]);
    CompareTotal(a[0], a[0]);
  }

  /** Two ascending arrangements of the same elements are the same sequence. */
  lemma {:induction false} SortingIsUnique(a: seq<Value>, b: seq<Value>)
    requires Ascending(a) && Ascending(b) && multiset(a) == multiset(b)
    ensures a == b
  {
    hide Values.Compare;
    assert |multiset(a)| == |a| && |multiset(b)| == |b|;
    if a != [] {
      SameHead(a, b);
      TailOf(a);
      TailOf(b);
      SortingIsUnique(a[1..], b[1..]);
      assert a == [a[0]] + a[1..] && b == [b[0]] + b[1..];
    }
  }

  lemma TailOf(s: seq<Value>)
    requires Ascending(s) && s != []
    ensures Ascending(s[1..]) && multiset(s[1..]) == multiset(s) - multiset{s[0]}
  {
    hide Values.Compare;
    assert s == [s[0]] + s[1..];
  }

  // ---------------------------------------------------------------- Value.Set

  /** The compaction loop as a function: keep an element unless it equals the one kept last. */
  function Compact(s: seq<Value>): seq<Value> {
    if s == [] then [] else
      var kept, v := Compact(s[..|s| - 1]), s[|s| - 1];
      if kept == [] || Values.Compare(kept[|kept| - 1], v) != 0 then kept + [v] else kept
  }

  lemma {:induction false} CompactKeepsElements(s: seq<Value>)
    requires Ascending(s)
    ensures StrictlyAscending(Compact(s))
    ensures forall v :: v in Compact(s) <==> v in s
    ensures s != [] ==> Compact(s) != [] && Compact(s)[|Compact(s)| - 1] == s[|s| - 1]
  {
    hide Values.Compare;
    if s != [] {
      var init, v := s[..|s| - 1], s[|s| - 1];
      assert s == init + [v];
      CompactKeepsElements(init);
      var kept := Compact(init);
      if kept != [] {
        CompareTotal(kept[|kept| - 1], v);
        assert kept[|kept| - 1] == s[|init| - 1];
      }
      if kept == [] || Values.Compare(kept[|kept| - 1], v) != 0 {
        KeepAscending(kept, v);
      }
    }
  }

  /** The loop itself: overwrites the front of the array and returns how much of it is kept. */
  method CompactInPlace(a: array<Value>) returns (count: nat)
    modifies a
    ensures count <= a.Length && a[..count] == Compact(old(a[..]))
  {
    ghost var s := a[..];
    count := 0;
    for index := 0 to a.Length
      invariant count <= index
      invariant forall i | index <= i < a.Length :: a[i] == s[i]
      invariant a[..count] == Compact(s[..index])
    {
      CompactStep(s, index);
      var order := 0;
      if count > 0 {
        order := CompareValues(a[count - 1], a[index]);
      }
      if count == 0 || order != 0 {
        ghost var kept := a[..count];
        a[count] := a[index];
        count := count + 1;
        assert a[..count] == kept + [s[index]];
      }
    }
    assert s[..a.Length] == s;
  }

  method MakeSet(items: seq<Value>) returns (kept: seq<Value>)
    ensures StrictlyAscending(kept)
    ensures forall v :: v in kept <==> v in items
    ensures kept == Compact(Sort(items))
  {
    var sorted := Sort(items);
    var materialized := new Value[|sorted|](i requires 0 <= i < |sorted| => sorted[i]);
    assert materialized[..] == sorted;
    var count := CompactInPlace(materialized);
    CompactKeepsElements(sorted);
    SortKeepsElements(items);
    return materialized[..count];
  }

  lemma CompactStep(s: seq<Value>, index: nat)
    requires index < |s|
    ensures var kept := Compact(s[..index]);
            Compact(s[..index + 1]) ==
            if kept == [] || Values.Compare(kept[|kept| - 1], s[index]) != 0 then kept + [s[index]] else kept
  {
    assert s[..index + 1][..index] == s[..index];
  }

  lemma SortKeepsElements(s: seq<Value>)
    ensures forall v :: v in Sort(s) <==> v in s
  {
    forall v ensures v in Sort(s) <==> v in s {
      assert v in multiset(Sort(s)) <==> v in multiset(s);
    }
  }

  lemma KeepAscending(s: seq<Value>, v: Value)
    requires StrictlyAscending(s)
    requires s != [] ==> Values.Compare(s[|s| - 1], v) < 0
    ensures StrictlyAscending(s + [v])
  {
    forall i | 0 <= i < |s| ensures Values.Compare(s[i], v) < 0 {
      CompareTransitive(s[i], s[|s| - 1], v);
    }
  }

  lemma StrictIsDistinct(s: seq<Value>)
    requires StrictlyAscending(s)
    ensures Ascending(s)
    ensures forall i, j | 0 <= i < j < |s| :: s[i] != s[j]
  {
    forall i, j | 0 <= i < j < |s| ensures s[i] != s[j] {
      CompareTotal(s[i], s[j]);
    }
  }

  lemma {:induction false} DistinctCounts(s: seq<Value>)
    requires forall i, j | 0 <= i < j < |s| :: s[i] != s[j]
    ensures forall v :: multiset(s)[v] == if v in s then 1 else 0
  {
    if s != [] {
      assert s == [s[0]] + s[1..];
      DistinctCounts(s[1..]);
    }
  }

  /** A set depends only on which elements were given, not on their order or repetition. */
  lemma SetIsUnique(a: seq<Value>, b: seq<Value>)
    requires StrictlyAscending(a) && StrictlyAscending(b)
    requires forall v :: v in a <==> v in b
    ensures a == b
  {
    StrictIsDistinct(a);
    StrictIsDistinct(b);
    DistinctCounts(a);
    DistinctCounts(b);
    SortingIsUnique(a, b);
  }

  /** A set of pairwise different elements loses none of them. */
  lemma SetKeepsDistinct(items: seq<Value>, kept: seq<Value>)
    requires StrictlyAscending(kept) && forall v :: v in kept <==> v in items
    requires forall i, j | 0 <= i < j < |items| :: items[i] != items[j]
    ensures multiset(kept) == multiset(items) && |kept| == |items|
  {
    StrictIsDistinct(kept);
    DistinctCounts(kept);
    DistinctCounts(items);
    assert |multiset(kept)| == |kept| && |multiset(items)| == |items|;
  }

  // ---------------------------------------------------------------- Value.Map

  ghost predicate KeysAscending(es: seq<Entry>) {
    forall i, j | 0 <= i < j < |es| :: Order(es[i].key, es[j].key) < 0
  }

  ghost predicate HasKey(es: seq<Entry>, key: Text) {
    es != [] && (es[0].key == key || HasKey(es[1..], key))
  }

  /** The position of the first entry of the key. */
  function Find(es: seq<Entry>, key: Text): (i: nat)
    requires HasKey(es, key)
    ensures i < |es| && es[i].key == key
  {
    if es[0].key == key then 0 else 1 + Find(es[1..], key)
  }

  function Get(es: seq<Entry>, key: Text): Value
    requires HasKey(es, key)
  {
    es[Find(es, key)].value
  }

  lemma {:induction false} HasKeyIsMembership(es: seq<Entry>, key: Text)
    ensures HasKey(es, key) <==> exists i :: 0 <= i < |es| && es[i].key == key
  {
    if es != [] {
      HasKeyIsMembership(es[1..], key);
      if i :| 0 <= i < |es| && es[i].key == key {
        assert i > 0 ==> es[1..][i - 1].key == key;
      }
    }
  }

  /** One dictionary assignment: replace the entry of the key or insert one in key order. */
  function Put(es: seq<Entry>, e: Entry): seq<Entry> {
    if es == [] then [e]
    else if Order(e.key, es[0].key) < 0 then [e] + es
    else if e.key == es[0].key then [e] + es[1..]
    else [es[0]] + Put(es[1..], e)
  }

  lemma {:induction false} PutGets(es: seq<Entry>, e: Entry, k: Text)
    requires KeysAscending(es)
    ensures HasKey(Put(es, e), k) <==> k == e.key || HasKey(es, k)
    ensures HasKey(Put(es, e), k) ==> Get(Put(es, e), k) == if k == e.key then e.value else Get(es, k)
  {
    var r := Put(es, e);
    assert es != [] ==> r[1..] == es || r[1..] == es[1..] || r[1..] == Put(es[1..], e);
    if es != [] {
      if Order(e.key, es[0].key) < 0 {
        assert r[1..] == es;
        PutFirst(es, e);
      } else if e.key == es[0].key {
        assert r[1..] == es[1..];
      } else {
        assert r[1..] == Put(es[1..], e);
        PutGets(es[1..], e, k);
      }
    }
  }

  lemma {:induction false} PutAscending(es: seq<Entry>, e: Entry)
    requires KeysAscending(es)
    ensures KeysAscending(Put(es, e))
  {
    if es != [] {
      if Order(e.key, es[0].key) < 0 {
        PutFirst(es, e);
      } else if e.key != es[0].key {
        PutAscending(es[1..], e);
        PutLater(es, e);
      }
    }
  }

  lemma PutFirst(es: seq<Entry>, e: Entry)
    requires KeysAscending(es) && es != [] && Order(e.key, es[0].key) < 0
    ensures KeysAscending([e] + es) && !HasKey(es, e.key) && ([e] + es)[1..] == es
  {
    forall i | 0 <= i < |es| ensures Order(e.key, es[i].key) < 0 && e.key != es[i].key {
      OrderIsTotal(es[0].key, es[i].key);
      OrderIsTransitive(e.key, es[0].key, es[i].key);
      OrderIsTotal(e.key, es[i].key);
    }
    HasKeyIsMembership(es, e.key);
  }

  lemma PutLater(es: seq<Entry>, e: Entry)
    requires KeysAscending(es) && es != [] && KeysAscending(Put(es[1..], e))
    requires Order(e.key, es[0].key) >= 0 && e.key != es[0].key
    ensures KeysAscending([es[0]] + Put(es[1..], e))
  {
    OrderIsTotal(es[0].key, e.key);
    forall i | 0 <= i < |Put(es[1..], e)| ensures Order(es[0].key, Put(es[1..], e)[i].key) < 0 {
      PutOrigin(es[1..], e, i);
    }
  }

  /** Every entry of the result is the new one or one that was there. */
  lemma {:induction false} PutOrigin(es: seq<Entry>, e: Entry, i: nat)
    requires i < |Put(es, e)|
    ensures Put(es, e)[i] == e || exists j :: 0 <= j < |es| && Put(es, e)[i] == es[j]
  {
    if es != [] {
      if Order(e.key, es[0].key) < 0 {
        assert i > 0 ==> Put(es, e)[i] == es[i - 1];
      } else if e.key == es[0].key {
        assert i > 0 ==> Put(es, e)[i] == es[i];
      } else if i > 0 {
        PutOrigin(es[1..], e, i - 1);
      } else {
        assert Put(es, e)[0] == es[0];
      }
    }
  }

  function PutAll(es: seq<Entry>, more: seq<Entry>): (r: seq<Entry>)
    requires KeysAscending(es)
    ensures KeysAscending(r)
    decreases |more|
  {
    if more == [] then es else
      PutAscending(es, more[0]);
      PutAll(Put(es, more[0]), more[1..])
  }

  /** `Value.Map`: later entries of a key replace earlier ones. */
  function MapOf(es: seq<Entry>): Value {
    Map(PutAll([], es))
  }

  /** The last entry of the key, the one a dictionary filled in order ends up with. */
  ghost function GetLast(es: seq<Entry>, key: Text): Value
    requires HasKey(es, key)
  {
    if HasKey(es[1..], key) then GetLast(es[1..], key) else es[0].value
  }

  lemma {:induction false} PutAllGets(es: seq<Entry>, more: seq<Entry>, key: Text)
    requires KeysAscending(es)
    ensures HasKey(PutAll(es, more), key) <==> HasKey(es, key) || HasKey(more, key)
    ensures HasKey(more, key) ==> Get(PutAll(es, more), key) == GetLast(more, key)
    ensures HasKey(es, key) && !HasKey(more, key) ==> Get(PutAll(es, more), key) == Get(es, key)
    decreases |more|
  {
    if more != [] {
      PutAscending(es, more[0]);
      PutGets(es, more[0], key);
      PutAllGets(Put(es, more[0]), more[1..], key);
    }
  }

  /** A map built from entries with pairwise different keys holds exactly those entries. */
  lemma {:induction false} GetLastIsGet(es: seq<Entry>, i: nat)
    requires i < |es| && forall j, k | 0 <= j < k < |es| :: es[j].key != es[k].key
    ensures HasKey(es, es[i].key) && GetLast(es, es[i].key) == es[i].value
    ensures Get(es, es[i].key) == es[i].value
  {
    HasKeyIsMembership(es, es[i].key);
    HasKeyIsMembership(es[1..], es[i].key);
    if i > 0 {
      assert es[1..][i - 1] == es[i];
      GetLastIsGet(es[1..], i - 1);
    }
  }

  lemma AscendingKeysDiffer(es: seq<Entry>)
    requires KeysAscending(es)
    ensures forall i, j | 0 <= i < j < |es| :: es[i].key != es[j].key
  {
    forall i, j | 0 <= i < j < |es| ensures es[i].key != es[j].key {
      OrderIsTotal(es[i].key, es[j].key);
    }
  }

  /** Two maps with the same value at every key are the same map. */
  lemma {:induction false} MapIsUnique(a: seq<Entry>, b: seq<Entry>)
    requires KeysAscending(a) && KeysAscending(b)
    requires forall k :: HasKey(a, k) <==> HasKey(b, k)
    requires forall k | HasKey(a, k) :: Get(a, k) == Get(b, k)
    ensures a == b
  {
    if a == [] {
      assert b != [] ==> HasKey(b, b[0].key);
    } else {
      assert HasKey(a, a[0].key) && HasKey(b, a[0].key);
      assert HasKey(b, b[0].key) && HasKey(a, b[0].key);
      OrderIsTotal(a[0].key, b[0].key);
      var i, j := Find(b, a[0].key), Find(a, b[0].key);
      OrderIsTotal(b[0].key, b[i].key);
      OrderIsTotal(a[0].key, a[j].key);
      assert a[0].key == b[0].key && a[0].value == Get(a, a[0].key);
      forall k ensures HasKey(a[1..], k) <==> HasKey(b[1..], k) {
        TailKeys(a, k);
        TailKeys(b, k);
      }
      forall k | HasKey(a[1..], k) ensures Get(a[1..], k) == Get(b[1..], k) {
        TailKeys(a, k);
      }
      MapIsUnique(a[1..], b[1..]);
      assert a == [a[0]] + a[1..] && b == [b[0]] + b[1..];
    }
  }

  lemma TailKeys(es: seq<Entry>, key: Text)
    requires KeysAscending(es) && es != []
    ensures HasKey(es[1..], key) ==> key != es[0].key && HasKey(es, key) && Get(es, key) == Get(es[1..], key)
  {
    AscendingKeysDiffer(es);
    HasKeyIsMembership(es[1..], key);
  }

  /** `Value.Set` depends only on which elements were given. */
  lemma SetDependsOnElementsOnly(a: seq<Value>, b: seq<Value>)
    requires forall v :: v in a <==> v in b
    ensures Compact(Sort(a)) == Compact(Sort(b))
  {
    SortKeepsElements(a);
    SortKeepsElements(b);
    CompactKeepsElements(Sort(a));
    CompactKeepsElements(Sort(b));
    SetIsUnique(Compact(Sort(a)), Compact(Sort(b)));
  }
}
