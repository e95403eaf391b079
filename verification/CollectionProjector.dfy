/** Collections that must not hold two equivalent elements or keys. */
module CollectionProjector {
  import opened Values
  import opened ValueCollections
  import opened SemanticEquality

  datatype Projection = Accepted(value: Value) | Rejected

  ghost predicate PairwiseInequivalent(env: Declarations, t: Type, vs: seq<Value>)
    requires HaveType(env, t, vs)
  {
    forall i, j | 0 <= i < j < |vs| :: !Equivalent(env, t, vs[i], vs[j])
  }

  /** Equality of values implies equivalence, so inequivalent elements are different values. */
  lemma InequivalentDiffer(env: Declarations, t: Type, vs: seq<Value>)
    requires HaveType(env, t, vs) && PairwiseInequivalent(env, t, vs)
    ensures forall i, j | 0 <= i < j < |vs| :: vs[i] != vs[j]
  {
    forall i, j | 0 <= i < j < |vs| ensures vs[i] != vs[j] {
      CanonicalDecides(env, t, vs[i], vs[j]);
    }
  }

  lemma InequivalentCanonically(env: Declarations, t: Type, vs: seq<Value>)
    requires HaveType(env, t, vs)
    ensures PairwiseInequivalent(env, t, vs) <==> Differ(CanonicalizeAll(env, t, vs))
  {
    var cs := CanonicalizeAll(env, t, vs);
    forall i, j | 0 <= i < j < |vs| ensures cs[i] == cs[j] <==> Equivalent(env, t, vs[i], vs[j]) {
      CanonicalDecides(env, t, vs[i], vs[j]);
    }
  }

  ghost predicate Differ(s: seq<Value>) {
    forall i, j | 0 <= i < j < |s| :: s[i] != s[j]
  }

  /** `Distinct().Count()`. */
  method CountDistinct(s: seq<Value>) returns (count: nat)
    ensures count == |s| <==> Differ(s)
  {
    var seen: set<Value> := {};
    for i := 0 to |s|
      invariant seen == set v | v in s[..i]
      invariant |seen| <= i
      invariant |seen| == i <==> Differ(s[..i])
    {
      assert s[..i + 1] == s[..i] + [s[i]];
      if s[i] in seen {
        assert !Differ(s[..i + 1]) by {
          var k :| 0 <= k < i && s[..i][k] == s[i];
          assert s[..i + 1][k] == s[..i + 1][i];
        }
      } else {
        assert Differ(s[..i + 1]) <==> Differ(s[..i]) by {
          assert forall k | 0 <= k < i :: s[..i + 1][k] == s[..i][k];
        }
      }
      seen := seen + {s[i]};
    }
    assert s[..|s|] == s;
    return |seen|;
  }

  /** Accepts exactly the pairwise inequivalent collections, and its set loses no element. */
  method Unique(env: Declarations, t: Type, elements: seq<Value>) returns (r: Projection)
    requires (t.UniqueSet? || t.OrderedSet?) && HaveType(env, t.element, elements)
    ensures r.Accepted? <==> PairwiseInequivalent(env, t.element, elements)
    ensures r.Accepted? && t.OrderedSet? ==> r.value == List(elements)
    ensures r.Accepted? && t.UniqueSet? ==>
              r.value.Set? && StrictlyAscending(r.value.items) && multiset(r.value.items) == multiset(elements)
  {
    InequivalentCanonically(env, t.element, elements);
    var distinct := CountDistinct(CanonicalizeAll(env, t.element, elements));
    if distinct != |elements| {
      return Rejected;
    }
    if t.OrderedSet? {
      return Accepted(List(elements));
    }
    var kept := MakeSet(elements);
    InequivalentDiffer(env, t.element, elements);
    SetKeepsDistinct(elements, kept);
    return Accepted(Set(kept));
  }

  type Pair = (Value, Value)

  /** The accepted keys are well typed and pairwise inequivalent. */
  ghost predicate GoodKeys(env: Declarations, t: Type, compact: bool, added: seq<Pair>) {
    && (forall i | 0 <= i < |added| :: HasType(env, t, added[i].0) && (compact ==> added[i].0.String?))
    && (forall i, j | 0 <= i < j < |added| :: !Equivalent(env, t, added[i].0, added[j].0))
  }

  /** The hash set holds exactly the canonical forms of the accepted keys. */
  ghost predicate CanonicalKeys(env: Declarations, t: Type, compact: bool, added: seq<Pair>, keys: set<Value>)
    requires GoodKeys(env, t, compact, added)
  {
    && (forall i | 0 <= i < |added| :: Canonicalize(env, t, added[i].0) in keys)
    && (forall c | c in keys :: exists i :: 0 <= i < |added| && Canonicalize(env, t, added[i].0) == c)
  }

  lemma KeyIsKnown(env: Declarations, t: Type, compact: bool, added: seq<Pair>, keys: set<Value>, key: Value)
    requires GoodKeys(env, t, compact, added) && CanonicalKeys(env, t, compact, added, keys) && HasType(env, t, key)
    ensures Canonicalize(env, t, key) in keys <==> exists i :: 0 <= i < |added| && Equivalent(env, t, added[i].0, key)
  {
    hide Equivalent, Canonicalize, HasType;
    forall i | 0 <= i < |added|
      ensures Canonicalize(env, t, added[i].0) == Canonicalize(env, t, key) <==> Equivalent(env, t, added[i].0, key)
    {
      CanonicalDecides(env, t, added[i].0, key);
    }
  }

  lemma KeyIsGood(env: Declarations, t: Type, compact: bool, added: seq<Pair>, pair: Pair)
    requires GoodKeys(env, t, compact, added)
    requires HasType(env, t, pair.0) && (compact ==> pair.0.String?)
    requires forall i | 0 <= i < |added| :: !Equivalent(env, t, added[i].0, pair.0)
    ensures GoodKeys(env, t, compact, added + [pair])
  {
    hide Equivalent, Canonicalize, HasType;
    var more := added + [pair];
    assert forall i | 0 <= i < |more| :: HasType(env, t, more[i].0);
    forall i, j | 0 <= i < j < |more| ensures !Equivalent(env, t, more[i].0, more[j].0) {
      assert more[i] == added[i];
      if j < |added| {
        assert more[j] == added[j];
      }
    }
  }

  lemma KeyIsAdded(env: Declarations, t: Type, compact: bool, added: seq<Pair>, keys: set<Value>, pair: Pair)
    requires GoodKeys(env, t, compact, added) && CanonicalKeys(env, t, compact, added, keys)
    requires GoodKeys(env, t, compact, added + [pair]) && HasType(env, t, pair.0)
    ensures CanonicalKeys(env, t, compact, added + [pair], keys + {Canonicalize(env, t, pair.0)})
  {
    hide Equivalent, Canonicalize, HasType, GoodKeys;
    var more := added + [pair];
    assert more[|added|] == pair && forall i | 0 <= i < |added| :: more[i] == added[i];
  }

  /** Collects the entries of one dictionary, refusing a key equivalent to an earlier one. */
  class MapBuilder {
    const env: Declarations
    const keyType: Type
    const compact: bool
    var entries: seq<Entry>
    var orderedEntries: seq<Value>
    var keys: set<Value>
    ghost var added: seq<Pair>

    ghost predicate Valid()
      reads this
    {
      && GoodKeys(env, keyType, compact, added)
      && CanonicalKeys(env, keyType, compact, added, keys)
      && |entries| == (if compact then |added| else 0)
      && (compact ==> forall i | 0 <= i < |added| :: entries[i] == Entry(added[i].0.text, added[i].1))
      && |orderedEntries| == (if compact then 0 else |added|)
      && (!compact ==> forall i | 0 <= i < |added| :: orderedEntries[i] == KeyedEntry(added[i].0, added[i].1))
    }

    constructor (env: Declarations, keyType: Type, compact: bool)
      ensures Valid() && added == []
      ensures this.env == env && this.keyType == keyType && this.compact == compact
    {
      this.env, this.keyType, this.compact := env, keyType, compact;
      entries, orderedEntries, keys, added := [], [], {}, [];
    }

    method Add(key: Value, value: Value) returns (ok: bool)
      requires Valid() && HasType(env, keyType, key) && (compact ==> key.String?)
      modifies this
      ensures Valid()
      ensures ok <==> forall i | 0 <= i < |old(added)| :: !Equivalent(env, keyType, old(added)[i].0, key)
      ensures added == if ok then old(added) + [(key, value)] else old(added)
    {
      hide Canonicalize, Equivalent, HasType;
      var canonical := Canonicalize(env, keyType, key);
      KeyIsKnown(env, keyType, compact, added, keys, key);
      if canonical in keys {
        return false;
      }
      KeyIsGood(env, keyType, compact, added, (key, value));
      KeyIsAdded(env, keyType, compact, added, keys, (key, value));
      keys := keys + {canonical};
      if compact {
        entries := entries + [Entry(key.text, value)];
      } else {
        orderedEntries := orderedEntries + [KeyedEntry(key, value)];
      }
      added := added + [(key, value)];
      return true;
    }

    /** Every accepted entry is in the finished map, under its own key, and nothing else is. */
    method Finish() returns (built: Value)
      requires Valid()
      ensures compact ==> built.Map? && KeysAscending(built.entries)
      ensures compact ==>
                forall k :: HasKey(built.entries, k) <==> exists i :: 0 <= i < |added| && added[i].0 == String(k)
      ensures compact ==> forall i | 0 <= i < |added| ::
                HasKey(built.entries, added[i].0.text) && Get(built.entries, added[i].0.text) == added[i].1
      ensures !compact ==> built.List? && |built.items| == |added|
      ensures !compact ==> forall i | 0 <= i < |added| :: built.items[i] == KeyedEntry(added[i].0, added[i].1)
    {
      if !compact {
        return List(orderedEntries);
      }
      built := MapOf(entries);
      forall i, j | 0 <= i < j < |entries| ensures entries[i].key != entries[j].key {
        assert !Equivalent(env, keyType, added[i].0, added[j].0);
        CanonicalDecides(env, keyType, added[i].0, added[j].0);
      }
      forall i | 0 <= i < |added|
        ensures HasKey(built.entries, added[i].0.text) && Get(built.entries, added[i].0.text) == added[i].1
      {
        GetLastIsGet(entries, i);
        PutAllGets([], entries, entries[i].key);
      }
      forall k ensures HasKey(built.entries, k) <==> exists i :: 0 <= i < |added| && added[i].0 == String(k) {
        PutAllGets([], entries, k);
        HasKeyIsMembership(entries, k);
        if HasKey(entries, k) {
          assert added[Find(entries, k)].0 == String(k);
        }
        if i :| 0 <= i < |added| && added[i].0 == String(k) {
          assert entries[i].key == k;
        }
      }
    }
  }

  function KeyedEntry(key: Value, value: Value): Value {
    MapOf([Entry(KEY, key), Entry(VALUE, value)])
  }
}
