/**
  When the text of a value is read back as that value.

  The writer prints shortest digits; the reader is the one of a library, and the one the workspace builds need not
  round correctly. So the reader is arbitrary here: what comes back is exact for the values whose own doubles the
  reader gives back from their digits, and for no others, up to a reader that swaps two elements of a set.
 */
module RoundTrip {
  import opened Wrappers
  import opened Utf8Order
  import FO = FloatOrder
  import opened JsonText
  import opened CaptureJson
  import opened WireFormat
  import V = Values
  import VC = ValueCollections

  // ---------------------------------------------------------------- the conditions

  /** The reader gives each of these doubles back from its digits. */
  ghost predicate AllReread(d: Doubles, floats: set<FO.Long>) {
    forall bits <- floats :: Reread(d, bits) == bits
  }

  /** What the reader makes of a set of doubles. */
  ghost function Image(d: Doubles, floats: set<FO.Long>): set<FO.Long> {
    set bits <- floats :: Reread(d, bits)
  }

  /** Digits of a smaller double are not read as a larger one. */
  ghost predicate Monotone(d: Doubles) {
    forall a: FO.Long, b: FO.Long ::
      FO.IsFinite(a) && FO.IsFinite(b) && FO.Key(a) <= FO.Key(b) ==> FO.Key(Reread(d, a)) <= FO.Key(Reread(d, b))
  }

  /** No set anywhere in the value. */
  ghost predicate SetFree(v: V.Value)
    decreases v
  {
    match v
    case List(items) => forall i | 0 <= i < |items| :: SetFree(items[i])
    case Set(_) => false
    case Map(entries) => forall i | 0 <= i < |entries| :: SetFree(entries[i].value)
    case _ => true
  }

  /** The value is written and read back as itself. */
  ghost predicate ComesBack(d: Doubles, v: V.Value) {
    Decode(d, Print(ToJson(d, v))) == Some(v)
  }

  // ---------------------------------------------------------------- sets and maps built anew

  lemma SetStays(items: seq<V.Value>)
    requires VC.StrictlyAscending(items)
    ensures VC.Compact(VC.Sort(items)) == items
  {
    VC.SortKeepsElements(items);
    VC.CompactKeepsElements(VC.Sort(items));
    VC.SetIsUnique(VC.Compact(VC.Sort(items)), items);
  }

  lemma MapStays(entries: seq<V.Entry>)
    requires VC.KeysAscending(entries)
    ensures VC.MapOf(entries) == V.Map(entries)
  {
    hide VC.HasKey, VC.Get, VC.GetLast, VC.PutAll;
    var all := VC.PutAll([], entries);
    forall k
      ensures VC.HasKey(all, k) <==> VC.HasKey(entries, k)
    {
      EmptyHasNone(k);
      VC.PutAllGets([], entries, k);
    }
    forall k | VC.HasKey(all, k)
      ensures VC.Get(all, k) == VC.Get(entries, k)
    {
      VC.PutAllGets([], entries, k);
      LastIsFirst(entries, k);
    }
    VC.MapIsUnique(all, entries);
  }

  lemma EmptyHasNone(k: Text)
    ensures !VC.HasKey([], k)
  {
  }

  lemma LastIsFirst(entries: seq<V.Entry>, k: Text)
    requires VC.KeysAscending(entries) && VC.HasKey(entries, k)
    ensures VC.GetLast(entries, k) == VC.Get(entries, k)
  {
    VC.AscendingKeysDiffer(entries);
    VC.GetLastIsGet(entries, VC.Find(entries, k));
  }

  // ---------------------------------------------------------------- the condition suffices

  lemma {:induction false} InFloatsOf(items: seq<V.Value>, bits: FO.Long)
    ensures bits in FloatsOf(items) <==> exists v :: v in items && bits in Floats(v)
  {
    hide Floats;
    if items != [] {
      InFloatsOf(items[1..], bits);
      assert items == [items[0]] + items[1..];
      assert items[0] in items;
    }
  }

  lemma {:induction false} InFloatsIn(entries: seq<V.Entry>, bits: FO.Long)
    ensures bits in FloatsIn(entries) <==> exists e :: e in entries && bits in Floats(e.value)
  {
    hide Floats;
    if entries != [] {
      InFloatsIn(entries[1..], bits);
      assert entries == [entries[0]] + entries[1..];
      assert entries[0] in entries;
    }
  }

  /** A value whose doubles are all reread is read back as itself. */
  lemma {:induction false} RereadStays(d: Doubles, v: V.Value)
    requires Canonical(v) && AllReread(d, Floats(v))
    ensures ReadBack(d, v) == v
    decreases v
  {
    hide Reread, VC.StrictlyAscending, VC.KeysAscending, VC.Compact, VC.Sort, VC.MapOf;
    match v {
      case List(items) => ItemsStay(d, items);
      case Set(items) =>
        ItemsStay(d, items);
        SetStays(items);
      case Map(entries) =>
        EntriesStay(d, entries);
        MapStays(entries);
      case _ =>
    }
  }

  lemma {:induction false} ItemsStay(d: Doubles, items: seq<V.Value>)
    requires (forall i | 0 <= i < |items| :: Canonical(items[i])) && AllReread(d, FloatsOf(items))
    ensures ReadBackAll(d, items) == items
    decreases items
  {
    hide Reread, Canonical, Floats, ReadBack, FloatsOf;
    forall i | 0 <= i < |items|
      ensures ReadBack(d, items[i]) == items[i]
    {
      forall bits | bits in Floats(items[i])
        ensures Reread(d, bits) == bits
      {
        InFloatsOf(items, bits);
        assert items[i] in items && bits in Floats(items[i]);
        assert bits in FloatsOf(items);
      }
      RereadStays(d, items[i]);
    }
  }

  lemma {:induction false} EntriesStay(d: Doubles, entries: seq<V.Entry>)
    requires (forall i | 0 <= i < |entries| :: Canonical(entries[i].value)) && AllReread(d, FloatsIn(entries))
    ensures ReadBackEntries(d, entries) == entries
    decreases entries
  {
    hide Reread, Canonical, Floats, ReadBack, FloatsIn;
    forall i | 0 <= i < |entries|
      ensures ReadBack(d, entries[i].value) == entries[i].value
    {
      forall bits | bits in Floats(entries[i].value)
        ensures Reread(d, bits) == bits
      {
        InFloatsIn(entries, bits);
        assert entries[i] in entries && bits in Floats(entries[i].value);
        assert bits in FloatsIn(entries);
      }
      RereadStays(d, entries[i].value);
    }
  }

  // ---------------------------------------------------------------- the doubles of what is read

  /** What is read holds exactly the doubles the reader makes of the written ones. */
  lemma {:induction false} FloatsMove(d: Doubles, v: V.Value)
    requires Canonical(v)
    ensures Floats(ReadBack(d, v)) == Image(d, Floats(v))
    decreases v, 1
  {
    hide Reread, VC.StrictlyAscending, VC.KeysAscending, VC.Compact, VC.Sort, VC.MapOf;
    match v {
      case List(items) => ItemsMove(d, items);
      case Set(items) =>
        ItemsMove(d, items);
        SameFloats(ReadBackAll(d, items));
      case Map(entries) =>
        EntriesMove(d, entries);
        SameKeys(d, entries);
      case _ =>
    }
  }

  lemma {:induction false} ItemsMove(d: Doubles, items: seq<V.Value>)
    requires forall i | 0 <= i < |items| :: Canonical(items[i])
    ensures FloatsOf(ReadBackAll(d, items)) == Image(d, FloatsOf(items))
    decreases items, 0
  {
    hide Reread, Canonical, Floats, ReadBack, ReadBackAll;
    if items != [] {
      FloatsMove(d, items[0]);
      ItemsMove(d, items[1..]);
      assert ReadBackAll(d, items)[1..] == ReadBackAll(d, items[1..]);
    }
  }

  lemma {:induction false} EntriesMove(d: Doubles, entries: seq<V.Entry>)
    requires forall i | 0 <= i < |entries| :: Canonical(entries[i].value)
    ensures FloatsIn(ReadBackEntries(d, entries)) == Image(d, FloatsIn(entries))
    decreases entries, 0
  {
    hide Reread, Canonical, Floats, ReadBack, ReadBackEntries;
    if entries != [] {
      FloatsMove(d, entries[0].value);
      EntriesMove(d, entries[1..]);
      assert ReadBackEntries(d, entries)[1..] == ReadBackEntries(d, entries[1..]);
    }
  }

  /** Sorting and compacting lose no double. */
  lemma SameFloats(items: seq<V.Value>)
    ensures FloatsOf(VC.Compact(VC.Sort(items))) == FloatsOf(items)
  {
    var kept := VC.Compact(VC.Sort(items));
    VC.SortKeepsElements(items);
    VC.CompactKeepsElements(VC.Sort(items));
    hide FloatsOf, Floats, VC.Compact, VC.Sort;
    forall bits
      ensures bits in FloatsOf(kept) <==> bits in FloatsOf(items)
    {
      InFloatsOf(kept, bits);
      InFloatsOf(items, bits);
    }
  }

  /** The keys of a map are not doubles, so its entries stay in order. */
  lemma SameKeys(d: Doubles, entries: seq<V.Entry>)
    requires VC.KeysAscending(entries)
    ensures VC.MapOf(ReadBackEntries(d, entries)) == V.Map(ReadBackEntries(d, entries))
  {
    hide ReadBack, ReadBackEntries, VC.MapOf, Order;
    assert VC.KeysAscending(ReadBackEntries(d, entries));
    MapStays(ReadBackEntries(d, entries));
  }

  // ---------------------------------------------------------------- the condition is necessary

  lemma InImage(d: Doubles, floats: set<FO.Long>, y: FO.Long)
    ensures y in Image(d, floats) <==> exists x :: x in floats && Reread(d, x) == y
  {
  }

  lemma ImageSplits(d: Doubles, floats: set<FO.Long>, bits: FO.Long)
    requires bits in floats
    ensures Image(d, floats) == Image(d, floats - {bits}) + {Reread(d, bits)}
  {
    hide Reread, Image;
    forall y
      ensures y in Image(d, floats) <==> y in Image(d, floats - {bits}) || y == Reread(d, bits)
    {
      InImage(d, floats, y);
      InImage(d, floats - {bits}, y);
      if x :| x in floats && Reread(d, x) == y {
        assert x in floats - {bits} || x == bits;
      }
    }
  }

  lemma {:induction false} ImageIsSmaller(d: Doubles, floats: set<FO.Long>)
    ensures |Image(d, floats)| <= |floats|
    decreases floats
  {
    hide Reread, Image;
    if bits :| bits in floats {
      ImageIsSmaller(d, floats - {bits});
      ImageSplits(d, floats, bits);
    } else {
      NoImage(d);
    }
  }

  lemma NoImage(d: Doubles)
    ensures Image(d, {}) == {}
  {
  }

  lemma {:induction false} SubsetOfSize<T>(a: set<T>, b: set<T>)
    requires a <= b && |b| <= |a|
    ensures a == b
    decreases a
  {
    if x :| x in a {
      SubsetOfSize(a - {x}, b - {x});
    }
  }

  lemma {:induction false} Least(floats: set<FO.Long>) returns (least: FO.Long)
    requires floats != {}
    ensures least in floats && forall b <- floats :: FO.Key(least) <= FO.Key(b)
    decreases floats
  {
    hide FO.Key;
    var x :| x in floats;
    if floats == {x} {
      least := x;
    } else {
      var y := Least(floats - {x});
      least := if FO.Key(x) <= FO.Key(y) then x else y;
    }
  }

  lemma KeysDiffer(a: FO.Long, b: FO.Long)
    requires FO.Key(a) == FO.Key(b)
    ensures a == b
  {
    FO.CompareIsTotalOrder(a, b);
  }

  lemma LeastStays(d: Doubles, floats: set<FO.Long>, least: FO.Long)
    requires Monotone(d) && AllFinite(floats) && Image(d, floats) == floats
    requires least in floats && forall b <- floats :: FO.Key(least) <= FO.Key(b)
    ensures Reread(d, least) == least
  {
    hide Reread, FO.Key, FO.IsFinite, Image;
    InImage(d, floats, least);
    var from :| from in floats && Reread(d, from) == least;
    assert FO.Key(Reread(d, least)) <= FO.Key(least);
    InImage(d, floats, Reread(d, least));
    KeysDiffer(Reread(d, least), least);
  }

  lemma RestPermutes(d: Doubles, floats: set<FO.Long>, least: FO.Long)
    requires Image(d, floats) == floats && least in floats && Reread(d, least) == least
    ensures Image(d, floats - {least}) == floats - {least}
  {
    hide Reread, Image;
    var rest := floats - {least};
    ImageSplits(d, floats, least);
    ImageIsSmaller(d, rest);
    SubsetOfSize(rest, Image(d, rest));
  }

  /** A monotone reader that permutes finitely many doubles moves none of them. */
  lemma {:induction false} PermutedStay(d: Doubles, floats: set<FO.Long>)
    requires Monotone(d) && AllFinite(floats) && Image(d, floats) == floats
    ensures AllReread(d, floats)
    decreases floats
  {
    hide Reread, FO.Key, FO.IsFinite, Image, Monotone;
    if floats != {} {
      var least := Least(floats);
      LeastStays(d, floats, least);
      RestPermutes(d, floats, least);
      PermutedStay(d, floats - {least});
    }
  }

  lemma {:induction false} SetFreeStays(d: Doubles, v: V.Value)
    requires Canonical(v) && SetFree(v) && ReadBack(d, v) == v
    ensures AllReread(d, Floats(v))
    decreases v, 1
  {
    hide Reread, VC.KeysAscending, VC.MapOf;
    match v {
      case List(items) =>
        assert ReadBackAll(d, items) == items;
        SetFreeItems(d, items);
      case Map(entries) =>
        SameKeys(d, entries);
        assert ReadBackEntries(d, entries) == entries;
        SetFreeEntries(d, entries);
      case _ =>
    }
  }

  lemma {:induction false} SetFreeItems(d: Doubles, items: seq<V.Value>)
    requires forall i | 0 <= i < |items| :: Canonical(items[i]) && SetFree(items[i])
    requires forall i | 0 <= i < |items| :: ReadBack(d, items[i]) == items[i]
    ensures AllReread(d, FloatsOf(items))
    decreases items, 0
  {
    hide Reread, Canonical, SetFree, Floats, ReadBack;
    if items != [] {
      SetFreeStays(d, items[0]);
      SetFreeItems(d, items[1..]);
    }
  }

  lemma {:induction false} SetFreeEntries(d: Doubles, entries: seq<V.Entry>)
    requires forall i | 0 <= i < |entries| :: Canonical(entries[i].value) && SetFree(entries[i].value)
    requires forall i | 0 <= i < |entries| :: ReadBack(d, entries[i].value) == entries[i].value
    ensures AllReread(d, FloatsIn(entries))
    decreases entries, 0
  {
    hide Reread, Canonical, SetFree, Floats, ReadBack;
    if entries != [] {
      SetFreeStays(d, entries[0].value);
      SetFreeEntries(d, entries[1..]);
    }
  }

  // ---------------------------------------------------------------- the round trip

  /** Whatever the reader: a value that comes back has finite doubles only, and the reader permutes them. */
  lemma ComingBackPermutes(d: Doubles, v: V.Value)
    requires WritesDigits(d) && Canonical(v) && ComesBack(d, v)
    ensures AllFinite(Floats(v)) && Image(d, Floats(v)) == Floats(v)
  {
    hide WritesDigits, Canonical, Decode, Print, ToJson, ReadBack, Floats, Image;
    WireReads(d, v);
    FloatsMove(d, v);
  }

  /** Whatever the reader: a value with finite doubles, each of them reread, comes back. */
  lemma RereadComesBack(d: Doubles, v: V.Value)
    requires WritesDigits(d) && Canonical(v) && AllFinite(Floats(v)) && AllReread(d, Floats(v))
    ensures ComesBack(d, v)
  {
    hide WritesDigits, Canonical, Decode, Print, ToJson, ReadBack, Floats, AllReread, AllFinite;
    WireReads(d, v);
    RereadStays(d, v);
  }

  /**
    The exact condition of the round trip: for a value without sets, or for any value under a monotone reader, the
    value comes back if and only if each double in it is finite and is given back from its own digits.
   */
  lemma ComesBackExactly(d: Doubles, v: V.Value)
    requires WritesDigits(d) && Canonical(v) && (SetFree(v) || Monotone(d))
    ensures ComesBack(d, v) <==> AllFinite(Floats(v)) && AllReread(d, Floats(v))
  {
    hide WritesDigits, Canonical, Decode, Print, ToJson, ReadBack, Floats, AllReread, AllFinite, SetFree, Monotone,
         Image;
    if ComesBack(d, v) {
      ComingBackPermutes(d, v);
      if SetFree(v) {
        WireReads(d, v);
        SetFreeStays(d, v);
      } else {
        PermutedStay(d, Floats(v));
      }
    } else if AllFinite(Floats(v)) && AllReread(d, Floats(v)) {
      RereadComesBack(d, v);
    }
  }

  /** Each double outside the sets is reread, and each outermost set is read as a rearrangement of itself. */
  ghost predicate Restored(d: Doubles, v: V.Value)
    decreases v
  {
    match v
    case Float(bits) => Reread(d, bits) == bits
    case List(items) => forall i | 0 <= i < |items| :: Restored(d, items[i])
    case Set(items) => multiset(ReadBackAll(d, items)) == multiset(items)
    case Map(entries) => forall i | 0 <= i < |entries| :: Restored(d, entries[i].value)
    case _ => true
  }

  lemma {:induction false} RestoredStays(d: Doubles, v: V.Value)
    requires Canonical(v)
    ensures ReadBack(d, v) == v <==> Restored(d, v)
    decreases v
  {
    hide Reread, VC.StrictlyAscending, VC.KeysAscending, VC.Compact, VC.Sort, VC.MapOf;
    match v {
      case List(items) =>
        var read := ReadBackAll(d, items);
        assert read == items <==> forall i | 0 <= i < |items| :: read[i] == items[i];
        forall i | 0 <= i < |items|
          ensures read[i] == items[i] <==> Restored(d, items[i])
        {
          RestoredStays(d, items[i]);
        }
      case Set(items) => SetOfIsSet(ReadBackAll(d, items), items);
      case Map(entries) =>
        var read := ReadBackEntries(d, entries);
        SameKeys(d, entries);
        assert read == entries <==> forall i | 0 <= i < |entries| :: read[i] == entries[i];
        forall i | 0 <= i < |entries|
          ensures read[i] == entries[i] <==> Restored(d, entries[i].value)
        {
          RestoredStays(d, entries[i].value);
        }
      case _ =>
    }
  }

  /** For every reader and every value. */
  lemma ComesBackUnderAnyReader(d: Doubles, v: V.Value)
    requires WritesDigits(d) && Canonical(v)
    ensures ComesBack(d, v) <==> AllFinite(Floats(v)) && Restored(d, v)
  {
    hide WritesDigits, Canonical, Decode, Print, ToJson, ReadBack, Floats, AllFinite, Restored;
    WireReads(d, v);
    RestoredStays(d, v);
  }

  lemma SetOfIsSet(read: seq<V.Value>, items: seq<V.Value>)
    requires |read| == |items| && VC.StrictlyAscending(items)
    ensures VC.Compact(VC.Sort(read)) == items <==> multiset(read) == multiset(items)
  {
    hide VC.StrictlyAscending, VC.Compact, VC.Sort;
    VC.SortKeepsElements(read);
    VC.CompactKeepsElements(VC.Sort(read));
    if multiset(read) == multiset(items) {
      forall v
        ensures v in VC.Compact(VC.Sort(read)) <==> v in items
      {
        if v in read { VC.InBoth(read, items, v); }
        if v in items { VC.InBoth(items, read, v); }
      }
      VC.SetIsUnique(VC.Compact(VC.Sort(read)), items);
    } else if VC.Compact(VC.Sort(read)) == items {
      VC.StrictIsDistinct(items);
      Covers(items, read);
    }
  }

  /** As many elements that cover pairwise different ones are those. */
  lemma {:induction false} Covers(items: seq<V.Value>, read: seq<V.Value>)
    requires |read| == |items| && (forall i, j | 0 <= i < j < |items| :: items[i] != items[j])
    requires forall v :: v in items ==> v in read
    ensures multiset(read) == multiset(items)
  {
    VC.DistinctCounts(items);
    forall v
      ensures multiset(items)[v] <= multiset(read)[v]
    {
    }
    assert multiset(items) <= multiset(read);
    SubbagOfSize(multiset(items), multiset(read));
  }

  lemma {:induction false} SubbagOfSize<T>(a: multiset<T>, b: multiset<T>)
    requires a <= b && |b| <= |a|
    ensures a == b
    decreases |a|
  {
    if x :| x in a {
      SubbagOfSize(a - multiset{x}, b - multiset{x});
      assert a == a - multiset{x} + multiset{x} && b == b - multiset{x} + multiset{x};
    } else {
      assert |a| == 0;
    }
  }
}
