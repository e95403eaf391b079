/**
  Sequences sorted by a key, where keys are byte strings in lexicographic order: the content of an
  ordered map or set, and the result of sorting a vector by name.
 */
module KeyedOrder {
  import opened Utf8Order

  type Name = seq<int>

  /** Ascending keys, none repeated. */
  ghost predicate Strict<T>(key: T -> Name, s: seq<T>) {
    forall i, j | 0 <= i < j < |s| :: Lex(key(s[i]), key(s[j])) < 0
  }

  ghost predicate HasKey<T>(key: T -> Name, s: seq<T>, k: Name) {
    exists i | 0 <= i < |s| :: key(s[i]) == k
  }

  ghost predicate DistinctKeys<T>(key: T -> Name, s: seq<T>) {
    forall i, j | 0 <= i < j < |s| :: key(s[i]) != key(s[j])
  }

  /** After the elements whose key is not greater. */
  function Insert<T>(key: T -> Name, x: T, s: seq<T>): seq<T> {
    if s == [] then [x]
    else if Lex(key(x), key(s[0])) < 0 then [x] + s
    else [s[0]] + Insert(key, x, s[1..])
  }

  /** A stable sort by key. */
  function Sort<T>(key: T -> Name, s: seq<T>): seq<T> {
    if s == [] then [] else Insert(key, s[|s| - 1], Sort(key, s[..|s| - 1]))
  }

  lemma {:induction false} InsertElements<T>(key: T -> Name, x: T, s: seq<T>, y: T)
    ensures y in Insert(key, x, s) <==> y == x || y in s
  {
    if s != [] {
      assert s == [s[0]] + s[1..];
      InsertElements(key, x, s[1..], y);
    }
  }

  lemma {:induction false} SortElements<T>(key: T -> Name, s: seq<T>, y: T)
    ensures y in Sort(key, s) <==> y in s
  {
    if s != [] {
      var init := s[..|s| - 1];
      assert s == init + [s[|s| - 1]];
      SortElements(key, init, y);
      InsertElements(key, s[|s| - 1], Sort(key, init), y);
    }
  }

  lemma StrictHead<T>(key: T -> Name, x: T, s: seq<T>)
    requires Strict(key, s) && (s == [] || Lex(key(x), key(s[0])) < 0)
    ensures Strict(key, [x] + s)
  {
    var t := [x] + s;
    forall i, j | 0 <= i < j < |t|
      ensures Lex(key(t[i]), key(t[j])) < 0
    {
      if i == 0 && j > 1 {
        LexTransitive(key(x), key(s[0]), key(s[j - 1]));
      }
    }
  }

  lemma {:induction false} InsertStrict<T>(key: T -> Name, x: T, s: seq<T>)
    requires Strict(key, s) && !HasKey(key, s, key(x))
    ensures Strict(key, Insert(key, x, s))
    ensures s != [] ==> Insert(key, x, s)[0] == x || Insert(key, x, s)[0] == s[0]
  {
    if s == [] {
    } else if Lex(key(x), key(s[0])) < 0 {
      StrictHead(key, x, s);
    } else {
      LexTotalOrder(key(x), key(s[0]));
      assert key(s[0]) != key(x);
      forall i | 0 <= i < |s[1..]|
        ensures key(s[1..][i]) != key(x)
      {
        assert key(s[i + 1]) != key(x);
      }
      InsertStrict(key, x, s[1..]);
      StrictHead(key, s[0], Insert(key, x, s[1..]));
    }
  }

  lemma {:induction false} SortStrict<T>(key: T -> Name, s: seq<T>)
    requires DistinctKeys(key, s)
    ensures Strict(key, Sort(key, s))
  {
    if s != [] {
      var init, last := s[..|s| - 1], s[|s| - 1];
      SortStrict(key, init);
      var sorted := Sort(key, init);
      forall i | 0 <= i < |sorted|
        ensures key(sorted[i]) != key(last)
      {
        SortElements(key, init, sorted[i]);
      }
      InsertStrict(key, last, sorted);
    }
  }

  /** A sorted sequence is determined by its elements. */
  lemma {:induction false} StrictIsUnique<T>(key: T -> Name, a: seq<T>, b: seq<T>)
    requires Strict(key, a) && Strict(key, b) && forall x :: x in a <==> x in b
    ensures a == b
  {
    assert a != [] ==> a[0] in b;
    assert b != [] ==> b[0] in a;
    if a != [] && b != [] {
      SameFirst(key, a, b);
      forall x
        ensures x in a[1..] <==> x in b[1..]
      {
        TailMember(key, a, x);
        TailMember(key, b, x);
      }
      StrictIsUnique(key, a[1..], b[1..]);
      assert a == [a[0]] + a[1..] && b == [b[0]] + b[1..];
    }
  }

  lemma TailMember<T>(key: T -> Name, s: seq<T>, x: T)
    requires Strict(key, s) && s != []
    ensures x in s[1..] <==> x in s && x != s[0]
  {
    if x in s && x != s[0] {
      var i :| 0 <= i < |s| && s[i] == x;
      assert s[1..][i - 1] == x;
    } else if x in s[1..] {
      var i :| 0 <= i < |s[1..]| && s[1..][i] == x;
      LexTotalOrder(key(s[0]), key(s[i + 1]));
    }
  }

  lemma SameFirst<T>(key: T -> Name, a: seq<T>, b: seq<T>)
    requires Strict(key, a) && Strict(key, b) && (forall x :: x in a <==> x in b) && a != [] && b != []
    ensures a[0] == b[0]
  {
    assert a[0] in b && b[0] in a;
    var i :| 0 <= i < |b| && b[i] == a[0];
    var j :| 0 <= j < |a| && a[j] == b[0];
    if i > 0 && j > 0 {
      LexTransitive(key(b[0]), key(a[0]), key(b[0]));
      LexTotalOrder(key(b[0]), key(b[0]));
    }
  }
}
