/**
  Folding a construction input into its leaves: a guarded walk over type metadata, and the loop that
  moves each leaf out of the shared value.
 */
module InputFolding {
  import opened Wrappers
  import opened Utf8Order
  import V = Values
  import VC = ValueCollections

  datatype Result<+T> = Ok(value: T) | Rejected

  // ---------------------------------------------------------------- type metadata

  datatype Field = Field(name: Text, rustType: Text)

  /** A type with property setup: the module its field types are resolved in, and its fields. */
  datatype TypeMeta = TypeMeta(modulePath: Text, fields: seq<Field>)

  datatype Resolution = NoProperties | Ambiguous | Properties(index: nat)

  /** The registered types, and which of them a type name written in a module stands for. */
  datatype Table = Table(types: seq<TypeMeta>, resolve: (Text, Text) -> Resolution)

  ghost predicate Valid(t: Table) {
    forall scope, name :: t.resolve(scope, name).Properties? ==> t.resolve(scope, name).index < |t.types|
  }

  ghost predicate UniqueNames(t: Table) {
    forall k | 0 <= k < |t.types| ::
      forall i, j | 0 <= i < j < |t.types[k].fields| :: t.types[k].fields[i].name != t.types[k].fields[j].name
  }

  /** A leaf field and where it lies under the parameter. */
  datatype Leaf = Leaf(field: Field, path: seq<Text>)

  ghost predicate Stack(t: Table, visiting: seq<nat>) {
    && (forall i | 0 <= i < |visiting| :: visiting[i] < |t.types|)
    && (forall i, j | 0 <= i < j < |visiting| :: visiting[i] != visiting[j])
  }

  /** Different types are at most as many as there are types. */
  lemma StackIsShort(t: Table, visiting: seq<nat>)
    requires Stack(t, visiting)
    ensures |visiting| <= |t.types|
  {
    Pigeonhole(visiting, |t.types|);
  }

  lemma {:induction false} Pigeonhole(s: seq<nat>, n: nat)
    requires forall i | 0 <= i < |s| :: s[i] < n
    requires forall i, j | 0 <= i < j < |s| :: s[i] != s[j]
    ensures |s| <= n
  {
    assert s != [] ==> s[0] < n;
    if n == 0 {
    } else if i :| 0 <= i < |s| && s[i] == n - 1 {
      var rest := s[..i] + s[i + 1..];
      Pigeonhole(rest, n - 1);
    } else {
      Pigeonhole(s, n - 1);
    }
  }

  function Prefixed(name: Text, leaves: seq<Leaf>): (r: seq<Leaf>)
    ensures |r| == |leaves| && forall i | 0 <= i < |leaves| :: r[i] == Leaf(leaves[i].field, [name] + leaves[i].path)
  {
    seq(|leaves|, i requires 0 <= i < |leaves| => Leaf(leaves[i].field, [name] + leaves[i].path))
  }

  /** The leaves under a field, or a rejection: a name that stands for two types, or a type inside itself. */
  ghost function Leaves(t: Table, scope: Text, field: Field, visiting: seq<nat>): Result<seq<Leaf>>
    requires Valid(t) && Stack(t, visiting)
    decreases |t.types| - |visiting|, 1, 0
  {
    match t.resolve(scope, field.rustType)
    case NoProperties => Ok([Leaf(field, [])])
    case Ambiguous => Rejected
    case Properties(k) =>
      if k in visiting then Rejected
      else
        StackIsShort(t, visiting + [k]);
        ChildLeaves(t, k, visiting + [k], |t.types[k].fields|)
  }

  /** The leaves under the first `n` fields of a type. */
  ghost function ChildLeaves(t: Table, k: nat, visiting: seq<nat>, n: nat): Result<seq<Leaf>>
    requires Valid(t) && Stack(t, visiting) && k < |t.types| && n <= |t.types[k].fields|
    decreases |t.types| - |visiting|, 2, n
  {
    if n == 0 then Ok([])
    else
      var child := t.types[k].fields[n - 1];
      var before, last := ChildLeaves(t, k, visiting, n - 1), Leaves(t, t.types[k].modulePath, child, visiting);
      if before.Rejected? || last.Rejected? then Rejected else Ok(before.value + Prefixed(child.name, last.value))
  }

  // ---------------------------------------------------------------- the walk

  function Under(path: seq<Text>, leaves: seq<Leaf>): (r: seq<Leaf>)
    ensures |r| == |leaves| && forall i | 0 <= i < |leaves| :: r[i] == Leaf(leaves[i].field, path + leaves[i].path)
  {
    seq(|leaves|, i requires 0 <= i < |leaves| => Leaf(leaves[i].field, path + leaves[i].path))
  }

  lemma UnderPrefixed(path: seq<Text>, name: Text, leaves: seq<Leaf>)
    ensures Under(path + [name], leaves) == Under(path, Prefixed(name, leaves))
  {
    forall i | 0 <= i < |leaves|
      ensures path + [name] + leaves[i].path == path + ([name] + leaves[i].path)
    {
    }
  }

  lemma UnderConcat(path: seq<Text>, a: seq<Leaf>, b: seq<Leaf>)
    ensures Under(path, a + b) == Under(path, a) + Under(path, b)
  {
  }

  lemma UnderNext(inputs: seq<Leaf>, path: seq<Text>, before: seq<Leaf>, name: Text, last: seq<Leaf>)
    ensures inputs + Under(path, before) + Under(path + [name], last)
            == inputs + Under(path, before + Prefixed(name, last))
  {
    hide Under, Prefixed;
    UnderPrefixed(path, name, last);
    UnderConcat(path, before, Prefixed(name, last));
  }

  lemma {:induction false} RejectedStays(t: Table, k: nat, visiting: seq<nat>, n: nat, m: nat)
    requires Valid(t) && Stack(t, visiting) && k < |t.types| && n <= m <= |t.types[k].fields|
    requires ChildLeaves(t, k, visiting, n).Rejected?
    ensures ChildLeaves(t, k, visiting, m).Rejected?
    decreases m
  {
    if n < m {
      RejectedStays(t, k, visiting, n, m - 1);
    }
  }

  lemma NoChildLeaves(t: Table, k: nat, visiting: seq<nat>)
    requires Valid(t) && Stack(t, visiting) && k < |t.types|
    ensures ChildLeaves(t, k, visiting, 0) == Ok([])
  {
  }

  lemma ChildNext(t: Table, k: nat, visiting: seq<nat>, i: nat)
    requires && Valid(t)
             && Stack(t, visiting)
             && k < |t.types|
             && i < |t.types[k].fields|
             && ChildLeaves(t, k, visiting, i).Ok?
    ensures var child := t.types[k].fields[i];
            var last := Leaves(t, t.types[k].modulePath, child, visiting);
            ChildLeaves(t, k, visiting, i + 1)
              == if last.Rejected? then Rejected
                 else Ok(ChildLeaves(t, k, visiting, i).value + Prefixed(child.name, last.value))
  {
    hide Leaves;
  }

  class Walk {
    const table: Table
    var path: seq<Text>
    var visiting: seq<nat>
    var inputs: seq<Leaf>

    constructor (table: Table)
      ensures this.table == table && path == [] && visiting == [] && inputs == []
    {
      this.table := table;
      path, visiting, inputs := [], [], [];
    }

    /** Pushes and pops both stacks around each level, and appends the leaves in order. */
    method Visit(scope: Text, field: Field) returns (ok: bool)
      requires Valid(table) && Stack(table, visiting)
      modifies this
      ensures ok <==> Leaves(table, scope, field, old(visiting)).Ok?
      ensures ok ==> path == old(path) && visiting == old(visiting)
      ensures ok ==> inputs == old(inputs) + Under(path, Leaves(table, scope, field, visiting).value)
      decreases |table.types| - |visiting|, 0
    {
      match table.resolve(scope, field.rustType) {
        case NoProperties =>
          assert path + [] == path;
          inputs := inputs + [Leaf(field, path)];
          return true;
        case Ambiguous => return false;
        case Properties(k) =>
          if k in visiting {
            return false;
          }
          StackIsShort(table, visiting + [k]);
          visiting := visiting + [k];
          ok := VisitFields(k);
          if ok {
            visiting := visiting[..|visiting| - 1];
          }
      }
    }

    method VisitFields(k: nat) returns (ok: bool)
      requires Valid(table) && Stack(table, visiting) && k < |table.types|
      modifies this
      ensures ok <==> ChildLeaves(table, k, old(visiting), |table.types[k].fields|).Ok?
      ensures ok ==> path == old(path) && visiting == old(visiting)
      ensures ok ==> inputs == old(inputs) + Under(path, ChildLeaves(table, k, visiting, |table.types[k].fields|).value)
      decreases |table.types| - |visiting|, 1
    {
      var fields := table.types[k].fields;
      NoChildLeaves(table, k, visiting);
      assert inputs == inputs + Under(path, []);
      hide Leaves, ChildLeaves, Under;
      for i := 0 to |fields|
        invariant path == old(path) && visiting == old(visiting)
        invariant ChildLeaves(table, k, visiting, i).Ok?
        invariant inputs == old(inputs) + Under(path, ChildLeaves(table, k, visiting, i).value)
      {
        ChildNext(table, k, visiting, i);
        path := path + [fields[i].name];
        ok := Visit(table.types[k].modulePath, fields[i]);
        if !ok {
          RejectedStays(table, k, old(visiting), i + 1, |fields|);
          return;
        }
        ghost var last := Leaves(table, table.types[k].modulePath, fields[i], visiting).value;
        path := path[..|path| - 1];
        UnderNext(old(inputs), path, ChildLeaves(table, k, visiting, i).value, fields[i].name, last);
      }
      ok := true;
    }
  }

  method InputFields(table: Table, scope: Text, parameter: Field) returns (r: Result<seq<Leaf>>)
    requires Valid(table)
    ensures r == Leaves(table, scope, parameter, [])
    ensures r.Rejected? <==> exists choices :: Offends(table, scope, parameter, [], choices)
    ensures r.Ok? ==>
              forall leaf :: leaf in r.value <==> exists choices :: IsLeafAt(table, scope, parameter, choices, leaf)
  {
    InputFieldsRejects(table, scope, parameter);
    if Leaves(table, scope, parameter, []).Ok? {
      forall leaf
        ensures leaf in Leaves(table, scope, parameter, []).value <==>
                exists choices :: IsLeafAt(table, scope, parameter, choices, leaf)
      {
        LeavesExactly(table, scope, parameter, leaf);
      }
    }
    hide Leaves, IsLeafAt, Offends;
    var walk := new Walk(table);
    var ok := walk.Visit(scope, parameter);
    if !ok {
      return Rejected;
    }
    UnderRoot(Leaves(table, scope, parameter, []).value);
    return Ok(walk.inputs);
  }

  lemma UnderRoot(leaves: seq<Leaf>)
    ensures [] + Under([], leaves) == leaves
  {
    var r := [] + Under([], leaves);
    forall i | 0 <= i < |leaves|
      ensures r[i] == leaves[i]
    {
      assert [] + leaves[i].path == leaves[i].path;
    }
  }

  // ---------------------------------------------------------------- what is rejected

  /** The field reached by following child positions. */
  ghost function Reached(t: Table, scope: Text, field: Field, choices: seq<nat>): Option<(Text, Field)>
    requires Valid(t)
    decreases choices
  {
    if choices == [] then Some((scope, field))
    else
      var r := t.resolve(scope, field.rustType);
      if !r.Properties? || choices[0] >= |t.types[r.index].fields| then None
      else Reached(t, t.types[r.index].modulePath, t.types[r.index].fields[choices[0]], choices[1..])
  }

  /** The types entered on the way, the one of the reached field included. */
  ghost function Entered(t: Table, scope: Text, field: Field, choices: seq<nat>): seq<nat>
    requires Valid(t)
    decreases choices
  {
    var r := t.resolve(scope, field.rustType);
    if !r.Properties? then []
    else if choices == [] || choices[0] >= |t.types[r.index].fields| then [r.index]
    else [r.index] + Entered(t, t.types[r.index].modulePath, t.types[r.index].fields[choices[0]], choices[1..])
  }

  ghost predicate Repeats(s: seq<nat>) {
    exists i, j | 0 <= i < j < |s| :: s[i] == s[j]
  }

  /** A walk that ends at an ambiguous name, or enters a type a second time. */
  ghost predicate Offends(t: Table, scope: Text, field: Field, visiting: seq<nat>, choices: seq<nat>)
    requires Valid(t)
  {
    var end := Reached(t, scope, field, choices);
    && end.Some?
    && (t.resolve(end.value.0, end.value.1.rustType).Ambiguous?
        || Repeats(visiting + Entered(t, scope, field, choices)))
  }

  /** Offending below a child is offending. */
  lemma OffendsBelow(t: Table, scope: Text, field: Field, visiting: seq<nat>, choice: nat, choices: seq<nat>)
    requires Valid(t) && t.resolve(scope, field.rustType).Properties?
    requires var k := t.resolve(scope, field.rustType).index; choice < |t.types[k].fields|
    ensures var k := t.resolve(scope, field.rustType).index;
            Offends(t, scope, field, visiting, [choice] + choices) <==>
              Offends(t, t.types[k].modulePath, t.types[k].fields[choice], visiting + [k], choices)
  {
    var k := t.resolve(scope, field.rustType).index;
    var all := [choice] + choices;
    assert all[1..] == choices;
    assert visiting + Entered(t, scope, field, all)
           == visiting + [k] + Entered(t, t.types[k].modulePath, t.types[k].fields[choice], choices);
  }

  /** A walk is rejected exactly when some walk below it offends. */
  lemma {:induction false} RejectsExactly(t: Table, scope: Text, field: Field, visiting: seq<nat>)
    requires Valid(t) && Stack(t, visiting)
    ensures Leaves(t, scope, field, visiting).Rejected? <==>
              exists choices :: Offends(t, scope, field, visiting, choices)
    decreases |t.types| - |visiting|, 1, 0
  {
    match t.resolve(scope, field.rustType) {
      case NoProperties =>
        forall choices
          ensures !Offends(t, scope, field, visiting, choices)
        {
          assert Entered(t, scope, field, choices) == [] && visiting + [] == visiting;
        }
      case Ambiguous => assert Offends(t, scope, field, visiting, []);
      case Properties(k) =>
        if k in visiting {
          var i :| 0 <= i < |visiting| && visiting[i] == k;
          var all := visiting + [k];
          assert all[i] == all[|visiting|] && Entered(t, scope, field, []) == [k];
          assert Offends(t, scope, field, visiting, []);
        } else {
          StackIsShort(t, visiting + [k]);
          RejectsBelow(t, k, visiting + [k], |t.types[k].fields|);
          if Leaves(t, scope, field, visiting).Rejected? {
            var c, choices :| 0 <= c < |t.types[k].fields| &&
              Offends(t, t.types[k].modulePath, t.types[k].fields[c], visiting + [k], choices);
            OffendsBelow(t, scope, field, visiting, c, choices);
          }
          forall choices | Offends(t, scope, field, visiting, choices)
            ensures Leaves(t, scope, field, visiting).Rejected?
          {
            OffenceIsBelow(t, scope, field, visiting, k, choices);
          }
        }
    }
  }

  /** On entering a type for the first time, an offence lies below one of its fields. */
  lemma OffenceIsBelow(t: Table, scope: Text, field: Field, visiting: seq<nat>, k: nat, choices: seq<nat>)
    requires Valid(t) && Stack(t, visiting) && t.resolve(scope, field.rustType) == Properties(k) && k !in visiting
    requires Offends(t, scope, field, visiting, choices)
    ensures && choices != []
            && choices[0] < |t.types[k].fields|
            && Offends(t, t.types[k].modulePath, t.types[k].fields[choices[0]], visiting + [k], choices[1..])
  {
    assert Entered(t, scope, field, []) == [k] && !Repeats(visiting + [k]);
    if choices != [] {
      assert choices == [choices[0]] + choices[1..];
      OffendsBelow(t, scope, field, visiting, choices[0], choices[1..]);
    }
  }

  lemma {:induction false} RejectsBelow(t: Table, k: nat, visiting: seq<nat>, n: nat)
    requires Valid(t) && Stack(t, visiting) && k < |t.types| && n <= |t.types[k].fields|
    ensures ChildLeaves(t, k, visiting, n).Rejected? <==>
              exists c, choices | 0 <= c < n ::
                Offends(t, t.types[k].modulePath, t.types[k].fields[c], visiting, choices)
    decreases |t.types| - |visiting|, 2, n
  {
    if n > 0 {
      RejectsBelow(t, k, visiting, n - 1);
      RejectsExactly(t, t.types[k].modulePath, t.types[k].fields[n - 1], visiting);
    }
  }

  /**
    `input_fields` ends on every table, and rejects exactly the parameters with an ambiguous name or a type inside
    itself.
   */
  lemma InputFieldsRejects(t: Table, scope: Text, parameter: Field)
    requires Valid(t)
    ensures Leaves(t, scope, parameter, []).Rejected? <==> exists choices :: Offends(t, scope, parameter, [], choices)
  {
    RejectsExactly(t, scope, parameter, []);
  }

  // ---------------------------------------------------------------- what is returned

  /** The names passed on the way. */
  ghost function Names(t: Table, scope: Text, field: Field, choices: seq<nat>): seq<Text>
    requires Valid(t)
    decreases choices
  {
    var r := t.resolve(scope, field.rustType);
    if choices == [] || !r.Properties? || choices[0] >= |t.types[r.index].fields| then []
    else
      var child := t.types[r.index].fields[choices[0]];
      [child.name] + Names(t, t.types[r.index].modulePath, child, choices[1..])
  }

  /** Following the choices leads to a field without properties, the leaf's, past the names of the leaf's path. */
  ghost predicate IsLeafAt(t: Table, scope: Text, field: Field, choices: seq<nat>, leaf: Leaf)
    requires Valid(t)
  {
    var end := Reached(t, scope, field, choices);
    && end.Some? && t.resolve(end.value.0, end.value.1.rustType).NoProperties?
    && leaf == Leaf(end.value.1, Names(t, scope, field, choices))
  }

  /** The same, from inside type `k`: the first choice is one of its fields. */
  ghost predicate IsLeafBelow(t: Table, k: nat, choices: seq<nat>, leaf: Leaf)
    requires Valid(t) && k < |t.types|
  {
    && choices != [] && choices[0] < |t.types[k].fields|
    && leaf.path != [] && leaf.path[0] == t.types[k].fields[choices[0]].name
    && IsLeafAt(t, t.types[k].modulePath, t.types[k].fields[choices[0]], choices[1..], Leaf(leaf.field, leaf.path[1..]))
  }

  lemma LeafBelow(t: Table, scope: Text, field: Field, k: nat, choices: seq<nat>, leaf: Leaf)
    requires Valid(t) && t.resolve(scope, field.rustType) == Properties(k)
    ensures IsLeafAt(t, scope, field, choices, leaf) <==> IsLeafBelow(t, k, choices, leaf)
  {
    if choices != [] && choices[0] < |t.types[k].fields| {
      var child := t.types[k].fields[choices[0]];
      var names := Names(t, t.types[k].modulePath, child, choices[1..]);
      assert Names(t, scope, field, choices) == [child.name] + names && ([child.name] + names)[1..] == names;
      if leaf.path != [] {
        assert leaf.path == [leaf.path[0]] + leaf.path[1..];
      }
    }
  }

  /** The ways lead to the leaves one for one, in the order of declaration. */
  ghost predicate Ascend(ways: seq<seq<nat>>) {
    forall i, j | 0 <= i < j < |ways| :: Lex(ways[i], ways[j]) < 0
  }

  ghost predicate WaysTo(t: Table, scope: Text, field: Field, leaves: seq<Leaf>, ways: seq<seq<nat>>)
    requires Valid(t)
  {
    && |ways| == |leaves| && Ascend(ways)
    && (forall i | 0 <= i < |ways| :: IsLeafAt(t, scope, field, ways[i], leaves[i]))
    && (forall choices, leaf | IsLeafAt(t, scope, field, choices, leaf) :: choices in ways)
  }

  ghost predicate WaysBelow(t: Table, k: nat, n: nat, leaves: seq<Leaf>, ways: seq<seq<nat>>)
    requires Valid(t) && k < |t.types|
  {
    && |ways| == |leaves| && Ascend(ways)
    && (forall i | 0 <= i < |ways| :: IsLeafBelow(t, k, ways[i], leaves[i]) && ways[i][0] < n)
    && (forall choices, leaf | IsLeafBelow(t, k, choices, leaf) && choices[0] < n :: choices in ways)
  }

  ghost function Through(c: nat, ways: seq<seq<nat>>): (r: seq<seq<nat>>)
    ensures |r| == |ways| && forall i | 0 <= i < |ways| :: r[i] == [c] + ways[i]
  {
    seq(|ways|, i requires 0 <= i < |ways| => [c] + ways[i])
  }

  lemma ThroughAscends(c: nat, ways: seq<seq<nat>>)
    requires Ascend(ways)
    ensures Ascend(Through(c, ways))
  {
    var r := Through(c, ways);
    forall i, j | 0 <= i < j < |r|
      ensures Lex(r[i], r[j]) < 0
    {
      assert r[i][1..] == ways[i] && r[j][1..] == ways[j];
    }
  }

  lemma JoinAscends(a: seq<seq<nat>>, b: seq<seq<nat>>, n: nat)
    requires Ascend(a) && Ascend(b)
    requires (forall x <- a :: x != [] && x[0] < n) && forall y <- b :: y != [] && y[0] == n
    ensures Ascend(a + b)
  {
    forall i, j | 0 <= i < j < |a + b|
      ensures Lex((a + b)[i], (a + b)[j]) < 0
    {
      if i < |a| <= j {
        assert a[i] in a && b[j - |a|] in b;
      }
    }
  }

  lemma LeafThrough(t: Table, k: nat, n: nat, rest: seq<nat>, leaf: Leaf)
    requires Valid(t) && k < |t.types| && n < |t.types[k].fields|
    requires IsLeafAt(t, t.types[k].modulePath, t.types[k].fields[n], rest, leaf)
    ensures IsLeafBelow(t, k, [n] + rest, Leaf(leaf.field, [t.types[k].fields[n].name] + leaf.path))
  {
    hide IsLeafAt;
    assert ([n] + rest)[1..] == rest;
    assert ([t.types[k].fields[n].name] + leaf.path)[1..] == leaf.path;
  }

  lemma WayThrough(t: Table, k: nat, n: nat, choices: seq<nat>, leaf: Leaf, last: seq<Leaf>, more: seq<seq<nat>>)
    requires Valid(t) && k < |t.types| && n < |t.types[k].fields|
    requires WaysTo(t, t.types[k].modulePath, t.types[k].fields[n], last, more)
    requires IsLeafBelow(t, k, choices, leaf) && choices[0] == n
    ensures choices in Through(n, more)
  {
    hide IsLeafAt, Ascend, Through;
    var m :| 0 <= m < |more| && more[m] == choices[1..];
    assert choices == [n] + choices[1..];
    assert Through(n, more)[m] == choices;
  }

  /** One more field of the type. */
  lemma OneMoreField(t: Table, k: nat, n: nat, before: seq<Leaf>, ways: seq<seq<nat>>, last: seq<Leaf>,
          more: seq<seq<nat>>)
    requires Valid(t) && k < |t.types| && n < |t.types[k].fields| && WaysBelow(t, k, n, before, ways)
    requires WaysTo(t, t.types[k].modulePath, t.types[k].fields[n], last, more)
    ensures WaysBelow(t, k, n + 1, before + Prefixed(t.types[k].fields[n].name, last), ways + Through(n, more))
  {
    var child, through := t.types[k].fields[n], Through(n, more);
    ThroughAscends(n, more);
    JoinAscends(ways, through, n);
    var leaves, all := before + Prefixed(child.name, last), ways + through;
    forall i | 0 <= i < |all|
      ensures IsLeafBelow(t, k, all[i], leaves[i]) && all[i][0] < n + 1
    {
      hide IsLeafBelow, IsLeafAt, Ascend, Through, Prefixed, Valid;
      if i < |ways| {
        assert all[i] == ways[i] && leaves[i] == before[i];
      } else {
        LeafThrough(t, k, n, more[i - |ways|], last[i - |ways|]);
      }
    }
    forall choices, leaf | IsLeafBelow(t, k, choices, leaf) && choices[0] < n + 1
      ensures choices in all
    {
      hide IsLeafAt, Ascend, Through, Prefixed, Valid;
      if choices[0] == n {
        WayThrough(t, k, n, choices, leaf, last, more);
      }
    }
  }

  /** `input_fields` returns exactly the fields without properties that can be reached, in the order of declaration. */
  lemma {:induction false} LeavesAreReached(t: Table, scope: Text, field: Field, visiting: seq<nat>)
    returns (ways: seq<seq<nat>>)
    requires Valid(t) && Stack(t, visiting) && Leaves(t, scope, field, visiting).Ok?
    ensures WaysTo(t, scope, field, Leaves(t, scope, field, visiting).value, ways)
    decreases |t.types| - |visiting|, 1, 0
  {
    var r := t.resolve(scope, field.rustType);
    if r.NoProperties? {
      ways := [[]];
    } else {
      var k := r.index;
      StackIsShort(t, visiting + [k]);
      ways := ChildrenAreReached(t, k, visiting + [k], |t.types[k].fields|);
      forall choices, leaf {
        LeafBelow(t, scope, field, k, choices, leaf);
      }
    }
  }

  lemma {:induction false} ChildrenAreReached(t: Table, k: nat, visiting: seq<nat>, n: nat)
    returns (ways: seq<seq<nat>>)
    requires Valid(t) && Stack(t, visiting) && k < |t.types| && n <= |t.types[k].fields|
    requires ChildLeaves(t, k, visiting, n).Ok?
    ensures WaysBelow(t, k, n, ChildLeaves(t, k, visiting, n).value, ways)
    decreases |t.types| - |visiting|, 2, n
  {
    if n == 0 {
      ways := [];
    } else {
      var before := ChildrenAreReached(t, k, visiting, n - 1);
      var more := LeavesAreReached(t, t.types[k].modulePath, t.types[k].fields[n - 1], visiting);
      ways := before + Through(n - 1, more);
      OneMoreField(t, k, n - 1, ChildLeaves(t, k, visiting, n - 1).value, before,
                   Leaves(t, t.types[k].modulePath, t.types[k].fields[n - 1], visiting).value, more);
    }
  }

  /** A leaf is returned if and only if some walk reaches its field past the names of its path. */
  lemma LeavesExactly(t: Table, scope: Text, parameter: Field, leaf: Leaf)
    requires Valid(t) && Leaves(t, scope, parameter, []).Ok?
    ensures leaf in Leaves(t, scope, parameter, []).value <==>
              exists choices :: IsLeafAt(t, scope, parameter, choices, leaf)
  {
    var leaves := Leaves(t, scope, parameter, []).value;
    var ways := LeavesAreReached(t, scope, parameter, []);
    if choices :| IsLeafAt(t, scope, parameter, choices, leaf) {
      var i :| 0 <= i < |ways| && ways[i] == choices;
      assert leaves[i] == leaf;
    }
    if leaf in leaves {
      var i :| 0 <= i < |leaves| && leaves[i] == leaf;
      assert IsLeafAt(t, scope, parameter, ways[i], leaf);
    }
  }

  // ---------------------------------------------------------------- folding

  /** The paths part at some level. */
  ghost predicate Diverge(p: seq<Text>, q: seq<Text>) {
    p != [] && q != [] && (p[0] != q[0] || Diverge(p[1..], q[1..]))
  }

  ghost predicate AllDiverge(leaves: seq<Leaf>) {
    forall i, j | 0 <= i < |leaves| && 0 <= j < |leaves| && i != j :: Diverge(leaves[i].path, leaves[j].path)
  }

  lemma PrefixedDiverge(name: Text, leaves: seq<Leaf>)
    requires AllDiverge(leaves)
    ensures AllDiverge(Prefixed(name, leaves))
  {
    var r := Prefixed(name, leaves);
    forall i, j | 0 <= i < |r| && 0 <= j < |r| && i != j
      ensures Diverge(r[i].path, r[j].path)
    {
      assert r[i].path[1..] == leaves[i].path && r[j].path[1..] == leaves[j].path;
    }
  }

  /** With distinct names in every type, no leaf lies above another. */
  lemma {:induction false} LeavesDiverge(t: Table, scope: Text, field: Field, visiting: seq<nat>)
    requires Valid(t) && UniqueNames(t) && Stack(t, visiting) && Leaves(t, scope, field, visiting).Ok?
    ensures AllDiverge(Leaves(t, scope, field, visiting).value)
    decreases |t.types| - |visiting|, 1, 0
  {
    if t.resolve(scope, field.rustType).Properties? {
      var k := t.resolve(scope, field.rustType).index;
      StackIsShort(t, visiting + [k]);
      ChildrenDiverge(t, k, visiting + [k], |t.types[k].fields|);
    }
  }

  lemma {:induction false} ChildrenDiverge(t: Table, k: nat, visiting: seq<nat>, n: nat)
    requires Valid(t) && UniqueNames(t) && Stack(t, visiting) && k < |t.types| && n <= |t.types[k].fields|
    requires ChildLeaves(t, k, visiting, n).Ok?
    ensures AllDiverge(ChildLeaves(t, k, visiting, n).value)
    ensures forall x <- ChildLeaves(t, k, visiting, n).value ::
              x.path != [] && exists c | 0 <= c < n :: t.types[k].fields[c].name == x.path[0]
    decreases |t.types| - |visiting|, 2, n
  {
    if n > 0 {
      var child := t.types[k].fields[n - 1];
      ChildrenDiverge(t, k, visiting, n - 1);
      LeavesDiverge(t, t.types[k].modulePath, child, visiting);
      var before, last := ChildLeaves(t, k, visiting, n - 1).value,
        Leaves(t, t.types[k].modulePath, child, visiting).value;
      PrefixedDiverge(child.name, last);
      hide Leaves, ChildLeaves, Stack, Valid;
      JoinDiverges(before, Prefixed(child.name, last), child.name);
    }
  }

  lemma JoinDiverges(a: seq<Leaf>, b: seq<Leaf>, name: Text)
    requires AllDiverge(a) && AllDiverge(b)
    requires (forall x <- a :: x.path != [] && x.path[0] != name) && forall y <- b :: y.path != [] && y.path[0] == name
    ensures AllDiverge(a + b)
  {
    var r := a + b;
    forall i, j | 0 <= i < |r| && 0 <= j < |r| && i != j
      ensures Diverge(r[i].path, r[j].path)
    {
      if i < |a| && j >= |a| {
        assert a[i] in a && b[j - |a|] in b;
      } else if i >= |a| && j < |a| {
        assert a[j] in a && b[i - |a|] in b;
      }
    }
  }

  /** The position of a member, or the number of entries. */
  function MemberAt(entries: seq<V.Entry>, name: Text): (i: nat)
    ensures i <= |entries| && (i < |entries| ==> entries[i].key == name)
  {
    if entries == [] || entries[0].key == name then 0 else 1 + MemberAt(entries[1..], name)
  }

  /** The value at a path of named members. */
  function ValueAt(v: V.Value, path: seq<Text>): Option<V.Value>
    decreases path
  {
    if path == [] then Some(v)
    else if !v.Map? then None
    else
      var i := MemberAt(v.entries, path[0]);
      if i == |v.entries| then None else ValueAt(v.entries[i].value, path[1..])
  }

  lemma {:induction false} MemberAtFinds(entries: seq<V.Entry>, name: Text)
    ensures MemberAt(entries, name) < |entries| <==> VC.HasKey(entries, name)
    ensures VC.HasKey(entries, name) ==> VC.Get(entries, name) == entries[MemberAt(entries, name)].value
  {
    if entries != [] && entries[0].key != name {
      MemberAtFinds(entries[1..], name);
    }
  }

  /** A path is followed by looking its names up one after another; only a map has members. */
  lemma PathsAreLookups(v: V.Value, name: Text, rest: seq<Text>)
    ensures ValueAt(v, []) == Some(v)
    ensures ValueAt(v, [name] + rest)
            == if v.Map? && VC.HasKey(v.entries, name) then ValueAt(VC.Get(v.entries, name), rest) else None
  {
    assert ([name] + rest)[1..] == rest;
    if v.Map? {
      MemberAtFinds(v.entries, name);
    }
  }

  /** The value with an empty map left where the leaf was moved out. */
  function Taken(v: V.Value, path: seq<Text>): V.Value
    requires ValueAt(v, path).Some?
    decreases path
  {
    if path == [] then V.Map([])
    else
      var i := MemberAt(v.entries, path[0]);
      V.Map(v.entries[i := V.Entry(path[0], Taken(v.entries[i].value, path[1..]))])
  }

  lemma {:induction false} MemberAtUpdated(entries: seq<V.Entry>, i: nat, value: V.Value, name: Text)
    requires i < |entries|
    ensures MemberAt(entries[i := V.Entry(entries[i].key, value)], name) == MemberAt(entries, name)
  {
    var after := entries[i := V.Entry(entries[i].key, value)];
    if i > 0 && entries[0].key != name {
      assert after[1..] == entries[1..][i - 1 := V.Entry(entries[1..][i - 1].key, value)];
      MemberAtUpdated(entries[1..], i - 1, value, name);
    } else if i == 0 {
      assert after[1..] == entries[1..];
    }
  }

  /** Moving one leaf out leaves the others where they were. */
  lemma {:induction false} TakenElsewhere(v: V.Value, p: seq<Text>, q: seq<Text>)
    requires ValueAt(v, p).Some? && Diverge(p, q)
    ensures ValueAt(Taken(v, p), q) == ValueAt(v, q)
    decreases p
  {
    var i := MemberAt(v.entries, p[0]);
    MemberAtUpdated(v.entries, i, Taken(v.entries[i].value, p[1..]), q[0]);
    if p[0] == q[0] {
      TakenElsewhere(v.entries[i].value, p[1..], q[1..]);
    }
  }

  ghost predicate AllPresent(v: V.Value, leaves: seq<Leaf>) {
    forall i | 0 <= i < |leaves| :: ValueAt(v, leaves[i].path).Some?
  }

  /** Moves the leaves out of the shared value one at a time; each one is still the original. */
  method FoldInput(table: Table, scope: Text, parameter: Field, value: V.Value)
    returns (r: Result<seq<(Text, V.Value)>>)
    requires Valid(table) && UniqueNames(table)
    ensures var leaves := Leaves(table, scope, parameter, []); r.Ok? <==> leaves.Ok? && AllPresent(value, leaves.value)
    ensures var leaves := Leaves(table, scope, parameter, []); r.Ok? ==> |r.value| == |leaves.value|
    ensures var leaves := Leaves(table, scope, parameter, []);
            r.Ok? ==>
              forall i | 0 <= i < |r.value| ::
                r.value[i] == (leaves.value[i].field.name, ValueAt(value, leaves.value[i].path).value)
  {
    var inputs := InputFields(table, scope, parameter);
    if inputs.Rejected? {
      return Rejected;
    }
    var leaves := inputs.value;
    LeavesDiverge(table, scope, parameter, []);
    var shared, folded := value, [];
    for i := 0 to |leaves|
      invariant |folded| == i
      invariant forall j | 0 <= j < i ::
                  && ValueAt(value, leaves[j].path).Some?
                  && folded[j] == (leaves[j].field.name, ValueAt(value, leaves[j].path).value)
      invariant forall j | i <= j < |leaves| :: ValueAt(shared, leaves[j].path) == ValueAt(value, leaves[j].path)
    {
      var projected := ValueAt(shared, leaves[i].path);
      if projected.None? {
        return Rejected;
      }
      forall j | i < j < |leaves|
        ensures ValueAt(Taken(shared, leaves[i].path), leaves[j].path) == ValueAt(value, leaves[j].path)
      {
        TakenElsewhere(shared, leaves[i].path, leaves[j].path);
      }
      folded := folded + [(leaves[i].field.name, projected.value)];
      shared := Taken(shared, leaves[i].path);
    }
    return Ok(folded);
  }
}
