/**
  Component selection. A capture contributes the subtrees rooted at its top-level
  operations of the component; one pass over the operations stands for the transitive
  closure because every parent is recorded before its children.
 */
module CaptureFilter {
  import opened Wrappers
  import opened Utf8Order
  import opened CaptureModel
  import SessionSpec
  import SessionLaws

  /** What every session run maintains: unique identifiers, and parents that are the scenario or came earlier. */
  ghost predicate Ordered(scenarioId: SpanId, ops: seq<OperationSpan>) {
    && (forall i | 0 <= i < |ops| :: ops[i].spanId != scenarioId)
    && (forall i, j | 0 <= i < j < |ops| :: ops[i].spanId != ops[j].spanId)
    && (forall i | 0 <= i < |ops| ::
          ops[i].parentId == scenarioId || exists j :: 0 <= j < i && ops[j].spanId == ops[i].parentId)
  }

  ghost predicate OrderedCapture(c: Capture) { Ordered(c.scenario.spanId, c.operations) }

  /** The position of the parent operation. */
  ghost function ParentAt(scenarioId: SpanId, ops: seq<OperationSpan>, i: nat): (j: nat)
    requires Ordered(scenarioId, ops) && i < |ops| && ops[i].parentId != scenarioId
    ensures j < i && ops[j].spanId == ops[i].parentId
  {
    var j :| 0 <= j < i && ops[j].spanId == ops[i].parentId; j
  }

  /** The top-level ancestor of an operation. */
  ghost function Root(scenarioId: SpanId, ops: seq<OperationSpan>, i: nat): (r: nat)
    requires Ordered(scenarioId, ops) && i < |ops|
    ensures r <= i && ops[r].parentId == scenarioId
  {
    if ops[i].parentId == scenarioId then i else Root(scenarioId, ops, ParentAt(scenarioId, ops, i))
  }

  /** The operation's root is a top-level operation of the component. */
  ghost predicate Belongs(scenarioId: SpanId, ops: seq<OperationSpan>, component: Text, i: nat)
    requires Ordered(scenarioId, ops) && i < |ops|
  {
    ops[Root(scenarioId, ops, i)].component == component
  }

  // ---------------------------------------------------------------- the code

  predicate TopLevel(c: Capture, component: Text, op: OperationSpan) {
    op.parentId == c.scenario.spanId && op.component == component
  }

  function Retain(ops: seq<OperationSpan>, retained: set<SpanId>): seq<OperationSpan> {
    if ops == [] then []
    else Retain(ops[..|ops| - 1], retained) + if ops[|ops| - 1].spanId in retained then [ops[|ops| - 1]] else []
  }

  /** The identifiers of the top-level operations of the component. */
  function Seeds(c: Capture, component: Text): set<SpanId> {
    set op <- c.operations | TopLevel(c, component, op) :: op.spanId
  }

  /** One pass over the operations: a child joins when its parent has been retained. */
  function Grow(ops: seq<OperationSpan>, retained: set<SpanId>, n: nat): set<SpanId>
    requires n <= |ops|
  {
    if n == 0 then retained else
      var before := Grow(ops, retained, n - 1);
      if ops[n - 1].parentId in before then before + {ops[n - 1].spanId} else before
  }

  function OnePass(c: Capture, component: Text): Option<Capture> {
    var seeds := Seeds(c, component);
    if seeds == {} then None
    else Some(c.(operations := Retain(c.operations, Grow(c.operations, seeds, |c.operations|))))
  }

  /** Seed, grow in one pass, keep what was reached; the set is reused from capture to capture. */
  method Filter(scenarios: seq<Capture>, component: Text) returns (captures: seq<Capture>)
    ensures captures == Passes(scenarios, component)
    ensures (forall c <- scenarios :: OrderedCapture(c)) ==> captures == Selected(scenarios, component)
  {
    captures := [];
    var retained: set<SpanId> := {};
    for i := 0 to |scenarios|
      invariant captures == Passes(scenarios[..i], component)
    {
      assert scenarios[..i + 1][..i] == scenarios[..i];
      var capture := scenarios[i];
      retained := Seeds(capture, component);
      if retained == {} {
        continue;
      }
      for k := 0 to |capture.operations|
        invariant retained == Grow(capture.operations, Seeds(capture, component), k)
      {
        if capture.operations[k].parentId in retained {
          retained := retained + {capture.operations[k].spanId};
        }
      }
      captures := captures + [capture.(operations := Retain(capture.operations, retained))];
    }
    assert scenarios[..|scenarios|] == scenarios;
    if forall c <- scenarios :: OrderedCapture(c) {
      PassesAreSelections(scenarios, component);
    }
  }

  function Passes(scenarios: seq<Capture>, component: Text): seq<Capture> {
    if scenarios == [] then [] else
      var one := OnePass(scenarios[|scenarios| - 1], component);
      Passes(scenarios[..|scenarios| - 1], component) + if one.None? then [] else [one.value]
  }

  // ---------------------------------------------------------------- the specification

  /** The operations among the first n whose root belongs to the component, in order. */
  ghost function KeptPrefix(c: Capture, component: Text, n: nat): seq<OperationSpan>
    requires OrderedCapture(c) && n <= |c.operations|
  {
    if n == 0 then [] else
      KeptPrefix(c, component, n - 1)
      + if Belongs(c.scenario.spanId, c.operations, component, n - 1) then [c.operations[n - 1]] else []
  }

  ghost function Kept(c: Capture, component: Text): seq<OperationSpan>
    requires OrderedCapture(c)
  {
    KeptPrefix(c, component, |c.operations|)
  }

  ghost function Selected(scenarios: seq<Capture>, component: Text): seq<Capture>
    requires forall c <- scenarios :: OrderedCapture(c)
  {
    if scenarios == [] then [] else
      var last := scenarios[|scenarios| - 1];
      Selected(scenarios[..|scenarios| - 1], component)
      + if Kept(last, component) == [] then [] else [last.(operations := Kept(last, component))]
  }

  /** The one pass computes the transitive closure. */
  lemma OnePassIsClosure(c: Capture, component: Text)
    requires OrderedCapture(c)
    ensures OnePass(c, component)
            == if Kept(c, component) == [] then None else Some(c.(operations := Kept(c, component)))
  {
    var seeds, n := Seeds(c, component), |c.operations|;
    SeedsAreKept(c, component);
    GrowReaches(c, component, n);
    RetainedAreKept(c, component, Grow(c.operations, seeds, n), n);
    assert c.operations[..n] == c.operations;
  }

  lemma SeedAt(c: Capture, component: Text, k: nat)
    requires OrderedCapture(c) && k < |c.operations|
    ensures c.operations[k].spanId in Seeds(c, component) <==> TopLevel(c, component, c.operations[k])
  {
    assert c.operations[k] in c.operations;
    if c.operations[k].spanId in Seeds(c, component) {
      var op :| op in c.operations && TopLevel(c, component, op) && op.spanId == c.operations[k].spanId;
      var m :| 0 <= m < |c.operations| && c.operations[m] == op;
    }
  }

  /** There is a seed exactly when something is kept. */
  lemma SeedsAreKept(c: Capture, component: Text)
    requires OrderedCapture(c)
    ensures Seeds(c, component) == {} <==> Kept(c, component) == []
  {
    if Seeds(c, component) == {} {
      forall k | 0 <= k < |c.operations| ensures !TopLevel(c, component, c.operations[k]) {
        SeedAt(c, component, k);
      }
      NothingSelected(c, component);
    } else {
      var id :| id in Seeds(c, component);
      var op :| op in c.operations && TopLevel(c, component, op);
      var k :| 0 <= k < |c.operations| && c.operations[k] == op;
      KeptWhenBelongs(c, component, |c.operations|, k);
    }
  }

  lemma SeedsReach(c: Capture, component: Text)
    requires OrderedCapture(c)
    ensures Reached(c, component, Seeds(c, component), 0)
  {
    forall k | 0 <= k < |c.operations|
      ensures c.operations[k].spanId in Seeds(c, component) <==> TopLevel(c, component, c.operations[k])
    {
      SeedAt(c, component, k);
    }
    forall op <- c.operations ensures op.spanId != c.scenario.spanId {
      var k :| 0 <= k < |c.operations| && c.operations[k] == op;
    }
  }

  lemma {:induction false} GrowReaches(c: Capture, component: Text, n: nat)
    requires OrderedCapture(c) && n <= |c.operations|
    ensures Reached(c, component, Grow(c.operations, Seeds(c, component), n), n)
  {
    hide Reached, Ordered, Seeds;
    if n == 0 {
      SeedsReach(c, component);
    } else {
      GrowReaches(c, component, n - 1);
      ReachOne(c, component, Grow(c.operations, Seeds(c, component), n - 1), n - 1);
    }
  }

  lemma {:induction false} PassesAreSelections(scenarios: seq<Capture>, component: Text)
    requires forall c <- scenarios :: OrderedCapture(c)
    ensures Passes(scenarios, component) == Selected(scenarios, component)
  {
    if scenarios != [] {
      PassesAreSelections(scenarios[..|scenarios| - 1], component);
      OnePassIsClosure(scenarios[|scenarios| - 1], component);
    }
  }

  /** After i operations of the second pass: among them exactly those that belong are retained, plus later seeds. */
  ghost predicate Reached(c: Capture, component: Text, retained: set<SpanId>, i: nat)
    requires OrderedCapture(c) && i <= |c.operations|
  {
    && (forall k | 0 <= k < i ::
          c.operations[k].spanId in retained <==> Belongs(c.scenario.spanId, c.operations, component, k))
    && (forall k | i <= k < |c.operations| ::
          c.operations[k].spanId in retained <==> TopLevel(c, component, c.operations[k]))
    && c.scenario.spanId !in retained
  }

  lemma ReachOne(c: Capture, component: Text, retained: set<SpanId>, i: nat)
    requires OrderedCapture(c) && i < |c.operations| && Reached(c, component, retained, i)
    ensures Reached(c, component,
              if c.operations[i].parentId in retained then retained + {c.operations[i].spanId} else retained, i + 1)
  {
    JoinsWithParent(c, component, retained, i);
    hide Belongs, Ordered;
    var grown := if c.operations[i].parentId in retained then retained + {c.operations[i].spanId} else retained;
    assert forall k | 0 <= k < |c.operations| && k != i ::
             c.operations[k].spanId in grown <==> c.operations[k].spanId in retained;
  }

  /** An operation is retained after its turn exactly when it belongs: through its parent, or as a seed. */
  lemma JoinsWithParent(c: Capture, component: Text, retained: set<SpanId>, i: nat)
    requires OrderedCapture(c) && i < |c.operations| && Reached(c, component, retained, i)
    ensures (c.operations[i].parentId in retained || c.operations[i].spanId in retained) <==>
            Belongs(c.scenario.spanId, c.operations, component, i)
    ensures forall k | 0 <= k < |c.operations| && k != i :: c.operations[k].spanId != c.operations[i].spanId
    ensures c.operations[i].spanId != c.scenario.spanId
  {
    var ops, scenarioId := c.operations, c.scenario.spanId;
    if ops[i].parentId != scenarioId {
      var j := ParentAt(scenarioId, ops, i);
      assert ops[j].spanId in retained <==> Belongs(scenarioId, ops, component, j);
    }
  }

  lemma {:induction false} RetainedAreKept(c: Capture, component: Text, retained: set<SpanId>, n: nat)
    requires OrderedCapture(c) && n <= |c.operations| && Reached(c, component, retained, |c.operations|)
    ensures Retain(c.operations[..n], retained) == KeptPrefix(c, component, n)
  {
    if n > 0 {
      assert c.operations[..n][..n - 1] == c.operations[..n - 1];
      RetainedAreKept(c, component, retained, n - 1);
    }
  }

  lemma {:induction false} KeptWhenBelongs(c: Capture, component: Text, n: nat, i: nat)
    requires OrderedCapture(c) && i < n <= |c.operations|
    ensures c.operations[i] in KeptPrefix(c, component, n) <==> Belongs(c.scenario.spanId, c.operations, component, i)
  {
    hide Belongs;
    if i < n - 1 {
      KeptWhenBelongs(c, component, n - 1, i);
    } else if c.operations[i] in KeptPrefix(c, component, n - 1) {
      KeptOrigin(c, component, n - 1, c.operations[i]);
    }
  }

  lemma {:induction false} KeptOrigin(c: Capture, component: Text, n: nat, op: OperationSpan)
    requires OrderedCapture(c) && n <= |c.operations| && op in KeptPrefix(c, component, n)
    ensures exists i :: 0 <= i < n && c.operations[i] == op && Belongs(c.scenario.spanId, c.operations, component, i)
  {
    if op in KeptPrefix(c, component, n - 1) {
      KeptOrigin(c, component, n - 1, op);
    }
  }

  lemma NothingSelected(c: Capture, component: Text)
    requires OrderedCapture(c)
    requires forall k | 0 <= k < |c.operations| :: !TopLevel(c, component, c.operations[k])
    ensures Kept(c, component) == []
  {
    if Kept(c, component) != [] {
      KeptOrigin(c, component, |c.operations|, Kept(c, component)[0]);
    }
  }

  // ---------------------------------------------------------------- properties

  /** Exactly the operations whose root ancestor is a top-level operation of the component are kept. */
  lemma KeptExactly(c: Capture, component: Text, op: OperationSpan)
    requires OrderedCapture(c)
    ensures op in Kept(c, component) <==>
            exists i ::
              0 <= i < |c.operations| && c.operations[i] == op && Belongs(c.scenario.spanId, c.operations, component, i)
  {
    if op in Kept(c, component) {
      KeptOrigin(c, component, |c.operations|, op);
    }
    if i :| 0 <= i < |c.operations| && c.operations[i] == op && Belongs(c.scenario.spanId, c.operations, component, i) {
      KeptWhenBelongs(c, component, |c.operations|, i);
    }
  }

  /** Across components each operation is assigned to exactly one result: that of its root's component. */
  lemma ExactlyOneComponent(c: Capture, i: nat, component: Text)
    requires OrderedCapture(c) && i < |c.operations|
    ensures c.operations[i] in Kept(c, component) <==>
              component == c.operations[Root(c.scenario.spanId, c.operations, i)].component
  {
    KeptWhenBelongs(c, component, |c.operations|, i);
  }

  lemma ParentsAreKept(c: Capture, component: Text, i: nat)
    requires OrderedCapture(c) && i < |c.operations| && Belongs(c.scenario.spanId, c.operations, component, i)
    requires c.operations[i].parentId != c.scenario.spanId
    ensures exists p ::
              && 0 <= p < |KeptPrefix(c, component, i)|
              && KeptPrefix(c, component, i)[p].spanId == c.operations[i].parentId
  {
    var j := ParentAt(c.scenario.spanId, c.operations, i);
    KeptWhenBelongs(c, component, i, j);
    assert c.operations[j] in KeptPrefix(c, component, i);
  }

  /** The kept operations are again ordered: every parent that is not the scenario is still there, and earlier. */
  lemma {:induction false} KeptIsOrdered(c: Capture, component: Text, n: nat)
    requires OrderedCapture(c) && n <= |c.operations|
    ensures Ordered(c.scenario.spanId, KeptPrefix(c, component, n))
  {
    hide Belongs;
    if n > 0 {
      KeptIsOrdered(c, component, n - 1);
      var before, op := KeptPrefix(c, component, n - 1), c.operations[n - 1];
      if Belongs(c.scenario.spanId, c.operations, component, n - 1) {
        forall k | 0 <= k < |before| ensures before[k].spanId != op.spanId {
          KeptOrigin(c, component, n - 1, before[k]);
        }
        if op.parentId != c.scenario.spanId {
          ParentsAreKept(c, component, n - 1);
        }
        KeepOrdered(c.scenario.spanId, before, op);
      } else {
        assert KeptPrefix(c, component, n) == before;
      }
    }
  }

  lemma KeepOrdered(scenarioId: SpanId, before: seq<OperationSpan>, op: OperationSpan)
    requires Ordered(scenarioId, before) && op.spanId != scenarioId
    requires forall k | 0 <= k < |before| :: before[k].spanId != op.spanId
    requires op.parentId == scenarioId || exists j :: 0 <= j < |before| && before[j].spanId == op.parentId
    ensures Ordered(scenarioId, before + [op])
  {
    var ops := before + [op];
    forall i | 0 <= i < |ops|
      ensures ops[i].parentId == scenarioId || exists j :: 0 <= j < i && ops[j].spanId == ops[i].parentId
    {
      if i < |before| {
        if j :| 0 <= j < i && before[j].spanId == before[i].parentId {
          assert ops[j].spanId == ops[i].parentId;
        }
      } else if op.parentId != scenarioId {
        var j :| 0 <= j < |before| && before[j].spanId == op.parentId;
        assert ops[j].spanId == ops[i].parentId;
      }
    }
  }

  lemma {:induction false} KeptStillBelongs(c: Capture, component: Text, p: nat)
    requires OrderedCapture(c) && p < |Kept(c, component)|
    ensures Ordered(c.scenario.spanId, Kept(c, component))
    ensures Belongs(c.scenario.spanId, Kept(c, component), component, p)
  {
    KeptIsOrdered(c, component, |c.operations|);
    var kept := Kept(c, component);
    if kept[p].parentId == c.scenario.spanId {
      KeptOrigin(c, component, |c.operations|, kept[p]);
    } else {
      KeptStillBelongs(c, component, ParentAt(c.scenario.spanId, kept, p));
    }
  }

  lemma {:induction false} AllBelong(c: Capture, component: Text, n: nat)
    requires OrderedCapture(c) && n <= |c.operations|
    requires forall i | 0 <= i < |c.operations| :: Belongs(c.scenario.spanId, c.operations, component, i)
    ensures KeptPrefix(c, component, n) == c.operations[..n]
  {
    hide Belongs;
    if n > 0 {
      AllBelong(c, component, n - 1);
      assert c.operations[..n] == c.operations[..n - 1] + [c.operations[n - 1]];
    }
  }

  /** Filtering twice is filtering once. */
  lemma FilterIsIdempotent(c: Capture, component: Text)
    requires OrderedCapture(c)
    ensures var once := c.(operations := Kept(c, component));
            OrderedCapture(once) && Kept(once, component) == once.operations
  {
    KeptIsOrdered(c, component, |c.operations|);
    var once := c.(operations := Kept(c, component));
    forall i | 0 <= i < |once.operations| ensures Belongs(once.scenario.spanId, once.operations, component, i) {
      KeptStillBelongs(c, component, i);
    }
    AllBelong(once, component, |once.operations|);
    assert once.operations[..|once.operations|] == once.operations;
  }

  /** Every capture a session run can project meets the filter's premise. */
  lemma SessionsAreOrdered(config: Config, actions: seq<SessionLaws.Action>, untrusted: bool)
    requires ValidConfig(config) && SessionLaws.Runs(SessionSpec.Start(config), actions)
    ensures OrderedCapture(SessionSpec.Project(SessionLaws.After(SessionSpec.Start(config), actions), untrusted))
  {
    SessionLaws.StartIsGood(config);
    SessionLaws.RunsWellFormed(SessionSpec.Start(config), actions);
    ConfigIsKept(SessionSpec.Start(config), actions);
    var s := SessionLaws.After(SessionSpec.Start(config), actions);
    SessionLaws.CloseWellFormed(s, 0, untrusted);
    var closed := SessionSpec.CloseDown(s, 0, untrusted);
    var ops := SessionSpec.Build(closed).operations;
    forall i | 0 <= i < |ops|
      ensures ops[i].parentId == config.scenarioId || exists j :: 0 <= j < i && ops[j].spanId == ops[i].parentId
    {
      assert SessionLaws.ParentBefore(closed, i);
      if j :| 0 <= j < i && closed.operations[j].spanId == closed.operations[i].parentId {
        assert ops[j].spanId == ops[i].parentId;
      }
    }
  }

  lemma {:induction false} ConfigIsKept(s: SessionSpec.Session, actions: seq<SessionLaws.Action>)
    requires SessionLaws.Runs(s, actions)
    ensures SessionLaws.After(s, actions).config == s.config
    decreases |actions|
  {
    if actions != [] {
      ConfigIsKept(SessionLaws.Apply(s, actions[0]), actions[1..]);
    }
  }
}
