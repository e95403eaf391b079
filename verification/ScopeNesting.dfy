/**
  Nesting over whole runs of scopes, poisoned or not.

  Two questions have exact answers. The open operations are the ancestor chain of the current one at the end of a
  run exactly when every step met `StepNests`. The intervals of the capture nest exactly when no operation ended
  while a child of it was open; in a run that is not poisoned that is the last-in first-out condition.
 */
module ScopeNesting {
  import opened Wrappers
  import opened Utf8Order
  import opened Values
  import opened CaptureModel
  import opened SessionSpec
  import opened RustCollector

  // ---------------------------------------------------------------- the ancestor chain

  /** Every step of the run keeps the nesting. */
  ghost predicate RunNests(c: Collector, actions: seq<ScopeAction>)
    requires Indexed(c) && Feasible(c, actions)
    decreases |actions|
  {
    actions == [] ||
    (PerformIndexed(c, actions[0]);
     StepNests(c, actions[0]) && RunNests(Perform(c, actions[0]), actions[1..]))
  }

  predicate ClosesScope(a: ScopeAction) { a.EndScope? || a.LoseScope? }

  /** A scope is an owned value: completing it consumes it, and it is dropped once. */
  ghost predicate OncePerScope(actions: seq<ScopeAction>) {
    forall x, y | 0 <= x < y < |actions| && ClosesScope(actions[x]) && ClosesScope(actions[y]) ::
      actions[x].i != actions[y].i
  }

  ghost predicate Untouched(actions: seq<ScopeAction>, i: nat) {
    forall x | 0 <= x < |actions| && ClosesScope(actions[x]) :: actions[x].i != i
  }

  /** An operation whose scope is gone, still open and off the chain. */
  ghost predicate Leaked(c: Collector, i: nat) {
    Indexed(c) && c.poisoned && i < |c.parents| && Open(c.session.operations[i]) && !OnChain(c.parents, c.current, i)
  }

  lemma LeakStays(c: Collector, a: ScopeAction, i: nat)
    requires Leaked(c, i) && CanDo(c, a) && (ClosesScope(a) ==> a.i != i)
    ensures Leaked(Perform(c, a), i)
  {
    PerformIndexed(c, a);
    var r := Perform(c, a);
    assert r.parents == c.parents;
    assert r.current == c.current || (c.current.Some? && r.current == c.parents[c.current.value]);
  }

  lemma {:induction false} LeakRuns(c: Collector, actions: seq<ScopeAction>, i: nat)
    requires Leaked(c, i) && Feasible(c, actions) && Untouched(actions, i)
    ensures !Nested(Final(c, actions))
    decreases |actions|
  {
    if actions != [] {
      LeakStays(c, actions[0], i);
      LeakRuns(Perform(c, actions[0]), actions[1..], i);
    }
  }

  /** A child that outlives its parent. */
  ghost predicate Outlives(c: Collector, j: nat) {
    Indexed(c) && c.session.config.step > 0 && j < |c.parents| && c.parents[j].Some? &&
    var parent, child := c.session.operations[c.parents[j].value], c.session.operations[j];
    !Open(parent) && parent.end < c.session.nextTime && (!Open(child) ==> parent.end < child.end)
  }

  ghost predicate ChildOutlives(c: Collector) {
    exists j: nat :: Outlives(c, j)
  }

  lemma OutlivingStays(c: Collector, a: ScopeAction, j: nat)
    requires Outlives(c, j) && CanDo(c, a)
    ensures Outlives(Perform(c, a), j)
  {
    PerformIndexed(c, a);
    var i := c.parents[j].value;
    if ClosesScope(a) {
      ClosingMovesOn(c, a);
      assert i != a.i || !Open(c.session.operations[i]);
    }
  }

  /** An action on a scope changes at most that operation, and ends it no earlier than now. */
  lemma ClosingMovesOn(c: Collector, a: ScopeAction)
    requires Indexed(c) && CanDo(c, a) && ClosesScope(a) && c.session.config.step > 0
    ensures var r := Perform(c, a);
            && |r.session.operations| == |c.session.operations| && r.parents == c.parents
            && r.session.config == c.session.config && c.session.nextTime <= r.session.nextTime
            && (forall k | 0 <= k < |c.parents| && k != a.i :: r.session.operations[k] == c.session.operations[k])
            && (r.session.operations[a.i] == c.session.operations[a.i] ||
                (Open(c.session.operations[a.i]) && c.session.nextTime <= r.session.operations[a.i].end))
  {
  }

  lemma {:induction false} OutlivingRuns(c: Collector, actions: seq<ScopeAction>, j: nat)
    requires Outlives(c, j) && Feasible(c, actions)
    ensures Outlives(Final(c, actions), j)
    decreases |actions|
  {
    if actions != [] {
      OutlivingStays(c, actions[0], j);
      OutlivingRuns(Perform(c, actions[0]), actions[1..], j);
    }
  }

  /** Between a chain's start and an ancestor lies a child of that ancestor. */
  lemma {:induction false} ChainChild(parents: seq<Option<nat>>, from: Option<nat>, i: nat) returns (j: nat)
    requires OnChain(parents, from, i) && from != Some(i)
    ensures j < |parents| && parents[j] == Some(i) && OnChain(parents, from, j)
    decreases from.value
  {
    if parents[from.value] == Some(i) {
      j := from.value;
    } else {
      j := ChainChild(parents, parents[from.value], i);
    }
  }

  /** A step that breaks the nesting leaves a child that outlives its parent, or a leaked operation. */
  lemma BreakIsLasting(c: Collector, a: ScopeAction)
    requires Nested(c) && CanDo(c, a) && !StepNests(c, a)
    ensures ClosesScope(a) && (Leaked(Perform(c, a), a.i) || ChildOutlives(Perform(c, a)))
  {
    PerformIndexed(c, a);
    var i, r := a.i, Perform(c, a);
    assert Open(c.session.operations[i]) && OnChain(c.parents, c.current, i);
    if a.LoseScope? && !a.panicking && !a.abandonable {
      if OnChain(c.parents, c.parents[i], i) {
        ChainDescends(c.parents, c.parents[i], i);
      }
      assert Leaked(r, i);
    } else {
      var j := ChainChild(c.parents, c.current, i);
      assert Open(c.session.operations[j]) && j != i;
      assert Outlives(r, j);
    }
  }

  /** The open operations are the ancestor chain at the end of a run exactly when every step kept the nesting. */
  lemma {:induction false} NestingRuns(c: Collector, actions: seq<ScopeAction>)
    requires Nested(c) && Feasible(c, actions) && OncePerScope(actions)
    ensures Nested(Final(c, actions)) <==> RunNests(c, actions)
    decreases |actions|
  {
    if actions != [] {
      var a, r := actions[0], Perform(c, actions[0]);
      PerformIndexed(c, a);
      NestingStep(c, a);
      if StepNests(c, a) {
        NestingRuns(r, actions[1..]);
      } else {
        BreakIsLasting(c, a);
        if Leaked(r, a.i) {
          LeakRuns(r, actions[1..], a.i);
        } else {
          var j: nat :| Outlives(r, j);
          OutlivingRuns(r, actions[1..], j);
          NeverNested(Final(c, actions), j);
        }
      }
    }
  }

  lemma NeverNested(c: Collector, j: nat)
    requires Outlives(c, j)
    ensures !Nested(c)
  {
    assert !InsideParent(c, j);
  }

  /** In a run that is not poisoned, that is: every end of an open operation ends the current one. */
  lemma LifoRunsNest(c: Collector, actions: seq<ScopeAction>)
    requires Nested(c) && Feasible(c, actions) && OncePerScope(actions) && !Final(c, actions).poisoned
    ensures Nested(Final(c, actions)) <==> Lifo(c, actions)
  {
    NestingRuns(c, actions);
    UnpoisonedIsLifo(c, actions);
  }

  lemma {:induction false} UnpoisonedIsLifo(c: Collector, actions: seq<ScopeAction>)
    requires Indexed(c) && Feasible(c, actions) && !Final(c, actions).poisoned
    ensures RunNests(c, actions) <==> Lifo(c, actions)
    decreases |actions|
  {
    if actions != [] {
      PerformIndexed(c, actions[0]);
      PoisonStays(Perform(c, actions[0]), actions[1..]);
      UnpoisonedIsLifo(Perform(c, actions[0]), actions[1..]);
    }
  }

  // ---------------------------------------------------------------- the captured intervals

  /** No child of the operation is open. */
  ghost predicate Childless(c: Collector, i: nat)
    requires Indexed(c)
  {
    forall j | 0 <= j < |c.parents| && c.parents[j] == Some(i) :: !Open(c.session.operations[j])
  }

  /** The action records the end of operation `a.i`. */
  ghost predicate Records(c: Collector, a: ScopeAction) {
    Takes(c, a) && (a.LoseScope? ==> a.panicking || a.abandonable)
  }

  /** Whenever the run records the end of an operation, no child of it is open. */
  ghost predicate ChildrenFirst(c: Collector, actions: seq<ScopeAction>)
    requires Indexed(c) && Feasible(c, actions)
    decreases |actions|
  {
    actions == [] ||
    (PerformIndexed(c, actions[0]);
     && (Records(c, actions[0]) ==> Childless(c, actions[0].i))
     && ChildrenFirst(Perform(c, actions[0]), actions[1..]))
  }

  /** Own events in order, and closed parents around closed children. */
  ghost predicate Enclosed(c: Collector) {
    && Indexed(c) && c.session.config.step > 0
    && (forall i | 0 <= i < |c.session.operations| :: OwnEventsInOrder(c.session.operations[i], c.session.nextTime))
    && (forall i | 0 <= i < |c.session.operations| :: InsideParent(c, i))
  }

  /** Besides, whatever the pointer leads to is open. */
  ghost predicate Tidy(c: Collector) {
    Enclosed(c) && forall i: nat | OnChain(c.parents, c.current, i) :: i < |c.parents| && Open(c.session.operations[i])
  }

  lemma EndEnclosed(c: Collector, i: nat, outcome: Option<Outcome>)
    requires Enclosed(c) && i < |c.parents| && Open(c.session.operations[i]) && Childless(c, i)
    ensures Enclosed(c.(session := Complete(c.session, i, outcome)))
  {
    var r := c.(session := Complete(c.session, i, outcome));
    forall k | 0 <= k < |c.session.operations|
      ensures OwnEventsInOrder(r.session.operations[k], r.session.nextTime)
      ensures InsideParent(r, k)
    {
      assert OwnEventsInOrder(c.session.operations[k], c.session.nextTime) && InsideParent(c, k);
    }
  }

  lemma ReleaseTidy(c: Collector, r: Collector, i: nat)
    requires Tidy(c) && i < |c.parents| && Enclosed(r) && r.parents == c.parents
    requires r.current == if c.current == Some(i) then c.parents[i] else c.current
    requires forall k | 0 <= k < |c.parents| && k != i :: Open(r.session.operations[k]) == Open(c.session.operations[k])
    requires OnChain(c.parents, c.current, i) && c.current != Some(i) ==>
               Open(r.session.operations[i]) == Open(c.session.operations[i])
    ensures Tidy(r)
  {
    forall k: nat | OnChain(r.parents, r.current, k)
      ensures k < |r.parents| && Open(r.session.operations[k])
    {
      assert OnChain(c.parents, c.current, k);
      if c.current == Some(i) {
        ChainDescends(c.parents, c.parents[i], k);
      }
    }
  }

  lemma EndTidy(c: Collector, i: nat, outcome: Option<Outcome>)
    requires Tidy(c) && i < |c.parents| && Open(c.session.operations[i])
    ensures Tidy(CompleteScope(c, i, outcome)) <==> Childless(c, i)
    ensures !Childless(c, i) ==> ChildOutlives(CompleteScope(c, i, outcome))
  {
    var r := CompleteScope(c, i, outcome);
    if Childless(c, i) {
      EndEnclosed(c, i, outcome);
      if OnChain(c.parents, c.current, i) && c.current != Some(i) {
        var j := ChainChild(c.parents, c.current, i);
        assert false;
      }
      var e := c.(session := Complete(c.session, i, outcome));
      EnclosedIgnoresCurrent(e, r);
      ReleaseTidy(c, r, i);
    } else {
      var j :| 0 <= j < |c.parents| && c.parents[j] == Some(i) && Open(c.session.operations[j]);
      assert Outlives(r, j);
      assert !InsideParent(r, j);
    }
  }

  lemma EnclosedIgnoresCurrent(c: Collector, r: Collector)
    requires Enclosed(c) && Indexed(r) && r.session == c.session && r.parents == c.parents
    ensures Enclosed(r)
  {
    forall k | 0 <= k < |c.session.operations|
      ensures InsideParent(r, k)
    {
      assert InsideParent(c, k);
    }
  }

  lemma OpenTidy(c: Collector, id: SpanId, component: Text, name: Text, inputs: seq<Entry>)
    requires Tidy(c)
    ensures Tidy(BeginActive(c, id, component, name, inputs))
  {
    var r, n := BeginActive(c, id, component, name, inputs), |c.session.operations|;
    assert forall i | 0 <= i < n :: r.session.operations[i] == c.session.operations[i];
    if c.current.Some? {
      assert OnChain(c.parents, c.current, c.current.value);
      assert OwnEventsInOrder(c.session.operations[c.current.value], c.session.nextTime);
    }
    forall i | 0 <= i <= n
      ensures InsideParent(r, i)
    {
      if i < n {
        assert InsideParent(c, i);
      }
    }
    forall i: nat | OnChain(r.parents, r.current, i)
      ensures i < |r.parents| && Open(r.session.operations[i])
    {
      ChainIgnoresNewer(c.parents, c.current, c.current, i);
    }
  }

  lemma ObserveTidy(c: Collector, name: Text, value: Value)
    requires Tidy(c)
    ensures Tidy(RecordObservation(c, name, value))
  {
    var r := RecordObservation(c, name, value);
    if r != c {
      var at := c.current.value;
      assert OnChain(c.parents, c.current, at);
      assert OwnEventsInOrder(c.session.operations[at], c.session.nextTime);
      forall i | 0 <= i < |c.session.operations|
        ensures InsideParent(r, i)
      {
        assert InsideParent(c, i);
      }
    }
  }

  /** The exact step law of the intervals; it does not ask whether the session is poisoned. */
  lemma TidyStep(c: Collector, a: ScopeAction)
    requires Tidy(c) && CanDo(c, a)
    ensures Tidy(Perform(c, a)) <==> (Records(c, a) ==> Childless(c, a.i))
    ensures !Tidy(Perform(c, a)) ==> ChildOutlives(Perform(c, a))
  {
    match a
    case OpenScope(id, component, name, inputs) => OpenTidy(c, id, component, name, inputs);
    case ObserveNow(name, value) => ObserveTidy(c, name, value);
    case EndScope(i, outcome) => EndTidy(c, i, outcome);
    case LoseScope(i, panicking, abandonable) =>
      if Takes(c, a) {
        if panicking {
          EndTidy(c, i, Some(Fault(UNEXPECTED, UNWOUND)));
        } else if abandonable {
          EndTidy(c, i, Some(Abandoned));
        } else {
          EnclosedIgnoresCurrent(c, Perform(c, a));
          ReleaseTidy(c, Perform(c, a), i);
        }
      }
  }

  lemma {:induction false} TidyRuns(c: Collector, actions: seq<ScopeAction>)
    requires Tidy(c) && Feasible(c, actions)
    ensures ChildrenFirst(c, actions) ==> Tidy(Final(c, actions))
    ensures !ChildrenFirst(c, actions) ==> ChildOutlives(Final(c, actions))
    decreases |actions|
  {
    if actions != [] {
      var r := Perform(c, actions[0]);
      PerformIndexed(c, actions[0]);
      TidyStep(c, actions[0]);
      hide Tidy, Outlives, Perform, Childless, Records, CanDo;
      if Tidy(r) {
        TidyRuns(r, actions[1..]);
      } else {
        var j: nat :| Outlives(r, j);
        OutlivingRuns(r, actions[1..], j);
      }
    }
  }

  // ---------------------------------------------------------------- closing and capturing

  /** Closing from the last operation down closes children before parents. */
  lemma {:induction false} CloseEnclosed(c: Collector, k: nat)
    requires Enclosed(c) && k <= |c.session.operations|
    ensures Enclosed(c.(session := CloseDown(c.session, k, false)))
    decreases |c.session.operations| - k
  {
    if k < |c.session.operations| {
      CloseEnclosed(c, k + 1);
      var later := c.(session := CloseDown(c.session, k + 1, false));
      if Open(later.session.operations[k]) {
        EndEnclosed(later, k, Some(Incomplete(later.session.operations[k].name)));
      }
    }
  }

  lemma {:induction false} CloseOutlives(c: Collector, k: nat, j: nat)
    requires Outlives(c, j) && k <= |c.session.operations|
    ensures Outlives(c.(session := CloseDown(c.session, k, false)), j)
    decreases |c.session.operations| - k
  {
    if k < |c.session.operations| {
      CloseOutlives(c, k + 1, j);
    }
  }

  /** The child's interval lies strictly inside its parent's. */
  ghost predicate InsideSpan(child: OperationSpan, parent: OperationSpan) {
    child.parentId == parent.spanId && parent.start < child.start < child.end < parent.end
  }

  ghost predicate ObservedInTime(span: OperationSpan) {
    span.completion.Some? ==> forall o <- span.observations :: span.start < o.time < span.completion.value.time
  }

  ghost predicate IntervalsNest(parents: seq<Option<nat>>, spans: seq<OperationSpan>) {
    && |spans| == |parents|
    && (forall i | 0 <= i < |parents| && parents[i].Some? ::
          parents[i].value < |spans| && InsideSpan(spans[i], spans[parents[i].value]))
    && (forall i | 0 <= i < |spans| :: ObservedInTime(spans[i]))
  }

  /** In the capture of any run the intervals nest exactly when no operation ended before a child of it. */
  lemma CaptureIntervalsNest(config: Config, actions: seq<ScopeAction>)
    requires ValidConfig(config) && Feasible(Fresh(config), actions)
    ensures var c := Final(Fresh(config), actions);
            IntervalsNest(c.parents, Project(c.session, false).operations) <==> ChildrenFirst(Fresh(config), actions)
  {
    TidyRuns(Fresh(config), actions);
    FinalIndexed(Fresh(config), actions);
    var c := Final(Fresh(config), actions);
    var closed := c.(session := CloseDown(c.session, 0, false));
    if ChildrenFirst(Fresh(config), actions) {
      CloseEnclosed(c, 0);
      forall i | 0 <= i < |c.parents|
        ensures c.parents[i].Some? ==>
                  InsideSpan(BuildSpan(closed.session.operations[i]),
                             BuildSpan(closed.session.operations[c.parents[i].value]))
        ensures ObservedInTime(BuildSpan(closed.session.operations[i]))
      {
        assert InsideParent(closed, i) && OwnEventsInOrder(closed.session.operations[i], closed.session.nextTime);
      }
    } else {
      var j: nat :| Outlives(c, j);
      CloseOutlives(c, 0, j);
      var spans := Project(c.session, false).operations;
      assert !InsideSpan(spans[j], spans[c.parents[j].value]);
    }
  }

  lemma {:induction false} FinalIndexed(c: Collector, actions: seq<ScopeAction>)
    requires Indexed(c) && Feasible(c, actions)
    ensures Indexed(Final(c, actions))
    decreases |actions|
  {
    if actions != [] {
      PerformIndexed(c, actions[0]);
      FinalIndexed(Perform(c, actions[0]), actions[1..]);
    }
  }

  /** On the chain, the operation without an open child is the current one. */
  lemma CurrentIsChildless(c: Collector, i: nat)
    requires Nested(c) && i < |c.parents| && Open(c.session.operations[i])
    ensures Childless(c, i) <==> c.current == Some(i)
  {
    assert OnChain(c.parents, c.current, i);
    if c.current == Some(i) {
      forall j: nat | j < |c.parents| && c.parents[j] == Some(i)
        ensures !Open(c.session.operations[j])
      {
        if OnChain(c.parents, c.current, j) {
          ChainDescends(c.parents, c.current, j);
        }
      }
    } else {
      var j := ChainChild(c.parents, c.current, i);
    }
  }

  lemma {:induction false} LifoIsChildrenFirst(c: Collector, actions: seq<ScopeAction>)
    requires Nested(c) && Feasible(c, actions) && !Final(c, actions).poisoned
    ensures ChildrenFirst(c, actions) <==> Lifo(c, actions)
    decreases |actions|
  {
    if actions != [] {
      var a, r := actions[0], Perform(c, actions[0]);
      PerformIndexed(c, a);
      PoisonStays(r, actions[1..]);
      NestingStep(c, a);
      if Takes(c, a) {
        CurrentIsChildless(c, a.i);
      }
      if StepNests(c, a) {
        LifoIsChildrenFirst(r, actions[1..]);
      }
    }
  }

  /** In a run that is not poisoned the captured intervals nest exactly when every end is of the current operation. */
  lemma LifoCapturesNest(config: Config, actions: seq<ScopeAction>)
    requires ValidConfig(config) && Feasible(Fresh(config), actions) && !Final(Fresh(config), actions).poisoned
    ensures var c := Final(Fresh(config), actions);
            IntervalsNest(c.parents, Project(c.session, false).operations) <==> Lifo(Fresh(config), actions)
  {
    CaptureIntervalsNest(config, actions);
    LifoIsChildrenFirst(Fresh(config), actions);
  }

  // ---------------------------------------------------------------- runs that do not nest

  lemma RunStep(c: Collector, a: ScopeAction, rest: seq<ScopeAction>)
    requires Indexed(c) && CanDo(c, a) && Indexed(Perform(c, a)) && Feasible(Perform(c, a), rest)
    ensures Feasible(c, [a] + rest) && Final(c, [a] + rest) == Final(Perform(c, a), rest)
    ensures Lifo(c, [a] + rest) <==> (Takes(c, a) ==> c.current == Some(a.i)) && Lifo(Perform(c, a), rest)
  {
    assert ([a] + rest)[0] == a && ([a] + rest)[1..] == rest;
  }

  const COMPONENT := Literal("c")
  const OUTER := Literal("outer")
  const INNER := Literal("inner")
  const LATE := Literal("late")

  /** A state after an outer and, inside it, an inner operation have begun. */
  ghost function TwoOpen(config: Config, outer: SpanId, inner: SpanId): Collector {
    BeginActive(BeginActive(Fresh(config), outer, COMPONENT, OUTER, []), inner, COMPONENT, INNER, [])
  }

  ghost predicate NextTwoIds(config: Config, outer: SpanId, inner: SpanId) {
    IsNextId(Start(config), outer) && IsNextId(BeginActive(Fresh(config), outer, COMPONENT, OUTER, []).session, inner)
  }

  ghost function Opening(outer: SpanId, inner: SpanId): seq<ScopeAction> {
    [OpenScope(outer, COMPONENT, OUTER, []), OpenScope(inner, COMPONENT, INNER, [])]
  }

  lemma OpeningRuns(config: Config, outer: SpanId, inner: SpanId, rest: seq<ScopeAction>)
    requires && NextTwoIds(config, outer, inner)
             && Indexed(TwoOpen(config, outer, inner))
             && Feasible(TwoOpen(config, outer, inner), rest)
    ensures Feasible(Fresh(config), Opening(outer, inner) + rest)
    ensures Final(Fresh(config), Opening(outer, inner) + rest) == Final(TwoOpen(config, outer, inner), rest)
    ensures Lifo(TwoOpen(config, outer, inner), rest) ==> Lifo(Fresh(config), Opening(outer, inner) + rest)
  {
    var first, second := OpenScope(outer, COMPONENT, OUTER, []), OpenScope(inner, COMPONENT, INNER, []);
    var one := BeginActive(Fresh(config), outer, COMPONENT, OUTER, []);
    hide IsNextId, Final, Feasible, Lifo;
    RunStep(one, second, rest);
    RunStep(Fresh(config), first, [second] + rest);
    assert Opening(outer, inner) + rest == [first] + ([second] + rest);
  }

  /**
    Ends out of order: the outer operation ends first, the pointer comes to rest on an ended operation,
    and the next observation lands there after its end.
   */
  lemma OutOfOrderEndsBreakNesting(config: Config, outer: SpanId, inner: SpanId, value: Value)
    requires ValidConfig(config) && NextTwoIds(config, outer, inner)
    ensures var run := Opening(outer, inner) + [EndScope(0, None), EndScope(1, None), ObserveNow(LATE, value)];
            && Feasible(Fresh(config), run)
            && var r := Final(Fresh(config), run);
            && |r.session.operations| == 2 && r.current == Some(0)
            && var first, second := r.session.operations[0], r.session.operations[1];
            && !Open(first) && |first.observations| == 1
            && first.end < first.observations[0].time && first.end < second.end
  {
    var both := TwoOpen(config, outer, inner);
    var one := CompleteScope(both, 0, None);
    var two := CompleteScope(one, 1, None);
    var late: ScopeAction := ObserveNow(LATE, value);
    assert Feasible(RecordObservation(two, LATE, value), []);
    assert Final(RecordObservation(two, LATE, value), []) == RecordObservation(two, LATE, value);
    hide Feasible, Final, Lifo, NextTwoIds;
    RunStep(two, late, []);
    RunStep(one, EndScope(1, None), [late] + []);
    RunStep(both, EndScope(0, None), [EndScope(1, None)] + ([late] + []));
    var rest := [EndScope(0, None), EndScope(1, None), late];
    assert rest == [EndScope(0, None)] + ([EndScope(1, None)] + ([late] + []));
    OpeningRuns(config, outer, inner, rest);
  }

  /**
    A synchronous scope dropped without a completion: every end and drop is of the current operation, yet the inner
    operation stays open, and its interval ends after its parent's.
   */
  lemma LostScopeBreaksNesting(config: Config, outer: SpanId, inner: SpanId)
    requires ValidConfig(config) && NextTwoIds(config, outer, inner)
    ensures var run := Opening(outer, inner) + [LoseScope(1, false, false), EndScope(0, None)];
            && Feasible(Fresh(config), run) && Lifo(Fresh(config), run)
            && var c := Final(Fresh(config), run);
            && c.poisoned && c.parents == [None, Some(0)]
            && var spans := Project(c.session, false).operations;
            && |spans| == 2 && spans[1].parentId == spans[0].spanId && spans[0].end < spans[1].end
  {
    var both := TwoOpen(config, outer, inner);
    var lost := DropScope(both, 1, false, false);
    var ended := CompleteScope(lost, 0, None);
    assert Feasible(ended, []) && Final(ended, []) == ended && Lifo(ended, []);
    assert Outlives(ended, 1);
    CloseOutlives(ended, 0, 1);
    hide Feasible, Final, Lifo, NextTwoIds;
    RunStep(lost, EndScope(0, None), []);
    RunStep(both, LoseScope(1, false, false), [EndScope(0, None)] + []);
    var rest := [LoseScope(1, false, false), EndScope(0, None)];
    assert rest == [LoseScope(1, false, false)] + ([EndScope(0, None)] + []);
    OpeningRuns(config, outer, inner, rest);
    LostSpans(ended);
  }

  lemma LostSpans(c: Collector)
    requires && c.parents == [None, Some(0)]
             && Outlives(c, 1)
             && Outlives(c.(session := CloseDown(c.session, 0, false)), 1)
    requires c.session.operations[1].parentId == c.session.operations[0].spanId
    ensures var spans := Project(c.session, false).operations;
            |spans| == 2 && spans[1].parentId == spans[0].spanId && spans[0].end < spans[1].end
  {
    var s := c.session;
    assert CloseDown(s, 2, false) == s;
    assert CloseDown(s, 1, false) == CloseOne(s, 1, false);
    assert CloseDown(s, 0, false) == CloseOne(CloseDown(s, 1, false), 0, false);
  }
}
