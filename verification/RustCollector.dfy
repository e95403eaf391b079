/**
  The Rust collector: the shared protocol state plus the pointer to the current operation.

  In a nested state the open operations are exactly the ancestors of the current one and every closed span lies
  strictly inside its parent's; `NestingStep` says exactly which steps keep a nested state nested.
 */
module RustCollector {
  import opened Wrappers
  import opened Utf8Order
  import opened Values
  import opened CaptureModel
  import opened SessionSpec
  import opened SessionLaws

  /** `poisoned` is a recorded terminal error; `parents` are the `parent_operation` indices. */
  datatype Collector = Collector(session: Session, parents: seq<Option<nat>>, current: Option<nat>, poisoned: bool)

  ghost predicate Indexed(c: Collector) {
    && |c.parents| == |c.session.operations|
    && (forall i | 0 <= i < |c.parents| && c.parents[i].Some? :: c.parents[i].value < i)
    && (c.current.Some? ==> c.current.value < |c.parents|)
  }

  function Fresh(config: Config): Collector { Collector(Start(config), [], None, false) }

  function ParentId(c: Collector): SpanId
    requires c.current.Some? ==> c.current.value < |c.session.operations|
  {
    if c.current.None? then c.session.config.scenarioId else c.session.operations[c.current.value].spanId
  }

  function BeginActive(c: Collector, id: SpanId, component: Text, name: Text, inputs: seq<Entry>): Collector
    requires c.current.Some? ==> c.current.value < |c.session.operations|
  {
    c.(session := Begin(c.session, id, ParentId(c), component, name, inputs),
       parents := c.parents + [c.current], current := Some(|c.session.operations|))
  }

  function Release(c: Collector, i: nat): Collector
    requires i < |c.parents|
  {
    if c.current == Some(i) then c.(current := c.parents[i]) else c
  }

  function CompleteScope(c: Collector, i: nat, outcome: Option<Outcome>): Collector
    requires i < |c.parents| && i < |c.session.operations|
  {
    Release(c.(session := Complete(c.session, i, outcome)), i)
  }

  /** A scope dropped without a completion: a panic is a fault, an async body is abandoned, anything else poisons. */
  function DropScope(c: Collector, i: nat, panicking: bool, abandonable: bool): Collector
    requires i < |c.parents| && i < |c.session.operations|
  {
    if !Open(c.session.operations[i]) then c
    else if panicking then CompleteScope(c, i, Some(Fault(UNEXPECTED, UNWOUND)))
    else if abandonable then CompleteScope(c, i, Some(Abandoned))
    else Release(c.(poisoned := true), i)
  }

  /** The names reserved for what an operation returns or fails with. */
  const RESULT := Literal("$result")
  const FAULT := Literal("$fault")

  /** Observations go to the current operation; the two reserved names are ignored. */
  function RecordObservation(c: Collector, name: Text, value: Value): Collector
    requires c.current.Some? ==> c.current.value < |c.session.operations|
  {
    if c.current.None? || name == RESULT || name == FAULT then c
    else c.(session := Observe(c.session, c.current.value, name, value))
  }

  // ---------------------------------------------------------------- runs

  datatype ScopeAction =
    | OpenScope(id: SpanId, component: Text, name: Text, inputs: seq<Entry>)
    | ObserveNow(name: Text, value: Value)
    | EndScope(i: nat, outcome: Option<Outcome>)
    | LoseScope(i: nat, panicking: bool, abandonable: bool)

  /** A scope is completed at most once; nothing begins once the session is poisoned. */
  ghost predicate CanDo(c: Collector, a: ScopeAction) {
    match a
    case OpenScope(id, _, _, _) => !c.poisoned && IsNextId(c.session, id)
    case ObserveNow(_, _) => true
    case EndScope(i, _) => i < |c.session.operations| && Open(c.session.operations[i])
    case LoseScope(i, _, _) => i < |c.session.operations|
  }

  ghost function Perform(c: Collector, a: ScopeAction): Collector
    requires Indexed(c) && CanDo(c, a)
  {
    match a
    case OpenScope(id, component, name, inputs) => BeginActive(c, id, component, name, inputs)
    case ObserveNow(name, value) => RecordObservation(c, name, value)
    case EndScope(i, outcome) => CompleteScope(c, i, outcome)
    case LoseScope(i, panicking, abandonable) => DropScope(c, i, panicking, abandonable)
  }

  lemma PerformIndexed(c: Collector, a: ScopeAction)
    requires Indexed(c) && CanDo(c, a)
    ensures Indexed(Perform(c, a)) && (c.poisoned ==> Perform(c, a).poisoned)
  {
  }

  ghost predicate Feasible(c: Collector, actions: seq<ScopeAction>)
    requires Indexed(c)
    decreases |actions|
  {
    actions == [] ||
    (CanDo(c, actions[0]) && (PerformIndexed(c, actions[0]); Feasible(Perform(c, actions[0]), actions[1..])))
  }

  ghost function Final(c: Collector, actions: seq<ScopeAction>): Collector
    requires Indexed(c) && Feasible(c, actions)
    decreases |actions|
  {
    if actions == [] then c else
      PerformIndexed(c, actions[0]);
      Final(Perform(c, actions[0]), actions[1..])
  }

  /** The open operation an action is about to take from its scope, by an end or by a drop. */
  ghost predicate Takes(c: Collector, a: ScopeAction) {
    (a.EndScope? || a.LoseScope?) && a.i < |c.session.operations| && Open(c.session.operations[a.i])
  }

  /** Every end or drop of an open operation is one of the current operation. */
  ghost predicate Lifo(c: Collector, actions: seq<ScopeAction>)
    requires Indexed(c) && Feasible(c, actions)
    decreases |actions|
  {
    actions == [] ||
    (PerformIndexed(c, actions[0]);
     && (Takes(c, actions[0]) ==> c.current == Some(actions[0].i))
     && Lifo(Perform(c, actions[0]), actions[1..]))
  }

  /** Each scope action is a step of the shared session, so every run, LIFO or not, obeys its laws. */
  lemma {:induction false} CollectorLaws(c: Collector, actions: seq<ScopeAction>)
    requires Indexed(c) && Feasible(c, actions)
    requires WellFormed(c.session) && CountersExact(c.session) && EventsOrdered(c.session)
    ensures var s := Final(c, actions).session; WellFormed(s) && CountersExact(s) && EventsOrdered(s)
    decreases |actions|
  {
    if actions != [] {
      PerformIndexed(c, actions[0]);
      PerformLaws(c, actions[0]);
      CollectorLaws(Perform(c, actions[0]), actions[1..]);
    }
  }

  lemma PerformLaws(c: Collector, a: ScopeAction)
    requires Indexed(c) && CanDo(c, a)
    requires WellFormed(c.session) && CountersExact(c.session) && EventsOrdered(c.session)
    ensures var s := Perform(c, a).session; WellFormed(s) && CountersExact(s) && EventsOrdered(s)
  {
    var step := SessionAction(c, a);
    PerformRecords(c, a);
    ApplyWellFormed(c.session, step);
    ApplyCounters(c.session, step);
    ApplyEvents(c.session, step);
  }

  lemma PerformRecords(c: Collector, a: ScopeAction)
    requires Indexed(c) && CanDo(c, a)
    ensures Enabled(c.session, SessionAction(c, a))
    ensures Perform(c, a).session == Apply(c.session, SessionAction(c, a))
    ensures Perform(c, a).poisoned <==>
              c.poisoned || (a.LoseScope? && Takes(c, a) && LossOutcome(a.panicking, a.abandonable).None?)
  {
    hide IsNextId;
    if c.current.Some? {
      assert c.session.operations[c.current.value] in c.session.operations;
    }
  }

  /** What a scope action records: the action of the session it stands for, an idle one if it records nothing. */
  ghost function SessionAction(c: Collector, a: ScopeAction): Action
    requires Indexed(c) && CanDo(c, a)
  {
    match a
    case OpenScope(id, component, name, inputs) =>
      var parent := if c.current.Some? then c.session.operations[c.current.value].spanId
                    else c.session.config.scenarioId;
      DoBegin(id, parent, component, name, inputs)
    case ObserveNow(name, value) =>
      if c.current.Some? && name !in {Literal("$result"), Literal("$fault")}
      then DoObserve(c.current.value, name, value) else DoSnapshot(false)
    case EndScope(i, outcome) => DoComplete(i, outcome)
    case LoseScope(i, panicking, abandonable) =>
      var lost := LossOutcome(panicking, abandonable);
      if Open(c.session.operations[i]) && lost.Some? then DoComplete(i, lost) else DoSnapshot(false)
  }

  /** The outcome of a scope that was dropped: unwinding outranks abandonment, and neither leaves nothing. */
  ghost function LossOutcome(panicking: bool, abandonable: bool): Option<Outcome> {
    match (panicking, abandonable)
    case (true, true) => Some(Fault(UNEXPECTED, UNWOUND))
    case (true, false) => Some(Fault(UNEXPECTED, UNWOUND))
    case (false, true) => Some(Abandoned)
    case (false, false) => None
  }

  // ---------------------------------------------------------------- nesting

  /** i is the operation `from` or one of its ancestors. */
  ghost predicate OnChain(parents: seq<Option<nat>>, from: Option<nat>, i: nat)
    decreases if from.Some? then from.value + 1 else 0
  {
    from.Some? && from.value < |parents|
    && (from.value == i ||
        ((parents[from.value].Some? ==> parents[from.value].value < from.value) &&
         OnChain(parents, parents[from.value], i)))
  }

  lemma {:induction false} ChainDescends(parents: seq<Option<nat>>, from: Option<nat>, i: nat)
    requires OnChain(parents, from, i)
    ensures i <= from.value
    decreases from.value
  {
    if from.value != i {
      ChainDescends(parents, parents[from.value], i);
    }
  }

  lemma {:induction false} ChainIgnoresNewer(parents: seq<Option<nat>>, more: Option<nat>, from: Option<nat>, i: nat)
    requires from.Some? ==> from.value < |parents|
    requires forall k | 0 <= k < |parents| && parents[k].Some? :: parents[k].value < k
    ensures OnChain(parents + [more], from, i) <==> OnChain(parents, from, i)
    decreases if from.Some? then from.value + 1 else 0
  {
    if from.Some? {
      ChainIgnoresNewer(parents, more, parents[from.value], i);
    }
  }

  /** The span's own events: start, observations, terminal event, end, in that order and in the past. */
  ghost predicate OwnEventsInOrder(p: Pending, now: int) {
    && p.start < now
    && (forall o <- p.observations :: p.start < o.time < now)
    && (p.completion.Some? ==> !Open(p) && p.start < p.completion.value.time < p.end)
    && (p.completion.Some? ==> forall o <- p.observations :: o.time < p.completion.value.time)
    && (!Open(p) ==> p.start < p.end < now && forall o <- p.observations :: o.time < p.end)
  }

  /** A child starts after its parent, and a closed parent encloses a closed child. */
  ghost predicate InsideParent(c: Collector, i: nat)
    requires Indexed(c) && i < |c.parents|
  {
    c.parents[i].Some? ==>
      var child, parent := c.session.operations[i], c.session.operations[c.parents[i].value];
      && child.parentId == parent.spanId && parent.start < child.start
      && (!Open(parent) ==> !Open(child) && child.end < parent.end)
  }

  ghost predicate Nested(c: Collector) {
    && Indexed(c) && c.session.config.step > 0
    && (forall i: nat | i < |c.session.operations| ::
          Open(c.session.operations[i]) <==> OnChain(c.parents, c.current, i))
    && (forall i | 0 <= i < |c.session.operations| :: OwnEventsInOrder(c.session.operations[i], c.session.nextTime))
    && (forall i | 0 <= i < |c.session.operations| :: InsideParent(c, i))
  }

  lemma BeginNested(c: Collector, id: SpanId, component: Text, name: Text, inputs: seq<Entry>)
    requires Nested(c)
    ensures Nested(BeginActive(c, id, component, name, inputs))
  {
    var r := BeginActive(c, id, component, name, inputs);
    var n := |c.session.operations|;
    assert forall i | 0 <= i < n :: r.session.operations[i] == c.session.operations[i];
    forall i: nat | i <= n ensures Open(r.session.operations[i]) <==> OnChain(r.parents, r.current, i) {
      ChainIgnoresNewer(c.parents, c.current, c.current, i);
      if OnChain(c.parents, c.current, n) {
        ChainDescends(c.parents, c.current, n);
      }
    }
    forall i | 0 <= i <= n ensures InsideParent(r, i) {
      if i < n {
        assert InsideParent(c, i);
      } else if c.current.Some? {
        assert OnChain(c.parents, c.current, c.current.value);
        assert OwnEventsInOrder(c.session.operations[c.current.value], c.session.nextTime);
      }
    }
  }

  lemma CompleteNested(c: Collector, outcome: Option<Outcome>)
    requires Nested(c) && c.current.Some?
    ensures Nested(CompleteScope(c, c.current.value, outcome))
  {
    var at := c.current.value;
    var r := CompleteScope(c, at, outcome);
    var n := |c.session.operations|;
    assert OnChain(c.parents, c.current, at);
    assert OwnEventsInOrder(c.session.operations[at], c.session.nextTime);
    forall i: nat | i < n ensures Open(r.session.operations[i]) <==> OnChain(r.parents, r.current, i) {
      if OnChain(c.parents, c.parents[at], i) {
        ChainDescends(c.parents, c.parents[at], i);
      }
    }
    forall i: nat | i < n ensures InsideParent(r, i) {
      assert InsideParent(c, i);
      if c.parents[i] == Some(at) {
        if OnChain(c.parents, c.current, i) {
          ChainDescends(c.parents, c.current, i);
        }
        assert OwnEventsInOrder(c.session.operations[i], c.session.nextTime);
      }
    }
  }

  lemma EndNesting(c: Collector, i: nat, outcome: Option<Outcome>)
    requires Nested(c) && i < |c.session.operations| && Open(c.session.operations[i])
    ensures Nested(CompleteScope(c, i, outcome)) <==> c.current == Some(i)
  {
    if c.current == Some(i) {
      CompleteNested(c, outcome);
    } else {
      var r := CompleteScope(c, i, outcome);
      assert OnChain(c.parents, c.current, i);
      assert r.parents == c.parents && r.current == c.current && !Open(r.session.operations[i]);
    }
  }

  /** A drop that records nothing: the operation stays open, so the pointer must not move off it. */
  lemma LossNesting(c: Collector, i: nat)
    requires Nested(c) && i < |c.session.operations| && Open(c.session.operations[i])
    ensures Nested(DropScope(c, i, false, false)) <==> c.current != Some(i)
  {
    var r := DropScope(c, i, false, false);
    if c.current == Some(i) {
      if OnChain(c.parents, c.parents[i], i) {
        ChainDescends(c.parents, c.parents[i], i);
      }
      assert r.current == c.parents[i] && Open(r.session.operations[i]);
    } else {
      forall k | 0 <= k < |c.session.operations|
        ensures InsideParent(r, k)
      {
        assert InsideParent(c, k);
      }
    }
  }

  /**
    When a step keeps the nesting: an end, and a drop that records an end, must be of the current operation;
    a drop that records nothing must not be.
   */
  ghost predicate StepNests(c: Collector, a: ScopeAction) {
    match a
    case EndScope(i, _) => c.current == Some(i)
    case LoseScope(i, panicking, abandonable) =>
      Takes(c, a) ==> (panicking || abandonable <==> c.current == Some(i))
    case _ => true
  }

  /** The exact step law. */
  lemma NestingStep(c: Collector, a: ScopeAction)
    requires Nested(c) && CanDo(c, a)
    ensures Nested(Perform(c, a)) <==> StepNests(c, a)
  {
    match a
    case OpenScope(id, component, name, inputs) => BeginNested(c, id, component, name, inputs);
    case ObserveNow(name, value) => ObserveNested(c, name, value);
    case EndScope(i, outcome) => EndNesting(c, i, outcome);
    case LoseScope(i, panicking, abandonable) =>
      if Takes(c, a) {
        if panicking {
          EndNesting(c, i, Some(Fault(UNEXPECTED, UNWOUND)));
        } else if abandonable {
          EndNesting(c, i, Some(Abandoned));
        } else {
          LossNesting(c, i);
        }
      }
  }

  lemma ObserveNested(c: Collector, name: Text, value: Value)
    requires Nested(c)
    ensures Nested(RecordObservation(c, name, value))
  {
    var r := RecordObservation(c, name, value);
    if r != c {
      var at := c.current.value;
      assert OnChain(c.parents, c.current, at);
      assert OwnEventsInOrder(c.session.operations[at], c.session.nextTime);
      forall i | 0 <= i < |c.session.operations| ensures InsideParent(r, i) {
        assert InsideParent(c, i);
      }
    }
  }

  lemma {:induction false} PoisonStays(c: Collector, actions: seq<ScopeAction>)
    requires Indexed(c) && Feasible(c, actions)
    ensures c.poisoned ==> Final(c, actions).poisoned
    decreases |actions|
  {
    if actions != [] {
      PerformIndexed(c, actions[0]);
      PoisonStays(Perform(c, actions[0]), actions[1..]);
    }
  }

  // ---------------------------------------------------------------- closing what is open

  /** Ends the current scope as incomplete until none is left. */
  ghost function CloseInnermostFirst(c: Collector): Collector
    requires Indexed(c)
    decreases if c.current.Some? then c.current.value + 1 else 0
  {
    if c.current.None? then c
    else
      var incomplete := Incomplete(c.session.operations[c.current.value].name);
      CloseInnermostFirst(CompleteScope(c, c.current.value, Some(incomplete)))
  }

  lemma {:induction false} CloseResumes(s: Session, t: Session, j: nat, k: nat)
    requires j <= k <= |s.operations| && |s.operations| == |t.operations|
    requires CloseDown(s, k, false) == CloseDown(t, k, false)
    ensures CloseDown(s, j, false) == CloseDown(t, j, false)
    decreases k - j
  {
    if j < k {
      CloseResumes(s, t, j + 1, k);
    }
  }

  /** Reverse-order closing of the outstanding operations is LIFO closing, and so keeps the nesting. */
  lemma {:induction false} ClosingKeepsNesting(c: Collector)
    requires Nested(c)
    ensures CloseInnermostFirst(c).session == CloseOutstanding(c.session)
    ensures Nested(CloseInnermostFirst(c)) && AllTerminated(CloseInnermostFirst(c).session)
    decreases if c.current.Some? then c.current.value + 1 else 0
  {
    var s := c.session;
    var n := |s.operations|;
    if c.current.None? {
      CloseSkips(s, 0, n);
    } else {
      var at := c.current.value;
      var next := CompleteScope(c, at, Some(Incomplete(s.operations[at].name)));
      CompleteNested(c, Some(Incomplete(s.operations[at].name)));
      ClosingKeepsNesting(next);
      assert OnChain(c.parents, c.current, at);
      forall i: nat | at < i < n ensures !Open(s.operations[i]) {
        if OnChain(c.parents, c.current, i) {
          ChainDescends(c.parents, c.current, i);
        }
      }
      CloseSkips(s, at + 1, n);
      assert CloseDown(s, at, false) == next.session;
      CloseSkips(next.session, at, n);
      CloseResumes(s, next.session, 0, at);
    }
  }
}
