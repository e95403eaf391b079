/**
  What every run of a capture session keeps: fresh identifiers and resolvable parents,
  the exact laws of the two counters, the agreement of event order with event time, and
  outcomes that never change once recorded.
 */
module SessionLaws {
  import opened Wrappers
  import opened Utf8Order
  import opened Values
  import opened CaptureModel
  import opened SessionSpec

  datatype Action =
    | DoBegin(spanId: SpanId, parentId: SpanId, component: Text, name: Text, inputs: seq<Entry>)
    | DoInputs(i: nat, inputs: seq<Entry>)
    | DoObserve(i: nat, name: Text, value: Value)
    | DoComplete(i: nat, outcome: Option<Outcome>)
    | DoSnapshot(untrusted: bool)

  /** The parent is the scenario or an operation of this session, as the callers of `Begin` guarantee. */
  ghost predicate KnownParent(s: Session, parentId: SpanId) {
    parentId == s.config.scenarioId || exists p <- s.operations :: p.spanId == parentId
  }

  ghost predicate Enabled(s: Session, a: Action) {
    match a
    case DoBegin(spanId, parentId, _, _, _) => IsNextId(s, spanId) && KnownParent(s, parentId)
    case DoInputs(i, _) => i < |s.operations|
    case DoObserve(i, _, _) => i < |s.operations|
    case DoComplete(i, _) => i < |s.operations| && Open(s.operations[i])
    case DoSnapshot(_) => true
  }

  ghost function Apply(s: Session, a: Action): Session
    requires Enabled(s, a)
  {
    match a
    case DoBegin(spanId, parentId, component, name, inputs) => Begin(s, spanId, parentId, component, name, inputs)
    case DoInputs(i, inputs) => RecordInputs(s, i, inputs)
    case DoObserve(i, name, value) => Observe(s, i, name, value)
    case DoComplete(i, outcome) => Complete(s, i, outcome)
    case DoSnapshot(_) => s
  }

  ghost predicate Runs(s: Session, actions: seq<Action>)
    decreases |actions|
  {
    actions == [] || (Enabled(s, actions[0]) && Runs(Apply(s, actions[0]), actions[1..]))
  }

  ghost function After(s: Session, actions: seq<Action>): Session
    requires Runs(s, actions)
    decreases |actions|
  {
    if actions == [] then s else After(Apply(s, actions[0]), actions[1..])
  }

  // ---------------------------------------------------------------- identifiers, parents, statuses

  ghost predicate WellFormed(s: Session) {
    && ValidConfig(s.config)
    && FreshIds(s)
    && SuppliedIds(s)
    && ResolvableParents(s)
    && StatusesMatch(s)
  }

  ghost predicate FreshIds(s: Session) {
    && (forall i | 0 <= i < |s.operations| ::
          s.operations[i].spanId != s.config.runId && s.operations[i].spanId != s.config.scenarioId)
    && (forall i, j | 0 <= i < j < |s.operations| :: s.operations[i].spanId != s.operations[j].spanId)
  }

  /** Supplied identifiers are handed out in start order. */
  ghost predicate SuppliedIds(s: Session) {
    forall i | 0 <= i < |s.operations| && i < |s.config.operationIds| ::
      s.operations[i].spanId == s.config.operationIds[i]
  }

  /** Every parent is the scenario or an operation that began earlier. */
  ghost predicate ResolvableParents(s: Session) {
    forall i | 0 <= i < |s.operations| :: ParentBefore(s, i)
  }

  ghost predicate ParentBefore(s: Session, i: nat)
    requires i < |s.operations|
  {
    s.operations[i].parentId == s.config.scenarioId
    || exists j :: 0 <= j < i && s.operations[j].spanId == s.operations[i].parentId
  }

  function OutcomeOf(p: Pending): Option<Outcome> {
    if p.completion.Some? then Some(p.completion.value.outcome) else None
  }

  ghost predicate StatusesMatch(s: Session) {
    forall i | 0 <= i < |s.operations| ::
      if Open(s.operations[i]) then s.operations[i].completion.None?
      else s.operations[i].status.value == RequiredStatus(OutcomeOf(s.operations[i]))
  }

  lemma NextIdIsFresh(s: Session, id: SpanId)
    requires WellFormed(s) && IsNextId(s, id)
    ensures !Reserved(s, id)
  {
    hide SpanText;
    var n := |s.operations|;
    if n < |s.config.operationIds| {
      forall p <- s.operations ensures p.spanId != id {
        var i :| 0 <= i < n && s.operations[i] == p;
        assert s.config.operationIds[i] != s.config.operationIds[n];
      }
    }
  }

  lemma BeginWellFormed(s: Session, id: SpanId, parentId: SpanId, component: Text, name: Text, inputs: seq<Entry>)
    requires WellFormed(s) && IsNextId(s, id) && KnownParent(s, parentId)
    ensures WellFormed(Begin(s, id, parentId, component, name, inputs))
  {
    NextIdIsFresh(s, id);
    hide IsNextId;
    var r := Begin(s, id, parentId, component, name, inputs);
    var n := |s.operations|;
    assert forall i | 0 <= i < n :: r.operations[i] == s.operations[i];
    forall i | 0 <= i <= n ensures ParentBefore(r, i) {
      if i < n {
        assert ParentBefore(s, i);
      } else if parentId != s.config.scenarioId {
        var p :| p in s.operations && p.spanId == parentId;
        var j :| 0 <= j < n && s.operations[j] == p;
        assert r.operations[j].spanId == parentId;
      }
    }
  }

  /** A change to one operation that keeps its identity and leaves a matching status keeps the session well-formed. */
  lemma UpdateWellFormed(s: Session, r: Session, i: nat, p: Pending)
    requires WellFormed(s) && i < |s.operations| && r.config == s.config && r.operations == s.operations[i := p]
    requires p.spanId == s.operations[i].spanId && p.parentId == s.operations[i].parentId
    requires if Open(p) then p.completion.None? else p.status.value == RequiredStatus(OutcomeOf(p))
    ensures WellFormed(r)
  {
    forall k | 0 <= k < |r.operations| ensures ParentBefore(r, k) {
      assert ParentBefore(s, k);
      if j :| 0 <= j < k && s.operations[j].spanId == s.operations[k].parentId {
        assert r.operations[j].spanId == r.operations[k].parentId;
      }
    }
  }

  lemma ApplyWellFormed(s: Session, a: Action)
    requires WellFormed(s) && Enabled(s, a)
    ensures WellFormed(Apply(s, a))
  {
    match a
    case DoBegin(spanId, parentId, component, name, inputs) =>
      BeginWellFormed(s, spanId, parentId, component, name, inputs);
    case DoInputs(i, _) => UpdateWellFormed(s, Apply(s, a), i, Apply(s, a).operations[i]);
    case DoObserve(i, _, _) => UpdateWellFormed(s, Apply(s, a), i, Apply(s, a).operations[i]);
    case DoComplete(i, _) => UpdateWellFormed(s, Apply(s, a), i, Apply(s, a).operations[i]);
    case DoSnapshot(_) =>
  }

  lemma {:induction false} RunsWellFormed(s: Session, actions: seq<Action>)
    requires WellFormed(s) && Runs(s, actions)
    ensures WellFormed(After(s, actions))
    decreases |actions|
  {
    if actions != [] {
      ApplyWellFormed(s, actions[0]);
      RunsWellFormed(Apply(s, actions[0]), actions[1..]);
    }
  }

  lemma {:induction false} CloseWellFormed(s: Session, k: nat, untrusted: bool)
    requires WellFormed(s) && k <= |s.operations|
    ensures WellFormed(CloseDown(s, k, untrusted))
    decreases |s.operations| - k
  {
    if k < |s.operations| {
      CloseWellFormed(s, k + 1, untrusted);
      var t := CloseDown(s, k + 1, untrusted);
      var r := CloseOne(t, k, untrusted);
      UpdateWellFormed(t, r, k, r.operations[k]);
    }
  }

  // ---------------------------------------------------------------- the counters

  ghost function Total(ps: seq<Pending>, f: Pending -> nat): nat {
    if ps == [] then 0 else Total(ps[..|ps| - 1], f) + f(ps[|ps| - 1])
  }

  lemma {:induction false} TotalUpdate(ps: seq<Pending>, f: Pending -> nat, i: nat, p: Pending)
    requires i < |ps|
    ensures Total(ps[i := p], f) == Total(ps, f) - f(ps[i]) + f(p)
  {
    var n := |ps| - 1;
    if i < n {
      assert ps[i := p][..n] == ps[..n][i := p];
      TotalUpdate(ps[..n], f, i, p);
    } else {
      assert ps[i := p][..n] == ps[..n];
    }
  }

  lemma TotalAppend(ps: seq<Pending>, f: Pending -> nat, p: Pending)
    ensures Total(ps + [p], f) == Total(ps, f) + f(p)
  {
    assert (ps + [p])[..|ps|] == ps;
  }

  function Observations(p: Pending): nat { |p.observations| }
  function Terminals(p: Pending): nat { if p.completion.Some? then 1 else 0 }
  function Ends(p: Pending): nat { if Open(p) then 0 else 1 }

  /** begins + observations + terminal events. */
  ghost function Events(s: Session): nat {
    |s.operations| + Total(s.operations, Observations) + Total(s.operations, Terminals)
  }

  /** The exact value of both counters. */
  ghost predicate CountersExact(s: Session) {
    && s.nextOrder == Events(s)
    && s.nextTime == s.config.startTime + s.config.step * (2 + Events(s) + Total(s.operations, Ends))
  }

  lemma CountersUpdate(s: Session, r: Session, i: nat, p: Pending, ticks: nat)
    requires CountersExact(s) && i < |s.operations| && r.config == s.config && r.operations == s.operations[i := p]
    requires var q := s.operations[i];
             r.nextOrder == s.nextOrder + Observations(p) - Observations(q) + Terminals(p) - Terminals(q)
             && ticks == Observations(p) - Observations(q) + Terminals(p) - Terminals(q) + Ends(p) - Ends(q)
    requires r.nextTime == s.nextTime + s.config.step * ticks
    ensures CountersExact(r)
  {
    TotalUpdate(s.operations, Observations, i, p);
    TotalUpdate(s.operations, Terminals, i, p);
    TotalUpdate(s.operations, Ends, i, p);
    var n := 2 + Events(s) + Total(s.operations, Ends);
    assert s.config.step * (n + ticks) == s.config.step * n + s.config.step * ticks;
  }

  lemma BeginCounters(s: Session, id: SpanId, parentId: SpanId, component: Text, name: Text, inputs: seq<Entry>)
    requires CountersExact(s)
    ensures CountersExact(Begin(s, id, parentId, component, name, inputs))
  {
    var p := Begin(s, id, parentId, component, name, inputs).operations[|s.operations|];
    TotalAppend(s.operations, Observations, p);
    TotalAppend(s.operations, Terminals, p);
    TotalAppend(s.operations, Ends, p);
    var n := 2 + Events(s) + Total(s.operations, Ends);
    assert s.config.step * (n + 1) == s.config.step * n + s.config.step;
  }

  lemma CompleteCounters(s: Session, i: nat, outcome: Option<Outcome>)
    requires CountersExact(s) && i < |s.operations| && Open(s.operations[i]) && s.operations[i].completion.None?
    ensures CountersExact(Complete(s, i, outcome))
  {
    var r := Complete(s, i, outcome);
    CountersUpdate(s, r, i, r.operations[i], if outcome.None? then 1 else 2);
  }

  lemma ApplyCounters(s: Session, a: Action)
    requires WellFormed(s) && CountersExact(s) && Enabled(s, a)
    ensures CountersExact(Apply(s, a))
  {
    match a
    case DoBegin(spanId, parentId, component, name, inputs) =>
      BeginCounters(s, spanId, parentId, component, name, inputs);
    case DoInputs(i, _) => CountersUpdate(s, Apply(s, a), i, Apply(s, a).operations[i], 0);
    case DoObserve(i, _, _) => CountersUpdate(s, Apply(s, a), i, Apply(s, a).operations[i], 1);
    case DoComplete(i, outcome) => CompleteCounters(s, i, outcome);
    case DoSnapshot(_) =>
  }

  lemma StartIsGood(c: Config)
    requires ValidConfig(c)
    ensures WellFormed(Start(c)) && CountersExact(Start(c)) && EventsOrdered(Start(c))
  {
    assert Total([], Observations) == 0 && Total([], Terminals) == 0 && Total([], Ends) == 0;
  }

  // ---------------------------------------------------------------- events

  datatype Event = StartOf(i: nat) | ObservationOf(i: nat, j: nat) | TerminalOf(i: nat) | EndOf(i: nat)

  ghost predicate Exists(s: Session, e: Event) {
    e.i < |s.operations| &&
    match e
    case StartOf(i) => true
    case ObservationOf(i, j) => j < |s.operations[i].observations|
    case TerminalOf(i) => s.operations[i].completion.Some?
    case EndOf(i) => !Open(s.operations[i])
  }

  ghost function TimeOf(s: Session, e: Event): int
    requires Exists(s, e)
  {
    match e
    case StartOf(i) => s.operations[i].start
    case ObservationOf(i, j) => s.operations[i].observations[j].time
    case TerminalOf(i) => s.operations[i].completion.value.time
    case EndOf(i) => s.operations[i].end
  }

  /** The end of a span has a time but no order. */
  ghost function OrderOf(s: Session, e: Event): nat
    requires Exists(s, e) && !e.EndOf?
  {
    match e
    case StartOf(i) => s.operations[i].order
    case ObservationOf(i, j) => s.operations[i].observations[j].order
    case TerminalOf(i) => s.operations[i].completion.value.order
  }

  /** All event times are distinct, and event order agrees with event time. */
  ghost predicate EventsOrdered(s: Session) {
    && (forall e | Exists(s, e) :: TimeOf(s, e) < s.nextTime && (!e.EndOf? ==> OrderOf(s, e) < s.nextOrder))
    && (forall e, f | Exists(s, e) && Exists(s, f) && e != f :: TimeOf(s, e) != TimeOf(s, f))
    && (forall e, f | Exists(s, e) && Exists(s, f) && !e.EndOf? && !f.EndOf? ::
          OrderOf(s, e) < OrderOf(s, f) <==> TimeOf(s, e) < TimeOf(s, f))
  }

  /** One step's effect on the events: at most one new ordered event, then at most one end. */
  ghost predicate Grows(s: Session, r: Session, added: Option<Event>, ended: Option<Event>) {
    && s.config.step > 0 && r.config == s.config
    && (forall e :: Exists(r, e) <==> Exists(s, e) || added == Some(e) || ended == Some(e))
    && (forall e | Exists(s, e) ::
          Exists(r, e) && TimeOf(r, e) == TimeOf(s, e) && (!e.EndOf? ==> OrderOf(r, e) == OrderOf(s, e)))
    && (added.Some? ==> !Exists(s, added.value) && !added.value.EndOf?)
    && (added.Some? ==> TimeOf(r, added.value) == s.nextTime && OrderOf(r, added.value) == s.nextOrder)
    && var mid := s.nextTime + (if added.Some? then s.config.step else 0);
    && (ended.Some? ==> !Exists(s, ended.value) && ended.value.EndOf? && TimeOf(r, ended.value) == mid)
    && r.nextTime == mid + (if ended.Some? then s.config.step else 0)
    && r.nextOrder == s.nextOrder + (if added.Some? then 1 else 0)
  }

  lemma GrowingKeepsOrder(s: Session, r: Session, added: Option<Event>, ended: Option<Event>)
    requires EventsOrdered(s) && Grows(s, r, added, ended)
    ensures EventsOrdered(r)
  {
    hide Exists, TimeOf, OrderOf;
    forall e, f | Exists(r, e) && Exists(r, f) && e != f ensures TimeOf(r, e) != TimeOf(r, f) {
      if Exists(s, e) && Exists(s, f) {
        assert TimeOf(s, e) != TimeOf(s, f);
      }
    }
    forall e, f | Exists(r, e) && Exists(r, f) && !e.EndOf? && !f.EndOf?
      ensures OrderOf(r, e) < OrderOf(r, f) <==> TimeOf(r, e) < TimeOf(r, f)
    {
      if Exists(s, e) && Exists(s, f) {
        assert OrderOf(s, e) < OrderOf(s, f) <==> TimeOf(s, e) < TimeOf(s, f);
      }
    }
  }

  lemma ApplyEvents(s: Session, a: Action)
    requires WellFormed(s) && EventsOrdered(s) && Enabled(s, a)
    ensures EventsOrdered(Apply(s, a))
  {
    hide EventsOrdered, IsNextId, KnownParent, FreshIds, ResolvableParents, SuppliedIds, Grows;
    match a
    case DoBegin(id, parentId, component, name, inputs) => BeginEvents(s, id, parentId, component, name, inputs);
    case DoInputs(i, inputs) => InputsEvents(s, i, inputs);
    case DoObserve(i, name, value) => ObserveEvents(s, i, name, value);
    case DoComplete(i, outcome) => CompleteEvents(s, i, outcome);
    case DoSnapshot(_) =>
  }

  lemma BeginEvents(s: Session, id: SpanId, parentId: SpanId, component: Text, name: Text, inputs: seq<Entry>)
    requires EventsOrdered(s) && s.config.step > 0
    ensures EventsOrdered(Begin(s, id, parentId, component, name, inputs))
  {
    hide EventsOrdered;
    var r := Begin(s, id, parentId, component, name, inputs);
    GrowingKeepsOrder(s, r, Some(StartOf(|s.operations|)), None);
  }

  lemma InputsEvents(s: Session, i: nat, inputs: seq<Entry>)
    requires EventsOrdered(s) && s.config.step > 0 && i < |s.operations|
    ensures EventsOrdered(RecordInputs(s, i, inputs))
  {
    hide EventsOrdered;
    GrowingKeepsOrder(s, RecordInputs(s, i, inputs), None, None);
  }

  lemma ObserveEvents(s: Session, i: nat, name: Text, value: Value)
    requires EventsOrdered(s) && s.config.step > 0 && i < |s.operations|
    ensures EventsOrdered(Observe(s, i, name, value))
  {
    hide EventsOrdered;
    var r := Observe(s, i, name, value);
    GrowingKeepsOrder(s, r, Some(ObservationOf(i, |s.operations[i].observations|)), None);
  }

  lemma CompleteEvents(s: Session, i: nat, outcome: Option<Outcome>)
    requires EventsOrdered(s) && s.config.step > 0
    requires i < |s.operations| && Open(s.operations[i]) && s.operations[i].completion.None?
    ensures EventsOrdered(Complete(s, i, outcome))
  {
    hide EventsOrdered;
    var r := Complete(s, i, outcome);
    GrowingKeepsOrder(s, r, if outcome.Some? then Some(TerminalOf(i)) else None, Some(EndOf(i)));
  }

  /** Every run from a valid configuration keeps all of the above. */
  lemma {:induction false} RunLaws(s: Session, actions: seq<Action>)
    requires WellFormed(s) && CountersExact(s) && EventsOrdered(s) && Runs(s, actions)
    ensures var r := After(s, actions); WellFormed(r) && CountersExact(r) && EventsOrdered(r)
    decreases |actions|
  {
    if actions != [] {
      ApplyWellFormed(s, actions[0]);
      ApplyCounters(s, actions[0]);
      ApplyEvents(s, actions[0]);
      RunLaws(Apply(s, actions[0]), actions[1..]);
    }
  }

  /** Closing what is outstanding keeps the laws too, so every projection obeys them. */
  lemma {:induction false} CloseLaws(s: Session, k: nat)
    requires WellFormed(s) && CountersExact(s) && EventsOrdered(s) && k <= |s.operations|
    ensures var r := CloseDown(s, k, false); WellFormed(r) && CountersExact(r) && EventsOrdered(r)
    decreases |s.operations| - k
  {
    CloseWellFormed(s, k, false);
    if k < |s.operations| {
      CloseLaws(s, k + 1);
      var t := CloseDown(s, k + 1, false);
      if Open(t.operations[k]) {
        CompleteCounters(t, k, Some(Incomplete(t.operations[k].name)));
        CompleteEvents(t, k, Some(Incomplete(t.operations[k].name)));
      }
    }
  }

  // ---------------------------------------------------------------- moving forward

  /** `later` continues `earlier`: the same operations, some more of them, and every recorded outcome unchanged. */
  ghost predicate Extends(later: Session, earlier: Session) {
    && later.config == earlier.config
    && |earlier.operations| <= |later.operations|
    && earlier.nextTime <= later.nextTime && earlier.nextOrder <= later.nextOrder
    && forall i | 0 <= i < |earlier.operations| :: SameOperation(later.operations[i], earlier.operations[i])
  }

  ghost predicate SameOperation(q: Pending, p: Pending) {
    && q.order == p.order && q.spanId == p.spanId && q.parentId == p.parentId
    && q.component == p.component && q.name == p.name && q.start == p.start
    && p.observations <= q.observations
    && (!Open(p) ==> q.completion == p.completion && q.end == p.end && q.status == p.status)
  }

  lemma ApplyExtends(s: Session, a: Action)
    requires ValidConfig(s.config) && Enabled(s, a)
    ensures Extends(Apply(s, a), s)
  {
  }

  lemma ExtendsTransitive(a: Session, b: Session, c: Session)
    requires Extends(c, b) && Extends(b, a)
    ensures Extends(c, a)
  {
    forall i | 0 <= i < |a.operations| ensures SameOperation(c.operations[i], a.operations[i]) {
      assert SameOperation(b.operations[i], a.operations[i]) && SameOperation(c.operations[i], b.operations[i]);
    }
  }
}
