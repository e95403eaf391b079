/**
  The structural rules of the trace validator, and the proof that every capture a session
  can project satisfies them.
 */
module Validator {
  import opened Wrappers
  import opened CaptureModel
  import opened SessionSpec
  import opened SessionLaws

  datatype Kind = RunSpan | ScenarioSpan | OperationKind | ParallelSpan

  datatype EventName = Observed | ResultEvent | EmptyEvent | ErrorEvent | FaultEvent | AbandonedEvent

  datatype TraceSpan = TraceSpan(kind: Kind, spanId: SpanId, parentId: Option<SpanId>, status: Status,
                                 events: seq<EventName>)

  predicate NonResultTerminal(e: EventName) { e.EmptyEvent? || e.ErrorEvent? || e.FaultEvent? || e.AbandonedEvent? }

  function CountResults(events: seq<EventName>): nat {
    if events == [] then 0
    else CountResults(events[..|events| - 1]) + if events[|events| - 1].ResultEvent? then 1 else 0
  }

  function CountTerminals(events: seq<EventName>): nat {
    if events == [] then 0
    else CountTerminals(events[..|events| - 1]) + if NonResultTerminal(events[|events| - 1]) then 1 else 0
  }

  // ---------------------------------------------------------------- the rules

  ghost predicate UniqueIds(spans: seq<TraceSpan>) {
    forall i, j | 0 <= i < j < |spans| :: spans[i].spanId != spans[j].spanId
  }

  ghost predicate ParentIs(spans: seq<TraceSpan>, span: TraceSpan, kinds: set<Kind>) {
    span.parentId.Some? && exists p <- spans :: p.spanId == span.parentId.value && p.kind in kinds
  }

  ghost predicate ParentRule(spans: seq<TraceSpan>, span: TraceSpan) {
    match span.kind
    case RunSpan => span.parentId.None?
    case ScenarioSpan => ParentIs(spans, span, {RunSpan})
    case OperationKind => ParentIs(spans, span, {ScenarioSpan, OperationKind, ParallelSpan})
    case ParallelSpan => ParentIs(spans, span, {ScenarioSpan, OperationKind})
  }

  /** At most one terminal event, and the status it pins; no terminal event means OK. */
  ghost predicate EventRule(span: TraceSpan) {
    var results, others := CountResults(span.events), CountTerminals(span.events);
    && (span.kind.OperationKind? ==>
         && others <= 1 && results <= 1 && !(results > 0 && others > 0)
         && (ErrorEvent in span.events || FaultEvent in span.events ==> span.status.StatusError?)
         && (AbandonedEvent in span.events ==> span.status.StatusUnset?)
         && (results > 0 || others > 0 || span.status.StatusOk?))
    && (span.kind.RunSpan? || span.kind.ScenarioSpan? ==> FaultEvent in span.events ==> span.status.StatusError?)
  }

  ghost predicate Conforms(spans: seq<TraceSpan>) {
    UniqueIds(spans) && forall span <- spans :: ParentRule(spans, span) && EventRule(span)
  }

  // ---------------------------------------------------------------- the validator

  /** The two passes of `validate_trace`: index the spans, then check each one against the index. */
  method Validate(spans: seq<TraceSpan>) returns (accepted: bool)
    ensures accepted <==> Conforms(spans)
  {
    accepted := true;
    var byId: map<SpanId, TraceSpan> := map[];
    for i := 0 to |spans|
      invariant forall id :: id in byId <==> exists k :: 0 <= k < i && spans[k].spanId == id
      invariant accepted ==> forall k | 0 <= k < i :: byId[spans[k].spanId] == spans[k]
      invariant accepted <==> forall k, l | 0 <= k < l < i :: spans[k].spanId != spans[l].spanId
    {
      if spans[i].spanId in byId {
        accepted := false;
      }
      byId := byId[spans[i].spanId := spans[i]];
    }
    ghost var unique := accepted;
    for i := 0 to |spans|
      invariant accepted <==> unique && forall k | 0 <= k < i :: ParentRule(spans, spans[k]) && EventRule(spans[k])
    {
      var ok := CheckSpan(spans, byId, spans[i]);
      accepted := accepted && ok;
    }
  }

  /** With unique identifiers the index finds exactly the parent. */
  method CheckSpan(ghost spans: seq<TraceSpan>, byId: map<SpanId, TraceSpan>, span: TraceSpan) returns (ok: bool)
    requires forall id :: id in byId <==> exists k :: 0 <= k < |spans| && spans[k].spanId == id
    ensures UniqueIds(spans) && (forall k | 0 <= k < |spans| :: byId[spans[k].spanId] == spans[k]) ==>
              (ok <==> ParentRule(spans, span) && EventRule(span))
  {
    var parent: Option<Kind> := None;
    if span.parentId.Some? && span.parentId.value in byId {
      parent := Some(byId[span.parentId.value].kind);
    }
    ok := match span.kind
      case RunSpan => span.parentId.None?
      case ScenarioSpan => parent == Some(RunSpan)
      case OperationKind =>
        parent == Some(ScenarioSpan) || parent == Some(OperationKind) || parent == Some(ParallelSpan)
      case ParallelSpan => parent == Some(ScenarioSpan) || parent == Some(OperationKind);
    ghost var indexed := UniqueIds(spans) && forall k | 0 <= k < |spans| :: byId[spans[k].spanId] == spans[k];
    if indexed && span.parentId.Some? && span.parentId.value in byId {
      var k :| 0 <= k < |spans| && spans[k].spanId == span.parentId.value;
      assert spans[k] in spans;
      forall kinds: set<Kind> ensures ParentIs(spans, span, kinds) <==> spans[k].kind in kinds {
      }
    }
    assert indexed ==> (ok <==> ParentRule(spans, span));
    var events := CheckEvents(span);
    ok := ok && events;
  }

  method CheckEvents(span: TraceSpan) returns (ok: bool)
    ensures ok <==> EventRule(span)
  {
    var results, others := 0, 0;
    var failed, abandoned, fault := false, false, false;
    for i := 0 to |span.events|
      invariant results == CountResults(span.events[..i]) && others == CountTerminals(span.events[..i])
      invariant failed <==> ErrorEvent in span.events[..i] || FaultEvent in span.events[..i]
      invariant abandoned <==> AbandonedEvent in span.events[..i]
      invariant fault <==> FaultEvent in span.events[..i]
    {
      var e := span.events[i];
      assert span.events[..i + 1] == span.events[..i] + [e] && span.events[..i + 1][..i] == span.events[..i];
      if e.ResultEvent? {
        results := results + 1;
      }
      if NonResultTerminal(e) {
        others := others + 1;
      }
      failed := failed || e.ErrorEvent? || e.FaultEvent?;
      abandoned := abandoned || e.AbandonedEvent?;
      fault := fault || e.FaultEvent?;
    }
    assert span.events[..|span.events|] == span.events;
    ok := true;
    if span.kind.OperationKind? {
      ok := others <= 1 && !(results > 0 && others > 0) && results <= 1
            && (failed ==> span.status.StatusError?)
            && (abandoned ==> span.status.StatusUnset?)
            && (results > 0 || others > 0 || span.status.StatusOk?);
    }
    if span.kind.RunSpan? || span.kind.ScenarioSpan? {
      ok := ok && (fault ==> span.status.StatusError?);
    }
  }

  // ---------------------------------------------------------------- captures as traces

  function TerminalEvent(o: Outcome): EventName {
    match o
    case Returned(_) => ResultEvent
    case Absent => EmptyEvent
    case Declared(_, _) => ErrorEvent
    case Fault(_, _) => FaultEvent
    case Abandoned => AbandonedEvent
  }

  function EventsOf(span: OperationSpan): seq<EventName> {
    seq(|span.observations|, _ => Observed)
    + if span.completion.Some? then [TerminalEvent(span.completion.value.outcome)] else []
  }

  function OperationTrace(span: OperationSpan): TraceSpan {
    TraceSpan(OperationKind, span.spanId, Some(span.parentId), span.status, EventsOf(span))
  }

  function TraceOf(c: Capture): seq<TraceSpan> {
    [TraceSpan(RunSpan, c.run.spanId, c.run.parentId, c.run.status, []),
     TraceSpan(ScenarioSpan, c.scenario.spanId, c.scenario.parentId, c.scenario.status, [])]
    + seq(|c.operations|, i requires 0 <= i < |c.operations| => OperationTrace(c.operations[i]))
  }

  lemma {:induction false} ObservationsCountNothing(n: nat)
    ensures CountResults(seq(n, _ => Observed)) == 0 && CountTerminals(seq(n, _ => Observed)) == 0
  {
    if n > 0 {
      assert seq(n, _ => Observed)[..n - 1] == seq(n - 1, _ => Observed);
      ObservationsCountNothing(n - 1);
    }
  }

  lemma SpanEventsConform(span: OperationSpan)
    requires span.status == RequiredStatus(if span.completion.Some? then Some(span.completion.value.outcome) else None)
    ensures EventRule(OperationTrace(span))
  {
    var quiet := seq(|span.observations|, _ => Observed);
    ObservationsCountNothing(|span.observations|);
    var events := EventsOf(span);
    if span.completion.Some? {
      assert events[..|events| - 1] == quiet;
    } else {
      assert events == quiet;
    }
  }

  lemma TraceParents(s: Session, i: nat)
    requires WellFormed(s) && AllTerminated(s) && i < |s.operations|
    ensures ParentRule(TraceOf(Build(s)), OperationTrace(BuildSpan(s.operations[i])))
  {
    var trace := TraceOf(Build(s));
    assert ParentBefore(s, i);
    assert trace[1] in trace;
    if j :| 0 <= j < i && s.operations[j].spanId == s.operations[i].parentId {
      assert trace[j + 2] in trace && trace[j + 2].spanId == s.operations[j].spanId;
    }
  }

  lemma BuiltStatusMatches(s: Session, i: nat)
    requires WellFormed(s) && AllTerminated(s) && i < |s.operations|
    ensures var span := BuildSpan(s.operations[i]);
            span.status == RequiredStatus(if span.completion.Some? then Some(span.completion.value.outcome) else None)
  {
    hide FreshIds, SuppliedIds, ResolvableParents, RequiredStatus, ValidConfig;
    assert s.operations[i] in s.operations;
  }

  lemma BuiltTrace(s: Session, k: nat)
    requires AllTerminated(s) && k < |s.operations|
    ensures var trace := TraceOf(Build(s));
            |trace| == |s.operations| + 2 && trace[k + 2] == OperationTrace(BuildSpan(s.operations[k]))
  {
    hide OperationTrace;
  }

  lemma BuiltSpanConforms(s: Session, k: nat)
    requires WellFormed(s) && AllTerminated(s) && k < |s.operations| + 2
    ensures var trace := TraceOf(Build(s)); k < |trace| && ParentRule(trace, trace[k]) && EventRule(trace[k])
  {
    if k < 2 {
      hide WellFormed;
      var trace := TraceOf(Build(s));
      assert trace[0] in trace;
    } else {
      hide WellFormed, ParentRule, EventRule, OperationTrace, TraceOf, Build, AllTerminated, RequiredStatus;
      BuiltTrace(s, k - 2);
      TraceParents(s, k - 2);
      BuiltStatusMatches(s, k - 2);
      SpanEventsConform(BuildSpan(s.operations[k - 2]));
    }
  }

  lemma BuiltIdsDiffer(s: Session)
    requires WellFormed(s) && AllTerminated(s)
    ensures UniqueIds(TraceOf(Build(s))) && |TraceOf(Build(s))| == |s.operations| + 2
  {
    hide RequiredStatus, EventsOf;
  }

  /** A terminated well-formed session builds a conforming trace. */
  lemma BuildConforms(s: Session)
    requires WellFormed(s) && AllTerminated(s)
    ensures Conforms(TraceOf(Build(s)))
  {
    var trace := TraceOf(Build(s));
    hide ParentRule, EventRule, WellFormed, TraceOf, UniqueIds;
    BuiltIdsDiffer(s);
    forall span <- trace ensures ParentRule(trace, span) && EventRule(span) {
      var k :| 0 <= k < |trace| && trace[k] == span;
      BuiltSpanConforms(s, k);
    }
  }

  /** Every capture any run can finish or project, trusted or not, passes the validator. */
  lemma EveryProjectionConforms(config: Config, actions: seq<Action>, untrusted: bool)
    requires ValidConfig(config) && Runs(Start(config), actions)
    ensures var s := After(Start(config), actions);
            Conforms(TraceOf(Project(s, untrusted))) && (AllTerminated(s) ==> Conforms(TraceOf(Build(s))))
  {
    StartIsGood(config);
    RunsWellFormed(Start(config), actions);
    var s := After(Start(config), actions);
    CloseWellFormed(s, 0, untrusted);
    BuildConforms(CloseDown(s, 0, untrusted));
    if AllTerminated(s) {
      BuildConforms(s);
    }
  }
}
