/**
  What a capture tells of the run that made it.

  The session folds actions into a state; here every field of a projected capture is read off the list of actions
  instead, by looking back from its end: which begin an operation is, the inputs recorded last, the observations in
  order, the completion, and the readings of the two counters before each of them.
 */
module CaptureLog {
  import opened Wrappers
  import opened Utf8Order
  import opened Values
  import opened CaptureModel
  import opened SessionSpec
  import opened SessionLaws

  // ---------------------------------------------------------------- reading the log

  /** How many ticks of the clock an action takes. */
  ghost function Ticks(a: Action): nat {
    match a
    case DoBegin(_, _, _, _, _) => 1
    case DoObserve(_, _, _) => 1
    case DoComplete(_, outcome) => if outcome.Some? then 2 else 1
    case DoInputs(_, _) => 0
    case DoSnapshot(_) => 0
  }

  /** Whether an action is an event with an order. */
  ghost predicate IsEvent(a: Action) {
    a.DoBegin? || a.DoObserve? || (a.DoComplete? && a.outcome.Some?)
  }

  /** The time after the actions: two ticks for the run and the scenario, and one for each tick taken. */
  ghost function Clock(c: Config, log: seq<Action>): int {
    if log == [] then c.startTime + c.step + c.step
    else Clock(c, log[..|log| - 1]) + Ticks(log[|log| - 1]) * c.step
  }

  /** How many events there were. */
  ghost function Events(log: seq<Action>): nat {
    if log == [] then 0 else Events(log[..|log| - 1]) + if IsEvent(log[|log| - 1]) then 1 else 0
  }

  ghost function Begins(log: seq<Action>): nat {
    if log == [] then 0 else Begins(log[..|log| - 1]) + if log[|log| - 1].DoBegin? then 1 else 0
  }

  /** Where operation i began. */
  ghost function BeginAt(log: seq<Action>, i: nat): (k: nat)
    requires i < Begins(log)
    ensures k < |log| && log[k].DoBegin?
  {
    var init := log[..|log| - 1];
    if i == Begins(init) then |log| - 1 else BeginAt(init, i)
  }

  /** Where operation i was completed, if it was. */
  ghost function CompletedAt(log: seq<Action>, i: nat): (at: Option<nat>)
    ensures at.Some? ==> at.value < |log| && log[at.value].DoComplete? && log[at.value].i == i
  {
    if log == [] then None
    else
      var last := log[|log| - 1];
      if last.DoComplete? && last.i == i then Some(|log| - 1) else CompletedAt(log[..|log| - 1], i)
  }

  /** The inputs recorded last, or else those given at the begin. */
  ghost function InputsOf(log: seq<Action>, i: nat): seq<Entry>
    requires i < Begins(log)
  {
    var init, last := log[..|log| - 1], log[|log| - 1];
    if last.DoInputs? && last.i == i then last.inputs
    else if i == Begins(init) then last.inputs
    else InputsOf(init, i)
  }

  /** The observations of operation i, each with the counters as they stood before it. */
  ghost function ObservationsOf(c: Config, log: seq<Action>, i: nat): seq<Observation> {
    if log == [] then []
    else
      var init, last := log[..|log| - 1], log[|log| - 1];
      var before := ObservationsOf(c, init, i);
      if last.DoObserve? && last.i == i
      then before + [Observation(Events(init), Clock(c, init), last.name, last.value)]
      else before
  }

  // ---------------------------------------------------------------- what the state holds

  ghost predicate Began(c: Config, log: seq<Action>, i: nat, p: Pending)
    requires i < Begins(log)
  {
    var k := BeginAt(log, i);
    && p.spanId == log[k].spanId && p.parentId == log[k].parentId
    && p.component == log[k].component && p.name == log[k].name
    && p.start == Clock(c, log[..k]) && p.order == Events(log[..k])
  }

  /** An error for a declared error or a fault, unset for an abandoned operation, and ok otherwise. */
  ghost predicate StatusFits(outcome: Option<Outcome>, status: Status) {
    && (status == StatusError <==> outcome.Some? && (outcome.value.Declared? || outcome.value.Fault?))
    && (status == StatusUnset <==> outcome == Some(Abandoned))
  }

  ghost predicate Ended(c: Config, log: seq<Action>, i: nat, p: Pending) {
    match CompletedAt(log, i)
    case None => Open(p) && p.completion.None?
    case Some(k) =>
      && p.status.Some? && StatusFits(log[k].outcome, p.status.value)
      && p.end == Clock(c, log[..k]) + (if log[k].outcome.Some? then c.step else 0)
      && p.completion == if log[k].outcome.None? then None
                         else Some(Completion(Events(log[..k]), Clock(c, log[..k]), log[k].outcome.value))
  }

  ghost predicate Tells(c: Config, log: seq<Action>, i: nat, p: Pending)
    requires i < Begins(log)
  {
    && Began(c, log, i, p) && Ended(c, log, i, p)
    && p.inputs == InputsOf(log, i) && p.observations == ObservationsOf(c, log, i)
  }

  ghost predicate StateTells(c: Config, log: seq<Action>, s: Session) {
    && s.config == c && s.nextTime == Clock(c, log) && s.nextOrder == Events(log)
    && |s.operations| == Begins(log)
    && forall i | 0 <= i < |s.operations| :: Tells(c, log, i, s.operations[i])
  }

  lemma {:induction false} LastAction(s: Session, log: seq<Action>)
    requires Runs(s, log) && log != []
    ensures var init, last := log[..|log| - 1], log[|log| - 1];
            Runs(s, init) && Enabled(After(s, init), last) && After(s, log) == Apply(After(s, init), last)
    decreases |log|
  {
    hide Enabled, Apply;
    if |log| > 1 {
      LastAction(Apply(s, log[0]), log[1..]);
      assert log[1..][..|log| - 2] == log[..|log| - 1][1..];
    }
  }

  /** Prefixes of what came before the last action are prefixes of the log. */
  lemma SamePrefixes(log: seq<Action>)
    requires log != []
    ensures forall k | 0 <= k < |log| :: log[..|log| - 1][..k] == log[..k]
  {
  }

  /** Where an operation began does not change. */
  lemma BeganStays(c: Config, log: seq<Action>, i: nat, p: Pending)
    requires log != [] && i < Begins(log[..|log| - 1]) && Began(c, log[..|log| - 1], i, p)
    ensures i < Begins(log) && Began(c, log, i, p)
  {
    hide Clock, Events;
    var k := BeginAt(log[..|log| - 1], i);
    assert BeginAt(log, i) == k && log[..|log| - 1][..k] == log[..k];
  }

  lemma EndedStays(c: Config, log: seq<Action>, i: nat, p: Pending)
    requires log != [] && Ended(c, log[..|log| - 1], i, p) && !(log[|log| - 1].DoComplete? && log[|log| - 1].i == i)
    ensures Ended(c, log, i, p)
  {
    hide Clock, Events;
    var at := CompletedAt(log[..|log| - 1], i);
    assert CompletedAt(log, i) == at;
    if at.Some? {
      assert log[..|log| - 1][..at.value] == log[..at.value];
    }
  }

  /** An operation the last action does not touch is told by the log as before. */
  lemma Untouched(c: Config, log: seq<Action>, i: nat, p: Pending)
    requires log != [] && i < Begins(log[..|log| - 1]) && Tells(c, log[..|log| - 1], i, p)
    requires Touches(log[|log| - 1]) ==> log[|log| - 1].i != i
    ensures i < Begins(log) && Tells(c, log, i, p)
  {
    BeganStays(c, log, i, p);
    EndedStays(c, log, i, p);
    hide Clock, Events, Began, Ended;
  }

  lemma NewTells(c: Config, log: seq<Action>, s: Session)
    requires log != [] && log[|log| - 1].DoBegin? && StateTells(c, log[..|log| - 1], s)
    requires Enabled(s, log[|log| - 1])
    requires CompletedAt(log[..|log| - 1], |s.operations|) == None
    requires ObservationsOf(c, log[..|log| - 1], |s.operations|) == []
    ensures var n := |s.operations|; n < Begins(log) && Tells(c, log, n, Apply(s, log[|log| - 1]).operations[n])
  {
    hide Enabled, IsNextId, Clock, Events;
    var init, n := log[..|log| - 1], |s.operations|;
    assert BeginAt(log, n) == |log| - 1 && CompletedAt(log, n) == None && ObservationsOf(c, log, n) == [];
  }

  ghost predicate Touches(a: Action) { a.DoInputs? || a.DoObserve? || a.DoComplete? }

  lemma {:induction false} BeginsGrow(log: seq<Action>, k: nat)
    requires k <= |log|
    ensures Begins(log[..k]) <= Begins(log)
    decreases |log|
  {
    if k == |log| {
      assert log[..k] == log;
    } else {
      BeginsGrow(log[..|log| - 1], k);
      assert log[..|log| - 1][..k] == log[..k];
    }
  }

  /** Nothing is said of an operation before it begins. */
  lemma {:induction false} Unmentioned(c: Config, log: seq<Action>, n: nat)
    requires Begins(log) <= n && forall i | 0 <= i < |log| :: Touches(log[i]) ==> log[i].i < Begins(log[..i])
    ensures CompletedAt(log, n) == None && ObservationsOf(c, log, n) == []
    decreases |log|
  {
    if log != [] {
      var init, k := log[..|log| - 1], |log| - 1;
      SamePrefixes(log);
      assert log[..k] == init;
      Unmentioned(c, init, n);
    }
  }

  lemma InputsTell(c: Config, log: seq<Action>, p: Pending)
    requires log != [] && log[|log| - 1].DoInputs? && log[|log| - 1].i < Begins(log[..|log| - 1])
    requires Tells(c, log[..|log| - 1], log[|log| - 1].i, p)
    ensures var a := log[|log| - 1]; a.i < Begins(log) && Tells(c, log, a.i, p.(inputs := a.inputs))
  {
    var a := log[|log| - 1];
    BeganStays(c, log, a.i, p);
    EndedStays(c, log, a.i, p);
    hide Clock, Events;
    assert Began(c, log, a.i, p.(inputs := a.inputs)) && Ended(c, log, a.i, p.(inputs := a.inputs));
    hide Began, Ended;
  }

  lemma ObservationTells(c: Config, log: seq<Action>, p: Pending, o: Observation)
    requires log != [] && log[|log| - 1].DoObserve? && log[|log| - 1].i < Begins(log[..|log| - 1])
    requires Tells(c, log[..|log| - 1], log[|log| - 1].i, p)
    requires var init, a := log[..|log| - 1], log[|log| - 1];
             o == Observation(Events(init), Clock(c, init), a.name, a.value)
    ensures var a, q := log[|log| - 1], p.(observations := p.observations + [o]);
            a.i < Begins(log) && Tells(c, log, a.i, q)
  {
    var a, q := log[|log| - 1], p.(observations := p.observations + [o]);
    BeganStays(c, log, a.i, p);
    EndedStays(c, log, a.i, p);
    hide Clock, Events;
    assert Began(c, log, a.i, q) && Ended(c, log, a.i, q);
    hide Began, Ended;
  }

  lemma CompletionTells(c: Config, log: seq<Action>, p: Pending, q: Pending)
    requires log != [] && log[|log| - 1].DoComplete? && log[|log| - 1].i < Begins(log[..|log| - 1])
    requires Tells(c, log[..|log| - 1], log[|log| - 1].i, p)
    requires q == p.(completion := q.completion, end := q.end, status := q.status)
    requires var init, a := log[..|log| - 1], log[|log| - 1];
             && q.status.Some? && StatusFits(a.outcome, q.status.value)
             && q.end == Clock(c, init) + (if a.outcome.Some? then c.step else 0)
             && q.completion == if a.outcome.None? then None
                                else Some(Completion(Events(init), Clock(c, init), a.outcome.value))
    ensures var a := log[|log| - 1]; a.i < Begins(log) && Tells(c, log, a.i, q)
  {
    var a := log[|log| - 1];
    BeganStays(c, log, a.i, p);
    hide Clock, Events;
    assert CompletedAt(log, a.i) == Some(|log| - 1);
    assert Began(c, log, a.i, q) && Ended(c, log, a.i, q);
    hide Began, Ended;
  }

  /** The operation an action touches is told by the log with that action. */
  lemma TouchedTells(c: Config, log: seq<Action>, s: Session)
    requires log != [] && Touches(log[|log| - 1]) && StateTells(c, log[..|log| - 1], s)
    requires Enabled(s, log[|log| - 1])
    ensures var i := log[|log| - 1].i;
            i < Begins(log) && Tells(c, log, i, Apply(s, log[|log| - 1]).operations[i])
  {
    hide Tells, Clock, Events, RequiredStatus;
    var init, a := log[..|log| - 1], log[|log| - 1];
    var p, q := s.operations[a.i], Apply(s, a).operations[a.i];
    match a {
      case DoInputs(_, _) => InputsTell(c, log, p);
      case DoObserve(_, _, _) => ObservationTells(c, log, p, q.observations[|p.observations|]);
      case DoComplete(_, _) =>
        StatusOfOutcome(a.outcome);
        UnitStatus();
        CompletionTells(c, log, p, q);
    }
  }

  lemma StatusOfOutcome(outcome: Option<Outcome>)
    ensures StatusFits(outcome, RequiredStatus(outcome))
  {
  }

  lemma UnitStatus()
    ensures RequiredStatus(None) == StatusOk
  {
  }

  lemma CountersTell(c: Config, log: seq<Action>, s: Session)
    requires log != [] && s.config == c && Enabled(s, log[|log| - 1])
    requires var init := log[..|log| - 1];
             s.nextTime == Clock(c, init) && s.nextOrder == Events(init) && |s.operations| == Begins(init)
    ensures var r := Apply(s, log[|log| - 1]);
            && r.config == c && r.nextTime == Clock(c, log) && r.nextOrder == Events(log)
            && |r.operations| == Begins(log)
  {
    var a := log[|log| - 1];
    assert Ticks(a) * c.step == (if Ticks(a) == 0 then 0 else if Ticks(a) == 1 then c.step else c.step + c.step);
    hide IsNextId, KnownParent;
  }

  lemma OthersStay(s: Session, a: Action, i: nat)
    requires Enabled(s, a) && i < |s.operations| && (Touches(a) ==> a.i != i)
    ensures i < |Apply(s, a).operations| && Apply(s, a).operations[i] == s.operations[i]
  {
    hide IsNextId, KnownParent;
  }

  /** Every action names an operation that has begun. */
  lemma {:induction false} TouchedHaveBegun(c: Config, log: seq<Action>)
    requires Runs(Start(c), log)
    ensures |After(Start(c), log).operations| == Begins(log)
    ensures forall i | 0 <= i < |log| :: Touches(log[i]) ==> log[i].i < Begins(log[..i])
    decreases |log|
  {
    if log != [] {
      var init, a := log[..|log| - 1], log[|log| - 1];
      LastAction(Start(c), log);
      TouchedHaveBegun(c, init);
      SamePrefixes(log);
      hide IsNextId, KnownParent;
      assert forall i | 0 <= i < |init| :: init[i] == log[i];
    }
  }

  /** The state of every run is told by its log. */
  lemma {:induction false} RunTells(c: Config, log: seq<Action>)
    requires Runs(Start(c), log)
    ensures StateTells(c, log, After(Start(c), log))
    decreases |log|
  {
    if log != [] {
      var init, a := log[..|log| - 1], log[|log| - 1];
      LastAction(Start(c), log);
      RunTells(c, init);
      TouchedHaveBegun(c, init);
      var s := After(Start(c), init);
      Unmentioned(c, init, |s.operations|);
      hide Apply, Enabled, Tells, Runs, After;
      CountersTell(c, log, s);
      forall i | 0 <= i < Begins(log)
        ensures Tells(c, log, i, Apply(s, a).operations[i])
      {
        if Touches(a) && a.i == i {
          TouchedTells(c, log, s);
        } else if i < Begins(init) {
          OthersStay(s, a, i);
          Untouched(c, log, i, s.operations[i]);
        } else {
          NewTells(c, log, s);
        }
      }
    }
  }

  // ---------------------------------------------------------------- what a projection shows

  /** Whether a projection has to close operation i itself. */
  ghost predicate Cut(log: seq<Action>, untrusted: bool, i: nat) {
    untrusted || CompletedAt(log, i).None?
  }

  /** How many operations from k on a projection closes. */
  ghost function Cuts(log: seq<Action>, untrusted: bool, k: nat): nat
    requires k <= Begins(log)
    decreases Begins(log) - k
  {
    if k == Begins(log) then 0 else Cuts(log, untrusted, k + 1) + if Cut(log, untrusted, k) then 1 else 0
  }

  /** The time closing them takes: a tick for the fault and one for the end. */
  ghost function CutTime(log: seq<Action>, untrusted: bool, k: nat, step: int): int
    requires k <= Begins(log)
  {
    Cuts(log, untrusted, k) * (step + step)
  }

  lemma AnotherCut(log: seq<Action>, untrusted: bool, k: nat, step: int)
    requires k < Begins(log)
    ensures CutTime(log, untrusted, k, step)
            == CutTime(log, untrusted, k + 1, step) + if Cut(log, untrusted, k) then step + step else 0
    ensures step > 0 ==> CutTime(log, untrusted, k + 1, step) >= 0
  {
    var n := Cuts(log, untrusted, k + 1);
    assert (n + 1) * (step + step) == n * (step + step) + step + step;
  }

  lemma NoCuts(log: seq<Action>, untrusted: bool, step: int)
    ensures CutTime(log, untrusted, Begins(log), step) == 0
  {
  }

  lemma CloseOneTakes(t: Session, i: nat, untrusted: bool)
    requires i < |t.operations|
    ensures var r, cut := CloseOne(t, i, untrusted), untrusted || Open(t.operations[i]);
            && r.nextOrder == t.nextOrder + (if cut then 1 else 0)
            && r.nextTime == t.nextTime + (if cut then t.config.step + t.config.step else 0)
  {
  }

  /** Closing takes an order and two ticks for each operation, the last operation first. */
  lemma {:induction false} ClosingTells(c: Config, log: seq<Action>, s: Session, untrusted: bool, k: nat)
    requires StateTells(c, log, s) && k <= |s.operations|
    ensures var r := CloseDown(s, k, untrusted);
            && r.nextOrder == Events(log) + Cuts(log, untrusted, k)
            && r.nextTime == Clock(c, log) + CutTime(log, untrusted, k, c.step)
    decreases |s.operations| - k
  {
    hide Clock, Events, CloseOne, Tells, CutTime, CompletedAt;
    if k < |s.operations| {
      ClosingTells(c, log, s, untrusted, k + 1);
      AnotherCut(log, untrusted, k, c.step);
      CloseOneTakes(CloseDown(s, k + 1, untrusted), k, untrusted);
      StillOpen(c, log, k, s.operations[k]);
    } else {
      NoCuts(log, untrusted, c.step);
    }
  }

  lemma StillOpen(c: Config, log: seq<Action>, i: nat, p: Pending)
    requires i < Begins(log) && Tells(c, log, i, p)
    ensures Open(p) <==> CompletedAt(log, i).None?
  {
    hide Clock, Events;
  }

  /** The span of operation i in a projection, field by field. */
  ghost predicate SpanTells(c: Config, log: seq<Action>, untrusted: bool, i: nat, span: OperationSpan)
    requires i < Begins(log)
  {
    var k, at := BeginAt(log, i), CompletedAt(log, i);
    && span.spanId == log[k].spanId && span.parentId == log[k].parentId
    && span.component == log[k].component && span.name == log[k].name
    && span.start == Clock(c, log[..k]) && span.order == Events(log[..k])
    && span.inputs == InputsOf(log, i) && span.observations == ObservationsOf(c, log, i)
    && (if Cut(log, untrusted, i) then CutTells(c, log, untrusted, i, span)
        else Ended(c, log, i, Pending(span.order, span.spanId, span.parentId, span.component, span.name, span.start,
                                      span.inputs, span.observations, span.completion, span.end, Some(span.status))))
  }

  /** An operation the projection closed: an incomplete fault after all recorded events and all later operations. */
  ghost predicate CutTells(c: Config, log: seq<Action>, untrusted: bool, i: nat, span: OperationSpan)
    requires i < Begins(log)
  {
    var n := Cuts(log, untrusted, i + 1);
    var time := Clock(c, log) + CutTime(log, untrusted, i + 1, c.step);
    && span.completion == Some(Completion(Events(log) + n, time, Incomplete(span.name)))
    && span.end == time + c.step && span.status == StatusError
  }

  /** The operation with the incomplete fault recorded at these readings of the counters. */
  ghost function Shut(p: Pending, order: nat, time: int, step: int): Pending {
    p.(completion := Some(Completion(order, time, Incomplete(p.name))), end := time + step, status := Some(StatusError))
  }

  lemma ShutsOne(t: Session, i: nat, untrusted: bool)
    requires i < |t.operations|
    ensures var p := t.operations[i];
            CloseOne(t, i, untrusted).operations[i]
              == if untrusted || Open(p) then Shut(p, t.nextOrder, t.nextTime, t.config.step) else p
    ensures |CloseOne(t, i, untrusted).operations| == |t.operations|
    ensures forall k | 0 <= k < |t.operations| && k != i ::
              CloseOne(t, i, untrusted).operations[k] == t.operations[k]
  {
  }

  /** What closing makes of operation i. */
  lemma {:induction false} ClosedOperation(c: Config, log: seq<Action>, s: Session, untrusted: bool, k: nat, i: nat)
    requires StateTells(c, log, s) && k <= i < |s.operations|
    ensures var p, n := s.operations[i], Cuts(log, untrusted, i + 1);
            CloseDown(s, k, untrusted).operations[i]
              == if Cut(log, untrusted, i)
                 then Shut(p, Events(log) + n, Clock(c, log) + CutTime(log, untrusted, i + 1, c.step), c.step) else p
    decreases i - k
  {
    hide Clock, Events, CloseOne, Shut, Tells, Cuts, CutTime, CompletedAt;
    ShutsOne(CloseDown(s, k + 1, untrusted), k, untrusted);
    if k < i {
      ClosedOperation(c, log, s, untrusted, k + 1, i);
    } else {
      ClosingTells(c, log, s, untrusted, i + 1);
      StillOpen(c, log, i, s.operations[i]);
    }
  }

  /** What is told of an operation is told of its span. */
  lemma BuiltTells(c: Config, log: seq<Action>, untrusted: bool, i: nat, p: Pending, q: Pending)
    requires i < Begins(log) && Tells(c, log, i, p)
    requires var n := Cuts(log, untrusted, i + 1);
             q == if Cut(log, untrusted, i)
                  then Shut(p, Events(log) + n, Clock(c, log) + CutTime(log, untrusted, i + 1, c.step), c.step) else p
    ensures !Open(q) && SpanTells(c, log, untrusted, i, BuildSpan(q))
  {
    hide Clock, Events, Incomplete, Cuts, CutTime, InputsOf, ObservationsOf, RequiredStatus;
  }

  lemma ProjectedSpan(c: Config, log: seq<Action>, untrusted: bool, i: nat)
    requires Runs(Start(c), log) && i < Begins(log)
    ensures var capture := Project(After(Start(c), log), untrusted);
            |capture.operations| == Begins(log) && SpanTells(c, log, untrusted, i, capture.operations[i])
  {
    RunTells(c, log);
    hide Runs, After, Clock, Events, Cuts, CutTime, Shut, Tells, SpanTells, BuildSpan, CompletedAt;
    var s := After(Start(c), log);
    ClosedOperation(c, log, s, untrusted, 0, i);
    hide CloseDown;
    BuiltTells(c, log, untrusted, i, s.operations[i], CloseDown(s, 0, untrusted).operations[i]);
  }

  /** The run and the scenario around the operations. */
  ghost predicate BoundariesTell(c: Config, log: seq<Action>, untrusted: bool, capture: Capture) {
    var end := Clock(c, log) + CutTime(log, untrusted, 0, c.step);
    var failed := exists i :: 0 <= i < |capture.operations| && capture.operations[i].status == StatusError;
    var status := if failed then StatusError else StatusOk;
    && capture.traceId == c.traceId && capture.scenarioName == c.scenarioName
    && capture.run == SpanBoundary(c.runId, None, c.startTime, end + c.step, status)
    && capture.scenario == SpanBoundary(c.scenarioId, Some(c.runId), c.startTime + c.step, end, status)
  }

  /**
    Every field of every capture, read off the actions of the run: nothing recorded is lost, moved to another operation
    or altered, and a projection adds the incomplete faults and the boundaries and nothing else.
   */
  lemma CaptureTells(c: Config, log: seq<Action>, untrusted: bool)
    requires Runs(Start(c), log)
    ensures var capture := Project(After(Start(c), log), untrusted);
            && |capture.operations| == Begins(log)
            && BoundariesTell(c, log, untrusted, capture)
            && forall i | 0 <= i < Begins(log) :: SpanTells(c, log, untrusted, i, capture.operations[i])
  {
    ProjectedBoundaries(c, log, untrusted);
    hide Runs, After, Project, BoundariesTell, SpanTells;
    forall i | 0 <= i < Begins(log)
      ensures SpanTells(c, log, untrusted, i, Project(After(Start(c), log), untrusted).operations[i])
    {
      ProjectedSpan(c, log, untrusted, i);
    }
  }

  lemma ProjectedBoundaries(c: Config, log: seq<Action>, untrusted: bool)
    requires Runs(Start(c), log)
    ensures var capture := Project(After(Start(c), log), untrusted);
            |capture.operations| == Begins(log) && BoundariesTell(c, log, untrusted, capture)
  {
    RunTells(c, log);
    hide Runs, After, Clock, Events, Cuts, CutTime, Tells;
    var s := After(Start(c), log);
    ClosingTells(c, log, s, untrusted, 0);
    ProjectIs(s, untrusted);
    var end := CloseDown(s, 0, untrusted).nextTime;
    hide CloseDown, Project;
    BuiltBoundaries(c, Project(s, untrusted).operations, end);
    hide BuildCapture;
  }

  lemma ProjectIs(s: Session, untrusted: bool)
    ensures var capture := Project(s, untrusted);
            && |capture.operations| == |s.operations|
            && capture == BuildCapture(s.config, capture.operations, CloseDown(s, 0, untrusted).nextTime)
  {
    hide RootStatus;
  }

  lemma BuiltBoundaries(c: Config, spans: seq<OperationSpan>, end: int)
    ensures var capture := BuildCapture(c, spans, end);
            var failed := exists i :: 0 <= i < |capture.operations| && capture.operations[i].status == StatusError;
            var status := if failed then StatusError else StatusOk;
            && capture.traceId == c.traceId && capture.scenarioName == c.scenarioName
            && capture.run == SpanBoundary(c.runId, None, c.startTime, end + c.step, status)
            && capture.scenario == SpanBoundary(c.scenarioId, Some(c.runId), c.startTime + c.step, end, status)
  {
    AnyErrorMeans(spans);
    hide AnyError;
  }

  lemma AnyErrorMeans(spans: seq<OperationSpan>)
    ensures AnyError(spans) <==> exists i :: 0 <= i < |spans| && spans[i].status == StatusError
  {
    if i :| 0 <= i < |spans| && spans[i].status == StatusError {
      assert spans[i] in spans;
    }
  }

  lemma {:induction false} LastInputs(log: seq<Action>, k: nat)
    requires k < |log| && log[k].DoInputs? && log[k].i < Begins(log[..k])
    requires forall j | k < j < |log| :: !(log[j].DoInputs? && log[j].i == log[k].i)
    ensures log[k].i < Begins(log) && InputsOf(log, log[k].i) == log[k].inputs
    decreases |log|
  {
    BeginsGrow(log, k);
    if k < |log| - 1 {
      var init := log[..|log| - 1];
      assert init[..k] == log[..k];
      LastInputs(init, k);
    }
  }

  /** The inputs recorded last are the ones every later capture shows, trusted or not. */
  lemma RecordedInputsAreShown(c: Config, log: seq<Action>, untrusted: bool, k: nat)
    requires Runs(Start(c), log) && k < |log| && log[k].DoInputs?
    requires forall j | k < j < |log| :: !(log[j].DoInputs? && log[j].i == log[k].i)
    ensures var capture := Project(After(Start(c), log), untrusted);
            log[k].i < |capture.operations| && capture.operations[log[k].i].inputs == log[k].inputs
  {
    TouchedHaveBegun(c, log);
    LastInputs(log, k);
    CaptureTells(c, log, untrusted);
  }

  // ---------------------------------------------------------------- everything lies inside the scenario

  lemma {:induction false} ClockGrows(c: Config, log: seq<Action>, k: nat)
    requires k <= |log| && c.step > 0
    ensures c.startTime + c.step < Clock(c, log[..k]) <= Clock(c, log)
    ensures k < |log| ==> Clock(c, log[..k]) + Ticks(log[k]) * c.step <= Clock(c, log)
    decreases |log|
  {
    if k == |log| {
      assert log[..k] == log;
      if k > 0 {
        ClockGrows(c, log[..k - 1], k - 1);
        assert log[..k - 1][..k - 1] == log[..k - 1];
        assert Ticks(log[k - 1]) * c.step >= 0;
      }
    } else {
      var init := log[..|log| - 1];
      ClockGrows(c, init, k);
      assert init[..k] == log[..k];
      assert Ticks(log[|log| - 1]) * c.step >= 0;
    }
  }

  /** Whatever the run and its projection, each operation lies inside the scenario, and the scenario in the run. */
  lemma ScenarioEncloses(c: Config, log: seq<Action>, untrusted: bool, i: nat)
    requires ValidConfig(c) && Runs(Start(c), log) && i < Begins(log)
    ensures var capture := Project(After(Start(c), log), untrusted);
            && i < |capture.operations|
            && capture.run.start < capture.scenario.start < capture.operations[i].start
            && capture.operations[i].end < capture.scenario.end < capture.run.end
  {
    CaptureTells(c, log, untrusted);
    hide Runs, After, Project, SpanTells, Clock, CutTime;
    var capture := Project(After(Start(c), log), untrusted);
    SpanInside(c, log, untrusted, i, capture.operations[i]);
    assert BoundariesTell(c, log, untrusted, capture);
  }

  lemma SpanInside(c: Config, log: seq<Action>, untrusted: bool, i: nat, span: OperationSpan)
    requires c.step > 0 && i < Begins(log) && SpanTells(c, log, untrusted, i, span)
    ensures c.startTime + c.step < span.start
    ensures span.end < Clock(c, log) + CutTime(log, untrusted, 0, c.step)
  {
    hide Clock, Events, Incomplete, Cuts, CutTime, InputsOf, ObservationsOf, RequiredStatus;
    ClockGrows(c, log, BeginAt(log, i));
    FewerCuts(log, untrusted, 0, i, c.step);
    if !Cut(log, untrusted, i) {
      var k := CompletedAt(log, i).value;
      ClockGrows(c, log, k);
      CompletionTicks(log[k], c.step);
    }
  }

  lemma CompletionTicks(a: Action, step: int)
    requires a.DoComplete?
    ensures Ticks(a) * step == if a.outcome.Some? then step + step else step
  {
  }

  /** Closing the operations behind i takes part of the time closing all of them takes. */
  lemma {:induction false} FewerCuts(log: seq<Action>, untrusted: bool, k: nat, i: nat, step: int)
    requires k <= i < Begins(log) && step > 0
    ensures 0 <= CutTime(log, untrusted, i + 1, step)
    ensures CutTime(log, untrusted, i + 1, step) + (if Cut(log, untrusted, i) then step + step else 0)
            <= CutTime(log, untrusted, k, step)
    decreases i - k
  {
    hide CutTime, CompletedAt;
    AnotherCut(log, untrusted, k, step);
    if k < i {
      FewerCuts(log, untrusted, k + 1, i, step);
    }
  }
}
