/**
  The session object driven by any list of calls, those it refuses included: it follows the state machine, so its
  laws hold of the object, and the snapshots among the calls leave no trace in it.
 */
module DrivenSession {
  import opened Wrappers
  import opened Utf8Order
  import opened Values
  import opened CaptureModel
  import opened SessionSpec
  import opened SessionLaws
  import opened CSharpSession

  /** Operations are named by position. A call that names one that does not exist cannot be made, and is skipped. */
  datatype Call =
    | BeginCall(component: Text, name: Text, parent: Option<nat>)
    | InputsCall(i: nat, inputs: seq<Entry>)
    | CompleteCall(i: nat, outcome: Option<Outcome>)
    | SnapshotCall(untrusted: bool)

  /** A call and whether it was carried out. */
  datatype Taken = Taken(call: Call, done: bool)

  // ---------------------------------------------------------------- what a call does

  /** The identifier the session would hand out, if there is one. */
  ghost function NextId(s: Session): SpanId {
    if exists id :: IsNextId(s, id) then (var id :| IsNextId(s, id); id) else []
  }

  predicate Possible(operations: nat, call: Call) {
    match call
    case BeginCall(_, _, parent) => parent.Some? ==> parent.value < operations
    case InputsCall(i, _) => i < operations
    case CompleteCall(i, _) => i < operations
    case SnapshotCall(_) => true
  }

  ghost function ActionOf(s: Session, call: Call): Action
    requires Possible(|s.operations|, call)
  {
    match call
    case BeginCall(component, name, parent) =>
      var parentId := if parent.Some? then s.operations[parent.value].spanId else s.config.scenarioId;
      DoBegin(NextId(s), parentId, component, name, [])
    case InputsCall(i, inputs) => DoInputs(i, inputs)
    case CompleteCall(i, outcome) => DoComplete(i, outcome)
    case SnapshotCall(untrusted) => DoSnapshot(untrusted)
  }

  ghost predicate CanTake(s: Session, call: Call) {
    Possible(|s.operations|, call) && Enabled(s, ActionOf(s, call))
  }

  /** The clock, and for a begin the identifiers, have room for the call. */
  ghost predicate Fits(s: Session, call: Call)
    requires CanTake(s, call)
  {
    match call
    case SnapshotCall(untrusted) => CloseDown(s, 0, untrusted).nextTime + s.config.step <= MAX_TIME
    case BeginCall(_, _, _) => s.nextTime + s.config.step <= MAX_TIME && 2 * |s.operations| + 6 <= HexRange(SPAN_WIDTH)
    case InputsCall(_, _) => true
    case CompleteCall(i, outcome) => Complete(s, i, outcome).nextTime <= MAX_TIME
  }

  /** A call is carried out if it can be and fits; apart from a begin, which may find an identifier later, only then. */
  ghost predicate Honest(s: Session, t: Taken) {
    && (t.done ==> CanTake(s, t.call))
    && (CanTake(s, t.call) && Fits(s, t.call) ==> t.done)
    && (t.done && !t.call.BeginCall? ==> Fits(s, t.call))
  }

  /** A completion of an open operation that the clock does not let through. */
  ghost predicate Stalls(s: Session, t: Taken) {
    t.call.CompleteCall? && !t.done && t.call.i < |s.operations| && Open(s.operations[t.call.i])
  }

  /** A refused call leaves the session, except that a stalled completion has spent what it drew. */
  ghost function Next(s: Session, t: Taken): Session {
    if t.done && CanTake(s, t.call) then Apply(s, ActionOf(s, t.call))
    else if Stalls(s, t) then Stalled(s, t.call.outcome)
    else s
  }

  // ---------------------------------------------------------------- lists of calls

  ghost predicate Follows(s: Session, steps: seq<Taken>)
    decreases |steps|
  {
    steps == [] || (Honest(s, steps[0]) && Follows(Next(s, steps[0]), steps[1..]))
  }

  ghost function Final(s: Session, steps: seq<Taken>): Session
    decreases |steps|
  {
    if steps == [] then s else Final(Next(s, steps[0]), steps[1..])
  }

  ghost predicate NoStall(s: Session, steps: seq<Taken>)
    decreases |steps|
  {
    steps == [] || (!Stalls(s, steps[0]) && NoStall(Next(s, steps[0]), steps[1..]))
  }

  /** The actions of the calls that were carried out, snapshots left away. */
  ghost function Effective(s: Session, steps: seq<Taken>): seq<Action>
    decreases |steps|
  {
    if steps == [] then []
    else
      var t := steps[0];
      var acts := t.done && !t.call.SnapshotCall? && CanTake(s, t.call);
      (if acts then [ActionOf(s, t.call)] else []) + Effective(Next(s, t), steps[1..])
  }

  /** What one step shows: a snapshot that fits, the projection of the state it was taken in. */
  ghost function Shot(s: Session, t: Taken): seq<Capture> {
    if t.done && t.call.SnapshotCall? then [Project(s, t.call.untrusted)] else []
  }

  ghost function Shots(s: Session, steps: seq<Taken>): seq<Capture>
    decreases |steps|
  {
    if steps == [] then [] else Shot(s, steps[0]) + Shots(Next(s, steps[0]), steps[1..])
  }

  // ---------------------------------------------------------------- one more call

  lemma {:induction false} FinalAppend(s: Session, steps: seq<Taken>, t: Taken)
    ensures Final(s, steps + [t]) == Next(Final(s, steps), t)
    ensures Shots(s, steps + [t]) == Shots(s, steps) + Shot(Final(s, steps), t)
    ensures Follows(s, steps) && Honest(Final(s, steps), t) ==> Follows(s, steps + [t])
    decreases |steps|
  {
    hide Next, Honest, Shot;
    if steps == [] {
      assert [t][1..] == [] && steps + [t] == [t];
    } else {
      assert (steps + [t])[0] == steps[0] && (steps + [t])[1..] == steps[1..] + [t];
      FinalAppend(Next(s, steps[0]), steps[1..], t);
    }
  }

  // ---------------------------------------------------------------- the laws

  /** While no completion stalls, the calls are a run of the state machine without any snapshot in it. */
  lemma {:induction false} FollowsRun(s: Session, steps: seq<Taken>)
    requires Follows(s, steps) && NoStall(s, steps)
    ensures Runs(s, Effective(s, steps)) && After(s, Effective(s, steps)) == Final(s, steps)
    decreases |steps|
  {
    hide CanTake, Honest, Stalls;
    if steps != [] {
      var t := steps[0];
      FollowsRun(Next(s, t), steps[1..]);
      StepRuns(s, t, Effective(Next(s, t), steps[1..]));
    }
  }

  lemma StepRuns(s: Session, t: Taken, rest: seq<Action>)
    requires Honest(s, t) && !Stalls(s, t) && Runs(Next(s, t), rest)
    ensures var acts := t.done && !t.call.SnapshotCall? && CanTake(s, t.call);
            var run := (if acts then [ActionOf(s, t.call)] else []) + rest;
            Runs(s, run) && After(s, run) == After(Next(s, t), rest)
  {
    hide Fits, Stalls, Enabled;
    if t.done && !t.call.SnapshotCall? {
      var a := ActionOf(s, t.call);
      assert ([a] + rest)[0] == a && ([a] + rest)[1..] == rest;
    } else {
      assert [] + rest == rest;
    }
  }

  ghost predicate Lawful(s: Session) {
    WellFormed(s) && CountersExact(s) && EventsOrdered(s)
  }

  /** A stalled completion spends an order and perhaps a tick; only the exact counters are lost. */
  lemma StallKeeps(s: Session, outcome: Option<Outcome>)
    requires WellFormed(s) && EventsOrdered(s)
    ensures WellFormed(Stalled(s, outcome)) && EventsOrdered(Stalled(s, outcome))
  {
    var r := Stalled(s, outcome);
    assert forall e :: Exists(r, e) <==> Exists(s, e);
    assert forall i | 0 <= i < |s.operations| :: ParentBefore(s, i) <==> ParentBefore(r, i);
    hide Exists, ParentBefore;
    assert forall e | Exists(s, e) :: TimeOf(r, e) == TimeOf(s, e) && (!e.EndOf? ==> OrderOf(r, e) == OrderOf(s, e));
    hide TimeOf, OrderOf;
  }

  lemma {:induction false} FollowsLaws(s: Session, steps: seq<Taken>)
    requires WellFormed(s) && EventsOrdered(s)
    ensures WellFormed(Final(s, steps)) && EventsOrdered(Final(s, steps))
    decreases |steps|
  {
    hide WellFormed, EventsOrdered, CanTake, Enabled, Apply, Open;
    if steps != [] {
      var t := steps[0];
      if t.done && CanTake(s, t.call) {
        CanTakeEnabled(s, t.call);
        ApplyWellFormed(s, ActionOf(s, t.call));
        ApplyEvents(s, ActionOf(s, t.call));
      } else if Stalls(s, t) {
        StallKeeps(s, t.call.outcome);
      }
      FollowsLaws(Next(s, t), steps[1..]);
    }
  }

  lemma CanTakeEnabled(s: Session, call: Call)
    requires CanTake(s, call)
    ensures Possible(|s.operations|, call) && Enabled(s, ActionOf(s, call))
  {
  }

  // ---------------------------------------------------------------- the object

  /** One call on the object is one step of the state machine, a refused call included. */
  method Perform(session: CaptureSession, call: Call) returns (done: bool, shot: seq<Capture>)
    requires session.Valid() && !session.finished
    modifies session
    ensures session.Valid() && session.finished == old(session.finished)
    ensures old(Honest(session.State(), Taken(call, done)))
    ensures session.State() == old(Next(session.State(), Taken(call, done)))
    ensures shot == old(Shot(session.State(), Taken(call, done)))
  {
    hide IsNextId, HexRange, CloseDown, Project;
    shot := [];
    if !Possible(|session.operations|, call) {
      return false, [];
    }
    match call {
      case BeginCall(component, name, parent) =>
        ghost var s := session.State();
        var parentId := if parent.Some? then Some(session.operations[parent.value].spanId) else None;
        var index := session.Begin(component, name, parentId);
        done := index.Some?;
        if done {
          ghost var known := if parentId.Some? then parentId.value else s.config.scenarioId;
          ghost var id :| IsNextId(s, id) && session.State() == Begin(s, id, known, component, name, []);
          NextIdIsUnique(s, id, NextId(s));
          assert parent.Some? ==> s.operations[parent.value] in s.operations;
        }
      case InputsCall(i, inputs) =>
        session.RecordInputs(i, inputs);
        done := true;
      case CompleteCall(i, outcome) => done := session.Complete(i, outcome);
      case SnapshotCall(untrusted) =>
        var capture := session.Snapshot(untrusted);
        done := capture.Some?;
        shot := if done then [capture.value] else [];
    }
  }

  /**
    Any list of calls, whatever the session makes of each: the object ends where its steps lead, each snapshot shows
    the state it was taken in, and the laws hold of the object. Unless a completion stalls, the object ends where the
    run of the calls carried out ends, the snapshots left away, and its counters are exact too.
   */
  method Drive(session: CaptureSession, calls: seq<Call>) returns (steps: seq<Taken>, shots: seq<Capture>)
    requires session.Valid() && !session.finished
    modifies session
    ensures session.Valid()
    ensures |steps| == |calls| && forall k | 0 <= k < |calls| :: steps[k].call == calls[k]
    ensures Follows(old(session.State()), steps) && session.State() == Final(old(session.State()), steps)
    ensures shots == Shots(old(session.State()), steps)
    ensures old(WellFormed(session.State()) && EventsOrdered(session.State())) ==>
              WellFormed(session.State()) && EventsOrdered(session.State())
    ensures NoStall(old(session.State()), steps) ==>
              var run := Effective(old(session.State()), steps);
              && Runs(old(session.State()), run) && session.State() == After(old(session.State()), run)
              && (old(Lawful(session.State())) ==> Lawful(session.State()))
  {
    hide Next, Honest, Shot, WellFormed, EventsOrdered, CountersExact;
    ghost var start := session.State();
    steps, shots := [], [];
    for k := 0 to |calls|
      invariant session.Valid() && !session.finished
      invariant |steps| == k && forall j | 0 <= j < k :: steps[j].call == calls[j]
      invariant Follows(start, steps) && session.State() == Final(start, steps) && shots == Shots(start, steps)
    {
      var done, shot := Perform(session, calls[k]);
      FinalAppend(start, steps, Taken(calls[k], done));
      steps, shots := steps + [Taken(calls[k], done)], shots + shot;
    }
    if WellFormed(start) && EventsOrdered(start) {
      FollowsLaws(start, steps);
    }
    if NoStall(start, steps) {
      FollowsRun(start, steps);
      if Lawful(start) {
        RunLaws(start, Effective(start, steps));
      }
    }
  }
}
