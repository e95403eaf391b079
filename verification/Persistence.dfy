/**
  The persistence protocol of the C# session, as steps of any number of threads.

  Two locks matter: the session lock makes each session action and each snapshot atomic,
  and the persist lock is held from before a snapshot until its write is over. A failed
  write is sticky: later writes are refused, and only the exit hook may write once more,
  showing every operation as incomplete. Observations are a matter of the Rust runtime and no step here.

  The recording of inputs takes no session lock. It is still one step here: the assignment is followed at once by the
  thread's own wait for the persist lock, which every snapshot holds, and it replaces one field of one operation.
 */
module Persistence {
  import opened Wrappers
  import opened CaptureModel
  import opened SessionSpec
  import opened SessionLaws
  import opened Settlement

  type Thread = nat

  /** Where a thread stands. `op` names the operation whose `Complete` is waiting for the write. */
  datatype Phase =
    | Idle
    | Wanting(op: Option<nat>)
    | Holding(op: Option<nat>)
    | Writing(op: Option<nat>, shot: Shot)
    | ExitClean
    | ExitPoisoned
    | HoldingUntrusted

  /** A projection, with the position in the history of the state it projects. */
  datatype Shot = Shot(version: nat, untrusted: bool, capture: Capture)

  /** `marked`: the failure marker has been printed for the command line tool to find. */
  datatype World = World(
    history: seq<Session>,
    phases: map<Thread, Phase>,
    gate: Option<Thread>,
    failedAt: Option<nat>,
    writes: seq<Shot>,
    returned: set<nat>,
    marked: bool)

  ghost function Now(w: World): Session
    requires w.history != []
  {
    w.history[|w.history| - 1]
  }

  ghost function PhaseOf(w: World, t: Thread): Phase { if t in w.phases then w.phases[t] else Idle }

  ghost predicate Inside(p: Phase) { p.Holding? || p.Writing? || p.HoldingUntrusted? }

  datatype Step =
    | Act(t: Thread, action: Action)
    | Enter(t: Thread)
    | Shoot(t: Thread)
    | ShotFails(t: Thread)
    | Write(t: Thread, ok: bool)
    | ExitCheck(t: Thread, printed: bool)
    | ExitFlush(t: Thread)

  ghost predicate Can(w: World, step: Step)
    requires w.history != []
  {
    match step
    case Act(t, action) => PhaseOf(w, t).Idle? && !action.DoObserve? && Enabled(Now(w), action)
    case Enter(t) => (PhaseOf(w, t).Wanting? || PhaseOf(w, t).ExitPoisoned?) && w.gate.None?
    case Shoot(t) => PhaseOf(w, t).Holding? || PhaseOf(w, t).HoldingUntrusted?
    case ShotFails(t) => PhaseOf(w, t).Holding? || PhaseOf(w, t).HoldingUntrusted?
    case Write(t, _) => PhaseOf(w, t).Writing?
    case ExitCheck(t, _) => PhaseOf(w, t).Idle? && w.gate.None?
    case ExitFlush(t) => PhaseOf(w, t).ExitClean?
  }

  ghost function Do(w: World, step: Step): World
    requires w.history != [] && Can(w, step)
  {
    match step
    case Act(t, action) =>
      // `Complete` and `RecordInputs` go on to persist, the latter also when it recorded nothing; `Begin` does not.
      var phase := if action.DoComplete? then Wanting(Some(action.i))
                   else if action.DoInputs? || action.DoSnapshot? then Wanting(None) else Idle;
      w.(history := w.history + [Apply(Now(w), action)], phases := w.phases[t := phase])
    case Enter(t) =>
      if PhaseOf(w, t).ExitPoisoned? then w.(phases := w.phases[t := HoldingUntrusted], gate := Some(t))
      else if w.failedAt.Some? then w.(phases := w.phases[t := Idle])
      else w.(phases := w.phases[t := Holding(PhaseOf(w, t).op)], gate := Some(t))
    case Shoot(t) =>
      var untrusted := PhaseOf(w, t).HoldingUntrusted?;
      var op := if untrusted then None else PhaseOf(w, t).op;
      w.(phases := w.phases[t := Writing(op, Shot(|w.history| - 1, untrusted, Project(Now(w), untrusted)))])
    case ShotFails(t) =>
      // The clock overflows while projecting: nothing is written and no failure is remembered.
      w.(phases := w.phases[t := Idle], gate := None)
    case Write(t, ok) =>
      var p := PhaseOf(w, t);
      var out := w.(phases := w.phases[t := Idle], gate := None);
      if ok then
        out.(writes := w.writes + [p.shot], returned := if p.op.Some? then w.returned + {p.op.value} else w.returned)
      else if p.shot.untrusted then out
      else out.(failedAt := Some(|w.writes|))
    case ExitCheck(t, printed) =>
      if w.failedAt.Some? then w.(phases := w.phases[t := ExitPoisoned], marked := w.marked || printed)
      else w.(phases := w.phases[t := ExitClean])
    case ExitFlush(t) => w.(phases := w.phases[t := if AllTerminated(Now(w)) then Idle else Wanting(None)])
  }

  ghost function Initial(config: Config): World {
    World([Start(config)], map[], None, None, [], {}, false)
  }

  ghost predicate Possible(w: World, steps: seq<Step>)
    decreases |steps|
  {
    w.history != [] && (steps == [] || (Can(w, steps[0]) && Possible(Do(w, steps[0]), steps[1..])))
  }

  ghost function Reached(w: World, steps: seq<Step>): World
    requires Possible(w, steps)
    decreases |steps|
  {
    if steps == [] then w else Reached(Do(w, steps[0]), steps[1..])
  }

  // ---------------------------------------------------------------- the invariant

  /** Session states only ever move forward. */
  ghost predicate Monotone(history: seq<Session>) {
    && history != [] && ValidConfig(history[0].config)
    && forall i, j | 0 <= i <= j < |history| :: Extends(history[j], history[i])
  }

  ghost predicate Terminated(s: Session, op: nat) {
    op < |s.operations| && !Open(s.operations[op])
  }

  ghost predicate GoodShot(w: World, shot: Shot) {
    shot.version < |w.history| && shot.capture == Project(w.history[shot.version], shot.untrusted)
  }

  ghost predicate GateHeld(w: World) {
    forall t: Thread :: Inside(PhaseOf(w, t)) <==> w.gate == Some(t)
  }

  ghost predicate GoodPhase(w: World, p: Phase)
    requires w.history != []
  {
    match p
    case Idle => true
    case Wanting(op) => op.Some? ==> Terminated(Now(w), op.value)
    case Holding(op) => w.failedAt.None? && (op.Some? ==> Terminated(Now(w), op.value))
    case Writing(op, shot) =>
      && GoodShot(w, shot) && (shot.untrusted <==> w.failedAt.Some?)
      && (w.writes != [] ==> w.writes[|w.writes| - 1].version <= shot.version)
      && (op.Some? ==> !shot.untrusted && Terminated(w.history[shot.version], op.value))
    case ExitClean => true
    case ExitPoisoned => w.failedAt.Some?
    case HoldingUntrusted => w.failedAt.Some?
  }

  /** Writes move forward; before the failure they are trusted, from it on they are not. */
  ghost predicate GoodWrites(w: World) {
    && (forall k | 0 <= k < |w.writes| :: GoodShot(w, w.writes[k]))
    && (forall k, l | 0 <= k < l < |w.writes| :: w.writes[k].version <= w.writes[l].version)
    && (w.failedAt.Some? ==> w.failedAt.value <= |w.writes|)
    && (forall k | 0 <= k < |w.writes| :: w.writes[k].untrusted <==> w.failedAt.Some? && w.failedAt.value <= k)
  }

  /** Until a write fails, an operation whose `Complete` returned has terminated in the last written state. */
  ghost predicate ReturnsAreWritten(w: World)
    requires forall k | 0 <= k < |w.writes| :: w.writes[k].version < |w.history|
  {
    w.failedAt.None? ==> forall op | op in w.returned ::
      w.writes != [] && Terminated(w.history[w.writes[|w.writes| - 1].version], op)
  }

  ghost predicate Inv(w: World) {
    && Monotone(w.history)
    && GateHeld(w)
    && (forall t: Thread :: GoodPhase(w, PhaseOf(w, t)))
    && GoodWrites(w)
    && ReturnsAreWritten(w)
  }

  lemma InitialInv(config: Config)
    requires ValidConfig(config)
    ensures Inv(Initial(config))
  {
  }

  lemma TerminatedStays(later: Session, earlier: Session, op: nat)
    requires Extends(later, earlier) && Terminated(earlier, op)
    ensures Terminated(later, op)
    ensures later.operations[op].completion == earlier.operations[op].completion
    ensures later.operations[op].end == earlier.operations[op].end
    ensures later.operations[op].status == earlier.operations[op].status
  {
    assert SameOperation(later.operations[op], earlier.operations[op]);
  }

  lemma HistoryGrows(history: seq<Session>, a: Action)
    requires Monotone(history) && Enabled(history[|history| - 1], a)
    ensures Monotone(history + [Apply(history[|history| - 1], a)])
  {
    var now := history[|history| - 1];
    var next := Apply(now, a);
    assert Extends(now, history[0]);
    ApplyExtends(now, a);
    forall i | 0 <= i < |history| ensures Extends(next, history[i]) {
      ExtendsTransitive(history[i], now, next);
    }
    assert Extends(next, next);
  }

  /** `r` is `w` one session state later. */
  ghost predicate Advanced(w: World, r: World, next: Session) {
    && w.history != [] && Extends(next, Now(w))
    && r == w.(history := w.history + [next], phases := r.phases)
  }

  lemma AdvancedPhase(w: World, r: World, next: Session, p: Phase)
    requires Advanced(w, r, next) && GoodPhase(w, p)
    ensures GoodPhase(r, p)
  {
    if (p.Wanting? || p.Holding?) && p.op.Some? {
      TerminatedStays(next, Now(w), p.op.value);
    }
    hide Extends, Project;
    assert Now(r) == next;
  }

  lemma AdvancedWrites(w: World, r: World, next: Session)
    requires Advanced(w, r, next) && GoodWrites(w) && ReturnsAreWritten(w)
    ensures GoodWrites(r) && ReturnsAreWritten(r)
  {
    hide Extends, Project;
    assert forall k | 0 <= k < |w.writes| :: GoodShot(w, w.writes[k]);
    assert forall k | 0 <= k < |w.history| :: r.history[k] == w.history[k];
  }

  lemma ActAdvances(w: World, t: Thread, a: Action)
    requires Inv(w) && Can(w, Act(t, a))
    ensures var r := Do(w, Act(t, a));
            && r.history != [] && Monotone(r.history) && Enabled(Now(w), a)
            && Advanced(w, r, Apply(Now(w), a)) && GoodPhase(r, PhaseOf(r, t))
  {
    assert Extends(Now(w), w.history[0]);
    ApplyExtends(Now(w), a);
    HistoryGrows(w.history, a);
    var next := Apply(Now(w), a);
    var r := Do(w, Act(t, a));
    assert Now(r) == next && (a.DoComplete? ==> Terminated(next, a.i));
  }

  lemma ActInv(w: World, t: Thread, a: Action)
    requires Inv(w) && Can(w, Act(t, a))
    ensures Inv(Do(w, Act(t, a)))
  {
    assert w.history != [];
    hide Extends, Apply, Enabled, GoodPhase, Monotone, GoodWrites, ReturnsAreWritten, Advanced;
    var next := Apply(Now(w), a);
    var r := Do(w, Act(t, a));
    ActAdvances(w, t, a);
    AdvancedWrites(w, r, next);
    forall u: Thread
      ensures GoodPhase(r, PhaseOf(r, u))
      ensures Inside(PhaseOf(r, u)) <==> r.gate == Some(u)
    {
      if u != t {
        AdvancedPhase(w, r, next, PhaseOf(w, u));
      }
      assert Inside(PhaseOf(w, u)) <==> w.gate == Some(u);
    }
  }

  /**
    A step that leaves the history, the failure flag and the writes alone only has to justify its thread's new phase.
   */
  lemma PhaseInv(w: World, r: World, t: Thread, p: Phase)
    requires Inv(w) && r == w.(phases := w.phases[t := p], gate := r.gate, marked := r.marked)
    requires GoodPhase(w, p)
    requires if Inside(p) then r.gate == Some(t) && (w.gate.None? || w.gate == Some(t))
             else if w.gate == Some(t) then r.gate.None? else r.gate == w.gate
    ensures Inv(r)
  {
    assert w.history != [];
    SameWrites(w, r);
    hide Monotone, Project, GoodWrites, ReturnsAreWritten;
    forall u: Thread ensures GoodPhase(r, PhaseOf(r, u)) {
      SamePhase(w, r, PhaseOf(w, u));
      SamePhase(w, r, p);
    }
    hide GoodPhase;
    forall u: Thread ensures Inside(PhaseOf(r, u)) <==> r.gate == Some(u) {
      assert Inside(PhaseOf(w, u)) <==> w.gate == Some(u);
    }
  }

  lemma SamePhase(w: World, r: World, p: Phase)
    requires w.history != [] && r == w.(phases := r.phases, gate := r.gate, marked := r.marked)
    ensures GoodPhase(r, p) <==> GoodPhase(w, p)
  {
  }

  lemma SameWrites(w: World, r: World)
    requires GoodWrites(w) && ReturnsAreWritten(w) && r == w.(phases := r.phases, gate := r.gate, marked := r.marked)
    ensures GoodWrites(r) && ReturnsAreWritten(r)
  {
    assert forall k | 0 <= k < |w.writes| :: GoodShot(w, w.writes[k]);
  }

  lemma ShootInv(w: World, t: Thread)
    requires Inv(w) && Can(w, Shoot(t))
    ensures Inv(Do(w, Shoot(t)))
  {
    var r := Do(w, Shoot(t));
    assert GoodPhase(w, PhaseOf(w, t)) && Inside(PhaseOf(w, t));
    PhaseInv(w, r, t, PhaseOf(r, t));
  }

  lemma WriteInv(w: World, t: Thread, ok: bool)
    requires Inv(w) && Can(w, Write(t, ok))
    ensures Inv(Do(w, Write(t, ok)))
  {
    hide Monotone, Project;
    var r := Do(w, Write(t, ok));
    var p := PhaseOf(w, t);
    assert GoodPhase(w, p) && Inside(p) && w.gate == Some(t);
    forall u: Thread ensures GoodPhase(r, PhaseOf(r, u)) && !Inside(PhaseOf(r, u)) {
      assert GoodPhase(w, PhaseOf(w, u));
      assert Inside(PhaseOf(w, u)) <==> w.gate == Some(u);
    }
    WriteKeepsReturns(w, t, ok);
  }

  /** A later trusted write still shows every operation an earlier one showed as terminated. */
  lemma WriteKeepsReturns(w: World, t: Thread, ok: bool)
    requires Inv(w) && Can(w, Write(t, ok))
    ensures var r := Do(w, Write(t, ok)); GoodWrites(r) && ReturnsAreWritten(r)
  {
    hide Project;
    var r := Do(w, Write(t, ok));
    var p := PhaseOf(w, t);
    assert GoodPhase(w, p);
    if ok && w.failedAt.None? {
      forall op | op in w.returned ensures Terminated(w.history[p.shot.version], op) {
        var last := w.writes[|w.writes| - 1].version;
        assert Extends(w.history[p.shot.version], w.history[last]);
        TerminatedStays(w.history[p.shot.version], w.history[last], op);
      }
    }
  }

  lemma StepInv(w: World, step: Step)
    requires Inv(w) && Can(w, step)
    ensures Inv(Do(w, step))
  {
    assert w.history != [];
    hide Apply, Enabled, Extends, Project, Terminated, GoodWrites, ReturnsAreWritten, Monotone;
    match step
    case Act(t, a) => ActInv(w, t, a);
    case Enter(t) =>
      assert GoodPhase(w, PhaseOf(w, t));
      PhaseInv(w, Do(w, step), t, PhaseOf(Do(w, step), t));
    case Shoot(t) => ShootInv(w, t);
    case ShotFails(t) => PhaseInv(w, Do(w, step), t, Idle);
    case Write(t, ok) => WriteInv(w, t, ok);
    case ExitCheck(t, _) => PhaseInv(w, Do(w, step), t, PhaseOf(Do(w, step), t));
    case ExitFlush(t) => PhaseInv(w, Do(w, step), t, PhaseOf(Do(w, step), t));
  }

  lemma {:induction false} RunInv(w: World, steps: seq<Step>)
    requires Inv(w) && Possible(w, steps)
    ensures Inv(Reached(w, steps))
    decreases |steps|
  {
    if steps != [] {
      StepInv(w, steps[0]);
      RunInv(Do(w, steps[0]), steps[1..]);
    }
  }

  // ---------------------------------------------------------------- what the protocol guarantees

  /** Sidecar contents only move forward in session state, in every interleaving. */
  lemma WritesMoveForward(config: Config, steps: seq<Step>, k: nat, l: nat)
    requires ValidConfig(config) && Possible(Initial(config), steps)
    requires var w := Reached(Initial(config), steps); k <= l < |w.writes|
    ensures var w := Reached(Initial(config), steps);
            && w.writes[k].version <= w.writes[l].version < |w.history|
            && w.writes[k].capture == Project(w.history[w.writes[k].version], w.writes[k].untrusted)
            && Extends(w.history[w.writes[l].version], w.history[w.writes[k].version])
  {
    InitialInv(config);
    RunInv(Initial(config), steps);
    hide Project, Extends, Possible, Reached, ValidConfig, Initial;
    var w := Reached(Initial(config), steps);
    assert GoodShot(w, w.writes[k]) && GoodShot(w, w.writes[l]);
  }

  /**
    Until a write fails, the last written sidecar shows the real outcome of every operation whose `Complete` returned.
   */
  lemma ReturnedOutcomesAreWritten(config: Config, steps: seq<Step>, op: nat)
    requires ValidConfig(config) && Possible(Initial(config), steps)
    requires var w := Reached(Initial(config), steps); w.failedAt.None? && op in w.returned
    ensures var w := Reached(Initial(config), steps);
            && w.writes != [] && w.history != []
            && var shown, actual := w.writes[|w.writes| - 1].capture.operations, Now(w).operations;
            && op < |shown| && op < |actual| && !Open(actual[op])
            && shown[op].spanId == actual[op].spanId && shown[op].completion == actual[op].completion
            && shown[op].end == actual[op].end && Some(shown[op].status) == actual[op].status
  {
    InitialInv(config);
    RunInv(Initial(config), steps);
    var w := Reached(Initial(config), steps);
    var last := w.writes[|w.writes| - 1];
    assert GoodShot(w, last);
    assert Extends(Now(w), w.history[last.version]);
    TerminatedStays(Now(w), w.history[last.version], op);
    ProjectionShows(w.history[last.version], 0, false, op);
    assert SameOperation(Now(w).operations[op], w.history[last.version].operations[op]);
  }

  /** From the first failed write on, every write shows every operation as incomplete, and none of them is evidence. */
  lemma FailureIsFinal(config: Config, steps: seq<Step>, k: nat, marker: bool, success: bool)
    requires ValidConfig(config) && Possible(Initial(config), steps)
    requires var w := Reached(Initial(config), steps);
             w.failedAt.Some? && w.failedAt.value <= k < |w.writes|
    ensures var shot := Reached(Initial(config), steps).writes[k];
            && (forall i | 0 <= i < |shot.capture.operations| :: HasFault(shot.capture.operations[i], INCOMPLETE_FAULT))
            && !Settle(config, marker, success, Document(shot.capture)).Captured?
  {
    InitialInv(config);
    RunInv(Initial(config), steps);
    var w := Reached(Initial(config), steps);
    var shot := w.writes[k];
    assert GoodShot(w, shot) && shot.untrusted;
    var s := w.history[shot.version];
    SameFault();
    hide INCOMPLETE, INCOMPLETE_FAULT;
    forall i | 0 <= i < |shot.capture.operations| ensures HasFault(shot.capture.operations[i], INCOMPLETE_FAULT) {
      ProjectionShows(s, 0, true, i);
    }
    UntrustedIsNoEvidence(config, marker, success, s);
  }

  /** A sidecar accepted as evidence is the capture of one session state in which every operation had terminated. */
  lemma EvidenceIsComplete(config: Config, steps: seq<Step>, k: nat, marker: bool, success: bool)
    requires ValidConfig(config) && Possible(Initial(config), steps)
    requires k < |Reached(Initial(config), steps).writes|
    requires Settle(config, marker, success, Document(Reached(Initial(config), steps).writes[k].capture)).Captured?
    ensures var w := Reached(Initial(config), steps);
            && (w.failedAt.Some? ==> k < w.failedAt.value)
            && w.writes[k].version < |w.history|
            && Evidence(w.history[w.writes[k].version])
            && w.writes[k].capture == Build(w.history[w.writes[k].version])
  {
    InitialInv(config);
    RunInv(Initial(config), steps);
    var w := Reached(Initial(config), steps);
    var shot := w.writes[k];
    assert GoodShot(w, shot);
    if shot.untrusted {
      UntrustedIsNoEvidence(config, marker, success, w.history[shot.version]);
    } else {
      SameConfig(config, steps);
      TrustedIsEvidence(config, marker, success, w.history[shot.version]);
    }
  }

  lemma {:induction false} KeepsConfig(w: World, steps: seq<Step>)
    requires Inv(w) && Possible(w, steps)
    ensures Reached(w, steps).history != [] && Reached(w, steps).history[0] == w.history[0]
    decreases |steps|
  {
    if steps != [] {
      StepInv(w, steps[0]);
      KeepsConfig(Do(w, steps[0]), steps[1..]);
    }
  }

  lemma SameConfig(config: Config, steps: seq<Step>)
    requires ValidConfig(config) && Possible(Initial(config), steps)
    ensures forall s <- Reached(Initial(config), steps).history :: s.config == config
  {
    InitialInv(config);
    KeepsConfig(Initial(config), steps);
    RunInv(Initial(config), steps);
    var history := Reached(Initial(config), steps).history;
    forall s <- history ensures s.config == config {
      var i :| 0 <= i < |history| && history[i] == s;
      assert Extends(history[i], history[0]);
    }
  }
}
