/**
  That the persistence protocol does write: every completion is on its way to the sidecar or in it, a sidecar at rest
  lacks nothing but operations begun since, the exit hook shows what is still open, and a failure is always marked.
 */
module PersistenceProgress {
  import opened Wrappers
  import opened CaptureModel
  import opened SessionSpec
  import opened SessionLaws
  import opened Settlement
  import opened Persistence

  /** The projection of a snapshot never overflows the clock. */
  ghost predicate NoShotFails(steps: seq<Step>) {
    forall i | 0 <= i < |steps| :: !steps[i].ShotFails?
  }

  /** A failure is never forgotten. */
  lemma FailureStays(w: World, step: Step)
    requires w.history != [] && Can(w, step) && w.failedAt.Some?
    ensures Do(w, step).failedAt.Some?
  {
    hide Apply, Enabled, Project;
  }

  lemma {:induction false} NoFailureBefore(w: World, steps: seq<Step>)
    requires Possible(w, steps) && Reached(w, steps).failedAt.None?
    ensures w.failedAt.None?
    decreases |steps|
  {
    hide Can, Do;
    if steps != [] {
      NoFailureBefore(Do(w, steps[0]), steps[1..]);
      if w.failedAt.Some? {
        FailureStays(w, steps[0]);
      }
    }
  }

  // ---------------------------------------------------------------- every completion is accounted for

  /** The thread is on its way to writing this operation's completion. */
  ghost predicate Carries(p: Phase, op: nat) {
    (p.Wanting? || p.Holding? || p.Writing?) && p.op == Some(op)
  }

  ghost predicate Accounted(w: World, op: nat) {
    op in w.returned || exists t: Thread :: Carries(PhaseOf(w, t), op)
  }

  ghost predicate AllAccounted(w: World)
    requires w.history != []
  {
    forall op | Terminated(Now(w), op) :: Accounted(w, op)
  }

  /** Only a completion terminates an operation. */
  lemma TerminatedBy(s: Session, a: Action, op: nat)
    requires Enabled(s, a) && Terminated(Apply(s, a), op) && !Terminated(s, op)
    ensures a.DoComplete? && a.i == op
  {
    hide IsNextId, KnownParent;
  }

  lemma OtherPhase(w: World, step: Step, u: Thread)
    requires w.history != [] && Can(w, step) && u != step.t
    ensures PhaseOf(Do(w, step), u) == PhaseOf(w, u)
  {
    hide Project, AllTerminated, Apply, Enabled;
  }

  /** A thread that carries a completion goes on carrying it, or has returned. */
  lemma CarriesOn(w: World, step: Step, op: nat)
    requires w.history != [] && Can(w, step) && GoodPhase(w, PhaseOf(w, step.t))
    requires !step.ShotFails? && Do(w, step).failedAt.None? && Carries(PhaseOf(w, step.t), op)
    ensures op in Do(w, step).returned || Carries(PhaseOf(Do(w, step), step.t), op)
  {
    hide Project, AllTerminated, Apply, Enabled, Terminated;
  }

  lemma ReturnedStays(w: World, step: Step, op: nat)
    requires w.history != [] && Can(w, step) && op in w.returned
    ensures op in Do(w, step).returned
  {
    hide Project, AllTerminated, Apply, Enabled;
  }

  lemma StillAccounted(w: World, step: Step, op: nat)
    requires Inv(w) && Can(w, step) && !step.ShotFails? && Do(w, step).failedAt.None?
    requires Accounted(w, op)
    ensures Accounted(Do(w, step), op)
  {
    assert w.history != [];
    assert forall t: Thread :: GoodPhase(w, PhaseOf(w, t));
    hide Inv, Can, Do, PhaseOf, Carries, GoodPhase;
    if op in w.returned {
      ReturnedStays(w, step, op);
    } else {
      var t: Thread :| Carries(PhaseOf(w, t), op);
      if t == step.t {
        CarriesOn(w, step, op);
      } else {
        OtherPhase(w, step, t);
      }
    }
  }

  lemma CompletionCarries(w: World, t: Thread, a: Action)
    requires w.history != [] && Can(w, Act(t, a)) && a.DoComplete?
    ensures Carries(PhaseOf(Do(w, Act(t, a)), t), a.i)
  {
  }

  lemma StepAccounts(w: World, step: Step)
    requires Inv(w) && Can(w, step) && !step.ShotFails? && Do(w, step).failedAt.None?
    requires w.history != [] && AllAccounted(w)
    ensures Do(w, step).history != [] && AllAccounted(Do(w, step))
  {
    var r := Do(w, step);
    assert step.Act? ==> Enabled(Now(w), step.action) && Now(r) == Apply(Now(w), step.action);
    assert !step.Act? ==> r.history == w.history;
    hide Project, AllTerminated, Terminated, Accounted, Inv, Do, Can, Apply, Enabled;
    forall op | Terminated(Now(r), op)
      ensures Accounted(r, op)
    {
      if Terminated(Now(w), op) {
        StillAccounted(w, step, op);
      } else {
        TerminatedBy(Now(w), step.action, op);
        CompletionCarries(w, step.t, step.action);
        CarriedIsAccounted(r, step.t, op);
      }
    }
  }

  lemma CarriedIsAccounted(w: World, t: Thread, op: nat)
    requires Carries(PhaseOf(w, t), op)
    ensures Accounted(w, op)
  {
  }

  lemma {:induction false} RunAccounts(w: World, steps: seq<Step>)
    requires Inv(w) && Possible(w, steps) && NoShotFails(steps) && Reached(w, steps).failedAt.None?
    requires AllAccounted(w)
    ensures Reached(w, steps).history != [] && AllAccounted(Reached(w, steps))
    decreases |steps|
  {
    hide Inv, Can, Do, AllAccounted;
    if steps != [] {
      NoFailureBefore(Do(w, steps[0]), steps[1..]);
      StepInv(w, steps[0]);
      StepAccounts(w, steps[0]);
      assert forall i | 0 <= i < |steps[1..]| :: steps[1..][i] == steps[i + 1];
      RunAccounts(Do(w, steps[0]), steps[1..]);
    }
  }

  /**
    No completion goes unwritten: in every interleaving without a failure, an operation that has terminated has returned
    from its completion, and so is in the last sidecar, or some thread is still on its way to writing it.
   */
  lemma CompletionsArePersisted(config: Config, steps: seq<Step>, op: nat)
    requires ValidConfig(config) && Possible(Initial(config), steps) && NoShotFails(steps)
    requires var w := Reached(Initial(config), steps);
             w.failedAt.None? && w.history != [] && Terminated(Now(w), op)
    ensures var w := Reached(Initial(config), steps);
            op in w.returned || exists t: Thread :: Carries(PhaseOf(w, t), op)
  {
    InitialInv(config);
    RunAccounts(Initial(config), steps);
  }

  // ---------------------------------------------------------------- a sidecar at rest is current

  /** The history position up to which the sidecar owes the session, after a step. */
  ghost function NextDue(w: World, step: Step, due: nat): nat
    requires w.history != []
  {
    match step
    case Act(_, action) => if action.DoBegin? then due else |w.history|
    case ExitFlush(_) => if AllTerminated(Now(w)) then due else |w.history| - 1
    case _ => due
  }

  ghost function DueAfter(w: World, steps: seq<Step>, due: nat): nat
    requires Possible(w, steps)
    decreases |steps|
  {
    if steps == [] then due else DueAfter(Do(w, steps[0]), steps[1..], NextDue(w, steps[0], due))
  }

  /** A thread that will write a state no older than `due`, unless the write fails. */
  ghost predicate Delivers(p: Phase, due: nat) {
    p.Wanting? || p.Holding? || (p.Writing? && due <= p.shot.version)
  }

  ghost predicate Delivered(w: World, due: nat) {
    due == 0 || (w.writes != [] && due <= w.writes[|w.writes| - 1].version)
  }

  ghost predicate Covered(w: World, due: nat) {
    Delivered(w, due) || exists t: Thread :: Delivers(PhaseOf(w, t), due)
  }

  /** `later` is `earlier` with operations begun since, all of them open, or the same state. */
  ghost predicate MoreBegun(earlier: Session, later: Session) {
    && earlier.operations <= later.operations
    && (forall i | |earlier.operations| <= i < |later.operations| :: Open(later.operations[i]))
    && (earlier.operations == later.operations ==> earlier == later)
  }

  /** Since position `due` nothing but begins has happened. */
  ghost predicate OnlyBegun(history: seq<Session>, due: nat) {
    && due < |history|
    && forall j, k | due <= j <= k < |history| :: MoreBegun(history[j], history[k])
  }

  lemma ActCovers(w: World, t: Thread, a: Action, due: nat)
    requires w.history != [] && Can(w, Act(t, a)) && Covered(w, due)
    ensures Covered(Do(w, Act(t, a)), NextDue(w, Act(t, a), due))
  {
    hide Apply, Enabled;
    var r := Do(w, Act(t, a));
    if !a.DoBegin? {
      assert Delivers(PhaseOf(r, t), |w.history|);
    } else if !Delivered(w, due) {
      var u: Thread :| Delivers(PhaseOf(w, u), due);
      assert Delivers(PhaseOf(r, u), due);
    }
  }

  /** A thread that delivers goes on delivering, or has delivered. */
  lemma GoesOn(w: World, step: Step, due: nat)
    requires due < |w.history| && Can(w, step) && GoodPhase(w, PhaseOf(w, step.t))
    requires !step.ShotFails? && Do(w, step).failedAt.None? && Delivers(PhaseOf(w, step.t), due)
    ensures Delivered(Do(w, step), due) || Delivers(PhaseOf(Do(w, step), step.t), due)
  {
    hide Project, AllTerminated, Terminated, Apply, Enabled;
  }

  /** What has been delivered stays delivered. */
  lemma StaysDelivered(w: World, step: Step, due: nat)
    requires w.history != [] && Can(w, step) && GoodPhase(w, PhaseOf(w, step.t)) && Delivered(w, due)
    ensures Delivered(Do(w, step), due)
  {
    hide Project, AllTerminated, Terminated, Apply, Enabled;
  }

  lemma FlushDelivers(w: World, t: Thread, due: nat)
    requires w.history != [] && Can(w, ExitFlush(t)) && !AllTerminated(Now(w))
    ensures Delivers(PhaseOf(Do(w, ExitFlush(t)), t), due)
  {
  }

  lemma OtherCovers(w: World, step: Step, due: nat)
    requires Inv(w) && Can(w, step) && !step.ShotFails? && !step.Act? && Do(w, step).failedAt.None?
    requires due < |w.history| && Covered(w, due)
    ensures Covered(Do(w, step), NextDue(w, step, due))
  {
    assert w.history != [];
    var r, t := Do(w, step), step.t;
    assert GoodPhase(w, PhaseOf(w, t));
    hide Can, Do, AllTerminated, Inv, Delivers, Delivered, PhaseOf, GoodPhase;
    if step.ExitFlush? && !AllTerminated(Now(w)) {
      FlushDelivers(w, t, |w.history| - 1);
    } else if Delivered(w, due) {
      StaysDelivered(w, step, due);
    } else {
      var u: Thread :| Delivers(PhaseOf(w, u), due);
      if u == t {
        GoesOn(w, step, due);
      } else {
        OtherPhase(w, step, u);
      }
      assert Delivered(r, due) || Delivers(PhaseOf(r, u), due);
    }
  }

  lemma BeginsOnly(history: seq<Session>, a: Action, due: nat)
    requires OnlyBegun(history, due) && a.DoBegin? && Enabled(history[|history| - 1], a)
    ensures OnlyBegun(history + [Apply(history[|history| - 1], a)], due)
  {
    var last := history[|history| - 1];
    var next := Apply(last, a);
    assert MoreBegun(last, next) && |last.operations| < |next.operations|;
    hide Enabled, Apply;
    var r := history + [next];
    forall j, k | due <= j <= k < |r|
      ensures MoreBegun(r[j], r[k])
    {
      if j < |history| {
        assert MoreBegun(history[j], last);
      }
    }
  }

  lemma StepCovers(w: World, step: Step, due: nat)
    requires Inv(w) && Can(w, step) && !step.ShotFails? && Do(w, step).failedAt.None?
    requires Covered(w, due) && OnlyBegun(w.history, due)
    ensures var r, later := Do(w, step), NextDue(w, step, due); Covered(r, later) && OnlyBegun(r.history, later)
  {
    hide Inv, Covered;
    if step.Act? {
      ActCovers(w, step.t, step.action, due);
      if step.action.DoBegin? {
        BeginsOnly(w.history, step.action, due);
      }
    } else {
      OtherCovers(w, step, due);
      assert Do(w, step).history == w.history;
    }
  }

  lemma {:induction false} RunCovers(w: World, steps: seq<Step>, due: nat)
    requires Inv(w) && Possible(w, steps) && NoShotFails(steps) && Reached(w, steps).failedAt.None?
    requires Covered(w, due) && OnlyBegun(w.history, due)
    ensures var r, later := Reached(w, steps), DueAfter(w, steps, due); Covered(r, later) && OnlyBegun(r.history, later)
    decreases |steps|
  {
    hide Inv, Covered, OnlyBegun, Can, Do, NextDue;
    if steps != [] {
      NoFailureBefore(Do(w, steps[0]), steps[1..]);
      StepInv(w, steps[0]);
      StepCovers(w, steps[0], due);
      assert forall i | 0 <= i < |steps[1..]| :: steps[1..][i] == steps[i + 1];
      RunCovers(Do(w, steps[0]), steps[1..], NextDue(w, steps[0], due));
    }
  }

  /** No thread is on its way to a write. */
  ghost predicate AtRest(w: World) {
    forall t: Thread :: !(PhaseOf(w, t).Wanting? || PhaseOf(w, t).Holding? || PhaseOf(w, t).Writing?)
  }

  /** The state a sidecar shows, the empty one before the first write. */
  ghost function Shown(w: World): nat {
    if w.writes == [] then 0 else w.writes[|w.writes| - 1].version
  }

  /**
    A sidecar at rest: in every interleaving without a failure, once no thread is persisting, the last sidecar is the
    projection of a state that differs from the present one only by operations that have begun since and are still open.
   */
  lemma SidecarIsCurrent(config: Config, steps: seq<Step>)
    requires ValidConfig(config) && Possible(Initial(config), steps) && NoShotFails(steps)
    requires var w := Reached(Initial(config), steps); w.failedAt.None? && AtRest(w)
    ensures var w := Reached(Initial(config), steps);
            && Shown(w) < |w.history| && DueAfter(Initial(config), steps, 0) <= Shown(w)
            && (w.writes != [] ==> w.writes[|w.writes| - 1].capture == Project(w.history[Shown(w)], false))
            && MoreBegun(w.history[Shown(w)], Now(w))
  {
    hide Possible, Reached, Initial, DueAfter, Project, Inv, MoreBegun, AtRest, Covered, OnlyBegun;
    InitialInv(config);
    InitialCovers(config);
    RunInv(Initial(config), steps);
    RunCovers(Initial(config), steps, 0);
    RestingSidecar(Reached(Initial(config), steps), DueAfter(Initial(config), steps, 0));
  }

  lemma InitialCovers(config: Config)
    ensures Covered(Initial(config), 0) && OnlyBegun(Initial(config).history, 0)
  {
  }

  lemma RestingSidecar(w: World, due: nat)
    requires Inv(w) && w.failedAt.None? && AtRest(w) && Covered(w, due) && OnlyBegun(w.history, due)
    ensures Shown(w) < |w.history| && due <= Shown(w)
    ensures w.writes != [] ==> w.writes[|w.writes| - 1].capture == Project(w.history[Shown(w)], false)
    ensures MoreBegun(w.history[Shown(w)], Now(w))
  {
    LastShot(w);
    hide Inv, Project, MoreBegun;
    assert Delivered(w, due);
  }

  /** The last write of a world without a failure is a trusted projection of its state. */
  lemma LastShot(w: World)
    requires Inv(w) && w.failedAt.None?
    ensures Shown(w) < |w.history|
    ensures w.writes != [] ==> w.writes[|w.writes| - 1].capture == Project(w.history[Shown(w)], false)
  {
    if w.writes != [] {
      assert GoodShot(w, w.writes[|w.writes| - 1]);
    }
  }

  /** Once every operation has terminated and no thread is persisting, the sidecar is the finished capture. */
  lemma FinishedSidecar(config: Config, steps: seq<Step>)
    requires ValidConfig(config) && Possible(Initial(config), steps) && NoShotFails(steps)
    requires var w := Reached(Initial(config), steps);
             && w.failedAt.None? && AtRest(w)
             && w.history != [] && Now(w).operations != [] && AllTerminated(Now(w))
    ensures var w := Reached(Initial(config), steps);
            w.writes != [] && w.writes[|w.writes| - 1].capture == Build(Now(w))
  {
    SidecarIsCurrent(config, steps);
    FirstState(Initial(config), steps);
    var w := Reached(Initial(config), steps);
    hide Possible, Reached, DueAfter, Project, Build, AtRest, AllTerminated, MoreBegun;
    NoneBegun(w.history[Shown(w)], Now(w));
    NothingToClose(Now(w), 0);
    SameProjection(Now(w));
  }

  lemma NoneBegun(earlier: Session, later: Session)
    requires MoreBegun(earlier, later) && AllTerminated(later)
    ensures earlier == later
  {
    hide AllTerminated;
    if |earlier.operations| < |later.operations| {
      TerminatedAt(later, |earlier.operations|);
    }
  }

  lemma TerminatedAt(s: Session, i: nat)
    requires AllTerminated(s) && i < |s.operations|
    ensures !Open(s.operations[i])
  {
    assert s.operations[i] in s.operations;
  }

  lemma SameProjection(s: Session)
    requires AllTerminated(s) && CloseDown(s, 0, false) == s
    ensures Project(s, false) == Build(s)
  {
  }

  lemma {:induction false} FirstState(w: World, steps: seq<Step>)
    requires Possible(w, steps)
    ensures Reached(w, steps).history != [] && Reached(w, steps).history[0] == w.history[0]
    decreases |steps|
  {
    hide Apply, Enabled, Project, AllTerminated;
    if steps != [] {
      FirstState(Do(w, steps[0]), steps[1..]);
    }
  }

  // ---------------------------------------------------------------- the exit hook

  lemma {:induction false} RunsJoin(w: World, a: seq<Step>, b: seq<Step>, due: nat)
    requires Possible(w, a + b)
    ensures Possible(w, a) && Possible(Reached(w, a), b)
    ensures Reached(w, a + b) == Reached(Reached(w, a), b)
    ensures DueAfter(w, a + b, due) == DueAfter(Reached(w, a), b, DueAfter(w, a, due))
    decreases |a|
  {
    hide Can, Do, NextDue;
    if a == [] {
      assert a + b == b;
    } else {
      assert (a + b)[0] == a[0] && (a + b)[1..] == a[1..] + b;
      RunsJoin(Do(w, a[0]), a[1..], b, NextDue(w, a[0], due));
    }
  }

  /** Without an action the session stays, and nothing less falls due. */
  lemma {:induction false} NoActions(w: World, steps: seq<Step>, due: nat)
    requires Possible(w, steps) && (forall i | 0 <= i < |steps| :: !steps[i].Act?) && due < |w.history|
    ensures Reached(w, steps).history == w.history && due <= DueAfter(w, steps, due)
    decreases |steps|
  {
    hide Project, AllTerminated;
    if steps != [] {
      assert forall i | 0 <= i < |steps[1..]| :: steps[1..][i] == steps[i + 1];
      NoActions(Do(w, steps[0]), steps[1..], NextDue(w, steps[0], due));
    }
  }

  /**
    The last flush: when the process ends with operations outstanding, then after the exit hook the sidecar is the
    projection of the final state, with each of them shown as incomplete.
   */
  lemma ExitShowsOutstanding(config: Config, before: seq<Step>, t: Thread, after: seq<Step>)
    requires ValidConfig(config) && Possible(Initial(config), before + ([ExitFlush(t)] + after))
    requires NoShotFails(before + ([ExitFlush(t)] + after)) && forall i | 0 <= i < |after| :: !after[i].Act?
    requires var w := Reached(Initial(config), before + ([ExitFlush(t)] + after));
             w.failedAt.None? && AtRest(w) && w.history != [] && !AllTerminated(Now(w))
    ensures var w := Reached(Initial(config), before + ([ExitFlush(t)] + after));
            w.writes != [] && w.writes[|w.writes| - 1].capture == Project(Now(w), false)
  {
    var start, exit := Initial(config), [ExitFlush(t)] + after;
    SidecarIsCurrent(config, before + exit);
    FirstState(start, before + exit);
    RunsJoin(start, before, exit, 0);
    var w, r := Reached(start, before), Reached(start, before + exit);
    ExitKeepsSession(w, t, after);
    ExitFallsDue(w, t, after, DueAfter(start, before, 0));
    NothingBegun(config);
    hide Possible, Reached, DueAfter, Project, AtRest, AllTerminated, MoreBegun, NoShotFails;
    assert Shown(r) == |r.history| - 1;
  }

  lemma NothingBegun(config: Config)
    ensures AllTerminated(Start(config))
  {
  }

  lemma ExitKeepsSession(w: World, t: Thread, after: seq<Step>)
    requires Possible(w, [ExitFlush(t)] + after) && forall i | 0 <= i < |after| :: !after[i].Act?
    ensures w.history != [] && Reached(w, [ExitFlush(t)] + after).history == w.history
  {
    hide Project, AllTerminated;
    var exit := [ExitFlush(t)] + after;
    assert exit[0] == ExitFlush(t) && exit[1..] == after;
    NoActions(Do(w, ExitFlush(t)), after, 0);
  }

  lemma ExitFallsDue(w: World, t: Thread, after: seq<Step>, due: nat)
    requires Possible(w, [ExitFlush(t)] + after) && forall i | 0 <= i < |after| :: !after[i].Act?
    requires w.history != [] && !AllTerminated(Now(w))
    ensures DueAfter(w, [ExitFlush(t)] + after, due) >= |w.history| - 1
  {
    hide Project, AllTerminated;
    var exit := [ExitFlush(t)] + after;
    assert exit[0] == ExitFlush(t) && exit[1..] == after;
    NoActions(Do(w, ExitFlush(t)), after, |w.history| - 1);
  }

  // ---------------------------------------------------------------- the marker

  /** Some exit hook finds the failure and manages to print the marker. */
  ghost predicate Prints(w: World, steps: seq<Step>)
    requires Possible(w, steps)
    decreases |steps|
  {
    steps != [] &&
    ((steps[0].ExitCheck? && steps[0].printed && w.failedAt.Some?) || Prints(Do(w, steps[0]), steps[1..]))
  }

  lemma {:induction false} MarkedExactly(w: World, steps: seq<Step>)
    requires Possible(w, steps)
    ensures Reached(w, steps).marked <==> w.marked || Prints(w, steps)
    decreases |steps|
  {
    hide Apply, Enabled, Project, AllTerminated;
    if steps != [] {
      MarkedExactly(Do(w, steps[0]), steps[1..]);
    }
  }

  /** Once an exit hook has printed the marker, the batch stops, whatever the sidecar shows and the test reports. */
  lemma MarkedFailureStops(config: Config, steps: seq<Step>, success: bool, sidecar: Sidecar)
    requires Possible(Initial(config), steps) && Prints(Initial(config), steps)
    ensures Settle(config, Reached(Initial(config), steps).marked, success, sidecar).Stopped?
  {
    MarkedExactly(Initial(config), steps);
    SettlesExactly(config, true, success, sidecar);
  }

  // ---------------------------------------------------------------- runs of one thread

  lemma OneStep(w: World, step: Step, rest: seq<Step>)
    requires w.history != [] && Can(w, step) && Possible(Do(w, step), rest)
    ensures Possible(w, [step] + rest) && Reached(w, [step] + rest) == Reached(Do(w, step), rest)
  {
    assert ([step] + rest)[0] == step && ([step] + rest)[1..] == rest;
  }

  /** A thread that waits, with the lock free, writes what it finds. */
  lemma WriteRuns(w: World, t: Thread, untrusted: bool)
    requires w.history != [] && w.gate.None?
    requires if untrusted then PhaseOf(w, t).ExitPoisoned? else PhaseOf(w, t).Wanting? && w.failedAt.None?
    ensures var run := [Enter(t)] + ([Shoot(t)] + ([Write(t, true)] + []));
            && Possible(w, run)
            && var r := Reached(w, run);
            && r.history == w.history && r.marked == w.marked && PhaseOf(r, t).Idle? && r.gate.None?
            && r.writes == w.writes + [Shot(|w.history| - 1, untrusted, Project(Now(w), untrusted))]
            && (!untrusted && PhaseOf(w, t).op.Some? ==> PhaseOf(w, t).op.value in r.returned)
  {
    hide Project;
    var w1 := Do(w, Enter(t));
    var w2 := Do(w1, Shoot(t));
    var w3 := Do(w2, Write(t, true));
    assert Possible(w3, []) && Reached(w3, []) == w3;
    OneStep(w2, Write(t, true), []);
    OneStep(w1, Shoot(t), [Write(t, true)] + []);
    OneStep(w, Enter(t), [Shoot(t)] + ([Write(t, true)] + []));
  }

  /** Left alone, a completion goes through: the sidecar shows it and the thread has returned. */
  lemma CompletionRuns(w: World, t: Thread, a: Action)
    requires w.history != [] && w.failedAt.None? && w.gate.None? && Can(w, Act(t, a)) && a.DoComplete?
    ensures var run := [Act(t, a)] + ([Enter(t)] + ([Shoot(t)] + ([Write(t, true)] + [])));
            && Possible(w, run)
            && var r := Reached(w, run);
            && r.history != [] && Now(r) == Apply(Now(w), a) && a.i in r.returned
            && PhaseOf(r, t).Idle? && r.gate.None? && r.writes != []
            && r.writes[|r.writes| - 1].capture == Project(Now(r), false)
  {
    CompletionCarries(w, t, a);
    var w1 := Do(w, Act(t, a));
    assert w1.history == w.history + [Apply(Now(w), a)] && w1.gate.None? && w1.failedAt.None?;
    assert PhaseOf(w1, t).Wanting?;
    hide Do, Can, Project, Apply, Enabled, Possible, Reached;
    WriteRuns(w1, t, false);
    OneStep(w, Act(t, a), [Enter(t)] + ([Shoot(t)] + ([Write(t, true)] + [])));
  }

  /** Left alone, the exit hook of a failed session marks the failure and writes every operation as incomplete. */
  lemma PoisonedExitRuns(w: World, t: Thread)
    requires w.history != [] && w.failedAt.Some? && Can(w, ExitCheck(t, true))
    ensures var run := [ExitCheck(t, true)] + ([Enter(t)] + ([Shoot(t)] + ([Write(t, true)] + [])));
            && Possible(w, run)
            && var r := Reached(w, run);
            && r.history == w.history && r.marked && r.writes != []
            && r.writes[|r.writes| - 1].capture == Project(Now(w), true)
  {
    var w1 := Do(w, ExitCheck(t, true));
    assert w1.history == w.history && w1.gate.None? && PhaseOf(w1, t).ExitPoisoned? && w1.marked;
    hide Do, Can, Project, Possible, Reached;
    WriteRuns(w1, t, true);
    OneStep(w, ExitCheck(t, true), [Enter(t)] + ([Shoot(t)] + ([Write(t, true)] + [])));
  }
}
