/**
  A woven body against its original, run for run: the same ordinary instructions from the same data,
  the same outcome, one entry, one recording of the inputs, and one report of the outcome.
 */
module WovenRuns {
  import opened IlMachine
  import opened Weaver
  import opened WovenLayout
  import opened WovenMeaning

  /** What the recording calls of a woven body report about an outcome. */
  function Report<D>(b: Body, outcome: Outcome): Act<D> {
    match outcome
    case Returned(v) => if b.returnsValue then ReportedOk(v) else ReportedVoid
    case Threw(exn) => ReportedError(exn)
  }

  function Recorded<D>(b: Body, outcome: Outcome, log: seq<Act<D>>): Machine<D> {
    Done(outcome, [Entered, Inputs] + log + [Report(b, outcome)])
  }

  // ---------------------------------------------------------------- exceptions and leaves

  /** The woven state in which the exception has reached the added handler. */
  ghost predicate AtHandler<D>(code: Code<D>, b: Body, shape: Shape, exn: int, log: seq<Act<D>>, w: Machine<D>) {
    && w.Running? && w.pc == Moved(b, shape, |b.instrs|) && code.top(w.data) == exn
    && w.frames != [] && w.frames[|w.frames| - 1].pending == Handling(exn)
    && w.log == [Entered, Inputs] + log
  }

  lemma {:induction false} RaiseMoves<D(!new)>(code: Code<D>, b: Body, shape: Shape, next: Ref, at: nat, exn: int,
                                               h: nat, m: Machine<D>, vars: Vars)
    requires WellFormed(b, next) && Lawful(code)
    requires m.Running? && Original(b, m) && at < |b.instrs| && h <= |b.handlers|
    ensures var r := Raise(code, b, at, exn, h, m); r.Running? || r == Done(Threw(exn), m.log)
    ensures var r := Raise(code, b, at, exn, h, m);
            r.Running? ==>
              && Original(b, r)
              && Raise(code, Woven(b, shape, next), Moved(b, shape, at), exn, h, Image(b, shape, m, vars))
                 == Image(b, shape, r, vars)
    ensures Raise(code, b, at, exn, h, m).Done? ==>
              AtHandler(code, b, shape, exn, m.log,
                        Raise(code, Woven(b, shape, next), Moved(b, shape, at), exn, h, Image(b, shape, m, vars)))
  {
    var w, found := Woven(b, shape, next), FindHandler(code, b, at, exn, h);
    FindHandlerMoves(code, b, shape, next, at, exn, h);
    if found < |b.handlers| {
      RaiseInside(code, b, shape, next, at, exn, h, m, vars);
    } else {
      AppendedReferences(b, shape, next);
      AppendedAt(b, shape, next, 0);
      hide Moved, WovenInstrs, IndexOf, Distinct, WellFormed, FindHandler, Prune, HandlerRef, EpilogueRef;
    }
  }

  lemma RaiseInside<D(!new)>(code: Code<D>, b: Body, shape: Shape, next: Ref, at: nat, exn: int, h: nat, m: Machine<D>,
                             vars: Vars)
    requires WellFormed(b, next)
    requires && m.Running?
             && Original(b, m)
             && at < |b.instrs|
             && h <= |b.handlers|
             && FindHandler(code, b, at, exn, h) < |b.handlers|
    ensures var r := Raise(code, b, at, exn, h, m);
            && r.Running?
            && Original(b, r)
            && Raise(code, Woven(b, shape, next), Moved(b, shape, at), exn, h, Image(b, shape, m, vars))
               == Image(b, shape, r, vars)
  {
    hide Moved, WovenInstrs, Distinct, IndexOf, FindHandler, Prune, WovenHandler;
    var w, found := Woven(b, shape, next), FindHandler(code, b, at, exn, h);
    FindHandlerMoves(code, b, shape, next, at, exn, h);
    assert w.handlers[found] == b.handlers[found] && Resolves(b, b.handlers[found]);
    ReferencesMove(b, shape, next, b.handlers[found].start);
    var start := IndexOf(b.instrs, b.handlers[found].start);
    PruneMoves(b, shape, next, m.frames, start);
    WovenAt(b, shape, next, start);
    var r := Raise(code, b, at, exn, h, m);
    assert r.frames == Prune(b, m.frames, start) + [r.frames[|r.frames| - 1]];
  }

  lemma {:induction false} LeaveMoves<D(!new)>(code: Code<D>, b: Body, shape: Shape, next: Ref, at: nat, target: Ref,
                                               h: nat, m: Machine<D>, vars: Vars)
    requires WellFormed(b, next)
    requires m.Running? && Original(b, m) && at < |b.instrs| && h <= |b.handlers|
    requires LeaveFor(code, b, at, target, h, m).Running? && Has(b, target)
    ensures var r := LeaveFor(code, b, at, target, h, m);
            && Original(b, r)
            && LeaveFor(code, Woven(b, shape, next), Moved(b, shape, at), target, h, Image(b, shape, m, vars))
               == Image(b, shape, r, vars)
  {
    hide Moved, WovenInstrs, Distinct, IndexOf, FindFinally, Prune, WovenHandler;
    var w, goal := Woven(b, shape, next), IndexOf(b.instrs, target);
    var found := FindFinally(b, at, goal, h);
    ReferencesMove(b, shape, next, target);
    FindFinallyMoves(b, shape, next, at, goal, h);
    if found < |b.handlers| {
      assert w.handlers[found] == b.handlers[found] && Resolves(b, b.handlers[found]);
      ReferencesMove(b, shape, next, b.handlers[found].start);
      var start := IndexOf(b.instrs, b.handlers[found].start);
      PruneMoves(b, shape, next, m.frames, start);
      WovenAt(b, shape, next, start);
      var r := LeaveFor(code, b, at, target, h, m);
      assert r.frames == Prune(b, m.frames, start) + [r.frames[|r.frames| - 1]];
    } else {
      PruneMoves(b, shape, next, m.frames, goal);
      WovenAt(b, shape, next, goal);
    }
  }

  // ---------------------------------------------------------------- single steps

  /** One original step and one woven step, other than a return. */
  ghost predicate StepAgrees<D(!new)>(code: Code<D>, b: Body, shape: Shape, next: Ref, m: Machine<D>, vars: Vars)
    requires b.instrs != [] && m.Running? && m.pc < |b.instrs|
  {
    var r, w := Step(code, b, m), Step(code, Woven(b, shape, next), Image(b, shape, m, vars));
    && (r.Running? ==> Original(b, r) && w == Image(b, shape, r, vars))
    && (r.Done? ==> r.outcome.Threw? && AtHandler(code, b, shape, r.outcome.exn, r.log, w))
    && (r.Done? ==> forall a <- r.log :: a.Did?)
  }

  lemma StepPlain<D(!new)>(code: Code<D>, b: Body, shape: Shape, next: Ref, m: Machine<D>, vars: Vars)
    requires WellFormed(b, next) && Lawful(code)
    requires m.Running? && Original(b, m) && b.instrs[m.pc].op.Plain?
    ensures StepAgrees(code, b, shape, next, m, vars)
  {
    hide Moved, WovenInstrs, Distinct, IndexOf, WellFormed, Raise, AtHandler;
    var i := b.instrs[m.pc];
    WovenAt(b, shape, next, m.pc);
    MovedNext(b, shape, m.pc);
    var log := m.log + [Did(i.ref, m.data)];
    assert [Entered, Inputs] + m.log + [Did(i.ref, m.data)] == [Entered, Inputs] + log;
    match code.plain(i.op.code, m.data) {
      case Next(d) =>
        if m.pc + 1 < |b.instrs| {
          WovenAt(b, shape, next, m.pc + 1);
        }
      case Throws(exn, d) =>
        RaiseMoves(code, b, shape, next, m.pc, exn, 0, m.(data := d, log := log), vars);
    }
  }

  lemma StepBranch<D(!new)>(code: Code<D>, b: Body, shape: Shape, next: Ref, m: Machine<D>, vars: Vars)
    requires WellFormed(b, next) && Lawful(code)
    requires m.Running? && Original(b, m) && b.instrs[m.pc].op.Branch?
    ensures StepAgrees(code, b, shape, next, m, vars)
  {
    hide Moved, WovenInstrs, Distinct, IndexOf, WellFormed, AtHandler;
    var i := b.instrs[m.pc];
    WovenAt(b, shape, next, m.pc);
    MovedNext(b, shape, m.pc);
    assert [Entered, Inputs] + m.log + [Did(i.ref, m.data)] == [Entered, Inputs] + (m.log + [Did(i.ref, m.data)]);
    var r := Step(code, b, m);
    if r.Running? {
      WovenAt(b, shape, next, r.pc);
      var choice := code.branch(i.op.code, m.data);
      if choice.taken.Some? && choice.taken.value < |i.op.targets| {
        ReferencesMove(b, shape, next, i.op.targets[choice.taken.value]);
      }
    }
  }

  lemma StepLeave<D(!new)>(code: Code<D>, b: Body, shape: Shape, next: Ref, m: Machine<D>, vars: Vars)
    requires WellFormed(b, next) && Lawful(code)
    requires m.Running? && Original(b, m) && b.instrs[m.pc].op.Leave?
    ensures StepAgrees(code, b, shape, next, m, vars)
  {
    assert b.instrs[m.pc] in b.instrs;
    hide Moved, WovenInstrs, Distinct, IndexOf, AtHandler;
    WovenAt(b, shape, next, m.pc);
    if Step(code, b, m).Running? {
      LeaveMoves(code, b, shape, next, m.pc, b.instrs[m.pc].op.target, 0, m, vars);
    }
  }

  lemma StepEndFinally<D(!new)>(code: Code<D>, b: Body, shape: Shape, next: Ref, m: Machine<D>, vars: Vars)
    requires WellFormed(b, next) && Lawful(code)
    requires m.Running? && Original(b, m) && b.instrs[m.pc].op.EndFinally?
    ensures StepAgrees(code, b, shape, next, m, vars)
  {
    hide Moved, WovenInstrs, Distinct, IndexOf, AtHandler, WellFormed, Raise, LeaveFor;
    WovenAt(b, shape, next, m.pc);
    if m.frames != [] {
      var top, rest := m.frames[|m.frames| - 1], m.(frames := m.frames[..|m.frames| - 1]);
      assert Sound(b, top) && Original(b, rest);
      assert MoveFrames(b, shape, m.frames)[..|m.frames| - 1] == MoveFrames(b, shape, rest.frames);
      match top.pending {
        case Throwing(exn, at, h) => RaiseMoves(code, b, shape, next, at, exn, h, rest, vars);
        case Leaving(target, at, h) =>
          if LeaveFor(code, b, at, target, h, rest).Running? {
            LeaveMoves(code, b, shape, next, at, target, h, rest, vars);
          }
          LeaveNeverEnds(code, b, at, target, h, rest);
        case Handling(_) =>
      }
    }
  }

  lemma LeaveNeverEnds<D>(code: Code<D>, b: Body, at: nat, target: Ref, h: nat, m: Machine<D>)
    requires m.Running?
    ensures !LeaveFor(code, b, at, target, h, m).Done?
  {
  }

  lemma StepRethrow<D(!new)>(code: Code<D>, b: Body, shape: Shape, next: Ref, m: Machine<D>, vars: Vars)
    requires WellFormed(b, next) && Lawful(code)
    requires m.Running? && Original(b, m) && b.instrs[m.pc].op.Rethrow?
    ensures StepAgrees(code, b, shape, next, m, vars)
  {
    hide Moved, WovenInstrs, Distinct, IndexOf, AtHandler, WellFormed, Raise;
    WovenAt(b, shape, next, m.pc);
    if m.frames != [] && m.frames[|m.frames| - 1].pending.Handling? {
      RaiseMoves(code, b, shape, next, m.pc, m.frames[|m.frames| - 1].pending.exn, 0, m, vars);
    }
  }

  lemma StepMoves<D(!new)>(code: Code<D>, b: Body, shape: Shape, next: Ref, m: Machine<D>, vars: Vars)
    requires WellFormed(b, next) && Lawful(code)
    requires m.Running? && Original(b, m) && !b.instrs[m.pc].op.Ret?
    ensures StepAgrees(code, b, shape, next, m, vars)
  {
    assert b.instrs[m.pc] in b.instrs;
    hide StepAgrees, Lawful, Distinct, Original, Resolves;
    match b.instrs[m.pc].op {
      case Plain(_) => StepPlain(code, b, shape, next, m, vars);
      case Branch(_, _) => StepBranch(code, b, shape, next, m, vars);
      case Leave(_) => StepLeave(code, b, shape, next, m, vars);
      case EndFinally => StepEndFinally(code, b, shape, next, m, vars);
      case Rethrow => StepRethrow(code, b, shape, next, m, vars);
    }
  }
}
