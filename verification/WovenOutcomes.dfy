/**
  The main results about the weaver: a woven call enters, records its inputs, does what the original does,
  and reports the outcome once, exactly when every region of the original ends inside it.
 */
module WovenOutcomes {
  import opened Wrappers
  import opened IlMachine
  import opened Weaver
  import opened WovenLayout
  import opened WovenMeaning
  import opened WovenRuns

  // ---------------------------------------------------------------- the added code

  /** A stretch of staging instructions only moves on. */
  lemma {:induction false} StagesRun<D>(code: Code<D>, b: Body, m: Machine<D>, n: nat)
    requires m.Running? && m.pc + n < |b.instrs|
    requires forall j | m.pc <= j < m.pc + n :: b.instrs[j].op == Stage
    ensures Run(code, b, m, n) == m.(pc := m.pc + n)
    decreases n
  {
    if n > 0 {
      assert Step(code, b, m) == m.(pc := m.pc + 1);
      StagesRun(code, b, m.(pc := m.pc + 1), n - 1);
    }
  }

  /** One step, then the rest. */
  lemma {:induction false} ThenStep<D>(code: Code<D>, b: Body, m: Machine<D>, n: nat, middle: Machine<D>)
    requires Run(code, b, m, n) == middle
    ensures Run(code, b, m, n + 1) == Step(code, b, middle)
  {
    RunAdds(code, b, m, n, 1);
  }

  /** The operations lie in the body from a position on. */
  ghost predicate Lies(w: Body, start: nat, ops: seq<Op>) {
    start + |ops| <= |w.instrs| && forall p | start <= p < start + |ops| :: w.instrs[p].op == ops[p - start]
  }

  lemma LiesPart(w: Body, start: nat, before: seq<Op>, ops: seq<Op>, after: seq<Op>)
    requires Lies(w, start, before + ops + after)
    ensures Lies(w, start + |before|, ops)
  {
    var all := before + ops + after;
    forall p | start + |before| <= p < start + |before| + |ops|
      ensures w.instrs[p].op == ops[p - (start + |before|)]
    {
      assert w.instrs[p].op == all[p - start];
    }
  }

  lemma LyingStages<D>(code: Code<D>, w: Body, m: Machine<D>, n: nat)
    requires m.Running? && Lies(w, m.pc, Stages(n)) && m.pc + n < |w.instrs|
    ensures Run(code, w, m, n) == m.(pc := m.pc + n)
  {
    StagesRun(code, w, m, n);
  }

  lemma EntryRuns<D>(code: Code<D>, w: Body, shape: Shape, data: D)
    requires Lies(w, 0, Prologue(shape)) && |Prologue(shape)| < |w.instrs|
    ensures Run(code, w, Call(w, data), |Prologue(shape)|)
            == Running(|Prologue(shape)|, data, [], Vars(0, 0), [Entered, Inputs])
  {
    var n := shape.argumentStages;
    assert Stages(3) == [Stage, Stage, Stage] && Stages(2 + n) == [Stage, Stage] + Stages(n);
    assert Prologue(shape) == [] + Stages(3) + ([EnterOperation] + Stages(2 + n) + [RecordInputs]);
    LiesPart(w, 0, [], Stages(3), [EnterOperation] + Stages(2 + n) + [RecordInputs]);
    assert Prologue(shape) == Stages(3) + [EnterOperation] + (Stages(2 + n) + [RecordInputs]);
    LiesPart(w, 0, Stages(3), [EnterOperation], Stages(2 + n) + [RecordInputs]);
    assert Prologue(shape) == (Stages(3) + [EnterOperation]) + Stages(2 + n) + [RecordInputs];
    LiesPart(w, 0, Stages(3) + [EnterOperation], Stages(2 + n), [RecordInputs]);
    assert Prologue(shape) == (Stages(3) + [EnterOperation] + Stages(2 + n)) + [RecordInputs] + [];
    LiesPart(w, 0, Stages(3) + [EnterOperation] + Stages(2 + n), [RecordInputs], []);
    EntrySteps(code, w, n, data);
  }

  lemma EntrySteps<D>(code: Code<D>, w: Body, n: nat, data: D)
    requires && Lies(w, 0, Stages(3))
             && Lies(w, 3, [EnterOperation])
             && Lies(w, 4, Stages(2 + n))
             && Lies(w, 6 + n, [RecordInputs])
             && 7 + n < |w.instrs|
    ensures Run(code, w, Call(w, data), 7 + n) == Running(7 + n, data, [], Vars(0, 0), [Entered, Inputs])
  {
    assert w.instrs[3].op == EnterOperation && w.instrs[6 + n].op == RecordInputs;
    hide Run, Stages, Lies;
    var c := Call(w, data);
    LyingStages(code, w, c, 3);
    var entered := c.(pc := 4, log := [Entered]);
    ThenStep(code, w, c, 3, c.(pc := 3));
    assert Run(code, w, c, 4) == entered;
    LyingStages(code, w, entered, 2 + n);
    RunAdds(code, w, c, 4, 2 + n);
    assert 4 + (2 + n) == 6 + n;
    ThenStep(code, w, c, 6 + n, entered.(pc := 6 + n));
  }

  lemma PrologueRuns<D>(code: Code<D>, b: Body, shape: Shape, next: Ref, data: D)
    requires WellFormed(b, next)
    ensures Run(code, Woven(b, shape, next), Call(Woven(b, shape, next), data), |Prologue(shape)|)
            == Image(b, shape, Running(0, data, [], Vars(0, 0), []), Vars(0, 0))
  {
    assert Moved(b, shape, 0) == |Prologue(shape)|;
    hide Moved, WovenInstrs, Run, Prologue;
    var w := Woven(b, shape, next);
    forall j | 0 <= j < |Prologue(shape)|
      ensures j < |w.instrs| && w.instrs[j].op == Prologue(shape)[j]
    {
      PrologueAt(b, shape, next, j);
    }
    WovenAt(b, shape, next, 0);
    EntryRuns(code, w, shape, data);
    var log: seq<Act<D>> := [Entered, Inputs];
    assert log + [] == log;
  }

  lemma StageStep<D>(code: Code<D>, w: Body, m: Machine<D>)
    requires m.Running? && m.pc + 1 < |w.instrs| && w.instrs[m.pc].op == Stage
    ensures Step(code, w, m) == m.(pc := m.pc + 1)
  {
  }

  lemma StoreErrorStep<D>(code: Code<D>, w: Body, m: Machine<D>)
    requires m.Running? && m.pc + 1 < |w.instrs| && w.instrs[m.pc].op == StoreError
    ensures Step(code, w, m) == m.(pc := m.pc + 1, vars := m.vars.(error := code.top(m.data)))
  {
  }

  lemma ExitErrorStep<D>(code: Code<D>, w: Body, m: Machine<D>)
    requires m.Running? && m.pc + 1 < |w.instrs| && w.instrs[m.pc].op == ExitError
    ensures Step(code, w, m) == m.(pc := m.pc + 1, log := m.log + [ReportedError(m.vars.error)])
  {
  }

  lemma ExitOkStep<D>(code: Code<D>, w: Body, m: Machine<D>)
    requires m.Running? && m.pc + 1 < |w.instrs| && w.instrs[m.pc].op == ExitOk
    ensures Step(code, w, m) == m.(pc := m.pc + 1, log := m.log + [ReportedOk(m.vars.result)])
  {
  }

  lemma LoadResultStep<D>(code: Code<D>, w: Body, m: Machine<D>)
    requires m.Running? && m.pc + 1 < |w.instrs| && w.instrs[m.pc].op == LoadResult
    ensures Step(code, w, m) == m.(pc := m.pc + 1, data := code.push(m.data, m.vars.result))
  {
  }

  lemma RethrowStep<D>(code: Code<D>, w: Body, m: Machine<D>, exn: int)
    requires m.Running? && m.pc < |w.instrs| && w.instrs[m.pc].op == Rethrow
    requires m.frames != [] && m.frames[|m.frames| - 1].pending == Handling(exn)
    ensures Step(code, w, m) == Raise(code, w, m.pc, exn, 0, m)
  {
    hide Raise;
  }

  /** The added handler has stored and reported the exception and is about to throw it again. */
  function Reporting<D>(m: Machine<D>, exn: int): Machine<D>
    requires m.Running?
  {
    m.(pc := m.pc + 4, vars := m.vars.(error := exn), log := m.log + [ReportedError(exn)])
  }

  lemma HandlerOps(w: Body, at: nat)
    requires Lies(w, at, HANDLER)
    ensures && w.instrs[at].op == StoreError && w.instrs[at + 1].op == Stage && w.instrs[at + 2].op == Stage
            && w.instrs[at + 3].op == ExitError && w.instrs[at + 4].op == Rethrow
  {
  }

  /** The added handler: store, stage, report. */
  lemma ReportRuns<D>(code: Code<D>, w: Body, exn: int, m: Machine<D>)
    requires m.Running? && m.pc + 5 < |w.instrs| && code.top(m.data) == exn
    requires w.instrs[m.pc].op == StoreError && w.instrs[m.pc + 1].op == Stage
    requires w.instrs[m.pc + 2].op == Stage && w.instrs[m.pc + 3].op == ExitError
    ensures Run(code, w, m, 4) == Reporting(m, exn)
  {
    hide Run, Step;
    var stored := m.(pc := m.pc + 1, vars := m.vars.(error := exn));
    StoreErrorStep(code, w, m);
    ThenStepFirst(code, w, m);
    StageStep(code, w, stored);
    ThenStep(code, w, m, 1, stored);
    StageStep(code, w, stored.(pc := m.pc + 2));
    ThenStep(code, w, m, 2, stored.(pc := m.pc + 2));
    ExitErrorStep(code, w, stored.(pc := m.pc + 3));
    ThenStep(code, w, m, 3, stored.(pc := m.pc + 3));
  }

  lemma HandlerLies(b: Body, shape: Shape, next: Ref, end: nat)
    requires b.instrs != [] && end == Moved(b, shape, |b.instrs|)
    ensures Lies(Woven(b, shape, next), end, HANDLER) && end + 5 < |Woven(b, shape, next).instrs|
  {
    EpilogueShape(shape, b.returnsValue);
    hide Moved, WovenInstrs, HandlerRef, EpilogueRef, Epilogue;
    var w := Woven(b, shape, next);
    AppendedAt(b, shape, next, 5);
    forall p | end <= p < end + |HANDLER|
      ensures p < |w.instrs| && w.instrs[p].op == HANDLER[p - end]
    {
      AppendedAt(b, shape, next, p - end);
    }
  }

  /** The first handler, from `h` on, whose try block has no end and that takes the exception. */
  function OpenCatcher<D>(code: Code<D>, b: Body, exn: int, h: nat): (c: nat)
    requires h <= |b.handlers|
    ensures h <= c <= |b.handlers|
    ensures c < |b.handlers| ==> b.handlers[c].tryEnd.None? && Accepts(code, b.handlers[c].kind, exn)
    ensures forall i | h <= i < c :: b.handlers[i].tryEnd.Some? || !Accepts(code, b.handlers[i].kind, exn)
    decreases |b.handlers| - h
  {
    if h == |b.handlers| || (b.handlers[h].tryEnd.None? && Accepts(code, b.handlers[h].kind, exn)) then h
    else OpenCatcher(code, b, exn, h + 1)
  }

  /** No try block without an end takes the exception. */
  ghost predicate Escapes<D>(code: Code<D>, b: Body, exn: int) {
    forall h <- b.handlers :: h.tryEnd.None? ==> !Accepts(code, h.kind, exn)
  }

  lemma EscapesCatchers<D>(code: Code<D>, b: Body, exn: int)
    ensures Escapes(code, b, exn) <==> OpenCatcher(code, b, exn, 0) == |b.handlers|
  {
    hide Accepts;
    var c := OpenCatcher(code, b, exn, 0);
    if c < |b.handlers| {
      assert b.handlers[c] in b.handlers;
    }
  }

  lemma {:induction false} SameCatcher<D>(code: Code<D>, b: Body, w: Body, at: nat, exn: int, h: nat)
    requires |w.handlers| == |b.handlers| + 1 && h <= |b.handlers| && !InTry(w, |b.handlers|, at)
    requires forall i | 0 <= i < |b.handlers| ::
               w.handlers[i] == b.handlers[i] && (InTry(w, i, at) <==> b.handlers[i].tryEnd.None?)
    ensures var c := OpenCatcher(code, b, exn, h);
            FindHandler(code, w, at, exn, h) == if c < |b.handlers| then c else |b.handlers| + 1
    decreases |b.handlers| - h
  {
    hide InTry, Accepts;
    if h < |b.handlers| {
      SameCatcher(code, b, w, at, exn, h + 1);
    }
  }

  /** What the added handler throws again leaves the method unless an open try block takes it. */
  lemma ThrownOut<D>(code: Code<D>, b: Body, shape: Shape, next: Ref, at: nat, exn: int)
    requires WellFormed(b, next) && Moved(b, shape, |b.instrs|) <= at < |Woven(b, shape, next).instrs|
    ensures var c := OpenCatcher(code, b, exn, 0);
            FindHandler(code, Woven(b, shape, next), at, exn, 0) == if c < |b.handlers| then c else |b.handlers| + 1
  {
    hide Moved, WovenInstrs, Distinct, FindHandler, InTry, InHandler, OpenCatcher, WovenHandler, Resolves, Accepts;
    var w := Woven(b, shape, next);
    forall i | 0 <= i < |b.handlers|
      ensures InTry(w, i, at) <==> b.handlers[i].tryEnd.None?
    {
      RegionsEnd(b, shape, next, i, at);
    }
    AddedRegion(b, shape, next, at);
    SameCatcher(code, b, w, at, exn, 0);
  }

  /** The exception has been reported once, and has left the method or run the open handler that takes it. */
  ghost predicate Rethrown<D>(code: Code<D>, b: Body, shape: Shape, exn: int, log: seq<Act<D>>, r: Machine<D>) {
    var c := OpenCatcher(code, b, exn, 0);
    if c == |b.handlers| then r == Recorded(b, Threw(exn), log)
    else
      && r.Running? && Has(b, b.handlers[c].start) && r.pc == Moved(b, shape, IndexOf(b.instrs, b.handlers[c].start))
      && r.frames != [] && r.frames[|r.frames| - 1].h == c
      && r.log == [Entered, Inputs] + log + [ReportedError(exn)]
  }

  lemma RethrowLands<D>(code: Code<D>, b: Body, shape: Shape, next: Ref, exn: int, log: seq<Act<D>>, m: Machine<D>)
    requires WellFormed(b, next) && m.Running? && m.log == [Entered, Inputs] + log + [ReportedError(exn)]
    requires Moved(b, shape, |b.instrs|) <= m.pc < |Woven(b, shape, next).instrs|
    ensures Rethrown(code, b, shape, exn, log, Raise(code, Woven(b, shape, next), m.pc, exn, 0, m))
  {
    hide Moved, WovenInstrs, FindHandler, Distinct, OpenCatcher, Prune, IndexOf, WovenHandler;
    var w, c := Woven(b, shape, next), OpenCatcher(code, b, exn, 0);
    ThrownOut(code, b, shape, next, m.pc, exn);
    if c < |b.handlers| {
      assert w.handlers[c] == b.handlers[c] && Resolves(b, b.handlers[c]);
      ReferencesMove(b, shape, next, b.handlers[c].start);
      WovenAt(b, shape, next, IndexOf(b.instrs, b.handlers[c].start));
    }
  }

  /** The added handler reports the exception once and throws it on. */
  lemma HandlerRuns<D>(code: Code<D>, b: Body, shape: Shape, next: Ref, exn: int, log: seq<Act<D>>, m: Machine<D>)
    requires WellFormed(b, next) && AtHandler(code, b, shape, exn, log, m)
    ensures Rethrown(code, b, shape, exn, log, Run(code, Woven(b, shape, next), m, 5))
  {
    hide Moved, Woven, Run, Step, Raise, Lies, WellFormed, Rethrown, HANDLER;
    NotEmpty(b, next);
    var w, reported := Woven(b, shape, next), Reporting(m, exn);
    HandlerLies(b, shape, next, m.pc);
    HandlerOps(w, m.pc);
    ReportRuns(code, w, exn, m);
    RethrowStep(code, w, reported, exn);
    ThenStep(code, w, m, 4, reported);
    RethrowLands(code, b, shape, next, exn, log, reported);
  }

  lemma NotEmpty(b: Body, next: Ref)
    requires WellFormed(b, next)
    ensures b.instrs != []
  {
  }

  lemma ThenStepFirst<D>(code: Code<D>, b: Body, m: Machine<D>)
    ensures Run(code, b, m, 1) == Step(code, b, m)
  {
  }

  lemma {:induction false} NoFinally(w: Body, at: nat, goal: nat, h: nat)
    requires h <= |w.handlers| && forall i | 0 <= i < |w.handlers| :: w.handlers[i].kind.Finally? ==> !InTry(w, i, at)
    ensures FindFinally(w, at, goal, h) == |w.handlers|
    decreases |w.handlers| - h
  {
    hide InTry;
    if h < |w.handlers| {
      NoFinally(w, at, goal, h + 1);
    }
  }

  /** Where the return is outside every region, the jump that replaced it lands on the epilogue. */
  lemma JumpLands<D>(code: Code<D>, b: Body, shape: Shape, next: Ref, k: nat, p: nat, m: Machine<D>)
    requires WellFormed(b, next) && Within(b, shape, k, p) && !InRegion(b, k) && m.Running?
    ensures var r := LeaveFor(code, Woven(b, shape, next), p, EpilogueRef(shape, next), 0, m);
            && r.Running?
            && r == m.(pc := Moved(b, shape, |b.instrs|) + |HANDLER|, data := code.cleared(m.data), frames := r.frames)
  {
    var w, end := Woven(b, shape, next), Moved(b, shape, |b.instrs|);
    EpilogueShape(shape, b.returnsValue);
    AppendedReferences(b, shape, next);
    AppendedAt(b, shape, next, |HANDLER|);
    forall i | 0 <= i < |w.handlers|
      ensures w.handlers[i].kind.Finally? ==> !InTry(w, i, p)
    {
      if i < |b.handlers| {
        RegionsMove(b, shape, next, i, k, p);
        assert !InTry(b, i, k);
      }
    }
    NoFinally(w, p, end + |HANDLER|, 0);
    hide Moved, WovenInstrs, WellFormed, FindFinally, Prune, EpilogueRef, HandlerRef, Epilogue;
  }

  lemma ValueExit<D(!new)>(code: Code<D>, w: Body, n: nat, m: Machine<D>)
    requires && Lawful(code)
             && m.Running?
             && w.returnsValue
             && Lies(w, m.pc, Stages(n))
             && Lies(w, m.pc + n, [ExitOk, LoadResult, Ret])
             && !InRegion(w, m.pc + n + 2)
    ensures Run(code, w, m, n + 3) == Done(Returned(m.vars.result), m.log + [ReportedOk(m.vars.result)])
  {
    var at := m.pc + n;
    assert w.instrs[at].op == ExitOk && w.instrs[at + 1].op == LoadResult && w.instrs[at + 2].op == Ret;
    assert code.top(code.push(m.data, m.vars.result)) == m.vars.result;
    assert at + 2 < |w.instrs|;
    hide Run, Stages, InRegion, Lawful, Lies, Step;
    LyingStages(code, w, m, n);
    var staged := m.(pc := at);
    var reported := m.(pc := at + 1, log := m.log + [ReportedOk(m.vars.result)]);
    var loaded := reported.(pc := at + 2, data := code.push(m.data, m.vars.result));
    ExitOkStep(code, w, staged);
    LoadResultStep(code, w, reported);
    ReturnStep(code, w, loaded);
    ThenStep(code, w, m, n, staged);
    ThenStep(code, w, m, n + 1, reported);
    ThenStep(code, w, m, n + 2, loaded);
  }

  lemma VoidExit<D>(code: Code<D>, w: Body, m: Machine<D>)
    requires m.Running? && !w.returnsValue && Lies(w, m.pc, [Stage, ExitVoid, Ret]) && !InRegion(w, m.pc + 2)
    ensures Run(code, w, m, 3) == Done(Returned(0), m.log + [ReportedVoid])
  {
    var at := m.pc;
    assert w.instrs[at].op == Stage && w.instrs[at + 1].op == ExitVoid && w.instrs[at + 2].op == Ret;
    assert at + 2 < |w.instrs|;
    hide Run, InRegion, Lies;
    ThenStepFirst(code, w, m);
    ThenStep(code, w, m, 1, m.(pc := at + 1));
    ThenStep(code, w, m, 2, m.(pc := at + 2, log := m.log + [ReportedVoid]));
  }

  /** The epilogue reports and returns. */
  lemma EpilogueRuns<D(!new)>(code: Code<D>, b: Body, shape: Shape, next: Ref, m: Machine<D>) returns (n: nat)
    requires WellFormed(b, next) && Closed(b) && Lawful(code)
    requires m.Running? && m.pc == Moved(b, shape, |b.instrs|) + |HANDLER|
    ensures Run(code, Woven(b, shape, next), m, n)
            == if b.returnsValue then Done(Returned(m.vars.result), m.log + [ReportedOk(m.vars.result)])
               else Done(Returned(0), m.log + [ReportedVoid])
  {
    hide Moved, WovenInstrs, Closed, Run, InRegion, HandlerRef, EpilogueRef, Distinct, Lawful;
    var w, start := Woven(b, shape, next), m.pc;
    EpilogueLies(b, shape, next, start);
    if b.returnsValue {
      var k := 1 + shape.resultStages;
      assert Stages(k) == [Stage] + Stages(shape.resultStages);
      assert Epilogue(shape, true) == [] + Stages(k) + [ExitOk, LoadResult, Ret]
             == Stages(k) + [ExitOk, LoadResult, Ret] + [];
      hide Lies, Epilogue, Stages;
      LiesPart(w, start, [], Stages(k), [ExitOk, LoadResult, Ret]);
      LiesPart(w, start, Stages(k), [ExitOk, LoadResult, Ret], []);
      OutsideRegions(b, shape, next, start + k + 2);
      ValueExit(code, w, k, m);
      n := k + 3;
    } else {
      hide Lies;
      OutsideRegions(b, shape, next, start + 2);
      VoidExit(code, w, m);
      n := 3;
    }
  }

  lemma EpilogueLies(b: Body, shape: Shape, next: Ref, start: nat)
    requires b.instrs != [] && start == Moved(b, shape, |b.instrs|) + |HANDLER|
    ensures Lies(Woven(b, shape, next), start, Epilogue(shape, b.returnsValue))
  {
    EpilogueShape(shape, b.returnsValue);
    hide Moved, WovenInstrs, HandlerRef, EpilogueRef, Epilogue;
    var w, ops := Woven(b, shape, next), Epilogue(shape, b.returnsValue);
    forall p | start <= p < start + |ops|
      ensures p < |w.instrs| && w.instrs[p].op == ops[p - start]
    {
      AppendedAt(b, shape, next, |HANDLER| + (p - start));
    }
    AppendedAt(b, shape, next, |HANDLER| + |ops| - 1);
  }

  lemma EndsInside(b: Body, h: nat)
    requires Closed(b) && h < |b.handlers|
    ensures b.handlers[h].tryEnd.Some? && b.handlers[h].end.Some?
  {
  }

  lemma OutsideRegions(b: Body, shape: Shape, next: Ref, p: nat)
    requires WellFormed(b, next) && Closed(b)
    requires Moved(b, shape, |b.instrs|) + |HANDLER| <= p < |Woven(b, shape, next).instrs|
    ensures !InRegion(Woven(b, shape, next), p)
  {
    hide Moved, WovenInstrs, Distinct, Closed, InTry, InHandler;
    var w := Woven(b, shape, next);
    forall i | 0 <= i < |w.handlers|
      ensures !InTry(w, i, p) && !InHandler(w, i, p)
    {
      if i < |b.handlers| {
        EndsInside(b, i);
        RegionsEnd(b, shape, next, i, p);
      } else {
        AddedRegion(b, shape, next, p);
      }
    }
  }

  /** From a return of the original to the return of the epilogue. */
  lemma ReturnRuns<D(!new)>(code: Code<D>, b: Body, shape: Shape, next: Ref, m: Machine<D>, vars: Vars) returns (n: nat)
    requires WellFormed(b, next) && Closed(b) && Lawful(code)
    requires m.Running? && Original(b, m) && b.instrs[m.pc].op.Ret? && !InRegion(b, m.pc)
    ensures Run(code, Woven(b, shape, next), Image(b, shape, m, vars), n)
            == Recorded(b, Returned(if b.returnsValue then code.top(m.data) else 0), m.log)
  {
    hide Moved, WovenInstrs, WellFormed, Closed, Run, LeaveFor, InRegion, Distinct, Lawful, Prologue, Epilogue,
         EpilogueRef;
    var w, at, goal := Woven(b, shape, next), Moved(b, shape, m.pc), EpilogueRef(shape, next);
    var i := Image(b, shape, m, vars);
    WovenAt(b, shape, next, m.pc);
    MovedNext(b, shape, m.pc);
    ThenStepFirst(code, w, i);
    if b.returnsValue {
      var stored := i.(pc := at + 1, vars := vars.(result := code.top(m.data)));
      assert Step(code, w, i) == stored;
      JumpLands(code, b, shape, next, m.pc, at + 1, stored);
      var landed := LeaveFor(code, w, at + 1, goal, 0, stored);
      assert Step(code, w, stored) == landed;
      ThenStep(code, w, i, 1, stored);
      var k := EpilogueRuns(code, b, shape, next, landed);
      RunAdds(code, w, i, 2, k);
      n := 2 + k;
    } else {
      JumpLands(code, b, shape, next, m.pc, at, i);
      var landed := LeaveFor(code, w, at, goal, 0, i);
      assert Step(code, w, i) == landed;
      var k := EpilogueRuns(code, b, shape, next, landed);
      RunAdds(code, w, i, 1, k);
      n := 1 + k;
    }
  }

  // ---------------------------------------------------------------- whole runs

  lemma {:induction false} StillRunning<D>(code: Code<D>, b: Body, m: Machine<D>, n: nat)
    ensures !m.Running? ==> Run(code, b, m, n) == m
    decreases n
  {
    if n > 0 {
      StillRunning(code, b, Step(code, b, m), n - 1);
    }
  }

  lemma ReturnStep<D>(code: Code<D>, b: Body, m: Machine<D>)
    requires m.Running? && m.pc < |b.instrs|
    ensures b.instrs[m.pc].op.Ret? && InRegion(b, m.pc) ==> Step(code, b, m) == Stuck
    ensures b.instrs[m.pc].op.Ret? && !InRegion(b, m.pc) ==>
              Step(code, b, m) == Done(Returned(if b.returnsValue then code.top(m.data) else 0), m.log)
  {
  }

  /** The premises of every statement about a woven body. */
  ghost predicate Weavable<D(!new)>(code: Code<D>, b: Body, next: Ref) {
    WellFormed(b, next) && Lawful(code)
  }

  /** The woven state that answers the end of the original. */
  ghost predicate Ended<D>(code: Code<D>, b: Body, shape: Shape, outcome: Outcome, log: seq<Act<D>>, w: Machine<D>) {
    match outcome
    case Returned(_) => Closed(b) ==> w == Recorded(b, outcome, log)
    case Threw(exn) => Rethrown(code, b, shape, exn, log, w)
  }

  /** The outcomes that weaving keeps. */
  ghost predicate Kept<D>(code: Code<D>, b: Body, outcome: Outcome) {
    match outcome
    case Returned(_) => Closed(b)
    case Threw(exn) => Escapes(code, b, exn)
  }

  lemma NextStep<D(!new)>(code: Code<D>, b: Body, shape: Shape, next: Ref, m: Machine<D>, vars: Vars)
    requires Weavable(code, b, next) && m.Running? && Original(b, m) && Step(code, b, m).Running?
    ensures && Original(b, Step(code, b, m))
            && Step(code, Woven(b, shape, next), Image(b, shape, m, vars)) == Image(b, shape, Step(code, b, m), vars)
  {
    hide Step, Image, InRegion;
    ReturnStep(code, b, m);
    StepMoves(code, b, shape, next, m, vars);
  }

  lemma LastStep<D(!new)>(code: Code<D>, b: Body, shape: Shape, next: Ref, m: Machine<D>, vars: Vars) returns (k: nat)
    requires Weavable(code, b, next) && m.Running? && Original(b, m) && Step(code, b, m).Done?
    ensures var r := Step(code, b, m);
            && (forall a <- r.log :: a.Did?)
            && Ended(code, b, shape, r.outcome, r.log, Run(code, Woven(b, shape, next), Image(b, shape, m, vars), k))
  {
    hide Step, Image, InRegion, WellFormed, Closed, Lawful, AtHandler, Recorded, Run, Rethrown;
    ReturnStep(code, b, m);
    if !b.instrs[m.pc].op.Ret? {
      StepMoves(code, b, shape, next, m, vars);
      var r, w, i := Step(code, b, m), Woven(b, shape, next), Image(b, shape, m, vars);
      HandlerRuns(code, b, shape, next, r.outcome.exn, r.log, Step(code, w, i));
      ThenStepFirst(code, w, i);
      RunAdds(code, w, i, 1, 5);
      k := 1 + 5;
    } else if Closed(b) {
      k := ReturnRuns(code, b, shape, next, m, vars);
    } else {
      k := 0;
    }
  }

  /** While the original runs, so does the woven body, a fixed number of steps behind. */
  lemma {:induction false} RunMoves<D(!new)>(code: Code<D>, b: Body, shape: Shape, next: Ref, m: Machine<D>,
                                             vars: Vars, n: nat)
    requires b.instrs != [] && Weavable(code, b, next)
    requires m.Running? && Original(b, m) && Run(code, b, m, n).Running?
    ensures && Original(b, Run(code, b, m, n))
            && Run(code, Woven(b, shape, next), Image(b, shape, m, vars), n)
               == Image(b, shape, Run(code, b, m, n), vars)
    decreases n
  {
    hide Step, Image, Weavable, Woven;
    if n > 0 {
      StillRunning(code, b, Step(code, b, m), n - 1);
      NextStep(code, b, shape, next, m, vars);
      RunMoves(code, b, shape, next, Step(code, b, m), vars, n - 1);
    }
  }

  /** When the original ends, the woven body has reported it. */
  lemma {:induction false} EndMoves<D(!new)>(code: Code<D>, b: Body, shape: Shape, next: Ref, m: Machine<D>,
                                             vars: Vars, n: nat) returns (k: nat)
    requires b.instrs != [] && Weavable(code, b, next)
    requires m.Running? && Original(b, m) && Run(code, b, m, n).Done?
    ensures var r := Run(code, b, m, n);
            && (forall a <- r.log :: a.Did?)
            && Ended(code, b, shape, r.outcome, r.log, Run(code, Woven(b, shape, next), Image(b, shape, m, vars), k))
    decreases n
  {
    hide Step, Image, Weavable, Woven, Ended;
    StillRunning(code, b, Step(code, b, m), n - 1);
    if Step(code, b, m).Running? {
      NextStep(code, b, shape, next, m, vars);
      var j := EndMoves(code, b, shape, next, Step(code, b, m), vars, n - 1);
      k := 1 + j;
    } else {
      k := LastStep(code, b, shape, next, m, vars);
    }
  }

  lemma WovenEnds<D(!new)>(code: Code<D>, b: Body, shape: Shape, next: Ref, data: D, n: nat) returns (k: nat)
    requires WellFormed(b, next) && Lawful(code)
    requires Run(code, b, Call(b, data), n).Done?
    ensures var r, w := Run(code, b, Call(b, data), n), Woven(b, shape, next);
            Ended(code, b, shape, r.outcome, r.log, Run(code, w, Call(w, data), k))
    ensures forall a <- Run(code, b, Call(b, data), n).log :: a.Did?
  {
    var w, m := Woven(b, shape, next), Call(b, data);
    assert m == Running(0, data, [], Vars(0, 0), []) && Original(b, m);
    hide WovenInstrs, WellFormed, Lawful, Step, Image, AtHandler, Ended, Original, Prologue, Run;
    PrologueRuns(code, b, shape, next, data);
    var j := EndMoves(code, b, shape, next, m, Vars(0, 0), n);
    RunAdds(code, w, Call(w, data), |Prologue(shape)|, j);
    k := |Prologue(shape)| + j;
  }

  /**
    Weaving keeps the meaning: the woven call enters once, records its inputs once, executes the same ordinary
    instructions from the same data, ends with the same value or exception, and reports that outcome once. A value
    needs every region to end inside the body, an exception only that no try block without an end takes it.
   */
  lemma WovenKeepsOutcome<D(!new)>(code: Code<D>, b: Body, shape: Shape, next: Ref, data: D, n: nat)
    requires WellFormed(b, next) && Lawful(code)
    requires Run(code, b, Call(b, data), n).Done? && Kept(code, b, Run(code, b, Call(b, data), n).outcome)
    ensures var r, w := Run(code, b, Call(b, data), n), Woven(b, shape, next);
            exists k :: Run(code, w, Call(w, data), k) == Recorded(b, r.outcome, r.log)
    ensures forall a <- Run(code, b, Call(b, data), n).log :: a.Did?
  {
    hide WellFormed, Lawful, Woven, Call, Run, Closed, Escapes, OpenCatcher, Recorded;
    var k := WovenEnds(code, b, shape, next, data, n);
    var r := Run(code, b, Call(b, data), n);
    if r.outcome.Threw? {
      EscapesCatchers(code, b, r.outcome.exn);
    }
  }

  /**
    A throwing call of any body: the woven call does what the original does and reports the exception once. Then the
    exception leaves the method exactly when no try block without an end takes it; otherwise it runs the first
    handler that does, although the original call is over.
   */
  lemma WovenThrows<D(!new)>(code: Code<D>, b: Body, shape: Shape, next: Ref, data: D, n: nat, exn: int)
    requires WellFormed(b, next) && Lawful(code)
    requires var r := Run(code, b, Call(b, data), n); r.Done? && r.outcome == Threw(exn)
    ensures var log, w := Run(code, b, Call(b, data), n).log, Woven(b, shape, next);
            exists k :: Rethrown(code, b, shape, exn, log, Run(code, w, Call(w, data), k))
    ensures OpenCatcher(code, b, exn, 0) == |b.handlers| <==> Escapes(code, b, exn)
  {
    hide WellFormed, Lawful, Woven, Call, Run, Rethrown, Escapes, OpenCatcher;
    var k := WovenEnds(code, b, shape, next, data, n);
    EscapesCatchers(code, b, exn);
  }

  /** In a closed body every outcome is kept. */
  lemma ClosedKeeps<D>(code: Code<D>, b: Body, outcome: Outcome)
    requires Closed(b)
    ensures Kept(code, b, outcome)
  {
  }

  /** A call that never ends still never ends, and so reports nothing. */
  lemma WovenNeverEnds<D(!new)>(code: Code<D>, b: Body, shape: Shape, next: Ref, data: D, k: nat)
    requires b.instrs != [] && Weavable(code, b, next)
    requires forall n: nat :: Run(code, b, Call(b, data), n).Running?
    ensures Run(code, Woven(b, shape, next), Call(Woven(b, shape, next), data), k).Running?
  {
    var w, m := Woven(b, shape, next), Call(b, data);
    assert m == Running(0, data, [], Vars(0, 0), []) && Original(b, m);
    assert Run(code, b, m, k).Running?;
    hide WovenInstrs, Step, Prologue, Run, Original;
    PrologueRuns(code, b, shape, next, data);
    RunMoves(code, b, shape, next, m, Vars(0, 0), k);
    var c, p := Call(w, data), |Prologue(shape)|;
    RunAdds(code, w, c, p, k);
    RunAdds(code, w, c, k, p);
    assert p + k == k + p;
    StillRunning(code, w, Run(code, w, c, k), p);
  }

  /** Whatever way a woven call ends, the original ends that way, unless the original is not executable. */
  lemma WovenOutcomeIsOriginal<D(!new)>(code: Code<D>, b: Body, shape: Shape, next: Ref, data: D, k: nat)
    requires b.instrs != [] && Weavable(code, b, next) && Closed(b)
    requires forall n: nat :: !Run(code, b, Call(b, data), n).Stuck?
    requires Run(code, Woven(b, shape, next), Call(Woven(b, shape, next), data), k).Done?
    ensures exists n: nat ::
              var r := Run(code, b, Call(b, data), n);
              && r.Done?
              && Run(code, Woven(b, shape, next), Call(Woven(b, shape, next), data), k) == Recorded(b, r.outcome, r.log)
  {
    var w := Woven(b, shape, next);
    var c, m := Call(w, data), Call(b, data);
    hide Woven, Call, Run, Recorded, Weavable;
    if n: nat :| Run(code, b, m, n).Done? {
      ClosedKeeps(code, b, Run(code, b, m, n).outcome);
      WovenKeepsOutcome(code, b, shape, next, data, n);
      var j :| Run(code, w, c, j) == Recorded(b, Run(code, b, m, n).outcome, Run(code, b, m, n).log);
      RecordedIsDone(b, Run(code, b, m, n).outcome, Run(code, b, m, n).log);
      OneEnd(code, w, c, k, j);
    } else {
      forall n: nat
        ensures Run(code, b, m, n).Running?
      {
        assert !Run(code, b, m, n).Stuck?;
      }
      WovenNeverEnds(code, b, shape, next, data, k);
      assert false;
    }
  }

  lemma RecordedIsDone<D>(b: Body, outcome: Outcome, log: seq<Act<D>>)
    ensures Recorded(b, outcome, log).Done?
  {
  }

  /** A run has at most one end. */
  lemma OneEnd<D>(code: Code<D>, b: Body, m: Machine<D>, i: nat, j: nat)
    requires Run(code, b, m, i).Done? && Run(code, b, m, j).Done?
    ensures Run(code, b, m, i) == Run(code, b, m, j)
  {
    RunAdds(code, b, m, i, j);
    RunAdds(code, b, m, j, i);
    assert i + j == j + i;
    StillRunning(code, b, Run(code, b, m, i), j);
    StillRunning(code, b, Run(code, b, m, j), i);
  }

  // ---------------------------------------------------------------- the premise about regions

  lemma {:induction false} ExpandNoRets(s: seq<Instr>, goal: Ref, first: Ref, returnsValue: bool)
    ensures forall i <- Expand(s, goal, first, returnsValue) :: !i.op.Ret?
  {
    if s != [] {
      ExpandNoRets(s[..|s| - 1], goal, first, returnsValue);
    }
  }

  /** The only return of a woven body is its last instruction. */
  lemma OnlyReturn(b: Body, shape: Shape, next: Ref, p: nat)
    requires b.instrs != [] && p < |Woven(b, shape, next).instrs| - 1
    ensures !Woven(b, shape, next).instrs[p].op.Ret?
  {
    var goal, first := EpilogueRef(shape, next), FirstLeaf(b, shape, next);
    ExpandNoRets(b.instrs, goal, first, b.returnsValue);
    hide Expand, EpilogueRef, FirstLeaf, HandlerRef;
    var front, code := Numbered(Prologue(shape), next), Expand(b.instrs, goal, first, b.returnsValue);
    var middle, end := Numbered(HANDLER, HandlerRef(b, shape, next)), Numbered(Epilogue(shape, b.returnsValue), goal);
    assert Woven(b, shape, next).instrs == front + code + middle + end;
    if |front| <= p < |front| + |code| {
      assert code[p - |front|] in code;
    }
  }

  lemma OpenEnd(w: Body, h: nat)
    requires h < |w.handlers| && (w.handlers[h].tryEnd.None? || w.handlers[h].end.None?)
    requires && IndexOf(w.instrs, w.handlers[h].tryStart) < |w.instrs|
             && IndexOf(w.instrs, w.handlers[h].start) < |w.instrs|
    ensures InRegion(w, |w.instrs| - 1)
  {
    hide IndexOf;
    assert InTry(w, h, |w.instrs| - 1) || InHandler(w, h, |w.instrs| - 1);
  }

  /** A region without an end swallows the appended code. */
  lemma OpenRegionCovers(b: Body, shape: Shape, next: Ref, h: nat)
    requires WellFormed(b, next) && h < |b.handlers| && (b.handlers[h].tryEnd.None? || b.handlers[h].end.None?)
    ensures InRegion(Woven(b, shape, next), |Woven(b, shape, next).instrs| - 1)
  {
    hide Moved, WovenInstrs, Distinct, IndexOf, WovenHandler, InTry, InHandler;
    var w, x := Woven(b, shape, next), b.handlers[h];
    assert w.handlers[h] == x && Resolves(b, x);
    ReferencesMove(b, shape, next, x.tryStart);
    ReferencesMove(b, shape, next, x.start);
    WovenAt(b, shape, next, IndexOf(b.instrs, x.tryStart));
    WovenAt(b, shape, next, IndexOf(b.instrs, x.start));
    OpenEnd(w, h);
  }

  lemma StepNeverReturns<D>(code: Code<D>, w: Body, m: Machine<D>)
    requires m.Running? && forall p | 0 <= p < |w.instrs| :: w.instrs[p].op.Ret? ==> InRegion(w, p)
    ensures Step(code, w, m).Done? ==> Step(code, w, m).outcome.Threw?
  {
    hide InRegion;
  }

  lemma {:induction false} RunNeverReturns<D>(code: Code<D>, w: Body, m: Machine<D>, n: nat)
    requires m.Running? && forall p | 0 <= p < |w.instrs| :: w.instrs[p].op.Ret? ==> InRegion(w, p)
    ensures Run(code, w, m, n).Done? ==> Run(code, w, m, n).outcome.Threw?
    decreases n
  {
    hide InRegion, Step;
    if n > 0 {
      StepNeverReturns(code, w, m);
      if Step(code, w, m).Running? {
        RunNeverReturns(code, w, Step(code, w, m), n - 1);
      } else {
        StillRunning(code, w, Step(code, w, m), n - 1);
      }
    }
  }

  lemma OpenHandler(b: Body) returns (h: nat)
    requires !Closed(b)
    ensures h < |b.handlers| && (b.handlers[h].tryEnd.None? || b.handlers[h].end.None?)
  {
    h :| h < |b.handlers| && (b.handlers[h].tryEnd.None? || b.handlers[h].end.None?);
  }

  lemma OpenRegionTraps(b: Body, shape: Shape, next: Ref)
    requires WellFormed(b, next) && !Closed(b)
    ensures var w := Woven(b, shape, next); forall p | 0 <= p < |w.instrs| :: w.instrs[p].op.Ret? ==> InRegion(w, p)
  {
    hide WovenInstrs, InRegion, Distinct, Resolves;
    var w := Woven(b, shape, next);
    var h := OpenHandler(b);
    OpenRegionCovers(b, shape, next, h);
    forall p | 0 <= p < |w.instrs|
      ensures w.instrs[p].op.Ret? ==> InRegion(w, p)
    {
      if p < |w.instrs| - 1 {
        OnlyReturn(b, shape, next, p);
      }
    }
  }

  /** With a region that has no end, no woven call ever returns. */
  lemma OpenRegionNeverReturns<D>(code: Code<D>, b: Body, shape: Shape, next: Ref, data: D, k: nat)
    requires WellFormed(b, next) && !Closed(b)
    ensures var r := Run(code, Woven(b, shape, next), Call(Woven(b, shape, next), data), k);
            r.Done? ==> r.outcome.Threw?
  {
    WovenAt(b, shape, next, 0);
    hide WovenInstrs, InRegion, Distinct, Resolves, Closed, Run, Moved;
    OpenRegionTraps(b, shape, next);
    var w := Woven(b, shape, next);
    RunNeverReturns(code, w, Call(w, data), k);
  }

  /** A returning call still returns exactly when every region ends at an instruction of the body. */
  lemma ReturnsExactlyWhenClosed<D(!new)>(code: Code<D>, b: Body, shape: Shape, next: Ref, data: D, n: nat)
    requires WellFormed(b, next) && Lawful(code)
    requires Run(code, b, Call(b, data), n).Done? && Run(code, b, Call(b, data), n).outcome.Returned?
    ensures Closed(b) <==>
              exists k ::
                var r := Run(code, Woven(b, shape, next), Call(Woven(b, shape, next), data), k);
                r.Done? && r.outcome.Returned?
  {
    var w := Woven(b, shape, next);
    var c, end := Call(w, data), Run(code, b, Call(b, data), n);
    hide Woven, WellFormed, Lawful, Closed, Run, Call;
    if Closed(b) {
      ClosedKeeps(code, b, end.outcome);
      WovenKeepsOutcome(code, b, shape, next, data, n);
      var k :| Run(code, w, c, k) == Recorded(b, end.outcome, end.log);
      assert Run(code, w, c, k).Done? && Run(code, w, c, k).outcome.Returned?;
    } else {
      forall k: nat
        ensures var r := Run(code, w, c, k); r.Done? ==> r.outcome.Threw?
      {
        OpenRegionNeverReturns(code, b, shape, next, data, k);
      }
    }
  }

  /**
    A body whose finally block is its last code: it jumps into a try block, leaves it through the finally, and returns.
   */
  const OPEN_BODY := Body([Instr(0, Leave(2)), Instr(1, Ret), Instr(2, Leave(1)), Instr(3, EndFinally)],
                          [Handler(Finally, 2, Some(3), 3, None)], false)

  lemma OpenBodyReferences()
    ensures IndexOf(OPEN_BODY.instrs, 1) == 1 && IndexOf(OPEN_BODY.instrs, 2) == 2 && IndexOf(OPEN_BODY.instrs, 3) == 3
  {
    var s := OPEN_BODY.instrs;
    assert && s[1..] == [Instr(1, Ret), Instr(2, Leave(1)), Instr(3, EndFinally)]
           && s[1..][1..] == [Instr(2, Leave(1)), Instr(3, EndFinally)]
           && s[1..][1..][1..] == [Instr(3, EndFinally)];
  }

  lemma OpenBodyRegions(pc: nat)
    ensures InTry(OPEN_BODY, 0, pc) <==> pc == 2
    ensures InHandler(OPEN_BODY, 0, pc) <==> pc == 3
    ensures InRegion(OPEN_BODY, pc) <==> pc == 2 || pc == 3
  {
    OpenBodyReferences();
    hide IndexOf;
    if pc == 2 {
      assert InTry(OPEN_BODY, 0, pc);
    } else if pc == 3 {
      assert InHandler(OPEN_BODY, 0, pc);
    }
  }

  lemma OpenBodyLeaves()
    ensures && FindFinally(OPEN_BODY, 0, 2, 0) == 1
            && FindFinally(OPEN_BODY, 2, 1, 0) == 0
            && FindFinally(OPEN_BODY, 2, 1, 1) == 1
  {
    OpenBodyRegions(0);
    OpenBodyRegions(1);
    OpenBodyRegions(2);
    hide InTry;
  }

  lemma OpenBodyReturns<D>(code: Code<D>, data: D)
    ensures Run(code, OPEN_BODY, Call(OPEN_BODY, data), 5) == Done(Returned(0), [])
  {
    var b := OPEN_BODY;
    OpenBodyReferences();
    OpenBodyLeaves();
    OpenBodyRegions(1);
    OpenBodyRegions(3);
    hide Run, IndexOf, InTry, InHandler, InRegion, FindFinally;
    var m0 := Call(b, data);
    var m1: Machine<D> := Running(2, code.cleared(data), [], Vars(0, 0), []);
    var m2: Machine<D> := Running(3, code.cleared(m1.data), [Frame(0, Leaving(1, 2, 1))], Vars(0, 0), []);
    var m3: Machine<D> := Running(1, code.cleared(m2.data), [], Vars(0, 0), []);
    assert Step(code, b, m0) == m1;
    assert Prune(b, m1.frames, 3) == [];
    assert Step(code, b, m1) == m2;
    assert m2.frames[..|m2.frames| - 1] == [];
    assert Step(code, b, m2) == m3;
    ThenStepFirst(code, b, m0);
    ThenStep(code, b, m0, 1, m1);
    ThenStep(code, b, m0, 2, m2);
    ThenStep(code, b, m0, 3, m3);
    StillRunning(code, b, Step(code, b, m3), 1);
    RunAdds(code, b, m0, 4, 1);
  }

  /** So the woven form of a body that returns need not return: its return lies inside the widened finally block. */
  lemma OpenBodyIsBroken<D>(code: Code<D>, data: D, shape: Shape, k: nat)
    ensures Run(code, OPEN_BODY, Call(OPEN_BODY, data), 5) == Done(Returned(0), [])
    ensures OPEN_BODY.instrs != []
    ensures var w := Woven(OPEN_BODY, shape, 4);
            var r := Run(code, w, Call(w, data), k);
            r.Done? ==> r.outcome.Threw?
  {
    OpenBodyReturns(code, data);
    OpenBodyReferences();
    hide Run, IndexOf, Woven;
    assert OPEN_BODY.handlers[0] in OPEN_BODY.handlers;
    OpenRegionNeverReturns(code, OPEN_BODY, shape, 4, data, k);
  }

  /** A body whose try block is its last code: the first instruction lies outside it. */
  const OPEN_TRY := Body([Instr(0, Plain(0)), Instr(1, Leave(2)), Instr(2, Plain(1))],
                         [Handler(CatchAny, 2, None, 1, Some(2))], false)

  lemma OpenTryReferences()
    ensures IndexOf(OPEN_TRY.instrs, 1) == 1 && IndexOf(OPEN_TRY.instrs, 2) == 2
  {
    var s := OPEN_TRY.instrs;
    assert s[1..] == [Instr(1, Leave(2)), Instr(2, Plain(1))] && s[1..][1..] == [Instr(2, Plain(1))];
  }

  lemma OpenTryThrows<D>(code: Code<D>, data: D, exn: int, after: D)
    requires code.plain(0, data) == Throws(exn, after)
    ensures Run(code, OPEN_TRY, Call(OPEN_TRY, data), 1) == Done(Threw(exn), [Did(0, data)])
  {
    var b, m := OPEN_TRY, Call(OPEN_TRY, data);
    OpenTryReferences();
    assert !InTry(b, 0, 0);
    ThenStepFirst(code, b, m);
    assert FindHandler(code, b, 0, exn, 1) == 1;
    assert FindHandler(code, b, 0, exn, 0) == 1;
    hide Run, IndexOf, FindHandler;
    assert [] + [Did(0, data)] == [Did(0, data)];
  }

  /** So an exception that leaves the original can be caught in the woven form, by a block it was never thrown in. */
  lemma OpenTryCatches<D(!new)>(code: Code<D>, data: D, exn: int, after: D, shape: Shape)
    requires Lawful(code) && code.plain(0, data) == Throws(exn, after)
    ensures Run(code, OPEN_TRY, Call(OPEN_TRY, data), 1) == Done(Threw(exn), [Did(0, data)])
    ensures OPEN_TRY.instrs != []
    ensures var w := Woven(OPEN_TRY, shape, 3);
            exists k ::
              var r := Run(code, w, Call(w, data), k);
              && r.Running? && r.pc == Moved(OPEN_TRY, shape, 1)
              && r.log == [Entered, Inputs] + [Did(0, data)] + [ReportedError(exn)]
  {
    OpenTryThrows(code, data, exn, after);
    OpenTryReferences();
    hide Run, IndexOf, Woven, Lawful, Moved;
    assert OPEN_TRY.handlers[0] in OPEN_TRY.handlers;
    assert OpenCatcher(code, OPEN_TRY, exn, 0) == 0;
    WovenThrows(code, OPEN_TRY, shape, 3, data, 1, exn);
  }
}
