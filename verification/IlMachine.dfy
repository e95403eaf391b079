/**
  A small machine for method bodies: instruction lists whose branch targets and handler
  boundaries are references to instructions, run one instruction at a time.

  The effect of ordinary instructions is a parameter, so every result holds for whatever
  the instructions of the original program do. `leave` runs the finally blocks it crosses
  (Partition III section 3.46 of ECMA-335); `ret` inside a protected block or a handler is
  not executable (Partition III section 3.57).
 */
module IlMachine {
  import opened Wrappers

  type Ref = nat

  datatype Op =
    | Plain(code: int)
    | Branch(code: int, targets: seq<Ref>)
    | Leave(target: Ref)
    | EndFinally
    | Rethrow
    | Ret
    // Instructions only the weaver emits. `Stage` pushes or stores an argument of a recording call.
    | Stage
    | EnterOperation
    | RecordInputs
    | StoreResult
    | LoadResult
    | StoreError
    | ExitOk
    | ExitVoid
    | ExitError

  datatype Instr = Instr(ref: Ref, op: Op)

  datatype Kind = Catch(ty: int) | CatchAny | Finally | FaultBlock

  /** An absent end is the end of the body. */
  datatype Handler = Handler(kind: Kind, tryStart: Ref, tryEnd: Option<Ref>, start: Ref, end: Option<Ref>)

  datatype Body = Body(instrs: seq<Instr>, handlers: seq<Handler>, returnsValue: bool)

  // ---------------------------------------------------------------- references

  /** The position of the instruction, or the length of the list when it is not there. */
  function IndexOf(instrs: seq<Instr>, ref: Ref): (i: nat)
    ensures i <= |instrs|
    ensures i < |instrs| ==> instrs[i].ref == ref
  {
    if instrs == [] then 0
    else if instrs[0].ref == ref then 0
    else 1 + IndexOf(instrs[1..], ref)
  }

  function EndOf(instrs: seq<Instr>, end: Option<Ref>): nat {
    if end.None? then |instrs| else IndexOf(instrs, end.value)
  }

  predicate InTry(b: Body, h: nat, pc: nat)
    requires h < |b.handlers|
  {
    IndexOf(b.instrs, b.handlers[h].tryStart) <= pc < EndOf(b.instrs, b.handlers[h].tryEnd)
  }

  predicate InHandler(b: Body, h: nat, pc: nat)
    requires h < |b.handlers|
  {
    IndexOf(b.instrs, b.handlers[h].start) <= pc < EndOf(b.instrs, b.handlers[h].end)
  }

  predicate InRegion(b: Body, pc: nat) {
    exists h :: 0 <= h < |b.handlers| && (InTry(b, h, pc) || InHandler(b, h, pc))
  }

  // ---------------------------------------------------------------- states

  /** Why a handler runs: an exception on its way out, a `leave` on its way out, or a caught exception. */
  datatype Pending =
    | Throwing(exn: int, at: nat, next: nat)
    | Leaving(target: Ref, at: nat, next: nat)
    | Handling(exn: int)

  datatype Frame = Frame(h: nat, pending: Pending)

  datatype Vars = Vars(result: int, error: int)

  /** What a run does: the ordinary instructions it executes, with the data they start from, and the recording calls. */
  datatype Act<D> =
    | Did(ref: Ref, data: D)
    | Entered
    | Inputs
    | ReportedOk(value: int)
    | ReportedVoid
    | ReportedError(exn: int)

  datatype Outcome = Returned(value: int) | Threw(exn: int)

  datatype Machine<D> =
    | Running(pc: nat, data: D, frames: seq<Frame>, vars: Vars, log: seq<Act<D>>)
    | Done(outcome: Outcome, log: seq<Act<D>>)
    | Stuck

  datatype Effect<D> = Next(data: D) | Throws(exn: int, data: D)

  datatype Choice<D> = Choice(data: D, taken: Option<nat>)

  /** The meaning of ordinary instructions and of the evaluation stack. */
  datatype Code<!D> = Code(
    plain: (int, D) -> Effect<D>,
    branch: (int, D) -> Choice<D>,
    catches: (int, int) -> bool,
    top: D -> int,
    push: (D, int) -> D,
    cleared: D -> D,
    caught: (D, int) -> D)

  ghost predicate Lawful<D(!new)>(code: Code<D>) {
    (forall d, v :: code.top(code.push(d, v)) == v) && (forall d, e :: code.top(code.caught(d, e)) == e)
  }

  // ---------------------------------------------------------------- steps

  function Goto<D>(b: Body, pc: nat, data: D, frames: seq<Frame>, vars: Vars, log: seq<Act<D>>): Machine<D> {
    if pc < |b.instrs| then Running(pc, data, frames, vars, log) else Stuck
  }

  /** Frames of handlers that do not contain the destination are over. */
  function Prune(b: Body, frames: seq<Frame>, pc: nat): seq<Frame> {
    if frames == [] then []
    else
      var top := frames[|frames| - 1];
      if top.h < |b.handlers| && InHandler(b, top.h, pc) then frames
      else Prune(b, frames[..|frames| - 1], pc)
  }

  /** An exception from the try block runs the handler. */
  predicate Accepts<D>(code: Code<D>, kind: Kind, exn: int) {
    match kind
    case Catch(ty) => code.catches(ty, exn)
    case CatchAny => true
    case Finally => true
    case FaultBlock => true
  }

  predicate Takes<D>(code: Code<D>, b: Body, h: nat, at: nat, exn: int)
    requires h < |b.handlers|
  {
    InTry(b, h, at) && Accepts(code, b.handlers[h].kind, exn)
  }

  /** The first handler of the table, from `next` on, that the exception runs. */
  function FindHandler<D>(code: Code<D>, b: Body, at: nat, exn: int, next: nat): (h: nat)
    ensures h < |b.handlers| ==> next <= h && Takes(code, b, h, at, exn)
    decreases |b.handlers| - next
  {
    if next >= |b.handlers| then |b.handlers|
    else if Takes(code, b, next, at, exn) then next
    else FindHandler(code, b, at, exn, next + 1)
  }

  function Raise<D>(code: Code<D>, b: Body, at: nat, exn: int, next: nat, m: Machine<D>): Machine<D>
    requires m.Running?
  {
    var h := FindHandler(code, b, at, exn, next);
    if h >= |b.handlers| then Done(Threw(exn), m.log)
    else
      var start := IndexOf(b.instrs, b.handlers[h].start);
      var catching := b.handlers[h].kind.Catch? || b.handlers[h].kind.CatchAny?;
      var frame := Frame(h, if catching then Handling(exn) else Throwing(exn, at, h + 1));
      Goto(b, start, if catching then code.caught(m.data, exn) else code.cleared(m.data),
           Prune(b, m.frames, start) + [frame], m.vars, m.log)
  }

  /** The first finally block, from `next` on, that leaving `at` for `target` crosses. */
  function FindFinally(b: Body, at: nat, target: nat, next: nat): nat
    decreases |b.handlers| - next
  {
    if next >= |b.handlers| then |b.handlers|
    else if b.handlers[next].kind.Finally? && InTry(b, next, at) && !InTry(b, next, target) then next
    else FindFinally(b, at, target, next + 1)
  }

  function LeaveFor<D>(code: Code<D>, b: Body, at: nat, target: Ref, next: nat, m: Machine<D>): Machine<D>
    requires m.Running?
  {
    var goal := IndexOf(b.instrs, target);
    var h := FindFinally(b, at, goal, next);
    if h >= |b.handlers| then Goto(b, goal, code.cleared(m.data), Prune(b, m.frames, goal), m.vars, m.log)
    else
      var start := IndexOf(b.instrs, b.handlers[h].start);
      var frames := Prune(b, m.frames, start) + [Frame(h, Leaving(target, at, h + 1))];
      Goto(b, start, code.cleared(m.data), frames, m.vars, m.log)
  }

  function Advance<D>(b: Body, m: Machine<D>, data: D, vars: Vars, log: seq<Act<D>>): Machine<D>
    requires m.Running?
  {
    Goto(b, m.pc + 1, data, m.frames, vars, log)
  }

  function Step<D>(code: Code<D>, b: Body, m: Machine<D>): Machine<D> {
    if !m.Running? then m
    else if m.pc >= |b.instrs| then Stuck
    else
      var i := b.instrs[m.pc];
      match i.op
      case Plain(c) =>
        var after := Running(m.pc, m.data, m.frames, m.vars, m.log + [Did(i.ref, m.data)]);
        (match code.plain(c, m.data)
         case Next(d) => Advance(b, m, d, m.vars, after.log)
         case Throws(exn, d) => Raise(code, b, m.pc, exn, 0, after.(data := d)))
      case Branch(c, targets) =>
        var choice := code.branch(c, m.data);
        var log := m.log + [Did(i.ref, m.data)];
        if choice.taken.Some? && choice.taken.value < |targets|
        then Goto(b, IndexOf(b.instrs, targets[choice.taken.value]), choice.data, m.frames, m.vars, log)
        else Advance(b, m, choice.data, m.vars, log)
      case Leave(target) => LeaveFor(code, b, m.pc, target, 0, m)
      case EndFinally =>
        if m.frames == [] then Stuck else
          var top := m.frames[|m.frames| - 1];
          var rest := m.(frames := m.frames[..|m.frames| - 1]);
          (match top.pending
           case Throwing(exn, at, next) => Raise(code, b, at, exn, next, rest)
           case Leaving(target, at, next) => LeaveFor(code, b, at, target, next, rest)
           case Handling(_) => Stuck)
      case Rethrow =>
        if m.frames == [] || !m.frames[|m.frames| - 1].pending.Handling? then Stuck
        else Raise(code, b, m.pc, m.frames[|m.frames| - 1].pending.exn, 0, m)
      case Ret =>
        if InRegion(b, m.pc) then Stuck
        else Done(Returned(if b.returnsValue then code.top(m.data) else 0), m.log)
      case Stage => Advance(b, m, m.data, m.vars, m.log)
      case EnterOperation => Advance(b, m, m.data, m.vars, m.log + [Entered])
      case RecordInputs => Advance(b, m, m.data, m.vars, m.log + [Inputs])
      case StoreResult => Advance(b, m, m.data, m.vars.(result := code.top(m.data)), m.log)
      case LoadResult => Advance(b, m, code.push(m.data, m.vars.result), m.vars, m.log)
      case StoreError => Advance(b, m, m.data, m.vars.(error := code.top(m.data)), m.log)
      case ExitOk => Advance(b, m, m.data, m.vars, m.log + [ReportedOk(m.vars.result)])
      case ExitVoid => Advance(b, m, m.data, m.vars, m.log + [ReportedVoid])
      case ExitError => Advance(b, m, m.data, m.vars, m.log + [ReportedError(m.vars.error)])
  }

  function Run<D>(code: Code<D>, b: Body, m: Machine<D>, n: nat): Machine<D>
    decreases n
  {
    if n == 0 then m else Run(code, b, Step(code, b, m), n - 1)
  }

  /** A call: at the first instruction, with nothing recorded. */
  function Call<D>(b: Body, data: D): Machine<D> {
    Goto(b, 0, data, [], Vars(0, 0), [])
  }

  lemma {:induction false} RunAdds<D>(code: Code<D>, b: Body, m: Machine<D>, n: nat, k: nat)
    ensures Run(code, b, m, n + k) == Run(code, b, Run(code, b, m, n), k)
    decreases n
  {
    if n > 0 {
      RunAdds(code, b, Step(code, b, m), n - 1, k);
    }
  }
}
