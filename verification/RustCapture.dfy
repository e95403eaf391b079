/** The Rust capture state: the vector of operations changed in place behind the collector's mutex. */
module RustCapture {
  import opened Wrappers
  import opened Utf8Order
  import opened Values
  import opened CaptureModel
  import opened SessionSpec
  import opened RustCollector

  datatype Taken =
    | Finished(capture: Capture)
    | Unclosed
    | Poisoned
    | UnusedIds
    | Overflow

  class State {
    const config: Config
    var operations: seq<Pending>
    var parents: seq<Option<nat>>
    var current: Option<nat>
    var nextTime: int
    var nextOrder: nat
    var nextOp: nat
    var terminalError: bool

    ghost predicate Valid()
      reads this
    {
      ValidConfig(config) && Indexed(Collected()) && nextOp == |operations| && nextTime <= MAX_TIME
    }

    function Recorded(): Session
      reads this
    {
      Session(config, operations, nextTime, nextOrder)
    }

    function Collected(): Collector
      reads this
    {
      Collector(Recorded(), parents, current, terminalError)
    }

    constructor (config: Config)
      requires ValidConfig(config) && Start(config).nextTime <= MAX_TIME
      ensures Valid() && Collected() == Fresh(config)
    {
      this.config := config;
      operations, parents, current := [], [], None;
      nextTime, nextOrder, nextOp, terminalError := config.startTime + config.step + config.step, 0, 0, false;
    }

    /** `state.clone()`. */
    constructor Copy(original: State)
      requires original.Valid()
      ensures Valid() && Collected() == original.Collected() && nextOp == original.nextOp && config == original.config
    {
      config := original.config;
      operations, parents, current := original.operations, original.parents, original.current;
      nextTime, nextOrder, nextOp := original.nextTime, original.nextOrder, original.nextOp;
      terminalError := original.terminalError;
    }

    method Tick() returns (time: Option<int>)
      requires Valid()
      modifies this`nextTime
      ensures Valid()
      ensures time.Some? <==> old(nextTime) + config.step <= MAX_TIME
      ensures time.Some? ==> time.value == old(nextTime) && nextTime == old(nextTime) + config.step
      ensures time.None? ==> nextTime == old(nextTime)
    {
      var current := nextTime;
      if current + config.step > MAX_TIME {
        return None;
      }
      nextTime := current + config.step;
      return Some(current);
    }

    /** The supplied identifier, or the first candidate no span carries. */
    method NextSpan() returns (id: Option<SpanId>)
      requires Valid()
      ensures id.Some? ==> IsNextId(Recorded(), id.value)
      ensures nextOp + |operations| + 4 <= HexRange(SPAN_WIDTH) ==> id.Some?
      ensures id.Some? && |config.operationIds| <= nextOp ==>
                exists c: nat :: nextOp + 1 <= c <= nextOp + 1 + (|operations| + 2) && id.value == SpanText(c)
    {
      hide Hex, HexRange;
      if nextOp < |config.operationIds| {
        return Some(config.operationIds[nextOp]);
      }
      var candidate := nextOp + 1;
      while candidate < HexRange(SPAN_WIDTH)
        invariant nextOp + 1 <= candidate
        invariant candidate == nextOp + 1 || candidate <= HexRange(SPAN_WIDTH)
        invariant forall d: nat | nextOp + 1 <= d < candidate :: Reserved(Recorded(), SpanText(d))
      {
        SkippedAreFew(Recorded(), nextOp + 1, candidate - (nextOp + 1));
        var spanId := SpanText(candidate);
        if !Reserved(Recorded(), spanId) {
          assert FirstFree(Recorded(), candidate);
          return Some(spanId);
        }
        candidate := candidate + 1;
      }
      if candidate > nextOp + 1 {
        SkippedAreFew(Recorded(), nextOp + 1, candidate - (nextOp + 1));
      }
      return None;
    }

    method BeginActive(component: Text, name: Text, inputs: seq<Entry>) returns (index: Option<nat>)
      requires Valid()
      modifies this
      ensures Valid()
      ensures index.None? ==> Collected() == old(Collected())
      ensures index.Some? ==> index.value == |old(operations)| && !terminalError
      ensures !old(terminalError) && old(nextTime) + config.step <= MAX_TIME ==>
                2 * old(nextOp) + 6 <= HexRange(SPAN_WIDTH) ==> index.Some?
      ensures index.Some? ==> exists id | IsNextId(old(Recorded()), id) ::
                Collected() == RustCollector.BeginActive(old(Collected()), id, component, name, inputs)
    {
      hide IsNextId;
      if terminalError {
        return None;
      }
      var spanId := NextSpan();
      if spanId.None? {
        return None;
      }
      var parentOperation := current;
      var parentSpanId := if parentOperation.None? then config.scenarioId else operations[parentOperation.value].spanId;
      var start := Tick();
      if start.None? {
        return None;
      }
      var order := nextOrder;
      nextOrder := nextOrder + 1;
      var operationIndex := |operations|;
      operations := operations + [Pending(order, spanId.value, parentSpanId, component, name, start.value, inputs, [],
                                          None, 0, None)];
      parents := parents + [parentOperation];
      nextOp := nextOp + 1;
      current := Some(operationIndex);
      return Some(operationIndex);
    }

    method ReleaseOperation(i: nat)
      requires Valid() && i < |operations|
      modifies this`current
      ensures Valid() && Collected() == Release(old(Collected()), i)
    {
      if current == Some(i) {
        current := parents[i];
      }
    }

    /** Observes on the current operation; on a clock overflow only the order is spent. */
    method RecordObservation(name: Text, value: Value) returns (done: bool)
      requires Valid()
      modifies this`operations, this`nextTime, this`nextOrder
      ensures Valid()
      ensures done ==> Collected() == RustCollector.RecordObservation(old(Collected()), name, value)
      ensures done <==> RustCollector.RecordObservation(old(Collected()), name, value).session.nextTime <= MAX_TIME
      ensures !done ==>
                Collected() == old(Collected()).(session := old(Recorded()).(nextOrder := old(nextOrder) + 1))
    {
      if current.None? || name == RESULT || name == FAULT {
        return true;
      }
      var at := current.value;
      var order := nextOrder;
      nextOrder := nextOrder + 1;
      var time := Tick();
      if time.None? {
        return false;
      }
      var operation := operations[at];
      var observation := Observation(order, time.value, name, value);
      operations := operations[at := operation.(observations := operation.observations + [observation])];
      return true;
    }

    /** `OperationScope::complete`; the scope is consumed, so the operation is open. */
    method Complete(i: nat, terminal: Option<Outcome>) returns (done: bool)
      requires Valid() && i < |operations| && Open(operations[i])
      modifies this`operations, this`nextTime, this`nextOrder, this`current
      ensures Valid()
      ensures done <==> CompleteScope(old(Collected()), i, terminal).session.nextTime <= MAX_TIME
      ensures done ==> Collected() == CompleteScope(old(Collected()), i, terminal)
      ensures !done ==> Collected() == old(Collected()).(session := Stalled(old(Recorded()), terminal))
    {
      var completion: Option<Completion> := None;
      if terminal.Some? {
        var order := nextOrder;
        nextOrder := nextOrder + 1;
        var time := Tick();
        if time.None? {
          return false;
        }
        completion := Some(Completion(order, time.value, terminal.value));
      }
      var end := Tick();
      if end.None? {
        return false;
      }
      operations := operations[i := operations[i].(completion := completion, end := end.value,
                                                   status := Some(RequiredStatus(terminal)))];
      ReleaseOperation(i);
      return true;
    }

    /** `Drop`: in-memory only. A clock overflow poisons the session instead of losing the drop silently. */
    method DropScope(i: nat, panicking: bool, abandonable: bool)
      requires Valid() && i < |operations|
      modifies this
      ensures Valid()
      ensures RustCollector.DropScope(old(Collected()), i, panicking, abandonable).session.nextTime <= MAX_TIME ==>
                Collected() == RustCollector.DropScope(old(Collected()), i, panicking, abandonable)
      ensures RustCollector.DropScope(old(Collected()), i, panicking, abandonable).session.nextTime > MAX_TIME ==>
                var stalled := Stalled(old(Recorded()), Some(Abandoned));
                Collected() == Release(old(Collected()).(session := stalled, poisoned := true), i)
    {
      if operations[i].status.Some? {
        return;
      }
      if panicking || abandonable {
        var outcome := if panicking then Fault(UNEXPECTED, UNWOUND) else Abandoned;
        var done := Complete(i, Some(outcome));
        if !done {
          terminalError := true;
          ReleaseOperation(i);
        }
      } else {
        terminalError := true;
        ReleaseOperation(i);
      }
    }

    /** Closes the outstanding operations, last one first. */
    method CloseOutstanding() returns (done: bool)
      requires Valid()
      modifies this`operations, this`nextTime, this`nextOrder, this`current
      ensures Valid()
      ensures done <==> SessionSpec.CloseOutstanding(old(Recorded())).nextTime <= MAX_TIME
      ensures done ==> Recorded() == SessionSpec.CloseOutstanding(old(Recorded()))
      ensures |operations| == |old(operations)|
    {
      ghost var s := Recorded();
      var i := |operations|;
      while i > 0
        invariant 0 <= i <= |operations| == |s.operations| && Valid() && config == s.config
        invariant Recorded() == CloseDown(s, i, false)
      {
        i := i - 1;
        assert operations[i] == s.operations[i];
        CloseMovesTime(s, i, false);
        if operations[i].status.None? {
          var closed := Complete(i, Some(Incomplete(operations[i].name)));
          if !closed {
            return false;
          }
        }
      }
      return true;
    }

    /** What `persist_collector_capture` writes: a clone is closed and built, the session itself is untouched. */
    method Provisional() returns (capture: Option<Capture>)
      requires Valid()
      ensures capture.Some? <==>
                !terminalError && SessionSpec.CloseOutstanding(Recorded()).nextTime + config.step <= MAX_TIME
      ensures capture.Some? ==> capture.value == Project(Recorded(), false)
    {
      var provisional := new State.Copy(this);
      var closed := provisional.CloseOutstanding();
      if !closed || provisional.terminalError {
        return None;
      }
      if provisional.nextTime + config.step > MAX_TIME {
        return None;
      }
      return Some(Build(provisional.Recorded()));
    }

    method Finish() returns (taken: Taken)
      requires Valid()
      modifies this
      ensures taken.Finished? ==>
                AllTerminated(old(Recorded())) && !old(terminalError) && |config.operationIds| <= |old(operations)|
      ensures taken.Finished? ==> taken.capture == Build(old(Recorded()))
      ensures taken.Unclosed? ==>
                !AllTerminated(old(Recorded())) && Recorded() == SessionSpec.CloseOutstanding(old(Recorded()))
      ensures taken.Poisoned? ==> AllTerminated(old(Recorded())) && old(terminalError)
      ensures taken.Overflow? ==> !AllTerminated(old(Recorded())) || old(nextTime) + config.step > MAX_TIME
      ensures taken.UnusedIds? ==> AllTerminated(old(Recorded())) && |old(operations)| < |config.operationIds|
    {
      if exists p <- operations :: p.status.None? {
        var closed := CloseOutstanding();
        return if closed then Unclosed else Overflow;
      }
      if terminalError {
        return Poisoned;
      }
      if nextOp < |config.operationIds| {
        return UnusedIds;
      }
      if nextTime + config.step > MAX_TIME {
        return Overflow;
      }
      return Finished(Build(Recorded()));
    }
  }
}
