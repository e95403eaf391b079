/** The C# `CaptureSession`: the protocol state under its lock, with a checked 64-bit clock. */
module CSharpSession {
  import opened Wrappers
  import opened Utf8Order
  import opened Values
  import opened CaptureModel
  import opened SessionSpec

  datatype Finished =
    | Built(capture: Capture)
    | AlreadyFinished
    | Unclosed
    | UnusedIds
    | ClockOverflow

  ghost predicate SortedIndices(indices: seq<nat>) {
    forall k, l | 0 <= k < l < |indices| :: indices[k] < indices[l]
  }

  /** One past the last of the first `index` listed operations. */
  ghost function Bound(indices: seq<nat>, index: nat): nat
    requires index <= |indices|
  {
    if index == 0 then 0 else indices[index - 1] + 1
  }

  /** Between two neighbours in the list of open operations there is nothing to close. */
  lemma SkipTo(s: Session, indices: seq<nat>, index: nat)
    requires SortedIndices(indices) && index <= |indices|
    requires forall i: nat :: i in indices <==> i < |s.operations| && Open(s.operations[i])
    ensures forall k | 0 <= k < |indices| :: indices[k] < |s.operations|
    ensures CloseDown(s, Bound(indices, index), false) ==
            CloseDown(s, if index == |indices| then |s.operations| else indices[index], false)
  {
    forall k | 0 <= k < |indices| ensures indices[k] < |s.operations| {
      assert indices[k] in indices;
    }
    var high := if index == |indices| then |s.operations| else indices[index];
    assert Bound(indices, index) <= high;
    forall i | Bound(indices, index) <= i < high ensures !Open(s.operations[i]) {
      if i in indices {
        var m :| 0 <= m < |indices| && indices[m] == i;
        assert false;
      }
    }
    CloseSkips(s, Bound(indices, index), high);
  }

  /** The spans projected so far: exactly the operations from `index` on that are shown as incomplete. */
  ghost predicate Projected(s: Session, index: nat, untrusted: bool, projected: map<nat, OperationSpan>)
    requires index <= |s.operations|
  {
    var closed := CloseDown(s, index, untrusted).operations;
    && (forall i | i in projected :: index <= i < |s.operations| && projected[i] == BuildSpan(closed[i]))
    && (forall i | index <= i < |s.operations| && i !in projected :: closed[i] == s.operations[i])
  }

  lemma ProjectedSkip(s: Session, index: nat, untrusted: bool, projected: map<nat, OperationSpan>)
    requires index < |s.operations| && Projected(s, index + 1, untrusted, projected)
    requires !untrusted && !Open(s.operations[index])
    ensures && Projected(s, index, untrusted, projected)
            && CloseDown(s, index, untrusted) == CloseDown(s, index + 1, untrusted)
  {
  }

  lemma ProjectedClose(s: Session, index: nat, untrusted: bool, projected: map<nat, OperationSpan>, span: OperationSpan)
    requires index < |s.operations| && Projected(s, index + 1, untrusted, projected)
    requires untrusted || Open(s.operations[index])
    requires span == BuildSpan(CloseDown(s, index, untrusted).operations[index])
    ensures Projected(s, index, untrusted, projected[index := span])
  {
  }

  lemma ProjectedNone(s: Session, untrusted: bool)
    ensures CloseDown(s, |s.operations|, untrusted) == s && Projected(s, |s.operations|, untrusted, map[])
  {
  }

  /** Closing one more operation takes one order and two ticks. */
  lemma CloseStep(s: Session, index: nat, untrusted: bool)
    requires index < |s.operations| && (untrusted || Open(s.operations[index]))
    ensures var before, after := CloseDown(s, index + 1, untrusted), CloseDown(s, index, untrusted);
            var p := s.operations[index];
            var fault := Completion(before.nextOrder, before.nextTime, Incomplete(p.name));
            && after.nextOrder == before.nextOrder + 1
            && after.nextTime == before.nextTime + s.config.step + s.config.step
            && after.operations[index]
               == p.(completion := Some(fault), end := before.nextTime + s.config.step, status := Some(StatusError))
  {
  }

  class CaptureSession {
    const config: Config
    var operations: seq<Pending>
    var nextTime: int
    var nextOrder: nat
    var nextOp: nat
    var finished: bool

    ghost predicate Valid()
      reads this
    {
      ValidConfig(config) && nextOp == |operations| && nextTime <= MAX_TIME
    }

    function State(): Session
      reads this
    {
      Session(config, operations, nextTime, nextOrder)
    }

    constructor (config: Config)
      requires ValidConfig(config) && config.startTime + config.step + config.step <= MAX_TIME
      ensures Valid() && State() == Start(config) && !finished
    {
      this.config := config;
      operations, nextOrder, nextOp, finished := [], 0, 0, false;
      nextTime := config.startTime + config.step + config.step;
    }

    /** The constructor throws when its clock additions overflow. */
    static method Create(config: Config) returns (session: CaptureSession?)
      requires ValidConfig(config)
      ensures session != null <==> Start(config).nextTime <= MAX_TIME
      ensures session != null ==> fresh(session) && session.Valid() && session.State() == Start(config)
    {
      if config.startTime + config.step + config.step > MAX_TIME {
        return null;
      }
      session := new CaptureSession(config);
    }

    method Tick() returns (time: Option<int>)
      requires Valid()
      modifies this`nextTime
      ensures Valid()
      ensures time.Some? <==> old(nextTime) + config.step <= MAX_TIME
      ensures if time.Some? then time.value == old(nextTime) && nextTime == old(nextTime) + config.step
              else nextTime == old(nextTime)
    {
      var current := nextTime;
      if current + config.step > MAX_TIME {
        return None;
      }
      nextTime := current + config.step;
      return Some(current);
    }

    method Order() returns (order: nat)
      modifies this`nextOrder
      ensures order == old(nextOrder) && nextOrder == old(nextOrder) + 1
    {
      order := nextOrder;
      nextOrder := nextOrder + 1;
    }

    /** The search skips at most operations + 2 candidates, so it cannot run out of identifiers. */
    method NextSpanId() returns (id: Option<SpanId>)
      requires Valid()
      ensures id.Some? ==> IsNextId(State(), id.value)
      ensures nextOp + |operations| + 4 <= HexRange(SPAN_WIDTH) ==> id.Some?
      ensures id.Some? && |config.operationIds| <= nextOp ==>
                exists c: nat :: nextOp + 1 <= c <= nextOp + 1 + (|operations| + 2) && id.value == SpanText(c)
    {
      hide Hex, HexRange;
      if nextOp < |config.operationIds| {
        return Some(config.operationIds[nextOp]);
      }
      var candidate := nextOp + 1;
      if candidate >= HexRange(SPAN_WIDTH) {
        return None;
      }
      while true
        invariant nextOp + 1 <= candidate < HexRange(SPAN_WIDTH)
        invariant forall d: nat | nextOp + 1 <= d < candidate :: Reserved(State(), SpanText(d))
        decreases HexRange(SPAN_WIDTH) - candidate
      {
        SkippedAreFew(State(), nextOp + 1, candidate - (nextOp + 1));
        var text := SpanText(candidate);
        if !Reserved(State(), text) {
          assert FirstFree(State(), candidate);
          return Some(text);
        }
        if candidate + 1 >= HexRange(SPAN_WIDTH) {
          SkippedAreFew(State(), nextOp + 1, candidate + 1 - (nextOp + 1));
          return None;
        }
        candidate := candidate + 1;
      }
    }

    /** Registers a starting operation; on a clock overflow no operation is added. */
    method Begin(component: Text, name: Text, parentId: Option<SpanId>) returns (index: Option<nat>)
      requires Valid()
      modifies this`operations, this`nextTime, this`nextOrder, this`nextOp
      ensures Valid()
      ensures index.Some? ==> !finished && exists id | IsNextId(old(State()), id) ::
                State()
                  == SessionSpec.Begin(old(State()), id, if parentId.Some? then parentId.value else config.scenarioId,
                                             component, name, [])
      ensures index.Some? ==> index.value == |old(operations)|
      ensures index.None? ==> State() == old(State())
      ensures !finished && old(nextTime) + config.step <= MAX_TIME && 2 * nextOp + 6 <= HexRange(SPAN_WIDTH) ==>
                index.Some?
    {
      hide Hex, HexRange, IsNextId;
      if finished {
        return None;
      }
      var spanId := NextSpanId();
      if spanId.None? {
        return None;
      }
      var start := Tick();
      if start.None? {
        return None;
      }
      var order := Order();
      var parent := if parentId.Some? then parentId.value else config.scenarioId;
      var pending := Pending(order, spanId.value, parent, component, name, start.value, [], [], None, 0, None);
      operations := operations + [pending];
      nextOp := nextOp + 1;
      return Some(nextOp - 1);
    }

    method RecordInputs(i: nat, inputs: seq<Entry>)
      requires Valid() && i < |operations|
      modifies this`operations
      ensures Valid() && State() == SessionSpec.RecordInputs(old(State()), i, inputs)
    {
      operations := operations[i := operations[i].(inputs := inputs)];
    }

    /** The locked part of a completion; refuses an operation that already has one. */
    method Complete(i: nat, outcome: Option<Outcome>) returns (done: bool)
      requires Valid() && i < |operations|
      modifies this`operations, this`nextTime, this`nextOrder
      ensures Valid()
      ensures done <==> Open(old(operations)[i]) && SessionSpec.Complete(old(State()), i, outcome).nextTime <= MAX_TIME
      ensures done ==> State() == SessionSpec.Complete(old(State()), i, outcome)
      ensures !done && Open(old(operations)[i]) ==> State() == Stalled(old(State()), outcome)
      ensures !Open(old(operations)[i]) ==> State() == old(State())
    {
      if operations[i].status.Some? {
        return false;
      }
      var built: Option<Completion> := None;
      if outcome.Some? {
        var order := Order();
        var time := Tick();
        if time.None? {
          return false;
        }
        built := Some(Completion(order, time.value, outcome.value));
      }
      var end := Tick();
      if end.None? {
        return false;
      }
      operations := operations[i := operations[i].(completion := built, end := end.value,
                                                   status := Some(RequiredStatus(outcome)))];
      return true;
    }

    /** Closes what is open, last operation first; stops where the clock overflows. */
    method CloseOutstanding() returns (done: bool)
      requires Valid()
      modifies this`operations, this`nextTime, this`nextOrder
      ensures Valid()
      ensures done <==> SessionSpec.CloseOutstanding(old(State())).nextTime <= MAX_TIME
      ensures done ==> State() == SessionSpec.CloseOutstanding(old(State()))
    {
      ghost var s := State();
      var outstanding := Outstanding();
      var index := |outstanding|;
      SkipTo(s, outstanding, index);
      while index > 0
        invariant 0 <= index <= |outstanding| && Valid() && config == s.config
        invariant State() == CloseDown(s, Bound(outstanding, index), false)
      {
        index := index - 1;
        var i := outstanding[index];
        assert i in outstanding;
        CloseMovesTime(s, i, false);
        assert operations[i] == s.operations[i];
        var closed := Complete(i, Some(Incomplete(operations[i].name)));
        if !closed {
          return false;
        }
        SkipTo(s, outstanding, index);
      }
      return true;
    }

    /** The open operations, in start order. */
    method Outstanding() returns (indices: seq<nat>)
      requires Valid()
      ensures SortedIndices(indices)
      ensures forall i: nat :: i in indices <==> i < |operations| && Open(operations[i])
    {
      indices := [];
      for i := 0 to |operations|
        invariant SortedIndices(indices)
        invariant forall k: nat :: k in indices <==> k < i && Open(operations[k])
      {
        if operations[i].status.None? {
          assert forall k | 0 <= k < |indices| :: indices[k] in indices;
          indices := indices + [i];
        }
      }
    }

    /** Projects the capture as it stands; a query, so it never moves the session. */
    method Snapshot(untrusted: bool) returns (capture: Option<Capture>)
      requires Valid()
      ensures capture.Some? <==> CloseDown(State(), 0, untrusted).nextTime + config.step <= MAX_TIME
      ensures capture.Some? ==> capture.value == Project(State(), untrusted)
    {
      hide CloseDown, Projected, BuildSpan;
      ghost var s := State();
      ProjectedNone(s, untrusted);
      var time, order := nextTime, nextOrder;
      var projected: map<nat, OperationSpan> := map[];
      var index := |operations|;
      while index > 0
        invariant 0 <= index <= |operations|
        invariant time == CloseDown(s, index, untrusted).nextTime && order == CloseDown(s, index, untrusted).nextOrder
        invariant time <= MAX_TIME
        invariant Projected(s, index, untrusted, projected)
      {
        index := index - 1;
        CloseMovesTime(s, index, untrusted);
        var operation := operations[index];
        assert CloseDown(s, index + 1, untrusted).operations[index] == operation;
        if !untrusted && operation.status.Some? {
          ProjectedSkip(s, index, untrusted, projected);
          continue;
        }
        CloseStep(s, index, untrusted);
        var faultOrder, faultTime := order, time;
        order := order + 1;
        if time + config.step > MAX_TIME {
          return None;
        }
        time := time + config.step;
        var end := time;
        if time + config.step > MAX_TIME {
          return None;
        }
        time := time + config.step;
        var fault := Completion(faultOrder, faultTime, Incomplete(operation.name));
        var span := BuildSpan(operation.(completion := Some(fault), end := end, status := Some(StatusError)));
        ProjectedClose(s, index, untrusted, projected, span);
        projected := projected[index := span];
      }
      var spans := ProjectedSpans(projected, untrusted);
      if time + config.step > MAX_TIME {
        return None;
      }
      return Some(BuildCapture(config, spans, time));
    }

    /** Every operation in order: its projected span if it has one, else its own. */
    method ProjectedSpans(projected: map<nat, OperationSpan>, ghost untrusted: bool) returns (spans: seq<OperationSpan>)
      requires Projected(State(), 0, untrusted, projected)
      ensures spans == BuildSpans(CloseDown(State(), 0, untrusted).operations)
    {
      ghost var closed := CloseDown(State(), 0, untrusted).operations;
      spans := [];
      for i := 0 to |operations|
        invariant |spans| == i && forall k | 0 <= k < i :: spans[k] == BuildSpan(closed[k])
      {
        spans := spans + [if i in projected then projected[i] else BuildSpan(operations[i])];
      }
    }

    /** Finishes the session: records open operations as faults before refusing, else builds the capture. */
    method Finish() returns (result: Finished)
      requires Valid()
      modifies this`finished, this`operations, this`nextTime, this`nextOrder
      ensures Valid() && finished
      ensures result.AlreadyFinished? <==> old(finished)
      ensures result.AlreadyFinished? ==> State() == old(State())
      ensures result.Unclosed? ==> !AllTerminated(old(State())) && State() == SessionSpec.CloseOutstanding(old(State()))
      ensures result.UnusedIds? ==> AllTerminated(old(State())) && |operations| < |config.operationIds|
      ensures result.Built? ==>
                AllTerminated(old(State())) && State() == old(State()) && |config.operationIds| <= |operations|
      ensures result.Built? ==> result.capture == Build(old(State())) == Project(old(State()), false)
      ensures result.ClockOverflow? ==> !AllTerminated(old(State())) || old(nextTime) + config.step > MAX_TIME
      ensures AllTerminated(old(State())) ==> !result.Unclosed?
    {
      if finished {
        return AlreadyFinished;
      }
      finished := true;
      var outstanding := Outstanding();
      if |outstanding| > 0 {
        assert !AllTerminated(State()) by { assert operations[outstanding[0]] in operations; }
        var closed := CloseOutstanding();
        return if closed then Unclosed else ClockOverflow;
      }
      if nextOp < |config.operationIds| {
        return UnusedIds;
      }
      CloseSkips(State(), 0, |operations|);
      if nextTime + config.step > MAX_TIME {
        return ClockOverflow;
      }
      return Built(BuildCapture(config, BuildSpans(operations), nextTime));
    }
  }
}
