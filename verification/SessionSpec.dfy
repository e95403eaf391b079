/**
  The protocol state both producers implement: the logical clock, the event order
  counter, and the operations recorded so far. Every step is a function of this state;
  the C# and the Rust classes are proved to compute exactly these functions.
 */
module SessionSpec {
  import opened Wrappers
  import opened Utf8Order
  import FloatOrder
  import opened Values
  import opened CaptureModel

  /** The logical clock is a signed 64-bit integer in both producers. */
  const MAX_TIME := FloatOrder.TWO_63 - 1

  datatype Pending = Pending(
    order: nat, spanId: SpanId, parentId: SpanId, component: Text, name: Text, start: int,
    inputs: seq<Entry>, observations: seq<Observation>,
    completion: Option<Completion>, end: int, status: Option<Status>)

  datatype Session = Session(config: Config, operations: seq<Pending>, nextTime: int, nextOrder: nat)

  function Start(c: Config): Session {
    Session(c, [], c.startTime + c.step + c.step, 0)
  }

  predicate Open(p: Pending) { p.status.None? }

  predicate AllTerminated(s: Session) {
    forall p <- s.operations :: !Open(p)
  }

  // ---------------------------------------------------------------- steps

  /** The span identifier is allocated first, then the start time, then the start order. */
  function Begin(s: Session, spanId: SpanId, parentId: SpanId, component: Text, name: Text,
          inputs: seq<Entry>): Session {
    var p := Pending(s.nextOrder, spanId, parentId, component, name, s.nextTime, inputs, [], None, 0, None);
    s.(operations := s.operations + [p], nextTime := s.nextTime + s.config.step, nextOrder := s.nextOrder + 1)
  }

  function RecordInputs(s: Session, i: nat, inputs: seq<Entry>): Session
    requires i < |s.operations|
  {
    s.(operations := s.operations[i := s.operations[i].(inputs := inputs)])
  }

  function Observe(s: Session, i: nat, name: Text, value: Value): Session
    requires i < |s.operations|
  {
    var o := Observation(s.nextOrder, s.nextTime, name, value);
    var p := s.operations[i];
    s.(operations := s.operations[i := p.(observations := p.observations + [o])],
       nextTime := s.nextTime + s.config.step, nextOrder := s.nextOrder + 1)
  }

  /** A completion takes an order and a time for its event, then an end time; a unit completion only the end time. */
  function Complete(s: Session, i: nat, outcome: Option<Outcome>): Session
    requires i < |s.operations|
  {
    var p := s.operations[i];
    match outcome
    case None =>
      s.(operations := s.operations[i := p.(completion := None, end := s.nextTime, status := Some(StatusOk))],
         nextTime := s.nextTime + s.config.step)
    case Some(o) =>
      var end := s.nextTime + s.config.step;
      s.(operations := s.operations[i := p.(completion := Some(Completion(s.nextOrder, s.nextTime, o)), end := end,
                                            status := Some(RequiredStatus(outcome)))],
         nextTime := end + s.config.step, nextOrder := s.nextOrder + 1)
  }

  /**
    What a completion leaves behind when the clock overflows: its order is spent, and the first tick if it still
    fitted.
   */
  function Stalled(s: Session, outcome: Option<Outcome>): Session {
    if outcome.None? then s
    else
      var fits := s.nextTime + s.config.step <= MAX_TIME;
      s.(nextOrder := s.nextOrder + 1, nextTime := if fits then s.nextTime + s.config.step else s.nextTime)
  }

  /** Records the incomplete fault on operation i if it is open, or always when the capture is untrusted. */
  function CloseOne(s: Session, i: nat, untrusted: bool): Session
    requires i < |s.operations|
  {
    if untrusted || Open(s.operations[i]) then Complete(s, i, Some(Incomplete(s.operations[i].name))) else s
  }

  /** Closes from the last operation down to operation k. */
  function CloseDown(s: Session, k: nat, untrusted: bool): (r: Session)
    requires k <= |s.operations|
    ensures |r.operations| == |s.operations| && r.config == s.config
    ensures forall i | 0 <= i < k :: r.operations[i] == s.operations[i]
    ensures forall i | k <= i < |s.operations| :: !Open(r.operations[i])
    decreases |s.operations| - k
  {
    if k == |s.operations| then s else CloseOne(CloseDown(s, k + 1, untrusted), k, untrusted)
  }

  function CloseOutstanding(s: Session): Session { CloseDown(s, 0, false) }

  /** Closing only moves the clock forward. */
  lemma {:induction false} CloseMovesTime(s: Session, k: nat, untrusted: bool)
    requires k <= |s.operations| && s.config.step > 0
    ensures s.nextTime <= CloseDown(s, k, untrusted).nextTime <= CloseDown(s, 0, untrusted).nextTime
    decreases k
  {
    if k > 0 {
      CloseMovesTime(s, k - 1, untrusted);
    } else {
      CloseKeepsTime(s, 0, untrusted);
    }
    CloseKeepsTime(s, k, untrusted);
  }

  lemma {:induction false} CloseKeepsTime(s: Session, k: nat, untrusted: bool)
    requires k <= |s.operations| && s.config.step > 0
    ensures s.nextTime <= CloseDown(s, k, untrusted).nextTime
    decreases |s.operations| - k
  {
    if k < |s.operations| {
      CloseKeepsTime(s, k + 1, untrusted);
    }
  }

  /** Nothing open between j and k: closing down to j is closing down to k. */
  lemma {:induction false} CloseSkips(s: Session, j: nat, k: nat)
    requires j <= k <= |s.operations| && forall i | j <= i < k :: !Open(s.operations[i])
    ensures CloseDown(s, j, false) == CloseDown(s, k, false)
    decreases k - j
  {
    if j < k {
      CloseSkips(s, j + 1, k);
    }
  }

  // ---------------------------------------------------------------- the capture

  function BuildSpan(p: Pending): OperationSpan
    requires !Open(p)
  {
    OperationSpan(p.order, p.spanId, p.parentId, p.component, p.name, p.start, p.end, p.status.value,
                  p.inputs, p.observations, p.completion)
  }

  function BuildSpans(ps: seq<Pending>): (spans: seq<OperationSpan>)
    requires forall p <- ps :: !Open(p)
    ensures |spans| == |ps| && forall i | 0 <= i < |ps| :: spans[i] == BuildSpan(ps[i])
  {
    seq(|ps|, i requires 0 <= i < |ps| => BuildSpan(ps[i]))
  }

  predicate AnyError(spans: seq<OperationSpan>) {
    exists span <- spans :: span.status == StatusError
  }

  function RootStatus(spans: seq<OperationSpan>): Status {
    if AnyError(spans) then StatusError else StatusOk
  }

  function BuildCapture(c: Config, spans: seq<OperationSpan>, scenarioEnd: int): Capture {
    var status := RootStatus(spans);
    Capture(c.traceId, c.scenarioName,
            SpanBoundary(c.runId, None, c.startTime, scenarioEnd + c.step, status),
            SpanBoundary(c.scenarioId, Some(c.runId), c.startTime + c.step, scenarioEnd, status),
            spans)
  }

  function Build(s: Session): Capture
    requires AllTerminated(s)
  {
    BuildCapture(s.config, BuildSpans(s.operations), s.nextTime)
  }

  /** The capture as it stands: what closing a copy of the session would build. */
  function Project(s: Session, untrusted: bool): Capture {
    Build(CloseDown(s, 0, untrusted))
  }

  // ---------------------------------------------------------------- identifiers

  /** An identifier a new operation may not take. */
  predicate Reserved(s: Session, id: SpanId) {
    id == s.config.runId || id == s.config.scenarioId || exists p <- s.operations :: p.spanId == id
  }

  /** The identifier the next operation gets: the supplied one, else the first free candidate. */
  ghost predicate IsNextId(s: Session, id: SpanId) {
    if |s.operations| < |s.config.operationIds| then id == s.config.operationIds[|s.operations|]
    else exists c: nat :: |s.operations| + 1 <= c && FirstFree(s, c) && id == SpanText(c)
  }

  ghost predicate FirstFree(s: Session, c: nat) {
    !Reserved(s, SpanText(c)) && forall d: nat | |s.operations| + 1 <= d < c :: Reserved(s, SpanText(d))
  }

  /** The identifier is determined by the state. */
  lemma NextIdIsUnique(s: Session, a: SpanId, b: SpanId)
    requires IsNextId(s, a) && IsNextId(s, b)
    ensures a == b
  {
    if |s.operations| >= |s.config.operationIds| {
      var c: nat :| |s.operations| + 1 <= c && FirstFree(s, c) && a == SpanText(c);
      var d: nat :| |s.operations| + 1 <= d && FirstFree(s, d) && b == SpanText(d);
      assert c == d;
    }
  }

  ghost function ReservedIds(s: Session): (ids: set<SpanId>)
    ensures forall id :: id in ids <==> Reserved(s, id)
    ensures |ids| <= |s.operations| + 2
  {
    IdsAreFew(s.operations);
    {s.config.runId, s.config.scenarioId} + IdsOf(s.operations)
  }

  ghost function IdsOf(ps: seq<Pending>): set<SpanId> { set p <- ps :: p.spanId }

  lemma {:induction false} IdsAreFew(ps: seq<Pending>)
    ensures |IdsOf(ps)| <= |ps|
  {
    if ps != [] {
      var n := |ps| - 1;
      IdsAreFew(ps[..n]);
      assert ps == ps[..n] + [ps[n]];
      assert IdsOf(ps) == IdsOf(ps[..n]) + {ps[n].spanId};
    }
  }

  /** The texts of `skipped` consecutive candidates. */
  ghost function Texts(first: nat, skipped: nat): set<SpanId> {
    if skipped == 0 then {} else Texts(first, skipped - 1) + {SpanText(first + skipped - 1)}
  }

  lemma {:induction false} TextsAreDistinct(first: nat, skipped: nat)
    requires first + skipped <= HexRange(SPAN_WIDTH)
    ensures |Texts(first, skipped)| == skipped
    ensures forall id | id in Texts(first, skipped) ::
              exists d: nat :: first <= d < first + skipped && id == SpanText(d)
  {
    hide Hex, HexRange;
    if skipped > 0 {
      TextsAreDistinct(first, skipped - 1);
      var last := first + skipped - 1;
      if SpanText(last) in Texts(first, skipped - 1) {
        var d: nat :| first <= d < last && SpanText(last) == SpanText(d);
        HexInjective(last, d, SPAN_WIDTH);
      }
    }
  }

  /** While every candidate so far was reserved, no more than operations + 2 were skipped. */
  lemma SkippedAreFew(s: Session, first: nat, skipped: nat)
    requires first + skipped <= HexRange(SPAN_WIDTH)
    requires forall d: nat | first <= d < first + skipped :: Reserved(s, SpanText(d))
    ensures skipped <= |s.operations| + 2
  {
    TextsAreDistinct(first, skipped);
    assert Texts(first, skipped) <= ReservedIds(s);
    SubsetIsSmaller(Texts(first, skipped), ReservedIds(s));
  }

  lemma {:induction false} SubsetIsSmaller(a: set<SpanId>, b: set<SpanId>)
    requires a <= b
    ensures |a| <= |b|
  {
    assert b == a + (b - a);
  }
}
