/**
  What a native capture records: spans, completions, the finished capture, and the
  configuration that fixes its identities and its clock. Both producers share it.
 */
module CaptureModel {
  import opened Wrappers
  import opened Utf8Order
  import FloatOrder
  import opened DecimalText
  import opened Values

  type SpanId = Text

  datatype Status = StatusUnset | StatusOk | StatusError

  datatype Outcome =
    | Returned(value: Value)
    | Absent
    | Declared(name: Text, payload: Option<Value>)
    | Fault(faultType: Text, message: Text)
    | Abandoned

  datatype Completion = Completion(order: nat, time: int, outcome: Outcome)

  /** The status a completion channel pins; no completion is a unit operation. */
  function RequiredStatus(outcome: Option<Outcome>): Status {
    match outcome
    case None => StatusOk
    case Some(Returned(_)) => StatusOk
    case Some(Absent) => StatusOk
    case Some(Declared(_, _)) => StatusError
    case Some(Fault(_, _)) => StatusError
    case Some(Abandoned) => StatusUnset
  }

  datatype Observation = Observation(order: nat, time: int, name: Text, value: Value)

  datatype OperationSpan = OperationSpan(
    order: nat, spanId: SpanId, parentId: SpanId, component: Text, name: Text,
    start: int, end: int, status: Status,
    inputs: seq<Entry>, observations: seq<Observation>, completion: Option<Completion>)

  datatype SpanBoundary = SpanBoundary(spanId: SpanId, parentId: Option<SpanId>, start: int, end: int, status: Status)

  datatype Capture = Capture(
    traceId: Text, scenarioName: Text, run: SpanBoundary, scenario: SpanBoundary, operations: seq<OperationSpan>)

  const INCOMPLETE := Literal("incomplete_capture")
  const UNEXPECTED := Literal("specgate.unexpected_target_fault")
  const UNWOUND := Literal("operation unwound before returning")

  /** The fault recorded for an operation that was still open when the capture ended. */
  function Incomplete(name: Text): Outcome {
    Fault(INCOMPLETE, Literal("native operation '") + name + Literal("' was still outstanding when the capture ended"))
  }

  // ---------------------------------------------------------------- configuration

  datatype Config = Config(
    scenarioName: Text, traceId: Text, runId: SpanId, scenarioId: SpanId,
    operationIds: seq<SpanId>, startTime: int, step: int)

  ghost predicate ValidConfig(c: Config) {
    && 0 <= c.startTime && 0 < c.step
    && c.runId != c.scenarioId
    && c.runId !in c.operationIds && c.scenarioId !in c.operationIds
    && forall i, j | 0 <= i < j < |c.operationIds| :: c.operationIds[i] != c.operationIds[j]
  }

  /** `CaptureConfigBuilder.Build` and `validate_config`: one pass with a set of the identifiers seen. */
  method CheckConfig(c: Config) returns (accepted: bool)
    ensures accepted <==> ValidConfig(c)
  {
    if c.startTime < 0 || c.step <= 0 {
      return false;
    }
    var seen := {c.runId};
    if c.scenarioId in seen {
      return false;
    }
    seen := seen + {c.scenarioId};
    for index := 0 to |c.operationIds|
      invariant forall id :: id in seen <==> id == c.runId || id == c.scenarioId || id in c.operationIds[..index]
      invariant c.runId !in c.operationIds[..index] && c.scenarioId !in c.operationIds[..index]
      invariant forall i, j | 0 <= i < j < index :: c.operationIds[i] != c.operationIds[j]
    {
      var candidate := c.operationIds[index];
      if candidate in seen {
        if k :| 0 <= k < index && c.operationIds[k] == candidate {
          assert !ValidConfig(c);
        }
        return false;
      }
      assert c.operationIds[..index + 1] == c.operationIds[..index] + [candidate];
      seen := seen + {candidate};
    }
    assert c.operationIds[..|c.operationIds|] == c.operationIds;
    return true;
  }

  // ---------------------------------------------------------------- synthesized identifiers

  /** `width` lowercase hexadecimal digits of n. */
  function Hex(n: nat, width: nat): (s: Text)
    ensures |s| == width
  {
    if width == 0 then [] else Hex(n / 16, width - 1) + [HexDigit(n % 16)]
  }

  function HexRange(width: nat): nat {
    if width == 0 then 1 else 16 * HexRange(width - 1)
  }

  lemma HexDigitInjective(a: nat, b: nat)
    requires a < 16 && b < 16 && HexDigit(a) == HexDigit(b)
    ensures a == b
  {
  }

  /** Different numbers in range are written differently. */
  lemma {:induction false} HexInjective(a: nat, b: nat, width: nat)
    requires a < HexRange(width) && b < HexRange(width) && Hex(a, width) == Hex(b, width)
    ensures a == b
  {
    if width > 0 {
      var s, t := Hex(a, width), Hex(b, width);
      assert s[width - 1] == t[width - 1];
      HexDigitInjective(a % 16, b % 16);
      assert s[..width - 1] == Hex(a / 16, width - 1) && t[..width - 1] == Hex(b / 16, width - 1);
      HexInjective(a / 16, b / 16, width - 1);
    }
  }

  lemma DivideTwice(n: nat, k: nat)
    requires k > 0
    ensures n / 16 / k == n / (16 * k)
  {
    var q := n / (16 * k);
    assert n == q * (16 * k) + n % (16 * k) && q * (16 * k) == 16 * (q * k);
    assert q * k <= n / 16 < (q + 1) * k;
    Quotient(n / 16, k, q);
  }

  lemma Quotient(n: nat, k: nat, q: nat)
    requires k > 0 && q * k <= n < (q + 1) * k
    ensures n / k == q
  {
    var d := n / k;
    assert d * k <= n < d * k + k;
    assert d < q ==> (d + 1) * k <= q * k;
    assert q < d ==> (q + 1) * k <= d * k;
  }

  /** The digit of weight 16^i stands i places from the end. */
  lemma {:induction false} HexAt(n: nat, width: nat, i: nat)
    requires i < width
    ensures HexRange(i) > 0
    ensures Hex(n, width)[width - 1 - i] == HexDigit(n / HexRange(i) % 16)
    decreases i
  {
    if i > 0 {
      HexAt(n / 16, width - 1, i - 1);
      DivideTwice(n, HexRange(i - 1));
    }
  }

  const SPAN_WIDTH := 16

  /** Sixteen digits write exactly the candidates of 64 bits. */
  lemma SpanWidthIsExact()
    ensures HexRange(SPAN_WIDTH) == FloatOrder.TWO_64 && |SpanText(0)| == 16
  {
    assert HexRange(4) == 0x1_0000;
    assert HexRange(8) == 0x1_0000_0000;
    assert HexRange(12) == 0x1_0000_0000_0000;
  }

  /** `candidate.ToString("x16")` and `{candidate:016x}`. */
  function SpanText(candidate: nat): SpanId { Hex(candidate, SPAN_WIDTH) }
}
