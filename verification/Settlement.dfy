/** How the command-line tool turns a finished test process and its sidecar into evidence. */
module Settlement {
  import opened Wrappers
  import opened Utf8Order
  import opened CaptureModel
  import opened SessionSpec

  datatype Sidecar = Missing | Unreadable | Unparsable | Document(capture: Capture)

  datatype Reason = TestFailed | Unfinalized | Unrecordable

  /** `Stopped` ends the batch; the others are the outcomes of one test. */
  datatype Settled = Captured(capture: Capture) | Skipped | Failed(reason: Reason) | Stopped

  // The faults the tool looks for, by its own names.
  const INCOMPLETE_FAULT := Literal("incomplete_capture")
  const UNRECORDABLE_FAULT := Literal("specgate.unrecordable_value")

  predicate HasFault(span: OperationSpan, faultType: Text) {
    && span.completion.Some?
    && span.completion.value.outcome.Fault?
    && span.completion.value.outcome.faultType == faultType
  }

  predicate AnyFault(capture: Capture, faultType: Text) {
    exists span <- capture.operations :: HasFault(span, faultType)
  }

  /** The identity the tool issued to the test: the configuration of the session it starts. */
  predicate Issued(capture: Capture, config: Config) {
    capture.scenarioName == config.scenarioName && capture.traceId == config.traceId
    && capture.run.spanId == config.runId && capture.scenario.spanId == config.scenarioId
  }

  /** `marker`: the process output carries the persistence failure marker. */
  function Settle(config: Config, marker: bool, success: bool, sidecar: Sidecar): Settled {
    if marker then Stopped
    else if !success then Failed(TestFailed)
    else
      match sidecar
      case Missing => Skipped
      case Unreadable => Stopped
      case Unparsable => Stopped
      case Document(capture) =>
        if !Issued(capture, config) then Stopped
        else if capture.operations == [] then Skipped
        else if AnyFault(capture, INCOMPLETE_FAULT) then Failed(Unfinalized)
        else if AnyFault(capture, UNRECORDABLE_FAULT) then Failed(Unrecordable)
        else Captured(capture)
  }

  /** The completion that a diagnostic fault records. */
  ghost predicate Diagnostic(span: OperationSpan) {
    span.completion.Some? && span.completion.value.outcome.Fault? &&
    span.completion.value.outcome.faultType in {INCOMPLETE_FAULT, UNRECORDABLE_FAULT}
  }

  /** The four names issued to a test are the ones its sidecar carries. */
  ghost predicate SameIdentity(capture: Capture, config: Config) {
    (capture.scenarioName, capture.traceId, capture.run.spanId, capture.scenario.spanId)
    == (config.scenarioName, config.traceId, config.runId, config.scenarioId)
  }

  /** When a test is evidence, when it stops the batch and when it leaves nothing, for every process and sidecar. */
  lemma SettlesExactly(config: Config, marker: bool, success: bool, sidecar: Sidecar)
    ensures var settled := Settle(config, marker, success, sidecar);
            && (settled.Captured? <==>
                  && !marker && success && sidecar.Document? && SameIdentity(sidecar.capture, config)
                  && sidecar.capture.operations != []
                  && forall span <- sidecar.capture.operations :: !Diagnostic(span))
            && (settled.Captured? ==> settled.capture == sidecar.capture)
            && (settled.Stopped? <==>
                  || marker
                  || (success && (sidecar.Unreadable? || sidecar.Unparsable?))
                  || (success && sidecar.Document? && !SameIdentity(sidecar.capture, config)))
            && (settled.Skipped? <==>
                  && !marker && success
                  && (sidecar.Missing? ||
                      (sidecar.Document? && SameIdentity(sidecar.capture, config) && sidecar.capture.operations == [])))
            && (settled.Failed? && settled.reason.TestFailed? <==> !marker && !success)
  {
    if sidecar.Document? {
      var ops := sidecar.capture.operations;
      assert forall span <- ops ::
          Diagnostic(span) <==> HasFault(span, INCOMPLETE_FAULT) || HasFault(span, UNRECORDABLE_FAULT);
    }
  }

  lemma SameFault()
    ensures INCOMPLETE == INCOMPLETE_FAULT
  {
  }

  /** What a projection shows: the incomplete fault where it closed an operation, the real record elsewhere. */
  lemma {:induction false} ProjectionShows(s: Session, k: nat, untrusted: bool, i: nat)
    requires k <= i < |s.operations|
    ensures var q := CloseDown(s, k, untrusted).operations[i];
            if untrusted || Open(s.operations[i])
            then
              && q.completion.Some? && q.completion.value.outcome == Incomplete(s.operations[i].name)
              && q.status == Some(StatusError)
            else q == s.operations[i]
    decreases |s.operations| - k
  {
    if k < i {
      ProjectionShows(s, k + 1, untrusted, i);
    }
  }

  lemma {:induction false} NothingToClose(s: Session, k: nat)
    requires k <= |s.operations| && AllTerminated(s)
    ensures CloseDown(s, k, false) == s
    decreases |s.operations| - k
  {
    if k < |s.operations| {
      NothingToClose(s, k + 1);
      assert s.operations[k] in s.operations;
    }
  }

  /** An untrusted projection is never evidence, whatever else the process did. */
  lemma UntrustedIsNoEvidence(config: Config, marker: bool, success: bool, s: Session)
    ensures !Settle(config, marker, success, Document(Project(s, true))).Captured?
  {
    SameFault();
    hide INCOMPLETE, INCOMPLETE_FAULT, UNRECORDABLE_FAULT;
    var capture := Project(s, true);
    if capture.operations != [] {
      ProjectionShows(s, 0, true, 0);
      assert HasFault(capture.operations[0], INCOMPLETE);
      assert capture.operations[0] in capture.operations;
    }
  }

  /** The state itself, all of it terminated, and none of its faults a diagnostic one. */
  ghost predicate Evidence(s: Session) {
    && s.operations != [] && AllTerminated(s)
    && !AnyFault(Build(s), INCOMPLETE_FAULT) && !AnyFault(Build(s), UNRECORDABLE_FAULT)
  }

  /**
    A trusted projection is evidence exactly when the test passed without the marker and every operation had terminated
    with a recordable outcome.
   */
  lemma TrustedIsEvidence(config: Config, marker: bool, success: bool, s: Session)
    requires s.config == config
    ensures var settled := Settle(config, marker, success, Document(Project(s, false)));
            && (settled.Captured? <==> !marker && success && Evidence(s))
            && (settled.Captured? ==> settled.capture == Build(s))
  {
    hide INCOMPLETE, INCOMPLETE_FAULT, UNRECORDABLE_FAULT, AnyFault, CloseDown, BuildSpans, RootStatus, AllTerminated;
    if AllTerminated(s) {
      NothingToClose(s, 0);
    } else {
      OpenIsDiagnosed(s);
    }
  }

  /** An open operation shows in a projection as the fault the tool looks for. */
  lemma OpenIsDiagnosed(s: Session)
    requires !AllTerminated(s)
    ensures AnyFault(Project(s, false), INCOMPLETE_FAULT)
  {
    SameFault();
    hide INCOMPLETE, INCOMPLETE_FAULT, UNRECORDABLE_FAULT;
    var p :| p in s.operations && Open(p);
    var i :| 0 <= i < |s.operations| && s.operations[i] == p;
    ProjectionShows(s, 0, false, i);
    hide CloseDown, AllTerminated;
    var capture := Project(s, false);
    assert HasFault(capture.operations[i], INCOMPLETE_FAULT);
    assert capture.operations[i] in capture.operations;
  }
}
