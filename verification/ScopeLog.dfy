/**
  The captures of the Rust collector, told by the scope actions of the run: each recorded outcome goes back to the end
  or the loss of that scope, and no observation bears a reserved name.
 */
module ScopeLog {
  import opened Wrappers
  import opened Utf8Order
  import opened CaptureModel
  import opened SessionSpec
  import opened SessionLaws
  import opened RustCollector
  import L = CaptureLog

  /** The actions of the session a run of scopes stands for, one for one. */
  ghost function LogOf(c: Collector, actions: seq<ScopeAction>): (log: seq<Action>)
    requires Indexed(c) && Feasible(c, actions)
    ensures |log| == |actions|
    decreases |actions|
  {
    if actions == [] then []
    else
      PerformIndexed(c, actions[0]);
      [SessionAction(c, actions[0])] + LogOf(Perform(c, actions[0]), actions[1..])
  }

  /** The session of a run of scopes is the session of its log, so a capture of it is told by `CaptureTells`. */
  lemma {:induction false} ScopesAreLogged(c: Collector, actions: seq<ScopeAction>)
    requires Indexed(c) && Feasible(c, actions)
    ensures Runs(c.session, LogOf(c, actions)) && Final(c, actions).session == After(c.session, LogOf(c, actions))
    decreases |actions|
  {
    hide SessionAction, Perform, Apply, Enabled, Indexed;
    if actions != [] {
      PerformIndexed(c, actions[0]);
      PerformRecords(c, actions[0]);
      ScopesAreLogged(Perform(c, actions[0]), actions[1..]);
      assert LogOf(c, actions)[1..] == LogOf(Perform(c, actions[0]), actions[1..]);
    }
  }

  /** A completion in the log comes from the end of the scope, or from its loss with the outcome that calls for. */
  ghost predicate Caused(a: ScopeAction, i: nat, outcome: Option<Outcome>) {
    || a == EndScope(i, outcome)
    || (a.LoseScope? && a.i == i && a.panicking && outcome == Some(Fault(UNEXPECTED, UNWOUND)))
    || (a.LoseScope? && a.i == i && !a.panicking && a.abandonable && outcome == Some(Abandoned))
  }

  lemma {:induction false} CompletionsAreCaused(c: Collector, actions: seq<ScopeAction>, k: nat)
    requires Indexed(c) && Feasible(c, actions) && k < |actions| && LogOf(c, actions)[k].DoComplete?
    ensures var a := LogOf(c, actions)[k]; Caused(actions[k], a.i, a.outcome)
    decreases |actions|
  {
    hide Perform, Indexed, UNEXPECTED, UNWOUND;
    PerformIndexed(c, actions[0]);
    if k > 0 {
      CompletionsAreCaused(Perform(c, actions[0]), actions[1..], k - 1);
    }
  }

  /**
    Every outcome a run of scopes has recorded was ended with, or lost to: a panic is always recorded as the unexpected
    fault, never as abandonment, and an abandonment was no panic and no loss of a scope that cannot be abandoned.
   */
  lemma OutcomesAreCaused(config: Config, actions: seq<ScopeAction>, i: nat)
    requires Indexed(Fresh(config)) && Feasible(Fresh(config), actions)
    requires var s := Final(Fresh(config), actions).session; i < |s.operations| && !Open(s.operations[i])
    ensures var p := Final(Fresh(config), actions).session.operations[i];
            exists k :: 0 <= k < |actions| && Caused(actions[k], i, OutcomeOf(p))
  {
    var c, log := Fresh(config), LogOf(Fresh(config), actions);
    ScopesAreLogged(c, actions);
    L.RunTells(config, log);
    hide Final, Feasible, LogOf, Runs, After;
    var p := Final(c, actions).session.operations[i];
    assert L.Tells(config, log, i, p);
    L.StillOpen(config, log, i, p);
    var k := L.CompletedAt(log, i).value;
    CompletionsAreCaused(c, actions, k);
    assert log[k].outcome == OutcomeOf(p);
  }

  lemma {:induction false} ObservationsArePlain(c: Collector, actions: seq<ScopeAction>, k: nat)
    requires Indexed(c) && Feasible(c, actions) && k < |actions| && LogOf(c, actions)[k].DoObserve?
    ensures var a := LogOf(c, actions)[k];
            a.name != Literal("$result") && a.name != Literal("$fault") && actions[k] == ObserveNow(a.name, a.value)
    decreases |actions|
  {
    hide Perform, Indexed;
    PerformIndexed(c, actions[0]);
    if k > 0 {
      ObservationsArePlain(Perform(c, actions[0]), actions[1..], k - 1);
    }
  }

  lemma {:induction false} ObservedInLog(config: Config, log: seq<Action>, i: nat, j: nat) returns (k: nat)
    requires j < |L.ObservationsOf(config, log, i)|
    ensures k < |log| && log[k].DoObserve? && log[k].i == i
    ensures var o := L.ObservationsOf(config, log, i)[j];
            o.name == log[k].name && o.value == log[k].value && o.order == L.Events(log[..k])
    decreases |log|
  {
    var init := log[..|log| - 1];
    var before := L.ObservationsOf(config, init, i);
    if j < |before| {
      k := ObservedInLog(config, init, i, j);
      assert init[..k] == log[..k];
    } else {
      k := |log| - 1;
    }
  }

  /** What `$result` and `$fault` name is recorded as the completion, and never also observed. */
  lemma ReservedNamesAreNotObserved(config: Config, actions: seq<ScopeAction>, i: nat, j: nat)
    requires Indexed(Fresh(config)) && Feasible(Fresh(config), actions)
    requires var s := Final(Fresh(config), actions).session; i < |s.operations| && j < |s.operations[i].observations|
    ensures var o := Final(Fresh(config), actions).session.operations[i].observations[j];
            && o.name != Literal("$result") && o.name != Literal("$fault")
            && exists k :: 0 <= k < |actions| && actions[k] == ObserveNow(o.name, o.value)
  {
    var c, log := Fresh(config), LogOf(Fresh(config), actions);
    ScopesAreLogged(c, actions);
    L.RunTells(config, log);
    hide Final, Feasible, LogOf, Runs, After;
    assert L.Tells(config, log, i, Final(c, actions).session.operations[i]);
    var k := ObservedInLog(config, log, i, j);
    ObservationsArePlain(c, actions, k);
  }
}
