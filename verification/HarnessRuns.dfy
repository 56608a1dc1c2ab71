// Whole harness runs: the three run loops, what they have in common, and their safety.
module HarnessRuns {
  import opened Admission
  import opened Options

  datatype StepResult = StepResult(tokens: u64, output: string, redactions: u64)

  /** Executes a step, knowing the results of the steps before it. */
  type Executor = (seq<StepResult>, Step) -> StepResult

  /** The redacting gate: the redacted text and how many redactions it made. */
  type Scanner = string -> (string, u64)

  /** A human's decision on the side effect of the step at an index: `None` approves. */
  type Resolver = (nat, Step) -> Option<string>

  datatype Invocation = Invocation(seams: Seams, manifest: Manifest, grant: Grant, principal: Principal, turn: DataClass)

  // ---- Results and tallies of the steps executed so far ----

  /** The results of the first `k` steps. Steps run in order, so a run executes a prefix of the manifest's steps. */
  function Results(exec: Executor, steps: seq<Step>, k: nat): (r: seq<StepResult>)
    requires k <= |steps|
    ensures |r| == k
  {
    if k == 0 then []
    else
      var before := Results(exec, steps, k - 1);
      before + [exec(before, steps[k - 1])]
  }

  function Tokens(results: seq<StepResult>): u64 {
    if results == [] then 0 else SatAdd(Tokens(results[..|results| - 1]), results[|results| - 1].tokens)
  }

  function ToolCalls(steps: seq<Step>): (n: nat)
    ensures n <= |steps|
  {
    if steps == [] then 0
    else ToolCalls(steps[..|steps| - 1]) + if steps[|steps| - 1].kind == Tool then 1 else 0
  }

  function TallyAfter(exec: Executor, steps: seq<Step>, k: nat): Tally
    requires k <= |steps|
  {
    Tally(k, Tokens(Results(exec, steps, k)), ToolCalls(steps[..k]))
  }

  function TallyStep(t: Tally, step: Step, result: StepResult): Tally {
    Tally(t.steps + 1, SatAdd(t.tokens, result.tokens), t.toolCalls + if step.kind == Tool then 1 else 0)
  }

  lemma TallyGrows(exec: Executor, steps: seq<Step>, k: nat)
    requires k < |steps|
    ensures Results(exec, steps, k + 1) == Results(exec, steps, k) + [exec(Results(exec, steps, k), steps[k])]
    ensures TallyAfter(exec, steps, k + 1) ==
      TallyStep(TallyAfter(exec, steps, k), steps[k], exec(Results(exec, steps, k), steps[k]))
  {
    var before := Results(exec, steps, k);
    assert (before + [exec(before, steps[k])])[..k] == before;
    assert steps[..k + 1][..k] == steps[..k];
  }

  // ---- Where a run stops ----

  /** The outcome that stops the run before step `k`, if any. */
  type Stop = nat -> Option<Outcome>

  /** The first step from `k` on that is refused, or the number of steps. */
  function FirstStop(stop: Stop, n: nat, k: nat): (e: nat)
    requires k <= n
    ensures k <= e <= n && (forall j :: k <= j < e ==> stop(j).None?) && (e < n ==> stop(e).Some?)
    decreases n - k
  {
    if k == n || stop(k).Some? then k else FirstStop(stop, n, k + 1)
  }

  lemma FirstStopMonotone(a: Stop, b: Stop, n: nat)
    requires forall k :: 0 <= k < n && a(k).None? ==> b(k).None?
    ensures FirstStop(a, n, 0) <= FirstStop(b, n, 0)
  {
    var e := FirstStop(b, n, 0);
    assert e < n ==> a(e).Some?;
  }

  /** Refusal by the step gate. */
  function GateStop(inv: Invocation, run: Run, exec: Executor): Stop {
    (k: nat) =>
      if k < |inv.manifest.steps| then
        GateStep(inv.seams, run, inv.manifest, inv.manifest.steps[k], inv.principal, TallyAfter(exec, inv.manifest.steps, k))
      else None
  }

  /** Refusal by the autonomy gate or the human. */
  function AutonomyStop(inv: Invocation, resolve: Resolver, k: nat): Option<Outcome>
    requires k < |inv.manifest.steps|
  {
    var step := inv.manifest.steps[k];
    match AutonomyGate(inv.seams, inv.manifest, step)
    case Proceed => None
    case Refused(outcome) => Some(outcome)
    case NeedsApproval(_, _) =>
      match resolve(k, step)
      case None => None
      case Some(reason) => Some(ApprovalRejected(step.id, step.capability, reason))
  }

  function ApprovalStop(inv: Invocation, run: Run, exec: Executor, resolve: Resolver): Stop {
    (k: nat) =>
      if k >= |inv.manifest.steps| then None
      else
        match GateStop(inv, run, exec)(k)
        case Some(outcome) => Some(outcome)
        case None => AutonomyStop(inv, resolve, k)
  }

  /** What the loop of a run with approvals looks at before step `k`. */
  lemma ApprovalStopAt(inv: Invocation, run: Run, exec: Executor, resolve: Resolver, k: nat)
    requires k < |inv.manifest.steps|
    ensures var (step, tally) := (inv.manifest.steps[k], TallyAfter(exec, inv.manifest.steps, k));
      ApprovalStop(inv, run, exec, resolve)(k) ==
        match GateStep(inv.seams, run, inv.manifest, step, inv.principal, tally)
        case Some(outcome) => Some(outcome)
        case None => AutonomyStop(inv, resolve, k)
  {
    hide GateStep, TallyAfter, AutonomyStop;
    var (step, tally) := (inv.manifest.steps[k], TallyAfter(exec, inv.manifest.steps, k));
    assert GateStop(inv, run, exec)(k) == GateStep(inv.seams, run, inv.manifest, step, inv.principal, tally);
  }

  datatype Report = Report(outcome: Outcome, executed: nat)

  function ReportOf(inv: Invocation, exec: Executor, stop: Stop): (r: Report)
    ensures r.executed <= |inv.manifest.steps|
  {
    var n := |inv.manifest.steps|;
    var k := FirstStop(stop, n, 0);
    Report(if k < n then stop(k).value else Completed(TallyAfter(exec, inv.manifest.steps, n)), k)
  }

  function AdmissionOf(inv: Invocation): Admitted {
    AdmitRun(inv.seams, inv.manifest, inv.grant, inv.principal, inv.turn)
  }

  /** What `run_with_context` does. */
  function ContextRun(inv: Invocation, exec: Executor): (r: Report)
    ensures r.executed <= |inv.manifest.steps|
  {
    match AdmissionOf(inv)
    case Refuse(outcome) => Report(outcome, 0)
    case Admit(run) => ReportOf(inv, exec, GateStop(inv, run, exec))
  }

  /** What `run_with_approvals` does. */
  function ApprovalRun(inv: Invocation, exec: Executor, resolve: Resolver): (r: Report)
    ensures r.executed <= |inv.manifest.steps|
  {
    match AdmissionOf(inv)
    case Refuse(outcome) => Report(outcome, 0)
    case Admit(run) => ReportOf(inv, exec, ApprovalStop(inv, run, exec, resolve))
  }

  // ---- The run loops ----

  /** `run_with_context`. */
  method RunWithContext(inv: Invocation, exec: Executor) returns (outcome: Outcome, executed: nat)
    ensures Report(outcome, executed) == ContextRun(inv, exec)
  {
    hide GateStep;
    var admitted := AdmissionOf(inv);
    if admitted.Refuse? {
      return admitted.outcome, 0;
    }
    var run, steps := admitted.run, inv.manifest.steps;
    ghost var stop := GateStop(inv, run, exec);
    var tally := Tally(0, 0, 0);
    var seen: seq<StepResult> := [];
    executed := 0;
    for k := 0 to |steps|
      invariant executed == k && seen == Results(exec, steps, k) && tally == TallyAfter(exec, steps, k)
      invariant FirstStop(stop, |steps|, 0) == FirstStop(stop, |steps|, k)
    {
      var gate := GateStep(inv.seams, run, inv.manifest, steps[k], inv.principal, tally);
      if gate.Some? {
        return gate.value, k;
      }
      var result := exec(seen, steps[k]);
      TallyGrows(exec, steps, k);
      tally := TallyStep(tally, steps[k], result);
      seen := seen + [result];
      executed := k + 1;
    }
    outcome := Completed(tally);
  }

  /** `run_with_approvals`. */
  method RunWithApprovals(inv: Invocation, exec: Executor, resolve: Resolver) returns (outcome: Outcome, executed: nat)
    ensures Report(outcome, executed) == ApprovalRun(inv, exec, resolve)
  {
    hide GateStep, AutonomyGate, TallyAfter, Results, ApprovalStop;
    NothingUsed(exec, inv.manifest.steps);
    var admitted := AdmissionOf(inv);
    if admitted.Refuse? {
      return admitted.outcome, 0;
    }
    var run, steps := admitted.run, inv.manifest.steps;
    ghost var stop := ApprovalStop(inv, run, exec, resolve);
    var tally := Tally(0, 0, 0);
    var seen: seq<StepResult> := [];
    executed := 0;
    for k := 0 to |steps|
      invariant executed == k && seen == Results(exec, steps, k) && tally == TallyAfter(exec, steps, k)
      invariant FirstStop(stop, |steps|, 0) == FirstStop(stop, |steps|, k)
    {
      var step := steps[k];
      ApprovalStopAt(inv, run, exec, resolve, k);
      var gate := GateStep(inv.seams, run, inv.manifest, step, inv.principal, tally);
      if gate.Some? {
        return gate.value, k;
      }
      match AutonomyGate(inv.seams, inv.manifest, step) {
        case Proceed =>
        case Refused(refusal) => return refusal, k;
        case NeedsApproval(_, _) =>
          var decision := resolve(k, step);
          if decision.Some? {
            return ApprovalRejected(step.id, step.capability, decision.value), k;
          }
      }
      var result := exec(seen, step);
      TallyGrows(exec, steps, k);
      tally := TallyStep(tally, step, result);
      seen := seen + [result];
      executed := k + 1;
    }
    outcome := Completed(tally);
  }

  /** A result with its output scanned and the redactions added to its count. */
  function ScanResult(scan: Scanner, result: StepResult): StepResult {
    var (text, redactions) := scan(result.output);
    result.(output := text, redactions := SatAdd(result.redactions, redactions))
  }

  /** The executor whose every output is scanned before it is returned. */
  function Scanned(exec: Executor, scan: Scanner): Executor {
    (prior, step) => ScanResult(scan, exec(prior, step))
  }

  /** How many redactions the scanner makes over the first `k` steps, saturating. */
  function Redactions(exec: Executor, scan: Scanner, steps: seq<Step>, k: nat): u64
    requires k <= |steps|
  {
    if k == 0 then 0
    else
      var raw := exec(Results(Scanned(exec, scan), steps, k - 1), steps[k - 1]);
      SatAdd(Redactions(exec, scan, steps, k - 1), scan(raw.output).1)
  }

  /**
   * `run_with_compliance` is `run_with_context` over the scanned executor: every recorded result has been scanned, and
   * an executor is only ever shown scanned results.
   */
  method RunWithCompliance(inv: Invocation, exec: Executor, scan: Scanner)
    returns (outcome: Outcome, results: seq<StepResult>, totalRedactions: u64)
    ensures Report(outcome, |results|) == ContextRun(inv, Scanned(exec, scan))
    ensures results == Results(Scanned(exec, scan), inv.manifest.steps, |results|)
    ensures totalRedactions == Redactions(exec, scan, inv.manifest.steps, |results|)
  {
    hide GateStep;
    results, totalRedactions := [], 0;
    var admitted := AdmissionOf(inv);
    if admitted.Refuse? {
      return admitted.outcome, [], 0;
    }
    var run, steps := admitted.run, inv.manifest.steps;
    ghost var whole := Scanned(exec, scan);
    ghost var stop := GateStop(inv, run, whole);
    var tally := Tally(0, 0, 0);
    for k := 0 to |steps|
      invariant results == Results(whole, steps, k) && tally == TallyAfter(whole, steps, k)
      invariant totalRedactions == Redactions(exec, scan, steps, k)
      invariant FirstStop(stop, |steps|, 0) == FirstStop(stop, |steps|, k)
    {
      var gate := GateStep(inv.seams, run, inv.manifest, steps[k], inv.principal, tally);
      if gate.Some? {
        outcome := gate.value;
        return;
      }
      var result := exec(results, steps[k]);
      var (text, redactions) := scan(result.output);
      totalRedactions := SatAdd(totalRedactions, redactions);
      result := result.(output := text, redactions := SatAdd(result.redactions, redactions));
      TallyGrows(whole, steps, k);
      tally := TallyStep(tally, steps[k], result);
      results := results + [result];
    }
    outcome := Completed(tally);
  }

  // ---- Monotonicity ----

  /** A weaker grant executes a prefix of what a stronger one executes. */
  lemma WeakerGrantRunsPrefix(inv: Invocation, stronger: Grant, exec: Executor)
    requires Weaker(inv.grant, stronger)
    ensures ContextRun(inv, exec).executed <= ContextRun(inv.(grant := stronger), exec).executed
  {
    hide GateStep, AdmitRun, TallyAfter;
    var inv' := inv.(grant := stronger);
    if AdmissionOf(inv).Admit? {
      AdmissionMonotone(inv.seams, inv.manifest, inv.grant, stronger, inv.principal, inv.turn);
      var a, b := AdmissionOf(inv).run, AdmissionOf(inv').run;
      var n := |inv.manifest.steps|;
      forall k | 0 <= k < n && GateStop(inv, a, exec)(k).None?
        ensures GateStop(inv', b, exec)(k).None?
      {
        GateMonotone(inv.seams, a, b, inv.manifest, inv.manifest.steps[k], inv.principal, TallyAfter(exec, inv.manifest.steps, k));
      }
      FirstStopMonotone(GateStop(inv, a, exec), GateStop(inv', b, exec), n);
    }
  }

  /** Completing under a weaker grant means completing, with the same tally, under a stronger one. */
  lemma WeakerGrantCompletes(inv: Invocation, stronger: Grant, exec: Executor)
    requires Weaker(inv.grant, stronger) && ContextRun(inv, exec).outcome.Completed?
    ensures ContextRun(inv.(grant := stronger), exec) == ContextRun(inv, exec)
  {
    hide GateStep, AdmitRun, TallyAfter;
    WeakerGrantRunsPrefix(inv, stronger, exec);
    CompletedRunsAll(inv, exec);
    AdmissionCarries(inv, stronger);
  }

  lemma AdmissionCarries(inv: Invocation, stronger: Grant)
    requires Weaker(inv.grant, stronger) && AdmissionOf(inv).Admit?
    ensures AdmissionOf(inv.(grant := stronger)).Admit?
  {
    AdmissionMonotone(inv.seams, inv.manifest, inv.grant, stronger, inv.principal, inv.turn);
  }

  lemma CompletedRunsAll(inv: Invocation, exec: Executor)
    ensures ContextRun(inv, exec).outcome.Completed? <==> AdmissionOf(inv).Admit? && ContextRun(inv, exec).executed == |inv.manifest.steps|
  {
    hide TallyAfter;
  }

  /** The same holds with approvals, whatever the human decides. */
  lemma WeakerGrantApprovalsPrefix(inv: Invocation, stronger: Grant, exec: Executor, resolve: Resolver)
    requires Weaker(inv.grant, stronger)
    ensures ApprovalRun(inv, exec, resolve).executed <= ApprovalRun(inv.(grant := stronger), exec, resolve).executed
  {
    hide GateStep, AdmitRun, TallyAfter, ApprovalStop;
    var inv' := inv.(grant := stronger);
    if AdmissionOf(inv).Admit? {
      AdmissionMonotone(inv.seams, inv.manifest, inv.grant, stronger, inv.principal, inv.turn);
      var a, b := AdmissionOf(inv).run, AdmissionOf(inv').run;
      var n := |inv.manifest.steps|;
      forall k | 0 <= k < n && ApprovalStop(inv, a, exec, resolve)(k).None?
        ensures ApprovalStop(inv', b, exec, resolve)(k).None?
      {
        ApprovalStopAt(inv, a, exec, resolve, k);
        ApprovalStopAt(inv', b, exec, resolve, k);
        GateMonotone(inv.seams, a, b, inv.manifest, inv.manifest.steps[k], inv.principal, TallyAfter(exec, inv.manifest.steps, k));
      }
      FirstStopMonotone(ApprovalStop(inv, a, exec, resolve), ApprovalStop(inv', b, exec, resolve), n);
    }
  }

  /** A run with approvals executes a prefix of the same run without them. */
  lemma ApprovalsRunPrefix(inv: Invocation, exec: Executor, resolve: Resolver)
    ensures ApprovalRun(inv, exec, resolve).executed <= ContextRun(inv, exec).executed
  {
    hide GateStep, AdmitRun, TallyAfter, AutonomyStop;
    match AdmissionOf(inv)
    case Refuse(_) =>
    case Admit(run) =>
      FirstStopMonotone(ApprovalStop(inv, run, exec, resolve), GateStop(inv, run, exec), |inv.manifest.steps|);
  }

  /** Nothing that the run without approvals executes is held back. */
  ghost predicate NothingHeldBack(inv: Invocation, exec: Executor, resolve: Resolver) {
    forall k :: 0 <= k < ContextRun(inv, exec).executed ==> AutonomyStop(inv, resolve, k).None?
  }

  /** The two runs execute the same steps exactly when no executed step is held back. */
  lemma ApprovalsAgreeIff(inv: Invocation, exec: Executor, resolve: Resolver)
    ensures ApprovalRun(inv, exec, resolve).executed == ContextRun(inv, exec).executed <==> NothingHeldBack(inv, exec, resolve)
  {
    hide GateStep, AdmitRun, TallyAfter, AutonomyStop;
    match AdmissionOf(inv)
    case Refuse(_) =>
    case Admit(run) =>
      var n := |inv.manifest.steps|;
      var a, c := FirstStop(ApprovalStop(inv, run, exec, resolve), n, 0), FirstStop(GateStop(inv, run, exec), n, 0);
      ApprovalsRunPrefix(inv, exec, resolve);
      StopAt(inv, run, exec, resolve, a);
      forall k | 0 <= k < a
        ensures AutonomyStop(inv, resolve, k).None?
      {
        assert ApprovalStop(inv, run, exec, resolve)(k).None?;
      }
  }

  /** Before the gate refuses, a run with approvals can only stop because a step is held back. */
  lemma StopAt(inv: Invocation, run: Run, exec: Executor, resolve: Resolver, k: nat)
    requires k == FirstStop(ApprovalStop(inv, run, exec, resolve), |inv.manifest.steps|, 0)
    ensures k < FirstStop(GateStop(inv, run, exec), |inv.manifest.steps|, 0) ==> AutonomyStop(inv, resolve, k).Some?
  {
    hide GateStep, TallyAfter, AutonomyStop;
    if k < FirstStop(GateStop(inv, run, exec), |inv.manifest.steps|, 0) {
      assert GateStop(inv, run, exec)(k).None? && ApprovalStop(inv, run, exec, resolve)(k).Some?;
    }
  }

  /** An executed side effect was allowed: the harness is autonomous, or it is assisted and a human approved. */
  lemma SideEffectsAllowed(inv: Invocation, exec: Executor, resolve: Resolver, k: nat)
    requires k < ApprovalRun(inv, exec, resolve).executed && inv.seams.sideEffect(inv.manifest.steps[k].capability)
    ensures inv.manifest.autonomy == Autonomous
      || (inv.manifest.autonomy == Assisted && resolve(k, inv.manifest.steps[k]).None?)
  {
    hide GateStep, AdmitRun, TallyAfter;
    var run := AdmissionOf(inv).run;
    ApprovalStopAt(inv, run, exec, resolve, k);
    assert ApprovalStop(inv, run, exec, resolve)(k).None?;
  }

  // ---- Safety of every executed prefix ----

  /** Every executed step was requested, granted, authorized and within the payment boundary. */
  lemma ExecutedStepsAreAllowed(inv: Invocation, exec: Executor, k: nat)
    requires k < ContextRun(inv, exec).executed
    ensures var step := inv.manifest.steps[k];
      && step.capability in inv.manifest.requested && step.capability in inv.grant.granted
      && inv.seams.deny(inv.principal, step.capability).None?
      && (inv.seams.rail(step.capability).Some? ==> Permits(inv.manifest.boundary, inv.seams.rail(step.capability).value))
    ensures Sensitivity(inv.turn) <= Sensitivity(EffectiveCeiling(inv.grant, inv.manifest.ceiling))
  {
    hide TallyAfter;
    var run := AdmissionOf(inv).run;
    assert GateStop(inv, run, exec)(k).None?;
  }

  /** The budget the run is held to. */
  function BudgetOf(inv: Invocation): Budget { EffectiveBudget(inv.grant, inv.manifest.budget) }

  /** Before each executed step there was a step, a tool call and the token estimate left in the budget. */
  lemma RoomForStep(inv: Invocation, exec: Executor, k: nat)
    requires k < ContextRun(inv, exec).executed
    ensures var (t, step, b) := (TallyAfter(exec, inv.manifest.steps, k), inv.manifest.steps[k], BudgetOf(inv));
      && k < b.maxSteps && SatAdd(t.tokens, step.estimatedTokens) <= b.maxTokens
      && (step.kind == Tool ==> t.toolCalls < b.maxToolCalls)
  {
    hide Tokens, ToolCalls, Results;
    var run := AdmissionOf(inv).run;
    assert GateStop(inv, run, exec)(k).None?;
  }

  lemma {:induction false} ToolCallsBounded(inv: Invocation, exec: Executor, k: nat)
    requires k <= ContextRun(inv, exec).executed
    ensures ToolCalls(inv.manifest.steps[..k]) <= BudgetOf(inv).maxToolCalls
    decreases k
  {
    hide ContextRun, BudgetOf;
    if k > 0 {
      var steps := inv.manifest.steps;
      ToolCallsBounded(inv, exec, k - 1);
      RoomForStep(inv, exec, k - 1);
      assert steps[..k][..k - 1] == steps[..k - 1];
    }
  }

  /**
   * The first `k` steps keep steps and tool calls within the budget, and exceed the token budget by at most what the
   * last of them used beyond its estimate.
   */
  ghost predicate WithinBudget(b: Budget, exec: Executor, steps: seq<Step>, k: nat)
    requires k <= |steps|
  {
    var t := TallyAfter(exec, steps, k);
    && t.steps <= b.maxSteps && t.toolCalls <= b.maxToolCalls
    && (t.tokens <= b.maxTokens || (k > 0 && t.tokens - b.maxTokens <= Results(exec, steps, k)[k - 1].tokens - steps[k - 1].estimatedTokens))
  }

  lemma PrefixWithinBudget(inv: Invocation, exec: Executor, k: nat)
    requires k <= ContextRun(inv, exec).executed
    ensures WithinBudget(BudgetOf(inv), exec, inv.manifest.steps, k)
  {
    hide ContextRun, BudgetOf, Tokens, ToolCalls, Results;
    ToolCallsBounded(inv, exec, k);
    if k > 0 {
      RoomForStep(inv, exec, k - 1);
      TallyGrows(exec, inv.manifest.steps, k - 1);
    } else {
      NothingUsed(exec, inv.manifest.steps);
    }
  }

  /** A run keeps its effective budget. */
  lemma RunsWithinBudget(inv: Invocation, exec: Executor)
    ensures WithinBudget(BudgetOf(inv), exec, inv.manifest.steps, ContextRun(inv, exec).executed)
  {
    PrefixWithinBudget(inv, exec, ContextRun(inv, exec).executed);
  }

  lemma NothingUsed(exec: Executor, steps: seq<Step>)
    ensures Results(exec, steps, 0) == [] && TallyAfter(exec, steps, 0) == Tally(0, 0, 0)
  {}

  /** A run with approvals keeps the same budget. */
  lemma ApprovalsWithinBudget(inv: Invocation, exec: Executor, resolve: Resolver)
    ensures WithinBudget(BudgetOf(inv), exec, inv.manifest.steps, ApprovalRun(inv, exec, resolve).executed)
  {
    ApprovalsRunPrefix(inv, exec, resolve);
    PrefixWithinBudget(inv, exec, ApprovalRun(inv, exec, resolve).executed);
  }

  /** So does a run with compliance scanning, which changes outputs and redaction counts but no token count. */
  lemma ScannedWithinBudget(inv: Invocation, exec: Executor, scan: Scanner)
    ensures WithinBudget(BudgetOf(inv), Scanned(exec, scan), inv.manifest.steps, ContextRun(inv, Scanned(exec, scan)).executed)
    ensures forall prior, step :: Scanned(exec, scan)(prior, step).tokens == exec(prior, step).tokens
  {
    RunsWithinBudget(inv, Scanned(exec, scan));
  }

  /** Each recorded result is the scan of what the executor returned when shown only scanned results. */
  lemma {:induction false} ResultsAreScanned(exec: Executor, scan: Scanner, steps: seq<Step>, k: nat, i: nat)
    requires i < k <= |steps|
    ensures var rs := Results(Scanned(exec, scan), steps, k);
      && rs[..i] == Results(Scanned(exec, scan), steps, i)
      && rs[i].output == scan(exec(rs[..i], steps[i]).output).0
    decreases k
  {
    if i < k - 1 {
      ResultsAreScanned(exec, scan, steps, k - 1, i);
      var before, rs := Results(Scanned(exec, scan), steps, k - 1), Results(Scanned(exec, scan), steps, k);
      assert rs[..i] == before[..i];
    }
  }

  /** A run is as safe as its scanner: no recorded output fails a property every scanned text has. */
  lemma OutputsAreClean(exec: Executor, scan: Scanner, steps: seq<Step>, k: nat, clean: string -> bool)
    requires k <= |steps| && forall s :: clean(scan(s).0)
    ensures forall i :: 0 <= i < k ==> clean(Results(Scanned(exec, scan), steps, k)[i].output)
  {
    forall i | 0 <= i < k
      ensures clean(Results(Scanned(exec, scan), steps, k)[i].output)
    {
      ResultsAreScanned(exec, scan, steps, k, i);
    }
  }
}
