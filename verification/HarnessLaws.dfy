// When a harness run is admitted, completes or stops, and what it then reports, stated from the invocation.
module HarnessLaws {
  import opened Admission
  import opened HarnessRuns
  import opened Options

  // ---- Admission ----

  predicate MayRun(inv: Invocation) { inv.principal.role == Admin || inv.manifest.minRole == User }

  predicate Sees(inv: Invocation) {
    var (m, p) := (inv.manifest, inv.principal);
    || p.role == Admin || m.visibility == Everyone
    || (m.visibility == Department && m.department.Some? && p.department == m.department)
    || (m.visibility == Private && m.owner != "" && p.userId == m.owner)
  }

  predicate HoldsCaps(inv: Invocation) {
    inv.principal.role == Admin || forall c :: c in inv.manifest.requiredCaps ==> c in inv.principal.caps
  }

  predicate Renders(inv: Invocation) {
    inv.manifest.renderer.Custom? ==> inv.seams.rendererAvailable(inv.manifest.renderer.id)
  }

  predicate ClassFits(inv: Invocation) {
    && Sensitivity(inv.turn) <= Sensitivity(inv.manifest.ceiling)
    && (inv.grant.dataClassCeiling.Some? ==> Sensitivity(inv.turn) <= Sensitivity(inv.grant.dataClassCeiling.value))
  }

  predicate Admissible(inv: Invocation) { MayRun(inv) && Sees(inv) && HoldsCaps(inv) && Renders(inv) && ClassFits(inv) }

  /** The refusal names the first thing that is missing. */
  predicate ExplainsRefusal(inv: Invocation, outcome: Outcome) {
    match outcome
    case Rejected => !MayRun(inv) || (Sees(inv) && !HoldsCaps(inv))
    case VisibilityDenied => MayRun(inv) && !Sees(inv)
    case RendererUnavailable(id) =>
      MayRun(inv) && Sees(inv) && HoldsCaps(inv) && !Renders(inv) && inv.manifest.renderer == Custom(id)
    case DataClassExceeded(ceiling, actual) =>
      && MayRun(inv) && Sees(inv) && HoldsCaps(inv) && Renders(inv) && actual == inv.turn
      && (ceiling == inv.manifest.ceiling || Some(ceiling) == inv.grant.dataClassCeiling)
      && Sensitivity(inv.turn) > Sensitivity(ceiling)
    case _ => false
  }

  /** A run is admitted exactly when nothing is missing, and otherwise refused for what is. */
  lemma AdmitIff(inv: Invocation)
    ensures AdmissionOf(inv).Admit? <==> Admissible(inv)
    ensures AdmissionOf(inv).Refuse? ==> ExplainsRefusal(inv, AdmissionOf(inv).outcome)
  {
    hide Sensitivity;
    CapsIff(inv);
  }

  lemma CapsIff(inv: Invocation)
    ensures HoldsCaps(inv) <==> !exists c :: c in inv.manifest.requiredCaps && !HasCap(inv.principal, c)
  {
    if inv.principal.role != Admin {
      forall c ensures HasCap(inv.principal, c) <==> c in inv.principal.caps {}
    }
  }

  // ---- Steps ----

  /** What the steps before `k` used. */
  function Sum(results: seq<StepResult>): nat {
    if results == [] then 0 else Sum(results[..|results| - 1]) + results[|results| - 1].tokens
  }

  function Capped(n: nat): nat { if n > U64_MAX then U64_MAX else n }

  lemma {:induction false} TokensAre(results: seq<StepResult>)
    ensures Tokens(results) == Capped(Sum(results))
  {
    if results != [] { TokensAre(results[..|results| - 1]); }
  }

  /** The tool steps before `k`. */
  function Tools(steps: seq<Step>, k: nat): set<nat>
    requires k <= |steps|
  {
    set j: nat | j < k && steps[j].kind == Tool
  }

  lemma {:induction false} ToolCallsAre(steps: seq<Step>, k: nat)
    requires k <= |steps|
    ensures ToolCalls(steps[..k]) == |Tools(steps, k)|
  {
    if k > 0 {
      ToolCallsAre(steps, k - 1);
      assert steps[..k][..k - 1] == steps[..k - 1];
      assert Tools(steps, k) == Tools(steps, k - 1) + if steps[k - 1].kind == Tool then {k - 1} else {};
    } else {
      assert Tools(steps, 0) == {};
    }
  }

  /** Within a limit that, at its largest, is none. */
  predicate Within(n: nat, limit: u64) { n <= limit || limit == U64_MAX }

  predicate StepsLeft(inv: Invocation, k: nat) {
    && k < inv.manifest.budget.maxSteps
    && (inv.grant.budgetCeiling.Some? ==> k < inv.grant.budgetCeiling.value.maxSteps)
  }

  predicate Granted(inv: Invocation, k: nat)
    requires k < |inv.manifest.steps|
  {
    inv.manifest.steps[k].capability in inv.manifest.requested && inv.manifest.steps[k].capability in inv.grant.granted
  }

  function Denied(inv: Invocation, k: nat): Option<string>
    requires k < |inv.manifest.steps|
  {
    inv.seams.deny(inv.principal, inv.manifest.steps[k].capability)
  }

  /** Reading needs a boundary that opens rails at all, writing one that opens them for writing. */
  predicate InBoundary(inv: Invocation, k: nat)
    requires k < |inv.manifest.steps|
  {
    match inv.seams.rail(inv.manifest.steps[k].capability)
    case None => true
    case Some(ReadAccess) => inv.manifest.boundary != NoRails
    case Some(WriteAccess) => inv.manifest.boundary == WriteRails
  }

  predicate TokensLeft(inv: Invocation, exec: Executor, k: nat)
    requires k < |inv.manifest.steps|
  {
    var n := Sum(Results(exec, inv.manifest.steps, k)) + inv.manifest.steps[k].estimatedTokens;
    && Within(n, inv.manifest.budget.maxTokens)
    && (inv.grant.budgetCeiling.Some? ==> Within(n, inv.grant.budgetCeiling.value.maxTokens))
  }

  predicate ToolsLeft(inv: Invocation, k: nat)
    requires k < |inv.manifest.steps|
  {
    inv.manifest.steps[k].kind == Tool ==>
      && |Tools(inv.manifest.steps, k)| < inv.manifest.budget.maxToolCalls
      && (inv.grant.budgetCeiling.Some? ==> |Tools(inv.manifest.steps, k)| < inv.grant.budgetCeiling.value.maxToolCalls)
  }

  predicate Allowed(inv: Invocation, exec: Executor, k: nat)
    requires k < |inv.manifest.steps|
  {
    StepsLeft(inv, k) && Granted(inv, k) && Denied(inv, k).None? && InBoundary(inv, k) && TokensLeft(inv, exec, k) && ToolsLeft(inv, k)
  }

  /** The refusal of step `k` names the first thing that is missing. */
  predicate ExplainsStop(inv: Invocation, exec: Executor, k: nat, outcome: Outcome)
    requires k < |inv.manifest.steps|
  {
    var step := inv.manifest.steps[k];
    match outcome
    case BudgetExceeded(StepLimit, at) => at == step.id && !StepsLeft(inv, k)
    case CapabilityDenied(id, capability, reason) =>
      && id == step.id && capability == step.capability && StepsLeft(inv, k)
      && (if Granted(inv, k) then Denied(inv, k) == Some(reason) else reason == "not in the granted+requested set")
    case PaymentBoundaryViolation(id, capability, needed, declared) =>
      && id == step.id && capability == step.capability && StepsLeft(inv, k) && Granted(inv, k) && Denied(inv, k).None?
      && inv.seams.rail(step.capability) == Some(needed) && declared == inv.manifest.boundary && !InBoundary(inv, k)
    case BudgetExceeded(TokenLimit, at) =>
      && at == step.id && StepsLeft(inv, k) && Granted(inv, k) && Denied(inv, k).None? && InBoundary(inv, k)
      && !TokensLeft(inv, exec, k)
    case BudgetExceeded(ToolLimit, at) =>
      && at == step.id && StepsLeft(inv, k) && Granted(inv, k) && Denied(inv, k).None? && InBoundary(inv, k)
      && TokensLeft(inv, exec, k) && !ToolsLeft(inv, k)
    case _ => false
  }

  lemma LimitsAre(inv: Invocation, n: nat)
    ensures var b := BudgetOf(inv);
      && (n < b.maxSteps <==> StepsLeft(inv, n))
      && (n < b.maxToolCalls <==>
           (n < inv.manifest.budget.maxToolCalls
             && (inv.grant.budgetCeiling.Some? ==> n < inv.grant.budgetCeiling.value.maxToolCalls)))
      && (Capped(n) <= b.maxTokens <==>
           (Within(n, inv.manifest.budget.maxTokens)
             && (inv.grant.budgetCeiling.Some? ==> Within(n, inv.grant.budgetCeiling.value.maxTokens))))
  {}

  lemma GateIff(inv: Invocation, exec: Executor, k: nat)
    requires k < |inv.manifest.steps| && AdmissionOf(inv).Admit?
    ensures var stop := GateStop(inv, AdmissionOf(inv).run, exec)(k);
      (stop.None? <==> Allowed(inv, exec, k)) && (stop.Some? ==> ExplainsStop(inv, exec, k, stop.value))
  {
    hide AdmitRun, Tokens, Results, ToolCalls, Sum, Tools, EffectiveBudget, StepsLeft, Within;
    var steps := inv.manifest.steps;
    var results := Results(exec, steps, k);
    TokensAre(results);
    ToolCallsAre(steps, k);
    LimitsAre(inv, k);
    LimitsAre(inv, Sum(results) + steps[k].estimatedTokens);
    LimitsAre(inv, |Tools(steps, k)|);
    CappedAgain(Sum(results), steps[k].estimatedTokens);
    AdmittedRun(inv);
  }

  lemma CappedAgain(n: nat, m: u64)
    ensures SatAdd(Capped(n), m) == Capped(n + m)
  {}

  lemma AdmittedRun(inv: Invocation)
    requires AdmissionOf(inv).Admit?
    ensures AdmissionOf(inv).run.budget == BudgetOf(inv)
    ensures forall c :: c in AdmissionOf(inv).run.effective <==> c in inv.manifest.requested && c in inv.grant.granted
  {}

  // ---- Whole runs ----

  /** The run executes the steps before the first that is not allowed. */
  ghost predicate UpToRefused(inv: Invocation, exec: Executor, executed: nat) {
    && executed <= |inv.manifest.steps| && (forall k: nat :: k < executed ==> Allowed(inv, exec, k))
    && (executed < |inv.manifest.steps| ==> !Allowed(inv, exec, executed))
  }

  /** What a run reports: a refusal of admission, of a step, or completion with what the steps used. */
  ghost predicate Reports(inv: Invocation, exec: Executor, r: Report) {
    var (n, steps) := (|inv.manifest.steps|, inv.manifest.steps);
    if !Admissible(inv) then r.executed == 0 && ExplainsRefusal(inv, r.outcome)
    else if r.executed < n then ExplainsStop(inv, exec, r.executed, r.outcome)
    else r.outcome == Completed(Tally(n, Capped(Sum(Results(exec, steps, n))), |Tools(steps, n)|))
  }

  /** A run executes exactly the steps before the first that is not allowed, and says why it stopped there. */
  lemma RunIs(inv: Invocation, exec: Executor)
    ensures Reports(inv, exec, ContextRun(inv, exec))
    ensures Admissible(inv) ==> UpToRefused(inv, exec, ContextRun(inv, exec).executed)
  {
    hide Allowed, ExplainsStop, ExplainsRefusal, Admissible, GateStep, AdmitRun, Tokens, Results, ToolCalls, Sum, Tools;
    AdmitIff(inv);
    var (n, steps) := (|inv.manifest.steps|, inv.manifest.steps);
    if AdmissionOf(inv).Admit? {
      forall k: nat | k < n
        ensures var stop := GateStop(inv, AdmissionOf(inv).run, exec)(k);
          (stop.None? <==> Allowed(inv, exec, k)) && (stop.Some? ==> ExplainsStop(inv, exec, k, stop.value))
      {
        GateIff(inv, exec, k);
      }
      TokensAre(Results(exec, steps, n));
      ToolCallsAre(steps, n);
    }
  }

  /** A run completes exactly when it is admissible and every step is allowed. */
  lemma CompletesIff(inv: Invocation, exec: Executor)
    ensures ContextRun(inv, exec).outcome.Completed? <==>
      Admissible(inv) && forall k: nat :: k < |inv.manifest.steps| ==> Allowed(inv, exec, k)
  {
    hide Allowed, Admissible, ContextRun, Sum, Tools, Results;
    RunIs(inv, exec);
  }

  // ---- Approvals ----

  /** A side effect that the autonomy level or the human keeps back. */
  predicate HeldBack(inv: Invocation, resolve: Resolver, k: nat)
    requires k < |inv.manifest.steps|
  {
    && inv.seams.sideEffect(inv.manifest.steps[k].capability)
    && (inv.manifest.autonomy == SuggestOnly || (inv.manifest.autonomy == Assisted && resolve(k, inv.manifest.steps[k]).Some?))
  }

  predicate ExplainsHold(inv: Invocation, resolve: Resolver, k: nat, outcome: Outcome)
    requires k < |inv.manifest.steps|
  {
    var step := inv.manifest.steps[k];
    if inv.manifest.autonomy == SuggestOnly then outcome == SideEffectRefused(step.id, step.capability)
    else resolve(k, step).Some? && outcome == ApprovalRejected(step.id, step.capability, resolve(k, step).value)
  }

  lemma HoldIff(inv: Invocation, resolve: Resolver, k: nat)
    requires k < |inv.manifest.steps|
    ensures AutonomyStop(inv, resolve, k).Some? <==> HeldBack(inv, resolve, k)
    ensures HeldBack(inv, resolve, k) ==> ExplainsHold(inv, resolve, k, AutonomyStop(inv, resolve, k).value)
  {}

  /** The run executes the steps before the first that is not allowed or is held back. */
  ghost predicate UpToHeld(inv: Invocation, exec: Executor, resolve: Resolver, executed: nat) {
    && executed <= |inv.manifest.steps|
    && (forall k: nat :: k < executed ==> Allowed(inv, exec, k) && !HeldBack(inv, resolve, k))
    && (executed < |inv.manifest.steps| ==> !Allowed(inv, exec, executed) || HeldBack(inv, resolve, executed))
  }

  /** With approvals a run executes exactly the steps before the first that is not allowed or is held back. */
  lemma ApprovalRunIs(inv: Invocation, exec: Executor, resolve: Resolver)
    requires Admissible(inv)
    ensures UpToHeld(inv, exec, resolve, ApprovalRun(inv, exec, resolve).executed)
    ensures var r := ApprovalRun(inv, exec, resolve);
      r.executed < |inv.manifest.steps| ==>
        if Allowed(inv, exec, r.executed) then ExplainsHold(inv, resolve, r.executed, r.outcome)
        else ExplainsStop(inv, exec, r.executed, r.outcome)
  {
    hide Allowed, ExplainsStop, ExplainsHold, HeldBack, AutonomyStop, Admissible, GateStep, AdmitRun, TallyAfter, ApprovalStop;
    AdmitIff(inv);
    var run := AdmissionOf(inv).run;
    forall k: nat | k < |inv.manifest.steps|
      ensures var stop := ApprovalStop(inv, run, exec, resolve)(k);
        && (stop.None? <==> Allowed(inv, exec, k) && !HeldBack(inv, resolve, k))
        && (stop.Some? ==> if Allowed(inv, exec, k) then ExplainsHold(inv, resolve, k, stop.value)
                           else ExplainsStop(inv, exec, k, stop.value))
    {
      GateIff(inv, exec, k);
      GateThenHold(inv, run, exec, resolve, k);
      HoldIff(inv, resolve, k);
    }
  }

  lemma GateThenHold(inv: Invocation, run: Run, exec: Executor, resolve: Resolver, k: nat)
    requires k < |inv.manifest.steps|
    ensures ApprovalStop(inv, run, exec, resolve)(k) ==
      if GateStop(inv, run, exec)(k).Some? then GateStop(inv, run, exec)(k) else AutonomyStop(inv, resolve, k)
  {
    hide GateStep, AutonomyStop, TallyAfter;
  }

  // ---- Compliance ----

  /** How many redactions the scanner makes in what the executor returns over the first `k` steps. */
  function RedactionSum(exec: Executor, scan: Scanner, steps: seq<Step>, k: nat): nat
    requires k <= |steps|
  {
    if k == 0 then 0
    else
      var raw := exec(Results(Scanned(exec, scan), steps, k)[..k - 1], steps[k - 1]);
      RedactionSum(exec, scan, steps, k - 1) + scan(raw.output).1
  }

  /** The reported total is that sum, up to the largest 64-bit number. */
  lemma {:induction false} RedactionsAre(exec: Executor, scan: Scanner, steps: seq<Step>, k: nat)
    requires k <= |steps|
    ensures Redactions(exec, scan, steps, k) == Capped(RedactionSum(exec, scan, steps, k))
  {
    if k > 0 {
      RedactionsAre(exec, scan, steps, k - 1);
      var before := Results(Scanned(exec, scan), steps, k - 1);
      assert Results(Scanned(exec, scan), steps, k)[..k - 1] == before;
    }
  }

  /** Each recorded result is what the executor returned, with its text scanned and the redactions in it counted. */
  lemma RecordedIs(exec: Executor, scan: Scanner, steps: seq<Step>, k: nat, i: nat)
    requires i < k <= |steps|
    ensures var rs := Results(Scanned(exec, scan), steps, k);
      var raw := exec(rs[..i], steps[i]);
      rs[i] == StepResult(raw.tokens, scan(raw.output).0, Capped(raw.redactions + scan(raw.output).1))
    decreases k
  {
    if i < k - 1 {
      RecordedIs(exec, scan, steps, k - 1, i);
      var before, rs := Results(Scanned(exec, scan), steps, k - 1), Results(Scanned(exec, scan), steps, k);
      assert rs[..i] == before[..i];
    }
  }
}
