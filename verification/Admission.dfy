// Admitting a harness run and gating its steps: least privilege, visibility, budgets, ceilings.
module Admission {
  import opened Options

  const U32_MAX: nat := 0xFFFF_FFFF
  const U64_MAX: nat := 0xFFFF_FFFF_FFFF_FFFF

  type u32 = n: nat | n <= U32_MAX
  type u64 = n: nat | n <= U64_MAX

  /** `u64::saturating_add`. */
  function SatAdd(a: u64, b: u64): (c: u64)
    ensures c <= a + b && (a + b <= U64_MAX ==> c == a + b) && (a + b > U64_MAX ==> c == U64_MAX)
  {
    if a + b > U64_MAX then U64_MAX else a + b
  }

  datatype Kind = Llm | Tool | Skill

  datatype Step = Step(id: string, kind: Kind, capability: string, estimatedTokens: u64)

  datatype Budget = Budget(maxSteps: u32, maxTokens: u64, maxToolCalls: u32)

  datatype DataClass = Public | Internal | Confidential | RegulatedPayment | Pii

  datatype Role = User | Admin

  datatype Autonomy = SuggestOnly | Assisted | Autonomous

  datatype Boundary = NoRails | ReadRails | WriteRails

  datatype Access = ReadAccess | WriteAccess

  datatype Visibility = Everyone | Department | Private

  datatype Renderer = Chat | Custom(id: string)

  datatype Principal = Principal(userId: string, role: Role, caps: seq<string>, department: Option<string>)

  datatype Manifest = Manifest(
    id: string, owner: string, autonomy: Autonomy, requested: seq<string>, budget: Budget, minRole: Role,
    requiredCaps: seq<string>, visibility: Visibility, department: Option<string>, ceiling: DataClass, boundary: Boundary,
    renderer: Renderer, steps: seq<Step>)

  datatype Grant = Grant(granted: seq<string>, budgetCeiling: Option<Budget>, dataClassCeiling: Option<DataClass>)

  /** The pluggable decisions: on-behalf-of authorization, rail and side-effect classification, renderers. */
  datatype Seams = Seams(
    deny: (Principal, string) -> Option<string>, rail: string -> Option<Access>, sideEffect: string -> bool,
    rendererAvailable: string -> bool)

  datatype Limit = StepLimit | TokenLimit | ToolLimit

  datatype Tally = Tally(steps: nat, tokens: u64, toolCalls: nat)

  datatype Outcome =
    | Completed(tally: Tally)
    | Rejected
    | VisibilityDenied
    | RendererUnavailable(id: string)
    | DataClassExceeded(ceiling: DataClass, actual: DataClass)
    | CapabilityDenied(step: string, capability: string, reason: string)
    | PaymentBoundaryViolation(step: string, capability: string, needed: Access, declared: Boundary)
    | BudgetExceeded(limit: Limit, atStep: string)
    | SideEffectRefused(step: string, capability: string)
    | ApprovalRejected(step: string, capability: string, reason: string)

  /** What an admitted run may use. */
  datatype Run = Run(effective: set<string>, budget: Budget)

  datatype Admitted = Refuse(outcome: Outcome) | Admit(run: Run)

  function Sensitivity(d: DataClass): nat {
    match d
    case Public => 0
    case Internal => 1
    case Confidential => 2
    case RegulatedPayment => 3
    case Pii => 4
  }

  predicate HasCap(p: Principal, cap: string) { p.role == Admin || cap in p.caps }

  function EffectiveCeiling(g: Grant, declared: DataClass): DataClass {
    match g.dataClassCeiling
    case None => declared
    case Some(cap) => if Sensitivity(cap) < Sensitivity(declared) then cap else declared
  }

  function Min(a: nat, b: nat): nat { if b < a then b else a }

  function EffectiveBudget(g: Grant, declared: Budget): Budget {
    match g.budgetCeiling
    case None => declared
    case Some(c) =>
      Budget(Min(declared.maxSteps, c.maxSteps), Min(declared.maxTokens, c.maxTokens), Min(declared.maxToolCalls, c.maxToolCalls))
  }

  predicate Permits(b: Boundary, needed: Access) {
    b == WriteRails || (b == ReadRails && needed == ReadAccess)
  }

  predicate Visible(m: Manifest, p: Principal) {
    || p.role == Admin
    || match m.visibility
       case Everyone => true
       case Department => m.department.Some? && p.department == m.department
       case Private => m.owner != "" && p.userId == m.owner
  }

  /** `admit`: every check before the first step, in order. */
  function AdmitRun(s: Seams, m: Manifest, g: Grant, p: Principal, turn: DataClass): Admitted {
    if p.role == User && m.minRole == Admin then Refuse(Rejected)
    else if !Visible(m, p) then Refuse(VisibilityDenied)
    else if exists cap :: cap in m.requiredCaps && !HasCap(p, cap) then Refuse(Rejected)
    else if m.renderer.Custom? && !s.rendererAvailable(m.renderer.id) then Refuse(RendererUnavailable(m.renderer.id))
    else
      var ceiling := EffectiveCeiling(g, m.ceiling);
      if Sensitivity(turn) > Sensitivity(ceiling) then Refuse(DataClassExceeded(ceiling, turn))
      else Admit(Run((set c | c in m.requested && c in g.granted), EffectiveBudget(g, m.budget)))
  }

  /** `gate_step`: the outcome that ends the run, if the step is refused. */
  function GateStep(s: Seams, run: Run, m: Manifest, step: Step, p: Principal, tally: Tally): Option<Outcome> {
    if tally.steps >= run.budget.maxSteps then Some(BudgetExceeded(StepLimit, step.id))
    else if step.capability !in run.effective then
      Some(CapabilityDenied(step.id, step.capability, "not in the granted+requested set"))
    else if s.deny(p, step.capability).Some? then
      Some(CapabilityDenied(step.id, step.capability, s.deny(p, step.capability).value))
    else if s.rail(step.capability).Some? && !Permits(m.boundary, s.rail(step.capability).value) then
      Some(PaymentBoundaryViolation(step.id, step.capability, s.rail(step.capability).value, m.boundary))
    else if SatAdd(tally.tokens, step.estimatedTokens) > run.budget.maxTokens then Some(BudgetExceeded(TokenLimit, step.id))
    else if step.kind == Tool && tally.toolCalls >= run.budget.maxToolCalls then Some(BudgetExceeded(ToolLimit, step.id))
    else None
  }

  datatype AutonomyDecision = Proceed | NeedsApproval(step: string, capability: string) | Refused(outcome: Outcome)

  /** `autonomy_gate`. */
  function AutonomyGate(s: Seams, m: Manifest, step: Step): AutonomyDecision {
    if !s.sideEffect(step.capability) then Proceed
    else
      match m.autonomy
      case Autonomous => Proceed
      case Assisted => NeedsApproval(step.id, step.capability)
      case SuggestOnly => Refused(SideEffectRefused(step.id, step.capability))
  }

  // ---- Weaker grants ----

  /** A ceiling that is absent is above every other. */
  predicate WeakerBudget(a: Option<Budget>, b: Option<Budget>) {
    match (a, b)
    case (_, None) => true
    case (None, Some(_)) => false
    case (Some(x), Some(y)) =>
      x.maxSteps <= y.maxSteps && x.maxTokens <= y.maxTokens && x.maxToolCalls <= y.maxToolCalls
  }

  predicate WeakerClass(a: Option<DataClass>, b: Option<DataClass>) {
    match (a, b)
    case (_, None) => true
    case (None, Some(_)) => false
    case (Some(x), Some(y)) => Sensitivity(x) <= Sensitivity(y)
  }

  /** Fewer capabilities, a lower budget ceiling and a lower data-class ceiling. */
  predicate Weaker(a: Grant, b: Grant) {
    && (forall c :: c in a.granted ==> c in b.granted)
    && WeakerBudget(a.budgetCeiling, b.budgetCeiling) && WeakerClass(a.dataClassCeiling, b.dataClassCeiling)
  }

  predicate WeakerRun(a: Run, b: Run) {
    && a.effective <= b.effective && a.budget.maxSteps <= b.budget.maxSteps
    && a.budget.maxTokens <= b.budget.maxTokens && a.budget.maxToolCalls <= b.budget.maxToolCalls
  }

  /** An admitted run has the largest budget within both the request and the grant, and its turn is within both ceilings. */
  lemma LeastPrivilege(s: Seams, m: Manifest, g: Grant, p: Principal, turn: DataClass, b: Budget)
    requires AdmitRun(s, m, g, p, turn).Admit?
    ensures WeakerBudget(Some(b), Some(AdmitRun(s, m, g, p, turn).run.budget)) <==>
      WeakerBudget(Some(b), Some(m.budget)) && WeakerBudget(Some(b), g.budgetCeiling)
    ensures Sensitivity(turn) <= Sensitivity(m.ceiling)
    ensures g.dataClassCeiling.Some? ==> Sensitivity(turn) <= Sensitivity(g.dataClassCeiling.value)
    ensures Visible(m, p) && forall c :: c in m.requiredCaps ==> HasCap(p, c)
  {}

  /** A weaker grant is admitted only where the stronger one is, and to a weaker run. */
  lemma AdmissionMonotone(s: Seams, m: Manifest, a: Grant, b: Grant, p: Principal, turn: DataClass)
    requires Weaker(a, b) && AdmitRun(s, m, a, p, turn).Admit?
    ensures AdmitRun(s, m, b, p, turn).Admit?
    ensures WeakerRun(AdmitRun(s, m, a, p, turn).run, AdmitRun(s, m, b, p, turn).run)
  {
    hide HasCap, Visible;
  }

  /** A step that passes the gate of a weaker run passes the gate of a stronger one. */
  lemma GateMonotone(s: Seams, a: Run, b: Run, m: Manifest, step: Step, p: Principal, tally: Tally)
    requires WeakerRun(a, b) && GateStep(s, a, m, step, p, tally).None?
    ensures GateStep(s, b, m, step, p, tally).None?
  {}
}
