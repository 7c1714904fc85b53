/** Semantic assertions and assembly drafts: frozen values that are validated
    whenever one is made from another. */
module AssemblyDraft {
  import opened Options

  datatype AssertionType = Entity | Field | Relationship | Mapping | Policy | CalculatedField | Measure | Grain

  /** The part of a payload that identifies the assertion, and the rest of it. */
  datatype Payload = Payload(identity: string, facts: string)

  /** Stands for the hash of the canonical text of type and payload. */
  datatype Digest = Digest(kind: AssertionType, payload: Payload)

  datatype ProvenanceKind = Manual | Discovered | Inferred | Suggested

  datatype Provenance = Provenance(
    kind: ProvenanceKind, source: Option<string>, proposal: Option<string>,
    snapshot: Option<string>, evidence: Option<string>, technique: Option<string>)

  datatype ReviewState = Pending | Accepted | Rejected

  datatype Binding = Binding(hash: Digest, reviewer: string, reason: string)

  datatype Assertion = Assertion(
    id: string, kind: AssertionType, payload: Payload, provenance: Provenance,
    review: ReviewState, binding: Option<Binding>)

  function TypeName(t: AssertionType): string {
    match t
    case Entity => "entity"
    case Field => "field"
    case Relationship => "relationship"
    case Mapping => "mapping"
    case Policy => "policy"
    case CalculatedField => "calculated_field"
    case Measure => "measure"
    case Grain => "grain"
  }

  /** The id covers the type and the identity of an assertion, not its other facts. */
  function DeriveId(t: AssertionType, p: Payload): string { TypeName(t) + ":" + p.identity }

  function PayloadHash(a: Assertion): Digest { Digest(a.kind, a.payload) }

  /** A review that is bound to the current payload. */
  predicate Reviewed(a: Assertion) {
    !a.review.Pending? && a.binding.Some? && a.binding.value.hash == PayloadHash(a)
  }

  predicate WellFormed(a: Assertion) {
    a.id == DeriveId(a.kind, a.payload) && (if a.review.Pending? then a.binding.None? else Reviewed(a))
  }

  function Create(t: AssertionType, p: Payload, from: Provenance): (a: Assertion)
    ensures WellFormed(a)
  {
    Assertion(DeriveId(t, p), t, p, from, Pending, None)
  }

  function BindReview(a: Assertion, state: ReviewState, reviewer: string, reason: string): (b: Assertion)
    requires WellFormed(a) && !state.Pending?
    ensures WellFormed(b) && Reviewed(b) && PayloadHash(b) == PayloadHash(a) && b.id == a.id
  {
    a.(review := state, binding := Some(Binding(PayloadHash(a), reviewer, reason)))
  }

  // ---- drafts ----

  datatype DraftState = Authoring | InReview | Approved | Published

  /** A verification plan; its fingerprint leaves the order of its cases out. */
  datatype Plan = Plan(fingerprint: string, caseOrder: seq<string>)

  /** The descriptive fields that no rule of the lifecycle looks at. */
  datatype Details = Details(bundleId: string, sourceId: string, modelVersion: string, author: string, authoring: string)

  datatype Draft = Draft(
    id: string, state: DraftState, revision: nat, assertions: seq<Assertion>, deployments: seq<string>,
    details: Details, submittedBy: Option<string>, approvedBy: Option<string>,
    plan: Option<Plan>, approvedPlan: Option<string>, snapshot: Option<string>)

  const MAX_REVISION: nat := 0x7FFF_FFFF_FFFF_FFFF
  const MAX_ASSERTIONS: nat := 16384
  const MAX_DEPLOYMENTS: nat := 64

  datatype Error =
    | RevisionConflict(expected: int, actual: nat)
    | Frozen
    | ProtectedField
    | InvalidDraft
    | IllegalTransition
    | Unreviewed
    | Unauthorized
    | NotADecision
    | NotInReview
    | UnknownAssertion
    | StaleProvenance

  /** The plan fingerprint that a draft must be bound to. */
  function BoundPlan(state: DraftState, plan: Option<Plan>): Option<string> {
    if state.Approved? && plan.Some? then Some(plan.value.fingerprint) else None
  }

  predicate Valid(d: Draft) {
    && d.revision <= MAX_REVISION
    && |d.assertions| <= MAX_ASSERTIONS && |d.deployments| <= MAX_DEPLOYMENTS
    && (forall i :: 0 <= i < |d.assertions| ==> WellFormed(d.assertions[i]))
    && (forall i, j :: 0 <= i < j < |d.assertions| ==> d.assertions[i].id != d.assertions[j].id)
    && (forall i, j :: 0 <= i < j < |d.deployments| ==> d.deployments[i] != d.deployments[j])
    && !d.state.Published?
    && d.approvedPlan == BoundPlan(d.state, d.plan)
  }

  function Validate(d: Draft): (r: Result<Draft, Error>)
    ensures r.Ok? <==> Valid(d)
    ensures r.Ok? ==> r.value == d
  {
    if Valid(d) then Ok(d) else Err(InvalidDraft)
  }

  /** The keyword arguments of a mutation; `forbidden` when one of them names a
      protected or an unknown field. */
  datatype Changes = Changes(
    assertions: Option<seq<Assertion>>, plan: Option<Option<Plan>>, submittedBy: Option<Option<string>>,
    snapshot: Option<Option<string>>, deployments: Option<seq<string>>, details: Option<Details>, forbidden: bool)

  const NO_CHANGES := Changes(None, None, None, None, None, None, false)

  function Or<T>(change: Option<T>, current: T): T { if change.Some? then change.value else current }

  predicate PlanChanged(d: Draft, c: Changes) { c.plan.Some? && c.plan.value != d.plan }

  predicate PlanOnly(c: Changes) { c.plan.Some? && c == NO_CHANGES.(plan := c.plan) }

  function Mutated(d: Draft, c: Changes): Draft {
    var d1 := d.(assertions := Or(c.assertions, d.assertions), plan := Or(c.plan, d.plan),
                 submittedBy := Or(c.submittedBy, d.submittedBy), snapshot := Or(c.snapshot, d.snapshot),
                 deployments := Or(c.deployments, d.deployments), details := Or(c.details, d.details),
                 revision := d.revision + 1);
    if !PlanChanged(d, c) then d1
    else d1.(state := if d.state.Approved? then InReview else d.state, approvedBy := None, approvedPlan := None)
  }

  function Mutate(d: Draft, expected: int, c: Changes): Result<Draft, Error> {
    if expected != d.revision then Err(RevisionConflict(expected, d.revision))
    else if PlanOnly(c) && !PlanChanged(d, c) then Ok(d)
    else if d.state.Approved? && c != NO_CHANGES && !(PlanChanged(d, c) && PlanOnly(c)) then Err(Frozen)
    else if c.forbidden then Err(ProtectedField)
    else Validate(Mutated(d, c))
  }

  predicate Allowed(before: DraftState, after: DraftState) {
    match before
    case Authoring => after.InReview?
    case InReview => after.Authoring? || after.Approved?
    case Approved => after.InReview?
    case Published => false
  }

  predicate AllReviewed(d: Draft) {
    forall i :: 0 <= i < |d.assertions| ==> Reviewed(d.assertions[i])
  }

  function Transition(d: Draft, expected: int, state: DraftState): Result<Draft, Error> {
    if expected != d.revision then Err(RevisionConflict(expected, d.revision))
    else if !Allowed(d.state, state) then Err(IllegalTransition)
    else if state.Approved? && !AllReviewed(d) then Err(Unreviewed)
    else Validate(d.(state := state, revision := d.revision + 1,
                     approvedBy := if state.Approved? then d.approvedBy else None,
                     approvedPlan := BoundPlan(state, d.plan)))
  }
}
