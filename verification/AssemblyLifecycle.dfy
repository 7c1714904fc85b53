/** The audited review and approval operations on drafts, and what every run of them
    keeps. */
module AssemblyLifecycle {
  import opened Options
  import opened AssemblyDraft

  /** An authorization context and the verdict of the authorizer on it. */
  datatype Authorization = Authorization(granted: bool, operator: string)

  datatype DecisionKind = ApproveIt | RejectIt | EditIt

  datatype AssertionRecord = AssertionRecord(
    draftId: string, action: DecisionKind, assertionId: string, resultingId: string, operator: string,
    previousHash: Digest, resultingHash: Digest, previousProvenance: Provenance, reason: string)

  datatype DraftRecord = DraftRecord(draftId: string, approval: bool, operator: string, previous: nat, resulting: nat)

  datatype Outcome<R> = Outcome(draft: Draft, record: R)

  /** The position of the assertion with an id, or the length. */
  function IndexOf(s: seq<Assertion>, id: string): (i: nat)
    ensures i <= |s|
    ensures i < |s| ==> s[i].id == id
    ensures forall j :: 0 <= j < i ==> s[j].id != id
  {
    if s == [] || s[0].id == id then 0 else 1 + IndexOf(s[1..], id)
  }

  function Target(d: Draft, id: string): Result<Assertion, Error> {
    if !d.state.InReview? then Err(NotInReview)
    else if IndexOf(d.assertions, id) == |d.assertions| then Err(UnknownAssertion)
    else Ok(d.assertions[IndexOf(d.assertions, id)])
  }

  function Substitute(s: seq<Assertion>, id: string, a: Assertion): (r: seq<Assertion>)
    ensures |r| == |s|
    ensures forall i :: 0 <= i < |s| ==> r[i] == if s[i].id == id then a else s[i]
  {
    if s == [] then [] else [if s[0].id == id then a else s[0]] + Substitute(s[1..], id, a)
  }

  function ReplaceAssertion(d: Draft, expected: int, old_: Assertion, new_: Assertion, action: DecisionKind,
                            operator: string, reason: string): Result<Outcome<AssertionRecord>, Error>
  {
    match Mutate(d, expected, NO_CHANGES.(assertions := Some(Substitute(d.assertions, old_.id, new_))))
    case Err(e) => Err(e)
    case Ok(updated) =>
      Ok(Outcome(updated, AssertionRecord(d.id, action, old_.id, new_.id, operator,
                                          PayloadHash(old_), PayloadHash(new_), old_.provenance, reason)))
  }

  /** Found in another snapshot than the one the draft is based on. */
  predicate Stale(d: Draft, a: Assertion) {
    d.snapshot.Some? && (a.provenance.kind.Discovered? || a.provenance.kind.Inferred?)
    && a.provenance.snapshot != d.snapshot
  }

  function Decide(d: Draft, id: string, decision: ReviewState, expected: int, auth: Authorization, reason: string)
    : Result<Outcome<AssertionRecord>, Error>
    requires Valid(d)
  {
    if !auth.granted then Err(Unauthorized)
    else if decision.Pending? then Err(NotADecision)
    else
      match Target(d, id)
      case Err(e) => Err(e)
      case Ok(a) =>
        if Stale(d, a) then Err(StaleProvenance)
        else ReplaceAssertion(d, expected, a, BindReview(a, decision, auth.operator, reason),
                              if decision.Accepted? then ApproveIt else RejectIt, auth.operator, reason)
  }

  /** The provenance of an edited assertion: a human takes over, the origin stays. */
  function EditedProvenance(a: Assertion): Provenance {
    a.provenance.(kind := Manual,
                  source := if a.provenance.source.Some? && a.provenance.source.value != "" then a.provenance.source
                            else Some("seed:" + a.id))
  }

  function Edit(d: Draft, id: string, payload: Payload, expected: int, auth: Authorization, reason: string)
    : Result<Outcome<AssertionRecord>, Error>
  {
    if !auth.granted then Err(Unauthorized)
    else
      match Target(d, id)
      case Err(e) => Err(e)
      case Ok(a) =>
        ReplaceAssertion(d, expected, a, Create(a.kind, payload, EditedProvenance(a)), EditIt, auth.operator, reason)
  }

  function SubmitForReview(d: Draft, expected: int, auth: Authorization): Result<Outcome<DraftRecord>, Error> {
    if !auth.granted then Err(Unauthorized)
    else
      match Transition(d, expected, InReview)
      case Err(e) => Err(e)
      case Ok(t) => Ok(Outcome(t.(submittedBy := Some(auth.operator)), DraftRecord(d.id, false, auth.operator, d.revision, t.revision)))
  }

  function ApproveDraft(d: Draft, expected: int, auth: Authorization): Result<Outcome<DraftRecord>, Error> {
    if !auth.granted then Err(Unauthorized)
    else
      match Transition(d, expected, Approved)
      case Err(e) => Err(e)
      case Ok(t) => Ok(Outcome(t.(approvedBy := Some(auth.operator)), DraftRecord(d.id, true, auth.operator, d.revision, t.revision)))
  }

  /** The draft that an accepted replacement in review gives. */
  lemma ReplaceShape(d: Draft, expected: int, old_: Assertion, new_: Assertion, action: DecisionKind, operator: string, reason: string)
    requires d.state.InReview? && ReplaceAssertion(d, expected, old_, new_, action, operator, reason).Ok?
    ensures ReplaceAssertion(d, expected, old_, new_, action, operator, reason).value
         == Outcome(d.(assertions := Substitute(d.assertions, old_.id, new_), revision := d.revision + 1),
                    AssertionRecord(d.id, action, old_.id, new_.id, operator, PayloadHash(old_), PayloadHash(new_), old_.provenance, reason))
  {
  }

  lemma DecideShape(d: Draft, id: string, decision: ReviewState, expected: int, auth: Authorization, reason: string)
    requires Valid(d) && Decide(d, id, decision, expected, auth, reason).Ok?
    ensures var i := IndexOf(d.assertions, id);
      && auth.granted && !decision.Pending? && d.state.InReview? && i < |d.assertions| && !Stale(d, d.assertions[i])
      && Decide(d, id, decision, expected, auth, reason).value.draft
         == d.(assertions := Substitute(d.assertions, id, BindReview(d.assertions[i], decision, auth.operator, reason)),
               revision := d.revision + 1)
      && var record := Decide(d, id, decision, expected, auth, reason).value.record;
         record.previousHash == record.resultingHash == PayloadHash(d.assertions[i]) && record.assertionId == record.resultingId == id
  {
    var i := IndexOf(d.assertions, id);
    var a := d.assertions[i];
    ReplaceShape(d, expected, a, BindReview(a, decision, auth.operator, reason),
                 if decision.Accepted? then ApproveIt else RejectIt, auth.operator, reason);
  }

  lemma EditShape(d: Draft, id: string, p: Payload, expected: int, auth: Authorization, reason: string)
    requires Edit(d, id, p, expected, auth, reason).Ok?
    ensures var i := IndexOf(d.assertions, id);
      && auth.granted && d.state.InReview? && i < |d.assertions|
      && Edit(d, id, p, expected, auth, reason).value.draft
         == d.(assertions := Substitute(d.assertions, id, Create(d.assertions[i].kind, p, EditedProvenance(d.assertions[i]))),
               revision := d.revision + 1)
  {
    var a := d.assertions[IndexOf(d.assertions, id)];
    ReplaceShape(d, expected, a, Create(a.kind, p, EditedProvenance(a)), EditIt, auth.operator, reason);
  }

  // ---- runs ----

  datatype Op =
    | MutateOp(expected: int, changes: Changes)
    | TransitionOp(expected: int, state: DraftState)
    | DecideOp(assertion: string, decision: ReviewState, expected: int, auth: Authorization, reason: string)
    | EditOp(assertion: string, payload: Payload, expected: int, auth: Authorization, reason: string)
    | SubmitOp(expected: int, auth: Authorization)
    | ApproveOp(expected: int, auth: Authorization)

  function DraftOf<R>(r: Result<Outcome<R>, Error>): Result<Draft, Error> {
    match r
    case Err(e) => Err(e)
    case Ok(o) => Ok(o.draft)
  }

  function Apply(d: Draft, op: Op): Result<Draft, Error>
    requires Valid(d)
  {
    match op
    case MutateOp(n, c) => Mutate(d, n, c)
    case TransitionOp(n, s) => Transition(d, n, s)
    case DecideOp(id, decision, n, auth, reason) => DraftOf(Decide(d, id, decision, n, auth, reason))
    case EditOp(id, p, n, auth, reason) => DraftOf(Edit(d, id, p, n, auth, reason))
    case SubmitOp(n, auth) => DraftOf(SubmitForReview(d, n, auth))
    case ApproveOp(n, auth) => DraftOf(ApproveDraft(d, n, auth))
  }

  /** The operation that accepted it presented the current revision and advanced it
      by one, unless it repeated the plan that was there. */
  lemma ApplyAdvances(d: Draft, op: Op)
    requires Valid(d) && Apply(d, op).Ok?
    ensures var d' := Apply(d, op).value;
      && Valid(d') && op.expected == d.revision && d'.id == d.id
      && (d'.revision == d.revision + 1 || (d' == d && op.MutateOp? && PlanOnly(op.changes) && op.changes.plan.value == d.plan))
  {
    match op
    case MutateOp(n, c) => MutateAdvances(d, n, c);
    case TransitionOp(n, s) => TransitionAdvances(d, n, s);
    case SubmitOp(n, _) => TransitionAdvances(d, n, InReview);
    case ApproveOp(n, _) => TransitionAdvances(d, n, Approved);
    case DecideOp(id, decision, n, auth, reason) =>
      var a := d.assertions[IndexOf(d.assertions, id)];
      MutateAdvances(d, n, NO_CHANGES.(assertions := Some(Substitute(d.assertions, id, BindReview(a, decision, auth.operator, reason)))));
    case EditOp(id, p, n, auth, reason) =>
      var a := d.assertions[IndexOf(d.assertions, id)];
      MutateAdvances(d, n, NO_CHANGES.(assertions := Some(Substitute(d.assertions, id, Create(a.kind, p, EditedProvenance(a))))));
  }

  lemma MutateAdvances(d: Draft, n: int, c: Changes)
    requires Valid(d)
    ensures Mutate(d, n, c).Ok? ==>
      var d' := Mutate(d, n, c).value;
      && Valid(d') && n == d.revision && d'.id == d.id
      && (d'.revision == d.revision + 1 || (d' == d && PlanOnly(c) && c.plan.value == d.plan))
  {
  }

  lemma TransitionAdvances(d: Draft, n: int, s: DraftState)
    ensures Transition(d, n, s).Ok? ==>
      var d' := Transition(d, n, s).value; Valid(d') && n == d.revision && d'.id == d.id && d'.revision == d.revision + 1
  {
  }

  function Step(d: Draft, op: Op): (d': Draft)
    requires Valid(d)
    ensures Valid(d')
  {
    match Apply(d, op)
    case Err(_) => d
    case Ok(d') => ApplyAdvances(d, op); d'
  }

  /** The draft after a run; operations that raise leave it as it was. */
  function Run(d: Draft, ops: seq<Op>): (d': Draft)
    requires Valid(d)
    ensures Valid(d')
    decreases |ops|
  {
    if ops == [] then d else Step(Run(d, ops[..|ops| - 1]), ops[|ops| - 1])
  }

  /** A draft as the adapters make it. */
  predicate Fresh(d: Draft) {
    Valid(d) && d.state.Authoring? && d.revision == 0 && d.approvedBy.None? && d.submittedBy.None?
  }

  // ---- approval ----

  /** Approval holds only on a completely reviewed draft, and the name of the
      approver and the plan binding go with it. */
  predicate Governed(d: Draft) {
    && (d.state.Approved? ==> AllReviewed(d))
    && (d.approvedBy.Some? ==> d.state.Approved?)
  }

  lemma StepGoverned(d: Draft, op: Op)
    requires Valid(d) && Governed(d)
    ensures Governed(Step(d, op))
  {
    if op.DecideOp? || op.EditOp? { ReviewStays(d, op); }
  }

  /** Decisions and edits happen in review and stay there. */
  lemma ReviewStays(d: Draft, op: Op)
    requires Valid(d) && (op.DecideOp? || op.EditOp?)
    ensures Apply(d, op).Ok? ==> d.state.InReview? && Apply(d, op).value.state.InReview? && Apply(d, op).value.approvedBy == d.approvedBy
  {
    if Apply(d, op).Ok? {
      if op.DecideOp? {
        DecideShape(d, op.assertion, op.decision, op.expected, op.auth, op.reason);
      } else {
        EditShape(d, op.assertion, op.payload, op.expected, op.auth, op.reason);
      }
    }
  }

  lemma {:induction false} RunGoverned(d: Draft, ops: seq<Op>)
    requires Valid(d) && Governed(d)
    ensures Governed(Run(d, ops))
    decreases |ops|
  {
    if ops != [] {
      RunGoverned(d, ops[..|ops| - 1]);
      StepGoverned(Run(d, ops[..|ops| - 1]), ops[|ops| - 1]);
    }
  }

  /** An operation that approves the draft it is applied to. */
  predicate Approving(op: Op) {
    op.ApproveOp? || (op.TransitionOp? && op.state.Approved?)
  }

  /** The draft before step `m` of a run. */
  function At(d: Draft, ops: seq<Op>, m: nat): Draft
    requires Valid(d) && m <= |ops|
  {
    Run(d, ops[..m])
  }

  /** Nothing but the revision has changed since point `m`. */
  ghost predicate FrozenSince(d: Draft, ops: seq<Op>, m: nat)
    requires Valid(d)
  {
    m <= |ops| && forall j :: m <= j <= |ops| ==> SameButRevision(At(d, ops, m), At(d, ops, j))
  }

  predicate SameButRevision(d: Draft, e: Draft) {
    e == d.(revision := e.revision) && e.state.Approved?
  }

  /** Step `m` took a completely reviewed draft from review to approval. */
  ghost predicate ApprovedAt(d: Draft, ops: seq<Op>, m: nat)
    requires Valid(d)
  {
    m < |ops| && Approving(ops[m])
    && At(d, ops, m).state.InReview? && AllReviewed(At(d, ops, m))
    && At(d, ops, m + 1).state.Approved? && At(d, ops, m + 1).assertions == At(d, ops, m).assertions
  }

  /** An approved draft was approved before and is unchanged, or has just been
      approved. */
  lemma StepFrozen(d: Draft, op: Op)
    requires Valid(d) && Step(d, op).state.Approved?
    ensures
      || (d.state.Approved? && SameButRevision(d, Step(d, op)))
      || (d.state.InReview? && AllReviewed(d) && Approving(op) && Step(d, op).assertions == d.assertions)
  {
    if op.DecideOp? || op.EditOp? { ReviewStays(d, op); }
  }

  lemma PrefixAt(d: Draft, ops: seq<Op>, m: nat)
    requires Valid(d) && ops != [] && m < |ops|
    ensures At(d, ops[..|ops| - 1], m) == At(d, ops, m)
  {
    assert ops[..|ops| - 1][..m] == ops[..m];
  }

  lemma LastAt(d: Draft, ops: seq<Op>)
    requires Valid(d)
    ensures At(d, ops, |ops|) == Run(d, ops)
    ensures ops != [] ==> Run(d, ops) == Step(At(d, ops, |ops| - 1), ops[|ops| - 1])
  {
    assert ops[..|ops|] == ops;
  }

  lemma FrozenLonger(d: Draft, ops: seq<Op>, m: nat)
    requires Valid(d) && ops != [] && FrozenSince(d, ops[..|ops| - 1], m)
    requires SameButRevision(Run(d, ops[..|ops| - 1]), Run(d, ops))
    ensures FrozenSince(d, ops, m)
  {
    var front := ops[..|ops| - 1];
    LastAt(d, front);
    LastAt(d, ops);
    PrefixAt(d, ops, m);
    forall j | m <= j <= |ops| ensures SameButRevision(At(d, ops, m), At(d, ops, j)) {
      if j < |ops| {
        PrefixAt(d, ops, j);
        assert SameButRevision(At(d, front, m), At(d, front, j));
      } else {
        assert SameButRevision(At(d, front, m), At(d, front, |front|));
      }
    }
  }

  /** Whenever a run ends in approval, the draft has been frozen since the start, or
      since a step that approved a completely reviewed draft. */
  lemma {:induction false} FrozenSinceApproval(d: Draft, ops: seq<Op>)
    requires Valid(d) && Run(d, ops).state.Approved?
    ensures (d.state.Approved? && FrozenSince(d, ops, 0))
         || exists m: nat :: ApprovedAt(d, ops, m) && FrozenSince(d, ops, m + 1)
    decreases |ops|
  {
    LastAt(d, ops);
    if ops != [] {
      var n, front := |ops| - 1, ops[..|ops| - 1];
      StepFrozen(Run(d, front), ops[n]);
      PrefixAt(d, ops, n);
      LastAt(d, front);
      if Run(d, front).state.Approved? && SameButRevision(Run(d, front), Run(d, ops)) {
        FrozenSinceApproval(d, front);
        if d.state.Approved? && FrozenSince(d, front, 0) {
          FrozenLonger(d, ops, 0);
        } else {
          var m: nat :| ApprovedAt(d, front, m) && FrozenSince(d, front, m + 1);
          FrozenLonger(d, ops, m + 1);
          PrefixAt(d, ops, m);
          PrefixAt(d, ops, m + 1);
          assert ApprovedAt(d, ops, m);
        }
      } else {
        assert ApprovedAt(d, ops, n) && FrozenSince(d, ops, n + 1);
      }
    }
  }

  /** From a fresh draft: approval means that every assertion is reviewed with a
      binding to its current payload, that the bound plan is the current one, and
      that nothing has changed since an approving step took it out of review. */
  lemma ApprovedRuns(d: Draft, ops: seq<Op>)
    requires Fresh(d) && Run(d, ops).state.Approved?
    ensures var e := Run(d, ops);
      && (forall i :: 0 <= i < |e.assertions| ==>
            !e.assertions[i].review.Pending? && e.assertions[i].binding.Some?
            && e.assertions[i].binding.value.hash == PayloadHash(e.assertions[i]))
      && e.approvedPlan == (if e.plan.Some? then Some(e.plan.value.fingerprint) else None)
    ensures exists m: nat :: ApprovedAt(d, ops, m) && FrozenSince(d, ops, m + 1)
  {
    RunGoverned(d, ops);
    FrozenSinceApproval(d, ops);
  }

  /** Changing the plan always revokes approval, also when the fingerprint stays. */
  lemma PlanChangeRevokes(d: Draft, expected: int, c: Changes)
    requires Valid(d) && PlanChanged(d, c) && Mutate(d, expected, c).Ok?
    ensures var e := Mutate(d, expected, c).value;
      && e.plan == c.plan.value && !e.state.Approved? && e.approvedBy.None? && e.approvedPlan.None?
      && (d.state.Approved? ==> e.state.InReview? && e.assertions == d.assertions)
  {
  }

  /** An approved draft whose content differs at a later approval was approved again
      in between. */
  lemma ChangeNeedsApproval(d: Draft, ops: seq<Op>)
    requires Valid(d) && d.state.Approved? && Run(d, ops).state.Approved?
    requires Run(d, ops) != d.(revision := Run(d, ops).revision)
    ensures exists m: nat :: ApprovedAt(d, ops, m)
  {
    FrozenSinceApproval(d, ops);
    FrozenFromStart(d, ops);
  }

  lemma FrozenFromStart(d: Draft, ops: seq<Op>)
    requires Valid(d)
    ensures FrozenSince(d, ops, 0) ==> Run(d, ops) == d.(revision := Run(d, ops).revision)
  {
    LastAt(d, ops);
    assert At(d, ops, 0) == d;
    assert FrozenSince(d, ops, 0) ==> SameButRevision(At(d, ops, 0), At(d, ops, |ops|));
  }

  // ---- where reviews come from ----

  /** Step `m` was an authorized decision that bound the review to the payload. */
  ghost predicate DecidedAt(d: Draft, ops: seq<Op>, m: nat, a: Assertion)
    requires Valid(d)
  {
    m < |ops| && ops[m].DecideOp? && ops[m].auth.granted && ops[m].assertion == a.id && ops[m].decision == a.review
    && a.binding == Some(Binding(PayloadHash(a), ops[m].auth.operator, ops[m].reason))
    && At(d, ops, m).state.InReview?
    && exists b :: b in At(d, ops, m).assertions && DecidedFrom(At(d, ops, m), b, a)
  }

  /** The assertion that was decided on: the same one but for its review. */
  predicate DecidedFrom(d: Draft, b: Assertion, a: Assertion) {
    a == b.(review := a.review, binding := a.binding) && !Stale(d, b)
  }

  ghost predicate SuppliedAt(ops: seq<Op>, m: nat, a: Assertion) {
    m < |ops| && ops[m].MutateOp? && ops[m].changes.assertions.Some? && a in ops[m].changes.assertions.value
  }

  lemma SubstituteMembers(s: seq<Assertion>, id: string, b: Assertion, a: Assertion)
    requires a in Substitute(s, id, b)
    ensures a in s || a == b
  {
  }

  lemma StepOrigin(d: Draft, op: Op, a: Assertion)
    requires Valid(d) && a in Step(d, op).assertions && !a.review.Pending?
    ensures a in d.assertions
         || (op.MutateOp? && op.changes.assertions.Some? && a in op.changes.assertions.value)
         || (op.DecideOp? && op.auth.granted && op.assertion == a.id && op.decision == a.review
             && a.binding == Some(Binding(PayloadHash(a), op.auth.operator, op.reason)) && d.state.InReview?
             && exists b :: b in d.assertions && DecidedFrom(d, b, a))
  {
    if Apply(d, op).Ok? {
      match op
      case DecideOp(id, decision, n, auth, reason) => DecideOrigin(d, id, decision, n, auth, reason, a);
      case EditOp(id, p, n, auth, reason) =>
        EditShape(d, id, p, n, auth, reason);
        var b := d.assertions[IndexOf(d.assertions, id)];
        SubstituteMembers(d.assertions, id, Create(b.kind, p, EditedProvenance(b)), a);
      case _ =>
    }
  }

  lemma DecideOrigin(d: Draft, id: string, decision: ReviewState, n: int, auth: Authorization, reason: string, a: Assertion)
    requires Valid(d) && Decide(d, id, decision, n, auth, reason).Ok?
    requires a in Decide(d, id, decision, n, auth, reason).value.draft.assertions
    ensures a in d.assertions
         || (auth.granted && id == a.id && decision == a.review
             && a.binding == Some(Binding(PayloadHash(a), auth.operator, reason)) && d.state.InReview?
             && exists b :: b in d.assertions && DecidedFrom(d, b, a))
  {
    DecideShape(d, id, decision, n, auth, reason);
    var b := d.assertions[IndexOf(d.assertions, id)];
    SubstituteMembers(d.assertions, id, BindReview(b, decision, auth.operator, reason), a);
    assert b in d.assertions;
  }

  /** Every review found in a draft was there at the start, was supplied ready-made to
      a mutation, or is an authorized decision on exactly this payload. */
  lemma {:induction false} ReviewOrigin(d: Draft, ops: seq<Op>, a: Assertion)
    requires Valid(d) && a in Run(d, ops).assertions && !a.review.Pending?
    ensures a in d.assertions || exists m: nat :: DecidedAt(d, ops, m, a) || SuppliedAt(ops, m, a)
    decreases |ops|
  {
    if ops != [] {
      var n, front := |ops| - 1, ops[..|ops| - 1];
      StepOrigin(Run(d, front), ops[n], a);
      PrefixAt(d, ops, n);
      LastAt(d, front);
      if a in Run(d, front).assertions {
        ReviewOrigin(d, front, a);
        if a !in d.assertions {
          var m: nat :| DecidedAt(d, front, m, a) || SuppliedAt(front, m, a);
          PrefixAt(d, ops, m);
          assert DecidedAt(d, ops, m, a) || SuppliedAt(ops, m, a);
        }
      } else {
        assert DecidedAt(d, ops, n, a) || SuppliedAt(ops, n, a);
      }
    }
  }

  /** A decision touches one review: all ids, payloads and other assertions stay. */
  lemma DecideTouchesOne(d: Draft, id: string, decision: ReviewState, expected: int, auth: Authorization, reason: string,
                         o: Outcome<AssertionRecord>)
    requires Valid(d) && Decide(d, id, decision, expected, auth, reason) == Ok(o)
    ensures o.draft == d.(assertions := o.draft.assertions, revision := d.revision + 1)
    ensures |o.draft.assertions| == |d.assertions|
    ensures forall i :: 0 <= i < |d.assertions| ==> OnlyReviewed(d.assertions[i], o.draft.assertions[i], id, decision)
    ensures o.record.previousHash == o.record.resultingHash && o.record.assertionId == o.record.resultingId == id
  {
    DecideShape(d, id, decision, expected, auth, reason);
    var b := BindReview(d.assertions[IndexOf(d.assertions, id)], decision, auth.operator, reason);
    SubstituteReview(d, id, b, decision);
  }

  /** The assertion with the id has the decision, and nothing else has changed. */
  predicate OnlyReviewed(a: Assertion, b: Assertion, id: string, decision: ReviewState) {
    && PayloadHash(b) == PayloadHash(a) && b.id == a.id && b.provenance == a.provenance
    && (if a.id == id then b.review == decision else b == a)
  }

  lemma SubstituteReview(d: Draft, id: string, b: Assertion, decision: ReviewState)
    requires Valid(d) && IndexOf(d.assertions, id) < |d.assertions|
    requires OnlyReviewed(d.assertions[IndexOf(d.assertions, id)], b, id, decision)
    ensures forall i :: 0 <= i < |d.assertions| ==> OnlyReviewed(d.assertions[i], Substitute(d.assertions, id, b)[i], id, decision)
  {
    forall i | 0 <= i < |d.assertions| ensures OnlyReviewed(d.assertions[i], Substitute(d.assertions, id, b)[i], id, decision) {
      var n := IndexOf(d.assertions, id);
      assert d.assertions[i].id == id ==> i == n;
    }
  }

  /** An edit leaves its assertion pending and under manual provenance. */
  lemma EditReopens(d: Draft, id: string, p: Payload, expected: int, auth: Authorization, reason: string)
    requires Valid(d) && Edit(d, id, p, expected, auth, reason).Ok?
    ensures var o := Edit(d, id, p, expected, auth, reason).value; var e := o.draft;
      && e == d.(assertions := e.assertions, revision := d.revision + 1) && |e.assertions| == |d.assertions|
      && !AllReviewed(e)
      && (forall i :: 0 <= i < |d.assertions| ==>
            && (d.assertions[i].id != id ==> e.assertions[i] == d.assertions[i])
            && (d.assertions[i].id == id ==>
                  e.assertions[i].payload == p && e.assertions[i].review.Pending? && e.assertions[i].provenance.kind.Manual?))
      && o.record.resultingHash.payload == p
  {
    EditShape(d, id, p, expected, auth, reason);
    var i := IndexOf(d.assertions, id);
    var e := Edit(d, id, p, expected, auth, reason).value.draft;
    assert e.assertions[i].review.Pending?;
  }
}
