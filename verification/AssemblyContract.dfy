/** What each draft operation answers, exactly: when it is accepted, what it changes and
    what it records. */
module AssemblyContract {
  import opened Options
  import opened AssemblyDraft
  import opened AssemblyLifecycle

  // ---- validity ----

  /** A review binding is there exactly for reviewed assertions, and names their content. */
  predicate BindingFits(a: Assertion) {
    match a.review
    case Pending => a.binding == None
    case _ => a.binding.Some? && a.binding.value.hash.kind == a.kind && a.binding.value.hash.payload == a.payload
  }

  /** The rules of the draft model with their bounds. */
  lemma ValidIff(d: Draft)
    ensures Valid(d) <==>
      && d.revision <= 9223372036854775807 && |d.assertions| <= 16384 && |d.deployments| <= 64
      && (forall i :: 0 <= i < |d.assertions| ==>
            BindingFits(d.assertions[i]) && d.assertions[i].id == DeriveId(d.assertions[i].kind, d.assertions[i].payload))
      && (forall i, j :: 0 <= i < j < |d.assertions| ==> d.assertions[i].id != d.assertions[j].id)
      && (forall i, j :: 0 <= i < j < |d.deployments| ==> d.deployments[i] != d.deployments[j])
      && d.state != Published
      && (if d.state == Approved && d.plan.Some? then d.approvedPlan == Some(d.plan.value.fingerprint) else d.approvedPlan == None)
  {
    forall i | 0 <= i < |d.assertions|
      ensures WellFormed(d.assertions[i]) <==>
        BindingFits(d.assertions[i]) && d.assertions[i].id == DeriveId(d.assertions[i].kind, d.assertions[i].payload)
    {
      FitsIff(d.assertions[i]);
    }
  }

  lemma FitsIff(a: Assertion)
    ensures WellFormed(a) <==> BindingFits(a) && a.id == DeriveId(a.kind, a.payload)
  {
  }

  /** The id tells the type and the identity of an assertion, and nothing else. */
  lemma IdIff(t: AssertionType, p: Payload, t': AssertionType, p': Payload)
    ensures DeriveId(t, p) == DeriveId(t', p') <==> t == t' && p.identity == p'.identity
  {
    if DeriveId(t, p) == DeriveId(t', p') {
      NoColonInName(t);
      NoColonInName(t');
      SameHead(TypeName(t), p.identity, TypeName(t'), p'.identity);
      NamesDiffer(t, t');
    }
  }

  lemma NoColonInName(t: AssertionType)
    ensures ':' !in TypeName(t)
  {
  }

  lemma NotLonger(a: string, x: string, b: string, y: string)
    requires a + ":" + x == b + ":" + y
    ensures |a| < |b| ==> ':' in b
  {
    if |a| < |b| {
      assert (a + ":" + x)[|a|] == ':' && (b + ":" + y)[|a|] == b[|a|];
    }
  }

  lemma SameHead(a: string, x: string, b: string, y: string)
    requires a + ":" + x == b + ":" + y && ':' !in a && ':' !in b
    ensures a == b && x == y
  {
    var s, t := a + ":" + x, b + ":" + y;
    NotLonger(a, x, b, y);
    NotLonger(b, y, a, x);
    assert a == s[..|a|] && b == t[..|b|] && x == s[|a| + 1..] && y == t[|b| + 1..];
  }

  lemma NamesDiffer(t: AssertionType, t': AssertionType)
    ensures TypeName(t) == TypeName(t') ==> t == t'
  {
    var a, b := TypeName(t), TypeName(t');
    if a == b { assert |a| == |b| && a[0] == b[0]; }
  }

  // ---- transitions ----

  /** Drafts are submitted, sent back, approved and reopened. */
  predicate LegalMove(before: DraftState, after: DraftState) {
    || (before == Authoring && after == InReview)
    || (before == InReview && (after == Authoring || after == Approved))
    || (before == Approved && after == InReview)
  }

  ghost predicate HasPending(d: Draft) { exists i :: 0 <= i < |d.assertions| && d.assertions[i].review.Pending? }

  lemma ReviewedIff(d: Draft)
    requires Valid(d)
    ensures AllReviewed(d) <==> !HasPending(d)
  {
    forall i | 0 <= i < |d.assertions| ensures Reviewed(d.assertions[i]) <==> !d.assertions[i].review.Pending? {
      assert WellFormed(d.assertions[i]);
    }
  }

  /** The draft that a transition gives. */
  function MovedTo(d: Draft, state: DraftState): Draft {
    d.(state := state, revision := d.revision + 1,
       approvedBy := if state == Approved then d.approvedBy else None,
       approvedPlan := if state == Approved && d.plan.Some? then Some(d.plan.value.fingerprint) else None)
  }

  lemma TransitionAnswers(d: Draft, n: int, state: DraftState)
    requires Valid(d)
    ensures var r := Transition(d, n, state);
      if n != d.revision then r == Err(RevisionConflict(n, d.revision))
      else if !LegalMove(d.state, state) then r == Err(IllegalTransition)
      else if state == Approved && HasPending(d) then r == Err(Unreviewed)
      else if d.revision == 9223372036854775807 then r == Err(InvalidDraft)
      else r == Ok(MovedTo(d, state))
  {
    ReviewedIff(d);
  }

  /** Submission needs an authorized author and a draft that may go to review; it stores
      the author's name and reports the revisions. */
  lemma SubmitAnswers(d: Draft, n: int, auth: Authorization)
    requires Valid(d)
    ensures var r := SubmitForReview(d, n, auth);
      if !auth.granted then r == Err(Unauthorized)
      else if n != d.revision then r == Err(RevisionConflict(n, d.revision))
      else if d.state != Authoring && d.state != Approved then r == Err(IllegalTransition)
      else if d.revision == 9223372036854775807 then r == Err(InvalidDraft)
      else r == Ok(Outcome(MovedTo(d, InReview).(submittedBy := Some(auth.operator)),
                           DraftRecord(d.id, false, auth.operator, d.revision, d.revision + 1)))
  {
    TransitionAnswers(d, n, InReview);
  }

  /** Approval is accepted exactly for an authorized approver, the current revision below
      the maximum, and a draft in review without pending assertions; it stores the
      approver's name and the plan's fingerprint. */
  lemma ApproveAnswers(d: Draft, n: int, auth: Authorization)
    requires Valid(d)
    ensures var r := ApproveDraft(d, n, auth);
      if !auth.granted then r == Err(Unauthorized)
      else if n != d.revision then r == Err(RevisionConflict(n, d.revision))
      else if d.state != InReview then r == Err(IllegalTransition)
      else if HasPending(d) then r == Err(Unreviewed)
      else if d.revision == 9223372036854775807 then r == Err(InvalidDraft)
      else && r == Ok(Outcome(MovedTo(d, Approved).(approvedBy := Some(auth.operator)),
                              DraftRecord(d.id, true, auth.operator, d.revision, d.revision + 1)))
           && r.value.draft.assertions == d.assertions && r.value.draft.approvedBy == Some(auth.operator)
  {
    TransitionAnswers(d, n, Approved);
  }

  // ---- mutation ----

  /** Nothing but a plan is given. */
  predicate GivesOnlyPlan(c: Changes) {
    && c.plan.Some? && !c.forbidden
    && c.assertions.None? && c.submittedBy.None? && c.snapshot.None? && c.deployments.None? && c.details.None?
  }

  predicate GivesNothing(c: Changes) {
    && c.plan.None? && !c.forbidden
    && c.assertions.None? && c.submittedBy.None? && c.snapshot.None? && c.deployments.None? && c.details.None?
  }

  /** `e` is `d` with what is given, one revision on; another plan takes approval away. */
  predicate IsChanged(d: Draft, c: Changes, e: Draft) {
    && e.id == d.id && e.revision == d.revision + 1
    && e.assertions == (if c.assertions.Some? then c.assertions.value else d.assertions)
    && e.plan == (if c.plan.Some? then c.plan.value else d.plan)
    && e.submittedBy == (if c.submittedBy.Some? then c.submittedBy.value else d.submittedBy)
    && e.snapshot == (if c.snapshot.Some? then c.snapshot.value else d.snapshot)
    && e.deployments == (if c.deployments.Some? then c.deployments.value else d.deployments)
    && e.details == (if c.details.Some? then c.details.value else d.details)
    && (if e.plan != d.plan then
          e.state == (if d.state == Approved then InReview else d.state) && e.approvedBy == e.approvedPlan == None
        else e.state == d.state && e.approvedBy == d.approvedBy && e.approvedPlan == d.approvedPlan)
  }

  lemma MutateAnswers(d: Draft, n: int, c: Changes)
    requires Valid(d)
    ensures var r := Mutate(d, n, c);
      if n != d.revision then r == Err(RevisionConflict(n, d.revision))
      else if GivesOnlyPlan(c) && c.plan.value == d.plan then r == Ok(d)
      else if d.state == Approved && !GivesNothing(c) && !GivesOnlyPlan(c) then r == Err(Frozen)
      else if c.forbidden then r == Err(ProtectedField)
      else exists e :: IsChanged(d, c, e) && r == if Valid(e) then Ok(e) else Err(InvalidDraft)
  {
    assert GivesOnlyPlan(c) <==> PlanOnly(c);
    assert GivesNothing(c) <==> c == NO_CHANGES;
    assert IsChanged(d, c, Mutated(d, c));
  }

  // ---- decisions and edits ----

  lemma SubstituteIsUpdate(s: seq<Assertion>, i: nat, a: Assertion)
    requires i < |s| && forall j, k :: 0 <= j < k < |s| ==> s[j].id != s[k].id
    ensures Substitute(s, s[i].id, a) == s[i := a]
  {
    forall j | 0 <= j < |s| ensures Substitute(s, s[i].id, a)[j] == s[i := a][j] {
      assert s[j].id == s[i].id ==> j == i;
    }
  }

  lemma PositionOf(d: Draft, i: nat)
    requires Valid(d) && i < |d.assertions|
    ensures IndexOf(d.assertions, d.assertions[i].id) == i
  {
    var n := IndexOf(d.assertions, d.assertions[i].id);
    assert n <= i;
  }

  /** No other assertion of the draft has the id. */
  ghost predicate FreeId(d: Draft, i: nat, id: string) {
    forall j :: 0 <= j < |d.assertions| && j != i ==> d.assertions[j].id != id
  }

  /** The draft with one assertion exchanged, one revision on. */
  function Exchanged(d: Draft, i: nat, a: Assertion): Draft
    requires i < |d.assertions|
  {
    d.(assertions := d.assertions[i := a], revision := d.revision + 1)
  }

  lemma ExchangedValid(d: Draft, i: nat, a: Assertion)
    requires Valid(d) && d.state == InReview && i < |d.assertions| && WellFormed(a)
    ensures Valid(Exchanged(d, i, a)) <==> d.revision < MAX_REVISION && FreeId(d, i, a.id)
  {
    var e := Exchanged(d, i, a);
    if FreeId(d, i, a.id) {
      forall j, k | 0 <= j < k < |e.assertions| ensures e.assertions[j].id != e.assertions[k].id {
        assert d.assertions[j].id != d.assertions[k].id;
      }
    } else {
      var j :| 0 <= j < |d.assertions| && j != i && d.assertions[j].id == a.id;
      assert e.assertions[j].id == e.assertions[i].id;
      assert j < i || i < j;
    }
  }

  lemma ReplaceAnswers(d: Draft, n: int, i: nat, a: Assertion, action: DecisionKind, operator: string, reason: string)
    requires Valid(d) && d.state == InReview && i < |d.assertions| && WellFormed(a)
    ensures var r, b := ReplaceAssertion(d, n, d.assertions[i], a, action, operator, reason), d.assertions[i];
      if n != d.revision then r == Err(RevisionConflict(n, d.revision))
      else if d.revision == MAX_REVISION || !FreeId(d, i, a.id) then r == Err(InvalidDraft)
      else r == Ok(Outcome(Exchanged(d, i, a),
                           AssertionRecord(d.id, action, b.id, a.id, operator, PayloadHash(b), PayloadHash(a), b.provenance, reason)))
  {
    SubstituteIsUpdate(d.assertions, i, a);
    ExchangedValid(d, i, a);
    var c := NO_CHANGES.(assertions := Some(Substitute(d.assertions, d.assertions[i].id, a)));
    assert Mutated(d, c) == Exchanged(d, i, a);
  }

  /** Found in another snapshot than the draft's. */
  predicate FromOtherSnapshot(d: Draft, a: Assertion) {
    d.snapshot != None && (a.provenance.kind == Discovered || a.provenance.kind == Inferred) && a.provenance.snapshot != d.snapshot
  }

  /** A decision on assertion `i`. */
  lemma DecideAnswers(d: Draft, i: nat, decision: ReviewState, n: int, auth: Authorization, reason: string)
    requires Valid(d) && i < |d.assertions|
    ensures var a := d.assertions[i]; var r := Decide(d, a.id, decision, n, auth, reason);
      if !auth.granted then r == Err(Unauthorized)
      else if decision == Pending then r == Err(NotADecision)
      else if d.state != InReview then r == Err(NotInReview)
      else if FromOtherSnapshot(d, a) then r == Err(StaleProvenance)
      else if n != d.revision then r == Err(RevisionConflict(n, d.revision))
      else if d.revision == MAX_REVISION then r == Err(InvalidDraft)
      else
        var decided := a.(review := decision, binding := Some(Binding(Digest(a.kind, a.payload), auth.operator, reason)));
        r == Ok(Outcome(Exchanged(d, i, decided),
                        AssertionRecord(d.id, if decision == Accepted then ApproveIt else RejectIt, a.id, a.id, auth.operator,
                                        PayloadHash(a), PayloadHash(a), a.provenance, reason)))
  {
    PositionOf(d, i);
    if auth.granted && decision != Pending && d.state == InReview {
      var b := BindReview(d.assertions[i], decision, auth.operator, reason);
      DecidedIsFree(d, i);
      ReplaceAnswers(d, n, i, b, if decision.Accepted? then ApproveIt else RejectIt, auth.operator, reason);
    }
  }

  lemma DecidedIsFree(d: Draft, i: nat)
    requires Valid(d) && i < |d.assertions|
    ensures FreeId(d, i, d.assertions[i].id)
  {
  }

  /** An edit of assertion `i`. */
  lemma EditAnswers(d: Draft, i: nat, p: Payload, n: int, auth: Authorization, reason: string)
    requires Valid(d) && i < |d.assertions|
    ensures var a := d.assertions[i]; var r := Edit(d, a.id, p, n, auth, reason);
      if !auth.granted then r == Err(Unauthorized)
      else if d.state != InReview then r == Err(NotInReview)
      else if n != d.revision then r == Err(RevisionConflict(n, d.revision))
      else if d.revision == MAX_REVISION || !FreeId(d, i, DeriveId(a.kind, p)) then r == Err(InvalidDraft)
      else r.Ok? && IsEdited(d, i, p, r.value.draft)
           && r.value.record == AssertionRecord(d.id, EditIt, a.id, DeriveId(a.kind, p), auth.operator,
                                                PayloadHash(a), Digest(a.kind, p), a.provenance, reason)
  {
    PositionOf(d, i);
    if auth.granted && d.state == InReview {
      var a := d.assertions[i];
      ReplaceAnswers(d, n, i, Create(a.kind, p, EditedProvenance(a)), EditIt, auth.operator, reason);
    }
  }

  /** Only assertion `i` changes: a pending one with the new payload and its derived id,
      manual provenance that keeps the references of the old one. */
  predicate IsEdited(d: Draft, i: nat, p: Payload, e: Draft)
    requires i < |d.assertions|
  {
    && e == d.(assertions := e.assertions, revision := d.revision + 1) && |e.assertions| == |d.assertions|
    && (forall j :: 0 <= j < |d.assertions| && j != i ==> e.assertions[j] == d.assertions[j])
    && var a, b := d.assertions[i], e.assertions[i];
       && b.kind == a.kind && b.payload == p && b.id == DeriveId(a.kind, p) && b.review == Pending && b.binding == None
       && b.provenance.kind == Manual && b.provenance.proposal == a.provenance.proposal
       && b.provenance.snapshot == a.provenance.snapshot && b.provenance.evidence == a.provenance.evidence
       && b.provenance.technique == a.provenance.technique
       && b.provenance.source == (if a.provenance.source == None || a.provenance.source == Some("")
                                  then Some("seed:" + a.id) else a.provenance.source)
  }

  /** Decisions and edits on an id that the draft does not hold. */
  lemma UnknownTarget(d: Draft, id: string, decision: ReviewState, p: Payload, n: int, auth: Authorization, reason: string)
    requires Valid(d) && d.state == InReview && auth.granted && decision != Pending
    requires forall i :: 0 <= i < |d.assertions| ==> d.assertions[i].id != id
    ensures Decide(d, id, decision, n, auth, reason) == Err(UnknownAssertion)
    ensures Edit(d, id, p, n, auth, reason) == Err(UnknownAssertion)
  {
  }
}
