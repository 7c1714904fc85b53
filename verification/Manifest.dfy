/** Accepted-assertion manifests derived from approved drafts. */
module Manifest {
  import opened Options
  import opened Ordering
  import opened AssemblyDraft
  import Lifecycle = AssemblyLifecycle

  datatype AcceptedAssertion = AcceptedAssertion(id: string, kind: AssertionType, payload: Payload, hash: Digest)

  datatype AcceptedManifest = AcceptedManifest(bundleId: string, fingerprint: string, assertions: seq<AcceptedAssertion>)

  datatype ManifestError = NotApproved | PendingAssertion | NotAccepted | UnboundReview | Mismatch

  function AcceptedKey(a: AcceptedAssertion): seq<int> { Codes(a.id) }

  /** The semantic content of an assertion, without its lifecycle. */
  function Content(a: Assertion): AcceptedAssertion { AcceptedAssertion(a.id, a.kind, a.payload, PayloadHash(a)) }

  function FromAssertion(a: Assertion): Result<AcceptedAssertion, ManifestError> {
    if !a.review.Accepted? then Err(NotAccepted)
    else if !Reviewed(a) then Err(UnboundReview)
    else if a.id != DeriveId(a.kind, a.payload) then Err(Mismatch)
    else Ok(Content(a))
  }

  /** The accepted assertions in draft order; the first that is malformed is reported. */
  function Accepted(s: seq<Assertion>): Result<seq<AcceptedAssertion>, ManifestError> {
    if s == [] then Ok([])
    else if !s[0].review.Accepted? then Accepted(s[1..])
    else
      match FromAssertion(s[0])
      case Err(e) => Err(e)
      case Ok(a) =>
        match Accepted(s[1..])
        case Err(e) => Err(e)
        case Ok(rest) => Ok([a] + rest)
  }

  function FromDraft(d: Draft, fingerprint: string): Result<AcceptedManifest, ManifestError> {
    if !d.state.Approved? then Err(NotApproved)
    else if exists i :: 0 <= i < |d.assertions| && d.assertions[i].review.Pending? then Err(PendingAssertion)
    else
      match Accepted(d.assertions)
      case Err(e) => Err(e)
      case Ok(accepted) => Ok(AcceptedManifest(d.details.bundleId, fingerprint, SortBy(accepted, AcceptedKey)))
  }

  ghost predicate IsContent(s: seq<Assertion>, x: AcceptedAssertion) {
    exists a :: a in s && a.review.Accepted? && x == Content(a)
  }

  lemma {:induction false} AcceptedMember(s: seq<Assertion>, x: AcceptedAssertion)
    requires forall i :: 0 <= i < |s| ==> WellFormed(s[i])
    ensures Accepted(s).Ok? && (x in Accepted(s).value <==> IsContent(s, x))
  {
    if s != [] {
      AcceptedMember(s[1..], x);
      assert WellFormed(s[0]) && s == [s[0]] + s[1..];
      assert IsContent(s, x) <==> IsContent(s[1..], x) || (s[0].review.Accepted? && x == Content(s[0]));
    }
  }

  lemma {:induction false} AcceptedDistinct(s: seq<Assertion>)
    requires forall i :: 0 <= i < |s| ==> WellFormed(s[i])
    requires forall i, j :: 0 <= i < j < |s| ==> s[i].id != s[j].id
    ensures Accepted(s).Ok? && DistinctBy(Accepted(s).value, AcceptedKey)
  {
    if s != [] {
      var rest := s[1..];
      AcceptedDistinct(rest);
      var xs := Accepted(rest).value;
      forall i | 0 <= i < |xs| ensures AcceptedKey(xs[i]) != Codes(s[0].id) {
        AcceptedMember(rest, xs[i]);
        OtherId(s, xs[i]);
        if AcceptedKey(xs[i]) == Codes(s[0].id) { CodesInjective(xs[i].id, s[0].id); }
      }
    }
  }

  lemma OtherId(s: seq<Assertion>, x: AcceptedAssertion)
    requires s != [] && IsContent(s[1..], x)
    requires forall i, j :: 0 <= i < j < |s| ==> s[i].id != s[j].id
    ensures x.id != s[0].id
  {
    var a :| a in s[1..] && a.review.Accepted? && x == Content(a);
    var i :| 0 <= i < |s[1..]| && s[1..][i] == a;
    assert s[i + 1] == a;
  }

  /** The accepted assertions of well-formed ones, with distinct ids as theirs. */
  lemma AcceptedOf(s: seq<Assertion>)
    requires forall i :: 0 <= i < |s| ==> WellFormed(s[i])
    requires forall i, j :: 0 <= i < j < |s| ==> s[i].id != s[j].id
    ensures Accepted(s).Ok?
    ensures forall x :: x in Accepted(s).value <==> IsContent(s, x)
    ensures DistinctBy(Accepted(s).value, AcceptedKey)
  {
    AcceptedDistinct(s);
    forall x ensures x in Accepted(s).value <==> IsContent(s, x) { AcceptedMember(s, x); }
  }

  /** A manifest holds exactly the accepted assertions of the draft, in strictly
      increasing id order, and can be derived exactly from approved drafts without
      pending assertions. */
  lemma ManifestIsAccepted(d: Draft, fingerprint: string)
    requires Valid(d)
    ensures var r := FromDraft(d, fingerprint);
      && (r.Ok? <==> d.state.Approved? && forall i :: 0 <= i < |d.assertions| ==> !d.assertions[i].review.Pending?)
      && (r.Ok? ==>
            && (forall x :: x in r.value.assertions <==> IsContent(d.assertions, x))
            && StrictlySortedBy(r.value.assertions, AcceptedKey))
  {
    AcceptedOf(d.assertions);
    var accepted := Accepted(d.assertions).value;
    SortByMembers(accepted, AcceptedKey);
    SortByStrict(accepted, AcceptedKey);
  }

  /** What a manifest is made of, and the error where there is none: each accepted
      assertion is there with its id, type, payload and payload hash. */
  lemma ManifestAnswers(d: Draft, fingerprint: string)
    requires Valid(d)
    ensures var r := FromDraft(d, fingerprint);
      if d.state != Approved then r == Err(NotApproved)
      else if exists a :: a in d.assertions && a.review == Pending then r == Err(PendingAssertion)
      else
        && r.Ok? && r.value.bundleId == d.details.bundleId && r.value.fingerprint == fingerprint
        && (forall x :: x in r.value.assertions <==> AcceptedIn(d.assertions, x))
        && (forall i, j :: 0 <= i < j < |r.value.assertions| ==>
              LexLess(Codes(r.value.assertions[i].id), Codes(r.value.assertions[j].id)))
  {
    ManifestIsAccepted(d, fingerprint);
    if FromDraft(d, fingerprint).Ok? {
      forall x ensures IsContent(d.assertions, x) <==> AcceptedIn(d.assertions, x) { ContentIff(d, x); }
    }
  }

  ghost predicate AcceptedIn(s: seq<Assertion>, x: AcceptedAssertion) {
    exists a :: a in s && a.review == ReviewState.Accepted && a.id == x.id && a.kind == x.kind && a.payload == x.payload
      && x.hash == Digest(a.kind, a.payload)
  }

  lemma ContentIff(d: Draft, x: AcceptedAssertion)
    ensures IsContent(d.assertions, x) <==> AcceptedIn(d.assertions, x)
  {
    if IsContent(d.assertions, x) {
      var a :| a in d.assertions && a.review.Accepted? && x == Content(a);
    }
    if AcceptedIn(d.assertions, x) {
      var a :| a in d.assertions && a.review == ReviewState.Accepted && a.id == x.id && a.kind == x.kind && a.payload == x.payload
        && x.hash == Digest(a.kind, a.payload);
      assert x == Content(a);
    }
  }

  /** Every approved draft that a run reaches from a fresh one has a manifest. */
  lemma ApprovedRunsHaveManifests(d: Draft, ops: seq<Lifecycle.Op>, fingerprint: string)
    requires Lifecycle.Fresh(d)
    ensures FromDraft(Lifecycle.Run(d, ops), fingerprint).Ok? <==> Lifecycle.Run(d, ops).state.Approved?
  {
    var e := Lifecycle.Run(d, ops);
    Lifecycle.RunGoverned(d, ops);
    ManifestIsAccepted(e, fingerprint);
    if e.state.Approved? {
      forall i | 0 <= i < |e.assertions| ensures !e.assertions[i].review.Pending? {
        assert Reviewed(e.assertions[i]);
      }
    }
  }

  /** The order of the assertions in the draft does not matter. */
  lemma ManifestOrderFree(d: Draft, e: Draft, fingerprint: string)
    requires Valid(d) && Valid(e) && e == d.(assertions := e.assertions)
    requires forall a :: a in d.assertions <==> a in e.assertions
    requires FromDraft(d, fingerprint).Ok? && FromDraft(e, fingerprint).Ok?
    ensures FromDraft(d, fingerprint) == FromDraft(e, fingerprint)
  {
    AcceptedOf(d.assertions);
    AcceptedOf(e.assertions);
    SortByOrderFree(Accepted(d.assertions).value, Accepted(e.assertions).value, AcceptedKey);
  }
}
