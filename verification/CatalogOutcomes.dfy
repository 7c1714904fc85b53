/** The outcome of every catalog operation and the label of every record after it, told
    from the state before it. */
module CatalogOutcomes {
  import opened Options
  import opened AuditEvidence
  import opened CatalogModel
  import opened CatalogInvariant
  import opened CatalogRuns
  import opened CatalogMoves
  import opened CatalogAudit

  // ---- labels ----

  /** The label of record `i` after an operation. */
  function LabelAfter(s: State, op: Op, k: Key, i: nat): VersionState
    requires i < |PubsAt(s, k)|
  {
    var ps, target := PubsAt(s, k), Target(s, op);
    if KeyOf(op) != k then ps[i].state
    else if target.Some? then
      if Fp(target.value) == Fp(ps[i]) then Active
      else if PriorOf(s, k) == Some(Fp(ps[i])) then Superseded
      else ps[i].state
    else if PublishPermitted(s, op) && i == |ps| - 1 && !ps[i].state.Active? then Superseded
    else if op.RetireOp? && op.fp == Fp(ps[i]) && PriorOf(s, k) != Some(op.fp) then Retired
    else if op.DeprecateOp? && op.fp == Fp(ps[i]) then Deprecated
    else ps[i].state
  }

  lemma RepointedLabel(ps: seq<Pub>, was: Option<Pub>, p: Pub, i: nat)
    requires i < |ps|
    ensures Repointed(ps, was, p)[i].state ==
      if Fp(p) == Fp(ps[i]) then Active
      else if was.Some? && Fp(was.value) == Fp(ps[i]) then Superseded
      else ps[i].state
  {
    var qs := Unpointed(ps, was);
    assert Fp(qs[i]) == Fp(ps[i]);
  }

  lemma MovedLabel(s: State, op: Op, i: nat)
    requires UniqueIds(s.audit) && i < |PubsAt(s, KeyOf(op))| && Target(s, op).Some?
    ensures var ps' := PubsAt(Apply(s, op).state, KeyOf(op));
      i < |ps'| && ps'[i].state == LabelAfter(s, op, KeyOf(op), i)
  {
    MoveResult(s, op);
    RepointedLabel(PubsAt(s, KeyOf(op)), ActiveAt(s, KeyOf(op)), Target(s, op).value, i);
  }

  lemma PublishedLabel(s: State, op: Op, i: nat)
    requires i < |PubsAt(s, KeyOf(op))| && op.PublishOp?
    ensures var ps' := PubsAt(Apply(s, op).state, KeyOf(op));
      i < |ps'| && ps'[i].state == LabelAfter(s, op, KeyOf(op), i)
  {
    PublishedPubs(s, op);
    ExtendShape(PubsAt(s, KeyOf(op)), op.bundle, op.records);
  }

  lemma RelabelledLabel(s: State, op: Op, i: nat)
    requires Inv(s) && i < |PubsAt(s, KeyOf(op))| && (op.DeprecateOp? || op.RetireOp? || op.RecordOp?)
    ensures var ps' := PubsAt(Apply(s, op).state, KeyOf(op));
      i < |ps'| && ps'[i].state == LabelAfter(s, op, KeyOf(op), i)
  {
    if !op.RecordOp? {
      var ps := PubsAt(s, op.key);
      var n := FindFingerprint(ps, op.fp);
      RelabelledPubs(s, op, n);
      if n < |ps| {
        OneRecord(s, op.key, n, i);
        ReplacedLabel(ps, ps[n].(state := if op.RetireOp? then Retired else Deprecated), i);
      }
    }
  }

  lemma ReplacedLabel(ps: seq<Pub>, c: Pub, i: nat)
    requires i < |ps|
    ensures Replace(ps, c)[i].state == if Fp(ps[i]) == Fp(c) then c.state else ps[i].state
  {
  }

  predicate RelabelAccepted(s: State, op: Op)
    requires op.DeprecateOp? || op.RetireOp?
  {
    FindFingerprint(PubsAt(s, op.key), op.fp) < |PubsAt(s, op.key)| && (op.RetireOp? ==> PriorOf(s, op.key) != Some(op.fp))
  }

  lemma RelabelledPubs(s: State, op: Op, n: nat)
    requires (op.DeprecateOp? || op.RetireOp?) && n == FindFingerprint(PubsAt(s, op.key), op.fp)
    ensures var ps := PubsAt(s, op.key);
      PubsAt(Apply(s, op).state, op.key)
      == if RelabelAccepted(s, op) then Replace(ps, ps[n].(state := if op.RetireOp? then Retired else Deprecated)) else ps
  {
  }

  /** Every operation leaves exactly these labels: ACTIVE on the record that the pointer
      moves to, SUPERSEDED on the one that it leaves and on the newest one when another is
      published, RETIRED and DEPRECATED as the operator says. */
  lemma LabelAfterIs(s: State, op: Op, k: Key, i: nat)
    requires Inv(s) && i < |PubsAt(s, k)|
    ensures i < |PubsAt(Apply(s, op).state, k)| && PubsAt(Apply(s, op).state, k)[i].state == LabelAfter(s, op, k, i)
  {
    RecordsStay(s, op, k);
    if KeyOf(op) == k {
      if Target(s, op).Some? {
        MovedLabel(s, op, i);
      } else if PointerOp(op) {
        NoTargetNoChange(s, op);
      } else if op.PublishOp? {
        PublishedLabel(s, op, i);
      } else {
        RelabelledLabel(s, op, i);
      }
    }
  }

  /** A permitted publication appends exactly one record, available and linked backwards. */
  lemma NewRecord(s: State, op: Op)
    requires PublishPermitted(s, op)
    ensures var ps, ps' := PubsAt(s, KeyOf(op)), PubsAt(Apply(s, op).state, KeyOf(op));
      && |ps'| == |ps| + 1
      && ps'[|ps|] == Pub(op.bundle, op.records, Available, if ps == [] then None else Some(Fp(ps[|ps| - 1])), None)
  {
    PublishedPubs(s, op);
  }

  // ---- retirement over a run ----

  /** The operation takes the RETIRED label off the record. */
  predicate Frees(s: State, op: Op, k: Key, i: nat) {
    var ps := PubsAt(s, k);
    KeyOf(op) == k && i < |ps| && ((PublishPermitted(s, op) && i == |ps| - 1) || (op.DeprecateOp? && op.fp == Fp(ps[i])))
  }

  ghost predicate RetiredAt(s: State, k: Key, i: nat) { i < |PubsAt(s, k)| && PubsAt(s, k)[i].state.Retired? }

  /** A retirement of any version but the active one is accepted and takes effect. */
  lemma RetirementTakesEffect(s: State, k: Key, i: nat)
    requires Inv(s) && i < |PubsAt(s, k)|
    ensures var fp := Fp(PubsAt(s, k)[i]); var r := Apply(s, RetireOp(k, fp));
      if PriorOf(s, k) == Some(fp) then r == Step(s, Failed("active_bundle_retirement"))
      else r.outcome == Relabelled(PubsAt(s, k)[i].bundle) && RetiredAt(r.state, k, i)
  {
    var ps, fp := PubsAt(s, k), Fp(PubsAt(s, k)[i]);
    LabelAfterIs(s, RetireOp(k, fp), k, i);
    var n := FindFingerprint(ps, fp);
    OneRecord(s, k, n, i);
  }

  /** Operation `n` of a run frees the record. */
  ghost predicate FreedAt(s: State, ops: seq<Op>, k: Key, i: nat, n: nat) {
    n < |ops| && Frees(Run(s, ops[..n]), ops[n], k, i)
  }

  lemma FreedInFront(s: State, ops: seq<Op>, k: Key, i: nat, n: nat)
    requires ops != [] && n < |ops| - 1
    ensures FreedAt(s, ops[..|ops| - 1], k, i, n) <==> FreedAt(s, ops, k, i, n)
  {
    assert ops[..|ops| - 1][..n] == ops[..n];
  }

  /** It stays in effect over a run until an operation of the run frees the record. */
  lemma {:induction false} RetiredOverRun(s: State, ops: seq<Op>, k: Key, i: nat)
    requires Inv(s) && RetiredAt(s, k, i) && forall n: nat :: !FreedAt(s, ops, k, i, n)
    ensures RetiredAt(Run(s, ops), k, i)
    decreases |ops|
  {
    if ops != [] {
      var n, front := |ops| - 1, ops[..|ops| - 1];
      forall m: nat ensures !FreedAt(s, front, k, i, m) {
        if m < n { FreedInFront(s, ops, k, i, m); }
      }
      RetiredOverRun(s, front, k, i);
      assert !FreedAt(s, ops, k, i, n);
      assert front + [ops[n]] == ops;
      RetiredOneMore(s, front, ops[n], k, i);
    }
  }

  lemma RetiredOneMore(s: State, front: seq<Op>, op: Op, k: Key, i: nat)
    requires Inv(s) && RetiredAt(Run(s, front), k, i) && !Frees(Run(s, front), op, k, i)
    ensures RetiredAt(Run(s, front + [op]), k, i)
  {
    RunKeeps(s, front);
    RunThen(s, front, op);
    RetiredStep(Run(s, front), op, k, i);
  }

  lemma RetiredStep(s: State, op: Op, k: Key, i: nat)
    requires Inv(s) && RetiredAt(s, k, i) && !Frees(s, op, k, i)
    ensures RetiredAt(Apply(s, op).state, k, i)
  {
    RetirementEndsIff(s, op, k, i);
  }

  /** The operation asks for the activation of record `i`. */
  predicate AsksFor(s: State, op: Op, k: Key, i: nat)
    requires i < |PubsAt(s, k)|
  {
    && (op.ActivateOp? || op.ActivateFingerprintOp? || op.RollbackToOp?) && op.key == k
    && (if op.ActivateOp? then op.version == PubsAt(s, k)[i].bundle.version else op.fp == Fp(PubsAt(s, k)[i]))
  }

  lemma AskedPosition(s: State, op: Op, k: Key, i: nat)
    requires Inv(s) && i < |PubsAt(s, k)| && AsksFor(s, op, k, i)
    ensures op.ActivateOp? ==> FindVersion(PubsAt(s, k), op.version) == i
    ensures !op.ActivateOp? ==> FindFingerprint(PubsAt(s, k), op.fp) == i
  {
    var ps := PubsAt(s, k);
    assert KeyInv(ps, ActiveAt(s, k), HistoryAt(s, k), k.bundleId);
    var n := if op.ActivateOp? then FindVersion(ps, op.version) else FindFingerprint(ps, op.fp);
    assert n <= i;
    assert n < i ==> Apart(ps[n], ps[i]);
  }

  /** After an accepted retirement every request to activate the version is refused as long
      as nothing of the run frees it. */
  lemma RetiredIsRefused(s: State, ops: seq<Op>, k: Key, i: nat, op: Op)
    requires Inv(s) && i < |PubsAt(s, k)| && PriorOf(s, k) != Some(Fp(PubsAt(s, k)[i]))
    requires var s1 := Apply(s, RetireOp(k, Fp(PubsAt(s, k)[i]))).state;
      && (forall n: nat :: !FreedAt(s1, ops, k, i, n))
      && i < |PubsAt(Run(s1, ops), k)| && AsksFor(Run(s1, ops), op, k, i)
      && (op.RollbackToOp? ==> k in Run(s1, ops).active)
    ensures var s2 := Run(Apply(s, RetireOp(k, Fp(PubsAt(s, k)[i]))).state, ops);
      Apply(s2, op) == Step(s2, Failed("bundle_retired"))
  {
    var retire := RetireOp(k, Fp(PubsAt(s, k)[i]));
    var s1 := Apply(s, retire).state;
    RetirementTakesEffect(s, k, i);
    ApplyKeeps(s, retire);
    RetiredOverRun(s1, ops, k, i);
    RunKeeps(s1, ops);
    RetiredRefused(Run(s1, ops), op, k, i);
  }

  lemma RetiredRefused(s: State, op: Op, k: Key, i: nat)
    requires Inv(s) && RetiredAt(s, k, i) && AsksFor(s, op, k, i) && (op.RollbackToOp? ==> k in s.active)
    ensures Apply(s, op) == Step(s, Failed("bundle_retired"))
  {
    AskedPosition(s, op, k, i);
    PointerIsNotRetired(s, k, i);
  }

  lemma PointerIsNotRetired(s: State, k: Key, i: nat)
    requires Inv(s) && RetiredAt(s, k, i)
    ensures PriorOf(s, k) != Some(Fp(PubsAt(s, k)[i]))
  {
    assert KeyInv(PubsAt(s, k), ActiveAt(s, k), HistoryAt(s, k), k.bundleId);
    assert Label(PubsAt(s, k)[i], ActiveAt(s, k));
  }

  // ---- publishing ----

  predicate HasFingerprint(ps: seq<Pub>, fp: string) { exists i :: 0 <= i < |ps| && Fp(ps[i]) == fp }

  predicate HasVersion(ps: seq<Pub>, version: string) { exists i :: 0 <= i < |ps| && ps[i].bundle.version == version }

  lemma PermittedIff(s: State, op: Op)
    requires op.PublishOp?
    ensures var ps := PubsAt(s, KeyOf(op));
      PublishPermitted(s, op) <==> op.gate.Pass? && !HasFingerprint(ps, op.bundle.fingerprint) && !HasVersion(ps, op.bundle.version)
  {
  }

  /** What a publication answers.  Content that is published already is reused, whatever
      the version label, unless verification is asked for that the stored record lacks. */
  lemma PublishAnswers(s: State, op: Op)
    requires Inv(s) && op.PublishOp?
    ensures var r, ps := Apply(s, op), PubsAt(s, KeyOf(op));
      match op.gate
      case Refuse(code) => r == Step(s, Failed(code))
      case Raise => r == Step(s, Raised)
      case Pass =>
        && (forall i :: 0 <= i < |ps| && Fp(ps[i]) == op.bundle.fingerprint ==>
              r == Step(s, if op.records.verified && !ps[i].records.verified
                           then Failed("publication_state_conflict") else Reused(ps[i].bundle)))
        && (!HasFingerprint(ps, op.bundle.fingerprint) && HasVersion(ps, op.bundle.version) ==>
              r == Step(s, Failed("version_exists")))
        && (!HasFingerprint(ps, op.bundle.fingerprint) && !HasVersion(ps, op.bundle.version) ==>
              r.outcome == Published(op.bundle) || r.outcome == Raised)
  {
    var ps := PubsAt(s, KeyOf(op));
    forall i | 0 <= i < |ps| && Fp(ps[i]) == op.bundle.fingerprint ensures FindFingerprint(ps, op.bundle.fingerprint) == i {
      OneRecord(s, KeyOf(op), FindFingerprint(ps, op.bundle.fingerprint), i);
    }
    PermittedIff(s, op);
    PublishShape(s, op);
  }

  /** A publication is reused exactly when its content is published and asks for no
      verification that is missing. */
  lemma ReusedIff(s: State, op: Op)
    requires Inv(s) && op.PublishOp?
    ensures var ps := PubsAt(s, KeyOf(op));
      Apply(s, op).outcome.Reused? <==>
      op.gate.Pass? && exists i :: 0 <= i < |ps| && Fp(ps[i]) == op.bundle.fingerprint && (op.records.verified ==> ps[i].records.verified)
  {
    PublishAnswers(s, op);
  }

  // ---- pointer operations ----

  /** Some record of the scope is the dependency. */
  ghost predicate DependencyPublished(s: State, tenant: Option<string>, d: Dependency) {
    exists p :: p in PubsAt(s, Key(tenant, d.bundleId)) && p.bundle.version == d.version && p.bundle.fingerprint == d.fingerprint
  }

  lemma DependencyMetIff(s: State, tenant: Option<string>, d: Dependency)
    requires Inv(s)
    ensures DependencyMet(s, tenant, d) <==> DependencyPublished(s, tenant, d)
  {
    var k := Key(tenant, d.bundleId);
    var ps := PubsAt(s, k);
    var i := FindVersion(ps, d.version);
    if DependencyPublished(s, tenant, d) {
      var p :| p in ps && p.bundle.version == d.version && p.bundle.fingerprint == d.fingerprint;
      var j :| 0 <= j < |ps| && ps[j] == p;
      assert KeyInv(ps, ActiveAt(s, k), HistoryAt(s, k), k.bundleId);
      assert i < j ==> Apart(ps[i], ps[j]);
    }
  }

  lemma DependenciesMetIff(s: State, tenant: Option<string>, b: Bundle)
    requires Inv(s)
    ensures DependenciesMet(s, tenant, b) <==>
      forall i :: 0 <= i < |b.dependencies| ==> DependencyPublished(s, tenant, b.dependencies[i])
  {
    forall i | 0 <= i < |b.dependencies|
      ensures DependencyMet(s, tenant, b.dependencies[i]) <==> DependencyPublished(s, tenant, b.dependencies[i])
    {
      DependencyMetIff(s, tenant, b.dependencies[i]);
    }
  }

  predicate IsPublicationOf(e: Entry, tenant: string, fp: string) {
    e.kind.Publication? && e.tenant == tenant && e.bundle == Some(fp)
  }

  /** The recorded publication entry is the first of its scope and fingerprint. */
  lemma {:induction false} FirstPublication(store: seq<Entry>, tenant: string, fp: string)
    ensures var r := FindPublication(store, tenant, fp);
      if r.None? then forall i :: 0 <= i < |store| ==> !IsPublicationOf(store[i], tenant, fp)
      else exists i :: FirstAt(store, tenant, fp, i) && r.value == store[i]
  {
    if store != [] && !IsPublicationOf(store[0], tenant, fp) {
      FirstPublication(store[1..], tenant, fp);
      if FindPublication(store, tenant, fp).Some? {
        var i :| FirstAt(store[1..], tenant, fp, i) && store[1..][i] == FindPublication(store, tenant, fp).value;
        assert FirstAt(store, tenant, fp, i + 1);
      }
    } else if store != [] {
      assert FirstAt(store, tenant, fp, 0);
    }
  }

  ghost predicate FirstAt(store: seq<Entry>, tenant: string, fp: string, i: int) {
    && 0 <= i < |store| && IsPublicationOf(store[i], tenant, fp)
    && forall j :: 0 <= j < i ==> !IsPublicationOf(store[j], tenant, fp)
  }

  /** The entry of a pointer change can be made unless its texts are malformed or the
      recorded publication entry has its id. */
  predicate EntryPossible(s: State, k: Key, p: Pub, q: Request)
    requires k.tenant.Some?
  {
    var recorded := FindPublication(s.audit, k.tenant.value, Fp(p));
    q.wellFormed && (recorded.Some? ==> recorded.value.eventId != PointerEventId(q.kind, p.bundle.id, PriorOf(s, k), Fp(p)))
  }

  /** What activating a record answers, check by check. */
  ghost predicate AnswersActivation(s: State, k: Key, p: Pub, gate: Gate, q: Request, r: Step, done: Outcome) {
    if p.state.Retired? then r == Step(s, Failed("bundle_retired"))
    else if gate.Refuse? then r == Step(s, Failed(gate.code))
    else if gate.Raise? then r == Step(s, Raised)
    else if exists i :: 0 <= i < |p.bundle.dependencies| && !DependencyPublished(s, k.tenant, p.bundle.dependencies[i])
      then r == Step(s, Failed("dependency_unavailable"))
    else if k.tenant.Some? && !EntryPossible(s, k, p, q) then r == Step(s, Failed("audit_evidence_invalid"))
    else ActiveAt(r.state, k) == Some(p.(state := Active)) && (r.outcome == done || (k.tenant.Some? && r.outcome == Raised))
  }

  lemma ActivateRefuses(s: State, k: Key, p: Pub, gate: Gate, q: Request)
    ensures var r := ActivateRecord(s, k, p, gate, q);
      if p.state.Retired? then r == Step(s, Failed("bundle_retired"))
      else if gate.Refuse? then r == Step(s, Failed(gate.code))
      else if gate.Raise? then r == Step(s, Raised)
      else if !DependenciesMet(s, k.tenant, p.bundle) then r == Step(s, Failed("dependency_unavailable"))
      else k.tenant.Some? && PointerEntry(s, k, p, PriorOf(s, k), q).None? ==> r == Step(s, Failed("audit_evidence_invalid"))
  {
  }

  lemma EntryIff(s: State, k: Key, p: Pub, q: Request)
    requires k.tenant.Some?
    ensures PointerEntry(s, k, p, PriorOf(s, k), q).Some? <==> EntryPossible(s, k, p, q)
  {
  }

  lemma ActivateAnswers(s: State, k: Key, p: Pub, gate: Gate, q: Request)
    requires Inv(s)
    ensures AnswersActivation(s, k, p, gate, q, ActivateRecord(s, k, p, gate, q), Activated(p.bundle))
  {
    DependenciesMetIff(s, k.tenant, p.bundle);
    if k.tenant.Some? { EntryIff(s, k, p, q); }
    if ActivationPermitted(s, k, p, gate, q) {
      ActivatePermitted(s, k, p, gate, q, ActivateRecord(s, k, p, gate, q));
    } else {
      ActivateRefuses(s, k, p, gate, q);
    }
  }

  lemma ActivatePermitted(s: State, k: Key, p: Pub, gate: Gate, q: Request, r: Step)
    requires UniqueIds(s.audit) && ActivationPermitted(s, k, p, gate, q) && r == ActivateRecord(s, k, p, gate, q)
    ensures ActiveAt(r.state, k) == Some(p.(state := Active))
    ensures r.outcome == Activated(p.bundle) || (k.tenant.Some? && r.outcome == Raised)
  {
    ActivateShape(s, k, p, gate, q);
    PointToShape(s, k, p);
    RecordFrame(PointTo(s, k, p), PointerEntry(s, k, p, PriorOf(s, k), q), Activated(p.bundle));
  }

  /** Activation by version or fingerprint: an unknown one is not found, a known one is
      answered check by check. */
  lemma ActivationAnswers(s: State, op: Op, k: Key)
    requires Inv(s) && (op.ActivateOp? || op.ActivateFingerprintOp?) && op.key == k
    ensures var ps := PubsAt(s, k);
      && ((forall i :: 0 <= i < |ps| ==> !AsksFor(s, op, k, i)) ==> Apply(s, op) == Step(s, Failed("bundle_not_found")))
      && (forall i :: 0 <= i < |ps| && AsksFor(s, op, k, i) ==>
            AnswersActivation(s, k, ps[i], op.gate, op.request.(kind := Activation), Apply(s, op), Activated(ps[i].bundle)))
  {
    var ps := PubsAt(s, k);
    forall i | 0 <= i < |ps| && AsksFor(s, op, k, i)
      ensures AnswersActivation(s, k, ps[i], op.gate, op.request.(kind := Activation), Apply(s, op), Activated(ps[i].bundle))
    {
      AskedPosition(s, op, k, i);
      ActivateAnswers(s, k, ps[i], op.gate, op.request.(kind := Activation));
    }
    var n := if op.ActivateOp? then FindVersion(ps, op.version) else FindFingerprint(ps, op.fp);
    if n < |ps| { assert AsksFor(s, op, k, n); }
  }

  /** Rollback to a fingerprint: to itself it does nothing, to another one it is an
      activation that reports a rollback. */
  lemma RollbackToAnswers(s: State, op: Op, k: Key)
    requires Inv(s) && op.RollbackToOp? && op.key == k
    ensures var r, ps := Apply(s, op), PubsAt(s, k);
      && (!HasFingerprint(ps, op.fp) ==> r == Step(s, Failed("bundle_not_found")))
      && (HasFingerprint(ps, op.fp) && k !in s.active ==> r == Step(s, Failed("bundle_not_active")))
      && (forall i :: 0 <= i < |ps| && Fp(ps[i]) == op.fp && k in s.active ==>
            if Fp(s.active[k]) == op.fp then r == Step(s, RolledBack(ps[i].bundle))
            else AnswersActivation(s, k, ps[i], op.gate, op.request.(kind := EventKind.Rollback), r, RolledBack(ps[i].bundle)))
  {
    var ps := PubsAt(s, k);
    forall i | 0 <= i < |ps| && Fp(ps[i]) == op.fp ensures FindFingerprint(ps, op.fp) == i {
      AskedPosition(s, op, k, i);
    }
    var n := FindFingerprint(ps, op.fp);
    if n < |ps| && k in s.active && Fp(s.active[k]) != op.fp {
      RollbackToActivates(s, op, k, n);
    }
  }

  lemma RollbackToActivates(s: State, op: Op, k: Key, n: nat)
    requires Inv(s) && op.RollbackToOp? && op.key == k && k in s.active && Fp(s.active[k]) != op.fp
    requires n == FindFingerprint(PubsAt(s, k), op.fp) < |PubsAt(s, k)|
    ensures AnswersActivation(s, k, PubsAt(s, k)[n], op.gate, op.request.(kind := EventKind.Rollback), Apply(s, op),
                              RolledBack(PubsAt(s, k)[n].bundle))
  {
    var p, q := PubsAt(s, k)[n], op.request.(kind := EventKind.Rollback);
    var done := ActivateRecord(s, k, p, op.gate, q);
    RollbackToIs(s, k, op.fp, op.gate, op.request, n, done);
    ActivateAnswers(s, k, p, op.gate, q);
  }

  /** What a rollback answers, check by check; no dependency is among them. */
  lemma RollbackAnswers(s: State, op: Op, k: Key)
    requires Inv(s) && op.RollbackOp? && op.key == k
    ensures var r, ps, h, q := Apply(s, op), PubsAt(s, k), HistoryAt(s, k), op.request.(kind := EventKind.Rollback);
      if k !in s.active then r == Step(s, Failed("bundle_not_active"))
      else if h == [] then r == Step(s, Failed("no_rollback_history"))
      else if exists i :: 0 <= i < |ps| && Fp(ps[i]) == Fp(h[0]) && ps[i].state.Retired? then r == Step(s, Failed("bundle_retired"))
      else if op.gate.Refuse? then r == Step(s, Failed(op.gate.code))
      else if op.gate.Raise? then r == Step(s, Raised)
      else if k.tenant.Some? && !EntryPossible(s, k, h[0], q) then r == Step(s, Failed("audit_evidence_invalid"))
      else && ActiveAt(r.state, k) == Some(h[0].(state := Active)) && HistoryAt(r.state, k) == h[1..]
           && (r.outcome == RolledBack(h[0].bundle) || (k.tenant.Some? && r.outcome == Raised))
  {
    var h := HistoryAt(s, k);
    if k in s.active && h != [] {
      TargetRecord(s, k);
      if k.tenant.Some? { EntryIff(s, k, h[0], op.request.(kind := EventKind.Rollback)); }
    }
    if RollbackPermitted(s, k, op.gate, op.request) {
      RollbackPermittedAnswers(s, k, op.gate, op.request, Apply(s, op));
    } else {
      RollbackRefuses(s, k, op.gate, op.request);
    }
  }

  lemma RollbackRefuses(s: State, k: Key, gate: Gate, q: Request)
    ensures var r, h := CatalogModel.Rollback(s, k, gate, q), HistoryAt(s, k);
      if k !in s.active then r == Step(s, Failed("bundle_not_active"))
      else if h == [] then r == Step(s, Failed("no_rollback_history"))
      else if !RollbackTargetLive(s, k) then r == Step(s, Failed("bundle_retired"))
      else if gate.Refuse? then r == Step(s, Failed(gate.code))
      else if gate.Raise? then r == Step(s, Raised)
      else k.tenant.Some? && RollbackEntry(s, k, h[0], q).None? ==> r == Step(s, Failed("audit_evidence_invalid"))
  {
  }

  lemma RollbackPermittedAnswers(s: State, k: Key, gate: Gate, q: Request, r: Step)
    requires UniqueIds(s.audit) && RollbackPermitted(s, k, gate, q) && r == CatalogModel.Rollback(s, k, gate, q)
    ensures var h := HistoryAt(s, k);
      && ActiveAt(r.state, k) == Some(h[0].(state := Active)) && HistoryAt(r.state, k) == h[1..]
      && (r.outcome == RolledBack(h[0].bundle) || (k.tenant.Some? && r.outcome == Raised))
  {
    var h := HistoryAt(s, k);
    RollbackShape(s, k, gate, q);
    PopToShape(s, k);
    RecordFrame(PopTo(s, k), RollbackEntry(s, k, h[0], q), RolledBack(h[0].bundle));
  }

  /** The top of the history has exactly one record. */
  lemma TargetRecord(s: State, k: Key)
    requires Inv(s) && HistoryAt(s, k) != []
    ensures var ps, fp := PubsAt(s, k), Fp(HistoryAt(s, k)[0]); var n := FindFingerprint(ps, fp);
      n < |ps| && forall i :: 0 <= i < |ps| && Fp(ps[i]) == fp ==> i == n
  {
    var ps, fp := PubsAt(s, k), Fp(HistoryAt(s, k)[0]);
    HistoryTop(s, k);
    var j: nat :| Twin(ps, j, HistoryAt(s, k)[0]);
    assert Fp(ps[j]) == fp;
    var n := FindFingerprint(ps, fp);
    forall i | 0 <= i < |ps| && Fp(ps[i]) == fp ensures i == n { OneRecord(s, k, n, i); }
  }

  /** What deprecation and retirement answer. */
  lemma RelabelAnswers(s: State, op: Op, k: Key)
    requires Inv(s) && (op.DeprecateOp? || op.RetireOp?) && op.key == k
    ensures var r, ps := Apply(s, op), PubsAt(s, k);
      && (!HasFingerprint(ps, op.fp) ==> r == Step(s, Failed("bundle_not_found")))
      && (forall i :: 0 <= i < |ps| && Fp(ps[i]) == op.fp ==>
            if op.RetireOp? && PriorOf(s, k) == Some(op.fp) then r == Step(s, Failed("active_bundle_retirement"))
            else r.outcome == Relabelled(ps[i].bundle) && PubsAt(r.state, k) == ps[i := ps[i].(state := LabelAfter(s, op, k, i))])
  {
    var ps := PubsAt(s, k);
    RelabelReports(s, op, k);
    forall i | 0 <= i < |ps| && Fp(ps[i]) == op.fp ensures RelabelsOnly(s, op, k, i) { RelabelledAt(s, op, k, i); }
  }

  lemma RelabelReports(s: State, op: Op, k: Key)
    requires (op.DeprecateOp? || op.RetireOp?) && op.key == k
    ensures var r, ps := Apply(s, op), PubsAt(s, k); var n := FindFingerprint(ps, op.fp);
      if n == |ps| then r == Step(s, Failed("bundle_not_found"))
      else if op.RetireOp? && PriorOf(s, k) == Some(op.fp) then r == Step(s, Failed("active_bundle_retirement"))
      else r.outcome == Relabelled(ps[n].bundle)
  {
  }

  /** The one record with the fingerprint is the first found, and only it changes. */
  ghost predicate RelabelsOnly(s: State, op: Op, k: Key, i: int)
    requires op.DeprecateOp? || op.RetireOp?
  {
    var ps := PubsAt(s, k);
    && 0 <= i < |ps| && FindFingerprint(ps, op.fp) == i
    && (RelabelAccepted(s, op) ==>
          PubsAt(Apply(s, op).state, k) == ps[i := ps[i].(state := if op.RetireOp? then Retired else Deprecated)])
  }

  lemma RelabelledAt(s: State, op: Op, k: Key, i: nat)
    requires Inv(s) && (op.DeprecateOp? || op.RetireOp?) && op.key == k && i < |PubsAt(s, k)| && Fp(PubsAt(s, k)[i]) == op.fp
    ensures RelabelsOnly(s, op, k, i)
  {
    var ps := PubsAt(s, k);
    OneRecord(s, k, FindFingerprint(ps, op.fp), i);
    RelabelledPubs(s, op, i);
    forall j | 0 <= j < |ps| && Fp(ps[j]) == op.fp ensures j == i { OneRecord(s, k, j, i); }
  }

  // ---- the entries that are recorded ----

  /** The facts of a pointer change's entry. */
  lemma MoveEntryFacts(s: State, op: Op)
    requires Target(s, op).Some? && MoveEntry(s, op).Some?
    ensures var e, p, k := MoveEntry(s, op).value, Target(s, op).value, KeyOf(op);
      && Some(e.tenant) == k.tenant && e.kind == KindOf(op) && e.prior == PriorOf(s, k)
      && e.resulting == e.bundle == Some(Fp(p)) && e.sourceScope == p.records.sourceScope && e.details == ""
      && e.eventId == PointerEventId(KindOf(op), p.bundle.id, PriorOf(s, k), Fp(p))
      && e.operator == op.request.operator && e.occurredAt == op.request.now
      && var recorded := FindPublication(s.audit, e.tenant, Fp(p));
         && e.predecessors == (if recorded.Some? then [recorded.value.eventId] else [])
         && (p.records.auditId.Some? ==> e.reference == p.records.auditId)
         && (p.records.auditId.None? && recorded.Some? ==> e.reference == Some(recorded.value.eventId))
         && (p.records.auditId.None? && recorded.None? ==> e.reference == Some("publication-" + Fp(p)))
  {
  }

  /** The facts of a publication's entry: it links the recorded entry of the version before
      whenever there is one. */
  lemma PublicationEntryFacts(s: State, op: Op)
    requires op.PublishOp? && PublishedEntry(s, op).Some?
    ensures var e, ps, f := PublishedEntry(s, op).value, PubsAt(s, KeyOf(op)), op.records.facts.value;
      && e.kind.Publication? && e.eventId == f.eventId && e.tenant == f.tenant && e.sourceScope == f.sourceScope
      && e.bundle == Some(op.bundle.fingerprint) && e.reference == Some(f.reference) && e.details == f.details
      && e.prior == e.resulting == e.operator == None && e.occurredAt == op.now
      && e.predecessors ==
         (if op.tenant.Some? && ps != [] && FindPublication(s.audit, op.tenant.value, Fp(ps[|ps| - 1])).Some?
          then [FindPublication(s.audit, op.tenant.value, Fp(ps[|ps| - 1])).value.eventId] else [])
  {
  }
}
