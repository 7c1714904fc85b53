/** Safety of the catalog over single operations and over whole runs. */
module CatalogRuns {
  import opened Options
  import opened AuditEvidence
  import opened CatalogModel
  import opened CatalogInvariant

  // ---- recording ----

  lemma AppendUnique(audit: seq<Entry>, live: set<string>, e: Entry)
    requires UniqueIds(audit)
    ensures AppendEntry(audit, live, e).Kept? ==> UniqueIds(AppendEntry(audit, live, e).audit)
  {
    if FindEvent(audit, e.eventId) == |audit| {
      TrimUnique(audit + [e], live, AUDIT_STORE_LIMIT);
    }
  }

  /** Recording changes nothing but the audit store. */
  lemma RecordFrame(s: State, e: Option<Entry>, done: Outcome)
    requires UniqueIds(s.audit)
    ensures var r := Record(s, e, done);
      r.state == s.(audit := r.state.audit) && UniqueIds(r.state.audit) && (r.outcome == done || r.outcome.Raised?)
  {
    if e.Some? { AppendUnique(s.audit, LiveFingerprints(s.pubs), e.value); }
  }

  lemma {:induction false} AppendAllUnique(audit: seq<Entry>, live: set<string>, es: seq<Entry>)
    requires UniqueIds(audit)
    ensures UniqueIds(AppendAll(audit, live, es).0)
    decreases |es|
  {
    if es != [] {
      AppendUnique(audit, live, es[0]);
      match AppendEntry(audit, live, es[0])
      case Conflict =>
      case Kept(more) => AppendAllUnique(more, live, es[1..]);
    }
  }

  // ---- when a pointer moves ----

  /** Every check before the pointer is written lets the activation of `p` through. */
  predicate ActivationPermitted(s: State, k: Key, p: Pub, gate: Gate, q: Request) {
    && !p.state.Retired? && gate.Pass? && DependenciesMet(s, k.tenant, p.bundle)
    && (k.tenant.Some? ==> PointerEntry(s, k, p, PriorOf(s, k), q).Some?)
  }

  /** The same for a rollback to the top of the history. */
  predicate RollbackPermitted(s: State, k: Key, gate: Gate, q: Request) {
    && RollbackTargetLive(s, k) && gate.Pass?
    && (k.tenant.Some? ==> RollbackEntry(s, k, HistoryAt(s, k)[0], q).Some?)
  }

  /** There is something to roll back to, and its record is not retired. */
  predicate RollbackTargetLive(s: State, k: Key) {
    && k in s.active && HistoryAt(s, k) != []
    && var i := FindFingerprint(PubsAt(s, k), Fp(HistoryAt(s, k)[0]));
       i < |PubsAt(s, k)| && !PubsAt(s, k)[i].state.Retired?
  }

  function RollbackEntry(s: State, k: Key, p: Pub, q: Request): Option<Entry> {
    PointerEntry(s, k, p, PriorOf(s, k), q.(kind := EventKind.Rollback))
  }

  lemma ActivateShape(s: State, k: Key, p: Pub, gate: Gate, q: Request)
    ensures var done := ActivateRecord(s, k, p, gate, q);
      if ActivationPermitted(s, k, p, gate, q)
      then done == Record(PointTo(s, k, p), PointerEntry(s, k, p, PriorOf(s, k), q), Activated(p.bundle))
      else done == Step(s, done.outcome) && (if !p.state.Retired? && gate.Raise? then done.outcome.Raised? else done.outcome.Failed?)
  {
  }

  lemma RollbackShape(s: State, k: Key, gate: Gate, q: Request)
    ensures var done := CatalogModel.Rollback(s, k, gate, q); var h := HistoryAt(s, k);
      if RollbackPermitted(s, k, gate, q)
      then done == Record(PopTo(s, k), RollbackEntry(s, k, h[0], q), RolledBack(h[0].bundle))
      else done == Step(s, done.outcome) && (if RollbackTargetLive(s, k) && gate.Raise? then done.outcome.Raised? else done.outcome.Failed?)
  {
  }

  // ---- each operation keeps the invariant ----

  ghost predicate Keeps(s: State, s': State, k: Key) {
    Inv(s') && AppendOnly(s, s') && OnlyAt(s, s', k)
  }

  lemma GrownReflexive(s: State)
    ensures AppendOnly(s, s)
  {
  }

  lemma AuditOnlyKeeps(s: State, audit: seq<Entry>, k: Key)
    requires Inv(s) && UniqueIds(audit)
    ensures Keeps(s, s.(audit := audit), k)
  {
    var s' := s.(audit := audit);
    assert forall k' :: PubsAt(s', k') == PubsAt(s, k') && ActiveAt(s', k') == ActiveAt(s, k') && HistoryAt(s', k') == HistoryAt(s, k');
    DependenciesAt(s, k);
    assert KeyInv(PubsAt(s, k), ActiveAt(s, k), HistoryAt(s, k), k.bundleId);
    StepKeeps(s, s', k);
  }

  lemma DependenciesAt(s: State, k: Key)
    requires Inv(s)
    ensures ActiveAt(s, k).Some? ==> DependenciesMet(s, k.tenant, ActiveAt(s, k).value.bundle)
    ensures forall j :: 0 <= j < |HistoryAt(s, k)| ==> DependenciesMet(s, k.tenant, HistoryAt(s, k)[j].bundle)
  {
  }

  lemma ThenRecord(s: State, s1: State, k: Key, e: Option<Entry>, done: Outcome)
    requires Keeps(s, s1, k) && s1.audit == s.audit
    ensures Keeps(s, Record(s1, e, done).state, k)
  {
    RecordFrame(s1, e, done);
    var s' := Record(s1, e, done).state;
    AuditOnlyKeeps(s1, s'.audit, k);
    forall k' ensures Grown(PubsAt(s, k'), PubsAt(s', k')) {
      assert Grown(PubsAt(s, k'), PubsAt(s1, k')) && PubsAt(s', k') == PubsAt(s1, k');
    }
  }

  /** A step that changes the publications of one key and nothing else. */
  lemma PubsKeeps(s: State, k: Key, ps: seq<Pub>)
    requires Inv(s) && Grown(PubsAt(s, k), ps)
    requires KeyInv(ps, ActiveAt(s, k), HistoryAt(s, k), k.bundleId)
    ensures Keeps(s, WithPubs(s, k, ps), k)
  {
    var s' := WithPubs(s, k, ps);
    assert PubsAt(s', k) == ps;
    DependenciesAt(s, k);
    StepKeeps(s, s', k);
  }

  lemma ExtendPubsKeeps(s: State, k: Key, b: Bundle, r: Records)
    requires Inv(s) && b.id == k.bundleId
    requires FindFingerprint(PubsAt(s, k), b.fingerprint) == |PubsAt(s, k)|
    requires FindVersion(PubsAt(s, k), b.version) == |PubsAt(s, k)|
    ensures Keeps(s, WithPubs(s, k, Extend(PubsAt(s, k), b, r)), k)
  {
    assert KeyInv(PubsAt(s, k), ActiveAt(s, k), HistoryAt(s, k), k.bundleId);
    ExtendKeeps(PubsAt(s, k), ActiveAt(s, k), HistoryAt(s, k), b, r, k.bundleId);
    PubsKeeps(s, k, Extend(PubsAt(s, k), b, r));
  }

  lemma PublishKeeps(s: State, tenant: Option<string>, b: Bundle, r: Records, gate: Gate, now: int)
    requires Inv(s)
    ensures Keeps(s, Publish(s, tenant, b, r, gate, now).state, Key(tenant, b.id))
  {
    var k := Key(tenant, b.id);
    var ps := PubsAt(s, k);
    AuditOnlyKeeps(s, s.audit, k);
    if gate.Pass? && FindFingerprint(ps, b.fingerprint) == |ps| && FindVersion(ps, b.version) == |ps| {
      ExtendPubsKeeps(s, k, b, r);
      var s1 := WithPubs(s, k, Extend(ps, b, r));
      var predecessor := if ps == [] then None else Some(ps[|ps| - 1].bundle.fingerprint);
      var entry := if r.facts.None? then None else Some(PublicationEntry(s, tenant, b, r.facts.value, predecessor, now));
      ThenRecord(s, s1, k, entry, Published(b));
    }
  }

  lemma LiveIsCopy(s: State, k: Key, i: nat)
    requires Inv(s) && i < |PubsAt(s, k)|
    ensures Copy(PubsAt(s, k), PubsAt(s, k)[i])
  {
    var ps := PubsAt(s, k);
    assert KeyInv(ps, ActiveAt(s, k), HistoryAt(s, k), k.bundleId);
    assert SoundSuccessor(ps, i, ps[i]);
    assert Twin(ps, i, ps[i]);
  }

  /** Where a pointer change writes. */
  lemma MoveShape(s: State, k: Key, ps: seq<Pub>, now: Pub, h: seq<Pub>)
    ensures var s' := WithPubs(s, k, ps).(active := s.active[k := now], history := s.history[k := h]);
      PubsAt(s', k) == ps && ActiveAt(s', k) == Some(now) && HistoryAt(s', k) == h && OnlyAt(s, s', k)
  {
  }

  lemma PointToShape(s: State, k: Key, p: Pub)
    ensures var s' := PointTo(s, k, p);
      && PubsAt(s', k) == Repointed(PubsAt(s, k), ActiveAt(s, k), p)
      && ActiveAt(s', k) == Some(p.(state := Active))
      && HistoryAt(s', k) == (if k in s.active then [s.active[k]] else []) + HistoryAt(s, k)
      && OnlyAt(s, s', k) && s'.audit == s.audit
  {
    var ps := Repointed(PubsAt(s, k), ActiveAt(s, k), p);
    var now := p.(state := Active);
    if k in s.active {
      var h := [s.active[k]] + HistoryAt(s, k);
      MoveShape(s, k, ps, now, h);
      assert PointTo(s, k, p) == WithPubs(s, k, ps).(active := s.active[k := now], history := s.history[k := h]);
    } else {
      assert PointTo(s, k, p) == WithPubs(s, k, ps).(active := s.active[k := now]);
    }
  }

  /** A step that moves the pointer of one key to a copy of one of its records. */
  lemma MoveKeeps(s: State, s': State, k: Key, p: Pub)
    requires Inv(s) && Copy(PubsAt(s, k), p) && DependenciesMet(s, k.tenant, p.bundle)
    requires OnlyAt(s, s', k) && s'.audit == s.audit
    requires PubsAt(s', k) == Repointed(PubsAt(s, k), ActiveAt(s, k), p)
    requires ActiveAt(s', k) == Some(p.(state := Active))
    requires forall j :: 0 <= j < |HistoryAt(s', k)| ==>
      HistoryAt(s', k)[j] in HistoryAt(s, k) || ActiveAt(s, k) == Some(HistoryAt(s', k)[j])
    ensures Keeps(s, s', k)
  {
    assert KeyInv(PubsAt(s, k), ActiveAt(s, k), HistoryAt(s, k), k.bundleId);
    RepointKeeps(PubsAt(s, k), ActiveAt(s, k), HistoryAt(s, k), p, HistoryAt(s', k), k.bundleId);
    DependenciesAt(s, k);
    StepKeeps(s, s', k);
  }

  lemma PointToKeeps(s: State, k: Key, p: Pub)
    requires Inv(s) && Copy(PubsAt(s, k), p) && DependenciesMet(s, k.tenant, p.bundle)
    ensures Keeps(s, PointTo(s, k, p), k)
  {
    PointToShape(s, k, p);
    MoveKeeps(s, PointTo(s, k, p), k, p);
  }

  lemma ActivateKeeps(s: State, k: Key, i: nat, gate: Gate, q: Request)
    requires Inv(s) && i < |PubsAt(s, k)|
    ensures Keeps(s, ActivateRecord(s, k, PubsAt(s, k)[i], gate, q).state, k)
  {
    var p := PubsAt(s, k)[i];
    AuditOnlyKeeps(s, s.audit, k);
    ActivateShape(s, k, p, gate, q);
    if ActivationPermitted(s, k, p, gate, q) {
      LiveIsCopy(s, k, i);
      PointToKeeps(s, k, p);
      PointToShape(s, k, p);
      ThenRecord(s, PointTo(s, k, p), k, PointerEntry(s, k, p, PriorOf(s, k), q), Activated(p.bundle));
    }
  }

  lemma PopToShape(s: State, k: Key)
    requires k in s.active && HistoryAt(s, k) != []
    ensures var s' := PopTo(s, k); var h := HistoryAt(s, k);
      && PubsAt(s', k) == Repointed(PubsAt(s, k), ActiveAt(s, k), h[0])
      && ActiveAt(s', k) == Some(h[0].(state := Active))
      && HistoryAt(s', k) == h[1..]
      && OnlyAt(s, s', k) && s'.audit == s.audit
  {
    var h := HistoryAt(s, k);
    MoveShape(s, k, Repointed(PubsAt(s, k), ActiveAt(s, k), h[0]), h[0].(state := Active), h[1..]);
  }

  lemma HistoryTop(s: State, k: Key)
    requires Inv(s) && HistoryAt(s, k) != []
    ensures Copy(PubsAt(s, k), HistoryAt(s, k)[0]) && DependenciesMet(s, k.tenant, HistoryAt(s, k)[0].bundle)
  {
    assert KeyInv(PubsAt(s, k), ActiveAt(s, k), HistoryAt(s, k), k.bundleId);
    assert Remembered(PubsAt(s, k), HistoryAt(s, k)[0]);
    DependenciesAt(s, k);
  }

  lemma PopToKeeps(s: State, k: Key)
    requires Inv(s) && k in s.active && HistoryAt(s, k) != []
    ensures Keeps(s, PopTo(s, k), k)
  {
    HistoryTop(s, k);
    PopToShape(s, k);
    PopMoves(s, PopTo(s, k), k);
  }

  lemma PopMoves(s: State, s': State, k: Key)
    requires Inv(s) && HistoryAt(s, k) != [] && OnlyAt(s, s', k) && s'.audit == s.audit
    requires Copy(PubsAt(s, k), HistoryAt(s, k)[0]) && DependenciesMet(s, k.tenant, HistoryAt(s, k)[0].bundle)
    requires PubsAt(s', k) == Repointed(PubsAt(s, k), ActiveAt(s, k), HistoryAt(s, k)[0])
    requires ActiveAt(s', k) == Some(HistoryAt(s, k)[0].(state := Active)) && HistoryAt(s', k) == HistoryAt(s, k)[1..]
    ensures Keeps(s, s', k)
  {
    var h := HistoryAt(s, k);
    forall j | 0 <= j < |h[1..]| ensures h[1..][j] in h { assert h[1..][j] == h[j + 1]; }
    MoveKeeps(s, s', k, h[0]);
  }

  /** Rollback rechecks no dependency: the history remembers only bundles whose
      dependencies were met, and they stay met. */
  lemma RollbackKeeps(s: State, k: Key, gate: Gate, q: Request, s': State)
    requires Inv(s) && s' == CatalogModel.Rollback(s, k, gate, q).state
    ensures Keeps(s, s', k)
  {
    RollbackShape(s, k, gate, q);
    if RollbackPermitted(s, k, gate, q) {
      var h := HistoryAt(s, k);
      PopToKeeps(s, k);
      PopToShape(s, k);
      ThenRecord(s, PopTo(s, k), k, RollbackEntry(s, k, h[0], q), RolledBack(h[0].bundle));
    } else {
      AuditOnlyKeeps(s, s.audit, k);
    }
  }

  lemma RelabelOpKeeps(s: State, k: Key, fp: string, state: VersionState)
    requires Inv(s) && !state.Active?
    ensures Keeps(s, Relabel(s, k, fp, state).state, k)
  {
    var ps := PubsAt(s, k);
    var i := FindFingerprint(ps, fp);
    if i < |ps| && !(state.Retired? && k in s.active && s.active[k].bundle.fingerprint == fp) {
      RelabelAt(s, k, i, state);
    } else {
      AuditOnlyKeeps(s, s.audit, k);
    }
  }

  lemma RelabelAt(s: State, k: Key, i: nat, state: VersionState)
    requires Inv(s) && !state.Active? && i < |PubsAt(s, k)|
    requires state.Retired? ==> k !in s.active || Fp(s.active[k]) != Fp(PubsAt(s, k)[i])
    ensures Keeps(s, WithPubs(s, k, Replace(PubsAt(s, k), PubsAt(s, k)[i].(state := state))), k)
  {
    var ps := PubsAt(s, k);
    assert KeyInv(ps, ActiveAt(s, k), HistoryAt(s, k), k.bundleId);
    RelabelKeeps(ps, ActiveAt(s, k), HistoryAt(s, k), i, state, k.bundleId);
    PubsKeeps(s, k, Replace(ps, ps[i].(state := state)));
  }

  /** The key an operation works on; recording entries works on none. */
  function KeyOf(op: Op): Key {
    match op
    case PublishOp(tenant, b, _, _, _) => Key(tenant, b.id)
    case ActivateOp(k, _, _, _) => k
    case ActivateFingerprintOp(k, _, _, _) => k
    case RollbackOp(k, _, _) => k
    case RollbackToOp(k, _, _, _) => k
    case DeprecateOp(k, _) => k
    case RetireOp(k, _) => k
    case RecordOp(_, _) => Key(None, "")
  }

  /** What an operation with a lookup comes down to. */
  lemma ApplyShape(s: State, op: Op)
    requires !op.PublishOp? && !op.RollbackOp?
    ensures var s', k := Apply(s, op).state, KeyOf(op); var ps := PubsAt(s, k);
      || s' == s
      || (op.RecordOp? && s' == s.(audit := AppendAll(s.audit, LiveFingerprints(s.pubs), Entries(op.offers)).0))
      || (op.DeprecateOp? && s' == Relabel(s, k, op.fp, Deprecated).state)
      || (op.RetireOp? && s' == Relabel(s, k, op.fp, Retired).state)
      || (exists i: nat, gate, q :: i < |ps| && s' == ActivateRecord(s, k, ps[i], gate, q).state)
  {
    var s', k := Apply(s, op).state, KeyOf(op);
    var ps := PubsAt(s, k);
    match op
    case ActivateOp(_, version, gate, q) =>
      var i := FindVersion(ps, version);
      if i < |ps| { assert s' == ActivateRecord(s, k, ps[i], gate, q.(kind := Activation)).state; }
    case ActivateFingerprintOp(_, fp, gate, q) =>
      var i := FindFingerprint(ps, fp);
      if i < |ps| { assert s' == ActivateRecord(s, k, ps[i], gate, q.(kind := Activation)).state; }
    case RollbackToOp(_, fp, gate, q) =>
      var i := FindFingerprint(ps, fp);
      if i < |ps| && s' != s { assert s' == ActivateRecord(s, k, ps[i], gate, q.(kind := EventKind.Rollback)).state; }
    case DeprecateOp(_, _) =>
    case RetireOp(_, _) =>
    case RecordOp(_, _) =>
  }

  lemma LookupKeeps(s: State, op: Op, s': State, k: Key)
    requires Inv(s) && !op.PublishOp? && !op.RollbackOp? && s' == Apply(s, op).state && k == KeyOf(op)
    ensures Keeps(s, s', k)
  {
    ApplyShape(s, op);
    var ps := PubsAt(s, k);
    if s' == s {
      AuditOnlyKeeps(s, s.audit, k);
    } else if op.RecordOp? && s' == s.(audit := AppendAll(s.audit, LiveFingerprints(s.pubs), Entries(op.offers)).0) {
      AppendAllUnique(s.audit, LiveFingerprints(s.pubs), Entries(op.offers));
      AuditOnlyKeeps(s, AppendAll(s.audit, LiveFingerprints(s.pubs), Entries(op.offers)).0, k);
    } else if op.DeprecateOp? && s' == Relabel(s, k, op.fp, Deprecated).state {
      RelabelOpKeeps(s, k, op.fp, Deprecated);
    } else if op.RetireOp? && s' == Relabel(s, k, op.fp, Retired).state {
      RelabelOpKeeps(s, k, op.fp, Retired);
    } else {
      var i: nat, gate, q :| i < |ps| && s' == ActivateRecord(s, k, ps[i], gate, q).state;
      ActivateKeeps(s, k, i, gate, q);
    }
  }

  /** Every operation, whatever its outcome, keeps the invariant, only appends to
      the publications, and leaves all other keys alone. */
  lemma ApplyKeeps(s: State, op: Op)
    requires Inv(s)
    ensures Keeps(s, Apply(s, op).state, KeyOf(op))
  {
    var s' := Apply(s, op).state;
    if op.PublishOp? {
      PublishKeeps(s, op.tenant, op.bundle, op.records, op.gate, op.now);
    } else if op.RollbackOp? {
      RollbackKeeps(s, op.key, op.gate, op.request, s');
    } else {
      LookupKeeps(s, op, s', KeyOf(op));
    }
  }

  // ---- runs ----

  /** What the operations of a run do not work on stays as it is. */
  ghost predicate Untouched(s: State, s': State, ops: seq<Op>) {
    forall k :: Idle(ops, k) ==> SameAt(s, s', k)
  }

  /** No operation of a run works on the key. */
  predicate Idle(ops: seq<Op>, k: Key) { forall i :: 0 <= i < |ops| ==> KeyOf(ops[i]) != k }

  predicate SameAt(s: State, s': State, k: Key) {
    PubsAt(s', k) == PubsAt(s, k) && ActiveAt(s', k) == ActiveAt(s, k) && HistoryAt(s', k) == HistoryAt(s, k)
  }

  lemma {:induction false} RunKeeps(s: State, ops: seq<Op>)
    requires Inv(s)
    ensures Inv(Run(s, ops)) && AppendOnly(s, Run(s, ops)) && Untouched(s, Run(s, ops), ops)
    decreases |ops|
  {
    if ops == [] {
      GrownReflexive(s);
    } else {
      var s1, s' := Apply(s, ops[0]).state, Run(s, ops);
      ApplyKeeps(s, ops[0]);
      RunKeeps(s1, ops[1..]);
      forall k ensures Grown(PubsAt(s, k), PubsAt(s', k)) {
        GrownTransitive(PubsAt(s, k), PubsAt(s1, k), PubsAt(s', k));
      }
      UntouchedStep(s, s1, s', ops);
    }
  }

  lemma UntouchedStep(s: State, s1: State, s': State, ops: seq<Op>)
    requires ops != [] && OnlyAt(s, s1, KeyOf(ops[0])) && Untouched(s1, s', ops[1..])
    ensures Untouched(s, s', ops)
  {
    forall k | Idle(ops, k) ensures SameAt(s, s', k) {
      assert KeyOf(ops[0]) != k;
      forall i | 0 <= i < |ops[1..]| ensures KeyOf(ops[1..][i]) != k { assert ops[1..][i] == ops[i + 1]; }
      assert Idle(ops[1..], k);
      assert SameAt(s1, s', k);
    }
  }

  lemma InitialInv()
    ensures Inv(INITIAL)
  {
  }

  /** Every reachable catalog state satisfies the invariant. */
  lemma ReachableInv(ops: seq<Op>)
    ensures Inv(Run(INITIAL, ops))
  {
    InitialInv();
    RunKeeps(INITIAL, ops);
  }

  /** In every reachable state the active bundle and every rollback target have all
      their dependencies published in the same scope with the declared fingerprint. */
  lemma ReachableDependencies(ops: seq<Op>, k: Key, b: Bundle, i: nat)
    requires var s := Run(INITIAL, ops);
      (k in s.active && b == s.active[k].bundle) || exists j :: 0 <= j < |HistoryAt(s, k)| && b == HistoryAt(s, k)[j].bundle
    requires i < |b.dependencies|
    ensures var s := Run(INITIAL, ops); var d := b.dependencies[i];
      exists p :: p in PubsAt(s, Key(k.tenant, d.bundleId)) && p.bundle.version == d.version && p.bundle.fingerprint == d.fingerprint
  {
    var s, d := Run(INITIAL, ops), b.dependencies[i];
    ReachableInv(ops);
    DependenciesAt(s, k);
    assert DependencyMet(s, k.tenant, d);
    var ps := PubsAt(s, Key(k.tenant, d.bundleId));
    assert ps[FindVersion(ps, d.version)] in ps;
  }

  /** In every reachable state the active publication is not retired,
      and no other record of the key is labelled ACTIVE. */
  lemma ReachablePointer(ops: seq<Op>, k: Key)
    ensures var s := Run(INITIAL, ops); var ps := PubsAt(s, k);
      && (forall i, j :: 0 <= i < j < |ps| ==> !(ps[i].state.Active? && ps[j].state.Active?))
      && (k in s.active ==> exists i :: 0 <= i < |ps| && ps[i].bundle == s.active[k].bundle && !ps[i].state.Retired?)
      && (forall i :: 0 <= i < |ps| && ps[i].state.Active? ==> k in s.active && ps[i].bundle == s.active[k].bundle)
  {
    var s := Run(INITIAL, ops);
    var ps := PubsAt(s, k);
    ReachableInv(ops);
    assert KeyInv(ps, ActiveAt(s, k), HistoryAt(s, k), k.bundleId);
    if k in s.active {
      var n: nat :| Twin(ps, n, s.active[k]);
      assert Label(ps[n], ActiveAt(s, k));
      forall i | 0 <= i < |ps| && ps[i].state.Active? ensures ps[i].bundle == s.active[k].bundle {
        assert Label(ps[i], ActiveAt(s, k));
        CopyAt(ps, k.bundleId, s.active[k], i);
      }
    }
    forall i, j | 0 <= i < j < |ps| ensures !(ps[i].state.Active? && ps[j].state.Active?) {
      assert Apart(ps[i], ps[j]) && Label(ps[i], ActiveAt(s, k)) && Label(ps[j], ActiveAt(s, k));
    }
  }

  /** In every reachable state fingerprints and versions are unique per key, the
      predecessor links are exactly the publication chain, and a forward link names
      the next publication if it is set. */
  lemma ReachableChain(ops: seq<Op>, k: Key, i: nat)
    requires i < |PubsAt(Run(INITIAL, ops), k)|
    ensures var ps := PubsAt(Run(INITIAL, ops), k);
      && ps[i].bundle.id == k.bundleId
      && (forall j :: 0 <= j < |ps| && j != i ==>
            ps[j].bundle.fingerprint != ps[i].bundle.fingerprint && ps[j].bundle.version != ps[i].bundle.version)
      && ps[i].predecessor == (if i == 0 then None else Some(ps[i - 1].bundle.fingerprint))
      && (ps[i].successor.Some? ==> i + 1 < |ps| && ps[i].successor.value == ps[i + 1].bundle.fingerprint)
  {
    var s := Run(INITIAL, ops);
    var ps := PubsAt(s, k);
    ReachableInv(ops);
    assert KeyInv(ps, ActiveAt(s, k), HistoryAt(s, k), k.bundleId);
    assert Backlink(ps, i) && SoundSuccessor(ps, i, ps[i]);
    forall j | 0 <= j < |ps| && j != i ensures Apart(ps[j], ps[i]) {
      assert j < i ==> Apart(ps[j], ps[i]);
      assert i < j ==> Apart(ps[i], ps[j]);
    }
  }

  lemma RunStep(s: State, ops: seq<Op>)
    requires ops != []
    ensures Run(s, ops) == Run(Apply(s, ops[0]).state, ops[1..])
    ensures |ops| == 1 ==> Run(s, ops) == Apply(s, ops[0]).state
  {
  }
}
