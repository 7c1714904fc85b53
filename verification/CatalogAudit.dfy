/** What the audit store keeps over catalog operations and runs, and when an operation
    raises. */
module CatalogAudit {
  import opened Options
  import opened AuditEvidence
  import opened CatalogModel
  import opened CatalogInvariant
  import opened CatalogRuns
  import opened CatalogMoves

  // ---- event-id conflicts ----

  /** Another entry is stored under the id of this one. */
  ghost predicate Clashes(audit: seq<Entry>, e: Entry) {
    exists f :: f in audit && f.eventId == e.eventId && !SameFacts(f, e)
  }

  lemma ClashIsConflict(audit: seq<Entry>, live: set<string>, e: Entry)
    requires UniqueIds(audit)
    ensures AppendEntry(audit, live, e).Conflict? <==> Clashes(audit, e)
  {
    var i := FindEvent(audit, e.eventId);
    if i < |audit| {
      assert audit[i] in audit;
      forall f | f in audit && f.eventId == e.eventId ensures f == audit[i] {
        var j :| 0 <= j < |audit| && audit[j] == f;
      }
    }
  }

  /** The facts of an entry are in the store. */
  ghost predicate OnRecord(audit: seq<Entry>, e: Entry) { exists f :: f in audit && SameFacts(f, e) }

  lemma AppendedIsThere(audit: seq<Entry>, live: set<string>, e: Entry)
    requires AppendEntry(audit, live, e).Kept? && Filed(e, live)
    ensures OnRecord(AppendEntry(audit, live, e).audit, e)
  {
    var i := FindEvent(audit, e.eventId);
    if i < |audit| {
      assert audit[i] in audit;
    } else {
      assert e in audit + [e];
      TrimProtects(audit + [e], live, AUDIT_STORE_LIMIT, e);
    }
  }

  lemma ClashExcludes(audit: seq<Entry>, e: Entry)
    requires UniqueIds(audit) && Clashes(audit, e)
    ensures !OnRecord(audit, e)
  {
    var f :| f in audit && f.eventId == e.eventId && !SameFacts(f, e);
    var i :| 0 <= i < |audit| && audit[i] == f;
    forall g | g in audit ensures !SameFacts(g, e) {
      var j :| 0 <= j < |audit| && audit[j] == g;
    }
  }

  /** Recording the entry of a live publication fails exactly on a clash; otherwise its
      facts are in the store afterwards. */
  lemma RecordedIff(s: State, e: Entry, done: Outcome)
    requires UniqueIds(s.audit) && Filed(e, LiveFingerprints(s.pubs)) && !done.Raised?
    ensures var r := Record(s, Some(e), done);
      && (r.outcome.Raised? <==> Clashes(s.audit, e))
      && (OnRecord(r.state.audit, e) <==> !Clashes(s.audit, e))
      && (r.outcome.Raised? ==> r.state == s)
  {
    var live := LiveFingerprints(s.pubs);
    ClashIsConflict(s.audit, live, e);
    if Clashes(s.audit, e) { ClashExcludes(s.audit, e); } else { AppendedIsThere(s.audit, live, e); }
  }

  // ---- pointer moves ----

  lemma PointerIsLive(s: State, k: Key, p: Pub)
    requires Inv(s) && ActiveAt(s, k) == Some(p)
    ensures Fp(p) in LiveFingerprints(s.pubs)
  {
    var ps := PubsAt(s, k);
    assert KeyInv(ps, ActiveAt(s, k), HistoryAt(s, k), k.bundleId);
    var i: nat :| Twin(ps, i, p);
    assert Label(ps[i], ActiveAt(s, k));
    assert k in s.pubs && Fp(s.pubs[k][i]) == Fp(p);
  }

  /** A scoped pointer change always moves the pointer.  It raises exactly when another
      entry is stored under its event id; then the store is as it was, and exactly then
      the move is not recorded. */
  lemma PointerMoveRecordedIff(s: State, op: Op)
    requires Inv(s) && KeyOf(op).tenant.Some? && Target(s, op).Some?
    ensures MoveEntry(s, op).Some?
    ensures var r, p, e := Apply(s, op), Target(s, op).value, MoveEntry(s, op).value;
      && ActiveAt(r.state, KeyOf(op)) == Some(p.(state := Active))
      && (r.outcome.Raised? <==> Clashes(s.audit, e))
      && (OnRecord(r.state.audit, e) <==> !Clashes(s.audit, e))
      && (r.outcome.Raised? ==> r.state.audit == s.audit)
      && (!r.outcome.Raised? ==> r.outcome == if KindOf(op).Activation? then Activated(p.bundle) else RolledBack(p.bundle))
  {
    var s1, p := Moved(s, op), Target(s, op).value;
    TargetPerforms(s, op);
    MoveResult(s, op);
    MovedKeeps(s, op);
    MovedShape(s, op);
    PointerIsLive(s1, KeyOf(op), p.(state := Active));
    RecordedIff(s1, MoveEntry(s, op).value, Activated(p.bundle));
  }

  /** An entry that records a pointer move with its exact ends. */
  predicate RecordsMove(e: Entry, k: Key, kind: EventKind, prior: Option<string>, resulting: string) {
    && Some(e.tenant) == k.tenant && e.kind == kind
    && e.prior == prior && e.resulting == Some(resulting) && e.bundle == Some(resulting)
  }

  ghost predicate MoveRecorded(s: State, s': State, k: Key, kind: EventKind) {
    k in s'.active && exists e :: e in s'.audit && RecordsMove(e, k, kind, PriorOf(s, k), Fp(s'.active[k]))
  }

  /** Every scoped pointer operation that returns normally leaves an entry with the
      fingerprints before and after it; rolling back to the active fingerprint is
      no move. */
  lemma PointerMoveIsRecorded(s: State, op: Op)
    requires Inv(s) && KeyOf(op).tenant.Some? && PointerOp(op) && !ToItself(s, op)
    requires Apply(s, op).outcome.Activated? || Apply(s, op).outcome.RolledBack?
    ensures MoveRecorded(s, Apply(s, op).state, KeyOf(op), KindOf(op))
  {
    var s', k := Apply(s, op).state, KeyOf(op);
    if Target(s, op).None? {
      NoTargetNoChange(s, op);
    } else {
      PointerMoveRecordedIff(s, op);
      var f :| f in s'.audit && SameFacts(f, MoveEntry(s, op).value);
      assert RecordsMove(f, k, KindOf(op), PriorOf(s, k), Fp(Target(s, op).value));
      assert k in s'.active && Fp(s'.active[k]) == Fp(Target(s, op).value);
    }
  }

  // ---- publications ----

  /** A publication entry that links the recorded entry of the version before. */
  ghost predicate RecordsPublication(s: State, k: Key, e: Entry, b: Bundle, f: PublicationFacts) {
    && e.kind.Publication? && e.eventId == f.eventId && e.tenant == f.tenant && e.bundle == Some(b.fingerprint)
    && forall id :: id in e.predecessors ==> exists p :: p in s.audit && p.eventId == id && RecordOfNewest(s, k, p)
  }

  /** The publication entry of what is the newest version before the operation. */
  predicate RecordOfNewest(s: State, k: Key, p: Entry) {
    var ps := PubsAt(s, k);
    ps != [] && p.kind.Publication? && Some(p.tenant) == k.tenant && p.bundle == Some(Fp(ps[|ps| - 1]))
  }

  lemma {:induction false} FoundPublication(store: seq<Entry>, tenant: string, fp: string)
    ensures var r := FindPublication(store, tenant, fp);
      r.Some? ==> r.value in store && r.value.kind.Publication? && r.value.tenant == tenant && r.value.bundle == Some(fp)
  {
    if store != [] { FoundPublication(store[1..], tenant, fp); }
  }

  lemma NewestIsLive(s: State, k: Key, b: Bundle, r: Records)
    ensures b.fingerprint in LiveFingerprints(WithPubs(s, k, Extend(PubsAt(s, k), b, r)).pubs)
  {
    var s1, n := WithPubs(s, k, Extend(PubsAt(s, k), b, r)), |PubsAt(s, k)|;
    ExtendShape(PubsAt(s, k), b, r);
    assert s1.pubs[k][n].bundle == b && !s1.pubs[k][n].state.Retired?;
  }

  lemma EntryLinksNewest(s: State, tenant: Option<string>, b: Bundle, f: PublicationFacts, now: int)
    ensures var k := Key(tenant, b.id); var ps := PubsAt(s, k);
      var e := PublicationEntry(s, tenant, b, f, if ps == [] then None else Some(Fp(ps[|ps| - 1])), now);
      RecordsPublication(s, k, e, b, f)
  {
    var ps := PubsAt(s, Key(tenant, b.id));
    if tenant.Some? && ps != [] { FoundPublication(s.audit, tenant.value, Fp(ps[|ps| - 1])); }
  }

  /** A publication that passes its checks is always appended.  It raises exactly when
      another entry is stored under its event id; then the store is as it was, and
      exactly then the publication is not recorded. */
  lemma PublishRecordedIff(s: State, op: Op)
    requires UniqueIds(s.audit) && PublishPermitted(s, op) && op.records.facts.Some?
    ensures var r, k, e := Apply(s, op), KeyOf(op), PublishedEntry(s, op).value;
      && PubsAt(r.state, k) == Extend(PubsAt(s, k), op.bundle, op.records)
      && (r.outcome.Raised? <==> Clashes(s.audit, e))
      && (OnRecord(r.state.audit, e) <==> !Clashes(s.audit, e))
      && (r.outcome.Raised? ==> r.state.audit == s.audit)
      && (!r.outcome.Raised? ==> r.outcome == Published(op.bundle))
  {
    var k := KeyOf(op);
    PublishShape(s, op);
    PublishedPubs(s, op);
    NewestIsLive(s, k, op.bundle, op.records);
    RecordedIff(WithPubs(s, k, Extend(PubsAt(s, k), op.bundle, op.records)), PublishedEntry(s, op).value, Published(op.bundle));
  }

  /** An accepted publication with audit facts leaves its entry in the store. */
  lemma PublicationIsRecorded(s: State, op: Op)
    requires UniqueIds(s.audit) && op.PublishOp? && Apply(s, op).outcome.Published? && op.records.facts.Some?
    ensures exists e :: e in Apply(s, op).state.audit && RecordsPublication(s, KeyOf(op), e, op.bundle, op.records.facts.value)
  {
    var f := PublishedEntry(s, op).value;
    PublishShape(s, op);
    PublishRecordedIff(s, op);
    EntryLinksNewest(s, op.tenant, op.bundle, op.records.facts.value, op.now);
    RecordCarries(s, KeyOf(op), Apply(s, op).state.audit, f, op.bundle, op.records.facts.value);
  }

  lemma RecordCarries(s: State, k: Key, audit: seq<Entry>, f: Entry, b: Bundle, facts: PublicationFacts)
    requires OnRecord(audit, f) && RecordsPublication(s, k, f, b, facts)
    ensures exists e :: e in audit && RecordsPublication(s, k, e, b, facts)
  {
    var e :| e in audit && SameFacts(e, f);
    assert RecordsPublication(s, k, e, b, facts);
  }

  // ---- refusing and raising ----

  /** A refused or repeated operation changes nothing at all. */
  lemma RefusalChangesNothing(s: State, op: Op)
    requires Apply(s, op).outcome.Failed? || Apply(s, op).outcome.Reused?
    ensures Apply(s, op).state == s
  {
    if Target(s, op).Some? {
      TargetPerforms(s, op);
    } else if PointerOp(op) {
      NoTargetNoChange(s, op);
    } else if op.PublishOp? {
      PublishShape(s, op);
    }
  }

  /** The entry that an operation comes to record, told from the state before it. */
  function EntryOf(s: State, op: Op): Option<Entry> {
    if Target(s, op).Some? then MoveEntry(s, op)
    else if PublishPermitted(s, op) then PublishedEntry(s, op)
    else None
  }

  /** A publication or pointer operation raises exactly when its gate is reached and
      raises, or when the entry it comes to record clashes with a stored one. */
  lemma RaisesIff(s: State, op: Op)
    requires UniqueIds(s.audit) && (op.PublishOp? || PointerOp(op))
    ensures Apply(s, op).outcome.Raised? <==>
      || (GateReached(s, op) && op.gate.Raise?)
      || (EntryOf(s, op).Some? && Clashes(s.audit, EntryOf(s, op).value))
  {
    if op.PublishOp? {
      PublishShape(s, op);
      var s1 := WithPubs(s, KeyOf(op), Extend(PubsAt(s, KeyOf(op)), op.bundle, op.records));
      if PublishedEntry(s, op).Some? { ClashIsConflict(s1.audit, LiveFingerprints(s1.pubs), PublishedEntry(s, op).value); }
    } else if Target(s, op).None? {
      NoTargetNoChange(s, op);
      ToItselfReachesNoGate(s, op);
    } else {
      TargetPassesGate(s, op);
      MoveRaisesIff(s, op);
    }
  }

  lemma TargetPassesGate(s: State, op: Op)
    requires Target(s, op).Some?
    ensures op.gate.Pass?
  {
  }

  lemma ToItselfReachesNoGate(s: State, op: Op)
    ensures ToItself(s, op) ==> !GateReached(s, op)
  {
  }

  lemma MoveRaisesIff(s: State, op: Op)
    requires UniqueIds(s.audit) && Target(s, op).Some?
    ensures Apply(s, op).outcome.Raised? <==> MoveEntry(s, op).Some? && Clashes(s.audit, MoveEntry(s, op).value)
  {
    TargetPerforms(s, op);
    MovedShape(s, op);
    var s1 := Moved(s, op);
    if MoveEntry(s, op).Some? { ClashIsConflict(s1.audit, LiveFingerprints(s1.pubs), MoveEntry(s, op).value); }
  }

  /** The store once the first `i` entries have been appended. */
  function StoreBefore(audit: seq<Entry>, live: set<string>, es: seq<Entry>, i: nat): seq<Entry>
    requires i <= |es|
  {
    AppendAll(audit, live, es[..i]).0
  }

  lemma {:induction false} AppendAllConflicts(audit: seq<Entry>, live: set<string>, es: seq<Entry>)
    requires UniqueIds(audit)
    ensures AppendAll(audit, live, es).1 <==> exists i: nat :: i < |es| && Clashes(StoreBefore(audit, live, es, i), es[i])
    decreases |es|
  {
    if es != [] {
      ClashIsConflict(audit, live, es[0]);
      assert StoreBefore(audit, live, es, 0) == audit;
      match AppendEntry(audit, live, es[0])
      case Conflict =>
      case Kept(more) =>
        AppendUnique(audit, live, es[0]);
        AppendAllConflicts(more, live, es[1..]);
        forall i: nat | i < |es| - 1 ensures StoreBefore(audit, live, es, i + 1) == StoreBefore(more, live, es[1..], i) {
          assert es[..i + 1][0] == es[0] && es[..i + 1][1..] == es[1..][..i];
        }
        LaterClash(audit, more, live, es);
    }
  }

  lemma LaterClash(audit: seq<Entry>, more: seq<Entry>, live: set<string>, es: seq<Entry>)
    requires es != [] && !Clashes(StoreBefore(audit, live, es, 0), es[0])
    requires forall i: nat :: i < |es| - 1 ==> StoreBefore(audit, live, es, i + 1) == StoreBefore(more, live, es[1..], i)
    ensures (exists i: nat :: i < |es| && Clashes(StoreBefore(audit, live, es, i), es[i]))
       <==> (exists i: nat :: i < |es[1..]| && Clashes(StoreBefore(more, live, es[1..], i), es[1..][i]))
  {
    if i: nat :| i < |es| && Clashes(StoreBefore(audit, live, es, i), es[i]) {
      assert es[1..][i - 1] == es[i] && StoreBefore(audit, live, es, (i - 1) + 1) == StoreBefore(more, live, es[1..], i - 1);
    }
    if i: nat :| i < |es[1..]| && Clashes(StoreBefore(more, live, es[1..], i), es[1..][i]) {
      assert es[1..][i] == es[i + 1];
    }
  }

  /** Recording offered entries raises exactly when one is foreign or tampered, and then
      nothing is stored, or when one clashes with the store that it meets. */
  lemma RecordingRaisesIff(s: State, op: Op)
    requires UniqueIds(s.audit) && op.RecordOp?
    ensures var r, es, live := Apply(s, op), Entries(op.offers), LiveFingerprints(s.pubs);
      var refused := exists i :: 0 <= i < |op.offers| && (op.offers[i].entry.tenant != op.scope || !op.offers[i].intact);
      && (refused ==> r == Step(s, Raised))
      && (!refused ==>
            (r.outcome.Raised? <==> exists i: nat :: i < |es| && Clashes(StoreBefore(s.audit, live, es, i), es[i])))
  {
    AppendAllConflicts(s.audit, LiveFingerprints(s.pubs), Entries(op.offers));
  }

  // ---- which moves clash ----

  /** An entry as pointer changes of a bundle record it. */
  predicate IsMove(e: Entry, bundleId: string) {
    && (e.kind.Activation? || e.kind.Rollback?) && e.resulting.Some? && e.bundle == e.resulting && e.details == ""
    && e.eventId == PointerEventId(e.kind, bundleId, e.prior, e.resulting.value)
  }

  lemma MoveEntryIsMove(s: State, op: Op)
    requires Target(s, op).Some? && MoveEntry(s, op).Some?
    ensures IsMove(MoveEntry(s, op).value, Target(s, op).value.bundle.id)
  {
  }

  /** Two moves clash exactly when they go the same way between the same versions of
      the same bundle and differ in tenant, source scope, publication reference,
      operator or linked publication entry. */
  lemma MovesClashIff(e: Entry, f: Entry, bundle: string, bundle': string)
    requires IsMove(e, bundle) && IsMove(f, bundle')
    ensures f.eventId == e.eventId && !SameFacts(f, e) <==>
      && f.kind == e.kind && bundle == bundle' && f.prior == e.prior && f.resulting == e.resulting
      && (f.tenant != e.tenant || f.sourceScope != e.sourceScope || f.reference != e.reference
          || f.operator != e.operator || f.predecessors != e.predecessors)
  {
    PointerEventIdInjective(e.kind, bundle, e.prior, e.resulting.value, f.kind, bundle', f.prior, f.resulting.value);
  }

  /** Once a move is recorded, the same move by another tenant or another operator
      raises, with the pointer moved and unrecorded. */
  lemma RepeatedMoveRaises(s: State, op: Op, f: Entry)
    requires Inv(s) && KeyOf(op).tenant.Some? && Target(s, op).Some? && MoveEntry(s, op).Some?
    requires f in s.audit && IsMove(f, Target(s, op).value.bundle.id)
    requires f.kind == KindOf(op) && f.prior == PriorOf(s, KeyOf(op)) && f.resulting == Some(Fp(Target(s, op).value))
    requires Some(f.tenant) != KeyOf(op).tenant || f.operator != op.request.operator
    ensures var r := Apply(s, op);
      && r.outcome.Raised? && PriorOf(r.state, KeyOf(op)) == Some(Fp(Target(s, op).value)) && r.state.audit == s.audit
      && !OnRecord(r.state.audit, MoveEntry(s, op).value)
  {
    var e := MoveEntry(s, op).value;
    MoveEntryIsMove(s, op);
    MovesClashIff(e, f, Target(s, op).value.bundle.id, Target(s, op).value.bundle.id);
    assert Clashes(s.audit, e);
    PointerMoveRecordedIff(s, op);
  }

  /** Two tenants publish and activate the same bundle: the second activation raises
      with the pointer moved and unrecorded. */
  lemma PointerCanMoveUnrecorded(b: Bundle, q: Request)
    requires b.dependencies == [] && q.wellFormed && q.kind == Activation
    ensures
      var r := Records(false, None, None, "source");
      var s := Run(INITIAL, [
        PublishOp(Some("a"), b, r, Pass, 0), ActivateOp(Key(Some("a"), b.id), b.version, Pass, q),
        PublishOp(Some("b"), b, r, Pass, 0)]);
      var last := Apply(s, ActivateOp(Key(Some("b"), b.id), b.version, Pass, q));
      && last.outcome == Raised && PriorOf(last.state, Key(Some("b"), b.id)) == Some(b.fingerprint)
      && forall e :: e in last.state.audit ==> e.tenant == "a"
  {
    var r := Records(false, None, None, "source");
    var ka, kb := Key(Some("a"), b.id), Key(Some("b"), b.id);
    var p := Pub(b, r, Available, None, None);
    var ops := [PublishOp(Some("a"), b, r, Pass, 0), ActivateOp(ka, b.version, Pass, q), PublishOp(Some("b"), b, r, Pass, 0)];
    RunThree(INITIAL, ops);
    var s1 := Apply(INITIAL, ops[0]).state;
    assert PubsAt(INITIAL, ka) == [];
    assert Extend([], b, r) == [p];
    assert s1 == State(map[ka := [p]], map[], map[], []);
    var s2 := Apply(s1, ops[1]).state;
    FirstActivation(s1, ka, p, q);
    var e := PointerEntry(s1, ka, p, None, q).value;
    var s3 := Apply(s2, ops[2]).state;
    assert PubsAt(s2, kb) == [];
    assert s3 == s2.(pubs := s2.pubs[kb := [p]]);
    ReachableInv(ops);
    SecondActivation(s3, kb, p, q, e);
  }

  lemma {:induction false} NoPublication(store: seq<Entry>, tenant: string, fp: string)
    requires forall e :: e in store ==> !e.kind.Publication?
    ensures FindPublication(store, tenant, fp).None?
  {
    if store != [] {
      assert store[0] in store;
      NoPublication(store[1..], tenant, fp);
    }
  }

  lemma SecondActivation(s: State, k: Key, p: Pub, q: Request, e: Entry)
    requires Inv(s) && s.audit == [e] && PubsAt(s, k) == [p] && k !in s.active
    requires p.bundle.dependencies == [] && p.state.Available? && q.wellFormed && q.kind == Activation
    requires k == Key(Some("b"), p.bundle.id) && e.tenant == "a" && e.kind.Activation? && e.prior == None
    requires IsMove(e, p.bundle.id) && e.resulting == Some(Fp(p))
    ensures var r := Activate(s, k, p.bundle.version, Pass, q);
      r.outcome == Raised && PriorOf(r.state, k) == Some(Fp(p)) && r.state.audit == s.audit
  {
    var op := ActivateOp(k, p.bundle.version, Pass, q);
    NoPublication(s.audit, "b", Fp(p));
    assert FindVersion([p], p.bundle.version) == 0 && q.(kind := Activation) == q;
    assert Target(s, op) == Some(p) && MoveEntry(s, op).Some?;
    RepeatedMoveRaises(s, op, e);
  }

  lemma FirstActivation(s: State, k: Key, p: Pub, q: Request)
    requires s == State(map[k := [p]], map[], map[], []) && p.bundle.dependencies == [] && p.state.Available?
    requires q.wellFormed && q.kind == Activation && k == Key(Some("a"), p.bundle.id)
    ensures var s', e := Activate(s, k, p.bundle.version, Pass, q).state, PointerEntry(s, k, p, None, q);
      && e.Some? && s'.audit == [e.value] && k in s'.pubs && s'.pubs.Keys == {k} && s'.active.Keys == {k}
  {
    assert PubsAt(s, k) == [p] && FindVersion([p], p.bundle.version) == 0;
    PointToShape(s, k, p);
  }

  lemma RunThree(s: State, ops: seq<Op>)
    requires |ops| == 3
    ensures Run(s, ops) == Apply(Apply(Apply(s, ops[0]).state, ops[1]).state, ops[2]).state
  {
    var s1 := Apply(s, ops[0]).state;
    RunStep(s, ops);
    var s2 := Apply(s1, ops[1]).state;
    RunStep(s1, ops[1..]);
    RunStep(s2, ops[1..][1..]);
  }

  // ---- entries of live publications survive ----

  /** The entries filed under live fingerprints, and their predecessors, are still
      there. */
  ghost predicate Survive(audit: seq<Entry>, audit': seq<Entry>, live: set<string>) {
    forall e :: e in audit && Filed(e, live) ==> SurvivesWithLinks(audit, audit', e)
  }

  ghost predicate SurvivesWithLinks(audit: seq<Entry>, audit': seq<Entry>, e: Entry) {
    e in audit' && forall p :: p in audit && p.eventId in e.predecessors ==> p in audit'
  }

  lemma AppendSurvive(audit: seq<Entry>, live: set<string>, e: Entry)
    requires AppendEntry(audit, live, e).Kept?
    ensures Survive(audit, AppendEntry(audit, live, e).audit, live)
  {
    var audit' := AppendEntry(audit, live, e).audit;
    if FindEvent(audit, e.eventId) == |audit| {
      var grown := audit + [e];
      forall f | f in audit && Filed(f, live) ensures SurvivesWithLinks(audit, audit', f) {
        assert f in grown;
        TrimProtects(grown, live, AUDIT_STORE_LIMIT, f);
        forall p | p in audit && p.eventId in f.predecessors ensures p in audit' {
          assert p in grown;
        }
      }
    }
  }

  lemma {:induction false} AppendAllSurvive(audit: seq<Entry>, live: set<string>, es: seq<Entry>)
    ensures Survive(audit, AppendAll(audit, live, es).0, live)
    decreases |es|
  {
    if es != [] && AppendEntry(audit, live, es[0]).Kept? {
      var more := AppendEntry(audit, live, es[0]).audit;
      var last := AppendAll(more, live, es[1..]).0;
      AppendSurvive(audit, live, es[0]);
      AppendAllSurvive(more, live, es[1..]);
      forall e | e in audit && Filed(e, live) ensures SurvivesWithLinks(audit, last, e) {
        assert SurvivesWithLinks(audit, more, e) && SurvivesWithLinks(more, last, e);
      }
    }
  }

  lemma RecordSurvive(s: State, e: Option<Entry>, done: Outcome)
    ensures var s' := Record(s, e, done).state; s'.pubs == s.pubs && Survive(s.audit, s'.audit, LiveFingerprints(s'.pubs))
  {
    if e.Some? && AppendEntry(s.audit, LiveFingerprints(s.pubs), e.value).Kept? {
      AppendSurvive(s.audit, LiveFingerprints(s.pubs), e.value);
    }
  }

  lemma MoveSurvive(s: State, op: Op)
    requires Target(s, op).Some?
    ensures var s' := Apply(s, op).state; Survive(s.audit, s'.audit, LiveFingerprints(s'.pubs))
  {
    TargetPerforms(s, op);
    MovedShape(s, op);
    RecordSurvive(Moved(s, op), MoveEntry(s, op), Activated(Target(s, op).value.bundle));
  }

  lemma PublishSurvive(s: State, op: Op)
    requires op.PublishOp?
    ensures var s' := Apply(s, op).state; Survive(s.audit, s'.audit, LiveFingerprints(s'.pubs))
  {
    PublishShape(s, op);
    RecordSurvive(WithPubs(s, KeyOf(op), Extend(PubsAt(s, KeyOf(op)), op.bundle, op.records)), PublishedEntry(s, op), Published(op.bundle));
  }

  /** Whatever an operation drops from the store, it keeps every entry of a
      publication that is live after it, with its present predecessors. */
  lemma LiveEntriesSurvive(s: State, op: Op)
    ensures var s' := Apply(s, op).state; Survive(s.audit, s'.audit, LiveFingerprints(s'.pubs))
  {
    if Target(s, op).Some? {
      MoveSurvive(s, op);
    } else if PointerOp(op) {
      NoTargetNoChange(s, op);
    } else if op.PublishOp? {
      PublishSurvive(s, op);
    } else if op.RecordOp? {
      AppendAllSurvive(s.audit, LiveFingerprints(s.pubs), Entries(op.offers));
    }
  }

  /** Over a whole run, an entry whose publication stays live stays recorded, and so
      does every predecessor of it that was recorded at the start. */
  lemma {:induction false} RunKeepsLiveEntries(s: State, ops: seq<Op>, e: Entry)
    requires e in s.audit
    requires forall n :: 0 <= n <= |ops| ==> Filed(e, LiveFingerprints(Run(s, ops[..n]).pubs))
    ensures SurvivesWithLinks(s.audit, Run(s, ops).audit, e)
    decreases |ops|
  {
    if ops != [] {
      var s1, rest := Apply(s, ops[0]).state, ops[1..];
      LiveEntriesSurvive(s, ops[0]);
      forall n | 0 <= n <= |rest| ensures Filed(e, LiveFingerprints(Run(s1, rest[..n]).pubs)) {
        assert Filed(e, LiveFingerprints(Run(s, ops[..n + 1]).pubs));
        assert ops[..n + 1][0] == ops[0] && ops[..n + 1][1..] == rest[..n];
      }
      assert rest[..0] == [] && Run(s1, []) == s1;
      assert Filed(e, LiveFingerprints(s1.pubs));
      assert SurvivesWithLinks(s.audit, s1.audit, e);
      RunKeepsLiveEntries(s1, rest, e);
    }
  }

  // ---- retirement ----

  /** Retirement is not permanent: an operation takes the RETIRED label off a record
      exactly when it deprecates it, or when it is the newest version and a publication
      passes its checks. */
  lemma RetirementEndsIff(s: State, op: Op, k: Key, i: nat)
    requires Inv(s) && i < |PubsAt(s, k)| && PubsAt(s, k)[i].state.Retired?
    ensures var ps, ps' := PubsAt(s, k), PubsAt(Apply(s, op).state, k);
      && i < |ps'|
      && (!ps'[i].state.Retired? <==>
          KeyOf(op) == k && ((PublishPermitted(s, op) && i == |ps| - 1) || (op.DeprecateOp? && op.fp == Fp(ps[i]))))
  {
    RecordsStay(s, op, k);
    if KeyOf(op) == k {
      if Target(s, op).Some? {
        MoveKeepsRetired(s, op, i);
      } else if PointerOp(op) {
        NoTargetNoChange(s, op);
      } else if op.PublishOp? {
        PublishedPubs(s, op);
        ExtendShape(PubsAt(s, k), op.bundle, op.records);
      } else if op.DeprecateOp? {
        RelabelTarget(s, k, op.fp, i);
      } else {
        StaysRetired(s, op, i);
      }
    }
  }

  lemma StaysRetired(s: State, op: Op, i: nat)
    requires Inv(s) && (op.RetireOp? || op.RecordOp?) && i < |PubsAt(s, KeyOf(op))| && PubsAt(s, KeyOf(op))[i].state.Retired?
    ensures var ps' := PubsAt(Apply(s, op).state, KeyOf(op)); i < |ps'| && ps'[i].state.Retired?
  {
  }

  lemma RelabelTarget(s: State, k: Key, fp: string, i: nat)
    requires Inv(s) && i < |PubsAt(s, k)| && PubsAt(s, k)[i].state.Retired?
    ensures var ps' := PubsAt(Relabel(s, k, fp, Deprecated).state, k);
      i < |ps'| && (ps'[i].state.Retired? <==> fp != Fp(PubsAt(s, k)[i]))
  {
  }

  /** Moving the pointer to a copy of a record that is not retired. */
  lemma RepointKeepsRetired(s: State, k: Key, p: Pub, n: nat, i: nat)
    requires Inv(s) && i < |PubsAt(s, k)| && PubsAt(s, k)[i].state.Retired?
    requires n < |PubsAt(s, k)| && Fp(PubsAt(s, k)[n]) == Fp(p) && !PubsAt(s, k)[n].state.Retired?
    ensures Repointed(PubsAt(s, k), ActiveAt(s, k), p)[i].state.Retired?
  {
    var ps := PubsAt(s, k);
    assert KeyInv(ps, ActiveAt(s, k), HistoryAt(s, k), k.bundleId);
    assert Label(ps[i], ActiveAt(s, k));
    assert n < i ==> Apart(ps[n], ps[i]);
    assert i < n ==> Apart(ps[i], ps[n]);
    assert Unpointed(ps, ActiveAt(s, k))[i] == ps[i];
  }

  lemma MoveKeepsRetired(s: State, op: Op, i: nat)
    requires Inv(s) && Target(s, op).Some? && i < |PubsAt(s, KeyOf(op))| && PubsAt(s, KeyOf(op))[i].state.Retired?
    ensures var ps' := PubsAt(Apply(s, op).state, KeyOf(op)); i < |ps'| && ps'[i].state.Retired?
  {
    var k, p := KeyOf(op), Target(s, op).value;
    MoveResult(s, op);
    var n := TargetPosition(s, op);
    RepointKeepsRetired(s, k, p, n, i);
  }

  /** The target's record is not retired. */
  lemma TargetPosition(s: State, op: Op) returns (n: nat)
    requires Target(s, op).Some?
    ensures n < |PubsAt(s, KeyOf(op))| && Fp(PubsAt(s, KeyOf(op))[n]) == Fp(Target(s, op).value)
    ensures !PubsAt(s, KeyOf(op))[n].state.Retired?
  {
    var k := KeyOf(op);
    if op.RollbackOp? {
      n := FindFingerprint(PubsAt(s, k), Fp(HistoryAt(s, k)[0]));
    } else {
      TargetDependencies(s, op);
      n :| n < |PubsAt(s, k)| && PubsAt(s, k)[n] == Target(s, op).value;
    }
  }
}
