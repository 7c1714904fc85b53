/** The in-memory catalog: an object whose methods update four collections in place.
    Every method is proved to do what the state machine does. */
module Catalog {
  import opened Options
  import opened AuditEvidence
  import opened CatalogModel

  /** The record that a search by fingerprint returns. */
  function RecordWith(ps: seq<Pub>, fp: string): Option<Pub> {
    var i := FindFingerprint(ps, fp);
    if i < |ps| then Some(ps[i]) else None
  }

  function VersionWith(ps: seq<Pub>, version: string): Option<Pub> {
    var i := FindVersion(ps, version);
    if i < |ps| then Some(ps[i]) else None
  }

  lemma {:induction false} FindFingerprintFrom(ps: seq<Pub>, fp: string, i: nat)
    requires i <= |ps| && forall j :: 0 <= j < i ==> ps[j].bundle.fingerprint != fp
    ensures i == |ps| || ps[i].bundle.fingerprint == fp ==> FindFingerprint(ps, fp) == i
  {
  }

  lemma {:induction false} RetainFrom(store: seq<Entry>, live: set<string>, ids: set<string>, overflow: int)
    requires store != []
    ensures Retain(store, live, ids, overflow)
         == (if overflow > 0 && Droppable(store[0], live, ids) then [] else [store[0]])
            + Retain(store[1..], live, ids, if overflow > 0 && Droppable(store[0], live, ids) then overflow - 1 else overflow)
  {
  }

  class InMemoryCatalog {
    var pubs: map<Key, seq<Pub>>
    var active: map<Key, Pub>
    var history: map<Key, seq<Pub>>
    var audit: seq<Entry>

    ghost function Snapshot(): State
      reads this
    {
      State(pubs, active, history, audit)
    }

    constructor ()
      ensures Snapshot() == INITIAL
    {
      pubs, active, history, audit := map[], map[], map[], [];
    }

    /** The publications of a key, newest last. */
    function Publications(k: Key): (ps: seq<Pub>)
      reads this
      ensures ps == PubsAt(Snapshot(), k)
    {
      if k in pubs then pubs[k] else []
    }

    method PublicationByFingerprint(k: Key, fp: string) returns (found: Option<Pub>)
      ensures found == RecordWith(PubsAt(Snapshot(), k), fp)
    {
      var ps := Publications(k);
      for i := 0 to |ps|
        invariant forall j :: 0 <= j < i ==> ps[j].bundle.fingerprint != fp
      {
        if ps[i].bundle.fingerprint == fp {
          FindFingerprintFrom(ps, fp, i);
          return Some(ps[i]);
        }
      }
      FindFingerprintFrom(ps, fp, |ps|);
      return None;
    }

    method PublicationByVersion(k: Key, version: string) returns (found: Option<Pub>)
      ensures found == VersionWith(PubsAt(Snapshot(), k), version)
    {
      var ps := Publications(k);
      for i := 0 to |ps|
        invariant forall j :: 0 <= j < i ==> ps[j].bundle.version != version
      {
        if ps[i].bundle.version == version { return Some(ps[i]); }
      }
      return None;
    }

    method FindPublicationEntry(tenant: Option<string>, fp: string) returns (found: Option<Entry>)
      ensures found == if tenant.Some? then FindPublication(audit, tenant.value, fp) else None
    {
      if tenant.None? { return None; }
      for i := 0 to |audit|
        invariant FindPublication(audit, tenant.value, fp) == FindPublication(audit[i..], tenant.value, fp)
      {
        assert audit[i..][0] == audit[i] && audit[i..][1..] == audit[i + 1..];
        if audit[i].kind.Publication? && audit[i].tenant == tenant.value && audit[i].bundle == Some(fp) {
          return Some(audit[i]);
        }
      }
      return None;
    }

    method ReplacePublication(k: Key, p: Pub)
      modifies this`pubs
      ensures Snapshot() == WithPubs(old(Snapshot()), k, Replace(PubsAt(old(Snapshot()), k), p))
    {
      var ps, qs := Publications(k), [];
      for i := 0 to |ps|
        invariant |qs| == i
        invariant forall j :: 0 <= j < i ==>
          qs[j] == if ps[j].bundle.fingerprint == p.bundle.fingerprint then p else ps[j]
      {
        qs := qs + [if ps[i].bundle.fingerprint == p.bundle.fingerprint then p else ps[i]];
      }
      assert qs == Replace(ps, p);
      pubs := pubs[k := qs];
    }

    /** Drops the oldest droppable entries until the store fits its limit. */
    method TrimAuditEntries()
      modifies this`audit
      ensures audit == Trim(old(audit), LiveFingerprints(pubs), AUDIT_STORE_LIMIT)
    {
      var overflow: int := |audit| - AUDIT_STORE_LIMIT;
      if overflow <= 0 { return; }
      var live := LiveFingerprints(pubs);
      var ids := ProtectedIds(audit, live);
      var retained: seq<Entry> := [];
      for i := 0 to |audit|
        invariant audit == old(audit)
        invariant retained + Retain(audit[i..], live, ids, overflow)
               == Retain(old(audit), live, ids, |audit| - AUDIT_STORE_LIMIT)
      {
        RetainFrom(audit[i..], live, ids, overflow);
        assert audit[i..][1..] == audit[i + 1..];
        if overflow > 0 && !Filed(audit[i], live) && audit[i].eventId !in ids {
          overflow := overflow - 1;
        } else {
          retained := retained + [audit[i]];
        }
      }
      audit := retained;
    }

    method AppendAuditEntry(e: Entry) returns (raised: bool)
      modifies this`audit
      ensures raised == AppendEntry(old(audit), LiveFingerprints(pubs), e).Conflict?
      ensures audit == if raised then old(audit) else AppendEntry(old(audit), LiveFingerprints(pubs), e).audit
    {
      for i := 0 to |audit|
        invariant forall j :: 0 <= j < i ==> audit[j].eventId != e.eventId
      {
        if audit[i].eventId == e.eventId {
          assert FindEvent(audit, e.eventId) == i;
          return !SameFacts(audit[i], e);
        }
      }
      audit := audit + [e];
      TrimAuditEntries();
      return false;
    }

    /** Ends an operation with its audit entry. */
    method Finish(e: Option<Entry>, done: Outcome) returns (outcome: Outcome)
      modifies this`audit
      ensures Step(Snapshot(), outcome) == Record(old(Snapshot()), e, done)
    {
      if e.None? { return done; }
      var raised := AppendAuditEntry(e.value);
      return if raised then Raised else done;
    }

    method Publish(tenant: Option<string>, b: Bundle, r: Records, gate: Gate, now: int) returns (outcome: Outcome)
      modifies this`pubs, this`audit
      ensures Step(Snapshot(), outcome) == CatalogModel.Publish(old(Snapshot()), tenant, b, r, gate, now)
    {
      if gate.Refuse? { return Failed(gate.code); }
      if gate.Raise? { return Raised; }
      var k := Key(tenant, b.id);
      var existing := Publications(k);
      var same := PublicationByFingerprint(k, b.fingerprint);
      if same.Some? {
        if r.verified && !same.value.records.verified { return Failed("publication_state_conflict"); }
        return Reused(same.value.bundle);
      }
      var version := PublicationByVersion(k, b.version);
      if version.Some? { return Failed("version_exists"); }
      ghost var before := Snapshot();
      var predecessor: Option<string> := None;
      var record := Pub(b, r, Available, None, None);
      var chain := existing;
      if existing != [] {
        var last := existing[|existing| - 1];
        predecessor := Some(last.bundle.fingerprint);
        record := record.(predecessor := predecessor);
        chain := existing[..|existing| - 1]
                 + [last.(successor := Some(b.fingerprint), state := if last.state.Active? then Active else Superseded)];
      }
      var entry: Option<Entry> := None;
      if r.facts.Some? {
        var linked: Option<Entry> := None;
        if predecessor.Some? { linked := FindPublicationEntry(tenant, predecessor.value); }
        entry := Some(Entry(r.facts.value.eventId, Publication, r.facts.value.tenant, r.facts.value.sourceScope,
                            Some(b.fingerprint), Some(r.facts.value.reference), None, None, None,
                            if linked.Some? then [linked.value.eventId] else [], r.facts.value.details, now));
        assert entry.value == PublicationEntry(before, tenant, b, r.facts.value, predecessor, now);
      }
      assert chain + [record] == Extend(existing, b, r);
      pubs := pubs[k := chain + [record]];
      assert Snapshot() == WithPubs(before, k, Extend(existing, b, r));
      outcome := Finish(entry, Published(b));
    }

    /** Whether every dependency is published in the scope with its fingerprint. */
    method CheckDependencies(tenant: Option<string>, b: Bundle) returns (met: bool)
      ensures met == DependenciesMet(Snapshot(), tenant, b)
    {
      for i := 0 to |b.dependencies|
        invariant forall j :: 0 <= j < i ==> DependencyMet(Snapshot(), tenant, b.dependencies[j])
      {
        var d := b.dependencies[i];
        var found := PublicationByVersion(Key(tenant, d.bundleId), d.version);
        if found.None? || found.value.bundle.fingerprint != d.fingerprint {
          assert !DependencyMet(Snapshot(), tenant, d);
          return false;
        }
      }
      return true;
    }

    method BuildPointerEntry(k: Key, p: Pub, q: Request) returns (e: Option<Entry>)
      ensures e == PointerEntry(Snapshot(), k, p, PriorOf(Snapshot(), k), q)
    {
      if k.tenant.None? { return None; }
      var prior := if k in active then Some(active[k].bundle.fingerprint) else None;
      var recorded := FindPublicationEntry(k.tenant, p.bundle.fingerprint);
      var id := PointerEventId(q.kind, p.bundle.id, prior, p.bundle.fingerprint);
      var predecessors := if recorded.Some? then [recorded.value.eventId] else [];
      if !q.wellFormed || id in predecessors { return None; }
      return Some(Entry(id, q.kind, k.tenant.value, p.records.sourceScope, Some(p.bundle.fingerprint),
                        Some(PublicationReference(p, recorded)), prior, Some(p.bundle.fingerprint), q.operator,
                        predecessors, "", q.now));
    }

    method ActivatePublication(k: Key, p: Pub, gate: Gate, q: Request) returns (outcome: Outcome)
      modifies this
      ensures Step(Snapshot(), outcome) == ActivateRecord(old(Snapshot()), k, p, gate, q)
    {
      if p.state.Retired? { return Failed("bundle_retired"); }
      if gate.Refuse? { return Failed(gate.code); }
      if gate.Raise? { return Raised; }
      var met := CheckDependencies(k.tenant, p.bundle);
      if !met { return Failed("dependency_unavailable"); }
      var entry := BuildPointerEntry(k, p, q);
      if entry.None? && k.tenant.Some? { return Failed("audit_evidence_invalid"); }
      MovePointer(k, p);
      outcome := Finish(entry, Activated(p.bundle));
    }

    method MovePointer(k: Key, p: Pub)
      modifies this
      ensures Snapshot() == PointTo(old(Snapshot()), k, p)
    {
      if k in active {
        history := history[k := [active[k]] + (if k in history then history[k] else [])];
        ReplacePublication(k, active[k].(state := Superseded));
      }
      var now := p.(state := Active);
      ReplacePublication(k, now);
      active := active[k := now];
    }

    method Activate(k: Key, version: string, gate: Gate, q: Request) returns (outcome: Outcome)
      modifies this
      ensures Step(Snapshot(), outcome) == CatalogModel.Activate(old(Snapshot()), k, version, gate, q)
    {
      var found := PublicationByVersion(k, version);
      if found.None? { return Failed("bundle_not_found"); }
      outcome := ActivatePublication(k, found.value, gate, q.(kind := Activation));
    }

    method ActivateFingerprint(k: Key, fp: string, gate: Gate, q: Request) returns (outcome: Outcome)
      modifies this
      ensures Step(Snapshot(), outcome) == CatalogModel.ActivateFingerprint(old(Snapshot()), k, fp, gate, q)
    {
      var found := PublicationByFingerprint(k, fp);
      if found.None? { return Failed("bundle_not_found"); }
      outcome := ActivatePublication(k, found.value, gate, q.(kind := Activation));
    }

    method Rollback(k: Key, gate: Gate, q: Request) returns (outcome: Outcome)
      modifies this
      ensures Step(Snapshot(), outcome) == CatalogModel.Rollback(old(Snapshot()), k, gate, q)
    {
      if k !in active { return Failed("bundle_not_active"); }
      var past := if k in history then history[k] else [];
      if past == [] { return Failed("no_rollback_history"); }
      var previous := past[0];
      var target := PublicationByFingerprint(k, previous.bundle.fingerprint);
      if target.None? || target.value.state.Retired? { return Failed("bundle_retired"); }
      if gate.Refuse? { return Failed(gate.code); }
      if gate.Raise? { return Raised; }
      var entry := BuildPointerEntry(k, previous, q.(kind := EventKind.Rollback));
      if entry.None? && k.tenant.Some? { return Failed("audit_evidence_invalid"); }
      PopPointer(k);
      outcome := Finish(entry, RolledBack(previous.bundle));
    }

    method PopPointer(k: Key)
      requires k in active && k in history && history[k] != []
      modifies this
      ensures Snapshot() == PopTo(old(Snapshot()), k)
    {
      var current := active[k].(state := Superseded);
      var previous := history[k][0].(state := Active);
      ReplacePublication(k, current);
      ReplacePublication(k, previous);
      active := active[k := previous];
      history := history[k := history[k][1..]];
    }

    method RollbackTo(k: Key, fp: string, gate: Gate, q: Request) returns (outcome: Outcome)
      modifies this
      ensures Step(Snapshot(), outcome) == CatalogModel.RollbackTo(old(Snapshot()), k, fp, gate, q)
    {
      var target := PublicationByFingerprint(k, fp);
      if target.None? { return Failed("bundle_not_found"); }
      if k !in active { return Failed("bundle_not_active"); }
      if target.value.bundle.fingerprint == active[k].bundle.fingerprint { return RolledBack(target.value.bundle); }
      outcome := ActivatePublication(k, target.value, gate, q.(kind := EventKind.Rollback));
      if outcome.Activated? { outcome := RolledBack(target.value.bundle); }
    }

    method SetVersionState(k: Key, fp: string, state: VersionState) returns (outcome: Outcome)
      requires state.Deprecated? || state.Retired?
      modifies this`pubs
      ensures Step(Snapshot(), outcome) == Relabel(old(Snapshot()), k, fp, state)
    {
      var found := PublicationByFingerprint(k, fp);
      if found.None? { return Failed("bundle_not_found"); }
      if state.Retired? && k in active && active[k].bundle.fingerprint == fp { return Failed("active_bundle_retirement"); }
      ReplacePublication(k, found.value.(state := state));
      return Relabelled(found.value.bundle);
    }

    /** Records host-supplied entries; foreign and tampered entries are refused before
        anything is written. */
    method RecordAuditEntries(offers: seq<Offer>, scope: string) returns (outcome: Outcome)
      modifies this`audit
      ensures Step(Snapshot(), outcome) == RecordEntries(old(Snapshot()), offers, scope)
    {
      for i := 0 to |offers|
        invariant forall j :: 0 <= j < i ==> offers[j].entry.tenant == scope && offers[j].intact
      {
        if offers[i].entry.tenant != scope { return Raised; }
        if !offers[i].intact { return Raised; }
      }
      outcome := AppendEntries(Entries(offers));
    }

    method AppendEntries(es: seq<Entry>) returns (outcome: Outcome)
      modifies this`audit
      ensures audit == AppendAll(old(audit), LiveFingerprints(pubs), es).0
      ensures outcome == if AppendAll(old(audit), LiveFingerprints(pubs), es).1 then Raised else Recorded
    {
      ghost var live := LiveFingerprints(pubs);
      for i := 0 to |es|
        invariant AppendAll(audit, live, es[i..]) == AppendAll(old(audit), live, es)
      {
        assert es[i..][0] == es[i] && es[i..][1..] == es[i + 1..];
        var raised := AppendAuditEntry(es[i]);
        if raised { return Raised; }
      }
      return Recorded;
    }
  }
}
