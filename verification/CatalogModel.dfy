/** The bundle catalog as a state machine: what each operation does to the
    publications, the active pointers, the histories and the audit store. */
module CatalogModel {
  import opened Options
  import opened AuditEvidence

  datatype VersionState = Available | Active | Superseded | Deprecated | Retired

  datatype Dependency = Dependency(bundleId: string, version: string, fingerprint: string)

  /** The fingerprint covers the semantic content, not the id or the version. */
  datatype Bundle = Bundle(id: string, version: string, fingerprint: string, dependencies: seq<Dependency>)

  /** The facts that a publication's audit entry is built from. */
  datatype PublicationFacts = PublicationFacts(
    eventId: string, tenant: string, sourceScope: string, reference: string, details: string)

  /** The lifecycle records validated together with a bundle. */
  datatype Records = Records(verified: bool, auditId: Option<string>, facts: Option<PublicationFacts>, sourceScope: string)

  datatype Pub = Pub(
    bundle: Bundle, records: Records, state: VersionState,
    predecessor: Option<string>, successor: Option<string>)

  datatype Key = Key(tenant: Option<string>, bundleId: string)

  datatype State = State(
    pubs: map<Key, seq<Pub>>, active: map<Key, Pub>, history: map<Key, seq<Pub>>, audit: seq<Entry>)

  const INITIAL := State(map[], map[], map[], [])

  const AUDIT_STORE_LIMIT: nat := 4096

  datatype Outcome =
    | Published(bundle: Bundle)
    | Reused(bundle: Bundle)
    | Activated(bundle: Bundle)
    | RolledBack(bundle: Bundle)
    | Relabelled(bundle: Bundle)
    | Recorded
    | Failed(code: string)
    | Raised

  /** The verdict of the checks that the model does not look into. */
  datatype Gate = Pass | Refuse(code: string) | Raise

  datatype Step = Step(state: State, outcome: Outcome)

  // ---- lookups ----

  function PubsAt(s: State, k: Key): seq<Pub> { if k in s.pubs then s.pubs[k] else [] }

  function HistoryAt(s: State, k: Key): seq<Pub> { if k in s.history then s.history[k] else [] }

  /** The first position with a fingerprint, or the length. */
  function FindFingerprint(ps: seq<Pub>, fp: string): (i: nat)
    ensures i <= |ps|
    ensures i < |ps| ==> ps[i].bundle.fingerprint == fp
    ensures forall j :: 0 <= j < i ==> ps[j].bundle.fingerprint != fp
  {
    if ps == [] || ps[0].bundle.fingerprint == fp then 0 else 1 + FindFingerprint(ps[1..], fp)
  }

  function FindVersion(ps: seq<Pub>, version: string): (i: nat)
    ensures i <= |ps|
    ensures i < |ps| ==> ps[i].bundle.version == version
    ensures forall j :: 0 <= j < i ==> ps[j].bundle.version != version
  {
    if ps == [] || ps[0].bundle.version == version then 0 else 1 + FindVersion(ps[1..], version)
  }

  /** Whether `get` returns the declared fingerprint for a dependency. */
  predicate DependencyMet(s: State, tenant: Option<string>, d: Dependency) {
    var ps := PubsAt(s, Key(tenant, d.bundleId));
    var i := FindVersion(ps, d.version);
    i < |ps| && ps[i].bundle.fingerprint == d.fingerprint
  }

  predicate DependenciesMet(s: State, tenant: Option<string>, b: Bundle) {
    forall i :: 0 <= i < |b.dependencies| ==> DependencyMet(s, tenant, b.dependencies[i])
  }

  /** `_replace_publication`: the record with the same fingerprint is exchanged. */
  function Replace(ps: seq<Pub>, p: Pub): (r: seq<Pub>)
    ensures |r| == |ps|
    ensures forall i :: 0 <= i < |ps| ==>
      r[i] == if ps[i].bundle.fingerprint == p.bundle.fingerprint then p else ps[i]
  {
    if ps == [] then []
    else [if ps[0].bundle.fingerprint == p.bundle.fingerprint then p else ps[0]] + Replace(ps[1..], p)
  }

  function WithPubs(s: State, k: Key, ps: seq<Pub>): State { s.(pubs := s.pubs[k := ps]) }

  // ---- the audit store ----

  /** Fingerprints of the publications of all scopes that are not retired. */
  function LiveFingerprints(pubs: map<Key, seq<Pub>>): set<string> {
    set k, i | k in pubs && 0 <= i < |pubs[k]| && !pubs[k][i].state.Retired? :: pubs[k][i].bundle.fingerprint
  }

  /** Appends an entry, or finds it recorded, or meets another one under its id. */
  datatype Appended = Kept(audit: seq<Entry>) | Conflict

  function AppendEntry(audit: seq<Entry>, live: set<string>, e: Entry): Appended {
    var i := FindEvent(audit, e.eventId);
    if i < |audit| then (if SameFacts(audit[i], e) then Kept(audit) else Conflict)
    else Kept(Trim(audit + [e], live, AUDIT_STORE_LIMIT))
  }

  /** Ends an operation by recording its entry; a conflicting id raises although
      the rest of the state has changed already. */
  function Record(s: State, e: Option<Entry>, done: Outcome): Step {
    if e.None? then Step(s, done)
    else
      match AppendEntry(s.audit, LiveFingerprints(s.pubs), e.value)
      case Kept(audit) => Step(s.(audit := audit), done)
      case Conflict => Step(s, Raised)
  }

  // ---- publish ----

  function PublicationEntry(s: State, tenant: Option<string>, b: Bundle, f: PublicationFacts,
                            predecessor: Option<string>, now: int): Entry
  {
    var linked := if tenant.Some? && predecessor.Some? then FindPublication(s.audit, tenant.value, predecessor.value) else None;
    Entry(f.eventId, Publication, f.tenant, f.sourceScope, Some(b.fingerprint), Some(f.reference), None, None, None,
          if linked.Some? then [linked.value.eventId] else [], f.details, now)
  }

  /** Marks the newest publication as superseded by a fingerprint. */
  function Supersede(p: Pub, fp: string): Pub {
    p.(successor := Some(fp), state := if p.state.Active? then Active else Superseded)
  }

  function Extend(ps: seq<Pub>, b: Bundle, r: Records): seq<Pub> {
    if ps == [] then [Pub(b, r, Available, None, None)]
    else
      var last := ps[|ps| - 1];
      ps[..|ps| - 1] + [Supersede(last, b.fingerprint), Pub(b, r, Available, Some(last.bundle.fingerprint), None)]
  }

  function Publish(s: State, tenant: Option<string>, b: Bundle, r: Records, gate: Gate, now: int): Step {
    if gate.Refuse? then Step(s, Failed(gate.code))
    else if gate.Raise? then Step(s, Raised)
    else
      var k := Key(tenant, b.id);
      var ps := PubsAt(s, k);
      var i := FindFingerprint(ps, b.fingerprint);
      if i < |ps| then
        if r.verified && !ps[i].records.verified then Step(s, Failed("publication_state_conflict"))
        else Step(s, Reused(ps[i].bundle))
      else if FindVersion(ps, b.version) < |ps| then Step(s, Failed("version_exists"))
      else
        var s1 := WithPubs(s, k, Extend(ps, b, r));
        var predecessor := if ps == [] then None else Some(ps[|ps| - 1].bundle.fingerprint);
        var entry :=
          if r.facts.None? then None else Some(PublicationEntry(s, tenant, b, r.facts.value, predecessor, now));
        Record(s1, entry, Published(b))
  }

  // ---- pointer changes ----

  /** Which pointer change is recorded, by whom, when, and whether the texts of the
      entry pass their patterns. */
  datatype Request = Request(kind: EventKind, operator: Option<string>, wellFormed: bool, now: int)

  function PublicationReference(p: Pub, recorded: Option<Entry>): string {
    if p.records.auditId.Some? then p.records.auditId.value
    else if recorded.Some? then recorded.value.eventId
    else "publication-" + p.bundle.fingerprint
  }

  /** The audit entry of a pointer change; `None` without a tenant, or when the
      entry would be malformed or its own predecessor. */
  function PointerEntry(s: State, k: Key, p: Pub, prior: Option<string>, q: Request): Option<Entry> {
    if k.tenant.None? then None
    else
      var recorded := FindPublication(s.audit, k.tenant.value, p.bundle.fingerprint);
      var id := PointerEventId(q.kind, p.bundle.id, prior, p.bundle.fingerprint);
      var predecessors := if recorded.Some? then [recorded.value.eventId] else [];
      if !q.wellFormed || id in predecessors then None
      else Some(Entry(id, q.kind, k.tenant.value, p.records.sourceScope, Some(p.bundle.fingerprint),
                      Some(PublicationReference(p, recorded)), prior, Some(p.bundle.fingerprint), q.operator,
                      predecessors, "", q.now))
  }

  function PriorOf(s: State, k: Key): Option<string> {
    if k in s.active then Some(s.active[k].bundle.fingerprint) else None
  }

  /** The pointer moves to `p`; the previous pointer goes on top of the history. */
  function PointTo(s: State, k: Key, p: Pub): State {
    var s1 :=
      if k in s.active then
        WithPubs(s, k, Replace(PubsAt(s, k), s.active[k].(state := Superseded)))
          .(history := s.history[k := [s.active[k]] + HistoryAt(s, k)])
      else s;
    var now := p.(state := Active);
    WithPubs(s1, k, Replace(PubsAt(s1, k), now)).(active := s1.active[k := now])
  }

  /** `_activate_publication` on a live record. */
  function ActivateRecord(s: State, k: Key, p: Pub, gate: Gate, q: Request): Step {
    if p.state.Retired? then Step(s, Failed("bundle_retired"))
    else if gate.Refuse? then Step(s, Failed(gate.code))
    else if gate.Raise? then Step(s, Raised)
    else if !DependenciesMet(s, k.tenant, p.bundle) then Step(s, Failed("dependency_unavailable"))
    else
      var entry := PointerEntry(s, k, p, PriorOf(s, k), q);
      if entry.None? && k.tenant.Some? then Step(s, Failed("audit_evidence_invalid"))
      else Record(PointTo(s, k, p), entry, Activated(p.bundle))
  }

  function Activate(s: State, k: Key, version: string, gate: Gate, q: Request): Step {
    var ps := PubsAt(s, k);
    var i := FindVersion(ps, version);
    if i == |ps| then Step(s, Failed("bundle_not_found")) else ActivateRecord(s, k, ps[i], gate, q.(kind := Activation))
  }

  function ActivateFingerprint(s: State, k: Key, fp: string, gate: Gate, q: Request): Step {
    var ps := PubsAt(s, k);
    var i := FindFingerprint(ps, fp);
    if i == |ps| then Step(s, Failed("bundle_not_found")) else ActivateRecord(s, k, ps[i], gate, q.(kind := Activation))
  }

  /** The pointer goes back to the top of the history, which is popped. */
  function PopTo(s: State, k: Key): State
    requires k in s.active && HistoryAt(s, k) != []
  {
    var h := HistoryAt(s, k);
    var back := h[0].(state := Active);
    var ps := Replace(Replace(PubsAt(s, k), s.active[k].(state := Superseded)), back);
    WithPubs(s, k, ps).(active := s.active[k := back], history := s.history[k := h[1..]])
  }

  function Rollback(s: State, k: Key, gate: Gate, q: Request): Step {
    var ps, h := PubsAt(s, k), HistoryAt(s, k);
    if k !in s.active then Step(s, Failed("bundle_not_active"))
    else if h == [] then Step(s, Failed("no_rollback_history"))
    else
      var i := FindFingerprint(ps, h[0].bundle.fingerprint);
      if i == |ps| || ps[i].state.Retired? then Step(s, Failed("bundle_retired"))
      else if gate.Refuse? then Step(s, Failed(gate.code))
      else if gate.Raise? then Step(s, Raised)
      else
        var entry := PointerEntry(s, k, h[0], PriorOf(s, k), q.(kind := EventKind.Rollback));
        if entry.None? && k.tenant.Some? then Step(s, Failed("audit_evidence_invalid"))
        else Record(PopTo(s, k), entry, RolledBack(h[0].bundle))
  }

  function RollbackTo(s: State, k: Key, fp: string, gate: Gate, q: Request): Step {
    var ps := PubsAt(s, k);
    var i := FindFingerprint(ps, fp);
    if i == |ps| then Step(s, Failed("bundle_not_found"))
    else if k !in s.active then Step(s, Failed("bundle_not_active"))
    else if s.active[k].bundle.fingerprint == fp then Step(s, RolledBack(ps[i].bundle))
    else
      var done := ActivateRecord(s, k, ps[i], gate, q.(kind := EventKind.Rollback));
      if done.outcome.Activated? then done.(outcome := RolledBack(ps[i].bundle)) else done
  }

  /** Operator-managed deprecation or retirement. */
  function Relabel(s: State, k: Key, fp: string, state: VersionState): Step {
    var ps := PubsAt(s, k);
    var i := FindFingerprint(ps, fp);
    if i == |ps| then Step(s, Failed("bundle_not_found"))
    else if state.Retired? && k in s.active && s.active[k].bundle.fingerprint == fp then
      Step(s, Failed("active_bundle_retirement"))
    else Step(WithPubs(s, k, Replace(ps, ps[i].(state := state))), Relabelled(ps[i].bundle))
  }

  // ---- host-supplied entries ----

  function AppendAll(audit: seq<Entry>, live: set<string>, es: seq<Entry>): (seq<Entry>, bool)
    decreases |es|
  {
    if es == [] then (audit, false)
    else
      match AppendEntry(audit, live, es[0])
      case Conflict => (audit, true)
      case Kept(more) => AppendAll(more, live, es[1..])
  }

  /** An entry that a host offers, and whether its fingerprint matches its facts. */
  datatype Offer = Offer(entry: Entry, intact: bool)

  function Entries(offers: seq<Offer>): (es: seq<Entry>)
    ensures |es| == |offers| && forall i :: 0 <= i < |es| ==> es[i] == offers[i].entry
  {
    seq(|offers|, i requires 0 <= i < |offers| => offers[i].entry)
  }

  /** Records intact entries of one scope; a conflict raises after the entries before
      it were stored. */
  function RecordEntries(s: State, offers: seq<Offer>, scope: string): Step {
    if exists i :: 0 <= i < |offers| && (offers[i].entry.tenant != scope || !offers[i].intact) then Step(s, Raised)
    else
      var (audit, conflict) := AppendAll(s.audit, LiveFingerprints(s.pubs), Entries(offers));
      Step(s.(audit := audit), if conflict then Raised else Recorded)
  }

  // ---- runs ----

  datatype Op =
    | PublishOp(tenant: Option<string>, bundle: Bundle, records: Records, gate: Gate, now: int)
    | ActivateOp(key: Key, version: string, gate: Gate, request: Request)
    | ActivateFingerprintOp(key: Key, fp: string, gate: Gate, request: Request)
    | RollbackOp(key: Key, gate: Gate, request: Request)
    | RollbackToOp(key: Key, fp: string, gate: Gate, request: Request)
    | DeprecateOp(key: Key, fp: string)
    | RetireOp(key: Key, fp: string)
    | RecordOp(offers: seq<Offer>, scope: string)

  function Apply(s: State, op: Op): Step {
    match op
    case PublishOp(tenant, b, r, gate, now) => Publish(s, tenant, b, r, gate, now)
    case ActivateOp(k, version, gate, q) => Activate(s, k, version, gate, q)
    case ActivateFingerprintOp(k, fp, gate, q) => ActivateFingerprint(s, k, fp, gate, q)
    case RollbackOp(k, gate, q) => Rollback(s, k, gate, q)
    case RollbackToOp(k, fp, gate, q) => RollbackTo(s, k, fp, gate, q)
    case DeprecateOp(k, fp) => Relabel(s, k, fp, Deprecated)
    case RetireOp(k, fp) => Relabel(s, k, fp, Retired)
    case RecordOp(es, scope) => RecordEntries(s, es, scope)
  }

  /** The state after a sequence of operations, whatever their outcomes. */
  function Run(s: State, ops: seq<Op>): State
    decreases |ops|
  {
    if ops == [] then s else Run(Apply(s, ops[0]).state, ops[1..])
  }
}
