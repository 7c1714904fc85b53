/** Where each operation moves a pointer, told from the state before it, and what that
    does to the forward links. */
module CatalogMoves {
  import opened Options
  import opened AuditEvidence
  import opened CatalogModel
  import opened CatalogInvariant
  import opened CatalogRuns

  function KindOf(op: Op): EventKind {
    if op.RollbackOp? || op.RollbackToOp? then EventKind.Rollback else Activation
  }

  /** The record at a position, if its activation is permitted. */
  function Chosen(s: State, k: Key, i: nat, gate: Gate, q: Request): Option<Pub> {
    var ps := PubsAt(s, k);
    if i < |ps| && ActivationPermitted(s, k, ps[i], gate, q) then Some(ps[i]) else None
  }

  /** The copy that becomes the pointer, if every check before the move passes. */
  function Target(s: State, op: Op): Option<Pub> {
    match op
    case ActivateOp(k, version, gate, q) =>
      Chosen(s, k, FindVersion(PubsAt(s, k), version), gate, q.(kind := Activation))
    case ActivateFingerprintOp(k, fp, gate, q) =>
      Chosen(s, k, FindFingerprint(PubsAt(s, k), fp), gate, q.(kind := Activation))
    case RollbackToOp(k, fp, gate, q) =>
      if k in s.active && Fp(s.active[k]) != fp
      then Chosen(s, k, FindFingerprint(PubsAt(s, k), fp), gate, q.(kind := EventKind.Rollback))
      else None
    case RollbackOp(k, gate, q) =>
      if RollbackPermitted(s, k, gate, q) then Some(HistoryAt(s, k)[0]) else None
    case _ => None
  }

  /** The state once the pointer has moved, before the move is recorded. */
  function Moved(s: State, op: Op): State
    requires Target(s, op).Some?
  {
    if op.RollbackOp? then PopTo(s, KeyOf(op)) else PointTo(s, KeyOf(op), Target(s, op).value)
  }

  /** The entry that records the move; none without a tenant. */
  function MoveEntry(s: State, op: Op): Option<Entry>
    requires Target(s, op).Some?
  {
    PointerEntry(s, KeyOf(op), Target(s, op).value, PriorOf(s, KeyOf(op)), op.request.(kind := KindOf(op)))
  }

  /** A move ends in its entry being recorded, and its outcome is that of recording. */
  ghost predicate Performs(s: State, op: Op, r: Step)
    requires Target(s, op).Some?
  {
    var done := Record(Moved(s, op), MoveEntry(s, op), Activated(Target(s, op).value.bundle));
    && r.state == done.state
    && (KeyOf(op).tenant.Some? ==> MoveEntry(s, op).Some?)
    && r.outcome == (if done.outcome.Raised? then Raised
                     else if KindOf(op).Activation? then Activated(Target(s, op).value.bundle)
                     else RolledBack(Target(s, op).value.bundle))
  }

  lemma RecordOutcome(s: State, e: Option<Entry>, a: Outcome, b: Outcome)
    requires !a.Raised? && !b.Raised?
    ensures Record(s, e, a).state == Record(s, e, b).state
    ensures Record(s, e, a).outcome == if Record(s, e, b).outcome.Raised? then Raised else a
  {
  }

  lemma ActivatePerforms(s: State, op: Op)
    requires (op.ActivateOp? || op.ActivateFingerprintOp?) && Target(s, op).Some?
    ensures Performs(s, op, Apply(s, op))
  {
    var p, q := Target(s, op).value, op.request.(kind := Activation);
    ActivationIs(s, op, p);
    ActivateShape(s, op.key, p, op.gate, q);
    RecordedOutcome(PointTo(s, op.key, p), MoveEntry(s, op), p.bundle, Apply(s, op));
  }

  lemma ActivationIs(s: State, op: Op, p: Pub)
    requires (op.ActivateOp? || op.ActivateFingerprintOp?) && Target(s, op) == Some(p)
    ensures Apply(s, op) == ActivateRecord(s, op.key, p, op.gate, op.request.(kind := Activation))
    ensures ActivationPermitted(s, op.key, p, op.gate, op.request.(kind := Activation))
  {
  }

  lemma RollbackToPerforms(s: State, op: Op)
    requires op.RollbackToOp? && Target(s, op).Some?
    ensures Performs(s, op, Apply(s, op))
  {
    var p, q := Target(s, op).value, op.request.(kind := EventKind.Rollback);
    var i := FindFingerprint(PubsAt(s, op.key), op.fp);
    var done := ActivateRecord(s, op.key, p, op.gate, q);
    RollbackToIs(s, op.key, op.fp, op.gate, op.request, i, done);
    ActivateShape(s, op.key, p, op.gate, q);
    RecordedOutcome(PointTo(s, op.key, p), MoveEntry(s, op), p.bundle, done);
  }

  lemma RollbackToIs(s: State, k: Key, fp: string, gate: Gate, q: Request, i: nat, done: Step)
    requires k in s.active && Fp(s.active[k]) != fp && i == FindFingerprint(PubsAt(s, k), fp) < |PubsAt(s, k)|
    requires done == ActivateRecord(s, k, PubsAt(s, k)[i], gate, q.(kind := EventKind.Rollback))
    ensures RollbackTo(s, k, fp, gate, q)
         == if done.outcome.Activated? then done.(outcome := RolledBack(PubsAt(s, k)[i].bundle)) else done
  {
  }

  lemma RecordedOutcome(s: State, e: Option<Entry>, b: Bundle, done: Step)
    requires done == Record(s, e, Activated(b))
    ensures done.outcome.Activated? || done.outcome.Raised?
  {
  }

  lemma RollbackPerforms(s: State, op: Op)
    requires op.RollbackOp? && Target(s, op).Some?
    ensures Performs(s, op, Apply(s, op))
  {
    var p := Target(s, op).value;
    RollbackShape(s, op.key, op.gate, op.request);
    RecordOutcome(PopTo(s, op.key), MoveEntry(s, op), RolledBack(p.bundle), Activated(p.bundle));
  }

  /** With a target, every operation performs the move. */
  lemma TargetPerforms(s: State, op: Op)
    requires Target(s, op).Some?
    ensures Performs(s, op, Apply(s, op))
  {
    if op.RollbackOp? {
      RollbackPerforms(s, op);
    } else if op.RollbackToOp? {
      RollbackToPerforms(s, op);
    } else {
      ActivatePerforms(s, op);
    }
  }

  predicate PointerOp(op: Op) { op.ActivateOp? || op.ActivateFingerprintOp? || op.RollbackToOp? || op.RollbackOp? }

  /** The checks that the model does not look into are consulted. */
  predicate GateReached(s: State, op: Op) {
    match op
    case PublishOp(_, _, _, _, _) => true
    case ActivateOp(k, version, _, _) => LivePosition(s, k, FindVersion(PubsAt(s, k), version))
    case ActivateFingerprintOp(k, fp, _, _) => LivePosition(s, k, FindFingerprint(PubsAt(s, k), fp))
    case RollbackToOp(k, fp, _, _) =>
      k in s.active && Fp(s.active[k]) != fp && LivePosition(s, k, FindFingerprint(PubsAt(s, k), fp))
    case RollbackOp(k, _, _) => RollbackTargetLive(s, k)
    case _ => false
  }

  predicate LivePosition(s: State, k: Key, i: nat) { i < |PubsAt(s, k)| && !PubsAt(s, k)[i].state.Retired? }

  /** Rolling back to the fingerprint that is active. */
  predicate ToItself(s: State, op: Op) {
    op.RollbackToOp? && PriorOf(s, op.key) == Some(op.fp) && FindFingerprint(PubsAt(s, op.key), op.fp) < |PubsAt(s, op.key)|
  }

  /** Without a target no pointer operation changes anything: it is refused, it raises
      with its gate, or it rolls back to what is active. */
  ghost predicate StaysPut(s: State, op: Op, r: Step)
    requires PointerOp(op)
  {
    && r.state == s
    && if ToItself(s, op) then r.outcome.RolledBack?
       else if GateReached(s, op) && op.gate.Raise? then r.outcome.Raised?
       else r.outcome.Failed?
  }

  lemma NoActivation(s: State, op: Op)
    requires Target(s, op).None? && (op.ActivateOp? || op.ActivateFingerprintOp?)
    ensures StaysPut(s, op, Apply(s, op))
  {
    var ps := PubsAt(s, op.key);
    var i := if op.ActivateOp? then FindVersion(ps, op.version) else FindFingerprint(ps, op.fp);
    if i < |ps| { ActivateShape(s, op.key, ps[i], op.gate, op.request.(kind := Activation)); }
  }

  lemma NoRollbackTo(s: State, op: Op)
    requires Target(s, op).None? && op.RollbackToOp?
    ensures StaysPut(s, op, Apply(s, op))
  {
    var ps := PubsAt(s, op.key);
    var i := FindFingerprint(ps, op.fp);
    if i < |ps| && op.key in s.active && Fp(s.active[op.key]) != op.fp {
      var done := ActivateRecord(s, op.key, ps[i], op.gate, op.request.(kind := EventKind.Rollback));
      RollbackToIs(s, op.key, op.fp, op.gate, op.request, i, done);
      ActivateShape(s, op.key, ps[i], op.gate, op.request.(kind := EventKind.Rollback));
    }
  }

  lemma NoTargetNoChange(s: State, op: Op)
    requires Target(s, op).None? && PointerOp(op)
    ensures StaysPut(s, op, Apply(s, op))
  {
    if op.RollbackOp? {
      RollbackShape(s, op.key, op.gate, op.request);
    } else if op.RollbackToOp? {
      NoRollbackTo(s, op);
    } else {
      NoActivation(s, op);
    }
  }

  lemma MovedShape(s: State, op: Op)
    requires Target(s, op).Some?
    ensures var k, p := KeyOf(op), Target(s, op).value;
      && PubsAt(Moved(s, op), k) == Repointed(PubsAt(s, k), ActiveAt(s, k), p)
      && ActiveAt(Moved(s, op), k) == Some(p.(state := Active))
      && Moved(s, op).audit == s.audit
  {
    if op.RollbackOp? { PopToShape(s, op.key); } else { PointToShape(s, KeyOf(op), Target(s, op).value); }
  }

  /** The publications and the pointer after a move are those of the moved state. */
  lemma MoveResult(s: State, op: Op)
    requires UniqueIds(s.audit) && Target(s, op).Some?
    ensures var s', k, p := Apply(s, op).state, KeyOf(op), Target(s, op).value;
      PubsAt(s', k) == Repointed(PubsAt(s, k), ActiveAt(s, k), p) && ActiveAt(s', k) == Some(p.(state := Active))
  {
    TargetPerforms(s, op);
    MovedShape(s, op);
    RecordFrame(Moved(s, op), MoveEntry(s, op), Activated(Target(s, op).value.bundle));
  }

  /** The move itself keeps the invariant. */
  lemma MovedKeeps(s: State, op: Op)
    requires Inv(s) && Target(s, op).Some?
    ensures Keeps(s, Moved(s, op), KeyOf(op))
  {
    var k := KeyOf(op);
    if op.RollbackOp? {
      PopToKeeps(s, k);
    } else {
      TargetIsCopy(s, op);
      TargetDependencies(s, op);
      PointToKeeps(s, k, Target(s, op).value);
    }
  }

  lemma TargetDependencies(s: State, op: Op)
    requires Target(s, op).Some? && !op.RollbackOp?
    ensures DependenciesMet(s, KeyOf(op).tenant, Target(s, op).value.bundle) && !Target(s, op).value.state.Retired?
  {
  }

  lemma TargetIsCopy(s: State, op: Op)
    requires Inv(s) && Target(s, op).Some?
    ensures Copy(PubsAt(s, KeyOf(op)), Target(s, op).value)
  {
    var k := KeyOf(op);
    if op.RollbackOp? {
      HistoryTop(s, k);
    } else {
      var i: nat :| i < |PubsAt(s, k)| && PubsAt(s, k)[i] == Target(s, op).value;
      LiveIsCopy(s, k, i);
    }
  }

  // ---- when a publication is appended ----

  /** Every check before the publication is written lets it through. */
  predicate PublishPermitted(s: State, op: Op) {
    && op.PublishOp? && op.gate.Pass?
    && (var ps := PubsAt(s, KeyOf(op));
        FindFingerprint(ps, op.bundle.fingerprint) == |ps| && FindVersion(ps, op.bundle.version) == |ps|)
  }

  /** The entry of a publication, if it comes with audit facts. */
  function PublishedEntry(s: State, op: Op): Option<Entry>
    requires op.PublishOp?
  {
    var ps := PubsAt(s, KeyOf(op));
    if op.records.facts.None? then None
    else Some(PublicationEntry(s, op.tenant, op.bundle, op.records.facts.value,
                               if ps == [] then None else Some(Fp(ps[|ps| - 1])), op.now))
  }

  lemma PublishShape(s: State, op: Op)
    requires op.PublishOp?
    ensures var k, done := KeyOf(op), Apply(s, op);
      if PublishPermitted(s, op)
      then done == Record(WithPubs(s, k, Extend(PubsAt(s, k), op.bundle, op.records)), PublishedEntry(s, op), Published(op.bundle))
      else done.state == s
           && if op.gate.Raise? then done.outcome.Raised? else done.outcome.Failed? || done.outcome.Reused?
  {
  }

  lemma PublishedPubs(s: State, op: Op)
    requires op.PublishOp?
    ensures var k := KeyOf(op);
      PubsAt(Apply(s, op).state, k)
      == if PublishPermitted(s, op) then Extend(PubsAt(s, k), op.bundle, op.records) else PubsAt(s, k)
  {
    PublishShape(s, op);
  }

  // ---- forward links ----

  /** The forward link of record `i` after an operation, told from the state before. */
  function LinkAfter(s: State, op: Op, k: Key, i: nat): Option<string>
    requires i < |PubsAt(s, k)|
  {
    var ps, target := PubsAt(s, k), Target(s, op);
    if KeyOf(op) != k then ps[i].successor
    else if PublishPermitted(s, op) && i == |ps| - 1 then Some(op.bundle.fingerprint)
    else if target.Some? && Fp(target.value) == Fp(ps[i]) then target.value.successor
    else if target.Some? && k in s.active && Fp(s.active[k]) == Fp(ps[i]) then s.active[k].successor
    else ps[i].successor
  }

  /** Every operation leaves exactly these forward links. */
  lemma ForwardLinkAfter(s: State, op: Op, k: Key, i: nat)
    requires Inv(s) && i < |PubsAt(s, k)|
    ensures i < |PubsAt(Apply(s, op).state, k)| && PubsAt(Apply(s, op).state, k)[i].successor == LinkAfter(s, op, k, i)
  {
    RecordsStay(s, op, k);
    if KeyOf(op) == k {
      if Target(s, op).Some? {
        MovedLink(s, op, i);
      } else if PointerOp(op) {
        NoTargetNoChange(s, op);
      } else if op.PublishOp? {
        PublishedLink(s, op, i);
      } else {
        RelabelLink(s, op, i);
      }
    }
  }

  lemma RecordsStay(s: State, op: Op, k: Key)
    requires Inv(s)
    ensures |PubsAt(s, k)| <= |PubsAt(Apply(s, op).state, k)|
    ensures KeyOf(op) != k ==> PubsAt(Apply(s, op).state, k) == PubsAt(s, k)
  {
    ApplyKeeps(s, op);
    assert Grown(PubsAt(s, k), PubsAt(Apply(s, op).state, k));
  }

  lemma MovedLink(s: State, op: Op, i: nat)
    requires UniqueIds(s.audit) && i < |PubsAt(s, KeyOf(op))| && Target(s, op).Some?
    ensures var ps' := PubsAt(Apply(s, op).state, KeyOf(op));
      i < |ps'| && ps'[i].successor == LinkAfter(s, op, KeyOf(op), i)
  {
    MoveResult(s, op);
    RepointedLink(PubsAt(s, KeyOf(op)), ActiveAt(s, KeyOf(op)), Target(s, op).value, i);
  }

  lemma PublishedLink(s: State, op: Op, i: nat)
    requires i < |PubsAt(s, KeyOf(op))| && op.PublishOp?
    ensures var ps' := PubsAt(Apply(s, op).state, KeyOf(op));
      i < |ps'| && ps'[i].successor == LinkAfter(s, op, KeyOf(op), i)
  {
    PublishedPubs(s, op);
    ExtendShape(PubsAt(s, KeyOf(op)), op.bundle, op.records);
  }

  lemma RepointedLink(ps: seq<Pub>, was: Option<Pub>, p: Pub, i: nat)
    requires i < |ps|
    ensures Repointed(ps, was, p)[i].successor ==
      if Fp(p) == Fp(ps[i]) then p.successor
      else if was.Some? && Fp(was.value) == Fp(ps[i]) then was.value.successor
      else ps[i].successor
  {
    var qs := Unpointed(ps, was);
    assert Fp(qs[i]) == Fp(ps[i]);
  }

  lemma RelabelLink(s: State, op: Op, i: nat)
    requires Inv(s) && i < |PubsAt(s, KeyOf(op))| && (op.DeprecateOp? || op.RetireOp? || op.RecordOp?)
    ensures var ps, ps' := PubsAt(s, KeyOf(op)), PubsAt(Apply(s, op).state, KeyOf(op));
      |ps'| == |ps| && ps'[i].successor == ps[i].successor
  {
    if !op.RecordOp? {
      var ps := PubsAt(s, op.key);
      var n := FindFingerprint(ps, op.fp);
      if n < |ps| { OneRecord(s, op.key, n, i); }
    }
  }

  lemma OneRecord(s: State, k: Key, n: nat, i: nat)
    requires Inv(s) && n < |PubsAt(s, k)| && i < |PubsAt(s, k)|
    ensures Fp(PubsAt(s, k)[n]) == Fp(PubsAt(s, k)[i]) ==> n == i
  {
    var ps := PubsAt(s, k);
    assert KeyInv(ps, ActiveAt(s, k), HistoryAt(s, k), k.bundleId);
    assert n < i ==> Apart(ps[n], ps[i]);
    assert i < n ==> Apart(ps[i], ps[n]);
  }

  /** A forward link ends exactly when the pointer of its key moves and the copy that
      is written over the record has none: the copy that becomes the pointer, or else
      the copy that was the pointer.  Otherwise it stays what it was. */
  lemma ForwardLinkEndsIff(s: State, op: Op, k: Key, i: nat)
    requires Inv(s) && i < |PubsAt(s, k)| && PubsAt(s, k)[i].successor.Some?
    ensures var ps, ps', target := PubsAt(s, k), PubsAt(Apply(s, op).state, k), Target(s, op);
      && i < |ps'|
      && (ps'[i].successor.None? <==>
          && KeyOf(op) == k && target.Some?
          && if Fp(target.value) == Fp(ps[i]) then op.RollbackOp? && target.value.successor.None?
             else k in s.active && Fp(s.active[k]) == Fp(ps[i]) && s.active[k].successor.None?)
      && (ps'[i].successor.Some? ==> ps'[i].successor == ps[i].successor)
  {
    ForwardLinkAfter(s, op, k, i);
    var ps := PubsAt(s, k);
    assert KeyInv(ps, ActiveAt(s, k), HistoryAt(s, k), k.bundleId);
    assert SoundSuccessor(ps, i, ps[i]);
    if k in s.active && Fp(s.active[k]) == Fp(ps[i]) { CopyAt(ps, k.bundleId, s.active[k], i); }
    if KeyOf(op) == k && Target(s, op).Some? && Fp(Target(s, op).value) == Fp(ps[i]) {
      TargetIsCopy(s, op);
      CopyAt(ps, k.bundleId, Target(s, op).value, i);
      if !op.RollbackOp? { LiveTarget(s, op, i); }
    }
  }

  lemma LiveTarget(s: State, op: Op, i: nat)
    requires Inv(s) && Target(s, op).Some? && !op.RollbackOp? && i < |PubsAt(s, KeyOf(op))|
    requires Fp(Target(s, op).value) == Fp(PubsAt(s, KeyOf(op))[i])
    ensures Target(s, op).value == PubsAt(s, KeyOf(op))[i]
  {
    var k := KeyOf(op);
    var ps := PubsAt(s, k);
    var n: nat :| n < |ps| && ps[n] == Target(s, op).value;
    OneRecord(s, k, n, i);
  }

  // ---- two runs that lose a link ----

  /** What a state says of one key. */
  predicate Holds(s: State, k: Key, ps: seq<Pub>, active: Option<Pub>, h: seq<Pub>) {
    PubsAt(s, k) == ps && ActiveAt(s, k) == active && HistoryAt(s, k) == h
  }

  predicate Distinct(a: Bundle, b: Bundle) { a.fingerprint != b.fingerprint && a.version != b.version }

  lemma {:induction false} RunThen(s: State, ops: seq<Op>, op: Op)
    ensures Run(s, ops + [op]) == Apply(Run(s, ops), op).state
    decreases |ops|
  {
    if ops == [] {
      assert [] + [op] == [op];
      RunStep(s, [op]);
    } else {
      assert (ops + [op])[0] == ops[0] && (ops + [op])[1..] == ops[1..] + [op];
      RunThen(Apply(s, ops[0]).state, ops[1..], op);
    }
  }

  lemma Publishes(s: State, k: Key, b: Bundle, r: Records, ps: seq<Pub>, active: Option<Pub>, h: seq<Pub>)
    requires Holds(s, k, ps, active, h) && k == Key(None, b.id) && r.facts.None?
    requires forall i :: 0 <= i < |ps| ==> Fp(ps[i]) != b.fingerprint && ps[i].bundle.version != b.version
    ensures Holds(Apply(s, PublishOp(None, b, r, Pass, 0)).state, k, Extend(ps, b, r), active, h)
  {
    PublishShape(s, PublishOp(None, b, r, Pass, 0));
  }

  lemma Activates(s: State, k: Key, i: nat, q: Request, ps: seq<Pub>, active: Option<Pub>, h: seq<Pub>)
    requires Holds(s, k, ps, active, h) && k.tenant.None? && i < |ps|
    requires !ps[i].state.Retired? && ps[i].bundle.dependencies == []
    requires forall j :: 0 <= j < i ==> ps[j].bundle.version != ps[i].bundle.version
    ensures Holds(Apply(s, ActivateOp(k, ps[i].bundle.version, Pass, q)).state, k, Repointed(ps, active, ps[i]),
                  Some(ps[i].(state := Active)), (if active.Some? then [active.value] else []) + h)
  {
    assert FindVersion(ps, ps[i].bundle.version) == i;
    ActivateShape(s, k, ps[i], Pass, q.(kind := Activation));
    PointToShape(s, k, ps[i]);
  }

  lemma RollsBack(s: State, k: Key, i: nat, q: Request, ps: seq<Pub>, active: Pub, h: seq<Pub>)
    requires Holds(s, k, ps, Some(active), h) && k.tenant.None? && h != [] && i < |ps|
    requires Fp(ps[i]) == Fp(h[0]) && !ps[i].state.Retired? && forall j :: 0 <= j < i ==> Fp(ps[j]) != Fp(h[0])
    ensures Holds(Apply(s, RollbackOp(k, Pass, q)).state, k, Repointed(ps, Some(active), h[0]), Some(h[0].(state := Active)), h[1..])
  {
    assert FindFingerprint(ps, Fp(h[0])) == i;
    RollbackShape(s, k, Pass, q);
    PopToShape(s, k);
  }

  /** Two versions, both published, the first one active since before the second. */
  lemma TwoReleases(k: Key, b: Bundle, next: Bundle, r: Records, q: Request)
    requires b.dependencies == [] && r.facts.None? && k == Key(None, b.id) == Key(None, next.id)
    requires Distinct(b, next)
    ensures var p := Pub(b, r, Active, None, None);
      Holds(Run(INITIAL, [PublishOp(None, b, r, Pass, 0), ActivateOp(k, b.version, Pass, q), PublishOp(None, next, r, Pass, 0)]),
            k, [p.(successor := Some(next.fingerprint)), Pub(next, r, Available, Some(b.fingerprint), None)], Some(p), [])
  {
    var first, second, third :=
      PublishOp(None, b, r, Pass, 0), ActivateOp(k, b.version, Pass, q), PublishOp(None, next, r, Pass, 0);
    var p := Pub(b, r, Available, None, None);
    RunThen(INITIAL, [], first);
    Publishes(INITIAL, k, b, r, [], None, []);
    RunThen(INITIAL, [first], second);
    Activates(Run(INITIAL, [first]), k, 0, q, [p], None, []);
    assert Repointed([p], None, p) == [p.(state := Active)];
    RunThen(INITIAL, [first, second], third);
    assert [first] + [second] == [first, second] && [first, second] + [third] == [first, second, third];
    Publishes(Run(INITIAL, [first, second]), k, next, r, [p.(state := Active)], Some(p.(state := Active)), []);
  }

  /** Publish and activate one version, publish the next, activate it: the record that
      was the pointer loses its link. */
  lemma ActivationCanLoseLink(k: Key, b: Bundle, next: Bundle, r: Records, q: Request)
    requires b.dependencies == next.dependencies == [] && r.facts.None? && k == Key(None, b.id) == Key(None, next.id)
    requires Distinct(b, next)
    ensures
      var s := Run(INITIAL, [PublishOp(None, b, r, Pass, 0), ActivateOp(k, b.version, Pass, q), PublishOp(None, next, r, Pass, 0)]);
      var s' := Apply(s, ActivateOp(k, next.version, Pass, q)).state;
      && |PubsAt(s, k)| == |PubsAt(s', k)| == 2
      && PubsAt(s, k)[0].successor == Some(next.fingerprint) && PubsAt(s', k)[0].successor == None
  {
    var s := Run(INITIAL, [PublishOp(None, b, r, Pass, 0), ActivateOp(k, b.version, Pass, q), PublishOp(None, next, r, Pass, 0)]);
    var p, n := Pub(b, r, Active, None, None), Pub(next, r, Available, Some(b.fingerprint), None);
    var ps := [p.(successor := Some(next.fingerprint)), n];
    TwoReleases(k, b, next, r, q);
    Activates(s, k, 1, q, ps, Some(p), []);
    RepointedLink(ps, Some(p), n, 0);
  }

  /** A second version is active, then the first again, then a third is published: the
      record of the second links to the third while the history does not. */
  lemma ThreeReleases(k: Key, a: Bundle, b: Bundle, c: Bundle, r: Records, q: Request, ops: seq<Op>)
    requires a.dependencies == b.dependencies == [] && r.facts.None? && k == Key(None, a.id) == Key(None, b.id) == Key(None, c.id)
    requires Distinct(a, b) && Distinct(b, c) && Distinct(a, c)
    requires ops == [PublishOp(None, a, r, Pass, 0), PublishOp(None, b, r, Pass, 0), ActivateOp(k, b.version, Pass, q),
                     ActivateOp(k, a.version, Pass, q), PublishOp(None, c, r, Pass, 0)]
    ensures
      var pa := Pub(a, r, Active, None, Some(b.fingerprint));
      var pb := Pub(b, r, Superseded, Some(a.fingerprint), Some(c.fingerprint));
      Holds(Run(INITIAL, ops), k, [pa, pb, Pub(c, r, Available, Some(b.fingerprint), None)], Some(pa),
            [pb.(state := Active, successor := None)])
  {
    var pa := Pub(a, r, Superseded, None, Some(b.fingerprint));
    var pb := Pub(b, r, Available, Some(a.fingerprint), None);
    var s2 := Run(INITIAL, ops[..2]);
    LastThree(INITIAL, ops);
    assert ops[..2] == [PublishOp(None, a, r, Pass, 0), PublishOp(None, b, r, Pass, 0)];
    TwoPublished(k, a, b, r);
    ThenThree(s2, k, pa, pb, c, r, q);
  }

  lemma LastThree(s: State, ops: seq<Op>)
    requires |ops| == 5
    ensures Run(s, ops) == Apply(Apply(Apply(Run(s, ops[..2]), ops[2]).state, ops[3]).state, ops[4]).state
  {
    RunThen(s, ops[..2], ops[2]);
    RunThen(s, ops[..3], ops[3]);
    RunThen(s, ops[..4], ops[4]);
    assert ops[..2] + [ops[2]] == ops[..3] && ops[..3] + [ops[3]] == ops[..4] && ops[..4] + [ops[4]] == ops;
  }

  lemma ThenThree(s: State, k: Key, a: Pub, b: Pub, c: Bundle, r: Records, q: Request)
    requires Holds(s, k, [a, b], None, []) && k == Key(None, c.id) && r.facts.None? && !a.state.Retired? && !b.state.Retired?
    requires Distinct(a.bundle, b.bundle) && Distinct(b.bundle, c) && Distinct(a.bundle, c)
    requires a.bundle.dependencies == b.bundle.dependencies == []
    ensures var s1 := Apply(s, ActivateOp(k, b.bundle.version, Pass, q)).state;
      var s2 := Apply(s1, ActivateOp(k, a.bundle.version, Pass, q)).state;
      Holds(Apply(s2, PublishOp(None, c, r, Pass, 0)).state, k,
            [a.(state := Active), b.(state := Superseded, successor := Some(c.fingerprint)), Pub(c, r, Available, Some(Fp(b)), None)],
            Some(a.(state := Active)), [b.(state := Active)])
  {
    var s1 := Apply(s, ActivateOp(k, b.bundle.version, Pass, q)).state;
    var s2 := Apply(s1, ActivateOp(k, a.bundle.version, Pass, q)).state;
    ThereAndBack(s, k, a, b, q);
    PublishesThird(s2, k, a.(state := Active), b.(state := Superseded), c, r, Some(a.(state := Active)), [b.(state := Active)]);
  }

  lemma PublishesThird(s: State, k: Key, a: Pub, b: Pub, c: Bundle, r: Records, active: Option<Pub>, h: seq<Pub>)
    requires Holds(s, k, [a, b], active, h) && k == Key(None, c.id) && r.facts.None?
    requires Distinct(b.bundle, c) && Distinct(a.bundle, c)
    ensures Holds(Apply(s, PublishOp(None, c, r, Pass, 0)).state, k,
                  [a, Supersede(b, c.fingerprint), Pub(c, r, Available, Some(Fp(b)), None)], active, h)
  {
    Publishes(s, k, c, r, [a, b], active, h);
    assert Extend([a, b], c, r) == [a, Supersede(b, c.fingerprint), Pub(c, r, Available, Some(Fp(b)), None)];
  }

  lemma TwoPublished(k: Key, a: Bundle, b: Bundle, r: Records)
    requires r.facts.None? && k == Key(None, a.id) == Key(None, b.id) && Distinct(a, b)
    ensures Holds(Run(INITIAL, [PublishOp(None, a, r, Pass, 0), PublishOp(None, b, r, Pass, 0)]), k,
                  [Pub(a, r, Superseded, None, Some(b.fingerprint)), Pub(b, r, Available, Some(a.fingerprint), None)], None, [])
  {
    var first, second := PublishOp(None, a, r, Pass, 0), PublishOp(None, b, r, Pass, 0);
    RunThen(INITIAL, [], first);
    Publishes(INITIAL, k, a, r, [], None, []);
    RunThen(INITIAL, [first], second);
    assert [first] + [second] == [first, second];
    Publishes(Run(INITIAL, [first]), k, b, r, [Pub(a, r, Available, None, None)], None, []);
  }

  /** Activating the second record and then the first. */
  lemma ThereAndBack(s: State, k: Key, a: Pub, b: Pub, q: Request)
    requires Holds(s, k, [a, b], None, []) && k.tenant.None? && Distinct(a.bundle, b.bundle)
    requires a.bundle.dependencies == b.bundle.dependencies == [] && !a.state.Retired? && !b.state.Retired?
    ensures var s1 := Apply(s, ActivateOp(k, b.bundle.version, Pass, q)).state;
      Holds(Apply(s1, ActivateOp(k, a.bundle.version, Pass, q)).state, k,
            [a.(state := Active), b.(state := Superseded)], Some(a.(state := Active)), [b.(state := Active)])
  {
    var s1, act := Apply(s, ActivateOp(k, b.bundle.version, Pass, q)).state, b.(state := Active);
    Activates(s, k, 1, q, [a, b], None, []);
    assert Repointed([a, b], None, b) == [a, act];
    Activates(s1, k, 0, q, [a, act], Some(act), []);
    assert Repointed([a, act], Some(act), a) == [a.(state := Active), b.(state := Superseded)];
  }

  /** Rolling back then loses the link of the record that becomes the pointer. */
  lemma RollbackCanLoseLink(k: Key, a: Bundle, b: Bundle, c: Bundle, r: Records, q: Request, ops: seq<Op>)
    requires a.dependencies == b.dependencies == [] && r.facts.None? && k == Key(None, a.id) == Key(None, b.id) == Key(None, c.id)
    requires Distinct(a, b) && Distinct(b, c) && Distinct(a, c)
    requires ops == [PublishOp(None, a, r, Pass, 0), PublishOp(None, b, r, Pass, 0), ActivateOp(k, b.version, Pass, q),
                     ActivateOp(k, a.version, Pass, q), PublishOp(None, c, r, Pass, 0)]
    ensures var s := Run(INITIAL, ops); var s' := Apply(s, RollbackOp(k, Pass, q)).state;
      && |PubsAt(s, k)| == |PubsAt(s', k)| == 3
      && PubsAt(s, k)[1].successor == Some(c.fingerprint) && PubsAt(s', k)[1].successor == None
      && PubsAt(s', k)[0].successor == PubsAt(s, k)[0].successor == Some(b.fingerprint)
  {
    var s := Run(INITIAL, ops);
    var pa := Pub(a, r, Active, None, Some(b.fingerprint));
    var pb := Pub(b, r, Superseded, Some(a.fingerprint), Some(c.fingerprint));
    var ps := [pa, pb, Pub(c, r, Available, Some(b.fingerprint), None)];
    var back := pb.(state := Active, successor := None);
    ThreeReleases(k, a, b, c, r, q, ops);
    RollsBack(s, k, 1, q, ps, pa, [back]);
    RepointedLink(ps, Some(pa), back, 0);
    RepointedLink(ps, Some(pa), back, 1);
  }
}
