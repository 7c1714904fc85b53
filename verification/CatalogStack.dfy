/** Pointer and history as a stack, and where pointers and labels may go. */
module CatalogStack {
  import opened Options
  import opened AuditEvidence
  import opened CatalogModel
  import opened CatalogInvariant
  import opened CatalogRuns

  /** The pointer on top of the history. */
  function StackAt(s: State, k: Key): seq<Pub> {
    (if k in s.active then [s.active[k]] else []) + HistoryAt(s, k)
  }

  /** The stack with a record pushed on it. */
  function Pushed(s: State, k: Key, p: Pub): seq<Pub> { [p.(state := Active)] + StackAt(s, k) }

  lemma RecordKeepsStack(s: State, e: Option<Entry>, done: Outcome, k: Key)
    ensures StackAt(Record(s, e, done).state, k) == StackAt(s, k)
    ensures Record(s, e, done).state.pubs == s.pubs
    ensures Record(s, e, done).outcome == done || Record(s, e, done).outcome.Raised?
  {
  }

  /** An activation pushes the record when it is accepted, and otherwise changes
      nothing unless it raises. */
  ghost predicate Pushes(s: State, k: Key, p: Pub, r: Step) {
    match r.outcome
    case Activated(b) => b == p.bundle && !p.state.Retired? && StackAt(r.state, k) == Pushed(s, k, p)
    case Raised => r.state == s || (!p.state.Retired? && StackAt(r.state, k) == Pushed(s, k, p))
    case Failed(_) => r.state == s
    case _ => false
  }

  lemma ActivatePushes(s: State, k: Key, p: Pub, gate: Gate, q: Request)
    ensures Pushes(s, k, p, ActivateRecord(s, k, p, gate, q))
  {
    var s1 := PointTo(s, k, p);
    PointToShape(s, k, p);
    assert StackAt(s1, k) == Pushed(s, k, p);
    RecordKeepsStack(s1, PointerEntry(s, k, p, PriorOf(s, k), q), Activated(p.bundle), k);
  }

  /** A rollback pops when it is accepted, and the record it returns to is not
      retired at that moment. */
  ghost predicate Pops(s: State, k: Key, r: Step) {
    var st, st' := StackAt(s, k), StackAt(r.state, k);
    match r.outcome
    case RolledBack(b) => |st| > 1 && st' == st[1..] && st'[0].bundle == b && LiveAt(s, k, st[1])
    case Raised => r.state == s || (|st| > 1 && st' == st[1..] && LiveAt(s, k, st[1]))
    case Failed(_) => r.state == s
    case _ => false
  }

  /** The record that a copy stands for is published and not retired. */
  ghost predicate LiveAt(s: State, k: Key, c: Pub) {
    exists i :: 0 <= i < |PubsAt(s, k)| && Fp(PubsAt(s, k)[i]) == Fp(c) && !PubsAt(s, k)[i].state.Retired?
  }

  lemma HistoryTopActive(s: State, k: Key)
    requires Inv(s) && HistoryAt(s, k) != []
    ensures HistoryAt(s, k)[0].state.Active?
  {
    assert KeyInv(PubsAt(s, k), ActiveAt(s, k), HistoryAt(s, k), k.bundleId);
    assert Remembered(PubsAt(s, k), HistoryAt(s, k)[0]);
  }

  lemma PopToStack(s: State, k: Key)
    requires Inv(s) && k in s.active && HistoryAt(s, k) != []
    ensures |StackAt(s, k)| > 1 && StackAt(PopTo(s, k), k) == StackAt(s, k)[1..]
    ensures StackAt(s, k)[1] == HistoryAt(s, k)[0]
  {
    HistoryTopActive(s, k);
    var h := HistoryAt(s, k);
    assert h[0].(state := Active) == h[0];
    PopToShape(s, k);
    var s1 := PopTo(s, k);
    assert k in s1.active && s1.active[k] == h[0];
    assert StackAt(s1, k) == [h[0]] + h[1..] == h == StackAt(s, k)[1..];
  }

  lemma RollbackToLive(s: State, k: Key)
    requires RollbackTargetLive(s, k)
    ensures LiveAt(s, k, HistoryAt(s, k)[0])
  {
  }

  lemma RollbackPops(s: State, k: Key, gate: Gate, q: Request)
    requires Inv(s)
    ensures Pops(s, k, CatalogModel.Rollback(s, k, gate, q))
  {
    RollbackShape(s, k, gate, q);
    if RollbackPermitted(s, k, gate, q) {
      var h := HistoryAt(s, k);
      PopToStack(s, k);
      RollbackToLive(s, k);
      PoppedAndRecorded(s, k, PopTo(s, k), RollbackEntry(s, k, h[0], q), h[0].bundle);
    }
  }

  lemma PoppedAndRecorded(s: State, k: Key, s1: State, e: Option<Entry>, b: Bundle)
    requires |StackAt(s, k)| > 1 && StackAt(s1, k) == StackAt(s, k)[1..] && StackAt(s, k)[1].bundle == b
    requires LiveAt(s, k, StackAt(s, k)[1])
    ensures Pops(s, k, Record(s1, e, RolledBack(b)))
  {
    RecordKeepsStack(s1, e, RolledBack(b), k);
  }

  /** What an operation may do to the stack of its key. */
  ghost predicate StackStep(s: State, op: Op, r: Step) {
    var k := KeyOf(op);
    var ps := PubsAt(s, k);
    match op
    case ActivateOp(_, version, _, _) =>
      || (r.state == s && r.outcome.Failed?)
      || exists i :: 0 <= i < |ps| && ps[i].bundle.version == version && Pushes(s, k, ps[i], r)
    case ActivateFingerprintOp(_, fp, _, _) =>
      || (r.state == s && r.outcome.Failed?)
      || exists i :: 0 <= i < |ps| && Fp(ps[i]) == fp && Pushes(s, k, ps[i], r)
    case RollbackOp(_, _, _) => Pops(s, k, r)
    case RollbackToOp(_, fp, _, _) =>
      || (r.state == s && (r.outcome.Failed? || PriorOf(s, k) == Some(fp)))
      || (PriorOf(s, k) != Some(fp)
          && exists i :: 0 <= i < |ps| && Fp(ps[i]) == fp && Pushes(s, k, ps[i], AsActivation(r)))
    case _ => StackAt(r.state, k) == StackAt(s, k) && ActiveAt(r.state, k) == ActiveAt(s, k)
  }

  function AsActivation(r: Step): Step {
    if r.outcome.RolledBack? then r.(outcome := Activated(r.outcome.bundle)) else r
  }

  lemma RollbackToPushes(s: State, k: Key, fp: string, gate: Gate, q: Request)
    requires PriorOf(s, k) != Some(fp)
    ensures var r := RollbackTo(s, k, fp, gate, q); var ps := PubsAt(s, k);
      || (r.state == s && r.outcome.Failed?)
      || exists i :: 0 <= i < |ps| && Fp(ps[i]) == fp && Pushes(s, k, ps[i], AsActivation(r))
  {
    var r, ps := RollbackTo(s, k, fp, gate, q), PubsAt(s, k);
    var i := FindFingerprint(ps, fp);
    if i < |ps| && k in s.active {
      var done := ActivateRecord(s, k, ps[i], gate, q.(kind := EventKind.Rollback));
      ActivatePushes(s, k, ps[i], gate, q.(kind := EventKind.Rollback));
      assert AsActivation(r) == done;
      assert Fp(ps[i]) == fp && Pushes(s, k, ps[i], AsActivation(r));
    }
  }

  lemma OtherOpsKeepStack(s: State, op: Op)
    requires op.PublishOp? || op.DeprecateOp? || op.RetireOp? || op.RecordOp?
    ensures var s' := Apply(s, op).state; s'.active == s.active && s'.history == s.history
  {
    if op.PublishOp? {
      PublishKeepsPointers(s, op.tenant, op.bundle, op.records, op.gate, op.now);
    }
  }

  lemma PublishKeepsPointers(s: State, tenant: Option<string>, b: Bundle, r: Records, gate: Gate, now: int)
    ensures var s' := Publish(s, tenant, b, r, gate, now).state; s'.active == s.active && s'.history == s.history
  {
  }

  /** Pointer and history refine a stack: activation and rollback to another
      fingerprint push, rollback pops, everything else leaves it alone. */
  lemma StackRefined(s: State, op: Op)
    requires Inv(s)
    ensures StackStep(s, op, Apply(s, op))
  {
    var r, k := Apply(s, op), KeyOf(op);
    var ps := PubsAt(s, k);
    match op
    case ActivateOp(_, version, gate, q) =>
      var i := FindVersion(ps, version);
      if i < |ps| { ActivatePushes(s, k, ps[i], gate, q.(kind := Activation)); }
    case ActivateFingerprintOp(_, fp, gate, q) =>
      var i := FindFingerprint(ps, fp);
      if i < |ps| { ActivatePushes(s, k, ps[i], gate, q.(kind := Activation)); }
    case RollbackOp(_, gate, q) => RollbackPops(s, k, gate, q);
    case RollbackToOp(_, fp, gate, q) =>
      if PriorOf(s, k) != Some(fp) { RollbackToPushes(s, k, fp, gate, q); }
    case PublishOp(_, _, _, _, _) => OtherOpsKeepStack(s, op);
    case DeprecateOp(_, _) => OtherOpsKeepStack(s, op);
    case RetireOp(_, _) => OtherOpsKeepStack(s, op);
    case RecordOp(_, _) => OtherOpsKeepStack(s, op);
  }

  lemma SplitStack(s: State, s': State, k: Key)
    requires Inv(s) && Inv(s') && StackAt(s, k) == StackAt(s', k)
    ensures ActiveAt(s, k) == ActiveAt(s', k) && HistoryAt(s, k) == HistoryAt(s', k)
  {
    assert KeyInv(PubsAt(s, k), ActiveAt(s, k), HistoryAt(s, k), k.bundleId);
    assert KeyInv(PubsAt(s', k), ActiveAt(s', k), HistoryAt(s', k), k.bundleId);
    if k in s.active && k in s'.active {
      assert s.active[k] == StackAt(s, k)[0] == StackAt(s', k)[0] == s'.active[k];
      assert HistoryAt(s, k) == StackAt(s, k)[1..] == HistoryAt(s', k);
    }
  }

  /** An accepted rollback right after an accepted activation restores the pointer
      and the history exactly. */
  lemma RollbackUndoesActivation(s: State, op: Op, gate: Gate, q: Request)
    requires Inv(s) && (op.ActivateOp? || op.ActivateFingerprintOp?) && Apply(s, op).outcome.Activated?
    requires CatalogModel.Rollback(Apply(s, op).state, KeyOf(op), gate, q).outcome.RolledBack?
    ensures var s2 := CatalogModel.Rollback(Apply(s, op).state, KeyOf(op), gate, q).state;
      forall k :: ActiveAt(s2, k) == ActiveAt(s, k) && HistoryAt(s2, k) == HistoryAt(s, k)
  {
    var s1, k := Apply(s, op).state, KeyOf(op);
    var s2 := CatalogModel.Rollback(s1, k, gate, q).state;
    StackRefined(s, op);
    ApplyKeeps(s, op);
    RollbackPops(s1, k, gate, q);
    RollbackKeeps(s1, k, gate, q, s2);
    assert StackAt(s2, k) == StackAt(s1, k)[1..] == StackAt(s, k);
    SplitStack(s2, s, k);
    forall k' | k' != k ensures ActiveAt(s2, k') == ActiveAt(s, k') && HistoryAt(s2, k') == HistoryAt(s, k') {
      assert ActiveAt(s1, k') == ActiveAt(s, k') && HistoryAt(s1, k') == HistoryAt(s, k');
    }
  }

  lemma OthersKeepPointer(s: State, op: Op, k: Key)
    requires Inv(s)
    ensures k != KeyOf(op) ==> PriorOf(Apply(s, op).state, k) == PriorOf(s, k)
  {
    ApplyKeeps(s, op);
    assert k != KeyOf(op) ==> ActiveAt(Apply(s, op).state, k) == ActiveAt(s, k);
  }

  lemma TopIsPushed(s: State, k: Key, i: nat, r: Step)
    requires Inv(r.state) && r.state != s && i < |PubsAt(s, k)| && Pushes(s, k, PubsAt(s, k)[i], r)
    ensures k in r.state.active && LiveAt(s, k, r.state.active[k])
  {
    var s' := r.state;
    assert StackAt(s', k)[0] == PubsAt(s, k)[i].(state := Active);
    assert KeyInv(PubsAt(s', k), ActiveAt(s', k), HistoryAt(s', k), k.bundleId);
  }

  lemma TopIsPopped(s: State, k: Key, r: Step)
    requires Inv(r.state) && r.state != s && Pops(s, k, r)
    ensures k in r.state.active && LiveAt(s, k, r.state.active[k])
  {
    var s' := r.state;
    assert StackAt(s', k)[0] == StackAt(s, k)[1];
    assert KeyInv(PubsAt(s', k), ActiveAt(s', k), HistoryAt(s', k), k.bundleId);
  }

  /** No operation moves a pointer to a record that is retired at that moment. */
  lemma PointerMovesToLive(s: State, op: Op, k: Key)
    requires Inv(s) && PriorOf(Apply(s, op).state, k) != PriorOf(s, k)
    ensures var s' := Apply(s, op).state; k in s'.active && LiveAt(s, k, s'.active[k])
  {
    var r := Apply(s, op);
    var ps := PubsAt(s, k);
    OthersKeepPointer(s, op, k);
    ApplyKeeps(s, op);
    StackRefined(s, op);
    if op.RollbackOp? {
      TopIsPopped(s, k, r);
    } else if op.RollbackToOp? {
      var i: nat :| i < |ps| && Pushes(s, k, ps[i], AsActivation(r));
      TopIsPushed(s, k, i, AsActivation(r));
    } else {
      var i: nat :| i < |ps| && Pushes(s, k, ps[i], r);
      TopIsPushed(s, k, i, r);
    }
  }
}
