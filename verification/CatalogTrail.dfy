/** Reading the audit trail while the catalog is at work. */
module CatalogTrail {
  import opened Options
  import opened Ordering
  import opened AuditEvidence
  import opened AuditPaging
  import opened CatalogModel
  import opened CatalogInvariant
  import opened CatalogRuns
  import opened CatalogMoves
  import opened CatalogAudit

  /** The entries of a store all come from an earlier store or from new entries. */
  ghost predicate ComeFrom(audit': seq<Entry>, audit: seq<Entry>, es: seq<Entry>) {
    forall f :: f in audit' ==> f in audit || f in es
  }

  lemma AppendFrom(audit: seq<Entry>, live: set<string>, e: Entry)
    requires AppendEntry(audit, live, e).Kept?
    ensures ComeFrom(AppendEntry(audit, live, e).audit, audit, [e])
    ensures (exists g :: g in audit && g.eventId == e.eventId) ==> AppendEntry(audit, live, e).audit == audit
  {
    var audit' := AppendEntry(audit, live, e).audit;
    if FindEvent(audit, e.eventId) == |audit| {
      forall f | f in audit' ensures f in audit || f in [e] {
        TrimProtects(audit + [e], live, AUDIT_STORE_LIMIT, f);
      }
    }
  }

  /** An entry found under the id of an earlier one is that one. */
  ghost predicate Faithful(audit: seq<Entry>, audit': seq<Entry>) {
    forall e, f :: e in audit && f in audit' && e.eventId == f.eventId ==> e == f
  }

  lemma OwnFaithful(audit: seq<Entry>)
    requires UniqueIds(audit)
    ensures Faithful(audit, audit)
  {
    forall e, f | e in audit && f in audit && e.eventId == f.eventId ensures e == f {
      var i :| 0 <= i < |audit| && audit[i] == e;
      var j :| 0 <= j < |audit| && audit[j] == f;
    }
  }

  lemma RecordFaithful(s: State, e: Option<Entry>, done: Outcome)
    requires UniqueIds(s.audit)
    ensures Faithful(s.audit, Record(s, e, done).state.audit)
  {
    OwnFaithful(s.audit);
    if e.Some? && AppendEntry(s.audit, LiveFingerprints(s.pubs), e.value).Kept? {
      AppendFrom(s.audit, LiveFingerprints(s.pubs), e.value);
    }
  }

  /** An id of the store that is dropped while a batch of entries is recorded is not
      appended again by the same batch, unless as the same entry. */
  ghost predicate KeepsInBatch(audit: seq<Entry>, live: set<string>, es: seq<Entry>) {
    forall f, i :: f in audit && 0 <= i < |es| && f.eventId == es[i].eventId ==>
      f == es[i] || HasId(StoreBefore(audit, live, es, i), f.eventId)
  }

  predicate HasId(audit: seq<Entry>, id: string) { exists i :: 0 <= i < |audit| && audit[i].eventId == id }

  ghost predicate BatchKeeps(s: State, op: Op) {
    op.RecordOp? ==> KeepsInBatch(s.audit, LiveFingerprints(s.pubs), Entries(op.offers))
  }

  /** One entry alone needs no condition. */
  lemma SingleOffer(s: State, op: Op)
    requires op.RecordOp? ==> |op.offers| <= 1
    ensures BatchKeeps(s, op)
  {
    if op.RecordOp? {
      var es, live := Entries(op.offers), LiveFingerprints(s.pubs);
      forall f, i | f in s.audit && 0 <= i < |es| && f.eventId == es[i].eventId
        ensures HasId(StoreBefore(s.audit, live, es, i), f.eventId)
      {
        assert StoreBefore(s.audit, live, es, 0) == s.audit;
        var j :| 0 <= j < |s.audit| && s.audit[j] == f;
      }
    }
  }

  /** Appending keeps the entries under known ids, when it meets those ids. */
  lemma AppendFaithful(audit: seq<Entry>, now: seq<Entry>, live: set<string>, e: Entry)
    requires Faithful(audit, now) && AppendEntry(now, live, e).Kept?
    requires forall f :: f in audit && f.eventId == e.eventId ==> f == e || HasId(now, f.eventId)
    ensures Faithful(audit, AppendEntry(now, live, e).audit)
  {
    AppendFrom(now, live, e);
    if HasId(now, e.eventId) {
      var i :| 0 <= i < |now| && now[i].eventId == e.eventId;
      assert now[i] in now;
    }
  }

  lemma {:induction false} BatchFaithful(audit: seq<Entry>, live: set<string>, es: seq<Entry>, n: nat)
    requires UniqueIds(audit) && KeepsInBatch(audit, live, es) && n <= |es|
    ensures Faithful(audit, StoreBefore(audit, live, es, n))
    decreases n
  {
    if n == 0 {
      OwnFaithful(audit);
      assert StoreBefore(audit, live, es, 0) == audit;
    } else {
      BatchFaithful(audit, live, es, n - 1);
      AppendLast(audit, live, es[..n - 1], es[n - 1]);
      assert es[..n - 1] + [es[n - 1]] == es[..n];
      var now := StoreBefore(audit, live, es, n - 1);
      if AppendEntry(now, live, es[n - 1]).Kept? { AppendFaithful(audit, now, live, es[n - 1]); }
    }
  }

  /** The last of some entries meets what the others have left; after a conflict none is
      appended. */
  lemma {:induction false} AppendLast(audit: seq<Entry>, live: set<string>, es: seq<Entry>, e: Entry)
    ensures var (now, conflict) := AppendAll(audit, live, es);
      AppendAll(audit, live, es + [e]).0
      == if conflict || AppendEntry(now, live, e).Conflict? then now else AppendEntry(now, live, e).audit
    decreases |es|
  {
    if es == [] {
      assert [] + [e] == [e] && [e][1..] == [];
    } else {
      assert (es + [e])[0] == es[0] && (es + [e])[1..] == es[1..] + [e];
      match AppendEntry(audit, live, es[0])
      case Conflict =>
      case Kept(more) => AppendLast(more, live, es[1..], e);
    }
  }

  /** No operation alters an entry in place, whatever entries are offered again or
      conflict; recording a batch could only drop an id and append it anew. */
  lemma StepFaithful(s: State, op: Op)
    requires UniqueIds(s.audit) && BatchKeeps(s, op)
    ensures Faithful(s.audit, Apply(s, op).state.audit)
  {
    OwnFaithful(s.audit);
    if Target(s, op).Some? {
      TargetPerforms(s, op);
      MovedShape(s, op);
      RecordFaithful(Moved(s, op), MoveEntry(s, op), Activated(Target(s, op).value.bundle));
    } else if PointerOp(op) {
      NoTargetNoChange(s, op);
    } else if op.PublishOp? {
      PublishShape(s, op);
      RecordFaithful(WithPubs(s, KeyOf(op), Extend(PubsAt(s, KeyOf(op)), op.bundle, op.records)), PublishedEntry(s, op), Published(op.bundle));
    } else if op.RecordOp? {
      OffersFaithful(s, op);
    }
  }

  lemma OffersFaithful(s: State, op: Op)
    requires UniqueIds(s.audit) && op.RecordOp? && BatchKeeps(s, op)
    ensures Faithful(s.audit, Apply(s, op).state.audit)
  {
    var es := Entries(op.offers);
    OwnFaithful(s.audit);
    BatchFaithful(s.audit, LiveFingerprints(s.pubs), es, |es|);
    assert es[..|es|] == es;
  }

  // ---- over a run ----

  function StoreAt(s: State, ops: seq<Op>, n: nat): seq<Entry>
    requires n <= |ops|
  {
    Run(s, ops[..n]).audit
  }

  /** No id that was dropped from the store is recorded again. */
  ghost predicate NeverAgain(s: State, ops: seq<Op>) {
    forall i: nat, n: nat, j: nat, id ::
      i <= n <= j <= |ops| && HasId(StoreAt(s, ops, i), id) && HasId(StoreAt(s, ops, j), id) ==> HasId(StoreAt(s, ops, n), id)
  }

  ghost predicate BatchesKeep(s: State, ops: seq<Op>) {
    forall n: nat :: n < |ops| ==> BatchKeeps(Run(s, ops[..n]), ops[n])
  }

  lemma StoreUnique(s: State, ops: seq<Op>, n: nat)
    requires Inv(s) && n <= |ops|
    ensures UniqueIds(StoreAt(s, ops, n))
  {
    RunKeeps(s, ops[..n]);
  }

  lemma StoreStep(s: State, ops: seq<Op>, n: nat)
    requires Inv(s) && n < |ops| && BatchKeeps(Run(s, ops[..n]), ops[n])
    ensures Faithful(StoreAt(s, ops, n), StoreAt(s, ops, n + 1))
  {
    StoreUnique(s, ops, n);
    RunThen(s, ops[..n], ops[n]);
    assert ops[..n] + [ops[n]] == ops[..n + 1];
    StepFaithful(Run(s, ops[..n]), ops[n]);
  }

  /** An entry keeps its content as long as its id stays in the store. */
  lemma {:induction false} StoresFaithful(s: State, ops: seq<Op>, i: nat, j: nat)
    requires Inv(s) && i <= j <= |ops| && NeverAgain(s, ops) && BatchesKeep(s, ops)
    ensures Faithful(StoreAt(s, ops, i), StoreAt(s, ops, j))
    decreases j - i
  {
    StoreUnique(s, ops, i);
    OwnFaithful(StoreAt(s, ops, i));
    if i < j {
      StoresFaithful(s, ops, i, j - 1);
      StoreStep(s, ops, j - 1);
      StillThere(s, ops, i, j);
    }
  }

  lemma StillThere(s: State, ops: seq<Op>, i: nat, j: nat)
    requires i < j <= |ops| && NeverAgain(s, ops)
    requires Faithful(StoreAt(s, ops, i), StoreAt(s, ops, j - 1)) && Faithful(StoreAt(s, ops, j - 1), StoreAt(s, ops, j))
    ensures Faithful(StoreAt(s, ops, i), StoreAt(s, ops, j))
  {
    var a, b, c := StoreAt(s, ops, i), StoreAt(s, ops, j - 1), StoreAt(s, ops, j);
    forall e, f | e in a && f in c && e.eventId == f.eventId ensures e == f {
      assert HasId(a, e.eventId) && HasId(c, e.eventId);
      assert HasId(b, e.eventId);
      var n :| 0 <= n < |b| && b[n].eventId == e.eventId;
      assert b[n] in b;
    }
  }

  /** Logs that requests select from the stores of a run, at any points of it. */
  ghost predicate Selected(s: State, ops: seq<Op>, logs: seq<seq<Entry>>, at: seq<nat>) {
    && |at| == |logs|
    && (forall i :: 0 <= i < |at| ==> at[i] <= |ops| && UniqueIds(logs[i]))
    && (forall i, e :: 0 <= i < |at| && e in logs[i] ==> e in StoreAt(s, ops, at[i]))
  }

  /** Where no dropped id is recorded again, a run of the catalog never changes an entry,
      so what requests select from its stores is immutable.  An entry that was trimmed
      and is recorded again carries a new time. */
  lemma RunStoresAreImmutable(s: State, ops: seq<Op>, logs: seq<seq<Entry>>, at: seq<nat>)
    requires Inv(s) && NeverAgain(s, ops) && BatchesKeep(s, ops) && Selected(s, ops, logs, at)
    ensures Immutable(logs)
  {
    forall i, j, e, f | 0 <= i < |logs| && 0 <= j < |logs| && e in logs[i] && f in logs[j] && e.eventId == f.eventId
      ensures e == f
    {
      if at[i] <= at[j] { StoresFaithful(s, ops, at[i], at[j]); } else { StoresFaithful(s, ops, at[j], at[i]); }
    }
  }

  /** Reading the trail during any run of the catalog: onward exactly with safe cursors,
      and then exactly what no request skipped of the entries present throughout; where
      no dropped id is recorded again, nothing is skipped. */
  lemma PagingDuringRun(s: State, ops: seq<Op>, logs: seq<seq<Entry>>, at: seq<nat>, limits: seq<Positive>)
    requires Inv(s) && Selected(s, ops, logs, at) && |limits| == |logs|
    requires forall i :: 0 <= i < |limits| ==> LegalLimit(limits[i])
    ensures StrictlySortedBy(FollowTrail(logs, limits, None), EntryKey) <==> CursorsSafe(Requests(logs, limits), None)
    ensures CursorsSafe(Requests(logs, limits), None) && Finished(Requests(logs, limits), None) ==>
      forall e :: PresentThroughout(logs, e) ==>
        && (e in FollowTrail(logs, limits, None) <==> NeverSkipped(Requests(logs, limits), None, e))
        && (NeverAgain(s, ops) && BatchesKeep(s, ops) ==> e in FollowTrail(logs, limits, None))
  {
    PagingIsExact(logs, limits);
    if CursorsSafe(Requests(logs, limits), None) && Finished(Requests(logs, limits), None) && NeverAgain(s, ops) && BatchesKeep(s, ops) {
      RunStoresAreImmutable(s, ops, logs, at);
      forall e | PresentThroughout(logs, e) ensures e in FollowTrail(logs, limits, None) { PagingIsComplete(logs, limits, e); }
    }
  }
}
