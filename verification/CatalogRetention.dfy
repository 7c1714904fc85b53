/** How large the audit store is over operations and runs of the catalog. */
module CatalogRetention {
  import opened Options
  import opened AuditEvidence
  import opened CatalogModel
  import opened CatalogInvariant
  import opened CatalogRuns
  import opened CatalogMoves

  /** Within the limit, or nothing left to drop. */
  ghost predicate Tight(audit: seq<Entry>, live: set<string>) {
    |audit| <= AUDIT_STORE_LIMIT || forall e :: e in audit ==> !Droppable(e, live, ProtectedIds(audit, live))
  }

  ghost predicate TightStore(s: State) { Tight(s.audit, LiveFingerprints(s.pubs)) }

  /** The size is then at most the larger of the limit and the protected entries. */
  lemma TightIff(audit: seq<Entry>, live: set<string>)
    ensures var kept := Undroppable(audit, live, ProtectedIds(audit, live));
      Tight(audit, live) <==> |audit| <= AUDIT_STORE_LIMIT || |audit| == kept
  {
    AllUndroppable(audit, live, ProtectedIds(audit, live));
  }

  lemma {:induction false} AllUndroppable(audit: seq<Entry>, live: set<string>, ids: set<string>)
    ensures Undroppable(audit, live, ids) <= |audit|
    ensures Undroppable(audit, live, ids) == |audit| <==> forall e :: e in audit ==> !Droppable(e, live, ids)
  {
    if audit != [] {
      AllUndroppable(audit[1..], live, ids);
      assert audit == [audit[0]] + audit[1..];
    }
  }

  // ---- trimming ----

  /** Filed entries are never dropped, so what they protect stays the same. */
  lemma {:induction false} RetainProtects(store: seq<Entry>, live: set<string>, ids: set<string>, overflow: int)
    ensures ProtectedIds(Retain(store, live, ids, overflow), live) == ProtectedIds(store, live)
  {
    if store != [] {
      var rest := store[1..];
      RetainProtects(rest, live, ids, overflow);
      RetainProtects(rest, live, ids, overflow - 1);
      if !(overflow > 0 && Droppable(store[0], live, ids)) {
        assert Retain(store, live, ids, overflow)[1..] == Retain(rest, live, ids, overflow);
      }
    }
  }

  /** When more is left than should be, nothing that is left can be dropped. */
  lemma {:induction false} RetainExhausts(store: seq<Entry>, live: set<string>, ids: set<string>, overflow: nat, e: Entry)
    requires |Retain(store, live, ids, overflow)| > |store| - overflow && e in Retain(store, live, ids, overflow)
    ensures !Droppable(e, live, ids)
  {
    var rest := store[1..];
    if overflow > 0 && Droppable(store[0], live, ids) {
      RetainExhausts(rest, live, ids, overflow - 1, e);
    } else {
      RetainSize(store, live, ids, overflow);
      RetainNone(store, live, ids);
      if e in Retain(rest, live, ids, overflow) { RetainExhausts(rest, live, ids, overflow, e); }
    }
  }

  lemma TrimIsTight(store: seq<Entry>, live: set<string>)
    ensures Tight(Trim(store, live, AUDIT_STORE_LIMIT), live)
  {
    var kept, ids := Trim(store, live, AUDIT_STORE_LIMIT), ProtectedIds(store, live);
    if |store| > AUDIT_STORE_LIMIT {
      var overflow := |store| - AUDIT_STORE_LIMIT;
      RetainProtects(store, live, ids, overflow);
      if |kept| > AUDIT_STORE_LIMIT {
        forall e | e in kept ensures !Droppable(e, live, ids) { RetainExhausts(store, live, ids, overflow, e); }
      }
    }
  }

  /** One more entry: the exact size of the store. */
  lemma AppendSize(audit: seq<Entry>, live: set<string>, e: Entry)
    requires FindEvent(audit, e.eventId) == |audit|
    ensures AppendEntry(audit, live, e).Kept?
    ensures var all := audit + [e];
      var kept := Undroppable(all, live, ProtectedIds(all, live));
      |AppendEntry(audit, live, e).audit|
      == if |all| <= AUDIT_STORE_LIMIT then |all| else if kept > AUDIT_STORE_LIMIT then kept else AUDIT_STORE_LIMIT
  {
    TrimIsBounded(audit + [e], live, AUDIT_STORE_LIMIT);
  }

  /** The live fingerprints are those of the records of any scope that are not retired. */
  lemma LiveIff(pubs: map<Key, seq<Pub>>, fp: string)
    ensures fp in LiveFingerprints(pubs)
       <==> exists k, i :: k in pubs && 0 <= i < |pubs[k]| && pubs[k][i].bundle.fingerprint == fp && pubs[k][i].state != Retired
  {
  }

  /** A new entry goes to the end, and the oldest unprotected entries make room for it. */
  lemma AppendedAtEnd(audit: seq<Entry>, live: set<string>, e: Entry) returns (n: nat)
    requires FindEvent(audit, e.eventId) == |audit|
    ensures n <= |audit| + 1 && (|audit| < 4096 ==> n == 0)
    ensures var all := audit + [e];
      AppendEntry(audit, live, e) == Kept(Spared(all[..n], live, ProtectedIds(all, live)) + all[n..])
  {
    n := TrimDropsOldest(audit + [e], live, AUDIT_STORE_LIMIT);
  }

  /** Host entries under new ids are stored behind the others in the order given, where
      the store has room for them. */
  lemma {:induction false} HostEntriesStored(audit: seq<Entry>, live: set<string>, es: seq<Entry>)
    requires UniqueIds(audit + es) && |audit| + |es| <= 4096
    ensures AppendAll(audit, live, es) == (audit + es, false)
    decreases |es|
  {
    if es != [] {
      var more := audit + [es[0]];
      assert more + es[1..] == audit + es;
      assert forall i :: 0 <= i < |audit| ==> (audit + es)[i] == audit[i] && (audit + es)[|audit|] == es[0];
      assert FindEvent(audit, es[0].eventId) == |audit|;
      HostEntriesStored(more, live, es[1..]);
    } else {
      assert audit + es == audit;
    }
  }

  /** A conflict stops the recording: what came before it is stored, and it conflicts
      with that. */
  lemma {:induction false} ConflictStops(audit: seq<Entry>, live: set<string>, es: seq<Entry>) returns (n: nat)
    requires AppendAll(audit, live, es).1
    ensures n < |es|
    ensures var before := AppendAll(audit, live, es[..n]);
      && before == (AppendAll(audit, live, es).0, false)
      && (exists i :: 0 <= i < |before.0| && before.0[i].eventId == es[n].eventId && !SameFacts(before.0[i], es[n]))
    decreases |es|
  {
    if AppendEntry(audit, live, es[0]).Conflict? {
      assert es[..0] == [];
      assert audit[FindEvent(audit, es[0].eventId)].eventId == es[0].eventId;
      return 0;
    }
    var more := AppendEntry(audit, live, es[0]).audit;
    var m := ConflictStops(more, live, es[1..]);
    n := m + 1;
    assert es[..n][0] == es[0] && es[..n][1..] == es[1..][..m];
  }

  // ---- operations ----

  lemma AppendIsTight(audit: seq<Entry>, live: set<string>, e: Entry)
    requires AppendEntry(audit, live, e).Kept?
    ensures AppendEntry(audit, live, e).audit == audit || Tight(AppendEntry(audit, live, e).audit, live)
  {
    TrimIsTight(audit + [e], live);
  }

  lemma {:induction false} AppendAllIsTight(audit: seq<Entry>, live: set<string>, es: seq<Entry>)
    ensures AppendAll(audit, live, es).0 == audit || Tight(AppendAll(audit, live, es).0, live)
    decreases |es|
  {
    if es != [] && AppendEntry(audit, live, es[0]).Kept? {
      AppendIsTight(audit, live, es[0]);
      AppendAllIsTight(AppendEntry(audit, live, es[0]).audit, live, es[1..]);
    }
  }

  lemma RecordIsTight(s: State, e: Option<Entry>, done: Outcome)
    ensures var s' := Record(s, e, done).state; s'.pubs == s.pubs && (s'.audit == s.audit || TightStore(s'))
  {
    if e.Some? && AppendEntry(s.audit, LiveFingerprints(s.pubs), e.value).Kept? {
      AppendIsTight(s.audit, LiveFingerprints(s.pubs), e.value);
    }
  }

  /** Whenever an operation changes the store, it leaves it within its bound: at most the
      larger of the limit and the entries that are protected then. */
  lemma ChangedStoreIsTight(s: State, op: Op)
    ensures Apply(s, op).state.audit == s.audit || TightStore(Apply(s, op).state)
  {
    if Target(s, op).Some? {
      TargetPerforms(s, op);
      MovedShape(s, op);
      RecordIsTight(Moved(s, op), MoveEntry(s, op), Activated(Target(s, op).value.bundle));
    } else if PointerOp(op) {
      NoTargetNoChange(s, op);
    } else if op.PublishOp? {
      PublishShape(s, op);
      RecordIsTight(WithPubs(s, KeyOf(op), Extend(PubsAt(s, KeyOf(op)), op.bundle, op.records)), PublishedEntry(s, op), Published(op.bundle));
    } else if op.RecordOp? {
      AppendAllIsTight(s.audit, LiveFingerprints(s.pubs), Entries(op.offers));
    }
  }

  /** The store was within its bound when it last changed. */
  ghost predicate TightSince(s: State, ops: seq<Op>, m: nat) {
    m <= |ops| && TightStore(Run(s, ops[..m])) && Run(s, ops[..m]).audit == Run(s, ops).audit
  }

  /** Over every run the store is as an operation left it that kept it within its bound. */
  lemma {:induction false} RunStoreIsBounded(s: State, ops: seq<Op>)
    requires TightStore(s)
    ensures exists m: nat :: TightSince(s, ops, m)
    decreases |ops|
  {
    if ops == [] {
      assert ops[..0] == ops;
      assert TightSince(s, ops, 0);
    } else {
      var n, front := |ops| - 1, ops[..|ops| - 1];
      RunThen(s, front, ops[n]);
      assert front + [ops[n]] == ops && ops[..n + 1] == ops;
      ChangedStoreIsTight(Run(s, front), ops[n]);
      if TightStore(Run(s, ops)) {
        assert TightSince(s, ops, n + 1);
      } else {
        RunStoreIsBounded(s, front);
        var m: nat :| TightSince(s, front, m);
        assert ops[..m] == front[..m];
        assert TightSince(s, ops, m);
      }
    }
  }

  /** The empty catalog starts within the bound. */
  lemma ReachableStoreIsBounded(ops: seq<Op>)
    ensures exists m: nat :: TightSince(INITIAL, ops, m)
  {
    RunStoreIsBounded(INITIAL, ops);
  }

  /** A retirement drops nothing: above the limit it can leave entries that no live
      publication protects any more, until the next entry is appended. */
  lemma RetirementWaits(s: State, k: Key, fp: string, e: Entry)
    requires |s.audit| > AUDIT_STORE_LIMIT && e in s.audit && e.bundle == Some(fp)
    requires var live := LiveFingerprints(Apply(s, RetireOp(k, fp)).state.pubs);
      fp !in live && e.eventId !in ProtectedIds(s.audit, live)
    ensures var s' := Apply(s, RetireOp(k, fp)).state; s'.audit == s.audit && !TightStore(s')
  {
  }
}
