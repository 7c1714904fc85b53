/** Clients that share the store without locks: each reads a draft, applies one
    lifecycle operation to what it read, and offers the result. */
module DraftProtocol {
  import opened Options
  import opened AssemblyDraft
  import opened DraftStore
  import Lifecycle = AssemblyLifecycle

  type Client = nat

  /** What a client has read, and where. */
  datatype Held = Held(key: DraftKey, draft: Draft)

  /** One successful replacement. */
  datatype Win = Win(key: DraftKey, client: Client, op: Lifecycle.Op, before: Draft, after: Draft)

  datatype System = System(
    drafts: Drafts, created: map<DraftKey, Draft>, held: map<Client, Held>, wins: seq<Win>)

  const START := System(map[], map[], map[], [])

  datatype Event =
    | CreateEvent(draft: Draft, tenant: string, max: nat)
    | ReadEvent(client: Client, key: DraftKey)
    | OfferEvent(client: Client, op: Lifecycle.Op)

  /** What the client makes of the draft it holds, if its operation is accepted. */
  function Proposal(s: System, c: Client, op: Lifecycle.Op): Option<Draft> {
    if c !in s.held || !Valid(s.held[c].draft) then None
    else
      match Lifecycle.Apply(s.held[c].draft, op)
      case Err(_) => None
      case Ok(d) => Some(d)
  }

  function Step(s: System, e: Event): System {
    match e
    case CreateEvent(d, tenant, max) =>
      (match Insert(s.drafts, max, d, tenant)
       case Err(_) => s
       case Ok(more) => s.(drafts := more, created := s.created[DraftKey(tenant, d.id) := d]))
    case ReadEvent(c, k) => if k in s.drafts then s.(held := s.held[c := Held(k, s.drafts[k])]) else s
    case OfferEvent(c, op) =>
      (match Proposal(s, c, op)
       case None => s
       case Some(d) =>
         var h := s.held[c];
         match CompareAndSwap(s.drafts, d, h.draft.revision, h.key.tenant)
         case Err(_) => s
         case Ok(more) => s.(drafts := more, wins := s.wins + [Win(h.key, c, op, h.draft, d)]))
  }

  /** The state after a run in which the clients' steps interleave in any order. */
  function Run(s: System, es: seq<Event>): System
    decreases |es|
  {
    if es == [] then s else Step(Run(s, es[..|es| - 1]), es[|es| - 1])
  }

  // ---- one key ----

  function WinsAt(wins: seq<Win>, k: DraftKey): seq<Win> {
    if wins == [] then []
    else
      var front := WinsAt(wins[..|wins| - 1], k);
      var last := wins[|wins| - 1];
      if last.key == k then front + [last] else front
  }

  /** Each win starts from what the previous one left, makes of it what its operation
      makes of it, and advances the revision by one. */
  predicate Chain(first: Draft, wins: seq<Win>, last: Draft)
    decreases |wins|
  {
    if wins == [] then last == first
    else
      var w := wins[|wins| - 1];
      Extends(w) && w.after == last && Chain(first, wins[..|wins| - 1], w.before)
  }

  predicate Extends(w: Win) {
    && Valid(w.before) && Lifecycle.Apply(w.before, w.op) == Ok(w.after)
    && w.after.revision == w.before.revision + 1 && w.after.id == w.before.id
  }

  lemma {:induction false} ChainLength(first: Draft, wins: seq<Win>, last: Draft)
    requires Chain(first, wins, last)
    ensures last.revision == first.revision + |wins|
    decreases |wins|
  {
    if wins != [] { ChainLength(first, wins[..|wins| - 1], wins[|wins| - 1].before); }
  }

  lemma {:induction false} ChainAt(first: Draft, wins: seq<Win>, last: Draft, i: nat)
    requires Chain(first, wins, last) && i < |wins|
    ensures Extends(wins[i]) && wins[i].before.revision == first.revision + i
    decreases |wins|
  {
    var n, front := |wins| - 1, wins[..|wins| - 1];
    if i == n {
      ChainLength(first, front, wins[n].before);
    } else {
      ChainAt(first, front, wins[n].before, i);
    }
  }

  lemma ChainRevisions(first: Draft, wins: seq<Win>, last: Draft)
    requires Chain(first, wins, last)
    ensures last.revision == first.revision + |wins|
    ensures forall i :: 0 <= i < |wins| ==> Extends(wins[i]) && wins[i].before.revision == first.revision + i
  {
    ChainLength(first, wins, last);
    forall i | 0 <= i < |wins| ensures Extends(wins[i]) && wins[i].before.revision == first.revision + i {
      ChainAt(first, wins, last, i);
    }
  }

  lemma ChainGrows(first: Draft, wins: seq<Win>, last: Draft, w: Win)
    requires Chain(first, wins, last) && Extends(w) && w.before == last
    ensures Chain(first, wins + [w], w.after)
  {
    assert (wins + [w])[..|wins|] == wins;
  }

  /** A draft that a client holds is one of the drafts of the chain. */
  ghost predicate InChain(first: Draft, wins: seq<Win>, d: Draft) {
    d == first || exists i :: 0 <= i < |wins| && wins[i].after == d
  }

  /** Equal revisions mean equal drafts within a chain. */
  lemma {:induction false} ChainUnique(first: Draft, wins: seq<Win>, last: Draft, d: Draft)
    requires Chain(first, wins, last) && InChain(first, wins, d)
    ensures d.revision <= last.revision
    ensures d.revision == last.revision ==> d == last
  {
    ChainRevisions(first, wins, last);
    if d != first {
      var i :| 0 <= i < |wins| && wins[i].after == d;
      assert Extends(wins[i]);
    }
  }

  // ---- the system ----

  ghost predicate KeyInv(s: System, k: DraftKey) {
    && (k in s.created <==> k in s.drafts)
    && (k in s.drafts ==>
          s.created[k].id == k.draftId && s.drafts[k].id == k.draftId
          && Chain(s.created[k], WinsAt(s.wins, k), s.drafts[k]))
    && (k !in s.drafts ==> WinsAt(s.wins, k) == [])
  }

  ghost predicate HeldInv(s: System, h: Held) {
    h.key in s.created && h.draft.id == h.key.draftId && InChain(s.created[h.key], WinsAt(s.wins, h.key), h.draft)
  }

  ghost predicate Inv(s: System) {
    (forall k :: KeyInv(s, k)) && (forall c :: c in s.held ==> HeldInv(s, s.held[c]))
  }

  lemma WinsGrow(wins: seq<Win>, w: Win, k: DraftKey)
    ensures WinsAt(wins + [w], k) == if w.key == k then WinsAt(wins, k) + [w] else WinsAt(wins, k)
  {
    assert (wins + [w])[..|wins|] == wins;
  }

  lemma CreateKeeps(s: System, d: Draft, tenant: string, max: nat)
    requires Inv(s)
    ensures Inv(Step(s, CreateEvent(d, tenant, max)))
  {
    var s' := Step(s, CreateEvent(d, tenant, max));
    var key := DraftKey(tenant, d.id);
    forall k ensures KeyInv(s', k) {
      assert KeyInv(s, k);
      assert KeyInv(s, key);
    }
    forall c | c in s'.held ensures HeldInv(s', s'.held[c]) {
      assert HeldInv(s, s.held[c]);
      assert KeyInv(s, key);
    }
  }

  lemma ReadKeeps(s: System, c: Client, key: DraftKey)
    requires Inv(s)
    ensures Inv(Step(s, ReadEvent(c, key)))
  {
    var s' := Step(s, ReadEvent(c, key));
    forall k ensures KeyInv(s', k) {
      assert KeyInv(s, k);
    }
    forall b | b in s'.held ensures HeldInv(s', s'.held[b]) {
      if b == c && key in s.drafts {
        assert KeyInv(s, key);
        LastInChain(s.created[key], WinsAt(s.wins, key), s.drafts[key]);
      } else {
        assert HeldInv(s, s.held[b]);
      }
    }
  }

  lemma LastInChain(first: Draft, wins: seq<Win>, last: Draft)
    requires Chain(first, wins, last)
    ensures InChain(first, wins, last)
  {
  }

  /** A successful offer extends exactly the stored draft. */
  lemma WinExtends(s: System, c: Client, op: Lifecycle.Op)
    requires Inv(s) && Step(s, OfferEvent(c, op)) != s
    ensures c in s.held && s.held[c].key in s.drafts && s.drafts[s.held[c].key] == s.held[c].draft
    ensures var h := s.held[c]; var d := Proposal(s, c, op);
      && d.Some? && Extends(Win(h.key, c, op, h.draft, d.value))
      && Step(s, OfferEvent(c, op))
         == s.(drafts := s.drafts[h.key := d.value], wins := s.wins + [Win(h.key, c, op, h.draft, d.value)])
  {
    var h, d := s.held[c], Proposal(s, c, op).value;
    assert HeldInv(s, h) && KeyInv(s, h.key);
    Lifecycle.ApplyAdvances(h.draft, op);
    assert DraftKey(h.key.tenant, d.id) == h.key;
    ChainUnique(s.created[h.key], WinsAt(s.wins, h.key), s.drafts[h.key], h.draft);
  }

  lemma OfferKeeps(s: System, c: Client, op: Lifecycle.Op)
    requires Inv(s)
    ensures Inv(Step(s, OfferEvent(c, op)))
  {
    var s' := Step(s, OfferEvent(c, op));
    if s' != s {
      WinExtends(s, c, op);
      var w := Win(s.held[c].key, c, op, s.held[c].draft, Proposal(s, c, op).value);
      WinKeeps(s, s', w);
    }
  }

  lemma WinKeeps(s: System, s': System, w: Win)
    requires Inv(s) && w.key in s.drafts && s.drafts[w.key] == w.before && Extends(w)
    requires s' == s.(drafts := s.drafts[w.key := w.after], wins := s.wins + [w])
    ensures Inv(s')
  {
    forall k ensures KeyInv(s', k) {
      assert KeyInv(s, k);
      WinsGrow(s.wins, w, k);
      if k == w.key {
        ChainGrows(s.created[k], WinsAt(s.wins, k), s.drafts[k], w);
      }
    }
    forall b | b in s'.held ensures HeldInv(s', s'.held[b]) {
      assert HeldInv(s, s.held[b]);
      WinsGrow(s.wins, w, s.held[b].key);
      StillInChain(s.created[s.held[b].key], WinsAt(s.wins, s.held[b].key), w, s.held[b].draft);
    }
  }

  lemma StillInChain(first: Draft, wins: seq<Win>, w: Win, d: Draft)
    requires InChain(first, wins, d)
    ensures InChain(first, wins + [w], d)
  {
    if d != first {
      var i :| 0 <= i < |wins| && wins[i].after == d;
      assert (wins + [w])[i].after == d;
    }
  }

  lemma StepKeeps(s: System, e: Event)
    requires Inv(s)
    ensures Inv(Step(s, e))
  {
    match e
    case CreateEvent(d, tenant, max) => CreateKeeps(s, d, tenant, max);
    case ReadEvent(c, k) => ReadKeeps(s, c, k);
    case OfferEvent(c, op) => OfferKeeps(s, c, op);
  }

  lemma {:induction false} RunKeeps(es: seq<Event>)
    ensures Inv(Run(START, es))
    decreases |es|
  {
    if es != [] {
      RunKeeps(es[..|es| - 1]);
      StepKeeps(Run(START, es[..|es| - 1]), es[|es| - 1]);
    }
  }

  // ---- no update is lost ----

  /** Applying the winning operations one after the other. */
  function Replay(d: Draft, wins: seq<Win>): Option<Draft>
    decreases |wins|
  {
    if wins == [] then Some(d)
    else
      match Replay(d, wins[..|wins| - 1])
      case None => None
      case Some(before) =>
        if !Valid(before) then None
        else
          match Lifecycle.Apply(before, wins[|wins| - 1].op)
          case Err(_) => None
          case Ok(after) => Some(after)
  }

  lemma {:induction false} ChainReplays(first: Draft, wins: seq<Win>, last: Draft)
    requires Chain(first, wins, last)
    ensures Replay(first, wins) == Some(last)
    decreases |wins|
  {
    if wins != [] {
      ChainReplays(first, wins[..|wins| - 1], wins[|wins| - 1].before);
    }
  }

  /** Under any interleaving the stored draft is the created one after all winning
      operations in order, each applied to exactly what its client had read; the
      revision has risen by one per win, and no two wins share a revision. */
  lemma NoLostUpdate(es: seq<Event>, k: DraftKey)
    requires k in Run(START, es).drafts
    ensures var s := Run(START, es); var wins := WinsAt(s.wins, k);
      && k in s.created
      && Replay(s.created[k], wins) == Some(s.drafts[k])
      && s.drafts[k].revision == s.created[k].revision + |wins|
      && (forall i :: 0 <= i < |wins| ==> Extends(wins[i]) && wins[i].before.revision == s.created[k].revision + i)
      && (forall i, j :: 0 <= i < j < |wins| ==> wins[i].before.revision != wins[j].before.revision)
  {
    var s := Run(START, es);
    RunKeeps(es);
    assert KeyInv(s, k);
    ChainRevisions(s.created[k], WinsAt(s.wins, k), s.drafts[k]);
    ChainReplays(s.created[k], WinsAt(s.wins, k), s.drafts[k]);
  }

  /** An offer wins exactly when the client's operation is accepted, advances the
      revision, and the stored draft is still the one the client read. */
  lemma OfferWinsIff(es: seq<Event>, c: Client, op: Lifecycle.Op)
    ensures var s := Run(START, es);
      Step(s, OfferEvent(c, op)) != s <==>
      c in s.held && Proposal(s, c, op).Some? && Proposal(s, c, op).value != s.held[c].draft
      && s.held[c].key in s.drafts && s.drafts[s.held[c].key] == s.held[c].draft
  {
    var s := Run(START, es);
    RunKeeps(es);
    if Step(s, OfferEvent(c, op)) != s {
      WinExtends(s, c, op);
    } else if c in s.held && Proposal(s, c, op).Some? {
      StaleOffer(s, c, op);
    }
  }

  lemma StaleOffer(s: System, c: Client, op: Lifecycle.Op)
    requires Inv(s) && c in s.held && Proposal(s, c, op).Some? && Step(s, OfferEvent(c, op)) == s
    ensures Proposal(s, c, op).value == s.held[c].draft
         || s.held[c].key !in s.drafts || s.drafts[s.held[c].key] != s.held[c].draft
  {
    var h, d := s.held[c], Proposal(s, c, op).value;
    assert HeldInv(s, h);
    Lifecycle.ApplyAdvances(h.draft, op);
    assert DraftKey(h.key.tenant, d.id) == h.key;
    assert |s.wins + [Win(h.key, c, op, h.draft, d)]| != |s.wins|;
  }

  // ---- approval in the store ----

  function OpsOf(wins: seq<Win>): (ops: seq<Lifecycle.Op>)
    ensures |ops| == |wins|
    decreases |wins|
  {
    if wins == [] then [] else OpsOf(wins[..|wins| - 1]) + [wins[|wins| - 1].op]
  }

  lemma {:induction false} ReplayIsRun(d: Draft, wins: seq<Win>)
    requires Valid(d) && Replay(d, wins).Some?
    ensures Replay(d, wins).value == Lifecycle.Run(d, OpsOf(wins))
    decreases |wins|
  {
    if wins != [] {
      var front, ops := wins[..|wins| - 1], OpsOf(wins);
      ReplayIsRun(d, front);
      assert ops[..|ops| - 1] == OpsOf(front);
      assert Lifecycle.Run(d, ops) == Lifecycle.Step(Lifecycle.Run(d, OpsOf(front)), wins[|wins| - 1].op);
    }
  }

  /** However clients interleave, a stored approved draft that was created fresh is
      completely reviewed, is bound to its plan, and has not changed since the
      approving operation won. */
  lemma StoredApproval(es: seq<Event>, k: DraftKey)
    requires k in Run(START, es).drafts && Run(START, es).drafts[k].state.Approved?
    requires k in Run(START, es).created && Lifecycle.Fresh(Run(START, es).created[k])
    ensures var s := Run(START, es); var d := s.drafts[k]; var ops := OpsOf(WinsAt(s.wins, k));
      && AllReviewed(d) && d.approvedPlan == (if d.plan.Some? then Some(d.plan.value.fingerprint) else None)
      && d == Lifecycle.Run(s.created[k], ops)
      && exists m: nat :: Lifecycle.ApprovedAt(s.created[k], ops, m) && Lifecycle.FrozenSince(s.created[k], ops, m + 1)
  {
    var s := Run(START, es);
    NoLostUpdate(es, k);
    ReplayIsRun(s.created[k], WinsAt(s.wins, k));
    Lifecycle.ApprovedRuns(s.created[k], OpsOf(WinsAt(s.wins, k)));
  }
}
