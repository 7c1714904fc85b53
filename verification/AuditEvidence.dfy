/** Audit-evidence entries and the bounded, protecting retention of the store. */
module AuditEvidence {
  import opened Options
  import opened Numerals

  datatype EventKind = Publication | Activation | Rollback | Lifecycle(name: string)

  /** One entry; `occurredAt` is presentation metadata outside its fingerprint. */
  datatype Entry = Entry(
    eventId: string,
    kind: EventKind,
    tenant: string,
    sourceScope: string,
    bundle: Option<string>,
    reference: Option<string>,
    prior: Option<string>,
    resulting: Option<string>,
    operator: Option<string>,
    predecessors: seq<string>,
    details: string,
    occurredAt: int)

  /** Equal entry fingerprints: all facts but the time agree. */
  predicate SameFacts(a: Entry, b: Entry) {
    a.(occurredAt := 0) == b.(occurredAt := 0)
  }

  /** The position of the entry with an event id, or the length. */
  function FindEvent(store: seq<Entry>, id: string): (i: nat)
    ensures i <= |store|
    ensures i < |store| ==> store[i].eventId == id
    ensures forall j :: 0 <= j < i ==> store[j].eventId != id
  {
    if store == [] || store[0].eventId == id then 0 else 1 + FindEvent(store[1..], id)
  }

  /** The recorded publication entry of one scoped fingerprint. */
  function FindPublication(store: seq<Entry>, tenant: string, fp: string): Option<Entry> {
    if store == [] then None
    else if store[0].kind.Publication? && store[0].tenant == tenant && store[0].bundle == Some(fp) then Some(store[0])
    else FindPublication(store[1..], tenant, fp)
  }

  ghost predicate UniqueIds(store: seq<Entry>) {
    forall i, j :: 0 <= i < j < |store| ==> store[i].eventId != store[j].eventId
  }

  // ---- retention ----

  /** Filed under a publication that is not retired. */
  predicate Filed(e: Entry, live: set<string>) {
    e.bundle.Some? && e.bundle.value in live
  }

  /** Ids of the filed entries and of their predecessors. */
  function ProtectedIds(store: seq<Entry>, live: set<string>): set<string> {
    if store == [] then {}
    else
      (if Filed(store[0], live) then {store[0].eventId} + (set p | p in store[0].predecessors) else {})
      + ProtectedIds(store[1..], live)
  }

  predicate Droppable(e: Entry, live: set<string>, ids: set<string>) {
    !Filed(e, live) && e.eventId !in ids
  }

  /** Drops the first `overflow` droppable entries. */
  function Retain(store: seq<Entry>, live: set<string>, ids: set<string>, overflow: int): seq<Entry> {
    if store == [] then []
    else if overflow > 0 && Droppable(store[0], live, ids) then Retain(store[1..], live, ids, overflow - 1)
    else [store[0]] + Retain(store[1..], live, ids, overflow)
  }

  function Trim(store: seq<Entry>, live: set<string>, limit: nat): seq<Entry> {
    if |store| <= limit then store
    else Retain(store, live, ProtectedIds(store, live), |store| - limit)
  }

  // ---- what retention keeps ----

  function Undroppable(store: seq<Entry>, live: set<string>, ids: set<string>): nat {
    if store == [] then 0
    else (if Droppable(store[0], live, ids) then 0 else 1) + Undroppable(store[1..], live, ids)
  }

  /** `part` is `whole` with some entries left out. */
  predicate Subsequence(part: seq<Entry>, whole: seq<Entry>) {
    if part == [] then true
    else if whole == [] then false
    else if part[0] == whole[0] then Subsequence(part[1..], whole[1..])
    else Subsequence(part, whole[1..])
  }

  lemma {:induction false} RetainSize(store: seq<Entry>, live: set<string>, ids: set<string>, overflow: nat)
    ensures var kept := Undroppable(store, live, ids);
      |Retain(store, live, ids, overflow)| == (if |store| - overflow > kept then |store| - overflow else kept)
    ensures Undroppable(store, live, ids) <= |store|
  {
    if store != [] {
      RetainSize(store[1..], live, ids, overflow);
      if overflow > 0 { RetainSize(store[1..], live, ids, overflow - 1); }
    }
  }

  lemma {:induction false} RetainKeeps(store: seq<Entry>, live: set<string>, ids: set<string>, overflow: int, e: Entry)
    ensures e in Retain(store, live, ids, overflow) ==> e in store
    ensures e in store && !Droppable(e, live, ids) ==> e in Retain(store, live, ids, overflow)
  {
    if store != [] {
      RetainKeeps(store[1..], live, ids, overflow, e);
      RetainKeeps(store[1..], live, ids, overflow - 1, e);
    }
  }

  lemma {:induction false} SkipOne(part: seq<Entry>, whole: seq<Entry>)
    requires whole != [] && Subsequence(part, whole[1..])
    ensures Subsequence(part, whole)
  {
    if part != [] && part[0] == whole[0] {
      DropHead(part, whole[1..]);
    }
  }

  lemma {:induction false} DropHead(part: seq<Entry>, whole: seq<Entry>)
    requires part != [] && Subsequence(part, whole)
    ensures Subsequence(part[1..], whole)
  {
    if part[0] == whole[0] {
      SkipOne(part[1..], whole);
    } else {
      DropHead(part, whole[1..]);
      SkipOne(part[1..], whole);
    }
  }

  lemma {:induction false} RetainOrdered(store: seq<Entry>, live: set<string>, ids: set<string>, overflow: int)
    ensures Subsequence(Retain(store, live, ids, overflow), store)
  {
    if store != [] {
      if overflow > 0 && Droppable(store[0], live, ids) {
        RetainOrdered(store[1..], live, ids, overflow - 1);
        SkipOne(Retain(store, live, ids, overflow), store);
      } else {
        RetainOrdered(store[1..], live, ids, overflow);
        assert Retain(store, live, ids, overflow)[1..] == Retain(store[1..], live, ids, overflow);
      }
    }
  }

  lemma {:induction false} RetainUnique(store: seq<Entry>, live: set<string>, ids: set<string>, overflow: int)
    requires UniqueIds(store)
    ensures UniqueIds(Retain(store, live, ids, overflow))
  {
    if store != [] {
      var rest := Retain(store[1..], live, ids, overflow);
      RetainUnique(store[1..], live, ids, overflow);
      RetainUnique(store[1..], live, ids, overflow - 1);
      forall j | 0 <= j < |rest| ensures rest[j].eventId != store[0].eventId {
        RetainKeeps(store[1..], live, ids, overflow, rest[j]);
        var k :| 0 <= k < |store[1..]| && store[1..][k] == rest[j];
        assert store[k + 1] == rest[j];
      }
    }
  }

  lemma {:induction false} ProtectedContains(store: seq<Entry>, live: set<string>, e: Entry)
    requires e in store && Filed(e, live)
    ensures e.eventId in ProtectedIds(store, live)
    ensures forall p :: p in e.predecessors ==> p in ProtectedIds(store, live)
  {
    if store[0] != e {
      assert e in store[1..];
      ProtectedContains(store[1..], live, e);
    }
  }

  /** Retention leaves an order-preserving subsequence whose size is the larger of
      the limit and the number of undroppable entries. */
  lemma TrimIsBounded(store: seq<Entry>, live: set<string>, limit: nat)
    ensures Subsequence(Trim(store, live, limit), store)
    ensures |store| > limit ==>
      var kept := Undroppable(store, live, ProtectedIds(store, live));
      |Trim(store, live, limit)| == (if limit > kept then limit else kept)
    ensures |store| <= limit ==> Trim(store, live, limit) == store
  {
    if |store| > limit {
      RetainSize(store, live, ProtectedIds(store, live), |store| - limit);
      RetainOrdered(store, live, ProtectedIds(store, live), |store| - limit);
    } else {
      SubsequenceReflexive(store);
    }
  }

  lemma {:induction false} SubsequenceReflexive(s: seq<Entry>)
    ensures Subsequence(s, s)
  {
    if s != [] { SubsequenceReflexive(s[1..]); }
  }

  /** Retention keeps every entry of a live publication and every present
      predecessor of such an entry, and adds nothing. */
  lemma TrimProtects(store: seq<Entry>, live: set<string>, limit: nat, e: Entry)
    ensures e in Trim(store, live, limit) ==> e in store
    ensures e in store && Filed(e, live) ==> e in Trim(store, live, limit)
    ensures forall p :: e in store && Filed(e, live) && p in store && p.eventId in e.predecessors
              ==> p in Trim(store, live, limit)
  {
    var ids := ProtectedIds(store, live);
    RetainKeeps(store, live, ids, |store| - limit, e);
    if e in store && Filed(e, live) {
      ProtectedContains(store, live, e);
      forall p | p in store && p.eventId in e.predecessors ensures p in Trim(store, live, limit) {
        RetainKeeps(store, live, ids, |store| - limit, p);
      }
    }
  }

  lemma TrimUnique(store: seq<Entry>, live: set<string>, limit: nat)
    requires UniqueIds(store)
    ensures UniqueIds(Trim(store, live, limit))
  {
    RetainUnique(store, live, ProtectedIds(store, live), |store| - limit);
  }

  /** The protected ids are those of the filed entries and what these name as
      predecessors, and no others. */
  lemma {:induction false} ProtectedIff(store: seq<Entry>, live: set<string>, id: string)
    ensures id in ProtectedIds(store, live)
       <==> exists e :: e in store && Protects(e, live, id)
  {
    if store != [] {
      ProtectedIff(store[1..], live, id);
      assert store == [store[0]] + store[1..];
      assert Protects(store[0], live, id) ==> store[0] in store;
    }
  }

  /** An entry of a live publication protects itself and its predecessors. */
  predicate Protects(e: Entry, live: set<string>, id: string) {
    e.bundle.Some? && e.bundle.value in live && (id == e.eventId || id in e.predecessors)
  }

  /** The entries that retention may not drop, in their order. */
  function Spared(store: seq<Entry>, live: set<string>, ids: set<string>): (r: seq<Entry>)
    ensures forall e :: e in r <==> e in store && !Droppable(e, live, ids)
    ensures |r| <= |store|
  {
    if store == [] then []
    else
      var rest := Spared(store[1..], live, ids);
      assert store == [store[0]] + store[1..];
      if Droppable(store[0], live, ids) then rest else [store[0]] + rest
  }

  /** The oldest droppable entries go first: up to some position all of them are dropped,
      from there on none. */
  lemma {:induction false} RetainDropsOldest(store: seq<Entry>, live: set<string>, ids: set<string>, overflow: nat)
    returns (n: nat)
    ensures n <= |store|
    ensures Retain(store, live, ids, overflow) == Spared(store[..n], live, ids) + store[n..]
  {
    if store == [] || overflow == 0 {
      RetainNone(store, live, ids);
      assert store[..0] == [] && store[0..] == store;
      return 0;
    }
    var rest := store[1..];
    var m := RetainDropsOldest(rest, live, ids, if Droppable(store[0], live, ids) then overflow - 1 else overflow);
    n := m + 1;
    assert store[..n][0] == store[0] && store[..n][1..] == rest[..m] && store[n..] == rest[m..];
  }

  lemma {:induction false} RetainNone(store: seq<Entry>, live: set<string>, ids: set<string>)
    ensures Retain(store, live, ids, 0) == store
  {
    if store != [] { RetainNone(store[1..], live, ids); }
  }

  /** Trimming drops the oldest entries first that no live publication protects. */
  lemma TrimDropsOldest(store: seq<Entry>, live: set<string>, limit: nat) returns (n: nat)
    ensures n <= |store| && (|store| <= limit ==> n == 0)
    ensures Trim(store, live, limit) == Spared(store[..n], live, ProtectedIds(store, live)) + store[n..]
  {
    if |store| <= limit {
      assert store[..0] == [] && store[0..] == store;
      n := 0;
    } else {
      n := RetainDropsOldest(store, live, ProtectedIds(store, live), |store| - limit);
    }
  }

  // ---- pointer events ----

  /** A text from which the tagged string can be read back; it stands for the
      digest in event ids. */
  function Tag(s: string): string { NatText(|s|) + ":" + s }

  function PriorTag(prior: Option<string>): string { if prior.Some? then "1" + Tag(prior.value) else "0" }

  /** The event id of a pointer change: neither tenant nor operator enters it. */
  function PointerEventId(kind: EventKind, bundleId: string, prior: Option<string>, resulting: string): string {
    (if kind.Activation? then "activate" else "rollback") + "-" + Tag(bundleId)
    + PriorTag(prior) + Tag(resulting)
  }

  lemma TagReads(s: string, x: string, t: string, y: string)
    requires Tag(s) + x == Tag(t) + y
    ensures s == t && x == y
  {
    var a, b := NatText(|s|), NatText(|t|);
    assert a + [':'] + (s + x) == Tag(s) + x == Tag(t) + y == b + [':'] + (t + y);
    NoColon(a);
    NoColon(b);
    IndexOfSplit(a, ':', s + x);
    IndexOfSplit(b, ':', t + y);
    CutAt(a, s + x, b, t + y);
    DigitsOfNatText(|s|);
    DigitsOfNatText(|t|);
    assert s == (s + x)[..|s|] && x == (s + x)[|s|..] && t == (t + y)[..|t|] && y == (t + y)[|t|..];
  }

  lemma NoColon(digits: string)
    requires AllDigits(digits)
    ensures ':' !in digits
  {
  }

  lemma CutAt(a: string, x: string, b: string, y: string)
    requires |a| == |b| && a + [':'] + x == b + [':'] + y
    ensures a == b && x == y
  {
    assert a == (a + [':'] + x)[..|a|] && b == (b + [':'] + y)[..|b|];
    assert x == (a + [':'] + x)[|a| + 1..] && y == (b + [':'] + y)[|b| + 1..];
  }

  lemma PriorTagReads(p: Option<string>, x: string, r: Option<string>, y: string)
    requires PriorTag(p) + x == PriorTag(r) + y
    ensures p == r && x == y
  {
    PriorTagHead(p, x);
    PriorTagHead(r, y);
    if p.Some? && r.Some? { TagReads(p.value, x, r.value, y); }
  }

  lemma PriorTagHead(p: Option<string>, x: string)
    ensures var s := PriorTag(p) + x;
      |s| > 0 && s[0] == (if p.Some? then '1' else '0') && s[1..] == if p.Some? then Tag(p.value) + x else x
  {
    var s := PriorTag(p) + x;
    if p.Some? { assert s == "1" + (Tag(p.value) + x); } else { assert s == "0" + x; }
  }

  lemma EventIdIs(kind: EventKind, bundleId: string, prior: Option<string>, resulting: string)
    ensures PointerEventId(kind, bundleId, prior, resulting)
         == (if kind.Activation? then "activate-" else "rollback-") + (Tag(bundleId) + (PriorTag(prior) + (Tag(resulting) + "")))
  {
  }

  /** The event id tells the direction of the move, the bundle id and both ends. */
  lemma PointerEventIdInjective(kind: EventKind, bundle: string, prior: Option<string>, resulting: string,
                                kind': EventKind, bundle': string, prior': Option<string>, resulting': string)
    ensures PointerEventId(kind, bundle, prior, resulting) == PointerEventId(kind', bundle', prior', resulting')
       <==> (kind.Activation? <==> kind'.Activation?) && bundle == bundle' && prior == prior' && resulting == resulting'
  {
    var id, id' := PointerEventId(kind, bundle, prior, resulting), PointerEventId(kind', bundle', prior', resulting');
    if id == id' {
      EventIdIs(kind, bundle, prior, resulting);
      EventIdIs(kind', bundle', prior', resulting');
      SameIdParts(kind.Activation?, bundle, prior, resulting, kind'.Activation?, bundle', prior', resulting');
    }
  }

  lemma SameIdParts(activation: bool, bundle: string, prior: Option<string>, resulting: string,
                    activation': bool, bundle': string, prior': Option<string>, resulting': string)
    requires (if activation then "activate-" else "rollback-") + (Tag(bundle) + (PriorTag(prior) + (Tag(resulting) + "")))
          == (if activation' then "activate-" else "rollback-") + (Tag(bundle') + (PriorTag(prior') + (Tag(resulting') + "")))
    ensures activation == activation' && bundle == bundle' && prior == prior' && resulting == resulting'
  {
    var head, head' := if activation then "activate-" else "rollback-", if activation' then "activate-" else "rollback-";
    var x := Tag(bundle) + (PriorTag(prior) + (Tag(resulting) + ""));
    var y := Tag(bundle') + (PriorTag(prior') + (Tag(resulting') + ""));
    assert (head + x)[0] == head[0] && (head' + y)[0] == head'[0];
    assert (head + x)[9..] == x && (head' + y)[9..] == y;
    TagReads(bundle, PriorTag(prior) + (Tag(resulting) + ""), bundle', PriorTag(prior') + (Tag(resulting') + ""));
    PriorTagReads(prior, Tag(resulting) + "", prior', Tag(resulting') + "");
    TagReads(resulting, "", resulting', "");
  }
}
