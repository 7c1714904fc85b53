/** The draft store with compare-and-swap replacement. */
module DraftStore {
  import opened Options
  import opened AssemblyDraft

  datatype DraftKey = DraftKey(tenant: string, draftId: string)

  datatype StoreError =
    | AlreadyExists
    | CapacityExceeded
    | DoesNotExist
    | Conflict(expected: int, actual: nat)

  type Drafts = map<DraftKey, Draft>

  function Insert(drafts: Drafts, max: nat, d: Draft, tenant: string): Result<Drafts, StoreError> {
    var k := DraftKey(tenant, d.id);
    if k in drafts then Err(AlreadyExists)
    else if |drafts| >= max then Err(CapacityExceeded)
    else Ok(drafts[k := d])
  }

  function CompareAndSwap(drafts: Drafts, d: Draft, expected: int, tenant: string): Result<Drafts, StoreError> {
    var k := DraftKey(tenant, d.id);
    if k !in drafts then Err(DoesNotExist)
    else if expected != drafts[k].revision then Err(Conflict(expected, drafts[k].revision))
    else if d.revision != expected + 1 then Err(Conflict(expected + 1, d.revision))
    else Ok(drafts[k := d])
  }

  /** A draft is created exactly when its key is free and there is room, and then it is
      the only change. */
  lemma InsertIff(drafts: Drafts, max: nat, d: Draft, tenant: string)
    ensures var r, k := Insert(drafts, max, d, tenant), DraftKey(tenant, d.id);
      && (r == Err(AlreadyExists) <==> k in drafts)
      && (r == Err(CapacityExceeded) <==> k !in drafts && max <= |drafts|)
      && (r.Ok? <==> k !in drafts && |drafts| < max)
      && (r.Ok? ==> r.value.Keys == drafts.Keys + {k} && r.value[k] == d)
      && (r.Ok? ==> forall k' :: k' in drafts ==> r.value[k'] == drafts[k'])
  {
  }

  /** A draft is replaced exactly when it is stored at the expected revision and the
      replacement has the next one, and then it is the only change; a conflict reports the
      revision that was wanted and the one that was met. */
  lemma CompareAndSwapIff(drafts: Drafts, d: Draft, expected: int, tenant: string)
    ensures var r, k := CompareAndSwap(drafts, d, expected, tenant), DraftKey(tenant, d.id);
      && (r == Err(DoesNotExist) <==> k !in drafts)
      && (r.Ok? <==> k in drafts && drafts[k].revision == expected && d.revision == expected + 1)
      && (r.Ok? ==> r.value.Keys == drafts.Keys && r.value[k] == d)
      && (r.Ok? ==> forall k' :: k' in drafts && k' != k ==> r.value[k'] == drafts[k'])
      && (r.Err? && k in drafts ==>
            r.error == if drafts[k].revision == expected then Conflict(expected + 1, d.revision)
                       else Conflict(expected, drafts[k].revision))
  {
  }

  class InMemoryDraftStore {
    const maxDrafts: nat
    var drafts: Drafts

    ghost predicate Bounded()
      reads this
    {
      1 <= maxDrafts && |drafts| <= maxDrafts
    }

    constructor (maxDrafts: nat)
      requires 1 <= maxDrafts
      ensures Bounded() && drafts == map[] && this.maxDrafts == maxDrafts
    {
      this.maxDrafts := maxDrafts;
      drafts := map[];
    }

    method CreateDraft(d: Draft, tenant: string) returns (error: Option<StoreError>)
      requires Bounded()
      modifies this`drafts
      ensures Bounded()
      ensures match Insert(old(drafts), maxDrafts, d, tenant)
              case Ok(more) => error == None && drafts == more
              case Err(e) => error == Some(e) && drafts == old(drafts)
    {
      var k := DraftKey(tenant, d.id);
      if k in drafts { return Some(AlreadyExists); }
      if |drafts| >= maxDrafts { return Some(CapacityExceeded); }
      GrowsByOne(drafts, k, d);
      drafts := drafts[k := d];
      return None;
    }

    method Get(id: string, tenant: string) returns (d: Option<Draft>)
      ensures d.Some? <==> DraftKey(tenant, id) in drafts
      ensures d.Some? ==> d.value == drafts[DraftKey(tenant, id)]
    {
      var k := DraftKey(tenant, id);
      return if k in drafts then Some(drafts[k]) else None;
    }

    method ReplaceDraft(d: Draft, expected: int, tenant: string) returns (error: Option<StoreError>)
      requires Bounded()
      modifies this`drafts
      ensures Bounded()
      ensures match CompareAndSwap(old(drafts), d, expected, tenant)
              case Ok(more) => error == None && drafts == more
              case Err(e) => error == Some(e) && drafts == old(drafts)
    {
      var k := DraftKey(tenant, d.id);
      if k !in drafts { return Some(DoesNotExist); }
      var current := drafts[k];
      if expected != current.revision { return Some(Conflict(expected, current.revision)); }
      if d.revision != expected + 1 { return Some(Conflict(expected + 1, d.revision)); }
      SameSize(drafts, k, d);
      drafts := drafts[k := d];
      return None;
    }
  }

  /** The store opens for a positive capacity only. */
  method OpenStore(maxDrafts: int) returns (store: Option<InMemoryDraftStore>)
    ensures store.Some? <==> maxDrafts >= 1
    ensures store.Some? ==> fresh(store.value) && store.value.Bounded() && store.value.drafts == map[]
  {
    if maxDrafts < 1 { return None; }
    var s := new InMemoryDraftStore(maxDrafts);
    return Some(s);
  }

  lemma GrowsByOne(m: Drafts, k: DraftKey, d: Draft)
    requires k !in m
    ensures |m[k := d]| == |m| + 1
  {
    assert m[k := d].Keys == m.Keys + {k};
    assert |m.Keys + {k}| == |m.Keys| + 1;
  }

  lemma SameSize(m: Drafts, k: DraftKey, d: Draft)
    requires k in m
    ensures |m[k := d]| == |m|
  {
    assert m[k := d].Keys == m.Keys;
  }
}
