/** Alignment of rediscovered assertions with a draft or a published manifest. */
module Alignment {
  import opened Options
  import opened Ordering
  import opened AssemblyDraft
  import opened Manifest

  datatype ChangeKind = Added | Modified | Deleted | Stale | PreviouslyRejected

  datatype Change = Change(
    kind: ChangeKind, id: string, assertionType: AssertionType, previousHash: Option<Digest>,
    previousReview: Option<ReviewState>, candidate: Option<Assertion>)

  datatype AlignmentError = DuplicateCandidates | TooManyChanges

  const MAX_CHANGES: nat := 16384

  /** What the baseline says of one assertion. */
  datatype Item = Item(id: string, kind: AssertionType, hash: Digest, review: ReviewState)

  datatype Baseline = OfDraft(draft: Draft) | OfManifest(manifest: AcceptedManifest)

  function DraftItem(a: Assertion): Item { Item(a.id, a.kind, PayloadHash(a), a.review) }

  function ManifestItem(a: AcceptedAssertion): Item { Item(a.id, a.kind, a.hash, ReviewState.Accepted) }

  function Items(b: Baseline): (items: seq<Item>)
    ensures b.OfDraft? ==>
      && |items| == |b.draft.assertions|
      && forall i :: 0 <= i < |items| ==> items[i] == DraftItem(b.draft.assertions[i])
    ensures b.OfManifest? ==>
      && |items| == |b.manifest.assertions|
      && forall i :: 0 <= i < |items| ==> items[i] == ManifestItem(b.manifest.assertions[i])
  {
    match b
    case OfDraft(d) => seq(|d.assertions|, i requires 0 <= i < |d.assertions| => DraftItem(d.assertions[i]))
    case OfManifest(m) => seq(|m.assertions|, i requires 0 <= i < |m.assertions| => ManifestItem(m.assertions[i]))
  }

  ghost predicate UniqueItems(items: seq<Item>) {
    forall i, j :: 0 <= i < j < |items| ==> items[i].id != items[j].id
  }

  ghost predicate UniqueCandidates(cs: seq<Assertion>) {
    forall i, j :: 0 <= i < j < |cs| ==> cs[i].id != cs[j].id
  }

  // ---- what should change ----

  ghost predicate IsCandidate(cs: seq<Assertion>, id: string, c: Assertion) { c in cs && c.id == id }

  ghost predicate IsItem(items: seq<Item>, id: string, b: Item) { b in items && b.id == id }

  /** The change for a rediscovered assertion. */
  function Rediscovered(c: Assertion, b: Option<Item>, replay: bool): Option<Change> {
    if b.None? then Some(Change(Added, c.id, c.kind, None, None, Some(c)))
    else if b.value.hash != PayloadHash(c) then Some(Change(Modified, c.id, c.kind, Some(b.value.hash), None, Some(c)))
    else if b.value.review.Rejected? && replay then
      Some(Change(PreviouslyRejected, c.id, c.kind, Some(b.value.hash), Some(ReviewState.Rejected), Some(c)))
    else None
  }

  /** The change for a baseline assertion that was not rediscovered. */
  function Missing(b: Item, complete: bool): Option<Change> {
    if b.review.Rejected? then None
    else Some(Change(if complete then Deleted else Stale, b.id, b.kind, Some(b.hash), Some(b.review), None))
  }

  /** The change that one id calls for, if any. */
  function ChangeFor(c: Option<Assertion>, b: Option<Item>, complete: bool, replay: bool): Option<Change> {
    if c.Some? then Rediscovered(c.value, b, replay)
    else if b.Some? then Missing(b.value, complete)
    else None
  }

  function CandidateAt(cs: seq<Assertion>, id: string): (c: Option<Assertion>)
    ensures c.Some? ==> IsCandidate(cs, id, c.value)
    ensures c.None? ==> forall i :: 0 <= i < |cs| ==> cs[i].id != id
  {
    if cs == [] then None else if cs[0].id == id then Some(cs[0]) else CandidateAt(cs[1..], id)
  }

  function ItemAt(items: seq<Item>, id: string): (b: Option<Item>)
    ensures b.Some? ==> IsItem(items, id, b.value)
    ensures b.None? ==> forall i :: 0 <= i < |items| ==> items[i].id != id
  {
    if items == [] then None else if items[0].id == id then Some(items[0]) else ItemAt(items[1..], id)
  }

  lemma CandidateIsAt(cs: seq<Assertion>, i: nat)
    requires UniqueCandidates(cs) && i < |cs|
    ensures CandidateAt(cs, cs[i].id) == Some(cs[i])
  {
    var c := CandidateAt(cs, cs[i].id);
    if c.Some? { var j :| 0 <= j < |cs| && cs[j] == c.value; }
  }

  lemma ItemIsAt(items: seq<Item>, i: nat)
    requires UniqueItems(items) && i < |items|
    ensures ItemAt(items, items[i].id) == Some(items[i])
  {
    var b := ItemAt(items, items[i].id);
    if b.Some? { var j :| 0 <= j < |items| && items[j] == b.value; }
  }

  function Wanted(cs: seq<Assertion>, items: seq<Item>, complete: bool, replay: bool, id: string): Option<Change> {
    ChangeFor(CandidateAt(cs, id), ItemAt(items, id), complete, replay)
  }

  /** Exactly the changes called for, each id at most once, in increasing id order. */
  ghost predicate Aligned(cs: seq<Assertion>, items: seq<Item>, complete: bool, replay: bool, changes: seq<Change>) {
    && StrictlySortedBy(changes, ChangeKey)
    && forall ch :: ch in changes <==> Wanted(cs, items, complete, replay, ch.id) == Some(ch)
  }

  /** There is only one such list, so the order of candidates and baseline cannot
      matter. */
  lemma AlignedIsUnique(cs: seq<Assertion>, items: seq<Item>, complete: bool, replay: bool, changes: seq<Change>,
                        cs': seq<Assertion>, items': seq<Item>, changes': seq<Change>)
    requires UniqueCandidates(cs) && UniqueCandidates(cs') && forall c :: c in cs <==> c in cs'
    requires UniqueItems(items) && UniqueItems(items') && forall b :: b in items <==> b in items'
    requires Aligned(cs, items, complete, replay, changes) && Aligned(cs', items', complete, replay, changes')
    ensures changes == changes'
  {
    forall ch ensures ch in changes <==> ch in changes' {
      SameCandidate(cs, cs', ch.id);
      SameItem(items, items', ch.id);
    }
    StrictlySortedUnique(changes, changes', ChangeKey);
  }

  lemma SameCandidate(cs: seq<Assertion>, cs': seq<Assertion>, id: string)
    requires UniqueCandidates(cs) && UniqueCandidates(cs') && forall c :: c in cs <==> c in cs'
    ensures CandidateAt(cs, id) == CandidateAt(cs', id)
  {
    if CandidateAt(cs, id).Some? {
      var j :| 0 <= j < |cs'| && cs'[j] == CandidateAt(cs, id).value;
      CandidateIsAt(cs', j);
    }
  }

  lemma SameItem(items: seq<Item>, items': seq<Item>, id: string)
    requires UniqueItems(items) && UniqueItems(items') && forall b :: b in items <==> b in items'
    ensures ItemAt(items, id) == ItemAt(items', id)
  {
    if ItemAt(items, id).Some? {
      var j :| 0 <= j < |items'| && items'[j] == ItemAt(items, id).value;
      ItemIsAt(items', j);
    }
  }

  function ChangeKey(ch: Change): seq<int> { Codes(ch.id) }

  // ---- the two loops ----

  predicate FromCandidate(cs: seq<Assertion>, items: seq<Item>, replay: bool, j: nat, ch: Change) {
    j < |cs| && Rediscovered(cs[j], ItemAt(items, cs[j].id), replay) == Some(ch)
  }

  predicate FromItem(cs: seq<Assertion>, items: seq<Item>, complete: bool, j: nat, ch: Change) {
    j < |items| && CandidateAt(cs, items[j].id).None? && Missing(items[j], complete) == Some(ch)
  }

  ghost predicate Listed(cs: seq<Assertion>, items: seq<Item>, replay: bool, i: nat, ch: Change) {
    exists j: nat :: j < i && FromCandidate(cs, items, replay, j, ch)
  }

  /** The changes of the first `i` candidates. */
  ghost predicate FirstLoop(cs: seq<Assertion>, items: seq<Item>, replay: bool, i: nat, changes: seq<Change>) {
    && DistinctBy(changes, ChangeKey)
    && forall ch :: ch in changes <==> Listed(cs, items, replay, i, ch)
  }

  ghost predicate Found(cs: seq<Assertion>, items: seq<Item>, complete: bool, replay: bool, i: nat, ch: Change) {
    || Listed(cs, items, replay, |cs|, ch)
    || (exists j: nat :: j < i && FromItem(cs, items, complete, j, ch))
  }

  /** The changes of all candidates and of the first `i` baseline items. */
  ghost predicate SecondLoop(cs: seq<Assertion>, items: seq<Item>, complete: bool, replay: bool, i: nat, changes: seq<Change>) {
    && DistinctBy(changes, ChangeKey)
    && forall ch :: ch in changes <==> Found(cs, items, complete, replay, i, ch)
  }

  lemma OneMoreDistinct(changes: seq<Change>, ch: Change)
    requires DistinctBy(changes, ChangeKey) && forall x :: x in changes ==> x.id != ch.id
    ensures DistinctBy(changes + [ch], ChangeKey)
  {
    var more := changes + [ch];
    forall i, j | 0 <= i < j < |more| ensures ChangeKey(more[i]) != ChangeKey(more[j]) {
      if j < |changes| {
        assert ChangeKey(changes[i]) != ChangeKey(changes[j]);
      } else {
        assert changes[i] in changes;
        if ChangeKey(more[i]) == ChangeKey(more[j]) { CodesInjective(more[i].id, more[j].id); }
      }
    }
  }

  lemma FirstLoopStep(cs: seq<Assertion>, items: seq<Item>, replay: bool, i: nat, changes: seq<Change>, more: seq<Change>)
    requires UniqueCandidates(cs) && i < |cs| && FirstLoop(cs, items, replay, i, changes)
    requires var ch := Rediscovered(cs[i], ItemAt(items, cs[i].id), replay);
      more == if ch.Some? then changes + [ch.value] else changes
    ensures FirstLoop(cs, items, replay, i + 1, more)
  {
    var ch := Rediscovered(cs[i], ItemAt(items, cs[i].id), replay);
    if ch.Some? {
      forall x | x in changes ensures x.id != ch.value.id {
        ListedElsewhere(cs, items, replay, i, x);
      }
      OneMoreDistinct(changes, ch.value);
    }
    forall x ensures x in more <==> Listed(cs, items, replay, i + 1, x) {
      assert FromCandidate(cs, items, replay, i, x) <==> ch == Some(x);
      ListedOneMore(cs, items, replay, i, x);
    }
  }

  lemma ListedOneMore(cs: seq<Assertion>, items: seq<Item>, replay: bool, i: nat, x: Change)
    ensures Listed(cs, items, replay, i + 1, x) <==> Listed(cs, items, replay, i, x) || FromCandidate(cs, items, replay, i, x)
  {
  }

  lemma ListedElsewhere(cs: seq<Assertion>, items: seq<Item>, replay: bool, i: nat, x: Change)
    requires UniqueCandidates(cs) && i < |cs| && Listed(cs, items, replay, i, x)
    ensures x.id != cs[i].id
  {
    var j: nat :| j < i && FromCandidate(cs, items, replay, j, x);
  }

  lemma SecondLoopStep(cs: seq<Assertion>, items: seq<Item>, complete: bool, replay: bool, i: nat, changes: seq<Change>, more: seq<Change>)
    requires UniqueItems(items) && i < |items| && SecondLoop(cs, items, complete, replay, i, changes)
    requires var ch := if CandidateAt(cs, items[i].id).None? then Missing(items[i], complete) else None;
      more == if ch.Some? then changes + [ch.value] else changes
    ensures SecondLoop(cs, items, complete, replay, i + 1, more)
  {
    var ch := if CandidateAt(cs, items[i].id).None? then Missing(items[i], complete) else None;
    if ch.Some? {
      forall x | x in changes ensures x.id != ch.value.id {
        FoundElsewhere(cs, items, complete, replay, i, x);
      }
      OneMoreDistinct(changes, ch.value);
    }
    forall x ensures x in more <==> Found(cs, items, complete, replay, i + 1, x) {
      assert FromItem(cs, items, complete, i, x) <==> ch == Some(x);
      FoundOneMore(cs, items, complete, replay, i, x);
    }
  }

  lemma FoundOneMore(cs: seq<Assertion>, items: seq<Item>, complete: bool, replay: bool, i: nat, x: Change)
    ensures Found(cs, items, complete, replay, i + 1, x)
       <==> Found(cs, items, complete, replay, i, x) || FromItem(cs, items, complete, i, x)
  {
  }

  lemma FoundElsewhere(cs: seq<Assertion>, items: seq<Item>, complete: bool, replay: bool, i: nat, x: Change)
    requires UniqueItems(items) && i < |items| && CandidateAt(cs, items[i].id).None? && Found(cs, items, complete, replay, i, x)
    ensures x.id != items[i].id
  {
    if j: nat :| j < |cs| && FromCandidate(cs, items, replay, j, x) {
      assert cs[j].id == x.id;
    } else {
      var j: nat :| j < i && FromItem(cs, items, complete, j, x);
    }
  }

  lemma LoopsFindWanted(cs: seq<Assertion>, items: seq<Item>, complete: bool, replay: bool, changes: seq<Change>)
    requires UniqueCandidates(cs) && UniqueItems(items) && SecondLoop(cs, items, complete, replay, |items|, changes)
    ensures Aligned(cs, items, complete, replay, SortBy(changes, ChangeKey))
  {
    SortByMembers(changes, ChangeKey);
    SortByStrict(changes, ChangeKey);
    forall ch ensures ch in changes <==> Wanted(cs, items, complete, replay, ch.id) == Some(ch) {
      FoundIsWanted(cs, items, complete, replay, ch);
      WantedIsFound(cs, items, complete, replay, ch);
    }
  }

  lemma FoundIsWanted(cs: seq<Assertion>, items: seq<Item>, complete: bool, replay: bool, ch: Change)
    requires UniqueCandidates(cs) && UniqueItems(items)
    ensures Found(cs, items, complete, replay, |items|, ch) ==> Wanted(cs, items, complete, replay, ch.id) == Some(ch)
  {
    forall j: nat | FromCandidate(cs, items, replay, j, ch) ensures Wanted(cs, items, complete, replay, ch.id) == Some(ch) {
      CandidateIsAt(cs, j);
    }
    forall j: nat | FromItem(cs, items, complete, j, ch) ensures Wanted(cs, items, complete, replay, ch.id) == Some(ch) {
      ItemWanted(cs, items, complete, replay, j, ch);
    }
  }

  lemma ItemWanted(cs: seq<Assertion>, items: seq<Item>, complete: bool, replay: bool, j: nat, ch: Change)
    requires UniqueItems(items) && FromItem(cs, items, complete, j, ch)
    ensures Wanted(cs, items, complete, replay, ch.id) == Some(ch)
  {
    ItemIsAt(items, j);
  }

  lemma WantedIsFound(cs: seq<Assertion>, items: seq<Item>, complete: bool, replay: bool, ch: Change)
    ensures Wanted(cs, items, complete, replay, ch.id) == Some(ch) ==> Found(cs, items, complete, replay, |items|, ch)
  {
    var c, b := CandidateAt(cs, ch.id), ItemAt(items, ch.id);
    if Wanted(cs, items, complete, replay, ch.id) == Some(ch) {
      if c.Some? {
        var j: nat :| j < |cs| && cs[j] == c.value;
        assert FromCandidate(cs, items, replay, j, ch);
      } else {
        var j: nat :| j < |items| && items[j] == b.value;
        assert FromItem(cs, items, complete, j, ch);
      }
    }
  }

  method AlignAssertions(cs: seq<Assertion>, baseline: Baseline, complete: bool, replay: bool)
    returns (r: Result<seq<Change>, AlignmentError>)
    requires UniqueItems(Items(baseline))
    ensures r == Err(DuplicateCandidates) <==> !UniqueCandidates(cs)
    ensures r.Ok? ==> |r.value| <= MAX_CHANGES && Aligned(cs, Items(baseline), complete, replay, r.value)
    ensures r == Err(TooManyChanges) ==>
      exists changes :: |changes| > MAX_CHANGES && Aligned(cs, Items(baseline), complete, replay, changes)
  {
    var unique, candidateById := IndexCandidates(cs);
    if !unique { return Err(DuplicateCandidates); }
    var items := Items(baseline);
    var baselineItems := IndexItems(items);
    var changes := CandidateChanges(cs, items, baselineItems, replay);
    changes := AddMissing(cs, items, candidateById, complete, replay, changes);
    LoopsFindWanted(cs, items, complete, replay, changes);
    var sorted := SortBy(changes, ChangeKey);
    if |sorted| > MAX_CHANGES { return Err(TooManyChanges); }
    return Ok(sorted);
  }

  method IndexCandidates(cs: seq<Assertion>) returns (unique: bool, byId: map<string, Assertion>)
    ensures unique <==> UniqueCandidates(cs)
    ensures unique ==> forall id :: id in byId <==> exists j :: 0 <= j < |cs| && cs[j].id == id
  {
    byId := map[];
    for i := 0 to |cs|
      invariant UniqueCandidates(cs[..i])
      invariant forall id :: id in byId <==> exists j :: 0 <= j < i && cs[j].id == id
    {
      if cs[i].id in byId { return false, byId; }
      byId := byId[cs[i].id := cs[i]];
    }
    assert cs[..|cs|] == cs;
    return true, byId;
  }

  method IndexItems(items: seq<Item>) returns (byId: map<string, Item>)
    requires UniqueItems(items)
    ensures forall id :: id in byId <==> exists j :: 0 <= j < |items| && items[j].id == id
    ensures forall j :: 0 <= j < |items| ==> byId[items[j].id] == items[j]
  {
    byId := map[];
    for i := 0 to |items|
      invariant forall id :: id in byId <==> exists j :: 0 <= j < i && items[j].id == id
      invariant forall j :: 0 <= j < i ==> byId[items[j].id] == items[j]
    {
      byId := byId[items[i].id := items[i]];
    }
  }

  method CandidateChanges(cs: seq<Assertion>, items: seq<Item>, baselineItems: map<string, Item>, replay: bool)
    returns (changes: seq<Change>)
    requires UniqueCandidates(cs) && UniqueItems(items)
    requires forall id :: id in baselineItems <==> exists j :: 0 <= j < |items| && items[j].id == id
    requires forall j :: 0 <= j < |items| ==> baselineItems[items[j].id] == items[j]
    ensures FirstLoop(cs, items, replay, |cs|, changes)
  {
    changes := [];
    for i := 0 to |cs|
      invariant FirstLoop(cs, items, replay, i, changes)
    {
      var c := cs[i];
      ghost var before := changes;
      LookupIsItemAt(items, baselineItems, c.id);
      if c.id !in baselineItems {
        changes := changes + [Change(Added, c.id, c.kind, None, None, Some(c))];
      } else if baselineItems[c.id].hash != PayloadHash(c) {
        changes := changes + [Change(Modified, c.id, c.kind, Some(baselineItems[c.id].hash), None, Some(c))];
      } else if baselineItems[c.id].review.Rejected? && replay {
        changes := changes + [Change(PreviouslyRejected, c.id, c.kind, Some(baselineItems[c.id].hash), Some(ReviewState.Rejected), Some(c))];
      }
      FirstLoopStep(cs, items, replay, i, before, changes);
    }
  }

  lemma LookupIsItemAt(items: seq<Item>, byId: map<string, Item>, id: string)
    requires UniqueItems(items)
    requires forall id :: id in byId <==> exists j :: 0 <= j < |items| && items[j].id == id
    requires forall j :: 0 <= j < |items| ==> byId[items[j].id] == items[j]
    ensures ItemAt(items, id) == if id in byId then Some(byId[id]) else None
  {
    if id in byId {
      var j :| 0 <= j < |items| && items[j].id == id;
      ItemIsAt(items, j);
    }
  }

  method AddMissing(cs: seq<Assertion>, items: seq<Item>, candidateById: map<string, Assertion>, complete: bool, replay: bool,
                    found: seq<Change>)
    returns (changes: seq<Change>)
    requires UniqueItems(items) && FirstLoop(cs, items, replay, |cs|, found)
    requires forall id :: id in candidateById <==> exists j :: 0 <= j < |cs| && cs[j].id == id
    ensures SecondLoop(cs, items, complete, replay, |items|, changes)
  {
    changes := found;
    for i := 0 to |items|
      invariant SecondLoop(cs, items, complete, replay, i, changes)
    {
      var b := items[i];
      ghost var before := changes;
      if b.id !in candidateById && !b.review.Rejected? {
        changes := changes + [Change(if complete then Deleted else Stale, b.id, b.kind, Some(b.hash), Some(b.review), None)];
      }
      SecondLoopStep(cs, items, complete, replay, i, before, changes);
    }
  }

  // ---- what each change says ----

  /** What a baseline says of its assertions. */
  lemma BaselineItems(b: Baseline, i: nat)
    requires i < |Items(b)|
    ensures b.OfDraft? ==>
      var a := b.draft.assertions[i]; Items(b)[i] == Item(a.id, a.kind, Digest(a.kind, a.payload), a.review)
    ensures b.OfManifest? ==>
      var a := b.manifest.assertions[i]; Items(b)[i] == Item(a.id, a.kind, a.hash, ReviewState.Accepted)
  {
  }

  /** No rediscovered assertion has the id. */
  ghost predicate NotRediscovered(cs: seq<Assertion>, id: string) { forall c :: c in cs ==> c.id != id }

  ghost predicate NotInBaseline(items: seq<Item>, id: string) { forall b :: b in items ==> b.id != id }

  /** A rediscovered assertion with its item of the baseline. */
  ghost predicate Both(cs: seq<Assertion>, items: seq<Item>, id: string, c: Assertion, b: Item) {
    c in cs && b in items && c.id == b.id == id
  }

  /** Added: only rediscovered.  Modified: in both with different content.  Previously
      rejected: in both with the same content, rejected, and replayed.  Deleted or stale:
      only in the baseline and not rejected. */
  ghost predicate IsChange(cs: seq<Assertion>, items: seq<Item>, complete: bool, replay: bool, ch: Change) {
    match ch.kind
    case Added =>
      (exists c :: c in cs && c.id == ch.id && NotInBaseline(items, ch.id) && ch == Change(Added, c.id, c.kind, None, None, Some(c)))
    case Modified =>
      (exists c, b :: Both(cs, items, ch.id, c, b) && b.hash != PayloadHash(c)
                   && ch == Change(Modified, c.id, c.kind, Some(b.hash), None, Some(c)))
    case PreviouslyRejected =>
      replay &&
      (exists c, b :: Both(cs, items, ch.id, c, b) && b.hash == PayloadHash(c) && b.review.Rejected?
                   && ch == Change(PreviouslyRejected, c.id, c.kind, Some(b.hash), Some(ReviewState.Rejected), Some(c)))
    case Deleted => complete && NotRediscovered(cs, ch.id) && IsLeftOver(items, ch)
    case Stale => !complete && NotRediscovered(cs, ch.id) && IsLeftOver(items, ch)
  }

  /** The change repeats what the baseline says of an assertion that is not rejected. */
  ghost predicate IsLeftOver(items: seq<Item>, ch: Change) {
    exists b :: b in items && b.id == ch.id && !b.review.Rejected?
             && ch == Change(ch.kind, b.id, b.kind, Some(b.hash), Some(b.review), None)
  }

  lemma CandidateIs(cs: seq<Assertion>, id: string)
    requires UniqueCandidates(cs)
    ensures CandidateAt(cs, id).None? <==> NotRediscovered(cs, id)
    ensures forall c :: c in cs && c.id == id ==> CandidateAt(cs, id) == Some(c)
  {
    forall c | c in cs && c.id == id ensures CandidateAt(cs, id) == Some(c) {
      var i :| 0 <= i < |cs| && cs[i] == c;
      CandidateIsAt(cs, i);
    }
  }

  lemma ItemIs(items: seq<Item>, id: string)
    requires UniqueItems(items)
    ensures ItemAt(items, id).None? <==> NotInBaseline(items, id)
    ensures forall b :: b in items && b.id == id ==> ItemAt(items, id) == Some(b)
  {
    forall b | b in items && b.id == id ensures ItemAt(items, id) == Some(b) {
      var i :| 0 <= i < |items| && items[i] == b;
      ItemIsAt(items, i);
    }
  }

  lemma WantedIs(cs: seq<Assertion>, items: seq<Item>, complete: bool, replay: bool, ch: Change)
    requires UniqueCandidates(cs) && UniqueItems(items)
    ensures Wanted(cs, items, complete, replay, ch.id) == Some(ch) <==> IsChange(cs, items, complete, replay, ch)
  {
    var c, b := CandidateAt(cs, ch.id), ItemAt(items, ch.id);
    CandidateIs(cs, ch.id);
    ItemIs(items, ch.id);
    if c.Some? && b.Some? { assert Both(cs, items, ch.id, c.value, b.value); }
  }

  /** The changes reported are exactly these. */
  lemma ChangesAre(cs: seq<Assertion>, items: seq<Item>, complete: bool, replay: bool, changes: seq<Change>, ch: Change)
    requires UniqueCandidates(cs) && UniqueItems(items) && Aligned(cs, items, complete, replay, changes)
    ensures ch in changes <==> IsChange(cs, items, complete, replay, ch)
  {
    WantedIs(cs, items, complete, replay, ch);
  }

  // ---- the changes as a patch ----

  /** The semantic content per id. */
  function Look(m: map<string, Digest>, id: string): Option<Digest> { if id in m then Some(m[id]) else None }

  function Put(m: map<string, Digest>, id: string, content: Option<Digest>): map<string, Digest> {
    if content.Some? then m[id := content.value] else m - {id}
  }

  /** What an operator who takes a change over ends up with at its id. */
  function Effect(ch: Change, current: Option<Digest>): Option<Digest> {
    match ch.kind
    case Deleted => None
    case Stale => current
    case _ => if ch.candidate.Some? then Some(PayloadHash(ch.candidate.value)) else current
  }

  /** Takes the changes over, one after the other. */
  function Patch(m: map<string, Digest>, changes: seq<Change>): map<string, Digest>
    decreases |changes|
  {
    if changes == [] then m
    else
      var ch := changes[|changes| - 1];
      var before := Patch(m, changes[..|changes| - 1]);
      Put(before, ch.id, Effect(ch, Look(before, ch.id)))
  }

  lemma {:induction false} PatchElsewhere(m: map<string, Digest>, changes: seq<Change>, id: string)
    requires forall ch :: ch in changes ==> ch.id != id
    ensures Look(Patch(m, changes), id) == Look(m, id)
    decreases |changes|
  {
    if changes != [] {
      assert changes[|changes| - 1] in changes;
      PatchElsewhere(m, changes[..|changes| - 1], id);
    }
  }

  lemma {:induction false} PatchAt(m: map<string, Digest>, changes: seq<Change>, ch: Change)
    requires ch in changes && forall i, j :: 0 <= i < j < |changes| ==> changes[i].id != changes[j].id
    ensures Look(Patch(m, changes), ch.id) == Effect(ch, Look(m, ch.id))
    decreases |changes|
  {
    var n, front := |changes| - 1, changes[..|changes| - 1];
    assert changes == front + [changes[n]];
    if changes[n] == ch {
      forall x | x in front ensures x.id != ch.id {
        var i :| 0 <= i < |front| && front[i] == x;
        assert changes[i].id != changes[n].id;
      }
      PatchElsewhere(m, front, ch.id);
    } else {
      var i :| 0 <= i < |changes| && changes[i] == ch;
      assert changes[i].id != changes[n].id;
      assert ch in front;
      PatchAt(m, front, ch);
    }
  }

  lemma AlignedDistinct(cs: seq<Assertion>, items: seq<Item>, complete: bool, replay: bool, changes: seq<Change>)
    requires Aligned(cs, items, complete, replay, changes)
    ensures forall i, j :: 0 <= i < j < |changes| ==> changes[i].id != changes[j].id
  {
    forall i, j | 0 <= i < j < |changes| ensures changes[i].id != changes[j].id {
      assert LexLess(ChangeKey(changes[i]), ChangeKey(changes[j]));
    }
  }

  /** The content of the baseline. */
  ghost predicate Describes(m: map<string, Digest>, items: seq<Item>) {
    forall id :: Look(m, id) == var b := ItemAt(items, id); if b.Some? then Some(b.value.hash) else None
  }

  /** What the patched baseline should hold: the candidates, and of the rest what was
      rejected when discovery is complete, or everything when it is not. */
  function Target(c: Option<Assertion>, b: Option<Item>, complete: bool): Option<Digest> {
    if c.Some? then Some(PayloadHash(c.value))
    else if b.Some? && (b.value.review.Rejected? || !complete) then Some(b.value.hash)
    else None
  }

  lemma ChangeReachesTarget(c: Option<Assertion>, b: Option<Item>, complete: bool, replay: bool)
    ensures var ch, current := ChangeFor(c, b, complete, replay), if b.Some? then Some(b.value.hash) else None;
      (if ch.Some? then Effect(ch.value, current) else current) == Target(c, b, complete)
  {
  }

  /** The changes are a correct patch: applied to the baseline they give exactly the
      candidates plus the rejected assertions that were not rediscovered; incomplete
      discovery takes nothing away. */
  lemma PatchIsCorrect(cs: seq<Assertion>, items: seq<Item>, complete: bool, replay: bool, changes: seq<Change>,
                       m: map<string, Digest>, id: string)
    requires Aligned(cs, items, complete, replay, changes) && Describes(m, items)
    ensures Look(Patch(m, changes), id) == Target(CandidateAt(cs, id), ItemAt(items, id), complete)
  {
    var ch := Wanted(cs, items, complete, replay, id);
    ChangeReachesTarget(CandidateAt(cs, id), ItemAt(items, id), complete, replay);
    AlignedDistinct(cs, items, complete, replay, changes);
    if ch.Some? {
      assert ch.value.id == id;
      PatchAt(m, changes, ch.value);
    } else {
      NotWanted(cs, items, complete, replay, changes, id);
      PatchElsewhere(m, changes, id);
    }
  }

  lemma NotWanted(cs: seq<Assertion>, items: seq<Item>, complete: bool, replay: bool, changes: seq<Change>, id: string)
    requires Aligned(cs, items, complete, replay, changes) && Wanted(cs, items, complete, replay, id).None?
    ensures forall ch :: ch in changes ==> ch.id != id
  {
  }

  // ---- manifest against draft ----

  lemma ManifestItemAt(d: Draft, m: AcceptedManifest, fingerprint: string, id: string)
    requires Valid(d) && FromDraft(d, fingerprint) == Ok(m)
    ensures var b, p := ItemAt(Items(OfDraft(d)), id), ItemAt(Items(OfManifest(m)), id);
      p == if b.Some? && !b.value.review.Rejected? then b else None
  {
    ManifestIsAccepted(d, fingerprint);
    var ds, ms := Items(OfDraft(d)), Items(OfManifest(m));
    var b, p := ItemAt(ds, id), ItemAt(ms, id);
    DraftItemsUnique(d);
    if p.Some? {
      var i: nat :| i < |ms| && ms[i] == p.value;
      var j := ManifestOrigin(d, m, fingerprint, i);
      ItemIsAt(ds, j);
    } else if b.Some? {
      var j: nat :| j < |ds| && ds[j] == b.value;
      assert !d.assertions[j].review.Pending?;
      if d.assertions[j].review.Accepted? { AcceptedInManifest(d, m, fingerprint, j); }
    }
  }

  lemma ManifestOrigin(d: Draft, m: AcceptedManifest, fingerprint: string, i: nat) returns (j: nat)
    requires Valid(d) && FromDraft(d, fingerprint) == Ok(m) && i < |m.assertions|
    ensures j < |d.assertions| && d.assertions[j].review.Accepted? && Items(OfDraft(d))[j] == Items(OfManifest(m))[i]
  {
    ManifestIsAccepted(d, fingerprint);
    assert m.assertions[i] in m.assertions;
    var a :| a in d.assertions && a.review.Accepted? && m.assertions[i] == Content(a);
    j :| 0 <= j < |d.assertions| && d.assertions[j] == a;
  }

  lemma AcceptedInManifest(d: Draft, m: AcceptedManifest, fingerprint: string, j: nat)
    requires Valid(d) && FromDraft(d, fingerprint) == Ok(m) && j < |d.assertions| && d.assertions[j].review.Accepted?
    ensures ItemAt(Items(OfManifest(m)), d.assertions[j].id).Some?
  {
    ManifestIsAccepted(d, fingerprint);
    var x := Content(d.assertions[j]);
    assert d.assertions[j] in d.assertions;
    assert x in m.assertions;
    var i :| 0 <= i < |m.assertions| && m.assertions[i] == x;
    assert Items(OfManifest(m))[i].id == x.id;
  }

  lemma DraftItemsUnique(d: Draft)
    requires Valid(d)
    ensures UniqueItems(Items(OfDraft(d)))
  {
  }

  /** Against an approved draft and against its manifest the same changes result at an
      id exactly when the id is not one that was rejected and is rediscovered. */
  lemma ManifestDiffersOnRejected(d: Draft, m: AcceptedManifest, fingerprint: string, cs: seq<Assertion>,
                                  complete: bool, replay: bool, id: string)
    requires Valid(d) && FromDraft(d, fingerprint) == Ok(m)
    ensures Wanted(cs, Items(OfDraft(d)), complete, replay, id) == Wanted(cs, Items(OfManifest(m)), complete, replay, id)
       <==> !(CandidateAt(cs, id).Some? && ItemAt(Items(OfDraft(d)), id).Some? && ItemAt(Items(OfDraft(d)), id).value.review.Rejected?)
  {
    ManifestItemAt(d, m, fingerprint, id);
  }
}
