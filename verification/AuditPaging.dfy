/** Deterministic ordering and cursor paging of audit entries. */
module AuditPaging {
  import opened Options
  import opened Ordering
  import opened AuditEvidence

  const MAX_TRAIL_ENTRIES := 200

  /** By occurrence time, then by event id. */
  function EntryKey(e: Entry): seq<int> { [e.occurredAt] + Codes(e.eventId) }

  function OrderEntries(log: seq<Entry>): seq<Entry> { SortBy(log, EntryKey) }

  datatype Page = Page(entries: seq<Entry>, totalCount: nat, nextCursor: Option<string>, hasMore: bool)

  /** The ordered entries that a page continues with; an unknown cursor restarts. */
  function Remaining(ordered: seq<Entry>, cursor: Option<string>): seq<Entry> {
    if cursor.None? then ordered
    else
      var i := FindEvent(ordered, cursor.value);
      if i < |ordered| then ordered[i + 1..] else ordered
  }

  predicate LegalLimit(limit: int) { 1 <= limit <= MAX_TRAIL_ENTRIES }

  /** The first `limit` entries, and the id of the last of them when more follow. */
  function PageOf(rest: seq<Entry>, limit: nat): Page
    requires limit > 0
  {
    if |rest| <= limit then Page(rest, |rest|, None, false)
    else Page(rest[..limit], |rest|, Some(rest[limit - 1].eventId), true)
  }

  /** One page; `None` is the error for a limit out of bounds. */
  function BoundedTrail(log: seq<Entry>, limit: int, cursor: Option<string>): Option<Page> {
    var ordered := OrderEntries(log);
    if !LegalLimit(limit) then None else Some(PageOf(Remaining(ordered, cursor), limit))
  }

  /** What the page model demands of every page it accepts. */
  predicate ValidPage(p: Page) {
    && |p.entries| <= MAX_TRAIL_ENTRIES
    && (p.nextCursor.Some? ==> p.entries != [] && p.nextCursor.value == p.entries[|p.entries| - 1].eventId && p.hasMore)
  }

  /** Pages are built for legal limits only, and every page that is built is valid. */
  lemma PageIsValid(log: seq<Entry>, limit: int, cursor: Option<string>)
    ensures var page := BoundedTrail(log, limit, cursor);
      && (page.Some? <==> 1 <= limit <= 200)
      && (page.Some? ==> ValidPage(page.value) && (page.value.hasMore <==> page.value.nextCursor.Some?))
  {
  }

  // ---- the order ----

  lemma SameKey(a: Entry, b: Entry)
    ensures EntryKey(a) == EntryKey(b) ==> a.eventId == b.eventId
  {
    if EntryKey(a) == EntryKey(b) {
      assert Codes(a.eventId) == EntryKey(a)[1..] == EntryKey(b)[1..] == Codes(b.eventId);
      forall i | 0 <= i < |a.eventId| ensures a.eventId[i] == b.eventId[i] {
        assert Codes(a.eventId)[i] == Codes(b.eventId)[i];
      }
    }
  }

  /** One event id names one entry. */
  ghost predicate Identified(ordered: seq<Entry>) {
    forall e, f :: e in ordered && f in ordered && e.eventId == f.eventId ==> e == f
  }

  /** A log with unique event ids is ordered strictly. */
  lemma OrderedLog(log: seq<Entry>)
    requires UniqueIds(log)
    ensures StrictlySortedBy(OrderEntries(log), EntryKey)
    ensures forall e :: e in OrderEntries(log) <==> e in log
    ensures |OrderEntries(log)| == |log| && Identified(OrderEntries(log))
  {
    forall i, j | 0 <= i < j < |log| ensures EntryKey(log[i]) != EntryKey(log[j]) {
      SameKey(log[i], log[j]);
    }
    SortByStrict(log, EntryKey);
    SortByMembers(log, EntryKey);
  }

  /** The order of the trail: the earlier time first, and the smaller event id, by code
      points, among entries of one time. */
  lemma EntryOrderIs(a: Entry, b: Entry)
    ensures LexLess(EntryKey(a), EntryKey(b))
       <==> a.occurredAt < b.occurredAt || (a.occurredAt == b.occurredAt && LexLess(Codes(a.eventId), Codes(b.eventId)))
  {
    var x, y := EntryKey(a), EntryKey(b);
    assert x[1..] == Codes(a.eventId) && y[1..] == Codes(b.eventId);
    assert x == [a.occurredAt] + x[1..] && y == [b.occurredAt] + y[1..];
  }

  /** After the entry that has the cursor's id; without a cursor, or where no entry has
      that id, every entry follows. */
  ghost predicate Follows(log: seq<Entry>, cursor: Option<string>, e: Entry) {
    cursor.Some? ==> forall f :: f in log && f.eventId == cursor.value ==> LexLess(EntryKey(f), EntryKey(e))
  }

  /** A page holds the first entries, up to the limit, of all entries that follow the
      cursor, in order, and tells how many these are and whether some are left. */
  lemma PageContents(log: seq<Entry>, limit: int, cursor: Option<string>) returns (rest: seq<Entry>)
    requires UniqueIds(log) && 1 <= limit <= 200
    ensures StrictlySortedBy(rest, EntryKey)
    ensures forall e :: e in rest <==> e in log && Follows(log, cursor, e)
    ensures BoundedTrail(log, limit, cursor)
         == Some(Page(if |rest| > limit then rest[..limit] else rest, |rest|,
                      if |rest| > limit then Some(rest[limit - 1].eventId) else None, |rest| > limit))
  {
    OrderedLog(log);
    var ordered := OrderEntries(log);
    rest := Remaining(ordered, cursor);
    if cursor.None? || FindEvent(ordered, cursor.value) == |ordered| {
      forall e | e in ordered ensures Follows(log, cursor, e) {
        forall f | cursor.Some? && f in log ensures f.eventId != cursor.value { NotFound(ordered, cursor.value, f); }
      }
    } else {
      var i := FindEvent(ordered, cursor.value);
      SortedFrom(ordered, i + 1);
      assert ordered[i] in ordered;
      forall e ensures e in rest <==> e in log && Follows(log, cursor, e) { RestFollows(log, ordered, i, e); }
    }
  }

  lemma NotFound(ordered: seq<Entry>, id: string, f: Entry)
    requires FindEvent(ordered, id) == |ordered| && f in ordered
    ensures f.eventId != id
  {
    var j :| 0 <= j < |ordered| && ordered[j] == f;
  }

  lemma RestFollows(log: seq<Entry>, ordered: seq<Entry>, i: nat, e: Entry)
    requires StrictlySortedBy(ordered, EntryKey) && Identified(ordered) && i < |ordered|
    requires forall f :: f in ordered <==> f in log
    ensures e in ordered[i + 1..] <==> e in log && Follows(log, Some(ordered[i].eventId), e)
  {
    var c := ordered[i];
    assert c in ordered && c in ordered[..i + 1];
    assert forall f :: f in log && f.eventId == c.eventId ==> f == c;
    if e in ordered[i + 1..] {
      BeforeAfter(ordered, i + 1, c, e);
    } else if e in log {
      EitherSide(ordered, i + 1, e);
      var j :| 0 <= j < i + 1 && ordered[..i + 1][j] == e;
      NotLater(ordered, j, i);
    }
  }

  /** Past the start, or strictly after an entry. */
  predicate Past(c: Option<Entry>, e: Entry) {
    c.None? || LexLess(EntryKey(c.value), EntryKey(e))
  }

  function CursorOf(c: Option<Entry>): Option<string> {
    if c.None? then None else Some(c.value.eventId)
  }

  /** Where a page starts: after the entry that has the cursor's id now, or at the
      beginning. */
  function ResumeAt(ordered: seq<Entry>, c: Option<Entry>): (i: nat)
    ensures i <= |ordered|
  {
    if c.None? then 0
    else
      var i := FindEvent(ordered, c.value.eventId);
      if i < |ordered| then i + 1 else 0
  }

  /** The page would start past the cursor entry. */
  predicate Safe(c: Option<Entry>, ordered: seq<Entry>) {
    ResumeAt(ordered, c) == |ordered| || Past(c, ordered[ResumeAt(ordered, c)])
  }

  /** An entry past the cursor entry that the page starts after: the cursor's id has
      been recorded again with a later time. */
  ghost predicate Skipped(c: Option<Entry>, ordered: seq<Entry>, e: Entry) {
    Past(c, e) && e in ordered[..ResumeAt(ordered, c)]
  }

  lemma RemainingIs(ordered: seq<Entry>, c: Option<Entry>)
    ensures Remaining(ordered, CursorOf(c)) == ordered[ResumeAt(ordered, c)..]
  {
  }

  lemma SortedFrom(ordered: seq<Entry>, k: nat)
    requires StrictlySortedBy(ordered, EntryKey) && k <= |ordered|
    ensures StrictlySortedBy(ordered[k..], EntryKey)
    ensures forall e :: e in ordered[k..] ==> e in ordered
  {
    var rest := ordered[k..];
    forall i, j | 0 <= i < j < |rest| ensures LexLess(EntryKey(rest[i]), EntryKey(rest[j])) {
      assert rest[i] == ordered[k + i] && rest[j] == ordered[k + j];
    }
  }

  /** From a safe cursor only entries past it remain. */
  lemma SafeRemaining(ordered: seq<Entry>, c: Option<Entry>, e: Entry)
    requires StrictlySortedBy(ordered, EntryKey) && Safe(c, ordered) && e in ordered[ResumeAt(ordered, c)..]
    ensures Past(c, e)
  {
    var k := ResumeAt(ordered, c);
    var i :| 0 <= i < |ordered[k..]| && ordered[k..][i] == e;
    assert e == ordered[k + i];
    if c.Some? && i > 0 { LexLessTransitive(EntryKey(c.value), EntryKey(ordered[k]), EntryKey(e)); }
  }

  lemma BeforeAfter(ordered: seq<Entry>, k: nat, e: Entry, f: Entry)
    requires StrictlySortedBy(ordered, EntryKey) && k <= |ordered| && e in ordered[..k] && f in ordered[k..]
    ensures LexLess(EntryKey(e), EntryKey(f))
  {
    var i :| 0 <= i < k && ordered[..k][i] == e;
    var j :| 0 <= j < |ordered[k..]| && ordered[k..][j] == f;
    assert ordered[i] == e && ordered[k + j] == f;
  }

  lemma EitherSide(ordered: seq<Entry>, k: nat, e: Entry)
    requires k <= |ordered| && e in ordered
    ensures e in ordered[..k] || e in ordered[k..]
  {
    assert ordered == ordered[..k] + ordered[k..];
  }

  lemma DistinctAt(ordered: seq<Entry>, i: nat, k: nat)
    requires StrictlySortedBy(ordered, EntryKey) && i < k < |ordered|
    ensures ordered[i] != ordered[k]
  {
    assert LexLess(EntryKey(ordered[i]), EntryKey(ordered[k]));
  }

  lemma RemainingAt(ordered: seq<Entry>, k: nat)
    requires StrictlySortedBy(ordered, EntryKey) && Identified(ordered) && k < |ordered|
    ensures Remaining(ordered, Some(ordered[k].eventId)) == ordered[k + 1..]
  {
    var i := FindEvent(ordered, ordered[k].eventId);
    assert i <= k;
    if i < k { DistinctAt(ordered, i, k); }
    assert ordered[i] in ordered && ordered[k] in ordered;
  }

  lemma RemainingRestarts(ordered: seq<Entry>, id: string)
    requires forall e :: e in ordered ==> e.eventId != id
    ensures Remaining(ordered, Some(id)) == ordered
  {
    forall i | 0 <= i < |ordered| ensures ordered[i].eventId != id { assert ordered[i] in ordered; }
  }

  // ---- following cursors while the log changes ----

  /** One request: the ordered log at that moment and the requested limit. */
  datatype Visit = Visit(ordered: seq<Entry>, limit: Positive)

  type Positive = n: nat | n > 0 witness 1

  function Served(v: Visit, cursor: Option<string>): Page {
    PageOf(Remaining(v.ordered, cursor), v.limit)
  }

  /** All entries returned when each page's cursor starts the next request. */
  ghost function Follow(visits: seq<Visit>, cursor: Option<string>): seq<Entry> {
    if visits == [] then []
    else
      var p := Served(visits[0], cursor);
      if p.nextCursor.None? then p.entries else p.entries + Follow(visits[1..], p.nextCursor)
  }

  /** Some page announced no more entries. */
  ghost predicate Finished(visits: seq<Visit>, cursor: Option<string>) {
    visits != [] &&
    var p := Served(visits[0], cursor);
    p.nextCursor.None? || Finished(visits[1..], p.nextCursor)
  }

  ghost predicate Legal(v: Visit) {
    LegalLimit(v.limit) && StrictlySortedBy(v.ordered, EntryKey) && Identified(v.ordered)
  }

  ghost predicate AllLegal(visits: seq<Visit>) { forall v :: v in visits ==> Legal(v) }

  /** The entry that the next request's cursor names. */
  function NextEntry(p: Page): Option<Entry> {
    if p.nextCursor.None? || p.entries == [] then None else Some(p.entries[|p.entries| - 1])
  }

  /** Every cursor that is handed back is safe in the log that it meets. */
  ghost predicate CursorsSafe(visits: seq<Visit>, c: Option<Entry>) {
    visits == [] ||
    (&& Safe(c, visits[0].ordered)
     && var p := Served(visits[0], CursorOf(c));
        (p.nextCursor.Some? ==> CursorsSafe(visits[1..], NextEntry(p))))
  }

  /** No request skips the entry. */
  ghost predicate NeverSkipped(visits: seq<Visit>, c: Option<Entry>, e: Entry) {
    visits == [] ||
    (&& !Skipped(c, visits[0].ordered, e)
     && var p := Served(visits[0], CursorOf(c));
        (p.nextCursor.Some? ==> NeverSkipped(visits[1..], NextEntry(p), e)))
  }

  lemma BeyondPrefix(rest: seq<Entry>, limit: nat, e: Entry)
    requires StrictlySortedBy(rest, EntryKey) && 0 < limit < |rest|
    requires e in rest && !LexLess(EntryKey(rest[limit - 1]), EntryKey(e))
    ensures e in rest[..limit]
  {
    var j :| 0 <= j < |rest| && rest[j] == e;
    assert j < limit;
    assert rest[..limit][j] == e;
  }

  /** A page holds the first of the remaining entries; what it leaves out is past the
      entry that its own cursor names. */
  lemma PageStep(v: Visit, c: Option<Entry>) returns (p: Page, last: Option<Entry>)
    requires Legal(v)
    ensures p == Served(v, CursorOf(c)) && p.nextCursor == CursorOf(last) && last == NextEntry(p)
    ensures var rest := v.ordered[ResumeAt(v.ordered, c)..];
      && StrictlySortedBy(p.entries, EntryKey) && (forall e :: e in p.entries ==> e in rest)
      && (last.None? ==> p.entries == rest)
      && (last.Some? ==> last.value in rest && p.entries != [] && last.value == p.entries[|p.entries| - 1])
      && (last.Some? ==> forall e :: e in rest && !Past(last, e) ==> e in p.entries)
      && (rest != [] ==> p.entries != [] && p.entries[0] == rest[0])
  {
    RemainingIs(v.ordered, c);
    SortedFrom(v.ordered, ResumeAt(v.ordered, c));
    p, last := PagePrefix(v.ordered[ResumeAt(v.ordered, c)..], v.limit);
  }

  lemma PagePrefix(rest: seq<Entry>, limit: nat) returns (p: Page, last: Option<Entry>)
    requires StrictlySortedBy(rest, EntryKey) && limit > 0
    ensures p == PageOf(rest, limit) && p.nextCursor == CursorOf(last)
    ensures StrictlySortedBy(p.entries, EntryKey) && forall e :: e in p.entries ==> e in rest
    ensures last.None? ==> p.entries == rest
    ensures last.Some? ==> last.value in rest && p.entries != [] && last.value == p.entries[|p.entries| - 1]
    ensures last.Some? ==> forall e :: e in rest && !Past(last, e) ==> e in p.entries
    ensures last == NextEntry(p) && (rest != [] ==> p.entries != [] && p.entries[0] == rest[0])
  {
    p := PageOf(rest, limit);
    if |rest| <= limit {
      last := None;
    } else {
      last := Some(rest[limit - 1]);
      forall e | e in rest && !Past(last, e) ensures e in rest[..limit] {
        BeyondPrefix(rest, limit, e);
      }
    }
  }

  lemma JoinSorted(a: seq<Entry>, b: seq<Entry>, last: Entry, c: Option<Entry>)
    requires a != [] && a[|a| - 1] == last && StrictlySortedBy(a, EntryKey) && StrictlySortedBy(b, EntryKey)
    requires (forall e :: e in a ==> Past(c, e)) && forall e :: e in b ==> Past(Some(last), e)
    ensures StrictlySortedBy(a + b, EntryKey)
    ensures forall e :: e in a + b ==> Past(c, e)
  {
    forall j | 0 <= j < |b| ensures LexLess(EntryKey(last), EntryKey(b[j])) && Past(c, b[j]) {
      assert b[j] in b && last in a;
      if c.Some? { LexLessTransitive(EntryKey(c.value), EntryKey(last), EntryKey(b[j])); }
    }
    forall i, j | 0 <= i < |a| && 0 <= j < |b| ensures LexLess(EntryKey(a[i]), EntryKey(b[j])) {
      if i < |a| - 1 {
        LexLessTransitive(EntryKey(a[i]), EntryKey(last), EntryKey(b[j]));
      }
    }
    forall e | e in a + b ensures Past(c, e) {
      if e in b {
        var j :| 0 <= j < |b| && b[j] == e;
      }
    }
  }

  /** In strictly increasing order and all past a cursor. */
  ghost predicate Onward(c: Option<Entry>, entries: seq<Entry>) {
    StrictlySortedBy(entries, EntryKey) && forall e :: e in entries ==> Past(c, e)
  }

  /** Following safe cursors returns entries in strictly increasing order, hence never
      one twice, whatever is appended, dropped or recorded again in between. */
  lemma {:induction false} FollowNeverRepeats(visits: seq<Visit>, c: Option<Entry>)
    requires AllLegal(visits) && CursorsSafe(visits, c)
    ensures Onward(c, Follow(visits, CursorOf(c)))
  {
    if visits != [] {
      assert visits[0] in visits;
      var p, last := PageStep(visits[0], c);
      forall e | e in p.entries ensures Past(c, e) { SafeRemaining(visits[0].ordered, c, e); }
      if last.Some? {
        assert forall w :: w in visits[1..] ==> w in visits;
        FollowNeverRepeats(visits[1..], last);
        JoinSorted(p.entries, Follow(visits[1..], p.nextCursor), last.value, c);
      }
    }
  }

  // ---- which entries are returned ----

  /** The entry that the next cursor names is past the present one. */
  lemma NextIsPast(v: Visit, c: Option<Entry>, last: Entry)
    requires Legal(v) && Safe(c, v.ordered) && NextEntry(Served(v, CursorOf(c))) == Some(last)
    ensures Past(c, last) && last in v.ordered[ResumeAt(v.ordered, c)..]
  {
    var p, next := PageStep(v, c);
    SafeRemaining(v.ordered, c, last);
  }

  /** An entry that the reading has passed is not skipped any more. */
  lemma {:induction false} PassedIsNotSkipped(visits: seq<Visit>, c: Option<Entry>, e: Entry)
    requires AllLegal(visits) && CursorsSafe(visits, c) && !Past(c, e)
    ensures NeverSkipped(visits, c, e)
  {
    if visits != [] {
      assert visits[0] in visits;
      var p, last := PageStep(visits[0], c);
      if last.Some? {
        NextIsPast(visits[0], c, last.value);
        if Past(last, e) { LexLessTransitive(EntryKey(c.value), EntryKey(last.value), EntryKey(e)); }
        assert forall w :: w in visits[1..] ==> w in visits;
        PassedIsNotSkipped(visits[1..], last, e);
      }
    }
  }

  /** What is not past an entry is not returned after it. */
  lemma NotReturnedLater(visits: seq<Visit>, last: Entry, e: Entry)
    requires AllLegal(visits) && CursorsSafe(visits, Some(last)) && !Past(Some(last), e)
    ensures e !in Follow(visits, Some(last.eventId))
  {
    FollowNeverRepeats(visits, Some(last));
    assert CursorOf(Some(last)) == Some(last.eventId);
  }

  lemma LastIsLargest(entries: seq<Entry>, e: Entry)
    requires StrictlySortedBy(entries, EntryKey) && entries != [] && e in entries
    ensures !Past(Some(entries[|entries| - 1]), e)
  {
    var i :| 0 <= i < |entries| && entries[i] == e;
    var last := entries[|entries| - 1];
    if i < |entries| - 1 {
      assert LexLess(EntryKey(e), EntryKey(last));
      if LexLeq(EntryKey(last), EntryKey(e)) { LexAntisymmetric(EntryKey(e), EntryKey(last)); }
    }
  }

  /** An entry that a request skips is not returned by it or after it. */
  lemma SkippedIsLost(visits: seq<Visit>, c: Option<Entry>, e: Entry)
    requires visits != [] && AllLegal(visits) && CursorsSafe(visits, c) && Skipped(c, visits[0].ordered, e)
    ensures e !in Follow(visits, CursorOf(c))
  {
    assert visits[0] in visits;
    var v := visits[0];
    var k := ResumeAt(v.ordered, c);
    var p, last := PageStep(v, c);
    if e in v.ordered[k..] { BeforeAfter(v.ordered, k, e, e); }
    assert e !in p.entries;
    if last.Some? {
      BeforeAfter(v.ordered, k, e, last.value);
      if Past(last, e) { LexAntisymmetric(EntryKey(e), EntryKey(last.value)); }
      assert forall w :: w in visits[1..] ==> w in visits;
      NotReturnedLater(visits[1..], last.value, e);
    }
  }

  /** When the pages are exhausted, an entry present throughout has been returned exactly
      when no request skipped it. */
  lemma {:induction false} FollowReturnsIff(visits: seq<Visit>, c: Option<Entry>, e: Entry)
    requires AllLegal(visits) && CursorsSafe(visits, c) && Finished(visits, CursorOf(c))
    requires (forall v :: v in visits ==> e in v.ordered) && Past(c, e)
    ensures e in Follow(visits, CursorOf(c)) <==> NeverSkipped(visits, c, e)
  {
    assert visits[0] in visits;
    var v := visits[0];
    if Skipped(c, v.ordered, e) {
      SkippedIsLost(visits, c, e);
    } else {
      var p, last := PageStep(v, c);
      EitherSide(v.ordered, ResumeAt(v.ordered, c), e);
      if last.Some? {
        assert forall w :: w in visits[1..] ==> w in visits;
        if Past(last, e) {
          if e in p.entries { LastIsLargest(p.entries, e); }
          FollowReturnsIff(visits[1..], last, e);
        } else {
          PassedIsNotSkipped(visits[1..], last, e);
        }
      }
    }
  }

  // ---- cursors that are not safe ----

  lemma OnwardTail(c: Option<Entry>, page: seq<Entry>, last: Entry, rest: seq<Entry>)
    requires page != [] && page[|page| - 1] == last && Onward(c, page + rest)
    ensures Onward(Some(last), rest)
  {
    var all := page + rest;
    forall i, j | 0 <= i < j < |rest| ensures LexLess(EntryKey(rest[i]), EntryKey(rest[j])) {
      assert all[|page| + i] == rest[i] && all[|page| + j] == rest[j];
    }
    forall e | e in rest ensures Past(Some(last), e) {
      var j :| 0 <= j < |rest| && rest[j] == e;
      assert all[|page| - 1] == last && all[|page| + j] == e;
    }
  }

  /** Following cursors goes onward exactly when every cursor handed back is safe. */
  lemma {:induction false} FollowOnwardIff(visits: seq<Visit>, c: Option<Entry>)
    requires AllLegal(visits)
    ensures Onward(c, Follow(visits, CursorOf(c))) <==> CursorsSafe(visits, c)
  {
    if CursorsSafe(visits, c) {
      FollowNeverRepeats(visits, c);
    } else {
      assert visits[0] in visits;
      if !Safe(c, visits[0].ordered) {
        UnsafeIsNotOnward(visits, c);
      } else {
        var p, last := PageStep(visits[0], c);
        assert forall w :: w in visits[1..] ==> w in visits;
        FollowOnwardIff(visits[1..], last);
        TailIsNotOnward(visits, c, p, last.value);
      }
    }
  }

  /** A cursor that is not safe makes the page start with an entry that is not past it. */
  lemma {:induction false} UnsafeIsNotOnward(visits: seq<Visit>, c: Option<Entry>)
    requires visits != [] && Legal(visits[0]) && !Safe(c, visits[0].ordered)
    ensures !Onward(c, Follow(visits, CursorOf(c)))
  {
    var v := visits[0];
    var p, last := PageStep(v, c);
    assert p.entries[0] == v.ordered[ResumeAt(v.ordered, c)..][0] == v.ordered[ResumeAt(v.ordered, c)];
    assert Follow(visits, CursorOf(c))[0] == p.entries[0];
  }

  lemma {:induction false} TailIsNotOnward(visits: seq<Visit>, c: Option<Entry>, p: Page, last: Entry)
    requires visits != [] && p == Served(visits[0], CursorOf(c)) && p.nextCursor == Some(last.eventId)
    requires p.entries != [] && p.entries[|p.entries| - 1] == last
    requires !Onward(Some(last), Follow(visits[1..], p.nextCursor))
    ensures !Onward(c, Follow(visits, CursorOf(c)))
  {
    var rest := Follow(visits[1..], p.nextCursor);
    if Onward(c, p.entries + rest) { OnwardTail(c, p.entries, last, rest); }
  }

  /** The last page. */
  lemma FollowFrom(visits: seq<Visit>, cursor: Option<string>, start: nat, n: nat)
    requires visits != [] && n == visits[0].limit && start <= |visits[0].ordered|
    requires Remaining(visits[0].ordered, cursor) == visits[0].ordered[start..]
    requires start + n >= |visits[0].ordered|
    ensures Finished(visits, cursor) && Follow(visits, cursor) == visits[0].ordered[start..]
  {
  }

  /** A page after the entry at a position starts with the next one. */
  predicate ResumesAt(ordered: seq<Entry>, k: nat)
    requires k < |ordered|
  {
    Remaining(ordered, Some(ordered[k].eventId)) == ordered[k + 1..]
  }

  /** On a fixed log paging ends after at most as many further pages as entries
      remain, and the pages concatenate to the remaining ordered entries. */
  lemma {:induction false} FixedLogIsReadOut(ordered: seq<Entry>, visits: seq<Visit>, cursor: Option<string>, start: nat)
    requires forall k: nat :: k < |ordered| ==> ResumesAt(ordered, k)
    requires forall v :: v in visits ==> v.ordered == ordered
    requires start <= |ordered| < start + |visits| && Remaining(ordered, cursor) == ordered[start..]
    ensures Finished(visits, cursor) && Follow(visits, cursor) == ordered[start..]
    decreases |visits|
  {
    assert visits[0] in visits;
    var n, m := visits[0].limit, start + visits[0].limit;
    if m < |ordered| {
      var next, tail := Some(ordered[m - 1].eventId), visits[1..];
      assert ResumesAt(ordered, m - 1);
      TailOf(ordered, visits);
      FixedLogIsReadOut(ordered, tail, next, m);
      FollowRest(ordered, visits, cursor, start, n, m, next, tail);
    } else {
      FollowFrom(visits, cursor, start, n);
    }
  }

  lemma TailOf(ordered: seq<Entry>, visits: seq<Visit>)
    requires visits != [] && forall v :: v in visits ==> v.ordered == ordered
    ensures forall v :: v in visits[1..] ==> v.ordered == ordered
  {
    forall v | v in visits[1..] ensures v.ordered == ordered { assert v in visits; }
  }

  lemma FollowRest(ordered: seq<Entry>, visits: seq<Visit>, cursor: Option<string>, start: nat, n: nat, m: nat,
                   next: Option<string>, tail: seq<Visit>)
    requires visits != [] && visits[0].ordered == ordered && tail == visits[1..]
    requires n == visits[0].limit && m == start + n < |ordered| && next == Some(ordered[m - 1].eventId)
    requires Remaining(ordered, cursor) == ordered[start..]
    requires Finished(tail, next) && Follow(tail, next) == ordered[m..]
    ensures Finished(visits, cursor) && Follow(visits, cursor) == ordered[start..]
  {
    var p := Served(visits[0], cursor);
    PageAt(ordered, visits[0], cursor, start, n, m, next, p);
    JoinedFrom(ordered, start, n, m, p.entries, Follow(tail, next));
    FollowUnfolds(visits, cursor, p, tail, ordered[start..]);
  }

  lemma PageAt(ordered: seq<Entry>, v: Visit, cursor: Option<string>, start: nat, n: nat, m: nat, next: Option<string>, p: Page)
    requires v.ordered == ordered && n == v.limit && m == start + n < |ordered| && next == Some(ordered[m - 1].eventId)
    requires Remaining(ordered, cursor) == ordered[start..] && p == Served(v, cursor)
    ensures p.entries == ordered[start..][..n] && p.nextCursor == next
  {
    var rest := ordered[start..];
    assert rest[n - 1] == ordered[m - 1];
  }

  lemma JoinedFrom(s: seq<Entry>, start: nat, n: nat, m: nat, front: seq<Entry>, back: seq<Entry>)
    requires m == start + n <= |s| && front == s[start..][..n] && back == s[m..]
    ensures front + back == s[start..]
  {
  }

  lemma FollowUnfolds(visits: seq<Visit>, cursor: Option<string>, p: Page, tail: seq<Visit>, whole: seq<Entry>)
    requires visits != [] && p == Served(visits[0], cursor) && p.nextCursor.Some? && tail == visits[1..]
    requires Finished(tail, p.nextCursor) && p.entries + Follow(tail, p.nextCursor) == whole
    ensures Finished(visits, cursor) && Follow(visits, cursor) == whole
  {
  }

  // ---- the same over raw logs ----

  /** The requests made of a series of logs with a series of limits. */
  function Requests(logs: seq<seq<Entry>>, limits: seq<Positive>): (r: seq<Visit>)
    requires |logs| == |limits|
    ensures |r| == |logs|
    ensures forall i :: 0 <= i < |logs| ==> r[i] == Visit(OrderEntries(logs[i]), limits[i])
  {
    if logs == [] then []
    else [Visit(OrderEntries(logs[0]), limits[0])] + Requests(logs[1..], limits[1..])
  }

  /** All entries returned by requests to the trail itself. */
  ghost function FollowTrail(logs: seq<seq<Entry>>, limits: seq<Positive>, cursor: Option<string>): seq<Entry>
    requires |logs| == |limits|
  {
    if logs == [] || BoundedTrail(logs[0], limits[0], cursor).None? then []
    else
      var p := BoundedTrail(logs[0], limits[0], cursor).value;
      if p.nextCursor.None? then p.entries else p.entries + FollowTrail(logs[1..], limits[1..], p.nextCursor)
  }

  /** A request to the trail is served from the ordered log. */
  lemma {:induction false} TrailIsFollowed(logs: seq<seq<Entry>>, limits: seq<Positive>, cursor: Option<string>)
    requires |logs| == |limits| && forall i :: 0 <= i < |limits| ==> LegalLimit(limits[i])
    ensures FollowTrail(logs, limits, cursor) == Follow(Requests(logs, limits), cursor)
    decreases |logs|
  {
    if logs != [] {
      var p := BoundedTrail(logs[0], limits[0], cursor).value;
      assert Requests(logs, limits)[0] == Visit(OrderEntries(logs[0]), limits[0]);
      assert p == Served(Requests(logs, limits)[0], cursor);
      assert Requests(logs, limits)[1..] == Requests(logs[1..], limits[1..]);
      TrailIsFollowed(logs[1..], limits[1..], p.nextCursor);
    }
  }

  lemma RequestsAreLegal(logs: seq<seq<Entry>>, limits: seq<Positive>)
    requires |logs| == |limits| && forall i :: 0 <= i < |logs| ==> UniqueIds(logs[i]) && LegalLimit(limits[i])
    ensures AllLegal(Requests(logs, limits))
    ensures forall i, e :: 0 <= i < |logs| ==> (e in Requests(logs, limits)[i].ordered <==> e in logs[i])
  {
    forall i | 0 <= i < |logs|
      ensures Legal(Requests(logs, limits)[i])
      ensures forall e :: e in Requests(logs, limits)[i].ordered <==> e in logs[i]
    {
      OrderedLog(logs[i]);
    }
  }

  /** Reading logs that change in any way goes onward, never returning an entry twice,
      exactly when the cursors are safe; and then, after the last page, an entry that was
      present throughout has been returned exactly when no request skipped it. */
  lemma PagingIsExact(logs: seq<seq<Entry>>, limits: seq<Positive>)
    requires |logs| == |limits| && forall i :: 0 <= i < |logs| ==> UniqueIds(logs[i]) && LegalLimit(limits[i])
    ensures StrictlySortedBy(FollowTrail(logs, limits, None), EntryKey) <==> CursorsSafe(Requests(logs, limits), None)
    ensures CursorsSafe(Requests(logs, limits), None) && Finished(Requests(logs, limits), None) ==>
      forall e :: PresentThroughout(logs, e) ==>
        (e in FollowTrail(logs, limits, None) <==> NeverSkipped(Requests(logs, limits), None, e))
  {
    RequestsAreLegal(logs, limits);
    TrailIsFollowed(logs, limits, None);
    PagingOnward(Requests(logs, limits));
    if CursorsSafe(Requests(logs, limits), None) && Finished(Requests(logs, limits), None) {
      forall e | PresentThroughout(logs, e)
        ensures e in Follow(Requests(logs, limits), None) <==> NeverSkipped(Requests(logs, limits), None, e)
      {
        PagingReturns(logs, limits, Requests(logs, limits), e);
      }
    }
  }

  ghost predicate PresentThroughout(logs: seq<seq<Entry>>, e: Entry) {
    forall i :: 0 <= i < |logs| ==> e in logs[i]
  }

  lemma PagingOnward(visits: seq<Visit>)
    requires AllLegal(visits)
    ensures StrictlySortedBy(Follow(visits, None), EntryKey) <==> CursorsSafe(visits, None)
  {
    FollowOnwardIff(visits, None);
    assert CursorOf(None) == None;
    assert Onward(None, Follow(visits, None)) <==> StrictlySortedBy(Follow(visits, None), EntryKey);
  }

  lemma PagingReturns(logs: seq<seq<Entry>>, limits: seq<Positive>, visits: seq<Visit>, e: Entry)
    requires |logs| == |limits| && visits == Requests(logs, limits) && AllLegal(visits) && PresentThroughout(logs, e)
    requires forall i, e :: 0 <= i < |logs| ==> (e in visits[i].ordered <==> e in logs[i])
    requires CursorsSafe(visits, None) && Finished(visits, None)
    ensures e in Follow(visits, None) <==> NeverSkipped(visits, None, e)
  {
    forall v | v in visits ensures e in v.ordered {
      var i :| 0 <= i < |visits| && visits[i] == v;
      assert e in logs[i];
    }
    FollowReturnsIff(visits, None, e);
  }

  // ---- logs that never change an entry ----

  /** Every log has unique event ids and an id never changes its entry. */
  ghost predicate Immutable(logs: seq<seq<Entry>>) {
    && (forall i :: 0 <= i < |logs| ==> UniqueIds(logs[i]))
    && (forall i, j, e, f :: 0 <= i < |logs| && 0 <= j < |logs| && e in logs[i] && f in logs[j] && e.eventId == f.eventId
          ==> e == f)
  }

  /** The cursor's id names the cursor entry itself, where it is found. */
  ghost predicate Known(c: Option<Entry>, visits: seq<Visit>) {
    c.Some? ==> forall v, e :: v in visits && e in v.ordered && e.eventId == c.value.eventId ==> e == c.value
  }

  ghost predicate Stable(visits: seq<Visit>) {
    forall v, w, e, f :: v in visits && w in visits && e in v.ordered && f in w.ordered && e.eventId == f.eventId ==> e == f
  }

  /** A cursor entry that is still in the log is safe and skips nothing. */
  lemma SurvivingCursor(v: Visit, c: Entry, e: Entry)
    requires Legal(v) && c in v.ordered
    ensures Safe(Some(c), v.ordered) && !Skipped(Some(c), v.ordered, e)
  {
    var ordered := v.ordered;
    var n :| 0 <= n < |ordered| && ordered[n] == c;
    RemainingAt(ordered, n);
    var i := FindEvent(ordered, c.eventId);
    assert ordered[i] in ordered && ordered[i] == c;
    if i + 1 < |ordered| { assert LexLess(EntryKey(ordered[i]), EntryKey(ordered[i + 1])); }
    if e in ordered[..i + 1] {
      var j :| 0 <= j < i + 1 && ordered[..i + 1][j] == e;
      NotLater(ordered, j, i);
    }
  }

  lemma NotLater(ordered: seq<Entry>, j: nat, i: nat)
    requires StrictlySortedBy(ordered, EntryKey) && j <= i < |ordered|
    ensures !LexLess(EntryKey(ordered[i]), EntryKey(ordered[j]))
  {
    if j < i && LexLeq(EntryKey(ordered[i]), EntryKey(ordered[j])) {
      assert LexLess(EntryKey(ordered[j]), EntryKey(ordered[i]));
      LexAntisymmetric(EntryKey(ordered[i]), EntryKey(ordered[j]));
    }
  }

  /** A cursor entry whose id is gone is safe exactly when the whole log is past it, and
      it skips nothing either. */
  lemma PrunedCursor(v: Visit, c: Entry, e: Entry)
    requires Legal(v) && forall f :: f in v.ordered ==> f.eventId != c.eventId
    ensures Safe(Some(c), v.ordered) <==> forall f :: f in v.ordered ==> Past(Some(c), f)
    ensures !Skipped(Some(c), v.ordered, e)
  {
    forall i | 0 <= i < |v.ordered| ensures v.ordered[i].eventId != c.eventId { assert v.ordered[i] in v.ordered; }
    assert v.ordered[0..] == v.ordered;
    if Safe(Some(c), v.ordered) {
      forall f | f in v.ordered ensures Past(Some(c), f) { SafeRemaining(v.ordered, Some(c), f); }
    } else {
      assert v.ordered[0] in v.ordered;
    }
  }

  lemma {:induction false} StableSkipsNothing(visits: seq<Visit>, c: Option<Entry>, e: Entry)
    requires AllLegal(visits) && Stable(visits) && Known(c, visits)
    ensures NeverSkipped(visits, c, e)
  {
    if visits != [] {
      var v := visits[0];
      assert v in visits;
      if c.Some? {
        if c.value in v.ordered { SurvivingCursor(v, c.value, e); } else { PrunedCursor(v, c.value, e); }
      }
      var p, last := PageStep(v, c);
      if last.Some? {
        SortedFrom(v.ordered, ResumeAt(v.ordered, c));
        assert forall w :: w in visits[1..] ==> w in visits;
        StableSkipsNothing(visits[1..], last, e);
      }
    }
  }

  /** Over logs that never change an entry nothing is skipped: after the last page
      everything that was present throughout has been returned, where cursors are safe. */
  lemma PagingIsComplete(logs: seq<seq<Entry>>, limits: seq<Positive>, e: Entry)
    requires |logs| == |limits| && Immutable(logs) && forall i :: 0 <= i < |limits| ==> LegalLimit(limits[i])
    requires CursorsSafe(Requests(logs, limits), None) && Finished(Requests(logs, limits), None)
    requires PresentThroughout(logs, e)
    ensures e in FollowTrail(logs, limits, None)
  {
    RequestsAreLegal(logs, limits);
    PagingIsExact(logs, limits);
    StableSkipsNothing(Requests(logs, limits), None, e);
  }

  /** Reading a fixed log ends and returns exactly its sorted list. */
  lemma FixedLogFromStart(log: seq<Entry>, limits: seq<Positive>)
    requires UniqueIds(log) && |limits| > |log|
    requires forall i :: 0 <= i < |limits| ==> LegalLimit(limits[i])
    ensures var logs := seq(|limits|, _ => log);
      Finished(Requests(logs, limits), None) && FollowTrail(logs, limits, None) == OrderEntries(log)
  {
    TrailIsFollowed(seq(|limits|, _ => log), limits, None);
    OrderedLog(log);
    var ordered := OrderEntries(log);
    forall k: nat | k < |ordered| ensures ResumesAt(ordered, k) {
      RemainingAt(ordered, k);
    }
    FixedLogIsReadOut(OrderEntries(log), Requests(seq(|limits|, _ => log), limits), None, 0);
  }

  // ---- a cursor that is pruned ----

  lemma EarlierFirst(x: Entry, y: Entry)
    requires x.occurredAt < y.occurredAt
    ensures LexLeq(EntryKey(x), EntryKey(y))
  {
  }

  lemma SortedAlready(log: seq<Entry>)
    requires forall i, j :: 0 <= i < j < |log| ==> log[i].occurredAt < log[j].occurredAt
    ensures OrderEntries(log) == log
  {
    if log != [] {
      SortedAlready(log[1..]);
      if |log| > 1 { EarlierFirst(log[0], log[1]); }
      assert log == [log[0]] + log[1..];
    }
  }

  /** Three entries read two at a time: when the second one is pruned before its cursor
      is handed back, the first one is returned again. */
  lemma PrunedCursorRepeats(x: Entry, y: Entry, z: Entry)
    requires x.occurredAt < y.occurredAt < z.occurredAt && x.eventId != y.eventId && y.eventId != z.eventId
    ensures FollowTrail([[x, y, z], [x, z]], [2, 2], None) == [x, y, x, z]
  {
    SortedAlready([x, y, z]);
    SortedAlready([x, z]);
    var first := BoundedTrail([x, y, z], 2, None).value;
    assert first.entries == [x, y] && first.nextCursor == Some(y.eventId);
    RemainingRestarts([x, z], y.eventId);
    var second := BoundedTrail([x, z], 2, Some(y.eventId)).value;
    assert second.entries == [x, z] && second.nextCursor == None;
    assert [[x, y, z], [x, z]][1..] == [[x, z]] && [2, 2][1..] == [2];
  }

  /** When instead its id is recorded again with a later time, the third entry is skipped
      although it was present throughout. */
  lemma RerecordedCursorSkips(x: Entry, y: Entry, z: Entry, again: Entry)
    requires x.occurredAt < y.occurredAt < z.occurredAt < again.occurredAt && again.eventId == y.eventId
    requires x.eventId != y.eventId && y.eventId != z.eventId
    ensures FollowTrail([[x, y, z], [x, z, again]], [2, 2], None) == [x, y]
  {
    SortedAlready([x, y, z]);
    SortedAlready([x, z, again]);
    var first := BoundedTrail([x, y, z], 2, None).value;
    assert first.entries == [x, y] && first.nextCursor == Some(y.eventId);
    var i := FindEvent([x, z, again], y.eventId);
    assert [x, z, again][2] == again && [x, z, again][1] == z && [x, z, again][0] == x;
    assert i == 2;
    assert Remaining([x, z, again], Some(y.eventId)) == [];
    var second := BoundedTrail([x, z, again], 2, Some(y.eventId)).value;
    assert second.entries == [] && second.nextCursor == None;
    assert [[x, y, z], [x, z, again]][1..] == [[x, z, again]] && [2, 2][1..] == [2];
  }
}
