/** What every catalog operation keeps, key by key. */
module CatalogInvariant {
  import opened Options
  import opened AuditEvidence
  import opened CatalogModel

  // ---- one key ----

  function Fp(p: Pub): string { p.bundle.fingerprint }

  predicate Apart(p: Pub, q: Pub) { Fp(p) != Fp(q) && p.bundle.version != q.bundle.version }

  /** Published versions of one key are unique and linked exactly backwards. */
  ghost predicate Links(ps: seq<Pub>, id: string) {
    && (forall i :: 0 <= i < |ps| ==> ps[i].bundle.id == id)
    && (forall i, j :: 0 <= i < j < |ps| ==> Apart(ps[i], ps[j]))
    && (forall i: nat :: i < |ps| ==> Backlink(ps, i))
  }

  predicate Backlink(ps: seq<Pub>, i: nat)
    requires i < |ps|
  {
    ps[i].predecessor == if i == 0 then None else Some(Fp(ps[i - 1]))
  }

  predicate SoundSuccessor(ps: seq<Pub>, i: nat, p: Pub) {
    p.successor.None? || (i + 1 < |ps| && p.successor.value == Fp(ps[i + 1]))
  }

  /** A forward link may be missing but never names anything else than the next. */
  ghost predicate Successors(ps: seq<Pub>) {
    forall i: nat {:trigger SoundSuccessor(ps, i, ps[i])} :: i < |ps| ==> SoundSuccessor(ps, i, ps[i])
  }

  /** The same bundle with the same records and the same predecessor. */
  predicate SameRecord(p: Pub, q: Pub) {
    p.bundle == q.bundle && p.records == q.records && p.predecessor == q.predecessor
  }

  /** `c` is a copy, possibly stale, of the record at `i`. */
  ghost predicate Twin(ps: seq<Pub>, i: nat, c: Pub) {
    i < |ps| && SameRecord(ps[i], c) && SoundSuccessor(ps, i, c)
  }

  ghost predicate Copy(ps: seq<Pub>, c: Pub) { exists i: nat :: Twin(ps, i, c) }

  /** A record labelled ACTIVE is the pointer's, and the pointer's record is not
      retired. */
  predicate Label(p: Pub, active: Option<Pub>) {
    && (p.state.Active? ==> active.Some? && Fp(active.value) == Fp(p))
    && (active.Some? && Fp(active.value) == Fp(p) ==> !p.state.Retired?)
  }

  ghost predicate Labels(ps: seq<Pub>, active: Option<Pub>) {
    forall i :: 0 <= i < |ps| ==> Label(ps[i], active)
  }

  /** The pointer and the history hold copies that were labelled ACTIVE. */
  ghost predicate Remembered(ps: seq<Pub>, c: Pub) { Copy(ps, c) && c.state.Active? }

  ghost predicate KeyInv(ps: seq<Pub>, active: Option<Pub>, history: seq<Pub>, id: string) {
    && Links(ps, id) && Successors(ps) && Labels(ps, active)
    && (active.Some? ==> Remembered(ps, active.value))
    && (forall j :: 0 <= j < |history| ==> Remembered(ps, history[j]))
    && (history != [] ==> active.Some?)
  }

  /** Everything published stays, in place, with its bundle and its records. */
  ghost predicate Grown(ps: seq<Pub>, qs: seq<Pub>) {
    |ps| <= |qs| && forall i :: 0 <= i < |ps| ==> SameRecord(ps[i], qs[i])
  }

  lemma CopyGrows(ps: seq<Pub>, qs: seq<Pub>, c: Pub)
    requires Grown(ps, qs) && Copy(ps, c)
    ensures Copy(qs, c)
  {
    var i: nat :| Twin(ps, i, c);
    assert SameRecord(ps[i], qs[i]);
    assert i + 1 < |ps| ==> SameRecord(ps[i + 1], qs[i + 1]);
    assert Twin(qs, i, c);
  }

  lemma CopyAt(ps: seq<Pub>, id: string, c: Pub, i: nat)
    requires Links(ps, id) && Copy(ps, c) && i < |ps| && Fp(ps[i]) == Fp(c)
    ensures Twin(ps, i, c)
  {
    var k: nat :| Twin(ps, k, c);
    assert k < i ==> Apart(ps[k], ps[i]);
    assert i < k ==> Apart(ps[i], ps[k]);
  }

  lemma SameLinks(ps: seq<Pub>, qs: seq<Pub>, id: string)
    requires Links(ps, id) && Grown(ps, qs) && |ps| == |qs|
    ensures Links(qs, id) && Grown(qs, ps)
  {
    forall i, j | 0 <= i < j < |qs| ensures Apart(qs[i], qs[j]) {
      assert Apart(ps[i], ps[j]) && SameRecord(ps[i], qs[i]) && SameRecord(ps[j], qs[j]);
    }
    forall i: nat | i < |qs| ensures Backlink(qs, i) {
      assert SameRecord(ps[i], qs[i]) && Backlink(ps, i);
      assert i > 0 ==> SameRecord(ps[i - 1], qs[i - 1]);
    }
  }

  lemma ExtendShape(ps: seq<Pub>, b: Bundle, r: Records)
    ensures var qs := Extend(ps, b, r); var n := |ps|;
      && |qs| == n + 1 && qs[n].bundle == b && qs[n].successor.None? && qs[n].state.Available?
      && qs[n].predecessor == (if n == 0 then None else Some(Fp(ps[n - 1])))
      && (n > 0 ==> qs[n - 1] == Supersede(ps[n - 1], b.fingerprint))
      && (forall i :: 0 <= i < n - 1 ==> qs[i] == ps[i])
      && Grown(ps, qs)
  {
  }

  lemma ExtendKeepsLinks(ps: seq<Pub>, qs: seq<Pub>, b: Bundle, id: string)
    requires Links(ps, id) && b.id == id && Grown(ps, qs) && |qs| == |ps| + 1 && qs[|ps|].bundle == b
    requires qs[|ps|].predecessor == (if ps == [] then None else Some(Fp(ps[|ps| - 1])))
    requires forall i :: 0 <= i < |ps| ==> Fp(ps[i]) != b.fingerprint && ps[i].bundle.version != b.version
    ensures Links(qs, id)
  {
    SameLinks(ps, qs[..|ps|], id);
    forall i, j | 0 <= i < j < |qs| ensures Apart(qs[i], qs[j]) {
      assert SameRecord(ps[i], qs[i]);
      if j < |ps| { assert Apart(qs[..|ps|][i], qs[..|ps|][j]); }
    }
    forall i: nat | i < |qs| ensures Backlink(qs, i) {
      assert i > 0 ==> SameRecord(ps[i - 1], qs[i - 1]);
      if i < |ps| { assert SameRecord(ps[i], qs[i]) && Backlink(ps, i); }
    }
  }

  lemma ExtendKeepsSuccessors(ps: seq<Pub>, b: Bundle, r: Records)
    requires Successors(ps)
    ensures Successors(Extend(ps, b, r))
  {
    var qs := Extend(ps, b, r);
    ExtendShape(ps, b, r);
    forall i: nat | i < |qs| ensures SoundSuccessor(qs, i, qs[i]) {
      if i < |ps| - 1 {
        assert SoundSuccessor(ps, i, ps[i]) && SameRecord(ps[i + 1], qs[i + 1]);
      }
    }
  }

  lemma ExtendKeeps(ps: seq<Pub>, active: Option<Pub>, h: seq<Pub>, b: Bundle, r: Records, id: string)
    requires KeyInv(ps, active, h, id) && b.id == id
    requires FindFingerprint(ps, b.fingerprint) == |ps| && FindVersion(ps, b.version) == |ps|
    ensures KeyInv(Extend(ps, b, r), active, h, id) && Grown(ps, Extend(ps, b, r))
  {
    var qs := Extend(ps, b, r);
    ExtendShape(ps, b, r);
    ExtendKeepsLinks(ps, qs, b, id);
    ExtendKeepsSuccessors(ps, b, r);
    if active.Some? {
      CopyGrows(ps, qs, active.value);
      var i: nat :| Twin(ps, i, active.value);
      assert Fp(active.value) == Fp(ps[i]) != b.fingerprint;
    }
    forall i | 0 <= i < |qs| ensures Label(qs[i], active) {
      if i < |ps| { assert Label(ps[i], active); }
    }
    forall j | 0 <= j < |h| ensures Remembered(qs, h[j]) {
      assert Remembered(ps, h[j]);
      CopyGrows(ps, qs, h[j]);
    }
  }

  /** Writing a copy back keeps the chain and changes nothing but labels and
      forward links. */
  lemma ReplaceKeeps(ps: seq<Pub>, c: Pub, id: string)
    requires Links(ps, id) && Successors(ps) && Copy(ps, c)
    ensures Links(Replace(ps, c), id) && Successors(Replace(ps, c)) && Grown(ps, Replace(ps, c))
  {
    var qs := Replace(ps, c);
    forall i: nat | i < |ps| ensures SameRecord(ps[i], qs[i]) && SoundSuccessor(ps, i, qs[i]) {
      if Fp(ps[i]) == Fp(c) { CopyAt(ps, id, c, i); } else { assert SoundSuccessor(ps, i, ps[i]); }
    }
    SameLinks(ps, qs, id);
    forall i: nat | i < |qs| ensures SoundSuccessor(qs, i, qs[i]) {
      assert SoundSuccessor(ps, i, qs[i]);
      assert i + 1 < |ps| ==> SameRecord(ps[i + 1], qs[i + 1]);
    }
  }

  lemma RelabelledCopy(ps: seq<Pub>, c: Pub, state: VersionState)
    requires Copy(ps, c)
    ensures Copy(ps, c.(state := state))
  {
    var i: nat :| Twin(ps, i, c);
    assert Twin(ps, i, c.(state := state));
  }

  /** The records once the old pointer has been labelled superseded. */
  function Unpointed(ps: seq<Pub>, was: Option<Pub>): seq<Pub> {
    if was.Some? then Replace(ps, was.value.(state := Superseded)) else ps
  }

  /** The records after the pointer has moved from `was` to `p`. */
  function Repointed(ps: seq<Pub>, was: Option<Pub>, p: Pub): seq<Pub> {
    Replace(Unpointed(ps, was), p.(state := Active))
  }

  lemma UnpointKeeps(ps: seq<Pub>, was: Option<Pub>, id: string)
    requires Links(ps, id) && Successors(ps) && Labels(ps, was) && (was.Some? ==> Copy(ps, was.value))
    ensures var qs := Unpointed(ps, was);
      && Links(qs, id) && Successors(qs) && Grown(ps, qs) && |qs| == |ps|
      && forall i :: 0 <= i < |qs| ==> !qs[i].state.Active?
  {
    var qs := Unpointed(ps, was);
    if was.Some? {
      RelabelledCopy(ps, was.value, Superseded);
      ReplaceKeeps(ps, was.value.(state := Superseded), id);
    }
    forall i | 0 <= i < |qs| ensures !qs[i].state.Active? {
      assert Label(ps[i], was);
    }
  }

  lemma GrownTransitive(ps: seq<Pub>, qs: seq<Pub>, rs: seq<Pub>)
    requires Grown(ps, qs) && Grown(qs, rs)
    ensures Grown(ps, rs)
  {
    forall i | 0 <= i < |ps| ensures SameRecord(ps[i], rs[i]) {
      assert SameRecord(ps[i], qs[i]) && SameRecord(qs[i], rs[i]);
    }
  }

  lemma RepointKeepsChain(ps: seq<Pub>, was: Option<Pub>, p: Pub, id: string)
    requires Links(ps, id) && Successors(ps) && Labels(ps, was) && Copy(ps, p)
    requires was.Some? ==> Copy(ps, was.value)
    ensures var qs := Repointed(ps, was, p);
      && Links(qs, id) && Successors(qs) && Grown(ps, qs) && |qs| == |ps|
      && Labels(qs, Some(p.(state := Active)))
      && (forall i :: 0 <= i < |ps| && Fp(ps[i]) == Fp(p) ==> qs[i] == p.(state := Active))
  {
    var now := p.(state := Active);
    var ps1 := Unpointed(ps, was);
    UnpointKeeps(ps, was, id);
    CopyGrows(ps, ps1, p);
    RelabelledCopy(ps1, p, Active);
    ReplaceKeeps(ps1, now, id);
    GrownTransitive(ps, ps1, Replace(ps1, now));
    forall i | 0 <= i < |ps| && Fp(ps[i]) == Fp(p) ensures Replace(ps1, now)[i] == now {
      assert SameRecord(ps[i], ps1[i]);
    }
  }

  /** A pointer change keeps the invariant of its key, whichever of the remembered
      records form the new history. */
  lemma RepointKeeps(ps: seq<Pub>, was: Option<Pub>, h: seq<Pub>, p: Pub, h': seq<Pub>, id: string)
    requires KeyInv(ps, was, h, id) && Copy(ps, p)
    requires forall j :: 0 <= j < |h'| ==> h'[j] in h || was == Some(h'[j])
    ensures KeyInv(Repointed(ps, was, p), Some(p.(state := Active)), h', id)
    ensures Grown(ps, Repointed(ps, was, p))
  {
    var qs := Repointed(ps, was, p);
    RepointKeepsChain(ps, was, p, id);
    RelabelledCopy(ps, p, Active);
    CopyGrows(ps, qs, p.(state := Active));
    RememberedGrow(ps, qs, was, h, h');
  }

  lemma RememberedGrow(ps: seq<Pub>, qs: seq<Pub>, was: Option<Pub>, h: seq<Pub>, h': seq<Pub>)
    requires Grown(ps, qs) && (was.Some? ==> Remembered(ps, was.value))
    requires forall j :: 0 <= j < |h| ==> Remembered(ps, h[j])
    requires forall j :: 0 <= j < |h'| ==> h'[j] in h || was == Some(h'[j])
    ensures forall j :: 0 <= j < |h'| ==> Remembered(qs, h'[j])
  {
    forall j | 0 <= j < |h'| ensures Remembered(qs, h'[j]) {
      assert Remembered(ps, h'[j]);
      CopyGrows(ps, qs, h'[j]);
    }
  }

  lemma RelabelKeeps(ps: seq<Pub>, active: Option<Pub>, h: seq<Pub>, i: nat, state: VersionState, id: string)
    requires KeyInv(ps, active, h, id) && i < |ps| && !state.Active?
    requires state.Retired? ==> active.None? || Fp(active.value) != Fp(ps[i])
    ensures KeyInv(Replace(ps, ps[i].(state := state)), active, h, id)
    ensures Grown(ps, Replace(ps, ps[i].(state := state)))
  {
    var c := ps[i].(state := state);
    var qs := Replace(ps, c);
    assert Twin(ps, i, c) by { assert SoundSuccessor(ps, i, ps[i]); }
    ReplaceKeeps(ps, c, id);
    if active.Some? { CopyGrows(ps, qs, active.value); }
    forall j | 0 <= j < |h| ensures Remembered(qs, h[j]) {
      assert Remembered(ps, h[j]);
      CopyGrows(ps, qs, h[j]);
    }
    forall j | 0 <= j < |qs| ensures Label(qs[j], active) {
      assert Label(ps[j], active);
    }
  }

  // ---- all keys ----

  function ActiveAt(s: State, k: Key): Option<Pub> { if k in s.active then Some(s.active[k]) else None }

  ghost predicate KeysInv(s: State) {
    forall k :: KeyInv(PubsAt(s, k), ActiveAt(s, k), HistoryAt(s, k), k.bundleId)
  }

  /** Every active bundle and every history entry has its dependencies published in
      its own scope with the declared fingerprints. */
  ghost predicate DependenciesInv(s: State) {
    && (forall k :: k in s.active ==> DependenciesMet(s, k.tenant, s.active[k].bundle))
    && (forall k, j :: k in s.history && 0 <= j < |s.history[k]| ==> DependenciesMet(s, k.tenant, s.history[k][j].bundle))
  }

  ghost predicate Inv(s: State) {
    KeysInv(s) && DependenciesInv(s) && UniqueIds(s.audit)
  }

  /** Publications are append-only at every key. */
  ghost predicate AppendOnly(s: State, s': State) {
    forall k :: Grown(PubsAt(s, k), PubsAt(s', k))
  }

  /** Publications, pointer and history of every other key are untouched. */
  ghost predicate OnlyAt(s: State, s': State, k: Key) {
    forall k' :: k' != k ==>
      PubsAt(s', k') == PubsAt(s, k') && ActiveAt(s', k') == ActiveAt(s, k') && HistoryAt(s', k') == HistoryAt(s, k')
  }

  lemma {:induction false} FindVersionGrown(ps: seq<Pub>, qs: seq<Pub>, version: string)
    requires Grown(ps, qs) && FindVersion(ps, version) < |ps|
    ensures FindVersion(qs, version) == FindVersion(ps, version)
  {
    var i, j := FindVersion(ps, version), FindVersion(qs, version);
    assert SameRecord(ps[i], qs[i]);
    assert j <= i;
    assert SameRecord(ps[j], qs[j]);
  }

  /** Once met, a dependency stays met: its version is unique and never leaves. */
  lemma DependenciesStayMet(s: State, s': State, tenant: Option<string>, b: Bundle)
    requires AppendOnly(s, s') && DependenciesMet(s, tenant, b)
    ensures DependenciesMet(s', tenant, b)
  {
    forall i | 0 <= i < |b.dependencies| ensures DependencyMet(s', tenant, b.dependencies[i]) {
      var d := b.dependencies[i];
      assert DependencyMet(s, tenant, d);
      var k := Key(tenant, d.bundleId);
      assert Grown(PubsAt(s, k), PubsAt(s', k));
      FindVersionGrown(PubsAt(s, k), PubsAt(s', k), d.version);
      var i := FindVersion(PubsAt(s, k), d.version);
      assert SameRecord(PubsAt(s, k)[i], PubsAt(s', k)[i]);
    }
  }

  /** A step that changes one key and lets its publications grow. */
  lemma StepKeeps(s: State, s': State, k: Key)
    requires Inv(s) && OnlyAt(s, s', k) && UniqueIds(s'.audit)
    requires Grown(PubsAt(s, k), PubsAt(s', k))
    requires KeyInv(PubsAt(s', k), ActiveAt(s', k), HistoryAt(s', k), k.bundleId)
    requires ActiveAt(s', k).Some? ==> DependenciesMet(s, k.tenant, ActiveAt(s', k).value.bundle)
    requires forall j :: 0 <= j < |HistoryAt(s', k)| ==> DependenciesMet(s, k.tenant, HistoryAt(s', k)[j].bundle)
    ensures Inv(s') && AppendOnly(s, s')
  {
    forall k' ensures KeyInv(PubsAt(s', k'), ActiveAt(s', k'), HistoryAt(s', k'), k'.bundleId) {
      assert KeyInv(PubsAt(s, k'), ActiveAt(s, k'), HistoryAt(s, k'), k'.bundleId);
    }
    assert AppendOnly(s, s');
    forall k' | k' in s'.active ensures DependenciesMet(s', k'.tenant, s'.active[k'].bundle) {
      assert ActiveAt(s', k') == Some(s'.active[k']);
      if k' != k { assert ActiveAt(s, k') == ActiveAt(s', k'); }
      DependenciesStayMet(s, s', k'.tenant, s'.active[k'].bundle);
    }
    forall k', j | k' in s'.history && 0 <= j < |s'.history[k']|
      ensures DependenciesMet(s', k'.tenant, s'.history[k'][j].bundle)
    {
      assert HistoryAt(s', k') == s'.history[k'];
      if k' != k { assert HistoryAt(s, k') == HistoryAt(s', k'); }
      DependenciesStayMet(s, s', k'.tenant, s'.history[k'][j].bundle);
    }
  }
}
