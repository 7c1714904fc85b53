/** Deterministic resolution of filter values against governed value mappings. */
module ValueSemantics {
  import opened Options
  import opened Numerals

  datatype Scalar = Null | Bool(b: bool) | Int(n: int) | Float(x: real) | Str(s: string)

  /** A stored value of a mapping: an integer or a text, nothing else. */
  datatype Stored = Code(n: int) | Text(s: string)

  function ToScalar(v: Stored): Scalar {
    match v
    case Code(n) => Int(n)
    case Text(s) => Str(s)
  }

  datatype Semantics = Semantics(mapping: map<string, Stored>, reject: bool)

  // ---- one value ----

  predicate DeclaredInt(stored: set<Stored>) { forall v :: v in stored ==> v.Code? }

  predicate DeclaredText(stored: set<Stored>) { forall v :: v in stored ==> v.Text? }

  /** The integer that a text spells in canonical form. */
  function CanonicalInt(s: string): Option<int> {
    if IsSignedDigits(s) && s[0] != '+' && IntText(ParseInt(s)) == s then Some(ParseInt(s)) else None
  }

  /** The value in the declared domain type; `None` when there is no unique one. */
  function Canonicalize(v: Scalar, stored: set<Stored>): Option<Stored> {
    if v.Bool? || stored == {} then None
    else if DeclaredInt(stored) then
      match v
      case Int(n) => Some(Code(n))
      case Str(s) => (match CanonicalInt(s) case Some(n) => Some(Code(n)) case None => None)
      case Float(x) => if x == x.Floor as real then Some(Code(x.Floor)) else None
      case _ => None
    else if DeclaredText(stored) then if v.Str? then Some(Text(v.s)) else None
    else
      match v
      case Str(s) => Some(Text(s))
      case Int(n) => Some(Code(n))
      case _ => None
  }

  datatype Resolution = Hit(value: Stored) | PassThrough(value: Stored) | Miss

  function ResolveSingle(sem: Semantics, v: Scalar): Resolution {
    if v.Str? && v.s in sem.mapping then Hit(sem.mapping[v.s])
    else
      match Canonicalize(v, sem.mapping.Values)
      case Some(c) => if c in sem.mapping.Values then PassThrough(c) else Miss
      case None => Miss
  }

  /** The value that resolution puts in the place of `v`. */
  function Image(sem: Semantics, v: Scalar): Scalar {
    var r := ResolveSingle(sem, v);
    if r.Miss? then v else ToScalar(r.value)
  }

  /** No stored text is itself a business term that means something else. */
  ghost predicate Stable(sem: Semantics) {
    forall w :: w in sem.mapping.Values && w.Text? && w.s in sem.mapping ==> sem.mapping[w.s] == w
  }

  lemma StoredResolvesToItself(sem: Semantics, w: Stored)
    requires w in sem.mapping.Values && Stable(sem)
    ensures !ResolveSingle(sem, ToScalar(w)).Miss? && Image(sem, ToScalar(w)) == ToScalar(w)
  {
  }

  /** Resolving a value again changes nothing exactly when the mapping is stable. */
  lemma ResolveTwiceIff(sem: Semantics)
    ensures Stable(sem) <==> forall v :: Image(sem, Image(sem, v)) == Image(sem, v)
  {
    if Stable(sem) {
      forall v ensures Image(sem, Image(sem, v)) == Image(sem, v) {
        var r := ResolveSingle(sem, v);
        if !r.Miss? { StoredResolvesToItself(sem, r.value); }
      }
    } else {
      var w :| w in sem.mapping.Values && w.Text? && w.s in sem.mapping && sem.mapping[w.s] != w;
      var k :| k in sem.mapping && sem.mapping[k] == w;
      assert Image(sem, Str(k)) == Str(w.s);
      assert Image(sem, Image(sem, Str(k))) != Image(sem, Str(k));
    }
  }

  /** A value that is not a miss lies in the stored domain: it is the meaning of the
      term, or the stored value that the text, integer or float spells. */
  lemma ResolvedInDomain(sem: Semantics, v: Scalar)
    ensures var r := ResolveSingle(sem, v);
      && (!r.Miss? ==> r.value in sem.mapping.Values)
      && (r.Hit? <==> v.Str? && v.s in sem.mapping)
      && (r.PassThrough? ==> Spells(v, r.value))
  {
  }

  predicate Spells(v: Scalar, w: Stored) {
    match v
    case Int(n) => w == Code(n)
    case Str(s) => w == Text(s) || (w.Code? && s == IntText(w.n))
    case Float(x) => w.Code? && x == w.n as real
    case _ => false
  }

  // ---- duplicates ----

  /** Each value at its first occurrence. */
  function Dedup(s: seq<Scalar>): seq<Scalar> {
    if s == [] then []
    else
      var front, last := Dedup(s[..|s| - 1]), s[|s| - 1];
      if last in s[..|s| - 1] then front else front + [last]
  }

  lemma {:induction false} DedupMembers(s: seq<Scalar>, v: Scalar)
    ensures v in Dedup(s) <==> v in s
    decreases |s|
  {
    if s != [] {
      DedupMembers(s[..|s| - 1], v);
      assert s == s[..|s| - 1] + [s[|s| - 1]];
    }
  }

  lemma {:induction false} DedupUnique(s: seq<Scalar>)
    ensures forall i, j :: 0 <= i < j < |Dedup(s)| ==> Dedup(s)[i] != Dedup(s)[j]
    decreases |s|
  {
    if s != [] {
      DedupUnique(s[..|s| - 1]);
      DedupMembers(s[..|s| - 1], s[|s| - 1]);
    }
  }

  lemma {:induction false} UniqueIsDedup(s: seq<Scalar>)
    requires forall i, j :: 0 <= i < j < |s| ==> s[i] != s[j]
    ensures Dedup(s) == s
    decreases |s|
  {
    if s != [] { UniqueIsDedup(s[..|s| - 1]); }
  }

  function FirstIndex(s: seq<Scalar>, v: Scalar): (i: nat)
    ensures i <= |s| && (i < |s| ==> s[i] == v) && forall j :: 0 <= j < i ==> s[j] != v
  {
    if s == [] || s[0] == v then 0 else 1 + FirstIndex(s[1..], v)
  }

  lemma FirstIndexOfPrefix(s: seq<Scalar>, n: nat, v: Scalar)
    requires n <= |s| && v in s[..n]
    ensures FirstIndex(s, v) == FirstIndex(s[..n], v) < n
  {
    var i, j := FirstIndex(s, v), FirstIndex(s[..n], v);
    var k :| 0 <= k < n && s[..n][k] == v;
    assert s[j] == v && i <= j;
    assert s[..n][i] == s[i];
  }

  /** The values keep the order of their first occurrences. */
  lemma {:induction false} DedupOrdered(s: seq<Scalar>, i: nat, j: nat)
    requires i < j < |Dedup(s)|
    ensures FirstIndex(s, Dedup(s)[i]) < FirstIndex(s, Dedup(s)[j]) < |s|
    decreases |s|
  {
    var n := |s| - 1;
    var front, d := s[..n], Dedup(s[..n]);
    DedupMembers(front, d[i]);
    FirstIndexOfPrefix(s, n, d[i]);
    if j < |d| {
      DedupOrdered(front, i, j);
      DedupMembers(front, d[j]);
      FirstIndexOfPrefix(s, n, d[j]);
    } else {
      LastIsFirst(s);
    }
  }

  lemma LastIsFirst(s: seq<Scalar>)
    requires s != [] && s[|s| - 1] !in s[..|s| - 1]
    ensures FirstIndex(s, s[|s| - 1]) == |s| - 1
  {
    var n := |s| - 1;
    forall j | 0 <= j < n ensures s[j] != s[n] { assert s[..n][j] in s[..n]; }
  }

  /** `_dedup_values`: a dictionary remembers what has been seen. */
  method DedupValues(values: seq<Scalar>) returns (r: seq<Scalar>)
    ensures r == Dedup(values)
    ensures forall v :: v in r <==> v in values
    ensures forall i, j :: 0 <= i < j < |r| ==> r[i] != r[j]
  {
    var seen: set<Scalar> := {};
    r := [];
    for i := 0 to |values|
      invariant seen == set v | v in values[..i]
      invariant r == Dedup(values[..i])
    {
      assert values[..i + 1][..i] == values[..i];
      if values[i] !in seen {
        seen := seen + {values[i]};
        r := r + [values[i]];
      }
    }
    assert values[..|values|] == values;
    forall v ensures v in r <==> v in values { DedupMembers(values, v); }
    DedupUnique(values);
  }

  // ---- filters ----

  datatype FilterValue = One(value: Scalar) | Many(values: seq<Scalar>)

  datatype Filter = Filter(filterId: string, fieldId: string, operator: string, value: FilterValue)

  datatype Status = Unpolicied | HitStatus | PassedThrough | Warned | Missed

  datatype ValueOutcome = ValueOutcome(filterId: string, fieldId: string, index: nat, status: Status)

  datatype FilterOutcome = FilterOutcome(filterId: string, fieldId: string, operator: string, values: seq<ValueOutcome>)

  datatype Failure =
    | UnknownValue(field: string, attempted: Scalar)
    | OperatorDisallowed(field: string, operator: string)

  type Snapshot = map<string, Semantics>

  function Scalars(f: Filter): seq<Scalar> {
    match f.value
    case One(v) => [v]
    case Many(vs) => vs
  }

  predicate AllowedOperator(op: string) { op == "eq" || op == "in" }

  function StatusOf(sem: Semantics, v: Scalar): Status {
    match ResolveSingle(sem, v)
    case Hit(_) => HitStatus
    case PassThrough(_) => PassedThrough
    case Miss => if sem.reject then Missed else Warned
  }

  function FieldStatus(snap: Snapshot, f: Filter, v: Scalar): Status {
    if f.fieldId in snap then StatusOf(snap[f.fieldId], v) else Unpolicied
  }

  /** One outcome for each of the first `n` values of a filter, in order. */
  function Log(snap: Snapshot, f: Filter, n: nat): (log: FilterOutcome)
    requires n <= |Scalars(f)|
    ensures |log.values| == n
  {
    FilterOutcome(f.filterId, f.fieldId, f.operator,
      seq(n, i requires 0 <= i < n => ValueOutcome(f.filterId, f.fieldId, i, FieldStatus(snap, f, Scalars(f)[i]))))
  }

  /** The filter can be resolved: its field has no mapping, or its operator is allowed
      and none of its values is refused. */
  ghost predicate Passes(snap: Snapshot, f: Filter) {
    f.fieldId in snap ==>
      AllowedOperator(f.operator) && forall i :: 0 <= i < |Scalars(f)| ==> !Refused(snap[f.fieldId], Scalars(f)[i])
  }

  predicate Refused(sem: Semantics, v: Scalar) { StatusOf(sem, v).Missed? }

  function Images(sem: Semantics, vs: seq<Scalar>): seq<Scalar> {
    seq(|vs|, i requires 0 <= i < |vs| => Image(sem, vs[i]))
  }

  function ResolvedFilter(snap: Snapshot, f: Filter): Filter {
    if f.fieldId !in snap then f
    else
      var images := Images(snap[f.fieldId], Scalars(f));
      f.(value := if f.operator == "in" || f.value.Many? then Many(Dedup(images)) else One(images[0]))
  }

  /** How the filter that stops resolution is logged and reported. */
  ghost predicate FailsWith(snap: Snapshot, f: Filter, log: FilterOutcome, e: Failure) {
    f.fieldId in snap &&
    if !AllowedOperator(f.operator) then log == Log(snap, f, 0) && e == OperatorDisallowed(f.fieldId, f.operator)
    else exists m: nat :: RefusedAt(snap, f, m) && log == Log(snap, f, m + 1) && e == UnknownValue(f.fieldId, Scalars(f)[m])
  }

  /** Value `m` is the first one that is refused. */
  ghost predicate RefusedAt(snap: Snapshot, f: Filter, m: nat) {
    f.fieldId in snap && m < |Scalars(f)| && Refused(snap[f.fieldId], Scalars(f)[m])
    && forall i :: 0 <= i < m ==> !Refused(snap[f.fieldId], Scalars(f)[i])
  }

  /** What resolution promises: all filters before the first that fails are resolved
      and logged in full, and nothing after it is looked at. */
  ghost predicate Resolves(snap: Snapshot, filters: seq<Filter>, resolved: seq<Filter>,
                           log: seq<FilterOutcome>, error: Option<Failure>) {
    && |resolved| <= |filters|
    && (forall i :: 0 <= i < |resolved| ==> Passes(snap, filters[i]) && resolved[i] == ResolvedFilter(snap, filters[i]))
    && |log| == |resolved| + (if error.Some? then 1 else 0)
    && (forall i :: 0 <= i < |resolved| ==> log[i] == Log(snap, filters[i], |Scalars(filters[i])|))
    && (if error.None? then |resolved| == |filters|
        else |resolved| < |filters| && FailsWith(snap, filters[|resolved|], log[|resolved|], error.value))
  }

  /** Resolves the values of one filter until one of them is refused. */
  method ResolveValues(snap: Snapshot, f: Filter) returns (resolved: seq<Scalar>, outcomes: seq<ValueOutcome>, refused: Option<Scalar>)
    requires f.fieldId in snap
    ensures refused.None? ==>
      && resolved == Images(snap[f.fieldId], Scalars(f))
      && outcomes == Log(snap, f, |Scalars(f)|).values
      && forall i :: 0 <= i < |Scalars(f)| ==> !Refused(snap[f.fieldId], Scalars(f)[i])
    ensures refused.Some? ==>
      && 0 < |outcomes| <= |Scalars(f)| && RefusedAt(snap, f, |outcomes| - 1)
      && outcomes == Log(snap, f, |outcomes|).values && refused.value == Scalars(f)[|outcomes| - 1]
  {
    var sem, vs := snap[f.fieldId], Scalars(f);
    resolved, outcomes := [], [];
    for i := 0 to |vs|
      invariant resolved == Images(sem, vs[..i])
      invariant outcomes == Log(snap, f, i).values
      invariant forall j :: 0 <= j < i ==> !Refused(sem, vs[j])
    {
      var r := ResolveSingle(sem, vs[i]);
      if r.Miss? && sem.reject {
        outcomes := outcomes + [ValueOutcome(f.filterId, f.fieldId, i, Missed)];
        assert RefusedAt(snap, f, i);
        return resolved, outcomes, Some(vs[i]);
      }
      var status := if r.Miss? then Warned else if r.Hit? then HitStatus else PassedThrough;
      resolved := resolved + [if r.Miss? then vs[i] else ToScalar(r.value)];
      outcomes := outcomes + [ValueOutcome(f.filterId, f.fieldId, i, status)];
    }
    assert vs[..|vs|] == vs;
    return resolved, outcomes, None;
  }

  lemma OneMore(snap: Snapshot, filters: seq<Filter>, i: nat, resolved: seq<Filter>, log: seq<FilterOutcome>, o: FilterOutcome)
    requires i < |filters| && Resolves(snap, filters[..i], resolved, log, None) && Passes(snap, filters[i])
    requires o == Log(snap, filters[i], |Scalars(filters[i])|)
    ensures Resolves(snap, filters[..i + 1], resolved + [ResolvedFilter(snap, filters[i])], log + [o], None)
  {
    assert filters[..i + 1] == filters[..i] + [filters[i]];
  }

  lemma StopsHere(snap: Snapshot, filters: seq<Filter>, i: nat, resolved: seq<Filter>, log: seq<FilterOutcome>, o: FilterOutcome, e: Failure)
    requires i < |filters| && Resolves(snap, filters[..i], resolved, log, None) && FailsWith(snap, filters[i], o, e)
    ensures Resolves(snap, filters, resolved, log + [o], Some(e))
  {
  }

  method ResolveIntentFilters(filters: seq<Filter>, snap: Snapshot)
    returns (resolved: seq<Filter>, log: seq<FilterOutcome>, error: Option<Failure>)
    ensures Resolves(snap, filters, resolved, log, error)
  {
    resolved, log := [], [];
    for i := 0 to |filters|
      invariant Resolves(snap, filters[..i], resolved, log, None)
    {
      var f := filters[i];
      if f.fieldId !in snap {
        var outcome := Log(snap, f, |Scalars(f)|);
        OneMore(snap, filters, i, resolved, log, outcome);
        log := log + [outcome];
        resolved := resolved + [f];
        continue;
      }
      if !AllowedOperator(f.operator) {
        var outcome := FilterOutcome(f.filterId, f.fieldId, f.operator, []);
        StopsHere(snap, filters, i, resolved, log, outcome, OperatorDisallowed(f.fieldId, f.operator));
        return resolved, log + [outcome], Some(OperatorDisallowed(f.fieldId, f.operator));
      }
      var values, outcomes, refused := ResolveValues(snap, f);
      var outcome := FilterOutcome(f.filterId, f.fieldId, f.operator, outcomes);
      if refused.Some? {
        assert RefusedAt(snap, f, |outcomes| - 1) && outcome == Log(snap, f, |outcomes|);
        StopsHere(snap, filters, i, resolved, log, outcome, UnknownValue(f.fieldId, refused.value));
        return resolved, log + [outcome], Some(UnknownValue(f.fieldId, refused.value));
      }
      var value: FilterValue;
      if f.operator == "in" || f.value.Many? {
        var unique := DedupValues(values);
        value := Many(unique);
      } else {
        value := One(values[0]);
      }
      assert f.(value := value) == ResolvedFilter(snap, f);
      OneMore(snap, filters, i, resolved, log, outcome);
      resolved := resolved + [f.(value := value)];
      log := log + [outcome];
    }
    assert filters[..|filters|] == filters;
    return resolved, log, None;
  }

  // ---- what a resolution means ----

  /** On success every value under the reject policy lies in the governed domain, and
      every input value has exactly one outcome, in order. */
  lemma SuccessIsGoverned(snap: Snapshot, filters: seq<Filter>, resolved: seq<Filter>, log: seq<FilterOutcome>, i: nat)
    requires Resolves(snap, filters, resolved, log, None) && i < |filters|
    ensures |resolved| == |log| == |filters| && |log[i].values| == |Scalars(filters[i])|
    ensures forall j :: 0 <= j < |log[i].values| ==> log[i].values[j].index == j && !log[i].values[j].status.Missed?
    ensures filters[i].fieldId in snap && snap[filters[i].fieldId].reject ==>
      forall v :: v in Scalars(resolved[i]) ==> exists w :: w in snap[filters[i].fieldId].mapping.Values && v == ToScalar(w)
  {
    var f := filters[i];
    assert Passes(snap, f) && log[i] == Log(snap, f, |Scalars(f)|) && resolved[i] == ResolvedFilter(snap, f);
    if f.fieldId in snap && snap[f.fieldId].reject {
      var sem := snap[f.fieldId];
      forall v | v in Scalars(resolved[i]) ensures exists w :: w in sem.mapping.Values && v == ToScalar(w) {
        DedupMembers(Images(sem, Scalars(f)), v);
        var j :| 0 <= j < |Scalars(f)| && v == Image(sem, Scalars(f)[j]);
        assert !Refused(sem, Scalars(f)[j]);
        ResolvedInDomain(sem, Scalars(f)[j]);
      }
    }
    forall j | 0 <= j < |log[i].values| ensures !log[i].values[j].status.Missed? {
      if f.fieldId in snap { assert !Refused(snap[f.fieldId], Scalars(f)[j]); }
    }
  }

  ghost predicate HasMiss(o: FilterOutcome) { exists j :: 0 <= j < |o.values| && o.values[j].status.Missed? }

  lemma PassingLogHasNoMiss(snap: Snapshot, f: Filter)
    requires Passes(snap, f)
    ensures !HasMiss(Log(snap, f, |Scalars(f)|))
  {
    var log := Log(snap, f, |Scalars(f)|);
    forall j | 0 <= j < |log.values| ensures !log.values[j].status.Missed? {
      if f.fieldId in snap { assert !Refused(snap[f.fieldId], Scalars(f)[j]); }
    }
  }

  /** A miss is recorded exactly when an unknown value is reported, and then it is the
      last outcome of the last filter logged. */
  lemma MissIffUnknownValue(snap: Snapshot, filters: seq<Filter>, resolved: seq<Filter>, log: seq<FilterOutcome>, error: Option<Failure>)
    requires Resolves(snap, filters, resolved, log, error)
    ensures (exists i :: 0 <= i < |log| && HasMiss(log[i])) <==> error.Some? && error.value.UnknownValue?
    ensures error.Some? && error.value.UnknownValue? ==>
      |log| > 0 && |log[|log| - 1].values| > 0 && log[|log| - 1].values[|log[|log| - 1].values| - 1].status.Missed?
  {
    forall i | 0 <= i < |resolved| ensures !HasMiss(log[i]) {
      assert Passes(snap, filters[i]) && log[i] == Log(snap, filters[i], |Scalars(filters[i])|);
      PassingLogHasNoMiss(snap, filters[i]);
    }
    if error.Some? {
      var n := |resolved|;
      var f := filters[n];
      if AllowedOperator(f.operator) {
        var m: nat :| RefusedAt(snap, f, m) && log[n] == Log(snap, f, m + 1);
        assert log[n].values[m].status.Missed?;
        assert HasMiss(log[n]);
      } else {
        assert log[n].values == [];
      }
    }
  }

  // ---- resolving again ----

  lemma ResolvedTwice(snap: Snapshot, f: Filter)
    requires Passes(snap, f) && (f.fieldId in snap ==> Stable(snap[f.fieldId]))
    ensures Passes(snap, ResolvedFilter(snap, f)) && ResolvedFilter(snap, ResolvedFilter(snap, f)) == ResolvedFilter(snap, f)
  {
    if f.fieldId in snap {
      var sem, g := snap[f.fieldId], ResolvedFilter(snap, f);
      var images := Images(sem, Scalars(f));
      forall v | v in Scalars(g) ensures !Refused(sem, v) && Image(sem, v) == v {
        DedupMembers(images, v);
        var j :| 0 <= j < |Scalars(f)| && v == Image(sem, Scalars(f)[j]);
        assert !Refused(sem, Scalars(f)[j]);
        var r := ResolveSingle(sem, Scalars(f)[j]);
        if !r.Miss? { StoredResolvesToItself(sem, r.value); }
      }
      forall j | 0 <= j < |Scalars(g)| ensures !Refused(sem, Scalars(g)[j]) && Image(sem, Scalars(g)[j]) == Scalars(g)[j] {
        assert Scalars(g)[j] in Scalars(g);
      }
      assert Images(sem, Scalars(g)) == Scalars(g);
      if g.value.Many? {
        DedupUnique(images);
        UniqueIsDedup(Scalars(g));
      }
    }
  }

  /** With stable mappings, resolving resolved filters succeeds and changes nothing. */
  lemma ResolutionIsIdempotent(snap: Snapshot, filters: seq<Filter>, resolved: seq<Filter>, log: seq<FilterOutcome>,
                               again: seq<Filter>, log2: seq<FilterOutcome>, error: Option<Failure>)
    requires Resolves(snap, filters, resolved, log, None) && Resolves(snap, resolved, again, log2, error)
    requires forall f :: f in snap ==> Stable(snap[f])
    ensures error.None? && again == resolved
  {
    forall i | 0 <= i < |resolved| ensures Passes(snap, resolved[i]) && ResolvedFilter(snap, resolved[i]) == resolved[i] {
      assert Passes(snap, filters[i]) && resolved[i] == ResolvedFilter(snap, filters[i]);
      ResolvedTwice(snap, filters[i]);
    }
    if error.Some? {
      FailureIsNoPass(snap, resolved[|again|], log2[|again|], error.value);
    }
  }

  lemma FailureIsNoPass(snap: Snapshot, f: Filter, log: FilterOutcome, e: Failure)
    requires FailsWith(snap, f, log, e)
    ensures !Passes(snap, f)
  {
    if AllowedOperator(f.operator) {
      var m: nat :| RefusedAt(snap, f, m);
    }
  }

  /** With an unstable mapping some filter is changed by a second resolution. */
  lemma UnstableChangesAgain(snap: Snapshot, field: string, id: string)
    requires field in snap && !Stable(snap[field])
    ensures exists f: Filter :: Passes(snap, f) && f.filterId == id && ResolvedFilter(snap, ResolvedFilter(snap, f)) != ResolvedFilter(snap, f)
  {
    var sem := snap[field];
    var w :| w in sem.mapping.Values && w.Text? && w.s in sem.mapping && sem.mapping[w.s] != w;
    var k :| k in sem.mapping && sem.mapping[k] == w;
    var f := Filter(id, field, "eq", One(Str(k)));
    assert !Refused(sem, Str(k));
    assert ResolvedFilter(snap, f) == f.(value := One(Str(w.s)));
    assert ResolvedFilter(snap, ResolvedFilter(snap, f)) == f.(value := One(ToScalar(sem.mapping[w.s])));
  }

  // ---- what is resolved to what ----

  predicate IsTerm(sem: Semantics, v: Scalar) { v.Str? && v.s in sem.mapping }

  /** The value is read as a stored value of the declared domain: an integer, its canonical
      text or a float without fraction where all are integers, a text where all are texts,
      and only the value itself where both occur. */
  ghost predicate ReadAs(sem: Semantics, v: Scalar, w: Stored) {
    var stored := sem.mapping.Values;
    && w in stored
    && (if forall x :: x in stored ==> x.Code? then
          w.Code? && (v == Int(w.n) || v == Str(IntText(w.n)) || v == Float(w.n as real))
        else if forall x :: x in stored ==> x.Text? then w.Text? && v == Str(w.s)
        else v == ToScalar(w))
  }

  ghost predicate Known(sem: Semantics, v: Scalar) { IsTerm(sem, v) || exists w :: ReadAs(sem, v, w) }

  /** What stands in the place of a value: the meaning of a term, the stored value that it
      is read as, or itself. */
  ghost predicate ResolvesTo(sem: Semantics, v: Scalar, x: Scalar) {
    if IsTerm(sem, v) then x == ToScalar(sem.mapping[v.s])
    else if exists w :: ReadAs(sem, v, w) then exists w :: ReadAs(sem, v, w) && x == ToScalar(w)
    else x == v
  }

  lemma CanonicalIntIs(s: string, n: int)
    ensures CanonicalInt(s) == Some(n) <==> s == IntText(n)
  {
    if s == IntText(n) { IntTextParses(n); }
  }

  lemma IntTextParses(n: int)
    ensures var t := IntText(n); IsSignedDigits(t) && t[0] != '+' && ParseInt(t) == n
  {
    if n < 0 {
      DigitsOfNatText(-n);
      assert IntText(n)[1..] == NatText(-n);
    } else {
      DigitsOfNatText(n);
    }
  }

  lemma CanonicalizeIs(sem: Semantics, v: Scalar, w: Stored)
    ensures w in sem.mapping.Values && Canonicalize(v, sem.mapping.Values) == Some(w) <==> ReadAs(sem, v, w)
  {
    if v.Str? && w.Code? { CanonicalIntIs(v.s, w.n); }
    if v.Float? && w.Code? { FloorOfInt(v.x, w.n); }
  }

  lemma FloorOfInt(x: real, n: int)
    ensures x == x.Floor as real && x.Floor == n <==> x == n as real
  {
  }

  /** One value: its resolution and its status, told from the mapping. */
  lemma SingleIs(sem: Semantics, v: Scalar)
    ensures forall x :: ResolvesTo(sem, v, x) <==> x == Image(sem, v)
    ensures StatusOf(sem, v) ==
      (if IsTerm(sem, v) then HitStatus else if Known(sem, v) then PassedThrough else if sem.reject then Missed else Warned)
  {
    var c := Canonicalize(v, sem.mapping.Values);
    forall w ensures ReadAs(sem, v, w) <==> c == Some(w) && w in sem.mapping.Values { CanonicalizeIs(sem, v, w); }
    if c.Some? && c.value in sem.mapping.Values { assert ReadAs(sem, v, c.value); }
  }

  /** Value `j` is the first that resolves to `x`. */
  ghost predicate FirstTo(sem: Semantics, vs: seq<Scalar>, j: int, x: Scalar) {
    0 <= j < |vs| && ResolvesTo(sem, vs[j], x) && forall i :: 0 <= i < j ==> !ResolvesTo(sem, vs[i], x)
  }

  lemma FirstImage(sem: Semantics, vs: seq<Scalar>, x: Scalar)
    requires x in Images(sem, vs)
    ensures FirstTo(sem, vs, FirstIndex(Images(sem, vs), x), x)
  {
    var images := Images(sem, vs);
    var j := FirstIndex(images, x);
    SingleIs(sem, vs[j]);
    forall i | 0 <= i < j ensures !ResolvesTo(sem, vs[i], x) {
      SingleIs(sem, vs[i]);
      assert images[i] == Image(sem, vs[i]) != x;
    }
  }

  /** A list of resolved values: everything that a value resolves to and nothing else, each
      once, in the order of first occurrence. */
  ghost predicate ListIs(sem: Semantics, vs: seq<Scalar>, xs: seq<Scalar>) {
    && (forall x :: x in xs <==> exists j :: FirstTo(sem, vs, j, x))
    && (forall a, b :: 0 <= a < b < |xs| ==> xs[a] != xs[b])
    && (forall a, b, i, j :: 0 <= a < b < |xs| && FirstTo(sem, vs, i, xs[a]) && FirstTo(sem, vs, j, xs[b]) ==> i < j)
  }

  lemma FirstIsUnique(sem: Semantics, vs: seq<Scalar>, i: int, j: int, x: Scalar)
    requires FirstTo(sem, vs, i, x) && FirstTo(sem, vs, j, x)
    ensures i == j
  {
  }

  lemma DedupIsList(sem: Semantics, vs: seq<Scalar>)
    ensures ListIs(sem, vs, Dedup(Images(sem, vs)))
  {
    var images := Images(sem, vs);
    var xs := Dedup(images);
    forall x ensures x in xs <==> exists j :: FirstTo(sem, vs, j, x) { ListedIff(sem, vs, x); }
    DedupUnique(images);
    forall a, b, i, j | 0 <= a < b < |xs| && FirstTo(sem, vs, i, xs[a]) && FirstTo(sem, vs, j, xs[b]) ensures i < j {
      DedupMembers(images, xs[a]);
      DedupMembers(images, xs[b]);
      FirstImage(sem, vs, xs[a]);
      FirstImage(sem, vs, xs[b]);
      DedupOrdered(images, a, b);
      FirstIsUnique(sem, vs, i, FirstIndex(images, xs[a]), xs[a]);
      FirstIsUnique(sem, vs, j, FirstIndex(images, xs[b]), xs[b]);
    }
  }

  lemma ListedIff(sem: Semantics, vs: seq<Scalar>, x: Scalar)
    ensures x in Dedup(Images(sem, vs)) <==> exists j :: FirstTo(sem, vs, j, x)
  {
    var images := Images(sem, vs);
    DedupMembers(images, x);
    if x in images { FirstImage(sem, vs, x); }
    if j :| FirstTo(sem, vs, j, x) {
      SingleIs(sem, vs[j]);
      assert images[j] == x;
    }
  }

  /** A resolved filter: unchanged without a mapping; otherwise a list exactly for `in` and
      for lists, and else the one value. */
  ghost predicate FilterIs(snap: Snapshot, f: Filter, g: Filter) {
    && g == f.(value := g.value)
    && (if f.fieldId !in snap then g == f
        else
          var sem := snap[f.fieldId];
          if f.operator == "in" || f.value.Many? then g.value.Many? && ListIs(sem, Scalars(f), g.value.values)
          else g.value.One? && ResolvesTo(sem, f.value.value, g.value.value))
  }

  lemma ResolvedIs(snap: Snapshot, f: Filter)
    ensures FilterIs(snap, f, ResolvedFilter(snap, f))
  {
    if f.fieldId in snap {
      DedupIsList(snap[f.fieldId], Scalars(f));
      if f.value.One? { SingleIs(snap[f.fieldId], f.value.value); }
    }
  }

  /** The status of a value, told from the mapping of its field. */
  ghost predicate StatusIs(snap: Snapshot, f: Filter, v: Scalar, status: Status) {
    if f.fieldId !in snap then status == Unpolicied
    else
      var sem := snap[f.fieldId];
      status == if IsTerm(sem, v) then HitStatus else if Known(sem, v) then PassedThrough else if sem.reject then Missed else Warned
  }

  /** The outcomes of the first values of a filter. */
  ghost predicate LogIs(snap: Snapshot, f: Filter, n: nat, o: FilterOutcome) {
    && o.filterId == f.filterId && o.fieldId == f.fieldId && o.operator == f.operator && |o.values| == n <= |Scalars(f)|
    && forall j: nat :: j < n ==>
         o.values[j] == ValueOutcome(f.filterId, f.fieldId, j, o.values[j].status) && StatusIs(snap, f, Scalars(f)[j], o.values[j].status)
  }

  lemma LogMeans(snap: Snapshot, f: Filter, n: nat)
    requires n <= |Scalars(f)|
    ensures LogIs(snap, f, n, Log(snap, f, n))
  {
    forall j: nat | j < n ensures StatusIs(snap, f, Scalars(f)[j], Log(snap, f, n).values[j].status) {
      if f.fieldId in snap { SingleIs(snap[f.fieldId], Scalars(f)[j]); }
    }
  }

  /** A filter that resolution accepts. */
  ghost predicate Acceptable(snap: Snapshot, f: Filter) {
    f.fieldId in snap ==>
      && (f.operator == "eq" || f.operator == "in")
      && (snap[f.fieldId].reject ==> forall j :: 0 <= j < |Scalars(f)| ==> Known(snap[f.fieldId], Scalars(f)[j]))
  }

  lemma PassesIff(snap: Snapshot, f: Filter)
    ensures Passes(snap, f) <==> Acceptable(snap, f)
  {
    if f.fieldId in snap {
      var sem, vs := snap[f.fieldId], Scalars(f);
      forall j | 0 <= j < |vs| ensures Refused(sem, vs[j]) <==> sem.reject && !Known(sem, vs[j]) { SingleIs(sem, vs[j]); }
    }
  }

  /** How the filter that stops resolution is reported: a disallowed operator at once, an
      unknown value with the outcomes up to it. */
  ghost predicate StoppedBy(snap: Snapshot, f: Filter, o: FilterOutcome, e: Failure) {
    && f.fieldId in snap
    && (if f.operator != "eq" && f.operator != "in" then LogIs(snap, f, 0, o) && e == OperatorDisallowed(f.fieldId, f.operator)
        else
          && snap[f.fieldId].reject && 0 < |o.values| <= |Scalars(f)| && LogIs(snap, f, |o.values|, o)
          && (forall j :: 0 <= j < |o.values| - 1 ==> Known(snap[f.fieldId], Scalars(f)[j]))
          && !Known(snap[f.fieldId], Scalars(f)[|o.values| - 1])
          && e == UnknownValue(f.fieldId, Scalars(f)[|o.values| - 1]))
  }

  lemma FailureMeans(snap: Snapshot, f: Filter, o: FilterOutcome, e: Failure)
    requires FailsWith(snap, f, o, e)
    ensures StoppedBy(snap, f, o, e)
  {
    if !AllowedOperator(f.operator) {
      LogMeans(snap, f, 0);
    } else {
      var sem, vs := snap[f.fieldId], Scalars(f);
      var m: nat :| RefusedAt(snap, f, m) && o == Log(snap, f, m + 1) && e == UnknownValue(f.fieldId, vs[m]);
      LogMeans(snap, f, m + 1);
      SingleIs(sem, vs[m]);
      forall j | 0 <= j < m ensures Known(sem, vs[j]) { SingleIs(sem, vs[j]); }
    }
  }

  /** What every resolution gives, told from the filters and the mappings alone: it fails
      exactly when some filter is not acceptable, at the first such filter; all filters
      before are resolved and logged in full. */
  lemma ResolutionIs(snap: Snapshot, filters: seq<Filter>, resolved: seq<Filter>, log: seq<FilterOutcome>, error: Option<Failure>)
    requires Resolves(snap, filters, resolved, log, error)
    ensures error.None? <==> forall i :: 0 <= i < |filters| ==> Acceptable(snap, filters[i])
    ensures |resolved| <= |filters| && |log| == |resolved| + (if error.Some? then 1 else 0)
    ensures forall i :: 0 <= i < |resolved| ==> Acceptable(snap, filters[i]) && FilterIs(snap, filters[i], resolved[i])
    ensures forall i :: 0 <= i < |resolved| ==> LogIs(snap, filters[i], |Scalars(filters[i])|, log[i])
    ensures error.Some? ==> |resolved| < |filters| && StoppedBy(snap, filters[|resolved|], log[|resolved|], error.value)
  {
    forall i | 0 <= i < |resolved|
      ensures Acceptable(snap, filters[i]) && FilterIs(snap, filters[i], resolved[i])
      ensures LogIs(snap, filters[i], |Scalars(filters[i])|, log[i])
    {
      PassesIff(snap, filters[i]);
      ResolvedIs(snap, filters[i]);
      LogMeans(snap, filters[i], |Scalars(filters[i])|);
    }
    if error.Some? {
      var n := |resolved|;
      FailureMeans(snap, filters[n], log[n], error.value);
      FailureIsNoPass(snap, filters[n], log[n], error.value);
      PassesIff(snap, filters[n]);
    }
  }
}
