/** Which Python values the strict encoder accepts, and where it points when it
    refuses one. */
module JsonSafety {
  import opened Options
  import opened Numerals
  import opened CanonicalJson
  import JsonDecoder
  import CanonicalRoundTrip
  import CanonicalEncoder

  /** A mapping key: a string, or anything else with the text of its `repr`. */
  datatype PyKey = Name(s: string) | OtherKey(shown: string, typeName: string)

  datatype PyEntry = PyEntry(key: PyKey, value: Py)

  /** A Python value.  String enumerations are strings; `PyEnum` is any other
      enumeration, `PyOther` a tuple, a set, bytes or any other object. */
  datatype Py =
    | PyNone
    | PyBool(b: bool)
    | PyStr(s: string)
    | PyEnum(typeName: string)
    | PyInt(n: int)
    | PyFloat(finite: bool, repr: string)
    | PyMap(entries: seq<PyEntry>)
    | PyList(items: seq<Py>)
    | PyOther(typeName: string)

  datatype Violation = Violation(path: string, typeName: string)

  function ItemPath(path: string, index: nat): string { path + "[" + NatText(index) + "]" }

  /** `validate_json_safe`: the first value that is not JSON-safe. */
  function Validate(v: Py, path: string): Option<Violation> {
    match v
    case PyEnum(t) => Some(Violation(path, t))
    case PyFloat(finite, _) => if finite then None else Some(Violation(path, "float"))
    case PyMap(entries) => ValidateEntries(entries, path)
    case PyList(items) => ValidateItems(items, path, 0)
    case PyOther(t) => Some(Violation(path, t))
    case _ => None
  }

  function ValidateEntries(entries: seq<PyEntry>, path: string): Option<Violation> {
    if entries == [] then None
    else
      var e := entries[0];
      if e.key.OtherKey? then Some(Violation(path + "." + e.key.shown, e.key.typeName))
      else
        assert e in entries && e.value < e;
        match Validate(e.value, path + "." + e.key.s)
        case Some(x) => Some(x)
        case None => ValidateEntries(entries[1..], path)
  }

  function ValidateItems(items: seq<Py>, path: string, index: nat): Option<Violation> {
    if items == [] then None
    else
      match Validate(items[0], ItemPath(path, index))
      case Some(x) => Some(x)
      case None => ValidateItems(items[1..], path, index + 1)
  }

  // ---- positions in a value ----

  /** The value at a position: list indices and mapping entries followed in turn. */
  function Reach(v: Py, steps: seq<nat>): Option<Py>
    decreases |steps|
  {
    if steps == [] then Some(v)
    else
      match v
      case PyList(items) => if steps[0] < |items| then Reach(items[steps[0]], steps[1..]) else None
      case PyMap(entries) => if steps[0] < |entries| then Reach(entries[steps[0]].value, steps[1..]) else None
      case _ => None
  }

  /** Why a value is refused by itself, without regard to what it contains. */
  predicate Plain(v: Py) {
    match v
    case PyEnum(_) => false
    case PyFloat(finite, _) => finite
    case PyOther(_) => false
    case PyMap(entries) => forall i :: 0 <= i < |entries| ==> entries[i].key.Name?
    case _ => true
  }

  /** Everything in the value is plain. */
  ghost predicate PlainThroughout(v: Py) {
    forall steps :: Reach(v, steps).Some? ==> Plain(Reach(v, steps).value)
  }

  lemma ReachItem(items: seq<Py>, i: nat, steps: seq<nat>)
    requires i < |items|
    ensures Reach(PyList(items), [i] + steps) == Reach(items[i], steps)
  {
    assert ([i] + steps)[1..] == steps;
  }

  lemma ReachEntry(entries: seq<PyEntry>, i: nat, steps: seq<nat>)
    requires i < |entries|
    ensures Reach(PyMap(entries), [i] + steps) == Reach(entries[i].value, steps)
  {
    assert ([i] + steps)[1..] == steps;
  }

  /** JSON-safe: a value that stands for a JSON value. */
  predicate JsonSafe(v: Py) {
    match v
    case PyMap(entries) => forall i :: 0 <= i < |entries| ==> entries[i].key.Name? && JsonSafe(entries[i].value)
    case PyList(items) => forall i :: 0 <= i < |items| ==> JsonSafe(items[i])
    case _ => Plain(v)
  }

  lemma {:induction false} SafeReaches(v: Py, steps: seq<nat>)
    requires JsonSafe(v) && Reach(v, steps).Some?
    ensures Plain(Reach(v, steps).value)
    decreases |steps|
  {
    if steps != [] {
      match v
      case PyList(items) => SafeReaches(items[steps[0]], steps[1..]);
      case PyMap(entries) => SafeReaches(entries[steps[0]].value, steps[1..]);
    }
  }

  lemma {:induction false} PlainIsSafe(v: Py)
    requires PlainThroughout(v)
    ensures JsonSafe(v)
  {
    assert Plain(Reach(v, []).value);
    match v
    case PyList(items) =>
      forall i | 0 <= i < |items| ensures JsonSafe(items[i]) {
        forall steps | Reach(items[i], steps).Some? ensures Plain(Reach(items[i], steps).value) {
          ReachItem(items, i, steps);
        }
        PlainIsSafe(items[i]);
      }
    case PyMap(entries) =>
      forall i | 0 <= i < |entries| ensures JsonSafe(entries[i].value) {
        forall steps | Reach(entries[i].value, steps).Some? ensures Plain(Reach(entries[i].value, steps).value) {
          ReachEntry(entries, i, steps);
        }
        PlainIsSafe(entries[i].value);
      }
    case _ =>
  }

  // ---- acceptance ----

  lemma {:induction false} ValidateSafe(v: Py, path: string)
    ensures Validate(v, path).None? <==> JsonSafe(v)
    decreases v, 1, 0
  {
    match v
    case PyMap(entries) => EntriesSafe(v, entries, path);
    case PyList(items) => ItemsSafe(v, items, path, 0);
    case _ =>
  }

  lemma {:induction false} EntriesSafe(v: Py, entries: seq<PyEntry>, path: string)
    requires forall i :: 0 <= i < |entries| ==> entries[i].value < v
    ensures ValidateEntries(entries, path).None?
       <==> forall i :: 0 <= i < |entries| ==> entries[i].key.Name? && JsonSafe(entries[i].value)
    decreases v, 0, |entries|
  {
    if entries != [] {
      var rest := entries[1..];
      if entries[0].key.Name? { ValidateSafe(entries[0].value, path + "." + entries[0].key.s); }
      EntriesSafe(v, rest, path);
      assert forall i :: 0 <= i < |rest| ==> rest[i] == entries[i + 1];
      assert forall i :: 0 < i < |entries| ==> entries[i] == rest[i - 1];
    }
  }

  lemma {:induction false} ItemsSafe(v: Py, items: seq<Py>, path: string, index: nat)
    requires forall i :: 0 <= i < |items| ==> items[i] < v
    ensures ValidateItems(items, path, index).None? <==> forall i :: 0 <= i < |items| ==> JsonSafe(items[i])
    decreases v, 0, |items|
  {
    if items != [] {
      var rest := items[1..];
      ValidateSafe(items[0], ItemPath(path, index));
      ItemsSafe(v, rest, path, index + 1);
      assert forall i :: 0 <= i < |rest| ==> rest[i] == items[i + 1];
      assert forall i :: 0 < i < |items| ==> items[i] == rest[i - 1];
    }
  }

  /** A value is accepted exactly when nothing that can be reached in it is refused. */
  lemma AcceptedIff(v: Py, path: string)
    ensures Validate(v, path).None? <==> PlainThroughout(v)
  {
    ValidateSafe(v, path);
    if JsonSafe(v) {
      forall steps | Reach(v, steps).Some? ensures Plain(Reach(v, steps).value) { SafeReaches(v, steps); }
    }
    if PlainThroughout(v) { PlainIsSafe(v); }
  }

  // ---- where a refusal points ----

  /** The path of a position. */
  function PathText(v: Py, steps: seq<nat>, path: string): string
    requires Reach(v, steps).Some?
    decreases |steps|
  {
    if steps == [] then path
    else
      match v
      case PyList(items) => PathText(items[steps[0]], steps[1..], ItemPath(path, steps[0]))
      case PyMap(entries) =>
        PathText(entries[steps[0]].value, steps[1..], path + "." + KeyText(entries[steps[0]].key))
  }

  function KeyText(k: PyKey): string { if k.Name? then k.s else k.shown }

  /** A violation that names a refused value, or the key of an entry, at a position. */
  ghost predicate PointsAt(v: Py, steps: seq<nat>, path: string, x: Violation) {
    && Reach(v, steps).Some?
    && var u, p := Reach(v, steps).value, PathText(v, steps, path);
       match u
       case PyEnum(t) => x == Violation(p, t)
       case PyOther(t) => x == Violation(p, t)
       case PyFloat(finite, _) => !finite && x == Violation(p, "float")
       case PyMap(entries) =>
         exists i :: 0 <= i < |entries| && entries[i].key.OtherKey?
           && x == Violation(p + "." + entries[i].key.shown, entries[i].key.typeName)
       case _ => false
  }

  lemma PointsInItem(items: seq<Py>, i: nat, steps: seq<nat>, path: string, x: Violation)
    requires i < |items| && PointsAt(items[i], steps, ItemPath(path, i), x)
    ensures PointsAt(PyList(items), [i] + steps, path, x)
  {
    ReachItem(items, i, steps);
    assert ([i] + steps)[1..] == steps;
  }

  lemma PointsInEntry(entries: seq<PyEntry>, i: nat, steps: seq<nat>, path: string, x: Violation)
    requires i < |entries| && PointsAt(entries[i].value, steps, path + "." + KeyText(entries[i].key), x)
    ensures PointsAt(PyMap(entries), [i] + steps, path, x)
  {
    ReachEntry(entries, i, steps);
    assert ([i] + steps)[1..] == steps;
  }

  /** A refusal names a refused value or key and the path that leads to it. */
  lemma {:induction false} RefusalPoints(v: Py, path: string) returns (steps: seq<nat>)
    requires Validate(v, path).Some?
    ensures PointsAt(v, steps, path, Validate(v, path).value)
    decreases v, 1, 0
  {
    match v
    case PyMap(entries) => steps := EntryRefusal(v, entries, path, 0);
    case PyList(items) => steps := ItemRefusal(v, items, path, 0);
    case _ => steps := [];
  }

  lemma {:induction false} ItemRefusal(v: Py, items: seq<Py>, path: string, from: nat) returns (steps: seq<nat>)
    requires v == PyList(items) && from <= |items| && ValidateItems(items[from..], path, from).Some?
    ensures PointsAt(v, steps, path, ValidateItems(items[from..], path, from).value)
    decreases v, 0, |items| - from
  {
    assert items[from..][0] == items[from] && items[from..][1..] == items[from + 1..];
    if Validate(items[from], ItemPath(path, from)).Some? {
      var inner := RefusalPoints(items[from], ItemPath(path, from));
      PointsInItem(items, from, inner, path, Validate(items[from], ItemPath(path, from)).value);
      steps := [from] + inner;
    } else {
      steps := ItemRefusal(v, items, path, from + 1);
    }
  }

  lemma {:induction false} EntryRefusal(v: Py, entries: seq<PyEntry>, path: string, from: nat) returns (steps: seq<nat>)
    requires v == PyMap(entries) && from <= |entries| && ValidateEntries(entries[from..], path).Some?
    ensures PointsAt(v, steps, path, ValidateEntries(entries[from..], path).value)
    decreases v, 0, |entries| - from
  {
    assert entries[from..][0] == entries[from] && entries[from..][1..] == entries[from + 1..];
    var e := entries[from];
    if e.key.OtherKey? {
      steps := [];
    } else if Validate(e.value, path + "." + e.key.s).Some? {
      var inner := RefusalPoints(e.value, path + "." + e.key.s);
      PointsInEntry(entries, from, inner, path, Validate(e.value, path + "." + e.key.s).value);
      steps := [from] + inner;
    } else {
      steps := EntryRefusal(v, entries, path, from + 1);
    }
  }

  /** Items are looked at in order: the list is refused for the first item that is
      refused. */
  lemma {:induction false} FirstItemRefused(items: seq<Py>, path: string, i: nat)
    requires i < |items| && Validate(items[i], ItemPath(path, i)).Some?
    requires forall j :: 0 <= j < i ==> PlainThroughout(items[j])
    ensures Validate(PyList(items), path) == Validate(items[i], ItemPath(path, i))
  {
    assert items[0..] == items;
    ItemsFrom(items, path, 0, i);
  }

  lemma {:induction false} ItemsFrom(items: seq<Py>, path: string, from: nat, i: nat)
    requires from <= i < |items| && Validate(items[i], ItemPath(path, i)).Some?
    requires forall j :: 0 <= j < i ==> PlainThroughout(items[j])
    ensures ValidateItems(items[from..], path, from) == Validate(items[i], ItemPath(path, i))
    decreases i - from
  {
    assert items[from..][0] == items[from] && items[from..][1..] == items[from + 1..];
    if from < i {
      AcceptedIff(items[from], ItemPath(path, from));
      ItemsFrom(items, path, from + 1, i);
    }
  }

  /** Why an entry of a mapping is refused: its key first, then its value. */
  function EntryViolation(e: PyEntry, path: string): Option<Violation> {
    match e.key
    case OtherKey(shown, typeName) => Some(Violation(path + "." + shown, typeName))
    case Name(s) => Validate(e.value, path + "." + s)
  }

  /** Entries are looked at in order too. */
  lemma {:induction false} FirstEntryRefused(entries: seq<PyEntry>, path: string, i: nat)
    requires i < |entries| && EntryViolation(entries[i], path).Some?
    requires forall j :: 0 <= j < i ==> entries[j].key.Name? && PlainThroughout(entries[j].value)
    ensures Validate(PyMap(entries), path) == EntryViolation(entries[i], path)
  {
    assert entries[0..] == entries;
    EntriesFrom(entries, path, 0, i);
  }

  lemma {:induction false} EntriesFrom(entries: seq<PyEntry>, path: string, from: nat, i: nat)
    requires from <= i < |entries| && EntryViolation(entries[i], path).Some?
    requires forall j :: 0 <= j < i ==> entries[j].key.Name? && PlainThroughout(entries[j].value)
    ensures ValidateEntries(entries[from..], path) == EntryViolation(entries[i], path)
    decreases i - from
  {
    assert entries[from..][0] == entries[from] && entries[from..][1..] == entries[from + 1..];
    if from < i {
      AcceptedIff(entries[from].value, path + "." + entries[from].key.s);
      EntriesFrom(entries, path, from + 1, i);
    }
  }

  // ---- encoding ----

  /** The JSON value that a safe value stands for. */
  function ToJson(v: Py): Json
    requires JsonSafe(v)
  {
    match v
    case PyNone => Null
    case PyBool(b) => Bool(b)
    case PyStr(s) => Str(s)
    case PyInt(n) => Int(n)
    case PyFloat(_, repr) => Float(repr)
    case PyMap(entries) =>
      Obj(seq(|entries|, i requires 0 <= i < |entries| => Member(entries[i].key.s, ToJson(entries[i].value))))
    case PyList(items) => Arr(seq(|items|, i requires 0 <= i < |items| => ToJson(items[i])))
  }

  /** What holds of every Python value: the string keys of a mapping differ, and the
      `repr` of a finite float is a numeral. */
  predicate Python(v: Py) {
    match v
    case PyFloat(finite, repr) => finite ==> IsNumeral(repr)
    case PyMap(entries) =>
      && (forall i, j :: 0 <= i < j < |entries| && entries[i].key.Name? ==> entries[i].key != entries[j].key)
      && (forall i :: 0 <= i < |entries| ==> Python(entries[i].value))
    case PyList(items) => forall i :: 0 <= i < |items| ==> Python(items[i])
    case _ => true
  }

  lemma {:induction false} ToJsonWellFormed(v: Py)
    requires Python(v) && JsonSafe(v)
    ensures WellFormed(ToJson(v))
  {
    match v
    case PyMap(entries) =>
      var ms := ToJson(v).members;
      forall m | m in ms ensures WellFormed(m.value) {
        var i :| 0 <= i < |ms| && ms[i] == m;
        ToJsonWellFormed(entries[i].value);
      }
    case PyList(items) =>
      var xs := ToJson(v).items;
      forall x | x in xs ensures WellFormed(x) {
        var i :| 0 <= i < |xs| && xs[i] == x;
        ToJsonWellFormed(items[i]);
      }
    case _ =>
  }

  /** The JSON value that is read from a text is the Python value: constants, strings,
      items in order, entries by name, and numbers by their exact value, in the ES6
      layout except for integers of 22 digits and more. */
  ghost predicate Denotes(v: Py, x: Value) {
    match v
    case PyNone => x == VNull
    case PyBool(b) => x == VBool(b)
    case PyStr(s) => x == VStr(s)
    case PyInt(n) => x == VNum(Normal(n, 0), -(PowNat(21) as int) < n < PowNat(21))
    case PyFloat(_, repr) => IsNumeral(repr) && x == VNum(Numerals.Value(repr), true)
    case PyList(items) =>
      x.VArr? && |x.items| == |items| && forall i :: 0 <= i < |items| ==> Denotes(items[i], x.items[i])
    case PyMap(entries) =>
      && x.VObj?
      && (forall i :: 0 <= i < |entries| ==>
            entries[i].key.Name? && entries[i].key.s in x.members && Denotes(entries[i].value, x.members[entries[i].key.s]))
      && (forall k :: k in x.members ==> exists i :: 0 <= i < |entries| && entries[i].key == Name(k))
    case _ => false
  }

  lemma {:induction false} MeaningDenotes(v: Py)
    requires Python(v) && JsonSafe(v)
    ensures WellFormed(ToJson(v)) && Denotes(v, Meaning(ToJson(v)))
  {
    ToJsonWellFormed(v);
    match v
    case PyMap(entries) =>
      var ms := ToJson(v).members;
      forall i | 0 <= i < |entries|
        ensures entries[i].key.s in MeaningMap(ms) && Denotes(entries[i].value, MeaningMap(ms)[entries[i].key.s])
      {
        MeaningDenotes(entries[i].value);
        assert ms[i].key == entries[i].key.s && ms[i].value == ToJson(entries[i].value);
        MeaningMapAt(ms, i);
      }
      forall k | k in MeaningMap(ms) ensures exists i :: 0 <= i < |entries| && entries[i].key == Name(k) {
        MeaningMapKeys(ms, k);
        var i :| 0 <= i < |ms| && ms[i].key == k;
        assert entries[i].key == Name(k);
      }
    case PyList(items) =>
      forall i | 0 <= i < |items| ensures Denotes(items[i], Meaning(ToJson(v).items[i])) { MeaningDenotes(items[i]); }
    case _ =>
  }

  /** The canonical text of an accepted payload is read as exactly that payload. */
  lemma TextDenotesPayload(v: Py)
    requires Python(v) && JsonSafe(v)
    ensures WellFormed(ToJson(v)) && JsonDecoder.Decode(Text(ToJson(v))).Some?
    ensures Denotes(v, JsonDecoder.Decode(Text(ToJson(v))).value)
  {
    MeaningDenotes(v);
    CanonicalRoundTrip.DecodeText(ToJson(v));
  }

  /** Refuses with the first violation, or gives the canonical text. */
  method StrictCanonicalJson(payload: Py) returns (r: Result<string, Violation>)
    requires Python(payload)
    ensures r.Ok? <==> PlainThroughout(payload)
    ensures r.Ok? ==> JsonSafe(payload) && WellFormed(ToJson(payload)) && r.value == Text(ToJson(payload))
    ensures r.Err? ==> Validate(payload, "$") == Some(r.error) && exists steps :: PointsAt(payload, steps, "$", r.error)
  {
    var refused := Validate(payload, "$");
    AcceptedIff(payload, "$");
    if refused.Some? {
      ghost var steps := RefusalPoints(payload, "$");
      return Err(refused.value);
    }
    ValidateSafe(payload, "$");
    ToJsonWellFormed(payload);
    var text := CanonicalEncoder.RenderJson(ToJson(payload));
    return Ok(text);
  }

  /** Two accepted payloads have the same text exactly when they are the same value. */
  lemma AcceptedTextsIdentify(a: Py, b: Py)
    requires Python(a) && Python(b) && JsonSafe(a) && JsonSafe(b)
    ensures WellFormed(ToJson(a)) && WellFormed(ToJson(b))
    ensures Text(ToJson(a)) == Text(ToJson(b)) <==> Meaning(ToJson(a)) == Meaning(ToJson(b))
  {
    ToJsonWellFormed(a);
    ToJsonWellFormed(b);
    CanonicalRoundTrip.TextIsIdentity(ToJson(a), ToJson(b));
  }
}
