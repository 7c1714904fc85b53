/** The strict canonical text (`jcs-v1`) of a JSON-safe value. */
module CanonicalJson {
  import opened Options
  import opened Numerals
  import opened Ordering
  import opened Utf16
  import Es6Number

  datatype Member = Member(key: string, value: Json)

  /** A JSON-safe Python value.  `Obj` keeps the insertion order of the mapping;
      `Float` carries the decimal text of Python's `repr`. */
  datatype Json =
    | Null
    | Bool(b: bool)
    | Str(s: string)
    | Int(n: int)
    | Float(repr: string)
    | Arr(items: seq<Json>)
    | Obj(members: seq<Member>)

  /** What holds of every Python value: mappings have distinct keys and the
      `repr` of a finite float is a numeral. */
  ghost predicate WellFormed(v: Json) {
    match v
    case Float(repr) => IsNumeral(repr)
    case Arr(items) => forall x :: x in items ==> WellFormed(x)
    case Obj(members) =>
      && (forall i, j :: 0 <= i < j < |members| ==> members[i].key != members[j].key)
      && (forall m :: m in members ==> WellFormed(m.value))
    case _ => true
  }

  // ---- strings ----

  function HexDigit(d: int): char
    requires 0 <= d < 16
  {
    if d < 10 then DigitChar(d) else ('a' as int + (d - 10)) as char
  }

  /** The short escapes of the escape table. */
  function ShortEscape(c: char): Option<char> {
    if c == '\"' || c == '\\' then Some(c)
    else if c == '\U{8}' then Some('b')
    else if c == '\U{C}' then Some('f')
    else if c == '\n' then Some('n')
    else if c == '\r' then Some('r')
    else if c == '\t' then Some('t')
    else None
  }

  predicate NeedsEscape(c: char) {
    ShortEscape(c).Some? || c < ' '
  }

  function EscapeChar(c: char): string {
    if ShortEscape(c).Some? then ['\\', ShortEscape(c).value]
    else if c < ' ' then ['\\', 'u', '0', '0', HexDigit(c as int / 16), HexDigit(c as int % 16)]
    else [c]
  }

  function Escape(s: string): string {
    if s == [] then [] else EscapeChar(s[0]) + Escape(s[1..])
  }

  function Quote(s: string): string {
    "\"" + Escape(s) + "\""
  }

  // ---- values ----

  /** Texts separated by commas. */
  function Join(texts: seq<string>): string {
    if texts == [] then ""
    else if |texts| == 1 then texts[0]
    else texts[0] + "," + Join(texts[1..])
  }

  datatype Pair = Pair(key: string, text: string)

  function PairKey(p: Pair): seq<int> { KeyBytes(p.key) }

  function PairText(p: Pair): string { Quote(p.key) + ":" + p.text }

  function PairTexts(ps: seq<Pair>): (r: seq<string>)
    ensures |r| == |ps| && forall i :: 0 <= i < |ps| ==> r[i] == PairText(ps[i])
  {
    if ps == [] then [] else [PairText(ps[0])] + PairTexts(ps[1..])
  }

  function Text(v: Json): string
    requires WellFormed(v)
  {
    match v
    case Null => "null"
    case Bool(b) => if b then "true" else "false"
    case Str(s) => Quote(s)
    case Int(n) => IntText(n)
    case Float(repr) => Es6Number.Text(repr)
    case Arr(items) => "[" + Join(Texts(items)) + "]"
    case Obj(members) => "{" + Join(PairTexts(SortBy(Pairs(members), PairKey))) + "}"
  }

  function Texts(items: seq<Json>): (r: seq<string>)
    requires forall x :: x in items ==> WellFormed(x)
    ensures |r| == |items| && forall i :: 0 <= i < |items| ==> r[i] == Text(items[i])
  {
    seq(|items|, i requires 0 <= i < |items| => Text(items[i]))
  }

  function Pairs(members: seq<Member>): (r: seq<Pair>)
    requires forall m :: m in members ==> WellFormed(m.value)
    ensures |r| == |members|
    ensures forall i :: 0 <= i < |members| ==> r[i] == Pair(members[i].key, Text(members[i].value))
  {
    seq(|members|, i requires 0 <= i < |members| => Pair(members[i].key, Text(members[i].value)))
  }

  // ---- the denoted value ----

  /** The value a text stands for.  `es6` tells whether a number is written in the
      ES6 layout; it fails only for integers of 22 digits and more. */
  datatype Value =
    | VNull
    | VBool(b: bool)
    | VStr(s: string)
    | VNum(number: Decimal, es6: bool)
    | VArr(items: seq<Value>)
    | VObj(members: map<string, Value>)

  ghost function Meaning(v: Json): Value
    requires WellFormed(v)
  {
    match v
    case Null => VNull
    case Bool(b) => VBool(b)
    case Str(s) => VStr(s)
    case Int(n) => VNum(Normal(n, 0), -(PowNat(21) as int) < n < PowNat(21))
    case Float(repr) => VNum(Numerals.Value(repr), true)
    case Arr(items) => VArr(Meanings(items))
    case Obj(members) => VObj(MeaningMap(members))
  }

  ghost function Meanings(items: seq<Json>): (r: seq<Value>)
    requires forall x :: x in items ==> WellFormed(x)
    ensures |r| == |items| && forall i :: 0 <= i < |items| ==> r[i] == Meaning(items[i])
  {
    seq(|items|, i requires 0 <= i < |items| => Meaning(items[i]))
  }

  /** The mapping itself; where a key repeats the later entry counts. */
  ghost function MeaningMap(members: seq<Member>): map<string, Value>
    requires forall m :: m in members ==> WellFormed(m.value)
  {
    if members == [] then map[]
    else
      assert forall m :: m in members[1..] ==> m in members;
      map[members[0].key := Meaning(members[0].value)] + MeaningMap(members[1..])
  }

  ghost predicate HasKey(members: seq<Member>, k: string) { exists i :: 0 <= i < |members| && members[i].key == k }

  lemma {:induction false} MeaningMapKeys(members: seq<Member>, k: string)
    requires forall m :: m in members ==> WellFormed(m.value)
    ensures k in MeaningMap(members) <==> HasKey(members, k)
  {
    if members != [] {
      assert forall m :: m in members[1..] ==> m in members;
      MeaningMapKeys(members[1..], k);
      HasKeyCons(members, k);
    }
  }

  lemma HasKeyCons(members: seq<Member>, k: string)
    requires members != []
    ensures HasKey(members, k) <==> members[0].key == k || HasKey(members[1..], k)
  {
    if HasKey(members[1..], k) {
      var i :| 0 <= i < |members[1..]| && members[1..][i].key == k;
      assert members[i + 1].key == k;
    }
    if HasKey(members, k) && members[0].key != k {
      var i :| 0 <= i < |members| && members[i].key == k;
      assert members[1..][i - 1].key == k;
    }
  }

  lemma {:induction false} MeaningMapAt(members: seq<Member>, i: nat)
    requires forall m :: m in members ==> WellFormed(m.value)
    requires forall i, j :: 0 <= i < j < |members| ==> members[i].key != members[j].key
    requires i < |members|
    ensures members[i].key in MeaningMap(members)
    ensures MeaningMap(members)[members[i].key] == Meaning(members[i].value)
  {
    assert forall m :: m in members[1..] ==> m in members;
    if i > 0 {
      MeaningMapAt(members[1..], i - 1);
    } else {
      MeaningMapKeys(members[1..], members[0].key);
      assert forall j :: 0 <= j < |members[1..]| ==> members[1..][j] == members[j + 1];
    }
  }

  // ---- member order ----

  lemma PairsDistinct(members: seq<Member>)
    requires WellFormed(Obj(members))
    ensures DistinctBy(Pairs(members), PairKey)
  {
    var ps := Pairs(members);
    forall i, j | 0 <= i < j < |ps| ensures PairKey(ps[i]) != PairKey(ps[j]) {
      KeyOrderIsTotal(members[i].key, members[j].key);
    }
  }

  /** Mappings with the same entries, in whatever insertion orders, have the
      same text. */
  lemma PairsFromMeaning(xs: seq<Member>, ys: seq<Member>)
    requires WellFormed(Obj(xs)) && WellFormed(Obj(ys))
    requires forall x :: x in Pairs(xs) <==> x in Pairs(ys)
    ensures Text(Obj(xs)) == Text(Obj(ys))
  {
    PairsDistinct(xs);
    PairsDistinct(ys);
    SortByOrderFree(Pairs(xs), Pairs(ys), PairKey);
  }
}
