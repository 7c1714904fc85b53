/** Canonical text is uniquely decodable, and it is the same for two values
    exactly when the values are the same. */
module CanonicalRoundTrip {
  import opened Options
  import opened Numerals
  import opened Ordering
  import opened Utf16
  import opened CanonicalJson
  import opened JsonDecoder
  import Es6Number

  // ---- strings ----

  lemma ReadEscapedChar(c: char, rest: string)
    ensures EscapeChar(c) != "" && EscapeChar(c)[0] != '\"'
    ensures ReadChar(EscapeChar(c) + rest) == Got(c, rest)
  {
    var s := EscapeChar(c) + rest;
    if ShortEscape(c).Some? {
      assert s[2..] == rest;
    } else if c < ' ' {
      assert s[2..6] == ['0', '0', HexDigit(c as int / 16), HexDigit(c as int % 16)];
      assert s[6..] == rest;
      assert HexValue(HexDigit(c as int / 16)) == Some(c as int / 16);
      assert HexValue(HexDigit(c as int % 16)) == Some(c as int % 16);
      assert (((0 * 16 + 0) * 16 + c as int / 16) * 16 + c as int % 16) == c as int;
    } else {
      assert s[1..] == rest;
    }
  }

  /** Every string, with every escape, is read back from its quoted text. */
  lemma {:induction false} ReadQuoted(s: string, rest: string)
    ensures ReadString(Escape(s) + "\"" + rest) == Got(s, rest)
  {
    var t := Escape(s) + "\"" + rest;
    if s == [] {
      assert t == "\"" + rest;
    } else {
      var tail := Escape(s[1..]) + "\"" + rest;
      assert t == EscapeChar(s[0]) + tail;
      ReadEscapedChar(s[0], tail);
      ReadQuoted(s[1..], rest);
      assert t[0] == EscapeChar(s[0])[0];
      assert [s[0]] + s[1..] == s;
    }
  }

  // ---- numbers ----

  predicate NumChars(s: string) {
    forall i :: 0 <= i < |s| ==> NumChar(s[i])
  }

  /** What may follow a number so that it ends where its text ends. */
  predicate Delimited(rest: string) {
    rest == "" || !NumChar(rest[0])
  }

  lemma {:induction false} SpanStops(s: string, rest: string)
    requires NumChars(s) && Delimited(rest)
    ensures NumSpan(s + rest) == |s|
  {
    if s == "" {
      assert s + rest == rest;
    } else {
      SpanStops(s[1..], rest);
      assert (s + rest)[1..] == s[1..] + rest;
    }
  }

  lemma ComposeChars(negative: bool, whole: string, fraction: string, power: string)
    requires AllDigits(whole) && whole != "" && AllDigits(fraction)
    requires power == "" || IsSignedDigits(power)
    ensures var t := Compose(negative, whole, fraction, power); NumChars(t) && t != ""
    ensures var t := Compose(negative, whole, fraction, power); t[0] == '-' || IsDigit(t[0])
  {
    var t := Compose(negative, whole, fraction, power);
    var a := (if negative then "-" else "") + whole;
    var b := if fraction == "" then "" else "." + fraction;
    var c := if power == "" then "" else "e" + power;
    assert t == a + b + c;
    assert NumChars(a) && NumChars(b);
    assert NumChars(power);
    assert NumChars(c);
    assert t[0] == a[0];
  }

  lemma RenderChars(v: Decimal)
    ensures var t := Es6Number.Render(v); NumChars(t) && t != "" && (t[0] == '-' || IsDigit(t[0]))
  {
    if v.mantissa != 0 {
      var s := Es6Number.NormalSignificand(v);
      Es6Number.LayoutWellFormed(s);
      var l := Es6Number.LayoutOf(s);
      ComposeChars(v.mantissa < 0, l.whole, l.fraction, l.power);
    }
  }

  /** A number reader that understands every canonical number text. */
  ghost predicate ReadsNumbers(num: NumberReader) {
    && (forall n :: num(IntText(n)) == Some(Meaning(Int(n))))
    && (forall repr :: IsNumeral(repr) ==> num(Es6Number.Text(repr)) == Some(Meaning(Float(repr))))
  }

  lemma ReadNumeral(t: string, rest: string, num: NumberReader, v: Value)
    requires NumChars(t) && t != "" && (t[0] == '-' || IsDigit(t[0]))
    requires num(t) == Some(v) && Delimited(rest)
    ensures ReadValue(t + rest, num) == Got(v, rest)
  {
    var s := t + rest;
    SpanStops(t, rest);
    assert s[..|t|] == t && s[|t|..] == rest && s[0] == t[0];
  }

  lemma IntChars(n: int)
    ensures var t := IntText(n); NumChars(t) && t != "" && (t[0] == '-' || IsDigit(t[0]))
  {
    IntTextCompose(n);
    ComposeChars(n < 0, NatText(if n < 0 then -n else n), "", "");
  }

  lemma FloatChars(repr: string)
    requires IsNumeral(repr)
    ensures var t := Es6Number.Text(repr); NumChars(t) && t != "" && (t[0] == '-' || IsDigit(t[0]))
  {
    Es6Number.TextIsRender(repr);
    RenderChars(Numerals.Value(repr));
  }

  lemma NumberValueOf(t: string, v: Decimal, es6: bool)
    requires IsNumeral(t) && Numerals.Value(t) == v && es6 == (t == Es6Number.Render(v))
    ensures NumberValue(t) == Some(VNum(v, es6))
  {
  }

  lemma IntValueReads(n: int)
    ensures NumberValue(IntText(n)) == Some(Meaning(Int(n)))
  {
    IntTextNumeral(n);
    Es6Number.IntTextIsLayout(n);
    NumberValueOf(IntText(n), Normal(n, 0), -(PowNat(21) as int) < n < PowNat(21));
  }

  lemma FloatValueReads(repr: string)
    requires IsNumeral(repr)
    ensures NumberValue(Es6Number.Text(repr)) == Some(Meaning(Float(repr)))
  {
    Es6Number.TextKeepsValue(repr);
    Es6Number.TextIsRender(repr);
    NumberValueOf(Es6Number.Text(repr), Numerals.Value(repr), true);
  }

  lemma NumberValueReads()
    ensures ReadsNumbers(NumberValue)
  {
    forall n ensures NumberValue(IntText(n)) == Some(Meaning(Int(n))) { IntValueReads(n); }
    forall repr | IsNumeral(repr) ensures NumberValue(Es6Number.Text(repr)) == Some(Meaning(Float(repr))) {
      FloatValueReads(repr);
    }
  }

  // ---- one step of the reader ----

  lemma ItemsLast(s: string, v: Value, rest: string, num: NumberReader)
    requires ReadValue(s, num) == Got(v, "]" + rest)
    ensures ReadItems(s, num) == Got([v], rest)
  {
    assert ("]" + rest)[1..] == rest;
  }

  lemma ItemsMore(s: string, v: Value, more: string, vs: seq<Value>, rest: string, num: NumberReader)
    requires ReadValue(s, num) == Got(v, "," + more) && ReadItems(more, num) == Got(vs, rest)
    ensures ReadItems(s, num) == Got([v] + vs, rest)
  {
    assert ("," + more)[1..] == more;
  }

  lemma JoinCons(t: string, ts: seq<string>)
    requires ts != []
    ensures Join([t] + ts) == t + "," + Join(ts)
  {
    assert ([t] + ts)[1..] == ts;
  }

  lemma Regroup(t: string, more: string, close: string, rest: string)
    ensures (t + "," + more) + close + rest == t + ("," + (more + close + rest))
  {
  }

  lemma Bracket(open: string, body: string, close: string, rest: string)
    ensures (open + body + close) + rest == open + (body + close + rest)
  {
  }

  lemma JoinedLast(t: string, v: Value, rest: string, num: NumberReader)
    requires ReadValue(t + ("]" + rest), num) == Got(v, "]" + rest)
    ensures ReadItems(Join([t]) + "]" + rest, num) == Got([v], rest)
  {
    assert Join([t]) + "]" + rest == t + ("]" + rest);
    ItemsLast(t + ("]" + rest), v, rest, num);
  }

  lemma JoinedMore(t: string, ts: seq<string>, v: Value, vs: seq<Value>, rest: string, num: NumberReader)
    requires ts != []
    requires ReadValue(t + ("," + (Join(ts) + "]" + rest)), num) == Got(v, "," + (Join(ts) + "]" + rest))
    requires ReadItems(Join(ts) + "]" + rest, num) == Got(vs, rest)
    ensures ReadItems(Join([t] + ts) + "]" + rest, num) == Got([v] + vs, rest)
  {
    var more := Join(ts) + "]" + rest;
    JoinCons(t, ts);
    Regroup(t, Join(ts), "]", rest);
    ItemsMore(t + ("," + more), v, more, vs, rest, num);
  }

  lemma MembersLast(s: string, k: string, v: Value, rest: string, num: NumberReader)
    requires ReadMember(s, num) == Got((k, v), "}" + rest)
    ensures ReadMembers(s, num) == Got(map[k := v], rest)
  {
    assert ("}" + rest)[1..] == rest;
  }

  lemma MembersMore(s: string, k: string, v: Value, more: string, m: map<string, Value>, rest: string, num: NumberReader)
    requires ReadMember(s, num) == Got((k, v), "," + more) && ReadMembers(more, num) == Got(m, rest)
    ensures ReadMembers(s, num) == Got(map[k := v] + m, rest)
  {
    assert ("," + more)[1..] == more;
  }

  lemma MemberStep(key: string, body: string, v: Value, rest: string, num: NumberReader)
    requires ReadValue(body, num) == Got(v, rest)
    ensures ReadMember(Quote(key) + ":" + body, num) == Got((key, v), rest)
  {
    var tail := ":" + body;
    var s := Quote(key) + ":" + body;
    assert s[1..] == Escape(key) + "\"" + tail;
    ReadQuoted(key, tail);
    assert tail[1..] == body;
  }

  lemma ArrayStep(body: string, vs: seq<Value>, rest: string, num: NumberReader)
    requires body != "" && body[0] != ']' && ReadItems(body, num) == Got(vs, rest)
    ensures ReadValue("[" + body, num) == Got(VArr(vs), rest)
  {
    Opened("[", body);
    ArrayOpened("[" + body, body, vs, rest, num);
  }

  lemma ArrayOpened(s: string, body: string, vs: seq<Value>, rest: string, num: NumberReader)
    requires |s| > 1 && s[0] == '[' && s[1] != ']' && s[1..] == body && ReadItems(body, num) == Got(vs, rest)
    ensures ReadValue(s, num) == Got(VArr(vs), rest)
  {
  }

  lemma ObjectStep(body: string, m: map<string, Value>, rest: string, num: NumberReader)
    requires body != "" && body[0] != '}' && ReadMembers(body, num) == Got(m, rest)
    ensures ReadValue("{" + body, num) == Got(VObj(m), rest)
  {
    Opened("{", body);
    ObjectOpened("{" + body, body, m, rest, num);
  }

  lemma ObjectOpened(s: string, body: string, m: map<string, Value>, rest: string, num: NumberReader)
    requires |s| > 1 && s[0] == '{' && s[1] != '}' && s[1..] == body && ReadMembers(body, num) == Got(m, rest)
    ensures ReadValue(s, num) == Got(VObj(m), rest)
  {
  }

  lemma Opened(mark: string, body: string)
    requires |mark| == 1 && body != ""
    ensures var s := mark + body; |s| > 1 && s[0] == mark[0] && s[1] == body[0] && s[1..] == body
  {
  }

  lemma EmptyStep(rest: string, num: NumberReader)
    ensures ReadValue("[]" + rest, num) == Got(VArr([]), rest)
    ensures ReadValue("{}" + rest, num) == Got(VObj(map[]), rest)
  {
    assert ("[]" + rest)[2..] == rest && ("{}" + rest)[2..] == rest;
  }

  // ---- values in context ----

  lemma ScalarReads(v: Json, rest: string, num: NumberReader)
    requires ReadsNumbers(num)
    requires WellFormed(v) && !v.Arr? && !v.Obj? && Delimited(rest)
    ensures ReadValue(Text(v) + rest, num) == Got(Meaning(v), rest)
  {
    match v
    case Null => WordStep("null", VNull, rest, num);
    case Bool(b) => WordStep(Text(v), VBool(b), rest, num);
    case Str(t) => StringStep(t, rest, num);
    case Int(n) => IntChars(n); ReadNumeral(Text(v), rest, num, Meaning(v));
    case Float(repr) => FloatChars(repr); ReadNumeral(Text(v), rest, num, Meaning(v));
  }

  lemma WordStep(word: string, v: Value, rest: string, num: NumberReader)
    requires (word == "null" && v == VNull) || (word == "true" && v == VBool(true)) || (word == "false" && v == VBool(false))
    ensures ReadValue(word + rest, num) == Got(v, rest)
  {
    var s := word + rest;
    assert s[..|word|] == word && s[|word|..] == rest;
  }

  lemma StringStep(t: string, rest: string, num: NumberReader)
    ensures ReadValue(Quote(t) + rest, num) == Got(VStr(t), rest)
  {
    var s := Quote(t) + rest;
    assert s[1..] == Escape(t) + "\"" + rest;
    ReadQuoted(t, rest);
  }

  lemma TextStart(v: Json)
    requires WellFormed(v)
    ensures Text(v) != "" && Text(v)[0] != ']' && Text(v)[0] != '}'
  {
    match v
    case Int(n) => IntChars(n);
    case Float(repr) => FloatChars(repr);
    case _ =>
  }

  /** Every value is read back from its text, in any context. */
  lemma {:induction false} TextReads(v: Json, rest: string, num: NumberReader)
    requires ReadsNumbers(num)
    requires WellFormed(v) && Delimited(rest)
    ensures ReadValue(Text(v) + rest, num) == Got(Meaning(v), rest)
    decreases v
  {
    match v {
      case Arr(items) => ArrayReads(v, items, rest, num);
      case Obj(members) => ObjectReads(v, members, rest, num);
      case _ => ScalarReads(v, rest, num);
    }
  }

  lemma {:induction false} ArrayReads(v: Json, items: seq<Json>, rest: string, num: NumberReader)
    requires ReadsNumbers(num)
    requires WellFormed(v) && v == Arr(items)
    ensures ReadValue(Text(v) + rest, num) == Got(Meaning(v), rest)
    decreases v, |items| + 1
  {
    if items == [] {
      EmptyStep(rest, num);
      assert Text(v) == "[]";
    } else {
      var body := Join(Texts(items)) + "]" + rest;
      Bracket("[", Join(Texts(items)), "]", rest);
      assert items[0] in items;
      TextStart(items[0]);
      assert body[0] == Texts(items)[0][0];
      ItemsRead(v, items, rest, num);
      ArrayStep(body, Meanings(items), rest, num);
    }
  }

  lemma {:induction false} ItemsRead(v: Json, items: seq<Json>, rest: string, num: NumberReader)
    requires ReadsNumbers(num)
    requires items != [] && forall x :: x in items ==> WellFormed(x) && x < v
    ensures ReadItems(Join(Texts(items)) + "]" + rest, num) == Got(Meanings(items), rest)
    decreases v, |items|
  {
    var x := items[0];
    assert x in items;
    var t, m := Text(x), Meaning(x);
    if |items| == 1 {
      TextReads(x, "]" + rest, num);
      JoinedLast(t, m, rest, num);
      assert Meanings(items) == [m] && Texts(items) == [t];
    } else {
      ItemsCons(items);
      var tail, ts, ms := items[1..], Texts(items[1..]), Meanings(items[1..]);
      var more := Join(ts) + "]" + rest;
      TextReads(x, "," + more, num);
      ItemsRead(v, tail, rest, num);
      JoinedMore(t, ts, m, ms, rest, num);
    }
  }

  lemma ItemsCons(items: seq<Json>)
    requires items != [] && forall x :: x in items ==> WellFormed(x)
    ensures items[0] in items && forall y :: y in items[1..] ==> y in items
    ensures Texts(items) == [Text(items[0])] + Texts(items[1..])
    ensures Meanings(items) == [Meaning(items[0])] + Meanings(items[1..])
  {
    assert forall y :: y in items[1..] ==> y in items;
    TextsSplit(items, Texts(items), Texts(items[1..]));
    MeaningsSplit(items, Meanings(items), Meanings(items[1..]));
  }

  lemma TextsSplit(items: seq<Json>, ts: seq<string>, rest: seq<string>)
    requires items != [] && |ts| == |items| && |rest| == |items| - 1 && forall x :: x in items ==> WellFormed(x)
    requires forall i :: 0 <= i < |items| ==> ts[i] == Text(items[i])
    requires forall i :: 0 <= i < |items| - 1 ==> rest[i] == Text(items[1..][i])
    ensures ts == [Text(items[0])] + rest
  {
    forall i | 0 <= i < |rest| ensures rest[i] == ts[i + 1] { assert items[1..][i] == items[i + 1]; }
  }

  lemma MeaningsSplit(items: seq<Json>, vs: seq<Value>, rest: seq<Value>)
    requires items != [] && |vs| == |items| && |rest| == |items| - 1 && forall x :: x in items ==> WellFormed(x)
    requires forall i :: 0 <= i < |items| ==> vs[i] == Meaning(items[i])
    requires forall i :: 0 <= i < |items| - 1 ==> rest[i] == Meaning(items[1..][i])
    ensures vs == [Meaning(items[0])] + rest
  {
    forall i | 0 <= i < |rest| ensures rest[i] == vs[i + 1] { assert items[1..][i] == items[i + 1]; }
  }

  function MemberKey(m: Member): seq<int> { KeyBytes(m.key) }

  /** Sorting the members and writing them is writing them and sorting the texts. */
  lemma SortedPairs(members: seq<Member>)
    requires WellFormed(Obj(members))
    ensures forall m :: m in SortBy(members, MemberKey) <==> m in members
    ensures WellFormed(Obj(SortBy(members, MemberKey)))
    ensures Pairs(SortBy(members, MemberKey)) == SortBy(Pairs(members), PairKey)
  {
    var sorted := SortBy(members, MemberKey);
    forall i, j | 0 <= i < j < |members| ensures MemberKey(members[i]) != MemberKey(members[j]) {
      KeyOrderIsTotal(members[i].key, members[j].key);
    }
    SortByStrict(members, MemberKey);
    SortByMembers(members, MemberKey);
    forall i, j | 0 <= i < j < |sorted| ensures sorted[i].key != sorted[j].key {
      assert LexLess(MemberKey(sorted[i]), MemberKey(sorted[j]));
    }
    PairsDistinct(members);
    SortByStrict(Pairs(members), PairKey);
    SortByMembers(Pairs(members), PairKey);
    forall i, j | 0 <= i < j < |Pairs(sorted)| ensures LexLess(PairKey(Pairs(sorted)[i]), PairKey(Pairs(sorted)[j])) {
      assert LexLess(MemberKey(sorted[i]), MemberKey(sorted[j]));
    }
    forall p ensures p in Pairs(sorted) <==> p in SortBy(Pairs(members), PairKey) {
      SamePairs(sorted, members, p);
    }
    StrictlySortedUnique(Pairs(sorted), SortBy(Pairs(members), PairKey), PairKey);
  }

  lemma SamePairs(xs: seq<Member>, ys: seq<Member>, p: Pair)
    requires forall m :: m in xs ==> WellFormed(m.value)
    requires forall m :: m in xs <==> m in ys
    ensures p in Pairs(xs) <==> p in Pairs(ys)
  {
    if p in Pairs(xs) {
      var i :| 0 <= i < |xs| && Pairs(xs)[i] == p;
      assert xs[i] in ys;
      var j :| 0 <= j < |ys| && ys[j] == xs[i];
      assert Pairs(ys)[j] == p;
    }
    if p in Pairs(ys) {
      var j :| 0 <= j < |ys| && Pairs(ys)[j] == p;
      assert ys[j] in xs;
      var i :| 0 <= i < |xs| && xs[i] == ys[j];
      assert Pairs(xs)[i] == p;
    }
  }

  lemma SameKeys(xs: seq<Member>, ys: seq<Member>, k: string)
    requires forall m :: m in xs ==> m in ys
    ensures HasKey(xs, k) ==> HasKey(ys, k)
  {
    if HasKey(xs, k) {
      var i :| 0 <= i < |xs| && xs[i].key == k;
      assert xs[i] in xs;
      var j :| 0 <= j < |ys| && ys[j] == xs[i];
    }
  }

  lemma SameMeaningMap(xs: seq<Member>, ys: seq<Member>)
    requires WellFormed(Obj(xs)) && WellFormed(Obj(ys))
    requires forall m :: m in xs <==> m in ys
    ensures MeaningMap(xs) == MeaningMap(ys)
  {
    forall k ensures k in MeaningMap(xs) <==> k in MeaningMap(ys) {
      MeaningMapKeys(xs, k);
      MeaningMapKeys(ys, k);
      SameKeys(xs, ys, k);
      SameKeys(ys, xs, k);
    }
    forall k | k in MeaningMap(xs) ensures MeaningMap(xs)[k] == MeaningMap(ys)[k] {
      MeaningMapKeys(xs, k);
      var i :| 0 <= i < |xs| && xs[i].key == k;
      assert xs[i] in ys;
      var j :| 0 <= j < |ys| && ys[j] == xs[i];
      MeaningMapAt(xs, i);
      MeaningMapAt(ys, j);
    }
  }

  lemma {:induction false} ObjectReads(v: Json, members: seq<Member>, rest: string, num: NumberReader)
    requires ReadsNumbers(num)
    requires WellFormed(v) && v == Obj(members)
    ensures ReadValue(Text(v) + rest, num) == Got(Meaning(v), rest)
    decreases v, |members| + 1
  {
    if members == [] {
      EmptyStep(rest, num);
      assert Text(v) == "{}";
    } else {
      var sorted := SortBy(members, MemberKey);
      SortedPairs(members);
      SortByMembers(members, MemberKey);
      SameMeaningMap(sorted, members);
      forall m | m in sorted ensures m.value < v { assert m in members; }
      var body := Join(PairTexts(Pairs(sorted))) + "}" + rest;
      Bracket("{", Join(PairTexts(Pairs(sorted))), "}", rest);
      assert body[0] == PairTexts(Pairs(sorted))[0][0] == '\"';
      MembersRead(v, sorted, rest, num);
      ObjectStep(body, MeaningMap(sorted), rest, num);
    }
  }

  lemma {:induction false} MembersRead(v: Json, ms: seq<Member>, rest: string, num: NumberReader)
    requires ReadsNumbers(num)
    requires ms != [] && forall m :: m in ms ==> WellFormed(m.value) && m.value < v
    ensures ReadMembers(Join(PairTexts(Pairs(ms))) + "}" + rest, num) == Got(MeaningMap(ms), rest)
    decreases v, |ms|
  {
    var m := ms[0];
    assert m in ms;
    var p, w := Pair(m.key, Text(m.value)), Meaning(m.value);
    PairsCons(ms);
    if |ms| == 1 {
      TextReads(m.value, "}" + rest, num);
      PairLast(p, w, rest, num);
      OnlyOne(m.key, w, MeaningMap(ms[1..]));
    } else {
      var tail, ps := ms[1..], Pairs(ms[1..]);
      var more := Join(PairTexts(ps)) + "}" + rest;
      TextReads(m.value, "," + more, num);
      MembersRead(v, tail, rest, num);
      PairMore(p, ps, w, MeaningMap(tail), rest, num);
    }
  }

  lemma OnlyOne(k: string, w: Value, m: map<string, Value>)
    requires m == map[]
    ensures map[k := w] + m == map[k := w]
  {
  }

  lemma PairsCons(ms: seq<Member>)
    requires ms != [] && forall m :: m in ms ==> WellFormed(m.value)
    ensures forall m :: m in ms[1..] ==> m in ms
    ensures ms[0] in ms && Pairs(ms) == [Pair(ms[0].key, Text(ms[0].value))] + Pairs(ms[1..])
    ensures MeaningMap(ms) == map[ms[0].key := Meaning(ms[0].value)] + MeaningMap(ms[1..])
    ensures |ms| == 1 ==> Pairs(ms) == [Pair(ms[0].key, Text(ms[0].value))] && MeaningMap(ms[1..]) == map[]
  {
    assert forall m :: m in ms[1..] ==> m in ms;
    PairsSplit(ms, Pairs(ms), Pairs(ms[1..]));
  }

  lemma PairsSplit(ms: seq<Member>, ps: seq<Pair>, rest: seq<Pair>)
    requires ms != [] && |ps| == |ms| && |rest| == |ms| - 1
    requires forall m :: m in ms ==> WellFormed(m.value)
    requires forall i :: 0 <= i < |ms| ==> ps[i] == Pair(ms[i].key, Text(ms[i].value))
    requires forall i :: 0 <= i < |ms| - 1 ==> rest[i] == Pair(ms[1..][i].key, Text(ms[1..][i].value))
    ensures ps == [Pair(ms[0].key, Text(ms[0].value))] + rest
  {
    forall i | 0 <= i < |rest| ensures rest[i] == ps[i + 1] { assert ms[1..][i] == ms[i + 1]; }
  }

  lemma PairLast(p: Pair, w: Value, rest: string, num: NumberReader)
    requires ReadValue(p.text + ("}" + rest), num) == Got(w, "}" + rest)
    ensures ReadMembers(Join(PairTexts([p])) + "}" + rest, num) == Got(map[p.key := w], rest)
  {
    var tail := "}" + rest;
    MemberStep(p.key, p.text + tail, w, tail, num);
    PairTextsCons(p, []);
    PairRegroup(p, tail);
    Close(PairText(p), "}", rest);
    MembersLast(Quote(p.key) + ":" + (p.text + tail), p.key, w, rest, num);
  }

  lemma PairTextsCons(p: Pair, ps: seq<Pair>)
    ensures PairTexts([p] + ps) == [PairText(p)] + PairTexts(ps)
    ensures Join(PairTexts([p])) == PairText(p)
  {
    assert ([p] + ps)[1..] == ps;
    assert [p][1..] == [];
    assert PairTexts([p]) == [PairText(p)];
  }

  lemma Close(t: string, close: string, rest: string)
    ensures t + close + rest == t + (close + rest)
  {
  }

  lemma PairMore(p: Pair, ps: seq<Pair>, w: Value, m: map<string, Value>, rest: string, num: NumberReader)
    requires ps != []
    requires var more := Join(PairTexts(ps)) + "}" + rest;
      ReadValue(p.text + ("," + more), num) == Got(w, "," + more) && ReadMembers(more, num) == Got(m, rest)
    ensures ReadMembers(Join(PairTexts([p] + ps)) + "}" + rest, num) == Got(map[p.key := w] + m, rest)
  {
    var ts := PairTexts(ps);
    var more := Join(ts) + "}" + rest;
    var tail := "," + more;
    MemberStep(p.key, p.text + tail, w, tail, num);
    PairTextsCons(p, ps);
    JoinCons(PairText(p), ts);
    Regroup(PairText(p), Join(ts), "}", rest);
    PairRegroup(p, tail);
    MembersMore(Quote(p.key) + ":" + (p.text + tail), p.key, w, more, m, rest, num);
  }

  lemma PairRegroup(p: Pair, tail: string)
    ensures PairText(p) + tail == Quote(p.key) + ":" + (p.text + tail)
  {
  }

  // ---- the theorems ----

  /** Canonical text is uniquely decodable. */
  lemma DecodeText(v: Json)
    requires WellFormed(v)
    ensures Decode(Text(v)) == Some(Meaning(v))
  {
    NumberValueReads();
    TextReads(v, "", NumberValue);
    assert Text(v) + "" == Text(v);
  }

  /** Equal values have equal texts, whatever the insertion orders at any depth. */
  lemma {:induction false} MeaningFixesText(a: Json, b: Json)
    requires WellFormed(a) && WellFormed(b) && Meaning(a) == Meaning(b)
    ensures Text(a) == Text(b)
    decreases a
  {
    match a {
      case Arr(xs) =>
        ItemsFixed(a, xs, b.items);
      case Obj(xs) =>
        forall p ensures p in Pairs(xs) <==> p in Pairs(b.members) {
          MembersFixed(a, xs, b.members, p);
        }
        PairsFromMeaning(xs, b.members);
      case Int(n) => NumberText(a, b);
      case Float(r) => NumberText(a, b);
      case _ =>
    }
  }

  lemma {:induction false} ItemsFixed(a: Json, xs: seq<Json>, ys: seq<Json>)
    requires a == Arr(xs) && WellFormed(a) && WellFormed(Arr(ys)) && Meanings(xs) == Meanings(ys)
    ensures Texts(xs) == Texts(ys)
    decreases a, 0
  {
    assert |xs| == |Meanings(xs)| == |Meanings(ys)| == |ys|;
    forall i | 0 <= i < |xs| ensures Texts(xs)[i] == Texts(ys)[i] {
      assert xs[i] in xs && ys[i] in ys;
      assert Meanings(xs)[i] == Meanings(ys)[i];
      MeaningFixesText(xs[i], ys[i]);
    }
  }

  lemma {:induction false} MembersFixed(a: Json, xs: seq<Member>, ys: seq<Member>, p: Pair)
    requires a == Obj(xs) && WellFormed(a) && WellFormed(Obj(ys)) && MeaningMap(xs) == MeaningMap(ys)
    ensures p in Pairs(xs) <==> p in Pairs(ys)
    decreases a, 0
  {
    if p in Pairs(xs) {
      var i :| 0 <= i < |xs| && Pairs(xs)[i] == p;
      var j := SameMember(xs, ys, i);
      MeaningFixesText(xs[i].value, ys[j].value);
      assert Pairs(ys)[j] == p;
    }
    if p in Pairs(ys) {
      var j :| 0 <= j < |ys| && Pairs(ys)[j] == p;
      var i := SameMember(ys, xs, j);
      MeaningFixesText(xs[i].value, ys[j].value);
      assert Pairs(xs)[i] == p;
    }
  }

  lemma SameMember(xs: seq<Member>, ys: seq<Member>, i: nat) returns (j: nat)
    requires WellFormed(Obj(xs)) && WellFormed(Obj(ys)) && i < |xs|
    requires MeaningMap(xs) == MeaningMap(ys)
    ensures j < |ys| && ys[j].key == xs[i].key && xs[i] in xs && ys[j] in ys
    ensures Meaning(xs[i].value) == Meaning(ys[j].value)
  {
    MeaningMapAt(xs, i);
    MeaningMapKeys(ys, xs[i].key);
    j :| 0 <= j < |ys| && ys[j].key == xs[i].key;
    MeaningMapAt(ys, j);
  }

  ghost predicate IsNumber(v: Json) { v.Int? || v.Float? }

  ghost function NumberOf(v: Json): Decimal
    requires WellFormed(v) && IsNumber(v)
  {
    if v.Int? then Normal(v.n, 0) else Numerals.Value(v.repr)
  }

  ghost function Es6Written(v: Json): bool
    requires IsNumber(v)
  {
    v.Float? || -(PowNat(21) as int) < v.n < PowNat(21)
  }

  lemma NumberText(a: Json, b: Json)
    requires WellFormed(a) && WellFormed(b) && IsNumber(a) && Meaning(a) == Meaning(b)
    ensures Text(a) == Text(b)
  {
    if Es6Written(a) {
      NumberIsRender(a);
      NumberIsRender(b);
    } else {
      NormalOfInt(a.n, b.n);
    }
  }

  lemma NormalOfInt(m: int, n: int)
    requires Normal(m, 0) == Normal(n, 0)
    ensures m == n
  {
    NormalIsUnique(Decimal(m, 0), Decimal(n, 0));
    assert PowNat(0) == 1;
  }

  lemma NumberIsRender(v: Json)
    requires WellFormed(v) && IsNumber(v)
    ensures Text(v) == Es6Number.Render(NumberOf(v)) <==> Es6Written(v)
  {
    if v.Int? {
      Es6Number.IntTextIsLayout(v.n);
    } else {
      Es6Number.TextIsRender(v.repr);
    }
  }

  /** Two values have the same canonical text exactly when they are the same
      value: unique decodability and independence from member order together. */
  lemma TextIsIdentity(a: Json, b: Json)
    requires WellFormed(a) && WellFormed(b)
    ensures Text(a) == Text(b) <==> Meaning(a) == Meaning(b)
  {
    DecodeText(a);
    DecodeText(b);
    if Meaning(a) == Meaning(b) { MeaningFixesText(a, b); }
  }

  /** An integer and a float of the same value have the same text exactly below
      10^21; section 3.2.2.3 of RFC 8785 would give every such pair one text. */
  lemma IntBesideFloat(n: int, repr: string)
    requires IsNumeral(repr) && Numerals.Value(repr) == Normal(n, 0)
    ensures Text(Int(n)) == Text(Float(repr)) <==> -(PowNat(21) as int) < n < PowNat(21)
  {
    NumberIsRender(Int(n));
    NumberIsRender(Float(repr));
  }

  /** The smallest such integer: 10^21 keeps its digits, the float `1e+21` does not. */
  lemma LargeIntBesideFloat()
    ensures IsNumeral("1e+21") && Numerals.Value("1e+21") == Normal(PowNat(21), 0)
    ensures Text(Int(PowNat(21))) != Text(Float("1e+21"))
  {
    LargeFloat("1", "+21", "1e+21");
    var n: int := PowNat(21);
    assert n == 1 * PowNat(21);
    NormalIsUniqueOrdered(Decimal(n, 0), Decimal(1, 21));
    IntBesideFloat(n, "1e+21");
  }

  lemma LargeFloat(whole: string, power: string, t: string)
    requires whole == "1" && power == "+21" && t == "1e+21"
    ensures IsNumeral(t) && Numerals.Value(t) == Normal(1, 21)
  {
    assert IntText(21) == "21" && power == "+" + NatText(21);
    DigitsOfNatText(21);
    assert power[1..] == NatText(21);
    assert whole == NatText(1);
    DigitsOfNatText(1);
    assert whole + "" == whole;
    ComposeValue(false, whole, "", power, 1, 21);
    assert Compose(false, whole, "", power) == t;
  }

  // ---- the order of the members in the text ----

  lemma PairMember(p: Pair, w: Value, tail: string, num: NumberReader)
    requires ReadValue(p.text + tail, num) == Got(w, tail)
    ensures ReadMember(PairText(p) + tail, num) == Got((p.key, w), tail)
  {
    MemberStep(p.key, p.text + tail, w, tail, num);
    PairRegroup(p, tail);
  }

  lemma NamesLast(s: string, k: string, v: Value, rest: string, num: NumberReader)
    requires ReadMember(s, num) == Got((k, v), "}" + rest)
    ensures ReadNames(s, num) == Got([k], rest)
  {
    assert ("}" + rest)[1..] == rest;
  }

  lemma NamesMore(s: string, k: string, v: Value, more: string, names: seq<string>, rest: string, num: NumberReader)
    requires ReadMember(s, num) == Got((k, v), "," + more) && ReadNames(more, num) == Got(names, rest)
    ensures ReadNames(s, num) == Got([k] + names, rest)
  {
    assert ("," + more)[1..] == more;
  }

  function KeysOf(ms: seq<Member>): (ks: seq<string>)
    ensures |ks| == |ms| && forall i :: 0 <= i < |ms| ==> ks[i] == ms[i].key
  {
    seq(|ms|, i requires 0 <= i < |ms| => ms[i].key)
  }

  lemma {:induction false} NamesRead(ms: seq<Member>, rest: string, num: NumberReader)
    requires ReadsNumbers(num) && ms != [] && forall m :: m in ms ==> WellFormed(m.value)
    ensures ReadNames(Join(PairTexts(Pairs(ms))) + "}" + rest, num) == Got(KeysOf(ms), rest)
    decreases |ms|
  {
    var m, tail := ms[0], ms[1..];
    PairsCons(ms);
    KeysCons(ms);
    var p, w := Pair(m.key, Text(m.value)), Meaning(m.value);
    if |ms| == 1 {
      TextReads(m.value, "}" + rest, num);
      NamesOfOne(p, w, rest, num);
    } else {
      TextReads(m.value, "," + (Join(PairTexts(Pairs(tail))) + "}" + rest), num);
      NamesRead(tail, rest, num);
      NamesOfMore(p, Pairs(tail), w, KeysOf(tail), rest, num);
    }
  }

  lemma KeysCons(ms: seq<Member>)
    requires ms != []
    ensures KeysOf(ms) == [ms[0].key] + KeysOf(ms[1..])
    ensures |ms| == 1 ==> KeysOf(ms) == [ms[0].key]
  {
  }

  lemma NamesOfOne(p: Pair, w: Value, rest: string, num: NumberReader)
    requires ReadValue(p.text + ("}" + rest), num) == Got(w, "}" + rest)
    ensures ReadNames(Join(PairTexts([p])) + "}" + rest, num) == Got([p.key], rest)
  {
    PairMember(p, w, "}" + rest, num);
    PairTextsCons(p, []);
    Close(PairText(p), "}", rest);
    NamesLast(PairText(p) + ("}" + rest), p.key, w, rest, num);
  }

  lemma NamesOfMore(p: Pair, ps: seq<Pair>, w: Value, names: seq<string>, rest: string, num: NumberReader)
    requires ps != []
    requires var more := Join(PairTexts(ps)) + "}" + rest;
      ReadValue(p.text + ("," + more), num) == Got(w, "," + more) && ReadNames(more, num) == Got(names, rest)
    ensures ReadNames(Join(PairTexts([p] + ps)) + "}" + rest, num) == Got([p.key] + names, rest)
  {
    var more := Join(PairTexts(ps)) + "}" + rest;
    PairMember(p, w, "," + more, num);
    NamesMore(PairText(p) + ("," + more), p.key, w, more, names, rest, num);
    MoreText(p, ps, rest);
  }

  lemma MoreText(p: Pair, ps: seq<Pair>, rest: string)
    requires ps != []
    ensures Join(PairTexts([p] + ps)) + "}" + rest == PairText(p) + ("," + (Join(PairTexts(ps)) + "}" + rest))
  {
    PairTextsCons(p, ps);
    JoinCons(PairText(p), PairTexts(ps));
    Regroup(PairText(p), Join(PairTexts(ps)), "}", rest);
  }

  lemma WrittenNamesOf(members: seq<Member>, sorted: seq<Member>)
    requires WellFormed(Obj(members)) && sorted == SortBy(members, MemberKey)
    ensures WrittenNames(Text(Obj(members))) == Some(KeysOf(sorted))
  {
    SortedPairs(members);
    SortByMembers(members, MemberKey);
    if members == [] {
      assert Text(Obj(members)) == "{}";
      assert KeysOf(sorted) == [];
    } else {
      ObjectText(members, sorted);
      NonEmptyNames(sorted, Text(Obj(members)));
    }
  }

  lemma ObjectText(members: seq<Member>, sorted: seq<Member>)
    requires WellFormed(Obj(members)) && forall m :: m in sorted ==> WellFormed(m.value)
    requires Pairs(sorted) == SortBy(Pairs(members), PairKey)
    ensures Text(Obj(members)) == "{" + (Join(PairTexts(Pairs(sorted))) + "}")
  {
    var inner := Join(PairTexts(SortBy(Pairs(members), PairKey)));
    assert Text(Obj(members)) == "{" + inner + "}";
    Close("{", inner, "}");
  }

  lemma NonEmptyNames(ms: seq<Member>, t: string)
    requires ms != [] && forall m :: m in ms ==> WellFormed(m.value)
    requires t == "{" + (Join(PairTexts(Pairs(ms))) + "}")
    ensures WrittenNames(t) == Some(KeysOf(ms))
  {
    var body := Join(PairTexts(Pairs(ms))) + "}";
    NumberValueReads();
    NamesRead(ms, "", NumberValue);
    assert body + "" == body;
    NamesOfObject(t, body, KeysOf(ms));
  }

  lemma NamesOfObject(t: string, body: string, names: seq<string>)
    requires t == "{" + body && ReadNames(body, NumberValue) == Got(names, "") && names != []
    ensures WrittenNames(t) == Some(names)
  {
    assert t[1..] == body && t[0] == '{';
    assert t == "{}" ==> body == "}";
    CloseIsNoMember();
  }

  lemma CloseIsNoMember()
    ensures ReadNames("}", NumberValue) == Fail
  {
  }

  /** The text of an object lists exactly its names, each once, in strictly increasing
      order of their UTF-16 code units. */
  lemma NamesAreInOrder(members: seq<Member>)
    requires WellFormed(Obj(members))
    ensures WrittenNames(Text(Obj(members))).Some?
    ensures var names := WrittenNames(Text(Obj(members))).value;
      && (forall i, j :: 0 <= i < j < |names| ==> LexLess(Units(names[i]), Units(names[j])))
      && (forall k :: k in names <==> HasKey(members, k))
  {
    var sorted := SortBy(members, MemberKey);
    WrittenNamesOf(members, sorted);
    var names := KeysOf(sorted);
    MembersStrict(members);
    forall i, j | 0 <= i < j < |names| ensures LexLess(Units(names[i]), Units(names[j])) {
      assert LexLess(MemberKey(sorted[i]), MemberKey(sorted[j]));
      KeyOrderIsTotal(names[i], names[j]);
    }
    SortByMembers(members, MemberKey);
    forall k ensures k in names <==> HasKey(members, k) {
      NameIsKey(sorted, k);
      SameKeys(sorted, members, k);
      SameKeys(members, sorted, k);
    }
  }

  lemma NameIsKey(ms: seq<Member>, k: string)
    ensures k in KeysOf(ms) <==> HasKey(ms, k)
  {
    if k in KeysOf(ms) {
      var i :| 0 <= i < |KeysOf(ms)| && KeysOf(ms)[i] == k;
      assert ms[i].key == k;
    }
    if HasKey(ms, k) {
      var i :| 0 <= i < |ms| && ms[i].key == k;
      assert KeysOf(ms)[i] == k;
    }
  }

  lemma MembersStrict(members: seq<Member>)
    requires WellFormed(Obj(members))
    ensures StrictlySortedBy(SortBy(members, MemberKey), MemberKey)
  {
    forall i, j | 0 <= i < j < |members| ensures MemberKey(members[i]) != MemberKey(members[j]) {
      KeyOrderIsTotal(members[i].key, members[j].key);
    }
    SortByStrict(members, MemberKey);
  }

  // ---- the escapes ----

  const HEX := "0123456789abcdef"

  /** Each character is written by itself: the two marks and five control characters with
      a short escape, the other control characters with four small hexadecimal digits,
      everything else literally. */
  lemma EscapeTable(c: char)
    ensures Quote("\"") == "\"\\\"\"" && Quote("\\") == "\"\\\\\""
    ensures Quote("\n") == "\"\\n\"" && Quote("\r") == "\"\\r\"" && Quote("\t") == "\"\\t\""
    ensures Quote("\U{8}") == "\"\\b\"" && Quote("\U{C}") == "\"\\f\""
    ensures c < ' ' && c != '\n' && c != '\r' && c != '\t' && c != '\U{8}' && c != '\U{C}' ==>
      Quote([c]) == "\"\\u00" + [HEX[c as int / 16], HEX[c as int % 16]] + "\""
    ensures c >= ' ' && c != '\"' && c != '\\' ==> Quote([c]) == "\"" + [c] + "\""
  {
    SingleEscape('\"');
    SingleEscape('\\');
    SingleEscape('\n');
    SingleEscape('\r');
    SingleEscape('\t');
    SingleEscape('\U{8}');
    SingleEscape('\U{C}');
    SingleEscape(c);
    if c < ' ' {
      HexIs(c as int / 16);
      HexIs(c as int % 16);
    }
  }

  lemma SingleEscape(c: char)
    ensures Escape([c]) == EscapeChar(c)
  {
    assert [c][1..] == [];
    assert EscapeChar(c) + [] == EscapeChar(c);
  }

  lemma HexIs(d: int)
    requires 0 <= d < 16
    ensures HexDigit(d) == HEX[d]
  {
  }

  /** A string is written character by character. */
  lemma {:induction false} EscapeOfConcat(s: string, t: string)
    ensures Escape(s + t) == Escape(s) + Escape(t)
  {
    if s == [] {
      assert s + t == t;
    } else {
      var c, r := s[0], s[1..];
      assert s == [c] + r && s + t == [c] + (r + t);
      EscapeOfConcat(r, t);
      EscapeCons(c, r);
      EscapeCons(c, r + t);
      Close(EscapeChar(c), Escape(r), Escape(t));
    }
  }

  lemma EscapeCons(c: char, s: string)
    ensures Escape([c] + s) == EscapeChar(c) + Escape(s)
  {
    assert ([c] + s)[1..] == s;
  }
}
