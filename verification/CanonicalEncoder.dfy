/** The encoder as the source runs it: pieces appended to an output list. */
module CanonicalEncoder {
  import opened Options
  import opened Ordering
  import opened Numerals
  import opened CanonicalJson
  import CanonicalRoundTrip
  import Es6Number

  /** `"".join(parts)`. */
  function Concat(parts: seq<string>): string {
    if parts == [] then "" else Concat(parts[..|parts| - 1]) + parts[|parts| - 1]
  }

  /** The output list shared by the recursive calls. */
  class Output {
    var parts: seq<string>

    constructor ()
      ensures parts == []
    {
      parts := [];
    }

    function Joined(): string
      reads this
    {
      Concat(parts)
    }

    method Append(piece: string)
      modifies this
      ensures Joined() == old(Joined()) + piece
    {
      parts := parts + [piece];
      assert parts[..|parts| - 1] == old(parts);
    }
  }

  // ---- strings ----

  lemma {:induction false} EscapeNothing(s: string)
    requires forall i :: 0 <= i < |s| ==> !NeedsEscape(s[i])
    ensures Escape(s) == s
  {
    if s != [] {
      EscapeNothing(s[1..]);
      assert s == [s[0]] + s[1..];
    }
  }

  lemma {:induction false} EscapeSnoc(s: string, c: char)
    ensures Escape(s + [c]) == Escape(s) + EscapeChar(c)
  {
    if s == [] {
      assert s + [c] == [c];
      assert [c][1..] == [];
    } else {
      EscapeSnoc(s[1..], c);
      assert (s + [c])[1..] == s[1..] + [c];
    }
  }

  /** Both the fast path without escapes and the slow path give the quoted text. */
  method EncodeString(value: string) returns (text: string)
    ensures text == Quote(value)
  {
    var clean := true;
    for i := 0 to |value|
      invariant clean <==> forall k :: 0 <= k < i ==> !NeedsEscape(value[k])
    {
      if NeedsEscape(value[i]) { clean := false; }
    }
    if clean {
      EscapeNothing(value);
      return "\"" + value + "\"";
    }
    text := EncodeEscaped(value);
  }

  /** The slow path: one piece per character between the quotes. */
  method EncodeEscaped(value: string) returns (text: string)
    ensures text == Quote(value)
  {
    var parts := ["\""];
    assert parts[..0] == [];
    assert value[..0] == [];
    for i := 0 to |value|
      invariant Concat(parts) == "\"" + Escape(value[..i])
    {
      ghost var before := parts;
      parts := parts + [EscapeChar(value[i])];
      assert parts[..|parts| - 1] == before;
      EscapeSnoc(value[..i], value[i]);
      assert value[..i + 1] == value[..i] + [value[i]];
    }
    assert value[..|value|] == value;
    ghost var before := parts;
    parts := parts + ["\""];
    assert parts[..|parts| - 1] == before;
    text := Concat(parts);
  }

  // ---- values ----

  lemma {:induction false} JoinSnoc(ts: seq<string>, t: string)
    ensures Join(ts + [t]) == (if ts == [] then t else Join(ts) + "," + t)
  {
    if ts == [] {
      assert ts + [t] == [t];
    } else {
      assert (ts + [t])[1..] == ts[1..] + [t];
      JoinSnoc(ts[1..], t);
      if |ts| == 1 { assert ts[1..] == []; }
    }
  }

  /** The comma before every element but the first. */
  function Separator(index: nat): string { if index == 0 then "" else "," }

  lemma JoinNext(ts: seq<string>, i: nat)
    requires i < |ts|
    ensures Join(ts[..i + 1]) == Join(ts[..i]) + (Separator(i) + ts[i])
  {
    assert ts[..i + 1] == ts[..i] + [ts[i]];
    JoinSnoc(ts[..i], ts[i]);
    if i == 0 {
      assert ts[..0] == [];
    } else {
      Regroup(Join(ts[..i]), ",", ts[i]);
    }
  }

  lemma Regroup(a: string, b: string, c: string)
    ensures (a + b) + c == a + (b + c)
  {
  }

  /** Appends the canonical text of a value to the output and nothing else. */
  method Encode(value: Json, out: Output)
    requires WellFormed(value)
    modifies out
    ensures out.Joined() == old(out.Joined()) + Text(value)
    decreases value, 1
  {
    match value
    case Null => out.Append("null");
    case Bool(b) => out.Append(if b then "true" else "false");
    case Str(s) =>
      var text := EncodeString(s);
      out.Append(text);
    case Int(n) => out.Append(IntText(n));
    case Float(repr) =>
      var text := Es6Number.Es6Text(repr);
      out.Append(text);
    case Arr(items) => EncodeList(value, items, out);
    case Obj(members) => EncodeMapping(value, members, out);
  }

  method EncodeList(ghost value: Json, items: seq<Json>, out: Output)
    requires WellFormed(value) && value == Arr(items)
    modifies out
    ensures out.Joined() == old(out.Joined()) + Text(value)
    decreases value, 0
  {
    ghost var start, ts := out.Joined(), Texts(items);
    out.Append("[");
    ghost var head := out.Joined();
    assert head == head + Join(ts[..0]);
    for index := 0 to |items|
      invariant out.Joined() == head + Join(ts[..index])
    {
      JoinNext(ts, index);
      assert items[index] in items;
      EncodeItem(items[index], index, out);
      Regroup(head, Join(ts[..index]), Separator(index) + ts[index]);
    }
    assert ts[..|items|] == ts;
    out.Append("]");
    Regroup(start, "[", Join(ts));
    Regroup(start, "[" + Join(ts), "]");
  }

  method EncodeItem(item: Json, index: nat, out: Output)
    requires WellFormed(item)
    modifies out
    ensures out.Joined() == old(out.Joined()) + (Separator(index) + Text(item))
    decreases item, 2
  {
    ghost var start := out.Joined();
    if index > 0 {
      out.Append(",");
    }
    assert out.Joined() == start + Separator(index);
    Encode(item, out);
    Regroup(start, Separator(index), Text(item));
  }

  method EncodeMapping(ghost value: Json, members: seq<Member>, out: Output)
    requires WellFormed(value) && value == Obj(members)
    modifies out
    ensures out.Joined() == old(out.Joined()) + Text(value)
    decreases value, 0, 1
  {
    var sorted := SortBy(members, CanonicalRoundTrip.MemberKey);
    CanonicalRoundTrip.SortedPairs(members);
    forall m | m in sorted ensures m.value < value { assert m in members; }
    ghost var start, body := out.Joined(), Join(PairTexts(Pairs(sorted)));
    out.Append("{");
    EncodeMembers(value, sorted, out);
    out.Append("}");
    Regroup(start, "{", body);
    Regroup(start, "{" + body, "}");
  }

  method EncodeMembers(ghost value: Json, sorted: seq<Member>, out: Output)
    requires forall m :: m in sorted ==> WellFormed(m.value) && m.value < value
    modifies out
    ensures out.Joined() == old(out.Joined()) + Join(PairTexts(Pairs(sorted)))
    decreases value, 0, 0
  {
    ghost var start, ts := out.Joined(), PairTexts(Pairs(sorted));
    assert start == start + Join(ts[..0]);
    for index := 0 to |sorted|
      invariant out.Joined() == start + Join(ts[..index])
    {
      JoinNext(ts, index);
      assert sorted[index] in sorted;
      EncodeMember(sorted[index], index, out);
      Regroup(start, Join(ts[..index]), Separator(index) + ts[index]);
    }
    assert ts[..|sorted|] == ts;
  }

  method EncodeMember(member: Member, index: nat, out: Output)
    requires WellFormed(member.value)
    modifies out
    ensures out.Joined() == old(out.Joined()) + (Separator(index) + PairText(Pair(member.key, Text(member.value))))
    decreases member.value, 2
  {
    ghost var start := out.Joined();
    if index > 0 {
      out.Append(",");
    }
    var key := EncodeString(member.key);
    out.Append(key);
    out.Append(":");
    assert out.Joined() == start + Separator(index) + key + ":";
    Encode(member.value, out);
    RegroupMember(start, Separator(index), key, Text(member.value));
  }

  lemma RegroupMember(a: string, b: string, key: string, text: string)
    ensures a + b + key + ":" + text == a + (b + (key + ":" + text))
  {
  }

  /** The output of a fresh list, joined. */
  method RenderJson(payload: Json) returns (text: string)
    requires WellFormed(payload)
    ensures text == Text(payload)
  {
    var out := new Output();
    Encode(payload, out);
    text := out.Joined();
  }
}
