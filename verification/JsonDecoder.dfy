/** A reader for JSON text without white space, independent of the encoder. */
module JsonDecoder {
  import opened Options
  import opened Numerals
  import opened CanonicalJson
  import Es6Number

  function HexValue(c: char): Option<int> {
    if IsDigit(c) then Some(DigitOf(c))
    else if 'a' <= c <= 'f' then Some(c as int - 'a' as int + 10)
    else None
  }

  /** The character named by four hexadecimal digits, surrogates excluded. */
  function HexChar(s: string): Option<char>
    requires |s| == 4
  {
    var a, b, c, d := HexValue(s[0]), HexValue(s[1]), HexValue(s[2]), HexValue(s[3]);
    if a.None? || b.None? || c.None? || d.None? then None
    else
      var n := ((a.value * 16 + b.value) * 16 + c.value) * 16 + d.value;
      if 0 <= n < 0xD800 then Some(n as char) else None
  }

  function ShortUnescape(c: char): Option<char> {
    if c == '\"' || c == '\\' then Some(c)
    else if c == 'b' then Some('\U{8}')
    else if c == 'f' then Some('\U{C}')
    else if c == 'n' then Some('\n')
    else if c == 'r' then Some('\r')
    else if c == 't' then Some('\t')
    else None
  }

  /** One possibly escaped character of a string body. */
  function ReadChar(s: string): (r: Read<char>)
    ensures r.Got? ==> |r.rest| < |s|
  {
    if s == "" then Fail
    else if s[0] != '\\' then Got(s[0], s[1..])
    else if |s| < 2 then Fail
    else if ShortUnescape(s[1]).Some? then Got(ShortUnescape(s[1]).value, s[2..])
    else if s[1] == 'u' && |s| >= 6 && HexChar(s[2..6]).Some? then Got(HexChar(s[2..6]).value, s[6..])
    else Fail
  }

  /** The rest of a string, after its opening quote. */
  function ReadString(s: string): (r: Read<string>)
    ensures r.Got? ==> |r.rest| < |s|
  {
    if s == "" then Fail
    else if s[0] == '\"' then Got("", s[1..])
    else
      match ReadChar(s)
      case Fail => Fail
      case Got(c, rest) =>
        match ReadString(rest)
        case Fail => Fail
        case Got(tail, rest') => Got([c] + tail, rest')
  }

  predicate NumChar(c: char) {
    IsDigit(c) || c == '-' || c == '+' || c == '.' || c == 'e'
  }

  function NumSpan(s: string): (n: nat)
    ensures n <= |s| && (forall i :: 0 <= i < n ==> NumChar(s[i])) && (n < |s| ==> !NumChar(s[n]))
  {
    if s == "" || !NumChar(s[0]) then 0 else 1 + NumSpan(s[1..])
  }

  /** How the maximal run of number characters is turned into a value. */
  type NumberReader = string -> Option<Value>

  /** The exact number of a numeral, and whether it is written in the ES6 layout. */
  function NumberValue(token: string): Option<Value> {
    if !IsNumeral(token) then None
    else
      var number := Numerals.Value(token);
      Some(VNum(number, token == Es6Number.Render(number)))
  }

  function ReadNumber(s: string, num: NumberReader): (r: Read<Value>)
    ensures r.Got? ==> |r.rest| < |s|
  {
    var n := NumSpan(s);
    if n == 0 then Fail
    else
      match num(s[..n])
      case None => Fail
      case Some(v) => Got(v, s[n..])
  }

  function ReadWord(s: string, word: string, v: Value): (r: Read<Value>)
    requires word != ""
    ensures r.Got? ==> |r.rest| < |s|
  {
    if word <= s then Got(v, s[|word|..]) else Fail
  }

  function ReadValue(s: string, num: NumberReader): (r: Read<Value>)
    ensures r.Got? ==> |r.rest| < |s|
    decreases |s|, 1
  {
    if s == "" then Fail
    else if s[0] == 'n' then ReadWord(s, "null", VNull)
    else if s[0] == 't' then ReadWord(s, "true", VBool(true))
    else if s[0] == 'f' then ReadWord(s, "false", VBool(false))
    else if s[0] == '\"' then
      match ReadString(s[1..])
      case Fail => Fail
      case Got(t, rest) => Got(VStr(t), rest)
    else if s[0] == '[' then
      if |s| > 1 && s[1] == ']' then Got(VArr([]), s[2..])
      else
        match ReadItems(s[1..], num)
        case Fail => Fail
        case Got(items, rest) => Got(VArr(items), rest)
    else if s[0] == '{' then
      if |s| > 1 && s[1] == '}' then Got(VObj(map[]), s[2..])
      else
        match ReadMembers(s[1..], num)
        case Fail => Fail
        case Got(members, rest) => Got(VObj(members), rest)
    else ReadNumber(s, num)
  }

  /** One or more values separated by commas and closed by a bracket. */
  function ReadItems(s: string, num: NumberReader): (r: Read<seq<Value>>)
    ensures r.Got? ==> |r.rest| < |s|
    decreases |s|, 2
  {
    match ReadValue(s, num)
    case Fail => Fail
    case Got(v, rest) =>
      if rest == "" then Fail
      else if rest[0] == ']' then Got([v], rest[1..])
      else if rest[0] != ',' then Fail
      else
        match ReadItems(rest[1..], num)
        case Fail => Fail
        case Got(items, rest') => Got([v] + items, rest')
  }

  /** A quoted name, a colon and a value. */
  function ReadMember(s: string, num: NumberReader): (r: Read<(string, Value)>)
    ensures r.Got? ==> |r.rest| < |s|
    decreases |s|, 2
  {
    if s == "" || s[0] != '\"' then Fail
    else
      match ReadString(s[1..])
      case Fail => Fail
      case Got(key, rest) =>
        if rest == "" || rest[0] != ':' then Fail
        else
          match ReadValue(rest[1..], num)
          case Fail => Fail
          case Got(v, rest') => Got((key, v), rest')
  }

  /** One or more members separated by commas and closed by a brace; where a name
      repeats the later member counts. */
  function ReadMembers(s: string, num: NumberReader): (r: Read<map<string, Value>>)
    ensures r.Got? ==> |r.rest| < |s|
    decreases |s|, 3
  {
    match ReadMember(s, num)
    case Fail => Fail
    case Got(kv, rest) =>
      if rest == "" then Fail
      else if rest[0] == '}' then Got(map[kv.0 := kv.1], rest[1..])
      else if rest[0] != ',' then Fail
      else
        match ReadMembers(rest[1..], num)
        case Fail => Fail
        case Got(members, rest') => Got(map[kv.0 := kv.1] + members, rest')
  }

  /** The value of a complete text. */
  function Decode(s: string): Option<Value> {
    match ReadValue(s, NumberValue)
    case Fail => None
    case Got(v, rest) => if rest == "" then Some(v) else None
  }

  /** The member names of an object in the order in which they are written. */
  function ReadNames(s: string, num: NumberReader): (r: Read<seq<string>>)
    decreases |s|
  {
    match ReadMember(s, num)
    case Fail => Fail
    case Got(kv, rest) =>
      if rest == "" then Fail
      else if rest[0] == '}' then Got([kv.0], rest[1..])
      else if rest[0] != ',' then Fail
      else
        match ReadNames(rest[1..], num)
        case Fail => Fail
        case Got(names, rest') => Got([kv.0] + names, rest')
  }

  /** The names that an object's text lists. */
  function WrittenNames(s: string): Option<seq<string>> {
    if s == "{}" then Some([])
    else if s == "" || s[0] != '{' then None
    else
      match ReadNames(s[1..], NumberValue)
      case Fail => None
      case Got(names, rest) => if rest == "" then Some(names) else None
  }
}
