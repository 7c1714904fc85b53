/** The fragment of SQL that calculated fields expand into: its trees, how the
    trees are written, a reader for the text, and the meaning on each dialect. */
module SqlText {
  import opened Options
  import opened Numerals
  import opened CalculatedFields

  datatype SqlOp = Plus | Minus | Times | Over

  datatype SqlType = RealName | DoubleName | IntegerName | BigintName

  /** `CaseZero(d, x)` is `(CASE WHEN (d) = 0 THEN NULL ELSE x END)`. */
  datatype Sql =
    | Column(name: string)
    | Literal(n: int)
    | Fraction(text: string, value: real)
    | NullWord
    | Binary(op: SqlOp, left: Sql, right: Sql)
    | CaseZero(tested: Sql, otherwise: Sql)
    | Cast(operand: Sql, target: SqlType)

  // ---- writing ----

  function OpText(op: SqlOp): string {
    match op case Plus => " + " case Minus => " - " case Times => " * " case Over => " / "
  }

  function TypeText(t: SqlType): string {
    match t
    case RealName => "REAL"
    case DoubleName => "DOUBLE PRECISION"
    case IntegerName => "INTEGER"
    case BigintName => "BIGINT"
  }

  const CASE_OPEN := "(CASE WHEN ("
  const CASE_THEN := ") = 0 THEN NULL ELSE "
  const CASE_END := " END)"
  const CAST_OPEN := "CAST("
  const CAST_AS := " AS "

  function Print(e: Sql): string {
    match e
    case Column(name) => name
    case Literal(n) => IntText(n)
    case Fraction(text, _) => text
    case NullWord => "NULL"
    case Binary(op, l, r) => "(" + (Print(l) + (OpText(op) + (Print(r) + ")")))
    case CaseZero(d, x) => CASE_OPEN + (Print(d) + (CASE_THEN + (Print(x) + CASE_END)))
    case Cast(x, t) => CAST_OPEN + (Print(x) + (CAST_AS + (TypeText(t) + ")")))
  }

  // ---- reading ----

  /** What a word stands for; `None` when it is not an expression. */
  type Lexicon = string -> Option<Sql>

  /** Characters of words; blanks and parentheses end them. */
  predicate WordChar(c: char) { c != ' ' && c != '(' && c != ')' }

  predicate Word(s: string) {
    s != "" && forall i :: 0 <= i < |s| ==> WordChar(s[i])
  }

  function WordSpan(s: string): (n: nat)
    ensures n <= |s|
  {
    if s == "" || !WordChar(s[0]) then 0 else 1 + WordSpan(s[1..])
  }

  /** Whether a word is the decimal text of an integer. */
  predicate IsIntWord(s: string) {
    IsSignedDigits(s) && s == IntText(ParseInt(s))
  }

  function ReadWord(s: string, lex: Lexicon): (r: Read<Sql>)
    ensures r.Got? ==> |r.rest| < |s|
  {
    var n := WordSpan(s);
    if n == 0 then Fail
    else
      match lex(s[..n])
      case None => Fail
      case Some(e) => Got(e, s[n..])
  }

  /** What was read, provided `mark` follows; the mark is consumed. */
  function Expect<T>(r: Read<T>, mark: string): Read<T> {
    if r.Got? && mark <= r.rest then Got(r.value, r.rest[|mark|..]) else Fail
  }

  function ReadOp(s: string): Read<SqlOp> {
    if |s| < 3 then Fail
    else if s[..3] == " + " then Got(Plus, s[3..])
    else if s[..3] == " - " then Got(Minus, s[3..])
    else if s[..3] == " * " then Got(Times, s[3..])
    else if s[..3] == " / " then Got(Over, s[3..])
    else Fail
  }

  function ReadType(s: string): Read<SqlType> {
    if "REAL)" <= s then Got(RealName, s[5..])
    else if "DOUBLE PRECISION)" <= s then Got(DoubleName, s[17..])
    else if "INTEGER)" <= s then Got(IntegerName, s[8..])
    else if "BIGINT)" <= s then Got(BigintName, s[7..])
    else Fail
  }

  function ReadSql(s: string, lex: Lexicon): (r: Read<Sql>)
    ensures r.Got? ==> |r.rest| < |s|
    decreases |s|, 1
  {
    if CASE_OPEN <= s then ReadCase(s, lex)
    else if "(" <= s then ReadBinary(s, lex)
    else if CAST_OPEN <= s then ReadCast(s, lex)
    else ReadWord(s, lex)
  }

  function ReadCase(s: string, lex: Lexicon): (r: Read<Sql>)
    requires CASE_OPEN <= s
    ensures r.Got? ==> |r.rest| < |s|
    decreases |s|, 0
  {
    match Expect(ReadSql(s[|CASE_OPEN|..], lex), CASE_THEN)
    case Fail => Fail
    case Got(d, rest) =>
      match Expect(ReadSql(rest, lex), CASE_END)
      case Fail => Fail
      case Got(x, rest') => Got(CaseZero(d, x), rest')
  }

  function ReadBinary(s: string, lex: Lexicon): (r: Read<Sql>)
    requires "(" <= s
    ensures r.Got? ==> |r.rest| < |s|
    decreases |s|, 0
  {
    match ReadSql(s[1..], lex)
    case Fail => Fail
    case Got(l, rest) =>
      match ReadOp(rest)
      case Fail => Fail
      case Got(op, rest') =>
        match Expect(ReadSql(rest', lex), ")")
        case Fail => Fail
        case Got(r, rest'') => Got(Binary(op, l, r), rest'')
  }

  function ReadCast(s: string, lex: Lexicon): (r: Read<Sql>)
    requires CAST_OPEN <= s
    ensures r.Got? ==> |r.rest| < |s|
    decreases |s|, 0
  {
    match Expect(ReadSql(s[|CAST_OPEN|..], lex), CAST_AS)
    case Fail => Fail
    case Got(x, rest) =>
      match ReadType(rest)
      case Fail => Fail
      case Got(t, rest') => Got(Cast(x, t), rest')
  }

  /** The tree of a complete text. */
  function Parse(s: string, lex: Lexicon): Option<Sql> {
    match ReadSql(s, lex)
    case Fail => None
    case Got(e, rest) => if rest == "" then Some(e) else None
  }

  // ---- meaning ----

  datatype Dialect = Sqlite | Postgres

  /** Truncation toward zero, the quotient of integer division in SQL. */
  function Quotient(a: int, b: int): int
    requires b != 0
  {
    if (a >= 0) == (b > 0) then Abs(a) / Abs(b) else -(Abs(a) / Abs(b))
  }

  function Abs(n: int): nat { if n < 0 then -n else n }

  function Truncate(x: real): int { if x >= 0.0 then x.Floor else -((-x).Floor) }

  /** Rounding to the nearest integer, ties to the even one. */
  function RoundEven(x: real): int {
    var low := x.Floor;
    var rest := x - low as real;
    if rest < 0.5 || (rest == 0.5 && low % 2 == 0) then low else low + 1
  }

  /** `/`: integers divide to an integer; SQLite turns a zero denominator into
      NULL where Postgres raises. */
  function SqlDivide(d: Dialect, a: Outcome, b: Outcome): Outcome {
    if a.Raised? || b.Raised? then Raised
    else if a.Null? || b.Null? then Null
    else if IsZero(b.n) then (if d.Sqlite? then Null else Raised)
    else if a.n.I? && b.n.I? then Val(I(Quotient(a.n.i, b.n.i)))
    else Val(F(ToReal(a.n) / ToReal(b.n)))
  }

  function CastNumber(d: Dialect, n: Number, t: SqlType): Number {
    if t.RealName? || t.DoubleName? then F(ToReal(n))
    else if n.I? then n
    else I(if d.Sqlite? then Truncate(n.f) else RoundEven(n.f))
  }

  function SqlCast(d: Dialect, o: Outcome, t: SqlType): Outcome {
    if o.Val? then Val(CastNumber(d, o.n, t)) else o
  }

  /** `CASE WHEN (tested) = 0`: a NULL comparison is not true, so NULL goes on to
      the ELSE branch, which alone is evaluated then. */
  function EvalSql(d: Dialect, e: Sql, row: Row): Outcome {
    match e
    case Column(name) => Lookup(row, name)
    case Literal(n) => Val(I(n))
    case Fraction(_, x) => Val(F(x))
    case NullWord => Null
    case Binary(op, l, r) =>
      var a, b := EvalSql(d, l, row), EvalSql(d, r, row);
      (match op
       case Plus => Strict(Add, a, b)
       case Minus => Strict(Sub, a, b)
       case Times => Strict(Mul, a, b)
       case Over => SqlDivide(d, a, b))
    case CaseZero(t, x) =>
      var v := EvalSql(d, t, row);
      if v.Raised? then Raised
      else if v.Val? && IsZero(v.n) then Null
      else EvalSql(d, x, row)
    case Cast(x, t) => SqlCast(d, EvalSql(d, x, row), t)
  }

  // ---- reading what was written ----

  /** Every leaf is a word that stands for it. */
  ghost predicate Readable(e: Sql, lex: Lexicon) {
    match e
    case Binary(_, l, r) => Readable(l, lex) && Readable(r, lex)
    case CaseZero(d, x) => Readable(d, lex) && Readable(x, lex)
    case Cast(x, _) => Readable(x, lex)
    case _ => Word(Print(e)) && lex(Print(e)) == Some(e)
  }

  /** What can follow an expression: the end, a blank or a parenthesis. */
  predicate Follows(rest: string) {
    rest == "" || rest[0] == ' ' || rest[0] == ')'
  }

  lemma {:induction false} SpanOfWord(w: string, rest: string)
    requires (forall i :: 0 <= i < |w| ==> WordChar(w[i])) && Follows(rest)
    ensures WordSpan(w + rest) == |w|
  {
    if w == "" {
      assert w + rest == rest;
    } else {
      SpanOfWord(w[1..], rest);
      assert (w + rest)[1..] == w[1..] + rest;
    }
  }

  lemma ParseIntText(n: int)
    ensures Word(IntText(n)) && IsIntWord(IntText(n)) && ParseInt(IntText(n)) == n
  {
    if n < 0 {
      DigitsOfNatText(-n);
      assert IntText(n)[1..] == NatText(-n);
    } else {
      DigitsOfNatText(n);
    }
  }

  lemma Mismatch(mark: string, s: string, k: nat)
    requires k < |mark| && k < |s| && mark[k] != s[k]
    ensures !(mark <= s)
  {
  }

  lemma WordDispatch(w: string, rest: string, lex: Lexicon)
    requires Word(w) && Follows(rest)
    ensures ReadSql(w + rest, lex) == ReadWord(w + rest, lex)
  {
    var s := w + rest;
    assert s[0] == w[0];
    if |w| > 4 {
      assert s[4] == w[4];
      Mismatch(CAST_OPEN, s, 4);
    } else if rest != "" {
      assert s[|w|] == rest[0];
      Mismatch(CAST_OPEN, s, |w|);
    }
  }

  lemma WordReads(w: string, rest: string, lex: Lexicon)
    requires Word(w) && Follows(rest)
    ensures ReadSql(w + rest, lex) == match lex(w) case None => Fail case Some(e) => Got(e, rest)
  {
    WordDispatch(w, rest, lex);
    SpanOfWord(w, rest);
    assert (w + rest)[..|w|] == w && (w + rest)[|w|..] == rest;
  }

  lemma ExpectMark<T>(v: T, mark: string, rest: string)
    ensures Expect(Got(v, mark + rest), mark) == Got(v, rest)
  {
    assert (mark + rest)[..|mark|] == mark && (mark + rest)[|mark|..] == rest;
  }

  lemma OpReads(op: SqlOp, rest: string)
    ensures ReadOp(OpText(op) + rest) == Got(op, rest)
  {
    var s := OpText(op) + rest;
    assert s[..3] == OpText(op) && s[3..] == rest;
  }

  lemma TypeReads(t: SqlType, rest: string)
    ensures ReadType(TypeText(t) + (")" + rest)) == Got(t, rest)
  {
    var name := TypeText(t) + ")";
    var s := TypeText(t) + (")" + rest);
    assert s == name + rest;
    assert s[..|name|] == name && s[|name|..] == rest;
    assert s[0] == name[0];
  }

  lemma CaseStep(s: string, d: Sql, x: Sql, rest1: string, rest: string, lex: Lexicon)
    requires ReadSql(s, lex) == Got(d, CASE_THEN + rest1) && ReadSql(rest1, lex) == Got(x, CASE_END + rest)
    ensures ReadSql(CASE_OPEN + s, lex) == Got(CaseZero(d, x), rest)
  {
    var t := CASE_OPEN + s;
    assert t[..|CASE_OPEN|] == CASE_OPEN && t[|CASE_OPEN|..] == s;
    ExpectMark(d, CASE_THEN, rest1);
    ExpectMark(x, CASE_END, rest);
  }

  lemma BinaryStep(s: string, op: SqlOp, l: Sql, r: Sql, rest1: string, rest: string, lex: Lexicon)
    requires !(CASE_OPEN <= "(" + s)
    requires ReadSql(s, lex) == Got(l, OpText(op) + rest1) && ReadSql(rest1, lex) == Got(r, ")" + rest)
    ensures ReadSql("(" + s, lex) == Got(Binary(op, l, r), rest)
  {
    var t := "(" + s;
    assert t[..1] == "(" && t[1..] == s;
    OpReads(op, rest1);
    ExpectMark(r, ")", rest);
  }

  lemma CastStep(s: string, x: Sql, t: SqlType, rest: string, lex: Lexicon)
    requires ReadSql(s, lex) == Got(x, CAST_AS + (TypeText(t) + (")" + rest)))
    ensures ReadSql(CAST_OPEN + s, lex) == Got(Cast(x, t), rest)
  {
    var u := CAST_OPEN + s;
    assert u[..|CAST_OPEN|] == CAST_OPEN && u[|CAST_OPEN|..] == s;
    assert u[0] == 'C';
    ExpectMark(x, CAST_AS, TypeText(t) + (")" + rest));
    TypeReads(t, rest);
  }

  /** No written expression followed by an operator looks like `CASE WHEN (`. */
  lemma NotCase(e: Sql, op: SqlOp, rest: string, lex: Lexicon)
    requires Readable(e, lex)
    ensures !(CASE_OPEN <= "(" + (Print(e) + (OpText(op) + rest)))
  {
    var s := "(" + (Print(e) + (OpText(op) + rest));
    if e.Cast? {
      assert s[5] == '(';
      assert CASE_OPEN[5] == ' ';
    } else if e.Binary? || e.CaseZero? {
      assert s[1] == '(';
      assert CASE_OPEN[1] == 'C';
    } else {
      WordNotCase(Print(e), op, rest);
    }
  }

  lemma WordNotCase(w: string, op: SqlOp, rest: string)
    requires Word(w)
    ensures !(CASE_OPEN <= "(" + (w + (OpText(op) + rest)))
  {
    var s := "(" + (w + (OpText(op) + rest));
    assert s[|w| + 1] == ' ' && s[|w| + 2] == OpText(op)[1];
    if |w| > 4 {
      assert s[5] == w[4];
      Mismatch(CASE_OPEN, s, 5);
    } else if |w| == 4 {
      Mismatch(CASE_OPEN, s, 6);
    } else {
      Mismatch(CASE_OPEN, s, |w| + 1);
    }
  }

  lemma RegroupBinary(l: string, op: string, r: string, rest: string)
    ensures ("(" + (l + (op + (r + ")")))) + rest == "(" + (l + (op + (r + (")" + rest))))
  {
  }

  lemma RegroupMarks(a: string, x: string, b: string, y: string, c: string, rest: string)
    ensures (a + (x + (b + (y + c)))) + rest == a + (x + (b + (y + (c + rest))))
  {
  }

  /** Every written expression is read back, in any context. */
  lemma {:induction false} PrintReads(e: Sql, rest: string, lex: Lexicon)
    requires Readable(e, lex) && Follows(rest)
    ensures ReadSql(Print(e) + rest, lex) == Got(e, rest)
    decreases e
  {
    match e
    case Binary(op, l, r) =>
      var rest1 := Print(r) + (")" + rest);
      RegroupBinary(Print(l), OpText(op), Print(r), rest);
      NotCase(l, op, rest1, lex);
      PrintReads(l, OpText(op) + rest1, lex);
      PrintReads(r, ")" + rest, lex);
      BinaryStep(Print(l) + (OpText(op) + rest1), op, l, r, rest1, rest, lex);
    case CaseZero(d, x) =>
      var rest1 := Print(x) + (CASE_END + rest);
      RegroupMarks(CASE_OPEN, Print(d), CASE_THEN, Print(x), CASE_END, rest);
      PrintReads(d, CASE_THEN + rest1, lex);
      PrintReads(x, CASE_END + rest, lex);
      CaseStep(Print(d) + (CASE_THEN + rest1), d, x, rest1, rest, lex);
    case Cast(x, t) =>
      RegroupMarks(CAST_OPEN, Print(x), CAST_AS, TypeText(t), ")", rest);
      PrintReads(x, CAST_AS + (TypeText(t) + (")" + rest)), lex);
      CastStep(Print(x) + (CAST_AS + (TypeText(t) + (")" + rest))), x, t, rest, lex);
    case _ => WordReads(Print(e), rest, lex);
  }

  /** Printed SQL parses back to the same tree. */
  lemma ParsePrint(e: Sql, lex: Lexicon)
    requires Readable(e, lex)
    ensures Parse(Print(e), lex) == Some(e)
  {
    PrintReads(e, "", lex);
    assert Print(e) + "" == Print(e);
  }
}
