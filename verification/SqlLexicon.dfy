/** What SQL makes of the words in an expanded calculated field: which column
    references it reads as one column, and what it reads instead of the others. */
module SqlLexicon {
  import opened Options
  import opened Numerals
  import opened CalculatedFields
  import opened SqlText

  // ---- references ----

  predicate Letter(c: char) { 'a' <= c <= 'z' || 'A' <= c <= 'Z' }

  predicate NameChar(c: char) { Letter(c) || IsDigit(c) || c == '_' }

  function LowerChar(c: char): char { if 'A' <= c <= 'Z' then (c as int + 32) as char else c }

  function Lower(s: string): (r: string)
    ensures |r| == |s| && forall i :: 0 <= i < |s| ==> r[i] == LowerChar(s[i])
  {
    if s == "" then "" else [LowerChar(s[0])] + Lower(s[1..])
  }

  /** The words that the compiler protects by quoting. */
  function ReservedAt(i: nat): string {
    match i
    case 0 => "select"
    case 1 => "from"
    case 2 => "where"
    case 3 => "group"
    case 4 => "order"
    case 5 => "by"
    case 6 => "limit"
    case 7 => "as"
    case 8 => "and"
    case _ => "or"
  }

  /** One of the first `n` reserved words. */
  predicate Listed(w: string, n: nat) {
    n > 0 && (w == ReservedAt(n - 1) || Listed(w, n - 1))
  }

  predicate Reserved(w: string) { Listed(w, 10) }

  /** A name without quotes: SQL compares it with its keywords without regard to case. */
  predicate PlainName(keys: set<string>, p: string) {
    p != "" && !IsDigit(p[0]) && (forall i :: 0 <= i < |p| ==> NameChar(p[i])) && Lower(p) !in keys
  }

  predicate QuotedName(p: string) {
    |p| > 2 && p[0] == '"' && p[|p| - 1] == '"' && forall i :: 0 < i < |p| - 1 ==> NameChar(p[i])
  }

  predicate Part(keys: set<string>, p: string) { PlainName(keys, p) || QuotedName(p) }

  /** The form of a column: names separated by dots. */
  predicate Dotted(keys: set<string>, w: string)
    decreases |w|
  {
    var i := IndexOf(w, '.');
    if i == |w| then Part(keys, w) else Part(keys, w[..i]) && Dotted(keys, w[i + 1..])
  }

  function FoldPart(p: string): (r: string)
    ensures |r| == |p|
  {
    if QuotedName(p) then p else Lower(p)
  }

  /** The column that a reference names: PostgreSQL folds names without quotes to lower
      case. */
  function Fold(d: Dialect, w: string): (r: string)
    ensures |r| == |w|
    decreases |w|
  {
    var i := IndexOf(w, '.');
    if d.Sqlite? then w
    else if i == |w| then FoldPart(w)
    else FoldPart(w[..i]) + ("." + Fold(d, w[i + 1..]))
  }

  /** One column, under the very name that is written. */
  predicate IsReference(d: Dialect, keys: set<string>, w: string) { Dotted(keys, w) && Fold(d, w) == w }

  // ---- words ----

  /** Any word is one thing, told apart from the others by its text alone. */
  function AnyWord(w: string): Option<Sql> {
    Some(if IsIntWord(w) then Literal(ParseInt(w)) else Column(w))
  }

  /** The position of the last minus sign, or the length. */
  function LastDash(w: string): (i: nat)
    ensures i <= |w|
    ensures i < |w| ==> w[i] == '-' && forall j :: i < j < |w| ==> w[j] != '-'
    ensures i == |w| ==> '-' !in w
  {
    if w == "" then 0
    else if w[|w| - 1] == '-' then |w| - 1
    else
      var i := LastDash(w[..|w| - 1]);
      assert w == w[..|w| - 1] + [w[|w| - 1]];
      if i == |w| - 1 then |w| else i
  }

  /** Digits, a point and digits. */
  predicate IsFraction(w: string) {
    var i := IndexOf(w, '.');
    0 < i < |w| - 1 && AllDigits(w[..i]) && AllDigits(w[i + 1..])
  }

  function FractionValue(w: string): real
    requires IsFraction(w)
  {
    var i := IndexOf(w, '.');
    Digits(w[..i]) as real + Digits(w[i + 1..]) as real / PowNat(|w| - i - 1) as real
  }

  /** A word without a minus sign. */
  function ReadAtom(d: Dialect, keys: set<string>, w: string): Option<Sql> {
    if Dotted(keys, w) then Some(Column(Fold(d, w)))
    else if w != "" && AllDigits(w) then Some(Literal(Digits(w)))
    else if IsFraction(w) then Some(Fraction(w, FractionValue(w)))
    else if Lower(w) == "null" then Some(NullWord)
    else None
  }

  /** Any word: a minus sign is a sign in front of digits and a difference elsewhere. */
  function SqlWord(d: Dialect, keys: set<string>, w: string): Option<Sql>
    decreases |w|
  {
    var i := LastDash(w);
    if i == |w| then ReadAtom(d, keys, w)
    else if i == 0 then (if w[1..] != "" && AllDigits(w[1..]) then Some(Literal(-(Digits(w[1..]) as int))) else None)
    else
      match SqlWord(d, keys, w[..i])
      case None => None
      case Some(l) =>
        match ReadAtom(d, keys, w[i + 1..])
        case None => None
        case Some(r) => Some(Binary(Minus, l, r))
  }

  /** The words of a dialect whose keywords, in lower case, are given. */
  function Lex(d: Dialect, keys: set<string>): (lex: Lexicon)
    ensures forall w :: lex(w) == SqlWord(d, keys, w)
  {
    w => SqlWord(d, keys, w)
  }

  // ---- exactly the references read as themselves ----

  predicate ReferenceChar(c: char) { NameChar(c) || c == '.' || c == '"' }

  lemma {:induction false} ReferenceChars(keys: set<string>, w: string)
    requires Dotted(keys, w)
    ensures w != "" && !IsDigit(w[0]) && forall i :: 0 <= i < |w| ==> ReferenceChar(w[i])
    decreases |w|
  {
    var i := IndexOf(w, '.');
    if i < |w| {
      ReferenceChars(keys, w[i + 1..]);
      forall j | 0 <= j < |w| ensures ReferenceChar(w[j]) {
        if j < i { assert w[j] == w[..i][j]; } else if j > i { assert w[j] == w[i + 1..][j - i - 1]; }
      }
    }
  }

  lemma ReferenceIsWord(keys: set<string>, w: string)
    requires Dotted(keys, w)
    ensures Word(w) && '-' !in w && !IsIntWord(w)
  {
    ReferenceChars(keys, w);
    assert ReferenceChar(w[0]);
    NotSigned(w);
  }

  lemma NotSigned(w: string)
    requires w != "" && !IsDigit(w[0]) && w[0] != '-' && w[0] != '+'
    ensures !IsIntWord(w)
  {
  }

  lemma AtomOnly(d: Dialect, keys: set<string>, w: string)
    requires '-' !in w
    ensures SqlWord(d, keys, w) == ReadAtom(d, keys, w)
  {
  }

  /** Names separated by dots are read as the column that they fold to. */
  lemma ReadsFolded(d: Dialect, keys: set<string>, w: string)
    requires Dotted(keys, w)
    ensures SqlWord(d, keys, w) == Some(Column(Fold(d, w)))
  {
    ReferenceIsWord(keys, w);
    AtomOnly(d, keys, w);
  }

  /** A word is read as the column of that name exactly when it is a reference, whatever
      the keywords are. */
  lemma ReadsAsColumnIff(d: Dialect, keys: set<string>, w: string)
    ensures SqlWord(d, keys, w) == Some(Column(w)) <==> IsReference(d, keys, w)
  {
    if Dotted(keys, w) { ReadsFolded(d, keys, w); }
  }

  /** The columns that a tree looks at. */
  function Mentions(e: Sql): set<string> {
    match e
    case Column(name) => {name}
    case Binary(_, l, r) => Mentions(l) + Mentions(r)
    case CaseZero(t, x) => Mentions(t) + Mentions(x)
    case Cast(x, _) => Mentions(x)
    case _ => {}
  }

  lemma {:induction false} MentionsNoLonger(d: Dialect, keys: set<string>, w: string, c: string)
    requires SqlWord(d, keys, w).Some? && c in Mentions(SqlWord(d, keys, w).value)
    ensures |c| <= |w| && (LastDash(w) < |w| ==> |c| < |w|)
    decreases |w|
  {
    var i := LastDash(w);
    if 0 < i < |w| && c in Mentions(SqlWord(d, keys, w[..i]).value) { MentionsNoLonger(d, keys, w[..i], c); }
  }

  /** What is read in the place of a word that is no reference does not mention the
      column of that name. */
  lemma MentionsOthers(d: Dialect, keys: set<string>, w: string)
    requires !IsReference(d, keys, w) && SqlWord(d, keys, w).Some?
    ensures w !in Mentions(SqlWord(d, keys, w).value)
  {
    if w in Mentions(SqlWord(d, keys, w).value) { MentionsNoLonger(d, keys, w, w); }
  }

  lemma {:induction false} OnlyMentioned(d: Dialect, e: Sql, row: Row, row': Row)
    requires forall c :: c in Mentions(e) ==> Lookup(row, c) == Lookup(row', c)
    ensures EvalSql(d, e, row) == EvalSql(d, e, row')
  {
    match e
    case Binary(_, l, r) =>
      OnlyMentioned(d, l, row, row');
      OnlyMentioned(d, r, row, row');
    case CaseZero(t, x) =>
      OnlyMentioned(d, t, row, row');
      OnlyMentioned(d, x, row, row');
    case Cast(x, _) => OnlyMentioned(d, x, row, row');
    case _ =>
  }

  /** A row with one column. */
  function Single(w: string, n: int): Row { map[w := Some(I(n))] }

  /** Whatever a word that is no reference is read as, it does not depend on the column
      of that name. */
  lemma NoReferenceIgnoresColumn(d: Dialect, keys: set<string>, w: string, n: int, m: int)
    requires !IsReference(d, keys, w) && SqlWord(d, keys, w).Some?
    ensures var e := SqlWord(d, keys, w).value; EvalSql(d, e, Single(w, n)) == EvalSql(d, e, Single(w, m))
  {
    MentionsOthers(d, keys, w);
    OnlyMentioned(d, SqlWord(d, keys, w).value, Single(w, n), Single(w, m));
  }

  /** A word means the column of that name on every row exactly when it is a reference. */
  lemma MeansItselfIff(d: Dialect, keys: set<string>, w: string)
    ensures IsReference(d, keys, w) <==>
      SqlWord(d, keys, w).Some? && forall row :: EvalSql(d, SqlWord(d, keys, w).value, row) == Lookup(row, w)
  {
    ReadsAsColumnIff(d, keys, w);
    if !IsReference(d, keys, w) && SqlWord(d, keys, w).Some? {
      NoReferenceIgnoresColumn(d, keys, w, 1, 2);
      assert Lookup(Single(w, 1), w) != Lookup(Single(w, 2), w);
    }
  }

  lemma IntegerReads(d: Dialect, keys: set<string>, n: int)
    ensures SqlWord(d, keys, IntText(n)) == Some(Literal(n)) && Word(IntText(n))
  {
    ParseIntText(n);
    var t := IntText(n);
    if n < 0 {
      assert t[1..] == NatText(-n);
      assert forall j :: 0 < j < |t| ==> t[j] == NatText(-n)[j - 1];
      DigitsOfNatText(-n);
    } else {
      DigitsOfNatText(n);
      NoReference(keys, t);
    }
  }

  lemma NoReference(keys: set<string>, w: string)
    requires w != "" && IsDigit(w[0])
    ensures !Dotted(keys, w)
  {
    if Dotted(keys, w) { ReferenceChars(keys, w); }
  }

  // ---- names that SQL reads as something else ----

  /** A hyphenated name is a difference. */
  lemma HyphenIsDifference(d: Dialect, keys: set<string>, a: string, b: string)
    requires Dotted(keys, a) && Dotted(keys, b)
    ensures SqlWord(d, keys, a + "-" + b) == Some(Binary(Minus, Column(Fold(d, a)), Column(Fold(d, b))))
    ensures !Dotted(keys, a + "-" + b)
  {
    var w := a + "-" + b;
    ReferenceIsWord(keys, b);
    DashAt(a, b);
    ReadsFolded(d, keys, a);
    Difference(d, keys, w, |a|, Column(Fold(d, a)), Column(Fold(d, b)));
    assert w[|a|] == '-';
    if Dotted(keys, w) { ReferenceIsWord(keys, w); }
  }

  lemma DashAt(a: string, b: string)
    requires '-' !in b
    ensures var w := a + "-" + b; LastDash(w) == |a| && w[..|a|] == a && w[|a| + 1..] == b
  {
    var w := a + "-" + b;
    assert w[|a|] == '-';
    forall j | |a| < j < |w| ensures w[j] != '-' { assert w[j] == b[j - |a| - 1]; }
    assert w[..|a|] == a && w[|a| + 1..] == b;
  }

  lemma Difference(d: Dialect, keys: set<string>, w: string, i: nat, l: Sql, r: Sql)
    requires 0 < i < |w| && LastDash(w) == i
    requires SqlWord(d, keys, w[..i]) == Some(l) && ReadAtom(d, keys, w[i + 1..]) == Some(r)
    ensures SqlWord(d, keys, w) == Some(Binary(Minus, l, r))
  {
  }

  /** Digits are a constant, digits around a point a fraction, `null` in any case NULL. */
  lemma NumbersAndNull(d: Dialect, keys: set<string>, w: string)
    requires '-' !in w && "null" in keys
    ensures w != "" && AllDigits(w) ==> SqlWord(d, keys, w) == Some(Literal(Digits(w)))
    ensures IsFraction(w) ==> SqlWord(d, keys, w) == Some(Fraction(w, FractionValue(w)))
    ensures Lower(w) == "null" ==> SqlWord(d, keys, w) == Some(NullWord)
  {
    var i := IndexOf(w, '.');
    AtomOnly(d, keys, w);
    if w != "" && IsDigit(w[0]) { NoReference(keys, w); }
    if IsFraction(w) {
      assert w[0] == w[..i][0];
      NoReference(keys, w);
    }
    if Lower(w) == "null" { NullIsNoName(keys, w); }
  }

  lemma NullIsNoName(keys: set<string>, w: string)
    requires Lower(w) == "null" && "null" in keys
    ensures !Dotted(keys, w) && !AllDigits(w) && !IsFraction(w)
  {
    assert LowerChar(w[0]) == 'n' && LowerChar(w[1]) == 'u' && LowerChar(w[2]) == 'l' && LowerChar(w[3]) == 'l';
    IndexOfAbsent(w, '.');
  }

  lemma NoMarks(w: string)
    requires forall i :: 0 <= i < |w| ==> Letter(w[i])
    ensures '"' !in w && '.' !in w && '-' !in w && (w != "" ==> !IsDigit(w[0]))
  {
  }

  lemma PlainWord(keys: set<string>, w: string)
    requires PlainName(keys, w)
    ensures Dotted(keys, w)
  {
    assert '.' !in w;
    IndexOfAbsent(w, '.');
  }

  /** On PostgreSQL a name without quotes stands for itself exactly in lower case. */
  lemma PlainReferenceIff(d: Dialect, keys: set<string>, w: string)
    requires PlainName(keys, w)
    ensures SqlWord(d, keys, w) == Some(Column(if d.Sqlite? then w else Lower(w)))
    ensures IsReference(d, keys, w) <==> d.Sqlite? || Lower(w) == w
  {
    PlainWord(keys, w);
    ReadsFolded(d, keys, w);
    IndexOfAbsent(w, '.');
  }

  /** A keyword in any case, other than `null`, is no expression. */
  lemma KeywordIsNoExpression(d: Dialect, keys: set<string>, w: string)
    requires Lower(w) in keys && Lower(w) != "null" && w != "" && forall i :: 0 <= i < |w| ==> Letter(w[i])
    ensures SqlWord(d, keys, w) == None
  {
    KeywordNoReference(keys, w);
    UnnamedLetters(d, keys, w);
  }

  lemma KeywordNoReference(keys: set<string>, w: string)
    requires Lower(w) in keys && w != "" && forall i :: 0 <= i < |w| ==> Letter(w[i])
    ensures !Dotted(keys, w)
  {
    NoMarks(w);
    IndexOfAbsent(w, '.');
  }

  lemma UnnamedLetters(d: Dialect, keys: set<string>, w: string)
    requires !Dotted(keys, w) && Lower(w) != "null" && w != "" && forall i :: 0 <= i < |w| ==> Letter(w[i])
    ensures SqlWord(d, keys, w) == None
  {
    NoMarks(w);
    AtomOnly(d, keys, w);
    IndexOfAbsent(w, '.');
    assert !IsFraction(w);
    assert !AllDigits(w);
  }

  // ---- the references that the compiler makes ----

  /** `quote_identifier` on names of the identifier pattern. */
  predicate Admitted(name: string) {
    && 1 <= |name| <= 128 && (Letter(name[0]) || IsDigit(name[0]))
    && forall i :: 0 <= i < |name| ==> NameChar(name[i]) || name[i] == '-' || name[i] == '.'
  }

  function QuoteIdentifier(name: string): string {
    if Reserved(name) || '"' in name || ' ' in name || '\t' in name || '\n' in name
    then "\"" + Doubled(name) + "\"" else name
  }

  function Doubled(s: string): string {
    if s == "" then "" else (if s[0] == '"' then "\"\"" else [s[0]]) + Doubled(s[1..])
  }

  /** A column reference, qualified in joined queries. */
  function ColumnReference(entity: Option<string>, physical: string): string {
    if entity.Some? then QuoteIdentifier(entity.value) + "." + QuoteIdentifier(physical) else QuoteIdentifier(physical)
  }

  lemma {:induction false} DoubledPlain(s: string)
    requires '"' !in s
    ensures Doubled(s) == s
  {
    if s != "" {
      assert s[0] in s;
      DoubledPlain(s[1..]);
    }
  }

  predicate Lettered(w: string) { |w| >= 2 && forall i :: 0 <= i < |w| ==> 'a' <= w[i] <= 'z' }

  lemma ReservedShape(i: nat)
    ensures Lettered(ReservedAt(i))
  {
  }

  lemma {:induction false} ListedShape(w: string, n: nat)
    requires Listed(w, n)
    ensures Lettered(w)
  {
    if w == ReservedAt(n - 1) { ReservedShape(n - 1); } else { ListedShape(w, n - 1); }
  }

  lemma ReservedIsLetters(name: string)
    requires Reserved(name)
    ensures Lettered(name) && '"' !in name && '.' !in name
  {
    ListedShape(name, 10);
    NoMarks(name);
  }

  lemma QuotedReserved(d: Dialect, keys: set<string>, name: string)
    requires Reserved(name)
    ensures QuoteIdentifier(name) == "\"" + name + "\"" && IsReference(d, keys, QuoteIdentifier(name))
  {
    ReservedIsLetters(name);
    DoubledPlain(name);
    QuotedIsReference(d, keys, name, "\"" + name + "\"");
  }

  lemma QuotedIsReference(d: Dialect, keys: set<string>, name: string, q: string)
    requires Lettered(name) && q == "\"" + name + "\""
    ensures IsReference(d, keys, q)
  {
    forall i | 0 <= i < |q| ensures q[i] != '.' {
      if 0 < i < |q| - 1 { assert q[i] == name[i - 1]; }
    }
    IndexOfAbsent(q, '.');
    assert forall i :: 0 < i < |q| - 1 ==> q[i] == name[i - 1];
    assert QuotedName(q);
  }

  lemma QuotedIff(d: Dialect, keys: set<string>, name: string)
    requires Admitted(name)
    ensures IsReference(d, keys, QuoteIdentifier(name)) <==> Reserved(name) || IsReference(d, keys, name)
  {
    if Reserved(name) {
      QuotedReserved(d, keys, name);
    } else {
      AdmittedIsUnquoted(name);
    }
  }

  lemma AdmittedIsUnquoted(name: string)
    requires Admitted(name) && !Reserved(name)
    ensures QuoteIdentifier(name) == name
  {
    forall i | 0 <= i < |name| ensures name[i] != '"' && name[i] != ' ' && name[i] != '\t' && name[i] != '\n' {
      assert NameChar(name[i]) || name[i] == '-' || name[i] == '.';
    }
  }

  lemma DotAt(x: string, rest: string)
    requires '.' !in x
    ensures var w := x + "." + rest; IndexOf(w, '.') == |x| < |w| && w[..|x|] == x && w[|x| + 1..] == rest
  {
    IndexOfSplit(x, '.', rest);
  }

  lemma JoinDots(x: string, y: string, b: string)
    ensures (x + "." + y) + "." + b == x + "." + (y + "." + b)
  {
  }

  /** A name with a dot is what stands before the first one, and the rest. */
  lemma SplitDot(a: string, i: nat)
    requires i == IndexOf(a, '.') < |a|
    ensures a == a[..i] + "." + a[i + 1..] && '.' !in a[..i]
  {
    Rejoin(a, i);
    assert [a[i]] == ".";
  }

  lemma Rejoin(a: string, i: nat)
    requires i < |a|
    ensures a == a[..i] + [a[i]] + a[i + 1..]
  {
  }

  lemma {:induction false} DottedParts(keys: set<string>, a: string, b: string)
    ensures Dotted(keys, a + "." + b) <==> Dotted(keys, a) && Dotted(keys, b)
    decreases |a|
  {
    var i := IndexOf(a, '.');
    if i == |a| {
      DotAt(a, b);
    } else {
      var x, y := a[..i], a[i + 1..];
      SplitDot(a, i);
      JoinDots(x, y, b);
      DotAt(x, y + "." + b);
      DottedParts(keys, y, b);
    }
  }

  lemma FoldStep(x: string, rest: string)
    requires '.' !in x
    ensures Fold(Postgres, x + "." + rest) == FoldPart(x) + "." + Fold(Postgres, rest)
  {
    DotAt(x, rest);
    Regroup(FoldPart(x), Fold(Postgres, rest));
  }

  lemma Regroup(x: string, y: string)
    ensures x + ("." + y) == x + "." + y
  {
  }

  lemma {:induction false} FoldParts(a: string, b: string)
    ensures Fold(Postgres, a + "." + b) == Fold(Postgres, a) + "." + Fold(Postgres, b)
    decreases |a|
  {
    var i := IndexOf(a, '.');
    if i == |a| {
      FoldStep(a, b);
    } else {
      var x, y := a[..i], a[i + 1..];
      SplitDot(a, i);
      JoinDots(x, y, b);
      FoldStep(x, y + "." + b);
      FoldParts(y, b);
      FoldStep(x, y);
      JoinDots(FoldPart(x), Fold(Postgres, y), Fold(Postgres, b));
    }
  }

  lemma DottedIff(d: Dialect, keys: set<string>, a: string, b: string)
    ensures IsReference(d, keys, a + "." + b) <==> IsReference(d, keys, a) && IsReference(d, keys, b)
  {
    DottedParts(keys, a, b);
    if d.Postgres? { FoldParts(a, b); }
    SameParts(Fold(d, a), Fold(d, b), a, b);
  }

  lemma SameParts(x: string, y: string, a: string, b: string)
    requires |x| == |a| && |y| == |b|
    ensures x + "." + y == a + "." + b <==> x == a && y == b
  {
    if x + "." + y == a + "." + b {
      assert (x + "." + y)[..|x|] == x && (a + "." + b)[..|a|] == a;
      assert (x + "." + y)[|x| + 1..] == y && (a + "." + b)[|a| + 1..] == b;
    }
  }

  /** The compiler's reference to an admitted name is read as that column exactly when
      every name in it is one of its reserved words or is itself a reference. */
  lemma CompiledReferenceIff(d: Dialect, keys: set<string>, entity: Option<string>, physical: string)
    requires Admitted(physical) && (entity.Some? ==> Admitted(entity.value))
    ensures var w := ColumnReference(entity, physical);
      SqlWord(d, keys, w) == Some(Column(w)) <==>
      && (Reserved(physical) || IsReference(d, keys, physical))
      && (entity.Some? ==> Reserved(entity.value) || IsReference(d, keys, entity.value))
  {
    ReadsAsColumnIff(d, keys, ColumnReference(entity, physical));
    QuotedIff(d, keys, physical);
    if entity.Some? {
      QuotedIff(d, keys, entity.value);
      DottedIff(d, keys, QuoteIdentifier(entity.value), QuoteIdentifier(physical));
    }
  }

  // ---- admitted names that are read as something else ----

  lemma LowerIsItself(w: string)
    requires forall i :: 0 <= i < |w| ==> 'a' <= w[i] <= 'z'
    ensures Lower(w) == w
  {
  }

  /** A name of small letters that is no keyword. */
  lemma SmallName(d: Dialect, keys: set<string>, w: string)
    requires w != "" && w !in keys && forall i :: 0 <= i < |w| ==> 'a' <= w[i] <= 'z'
    ensures Dotted(keys, w) && Fold(d, w) == w
  {
    LowerIsItself(w);
    PlainReferenceIff(d, keys, w);
    PlainWord(keys, w);
  }

  lemma HyphenatedName(d: Dialect, keys: set<string>)
    requires "unit" !in keys && "price" !in keys
    ensures Admitted("unit-price") && SqlWord(d, keys, "unit-price") == Some(Binary(Minus, Column("unit"), Column("price")))
  {
    UnitAndPrice("unit", "price", "unit-price");
    SmallName(d, keys, "unit");
    SmallName(d, keys, "price");
    HyphenIsDifference(d, keys, "unit", "price");
  }

  lemma UnitAndPrice(a: string, b: string, w: string)
    requires a == "unit" && b == "price" && w == "unit-price"
    ensures Admitted(w) && w == a + "-" + b
    ensures forall i :: 0 <= i < |a| ==> 'a' <= a[i] <= 'z'
    ensures forall i :: 0 <= i < |b| ==> 'a' <= b[i] <= 'z'
  {
  }

  lemma NumberedNames(d: Dialect, keys: set<string>)
    requires "null" in keys
    ensures Admitted("7") && SqlWord(d, keys, "7") == Some(Literal(7))
    ensures Admitted("1.5") && SqlWord(d, keys, "1.5").Some? && SqlWord(d, keys, "1.5").value.Fraction?
  {
    IntegerReads(d, keys, 7);
    assert IntText(7) == "7";
    assert "1.5" == "1" + ['.'] + "5";
    IndexOfSplit("1", '.', "5");
    NumbersAndNull(d, keys, "1.5");
  }

  lemma NullName(d: Dialect, keys: set<string>)
    requires "null" in keys
    ensures Admitted("null") && SqlWord(d, keys, "null") == Some(NullWord)
  {
    LowerIsItself("null");
    NumbersAndNull(d, keys, "null");
  }

  lemma UppercaseKeywordName(d: Dialect, keys: set<string>)
    requires "select" in keys
    ensures Admitted("Select") && SqlWord(d, keys, "Select") == None
  {
    LowerSelect("Select");
    KeywordIsNoExpression(d, keys, "Select");
  }

  /** Without quotes PostgreSQL reads `Total` as `total`; SQLite does not. */
  lemma MixedCaseName(keys: set<string>)
    requires "total" !in keys
    ensures Admitted("Total") && QuoteIdentifier("Total") == "Total"
    ensures SqlWord(Postgres, keys, "Total") == SqlWord(Postgres, keys, "total") == Some(Column("total"))
    ensures SqlWord(Sqlite, keys, "Total") == Some(Column("Total"))
  {
    LowerTotal("Total", "total");
    TotalIsAdmitted("Total", "total");
    MixedCase(keys, "Total", "total");
  }

  lemma TotalIsAdmitted(w: string, small: string)
    requires w == "Total" && small == "total"
    ensures Admitted(w) && QuoteIdentifier(w) == w
    ensures forall i :: 0 <= i < |w| ==> Letter(w[i])
    ensures forall i :: 0 <= i < |small| ==> Letter(small[i])
  {
    NotReserved(w);
    AdmittedIsUnquoted(w);
  }

  lemma MixedCase(keys: set<string>, w: string, small: string)
    requires w != "" && Lower(w) == small && small !in keys && forall i :: 0 <= i < |w| ==> Letter(w[i])
    requires Lower(small) == small && forall i :: 0 <= i < |small| ==> Letter(small[i])
    ensures SqlWord(Postgres, keys, w) == SqlWord(Postgres, keys, small) == Some(Column(small))
    ensures SqlWord(Sqlite, keys, w) == Some(Column(w))
  {
    NoMarks(w);
    NoMarks(small);
    PlainReferenceIff(Postgres, keys, w);
    PlainReferenceIff(Sqlite, keys, w);
    PlainReferenceIff(Postgres, keys, small);
  }

  lemma NotReserved(w: string)
    requires w != "" && w[0] == 'T'
    ensures !Reserved(w)
  {
    if Reserved(w) { ListedShape(w, 10); }
  }

  lemma LowerSelect(w: string)
    requires w == "Select"
    ensures Lower(w) == "select"
  {
    var t := Lower(w);
    assert t[0] == 's' && t[1] == 'e' && t[2] == 'l' && t[3] == 'e' && t[4] == 'c' && t[5] == 't';
  }

  lemma LowerTotal(w: string, small: string)
    requires w == "Total" && small == "total"
    ensures Lower(w) == small == Lower(small)
  {
    LowerIsItself(small);
    var t := Lower(w);
    assert t[0] == 't' && t[1] == 'o' && t[2] == 't' && t[3] == 'a' && t[4] == 'l';
  }
}
