/** Compile-time expansion of calculated fields into SQL text. */
module Expansion {
  import opened Options
  import opened Numerals
  import opened CalculatedFields
  import opened SqlText
  import opened SqlLexicon

  /** Why an expansion is refused: failed re-validation (`CF_001`), a dialect
      without type names, or a leaf without a physical column. */
  datatype Failure = Rejected | UnsupportedDialect | UnboundLeaf

  function DialectOf(name: string): Option<Dialect> {
    if name == "sqlite" then Some(Sqlite)
    else if name == "postgres" || name == "postgresql" then Some(Postgres)
    else None
  }

  /** Whether a backend can enforce a division policy. */
  predicate ZeroDivisionSupported(policy: Policy, backend: string) {
    policy.NullPolicy? || backend in {"postgres", "postgresql", "mongodb"}
  }

  function RealOf(d: Dialect): SqlType { if d.Sqlite? then RealName else DoubleName }

  function IntOf(d: Dialect): SqlType { if d.Sqlite? then IntegerName else BigintName }

  function TargetOf(d: Dialect, t: OutputType): SqlType {
    if t.IntType? then IntOf(d) else RealOf(d)
  }

  function Symbol(op: Op): string {
    match op case Add => "+" case Sub => "-" case Mul => "*"
  }

  /** The text of one node, as the expander concatenates it. */
  function Render(e: Expr, columns: map<string, string>, policy: Policy, real': string): string
    requires Leaves(e) <= columns.Keys
  {
    match e
    case Field(id) => columns[id]
    case Const(n) => IntText(n)
    case Arith(op, l, r) =>
      "(" + Render(l, columns, policy, real') + " " + Symbol(op) + " " + Render(r, columns, policy, real') + ")"
    case Div(l, r) =>
      var left, right := Render(l, columns, policy, real'), Render(r, columns, policy, real');
      var quotient := "(CAST(" + left + " AS " + real' + ") / CAST(" + right + " AS " + real' + "))";
      if policy.NullPolicy? then "(CASE WHEN (" + right + ") = 0 THEN NULL " + "ELSE " + quotient + " END)"
      else quotient
  }

  function ExpandSql(f: CalculatedField, dialect: string, columns: map<string, string>): Result<string, Failure> {
    if !Valid(f) then Err(Rejected)
    else if DialectOf(dialect).None? then Err(UnsupportedDialect)
    else if !(Leaves(f.expression) <= columns.Keys) then Err(UnboundLeaf)
    else
      var d := DialectOf(dialect).value;
      Ok("CAST(" + Render(f.expression, columns, f.policy, TypeText(RealOf(d)))
         + " AS " + TypeText(TargetOf(d, f.outputType)) + ")")
  }

  // ---- the tree behind the text ----

  function SqlSymbol(op: Op): SqlOp {
    match op case Add => Plus case Sub => Minus case Mul => Times
  }

  function Tree(e: Expr, columns: map<string, string>, policy: Policy, real': SqlType): Sql
    requires Leaves(e) <= columns.Keys
  {
    match e
    case Field(id) => Column(columns[id])
    case Const(n) => Literal(n)
    case Arith(op, l, r) => Binary(SqlSymbol(op), Tree(l, columns, policy, real'), Tree(r, columns, policy, real'))
    case Div(l, r) =>
      var left, right := Tree(l, columns, policy, real'), Tree(r, columns, policy, real');
      var quotient := Binary(Over, Cast(left, real'), Cast(right, real'));
      if policy.NullPolicy? then CaseZero(right, quotient) else quotient
  }

  lemma CastText(x: string, t: string)
    ensures "CAST(" + x + " AS " + t + ")" == CAST_OPEN + (x + (CAST_AS + (t + ")")))
  {
  }

  lemma ArithText(l: string, op: Op, r: string)
    ensures "(" + l + " " + Symbol(op) + " " + r + ")" == "(" + (l + (OpText(SqlSymbol(op)) + (r + ")")))
  {
    assert " " + Symbol(op) + " " == OpText(SqlSymbol(op));
  }

  lemma QuotientText(l: string, r: string, t: string)
    ensures "(CAST(" + l + " AS " + t + ") / CAST(" + r + " AS " + t + "))"
         == "(" + ((CAST_OPEN + (l + (CAST_AS + (t + ")")))) + (OpText(Over) + ((CAST_OPEN + (r + (CAST_AS + (t + ")")))) + ")")))
  {
    CastText(l, t);
    CastText(r, t);
    var a, b := "CAST(" + l + " AS " + t + ")", "CAST(" + r + " AS " + t + ")";
    assert "(CAST(" + l + " AS " + t + ") / CAST(" + r + " AS " + t + "))" == "(" + a + " / " + b + ")";
  }

  lemma GuardText(d: string, x: string)
    ensures "(CASE WHEN (" + d + ") = 0 THEN NULL " + "ELSE " + x + " END)"
         == CASE_OPEN + (d + (CASE_THEN + (x + CASE_END)))
  {
  }

  /** The concatenated text is the printed form of the tree. */
  lemma {:induction false} RenderIsPrint(e: Expr, columns: map<string, string>, policy: Policy, real': SqlType)
    requires Leaves(e) <= columns.Keys
    ensures Render(e, columns, policy, TypeText(real')) == Print(Tree(e, columns, policy, real'))
  {
    match e
    case Arith(op, l, r) =>
      RenderIsPrint(l, columns, policy, real');
      RenderIsPrint(r, columns, policy, real');
      ArithText(Print(Tree(l, columns, policy, real')), op, Print(Tree(r, columns, policy, real')));
    case Div(l, r) =>
      RenderIsPrint(l, columns, policy, real');
      RenderIsPrint(r, columns, policy, real');
      DivText(Tree(l, columns, policy, real'), Tree(r, columns, policy, real'), real');
    case _ =>
  }

  lemma DivText(left: Sql, right: Sql, t: SqlType)
    ensures var q := "(CAST(" + Print(left) + " AS " + TypeText(t) + ") / CAST(" + Print(right) + " AS " + TypeText(t) + "))";
      var quotient := Binary(Over, Cast(left, t), Cast(right, t));
      && q == Print(quotient)
      && "(CASE WHEN (" + Print(right) + ") = 0 THEN NULL " + "ELSE " + q + " END)" == Print(CaseZero(right, quotient))
  {
    var q := "(CAST(" + Print(left) + " AS " + TypeText(t) + ") / CAST(" + Print(right) + " AS " + TypeText(t) + "))";
    QuotientText(Print(left), Print(right), TypeText(t));
    GuardText(Print(right), q);
  }

  /** Every column reference is one that the dialect, with these keywords, reads as that
      column. */
  ghost predicate Lexical(d: Dialect, keys: set<string>, columns: map<string, string>) {
    forall id :: id in columns ==> IsReference(d, keys, columns[id])
  }

  /** A lexicon that takes the columns, and all integers, for what they are. */
  ghost predicate Understands(lex: Lexicon, columns: map<string, string>) {
    && (forall id :: id in columns ==> Word(columns[id]) && lex(columns[id]) == Some(Column(columns[id])))
    && (forall n :: Word(IntText(n)) && lex(IntText(n)) == Some(Literal(n)))
  }

  lemma SqlUnderstands(d: Dialect, keys: set<string>, columns: map<string, string>)
    requires Lexical(d, keys, columns)
    ensures Understands(Lex(d, keys), columns)
  {
    var lex := Lex(d, keys);
    forall id | id in columns ensures Word(columns[id]) && lex(columns[id]) == Some(Column(columns[id])) {
      ReferenceIsWord(keys, columns[id]);
      ReadsAsColumnIff(d, keys, columns[id]);
    }
    forall n ensures Word(IntText(n)) && lex(IntText(n)) == Some(Literal(n)) { IntegerReads(d, keys, n); }
  }

  lemma {:induction false} TreeReadable(e: Expr, columns: map<string, string>, policy: Policy, real': SqlType, lex: Lexicon)
    requires Leaves(e) <= columns.Keys && Understands(lex, columns)
    ensures Readable(Tree(e, columns, policy, real'), lex)
  {
    match e
    case Arith(op, l, r) =>
      TreeReadable(l, columns, policy, real', lex);
      TreeReadable(r, columns, policy, real', lex);
    case Div(l, r) =>
      TreeReadable(l, columns, policy, real', lex);
      TreeReadable(r, columns, policy, real', lex);
    case _ =>
  }

  /** The expanded text parses to the cast of the expression's tree. */
  lemma ExpandedTextParses(f: CalculatedField, dialect: string, columns: map<string, string>, d: Dialect, keys: set<string>)
    requires ExpandSql(f, dialect, columns).Ok? && DialectOf(dialect) == Some(d) && Lexical(d, keys, columns)
    ensures Parse(ExpandSql(f, dialect, columns).value, Lex(d, keys))
         == Some(Cast(Tree(f.expression, columns, f.policy, RealOf(d)), TargetOf(d, f.outputType)))
  {
    var tree := Tree(f.expression, columns, f.policy, RealOf(d));
    RenderIsPrint(f.expression, columns, f.policy, RealOf(d));
    SqlUnderstands(d, keys, columns);
    TreeReadable(f.expression, columns, f.policy, RealOf(d), Lex(d, keys));
    CastText(Print(tree), TypeText(TargetOf(d, f.outputType)));
    ParsePrint(Cast(tree, TargetOf(d, f.outputType)), Lex(d, keys));
  }

  // ---- meaning preservation ----

  /** The row of field values behind a row of physical columns. */
  function FieldRow(columns: map<string, string>, row: Row): Row {
    map id | id in columns :: if columns[id] in row then row[columns[id]] else None
  }

  /** Both operands are cast to the real type, so the quotient is never truncated. */
  lemma QuotientMeaning(d: Dialect, left: Sql, right: Sql, row: Row)
    ensures var a, b := EvalSql(d, left, row), EvalSql(d, right, row);
      EvalSql(d, Binary(Over, Cast(left, RealOf(d)), Cast(right, RealOf(d))), row)
        == Divide(if d.Sqlite? then NullPolicy else ErrorPolicy, a, b)
  {
    var a, b := EvalSql(d, left, row), EvalSql(d, right, row);
    var t := RealOf(d);
    assert EvalSql(d, Cast(left, t), row) == SqlCast(d, a, t);
    assert EvalSql(d, Cast(right, t), row) == SqlCast(d, b, t);
  }

  lemma GuardMeaning(d: Dialect, left: Sql, right: Sql, row: Row)
    requires !EvalSql(d, left, row).Raised? && !EvalSql(d, right, row).Raised?
    ensures EvalSql(d, CaseZero(right, Binary(Over, Cast(left, RealOf(d)), Cast(right, RealOf(d)))), row)
         == Divide(NullPolicy, EvalSql(d, left, row), EvalSql(d, right, row))
  {
    QuotientMeaning(d, left, right, row);
  }

  /** The tree means what the expression means, where the policy is enforceable. */
  lemma {:induction false} TreeMeaning(e: Expr, columns: map<string, string>, policy: Policy, d: Dialect, row: Row)
    requires Leaves(e) <= columns.Keys
    requires policy.NullPolicy? || d.Postgres? || !ContainsDivision(e)
    ensures EvalSql(d, Tree(e, columns, policy, RealOf(d)), row) == Eval(e, FieldRow(columns, row), policy)
  {
    match e
    case Arith(op, l, r) =>
      TreeMeaning(l, columns, policy, d, row);
      TreeMeaning(r, columns, policy, d, row);
    case Div(l, r) =>
      TreeMeaning(l, columns, policy, d, row);
      TreeMeaning(r, columns, policy, d, row);
      var left, right := Tree(l, columns, policy, RealOf(d)), Tree(r, columns, policy, RealOf(d));
      if policy.NullPolicy? {
        NullPolicyNeverRaises(l, FieldRow(columns, row));
        NullPolicyNeverRaises(r, FieldRow(columns, row));
        GuardMeaning(d, left, right, row);
      } else {
        QuotientMeaning(d, left, right, row);
      }
    case _ =>
  }

  /** Reading the expanded text back and evaluating it gives the cast of the
      expression's meaning, on every row. */
  lemma ExpandedSqlMeaning(f: CalculatedField, dialect: string, columns: map<string, string>, row: Row, d: Dialect, keys: set<string>)
    requires ExpandSql(f, dialect, columns).Ok? && DialectOf(dialect) == Some(d) && Lexical(d, keys, columns)
    requires !ContainsDivision(f.expression) || ZeroDivisionSupported(f.policy, dialect)
    ensures var tree := Parse(ExpandSql(f, dialect, columns).value, Lex(d, keys));
      && tree.Some?
      && EvalSql(d, tree.value, row)
         == SqlCast(d, Eval(f.expression, FieldRow(columns, row), f.policy), TargetOf(d, f.outputType))
  {
    ExpandedTextParses(f, dialect, columns, d, keys);
    TreeMeaning(f.expression, columns, f.policy, d, row);
  }

  /** With the declared type the inference table derives, the outer CAST changes
      nothing: the text means exactly what the expression means. */
  lemma ExpandedSqlIsExact(f: CalculatedField, dialect: string, columns: map<string, string>, row: Row, d: Dialect, keys: set<string>,
                           types: map<string, OutputType>)
    requires ExpandSql(f, dialect, columns).Ok? && DialectOf(dialect) == Some(d) && Lexical(d, keys, columns)
    requires !ContainsDivision(f.expression) || ZeroDivisionSupported(f.policy, dialect)
    requires Leaves(f.expression) <= types.Keys && Typed(FieldRow(columns, row), types)
    requires f.outputType == Infer(f.expression, types)
    ensures var tree := Parse(ExpandSql(f, dialect, columns).value, Lex(d, keys));
      tree.Some? && EvalSql(d, tree.value, row) == Eval(f.expression, FieldRow(columns, row), f.policy)
  {
    ExpandedSqlMeaning(f, dialect, columns, row, d, keys);
    EvalHasType(f.expression, FieldRow(columns, row), f.policy, types);
    CastChangesNothing(d, Eval(f.expression, FieldRow(columns, row), f.policy), f.outputType);
  }

  lemma CastChangesNothing(d: Dialect, o: Outcome, t: OutputType)
    requires HasType(o, t)
    ensures SqlCast(d, o, TargetOf(d, t)) == o
  {
  }

  /** SQLite turns every raised division of the error policy into NULL. */
  lemma {:induction false} SqliteDegrades(e: Expr, columns: map<string, string>, row: Row)
    requires Leaves(e) <= columns.Keys
    ensures var source := Eval(e, FieldRow(columns, row), ErrorPolicy);
      EvalSql(Sqlite, Tree(e, columns, ErrorPolicy, RealName), row) == (if source.Raised? then Null else source)
  {
    match e
    case Arith(op, l, r) =>
      SqliteDegrades(l, columns, row);
      SqliteDegrades(r, columns, row);
    case Div(l, r) =>
      SqliteDegrades(l, columns, row);
      SqliteDegrades(r, columns, row);
      QuotientMeaning(Sqlite, Tree(l, columns, ErrorPolicy, RealName), Tree(r, columns, ErrorPolicy, RealName), row);
    case _ =>
  }

  /** Why the error policy is refused on SQLite: the expansion would agree with the
      expression exactly on the rows where no division has a zero denominator. */
  lemma SqliteErrorPolicyIsUnenforceable(f: CalculatedField, columns: map<string, string>, row: Row, keys: set<string>)
    requires ExpandSql(f, "sqlite", columns).Ok? && Lexical(Sqlite, keys, columns) && f.policy.ErrorPolicy?
    ensures var tree := Parse(ExpandSql(f, "sqlite", columns).value, Lex(Sqlite, keys));
      var source := Eval(f.expression, FieldRow(columns, row), ErrorPolicy);
      && tree.Some?
      && (EvalSql(Sqlite, tree.value, row) == SqlCast(Sqlite, source, TargetOf(Sqlite, f.outputType))
          <==> !DividesByZero(f.expression, FieldRow(columns, row)))
  {
    RaisesIffDividesByZero(f.expression, FieldRow(columns, row));
    ExpandedTextParses(f, "sqlite", columns, Sqlite, keys);
    SqliteDegrades(f.expression, columns, row);
  }

  // ---- exactly the readable columns ----

  /** The expanded text of a calculated field means the field, on every row. */
  ghost predicate MeansField(f: CalculatedField, dialect: string, columns: map<string, string>, d: Dialect, keys: set<string>)
    requires ExpandSql(f, dialect, columns).Ok?
  {
    var tree := Parse(ExpandSql(f, dialect, columns).value, Lex(d, keys));
    && tree.Some?
    && forall row :: EvalSql(d, tree.value, row)
         == SqlCast(d, Eval(f.expression, FieldRow(columns, row), f.policy), TargetOf(d, f.outputType))
  }

  /** The field is expanded, and the dialect can enforce its policy. */
  predicate Compiles(f: CalculatedField, dialect: string, columns: map<string, string>) {
    ExpandSql(f, dialect, columns).Ok? && (!ContainsDivision(f.expression) || ZeroDivisionSupported(f.policy, dialect))
  }

  /** Every field over the columns whose policy the dialect enforces means itself. */
  ghost predicate AllMeanThemselves(dialect: string, columns: map<string, string>, d: Dialect, keys: set<string>) {
    forall f :: Compiles(f, dialect, columns) ==> MeansField(f, dialect, columns, d, keys)
  }

  /** The field that is just one column. */
  function Bare(id: string): CalculatedField { CalculatedField(id, Field(id), IntType, {id}, NullPolicy) }

  lemma BareText(id: string, dialect: string, columns: map<string, string>, d: Dialect, keys: set<string>)
    requires id in columns && DialectOf(dialect) == Some(d) && Word(columns[id])
    ensures ExpandSql(Bare(id), dialect, columns).Ok?
    ensures var w := SqlWord(d, keys, columns[id]);
      Parse(ExpandSql(Bare(id), dialect, columns).value, Lex(d, keys))
      == if w.Some? then Some(Cast(w.value, IntOf(d))) else None
  {
    var w, t := columns[id], TypeText(IntOf(d));
    CastText(w, t);
    WordReads(w, CAST_AS + (t + ")"), Lex(d, keys));
    if SqlWord(d, keys, w).Some? {
      assert t + ")" == t + (")" + "");
      CastStep(w + (CAST_AS + (t + (")" + ""))), SqlWord(d, keys, w).value, IntOf(d), "", Lex(d, keys));
    } else {
      CastFails(w + (CAST_AS + (t + ")")), Lex(d, keys));
    }
  }

  lemma CastFails(s: string, lex: Lexicon)
    requires ReadSql(s, lex).Fail?
    ensures Parse(CAST_OPEN + s, lex) == None
  {
    var u := CAST_OPEN + s;
    assert u[..|CAST_OPEN|] == CAST_OPEN && u[|CAST_OPEN|..] == s;
    Mismatch(CASE_OPEN, u, 0);
    Mismatch("(", u, 0);
    assert ReadSql(u, lex) == ReadCast(u, lex);
  }

  lemma BareFails(id: string, dialect: string, columns: map<string, string>, d: Dialect, keys: set<string>)
    requires id in columns && DialectOf(dialect) == Some(d) && Word(columns[id]) && !IsReference(d, keys, columns[id])
    ensures ExpandSql(Bare(id), dialect, columns).Ok? && !MeansField(Bare(id), dialect, columns, d, keys)
  {
    var w := columns[id];
    BareText(id, dialect, columns, d, keys);
    if SqlWord(d, keys, w).Some? {
      NoReferenceIgnoresColumn(d, keys, w, 1, 2);
      BareTreeFails(id, dialect, columns, d, keys, SqlWord(d, keys, w).value);
    }
  }

  lemma BareTreeFails(id: string, dialect: string, columns: map<string, string>, d: Dialect, keys: set<string>, e: Sql)
    requires id in columns && ExpandSql(Bare(id), dialect, columns).Ok?
    requires Parse(ExpandSql(Bare(id), dialect, columns).value, Lex(d, keys)) == Some(Cast(e, IntOf(d)))
    requires EvalSql(d, e, Single(columns[id], 1)) == EvalSql(d, e, Single(columns[id], 2))
    ensures !MeansField(Bare(id), dialect, columns, d, keys)
  {
    var w, tree := columns[id], Cast(e, IntOf(d));
    assert EvalSql(d, tree, Single(w, 1)) == EvalSql(d, tree, Single(w, 2));
    BareValue(id, columns, w, 1, d);
    BareValue(id, columns, w, 2, d);
  }

  lemma BareValue(id: string, columns: map<string, string>, w: string, n: int, d: Dialect)
    requires id in columns && columns[id] == w
    ensures SqlCast(d, Eval(Field(id), FieldRow(columns, Single(w, n)), NullPolicy), IntOf(d)) == Val(I(n))
  {
  }

  /** The expansion preserves the meaning of every calculated field over some columns
      exactly when SQL reads each of them as one column. */
  lemma MeaningIffLexical(dialect: string, columns: map<string, string>, d: Dialect, keys: set<string>)
    requires DialectOf(dialect) == Some(d) && forall id :: id in columns ==> Word(columns[id])
    ensures AllMeanThemselves(dialect, columns, d, keys) <==> Lexical(d, keys, columns)
  {
    if Lexical(d, keys, columns) {
      forall f | Compiles(f, dialect, columns) ensures MeansField(f, dialect, columns, d, keys) {
        LexicalMeans(f, dialect, columns, d, keys);
      }
    } else {
      var id :| id in columns && !IsReference(d, keys, columns[id]);
      BareFails(id, dialect, columns, d, keys);
      assert Compiles(Bare(id), dialect, columns);
    }
  }

  lemma LexicalMeans(f: CalculatedField, dialect: string, columns: map<string, string>, d: Dialect, keys: set<string>)
    requires Compiles(f, dialect, columns) && DialectOf(dialect) == Some(d) && Lexical(d, keys, columns)
    ensures MeansField(f, dialect, columns, d, keys)
  {
    ExpandedTextParses(f, dialect, columns, d, keys);
    var tree := Cast(Tree(f.expression, columns, f.policy, RealOf(d)), TargetOf(d, f.outputType));
    forall row ensures EvalSql(d, tree, row)
      == SqlCast(d, Eval(f.expression, FieldRow(columns, row), f.policy), TargetOf(d, f.outputType))
    {
      TreeMeaning(f.expression, columns, f.policy, d, row);
    }
  }

  // ---- distinct trees, distinct texts ----

  lemma {:induction false} TreeInjective(a: Expr, b: Expr, columns: map<string, string>, policy: Policy, t: SqlType)
    requires Leaves(a) <= columns.Keys && Leaves(b) <= columns.Keys
    requires forall x, y :: x in columns && y in columns && columns[x] == columns[y] ==> x == y
    requires Tree(a, columns, policy, t) == Tree(b, columns, policy, t)
    ensures a == b
  {
    match a
    case Arith(op, l, r) =>
      TreeInjective(l, b.left, columns, policy, t);
      TreeInjective(r, b.right, columns, policy, t);
    case Div(l, r) =>
      TreeInjective(l, b.left, columns, policy, t);
      TreeInjective(r, b.right, columns, policy, t);
    case _ =>
  }

  ghost predicate Unambiguous(columns: map<string, string>, policy: Policy, t: SqlType) {
    forall a, b ::
      (&& Leaves(a) <= columns.Keys && Leaves(b) <= columns.Keys
       && Render(a, columns, policy, TypeText(t)) == Render(b, columns, policy, TypeText(t))) ==> a == b
  }

  lemma AnyUnderstands(columns: map<string, string>)
    requires forall id :: id in columns ==> Word(columns[id]) && !IsIntWord(columns[id])
    ensures Understands(AnyWord, columns)
  {
    forall n ensures Word(IntText(n)) && AnyWord(IntText(n)) == Some(Literal(n)) { ParseIntText(n); }
  }

  /** A column written like an integer has the text of that constant. */
  lemma NumericColumnCollides(columns: map<string, string>, policy: Policy, t: SqlType, id: string)
    requires id in columns && IsIntWord(columns[id])
    ensures !Unambiguous(columns, policy, t)
  {
    var a, b := Field(id), Const(ParseInt(columns[id]));
    assert Render(a, columns, policy, TypeText(t)) == Render(b, columns, policy, TypeText(t)) && a != b;
  }

  /** Distinct expressions have distinct texts exactly when the columns are
      distinct and none of them is written like an integer.  The identifier
      pattern admits such a column: a column named `7` reads like the constant. */
  lemma TextsIdentifyTrees(columns: map<string, string>, policy: Policy, t: SqlType)
    requires forall id :: id in columns ==> Word(columns[id])
    ensures Unambiguous(columns, policy, t) <==>
      && (forall x, y :: x in columns && y in columns && columns[x] == columns[y] ==> x == y)
      && (forall x :: x in columns ==> !IsIntWord(columns[x]))
  {
    if Unambiguous(columns, policy, t) {
      forall x, y | x in columns && y in columns && columns[x] == columns[y] ensures x == y {
        assert Render(Field(x), columns, policy, TypeText(t)) == Render(Field(y), columns, policy, TypeText(t));
      }
      forall x | x in columns ensures !IsIntWord(columns[x]) {
        if IsIntWord(columns[x]) { NumericColumnCollides(columns, policy, t, x); }
      }
    }
    if (forall x, y :: x in columns && y in columns && columns[x] == columns[y] ==> x == y)
       && (forall x :: x in columns ==> !IsIntWord(columns[x])) {
      forall a, b | Leaves(a) <= columns.Keys && Leaves(b) <= columns.Keys
        && Render(a, columns, policy, TypeText(t)) == Render(b, columns, policy, TypeText(t))
        ensures a == b
      {
        RenderIsPrint(a, columns, policy, t);
        RenderIsPrint(b, columns, policy, t);
        AnyUnderstands(columns);
        TreeReadable(a, columns, policy, t, AnyWord);
        TreeReadable(b, columns, policy, t, AnyWord);
        ParsePrint(Tree(a, columns, policy, t), AnyWord);
        ParsePrint(Tree(b, columns, policy, t), AnyWord);
        TreeInjective(a, b, columns, policy, t);
      }
    }
  }
}
