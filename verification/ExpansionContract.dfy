/** What the expanders accept, exactly, and the texts and documents that they give. */
module ExpansionContract {
  import opened Options
  import opened Numerals
  import opened CalculatedFields
  import opened SqlText
  import opened SqlLexicon
  import opened Expansion
  import opened MongoExpansion

  // ---- positions in an expression ----

  datatype Side = Left | Right

  /** The subexpression that a path of sides leads to. */
  function At(e: Expr, path: seq<Side>): Option<Expr>
    decreases |path|
  {
    if path == [] then Some(e)
    else if e.Arith? || e.Div? then At(if path[0].Left? then e.left else e.right, path[1..])
    else None
  }

  lemma AtCons(e: Expr, side: Side, path: seq<Side>)
    requires e.Arith? || e.Div?
    ensures At(e, [side] + path) == At(if side.Left? then e.left else e.right, path)
  {
    assert ([side] + path)[1..] == path;
  }

  ghost predicate Holds(e: Expr, x: Expr) { exists path :: At(e, path) == Some(x) }

  /** A subexpression is the whole or sits in a side. */
  lemma HoldsIff(e: Expr, x: Expr)
    ensures Holds(e, x) <==> x == e || ((e.Arith? || e.Div?) && (Holds(e.left, x) || Holds(e.right, x)))
  {
    if x == e { assert At(e, []) == Some(x); }
    if path: seq<Side> :| At(e, path) == Some(x) {
      if path != [] {
        assert At(if path[0].Left? then e.left else e.right, path[1..]) == Some(x);
      }
    }
    if e.Arith? || e.Div? {
      if path :| At(e.left, path) == Some(x) {
        AtCons(e, Left, path);
        assert At(e, [Left] + path) == Some(x);
      }
      if path :| At(e.right, path) == Some(x) {
        AtCons(e, Right, path);
        assert At(e, [Right] + path) == Some(x);
      }
    }
  }

  /** A division is contained exactly when some position holds one. */
  lemma {:induction false} ContainsDivisionIff(e: Expr)
    ensures ContainsDivision(e) <==> exists l, r :: Holds(e, Div(l, r))
  {
    forall l, r ensures Holds(e, Div(l, r)) <==>
      Div(l, r) == e || ((e.Arith? || e.Div?) && (Holds(e.left, Div(l, r)) || Holds(e.right, Div(l, r))))
    {
      HoldsIff(e, Div(l, r));
    }
    if e.Arith? {
      ContainsDivisionIff(e.left);
      ContainsDivisionIff(e.right);
    } else if e.Div? {
      assert Holds(e, Div(e.left, e.right));
    }
  }

  /** The leaves are exactly the fields at some position. */
  lemma {:induction false} LeavesIff(e: Expr, id: string)
    ensures id in Leaves(e) <==> Holds(e, Field(id))
  {
    HoldsIff(e, Field(id));
    if e.Arith? || e.Div? {
      LeavesIff(e.left, id);
      LeavesIff(e.right, id);
    }
  }

  /** A position that makes the result a float. */
  predicate FloatSource(x: Expr, types: map<string, OutputType>) {
    x.Div? || (x.Field? && x.id in types && types[x.id].FloatType?)
  }

  /** The inferred type is float exactly when some position holds a division or a float
      field. */
  lemma {:induction false} InferIff(e: Expr, types: map<string, OutputType>)
    requires Leaves(e) <= types.Keys
    ensures Infer(e, types).FloatType? <==> exists x :: Holds(e, x) && FloatSource(x, types)
  {
    forall x ensures Holds(e, x) <==> x == e || ((e.Arith? || e.Div?) && (Holds(e.left, x) || Holds(e.right, x))) {
      HoldsIff(e, x);
    }
    if e.Arith? {
      InferIff(e.left, types);
      InferIff(e.right, types);
    } else {
      assert FloatSource(e, types) ==> Holds(e, e);
    }
  }

  /** The depth is a bound on paths, and the smallest one. */
  lemma {:induction false} DepthBounds(e: Expr, path: seq<Side>)
    requires At(e, path).Some?
    ensures |path| < Depth(e)
  {
    if path != [] { DepthBounds(if path[0].Left? then e.left else e.right, path[1..]); }
  }

  lemma {:induction false} DeepestPath(e: Expr) returns (path: seq<Side>)
    ensures At(e, path).Some? && |path| + 1 == Depth(e)
  {
    if e.Field? || e.Const? {
      path := [];
    } else if Depth(e.left) >= Depth(e.right) {
      var rest := DeepestPath(e.left);
      AtCons(e, Left, rest);
      path := [Left] + rest;
    } else {
      var rest := DeepestPath(e.right);
      AtCons(e, Right, rest);
      path := [Right] + rest;
    }
  }

  ghost predicate NoDeeperThan(e: Expr, n: nat) { forall path :: At(e, path).Some? ==> |path| < n }

  lemma DepthIff(e: Expr, n: nat)
    ensures Depth(e) <= n <==> NoDeeperThan(e, n)
  {
    if Depth(e) <= n {
      forall path | At(e, path).Some? ensures |path| < n { DepthBounds(e, path); }
    } else {
      var path := DeepestPath(e);
      assert At(e, path).Some?;
    }
  }

  /** The subexpressions in the order of the text. */
  function Listed(e: Expr): seq<Expr> {
    if e.Arith? || e.Div? then [e] + Listed(e.left) + Listed(e.right) else [e]
  }

  lemma {:induction false} NodesAreListed(e: Expr)
    ensures Nodes(e) == |Listed(e)|
    ensures forall x :: x in Listed(e) <==> Holds(e, x)
  {
    forall x ensures Holds(e, x) <==> x == e || ((e.Arith? || e.Div?) && (Holds(e.left, x) || Holds(e.right, x))) {
      HoldsIff(e, x);
    }
    if e.Arith? || e.Div? {
      NodesAreListed(e.left);
      NodesAreListed(e.right);
    }
  }

  // ---- acceptance ----

  /** A definition that passes re-validation: at most 16 levels and 64 nodes, and it
      declares exactly the fields that it reads. */
  ghost predicate WellDefined(f: CalculatedField) {
    && NoDeeperThan(f.expression, 16) && |Listed(f.expression)| <= 64
    && forall id :: id in f.needs <==> Holds(f.expression, Field(id))
  }

  lemma ValidIff(f: CalculatedField)
    ensures Valid(f) <==> WellDefined(f)
  {
    DepthIff(f.expression, 16);
    NodesAreListed(f.expression);
    forall id ensures id in Leaves(f.expression) <==> Holds(f.expression, Field(id)) { LeavesIff(f.expression, id); }
  }

  ghost predicate Bound(f: CalculatedField, columns: map<string, string>) {
    forall id :: Holds(f.expression, Field(id)) ==> id in columns
  }

  lemma BoundIff(f: CalculatedField, columns: map<string, string>)
    ensures Leaves(f.expression) <= columns.Keys <==> Bound(f, columns)
  {
    forall id ensures id in Leaves(f.expression) <==> Holds(f.expression, Field(id)) { LeavesIff(f.expression, id); }
  }

  /** The SQL expander refuses in this order and accepts everything else. */
  lemma SqlAnswers(f: CalculatedField, dialect: string, columns: map<string, string>)
    ensures var r := ExpandSql(f, dialect, columns);
      if !WellDefined(f) then r == Err(Rejected)
      else if dialect != "sqlite" && dialect != "postgres" && dialect != "postgresql" then r == Err(UnsupportedDialect)
      else if !Bound(f, columns) then r == Err(UnboundLeaf)
      else r.Ok?
  {
    ValidIff(f);
    BoundIff(f, columns);
  }

  /** So does the MongoDB expander. */
  lemma MongoAnswers(f: CalculatedField, names: map<string, string>)
    ensures var r := ExpandMongo(f, names);
      if !WellDefined(f) then r == Err(Rejected) else if !Bound(f, names) then r == Err(UnboundLeaf) else r.Ok?
  {
    ValidIff(f);
    BoundIff(f, names);
  }

  // ---- policies ----

  /** Every field with the policy means itself over readable columns. */
  ghost predicate Enforced(policy: Policy, dialect: string, d: Dialect, keys: set<string>) {
    forall f, columns | Lexical(d, keys, columns) ::
      ExpandSql(f, dialect, columns).Ok? && f.policy == policy ==> MeansField(f, dialect, columns, d, keys)
  }

  /** One divided by zero. */
  function OneByZero(policy: Policy): CalculatedField {
    CalculatedField("q", Div(Const(1), Const(0)), FloatType, {}, policy)
  }

  lemma SqliteHidesZero(keys: set<string>)
    ensures ExpandSql(OneByZero(ErrorPolicy), "sqlite", map[]).Ok?
    ensures !MeansField(OneByZero(ErrorPolicy), "sqlite", map[], Sqlite, keys)
  {
    var f := OneByZero(ErrorPolicy);
    assert Leaves(f.expression) == {};
    assert Lexical(Sqlite, keys, map[]);
    SqliteErrorPolicyIsUnenforceable(f, map[], map[], keys);
    assert IsZero(I(0));
    assert DividesByZero(f.expression, FieldRow(map[], map[]));
  }

  /** A policy is supported on an SQL dialect exactly when the dialect enforces it: every
      field with the policy means itself on every row. */
  lemma SupportedIff(policy: Policy, dialect: string, d: Dialect, keys: set<string>)
    requires DialectOf(dialect) == Some(d)
    ensures ZeroDivisionSupported(policy, dialect) <==> Enforced(policy, dialect, d, keys)
  {
    if ZeroDivisionSupported(policy, dialect) {
      forall f, columns | Lexical(d, keys, columns) && ExpandSql(f, dialect, columns).Ok? && f.policy == policy
        ensures MeansField(f, dialect, columns, d, keys)
      {
        LexicalMeans(f, dialect, columns, d, keys);
      }
    } else {
      SqliteHidesZero(keys);
      assert d.Sqlite? && dialect == "sqlite" && policy.ErrorPolicy?;
      assert Lexical(d, keys, map[]);
      assert !MeansField(OneByZero(ErrorPolicy), dialect, map[], d, keys);
    }
  }

  /** The backends that enforce the error policy; every backend enforces the null policy. */
  lemma SupportedBackends(policy: Policy, backend: string)
    ensures ZeroDivisionSupported(policy, backend) <==>
      policy.NullPolicy? || backend == "postgres" || backend == "postgresql" || backend == "mongodb"
  {
  }

  // ---- the texts ----

  function Over2(e: Expr, t: OutputType, policy: Policy): CalculatedField { CalculatedField("f", e, t, {"x", "y"}, policy) }

  function Columns(x: string, y: string): map<string, string> { map["x" := x, "y" := y] }

  lemma Over2Valid(e: Expr, t: OutputType, policy: Policy)
    requires e == Div(Field("x"), Field("y")) || exists op :: e == Arith(op, Field("x"), Field("y"))
    ensures Valid(Over2(e, t, policy)) && Leaves(e) == {"x", "y"}
  {
  }

  lemma ColumnsBound(x: string, y: string)
    ensures Columns(x, y).Keys == {"x", "y"} && Columns(x, y)["x"] == x && Columns(x, y)["y"] == y
  {
  }

  lemma TextOf(e: Expr, t: OutputType, policy: Policy, dialect: string, d: Dialect, x: string, y: string, body: string)
    requires Valid(Over2(e, t, policy)) && Leaves(e) == {"x", "y"} && DialectOf(dialect) == Some(d)
    requires Leaves(e) <= Columns(x, y).Keys && Render(e, Columns(x, y), policy, TypeText(RealOf(d))) == body
    ensures ExpandSql(Over2(e, t, policy), dialect, Columns(x, y)) == Ok("CAST(" + body + " AS " + TypeText(TargetOf(d, t)) + ")")
  {
  }

  lemma ArithmeticBody(op: Op, x: string, y: string, policy: Policy, t: string)
    ensures Leaves(Arith(op, Field("x"), Field("y"))) <= Columns(x, y).Keys
    ensures Render(Arith(op, Field("x"), Field("y")), Columns(x, y), policy, t) == "(" + x + " " + Symbol(op) + " " + y + ")"
  {
    ColumnsBound(x, y);
  }

  lemma ArithmeticText(op: Op, t: OutputType, policy: Policy, dialect: string, d: Dialect, x: string, y: string)
    requires DialectOf(dialect) == Some(d)
    ensures ExpandSql(Over2(Arith(op, Field("x"), Field("y")), t, policy), dialect, Columns(x, y))
         == Ok("CAST(" + ("(" + x + " " + Symbol(op) + " " + y + ")") + " AS " + TypeText(TargetOf(d, t)) + ")")
  {
    Over2Valid(Arith(op, Field("x"), Field("y")), t, policy);
    ArithmeticBody(op, x, y, policy, TypeText(RealOf(d)));
    TextOf(Arith(op, Field("x"), Field("y")), t, policy, dialect, d, x, y, "(" + x + " " + Symbol(op) + " " + y + ")");
  }

  /** Arithmetic is parenthesized and cast to the dialect's name of the output type. */
  lemma ArithmeticTexts(x: string, y: string)
    ensures ExpandSql(Over2(Arith(Add, Field("x"), Field("y")), IntType, NullPolicy), "sqlite", Columns(x, y))
         == Ok("CAST(" + ("(" + x + " " + "+" + " " + y + ")") + " AS " + "INTEGER" + ")")
    ensures ExpandSql(Over2(Arith(Sub, Field("x"), Field("y")), FloatType, NullPolicy), "sqlite", Columns(x, y))
         == Ok("CAST(" + ("(" + x + " " + "-" + " " + y + ")") + " AS " + "REAL" + ")")
    ensures ExpandSql(Over2(Arith(Mul, Field("x"), Field("y")), IntType, ErrorPolicy), "postgres", Columns(x, y))
         == Ok("CAST(" + ("(" + x + " " + "*" + " " + y + ")") + " AS " + "BIGINT" + ")")
    ensures ExpandSql(Over2(Arith(Sub, Field("x"), Field("y")), FloatType, ErrorPolicy), "postgresql", Columns(x, y))
         == Ok("CAST(" + ("(" + x + " " + "-" + " " + y + ")") + " AS " + "DOUBLE PRECISION" + ")")
  {
    ArithmeticText(Add, IntType, NullPolicy, "sqlite", Sqlite, x, y);
    ArithmeticText(Sub, FloatType, NullPolicy, "sqlite", Sqlite, x, y);
    ArithmeticText(Mul, IntType, ErrorPolicy, "postgres", Postgres, x, y);
    ArithmeticText(Sub, FloatType, ErrorPolicy, "postgresql", Postgres, x, y);
  }

  /** Both operands of a quotient, cast to a type. */
  function QuotientOf(x: string, y: string, t: string): string {
    "(CAST(" + x + " AS " + t + ") / CAST(" + y + " AS " + t + "))"
  }

  lemma DivisionBody(x: string, y: string, t: string)
    ensures Leaves(Div(Field("x"), Field("y"))) <= Columns(x, y).Keys
    ensures Render(Div(Field("x"), Field("y")), Columns(x, y), ErrorPolicy, t) == QuotientOf(x, y, t)
    ensures Render(Div(Field("x"), Field("y")), Columns(x, y), NullPolicy, t)
         == "(CASE WHEN (" + y + ") = 0 THEN NULL " + "ELSE " + QuotientOf(x, y, t) + " END)"
  {
    ColumnsBound(x, y);
  }

  /** A division casts both operands to the dialect's real type, and the null policy
      guards it. */
  lemma DivisionTexts(x: string, y: string)
    ensures ExpandSql(Over2(Div(Field("x"), Field("y")), FloatType, NullPolicy), "sqlite", Columns(x, y))
         == Ok("CAST(" + ("(CASE WHEN (" + y + ") = 0 THEN NULL " + "ELSE " + QuotientOf(x, y, "REAL") + " END)") + " AS " + "REAL" + ")")
    ensures ExpandSql(Over2(Div(Field("x"), Field("y")), FloatType, ErrorPolicy), "postgresql", Columns(x, y))
         == Ok("CAST(" + QuotientOf(x, y, "DOUBLE PRECISION") + " AS " + "DOUBLE PRECISION" + ")")
  {
    var e := Div(Field("x"), Field("y"));
    Over2Valid(e, FloatType, NullPolicy);
    Over2Valid(e, FloatType, ErrorPolicy);
    DivisionBody(x, y, "REAL");
    DivisionBody(x, y, "DOUBLE PRECISION");
    TextOf(e, FloatType, NullPolicy, "sqlite", Sqlite, x, y, "(CASE WHEN (" + y + ") = 0 THEN NULL " + "ELSE " + QuotientOf(x, y, "REAL") + " END)");
    TextOf(e, FloatType, ErrorPolicy, "postgresql", Postgres, x, y, QuotientOf(x, y, "DOUBLE PRECISION"));
  }

  /** The documents for MongoDB. */
  lemma MongoDocuments(x: string, y: string)
    ensures ExpandMongo(Over2(Arith(Sub, Field("x"), Field("y")), IntType, NullPolicy), Columns(x, y))
         == Ok(MDoc("$toLong", [MDoc("$subtract", [MText("$" + x), MText("$" + y)])]))
    ensures ExpandMongo(Over2(Div(Field("x"), Field("y")), FloatType, ErrorPolicy), Columns(x, y))
         == Ok(MDoc("$toDouble", [MDoc("$divide", [MText("$" + x), MText("$" + y)])]))
    ensures ExpandMongo(Over2(Div(Field("x"), Field("y")), FloatType, NullPolicy), Columns(x, y))
         == Ok(MDoc("$toDouble", [MDoc("$cond", [MDoc("$eq", [MText("$" + y), MInt(0)]), MNull,
                                                   MDoc("$divide", [MText("$" + x), MText("$" + y)])])]))
  {
    ColumnsBound(x, y);
    FieldPaths(x, y, NullPolicy);
    FieldPaths(x, y, ErrorPolicy);
    Over2Valid(Arith(Sub, Field("x"), Field("y")), IntType, NullPolicy);
    Over2Valid(Div(Field("x"), Field("y")), FloatType, ErrorPolicy);
    Over2Valid(Div(Field("x"), Field("y")), FloatType, NullPolicy);
  }

  lemma FieldPaths(x: string, y: string, policy: Policy)
    ensures Leaves(Div(Field("x"), Field("y"))) <= Columns(x, y).Keys
    ensures var left, right := MText("$" + x), MText("$" + y);
      Expanded(Div(Field("x"), Field("y")), Columns(x, y), policy)
      == if policy.NullPolicy? then MDoc("$cond", [MDoc("$eq", [right, MInt(0)]), MNull, MDoc("$divide", [left, right])])
         else MDoc("$divide", [left, right])
  {
    ColumnsBound(x, y);
    assert Expanded(Field("x"), Columns(x, y), policy) == MText("$" + x);
    assert Expanded(Field("y"), Columns(x, y), policy) == MText("$" + y);
  }
}
