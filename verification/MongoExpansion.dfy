/** Expansion of calculated fields into MongoDB aggregation expressions. */
module MongoExpansion {
  import opened Options
  import opened CalculatedFields
  import opened SqlText
  import opened SqlLexicon
  import opened Expansion

  /** An aggregation expression: null, an integer, a string (a field path when it
      starts with a dollar sign), or an operator applied to operands. */
  datatype Mql = MNull | MInt(n: int) | MText(s: string) | MDoc(op: string, args: seq<Mql>)

  datatype MValue = NullValue | BoolValue(b: bool) | NumValue(n: Number) | TextValue(s: string)

  datatype MResult = MRaised | MVal(v: MValue)

  function MqlSymbol(op: Op): string {
    match op case Add => "$add" case Sub => "$subtract" case Mul => "$multiply"
  }

  function Expanded(e: Expr, names: map<string, string>, policy: Policy): Mql
    requires Leaves(e) <= names.Keys
  {
    match e
    case Field(id) => MText("$" + names[id])
    case Const(n) => MInt(n)
    case Arith(op, l, r) => MDoc(MqlSymbol(op), [Expanded(l, names, policy), Expanded(r, names, policy)])
    case Div(l, r) =>
      var left, right := Expanded(l, names, policy), Expanded(r, names, policy);
      var quotient := MDoc("$divide", [left, right]);
      if policy.NullPolicy? then MDoc("$cond", [MDoc("$eq", [right, MInt(0)]), MNull, quotient]) else quotient
  }

  function ExpandMongo(f: CalculatedField, names: map<string, string>): Result<Mql, Failure> {
    if !Valid(f) then Err(Rejected)
    else if !(Leaves(f.expression) <= names.Keys) then Err(UnboundLeaf)
    else Ok(MDoc(if f.outputType.IntType? then "$toLong" else "$toDouble",
                 [Expanded(f.expression, names, f.policy)]))
  }

  // ---- meaning ----

  /** Numbers compare by value across types; null equals only null. */
  function MEqual(a: MValue, b: MValue): bool {
    if a.NumValue? && b.NumValue? then ToReal(a.n) == ToReal(b.n) else a == b
  }

  function Truthy(v: MValue): bool {
    match v
    case NullValue => false
    case BoolValue(b) => b
    case NumValue(n) => !IsZero(n)
    case TextValue(_) => true
  }

  /** Operators on two evaluated operands; `$divide` raises on zero and always
      yields a double. */
  function Apply2(op: string, a: MValue, b: MValue): MResult {
    if op == "$eq" then MVal(BoolValue(MEqual(a, b)))
    else if a.NullValue? || b.NullValue? then MVal(NullValue)
    else if !a.NumValue? || !b.NumValue? then MRaised
    else if op == "$add" then MVal(NumValue(Compute(Add, a.n, b.n)))
    else if op == "$subtract" then MVal(NumValue(Compute(Sub, a.n, b.n)))
    else if op == "$multiply" then MVal(NumValue(Compute(Mul, a.n, b.n)))
    else if op == "$divide" then
      if IsZero(b.n) then MRaised else MVal(NumValue(F(ToReal(a.n) / ToReal(b.n))))
    else MRaised
  }

  function Apply1(op: string, a: MValue): MResult {
    if a.NullValue? then MVal(NullValue)
    else if !a.NumValue? then MRaised
    else if op == "$toDouble" then MVal(NumValue(F(ToReal(a.n))))
    else if op == "$toLong" then MVal(NumValue(if a.n.I? then a.n else I(Truncate(a.n.f))))
    else MRaised
  }

  function EvalMongo(m: Mql, doc: Row): MResult {
    match m
    case MNull => MVal(NullValue)
    case MInt(n) => MVal(NumValue(I(n)))
    case MText(s) =>
      if s != "" && s[0] == '$' then MVal(FromCell(Lookup(doc, s[1..]))) else MVal(TextValue(s))
    case MDoc(op, args) =>
      if |args| == 1 then
        var a := EvalMongo(args[0], doc);
        if a.MRaised? then MRaised else Apply1(op, a.v)
      else if |args| == 2 then
        var a, b := EvalMongo(args[0], doc), EvalMongo(args[1], doc);
        if a.MRaised? || b.MRaised? then MRaised else Apply2(op, a.v, b.v)
      else if |args| == 3 && op == "$cond" then
        var c := EvalMongo(args[0], doc);
        if c.MRaised? then MRaised
        else if Truthy(c.v) then EvalMongo(args[1], doc)
        else EvalMongo(args[2], doc)
      else MRaised
  }

  function FromCell(o: Outcome): MValue { if o.Val? then NumValue(o.n) else NullValue }

  /** A result of the calculated-field language as MongoDB presents it. */
  function AsMongo(o: Outcome): MResult {
    if o.Raised? then MRaised else MVal(FromCell(o))
  }

  function MongoCast(o: Outcome, t: OutputType): Outcome {
    if !o.Val? then o
    else if t.FloatType? then Val(F(ToReal(o.n)))
    else if o.n.I? then o
    else Val(I(Truncate(o.n.f)))
  }

  lemma Eval2(op: string, left: Mql, right: Mql, doc: Row)
    ensures var a, b := EvalMongo(left, doc), EvalMongo(right, doc);
      EvalMongo(MDoc(op, [left, right]), doc)
        == (if a.MRaised? || b.MRaised? then MRaised else Apply2(op, a.v, b.v))
  {
    assert [left, right][0] == left && [left, right][1] == right;
  }

  lemma EvalCond(test: Mql, otherwise: Mql, doc: Row, b: bool)
    requires EvalMongo(test, doc) == MVal(BoolValue(b))
    ensures EvalMongo(MDoc("$cond", [test, MNull, otherwise]), doc)
         == (if b then MVal(NullValue) else EvalMongo(otherwise, doc))
  {
    var args := [test, MNull, otherwise];
    assert args[0] == test && args[1] == MNull && args[2] == otherwise;
    assert EvalMongo(MNull, doc) == MVal(NullValue);
  }

  /** Arithmetic on presented operands is arithmetic on the outcomes. */
  lemma ArithMeaning(op: Op, left: Mql, right: Mql, doc: Row, a: Outcome, b: Outcome)
    requires EvalMongo(left, doc) == AsMongo(a) && EvalMongo(right, doc) == AsMongo(b)
    ensures EvalMongo(MDoc(MqlSymbol(op), [left, right]), doc) == AsMongo(Strict(op, a, b))
  {
    Eval2(MqlSymbol(op), left, right, doc);
  }

  lemma DivideMeaning(left: Mql, right: Mql, doc: Row, a: Outcome, b: Outcome)
    requires EvalMongo(left, doc) == AsMongo(a) && EvalMongo(right, doc) == AsMongo(b)
    ensures EvalMongo(MDoc("$divide", [left, right]), doc) == AsMongo(Divide(ErrorPolicy, a, b))
  {
    Eval2("$divide", left, right, doc);
  }

  lemma GuardedMeaning(left: Mql, right: Mql, doc: Row, a: Outcome, b: Outcome)
    requires EvalMongo(left, doc) == AsMongo(a) && EvalMongo(right, doc) == AsMongo(b)
    requires !a.Raised? && !b.Raised?
    ensures EvalMongo(MDoc("$cond", [MDoc("$eq", [right, MInt(0)]), MNull, MDoc("$divide", [left, right])]), doc)
         == AsMongo(Divide(NullPolicy, a, b))
  {
    Eval2("$eq", right, MInt(0), doc);
    assert EvalMongo(MInt(0), doc) == MVal(NumValue(I(0)));
    DivideMeaning(left, right, doc, a, b);
    EvalCond(MDoc("$eq", [right, MInt(0)]), MDoc("$divide", [left, right]), doc, b.Val? && IsZero(b.n));
  }

  lemma {:induction false} ExpandedMeaning(e: Expr, names: map<string, string>, policy: Policy, doc: Row)
    requires Leaves(e) <= names.Keys
    ensures EvalMongo(Expanded(e, names, policy), doc) == AsMongo(Eval(e, FieldRow(names, doc), policy))
  {
    var row := FieldRow(names, doc);
    match e
    case Field(id) =>
      assert ("$" + names[id])[1..] == names[id];
    case Const(_) =>
    case Arith(op, l, r) =>
      ExpandedMeaning(l, names, policy, doc);
      ExpandedMeaning(r, names, policy, doc);
      ArithMeaning(op, Expanded(l, names, policy), Expanded(r, names, policy), doc, Eval(l, row, policy), Eval(r, row, policy));
    case Div(l, r) =>
      ExpandedMeaning(l, names, policy, doc);
      ExpandedMeaning(r, names, policy, doc);
      var left, right := Expanded(l, names, policy), Expanded(r, names, policy);
      var a, b := Eval(l, row, policy), Eval(r, row, policy);
      if policy.NullPolicy? {
        NullPolicyNeverRaises(l, row);
        NullPolicyNeverRaises(r, row);
        GuardedMeaning(left, right, doc, a, b);
      } else {
        DivideMeaning(left, right, doc, a, b);
      }
  }

  /** The MongoDB expansion means the expression, converted to the output type;
      both policies are enforceable. */
  lemma ExpandedMongoMeaning(f: CalculatedField, names: map<string, string>, doc: Row)
    requires ExpandMongo(f, names).Ok?
    ensures ZeroDivisionSupported(f.policy, "mongodb")
    ensures EvalMongo(ExpandMongo(f, names).value, doc)
         == AsMongo(MongoCast(Eval(f.expression, FieldRow(names, doc), f.policy), f.outputType))
  {
    ExpandedMeaning(f.expression, names, f.policy, doc);
  }

  /** The SQL text and the MongoDB expression of one calculated field denote the
      same result on every row that holds the same field values. */
  lemma BackendsAgree(f: CalculatedField, dialect: string, d: Dialect, keys: set<string>,
                      columns: map<string, string>, row: Row,
                      names: map<string, string>, doc: Row, types: map<string, OutputType>)
    requires ExpandSql(f, dialect, columns).Ok? && DialectOf(dialect) == Some(d) && Lexical(d, keys, columns)
    requires ExpandMongo(f, names).Ok?
    requires !ContainsDivision(f.expression) || ZeroDivisionSupported(f.policy, dialect)
    requires FieldRow(columns, row) == FieldRow(names, doc)
    requires Leaves(f.expression) <= types.Keys && Typed(FieldRow(columns, row), types)
    requires f.outputType == Infer(f.expression, types)
    ensures var tree := Parse(ExpandSql(f, dialect, columns).value, Lex(d, keys));
      tree.Some? && EvalMongo(ExpandMongo(f, names).value, doc) == AsMongo(EvalSql(d, tree.value, row))
  {
    ExpandedSqlIsExact(f, dialect, columns, row, d, keys, types);
    ExpandedMongoMeaning(f, names, doc);
    EvalHasType(f.expression, FieldRow(columns, row), f.policy, types);
    ConversionChangesNothing(Eval(f.expression, FieldRow(columns, row), f.policy), f.outputType);
  }

  lemma ConversionChangesNothing(o: Outcome, t: OutputType)
    requires HasType(o, t)
    ensures MongoCast(o, t) == o
  {
  }
}
