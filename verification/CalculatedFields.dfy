/** Calculated-field expressions, their types and their meaning over rows with
    NULLs, in exact arithmetic. */
module CalculatedFields {
  import opened Options

  datatype Op = Add | Sub | Mul

  datatype Expr =
    | Field(id: string)
    | Const(n: int)
    | Arith(op: Op, left: Expr, right: Expr)
    | Div(left: Expr, right: Expr)

  datatype OutputType = IntType | FloatType

  /** What a division by zero yields: NULL, or a failed execution. */
  datatype Policy = NullPolicy | ErrorPolicy

  datatype CalculatedField = CalculatedField(
    name: string, expression: Expr, outputType: OutputType, needs: set<string>, policy: Policy)

  const MAX_DEPTH := 16
  const MAX_NODES := 64

  function Max(a: nat, b: nat): nat { if a > b then a else b }

  function Depth(e: Expr): nat {
    match e
    case Field(_) => 1
    case Const(_) => 1
    case Arith(_, l, r) => 1 + Max(Depth(l), Depth(r))
    case Div(l, r) => 1 + Max(Depth(l), Depth(r))
  }

  function Nodes(e: Expr): nat {
    match e
    case Field(_) => 1
    case Const(_) => 1
    case Arith(_, l, r) => 1 + Nodes(l) + Nodes(r)
    case Div(l, r) => 1 + Nodes(l) + Nodes(r)
  }

  function Leaves(e: Expr): set<string> {
    match e
    case Field(id) => {id}
    case Const(_) => {}
    case Arith(_, l, r) => Leaves(l) + Leaves(r)
    case Div(l, r) => Leaves(l) + Leaves(r)
  }

  predicate ContainsDivision(e: Expr) {
    match e
    case Field(_) => false
    case Const(_) => false
    case Arith(_, l, r) => ContainsDivision(l) || ContainsDivision(r)
    case Div(_, _) => true
  }

  /** The re-validation before expansion: bounds and the exact `requires` set. */
  predicate Valid(f: CalculatedField) {
    Depth(f.expression) <= MAX_DEPTH && Nodes(f.expression) <= MAX_NODES && f.needs == Leaves(f.expression)
  }

  // ---- values ----

  datatype Number = I(i: int) | F(f: real)

  datatype Outcome = Raised | Null | Val(n: Number)

  /** A row: a missing column and a NULL are the same. */
  type Row = map<string, Option<Number>>

  function Lookup(row: Row, name: string): Outcome {
    if name in row && row[name].Some? then Val(row[name].value) else Null
  }

  function ToReal(n: Number): real { if n.I? then n.i as real else n.f }

  function IsZero(n: Number): bool { ToReal(n) == 0.0 }

  /** Integer operands stay integers; a float operand makes the result a float. */
  function Compute(op: Op, a: Number, b: Number): Number {
    if a.I? && b.I? then
      I(match op case Add => a.i + b.i case Sub => a.i - b.i case Mul => a.i * b.i)
    else
      var x, y := ToReal(a), ToReal(b);
      F(match op case Add => x + y case Sub => x - y case Mul => x * y)
  }

  /** The strict lifting of `Compute`: a raised operand raises, a NULL operand
      gives NULL. */
  function Strict(op: Op, a: Outcome, b: Outcome): Outcome {
    if a.Raised? || b.Raised? then Raised
    else if a.Null? || b.Null? then Null
    else Val(Compute(op, a.n, b.n))
  }

  /** Real division under a policy for zero denominators. */
  function Divide(policy: Policy, a: Outcome, b: Outcome): Outcome {
    if a.Raised? || b.Raised? then Raised
    else if a.Null? || b.Null? then Null
    else if IsZero(b.n) then (if policy.NullPolicy? then Null else Raised)
    else Val(F(ToReal(a.n) / ToReal(b.n)))
  }

  /** What a calculated field means on a row. */
  function Eval(e: Expr, row: Row, policy: Policy): Outcome {
    match e
    case Field(id) => Lookup(row, id)
    case Const(n) => Val(I(n))
    case Arith(op, l, r) => Strict(op, Eval(l, row, policy), Eval(r, row, policy))
    case Div(l, r) => Divide(policy, Eval(l, row, policy), Eval(r, row, policy))
  }

  // ---- types ----

  function Infer(e: Expr, types: map<string, OutputType>): OutputType
    requires Leaves(e) <= types.Keys
  {
    match e
    case Field(id) => types[id]
    case Const(_) => IntType
    case Arith(_, l, r) => if Infer(l, types).IntType? && Infer(r, types).IntType? then IntType else FloatType
    case Div(_, _) => FloatType
  }

  predicate HasType(o: Outcome, t: OutputType) {
    o.Val? ==> (o.n.I? <==> t.IntType?)
  }

  ghost predicate Typed(row: Row, types: map<string, OutputType>) {
    forall name :: name in types ==> HasType(Lookup(row, name), types[name])
  }

  /** Evaluation agrees with the inference table. */
  lemma {:induction false} EvalHasType(e: Expr, row: Row, policy: Policy, types: map<string, OutputType>)
    requires Leaves(e) <= types.Keys && Typed(row, types)
    ensures HasType(Eval(e, row, policy), Infer(e, types))
  {
    match e
    case Arith(_, l, r) =>
      EvalHasType(l, row, policy, types);
      EvalHasType(r, row, policy, types);
    case _ =>
  }

  /** The null policy never raises. */
  lemma {:induction false} NullPolicyNeverRaises(e: Expr, row: Row)
    ensures !Eval(e, row, NullPolicy).Raised?
  {
    match e
    case Arith(_, l, r) =>
      NullPolicyNeverRaises(l, row);
      NullPolicyNeverRaises(r, row);
    case Div(l, r) =>
      NullPolicyNeverRaises(l, row);
      NullPolicyNeverRaises(r, row);
    case _ =>
  }

  /** Without a division the policy is irrelevant and nothing raises. */
  lemma {:induction false} DivisionFree(e: Expr, row: Row, p: Policy, q: Policy)
    requires !ContainsDivision(e)
    ensures Eval(e, row, p) == Eval(e, row, q) && !Eval(e, row, p).Raised?
  {
    match e
    case Arith(_, l, r) =>
      DivisionFree(l, row, p, q);
      DivisionFree(r, row, p, q);
    case _ =>
  }

  /** Some division has two operands on this row and the second one is zero. */
  predicate DividesByZero(e: Expr, row: Row) {
    match e
    case Arith(_, l, r) => DividesByZero(l, row) || DividesByZero(r, row)
    case Div(l, r) =>
      var a, b := Eval(l, row, NullPolicy), Eval(r, row, NullPolicy);
      DividesByZero(l, row) || DividesByZero(r, row) || (a.Val? && b.Val? && IsZero(b.n))
    case _ => false
  }

  /** The error policy raises exactly on a division by zero, and elsewhere the two
      policies agree. */
  lemma {:induction false} RaisesIffDividesByZero(e: Expr, row: Row)
    ensures Eval(e, row, ErrorPolicy).Raised? <==> DividesByZero(e, row)
    ensures !DividesByZero(e, row) ==> Eval(e, row, ErrorPolicy) == Eval(e, row, NullPolicy)
  {
    match e
    case Arith(_, l, r) =>
      RaisesIffDividesByZero(l, row);
      RaisesIffDividesByZero(r, row);
    case Div(l, r) =>
      RaisesIffDividesByZero(l, row);
      RaisesIffDividesByZero(r, row);
    case _ =>
  }
}
