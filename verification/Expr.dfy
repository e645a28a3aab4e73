/**
 Typed scalar expressions over columns and constants of the NULL / BOOL / INT / tuple
 fragment, and their evaluation on a row. Evaluation is a recursion over the tree that
 combines the children's outcomes, each of which is a datum or an error.
 */
module Expr {
  import opened Values
  import opened Comparison
  import Arithmetic

  /** Static types. The element types of tuples are not tracked. */
  datatype Type = UnknownType | BoolType | IntType | TupleType

  datatype ArithOp = Plus | Minus | Mult | FloorDiv

  datatype UnaryOp = CastTo(target: Type) | Paren | Not | Neg

  datatype BinaryOp =
    | And
    | Or
    | Arith(aop: ArithOp)
    | Cmp(cop: CompareOp)
    | Quantified(all: bool, qop: Ordering)

  datatype ListOp = Coalesce(typ: Type) | Row

  datatype Expr =
    | Lit(datum: Datum)
    | Column(index: nat, colType: Type)
    | Unary(uop: UnaryOp, operand: Expr)
    | Binary(bop: BinaryOp, left: Expr, right: Expr)
    | If(cond: Expr, thn: Expr, els: Expr, typ: Type)
    | List(lop: ListOp, exprs: seq<Expr>)
      // testedTo is the tested expression typed against the upper bound
    | Between(negated: bool, symmetric: bool, tested: Expr, testedTo: Expr, lo: Expr, hi: Expr)

  const NULL: Expr := Lit(DNull)

  /** The values of the columns. */
  type RowData = nat -> Datum

  /** How a subtraction treats a NULL operand. AsWritten is what the evaluator does: the
      left operand first, and a NULL there ends the evaluation. NullFirst lets a NULL on
      either side win over a failure on the other; it is used only to state theorems. */
  datatype Subtraction = AsWritten | NullFirst

  // ---------------------------------------------------------------------------
  // Outcomes of the operators, from the outcomes of their operands
  // ---------------------------------------------------------------------------

  type Outcome = Result<Datum>

  function CastOutcome(x: Outcome, target: Type): Outcome {
    match x
    case Err(_) => x
    case Ok(DNull) => x
    case Ok(DBool(b)) =>
      if target == BoolType then x
      else if target == IntType then Ok(DInt(if b then 1 else 0))
      else Err(BadCast)
    case Ok(DInt(i)) =>
      if target == BoolType then Ok(DBool(i != 0))
      else if target == IntType then x
      else Err(BadCast)
    case Ok(DTuple(_)) => Err(BadCast)
  }

  function NotOutcome(x: Outcome): Outcome {
    match x
    case Err(_) => x
    case Ok(DNull) => x
    case Ok(DBool(b)) => Ok(DBool(!b))
    case Ok(_) => Err(NotBoolean)
  }

  function NegOutcome(x: Outcome): Outcome {
    match x
    case Err(_) => x
    case Ok(DNull) => x
    case Ok(DInt(i)) => (match Arithmetic.Negate(i) case Ok(n) => Ok(DInt(n)) case Err(e) => Err(e))
    case Ok(_) => Err(NotInteger)
  }

  /** FALSE on the left ends the evaluation; a NULL there does not. */
  function AndOutcome(x: Outcome, y: Outcome): Outcome {
    if x.Err? || x.value == DBool(false) then x
    else if !x.value.DNull? && !x.value.DBool? then Err(NotBoolean)
    else if y.Err? || y.value.DNull? then y
    else if !y.value.DBool? then Err(NotBoolean)
    else if !y.value.b then y
    else x
  }

  function OrOutcome(x: Outcome, y: Outcome): Outcome {
    if x.Err? || x.value == DBool(true) then x
    else if !x.value.DNull? && !x.value.DBool? then Err(NotBoolean)
    else if y.Err? || y.value.DNull? then y
    else if !y.value.DBool? then Err(NotBoolean)
    else if y.value.b then y
    else if x.value.DNull? then Ok(DNull)
    else Ok(DBool(false))
  }

  /** Anything but TRUE selects the ELSE branch. */
  function IfOutcome(c: Outcome, t: Outcome, e: Outcome): Outcome {
    if c.Err? then c else if c.value == DBool(true) then t else e
  }

  /** The first operand from position i on that is an error or not NULL. */
  function CoalesceFrom(xs: seq<Outcome>, i: nat): Outcome
    decreases |xs| - i
  {
    if i >= |xs| then Ok(DNull)
    else if xs[i].Err? || !xs[i].value.DNull? then xs[i]
    else CoalesceFrom(xs, i + 1)
  }

  function RowOutcome(xs: seq<Outcome>): Outcome {
    if forall i | 0 <= i < |xs| :: xs[i].Ok? then Ok(DTuple(seq(|xs|, i requires 0 <= i < |xs| => xs[i].value)))
    else FirstError(xs, 0)
  }

  function FirstError(xs: seq<Outcome>, i: nat): (o: Outcome)
    requires exists k | i <= k < |xs| :: xs[k].Err?
    ensures o.Err?
    decreases |xs| - i
  {
    if xs[i].Err? then xs[i] else FirstError(xs, i + 1)
  }

  function ApplyArith(op: ArithOp, a: Int64, b: Int64): Result<Int64> {
    match op
    case Plus => Arithmetic.Add(a, b)
    case Minus => Arithmetic.Sub(a, b)
    case Mult => Arithmetic.Mul(a, b)
    case FloorDiv => Arithmetic.FloorDiv(a, b)
  }

  function ApplyDatums(op: ArithOp, x: Datum, y: Datum): Outcome {
    if !x.DInt? || !y.DInt? then Err(NotInteger)
    else
      var n :- ApplyArith(op, x.i, y.i);
      Ok(DInt(n))
  }

  /** A NULL on the left ends the evaluation before the right operand is looked at. */
  function ArithOutcome(op: ArithOp, x: Outcome, y: Outcome, m: Subtraction): Outcome {
    if m == NullFirst && op == Minus && (x == Ok(DNull) || y == Ok(DNull)) then Ok(DNull)
    else if x.Err? || x.value.DNull? then x
    else if y.Err? || y.value.DNull? then y
    else ApplyDatums(op, x.value, y.value)
  }

  /** Both operands are evaluated, whatever the first one gives. */
  function CmpOutcome(op: CompareOp, x: Outcome, y: Outcome): Outcome {
    if x.Err? then x else if y.Err? then y else Ok(Sql(op, x.value, y.value).ToDatum())
  }

  function QuantifiedOutcome(all: bool, op: Ordering, x: Outcome, y: Outcome): Outcome {
    if x.Err? then x
    else if y.Err? || y.value.DNull? then y
    else if !y.value.DTuple? then Err(BadCast)
    else Ok(Quantify(all, op, x.value, y.value.elems).ToDatum())
  }

  function UnaryOutcome(op: UnaryOp, x: Outcome): Outcome {
    match op
    case CastTo(t) => CastOutcome(x, t)
    case Paren => x
    case Not => NotOutcome(x)
    case Neg => NegOutcome(x)
  }

  function BinaryOutcome(op: BinaryOp, x: Outcome, y: Outcome, m: Subtraction): Outcome {
    match op
    case And => AndOutcome(x, y)
    case Or => OrOutcome(x, y)
    case Arith(aop) => ArithOutcome(aop, x, y, m)
    case Cmp(cop) => CmpOutcome(cop, x, y)
    case Quantified(all, cop) => QuantifiedOutcome(all, cop, x, y)
  }

  function ListOutcome(op: ListOp, xs: seq<Outcome>): Outcome {
    match op
    case Coalesce(_) => CoalesceFrom(xs, 0)
    case Row => RowOutcome(xs)
  }

  /** Section 8.3 of ISO/IEC 9075-2, with the short circuits of AND and OR. */
  function BetweenOutcome(negated: bool, symmetric: bool, x: Outcome, xTo: Outcome, lo: Outcome, hi: Outcome): Outcome {
    var asym := AndOutcome(CmpOutcome(GE, x, lo), CmpOutcome(LE, xTo, hi));
    var within := if symmetric then OrOutcome(asym, AndOutcome(CmpOutcome(GE, x, hi), CmpOutcome(LE, xTo, lo))) else asym;
    if negated then NotOutcome(within) else within
  }

  // ---------------------------------------------------------------------------
  // Evaluation
  // ---------------------------------------------------------------------------

  function Eval(e: Expr, row: RowData, m: Subtraction): Outcome
    decreases e, 1
  {
    match e
    case Lit(d) => Ok(d)
    case Column(i, _) => Ok(row(i))
    case Unary(op, x) => UnaryOutcome(op, Eval(x, row, m))
    case Binary(op, l, r) => BinaryOutcome(op, Eval(l, row, m), Eval(r, row, m), m)
    case If(c, t, x, _) => IfOutcome(Eval(c, row, m), Eval(t, row, m), Eval(x, row, m))
    case List(op, xs) => ListOutcome(op, EvalAll(xs, row, m))
    case Between(n, s, x, xTo, lo, hi) =>
      BetweenOutcome(n, s, Eval(x, row, m), Eval(xTo, row, m), Eval(lo, row, m), Eval(hi, row, m))
  }

  function EvalAll(es: seq<Expr>, row: RowData, m: Subtraction): seq<Outcome>
    decreases es, 0
  {
    seq(|es|, i requires 0 <= i < |es| => Eval(es[i], row, m))
  }

  // ---------------------------------------------------------------------------
  // Types
  // ---------------------------------------------------------------------------

  function DatumType(d: Datum): Type {
    match d
    case DNull => UnknownType
    case DBool(_) => BoolType
    case DInt(_) => IntType
    case DTuple(_) => TupleType
  }

  function TypeOf(e: Expr): Type {
    match e
    case Lit(d) => DatumType(d)
    case Column(_, t) => t
    case Unary(op, x) =>
      (match op
       case CastTo(t) => t
       case Paren => TypeOf(x)
       case Not => BoolType
       case Neg => IntType)
    case Binary(op, _, _) => if op.Arith? then IntType else BoolType
    case If(_, _, _, t) => t
    case List(op, _) => if op.Coalesce? then op.typ else TupleType
    case Between(_, _, _, _, _, _) => BoolType
  }

  /** t may stand where want is expected: NULL has no type of its own and fits everywhere. */
  predicate Narrows(t: Type, want: Type) { t == UnknownType || t == want }

  /** The datum is a value of the type. */
  predicate HasType(d: Datum, t: Type) { Narrows(DatumType(d), t) }

  /** Values of the two types can be compared. */
  predicate Comparable(t: Type, u: Type) { t == UnknownType || u == UnknownType || t == u }

  predicate IsListOp(op: CompareOp) { op == In || op == NotIn }

  /** The right side of IN is written as a row, or is a constant one. */
  predicate IsRowShaped(e: Expr) {
    (e.List? && e.lop.Row?) || (e.Lit? && e.datum.DTuple?)
  }

  predicate UnaryTyped(op: UnaryOp, t: Type) {
    match op
    case CastTo(target) => t == UnknownType || (t != TupleType && (target == BoolType || target == IntType))
    case Paren => true
    case Not => Narrows(t, BoolType)
    case Neg => Narrows(t, IntType)
  }

  predicate BinaryTyped(op: BinaryOp, t: Type, u: Type) {
    match op
    case And => Narrows(t, BoolType) && Narrows(u, BoolType)
    case Or => Narrows(t, BoolType) && Narrows(u, BoolType)
    case Arith(_) => Narrows(t, IntType) && Narrows(u, IntType)
    case Cmp(cop) => if IsListOp(cop) then u == TupleType else Comparable(t, u)
    case Quantified(_, cop) => Narrows(u, TupleType)
  }

  /** What type checking establishes before an expression is normalized. */
  predicate WellTyped(e: Expr)
    decreases e, 1
  {
    match e
    case Lit(_) => true
    case Column(_, _) => true
    case Unary(op, x) => WellTyped(x) && UnaryTyped(op, TypeOf(x))
    case Binary(op, l, r) =>
      && WellTyped(l) && WellTyped(r)
      && BinaryTyped(op, TypeOf(l), TypeOf(r))
      && (op.Cmp? && IsListOp(op.cop) ==> IsRowShaped(r))
    case If(c, t, x, typ) =>
      && WellTyped(c) && WellTyped(t) && WellTyped(x)
      && Narrows(TypeOf(c), BoolType) && Narrows(TypeOf(t), typ) && Narrows(TypeOf(x), typ)
    case List(op, xs) =>
      && AllWellTyped(xs)
      && (op.Coalesce? ==> forall x <- xs :: Narrows(TypeOf(x), op.typ))
    case Between(_, _, x, xTo, lo, hi) =>
      && WellTyped(x) && WellTyped(lo) && WellTyped(hi)
      && xTo == x
      && Comparable(TypeOf(x), TypeOf(lo)) && Comparable(TypeOf(x), TypeOf(hi))
  }

  predicate AllWellTyped(es: seq<Expr>)
    decreases es, 0
  {
    forall x <- es :: WellTyped(x)
  }

  /** The row gives every column a value of the column's type. */
  predicate ColumnsFit(e: Expr, row: RowData) {
    match e
    case Lit(_) => true
    case Column(i, t) => HasType(row(i), t)
    case Unary(_, x) => ColumnsFit(x, row)
    case Binary(_, l, r) => ColumnsFit(l, row) && ColumnsFit(r, row)
    case If(c, t, x, _) => ColumnsFit(c, row) && ColumnsFit(t, row) && ColumnsFit(x, row)
    case List(_, xs) => forall x <- xs :: ColumnsFit(x, row)
    case Between(_, _, x, xTo, lo, hi) =>
      ColumnsFit(x, row) && ColumnsFit(xTo, row) && ColumnsFit(lo, row) && ColumnsFit(hi, row)
  }

  /** The expression mentions no column. */
  predicate NoColumns(e: Expr) {
    match e
    case Lit(_) => true
    case Column(_, _) => false
    case Unary(_, x) => NoColumns(x)
    case Binary(_, l, r) => NoColumns(l) && NoColumns(r)
    case If(c, t, x, _) => NoColumns(c) && NoColumns(t) && NoColumns(x)
    case List(_, xs) => forall x <- xs :: NoColumns(x)
    case Between(_, _, x, xTo, lo, hi) => NoColumns(x) && NoColumns(xTo) && NoColumns(lo) && NoColumns(hi)
  }
}
