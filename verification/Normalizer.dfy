/**
 The expression normalizer: one bottom-up walk that simplifies every node from its already
 normalized children and then folds it to a constant if its children are constants.
 */
module Normalizer {
  import opened Values
  import opened Comparison
  import opened Expr
  import Tuples

  predicate IsNull(e: Expr) { e.Lit? && e.datum.DNull? }

  // ---------------------------------------------------------------------------
  // The constness test
  // ---------------------------------------------------------------------------

  /** The children a walk visits; the walk never enters testedTo. */
  function Children(e: Expr): seq<Expr> {
    match e
    case Lit(_) => []
    case Column(_, _) => []
    case Unary(_, x) => [x]
    case Binary(_, l, r) => [l, r]
    case If(c, t, x, _) => [c, t, x]
    case List(_, xs) => xs
    case Between(_, _, x, _, lo, hi) => [x, lo, hi]
  }

  /** The second level: a constant, or casts around one. */
  predicate IsConstChild(e: Expr) {
    e.Lit? || (e.Unary? && e.uop.CastTo? && IsConstChild(e.operand))
  }

  /** The constness test looks at two levels of the tree only. */
  predicate IsConst(e: Expr) {
    !e.Column? && forall c <- Children(e) :: IsConstChild(c)
  }

  /** Evaluation during normalization, where there is no row to read columns from. */
  function EvalConst(e: Expr): Outcome { Eval(e, NoRow, AsWritten) }

  const NoRow: RowData := i => DNull

  /** A constant child mentions no column. */
  lemma {:induction false} ConstChildHasNoColumns(e: Expr)
    requires IsConstChild(e)
    ensures NoColumns(e)
  {
    if e.Unary? { ConstChildHasNoColumns(e.operand); }
  }

  /** The two-level constness test is sound: no column is ever read without a row. */
  lemma {:induction false} ConstHasNoColumns(e: Expr)
    requires IsConst(e) && WellTyped(e)
    ensures NoColumns(e)
  {
    match e
    case Lit(_) =>
    case Unary(_, x) => ConstChildHasNoColumns(x);
    case Binary(_, l, r) =>
      assert l in Children(e) && r in Children(e);
      ConstChildHasNoColumns(l);
      ConstChildHasNoColumns(r);
    case If(c, t, x, _) =>
      assert c in Children(e) && t in Children(e) && x in Children(e);
      ConstChildHasNoColumns(c);
      ConstChildHasNoColumns(t);
      ConstChildHasNoColumns(x);
    case List(_, xs) =>
      forall x | x in xs ensures NoColumns(x) { ConstChildHasNoColumns(x); }
    case Between(_, _, x, _, lo, hi) =>
      assert x in Children(e) && lo in Children(e) && hi in Children(e);
      ConstChildHasNoColumns(x);
      ConstChildHasNoColumns(lo);
      ConstChildHasNoColumns(hi);
  }

  // ---------------------------------------------------------------------------
  // Simplification of one node
  // ---------------------------------------------------------------------------

  /** A cast to the wanted type unless the expression has it. */
  function ReType(e: Expr, want: Type): Expr {
    if TypeOf(e) == want then e else Unary(CastTo(want), e)
  }

  /** The integer overloads of the arithmetic operators accept INT and untyped NULL. */
  predicate AcceptsInts(l: Expr, r: Expr) {
    Narrows(TypeOf(l), IntType) && Narrows(TypeOf(r), IntType)
  }

  /** Constant NULLs in front are dropped; a constant that is not NULL decides. */
  function SimplifyCoalesceFrom(es: seq<Expr>, typ: Type, i: nat): Result<Expr>
    decreases |es| - i
  {
    if i >= |es| then Ok(List(Coalesce(typ), es))
    else if i == |es| - 1 then Ok(es[i])
    else if !IsConst(es[i]) then Ok(List(Coalesce(typ), es[i..]))
    else
      var v :- EvalConst(es[i]);
      if !v.DNull? then Ok(es[i]) else SimplifyCoalesceFrom(es, typ, i + 1)
  }

  /** The loop of the COALESCE rewriting. */
  method SimplifyCoalesce(es: seq<Expr>, typ: Type) returns (r: Result<Expr>)
    ensures r == SimplifyCoalesceFrom(es, typ, 0)
  {
    hide IsConst, EvalConst;
    for i := 0 to |es|
      invariant SimplifyCoalesceFrom(es, typ, i) == SimplifyCoalesceFrom(es, typ, 0)
    {
      if i == |es| - 1 {
        return Ok(es[i]);
      }
      if !IsConst(es[i]) {
        return Ok(List(Coalesce(typ), es[i..]));
      }
      var v := EvalConst(es[i]);
      if v.Err? {
        return Err(v.error);
      }
      if !v.value.DNull? {
        return Ok(es[i]);
      }
    }
    return Ok(List(Coalesce(typ), es));
  }

  function SimplifyIf(c: Expr, t: Expr, x: Expr, typ: Type): Result<Expr> {
    if !IsConst(c) then Ok(If(c, t, x, typ))
    else
      var d :- EvalConst(c);
      match d
      case DBool(b) => Ok(if b then t else x)
      case DNull => Ok(x)
      case _ => Ok(NULL)
  }

  predicate IsMinus(e: Expr) { e.Binary? && e.bop == Arith(Minus) }

  /** -0 is 0, -(a - b) is b - a, -(-a) is a. */
  function SimplifyNeg(x: Expr): Expr {
    if IsNull(x) || x == Lit(DInt(0)) then x
    else if IsMinus(x) then
      if AcceptsInts(x.right, x.left) then Binary(Arith(Minus), x.right, x.left) else x
    else if x.Unary? && x.uop == Neg then x.operand
    else Unary(Neg, x)
  }

  function SimplifyArith(op: ArithOp, l: Expr, r: Expr): Expr {
    if IsNull(l) || IsNull(r) then NULL
    else if r == Lit(DInt(0)) && (op == Plus || (op == Minus && TypeOf(l) == IntType)) then ReType(l, IntType)
    else if l == Lit(DInt(0)) && op == Plus then ReType(r, IntType)
    else if r == Lit(DInt(1)) && (op == Mult || op == FloorDiv) then ReType(l, IntType)
    else if l == Lit(DInt(1)) && op == Mult then ReType(r, IntType)
    else Binary(Arith(op), l, r)
  }

  function SimplifyAnd(l: Expr, r: Expr): Result<Expr> {
    if IsNull(l) && IsNull(r) then Ok(NULL)
    else if IsConst(l) then
      var d :- EvalConst(l);
      match d
      case DNull => Ok(Binary(And, NULL, r))
      case DBool(b) => Ok(if b then r else Lit(d))
      case _ => Ok(NULL)
    else if IsConst(r) then
      var d :- EvalConst(r);
      match d
      case DNull => Ok(Binary(And, l, NULL))
      case DBool(b) => Ok(if b then l else r)
      case _ => Ok(NULL)
    else Ok(Binary(And, l, r))
  }

  function SimplifyOr(l: Expr, r: Expr): Result<Expr> {
    if IsNull(l) && IsNull(r) then Ok(NULL)
    else if IsConst(l) then
      var d :- EvalConst(l);
      match d
      case DNull => Ok(Binary(Or, NULL, r))
      case DBool(b) => Ok(if b then Lit(d) else r)
      case _ => Ok(NULL)
    else if IsConst(r) then
      var d :- EvalConst(r);
      match d
      case DNull => Ok(Binary(Or, l, NULL))
      case DBool(b) => Ok(if b then r else l)
      case _ => Ok(NULL)
    else Ok(Binary(Or, l, r))
  }

  function SimplifyNot(x: Expr): Expr {
    if x.Unary? && x.uop == Not then x.operand else Unary(Not, x)
  }

  function SimplifyRow(es: seq<Expr>): Result<Expr> {
    if forall x <- es :: IsConst(x) then
      var d :- EvalConst(List(Row, es));
      Ok(Lit(d))
    else Ok(List(Row, es))
  }

  // ---------------------------------------------------------------------------
  // Comparisons
  // ---------------------------------------------------------------------------

  function Size(e: Expr): nat
    decreases e
  {
    match e
    case Unary(_, x) => 1 + Size(x)
    case Binary(_, l, r) => 1 + Size(l) + Size(r)
    case _ => 1
  }

  datatype Rotation = Rotation(op: CompareOp, left: Expr, right: Expr)

  /** One rotation of a comparison whose right side is constant: a constant operand of the
      sum or difference on the left is moved to the right and folded there. None if the
      left side has no such operand or the folding fails. */
  function RotateOnce(op: CompareOp, l: Expr, r: Expr): Option<Rotation> {
    if !l.Binary? || (l.bop != Arith(Plus) && l.bop != Arith(Minus)) then None
    else if IsConst(l.right) then
      // a + 1 = 2 becomes a = 2 - 1
      if !AcceptsInts(r, l.right) then None
      else match EvalConst(Binary(Arith(if l.bop == Arith(Plus) then Minus else Plus), r, l.right))
        case Ok(d) => Some(Rotation(op, l.left, Lit(d)))
        case Err(_) => None
    else if IsConst(l.left) then
      if !AcceptsInts(r, l.left) then None
      else if l.bop == Arith(Plus) then
        // 1 + a = 2 becomes a = 2 - 1
        match EvalConst(Binary(Arith(Minus), r, l.left))
        case Ok(d) => Some(Rotation(op, l.right, Lit(d)))
        case Err(_) => None
      else
        // 1 - a < 2 becomes a > 1 - 2
        match EvalConst(Binary(Arith(Minus), l.left, r))
        case Ok(d) => Some(Rotation(Mirror(op), l.right, Lit(d)))
        case Err(_) => None
    else None
  }

  predicate IsArith(e: Expr) { e.Binary? && e.bop.Arith? }

  /** A comparison with its constant side on the right. None if there is nothing to rotate. */
  function ConstRight(op: CompareOp, l: Expr, r: Expr): Option<Rotation> {
    if IsConst(l) then
      if IsArith(r) || r.Column? then Some(Rotation(Mirror(op), r, l)) else None
    else if IsConst(r) then Some(Rotation(op, l, r))
    else None
  }

  lemma {:induction false} RotateOnceShrinks(op: CompareOp, l: Expr, r: Expr)
    ensures var o := RotateOnce(op, l, r); o.Some? ==> Size(o.value.left) + Size(o.value.right) < Size(l) + Size(r)
  {
  }

  /** Rotates until a column stands alone on the left, or nothing more can be moved. */
  function Rotate(op: CompareOp, l: Expr, r: Expr): Expr
    decreases Size(l) + Size(r)
  {
    if IsNull(l) || IsNull(r) then NULL
    else match ConstRight(op, l, r)
      case None => Binary(Cmp(op), l, r)
      case Some(c) =>
        RotateOnceShrinks(c.op, c.left, c.right);
        match RotateOnce(c.op, c.left, c.right)
        case None => Binary(Cmp(c.op), c.left, c.right)
        case Some(n) => if n.left.Column? then Binary(Cmp(n.op), n.left, n.right) else Rotate(n.op, n.left, n.right)
  }

  predicate IsRotatable(op: CompareOp) { op in {EQ, GE, GT, LE, LT} }

  function SimplifyIn(op: CompareOp, l: Expr, r: Expr): Expr
    requires IsListOp(op)
  {
    if r.Lit? && r.datum.DTuple? then
      var ds := Tuples.SortedUnique(r.datum.elems);
      if ds == [DNull] then NULL
      else if ds == [] then Lit(DBool(op == NotIn))
      else if IsNull(l) then NULL
      else Binary(Cmp(op), l, Lit(DTuple(ds)))
    else Binary(Cmp(op), l, r)
  }

  function SimplifyCmp(op: CompareOp, l: Expr, r: Expr): Expr {
    if IsRotatable(op) then Rotate(op, l, r)
    else if IsListOp(op) then SimplifyIn(op, l, r)
    else if op == NE then
      if IsNull(l) || IsNull(r) then NULL else Binary(Cmp(op), l, r)
    else if IsConst(l) && !IsConst(r) then Binary(Cmp(op), r, l)
    else Binary(Cmp(op), l, r)
  }

  function SimplifyQuantified(all: bool, op: Ordering, l: Expr, r: Expr): Expr {
    if IsNull(l) || IsNull(r) then NULL else Binary(Quantified(all, op), l, r)
  }

  /** One bound of BETWEEN. */
  function Bound(op: CompareOp, x: Expr, b: Expr): Expr {
    if IsNull(b) then NULL else Rotate(op, x, b)
  }

  /** x >= lo AND x <= hi, or with NOT: x < lo OR x > hi. */
  function BetweenBounds(negated: bool, x: Expr, xTo: Expr, lo: Expr, hi: Expr): Result<Expr> {
    if negated then SimplifyOr(Bound(LT, x, lo), Bound(GT, xTo, hi))
    else SimplifyAnd(Bound(GE, x, lo), Bound(LE, xTo, hi))
  }

  function SimplifyBetween(negated: bool, symmetric: bool, x: Expr, xTo: Expr, lo: Expr, hi: Expr): Result<Expr> {
    if (IsNull(x) || IsNull(lo)) && (IsNull(xTo) || IsNull(hi)) then Ok(NULL)
    else
      var out :- BetweenBounds(negated, x, xTo, lo, hi);
      if !symmetric then Ok(out)
      else
        var swapped :- BetweenBounds(negated, x, xTo, hi, lo);
        if negated then SimplifyAnd(out, swapped) else SimplifyOr(out, swapped)
  }

  // ---------------------------------------------------------------------------
  // The walk
  // ---------------------------------------------------------------------------

  /** A constant node is replaced by its value, except that an evaluation error is left for
      execution and a NULL keeps the node's type. */
  function FoldConst(e: Expr): Expr {
    if !IsConst(e) then e
    else match EvalConst(e)
      case Err(_) => e
      case Ok(DNull) => ReType(NULL, TypeOf(e))
      case Ok(d) => Lit(d)
  }

  function Normalize(e: Expr): Result<Expr>
    decreases e, 1
  {
    var s :- Simplified(e);
    Ok(FoldConst(s))
  }

  function SimplifyUnary(op: UnaryOp, x: Expr): Expr {
    match op
    case CastTo(_) => Unary(op, x)
    case Paren => x
    case Not => SimplifyNot(x)
    case Neg => SimplifyNeg(x)
  }

  function SimplifyBinary(op: BinaryOp, l: Expr, r: Expr): Result<Expr> {
    match op
    case And => SimplifyAnd(l, r)
    case Or => SimplifyOr(l, r)
    case Arith(aop) => Ok(SimplifyArith(aop, l, r))
    case Cmp(cop) => Ok(SimplifyCmp(cop, l, r))
    case Quantified(all, cop) => Ok(SimplifyQuantified(all, cop, l, r))
  }

  function SimplifyList(op: ListOp, es: seq<Expr>): Result<Expr> {
    match op
    case Coalesce(typ) => SimplifyCoalesceFrom(es, typ, 0)
    case Row => SimplifyRow(es)
  }

  /** The node simplified over its normalized children. */
  function Simplified(e: Expr): Result<Expr>
    decreases e, 0
  {
    match e
    case Lit(_) => Ok(e)
    case Column(_, _) => Ok(e)
    case Unary(op, x) =>
      var x' :- Normalize(x);
      Ok(SimplifyUnary(op, x'))
    case Binary(op, l, r) =>
      var l' :- Normalize(l);
      var r' :- Normalize(r);
      SimplifyBinary(op, l', r')
    case If(c, t, x, typ) =>
      var c' :- Normalize(c);
      var t' :- Normalize(t);
      var x' :- Normalize(x);
      SimplifyIf(c', t', x', typ)
    case List(op, xs) =>
      var xs' :- NormalizeAll(xs);
      SimplifyList(op, xs')
    case Between(n, s, x, xTo, lo, hi) =>
      var x' :- Normalize(x);
      var lo' :- Normalize(lo);
      var hi' :- Normalize(hi);
      var xTo' :- Normalize(xTo);
      SimplifyBetween(n, s, x', xTo', lo', hi')
  }

  function NormalizeAll(es: seq<Expr>): (r: Result<seq<Expr>>)
    ensures r.Ok? ==> |r.value| == |es|
    decreases es, 0
  {
    if es == [] then Ok([])
    else
      var n := |es| - 1;
      var rest :- NormalizeAll(es[..n]);
      var e :- Normalize(es[n]);
      Ok(rest + [e])
  }

  lemma {:induction false} NormalizeAllAt(es: seq<Expr>, i: nat)
    requires NormalizeAll(es).Ok? && i < |es|
    ensures Normalize(es[i]) == Ok(NormalizeAll(es).value[i])
    decreases |es|
  {
    var n := |es| - 1;
    if i < n {
      NormalizeAllAt(es[..n], i);
    }
  }
}
