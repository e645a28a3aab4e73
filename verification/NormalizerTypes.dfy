/**
 Normalization keeps expressions well typed: the result has the type of the original,
 except that a NULL may lose its type.
 */
module NormalizerTypes {
  import opened Comparison
  import opened Expr
  import opened EvalLaws
  import opened Normalizer

  /** A well-typed replacement for an expression of type t. */
  predicate Fits(e: Expr, t: Type) { WellTyped(e) && Narrows(TypeOf(e), t) }

  lemma {:induction false} NullFits(t: Type)
    ensures Fits(NULL, t)
  {
  }

  lemma {:induction false} FoldConstFits(e: Expr, t: Type)
    requires Fits(e, t)
    ensures Fits(FoldConst(e), t)
  {
    if IsConst(e) && EvalConst(e).Ok? {
      ConstHasNoColumns(e);
      NoColumnsFit(e, NoRow);
      TypeSound(e, NoRow, AsWritten);
    }
  }

  lemma {:induction false} CoalesceFits(es: seq<Expr>, typ: Type)
    requires forall x <- es :: Fits(x, typ)
    ensures Fits(List(Coalesce(typ), es), typ)
  {
    forall x | x in es ensures WellTyped(x) && Narrows(TypeOf(x), typ) {
      assert Fits(x, typ);
    }
  }

  lemma {:induction false} SimplifyCoalesceFits(es: seq<Expr>, typ: Type, i: nat)
    requires forall x <- es :: Fits(x, typ)
    ensures var o := SimplifyCoalesceFrom(es, typ, i); o.Ok? ==> Fits(o.value, typ)
    decreases |es| - i
  {
    hide IsConst, EvalConst;
    if i >= |es| {
      CoalesceFits(es, typ);
    } else if i == |es| - 1 {
    } else if !IsConst(es[i]) {
      assert forall x <- es[i..] :: x in es;
      CoalesceFits(es[i..], typ);
    } else {
      SimplifyCoalesceFits(es, typ, i + 1);
    }
  }

  lemma {:induction false} SimplifyRowFits(es: seq<Expr>)
    requires AllWellTyped(es)
    ensures var o := SimplifyRow(es); o.Ok? ==> Fits(o.value, TupleType) && IsRowShaped(o.value)
  {
    hide IsConst;
  }

  lemma {:induction false} SimplifyUnaryFits(op: UnaryOp, x: Expr, x': Expr)
    requires WellTyped(Unary(op, x)) && Fits(x', TypeOf(x))
    ensures Fits(SimplifyUnary(op, x'), TypeOf(Unary(op, x)))
  {
  }

  lemma {:induction false} SimplifyArithFits(op: ArithOp, l: Expr, r: Expr)
    requires Fits(l, IntType) && Fits(r, IntType)
    ensures Fits(SimplifyArith(op, l, r), IntType)
  {
  }

  lemma {:induction false} SimplifyAndFits(l: Expr, r: Expr)
    requires Fits(l, BoolType) && Fits(r, BoolType)
    ensures var o := SimplifyAnd(l, r); o.Ok? ==> Fits(o.value, BoolType)
  {
    hide IsConst, EvalConst;
    NullFits(BoolType);
  }

  lemma {:induction false} SimplifyOrFits(l: Expr, r: Expr)
    requires Fits(l, BoolType) && Fits(r, BoolType)
    ensures var o := SimplifyOr(l, r); o.Ok? ==> Fits(o.value, BoolType)
  {
    hide IsConst, EvalConst;
    NullFits(BoolType);
  }

  lemma {:induction false} IfFits(c: Expr, t: Expr, x: Expr, typ: Type)
    requires Fits(c, BoolType) && Fits(t, typ) && Fits(x, typ)
    ensures Fits(If(c, t, x, typ), typ)
  {
  }

  lemma {:induction false} SimplifyIfFits(c: Expr, t: Expr, x: Expr, typ: Type)
    requires Fits(c, BoolType) && Fits(t, typ) && Fits(x, typ)
    ensures var o := SimplifyIf(c, t, x, typ); o.Ok? ==> Fits(o.value, typ)
  {
    hide IsConst, EvalConst, Fits;
    IfFits(c, t, x, typ);
    NullFits(typ);
  }

  predicate ComparesWell(l: Expr, r: Expr) {
    WellTyped(l) && WellTyped(r) && Comparable(TypeOf(l), TypeOf(r))
  }

  lemma {:induction false} ComparisonFits(op: CompareOp, l: Expr, r: Expr)
    requires IsOrdering(op) && ComparesWell(l, r)
    ensures Fits(Binary(Cmp(op), l, r), BoolType)
  {
  }

  lemma {:induction false} RotateOnceFits(op: CompareOp, l: Expr, r: Expr)
    requires ComparesWell(l, r)
    ensures var o := RotateOnce(op, l, r); o.Some? ==> ComparesWell(o.value.left, o.value.right)
  {
    hide IsConst;
  }

  lemma {:induction false} RotateFits(op: CompareOp, l: Expr, r: Expr)
    requires IsOrdering(op) && ComparesWell(l, r)
    ensures Fits(Rotate(op, l, r), BoolType)
    decreases Size(l) + Size(r)
  {
    hide IsConst, RotateOnce, WellTyped, TypeOf;
    NullFits(BoolType);
    ComparisonFits(op, l, r);
    if IsNull(l) || IsNull(r) {
    } else if ConstRight(op, l, r).Some? {
      var c := ConstRight(op, l, r).value;
      ComparisonFits(c.op, c.left, c.right);
      RotateOnceFits(c.op, c.left, c.right);
      RotateOnceShrinks(c.op, c.left, c.right);
      RotateOnceOrders(c.op, c.left, c.right);
      if RotateOnce(c.op, c.left, c.right).Some? {
        var n := RotateOnce(c.op, c.left, c.right).value;
        ComparisonFits(n.op, n.left, n.right);
        if !n.left.Column? { RotateFits(n.op, n.left, n.right); }
      }
    }
  }

  lemma {:induction false} RotateOnceOrders(op: CompareOp, l: Expr, r: Expr)
    requires IsOrdering(op)
    ensures var o := RotateOnce(op, l, r); o.Some? ==> IsOrdering(o.value.op)
  {
    hide IsConst, EvalConst;
  }

  lemma {:induction false} SimplifyInFits(op: CompareOp, l: Expr, r: Expr)
    requires IsListOp(op) && WellTyped(l) && WellTyped(r) && IsRowShaped(r)
    ensures Fits(SimplifyIn(op, l, r), BoolType)
  {
    NullFits(BoolType);
  }

  lemma {:induction false} SimplifyCmpFits(op: CompareOp, l: Expr, r: Expr)
    requires WellTyped(Binary(Cmp(op), l, r))
    ensures Fits(SimplifyCmp(op, l, r), BoolType)
  {
    hide IsConst, Rotate;
    NullFits(BoolType);
    if IsRotatable(op) {
      RotateFits(op, l, r);
    } else if IsListOp(op) {
      SimplifyInFits(op, l, r);
    } else {
    }
  }

  lemma {:induction false} BoundFits(op: CompareOp, x: Expr, b: Expr)
    requires IsOrdering(op) && ComparesWell(x, b)
    ensures Fits(Bound(op, x, b), BoolType)
  {
    hide Rotate, WellTyped, TypeOf;
    NullFits(BoolType);
    RotateFits(op, x, b);
  }

  lemma {:induction false} BetweenBoundsFits(n: bool, x: Expr, xTo: Expr, lo: Expr, hi: Expr)
    requires ComparesWell(x, lo) && ComparesWell(xTo, hi)
    ensures var o := BetweenBounds(n, x, xTo, lo, hi); o.Ok? ==> Fits(o.value, BoolType)
  {
    hide Bound, SimplifyAnd, SimplifyOr, WellTyped, TypeOf;
    BoundFits(LT, x, lo);
    BoundFits(GT, xTo, hi);
    BoundFits(GE, x, lo);
    BoundFits(LE, xTo, hi);
    SimplifyOrFits(Bound(LT, x, lo), Bound(GT, xTo, hi));
    SimplifyAndFits(Bound(GE, x, lo), Bound(LE, xTo, hi));
  }

  lemma {:induction false} SimplifyBetweenFits(n: bool, s: bool, x: Expr, xTo: Expr, lo: Expr, hi: Expr)
    requires ComparesWell(x, lo) && ComparesWell(x, hi) && ComparesWell(xTo, lo) && ComparesWell(xTo, hi)
    ensures var o := SimplifyBetween(n, s, x, xTo, lo, hi); o.Ok? ==> Fits(o.value, BoolType)
  {
    hide BetweenBounds, SimplifyAnd, SimplifyOr, WellTyped, TypeOf;
    NullFits(BoolType);
    BetweenBoundsFits(n, x, xTo, lo, hi);
    BetweenBoundsFits(n, x, xTo, hi, lo);
    var a, b := BetweenBounds(n, x, xTo, lo, hi), BetweenBounds(n, x, xTo, hi, lo);
    if a.Ok? && b.Ok? {
      SimplifyOrFits(a.value, b.value);
      SimplifyAndFits(a.value, b.value);
    }
  }

  lemma {:induction false} SimplifyBinaryFits(op: BinaryOp, l: Expr, r: Expr)
    requires WellTyped(Binary(op, l, r))
    ensures var o := SimplifyBinary(op, l, r); o.Ok? ==> Fits(o.value, TypeOf(Binary(op, l, r)))
  {
    hide SimplifyAnd, SimplifyOr, SimplifyArith, SimplifyCmp;
    match op
    case And => SimplifyAndFits(l, r);
    case Or => SimplifyOrFits(l, r);
    case Arith(aop) => SimplifyArithFits(aop, l, r);
    case Cmp(cop) => SimplifyCmpFits(cop, l, r);
    case Quantified(_, _) =>
  }

  // ---------------------------------------------------------------------------

  /** The normalized expression is well typed and has the original's type, or is an untyped
      NULL in its place. */
  lemma {:induction false} NormalizeKeepsTypes(e: Expr)
    requires WellTyped(e) && Normalize(e).Ok?
    ensures Fits(Normalize(e).value, TypeOf(e))
    ensures IsRowShaped(e) ==> IsRowShaped(Normalize(e).value)
    decreases e, 1
  {
    SimplifiedKeepsTypes(e);
    FoldConstFits(Simplified(e).value, TypeOf(e));
  }

  lemma {:induction false} SimplifiedKeepsTypes(e: Expr)
    requires WellTyped(e) && Simplified(e).Ok?
    ensures Fits(Simplified(e).value, TypeOf(e))
    ensures IsRowShaped(e) ==> IsRowShaped(Simplified(e).value)
    decreases e, 0
  {
    match e
    case Lit(_) =>
    case Column(_, _) =>
    case Unary(op, x) =>
      NormalizeKeepsTypes(x);
      SimplifyUnaryFits(op, x, Normalize(x).value);
    case Binary(op, l, r) =>
      NormalizeKeepsTypes(l);
      NormalizeKeepsTypes(r);
      SimplifyBinaryFits(op, Normalize(l).value, Normalize(r).value);
    case If(c, t, x, typ) =>
      NormalizeKeepsTypes(c);
      NormalizeKeepsTypes(t);
      NormalizeKeepsTypes(x);
      SimplifyIfFits(Normalize(c).value, Normalize(t).value, Normalize(x).value, typ);
    case List(op, xs) =>
      NormalizeAllKeepsTypes(xs);
      var ys := NormalizeAll(xs).value;
      assert forall y <- ys :: exists i | 0 <= i < |ys| :: y == ys[i] && xs[i] in xs;
      if op.Coalesce? { SimplifyCoalesceFits(ys, op.typ, 0); } else { SimplifyRowFits(ys); }
    case Between(n, s, x, _, lo, hi) =>
      NormalizeKeepsTypes(x);
      NormalizeKeepsTypes(lo);
      NormalizeKeepsTypes(hi);
      SimplifyBetweenFits(n, s, Normalize(x).value, Normalize(x).value, Normalize(lo).value, Normalize(hi).value);
  }

  lemma {:induction false} NormalizeAllKeepsTypes(es: seq<Expr>)
    requires AllWellTyped(es) && NormalizeAll(es).Ok?
    ensures forall i | 0 <= i < |es| :: Fits(NormalizeAll(es).value[i], TypeOf(es[i]))
    decreases es, 0
  {
    forall i | 0 <= i < |es| ensures Fits(NormalizeAll(es).value[i], TypeOf(es[i])) {
      NormalizeAllAt(es, i);
      NormalizeKeepsTypes(es[i]);
    }
  }
}
