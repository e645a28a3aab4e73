/**
 The rotation loop of comparisons, and what it achieves: in a comparison of a constant with
 sums and differences of one column and constants, the column ends up alone on the left
 unless moving a constant overflows.
 */
module Rotation {
  import opened Values
  import opened Comparison
  import opened Expr
  import opened Normalizer
  import opened NormalizerSound

  /** The loop. Each turn that continues moves a constant and leaves smaller operands. */
  method RotateComparison(op0: CompareOp, l0: Expr, r0: Expr) returns (e: Expr)
    requires IsRotatable(op0)
    ensures e == Rotate(op0, l0, r0)
  {
    var op, l, r := op0, l0, r0;
    while true
      invariant IsRotatable(op)
      invariant Rotate(op, l, r) == Rotate(op0, l0, r0)
      decreases Size(l) + Size(r)
    {
      if IsNull(l) || IsNull(r) {
        return NULL;
      }
      if IsConst(l) {
        if !IsArith(r) && !r.Column? {
          return Binary(Cmp(op), l, r);
        }
        op, l, r := Mirror(op), r, l;
      } else if !IsConst(r) {
        return Binary(Cmp(op), l, r);
      }
      var o := RotateOnce(op, l, r);
      RotateOnceShrinks(op, l, r);
      if o.None? {
        return Binary(Cmp(op), l, r);
      }
      op, l, r := o.value.op, o.value.left, o.value.right;
      if l.Column? {
        return Binary(Cmp(op), l, r);
      }
    }
  }

  // ---------------------------------------------------------------------------
  // Sums and differences of one column and integer constants
  // ---------------------------------------------------------------------------

  predicate IsIntConst(e: Expr) { e.Lit? && e.datum.DInt? }

  predicate IsSum(e: Expr) { e.Binary? && (e.bop == Arith(Plus) || e.bop == Arith(Minus)) }

  predicate IsChain(e: Expr) {
    || e.Column?
    || (IsSum(e) && if IsIntConst(e.right) then IsChain(e.left) else IsIntConst(e.left) && IsChain(e.right))
  }

  /** The column of a chain. */
  function ChainColumn(e: Expr): Expr
    requires IsChain(e)
  {
    if e.Column? then e else if IsIntConst(e.right) then ChainColumn(e.left) else ChainColumn(e.right)
  }

  /** Over unbounded integers a chain is sign * column + offset. */
  function Sign(e: Expr): int
    requires IsChain(e)
  {
    if e.Column? then 1
    else if IsIntConst(e.right) then Sign(e.left)
    else if e.bop == Arith(Plus) then Sign(e.right)
    else -Sign(e.right)
  }

  function Offset(e: Expr): int
    requires IsChain(e)
  {
    if e.Column? then 0
    else if IsIntConst(e.right) then
      Offset(e.left) + (if e.bop == Arith(Plus) then e.right.datum.i else 0 - e.right.datum.i)
    else
      e.left.datum.i + (if e.bop == Arith(Plus) then Offset(e.right) else -Offset(e.right))
  }

  /** The constant on the right after the outermost operand has been moved there. */
  function NextConstant(e: Expr, k: int): int
    requires IsChain(e) && !e.Column?
  {
    if IsIntConst(e.right) then
      if e.bop == Arith(Plus) then k - e.right.datum.i else k + e.right.datum.i
    else
      if e.bop == Arith(Plus) then k - e.left.datum.i else e.left.datum.i - k
  }

  /** Moving the outermost operand mirrors the comparison. */
  predicate Flips(e: Expr)
    requires IsChain(e) && !e.Column?
  {
    !IsIntConst(e.right) && e.bop == Arith(Minus)
  }

  /** Every constant that arises when the chain is taken apart from the outside fits. */
  predicate FoldsFit(e: Expr, k: int)
    requires IsChain(e)
  {
    e.Column? ||
    (var k' := NextConstant(e, k);
     FitsInt64(k') && FoldsFit(if IsIntConst(e.right) then e.left else e.right, k'))
  }

  lemma {:induction false} ChainIsNotConst(e: Expr)
    requires IsChain(e)
    ensures !IsConst(e) && !IsNull(e) && (e.Column? || IsArith(e)) && !IsIntConst(e)
  {
    if !e.Column? {
      assert e.left in Children(e) && e.right in Children(e);
      ChainIsNotConst(if IsIntConst(e.right) then e.left else e.right);
    }
  }

  /** What one rotation does to a chain. */
  lemma {:induction false} ChainTurn(op: CompareOp, e: Expr, k: Int64)
    requires IsRotatable(op) && IsChain(e) && !e.Column?
    ensures var o := RotateOnce(op, e, Lit(DInt(k)));
            var rest := if IsIntConst(e.right) then e.left else e.right;
            var k' := NextConstant(e, k);
            var op' := if Flips(e) then Mirror(op) else op;
            if FitsInt64(k') then o == Some(Rotation(op', rest, Lit(DInt(k')))) else o.None?
  {
    hide IsConst;
    ConstantsAreConst(DInt(k));
    if IsIntConst(e.right) {
      ConstantsAreConst(e.right.datum);
      FoldInts(k, e.right.datum.i);
    } else {
      ChainIsNotConst(e.right);
      ConstantsAreConst(e.left.datum);
      FoldInts(k, e.left.datum.i);
      FoldInts(e.left.datum.i, k);
    }
  }

  lemma {:induction false} ConstantsAreConst(d: Datum)
    ensures IsConst(Lit(d))
  {
  }

  lemma {:induction false} FoldInts(x: Int64, y: Int64)
    ensures EvalConst(Binary(Arith(Plus), Lit(DInt(x)), Lit(DInt(y)))) ==
            if FitsInt64(x + y) then Ok(DInt(x + y)) else Err(IntOutOfRange)
    ensures EvalConst(Binary(Arith(Minus), Lit(DInt(x)), Lit(DInt(y)))) ==
            if FitsInt64(x - y) then Ok(DInt(x - y)) else Err(IntOutOfRange)
  {
    var l, r := Lit(DInt(x)), Lit(DInt(y));
    assert Eval(l, NoRow, AsWritten) == Ok(DInt(x)) && Eval(r, NoRow, AsWritten) == Ok(DInt(y));
    IntOutcomes(x, y);
  }

  /** The solution for the column of chain = k, over unbounded integers. */
  function Solution(e: Expr, k: int): int
    requires IsChain(e)
  {
    if Sign(e) == 1 then k - Offset(e) else Offset(e) - k
  }

  /** Solution solves. */
  lemma {:induction false} SolutionSolves(e: Expr, k: int)
    requires IsChain(e)
    ensures Sign(e) == 1 || Sign(e) == -1
    ensures Sign(e) * Solution(e, k) + Offset(e) == k
  {
    if !e.Column? {
      SolutionSolves(if IsIntConst(e.right) then e.left else e.right, k);
    }
  }

  lemma {:induction false} SolutionStep(e: Expr, k: int)
    requires IsChain(e) && !e.Column?
    ensures var rest := if IsIntConst(e.right) then e.left else e.right;
            var k' := NextConstant(e, k);
            && IsChain(rest)
            && Solution(e, k) == Solution(rest, k')
            && ChainColumn(e) == ChainColumn(rest)
            && (FoldsFit(e, k) <==> FitsInt64(k') && FoldsFit(rest, k'))
            && Sign(e) == if Flips(e) then -Sign(rest) else Sign(rest)
  {
    SolutionSolves(if IsIntConst(e.right) then e.left else e.right, k);
  }

  lemma {:induction false} FittingSolution(e: Expr, k: int)
    requires IsChain(e) && FitsInt64(k) && FoldsFit(e, k)
    ensures FitsInt64(Solution(e, k))
  {
    if !e.Column? {
      SolutionStep(e, k);
      FittingSolution(if IsIntConst(e.right) then e.left else e.right, NextConstant(e, k));
    }
  }

  /** The column is isolated exactly when no moved constant overflows, and then the
      comparison is the one that school algebra gives. */
  lemma {:induction false} ChainIsSolved(op: CompareOp, e: Expr, k: Int64)
    requires IsRotatable(op) && IsChain(e)
    ensures var n := Rotate(op, e, Lit(DInt(k))); n.Binary? && (n.left.Column? <==> FoldsFit(e, k))
    ensures FoldsFit(e, k) ==>
              && FitsInt64(Solution(e, k))
              && Rotate(op, e, Lit(DInt(k))) ==
                 Binary(Cmp(if Sign(e) == 1 then op else Mirror(op)), ChainColumn(e), Lit(DInt(Solution(e, k))))
    decreases e
  {
    hide IsConst, RotateOnce, Rotate, Solution, FoldsFit, Sign;
    ChainIsNotConst(e);
    ConstantsAreConst(DInt(k));
    RotateUnfold(op, e, Lit(DInt(k)));
    SolutionSolves(e, k);
    if FoldsFit(e, k) { FittingSolution(e, k); }
    if e.Column? {
      ColumnDoesNotRotate(op, e, Lit(DInt(k)));
      ColumnIsSolved(e, k);
    } else {
      ChainTurn(op, e, k);
      SolutionStep(e, k);
      var o := RotateOnce(op, e, Lit(DInt(k)));
      if o.Some? {
        ChainIsSolved(o.value.op, o.value.left, o.value.right.datum.i);
        SolutionSolves(o.value.left, k);
        if o.value.left.Column? { ColumnIsSolved(o.value.left, o.value.right.datum.i); }
      }
    }
  }

  lemma {:induction false} ColumnIsSolved(e: Expr, k: int)
    requires e.Column?
    ensures FoldsFit(e, k) && Solution(e, k) == k && Sign(e) == 1 && ChainColumn(e) == e
  {
  }

  lemma {:induction false} ColumnDoesNotRotate(op: CompareOp, l: Expr, r: Expr)
    requires l.Column?
    ensures RotateOnce(op, l, r).None?
  {
  }

  /** With the constant on the left the comparison is mirrored first. */
  lemma {:induction false} ChainOnTheRight(op: CompareOp, e: Expr, k: Int64)
    requires IsRotatable(op) && IsChain(e)
    ensures Rotate(op, Lit(DInt(k)), e) == Rotate(Mirror(op), e, Lit(DInt(k)))
  {
    hide IsConst, RotateOnce;
    ChainIsNotConst(e);
    ConstantsAreConst(DInt(k));
  }
}
