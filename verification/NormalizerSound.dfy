/**
 Normalization does not change what an expression evaluates to.

 Two rewrites break that promise, each on a family of rows given here exactly:
 -(a - b) becomes b - a, which evaluates b before a NULL in a is noticed; and a quantified
 comparison whose left side normalizes to NULL becomes NULL even over an empty list.
 */
module NormalizerSound {
  import opened Values
  import opened Comparison
  import opened Expr
  import opened EvalLaws
  import opened Normalizer
  import opened NormalizerTypes
  import Arithmetic
  import Tuples

  /** e' answers like e wherever e answers. */
  predicate Refines(e: Expr, e': Expr, row: RowData, m: Subtraction) {
    Agrees(Eval(e, row, m), Eval(e', row, m))
  }

  // ---------------------------------------------------------------------------
  // Constants
  // ---------------------------------------------------------------------------

  /** A constant has the value found for it, on every row. */
  lemma {:induction false} ConstValue(e: Expr, row: RowData, m: Subtraction)
    requires NoColumns(e)
    ensures Agrees(EvalConst(e), Eval(e, row, m))
  {
    EvalGrows(e, NoRow, row, AsWritten, m);
  }

  lemma {:induction false} FoldConstSound(e: Expr, row: RowData, m: Subtraction)
    requires WellTyped(e)
    ensures Refines(e, FoldConst(e), row, m)
  {
    hide IsConst;
    if IsConst(e) {
      ConstHasNoColumns(e);
      ConstValue(e, row, m);
    }
  }

  // ---------------------------------------------------------------------------
  // Unary operators
  // ---------------------------------------------------------------------------

  /** Negating x by swapping the operands of its subtraction meets a failure on the right
      that the NULL on the left would have hidden. */
  predicate SwapFails(x: Expr, row: RowData) {
    IsMinus(x) && Eval(x.left, row, AsWritten) == Ok(DNull) && Eval(x.right, row, AsWritten).Err?
  }

  lemma {:induction false} NegatedDifference(x: Outcome, y: Outcome, m: Subtraction)
    requires m == AsWritten ==> !(x == Ok(DNull) && y.Err?)
    ensures Agrees(NegOutcome(ArithOutcome(Minus, x, y, m)), ArithOutcome(Minus, y, x, m))
  {
    if x.Ok? && y.Ok? && x.value.DInt? && y.value.DInt? {
      Arithmetic.SubChecked(x.value.i, y.value.i);
      Arithmetic.SubChecked(y.value.i, x.value.i);
    }
  }

  lemma {:induction false} NegatedTwice(x: Outcome)
    ensures Agrees(NegOutcome(NegOutcome(x)), x)
  {
  }

  lemma {:induction false} SimplifyNegSound(x: Expr, row: RowData, m: Subtraction)
    requires WellTyped(x) && (m == AsWritten ==> !SwapFails(x, row))
    ensures Refines(Unary(Neg, x), SimplifyNeg(x), row, m)
  {
    if IsMinus(x) {
      NegatedDifference(Eval(x.left, row, m), Eval(x.right, row, m), m);
    } else if x.Unary? && x.uop == Neg {
      NegatedTwice(Eval(x.operand, row, m));
    }
  }

  lemma {:induction false} SimplifyNotSound(x: Expr, row: RowData, m: Subtraction)
    ensures Refines(Unary(Not, x), SimplifyNot(x), row, m)
  {
  }

  lemma {:induction false} SimplifyUnarySound(op: UnaryOp, x: Expr, row: RowData, m: Subtraction)
    requires WellTyped(x)
    requires op == Neg && m == AsWritten ==> !SwapFails(x, row)
    ensures Refines(Unary(op, x), SimplifyUnary(op, x), row, m)
  {
    hide SimplifyNeg, SimplifyNot;
    match op
    case CastTo(_) =>
    case Paren =>
    case Not => SimplifyNotSound(x, row, m);
    case Neg => SimplifyNegSound(x, row, m);
  }

  // ---------------------------------------------------------------------------
  // Arithmetic
  // ---------------------------------------------------------------------------

  /** The neutral elements, whatever the other operand does. */
  lemma {:induction false} NeutralOperand(x: Outcome, m: Subtraction)
    ensures Agrees(ArithOutcome(Plus, x, Ok(DInt(0)), m), CastOutcome(x, IntType))
    ensures Agrees(ArithOutcome(Plus, Ok(DInt(0)), x, m), CastOutcome(x, IntType))
    ensures Agrees(ArithOutcome(Minus, x, Ok(DInt(0)), m), CastOutcome(x, IntType))
    ensures Agrees(ArithOutcome(Mult, x, Ok(DInt(1)), m), CastOutcome(x, IntType))
    ensures Agrees(ArithOutcome(Mult, Ok(DInt(1)), x, m), CastOutcome(x, IntType))
    ensures Agrees(ArithOutcome(FloorDiv, x, Ok(DInt(1)), m), CastOutcome(x, IntType))
  {
    if x.Ok? && x.value.DInt? {
      var i := x.value.i;
      Arithmetic.AddChecked(i, 0);
      Arithmetic.AddChecked(0, i);
      Arithmetic.SubChecked(i, 0);
      Arithmetic.MulChecked(i, 1);
      Arithmetic.MulChecked(1, i);
      assert Arithmetic.TruncDiv(i, 1) == i;
    }
  }

  /** A cast to INT changes nothing about an INT or a NULL. */
  lemma {:induction false} ReTypeSound(x: Expr, o: Outcome, row: RowData, m: Subtraction)
    requires Agrees(o, CastOutcome(Eval(x, row, m), IntType))
    requires o.Ok? ==> o.value.DNull? || o.value.DInt?
    requires o.Ok? && Eval(x, row, m).Ok? ==> HasType(Eval(x, row, m).value, IntType)
    ensures Agrees(o, Eval(ReType(x, IntType), row, m))
  {
  }

  lemma {:induction false} ArithGivesInt(op: ArithOp, x: Outcome, y: Outcome, m: Subtraction)
    ensures var o := ArithOutcome(op, x, y, m); o.Ok? ==> o.value.DNull? || o.value.DInt?
    ensures var o := ArithOutcome(op, x, y, m);
            o.Ok? && x.Ok? && y.Ok? && !x.value.DNull? && !y.value.DNull? ==> x.value.DInt? && y.value.DInt?
  {
  }

  lemma {:induction false} SimplifyArithSound(op: ArithOp, l: Expr, r: Expr, row: RowData, m: Subtraction)
    ensures Refines(Binary(Arith(op), l, r), SimplifyArith(op, l, r), row, m)
  {
    var x, y := Eval(l, row, m), Eval(r, row, m);
    var o := ArithOutcome(op, x, y, m);
    ArithGivesInt(op, x, y, m);
    NeutralOperand(x, m);
    NeutralOperand(y, m);
    if IsNull(l) || IsNull(r) {
    } else if r == Lit(DInt(0)) && (op == Plus || (op == Minus && TypeOf(l) == IntType)) {
      ReTypeSound(l, o, row, m);
    } else if l == Lit(DInt(0)) && op == Plus {
      ReTypeSound(r, o, row, m);
    } else if r == Lit(DInt(1)) && (op == Mult || op == FloorDiv) {
      ReTypeSound(l, o, row, m);
    } else if l == Lit(DInt(1)) && op == Mult {
      ReTypeSound(r, o, row, m);
    }
  }

  // ---------------------------------------------------------------------------
  // AND, OR, IF, COALESCE, rows
  // ---------------------------------------------------------------------------

  /** A constant of type BOOL is TRUE, FALSE or NULL. */
  lemma {:induction false} ConstBool(e: Expr, row: RowData, m: Subtraction)
    requires Fits(e, BoolType) && IsConst(e) && EvalConst(e).Ok?
    ensures EvalConst(e).value.DNull? || EvalConst(e).value.DBool?
    ensures Eval(e, row, m) == EvalConst(e)
  {
    hide IsConst;
    ConstHasNoColumns(e);
    NoColumnsFit(e, NoRow);
    TypeSound(e, NoRow, AsWritten);
    ConstValue(e, row, m);
  }

  lemma {:induction false} SimplifyAndSound(l: Expr, r: Expr, row: RowData, m: Subtraction)
    requires Fits(l, BoolType) && Fits(r, BoolType)
    ensures var o := SimplifyAnd(l, r); o.Ok? ==> Refines(Binary(And, l, r), o.value, row, m)
  {
    hide IsConst, EvalConst, WellTyped, TypeOf;
    assert Eval(NULL, row, m) == Ok(DNull);
    if IsConst(l) && EvalConst(l).Ok? {
      ConstBool(l, row, m);
    } else if IsConst(r) && EvalConst(r).Ok? {
      ConstBool(r, row, m);
    }
  }

  lemma {:induction false} SimplifyOrSound(l: Expr, r: Expr, row: RowData, m: Subtraction)
    requires Fits(l, BoolType) && Fits(r, BoolType)
    ensures var o := SimplifyOr(l, r); o.Ok? ==> Refines(Binary(Or, l, r), o.value, row, m)
  {
    hide IsConst, EvalConst, WellTyped, TypeOf;
    assert Eval(NULL, row, m) == Ok(DNull);
    if IsConst(l) && EvalConst(l).Ok? {
      ConstBool(l, row, m);
    } else if IsConst(r) && EvalConst(r).Ok? {
      ConstBool(r, row, m);
    }
  }

  lemma {:induction false} SimplifyIfSound(c: Expr, t: Expr, x: Expr, typ: Type, row: RowData, m: Subtraction)
    requires Fits(c, BoolType)
    ensures var o := SimplifyIf(c, t, x, typ); o.Ok? ==> Refines(If(c, t, x, typ), o.value, row, m)
  {
    hide IsConst, EvalConst, WellTyped, TypeOf;
    if IsConst(c) && EvalConst(c).Ok? {
      ConstBool(c, row, m);
    }
  }

  lemma {:induction false} CoalesceSuffix(xs: seq<Outcome>, ys: seq<Outcome>, k: nat, i: nat)
    requires k + |ys| == |xs| && forall j | 0 <= j < |ys| :: ys[j] == xs[k + j]
    ensures CoalesceFrom(ys, i) == CoalesceFrom(xs, k + i)
    decreases |ys| - i
  {
    if i < |ys| { CoalesceSuffix(xs, ys, k, i + 1); }
  }

  lemma {:induction false} SimplifyCoalesceSound(es: seq<Expr>, typ: Type, i: nat, row: RowData, m: Subtraction)
    requires AllWellTyped(es)
    ensures var o := SimplifyCoalesceFrom(es, typ, i);
            o.Ok? && (i < |es| || i == 0) ==> Agrees(CoalesceFrom(EvalAll(es, row, m), i), Eval(o.value, row, m))
    decreases |es| - i
  {
    hide IsConst, EvalConst;
    if i >= |es| {
    } else if i == |es| - 1 {
    } else if !IsConst(es[i]) {
      CoalesceSuffix(EvalAll(es, row, m), EvalAll(es[i..], row, m), i, 0);
    } else if EvalConst(es[i]).Ok? {
      assert es[i] in es;
      ConstHasNoColumns(es[i]);
      ConstValue(es[i], row, m);
      SimplifyCoalesceSound(es, typ, i + 1, row, m);
    }
  }

  lemma {:induction false} SimplifyRowSound(es: seq<Expr>, row: RowData, m: Subtraction)
    requires AllWellTyped(es)
    ensures var o := SimplifyRow(es); o.Ok? ==> Refines(List(Row, es), o.value, row, m)
  {
    hide IsConst;
    if forall x <- es :: IsConst(x) {
      forall x | x in es ensures NoColumns(x) { ConstHasNoColumns(x); }
      ConstValue(List(Row, es), row, m);
    }
  }

  // ---------------------------------------------------------------------------
  // Comparisons
  // ---------------------------------------------------------------------------

  lemma {:induction false} MirrorSound(op: CompareOp, l: Expr, r: Expr, row: RowData, m: Subtraction)
    requires op != In && op != NotIn
    ensures Refines(Binary(Cmp(op), l, r), Binary(Cmp(Mirror(op)), r, l), row, m)
  {
    var x, y := Eval(l, row, m), Eval(r, row, m);
    if x.Ok? && y.Ok? { SqlMirror(op, x.value, y.value); }
  }

  /** Moving a constant across a comparison of integers. */
  lemma {:induction false} MoveConstant(op: CompareOp, a: Int64, c: Int64, r: Int64)
    requires IsRotatable(op)
    ensures FitsInt64(a + c) && FitsInt64(r - c) ==> Sql(op, DInt(a + c), DInt(r)) == Sql(op, DInt(a), DInt(r - c))
    ensures FitsInt64(a - c) && FitsInt64(r + c) ==> Sql(op, DInt(a - c), DInt(r)) == Sql(op, DInt(a), DInt(r + c))
    ensures FitsInt64(c - a) && FitsInt64(c - r) ==> Sql(op, DInt(c - a), DInt(r)) == Sql(Mirror(op), DInt(a), DInt(c - r))
  {
  }

  /** A comparison with a NULL is unknown. */
  lemma {:induction false} SqlOfNull(op: CompareOp, x: Datum, y: Datum)
    requires IsOrdering(op) && (x.DNull? || y.DNull?)
    ensures Sql(op, x, y) == Unknown
  {
  }

  /** Sums and differences of integers, without their overflow tests. */
  lemma {:induction false} IntOutcomes(x: Int64, y: Int64)
    ensures ApplyDatums(Plus, DInt(x), DInt(y)) == if FitsInt64(x + y) then Ok(DInt(x + y)) else Err(IntOutOfRange)
    ensures ApplyDatums(Minus, DInt(x), DInt(y)) == if FitsInt64(x - y) then Ok(DInt(x - y)) else Err(IntOutOfRange)
  {
    Arithmetic.AddChecked(x, y);
    Arithmetic.SubChecked(x, y);
  }

  /** The comparison keeps its outcome, or is NULL and has a NULL on the right. */
  predicate Moved(before: Outcome, op: CompareOp, a: Outcome, d: Outcome) {
    before.Ok? && d.Ok? ==> CmpOutcome(op, a, d) == before || (d.value.DNull? && before.value.DNull?)
  }

  /** The right operand of a sum or difference is moved. */
  lemma {:induction false} MoveRight(op: CompareOp, aop: ArithOp, a: Outcome, c: Outcome, r: Outcome, m: Subtraction)
    requires IsRotatable(op) && (aop == Plus || aop == Minus)
    ensures Moved(CmpOutcome(op, ArithOutcome(aop, a, c, m), r), op, a,
                  ArithOutcome(if aop == Plus then Minus else Plus, r, c, AsWritten))
  {
    hide Sql, ApplyDatums;
    var l := ArithOutcome(aop, a, c, m);
    if l.Ok? && r.Ok? {
      if l.value.DNull? || r.value.DNull? {
        SqlOfNull(op, l.value, r.value);
        NullOperand(aop, a, c, m);
        if a.Ok? && a.value.DNull? { NullOnLeft(op, r, c, aop); }
      } else {
        BothInts(aop, a, c, m);
        if r.value.DInt? {
          MoveConstant(op, a.value.i, c.value.i, r.value.i);
          IntOutcomes(a.value.i, c.value.i);
          IntOutcomes(r.value.i, c.value.i);
        } else {
          NotAnInt(r.value, c.value);
        }
      }
    }
  }

  lemma {:induction false} NullOnLeft(op: CompareOp, r: Outcome, c: Outcome, aop: ArithOp)
    requires IsRotatable(op)
    ensures var d := ArithOutcome(aop, r, c, AsWritten); d.Ok? ==> CmpOutcome(op, Ok(DNull), d) == Ok(DNull)
    ensures var d := ArithOutcome(Minus, r, c, AsWritten); d.Ok? ==> CmpOutcome(op, Ok(DNull), d) == Ok(DNull)
    ensures var d := ArithOutcome(Plus, r, c, AsWritten); d.Ok? ==> CmpOutcome(op, Ok(DNull), d) == Ok(DNull)
  {
  }

  lemma {:induction false} NullOperand(aop: ArithOp, a: Outcome, c: Outcome, m: Subtraction)
    ensures ArithOutcome(aop, a, c, m) == Ok(DNull) ==> a == Ok(DNull) || c == Ok(DNull)
  {
  }

  lemma {:induction false} BothInts(aop: ArithOp, a: Outcome, c: Outcome, m: Subtraction)
    requires ArithOutcome(aop, a, c, m).Ok? && !ArithOutcome(aop, a, c, m).value.DNull?
    ensures a.Ok? && c.Ok? && a.value.DInt? && c.value.DInt?
    ensures ArithOutcome(aop, a, c, m) == ApplyDatums(aop, a.value, c.value)
  {
  }

  lemma {:induction false} NotAnInt(x: Datum, y: Datum)
    requires !x.DInt? || !y.DInt?
    ensures ApplyDatums(Plus, x, y).Err? && ApplyDatums(Minus, x, y).Err?
  {
  }

  /** The left operand of a sum or difference is moved. */
  lemma {:induction false} MoveLeft(op: CompareOp, aop: ArithOp, c: Outcome, a: Outcome, r: Outcome, m: Subtraction)
    requires IsRotatable(op) && (aop == Plus || aop == Minus)
    ensures Moved(CmpOutcome(op, ArithOutcome(aop, c, a, m), r), if aop == Plus then op else Mirror(op), a,
                  if aop == Plus then ArithOutcome(Minus, r, c, AsWritten) else ArithOutcome(Minus, c, r, AsWritten))
  {
    hide Sql, ApplyDatums;
    var l := ArithOutcome(aop, c, a, m);
    if l.Ok? && r.Ok? {
      if l.value.DNull? || r.value.DNull? {
        SqlOfNull(op, l.value, r.value);
        NullOperand(aop, c, a, m);
        if a.Ok? && a.value.DNull? {
          NullOnLeft(op, r, c, Minus);
          NullOnLeft(Mirror(op), c, r, Minus);
        }
      } else {
        BothInts(aop, c, a, m);
        if r.value.DInt? {
          MoveConstant(op, a.value.i, c.value.i, r.value.i);
          IntOutcomes(c.value.i, a.value.i);
          IntOutcomes(r.value.i, c.value.i);
          IntOutcomes(c.value.i, r.value.i);
        } else {
          NotAnInt(r.value, c.value);
          NotAnInt(c.value, r.value);
        }
      }
    }
  }

  /** A rotation keeps the answer, or makes the right side NULL where the answer is NULL. */
  predicate RotatedWell(op: CompareOp, l: Expr, r: Expr, n: Rotation, row: RowData, m: Subtraction) {
    Moved(CmpOutcome(op, Eval(l, row, m), Eval(r, row, m)), n.op, Eval(n.left, row, m), Eval(n.right, row, m))
  }

  lemma {:induction false} RotateRightSound(op: CompareOp, aop: ArithOp, a: Expr, c: Expr, r: Expr, d: Datum, row: RowData, m: Subtraction)
    requires IsRotatable(op) && (aop == Plus || aop == Minus) && NoColumns(c) && NoColumns(r)
    requires EvalConst(Binary(Arith(if aop == Plus then Minus else Plus), r, c)) == Ok(d)
    ensures RotatedWell(op, Binary(Arith(aop), a, c), r, Rotation(op, a, Lit(d)), row, m)
  {
    hide CmpOutcome, ArithOutcome, EvalConst;
    MovedConst(if aop == Plus then Minus else Plus, r, c, row, m);
    MoveRight(op, aop, Eval(a, row, m), Eval(c, row, m), Eval(r, row, m), m);
  }

  lemma {:induction false} RotateLeftSound(op: CompareOp, aop: ArithOp, c: Expr, a: Expr, r: Expr, d: Datum, row: RowData, m: Subtraction)
    requires IsRotatable(op) && (aop == Plus || aop == Minus) && NoColumns(c) && NoColumns(r)
    requires EvalConst(if aop == Plus then Binary(Arith(Minus), r, c) else Binary(Arith(Minus), c, r)) == Ok(d)
    ensures RotatedWell(op, Binary(Arith(aop), c, a), r, Rotation(if aop == Plus then op else Mirror(op), a, Lit(d)), row, m)
  {
    hide CmpOutcome, ArithOutcome, EvalConst;
    if aop == Plus { MovedConst(Minus, r, c, row, m); } else { MovedConst(Minus, c, r, row, m); }
    MoveLeft(op, aop, Eval(c, row, m), Eval(a, row, m), Eval(r, row, m), m);
  }

  lemma {:induction false} RotateOnceSound(op: CompareOp, l: Expr, r: Expr, row: RowData, m: Subtraction)
    requires IsRotatable(op) && IsConst(r) && WellTyped(l) && WellTyped(r)
    ensures var o := RotateOnce(op, l, r); o.Some? ==> RotatedWell(op, l, r, o.value, row, m)
  {
    hide IsConst, Eval, EvalConst, Moved;
    if RotateOnce(op, l, r).Some? {
      var d := RotateOnce(op, l, r).value.right.datum;
      ConstHasNoColumns(r);
      if IsConst(l.right) {
        ConstHasNoColumns(l.right);
        RotateRightSound(op, l.bop.aop, l.left, l.right, r, d, row, m);
      } else {
        ConstHasNoColumns(l.left);
        RotateLeftSound(op, l.bop.aop, l.left, l.right, r, d, row, m);
      }
    }
  }

  /** The folded constant is the result of the operation on the row's values too. */
  lemma {:induction false} MovedConst(op: ArithOp, x: Expr, y: Expr, row: RowData, m: Subtraction)
    requires NoColumns(x) && NoColumns(y)
    ensures Agrees(EvalConst(Binary(Arith(op), x, y)), ArithOutcome(op, Eval(x, row, m), Eval(y, row, m), AsWritten))
  {
    ConstValue(x, row, m);
    ConstValue(y, row, m);
    ArithMonotone(op, EvalConst(x), EvalConst(y), Eval(x, row, m), Eval(y, row, m), AsWritten, AsWritten);
  }

  lemma {:induction false} NullComparison(op: CompareOp, l: Expr, r: Expr, row: RowData, m: Subtraction)
    requires IsOrdering(op) && (IsNull(l) || IsNull(r))
    ensures Refines(Binary(Cmp(op), l, r), NULL, row, m)
    ensures Eval(NULL, row, m) == Ok(DNull)
  {
  }

  /** One turn: the constant is on the right, and an operand has been moved there. */
  lemma {:induction false} TurnSound(op: CompareOp, l: Expr, r: Expr, row: RowData, m: Subtraction)
    requires IsRotatable(op) && ComparesWell(l, r) && ConstRight(op, l, r).Some?
    ensures var c := ConstRight(op, l, r).value;
            var o := RotateOnce(c.op, c.left, c.right);
            var before := Eval(Binary(Cmp(op), l, r), row, m);
            && Refines(Binary(Cmp(op), l, r), Binary(Cmp(c.op), c.left, c.right), row, m)
            && IsRotatable(c.op)
            && (o.Some? && before.Ok? && before.value != DNull ==>
                  Eval(Binary(Cmp(o.value.op), o.value.left, o.value.right), row, m) == before)
            && (o.Some? && before.Ok? && !IsNull(o.value.right) ==>
                  Eval(Binary(Cmp(o.value.op), o.value.left, o.value.right), row, m) == before)
  {
    hide IsConst, RotateOnce, WellTyped, TypeOf, CmpOutcome;
    var c := ConstRight(op, l, r).value;
    MirrorSound(op, l, r, row, m);
    RotateOnceSound(c.op, c.left, c.right, row, m);
    RotateOnceOps(c.op, c.left, c.right);
  }

  lemma {:induction false} RotateSound(op: CompareOp, l: Expr, r: Expr, row: RowData, m: Subtraction)
    requires IsRotatable(op) && ComparesWell(l, r)
    ensures Refines(Binary(Cmp(op), l, r), Rotate(op, l, r), row, m)
    decreases Size(l) + Size(r)
  {
    hide IsConst, RotateOnce, WellTyped, TypeOf, Eval, Rotate, Size;
    RotateUnfold(op, l, r);
    if IsNull(l) || IsNull(r) {
      NullComparison(op, l, r, row, m);
    } else if ConstRight(op, l, r).Some? {
      var c := ConstRight(op, l, r).value;
      TurnSound(op, l, r, row, m);
      RotateOnceFits(c.op, c.left, c.right);
      RotateOnceShrinks(c.op, c.left, c.right);
      RotateOnceOps(c.op, c.left, c.right);
      if RotateOnce(c.op, c.left, c.right).Some? {
        var n := RotateOnce(c.op, c.left, c.right).value;
        if n.left.Column? {
          ColumnAgainstNull(n.op, n.left, n.right, row, m);
        } else {
          RotateSound(n.op, n.left, n.right, row, m);
          RotateToNull(n.op, n.left, n.right, row, m);
        }
      }
    }
  }

  lemma {:induction false} RotateToNull(op: CompareOp, l: Expr, r: Expr, row: RowData, m: Subtraction)
    ensures IsNull(r) ==> Eval(Rotate(op, l, r), row, m) == Ok(DNull)
  {
    hide IsConst, RotateOnce;
  }

  /** One turn of the rotation. */
  lemma {:induction false} RotateUnfold(op: CompareOp, l: Expr, r: Expr)
    ensures Rotate(op, l, r) ==
              if IsNull(l) || IsNull(r) then NULL
              else if ConstRight(op, l, r).None? then Binary(Cmp(op), l, r)
              else
                var c := ConstRight(op, l, r).value;
                var o := RotateOnce(c.op, c.left, c.right);
                if o.None? then Binary(Cmp(c.op), c.left, c.right)
                else if o.value.left.Column? then Binary(Cmp(o.value.op), o.value.left, o.value.right)
                else Rotate(o.value.op, o.value.left, o.value.right)
  {
    hide IsConst, RotateOnce;
  }

  lemma {:induction false} RotateOnceOps(op: CompareOp, l: Expr, r: Expr)
    requires IsRotatable(op)
    ensures var o := RotateOnce(op, l, r); o.Some? ==> IsRotatable(o.value.op) && o.value.right.Lit?
  {
    hide IsConst, EvalConst;
  }

  lemma {:induction false} ColumnAgainstNull(op: CompareOp, l: Expr, r: Expr, row: RowData, m: Subtraction)
    requires IsRotatable(op) && l.Column?
    ensures IsNull(r) ==> Eval(Binary(Cmp(op), l, r), row, m) == Ok(DNull)
  {
  }

  lemma {:induction false} SimplifyInSound(op: CompareOp, l: Expr, r: Expr, row: RowData, m: Subtraction)
    requires IsListOp(op)
    ensures Refines(Binary(Cmp(op), l, r), SimplifyIn(op, l, r), row, m)
  {
    hide In3, Tuples.SortedUnique;
    if r.Lit? && r.datum.DTuple? && Eval(l, row, m).Ok? {
      var ds, x := r.datum.elems, Eval(l, row, m).value;
      var us := Tuples.SortedUnique(ds);
      Tuples.InNormalizedList(x, ds);
      InSingleNull(x);
      InOfNull(us);
      assert Eval(r, row, m) == Ok(DTuple(ds));
      assert Eval(Lit(DTuple(us)), row, m) == Ok(DTuple(us));
    }
  }

  lemma {:induction false} InSingleNull(x: Datum)
    ensures In3(x, [DNull]) == Unknown && In3(x, []) == False
  {
    assert [DNull][..0] == [] && Any3(EQ, x, []) == False;
  }

  lemma {:induction false} InOfNull(vs: seq<Datum>)
    ensures In3(DNull, vs) == if vs == [] then False else Unknown
  {
    if vs != [] { InOfNull(vs[..|vs| - 1]); }
  }

  lemma {:induction false} SimplifyCmpSound(op: CompareOp, l: Expr, r: Expr, row: RowData, m: Subtraction)
    requires WellTyped(Binary(Cmp(op), l, r))
    ensures Refines(Binary(Cmp(op), l, r), SimplifyCmp(op, l, r), row, m)
  {
    hide Rotate, SimplifyIn, IsConst;
    if IsRotatable(op) {
      RotateSound(op, l, r, row, m);
    } else if IsListOp(op) {
      SimplifyInSound(op, l, r, row, m);
    } else if op == NE {
      if IsNull(l) || IsNull(r) { NullComparison(op, l, r, row, m); }
    } else {
      MirrorSound(op, l, r, row, m);
    }
  }

  /** A quantified comparison is made NULL although its list has no elements. */
  predicate QuantifierFails(l: Expr, r: Expr, row: RowData, m: Subtraction) {
    IsNull(l) && Eval(r, row, m) == Ok(DTuple([]))
  }

  lemma {:induction false} QuantifyNull(all: bool, op: Ordering, vs: seq<Datum>)
    requires IsOrdering(op)
    ensures Quantify(all, op, DNull, vs) == if vs == [] then TruthOf(all) else Unknown
  {
    if vs != [] { QuantifyNull(all, op, vs[..|vs| - 1]); }
  }

  lemma {:induction false} SimplifyQuantifiedSound(all: bool, op: Ordering, l: Expr, r: Expr, row: RowData, m: Subtraction)
    requires !QuantifierFails(l, r, row, m)
    ensures Refines(Binary(Quantified(all, op), l, r), SimplifyQuantified(all, op, l, r), row, m)
  {
    if Eval(r, row, m).Ok? && Eval(r, row, m).value.DTuple? {
      QuantifyNull(all, op, Eval(r, row, m).value.elems);
    }
  }
}
