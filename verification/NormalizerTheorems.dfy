/**
 The theorems about normalization as a whole.
 */
module NormalizerTheorems {
  import opened Values
  import opened Comparison
  import opened Expr
  import opened EvalLaws
  import opened Normalizer
  import opened NormalizerTypes
  import opened NormalizerSound
  import Tuples

  // ---------------------------------------------------------------------------
  // BETWEEN
  // ---------------------------------------------------------------------------

  predicate IsBool(x: Outcome) { x.Ok? ==> x.value.DNull? || x.value.DBool? }

  lemma {:induction false} CmpIsBool(op: CompareOp, x: Outcome, y: Outcome)
    ensures IsBool(CmpOutcome(op, x, y))
  {
  }

  lemma {:induction false} DeMorgan(x: Outcome, y: Outcome)
    requires IsBool(x) && IsBool(y)
    ensures NotOutcome(AndOutcome(x, y)) == OrOutcome(NotOutcome(x), NotOutcome(y))
    ensures NotOutcome(OrOutcome(x, y)) == AndOutcome(NotOutcome(x), NotOutcome(y))
    ensures IsBool(AndOutcome(x, y)) && IsBool(OrOutcome(x, y))
  {
  }

  lemma {:induction false} CmpNegates(op: CompareOp, x: Outcome, y: Outcome)
    ensures CmpOutcome(Complement(op), x, y) == NotOutcome(CmpOutcome(op, x, y))
  {
    if x.Ok? && y.Ok? { SqlComplement(op, x.value, y.value); }
  }

  /** BETWEEN without SYMMETRIC. */
  function BoundsOutcome(n: bool, x: Outcome, xTo: Outcome, lo: Outcome, hi: Outcome): Outcome {
    if n then OrOutcome(CmpOutcome(LT, x, lo), CmpOutcome(GT, xTo, hi))
    else AndOutcome(CmpOutcome(GE, x, lo), CmpOutcome(LE, xTo, hi))
  }

  /** The standard's NOT (x BETWEEN lo AND hi) is the disjunction of the opposite bounds, and
      NOT BETWEEN SYMMETRIC the conjunction of two of them. */
  lemma {:induction false} BetweenByBounds(n: bool, s: bool, x: Outcome, xTo: Outcome, lo: Outcome, hi: Outcome)
    ensures BetweenOutcome(n, s, x, xTo, lo, hi) ==
              var a, b := BoundsOutcome(n, x, xTo, lo, hi), BoundsOutcome(n, x, xTo, hi, lo);
              if !s then a else if n then AndOutcome(a, b) else OrOutcome(a, b)
  {
    hide CmpOutcome, AndOutcome, OrOutcome, NotOutcome;
    var p, q := CmpOutcome(GE, x, lo), CmpOutcome(LE, xTo, hi);
    var p', q' := CmpOutcome(GE, x, hi), CmpOutcome(LE, xTo, lo);
    CmpIsBool(GE, x, lo);
    CmpIsBool(LE, xTo, hi);
    CmpIsBool(GE, x, hi);
    CmpIsBool(LE, xTo, lo);
    CmpNegates(GE, x, lo);
    CmpNegates(LE, xTo, hi);
    CmpNegates(GE, x, hi);
    CmpNegates(LE, xTo, lo);
    DeMorgan(p, q);
    DeMorgan(p', q');
    DeMorgan(AndOutcome(p, q), AndOutcome(p', q'));
  }

  lemma {:induction false} NullBounds(n: bool, x: Outcome, xTo: Outcome, lo: Outcome, hi: Outcome)
    requires (x == Ok(DNull) && xTo == Ok(DNull)) || (lo == Ok(DNull) && hi == Ok(DNull))
    ensures Agrees(BoundsOutcome(n, x, xTo, lo, hi), Ok(DNull))
  {
  }

  lemma {:induction false} BetweenOfNull(n: bool, s: bool, x: Outcome, xTo: Outcome, lo: Outcome, hi: Outcome)
    requires (x == Ok(DNull) && xTo == Ok(DNull)) || (lo == Ok(DNull) && hi == Ok(DNull))
    ensures Agrees(BetweenOutcome(n, s, x, xTo, lo, hi), Ok(DNull))
  {
    hide BoundsOutcome;
    BetweenByBounds(n, s, x, xTo, lo, hi);
    NullBounds(n, x, xTo, lo, hi);
    NullBounds(n, x, xTo, hi, lo);
  }

  lemma {:induction false} BoundSound(op: CompareOp, x: Expr, b: Expr, row: RowData, m: Subtraction)
    requires IsRotatable(op) && ComparesWell(x, b)
    ensures Refines(Binary(Cmp(op), x, b), Bound(op, x, b), row, m)
  {
    hide Rotate, WellTyped, TypeOf;
    if IsNull(b) { NullComparison(op, x, b, row, m); } else { RotateSound(op, x, b, row, m); }
  }

  lemma {:induction false} BetweenBoundsSound(n: bool, x: Expr, xTo: Expr, lo: Expr, hi: Expr, row: RowData, m: Subtraction)
    requires ComparesWell(x, lo) && ComparesWell(xTo, hi)
    ensures var o := BetweenBounds(n, x, xTo, lo, hi);
            o.Ok? ==> Agrees(BoundsOutcome(n, Eval(x, row, m), Eval(xTo, row, m), Eval(lo, row, m), Eval(hi, row, m)),
                             Eval(o.value, row, m))
  {
    hide Bound, SimplifyAnd, SimplifyOr, WellTyped, TypeOf, CmpOutcome, AndOutcome, OrOutcome;
    if n {
      BoundSound(LT, x, lo, row, m);
      BoundSound(GT, xTo, hi, row, m);
      BoundFits(LT, x, lo);
      BoundFits(GT, xTo, hi);
      var l, r := Bound(LT, x, lo), Bound(GT, xTo, hi);
      AndOrMonotone(Eval(Binary(Cmp(LT), x, lo), row, m), Eval(Binary(Cmp(GT), xTo, hi), row, m), Eval(l, row, m), Eval(r, row, m));
      SimplifyOrSound(l, r, row, m);
    } else {
      BoundSound(GE, x, lo, row, m);
      BoundSound(LE, xTo, hi, row, m);
      BoundFits(GE, x, lo);
      BoundFits(LE, xTo, hi);
      var l, r := Bound(GE, x, lo), Bound(LE, xTo, hi);
      AndOrMonotone(Eval(Binary(Cmp(GE), x, lo), row, m), Eval(Binary(Cmp(LE), xTo, hi), row, m), Eval(l, row, m), Eval(r, row, m));
      SimplifyAndSound(l, r, row, m);
    }
  }

  /** The expansion of BETWEEN means what the standard says, NULL operands included. */
  lemma {:induction false} SimplifyBetweenSound(n: bool, s: bool, x: Expr, lo: Expr, hi: Expr, row: RowData, m: Subtraction)
    requires ComparesWell(x, lo) && ComparesWell(x, hi)
    ensures var o := SimplifyBetween(n, s, x, x, lo, hi); o.Ok? ==> Refines(Between(n, s, x, x, lo, hi), o.value, row, m)
  {
    hide BetweenBounds, SimplifyAnd, SimplifyOr, WellTyped, TypeOf, BetweenOutcome, BoundsOutcome, AndOutcome, OrOutcome;
    var vx, vlo, vhi := Eval(x, row, m), Eval(lo, row, m), Eval(hi, row, m);
    assert Eval(Between(n, s, x, x, lo, hi), row, m) == BetweenOutcome(n, s, vx, vx, vlo, vhi);
    var a, b := BetweenBounds(n, x, x, lo, hi), BetweenBounds(n, x, x, hi, lo);
    if IsNull(x) || (IsNull(lo) && IsNull(hi)) {
      BetweenOfNull(n, s, vx, vx, vlo, vhi);
    } else if a.Ok? {
      BetweenByBounds(n, s, vx, vx, vlo, vhi);
      BetweenBoundsSound(n, x, x, lo, hi, row, m);
      BetweenBoundsSound(n, x, x, hi, lo, row, m);
      BetweenBoundsFits(n, x, x, lo, hi);
      BetweenBoundsFits(n, x, x, hi, lo);
      if s && b.Ok? {
        AndOrMonotone(BoundsOutcome(n, vx, vx, vlo, vhi), BoundsOutcome(n, vx, vx, vhi, vlo),
                      Eval(a.value, row, m), Eval(b.value, row, m));
        if n { SimplifyAndSound(a.value, b.value, row, m); } else { SimplifyOrSound(a.value, b.value, row, m); }
      }
    }
  }

  /** BETWEEN SYMMETRIC does not distinguish its bounds. */
  lemma {:induction false} SymmetricBounds(n: bool, x: Outcome, lo: Outcome, hi: Outcome)
    ensures var a, b := BetweenOutcome(n, true, x, x, lo, hi), BetweenOutcome(n, true, x, x, hi, lo);
            if x.Ok? && lo.Ok? && hi.Ok? then a == b && a.Ok? else a.Err? && b.Err?
  {
    BoundOutcome(GE, x, lo);
    BoundOutcome(LE, x, hi);
    BoundOutcome(GE, x, hi);
    BoundOutcome(LE, x, lo);
    hide CmpOutcome;
  }

  /** A bound has an answer exactly if both of its operands have one. */
  lemma {:induction false} BoundOutcome(op: CompareOp, x: Outcome, y: Outcome)
    ensures IsBool(CmpOutcome(op, x, y)) && (CmpOutcome(op, x, y).Ok? <==> x.Ok? && y.Ok?)
  {
    CmpIsBool(op, x, y);
  }

  // ---------------------------------------------------------------------------
  // The whole walk
  // ---------------------------------------------------------------------------

  /** No negation in e swaps a subtraction on this row to a failing operand. */
  predicate SwapsSafe(e: Expr, row: RowData) {
    match e
    case Lit(_) => true
    case Column(_, _) => true
    case Unary(op, x) =>
      SwapsSafe(x, row) && (op == Neg && Normalize(x).Ok? ==> !SwapFails(Normalize(x).value, row))
    case Binary(_, l, r) => SwapsSafe(l, row) && SwapsSafe(r, row)
    case If(c, t, x, _) => SwapsSafe(c, row) && SwapsSafe(t, row) && SwapsSafe(x, row)
    case List(_, xs) => forall x <- xs :: SwapsSafe(x, row)
    case Between(_, _, x, xTo, lo, hi) =>
      SwapsSafe(x, row) && SwapsSafe(xTo, row) && SwapsSafe(lo, row) && SwapsSafe(hi, row)
  }

  /** No quantified comparison in e has a left side that normalizes to NULL and, on this row,
      an empty list. */
  predicate QuantifiersSafe(e: Expr, row: RowData) {
    match e
    case Lit(_) => true
    case Column(_, _) => true
    case Unary(_, x) => QuantifiersSafe(x, row)
    case Binary(op, l, r) =>
      && QuantifiersSafe(l, row) && QuantifiersSafe(r, row)
      && (op.Quantified? && Normalize(l).Ok? && IsNull(Normalize(l).value) ==> Eval(r, row, NullFirst) != Ok(DTuple([])))
    case If(c, t, x, _) => QuantifiersSafe(c, row) && QuantifiersSafe(t, row) && QuantifiersSafe(x, row)
    case List(_, xs) => forall x <- xs :: QuantifiersSafe(x, row)
    case Between(_, _, x, xTo, lo, hi) =>
      QuantifiersSafe(x, row) && QuantifiersSafe(xTo, row) && QuantifiersSafe(lo, row) && QuantifiersSafe(hi, row)
  }

  lemma {:induction false} SimplifyBinarySound(op: BinaryOp, l: Expr, r: Expr, row: RowData, m: Subtraction)
    requires WellTyped(Binary(op, l, r))
    requires op.Quantified? ==> !QuantifierFails(l, r, row, m)
    ensures var o := SimplifyBinary(op, l, r); o.Ok? ==> Refines(Binary(op, l, r), o.value, row, m)
  {
    hide SimplifyAnd, SimplifyOr, SimplifyArith, SimplifyCmp, SimplifyQuantified, Eval;
    match op
    case And => SimplifyAndSound(l, r, row, m);
    case Or => SimplifyOrSound(l, r, row, m);
    case Arith(aop) => SimplifyArithSound(aop, l, r, row, m);
    case Cmp(cop) => SimplifyCmpSound(cop, l, r, row, m);
    case Quantified(all, cop) => SimplifyQuantifiedSound(all, cop, l, r, row, m);
  }

  /** The operands are replaced by refinements, then the node is simplified. */
  lemma {:induction false} BinarySound(op: BinaryOp, l: Expr, r: Expr, l': Expr, r': Expr, row: RowData, m: Subtraction)
    requires WellTyped(Binary(op, l', r')) && Refines(l, l', row, m) && Refines(r, r', row, m)
    requires op.Quantified? && IsNull(l') ==> Eval(r, row, NullFirst) != Ok(DTuple([]))
    ensures var o := SimplifyBinary(op, l', r'); o.Ok? ==> Refines(Binary(op, l, r), o.value, row, m)
  {
    hide SimplifyBinary, WellTyped, BinaryOutcome;
    var before := Eval(Binary(op, l, r), row, m);
    assert before == BinaryOutcome(op, Eval(l, row, m), Eval(r, row, m), m);
    assert Eval(Binary(op, l', r'), row, m) == BinaryOutcome(op, Eval(l', row, m), Eval(r', row, m), m);
    BinaryMonotone(op, Eval(l, row, m), Eval(r, row, m), Eval(l', row, m), Eval(r', row, m), m, m);
    EvalGrows(r, row, row, m, NullFirst);
    if before.Ok? {
      QuantifiedNeedsList(op, Eval(l, row, m), Eval(r, row, m), m);
      SimplifyBinarySound(op, l', r', row, m);
    }
  }

  lemma {:induction false} QuantifiedNeedsList(op: BinaryOp, x: Outcome, y: Outcome, m: Subtraction)
    requires BinaryOutcome(op, x, y, m).Ok?
    ensures op.Quantified? ==> y.Ok?
  {
  }

  lemma {:induction false} UnarySound(op: UnaryOp, x: Expr, x': Expr, row: RowData, m: Subtraction)
    requires WellTyped(x') && Refines(x, x', row, m)
    requires op == Neg && m == AsWritten ==> !SwapFails(x', row)
    ensures Refines(Unary(op, x), SimplifyUnary(op, x'), row, m)
  {
    hide SimplifyUnary, WellTyped, UnaryOutcome;
    assert Eval(Unary(op, x), row, m) == UnaryOutcome(op, Eval(x, row, m));
    assert Eval(Unary(op, x'), row, m) == UnaryOutcome(op, Eval(x', row, m));
    UnaryMonotone(op, Eval(x, row, m), Eval(x', row, m));
    SimplifyUnarySound(op, x', row, m);
  }

  lemma {:induction false} ListSound(op: ListOp, xs: seq<Expr>, ys: seq<Expr>, row: RowData, m: Subtraction)
    requires AllWellTyped(ys) && |xs| == |ys| && forall i | 0 <= i < |xs| :: Refines(xs[i], ys[i], row, m)
    ensures var o := SimplifyList(op, ys); o.Ok? ==> Refines(List(op, xs), o.value, row, m)
  {
    hide WellTyped, SimplifyRow, SimplifyCoalesceFrom, IsConst;
    var before, after := EvalAll(xs, row, m), EvalAll(ys, row, m);
    assert AllAgree(before, after);
    ListMonotone(op, before, after);
    match op
    case Coalesce(typ) => SimplifyCoalesceSound(ys, typ, 0, row, m);
    case Row => SimplifyRowSound(ys, row, m);
  }

  lemma {:induction false} IfSound(c: Expr, t: Expr, x: Expr, typ: Type, c': Expr, t': Expr, x': Expr, row: RowData, m: Subtraction)
    requires Fits(c', BoolType) && Refines(c, c', row, m) && Refines(t, t', row, m) && Refines(x, x', row, m)
    ensures var o := SimplifyIf(c', t', x', typ); o.Ok? ==> Refines(If(c, t, x, typ), o.value, row, m)
  {
    hide SimplifyIf, WellTyped, TypeOf;
    SimplifyIfSound(c', t', x', typ, row, m);
  }

  lemma {:induction false} BetweenSound(n: bool, s: bool, x: Expr, lo: Expr, hi: Expr, x': Expr, lo': Expr, hi': Expr, row: RowData, m: Subtraction)
    requires ComparesWell(x', lo') && ComparesWell(x', hi')
    requires Refines(x, x', row, m) && Refines(lo, lo', row, m) && Refines(hi, hi', row, m)
    ensures var o := SimplifyBetween(n, s, x', x', lo', hi'); o.Ok? ==> Refines(Between(n, s, x, x, lo, hi), o.value, row, m)
  {
    hide SimplifyBetween, WellTyped, TypeOf, BetweenOutcome;
    BetweenMonotone(n, s, Eval(x, row, m), Eval(x, row, m), Eval(lo, row, m), Eval(hi, row, m),
                    Eval(x', row, m), Eval(x', row, m), Eval(lo', row, m), Eval(hi', row, m));
    SimplifyBetweenSound(n, s, x', lo', hi', row, m);
  }

  /** Wherever e has a value, so has its normal form, and it is the same. */
  lemma {:induction false} NormalizeSound(e: Expr, row: RowData, m: Subtraction)
    requires WellTyped(e) && Normalize(e).Ok?
    requires QuantifiersSafe(e, row) && (m == AsWritten ==> SwapsSafe(e, row))
    ensures Refines(e, Normalize(e).value, row, m)
    decreases e, 1
  {
    hide Eval, FoldConst, TypeOf;
    SimplifiedSound(e, row, m);
    SimplifiedKeepsTypes(e);
    FoldConstSound(Simplified(e).value, row, m);
  }

  lemma {:induction false} SimplifiedSound(e: Expr, row: RowData, m: Subtraction)
    requires WellTyped(e) && Simplified(e).Ok?
    requires QuantifiersSafe(e, row) && (m == AsWritten ==> SwapsSafe(e, row))
    ensures Refines(e, Simplified(e).value, row, m)
    decreases e, 0
  {
    hide Eval, SimplifyUnary, SimplifyBinary, SimplifyIf, SimplifyList, SimplifyBetween;
    match e
    case Lit(_) =>
    case Column(_, _) =>
    case Unary(op, x) =>
      NormalizeSound(x, row, m);
      NormalizeKeepsTypes(x);
      UnarySound(op, x, Normalize(x).value, row, m);
    case Binary(op, l, r) =>
      NormalizeSound(l, row, m);
      NormalizeSound(r, row, m);
      NormalizeKeepsTypes(l);
      NormalizeKeepsTypes(r);
      BinarySound(op, l, r, Normalize(l).value, Normalize(r).value, row, m);
    case If(c, t, x, typ) =>
      NormalizeSound(c, row, m);
      NormalizeSound(t, row, m);
      NormalizeSound(x, row, m);
      NormalizeKeepsTypes(c);
      IfSound(c, t, x, typ, Normalize(c).value, Normalize(t).value, Normalize(x).value, row, m);
    case List(op, xs) =>
      NormalizeAllKeepsTypes(xs);
      NormalizeAllSound(xs, row, m);
      ListSound(op, xs, NormalizeAll(xs).value, row, m);
    case Between(n, s, x, _, lo, hi) =>
      NormalizeSound(x, row, m);
      NormalizeSound(lo, row, m);
      NormalizeSound(hi, row, m);
      NormalizeKeepsTypes(x);
      NormalizeKeepsTypes(lo);
      NormalizeKeepsTypes(hi);
      BetweenSound(n, s, x, lo, hi, Normalize(x).value, Normalize(lo).value, Normalize(hi).value, row, m);
  }

  lemma {:induction false} NormalizeAllSound(es: seq<Expr>, row: RowData, m: Subtraction)
    requires AllWellTyped(es) && NormalizeAll(es).Ok?
    requires forall x <- es :: QuantifiersSafe(x, row) && (m == AsWritten ==> SwapsSafe(x, row))
    ensures forall i | 0 <= i < |es| :: Refines(es[i], NormalizeAll(es).value[i], row, m)
    decreases es, 0
  {
    forall i | 0 <= i < |es| ensures Refines(es[i], NormalizeAll(es).value[i], row, m) {
      NormalizeAllAt(es, i);
      NormalizeSound(es[i], row, m);
    }
  }

  // ---------------------------------------------------------------------------
  // The promise, and where it is broken
  // ---------------------------------------------------------------------------

  /** Evaluating the normal form gives the original's result. */
  lemma {:induction false} NormalizePreservesResult(e: Expr, row: RowData)
    requires WellTyped(e) && Normalize(e).Ok? && Eval(e, row, AsWritten).Ok?
    requires QuantifiersSafe(e, row) && SwapsSafe(e, row)
    ensures Eval(Normalize(e).value, row, AsWritten) == Eval(e, row, AsWritten)
  {
    NormalizeSound(e, row, AsWritten);
  }

  /** Neither a unary minus nor ANY or ALL anywhere: something to be seen before normalizing. */
  predicate IsOrdinary(e: Expr) {
    match e
    case Lit(_) => true
    case Column(_, _) => true
    case Unary(op, x) => op != Neg && IsOrdinary(x)
    case Binary(op, l, r) => !op.Quantified? && IsOrdinary(l) && IsOrdinary(r)
    case If(c, t, x, _) => IsOrdinary(c) && IsOrdinary(t) && IsOrdinary(x)
    case List(_, xs) => forall x <- xs :: IsOrdinary(x)
    case Between(_, _, x, xTo, lo, hi) => IsOrdinary(x) && IsOrdinary(xTo) && IsOrdinary(lo) && IsOrdinary(hi)
  }

  lemma {:induction false} OrdinaryIsSafe(e: Expr, row: RowData)
    requires IsOrdinary(e)
    ensures SwapsSafe(e, row) && QuantifiersSafe(e, row)
  {
    hide Normalize, Eval, SwapFails;
    match e
    case Lit(_) =>
    case Column(_, _) =>
    case Unary(_, x) => OrdinaryIsSafe(x, row);
    case Binary(_, l, r) => OrdinaryIsSafe(l, row); OrdinaryIsSafe(r, row);
    case If(c, t, x, _) => OrdinaryIsSafe(c, row); OrdinaryIsSafe(t, row); OrdinaryIsSafe(x, row);
    case List(_, xs) => forall x | x in xs ensures SwapsSafe(x, row) && QuantifiersSafe(x, row) { OrdinaryIsSafe(x, row); }
    case Between(_, _, x, xTo, lo, hi) =>
      OrdinaryIsSafe(x, row);
      OrdinaryIsSafe(xTo, row);
      OrdinaryIsSafe(lo, row);
      OrdinaryIsSafe(hi, row);
  }

  /** Ordinary expressions keep their result on every row. */
  lemma {:induction false} NormalizePreservesOrdinary(e: Expr, row: RowData)
    requires WellTyped(e) && IsOrdinary(e) && Normalize(e).Ok? && Eval(e, row, AsWritten).Ok?
    ensures Eval(Normalize(e).value, row, AsWritten) == Eval(e, row, AsWritten)
  {
    hide Eval, Normalize, WellTyped, SwapsSafe, QuantifiersSafe;
    OrdinaryIsSafe(e, row);
    NormalizePreservesResult(e, row);
  }

  /** Swapped subtractions can turn a result into an error, but never into another result. */
  lemma {:induction false} NormalizeNeverDisagrees(e: Expr, row: RowData)
    requires WellTyped(e) && Normalize(e).Ok? && QuantifiersSafe(e, row)
    requires Eval(e, row, AsWritten).Ok? && Eval(Normalize(e).value, row, AsWritten).Ok?
    ensures Eval(Normalize(e).value, row, AsWritten) == Eval(e, row, AsWritten)
  {
    hide Eval, Normalize, WellTyped;
    EvalGrows(e, row, row, AsWritten, NullFirst);
    EvalGrows(Normalize(e).value, row, row, AsWritten, NullFirst);
    NormalizeSound(e, row, NullFirst);
  }

  lemma {:induction false} FoldConstKeepsErrors(e: Expr, row: RowData)
    requires WellTyped(e) && Eval(e, row, AsWritten).Err?
    ensures FoldConst(e) == e
  {
    hide IsConst, Eval;
    if IsConst(e) {
      ConstHasNoColumns(e);
      ConstValue(e, row, AsWritten);
    }
  }

  /** A negation keeps its result on a row exactly when it is not the swap of a subtraction
      whose left operand is NULL there and whose right operand fails. */
  lemma {:induction false} NegationExact(x: Expr, row: RowData)
    requires WellTyped(Unary(Neg, x)) && Normalize(x).Ok? && Eval(Unary(Neg, x), row, AsWritten).Ok?
    requires QuantifiersSafe(x, row) && SwapsSafe(x, row)
    ensures Normalize(Unary(Neg, x)).Ok?
    ensures (Eval(Normalize(Unary(Neg, x)).value, row, AsWritten) == Eval(Unary(Neg, x), row, AsWritten))
            <==> !SwapFails(Normalize(x).value, row)
  {
    var x' := Normalize(x).value;
    NormalizeKeepsTypes(x);
    if SwapFails(x', row) {
      var swapped := Binary(Arith(Minus), x'.right, x'.left);
      assert Simplified(Unary(Neg, x)) == Ok(swapped);
      FoldConstKeepsErrors(swapped, row);
    } else {
      NormalizeSound(Unary(Neg, x), row, AsWritten);
    }
  }

  /** A quantified comparison keeps its result on a row exactly when it is not a comparison
      of NULL with an empty list. */
  lemma {:induction false} QuantifierExact(all: bool, op: Ordering, l: Expr, r: Expr, row: RowData)
    requires var e := Binary(Quantified(all, op), l, r);
             WellTyped(e) && Normalize(l).Ok? && Normalize(r).Ok? && Eval(e, row, AsWritten).Ok?
    requires QuantifiersSafe(l, row) && SwapsSafe(l, row) && QuantifiersSafe(r, row) && SwapsSafe(r, row)
    ensures var e := Binary(Quantified(all, op), l, r);
            && Normalize(e).Ok?
            && ((Eval(Normalize(e).value, row, AsWritten) == Eval(e, row, AsWritten))
                <==> !(IsNull(Normalize(l).value) && Eval(r, row, AsWritten) == Ok(DTuple([]))))
  {
    hide FoldConst, NormalizeAll;
    var e := Binary(Quantified(all, op), l, r);
    var l', r' := Normalize(l).value, Normalize(r).value;
    var s := SimplifyQuantified(all, op, l', r');
    assert Simplified(e) == Ok(s);
    NormalizeSound(l, row, AsWritten);
    NormalizeSound(r, row, AsWritten);
    SimplifiedKeepsTypes(e);
    FoldConstSound(s, row, AsWritten);
    QuantifierStep(all, op, l, r, l', r', row);
  }

  lemma {:induction false} QuantifierStep(all: bool, op: Ordering, l: Expr, r: Expr, l': Expr, r': Expr, row: RowData)
    requires IsOrdering(op) && Eval(Binary(Quantified(all, op), l, r), row, AsWritten).Ok?
    requires Refines(l, l', row, AsWritten) && Refines(r, r', row, AsWritten)
    ensures var s := SimplifyQuantified(all, op, l', r');
            && Eval(s, row, AsWritten).Ok?
            && ((Eval(s, row, AsWritten) == Eval(Binary(Quantified(all, op), l, r), row, AsWritten))
                <==> !(IsNull(l') && Eval(r, row, AsWritten) == Ok(DTuple([]))))
  {
    hide Quantify;
    if Eval(r, row, AsWritten).value.DTuple? {
      QuantifyNull(all, op, Eval(r, row, AsWritten).value.elems);
    }
  }

  lemma {:induction false} ArithIsNormal(op: ArithOp, l: Expr, r: Expr)
    requires Normalize(l) == Ok(l) && Normalize(r) == Ok(r) && (l.Column? || r.Column?)
    requires SimplifyArith(op, l, r) == Binary(Arith(op), l, r)
    ensures Normalize(Binary(Arith(op), l, r)) == Ok(Binary(Arith(op), l, r))
  {
    var e := Binary(Arith(op), l, r);
    assert l in Children(e) && r in Children(e);
  }

  /** -(a - 1 // b) with a NULL and b zero is NULL, but its normal form divides by zero. */
  lemma {:induction false} NegationCounterexample(row: RowData)
    requires row(0) == DNull && row(1) == DInt(0)
    ensures var a, b := Column(0, IntType), Column(1, IntType);
            var e := Unary(Neg, Binary(Arith(Minus), a, Binary(Arith(FloorDiv), Lit(DInt(1)), b)));
            && WellTyped(e) && Normalize(e).Ok?
            && Eval(e, row, AsWritten) == Ok(DNull)
            && Eval(Normalize(e).value, row, AsWritten) != Ok(DNull)
  {
    hide Normalize, IsConst;
    var a, b := Column(0, IntType), Column(1, IntType);
    var q := Binary(Arith(FloorDiv), Lit(DInt(1)), b);
    var d := Binary(Arith(Minus), a, q);
    LeavesAreNormal(0, IntType, DInt(1));
    LeavesAreNormal(1, IntType, DInt(1));
    ArithIsNormal(FloorDiv, Lit(DInt(1)), b);
    ArithIsNormal(Minus, a, q);
    assert Eval(q, row, AsWritten) == Err(DivisionByZero);
    assert WellTyped(q);
    assert SwapFails(d, row);
    NegationExact(d, row);
  }

  lemma {:induction false} LeavesAreNormal(i: nat, t: Type, d: Datum)
    ensures Normalize(Column(i, t)) == Ok(Column(i, t)) && Normalize(Lit(d)) == Ok(Lit(d))
  {
  }

  lemma {:induction false} InNull(x: Datum)
    ensures In3(x, [DNull]) == Unknown && Sql(In, x, DTuple([DNull])) == Unknown
  {
    assert [DNull][..0] == [] && In3(x, []) == False;
  }

  const NULL_ROW: Expr := List(Row, [NULL])

  lemma {:induction false} NullRowValue(row: RowData)
    ensures Eval(NULL_ROW, row, AsWritten) == Ok(DTuple([DNull]))
  {
    var os := EvalAll([NULL], row, AsWritten);
    assert Eval(NULL, row, AsWritten) == Ok(DNull);
    assert |os| == 1 && os[0] == Eval([NULL][0], row, AsWritten);
    assert seq(|os|, i requires 0 <= i < |os| => os[i].value) == [DNull];
  }

  lemma {:induction false} NullRowNormalizes()
    ensures Normalize(NULL_ROW) == Ok(Lit(DTuple([DNull])))
  {
    NullRowValue(NoRow);
    assert [NULL][..0] == [] && [] + [NULL] == [NULL];
    assert Normalize(NULL) == Ok(NULL);
    assert NormalizeAll([NULL]) == Ok([NULL]);
    hide Eval, NormalizeAll;
    assert SimplifyRow([NULL]) == Ok(Lit(DTuple([DNull])));
    LitIsNormal(DTuple([DNull]));
  }

  lemma {:induction false} LitIsNormal(d: Datum)
    ensures !d.DNull? ==> FoldConst(Lit(d)) == Lit(d) && Normalize(Lit(d)) == Ok(Lit(d))
  {
  }

  lemma {:induction false} OneNull()
    ensures Tuples.SortedUnique([DNull]) == [DNull]
  {
    assert [DNull][..0] == [] && [] + [DNull] == [DNull];
    assert Tuples.Sort([DNull]) == Tuples.Insert(DNull, Tuples.Sort([]));
  }

  /** a IN (NULL) becomes NULL. */
  lemma {:induction false} InNullNormalizes()
    ensures Normalize(Binary(Cmp(In), Column(0, IntType), NULL_ROW)) == Ok(NULL)
  {
    NullRowNormalizes();
    OneNull();
    assert Normalize(Column(0, IntType)) == Ok(Column(0, IntType));
    assert FoldConst(NULL) == NULL;
    hide Normalize, Eval, FoldConst;
    SimplifyBinaryNormalizes(Cmp(In), Column(0, IntType), NULL_ROW);
  }

  /** The walk, at a binary operator. */
  lemma {:induction false} SimplifyBinaryNormalizes(op: BinaryOp, l: Expr, r: Expr)
    requires Normalize(l).Ok? && Normalize(r).Ok?
    ensures var s := SimplifyBinary(op, Normalize(l).value, Normalize(r).value);
            Normalize(Binary(op, l, r)) == if s.Ok? then Ok(FoldConst(s.value)) else Err(s.error)
  {
    hide SimplifyBinary, FoldConst;
  }

  /** (a IN (NULL)) = ANY () is FALSE, but its normal form is NULL. */
  lemma {:induction false} QuantifierCounterexample(row: RowData)
    ensures var e := Binary(Quantified(false, EQ), Binary(Cmp(In), Column(0, IntType), NULL_ROW), Lit(DTuple([])));
            && WellTyped(e) && Normalize(e) == Ok(NULL)
            && Eval(e, row, AsWritten) == Ok(DBool(false))
  {
    var l, t := Binary(Cmp(In), Column(0, IntType), NULL_ROW), Lit(DTuple([]));
    CounterexampleIsTyped();
    CounterexampleValue(row);
    InNullNormalizes();
    LitIsNormal(DTuple([]));
    assert FoldConst(NULL) == NULL;
    hide Normalize, FoldConst, Eval, WellTyped, TypeOf;
    SimplifyBinaryNormalizes(Quantified(false, EQ), l, t);
  }

  lemma {:induction false} CounterexampleIsTyped()
    ensures WellTyped(Binary(Quantified(false, EQ), Binary(Cmp(In), Column(0, IntType), NULL_ROW), Lit(DTuple([]))))
  {
    assert WellTyped(NULL) && AllWellTyped([NULL]);
    assert WellTyped(NULL_ROW) && TypeOf(NULL_ROW) == TupleType && IsRowShaped(NULL_ROW);
    assert WellTyped(Column(0, IntType));
    assert WellTyped(Binary(Cmp(In), Column(0, IntType), NULL_ROW));
  }

  lemma {:induction false} CounterexampleValue(row: RowData)
    ensures Eval(Binary(Quantified(false, EQ), Binary(Cmp(In), Column(0, IntType), NULL_ROW), Lit(DTuple([]))), row, AsWritten)
         == Ok(DBool(false))
  {
    NullRowValue(row);
    InNull(row(0));
    hide Sql, In3;
    assert Eval(Column(0, IntType), row, AsWritten) == Ok(row(0));
    assert Eval(Binary(Cmp(In), Column(0, IntType), NULL_ROW), row, AsWritten) == Ok(DNull);
  }

}
