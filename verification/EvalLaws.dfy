/**
 What holds of every evaluation: more columns or the more lenient subtraction never
 change an answer, and a well-typed expression gives a value of its type.
 */
module EvalLaws {
  import opened Values
  import opened Comparison
  import opened Expr

  /** x is an error or the same answer as y. */
  predicate Agrees(x: Outcome, y: Outcome) { x.Ok? ==> y == x }

  predicate AllAgree(xs: seq<Outcome>, ys: seq<Outcome>) {
    |xs| == |ys| && forall i | 0 <= i < |xs| :: Agrees(xs[i], ys[i])
  }

  lemma {:induction false} CoalesceMonotone(xs: seq<Outcome>, ys: seq<Outcome>, i: nat)
    requires AllAgree(xs, ys)
    ensures Agrees(CoalesceFrom(xs, i), CoalesceFrom(ys, i))
    decreases |xs| - i
  {
    if i < |xs| {
      CoalesceMonotone(xs, ys, i + 1);
    }
  }

  lemma {:induction false} RowMonotone(xs: seq<Outcome>, ys: seq<Outcome>)
    requires AllAgree(xs, ys)
    ensures Agrees(RowOutcome(xs), RowOutcome(ys))
  {
    if RowOutcome(xs).Ok? {
      assert forall i | 0 <= i < |xs| :: Agrees(xs[i], ys[i]);
      assert RowOutcome(ys).value.elems == RowOutcome(xs).value.elems;
    }
  }

  lemma {:induction false} ArithMonotone(op: ArithOp, x: Outcome, y: Outcome, x': Outcome, y': Outcome, m: Subtraction, m': Subtraction)
    requires Agrees(x, x') && Agrees(y, y') && (m' == m || m == AsWritten)
    ensures Agrees(ArithOutcome(op, x, y, m), ArithOutcome(op, x', y', m'))
  {
  }

  lemma {:induction false} CmpMonotone(op: CompareOp, x: Outcome, y: Outcome, x': Outcome, y': Outcome)
    requires Agrees(x, x') && Agrees(y, y')
    ensures Agrees(CmpOutcome(op, x, y), CmpOutcome(op, x', y'))
  {
  }

  lemma {:induction false} QuantifiedMonotone(all: bool, op: Ordering, x: Outcome, y: Outcome, x': Outcome, y': Outcome)
    requires Agrees(x, x') && Agrees(y, y')
    ensures Agrees(QuantifiedOutcome(all, op, x, y), QuantifiedOutcome(all, op, x', y'))
  {
  }

  lemma {:induction false} AndOrMonotone(x: Outcome, y: Outcome, x': Outcome, y': Outcome)
    requires Agrees(x, x') && Agrees(y, y')
    ensures Agrees(AndOutcome(x, y), AndOutcome(x', y'))
    ensures Agrees(OrOutcome(x, y), OrOutcome(x', y'))
  {
  }

  lemma {:induction false} UnaryMonotone(op: UnaryOp, x: Outcome, x': Outcome)
    requires Agrees(x, x')
    ensures Agrees(UnaryOutcome(op, x), UnaryOutcome(op, x'))
  {
  }

  lemma {:induction false} BinaryMonotone(op: BinaryOp, x: Outcome, y: Outcome, x': Outcome, y': Outcome, m: Subtraction, m': Subtraction)
    requires Agrees(x, x') && Agrees(y, y') && (m' == m || m == AsWritten)
    ensures Agrees(BinaryOutcome(op, x, y, m), BinaryOutcome(op, x', y', m'))
  {
    match op
    case And => AndOrMonotone(x, y, x', y');
    case Or => AndOrMonotone(x, y, x', y');
    case Arith(aop) => ArithMonotone(aop, x, y, x', y', m, m');
    case Cmp(cop) => CmpMonotone(cop, x, y, x', y');
    case Quantified(all, cop) => QuantifiedMonotone(all, cop, x, y, x', y');
  }

  lemma {:induction false} ListMonotone(op: ListOp, xs: seq<Outcome>, ys: seq<Outcome>)
    requires AllAgree(xs, ys)
    ensures Agrees(ListOutcome(op, xs), ListOutcome(op, ys))
  {
    CoalesceMonotone(xs, ys, 0);
    RowMonotone(xs, ys);
  }

  lemma {:induction false} BetweenMonotone(n: bool, s: bool, x: Outcome, xTo: Outcome, lo: Outcome, hi: Outcome,
                        x': Outcome, xTo': Outcome, lo': Outcome, hi': Outcome)
    requires Agrees(x, x') && Agrees(xTo, xTo') && Agrees(lo, lo') && Agrees(hi, hi')
    ensures Agrees(BetweenOutcome(n, s, x, xTo, lo, hi), BetweenOutcome(n, s, x', xTo', lo', hi'))
  {
    CmpMonotone(GE, x, lo, x', lo');
    CmpMonotone(LE, xTo, hi, xTo', hi');
    CmpMonotone(GE, x, hi, x', hi');
    CmpMonotone(LE, xTo, lo, xTo', lo');
    AndOrMonotone(CmpOutcome(GE, x, lo), CmpOutcome(LE, xTo, hi), CmpOutcome(GE, x', lo'), CmpOutcome(LE, xTo', hi'));
    AndOrMonotone(CmpOutcome(GE, x, hi), CmpOutcome(LE, xTo, lo), CmpOutcome(GE, x', hi'), CmpOutcome(LE, xTo', lo'));
    AndOrMonotone(AndOutcome(CmpOutcome(GE, x, lo), CmpOutcome(LE, xTo, hi)),
                  AndOutcome(CmpOutcome(GE, x, hi), CmpOutcome(LE, xTo, lo)),
                  AndOutcome(CmpOutcome(GE, x', lo'), CmpOutcome(LE, xTo', hi')),
                  AndOutcome(CmpOutcome(GE, x', hi'), CmpOutcome(LE, xTo', lo')));
  }

  // ---------------------------------------------------------------------------

  /** The answer does not depend on columns that are not mentioned, and a more lenient
      subtraction does not change it. */
  lemma {:induction false} EvalGrows(e: Expr, row: RowData, row': RowData, m: Subtraction, m': Subtraction)
    requires (row == row' || NoColumns(e)) && (m' == m || m == AsWritten)
    ensures Agrees(Eval(e, row, m), Eval(e, row', m'))
    decreases e, 1
  {
    match e
    case Lit(_) =>
    case Column(_, _) =>
    case Unary(op, x) =>
      EvalGrows(x, row, row', m, m');
      UnaryMonotone(op, Eval(x, row, m), Eval(x, row', m'));
    case Binary(op, l, r) =>
      EvalGrows(l, row, row', m, m');
      EvalGrows(r, row, row', m, m');
      BinaryMonotone(op, Eval(l, row, m), Eval(r, row, m), Eval(l, row', m'), Eval(r, row', m'), m, m');
    case If(c, t, x, _) =>
      EvalGrows(c, row, row', m, m');
      EvalGrows(t, row, row', m, m');
      EvalGrows(x, row, row', m, m');
    case List(op, xs) =>
      EvalAllGrows(xs, row, row', m, m');
      ListMonotone(op, EvalAll(xs, row, m), EvalAll(xs, row', m'));
    case Between(n, s, x, xTo, lo, hi) =>
      EvalGrows(x, row, row', m, m');
      EvalGrows(xTo, row, row', m, m');
      EvalGrows(lo, row, row', m, m');
      EvalGrows(hi, row, row', m, m');
      BetweenMonotone(n, s, Eval(x, row, m), Eval(xTo, row, m), Eval(lo, row, m), Eval(hi, row, m),
                      Eval(x, row', m'), Eval(xTo, row', m'), Eval(lo, row', m'), Eval(hi, row', m'));
  }

  lemma {:induction false} EvalAllGrows(es: seq<Expr>, row: RowData, row': RowData, m: Subtraction, m': Subtraction)
    requires (row == row' || forall x <- es :: NoColumns(x)) && (m' == m || m == AsWritten)
    ensures AllAgree(EvalAll(es, row, m), EvalAll(es, row', m'))
    decreases es, 0
  {
    forall i | 0 <= i < |es| ensures Agrees(EvalAll(es, row, m)[i], EvalAll(es, row', m')[i]) {
      EvalGrows(es[i], row, row', m, m');
    }
  }

  // ---------------------------------------------------------------------------
  // Types
  // ---------------------------------------------------------------------------

  /** The value of a well-typed expression is NULL or a value of the expression's type. */
  lemma {:induction false} TypeSound(e: Expr, row: RowData, m: Subtraction)
    requires WellTyped(e) && ColumnsFit(e, row) && Eval(e, row, m).Ok?
    ensures HasType(Eval(e, row, m).value, TypeOf(e))
    decreases e, 1
  {
    match e
    case Lit(_) =>
    case Column(_, _) =>
    case Unary(_, x) => TypeSound(x, row, m);
    case Binary(_, _, _) =>
    case If(c, t, x, _) => TypeSound(if Eval(c, row, m).value == DBool(true) then t else x, row, m);
    case List(op, xs) =>
      if op.Coalesce? { CoalesceTypeSound(xs, op.typ, row, m, 0); }
    case Between(_, _, _, _, _, _) =>
  }

  lemma {:induction false} CoalesceTypeSound(es: seq<Expr>, typ: Type, row: RowData, m: Subtraction, i: nat)
    requires AllWellTyped(es) && forall x <- es :: Narrows(TypeOf(x), typ) && ColumnsFit(x, row)
    requires CoalesceFrom(EvalAll(es, row, m), i).Ok?
    ensures HasType(CoalesceFrom(EvalAll(es, row, m), i).value, typ)
    decreases es, 0, |es| - i
  {
    if i < |es| {
      assert EvalAll(es, row, m)[i] == Eval(es[i], row, m) && es[i] in es;
      if Eval(es[i], row, m).Ok? && Eval(es[i], row, m).value.DNull? {
        CoalesceTypeSound(es, typ, row, m, i + 1);
      } else {
        TypeSound(es[i], row, m);
      }
    }
  }

  lemma {:induction false} NoColumnsFit(e: Expr, row: RowData)
    requires NoColumns(e)
    ensures ColumnsFit(e, row)
  {
    match e
    case Lit(_) =>
    case Column(_, _) =>
    case Unary(_, x) => NoColumnsFit(x, row);
    case Binary(_, l, r) =>
      NoColumnsFit(l, row);
      NoColumnsFit(r, row);
    case If(c, t, x, _) =>
      NoColumnsFit(c, row);
      NoColumnsFit(t, row);
      NoColumnsFit(x, row);
    case List(_, xs) =>
      forall x | x in xs ensures ColumnsFit(x, row) { NoColumnsFit(x, row); }
    case Between(_, _, x, xTo, lo, hi) =>
      NoColumnsFit(x, row);
      NoColumnsFit(xTo, row);
      NoColumnsFit(lo, row);
      NoColumnsFit(hi, row);
  }
}
