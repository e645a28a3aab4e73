/**
 When normalization itself fails. COALESCE and rows evaluate the constants among their
 elements on the way, and an error there is an error of the normalizer; everything else
 leaves its errors for execution.
 */
module NormalizerFailures {
  import opened Values
  import opened Comparison
  import opened Expr
  import opened Normalizer
  import opened NormalizerTypes

  lemma {:induction false} ConstChildSucceeds(e: Expr)
    requires IsConstChild(e) && WellTyped(e)
    ensures EvalConst(e).Ok? && HasType(EvalConst(e).value, TypeOf(e))
  {
    if e.Unary? { ConstChildSucceeds(e.operand); }
  }

  /** Operators of type BOOL have a value when their operands have values of the right types. */
  lemma {:induction false} BinaryBoolSucceeds(op: BinaryOp, x: Datum, y: Datum, t: Type, u: Type, m: Subtraction)
    requires !op.Arith? && BinaryTyped(op, t, u) && HasType(x, t) && HasType(y, u)
    ensures BinaryOutcome(op, Ok(x), Ok(y), m).Ok?
  {
    hide Sql, Quantify;
  }

  lemma {:induction false} UnaryBoolSucceeds(op: UnaryOp, x: Datum, t: Type)
    requires op != Neg && UnaryTyped(op, t) && HasType(x, t)
    ensures UnaryOutcome(op, Ok(x)).Ok?
  {
  }

  lemma {:induction false} BetweenSucceedsOn(n: bool, s: bool, x: Datum, lo: Datum, hi: Datum)
    ensures BetweenOutcome(n, s, Ok(x), Ok(x), Ok(lo), Ok(hi)).Ok?
  {
    hide Sql;
  }

  predicate IsArithmetic(e: Expr) { (e.Binary? && e.bop.Arith?) || (e.Unary? && e.uop == Neg) }

  /** Only arithmetic on constants fails. */
  lemma {:induction false} ConstSucceeds(e: Expr)
    requires WellTyped(e) && IsConst(e) && !IsArithmetic(e)
    ensures EvalConst(e).Ok?
  {
    hide UnaryOutcome, BinaryOutcome, BetweenOutcome, CoalesceFrom;
    match e
    case Lit(_) =>
    case Unary(op, x) =>
      assert x in Children(e);
      ConstChildSucceeds(x);
      UnaryBoolSucceeds(op, EvalConst(x).value, TypeOf(x));
    case Binary(op, l, r) =>
      assert l in Children(e) && r in Children(e);
      ConstChildSucceeds(l);
      ConstChildSucceeds(r);
      BinaryBoolSucceeds(op, EvalConst(l).value, EvalConst(r).value, TypeOf(l), TypeOf(r), AsWritten);
    case If(c, t, x, _) =>
      assert c in Children(e) && t in Children(e) && x in Children(e);
      ConstChildSucceeds(c);
      ConstChildSucceeds(t);
      ConstChildSucceeds(x);
    case List(_, xs) =>
      assert Children(e) == xs && AllWellTyped(xs);
      forall i | 0 <= i < |xs| ensures EvalAll(xs, NoRow, AsWritten)[i].Ok? {
        assert xs[i] in Children(e) && xs[i] in xs;
        ConstChildSucceeds(xs[i]);
      }
      CoalesceSucceeds(EvalAll(xs, NoRow, AsWritten), 0);
    case Between(n, s, x, _, lo, hi) =>
      assert x in Children(e) && lo in Children(e) && hi in Children(e);
      ConstChildSucceeds(x);
      ConstChildSucceeds(lo);
      ConstChildSucceeds(hi);
      BetweenSucceedsOn(n, s, EvalConst(x).value, EvalConst(lo).value, EvalConst(hi).value);
  }

  lemma {:induction false} ConstBoolSucceeds(e: Expr)
    requires Fits(e, BoolType) && IsConst(e)
    ensures EvalConst(e).Ok?
  {
    ConstSucceeds(e);
  }

  lemma {:induction false} CoalesceSucceeds(xs: seq<Outcome>, i: nat)
    requires forall j | 0 <= j < |xs| :: xs[j].Ok?
    ensures CoalesceFrom(xs, i).Ok?
    decreases |xs| - i
  {
    if i < |xs| { CoalesceSucceeds(xs, i + 1); }
  }

  lemma {:induction false} AndOrSucceed(l: Expr, r: Expr)
    requires Fits(l, BoolType) && Fits(r, BoolType)
    ensures SimplifyAnd(l, r).Ok? && SimplifyOr(l, r).Ok?
  {
    hide IsConst, EvalConst, WellTyped, TypeOf;
    if IsConst(l) { ConstBoolSucceeds(l); }
    if IsConst(r) { ConstBoolSucceeds(r); }
  }

  lemma {:induction false} IfSucceeds(c: Expr, t: Expr, x: Expr, typ: Type)
    requires Fits(c, BoolType)
    ensures SimplifyIf(c, t, x, typ).Ok?
  {
    hide IsConst, EvalConst, WellTyped, TypeOf;
    if IsConst(c) { ConstBoolSucceeds(c); }
  }

  lemma {:induction false} BoundsSucceed(n: bool, x: Expr, xTo: Expr, lo: Expr, hi: Expr)
    requires ComparesWell(x, lo) && ComparesWell(xTo, hi)
    ensures BetweenBounds(n, x, xTo, lo, hi).Ok?
  {
    hide Bound, SimplifyAnd, SimplifyOr, WellTyped, TypeOf;
    BoundFits(LT, x, lo);
    BoundFits(GT, xTo, hi);
    BoundFits(GE, x, lo);
    BoundFits(LE, xTo, hi);
    AndOrSucceed(Bound(LT, x, lo), Bound(GT, xTo, hi));
    AndOrSucceed(Bound(GE, x, lo), Bound(LE, xTo, hi));
  }

  lemma {:induction false} BetweenSucceeds(n: bool, s: bool, x: Expr, lo: Expr, hi: Expr)
    requires ComparesWell(x, lo) && ComparesWell(x, hi)
    ensures SimplifyBetween(n, s, x, x, lo, hi).Ok?
  {
    hide BetweenBounds, SimplifyAnd, SimplifyOr, WellTyped, TypeOf;
    BoundsSucceed(n, x, x, lo, hi);
    BoundsSucceed(n, x, x, hi, lo);
    BetweenBoundsFits(n, x, x, lo, hi);
    BetweenBoundsFits(n, x, x, hi, lo);
    AndOrSucceed(BetweenBounds(n, x, x, lo, hi).value, BetweenBounds(n, x, x, hi, lo).value);
  }


  // ---------------------------------------------------------------------------
  // Lists
  // ---------------------------------------------------------------------------

  /** COALESCE gets to a constant that fails: constant NULLs before it, something behind it. */
  predicate CoalesceFailsAt(xs: seq<Expr>, i: nat) {
    && i + 1 < |xs| && IsConst(xs[i]) && EvalConst(xs[i]).Err?
    && forall j | 0 <= j < i :: IsConst(xs[j]) && EvalConst(xs[j]) == Ok(DNull)
  }

  /** The elements of a row are all constant, and one of them fails. */
  predicate RowFails(xs: seq<Expr>) {
    (forall x <- xs :: IsConst(x)) && exists i | 0 <= i < |xs| :: EvalConst(xs[i]).Err?
  }

  predicate ListFails(op: ListOp, xs: seq<Expr>) {
    match op
    case Coalesce(_) => exists i | 0 <= i < |xs| :: CoalesceFailsAt(xs, i)
    case Row => RowFails(xs)
  }

  lemma {:induction false} CoalesceFailsExactly(xs: seq<Expr>, typ: Type, i: nat)
    requires forall j | 0 <= j < i < |xs| :: IsConst(xs[j]) && EvalConst(xs[j]) == Ok(DNull)
    requires i <= |xs|
    ensures SimplifyCoalesceFrom(xs, typ, i).Err? <==> exists k | i <= k < |xs| :: CoalesceFailsAt(xs, k)
    decreases |xs| - i
  {
    hide IsConst, EvalConst;
    if i + 1 < |xs| {
      if IsConst(xs[i]) && EvalConst(xs[i]).Err? {
        assert CoalesceFailsAt(xs, i);
      } else if IsConst(xs[i]) && EvalConst(xs[i]) == Ok(DNull) {
        CoalesceFailsExactly(xs, typ, i + 1);
        assert !CoalesceFailsAt(xs, i);
      } else {
        assert forall k | i < k < |xs| :: !CoalesceFailsAt(xs, k);
      }
    }
  }

  lemma {:induction false} ListFailsExactly(op: ListOp, xs: seq<Expr>)
    ensures SimplifyList(op, xs).Err? <==> ListFails(op, xs)
  {
    hide IsConst;
    match op
    case Coalesce(typ) => CoalesceFailsExactly(xs, typ, 0);
    case Row =>
      var os := EvalAll(xs, NoRow, AsWritten);
      assert forall i | 0 <= i < |xs| :: os[i] == EvalConst(xs[i]);
  }

  // ---------------------------------------------------------------------------
  // The walk
  // ---------------------------------------------------------------------------

  /** A list somewhere in e fails over its normalized elements. */
  predicate SomeListFails(e: Expr) {
    match e
    case Lit(_) => false
    case Column(_, _) => false
    case Unary(_, x) => SomeListFails(x)
    case Binary(_, l, r) => SomeListFails(l) || SomeListFails(r)
    case If(c, t, x, _) => SomeListFails(c) || SomeListFails(t) || SomeListFails(x)
    case List(op, xs) =>
      (exists x <- xs :: SomeListFails(x)) || (NormalizeAll(xs).Ok? && ListFails(op, NormalizeAll(xs).value))
    case Between(_, _, x, _, lo, hi) => SomeListFails(x) || SomeListFails(lo) || SomeListFails(hi)
  }

  lemma {:induction false} NormalizeAllOk(es: seq<Expr>)
    ensures NormalizeAll(es).Ok? <==> forall x <- es :: Normalize(x).Ok?
    decreases |es|
  {
    hide Normalize;
    if es != [] {
      var n := |es| - 1;
      NormalizeAllOk(es[..n]);
      assert es == es[..n] + [es[n]] && es[n] in es;
      assert forall x <- es[..n] :: x in es;
      if NormalizeAll(es).Ok? {
        forall x | x in es ensures Normalize(x).Ok? { assert x in es[..n] || x == es[n]; }
      }
    }
  }

  lemma {:induction false} BinarySucceeds(op: BinaryOp, l: Expr, r: Expr)
    requires WellTyped(Binary(op, l, r)) && Normalize(l).Ok? && Normalize(r).Ok?
    ensures SimplifyBinary(op, Normalize(l).value, Normalize(r).value).Ok?
  {
    hide Normalize, TypeOf, WellTyped, SimplifyAnd, SimplifyOr, SimplifyArith, SimplifyCmp;
    BinaryParts(op, l, r);
    NormalizeKeepsTypes(l);
    NormalizeKeepsTypes(r);
    if op.And? || op.Or? { AndOrSucceed(Normalize(l).value, Normalize(r).value); }
  }

  lemma {:induction false} BinaryParts(op: BinaryOp, l: Expr, r: Expr)
    requires WellTyped(Binary(op, l, r))
    ensures WellTyped(l) && WellTyped(r) && BinaryTyped(op, TypeOf(l), TypeOf(r))
  {
  }

  lemma {:induction false} BetweenNormalizes(n: bool, s: bool, x: Expr, lo: Expr, hi: Expr)
    requires WellTyped(Between(n, s, x, x, lo, hi)) && Normalize(x).Ok? && Normalize(lo).Ok? && Normalize(hi).Ok?
    ensures SimplifyBetween(n, s, Normalize(x).value, Normalize(x).value, Normalize(lo).value, Normalize(hi).value).Ok?
  {
    NormalizeKeepsTypes(x);
    NormalizeKeepsTypes(lo);
    NormalizeKeepsTypes(hi);
    hide Normalize, WellTyped, SimplifyBetween;
    BetweenSucceeds(n, s, Normalize(x).value, Normalize(lo).value, Normalize(hi).value);
  }

  /** Normalization fails exactly if a list in the expression does. */
  lemma {:induction false} NormalizeFailsExactly(e: Expr)
    requires WellTyped(e)
    ensures Normalize(e).Err? <==> SomeListFails(e)
  {
    hide Eval, TypeOf, SimplifyBinary, SimplifyIf, SimplifyList, SimplifyBetween, ListFails, FoldConst, NormalizeAll;
    match e
    case Lit(_) =>
    case Column(_, _) =>
    case Unary(_, x) => NormalizeFailsExactly(x);
    case Binary(op, l, r) =>
      NormalizeFailsExactly(l);
      NormalizeFailsExactly(r);
      if Normalize(l).Ok? && Normalize(r).Ok? { BinarySucceeds(op, l, r); }
    case If(c, t, x, typ) =>
      NormalizeFailsExactly(c);
      NormalizeFailsExactly(t);
      NormalizeFailsExactly(x);
      if Normalize(c).Ok? && Normalize(t).Ok? && Normalize(x).Ok? {
        NormalizeKeepsTypes(c);
        IfSucceeds(Normalize(c).value, Normalize(t).value, Normalize(x).value, typ);
      }
    case List(op, xs) =>
      forall x | x in xs ensures Normalize(x).Err? <==> SomeListFails(x) { NormalizeFailsExactly(x); }
      NormalizeAllOk(xs);
      if NormalizeAll(xs).Ok? { ListFailsExactly(op, NormalizeAll(xs).value); }
    case Between(n, s, x, _, lo, hi) =>
      NormalizeFailsExactly(x);
      NormalizeFailsExactly(lo);
      NormalizeFailsExactly(hi);
      if Normalize(x).Ok? && Normalize(lo).Ok? && Normalize(hi).Ok? { BetweenNormalizes(n, s, x, lo, hi); }
  }

  /** 1 // 0 stays as it is, for execution. */
  lemma {:induction false} DivisionStays()
    ensures var q := Binary(Arith(FloorDiv), Lit(DInt(1)), Lit(DInt(0)));
            WellTyped(q) && Normalize(q) == Ok(q) && IsConst(q) && EvalConst(q).Err?
  {
    var l, r := Lit(DInt(1)), Lit(DInt(0));
    var q := Binary(Arith(FloorDiv), l, r);
    assert Eval(l, NoRow, AsWritten) == Ok(DInt(1)) && Eval(r, NoRow, AsWritten) == Ok(DInt(0));
    assert IsConst(q) by { assert forall c <- Children(q) :: c == l || c == r; }
    assert Normalize(l) == Ok(l) && Normalize(r) == Ok(r);
  }

  /** IF(a, COALESCE(1 // 0, 2), 3) with a FALSE is 3, although the division would fail, and has no normal form. */
  lemma {:induction false} SkippedFailure(row: RowData)
    requires row(0) == DBool(false)
    ensures var q := Binary(Arith(FloorDiv), Lit(DInt(1)), Lit(DInt(0)));
            var e := If(Column(0, BoolType), List(Coalesce(IntType), [q, Lit(DInt(2))]), Lit(DInt(3)), IntType);
            WellTyped(e) && Eval(e, row, AsWritten) == Ok(DInt(3)) && Normalize(e).Err?
  {
    hide IsConst, EvalConst, Normalize, NormalizeAll;
    var q := Binary(Arith(FloorDiv), Lit(DInt(1)), Lit(DInt(0)));
    var xs := [q, Lit(DInt(2))];
    var c := List(Coalesce(IntType), xs);
    DivisionStays();
    SimpleNormalizes(Lit(DInt(2)));
    CoalesceFits(xs, IntType);
    NormalizeAllOk(xs);
    NormalizeAllAt(xs, 0);
    assert CoalesceFailsAt(NormalizeAll(xs).value, 0);
    assert SomeListFails(c);
    NormalizeFailsExactly(If(Column(0, BoolType), c, Lit(DInt(3)), IntType));
  }

  // ---------------------------------------------------------------------------
  // Lists as they are usually written
  // ---------------------------------------------------------------------------

  /** A column, a literal or casts of one. */
  predicate IsSimple(e: Expr) { e.Column? || IsConstChild(e) }

  predicate ListsAreSimple(e: Expr) {
    match e
    case Lit(_) => true
    case Column(_, _) => true
    case Unary(_, x) => ListsAreSimple(x)
    case Binary(_, l, r) => ListsAreSimple(l) && ListsAreSimple(r)
    case If(c, t, x, _) => ListsAreSimple(c) && ListsAreSimple(t) && ListsAreSimple(x)
    case List(_, xs) => forall x <- xs :: IsSimple(x)
    case Between(_, _, x, _, lo, hi) => ListsAreSimple(x) && ListsAreSimple(lo) && ListsAreSimple(hi)
  }

  /** The normal form of a simple element is a column or a constant that has a value. */
  lemma {:induction false} SimpleNormalizes(e: Expr)
    requires IsSimple(e) && WellTyped(e)
    ensures !SomeListFails(e) && Normalize(e).Ok?
    ensures IsConst(Normalize(e).value) ==> EvalConst(Normalize(e).value).Ok?
  {
    match e
    case Column(_, _) =>
    case Lit(_) =>
    case Unary(op, x) =>
      SimpleNormalizes(x);
      NormalizeKeepsTypes(e);
      var s := Simplified(e).value;
      assert s == Unary(op, Normalize(x).value);
      hide Normalize, Simplified, WellTyped;
      FoldedCast(op, Normalize(x).value);
      if IsConst(FoldConst(s)) { ConstSucceeds(FoldConst(s)); }
  }

  lemma {:induction false} FoldedCast(op: UnaryOp, x: Expr)
    requires op.CastTo?
    ensures !IsArithmetic(FoldConst(Unary(op, x)))
  {
    hide EvalConst, IsConst;
  }

  /** So an expression whose lists hold only columns, literals and casts of literals has a normal form. */
  lemma {:induction false} NormalizeSucceeds(e: Expr)
    requires WellTyped(e) && ListsAreSimple(e)
    ensures Normalize(e).Ok?
  {
    hide Normalize, WellTyped, SomeListFails;
    NormalizeFailsExactly(e);
    SimpleListsSucceed(e);
  }

  lemma {:induction false} SimpleListsSucceed(e: Expr)
    requires WellTyped(e) && ListsAreSimple(e)
    ensures !SomeListFails(e)
  {
    hide Normalize, IsConst, EvalConst, NormalizeAll, TypeOf;
    match e
    case Lit(_) =>
    case Column(_, _) =>
    case Unary(_, x) => SimpleListsSucceed(x);
    case Binary(_, l, r) => SimpleListsSucceed(l); SimpleListsSucceed(r);
    case If(c, t, x, _) => SimpleListsSucceed(c); SimpleListsSucceed(t); SimpleListsSucceed(x);
    case List(_, xs) =>
      forall x | x in xs ensures !SomeListFails(x) { SimpleNormalizes(x); }
      if NormalizeAll(xs).Ok? {
        var ys := NormalizeAll(xs).value;
        forall i | 0 <= i < |ys| ensures IsConst(ys[i]) ==> EvalConst(ys[i]).Ok? {
          NormalizeAllAt(xs, i);
          assert xs[i] in xs;
          SimpleNormalizes(xs[i]);
        }
        assert forall i | 0 <= i < |ys| :: ys[i] in ys;
      }
    case Between(_, _, x, _, lo, hi) => SimpleListsSucceed(x); SimpleListsSucceed(lo); SimpleListsSucceed(hi);
  }
}
