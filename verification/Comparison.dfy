/**
 SQL comparison of datums: the six scalar comparisons, IS [NOT] DISTINCT FROM, row
 comparison, IN, and the quantified forms ANY and ALL. The functions are the definitions of
 sections 8.2, 8.4 and 8.9 of ISO/IEC 9075-2; the methods are the loops that compute them.
 */
module Comparison {
  import opened Values

  datatype CompareOp =
    | EQ | NE | LT | LE | GT | GE
    | In | NotIn
    | IsDistinctFrom | IsNotDistinctFrom

  /** The operators that have an implementation of their own. */
  predicate IsRowOp(op: CompareOp) { op in {EQ, LT, LE, IsNotDistinctFrom} }

  predicate IsListTest(op: CompareOp) { op in {In, NotIn} }

  predicate IsOrdering(op: CompareOp) { op in {EQ, NE, LT, LE, GT, GE} }

  /** The operators that can be quantified. */
  type Ordering = op: CompareOp | IsOrdering(op) witness EQ

  // ---------------------------------------------------------------------------
  // Reference definitions
  // ---------------------------------------------------------------------------

  function Eq3(x: Datum, y: Datum): Truth {
    if x.DNull? || y.DNull? then Unknown else TruthOf(Compare(x, y) == 0)
  }

  function Less3(x: Datum, y: Datum): Truth {
    if x.DNull? || y.DNull? then Unknown else TruthOf(Compare(x, y) < 0)
  }

  function Greater3(x: Datum, y: Datum): Truth {
    if x.DNull? || y.DNull? then Unknown else TruthOf(Compare(x, y) > 0)
  }

  function BoolFromCompare(c: int, op: CompareOp): bool {
    match op
    case NE => c != 0
    case IsDistinctFrom => c != 0
    case LT => c < 0
    case LE => c <= 0
    case GT => c > 0
    case GE => c >= 0
    case _ => c == 0
  }

  /** Row comparison from position i on, element by element. Type checking gives both rows
      the same length; of rows that differ in nothing else the shorter counts as smaller. */
  function RowCompareFrom(op: CompareOp, xs: seq<Datum>, ys: seq<Datum>, i: nat): Truth
    requires !IsListTest(op)
    decreases |xs| - i
  {
    if i >= |xs| || i >= |ys| then TruthOf(BoolFromCompare(CompareInts(|xs|, |ys|), op))
    else
      var x, y, rest := xs[i], ys[i], RowCompareFrom(op, xs, ys, i + 1);
      match op
      case EQ => And3(Eq3(x, y), rest)
      case NE => Or3(Not3(Eq3(x, y)), rest)
      case IsNotDistinctFrom => And3(TruthOf(x == y), rest)
      case IsDistinctFrom => Or3(TruthOf(x != y), rest)
      case LT => Or3(Less3(x, y), And3(Eq3(x, y), rest))
      case LE => Or3(Less3(x, y), And3(Eq3(x, y), rest))
      case GT => Or3(Greater3(x, y), And3(Eq3(x, y), rest))
      case GE => Or3(Greater3(x, y), And3(Eq3(x, y), rest))
  }

  function RowCompare(op: CompareOp, xs: seq<Datum>, ys: seq<Datum>): Truth
    requires !IsListTest(op)
  {
    RowCompareFrom(op, xs, ys, 0)
  }

  /** The comparison of two datums. */
  function BaseCompare(op: CompareOp, x: Datum, y: Datum): Truth
    requires !IsListTest(op)
  {
    if x.DNull? || y.DNull? then
      if op == IsNotDistinctFrom then TruthOf(x.DNull? && y.DNull?)
      else if op == IsDistinctFrom then TruthOf(!(x.DNull? && y.DNull?))
      else Unknown
    else if x.DTuple? && y.DTuple? then RowCompare(op, x.elems, y.elems)
    else TruthOf(BoolFromCompare(Compare(x, y), op))
  }

  /** x op ANY (vs): the disjunction of the comparisons, false for the empty list. */
  function Any3(op: Ordering, x: Datum, vs: seq<Datum>): Truth {
    if vs == [] then False
    else var n := |vs| - 1; Or3(Any3(op, x, vs[..n]), BaseCompare(op, x, vs[n]))
  }

  /** x op ALL (vs): the conjunction of the comparisons, true for the empty list. */
  function All3(op: Ordering, x: Datum, vs: seq<Datum>): Truth {
    if vs == [] then True
    else var n := |vs| - 1; And3(All3(op, x, vs[..n]), BaseCompare(op, x, vs[n]))
  }

  /** x IN (vs) is x = ANY (vs). */
  function In3(x: Datum, vs: seq<Datum>): Truth { Any3(EQ, x, vs) }

  function Elements(d: Datum): seq<Datum> {
    if d.DTuple? then d.elems else []
  }

  /** Every comparison operator. */
  function Sql(op: CompareOp, x: Datum, y: Datum): Truth {
    if op == In then In3(x, Elements(y))
    else if op == NotIn then Not3(In3(x, Elements(y)))
    else BaseCompare(op, x, y)
  }

  /** The operator that holds of the same operands exactly when op does not. */
  function Complement(op: CompareOp): CompareOp {
    match op
    case EQ => NE
    case NE => EQ
    case LT => GE
    case GE => LT
    case LE => GT
    case GT => LE
    case In => NotIn
    case NotIn => In
    case IsDistinctFrom => IsNotDistinctFrom
    case IsNotDistinctFrom => IsDistinctFrom
  }

  /** The operator that holds of swapped operands exactly when op does. */
  function Mirror(op: CompareOp): CompareOp {
    match op
    case LT => GT
    case GT => LT
    case LE => GE
    case GE => LE
    case _ => op
  }

  // ---------------------------------------------------------------------------
  // Laws
  // ---------------------------------------------------------------------------

  lemma {:induction false} RowCompareMirror(op: CompareOp, xs: seq<Datum>, ys: seq<Datum>, i: nat)
    requires !IsListTest(op)
    ensures RowCompareFrom(Mirror(op), ys, xs, i) == RowCompareFrom(op, xs, ys, i)
    decreases |xs| - i
  {
    hide Compare;
    if i < |xs| && i < |ys| {
      CompareSign(xs[i], ys[i]);
      RowCompareMirror(op, xs, ys, i + 1);
    }
  }

  lemma {:induction false} RowCompareComplement(op: CompareOp, xs: seq<Datum>, ys: seq<Datum>, i: nat)
    requires !IsListTest(op)
    ensures RowCompareFrom(Complement(op), xs, ys, i) == Not3(RowCompareFrom(op, xs, ys, i))
    decreases |xs| - i
  {
    hide Compare;
    if i < |xs| && i < |ys| {
      CompareSign(xs[i], ys[i]);
      RowCompareComplement(op, xs, ys, i + 1);
    }
  }

  lemma {:induction false} SqlMirror(op: CompareOp, x: Datum, y: Datum)
    requires op != In && op != NotIn
    ensures Sql(Mirror(op), y, x) == Sql(op, x, y)
  {
    hide Compare, RowCompareFrom;
    CompareSign(x, y);
    if x.DTuple? && y.DTuple? { RowCompareMirror(op, x.elems, y.elems, 0); }
  }

  /** Not only for non-NULL operands: NOT (x < y) is x >= y in three-valued logic. */
  lemma {:induction false} SqlComplement(op: CompareOp, x: Datum, y: Datum)
    ensures Sql(Complement(op), x, y) == Not3(Sql(op, x, y))
  {
    hide Compare, RowCompareFrom, In3;
    if x.DTuple? && y.DTuple? && !IsListTest(op) { RowCompareComplement(op, x.elems, y.elems, 0); }
  }

  lemma {:induction false} QuantifierDuality(op: Ordering, x: Datum, vs: seq<Datum>)
    ensures All3(op, x, vs) == Not3(Any3(Complement(op), x, vs))
  {
    if vs != [] {
      var n := |vs| - 1;
      SqlComplement(op, x, vs[n]);
      QuantifierDuality(op, x, vs[..n]);
    }
  }

  // ---------------------------------------------------------------------------
  // The loops
  // ---------------------------------------------------------------------------

  /** Row comparison in one pass: a NULL postpones the verdict for =, settles it for
      IS NOT DISTINCT FROM, and makes it unknown for the orderings. */
  method CompareRows(op: CompareOp, left: seq<Datum>, right: seq<Datum>) returns (t: Truth)
    requires IsRowOp(op) && |left| == |right|
    ensures t == RowCompare(op, left, right)
  {
    hide Compare;
    var cmp := 0;
    var sawNull := false;
    var i := 0;
    while i < |left|
      invariant 0 <= i <= |left|
      invariant sawNull ==> op == EQ
      invariant cmp == 0
      invariant RowCompare(op, left, right) ==
                (if sawNull then And3(Unknown, RowCompareFrom(op, left, right, i))
                 else RowCompareFrom(op, left, right, i))
    {
      var x, y := left[i], right[i];
      CompareSign(x, y);
      if x.DNull? || y.DNull? {
        match op
        case EQ =>
          sawNull := true;
        case IsNotDistinctFrom =>
          if !x.DNull? || !y.DNull? {
            return False;
          }
        case _ =>
          return Unknown;
      } else {
        cmp := Compare(x, y);
        if cmp != 0 {
          break;
        }
      }
      i := i + 1;
    }
    var b := BoolFromCompare(cmp, op);
    t := if b && sawNull then Unknown else TruthOf(b);
  }

  /** A comparison by an operator with an implementation of its own, whose result may have to
      be negated. */
  datatype Folded = Folded(op: CompareOp, left: Datum, right: Datum, negated: bool)

  function Fold(op: CompareOp, x: Datum, y: Datum): Folded {
    match op
    case NE => Folded(EQ, x, y, true)
    case GT => Folded(LT, y, x, false)
    case GE => Folded(LE, y, x, false)
    case NotIn => Folded(In, x, y, true)
    case IsDistinctFrom => Folded(IsNotDistinctFrom, x, y, true)
    case _ => Folded(op, x, y, false)
  }

  /** Folding keeps the meaning of every operator. */
  lemma {:induction false} FoldMeansSql(op: CompareOp, x: Datum, y: Datum)
    ensures var f := Fold(op, x, y);
            && (IsRowOp(f.op) || f.op == In)
            && Sql(op, x, y) == (if f.negated then Not3(Sql(f.op, f.left, f.right)) else Sql(f.op, f.left, f.right))
            && (y.DNull? && IsOrdering(op) ==> Sql(f.op, f.left, f.right) == Unknown)
  {
    hide RowCompareFrom, In3;
    if op in {NE, NotIn, IsDistinctFrom} {
      SqlComplement(Complement(op), x, y);
    } else if op in {GT, GE} {
      SqlMirror(op, x, y);
    }
  }

  function Quantify(all: bool, op: Ordering, x: Datum, vs: seq<Datum>): Truth {
    if all then All3(op, x, vs) else Any3(op, x, vs)
  }

  /** What an element that compares as t adds to the verdict so far. */
  function Combine(all: bool, so_far: Truth, t: Truth): Truth {
    if all then And3(so_far, t) else Or3(so_far, t)
  }

  lemma {:induction false} QuantifyStep(all: bool, op: Ordering, x: Datum, vs: seq<Datum>, i: nat)
    requires i < |vs|
    ensures Quantify(all, op, x, vs[..i + 1]) == Combine(all, Quantify(all, op, x, vs[..i]), Sql(op, x, vs[i]))
  {
    assert vs[..i + 1][..i] == vs[..i] && vs[..i + 1][i] == vs[i];
  }

  lemma {:induction false} QuantifyEmpty(all: bool, op: Ordering, x: Datum)
    ensures Quantify(all, op, x, []) == TruthOf(all)
  {
  }

  /** The loop behind x op ANY (vs) and x op ALL (vs). */
  method EvalQuantified(all: bool, op: Ordering, x: Datum, vs: seq<Datum>) returns (t: Truth)
    ensures t == Quantify(all, op, x, vs)
  {
    QuantifyEmpty(all, op, x);
    hide Any3, All3, Sql;
    var sawNull := false;
    var i := 0;
    assert vs[..0] == [];
    while i < |vs|
      invariant 0 <= i <= |vs|
      invariant Quantify(all, op, x, vs[..i]) == if sawNull then Unknown else TruthOf(all)
    {
      QuantifyStep(all, op, x, vs, i);
      FoldMeansSql(op, x, vs[i]);
      i := i + 1;
      if vs[i - 1].DNull? {
        sawNull := true;
        continue;
      }
      var f := Fold(op, x, vs[i - 1]);
      var d := Sql(f.op, f.left, f.right);
      if d == Unknown {
        sawNull := true;
        continue;
      }
      var res := (d == True) != f.negated;
      if !all && res {
        QuantifierSettled(all, op, x, vs, i);
        return True;
      } else if all && !res {
        QuantifierSettled(all, op, x, vs, i);
        return False;
      }
    }
    assert vs[..|vs|] == vs;
    t := if sawNull then Unknown else TruthOf(all);
  }

  /** The rest of the list does not change a settled verdict. */
  lemma {:induction false} QuantifierSettled(all: bool, op: Ordering, x: Datum, vs: seq<Datum>, k: nat)
    requires k <= |vs| && Quantify(all, op, x, vs[..k]) == TruthOf(!all)
    ensures Quantify(all, op, x, vs) == TruthOf(!all)
    decreases |vs|
  {
    if k == |vs| {
      assert vs[..k] == vs;
    } else {
      var n := |vs| - 1;
      assert vs[..n][..k] == vs[..k];
      QuantifierSettled(all, op, x, vs[..n], k);
    }
  }
}
