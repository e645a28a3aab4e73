/**
 Run-time values (datums) of the NULL / BOOL / INT / tuple fragment, the total
 order that sorting and index spans use, and SQL's three-valued logic.
 */
module Values {

  const MIN_INT64: int := -0x8000_0000_0000_0000
  const MAX_INT64: int := 0x7FFF_FFFF_FFFF_FFFF

  /** A value of the INT type: a signed 64-bit integer. */
  type Int64 = x: int | MIN_INT64 <= x <= MAX_INT64

  predicate FitsInt64(x: int) {
    MIN_INT64 <= x <= MAX_INT64
  }

  datatype Option<+T> = None | Some(value: T)

  datatype Error = IntOutOfRange | DivisionByZero | NotBoolean | NotInteger | BadCast

  datatype Result<+T> = Ok(value: T) | Err(error: Error) {
    predicate IsFailure() { Err? }

    function PropagateFailure<U>(): Result<U>
      requires Err?
    {
      Err(error)
    }

    function Extract(): T
      requires Ok?
    {
      value
    }
  }

  datatype Datum =
    | DNull
    | DBool(b: bool)
    | DInt(i: Int64)
    | DTuple(elems: seq<Datum>)

  // ---------------------------------------------------------------------------
  // The order used for sorting and for index spans
  // ---------------------------------------------------------------------------

  function CompareInts(x: int, y: int): int {
    if x < y then -1 else if x > y then 1 else 0
  }

  /** FALSE sorts before TRUE. */
  function CompareBools(x: bool, y: bool): int {
    if !x && y then -1 else if x && !y then 1 else 0
  }

  /** Separates kinds of datum. Comparing two non-NULL datums of different kinds panics in
      the original and cannot happen to type-checked expressions; ranking the kinds makes
      the comparison a total function. NULL sorts first, which is the original's rule. */
  function Rank(d: Datum): int {
    match d
    case DNull => 0
    case DBool(_) => 1
    case DInt(_) => 2
    case DTuple(_) => 3
  }

  function Compare(x: Datum, y: Datum): int
    decreases x
  {
    match (x, y)
    case (DBool(a), DBool(b)) => CompareBools(a, b)
    case (DInt(a), DInt(b)) => CompareInts(a, b)
    case (DTuple(a), DTuple(b)) => CompareFrom(a, b, 0)
    case _ => CompareInts(Rank(x), Rank(y))
  }

  /** Lexicographic from position i on; a proper prefix sorts first. This is the order of
      tuples and of arrays. */
  function CompareFrom(xs: seq<Datum>, ys: seq<Datum>, i: nat): int
    decreases xs, |xs| - i
  {
    if i >= |xs| || i >= |ys| then CompareInts(|xs|, |ys|)
    else
      var c := Compare(xs[i], ys[i]);
      if c != 0 then c else CompareFrom(xs, ys, i + 1)
  }

  function CompareAll(xs: seq<Datum>, ys: seq<Datum>): int { CompareFrom(xs, ys, 0) }

  /** The loop of the tuple and array comparison. */
  method CompareTuples(xs: seq<Datum>, ys: seq<Datum>) returns (c: int)
    ensures c == CompareAll(xs, ys)
  {
    var n := if |xs| < |ys| then |xs| else |ys|;
    for i := 0 to n
      invariant CompareAll(xs, ys) == CompareFrom(xs, ys, i)
    {
      c := Compare(xs[i], ys[i]);
      if c != 0 {
        return;
      }
    }
    c := if |xs| < |ys| then -1 else if |xs| > |ys| then 1 else 0;
  }

  /** The order is antisymmetric, and equal means identical. */
  lemma {:induction false} CompareSign(x: Datum, y: Datum)
    ensures Compare(x, y) == -Compare(y, x)
    ensures Compare(x, y) in {-1, 0, 1}
    ensures Compare(x, y) == 0 <==> x == y
    decreases x
  {
    if x.DTuple? && y.DTuple? {
      CompareFromSign(x.elems, y.elems, 0);
      assert x.elems == x.elems[..] && y.elems == y.elems[..];
    }
  }

  lemma {:induction false} CompareFromSign(xs: seq<Datum>, ys: seq<Datum>, i: nat)
    requires i <= |xs| && i <= |ys|
    ensures CompareFrom(xs, ys, i) == -CompareFrom(ys, xs, i)
    ensures CompareFrom(xs, ys, i) in {-1, 0, 1}
    ensures CompareFrom(xs, ys, i) == 0 <==> xs[i..] == ys[i..]
    decreases xs, |xs| - i
  {
    if i < |xs| && i < |ys| {
      CompareSign(xs[i], ys[i]);
      CompareFromSign(xs, ys, i + 1);
      assert xs[i..] == [xs[i]] + xs[i + 1..] && ys[i..] == [ys[i]] + ys[i + 1..];
    }
  }

  lemma {:induction false} CompareTrans(x: Datum, y: Datum, z: Datum)
    requires Compare(x, y) <= 0 && Compare(y, z) <= 0
    ensures Compare(x, z) <= 0
    ensures Compare(x, z) == 0 ==> Compare(x, y) == 0 && Compare(y, z) == 0
    decreases x
  {
    if x.DTuple? && y.DTuple? && z.DTuple? {
      CompareFromTrans(x.elems, y.elems, z.elems, 0);
    }
  }

  lemma {:induction false} CompareFromTrans(xs: seq<Datum>, ys: seq<Datum>, zs: seq<Datum>, i: nat)
    requires CompareFrom(xs, ys, i) <= 0 && CompareFrom(ys, zs, i) <= 0
    ensures CompareFrom(xs, zs, i) <= 0
    ensures CompareFrom(xs, zs, i) == 0 ==> CompareFrom(xs, ys, i) == 0 && CompareFrom(ys, zs, i) == 0
    decreases xs, |xs| - i
  {
    if i < |xs| && i < |ys| && i < |zs| {
      CompareTrans(xs[i], ys[i], zs[i]);
      if Compare(xs[i], ys[i]) == 0 && Compare(ys[i], zs[i]) == 0 {
        CompareFromTrans(xs, ys, zs, i + 1);
      }
    }
  }

  // ---------------------------------------------------------------------------
  // Three-valued logic
  // ---------------------------------------------------------------------------

  datatype Truth = True | False | Unknown {
    function ToDatum(): Datum {
      match this
      case True => DBool(true)
      case False => DBool(false)
      case Unknown => DNull
    }
  }

  function TruthOf(b: bool): Truth { if b then True else False }

  function Not3(x: Truth): Truth {
    match x
    case True => False
    case False => True
    case Unknown => Unknown
  }

  function And3(x: Truth, y: Truth): Truth {
    if x == False || y == False then False
    else if x == True && y == True then True
    else Unknown
  }

  function Or3(x: Truth, y: Truth): Truth { Not3(And3(Not3(x), Not3(y))) }
}
