/**
 Checked 64-bit integer arithmetic. Each operation is written as the original writes it,
 over machine integers that wrap around, and is proved to give the true result
 exactly when that result fits in 64 bits.
 */
module Arithmetic {
  import opened Values

  const TWO_64: int := 0x1_0000_0000_0000_0000

  /** The two's-complement value of x reduced to 64 bits. */
  function Wrap(x: int): (w: Int64)
    ensures FitsInt64(x) ==> w == x
    ensures (w - x) % TWO_64 == 0
  {
    var m := x % TWO_64;
    if m <= MAX_INT64 then m else m - TWO_64
  }

  function Abs(x: int): int { if x < 0 then -x else x }

  /** Division that truncates toward zero. */
  function TruncDiv(a: int, b: int): int
    requires b != 0
  {
    var q := Abs(a) / Abs(b);
    if (a < 0) == (b < 0) then q else -q
  }

  /** Machine division: truncating, with the one overflowing quotient wrapped. */
  function MachineDiv(a: Int64, b: Int64): Int64
    requires b != 0
  {
    Wrap(TruncDiv(a, b))
  }

  /** Addition with the overflow test made before adding. */
  function Add(a: Int64, b: Int64): Result<Int64> {
    if b > 0 && a > MAX_INT64 - b then Err(IntOutOfRange)
    else if b < 0 && a < MIN_INT64 - b then Err(IntOutOfRange)
    else Ok(Wrap(a + b))
  }

  function Sub(a: Int64, b: Int64): Result<Int64> {
    if b < 0 && a > MAX_INT64 + b then Err(IntOutOfRange)
    else if b > 0 && a < MIN_INT64 + b then Err(IntOutOfRange)
    else Ok(Wrap(a - b))
  }

  /** Multiplication with the overflow test made after multiplying, by dividing back. */
  function Mul(a: Int64, b: Int64): Result<Int64> {
    var c := Wrap(a * b);
    if a == 0 || b == 0 || a == 1 || b == 1 then Ok(c)
    else if a == MIN_INT64 || b == MIN_INT64 then Err(IntOutOfRange)
    else if MachineDiv(c, b) != a then Err(IntOutOfRange)
    else Ok(c)
  }

  function FloorDiv(a: Int64, b: Int64): Result<Int64> {
    if b == 0 then Err(DivisionByZero) else Ok(MachineDiv(a, b))
  }

  function Negate(a: Int64): Result<Int64> {
    if a == MIN_INT64 then Err(IntOutOfRange) else Ok(-a)
  }

  /** What a checked operation owes its caller, given the true result. */
  predicate Checked(r: Result<Int64>, exact: int) {
    if FitsInt64(exact) then r == Ok(exact) else r == Err(IntOutOfRange)
  }

  lemma AddChecked(a: Int64, b: Int64)
    ensures Checked(Add(a, b), a + b)
  {
  }

  lemma SubChecked(a: Int64, b: Int64)
    ensures Checked(Sub(a, b), a - b)
  {
  }

  lemma NegateChecked(a: Int64)
    ensures Checked(Negate(a), 0 - a)
  {
  }

  /** The remainder of truncating division is smaller than the divisor. */
  lemma TruncDivRemainder(a: int, b: int)
    requires b != 0
    ensures -Abs(b) < a - TruncDiv(a, b) * b < Abs(b)
  {
    var x, y := Abs(a), Abs(b);
    var q := x / y;
    assert x == q * y + x % y;
    assert TruncDiv(a, b) * b == if a < 0 then -(q * y) else q * y by {
      assert (-q) * (-y) == q * y && (-q) * y == -(q * y) && q * (-y) == -(q * y);
    }
  }

  /** A product of two integers, neither 0 nor 1, one of them the least integer, never fits. */
  lemma LeastTimes(a: int)
    requires a != 0 && a != 1
    ensures !FitsInt64(a * MIN_INT64)
  {
    if a < 0 {
      assert a * MIN_INT64 >= (-1) * MIN_INT64;
    } else {
      assert a * MIN_INT64 <= 2 * MIN_INT64;
    }
  }

  /** Dividing the wrapped product back gives the factor only if nothing was wrapped. */
  lemma MulChecked(a: Int64, b: Int64)
    ensures Checked(Mul(a, b), a * b)
  {
    if a == 0 || b == 0 || a == 1 || b == 1 {
    } else if a == MIN_INT64 || b == MIN_INT64 {
      LeastTimes(if a == MIN_INT64 then b else a);
    } else {
      DividesBack(a, b);
    }
  }

  lemma DividesBack(a: Int64, b: Int64)
    requires a != MIN_INT64 && b != 0
    ensures MachineDiv(Wrap(a * b), b) == a <==> FitsInt64(a * b)
  {
    hide TruncDiv;
    var c := Wrap(a * b);
    QuotientBound(c, b);
    if FitsInt64(a * b) { ExactQuotient(a, b); }
    if TruncDiv(c, b) == a {
      TruncDivRemainder(c, b);
      SmallDifference(c - a * b);
    }
  }

  /** A product divides back exactly. */
  lemma ExactQuotient(a: int, b: int)
    requires b != 0
    ensures TruncDiv(a * b, b) == a
  {
    hide TruncDiv;
    var q := TruncDiv(a * b, b);
    Distribute(a, q, b);
    SmallMultiple(a - q, a * b - q * b, b);
  }

  lemma Distribute(a: int, q: int, b: int)
    ensures (a - q) * b == a * b - q * b
  {
  }

  /** A multiple of b that is a remainder of division by b is zero. */
  lemma SmallMultiple(k: int, r: int, b: int)
    requires b != 0
    requires exists a :: r == a - TruncDiv(a, b) * b
    requires r == k * b
    ensures k == 0
  {
    var a :| r == a - TruncDiv(a, b) * b;
    TruncDivRemainder(a, b);
    if k != 0 { MulGrows(k, b); }
  }

  lemma MulGrows(k: int, b: int)
    requires k != 0
    ensures Abs(k * b) >= Abs(b)
  {
    if k > 0 {
      assert b >= 0 ==> k * b >= b;
      assert b < 0 ==> k * b <= b;
    } else {
      assert b >= 0 ==> k * b <= -b;
      assert b < 0 ==> k * b >= -b;
    }
  }

  lemma SmallDifference(d: int)
    requires -TWO_64 < d < TWO_64 && d % TWO_64 == 0
    ensures d == 0
  {
  }

  /** The one quotient that wraps is that of the least integer by -1. */
  lemma QuotientBound(c: Int64, b: Int64)
    requires b != 0
    ensures (c == MIN_INT64 && b == -1) || FitsInt64(TruncDiv(c, b))
    ensures c == MIN_INT64 && b == -1 ==> MachineDiv(c, b) == MIN_INT64
  {
    QuotientShrinks(Abs(c), Abs(b));
  }

  lemma QuotientShrinks(x: int, y: int)
    requires x >= 0 && y >= 1
    ensures 0 <= x / y <= x
    ensures y > 1 ==> 2 * (x / y) <= x
  {
    var q := x / y;
    assert x == q * y + x % y && q >= 0;
    ProductAtLeast(q, y);
  }

  lemma ProductAtLeast(q: int, y: int)
    requires q >= 0 && y >= 1
    ensures q * y >= q
    ensures y > 1 ==> q * y >= 2 * q
  {
    assert q * y == q + q * (y - 1);
    assert q * (y - 1) >= 0;
    assert y > 1 ==> q * (y - 1) == q + q * (y - 2) && q * (y - 2) >= 0;
  }
}
