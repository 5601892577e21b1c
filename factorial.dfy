/**
 * The custom `fact` function that the calculator registers with its
 * expression library: the argument is truncated toward zero, a negative
 * result is refused, and otherwise the product 2 * 3 * ... * n is
 * accumulated in a loop.
 *
 * Arithmetic is exact: the argument is a `real` and the product a `nat`,
 * where the Kotlin code works on doubles (see README, "Left out").
 */
module Factorial {

  /** Outcome of one application of `fact`. */
  datatype Outcome = Ok(value: nat) | IllegalArgument

  /** n! as the recursive textbook definition: 0! = 1 and n! = n * (n-1)!. */
  function Fact(n: nat): (r: nat)
    ensures r >= 1
    ensures r >= n
  {
    if n == 0 then 1 else n * Fact(n - 1)
  }

  /** A double-to-int conversion that rounds toward zero. */
  function TruncateTowardZero(x: real): (n: int)
    ensures 0.0 <= x ==> n as real <= x < n as real + 1.0
    ensures x < 0.0 ==> n as real - 1.0 < x <= n as real
  {
    if x >= 0.0 then x.Floor else -((-x).Floor)
  }

  /**
   * The guard of `fact` as written: the truncated argument is compared with
   * itself, so only the sign of the truncated value is ever looked at.
   */
  predicate RejectedAsWritten(x: real) {
    var n := TruncateTowardZero(x);
    n < 0 || n != TruncateTowardZero(x)
  }

  /** The guard the error message describes: a non-negative whole number. */
  predicate RejectedAsIntended(x: real) {
    var n := TruncateTowardZero(x);
    n < 0 || n as real != x
  }

  /** The accumulation loop `for (i in 2..n) result *= i`. */
  method Accumulate(n: int) returns (result: nat)
    requires n >= 0
    ensures result == Fact(n)
  {
    result := 1;
    var i := 2;
    while i <= n
      invariant 2 <= i && (i <= n + 1 || i == 2)
      invariant result == Fact(i - 1)
    {
      result := result * i;
      i := i + 1;
    }
  }

  /** `fact` as written: only a negative truncated argument is refused. */
  method Apply(x: real) returns (r: Outcome)
    ensures r.IllegalArgument? <==> TruncateTowardZero(x) < 0
    ensures r.Ok? ==> r.value == Fact(TruncateTowardZero(x))
  {
    if RejectedAsWritten(x) {
      return IllegalArgument;
    }
    var result := Accumulate(TruncateTowardZero(x));
    return Ok(result);
  }

  /** `fact` with the guard its error message describes. */
  method ApplyIntended(x: real) returns (r: Outcome)
    ensures r.IllegalArgument? <==> (x < 0.0 || x.Floor as real != x)
    ensures r.Ok? ==> r.value == Fact(x.Floor)
  {
    if RejectedAsIntended(x) {
      return IllegalArgument;
    }
    var result := Accumulate(TruncateTowardZero(x));
    return Ok(result);
  }

  /** The written guard decides on the sign of the truncated argument alone. */
  lemma RejectedAsWrittenIffNegative(x: real)
    ensures RejectedAsWritten(x) <==> TruncateTowardZero(x) < 0
    ensures RejectedAsWritten(x) <==> x <= -1.0
  {
  }

  /**
   * Inputs that show the written guard lets fractions through: 2.5 is taken
   * as 2 and -0.5 as 0, while the intended guard refuses both.
   */
  lemma FractionsPassWrittenGuard()
    ensures !RejectedAsWritten(2.5) && TruncateTowardZero(2.5) == 2
    ensures !RejectedAsWritten(-0.5) && TruncateTowardZero(-0.5) == 0
    ensures RejectedAsIntended(2.5) && RejectedAsIntended(-0.5)
  {
  }

  /** The intended guard accepts exactly the non-negative whole numbers. */
  lemma RejectedAsIntendedIff(x: real)
    ensures !RejectedAsIntended(x) <==> (0.0 <= x && x.Floor as real == x)
  {
  }

  /** The two guards agree on every whole number. */
  lemma GuardsAgreeOnWholeNumbers(k: int)
    ensures RejectedAsWritten(k as real) == RejectedAsIntended(k as real)
  {
  }

  /** Base cases: 0! = 1! = 1. */
  lemma FactBase()
    ensures Fact(0) == 1 && Fact(1) == 1
  {
  }

  /** The ascending product the loop builds: lo * (lo+1) * ... * hi. */
  function Product(lo: int, hi: int): int
    decreases hi - lo
  {
    if hi < lo then 1 else Product(lo, hi - 1) * hi
  }

  /** n! is the product 1 * 2 * ... * n. */
  lemma {:induction false} FactIsProduct(n: nat)
    ensures Fact(n) == Product(1, n)
  {
    if n > 0 {
      FactIsProduct(n - 1);
    }
  }
}
