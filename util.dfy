/** Option values and the parts of Java's integer and float semantics that the
    tab strip relies on: the `(int)` cast of a float (truncation toward zero)
    and integer division `/` on `int` (also truncating toward zero). */
module Util {

  datatype Option<T> = None | Some(value: T)

  /** Java's `(int) x` for a float `x` in the int range: drop the fraction,
      rounding toward zero. */
  function Trunc(x: real): (r: int)
    ensures x >= 0.0 ==> r as real <= x < r as real + 1.0
    ensures x < 0.0 ==> r as real - 1.0 < x <= r as real
    ensures x >= 0.0 ==> r >= 0
    ensures x <= 0.0 ==> r <= 0
  {
    if x >= 0.0 then x.Floor else -((-x).Floor)
  }

  /** Float multiplication. Kept as a function of its own so that facts about
      a product are stated once, in the lemmas below, over `Mul` terms. */
  function Mul(a: real, b: real): real { a * b }

  /** Multiplying by a non-negative factor keeps the order. */
  lemma ScaleMonotone(x: real, y: real, c: real)
    requires x <= y && c >= 0.0
    ensures Mul(x, c) <= Mul(y, c)
  {
  }

  /** A fraction strictly between 0 and 1 of a non-negative value lies
      between 0 and that value. */
  lemma MulFraction(x: real, t: real)
    requires x >= 0.0 && 0.0 < t < 1.0
    ensures 0.0 <= Mul(x, t) <= x
  {
    ScaleMonotone(t, 1.0, x);
    ScaleMonotone(0.0, t, x);
    assert Mul(x, t) == Mul(t, x);
  }

  lemma MulNegate(x: real, t: real)
    ensures Mul(x, t) == -Mul(-x, t)
  {
  }

  /** The product of two ints is the same as a float. */
  lemma MulOfInts(a: int, b: int)
    ensures Mul(a as real, b as real) == (a * b) as real
  {
  }

  /** Java's `a / b` on ints: the quotient rounded toward zero. For a
      positive divisor the remainder `a - q * b` is smaller than the divisor
      and has the dividend's sign, which pins `q` down; for a non-negative
      dividend this is Dafny's own quotient. */
  function JavaDiv(a: int, b: int): (q: int)
    requires b != 0
    ensures b > 0 && a >= 0 ==> 0 <= a - q * b < b
    ensures b > 0 && a < 0 ==> -b < a - q * b <= 0
    ensures a >= 0 && b > 0 ==> q == a / b
  {
    if (a >= 0) == (b > 0) then
      (if a >= 0 then a / b else (-a) / (-b))
    else
      -((if a >= 0 then a else -a) / (if b > 0 then b else -b))
  }

  function Min(a: int, b: int): int { if a <= b then a else b }

  function Max(a: int, b: int): int { if a >= b then a else b }

  function AbsInt(a: int): int { if a < 0 then -a else a }

  function AbsReal(x: real): real { if x < 0.0 then -x else x }

  /** The integer `x as real` stands for. */
  predicate IsIntegral(x: real) { x == x.Floor as real }

  lemma TruncOfInt(k: int)
    ensures Trunc(k as real) == k
  {
  }

  /** `(int)` is monotone: a larger float never casts to a smaller int. */
  lemma TruncMonotone(x: real, y: real)
    requires x <= y
    ensures Trunc(x) <= Trunc(y)
  {
    if x >= 0.0 {
      assert x.Floor <= y.Floor;
    } else if y < 0.0 {
      assert (-y).Floor <= (-x).Floor;
    }
  }
}
