/** Exact non-negative rationals, standing in for the floating-point scale
    factor and thickness threshold, and facts about non-linear integer
    arithmetic that the solver does not find by itself. */
module Arith {

  /** The rational `num / den`. */
  datatype Ratio = Ratio(num: nat, den: nat)

  /** A rational with a positive denominator, as every threshold is. */
  type Fraction = r: Ratio | r.den > 0 witness Ratio(0, 1)

  /** `a <= b` for rationals with positive denominators. */
  predicate RatioLeq(a: Ratio, b: Ratio) {
    a.num * b.den <= b.num * a.den
  }

  /** `a < b` for rationals with positive denominators. */
  predicate RatioLess(a: Ratio, b: Ratio) {
    a.num * b.den < b.num * a.den
  }

  lemma ZeroByBound(k: int, b: nat)
    requires b > 0 && 0 <= k * b < b
    ensures k == 0
  {
  }

  lemma NonPositiveFactor(k: int, c: nat)
    requires c > 0 && k * c <= 0
    ensures k <= 0
  {
  }

  /** A positive factor can be cancelled from both sides of `<=`. */
  lemma MulCancelLe(q: int, b: int, c: nat)
    requires c > 0 && q * c <= b * c
    ensures q <= b
  {
    assert (q - b) * c == q * c - b * c;
    NonPositiveFactor(q - b, c);
  }

  lemma MulDivCancel(a: nat, b: nat)
    requires b > 0
    ensures b * a / b == a
  {
    var q, r := b * a / b, b * a % b;
    assert (a - q) * b == r;
    ZeroByBound(a - q, b);
  }

  /** `a <= b * c` bounds the quotient `a / c` by `b`. */
  lemma DivBound(a: nat, b: nat, c: nat)
    requires c > 0 && a <= b * c
    ensures a / c <= b
  {
    MulCancelLe(a / c, b, c);
  }

  /** A quotient is zero exactly when the dividend is below the divisor. */
  lemma DivZero(a: nat, c: nat)
    requires c > 0
    ensures a / c == 0 <==> a < c
  {
  }

  /** A larger numerator over the same denominator makes a larger rational. */
  lemma RatioLessGrow(t: Ratio, a: nat, b: nat, d: nat)
    requires RatioLess(t, Ratio(a, d)) && a <= b
    ensures RatioLess(t, Ratio(b, d))
  {
    assert a * t.den <= b * t.den by {
      if t.den > 0 {
        MulMono(t.den, a, b);
      }
    }
  }

  /** Multiplying by a positive factor keeps the order. */
  lemma MulMono(t: nat, a: nat, b: nat)
    requires t > 0
    ensures t * a <= t * b <==> a <= b
  {
  }
}
