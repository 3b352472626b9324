/** The floating-point library functions the estimator calls, taken as
    parameters over exact reals: `x ** y` (float power, also `10 ** y`) and
    `np.log10`. Nothing about them is assumed by the operations; the laws
    below are what lemmas about the estimator require of them. */
module MathLib {

  datatype MathLib = MathLib(pow: (real, real) -> real, log10: real -> real)

  /** A positive base to any power is positive (0.0 stands for an underflow, which
      a lawful library does not produce). */
  ghost predicate PowPositive(m: MathLib)
  {
    forall x, y :: x > 0.0 ==> m.pow(x, y) > 0.0
  }

  /** A base in (0, 1) raised to a larger exponent gives a smaller value. */
  ghost predicate PowAntitoneBelowOne(m: MathLib)
  {
    forall x, y1, y2 :: 0.0 < x < 1.0 && y1 <= y2 ==> m.pow(x, y2) <= m.pow(x, y1)
  }

  /** For a non-negative exponent, a larger positive base gives a larger value. */
  ghost predicate PowMonotoneInBase(m: MathLib)
  {
    forall x1, x2, y :: 0.0 < x1 <= x2 && 0.0 <= y ==> m.pow(x1, y) <= m.pow(x2, y)
  }

  /** For a positive exponent, a larger positive base gives a strictly larger value. */
  ghost predicate PowIncreasingInBase(m: MathLib)
  {
    forall x1, x2, y :: 0.0 < x1 < x2 && 0.0 < y ==> m.pow(x1, y) < m.pow(x2, y)
  }

  /** A base in (0, 1) raised to a strictly larger exponent gives a strictly smaller value. */
  ghost predicate PowDecreasingBelowOne(m: MathLib)
  {
    forall x, y1, y2 :: 0.0 < x < 1.0 && y1 < y2 ==> m.pow(x, y2) < m.pow(x, y1)
  }

  /** `10 ** y` is strictly increasing in y. */
  ghost predicate ExpTenIncreasing(m: MathLib)
  {
    forall y1, y2 :: y1 < y2 ==> m.pow(10.0, y1) < m.pow(10.0, y2)
  }

  /** `log10` is strictly increasing on the positive reals and `10 ** log10(x) == x`. */
  ghost predicate LogTenInverts(m: MathLib)
  {
    && (forall x1, x2 :: 0.0 < x1 < x2 ==> m.log10(x1) < m.log10(x2))
    && (forall x :: x > 0.0 ==> m.pow(10.0, m.log10(x)) == x)
  }

  ghost predicate Lawful(m: MathLib)
  {
    && PowPositive(m)
    && PowAntitoneBelowOne(m)
    && PowMonotoneInBase(m)
    && PowIncreasingInBase(m)
    && PowDecreasingBelowOne(m)
    && ExpTenIncreasing(m)
    && LogTenInverts(m)
  }
}
