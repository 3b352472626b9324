/** What the code library's formulas promise: the distance and ancilla
    arithmetic, the ordering of the yoked variants, and how epsilon_L moves with
    n and p when the library's pow behaves like the real power function. */
module FormulaLaws {
  import opened Results
  import opened Registry
  import opened MathLib
  import opened Formulas

  /** A larger qubit budget never gives a smaller inner distance. */
  lemma InnerDistanceMonotone(n1: nat, n2: nat, k: nat)
    requires k > 0 && n1 <= n2
    ensures InnerDistance(n1, k) <= InnerDistance(n2, k)
  {
    var d1, d2 := InnerDistance(n1, k), InnerDistance(n2, k);
    if d1 > d2 {
      SquareMonotone(d2 + 1, d1);
      ScaleMonotone(k, (d2 + 1) * (d2 + 1), d1 * d1);
    }
  }

  /** The ancilla count is never negative once d >= 1 and k >= 0. */
  lemma AncillaNonNegative(k: int, d: nat)
    requires k >= 0 && d >= 1
    ensures AncillaCount(k, d) >= 0
  {
    assert d * d >= 1 by { SquareMonotone(1, d); }
    ScaleMonotone(k, 0, d * d - 1);
  }

  /** For a fixed k >= 1 the ancilla count of a surface or color lattice grows with n. */
  lemma AncillaGrowsWithN(n1: nat, n2: nat, k: nat)
    requires k > 0 && n1 <= n2
    ensures AncillaCount(k, InnerDistance(n1, k)) <= AncillaCount(k, InnerDistance(n2, k))
  {
    var d1, d2 := InnerDistance(n1, k), InnerDistance(n2, k);
    InnerDistanceMonotone(n1, n2, k);
    SquareMonotone(d1, d2);
    var s1, s2 := (d1 * d1) as int - 1, (d2 * d2) as int - 1;
    ScaleMonotone(k, s1, s2);
  }

  /** The worked examples: with one logical qubit, n = 1000 gives d = 31 and
      960 ancillas, n = 9 gives d = 3 and 8 ancillas. */
  lemma SurfaceExamples(m: MathLib, p: real)
    ensures Evaluate(m, Surface, p, 1000, 1) == Ok(Lattice(0.03 * m.pow(p / 0.011, 15.5), 1000, 1, 31, 960.0))
    ensures Evaluate(m, Surface, p, 9, 1) == Ok(Lattice(0.03 * m.pow(p / 0.011, 1.5), 9, 1, 3, 8.0))
  {
    InnerDistanceUnique(1000, 1, 31);
    assert AncillaCount(1, 31) == 960;
    InnerDistanceUnique(9, 1, 3);
    assert AncillaCount(1, 3) == 8;
  }

  /** The color code at n = 1000, k = 1 keeps the surface lattice's d = 31 and
      960 ancillas but rounds the exponent up to 16. */
  lemma ColorExample(m: MathLib, p: real)
    ensures Evaluate(m, Color, p, 1000, 1) == Ok(Lattice(0.03 * m.pow(p / 0.0036, 16.0), 1000, 1, 31, 960.0))
  {
    InnerDistanceUnique(1000, 1, 31);
    assert AncillaCount(1, 31) == 960;
  }

  /** The yoked codes at n = 1000, k = 1 report d = 55 and d = 99 over the inner
      d = 31, and scale its 960 ancillas to 1152 and 1440. */
  lemma YokedExamples(m: MathLib, p: real)
    ensures Evaluate(m, Yoked1D, p, 1000, 1) == Ok(Lattice(0.03 * m.pow(p / 0.011, 28.0), 1000, 1, 55, 1152.0))
    ensures Evaluate(m, Yoked2D, p, 1000, 1) == Ok(Lattice(0.03 * m.pow(p / 0.011, 50.0), 1000, 1, 99, 1440.0))
  {
    InnerDistanceUnique(1000, 1, 31);
    assert AncillaCount(1, 31) == 960;
    assert Yoked(Mu1D, 31) == 55 && CeilHalf(55) == 28;
    assert Yoked(Mu2D, 31) == 99 && CeilHalf(99) == 50;
  }

  /** For the same (n, k) the reported distances are ordered surface <= 1D-yoked
      <= 2D-yoked, strictly exactly when the inner distance is at least 2 and 1;
      the yoked ancilla counts are the surface count scaled by 1.2 and 1.5. */
  lemma DistanceOrdering(m: MathLib, p: real, n: nat, k: nat)
    requires k > 0
    ensures var s, y1, y2 := Evaluate(m, Surface, p, n, k).value,
                             Evaluate(m, Yoked1D, p, n, k).value,
                             Evaluate(m, Yoked2D, p, n, k).value;
            && s.d <= y1.d <= y2.d
            && (s.d < y1.d <==> s.d >= 2)
            && (y1.d < y2.d <==> s.d >= 1)
            && y1.nAncilla == 1.2 * s.nAncilla
            && y2.nAncilla == 1.5 * s.nAncilla
  {
    var d := InnerDistance(n, k);
    assert Evaluate(m, Surface, p, n, k).value.d == d;
    var d1, d2 := Yoked(Mu1D, d), Yoked(Mu2D, d);
    assert d1 == Evaluate(m, Yoked1D, p, n, k).value.d;
    assert d2 == Evaluate(m, Yoked2D, p, n, k).value.d;
  }

  /** p below the threshold puts p_ratio strictly between 0 and 1. */
  lemma RatioBelowOne(c: Code, p: real)
    requires 0.0 < p < Threshold(c)
    ensures 0.0 < Ratio(c, p) < 1.0
  {
  }

  lemma ScaleReal(a: real, x: real, y: real)
    requires a >= 0.0 && x <= y
    ensures a * x <= a * y
  {
  }

  /** A larger lattice distance gives a larger exponent. */
  lemma ExponentMonotone(c: Code, d1: nat, d2: nat)
    requires d1 <= d2
    ensures LatticeExponent(c, d1) <= LatticeExponent(c, d2)
  {
  }

  /** The lattice distance a code reports for (n, k), when k > 0. */
  function ReportedDistance(c: Code, n: nat, k: nat): nat
    requires k > 0
  {
    match c
    case Yoked1D => Yoked(Mu1D, InnerDistance(n, k))
    case Yoked2D => Yoked(Mu2D, InnerDistance(n, k))
    case _ => InnerDistance(n, k)
  }

  lemma ReportedDistanceMonotone(c: Code, n1: nat, n2: nat, k: nat)
    requires k > 0 && n1 <= n2
    ensures ReportedDistance(c, n1, k) <= ReportedDistance(c, n2, k)
  {
    var d1, d2 := InnerDistance(n1, k), InnerDistance(n2, k);
    InnerDistanceMonotone(n1, n2, k);
    ScaleMonotone(Mu1D, d1, d2);
    ScaleMonotone(Mu2D, d1, d2);
  }

  /** epsilon_L of an LDPC-style code: coefficient * p_ratio ** (scale * n ** power),
      with (0.07, 0.47, 0.27) for hypergraph product and (2.3, 0.11, 0.60) for lifted product. */
  function AlgebraicEpsilon(m: MathLib, c: Code, p: real, n: nat): real
  {
    var (coefficient, scale, power) := if c.Hypergraph? then (0.07, 0.47, 0.27) else (2.3, 0.11, 0.60);
    coefficient * m.pow(Ratio(c, p), scale * m.pow(n as real, power))
  }

  /** The factor on a lattice code's ancilla count: 1.2 and 1.5 for the yoke
      connections of the 1D- and 2D-yoked codes, 1 otherwise. */
  function AncillaOverhead(c: Code): real
  {
    match c
    case Yoked1D => 1.2
    case Yoked2D => 1.5
    case _ => 1.0
  }

  /** What Evaluate reports, unfolded once per code family: the distance,
      ancilla count and epsilon_L of a lattice code, the power law of an
      LDPC-style code. */
  lemma EpsilonShape(m: MathLib, c: Code, p: real, n: nat, k: nat)
    requires k >= 1
    ensures Evaluate(m, c, p, n, k).Ok?
    ensures c.DistanceBased() ==> Evaluate(m, c, p, n, k).value.d == ReportedDistance(c, n, k)
    ensures c.DistanceBased() ==>
      Evaluate(m, c, p, n, k).value.nAncilla == AncillaOverhead(c) * AncillaCount(k, InnerDistance(n, k)) as real
    ensures c.DistanceBased() ==>
      Evaluate(m, c, p, n, k).value.epsilonL == LatticeEpsilon(m, c, p, k, ReportedDistance(c, n, k))
    ensures !c.DistanceBased() ==>
      Evaluate(m, c, p, n, k).value.epsilonL == AlgebraicEpsilon(m, c, p, n)
  {
  }

  /** For a fixed k >= 1, the distance and the ancilla count a lattice code
      reports never decrease as n grows. */
  lemma LatticeGrowsWithN(m: MathLib, c: Code, p: real, n1: nat, n2: nat, k: nat)
    requires c.DistanceBased() && k >= 1 && n1 <= n2
    ensures Evaluate(m, c, p, n1, k).value.d <= Evaluate(m, c, p, n2, k).value.d
    ensures Evaluate(m, c, p, n1, k).value.nAncilla <= Evaluate(m, c, p, n2, k).value.nAncilla
  {
    EpsilonShape(m, c, p, n1, k);
    EpsilonShape(m, c, p, n2, k);
    ReportedDistanceMonotone(c, n1, n2, k);
    AncillaGrowsWithN(n1, n2, k);
    var a1, a2 := AncillaCount(k, InnerDistance(n1, k)), AncillaCount(k, InnerDistance(n2, k));
    ScaleReal(AncillaOverhead(c), a1 as real, a2 as real);
  }

  /** A lattice code's epsilon_L is positive below threshold when pow is, and
      vanishes with k. */
  lemma LatticeEpsilonPositive(m: MathLib, c: Code, p: real, k: int, d: nat)
    requires PowPositive(m) && p > 0.0
    ensures LatticeEpsilon(m, c, p, k, d) > 0.0 <==> k > 0
    ensures k == 0 ==> LatticeEpsilon(m, c, p, k, d) == 0.0
  {
    var power := m.pow(Ratio(c, p), LatticeExponent(c, d));
    assert Ratio(c, p) > 0.0;
    assert power > 0.0;
    if k > 0 {
      ScaleRealStrict(0.03 * (k as real), 0.0, power);
    } else {
      ScaleReal(power, k as real, 0.0);
    }
  }

  lemma LatticeEpsilonAntitone(m: MathLib, c: Code, p: real, k: nat, d1: nat, d2: nat)
    requires PowAntitoneBelowOne(m)
    requires 0.0 < p < Threshold(c) && k >= 1 && d1 <= d2
    ensures LatticeEpsilon(m, c, p, k, d2) <= LatticeEpsilon(m, c, p, k, d1)
  {
    var r := Ratio(c, p);
    RatioBelowOne(c, p);
    ExponentMonotone(c, d1, d2);
    var e1, e2 := LatticeExponent(c, d1), LatticeExponent(c, d2);
    ScaleReal(0.03 * (k as real), m.pow(r, e2), m.pow(r, e1));
  }

  lemma AlgebraicEpsilonAntitone(m: MathLib, c: Code, p: real, n1: nat, n2: nat)
    requires PowAntitoneBelowOne(m) && PowMonotoneInBase(m)
    requires !c.DistanceBased() && 0.0 < p < Threshold(c) && 1 <= n1 <= n2
    ensures AlgebraicEpsilon(m, c, p, n2) <= AlgebraicEpsilon(m, c, p, n1)
  {
    var r := Ratio(c, p);
    RatioBelowOne(c, p);
    var (coefficient, scale, power) := if c.Hypergraph? then (0.07, 0.47, 0.27) else (2.3, 0.11, 0.60);
    var q1, q2 := m.pow(n1 as real, power), m.pow(n2 as real, power);
    assert q1 <= q2;
    ScaleReal(scale, q1, q2);
    assert m.pow(r, scale * q2) <= m.pow(r, scale * q1);
    ScaleReal(coefficient, m.pow(r, scale * q2), m.pow(r, scale * q1));
  }

  /** Below threshold, more physical qubits never raise epsilon_L, for every
      code: the monotonicity the bisection search relies on. */
  lemma EpsilonAntitoneInN(m: MathLib, c: Code, p: real, k: nat, n1: nat, n2: nat)
    requires PowAntitoneBelowOne(m) && PowMonotoneInBase(m)
    requires 0.0 < p < Threshold(c) && k >= 1 && 1 <= n1 <= n2
    ensures Evaluate(m, c, p, n1, k).Ok? && Evaluate(m, c, p, n2, k).Ok?
    ensures Evaluate(m, c, p, n2, k).value.epsilonL <= Evaluate(m, c, p, n1, k).value.epsilonL
  {
    EpsilonShape(m, c, p, n1, k);
    EpsilonShape(m, c, p, n2, k);
    if c.DistanceBased() {
      ReportedDistanceMonotone(c, n1, n2, k);
      LatticeEpsilonAntitone(m, c, p, k, ReportedDistance(c, n1, k), ReportedDistance(c, n2, k));
    } else {
      AlgebraicEpsilonAntitone(m, c, p, n1, n2);
    }
  }

  lemma RatioMonotone(c: Code, p1: real, p2: real)
    requires 0.0 < p1 <= p2
    ensures 0.0 < Ratio(c, p1) <= Ratio(c, p2)
  {
  }

  lemma LatticeEpsilonMonotoneInP(m: MathLib, c: Code, k: nat, d: nat, p1: real, p2: real)
    requires PowMonotoneInBase(m)
    requires 0.0 < p1 <= p2 && k >= 1
    ensures LatticeEpsilon(m, c, p1, k, d) <= LatticeEpsilon(m, c, p2, k, d)
  {
    RatioMonotone(c, p1, p2);
    var e := LatticeExponent(c, d);
    assert m.pow(Ratio(c, p1), e) <= m.pow(Ratio(c, p2), e);
    ScaleReal(0.03 * (k as real), m.pow(Ratio(c, p1), e), m.pow(Ratio(c, p2), e));
  }

  lemma AlgebraicEpsilonMonotoneInP(m: MathLib, c: Code, n: nat, p1: real, p2: real)
    requires PowPositive(m) && PowMonotoneInBase(m)
    requires !c.DistanceBased() && 0.0 < p1 <= p2 && n >= 1
    ensures AlgebraicEpsilon(m, c, p1, n) <= AlgebraicEpsilon(m, c, p2, n)
  {
    RatioMonotone(c, p1, p2);
    var (coefficient, scale, power) := if c.Hypergraph? then (0.07, 0.47, 0.27) else (2.3, 0.11, 0.60);
    assert m.pow(n as real, power) > 0.0;
    var e := scale * m.pow(n as real, power);
    assert m.pow(Ratio(c, p1), e) <= m.pow(Ratio(c, p2), e);
    ScaleReal(coefficient, m.pow(Ratio(c, p1), e), m.pow(Ratio(c, p2), e));
  }

  /** For a fixed (n, k), a noisier device never has a smaller epsilon_L. */
  lemma EpsilonMonotoneInP(m: MathLib, c: Code, n: nat, k: nat, p1: real, p2: real)
    requires PowPositive(m) && PowMonotoneInBase(m)
    requires 0.0 < p1 <= p2 && k >= 1 && n >= 1
    ensures Evaluate(m, c, p1, n, k).Ok? && Evaluate(m, c, p2, n, k).Ok?
    ensures Evaluate(m, c, p1, n, k).value.epsilonL <= Evaluate(m, c, p2, n, k).value.epsilonL
  {
    EpsilonShape(m, c, p1, n, k);
    EpsilonShape(m, c, p2, n, k);
    if c.DistanceBased() {
      LatticeEpsilonMonotoneInP(m, c, k, ReportedDistance(c, n, k), p1, p2);
    } else {
      AlgebraicEpsilonMonotoneInP(m, c, n, p1, p2);
    }
  }

  lemma YokedEpsilonOrder(m: MathLib, p: real, k: nat, d: nat)
    requires PowAntitoneBelowOne(m)
    requires 0.0 < p < Threshold(Surface) && k >= 1
    ensures LatticeEpsilon(m, Yoked2D, p, k, Yoked(Mu2D, d)) <= LatticeEpsilon(m, Yoked1D, p, k, Yoked(Mu1D, d))
    ensures LatticeEpsilon(m, Yoked1D, p, k, Yoked(Mu1D, d)) <= LatticeEpsilon(m, Surface, p, k, d)
  {
    var r := Ratio(Surface, p);
    RatioBelowOne(Surface, p);
    var d1, d2 := Yoked(Mu1D, d), Yoked(Mu2D, d);
    var es, e1, e2 := LatticeExponent(Surface, d), LatticeExponent(Yoked1D, d1), LatticeExponent(Yoked2D, d2);
    assert es <= e1 <= e2;
    var a := 0.03 * (k as real);
    ScaleReal(a, m.pow(r, e2), m.pow(r, e1));
    ScaleReal(a, m.pow(r, e1), m.pow(r, es));
  }

  /** Below the shared threshold 0.011, yoking never weakens suppression:
      epsilon_L(2D-yoked) <= epsilon_L(1D-yoked) <= epsilon_L(surface). */
  lemma YokedSuppression(m: MathLib, p: real, n: nat, k: nat)
    requires PowAntitoneBelowOne(m)
    requires 0.0 < p < Threshold(Surface) && k >= 1
    ensures var s, y1, y2 := Evaluate(m, Surface, p, n, k).value.epsilonL,
                             Evaluate(m, Yoked1D, p, n, k).value.epsilonL,
                             Evaluate(m, Yoked2D, p, n, k).value.epsilonL;
            y2 <= y1 <= s
  {
    EpsilonShape(m, Surface, p, n, k);
    EpsilonShape(m, Yoked1D, p, n, k);
    EpsilonShape(m, Yoked2D, p, n, k);
    YokedEpsilonOrder(m, p, k, InnerDistance(n, k));
  }

  /** A full lattice of at least one patch (n >= k) has inner distance at least 1. */
  lemma InnerDistancePositive(n: nat, k: nat)
    requires 1 <= k <= n
    ensures InnerDistance(n, k) >= 1
  {
  }

  /** Every lattice code reports a distance of at least 1 once n >= k. */
  lemma ReportedDistancePositive(c: Code, n: nat, k: nat)
    requires 1 <= k <= n
    ensures ReportedDistance(c, n, k) >= 1
  {
    InnerDistancePositive(n, k);
  }

  lemma ScaleRealStrict(a: real, x: real, y: real)
    requires a > 0.0 && x < y
    ensures a * x < a * y
  {
  }

  /** At a distance of at least 1 the exponent is positive, so a larger p gives
      a strictly larger lattice epsilon_L. */
  lemma LatticeEpsilonIncreasingInP(m: MathLib, c: Code, k: nat, d: nat, p1: real, p2: real)
    requires PowIncreasingInBase(m)
    requires 0.0 < p1 < p2 && k >= 1 && d >= 1
    ensures LatticeEpsilon(m, c, p1, k, d) < LatticeEpsilon(m, c, p2, k, d)
  {
    var r1, r2 := Ratio(c, p1), Ratio(c, p2);
    assert 0.0 < r1 < r2;
    var e := LatticeExponent(c, d);
    assert e > 0.0;
    ScaleRealStrict(0.03 * (k as real), m.pow(r1, e), m.pow(r2, e));
  }

  /** For n >= 1 the LDPC-style exponent is positive, so a larger p gives a
      strictly larger epsilon_L. */
  lemma AlgebraicEpsilonIncreasingInP(m: MathLib, c: Code, n: nat, p1: real, p2: real)
    requires PowPositive(m) && PowIncreasingInBase(m)
    requires !c.DistanceBased() && 0.0 < p1 < p2 && n >= 1
    ensures AlgebraicEpsilon(m, c, p1, n) < AlgebraicEpsilon(m, c, p2, n)
  {
    var r1, r2 := Ratio(c, p1), Ratio(c, p2);
    assert 0.0 < r1 < r2;
    var (coefficient, scale, power) := if c.Hypergraph? then (0.07, 0.47, 0.27) else (2.3, 0.11, 0.60);
    assert m.pow(n as real, power) > 0.0;
    var e := scale * m.pow(n as real, power);
    assert m.pow(r1, e) < m.pow(r2, e);
    ScaleRealStrict(coefficient, m.pow(r1, e), m.pow(r2, e));
  }

  /** With at least one full patch (n >= k >= 1), a noisier device has a
      strictly larger epsilon_L, for every code, when pow grows strictly in its base. */
  lemma EpsilonIncreasingInP(m: MathLib, c: Code, n: nat, k: nat, p1: real, p2: real)
    requires PowPositive(m) && PowIncreasingInBase(m)
    requires 0.0 < p1 < p2 && 1 <= k <= n
    ensures Evaluate(m, c, p1, n, k).Ok? && Evaluate(m, c, p2, n, k).Ok?
    ensures Evaluate(m, c, p1, n, k).value.epsilonL < Evaluate(m, c, p2, n, k).value.epsilonL
  {
    EpsilonShape(m, c, p1, n, k);
    EpsilonShape(m, c, p2, n, k);
    if c.DistanceBased() {
      ReportedDistancePositive(c, n, k);
      LatticeEpsilonIncreasingInP(m, c, k, ReportedDistance(c, n, k), p1, p2);
    } else {
      AlgebraicEpsilonIncreasingInP(m, c, n, p1, p2);
    }
  }

  /** From d_in >= 1 on the exponents are strictly ordered:
      d / 2 < ceil(int(1.8 d) / 2) < ceil(int(3.2 d) / 2). */
  lemma YokedExponentsIncrease(d: nat)
    requires d >= 1
    ensures LatticeExponent(Surface, d) < LatticeExponent(Yoked1D, Yoked(Mu1D, d))
    ensures LatticeExponent(Yoked1D, Yoked(Mu1D, d)) < LatticeExponent(Yoked2D, Yoked(Mu2D, d))
  {
    var d1, d2 := Yoked(Mu1D, d), Yoked(Mu2D, d);
    var e1, e2 := CeilHalf(d1), CeilHalf(d2);
    if d == 1 {
      assert d1 == 1 && d2 == 3;
    } else {
      assert d1 >= d + 1;
      assert d2 >= d1 + 2;
    }
    assert d + 1 <= 2 * e1;
    assert e1 < e2;
  }

  /** Over an inner distance of at least 1, 2D-yoked epsilon_L < 1D-yoked < surface. */
  lemma YokedEpsilonStrictOrder(m: MathLib, p: real, k: nat, d: nat)
    requires PowDecreasingBelowOne(m)
    requires 0.0 < p < Threshold(Surface) && k >= 1 && d >= 1
    ensures LatticeEpsilon(m, Yoked2D, p, k, Yoked(Mu2D, d)) < LatticeEpsilon(m, Yoked1D, p, k, Yoked(Mu1D, d))
    ensures LatticeEpsilon(m, Yoked1D, p, k, Yoked(Mu1D, d)) < LatticeEpsilon(m, Surface, p, k, d)
  {
    var r := Ratio(Surface, p);
    RatioBelowOne(Surface, p);
    YokedExponentsIncrease(d);
    var es, e1, e2 := LatticeExponent(Surface, d), LatticeExponent(Yoked1D, Yoked(Mu1D, d)), LatticeExponent(Yoked2D, Yoked(Mu2D, d));
    var a := 0.03 * (k as real);
    ScaleRealStrict(a, m.pow(r, e2), m.pow(r, e1));
    ScaleRealStrict(a, m.pow(r, e1), m.pow(r, es));
  }

  /** Below 0.011 and with at least one full patch (n >= k >= 1), yoking
      strictly improves suppression: epsilon_L(2D-yoked) < epsilon_L(1D-yoked)
      < epsilon_L(surface). */
  lemma YokedSuppressionStrict(m: MathLib, p: real, n: nat, k: nat)
    requires PowDecreasingBelowOne(m)
    requires 0.0 < p < Threshold(Surface) && 1 <= k <= n
    ensures var s, y1, y2 := Evaluate(m, Surface, p, n, k).value.epsilonL,
                             Evaluate(m, Yoked1D, p, n, k).value.epsilonL,
                             Evaluate(m, Yoked2D, p, n, k).value.epsilonL;
            y2 < y1 < s
  {
    EpsilonShape(m, Surface, p, n, k);
    EpsilonShape(m, Yoked1D, p, n, k);
    EpsilonShape(m, Yoked2D, p, n, k);
    InnerDistancePositive(n, k);
    YokedEpsilonStrictOrder(m, p, k, InnerDistance(n, k));
  }
}
