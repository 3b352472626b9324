/** The six `_*_calculate_params` formulas of the code library and their
    dispatch. Integer parts (distances, ancilla counts, exponents) are exact;
    the power laws go through the abstract `pow` of a MathLib. */
module Formulas {
  import opened Results
  import opened Registry
  import opened MathLib

  /** The dictionary a formula returns: lattice codes report d and n_ancilla,
      the LDPC-style codes only epsilon_L and n. */
  datatype Params =
    | Lattice(epsilonL: real, n: nat, k: int, d: nat, nAncilla: real)
    | Algebraic(epsilonL: real, n: nat)

  /** Integer square root, the value of int(np.sqrt(m)) for a natural m. */
  function Isqrt(m: nat): (r: nat)
    ensures r * r <= m < (r + 1) * (r + 1)
  {
    if m < 4 then (if m == 0 then 0 else 1)
    else
      var s := Isqrt(m / 4);
      QuarterRoot(m, s);
      if (2 * s + 1) * (2 * s + 1) <= m then 2 * s + 1 else 2 * s
  }

  /** Doubling the root of m / 4 gives the root of m up to one. */
  lemma QuarterRoot(m: nat, s: nat)
    requires s * s <= m / 4 < (s + 1) * (s + 1)
    ensures (2 * s) * (2 * s) <= m < (2 * s + 2) * (2 * s + 2)
  {
    var q := m / 4;
    assert m == 4 * q + m % 4;
    assert (2 * s) * (2 * s) == 4 * (s * s);
    assert (2 * s + 2) * (2 * s + 2) == 4 * ((s + 1) * (s + 1));
  }

  lemma SquareMonotone(a: nat, b: nat)
    requires a <= b
    ensures a * a <= b * b
  {
    assert a * a <= a * b <= b * b;
  }

  /** The integer square root is the only s with s^2 <= m < (s+1)^2. */
  lemma IsqrtUnique(m: nat, s: nat)
    requires s * s <= m < (s + 1) * (s + 1)
    ensures Isqrt(m) == s
  {
    var r := Isqrt(m);
    if r < s {
      SquareMonotone(r + 1, s);
    } else if s < r {
      SquareMonotone(s + 1, r);
    }
  }

  lemma ScaleMonotone(k: nat, a: int, b: int)
    requires a <= b
    ensures k * a <= k * b
  {
  }

  /** d_in = int(np.sqrt(n / k)) for k > 0: the largest d with k * d^2 <= n. */
  function InnerDistance(n: nat, k: nat): (d: nat)
    requires k > 0
    ensures k * (d * d) <= n < k * ((d + 1) * (d + 1))
  {
    var d := Isqrt(n / k);
    Quotient(n, k);
    ScaleMonotone(k, d * d, n / k);
    ScaleMonotone(k, n / k + 1, (d + 1) * (d + 1));
    d
  }

  /** Floor division brackets n between k * (n / k) and k * (n / k + 1). */
  lemma Quotient(n: nat, k: nat)
    requires k > 0
    ensures k * (n / k) <= n < k * (n / k + 1)
  {
    assert n == k * (n / k) + n % k;
  }

  /** d_in is the only d with k * d^2 <= n < k * (d+1)^2. */
  lemma InnerDistanceUnique(n: nat, k: nat, d: nat)
    requires k > 0 && k * (d * d) <= n < k * ((d + 1) * (d + 1))
    ensures InnerDistance(n, k) == d
  {
    var r := InnerDistance(n, k);
    if r < d {
      SquareMonotone(r + 1, d);
      ScaleMonotone(k, (r + 1) * (r + 1), d * d);
    } else if d < r {
      SquareMonotone(d + 1, r);
      ScaleMonotone(k, (d + 1) * (d + 1), r * r);
    }
  }


  /** int(np.sqrt(n / k)) for any integer k, with the exceptions Python raises:
      division by zero for k == 0, and int() of NaN when n / k is negative. */
  function SqrtOfRatio(n: nat, k: int): (r: Result<nat>)
    ensures r.Err? <==> k == 0 || (k < 0 && n > 0)
    ensures r.Err? ==> r.error == (if k == 0 then DivisionByZero else NotANumber)
    ensures r.Ok? && k < 0 ==> r.value == 0
  {
    if k == 0 then Err(DivisionByZero)
    else if k < 0 then (if n > 0 then Err(NotANumber) else Ok(0))
    else Ok(InnerDistance(n, k))
  }

  /** Yoke multipliers in tenths: mu_1d = 1.8 and mu_2d = 3.2. */
  const Mu1D: nat := 18
  const Mu2D: nat := 32

  /** The yoked distance int(mu * d_in), with mu given in tenths. */
  function Yoked(muTenths: nat, dIn: nat): (d: nat)
    ensures 10 * d <= muTenths * dIn < 10 * (d + 1)
  {
    (muTenths * dIn) / 10
  }

  /** The ancilla count k*(d-1)^2 + 2*k*(d-1) of a distance-d lattice: the
      k*d^2 data and ancilla qubits of k patches less the k data qubits. */
  function AncillaCount(k: int, d: nat): (a: int)
    ensures a == k * (d * d - 1)
  {
    AncillaFactor(k, d - 1);
    k * (d - 1) * (d - 1) + 2 * k * (d - 1)
  }

  lemma AncillaFactor(k: int, e: int)
    ensures k * e * e + 2 * k * e == k * ((e + 1) * (e + 1) - 1)
  {
    assert (e + 1) * (e + 1) - 1 == e * e + 2 * e;
    calc {
      k * e * e + 2 * k * e;
      k * (e * e) + k * (2 * e);
      k * (e * e + 2 * e);
    }
  }

  /** np.ceil(d / 2) for a natural d. */
  function CeilHalf(d: nat): (e: nat)
    ensures d <= 2 * e <= d + 1
  {
    (d + 1) / 2
  }

  /** p_ratio = p / p_th, with the threshold constant each formula hard-codes;
      it is the registry's threshold of the same code. */
  function Ratio(c: Code, p: real): (r: real)
    ensures r * Threshold(c) == p
  {
    match c
    case Surface => p / 0.011
    case Hypergraph => p / 0.006
    case Lifted => p / 0.0066
    case Color => p / 0.0036
    case Yoked1D => p / 0.011
    case Yoked2D => p / 0.011
  }

  /** The exponent of p_ratio in a lattice code's power law: d / 2 for the
      surface code, np.ceil(d / 2) for the color and yoked codes. */
  function LatticeExponent(c: Code, d: nat): (e: real)
    ensures c.Surface? ==> 2.0 * e == d as real
    ensures !c.Surface? ==> e == e.Floor as real && d <= 2 * e.Floor <= d + 1
  {
    if c.Surface? then d as real / 2.0 else CeilHalf(d) as real
  }

  /** epsilon_L = 0.03 * k * p_ratio ** exponent, shared by the lattice codes. */
  function LatticeEpsilon(m: MathLib, c: Code, p: real, k: int, d: nat): real
  {
    0.03 * (k as real) * m.pow(Ratio(c, p), LatticeExponent(c, d))
  }

  /** The surface code: d = d_in, n_ancilla = k*(d^2 - 1), exponent d / 2. */
  function SurfaceParams(m: MathLib, p: real, n: nat, k: int): (r: Result<Params>)
    ensures r.Err? <==> k == 0 || (k < 0 && n > 0)
    ensures r.Ok? ==> r.value.Lattice? && r.value.n == n && r.value.k == k
    ensures r.Ok? && k > 0 ==> k * (r.value.d * r.value.d) <= n < k * ((r.value.d + 1) * (r.value.d + 1))
    ensures r.Ok? ==> r.value.nAncilla == (k * (r.value.d * r.value.d - 1)) as real
    ensures r.Ok? ==> r.value.epsilonL == LatticeEpsilon(m, Surface, p, k, r.value.d)
  {
    match SqrtOfRatio(n, k)
    case Err(e) => Err(e)
    case Ok(d) => Ok(Lattice(LatticeEpsilon(m, Surface, p, k, d), n, k, d, AncillaCount(k, d) as real))
  }

  /** The hypergraph product code: epsilon_L = 0.07 * p_ratio ** (0.47 * n ** 0.27),
      positive for a positive p when pow is. */
  function HypergraphParams(m: MathLib, p: real, n: nat): (r: Result<Params>)
    ensures r.Ok? && r.value.Algebraic? && r.value.n == n
    ensures PowPositive(m) && p > 0.0 ==> r.value.epsilonL > 0.0
  {
    var power := m.pow(Ratio(Hypergraph, p), 0.47 * m.pow(n as real, 0.27));
    assert PowPositive(m) && p > 0.0 ==> Ratio(Hypergraph, p) > 0.0 && power > 0.0;
    Ok(Algebraic(0.07 * power, n))
  }

  /** The lifted product code: epsilon_L = 2.3 * p_ratio ** (0.11 * n ** 0.60). */
  function LiftedParams(m: MathLib, p: real, n: nat): (r: Result<Params>)
    ensures r.Ok? && r.value.Algebraic? && r.value.n == n
    ensures PowPositive(m) && p > 0.0 ==> r.value.epsilonL > 0.0
  {
    var power := m.pow(Ratio(Lifted, p), 0.11 * m.pow(n as real, 0.60));
    assert PowPositive(m) && p > 0.0 ==> Ratio(Lifted, p) > 0.0 && power > 0.0;
    Ok(Algebraic(2.3 * power, n))
  }

  /** The color code: the surface lattice with exponent np.ceil(d / 2). */
  function ColorParams(m: MathLib, p: real, n: nat, k: int): (r: Result<Params>)
    ensures r.Err? <==> k == 0 || (k < 0 && n > 0)
    ensures r.Ok? ==> r.value.Lattice? && r.value.n == n && r.value.k == k
    ensures r.Ok? && k > 0 ==> k * (r.value.d * r.value.d) <= n < k * ((r.value.d + 1) * (r.value.d + 1))
    ensures r.Ok? ==> r.value.nAncilla == (k * (r.value.d * r.value.d - 1)) as real
    ensures r.Ok? ==> r.value.epsilonL == LatticeEpsilon(m, Color, p, k, r.value.d)
  {
    match SqrtOfRatio(n, k)
    case Err(e) => Err(e)
    case Ok(d) => Ok(Lattice(LatticeEpsilon(m, Color, p, k, d), n, k, d, AncillaCount(k, d) as real))
  }

  /** The 1D-yoked code reports d = int(1.8 * d_in) but counts ancillas from
      d_in, with a 20% overhead for the yoke connections. */
  function Yoked1DParams(m: MathLib, p: real, n: nat, k: int): (r: Result<Params>)
    ensures r.Err? <==> k == 0 || (k < 0 && n > 0)
    ensures r.Ok? ==> r.value.Lattice? && r.value.n == n && r.value.k == k
    ensures r.Ok? && k > 0 ==>
      var dIn := InnerDistance(n, k);
      && 10 * r.value.d <= Mu1D * dIn < 10 * (r.value.d + 1)
      && r.value.nAncilla == 1.2 * (k * (dIn * dIn - 1)) as real
    ensures r.Ok? ==> r.value.epsilonL == LatticeEpsilon(m, Yoked1D, p, k, r.value.d)
  {
    match SqrtOfRatio(n, k)
    case Err(e) => Err(e)
    case Ok(dIn) =>
      var d := Yoked(Mu1D, dIn);
      Ok(Lattice(LatticeEpsilon(m, Yoked1D, p, k, d), n, k, d, AncillaCount(k, dIn) as real * 1.2))
  }

  /** The 2D-yoked code: d = int(3.2 * d_in), ancillas from d_in with a 50% overhead. */
  function Yoked2DParams(m: MathLib, p: real, n: nat, k: int): (r: Result<Params>)
    ensures r.Err? <==> k == 0 || (k < 0 && n > 0)
    ensures r.Ok? ==> r.value.Lattice? && r.value.n == n && r.value.k == k
    ensures r.Ok? && k > 0 ==>
      var dIn := InnerDistance(n, k);
      && 10 * r.value.d <= Mu2D * dIn < 10 * (r.value.d + 1)
      && r.value.nAncilla == 1.5 * (k * (dIn * dIn - 1)) as real
    ensures r.Ok? ==> r.value.epsilonL == LatticeEpsilon(m, Yoked2D, p, k, r.value.d)
  {
    match SqrtOfRatio(n, k)
    case Err(e) => Err(e)
    case Ok(dIn) =>
      var d := Yoked(Mu2D, dIn);
      Ok(Lattice(LatticeEpsilon(m, Yoked2D, p, k, d), n, k, d, AncillaCount(k, dIn) as real * 1.5))
  }

  /** `code['calculate_params'](p, n, k, epsilon_L)`: dispatch on the variant
      (the target epsilon_L argument is ignored by every formula). */
  function Evaluate(m: MathLib, c: Code, p: real, n: nat, k: int): (r: Result<Params>)
    ensures r.Err? <==> c.DistanceBased() && (k == 0 || (k < 0 && n > 0))
    ensures r.Err? ==> r.error == (if k == 0 then DivisionByZero else NotANumber)
    ensures r.Ok? ==> r.value.n == n && (r.value.Lattice? <==> c.DistanceBased())
    ensures r.Ok? && r.value.Lattice? ==> r.value.k == k
  {
    match c
    case Surface => SurfaceParams(m, p, n, k)
    case Hypergraph => HypergraphParams(m, p, n)
    case Lifted => LiftedParams(m, p, n)
    case Color => ColorParams(m, p, n, k)
    case Yoked1D => Yoked1DParams(m, p, n, k)
    case Yoked2D => Yoked2DParams(m, p, n, k)
  }

  /** calculate_params with p and k fixed: the function of n that the search bisects. */
  function Formula(m: MathLib, c: Code, p: real, k: int): nat -> Result<Params>
  {
    (n: nat) => Evaluate(m, c, p, n, k)
  }
}
