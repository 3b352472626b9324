/** generate_plot_data: the curve sampler. It walks a log-spaced grid of 50
    physical error rates p from 1e-6 up to just below the code's threshold,
    runs the bisection for n at each p, and records the pairs (p, n) in two
    lists kept in lock-step. */
module Sampler {
  import opened Results
  import opened Registry
  import opened MathLib
  import opened Formulas
  import opened Search

  /** The sampler's return value: p_values, n_values and the code's threshold. */
  datatype PlotData = PlotData(pValues: seq<real>, nValues: seq<nat>, threshold: real)

  /** The number of grid points, range(50). */
  const Points: nat := 50

  /** The grid's lower end, 1e-6. */
  const Start: real := 0.000001

  /** The exponent of the i-th grid point: log10(1e-6) + (log10(0.99 * threshold) - log10(1e-6)) * (i / 49). */
  function GridExponent(m: MathLib, threshold: real, i: nat): real
  {
    var low := m.log10(Start);
    low + (m.log10(threshold * 0.99) - low) * (i as real / 49.0)
  }

  /** The i-th grid point, 10 ** GridExponent(i). */
  function GridPoint(m: MathLib, threshold: real, i: nat): (p: real)
    ensures PowPositive(m) ==> p > 0.0
  {
    m.pow(10.0, GridExponent(m, threshold, i))
  }

  /** The count a search contributes to n_values: best_result's n, or the last
      midpoint when no probe came within a finite distance of the target. */
  function Reported(o: Outcome): nat
  {
    if o.best.Some? then o.best.value.n else o.last
  }

  /** A search whose best result lies beyond 1e9: the sampler drops its p and stops. */
  predicate Overflows(o: Outcome)
  {
    o.best.Some? && o.best.value.n > Sanity
  }

  /** The search the sampler runs at each physical error rate p, for a code, a
      target epsilon_L and k. */
  function Searcher(m: MathLib, c: Code, target: real, k: int): real -> Result<Outcome>
  {
    (p: real) => Search.Search(m, Formula(m, c, p, k), target)
  }

  lemma SearcherAt(m: MathLib, c: Code, target: real, k: int, p: real)
    ensures Searcher(m, c, target, k)(p) == Search.Search(m, Formula(m, c, p, k), target)
  {
  }

  /** The sampler from grid index i on, having recorded p_values and n_values so far. */
  function Sweep(m: MathLib, threshold: real, search: real -> Result<Outcome>,
                 i: nat, pValues: seq<real>, nValues: seq<nat>): (r: Result<PlotData>)
    ensures r.Ok? ==> r.value.threshold == threshold
    ensures r.Ok? ==> pValues <= r.value.pValues && nValues <= r.value.nValues
    ensures r.Ok? ==> |r.value.pValues| - |pValues| == |r.value.nValues| - |nValues|
    ensures r.Ok? && i <= Points ==> |r.value.pValues| <= |pValues| + (Points - i)
    decreases Points - i
  {
    if i >= Points then Ok(PlotData(pValues, nValues, threshold))
    else
      var p := GridPoint(m, threshold, i);
      if p >= threshold then Ok(PlotData(pValues, nValues, threshold))
      else
        match search(p)
        case Err(e) => Err(e)
        case Ok(o) =>
          if Overflows(o) then Ok(PlotData(pValues, nValues, threshold))
          else Sweep(m, threshold, search, i + 1, pValues + [p], nValues + [Reported(o)])
  }

  /** generate_plot_data(code_library, code_name, epsilon_L, k): an unknown name raises KeyError. */
  function Generate(m: MathLib, codeName: string, target: real, k: int): (r: Result<PlotData>)
    ensures Lookup(codeName).None? ==> r == Err(UnknownCode)
    ensures r.Ok? ==> Lookup(codeName).Some? && r.value.threshold == Threshold(Lookup(codeName).value)
    ensures r.Ok? ==> |r.value.pValues| == |r.value.nValues| <= Points
  {
    match Lookup(codeName)
    case None => Err(UnknownCode)
    case Some(c) => Sweep(m, Threshold(c), Searcher(m, c, target, k), 0, [], [])
  }

  /** n is the count recorded for p: its search succeeded without overflowing and reported n. */
  ghost predicate Recorded(search: real -> Result<Outcome>, p: real, n: nat)
  {
    search(p).Ok? && !Overflows(search(p).value) && n == Reported(search(p).value)
  }

  /** The recorded pairs: the i-th p is the i-th grid point, below the threshold,
      and the i-th n is what the search at that p reported, short of overflowing. */
  ghost predicate Sampled(m: MathLib, threshold: real, search: real -> Result<Outcome>,
                          pValues: seq<real>, nValues: seq<nat>)
  {
    && |pValues| == |nValues| <= Points
    && (forall i :: 0 <= i < |pValues| ==> pValues[i] == GridPoint(m, threshold, i) < threshold)
    && (forall i :: 0 <= i < |pValues| ==> Recorded(search, pValues[i], nValues[i]))
  }

  /** Why the sampler stopped before grid index i: the grid point reached the
      threshold, or its search overflowed. */
  ghost predicate StoppedAt(m: MathLib, threshold: real, search: real -> Result<Outcome>, i: nat)
  {
    var p := GridPoint(m, threshold, i);
    p >= threshold || (search(p).Ok? && Overflows(search(p).value))
  }

  lemma {:induction false} SweepSampled(m: MathLib, threshold: real, search: real -> Result<Outcome>, i: nat,
                                       pValues: seq<real>, nValues: seq<nat>, d: PlotData)
    requires i == |pValues| && Sampled(m, threshold, search, pValues, nValues)
    requires Sweep(m, threshold, search, i, pValues, nValues) == Ok(d)
    ensures Sampled(m, threshold, search, d.pValues, d.nValues) && d.threshold == threshold
    ensures |d.pValues| < Points ==> StoppedAt(m, threshold, search, |d.pValues|)
    decreases Points - i
  {
    if i < Points {
      var p := GridPoint(m, threshold, i);
      if p < threshold {
        var o := search(p).value;
        if !Overflows(o) {
          var pValues', nValues' := pValues + [p], nValues + [Reported(o)];
          assert Sampled(m, threshold, search, pValues', nValues') by {
            forall j | 0 <= j < |pValues'|
              ensures pValues'[j] == GridPoint(m, threshold, j) < threshold
              ensures Recorded(search, pValues'[j], nValues'[j])
            {
              if j < i {
                assert pValues'[j] == pValues[j] && nValues'[j] == nValues[j];
              }
            }
          }
          SweepSampled(m, threshold, search, i + 1, pValues', nValues', d);
        }
      }
    }
  }

  /** On success the sampler returns the code's threshold and at most 50 pairs in
      lock-step: the i-th p is the i-th grid point and lies below the threshold,
      the i-th n is what the search at that p reported without overflowing; and
      fewer than 50 pairs means the next grid point reached the threshold or its
      search overflowed. */
  lemma PlotSampled(m: MathLib, codeName: string, target: real, k: int)
    ensures var r := Generate(m, codeName, target, k);
            r.Ok? ==>
              && Lookup(codeName).Some?
              && var c := Lookup(codeName).value;
              && r.value.threshold == Threshold(c)
              && Sampled(m, Threshold(c), Searcher(m, c, target, k), r.value.pValues, r.value.nValues)
              && (|r.value.pValues| < Points ==> StoppedAt(m, Threshold(c), Searcher(m, c, target, k), |r.value.pValues|))
  {
    var r := Generate(m, codeName, target, k);
    if r.Ok? {
      var c := Lookup(codeName).value;
      SweepSampled(m, Threshold(c), Searcher(m, c, target, k), 0, [], [], r.value);
    }
  }

  /** Every formula result carries the n it was evaluated at. */
  lemma FormulaEchoes(m: MathLib, c: Code, p: real, k: int)
    ensures forall n :: Formula(m, c, p, k)(n).Ok? ==> Formula(m, c, p, k)(n).value.n == n
  {
    forall n: nat
      ensures Formula(m, c, p, k)(n).Ok? ==> Formula(m, c, p, k)(n).value.n == n
    {
      assert Formula(m, c, p, k)(n) == Evaluate(m, c, p, n, k);
    }
  }

  /** A recorded count lies in [10, 1e10], and for a positive target in [10, 1e9]:
      best_result's n is at most 1e9 since it did not overflow, and without a best
      result the last midpoint is at most 19. */
  lemma RecordedBounds(m: MathLib, c: Code, target: real, k: int, p: real, n: nat)
    requires Recorded(Searcher(m, c, target, k), p, n)
    ensures Floor <= n <= Ceiling
    ensures target > 0.0 ==> n <= Sanity
  {
    SearcherAt(m, c, target, k, p);
    FormulaEchoes(m, c, p, k);
    SearchRange(m, Formula(m, c, p, k), target);
    SearchUnmatched(m, Formula(m, c, p, k), target);
  }

  /** Every recorded n lies in [10, 1e10], and within [10, 1e9] for a positive target. */
  lemma PlotBounds(m: MathLib, codeName: string, target: real, k: int)
    ensures var r := Generate(m, codeName, target, k);
            r.Ok? ==>
              forall i :: 0 <= i < |r.value.nValues| ==>
                Floor <= r.value.nValues[i] <= Ceiling && (target > 0.0 ==> r.value.nValues[i] <= Sanity)
  {
    var r := Generate(m, codeName, target, k);
    if r.Ok? {
      PlotSampled(m, codeName, target, k);
      var c := Lookup(codeName).value;
      forall i | 0 <= i < |r.value.nValues|
        ensures Floor <= r.value.nValues[i] <= Ceiling && (target > 0.0 ==> r.value.nValues[i] <= Sanity)
      {
        RecordedBounds(m, c, target, k, r.value.pValues[i], r.value.nValues[i]);
      }
    }
  }

  /** A sweep whose searches never raise does not raise. */
  lemma {:induction false} SweepSucceeds(m: MathLib, threshold: real, search: real -> Result<Outcome>,
                                        i: nat, pValues: seq<real>, nValues: seq<nat>)
    requires forall p :: search(p).Ok?
    ensures Sweep(m, threshold, search, i, pValues, nValues).Ok?
    decreases Points - i
  {
    if i < Points {
      var p := GridPoint(m, threshold, i);
      if p < threshold && !Overflows(search(p).value) {
        SweepSucceeds(m, threshold, search, i + 1, pValues + [p], nValues + [Reported(search(p).value)]);
      }
    }
  }

  /** The sampler raises KeyError for an unknown name; otherwise it raises exactly
      when the first grid point is below the threshold and the code is
      distance-based with k <= 0, with the first search's exception. */
  lemma PlotErrors(m: MathLib, codeName: string, target: real, k: int)
    ensures var r := Generate(m, codeName, target, k);
            && (Lookup(codeName).None? ==> r == Err(UnknownCode))
            && (Lookup(codeName).Some? ==>
                  var c := Lookup(codeName).value;
                  && (r.Err? <==> GridPoint(m, Threshold(c), 0) < Threshold(c) && c.DistanceBased() && k <= 0)
                  && (r.Err? ==> r.error == (if k == 0 then DivisionByZero else NotANumber)))
  {
    if Lookup(codeName).Some? {
      var c := Lookup(codeName).value;
      var search := Searcher(m, c, target, k);
      if c.DistanceBased() && k <= 0 {
        var p := GridPoint(m, Threshold(c), 0);
        SearcherAt(m, c, target, k, p);
        FormulaSearchErrors(m, c, p, k, target);
      } else {
        forall p
          ensures search(p).Ok?
        {
          SearcherAt(m, c, target, k, p);
          FormulaSearchErrors(m, c, p, k, target);
        }
        SweepSucceeds(m, Threshold(c), search, 0, [], []);
      }
    }
  }

  /** Under the law of log10 and 10 ** y the grid runs from 1e-6 to 0.99 * threshold. */
  lemma GridEnds(m: MathLib, threshold: real)
    requires LogTenInverts(m) && threshold > 0.0
    ensures GridPoint(m, threshold, 0) == Start
    ensures GridPoint(m, threshold, Points - 1) == 0.99 * threshold
  {
    var low, high := m.log10(Start), m.log10(threshold * 0.99);
    assert GridExponent(m, threshold, 0) == low;
    assert GridExponent(m, threshold, Points - 1) == high;
  }

  /** The grid exponent grows strictly with the index once log10(1e-6) < log10(0.99 * threshold). */
  lemma ExponentStep(m: MathLib, threshold: real, i: nat, j: nat)
    requires m.log10(Start) < m.log10(threshold * 0.99) && i < j
    ensures GridExponent(m, threshold, i) < GridExponent(m, threshold, j)
  {
    var low, span := m.log10(Start), m.log10(threshold * 0.99) - m.log10(Start);
    var a, b := i as real / 49.0, j as real / 49.0;
    assert a < b;
    assert GridExponent(m, threshold, i) == low + span * a;
    assert GridExponent(m, threshold, j) == low + span * b;
    StretchStrict(span, a, b);
  }

  lemma StretchStrict(s: real, a: real, b: real)
    requires s > 0.0 && a < b
    ensures s * a < s * b
  {
    assert s * b - s * a == s * (b - a);
  }

  /** Under the laws the grid is strictly increasing, as long as 0.99 * threshold lies above 1e-6. */
  lemma GridStep(m: MathLib, threshold: real, i: nat, j: nat)
    requires ExpTenIncreasing(m) && LogTenInverts(m)
    requires threshold * 0.99 > Start && i < j
    ensures GridPoint(m, threshold, i) < GridPoint(m, threshold, j)
  {
    assert m.log10(Start) < m.log10(threshold * 0.99);
    ExponentStep(m, threshold, i, j);
  }

  /** Under the laws every grid point lies in [1e-6, 0.99 * threshold], strictly
      below the threshold, so the "p >= threshold" exit never fires, and later
      grid points are larger. */
  lemma GridIncreasing(m: MathLib, threshold: real, i: nat, j: nat)
    requires ExpTenIncreasing(m) && LogTenInverts(m) && threshold >= Threshold(Color)
    requires i < j < Points
    ensures Start <= GridPoint(m, threshold, i) < GridPoint(m, threshold, j) <= 0.99 * threshold < threshold
  {
    GridEnds(m, threshold);
    if 0 < i {
      GridStep(m, threshold, 0, i);
    }
    GridStep(m, threshold, i, j);
    if j < Points - 1 {
      GridStep(m, threshold, j, Points - 1);
    }
  }

  /** Under the laws every grid point is below the threshold. */
  lemma GridBelow(m: MathLib, threshold: real, i: nat)
    requires ExpTenIncreasing(m) && LogTenInverts(m) && threshold >= Threshold(Color) && i < Points
    ensures GridPoint(m, threshold, i) < threshold
  {
    if i < Points - 1 {
      GridIncreasing(m, threshold, i, Points - 1);
    } else {
      GridIncreasing(m, threshold, 0, i);
    }
  }

  /** Under the laws the recorded p values (PlotSampled gives Sampled for every
      successful run) start at 1e-6 and increase strictly up to at most 0.99 * threshold. */
  lemma GridPrefix(m: MathLib, threshold: real, search: real -> Result<Outcome>, ps: seq<real>, ns: seq<nat>)
    requires ExpTenIncreasing(m) && LogTenInverts(m) && threshold >= Threshold(Color)
    requires Sampled(m, threshold, search, ps, ns)
    ensures |ps| > 0 ==> ps[0] == Start
    ensures forall i :: 0 <= i < |ps| ==> ps[i] <= 0.99 * threshold
    ensures forall i, j :: 0 <= i < j < |ps| ==> ps[i] < ps[j]
  {
    GridEnds(m, threshold);
    forall i | 0 <= i < |ps|
      ensures ps[i] <= 0.99 * threshold
    {
      if i < Points - 1 {
        GridIncreasing(m, threshold, i, Points - 1);
      }
    }
    forall i, j | 0 <= i < j < |ps|
      ensures ps[i] < ps[j]
    {
      GridIncreasing(m, threshold, i, j);
    }
  }

  /** Under the laws a run (PlotSampled gives StoppedAt for every short one) stops
      before the end of the grid only because the search at the next grid point
      found a best result beyond 1e9. */
  lemma StoppedOverflows(m: MathLib, threshold: real, search: real -> Result<Outcome>, i: nat)
    requires ExpTenIncreasing(m) && LogTenInverts(m) && threshold >= Threshold(Color) && i < Points
    requires StoppedAt(m, threshold, search, i)
    ensures search(GridPoint(m, threshold, i)).Ok? && Overflows(search(GridPoint(m, threshold, i)).value)
  {
    GridBelow(m, threshold, i);
  }

  /** generate_plot_data: sample up to 50 grid points below the threshold, search
      n at each, append to both lists, and pop the pending p and stop once a best
      result lies beyond 1e9. An unknown code name raises KeyError; an exception
      from a search ends the run. */
  method GeneratePlotData(m: MathLib, codeName: string, target: real, k: int) returns (r: Result<PlotData>)
    ensures r == Generate(m, codeName, target, k)
  {
    var code := Lookup(codeName);
    if code.None? {
      return Err(UnknownCode);
    }
    var c := code.value;
    var threshold := Threshold(c);
    var pValues: seq<real> := [];
    var nValues: seq<nat> := [];
    var i := 0;
    while i < Points
      invariant i <= Points && |pValues| == i
      invariant Sweep(m, threshold, Searcher(m, c, target, k), i, pValues, nValues) == Generate(m, codeName, target, k)
    {
      var p := GridPoint(m, threshold, i);
      if p >= threshold {
        break;
      }
      pValues := pValues + [p];

      var found := BracketSearch(m, Formula(m, c, p, k), target);
      SearcherAt(m, c, target, k, p);
      if found.Err? {
        return Err(found.error);
      }
      var o := found.value;
      if o.best.Some? && o.best.value.n > Sanity {
        pValues := pValues[..|pValues| - 1];
        break;
      }
      var physical := if o.best.Some? then o.best.value.n else o.last;
      nValues := nValues + [physical];
      i := i + 1;
    }
    r := Ok(PlotData(pValues, nValues, threshold));
  }
}
