/** The inner loop of `generate_plot_data`: a 30-step bisection over the
    physical-qubit count n that keeps the best candidate seen so far. */
module Search {
  import opened Results
  import opened Registry
  import opened MathLib
  import opened Formulas

  /** Initial bracket [n_min, n_max] = [10, 1e10], the sanity ceiling 1e9 and the step budget. */
  const Floor: nat := 10
  const Ceiling: nat := 10_000_000_000
  const Sanity: nat := 1_000_000_000
  const Steps: nat := 30

  /** A min_diff value: float('inf') or a finite distance. */
  datatype Bound = Infinite | Finite(value: real)
  {
    /** The float comparison `this < other`; inf < inf is false. */
    predicate Below(other: Bound)
    {
      match this
      case Infinite => false
      case Finite(x) => other.Infinite? || x < other.value
    }
  }

  function Abs(x: real): (a: real)
    ensures a >= 0.0 && (a == x || a == -x)
  {
    if x < 0.0 then -x else x
  }

  /** abs(log10(epsilon) - log10(target)). numpy's log10 of a non-positive value
      (an underflowed power, or a non-positive target) is -inf or NaN, and such a
      distance is never below any min_diff: it is Infinite here. */
  function LogDistance(m: MathLib, epsilon: real, target: real): (b: Bound)
    ensures b.Finite? <==> epsilon > 0.0 && target > 0.0
    ensures b.Finite? ==> b.value >= 0.0
  {
    if epsilon > 0.0 && target > 0.0 then Finite(Abs(m.log10(epsilon) - m.log10(target))) else Infinite
  }

  /** One evaluation of the search: the bracket it was taken in, the midpoint n,
      the formula's result and its log-distance to the target. */
  datatype Probe = Probe(lo: nat, hi: nat, n: nat, result: Params, diff: Bound)

  /** The bracket after a probe: n_min := n when epsilon_L exceeds the target, else n_max := n. */
  function NarrowLo(pr: Probe, target: real): nat
  {
    if pr.result.epsilonL > target then pr.n else pr.lo
  }

  function NarrowHi(pr: Probe, target: real): nat
  {
    if pr.result.epsilonL > target then pr.hi else pr.n
  }

  /** A probe is the midpoint of its bracket, evaluated by the code's formula. */
  ghost predicate ProbeOf(m: MathLib, eval: nat -> Result<Params>, target: real, pr: Probe)
  {
    && Floor <= pr.lo <= pr.n <= pr.hi <= Ceiling
    && pr.n == (pr.lo + pr.hi) / 2
    && eval(pr.n) == Ok(pr.result)
    && pr.diff == LogDistance(m, pr.result.epsilonL, target)
  }

  /** Every probe is a midpoint evaluated by the code's formula. */
  ghost predicate Probed(m: MathLib, eval: nat -> Result<Params>, target: real, probes: seq<Probe>)
  {
    forall i :: 0 <= i < |probes| ==> ProbeOf(m, eval, target, probes[i])
  }

  /** The probes start from [10, 1e10], each bracket is the narrowing of the
      previous one, and [lo, hi] is the narrowing of the last. */
  ghost predicate Chained(probes: seq<Probe>, target: real, lo: nat, hi: nat)
  {
    && (|probes| == 0 ==> lo == Floor && hi == Ceiling)
    && (|probes| > 0 ==> probes[0].lo == Floor && probes[0].hi == Ceiling)
    && (forall i :: 0 <= i < |probes| - 1 ==> probes[i + 1].lo == NarrowLo(probes[i], target))
    && (forall i :: 0 <= i < |probes| - 1 ==> probes[i + 1].hi == NarrowHi(probes[i], target))
    && (|probes| > 0 ==> lo == NarrowLo(probes[|probes| - 1], target) && hi == NarrowHi(probes[|probes| - 1], target))
  }

  /** A probe lies on the side of the bracket [lo, hi] that its comparison chose. */
  predicate OnItsSide(pr: Probe, target: real, lo: nat, hi: nat)
  {
    if pr.result.epsilonL > target then pr.n <= lo else hi <= pr.n
  }

  /** [lo, hi] lies within [10, 1e10], on the chosen side of every probe, and
      a bound that moved is a count whose epsilon_L is on its side of the target. */
  ghost predicate Bracketed(m: MathLib, eval: nat -> Result<Params>, target: real, probes: seq<Probe>, lo: nat, hi: nat)
  {
    && Floor <= lo <= hi <= Ceiling
    && (forall i :: 0 <= i < |probes| ==> OnItsSide(probes[i], target, lo, hi))
    && (lo != Floor ==> eval(lo).Ok? && eval(lo).value.epsilonL > target)
    && (hi != Ceiling ==> eval(hi).Ok? && eval(hi).value.epsilonL <= target)
  }

  /** The search trace: evaluated midpoints, chained brackets, and the final bracket [lo, hi]. */
  ghost predicate Traced(m: MathLib, eval: nat -> Result<Params>, target: real, probes: seq<Probe>, lo: nat, hi: nat)
  {
    && Probed(m, eval, target, probes)
    && Chained(probes, target, lo, hi)
    && Bracketed(m, eval, target, probes, lo, hi)
  }

  lemma ProbedStep(m: MathLib, eval: nat -> Result<Params>, target: real, probes: seq<Probe>, pr: Probe)
    requires Probed(m, eval, target, probes) && ProbeOf(m, eval, target, pr)
    ensures Probed(m, eval, target, probes + [pr])
  {
    var probes' := probes + [pr];
    forall i | 0 <= i < |probes'|
      ensures ProbeOf(m, eval, target, probes'[i])
    {
      if i < |probes| {
        assert probes'[i] == probes[i];
      }
    }
  }

  lemma ChainStep(probes: seq<Probe>, target: real, lo: nat, hi: nat, pr: Probe)
    requires Chained(probes, target, lo, hi) && pr.lo == lo && pr.hi == hi
    ensures Chained(probes + [pr], target, NarrowLo(pr, target), NarrowHi(pr, target))
  {
    var probes' := probes + [pr];
    forall i | 0 <= i < |probes'| - 1
      ensures probes'[i + 1].lo == NarrowLo(probes'[i], target) && probes'[i + 1].hi == NarrowHi(probes'[i], target)
    {
      if i < |probes| - 1 {
        assert probes'[i] == probes[i] && probes'[i + 1] == probes[i + 1];
      }
    }
  }

  lemma BracketStep(m: MathLib, eval: nat -> Result<Params>, target: real,
                    probes: seq<Probe>, lo: nat, hi: nat, pr: Probe)
    requires Bracketed(m, eval, target, probes, lo, hi)
    requires pr.lo == lo && pr.hi == hi && ProbeOf(m, eval, target, pr)
    ensures Bracketed(m, eval, target, probes + [pr], NarrowLo(pr, target), NarrowHi(pr, target))
  {
    var probes', lo', hi' := probes + [pr], NarrowLo(pr, target), NarrowHi(pr, target);
    forall i | 0 <= i < |probes'|
      ensures OnItsSide(probes'[i], target, lo', hi')
    {
      if i < |probes| {
        assert OnItsSide(probes[i], target, lo, hi);
      }
    }
  }

  /** The retained candidate is the first probe whose finite distance is no
      larger than any other's; None when no probe had a finite distance. */
  ghost predicate BestSeen(best: Option<Params>, probes: seq<Probe>, bestAt: int)
  {
    && (best.None? ==> bestAt == -1 && forall i :: 0 <= i < |probes| ==> probes[i].diff.Infinite?)
    && (best.Some? ==>
          && 0 <= bestAt < |probes|
          && best.value == probes[bestAt].result
          && probes[bestAt].diff.Finite?
          && (forall i :: 0 <= i < |probes| ==> !probes[i].diff.Below(probes[bestAt].diff))
          && (forall i :: 0 <= i < bestAt ==> probes[bestAt].diff.Below(probes[i].diff)))
  }

  /** Keeping the new probe exactly when its distance is below min_diff keeps the
      first minimum. */
  lemma BestStep(best: Option<Params>, probes: seq<Probe>, bestAt: int, minDiff: Bound, pr: Probe)
    requires BestSeen(best, probes, bestAt)
    requires minDiff == if best.Some? then probes[bestAt].diff else Infinite
    ensures pr.diff.Below(minDiff) ==> BestSeen(Some(pr.result), probes + [pr], |probes|)
    ensures !pr.diff.Below(minDiff) ==> BestSeen(best, probes + [pr], bestAt)
  {
    var probes' := probes + [pr];
    if pr.diff.Below(minDiff) {
      forall i | 0 <= i < |probes'|
        ensures !probes'[i].diff.Below(pr.diff)
      {
        if i < |probes| && best.Some? {
          assert !probes[i].diff.Below(probes[bestAt].diff);
        }
      }
      forall i | 0 <= i < |probes|
        ensures pr.diff.Below(probes'[i].diff)
      {
        if best.Some? {
          assert !probes[i].diff.Below(probes[bestAt].diff);
        }
      }
    } else if best.Some? {
      assert probes'[bestAt] == probes[bestAt];
      forall i | 0 <= i < |probes'|
        ensures !probes'[i].diff.Below(probes'[bestAt].diff)
      {
        if i < |probes| {
          assert probes'[i] == probes[i];
        }
      }
    }
  }

  /** No probe but the last moved n_min past the sanity ceiling: the loop did not stop early. */
  ghost predicate Continued(probes: seq<Probe>, target: real)
  {
    forall i :: 0 <= i < |probes| - 1 ==> NarrowLo(probes[i], target) <= Sanity
  }

  lemma ContinueStep(probes: seq<Probe>, target: real, pr: Probe)
    requires Continued(probes, target)
    requires |probes| > 0 ==> NarrowLo(probes[|probes| - 1], target) <= Sanity
    ensures Continued(probes + [pr], target)
  {
    var probes' := probes + [pr];
    forall i | 0 <= i < |probes'| - 1
      ensures NarrowLo(probes'[i], target) <= Sanity
    {
      assert probes'[i] == probes[i];
    }
  }

  /** What the search leaves behind: best_result, the last midpoint n, and the final bracket. */
  datatype Outcome = Outcome(best: Option<Params>, last: nat, lo: nat, hi: nat)

  /** The width w after j halvings, each rounding down. */
  function Halved(w: nat, j: nat): (r: nat)
    ensures r <= w
  {
    if j == 0 then w else Halved(w, j - 1) / 2
  }

  function Pow2(j: nat): (r: nat)
    ensures r >= 1
  {
    if j == 0 then 1 else 2 * Pow2(j - 1)
  }

  lemma Pow2Steps()
    ensures Pow2(Steps) == 1073741824
  {
    assert Pow2(10) == 1024;
    assert Pow2(20) == 1048576;
  }

  /** Halving j times divides by at least 2^j. */
  lemma {:induction false} HalvedBound(w: nat, j: nat)
    ensures Halved(w, j) * Pow2(j) <= w
  {
    if j > 0 {
      HalvedBound(w, j - 1);
      HalfScale(Halved(w, j - 1), Pow2(j - 1));
    }
  }

  /** Rounding a halving down never gains: (h / 2) * (2 * s) <= h * s. */
  lemma HalfScale(h: nat, s: nat)
    ensures (h / 2) * (2 * s) <= h * s
  {
    var twice := (h / 2) * 2;
    assert (h / 2) * (2 * s) == twice * s;
    ScaleMonotone(s, twice, h);
  }

  /** Thirty halvings of [10, 1e10] leave a width of at most 9. */
  lemma HalvedSteps()
    ensures Halved(Ceiling - Floor, Steps) <= 9
  {
    HalvedBound(Ceiling - Floor, Steps);
    Pow2Steps();
  }

  /** The bisection from its j-th step on, given what the loop carries: the
      bracket [lo, hi], the last midpoint, min_diff and best_result. */
  function Run(m: MathLib, eval: nat -> Result<Params>, target: real,
               j: nat, lo: nat, hi: nat, last: nat, minDiff: Bound, best: Option<Params>): (r: Result<Outcome>)
    ensures r.Ok? && lo <= hi ==> lo <= r.value.lo <= r.value.hi <= hi
    decreases Steps - j
  {
    if j >= Steps then Ok(Outcome(best, last, lo, hi))
    else
      var n := (lo + hi) / 2;
      match eval(n)
      case Err(e) => Err(e)
      case Ok(result) =>
        var pr := Probe(lo, hi, n, result, LogDistance(m, result.epsilonL, target));
        var (minDiff', best') := if pr.diff.Below(minDiff) then (pr.diff, Some(result)) else (minDiff, best);
        var (lo', hi') := (NarrowLo(pr, target), NarrowHi(pr, target));
        if lo' > Sanity then Ok(Outcome(best', n, lo', hi'))
        else Run(m, eval, target, j + 1, lo', hi', n, minDiff', best')
  }

  /** The whole search, from [10, 1e10] with min_diff = inf and no best result. */
  function Search(m: MathLib, eval: nat -> Result<Params>, target: real): (r: Result<Outcome>)
    ensures r.Ok? ==> Floor <= r.value.lo <= r.value.hi <= Ceiling
  {
    Run(m, eval, target, 0, Floor, Ceiling, 0, Infinite, None)
  }

  /** The probes taken so far followed by those the search takes from its j-th step on. */
  ghost function Trace(m: MathLib, eval: nat -> Result<Params>, target: real,
                       j: nat, lo: nat, hi: nat, probes: seq<Probe>): seq<Probe>
    decreases Steps - j
  {
    if j >= Steps then probes
    else
      var n := (lo + hi) / 2;
      match eval(n)
      case Err(_) => probes
      case Ok(result) =>
        var pr := Probe(lo, hi, n, result, LogDistance(m, result.epsilonL, target));
        if NarrowLo(pr, target) > Sanity then probes + [pr]
        else Trace(m, eval, target, j + 1, NarrowLo(pr, target), NarrowHi(pr, target), probes + [pr])
  }

  /** The probes of the whole search. */
  ghost function Probes(m: MathLib, eval: nat -> Result<Params>, target: real): seq<Probe>
  {
    Trace(m, eval, target, 0, Floor, Ceiling, [])
  }

  /** A formula that does not raise keeps the search going to its end. */
  lemma {:induction false} RunSucceeds(m: MathLib, eval: nat -> Result<Params>, target: real,
                                      j: nat, lo: nat, hi: nat, last: nat, minDiff: Bound, best: Option<Params>)
    requires forall n :: eval(n).Ok?
    ensures Run(m, eval, target, j, lo, hi, last, minDiff, best).Ok?
    decreases Steps - j
  {
    if j < Steps {
      var n := (lo + hi) / 2;
      var result := eval(n).value;
      var pr := Probe(lo, hi, n, result, LogDistance(m, result.epsilonL, target));
      var (minDiff', best') := if pr.diff.Below(minDiff) then (pr.diff, Some(result)) else (minDiff, best);
      RunSucceeds(m, eval, target, j + 1, NarrowLo(pr, target), NarrowHi(pr, target), n, minDiff', best');
    }
  }

  /** The search raises the first probe's exception, and raises none when the
      formula never does. */
  lemma SearchRaises(m: MathLib, eval: nat -> Result<Params>, target: real)
    ensures (forall n :: eval(n).Ok?) ==> Search(m, eval, target).Ok?
    ensures eval((Floor + Ceiling) / 2).Err? ==> Search(m, eval, target) == Err(eval((Floor + Ceiling) / 2).error)
  {
    if forall n :: eval(n).Ok? {
      RunSucceeds(m, eval, target, 0, Floor, Ceiling, 0, Infinite, None);
    }
  }

  /** Searching a code's formula raises exactly when the code is distance-based
      and has no logical qubit (ZeroDivisionError) or a negative count of them
      (the NaN from sqrt). */
  lemma FormulaSearchErrors(m: MathLib, c: Code, p: real, k: int, target: real)
    ensures var r := Search(m, Formula(m, c, p, k), target);
            && (r.Err? <==> c.DistanceBased() && k <= 0)
            && (r.Err? ==> r.error == (if k == 0 then DivisionByZero else NotANumber))
  {
    var eval := Formula(m, c, p, k);
    SearchRaises(m, eval, target);
    if !(c.DistanceBased() && k <= 0) {
      forall n: nat
        ensures eval(n).Ok?
      {
        assert eval(n) == Evaluate(m, c, p, n, k);
      }
    } else {
      assert eval((Floor + Ceiling) / 2) == Evaluate(m, c, p, (Floor + Ceiling) / 2, k);
    }
  }

  /** The rest of the search probes only evaluated midpoints. */
  lemma {:induction false} RunProbed(m: MathLib, eval: nat -> Result<Params>, target: real,
                                    j: nat, lo: nat, hi: nat, last: nat, minDiff: Bound, best: Option<Params>,
                                    probes: seq<Probe>, o: Outcome, all: seq<Probe>)
    requires Floor <= lo <= hi <= Ceiling && Probed(m, eval, target, probes)
    requires Run(m, eval, target, j, lo, hi, last, minDiff, best) == Ok(o)
    requires all == Trace(m, eval, target, j, lo, hi, probes)
    ensures Probed(m, eval, target, all)
    decreases Steps - j
  {
    if j < Steps {
      var n := (lo + hi) / 2;
      var result := eval(n).value;
      var pr := Probe(lo, hi, n, result, LogDistance(m, result.epsilonL, target));
      var (minDiff', best') := if pr.diff.Below(minDiff) then (pr.diff, Some(result)) else (minDiff, best);
      ProbedStep(m, eval, target, probes, pr);
      if NarrowLo(pr, target) <= Sanity {
        RunProbed(m, eval, target, j + 1, NarrowLo(pr, target), NarrowHi(pr, target), n, minDiff', best',
                  probes + [pr], o, all);
      }
    }
  }

  /** The rest of the search probes the midpoint of the bracket it is in and
      ends in the narrowing of its last probe. */
  lemma {:induction false} RunChained(m: MathLib, eval: nat -> Result<Params>, target: real,
                                     j: nat, lo: nat, hi: nat, last: nat, minDiff: Bound, best: Option<Params>,
                                     probes: seq<Probe>, o: Outcome, all: seq<Probe>)
    requires Chained(probes, target, lo, hi)
    requires Run(m, eval, target, j, lo, hi, last, minDiff, best) == Ok(o)
    requires all == Trace(m, eval, target, j, lo, hi, probes)
    ensures Chained(all, target, o.lo, o.hi)
    decreases Steps - j
  {
    if j < Steps {
      var n := (lo + hi) / 2;
      var result := eval(n).value;
      var pr := Probe(lo, hi, n, result, LogDistance(m, result.epsilonL, target));
      var (minDiff', best') := if pr.diff.Below(minDiff) then (pr.diff, Some(result)) else (minDiff, best);
      ChainStep(probes, target, lo, hi, pr);
      if NarrowLo(pr, target) <= Sanity {
        RunChained(m, eval, target, j + 1, NarrowLo(pr, target), NarrowHi(pr, target), n, minDiff', best',
                   probes + [pr], o, all);
      }
    }
  }

  /** The rest of the search keeps its bracket on the chosen side of every probe,
      with moved bounds on their side of the target. */
  lemma {:induction false} RunBracketed(m: MathLib, eval: nat -> Result<Params>, target: real,
                                       j: nat, lo: nat, hi: nat, last: nat, minDiff: Bound, best: Option<Params>,
                                       probes: seq<Probe>, o: Outcome, all: seq<Probe>)
    requires Bracketed(m, eval, target, probes, lo, hi)
    requires Run(m, eval, target, j, lo, hi, last, minDiff, best) == Ok(o)
    requires all == Trace(m, eval, target, j, lo, hi, probes)
    ensures Bracketed(m, eval, target, all, o.lo, o.hi)
    decreases Steps - j
  {
    if j < Steps {
      var n := (lo + hi) / 2;
      var result := eval(n).value;
      var pr := Probe(lo, hi, n, result, LogDistance(m, result.epsilonL, target));
      var (minDiff', best') := if pr.diff.Below(minDiff) then (pr.diff, Some(result)) else (minDiff, best);
      BracketStep(m, eval, target, probes, lo, hi, pr);
      if NarrowLo(pr, target) <= Sanity {
        RunBracketed(m, eval, target, j + 1, NarrowLo(pr, target), NarrowHi(pr, target), n, minDiff', best',
                     probes + [pr], o, all);
      }
    }
  }

  /** From any state reached without passing the sanity ceiling, the search
      takes one probe per remaining step until it passes it, and ends on the
      last probe's midpoint. */
  lemma {:induction false} RunLength(m: MathLib, eval: nat -> Result<Params>, target: real,
                                    j: nat, lo: nat, hi: nat, last: nat, minDiff: Bound, best: Option<Params>,
                                    probes: seq<Probe>, o: Outcome, all: seq<Probe>)
    requires j <= Steps && |probes| == j && Continued(probes, target)
    requires j > 0 ==> lo == NarrowLo(probes[j - 1], target) <= Sanity && last == probes[j - 1].n
    requires Run(m, eval, target, j, lo, hi, last, minDiff, best) == Ok(o)
    requires all == Trace(m, eval, target, j, lo, hi, probes)
    ensures j < Steps ==> j < |all| <= Steps
    ensures Continued(all, target)
    ensures |all| < Steps ==> o.lo > Sanity
    ensures |all| > 0 ==> o.last == all[|all| - 1].n
    decreases Steps - j
  {
    if j < Steps {
      var n := (lo + hi) / 2;
      var result := eval(n).value;
      var pr := Probe(lo, hi, n, result, LogDistance(m, result.epsilonL, target));
      var (minDiff', best') := if pr.diff.Below(minDiff) then (pr.diff, Some(result)) else (minDiff, best);
      var lo' := NarrowLo(pr, target);
      ContinueStep(probes, target, pr);
      if lo' <= Sanity {
        RunLength(m, eval, target, j + 1, lo', NarrowHi(pr, target), n, minDiff', best', probes + [pr], o, all);
      } else {
        assert o.lo == lo' && o.last == n && all == probes + [pr];
      }
    }
  }

  /** The search's probes: at most 30 and at least one, each the midpoint of
      the bracket the previous one left, the final bracket [n_min, n_max], an
      early stop exactly when n_min passed 1e9, and the last midpoint. */
  lemma SearchTraced(m: MathLib, eval: nat -> Result<Params>, target: real)
    ensures var r, probes := Search(m, eval, target), Probes(m, eval, target);
            r.Ok? ==>
              && 1 <= |probes| <= Steps
              && Traced(m, eval, target, probes, r.value.lo, r.value.hi)
              && Continued(probes, target)
              && (|probes| < Steps ==> r.value.lo > Sanity)
              && r.value.last == probes[|probes| - 1].n
  {
    if Search(m, eval, target).Ok? {
      var o, probes := Search(m, eval, target).value, Probes(m, eval, target);
      RunProbed(m, eval, target, 0, Floor, Ceiling, 0, Infinite, None, [], o, probes);
      RunChained(m, eval, target, 0, Floor, Ceiling, 0, Infinite, None, [], o, probes);
      RunBracketed(m, eval, target, 0, Floor, Ceiling, 0, Infinite, None, [], o, probes);
      RunLength(m, eval, target, 0, Floor, Ceiling, 0, Infinite, None, [], o, probes);
    }
  }

  /** From any state whose best_result is the first closest probe so far, the
      rest of the search keeps that so. */
  lemma {:induction false} RunClosest(m: MathLib, eval: nat -> Result<Params>, target: real,
                                     j: nat, lo: nat, hi: nat, last: nat, minDiff: Bound, best: Option<Params>,
                                     probes: seq<Probe>, bestAt: int, o: Outcome, all: seq<Probe>)
    requires BestSeen(best, probes, bestAt)
    requires minDiff == if best.Some? then probes[bestAt].diff else Infinite
    requires Run(m, eval, target, j, lo, hi, last, minDiff, best) == Ok(o)
    requires all == Trace(m, eval, target, j, lo, hi, probes)
    ensures exists i :: BestSeen(o.best, all, i)
    decreases Steps - j
  {
    if j < Steps {
      var n := (lo + hi) / 2;
      var result := eval(n).value;
      var pr := Probe(lo, hi, n, result, LogDistance(m, result.epsilonL, target));
      var kept := pr.diff.Below(minDiff);
      var (minDiff', best') := if kept then (pr.diff, Some(result)) else (minDiff, best);
      var bestAt' := if kept then |probes| else bestAt;
      BestStep(best, probes, bestAt, minDiff, pr);
      var probes' := probes + [pr];
      assert minDiff' == if best'.Some? then probes'[bestAt'].diff else Infinite;
      if NarrowLo(pr, target) <= Sanity {
        RunClosest(m, eval, target, j + 1, NarrowLo(pr, target), NarrowHi(pr, target), n, minDiff', best',
                   probes', bestAt', o, all);
      } else {
        assert o.best == best' && all == probes';
        assert BestSeen(o.best, all, bestAt');
      }
    } else {
      assert BestSeen(o.best, all, bestAt);
    }
  }

  /** best_result is the first probe at the smallest finite log distance, or
      None when no probe had a finite one. */
  lemma SearchClosest(m: MathLib, eval: nat -> Result<Params>, target: real)
    ensures var r := Search(m, eval, target);
            r.Ok? ==> exists i :: BestSeen(r.value.best, Probes(m, eval, target), i)
  {
    if Search(m, eval, target).Ok? {
      RunClosest(m, eval, target, 0, Floor, Ceiling, 0, Infinite, None, [], -1,
                 Search(m, eval, target).value, Probes(m, eval, target));
    }
  }

  /** Once a result is kept, best_result never goes back to None. */
  lemma {:induction false} RunKeepsBest(m: MathLib, eval: nat -> Result<Params>, target: real,
                                       j: nat, lo: nat, hi: nat, last: nat, minDiff: Bound, best: Option<Params>,
                                       o: Outcome)
    requires best.Some? && Run(m, eval, target, j, lo, hi, last, minDiff, best) == Ok(o)
    ensures o.best.Some?
    decreases Steps - j
  {
    if j < Steps {
      var n := (lo + hi) / 2;
      var result := eval(n).value;
      var pr := Probe(lo, hi, n, result, LogDistance(m, result.epsilonL, target));
      var (minDiff', best') := if pr.diff.Below(minDiff) then (pr.diff, Some(result)) else (minDiff, best);
      if NarrowLo(pr, target) <= Sanity {
        RunKeepsBest(m, eval, target, j + 1, NarrowLo(pr, target), NarrowHi(pr, target), n, minDiff', best', o);
      }
    }
  }

  /** While no probe has a finite distance to a positive target, every
      epsilon_L is at most 0, so n_max halves towards 10 at every step. */
  lemma {:induction false} RunUnmatched(m: MathLib, eval: nat -> Result<Params>, target: real,
                                       j: nat, lo: nat, hi: nat, last: nat, minDiff: Bound, best: Option<Params>,
                                       probes: seq<Probe>, o: Outcome, all: seq<Probe>)
    requires target > 0.0 && best.None? && minDiff == Infinite
    requires j <= Steps && |probes| == j
    requires lo <= hi && lo <= Sanity && hi - lo <= Halved(Ceiling - Floor, j)
    requires j > 0 ==> last == hi
    requires Run(m, eval, target, j, lo, hi, last, minDiff, best) == Ok(o) && o.best.None?
    requires all == Trace(m, eval, target, j, lo, hi, probes)
    ensures o.lo == lo && o.last == o.hi && |all| == Steps
    ensures o.hi - lo <= Halved(Ceiling - Floor, Steps)
    decreases Steps - j
  {
    if j < Steps {
      var n := (lo + hi) / 2;
      var result := eval(n).value;
      var pr := Probe(lo, hi, n, result, LogDistance(m, result.epsilonL, target));
      if pr.diff.Below(minDiff) {
        if NarrowLo(pr, target) <= Sanity {
          RunKeepsBest(m, eval, target, j + 1, NarrowLo(pr, target), NarrowHi(pr, target), n,
                       pr.diff, Some(result), o);
        }
        assert false;
      }
      var (minDiff', best') := if pr.diff.Below(minDiff) then (pr.diff, Some(result)) else (minDiff, best);
      assert NarrowLo(pr, target) == lo && NarrowHi(pr, target) == n;
      RunUnmatched(m, eval, target, j + 1, NarrowLo(pr, target), NarrowHi(pr, target), n, minDiff', best',
                   probes + [pr], o, all);
    }
  }

  /** When no probe came within a finite distance of a positive target, the
      search ran all 30 steps with n_min at 10, and its last midpoint is at most 19. */
  lemma SearchUnmatched(m: MathLib, eval: nat -> Result<Params>, target: real)
    ensures var r := Search(m, eval, target);
            r.Ok? && r.value.best.None? && target > 0.0 ==>
              r.value.lo == Floor && |Probes(m, eval, target)| == Steps && r.value.last <= 19
  {
    var r := Search(m, eval, target);
    if r.Ok? && r.value.best.None? && target > 0.0 {
      RunUnmatched(m, eval, target, 0, Floor, Ceiling, 0, Infinite, None, [], r.value, Probes(m, eval, target));
      HalvedSteps();
    }
  }

  /** The count the search reports lies within [10, 1e10]: its last midpoint, and
      best_result's n, which is some probe's midpoint. */
  lemma SearchRange(m: MathLib, eval: nat -> Result<Params>, target: real)
    requires forall n :: eval(n).Ok? ==> eval(n).value.n == n
    ensures var r := Search(m, eval, target);
            r.Ok? ==>
              && Floor <= r.value.last <= Ceiling
              && (r.value.best.Some? ==> Floor <= r.value.best.value.n <= Ceiling)
  {
    var r := Search(m, eval, target);
    if r.Ok? {
      var probes := Probes(m, eval, target);
      SearchTraced(m, eval, target);
      SearchClosest(m, eval, target);
      assert ProbeOf(m, eval, target, probes[|probes| - 1]);
      if r.value.best.Some? {
        var i :| BestSeen(r.value.best, probes, i);
        assert ProbeOf(m, eval, target, probes[i]);
      }
    }
  }

  /** Bisection for the n at which the code reaches the target epsilon_L. It
      probes at most 30 midpoints of [n_min, n_max] within [10, 1e10], narrows
      the bracket on "epsilon_L > target", stops once n_min exceeds 1e9, and
      keeps the probe closest to the target in log distance. A formula that
      raises ends the search with that exception. */
  method BracketSearch(m: MathLib, eval: nat -> Result<Params>, target: real) returns (r: Result<Outcome>)
    ensures r == Search(m, eval, target)
  {
    var lo: nat, hi: nat := Floor, Ceiling;
    var minDiff := Infinite;
    var best: Option<Params> := None;
    var last: nat := 0;
    var j := 0;
    while j < Steps
      invariant j <= Steps
      invariant Run(m, eval, target, j, lo, hi, last, minDiff, best) == Search(m, eval, target)
    {
      var n := (lo + hi) / 2;
      var evaluated := eval(n);
      if evaluated.Err? {
        return Err(evaluated.error);
      }
      var result := evaluated.value;
      var diff := LogDistance(m, result.epsilonL, target);
      if diff.Below(minDiff) {
        minDiff := diff;
        best := Some(result);
      }

      if result.epsilonL > target {
        lo := n;
      } else {
        hi := n;
      }
      last := n;
      j := j + 1;

      if lo > Sanity {
        break;
      }
    }
    r := Ok(Outcome(best, last, lo, hi));
  }
}
