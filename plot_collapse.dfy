/** The closed-form outbreak models, their second moments, the collapse
    transform and the resampling grid of plot_collapse.py. */
module PlotCollapse {
  import opened ModelConstants

  // ---------------------------------------------------------------------------
  // Distribution models
  // ---------------------------------------------------------------------------

  /** The three velocity distributions; a power law carries its exponent. */
  datatype Distribution = Uniform | Exponential | PowerLaw(gamma: real)

  /** A power law has a finite second moment only for exponents above 3. */
  predicate Valid(d: Distribution) {
    d.PowerLaw? ==> d.gamma > 3.0
  }

  /** The ratio <v^2> / <v>^2 of a power law, (g-2)^2 / ((g-3)(g-1)). */
  function PowerLawFactor(gamma: real): (f: real)
    requires gamma > 3.0
    ensures f > 1.0
    ensures f == 1.0 + 1.0 / ((gamma - 3.0) * (gamma - 1.0))
  {
    var p := (gamma - 3.0) * (gamma - 1.0);
    assert (gamma - 2.0) * (gamma - 2.0) == p + 1.0;
    (gamma - 2.0) * (gamma - 2.0) / p
  }

  /** The denominator D(v) = 2/Phi - <v^2>/<v> of the outbreak size
      1 + v / D(v). The ratio <v^2>/<v> is v, 2v or factor * v, positive for
      positive v, so D starts at 2/Phi and drops below it for moving agents. */
  function Denominator(d: Distribution, v: real): (r: real)
    requires Valid(d)
    ensures r == 2.0 / Phi <==> v == 0.0
    ensures r < 2.0 / Phi <==> v > 0.0
  {
    match d
    case Uniform => 2.0 / Phi - v
    case Exponential => 2.0 / Phi - 2.0 * v
    case PowerLaw(g) =>
      PositiveScaleSign(PowerLawFactor(g), v);
      2.0 / Phi - PowerLawFactor(g) * v
  }

  /** The velocity at which the denominator of the model vanishes. */
  function CriticalVelocity(d: Distribution): (vc: real)
    requires Valid(d)
    ensures vc > 0.0
    ensures Denominator(d, vc) == 0.0
  {
    ConstantsAreExact();
    match d
    case Uniform => 2.0 / Phi
    case Exponential => 1.0 / Phi
    case PowerLaw(g) =>
      var f := PowerLawFactor(g);
      assert f * ((2.0 / Phi) / f) == 2.0 / Phi;
      (2.0 / Phi) / f
  }

  /** The denominator is positive exactly below the critical velocity and
      zero exactly at it. */
  lemma DenominatorSign(d: Distribution, v: real)
    requires Valid(d)
    ensures Denominator(d, v) > 0.0 <==> v < CriticalVelocity(d)
    ensures Denominator(d, v) == 0.0 <==> v == CriticalVelocity(d)
  {
    var vc := CriticalVelocity(d);
    match d
    case Uniform =>
      assert Denominator(d, v) == vc - v;
    case Exponential =>
      ScaledGap(2.0, vc, 2.0 / Phi, v);
    case PowerLaw(g) =>
      ScaledGap(PowerLawFactor(g), vc, 2.0 / Phi, v);
  }

  /** c - f v, with f > 0 and root vc = c / f, has the sign of vc - v. */
  lemma ScaledGap(f: real, vc: real, c: real, v: real)
    requires f > 0.0 && f * vc == c
    ensures c - f * v > 0.0 <==> v < vc
    ensures c - f * v == 0.0 <==> v == vc
  {
    assert c - f * v == f * (vc - v);
    PositiveScaleSign(f, vc - v);
  }

  lemma PositiveScaleSign(f: real, x: real)
    requires f > 0.0
    ensures f * x > 0.0 <==> x > 0.0
    ensures f * x == 0.0 <==> x == 0.0
  {
    if x < 0.0 {
      assert f * (-x) > 0.0;
    }
  }

  /** An outbreak-size value: finite, or the pole where the denominator is
      zero (a positive v divided by zero: numpy yields an infinity there). */
  datatype Size = Finite(value: real) | Pole

  /** The closed-form mean outbreak size 1 + v / D(v) of each model. */
  function OutbreakSize(d: Distribution, v: real): (r: Size)
    requires Valid(d)
    ensures r.Pole? <==> v == CriticalVelocity(d)
    ensures 0.0 <= v < CriticalVelocity(d) ==> r.Finite? && r.value >= 1.0
    ensures 0.0 < v < CriticalVelocity(d) ==> r.value > 1.0
    ensures v > CriticalVelocity(d) ==> r.Finite? && r.value < 1.0
  {
    DenominatorSign(d, v);
    var den := Denominator(d, v);
    if den == 0.0 then Pole else Finite(1.0 + v / den)
  }

  /** The three poles sit where the script's list of thresholds places them:
      2/Phi, 1/Phi and (3/4)(2/Phi) for the power law of exponent 4. */
  lemma PolesAreThresholds()
    ensures CriticalVelocity(Uniform) == VUniformCrit
    ensures CriticalVelocity(Exponential) == VThresholds[1]
    ensures PowerLawFactor(4.0) == 4.0 / 3.0
    ensures CriticalVelocity(PowerLaw(4.0)) == VThresholds[2]
    ensures forall i :: 0 <= i < |VThresholds| ==> VThresholds[i] == CriticalVelocity(CycleModel(i))
  {
    assert PowerLawFactor(4.0) == 4.0 / 3.0;
    assert CycleModel(0) == Uniform;
    assert CycleModel(1) == Exponential;
    assert CycleModel(2) == PowerLaw(4.0);
  }

  // ---------------------------------------------------------------------------
  // Second moments and the collapse transform
  // ---------------------------------------------------------------------------

  /** The coefficient c of the second moment c * v^2 of each model. */
  function MomentCoefficient(d: Distribution): (c: real)
    requires Valid(d)
    ensures c > 0.0
    ensures d == Uniform ==> c == 1.0
    ensures d == Exponential ==> c == 0.5
    ensures d == PowerLaw(4.0) ==> c == 4.0 / 3.0
  {
    match d
    case Uniform => 1.0
    case Exponential => 0.5
    case PowerLaw(g) => PowerLawFactor(g)
  }

  /** The second-moment functions uni_square_v, exp_square_v and pl_square_v. */
  function SecondMoment(d: Distribution, v: real): (m: real)
    requires Valid(d)
    ensures m == MomentCoefficient(d) * (v * v)
  {
    match d
    case Uniform => v * v
    case Exponential => v * v / 2.0
    case PowerLaw(g) => PowerLawFactor(g) * (v * v)
  }

  /** Every second moment is strictly positive away from v = 0. */
  lemma SecondMomentPositive(d: Distribution, v: real)
    requires Valid(d) && v != 0.0
    ensures SecondMoment(d, v) > 0.0
  {
    var c := MomentCoefficient(d);
    var u := if v < 0.0 then -v else v;
    assert v * v == u * u;
    calc {
      SecondMoment(d, v);
      c * (v * v);
      c * (u * u);
    >  { assert u * u > 0.0; }
      0.0;
    }
  }

  /** True when no velocity of the series is zero. */
  predicate NonZero(vs: seq<real>) {
    forall i :: 0 <= i < |vs| ==> vs[i] != 0.0
  }

  lemma DivideBySecondMoment(d: Distribution, vs: seq<real>)
    requires Valid(d) && NonZero(vs)
    ensures forall i :: 0 <= i < |vs| ==>
      SecondMoment(d, vs[i]) > 0.0 &&
      vs[i] / SecondMoment(d, vs[i]) == 1.0 / (MomentCoefficient(d) * vs[i])
  {
    var c := MomentCoefficient(d);
    forall i | 0 <= i < |vs|
      ensures SecondMoment(d, vs[i]) > 0.0 && vs[i] / SecondMoment(d, vs[i]) == 1.0 / (c * vs[i])
    {
      var v := vs[i];
      SecondMomentPositive(d, v);
      assert c * (v * v) == (c * v) * v;
    }
  }

  /** The collapse v / <v^2>(v), element by element: each point becomes
      1 / (c v) where c is the model's moment coefficient. */
  function Collapse(d: Distribution, vs: seq<real>): (r: seq<real>)
    requires Valid(d) && NonZero(vs)
    ensures |r| == |vs|
    ensures forall i :: 0 <= i < |vs| ==> r[i] == 1.0 / (MomentCoefficient(d) * vs[i])
  {
    DivideBySecondMoment(d, vs);
    seq(|vs|, i requires 0 <= i < |vs| => vs[i] / SecondMoment(d, vs[i]))
  }

  /** For positive velocities the collapse gives 1/v, 2/v and 3/(4v) for the
      uniform, exponential and power-law (exponent 4) models. */
  lemma {:induction false} CollapseClosedForms(vs: seq<real>, i: nat)
    requires NonZero(vs) && i < |vs|
    ensures Collapse(Uniform, vs)[i] == 1.0 / vs[i]
    ensures Collapse(Exponential, vs)[i] == 2.0 / vs[i]
    ensures Collapse(PowerLaw(4.0), vs)[i] == 3.0 / (4.0 * vs[i])
  {
    var v := vs[i];
    assert 0.5 * v * (2.0 / v) == 1.0;
    assert (4.0 / 3.0) * v * (3.0 / (4.0 * v)) == 1.0;
  }

  /** Where each model's pole lands after the collapse: the uniform and the
      power-law poles land on Phi / 2, the exponential one on 2 Phi. */
  lemma CollapsedPoles(d: Distribution)
    requires Valid(d)
    ensures |Collapse(d, [CriticalVelocity(d)])| == 1
    ensures Collapse(d, [CriticalVelocity(d)])[0] == if d == Exponential then 2.0 * Phi else Phi / 2.0
  {
  }

  /** Element-wise division of a series by n, as in r_infi / N. */
  function Scale(r: seq<real>, n: real): (s: seq<real>)
    requires n != 0.0
    ensures |s| == |r|
    ensures forall i :: 0 <= i < |r| ==> s[i] * n == r[i]
  {
    seq(|r|, i requires 0 <= i < |r| => r[i] / n)
  }

  // ---------------------------------------------------------------------------
  // Resampling grid
  // ---------------------------------------------------------------------------

  /** Smallest element of a non-empty series. */
  function Min(s: seq<real>): (m: real)
    requires |s| > 0
    ensures m in s
    ensures forall i :: 0 <= i < |s| ==> m <= s[i]
  {
    if |s| == 1 then s[0]
    else
      var rest := Min(s[1..]);
      if s[0] <= rest then s[0] else rest
  }

  /** Largest element of a non-empty series. */
  function Max(s: seq<real>): (m: real)
    requires |s| > 0
    ensures m in s
    ensures forall i :: 0 <= i < |s| ==> s[i] <= m
  {
    if |s| == 1 then s[0]
    else
      var rest := Max(s[1..]);
      if s[0] >= rest then s[0] else rest
  }

  /** The k-th point of an evenly spaced grid from lo to hi with last + 1 points. */
  function GridPoint(lo: real, hi: real, last: nat, k: nat): real
    requires last > 0
  {
    lo + k as real * ((hi - lo) / last as real)
  }

  lemma GridPointOrder(lo: real, hi: real, last: nat, j: nat, k: nat)
    requires 0 < last && j < k <= last
    ensures lo <= hi ==> lo <= GridPoint(lo, hi, last, k) <= hi
    ensures lo <= hi ==> lo <= GridPoint(lo, hi, last, j)
    ensures lo < hi ==> GridPoint(lo, hi, last, j) < GridPoint(lo, hi, last, k)
  {
    var step := (hi - lo) / last as real;
    if lo <= hi {
      assert step >= 0.0;
      assert k as real * step <= last as real * step;
      assert last as real * step == hi - lo;
    }
    if lo < hi {
      assert step > 0.0;
      assert (k - j) as real * step > 0.0;
    }
  }

  lemma GridProperties(lo: real, hi: real, last: nat)
    requires last > 0
    ensures lo <= hi ==> forall k :: 0 <= k <= last ==> lo <= GridPoint(lo, hi, last, k) <= hi
    ensures lo < hi ==> forall j, k :: 0 <= j < k <= last ==> GridPoint(lo, hi, last, j) < GridPoint(lo, hi, last, k)
  {
    forall k | 0 <= k <= last
      ensures lo <= hi ==> lo <= GridPoint(lo, hi, last, k) <= hi
    {
      if k == 0 {
        GridPointOrder(lo, hi, last, 0, last);
      } else {
        GridPointOrder(lo, hi, last, 0, k);
      }
    }
    forall j, k | 0 <= j < k <= last
      ensures lo < hi ==> GridPoint(lo, hi, last, j) < GridPoint(lo, hi, last, k)
    {
      GridPointOrder(lo, hi, last, j, k);
    }
  }

  lemma GridEnds(lo: real, hi: real, last: nat)
    requires last > 0
    ensures GridPoint(lo, hi, last, 0) == lo
    ensures GridPoint(lo, hi, last, last) == hi
  {
    var step := (hi - lo) / last as real;
    assert last as real * step == hi - lo;
  }

  /** numpy.linspace: num points evenly spaced from lo to hi inclusive. */
  function Linspace(lo: real, hi: real, num: nat): (r: seq<real>)
    ensures |r| == num
    ensures num > 0 ==> r[0] == lo
    ensures num > 1 ==> r[num - 1] == hi
    ensures lo <= hi ==> forall k :: 0 <= k < num ==> lo <= r[k] <= hi
    ensures lo < hi ==> forall j, k :: 0 <= j < k < num ==> r[j] < r[k]
  {
    if num <= 1 then seq(num, k => lo)
    else
      GridProperties(lo, hi, num - 1);
      GridEnds(lo, hi, num - 1);
      var r := seq(num, k requires 0 <= k < num => GridPoint(lo, hi, num - 1, k));
      assert forall k :: 0 <= k < num ==> r[k] == GridPoint(lo, hi, num - 1, k);
      r
  }

  /** Consecutive grid points are one step (hi - lo) / (num - 1) apart. */
  lemma LinspaceEvenlySpaced(lo: real, hi: real, num: nat, k: nat)
    requires num > 1 && k + 1 < num
    ensures Linspace(lo, hi, num)[k + 1] - Linspace(lo, hi, num)[k] == (hi - lo) / (num - 1) as real
  {
  }

  /** calculate_interpolation: the grid spans [min, max] of the velocities and
      the outbreak values are the spline evaluated on the grid; the spline
      itself is an input. */
  function Resample(velocities: seq<real>, spline: real -> real, num: nat): (r: (seq<real>, seq<real>))
    requires |velocities| > 0
    ensures |r.0| == num && |r.1| == num
    ensures num > 0 ==> r.0[0] == Min(velocities)
    ensures num > 1 ==> r.0[num - 1] == Max(velocities)
    ensures forall k :: 0 <= k < num ==> Min(velocities) <= r.0[k] <= Max(velocities)
    ensures forall k :: 0 <= k < num ==> r.1[k] == spline(r.0[k])
  {
    var grid := Linspace(Min(velocities), Max(velocities), num);
    (grid, seq(num, k requires 0 <= k < num => spline(grid[k])))
  }

  // ---------------------------------------------------------------------------
  // Theoretical sampling
  // ---------------------------------------------------------------------------

  /** The k-th sample start + k * step of numpy.arange. */
  function ArangeSample(start: real, step: real, k: nat): real {
    start + k as real * step
  }

  lemma ScaleStrict(a: real, b: real, step: real)
    requires step > 0.0 && a < b
    ensures a * step < b * step
  {
  }

  /** Number of points numpy.arange(start, stop, step) produces:
      ceil((stop - start) / step), or none when stop <= start. */
  function ArangeLength(start: real, stop: real, step: real): (n: nat)
    requires step > 0.0
    ensures n == 0 <==> stop <= start
  {
    if stop <= start then 0
    else
      var x := (stop - start) / step;
      var n := if x.Floor as real == x then x.Floor else x.Floor + 1;
      CeilingBounds(start, stop, step, x, n);
      n
  }

  /** The last of the ArangeLength samples lies below stop and the next one
      would not. */
  lemma ArangeLengthBounds(start: real, stop: real, step: real)
    requires step > 0.0
    ensures var n := ArangeLength(start, stop, step);
      (n > 0 ==> ArangeSample(start, step, n - 1) < stop) && ArangeSample(start, step, n) >= stop
  {
    if start < stop {
      var x := (stop - start) / step;
      CeilingBounds(start, stop, step, x, if x.Floor as real == x then x.Floor else x.Floor + 1);
    }
  }

  lemma CeilingBounds(start: real, stop: real, step: real, x: real, n: int)
    requires step > 0.0 && start < stop && x == (stop - start) / step
    requires n == (if x.Floor as real == x then x.Floor else x.Floor + 1)
    ensures n > 0
    ensures ArangeSample(start, step, n - 1) < stop
    ensures ArangeSample(start, step, n) >= stop
  {
    assert x * step == stop - start;
    assert x > 0.0;
    assert (n - 1) as real < x <= n as real;
    ScaleStrict((n - 1) as real, x, step);
    if x < n as real {
      ScaleStrict(x, n as real, step);
    }
  }

  /** numpy.arange(start, stop, step) for a positive step: every sample lies
      in [start, stop). */
  function Arange(start: real, stop: real, step: real): (r: seq<real>)
    requires step > 0.0
    ensures forall k :: 0 <= k < |r| ==> start <= r[k] < stop
  {
    var n := ArangeLength(start, stop, step);
    ArangeLengthBounds(start, stop, step);
    ArangeBelowStop(start, stop, step, n);
    seq(n, k requires 0 <= k < n => ArangeSample(start, step, k))
  }

  /** The samples are start + k * step for k = 0, 1, ..., and the first one
      left out would reach stop: no sample below stop is missing. */
  lemma ArangeSamples(start: real, stop: real, step: real)
    requires step > 0.0
    ensures var r := Arange(start, stop, step);
      (forall k :: 0 <= k < |r| ==> r[k] == ArangeSample(start, step, k)) &&
      ArangeSample(start, step, |r|) >= stop
  {
    ArangeLengthBounds(start, stop, step);
  }

  lemma ArangeBelowStop(start: real, stop: real, step: real, n: nat)
    requires step > 0.0
    requires n > 0 ==> ArangeSample(start, step, n - 1) < stop
    ensures forall k: nat :: k < n ==> start <= ArangeSample(start, step, k) < stop
  {
    forall k: nat | k < n
      ensures start <= ArangeSample(start, step, k) < stop
    {
      if k < n - 1 {
        ScaleStrict(k as real, (n - 1) as real, step);
      }
    }
  }

  /** The list of thresholds passed to plot_theoretical. */
  const VThresholds: seq<real> := [2.0 / Phi, 1.0 / Phi, (3.0 / 4.0) * (2.0 / Phi)]

  /** The arange steps passed to plot_theoretical. */
  const Epsilons: seq<real> := [0.0001, 0.00001, 0.0001]

  /** First sample of every theoretical curve. */
  const TheoryStart: real := 0.01

  /** Outbreak sizes of a model along a series of velocities. */
  function OutbreakCurve(d: Distribution, vs: seq<real>): (r: seq<Size>)
    requires Valid(d)
    ensures |r| == |vs|
    ensures forall i :: 0 <= i < |vs| ==> r[i] == OutbreakSize(d, vs[i])
  {
    seq(|vs|, i requires 0 <= i < |vs| => OutbreakSize(d, vs[i]))
  }

  /** Sampling from a positive start up to a model's own pole never reaches
      it: every paired outbreak value is finite and at least 1. */
  lemma SamplesBelowPole(d: Distribution, start: real, step: real)
    requires Valid(d) && start >= 0.0 && step > 0.0
    ensures forall i :: 0 <= i < |Arange(start, CriticalVelocity(d), step)| ==>
      OutbreakCurve(d, Arange(start, CriticalVelocity(d), step))[i].Finite? &&
      OutbreakCurve(d, Arange(start, CriticalVelocity(d), step))[i].value >= 1.0
  {
  }

  // ---------------------------------------------------------------------------
  // The plotting loops and their shared formula cycles
  // ---------------------------------------------------------------------------

  /** The model at position pos of the cycles second_moment and outbreak_size,
      which list uniform, exponential and power law (exponent 4) in turn. */
  function CycleModel(pos: nat): (d: Distribution)
    ensures Valid(d)
    ensures pos % 3 == 0 <==> d == Uniform
    ensures pos % 3 == 1 <==> d == Exponential
    ensures pos % 3 == 2 <==> d == PowerLaw(4.0)
  {
    match pos % 3
    case 0 => Uniform
    case 1 => Exponential
    case _ => PowerLaw(4.0)
  }

  /** Advancing a cycle by three (or six) entries returns it to the same model. */
  lemma CycleReturns(pos: nat, rounds: nat)
    ensures CycleModel(pos + 3 * rounds) == CycleModel(pos)
  {
    assert (pos + 3 * rounds) % 3 == pos % 3;
  }

  /** A curve handed to the renderer. */
  datatype Series = Series(x: seq<real>, y: seq<real>)

  /** A theoretical curve; its y values come from a closed form. */
  datatype TheorySeries = TheorySeries(x: seq<real>, y: seq<Size>)

  /** True when every simulation pair has matching lengths and no zero velocity. */
  predicate SimulationData(data: seq<(seq<real>, seq<real>)>) {
    forall i :: 0 <= i < |data| ==> NonZero(data[i].0) && |data[i].0| == |data[i].1|
  }

  /** One simulated curve: collapsed velocities against r_infi / n. */
  function SimulatedSeries(d: Distribution, velocities: seq<real>, outbreaks: seq<real>, n: real): (s: Series)
    requires Valid(d) && NonZero(velocities) && |velocities| == |outbreaks| && n != 0.0
    ensures |s.x| == |s.y| == |velocities|
  {
    Series(Collapse(d, velocities), Scale(outbreaks, n))
  }

  /** plot_simulations: the i-th pair is collapsed with the model at cycle
      position start + i, and the cycle ends |data| positions further on. */
  method PlotSimulations(data: seq<(seq<real>, seq<real>)>, cycleStart: nat, n: real)
    returns (series: seq<Series>, cycleEnd: nat)
    requires SimulationData(data) && n != 0.0
    ensures cycleEnd == cycleStart + |data|
    ensures |series| == |data|
    ensures forall i :: 0 <= i < |data| ==>
      series[i] == SimulatedSeries(CycleModel(cycleStart + i), data[i].0, data[i].1, n)
  {
    series := [];
    cycleEnd := cycleStart;
    for i := 0 to |data|
      invariant cycleEnd == cycleStart + i
      invariant |series| == i
      invariant forall j :: 0 <= j < i ==>
        series[j] == SimulatedSeries(CycleModel(cycleStart + j), data[j].0, data[j].1, n)
    {
      var model := CycleModel(cycleEnd);
      var (velocities, outbreaks) := data[i];
      series := series + [SimulatedSeries(model, velocities, outbreaks, n)];
      cycleEnd := cycleEnd + 1;
    }
  }

  /** One theoretical curve: arange samples below the threshold, their
      outbreak sizes from one model and their collapse with another. */
  function TheoryCurve(outbreakModel: Distribution, momentModel: Distribution,
                       threshold: real, eps: real, n: real): (s: TheorySeries)
    requires Valid(outbreakModel) && Valid(momentModel) && eps > 0.0 && n != 0.0
    ensures |s.x| == |s.y|
  {
    TheorySeries(TheoryX(momentModel, threshold, eps), TheoryY(outbreakModel, threshold, eps, n))
  }

  /** The x values of a theoretical curve: the arange samples, collapsed. */
  function TheoryX(momentModel: Distribution, threshold: real, eps: real): (x: seq<real>)
    requires Valid(momentModel) && eps > 0.0
    ensures |x| == |Arange(TheoryStart, threshold, eps)|
  {
    Collapse(momentModel, Arange(TheoryStart, threshold, eps))
  }

  /** The k-th x value of a theoretical curve is 1 / (c (0.01 + k eps)). */
  lemma TheoryXValues(momentModel: Distribution, threshold: real, eps: real)
    requires Valid(momentModel) && eps > 0.0
    ensures var x := TheoryX(momentModel, threshold, eps);
      forall k :: 0 <= k < |x| ==>
        x[k] == 1.0 / (MomentCoefficient(momentModel) * ArangeSample(TheoryStart, eps, k))
  {
    ArangeSamples(TheoryStart, threshold, eps);
  }

  /** The y values of a theoretical curve: the outbreak sizes at the arange
      samples, divided by n. */
  function TheoryY(outbreakModel: Distribution, threshold: real, eps: real, n: real): (y: seq<Size>)
    requires Valid(outbreakModel) && eps > 0.0 && n != 0.0
    ensures |y| == |Arange(TheoryStart, threshold, eps)|
  {
    ScaleSizes(OutbreakCurve(outbreakModel, Arange(TheoryStart, threshold, eps)), n)
  }

  /** The k-th y value of a theoretical curve is the outbreak size at
      0.01 + k eps divided by n, and a pole where that size is one. */
  lemma TheoryYValues(outbreakModel: Distribution, threshold: real, eps: real, n: real)
    requires Valid(outbreakModel) && eps > 0.0 && n != 0.0
    ensures var y := TheoryY(outbreakModel, threshold, eps, n);
      forall k :: 0 <= k < |y| ==>
        var size := OutbreakSize(outbreakModel, ArangeSample(TheoryStart, eps, k));
        y[k].Finite? == size.Finite? && (y[k].Finite? ==> y[k].value * n == size.value)
  {
    ArangeSamples(TheoryStart, threshold, eps);
  }

  /** Division of every finite outbreak value by n; poles stay poles. */
  function ScaleSizes(ys: seq<Size>, n: real): (r: seq<Size>)
    requires n != 0.0
    ensures |r| == |ys|
    ensures forall i :: 0 <= i < |ys| ==> r[i].Finite? == ys[i].Finite?
    ensures forall i :: 0 <= i < |ys| && ys[i].Finite? ==> r[i].value * n == ys[i].value
  {
    seq(|ys|, i requires 0 <= i < |ys| => match ys[i] case Finite(r) => Finite(r / n) case Pole => Pole)
  }

  /** plot_theoretical: the i-th threshold is sampled with the outbreak formula
      at outbreakStart + i and collapsed with the second moment at
      momentStart + i. zip stops at the shorter of the two lists; when the
      thresholds are the longer one, both cycles are drawn once more before
      zip finds the steps exhausted. */
  method PlotTheoretical(thresholds: seq<real>, epsilons: seq<real>,
                         outbreakStart: nat, momentStart: nat, n: real)
    returns (series: seq<TheorySeries>, outbreakEnd: nat, momentEnd: nat)
    requires forall i :: 0 <= i < |epsilons| ==> epsilons[i] > 0.0
    requires n != 0.0
    ensures |series| == if |thresholds| < |epsilons| then |thresholds| else |epsilons|
    ensures forall i :: 0 <= i < |series| ==>
      series[i] == TheoryCurve(CycleModel(outbreakStart + i), CycleModel(momentStart + i),
                               thresholds[i], epsilons[i], n)
    ensures var extra := if |thresholds| > |epsilons| then 1 else 0;
      outbreakEnd == outbreakStart + |series| + extra && momentEnd == momentStart + |series| + extra
  {
    var count := if |thresholds| < |epsilons| then |thresholds| else |epsilons|;
    series := [];
    outbreakEnd, momentEnd := outbreakStart, momentStart;
    for i := 0 to count
      invariant |series| == i
      invariant outbreakEnd == outbreakStart + i && momentEnd == momentStart + i
      invariant forall j :: 0 <= j < i ==>
        series[j] == TheoryCurve(CycleModel(outbreakStart + j), CycleModel(momentStart + j),
                                 thresholds[j], epsilons[j], n)
    {
      var curve := TheoryCurve(CycleModel(outbreakEnd), CycleModel(momentEnd), thresholds[i], epsilons[i], n);
      series := series + [curve];
      outbreakEnd, momentEnd := outbreakEnd + 1, momentEnd + 1;
    }
    if |thresholds| > |epsilons| {
      outbreakEnd, momentEnd := outbreakEnd + 1, momentEnd + 1;
    }
  }

  /** The script's run: plot_simulations over the first three files leaves
      the second_moment cycle at position 3, and plot_theoretical starts the
      outbreak_size cycle at 0. Curve i then pairs matching formulas, and every
      one of its outbreak values is finite and at least 1. */
  lemma TheoryCurvesOfScript(i: nat)
    requires i < 3
    ensures CycleModel(0 + i) == CycleModel(3 + i)
    ensures var s := TheoryCurve(CycleModel(i), CycleModel(3 + i), VThresholds[i], Epsilons[i], 1.0);
      forall k :: 0 <= k < |s.y| ==> s.y[k].Finite? && s.y[k].value >= 1.0
  {
    CycleReturns(i, 1);
    PolesAreThresholds();
    var d := CycleModel(i);
    SamplesBelowPole(d, TheoryStart, Epsilons[i]);
  }

  /** The script's main block: plot_simulations over the first three data
      files with N = 1, then plot_theoretical with v_thresholds and the steps
      1e-4, 1e-5, 1e-4 on the same second-moment cycle and a fresh outbreak
      cycle. The simulations leave the moment cycle at position 3, so each
      theoretical curve is collapsed with its own model's second moment, and
      every theoretical outbreak value is finite and at least 1. */
  method PlotScript(data: seq<(seq<real>, seq<real>)>)
    returns (simulated: seq<Series>, curves: seq<TheorySeries>)
    requires |data| == 3 && SimulationData(data)
    ensures |simulated| == 3
    ensures forall i :: 0 <= i < 3 ==>
      simulated[i] == SimulatedSeries(CycleModel(i), data[i].0, data[i].1, 1.0)
    ensures |curves| == 3
    ensures forall i :: 0 <= i < 3 ==>
      curves[i] == TheoryCurve(CycleModel(i), CycleModel(i), VThresholds[i], Epsilons[i], 1.0)
    ensures forall i, k :: 0 <= i < 3 && 0 <= k < |curves[i].y| ==>
      curves[i].y[k].Finite? && curves[i].y[k].value >= 1.0
  {
    var momentPos;
    simulated, momentPos := PlotSimulations(data, 0, 1.0);
    var outbreakEnd, momentEnd;
    curves, outbreakEnd, momentEnd := PlotTheoretical(VThresholds, Epsilons, 0, momentPos, 1.0);
    forall i | 0 <= i < 3
      ensures curves[i] == TheoryCurve(CycleModel(i), CycleModel(i), VThresholds[i], Epsilons[i], 1.0)
      ensures forall k :: 0 <= k < |curves[i].y| ==> curves[i].y[k].Finite? && curves[i].y[k].value >= 1.0
    {
      TheoryCurvesOfScript(i);
    }
  }
}
