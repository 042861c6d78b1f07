/** First-crossing threshold detection, the exponent scaling curve and the
    critical-velocity sweep of pl_exponent_analysis.py. */
module PlExponentAnalysis {
  import opened ModelConstants
  import opened PlotCollapse

  datatype Option<T> = None | Some(value: T)

  /** Onset of an extensive outbreak, in outbreak counts divided by the
      population size. */
  const DefaultThreshold: real := 0.012

  /** Number of points of the resampling grid in the sweep. */
  const GridSize: nat := 500

  /** Exponents of the power-law data files, in mapping order. */
  const MappingExponents: seq<real> := [3.1, 3.5, 4.0, 5.0, 6.0, 8.0, 10.0]

  // ---------------------------------------------------------------------------
  // Threshold detection
  // ---------------------------------------------------------------------------

  /** numpy.where(s >= threshold) restricted to indices from `from` on:
      exactly those indices, in ascending order. */
  function Where(s: seq<real>, threshold: real, from: nat): (w: seq<nat>)
    requires from <= |s|
    ensures forall j :: 0 <= j < |w| ==> from <= w[j] < |s| && s[w[j]] >= threshold
    ensures forall i :: from <= i < |s| && s[i] >= threshold ==> i in w
    ensures forall j, k :: 0 <= j < k < |w| ==> w[j] < w[k]
    decreases |s| - from
  {
    if from == |s| then []
    else if s[from] >= threshold then [from] + Where(s, threshold, from + 1)
    else Where(s, threshold, from + 1)
  }

  /** Smallest entry of a non-empty index array: the `.min()` of the integer
      array np.where returns, kept apart from PlotCollapse.Min, which takes
      the min of real-valued velocities. */
  function MinIndex(w: seq<nat>): (m: nat)
    requires |w| > 0
    ensures m in w
    ensures forall j :: 0 <= j < |w| ==> m <= w[j]
  {
    if |w| == 1 then w[0]
    else
      var rest := MinIndex(w[1..]);
      if w[0] <= rest then w[0] else rest
  }

  /** threshold_detection: the first index whose value reaches the
      threshold, or None when no value does. */
  function ThresholdDetection(s: seq<real>, threshold: real): (r: Option<nat>)
    ensures r.None? <==> forall i :: 0 <= i < |s| ==> s[i] < threshold
    ensures r.Some? ==> r.value < |s| && s[r.value] >= threshold
    ensures r.Some? ==> forall j :: 0 <= j < r.value ==> s[j] < threshold
  {
    var w := Where(s, threshold, 0);
    if |w| > 0 then Some(MinIndex(w)) else None
  }

  /** The first-crossing contract determines the answer: any two results
      that meet it are equal. */
  lemma FirstCrossingUnique(s: seq<real>, threshold: real, a: Option<nat>, b: Option<nat>)
    requires a.None? <==> forall i :: 0 <= i < |s| ==> s[i] < threshold
    requires a.Some? ==> a.value < |s| && s[a.value] >= threshold && forall j :: 0 <= j < a.value ==> s[j] < threshold
    requires b.None? <==> forall i :: 0 <= i < |s| ==> s[i] < threshold
    requires b.Some? ==> b.value < |s| && s[b.value] >= threshold && forall j :: 0 <= j < b.value ==> s[j] < threshold
    ensures a == b
  {
    if a.Some? && b.Some? {
      assert s[a.value] >= threshold && s[b.value] >= threshold;
      assert !(a.value < b.value);
      assert !(b.value < a.value);
    }
  }

  lemma CompareScaled(x: real, y: real, threshold: real, n: real)
    requires n > 0.0 && y * n == x
    ensures y >= threshold <==> x >= threshold * n
  {
    if y >= threshold {
      assert (y - threshold) * n >= 0.0;
    } else {
      assert (threshold - y) * n > 0.0;
    }
  }

  /** Dividing the counts by n > 0 and comparing with threshold picks the same
      index as comparing the raw counts with threshold * n. */
  lemma DetectionUnderScaling(r: seq<real>, threshold: real, n: real)
    requires n > 0.0
    ensures ThresholdDetection(Scale(r, n), threshold) == ThresholdDetection(r, threshold * n)
  {
    var s := Scale(r, n);
    forall i | 0 <= i < |r|
      ensures s[i] >= threshold <==> r[i] >= threshold * n
    {
      CompareScaled(r[i], s[i], threshold, n);
    }
    FirstCrossingUnique(r, threshold * n, ThresholdDetection(s, threshold), ThresholdDetection(r, threshold * n));
  }

  /** With the default threshold 0.012 applied to r_infi / 1000, detection
      picks the same index as the threshold 12 applied to the raw counts. */
  lemma NormalisedDetection(r: seq<real>)
    ensures ThresholdDetection(Scale(r, PopulationSize), DefaultThreshold) == ThresholdDetection(r, 12.0)
  {
    DetectionUnderScaling(r, DefaultThreshold, PopulationSize);
  }

  /** A worked case: the first value reaching 0.012 is at index 2, and a curve
      that stays below the threshold has no crossing. */
  lemma DetectionExamples()
    ensures ThresholdDetection([0.001, 0.005, 0.012, 0.02, 0.5], 0.012) == Some(2)
    ensures ThresholdDetection([0.001, 0.005, 0.011], 0.012) == None
  {
    var s := [0.001, 0.005, 0.012, 0.02, 0.5];
    FirstCrossingUnique(s, 0.012, ThresholdDetection(s, 0.012), Some(2));
  }

  // ---------------------------------------------------------------------------
  // The exponent scaling curve
  // ---------------------------------------------------------------------------

  /** alpha_curve: the ratio (q-3)(q-1)/(q-2)^2 of the power-law critical
      velocity to the uniform one. Because (q-3)(q-1) = (q-2)^2 - 1 it equals
      1 - 1/(q-2)^2. */
  function AlphaCurve(q: real): (a: real)
    requires q > 2.0
    ensures (q - 2.0) * (q - 2.0) > 0.0 && a == 1.0 - 1.0 / ((q - 2.0) * (q - 2.0))
  {
    var u := q - 2.0;
    assert u * u > 0.0;
    assert (q - 3.0) * (q - 1.0) == u * u - 1.0;
    (q - 3.0) * (q - 1.0) / (u * u)
  }

  /** For q > 3 the curve lies strictly between 0 and 1. */
  lemma AlphaCurveBounds(q: real)
    requires q > 3.0
    ensures 0.0 < AlphaCurve(q) < 1.0
  {
    var u := q - 2.0;
    assert u * u > 1.0 by {
      assert (u - 1.0) * u > 0.0;
    }
    ReciprocalDecreasing(1.0, u * u);
    assert 1.0 / (u * u) > 0.0;
  }

  /** The curve at q = 4 is exactly 3/4. */
  lemma AlphaCurveAtFour()
    ensures AlphaCurve(4.0) == 0.75
  {
  }

  /** The curve strictly increases with the exponent. */
  lemma AlphaCurveIncreasing(q1: real, q2: real)
    requires 2.0 < q1 < q2
    ensures AlphaCurve(q1) < AlphaCurve(q2)
  {
    SquareReciprocalDecreasing(q1 - 2.0, q2 - 2.0);
  }

  lemma ReciprocalDecreasing(a: real, b: real)
    requires 0.0 < a < b
    ensures 0.0 < 1.0 / b < 1.0 / a
  {
    var x, y := 1.0 / a, 1.0 / b;
    assert x * a == 1.0 && y * b == 1.0;
    assert x > 0.0 && y > 0.0;
    assert y * a < y * b;
    assert y * a < x * a;
  }

  lemma SquareReciprocalDecreasing(u1: real, u2: real)
    requires 0.0 < u1 < u2
    ensures 1.0 / (u2 * u2) < 1.0 / (u1 * u1)
  {
    ReciprocalDecreasing(u1, u2);
    var w1, w2 := 1.0 / u1, 1.0 / u2;
    assert 1.0 / (u1 * u1) == w1 * w1;
    assert 1.0 / (u2 * u2) == w2 * w2;
    assert 0.0 < w2 * w2 < w2 * w1 < w1 * w1;
  }

  /** The curve approaches 1: past q = 2 + 1/eps it is within eps of 1. */
  lemma AlphaCurveApproachesOne(q: real, eps: real)
    requires q > 3.0 && eps > 0.0 && q - 2.0 >= 1.0 / eps
    ensures 1.0 - AlphaCurve(q) <= eps
  {
    var u := q - 2.0;
    assert u > 1.0;
    calc {
      u * u;
    >=  { assert (u - 1.0) * u >= 0.0; }
      u;
    >=
      1.0 / eps;
    }
    assert 1.0 - AlphaCurve(q) == 1.0 / (u * u);
    assert eps * (1.0 / eps) == 1.0;
    assert (1.0 / (u * u)) * (u * u) == 1.0;
    assert eps * (u * u) >= 1.0;
  }

  /** The curve is the power-law critical velocity divided by the uniform
      one: alpha_curve(q) * 2/Phi is where 2/Phi - factor * v vanishes. */
  lemma AlphaCurveIsCriticalRatio(q: real)
    requires q > 3.0
    ensures AlphaCurve(q) * PowerLawFactor(q) == 1.0
    ensures CriticalVelocity(PowerLaw(q)) == AlphaCurve(q) * VUniformCrit
    ensures Denominator(PowerLaw(q), AlphaCurve(q) * (2.0 / Phi)) == 0.0
  {
    var u := q - 2.0;
    var p := (q - 3.0) * (q - 1.0);
    assert u * u == p + 1.0;
    assert p > 0.0;
    var f := PowerLawFactor(q);
    var a := AlphaCurve(q);
    assert f == (u * u) / p;
    assert a == p / (u * u);
    assert a * f == 1.0;
    var vc := CriticalVelocity(PowerLaw(q));
    assert vc == (2.0 / Phi) / f;
    assert vc == a * (2.0 / Phi);
  }

  /** The exponents of the mapping are all above 3, so each curve value lies
      in (0, 1), and the values rise in mapping order. */
  lemma MappingExponentsOrdered()
    ensures forall i :: 0 <= i < |MappingExponents| ==> MappingExponents[i] > 3.0
    ensures forall i :: 0 <= i < |MappingExponents| ==> 0.0 < AlphaCurve(MappingExponents[i]) < 1.0
    ensures forall j, k :: 0 <= j < k < |MappingExponents| ==>
      AlphaCurve(MappingExponents[j]) < AlphaCurve(MappingExponents[k])
  {
    forall i | 0 <= i < |MappingExponents|
      ensures 0.0 < AlphaCurve(MappingExponents[i]) < 1.0
    {
      AlphaCurveBounds(MappingExponents[i]);
    }
    forall j, k | 0 <= j < k < |MappingExponents|
      ensures AlphaCurve(MappingExponents[j]) < AlphaCurve(MappingExponents[k])
    {
      AlphaCurveIncreasing(MappingExponents[j], MappingExponents[k]);
    }
  }

  /** Dividing theoretical power-law critical velocities by the uniform one,
      as the q-plot divides the simulated ones, gives the curve itself. */
  lemma TheoryRatiosAreAlphaCurve(qs: seq<real>)
    requires forall i :: 0 <= i < |qs| ==> qs[i] > 3.0
    ensures var vcs := seq(|qs|, i requires 0 <= i < |qs| => CriticalVelocity(PowerLaw(qs[i])));
      forall i :: 0 <= i < |qs| ==> Scale(vcs, VUniformCrit)[i] == AlphaCurve(qs[i])
  {
    ConstantsAreExact();
    var vcs := seq(|qs|, i requires 0 <= i < |qs| => CriticalVelocity(PowerLaw(qs[i])));
    forall i | 0 <= i < |qs|
      ensures Scale(vcs, VUniformCrit)[i] == AlphaCurve(qs[i])
    {
      AlphaCurveIsCriticalRatio(qs[i]);
      var x := Scale(vcs, VUniformCrit)[i];
      assert x * VUniformCrit == AlphaCurve(qs[i]) * VUniformCrit;
    }
  }

  // ---------------------------------------------------------------------------
  // The sweep over power-law exponents
  // ---------------------------------------------------------------------------

  /** One entry of the exponent mapping: the raw velocities and the cubic
      spline through the normalised outbreak counts (an input: the spline fit
      is not part of this model). The entry's exponent only selects which
      curves are plotted, so it is not carried. */
  datatype SweepItem = SweepItem(velocities: seq<real>, spline: real -> real)

  /** Every entry has at least one velocity, so its min and max exist. */
  predicate Loadable(items: seq<SweepItem>) {
    forall i :: 0 <= i < |items| ==> |items[i].velocities| > 0
  }

  /** The grid of GridSize points over [min, max] of an entry's velocities. */
  function SweepGrid(item: SweepItem): (g: seq<real>)
    requires |item.velocities| > 0
    ensures |g| == GridSize
  {
    Resample(item.velocities, item.spline, GridSize).0
  }

  /** The resampled values of an entry: its spline on the grid. */
  function SweepValues(item: SweepItem): (r: seq<real>)
    requires |item.velocities| > 0
    ensures |r| == GridSize
    ensures forall k :: 0 <= k < GridSize ==> r[k] == item.spline(SweepGrid(item)[k])
  {
    Resample(item.velocities, item.spline, GridSize).1
  }

  /** The critical velocity of one entry: the grid velocity at the first
      resampled value reaching the threshold, or None. */
  function CrossingVelocity(item: SweepItem, threshold: real): (r: Option<real>)
    requires |item.velocities| > 0
    ensures r.None? <==> forall k :: 0 <= k < GridSize ==> item.spline(SweepGrid(item)[k]) < threshold
    ensures r.Some? ==> Min(item.velocities) <= r.value <= Max(item.velocities)
    ensures r.Some? ==> item.spline(r.value) >= threshold
  {
    var grid := SweepGrid(item);
    var values := SweepValues(item);
    var index := ThresholdDetection(values, threshold);
    if index.Some? then Some(grid[index.value]) else None
  }

  /** A recorded crossing is the grid velocity at the first grid point whose
      resampled value reaches the threshold. */
  lemma CrossingIsFirstGridPoint(item: SweepItem, threshold: real)
    requires |item.velocities| > 0 && CrossingVelocity(item, threshold).Some?
    ensures exists k :: (0 <= k < GridSize && CrossingVelocity(item, threshold).value == SweepGrid(item)[k] &&
      forall j :: 0 <= j < k ==> item.spline(SweepGrid(item)[j]) < threshold)
  {
    var k := ThresholdDetection(SweepValues(item), threshold).value;
    assert CrossingVelocity(item, threshold).value == SweepGrid(item)[k];
  }

  /** The crossing of every entry, in entry order. */
  function Crossings(items: seq<SweepItem>, threshold: real): (cs: seq<Option<real>>)
    requires Loadable(items)
    ensures |cs| == |items|
    ensures forall i :: 0 <= i < |items| ==> cs[i] == CrossingVelocity(items[i], threshold)
  {
    seq(|items|, i requires 0 <= i < |items| => CrossingVelocity(items[i], threshold))
  }

  /** The values of the present entries, in order: what appending only the
      found crossings leaves in the list. */
  function Present(cs: seq<Option<real>>): (p: seq<real>)
    ensures |p| <= |cs|
    ensures forall j :: 0 <= j < |p| ==> Some(p[j]) in cs
  {
    if |cs| == 0 then []
    else
      var front := cs[..|cs| - 1];
      assert forall x :: x in front ==> x in cs;
      Present(front) +
        match cs[|cs| - 1]
        case None => []
        case Some(v) => [v]
  }

  /** Positions of the present entries, in order. */
  function PresentIndices(cs: seq<Option<real>>): seq<nat> {
    if |cs| == 0 then []
    else
      var n := |cs| - 1;
      PresentIndices(cs[..n]) + if cs[n].Some? then [n] else []
  }

  /** The listed positions ascend and hold present entries. */
  lemma {:induction false} PresentIndicesSound(cs: seq<Option<real>>)
    ensures |PresentIndices(cs)| <= |cs|
    ensures forall j :: 0 <= j < |PresentIndices(cs)| ==>
      PresentIndices(cs)[j] < |cs| && cs[PresentIndices(cs)[j]].Some?
    ensures forall j, k :: 0 <= j < k < |PresentIndices(cs)| ==>
      PresentIndices(cs)[j] < PresentIndices(cs)[k]
  {
    if |cs| > 0 {
      var n := |cs| - 1;
      PresentIndicesSound(cs[..n]);
      var ix0 := PresentIndices(cs[..n]);
      var ix := PresentIndices(cs);
      assert ix[..|ix0|] == ix0;
      forall j | 0 <= j < |ix0|
        ensures cs[ix[j]].Some?
      {
        assert cs[..n][ix0[j]] == cs[ix0[j]];
      }
    }
  }

  /** Every present entry is listed. */
  lemma {:induction false} PresentIndicesComplete(cs: seq<Option<real>>)
    ensures forall i :: 0 <= i < |cs| && cs[i].Some? ==> i in PresentIndices(cs)
  {
    if |cs| > 0 {
      var n := |cs| - 1;
      PresentIndicesComplete(cs[..n]);
      forall i | 0 <= i < n && cs[i].Some?
        ensures i in PresentIndices(cs)
      {
        assert cs[..n][i] == cs[i];
      }
    }
  }

  /** The j-th kept value is the value of the j-th listed entry. */
  lemma {:induction false} PresentMatchesIndices(cs: seq<Option<real>>)
    ensures |Present(cs)| == |PresentIndices(cs)|
    ensures forall j :: 0 <= j < |Present(cs)| ==>
      PresentIndices(cs)[j] < |cs| && cs[PresentIndices(cs)[j]] == Some(Present(cs)[j])
  {
    PresentIndicesSound(cs);
    if |cs| > 0 {
      var n := |cs| - 1;
      PresentMatchesIndices(cs[..n]);
      var p0, ix0 := Present(cs[..n]), PresentIndices(cs[..n]);
      var p, ix := Present(cs), PresentIndices(cs);
      assert p[..|p0|] == p0 && ix[..|ix0|] == ix0;
      forall j | 0 <= j < |p0|
        ensures cs[ix[j]] == Some(p[j])
      {
        assert cs[..n][ix0[j]] == cs[ix0[j]];
      }
    }
  }

  /** Present keeps exactly the present entries, each once, in their order. */
  lemma PresentInOrder(cs: seq<Option<real>>)
    ensures var ix := PresentIndices(cs);
      |Present(cs)| == |ix| <= |cs| &&
      (forall j :: 0 <= j < |ix| ==> ix[j] < |cs| && cs[ix[j]] == Some(Present(cs)[j])) &&
      (forall j, k :: 0 <= j < k < |ix| ==> ix[j] < ix[k]) &&
      (forall i :: 0 <= i < |cs| && cs[i].Some? ==> i in ix)
  {
    PresentIndicesSound(cs);
    PresentIndicesComplete(cs);
    PresentMatchesIndices(cs);
  }

  /** What the sweep returns for a list of entries: the critical velocities of
      the entries that cross, in entry order. */
  function Sweep(items: seq<SweepItem>, threshold: real): (vcs: seq<real>)
    requires Loadable(items)
    ensures |vcs| <= |items|
    ensures forall j :: 0 <= j < |vcs| ==>
      exists i :: 0 <= i < |items| && CrossingVelocity(items[i], threshold) == Some(vcs[j])
  {
    var cs := Crossings(items, threshold);
    var kept := Present(cs);
    forall j | 0 <= j < |kept|
      ensures exists i :: 0 <= i < |items| && CrossingVelocity(items[i], threshold) == Some(kept[j])
    {
      var i :| 0 <= i < |cs| && cs[i] == Some(kept[j]);
    }
    kept
  }

  /** calculate_critical_velocities: one pass over the mapping, appending the
      grid velocity of each first crossing and skipping entries without one. */
  method CalculateCriticalVelocities(mapping: seq<SweepItem>, threshold: real) returns (vcs: seq<real>)
    requires Loadable(mapping)
    ensures vcs == Sweep(mapping, threshold)
  {
    vcs := [];
    for i := 0 to |mapping|
      invariant vcs == Present(Crossings(mapping[..i], threshold))
    {
      var item := mapping[i];
      var (velocities, values) := Resample(item.velocities, item.spline, GridSize);
      var index := ThresholdDetection(values, threshold);
      CrossingFromResample(item, threshold);
      SweepStep(mapping, i, threshold);
      if index.Some? {
        vcs := vcs + [velocities[index.value]];
      }
    }
    assert mapping[..|mapping|] == mapping;
  }

  lemma CrossingFromResample(item: SweepItem, threshold: real)
    requires |item.velocities| > 0
    ensures var (grid, values) := Resample(item.velocities, item.spline, GridSize);
      var index := ThresholdDetection(values, threshold);
      CrossingVelocity(item, threshold) == if index.Some? then Some(grid[index.value]) else None
  {
  }

  /** Extending the prefix of the mapping by one entry appends that entry's
      crossing, if it has one. */
  lemma SweepStep(items: seq<SweepItem>, i: nat, threshold: real)
    requires Loadable(items) && i < |items|
    ensures Loadable(items[..i]) && Loadable(items[..i + 1])
    ensures var c := CrossingVelocity(items[i], threshold);
      Present(Crossings(items[..i + 1], threshold)) ==
      Present(Crossings(items[..i], threshold)) + if c.Some? then [c.value] else []
  {
    PresentStep(Crossings(items[..i + 1], threshold), Crossings(items[..i], threshold),
                CrossingVelocity(items[i], threshold));
  }

  lemma PresentStep(next: seq<Option<real>>, front: seq<Option<real>>, last: Option<real>)
    requires |next| == |front| + 1
    requires forall i :: 0 <= i < |front| ==> next[i] == front[i]
    requires next[|front|] == last
    ensures Present(next) == Present(front) + if last.Some? then [last.value] else []
  {
    assert next[..|front|] == front;
  }

  /** The sweep filters and preserves order: with ix the positions of the
      entries that cross, its j-th result is the critical velocity of entry
      ix[j], the positions ascend, every crossing entry is among them, there
      is at most one result per entry, and each result lies within the raw
      velocity range of its entry. */
  lemma SweepFiltersInOrder(items: seq<SweepItem>, threshold: real)
    requires Loadable(items)
    ensures var ix := PresentIndices(Crossings(items, threshold));
      |Sweep(items, threshold)| == |ix| <= |items| &&
      (forall j :: 0 <= j < |ix| ==> (ix[j] < |items| &&
         CrossingVelocity(items[ix[j]], threshold) == Some(Sweep(items, threshold)[j]) &&
         Min(items[ix[j]].velocities) <= Sweep(items, threshold)[j] <= Max(items[ix[j]].velocities))) &&
      (forall j, k :: 0 <= j < k < |ix| ==> ix[j] < ix[k]) &&
      (forall i :: 0 <= i < |items| && CrossingVelocity(items[i], threshold).Some? ==> i in ix)
  {
    PresentInOrder(Crossings(items, threshold));
  }

  /** What calculate_uniform_threshold finds in the uniform data. */
  datatype UniformOutcome =
    | Threshold(vc: real)   // the velocity at the first crossing
    | NoCrossing            // threshold_detection returned None
    | IndexError            // the first crossing lies past the last velocity

  /** calculate_uniform_threshold: the raw velocity at the first outbreak
      count whose normalised value reaches the default threshold, that is the
      first raw count of at least 12. */
  function UniformThreshold(velocities: seq<real>, outbreaks: seq<real>): (r: UniformOutcome)
    ensures r.NoCrossing? <==> forall i :: 0 <= i < |outbreaks| ==> outbreaks[i] < 12.0
    ensures r.Threshold? ==> exists k :: (0 <= k < |velocities| && k < |outbreaks| && r.vc == velocities[k] &&
      outbreaks[k] >= 12.0 && forall j :: 0 <= j < k ==> outbreaks[j] < 12.0)
    ensures r.IndexError? ==> exists k :: (|velocities| <= k < |outbreaks| &&
      outbreaks[k] >= 12.0 && forall j :: 0 <= j < k ==> outbreaks[j] < 12.0)
    ensures |velocities| == |outbreaks| ==> !r.IndexError?
  {
    NormalisedDetection(outbreaks);
    match ThresholdDetection(Scale(outbreaks, PopulationSize), DefaultThreshold)
    case None => NoCrossing
    case Some(k) => if k < |velocities| then Threshold(velocities[k]) else IndexError
  }
}
