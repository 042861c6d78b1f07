# Critical-velocity analysis: a verified model

This project models the numeric core of two analysis scripts of an
epidemic-spreading study in which agents move at a mean velocity `v`. Above a
critical velocity the outbreak becomes extensive. The scripts compare that
threshold, as found in simulation output, with closed-form theory for three
velocity distributions: uniform, exponential and power law with exponent `q`.

The model covers:

- **Physical constants** (`constants.dfy`, module `ModelConstants`). They are
  rho = 2/45 and Phi = 1.4 · rho · 4 · 200 = 448/9, so the uniform critical
  velocity 2/Phi is exactly 9/224.
- **The three closed-form models and the collapse transform**
  (`plot_collapse.dfy`, module `PlotCollapse`):
  - outbreak size `1 + v / D(v)`, whose pole is the critical velocity;
  - the second moments `v²`, `v²/2` and `factor · v²`;
  - the collapse `v / <v²>(v)`;
  - the `linspace` resampling grid and `arange` sampling;
  - the two plotting loops, which pair curves with formulas drawn from shared
    `itertools.cycle` iterators.
- **Threshold detection and the sweep** (`pl_exponent_analysis.dfy`, module
  `PlExponentAnalysis`):
  - first-crossing threshold detection;
  - the exponent scaling curve `alpha_curve`;
  - the loop over power-law exponents that records critical velocities;
  - the uniform-data threshold.

Every quantity is a Dafny `real`. An outbreak size is `Finite(x)`, or `Pole`
where its denominator is zero; there a positive v is divided by zero and numpy
yields an infinity.

`calculate_critical_velocities` is a method with a loop. It is proved equal to
the specification function `Sweep`. Lemmas about `Sweep` state what the source
promises: filtering, order and range.

`plot_simulations` and `plot_theoretical` are methods with loops. Each advances
a cycle position, and the formula at position `p` is `CycleModel(p)` (`p mod 3`).

A note on the source as written: `exp_square_v` is `v²/2`, while the
exponential outbreak denominator uses the ratio `<v²>/<v> = 2v`. So the
exponential pole collapses to `2 Phi`, while the uniform and power-law poles
collapse to `Phi / 2` (`CollapsedPoles`). The model keeps `v²/2` as written.

Two properties of the code are worth stating plainly:

- `alpha_curve(q) = (q-3)(q-1)/(q-2)² = 1 - 1/(q-2)²` increases with `q`
  (`AlphaCurveIncreasing`).
- No error is raised at a pole. numpy's division yields an infinity there,
  which the model represents as `Pole`.

## Model

| member | source | states |
|---|---|---|
| ModelConstants.ConstantsAreExact | code/analysis_and_data/scripts/plot_collapse.py:34-38 | rho = 2/45, Phi = 448/9 and 2/Phi = 9/224 exactly, with Phi > 0 |
| PlotCollapse.PowerLawFactor | code/analysis_and_data/scripts/plot_collapse.py:54-57 | the factor (g-2)²/((g-3)(g-1)) equals 1 + 1/((g-3)(g-1)), so it exceeds 1 for g > 3 |
| PlotCollapse.Denominator | code/analysis_and_data/scripts/plot_collapse.py:45-56 | the denominator 2/Phi - <v²>/<v> of each model equals 2/Phi exactly at v = 0 and lies below 2/Phi exactly for v > 0 |
| PlotCollapse.CriticalVelocity | code/analysis_and_data/scripts/plot_collapse.py:44-57 | each model's critical velocity is positive, and the model's outbreak denominator is zero there |
| PlotCollapse.DenominatorSign | code/analysis_and_data/scripts/plot_collapse.py:44-57 | the denominator is positive exactly below the critical velocity, and zero exactly at it |
| PlotCollapse.OutbreakSize | code/analysis_and_data/scripts/plot_collapse.py:44-57 | the size is a pole exactly at the critical velocity; it is at least 1 on [0, vc), more than 1 on (0, vc), and below 1 above vc |
| PlotCollapse.PolesAreThresholds | code/analysis_and_data/scripts/plot_collapse.py:214 | the three poles are the entries 2/Phi, 1/Phi and (3/4)(2/Phi) of v_thresholds, in cycle order; the factor at g = 4 is 4/3 |
| PlotCollapse.MomentCoefficient | code/analysis_and_data/scripts/plot_collapse.py:85-97 | every second moment has a positive coefficient: 1 uniform, 1/2 exponential, 4/3 for the power law with p = 4 |
| PlotCollapse.SecondMoment | code/analysis_and_data/scripts/plot_collapse.py:85-97 | each second-moment function is its model's coefficient times v² |
| PlotCollapse.SecondMomentPositive | code/analysis_and_data/scripts/plot_collapse.py:85-97 | every second moment is strictly positive for v ≠ 0 |
| PlotCollapse.Collapse | code/analysis_and_data/scripts/plot_collapse.py:135 | the collapse preserves length and maps each v to 1/(c v), c being the moment coefficient |
| PlotCollapse.CollapseClosedForms | code/analysis_and_data/scripts/plot_collapse.py:165 | the collapse gives 1/v (uniform), 2/v (exponential) and 3/(4v) (power law, p = 4) |
| PlotCollapse.CollapsedPoles | code/analysis_and_data/scripts/plot_collapse.py:162-165 | the uniform and power-law poles collapse to Phi/2; the exponential pole collapses to 2 Phi |
| PlotCollapse.Scale | code/analysis_and_data/scripts/plot_collapse.py:140 | r_infi / N preserves length, and each entry times N gives back the original |
| PlotCollapse.Min | code/analysis_and_data/scripts/plot_collapse.py:80 | min(velocity_data) is an element and bounds every element from below |
| PlotCollapse.Max | code/analysis_and_data/scripts/plot_collapse.py:80 | max(velocity_data) is an element and bounds every element from above |
| PlotCollapse.Linspace | code/analysis_and_data/scripts/plot_collapse.py:80 | num points; the first is lo and the last is hi; all lie in [lo, hi]; they strictly increase when lo < hi |
| PlotCollapse.LinspaceEvenlySpaced | code/analysis_and_data/scripts/plot_collapse.py:80 | consecutive grid points are (hi - lo)/(num - 1) apart |
| PlotCollapse.Resample | code/analysis_and_data/scripts/plot_collapse.py:76-82 | the grid has num points from min to max of the velocities, and every value is the spline at its grid point |
| PlotCollapse.ArangeLengthBounds | code/analysis_and_data/scripts/plot_collapse.py:162 | the last arange sample lies below stop, and the next one would reach it |
| PlotCollapse.ArangeLength | code/analysis_and_data/scripts/plot_collapse.py:162 | arange yields no sample exactly when stop <= start |
| PlotCollapse.Arange | code/analysis_and_data/scripts/plot_collapse.py:162 | every arange sample lies in [start, stop) |
| PlotCollapse.ArangeSamples | code/analysis_and_data/scripts/plot_collapse.py:162 | sample k is start + k·step, and the first sample left out reaches stop, so none is missing |
| PlotCollapse.OutbreakCurve | code/analysis_and_data/scripts/plot_collapse.py:163 | r_theo has one outbreak size per sample, computed element by element |
| PlotCollapse.SamplesBelowPole | code/analysis_and_data/scripts/plot_collapse.py:162-163 | every sample from a non-negative start up to a model's pole gives a finite outbreak size of at least 1 |
| PlotCollapse.CycleModel | code/analysis_and_data/scripts/plot_collapse.py:100-104 | position p of a formula cycle holds a valid model: the uniform, exponential or power-law (p = 4) formula exactly when p mod 3 is 0, 1 or 2 |
| PlotCollapse.CycleReturns | code/analysis_and_data/scripts/plot_collapse.py:100-104 | consuming 3·k more entries returns a cycle to the same formula |
| PlotCollapse.SimulatedSeries | code/analysis_and_data/scripts/plot_collapse.py:135-146 | the collapsed velocities and r_infi / N have one point per velocity |
| PlotCollapse.PlotSimulations | code/analysis_and_data/scripts/plot_collapse.py:113-148 | pair i is collapsed with the formula at cycle position start + i, and the cycle ends one position on per pair |
| PlotCollapse.TheoryCurve | code/analysis_and_data/scripts/plot_collapse.py:162-170 | a theoretical curve has as many x values as y values |
| PlotCollapse.TheoryX | code/analysis_and_data/scripts/plot_collapse.py:165 | the collapsed x values are one per arange sample |
| PlotCollapse.TheoryXValues | code/analysis_and_data/scripts/plot_collapse.py:162-165 | x value k of a theoretical curve is 1/(c · (0.01 + k·eps)), c being the moment coefficient |
| PlotCollapse.TheoryY | code/analysis_and_data/scripts/plot_collapse.py:163 | the outbreak sizes divided by N are one per arange sample |
| PlotCollapse.TheoryYValues | code/analysis_and_data/scripts/plot_collapse.py:162-170 | y value k of a theoretical curve is the outbreak size at 0.01 + k·eps divided by N, and a pole exactly where that size is a pole |
| PlotCollapse.ScaleSizes | code/analysis_and_data/scripts/plot_collapse.py:170 | r_theo / N keeps poles as poles, and each finite value times N gives back the original |
| PlotCollapse.PlotTheoretical | code/analysis_and_data/scripts/plot_collapse.py:151-175 | zip yields as many curves as the shorter of the two lists; curve i uses threshold i, step i and the formulas at positions start + i; both cycles advance once more when the steps run out first |
| PlotCollapse.TheoryCurvesOfScript | code/analysis_and_data/scripts/plot_collapse.py:214-217 | in the script's run, curve i pairs outbreak formula i with the same second moment (the moment cycle is at 3 + i), and every outbreak value is finite and at least 1 |
| PlotCollapse.PlotScript | code/analysis_and_data/scripts/plot_collapse.py:197-217 | plot_simulations over three files then plot_theoretical: simulated pair i uses the formula at position i, theoretical curve i uses outbreak and second moment of the same model i, and every theoretical outbreak value is finite and at least 1 |
| PlExponentAnalysis.Where | code/analysis_and_data/scripts/pl_exponent_analysis.py:44 | np.where lists exactly the indices whose value reaches the threshold, in ascending order |
| PlExponentAnalysis.MinIndex | code/analysis_and_data/scripts/pl_exponent_analysis.py:45 | .min() is an element of the index array and at most every element |
| PlExponentAnalysis.ThresholdDetection | code/analysis_and_data/scripts/pl_exponent_analysis.py:43-45 | None exactly when no value reaches the threshold; otherwise the index of a value at or above the threshold, with every earlier value below it |
| PlExponentAnalysis.FirstCrossingUnique | code/analysis_and_data/scripts/pl_exponent_analysis.py:43-45 | the first-crossing contract determines the result uniquely |
| PlExponentAnalysis.DetectionUnderScaling | code/analysis_and_data/scripts/pl_exponent_analysis.py:59 | detection on r / n with a threshold gives the same answer as detection on r with threshold · n |
| PlExponentAnalysis.NormalisedDetection | code/analysis_and_data/scripts/pl_exponent_analysis.py:59-70 | the default threshold 0.012 on r_infi / 1000 picks the same index as 12 on the raw counts |
| PlExponentAnalysis.DetectionExamples | code/analysis_and_data/scripts/pl_exponent_analysis.py:43-45 | a worked case: the first value reaching 0.012 is at index 2, and a curve that stays below has no crossing |
| PlExponentAnalysis.AlphaCurve | code/analysis_and_data/scripts/pl_exponent_analysis.py:48-50 | (q-3)(q-1)/(q-2)² equals 1 - 1/(q-2)² |
| PlExponentAnalysis.AlphaCurveBounds | code/analysis_and_data/scripts/pl_exponent_analysis.py:48-50 | the curve lies strictly between 0 and 1 for q > 3 |
| PlExponentAnalysis.AlphaCurveAtFour | code/analysis_and_data/scripts/pl_exponent_analysis.py:48-50 | alpha_curve(4) = 3/4 |
| PlExponentAnalysis.AlphaCurveIncreasing | code/analysis_and_data/scripts/pl_exponent_analysis.py:48-50 | the curve strictly increases with q |
| PlExponentAnalysis.AlphaCurveApproachesOne | code/analysis_and_data/scripts/pl_exponent_analysis.py:123-127 | beyond q = 2 + 1/eps the curve is within eps of 1 |
| PlExponentAnalysis.AlphaCurveIsCriticalRatio | code/analysis_and_data/scripts/pl_exponent_analysis.py:48-50 | the curve is the reciprocal of the power-law factor, and times 2/Phi it is the power-law critical velocity |
| PlExponentAnalysis.MappingExponentsOrdered | code/analysis_and_data/scripts/pl_exponent_analysis.py:20-28 | every mapped exponent exceeds 3, and the curve values lie in (0, 1) and rise in mapping order |
| PlExponentAnalysis.TheoryRatiosAreAlphaCurve | code/analysis_and_data/scripts/pl_exponent_analysis.py:104-113 | dividing theoretical power-law critical velocities by v_c, as the q-plot does with simulated ones, gives alpha_curve |
| PlExponentAnalysis.SweepGrid | code/analysis_and_data/scripts/pl_exponent_analysis.py:61 | each entry is resampled on 500 grid points |
| PlExponentAnalysis.SweepValues | code/analysis_and_data/scripts/pl_exponent_analysis.py:61 | the resampled values are the spline at the grid points |
| PlExponentAnalysis.CrossingVelocity | code/analysis_and_data/scripts/pl_exponent_analysis.py:61-73 | None exactly when no resampled value reaches the threshold; otherwise a velocity in [min, max] of the raw velocities where the spline reaches the threshold |
| PlExponentAnalysis.CrossingIsFirstGridPoint | code/analysis_and_data/scripts/pl_exponent_analysis.py:70-73 | a recorded velocity is the grid point of the first crossing |
| PlExponentAnalysis.Crossings | code/analysis_and_data/scripts/pl_exponent_analysis.py:55-73 | one crossing per mapping entry, in mapping order |
| PlExponentAnalysis.Present | code/analysis_and_data/scripts/pl_exponent_analysis.py:72-73 | the list of appended crossings is no longer than the entries, and every value in it is a present crossing |
| PlExponentAnalysis.PresentIndicesSound | code/analysis_and_data/scripts/pl_exponent_analysis.py:72-73 | the kept positions ascend and each holds a crossing |
| PlExponentAnalysis.PresentIndicesComplete | code/analysis_and_data/scripts/pl_exponent_analysis.py:72-73 | every entry with a crossing is kept |
| PlExponentAnalysis.PresentMatchesIndices | code/analysis_and_data/scripts/pl_exponent_analysis.py:72-73 | kept value j is the crossing of kept position j |
| PlExponentAnalysis.PresentInOrder | code/analysis_and_data/scripts/pl_exponent_analysis.py:72-73 | appending only the found crossings keeps exactly those, once each, in order |
| PlExponentAnalysis.PresentStep | code/analysis_and_data/scripts/pl_exponent_analysis.py:72-73 | one more entry appends its value if present, and nothing otherwise |
| PlExponentAnalysis.Sweep | code/analysis_and_data/scripts/pl_exponent_analysis.py:53-75 | the returned velocities are at most one per entry, and each is the crossing velocity of some entry |
| PlExponentAnalysis.SweepStep | code/analysis_and_data/scripts/pl_exponent_analysis.py:55-73 | one more mapping entry appends that entry's crossing, if it has one |
| PlExponentAnalysis.CrossingFromResample | code/analysis_and_data/scripts/pl_exponent_analysis.py:61-73 | resampling and then detecting gives the entry's crossing velocity |
| PlExponentAnalysis.CalculateCriticalVelocities | code/analysis_and_data/scripts/pl_exponent_analysis.py:53-75 | the loop returns exactly the crossing velocities of the entries that cross, in mapping order |
| PlExponentAnalysis.SweepFiltersInOrder | code/analysis_and_data/scripts/pl_exponent_analysis.py:53-75 | result j is the crossing of the j-th crossing entry; results are in mapping order, at most one per entry, none missing, each within its entry's [min, max] |
| PlExponentAnalysis.UniformThreshold | code/analysis_and_data/scripts/pl_exponent_analysis.py:78-84 | no crossing exactly when every raw count is below 12; otherwise the velocity at the first count of at least 12, or an index error when that count lies past the last velocity |

## Left out

- The scipy `interp1d` cubic spline is an input. Each sweep entry carries it as a function `real -> real`; the spline fit is not modelled. So are interp1d's own errors, such as fewer than four points.
- File loading is not modelled. That covers `np.load`, `data_loader`, its paths, and the fallback from the N=5k to the N=1k folder. Data arrives as parameters.
- Plotting is not modelled. That covers matplotlib, the `colors`, `labels` and `label_sim` cycles, axis limits, the `alpha < 6 or alpha > 8` plot filter (so the sweep entries carry no exponent), and the `print` calls in the second-moment functions.
- IEEE floating point is not modelled. Every quantity is an exact `real`, so the rounding of `arange` and `linspace` is absent.
- PlotCollapse.Valid: only power-law exponents above 3 are modelled. The factor divides by zero at 3 (and at 1), the power-law second moment diverges for exponents at or below 3, and the script only uses exponent 4.
- PlotSimulations: the unused `calculate_interpolation(..., num=50)` call is not modelled. Its result only feeds commented-out plots.
- PlotTheoretical: the formulas come from cycle positions passed in. The function's `outbreak` parameter is shadowed by the global cycle, and the model does not reproduce that.
- CalculateCriticalVelocities: the mapping is a parameter. The source ignores its `files` parameter and reads the global mapping. The threshold is a parameter, and the source uses the default 0.012.
- The q-plot's division of all seven exponents' velocities by `v_c` is stated only for the theoretical ratios (TheoryRatiosAreAlphaCurve). When fewer crossings exist, the source pairs seven exponents with fewer values, and that mismatch is not modelled.
- UniformThreshold: when no count crosses, numpy indexes with `None`, which adds an axis instead of failing. The model returns `NoCrossing` in that case. The velocity array, which the function also returns unchanged, is not part of the result.
- Collapse: velocities must be nonzero. At v = 0 numpy yields NaN (0/0), which the model excludes; every theoretical sample is at least 0.01, and the simulated data are required to avoid 0.
- Arange: only positive steps are modelled, as every call site uses.
- The `p_values` grid of the theoretical q-curve (`np.arange(3.5, 10, 0.01)`) is not sampled. The curve's properties are stated for every q > 3 instead.
