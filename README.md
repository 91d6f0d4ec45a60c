# Statistical inference laboratory — verified model

This project models the numeric core of the laboratory view of a web tool that
asks whether a series of asset returns drifts or is pure noise:

- `calculateStats` — a one-sample t-test of "the mean return is zero": sample
  size, mean, Bessel-corrected variance, standard deviation, standard error,
  t statistic, degrees of freedom, two-sided p-value, the confidence interval
  `mean ± tCrit·se`, the rejection flag and a four-level evidence label.
- the histogram loop of `processData` — the range `[min, max]` of the returns
  cut into 30 equal-width half-open bins, each carrying its midpoint, its
  empirical density `count / (n·step)` and the fitted normal density there.

Everything is over Dafny's exact `real`. The four numeric library calls
(`Math.sqrt`, `jStat.studentt.cdf`, `jStat.studentt.inv`, `jStat.normal.pdf`)
are fields of a `Library` record passed as a parameter; the ghost predicate
`Numerics.Sound` states the only facts the proofs use: the square root is
non-negative and zero only at zero; the t CDF lies in [0, 1], is 1/2 at 0, is
strictly increasing, and applying the CDF to the inverse CDF of any p in
(0, 1) gives back p; the normal
density is positive for a positive spread.

Files:

- `numerics.dfy` — module `Numerics`: the library record, its assumed facts,
  and the two order-under-scaling lemmas the other modules share.
- `folds.dfy` — module `Folds`: the `reduce` sum, `Math.min` / `Math.max`,
  negation of a series.
- `inference.dfy` — module `Inference`: `calculateStats` and its properties.
- `histogram.dfy` — module `Histogram`: the binning loop as a method, the bin
  sequence it builds as a function, and its properties; also the corrected
  binning described under Findings.
- `laboratory.dfy` — module `Laboratory`: `processData`, which feeds the
  statistics' mean and standard deviation to the histogram.

## Model

| member | source | states |
|---|---|---|
| Folds.Min | src/components/Laboratory.jsx:50 | `Math.min(...returns)` is an element of the series and at most every element |
| Folds.Max | src/components/Laboratory.jsx:51 | `Math.max(...returns)` is an element of the series and at least every element |
| Folds.SpreadIffExtremesDiffer | src/components/Laboratory.jsx:50-53 | the returns are not all equal exactly when min < max, i.e. exactly when the bin step is non-zero |
| Folds.SumBounds | src/components/Laboratory.jsx:10 | the `reduce` sum of n returns, each in [lo, hi], lies in [n·lo, n·hi] |
| Folds.SumNegate | src/components/Laboratory.jsx:10 | negating every return negates the `reduce` sum |
| Inference.Mean | src/components/Laboratory.jsx:10 | the mean `sum / n` lies between the smallest and the largest return |
| Inference.Square | src/components/Laboratory.jsx:11 | `Math.pow(d, 2)` is non-negative, and zero exactly when d is zero |
| Inference.SumSquaredDeviations | src/components/Laboratory.jsx:11 | the `reduce` sum of squared deviations is non-negative |
| Inference.Variance | src/components/Laboratory.jsx:11 | the Bessel-corrected variance is non-negative, and zero exactly when all returns are equal |
| Inference.Std | src/components/Laboratory.jsx:12 | the standard deviation is non-negative, and zero exactly when all returns are equal |
| Inference.StandardError | src/components/Laboratory.jsx:13 | `std / sqrt(n)` is non-negative, and zero exactly when all returns are equal |
| Inference.TStatistic | src/components/Laboratory.jsx:14 | `mean / se` is positive exactly when the mean is, and zero exactly when the mean is |
| Inference.DegreesOfFreedom | src/components/Laboratory.jsx:15 | df = n − 1, so df ≥ 1 for n ≥ 2 |
| Inference.Abs | src/components/Laboratory.jsx:16 | `Math.abs(t)` is non-negative and is either t or −t |
| Inference.PValue | src/components/Laboratory.jsx:16 | the two-sided p-value `2·(1 − cdf(abs(t), df))` is a probability in [0, 1] |
| Inference.Alpha | src/components/Laboratory.jsx:17 | alpha = 1 − confidence lies in (0, 1) |
| Inference.CriticalT | src/components/Laboratory.jsx:27 | `inv(1 − alpha/2, df)` is non-negative, because 1 − alpha/2 is above one half |
| Inference.Margin | src/components/Laboratory.jsx:28 | the margin `tCrit·se` is non-negative |
| Inference.Classify | src/components/Laboratory.jsx:19-24 | first match on p < 0.01, < 0.05, < 0.10: strong iff p < 0.01, moderate iff 0.01 ≤ p < 0.05, weak iff 0.05 ≤ p < 0.10, none iff p ≥ 0.10 |
| Inference.CalculateStats | src/components/Laboratory.jsx:8-31 | n = length, the mean lies between the extremes, std and se are positive, p in [0, 1], alpha in (0, 1), ciLow ≤ mean ≤ ciHigh, rejectH0 iff p < alpha, the caption matches the level |
| Inference.ComponentsUnderNegation | src/components/Laboratory.jsx:10-16 | negating every return negates mean and t and leaves variance, se and p-value unchanged |
| Inference.StatsUnderNegation | src/components/Laboratory.jsx:8-31 | the whole result for the negated series is the original with mean and t negated and the interval mirrored through zero |
| Inference.EvidenceUnderNegation | src/components/Laboratory.jsx:16-24 | negating every return keeps the evidence label |
| Inference.RejectIffIntervalExcludesZero | src/components/Laboratory.jsx:16-30 | rejectH0 holds exactly when the confidence interval leaves out zero: the test and the interval agree |
| Inference.MarginIncreasing | src/components/Laboratory.jsx:17-28 | a higher confidence level gives a strictly larger margin |
| Inference.WiderIntervalAtHigherConfidence | src/components/Laboratory.jsx:27-30 | a higher confidence level gives a strictly wider interval |
| Inference.LevelStringsDistinct | src/components/Laboratory.jsx:19-24 | the `evidenceLevel` strings and the `evidence` captions each tell the four levels apart |
| Inference.EvidenceMonotone | src/components/Laboratory.jsx:19-24 | a smaller p-value never yields a weaker label |
| Numerics.InvNonNegative | src/components/Laboratory.jsx:27 | under the assumed t-distribution facts, every quantile at or above the median is non-negative |
| Histogram.Step | src/components/Laboratory.jsx:53 | the step is positive exactly when min < max, and min + 30·step = max |
| Histogram.EdgesOrdered | src/components/Laboratory.jsx:56 | bin starts `min + i·step` do not decrease with i for a positive step |
| Histogram.BinEnd | src/components/Laboratory.jsx:57 | `binStart + step` of bin i is the start of bin i+1 |
| Histogram.Midpoint | src/components/Laboratory.jsx:58 | for a positive step the midpoint lies strictly inside its bin |
| Histogram.CountIn | src/components/Laboratory.jsx:59 | the `filter(...).length` count is at most n, and zero for an empty range |
| Histogram.Density | src/components/Laboratory.jsx:60 | `count / (days·step)` is non-negative |
| Histogram.BinAt | src/components/Laboratory.jsx:56-62 | a pushed bin has a non-negative empirical density, and a positive fitted density when std > 0 |
| Histogram.BuildHistogram | src/components/Laboratory.jsx:50-63 | the loop pushes exactly the bin sequence `Histogram` describes, bin i at index i |
| Histogram.Histogram | src/components/Laboratory.jsx:52-62 | the histogram has exactly 30 bins |
| Histogram.BinsTileRange | src/components/Laboratory.jsx:53-57 | bin 0 starts at min, bin i ends where bin i+1 starts, and the last bin ends at max |
| Histogram.HistogramAscending | src/components/Laboratory.jsx:56-58 | each bin's x is its midpoint, strictly inside the bin, and x ascends with the bin index |
| Histogram.BinIndex | src/components/Laboratory.jsx:56-59 | a value of [min, max) lies in bin ⌊(r − min)/step⌋ and in no other bin |
| Histogram.EachValueInOneBin | src/components/Laboratory.jsx:56-59 | every return below the maximum is counted in exactly one of the 30 bins |
| Histogram.MaximumInNoBin | src/components/Laboratory.jsx:57-59 | a return equal to the maximum lies in none of the half-open bins |
| Histogram.BinCountsMissMaximum | src/components/Laboratory.jsx:59 | the 30 counts add up to the number of returns strictly below the maximum, which is fewer than n |
| Histogram.DensitiesNonNegative | src/components/Laboratory.jsx:60 | each density is ≥ 0 and density·step is the bin's count divided by n |
| Histogram.FittedDensityPositive | src/components/Laboratory.jsx:61 | with a positive std the fitted normal density of every bin is positive |
| Histogram.HistogramMass | src/components/Laboratory.jsx:59-60 | the bars' total area is (n − #returns equal to max) / n, strictly below one |
| Histogram.TwoReturnsHalfMass | src/components/Laboratory.jsx:59-60 | for the returns [0, 1] the bars' total area is 1/2 |
| Histogram.ClosedHistogramAgrees | src/components/Laboratory.jsx:56-62 | the corrected histogram equals the built one in its first 29 bins and in the last bin's midpoint |
| Histogram.ClosedCountsCoverAll | src/components/Laboratory.jsx:59 | with the last bin closed at max, the counts add up to n |
| Histogram.ClosedHistogramMass | src/components/Laboratory.jsx:59-60 | with the last bin closed at max, the bars' total area is exactly one |
| Laboratory.ProcessData | src/components/Laboratory.jsx:45-63 | the statistics are `calculateStats` of the series, the bins are the histogram drawn with its mean and std, 30 of them, with non-negative empirical and positive fitted densities |

## Left out

- Fetching the series (`fetchData`, src/components/Laboratory.jsx:68-107): the HTTP request, its error handling and the `setTimeout` scheduling are I/O; the Box–Muller generator draws on `Math.random`, `Math.log` and `Math.cos`.
- All React state, effects, handlers and rendering (`setStats`, `setChartData` and the JSX), `src/components/Landing.jsx`, `src/App.jsx`, `server.py` and `vite.config.js`: presentation, view switching, a network server over foreign libraries, and build configuration.
- IEEE-754 arithmetic: the model is over exact reals, so rounding in `min + i*step`, in the sums and in the divisions is not captured.
- The internals of `Math.sqrt`, `jStat.studentt.cdf`, `jStat.studentt.inv` and `jStat.normal.pdf`: foreign numeric code, kept as parameters with the assumed facts listed above.
- Histogram.HistogramMass: states the exact-real behaviour. In doubles the last edge `min + 29·step + step` can round above max (for example to 3.0000000000000004 for the returns `[0, 3]`); the filter then counts the maximum and the area is one. That rounding is not modelled.
- Histogram.FittedDensityPositive: the normal density's formula is not modelled, only its positivity for a positive spread.
- Degenerate inputs: fewer than two returns, a confidence level outside (0, 1), or all returns equal. The code does not validate these; it would produce NaN or an infinite t statistic and 0/0 densities. They are preconditions (`Inference.WellDefined`, and min < max for the histogram) rather than modelled behaviour.
- Input errors: a caller might expect an error for invalid input. The code raises none and simply computes, so the model uses preconditions instead.
- The code's result object holds neither df, the critical value nor the margin; they are modelled as the functions `DegreesOfFreedom`, `CriticalT` and `Margin`.
- The fitted curve is whatever `jStat.normal.pdf` returns at the midpoint with the result's mean and std; the closed-form normal density is not part of this model.

## Findings

| source | as written | input that shows it | evidently intended | confidence | as-written member | corrected member |
|---|---|---|---|---|---|---|
| src/components/Laboratory.jsx:59 | every bin is half-open `[binStart, binEnd)`, and the last bin ends exactly at max, so over exact arithmetic returns equal to the maximum are never counted and the empirical densities integrate to less than one; in doubles this happens whenever the rounded last edge `min + 29·step + step` is at most max, as for `[0, 1]` | returns `[0, 1]`: the value 1 is in no bin and the bars' total area is 1/2 | the last bin closed at max, so every return is counted once and the density histogram has area one | medium — not executed | Histogram.HistogramMass, Histogram.TwoReturnsHalfMass | Histogram.ClosedHistogramMass |

The corrected binning (`Histogram.ClosedHistogram`) differs from the built one
only in the last bin's count (`Histogram.ClosedHistogramAgrees`).
`Laboratory.ProcessData` keeps the binning as written, since that is what the
chart shows.
