/** `calculateStats`: the one-sample t-test of "the mean return is zero" behind
    the laboratory view, with its confidence interval and evidence label. */
module Inference {
  import opened Numerics
  import opened Folds

  /** The editorial evidence scale; `Name` is the source's `evidenceLevel`
      string and `Caption` the `evidence` text shown to the user. */
  datatype EvidenceLevel = Strong | Moderate | Weak | NoEvidence
  {
    function Name(): string
    {
      match this
      case Strong => "strong"
      case Moderate => "moderate"
      case Weak => "weak"
      case NoEvidence => "none"
    }

    function Caption(): string
    {
      match this
      case Strong => "Evidencia Fuerte"
      case Moderate => "Evidencia Moderada"
      case Weak => "Evidencia Débil"
      case NoEvidence => "Sin evidencia"
    }

    /** How strong the evidence is: 3 for strong down to 0 for none. */
    function Rank(): nat
    {
      match this
      case Strong => 3
      case Moderate => 2
      case Weak => 1
      case NoEvidence => 0
    }
  }

  /** The object `calculateStats` returns. */
  datatype Stats = Stats(
    n: nat,
    mean: real,
    std: real,
    se: real,
    tStat: real,
    pValue: real,
    ciLow: real,
    ciHigh: real,
    rejectH0: bool,
    evidence: string,
    evidenceLevel: EvidenceLevel,
    alpha: real)

  /** The domain on which `calculateStats` computes finite values: at least two
      returns that are not all equal, and a confidence level strictly between 0 and 1. */
  predicate WellDefined(series: seq<real>, confidenceLevel: real)
  {
    |series| >= 2 && !AllEqual(series) && 0.0 < confidenceLevel < 1.0
  }

  function Abs(x: real): (r: real)
    ensures 0.0 <= r && (r == x || r == -x)
  {
    if x < 0.0 then -x else x
  }

  /** `Math.pow(d, 2)`: never negative, and zero only at zero. */
  function Square(d: real): (r: real)
    ensures 0.0 <= r
    ensures r == 0.0 <==> d == 0.0
  {
    SquareVanishes(d);
    d * d
  }

  /** `returns.reduce((a, b) => a + Math.pow(b - mean, 2), 0)` */
  function SumSquaredDeviations(s: seq<real>, m: real): (r: real)
    ensures 0.0 <= r
  {
    if s == [] then 0.0
    else SumSquaredDeviations(s[..|s| - 1], m) + Square(s[|s| - 1] - m)
  }

  /** The sample mean, which lies between the extremes of the series. */
  function Mean(s: seq<real>): (r: real)
    requires |s| >= 1
    ensures Min(s) <= r <= Max(s)
  {
    SumBounds(s, Min(s), Max(s));
    QuotientBounds(Sum(s), |s| as real, Min(s), Max(s));
    Sum(s) / |s| as real
  }

  /** The Bessel-corrected sample variance: never negative, and zero exactly
      when every return is the same. */
  function Variance(s: seq<real>): (r: real)
    requires |s| >= 2
    ensures 0.0 <= r
    ensures r == 0.0 <==> AllEqual(s)
  {
    DeviationsVanishIffAllEqual(s);
    SumSquaredDeviations(s, Mean(s)) / (|s| - 1) as real
  }

  /** `Math.sqrt(variance)`: zero exactly when every return is the same. */
  function Std(s: seq<real>, lib: Library): (r: real)
    requires Sound(lib) && |s| >= 2
    ensures 0.0 <= r
    ensures r == 0.0 <==> AllEqual(s)
  {
    var v := Variance(s);
    assert 0.0 <= lib.sqrt(v) && (lib.sqrt(v) == 0.0 <==> v == 0.0);
    lib.sqrt(v)
  }

  /** `std / Math.sqrt(n)`: zero exactly when every return is the same. */
  function StandardError(s: seq<real>, lib: Library): (r: real)
    requires Sound(lib) && |s| >= 2
    ensures 0.0 <= r
    ensures r == 0.0 <==> AllEqual(s)
  {
    SqrtPositive(lib, |s| as real);
    Std(s, lib) / lib.sqrt(|s| as real)
  }

  /** `mean / se`: it has the sign of the sample mean. */
  function TStatistic(s: seq<real>, lib: Library): (r: real)
    requires Sound(lib) && |s| >= 2 && !AllEqual(s)
    ensures 0.0 < r <==> 0.0 < Mean(s)
    ensures r == 0.0 <==> Mean(s) == 0.0
  {
    Mean(s) / StandardError(s, lib)
  }

  /** `n - 1`: at least one for a series of two or more returns. */
  function DegreesOfFreedom(s: seq<real>): (df: nat)
    requires |s| >= 2
    ensures 1 <= df && df + 1 == |s|
  {
    |s| - 1
  }

  /** The two-sided p-value `2 * (1 - cdf(|t|, df))`, a probability. */
  function PValue(s: seq<real>, lib: Library): (r: real)
    requires Sound(lib) && |s| >= 2 && !AllEqual(s)
    ensures 0.0 <= r <= 1.0
  {
    var df := DegreesOfFreedom(s);
    var t := Abs(TStatistic(s, lib));
    CdfOrder(lib, 0.0, t, df);
    2.0 * (1.0 - lib.studentTCdf(t, df))
  }

  /** `1 - confidenceLevel`, the significance level. */
  function Alpha(confidenceLevel: real): (r: real)
    requires 0.0 < confidenceLevel < 1.0
    ensures 0.0 < r < 1.0
  {
    1.0 - confidenceLevel
  }

  /** `jStat.studentt.inv(1 - alpha / 2, df)`: the two-sided critical value,
      non-negative since 1 - alpha/2 is above one half. */
  function CriticalT(s: seq<real>, confidenceLevel: real, lib: Library): (r: real)
    requires Sound(lib) && |s| >= 2 && 0.0 < confidenceLevel < 1.0
    ensures 0.0 <= r
  {
    var df := DegreesOfFreedom(s);
    var p := 1.0 - Alpha(confidenceLevel) / 2.0;
    InvNonNegative(lib, p, df);
    lib.studentTInv(p, df)
  }

  /** `tCrit * se`, the half-width of the confidence interval. */
  function Margin(s: seq<real>, confidenceLevel: real, lib: Library): (r: real)
    requires Sound(lib) && |s| >= 2 && 0.0 < confidenceLevel < 1.0
    ensures 0.0 <= r
  {
    CriticalT(s, confidenceLevel, lib) * StandardError(s, lib)
  }

  /** The if / else-if chain on the p-value; the first matching threshold wins,
      so the four levels partition the reals by the thresholds 0.01, 0.05, 0.10. */
  function Classify(p: real): (r: EvidenceLevel)
    ensures r == Strong <==> p < 0.01
    ensures r == Moderate <==> 0.01 <= p < 0.05
    ensures r == Weak <==> 0.05 <= p < 0.10
    ensures r == NoEvidence <==> 0.10 <= p
  {
    if p < 0.01 then Strong
    else if p < 0.05 then Moderate
    else if p < 0.10 then Weak
    else NoEvidence
  }

  /** `calculateStats(returns, confidenceLevel)`. */
  function CalculateStats(series: seq<real>, confidenceLevel: real, lib: Library): (r: Stats)
    requires Sound(lib) && WellDefined(series, confidenceLevel)
    ensures r.n == |series|
    ensures Min(series) <= r.mean <= Max(series)
    ensures 0.0 < r.std && 0.0 < r.se
    ensures 0.0 <= r.pValue <= 1.0
    ensures 0.0 < r.alpha < 1.0
    ensures r.ciLow <= r.mean <= r.ciHigh
    ensures r.rejectH0 <==> r.pValue < r.alpha
    ensures r.evidence == r.evidenceLevel.Caption()
  {
    var level := Classify(PValue(series, lib));
    var margin := Margin(series, confidenceLevel, lib);
    Stats(
      n := |series|,
      mean := Mean(series),
      std := Std(series, lib),
      se := StandardError(series, lib),
      tStat := TStatistic(series, lib),
      pValue := PValue(series, lib),
      ciLow := Mean(series) - margin,
      ciHigh := Mean(series) + margin,
      rejectH0 := PValue(series, lib) < Alpha(confidenceLevel),
      evidence := level.Caption(),
      evidenceLevel := level,
      alpha := Alpha(confidenceLevel))
  }

  // ---------------------------------------------------------------------------
  // Variance

  lemma QuotientOfSquare(d: real)
    requires d != 0.0
    ensures (d * d) / d == d
  {
  }

  /** A square is never negative, and it is zero only at zero (shown through
      the quotient d*d / d, which this solver handles better than the product). */
  lemma SquareVanishes(d: real)
    ensures 0.0 <= d * d
    ensures d * d == 0.0 ==> d == 0.0
  {
    if d != 0.0 {
      QuotientOfSquare(d);
    }
  }

  /** A quotient by a positive n of a number in [n*lo, n*hi] lies in [lo, hi]. */
  lemma QuotientBounds(x: real, n: real, lo: real, hi: real)
    requires 0.0 < n && n * lo <= x <= n * hi
    ensures lo <= x / n <= hi
  {
    var q := x / n;
    assert x == n * q;
    assert n * (q - lo) >= 0.0 && n * (hi - q) >= 0.0;
  }

  /** The squared deviations from m vanish exactly when every term equals m. */
  lemma {:induction false} DeviationsVanishIffAt(s: seq<real>, m: real)
    ensures SumSquaredDeviations(s, m) == 0.0 <==> forall i :: 0 <= i < |s| ==> s[i] == m
  {
    if s != [] {
      var p, x := s[..|s| - 1], s[|s| - 1];
      DeviationsVanishIffAt(p, m);
      assert forall i :: 0 <= i < |p| ==> p[i] == s[i];
    }
  }

  /** The mean of a constant series is that constant. */
  lemma MeanOfConstant(s: seq<real>)
    requires |s| >= 1 && AllEqual(s)
    ensures Mean(s) == s[0]
  {
    assert forall i :: 0 <= i < |s| ==> s[0] <= s[i] <= s[0];
    SumBounds(s, s[0], s[0]);
  }

  lemma DeviationsVanishIffAllEqual(s: seq<real>)
    requires |s| >= 1
    ensures SumSquaredDeviations(s, Mean(s)) == 0.0 <==> AllEqual(s)
  {
    DeviationsVanishIffAt(s, Mean(s));
    if AllEqual(s) {
      MeanOfConstant(s);
    }
  }

  // ---------------------------------------------------------------------------
  // Symmetry under negating the data

  /** Negating the data and the centre leaves every squared deviation unchanged. */
  lemma {:induction false} DeviationsNegate(s: seq<real>, m: real)
    ensures SumSquaredDeviations(Negate(s), -m) == SumSquaredDeviations(s, m)
  {
    if s != [] {
      var p := s[..|s| - 1];
      assert Negate(s)[..|s| - 1] == Negate(p);
      DeviationsNegate(p, m);
    }
  }

  lemma NegatedQuotient(x: real, y: real)
    requires y != 0.0
    ensures (-x) / y == -(x / y)
  {
  }

  lemma MeanUnderNegation(s: seq<real>)
    requires |s| >= 1
    ensures Mean(Negate(s)) == -Mean(s)
  {
    SumNegate(s);
    NegatedQuotient(Sum(s), |s| as real);
  }

  lemma VarianceUnderNegation(s: seq<real>)
    requires |s| >= 2
    ensures Variance(Negate(s)) == Variance(s)
  {
    MeanUnderNegation(s);
    DeviationsNegate(s, Mean(s));
  }

  lemma StandardErrorUnderNegation(s: seq<real>, lib: Library)
    requires Sound(lib) && |s| >= 2
    ensures Std(Negate(s), lib) == Std(s, lib)
    ensures StandardError(Negate(s), lib) == StandardError(s, lib)
  {
    VarianceUnderNegation(s);
  }

  lemma TStatisticUnderNegation(s: seq<real>, lib: Library)
    requires Sound(lib) && |s| >= 2 && !AllEqual(s)
    ensures !AllEqual(Negate(s))
    ensures TStatistic(Negate(s), lib) == -TStatistic(s, lib)
  {
    NegatePreservesSpread(s);
    MeanUnderNegation(s);
    StandardErrorUnderNegation(s, lib);
    NegatedQuotient(Mean(s), StandardError(s, lib));
  }

  lemma PValueUnderNegation(s: seq<real>, lib: Library)
    requires Sound(lib) && |s| >= 2 && !AllEqual(s)
    ensures !AllEqual(Negate(s))
    ensures PValue(Negate(s), lib) == PValue(s, lib)
  {
    TStatisticUnderNegation(s, lib);
    var t, t' := TStatistic(s, lib), TStatistic(Negate(s), lib);
    assert Abs(t') == Abs(t);
    assert DegreesOfFreedom(Negate(s)) == DegreesOfFreedom(s);
    assert PValue(Negate(s), lib) == 2.0 * (1.0 - lib.studentTCdf(Abs(t'), DegreesOfFreedom(s)));
  }

  /** Negating every return negates the mean and the t statistic and leaves
      the spread, and so the two-sided p-value and evidence label, unchanged. */
  lemma ComponentsUnderNegation(s: seq<real>, lib: Library)
    requires Sound(lib) && |s| >= 2 && !AllEqual(s)
    ensures !AllEqual(Negate(s))
    ensures Mean(Negate(s)) == -Mean(s)
    ensures Variance(Negate(s)) == Variance(s)
    ensures StandardError(Negate(s), lib) == StandardError(s, lib)
    ensures TStatistic(Negate(s), lib) == -TStatistic(s, lib)
    ensures PValue(Negate(s), lib) == PValue(s, lib)
  {
    MeanUnderNegation(s);
    VarianceUnderNegation(s);
    StandardErrorUnderNegation(s, lib);
    TStatisticUnderNegation(s, lib);
    PValueUnderNegation(s, lib);
  }

  /** The margin depends on the series only through its length and its
      standard error. */
  lemma MarginDependsOnSpread(s: seq<real>, t: seq<real>, confidenceLevel: real, lib: Library)
    requires Sound(lib) && |s| >= 2 && |s| == |t| && 0.0 < confidenceLevel < 1.0
    ensures StandardError(s, lib) == StandardError(t, lib) ==>
            Margin(s, confidenceLevel, lib) == Margin(t, confidenceLevel, lib)
  {
    assert CriticalT(s, confidenceLevel, lib) == CriticalT(t, confidenceLevel, lib);
  }

  /** The whole result under negation: mean, t statistic and interval are
      mirrored through zero; everything else is as before. */
  lemma StatsUnderNegation(series: seq<real>, confidenceLevel: real, lib: Library)
    requires Sound(lib) && WellDefined(series, confidenceLevel)
    ensures WellDefined(Negate(series), confidenceLevel)
    ensures var r := CalculateStats(series, confidenceLevel, lib);
            CalculateStats(Negate(series), confidenceLevel, lib) ==
              r.(mean := -r.mean, tStat := -r.tStat, ciLow := -r.ciHigh, ciHigh := -r.ciLow)
  {
    var t := Negate(series);
    ComponentsUnderNegation(series, lib);
    StandardErrorUnderNegation(series, lib);
    MarginDependsOnSpread(series, t, confidenceLevel, lib);
    var r, r' := CalculateStats(series, confidenceLevel, lib), CalculateStats(t, confidenceLevel, lib);
    assert r'.mean == -r.mean && r'.tStat == -r.tStat;
    assert r'.ciLow == -r.ciHigh && r'.ciHigh == -r.ciLow;
    assert r'.pValue == r.pValue && r'.evidenceLevel == r.evidenceLevel;
  }

  // ---------------------------------------------------------------------------
  // Test and interval agree

  /** `|m / se| > c` exactly when `|m| > c * se`, for a positive standard error. */
  lemma ScaledAbove(t: real, m: real, se: real, c: real, w: real)
    requires 0.0 < se && t == m / se && w == c * se
    ensures Abs(t) > c <==> Abs(m) > w
  {
    var a := Abs(m) / se;
    assert Abs(t) == a;
    assert Abs(m) == a * se;
    if a > c {
      assert a * se > c * se;
    } else {
      assert a * se <= c * se;
    }
  }

  /** `2 * (1 - c) < alpha` exactly when `c > 1 - alpha / 2`. */
  lemma TwoSidedBelow(p: real, c: real, alpha: real)
    requires p == 2.0 * (1.0 - c)
    ensures p < alpha <==> c > 1.0 - alpha / 2.0
  {
  }

  /** For a non-negative half-width w, `|m| > w` exactly when the interval
      m - w .. m + w leaves out zero. */
  lemma OutsideIffIntervalMissesZero(m: real, w: real)
    requires 0.0 <= w
    ensures Abs(m) > w <==> (0.0 < m - w || m + w < 0.0)
  {
  }

  /** The p-value is below alpha exactly when |t| exceeds the critical value. */
  lemma RejectIffBeyondCritical(series: seq<real>, confidenceLevel: real, lib: Library)
    requires Sound(lib) && WellDefined(series, confidenceLevel)
    ensures PValue(series, lib) < Alpha(confidenceLevel) <==>
            Abs(TStatistic(series, lib)) > CriticalT(series, confidenceLevel, lib)
  {
    var df := DegreesOfFreedom(series);
    var alpha := Alpha(confidenceLevel);
    var crit := CriticalT(series, confidenceLevel, lib);
    var t := Abs(TStatistic(series, lib));
    assert lib.studentTCdf(crit, df) == 1.0 - alpha / 2.0;
    TwoSidedBelow(PValue(series, lib), lib.studentTCdf(t, df), alpha);
    CdfOrder(lib, t, crit, df);
  }

  /** The p-value is below alpha exactly when the mean is further from zero
      than the margin. */
  lemma RejectIffMeanBeyondMargin(series: seq<real>, confidenceLevel: real, lib: Library)
    requires Sound(lib) && WellDefined(series, confidenceLevel)
    ensures PValue(series, lib) < Alpha(confidenceLevel) <==>
            Abs(Mean(series)) > Margin(series, confidenceLevel, lib)
  {
    var t, m, se := TStatistic(series, lib), Mean(series), StandardError(series, lib);
    var crit, w := CriticalT(series, confidenceLevel, lib), Margin(series, confidenceLevel, lib);
    RejectIffBeyondCritical(series, confidenceLevel, lib);
    ScaledAbove(t, m, se, crit, w);
  }

  /** H0 is rejected at level alpha exactly when the confidence interval at the
      same level leaves out zero: the t-test and the interval agree. */
  lemma RejectIffIntervalExcludesZero(series: seq<real>, confidenceLevel: real, lib: Library)
    requires Sound(lib) && WellDefined(series, confidenceLevel)
    ensures var r := CalculateStats(series, confidenceLevel, lib);
            r.rejectH0 <==> (0.0 < r.ciLow || r.ciHigh < 0.0)
  {
    RejectIffMeanBeyondMargin(series, confidenceLevel, lib);
    OutsideIffIntervalMissesZero(Mean(series), Margin(series, confidenceLevel, lib));
  }

  /** The interval is the mean plus or minus the margin. */
  lemma IntervalWidth(series: seq<real>, confidenceLevel: real, lib: Library)
    requires Sound(lib) && WellDefined(series, confidenceLevel)
    ensures var r := CalculateStats(series, confidenceLevel, lib);
            r.ciHigh - r.ciLow == 2.0 * Margin(series, confidenceLevel, lib)
  {
  }

  /** A higher confidence level gives a strictly larger margin. */
  lemma MarginIncreasing(series: seq<real>, c1: real, c2: real, lib: Library)
    requires Sound(lib) && WellDefined(series, c1) && WellDefined(series, c2) && c1 < c2
    ensures Margin(series, c1, lib) < Margin(series, c2, lib)
  {
    var df := DegreesOfFreedom(series);
    InvStrictlyIncreasing(lib, 1.0 - Alpha(c1) / 2.0, 1.0 - Alpha(c2) / 2.0, df);
    var se := StandardError(series, lib);
    var k1, k2 := CriticalT(series, c1, lib), CriticalT(series, c2, lib);
    ScaleStrictlyMonotone(k1, k2, se);
    assert Margin(series, c1, lib) == k1 * se && Margin(series, c2, lib) == k2 * se;
  }

  /** A higher confidence level gives a strictly wider interval. */
  lemma WiderIntervalAtHigherConfidence(series: seq<real>, c1: real, c2: real, lib: Library)
    requires Sound(lib) && WellDefined(series, c1) && WellDefined(series, c2) && c1 < c2
    ensures var r1, r2 := CalculateStats(series, c1, lib), CalculateStats(series, c2, lib);
            r2.ciHigh - r2.ciLow > r1.ciHigh - r1.ciLow
  {
    MarginIncreasing(series, c1, c2, lib);
    IntervalWidth(series, c1, lib);
    IntervalWidth(series, c2, lib);
  }


  // ---------------------------------------------------------------------------
  // Evidence label

  /** A smaller p-value never yields a weaker label. */
  lemma EvidenceMonotone(p: real, q: real)
    requires p <= q
    ensures Classify(q).Rank() <= Classify(p).Rank()
  {
  }

  /** The `evidenceLevel` and `evidence` strings each tell the four levels
      apart, so the strings the result carries determine the level. */
  lemma LevelStringsDistinct(a: EvidenceLevel, b: EvidenceLevel)
    ensures a.Name() == b.Name() <==> a == b
    ensures a.Caption() == b.Caption() <==> a == b
  {
  }

  /** The label follows only the p-value, so negating the data keeps it. */
  lemma EvidenceUnderNegation(series: seq<real>, confidenceLevel: real, lib: Library)
    requires Sound(lib) && WellDefined(series, confidenceLevel)
    ensures WellDefined(Negate(series), confidenceLevel)
    ensures CalculateStats(Negate(series), confidenceLevel, lib).evidenceLevel ==
            CalculateStats(series, confidenceLevel, lib).evidenceLevel
  {
    StatsUnderNegation(series, confidenceLevel, lib);
  }
}
