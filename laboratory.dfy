/** `processData`: the statistics of a series, then the histogram drawn with
    the mean and standard deviation those statistics report. The React state
    setters that receive both results are left out. */
module Laboratory {
  import opened Numerics
  import opened Folds
  import opened Inference
  import opened Histogram

  method ProcessData(series: seq<real>, confidence: real, lib: Library) returns (stats: Stats, bins: seq<Bin>)
    requires Sound(lib) && WellDefined(series, confidence)
    ensures stats == CalculateStats(series, confidence, lib)
    ensures bins == Histogram.Histogram(series, stats.mean, stats.std, lib)
    ensures |bins| == BinCount
    ensures forall i :: 0 <= i < BinCount ==> 0.0 <= bins[i].freq && 0.0 < bins[i].pdf
  {
    stats := CalculateStats(series, confidence, lib);
    SpreadIffExtremesDiffer(series);
    bins := BuildHistogram(series, stats.mean, stats.std, lib);
    DensitiesNonNegative(series, stats.mean, stats.std, lib);
    FittedDensityPositive(series, stats.mean, stats.std, lib);
  }
}
