/** The histogram built in `processData`: the range [min, max] of the returns
    is cut into 30 equal-width half-open bins, and each bin carries its
    midpoint, its empirical density and the fitted normal density there. */
module Histogram {
  import opened Numerics
  import opened Folds

  /** `binCount` */
  const BinCount: nat := 30

  /** One pushed point: `{ x: mid, freq: density, pdf: normalY }`. */
  datatype Bin = Bin(x: real, freq: real, pdf: real)

  /** `returns.filter(r => r >= lo && r < hi).length` */
  function CountIn(s: seq<real>, lo: real, hi: real): (c: nat)
    ensures c <= |s|
    ensures hi <= lo ==> c == 0
  {
    if s == [] then 0
    else CountIn(s[..|s| - 1], lo, hi) + (if lo <= s[|s| - 1] < hi then 1 else 0)
  }

  /** How many returns equal v. */
  function Occurrences(s: seq<real>, v: real): (c: nat)
    ensures c <= |s|
  {
    if s == [] then 0
    else Occurrences(s[..|s| - 1], v) + (if s[|s| - 1] == v then 1 else 0)
  }

  /** `(max - min) / binCount` */
  function Step(s: seq<real>): (step: real)
    requires |s| >= 1
    ensures Min(s) < Max(s) <==> 0.0 < step
    ensures Min(s) + BinCount as real * step == Max(s)
  {
    (Max(s) - Min(s)) / BinCount as real
  }

  /** `min + i * step` */
  function BinStart(lo: real, step: real, i: int): real
  {
    lo + i as real * step
  }

  /** `binStart + step` */
  function BinEnd(lo: real, step: real, i: int): (end: real)
    ensures end == BinStart(lo, step, i + 1)
  {
    assert (i + 1) as real * step == i as real * step + step;
    BinStart(lo, step, i) + step
  }

  /** `(binStart + binEnd) / 2` */
  function Midpoint(lo: real, step: real, i: int): (mid: real)
    ensures 0.0 < step ==> BinStart(lo, step, i) < mid < BinEnd(lo, step, i)
  {
    (BinStart(lo, step, i) + BinEnd(lo, step, i)) / 2.0
  }

  /** The filter's test: r lies in the half-open bin [binStart, binEnd). */
  predicate InBin(r: real, lo: real, step: real, i: int)
  {
    BinStart(lo, step, i) <= r < BinEnd(lo, step, i)
  }

  /** `count / (days * step)` */
  function Density(count: nat, days: nat, step: real): (d: real)
    requires 1 <= days && 0.0 < step
    ensures 0.0 <= d
  {
    ScaleStrictlyMonotone(0.0, days as real, step);
    count as real / (days as real * step)
  }

  /** Bin i of the histogram whose first bin starts at lo, for n returns. */
  function BinAt(s: seq<real>, lo: real, step: real, mean: real, std: real, lib: Library, i: int): (b: Bin)
    requires |s| >= 1 && 0.0 < step
    ensures 0.0 <= b.freq
    ensures Sound(lib) && 0.0 < std ==> 0.0 < b.pdf
  {
    Bin(Midpoint(lo, step, i), Density(CountIn(s, BinStart(lo, step, i), BinEnd(lo, step, i)), |s|, step),
        lib.normalPdf(Midpoint(lo, step, i), mean, std))
  }

  /** The whole bin sequence the loop builds. */
  function Histogram(s: seq<real>, mean: real, std: real, lib: Library): (h: seq<Bin>)
    requires |s| >= 1 && Min(s) < Max(s)
    ensures |h| == BinCount
  {
    seq(BinCount, i requires 0 <= i < BinCount => BinAt(s, Min(s), Step(s), mean, std, lib, i))
  }

  /** The binning loop of `processData`, which pushes one bin per index. */
  method BuildHistogram(series: seq<real>, mean: real, std: real, lib: Library) returns (bins: seq<Bin>)
    requires |series| >= 1 && Min(series) < Max(series)
    ensures bins == Histogram(series, mean, std, lib)
  {
    var days := |series|;
    var min := Min(series);
    var max := Max(series);
    var step := (max - min) / BinCount as real;
    StepPositive(min, max);
    bins := [];
    for i := 0 to BinCount
      invariant |bins| == i
      invariant forall k :: 0 <= k < i ==> bins[k] == BinAt(series, min, step, mean, std, lib, k)
    {
      var binStart := BinStart(min, step, i);
      var binEnd := BinEnd(min, step, i);
      var mid := Midpoint(min, step, i);
      var count := CountIn(series, binStart, binEnd);
      var density := Density(count, days, step);
      var normalY := lib.normalPdf(mid, mean, std);
      bins := bins + [Bin(mid, density, normalY)];
    }
  }

  // ---------------------------------------------------------------------------
  // Arithmetic on bin edges

  /** A positive range cut into 30 gives a positive step. */
  lemma StepPositive(lo: real, hi: real)
    requires lo < hi
    ensures 0.0 < (hi - lo) / BinCount as real
  {
  }

  lemma QuotientTimesDivisor(a: real, c: real)
    requires 0.0 < c
    ensures (a / c) * c == a
  {
  }

  /** A bin ends where the next one starts. */
  lemma NextEdge(lo: real, step: real, i: int)
    ensures BinEnd(lo, step, i) == BinStart(lo, step, i + 1)
  {
    assert (i + 1) as real * step == i as real * step + step;
  }

  /** Thirty steps of (hi - lo) / 30 lead from lo to hi. */
  lemma LastEdge(lo: real, hi: real)
    ensures BinStart(lo, (hi - lo) / BinCount as real, BinCount) == hi
  {
    var step := (hi - lo) / BinCount as real;
    assert BinCount as real * step == hi - lo;
    assert BinStart(lo, step, BinCount) == lo + BinCount as real * step;
  }

  /** Bin edges move up with the index. */
  lemma EdgesOrdered(lo: real, step: real, i: int, j: int)
    requires 0.0 < step && i <= j
    ensures BinStart(lo, step, i) <= BinStart(lo, step, j)
  {
    ScaleMonotone(i as real, j as real, step);
    assert BinStart(lo, step, i) == lo + i as real * step;
    assert BinStart(lo, step, j) == lo + j as real * step;
  }

  // ---------------------------------------------------------------------------
  // Shape of the histogram

  /** Consecutive bins share an edge, and the 30 bins run from the minimum
      exactly to the maximum. */
  lemma BinsTileRange(s: seq<real>)
    requires |s| >= 1 && Min(s) < Max(s)
    ensures BinStart(Min(s), Step(s), 0) == Min(s)
    ensures BinEnd(Min(s), Step(s), BinCount - 1) == Max(s)
    ensures forall i :: 0 <= i < BinCount - 1 ==>
              BinEnd(Min(s), Step(s), i) == BinStart(Min(s), Step(s), i + 1)
  {
    var lo, step := Min(s), Step(s);
    forall i | 0 <= i < BinCount - 1
      ensures BinEnd(lo, step, i) == BinStart(lo, step, i + 1)
    {
      NextEdge(lo, step, i);
    }
    NextEdge(lo, step, BinCount - 1);
    LastEdge(lo, Max(s));
  }

  /** A bin's midpoint lies strictly inside it. */
  lemma MidpointInside(lo: real, step: real, i: int)
    requires 0.0 < step
    ensures BinStart(lo, step, i) < Midpoint(lo, step, i) < BinEnd(lo, step, i)
  {
  }

  /** Midpoints ascend with the bin index. */
  lemma MidpointsAscend(lo: real, step: real, i: int, j: int)
    requires 0.0 < step && i < j
    ensures Midpoint(lo, step, i) < Midpoint(lo, step, j)
  {
    MidpointInside(lo, step, i);
    MidpointInside(lo, step, j);
    NextEdge(lo, step, i);
    EdgesOrdered(lo, step, i + 1, j);
  }

  /** Each bin's x is its midpoint, strictly inside the bin, and the x values
      ascend with the bin index. */
  lemma HistogramAscending(s: seq<real>, mean: real, std: real, lib: Library)
    requires |s| >= 1 && Min(s) < Max(s)
    ensures var h := Histogram(s, mean, std, lib);
            forall i :: 0 <= i < BinCount ==>
              BinStart(Min(s), Step(s), i) < h[i].x < BinEnd(Min(s), Step(s), i)
    ensures var h := Histogram(s, mean, std, lib);
            forall i, j :: 0 <= i < j < BinCount ==> h[i].x < h[j].x
  {
    var h, lo, step := Histogram(s, mean, std, lib), Min(s), Step(s);
    StepPositive(lo, Max(s));
    forall i | 0 <= i < BinCount
      ensures BinStart(lo, step, i) < h[i].x < BinEnd(lo, step, i)
    {
      assert h[i].x == Midpoint(lo, step, i);
      MidpointInside(lo, step, i);
    }
    forall i, j | 0 <= i < j < BinCount ensures h[i].x < h[j].x {
      assert h[i].x == Midpoint(lo, step, i) && h[j].x == Midpoint(lo, step, j);
      MidpointsAscend(lo, step, i, j);
    }
  }

  // ---------------------------------------------------------------------------
  // Every value below the maximum is in exactly one bin; the maximum is in none

  /** The floor of (r - lo) / step names a bin that holds r. */
  lemma FloorIsInBin(r: real, lo: real, step: real)
    requires 0.0 < step
    ensures InBin(r, lo, step, ((r - lo) / step).Floor)
  {
    var x := (r - lo) / step;
    var i := x.Floor;
    var below, above := i as real, (i + 1) as real;
    assert below <= x < above;
    assert x * step == r - lo by { QuotientTimesDivisor(r - lo, step); }
    assert BinStart(lo, step, i) <= r by {
      ScaleMonotone(below, x, step);
      assert BinStart(lo, step, i) == lo + below * step;
    }
    assert r < BinStart(lo, step, i + 1) by {
      ScaleStrictlyMonotone(x, above, step);
      assert r - lo < above * step;
      assert BinStart(lo, step, i + 1) == lo + above * step;
    }
    NextEdge(lo, step, i);
  }

  /** No value lies in two bins. */
  lemma BinsDisjoint(r: real, lo: real, step: real, i: int, j: int)
    requires 0.0 < step && InBin(r, lo, step, i) && InBin(r, lo, step, j)
    ensures i == j
  {
    if i < j {
      NextEdge(lo, step, i);
      EdgesOrdered(lo, step, i + 1, j);
    } else if j < i {
      NextEdge(lo, step, j);
      EdgesOrdered(lo, step, j + 1, i);
    }
  }

  /** A bin holding a value of [lo, lo + 30*step) is one of the 30. */
  lemma BinInRange(r: real, lo: real, step: real, i: int)
    requires 0.0 < step && lo <= r < BinStart(lo, step, BinCount) && InBin(r, lo, step, i)
    ensures 0 <= i < BinCount
  {
    if i < 0 {
      NextEdge(lo, step, i);
      EdgesOrdered(lo, step, i + 1, 0);
    } else if BinCount <= i {
      EdgesOrdered(lo, step, BinCount, i);
    }
  }

  /** The bin a value of [lo, lo + 30*step) falls into. */
  function BinIndex(r: real, lo: real, step: real): (i: int)
    requires 0.0 < step && lo <= r < BinStart(lo, step, BinCount)
    ensures 0 <= i < BinCount && InBin(r, lo, step, i)
    ensures forall j :: InBin(r, lo, step, j) ==> j == i
  {
    var i := ((r - lo) / step).Floor;
    FloorIsInBin(r, lo, step);
    BinInRange(r, lo, step, i);
    forall j | InBin(r, lo, step, j) ensures j == i {
      BinsDisjoint(r, lo, step, i, j);
    }
    i
  }

  /** Every return below the maximum lies in exactly one of the 30 bins. */
  lemma EachValueInOneBin(s: seq<real>, k: int)
    requires |s| >= 1 && Min(s) < Max(s) && 0 <= k < |s| && s[k] < Max(s)
    ensures var i := BinIndex(s[k], Min(s), Step(s));
            InBin(s[k], Min(s), Step(s), i) &&
            forall j :: 0 <= j < BinCount && InBin(s[k], Min(s), Step(s), j) ==> j == i
  {
    BinsTileRange(s);
    assert BinStart(Min(s), Step(s), BinCount) == BinEnd(Min(s), Step(s), BinCount - 1);
  }

  /** A return equal to the maximum lies in none of the bins. */
  lemma MaximumInNoBin(s: seq<real>)
    requires |s| >= 1 && Min(s) < Max(s)
    ensures forall j :: 0 <= j < BinCount ==> !InBin(Max(s), Min(s), Step(s), j)
  {
    BinsTileRange(s);
    forall j | 0 <= j < BinCount ensures !InBin(Max(s), Min(s), Step(s), j) {
      EdgesOrdered(Min(s), Step(s), j, BinCount - 1);
    }
  }

  // ---------------------------------------------------------------------------
  // The counts add up to the number of returns below the maximum

  /** Splitting a range at b splits its count. */
  lemma {:induction false} CountSplit(s: seq<real>, a: real, b: real, c: real)
    requires a <= b <= c
    ensures CountIn(s, a, b) + CountIn(s, b, c) == CountIn(s, a, c)
  {
    if s != [] {
      CountSplit(s[..|s| - 1], a, b, c);
    }
  }

  /** When every return lies in [lo, hi], those below hi and those equal to hi
      are all of them. */
  lemma {:induction false} CountBelowTop(s: seq<real>, lo: real, hi: real)
    requires forall i :: 0 <= i < |s| ==> lo <= s[i] <= hi
    ensures CountIn(s, lo, hi) + Occurrences(s, hi) == |s|
  {
    if s != [] {
      var p := s[..|s| - 1];
      assert forall i :: 0 <= i < |p| ==> p[i] == s[i];
      CountBelowTop(p, lo, hi);
    }
  }

  /** A value of the series occurs in it. */
  lemma {:induction false} OccursAtLeastOnce(s: seq<real>, k: int)
    requires 0 <= k < |s|
    ensures 1 <= Occurrences(s, s[k])
  {
    if k < |s| - 1 {
      var p := s[..|s| - 1];
      OccursAtLeastOnce(p, k);
      assert p[k] == s[k];
    }
  }

  /** The counts of the first k bins. */
  function SumCounts(s: seq<real>, lo: real, step: real, k: nat): nat
  {
    if k == 0 then 0
    else SumCounts(s, lo, step, k - 1) + CountIn(s, BinStart(lo, step, k - 1), BinEnd(lo, step, k - 1))
  }

  /** The first k bins together count the returns in [lo, lo + k*step). */
  lemma {:induction false} SumCountsTelescopes(s: seq<real>, lo: real, step: real, k: nat)
    requires 0.0 < step
    ensures SumCounts(s, lo, step, k) == CountIn(s, lo, BinStart(lo, step, k))
  {
    if k == 0 {
      CountSplit(s, lo, lo, lo);
    } else {
      SumCountsTelescopes(s, lo, step, k - 1);
      EdgesOrdered(lo, step, 0, k - 1);
      assert BinEnd(lo, step, k - 1) == BinStart(lo, step, k) by {
        assert k as real * step == (k - 1) as real * step + step;
      }
      CountSplit(s, lo, BinStart(lo, step, k - 1), BinStart(lo, step, k));
    }
  }

  /** The 30 bin counts add up to the number of returns strictly below the
      maximum: every return is counted except those equal to the maximum, of
      which there is at least one. */
  lemma BinCountsMissMaximum(s: seq<real>)
    requires |s| >= 1 && Min(s) < Max(s)
    ensures SumCounts(s, Min(s), Step(s), BinCount) + Occurrences(s, Max(s)) == |s|
    ensures SumCounts(s, Min(s), Step(s), BinCount) < |s|
  {
    SumCountsTelescopes(s, Min(s), Step(s), BinCount);
    BinsTileRange(s);
    assert BinStart(Min(s), Step(s), BinCount) == Max(s);
    CountBelowTop(s, Min(s), Max(s));
    var k :| 0 <= k < |s| && s[k] == Max(s);
    OccursAtLeastOnce(s, k);
  }

  // ---------------------------------------------------------------------------
  // Densities

  /** A density is not negative, and times the bin's share of the sample it
      gives back the count; times the width alone it is the count's share. */
  lemma DensityFacts(count: nat, days: nat, step: real)
    requires 1 <= days && 0.0 < step
    ensures 0.0 <= Density(count, days, step)
    ensures Density(count, days, step) * step == count as real / days as real
  {
    var n := days as real;
    var d := n * step;
    assert 0.0 < d by { ScaleStrictlyMonotone(0.0, n, step); }
    var q := count as real / d;
    assert Density(count, days, step) == q;
    QuotientNonNegative(count as real, d);
    QuotientTimesDivisor(count as real, d);
    assert (q * step) * n == q * d;
    QuotientUnique(q * step, count as real, n);
  }

  lemma QuotientNonNegative(a: real, d: real)
    requires 0.0 <= a && 0.0 < d
    ensures 0.0 <= a / d
  {
  }

  lemma QuotientUnique(x: real, a: real, d: real)
    requires 0.0 < d && x * d == a
    ensures x == a / d
  {
  }

  /** The density of bin i is not negative, and times the width it is the
      bin's count as a share of the n returns. */
  lemma BinArea(s: seq<real>, lo: real, step: real, mean: real, std: real, lib: Library, i: int)
    requires |s| >= 1 && 0.0 < step
    ensures 0.0 <= BinAt(s, lo, step, mean, std, lib, i).freq
    ensures Area(BinAt(s, lo, step, mean, std, lib, i), step) ==
              CountIn(s, BinStart(lo, step, i), BinEnd(lo, step, i)) as real / |s| as real
  {
    var c := CountIn(s, BinStart(lo, step, i), BinEnd(lo, step, i));
    BarArea(BinAt(s, lo, step, mean, std, lib, i), c, |s|, step);
  }

  /** A bar whose height is the density of c returns out of n has area c / n. */
  lemma BarArea(b: Bin, c: nat, days: nat, step: real)
    requires 1 <= days && 0.0 < step && b.freq == Density(c, days, step)
    ensures 0.0 <= b.freq
    ensures Area(b, step) == c as real / days as real
  {
    DensityFacts(c, days, step);
  }

  /** Each density is not negative, and times the bin width it is the share of
      the returns that fall in the bin. */
  lemma DensitiesNonNegative(s: seq<real>, mean: real, std: real, lib: Library)
    requires |s| >= 1 && Min(s) < Max(s)
    ensures var h := Histogram(s, mean, std, lib);
            forall i :: 0 <= i < BinCount ==>
              0.0 <= h[i].freq &&
              Area(h[i], Step(s)) ==
                CountIn(s, BinStart(Min(s), Step(s), i), BinEnd(Min(s), Step(s), i)) as real / |s| as real
  {
    var h, lo, step := Histogram(s, mean, std, lib), Min(s), Step(s);
    StepPositive(lo, Max(s));
    forall i | 0 <= i < BinCount
      ensures 0.0 <= h[i].freq
      ensures Area(h[i], step) ==
                CountIn(s, BinStart(lo, step, i), BinEnd(lo, step, i)) as real / |s| as real
    {
      var c := CountIn(s, BinStart(lo, step, i), BinEnd(lo, step, i)) as real;
      assert h[i] == BinAt(s, lo, step, mean, std, lib, i);
      BinArea(s, lo, step, mean, std, lib, i);
    }
  }

  /** With a positive spread the fitted normal density is positive in every bin. */
  lemma FittedDensityPositive(s: seq<real>, mean: real, std: real, lib: Library)
    requires Sound(lib) && |s| >= 1 && Min(s) < Max(s) && 0.0 < std
    ensures var h := Histogram(s, mean, std, lib);
            forall i :: 0 <= i < BinCount ==> 0.0 < h[i].pdf
  {
  }

  /** The area of one bar: density times bin width. */
  function Area(b: Bin, step: real): real
  {
    b.freq * step
  }

  /** The area under the empirical histogram: the sum of density times width. */
  function Mass(bins: seq<Bin>, step: real): real
  {
    if bins == [] then 0.0 else Mass(bins[..|bins| - 1], step) + Area(bins[|bins| - 1], step)
  }

  /** Adding shares of n adds their numerators. */
  lemma SharesAdd(a: real, b: real, n: real, total: real, last: real)
    requires 0.0 < n && total == a / n + last && last == b / n
    ensures total == (a + b) / n
  {
  }

  /** The area under the first k bins is their count over n. */
  lemma {:induction false} MassOfPrefix(s: seq<real>, mean: real, std: real, lib: Library, k: nat)
    requires |s| >= 1 && Min(s) < Max(s) && k <= BinCount
    ensures var h := Histogram(s, mean, std, lib);
            Mass(h[..k], Step(s)) == SumCounts(s, Min(s), Step(s), k) as real / |s| as real
  {
    var h, lo, step, n := Histogram(s, mean, std, lib), Min(s), Step(s), |s| as real;
    if k > 0 {
      MassOfPrefix(s, mean, std, lib, k - 1);
      var before := SumCounts(s, lo, step, k - 1) as real;
      var c := CountIn(s, BinStart(lo, step, k - 1), BinEnd(lo, step, k - 1)) as real;
      assert h[..k][..k - 1] == h[..k - 1];
      assert Mass(h[..k], step) == before / n + Area(h[k - 1], step);
      StepPositive(lo, Max(s));
      assert h[k - 1] == BinAt(s, lo, step, mean, std, lib, k - 1);
      BinArea(s, lo, step, mean, std, lib, k - 1);
      assert Area(h[k - 1], step) == c / n;
      SharesAdd(before, c, n, Mass(h[..k], step), Area(h[k - 1], step));
      assert SumCounts(s, lo, step, k) as real == before + c;
    }
  }

  /** A share of n below n is below one. */
  lemma ShareBelowOne(m: real, a: real, n: real)
    requires 0.0 < n && a < n && m == a / n
    ensures m < 1.0
  {
    QuotientTimesDivisor(a, n);
  }

  /** The prefix of a sequence up to its length is the sequence itself. */
  lemma WholePrefix(h: seq<Bin>)
    ensures h[..|h|] == h
  {
  }

  /** The area under all 30 bars is the share of returns the bins count. */
  lemma MassOfHistogram(s: seq<real>, mean: real, std: real, lib: Library)
    requires |s| >= 1 && Min(s) < Max(s)
    ensures Mass(Histogram(s, mean, std, lib), Step(s)) ==
              SumCounts(s, Min(s), Step(s), BinCount) as real / |s| as real
  {
    MassOfPrefix(s, mean, std, lib, BinCount);
    WholePrefix(Histogram(s, mean, std, lib));
  }

  /** A share whose numerator is n minus some count. */
  lemma ShareOfRest(m: real, counted: nat, missed: nat, n: nat)
    requires 0 < n && counted + missed == n && 1 <= missed && m == counted as real / n as real
    ensures m == (n - missed) as real / n as real
    ensures m < 1.0
  {
    ShareBelowOne(m, counted as real, n as real);
  }

  /** The empirical densities integrate to the share of returns below the
      maximum, which is strictly less than one. */
  lemma HistogramMass(s: seq<real>, mean: real, std: real, lib: Library)
    requires |s| >= 1 && Min(s) < Max(s)
    ensures Mass(Histogram(s, mean, std, lib), Step(s)) ==
              (|s| - Occurrences(s, Max(s))) as real / |s| as real
    ensures Mass(Histogram(s, mean, std, lib), Step(s)) < 1.0
  {
    MassOfHistogram(s, mean, std, lib);
    BinCountsMissMaximum(s);
    ShareOfRest(Mass(Histogram(s, mean, std, lib), Step(s)),
      SumCounts(s, Min(s), Step(s), BinCount), Occurrences(s, Max(s)), |s|);
  }

  /** For the returns [0, 1] the maximum 1 falls in no bin, so the bars cover
      only half of the unit area a density histogram should have. */
  lemma TwoReturnsHalfMass(mean: real, std: real, lib: Library)
    ensures Min([0.0, 1.0]) < Max([0.0, 1.0])
    ensures Mass(Histogram([0.0, 1.0], mean, std, lib), Step([0.0, 1.0])) == 0.5
  {
    var s := [0.0, 1.0];
    assert s[..1] == [0.0];
    assert Min(s) == 0.0 && Max(s) == 1.0;
    assert Occurrences(s, 1.0) == 1 by {
      assert Occurrences(s[..1], 1.0) == 0 by { assert s[..1][..0] == []; }
    }
    HistogramMass(s, mean, std, lib);
  }

  // ---------------------------------------------------------------------------
  // Corrected binning: the last bin closed at the maximum

  /** Returns in the closed range [lo, hi]. */
  function CountClosed(s: seq<real>, lo: real, hi: real): (c: nat)
    ensures c <= |s|
  {
    if s == [] then 0
    else CountClosed(s[..|s| - 1], lo, hi) + (if lo <= s[|s| - 1] <= hi then 1 else 0)
  }

  /** A closed range counts what the half-open one does, plus the values on its top edge. */
  lemma {:induction false} CountClosedSplit(s: seq<real>, lo: real, hi: real)
    requires lo <= hi
    ensures CountClosed(s, lo, hi) == CountIn(s, lo, hi) + Occurrences(s, hi)
  {
    if s != [] {
      CountClosedSplit(s[..|s| - 1], lo, hi);
    }
  }

  /** The count of bin i when the last bin is closed: [binStart, binEnd) for
      the first 29 bins, [binStart, max] for the last. */
  function ClosedCount(s: seq<real>, lo: real, step: real, i: int): nat
  {
    if i == BinCount - 1 then CountClosed(s, BinStart(lo, step, i), BinEnd(lo, step, i))
    else CountIn(s, BinStart(lo, step, i), BinEnd(lo, step, i))
  }

  /** Bin i of the corrected histogram. */
  function ClosedBinAt(s: seq<real>, lo: real, step: real, mean: real, std: real, lib: Library, i: int): Bin
    requires |s| >= 1 && 0.0 < step
  {
    Bin(Midpoint(lo, step, i), Density(ClosedCount(s, lo, step, i), |s|, step),
        lib.normalPdf(Midpoint(lo, step, i), mean, std))
  }

  /** The corrected histogram: as built by the loop, except that the last bin
      also counts the returns equal to the maximum. */
  function ClosedHistogram(s: seq<real>, mean: real, std: real, lib: Library): (h: seq<Bin>)
    requires |s| >= 1 && Min(s) < Max(s)
    ensures |h| == BinCount
  {
    seq(BinCount, i requires 0 <= i < BinCount => ClosedBinAt(s, Min(s), Step(s), mean, std, lib, i))
  }

  /** The corrected histogram differs from the built one only in the last bin. */
  lemma ClosedHistogramAgrees(s: seq<real>, mean: real, std: real, lib: Library)
    requires |s| >= 1 && Min(s) < Max(s)
    ensures ClosedHistogram(s, mean, std, lib)[..BinCount - 1] ==
            Histogram(s, mean, std, lib)[..BinCount - 1]
    ensures ClosedHistogram(s, mean, std, lib)[BinCount - 1].x == Histogram(s, mean, std, lib)[BinCount - 1].x
  {
    var h, c := Histogram(s, mean, std, lib), ClosedHistogram(s, mean, std, lib);
    StepPositive(Min(s), Max(s));
    forall i | 0 <= i < BinCount - 1 ensures c[i] == h[i] {
      assert c[i] == ClosedBinAt(s, Min(s), Step(s), mean, std, lib, i);
      assert h[i] == BinAt(s, Min(s), Step(s), mean, std, lib, i);
    }
  }

  /** With the last bin closed, every return is counted exactly once: the
      corrected counts add up to the number of returns. */
  lemma ClosedCountsCoverAll(s: seq<real>)
    requires |s| >= 1 && Min(s) < Max(s)
    ensures SumCounts(s, Min(s), Step(s), BinCount - 1) + ClosedCount(s, Min(s), Step(s), BinCount - 1) == |s|
  {
    var lo, step := Min(s), Step(s);
    var last := BinCount - 1;
    var start, end := BinStart(lo, step, last), BinEnd(lo, step, last);
    BinsTileRange(s);
    assert end == Max(s);
    assert start <= end;
    CountClosedSplit(s, start, end);
    assert ClosedCount(s, lo, step, last) == CountIn(s, start, end) + Occurrences(s, Max(s));
    assert SumCounts(s, lo, step, BinCount) == SumCounts(s, lo, step, last) + CountIn(s, start, end);
    BinCountsMissMaximum(s);
  }

  /** Adding shares of n that make up n gives one. */
  lemma SharesMakeOne(a: real, b: real, n: real, m: real, last: real)
    requires 0.0 < n && a + b == n && m == a / n + last && last == b / n
    ensures m == 1.0
  {
    SharesAdd(a, b, n, m, last);
    assert m == n / n;
  }

  /** The area of a corrected bar is its count's share of the returns. */
  lemma ClosedBinArea(s: seq<real>, lo: real, step: real, mean: real, std: real, lib: Library, i: int)
    requires |s| >= 1 && 0.0 < step
    ensures Area(ClosedBinAt(s, lo, step, mean, std, lib, i), step) ==
              ClosedCount(s, lo, step, i) as real / |s| as real
  {
    BarArea(ClosedBinAt(s, lo, step, mean, std, lib, i), ClosedCount(s, lo, step, i), |s|, step);
  }

  /** The area of the corrected last bar is its count's share of the returns. */
  lemma ClosedLastArea(s: seq<real>, mean: real, std: real, lib: Library)
    requires |s| >= 1 && Min(s) < Max(s)
    ensures Area(ClosedHistogram(s, mean, std, lib)[BinCount - 1], Step(s)) ==
              ClosedCount(s, Min(s), Step(s), BinCount - 1) as real / |s| as real
  {
    StepPositive(Min(s), Max(s));
    assert ClosedHistogram(s, mean, std, lib)[BinCount - 1] ==
           ClosedBinAt(s, Min(s), Step(s), mean, std, lib, BinCount - 1);
    ClosedBinArea(s, Min(s), Step(s), mean, std, lib, BinCount - 1);
  }

  /** The area under the first 29 corrected bars is that under the built ones. */
  lemma ClosedMassOfFirstBins(s: seq<real>, mean: real, std: real, lib: Library)
    requires |s| >= 1 && Min(s) < Max(s)
    ensures Mass(ClosedHistogram(s, mean, std, lib)[..BinCount - 1], Step(s)) ==
              SumCounts(s, Min(s), Step(s), BinCount - 1) as real / |s| as real
  {
    ClosedHistogramAgrees(s, mean, std, lib);
    MassOfPrefix(s, mean, std, lib, BinCount - 1);
  }

  /** The corrected empirical densities integrate to exactly one. */
  lemma ClosedHistogramMass(s: seq<real>, mean: real, std: real, lib: Library)
    requires |s| >= 1 && Min(s) < Max(s)
    ensures Mass(ClosedHistogram(s, mean, std, lib), Step(s)) == 1.0
  {
    var c := ClosedHistogram(s, mean, std, lib);
    var step, last := Step(s), BinCount - 1;
    ClosedMassOfFirstBins(s, mean, std, lib);
    ClosedLastArea(s, mean, std, lib);
    assert Mass(c, step) == Mass(c[..last], step) + Area(c[last], step);
    ClosedCountsCoverAll(s);
    SharesMakeOne(SumCounts(s, Min(s), step, last) as real, ClosedCount(s, Min(s), step, last) as real,
      |s| as real, Mass(c, step), Area(c[last], step));
  }
}
