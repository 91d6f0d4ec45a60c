/** Folds over a series of returns: the `reduce` sum, and the `Math.min(...)` /
    `Math.max(...)` extremes. Every fold consumes the series left to right, as
    `Array.prototype.reduce` does, so each is defined on the prefix without the
    last element. */
module Folds {

  /** `returns.reduce((a, b) => a + b, 0)` */
  function Sum(s: seq<real>): real
  {
    if s == [] then 0.0 else Sum(s[..|s| - 1]) + s[|s| - 1]
  }

  /** `Math.min(...returns)`: the least element of a non-empty series. */
  function Min(s: seq<real>): (m: real)
    requires |s| >= 1
    ensures m in s
    ensures forall i :: 0 <= i < |s| ==> m <= s[i]
  {
    if |s| == 1 then s[0]
    else
      var m' := Min(s[..|s| - 1]);
      if s[|s| - 1] < m' then s[|s| - 1] else m'
  }

  /** `Math.max(...returns)`: the greatest element of a non-empty series. */
  function Max(s: seq<real>): (m: real)
    requires |s| >= 1
    ensures m in s
    ensures forall i :: 0 <= i < |s| ==> s[i] <= m
  {
    if |s| == 1 then s[0]
    else
      var m' := Max(s[..|s| - 1]);
      if s[|s| - 1] > m' then s[|s| - 1] else m'
  }

  /** Every element of the series is the same value. */
  predicate AllEqual(s: seq<real>)
  {
    forall i, j :: 0 <= i < |s| && 0 <= j < |s| ==> s[i] == s[j]
  }

  /** The series with every return negated. */
  function Negate(s: seq<real>): (r: seq<real>)
    ensures |r| == |s|
    ensures forall i :: 0 <= i < |s| ==> r[i] == -s[i]
  {
    seq(|s|, i requires 0 <= i < |s| => -s[i])
  }

  /** A series has a spread exactly when its extremes differ. */
  lemma {:induction false} SpreadIffExtremesDiffer(s: seq<real>)
    requires |s| >= 1
    ensures !AllEqual(s) <==> Min(s) < Max(s)
  {
    if Min(s) == Max(s) {
      forall i, j | 0 <= i < |s| && 0 <= j < |s| ensures s[i] == s[j] {
        assert Min(s) <= s[i] <= Max(s) && Min(s) <= s[j] <= Max(s);
      }
    } else {
      var a :| 0 <= a < |s| && s[a] == Min(s);
      var b :| 0 <= b < |s| && s[b] == Max(s);
      assert s[a] != s[b];
    }
  }

  /** A sum of n terms, each in [lo, hi], lies in [n*lo, n*hi]. */
  lemma {:induction false} SumBounds(s: seq<real>, lo: real, hi: real)
    requires forall i :: 0 <= i < |s| ==> lo <= s[i] <= hi
    ensures |s| as real * lo <= Sum(s) <= |s| as real * hi
  {
    if s != [] {
      var p := s[..|s| - 1];
      assert forall i :: 0 <= i < |p| ==> p[i] == s[i];
      SumBounds(p, lo, hi);
      assert |s| as real * lo == |p| as real * lo + lo;
      assert |s| as real * hi == |p| as real * hi + hi;
    }
  }

  /** Negating every term negates the sum. */
  lemma {:induction false} SumNegate(s: seq<real>)
    ensures Sum(Negate(s)) == -Sum(s)
  {
    if s != [] {
      var p := s[..|s| - 1];
      assert Negate(s)[..|s| - 1] == Negate(p);
      SumNegate(p);
    }
  }

  /** Negation keeps a series with a spread a series with a spread. */
  lemma NegatePreservesSpread(s: seq<real>)
    ensures AllEqual(Negate(s)) <==> AllEqual(s)
  {
    var t := Negate(s);
    if AllEqual(t) {
      forall i, j | 0 <= i < |s| && 0 <= j < |s| ensures s[i] == s[j] {
        assert t[i] == t[j];
      }
    }
  }
}
