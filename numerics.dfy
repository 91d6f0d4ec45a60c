/** The numeric library routines the statistics code calls: `Math.sqrt`,
    `jStat.studentt.cdf`, `jStat.studentt.inv` and `jStat.normal.pdf`.
    Their implementations are foreign code, so they are passed around as a
    record of functions, and `Sound` states the only facts the proofs rely on. */
module Numerics {

  datatype Library = Library(
    sqrt: real -> real,                       // Math.sqrt
    studentTCdf: (real, nat) -> real,         // jStat.studentt.cdf(t, df)
    studentTInv: (real, nat) -> real,         // jStat.studentt.inv(p, df)
    normalPdf: (real, real, real) -> real)    // jStat.normal.pdf(x, mean, std)

  /** The two facts about the square root that the statistics rely on: on a
      non-negative argument it is non-negative, and zero only at zero. */
  ghost predicate SqrtSound(sqrt: real -> real)
  {
    forall x :: 0.0 <= x ==> 0.0 <= sqrt(x) && (sqrt(x) == 0.0 <==> x == 0.0)
  }

  /** The Student t distribution with df >= 1 degrees of freedom: its CDF lies in
      [0, 1], is 1/2 at 0 (the distribution is symmetric), is strictly increasing,
      and the inverse CDF undoes it on (0, 1). */
  ghost predicate StudentTSound(cdf: (real, nat) -> real, inv: (real, nat) -> real)
  {
    (forall t, df: nat :: 1 <= df ==> 0.0 <= cdf(t, df) <= 1.0) &&
    (forall df: nat :: 1 <= df ==> cdf(0.0, df) == 0.5) &&
    (forall a, b, df: nat :: 1 <= df && a < b ==> cdf(a, df) < cdf(b, df)) &&
    (forall p, df: nat :: 1 <= df && 0.0 < p < 1.0 ==> cdf(inv(p, df), df) == p)
  }

  /** A normal density with positive spread is positive everywhere. */
  ghost predicate NormalPdfSound(pdf: (real, real, real) -> real)
  {
    forall x, mu, sigma :: 0.0 < sigma ==> 0.0 < pdf(x, mu, sigma)
  }

  ghost predicate Sound(lib: Library)
  {
    SqrtSound(lib.sqrt) && StudentTSound(lib.studentTCdf, lib.studentTInv) && NormalPdfSound(lib.normalPdf)
  }

  /** The square root of a positive number is positive. */
  lemma SqrtPositive(lib: Library, x: real)
    requires Sound(lib) && 0.0 < x
    ensures 0.0 < lib.sqrt(x)
  {
    assert 0.0 <= lib.sqrt(x) && lib.sqrt(x) != 0.0;
  }

  /** The CDF is monotone: comparing CDF values compares the points. */
  lemma CdfOrder(lib: Library, a: real, b: real, df: nat)
    requires Sound(lib) && 1 <= df
    ensures a <= b <==> lib.studentTCdf(a, df) <= lib.studentTCdf(b, df)
  {
    if a < b {
      assert lib.studentTCdf(a, df) < lib.studentTCdf(b, df);
    } else if b < a {
      assert lib.studentTCdf(b, df) < lib.studentTCdf(a, df);
    }
  }

  /** Every quantile at or above the median is non-negative. */
  lemma InvNonNegative(lib: Library, p: real, df: nat)
    requires Sound(lib) && 1 <= df && 0.5 <= p < 1.0
    ensures 0.0 <= lib.studentTInv(p, df)
  {
    var q := lib.studentTInv(p, df);
    assert lib.studentTCdf(q, df) == p;
    assert lib.studentTCdf(0.0, df) == 0.5;
    CdfOrder(lib, 0.0, q, df);
  }

  /** The quantile function is strictly increasing on (0, 1). */
  lemma InvStrictlyIncreasing(lib: Library, p: real, q: real, df: nat)
    requires Sound(lib) && 1 <= df && 0.0 < p < q < 1.0
    ensures lib.studentTInv(p, df) < lib.studentTInv(q, df)
  {
    var a, b := lib.studentTInv(p, df), lib.studentTInv(q, df);
    assert lib.studentTCdf(a, df) == p && lib.studentTCdf(b, df) == q;
    CdfOrder(lib, b, a, df);
  }

  /** Scaling by a positive factor keeps order. */
  lemma ScaleMonotone(a: real, b: real, c: real)
    requires a <= b && 0.0 < c
    ensures a * c <= b * c
  {
  }

  /** Scaling by a positive factor keeps strict order. */
  lemma ScaleStrictlyMonotone(a: real, b: real, c: real)
    requires a < b && 0.0 < c
    ensures a * c < b * c
  {
  }
}
