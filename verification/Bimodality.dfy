/** How two-peaked a distribution is (`BimodalityCoefficient` of internal/shape/shape.go), from the second,
    third and fourth moments. `float64` arithmetic is modelled over `real`. */
module Bimodality {
  import opened Distribution

  function Power(d: real, k: nat): real { if k == 0 then 1.0 else d * Power(d, k - 1) }

  /** The sum of the k-th powers of the deviations from c. */
  function Deviations(x: seq<Sample>, c: real, k: nat): real {
    if x == [] then 0.0 else Deviations(x[..|x| - 1], c, k) + Power(x[|x| - 1] as real - c, k)
  }

  function Moment(x: seq<Sample>, k: nat): real
    requires x != []
  {
    Deviations(x, Mean(x), k) / |x| as real
  }

  predicate AllEqual(x: seq<Sample>) { forall i, j :: 0 <= i < j < |x| ==> x[i] == x[j] }

  /** What the denominator adds to the kurtosis. */
  function Correction(n: int): real
    requires n >= 4
  {
    3.0 * (n - 1) as real * (n - 1) as real / ((n - 2) as real * (n - 3) as real)
  }

  lemma Powers(d: real)
    ensures Power(d, 0) == 1.0 && Power(d, 1) == d && Power(d, 2) == d * d
    ensures Power(d, 3) == d * d * d && Power(d, 4) == (d * d) * (d * d)
  {
  }

  lemma {:induction false} DeviationsFromMean(x: seq<Sample>, c: real)
    ensures Deviations(x, c, 0) == |x| as real
    ensures Deviations(x, c, 1) == Sum(x) as real - |x| as real * c
    ensures Deviations(x, c, 2) >= 0.0
    ensures Deviations(x, c, 2) == 0.0 ==> forall i :: 0 <= i < |x| ==> x[i] as real == c
  {
    if x != [] {
      DeviationsFromMean(x[..|x| - 1], c);
      var d := x[|x| - 1] as real - c;
      Powers(d);
      OneMoreTimes(|x| - 1, c);
      SquareIsPositive(d);
    }
  }

  lemma OneMoreTimes(n: int, c: real)
    ensures (n + 1) as real * c == n as real * c + c
  {
  }

  lemma SquareIsPositive(d: real)
    ensures d * d >= 0.0 && (d * d == 0.0 ==> d == 0.0)
  {
    if d * d == 0.0 {
      ZeroProduct(d, d);
    }
  }

  lemma ZeroProduct(a: real, b: real)
    requires a * b == 0.0
    ensures a == 0.0 || b == 0.0
  {
  }

  /** (d^2 - p d - q)^2, multiplied out and summed, for sums of powers of d. */
  function Expanded(p: real, q: real, s4: real, s3: real, s2: real, s1: real, s0: real): real {
    s4 - 2.0 * p * s3 + (p * p - 2.0 * q) * s2 + 2.0 * p * q * s1 + q * q * s0
  }

  lemma ExpandedAdds(p: real, q: real, s4: real, s3: real, s2: real, s1: real, s0: real,
                     t4: real, t3: real, t2: real, t1: real, t0: real)
    ensures Expanded(p, q, s4 + t4, s3 + t3, s2 + t2, s1 + t1, s0 + t0)
         == Expanded(p, q, s4, s3, s2, s1, s0) + Expanded(p, q, t4, t3, t2, t1, t0)
  {
    OneMoreTerm(2.0 * p, s3, t3);
    OneMoreTerm(p * p - 2.0 * q, s2, t2);
    OneMoreTerm(2.0 * p * q, s1, t1);
    OneMoreTerm(q * q, s0, t0);
  }

  function ExpandedSum(x: seq<Sample>, c: real, p: real, q: real): real {
    Expanded(p, q, Deviations(x, c, 4), Deviations(x, c, 3), Deviations(x, c, 2), Deviations(x, c, 1),
             Deviations(x, c, 0))
  }

  lemma {:induction false} SquaresExpand(x: seq<Sample>, c: real, p: real, q: real)
    ensures ExpandedSum(x, c, p, q) >= 0.0
  {
    if x != [] {
      var y, d := x[..|x| - 1], x[|x| - 1] as real - c;
      SquaresExpand(y, c, p, q);
      Powers(d);
      LastDeviation(x, c);
      hide Deviations, Power, Expanded;
      ExpandedAdds(p, q, Deviations(y, c, 4), Deviations(y, c, 3), Deviations(y, c, 2), Deviations(y, c, 1),
                   Deviations(y, c, 0), (d * d) * (d * d), d * d * d, d * d, d, 1.0);
      OneSquare(d, p, q);
    } else {
      NothingExpands(c, p, q);
    }
  }

  lemma NothingExpands(c: real, p: real, q: real)
    ensures ExpandedSum([], c, p, q) == 0.0
  {
  }

  lemma LastDeviation(x: seq<Sample>, c: real)
    requires x != []
    ensures forall k :: Deviations(x, c, k) == Deviations(x[..|x| - 1], c, k) + Power(x[|x| - 1] as real - c, k)
  {
  }

  lemma OneMoreTerm(f: real, s: real, t: real)
    ensures f * (s + t) == f * s + f * t
  {
  }

  lemma OneSquare(d: real, p: real, q: real)
    ensures Expanded(p, q, (d * d) * (d * d), d * d * d, d * d, d, 1.0) >= 0.0
  {
    var e := d * d - p * d - q;
    SquareIsPositive(e);
    assert e * e == Expanded(p, q, (d * d) * (d * d), d * d * d, d * d, d, 1.0);
  }

  lemma ScaledIsPositive(n: real, a: real)
    requires n > 0.0 && n * a >= 0.0
    ensures a >= 0.0
  {
    if a < 0.0 {
      NegativeProduct(n, a);
    }
  }

  lemma NegativeProduct(n: real, a: real)
    requires n > 0.0 && a < 0.0
    ensures n * a < 0.0
  {
  }

  lemma QuotientTimes(a: real, b: real)
    requires b != 0.0
    ensures a / b * b == a
  {
  }

  lemma TermByMean(f: real, s: real, n: real)
    requires n > 0.0
    ensures f * s == n * (f * (s / n))
  {
    QuotientTimes(s, n);
    assert n * (f * (s / n)) == f * (s / n * n);
  }

  /** The square of the skewness. */
  function SkewSquared(m2: real, m3: real): real
    requires m2 > 0.0
  {
    CubeIsPositive(m2);
    m3 * m3 / (m2 * m2 * m2)
  }

  function Kurtosis(m2: real, m4: real): real
    requires m2 > 0.0
  {
    CubeIsPositive(m2);
    m4 / (m2 * m2)
  }

  lemma CubeIsPositive(m: real)
    requires m > 0.0
    ensures m * m > 0.0 && m * m * m > 0.0
  {
    assert m * m > 0.0;
    assert (m * m) * m > 0.0;
  }

  lemma MomentsExpand(x: seq<Sample>, p: real, q: real)
    requires x != []
    ensures Moment(x, 4) - 2.0 * p * Moment(x, 3) + (p * p - 2.0 * q) * Moment(x, 2) + q * q >= 0.0
  {
    hide *;
    var n, c := |x| as real, Mean(x);
    MeanBalances(x);
    SquaresExpand(x, c, p, q);
    SumExpands(x, c, p, q);
    MomentsAre(x);
    var a, b, e := 2.0 * p, p * p - 2.0 * q, q * q;
    TermByMean(1.0, Deviations(x, c, 4), n);
    TermByMean(a, Deviations(x, c, 3), n);
    TermByMean(b, Deviations(x, c, 2), n);
    FourTerms(n, Moment(x, 4), a * Moment(x, 3), b * Moment(x, 2), e);
    ScaledIsPositive(n, Moment(x, 4) - a * Moment(x, 3) + b * Moment(x, 2) + e);
  }

  lemma SumExpands(x: seq<Sample>, c: real, p: real, q: real)
    requires Deviations(x, c, 1) == 0.0 && Deviations(x, c, 0) == |x| as real
    ensures ExpandedSum(x, c, p, q)
         == Deviations(x, c, 4) - 2.0 * p * Deviations(x, c, 3) + (p * p - 2.0 * q) * Deviations(x, c, 2)
            + |x| as real * (q * q)
  {
    hide Deviations;
  }

  lemma FourTerms(n: real, a: real, b: real, c: real, d: real)
    ensures n * (a - b + c + d) == n * a - n * b + n * c + n * d
  {
  }

  lemma MomentsAre(x: seq<Sample>)
    requires x != []
    ensures forall k :: Moment(x, k) == Deviations(x, Mean(x), k) / |x| as real
  {
    hide Mean, Deviations;
  }

  lemma MeanBalances(x: seq<Sample>)
    requires x != []
    ensures Deviations(x, Mean(x), 1) == 0.0 && Deviations(x, Mean(x), 0) == |x| as real
  {
    DeviationsFromMean(x, Mean(x));
    QuotientTimes(Sum(x) as real, |x| as real);
  }

  /** The kurtosis is at least one more than the square of the skewness. */
  lemma KurtosisIsLarge(x: seq<Sample>)
    requires x != [] && Moment(x, 2) > 0.0
    ensures Kurtosis(Moment(x, 2), Moment(x, 4)) >= SkewSquared(Moment(x, 2), Moment(x, 3)) + 1.0
  {
    hide Moment;
    var m2, m3, m4 := Moment(x, 2), Moment(x, 3), Moment(x, 4);
    MomentsExpand(x, m3 / m2, m2);
    QuotientTimes(m3, m2);
    PearsonInequality(m2, m3, m4, m3 / m2);
  }

  lemma PearsonInequality(m2: real, m3: real, m4: real, p: real)
    requires m2 > 0.0 && p * m2 == m3
    requires m4 - 2.0 * p * m3 + (p * p - 2.0 * m2) * m2 + m2 * m2 >= 0.0
    ensures Kurtosis(m2, m4) >= SkewSquared(m2, m3) + 1.0
  {
    CubeIsPositive(m2);
    var k, s := Kurtosis(m2, m4), SkewSquared(m2, m3);
    var square, cube := m2 * m2, m2 * m2 * m2;
    QuotientTimes(m4, square);
    QuotientTimes(m3 * m3, cube);
    assert (p * p - 2.0 * m2) * m2 == p * m3 - 2.0 * (m2 * m2);
    assert s * (m2 * m2) == p * m3 by { CancelLast(s * (m2 * m2), p * m3, m2); }
    assert (m2 * m2) * (k - s - 1.0) == m4 - p * m3 - m2 * m2;
    ScaledIsPositive(m2 * m2, k - s - 1.0);
  }

  lemma CancelLast(a: real, b: real, c: real)
    requires c > 0.0 && a * c == b * c
    ensures a == b
  {
    assert (a - b) * c == 0.0;
  }

  lemma CorrectionIsLarge(n: int)
    requires n >= 4
    ensures Correction(n) > 3.0
  {
    var a, b := (n - 1) as real * (n - 1) as real, (n - 2) as real * (n - 3) as real;
    Products(n);
    QuotientTimes(3.0 * a, b);
    if Correction(n) <= 3.0 {
      QuotientAtMost(Correction(n), 3.0, b);
    }
  }

  lemma Products(n: int)
    requires n >= 4
    ensures (n - 2) as real * (n - 3) as real > 0.0
    ensures (n - 1) as real * (n - 1) as real > (n - 2) as real * (n - 3) as real
    ensures 3.0 * (n - 1) as real * (n - 1) as real == 3.0 * ((n - 1) as real * (n - 1) as real)
  {
    var r := n as real;
    assert (n - 1) as real == r - 1.0 && (n - 2) as real == r - 2.0 && (n - 3) as real == r - 3.0;
    assert (r - 1.0) * (r - 1.0) == (r - 2.0) * (r - 3.0) + 3.0 * r - 5.0;
    assert (r - 2.0) * (r - 3.0) > 0.0;
  }

  lemma QuotientAtMost(a: real, b: real, c: real)
    requires a <= b && c > 0.0
    ensures a * c <= b * c
  {
  }

  function Coefficient(x: seq<Sample>): real
    requires |x| >= 4 && Moment(x, 2) > 0.0
  {
    DenominatorIsPositive(x);
    (SkewSquared(Moment(x, 2), Moment(x, 3)) + 1.0) / (Kurtosis(Moment(x, 2), Moment(x, 4)) - 3.0 + Correction(|x|))
  }

  lemma DenominatorIsPositive(x: seq<Sample>)
    requires |x| >= 4 && Moment(x, 2) > 0.0
    ensures 0.0 < SkewSquared(Moment(x, 2), Moment(x, 3)) + 1.0
         < Kurtosis(Moment(x, 2), Moment(x, 4)) - 3.0 + Correction(|x|)
  {
    KurtosisIsLarge(x);
    CorrectionIsLarge(|x|);
    SkewIsNotNegative(Moment(x, 2), Moment(x, 3));
    hide *;
  }

  lemma SkewIsNotNegative(m2: real, m3: real)
    requires m2 > 0.0
    ensures SkewSquared(m2, m3) >= 0.0
  {
    CubeIsPositive(m2);
    SquareIsPositive(m3);
    QuotientNotNegative(m3 * m3, m2 * m2 * m2);
  }

  lemma QuotientNotNegative(a: real, b: real)
    requires a >= 0.0 && b > 0.0
    ensures a / b >= 0.0
  {
  }

  lemma VarianceIs(x: seq<Sample>)
    requires x != []
    ensures Moment(x, 2) >= 0.0
    ensures Moment(x, 2) == 0.0 <==> AllEqual(x)
  {
    var c, s := Mean(x), Deviations(x, Mean(x), 2);
    DeviationsFromMean(x, c);
    ZeroQuotient(s, |x| as real);
    QuotientNotNegative(s, |x| as real);
    hide Mean, Deviations, Sum;
    if AllEqual(x) {
      assert forall i :: 0 <= i < |x| ==> x[i] == x[0];
      ConstantTotal(x, x[0]);
      ProductOver(x[0] as real, |x| as real);
      MeanIs(x);
      NoDeviations(x, x[0]);
      assert c == x[0] as real;
      assert s == 0.0;
    } else if s == 0.0 {
      AllAreTheMean(x, c);
    }
  }

  lemma AllAreTheMean(x: seq<Sample>, c: real)
    requires forall i :: 0 <= i < |x| ==> x[i] as real == c
    ensures AllEqual(x)
  {
    forall i, j | 0 <= i < j < |x| ensures x[i] == x[j] {
      assert x[i] as real == x[j] as real;
    }
  }

  lemma ZeroQuotient(a: real, b: real)
    requires b > 0.0
    ensures a / b == 0.0 <==> a == 0.0
  {
    QuotientTimes(a, b);
  }

  lemma ProductOver(a: real, b: real)
    requires b > 0.0
    ensures a * b / b == a
  {
  }

  lemma {:induction false} ConstantTotal(x: seq<Sample>, v: Sample)
    requires forall i :: 0 <= i < |x| ==> x[i] == v
    ensures Sum(x) as real == v as real * |x| as real
  {
    if x != [] {
      ConstantTotal(x[..|x| - 1], v);
      OneMoreTimes(|x| - 1, v as real);
    }
  }

  lemma {:induction false} NoDeviations(x: seq<Sample>, v: Sample)
    requires forall i :: 0 <= i < |x| ==> x[i] == v
    ensures Deviations(x, v as real, 2) == 0.0
  {
    if x != [] {
      NoDeviations(x[..|x| - 1], v);
      Powers(0.0);
    }
  }

  lemma OneMoreTotal(x: seq<Sample>, i: nat)
    requires i < |x|
    ensures Sum(x[..i + 1]) == Sum(x[..i]) + x[i]
  {
    assert x[..i + 1][..i] == x[..i];
  }

  lemma OneMoreDeviation(x: seq<Sample>, c: real, k: nat, i: nat)
    requires i < |x|
    ensures Deviations(x[..i + 1], c, k) == Deviations(x[..i], c, k) + Power(x[i] as real - c, k)
  {
    assert x[..i + 1][..i] == x[..i];
  }

  lemma NothingYet(x: seq<Sample>, c: real)
    ensures Sum(x[..0]) == 0 && forall k :: Deviations(x[..0], c, k) == 0.0
  {
  }

  lemma MeanIs(x: seq<Sample>)
    requires x != []
    ensures Mean(x) == Sum(x) as real / |x| as real
  {
  }

  /** The second loop. */
  method SumPowers(x: seq<Sample>, mean: real) returns (m2: real, m3: real, m4: real)
    ensures m2 == Deviations(x, mean, 2) && m3 == Deviations(x, mean, 3) && m4 == Deviations(x, mean, 4)
  {
    hide *;
    m2, m3, m4 := 0.0, 0.0, 0.0;
    NothingYet(x, mean);
    for i := 0 to |x|
      invariant m2 == Deviations(x[..i], mean, 2)
      invariant m3 == Deviations(x[..i], mean, 3)
      invariant m4 == Deviations(x[..i], mean, 4)
    {
      var d := x[i] as real - mean;
      var d2 := d * d;
      Powers(d);
      OneMoreDeviation(x, mean, 2, i);
      OneMoreDeviation(x, mean, 3, i);
      OneMoreDeviation(x, mean, 4, i);
      m2 := m2 + d2;
      m3 := m3 + d2 * d;
      m4 := m4 + d2 * d2;
    }
    assert x[..|x|] == x;
  }

  lemma KurtosisIs(m2: real, m4: real)
    requires m2 > 0.0
    ensures m2 * m2 > 0.0 && Kurtosis(m2, m4) == m4 / (m2 * m2)
  {
    CubeIsPositive(m2);
  }

  lemma SkewIs(m2: real, m3: real)
    requires m2 > 0.0
    ensures m2 * m2 * m2 > 0.0 && SkewSquared(m2, m3) == m3 * m3 / (m2 * m2 * m2)
  {
    CubeIsPositive(m2);
  }

  lemma CoefficientIs(x: seq<Sample>)
    requires |x| >= 4 && Moment(x, 2) > 0.0
    ensures var m2, m3, m4 := Moment(x, 2), Moment(x, 3), Moment(x, 4);
      var denominator := Kurtosis(m2, m4) - 3.0 + Correction(|x|);
      denominator != 0.0 && Coefficient(x) == (SkewSquared(m2, m3) + 1.0) / denominator
  {
    DenominatorIsPositive(x);
    hide Moment, SkewSquared, Kurtosis, Correction;
  }

  lemma DenominatorIs(x: seq<Sample>, n: real)
    requires |x| >= 4 && n == |x| as real
    ensures 3.0 * (n - 1.0) * (n - 1.0) / ((n - 2.0) * (n - 3.0)) == Correction(|x|)
  {
  }

  lemma ProperFraction(a: real, b: real)
    requires 0.0 < a < b
    ensures 0.0 < a / b < 1.0
  {
    var q := a / b;
    QuotientTimes(a, b);
    if q >= 1.0 {
      QuotientAtMost(1.0, q, b);
    } else if q <= 0.0 {
      QuotientAtMost(q, 0.0, b);
    }
  }

  /** `BimodalityCoefficient`: there is one exactly for four samples or more that are not all the same, and
      then it lies strictly between 0 and 1; so its denominator is never zero. */
  method BimodalityCoefficient(x: seq<Sample>) returns (v: real, ok: bool)
    ensures ok <==> |x| >= 4 && !AllEqual(x)
    ensures ok ==> Moment(x, 2) > 0.0 && v == Coefficient(x) && 0.0 < v < 1.0
  {
    hide *;
    if |x| < 4 {
      return 0.0, false;
    }
    var n := |x| as real;
    var total: int := 0;
    NothingYet(x, 0.0);
    for i := 0 to |x|
      invariant total == Sum(x[..i])
    {
      OneMoreTotal(x, i);
      total := total + x[i];
    }
    assert x[..|x|] == x;
    var mean := total as real / n;
    MeanIs(x);
    var m2, m3, m4 := SumPowers(x, mean);
    m2, m3, m4 := m2 / n, m3 / n, m4 / n;
    MomentsAre(x);
    VarianceIs(x);
    if m2 == 0.0 {
      return 0.0, false;
    }
    v := CoefficientOf(x, m2, m3, m4, n);
    ok := true;
  }

  /** The end of it, for a variance that is not zero. */
  method CoefficientOf(x: seq<Sample>, m2: real, m3: real, m4: real, n: real) returns (v: real)
    requires |x| >= 4 && n == |x| as real && m2 > 0.0
    requires m2 == Moment(x, 2) && m3 == Moment(x, 3) && m4 == Moment(x, 4)
    ensures v == Coefficient(x) && 0.0 < v < 1.0
  {
    hide *;
    CubeIsPositive(m2);
    Products(|x|);
    DenominatorIs(x, n);
    DenominatorIsPositive(x);
    CoefficientIs(x);
    KurtosisIs(m2, m4);
    SkewIs(m2, m3);
    var skewSquared := m3 * m3 / (m2 * m2 * m2);
    var exKurt := m4 / (m2 * m2) - 3.0;
    var denom := exKurt + 3.0 * (n - 1.0) * (n - 1.0) / ((n - 2.0) * (n - 3.0));
    ProperFraction(skewSquared + 1.0, denom);
    v := (skewSquared + 1.0) / denom;
  }
}
