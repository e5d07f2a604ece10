/** What the two measures of shape are measures of (internal/shape/shape.go, internal/alert/shape.go), without
    dividing: the bimodality coefficient by the moments about the mean, the scale of a history by its deviations. */
module Peaks {
  import opened Distribution
  import opened Bimodality
  import opened Scoring

  // ---------------------------------------------------------------- the bimodality coefficient

  function Second(x: seq<Sample>, mean: real): real {
    if x == [] then 0.0
    else
      var d := x[|x| - 1] as real - mean;
      Second(x[..|x| - 1], mean) + d * d
  }

  function Third(x: seq<Sample>, mean: real): real {
    if x == [] then 0.0
    else
      var d := x[|x| - 1] as real - mean;
      Third(x[..|x| - 1], mean) + d * d * d
  }

  function Fourth(x: seq<Sample>, mean: real): real {
    if x == [] then 0.0
    else
      var d := x[|x| - 1] as real - mean;
      Fourth(x[..|x| - 1], mean) + (d * d) * (d * d)
  }

  lemma {:induction false} PowersAre(x: seq<Sample>, c: real)
    ensures Deviations(x, c, 2) == Second(x, c) && Deviations(x, c, 3) == Third(x, c)
    ensures Deviations(x, c, 4) == Fourth(x, c)
  {
    if x != [] {
      PowersAre(x[..|x| - 1], c);
      Powers(x[|x| - 1] as real - c);
      hide Power;
    }
  }

  /** The mean and the second, third and fourth moments about it. */
  ghost predicate AreMoments(x: seq<Sample>, mean: real, m2: real, m3: real, m4: real) {
    && mean * |x| as real == Sum(x) as real
    && m2 * |x| as real == Second(x, mean) && m3 * |x| as real == Third(x, mean) && m4 * |x| as real == Fourth(x, mean)
  }

  lemma MomentsOf(x: seq<Sample>) returns (mean: real)
    requires x != []
    ensures AreMoments(x, mean, Moment(x, 2), Moment(x, 3), Moment(x, 4))
  {
    hide Deviations, Second, Third, Fourth, Sum, Moment, Mean;
    mean := Mean(x);
    PowersAre(x, mean);
    MomentIs(x, 2);
    MomentIs(x, 3);
    MomentIs(x, 4);
    MeanTimes(x);
  }

  lemma MeanTimes(x: seq<Sample>)
    requires x != []
    ensures Mean(x) * |x| as real == Sum(x) as real
  {
    hide Sum;
    Undone(Sum(x) as real, |x| as real);
  }

  lemma MomentIs(x: seq<Sample>, k: nat)
    requires x != []
    ensures Moment(x, k) * |x| as real == Deviations(x, Mean(x), k)
  {
    hide Deviations, Mean;
    Undone(Deviations(x, Mean(x), k), |x| as real);
  }

  lemma CorrectionTimes(n: int) returns (c: real)
    requires n >= 4
    ensures c == Correction(n) && c * ((n - 2) as real * (n - 3) as real) == 3.0 * (n - 1) as real * (n - 1) as real
  {
    c := Correction(n);
    var d := (n - 2) as real * (n - 3) as real;
    Positive((n - 2) as real, (n - 3) as real);
    QuotientTimes(3.0 * (n - 1) as real * (n - 1) as real, d);
  }

  lemma Positive(a: real, b: real)
    requires a > 0.0 && b > 0.0
    ensures a * b > 0.0
  {
  }

  /** The coefficient v of n samples that spread: with moments m2, m3 and m4 about their mean, and c such that
      c (n - 2)(n - 3) = 3 (n - 1)^2, it satisfies v (m4 m2 - 3 m2^3 + c m2^3) = m3^2 + m2^3. */
  lemma CoefficientMeans(x: seq<Sample>) returns (mean: real, m2: real, m3: real, m4: real, c: real)
    requires |x| >= 4 && Moment(x, 2) > 0.0
    ensures AreMoments(x, mean, m2, m3, m4) && m2 > 0.0
    ensures c * ((|x| - 2) as real * (|x| - 3) as real) == 3.0 * (|x| - 1) as real * (|x| - 1) as real
    ensures Coefficient(x) * (m4 * m2 - 3.0 * (m2 * m2 * m2) + c * (m2 * m2 * m2)) == m3 * m3 + m2 * m2 * m2
  {
    hide *;
    mean := MomentsOf(x);
    m2, m3, m4 := Moment(x, 2), Moment(x, 3), Moment(x, 4);
    c := CorrectionTimes(|x|);
    CoefficientIs(x);
    KurtosisIs(m2, m4);
    SkewIs(m2, m3);
    Cleared(Coefficient(x), m2, m3, m4, c);
  }

  lemma Cleared(v: real, m2: real, m3: real, m4: real, c: real)
    requires m2 > 0.0 && m2 * m2 > 0.0 && m2 * m2 * m2 > 0.0
    requires m4 / (m2 * m2) - 3.0 + c != 0.0
    requires v == (m3 * m3 / (m2 * m2 * m2) + 1.0) / (m4 / (m2 * m2) - 3.0 + c)
    ensures v * (m4 * m2 - 3.0 * (m2 * m2 * m2) + c * (m2 * m2 * m2)) == m3 * m3 + m2 * m2 * m2
  {
    var kurt, skew, cube := m4 / (m2 * m2), m3 * m3 / (m2 * m2 * m2), m2 * m2 * m2;
    Undone(skew + 1.0, kurt - 3.0 + c);
    Undone(m4, m2 * m2);
    Undone(m3 * m3, cube);
    var den := kurt - 3.0 + c;
    assert v * den == skew + 1.0;
    Swapped(v, den, cube);
    assert skew * cube == m3 * m3;
    TimesSum(skew, 1.0, cube);
    assert kurt * cube == m4 * m2 by { Swapped(kurt, m2 * m2, m2); }
    ThreeTerms(kurt, c, cube);
  }

  lemma Undone(a: real, b: real)
    requires b != 0.0
    ensures a / b * b == a
  {
  }

  lemma Swapped(a: real, b: real, c: real)
    ensures a * (b * c) == (a * b) * c
  {
  }

  lemma TimesSum(a: real, b: real, c: real)
    ensures (a + b) * c == a * c + b * c
  {
  }

  lemma ThreeTerms(a: real, b: real, c: real)
    ensures (a - 3.0 + b) * c == a * c - 3.0 * c + b * c
  {
  }

  // ---------------------------------------------------------------- the scale of a history

  /** v is in the middle of the values: as many lie on one side as on the other. */
  ghost predicate InTheMiddle(x: seq<real>, v: real) {
    2 * AtMost(x, v) >= |x| && 2 * AtLeast(x, v) >= |x|
  }

  lemma {:induction false} CountsUpTo(s: seq<real>, v: real, k: nat, l: nat)
    requires k <= |s| && l <= |s|
    requires (forall i :: k <= i < |s| ==> s[i] > v) || k == |s|
    requires (forall i :: 0 <= i < l ==> s[i] < v) || l == 0
    ensures AtMost(s, v) <= k && AtLeast(s, v) <= |s| - l
  {
    if s != [] {
      var n := |s| - 1;
      CountsUpTo(s[..n], v, if k > n then n else k, if l > n then n else l);
    }
  }

  /** The median is the midpoint of the values that are in the middle: of exactly those from a to b. */
  lemma MedianIsTheMidpoint(x: seq<real>) returns (a: real, b: real)
    requires x != []
    ensures forall v :: InTheMiddle(x, v) <==> a <= v <= b
    ensures MedianOf(x) == (a + b) / 2.0
  {
    var c, n := SortedReals(x), |x|;
    a, b := c[(n - 1) / 2], c[n / 2];
    SortedAscends(x);
    assert n % 2 == 1 ==> a == b;
    assert MedianOf(x) == (a + b) / 2.0;
    hide SortedReals, MedianOf;
    forall v ensures InTheMiddle(x, v) <==> a <= v <= b {
      SortedCounts(x, v);
      MiddleOfSorted(c, v);
    }
  }

  lemma MiddleOfSorted(c: seq<real>, v: real)
    requires c != [] && Ascending(c)
    ensures InTheMiddle(c, v) <==> c[(|c| - 1) / 2] <= v <= c[|c| / 2]
  {
    var n := |c|;
    var lo, hi := (n - 1) / 2, n / 2;
    hide AtMost, AtLeast;
    if v < c[lo] {
      CountsUpTo(c, v, lo, 0);
    } else if v > c[hi] {
      CountsUpTo(c, v, n, hi + 1);
    } else {
      CountsFromSplit(c, v, lo + 1, hi);
    }
  }

  /** The scale of a history: 1.4826 times a deviation that lies in the middle of all deviations from a value that lies
      in the middle of it; or, where that deviation is zero, the root of the mean square about the mean. */
  lemma ScaleMeans(root: real -> real, hist: seq<real>) returns (med: real, mad: real, mean: real)
    requires IsRoot(root) && |hist| >= 2
    ensures InTheMiddle(hist, med) && InTheMiddle(Distances(hist, med), mad) && mad >= 0.0
    ensures mean * |hist| as real == SumReals(hist)
    ensures var s := ScaleOf(root, hist);
      if mad > 0.0 then s == 1.4826 * mad else s >= 0.0 && s * s * |hist| as real == SumSquares(hist, mean)
  {
    hide *;
    med := MedianOf(hist);
    mad := MedianOf(Distances(hist, med));
    mean := MeanOf(hist);
    MiddleIs(hist);
    DistancesCount(hist, med);
    MiddleIs(Distances(hist, med));
    DistancesArePositive(hist, med);
    MeanRealTimes(hist);
    RootOfMeanSquare(root, hist);
    ScaleIs(root, hist);
  }

  lemma MiddleIs(x: seq<real>)
    requires x != []
    ensures InTheMiddle(x, MedianOf(x))
  {
    MedianIsInTheMiddle(x);
    hide AtMost, AtLeast, MedianOf;
  }

  lemma MeanRealTimes(x: seq<real>)
    requires x != []
    ensures MeanOf(x) * |x| as real == SumReals(x)
  {
    hide SumReals;
    Undone(SumReals(x), |x| as real);
  }

  lemma VarianceTimes(x: seq<real>)
    requires x != []
    ensures VarianceOf(x) * |x| as real == SumSquares(x, MeanOf(x))
  {
    hide SumSquares, MeanOf;
    Undone(SumSquares(x, MeanOf(x)), |x| as real);
  }

  lemma RootOfMeanSquare(root: real -> real, x: seq<real>)
    requires IsRoot(root) && |x| >= 2
    ensures var d := DeviationOf(root, x); d >= 0.0 && d * d * |x| as real == SumSquares(x, MeanOf(x))
  {
    hide *;
    VarianceIsPositive(x);
    VarianceTimes(x);
    DeviationIs(root, x);
    RootSquared(root, VarianceOf(x));
    SameTimes(DeviationOf(root, x) * DeviationOf(root, x), VarianceOf(x), |x| as real);
  }

  lemma DeviationIs(root: real -> real, x: seq<real>)
    requires |x| >= 2
    ensures DeviationOf(root, x) == root(VarianceOf(x))
  {
    hide VarianceOf;
  }

  lemma RootSquared(root: real -> real, v: real)
    requires IsRoot(root) && v >= 0.0
    ensures root(v) >= 0.0 && root(v) * root(v) == v
  {
  }

  lemma SameTimes(a: real, b: real, c: real)
    requires a == b
    ensures a * c == b * c
  {
  }

  lemma ScaleIs(root: real -> real, hist: seq<real>)
    ensures var mad := MedianOf(Distances(hist, MedianOf(hist)));
      ScaleOf(root, hist) == if mad == 0.0 then DeviationOf(root, hist) else 1.4826 * mad
  {
    hide MedianOf, Distances, DeviationOf;
  }
}
