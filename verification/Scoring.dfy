/** How unusual a value is against recent ones (`robustZ` of internal/alert/shape.go). `float64` arithmetic is
    modelled over `real`; the square root is given. */
module Scoring {
  import opened Distribution
  import opened Bimodality

  function InsertReal(s: seq<real>, v: real): (r: seq<real>)
    ensures |r| == |s| + 1
  {
    if s == [] then [v]
    else if s[|s| - 1] <= v then s + [v]
    else InsertReal(s[..|s| - 1], v) + [s[|s| - 1]]
  }

  /** `slices.Sort` of floats. */
  function SortedReals(s: seq<real>): (r: seq<real>)
    ensures |r| == |s|
  {
    if s == [] then [] else InsertReal(SortedReals(s[..|s| - 1]), s[|s| - 1])
  }

  function MedianOf(x: seq<real>): real {
    if x == [] then 0.0
    else
      var c, n := SortedReals(x), |x|;
      if n % 2 == 1 then c[n / 2] else (c[n / 2 - 1] + c[n / 2]) / 2.0
  }

  function Distances(x: seq<real>, c: real): seq<real> {
    seq(|x|, i requires 0 <= i < |x| => Abs(x[i] - c))
  }

  function SumReals(x: seq<real>): real {
    if x == [] then 0.0 else SumReals(x[..|x| - 1]) + x[|x| - 1]
  }

  function SumSquares(x: seq<real>, c: real): real {
    if x == [] then 0.0 else SumSquares(x[..|x| - 1], c) + (x[|x| - 1] - c) * (x[|x| - 1] - c)
  }

  function MeanOf(x: seq<real>): real
    requires x != []
  {
    SumReals(x) / |x| as real
  }

  function VarianceOf(x: seq<real>): real
    requires x != []
  {
    SumSquares(x, MeanOf(x)) / |x| as real
  }

  function DeviationOf(root: real -> real, x: seq<real>): real {
    if |x| < 2 then 0.0 else root(VarianceOf(x))
  }

  method StdDev(root: real -> real, x: seq<real>) returns (d: real)
    ensures d == DeviationOf(root, x)
  {
    if |x| < 2 {
      return 0.0;
    }
    var mean, s := 0.0, 0.0;
    for i := 0 to |x|
      invariant mean == SumReals(x[..i])
    {
      assert x[..i + 1][..i] == x[..i];
      mean := mean + x[i];
    }
    assert x[..|x|] == x;
    mean := mean / |x| as real;
    for i := 0 to |x|
      invariant s == SumSquares(x[..i], mean)
    {
      assert x[..i + 1][..i] == x[..i];
      var e := x[i] - mean;
      s := s + e * e;
    }
    d := root(s / |x| as real);
  }

  const MIN_DIVS: nat := 20

  function ScaleOf(root: real -> real, hist: seq<real>): real {
    var scale := 1.4826 * MedianOf(Distances(hist, MedianOf(hist)));
    if scale == 0.0 then DeviationOf(root, hist) else scale
  }

  /** How far x lies from the history, in units of the history's own spread. */
  function Scored(root: real -> real, x: real, hist: seq<real>): (real, bool) {
    if |hist| < MIN_DIVS then (0.0, false)
    else
      var scale := ScaleOf(root, hist);
      if scale == 0.0 then (0.0, true) else ((x - MedianOf(hist)) / scale, true)
  }

  method RobustZ(root: real -> real, x: real, hist: seq<real>) returns (z: real, ok: bool)
    ensures (z, ok) == Scored(root, x, hist)
  {
    hide MedianOf, Distances, DeviationOf;
    if |hist| < MIN_DIVS {
      return 0.0, false;
    }
    var med := MedianOf(hist);
    var scale := 1.4826 * MedianOf(Distances(hist, med));
    if scale == 0.0 {
      scale := StdDev(root, hist);
    }
    if scale == 0.0 {
      return 0.0, true;
    }
    return (x - med) / scale, true;
  }

  ghost predicate Constant(x: seq<real>, v: real) { forall i :: 0 <= i < |x| ==> x[i] == v }

  lemma {:induction false} ConstantSorts(x: seq<real>, v: real)
    requires Constant(x, v)
    ensures SortedReals(x) == x
  {
    if x != [] {
      ConstantSorts(x[..|x| - 1], v);
      assert x[..|x| - 1] + [v] == x;
    }
  }

  lemma {:induction false} ConstantSums(x: seq<real>, v: real)
    requires Constant(x, v)
    ensures SumReals(x) == v * |x| as real
  {
    if x != [] {
      ConstantSums(x[..|x| - 1], v);
      OneMoreTimes(|x| - 1, v);
    }
  }

  lemma {:induction false} ConstantDeviates(x: seq<real>, v: real)
    requires Constant(x, v)
    ensures SumSquares(x, v) == 0.0
  {
    if x != [] {
      ConstantDeviates(x[..|x| - 1], v);
      assert x[|x| - 1] - v == 0.0;
    }
  }

  lemma ConstantMedian(x: seq<real>, v: real)
    requires x != [] && Constant(x, v)
    ensures MedianOf(x) == v
  {
    ConstantSorts(x, v);
    hide SortedReals;
  }

  lemma ConstantDeviation(root: real -> real, x: seq<real>, v: real)
    requires x != [] && root(0.0) == 0.0 && Constant(x, v)
    ensures DeviationOf(root, x) == 0.0
  {
    hide SumReals, SumSquares;
    ConstantSums(x, v);
    ProductOver(v, |x| as real);
    assert MeanOf(x) == v;
    ConstantDeviates(x, v);
    ZeroQuotient(0.0, |x| as real);
    assert VarianceOf(x) == 0.0;
  }

  lemma ConstantDistances(x: seq<real>, v: real)
    requires Constant(x, v)
    ensures Constant(Distances(x, v), 0.0) && |Distances(x, v)| == |x|
  {
  }

  lemma ConstantHasNoScale(root: real -> real, x: seq<real>, v: real)
    requires x != [] && root(0.0) == 0.0 && Constant(x, v)
    ensures MedianOf(x) == v && ScaleOf(root, x) == 0.0
  {
    hide MedianOf, Distances, DeviationOf, Constant;
    ConstantMedian(x, v);
    ConstantDistances(x, v);
    ConstantMedian(Distances(x, v), 0.0);
    ConstantDeviation(root, x, v);
  }

  /** A history that never moved declines to judge: whatever comes next scores 0. */
  lemma FlatHistoryScoresZero(root: real -> real, x: real, hist: seq<real>, v: real)
    requires |hist| >= MIN_DIVS && root(0.0) == 0.0 && Constant(hist, v)
    ensures Scored(root, x, hist) == (0.0, true)
  {
    hide ScaleOf, MedianOf;
    ConstantHasNoScale(root, hist, v);
  }

  // ---------------------------------------------------------------- the median

  ghost predicate Ascending(s: seq<real>) { forall i, j :: 0 <= i < j < |s| ==> s[i] <= s[j] }

  lemma {:induction false} InsertKeepsOrder(s: seq<real>, v: real)
    requires Ascending(s)
    ensures Ascending(InsertReal(s, v))
    ensures InsertReal(s, v)[|s|] == if s == [] || s[|s| - 1] <= v then v else s[|s| - 1]
  {
    if s != [] {
      InsertKeepsOrder(s[..|s| - 1], v);
    }
  }

  lemma {:induction false} SortedAscends(s: seq<real>)
    ensures Ascending(SortedReals(s))
  {
    if s != [] {
      SortedAscends(s[..|s| - 1]);
      InsertKeepsOrder(SortedReals(s[..|s| - 1]), s[|s| - 1]);
    }
  }

  /** How many values are at most v, and how many at least v. */
  function AtMost(s: seq<real>, v: real): nat {
    if s == [] then 0 else AtMost(s[..|s| - 1], v) + if s[|s| - 1] <= v then 1 else 0
  }

  function AtLeast(s: seq<real>, v: real): nat {
    if s == [] then 0 else AtLeast(s[..|s| - 1], v) + if s[|s| - 1] >= v then 1 else 0
  }

  lemma {:induction false} InsertCounts(s: seq<real>, x: real, v: real)
    ensures AtMost(InsertReal(s, x), v) == AtMost(s, v) + if x <= v then 1 else 0
    ensures AtLeast(InsertReal(s, x), v) == AtLeast(s, v) + if x >= v then 1 else 0
  {
    if s == [] {
      assert [x][..0] == [];
    } else {
      var n, r := |s| - 1, InsertReal(s, x);
      if s[n] <= x {
        assert r[..n + 1] == s;
      } else {
        InsertCounts(s[..n], x, v);
        assert r[..n + 1] == InsertReal(s[..n], x);
      }
    }
  }

  lemma {:induction false} SortedCounts(s: seq<real>, v: real)
    ensures AtMost(SortedReals(s), v) == AtMost(s, v) && AtLeast(SortedReals(s), v) == AtLeast(s, v)
  {
    if s != [] {
      SortedCounts(s[..|s| - 1], v);
      InsertCounts(SortedReals(s[..|s| - 1]), s[|s| - 1], v);
    }
  }

  lemma {:induction false} CountsFromSplit(s: seq<real>, v: real, k: nat, l: nat)
    requires k <= |s| && l <= |s|
    requires (forall i :: 0 <= i < k ==> s[i] <= v) && (forall i :: l <= i < |s| ==> s[i] >= v)
    ensures AtMost(s, v) >= k && AtLeast(s, v) >= |s| - l
  {
    if s != [] {
      var n := |s| - 1;
      CountsFromSplit(s[..n], v, if k > n then n else k, if l > n then n else l);
    }
  }

  /** At least half of the values are at most the median, and at least half are at least the median. */
  lemma MedianIsInTheMiddle(x: seq<real>)
    requires x != []
    ensures 2 * AtMost(x, MedianOf(x)) >= |x| && 2 * AtLeast(x, MedianOf(x)) >= |x|
  {
    var c, n := SortedReals(x), |x|;
    SortedCounts(x, MedianOf(x));
    MedianSplits(x);
    hide SortedReals, MedianOf;
    CountsFromSplit(c, MedianOf(x), if n % 2 == 1 then n / 2 + 1 else n / 2, n / 2);
  }

  lemma MedianSplits(x: seq<real>)
    requires x != []
    ensures var c, n := SortedReals(x), |x|;
      && (forall i :: 0 <= i < (if n % 2 == 1 then n / 2 + 1 else n / 2) ==> c[i] <= MedianOf(x))
      && (forall i :: n / 2 <= i < n ==> c[i] >= MedianOf(x))
  {
    SortedAscends(x);
    hide SortedReals;
    var c, n := SortedReals(x), |x|;
    if n % 2 == 0 {
      assert c[n / 2 - 1] <= MedianOf(x) <= c[n / 2];
    }
  }

  // ---------------------------------------------------------------- what a score means

  /** The square root. */
  ghost predicate IsRoot(root: real -> real) {
    forall v: real :: v >= 0.0 ==> root(v) >= 0.0 && root(v) * root(v) == v
  }

  lemma {:induction false} SumSquaresPositive(x: seq<real>, c: real)
    ensures SumSquares(x, c) >= 0.0
    ensures SumSquares(x, c) == 0.0 ==> Constant(x, c)
  {
    if x != [] {
      SumSquaresPositive(x[..|x| - 1], c);
      SquareIsPositive(x[|x| - 1] - c);
    }
  }

  lemma DistancesArePositive(x: seq<real>, c: real)
    requires x != []
    ensures MedianOf(Distances(x, c)) >= 0.0
  {
    var d := Distances(x, c);
    MedianIsInTheMiddle(d);
    if MedianOf(d) < 0.0 {
      NothingBelow(d, MedianOf(d));
    }
  }

  lemma {:induction false} NothingBelow(x: seq<real>, v: real)
    requires forall i :: 0 <= i < |x| ==> x[i] > v
    ensures AtMost(x, v) == 0
  {
    if x != [] { NothingBelow(x[..|x| - 1], v); }
  }

  lemma DeviationIsPositive(root: real -> real, x: seq<real>)
    requires IsRoot(root) && |x| >= 2
    ensures DeviationOf(root, x) >= 0.0
    ensures DeviationOf(root, x) == 0.0 ==> Constant(x, MeanOf(x))
  {
    hide VarianceOf;
    VarianceIsPositive(x);
    var d := root(VarianceOf(x));
    assert d * d == VarianceOf(x);
  }

  /** The spread is never negative, and zero exactly for a history that never moved. */
  lemma ScaleIsASpread(root: real -> real, hist: seq<real>)
    requires IsRoot(root) && |hist| >= 2
    ensures ScaleOf(root, hist) >= 0.0
    ensures ScaleOf(root, hist) == 0.0 <==> Constant(hist, hist[0])
  {
    hide MedianOf, Distances, DeviationOf;
    DistancesArePositive(hist, MedianOf(hist));
    DeviationIsPositive(root, hist);
    RootOfZero(root);
    if Constant(hist, hist[0]) {
      ConstantHasNoScale(root, hist, hist[0]);
    }
  }

  lemma RootOfZero(root: real -> real)
    requires IsRoot(root)
    ensures root(0.0) == 0.0
  {
    ZeroProduct(root(0.0), root(0.0));
  }

  /** A score is there from twenty divergences on. It is on the side of the median its value is on, as many
      spreads away as it says; and it is zero for every value exactly when the history never moved. */
  lemma ScoreIsASide(root: real -> real, x: real, hist: seq<real>)
    requires IsRoot(root)
    ensures var (z, ok) := Scored(root, x, hist);
      && (ok <==> |hist| >= MIN_DIVS)
      && (ok && !Constant(hist, hist[0]) ==>
           (z > 0.0 <==> x > MedianOf(hist)) && (z < 0.0 <==> x < MedianOf(hist))
           && x == MedianOf(hist) + z * ScaleOf(root, hist))
      && (ok && Constant(hist, hist[0]) ==> z == 0.0)
  {
    if |hist| >= MIN_DIVS {
      ScaleIsASpread(root, hist);
      hide ScaleOf, MedianOf, Constant;
      var s, d := ScaleOf(root, hist), x - MedianOf(hist);
      if s > 0.0 {
        QuotientTimes(d, s);
        QuotientSign(d, s);
      }
    }
  }

  lemma QuotientSign(a: real, b: real)
    requires b > 0.0
    ensures (a / b > 0.0 <==> a > 0.0) && (a / b < 0.0 <==> a < 0.0)
  {
  }

  /** A larger value never scores less, and scores more unless the history never moved. */
  lemma ScoreAscends(root: real -> real, x: real, y: real, hist: seq<real>)
    requires IsRoot(root) && x < y && |hist| >= MIN_DIVS
    ensures Scored(root, x, hist).0 <= Scored(root, y, hist).0
    ensures Scored(root, x, hist).0 < Scored(root, y, hist).0 <==> !Constant(hist, hist[0])
  {
    ScaleIsASpread(root, hist);
    hide ScaleOf, MedianOf, Constant;
    var s, m := ScaleOf(root, hist), MedianOf(hist);
    if s > 0.0 {
      QuotientAscends(x - m, y - m, s);
    }
  }

  lemma QuotientAscends(a: real, b: real, c: real)
    requires a < b && c > 0.0
    ensures a / c < b / c
  {
    var p, q := a / c, b / c;
    QuotientTimes(a, c);
    QuotientTimes(b, c);
    if p >= q {
      QuotientAtMost(q, p, c);
    }
  }

  // ---------------------------------------------------------------- units

  /** A value in another unit, from another zero. */
  function Convert(v: real, c: real, d: real): real { c * v + d }

  function Affine(x: seq<real>, c: real, d: real): (r: seq<real>)
    ensures |r| == |x| && forall i :: 0 <= i < |x| ==> r[i] == Convert(x[i], c, d)
  {
    seq(|x|, i requires 0 <= i < |x| => Convert(x[i], c, d))
  }

  lemma ConvertAscends(a: real, b: real, c: real, d: real)
    requires c > 0.0
    ensures a <= b <==> Convert(a, c, d) <= Convert(b, c, d)
  {
    if a <= b {
      assert c * (b - a) >= 0.0;
    } else {
      assert c * (a - b) > 0.0;
    }
  }

  lemma AffineParts(x: seq<real>, c: real, d: real)
    requires x != []
    ensures Affine(x, c, d)[..|x| - 1] == Affine(x[..|x| - 1], c, d)
    ensures Affine(x, c, d)[|x| - 1] == Convert(x[|x| - 1], c, d)
  {
    hide Convert;
  }

  lemma AffineAppended(x: seq<real>, v: real, c: real, d: real)
    ensures Affine(x + [v], c, d) == Affine(x, c, d) + [Convert(v, c, d)]
    ensures Affine([v], c, d) == [Convert(v, c, d)]
  {
    hide Convert;
  }

  lemma {:induction false} AffineInsert(s: seq<real>, v: real, c: real, d: real)
    requires c > 0.0
    ensures InsertReal(Affine(s, c, d), Convert(v, c, d)) == Affine(InsertReal(s, v), c, d)
  {
    hide Convert, Affine;
    AffineAppended(s, v, c, d);
    if s != [] {
      var n := |s| - 1;
      ConvertAscends(s[n], v, c, d);
      AffineParts(s, c, d);
      if s[n] > v {
        AffineInsert(s[..n], v, c, d);
        AffineAppended(InsertReal(s[..n], v), s[n], c, d);
      }
    }
  }

  lemma {:induction false} AffineSorted(s: seq<real>, c: real, d: real)
    requires c > 0.0
    ensures SortedReals(Affine(s, c, d)) == Affine(SortedReals(s), c, d)
  {
    hide Convert, InsertReal;
    if s != [] {
      AffineParts(s, c, d);
      AffineSorted(s[..|s| - 1], c, d);
      AffineInsert(SortedReals(s[..|s| - 1]), s[|s| - 1], c, d);
      hide Affine;
      assert Affine(s, c, d) != [];
    }
  }

  lemma AffineMedian(x: seq<real>, c: real, d: real)
    requires c > 0.0 && x != []
    ensures MedianOf(Affine(x, c, d)) == Convert(MedianOf(x), c, d)
  {
    AffineSorted(x, c, d);
    hide SortedReals, Convert;
    var n, s := |x|, SortedReals(x);
    if n % 2 == 0 {
      HalfWay(c, s[n / 2 - 1], s[n / 2], d);
    }
  }

  lemma HalfWay(c: real, a: real, b: real, d: real)
    ensures (Convert(a, c, d) + Convert(b, c, d)) / 2.0 == Convert((a + b) / 2.0, c, d)
  {
    assert c * (a + b) == c * a + c * b;
    assert c * ((a + b) / 2.0) == c * (a + b) / 2.0;
  }

  lemma AffineDistances(x: seq<real>, m: real, c: real, d: real)
    requires c > 0.0
    ensures Distances(Affine(x, c, d), Convert(m, c, d)) == Affine(Distances(x, m), c, 0.0)
  {
    forall i | 0 <= i < |x| ensures Abs(Convert(x[i], c, d) - Convert(m, c, d)) == Convert(Abs(x[i] - m), c, 0.0) {
      ConvertedGap(x[i], m, c, d);
    }
    hide Convert, Abs;
  }

  lemma ConvertedGap(a: real, b: real, c: real, d: real)
    requires c > 0.0
    ensures Convert(a, c, d) - Convert(b, c, d) == c * (a - b)
    ensures Abs(Convert(a, c, d) - Convert(b, c, d)) == Convert(Abs(a - b), c, 0.0)
  {
    assert c * a + d - (c * b + d) == c * (a - b);
    ConvertAscends(a, b, c, d);
    if a < b {
      assert c * (b - a) == -(c * (a - b));
    }
  }

  lemma {:induction false} AffineSum(x: seq<real>, c: real, d: real)
    ensures SumReals(Affine(x, c, d)) == c * SumReals(x) + d * |x| as real
  {
    hide Affine, Convert;
    if x != [] {
      var n := |x| - 1;
      AffineParts(x, c, d);
      AffineSum(x[..n], c, d);
      ConvertedSum(SumReals(x[..n]), n, x[n], c, d);
    }
  }

  lemma ConvertedSum(s: real, n: int, v: real, c: real, d: real)
    ensures c * s + d * n as real + Convert(v, c, d) == c * (s + v) + d * (n + 1) as real
  {
    OneMoreTerm(c, s, v);
    OneMoreTimes(n, d);
  }

  lemma {:induction false} AffineSquares(x: seq<real>, c: real, d: real, m: real)
    requires c > 0.0
    ensures SumSquares(Affine(x, c, d), Convert(m, c, d)) == c * c * SumSquares(x, m)
  {
    hide Affine, Convert;
    if x != [] {
      var n := |x| - 1;
      AffineParts(x, c, d);
      AffineSquares(x[..n], c, d, m);
      ConvertedSquare(SumSquares(x[..n], m), x[n], m, c, d);
    }
  }

  lemma ConvertedSquare(s: real, v: real, m: real, c: real, d: real)
    requires c > 0.0
    ensures c * c * s + (Convert(v, c, d) - Convert(m, c, d)) * (Convert(v, c, d) - Convert(m, c, d))
         == c * c * (s + (v - m) * (v - m))
  {
    ConvertedGap(v, m, c, d);
    SquareOfProduct(c, v - m);
    OneMoreTerm(c * c, s, (v - m) * (v - m));
  }

  lemma AffineMean(s: real, n: real, c: real, d: real)
    requires n > 0.0
    ensures (c * s + d * n) / n == Convert(s / n, c, d)
  {
    QuotientTimes(s, n);
    assert (c * (s / n) + d) * n == c * s + d * n;
    ProductOver(c * (s / n) + d, n);
  }

  lemma RootScales(root: real -> real, v: real, w: real, c: real)
    requires IsRoot(root) && v >= 0.0 && c > 0.0 && w == c * c * v
    ensures root(w) == c * root(v)
  {
    var a, b := root(w), c * root(v);
    SquareIsPositive(c);
    PositiveTimes(c * c, v);
    PositiveTimes(c, root(v));
    SquareOfProduct(c, root(v));
    assert b * b == c * c * v;
    SameSquares(a, b);
  }

  lemma PositiveTimes(a: real, b: real)
    requires a >= 0.0 && b >= 0.0
    ensures a * b >= 0.0
  {
  }

  lemma SquareOfProduct(a: real, b: real)
    ensures (a * b) * (a * b) == a * a * (b * b)
  {
  }

  lemma SameSquares(a: real, b: real)
    requires a >= 0.0 && b >= 0.0 && a * a == b * b
    ensures a == b
  {
    assert (a - b) * (a + b) == 0.0;
    ZeroProduct(a - b, a + b);
  }

  lemma AffineMeanOf(x: seq<real>, c: real, d: real)
    requires x != []
    ensures MeanOf(Affine(x, c, d)) == Convert(MeanOf(x), c, d)
  {
    hide Affine, Convert, SumReals;
    AffineSum(x, c, d);
    AffineMean(SumReals(x), |x| as real, c, d);
  }

  lemma AffineVariance(x: seq<real>, c: real, d: real)
    requires c > 0.0 && x != []
    ensures VarianceOf(Affine(x, c, d)) == c * c * VarianceOf(x)
  {
    hide Affine, Convert, SumSquares, MeanOf;
    AffineMeanOf(x, c, d);
    AffineSquares(x, c, d, MeanOf(x));
    TimesQuotient(c * c, SumSquares(x, MeanOf(x)), |x| as real);
  }

  lemma VarianceIsPositive(x: seq<real>)
    requires x != []
    ensures VarianceOf(x) >= 0.0 && (VarianceOf(x) == 0.0 ==> Constant(x, MeanOf(x)))
  {
    var s, n := SumSquares(x, MeanOf(x)), |x| as real;
    SumSquaresPositive(x, MeanOf(x));
    hide SumSquares, MeanOf;
    QuotientNotNegative(s, n);
    ZeroQuotient(s, n);
  }

  lemma AffineDeviation(root: real -> real, x: seq<real>, c: real, d: real)
    requires IsRoot(root) && c > 0.0 && x != []
    ensures DeviationOf(root, Affine(x, c, d)) == c * DeviationOf(root, x)
  {
    hide Affine, VarianceOf, IsRoot;
    AffineVariance(x, c, d);
    VarianceIsPositive(x);
    RootScales(root, VarianceOf(x), VarianceOf(Affine(x, c, d)), c);
  }

  lemma TimesQuotient(a: real, b: real, c: real)
    requires c > 0.0
    ensures a * b / c == a * (b / c)
  {
  }

  lemma AffineScale(root: real -> real, hist: seq<real>, c: real, d: real)
    requires IsRoot(root) && c > 0.0 && hist != []
    ensures ScaleOf(root, Affine(hist, c, d)) == c * ScaleOf(root, hist)
  {
    hide MedianOf, Distances, DeviationOf, Affine, IsRoot;
    var m := MedianOf(hist);
    AffineMedian(hist, c, d);
    AffineDistances(hist, m, c, d);
    assert Distances(hist, m) != [] by { DistancesCount(hist, m); }
    AffineMedian(Distances(hist, m), c, 0.0);
    AffineDeviation(root, hist, c, d);
    var mad := MedianOf(Distances(hist, m));
    ScaledTwice(c, mad);
    ScaledZero(c, 1.4826 * mad);
  }

  lemma ScaledTwice(c: real, v: real)
    ensures 1.4826 * Convert(v, c, 0.0) == c * (1.4826 * v)
  {
  }

  lemma ScaledZero(c: real, v: real)
    requires c > 0.0
    ensures c * v == 0.0 <==> v == 0.0
  {
    if c * v == 0.0 { ZeroProduct(c, v); }
  }

  lemma DistancesCount(x: seq<real>, c: real)
    ensures |Distances(x, c)| == |x|
  {
  }

  /** A score has no unit and no zero of its own: measured in others, value and history score the same. */
  lemma ScoreHasNoUnit(root: real -> real, x: real, hist: seq<real>, c: real, d: real)
    requires IsRoot(root) && c > 0.0
    ensures Scored(root, Convert(x, c, d), Affine(hist, c, d)) == Scored(root, x, hist)
  {
    hide ScaleOf, MedianOf, Affine, Convert, IsRoot;
    if |hist| >= MIN_DIVS {
      AffineMedian(hist, c, d);
      AffineScale(root, hist, c, d);
      var s, m := ScaleOf(root, hist), MedianOf(hist);
      ScaledZero(c, s);
      ConvertedGap(x, m, c, d);
      if s != 0.0 {
        QuotientScales(x - m, s, c);
        var m', s' := MedianOf(Affine(hist, c, d)), ScaleOf(root, Affine(hist, c, d));
        assert s' == c * s;
        assert Convert(x, c, d) - m' == c * (x - m);
        SameQuotient(Convert(x, c, d) - m', c * (x - m), s', c * s);
        assert (Convert(x, c, d) - m') / s' == (x - m) / s;
      }
    }
  }

  lemma SameQuotient(a: real, b: real, c: real, d: real)
    requires c != 0.0 && a == b && c == d
    ensures a / c == b / d
  {
  }

  lemma QuotientScales(a: real, b: real, c: real)
    requires b != 0.0 && c > 0.0 && c * b != 0.0
    ensures c * a / (c * b) == a / b
  {
    QuotientTimes(a, b);
    assert a / b * (c * b) == c * a;
    QuotientUnique(c * a, c * b, a / b);
  }

  lemma QuotientUnique(a: real, b: real, q: real)
    requires b != 0.0 && q * b == a
    ensures a / b == q
  {
  }
}
