/** Distance between two empirical distributions (internal/shape/shape.go).
    Samples are 32-bit unsigned integers; `float64` arithmetic is modelled over `real`. */
module Distribution {
  import opened Sorting

  const LIMIT: int := 0x1_0000_0000

  type Sample = x: int | 0 <= x < LIMIT

  // ---------------------------------------------------------------- specification

  function Abs(x: real): real { if x < 0.0 then -x else x }

  function Share(k: int, n: int): real
    requires n > 0
  {
    k as real / n as real
  }

  function Strip(gap: real, width: int): real {
    gap * width as real
  }

  /** The empirical distribution function: the share of `s` that is at most `x`. */
  function Cdf(s: seq<int>, x: int): real
    requires |s| > 0
  {
    Share(Count(s, x), |s|)
  }

  function Gap(a: seq<int>, b: seq<int>, x: int): real
    requires |a| > 0 && |b| > 0
  {
    Abs(Cdf(a, x) - Cdf(b, x))
  }

  /** The area between the two distribution functions over [0, hi). Both are step functions that
      change at integers only, so it is a sum of unit strips. */
  function Area(a: seq<int>, b: seq<int>, hi: nat): real
    requires |a| > 0 && |b| > 0
  {
    if hi == 0 then 0.0 else Area(a, b, hi - 1) + Gap(a, b, hi - 1)
  }

  /** The earth mover's distance, defined without any sweep. */
  function Distance(a: seq<Sample>, b: seq<Sample>): real {
    if |a| == 0 || |b| == 0 then 0.0 else Area(a, b, LIMIT)
  }

  // ---------------------------------------------------------------- the sweep

  lemma QuotientIs(x: real, n: real, q: real)
    requires n > 0.0 && q * n == x
    ensures x / n == q
  {
  }

  lemma ShareEnds(n: nat)
    requires n > 0
    ensures Share(0, n) == 0.0 && Share(n, n) == 1.0
  {
  }

  lemma OneMoreStrip(gap: real, k: int)
    ensures gap * (k + 1) as real == gap * k as real + gap
  {
  }

  lemma {:induction false} AreaOverConstantGap(a: seq<int>, b: seq<int>, lo: nat, hi: nat, gap: real)
    requires |a| > 0 && |b| > 0 && lo <= hi
    requires forall x :: lo <= x < hi ==> Gap(a, b, x) == gap
    ensures Area(a, b, hi) == Area(a, b, lo) + gap * (hi - lo) as real
    decreases hi
  {
    hide Gap;
    if lo < hi {
      AreaOverConstantGap(a, b, lo, hi - 1, gap);
      OneMoreStrip(gap, hi - 1 - lo);
    }
  }

  /** Between two consecutive sample values neither distribution function moves. */
  lemma AreaOverStep(a: seq<int>, b: seq<int>, i: nat, j: nat, lo: nat, hi: nat)
    requires |a| > 0 && |b| > 0 && i <= |a| && j <= |b| && lo <= hi
    requires forall k :: 0 <= k < i ==> a[k] <= lo
    requires forall k :: i <= k < |a| ==> hi <= a[k]
    requires forall k :: 0 <= k < j ==> b[k] <= lo
    requires forall k :: j <= k < |b| ==> hi <= b[k]
    ensures Area(a, b, hi) ==
            Area(a, b, lo) + Strip(Abs(Share(i, |a|) - Share(j, |b|)), hi - lo)
  {
    hide Share, Area, Count;
    var gap := Abs(Share(i, |a|) - Share(j, |b|));
    forall x | lo <= x < hi ensures Gap(a, b, x) == gap {
      CountIs(a, i, x);
      CountIs(b, j, x);
    }
    AreaOverConstantGap(a, b, lo, hi, gap);
  }

  lemma {:induction false} AreaDependsOnCounts(a: seq<int>, b: seq<int>, c: seq<int>, d: seq<int>, hi: nat)
    requires |a| == |c| > 0 && |b| == |d| > 0
    requires forall x :: Count(a, x) == Count(c, x) && Count(b, x) == Count(d, x)
    ensures Area(a, b, hi) == Area(c, d, hi)
  {
    hide Share, Count;
    if hi > 0 {
      AreaDependsOnCounts(a, b, c, d, hi - 1);
      assert Count(a, hi - 1) == Count(c, hi - 1) && Count(b, hi - 1) == Count(d, hi - 1);
    }
  }

  lemma AreaOfSorted(a: seq<int>, b: seq<int>, hi: nat)
    requires |a| > 0 && |b| > 0
    ensures Area(Sorted(a), Sorted(b), hi) == Area(a, b, hi)
  {
    forall x ensures Count(a, x) == Count(Sorted(a), x) && Count(b, x) == Count(Sorted(b), x) {
      CountOfSorted(a, x);
      CountOfSorted(b, x);
    }
    AreaDependsOnCounts(a, b, Sorted(a), Sorted(b), hi);
  }

  /** `sortedFloats`: converting a 32-bit sample to a float64 is exact, so the values stay integers
      here; `slices.Sort` is represented by its result. */
  method SortedFloats(x: seq<Sample>) returns (out: array<int>)
    ensures fresh(out) && out[..] == Sorted(x)
  {
    out := new int[|x|];
    for i := 0 to |x|
      invariant out[..i] == x[..i]
    {
      out[i] := x[i];
    }
    assert out[..] == x;
    SortSlice(out);
  }

  method SortSlice(a: array<int>)
    modifies a
    ensures a[..] == Sorted(old(a[..]))
  {
    var sorted := Sorted(a[..]);
    forall i | 0 <= i < a.Length {
      a[i] := sorted[i];
    }
    assert a[..] == sorted;
  }

  lemma SweepStep(a: seq<int>, b: seq<int>, i: nat, j: nat, lo: nat, hi: nat, started: bool)
    requires |a| > 0 && |b| > 0 && i <= |a| && j <= |b| && lo <= hi
    requires !started ==> lo == i == j == 0
    requires forall k :: 0 <= k < i ==> a[k] <= lo
    requires forall k :: i <= k < |a| ==> hi <= a[k]
    requires forall k :: 0 <= k < j ==> b[k] <= lo
    requires forall k :: j <= k < |b| ==> hi <= b[k]
    ensures Area(a, b, hi) ==
            if started then Area(a, b, lo) + Strip(Abs(Share(i, |a|) - Share(j, |b|)), hi - lo) else 0.0
  {
    AreaOverStep(a, b, i, j, lo, hi);
  }

  lemma SweepEnd(a: seq<int>, b: seq<int>, lo: nat)
    requires |a| > 0 && |b| > 0 && lo <= LIMIT
    requires forall k :: 0 <= k < |a| ==> a[k] <= lo
    requires forall k :: 0 <= k < |b| ==> b[k] <= lo
    ensures Area(a, b, LIMIT) == Area(a, b, lo)
  {
    AreaOverStep(a, b, |a|, |b|, lo, LIMIT);
    ShareEnds(|a|);
    ShareEnds(|b|);
  }

  /** `Wasserstein1`: the two-pointer sweep computes the area between the distribution functions,
      for samples in any order, with any ties and any two lengths. */
  method Wasserstein1(a: seq<Sample>, b: seq<Sample>) returns (w: real)
    ensures w == Distance(a, b)
  {
    hide Share, Strip, Abs, Count, Sorted;
    if |a| == 0 || |b| == 0 {
      return 0.0;
    }
    var A := SortedFloats(a);
    var B := SortedFloats(b);
    SortedKeepsMembers(a);
    SortedKeepsMembers(b);
    ghost var sa, sb := A[..], B[..];
    assert IsSorted(sa) && IsSorted(sb);
    w := 0.0;
    var prevX, cdfA, cdfB := 0, 0.0, 0.0;
    var i, j := 0, 0;
    var started := false;
    while i < A.Length || j < B.Length
      invariant A[..] == sa && B[..] == sb && 0 <= prevX < LIMIT
      invariant 0 <= i <= A.Length && 0 <= j <= B.Length
      invariant !started ==> i == 0 && j == 0 && prevX == 0 && w == 0.0
      invariant started ==> cdfA == Share(i, A.Length) && cdfB == Share(j, B.Length)
      invariant forall k :: 0 <= k < i ==> sa[k] <= prevX
      invariant forall k :: i <= k < |sa| ==> if started then prevX < sa[k] else prevX <= sa[k]
      invariant forall k :: 0 <= k < j ==> sb[k] <= prevX
      invariant forall k :: j <= k < |sb| ==> if started then prevX < sb[k] else prevX <= sb[k]
      invariant w == Area(sa, sb, prevX)
      decreases A.Length - i + B.Length - j
    {
      var x;
      if j >= B.Length || (i < A.Length && A[i] <= B[j]) {
        x := A[i];
      } else {
        x := B[j];
      }
      SweepStep(sa, sb, i, j, prevX, x, started);
      assert |sa| == A.Length && |sb| == B.Length;
      if started {
        w := w + Strip(Abs(cdfA - cdfB), x - prevX);
      }
      ghost var i0, j0 := i, j;
      while i < A.Length && A[i] == x
        invariant i0 <= i <= A.Length && forall k :: i0 <= k < i ==> sa[k] == x
      {
        i := i + 1;
      }
      while j < B.Length && B[j] == x
        invariant j0 <= j <= B.Length && forall k :: j0 <= k < j ==> sb[k] == x
      {
        j := j + 1;
      }
      cdfA, cdfB := Share(i, A.Length), Share(j, B.Length);
      prevX := x;
      started := true;
    }
    SweepEnd(sa, sb, prevX);
    AreaOfSorted(a, b, LIMIT);
  }

  // ---------------------------------------------------------------- metric laws

  lemma {:induction false} AreaSymmetric(a: seq<int>, b: seq<int>, hi: nat)
    requires |a| > 0 && |b| > 0
    ensures Area(a, b, hi) == Area(b, a, hi)
  {
    hide Share, Count;
    if hi > 0 {
      AreaSymmetric(a, b, hi - 1);
    }
  }

  lemma DistanceSymmetric(a: seq<Sample>, b: seq<Sample>)
    ensures Distance(a, b) == Distance(b, a)
  {
    if |a| > 0 && |b| > 0 {
      AreaSymmetric(a, b, LIMIT);
    }
  }

  lemma {:induction false} AreaTriangle(a: seq<int>, b: seq<int>, c: seq<int>, hi: nat)
    requires |a| > 0 && |b| > 0 && |c| > 0
    ensures Area(a, c, hi) <= Area(a, b, hi) + Area(b, c, hi)
  {
    hide Share, Count;
    if hi > 0 {
      AreaTriangle(a, b, c, hi - 1);
    }
  }

  /** The triangle inequality holds through every middle sample but an empty one, which is at distance 0
      from everything: through that, only between samples already at distance 0. */
  lemma DistanceTriangle(a: seq<Sample>, b: seq<Sample>, c: seq<Sample>)
    ensures Distance(a, c) <= Distance(a, b) + Distance(b, c) <==> |b| > 0 || Distance(a, c) == 0.0
  {
    if |a| > 0 && |c| > 0 {
      AreaMonotone(a, c, 0, LIMIT);
      if |b| > 0 {
        AreaTriangle(a, b, c, LIMIT);
      }
    } else if |a| > 0 && |b| > 0 {
      AreaMonotone(a, b, 0, LIMIT);
    } else if |c| > 0 && |b| > 0 {
      AreaMonotone(b, c, 0, LIMIT);
    }
  }

  lemma {:induction false} AreaMonotone(a: seq<int>, b: seq<int>, lo: nat, hi: nat)
    requires |a| > 0 && |b| > 0 && lo <= hi
    ensures Area(a, b, lo) <= Area(a, b, hi)
    decreases hi
  {
    hide Share, Count;
    if lo < hi {
      AreaMonotone(a, b, lo, hi - 1);
    }
  }

  lemma StripIsGap(a: seq<int>, b: seq<int>, x: nat)
    requires |a| > 0 && |b| > 0
    ensures Area(a, b, x + 1) == Area(a, b, x) + Gap(a, b, x) && Area(a, b, 0) == 0.0
  {
    hide Gap;
  }

  ghost predicate SameDistribution(a: seq<int>, b: seq<int>)
    requires |a| > 0 && |b| > 0
  {
    forall x: int :: Cdf(a, x) == Cdf(b, x)
  }

  lemma {:induction false} AreaOfSame(a: seq<int>, b: seq<int>, hi: nat)
    requires |a| > 0 && |b| > 0 && SameDistribution(a, b)
    ensures Area(a, b, hi) == 0.0
  {
    hide Share, Count;
    if hi > 0 {
      AreaOfSame(a, b, hi - 1);
      assert Cdf(a, hi - 1) == Cdf(b, hi - 1);
    }
  }

  /** Distance zero means the same distribution, and nothing else does. */
  lemma DistanceZero(a: seq<Sample>, b: seq<Sample>)
    requires |a| > 0 && |b| > 0
    ensures Distance(a, b) == 0.0 <==> SameDistribution(a, b)
  {
    hide Share, Count, Area;
    ShareEnds(|a|);
    ShareEnds(|b|);
    if SameDistribution(a, b) {
      AreaOfSame(a, b, LIMIT);
    }
    if Distance(a, b) == 0.0 {
      forall x: int ensures Cdf(a, x) == Cdf(b, x) {
        if x < 0 {
          CountIs(a, 0, x);
          CountIs(b, 0, x);
        } else if x >= LIMIT {
          CountIs(a, |a|, x);
          CountIs(b, |b|, x);
        } else {
          AreaMonotone(a, b, 0, x);
          AreaMonotone(a, b, x + 1, LIMIT);
          StripIsGap(a, b, x);
        }
      }
    }
  }

  function Repeat(a: seq<Sample>, k: nat): (r: seq<Sample>)
    ensures |r| == k * |a|
  {
    if k == 0 then [] else Repeat(a, k - 1) + a
  }

  lemma {:induction false} CountConcat(s: seq<int>, t: seq<int>, v: int)
    ensures Count(s + t, v) == Count(s, v) + Count(t, v)
  {
    if t == [] {
      assert s + t == s;
    } else {
      CountConcat(s, t[..|t| - 1], v);
      assert (s + t)[..|s + t| - 1] == s + t[..|t| - 1];
    }
  }

  lemma OneMoreTime(k: int, c: int)
    ensures k * c + c == (k + 1) * c
  {
  }

  lemma {:induction false} CountRepeat(a: seq<Sample>, k: nat, v: int)
    ensures Count(Repeat(a, k), v) == k * Count(a, v)
  {
    if k > 0 {
      CountRepeat(a, k - 1, v);
      CountConcat(Repeat(a, k - 1), a, v);
      OneMoreTime(k - 1, Count(a, v));
    }
  }

  lemma CancelFactor(c: int, k: int, n: int)
    requires k > 0 && n > 0
    ensures k * n > 0 && (k * c) as real / (k * n) as real == c as real / n as real
  {
    var q := c as real / n as real;
    assert (k * c) as real == k as real * (q * n as real) == q * (k * n) as real;
  }

  /** Only the shape of a sample matters, not how many times it was drawn: repeating every sample
      k times leaves its distance to everything unchanged. */
  lemma RepeatChangesNothing(a: seq<Sample>, k: nat, b: seq<Sample>)
    requires |a| > 0 && k > 0 && |b| > 0
    ensures Distance(Repeat(a, k), a) == 0.0
    ensures Distance(Repeat(a, k), b) == Distance(a, b)
  {
    var r := Repeat(a, k);
    assert |r| > 0 by { assert k * |a| >= 1 * 1; }
    forall x: int ensures Cdf(r, x) == Cdf(a, x) {
      CountRepeat(a, k, x);
      CancelFactor(Count(a, x), k, |a|);
    }
    assert SameDistribution(r, a);
    DistanceZero(r, a);
    DistanceTriangle(r, a, b);
    DistanceTriangle(a, r, b);
    DistanceSymmetric(a, r);
  }

  // ---------------------------------------------------------------- the mean

  function Sum(s: seq<int>): int {
    if s == [] then 0 else Sum(s[..|s| - 1]) + s[|s| - 1]
  }

  function Mean(s: seq<Sample>): real
    requires |s| > 0
  {
    Sum(s) as real / |s| as real
  }

  /** How many samples lie above each of 0, 1, .., hi - 1, added up. */
  function Above(s: seq<int>, hi: nat): int {
    if hi == 0 then 0 else Above(s, hi - 1) + |s| - Count(s, hi - 1)
  }

  function Min(x: int, y: int): int { if x < y then x else y }

  lemma {:induction false} AboveExtends(s: seq<int>, v: nat, hi: nat)
    ensures Above(s + [v], hi) == Above(s, hi) + Min(v, hi)
  {
    if hi > 0 {
      AboveExtends(s, v, hi - 1);
      assert (s + [v])[..|s|] == s;
    }
  }

  lemma {:induction false} AboveNothing(hi: nat)
    ensures Above([], hi) == 0
  {
    if hi > 0 { AboveNothing(hi - 1); }
  }

  lemma {:induction false} AboveIsSum(s: seq<Sample>)
    ensures Above(s, LIMIT) == Sum(s)
  {
    if s == [] {
      AboveNothing(LIMIT);
    } else {
      var t := s[..|s| - 1];
      AboveIsSum(t);
      AboveExtends(t, s[|s| - 1], LIMIT);
      assert t + [s[|s| - 1]] == s;
    }
  }

  lemma {:induction false} AreaBoundsMeans(a: seq<int>, b: seq<int>, hi: nat)
    requires |a| > 0 && |b| > 0
    ensures Abs(Above(a, hi) as real / |a| as real - Above(b, hi) as real / |b| as real) <= Area(a, b, hi)
  {
    if hi > 0 {
      AreaBoundsMeans(a, b, hi - 1);
      AboveStep(a, hi);
      AboveStep(b, hi);
    }
  }

  lemma AboveStep(s: seq<int>, hi: nat)
    requires |s| > 0 && hi > 0
    ensures Above(s, hi) as real / |s| as real == Above(s, hi - 1) as real / |s| as real + 1.0 - Cdf(s, hi - 1)
  {
    var n, above, c := |s| as real, Above(s, hi - 1) as real, Count(s, hi - 1) as real;
    assert (above / n + 1.0 - c / n) * n == above / n * n + n - c / n * n;
    QuotientIs(above + n - c, n, above / n + 1.0 - c / n);
  }

  /** A distribution cannot move its mean further than it moves. */
  lemma DistanceBoundsMeanShift(a: seq<Sample>, b: seq<Sample>)
    requires |a| > 0 && |b| > 0
    ensures Abs(Mean(a) - Mean(b)) <= Distance(a, b)
  {
    AboveIsSum(a);
    AboveIsSum(b);
    AreaBoundsMeans(a, b, LIMIT);
  }

  // ---------------------------------------------------------------- equal lengths: sorted pairing

  function AbsInt(x: int): int { if x < 0 then -x else x }

  /** Total distance between the first n pairs, every value cut off at hi. */
  function Pairing(a: seq<int>, b: seq<int>, n: nat, hi: int): int
    requires n <= |a| && n <= |b|
  {
    if n == 0 then 0
    else Pairing(a, b, n - 1, hi) + AbsInt(Min(a[n - 1], hi) - Min(b[n - 1], hi))
  }

  /** How many of the first n pairs have x between their two values. */
  function Crossings(a: seq<int>, b: seq<int>, n: nat, x: int): int
    requires n <= |a| && n <= |b|
  {
    if n == 0 then 0
    else Crossings(a, b, n - 1, x) + if (a[n - 1] <= x) != (b[n - 1] <= x) then 1 else 0
  }

  lemma {:induction false} PairingStep(a: seq<int>, b: seq<int>, n: nat, hi: int)
    requires n <= |a| && n <= |b|
    ensures Pairing(a, b, n, hi + 1) == Pairing(a, b, n, hi) + Crossings(a, b, n, hi)
  {
    if n > 0 { PairingStep(a, b, n - 1, hi); }
  }

  /** Paired in order, the crossings at x are exactly the surplus of one side's count over the other's. */
  lemma {:induction false} CrossingsOfSorted(a: seq<int>, b: seq<int>, n: nat, x: int)
    requires n <= |a| && n <= |b| && IsSorted(a) && IsSorted(b)
    ensures Crossings(a, b, n, x) == AbsInt(Min(Count(a, x), n) - Min(Count(b, x), n))
  {
    if n > 0 {
      CrossingsOfSorted(a, b, n - 1, x);
      CountSplits(a, x);
      CountSplits(b, x);
      assert a[n - 1] <= x <==> n - 1 < Count(a, x);
      assert b[n - 1] <= x <==> n - 1 < Count(b, x);
    }
  }

  lemma ShareAdds(p: int, q: int, n: nat)
    requires n > 0
    ensures Share(p, n) + Share(q, n) == Share(p + q, n)
    ensures p >= 0 ==> Share(p, n) >= 0.0
  {
    var x, y, d := p as real / n as real, q as real / n as real, n as real;
    assert (x + y) * d == x * d + y * d;
    QuotientIs((p + q) as real, d, x + y);
    assert p >= 0 && x < 0.0 ==> x * d < 0.0;
  }

  lemma GapOfEqualLengths(a: seq<int>, b: seq<int>, x: int)
    requires |a| == |b| > 0
    ensures Gap(a, b, x) == Share(AbsInt(Count(a, x) - Count(b, x)), |a|)
  {
    hide Share, Count;
    ShareAdds(Count(a, x) - Count(b, x), Count(b, x), |a|);
    ShareAdds(Count(b, x) - Count(a, x), Count(a, x), |a|);
  }

  lemma {:induction false} AreaIsPairing(a: seq<int>, b: seq<int>, hi: nat)
    requires |a| == |b| > 0 && IsSorted(a) && IsSorted(b)
    requires forall i :: 0 <= i < |a| ==> a[i] >= 0 && b[i] >= 0
    ensures Area(a, b, hi) == Share(Pairing(a, b, |a|, hi), |a|)
  {
    hide Share;
    var n := |a|;
    if hi == 0 {
      PairingAtZero(a, b, n);
      ShareEnds(n);
    } else {
      AreaIsPairing(a, b, hi - 1);
      PairingStep(a, b, n, hi - 1);
      CrossingsOfSorted(a, b, n, hi - 1);
      GapOfEqualLengths(a, b, hi - 1);
      ShareAdds(Pairing(a, b, n, hi - 1), Crossings(a, b, n, hi - 1), n);
    }
  }

  lemma {:induction false} PairingAtZero(a: seq<int>, b: seq<int>, n: nat)
    requires n <= |a| && n <= |b|
    requires forall i :: 0 <= i < n ==> a[i] >= 0 && b[i] >= 0
    ensures Pairing(a, b, n, 0) == 0
  {
    if n > 0 { PairingAtZero(a, b, n - 1); }
  }

  function PairedDistance(a: seq<int>, b: seq<int>, n: nat): int
    requires n <= |a| && n <= |b|
  {
    if n == 0 then 0 else PairedDistance(a, b, n - 1) + AbsInt(a[n - 1] - b[n - 1])
  }

  lemma {:induction false} PairingAtLimit(a: seq<int>, b: seq<int>, n: nat)
    requires n <= |a| && n <= |b|
    requires forall i :: 0 <= i < n ==> a[i] < LIMIT && b[i] < LIMIT
    ensures Pairing(a, b, n, LIMIT) == PairedDistance(a, b, n)
  {
    if n > 0 { PairingAtLimit(a, b, n - 1); }
  }

  /** For equally many samples the distance is the mean gap between the k-th smallest of each. */
  lemma DistanceOfEqualLengths(a: seq<Sample>, b: seq<Sample>)
    requires |a| == |b| > 0
    ensures Distance(a, b) == Share(PairedDistance(Sorted(a), Sorted(b), |a|), |a|)
  {
    hide Share;
    SortedKeepsMembers(a);
    SortedKeepsMembers(b);
    AreaOfSorted(a, b, LIMIT);
    AreaIsPairing(Sorted(a), Sorted(b), LIMIT);
    PairingAtLimit(Sorted(a), Sorted(b), |a|);
  }
}
