/** Mid-rank order statistics (internal/store/columns.go, `quantiles`): a pool with more than q
    values is replaced by q of them, and the replacement is close to the pool as a distribution. */
module Quantiles {
  import opened Sorting
  import opened Distribution
  import opened Arithmetic

  /** The rank of the k-th quantile of `len` sorted values: the middle of the k-th of q equal shares. */
  function Rank(k: int, len: int, q: int): int
    requires q > 0
  {
    (2 * k + 1) * len / (2 * q)
  }

  lemma RankBelow(k: int, len: int, q: int, c: int)
    requires q > 0
    ensures Rank(k, len, q) < c <==> (2 * k + 1) * len < c * (2 * q)
  {
    QuotientBelow((2 * k + 1) * len, 2 * q, c);
  }

  lemma RankInRange(k: int, len: int, q: int)
    requires 0 <= k < q < len
    ensures 0 <= Rank(k, len, q) < len
  {
    hide Rank;
    RankBelow(k, len, q, 0);
    RankBelow(k, len, q, len);
    MulStrict(2 * k + 1, 2 * q, len);
    MulStrict(0, 2 * k + 1, len);
    assert 2 * q * len == len * (2 * q);
  }

  /** What `quantiles` returns for a pool, as a function. */
  function QuantilesOf(pool: seq<int>, q: nat): (out: seq<int>)
    ensures |out| == if |pool| <= q then |pool| else q
  {
    var s := Sorted(pool);
    if |s| <= q then s
    else seq(q, k requires 0 <= k < q => (RankInRange(k, |s|, q); s[Rank(k, |s|, q)]))
  }

  /** `quantiles`: sorts the pool in place and fills the result by index. */
  method Quantiles(pool: array<int>, q: nat) returns (out: array<int>)
    modifies pool
    ensures pool[..] == Sorted(old(pool[..]))
    ensures fresh(out) && out[..] == QuantilesOf(old(pool[..]), q)
  {
    hide Rank, Sorted;
    SortSlice(pool);
    if pool.Length <= q {
      out := new int[pool.Length];
      forall i | 0 <= i < pool.Length { out[i] := pool[i]; }
      assert out[..] == pool[..];
      return;
    }
    out := new int[q];
    ghost var s := pool[..];
    for k := 0 to q
      invariant pool[..] == s
      invariant forall i :: 0 <= i < k ==> 0 <= Rank(i, |s|, q) < |s| && out[i] == s[Rank(i, |s|, q)]
    {
      RankInRange(k, pool.Length, q);
      out[k] := pool[Rank(k, pool.Length, q)];
    }
    Filled(old(pool[..]), q, out[..]);
  }

  lemma Filled(pool: seq<int>, q: nat, out: seq<int>)
    requires |pool| > q == |out|
    requires forall i :: 0 <= i < q ==>
      0 <= Rank(i, |pool|, q) < |pool| && out[i] == Sorted(pool)[Rank(i, |pool|, q)]
    ensures out == QuantilesOf(pool, q)
  {
    hide Rank;
  }

  /** With more values than quantiles no two quantiles are the same sample. */
  lemma RanksIncrease(j: int, k: int, len: int, q: int)
    requires 0 <= j < k < q < len
    ensures Rank(j, len, q) < Rank(k, len, q) < len
  {
    hide Rank;
    RankInRange(j, len, q);
    RankInRange(k, len, q);
    var c := Rank(j, len, q) + 1;
    RankBelow(j, len, q, c - 1);
    RankBelow(k, len, q, c);
    MulDistributes(c - 1, 1, 2 * q);
    MulMonotone(2 * j + 3, 2 * k + 1, len);
    MulDistributes(2 * j + 1, 2, len);
  }

  // ---------------------------------------------------------------- closeness of the two CDFs

  /** How many of the first k quantiles have a rank below c. */
  function RanksBelow(k: nat, c: int, len: int, q: int): (m: nat)
    requires q > 0
    ensures m <= k
  {
    if k == 0 then 0 else RanksBelow(k - 1, c, len, q) + if Rank(k - 1, len, q) < c then 1 else 0
  }

  /** Ranks grow with k, so the ones below c come first: m of them means the last of those is below c
      and the next one is not. */
  lemma {:induction false} RanksBelowSplit(k: nat, c: int, len: int, q: int)
    requires k <= q && 0 < q < len
    ensures var m := RanksBelow(k, c, len, q);
            && (m > 0 ==> (2 * m - 1) * len < c * (2 * q))
            && (m < k ==> (2 * m + 1) * len >= c * (2 * q))
  {
    hide Rank;
    if k > 0 {
      RanksBelowSplit(k - 1, c, len, q);
      RankBelow(k - 1, len, q, c);
      var m := RanksBelow(k - 1, c, len, q);
      if m < k - 1 {
        MulMonotone(2 * m + 1, 2 * (k - 1) + 1, len);
      }
    }
  }

  lemma {:induction false} CountOfPicked(s: seq<int>, out: seq<int>, v: int, q: nat)
    requires 0 < q < |s| && IsSorted(s) && |out| <= q
    requires forall k :: 0 <= k < |out| ==> 0 <= Rank(k, |s|, q) < |s| && out[k] == s[Rank(k, |s|, q)]
    ensures Count(out, v) == RanksBelow(|out|, Count(s, v), |s|, q)
  {
    hide Rank;
    if out != [] {
      var k := |out| - 1;
      CountOfPicked(s, out[..k], v, q);
      CountSplits(s, v);
      assert s[Rank(k, |s|, q)] <= v <==> Rank(k, |s|, q) < Count(s, v);
    }
  }

  lemma CountOfQuantiles(pool: seq<int>, q: nat, v: int)
    requires 0 < q < |pool|
    ensures Count(QuantilesOf(pool, q), v) == RanksBelow(q, Count(pool, v), |pool|, q)
  {
    hide Rank;
    var s, len := Sorted(pool), |pool|;
    CountOfSorted(pool, v);
    forall k | 0 <= k < q
      ensures 0 <= Rank(k, len, q) < len && QuantilesOf(pool, q)[k] == s[Rank(k, len, q)]
    {
      RankInRange(k, len, q);
    }
    CountOfPicked(s, QuantilesOf(pool, q), v, q);
  }

  /** Twice the difference of the two counts, over a common denominator, is at most the pool's size. */
  lemma CountsClose(pool: seq<int>, q: nat, v: int)
    requires 0 < q < |pool|
    ensures -|pool| <= 2 * Count(QuantilesOf(pool, q), v) * |pool| - 2 * q * Count(pool, v) <= |pool|
  {
    hide Rank, Count, QuantilesOf;
    CountOfQuantiles(pool, q, v);
    RanksBelowSplit(q, Count(pool, v), |pool|, q);
    Enclose(Count(QuantilesOf(pool, q), v), Count(pool, v), |pool|, q);
  }

  lemma Enclose(m: int, c: int, len: int, q: int)
    requires 0 <= m <= q && 0 <= c <= len
    requires m > 0 ==> (2 * m - 1) * len < c * (2 * q)
    requires m < q ==> (2 * m + 1) * len >= c * (2 * q)
    ensures -len <= 2 * m * len - 2 * q * c <= len
  {
    MulDistributes(2 * m, 1, len);
    MulMonotone(0, c, 2 * q);
    MulMonotone(c, len, 2 * q);
    assert c * (2 * q) == 2 * q * c && len * (2 * q) == 2 * q * len;
  }

  lemma ShareClose(m: int, n: int, c: int, len: int)
    requires n > 0 && len > 0 && -len <= 2 * m * len - 2 * n * c <= len
    ensures Abs(Share(m, n) - Share(c, len)) <= Share(1, 2 * n)
  {
    var x, y, u := Share(m, n), Share(c, len), Share(1, 2 * n);
    var N, L := n as real, len as real;
    assert x * N == m as real && y * L == c as real && u * (2.0 * N) == 1.0;
    var d := 2.0 * N * L;
    OverCommonDenominator(x, y, u, N, L, m as real, c as real);
    assert (2 * m * len - 2 * n * c) as real == 2.0 * m as real * L - 2.0 * N * c as real;
    hide Share;
    Cancel(x - y, u, d);
    Cancel(y - x, u, d);
  }

  lemma OverCommonDenominator(x: real, y: real, u: real, n: real, l: real, m: real, c: real)
    requires x * n == m && y * l == c && u * (2.0 * n) == 1.0
    ensures (x - y) * (2.0 * n * l) == 2.0 * m * l - 2.0 * n * c
    ensures (y - x) * (2.0 * n * l) == 2.0 * n * c - 2.0 * m * l
    ensures u * (2.0 * n * l) == l
  {
    var d := 2.0 * n * l;
    assert x * d == 2.0 * l * (x * n);
    assert y * d == 2.0 * n * (y * l);
    assert u * d == u * (2.0 * n) * l;
    assert (x - y) * d == x * d - y * d && (y - x) * d == y * d - x * d;
  }

  lemma Cancel(x: real, u: real, d: real)
    requires d > 0.0 && x * d <= u * d
    ensures x <= u
  {
    assert x > u ==> (x - u) * d > 0.0;
  }

  /** At every value, the share of quantiles at most that value is within 1/(2q) of the share of
      pooled samples. */
  lemma QuantilesCdf(pool: seq<int>, q: nat, v: int)
    requires 0 < q < |pool|
    ensures Abs(Cdf(QuantilesOf(pool, q), v) - Cdf(pool, v)) <= Share(1, 2 * q)
  {
    hide Share;
    CountsClose(pool, q, v);
    ShareClose(Count(QuantilesOf(pool, q), v), q, Count(pool, v), |pool|);
  }

  lemma {:induction false} AreaWithin(a: seq<int>, b: seq<int>, hi: nat, from: nat, to: nat, bound: real)
    requires |a| > 0 && |b| > 0 && from <= to && bound >= 0.0
    requires forall x :: Gap(a, b, x) <= bound
    requires forall x :: x < from || to <= x ==> Gap(a, b, x) == 0.0
    ensures Area(a, b, hi) <= Strip(bound, if hi <= from then 0 else if hi <= to then hi - from else to - from)
  {
    hide Gap;
    if hi > 0 {
      AreaWithin(a, b, hi - 1, from, to, bound);
      OneMoreStrip(bound, hi - 1 - from);
      assert Gap(a, b, hi - 1) <= bound;
    }
  }

  /** Hence the quantiles sit within (max - min)/(2q) of the pool, in the samples' own units. */
  lemma QuantilesDistance(pool: seq<Sample>, q: nat, min: Sample, max: Sample)
    requires 0 < q < |pool|
    requires forall i :: 0 <= i < |pool| ==> min <= pool[i] <= max
    ensures forall i :: 0 <= i < q ==> QuantilesOf(pool, q)[i] in pool
    ensures Distance(seq(q, i requires 0 <= i < q => QuantilesOf(pool, q)[i]), pool)
            <= Strip(Share(1, 2 * q), max - min)
  {
    hide Share, Strip, Rank;
    var out := QuantilesOf(pool, q);
    SortedKeepsMembers(pool);
    forall i | 0 <= i < q ensures out[i] in pool {
      RankInRange(i, |pool|, q);
    }
    var res: seq<Sample> := seq(q, i requires 0 <= i < q => out[i]);
    assert res == out;
    assert min <= max by { assert min <= pool[0] <= max; }
    forall x ensures Gap(out, pool, x) <= Share(1, 2 * q) {
      QuantilesCdf(pool, q, x);
    }
    GapOutside(out, pool, min, max);
    ShareAdds(1, 0, 2 * q);
    AreaWithin(out, pool, LIMIT, min, max, Share(1, 2 * q));
  }

  lemma GapOutside(a: seq<int>, b: seq<int>, min: int, max: int)
    requires |a| > 0 && |b| > 0
    requires forall i :: 0 <= i < |a| ==> min <= a[i] <= max
    requires forall i :: 0 <= i < |b| ==> min <= b[i] <= max
    ensures forall x :: x < min || max <= x ==> Gap(a, b, x) == 0.0
  {
    hide Share;
    ShareEnds(|a|);
    ShareEnds(|b|);
    forall x | x < min || max <= x ensures Gap(a, b, x) == 0.0 {
      CountIs(a, if x < min then 0 else |a|, x);
      CountIs(b, if x < min then 0 else |b|, x);
    }
  }
}
