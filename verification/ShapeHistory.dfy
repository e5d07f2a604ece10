/** What a shape rule remembers and compares with, in terms of the intervals it saw since a cold start
    (internal/alert/shape.go): which of them make up its baseline, and which divergences its history. */
module ShapeHistory {
  import opened Alert
  import opened Distribution
  import opened Scoring
  import opened ShapeMetrics

  // ---------------------------------------------------------------- the baseline

  /** The baseline of an interval that comes after these: the captured reference, or the samples of the last thirty of
      them, as a multiset. */
  ghost predicate IsBaseline(r: Rule, golden: seq<Sample>, before: seq<seq<Sample>>, baseline: seq<Sample>) {
    if r.golden then baseline == golden else multiset(baseline) == SamplesFrom(before, |before| - 30)
  }

  /** All samples of the intervals from the i-th on. */
  ghost function SamplesFrom(xs: seq<seq<Sample>>, i: int): multiset<Sample> {
    if xs == [] || |xs| <= i then multiset{}
    else SamplesFrom(xs[..|xs| - 1], i) + multiset(xs[|xs| - 1])
  }

  lemma {:induction false} AllFrom(xs: seq<seq<Sample>>, i: int)
    requires i <= 0
    ensures SamplesFrom(xs, i) == multiset(Pooled(xs))
  {
    if xs != [] { AllFrom(xs[..|xs| - 1], i); }
  }

  lemma {:induction false} PooledFrom(xs: seq<seq<Sample>>, i: nat)
    requires i <= |xs|
    ensures multiset(Pooled(xs[i..])) == SamplesFrom(xs, i)
  {
    if i == |xs| {
      assert xs[i..] == [];
    } else {
      var n := |xs| - 1;
      PooledFrom(xs[..n], i);
      assert xs[i..][..|xs| - i - 1] == xs[..n][i..];
      assert Pooled(xs[i..]) == Pooled(xs[..n][i..]) + xs[n];
    }
  }

  /** The intervals remembered are the last thirty. */
  lemma {:induction false} RemembersTheLast(root: real -> real, r: Rule, golden: seq<Sample>, xs: seq<seq<Sample>>)
    requires r.metric.Shape?
    ensures MemoryAfter(root, r, golden, xs).samples == xs[if |xs| <= 30 then 0 else |xs| - 30..]
  {
    hide *;
    if xs == [] {
      NothingSeen(root, r, golden);
    } else {
      RemembersTheLast(root, r, golden, xs[..|xs| - 1]);
      RemembersOneMore(root, r, golden, xs);
      LastThirty(xs);
    }
  }

  lemma NothingSeen(root: real -> real, r: Rule, golden: seq<Sample>)
    requires r.metric.Shape?
    ensures MemoryAfter(root, r, golden, []).samples == []
  {
  }

  lemma LastThirty(xs: seq<seq<Sample>>)
    requires xs != []
    ensures var n := |xs| - 1;
      Newest(xs[..n][if n <= 30 then 0 else n - 30..] + [xs[n]], WINDOW) == xs[if |xs| <= 30 then 0 else |xs| - 30..]
  {
    var n := |xs| - 1;
    var from := if n <= 30 then 0 else n - 30;
    assert xs[..n][from..] + [xs[n]] == xs[from..];
    assert |xs[from..]| > 30 ==> xs[from..][1..] == xs[from + 1..];
  }

  lemma RemembersOneMore(root: real -> real, r: Rule, golden: seq<Sample>, xs: seq<seq<Sample>>)
    requires r.metric.Shape? && xs != []
    ensures MemoryAfter(root, r, golden, xs).samples ==
      Newest(MemoryAfter(root, r, golden, xs[..|xs| - 1]).samples + [xs[|xs| - 1]], WINDOW)
  {
    hide Scored, Distance, Pooled, Newest;
  }

  function BaselineAfter(root: real -> real, r: Rule, golden: seq<Sample>, xs: seq<seq<Sample>>): seq<Sample>
    requires r.metric.Shape?
  {
    BaselineOf(r, MemoryAfter(root, r, golden, xs), golden)
  }

  lemma BaselineIs(root: real -> real, r: Rule, golden: seq<Sample>, xs: seq<seq<Sample>>)
    requires r.metric.Shape?
    ensures IsBaseline(r, golden, xs, BaselineAfter(root, r, golden, xs))
    ensures |MemoryAfter(root, r, golden, xs).samples| < MIN_BASELINE <==> |xs| < 10
  {
    RemembersTheLast(root, r, golden, xs);
    hide MemoryAfter, Pooled, SamplesFrom;
    if |xs| <= 30 {
      assert xs[0..] == xs;
      AllFrom(xs, |xs| - 30);
    } else {
      PooledFrom(xs, |xs| - 30);
    }
  }

  // ---------------------------------------------------------------- the value

  /** An interval can be compared: it was answered, there is a baseline, and a rolling one has ten intervals. */
  ghost predicate Comparable(r: Rule, before: seq<seq<Sample>>, x: seq<Sample>, baseline: seq<Sample>) {
    x != [] && baseline != [] && (r.golden || |before| >= 10)
  }

  /** How far an interval lies from its baseline, in milliseconds. */
  ghost predicate Diverges(r: Rule, golden: seq<Sample>, before: seq<seq<Sample>>, x: seq<Sample>, d: real) {
    exists baseline :: IsBaseline(r, golden, before, baseline) && Comparable(r, before, x, baseline)
      && d * 1000.0 == Distance(x, baseline)
  }

  ghost predicate Incomparable(r: Rule, golden: seq<Sample>, before: seq<seq<Sample>>, x: seq<Sample>) {
    exists baseline :: IsBaseline(r, golden, before, baseline) && !Comparable(r, before, x, baseline)
  }

  lemma MeasuredIs(root: real -> real, r: Rule, mem: Memory, x: seq<Sample>, golden: seq<Sample>)
    requires r.metric.Shape?
    ensures var (v, mem') := Measured(root, r, mem, x, golden);
      var baseline := BaselineOf(r, mem, golden);
      var d := Distance(x, baseline) / 1000.0;
      if x == [] || baseline == [] || (!r.golden && |mem.samples| < MIN_BASELINE) then !v.1 && mem'.divs == mem.divs
      else if r.tunable then v == (d, true) && mem'.divs == mem.divs
      else v == Scored(root, d, mem.divs) && mem'.divs == Newest(mem.divs + [d], DIV_HISTORY)
  {
    hide Scored, Distance, Pooled, Newest;
  }

  /** The value of a shape rule after these intervals: none for one that cannot be compared; for a tunable rule how far
      it lies from its baseline; for an automatic one the score of that against the divergences remembered. */
  lemma ShapeValueIs(root: real -> real, r: Rule, golden: seq<Sample>, xs: seq<seq<Sample>>, x: seq<Sample>)
      returns (d: real)
    requires r.metric.Shape?
    ensures var mem := MemoryAfter(root, r, golden, xs);
      var v := Measured(root, r, mem, x, golden).0;
      && (Incomparable(r, golden, xs, x) ==> !v.1)
      && (!Incomparable(r, golden, xs, x) ==>
           Diverges(r, golden, xs, x, d) && v == if r.tunable then (d, true) else Scored(root, d, mem.divs))
  {
    hide *;
    var mem := MemoryAfter(root, r, golden, xs);
    var baseline := BaselineAfter(root, r, golden, xs);
    BaselineAfterIs(root, r, golden, xs);
    MeasuredIs(root, r, mem, x, golden);
    BaselineIs(root, r, golden, xs);
    d := Distance(x, baseline) / 1000.0;
    Comparing(r, golden, xs, x, baseline, d);
  }

  lemma BaselineAfterIs(root: real -> real, r: Rule, golden: seq<Sample>, xs: seq<seq<Sample>>)
    requires r.metric.Shape?
    ensures BaselineAfter(root, r, golden, xs) == BaselineOf(r, MemoryAfter(root, r, golden, xs), golden)
  {
    hide MemoryAfter, BaselineOf;
  }

  /** Baselines of the same intervals are the same samples, so being comparable does not depend on their order. */
  lemma Comparing(r: Rule, golden: seq<Sample>, xs: seq<seq<Sample>>, x: seq<Sample>, baseline: seq<Sample>, d: real)
    requires IsBaseline(r, golden, xs, baseline) && d == Distance(x, baseline) / 1000.0
    ensures Incomparable(r, golden, xs, x) <==> x == [] || baseline == [] || (!r.golden && |xs| < 10)
    ensures !Incomparable(r, golden, xs, x) ==> Diverges(r, golden, xs, x, d)
  {
    hide Distance, SamplesFrom;
    if Incomparable(r, golden, xs, x) {
      var other :| IsBaseline(r, golden, xs, other) && !Comparable(r, xs, x, other);
      assert |multiset(other)| == |other| && |multiset(baseline)| == |baseline|;
    } else {
      assert Comparable(r, xs, x, baseline);
      assert d * 1000.0 == Distance(x, baseline);
    }
  }

  // ---------------------------------------------------------------- the history

  ghost predicate DivergesAt(r: Rule, golden: seq<Sample>, xs: seq<seq<Sample>>, j: int, d: real) {
    0 <= j < |xs| && !Incomparable(r, golden, xs[..j], xs[j]) && Diverges(r, golden, xs[..j], xs[j], d)
  }

  ghost predicate ComparableAt(r: Rule, golden: seq<Sample>, xs: seq<seq<Sample>>, j: int) {
    0 <= j < |xs| && !Incomparable(r, golden, xs[..j], xs[j])
  }

  /** The divergences of the last sixty intervals that could be compared, and of no others. */
  ghost predicate LastDivergences(r: Rule, golden: seq<Sample>, xs: seq<seq<Sample>>, divs: seq<real>, of: seq<int>) {
    && |divs| == |of| <= 60
    && (forall i, j :: 0 <= i < j < |of| ==> of[i] < of[j])
    && (forall i :: 0 <= i < |of| ==> DivergesAt(r, golden, xs, of[i], divs[i]))
    && (forall j :: ComparableAt(r, golden, xs, j) && j !in of ==> |of| == 60 && j < of[0])
  }

  /** What an automatic rule scores against. */
  lemma {:induction false} RemembersDivergences(root: real -> real, r: Rule, golden: seq<Sample>, xs: seq<seq<Sample>>)
      returns (of: seq<int>)
    requires r.metric.Shape? && !r.tunable
    ensures LastDivergences(r, golden, xs, MemoryAfter(root, r, golden, xs).divs, of)
  {
    hide *;
    if xs == [] {
      of := [];
      NothingRemembered(root, r, golden);
    } else {
      var n := |xs| - 1;
      var mem := MemoryAfter(root, r, golden, xs[..n]);
      var most := RemembersDivergences(root, r, golden, xs[..n]);
      MemoryStep(root, r, golden, xs);
      MeasuredIs(root, r, mem, xs[n], golden);
      BaselineAfterIs(root, r, golden, xs[..n]);
      BaselineIs(root, r, golden, xs[..n]);
      var d := Distance(xs[n], BaselineAfter(root, r, golden, xs[..n])) / 1000.0;
      Comparing(r, golden, xs[..n], xs[n], BaselineAfter(root, r, golden, xs[..n]), d);
      ComparableNow(r, golden, xs);
      if ComparableAt(r, golden, xs, n) {
        of := Newest(most + [n], 60);
        DivergenceAdded(r, golden, xs, mem.divs, most, d);
        HistoryIsSixty();
      } else {
        of := most;
        NothingAdded(r, golden, xs, mem.divs, most);
      }
    }
  }

  lemma HistoryIsSixty()
    ensures DIV_HISTORY == 60
  {
  }

  lemma ComparableNow(r: Rule, golden: seq<Sample>, xs: seq<seq<Sample>>)
    requires xs != []
    ensures ComparableAt(r, golden, xs, |xs| - 1) <==> !Incomparable(r, golden, xs[..|xs| - 1], xs[|xs| - 1])
  {
    hide Incomparable;
  }

  lemma NothingRemembered(root: real -> real, r: Rule, golden: seq<Sample>)
    requires r.metric.Shape?
    ensures LastDivergences(r, golden, [], MemoryAfter(root, r, golden, []).divs, [])
  {
    hide Incomparable, Diverges;
  }

  lemma MemoryStep(root: real -> real, r: Rule, golden: seq<Sample>, xs: seq<seq<Sample>>)
    requires r.metric.Shape? && xs != []
    ensures MemoryAfter(root, r, golden, xs) ==
      Measured(root, r, MemoryAfter(root, r, golden, xs[..|xs| - 1]), xs[|xs| - 1], golden).1
  {
    hide Measured;
  }

  lemma SamePast(r: Rule, golden: seq<Sample>, xs: seq<seq<Sample>>)
    requires xs != []
    ensures var n := |xs| - 1;
      && (forall j :: ComparableAt(r, golden, xs, j) <==>
           ComparableAt(r, golden, xs[..n], j) || (j == n && ComparableAt(r, golden, xs, n)))
      && (forall j, d :: DivergesAt(r, golden, xs[..n], j, d) ==> DivergesAt(r, golden, xs, j, d))
  {
    hide Incomparable, Diverges;
    var n := |xs| - 1;
    forall j | 0 <= j < n ensures xs[..n][..j] == xs[..j] && xs[..n][j] == xs[j] {
    }
  }

  lemma NothingAdded(r: Rule, golden: seq<Sample>, xs: seq<seq<Sample>>, divs: seq<real>, of: seq<int>)
    requires xs != [] && LastDivergences(r, golden, xs[..|xs| - 1], divs, of)
    requires !ComparableAt(r, golden, xs, |xs| - 1)
    ensures LastDivergences(r, golden, xs, divs, of)
  {
    SamePast(r, golden, xs);
    hide ComparableAt, DivergesAt;
  }

  lemma DivergenceAdded(r: Rule, golden: seq<Sample>, xs: seq<seq<Sample>>, divs: seq<real>, of: seq<int>, d: real)
    requires xs != [] && LastDivergences(r, golden, xs[..|xs| - 1], divs, of)
    requires Diverges(r, golden, xs[..|xs| - 1], xs[|xs| - 1], d) && ComparableAt(r, golden, xs, |xs| - 1)
    ensures LastDivergences(r, golden, xs, Newest(divs + [d], 60), Newest(of + [|xs| - 1], 60))
  {
    var n := |xs| - 1;
    SamePast(r, golden, xs);
    assert DivergesAt(r, golden, xs, n, d);
    forall i | 0 <= i < |of| ensures of[i] < n {
      assert DivergesAt(r, golden, xs[..n], of[i], divs[i]);
    }
    var all, ds := of + [n], divs + [d];
    hide ComparableAt, DivergesAt;
    forall i | 0 <= i < |all| ensures DivergesAt(r, golden, xs, all[i], ds[i]) {
    }
    LastKept(r, golden, xs, ds, all);
  }

  lemma LastKept(r: Rule, golden: seq<Sample>, xs: seq<seq<Sample>>, ds: seq<real>, all: seq<int>)
    requires 0 < |ds| == |all| <= 61
    requires forall i, j :: 0 <= i < j < |all| ==> all[i] < all[j]
    requires forall i :: 0 <= i < |all| ==> DivergesAt(r, golden, xs, all[i], ds[i])
    requires forall j :: ComparableAt(r, golden, xs, j) && j !in all ==> |all| == 61 && j < all[0]
    ensures LastDivergences(r, golden, xs, Newest(ds, 60), Newest(all, 60))
  {
    hide ComparableAt, DivergesAt;
    var of := Newest(all, 60);
    if |all| == 61 {
      assert of == all[1..];
      forall j | ComparableAt(r, golden, xs, j) && j !in of ensures j < of[0] {
        FirstOrLater(all, j);
      }
    }
  }

  lemma FirstOrLater(all: seq<int>, j: int)
    requires all != []
    ensures j in all <==> j == all[0] || j in all[1..]
  {
    assert all == [all[0]] + all[1..];
  }
}
