/** What the shape metrics measure (internal/alert/shape.go): how two-peaked an interval is, or how far it
    lies from a baseline, raw or scored against recent divergences. `float64` arithmetic is modelled over
    `real`; the square root is given. */
module ShapeMetrics {
  import opened Alert
  import opened Distribution
  import opened Bimodality
  import opened Scoring

  // ---------------------------------------------------------------- one series' memory

  const WINDOW: nat := 30
  const MIN_BASELINE: nat := 10
  const DIV_HISTORY: nat := 60

  /** The intervals a rolling baseline pools, and the divergences a score is calibrated against. */
  datatype Memory = Memory(samples: seq<seq<Sample>>, divs: seq<real>)

  const COLD: Memory := Memory([], [])

  function Newest<T>(s: seq<T>, cap: nat): (r: seq<T>)
    ensures |r| == if |s| > cap then cap else |s|
  {
    if |s| > cap then s[|s| - cap..] else s
  }

  function Pooled(samples: seq<seq<Sample>>): seq<Sample> {
    if samples == [] then [] else Pooled(samples[..|samples| - 1]) + samples[|samples| - 1]
  }

  function BaselineOf(r: Rule, mem: Memory, golden: seq<Sample>): seq<Sample> {
    if r.golden then golden else Pooled(mem.samples)
  }

  function Bimodal(x: seq<Sample>): (real, bool) {
    if |x| >= 4 && !AllEqual(x) then
      VarianceIs(x);
      (Coefficient(x), true)
    else (0.0, false)
  }

  /** The value of a shape metric, and what is remembered after it. */
  function Measured(root: real -> real, r: Rule, mem: Memory, x: seq<Sample>, golden: seq<Sample>)
    : ((real, bool), Memory)
    requires r.metric.Shape? || r.metric.Bimodality?
  {
    if r.metric.Bimodality? then (Bimodal(x), mem)
    else
      var baseline, pushed := BaselineOf(r, mem, golden), Newest(mem.samples + [x], WINDOW);
      if x == [] || baseline == [] || (!r.golden && |mem.samples| < MIN_BASELINE) then
        ((0.0, false), mem.(samples := pushed))
      else
        var divMS := Distance(x, baseline) / 1000.0;
        if r.tunable then ((divMS, true), mem.(samples := pushed))
        else (Scored(root, divMS, mem.divs), Memory(pushed, Newest(mem.divs + [divMS], DIV_HISTORY)))
  }

  class ShapeState {
    var samples: seq<seq<Sample>>
    var divs: seq<real>

    constructor From(mem: Memory)
      ensures Current() == mem
    {
      samples, divs := mem.samples, mem.divs;
    }

    function Current(): Memory
      reads this
    {
      Memory(samples, divs)
    }

    method Push(x: seq<Sample>)
      modifies this`samples
      ensures samples == Newest(old(samples) + [x], WINDOW)
    {
      samples := samples + [x];
      if |samples| > WINDOW {
        samples := samples[|samples| - WINDOW..];
      }
    }

    method PushDiv(d: real)
      modifies this`divs
      ensures divs == Newest(old(divs) + [d], DIV_HISTORY)
    {
      divs := divs + [d];
      if |divs| > DIV_HISTORY {
        divs := divs[|divs| - DIV_HISTORY..];
      }
    }

    method Pool() returns (out: seq<Sample>)
      ensures out == Pooled(samples)
    {
      out := [];
      for i := 0 to |samples|
        invariant out == Pooled(samples[..i])
      {
        assert samples[..i + 1][..i] == samples[..i];
        out := out + samples[i];
      }
      assert samples[..|samples|] == samples;
    }

    /** `value`: whatever the outcome, a shape rule remembers the interval. */
    method Value(root: real -> real, r: Rule, x: seq<Sample>, golden: seq<Sample>) returns (v: real, ok: bool)
      requires r.metric.Shape? || r.metric.Bimodality?
      modifies this
      ensures ((v, ok), Current()) == Measured(root, r, old(Current()), x, golden)
    {
      hide Scored, Distance, Coefficient, AllEqual, Pooled;
      if r.metric.Bimodality? {
        v, ok := BimodalityCoefficient(x);
        if !ok {
          v := 0.0;
        }
        return;
      }
      var baseline := golden;
      if !r.golden {
        baseline := Pool();
      }
      if |x| == 0 || |baseline| == 0 || (!r.golden && |samples| < MIN_BASELINE) {
        Push(x);
        return 0.0, false;
      }
      var divMS := Wasserstein1(x, baseline);
      divMS := divMS / 1000.0;
      Push(x);
      if r.tunable {
        return divMS, true;
      }
      v, ok := RobustZ(root, divMS, divs);
      PushDiv(divMS);
    }
  }

  // ---------------------------------------------------------------- from a cold start

  function MemoryAfter(root: real -> real, r: Rule, golden: seq<Sample>, xs: seq<seq<Sample>>): Memory
    requires r.metric.Shape?
  {
    if xs == [] then COLD
    else Measured(root, r, MemoryAfter(root, r, golden, xs[..|xs| - 1]), xs[|xs| - 1], golden).1
  }

  /** How many intervals a shape rule has to see before it says anything. */
  function WarmUp(r: Rule): nat {
    (if r.golden then 0 else MIN_BASELINE) + if r.tunable then 0 else MIN_DIVS
  }

  function Least(a: int, b: int): int { if a < b then a else b }

  predicate AllSeen(xs: seq<seq<Sample>>) { forall i :: 0 <= i < |xs| ==> xs[i] != [] }

  /** How much is remembered after k intervals: at most so much, and just so much when every one of them
      was answered. */
  lemma {:induction false} MemoryFills(root: real -> real, r: Rule, golden: seq<Sample>, xs: seq<seq<Sample>>)
    requires r.metric.Shape?
    ensures var mem := MemoryAfter(root, r, golden, xs);
      var k, before := |xs|, if r.golden then 0 else MIN_BASELINE;
      && |mem.samples| == Least(k, WINDOW)
      && |mem.divs| <= DIV_HISTORY && (|mem.divs| == 0 || |mem.divs| <= k - before)
      && (r.tunable ==> mem.divs == [])
      && (AllSeen(xs) && (r.golden ==> golden != []) && !r.tunable && k >= before ==>
           |mem.divs| == Least(k - before, DIV_HISTORY))
      && (AllSeen(xs) && k > 0 ==> Pooled(mem.samples) != [])
  {
    if xs != [] {
      var last := |xs| - 1;
      MemoryFills(root, r, golden, xs[..last]);
      var mem := MemoryAfter(root, r, golden, xs[..last]);
      LastPooled(Newest(mem.samples + [xs[last]], WINDOW), xs[last]);
      hide Scored, Distance, Pooled;
    }
  }

  lemma LastPooled(samples: seq<seq<Sample>>, x: seq<Sample>)
    requires samples != [] && samples[|samples| - 1] == x
    ensures x != [] ==> Pooled(samples) != []
  {
  }

  /** A shape rule says nothing before its warm-up is over, and, if every interval was answered (and a golden
      reference was captured), always says something after it. */
  lemma WarmUpIsExact(root: real -> real, r: Rule, golden: seq<Sample>, xs: seq<seq<Sample>>, x: seq<Sample>)
    requires r.metric.Shape?
    ensures var ok := Measured(root, r, MemoryAfter(root, r, golden, xs), x, golden).0.1;
      && (ok ==> |xs| >= WarmUp(r) && x != [])
      && (AllSeen(xs) && x != [] && (r.golden ==> golden != []) ==> (ok <==> |xs| >= WarmUp(r)))
  {
    MemoryFills(root, r, golden, xs);
    hide MemoryAfter, ScaleOf, MedianOf, Distance, Pooled;
  }
}
