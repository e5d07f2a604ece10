/** What a scalar rule looks at and when it fires, in terms of the measurements alone (internal/alert/alert.go):
    the value of each metric, and the intervals behind every transition. */
module AlertMeaning {
  import opened Alert
  import opened AlertManager

  // ---------------------------------------------------------------- values

  /** In milliseconds, the sample that `share` twentieths of the sorted samples come before. */
  ghost predicate IsAtShare(m: Measurement, share: nat, v: real) {
    exists i: int :: AtRank(m, share, i, v)
  }

  ghost predicate AtRank(m: Measurement, share: nat, i: int, v: real) {
    0 <= i < |m.samples| && 20 * i <= share * |m.samples| < 20 * (i + 1) && v * 1000.0 == m.samples[i] as real
  }

  lemma PercentileIs(m: Measurement, share: nat, q: real)
    requires share < 20 && q * 20.0 == share as real
    ensures PercentileMS(m.samples, q).1 <==> m.samples != []
    ensures m.samples != [] ==> IsAtShare(m, share, PercentileMS(m.samples, q).0)
  {
    if m.samples != [] {
      var n := |m.samples|;
      var i := RankOf(q, n);
      RanksAscend(q, q, n);
      RankIs(q, share, n);
      assert PercentileMS(m.samples, q).0 == m.samples[i] as real / 1000.0;
      assert AtRank(m, share, i, PercentileMS(m.samples, q).0);
    }
  }

  lemma RankIs(q: real, share: nat, n: nat)
    requires q * 20.0 == share as real
    ensures 20 * RankOf(q, n) <= share * n < 20 * (RankOf(q, n) + 1)
  {
    var x := q * n as real;
    Twenty(q, share, n);
    assert x.Floor as real <= x < x.Floor as real + 1.0;
    assert (20 * x.Floor) as real <= (share * n) as real < (20 * (x.Floor + 1)) as real;
  }

  lemma Twenty(q: real, share: nat, n: nat)
    requires q * 20.0 == share as real
    ensures 20.0 * (q * n as real) == (share * n) as real
  {
    assert 20.0 * (q * n as real) == q * 20.0 * n as real;
    assert share as real * n as real == (share * n) as real;
  }

  /** Loss is the share of pings that did not come back, in percent; the median and the 95th percentile are the
      samples that half and nineteen twentieths of the samples come before, and the spread is what lies between the
      latter and its mirror image. Loss needs a ping, the others a sample. */
  lemma ValuesAre(m: Measurement)
    ensures Value(m, Loss).1 <==> m.sent != 0
    ensures m.sent != 0 ==> Value(m, Loss).0 * m.sent as real == (100 * (m.sent - m.received)) as real
    ensures forall metric :: metric in {Median, P95, Spread} ==> (Value(m, metric).1 <==> m.samples != [])
    ensures m.samples != [] ==> IsAtShare(m, 10, Value(m, Median).0) && IsAtShare(m, 19, Value(m, P95).0)
    ensures m.samples != [] ==> exists lo, hi ::
      IsAtShare(m, 1, lo) && IsAtShare(m, 19, hi) && Value(m, Spread).0 == hi - lo
  {
    PercentileIs(m, 10, 0.5);
    PercentileIs(m, 19, 0.95);
    PercentileIs(m, 1, 0.05);
    hide IsAtShare, PercentileMS;
    if m.sent != 0 {
      var lost := 100.0 * (m.sent - m.received) as real;
      assert Value(m, Loss).0 == lost / m.sent as real;
      Quotient(lost, m.sent as real);
    }
  }

  lemma Quotient(a: real, b: real)
    requires b != 0.0
    ensures a / b * b == a
  {
  }

  // ---------------------------------------------------------------- transitions

  /** Interval j could be measured honestly, follows the one before without a gap, and is on the other side of the
      threshold: past it for a rule that is clear, not past it for one that fires. */
  ghost predicate Against(r: Rule, obs: seq<Observation>, j: int, firing: bool)
    requires 0 <= j < |obs|
  {
    && obs[j].ok && obs[j].trusted
    && (j == 0 || obs[j - 1].ts == 0 || obs[j].ts - obs[j - 1].ts <= 2 * obs[j].intervalS)
    && (if r.op == Greater then obs[j].value > r.threshold else obs[j].value < r.threshold) != firing
  }

  /** The last n intervals, this one included, are against it, and none of them lies before b. */
  ghost predicate AllAgainst(r: Rule, obs: seq<Observation>, b: int, k: int, n: int, firing: bool)
    requires 0 <= b && k < |obs|
  {
    b <= k + 1 - n && forall j :: k + 1 - n <= j <= k ==> Against(r, obs, j, firing)
  }

  /** b is the first interval after the last transition before k. */
  ghost predicate Begins(r: Rule, obs: seq<Observation>, k: nat, b: nat)
    requires k <= |obs|
  {
    && b <= k && (forall j :: b <= j < k ==> TransitionAt(r, obs, j) == NoChange)
    && (b > 0 ==> TransitionAt(r, obs, b - 1) != NoChange)
  }

  lemma {:induction false} EpisodeBegins(r: Rule, obs: seq<Observation>, k: nat)
    requires k <= |obs| && r.enabled
    ensures Begins(r, obs, k, EpisodeStart(r, obs, k))
    ensures var b := EpisodeStart(r, obs, k);
      After(r, obs[..k]).firing <==> b > 0 && TransitionAt(r, obs, b - 1) == Fired
  {
    hide *;
    if k == 0 {
      NothingYet(r, obs);
    } else {
      EpisodeBegins(r, obs, k - 1);
      AfterStep(r, obs, k - 1);
      MovesTheMark(r, After(r, obs[..k - 1]), obs[k - 1]);
      TransitionIs(r, obs, k - 1);
      StartMoves(r, obs, k);
      BeginsMoves(r, obs, k, EpisodeStart(r, obs, k - 1));
    }
  }

  lemma NothingYet(r: Rule, obs: seq<Observation>)
    ensures EpisodeStart(r, obs, 0) == 0 && Begins(r, obs, 0, 0) && !After(r, obs[..0]).firing
  {
  }

  lemma StartMoves(r: Rule, obs: seq<Observation>, k: nat)
    requires 0 < k <= |obs|
    ensures EpisodeStart(r, obs, k) ==
      if TransitionAt(r, obs, k - 1) != NoChange then k else EpisodeStart(r, obs, k - 1)
  {
    hide TransitionAt;
  }

  lemma BeginsMoves(r: Rule, obs: seq<Observation>, k: nat, b: nat)
    requires 0 < k <= |obs| && Begins(r, obs, k - 1, b)
    ensures Begins(r, obs, k, if TransitionAt(r, obs, k - 1) != NoChange then k else b)
  {
    hide TransitionAt;
  }

  lemma TransitionIs(r: Rule, obs: seq<Observation>, k: nat)
    requires k < |obs|
    ensures TransitionAt(r, obs, k) == Evaluated(r, After(r, obs[..k]), obs[k]).1
  {
  }

  lemma MovesTheMark(r: Rule, st: Standing, o: Observation)
    ensures var (st', t) := Evaluated(r, st, o);
      && (t == Fired ==> !st.firing && st'.firing) && (t == Resolved ==> st.firing && !st'.firing)
      && (t == NoChange ==> st'.firing == st.firing)
  {
  }

  lemma ArguesIs(r: Rule, obs: seq<Observation>, j: nat, firing: bool)
    requires j < |obs|
    ensures Argues(r, obs, j, firing) <==> Against(r, obs, j, firing)
  {
  }

  /** When an enabled rule changes, from the measurements: it fires when the last For intervals since its last
      transition are all against being clear, and that transition, if any, resolved it; it resolves when the last
      ClearFor are all against firing, and that transition fired it. */
  lemma ChangesExactlyWhen(r: Rule, obs: seq<Observation>, k: nat) returns (b: nat)
    requires k < |obs| && r.enabled && ValidRule(r)
    ensures Begins(r, obs, k, b)
    ensures var firing := b > 0 && TransitionAt(r, obs, b - 1) == Fired;
      && (TransitionAt(r, obs, k) == Fired <==> !firing && AllAgainst(r, obs, b, k, r.forIntervals, false))
      && (TransitionAt(r, obs, k) == Resolved <==> firing && AllAgainst(r, obs, b, k, r.clearFor, true))
  {
    b := EpisodeStart(r, obs, k);
    EpisodeBegins(r, obs, k);
    FiresExactlyWhen(r, obs, k);
    ResolvesExactlyWhen(r, obs, k);
    hide After, TransitionAt, EpisodeStart, Argues, Against, Begins;
    forall j, firing | 0 <= j < |obs| ensures Argues(r, obs, j, firing) <==> Against(r, obs, j, firing) {
      ArguesIs(r, obs, j, firing);
    }
  }
}
