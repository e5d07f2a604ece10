/** Alert hysteresis (internal/alert/alert.go): a rule fires after For consecutive intervals that match
    it and resolves after ClearFor that do not. Metric values are given; see `EvaluateValue`. */
module Alert {

  datatype Op = Greater | Less

  datatype Metric = Loss | Median | P95 | Spread | Shape | Bimodality

  /** For a shape rule, `golden` says what it compares with (a captured reference, or its own recent
      history) and `tunable` how (a raw measure, or a score against recent ones). */
  datatype Rule = Rule(id: int, metric: Metric, op: Op, threshold: real, forIntervals: int, clearFor: int,
                       enabled: bool, golden: bool, tunable: bool)

  /** `Rule.Validate` refuses anything less. */
  predicate ValidRule(r: Rule) { r.forIntervals >= 1 && r.clearFor >= 1 }

  datatype Standing = Standing(firing: bool, since: int, streak: int, lastTS: int, value: real,
                               ackedSince: int, ackedAt: int, ackedBy: string)

  const FRESH: Standing := Standing(false, 0, 0, 0, 0.0, 0, 0, "")

  datatype Transition = NoChange | Fired | Resolved

  /** One interval as a rule sees it: the metric's value, whether there is one, and whether the
      measurement can carry it honestly. */
  datatype Observation = Observation(value: real, ok: bool, trusted: bool, ts: int, intervalS: int)

  predicate Matches(r: Rule, value: real) {
    match r.op case Greater => value > r.threshold case Less => value < r.threshold
  }

  predicate GapBetween(last: int, o: Observation) {
    last != 0 && o.ts - last > 2 * o.intervalS
  }

  function Acked(st: Standing): bool {
    st.firing && st.ackedSince != 0 && st.ackedSince == st.since
  }

  /** One evaluation, as a function of the standing before it. */
  function Evaluated(r: Rule, st: Standing, o: Observation): (Standing, Transition) {
    if !r.enabled then (st, NoChange)
    else if GapBetween(st.lastTS, o) || !o.ok || !o.trusted then (st.(streak := 0, lastTS := o.ts), NoChange)
    else
      var s := st.(lastTS := o.ts, value := o.value);
      if Matches(r, o.value) == s.firing then (s.(streak := 0), NoChange)
      else if !s.firing && s.streak + 1 >= r.forIntervals then (s.(firing := true, since := o.ts, streak := 0), Fired)
      else if s.firing && s.streak + 1 >= r.clearFor then
        (s.(firing := false, since := 0, streak := 0, ackedSince := 0, ackedAt := 0, ackedBy := ""), Resolved)
      else (s.(streak := s.streak + 1), NoChange)
  }

  function Acknowledged(st: Standing, ack: bool, at: int, who: string): Standing {
    if !st.firing then st
    else if ack then st.(ackedSince := st.since, ackedAt := at, ackedBy := who)
    else st.(ackedSince := 0, ackedAt := 0, ackedBy := "")
  }

  class State {
    var firing: bool
    var since: int
    var streak: int
    var lastTS: int
    var value: real
    var ackedSince: int
    var ackedAt: int
    var ackedBy: string

    constructor ()
      ensures Current() == FRESH
    {
      firing, since, streak, lastTS, value := false, 0, 0, 0, 0.0;
      ackedSince, ackedAt, ackedBy := 0, 0, "";
    }

    ghost function Current(): Standing
      reads this
    {
      Standing(firing, since, streak, lastTS, value, ackedSince, ackedAt, ackedBy)
    }

    method EvaluateValue(r: Rule, val: real, ok: bool, trusted: bool, ts: int, intervalS: int) returns (t: Transition)
      modifies this
      ensures (Current(), t) == Evaluated(r, old(Current()), Observation(val, ok, trusted, ts, intervalS))
    {
      if !r.enabled {
        return NoChange;
      }
      var gap := lastTS != 0 && ts - lastTS > 2 * intervalS;
      if gap || !ok || !trusted {
        streak := 0;
        lastTS := ts;
        return NoChange;
      }
      lastTS := ts;
      value := val;
      var matches := val > r.threshold;
      if r.op == Less {
        matches := val < r.threshold;
      }
      if matches == firing {
        streak := 0;
        return NoChange;
      }
      streak := streak + 1;
      if !firing && streak >= r.forIntervals {
        firing := true;
        since := ts;
        streak := 0;
        return Fired;
      }
      if firing && streak >= r.clearFor {
        firing := false;
        since := 0;
        streak := 0;
        ackedSince, ackedAt, ackedBy := 0, 0, "";
        return Resolved;
      }
      return NoChange;
    }

    /** The change `Manager.Acknowledge` makes; false when nothing is firing. */
    method Acknowledge(ack: bool, at: int, who: string) returns (found: bool)
      modifies this
      ensures found == old(firing) && Current() == Acknowledged(old(Current()), ack, at, who)
    {
      if !firing {
        return false;
      }
      if ack {
        ackedSince, ackedAt, ackedBy := since, at, who;
      } else {
        ackedSince, ackedAt, ackedBy := 0, 0, "";
      }
      return true;
    }
  }

  // ---------------------------------------------------------------- histories

  function After(r: Rule, obs: seq<Observation>): Standing {
    if obs == [] then FRESH else Evaluated(r, After(r, obs[..|obs| - 1]), obs[|obs| - 1]).0
  }

  function TransitionAt(r: Rule, obs: seq<Observation>, k: nat): Transition
    requires k < |obs|
  {
    Evaluated(r, After(r, obs[..k]), obs[k]).1
  }

  /** Interval k counts at all: it has a trustworthy value and no gap before it. */
  predicate Counts(obs: seq<Observation>, k: nat)
    requires k < |obs|
  {
    obs[k].ok && obs[k].trusted && !(k > 0 && GapBetween(obs[k - 1].ts, obs[k]))
  }

  /** Interval k argues for leaving the given state. */
  predicate Argues(r: Rule, obs: seq<Observation>, k: nat, firing: bool)
    requires k < |obs|
  {
    Counts(obs, k) && Matches(r, obs[k].value) != firing
  }

  /** The first interval after the last transition before k. */
  function EpisodeStart(r: Rule, obs: seq<Observation>, k: nat): (b: nat)
    requires k <= |obs|
    ensures b <= k
  {
    if k == 0 then 0 else if TransitionAt(r, obs, k - 1) != NoChange then k else EpisodeStart(r, obs, k - 1)
  }

  lemma AfterStep(r: Rule, obs: seq<Observation>, k: nat)
    requires k < |obs|
    ensures After(r, obs[..k + 1]) == Evaluated(r, After(r, obs[..k]), obs[k]).0
  {
    assert obs[..k + 1][..k] == obs[..k];
  }

  /** The streak is the length of the unbroken argument for changing state that ends here, within the
      current episode; it never reaches what the change needs. */
  ghost predicate StreakIs(r: Rule, obs: seq<Observation>, k: nat, st: Standing)
    requires k <= |obs|
  {
    && st.lastTS == (if k == 0 then 0 else obs[k - 1].ts)
    && 0 <= st.streak <= k - EpisodeStart(r, obs, k)
    && st.streak < (if st.firing then r.clearFor else r.forIntervals)
    && (forall j :: k - st.streak <= j < k ==> Argues(r, obs, j, st.firing))
    && (k - st.streak > EpisodeStart(r, obs, k) ==> !Argues(r, obs, k - st.streak - 1, st.firing))
  }

  lemma {:induction false} StreakMeaning(r: Rule, obs: seq<Observation>, k: nat)
    requires k <= |obs| && r.enabled && ValidRule(r)
    ensures StreakIs(r, obs, k, After(r, obs[..k]))
  {
    if k > 0 {
      StreakMeaning(r, obs, k - 1);
      AfterStep(r, obs, k - 1);
      hide StreakIs;
      StreakStep(r, obs, k, After(r, obs[..k - 1]));
    } else {
      assert obs[..0] == [];
    }
  }

  lemma StreakStep(r: Rule, obs: seq<Observation>, k: nat, st: Standing)
    requires 0 < k <= |obs| && r.enabled && ValidRule(r) && StreakIs(r, obs, k - 1, st)
    requires TransitionAt(r, obs, k - 1) == Evaluated(r, st, obs[k - 1]).1
    ensures StreakIs(r, obs, k, Evaluated(r, st, obs[k - 1]).0)
  {
    hide TransitionAt, After, Matches;
  }

  /** A streak of need - 1 before an interval that argues is the same as need intervals that argue. */
  lemma StreakReaches(r: Rule, obs: seq<Observation>, k: nat, st: Standing, need: int)
    requires k < |obs| && need >= 1 && StreakIs(r, obs, k, st)
    ensures st.streak + 1 >= need && Argues(r, obs, k, st.firing) <==> ArguedFor(r, obs, k, need, st.firing)
  {
    hide Argues, EpisodeStart;
    if ArguedFor(r, obs, k, need, st.firing) && st.streak + 1 < need {
      assert false;
    }
  }

  /** The last `need` intervals up to and including k lie in the current episode and all argue for
      leaving the given state. */
  ghost predicate ArguedFor(r: Rule, obs: seq<Observation>, k: nat, need: int, firing: bool)
    requires k < |obs|
  {
    && k + 1 - need >= EpisodeStart(r, obs, k)
    && forall j :: k + 1 - need <= j <= k ==> Argues(r, obs, j, firing)
  }

  /** When a rule fires, in terms of the history alone: it was clear, and the last For intervals, all
      since its last transition, had trustworthy values, no gap and matched. */
  lemma FiresExactlyWhen(r: Rule, obs: seq<Observation>, k: nat)
    requires k < |obs| && r.enabled && ValidRule(r)
    ensures TransitionAt(r, obs, k) == Fired <==>
      && !After(r, obs[..k]).firing
      && ArguedFor(r, obs, k, r.forIntervals, false)
  {
    StreakMeaning(r, obs, k);
    CountsNow(r, obs, k);
    hide StreakIs, Argues, ArguedFor, After;
    StreakReaches(r, obs, k, After(r, obs[..k]), r.forIntervals);
  }

  /** .. and when it resolves: it was firing, and the last ClearFor intervals did not match. */
  lemma ResolvesExactlyWhen(r: Rule, obs: seq<Observation>, k: nat)
    requires k < |obs| && r.enabled && ValidRule(r)
    ensures TransitionAt(r, obs, k) == Resolved <==>
      && After(r, obs[..k]).firing
      && ArguedFor(r, obs, k, r.clearFor, true)
  {
    StreakMeaning(r, obs, k);
    CountsNow(r, obs, k);
    hide StreakIs, Argues, ArguedFor, After;
    StreakReaches(r, obs, k, After(r, obs[..k]), r.clearFor);
  }

  lemma CountsNow(r: Rule, obs: seq<Observation>, k: nat)
    requires k < |obs| && r.enabled
    requires After(r, obs[..k]).lastTS == (if k == 0 then 0 else obs[k - 1].ts)
    ensures var st := After(r, obs[..k]);
      Argues(r, obs, k, st.firing) <==>
        !GapBetween(st.lastTS, obs[k]) && obs[k].ok && obs[k].trusted && Matches(r, obs[k].value) != st.firing
  {
  }

  /** The state a history leaves a rule in changes at its transitions and nowhere else. */
  lemma {:induction false} FiringBetween(r: Rule, obs: seq<Observation>, i: nat, j: nat)
    requires i <= j <= |obs|
    requires forall k :: i <= k < j ==> TransitionAt(r, obs, k) == NoChange
    ensures After(r, obs[..j]).firing == After(r, obs[..i]).firing
    decreases j
  {
    if i < j {
      FiringBetween(r, obs, i, j - 1);
      AfterStep(r, obs, j - 1);
      assert TransitionAt(r, obs, j - 1) == NoChange;
    }
  }

  /** Fired and Resolved strictly alternate: between two of a kind lies one of the other. */
  lemma TransitionsAlternate(r: Rule, obs: seq<Observation>, i: nat, j: nat)
    requires i < j < |obs| && TransitionAt(r, obs, i) == TransitionAt(r, obs, j) != NoChange
    ensures exists k :: i < k < j && TransitionAt(r, obs, k) != NoChange
                     && TransitionAt(r, obs, k) != TransitionAt(r, obs, i)
  {
    AfterStep(r, obs, i);
    if forall k :: i < k < j ==> TransitionAt(r, obs, k) == NoChange {
      FiringBetween(r, obs, i + 1, j);
    } else {
      var k := NextTransition(r, obs, i + 1, j);
      FiringBetween(r, obs, i + 1, k);
    }
  }

  lemma NextTransition(r: Rule, obs: seq<Observation>, i: nat, j: nat) returns (k: nat)
    requires i <= j <= |obs|
    requires exists k :: i <= k < j && TransitionAt(r, obs, k) != NoChange
    ensures i <= k < j && TransitionAt(r, obs, k) != NoChange
    ensures forall m :: i <= m < k ==> TransitionAt(r, obs, m) == NoChange
  {
    k := i;
    while TransitionAt(r, obs, k) == NoChange
      invariant i <= k < j && forall m :: i <= m < k ==> TransitionAt(r, obs, m) == NoChange
      decreases j - k
    {
      k := k + 1;
    }
  }

  /** Interval k fired the rule, and nothing has changed since, before n. */
  ghost predicate LastFire(r: Rule, obs: seq<Observation>, k: nat, n: nat)
    requires n <= |obs|
  {
    k < n && TransitionAt(r, obs, k) == Fired && forall j :: k < j < n ==> TransitionAt(r, obs, j) == NoChange
  }

  lemma SinceStep(r: Rule, st: Standing, o: Observation)
    requires !st.firing ==> st.since == 0
    ensures var e := Evaluated(r, st, o);
      && (!e.0.firing ==> e.0.since == 0)
      && (e.1 == Fired ==> e.0.since == o.ts)
      && (e.0.firing && e.1 != Fired ==> e.1 == NoChange && st.firing && e.0.since == st.since)
  {
  }

  /** `Since` is the interval that fired the episode, and is unset while the rule is clear. */
  lemma {:induction false} SinceIsTheFire(r: Rule, obs: seq<Observation>, n: nat)
    requires n <= |obs|
    ensures var st := After(r, obs[..n]);
      && (!st.firing ==> st.since == 0)
      && (st.firing ==> exists k: nat :: LastFire(r, obs, k, n) && st.since == obs[k].ts)
  {
    if n > 0 {
      SinceIsTheFire(r, obs, n - 1);
      AfterStep(r, obs, n - 1);
      var before, st := After(r, obs[..n - 1]), After(r, obs[..n]);
      SinceStep(r, before, obs[n - 1]);
      assert TransitionAt(r, obs, n - 1) == Evaluated(r, before, obs[n - 1]).1;
      hide Evaluated, After, TransitionAt;
      if st.firing {
        if TransitionAt(r, obs, n - 1) == Fired {
          assert LastFire(r, obs, n - 1, n);
        } else {
          var k: nat :| LastFire(r, obs, k, n - 1) && before.since == obs[k].ts;
          assert LastFire(r, obs, k, n);
        }
      }
    }
  }

  // ---------------------------------------------------------------- acknowledgements

  datatype Input = Observe(o: Observation) | Ack(on: bool, at: int, who: string)

  function Applied(r: Rule, st: Standing, i: Input): (Standing, Transition) {
    match i
    case Observe(o) => Evaluated(r, st, o)
    case Ack(on, at, who) => (Acknowledged(st, on, at, who), NoChange)
  }

  function AfterInputs(r: Rule, inputs: seq<Input>): Standing {
    if inputs == [] then FRESH else Applied(r, AfterInputs(r, inputs[..|inputs| - 1]), inputs[|inputs| - 1]).0
  }

  function InputTransition(r: Rule, inputs: seq<Input>, k: nat): Transition
    requires k < |inputs|
  {
    Applied(r, AfterInputs(r, inputs[..k]), inputs[k]).1
  }

  /** An acknowledgement made at input i is still in force before input n. */
  ghost predicate AckInForce(r: Rule, inputs: seq<Input>, i: nat, n: nat) {
    && i < n <= |inputs|
    && inputs[i].Ack? && inputs[i].on
    && forall k :: i < k < n ==> !inputs[k].Ack? && InputTransition(r, inputs, k) == NoChange
  }

  lemma AckStep(r: Rule, st: Standing, i: Input)
    requires !st.firing ==> st.ackedSince == 0
    ensures var next := Applied(r, st, i).0;
      && (!next.firing ==> next.ackedSince == 0)
      && (next.ackedSince != 0 && i.Ack? ==> i.on || st.ackedSince != 0)
      && (next.ackedSince != 0 && !(i.Ack? && i.on) ==>
           i.Observe? && st.ackedSince != 0 && Applied(r, st, i).1 == NoChange)
  {
  }

  /** An acknowledgement never outlives its episode: whenever an alert counts as acknowledged, someone
      acknowledged it after it last fired, and nothing has changed since. */
  lemma {:induction false} AckBelongsToEpisode(r: Rule, inputs: seq<Input>, n: nat)
    requires n <= |inputs|
    ensures var st := AfterInputs(r, inputs[..n]);
      && (!st.firing ==> st.ackedSince == 0)
      && (st.ackedSince != 0 ==> exists i :: AckInForce(r, inputs, i, n))
      && (Acked(st) ==> exists i :: AckInForce(r, inputs, i, n))
  {
    if n > 0 {
      AckBelongsToEpisode(r, inputs, n - 1);
      assert inputs[..n][..n - 1] == inputs[..n - 1];
      var before, st := AfterInputs(r, inputs[..n - 1]), AfterInputs(r, inputs[..n]);
      AckStep(r, before, inputs[n - 1]);
      hide Applied;
      if st.ackedSince != 0 {
        if inputs[n - 1].Ack? {
          assert AckInForce(r, inputs, n - 1, n);
        } else {
          var i :| AckInForce(r, inputs, i, n - 1);
          assert AckInForce(r, inputs, i, n);
        }
      }
    }
  }

  /** So an alert that has just fired is never already acknowledged. */
  lemma FreshFireIsUnacknowledged(r: Rule, inputs: seq<Input>, k: nat)
    requires k < |inputs| && InputTransition(r, inputs, k) == Fired
    ensures !Acked(AfterInputs(r, inputs[..k + 1]))
  {
    AckBelongsToEpisode(r, inputs, k);
    assert inputs[..k + 1][..k] == inputs[..k];
  }
}
