/** The alert manager (internal/alert/manager.go): which standings exist, how a batch of measurements moves
    them, and how reloads and restarts treat them. Each region under the manager's lock is one step; the
    rules that reach a target are given. */
module AlertManager {
  import opened Alert
  import opened Distribution
  import opened ShapeMetrics

  datatype Measurement = Measurement(target: int, agent: int, ts: int, sent: int, received: int,
                                     samples: seq<Sample>, lossTrusted: bool, rttTrusted: bool)

  datatype Key = Key(rule: int, target: int, agent: int)

  datatype Applicable = Applicable(rules: seq<Rule>, intervalS: int)

  type Live = map<Key, Standing>

  /** The memories of the shape rules, one for each series. */
  type Shapes = map<Key, Memory>

  /** What an evaluation reads besides the measurement: captured references, and the square root. */
  datatype Given = Given(golden: map<int, seq<Sample>>, root: real -> real)

  function MemoryOf(shapes: Shapes, key: Key): Memory { if key in shapes then shapes[key] else COLD }

  function GoldenOf(g: Given, rule: int): seq<Sample> { if rule in g.golden then g.golden[rule] else [] }

  predicate IsShape(metric: Metric) { metric.Shape? || metric.Bimodality? }

  function RankOf(q: real, n: nat): int { (q * n as real).Floor }

  /** The sample at rank q, in milliseconds; none without samples. */
  function PercentileMS(sorted: seq<Sample>, q: real): (real, bool)
    requires 0.0 <= q < 1.0
  {
    if sorted == [] then (0.0, false)
    else
      var i := RankOf(q, |sorted|);
      (sorted[if i >= |sorted| then |sorted| - 1 else i] as real / 1000.0, true)
  }

  function Value(m: Measurement, metric: Metric): (real, bool) {
    match metric
    case Loss => if m.sent == 0 then (0.0, false) else (100.0 * (m.sent - m.received) as real / m.sent as real, true)
    case Median => PercentileMS(m.samples, 0.5)
    case P95 => PercentileMS(m.samples, 0.95)
    case Spread =>
      var hi, lo := PercentileMS(m.samples, 0.95), PercentileMS(m.samples, 0.05);
      if !hi.1 || !lo.1 then (0.0, false) else (hi.0 - lo.0, true)
    case _ => (0.0, false)
  }

  /** A loss is a percentage: none lost is 0, all lost is 100, and fewer replies are never less loss. */
  lemma LossIsAPercentage(m: Measurement, n: Measurement)
    requires 0 <= m.received <= n.received <= m.sent == n.sent && m.sent > 0
    ensures Value(m, Loss).1 && 0.0 <= Value(n, Loss).0 <= Value(m, Loss).0 <= 100.0
    ensures Value(m, Loss).0 == 0.0 <==> m.received == m.sent
    ensures Value(m, Loss).0 == 100.0 <==> m.received == 0
  {
    var s := m.sent as real;
    LossShare(m.sent - m.received, m.sent);
    LossShare(n.sent - n.received, n.sent);
    LossOrder(n.sent - n.received, m.sent - m.received, s);
  }

  lemma LossShare(lost: int, sent: int)
    requires 0 <= lost <= sent && sent > 0
    ensures 0.0 <= 100.0 * lost as real / sent as real <= 100.0
    ensures 100.0 * lost as real / sent as real == 0.0 <==> lost == 0
    ensures 100.0 * lost as real / sent as real == 100.0 <==> lost == sent
  {
    var q := 100.0 * lost as real / sent as real;
    assert q * sent as real == 100.0 * lost as real;
  }

  lemma LossOrder(a: int, b: int, s: real)
    requires a <= b && s > 0.0
    ensures 100.0 * a as real / s <= 100.0 * b as real / s
  {
  }

  /** A percentile is one of the samples, in milliseconds, and a higher one is never smaller; so the
      spread is never negative. */
  lemma PercentilesAscend(sorted: seq<Sample>, q: real, p: real)
    requires sorted != [] && 0.0 <= q <= p < 1.0
    requires forall i, j :: 0 <= i < j < |sorted| ==> sorted[i] <= sorted[j]
    ensures exists i :: 0 <= i < |sorted| && PercentileMS(sorted, q) == (sorted[i] as real / 1000.0, true)
    ensures PercentileMS(sorted, q).0 <= PercentileMS(sorted, p).0
  {
    var i, j := RankOf(q, |sorted|), RankOf(p, |sorted|);
    RanksAscend(q, p, |sorted|);
    assert PercentileMS(sorted, q) == (sorted[i] as real / 1000.0, true);
    assert PercentileMS(sorted, p) == (sorted[j] as real / 1000.0, true);
  }

  lemma RanksAscend(q: real, p: real, n: nat)
    requires 0.0 <= q <= p < 1.0 && n > 0
    ensures 0 <= RankOf(q, n) <= RankOf(p, n) < n
  {
    ScaleOrder(q, p, n as real);
    ScaleBelowOne(p, n as real);
    FloorsAscend(q * n as real, p * n as real, n);
  }

  lemma ScaleOrder(a: real, b: real, c: real)
    requires 0.0 <= a <= b && c > 0.0
    ensures 0.0 <= a * c <= b * c
  {
    assert (b - a) * c >= 0.0;
  }

  lemma ScaleBelowOne(a: real, c: real)
    requires a < 1.0 && c > 0.0
    ensures a * c < c
  {
    assert (1.0 - a) * c > 0.0;
  }

  lemma FloorsAscend(x: real, y: real, n: int)
    requires 0.0 <= x <= y < n as real
    ensures 0 <= x.Floor <= y.Floor < n
  {
  }

  /** What a rule sees of a measurement, and what it remembers of it: a shape metric comes from history. */
  function Seen(g: Given, r: Rule, m: Measurement, intervalS: int, mem: Memory): (Observation, Memory) {
    if IsShape(r.metric) then
      var (v, mem') := Measured(g.root, r, mem, m.samples, GoldenOf(g, r.id));
      (Observation(v.0, v.1, m.rttTrusted, m.ts, intervalS), mem')
    else
      var v := Value(m, r.metric);
      (Observation(v.0, v.1, if r.metric == Loss then m.lossTrusted else m.rttTrusted, m.ts, intervalS), mem)
  }

  /** One rule looking at one measurement. */
  datatype Job = Job(rule: Rule, key: Key, seen: Observation)

  function JobOf(g: Given, r: Rule, m: Measurement, intervalS: int, shapes: Shapes): (Job, Shapes) {
    var key := Key(r.id, m.target, m.agent);
    var (seen, mem) := Seen(g, r, m, intervalS, MemoryOf(shapes, key));
    (Job(r, key, seen), if IsShape(r.metric) then shapes[key := mem] else shapes)
  }

  function JobsOf(g: Given, app: Applicable, m: Measurement, n: nat, shapes: Shapes): (seq<Job>, Shapes)
    requires n <= |app.rules|
  {
    if n == 0 then ([], shapes)
    else
      var before := JobsOf(g, app, m, n - 1, shapes);
      var last := JobOf(g, app.rules[n - 1], m, app.intervalS, before.1);
      (before.0 + [last.0], last.1)
  }

  function Jobs(g: Given, byTarget: map<int, Applicable>, ms: seq<Measurement>, shapes: Shapes): (seq<Job>, Shapes) {
    if ms == [] then ([], shapes)
    else
      var before, m := Jobs(g, byTarget, ms[..|ms| - 1], shapes), ms[|ms| - 1];
      if m.target in byTarget then
        var more := JobsOf(g, byTarget[m.target], m, |byTarget[m.target].rules|, before.1);
        (before.0 + more.0, more.1)
      else before
  }

  function At(live: Live, key: Key): Standing { if key in live then live[key] else FRESH }

  function Done(live: Live, j: Job): (d: (Live, Transition))
    ensures j.key in d.0
  {
    var e := Evaluated(j.rule, At(live, j.key), j.seen);
    (live[j.key := e.0], e.1)
  }

  datatype Outcome = Outcome(live: Live, changed: seq<(Key, Transition)>, dirty: seq<(Key, Standing)>)

  /** The standings after a batch, the transitions it reports, in order, and the copies it saves. */
  function AfterJobs(live: Live, jobs: seq<Job>): Outcome {
    if jobs == [] then Outcome(live, [], [])
    else
      var before, j := AfterJobs(live, jobs[..|jobs| - 1]), jobs[|jobs| - 1];
      var d := Done(before.live, j);
      Outcome(d.0, before.changed + (if d.1 == NoChange then [] else [(j.key, d.1)]),
              before.dirty + [(j.key, d.0[j.key])])
  }

  lemma AfterNoJobs(live: Live)
    ensures AfterJobs(live, []) == Outcome(live, [], [])
  {
  }

  lemma AfterOneMore(live: Live, jobs: seq<Job>, j: Job)
    ensures var before, d := AfterJobs(live, jobs), Done(AfterJobs(live, jobs).live, j);
      AfterJobs(live, jobs + [j])
      == Outcome(d.0, before.changed + (if d.1 == NoChange then [] else [(j.key, d.1)]),
                 before.dirty + [(j.key, d.0[j.key])])
  {
    assert (jobs + [j])[..|jobs|] == jobs;
  }

  /** What a reload keeps: standings of rules that still exist, memory winning over the table. */
  function Merged(rows: Live, live: Live, ids: set<int>): Live {
    map k | k in rows.Keys + live.Keys && k.rule in ids :: if k in live then live[k] else rows[k]
  }

  /** .. and the memories it keeps. */
  function Remembered(shapes: Shapes, ids: set<int>): Shapes {
    map k | k in shapes && k.rule in ids :: shapes[k]
  }

  /** The table's rows with the standings of `keys` written over them. */
  ghost function Overlaid(kept: Live, live: Live, ids: set<int>, keys: seq<Key>): Live
    requires forall k :: k in keys ==> k in live
  {
    map k | k in kept.Keys + live.Keys && (k in kept || (k in keys && k.rule in ids)) ::
      if k in keys && k.rule in ids then live[k] else kept[k]
  }

  lemma OverlaidNothing(kept: Live, live: Live, ids: set<int>)
    ensures Overlaid(kept, live, ids, []) == kept
  {
  }

  lemma OverlaidOneMore(kept: Live, live: Live, ids: set<int>, keys: seq<Key>, key: Key)
    requires (forall k :: k in keys ==> k in live) && key in live
    ensures var before := Overlaid(kept, live, ids, keys);
      Overlaid(kept, live, ids, keys + [key]) == if key.rule in ids then before[key := live[key]] else before
  {
  }

  lemma OverlaidAll(table: Live, live: Live, ids: set<int>, keys: seq<Key>)
    requires forall k :: k in keys <==> k in live
    ensures Overlaid(Merged(table, map[], ids), live, ids, keys) == Merged(table, live, ids)
  {
  }

  class Manager {
    var byTarget: map<int, Applicable>
    var rules: set<int>
    var states: Live
    var shapes: Shapes
    var given: Given

    constructor (root: real -> real)
      ensures byTarget == map[] && rules == {} && states == map[] && shapes == map[] && given == Given(map[], root)
    {
      byTarget, rules, states, shapes, given := map[], {}, map[], map[], Given(map[], root);
    }

    method Observe(ms: seq<Measurement>) returns (changed: seq<(Key, Transition)>, dirty: seq<(Key, Standing)>)
      modifies this`states, this`shapes
      ensures var jobs := Jobs(given, byTarget, ms, old(shapes));
        Outcome(states, changed, dirty) == AfterJobs(old(states), jobs.0) && shapes == jobs.1
    {
      hide AfterJobs, JobsOf;
      changed, dirty := [], [];
      ghost var live, mems := states, shapes;
      AfterNoJobs(live);
      for i := 0 to |ms|
        invariant Outcome(states, changed, dirty) == AfterJobs(live, Jobs(given, byTarget, ms[..i], mems).0)
        invariant shapes == Jobs(given, byTarget, ms[..i], mems).1
      {
        assert ms[..i + 1][..i] == ms[..i];
        ghost var done := Jobs(given, byTarget, ms[..i], mems).0;
        if ms[i].target in byTarget {
          changed, dirty := LookAll(byTarget[ms[i].target], ms[i], changed, dirty, live, done);
        }
      }
      assert ms[..|ms|] == ms;
    }

    /** The inner loop of `Observe`; `live` and `done` say where the batch began and what it has done. */
    method LookAll(app: Applicable, m: Measurement, changedBefore: seq<(Key, Transition)>,
                   dirtyBefore: seq<(Key, Standing)>, ghost live: Live, ghost done: seq<Job>)
        returns (changed: seq<(Key, Transition)>, dirty: seq<(Key, Standing)>)
      requires Outcome(states, changedBefore, dirtyBefore) == AfterJobs(live, done)
      modifies this`states, this`shapes
      ensures var jobs := JobsOf(given, app, m, |app.rules|, old(shapes));
        Outcome(states, changed, dirty) == AfterJobs(live, done + jobs.0) && shapes == jobs.1
    {
      hide AfterJobs, Done, Seen;
      changed, dirty := changedBefore, dirtyBefore;
      ghost var mems := shapes;
      assert done + JobsOf(given, app, m, 0, mems).0 == done;
      for n := 0 to |app.rules|
        invariant Outcome(states, changed, dirty) == AfterJobs(live, done + JobsOf(given, app, m, n, mems).0)
        invariant shapes == JobsOf(given, app, m, n, mems).1
      {
        ghost var before := done + JobsOf(given, app, m, n, mems).0;
        ghost var j := JobOf(given, app.rules[n], m, app.intervalS, shapes).0;
        AfterOneMore(live, before, j);
        assert done + JobsOf(given, app, m, n + 1, mems).0 == before + [j];
        changed, dirty := Look(app.rules[n], m, app.intervalS, changed, dirty);
      }
    }

    /** The body of the inner loop: find or make the standing, evaluate, note the change and the copy. */
    method Look(r: Rule, m: Measurement, intervalS: int, changedBefore: seq<(Key, Transition)>,
                dirtyBefore: seq<(Key, Standing)>)
        returns (changed: seq<(Key, Transition)>, dirty: seq<(Key, Standing)>)
      modifies this`states, this`shapes
      ensures var (j, after) := JobOf(given, r, m, intervalS, old(shapes));
        var d := Done(old(states), j);
        && states == d.0 && shapes == after
        && changed == changedBefore + (if d.1 == NoChange then [] else [(j.key, d.1)])
        && dirty == dirtyBefore + [(j.key, d.0[j.key])]
    {
      hide Measured, Value;
      var key := Key(r.id, m.target, m.agent);
      if key !in states {
        states := states[key := FRESH];
      }
      var seen;
      if IsShape(r.metric) {
        var memory := new ShapeState.From(MemoryOf(shapes, key));
        var value, ok := memory.Value(given.root, r, m.samples, GoldenOf(given, r.id));
        shapes := shapes[key := memory.Current()];
        seen := Observation(value, ok, m.rttTrusted, m.ts, intervalS);
      } else {
        seen := Seen(given, r, m, intervalS, COLD).0;
      }
      var e := Evaluated(r, states[key], seen);
      states := states[key := e.0];
      changed := changedBefore;
      if e.1 != NoChange {
        changed := changed + [(key, e.1)];
      }
      dirty := dirtyBefore + [(key, e.0)];
    }

    /** Reload: `rows` is the table as it was read before, in any order; `order` lists the
        standings in memory, in any order. */
    method Reload(rows: seq<(Key, Standing)>, order: seq<Key>, ids: set<int>, resolved: map<int, Applicable>,
                  golden: map<int, seq<Sample>>)
      requires forall k :: k in order <==> k in states
      modifies this
      ensures byTarget == resolved && rules == ids && given == old(given).(golden := golden)
      ensures shapes == Remembered(old(shapes), ids)
      ensures states == Merged(TableOf(rows), old(states), ids)
    {
      hide Overlaid, Merged;
      var live, remembered := states, Remembered(shapes, ids);
      var kept := KeepRows(rows, ids);
      ghost var table := kept;
      OverlaidNothing(table, live, ids);
      for i := 0 to |order|
        invariant given == old(given) && kept == Overlaid(table, live, ids, order[..i])
      {
        OverlaidOneMore(table, live, ids, order[..i], order[i]);
        assert order[..i + 1] == order[..i] + [order[i]];
        if order[i].rule in ids {
          kept := kept[order[i] := live[order[i]]];
        }
      }
      assert order[..|order|] == order;
      OverlaidAll(TableOf(rows), live, ids, order);
      byTarget, rules, states := resolved, ids, kept;
      shapes, given := remembered, given.(golden := golden);
    }

    method KeepRows(rows: seq<(Key, Standing)>, ids: set<int>) returns (kept: Live)
      ensures kept == Merged(TableOf(rows), map[], ids)
    {
      kept := map[];
      for i := 0 to |rows|
        invariant kept == Merged(TableOf(rows[..i]), map[], ids)
      {
        assert rows[..i + 1][..i] == rows[..i];
        if rows[i].0.rule in ids {
          kept := kept[rows[i].0 := rows[i].1];
        }
      }
      assert rows[..|rows|] == rows;
    }

    /** Acknowledge, or take the mark back; the copy to save, when a firing alert was found. */
    method Acknowledge(key: Key, ack: bool, at: int, who: string) returns (found: bool, copy: Standing)
      modifies this`states
      ensures found == (key in old(states) && old(states)[key].firing)
      ensures states == Marked(old(states), key, ack, at, who)
      ensures found ==> copy == states[key]
    {
      copy := FRESH;
      if key !in states || !states[key].firing {
        return false, copy;
      }
      copy := Acknowledged(states[key], ack, at, who);
      states := states[key := copy];
      found := true;
    }
  }

  function TableOf(rows: seq<(Key, Standing)>): Live {
    if rows == [] then map[] else TableOf(rows[..|rows| - 1])[rows[|rows| - 1].0 := rows[|rows| - 1].1]
  }

  function Marked(live: Live, key: Key, ack: bool, at: int, who: string): Live {
    if key in live then live[key := Acknowledged(live[key], ack, at, who)] else live
  }

  // ---------------------------------------------------------------- one rule's own story

  /** The same jobs as one (rule, target, agent) sees them: where they leave it, what they report. */
  function Alone(key: Key, st: Standing, jobs: seq<Job>): (Standing, seq<Transition>) {
    if jobs == [] then (st, [])
    else
      var before, j := Alone(key, st, jobs[..|jobs| - 1]), jobs[|jobs| - 1];
      if j.key != key then before
      else
        var e := Evaluated(j.rule, before.0, j.seen);
        (e.0, before.1 + if e.1 == NoChange then [] else [e.1])
  }

  function Of(key: Key, changed: seq<(Key, Transition)>): seq<Transition> {
    if changed == [] then []
    else
      var last := changed[|changed| - 1];
      Of(key, changed[..|changed| - 1]) + if last.0 == key then [last.1] else []
  }

  /** However measurements of different targets, agents and rules interleave in a batch, each standing
      moves, and reports, as if it were alone. */
  lemma {:induction false} StandingsAreIndependent(key: Key, live: Live, jobs: seq<Job>)
    ensures At(AfterJobs(live, jobs).live, key) == Alone(key, At(live, key), jobs).0
    ensures Of(key, AfterJobs(live, jobs).changed) == Alone(key, At(live, key), jobs).1
    ensures key in live ==> key in AfterJobs(live, jobs).live
  {
    if jobs != [] {
      var rest, j := jobs[..|jobs| - 1], jobs[|jobs| - 1];
      assert jobs == rest + [j];
      AfterOneMore(live, rest, j);
      hide Evaluated, AfterJobs;
      StandingsAreIndependent(key, live, rest);
      OfOneMore(key, AfterJobs(live, rest).changed, j.key, Done(AfterJobs(live, rest).live, j).1);
    }
  }

  lemma OfOneMore(key: Key, changed: seq<(Key, Transition)>, k: Key, t: Transition)
    ensures Of(key, changed + [(k, t)]) == Of(key, changed) + if k == key then [t] else []
    ensures changed + [] == changed
  {
    assert (changed + [(k, t)])[..|changed|] == changed;
  }

  // ---------------------------------------------------------------- reloads and restarts

  /** What a row of the table can hold: an acknowledgement without an episode loses who and when. */
  function Persisted(st: Standing): Standing {
    if st.ackedSince == 0 then st.(ackedAt := 0, ackedBy := "") else st
  }

  /** Memory, the table, and the copy of the table a reload has read but not yet merged. */
  datatype World = World(live: Live, stored: Live, snapshot: Live)

  datatype Event =
    | Worked(jobs: seq<Job>)
    | Marking(key: Key, ack: bool, at: int, who: string)
    | Saved(rows: Live)
    | ReloadReads
    | ReloadMerges(ids: set<int>)
    | Restarted(ids: set<int>)

  function Next(w: World, e: Event): World {
    match e
    case Worked(jobs) => w.(live := AfterJobs(w.live, jobs).live)
    case Marking(key, ack, at, who) => w.(live := Marked(w.live, key, ack, at, who))
    case Saved(rows) => w.(stored := w.stored + map k | k in rows :: Persisted(rows[k]))
    case ReloadReads => w.(snapshot := w.stored)
    case ReloadMerges(ids) => w.(live := Merged(w.snapshot, w.live, ids))
    case Restarted(ids) => World(Merged(w.stored, map[], ids), w.stored, map[])
  }

  function Run(w: World, events: seq<Event>): World {
    if events == [] then w else Next(Run(w, events[..|events| - 1]), events[|events| - 1])
  }

  /** What an event is to one standing: reloads, saves and restarts are nothing. */
  function Plain(key: Key, st: Standing, e: Event): Standing {
    match e
    case Worked(jobs) => Alone(key, st, jobs).0
    case Marking(k, ack, at, who) => if k == key then Acknowledged(st, ack, at, who) else st
    case _ => st
  }

  function PlainRun(key: Key, st: Standing, events: seq<Event>): Standing {
    if events == [] then st else Plain(key, PlainRun(key, st, events[..|events| - 1]), events[|events| - 1])
  }

  /** What later transitions depend on. */
  predicate SameFuture(a: Standing, b: Standing) {
    a.firing == b.firing && a.streak == b.streak && a.lastTS == b.lastTS
  }

  /** The rule goes on existing, only standings that are in memory are saved, and a restart comes when the
      table has the firing, the streak and the last interval of this standing. */
  predicate Kept(key: Key, w: World, e: Event) {
    match e
    case Saved(rows) => key in rows ==> key in w.live
    case ReloadMerges(ids) => key.rule in ids
    case Restarted(ids) => key.rule in ids && SameFuture(At(w.stored, key), At(w.live, key))
    case _ => true
  }

  /** .. or the whole of it. */
  predicate KeptWhole(key: Key, w: World, e: Event) {
    Kept(key, w, e) && (e.Restarted? ==> At(w.stored, key) == Persisted(At(w.live, key)))
  }

  ghost predicate KeptThroughout(key: Key, w: World, events: seq<Event>) {
    forall i :: 0 <= i < |events| ==> Kept(key, Run(w, events[..i]), events[i])
  }

  ghost predicate KeptWholeThroughout(key: Key, w: World, events: seq<Event>) {
    forall i :: 0 <= i < |events| ==> KeptWhole(key, Run(w, events[..i]), events[i])
  }

  predicate MemoryFirst(key: Key, w: World) {
    key in w.stored || key in w.snapshot ==> key in w.live
  }

  lemma {:induction false} AloneKeepsSame(key: Key, a: Standing, b: Standing, jobs: seq<Job>)
    requires Persisted(a) == Persisted(b)
    ensures Persisted(Alone(key, a, jobs).0) == Persisted(Alone(key, b, jobs).0)
  {
    if jobs != [] {
      AloneKeepsSame(key, a, b, jobs[..|jobs| - 1]);
    }
  }

  lemma {:induction false} SameFutureSuffices(key: Key, a: Standing, b: Standing, jobs: seq<Job>)
    requires SameFuture(a, b)
    ensures SameFuture(Alone(key, a, jobs).0, Alone(key, b, jobs).0)
    ensures Alone(key, a, jobs).1 == Alone(key, b, jobs).1
  {
    if jobs != [] {
      SameFutureSuffices(key, a, b, jobs[..|jobs| - 1]);
    }
  }

  /** Any disagreement is shown by a single later measurement, under a rule that `Validate` accepts. */
  lemma Exposed(key: Key, a: Standing, b: Standing) returns (j: Job)
    requires a.streak >= 0 && b.streak >= 0 && !SameFuture(a, b)
    ensures j.key == key && ValidRule(j.rule) && j.seen.intervalS > 0
    ensures Evaluated(j.rule, a, j.seen).1 != Evaluated(j.rule, b, j.seen).1
  {
    var need := 1;
    var value := if a.firing then 0.0 else 2.0;
    var lo := if a.lastTS < b.lastTS then a.lastTS else b.lastTS;
    var hi := if a.lastTS < b.lastTS then b.lastTS else a.lastTS;
    var ts, intervalS := hi + 1, hi + 1 - lo;
    if a.firing == b.firing {
      if a.streak != b.streak {
        need := 1 + if a.streak < b.streak then b.streak else a.streak;
      } else if a.lastTS == 0 || b.lastTS == 0 {
        var last := if a.lastTS == 0 then b.lastTS else a.lastTS;
        ts, intervalS := last + 3, 1;
      } else {
        ts, intervalS := lo + 2 * (hi - lo) + 1, hi - lo;
      }
    }
    j := Job(Rule(key.rule, Loss, Greater, 1.0, need, need, true, false, false), key,
             Observation(value, true, true, ts, intervalS));
  }

  lemma OneJob(key: Key, st: Standing, j: Job)
    requires j.key == key
    ensures var t := Evaluated(j.rule, st, j.seen).1;
      Alone(key, st, [j]).1 == if t == NoChange then [] else [t]
  {
    assert [j][..0] == [];
    assert Alone(key, st, []) == (st, []);
  }

  /** Two standings report the same transitions ever after exactly when these three fields agree. */
  lemma FutureIsExact(key: Key, a: Standing, b: Standing)
    requires a.streak >= 0 && b.streak >= 0
    ensures SameFuture(a, b) <==> forall jobs :: Alone(key, a, jobs).1 == Alone(key, b, jobs).1
  {
    if SameFuture(a, b) {
      forall jobs ensures Alone(key, a, jobs).1 == Alone(key, b, jobs).1 {
        SameFutureSuffices(key, a, b, jobs);
      }
    } else {
      var j := Exposed(key, a, b);
      OneJob(key, a, j);
      OneJob(key, b, j);
      assert Alone(key, a, [j]).1 != Alone(key, b, [j]).1;
    }
  }

  /** When a restart of a rule that still exists changes no later transition: exactly when the table has
      these fields as memory had them. */
  lemma RestartIsExact(key: Key, w: World, ids: set<int>)
    requires key.rule in ids && At(w.stored, key).streak >= 0 && At(w.live, key).streak >= 0
    ensures SameFuture(At(w.stored, key), At(w.live, key))
       <==> forall jobs :: Of(key, AfterJobs(Next(w, Restarted(ids)).live, jobs).changed)
                        == Of(key, AfterJobs(w.live, jobs).changed)
  {
    var after := Next(w, Restarted(ids)).live;
    assert At(after, key) == At(w.stored, key);
    FuturesAgree(key, after, w.live);
  }

  lemma FuturesAgree(key: Key, one: Live, two: Live)
    requires At(one, key).streak >= 0 && At(two, key).streak >= 0
    ensures SameFuture(At(one, key), At(two, key))
       <==> forall jobs :: Of(key, AfterJobs(one, jobs).changed) == Of(key, AfterJobs(two, jobs).changed)
  {
    var a, b := At(one, key), At(two, key);
    FutureIsExact(key, a, b);
    hide *;
    if SameFuture(a, b) {
      forall jobs ensures Of(key, AfterJobs(one, jobs).changed) == Of(key, AfterJobs(two, jobs).changed) {
        StandingsAreIndependent(key, one, jobs);
        StandingsAreIndependent(key, two, jobs);
      }
    } else {
      var jobs :| Alone(key, a, jobs).1 != Alone(key, b, jobs).1;
      StandingsAreIndependent(key, one, jobs);
      StandingsAreIndependent(key, two, jobs);
      assert Of(key, AfterJobs(one, jobs).changed) != Of(key, AfterJobs(two, jobs).changed);
    }
  }

  // ---- the same, under one rule that nobody edits

  /** One rule looking at one measurement after the other. */
  function Under(r: Rule, key: Key, obs: seq<Observation>): (jobs: seq<Job>)
    ensures |jobs| == |obs| && forall i :: 0 <= i < |obs| ==> jobs[i] == Job(r, key, obs[i])
  {
    seq(|obs|, i requires 0 <= i < |obs| => Job(r, key, obs[i]))
  }

  function Need(r: Rule, firing: bool): int { if firing then r.clearFor else r.forIntervals }

  /** What `Alert.StreakMeaning` shows of every standing that a rule has moved by itself. */
  predicate InStep(r: Rule, st: Standing) { 0 <= st.streak < Need(r, st.firing) }

  /** A value that argues for changing state. */
  function Arguing(r: Rule, firing: bool): (v: real)
    ensures Matches(r, v) != firing
  {
    if firing then r.threshold else if r.op == Greater then r.threshold + 1.0 else r.threshold - 1.0
  }

  /** n intervals with one value, one second apart. */
  function Steady(v: real, ts: int, intervalS: int, n: nat): (obs: seq<Observation>)
    ensures |obs| == n && forall i :: 0 <= i < n ==> obs[i] == Observation(v, true, true, ts + i, intervalS)
  {
    seq(n, i => Observation(v, true, true, ts + i, intervalS))
  }

  lemma UnderParts(r: Rule, key: Key, v: real, ts: int, intervalS: int, n: nat)
    requires n > 0
    ensures var jobs := Under(r, key, Steady(v, ts, intervalS, n));
      && jobs[..n - 1] == Under(r, key, Steady(v, ts, intervalS, n - 1))
      && jobs[n - 1] == Job(r, key, Observation(v, true, true, ts + n - 1, intervalS))
  {
  }

  /** Values that argue, and too few of them: the streak grows. */
  lemma {:induction false} TooFew(r: Rule, key: Key, st: Standing, v: real, ts: int, intervalS: int, n: nat)
    requires r.enabled && intervalS >= 1 && !GapBetween(st.lastTS, Observation(v, true, true, ts, intervalS))
    requires Matches(r, v) != st.firing && 0 <= st.streak && st.streak + n < Need(r, st.firing)
    ensures var after := Alone(key, st, Under(r, key, Steady(v, ts, intervalS, n)));
      && after.1 == [] && after.0.firing == st.firing && after.0.streak == st.streak + n
      && after.0.lastTS == if n == 0 then st.lastTS else ts + n - 1
  {
    if n > 0 {
      UnderParts(r, key, v, ts, intervalS, n);
      TooFew(r, key, st, v, ts, intervalS, n - 1);
      hide Under, Steady, Matches;
    }
  }

  /** .. and just enough: it changes state. */
  lemma JustEnough(r: Rule, key: Key, st: Standing, v: real, ts: int, intervalS: int)
    requires r.enabled && intervalS >= 1 && !GapBetween(st.lastTS, Observation(v, true, true, ts, intervalS))
    requires Matches(r, v) != st.firing && InStep(r, st)
    ensures var n := Need(r, st.firing) - st.streak;
      Alone(key, st, Under(r, key, Steady(v, ts, intervalS, n))).1 == [if st.firing then Resolved else Fired]
  {
    var n := Need(r, st.firing) - st.streak;
    UnderParts(r, key, v, ts, intervalS, n);
    TooFew(r, key, st, v, ts, intervalS, n - 1);
    hide Under, Steady, Matches;
  }

  /** Values that argue for staying change nothing. */
  lemma {:induction false} NothingToReport(r: Rule, key: Key, st: Standing, v: real, ts: int, intervalS: int, n: nat)
    requires r.enabled && Matches(r, v) == st.firing
    ensures var after := Alone(key, st, Under(r, key, Steady(v, ts, intervalS, n)));
      after.1 == [] && after.0.firing == st.firing
  {
    if n > 0 {
      UnderParts(r, key, v, ts, intervalS, n);
      NothingToReport(r, key, st, v, ts, intervalS, n - 1);
      hide Under, Steady, Matches;
    }
  }

  lemma {:induction false} AloneTwice(key: Key, st: Standing, a: seq<Job>, b: seq<Job>)
    ensures var first := Alone(key, st, a);
      Alone(key, st, a + b) == (Alone(key, first.0, b).0, first.1 + Alone(key, first.0, b).1)
  {
    if b == [] {
      assert a + b == a;
      assert Alone(key, st, a).1 + [] == Alone(key, st, a).1;
    } else {
      var n := |b| - 1;
      assert (a + b)[..|a + b| - 1] == a + b[..n];
      AloneTwice(key, st, a, b[..n]);
      var first, more := Alone(key, st, a).1, Alone(key, Alone(key, st, a).0, b[..n]).1;
      assert forall x: seq<Transition> :: (first + more) + x == first + (more + x);
    }
  }

  /** A moment that is no gap after either time. */
  function NoGap(a: int, b: int): (m: (int, int))
    ensures m.1 >= 1 && m.0 - a <= 2 * m.1 && m.0 - b <= 2 * m.1
  {
    if a < b then (b + 1, b + 1 - a) else (a + 1, a + 1 - b)
  }

  /** .. and one that is after just one of them. */
  function GapAfterOne(a: int, b: int): (m: (int, int))
    requires a != b
    ensures m.1 >= 1
    ensures (a != 0 && m.0 - a > 2 * m.1) != (b != 0 && m.0 - b > 2 * m.1)
  {
    var lo, hi := if a < b then a else b, if a < b then b else a;
    if a == 0 || b == 0 then (a + b + 3, 1) else (lo + 2 * (hi - lo) + 1, hi - lo)
  }

  /** States or streaks that differ show in the intervals it takes the further one to change state. */
  lemma ExposedBySteady(r: Rule, key: Key, a: Standing, b: Standing) returns (obs: seq<Observation>)
    requires r.enabled && InStep(r, a) && InStep(r, b)
    requires a.firing != b.firing || a.streak < b.streak
    ensures Alone(key, a, Under(r, key, obs)).1 != Alone(key, b, Under(r, key, obs)).1
  {
    var v, m, n := Arguing(r, b.firing), NoGap(a.lastTS, b.lastTS), Need(r, b.firing) - b.streak;
    hide Arguing, NoGap, Alone, Under, Steady, Matches;
    obs := Steady(v, m.0, m.1, n);
    JustEnough(r, key, b, v, m.0, m.1);
    if a.firing != b.firing {
      NothingToReport(r, key, a, v, m.0, m.1, n);
    } else {
      TooFew(r, key, a, v, m.0, m.1, n);
    }
  }

  /** Last intervals that differ show after a gap for one alone. */
  lemma ExposedByGap(r: Rule, key: Key, a: Standing, b: Standing) returns (obs: seq<Observation>)
    requires r.enabled && InStep(r, a) && InStep(r, b)
    requires a.firing == b.firing && a.streak == b.streak && a.lastTS != b.lastTS
    ensures Alone(key, a, Under(r, key, obs)).1 != Alone(key, b, Under(r, key, obs)).1
  {
    var m := GapAfterOne(a.lastTS, b.lastTS);
    var o := Observation(Arguing(r, a.firing), true, true, m.0, m.1);
    var j := Job(r, key, o);
    AfterTheGap(r, a, b, o);
    assert Under(r, key, [o]) == [j];
    var a', b' := Evaluated(r, a, o).0, Evaluated(r, b, o).0;
    hide *;
    if Evaluated(r, a, o).1 != Evaluated(r, b, o).1 {
      obs := [o];
      OneJobTells(key, a, b, j);
    } else {
      var more;
      if a'.streak < b'.streak {
        more := ExposedBySteady(r, key, a', b');
      } else {
        more := ExposedBySteady(r, key, b', a');
      }
      obs := [o] + more;
      assert Under(r, key, obs) == [j] + Under(r, key, more);
      AfterOneQuiet(key, a, j, Under(r, key, more));
      AfterOneQuiet(key, b, j, Under(r, key, more));
    }
  }

  lemma OneJobTells(key: Key, a: Standing, b: Standing, j: Job)
    requires j.key == key && Evaluated(j.rule, a, j.seen).1 != Evaluated(j.rule, b, j.seen).1
    ensures Alone(key, a, [j]).1 != Alone(key, b, [j]).1
  {
    OneJob(key, a, j);
    OneJob(key, b, j);
    hide Alone, Evaluated;
  }

  lemma AfterOneQuiet(key: Key, st: Standing, j: Job, rest: seq<Job>)
    requires j.key == key && Evaluated(j.rule, st, j.seen).1 == NoChange
    ensures Alone(key, st, [j] + rest).1 == Alone(key, Evaluated(j.rule, st, j.seen).0, rest).1
  {
    OneJob(key, st, j);
    AloneOne(key, st, j);
    AloneTwice(key, st, [j], rest);
    hide Alone, Evaluated;
    var more := Alone(key, Evaluated(j.rule, st, j.seen).0, rest).1;
    assert [] + more == more;
  }

  lemma AfterTheGap(r: Rule, a: Standing, b: Standing, o: Observation)
    requires r.enabled && InStep(r, a) && InStep(r, b) && a.firing == b.firing && a.streak == b.streak
    requires GapBetween(a.lastTS, o) != GapBetween(b.lastTS, o) && o.ok && o.trusted && Matches(r, o.value) != a.firing
    ensures var x, y := Evaluated(r, a, o), Evaluated(r, b, o);
      x.1 != y.1 || (x.1 == NoChange && x.0.firing == y.0.firing && x.0.streak != y.0.streak
                     && InStep(r, x.0) && InStep(r, y.0))
  {
    hide Matches;
  }

  lemma AloneOne(key: Key, st: Standing, j: Job)
    requires j.key == key
    ensures Alone(key, st, [j]).0 == Evaluated(j.rule, st, j.seen).0
  {
    assert [j][..0] == [];
    assert Alone(key, st, []) == (st, []);
  }

  /** Under one enabled rule, too, two standings report the same ever after exactly when the three fields
      agree: a rule left alone shows every disagreement. */
  lemma FutureIsExactUnder(r: Rule, key: Key, a: Standing, b: Standing)
    requires r.enabled && InStep(r, a) && InStep(r, b)
    ensures SameFuture(a, b) <==>
      forall obs :: Alone(key, a, Under(r, key, obs)).1 == Alone(key, b, Under(r, key, obs)).1
  {
    hide Alone, Under, InStep, Evaluated;
    if SameFuture(a, b) {
      forall obs ensures Alone(key, a, Under(r, key, obs)).1 == Alone(key, b, Under(r, key, obs)).1 {
        SameFutureSuffices(key, a, b, Under(r, key, obs));
      }
    } else {
      var obs;
      if a.firing != b.firing || a.streak < b.streak {
        obs := ExposedBySteady(r, key, a, b);
      } else if b.streak < a.streak {
        obs := ExposedBySteady(r, key, b, a);
      } else {
        obs := ExposedByGap(r, key, a, b);
      }
      assert Alone(key, a, Under(r, key, obs)).1 != Alone(key, b, Under(r, key, obs)).1;
    }
  }

  /** So a restart changes no later transition of an enabled rule that is left alone, and sees what it would
      have seen, exactly when the table has the three fields as memory had them. */
  lemma RestartIsExactUnder(r: Rule, key: Key, w: World, ids: set<int>)
    requires key.rule in ids && r.enabled && InStep(r, At(w.stored, key)) && InStep(r, At(w.live, key))
    ensures SameFuture(At(w.stored, key), At(w.live, key))
       <==> forall obs :: Of(key, AfterJobs(Next(w, Restarted(ids)).live, Under(r, key, obs)).changed)
                       == Of(key, AfterJobs(w.live, Under(r, key, obs)).changed)
  {
    var after := Next(w, Restarted(ids)).live;
    var a, b := At(after, key), At(w.live, key);
    assert a == At(w.stored, key);
    hide *;
    FutureIsExactUnder(r, key, a, b);
    forall obs
      ensures Of(key, AfterJobs(after, Under(r, key, obs)).changed) == Alone(key, a, Under(r, key, obs)).1
      ensures Of(key, AfterJobs(w.live, Under(r, key, obs)).changed) == Alone(key, b, Under(r, key, obs)).1
    {
      StandingsAreIndependent(key, after, Under(r, key, obs));
      StandingsAreIndependent(key, w.live, Under(r, key, obs));
    }
  }

  lemma NextIsPlain(key: Key, w: World, st: Standing, e: Event)
    requires MemoryFirst(key, w) && Kept(key, w, e) && SameFuture(At(w.live, key), st)
    ensures MemoryFirst(key, Next(w, e)) && SameFuture(At(Next(w, e).live, key), Plain(key, st, e))
    ensures KeptWhole(key, w, e) && Persisted(At(w.live, key)) == Persisted(st) ==>
      Persisted(At(Next(w, e).live, key)) == Persisted(Plain(key, st, e))
  {
    if e.Worked? {
      hide Persisted, Alone, AfterJobs, SameFuture;
      StandingsAreIndependent(key, w.live, e.jobs);
      SameFutureSuffices(key, At(w.live, key), st, e.jobs);
      if Persisted(At(w.live, key)) == Persisted(st) {
        AloneKeepsSame(key, At(w.live, key), st, e.jobs);
      }
    }
  }

  lemma {:induction false} RunIsPlain(key: Key, w: World, events: seq<Event>)
    requires MemoryFirst(key, w) && KeptThroughout(key, w, events)
    ensures MemoryFirst(key, Run(w, events))
    ensures SameFuture(At(Run(w, events).live, key), PlainRun(key, At(w.live, key), events))
    ensures KeptWholeThroughout(key, w, events) ==>
      Persisted(At(Run(w, events).live, key)) == Persisted(PlainRun(key, At(w.live, key), events))
  {
    if events != [] {
      var n := |events| - 1;
      hide Kept, KeptWhole, Persisted, SameFuture, Next, Plain;
      forall i | 0 <= i < n ensures events[..n][..i] == events[..i] {
      }
      RunIsPlain(key, w, events[..n]);
      assert Kept(key, Run(w, events[..n]), events[n]);
      if KeptWholeThroughout(key, w, events) {
        assert KeptWhole(key, Run(w, events[..n]), events[n]);
      }
      NextIsPlain(key, Run(w, events[..n]), PlainRun(key, At(w.live, key), events[..n]), events[n]);
    }
  }

  /** Interleaved reloads, and restarts after a successful save, leave every standing where it would be
      without them.. */
  lemma ReloadsAndRestartsChangeNothing(key: Key, w: World, events: seq<Event>)
    requires MemoryFirst(key, w) && KeptWholeThroughout(key, w, events)
    ensures MemoryFirst(key, Run(w, events))
    ensures Persisted(At(Run(w, events).live, key)) == Persisted(PlainRun(key, At(w.live, key), events))
  {
    hide Persisted, PlainRun, Run;
    RunIsPlain(key, w, events);
  }

  /** .. and every batch afterwards reports for it exactly the transitions it would have, if each restart
      found the three fields saved. */
  lemma LaterTransitionsAreTheSame(key: Key, w: World, events: seq<Event>, jobs: seq<Job>)
    requires MemoryFirst(key, w) && KeptThroughout(key, w, events)
    ensures Of(key, AfterJobs(Run(w, events).live, jobs).changed)
         == Alone(key, PlainRun(key, At(w.live, key), events), jobs).1
  {
    RunIsPlain(key, w, events);
    StandingsAreIndependent(key, Run(w, events).live, jobs);
    SameFutureSuffices(key, At(Run(w, events).live, key), PlainRun(key, At(w.live, key), events), jobs);
  }

  /** One interval, and a restart before it was saved. */
  lemma WorkedThenRestarted(key: Key, job: Job, ids: set<int>)
    requires job.key == key && ids == {key.rule}
    ensures var w, events := World(map[], map[], map[]), [Worked([job]), Restarted(ids)];
      var once := Evaluated(job.rule, FRESH, job.seen).0;
      && MemoryFirst(key, w) && Run(w, events).live == map[] && PlainRun(key, FRESH, events) == once
      && (KeptThroughout(key, w, events) ==> SameFuture(FRESH, once))
  {
    var w, events := World(map[], map[], map[]), [Worked([job]), Restarted(ids)];
    var once := Evaluated(job.rule, FRESH, job.seen).0;
    assert events[..1] == [Worked([job])] && events[..1][..0] == [];
    assert [job][..0] == [];
    assert AfterJobs(w.live, [job]).live == map[key := once];
    assert Run(w, events[..1]) == World(map[key := once], map[], map[]);
    assert Alone(key, FRESH, []) == (FRESH, []);
    assert Alone(key, FRESH, [job]).0 == once;
    assert PlainRun(key, FRESH, []) == FRESH;
    assert PlainRun(key, FRESH, events[..1]) == once;
    assert KeptThroughout(key, w, events) ==> Kept(key, Run(w, events[..1]), events[1]);
  }

  /** One that did not: a rule needing two intervals is restarted between them, and the second is lost. */
  lemma UnsavedRestartForgets()
    ensures exists key, w, events, jobs ::
      && MemoryFirst(key, w) && !KeptThroughout(key, w, events)
      && Of(key, AfterJobs(Run(w, events).live, jobs).changed)
      != Alone(key, PlainRun(key, At(w.live, key), events), jobs).1
  {
    var key := Key(1, 1, 0);
    var job := Job(Rule(1, Loss, Greater, 10.0, 2, 2, true, false, false), key, Observation(50.0, true, true, 60, 60));
    var once := Evaluated(job.rule, FRESH, job.seen).0;
    var w, events := World(map[], map[], map[]), [Worked([job]), Restarted({1})];
    assert At(map[], key) == FRESH;
    assert Matches(job.rule, 50.0) && !GapBetween(0, job.seen);
    assert once == FRESH.(streak := 1, lastTS := 60, value := 50.0);
    hide Of, AfterJobs, Alone, Run, PlainRun, KeptThroughout, MemoryFirst, At, Evaluated;
    WorkedThenRestarted(key, job, {1});
    FutureIsExact(key, FRESH, once);
    var jobs :| Alone(key, FRESH, jobs).1 != Alone(key, once, jobs).1;
    StandingsAreIndependent(key, map[], jobs);
  }
}
