/** What an agent may expect of its batches (internal/api/ingest.go `handleIngest`, internal/ingest/batch.go
    `DecodeBatch`): which are turned away, and what the others leave stored. */
module Ingest {
  import opened Options
  import opened Store
  import opened Outbox
  import opened Sorting
  import Writes

  /** A batch is a bad request exactly when it cannot be read, or one of its rows miscounts: lost pings, and even
      more replies than pings, do not make it one. */
  lemma BadRequestExactly(c: Codec, t: Tables, req: Request, env: Env)
    ensures Handle(c, t, req, env).1 == Bad400 <==>
      !env.refused && (env.garbled || exists m :: m in req.batch && Miscounts(m.row, m.series))
    ensures Handle(c, t, req, env).1 != Status.Ok200 ==> Handle(c, t, req, env).0 == t
  {
    UndecodableMiscounts(env, req.batch);
    hide WriteAll, Undecodable, Miscounts;
  }

  ghost predicate CountsRight(row: Row, series: map<string, seq<int>>) {
    && row.received == |row.samples|
    && (row.received <= row.sent ==> forall name :: name in series ==> |series[name]| <= row.sent)
  }

  /** A possible row of an assigned target, and not of the future. */
  ghost predicate Owed(env: Env, m: Measurement) {
    m.row.received <= m.row.sent && m.key.target in env.mayWrite && m.key.ts <= env.horizon
  }

  /** The codec takes its lists once they are in order. */
  ghost predicate Storable(c: Codec, m: Measurement) {
    && (forall s :: multiset(s) == multiset(m.row.samples) && IsSorted(s) ==> c.encodes(s))
    && forall name :: name in m.series ==>
      c.known(name) && forall s :: multiset(s) == multiset(m.series[name]) && IsSorted(s) ==> c.encodes(s)
  }

  /** What was sent, under the agent's own id, with its lists in order. */
  ghost predicate AsSent(agent: int, m: Measurement, stored: Measurement) {
    && stored.key == Key(m.key.target, agent, m.key.ts)
    && stored.row == m.row.(samples := stored.row.samples)
    && multiset(stored.row.samples) == multiset(m.row.samples) && IsSorted(stored.row.samples)
    && stored.series.Keys == m.series.Keys
    && forall name :: name in m.series ==>
      multiset(stored.series[name]) == multiset(m.series[name]) && IsSorted(stored.series[name])
  }

  lemma ReceivedIsAsSent(agent: int, m: Measurement)
    ensures AsSent(agent, m, Received(agent, m))
  {
    SortedPermutes(m.row.samples);
    forall name | name in m.series ensures multiset(Sorted(m.series[name])) == multiset(m.series[name]) {
      SortedPermutes(m.series[name]);
    }
    hide Sorted;
  }

  lemma OwedIsKept(env: Env, agent: int, batch: seq<Measurement>)
    ensures forall m :: m in batch && Owed(env, m) ==> Received(agent, m) in Kept(env, agent, batch)
    ensures forall x :: x in Kept(env, agent, batch) ==>
      exists m :: m in batch && Owed(env, m) && x == Received(agent, m)
  {
    KeptIs(env, agent, batch);
    hide Received, Kept;
    forall x | x in Kept(env, agent, batch) ensures exists m :: m in batch && Owed(env, m) && x == Received(agent, m) {
      var m :| m in batch && Excluded(env, m).None? && x == Received(agent, m);
    }
  }

  lemma ReceivedFits(c: Codec, agent: int, m: Measurement)
    requires Storable(c, m) && CountsRight(m.row, m.series)
    ensures Writes.RowFits(c, Received(agent, m)) && Writes.SeriesFit(c, Received(agent, m))
  {
    ReceivedIsAsSent(agent, m);
    hide Received, IsSorted;
    var r := Received(agent, m);
    assert |r.row.samples| == |multiset(r.row.samples)| == |multiset(m.row.samples)| == |m.row.samples|;
  }

  /** A batch that counts right is never a bad request, whatever pings it lost; it is a 200 if the codec takes what
      is owed; and after a 200 every possible row of an assigned target that is not of the future is stored,
      as it was sent unless its key was taken. */
  lemma HonestBatchIsStored(c: Codec, t: Tables, req: Request, env: Env)
    requires !env.refused && !env.garbled && forall m :: m in req.batch ==> CountsRight(m.row, m.series)
    ensures Handle(c, t, req, env).1 != Bad400
    ensures (forall m :: m in req.batch && Owed(env, m) ==> Storable(c, m)) ==> Handle(c, t, req, env).1 == Status.Ok200
    ensures Handle(c, t, req, env).1 == Status.Ok200 ==>
      forall m :: m in req.batch && Owed(env, m) ==> StoredFor(t, req, env, Handle(c, t, req, env).0, m)
  {
    BadRequestExactly(c, t, req, env);
    var kept := Kept(env, req.agent, req.batch);
    OwedIsKept(env, req.agent, req.batch);
    Writes.FirstRowIsStored(c, t, kept);
    HandleWrites(c, t, req, env);
    hide *;
    if forall m :: m in req.batch && Owed(env, m) ==> Storable(c, m) {
      forall i | 0 <= i < |kept| ensures Writes.IngestFits(c, t, kept, i) {
        assert kept[i] in kept;
        var m :| m in req.batch && Owed(env, m) && kept[i] == Received(req.agent, m);
        ReceivedFits(c, req.agent, m);
        FittingIsIngested(c, t, kept, i);
      }
    }
    if Handle(c, t, req, env).1 == Status.Ok200 {
      forall m | m in req.batch && Owed(env, m) ensures StoredFor(t, req, env, Handle(c, t, req, env).0, m) {
        OneIsStored(c, t, req, env, m);
      }
    }
  }

  lemma FittingIsIngested(c: Codec, t: Tables, ms: seq<Measurement>, i: nat)
    requires i < |ms| && Writes.RowFits(c, ms[i]) && Writes.SeriesFit(c, ms[i])
    ensures Writes.IngestFits(c, t, ms, i)
  {
  }

  lemma HandleWrites(c: Codec, t: Tables, req: Request, env: Env)
    requires Handle(c, t, req, env).1 != Bad400 && !env.refused
    ensures var r := WriteAll(c, t, Kept(env, req.agent, req.batch), false);
      && (Handle(c, t, req, env).1 == Status.Ok200 <==> r.Some?)
      && (r.Some? ==> Handle(c, t, req, env).0 == r.value.0)
  {
    hide WriteAll, Kept;
  }

  /** Under its key: something, and this very measurement if the key was free and the batch has no other for it. */
  ghost predicate StoredFor(t: Tables, req: Request, env: Env, t': Tables, m: Measurement) {
    var k := Key(m.key.target, req.agent, m.key.ts);
    && k in t'.rows
    && (k in t.rows ==> EntryOf(t', k) == EntryOf(t, k))
    && (k !in t.rows && Alone(req.batch, m) ==> AsSent(req.agent, m, EntryOf(t', k)))
  }

  ghost predicate Alone(batch: seq<Measurement>, m: Measurement) {
    forall n :: n in batch && n.key.target == m.key.target && n.key.ts == m.key.ts ==> n == m
  }

  lemma OneIsStored(c: Codec, t: Tables, req: Request, env: Env, m: Measurement)
    requires Handle(c, t, req, env).1 == Status.Ok200 && m in req.batch && Owed(env, m)
    ensures StoredFor(t, req, env, Handle(c, t, req, env).0, m)
  {
    var kept, k := Kept(env, req.agent, req.batch), Key(m.key.target, req.agent, m.key.ts);
    assert !env.refused;
    OwedIsKept(env, req.agent, req.batch);
    Writes.FirstRowIsStored(c, t, kept);
    HandleWrites(c, t, req, env);
    ReceivedIsAsSent(req.agent, m);
    hide Handle, WriteAll, Kept, Received, Writes.IngestFits, SeriesFor;
    var t' := Handle(c, t, req, env).0;
    var j :| 0 <= j < |kept| && kept[j] == Received(req.agent, m);
    assert k in t'.rows;
    if k !in t.rows && Alone(req.batch, m) {
      var i := FirstWith(kept, k, j);
      assert kept[i] in kept;
      var n :| n in req.batch && Owed(env, n) && kept[i] == Received(req.agent, n);
      ReceivedIsAsSent(req.agent, n);
      assert n == m;
    }
  }

  lemma FirstWith(ms: seq<Measurement>, k: Key, j: nat) returns (i: nat)
    requires j < |ms| && ms[j].key == k
    ensures i < |ms| && ms[i].key == k && Writes.FirstOfItsKey(ms, i)
  {
    i := 0;
    while ms[i].key != k
      invariant i <= j && forall h :: 0 <= h < i ==> ms[h].key != k
      decreases j - i
    {
      i := i + 1;
    }
  }
}
