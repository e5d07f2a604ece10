/** Agents and their master as a distributed protocol (internal/agent/agent.go, internal/api/ingest.go,
    internal/ingest/batch.go): outboxes, a network that loses, delays and repeats messages, and a table
    in which the first write wins. */
module Outbox {
  import opened Options
  import opened Store
  import opened Sorting

  const LOCAL_AGENT: int := 0

  /** Why a measurement was let go without being stored. */
  datatype Reason = UndecodableBatch | NotAssigned | InFuture | MoreRepliesThanProbes

  datatype Status = Ok200 | Bad400 | Other

  datatype Request = Request(agent: int, batch: seq<Measurement>)

  /** What the master's answer depends on besides the request and its tables. `refused` stands for every
      answer that is neither 200 nor 400 before the store is reached; `garbled` for bytes the Arrow
      reader or the frame screen refuses. */
  datatype Env = Env(refused: bool, garbled: bool, mayWrite: set<int>, horizon: int)

  // ---------------------------------------------------------------- the master's side

  function Stamped(agent: int, key: Key): Key { Key(key.target, agent, key.ts) }

  /** A row as the master decodes it: under the agent's own id, with its distributions in order. */
  function Received(agent: int, m: Measurement): Measurement {
    Measurement(Stamped(agent, m.key), m.row.(samples := Sorted(m.row.samples)),
                map name | name in m.series :: Sorted(m.series[name]))
  }

  predicate RowMalformed(m: Measurement) {
    || m.row.received != |m.row.samples|
    || (m.row.received <= m.row.sent && exists name :: name in m.series && |m.series[name]| > m.row.sent)
  }

  /** One malformed row makes the whole batch a 400. */
  predicate Undecodable(env: Env, batch: seq<Measurement>) {
    env.garbled || exists i :: 0 <= i < |batch| && RowMalformed(batch[i])
  }

  /** Why a decodable row would be let go; None when it is offered to the store. */
  function Excluded(env: Env, m: Measurement): Option<Reason> {
    if m.row.received > m.row.sent then Some(MoreRepliesThanProbes)
    else if m.key.target !in env.mayWrite then Some(NotAssigned)
    else if m.key.ts > env.horizon then Some(InFuture)
    else None
  }

  function Kept(env: Env, agent: int, batch: seq<Measurement>): seq<Measurement> {
    if batch == [] then []
    else
      var m := batch[|batch| - 1];
      Kept(env, agent, batch[..|batch| - 1]) + if Excluded(env, m).None? then [Received(agent, m)] else []
  }

  /** `handleIngest`, from decoding to the answer. */
  function Handle(c: Codec, t: Tables, req: Request, env: Env): (Tables, Status) {
    if env.refused then (t, Other)
    else if Undecodable(env, req.batch) then (t, Bad400)
    else
      match WriteAll(c, t, Kept(env, req.agent, req.batch), false)
      case None => (t, Other)
      case Some(done) => (done.0, Ok200)
  }

  /** What an answer says is not stored, and why. */
  ghost function Refused(req: Request, env: Env, status: Status): set<(Key, Reason)> {
    if status == Bad400 then set m | m in req.batch :: (m.key, UndecodableBatch)
    else if status == Ok200 then set m | m in req.batch && Excluded(env, m).Some? :: (m.key, Excluded(env, m).value)
    else {}
  }

  method FilterBatch(env: Env, agent: int, batch: seq<Measurement>)
        returns (kept: seq<Measurement>, skipped: nat, future: nat)
    ensures kept == Kept(env, agent, batch)
    ensures |kept| + skipped + future + |Impossible(batch)| == |batch|
  {
    kept, skipped, future := [], 0, 0;
    for i := 0 to |batch|
      invariant kept == Kept(env, agent, batch[..i])
      invariant |kept| + skipped + future + |Impossible(batch[..i])| == i
    {
      assert batch[..i + 1][..i] == batch[..i];
      var m := batch[i];
      if m.row.received > m.row.sent {
      } else if m.key.target !in env.mayWrite {
        skipped := skipped + 1;
      } else if m.key.ts > env.horizon {
        future := future + 1;
      } else {
        kept := kept + [Received(agent, m)];
      }
    }
    assert batch[..|batch|] == batch;
  }

  function Impossible(batch: seq<Measurement>): seq<Measurement> {
    if batch == [] then []
    else
      var m := batch[|batch| - 1];
      Impossible(batch[..|batch| - 1]) + if m.row.received > m.row.sent then [m] else []
  }

  // ---------------------------------------------------------------- the system

  /** An answer, with what it depended on. */
  datatype Answer = Answer(id: nat, env: Env, status: Status)

  /** A page while it is being read, which takes several statements: its rows come first, the series of each
      row in some later one; `todo` are those still to come. */
  datatype Draft = Draft(batch: seq<Measurement>, todo: set<Key>)

  function RowsOf(t: Tables, keys: seq<Key>): Draft
    requires forall k :: k in keys ==> k in t.rows
  {
    Draft(seq(|keys|, i requires 0 <= i < |keys| => Measurement(keys[i], t.rows[keys[i]], map[])), set k | k in keys)
  }

  function WithSeries(d: Draft, t: Tables, keys: set<Key>): Draft {
    Draft(seq(|d.batch|, i requires 0 <= i < |d.batch| => Attached(d.batch[i], t, keys)), d.todo - keys)
  }

  function Attached(m: Measurement, t: Tables, keys: set<Key>): Measurement {
    if m.key in keys then m.(series := SeriesFor(t, m.key)) else m
  }

  /** Requests are numbered as they are sent. An answer stays available to the agent that waits for it;
      a lost one is simply never collected. `ever` (what each agent recorded, whole), `letGo` (what each
      forgot because of an answer that refused it) and `pruned` are history. */
  datatype System = System(outbox: map<int, Tables>, drafts: map<int, Draft>, waiting: map<int, nat>,
                           requests: seq<Request>,
                           answers: set<Answer>, master: Tables,
                           ever: set<(int, Measurement)>, letGo: set<(int, Key, Reason)>, pruned: set<Key>)

  datatype Event =
    | Record(agent: int, ms: seq<Measurement>)     // the agent's prober writes rows, under agent id 0
    | ReadRows(agent: int, keys: seq<Key>)         // the rows of a page of the outbox are read
    | ReadSeries(agent: int, part: set<Key>)       // .. and some of its series
    | Send(agent: int)                             // the page goes out
    | Deliver(id: nat, env: Env)                   // a request arrives: perhaps late, perhaps again
    | Collect(agent: int, answer: Answer, cleared: bool) // its answer is read; forgetting may fail
    | GiveUp(agent: int)                           // a page that does not decode, a timeout, a lost answer, a restart
    | LocalWrite(ms: seq<Measurement>)             // the master's own prober
    | Prune(target: int, cutoff: int)              // retention on the master

  const EMPTY: Tables := Tables(map[], map[])

  function BoxOf(s: System, agent: int): Tables {
    if agent in s.outbox then s.outbox[agent] else EMPTY
  }

  ghost predicate Enabled(s: System, e: Event) {
    match e
    case Record(a, ms) => a != LOCAL_AGENT && forall m :: m in ms ==> m.key.agent == LOCAL_AGENT
    case ReadRows(a, keys) =>
      a != LOCAL_AGENT && a !in s.waiting && a !in s.drafts && forall k :: k in keys ==> k in BoxOf(s, a).rows
    case ReadSeries(a, keys) => a in s.drafts && keys <= s.drafts[a].todo
    case Send(a) => a in s.drafts && s.drafts[a].todo == {} && a !in s.waiting
    case Deliver(id, _) => id < |s.requests|
    case Collect(a, answer, _) => a in s.waiting && s.waiting[a] == answer.id && answer in s.answers
    case GiveUp(a) => a in s.waiting || a in s.drafts
    case LocalWrite(ms) => forall m :: m in ms ==> m.key.agent == LOCAL_AGENT
    case Prune(_, _) => true
  }

  /** `pushMeasurements`: a 200 and a 400 both forget the batch; anything else keeps it. */
  predicate Forgets(status: Status) { status != Other }

  ghost function Next(c: Codec, s: System, e: Event): System
    requires Enabled(s, e) && Numbered(s)
  {
    match e
    case Record(a, ms) =>
      (match WriteAll(c, BoxOf(s, a), ms, true)
       case None => s
       case Some(done) => s.(outbox := s.outbox[a := done.0], ever := s.ever + set m | m in ms :: (a, m)))
    case ReadRows(a, keys) => s.(drafts := s.drafts[a := RowsOf(BoxOf(s, a), keys)])
    case ReadSeries(a, keys) => s.(drafts := s.drafts[a := WithSeries(s.drafts[a], BoxOf(s, a), keys)])
    case Send(a) =>
      s.(requests := s.requests + [Request(a, s.drafts[a].batch)], waiting := s.waiting[a := |s.requests|],
         drafts := s.drafts - {a})
    case Deliver(id, env) =>
      var (t, status) := Handle(c, s.master, s.requests[id], env);
      s.(master := t, answers := s.answers + {Answer(id, env, status)})
    case Collect(a, answer, cleared) =>
      if !Forgets(answer.status) || !cleared then s.(waiting := s.waiting - {a})
      else s.(waiting := s.waiting - {a},
              outbox := s.outbox[a := DropAll(BoxOf(s, a), s.requests[answer.id].batch)],
              letGo := s.letGo + set x | x in Refused(s.requests[answer.id], answer.env, answer.status) ::
                  (a, x.0, x.1))
    case GiveUp(a) => s.(waiting := s.waiting - {a}, drafts := s.drafts - {a})
    case LocalWrite(ms) =>
      (match WriteAll(c, s.master, ms, true) case None => s case Some(done) => s.(master := done.0))
    case Prune(target, cutoff) =>
      s.(master := Pruned(s.master, target, cutoff),
         pruned := s.pruned + set k | k in s.master.rows && Old(k, target, cutoff))
  }

  const START: System := System(map[], map[], map[], [], {}, EMPTY, {}, {}, {})

  ghost predicate Numbered(s: System) {
    forall a :: a in s.waiting ==> s.waiting[a] < |s.requests| && s.requests[s.waiting[a]].agent == a
  }

  ghost predicate IsRun(c: Codec, states: seq<System>, events: seq<Event>) {
    && |states| == |events| + 1 && states[0] == START
    && forall i :: 0 <= i < |events| ==>
         Numbered(states[i]) && Enabled(states[i], events[i]) && states[i + 1] == Next(c, states[i], events[i])
  }

  // ---------------------------------------------------------------- conservation

  ghost predicate AtMaster(s: System, agent: int, key: Key) {
    Stamped(agent, key) in s.master.rows || Stamped(agent, key) in s.pruned
  }

  ghost predicate WasLetGo(s: System, agent: int, key: Key) {
    exists r :: (agent, key, r) in s.letGo
  }

  /** A measurement some agent once buffered, accounted for. */
  ghost predicate Accounted(s: System, agent: int, key: Key) {
    || (agent in s.outbox && key in s.outbox[agent].rows)
    || AtMaster(s, agent, key)
    || WasLetGo(s, agent, key)
  }

  /** An answer, true of the request and of what it depended on. */
  ghost predicate Honest(req: Request, a: Answer) {
    && (a.status == Bad400 ==> Undecodable(a.env, req.batch))
    && (a.status == Ok200 ==> !Undecodable(a.env, req.batch))
  }

  ghost predicate RefusedBy(req: Request, a: Answer, key: Key) {
    exists r :: (key, r) in Refused(req, a.env, a.status)
  }

  /** A 200 or a 400 means every row of the batch is at the master, or was refused by this answer. */
  ghost predicate AnswersHonest(s: System) {
    forall a :: a in s.answers ==>
      a.id < |s.requests| && Honest(s.requests[a.id], a) && (Forgets(a.status) ==>
        forall m :: m in s.requests[a.id].batch ==>
          AtMaster(s, s.requests[a.id].agent, m.key) || RefusedBy(s.requests[a.id], a, m.key))
  }

  ghost predicate Conserved(s: System) {
    forall x :: x in s.ever ==> Accounted(s, x.0, x.1.key)
  }

  /** A row whose replies are not as many as its samples, or that has more values in a series than it sent pings;
      of a row with more replies than pings the series are not looked at. */
  ghost predicate Miscounts(row: Row, series: map<string, seq<int>>) {
    || row.received < |row.samples| || row.received > |row.samples|
    || exists name :: name in series && row.received <= row.sent < |series[name]|
  }

  ghost predicate ReasonHolds(env: Env, req: Request, m: Measurement, r: Reason) {
    match r
    case UndecodableBatch => env.garbled || exists x :: x in req.batch && Miscounts(x.row, x.series)
    case NotAssigned => m.key.target !in env.mayWrite
    case InFuture => m.key.ts > env.horizon
    case MoreRepliesThanProbes => m.row.received > m.row.sent
  }

  /** The master answered a request of this agent that held this key, and the reason was true of it. */
  ghost predicate Reasoned(s: System, agent: int, key: Key, r: Reason) {
    exists a, m :: a in s.answers && a.id < |s.requests| && s.requests[a.id].agent == agent
      && m in s.requests[a.id].batch && m.key == key && ReasonHolds(a.env, s.requests[a.id], m, r)
  }

  ghost predicate AllReasoned(s: System) {
    forall x :: x in s.letGo ==> Reasoned(s, x.0, x.1, x.2)
  }

  ghost predicate RowRecorded(ever: set<(int, Measurement)>, agent: int, m: Measurement) {
    exists m1 :: (agent, m1) in ever && m1.key == m.key && m1.row == m.row
  }

  ghost predicate SeriesRecorded(ever: set<(int, Measurement)>, agent: int, m: Measurement) {
    exists m2 :: (agent, m2) in ever && m2.key == m.key && m2.series == m.series
  }

  /** What an outbox holds was recorded, as it is, by that agent; of what a request carries, the row was, and
      the series were, under the same key. */
  ghost predicate Sourced(s: System) {
    && (forall a, k :: a in s.outbox && k in s.outbox[a].rows ==> (a, EntryOf(s.outbox[a], k)) in s.ever)
    && (forall id, m :: 0 <= id < |s.requests| && m in s.requests[id].batch ==>
          RowRecorded(s.ever, s.requests[id].agent, m) && SeriesRecorded(s.ever, s.requests[id].agent, m))
    && (forall id :: 0 <= id < |s.requests| ==> s.requests[id].agent != LOCAL_AGENT)
    && (forall x :: x in s.ever ==> x.1.key.agent == LOCAL_AGENT)
  }

  /** A page that is being read is of rows still buffered, recorded by that agent, with series it recorded. */
  ghost predicate DraftSourced(s: System, a: int)
    requires a in s.drafts
  {
    forall m :: m in s.drafts[a].batch ==>
      && m.key in BoxOf(s, a).rows && RowRecorded(s.ever, a, m)
      && (m.key !in s.drafts[a].todo ==> SeriesRecorded(s.ever, a, m))
  }

  ghost predicate Drafted(s: System) {
    forall a :: a in s.drafts ==> a != LOCAL_AGENT && a !in s.waiting && DraftSourced(s, a)
  }

  /** What is stored for a remote agent is, whole, a measurement that agent sent. */
  ghost predicate Authentic(s: System) {
    forall k :: k in s.master.rows && k.agent != LOCAL_AGENT ==> SentAs(s.requests, EntryOf(s.master, k))
  }

  ghost predicate SentAs(requests: seq<Request>, entry: Measurement) {
    exists id, m :: 0 <= id < |requests| && m in requests[id].batch && Received(requests[id].agent, m) == entry
  }

  ghost predicate Inv(s: System) {
    && Numbered(s) && Sourced(s) && Drafted(s)
    && AnswersHonest(s) && Conserved(s) && Authentic(s) && AllReasoned(s)
  }

  // ---------------------------------------------------------------- one delivery

  lemma {:induction false} KeptIs(env: Env, agent: int, batch: seq<Measurement>)
    ensures forall m :: m in batch && Excluded(env, m).None? ==> Received(agent, m) in Kept(env, agent, batch)
    ensures forall x :: x in Kept(env, agent, batch) ==>
      exists m :: m in batch && Excluded(env, m).None? && x == Received(agent, m)
  {
    hide Excluded, Received;
    if batch != [] {
      var last := |batch| - 1;
      KeptIs(env, agent, batch[..last]);
      assert batch == batch[..last] + [batch[last]];
      assert batch[last] in batch;
    }
  }

  /** What a delivery does to the master's table: nothing stored changes, and what is new is, whole, an
      assigned, not future, possible measurement of this request, under its agent's id. */
  ghost predicate DeliveredRows(t: Tables, req: Request, env: Env, t': Tables) {
    && Preserves(t, t')
    && forall k :: k in t'.rows && k !in t.rows ==>
         && k.agent == req.agent && k.target in env.mayWrite && k.ts <= env.horizon
         && OfferedAs(req, EntryOf(t', k))
  }

  ghost predicate OfferedAs(req: Request, entry: Measurement) {
    exists m :: m in req.batch && Received(req.agent, m) == entry
  }

  lemma HandleStores(c: Codec, t: Tables, req: Request, env: Env)
    ensures DeliveredRows(t, req, env, Handle(c, t, req, env).0)
  {
    hide Preserves, Undecodable, WriteAll, SeriesFor, From;
    if !env.refused && !Undecodable(env, req.batch) && WriteAll(c, t, Kept(env, req.agent, req.batch), false).Some? {
      FirstWriteWins(c, t, Kept(env, req.agent, req.batch));
      EntriesFrom(c, t, Kept(env, req.agent, req.batch), false);
      KeptIs(env, req.agent, req.batch);
      var t' := Handle(c, t, req, env).0;
      forall k | k in t'.rows && k !in t.rows
        ensures k.agent == req.agent && k.target in env.mayWrite && k.ts <= env.horizon
        ensures OfferedAs(req, EntryOf(t', k))
      {
        assert EntryOf(t', k) in Kept(env, req.agent, req.batch);
        var m :| m in req.batch && Excluded(env, m).None? && EntryOf(t', k) == Received(req.agent, m);
      }
    } else {
      PreservesSelf(t);
    }
  }

  lemma PreservesSelf(t: Tables)
    ensures Preserves(t, t)
  {
  }

  lemma PreservedEntry(t: Tables, t': Tables, k: Key)
    requires Preserves(t, t') && k in t.rows
    ensures k in t'.rows && EntryOf(t', k) == EntryOf(t, k)
  {
    SameSeriesFor(t', t, k);
  }

  /** After a 200 or a 400 nothing of the batch is unaccounted for. */
  lemma HandleAccounts(c: Codec, t: Tables, req: Request, env: Env, m: Measurement)
    requires m in req.batch && Forgets(Handle(c, t, req, env).1)
    ensures Stamped(req.agent, m.key) in Handle(c, t, req, env).0.rows
            || exists r :: (m.key, r) in Refused(req, env, Handle(c, t, req, env).1)
  {
    hide Undecodable, WriteAll;
    var status := Handle(c, t, req, env).1;
    if status == Bad400 {
      assert (m.key, UndecodableBatch) in Refused(req, env, status);
    } else if Excluded(env, m).Some? {
      assert (m.key, Excluded(env, m).value) in Refused(req, env, status);
    } else {
      KeptIs(env, req.agent, req.batch);
      WriteKeys(c, t, Kept(env, req.agent, req.batch), false);
      assert Received(req.agent, m).key == Stamped(req.agent, m.key);
    }
  }

  lemma UndecodableMiscounts(env: Env, batch: seq<Measurement>)
    ensures Undecodable(env, batch) <==> env.garbled || exists m :: m in batch && Miscounts(m.row, m.series)
  {
  }

  /** A measurement is refused only for a reason that was true of it when the master answered. */
  lemma ReasonsAreTrue(req: Request, a: Answer, x: (Key, Reason))
    requires Honest(req, a) && x in Refused(req, a.env, a.status)
    ensures exists m :: m in req.batch && m.key == x.0 && ReasonHolds(a.env, req, m, x.1)
  {
    hide RowMalformed;
    if a.status == Bad400 {
      var m :| m in req.batch && x == (m.key, UndecodableBatch);
      UndecodableMiscounts(a.env, req.batch);
      assert ReasonHolds(a.env, req, m, x.1);
    } else {
      var m :| m in req.batch && Excluded(a.env, m).Some? && x == (m.key, Excluded(a.env, m).value);
      assert ReasonHolds(a.env, req, m, x.1);
    }
  }

  // ---------------------------------------------------------------- the invariant

  /** Nothing a later state adds to takes back what was promised. */
  ghost predicate Later(s: System, s': System) {
    && (forall k :: k in s.master.rows ==> k in s'.master.rows || k in s'.pruned)
    && s.pruned <= s'.pruned && s.letGo <= s'.letGo && s.answers <= s'.answers && s.requests <= s'.requests
  }

  lemma PromisesStay(s: System, s': System)
    requires Later(s, s') && AnswersHonest(s) && Sourced(s)
    ensures forall a :: a in s.answers ==>
      a.id < |s'.requests| && Honest(s'.requests[a.id], a) && (Forgets(a.status) ==>
        forall m :: m in s'.requests[a.id].batch ==>
          AtMaster(s', s'.requests[a.id].agent, m.key) || RefusedBy(s'.requests[a.id], a, m.key))
    ensures forall agent, key :: AtMaster(s, agent, key) ==> AtMaster(s', agent, key)
    ensures forall agent, key :: WasLetGo(s, agent, key) ==> WasLetGo(s', agent, key)
  {
    hide Honest, Refused;
    forall agent, key | AtMaster(s, agent, key) ensures AtMaster(s', agent, key) {
    }
    forall agent, key | WasLetGo(s, agent, key) ensures WasLetGo(s', agent, key) {
      var r :| (agent, key, r) in s.letGo;
      assert (agent, key, r) in s'.letGo;
    }
    hide AtMaster, WasLetGo;
    forall a | a in s.answers ensures a.id < |s.requests| && s'.requests[a.id] == s.requests[a.id] {
    }
  }

  lemma ReasonsStay(s: System, s': System)
    requires Later(s, s') && AllReasoned(s)
    ensures forall x :: x in s.letGo ==> Reasoned(s', x.0, x.1, x.2)
  {
    hide ReasonHolds;
    forall x | x in s.letGo ensures Reasoned(s', x.0, x.1, x.2) {
      assert Reasoned(s, x.0, x.1, x.2);
      var a, m :| a in s.answers && a.id < |s.requests| && s.requests[a.id].agent == x.0
        && m in s.requests[a.id].batch && m.key == x.1 && ReasonHolds(a.env, s.requests[a.id], m, x.2);
      assert a in s'.answers && s'.requests[a.id] == s.requests[a.id];
    }
  }

  /** Steps that touch neither outboxes nor what was recorded keep every account. */
  lemma AccountsStay(s: System, s': System)
    requires Later(s, s') && Inv(s) && s'.ever == s.ever && s'.outbox == s.outbox
    ensures Conserved(s')
  {
    hide AtMaster, WasLetGo, Later, Sourced, Drafted, AnswersHonest, Authentic, AllReasoned, Numbered;
    PromisesStay(s, s');
    forall x | x in s'.ever ensures Accounted(s', x.0, x.1.key) {
      assert Accounted(s, x.0, x.1.key);
    }
  }

  lemma DeliverKeeps(c: Codec, s: System, id: nat, env: Env)
    requires Inv(s) && id < |s.requests|
    ensures Inv(Next(c, s, Deliver(id, env)))
  {
    var req, s' := s.requests[id], Next(c, s, Deliver(id, env));
    var answer := Answer(id, env, Handle(c, s.master, req, env).1);
    HandleStores(c, s.master, req, env);
    assert Honest(req, answer);
    assert Later(s, s');
    assert Sourced(s') && Numbered(s') && Drafted(s') by {
      hide RowRecorded, SeriesRecorded, DraftSourced, Handle, SeriesFor;
      DraftsStay(s, s');
    }
    assert s'.answers == s.answers + {answer} && s'.letGo == s.letGo;
    AuthenticAfterDelivery(s, id, env, s');
    hide Handle, Sourced, Drafted, Numbered, Authentic, Honest, Later, Refused, DeliveredRows;
    PromisesStay(s, s');
    ReasonsStay(s, s');
    AccountsStay(s, s');
    forall m | Forgets(answer.status) && m in req.batch
      ensures AtMaster(s', req.agent, m.key) || RefusedBy(req, answer, m.key)
    {
      HandleAccounts(c, s.master, req, env, m);
    }
  }

  lemma AuthenticAfterDelivery(s: System, id: nat, env: Env, s': System)
    requires id < |s.requests| && Authentic(s) && s'.requests == s.requests
    requires DeliveredRows(s.master, s.requests[id], env, s'.master)
    ensures Authentic(s')
  {
    hide Received, Excluded, Preserves, SeriesFor;
    forall k | k in s'.master.rows && k.agent != LOCAL_AGENT ensures SentAs(s'.requests, EntryOf(s'.master, k)) {
      if k in s.master.rows {
        PreservedEntry(s.master, s'.master, k);
        assert SentAs(s.requests, EntryOf(s.master, k));
      } else {
        assert OfferedAs(s.requests[id], EntryOf(s'.master, k));
      }
    }
  }

  lemma RecordsStay(ever: set<(int, Measurement)>, more: set<(int, Measurement)>, a: int, m: Measurement)
    requires ever <= more
    ensures RowRecorded(ever, a, m) ==> RowRecorded(more, a, m)
    ensures SeriesRecorded(ever, a, m) ==> SeriesRecorded(more, a, m)
  {
    if RowRecorded(ever, a, m) {
      var m1 :| (a, m1) in ever && m1.key == m.key && m1.row == m.row;
      assert (a, m1) in more;
    }
    if SeriesRecorded(ever, a, m) {
      var m2 :| (a, m2) in ever && m2.key == m.key && m2.series == m.series;
      assert (a, m2) in more;
    }
  }

  /** A step that leaves an agent's draft alone, and takes nothing from its outbox, leaves it sourced. */
  lemma DraftStays(s: System, s': System, a: int)
    requires a in s.drafts && DraftSourced(s, a) && a in s'.drafts && s'.drafts[a] == s.drafts[a]
    requires s.ever <= s'.ever && BoxOf(s, a).rows.Keys <= BoxOf(s', a).rows.Keys
    ensures DraftSourced(s', a)
  {
    hide RowRecorded, SeriesRecorded;
    forall m | m in s'.drafts[a].batch
      ensures m.key in BoxOf(s', a).rows && RowRecorded(s'.ever, a, m)
      ensures m.key !in s'.drafts[a].todo ==> SeriesRecorded(s'.ever, a, m)
    {
      assert m.key in BoxOf(s, a).rows.Keys;
      RecordsStay(s.ever, s'.ever, a, m);
    }
  }

  lemma DraftsStay(s: System, s': System)
    requires Drafted(s) && s'.drafts.Keys <= s.drafts.Keys && s.ever <= s'.ever
    requires forall a :: a in s'.drafts ==>
      a !in s'.waiting && s'.drafts[a] == s.drafts[a] && BoxOf(s, a).rows.Keys <= BoxOf(s', a).rows.Keys
    ensures Drafted(s')
  {
    hide DraftSourced;
    forall a | a in s'.drafts ensures a != LOCAL_AGENT && DraftSourced(s', a) {
      assert a in s.drafts.Keys;
      DraftStays(s, s', a);
    }
  }

  lemma RecordKeepsSourced(c: Codec, s: System, a: int, ms: seq<Measurement>)
    requires Sourced(s) && Enabled(s, Record(a, ms)) && Numbered(s)
    ensures Sourced(Next(c, s, Record(a, ms)))
  {
    hide WriteAll, SeriesFor, RowRecorded, SeriesRecorded;
    var s' := Next(c, s, Record(a, ms));
    if WriteAll(c, BoxOf(s, a), ms, true).Some? {
      EntriesFrom(c, BoxOf(s, a), ms, true);
    }
    forall id, m | 0 <= id < |s'.requests| && m in s'.requests[id].batch
      ensures RowRecorded(s'.ever, s'.requests[id].agent, m) && SeriesRecorded(s'.ever, s'.requests[id].agent, m)
    {
      RecordsStay(s.ever, s'.ever, s'.requests[id].agent, m);
    }
  }

  lemma RecordKeepsDrafted(c: Codec, s: System, a: int, ms: seq<Measurement>)
    requires Drafted(s) && Enabled(s, Record(a, ms)) && Numbered(s)
    ensures Drafted(Next(c, s, Record(a, ms)))
  {
    hide WriteAll, DraftSourced;
    var s' := Next(c, s, Record(a, ms));
    if WriteAll(c, BoxOf(s, a), ms, true).Some? {
      WriteKeys(c, BoxOf(s, a), ms, true);
    }
    DraftsStay(s, s');
  }

  lemma RecordKeeps(c: Codec, s: System, a: int, ms: seq<Measurement>)
    requires Inv(s) && Enabled(s, Record(a, ms))
    ensures Inv(Next(c, s, Record(a, ms)))
  {
    var s' := Next(c, s, Record(a, ms));
    RecordKeepsSourced(c, s, a, ms);
    RecordKeepsDrafted(c, s, a, ms);
    hide AtMaster, WasLetGo, WriteAll, SentAs, Sourced, Drafted, Honest, SeriesFor, Refused, Reasoned;
    assert Numbered(s') && Later(s, s');
    PromisesStay(s, s');
    ReasonsStay(s, s');
    hide Later;
    assert AnswersHonest(s') && Authentic(s') && AllReasoned(s');
    hide AnswersHonest, Authentic, AllReasoned, Numbered;
    if WriteAll(c, BoxOf(s, a), ms, true).Some? {
      WriteKeys(c, BoxOf(s, a), ms, true);
      forall x | x in s'.ever ensures Accounted(s', x.0, x.1.key) {
        if x in s.ever { assert Accounted(s, x.0, x.1.key); }
      }
    }
  }

  lemma ReadRowsKeeps(c: Codec, s: System, a: int, keys: seq<Key>)
    requires Inv(s) && Enabled(s, ReadRows(a, keys))
    ensures Inv(Next(c, s, ReadRows(a, keys)))
  {
    var s', box := Next(c, s, ReadRows(a, keys)), BoxOf(s, a);
    forall m | m in s'.drafts[a].batch
      ensures m.key in box.rows && RowRecorded(s'.ever, a, m) && m.key in s'.drafts[a].todo
    {
      assert (a, EntryOf(box, m.key)) in s.ever;
    }
    OneDraftChanged(s, s', a);
  }

  lemma ReadSeriesKeeps(c: Codec, s: System, a: int, keys: set<Key>)
    requires Inv(s) && Enabled(s, ReadSeries(a, keys))
    ensures Inv(Next(c, s, ReadSeries(a, keys)))
  {
    var s', box := Next(c, s, ReadSeries(a, keys)), BoxOf(s, a);
    forall i | 0 <= i < |s.drafts[a].batch|
      ensures var m := s'.drafts[a].batch[i];
        && m.key in box.rows && RowRecorded(s'.ever, a, m)
        && (m.key !in s'.drafts[a].todo ==> SeriesRecorded(s'.ever, a, m))
    {
      var was := s.drafts[a].batch[i];
      assert was in s.drafts[a].batch && DraftSourced(s, a);
      assert (a, EntryOf(box, was.key)) in s.ever;
    }
    OneDraftChanged(s, s', a);
  }

  lemma OneDraftChanged(s: System, s': System, a: int)
    requires Inv(s) && a in s'.drafts && s' == s.(drafts := s.drafts[a := s'.drafts[a]])
    requires a != LOCAL_AGENT && a !in s.waiting && DraftSourced(s', a)
    ensures Inv(s')
  {
    assert Numbered(s') && Sourced(s');
    hide DraftSourced, Sourced, Numbered;
    assert Drafted(s') by {
      forall b | b in s'.drafts ensures b != LOCAL_AGENT && b !in s'.waiting && DraftSourced(s', b) {
        if b != a {
          DraftStays(s, s', b);
        }
      }
    }
    StaysAsItWas(s, s');
  }

  lemma SendKeepsSourced(c: Codec, s: System, a: int)
    requires Sourced(s) && Drafted(s) && Numbered(s) && Enabled(s, Send(a))
    ensures Sourced(Next(c, s, Send(a))) && Drafted(Next(c, s, Send(a)))
  {
    var s' := Next(c, s, Send(a));
    assert DraftSourced(s, a);
    hide SeriesFor, RowRecorded, SeriesRecorded;
    forall m | m in s.drafts[a].batch ensures RowRecorded(s.ever, a, m) && SeriesRecorded(s.ever, a, m) {
      assert m.key !in s.drafts[a].todo;
    }
    hide DraftSourced;
    DraftsStay(s, s');
  }

  lemma SendKeeps(c: Codec, s: System, a: int)
    requires Inv(s) && Enabled(s, Send(a))
    ensures Inv(Next(c, s, Send(a)))
  {
    SendKeepsSourced(c, s, a);
    hide AtMaster, WasLetGo, Received, Honest, SeriesFor, Refused, Sourced, Drafted;
    var s' := Next(c, s, Send(a));
    assert Later(s, s') && Numbered(s');
    PromisesStay(s, s');
    ReasonsStay(s, s');
    AccountsStay(s, s');
    forall k | k in s'.master.rows && k.agent != LOCAL_AGENT ensures SentAs(s'.requests, EntryOf(s'.master, k)) {
      assert SentAs(s.requests, EntryOf(s.master, k));
      var id, m :| 0 <= id < |s.requests| && m in s.requests[id].batch
        && Received(s.requests[id].agent, m) == EntryOf(s.master, k);
      assert s'.requests[id] == s.requests[id];
    }
  }

  /** The agent forgets a batch only on an answer that accounts for every row of it.. */
  lemma CollectAccounts(c: Codec, s: System, a: int, answer: Answer)
    requires Inv(s) && Enabled(s, Collect(a, answer, true)) && Forgets(answer.status)
    ensures var s' := Next(c, s, Collect(a, answer, true)); Later(s, s') && Conserved(s')
  {
    var s' := Next(c, s, Collect(a, answer, true));
    var req := s.requests[answer.id];
    assert Later(s, s');
    PromisesStay(s, s');
    DropKeys(BoxOf(s, a), req.batch);
    hide AtMaster, Sourced, Drafted, Authentic, AllReasoned, Later, Honest, ReasonHolds, DropAll, Numbered;
    forall x | x in s'.ever ensures Accounted(s', x.0, x.1.key) {
      assert Accounted(s, x.0, x.1.key);
      if x.0 == a && exists m :: m in req.batch && m.key == x.1.key {
        var m :| m in req.batch && m.key == x.1.key;
        if RefusedBy(req, answer, m.key) {
          var r :| (m.key, r) in Refused(req, answer.env, answer.status);
          assert (a, m.key, r) in s'.letGo;
        }
      }
    }
  }

  /** .. and what that answer refused is let go for its reason. */
  lemma CollectReasons(c: Codec, s: System, a: int, answer: Answer)
    requires Inv(s) && Enabled(s, Collect(a, answer, true)) && Forgets(answer.status)
    ensures AllReasoned(Next(c, s, Collect(a, answer, true)))
  {
    var s' := Next(c, s, Collect(a, answer, true));
    var req := s.requests[answer.id];
    ReasonsStay(s, s');
    hide Sourced, Drafted, Authentic, Conserved, Honest, ReasonHolds, DropAll;
    forall x | x in s'.letGo && x !in s.letGo ensures Reasoned(s', x.0, x.1, x.2) {
      assert x.0 == a && (x.1, x.2) in Refused(req, answer.env, answer.status);
      ReasonsAreTrue(req, answer, (x.1, x.2));
      var m :| m in req.batch && m.key == x.1 && ReasonHolds(answer.env, req, m, x.2);
    }
  }

  lemma CollectKeeps(c: Codec, s: System, a: int, answer: Answer, cleared: bool)
    requires Inv(s) && Enabled(s, Collect(a, answer, cleared))
    ensures Inv(Next(c, s, Collect(a, answer, cleared)))
  {
    var s' := Next(c, s, Collect(a, answer, cleared));
    assert Numbered(s');
    if Forgets(answer.status) && cleared {
      CollectKeepsSourced(c, s, a, answer);
      assert Authentic(s');
      CollectAccounts(c, s, a, answer);
      CollectReasons(c, s, a, answer);
      hide Sourced, Drafted, Authentic, Conserved, AllReasoned, Later;
      PromisesStay(s, s');
      assert AnswersHonest(s');
    } else {
      StillDrafted(s, s');
      StaysAsItWas(s, s');
    }
  }

  lemma CollectKeepsSourced(c: Codec, s: System, a: int, answer: Answer)
    requires Numbered(s) && Sourced(s) && Drafted(s) && Enabled(s, Collect(a, answer, true)) && Forgets(answer.status)
    ensures Sourced(Next(c, s, Collect(a, answer, true))) && Drafted(Next(c, s, Collect(a, answer, true)))
  {
    var s' := Next(c, s, Collect(a, answer, true));
    DropEntries(BoxOf(s, a), s.requests[answer.id].batch);
    hide RowRecorded, SeriesRecorded, DropAll, SeriesFor, DraftSourced;
    DraftsStay(s, s');
  }

  lemma StillDrafted(s: System, s': System)
    requires Drafted(s) && s' == s.(waiting := s'.waiting, drafts := s'.drafts)
    requires s'.waiting.Keys <= s.waiting.Keys && s'.drafts.Keys <= s.drafts.Keys
    requires forall a :: a in s'.drafts ==> s'.drafts[a] == s.drafts[a]
    ensures Drafted(s')
  {
    hide DraftSourced;
    DraftsStay(s, s');
  }

  lemma StaysAsItWas(s: System, s': System)
    requires Inv(s) && Numbered(s') && Drafted(s') && s' == s.(waiting := s'.waiting, drafts := s'.drafts)
    ensures Inv(s')
  {
    assert Sourced(s');
    hide Refused, Honest, SentAs, SeriesFor, Numbered, Sourced, Drafted;
    assert Later(s, s');
    PromisesStay(s, s');
    ReasonsStay(s, s');
    AccountsStay(s, s');
  }

  lemma MasterStepsKeep(s: System, s': System)
    requires Inv(s) && s' == s.(master := s'.master, pruned := s'.pruned) && Later(s, s')
    requires forall k :: k in s'.master.rows && k.agent != LOCAL_AGENT ==>
      k in s.master.rows && EntryOf(s'.master, k) == EntryOf(s.master, k)
    ensures Inv(s')
  {
    assert Numbered(s') && Sourced(s') && Drafted(s') by {
      hide RowRecorded, SeriesRecorded, DraftSourced;
      DraftsStay(s, s');
    }
    hide Refused, Honest, SentAs, SeriesFor, Numbered, Sourced, Drafted, Later;
    assert Authentic(s');
    PromisesStay(s, s');
    ReasonsStay(s, s');
    AccountsStay(s, s');
  }

  lemma LocalWriteStays(c: Codec, s: System, ms: seq<Measurement>)
    requires Enabled(s, LocalWrite(ms)) && Numbered(s)
    ensures var s' := Next(c, s, LocalWrite(ms));
      && Later(s, s')
      && forall k :: k in s'.master.rows && k.agent != LOCAL_AGENT ==>
           k in s.master.rows && EntryOf(s'.master, k) == EntryOf(s.master, k)
  {
    hide WriteAll, SeriesFor;
    if WriteAll(c, s.master, ms, true).Some? {
      WriteKeys(c, s.master, ms, true);
      EntriesFrom(c, s.master, ms, true);
    }
  }

  lemma PruneStays(c: Codec, s: System, target: int, cutoff: int)
    requires Numbered(s)
    ensures var s' := Next(c, s, Prune(target, cutoff));
      && Later(s, s')
      && forall k :: k in s'.master.rows ==> k in s.master.rows && EntryOf(s'.master, k) == EntryOf(s.master, k)
  {
    PrunedEntries(s.master, target, cutoff);
    hide SeriesFor;
  }

  lemma NextKeepsInv(c: Codec, s: System, e: Event)
    requires Inv(s) && Enabled(s, e)
    ensures Inv(Next(c, s, e))
  {
    hide Sourced, DraftSourced, AnswersHonest, Conserved, Authentic, AllReasoned, WriteAll, SeriesFor, Later;
    match e
    case Record(a, ms) => RecordKeeps(c, s, a, ms);
    case ReadRows(a, keys) => ReadRowsKeeps(c, s, a, keys);
    case ReadSeries(a, keys) => ReadSeriesKeeps(c, s, a, keys);
    case Send(a) => SendKeeps(c, s, a);
    case Deliver(id, env) => DeliverKeeps(c, s, id, env);
    case Collect(a, answer, cleared) => CollectKeeps(c, s, a, answer, cleared);
    case GiveUp(a) =>
      StillDrafted(s, Next(c, s, e));
      StaysAsItWas(s, Next(c, s, e));
    case LocalWrite(ms) =>
      LocalWriteStays(c, s, ms);
      MasterStepsKeep(s, Next(c, s, e));
    case Prune(target, cutoff) =>
      PruneStays(c, s, target, cutoff);
      MasterStepsKeep(s, Next(c, s, e));
  }

  lemma {:induction false} InvHolds(c: Codec, states: seq<System>, events: seq<Event>, i: nat)
    requires IsRun(c, states, events) && i < |states|
    ensures Inv(states[i])
  {
    hide Inv, Next, Enabled;
    if i > 0 {
      InvHolds(c, states, events, i - 1);
      NextKeepsInv(c, states[i - 1], events[i - 1]);
    } else {
      StartIsFine();
    }
  }

  lemma StartIsFine()
    ensures Inv(START)
  {
  }

  /** Conservation, in every reachable state: each measurement an agent ever recorded is, under its key,
      still in its outbox, or at the master (or was, until retention pruned it), or the agent forgot it
      on an answer that refused it for a reason that was true. */
  lemma NothingIsLost(c: Codec, states: seq<System>, events: seq<Event>, i: nat, agent: int, m: Measurement)
    requires IsRun(c, states, events) && i < |states| && (agent, m) in states[i].ever
    ensures (agent in states[i].outbox && m.key in states[i].outbox[agent].rows)
            || Stamped(agent, m.key) in states[i].master.rows
            || Stamped(agent, m.key) in states[i].pruned
            || exists r :: (agent, m.key, r) in states[i].letGo && Reasoned(states[i], agent, m.key, r)
  {
    hide IsRun, Reasoned;
    InvHolds(c, states, events, i);
    assert Accounted(states[i], agent, m.key);
    if WasLetGo(states[i], agent, m.key) {
      var r :| (agent, m.key, r) in states[i].letGo;
      assert Reasoned(states[i], agent, m.key, r);
    }
  }

  /** What the master holds under a remote agent's id is a row this agent recorded, with the series it recorded
      under the same key, the lists in order. */
  lemma NothingIsInvented(c: Codec, states: seq<System>, events: seq<Event>, i: nat, k: Key)
    requires IsRun(c, states, events) && i < |states| && k in states[i].master.rows && k.agent != LOCAL_AGENT
    ensures SentAs(states[i].requests, EntryOf(states[i].master, k))
    ensures exists m1, m2 ::
      && RecordedAs(states[i], k, m1) && RecordedAs(states[i], k, m2) && m1.key == m2.key
      && EntryOf(states[i].master, k) == Received(k.agent, Measurement(m1.key, m1.row, m2.series))
  {
    hide Received, IsRun;
    InvHolds(c, states, events, i);
    var s := states[i];
    assert SentAs(s.requests, EntryOf(s.master, k));
    var id, m :| 0 <= id < |s.requests| && m in s.requests[id].batch
      && Received(s.requests[id].agent, m) == EntryOf(s.master, k);
    ReceivedKey(s.requests[id].agent, m);
    assert RowRecorded(s.ever, k.agent, m) && SeriesRecorded(s.ever, k.agent, m);
    var m1 :| (k.agent, m1) in s.ever && m1.key == m.key && m1.row == m.row;
    var m2 :| (k.agent, m2) in s.ever && m2.key == m.key && m2.series == m.series;
    assert RecordedAs(s, k, m1) && RecordedAs(s, k, m2) && m == Measurement(m1.key, m1.row, m2.series);
  }

  /** A measurement that an agent recorded, and that the master would store under k. */
  ghost predicate RecordedAs(s: System, k: Key, m: Measurement) {
    (k.agent, m) in s.ever && Stamped(k.agent, m.key) == k
  }

  /** So what an agent recorded once, or never otherwise, the master holds whole: its values and every series. */
  lemma RecordedOnceIsStoredWhole(c: Codec, states: seq<System>, events: seq<Event>, i: nat, k: Key)
    requires IsRun(c, states, events) && i < |states| && k in states[i].master.rows && k.agent != LOCAL_AGENT
    requires forall m, n :: RecordedAs(states[i], k, m) && RecordedAs(states[i], k, n) ==> m == n
    ensures exists m :: RecordedAs(states[i], k, m) && EntryOf(states[i].master, k) == Received(k.agent, m)
  {
    hide IsRun, RecordedAs, Received, SeriesFor;
    NothingIsInvented(c, states, events, i, k);
    var m1, m2 :| RecordedAs(states[i], k, m1) && RecordedAs(states[i], k, m2) && m1.key == m2.key
      && EntryOf(states[i].master, k) == Received(k.agent, Measurement(m1.key, m1.row, m2.series));
    assert m1 == m2 == Measurement(m1.key, m1.row, m2.series);
  }

  lemma ReceivedKey(agent: int, m: Measurement)
    ensures Received(agent, m).key == Stamped(agent, m.key)
  {
  }

  // ---------------------------------------------------------------- stored rows never change

  lemma StoredStaysPut(c: Codec, s: System, e: Event, k: Key)
    requires Inv(s) && Enabled(s, e) && k.agent != LOCAL_AGENT && k in s.master.rows
    ensures var s' := Next(c, s, e);
      && s.pruned <= s'.pruned
      && (k in s'.pruned || (k in s'.master.rows && EntryOf(s'.master, k) == EntryOf(s.master, k)))
  {
    hide WriteAll, Sourced, AnswersHonest, Conserved, Authentic, SeriesFor, Preserves;
    match e
    case Deliver(id, env) =>
      HandleStores(c, s.master, s.requests[id], env);
      PreservedEntry(s.master, Next(c, s, e).master, k);
    case LocalWrite(ms) => LocalWriteStays(c, s, ms);
    case Record(_, _) =>
    case ReadRows(_, _) =>
    case ReadSeries(_, _) =>
    case Send(_) =>
    case Collect(_, _, _) =>
    case GiveUp(_) =>
    case Prune(target, cutoff) => PruneStays(c, s, target, cutoff);
  }

  /** A measurement stored for a remote agent keeps its values and its series for as long as it is
      stored, through every retry, late or repeated delivery and restart. */
  lemma {:induction false} StoredNeverChanges(c: Codec, states: seq<System>, events: seq<Event>, i: nat, j: nat, k: Key)
    requires IsRun(c, states, events) && i <= j < |states|
    requires k.agent != LOCAL_AGENT && k in states[i].master.rows && k !in states[j].pruned
    ensures k in states[j].master.rows && EntryOf(states[j].master, k) == EntryOf(states[i].master, k)
    decreases j
  {
    hide Inv, Next, Enabled, Numbered, SeriesFor;
    if i < j {
      InvHolds(c, states, events, j - 1);
      PrunedGrows(c, states[j - 1], events[j - 1]);
      StoredNeverChanges(c, states, events, i, j - 1, k);
      StoredStaysPut(c, states[j - 1], events[j - 1], k);
    }
  }

  lemma PrunedGrows(c: Codec, s: System, e: Event)
    requires Inv(s) && Enabled(s, e)
    ensures s.pruned <= Next(c, s, e).pruned
  {
  }

  // ---------------------------------------------------------------- one agent's side

  /** What an agent does, and learns. */
  datatype Act =
    | Recorded(ms: seq<Measurement>)
    | RowsRead(keys: seq<Key>)
    | SeriesRead(part: set<Key>)
    | Sent
    | Answered(status: Status, cleared: bool)
    | GaveUp

  /** An agent's outbox, the page it is reading, and the batch whose answer it waits for. */
  datatype Side = Side(box: Tables, draft: Option<Draft>, inFlight: Option<seq<Measurement>>)

  ghost predicate CanAct(side: Side, act: Act) {
    match act
    case Recorded(ms) => forall m :: m in ms ==> m.key.agent == LOCAL_AGENT
    case RowsRead(keys) => side.inFlight.None? && side.draft.None? && forall k :: k in keys ==> k in side.box.rows
    case SeriesRead(keys) => side.draft.Some? && keys <= side.draft.value.todo
    case Sent => side.inFlight.None? && side.draft.Some? && side.draft.value.todo == {}
    case Answered(_, _) => side.inFlight.Some?
    case GaveUp => side.inFlight.Some? || side.draft.Some?
  }

  function Acted(c: Codec, side: Side, act: Act): Side {
    match act
    case Recorded(ms) =>
      (match WriteAll(c, side.box, ms, true) case None => side case Some(done) => side.(box := done.0))
    case RowsRead(keys) =>
      if exists k :: k in keys && k !in side.box.rows then side else side.(draft := Some(RowsOf(side.box, keys)))
    case SeriesRead(keys) =>
      if side.draft.None? then side else side.(draft := Some(WithSeries(side.draft.value, side.box, keys)))
    case Sent => if side.draft.None? then side else Side(side.box, None, Some(side.draft.value.batch))
    case Answered(status, cleared) =>
      if side.inFlight.None? then side
      else side.(box := if Forgets(status) && cleared then DropAll(side.box, side.inFlight.value) else side.box,
                 inFlight := None)
    case GaveUp => Side(side.box, None, None)
  }

  function ActedAll(c: Codec, side: Side, acts: seq<Act>): Side {
    if acts == [] then side else Acted(c, ActedAll(c, side, acts[..|acts| - 1]), acts[|acts| - 1])
  }

  ghost predicate CanActAll(c: Codec, side: Side, acts: seq<Act>) {
    forall i :: 0 <= i < |acts| ==> CanAct(ActedAll(c, side, acts[..i]), acts[i])
  }

  lemma ActOnceMore(c: Codec, side: Side, acts: seq<Act>, act: Act)
    requires CanActAll(c, side, acts) && CanAct(ActedAll(c, side, acts), act)
    ensures CanActAll(c, side, acts + [act])
    ensures ActedAll(c, side, acts + [act]) == Acted(c, ActedAll(c, side, acts), act)
  {
    hide Acted, CanAct;
    var more := acts + [act];
    assert more[..|acts|] == acts;
    forall i | 0 <= i < |more| ensures CanAct(ActedAll(c, side, more[..i]), more[i]) {
      if i < |acts| { assert more[..i] == acts[..i]; }
    }
  }

  function SideOf(s: System, agent: int): Side
    requires Numbered(s)
  {
    Side(BoxOf(s, agent), if agent in s.drafts then Some(s.drafts[agent]) else None,
         if agent in s.waiting then Some(s.requests[s.waiting[agent]].batch) else None)
  }

  function ActOf(e: Event, agent: int): Option<Act> {
    match e
    case Record(a, ms) => if a == agent then Some(Recorded(ms)) else None
    case ReadRows(a, keys) => if a == agent then Some(RowsRead(keys)) else None
    case ReadSeries(a, keys) => if a == agent then Some(SeriesRead(keys)) else None
    case Send(a) => if a == agent then Some(Sent) else None
    case Collect(a, answer, cleared) => if a == agent then Some(Answered(answer.status, cleared)) else None
    case GiveUp(a) => if a == agent then Some(GaveUp) else None
    case _ => None
  }

  /** An agent's side of the protocol moves by its own acts, and by nothing else that happens. */
  lemma SideFollowsItsActs(c: Codec, s: System, e: Event, agent: int)
    requires Numbered(s) && Enabled(s, e)
    ensures var s' := Next(c, s, e);
      && Numbered(s')
      && match ActOf(e, agent)
         case None => SideOf(s', agent) == SideOf(s, agent)
         case Some(act) => CanAct(SideOf(s, agent), act) && SideOf(s', agent) == Acted(c, SideOf(s, agent), act)
  {
    hide *;
    StaysNumbered(c, s, e);
    if ActOf(e, agent).None? {
      OthersLeaveASide(c, s, e, agent);
    } else {
      OwnActMovesASide(c, s, e, agent);
    }
  }

  lemma StaysNumbered(c: Codec, s: System, e: Event)
    requires Numbered(s) && Enabled(s, e)
    ensures Numbered(Next(c, s, e))
  {
    hide WriteAll, DropAll, Handle, WithSeries, RowsOf, Refused, Pruned, BoxOf;
  }

  lemma OthersLeaveASide(c: Codec, s: System, e: Event, agent: int)
    requires Numbered(s) && Enabled(s, e) && Numbered(Next(c, s, e)) && ActOf(e, agent).None?
    ensures SideOf(Next(c, s, e), agent) == SideOf(s, agent)
  {
    hide WriteAll, DropAll, Handle, WithSeries, RowsOf, Refused, Pruned;
  }

  lemma OwnActMovesASide(c: Codec, s: System, e: Event, agent: int)
    requires Numbered(s) && Enabled(s, e) && Numbered(Next(c, s, e)) && ActOf(e, agent).Some?
    ensures CanAct(SideOf(s, agent), ActOf(e, agent).value)
    ensures SideOf(Next(c, s, e), agent) == Acted(c, SideOf(s, agent), ActOf(e, agent).value)
  {
    hide WriteAll, DropAll, Handle, WithSeries, RowsOf, Refused, Pruned;
  }

  /** .. and whatever an agent can do on its side is a step of the protocol: an answer is, once the master
      has given it. */
  lemma ActsAreSteps(s: System, agent: int, act: Act)
    requires Numbered(s) && agent != LOCAL_AGENT && CanAct(SideOf(s, agent), act)
    ensures match act
      case Answered(status, cleared) => forall a :: a in s.answers && a.id == s.waiting[agent] && a.status == status ==>
        Enabled(s, Collect(agent, a, cleared)) && ActOf(Collect(agent, a, cleared), agent) == Some(act)
      case _ => exists e :: Enabled(s, e) && ActOf(e, agent) == Some(act)
  {
    match act
    case Recorded(ms) => assert Enabled(s, Record(agent, ms)) && ActOf(Record(agent, ms), agent) == Some(act);
    case RowsRead(keys) => assert Enabled(s, ReadRows(agent, keys)) && ActOf(ReadRows(agent, keys), agent) == Some(act);
    case SeriesRead(keys) =>
      assert Enabled(s, ReadSeries(agent, keys)) && ActOf(ReadSeries(agent, keys), agent) == Some(act);
    case Sent => assert Enabled(s, Send(agent)) && ActOf(Send(agent), agent) == Some(act);
    case GaveUp => assert Enabled(s, GiveUp(agent)) && ActOf(GiveUp(agent), agent) == Some(act);
    case Answered(_, _) =>
  }
}
