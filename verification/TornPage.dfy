/** A page is read in several statements (internal/store/agents.go `PendingMeasurements`): an interval that the
    prober records again between them goes out with the row of its first recording and the series of its second. */
module TornPage {
  import opened Options
  import opened Store
  import opened Outbox
  import opened Sorting

  const AT: Key := Key(1, LOCAL_AGENT, 60)

  const FIRST: Measurement := Measurement(AT, Row(1, 1, 0, [5], None, None), map["ipdv_send" := [1]])

  const SECOND: Measurement := Measurement(AT, Row(1, 1, 0, [7], None, None), map["ipdv_send" := [2]])

  const TORN: Measurement := Measurement(AT, FIRST.row, SECOND.series)

  const ENV: Env := Env(false, false, {1}, 60)

  lemma OneIsWritten(c: Codec, t: Tables, m: Measurement, replace: bool)
    requires RowAccepted(c, m) && SeriesAccepted(c, m) && (m.key !in t.rows || replace)
    ensures WriteAll(c, t, [m], replace) == Some((Put(t, m), 1))
  {
    hide RowAccepted, SeriesAccepted, Put;
    assert [m][..0] == [];
    assert WriteAll(c, t, [], replace) == Some((t, 0));
  }

  ghost predicate Encodes(c: Codec) {
    c.known("ipdv_send") && c.encodes([1]) && c.encodes([2]) && c.encodes([5]) && c.encodes([7])
  }

  lemma OneIsSorted(v: int)
    ensures Sorted([v]) == [v]
  {
    assert [v][..0] == [] && Sorted([]) == [];
  }

  lemma TornIsReceived()
    ensures Received(1, TORN) == Measurement(Key(1, 1, 60), FIRST.row, SECOND.series)
    ensures Received(1, FIRST) == Measurement(Key(1, 1, 60), FIRST.row, FIRST.series)
    ensures Received(1, SECOND) == Measurement(Key(1, 1, 60), SECOND.row, SECOND.series)
  {
    OneIsSorted(1);
    OneIsSorted(2);
    OneIsSorted(5);
    OneIsSorted(7);
    hide Sorted;
  }

  lemma RecordIs(c: Codec, s: System, m: Measurement)
    requires RowAccepted(c, m) && SeriesAccepted(c, m) && m.key.agent == LOCAL_AGENT && Numbered(s)
    ensures Enabled(s, Record(1, [m]))
    ensures Next(c, s, Record(1, [m])) ==
      s.(outbox := s.outbox[1 := Put(BoxOf(s, 1), m)], ever := s.ever + {(1, m)})
  {
    OneIsWritten(c, BoxOf(s, 1), m, true);
    hide WriteAll, Put, RowAccepted, SeriesAccepted;
    assert (set x | x in [m] :: (1, x)) == {(1, m)};
  }

  lemma ReadRowsIs(c: Codec, s: System, k: Key)
    requires Numbered(s) && 1 !in s.drafts && 1 !in s.waiting && k in BoxOf(s, 1).rows
    ensures Enabled(s, ReadRows(1, [k]))
    ensures Next(c, s, ReadRows(1, [k])) ==
      s.(drafts := s.drafts[1 := Draft([Measurement(k, BoxOf(s, 1).rows[k], map[])], {k})])
  {
    assert (set x | x in [k]) == {k};
    assert RowsOf(BoxOf(s, 1), [k]).batch == [Measurement(k, BoxOf(s, 1).rows[k], map[])];
  }

  lemma ReadSeriesIs(c: Codec, s: System, m: Measurement)
    requires Numbered(s) && 1 in s.drafts && s.drafts[1] == Draft([m], {m.key})
    ensures Enabled(s, ReadSeries(1, {m.key}))
    ensures Next(c, s, ReadSeries(1, {m.key})) ==
      s.(drafts := s.drafts[1 := Draft([m.(series := SeriesFor(BoxOf(s, 1), m.key))], {})])
  {
    hide SeriesFor;
    var d := WithSeries(s.drafts[1], BoxOf(s, 1), {m.key});
    assert d.batch == [Attached(m, BoxOf(s, 1), {m.key})] && d.todo == {};
  }

  lemma SendIs(c: Codec, s: System, m: Measurement)
    requires Numbered(s) && 1 in s.drafts && 1 !in s.waiting && s.drafts[1] == Draft([m], {})
    ensures Enabled(s, Send(1))
    ensures Next(c, s, Send(1)) ==
      s.(requests := s.requests + [Request(1, [m])], waiting := s.waiting[1 := |s.requests|], drafts := s.drafts - {1})
  {
  }

  lemma DeliverIs(c: Codec, s: System, m: Measurement)
    requires Numbered(s) && s.requests == [Request(1, [m])] && s.master == EMPTY
    requires !RowMalformed(m) && Excluded(ENV, m).None?
    requires RowAccepted(c, Received(1, m)) && SeriesAccepted(c, Received(1, m))
    ensures Enabled(s, Deliver(0, ENV)) && Next(c, s, Deliver(0, ENV)).master == Put(EMPTY, Received(1, m))
    ensures Next(c, s, Deliver(0, ENV)).ever == s.ever
  {
    OneIsWritten(c, EMPTY, Received(1, m), false);
    assert [m][..0] == [] && Kept(ENV, 1, []) == [];
    assert Kept(ENV, 1, [m]) == [Received(1, m)];
    hide WriteAll, Put, Received, RowMalformed, Excluded, RowAccepted, SeriesAccepted, Kept;
    assert !Undecodable(ENV, [m]);
  }

  lemma OneMoreEvent(c: Codec, states: seq<System>, events: seq<Event>, e: Event)
    requires IsRun(c, states, events) && Numbered(states[|events|]) && Enabled(states[|events|], e)
    ensures IsRun(c, states + [Next(c, states[|events|], e)], events + [e])
  {
    hide Numbered, Enabled, Next;
  }

  lemma TornValues(c: Codec)
    requires Encodes(c)
    ensures forall m :: m in [FIRST, SECOND] ==>
      RowAccepted(c, m) && SeriesAccepted(c, m) && m.key == AT && m != TORN
    ensures RowAccepted(c, Received(1, TORN)) && SeriesAccepted(c, Received(1, TORN))
    ensures !RowMalformed(TORN) && Excluded(ENV, TORN).None? && AT.agent == LOCAL_AGENT
    ensures TORN == FIRST.(series := SECOND.series) && FIRST == Measurement(AT, FIRST.row, FIRST.series)
    ensures Received(1, FIRST) != Received(1, TORN) && Received(1, SECOND) != Received(1, TORN)
    ensures Received(1, TORN).key == Stamped(1, AT)
  {
    TornIsReceived();
    assert [5] != [7] && [1] != [2] by { assert [5][0] == 5 && [7][0] == 7 && [1][0] == 1 && [2][0] == 2; }
    assert FIRST.series["ipdv_send"] == [1] && SECOND.series["ipdv_send"] == [2];
    hide Received;
  }

  lemma Start(c: Codec)
    ensures IsRun(c, [START], []) && Numbered(START) && BoxOf(START, 1) == EMPTY && START.ever == {}
    ensures START.drafts == map[] && START.waiting == map[] && START.requests == [] && START.master == EMPTY
  {
  }

  lemma PutIs(t: Tables, m: Measurement)
    ensures m.key in Put(t, m).rows && Put(t, m).rows[m.key] == m.row && SeriesFor(Put(t, m), m.key) == m.series
  {
    PutSeriesFor(t, m);
    hide SeriesFor;
  }

  /** What is known of a state once the page's rows have been read, and the interval was recorded again. */
  ghost predicate Replaced(s: System) {
    && Numbered(s) && s.requests == [] && s.master == EMPTY && s.waiting == map[]
    && s.drafts == map[1 := Draft([Measurement(AT, FIRST.row, map[])], {AT})]
    && BoxOf(s, 1) == Put(Put(EMPTY, FIRST), SECOND) && s.ever == {(1, FIRST), (1, SECOND)}
  }

  lemma RecordTwice(c: Codec) returns (states: seq<System>, events: seq<Event>)
    requires Encodes(c)
    ensures IsRun(c, states, events) && |states| == |events| + 1 && Replaced(states[|events|])
  {
    hide *;
    TornValues(c);
    Start(c);
    RecordIs(c, START, FIRST);
    OneMoreEvent(c, [START], [], Record(1, [FIRST]));
    var s1 := Next(c, START, Record(1, [FIRST]));
    BoxIs(s1);
    PutIs(EMPTY, FIRST);
    ReadRowsIs(c, s1, AT);
    OneMoreEvent(c, [START] + [s1], [] + [Record(1, [FIRST])], ReadRows(1, [AT]));
    var s2 := Next(c, s1, ReadRows(1, [AT]));
    BoxIs(s2);
    RecordIs(c, s2, SECOND);
    OneMoreEvent(c, [START] + [s1] + [s2], [] + [Record(1, [FIRST])] + [ReadRows(1, [AT])], Record(1, [SECOND]));
    var s3 := Next(c, s2, Record(1, [SECOND]));
    BoxIs(s3);
    states := [START] + [s1] + [s2] + [s3];
    events := [] + [Record(1, [FIRST])] + [ReadRows(1, [AT])] + [Record(1, [SECOND])];
    ReplacedIs(s3);
  }

  lemma BoxIs(s: System)
    ensures 1 in s.outbox ==> BoxOf(s, 1) == s.outbox[1]
    ensures s.waiting == map[] ==> Numbered(s)
  {
  }

  lemma ReplacedIs(s: System)
    requires Numbered(s) && s.requests == [] && s.master == EMPTY && s.waiting == map[]
    requires s.drafts == map[1 := Draft([Measurement(AT, FIRST.row, map[])], {AT})]
    requires BoxOf(s, 1) == Put(Put(EMPTY, FIRST), SECOND) && s.ever == {(1, FIRST), (1, SECOND)}
    ensures Replaced(s)
  {
    hide Put;
  }

  /** Such a run, at whose end the master holds what the agent never recorded as one measurement: recording a key
      once, which `RecordedOnceIsStoredWhole` asks for, is needed. */
  lemma RecordedTwiceMayBeTorn(c: Codec) returns (states: seq<System>, events: seq<Event>)
    requires Encodes(c)
    ensures IsRun(c, states, events) && states != []
    ensures var s, k := states[|states| - 1], Stamped(1, AT);
      && k in s.master.rows && k.agent == 1 && EntryOf(s.master, k) == Received(1, TORN)
      && forall m :: RecordedAs(s, k, m) ==> EntryOf(s.master, k) != Received(1, m)
  {
    hide *;
    TornValues(c);
    states, events := RecordTwice(c);
    var s3 := states[|events|];
    ReplacedGives(s3);
    var m := Measurement(AT, FIRST.row, map[]);
    ReadSeriesIs(c, s3, m);
    PutIs(Put(EMPTY, FIRST), SECOND);
    OneMoreEvent(c, states, events, ReadSeries(1, {AT}));
    var s4 := Next(c, s3, ReadSeries(1, {AT}));
    BoxIs(s4);
    SendIs(c, s4, TORN);
    OneMoreEvent(c, states + [s4], events + [ReadSeries(1, {AT})], Send(1));
    var s5 := Next(c, s4, Send(1));
    SentIsNumbered(s5);
    DeliverIs(c, s5, TORN);
    OneMoreEvent(c, states + [s4] + [s5], events + [ReadSeries(1, {AT})] + [Send(1)], Deliver(0, ENV));
    var s6 := Next(c, s5, Deliver(0, ENV));
    states := states + [s4] + [s5] + [s6];
    events := events + [ReadSeries(1, {AT})] + [Send(1)] + [Deliver(0, ENV)];
    StoredEntry(Received(1, TORN));
    RecordedAre(s6);
  }

  lemma ReplacedGives(s: System)
    requires Replaced(s)
    ensures Numbered(s) && s.requests == [] && s.master == EMPTY && s.waiting == map[]
    ensures s.drafts == map[1 := Draft([Measurement(AT, FIRST.row, map[])], {AT})]
    ensures BoxOf(s, 1) == Put(Put(EMPTY, FIRST), SECOND) && s.ever == {(1, FIRST), (1, SECOND)}
  {
    hide Put;
  }

  lemma SentIsNumbered(s: System)
    requires |s.requests| == 1 && s.requests[0].agent == 1 && s.waiting == map[1 := 0]
    ensures Numbered(s)
  {
  }

  lemma StoredEntry(m: Measurement)
    ensures m.key in Put(EMPTY, m).rows && EntryOf(Put(EMPTY, m), m.key) == m
  {
    PutIs(EMPTY, m);
    hide SeriesFor, Put;
  }

  lemma RecordedAre(s: System)
    requires s.ever == {(1, FIRST), (1, SECOND)}
    ensures Stamped(1, AT).agent == 1
    ensures forall m :: RecordedAs(s, Stamped(1, AT), m) ==> m == FIRST || m == SECOND
  {
  }
}
