/** Draining an outbox (internal/agent/agent.go `pushMeasurements`): pages go out oldest first, and a page is
    forgotten only when answered. */
module Drain {
  import opened Options
  import opened Sets
  import opened Store
  import opened Pages
  import opened PageRead
  import opened Draining
  import opened Outbox

  const PUSH_BATCH: nat := 2000

  // ---------------------------------------------------------------- the drain

  /** What happens to one page: rows the prober writes while it is being read, and while the request is out, what
      comes back (nothing, or a status), and whether the outbox can then be cleared of it. */
  datatype Turn = Turn(between: seq<seq<Measurement>>, recorded: seq<Measurement>, reply: Option<Status>,
                       cleared: bool)

  predicate IsForgotten(turn: Turn) { turn.reply.Some? && Forgets(turn.reply.value) && turn.cleared }

  /** The drain takes another page after this one. */
  predicate GoesOn(page: seq<Measurement>, turn: Turn) {
    turn.reply == Some(Ok200) && turn.cleared && |page| == PUSH_BATCH
  }

  function AfterTurn(c: Codec, t: Tables, page: seq<Measurement>, turn: Turn): Tables {
    var r := Written(c, Meanwhile(c, t, turn.between), turn.recorded);
    if IsForgotten(turn) then DropAll(r, page) else r
  }

  /** Pages sent one after the other, each the oldest rows there were when it was read. */
  ghost function Push(c: Codec): Loop<Tables, Measurement, Turn> {
    Loop((t, page, turn) => AfterTurn(c, t, page, turn),
         (t, page, turn: Turn) => page != [] && IsPage(c, t, turn.between, page, PUSH_BATCH),
         (page, turn) => GoesOn(page, turn), turn => IsForgotten(turn), PUSH_BATCH)
  }

  lemma PushIs(c: Codec, t: Tables, page: seq<Measurement>, turn: Turn)
    ensures Push(c).after(t, page, turn) == AfterTurn(c, t, page, turn)
    ensures Push(c).isPage(t, page, turn) <==> page != [] && IsPage(c, t, turn.between, page, PUSH_BATCH)
    ensures Push(c).goesOn(page, turn) <==> GoesOn(page, turn)
    ensures Push(c).taken(turn) <==> IsForgotten(turn)
    ensures Push(c).full == PUSH_BATCH
  {
    hide IsPage, AfterTurn, GoesOn;
  }

  /** The next page does not decode. */
  ghost predicate Unread(c: Codec, t': Tables, pages: seq<seq<Measurement>>, turns: seq<Turn>,
                         decodes: seq<int> -> bool)
  {
    |pages| < |turns| && exists page ::
      IsPage(c, t', turns[|pages|].between, page, PUSH_BATCH) && !Readable(page, decodes)
  }

  /** Why a drain ends: the agent stops, nothing is left, its last page was not a full one confirmed by a
      200 and cleared, or the next page does not decode. */
  ghost predicate Ends(c: Codec, t': Tables, pages: seq<seq<Measurement>>, turns: seq<Turn>,
                       decodes: seq<int> -> bool)
    requires |pages| <= |turns|
  {
    || |pages| == |turns|
    || t'.rows == map[]
    || (pages != [] && !GoesOn(pages[|pages| - 1], turns[|pages| - 1]))
    || Unread(c, t', pages, turns, decodes)
  }

  /** `pushMeasurements`: the pages it sent. */
  method PushMeasurements(db: Database, turns: seq<Turn>, decodes: seq<int> -> bool)
        returns (pages: seq<seq<Measurement>>)
    modifies db
    ensures Drained(Push(db.codec), old(db.Contents()), pages, turns)
    ensures var after := AfterTurns(Push(db.codec), old(db.Contents()), pages, turns);
      && Ends(db.codec, after, pages, turns, decodes)
      && (db.Contents() == after || (Unread(db.codec, after, pages, turns, decodes)
            && db.Contents() == Meanwhile(db.codec, after, turns[|pages|].between)))
  {
    hide IsPage, Readable, DropAll, Drained, WriteAll, Push, Meanwhile, AfterTurns;
    ghost var c, before := db.codec, db.Contents();
    pages := [];
    NothingDrained(Push(c), before, turns);
    while |pages| < |turns|
      invariant Drained(Push(c), before, pages, turns) && |pages| <= |turns|
      invariant db.Contents() == AfterTurns(Push(c), before, pages, turns)
      invariant pages != [] ==> GoesOn(pages[|pages| - 1], turns[|pages| - 1])
      decreases |turns| - |pages|
    {
      var turn := turns[|pages|];
      ghost var t := db.Contents();
      var ok, batch := PendingMeasurements(db, PUSH_BATCH, turn.between, decodes);
      if !ok {
        return;
      }
      ShortIsAll(c, t, turn.between, batch);
      if |batch| == 0 {
        return;
      }
      PushIs(c, t, batch, turn);
      LastGoesOn(c, t, pages, turns);
      DrainedOneMore(Push(c), before, pages, turns, batch);
      pages := pages + [batch];
      var _ := db.WriteMeasurements(turn.recorded, true);
      if turn.reply == Some(Bad400) {
        if turn.cleared {
          db.DropSubmitted(batch);
        }
        return;
      }
      if turn.reply != Some(Ok200) {
        return;
      }
      if !turn.cleared {
        return;
      }
      db.DropSubmitted(batch);
      if |batch| < PUSH_BATCH {
        return;
      }
    }
  }

  /** Every page but the last is of 2000 rows, and the last of no more. */
  lemma PagesAreFull(c: Codec, t: Tables, pages: seq<seq<Measurement>>, turns: seq<Turn>, i: nat)
    requires Drained(Push(c), t, pages, turns) && i < |pages|
    ensures 0 < |pages[i]| <= 2000 && (i < |pages| - 1 ==> |pages[i]| == 2000)
  {
    DrainedAt(Push(c), t, pages, turns, i);
    var before := AfterTurns(Push(c), t, pages[..i], turns);
    PushIs(c, before, pages[i], turns[i]);
    hide AfterTurns, Push, IsPage;
    ShortIsAll(c, before, turns[i].between, pages[i]);
  }

  lemma LastGoesOn(c: Codec, t: Tables, pages: seq<seq<Measurement>>, turns: seq<Turn>)
    requires |pages| <= |turns| && (pages != [] ==> GoesOn(pages[|pages| - 1], turns[|pages| - 1]))
    ensures pages != [] ==> Push(c).goesOn(pages[|pages| - 1], turns[|pages| - 1])
  {
    hide GoesOn;
  }

  /** A page that is not full holds all there is. */
  lemma ShortIsAll(c: Codec, t: Tables, between: seq<seq<Measurement>>, page: seq<Measurement>)
    requires IsPage(c, t, between, page, PUSH_BATCH)
    ensures |page| <= PUSH_BATCH && |page| <= |t.rows| && (|page| < PUSH_BATCH ==> |page| == |t.rows|)
    ensures page == [] ==> t.rows == map[]
  {
    hide OldestPage, ReadAs;
    assert |t.rows.Keys| == |t.rows|;
  }

  // ---------------------------------------------------------------- what a drain does

  /** The statement that a row's series were read in. */
  ghost function MomentOf(c: Codec, t: Tables, between: seq<seq<Measurement>>, m: Measurement): (i: nat)
    requires ReadAs(c, t, between, m)
    ensures i <= |between| && m.series == SeriesFor(Meanwhile(c, t, between[..i]), m.key)
  {
    var i :| 0 <= i <= |between| && m.series == SeriesFor(Meanwhile(c, t, between[..i]), m.key);
    i
  }

  ghost predicate AllReadAs(c: Codec, t: Tables, between: seq<seq<Measurement>>, page: seq<Measurement>) {
    forall m :: m in page ==> ReadAs(c, t, between, m)
  }

  ghost function PartAt(c: Codec, t: Tables, between: seq<seq<Measurement>>, page: seq<Measurement>, n: nat): set<Key>
    requires AllReadAs(c, t, between, page)
  {
    set m | m in page && MomentOf(c, t, between, m) == n :: m.key
  }

  /** Statements up to the n-th, and what the prober wrote between them. */
  ghost function Statements(c: Codec, t: Tables, between: seq<seq<Measurement>>, page: seq<Measurement>, n: nat)
    : seq<Act>
    requires AllReadAs(c, t, between, page) && n <= |between|
  {
    if n == 0 then [RowsRead(KeysOf(page)), SeriesRead(PartAt(c, t, between, page, 0))]
    else Statements(c, t, between, page, n - 1) + [Recorded(between[n - 1]), SeriesRead(PartAt(c, t, between, page, n))]
  }

  /** What has been read of a page by then. */
  ghost function DraftAt(c: Codec, t: Tables, between: seq<seq<Measurement>>, page: seq<Measurement>, n: nat): Draft
    requires AllReadAs(c, t, between, page)
  {
    Draft(seq(|page|, i requires 0 <= i < |page| =>
            if MomentOf(c, t, between, page[i]) < n then page[i] else page[i].(series := map[])),
          set m | m in page && MomentOf(c, t, between, m) >= n :: m.key)
  }

  lemma RowsAreRead(c: Codec, t: Tables, between: seq<seq<Measurement>>, page: seq<Measurement>)
    requires AllReadAs(c, t, between, page)
    ensures forall k :: k in KeysOf(page) ==> k in t.rows
    ensures RowsOf(t, KeysOf(page)) == DraftAt(c, t, between, page, 0)
  {
    hide Meanwhile, SeriesFor;
    assert forall m :: m in page ==> ReadAs(c, t, between, m);
    var d := DraftAt(c, t, between, page, 0);
    forall k ensures k in KeysOf(page) <==> k in d.todo {
      if m :| m in page && m.key == k {
        var i :| 0 <= i < |page| && page[i] == m;
        assert KeysOf(page)[i] == k;
      }
    }
    hide MomentOf;
    assert forall i :: 0 <= i < |page| ==> page[i] in page;
    assert RowsOf(t, KeysOf(page)).batch == d.batch;
  }

  lemma SeriesAreRead(c: Codec, t: Tables, between: seq<seq<Measurement>>, page: seq<Measurement>, n: nat)
    requires AllReadAs(c, t, between, page) && n <= |between| && Distinct(KeysOf(page))
    ensures var d, part := DraftAt(c, t, between, page, n), PartAt(c, t, between, page, n);
      part <= d.todo && WithSeries(d, Meanwhile(c, t, between[..n]), part) == DraftAt(c, t, between, page, n + 1)
  {
    hide ReadAs, SeriesFor, Meanwhile;
    var d, part, u := DraftAt(c, t, between, page, n), PartAt(c, t, between, page, n), Meanwhile(c, t, between[..n]);
    var after, more := WithSeries(d, u, part), DraftAt(c, t, between, page, n + 1);
    forall a, b | a in page && b in page && a.key == b.key ensures a == b {
      var i, j :| 0 <= i < |page| && 0 <= j < |page| && page[i] == a && page[j] == b;
      assert KeysOf(page)[i] == KeysOf(page)[j];
    }
    forall i | 0 <= i < |page| ensures after.batch[i] == more.batch[i] {
      assert page[i] in page;
      assert page[i].key in part <==> MomentOf(c, t, between, page[i]) == n;
    }
    assert after.batch == more.batch;
    assert after.todo == more.todo;
  }

  lemma ReadToTheEnd(c: Codec, t: Tables, between: seq<seq<Measurement>>, page: seq<Measurement>)
    requires AllReadAs(c, t, between, page)
    ensures DraftAt(c, t, between, page, |between| + 1) == Draft(page, {})
  {
    hide ReadAs, SeriesFor, Meanwhile;
    assert forall i :: 0 <= i < |page| ==> page[i] in page;
    assert DraftAt(c, t, between, page, |between| + 1).batch == page;
  }

  ghost predicate LocalTurn(turn: Turn) {
    && (forall m :: m in turn.recorded ==> m.key.agent == LOCAL_AGENT)
    && AllLocal(turn.between)
  }

  ghost predicate AllLocal(between: seq<seq<Measurement>>) {
    forall i, m :: 0 <= i < |between| && m in between[i] ==> m.key.agent == LOCAL_AGENT
  }

  lemma ActTwiceMore(c: Codec, side: Side, acts: seq<Act>, first: Act, second: Act)
    requires CanActAll(c, side, acts) && CanAct(ActedAll(c, side, acts), first)
    requires CanAct(Acted(c, ActedAll(c, side, acts), first), second)
    ensures CanActAll(c, side, acts + [first, second])
    ensures ActedAll(c, side, acts + [first, second]) == Acted(c, Acted(c, ActedAll(c, side, acts), first), second)
  {
    hide *;
    ActOnceMore(c, side, acts, first);
    ActOnceMore(c, side, acts + [first], second);
    assert acts + [first] + [second] == acts + [first, second];
  }

  lemma ReadingActs(c: Codec, t: Tables, keys: seq<Key>, part: set<Key>)
    requires (forall k :: k in keys ==> k in t.rows) && part <= RowsOf(t, keys).todo
    ensures var first := Acted(c, Side(t, None, None), RowsRead(keys));
      && CanAct(Side(t, None, None), RowsRead(keys)) && CanAct(first, SeriesRead(part))
      && Acted(c, first, SeriesRead(part)) == Side(t, Some(WithSeries(RowsOf(t, keys), t, part)), None)
  {
    hide RowsOf, WithSeries;
  }

  lemma StatementActs(c: Codec, t: Tables, d: Draft, ms: seq<Measurement>, part: set<Key>)
    requires (forall m :: m in ms ==> m.key.agent == LOCAL_AGENT) && part <= d.todo
    ensures var first := Acted(c, Side(t, Some(d), None), Recorded(ms));
      && CanAct(Side(t, Some(d), None), Recorded(ms)) && CanAct(first, SeriesRead(part))
      && Acted(c, first, SeriesRead(part)) ==
           Side(Written(c, t, ms), Some(WithSeries(d, Written(c, t, ms), part)), None)
  {
    hide WithSeries, WriteAll;
  }

  /** Reading a page is a run of the agent's side of the protocol.. */
  lemma {:induction false} ReadingIsProtocol(c: Codec, side: Side, acts: seq<Act>, t: Tables,
                                             between: seq<seq<Measurement>>, page: seq<Measurement>, n: nat)
    requires CanActAll(c, side, acts) && ActedAll(c, side, acts) == Side(t, None, None)
    requires AllReadAs(c, t, between, page) && n <= |between| && Distinct(KeysOf(page)) && AllLocal(between)
    ensures CanActAll(c, side, acts + Statements(c, t, between, page, n))
    ensures ActedAll(c, side, acts + Statements(c, t, between, page, n)) ==
      Side(Meanwhile(c, t, between[..n]), Some(DraftAt(c, t, between, page, n + 1)), None)
  {
    StatementsAre(c, t, between, page, n);
    hide *;
    var part := PartAt(c, t, between, page, n);
    if n == 0 {
      FirstStatementsAreProtocol(c, side, acts, t, between, page);
    } else {
      ReadingIsProtocol(c, side, acts, t, between, page, n - 1);
      LocalAt(between, n - 1);
      NextStatementIsProtocol(c, side, acts + Statements(c, t, between, page, n - 1), t, between, page, n);
      Regrouped(acts, Statements(c, t, between, page, n - 1), [Recorded(between[n - 1]), SeriesRead(part)]);
    }
  }

  lemma LocalAt(between: seq<seq<Measurement>>, n: nat)
    requires AllLocal(between) && n < |between|
    ensures forall m :: m in between[n] ==> m.key.agent == LOCAL_AGENT
  {
  }

  lemma Regrouped(a: seq<Act>, b: seq<Act>, c: seq<Act>)
    ensures a + b + c == a + (b + c)
  {
  }

  lemma FirstStatementsAreProtocol(c: Codec, side: Side, acts: seq<Act>, t: Tables, between: seq<seq<Measurement>>,
                                   page: seq<Measurement>)
    requires CanActAll(c, side, acts) && ActedAll(c, side, acts) == Side(t, None, None)
    requires AllReadAs(c, t, between, page) && Distinct(KeysOf(page))
    ensures var next := acts + [RowsRead(KeysOf(page)), SeriesRead(PartAt(c, t, between, page, 0))];
      && CanActAll(c, side, next)
      && ActedAll(c, side, next) ==
           Side(Meanwhile(c, t, between[..0]), Some(DraftAt(c, t, between, page, 1)), None)
  {
    hide *;
    var part := PartAt(c, t, between, page, 0);
    SeriesAreRead(c, t, between, page, 0);
    RowsAreRead(c, t, between, page);
    NothingWritten(c, t, between);
    ReadingActs(c, t, KeysOf(page), part);
    ActTwiceMore(c, side, acts, RowsRead(KeysOf(page)), SeriesRead(part));
  }

  lemma NextStatementIsProtocol(c: Codec, side: Side, acts: seq<Act>, t: Tables, between: seq<seq<Measurement>>,
                                page: seq<Measurement>, n: nat)
    requires AllReadAs(c, t, between, page) && 0 < n <= |between| && Distinct(KeysOf(page))
    requires forall m :: m in between[n - 1] ==> m.key.agent == LOCAL_AGENT
    requires CanActAll(c, side, acts)
    requires ActedAll(c, side, acts) ==
      Side(Meanwhile(c, t, between[..n - 1]), Some(DraftAt(c, t, between, page, n)), None)
    ensures var next := acts + [Recorded(between[n - 1]), SeriesRead(PartAt(c, t, between, page, n))];
      && CanActAll(c, side, next)
      && ActedAll(c, side, next) ==
           Side(Meanwhile(c, t, between[..n]), Some(DraftAt(c, t, between, page, n + 1)), None)
  {
    hide *;
    var part := PartAt(c, t, between, page, n);
    SeriesAreRead(c, t, between, page, n);
    MeanwhileLast(c, t, between, n - 1);
    StatementActs(c, Meanwhile(c, t, between[..n - 1]), DraftAt(c, t, between, page, n), between[n - 1], part);
    ActTwiceMore(c, side, acts, Recorded(between[n - 1]), SeriesRead(part));
  }

  lemma NothingWritten(c: Codec, t: Tables, between: seq<seq<Measurement>>)
    ensures Meanwhile(c, t, between[..0]) == t
  {
  }

  lemma StatementsAre(c: Codec, t: Tables, between: seq<seq<Measurement>>, page: seq<Measurement>, n: nat)
    requires AllReadAs(c, t, between, page) && n <= |between|
    ensures var part := PartAt(c, t, between, page, n);
      if n == 0 then Statements(c, t, between, page, n) == [RowsRead(KeysOf(page)), SeriesRead(part)]
      else Statements(c, t, between, page, n) ==
             Statements(c, t, between, page, n - 1) + [Recorded(between[n - 1]), SeriesRead(part)]
  {
    hide PartAt, AllReadAs;
  }

  ghost function ActsOf(c: Codec, t: Tables, page: seq<Measurement>, turn: Turn): seq<Act>
    requires AllReadAs(c, t, turn.between, page)
  {
    Statements(c, t, turn.between, page, |turn.between|) + [Sent, Recorded(turn.recorded)]
      + [match turn.reply case None => GaveUp case Some(status) => Answered(status, turn.cleared)]
  }

  ghost function AllActs(c: Codec, t: Tables, pages: seq<seq<Measurement>>, turns: seq<Turn>): seq<Act>
    requires |pages| <= |turns| && Drained(Push(c), t, pages, turns)
  {
    if pages == [] then [] else
      var n := |pages| - 1;
      DrainedLast(Push(c), t, pages, turns);
      var before := AfterTurns(Push(c), t, pages[..n], turns);
      PushIs(c, before, pages[n], turns[n]);
      AllActs(c, t, pages[..n], turns) + ActsOf(c, before, pages[n], turns[n])
  }

  lemma SendingActs(c: Codec, t: Tables, page: seq<Measurement>, turn: Turn)
    requires LocalTurn(turn)
    ensures var first := Acted(c, Side(t, Some(Draft(page, {})), None), Sent);
      && CanAct(Side(t, Some(Draft(page, {})), None), Sent) && CanAct(first, Recorded(turn.recorded))
      && Acted(c, first, Recorded(turn.recorded)) == Side(Written(c, t, turn.recorded), None, Some(page))
  {
    hide WriteAll;
  }

  lemma AnsweringAct(c: Codec, t: Tables, page: seq<Measurement>, turn: Turn)
    ensures var act := match turn.reply case None => GaveUp case Some(status) => Answered(status, turn.cleared);
      && CanAct(Side(t, None, Some(page)), act)
      && Acted(c, Side(t, None, Some(page)), act) == Side(if IsForgotten(turn) then DropAll(t, page) else t, None, None)
  {
    hide DropAll;
  }

  /** .. and so is a turn of the drain. */
  lemma TurnIsProtocol(c: Codec, side: Side, acts: seq<Act>, t: Tables, page: seq<Measurement>, turn: Turn)
    requires CanActAll(c, side, acts) && ActedAll(c, side, acts) == Side(t, None, None)
    requires AllReadAs(c, t, turn.between, page) && Distinct(KeysOf(page)) && LocalTurn(turn)
    ensures CanActAll(c, side, acts + ActsOf(c, t, page, turn))
    ensures ActedAll(c, side, acts + ActsOf(c, t, page, turn)) == Side(AfterTurn(c, t, page, turn), None, None)
  {
    assert AllLocal(turn.between);
    hide *;
    var n := |turn.between|;
    ReadingIsProtocol(c, side, acts, t, turn.between, page, n);
    ReadToTheEnd(c, t, turn.between, page);
    assert turn.between[..n] == turn.between;
    var after := Meanwhile(c, t, turn.between);
    var most := acts + Statements(c, t, turn.between, page, n);
    SendingActs(c, after, page, turn);
    ActTwiceMore(c, side, most, Sent, Recorded(turn.recorded));
    AnsweringAct(c, Written(c, after, turn.recorded), page, turn);
    var last := match turn.reply case None => GaveUp case Some(status) => Answered(status, turn.cleared);
    ActOnceMore(c, side, most + [Sent, Recorded(turn.recorded)], last);
    ActsAre(c, t, page, turn, acts);
  }

  lemma ActsAre(c: Codec, t: Tables, page: seq<Measurement>, turn: Turn, acts: seq<Act>)
    requires AllReadAs(c, t, turn.between, page)
    ensures acts + Statements(c, t, turn.between, page, |turn.between|) + [Sent, Recorded(turn.recorded)]
      + [match turn.reply case None => GaveUp case Some(status) => Answered(status, turn.cleared)]
      == acts + ActsOf(c, t, page, turn)
    ensures var r := Written(c, Meanwhile(c, t, turn.between), turn.recorded);
      AfterTurn(c, t, page, turn) == if IsForgotten(turn) then DropAll(r, page) else r
  {
    hide Statements, AllReadAs, Written, Meanwhile, DropAll;
  }

  /** A drain is a run of the agent's side of the protocol: so it keeps what every run keeps. */
  lemma {:induction false} DrainIsProtocol(c: Codec, t: Tables, pages: seq<seq<Measurement>>, turns: seq<Turn>)
    requires Drained(Push(c), t, pages, turns) && |pages| <= |turns|
    requires forall i :: 0 <= i < |turns| ==> LocalTurn(turns[i])
    ensures CanActAll(c, Side(t, None, None), AllActs(c, t, pages, turns))
    ensures ActedAll(c, Side(t, None, None), AllActs(c, t, pages, turns))
         == Side(AfterTurns(Push(c), t, pages, turns), None, None)
  {
    AllActsAre(c, t, pages, turns);
    hide *;
    if pages == [] {
      NoActs(c, Side(t, None, None));
      NothingDrained(Push(c), t, turns);
    } else {
      var n := |pages| - 1;
      DrainedLast(Push(c), t, pages, turns);
      DrainIsProtocol(c, t, pages[..n], turns);
      var box := AfterTurns(Push(c), t, pages[..n], turns);
      PushIs(c, box, pages[n], turns[n]);
      PageIsEntries(c, box, turns[n].between, pages[n]);
      TurnIsProtocol(c, Side(t, None, None), AllActs(c, t, pages[..n], turns), box, pages[n], turns[n]);
    }
  }

  lemma AllActsAre(c: Codec, t: Tables, pages: seq<seq<Measurement>>, turns: seq<Turn>)
    requires Drained(Push(c), t, pages, turns) && |pages| <= |turns|
    ensures if pages == [] then AllActs(c, t, pages, turns) == []
      else
        var n, before := |pages| - 1, AfterTurns(Push(c), t, pages[..|pages| - 1], turns);
        && Drained(Push(c), t, pages[..n], turns) && AllReadAs(c, before, turns[n].between, pages[n])
        && AllActs(c, t, pages, turns) == AllActs(c, t, pages[..n], turns) + ActsOf(c, before, pages[n], turns[n])
  {
    hide AfterTurns, Drained, ActsOf, AfterTurn, ReadAs, OldestPage, Push;
    if pages != [] {
      DrainedLast(Push(c), t, pages, turns);
      PushIs(c, AfterTurns(Push(c), t, pages[..|pages| - 1], turns), pages[|pages| - 1], turns[|pages| - 1]);
    }
  }

  lemma NoActs(c: Codec, side: Side)
    ensures CanActAll(c, side, []) && ActedAll(c, side, []) == side
  {
  }

  lemma PageIsEntries(c: Codec, t: Tables, between: seq<seq<Measurement>>, page: seq<Measurement>)
    requires IsPage(c, t, between, page, PUSH_BATCH)
    ensures AllReadAs(c, t, between, page) && OldestPage(t.rows.Keys, KeysOf(page)) && Distinct(KeysOf(page))
  {
    hide ReadAs;
  }

  /** Whatever is buffered at some point of a drain, before it or recorded during it, is buffered at its
      end, unless a later page that held it was answered with a 200 or a 400. */
  lemma OnlyAnsweredIsForgotten(c: Codec, t: Tables, pages: seq<seq<Measurement>>, turns: seq<Turn>, j: nat, k: Key)
    requires Drained(Push(c), t, pages, turns) && |pages| <= |turns|
    requires j <= |pages| && k in AfterTurns(Push(c), t, pages[..j], turns).rows
    ensures k in AfterTurns(Push(c), t, pages, turns).rows
      || exists i :: j <= i < |pages| && IsForgotten(turns[i]) && k in KeysOf(pages[i])
  {
    hide *;
    var holds, on := (after: Tables) => k in after.rows, (page: seq<Measurement>) => k in KeysOf(page);
    forall before, page, turn | holds(before) && !holds(Push(c).after(before, page, turn))
      ensures Push(c).taken(turn) && on(page)
    {
      PushIs(c, before, page, turn);
      TurnKeeps(c, before, page, turn, k);
    }
    OnlyTakenGoes(Push(c), t, pages, turns, j, holds, on);
    if !holds(AfterTurns(Push(c), t, pages, turns)) {
      var i :| j <= i < |pages| && Push(c).taken(turns[i]) && on(pages[i]);
      PushIs(c, t, pages[i], turns[i]);
    }
  }

  /** After a turn a row that was buffered before it is gone exactly when it was forgotten with the page:
      by its key, so also when it was recorded again meanwhile. */
  lemma TurnKeeps(c: Codec, t: Tables, page: seq<Measurement>, turn: Turn, k: Key)
    requires k in t.rows
    ensures k in AfterTurn(c, t, page, turn).rows <==> !(IsForgotten(turn) && k in KeysOf(page))
  {
    hide Written, Meanwhile, DropAll, IsForgotten;
    StaysMeanwhile(c, t, turn.between, k);
    WrittenKeeps(c, Meanwhile(c, t, turn.between), turn.recorded, k);
    DropKeys(Written(c, Meanwhile(c, t, turn.between), turn.recorded), page);
    KeysOfHas(page, k);
    assert k in Elements(KeysOf(page)) <==> k in KeysOf(page);
  }

  lemma WrittenKeeps(c: Codec, t: Tables, ms: seq<Measurement>, k: Key)
    requires k in t.rows
    ensures k in Written(c, t, ms).rows
  {
    hide WriteAll;
    if WriteAll(c, t, ms, true).Some? {
      WriteKeys(c, t, ms, true);
    }
  }

  lemma {:induction false} StaysMeanwhile(c: Codec, t: Tables, between: seq<seq<Measurement>>, k: Key)
    requires k in t.rows
    ensures k in Meanwhile(c, t, between).rows
  {
    hide Written;
    if between != [] {
      var n := |between| - 1;
      StaysMeanwhile(c, t, between[..n], k);
      WrittenKeeps(c, Meanwhile(c, t, between[..n]), between[n], k);
    }
  }

  lemma {:induction false} DropTwice(t: Tables, a: seq<Measurement>, b: seq<Measurement>)
    ensures DropAll(DropAll(t, a), b) == DropAll(t, a + b)
  {
    if b == [] {
      assert a + b == a;
    } else {
      assert (a + b)[..|a + b| - 1] == a + b[..|b| - 1];
      DropTwice(t, a, b[..|b| - 1]);
    }
  }

  lemma KeysOfHas(page: seq<Measurement>, k: Key)
    ensures k in Elements(KeysOf(page)) <==> exists m :: m in page && m.key == k
  {
    if m :| m in page && m.key == k {
      var i :| 0 <= i < |page| && page[i] == m;
      assert KeysOf(page)[i] == k;
    }
  }

  /** Dropping a page removes exactly its keys. */
  lemma DropPage(c: Codec, t: Tables, between: seq<seq<Measurement>>, page: seq<Measurement>)
    requires IsPage(c, t, between, page, PUSH_BATCH)
    ensures DropAll(t, page).rows.Keys == t.rows.Keys - Elements(KeysOf(page))
    ensures |DropAll(t, page).rows| == |t.rows| - |page|
  {
    assert |KeysOf(page)| == |page|;
    hide *;
    PageIsEntries(c, t, between, page);
    PageSize(t.rows.Keys, KeysOf(page));
    DropKeys(t, page);
    var d := DropAll(t, page);
    forall k ensures k in d.rows <==> k in t.rows && k !in Elements(KeysOf(page)) {
      KeysOfHas(page, k);
    }
    assert d.rows.Keys == t.rows.Keys - Elements(KeysOf(page));
    assert |d.rows| == |d.rows.Keys| && |t.rows| == |t.rows.Keys|;
  }

  ghost predicate Quiet(turns: seq<Turn>, n: nat) {
    forall i :: 0 <= i < n && i < |turns| ==> turns[i].between == [] && turns[i].recorded == []
  }

  /** While nothing new is recorded, a drain forgets exactly the pages answered and cleared: all full but
      perhaps the last, and nothing kept is older than anything forgotten. */
  lemma {:induction false} QuietDrain(c: Codec, t: Tables, pages: seq<seq<Measurement>>, turns: seq<Turn>)
    requires Drained(Push(c), t, pages, turns) && |pages| <= |turns| && Quiet(turns, |pages|)
    ensures var gone, t' := Taken(Push(c), pages, turns), AfterTurns(Push(c), t, pages, turns);
      && t' == DropAll(t, gone) && |t'.rows| == |t.rows| - |gone|
      && OlderThan(KeysOf(gone), t'.rows.Keys)
      && |gone| == Amount(Push(c), pages, turns)
  {
    hide *;
    if pages == [] {
      NothingDrained(Push(c), t, turns);
      NothingTaken(c, t, turns);
    } else {
      var n := |pages| - 1;
      QuietBefore(turns, n);
      DrainedLast(Push(c), t, pages, turns);
      QuietDrain(c, t, pages[..n], turns);
      var before, gone := AfterTurns(Push(c), t, pages[..n], turns), Taken(Push(c), pages[..n], turns);
      PushIs(c, before, pages[n], turns[n]);
      TakenLast(c, pages, turns);
      QuietAfter(c, before, pages[n], turns[n]);
      QuietTurn(c, t, before, gone, pages[n]);
    }
    AmountIs(c, t, pages, turns);
  }

  lemma AmountIs(c: Codec, t: Tables, pages: seq<seq<Measurement>>, turns: seq<Turn>)
    requires Drained(Push(c), t, pages, turns) && |pages| <= |turns|
    ensures |Taken(Push(c), pages, turns)| == Amount(Push(c), pages, turns)
  {
    hide IsPage, AfterTurn, Drained, Taken, Amount;
    AmountTaken(Push(c), t, pages, turns);
  }

  lemma NothingTaken(c: Codec, t: Tables, turns: seq<Turn>)
    ensures Taken(Push(c), [], turns) == [] && DropAll(t, []) == t && OlderThan(KeysOf([]), t.rows.Keys)
  {
  }

  lemma QuietBefore(turns: seq<Turn>, n: nat)
    requires Quiet(turns, n + 1) && n < |turns|
    ensures Quiet(turns, n) && turns[n].between == [] && turns[n].recorded == []
  {
  }

  lemma TakenLast(c: Codec, pages: seq<seq<Measurement>>, turns: seq<Turn>)
    requires pages != [] && |pages| <= |turns|
    ensures var n, l := |pages| - 1, Push(c);
      Taken(l, pages, turns) ==
        if IsForgotten(turns[n]) then Taken(l, pages[..n], turns) + pages[n] else Taken(l, pages[..n], turns)
  {
    hide IsForgotten;
  }

  lemma QuietAfter(c: Codec, t: Tables, page: seq<Measurement>, turn: Turn)
    requires turn.between == [] && turn.recorded == []
    ensures AfterTurn(c, t, page, turn) == if IsForgotten(turn) then DropAll(t, page) else t
  {
    hide DropAll, WriteAll;
    WriteNone(c, t, [], true);
    assert turn.recorded == [][..0];
  }

  lemma QuietTurn(c: Codec, t: Tables, before: Tables, gone: seq<Measurement>, page: seq<Measurement>)
    requires before == DropAll(t, gone) && |before.rows| == |t.rows| - |gone|
    requires OlderThan(KeysOf(gone), before.rows.Keys) && IsPage(c, before, [], page, PUSH_BATCH)
    ensures var after := DropAll(before, page);
      && after == DropAll(t, gone + page) && |after.rows| == |t.rows| - |gone + page|
      && OlderThan(KeysOf(gone + page), after.rows.Keys)
  {
    hide *;
    DropTwice(t, gone, page);
    DropPage(c, before, [], page);
    PageIsEntries(c, before, [], page);
    StillOlder(KeysOf(gone), before.rows.Keys, KeysOf(page));
    assert KeysOf(gone + page) == KeysOf(gone) + KeysOf(page) by { KeysOfBoth(gone, page); }
  }

  lemma KeysOfBoth(a: seq<Measurement>, b: seq<Measurement>)
    ensures KeysOf(a + b) == KeysOf(a) + KeysOf(b)
  {
  }

  /** With every answer a 200 the outbox ends empty. */
  lemma ConfirmedDrainEmpties(c: Codec, t: Tables, pages: seq<seq<Measurement>>, turns: seq<Turn>,
                              decodes: seq<int> -> bool)
    requires Drained(Push(c), t, pages, turns) && |pages| <= |turns|
    requires Ends(c, AfterTurns(Push(c), t, pages, turns), pages, turns, decodes)
    requires forall i :: 0 <= i < |turns| ==> turns[i] == Turn([], [], Some(Ok200), true)
    requires |t.rows| < PUSH_BATCH * |turns|
    requires forall k :: k in t.rows ==> Readable([EntryOf(t, k)], decodes)
    ensures AfterTurns(Push(c), t, pages, turns).rows == map[]
  {
    hide IsPage, Readable, AfterTurn, DropAll, KeysOf, OlderThan, AfterTurns, Taken, Drained, Push, Amount;
    QuietDrain(c, t, pages, turns);
    AmountSo(c, pages, turns);
    var t', n := AfterTurns(Push(c), t, pages, turns), |pages|;
    if pages != [] {
      var before := AfterTurns(Push(c), t, pages[..n - 1], turns);
      DrainedLast(Push(c), t, pages, turns);
      PushIs(c, before, pages[n - 1], turns[n - 1]);
      ShortIsAll(c, before, [], pages[n - 1]);
      LastPageClears(c, before, pages[n - 1], turns[n - 1]);
    }
    if n < |turns| {
      if page :| IsPage(c, t', turns[n].between, page, PUSH_BATCH) && !Readable(page, decodes) {
        UntouchedStaysReadable(c, t, Taken(Push(c), pages, turns), page, decodes);
      }
    }
  }

  lemma AmountSo(c: Codec, pages: seq<seq<Measurement>>, turns: seq<Turn>)
    requires |pages| <= |turns| && forall i :: 0 <= i < |turns| ==> turns[i] == Turn([], [], Some(Ok200), true)
    ensures pages != [] ==> Amount(Push(c), pages, turns) == PUSH_BATCH * (|pages| - 1) + |pages[|pages| - 1]|
  {
  }

  lemma LastPageClears(c: Codec, t: Tables, page: seq<Measurement>, turn: Turn)
    requires IsPage(c, t, [], page, PUSH_BATCH) && turn == Turn([], [], Some(Ok200), true)
    ensures |page| < PUSH_BATCH ==> AfterTurn(c, t, page, turn).rows == map[]
  {
    hide IsPage, DropAll, AfterTurn;
    ShortIsAll(c, t, [], page);
    DropPage(c, t, [], page);
    QuietAfter(c, t, page, turn);
    assert |page| < PUSH_BATCH ==> |DropAll(t, page).rows| == 0;
  }

  lemma UntouchedStaysReadable(c: Codec, t: Tables, gone: seq<Measurement>, page: seq<Measurement>,
                               decodes: seq<int> -> bool)
    requires IsPage(c, DropAll(t, gone), [], page, PUSH_BATCH)
    requires forall k :: k in t.rows ==> Readable([EntryOf(t, k)], decodes)
    ensures Readable(page, decodes)
  {
    DropEntries(t, gone);
    var u, none: seq<seq<Measurement>> := DropAll(t, gone), [];
    assert Meanwhile(c, u, none) == u;
    hide DropAll, SeriesFor, OldestPage, Meanwhile;
    forall m | m in page ensures decodes(m.row.samples) && forall name :: name in m.series ==> decodes(m.series[name]) {
      assert ReadAs(c, u, none, m);
      var i :| 0 <= i <= |none| && m.series == SeriesFor(Meanwhile(c, u, none[..i]), m.key);
      assert none[..i] == none;
      assert m == EntryOf(t, m.key);
      assert m in [EntryOf(t, m.key)];
    }
  }
}
