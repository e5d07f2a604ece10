/** Pooled reads (internal/store/columns.go): rows in time order become pixel columns in one
    streaming pass, which may start out keeping rows raw and switch part-way. */
module Pooling {
  import opened Options
  import opened Columns
  import opened Quantiles
  import opened Sorting

  const COLUMN_QUANTILES: nat := 256
  const MAX_SAMPLES_PER_READ: nat := 20_000_000
  const MAX_POOLED_ROWS: nat := 10_000_000

  /** One stored interval, with its samples decoded. */
  datatype Row = Row(ts: Int64, sent: int, received: nat, flags: bv8, samples: seq<int>)

  /** One stored extra series of one interval; `vals` is None when the blob does not decode. */
  datatype SeriesRow = SeriesRow(ts: Int64, name: string, vals: Option<seq<int>>)

  datatype Pixel = Pixel(from: Int64, to: Int64, rounds: int, sent: int, received: int,
                         flags: bv8, flagged: int, quantiles: seq<int>, series: map<string, seq<int>>)

  datatype Read = Raw(rows: seq<Row>) | Pooled(cols: seq<Pixel>)
                | BadColumnCount | TooManyIntervals | TooManySamples

  // ---------------------------------------------------------------- specification: group by column

  /** The column of a time, or -1 where the source's division would panic. */
  function IndexOf(w: Window, ts: Int64): int {
    if ColumnDefined(w, ts) then Column(w, ts) as int else -1
  }

  function Group(w: Window, rows: seq<Row>, i: int): seq<Row> {
    if rows == [] then []
    else
      var r := rows[|rows| - 1];
      Group(w, rows[..|rows| - 1], i) + if IndexOf(w, r.ts) == i then [r] else []
  }

  function SumOf(rows: seq<Row>, f: Row -> int): int {
    if rows == [] then 0 else SumOf(rows[..|rows| - 1], f) + f(rows[|rows| - 1])
  }

  function One(r: Row): int { 1 }
  function SentOf(r: Row): int { r.sent }
  function ReceivedOf(r: Row): int { r.received }
  function FlaggedOf(r: Row): int { if r.flags != 0 then 1 else 0 }

  function OrFlags(rows: seq<Row>): bv8 {
    if rows == [] then 0 else OrFlags(rows[..|rows| - 1]) | rows[|rows| - 1].flags
  }

  function Samples(rows: seq<Row>): seq<int> {
    if rows == [] then [] else Samples(rows[..|rows| - 1]) + rows[|rows| - 1].samples
  }

  /** Everything a column says about the rows in it, except its quantiles. */
  function Tally(w: Window, i: Uint64, rows: seq<Row>): Pixel
    requires Indexable(w, i)
  {
    Pixel(Start(w, i), Start(w, i + 1), |rows|, SumOf(rows, SentOf), SumOf(rows, ReceivedOf), OrFlags(rows),
          SumOf(rows, FlaggedOf), [], map[])
  }

  function Summary(w: Window, i: Uint64, rows: seq<Row>): Pixel
    requires Indexable(w, i)
  {
    Tally(w, i, rows).(quantiles := QuantilesOf(Samples(rows), COLUMN_QUANTILES))
  }

  predicate Indexable(w: Window, i: Uint64) {
    StartDefined(w, i) && i as int + 1 < TWO64 && StartDefined(w, i + 1)
  }

  /** `cols` is `rows` grouped by column: one entry per non-empty column, in order. */
  ghost predicate Groups(w: Window, rows: seq<Row>, cols: seq<Pixel>, at: seq<Uint64>) {
    && |cols| == |at|
    && (forall c :: 0 <= c < |at| ==> Indexable(w, at[c]))
    && (forall c, d :: 0 <= c < d < |at| ==> at[c] < at[d])
    && (forall c :: 0 <= c < |at| ==> Group(w, rows, at[c] as int) != [])
    && (forall c :: 0 <= c < |at| ==> cols[c] == Summary(w, at[c], Group(w, rows, at[c] as int)))
    && (forall k :: 0 <= k < |rows| ==> Covered(at, IndexOf(w, rows[k].ts)))
  }

  ghost predicate Covered(at: seq<Uint64>, i: int) {
    exists c :: 0 <= c < |at| && at[c] as int == i
  }

  ghost predicate InWindow(from: Int64, to: Int64, rows: seq<Row>) {
    && (forall k :: 0 <= k < |rows| ==> from <= rows[k].ts < to)
    && (forall j, k :: 0 <= j < k < |rows| ==> rows[j].ts < rows[k].ts)
  }

  /** Some column of `rows` holds more samples than one read may. */
  ghost predicate Overflows(w: Window, rows: seq<Row>) {
    exists i :: |Samples(Group(w, rows, i))| > MAX_SAMPLES_PER_READ
  }

  // ---------------------------------------------------------------- facts about grouping

  lemma {:induction false} GroupConcat(w: Window, a: seq<Row>, b: seq<Row>, i: int)
    ensures Group(w, a + b, i) == Group(w, a, i) + Group(w, b, i)
  {
    if b == [] {
      assert a + b == a;
    } else {
      assert (a + b)[..|a + b| - 1] == a + b[..|b| - 1];
      GroupConcat(w, a, b[..|b| - 1], i);
    }
  }

  lemma {:induction false} GroupOfOne(w: Window, rows: seq<Row>, i: int, j: int)
    requires forall k :: 0 <= k < |rows| ==> IndexOf(w, rows[k].ts) == i
    ensures Group(w, rows, j) == if i == j then rows else []
  {
    if rows != [] {
      GroupOfOne(w, rows[..|rows| - 1], i, j);
      assert rows == rows[..|rows| - 1] + [rows[|rows| - 1]];
    }
  }

  lemma {:induction false} GroupAbsent(w: Window, rows: seq<Row>, i: int)
    requires forall k :: 0 <= k < |rows| ==> IndexOf(w, rows[k].ts) != i
    ensures Group(w, rows, i) == []
  {
    if rows != [] { GroupAbsent(w, rows[..|rows| - 1], i); }
  }

  lemma {:induction false} SamplesConcat(a: seq<Row>, b: seq<Row>)
    ensures Samples(a + b) == Samples(a) + Samples(b)
  {
    if b == [] {
      assert a + b == a;
    } else {
      assert (a + b)[..|a + b| - 1] == a + b[..|b| - 1];
      SamplesConcat(a, b[..|b| - 1]);
    }
  }

  lemma OverflowGrows(w: Window, a: seq<Row>, b: seq<Row>)
    requires Overflows(w, a)
    ensures Overflows(w, a + b)
  {
    var i :| |Samples(Group(w, a, i))| > MAX_SAMPLES_PER_READ;
    GroupConcat(w, a, b, i);
    SamplesConcat(Group(w, a, i), Group(w, b, i));
    assert |Samples(Group(w, a + b, i))| > MAX_SAMPLES_PER_READ;
  }

  lemma ClosedBefore(w: Window, rows: seq<Row>, cols: seq<Pixel>, at: seq<Uint64>, i: Uint64)
    requires Groups(w, rows, cols, at) && forall c :: 0 <= c < |at| ==> at[c] < i
    ensures forall k :: 0 <= k < |rows| ==> IndexOf(w, rows[k].ts) < i as int
    ensures Group(w, rows, i as int) == []
  {
    hide IndexOf, Summary, Indexable;
    forall k | 0 <= k < |rows| ensures IndexOf(w, rows[k].ts) < i as int {
      assert Covered(at, IndexOf(w, rows[k].ts));
    }
    GroupAbsent(w, rows, i as int);
  }

  lemma GroupAfterClose(w: Window, rows: seq<Row>, open: seq<Row>, i: int, j: int)
    requires forall k :: 0 <= k < |open| ==> IndexOf(w, open[k].ts) == i
    requires Group(w, rows, i) == []
    ensures Group(w, rows + open, j) == if j == i then open else Group(w, rows, j)
  {
    hide IndexOf;
    GroupConcat(w, rows, open, j);
    GroupOfOne(w, open, i, j);
  }

  lemma CoveredAfterClose(w: Window, rows: seq<Row>, open: seq<Row>, i: Uint64, at: seq<Uint64>)
    requires forall k :: 0 <= k < |rows| ==> Covered(at, IndexOf(w, rows[k].ts))
    requires forall k :: 0 <= k < |open| ==> IndexOf(w, open[k].ts) == i as int
    ensures forall k :: 0 <= k < |rows + open| ==> Covered(at + [i], IndexOf(w, (rows + open)[k].ts))
  {
    hide IndexOf;
    forall k | 0 <= k < |rows + open| ensures Covered(at + [i], IndexOf(w, (rows + open)[k].ts)) {
      if k < |rows| {
        assert Covered(at, IndexOf(w, rows[k].ts));
        var c :| 0 <= c < |at| && at[c] as int == IndexOf(w, rows[k].ts);
        assert (at + [i])[c] == at[c];
      } else {
        assert (at + [i])[|at|] as int == IndexOf(w, open[k - |rows|].ts);
      }
    }
  }

  /** Closing a column appends its group, and leaves every earlier group as it was. */
  lemma AppendGroup(w: Window, rows: seq<Row>, open: seq<Row>, i: Uint64, cols: seq<Pixel>, at: seq<Uint64>)
    requires Groups(w, rows, cols, at) && Indexable(w, i) && open != []
    requires forall k :: 0 <= k < |open| ==> IndexOf(w, open[k].ts) == i as int
    requires forall c :: 0 <= c < |at| ==> at[c] < i
    ensures Groups(w, rows + open, cols + [Summary(w, i, open)], at + [i])
  {
    hide IndexOf, Group, Summary, Indexable, Covered;
    ClosedBefore(w, rows, cols, at, i);
    CoveredAfterClose(w, rows, open, i, at);
    var all, cols', at' := rows + open, cols + [Summary(w, i, open)], at + [i];
    forall c | 0 <= c < |at'|
      ensures Indexable(w, at'[c]) && Group(w, all, at'[c] as int) != []
      ensures cols'[c] == Summary(w, at'[c], Group(w, all, at'[c] as int))
    {
      GroupAfterClose(w, rows, open, i as int, at'[c] as int);
    }
  }

  lemma ColumnReady(w: Window, from: Int64, to: Int64, ts: Int64)
    requires Spans(w, from, to) && from <= ts < to
    ensures ColumnDefined(w, ts) && Indexable(w, Column(w, ts)) && IndexOf(w, ts) == Column(w, ts) as int
  {
    hide Start, Column, ColumnDefined;
    ColumnIs(w, from, to, ts);
    StartIs(w, from, to, Column(w, ts));
    StartIs(w, from, to, Column(w, ts) + 1);
  }

  lemma NotBefore(w: Window, from: Int64, to: Int64, rows: seq<Row>, ts: Int64)
    requires Spans(w, from, to) && from <= ts < to
    requires forall k :: 0 <= k < |rows| ==> from <= rows[k].ts <= ts
    ensures forall k :: 0 <= k < |rows| ==> IndexOf(w, rows[k].ts) <= IndexOf(w, ts)
  {
    forall k | 0 <= k < |rows| ensures IndexOf(w, rows[k].ts) <= IndexOf(w, ts) {
      ColumnsAscend(w, from, to, rows[k].ts, ts);
    }
  }

  /** What one more row does to the tally of the open column. */
  lemma TallyStep(w: Window, i: Uint64, open: seq<Row>, m: Row)
    requires Indexable(w, i)
    ensures Samples(open + [m]) == Samples(open) + m.samples
    ensures Tally(w, i, open + [m]) ==
            var t := Tally(w, i, open);
            t.(rounds := t.rounds + 1, sent := t.sent + m.sent, received := t.received + m.received,
               flags := t.flags | m.flags, flagged := t.flagged + if m.flags != 0 then 1 else 0)
  {
    hide IndexOf, Start, Column, ColumnDefined, StartDefined, QuantilesOf, Sorted;
    assert (open + [m])[..|open|] == open;
  }

  /** What one more row does to every group: only its own column's grows. */
  lemma GroupStep(w: Window, rows: seq<Row>, cols: seq<Pixel>, at: seq<Uint64>, open: seq<Row>, m: Row, i: Uint64,
                  j: int)
    requires Groups(w, rows, cols, at)
    requires forall k :: 0 <= k < |open| ==> IndexOf(w, open[k].ts) == i as int
    requires forall c :: 0 <= c < |at| ==> at[c] < i
    requires IndexOf(w, m.ts) == i as int
    ensures Group(w, rows + open + [m], j) == if j == i as int then open + [m] else Group(w, rows + open, j)
  {
    hide *;
    ClosedBefore(w, rows, cols, at, i);
    GroupConcat(w, rows + open, [m], j);
    GroupConcat(w, rows, open, j);
    GroupOfOne(w, open, i as int, j);
    GroupOfOne(w, [m], i as int, j);
    assert [] + open + [m] == open + [m];
    assert Group(w, rows + open, j) + [] == Group(w, rows + open, j);
  }

  lemma OverflowStep(w: Window, rows: seq<Row>, cols: seq<Pixel>, at: seq<Uint64>, open: seq<Row>, m: Row, i: Uint64)
    requires Groups(w, rows, cols, at) && Indexable(w, i)
    requires forall k :: 0 <= k < |open| ==> IndexOf(w, open[k].ts) == i as int
    requires forall c :: 0 <= c < |at| ==> at[c] < i
    requires IndexOf(w, m.ts) == i as int && !Overflows(w, rows + open)
    ensures Overflows(w, rows + open + [m]) <==> |Samples(open + [m])| > MAX_SAMPLES_PER_READ
  {
    hide Groups, Group, Samples, IndexOf;
    var all := rows + open + [m];
    GroupStep(w, rows, cols, at, open, m, i, i as int);
    if Overflows(w, all) {
      var j :| |Samples(Group(w, all, j))| > MAX_SAMPLES_PER_READ;
      GroupStep(w, rows, cols, at, open, m, i, j);
    }
  }

  lemma NoSamples()
    ensures Samples([]) == []
  {
  }

  // ---------------------------------------------------------------- the pooler

  class Pooler {
    const w: Window
    ghost const from: Int64
    ghost const to: Int64
    var cur: Option<Pixel>
    var idx: Uint64
    var pool: seq<int>
    var out: seq<Pixel>
    var outIdx: seq<Uint64>
    ghost var closed: seq<Row>  // the rows pooled into `out`
    ghost var open: seq<Row>    // the rows of the column being filled
    ghost var rows: seq<Row>    // all of them, in order

    constructor (from: Int64, to: Int64, n: Int64)
      requires from < to && n >= 1
      ensures Valid() && Ready() && w == NewWindow(from, to, n) && this.from == from && this.to == to
      ensures rows == []
    {
      w := NewWindow(from, to, n);
      this.from, this.to := from, to;
      cur, idx, pool, out, outIdx := None, 0, [], [], [];
      closed, open, rows := [], [], [];
      WindowSpans(from, to, n);
    }

    ghost predicate Valid()
      reads this
    {
      && (cur.None? <==> open == [])
      && Consistent()
    }

    /** A column is open, whether or not it has its first row yet. */
    ghost predicate Filling()
      reads this
    {
      cur.Some? && Consistent()
    }

    ghost predicate Consistent()
      reads this
    {
      && Spans(w, from, to)
      && Groups(w, closed, out, outIdx)
      && pool == Samples(open)
      && (cur.None? ==> open == [])
      && (cur.Some? ==>
            && Indexable(w, idx)
            && cur.value == Tally(w, idx, open)
            && (forall k :: 0 <= k < |open| ==> IndexOf(w, open[k].ts) == idx as int)
            && (forall c :: 0 <= c < |outIdx| ==> outIdx[c] < idx))
      && rows == closed + open
      && !Overflows(w, rows)
    }

    /** Not yet finished: nothing is closed unless a column is open. */
    ghost predicate Ready()
      reads this
    {
      cur.None? ==> closed == [] && outIdx == []
    }

    method Close()
      requires Valid()
      modifies this
      ensures Valid() && cur.None? && closed == rows == old(rows) && idx == old(idx)
      ensures old(cur).Some? ==> forall c :: 0 <= c < |outIdx| ==> outIdx[c] <= idx
      ensures old(cur).None? ==> outIdx == old(outIdx)
    {
      hide Groups, Overflows, Tally, Indexable, Samples, QuantilesOf, IndexOf;
      if cur.None? {
        return;
      }
      AppendGroup(w, closed, open, idx, out, outIdx);
      out := out + [cur.value.(quantiles := QuantilesOf(pool, COLUMN_QUANTILES))];
      outIdx := outIdx + [idx];
      cur, pool := None, [];
      NoSamples();
      closed, open := rows, [];
    }

    /** `add`: false when the column would hold more samples than one read may. */
    method Add(m: Row) returns (ok: bool)
      requires Valid() && Ready()
      requires from <= m.ts < to
      requires forall k :: 0 <= k < |rows| ==> from <= rows[k].ts <= m.ts
      modifies this
      ensures ok ==> Valid() && Ready() && rows == old(rows) + [m]
      ensures ok <==> !Overflows(w, old(rows) + [m])
    {
      hide Groups, Overflows, Tally, Indexable, Samples, IndexOf, Start, Column;
      var i := StartColumn(m);
      assert closed + open == rows;
      TallyStep(w, i, open, m);
      OverflowStep(w, closed, out, outIdx, open, m, i);
      cur := Some(cur.value.(rounds := cur.value.rounds + 1,
                             sent := cur.value.sent + m.sent,
                             received := cur.value.received + m.received));
      if m.flags != 0 {
        cur := Some(cur.value.(flags := cur.value.flags | m.flags, flagged := cur.value.flagged + 1));
      }
      if |pool| + |m.samples| > MAX_SAMPLES_PER_READ {
        return false;
      }
      pool := pool + m.samples;
      open := open + [m];
      rows := rows + [m];
      assert rows == closed + open;
      return true;
    }

    /** The first half of `add`: moves on to the column of `m`, closing the one before it. */
    method StartColumn(m: Row) returns (i: Uint64)
      requires Valid() && Ready()
      requires from <= m.ts < to
      requires forall k :: 0 <= k < |rows| ==> from <= rows[k].ts <= m.ts
      modifies this
      ensures Filling() && idx == i && IndexOf(w, m.ts) == i as int && rows == old(rows)
    {
      hide Groups, Overflows, Tally, Samples, Start, Column, IndexOf, Indexable, ColumnDefined, Spans;
      ColumnReady(w, from, to, m.ts);
      i := Column(w, m.ts);
      NotBefore(w, from, to, rows, m.ts);
      if cur.None? || i != idx {
        assert cur.Some? ==> rows[|closed|] == open[0];
        Close();
        NoSamples();
        idx := i;
        cur := Some(Tally(w, i, []));
      }
    }

    method Finish() returns (cols: seq<Pixel>)
      requires Valid()
      modifies this
      ensures Valid() && cols == out && closed == rows == old(rows) && cur.None?
      ensures Groups(w, rows, cols, outIdx)
    {
      Close();
      return out;
    }
  }

  // ---------------------------------------------------------------- conservation

  function ColumnSum(cols: seq<Pixel>, f: Pixel -> int): int {
    if cols == [] then 0 else ColumnSum(cols[..|cols| - 1], f) + f(cols[|cols| - 1])
  }

  function RoundsIn(p: Pixel): int { p.rounds }
  function SentIn(p: Pixel): int { p.sent }
  function ReceivedIn(p: Pixel): int { p.received }
  function FlaggedIn(p: Pixel): int { p.flagged }

  function ColumnFlags(cols: seq<Pixel>): bv8 {
    if cols == [] then 0 else ColumnFlags(cols[..|cols| - 1]) | cols[|cols| - 1].flags
  }

  function TotalOf(w: Window, rows: seq<Row>, at: seq<Uint64>, f: Row -> int): int {
    if at == [] then 0
    else TotalOf(w, rows, at[..|at| - 1], f) + SumOf(Group(w, rows, at[|at| - 1] as int), f)
  }

  function FlagsOf(w: Window, rows: seq<Row>, at: seq<Uint64>): bv8 {
    if at == [] then 0
    else FlagsOf(w, rows, at[..|at| - 1]) | OrFlags(Group(w, rows, at[|at| - 1] as int))
  }

  lemma {:induction false} TotalOfNothing(w: Window, at: seq<Uint64>, f: Row -> int)
    ensures TotalOf(w, [], at, f) == 0 && FlagsOf(w, [], at) == 0
  {
    if at != [] { TotalOfNothing(w, at[..|at| - 1], f); }
  }

  lemma GroupOneMore(w: Window, rows: seq<Row>, r: Row, i: int, f: Row -> int)
    ensures SumOf(Group(w, rows + [r], i), f) ==
            SumOf(Group(w, rows, i), f) + if IndexOf(w, r.ts) == i then f(r) else 0
    ensures OrFlags(Group(w, rows + [r], i)) ==
            OrFlags(Group(w, rows, i)) | if IndexOf(w, r.ts) == i then r.flags else 0
  {
    hide IndexOf;
    assert (rows + [r])[..|rows|] == rows;
    var g := Group(w, rows, i);
    assert (g + [r])[..|g|] == g;
    assert g + [] == g;
  }

  /** A row adds to the total of exactly one column, if its column is listed at all. */
  lemma {:induction false} TotalStep(w: Window, rows: seq<Row>, r: Row, at: seq<Uint64>, f: Row -> int)
    requires forall c, d :: 0 <= c < d < |at| ==> at[c] < at[d]
    ensures TotalOf(w, rows + [r], at, f) ==
            TotalOf(w, rows, at, f) + if Covered(at, IndexOf(w, r.ts)) then f(r) else 0
    ensures FlagsOf(w, rows + [r], at) ==
            FlagsOf(w, rows, at) | if Covered(at, IndexOf(w, r.ts)) then r.flags else 0
  {
    hide IndexOf, Group, SumOf, OrFlags;
    if at != [] {
      hide Covered;
      var last := |at| - 1;
      TotalStep(w, rows, r, at[..last], f);
      CoveredSplit(at, IndexOf(w, r.ts));
      GroupOneMore(w, rows, r, at[last] as int, f);
    }
  }

  lemma CoveredSplit(at: seq<Uint64>, i: int)
    requires at != [] && forall c, d :: 0 <= c < d < |at| ==> at[c] < at[d]
    ensures Covered(at, i) <==> Covered(at[..|at| - 1], i) || at[|at| - 1] as int == i
    ensures !(Covered(at[..|at| - 1], i) && at[|at| - 1] as int == i)
  {
    var t := at[..|at| - 1];
    if Covered(at, i) {
      var c :| 0 <= c < |at| && at[c] as int == i;
      assert c < |t| ==> t[c] as int == i;
    }
    if Covered(t, i) {
      var c :| 0 <= c < |t| && t[c] as int == i;
      assert at[c] as int == i && at[c] < at[|at| - 1];
    }
  }

  lemma {:induction false} TotalIsSum(w: Window, rows: seq<Row>, at: seq<Uint64>, f: Row -> int)
    requires forall c, d :: 0 <= c < d < |at| ==> at[c] < at[d]
    requires forall k :: 0 <= k < |rows| ==> Covered(at, IndexOf(w, rows[k].ts))
    ensures TotalOf(w, rows, at, f) == SumOf(rows, f) && FlagsOf(w, rows, at) == OrFlags(rows)
  {
    hide IndexOf, Covered;
    if rows == [] {
      TotalOfNothing(w, at, f);
    } else {
      var last := |rows| - 1;
      TotalIsSum(w, rows[..last], at, f);
      TotalStep(w, rows[..last], rows[last], at, f);
      assert rows[..last] + [rows[last]] == rows;
    }
  }

  lemma {:induction false} SumOfOnes(rows: seq<Row>)
    ensures SumOf(rows, One) == |rows|
  {
    if rows != [] { SumOfOnes(rows[..|rows| - 1]); }
  }

  lemma {:induction false} ColumnsCarryTotals(w: Window, rows: seq<Row>, cols: seq<Pixel>, at: seq<Uint64>)
    requires |cols| == |at| && forall c :: 0 <= c < |at| ==> Indexable(w, at[c])
    requires forall c :: 0 <= c < |at| ==> cols[c] == Summary(w, at[c], Group(w, rows, at[c] as int))
    ensures ColumnSum(cols, RoundsIn) == TotalOf(w, rows, at, One)
    ensures ColumnSum(cols, SentIn) == TotalOf(w, rows, at, SentOf)
    ensures ColumnSum(cols, ReceivedIn) == TotalOf(w, rows, at, ReceivedOf)
    ensures ColumnSum(cols, FlaggedIn) == TotalOf(w, rows, at, FlaggedOf)
    ensures ColumnFlags(cols) == FlagsOf(w, rows, at)
  {
    hide Indexable, Group, QuantilesOf, Start;
    if at != [] {
      ColumnsCarryTotals(w, rows, cols[..|cols| - 1], at[..|at| - 1]);
      SumOfOnes(Group(w, rows, at[|at| - 1] as int));
    }
  }

  /** Pooling loses no interval, probe, reply or flag: the columns add up to the rows. */
  lemma PoolingConserves(w: Window, rows: seq<Row>, cols: seq<Pixel>, at: seq<Uint64>)
    requires Groups(w, rows, cols, at)
    ensures ColumnSum(cols, RoundsIn) == |rows|
    ensures ColumnSum(cols, SentIn) == SumOf(rows, SentOf)
    ensures ColumnSum(cols, ReceivedIn) == SumOf(rows, ReceivedOf)
    ensures ColumnSum(cols, FlaggedIn) == SumOf(rows, FlaggedOf)
    ensures ColumnFlags(cols) == OrFlags(rows)
  {
    hide Covered, Summary, Indexable, IndexOf, Group;
    ColumnsCarryTotals(w, rows, cols, at);
    TotalIsSum(w, rows, at, One);
    TotalIsSum(w, rows, at, SentOf);
    TotalIsSum(w, rows, at, ReceivedOf);
    TotalIsSum(w, rows, at, FlaggedOf);
    SumOfOnes(rows);
  }

  lemma {:induction false} GroupHasRow(w: Window, rows: seq<Row>, i: int)
    requires Group(w, rows, i) != []
    ensures exists k :: 0 <= k < |rows| && IndexOf(w, rows[k].ts) == i
  {
    if forall k :: 0 <= k < |rows| ==> IndexOf(w, rows[k].ts) != i {
      GroupAbsent(w, rows, i);
    }
  }

  lemma ColumnsAreTheNonEmptyGroups(w: Window, rows: seq<Row>, cols: seq<Pixel>, at: seq<Uint64>, i: int)
    requires Groups(w, rows, cols, at)
    ensures Covered(at, i) <==> Group(w, rows, i) != []
  {
    hide IndexOf, Indexable, Summary;
    if Group(w, rows, i) != [] {
      GroupHasRow(w, rows, i);
    }
  }

  lemma CoversItsOwn(a: seq<Uint64>, c: nat)
    requires c < |a|
    ensures Covered(a, a[c] as int)
  {
  }

  lemma AtMostTheLast(a: seq<Uint64>, i: int)
    requires Covered(a, i) && forall c, d :: 0 <= c < d < |a| ==> a[c] < a[d]
    ensures a != [] && i <= a[|a| - 1] as int
  {
  }

  lemma LastSame(a: seq<Uint64>, b: seq<Uint64>)
    requires forall c, d :: 0 <= c < d < |a| ==> a[c] < a[d]
    requires forall c, d :: 0 <= c < d < |b| ==> b[c] < b[d]
    requires (forall i :: Covered(a, i) <==> Covered(b, i)) && (a != [] || b != [])
    ensures a != [] && b != [] && a[|a| - 1] == b[|b| - 1]
  {
    hide Covered;
    if a != [] {
      CoversItsOwn(a, |a| - 1);
      AtMostTheLast(b, a[|a| - 1] as int);
    }
    if b != [] {
      CoversItsOwn(b, |b| - 1);
      AtMostTheLast(a, b[|b| - 1] as int);
    }
  }

  lemma {:induction false} IncreasingSame(a: seq<Uint64>, b: seq<Uint64>)
    requires forall c, d :: 0 <= c < d < |a| ==> a[c] < a[d]
    requires forall c, d :: 0 <= c < d < |b| ==> b[c] < b[d]
    requires forall i :: Covered(a, i) <==> Covered(b, i)
    ensures a == b
  {
    hide Covered;
    if a != [] || b != [] {
      LastSame(a, b);
      var la, lb := |a| - 1, |b| - 1;
      forall i ensures Covered(a[..la], i) <==> Covered(b[..lb], i) {
        CoveredSplit(a, i);
        CoveredSplit(b, i);
      }
      IncreasingSame(a[..la], b[..lb]);
      assert a == a[..la] + [a[la]] && b == b[..lb] + [b[lb]];
    }
  }

  /** A grouping is determined by the rows: two reads that group the same rows return the same
      columns, wherever either of them switched from raw to pooled. */
  lemma GroupsUnique(w: Window, rows: seq<Row>, c1: seq<Pixel>, a1: seq<Uint64>, c2: seq<Pixel>, a2: seq<Uint64>)
    requires Groups(w, rows, c1, a1) && Groups(w, rows, c2, a2)
    ensures c1 == c2 && a1 == a2
  {
    hide Covered, Indexable, Summary, Group;
    forall i ensures Covered(a1, i) <==> Covered(a2, i) {
      ColumnsAreTheNonEmptyGroups(w, rows, c1, a1, i);
      ColumnsAreTheNonEmptyGroups(w, rows, c2, a2, i);
    }
    IncreasingSame(a1, a2);
  }
}
