/** What a pooled read says of the rows it was given (internal/store/columns.go `QueryColumns`), from its columns
    alone: where each begins and ends, and what lies in between. */
module ColumnSpans {
  import opened Columns
  import opened Quantiles
  import opened Pooling
  import opened ColumnRead

  // ---------------------------------------------------------------- the rows of a span

  predicate Between(from: Int64, ts: Int64, to: Int64) { from <= ts < to }

  function Spanned(rows: seq<Row>, from: Int64, to: Int64): seq<Row> {
    if rows == [] then []
    else
      var n := |rows| - 1;
      if Between(from, rows[n].ts, to) then Spanned(rows[..n], from, to) + [rows[n]] else Spanned(rows[..n], from, to)
  }

  function SpannedSeries(rows: seq<SeriesRow>, name: string, from: Int64, to: Int64): seq<int> {
    if rows == [] then []
    else
      var n := |rows| - 1;
      SpannedSeries(rows[..n], name, from, to) +
        if Between(from, rows[n].ts, to) && rows[n].name == name && rows[n].vals.Some? then rows[n].vals.value else []
  }

  function Adds(rows: seq<Row>, f: Row -> int): int {
    if rows == [] then 0 else f(rows[|rows| - 1]) + Adds(rows[..|rows| - 1], f)
  }

  function AllSamples(rows: seq<Row>): multiset<int> {
    if rows == [] then multiset{} else AllSamples(rows[..|rows| - 1]) + multiset(rows[|rows| - 1].samples)
  }

  ghost predicate Flags(rows: seq<Row>, mask: bv8) { exists r :: r in rows && r.flags & mask != 0 }

  ghost function Indices(rows: seq<Row>, from: Int64, to: Int64): set<int> {
    set k | 0 <= k < |rows| && Between(from, rows[k].ts, to)
  }

  lemma {:induction false} SpannedCounts(rows: seq<Row>, from: Int64, to: Int64)
    ensures |Spanned(rows, from, to)| == |Indices(rows, from, to)|
  {
    if rows == [] {
      assert Indices(rows, from, to) == {};
    } else {
      var n := |rows| - 1;
      SpannedCounts(rows[..n], from, to);
      IndicesSplit(rows, from, to);
      hide Indices, Between;
    }
  }

  lemma IndicesSplit(rows: seq<Row>, from: Int64, to: Int64)
    requires rows != []
    ensures var n := |rows| - 1;
      && n !in Indices(rows[..n], from, to)
      && Indices(rows, from, to) ==
           if Between(from, rows[n].ts, to) then Indices(rows[..n], from, to) + {n} else Indices(rows[..n], from, to)
  {
    hide Between;
    var n := |rows| - 1;
    forall k | 0 <= k < n ensures rows[..n][k] == rows[k] {
    }
  }

  lemma {:induction false} SpannedAre(rows: seq<Row>, from: Int64, to: Int64)
    ensures forall r :: r in Spanned(rows, from, to) <==> r in rows && Between(from, r.ts, to)
  {
    hide Between;
    if rows != [] {
      var n := |rows| - 1;
      SpannedAre(rows[..n], from, to);
      assert rows == rows[..n] + [rows[n]];
    }
  }

  lemma {:induction false} AddsAre(rows: seq<Row>, f: Row -> int)
    ensures Adds(rows, f) == SumOf(rows, f)
  {
    if rows != [] { AddsAre(rows[..|rows| - 1], f); }
  }

  lemma {:induction false} SamplesAre(rows: seq<Row>)
    ensures AllSamples(rows) == multiset(Samples(rows))
  {
    if rows != [] { SamplesAre(rows[..|rows| - 1]); }
  }

  lemma MaskedOr(a: bv8, b: bv8, mask: bv8)
    ensures (a | b) & mask != 0 <==> a & mask != 0 || b & mask != 0
  {
  }

  lemma {:induction false} FlagsAre(rows: seq<Row>, mask: bv8)
    ensures OrFlags(rows) & mask != 0 <==> Flags(rows, mask)
  {
    if rows != [] {
      var n := |rows| - 1;
      FlagsAre(rows[..n], mask);
      MaskedOr(OrFlags(rows[..n]), rows[n].flags, mask);
      FlagsSplit(rows, mask);
      hide Flags;
    } else {
      assert (0 as bv8) & mask == 0;
    }
  }

  lemma FlagsSplit(rows: seq<Row>, mask: bv8)
    requires rows != []
    ensures var n := |rows| - 1;
      Flags(rows, mask) <==> Flags(rows[..n], mask) || rows[n].flags & mask != 0
  {
    var n := |rows| - 1;
    assert forall r :: r in rows <==> r in rows[..n] || r == rows[n];
  }

  // ---------------------------------------------------------------- a column's rows are those of its span

  lemma IndexIsSpan(w: Window, from: Int64, to: Int64, ts: Int64, i: Uint64)
    requires Spans(w, from, to) && from <= ts < to && i < w.n
    ensures StartDefined(w, i) && StartDefined(w, i + 1)
    ensures IndexOf(w, ts) == i as int <==> Between(Start(w, i), ts, Start(w, i + 1))
  {
    hide Start, Column, Spans;
    ColumnIsInterval(w, from, to, ts, i);
  }

  lemma {:induction false} GroupIsSpan(w: Window, from: Int64, to: Int64, rows: seq<Row>, i: Uint64)
    requires Spans(w, from, to) && i < w.n && forall k :: 0 <= k < |rows| ==> from <= rows[k].ts < to
    ensures StartDefined(w, i) && StartDefined(w, i + 1)
    ensures Group(w, rows, i as int) == Spanned(rows, Start(w, i), Start(w, i + 1))
  {
    hide Start, Column, Spans, IndexOf, Between, StartDefined;
    StartsAreDefined(w, from, to, i);
    if rows != [] {
      var n := |rows| - 1;
      GroupIsSpan(w, from, to, rows[..n], i);
      IndexIsSpan(w, from, to, rows[n].ts, i);
    }
  }

  lemma StartsAreDefined(w: Window, from: Int64, to: Int64, i: Uint64)
    requires Spans(w, from, to) && i < w.n
    ensures StartDefined(w, i) && StartDefined(w, i + 1) && Indexable(w, i)
  {
    StartIs(w, from, to, i);
    StartIs(w, from, to, i + 1);
    hide Start, StartDefined, Spans;
  }

  lemma {:induction false} SeriesIsSpan(w: Window, from: Int64, to: Int64, rows: seq<SeriesRow>, name: string,
                                        i: Uint64)
    requires Spans(w, from, to) && i < w.n && forall k :: 0 <= k < |rows| ==> from <= rows[k].ts < to
    ensures StartDefined(w, i) && StartDefined(w, i + 1)
    ensures ValuesOf(w, rows, i as int, name) == SpannedSeries(rows, name, Start(w, i), Start(w, i + 1))
    ensures (exists k :: 0 <= k < |rows| && Measures(w, rows[k], i as int, name)) <==>
      exists k :: 0 <= k < |rows| && Measured(rows[k], name, Start(w, i), Start(w, i + 1))
  {
    hide Start, Column, Spans, IndexOf, Between, StartDefined;
    StartsAreDefined(w, from, to, i);
    forall k | 0 <= k < |rows|
      ensures Measures(w, rows[k], i as int, name) <==> Measured(rows[k], name, Start(w, i), Start(w, i + 1))
    {
      IndexIsSpan(w, from, to, rows[k].ts, i);
    }
    if rows != [] {
      var n := |rows| - 1;
      SeriesIsSpan(w, from, to, rows[..n], name, i);
    }
  }

  predicate Measured(r: SeriesRow, name: string, from: Int64, to: Int64) {
    Between(from, r.ts, to) && r.name == name && r.vals.Some?
  }

  // ---------------------------------------------------------------- what a column says

  /** The counts, flags and quantiles of the rows between a column's two ends. */
  ghost predicate SaysItsRows(rows: seq<Row>, p: Pixel) {
    var mine := Spanned(rows, p.from, p.to);
    && p.rounds == |Indices(rows, p.from, p.to)|
    && p.sent == Adds(mine, (r: Row) => r.sent) && p.received == Adds(mine, (r: Row) => r.received)
    && p.flagged == Adds(mine, (r: Row) => if r.flags == 0 then 0 else 1)
    && (forall mask :: p.flags & mask != 0 <==> Flags(mine, mask))
    && exists pool :: multiset(pool) == AllSamples(mine) && p.quantiles == QuantilesOf(pool, 256)
  }

  /** .. and the quantiles of every series that some row there measured, readably. */
  ghost predicate SaysItsSeries(rows: seq<SeriesRow>, p: Pixel) {
    forall name ::
      && (name in p.series <==> exists k :: 0 <= k < |rows| && Measured(rows[k], name, p.from, p.to))
      && (name in p.series ==> p.series[name] == QuantilesOf(SpannedSeries(rows, name, p.from, p.to), 256))
  }

  /** The i-th of n equal parts of the window, in whole seconds: from the first at or past i/n of it to the first at
      or past (i + 1)/n. */
  ghost predicate IsPart(from: int, to: int, n: int, i: int, p: Pixel) {
    && 0 <= i < n
    && (p.from as int - from - 1) * n < i * (to - from) <= (p.from as int - from) * n
    && (p.to as int - from - 1) * n < (i + 1) * (to - from) <= (p.to as int - from) * n
  }

  ghost predicate Begins(w: Window, i: Uint64, p: Pixel) {
    i < w.n && Indexable(w, i) && p.from == Start(w, i) && p.to == Start(w, i + 1)
  }

  ghost predicate IsSomePart(from: int, to: int, n: int, p: Pixel) { exists i :: IsPart(from, to, n, i, p) }

  lemma OneColumn(w: Window, from: Int64, to: Int64, rows: seq<Row>, series: seq<SeriesRow>, i: Uint64, p: Pixel)
    requires Spans(w, from, to) && i < w.n && Indexable(w, i) && Group(w, rows, i as int) != []
    requires forall k :: 0 <= k < |rows| ==> from <= rows[k].ts < to
    requires forall k :: 0 <= k < |series| ==> from <= series[k].ts < to
    requires p == Summary(w, i, Group(w, rows, i as int)).(series := Finished(PoolsAt(w, series, i as int)))
    ensures Begins(w, i, p) && from <= p.from < p.to <= to
    ensures SaysItsRows(rows, p) && SaysItsSeries(series, p) && IsPart(from as int, to as int, w.n as int, i as int, p)
  {
    GroupIsSpan(w, from, to, rows, i);
    PartIs(w, from, to, i, p);
    RowsSaid(w, rows, i, p);
    SeriesSaid(w, from, to, series, i, p);
    SpannedAre(rows, p.from, p.to);
    BeginsIs(w, i, p);
    hide *;
    var mine := Spanned(rows, p.from, p.to);
    assert mine[0] in mine;
    BetweenGives(p.from, mine[0].ts, p.to);
  }

  lemma BeginsIs(w: Window, i: Uint64, p: Pixel)
    requires i < w.n && Indexable(w, i) && p.from == Start(w, i) && p.to == Start(w, i + 1)
    ensures Begins(w, i, p)
  {
    hide Indexable, Start;
  }

  lemma BetweenGives(from: Int64, ts: Int64, to: Int64)
    requires Between(from, ts, to)
    ensures from < to
  {
  }

  lemma PartIs(w: Window, from: Int64, to: Int64, i: Uint64, p: Pixel)
    requires Spans(w, from, to) && i < w.n && Indexable(w, i) && p.from == Start(w, i) && p.to == Start(w, i + 1)
    ensures IsPart(from as int, to as int, w.n as int, i as int, p) && from <= p.from && p.to <= to
  {
    StartIs(w, from, to, i);
    StartIs(w, from, to, i + 1);
    var a, b, n, span := p.from as int - from as int, p.to as int - from as int, w.n as int, to as int - from as int;
    CeilDivAtMost(i as int * span, n, a);
    CeilDivAtMost(i as int * span, n, a - 1);
    CeilDivAtMost((i as int + 1) * span, n, b);
    CeilDivAtMost((i as int + 1) * span, n, b - 1);
    hide CeilDiv, Start;
  }

  lemma RowsSaid(w: Window, rows: seq<Row>, i: Uint64, p: Pixel)
    requires Indexable(w, i) && Group(w, rows, i as int) == Spanned(rows, Start(w, i), Start(w, i + 1))
    requires p == Summary(w, i, Group(w, rows, i as int)).(series := p.series)
    ensures p.from == Start(w, i) && p.to == Start(w, i + 1) && SaysItsRows(rows, p)
  {
    hide Group, Spanned, Samples, SumOf, OrFlags, QuantilesOf, Start, AllSamples, Adds, Flags, Indices;
    var mine := Spanned(rows, p.from, p.to);
    SpannedCounts(rows, p.from, p.to);
    AddsAre(mine, SentOf);
    AddsAre(mine, ReceivedOf);
    AddsAre(mine, FlaggedOf);
    SameAdds(mine, SentOf, (r: Row) => r.sent);
    SameAdds(mine, ReceivedOf, (r: Row) => r.received);
    SameAdds(mine, FlaggedOf, (r: Row) => if r.flags == 0 then 0 else 1);
    forall mask ensures p.flags & mask != 0 <==> Flags(mine, mask) {
      FlagsAre(mine, mask);
    }
    SamplesAre(mine);
    assert multiset(Samples(mine)) == AllSamples(mine) && p.quantiles == QuantilesOf(Samples(mine), 256);
  }

  lemma {:induction false} SameAdds(rows: seq<Row>, f: Row -> int, g: Row -> int)
    requires forall r :: f(r) == g(r)
    ensures Adds(rows, f) == Adds(rows, g)
  {
    if rows != [] { SameAdds(rows[..|rows| - 1], f, g); }
  }

  lemma SeriesSaid(w: Window, from: Int64, to: Int64, series: seq<SeriesRow>, i: Uint64, p: Pixel)
    requires Spans(w, from, to) && i < w.n && Indexable(w, i) && p.from == Start(w, i) && p.to == Start(w, i + 1)
    requires forall k :: 0 <= k < |series| ==> from <= series[k].ts < to
    requires p.series == Finished(PoolsAt(w, series, i as int))
    ensures SaysItsSeries(series, p)
  {
    hide Start, PoolsAt, QuantilesOf, Spans, Indexable, StartDefined, Measures, Measured, ValuesOf, SpannedSeries;
    forall name
      ensures name in p.series <==> exists k :: 0 <= k < |series| && Measured(series[k], name, p.from, p.to)
      ensures name in p.series ==> p.series[name] == QuantilesOf(SpannedSeries(series, name, p.from, p.to), 256)
    {
      SeriesIsSpan(w, from, to, series, name, i);
      PoolsMeaning(w, series, i as int, name);
    }
  }

  // ---------------------------------------------------------------- the read

  ghost predicate Holds(p: Pixel, ts: Int64) { p.from <= ts < p.to }

  ghost predicate Before(p: Pixel, q: Pixel) { p.to <= q.from }

  ghost predicate InTurn(cols: seq<Pixel>) {
    forall c, d :: 0 <= c < d < |cols| ==> Before(cols[c], cols[d])
  }

  lemma NotBoth(p: Pixel, q: Pixel, ts: Int64)
    requires Before(p, q)
    ensures !(Holds(p, ts) && Holds(q, ts))
  {
  }

  ghost predicate InOneColumn(cols: seq<Pixel>, ts: Int64) {
    exists c :: 0 <= c < |cols| && Holds(cols[c], ts) && forall d :: 0 <= d < |cols| && Holds(cols[d], ts) ==> d == c
  }

  /** A pooled read: its columns lie in the window, one after the other, each one of the n equal parts; every row
      lies in exactly one of them, and each says exactly the rows and the series between its two ends. */
  lemma ColumnsSayTheRows(from: Int64, to: Int64, n: Int64, rows: seq<Row>, series: seq<SeriesRow>, cols: seq<Pixel>)
    requires n >= 1 && InWindow(from, to, rows) && ColumnRead.InOrder(from, to, series)
    requires PooledRead(from, to, n, rows, series, cols)
    ensures forall c :: 0 <= c < |cols| ==> from <= cols[c].from < cols[c].to <= to
    ensures InTurn(cols)
    ensures forall k :: 0 <= k < |rows| ==> InOneColumn(cols, rows[k].ts)
    ensures forall c :: 0 <= c < |cols| ==> SaysItsRows(rows, cols[c]) && SaysItsSeries(series, cols[c])
    ensures forall c :: 0 <= c < |cols| ==> IsSomePart(from as int, to as int, n as int, cols[c])
  {
    hide Groups, SeriesPooled, InWindow, ColumnRead.InOrder, NewWindow, InTurn, InOneColumn, SaysItsRows, SaysItsSeries,
         IsSomePart;
    var bare, at :| Groups(NewWindow(from, to, n), rows, bare, at)
      && SeriesPooled(NewWindow(from, to, n), series, bare, at, cols);
    TheseColumnsSay(from, to, n, rows, series, bare, at, cols);
  }

  lemma TheseColumnsSay(from: Int64, to: Int64, n: Int64, rows: seq<Row>, series: seq<SeriesRow>, bare: seq<Pixel>,
                        at: seq<Uint64>, cols: seq<Pixel>)
    requires n >= 1 && InWindow(from, to, rows) && ColumnRead.InOrder(from, to, series)
    requires Groups(NewWindow(from, to, n), rows, bare, at)
    requires SeriesPooled(NewWindow(from, to, n), series, bare, at, cols)
    ensures forall c :: 0 <= c < |cols| ==> from <= cols[c].from < cols[c].to <= to
    ensures InTurn(cols)
    ensures forall k :: 0 <= k < |rows| ==> InOneColumn(cols, rows[k].ts)
    ensures forall c :: 0 <= c < |cols| ==> SaysItsRows(rows, cols[c]) && SaysItsSeries(series, cols[c])
    ensures forall c :: 0 <= c < |cols| ==> IsSomePart(from as int, to as int, n as int, cols[c])
  {
    hide *;
    var w := NewWindow(from, to, n);
    if rows == [] {
      NoColumns(w, series, bare, at, cols);
    } else {
      RowsLieInside(from, to, rows);
      WindowSpans(from, to, n);
      OneEach(w, series, bare, at, cols);
      forall c | 0 <= c < |cols|
        ensures Begins(w, at[c], cols[c])
        ensures from <= cols[c].from < cols[c].to <= to
        ensures SaysItsRows(rows, cols[c]) && SaysItsSeries(series, cols[c])
        ensures IsSomePart(from as int, to as int, n as int, cols[c])
      {
        ColumnGiven(w, from, to, rows, series, bare, at, cols, c);
        OneColumn(w, from, to, rows, series, at[c], cols[c]);
        PartFound(from as int, to as int, n as int, at[c] as int, cols[c]);
      }
      forall c, d | 0 <= c < d < |cols| ensures Before(cols[c], cols[d]) {
        ColumnsApart(w, from, to, rows, bare, at, cols, c, d);
      }
      InTurnIs(cols);
      forall k | 0 <= k < |rows| ensures InOneColumn(cols, rows[k].ts) {
        var c := ColumnOfRow(w, from, to, rows, series, bare, at, cols, k);
        OnlyOne(cols, c, rows[k].ts);
      }
    }
  }

  lemma OneEach(w: Window, series: seq<SeriesRow>, bare: seq<Pixel>, at: seq<Uint64>, cols: seq<Pixel>)
    requires SeriesPooled(w, series, bare, at, cols)
    ensures |at| == |cols|
  {
    hide Finished, PoolsAt;
  }

  lemma RowsLieInside(from: Int64, to: Int64, rows: seq<Row>)
    requires InWindow(from, to, rows) && rows != []
    ensures from < to
  {
    assert from <= rows[0].ts < to;
  }

  lemma PartFound(from: int, to: int, n: int, i: int, p: Pixel)
    requires IsPart(from, to, n, i, p)
    ensures IsSomePart(from, to, n, p)
  {
    hide IsPart;
  }

  lemma NoColumns(w: Window, series: seq<SeriesRow>, bare: seq<Pixel>, at: seq<Uint64>, cols: seq<Pixel>)
    requires Groups(w, [], bare, at) && SeriesPooled(w, series, bare, at, cols)
    ensures cols == [] && InTurn(cols)
  {
    hide Summary, Indexable, IndexOf, Finished, PoolsAt;
    assert at == [] || Group(w, [], at[0] as int) == [];
  }

  lemma WindowSpans(from: Int64, to: Int64, n: Int64)
    requires from < to && n >= 1
    ensures Spans(NewWindow(from, to, n), from, to) && NewWindow(from, to, n).n as int == n as int
  {
  }

  lemma ColumnGiven(w: Window, from: Int64, to: Int64, rows: seq<Row>, series: seq<SeriesRow>, bare: seq<Pixel>,
                    at: seq<Uint64>, cols: seq<Pixel>, c: nat)
    requires Groups(w, rows, bare, at) && SeriesPooled(w, series, bare, at, cols) && c < |cols|
    requires Spans(w, from, to) && InWindow(from, to, rows) && ColumnRead.InOrder(from, to, series)
    ensures c < |at| == |cols| && at[c] < w.n && Indexable(w, at[c]) && Group(w, rows, at[c] as int) != []
    ensures forall k :: 0 <= k < |rows| ==> from <= rows[k].ts < to
    ensures forall k :: 0 <= k < |series| ==> from <= series[k].ts < to
    ensures cols[c] ==
      Summary(w, at[c], Group(w, rows, at[c] as int)).(series := Finished(PoolsAt(w, series, at[c] as int)))
  {
    hide Summary, Indexable, Group, Finished, PoolsAt, Spans, Column, ColumnDefined;
    GroupHasRow(w, rows, at[c] as int);
    var k :| 0 <= k < |rows| && IndexOf(w, rows[k].ts) == at[c] as int;
    ColumnIs(w, from, to, rows[k].ts);
  }

  lemma InTurnIs(cols: seq<Pixel>)
    requires forall c, d :: 0 <= c < d < |cols| ==> Before(cols[c], cols[d])
    ensures InTurn(cols)
  {
    hide Before;
  }

  lemma ColumnsApart(w: Window, from: Int64, to: Int64, rows: seq<Row>, bare: seq<Pixel>, at: seq<Uint64>,
                     cols: seq<Pixel>, c: nat, d: nat)
    requires Groups(w, rows, bare, at) && Spans(w, from, to) && c < d < |at| == |cols|
    requires Begins(w, at[c], cols[c]) && Begins(w, at[d], cols[d])
    ensures Before(cols[c], cols[d])
  {
    assert at[c] < at[d];
    hide Groups, Start, Spans;
    StartsAscend(w, from, to, at[c] + 1, at[d]);
  }

  lemma ColumnOfRow(w: Window, from: Int64, to: Int64, rows: seq<Row>, series: seq<SeriesRow>, bare: seq<Pixel>,
                    at: seq<Uint64>, cols: seq<Pixel>, k: nat) returns (c: nat)
    requires Groups(w, rows, bare, at) && SeriesPooled(w, series, bare, at, cols) && k < |rows|
    requires Spans(w, from, to) && InWindow(from, to, rows)
    requires forall c :: 0 <= c < |cols| ==> c < |at| && Begins(w, at[c], cols[c])
    ensures c < |cols| && Holds(cols[c], rows[k].ts)
  {
    hide Start, Spans, Indexable, Summary, Group, IndexOf, Finished, PoolsAt;
    assert Covered(at, IndexOf(w, rows[k].ts));
    c :| 0 <= c < |at| && at[c] as int == IndexOf(w, rows[k].ts);
    IndexIsSpan(w, from, to, rows[k].ts, at[c]);
  }

  lemma OnlyOne(cols: seq<Pixel>, c: nat, ts: Int64)
    requires c < |cols| && Holds(cols[c], ts) && InTurn(cols)
    ensures InOneColumn(cols, ts)
  {
    hide Holds, Before;
    forall d | 0 <= d < |cols| && Holds(cols[d], ts) ensures d == c {
      if d < c { NotBoth(cols[d], cols[c], ts); }
      if c < d { NotBoth(cols[c], cols[d], ts); }
    }
  }

  // ---------------------------------------------------------------- the limits

  /** A read is raw when it has at most n rows, and they at most twenty million replies. */
  lemma RawExactly(rows: seq<Row>, n: Int64)
    ensures FitsRaw(rows, n) <==> |rows| <= n as int && Adds(rows, (r: Row) => r.received) <= 20_000_000
  {
    AddsAre(rows, ReceivedOf);
    SameAdds(rows, ReceivedOf, (r: Row) => r.received);
    hide Adds, SumOf;
  }

  ghost predicate PartOverflows(w: Window, rows: seq<Row>, i: Uint64) {
    i < w.n && Indexable(w, i) && |AllSamples(Spanned(rows, Start(w, i), Start(w, i + 1)))| > 20_000_000
  }

  /** A read has too many samples exactly when some one of the n parts holds more than twenty million. */
  lemma TooManySamplesExactly(from: Int64, to: Int64, n: Int64, rows: seq<Row>)
    requires n >= 1 && InWindow(from, to, rows)
    ensures var w := NewWindow(from, to, n);
      Overflows(w, rows) <==> exists i :: PartOverflows(w, rows, i)
  {
    var w := NewWindow(from, to, n);
    hide *;
    if rows == [] {
      NothingOverflows(w);
    } else {
      RowsLieInside(from, to, rows);
      WindowSpans(from, to, n);
      InsideWindow(from, to, rows);
      if Overflows(w, rows) {
        var i := OverflowingColumn(w, from, to, rows);
        PartIsGroup(w, from, to, rows, i);
      }
      if i :| PartOverflows(w, rows, i) {
        PartGives(w, rows, i);
        PartIsGroup(w, from, to, rows, i);
        OverflowsIs(w, rows, i as int);
      }
    }
  }

  lemma NothingOverflows(w: Window)
    ensures !Overflows(w, []) && forall i :: !PartOverflows(w, [], i)
  {
    hide Start, Indexable;
    forall i ensures |Samples(Group(w, [], i))| == 0 {
    }
  }

  lemma InsideWindow(from: Int64, to: Int64, rows: seq<Row>)
    requires InWindow(from, to, rows)
    ensures forall k :: 0 <= k < |rows| ==> from <= rows[k].ts < to
  {
  }

  lemma PartGives(w: Window, rows: seq<Row>, i: Uint64)
    requires PartOverflows(w, rows, i)
    ensures i < w.n
  {
    hide Indexable, Spanned, AllSamples, Start;
  }

  lemma OverflowsIs(w: Window, rows: seq<Row>, i: int)
    requires |Samples(Group(w, rows, i))| > 20_000_000
    ensures Overflows(w, rows)
  {
    hide Group, Samples;
  }

  lemma PartIsGroup(w: Window, from: Int64, to: Int64, rows: seq<Row>, i: Uint64)
    requires Spans(w, from, to) && i < w.n && forall k :: 0 <= k < |rows| ==> from <= rows[k].ts < to
    ensures PartOverflows(w, rows, i) <==> |Samples(Group(w, rows, i as int))| > 20_000_000
  {
    hide Group, Spanned, Samples, AllSamples, Start, StartDefined, Spans;
    StartsAreDefined(w, from, to, i);
    GroupIsSpan(w, from, to, rows, i);
    SamplesAre(Group(w, rows, i as int));
  }

  lemma OverflowingColumn(w: Window, from: Int64, to: Int64, rows: seq<Row>) returns (i: Uint64)
    requires Overflows(w, rows) && Spans(w, from, to) && forall k :: 0 <= k < |rows| ==> from <= rows[k].ts < to
    ensures i < w.n && |Samples(Group(w, rows, i as int))| > 20_000_000
  {
    hide Group, Column, ColumnDefined, Spans;
    var j :| |Samples(Group(w, rows, j))| > MAX_SAMPLES_PER_READ;
    assert Group(w, rows, j) != [];
    GroupHasRow(w, rows, j);
    var k :| 0 <= k < |rows| && IndexOf(w, rows[k].ts) == j;
    ColumnIs(w, from, to, rows[k].ts);
    i := Column(w, rows[k].ts);
  }
}
