/** The pooled read as a whole (internal/store/columns.go, `QueryColumns` and `poolSeries`). */
module ColumnRead {
  import opened Options
  import opened Columns
  import opened Quantiles
  import opened Pooling

  // ---------------------------------------------------------------- the extra series

  function Get(m: map<string, seq<int>>, name: string): seq<int> {
    if name in m then m[name] else []
  }

  /** The values of each series in column i, over every row that decodes. */
  function PoolsAt(w: Window, rows: seq<SeriesRow>, i: int): map<string, seq<int>> {
    if rows == [] then map[]
    else
      var r := rows[|rows| - 1];
      var rest := PoolsAt(w, rows[..|rows| - 1], i);
      if IndexOf(w, r.ts) == i && r.vals.Some? then rest[r.name := Get(rest, r.name) + r.vals.value] else rest
  }

  function Finished(pools: map<string, seq<int>>): map<string, seq<int>> {
    map name | name in pools :: QuantilesOf(pools[name], COLUMN_QUANTILES)
  }

  /** Some series of a listed column holds more values than one read may. */
  ghost predicate SeriesOverflows(w: Window, rows: seq<SeriesRow>, at: seq<Uint64>) {
    exists c, name :: 0 <= c < |at| && HoldsTooMany(w, rows, at, c, name)
  }

  predicate HoldsTooMany(w: Window, rows: seq<SeriesRow>, at: seq<Uint64>, c: int, name: string)
    requires 0 <= c < |at|
  {
    |Get(PoolsAt(w, rows, at[c] as int), name)| > MAX_SAMPLES_PER_READ
  }

  ghost predicate InOrder(from: Int64, to: Int64, rows: seq<SeriesRow>) {
    && (forall k :: 0 <= k < |rows| ==> from <= rows[k].ts < to)
    && (forall j, k :: 0 <= j < k < |rows| ==> rows[j].ts <= rows[k].ts)
  }

  /** `cols` with the series of each column pooled in. */
  ghost predicate SeriesPooled(w: Window, rows: seq<SeriesRow>, bare: seq<Pixel>, at: seq<Uint64>, cols: seq<Pixel>) {
    && |cols| == |bare| == |at|
    && forall c :: 0 <= c < |at| ==> cols[c] == bare[c].(series := Finished(PoolsAt(w, rows, at[c] as int)))
  }

  lemma {:induction false} PoolsGrow(w: Window, rows: seq<SeriesRow>, k: nat, i: int, name: string)
    requires k <= |rows|
    ensures |Get(PoolsAt(w, rows[..k], i), name)| <= |Get(PoolsAt(w, rows, i), name)|
  {
    if k == |rows| {
      assert rows[..k] == rows;
    } else {
      PoolsGrow(w, rows[..|rows| - 1], k, i, name);
      assert rows[..|rows| - 1][..k] == rows[..k];
    }
  }

  lemma OverflowStays(w: Window, rows: seq<SeriesRow>, k: nat, at: seq<Uint64>)
    requires k <= |rows| && SeriesOverflows(w, rows[..k], at)
    ensures SeriesOverflows(w, rows, at)
  {
    hide PoolsAt;
    var c, name :| 0 <= c < |at| && HoldsTooMany(w, rows[..k], at, c, name);
    PoolsGrow(w, rows, k, at[c] as int, name);
    assert HoldsTooMany(w, rows, at, c, name);
  }

  lemma PoolsStep(w: Window, rows: seq<SeriesRow>, k: nat, i: int)
    requires k < |rows|
    ensures PoolsAt(w, rows[..k + 1], i) ==
            var rest := PoolsAt(w, rows[..k], i);
            var r := rows[k];
            if IndexOf(w, r.ts) == i && r.vals.Some? then rest[r.name := Get(rest, r.name) + r.vals.value] else rest
  {
    assert rows[..k + 1][..k] == rows[..k];
  }

  lemma SeriesAscend(w: Window, from: Int64, to: Int64, rows: seq<SeriesRow>, j: nat, k: nat)
    requires Spans(w, from, to) && InOrder(from, to, rows) && j <= k < |rows|
    ensures 0 <= IndexOf(w, rows[j].ts) <= IndexOf(w, rows[k].ts) < TWO64
  {
    hide Column, ColumnDefined;
    ColumnsAscend(w, from, to, rows[j].ts, rows[k].ts);
  }

  predicate Measures(w: Window, r: SeriesRow, i: int, name: string) {
    IndexOf(w, r.ts) == i && r.name == name && r.vals.Some?
  }

  function ValuesOf(w: Window, rows: seq<SeriesRow>, i: int, name: string): seq<int> {
    if rows == [] then []
    else
      var r := rows[|rows| - 1];
      ValuesOf(w, rows[..|rows| - 1], i, name) + if Measures(w, r, i, name) then r.vals.value else []
  }

  /** A series name is present in a column exactly when some row of that column measured it, and then
      carries the values of those rows and no others: the meaning of the fold above. */
  lemma {:induction false} PoolsMeaning(w: Window, rows: seq<SeriesRow>, i: int, name: string)
    ensures name in PoolsAt(w, rows, i) <==> exists k :: 0 <= k < |rows| && Measures(w, rows[k], i, name)
    ensures Get(PoolsAt(w, rows, i), name) == ValuesOf(w, rows, i, name)
  {
    hide IndexOf;
    if rows != [] {
      var last := |rows| - 1;
      PoolsMeaning(w, rows[..last], i, name);
      forall k | 0 <= k < last ensures rows[..last][k] == rows[k] {
      }
    }
  }

  /** Where the forward search stands after the rows so far: k is the first listed column not before
      the current one, and j is k when it is the current one. */
  ghost predicate Cursor(at: seq<Uint64>, cur: int, j: int, k: int) {
    && 0 <= k <= |at|
    && (forall c :: 0 <= c < k ==> (at[c] as int) < cur)
    && (forall c :: k <= c < |at| ==> cur <= at[c] as int)
    && j == (if k < |at| && at[k] as int == cur then k else -1)
  }

  /** Columns before the current one are done, later ones untouched, and the current one is in `pools`. */
  ghost predicate Merged(w: Window, seen: seq<SeriesRow>, bare: seq<Pixel>, at: seq<Uint64>, cols: seq<Pixel>,
                         pools: map<string, seq<int>>, cur: int, j: int)
    requires -1 <= j < |at|
  {
    && |cols| == |bare| == |at|
    && (forall c :: 0 <= c < |at| && (at[c] as int) < cur ==>
          cols[c] == bare[c].(series := Finished(PoolsAt(w, seen, at[c] as int))))
    && (forall c :: 0 <= c < |at| && cur <= at[c] as int ==> cols[c] == bare[c])
    && (forall c :: 0 <= c < |at| && cur < at[c] as int ==> PoolsAt(w, seen, at[c] as int) == map[])
    && pools == if j >= 0 then PoolsAt(w, seen, at[j] as int) else map[]
  }

  lemma StartMerge(w: Window, bare: seq<Pixel>, at: seq<Uint64>)
    requires |bare| == |at|
    ensures Cursor(at, -1, -1, 0) && Merged(w, [], bare, at, bare, map[], -1, -1)
    ensures !SeriesOverflows(w, [], at)
  {
  }

  function Extended(pools: map<string, seq<int>>, r: SeriesRow): map<string, seq<int>> {
    if r.vals.Some? then pools[r.name := Get(pools, r.name) + r.vals.value] else pools
  }

  /** One more row of the current column, when the read has an entry for that column or not. */
  lemma MergeStep(w: Window, rows: seq<SeriesRow>, n: nat, bare: seq<Pixel>, at: seq<Uint64>, cols: seq<Pixel>,
                  pools: map<string, seq<int>>, cur: int, j: int, k: int)
    requires n < |rows| && cur == IndexOf(w, rows[n].ts)
    requires forall c, d :: 0 <= c < d < |at| ==> at[c] < at[d]
    requires Cursor(at, cur, j, k) && Merged(w, rows[..n], bare, at, cols, pools, cur, j)
    ensures Merged(w, rows[..n + 1], bare, at, cols, if j >= 0 then Extended(pools, rows[n]) else map[], cur, j)
    ensures j < 0 ==> pools == map[]
  {
    hide PoolsAt, Finished, IndexOf;
    forall c | 0 <= c < |at|
      ensures PoolsAt(w, rows[..n + 1], at[c] as int) ==
              var rest := PoolsAt(w, rows[..n], at[c] as int);
              if at[c] as int == cur then Extended(rest, rows[n]) else rest
    {
      PoolsStep(w, rows, n, at[c] as int);
    }
  }

  lemma OverflowAtStep(w: Window, rows: seq<SeriesRow>, n: nat, bare: seq<Pixel>, at: seq<Uint64>, cols: seq<Pixel>,
                       pools: map<string, seq<int>>, cur: int, j: int, k: int)
    requires n < |rows| && cur == IndexOf(w, rows[n].ts)
    requires Cursor(at, cur, j, k) && Merged(w, rows[..n], bare, at, cols, pools, cur, j)
    requires forall c, d :: 0 <= c < d < |at| ==> at[c] < at[d]
    requires !SeriesOverflows(w, rows[..n], at)
    ensures SeriesOverflows(w, rows[..n + 1], at) <==>
            j >= 0 && rows[n].vals.Some? && |Get(pools, rows[n].name)| + |rows[n].vals.value| > MAX_SAMPLES_PER_READ
  {
    hide PoolsAt, Finished, IndexOf;
    if SeriesOverflows(w, rows[..n + 1], at) {
      var c, name :| 0 <= c < |at| && HoldsTooMany(w, rows[..n + 1], at, c, name);
      PoolsStep(w, rows, n, at[c] as int);
      assert !HoldsTooMany(w, rows[..n], at, c, name);
    }
    if j >= 0 {
      PoolsStep(w, rows, n, at[j] as int);
      if rows[n].vals.Some? && |Get(pools, rows[n].name)| + |rows[n].vals.value| > MAX_SAMPLES_PER_READ {
        assert HoldsTooMany(w, rows[..n + 1], at, j, rows[n].name);
      }
    }
  }

  /** `flush`: closes the current column, if the read has one for it. */
  method Flush(w: Window, ghost seen: seq<SeriesRow>, ghost bare: seq<Pixel>, at: seq<Uint64>, cols: seq<Pixel>,
               pools: map<string, seq<int>>, ghost cur: int, j: int, ghost k: int, ghost next: int)
    returns (cols': seq<Pixel>)
    requires Cursor(at, cur, j, k) && Merged(w, seen, bare, at, cols, pools, cur, j)
    requires forall c, d :: 0 <= c < d < |at| ==> at[c] < at[d]
    requires forall c :: 0 <= c < |bare| ==> bare[c].series == map[]
    requires cur < next
    ensures |cols'| == |bare|
    ensures forall c :: 0 <= c < |at| && (at[c] as int) < next ==>
      cols'[c] == bare[c].(series := Finished(PoolsAt(w, seen, at[c] as int)))
    ensures forall c :: 0 <= c < |at| && next <= at[c] as int ==>
      cols'[c] == bare[c] && PoolsAt(w, seen, at[c] as int) == map[]
    ensures forall j', k' :: Cursor(at, next, j', k') ==> Merged(w, seen, bare, at, cols', map[], next, j')
  {
    hide PoolsAt, QuantilesOf;
    if j < 0 {
      cols' := cols;
    } else {
      cols' := cols[j := cols[j].(series := Finished(pools))];
    }
    forall c | 0 <= c < |at| && cur < at[c] as int ensures bare[c] == bare[c].(series := Finished(map[])) {
      assert Finished(map[]) == map[];
    }
  }

  /** `poolSeries`: one forward merge of the series rows with the columns already built. A row whose
      column has no measurement is skipped, and so is one that does not decode. */
  method PoolSeries(w: Window, from: Int64, to: Int64, rows: seq<SeriesRow>, bare: seq<Pixel>, at: seq<Uint64>,
                    read: nat)
    returns (err: Option<Read>, cols: seq<Pixel>)
    requires Spans(w, from, to) && InOrder(from, to, rows) && |bare| == |at|
    requires forall c, d :: 0 <= c < d < |at| ==> at[c] < at[d]
    requires forall c :: 0 <= c < |bare| ==> bare[c].series == map[]
    ensures err.None? <==> (rows == [] || read + |rows| <= MAX_POOLED_ROWS) && !SeriesOverflows(w, rows, at)
    ensures err.None? ==> SeriesPooled(w, rows, bare, at, cols)
    ensures err.Some? ==> err.value == TooManyIntervals || err.value == TooManySamples
  {
    hide PoolsAt, Column, ColumnDefined, IndexOf, Spans, Finished, Merged, SeriesOverflows;
    cols := bare;
    var j, k, cur, started := -1, 0, -1, false;
    var pools: map<string, seq<int>> := map[];
    StartMerge(w, bare, at);
    for n := 0 to |rows|
      invariant n > 0 ==> read + n <= MAX_POOLED_ROWS
      invariant started <==> n > 0
      invariant cur == (if n > 0 then IndexOf(w, rows[n - 1].ts) else -1) && cur < TWO64
      invariant Cursor(at, cur, j, k) && Merged(w, rows[..n], bare, at, cols, pools, cur, j)
      invariant !SeriesOverflows(w, rows[..n], at)
    {
      if read + n + 1 > MAX_POOLED_ROWS {
        return Some(TooManyIntervals), cols;
      }
      var r := rows[n];
      SeriesAscend(w, from, to, rows, if n > 0 then n - 1 else n, n);
      var i := IndexOf(w, r.ts);
      if !started || i != cur {
        cols := Flush(w, rows[..n], bare, at, cols, pools, cur, j, k, i);
        pools := map[];
        started, cur, j := true, i, -1;
        while k < |at| && (at[k] as int) < i
          invariant 0 <= k <= |at| && forall c :: 0 <= c < k ==> (at[c] as int) < i
        {
          k := k + 1;
        }
        if k < |at| && at[k] as int == i {
          j := k;
        }
      }
      assert Cursor(at, cur, j, k) && Merged(w, rows[..n], bare, at, cols, pools, cur, j);
      MergeStep(w, rows, n, bare, at, cols, pools, cur, j, k);
      OverflowAtStep(w, rows, n, bare, at, cols, pools, cur, j, k);
      if j < 0 || r.vals.None? {
        continue;
      }
      if |Get(pools, r.name)| + |r.vals.value| > MAX_SAMPLES_PER_READ {
        OverflowStays(w, rows, n + 1, at);
        return Some(TooManySamples), cols;
      }
      pools := pools[r.name := Get(pools, r.name) + r.vals.value];
    }
    assert rows[..|rows|] == rows;
    cols := Flush(w, rows, bare, at, cols, pools, cur, j, k, TWO64);
    return None, cols;
  }

  // ---------------------------------------------------------------- the read

  /** What fits a raw read: at most n intervals, and no more samples than a raw read returns. */
  ghost predicate FitsRaw(rows: seq<Row>, n: Int64) {
    |rows| <= n as int && SumOf(rows, ReceivedOf) <= MAX_SAMPLES_PER_READ
  }

  lemma {:induction false} ReceivedGrows(rows: seq<Row>, k: nat)
    requires k <= |rows|
    ensures SumOf(rows[..k], ReceivedOf) <= SumOf(rows, ReceivedOf)
  {
    if k == |rows| {
      assert rows[..k] == rows;
    } else {
      ReceivedGrows(rows[..|rows| - 1], k);
      assert rows[..|rows| - 1][..k] == rows[..k];
    }
  }

  lemma ReceivedStep(rows: seq<Row>, k: nat)
    requires k < |rows|
    ensures SumOf(rows[..k + 1], ReceivedOf) == SumOf(rows[..k], ReceivedOf) + rows[k].received
  {
    assert rows[..k + 1][..k] == rows[..k];
  }

  lemma PrefixOverflow(w: Window, rows: seq<Row>, k: nat)
    requires k <= |rows| && Overflows(w, rows[..k])
    ensures Overflows(w, rows)
  {
    OverflowGrows(w, rows[..k], rows[k..]);
    assert rows[..k] + rows[k..] == rows;
  }

  /** Adds rows first to last, stopping at the first the pooler refuses. */
  method AddAll(p: Pooler, rows: seq<Row>) returns (ok: bool)
    requires p.Valid() && p.Ready() && p.rows == [] && InWindow(p.from, p.to, rows)
    modifies p
    ensures ok ==> p.Valid() && p.Ready() && p.rows == rows
    ensures ok <==> !Overflows(p.w, rows)
  {
    hide Overflows, Groups, Tally, Samples, IndexOf, Spans;
    for k := 0 to |rows|
      invariant p.Valid() && p.Ready() && p.rows == rows[..k]
    {
      ok := p.Add(rows[k]);
      assert rows[..k + 1] == rows[..k] + [rows[k]];
      if !ok {
        PrefixOverflow(p.w, rows, k + 1);
        return false;
      }
    }
    assert rows[..|rows|] == rows;
    return true;
  }

  /** The bare columns of a pooled result: what the first pass built, before any series. */
  ghost predicate PooledRead(from: Int64, to: Int64, n: Int64, rows: seq<Row>, series: seq<SeriesRow>, cols: seq<Pixel>)
    requires n >= 1
  {
    exists bare, at ::
      && Groups(NewWindow(from, to, n), rows, bare, at)
      && SeriesPooled(NewWindow(from, to, n), series, bare, at, cols)
  }

  /** Which series columns can overflow depends on which columns hold a measurement. */
  ghost predicate SeriesTooLarge(w: Window, rows: seq<Row>, series: seq<SeriesRow>) {
    exists bare, at :: Groups(w, rows, bare, at) && SeriesOverflows(w, series, at)
  }

  /** `QueryColumns`: rows are kept raw until there are too many of them, then pooled; the answer does
      not depend on where that happened. The row queries of the source are its two last arguments. */
  method QueryColumns(from: Int64, to: Int64, n: Int64, rows: seq<Row>, series: seq<SeriesRow>) returns (res: Read)
    requires InWindow(from, to, rows) && InOrder(from, to, series)
    ensures n < 1 <==> res == BadColumnCount
    ensures n >= 1 ==> (res.Raw? <==> |rows| <= 10_000_000 && FitsRaw(rows, n))
    ensures res.Raw? ==> res.rows == rows
    ensures n >= 1 ==> (res.Pooled? <==>
      && !FitsRaw(rows, n)
      && |rows| <= 10_000_000 && (series == [] || |rows| + |series| <= 10_000_000)
      && !Overflows(NewWindow(from, to, n), rows)
      && !SeriesTooLarge(NewWindow(from, to, n), rows, series))
    ensures res.Pooled? ==> PooledRead(from, to, n, rows, series, res.cols)
  {
    hide Overflows, Groups, Tally, Samples, IndexOf, Spans, NewWindow, SumOf, SeriesOverflows, SeriesPooled;
    if n < 1 {
      return BadColumnCount;
    }
    var p: Pooler? := null;
    var raw: seq<Row>, samples := [], 0;
    EmptySum();
    for k := 0 to |rows|
      invariant k <= MAX_POOLED_ROWS
      invariant p == null ==> raw == rows[..k] && samples == SumOf(rows[..k], ReceivedOf) && FitsRaw(rows[..k], n)
      invariant p != null ==>
        && fresh(p) && p.Valid() && p.Ready() && p.rows == rows[..k]
        && p.from == from && p.to == to && p.w == NewWindow(from, to, n)
        && !FitsRaw(rows[..k], n)
    {
      ReceivedStep(rows, k);
      ReceivedGrows(rows, k + 1);
      ReceivedGrows(rows[..k + 1], k);
      assert rows[..k + 1][..k] == rows[..k];
      assert rows[..k + 1] == rows[..k] + [rows[k]];
      if k + 1 > MAX_POOLED_ROWS {
        return TooManyIntervals;
      }
      if p != null {
        var ok := p.Add(rows[k]);
        if !ok {
          PrefixOverflow(p.w, rows, k + 1);
          return TooManySamples;
        }
        continue;
      }
      raw := raw + [rows[k]];
      samples := samples + rows[k].received;
      if |raw| > n as int || samples > MAX_SAMPLES_PER_READ {
        p := new Pooler(from, to, n);
        var ok := AddAll(p, raw);
        if !ok {
          PrefixOverflow(p.w, rows, k + 1);
          return TooManySamples;
        }
        raw := [];
      }
    }
    assert rows[..|rows|] == rows;
    if p == null {
      return Raw(raw);
    }
    var cols := p.Finish();
    BareColumns(p.w, rows, cols, p.outIdx);
    var err, pooled := PoolSeries(p.w, from, to, series, cols, p.outIdx, |rows|);
    OneSetOfColumns(p.w, rows, series, cols, p.outIdx);
    if err.Some? {
      return err.value;
    }
    return Pooled(pooled);
  }

  lemma EmptySum()
    ensures SumOf([], ReceivedOf) == 0
  {
  }

  lemma BareColumns(w: Window, rows: seq<Row>, cols: seq<Pixel>, at: seq<Uint64>)
    requires Groups(w, rows, cols, at)
    ensures |cols| == |at|
    ensures forall c, d :: 0 <= c < d < |at| ==> at[c] < at[d]
    ensures forall c :: 0 <= c < |cols| ==> cols[c].series == map[]
  {
    hide IndexOf, Group, QuantilesOf, Start, Indexable;
  }

  lemma OneSetOfColumns(w: Window, rows: seq<Row>, series: seq<SeriesRow>, cols: seq<Pixel>, at: seq<Uint64>)
    requires Groups(w, rows, cols, at)
    ensures SeriesTooLarge(w, rows, series) <==> SeriesOverflows(w, series, at)
  {
    hide Groups, SeriesOverflows;
    if SeriesTooLarge(w, rows, series) {
      var bare, a :| Groups(w, rows, bare, a) && SeriesOverflows(w, series, a);
      GroupsUnique(w, rows, bare, a, cols, at);
    }
  }
}
