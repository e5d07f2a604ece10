/** Reading a page of an outbox (internal/store/agents.go `PendingMeasurements`): its rows in one statement, their
    series in others, with the prober at work in between. */
module PageRead {
  import opened Options
  import opened Sets
  import opened Store
  import opened Pages

  /** How many (target, agent) pairs go into one statement. */
  const CHUNK: nat := 100

  type SeriesRows = map<(Key, string), seq<int>>

  type Pair = (int, int)

  function PairOf(k: Key): Pair { (k.target, k.agent) }

  datatype Span = Span(lo: int, hi: int)

  predicate InSpan(s: Span, ts: int) { s.lo <= ts <= s.hi }

  /** One time span for each pair of the page. */
  ghost predicate Covers(spans: map<Pair, Span>, keys: seq<Key>) {
    && (forall k :: k in keys ==> PairOf(k) in spans && InSpan(spans[PairOf(k)], k.ts))
    && (forall p :: p in spans ==> exists k :: k in keys && PairOf(k) == p)
  }

  method SpansOf(keys: seq<Key>) returns (spans: map<Pair, Span>)
    ensures Covers(spans, keys)
  {
    spans := map[];
    for i := 0 to |keys|
      invariant Covers(spans, keys[..i])
    {
      var k := keys[i];
      ghost var before := spans;
      assert keys[..i + 1] == keys[..i] + [k];
      if PairOf(k) !in spans {
        spans := spans[PairOf(k) := Span(k.ts, k.ts)];
      } else {
        var sp := spans[PairOf(k)];
        if k.ts < sp.lo {
          sp := sp.(lo := k.ts);
        }
        if k.ts > sp.hi {
          sp := sp.(hi := k.ts);
        }
        spans := spans[PairOf(k) := sp];
      }
      CoversOneMore(before, spans, keys[..i], k);
    }
    assert keys[..|keys|] == keys;
  }

  lemma CoversOneMore(before: map<Pair, Span>, spans: map<Pair, Span>, keys: seq<Key>, k: Key)
    requires Covers(before, keys)
    requires PairOf(k) in spans && spans == before[PairOf(k) := spans[PairOf(k)]] && InSpan(spans[PairOf(k)], k.ts)
    requires PairOf(k) in before ==>
      spans[PairOf(k)].lo <= before[PairOf(k)].lo && before[PairOf(k)].hi <= spans[PairOf(k)].hi
    ensures Covers(spans, keys + [k])
  {
    assert k in keys + [k];
    assert forall x :: x in keys ==> x in keys + [k];
  }

  /** The rows of `measurement_series` that one statement selects. */
  function Matching(series: SeriesRows, pairs: seq<Pair>, spans: map<Pair, Span>): (r: set<(Key, string)>)
    requires forall p :: p in pairs ==> p in spans
    ensures r <= series.Keys
  {
    set k | k in series && PairOf(k.0) in pairs && InSpan(spans[PairOf(k.0)], k.0.ts)
  }

  /** The series of the page that belong to the given pairs. */
  function Wanted(series: SeriesRows, keys: seq<Key>, pairs: seq<Pair>): (r: SeriesRows)
    ensures forall k :: k in r ==> k in series && k.0 in keys && r[k] == series[k]
  {
    map k | k in series && k.0 in keys && PairOf(k.0) in pairs :: series[k]
  }

  ghost predicate AllDecode(m: SeriesRows, decodes: seq<int> -> bool) {
    forall k :: k in m ==> decodes(m[k])
  }

  /** `readPendingSeriesChunk`; the rows of the statement come in any order. */
  method ReadChunk(series: SeriesRows, keys: seq<Key>, pairs: seq<Pair>, spans: map<Pair, Span>,
                   decodes: seq<int> -> bool, before: SeriesRows)
      returns (ok: bool, got: SeriesRows)
    requires |pairs| <= CHUNK && Covers(spans, keys) && forall p :: p in pairs ==> p in spans
    ensures ok <==> AllDecode(Wanted(series, keys, pairs), decodes)
    ensures ok ==> got == before + Wanted(series, keys, pairs)
  {
    hide Covers, Wanted, Matching;
    var todo := Matching(series, pairs, spans);
    got := before;
    WantedMatches(series, keys, pairs, spans);
    ghost var want := Wanted(series, keys, pairs);
    while todo != {}
      invariant todo <= Matching(series, pairs, spans)
      invariant forall k :: k in want && k !in todo ==> decodes(want[k])
      invariant got == before + (want - todo)
    {
      var k :| k in todo;
      ReadOneMore(before, want, todo, k);
      todo := todo - {k};
      if k.0 !in keys {
        continue;
      }
      if !decodes(series[k]) {
        return false, got;
      }
      got := got[k := series[k]];
    }
    ok := true;
  }

  lemma ReadOneMore(before: SeriesRows, want: SeriesRows, todo: set<(Key, string)>,
                    k: (Key, string))
    requires k in todo
    ensures before + (want - (todo - {k})) ==
      if k in want then (before + (want - todo))[k := want[k]] else before + (want - todo)
  {
  }

  lemma WantedMatches(series: SeriesRows, keys: seq<Key>, pairs: seq<Pair>, spans: map<Pair, Span>)
    requires Covers(spans, keys) && forall p :: p in pairs ==> p in spans
    ensures forall k :: k in Wanted(series, keys, pairs) <==> k in Matching(series, pairs, spans) && k.0 in keys
  {
  }

  /** The table after what the prober wrote, one transaction after the other. */
  function Meanwhile(c: Codec, t: Tables, between: seq<seq<Measurement>>): Tables {
    if between == [] then t
    else
      var n := |between| - 1;
      Written(c, Meanwhile(c, t, between[..n]), between[n])
  }

  function Written(c: Codec, t: Tables, ms: seq<Measurement>): Tables {
    match WriteAll(c, t, ms, true) case None => t case Some(done) => done.0
  }

  lemma MeanwhileLast(c: Codec, t: Tables, between: seq<seq<Measurement>>, n: nat)
    requires n < |between|
    ensures Meanwhile(c, t, between[..n + 1]) == Written(c, Meanwhile(c, t, between[..n]), between[n])
    ensures Meanwhile(c, t, between[..0]) == t && between[..|between|] == between
  {
    assert between[..n + 1][..n] == between[..n];
    hide Written;
  }

  /** What was read of one pair is what its series were in one table. */
  ghost predicate ReadAt(u: Tables, keys: seq<Key>, p: Pair, got: SeriesRows) {
    forall x: (Key, string) :: PairOf(x.0) == p ==>
      (x in got <==> x in u.series && x.0 in keys) && (x in got ==> got[x] == u.series[x])
  }

  ghost predicate ReadAtSome(c: Codec, t: Tables, between: seq<seq<Measurement>>, keys: seq<Key>, p: Pair,
                             got: SeriesRows) {
    exists i :: 0 <= i <= |between| && ReadAt(Meanwhile(c, t, between[..i]), keys, p, got)
  }

  lemma ChunkIsRead(u: Tables, keys: seq<Key>, done: seq<Pair>, chunk: seq<Pair>, before: SeriesRows)
    requires forall x :: x in before ==> PairOf(x.0) in done
    requires forall p :: p in chunk ==> p !in done
    ensures var got := before + Wanted(u.series, keys, chunk);
      && (forall p :: p in chunk ==> ReadAt(u, keys, p, got))
      && (forall p, v: Tables :: p in done && ReadAt(v, keys, p, before) ==> ReadAt(v, keys, p, got))
      && (forall x :: x in got ==> PairOf(x.0) in done || PairOf(x.0) in chunk)
  {
  }

  lemma ChunkIsReadThere(c: Codec, t: Tables, between: seq<seq<Measurement>>, n: nat, keys: seq<Key>,
                         done: seq<Pair>, chunk: seq<Pair>, before: SeriesRows)
    requires n <= |between| && (forall x :: x in before ==> PairOf(x.0) in done)
    requires forall p :: p in chunk ==> p !in done
    requires forall p :: p in done ==> ReadAtSome(c, t, between, keys, p, before)
    ensures var got := before + Wanted(Meanwhile(c, t, between[..n]).series, keys, chunk);
      && (forall p :: p in done + chunk ==> ReadAtSome(c, t, between, keys, p, got))
      && (forall x :: x in got ==> PairOf(x.0) in done + chunk)
  {
    var u := Meanwhile(c, t, between[..n]);
    var got := before + Wanted(u.series, keys, chunk);
    ChunkIsRead(u, keys, done, chunk, before);
    hide ReadAt, Wanted, Meanwhile, PairOf;
    forall p | p in done ensures ReadAtSome(c, t, between, keys, p, got) {
      var i :| 0 <= i <= |between| && ReadAt(Meanwhile(c, t, between[..i]), keys, p, before);
      assert ReadAt(Meanwhile(c, t, between[..i]), keys, p, got);
    }
  }

  /** Something of the page did not decode when it was read. */
  ghost predicate SomeDoesNotDecode(c: Codec, t: Tables, between: seq<seq<Measurement>>, keys: seq<Key>,
                                    decodes: seq<int> -> bool) {
    exists i, x :: 0 <= i <= |between| && UndecodedIn(Meanwhile(c, t, between[..i]), keys, x, decodes)
  }

  ghost predicate UndecodedIn(u: Tables, keys: seq<Key>, x: (Key, string), decodes: seq<int> -> bool) {
    x in u.series && x.0 in keys && !decodes(u.series[x])
  }

  lemma NotAllDecode(c: Codec, t: Tables, between: seq<seq<Measurement>>, n: nat, keys: seq<Key>, chunk: seq<Pair>,
                     decodes: seq<int> -> bool)
    requires n <= |between| && !AllDecode(Wanted(Meanwhile(c, t, between[..n]).series, keys, chunk), decodes)
    ensures SomeDoesNotDecode(c, t, between, keys, decodes)
  {
    hide Meanwhile;
    var u := Meanwhile(c, t, between[..n]);
    var x :| x in Wanted(u.series, keys, chunk) && !decodes(Wanted(u.series, keys, chunk)[x]);
    assert UndecodedIn(u, keys, x, decodes);
  }

  /** `attachPendingSeries`: the statements together read exactly the series of the page, in whatever order the
      pairs come out of their map; those of one pair as they were in one statement, between two of which the prober
      may write. */
  method AttachPendingSeries(db: Database, keys: seq<Key>, between: seq<seq<Measurement>>, decodes: seq<int> -> bool)
      returns (ok: bool, got: SeriesRows)
    modifies db
    ensures db.Contents() == Meanwhile(db.codec, old(db.Contents()), between)
    ensures ok ==> forall k :: k in keys ==> ReadAtSome(db.codec, old(db.Contents()), between, keys, PairOf(k), got)
    ensures ok ==> AllDecode(got, decodes)
    ensures !ok ==> SomeDoesNotDecode(db.codec, old(db.Contents()), between, keys, decodes)
  {
    hide *;
    ghost var c, t := db.codec, db.Contents();
    var spans := SpansOf(keys);
    var pairs := AnyOrder(spans.Keys);
    PairsOfAll(keys, pairs, spans);
    got := map[];
    var at, n := 0, 0;
    NoneMeanwhile(c, t, between, decodes);
    while at < |pairs|
      invariant at <= |pairs| && n <= |between| && db.Contents() == Meanwhile(c, t, between[..n])
      invariant forall p :: p in pairs[..at] ==> ReadAtSome(c, t, between, keys, p, got)
      invariant forall x :: x in got ==> PairOf(x.0) in pairs[..at]
      invariant AllDecode(got, decodes)
    {
      n := WriteNext(db, t, between, n);
      var end := if at + CHUNK < |pairs| then at + CHUNK else |pairs|;
      NextChunk(pairs, at, end);
      ghost var before := got;
      ContentsAre(db);
      ok, got := ReadChunk(db.series, keys, pairs[at..end], spans, decodes, got);
      if !ok {
        NotAllDecode(c, t, between, n, keys, pairs[at..end], decodes);
        WriteRest(db, t, between, n);
        return;
      }
      ChunkIsReadThere(c, t, between, n, keys, pairs[..at], pairs[at..end], before);
      BothDecode(before, Wanted(db.Contents().series, keys, pairs[at..end]), decodes);
      at := end;
    }
    assert pairs[..at] == pairs;
    WriteRest(db, t, between, n);
    ok := true;
  }

  lemma ContentsAre(db: Database)
    ensures db.Contents() == Tables(db.rows, db.series)
  {
  }

  lemma NoneMeanwhile(c: Codec, t: Tables, between: seq<seq<Measurement>>, decodes: seq<int> -> bool)
    ensures Meanwhile(c, t, between[..0]) == t && between[..|between|] == between && AllDecode(map[], decodes)
  {
  }

  lemma BothDecode(a: SeriesRows, b: SeriesRows, decodes: seq<int> -> bool)
    requires AllDecode(a, decodes) && AllDecode(b, decodes)
    ensures AllDecode(a + b, decodes)
  {
  }

  lemma NextChunk(pairs: seq<Pair>, at: nat, end: nat)
    requires at <= end <= |pairs| && Distinct(pairs)
    ensures pairs[..at] + pairs[at..end] == pairs[..end] && |pairs[at..end]| == end - at
    ensures forall p :: p in pairs[at..end] ==> p in pairs && p !in pairs[..at]
  {
  }

  lemma PairsOfAll(keys: seq<Key>, pairs: seq<Pair>, spans: map<Pair, Span>)
    requires Covers(spans, keys) && Lists(pairs, spans.Keys)
    ensures (forall k :: k in keys ==> PairOf(k) in pairs) && Distinct(pairs)
    ensures (forall p :: p in pairs ==> p in spans) && CHUNK == 100
  {
  }

  /** The next of the prober's transactions. */
  method WriteNext(db: Database, ghost t: Tables, between: seq<seq<Measurement>>, n: nat) returns (next: nat)
    requires n <= |between| && db.Contents() == Meanwhile(db.codec, t, between[..n])
    modifies db
    ensures next == if n < |between| then n + 1 else n
    ensures db.Contents() == Meanwhile(db.codec, t, between[..next])
  {
    hide Meanwhile, WriteAll;
    next := n;
    if n < |between| {
      MeanwhileLast(db.codec, t, between, n);
      var _ := db.WriteMeasurements(between[n], true);
      next := n + 1;
    }
  }

  method WriteRest(db: Database, ghost t: Tables, between: seq<seq<Measurement>>, n: nat)
    requires n <= |between| && db.Contents() == Meanwhile(db.codec, t, between[..n])
    modifies db
    ensures db.Contents() == Meanwhile(db.codec, t, between)
  {
    hide Meanwhile, WriteAll;
    assert between[..|between|] == between;
    var i := n;
    while i < |between|
      invariant n <= i <= |between| && db.Contents() == Meanwhile(db.codec, t, between[..i])
    {
      i := WriteNext(db, t, between, i);
    }
  }

  function KeysOf(batch: seq<Measurement>): seq<Key> {
    seq(|batch|, i requires 0 <= i < |batch| => batch[i].key)
  }

  /** A row as it was when the page was taken, with its series as they were in some later statement. */
  ghost predicate ReadAs(c: Codec, t: Tables, between: seq<seq<Measurement>>, m: Measurement) {
    && m.key in t.rows && m.row == t.rows[m.key]
    && exists i :: 0 <= i <= |between| && m.series == SeriesFor(Meanwhile(c, t, between[..i]), m.key)
  }

  /** A page of the outbox: its rows, oldest first. */
  ghost predicate IsPage(c: Codec, t: Tables, between: seq<seq<Measurement>>, batch: seq<Measurement>, limit: nat) {
    && OldestPage(t.rows.Keys, KeysOf(batch)) && |batch| == SizeOf(t.rows.Keys, limit)
    && forall m :: m in batch ==> ReadAs(c, t, between, m)
  }

  ghost predicate Readable(batch: seq<Measurement>, decodes: seq<int> -> bool) {
    forall m :: m in batch ==> decodes(m.row.samples) && forall name :: name in m.series ==> decodes(m.series[name])
  }

  /** `PendingMeasurements`: the page it read, and whether every list in it decoded; what the prober writes between
      its statements is written. */
  method PendingMeasurements(db: Database, limit: nat, between: seq<seq<Measurement>>, decodes: seq<int> -> bool)
        returns (ok: bool, batch: seq<Measurement>)
    modifies db
    ensures ok ==> IsPage(db.codec, old(db.Contents()), between, batch, limit) && Readable(batch, decodes)
    ensures !ok ==> exists page ::
      IsPage(db.codec, old(db.Contents()), between, page, limit) && !Readable(page, decodes)
    ensures batch != [] ==> db.Contents() == Meanwhile(db.codec, old(db.Contents()), between)
    ensures ok && batch == [] ==> db.Contents() == old(db.Contents())
    ensures !ok ==>
      db.Contents() == old(db.Contents()) || db.Contents() == Meanwhile(db.codec, old(db.Contents()), between)
  {
    hide *;
    ghost var c, t := db.codec, db.Contents();
    ContentsAre(db);
    var rows := db.rows;
    var keys := TakePage(rows.Keys, limit);
    PageIsStored(t, keys);
    if i :| 0 <= i < |keys| && !decodes(rows[keys[i]].samples) {
      SplicedIsAPage(c, t, between, 0, keys, limit);
      UnreadableRow(t, Meanwhile(c, t, between[..0]), keys, i, decodes);
      return false, [];
    }
    if |keys| == 0 {
      NoneIsAPage(c, t, between, keys, limit, decodes);
      return true, [];
    }
    var got;
    ok, got := AttachPendingSeries(db, keys, between, decodes);
    if !ok {
      UnreadableSeries(c, t, between, keys, limit, decodes);
      return false, [];
    }
    batch := Splices(rows, got, keys);
    SplicedAsRead(c, t, between, keys, got, limit, decodes);
  }

  lemma NoneIsAPage(c: Codec, t: Tables, between: seq<seq<Measurement>>, keys: seq<Key>, limit: nat,
                    decodes: seq<int> -> bool)
    requires OldestPage(t.rows.Keys, keys) && |keys| == SizeOf(t.rows.Keys, limit) && |keys| == 0
    ensures IsPage(c, t, between, [], limit) && Readable([], decodes)
  {
    assert KeysOf([]) == keys;
    hide OldestPage;
  }

  /** The rows of some keys, with series from elsewhere. */
  function Splices(rows: map<Key, Row>, series: SeriesRows, keys: seq<Key>): (page: seq<Measurement>)
    requires forall k :: k in keys ==> k in rows
    ensures |page| == |keys|
  {
    seq(|keys|, i requires 0 <= i < |keys| =>
      Measurement(keys[i], rows[keys[i]], SeriesFor(Tables(rows, series), keys[i])))
  }

  lemma PageIsStored(t: Tables, keys: seq<Key>)
    requires OldestPage(t.rows.Keys, keys)
    ensures forall k :: k in keys ==> k in t.rows
  {
  }

  lemma SplicedAsRead(c: Codec, t: Tables, between: seq<seq<Measurement>>, keys: seq<Key>, got: SeriesRows,
                      limit: nat, decodes: seq<int> -> bool)
    requires OldestPage(t.rows.Keys, keys) && |keys| == SizeOf(t.rows.Keys, limit)
    requires forall k :: k in keys ==> k in t.rows && ReadAtSome(c, t, between, keys, PairOf(k), got)
    requires AllDecode(got, decodes) && forall i :: 0 <= i < |keys| ==> decodes(t.rows[keys[i]].samples)
    ensures var page := Splices(t.rows, got, keys); IsPage(c, t, between, page, limit) && Readable(page, decodes)
  {
    hide OldestPage, SeriesFor, Meanwhile, ReadAt;
    var page := Splices(t.rows, got, keys);
    assert KeysOf(page) == keys;
    forall i | 0 <= i < |keys|
      ensures ReadAs(c, t, between, page[i])
      ensures decodes(page[i].row.samples) && forall name :: name in page[i].series ==> decodes(page[i].series[name])
    {
      var k := keys[i];
      assert k in keys;
      var j :| 0 <= j <= |between| && ReadAt(Meanwhile(c, t, between[..j]), keys, PairOf(k), got);
      SeriesReadAt(Meanwhile(c, t, between[..j]), keys, k, t.rows, got, decodes);
    }
  }

  lemma SeriesReadAt(u: Tables, keys: seq<Key>, k: Key, rows: map<Key, Row>, got: SeriesRows, decodes: seq<int> -> bool)
    requires k in keys && ReadAt(u, keys, PairOf(k), got) && AllDecode(got, decodes)
    ensures var series := SeriesFor(Tables(rows, got), k);
      series == SeriesFor(u, k) && forall name :: name in series ==> decodes(series[name])
  {
    SameSeriesFor(Tables(rows, got), u, k);
  }

  /** A page whose series are all as they were at one moment. */
  lemma SplicedIsAPage(c: Codec, t: Tables, between: seq<seq<Measurement>>, n: nat, keys: seq<Key>, limit: nat)
    requires OldestPage(t.rows.Keys, keys) && |keys| == SizeOf(t.rows.Keys, limit) && n <= |between|
    requires forall k :: k in keys ==> k in t.rows
    ensures IsPage(c, t, between, Splices(t.rows, Meanwhile(c, t, between[..n]).series, keys), limit)
  {
    hide OldestPage, SeriesFor, Meanwhile;
    var u := Meanwhile(c, t, between[..n]);
    var page := Splices(t.rows, u.series, keys);
    assert KeysOf(page) == keys;
    forall i | 0 <= i < |keys| ensures ReadAs(c, t, between, page[i]) {
      SameSeriesFor(Tables(t.rows, u.series), u, keys[i]);
    }
  }

  lemma UnreadableRow(t: Tables, u: Tables, keys: seq<Key>, i: nat, decodes: seq<int> -> bool)
    requires i < |keys| && (forall k :: k in keys ==> k in t.rows) && !decodes(t.rows[keys[i]].samples)
    ensures !Readable(Splices(t.rows, u.series, keys), decodes)
  {
    hide SeriesFor;
    var page := Splices(t.rows, u.series, keys);
    assert page[i] in page;
  }

  lemma UnreadableSeries(c: Codec, t: Tables, between: seq<seq<Measurement>>, keys: seq<Key>, limit: nat,
                         decodes: seq<int> -> bool)
    requires OldestPage(t.rows.Keys, keys) && |keys| == SizeOf(t.rows.Keys, limit)
    requires (forall k :: k in keys ==> k in t.rows) && SomeDoesNotDecode(c, t, between, keys, decodes)
    ensures exists page :: IsPage(c, t, between, page, limit) && !Readable(page, decodes)
  {
    hide OldestPage, Meanwhile, IsPage;
    var i, x :| 0 <= i <= |between| && UndecodedIn(Meanwhile(c, t, between[..i]), keys, x, decodes);
    var u := Meanwhile(c, t, between[..i]);
    SplicedIsAPage(c, t, between, i, keys, limit);
    var page := Splices(t.rows, u.series, keys);
    var j :| 0 <= j < |keys| && keys[j] == x.0;
    assert page[j] in page && x.1 in page[j].series && page[j].series[x.1] == u.series[x];
  }
}
