/** The measurement tables (internal/store/sqlite.go, internal/store/agents.go). A table is a map from
    its primary key; a transaction either happens as a whole or not at all. */
module Store {
  import opened Options
  import opened Sets

  datatype Key = Key(target: int, agent: int, ts: int)

  datatype Row = Row(sent: int, received: int, flags: bv8, samples: seq<int>,
                     icmpErr: Option<int>, sendErr: Option<int>)

  datatype Measurement = Measurement(key: Key, row: Row, series: map<string, seq<int>>)

  /** `measurements` and `measurement_series`. */
  datatype Tables = Tables(rows: map<Key, Row>, series: map<(Key, string), seq<int>>)

  /** Which value lists the blob codec accepts, and which series names are known. */
  datatype Codec = Codec(encodes: seq<int> -> bool, known: string -> bool)

  // ---------------------------------------------------------------- specification

  function SeriesOf(m: Measurement): map<(Key, string), seq<int>> {
    map name | name in m.series :: (m.key, name) := m.series[name]
  }

  function SeriesNamed(m: Measurement, names: set<string>): map<(Key, string), seq<int>> {
    map name | name in m.series && name in names :: (m.key, name) := m.series[name]
  }

  function WithoutSeries(series: map<(Key, string), seq<int>>, key: Key): map<(Key, string), seq<int>> {
    map k | k in series && k.0 != key :: series[k]
  }

  function Put(t: Tables, m: Measurement): Tables {
    Tables(t.rows[m.key := m.row], WithoutSeries(t.series, m.key) + SeriesOf(m))
  }

  predicate RowAccepted(c: Codec, m: Measurement) {
    m.row.received == |m.row.samples| && c.encodes(m.row.samples)
  }

  predicate SeriesAccepted(c: Codec, m: Measurement) {
    forall name :: name in m.series ==> c.known(name) && c.encodes(m.series[name])
  }

  /** Writing rows in order, replacing or keeping what is stored at a key; None when one of them is
      refused, which abandons them all. Also how many were written. */
  function WriteAll(c: Codec, t: Tables, ms: seq<Measurement>, replace: bool): Option<(Tables, nat)> {
    if ms == [] then Some((t, 0))
    else
      match WriteAll(c, t, ms[..|ms| - 1], replace)
      case None => None
      case Some(done) => WriteOne(c, done.0, done.1, ms[|ms| - 1], replace)
  }

  function WriteOne(c: Codec, t: Tables, n: nat, m: Measurement, replace: bool): Option<(Tables, nat)> {
    if !RowAccepted(c, m) then None
    else if !replace && m.key in t.rows then Some((t, n))
    else if !SeriesAccepted(c, m) then None
    else Some((Put(t, m), n + 1))
  }

  function DropAll(t: Tables, ms: seq<Measurement>): Tables {
    if ms == [] then t
    else
      var d := DropAll(t, ms[..|ms| - 1]);
      var key := ms[|ms| - 1].key;
      Tables(d.rows - {key}, WithoutSeries(d.series, key))
  }

  predicate Old(key: Key, target: int, cutoff: int) {
    key.target == target && key.ts < cutoff
  }

  /** One delete of everything older than the cutoff, of one target. */
  function Pruned(t: Tables, target: int, cutoff: int): Tables {
    Tables(map k | k in t.rows && !Old(k, target, cutoff) :: t.rows[k],
           map k | k in t.series && !Old(k.0, target, cutoff) :: t.series[k])
  }

  /** Every extra series belongs to a stored measurement: what reading a range relies on. */
  ghost predicate SeriesOwned(t: Tables) {
    forall k :: k in t.series ==> k.0 in t.rows
  }

  // ---------------------------------------------------------------- the store

  class Database {
    const codec: Codec
    var rows: map<Key, Row>
    var series: map<(Key, string), seq<int>>

    constructor (codec: Codec)
      ensures Contents() == Tables(map[], map[]) && this.codec == codec
    {
      this.codec := codec;
      rows, series := map[], map[];
    }

    ghost function Contents(): Tables
      reads this
    {
      Tables(rows, series)
    }

    /** `writeMeasurements`: one transaction over the batch. The returned count is None for an error,
        and then nothing is written. */
    method WriteMeasurements(ms: seq<Measurement>, replace: bool) returns (inserted: Option<nat>)
      modifies this
      ensures match WriteAll(codec, old(Contents()), ms, replace)
              case None => inserted == None && Contents() == old(Contents())
              case Some(done) => inserted == Some(done.1) && Contents() == done.0
    {
      hide RowAccepted, SeriesAccepted, WithoutSeries, SeriesOf, WriteAll;
      ghost var before := Contents();
      WriteNone(codec, before, ms, replace);
      var txRows, txSeries, n := rows, series, 0;
      for i := 0 to |ms|
        invariant Contents() == before
        invariant WriteAll(codec, before, ms[..i], replace) == Some((Tables(txRows, txSeries), n))
      {
        var m := ms[i];
        WriteStep(codec, before, ms, i, replace);
        if !RowAccepted(codec, m) {
          RefusedStays(codec, before, ms, i + 1, replace);
          return None;
        }
        if !replace && m.key in txRows {
          continue;
        }
        txRows := txRows[m.key := m.row];
        txSeries := WithoutSeries(txSeries, m.key);
        var ok;
        ok, txSeries := PutSeries(m, txSeries);
        if !ok {
          RefusedStays(codec, before, ms, i + 1, replace);
          return None;
        }
        n := n + 1;
      }
      assert ms[..|ms|] == ms;
      rows, series := txRows, txSeries;
      return Some(n);
    }

    /** Inserts the series of one measurement, unless one has an unknown name or does not encode. */
    method PutSeries(m: Measurement, into: map<(Key, string), seq<int>>)
      returns (ok: bool, put: map<(Key, string), seq<int>>)
      ensures ok <==> SeriesAccepted(codec, m)
      ensures ok ==> put == into + SeriesOf(m)
    {
      hide SeriesNamed, SeriesOf;
      put := into;
      var names := m.series.Keys;
      SeriesNamedEnds(m);
      while names != {}
        invariant names <= m.series.Keys
        invariant forall name :: name in m.series && name !in names ==>
          codec.known(name) && codec.encodes(m.series[name])
        invariant put == into + SeriesNamed(m, m.series.Keys - names)
      {
        var name :| name in names;
        OneMoreSeries(into, m, names, name);
        if !codec.known(name) || !codec.encodes(m.series[name]) {
          return false, put;
        }
        put := put[(m.key, name) := m.series[name]];
        names := names - {name};
      }
      return true, put;
    }

    /** `IngestMeasurements`: first write wins; returns how many were already there. */
    method IngestMeasurements(ms: seq<Measurement>) returns (duplicates: Option<int>)
      modifies this
      ensures match WriteAll(codec, old(Contents()), ms, false)
              case None => duplicates == None && Contents() == old(Contents())
              case Some(done) => duplicates == Some(|ms| - done.1) && Contents() == done.0
    {
      var inserted := WriteMeasurements(ms, false);
      if inserted.None? {
        return None;
      }
      return Some(|ms| - inserted.value);
    }

    /** `DropSubmitted`: the outbox forgets rows, and their series with them. */
    method DropSubmitted(ms: seq<Measurement>)
      modifies this
      ensures Contents() == DropAll(old(Contents()), ms)
    {
      ghost var before := Contents();
      for i := 0 to |ms|
        invariant Contents() == DropAll(before, ms[..i])
      {
        assert ms[..i + 1][..i] == ms[..i];
        rows := rows - {ms[i].key};
        series := WithoutSeries(series, ms[i].key);
      }
      assert ms[..|ms|] == ms;
    }

    /** SELECT MIN(ts) .. WHERE target_id = ? */
    method OldestOf(target: int) returns (oldest: Option<int>)
      ensures oldest.None? <==> forall k :: k in rows ==> k.target != target
      ensures oldest.Some? ==>
        && (exists k :: k in rows && k.target == target && k.ts == oldest.value)
        && (forall k :: k in rows && k.target == target ==> oldest.value <= k.ts)
    {
      oldest := None;
      var todo := rows.Keys;
      while todo != {}
        invariant todo <= rows.Keys
        invariant oldest.None? ==> forall k :: k in rows && k !in todo ==> k.target != target
        invariant oldest.Some? ==> exists k :: k in rows && k.target == target && k.ts == oldest.value
        invariant oldest.Some? ==> forall k :: k in rows && k !in todo && k.target == target ==> oldest.value <= k.ts
      {
        var k :| k in todo;
        todo := todo - {k};
        if k.target == target && (oldest.None? || k.ts < oldest.value) {
          oldest := Some(k.ts);
        }
      }
    }

    /** `PruneMeasurements`: deletes in time slices, oldest first, until nothing older is left. It is
        one delete of everything before the cutoff, and its count is exact. */
    method PruneMeasurements(target: int, cutoff: int, sliceS: int) returns (total: nat)
      requires SeriesOwned(Contents())
      modifies this
      ensures Contents() == Pruned(old(Contents()), target, cutoff) && SeriesOwned(Contents())
      ensures total == |old(rows)| - |rows|
    {
      var slice := if sliceS <= 0 then 6 * 3600 else sliceS;
      ghost var before := Contents();
      total := 0;
      PrunedTwice(before, target, cutoff, cutoff);
      while true
        invariant SeriesOwned(Contents())
        invariant Pruned(Contents(), target, cutoff) == Pruned(before, target, cutoff)
        invariant total == |before.rows| - |rows|
        decreases |rows|
      {
        var oldest := OldestOf(target);
        if oldest.None? || oldest.value >= cutoff {
          NothingToPrune(Contents(), target, cutoff);
          return;
        }
        var end := if oldest.value + slice < cutoff then oldest.value + slice else cutoff;
        ghost var t := Contents();
        PrunedTwice(t, target, end, cutoff);
        var kept := map k | k in rows && !Old(k, target, end) :: rows[k];
        var n := |rows| - |kept|;
        series := map k | k in series && !Old(k.0, target, end) :: series[k];
        FewerRows(rows, kept);
        rows := kept;
        total := total + n;
        if n == 0 {
          assert false;
        }
      }
    }
  }

  // ---------------------------------------------------------------- facts the methods rest on

  lemma SeriesNamedEnds(m: Measurement)
    ensures SeriesNamed(m, m.series.Keys - m.series.Keys) == map[]
    ensures SeriesNamed(m, m.series.Keys - {}) == SeriesOf(m)
  {
  }

  lemma OneMoreSeries(into: map<(Key, string), seq<int>>, m: Measurement, names: set<string>, name: string)
    requires name in names && name in m.series
    ensures into + SeriesNamed(m, m.series.Keys - (names - {name}))
         == (into + SeriesNamed(m, m.series.Keys - names))[(m.key, name) := m.series[name]]
  {
  }

  lemma WriteNone(c: Codec, t: Tables, ms: seq<Measurement>, replace: bool)
    ensures WriteAll(c, t, ms[..0], replace) == Some((t, 0))
  {
  }

  lemma WriteStep(c: Codec, t: Tables, ms: seq<Measurement>, k: nat, replace: bool)
    requires k < |ms|
    ensures WriteAll(c, t, ms[..k + 1], replace) ==
            match WriteAll(c, t, ms[..k], replace)
            case None => None
            case Some(done) => WriteOne(c, done.0, done.1, ms[k], replace)
  {
    hide WriteOne;
    assert ms[..k + 1][..k] == ms[..k];
  }

  lemma {:induction false} RefusedStays(c: Codec, t: Tables, ms: seq<Measurement>, k: nat, replace: bool)
    requires k <= |ms| && WriteAll(c, t, ms[..k], replace) == None
    ensures WriteAll(c, t, ms, replace) == None
  {
    if k == |ms| {
      assert ms[..k] == ms;
    } else {
      assert ms[..|ms| - 1][..k] == ms[..k];
      RefusedStays(c, t, ms[..|ms| - 1], k, replace);
    }
  }

  lemma PrunedTwice(t: Tables, target: int, end: int, cutoff: int)
    requires end <= cutoff
    ensures Pruned(Pruned(t, target, end), target, cutoff) == Pruned(t, target, cutoff)
  {
  }

  lemma NothingToPrune(t: Tables, target: int, cutoff: int)
    requires SeriesOwned(t) && forall k :: k in t.rows ==> !Old(k, target, cutoff)
    ensures Pruned(t, target, cutoff) == t
  {
  }

  lemma FewerRows(rows: map<Key, Row>, kept: map<Key, Row>)
    requires kept.Keys <= rows.Keys
    ensures |kept| <= |rows|
    ensures (exists k :: k in rows && k !in kept) ==> |kept| < |rows|
  {
    SubsetSize(kept.Keys, rows.Keys);
    assert |kept| == |kept.Keys| && |rows| == |rows.Keys|;
    if k :| k in rows && k !in kept {
      SubsetSize(kept.Keys, rows.Keys - {k});
    }
  }

  // ---------------------------------------------------------------- first write wins

  /** Nothing stored before the batch is altered by ingesting it, neither row nor series. */
  ghost predicate Preserves(before: Tables, after: Tables) {
    && (forall k :: k in before.rows ==> k in after.rows && after.rows[k] == before.rows[k])
    && (forall k: (Key, string) :: k.0 in before.rows ==> (k in after.series <==> k in before.series))
    && (forall k: (Key, string) :: k.0 in before.rows && k in before.series ==> after.series[k] == before.series[k])
  }

  lemma PreservesTwice(a: Tables, b: Tables, c: Tables)
    requires Preserves(a, b) && Preserves(b, c)
    ensures Preserves(a, c)
  {
    forall k: (Key, string) | k.0 in a.rows
      ensures (k in c.series <==> k in a.series) && (k in a.series ==> c.series[k] == a.series[k])
    {
      assert k.0 in b.rows;
    }
  }

  /** A stored row came from the table before or from the batch. */
  ghost predicate From(t: Tables, ms: seq<Measurement>, k: Key, r: Row) {
    (k in t.rows && t.rows[k] == r) || exists m :: m in ms && m.key == k && m.row == r
  }

  /** What ingesting a batch does: stored intervals stay exactly as they are, every row of the batch is
      stored afterwards (by this batch or an earlier one), nothing else appears, and the count is that
      of the new keys. */
  ghost predicate Ingested(t: Tables, ms: seq<Measurement>, t': Tables, n: nat) {
    && Preserves(t, t')
    && (forall m :: m in ms ==> m.key in t'.rows)
    && (forall k :: k in t'.rows ==> From(t, ms, k, t'.rows[k]))
    && n == |t'.rows| - |t.rows|
  }

  lemma IngestNone(t: Tables)
    ensures Ingested(t, [], t, 0)
  {
  }

  lemma IngestKept(t: Tables, ms: seq<Measurement>, d: Tables, n: nat, m: Measurement)
    requires Ingested(t, ms, d, n) && m.key in d.rows
    ensures Ingested(t, ms + [m], d, n)
  {
    hide Preserves;
  }

  lemma IngestNew(t: Tables, ms: seq<Measurement>, d: Tables, n: nat, m: Measurement)
    requires Ingested(t, ms, d, n) && m.key !in d.rows
    ensures Ingested(t, ms + [m], Put(d, m), n + 1)
  {
    hide Preserves, WithoutSeries, SeriesOf, From;
    var t' := Put(d, m);
    PutPreserves(d, m);
    PreservesTwice(t, d, t');
    OneMoreKey(d.rows, m.key, m.row);
    forall k, r ensures From(t, ms, k, r) ==> From(t, ms + [m], k, r) {
      FromMore(t, ms, m, k, r);
    }
    FromMore(t, ms, m, m.key, m.row);
  }

  lemma FromMore(t: Tables, ms: seq<Measurement>, m: Measurement, k: Key, r: Row)
    ensures From(t, ms, k, r) ==> From(t, ms + [m], k, r)
    ensures From(t, ms + [m], m.key, m.row)
  {
    assert m in ms + [m];
  }

  lemma OneMoreKey(rows: map<Key, Row>, k: Key, r: Row)
    requires k !in rows
    ensures |rows[k := r]| == |rows| + 1
  {
    assert rows[k := r].Keys == rows.Keys + {k};
    assert |rows[k := r]| == |rows[k := r].Keys| && |rows| == |rows.Keys|;
  }

  lemma {:induction false} FirstWriteWins(c: Codec, t: Tables, ms: seq<Measurement>)
    requires WriteAll(c, t, ms, false).Some?
    ensures var (t', n) := WriteAll(c, t, ms, false).value; Ingested(t, ms, t', n)
  {
    hide Ingested, Put, RowAccepted, SeriesAccepted;
    if ms == [] {
      IngestNone(t);
    } else {
      var last := |ms| - 1;
      FirstWriteWins(c, t, ms[..last]);
      var (d, n) := WriteAll(c, t, ms[..last], false).value;
      assert ms == ms[..last] + [ms[last]];
      if ms[last].key in d.rows {
        IngestKept(t, ms[..last], d, n, ms[last]);
      } else {
        IngestNew(t, ms[..last], d, n, ms[last]);
      }
    }
  }

  lemma PutPreserves(t: Tables, m: Measurement)
    requires m.key !in t.rows
    ensures Preserves(t, Put(t, m))
  {
  }

  /** A batch offered a second time changes nothing and writes nothing: a retry after a lost reply is
      harmless. */
  lemma {:induction false} RetryIsNoOp(c: Codec, t: Tables, ms: seq<Measurement>)
    requires forall i :: 0 <= i < |ms| ==> RowAccepted(c, ms[i]) && ms[i].key in t.rows
    ensures WriteAll(c, t, ms, false) == Some((t, 0))
  {
    if ms != [] { RetryIsNoOp(c, t, ms[..|ms| - 1]); }
  }

  lemma {:induction false} AcceptedRows(c: Codec, t: Tables, ms: seq<Measurement>, replace: bool)
    requires WriteAll(c, t, ms, replace).Some?
    ensures forall i :: 0 <= i < |ms| ==> RowAccepted(c, ms[i])
  {
    hide RowAccepted, Put, SeriesAccepted;
    if ms != [] { AcceptedRows(c, t, ms[..|ms| - 1], replace); }
  }

  lemma IngestTwice(c: Codec, t: Tables, ms: seq<Measurement>)
    requires WriteAll(c, t, ms, false).Some?
    ensures var t' := WriteAll(c, t, ms, false).value.0;
      WriteAll(c, t', ms, false) == Some((t', 0))
  {
    FirstWriteWins(c, t, ms);
    AcceptedRows(c, t, ms, false);
    RetryIsNoOp(c, WriteAll(c, t, ms, false).value.0, ms);
  }

  // ---------------------------------------------------------------- which keys a step touches

  /** A write keeps every key, stores every key of the batch, and alters no row outside the batch. */
  lemma {:induction false} WriteKeys(c: Codec, t: Tables, ms: seq<Measurement>, replace: bool)
    requires WriteAll(c, t, ms, replace).Some?
    ensures var t' := WriteAll(c, t, ms, replace).value.0;
      && t.rows.Keys <= t'.rows.Keys
      && (forall m :: m in ms ==> m.key in t'.rows)
      && (forall k :: k in t'.rows ==> k in t.rows || exists m :: m in ms && m.key == k)
      && (forall k :: k in t.rows && (forall m :: m in ms ==> m.key != k) ==> t'.rows[k] == t.rows[k])
  {
    hide WithoutSeries, SeriesOf, RowAccepted, SeriesAccepted;
    if ms != [] {
      var last := |ms| - 1;
      WriteKeys(c, t, ms[..last], replace);
      assert ms == ms[..last] + [ms[last]];
      assert ms[last] in ms;
    }
  }

  lemma {:induction false} DropKeys(t: Tables, ms: seq<Measurement>)
    ensures forall k :: k in DropAll(t, ms).rows <==> k in t.rows && forall m :: m in ms ==> m.key != k
    ensures forall k :: k in DropAll(t, ms).rows ==> DropAll(t, ms).rows[k] == t.rows[k]
  {
    hide WithoutSeries;
    if ms != [] {
      var last := |ms| - 1;
      DropKeys(t, ms[..last]);
      assert ms == ms[..last] + [ms[last]];
      assert ms[last] in ms;
    }
  }

  // ---------------------------------------------------------------- whole entries

  function SeriesFor(t: Tables, key: Key): map<string, seq<int>> {
    map k | k in t.series && k.0 == key :: k.1 := t.series[k]
  }

  /** What is stored at a key, series included. */
  function EntryOf(t: Tables, key: Key): Measurement
    requires key in t.rows
  {
    Measurement(key, t.rows[key], SeriesFor(t, key))
  }

  lemma PutSeriesFor(t: Tables, m: Measurement)
    ensures SeriesFor(Put(t, m), m.key) == m.series
  {
    hide SeriesFor, Put;
    forall name ensures (m.key, name) in Put(t, m).series <==> name in m.series
      ensures name in m.series ==> Put(t, m).series[(m.key, name)] == m.series[name]
    {
      PutHas(t, m, name);
    }
    SeriesForIs(Put(t, m), m.key, m.series);
  }

  lemma PutHas(t: Tables, m: Measurement, name: string)
    ensures (m.key, name) in Put(t, m).series <==> name in m.series
    ensures name in m.series ==> Put(t, m).series[(m.key, name)] == m.series[name]
  {
    assert (m.key, name) in SeriesOf(m) <==> name in m.series;
  }

  lemma SeriesForIs(t: Tables, key: Key, series: map<string, seq<int>>)
    requires forall name :: (key, name) in t.series <==> name in series
    requires forall name :: name in series ==> t.series[(key, name)] == series[name]
    ensures SeriesFor(t, key) == series
  {
    var x := SeriesFor(t, key);
    forall name ensures name in x <==> name in series
      ensures name in x ==> x[name] == series[name]
    {
      assert name in x <==> (key, name) in t.series;
    }
  }

  lemma SameSeriesFor(a: Tables, b: Tables, key: Key)
    requires forall k: (Key, string) :: k.0 == key ==> (k in a.series <==> k in b.series)
    requires forall k: (Key, string) :: k.0 == key && k in a.series ==> a.series[k] == b.series[k]
    ensures SeriesFor(a, key) == SeriesFor(b, key)
  {
    var x, y := SeriesFor(a, key), SeriesFor(b, key);
    forall name ensures name in x <==> name in y
      ensures name in x ==> x[name] == y[name]
    {
      assert name in x <==> (key, name) in a.series;
      assert name in y <==> (key, name) in b.series;
    }
  }

  lemma PutKeepsOther(t: Tables, m: Measurement, k: Key)
    requires k != m.key
    ensures SeriesFor(Put(t, m), k) == SeriesFor(t, k)
  {
    hide SeriesFor;
    SameSeriesFor(Put(t, m), t, k);
  }

  lemma PutEntry(t: Tables, m: Measurement, k: Key)
    requires k == m.key || k in t.rows
    ensures EntryOf(Put(t, m), k) == if k == m.key then m else EntryOf(t, k)
  {
    if k == m.key { PutSeriesFor(t, m); } else { PutKeepsOther(t, m, k); }
    hide SeriesFor;
  }

  /** After a write every entry is one that was there, untouched, or one of the batch, whole. */
  lemma {:induction false} EntriesFrom(c: Codec, t: Tables, ms: seq<Measurement>, replace: bool)
    requires WriteAll(c, t, ms, replace).Some?
    ensures var t' := WriteAll(c, t, ms, replace).value.0;
      forall k :: k in t'.rows ==> (k in t.rows && EntryOf(t', k) == EntryOf(t, k)) || EntryOf(t', k) in ms
  {
    hide SeriesFor, RowAccepted, SeriesAccepted, WithoutSeries, SeriesOf;
    if ms != [] {
      var last := |ms| - 1;
      EntriesFrom(c, t, ms[..last], replace);
      var d := WriteAll(c, t, ms[..last], replace).value.0;
      assert forall m :: m in ms[..last] ==> m in ms;
      forall k | k == ms[last].key || k in d.rows
        ensures EntryOf(Put(d, ms[last]), k) == if k == ms[last].key then ms[last] else EntryOf(d, k)
      {
        PutEntry(d, ms[last], k);
      }
    }
  }

  lemma {:induction false} DropEntries(t: Tables, ms: seq<Measurement>)
    ensures forall k :: k in DropAll(t, ms).rows ==> k in t.rows && EntryOf(DropAll(t, ms), k) == EntryOf(t, k)
  {
    if ms != [] {
      var d, key := DropAll(t, ms[..|ms| - 1]), ms[|ms| - 1].key;
      DropEntries(t, ms[..|ms| - 1]);
      hide SeriesFor;
      forall k | k in DropAll(t, ms).rows ensures SeriesFor(DropAll(t, ms), k) == SeriesFor(d, k) {
        SameSeriesFor(DropAll(t, ms), d, k);
      }
    }
  }

  lemma PrunedEntries(t: Tables, target: int, cutoff: int)
    ensures forall k :: k in Pruned(t, target, cutoff).rows ==>
      k in t.rows && EntryOf(Pruned(t, target, cutoff), k) == EntryOf(t, k)
  {
    hide SeriesFor;
    var d := Pruned(t, target, cutoff);
    forall k | k in d.rows ensures SeriesFor(d, k) == SeriesFor(t, k) {
      SameSeriesFor(d, t, k);
    }
  }

  // ---------------------------------------------------------------- what every step keeps

  /** Everything that changes the two tables: the prober or an agent's batch being written, an outbox
      drain, and one committed slice of a prune. */
  datatype Step =
    | Write(ms: seq<Measurement>, replace: bool)
    | Drop(ms: seq<Measurement>)
    | PruneSlice(target: int, end: int)

  function Apply(c: Codec, t: Tables, s: Step): Tables {
    match s
    case Write(ms, replace) => (match WriteAll(c, t, ms, replace) case None => t case Some(done) => done.0)
    case Drop(ms) => DropAll(t, ms)
    case PruneSlice(target, end) => Pruned(t, target, end)
  }

  function Run(c: Codec, t: Tables, steps: seq<Step>): Tables {
    if steps == [] then t else Apply(c, Run(c, t, steps[..|steps| - 1]), steps[|steps| - 1])
  }

  lemma {:induction false} WriteKeepsOwned(c: Codec, t: Tables, ms: seq<Measurement>, replace: bool)
    requires SeriesOwned(t) && WriteAll(c, t, ms, replace).Some?
    ensures SeriesOwned(WriteAll(c, t, ms, replace).value.0)
  {
    if ms != [] { WriteKeepsOwned(c, t, ms[..|ms| - 1], replace); }
  }

  lemma {:induction false} DropKeepsOwned(t: Tables, ms: seq<Measurement>)
    requires SeriesOwned(t)
    ensures SeriesOwned(DropAll(t, ms))
  {
    if ms != [] { DropKeepsOwned(t, ms[..|ms| - 1]); }
  }

  /** No interleaving of writes, ingests, drops and prune slices leaves a series row without its
      measurement. What that means for a read of two statements, `ReadFailsExactlyWhen` says. */
  lemma {:induction false} SeriesAlwaysOwned(c: Codec, t: Tables, steps: seq<Step>)
    requires SeriesOwned(t)
    ensures SeriesOwned(Run(c, t, steps))
  {
    if steps != [] {
      SeriesAlwaysOwned(c, t, steps[..|steps| - 1]);
      var r := Run(c, t, steps[..|steps| - 1]);
      match steps[|steps| - 1] {
        case Write(ms, replace) =>
          if WriteAll(c, r, ms, replace).Some? { WriteKeepsOwned(c, r, ms, replace); }
        case Drop(ms) => DropKeepsOwned(r, ms);
        case PruneSlice(_, _) =>
      }
    }
  }

  // ---------------------------------------------------------------- reading a range

  /** One series over a stretch of time. */
  datatype Range = Range(target: int, agent: int, from: int, to: int)

  predicate Inside(k: Key, w: Range) { k.target == w.target && k.agent == w.agent && w.from <= k.ts < w.to }

  function RowsIn(t: Tables, w: Range): map<Key, Row> { map k | k in t.rows && Inside(k, w) :: t.rows[k] }

  /** `attachSeries`: the rows are those the first statement read, the series those of the moment the second
      one runs. None is its "has no measurement" error; a stored list that does not decode is left out. */
  function AttachSeries(rows: map<Key, Row>, t: Tables, w: Range, decodes: seq<int> -> bool)
    : Option<map<(Key, string), seq<int>>>
  {
    var found := map k | k in t.series && Inside(k.0, w) :: t.series[k];
    if exists k :: k in found && k.0 !in rows then None
    else Some(map k | k in found && decodes(found[k]) :: found[k])
  }

  /** `QueryRange`: two statements, and between them whatever else commits. */
  function QueryRange(c: Codec, t: Tables, between: seq<Step>, w: Range, decodes: seq<int> -> bool)
    : Option<map<(Key, string), seq<int>>>
  {
    AttachSeries(RowsIn(t, w), Run(c, t, between), w, decodes)
  }

  /** An interval of the range that was not there at the first statement, and at the second has series. */
  ghost predicate ArrivedBetween(t: Tables, later: Tables, w: Range, k: Key) {
    k in later.rows && k !in t.rows && Inside(k, w) && SeriesFor(later, k) != map[]
  }

  /** When a read fails: exactly when an interval with series was committed between its two statements, though
      no series was ever without its measurement. */
  lemma ReadFailsExactlyWhen(c: Codec, t: Tables, between: seq<Step>, w: Range, decodes: seq<int> -> bool)
    requires SeriesOwned(t)
    ensures var later := Run(c, t, between);
      && SeriesOwned(later)
      && (QueryRange(c, t, between, w, decodes).None? <==> exists k :: ArrivedBetween(t, later, w, k))
  {
    SeriesAlwaysOwned(c, t, between);
    var later := Run(c, t, between);
    hide Run;
    if k :| ArrivedBetween(t, later, w, k) {
      var name :| name in SeriesFor(later, k);
      assert (k, name) in later.series;
    }
    if k :| k in later.series && Inside(k.0, w) && k.0 !in RowsIn(t, w) {
      assert k.1 in SeriesFor(later, k.0);
      assert ArrivedBetween(t, later, w, k.0);
    }
  }

  /** So a read of one state never fails, in any state the writers can reach.. */
  lemma ReadsNeverMeetOrphans(c: Codec, steps: seq<Step>, w: Range, decodes: seq<int> -> bool)
    ensures QueryRange(c, Run(c, Tables(map[], map[]), steps), [], w, decodes).Some?
  {
    SeriesAlwaysOwned(c, Tables(map[], map[]), steps);
    ReadFailsExactlyWhen(c, Run(c, Tables(map[], map[]), steps), [], w, decodes);
  }

  lemma {:induction false} DropsAndPrunesAddNothing(c: Codec, t: Tables, between: seq<Step>)
    requires forall i :: 0 <= i < |between| ==> !between[i].Write?
    ensures Run(c, t, between).rows.Keys <= t.rows.Keys
  {
    if between != [] {
      var n := |between| - 1;
      DropsAndPrunesAddNothing(c, t, between[..n]);
      if between[n].Drop? {
        DropKeys(Run(c, t, between[..n]), between[n].ms);
      }
    }
  }

  /** .. nor does one with only drops and prune slices between its statements.. */
  lemma DropsAndPrunesFailNoRead(c: Codec, t: Tables, between: seq<Step>, w: Range, decodes: seq<int> -> bool)
    requires SeriesOwned(t) && forall i :: 0 <= i < |between| ==> !between[i].Write?
    ensures QueryRange(c, t, between, w, decodes).Some?
  {
    DropsAndPrunesAddNothing(c, t, between);
    ReadFailsExactlyWhen(c, t, between, w, decodes);
  }

  lemma OneWrite(c: Codec, t: Tables, m: Measurement, replace: bool)
    requires RowAccepted(c, m) && SeriesAccepted(c, m) && m.key !in t.rows
    ensures Run(c, t, [Write([m], replace)]) == Put(t, m)
  {
    hide RowAccepted, SeriesAccepted, Put;
    assert [Write([m], replace)][..0] == [] && [m][..0] == [];
    assert Run(c, t, []) == t && WriteAll(c, t, [], replace) == Some((t, 0));
  }

  /** .. but the write of any new interval that has a series does fail it.. */
  lemma AWriteBetweenFailsTheRead(c: Codec, t: Tables, m: Measurement, replace: bool, w: Range,
                                  decodes: seq<int> -> bool)
    requires SeriesOwned(t) && RowAccepted(c, m) && SeriesAccepted(c, m)
    requires m.key !in t.rows && Inside(m.key, w) && m.series != map[]
    ensures QueryRange(c, t, [Write([m], replace)], w, decodes).None?
  {
    OneWrite(c, t, m, replace);
    PutEntry(t, m, m.key);
    ReadFailsExactlyWhen(c, t, [Write([m], replace)], w, decodes);
    hide Run, QueryRange, SeriesFor, RowAccepted, SeriesAccepted;
    assert ArrivedBetween(t, Put(t, m), w, m.key);
  }

  const FIRST: Measurement := Measurement(Key(1, 0, 60), Row(1, 1, 0, [5], None, None), map["ipdv_send" := [1]])

  /** .. for instance the first one of a new database. */
  lemma AFirstWriteFailsTheRead(c: Codec, decodes: seq<int> -> bool)
    requires c.known("ipdv_send") && c.encodes([5]) && c.encodes([1])
    ensures QueryRange(c, Tables(map[], map[]), [Write([FIRST], true)], Range(1, 0, 0, 120), decodes).None?
  {
    assert RowAccepted(c, FIRST) && SeriesAccepted(c, FIRST) && "ipdv_send" in FIRST.series;
    hide RowAccepted, SeriesAccepted, QueryRange;
    AWriteBetweenFailsTheRead(c, Tables(map[], map[]), FIRST, true, Range(1, 0, 0, 120), decodes);
  }

  /** What a read that succeeds serves for an interval that was replaced in between: the row of the first
      statement with the series of the second; for every other it is what was stored, whole. */
  lemma ReadServes(c: Codec, t: Tables, between: seq<Step>, w: Range, decodes: seq<int> -> bool, k: Key)
    requires SeriesOwned(t) && QueryRange(c, t, between, w, decodes).Some? && k in t.rows && Inside(k, w)
    ensures var later, read := Run(c, t, between), QueryRange(c, t, between, w, decodes).value;
      && (forall name :: (k, name) in read <==> (k, name) in later.series && decodes(later.series[(k, name)]))
      && (forall name :: (k, name) in read ==> read[(k, name)] == later.series[(k, name)])
      && ((forall i :: 0 <= i < |between| ==> !Touches(between[i], k)) ==> SeriesFor(later, k) == SeriesFor(t, k))
  {
    if forall i :: 0 <= i < |between| ==> !Touches(between[i], k) {
      UntouchedSeries(c, t, between, k);
    }
    hide Run, SeriesFor;
  }

  predicate Touches(s: Step, k: Key) {
    match s
    case Write(ms, _) => exists m :: m in ms && m.key == k
    case Drop(ms) => exists m :: m in ms && m.key == k
    case PruneSlice(target, end) => Old(k, target, end)
  }

  lemma {:induction false} UntouchedByWrite(c: Codec, t: Tables, ms: seq<Measurement>, replace: bool, k: Key)
    requires (forall m :: m in ms ==> m.key != k) && WriteAll(c, t, ms, replace).Some?
    ensures SeriesFor(WriteAll(c, t, ms, replace).value.0, k) == SeriesFor(t, k)
  {
    hide SeriesFor, RowAccepted, SeriesAccepted, Put;
    if ms != [] {
      var n := |ms| - 1;
      UntouchedByWrite(c, t, ms[..n], replace, k);
      assert ms[n] in ms;
      PutKeepsOther(WriteAll(c, t, ms[..n], replace).value.0, ms[n], k);
    }
  }

  lemma {:induction false} UntouchedByDrop(t: Tables, ms: seq<Measurement>, k: Key)
    requires forall m :: m in ms ==> m.key != k
    ensures SeriesFor(DropAll(t, ms), k) == SeriesFor(t, k)
  {
    if ms != [] {
      var n := |ms| - 1;
      UntouchedByDrop(t, ms[..n], k);
      assert ms[n] in ms;
      hide SeriesFor;
      SameSeriesFor(DropAll(t, ms), DropAll(t, ms[..n]), k);
    }
  }

  lemma {:induction false} UntouchedSeries(c: Codec, t: Tables, steps: seq<Step>, k: Key)
    requires forall i :: 0 <= i < |steps| ==> !Touches(steps[i], k)
    ensures SeriesFor(Run(c, t, steps), k) == SeriesFor(t, k)
  {
    if steps != [] {
      var n := |steps| - 1;
      var r := Run(c, t, steps[..n]);
      assert !Touches(steps[n], k);
      UntouchedSeries(c, t, steps[..n], k);
      hide SeriesFor, WriteAll, DropAll;
      match steps[n] {
        case Write(ms, replace) =>
          if WriteAll(c, r, ms, replace).Some? { UntouchedByWrite(c, r, ms, replace, k); }
        case Drop(ms) => UntouchedByDrop(r, ms, k);
        case PruneSlice(target, end) => SameSeriesFor(Pruned(r, target, end), r, k);
      }
    }
  }
}
