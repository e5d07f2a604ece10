/** What the two writes of measurements come to (internal/store/sqlite.go `WriteMeasurements` and
    `IngestMeasurements`): when they succeed, and what they leave of several rows under one key. */
module Writes {
  import opened Options
  import opened Store

  /** As many replies as samples, in an order the codec takes. */
  ghost predicate RowFits(c: Codec, m: Measurement) {
    |m.row.samples| == m.row.received && c.encodes(m.row.samples)
  }

  ghost predicate SeriesFit(c: Codec, m: Measurement) {
    forall name :: name in m.series.Keys ==> c.encodes(m.series[name]) && c.known(name)
  }

  ghost predicate LastOfItsKey(ms: seq<Measurement>, i: nat)
    requires i < |ms|
  {
    forall j :: i < j < |ms| ==> ms[j].key != ms[i].key
  }

  ghost predicate FirstOfItsKey(ms: seq<Measurement>, i: nat)
    requires i < |ms|
  {
    forall j :: 0 <= j < i ==> ms[j].key != ms[i].key
  }

  lemma OneWritten(c: Codec, t: Tables, n: nat, m: Measurement, replace: bool)
    ensures var r := WriteOne(c, t, n, m, replace);
      && (r.Some? <==> RowFits(c, m) && ((!replace && m.key in t.rows) || SeriesFit(c, m)))
      && (r.Some? ==> forall k :: k in r.value.0.rows <==> k in t.rows || k == m.key)
      && (r.Some? && (replace || m.key !in t.rows) ==> EntryOf(r.value.0, m.key) == m && r.value.1 == n + 1)
      && (r.Some? && !replace && m.key in t.rows ==> r.value == (t, n))
      && (r.Some? ==> forall k :: k in t.rows && k != m.key ==> EntryOf(r.value.0, k) == EntryOf(t, k))
  {
    hide SeriesFor, Put;
    PutKeys(t, m);
    forall k | k in t.rows || k == m.key
      ensures EntryOf(Put(t, m), k) == if k == m.key then m else EntryOf(t, k)
    {
      PutEntry(t, m, k);
    }
  }

  lemma PutKeys(t: Tables, m: Measurement)
    ensures forall k :: k in Put(t, m).rows <==> k in t.rows || k == m.key
  {
  }

  lemma WrittenSplits(c: Codec, t: Tables, ms: seq<Measurement>, replace: bool)
    requires ms != []
    ensures var most := WriteAll(c, t, ms[..|ms| - 1], replace);
      WriteAll(c, t, ms, replace) ==
        if most.None? then None else WriteOne(c, most.value.0, most.value.1, ms[|ms| - 1], replace)
  {
    hide WriteOne;
  }

  lemma WrittenNone(c: Codec, t: Tables, replace: bool)
    ensures WriteAll(c, t, [], replace) == Some((t, 0))
  {
  }

  /** A replacing write succeeds exactly when every row and every series of it fits; then the last row under each
      key is stored, whole. */
  lemma {:induction false} LastWriteWins(c: Codec, t: Tables, ms: seq<Measurement>)
    ensures var r := WriteAll(c, t, ms, true);
      && (r.Some? <==> forall i :: 0 <= i < |ms| ==> RowFits(c, ms[i]) && SeriesFit(c, ms[i]))
      && (r.Some? ==> r.value.1 == |ms|)
      && (r.Some? ==> forall i :: 0 <= i < |ms| && LastOfItsKey(ms, i) ==>
           ms[i].key in r.value.0.rows && EntryOf(r.value.0, ms[i].key) == ms[i])
  {
    hide *;
    if ms == [] {
      WrittenNone(c, t, true);
    } else {
      var n := |ms| - 1;
      var first, last := ms[..n], ms[n];
      LastWriteWins(c, t, first);
      WrittenSplits(c, t, ms, true);
      var most := WriteAll(c, t, first, true);
      if most.Some? {
        OneWritten(c, most.value.0, most.value.1, last, true);
        var r := WriteAll(c, t, ms, true);
        if r.Some? {
          forall i | 0 <= i < |ms| && LastOfItsKey(ms, i)
            ensures ms[i].key in r.value.0.rows && EntryOf(r.value.0, ms[i].key) == ms[i]
          {
            if i < n {
              LastInFront(ms, i);
              assert first[i] == ms[i];
            }
          }
        }
      }
      assert forall i :: 0 <= i < n ==> first[i] == ms[i];
    }
  }

  lemma LastInFront(ms: seq<Measurement>, i: nat)
    requires i < |ms| - 1 && LastOfItsKey(ms, i)
    ensures LastOfItsKey(ms[..|ms| - 1], i) && ms[|ms| - 1].key != ms[i].key
  {
  }

  /** The series of a row are looked at only when the row is new. */
  ghost predicate IngestFits(c: Codec, t: Tables, ms: seq<Measurement>, i: nat)
    requires i < |ms|
  {
    RowFits(c, ms[i]) && (SeriesFit(c, ms[i]) || ms[i].key in t.rows || !FirstOfItsKey(ms, i))
  }

  /** An ingest succeeds exactly when every row fits, and the series of each new one; then the first row under each
      new key is stored, whole. */
  lemma {:induction false} FirstRowIsStored(c: Codec, t: Tables, ms: seq<Measurement>)
    ensures var r := WriteAll(c, t, ms, false);
      && (r.Some? <==> forall i :: 0 <= i < |ms| ==> IngestFits(c, t, ms, i))
      && (r.Some? ==> forall i :: 0 <= i < |ms| ==> ms[i].key in r.value.0.rows)
      && (r.Some? ==> forall k :: k in r.value.0.rows ==> k in t.rows || exists i :: 0 <= i < |ms| && ms[i].key == k)
      && (r.Some? ==> forall k :: k in t.rows ==> k in r.value.0.rows && EntryOf(r.value.0, k) == EntryOf(t, k))
      && (r.Some? ==> forall i :: 0 <= i < |ms| && FirstOfItsKey(ms, i) && ms[i].key !in t.rows ==>
           EntryOf(r.value.0, ms[i].key) == ms[i])
  {
    hide *;
    if ms == [] {
      WrittenNone(c, t, false);
    } else {
      var n := |ms| - 1;
      var first, last := ms[..n], ms[n];
      assert forall i :: 0 <= i < n ==> first[i] == ms[i];
      FirstRowIsStored(c, t, first);
      WrittenSplits(c, t, ms, false);
      var most := WriteAll(c, t, first, false);
      forall i | 0 <= i < n ensures IngestFits(c, t, first, i) <==> IngestFits(c, t, ms, i) {
        FrontFits(c, t, ms, i);
      }
      if most.Some? {
        OneWritten(c, most.value.0, most.value.1, last, false);
        NewKey(c, t, ms);
        var r := WriteAll(c, t, ms, false);
        if r.Some? {
          forall i | 0 <= i < |ms| && FirstOfItsKey(ms, i) && ms[i].key !in t.rows
            ensures EntryOf(r.value.0, ms[i].key) == ms[i]
          {
            if i < n {
              FrontFits(c, t, ms, i);
            }
          }
          forall k | k in r.value.0.rows ensures k in t.rows || exists i :: 0 <= i < |ms| && ms[i].key == k {
            if k != last.key && k !in t.rows {
              var i :| 0 <= i < n && first[i].key == k;
              assert ms[i].key == k;
            }
          }
        }
      }
    }
  }

  lemma FrontFits(c: Codec, t: Tables, ms: seq<Measurement>, i: nat)
    requires i < |ms| - 1
    ensures IngestFits(c, t, ms[..|ms| - 1], i) <==> IngestFits(c, t, ms, i)
    ensures FirstOfItsKey(ms[..|ms| - 1], i) <==> FirstOfItsKey(ms, i)
  {
  }

  lemma NewKey(c: Codec, t: Tables, ms: seq<Measurement>)
    requires ms != []
    ensures var n := |ms| - 1;
      && (FirstOfItsKey(ms, n) <==> forall i :: 0 <= i < n ==> ms[..n][i].key != ms[n].key)
      && (IngestFits(c, t, ms, n) <==>
           RowFits(c, ms[n]) && (SeriesFit(c, ms[n]) || ms[n].key in t.rows || !FirstOfItsKey(ms, n)))
  {
    hide RowFits, SeriesFit;
    assert forall i :: 0 <= i < |ms| - 1 ==> ms[..|ms| - 1][i] == ms[i];
  }

  /** Pruning takes the intervals of one target that began before the cutoff, and leaves every other whole. */
  lemma PruneTakesTheOld(t: Tables, target: int, cutoff: int)
    ensures var t' := Pruned(t, target, cutoff);
      && (forall k :: k in t'.rows <==> k in t.rows && (k.target != target || k.ts >= cutoff))
      && (forall k :: k in t'.rows ==> EntryOf(t', k) == EntryOf(t, k))
      && (forall x :: x in t'.series <==> x in t.series && (x.0.target != target || x.0.ts >= cutoff))
  {
    PrunedEntries(t, target, cutoff);
    hide SeriesFor;
  }

  /** Dropping a batch takes its keys, and leaves every other interval whole. */
  lemma DropTakesTheBatch(t: Tables, ms: seq<Measurement>)
    ensures var t' := DropAll(t, ms);
      && (forall k :: k in t'.rows <==> k in t.rows && forall m :: m in ms ==> m.key != k)
      && (forall k :: k in t'.rows ==> EntryOf(t', k) == EntryOf(t, k))
  {
    DropEntries(t, ms);
    DropKeys(t, ms);
    hide DropAll, SeriesFor;
  }
}
