/** An import writes its plan row by row, each row on its own (`Apply` of internal/config/config.go, after its
    checks): it can be cut off between two rows, and other writes can come between its check and its rows.
    What such a tree is worth, and what the rows of a whole import come to. */
module ImportWrites {
  import opened Options
  import opened Sets
  import opened Tree
  import opened TreeIndex
  import opened TreeLimits
  import opened TreeEdits
  import opened Renumbering
  import opened TreeRuns
  import ConfigTree
  import Config

  // ---------------------------------------------------------------- rows

  datatype Write = Put(t: Target) | Remove(id: int)

  /** The table after one row: INSERT .. ON CONFLICT DO UPDATE, or DELETE. */
  function Wrote(targets: seq<Target>, w: Write): seq<Target> {
    match w
    case Put(t) => PutRow(targets, t)
    case Remove(id) => Kept(targets, (t: Target) => t.id != id)
  }

  function PutRow(targets: seq<Target>, t: Target): seq<Target> {
    if targets == [] then [t]
    else
      var n := |targets| - 1;
      if targets[n].id == t.id then targets[..n] + [t] else PutRow(targets[..n], t) + [targets[n]]
  }

  function WroteAll(targets: seq<Target>, ws: seq<Write>): seq<Target> {
    if ws == [] then targets else Wrote(WroteAll(targets, ws[..|ws| - 1]), ws[|ws| - 1])
  }

  lemma {:induction false} PutRowHas(targets: seq<Target>, t: Target)
    ensures forall x :: x in PutRow(targets, t) ==> x in targets || x == t
  {
    if targets != [] {
      var n := |targets| - 1;
      PutRowHas(targets[..n], t);
      assert forall x :: x in targets <==> x in targets[..n] || x == targets[n];
    }
  }

  lemma {:induction false} PutRowIsUnique(targets: seq<Target>, t: Target)
    requires UniqueIds(targets)
    ensures UniqueIds(PutRow(targets, t))
  {
    if targets != [] {
      var n := |targets| - 1;
      var first, last := targets[..n], targets[n];
      assert UniqueIds(first);
      PutRowIsUnique(first, t);
      var most := if last.id == t.id then first else PutRow(first, t);
      PutRowHas(first, t);
      forall k | 0 <= k < |most| ensures most[k].id != last.id {
        assert most[k] in most;
        if most[k] in first {
          var i :| 0 <= i < n && first[i] == most[k];
          assert targets[i].id != targets[n].id;
        }
      }
    }
  }

  lemma NodesOfOneMore(first: seq<Target>, last: Target)
    ensures NodesOf(first + [last]) == NodesOf(first)[last.id := last]
  {
    assert (first + [last])[..|first|] == first;
  }

  lemma PutRowLast(first: seq<Target>, last: Target, t: Target)
    ensures PutRow(first + [last], t) == if last.id == t.id then first + [t] else PutRow(first, t) + [last]
    ensures PutRow([], t) == [] + [t]
  {
    assert (first + [last])[..|first|] == first;
  }

  lemma PutTwice(nodes: Nodes, a: Target, b: Target)
    ensures nodes[a.id := a][b.id := b] == if a.id == b.id then nodes[b.id := b] else nodes[b.id := b][a.id := a]
  {
  }

  lemma {:induction false} PutRowIndexed(targets: seq<Target>, t: Target)
    ensures NodesOf(PutRow(targets, t)) == NodesOf(targets)[t.id := t]
  {
    hide *;
    if targets == [] {
      NodesOfOneMore([], t);
      PutRowLast([], t, t);
    } else {
      var n := |targets| - 1;
      var first, last := targets[..n], targets[n];
      assert targets == first + [last];
      PutRowLast(first, last, t);
      NodesOfOneMore(first, last);
      NodesOfOneMore(first, t);
      PutRowIndexed(first, t);
      NodesOfOneMore(PutRow(first, t), last);
      PutTwice(NodesOf(first), last, t);
    }
  }

  lemma {:induction false} RemovedIs(targets: seq<Target>, id: int)
    requires UniqueIds(targets)
    ensures var rest := Kept(targets, (t: Target) => t.id != id);
      UniqueIds(rest) && NodesOf(rest) == NodesOf(targets) - {id}
  {
    var keep := (t: Target) => t.id != id;
    var rest := Kept(targets, keep);
    KeptUnique(targets, keep);
    forall x | x in NodesOf(rest) ensures x != id && x in NodesOf(targets) && NodesOf(rest)[x] == NodesOf(targets)[x] {
      var k := NodesOfSource(rest, x);
      KeptIs(targets, keep, rest[k]);
      var j :| 0 <= j < |targets| && targets[j] == rest[k];
      NodesOfEntry(targets, j);
    }
    forall x | x in NodesOf(targets) && x != id ensures x in NodesOf(rest) {
      var j := NodesOfSource(targets, x);
      KeptIs(targets, keep, targets[j]);
      var k :| 0 <= k < |rest| && rest[k] == targets[j];
      NodesOfEntry(rest, k);
    }
  }

  /** What rows do to the index. */
  function Indexed(nodes: Nodes, w: Write): Nodes {
    match w case Put(t) => nodes[t.id := t] case Remove(id) => nodes - {id}
  }

  lemma WroteIs(targets: seq<Target>, w: Write)
    requires UniqueIds(targets)
    ensures UniqueIds(Wrote(targets, w)) && NodesOf(Wrote(targets, w)) == Indexed(NodesOf(targets), w)
  {
    match w
    case Put(t) =>
      PutRowIsUnique(targets, t);
      PutRowIndexed(targets, t);
    case Remove(id) => RemovedIs(targets, id);
  }

  // ---------------------------------------------------------------- any tree, however it came about

  /** What comes after a sound tree is sound exactly when the check of an import passes it, as it actually is:
      cut off after any row, or written over a tree that changed meanwhile. */
  lemma SoundIsChecked(current: seq<Target>, written: seq<Target>)
    requires Sound(current)
    ensures Sound(written) <==> Checked(current, written)
  {
    if Sound(written) {
      SoundPasses(current, written);
    } else if Checked(current, written) {
      hide Valid, AllBounded, NoWorse, CheckLimits;
      assert Valid(current) by { SoundGives(current); }
      assert AllBounded(current) by { SoundGives(current); }
      assert Accepted(current, written);
      AcceptedIsNoWorse(current, written);
      CheckedIsBounded(current, written);
      NoWorseThanSound(current, written);
    }
  }

  /** A sound tree passes the check whatever it replaces. */
  lemma SoundPasses(current: seq<Target>, written: seq<Target>)
    requires Sound(written)
    ensures Checked(current, written)
  {
    ValidGives(written);
    hide Valid, ValidNodes, NodesOf, Depth, LoadOf, WithinLimits, Bounded, RateOf;
    forall k | 0 <= k < |written| ensures CheckLimits(StoredAs(NodesOf(current), written[k].id), written[k]) {
    }
    forall id | id in NodesOf(written)
      ensures DepthFine(PriorOf(current), NodesOf(written), id) && LoadFine(PriorOf(current), NodesOf(written), id)
    {
    }
  }

  lemma CheckedIsBounded(current: seq<Target>, written: seq<Target>)
    requires Valid(current) && AllBounded(current) && Checked(current, written)
    ensures AllBounded(written)
  {
    ValidGives(current);
    hide Valid, ValidNodes, NodesOf, Accepted, Bounded, TotalRate;
    forall k, f | 0 <= k < |written| && f in written[k].settings.ints ensures Bounded(f, written[k].settings.ints[f]) {
      var x := written[k].id;
      assert CheckLimits(StoredAs(NodesOf(current), x), written[k]);
      if x in NodesOf(current) && Unchanged(Some(NodesOf(current)[x]), written[k], f) {
        var i :| 0 <= i < |current| && current[i].id == x;
      }
    }
  }

  /** A run in which imports also write row by row, interrupted and interleaved at will. */
  ghost predicate MixedRun(states: seq<seq<Target>>) {
    && states != [] && states[0] == [ROOT]
    && forall i :: 0 <= i < |states| - 1 ==> Step(states[i], states[i + 1]) || ARow(states[i], states[i + 1])
  }

  ghost predicate ARow(current: seq<Target>, next: seq<Target>) { exists w :: next == Wrote(current, w) }

  /** A turn of such a run that is whole, or leaves what the check would have passed. */
  ghost predicate Good(states: seq<seq<Target>>, i: nat)
    requires i + 1 < |states|
  {
    Step(states[i], states[i + 1]) || Checked(states[i], states[i + 1])
  }

  lemma {:induction false} GoodTurnsStaySound(states: seq<seq<Target>>, i: nat)
    requires MixedRun(states) && i < |states| && forall j :: 0 <= j < |states| - 1 ==> Good(states, j)
    ensures Sound(states[i])
  {
    if i == 0 {
      SeedIsSound();
    } else {
      GoodTurnsStaySound(states, i - 1);
      assert Good(states, i - 1);
      hide Step, Sound, Checked;
      if Step(states[i - 1], states[i]) {
        StepStaysSound(states[i - 1], states[i]);
      } else {
        SoundIsChecked(states[i - 1], states[i]);
      }
    }
  }

  lemma StepStaysSound(current: seq<Target>, next: seq<Target>)
    requires Sound(current) && Step(current, next)
    ensures Sound(next)
  {
    hide Step, NoWorse, Valid, AllBounded;
    StepIsNoWorse(current, next);
    assert AllBounded(current) by { SoundGives(current); }
    NoWorseThanSound(current, next);
  }

  /** A run with imports written row by row keeps every tree sound exactly when each row of them leaves a tree
      that the check of an import would have passed. */
  lemma MixedRunsAreSoundExactly(states: seq<seq<Target>>)
    requires MixedRun(states)
    ensures (forall i :: 0 <= i < |states| ==> Sound(states[i])) <==>
        (forall i :: 0 <= i < |states| - 1 ==> Good(states, i))
  {
    hide Sound, MixedRun, Checked, Step;
    if forall i :: 0 <= i < |states| ==> Sound(states[i]) {
      forall i | 0 <= i < |states| - 1 ensures Good(states, i) {
        SoundPasses(states[i], states[i + 1]);
      }
    } else if forall i :: 0 <= i < |states| - 1 ==> Good(states, i) {
      forall i | 0 <= i < |states| ensures Sound(states[i]) {
        GoodTurnsStaySound(states, i);
      }
    }
  }

  // ---------------------------------------------------------------- a whole import

  function Puts(rows: seq<Target>): seq<Write> { seq(|rows|, i requires 0 <= i < |rows| => Put(rows[i])) }

  function Removes(ids: seq<int>): seq<Write> { seq(|ids|, i requires 0 <= i < |ids| => Remove(ids[i])) }

  lemma WroteOneMore(targets: seq<Target>, ws: seq<Write>, w: Write)
    ensures WroteAll(targets, ws + [w]) == Wrote(WroteAll(targets, ws), w)
  {
    assert (ws + [w])[..|ws|] == ws;
  }

  lemma PutOverBoth(a: Nodes, b: Nodes, t: Target)
    ensures (a + b)[t.id := t] == a + b[t.id := t]
    ensures a + map[] == a
  {
  }

  lemma RemoveFromBoth(a: Nodes, ids: set<int>, id: int)
    ensures (a - ids) - {id} == a - (ids + {id})
    ensures a - {} == a
  {
  }

  lemma PutsLast(rows: seq<Target>, t: Target)
    ensures Puts(rows + [t]) == Puts(rows) + [Put(t)] && Puts([]) == []
  {
  }

  lemma RemovesLast(ids: seq<int>, id: int)
    ensures Removes(ids + [id]) == Removes(ids) + [Remove(id)] && Removes([]) == []
    ensures Elements(ids + [id]) == Elements(ids) + {id} && Elements<int>([]) == {}
  {
  }

  lemma WroteNothing(targets: seq<Target>)
    ensures WroteAll(targets, []) == targets && NodesOf([]) == map[]
  {
  }

  lemma IndexedIs(nodes: Nodes, t: Target, id: int)
    ensures Indexed(nodes, Put(t)) == nodes[t.id := t] && Indexed(nodes, Remove(id)) == nodes - {id}
  {
  }

  lemma {:induction false} PutsWritten(targets: seq<Target>, rows: seq<Target>)
    requires UniqueIds(targets)
    ensures UniqueIds(WroteAll(targets, Puts(rows)))
    ensures NodesOf(WroteAll(targets, Puts(rows))) == NodesOf(targets) + NodesOf(rows)
  {
    hide *;
    if rows == [] {
      PutsLast([], ROOT);
      WroteNothing(targets);
      PutOverBoth(NodesOf(targets), map[], ROOT);
    } else {
      var most, last := rows[..|rows| - 1], rows[|rows| - 1];
      assert rows == most + [last];
      PutsLast(most, last);
      PutsWritten(targets, most);
      WroteOneMore(targets, Puts(most), Put(last));
      WroteIs(WroteAll(targets, Puts(most)), Put(last));
      IndexedIs(NodesOf(WroteAll(targets, Puts(most))), last, 0);
      NodesOfOneMore(most, last);
      PutOverBoth(NodesOf(targets), NodesOf(most), last);
    }
  }

  lemma {:induction false} RemovesWritten(targets: seq<Target>, ws: seq<Write>, ids: seq<int>)
    requires UniqueIds(WroteAll(targets, ws))
    ensures UniqueIds(WroteAll(targets, ws + Removes(ids)))
    ensures NodesOf(WroteAll(targets, ws + Removes(ids))) == NodesOf(WroteAll(targets, ws)) - Elements(ids)
  {
    hide *;
    var nodes := NodesOf(WroteAll(targets, ws));
    if ids == [] {
      RemovesLast([], 0);
      RemoveFromBoth(nodes, {}, 0);
      assert ws + [] == ws;
    } else {
      var most, last := ids[..|ids| - 1], ids[|ids| - 1];
      assert ids == most + [last];
      RemovesLast(most, last);
      assert ws + (Removes(most) + [Remove(last)]) == (ws + Removes(most)) + [Remove(last)];
      RemovesWritten(targets, ws, most);
      WroteOneMore(targets, ws + Removes(most), Remove(last));
      WroteIs(WroteAll(targets, ws + Removes(most)), Remove(last));
      IndexedIs(NodesOf(WroteAll(targets, ws + Removes(most))), ROOT, last);
      RemoveFromBoth(nodes, Elements(most), last);
    }
  }

  /** All rows of a plan, in whatever order, and the deletions, over the tree that was checked: they come to the
      plan. */
  lemma WholeImportIsThePlan(current: seq<Target>, stored: seq<Target>, gone: seq<int>)
    requires UniqueIds(current) && UniqueIds(stored)
    requires forall id :: id in gone <==> id in NodesOf(current) && id !in NodesOf(stored)
    ensures var written := WroteAll(current, Puts(stored) + Removes(gone));
      UniqueIds(written) && NodesOf(written) == NodesOf(stored) && |written| == |stored|
  {
    hide *;
    PutsWritten(current, stored);
    RemovesWritten(current, Puts(stored), gone);
    OnlyThePlanIsLeft(NodesOf(current), NodesOf(stored), gone);
    IndexSize(WroteAll(current, Puts(stored) + Removes(gone)));
    IndexSize(stored);
  }

  lemma OnlyThePlanIsLeft(current: Nodes, stored: Nodes, gone: seq<int>)
    requires forall id :: id in gone <==> id in current && id !in stored
    ensures (current + stored) - Elements(gone) == stored
  {
    var left := (current + stored) - Elements(gone);
    forall id ensures id in left <==> id in stored {
      assert id in Elements(gone) <==> id in gone;
    }
    assert left == stored;
  }

  lemma {:induction false} IndexSize(targets: seq<Target>)
    requires UniqueIds(targets)
    ensures |NodesOf(targets)| == |targets|
  {
    if targets != [] {
      var n := |targets| - 1;
      IndexSize(targets[..n]);
      if targets[n].id in NodesOf(targets[..n]) {
        var k := NodesOfSource(targets[..n], targets[n].id);
      }
    }
  }

  /** So an import that the check passes, and that runs whole and alone, is the one step that the runs take. */
  lemma WholeImportIsAStep(current: seq<Target>, planned: seq<Target>, r: Numbers, stored: seq<Target>, gone: seq<int>)
    requires Valid(current) && Checked(current, planned)
    requires SameTree(planned, r, stored) && KeepsIds(NodesOf(current), r)
    requires forall id :: id in gone <==> id in NodesOf(current) && id !in NodesOf(stored)
    ensures Step(current, WroteAll(current, Puts(stored) + Removes(gone)))
  {
    var written := WroteAll(current, Puts(stored) + Removes(gone));
    ValidIsUnique(current);
    hide *;
    SameTreeGives(planned, r, stored);
    WholeImportIsThePlan(current, stored, gone);
    SameTreeIs(planned, r, written);
    ConfigTree.ImportedIs(current, planned, r, written);
  }

  lemma SameTreeGives(a: seq<Target>, r: Numbers, b: seq<Target>)
    requires SameTree(a, r, b)
    ensures UniqueIds(a) && UniqueIds(b) && |a| == |b| && Renames(NodesOf(a), r, NodesOf(b))
  {
    hide Renames;
  }

  /** .. such as one that `ConfigTree.Apply` accepts, in whatever order its rows come. */
  lemma WholeApplyIsAStep(current: seq<Target>, m: map<string, Config.Node>, stored: seq<Target>, gone: seq<int>)
    requires Valid(current) && ConfigTree.Whole(m) && ConfigTree.Passes(current, m)
    requires ConfigTree.Stores(current, m, stored)
    requires forall id :: id in gone <==> id in NodesOf(current) && id !in NodesOf(stored)
    ensures Step(current, WroteAll(current, Puts(stored) + Removes(gone)))
  {
    hide *;
    var planned, r, ids, order := ConfigTree.StoredPasses(current, m, stored);
    WholeImportIsAStep(current, planned, r, stored, gone);
  }
}
