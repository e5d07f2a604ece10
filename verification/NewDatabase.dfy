/** An export applied to a new database (`Export` and `Apply` of internal/config/config.go): for every sound tree
    with valid rules it passes all the checks, and exports as the same file. */
module NewDatabase {
  import opened Options
  import opened Sets
  import opened Tree
  import opened TreeIndex
  import opened TreeLimits
  import opened TreeEdits
  import opened Renumbering
  import opened TreeRuns
  import opened ConfigTree
  import opened ImportWrites
  import Config
  import Text

  // ---------------------------------------------------------------- what a file keeps of a target

  /** Settings as they come back from a file: an agent list one space apart. */
  function Spelled(s: Settings): Settings { Config.SettingsOf(Config.ValuesFrom(s)) }

  lemma SpelledIs(s: Settings)
    ensures Spelled(s).ints == s.ints && Spelled(s).bools == s.bools && Spelled(s).strs.Keys == s.strs.Keys
    ensures forall k :: k in s.strs && k != Agents ==> Spelled(s).strs[k] == s.strs[k]
    ensures Agents in s.strs ==> Config.Fields(Spelled(s).strs[Agents]) == Config.Fields(s.strs[Agents])
  {
    Config.ValuesSurvive(s);
    if Agents in s.strs {
      Config.FieldsAreWords(s.strs[Agents], "");
      Config.FieldsOfJoin(Config.Fields(s.strs[Agents]));
    }
    hide Config.Fields, Text.Join;
  }

  lemma SpelledIsValid(t: Target)
    requires FieldsValid(t)
    ensures FieldsValid(t.(settings := Spelled(t.settings)))
  {
    SpelledIs(t.settings);
    if Agents in t.settings.strs {
      assert StrValid(Agents, t.settings.strs[Agents]);
      Config.JoinedFieldsAreNotBlank(t.settings.strs[Agents]);
      assert Spelled(t.settings).strs[Agents] == Text.Join(Config.Fields(t.settings.strs[Agents]), " ");
    }
    hide Spelled, Blank, IntValid, Config.Fields, Text.Join;
  }

  /** A target as it stands in the new database: the root keeps what is not in a file. */
  function Moved(t: Target): Target {
    if t.parent.Some? then t.(settings := Spelled(t.settings))
    else ROOT.(id := t.id, settings := Spelled(t.settings))
  }

  lemma MovedIs(t: Target)
    ensures Moved(t).id == t.id && Moved(t).parent == t.parent
    ensures t.parent.Some? ==> Moved(t) == t.(settings := Spelled(t.settings))
    ensures t.parent.None? ==> Moved(t).host.None? && Moved(t).name == ""
    ensures Moved(t).settings.ints == t.settings.ints && Moved(t).settings.strs.Keys == t.settings.strs.Keys
    ensures forall k :: k in t.settings.strs && k != Agents ==> Moved(t).settings.strs[k] == t.settings.strs[k]
    ensures Complete(t.settings) ==> Complete(Moved(t).settings)
    ensures Running(Moved(t)) ==> Running(t)
  {
    SpelledIs(t.settings);
    hide Spelled, Config.Fields;
  }

  lemma MovedIsFine(t: Target)
    requires FieldsValid(t)
    ensures FieldsValid(Moved(t))
  {
    if t.parent.Some? {
      SpelledIsValid(t);
    } else {
      var u := t.(name := "", host := None, family := None);
      SpelledIsValid(u);
      hide Spelled, IntValid, StrValid;
    }
  }

  function MovedAll(a: seq<Target>): (b: seq<Target>)
    ensures |b| == |a| && forall k :: 0 <= k < |a| ==> b[k] == Moved(a[k])
  {
    seq(|a|, k requires 0 <= k < |a| => Moved(a[k]))
  }

  // ---------------------------------------------------------------- the same tree

  /** The same nodes in the same places. */
  ghost predicate Moves(nodes: Nodes, other: Nodes) {
    other.Keys == nodes.Keys && forall x :: x in nodes ==> other[x] == Moved(nodes[x])
  }

  lemma MovesAt(nodes: Nodes, other: Nodes, x: int)
    requires Moves(nodes, other) && x in nodes
    ensures x in other && other[x] == Moved(nodes[x])
  {
    hide Moved;
  }

  lemma MovedParts(first: seq<Target>, last: Target)
    ensures MovedAll(first + [last]) == MovedAll(first) + [Moved(last)] && MovedAll([]) == []
  {
    hide Moved;
  }

  lemma MovesOneMore(nodes: Nodes, other: Nodes, t: Target)
    requires Moves(nodes, other)
    ensures Moves(nodes[t.id := t], other[t.id := Moved(t)])
  {
    hide Moved;
  }

  lemma {:induction false} MovedIndex(a: seq<Target>)
    ensures Moves(NodesOf(a), NodesOf(MovedAll(a)))
  {
    if a == [] {
      MovedParts([], ROOT);
    } else {
      var first, last := a[..|a| - 1], a[|a| - 1];
      assert a == first + [last];
      hide *;
      MovedIndex(first);
      MovedIs(last);
      MovedParts(first, last);
      NodesOfOneMore(first, last);
      NodesOfOneMore(MovedAll(first), Moved(last));
      MovesOneMore(NodesOf(first), NodesOf(MovedAll(first)), last);
    }
  }

  lemma MovedUnique(a: seq<Target>)
    requires UniqueIds(a)
    ensures UniqueIds(MovedAll(a))
  {
    hide Moved;
    forall i, j | 0 <= i < j < |a| ensures MovedAll(a)[i].id != MovedAll(a)[j].id {
      MovedIs(a[i]);
      MovedIs(a[j]);
    }
  }

  lemma MovedChain(nodes: Nodes, other: Nodes, c: seq<int>)
    requires Moves(nodes, other) && RootChain(nodes, c)
    ensures RootChain(other, c)
  {
    forall i | 0 <= i < |c| ensures c[i] in other && other[c[i]].parent == nodes[c[i]].parent {
      MovesAt(nodes, other, c[i]);
      MovedIs(nodes[c[i]]);
    }
    hide Moved;
  }

  lemma {:induction false} LookupAlike<K, V>(a: seq<map<K, V>>, b: seq<map<K, V>>, k: K)
    requires |a| == |b|
    requires forall i :: 0 <= i < |a| ==> (k in a[i] <==> k in b[i]) && (k in a[i] ==> a[i][k] == b[i][k])
    ensures Lookup(a, k) == Lookup(b, k)
  {
    if a != [] {
      LookupAlike(a[1..], b[1..], k);
    }
  }

  lemma MovedResolves(nodes: Nodes, other: Nodes, c: seq<int>)
    requires Moves(nodes, other) && forall i :: 0 <= i < |c| ==> c[i] in nodes && c[i] in other
    ensures LoadAlong(other, c) == LoadAlong(nodes, c) && TimingFits(other, c) == TimingFits(nodes, c)
  {
    forall i | 0 <= i < |c|
      ensures other[c[i]].settings.ints == nodes[c[i]].settings.ints
      ensures var s, t := nodes[c[i]].settings.strs, other[c[i]].settings.strs;
        (ProbeMode in s <==> ProbeMode in t) && (ProbeMode in s ==> s[ProbeMode] == t[ProbeMode])
    {
      MovesAt(nodes, other, c[i]);
      MovedIs(nodes[c[i]]);
    }
    hide Moved, Lookup;
    assert IntLayers(other, c) == IntLayers(nodes, c);
    LookupAlike(StrLayers(nodes, c), StrLayers(other, c), ProbeMode);
  }

  lemma MovedNodeIsFine(nodes: Nodes, other: Nodes, x: int)
    requires ValidNodes(nodes) && Moves(nodes, other) && x in nodes
    ensures NodeFine(other, x) && HostFine(other, x)
  {
    assert NodeFine(nodes, x) && HostFine(nodes, x);
    var c := ChainOf(nodes, x);
    AncestryIs(nodes, c);
    MovedChain(nodes, other, c);
    AncestryIs(other, c);
    MovedResolves(nodes, other, c);
    MovedIs(nodes[x]);
    MovedIsFine(nodes[x]);
    hide SiblingsDiffer, Complete, TimingFits, FieldsValid, Moved, LoadAlong;
  }

  lemma MovedRoots(nodes: Nodes, other: Nodes)
    requires ValidNodes(nodes) && Moves(nodes, other)
    ensures exists a :: IsRoot(other, a) && Complete(other[a].settings)
    ensures forall a :: IsRoot(other, a) ==> IsRoot(nodes, a)
    ensures forall a, b :: IsRoot(other, a) && IsRoot(other, b) ==> a == b
  {
    var r :| IsRoot(nodes, r) && Complete(nodes[r].settings);
    assert forall a, b :: IsRoot(nodes, a) && IsRoot(nodes, b) ==> a == b;
    hide ValidNodes, Complete, Moves;
    MovedKeys(nodes, other);
    MovesAt(nodes, other, r);
    MovedIs(nodes[r]);
    assert IsRoot(other, r) && Complete(other[r].settings);
    forall a | IsRoot(other, a) ensures IsRoot(nodes, a) {
      MovesAt(nodes, other, a);
      MovedIs(nodes[a]);
    }
  }

  lemma MovedSiblingsDiffer(nodes: Nodes, other: Nodes, a: int, b: int)
    requires ValidNodes(nodes) && Moves(nodes, other) && a in nodes && b in nodes
    ensures a in other && b in other && SiblingsDiffer(other, a, b)
  {
    assert SiblingsDiffer(nodes, a, b);
    hide ValidNodes, Moves;
    MovesAt(nodes, other, a);
    MovesAt(nodes, other, b);
    MovedIs(nodes[a]);
    MovedIs(nodes[b]);
  }

  lemma MovedIsValid(nodes: Nodes, other: Nodes)
    requires ValidNodes(nodes) && Moves(nodes, other)
    ensures ValidNodes(other)
  {
    MovedKeys(nodes, other);
    MovedRoots(nodes, other);
    hide NodeFine, HostFine, SiblingsDiffer, Complete, Moved, Moves, IsRoot;
    forall x | x in other ensures NodeFine(other, x) && HostFine(other, x) {
      MovedNodeIsFine(nodes, other, x);
    }
    forall a, b | a in other && b in other ensures SiblingsDiffer(other, a, b) {
      MovedSiblingsDiffer(nodes, other, a, b);
    }
  }

  lemma MovedPlace(nodes: Nodes, other: Nodes, x: int)
    requires ValidNodes(nodes) && Moves(nodes, other) && ValidNodes(other) && x in nodes
    ensures LoadOf(other, x) == LoadOf(nodes, x) && Depth(other, x) == Depth(nodes, x)
  {
    var c := ChainOf(nodes, x);
    MovedChain(nodes, other, c);
    ChainIs(other, x, c);
    MovedResolves(nodes, other, c);
    hide ValidNodes, ChainOf, Moves, LoadAlong;
  }

  lemma {:induction false} MovedRate(nodes: Nodes, other: Nodes, a: seq<Target>)
    requires ValidNodes(nodes) && Moves(nodes, other) && ValidNodes(other)
    requires AllIn(nodes, a) && AllIn(other, MovedAll(a))
    ensures TotalRate(other, MovedAll(a)) <= TotalRate(nodes, a)
  {
    hide *;
    if a == [] {
      MovedParts([], ROOT);
      NoRate(nodes, other, MovedAll(a));
    } else {
      var first, last := a[..|a| - 1], a[|a| - 1];
      assert a == first + [last];
      MovedIs(last);
      MovedParts(first, last);
      FirstIn(nodes, first, last);
      FirstIn(other, MovedAll(first), Moved(last));
      MovedRate(nodes, other, first);
      TotalRateOfAppended(nodes, first, last);
      TotalRateOfAppended(other, MovedAll(first), Moved(last));
      MovedTerm(nodes, other, last);
    }
  }

  lemma FirstIn(nodes: Nodes, first: seq<Target>, last: Target)
    requires AllIn(nodes, first + [last])
    ensures AllIn(nodes, first) && last.id in nodes
  {
    assert (first + [last])[|first|] == last;
    assert forall k :: 0 <= k < |first| ==> (first + [last])[k] == first[k];
  }

  lemma MovedTerm(nodes: Nodes, other: Nodes, t: Target)
    requires ValidNodes(nodes) && Moves(nodes, other) && ValidNodes(other) && t.id in nodes && Moved(t).id == t.id
    requires Running(Moved(t)) ==> Running(t)
    ensures t.id in other && RateTerm(other, Moved(t)) <= RateTerm(nodes, t)
  {
    MovesAt(nodes, other, t.id);
    MovedPlace(nodes, other, t.id);
    hide ValidNodes, LoadOf, Running, Moved;
  }

  lemma MovedIsSound(a: seq<Target>)
    requires Sound(a)
    ensures Sound(MovedAll(a))
  {
    var b, nodes, other := MovedAll(a), NodesOf(a), NodesOf(MovedAll(a));
    SoundGives(a);
    assert |a| <= MAX_TARGETS && RateOf(a) <= MAX_TOTAL_PROBE_RATE;
    assert forall id :: id in nodes ==> Depth(nodes, id) <= MAX_DEPTH;
    assert forall id :: id in nodes && Running(nodes[id]) ==> WithinLimits(LoadOf(nodes, id));
    hide *;
    ValidGives(a);
    ValidIsUnique(a);
    MovedIndex(a);
    MovedUnique(a);
    MovedIsValid(nodes, other);
    ValidFrom(b);
    ValidGives(b);
    ListedIn(a);
    ListedIn(b);
    MovedRate(nodes, other, a);
    MovedIsBounded(a);
    forall id | id in other
      ensures id in nodes && LoadOf(other, id) == LoadOf(nodes, id) && Depth(other, id) == Depth(nodes, id)
      ensures Running(other[id]) ==> Running(nodes[id])
    {
      MovedKeys(nodes, other);
      MovesAt(nodes, other, id);
      MovedIs(nodes[id]);
      MovedPlace(nodes, other, id);
    }
    SoundIs(b);
  }

  lemma MovedKeys(nodes: Nodes, other: Nodes)
    requires Moves(nodes, other)
    ensures other.Keys == nodes.Keys
  {
  }

  lemma ValidFrom(targets: seq<Target>)
    requires UniqueIds(targets) && ValidNodes(NodesOf(targets))
    ensures Valid(targets)
  {
    hide UniqueIds, ValidNodes, NodesOf;
  }

  lemma ListedIn(targets: seq<Target>)
    ensures AllIn(NodesOf(targets), targets)
  {
    EntriesIn(targets);
  }

  lemma MovedIsBounded(a: seq<Target>)
    requires AllBounded(a)
    ensures AllBounded(MovedAll(a))
  {
    hide Bounded, Moved;
    forall k, f | 0 <= k < |a| && f in MovedAll(a)[k].settings.ints
      ensures Bounded(f, MovedAll(a)[k].settings.ints[f])
    {
      MovedIs(a[k]);
      assert f in a[k].settings.ints;
    }
  }

  // ---------------------------------------------------------------- under the ids of the new database

  /** The root's id is the one the new database has; whoever had that has the root's. */
  function Swapped(x: int, root: int): int { if x == root then 1 else if x == 1 then root else x }

  function Swaps(nodes: Nodes, root: int): Numbers { map x | x in nodes :: Swapped(x, root) }

  function Rows(a: seq<Target>, r: Numbers): (b: seq<Target>)
    requires forall k :: 0 <= k < |a| ==> a[k].id in r && (a[k].parent.Some? ==> a[k].parent.value in r)
    ensures |b| == |a| && forall k :: 0 <= k < |a| ==> b[k] == Renamed(a[k], r[a[k].id], r)
  {
    seq(|a|, k requires 0 <= k < |a| => Renamed(a[k], r[a[k].id], r))
  }

  lemma SwapsDiffer(nodes: Nodes, root: int)
    ensures Swaps(nodes, root).Keys == nodes.Keys && OneToOne(Swaps(nodes, root))
  {
  }

  ghost predicate RowAt(a: seq<Target>, r: Numbers, x: int)
    requires x in NodesOf(a)
    requires forall k :: 0 <= k < |a| ==> a[k].id in r && (a[k].parent.Some? ==> a[k].parent.value in r)
  {
    var t, other := NodesOf(a)[x], NodesOf(Rows(a, r));
    x in r && (t.parent.Some? ==> t.parent.value in r) && r[x] in other && other[r[x]] == Renamed(t, r[x], r)
  }

  lemma {:induction false} RowsIndex(a: seq<Target>, r: Numbers)
    requires OneToOne(r) && UniqueIds(a)
    requires forall k :: 0 <= k < |a| ==> a[k].id in r && (a[k].parent.Some? ==> a[k].parent.value in r)
    ensures UniqueIds(Rows(a, r))
    ensures forall x :: x in NodesOf(a) ==> RowAt(a, r, x)
    ensures forall y :: y in NodesOf(Rows(a, r)) ==> exists x :: x in NodesOf(a) && x in r && r[x] == y
  {
    var b := Rows(a, r);
    forall i, j | 0 <= i < j < |b| ensures b[i].id != b[j].id {
      assert a[i].id != a[j].id;
    }
    forall x | x in NodesOf(a) ensures RowAt(a, r, x) {
      var k := NodesOfSource(a, x);
      NodesOfEntry(b, k);
    }
    forall y | y in NodesOf(b) ensures exists x :: x in NodesOf(a) && x in r && r[x] == y {
      var k := NodesOfSource(b, y);
      NodesOfEntry(a, k);
    }
  }

  lemma RowsAreTheSameTree(a: seq<Target>, r: Numbers)
    requires UniqueIds(a) && OneToOne(r) && r.Keys == NodesOf(a).Keys
    requires forall x :: x in NodesOf(a) && NodesOf(a)[x].parent.Some? ==> NodesOf(a)[x].parent.value in NodesOf(a)
    requires forall k :: 0 <= k < |a| ==> a[k].id in r && (a[k].parent.Some? ==> a[k].parent.value in r)
    ensures SameTree(a, r, Rows(a, r))
  {
    hide UniqueIds, NodesOf, OneToOne;
    RowsIndex(a, r);
    RenamesIs(NodesOf(a), r, NodesOf(Rows(a, r)));
  }

  /** A sound tree under other ids, in any order, is sound. */
  lemma SameTreeIsSound(a: seq<Target>, r: Numbers, b: seq<Target>)
    requires Sound(a) && SameTree(a, r, b)
    ensures Sound(b)
  {
    SoundGives(a);
    assert |a| <= MAX_TARGETS && RateOf(a) <= MAX_TOTAL_PROBE_RATE;
    assert forall id :: id in NodesOf(a) ==> Depth(NodesOf(a), id) <= MAX_DEPTH;
    assert forall id :: id in NodesOf(a) && Running(NodesOf(a)[id]) ==> WithinLimits(LoadOf(NodesOf(a), id));
    hide *;
    SameTreeIsValid(a, r, b);
    SameTreeGives(a, r, b);
    ValidGives(a);
    ValidGives(b);
    SameTreeIsBounded(a, r, b);
    forall y | y in NodesOf(b)
      ensures Depth(NodesOf(b), y) <= MAX_DEPTH && (Running(NodesOf(b)[y]) ==> WithinLimits(LoadOf(NodesOf(b), y)))
    {
      var x := OldId(NodesOf(a), r, NodesOf(b), y);
      RenamedPlace(NodesOf(a), r, NodesOf(b), x);
    }
    SoundIs(b);
  }

  lemma OldId(nodes: Nodes, r: Numbers, other: Nodes, y: int) returns (x: int)
    requires Renames(nodes, r, other) && y in other
    ensures x in nodes && x in r && r[x] == y && Running(other[y]) == Running(nodes[x])
    ensures other[y].settings == nodes[x].settings
  {
    x :| x in r && r[x] == y;
    RenamedAt(nodes, r, other, x);
  }

  lemma SameTreeIsBounded(a: seq<Target>, r: Numbers, b: seq<Target>)
    requires Valid(a) && Valid(b) && AllBounded(a) && SameTree(a, r, b)
    ensures AllBounded(b)
  {
    SameTreeGives(a, r, b);
    ValidGives(a);
    ValidGives(b);
    hide Valid, ValidNodes, NodesOf, Renames, Bounded, TotalRate, SameTree;
    forall k, f | 0 <= k < |b| && f in b[k].settings.ints ensures Bounded(f, b[k].settings.ints[f]) {
      var x := OldId(NodesOf(a), r, NodesOf(b), b[k].id);
      var j :| 0 <= j < |a| && a[j].id == x;
    }
  }

  // ---------------------------------------------------------------- what an import plans there

  /** Where the nodes of a tree are, under the ids of the new database. */
  function Homes(nodes: Nodes, root: int): (ids: Ids)
    requires ValidNodes(nodes)
    ensures ids.Keys == ReadNodes(nodes).Keys
    ensures forall id :: id in nodes ==> KeyFor(nodes, id) in ids && ids[KeyFor(nodes, id)] == Swapped(id, root)
  {
    KeysDiffer(nodes);
    map id | id in nodes :: KeyFor(nodes, id) := Swapped(id, root)
  }

  const SEED: map<string, Config.Node> := map["" := Described(ROOT)]

  lemma SeedReads()
    ensures Valid([ROOT]) && ValidNodes(NodesOf([ROOT])) && ReadNodes(NodesOf([ROOT])) == SEED
    ensures RootName(NodesOf([ROOT])) == "" && KeyFor(NodesOf([ROOT]), 1) == ""
    ensures forall id :: id in NodesOf([ROOT]) <==> id == 1
  {
    hide *;
    SeedIsSound();
    SoundGives([ROOT]);
    ValidIndex([ROOT]);
    SeedIs();
    var nodes := NodesOf([ROOT]);
    KeyOfRoot(nodes, 1);
    OneRoot(nodes, 1);
    assert SEED == map["" := Described(ROOT)] by { SeedMap(); }
    ReadIs(nodes, SEED);
  }

  lemma SeedIs()
    ensures forall id :: id in NodesOf([ROOT]) <==> id == 1
    ensures IsRoot(NodesOf([ROOT]), 1) && NodesOf([ROOT])[1] == ROOT && ROOT.parent == None && ROOT.name == ""
  {
    SeedIndex(ROOT);
    hide NodesOf, RootChain, Ancestry;
  }

  lemma SeedMap()
    ensures SEED == map["" := Described(ROOT)]
  {
  }

  lemma PlannedRootIs(db: Config.Db, prune: bool)
    requires Config.WellFormed(db) && Complete(db.nodes[""].settings)
    ensures var m := Config.SyncedNodes(SEED, Config.Export(db), prune);
      "" in m && m[""] == Described(ROOT).(settings := Spelled(db.nodes[""].settings))
  {
    Config.OverlayOfAll(ROOT.settings, db.nodes[""].settings);
    Config.RootIsKept(Config.Export(db).targets);
    hide Complete, Config.Keep, Config.Overlaid, Config.SettingsOf, Config.ValuesFrom, Config.AlertsOf, Config.NodeOf;
  }

  lemma PlannedNodeIs(db: Config.Db, prune: bool, p: string)
    requires Config.WellFormed(db) && p in db.nodes && p != ""
    ensures var m := Config.SyncedNodes(SEED, Config.Export(db), prune);
      p in m && m[p] == db.nodes[p].(settings := Spelled(db.nodes[p].settings))
  {
    Config.ExportKeepsAll(db);
    hide Config.Keep, Config.Overlaid, Config.SettingsOf, Config.ValuesFrom, Config.AlertsOf, Config.GoodPath,
         Config.ParentPath;
  }

  lemma PlannedKeys(db: Config.Db, prune: bool)
    requires Config.WellFormed(db)
    ensures Config.SyncedNodes(SEED, Config.Export(db), prune).Keys == db.nodes.Keys
  {
    hide *;
    assert SEED.Keys == {""} by { SeedMap(); }
    Config.ExportHasNoRoot(db);
    Config.ExportKeepsAll(db);
    forall p ensures p in Config.SyncedNodes(SEED, Config.Export(db), prune) <==> p in db.nodes {
      Config.IsSynced(SEED, Config.Export(db), prune, p);
    }
  }

  /** The plan is the tree, with what a file keeps of each target. */
  lemma PlanIs(nodes: Nodes, rules: map<Config.RuleKey, Config.Rule>, prune: bool, id: int)
    requires ValidNodes(nodes) && RulesHang(nodes, rules) && id in nodes
    ensures var db := Config.Db(ReadNodes(nodes), rules);
      && "" in db.nodes
      && var m := Config.SyncedNodes(SEED, Config.Export(db), prune);
      KeyFor(nodes, id) in m && m[KeyFor(nodes, id)] == Described(Moved(nodes[id]))
  {
    var db := Config.Db(ReadNodes(nodes), rules);
    ReadingIsWellFormed(nodes, rules);
    KeyOfRoot(nodes, id);
    assert Described(nodes[id]) == db.nodes[KeyFor(nodes, id)];
    hide *;
    if KeyFor(nodes, id) == "" {
      PlannedRootIs(db, prune);
    } else {
      PlannedNodeIs(db, prune, KeyFor(nodes, id));
    }
    MovedDescribed(nodes[id]);
  }

  lemma MovedDescribed(t: Target)
    ensures Described(Moved(t)) ==
      (if t.parent.Some? then Described(t) else Described(ROOT)).(settings := Spelled(t.settings))
    ensures Described(t).settings == t.settings
  {
  }

  /** The plan's keys in the order of the tree's targets. */
  function PathsOf(nodes: Nodes, a: seq<Target>): (order: seq<string>)
    requires ValidNodes(nodes) && AllIn(nodes, a)
    ensures |order| == |a| && forall k :: 0 <= k < |a| ==> order[k] == KeyFor(nodes, a[k].id)
  {
    seq(|a|, k requires 0 <= k < |a| => KeyFor(nodes, a[k].id))
  }

  lemma PathsList(a: seq<Target>)
    requires UniqueIds(a) && ValidNodes(NodesOf(a)) && AllIn(NodesOf(a), a)
    ensures Lists(PathsOf(NodesOf(a), a), ReadNodes(NodesOf(a)).Keys)
  {
    hide *;
    var nodes := NodesOf(a);
    var order := PathsOf(nodes, a);
    KeysDiffer(nodes);
    forall i, j | 0 <= i < j < |order| ensures order[i] != order[j] {
      EntriesDiffer(a, i, j);
    }
    forall i | 0 <= i < |order| ensures order[i] in ReadNodes(nodes) {
      NodesOfEntry(a, i);
    }
    forall p | p in ReadNodes(nodes) ensures p in order {
      var id :| id in nodes && KeyFor(nodes, id) == p;
      var k := NodesOfSource(a, id);
      assert order[k] == p;
    }
    ListsIs(order, ReadNodes(nodes).Keys);
  }

  lemma EntriesDiffer(a: seq<Target>, i: nat, j: nat)
    requires UniqueIds(a) && AllIn(NodesOf(a), a) && i < j < |a|
    ensures a[i].id != a[j].id && a[i].id in NodesOf(a) && a[j].id in NodesOf(a)
  {
    hide NodesOf;
  }

  lemma ListsIs(order: seq<string>, keys: set<string>)
    requires forall i, j :: 0 <= i < j < |order| ==> order[i] != order[j]
    requires (forall i :: 0 <= i < |order| ==> order[i] in keys) && forall p :: p in keys ==> p in order
    ensures Lists(order, keys)
  {
  }

  lemma HomesFit(nodes: Nodes, root: int, m: map<string, Config.Node>)
    requires ValidNodes(nodes) && IsRoot(nodes, root) && m.Keys == ReadNodes(nodes).Keys
    ensures Numbered(m, Homes(nodes, root)) && ValidNodes(NodesOf([ROOT]))
    ensures Fits(NodesOf([ROOT]), m, Homes(nodes, root))
  {
    hide *;
    var ids := Homes(nodes, root);
    SeedReads();
    RootsAre(nodes, root);
    KeyOfRoot(nodes, root);
    forall p | p in ids ensures exists id :: id in nodes && KeyFor(nodes, id) == p && ids[p] == Swapped(id, root) {
      var id :| id in nodes && KeyFor(nodes, id) == p;
      assert ids[KeyFor(nodes, id)] == Swapped(id, root);
    }
    SwappedDiffers(root);
    assert SEED.Keys == {""} by { SeedMap(); }
    assert ids[""] == 1;
    forall p | p in m && p != "" ensures ids[p] != 1 {
      var id :| id in nodes && KeyFor(nodes, id) == p && ids[p] == Swapped(id, root);
    }
    HomesFitSo(m, ids);
  }

  lemma RootsAre(nodes: Nodes, root: int)
    requires IsRoot(nodes, root)
    ensures root in nodes && nodes[root].parent == None
  {
  }

  lemma SwappedDiffers(root: int)
    ensures forall x, y :: Swapped(x, root) == Swapped(y, root) ==> x == y
    ensures Swapped(root, root) == 1
  {
  }

  lemma HomesFitSo(m: map<string, Config.Node>, ids: Ids)
    requires ids.Keys == m.Keys && "" in m && ids[""] == 1 && forall p :: p in m && p != "" ==> ids[p] != 1
    requires forall p, q :: p in ids && q in ids && ids[p] == ids[q] ==> p == q
    ensures Numbered(m, ids) && ValidNodes(NodesOf([ROOT])) && Fits(NodesOf([ROOT]), m, ids)
  {
    SeedReads();
    hide ValidNodes, NodesOf, KeyFor, ReadNodes;
    assert SEED.Keys == {""};
  }

  lemma PlannedTarget(nodes: Nodes, root: int, m: map<string, Config.Node>, id: int)
    requires ValidNodes(nodes) && IsRoot(nodes, root) && m.Keys == ReadNodes(nodes).Keys
    requires id in nodes && nodes[id].id == id
    requires KeyFor(nodes, id) in m && m[KeyFor(nodes, id)] == Described(Moved(nodes[id]))
    ensures var ids, p, r := Homes(nodes, root), KeyFor(nodes, id), Swaps(nodes, root);
      && p in ids && (p != "" ==> Config.ParentPath(p) in ids)
      && id in r && (Moved(nodes[id]).parent.Some? ==> Moved(nodes[id]).parent.value in r)
      && TargetAt(m, ids, "", p) == Renamed(Moved(nodes[id]), r[id], r)
  {
    hide *;
    KeyOfRoot(nodes, id);
    MovedIs(nodes[id]);
    SwapsDiffer(nodes, root);
    if KeyFor(nodes, id) != "" {
      NodeReadIsFine(nodes, id);
      SwapsAt(nodes, root, nodes[id].parent.value);
    }
    SwapsAt(nodes, root, id);
    TargetIs(m, Homes(nodes, root), KeyFor(nodes, id), Moved(nodes[id]), Swaps(nodes, root));
  }

  lemma SwapsAt(nodes: Nodes, root: int, id: int)
    requires id in nodes
    ensures id in Swaps(nodes, root) && Swaps(nodes, root)[id] == Swapped(id, root)
  {
  }

  lemma TargetIs(m: map<string, Config.Node>, ids: Ids, p: string, t: Target, r: Numbers)
    requires p in m && p in ids && m[p] == Described(t) && t.id in r && ids[p] == r[t.id]
    requires if p == "" then t.parent == None && t.name == ""
             else Config.LastName(p) == t.name && t.parent.Some? && t.parent.value in r
                  && Config.ParentPath(p) in ids && ids[Config.ParentPath(p)] == r[t.parent.value]
    ensures TargetAt(m, ids, "", p) == Renamed(t, r[t.id], r)
  {
    hide Config.LastName, Config.ParentPath;
  }

  /** So the rows it stores are the tree's, under other ids. */
  lemma PlannedTargets(a: seq<Target>, root: int, m: map<string, Config.Node>)
    requires UniqueIds(a) && ValidNodes(NodesOf(a)) && AllIn(NodesOf(a), a) && IsRoot(NodesOf(a), root)
    requires m.Keys == ReadNodes(NodesOf(a)).Keys && Whole(m)
    requires forall k :: 0 <= k < |a| ==>
      KeyFor(NodesOf(a), a[k].id) in m && m[KeyFor(NodesOf(a), a[k].id)] == Described(Moved(a[k]))
    ensures var ids, order, r := Homes(NodesOf(a), root), PathsOf(NodesOf(a), a), Swaps(NodesOf(a), root);
      && Numbered(m, ids) && (forall p :: p in order ==> p in m)
      && (forall k :: 0 <= k < |a| ==>
           MovedAll(a)[k].id in r && (MovedAll(a)[k].parent.Some? ==> MovedAll(a)[k].parent.value in r))
      && TargetsOf(m, ids, "", order) == Rows(MovedAll(a), r)
  {
    hide *;
    var nodes := NodesOf(a);
    var ids, order, r := Homes(nodes, root), PathsOf(nodes, a), Swaps(nodes, root);
    HomesFit(nodes, root, m);
    forall k | 0 <= k < |a|
      ensures MovedAll(a)[k].id in r && (MovedAll(a)[k].parent.Some? ==> MovedAll(a)[k].parent.value in r)
      ensures order[k] in m && order[k] in ids && (order[k] != "" ==> Config.ParentPath(order[k]) in ids)
      ensures TargetAt(m, ids, "", order[k]) == Renamed(MovedAll(a)[k], r[MovedAll(a)[k].id], r)
    {
      assert nodes[a[k].id] == a[k] && a[k].id in nodes by { NodesOfEntry(a, k); }
      MovedIs(a[k]);
      PlannedTarget(nodes, root, m, a[k].id);
    }
    TargetsAre(m, ids, order, MovedAll(a), r);
  }

  lemma TargetsAre(m: map<string, Config.Node>, ids: Ids, order: seq<string>, b: seq<Target>, r: Numbers)
    requires Whole(m) && Numbered(m, ids) && |order| == |b|
    requires forall k :: 0 <= k < |b| ==> b[k].id in r && (b[k].parent.Some? ==> b[k].parent.value in r)
    requires forall k :: 0 <= k < |b| ==>
      && order[k] in m && order[k] in ids && (order[k] != "" ==> Config.ParentPath(order[k]) in ids)
      && TargetAt(m, ids, "", order[k]) == Renamed(b[k], r[b[k].id], r)
    ensures (forall p :: p in order ==> p in m) && TargetsOf(m, ids, "", order) == Rows(b, r)
  {
    hide TargetAt, Config.ParentPath, Numbered, Whole, Renamed;
  }

  // ---------------------------------------------------------------- and it passes

  /** Every name that a node of the tree gives is that of an agent. */
  ghost predicate NamesOfTreeKnown(nodes: Nodes, known: set<string>) {
    forall id :: id in nodes && Agents in nodes[id].settings.strs ==>
      forall name :: name in Config.Fields(nodes[id].settings.strs[Agents]) ==> name in known
  }

  lemma SpelledNamesKnown(t: Target, known: set<string>)
    ensures NamesKnown(Described(Moved(t)), known) <==>
      (Agents in t.settings.strs ==>
         forall name :: name in Config.Fields(t.settings.strs[Agents]) ==> name in known)
  {
    SpelledIs(t.settings);
    hide Config.Fields, Spelled;
    assert Moved(t).settings == Spelled(t.settings);
  }

  lemma NamesSurvive(nodes: Nodes, m: map<string, Config.Node>, f: Config.File, known: set<string>)
    requires ValidNodes(nodes) && m.Keys == ReadNodes(nodes).Keys && f.targets.Keys == m.Keys - {""}
    requires forall id :: id in nodes ==> KeyFor(nodes, id) in m && m[KeyFor(nodes, id)] == Described(Moved(nodes[id]))
    ensures AgentsKnown(m, f, known) <==> NamesOfTreeKnown(nodes, known)
  {
    hide ValidNodes, KeyFor, Described, Moved, NamesKnown, Config.Fields;
    forall id | id in nodes
      ensures NamesKnown(m[KeyFor(nodes, id)], known) <==>
        (Agents in nodes[id].settings.strs ==>
           forall name :: name in Config.Fields(nodes[id].settings.strs[Agents]) ==> name in known)
    {
      SpelledNamesKnown(nodes[id], known);
    }
    if NamesOfTreeKnown(nodes, known) {
      forall p | p in m && (p == "" || p in f.targets) ensures NamesKnown(m[p], known) {
        var id :| id in nodes && KeyFor(nodes, id) == p;
      }
    } else if AgentsKnown(m, f, known) {
      forall id | id in nodes ensures NamesKnown(m[KeyFor(nodes, id)], known) {
      }
    }
  }

  /** What is exported of a sound tree with valid rules, applied to a new database: it passes every check, unless
      it names unknown agents, and what it stores is sound and exports as the same file. */
  lemma ExportIsAdmissible(a: seq<Target>, rules: map<Config.RuleKey, Config.Rule>, prune: bool, known: set<string>,
                           lenient: bool)
    requires Sound(a) && RulesHang(NodesOf(a), rules) && Config.RulesValid(DbOf(a, rules))
    ensures Valid([ROOT])
    ensures "" in DbOf(a, rules).nodes && Config.ValidFile(Config.Export(DbOf(a, rules)))
    ensures Admissible([ROOT], Config.Export(DbOf(a, rules)), prune, known, lenient)
       <==> lenient || NamesOfTreeKnown(NodesOf(a), known)
    ensures "" in DbOf([ROOT], map[]).nodes && "" !in Config.Export(DbOf(a, rules)).targets
    ensures var next := Config.Synced(DbOf([ROOT], map[]), Config.Export(DbOf(a, rules)), prune);
      && "" in next.nodes && next.rules == rules
      && Config.Export(next) == Config.Export(DbOf(a, rules))
      && Whole(next.nodes) && exists stored :: Sound(stored) && Stores([ROOT], next.nodes, stored)
  {
    hide *;
    SeedReads();
    SoundGives(a);
    ValidIndex(a);
    var nodes, db := NodesOf(a), DbOf(a, rules);
    DbIs(a, rules);
    DbIs([ROOT], map[]);
    ReadingIsWellFormed(nodes, rules);
    Config.ExportHasNoRoot(db);
    var f := Config.Export(db);
    Config.ExportIsValid(db);
    Config.ExportKeepsAll(db);
    NewIs();
    Config.ExportRoundTrip(db, DbOf([ROOT], map[]), prune);
    Config.SyncedIs(DbOf([ROOT], map[]), f, prune);
    PlanIsRooted(DbOf([ROOT], map[]), f, prune);
    var m := Config.SyncedNodes(SEED, f, prune);
    PlannedKeys(db, prune);
    forall id | id in nodes ensures KeyFor(nodes, id) in m && m[KeyFor(nodes, id)] == Described(Moved(nodes[id])) {
      PlanIs(nodes, rules, prune, id);
    }
    var stored := PlanStores(a, m);
    ExportNames(db);
    NamesSurvive(nodes, m, f, known);
    AdmissibleIs([ROOT], f, prune, known, lenient);
  }

  lemma ExportNames(db: Config.Db)
    requires "" in db.nodes
    ensures Config.Export(db).targets.Keys == db.nodes.Keys - {""}
  {
    hide Config.AlertsOf, Config.ValuesFrom;
  }

  lemma NewIs()
    requires Valid([ROOT])
    ensures RulesHang(NodesOf([ROOT]), map[]) && Config.New(DbOf([ROOT], map[]))
    ensures Config.WellFormed(DbOf([ROOT], map[]))
  {
    SeedReads();
    DbIs([ROOT], map[]);
    hide Valid, ValidNodes, NodesOf, KeyFor, ReadNodes, DbOf;
    assert SEED[""].settings == ROOT.settings;
  }

  lemma PlanStores(a: seq<Target>, m: map<string, Config.Node>) returns (stored: seq<Target>)
    requires Sound(a) && ValidNodes(NodesOf(a)) && Valid([ROOT])
    requires m.Keys == ReadNodes(NodesOf(a)).Keys && Whole(m)
    requires forall id :: id in NodesOf(a) ==>
      KeyFor(NodesOf(a), id) in m && m[KeyFor(NodesOf(a), id)] == Described(Moved(NodesOf(a)[id]))
    ensures Sound(stored) && Passes([ROOT], m) && Stores([ROOT], m, stored)
  {
    hide *;
    var nodes := NodesOf(a);
    SoundGives(a);
    ValidIsUnique(a);
    ListedIn(a);
    var root := RootOf(nodes);
    forall k | 0 <= k < |a| ensures a[k].id in nodes && nodes[a[k].id] == a[k] {
      NodesOfEntry(a, k);
    }
    PlannedTargets(a, root, m);
    PathsList(a);
    HomesFit(nodes, root, m);
    stored := Rows(MovedAll(a), Swaps(nodes, root));
    RowsAreSound(a, root);
    SoundPasses([ROOT], stored);
    SeedReads();
    PlanPasses(m, Homes(nodes, root), PathsOf(nodes, a), stored);
  }

  lemma RootOf(nodes: Nodes) returns (root: int)
    requires ValidNodes(nodes)
    ensures IsRoot(nodes, root)
  {
    root :| IsRoot(nodes, root) && Complete(nodes[root].settings);
  }

  lemma RowsAreSound(a: seq<Target>, root: int)
    requires Sound(a) && forall k :: 0 <= k < |a| ==> MovedAll(a)[k].id in Swaps(NodesOf(a), root)
    requires forall k :: 0 <= k < |a| && MovedAll(a)[k].parent.Some? ==>
      MovedAll(a)[k].parent.value in Swaps(NodesOf(a), root)
    ensures Sound(Rows(MovedAll(a), Swaps(NodesOf(a), root)))
  {
    hide *;
    var b, r := MovedAll(a), Swaps(NodesOf(a), root);
    MovedIsSound(a);
    SoundGives(b);
    ValidIsUnique(b);
    ValidGives(b);
    SwapsDiffer(NodesOf(a), root);
    MovedIndex(a);
    MovedKeys(NodesOf(a), NodesOf(b));
    forall x | x in NodesOf(b) && NodesOf(b)[x].parent.Some? ensures NodesOf(b)[x].parent.value in NodesOf(b) {
      var k := NodesOfSource(b, x);
    }
    RowsAreTheSameTree(b, r);
    SameTreeIsSound(b, r, Rows(b, r));
  }

  lemma PlanPasses(m: map<string, Config.Node>, ids: Ids, order: seq<string>, stored: seq<Target>)
    requires Valid([ROOT]) && Whole(m) && Checked([ROOT], stored)
    requires ValidNodes(NodesOf([ROOT])) && Fits(NodesOf([ROOT]), m, ids)
    requires Lists(order, m.Keys) && Numbered(m, ids) && forall p :: p in order ==> p in m
    requires RootName(NodesOf([ROOT])) == "" && TargetsOf(m, ids, "", order) == stored
    ensures Passes([ROOT], m) && Stores([ROOT], m, stored)
  {
    hide Valid, Checked, Fits, NodesOf, TargetsOf, RootName, Whole, ValidNodes;
    assert PassesAs([ROOT], m, ids, order);
    assert StoresAs([ROOT], m, stored, ids, order);
  }

  /** `Apply` of an export to a new database. */
  method ApplyExport(a: seq<Target>, rules: map<Config.RuleKey, Config.Rule>, f: Config.File, prune: bool,
                     known: set<string>, lenient: bool)
      returns (out: Option<Config.Db>, sum: Config.Summary)
    requires Sound(a) && RulesHang(NodesOf(a), rules) && Config.RulesValid(DbOf(a, rules))
    requires "" in DbOf(a, rules).nodes && f == Config.Export(DbOf(a, rules))
    ensures out.Some? <==> lenient || NamesOfTreeKnown(NodesOf(a), known)
    ensures out.Some? ==> "" in out.value.nodes && out.value.rules == rules && Config.Export(out.value) == f
  {
    hide *;
    SeedReads();
    NewIs();
    ExportIsAdmissible(a, rules, prune, known, lenient);
    SeedIsPositive();
    out, sum := Apply([ROOT], map[], f, prune, known, lenient);
  }

  lemma SeedIsPositive()
    ensures Positive([ROOT])
  {
  }
}
