/** The steps of applying a file (`Apply` and `applyRules` of internal/config/config.go), in whatever order
    its maps come up, and that they come to what `Config` says; `ConfigTree` puts them together. */
module Sync {
  import opened Config
  import opened Sets
  import TreeIndex

  // ---------------------------------------------------------------- entries

  function Restricted(targets: map<string, Entry>, paths: set<string>): map<string, Entry> {
    map p | p in targets && p in paths :: targets[p]
  }

  /** The nodes when some of the file's entries have been put in. */
  function Upserted(nodes: map<string, Node>, targets: map<string, Entry>): map<string, Node> {
    map p | p in nodes.Keys + (Keep(targets) - {""}) ::
      if p in targets then NodeOf(targets[p]) else if p in nodes then nodes[p] else GROUP
  }

  /** The ancestors of a path, nearest first. */
  method AncestorsOf(p: string) returns (out: seq<string>)
    ensures forall q :: q in out <==> q in Ancestors(p)
  {
    out := [];
    var cur := ParentPath(p);
    if p == "" {
      return;
    }
    while cur != ""
      invariant forall q :: q in Ancestors(p) <==> q in out || (cur != "" && (q == cur || q in Ancestors(cur)))
      decreases |cur|
    {
      out := out + [cur];
      cur := ParentPath(cur);
    }
  }

  /** The nodes with every missing ancestor of p, and p, made. */
  function Ensured(nodes: map<string, Node>, paths: set<string>): map<string, Node> {
    map q | q in nodes.Keys + paths :: if q in nodes then nodes[q] else GROUP
  }

  method Ensure(nodes: map<string, Node>, created: set<string>, path: string)
      returns (out: map<string, Node>, made: set<string>)
    ensures out == Ensured(nodes, {path})
    ensures made == created + ({path} - nodes.Keys)
  {
    out, made := nodes, created;
    if path !in nodes {
      out := out[path := GROUP];
      made := made + {path};
    }
  }

  method EnsureAll(nodes: map<string, Node>, created: set<string>, p: string)
      returns (out: map<string, Node>, made: set<string>)
    ensures out == Ensured(nodes, UpTo(p))
    ensures made == created + (UpTo(p) - nodes.Keys)
  {
    var above := AncestorsOf(p);
    hide Ancestors;
    out, made := nodes, created;
    for i := 0 to |above|
      invariant out == Ensured(nodes, Elements(above[..i]))
      invariant made == created + (Elements(above[..i]) - nodes.Keys)
    {
      ghost var done := Elements(above[..i]);
      assert above[..i + 1] == above[..i] + [above[i]];
      assert Elements(above[..i + 1]) == done + {above[i]};
      EnsuredTwice(nodes, done, {above[i]});
      out, made := Ensure(out, made, above[i]);
    }
    assert above[..|above|] == above;
    assert Elements(above) == Ancestors(p);
    EnsuredTwice(nodes, Ancestors(p), {p});
    out, made := Ensure(out, made, p);
    assert UpTo(p) == Ancestors(p) + {p};
  }

  lemma EnsuredTwice(nodes: map<string, Node>, a: set<string>, b: set<string>)
    ensures Ensured(Ensured(nodes, a), b) == Ensured(nodes, a + b)
    ensures Ensured(nodes, a).Keys == nodes.Keys + a
  {
  }

  /** One entry more. */
  lemma UpsertedOneMore(nodes: map<string, Node>, targets: map<string, Entry>, done: set<string>, p: string)
    requires p in targets && p != "" && "" in nodes
    ensures var before := Upserted(nodes, Restricted(targets, done));
      Upserted(nodes, Restricted(targets, done + {p})) == Ensured(before, UpTo(p))[p := NodeOf(targets[p])]
    ensures Keep(Restricted(targets, done + {p})) == Keep(Restricted(targets, done)) + UpTo(p)
  {
    hide UpTo, NodeOf;
    var a, b := Restricted(targets, done), Restricted(targets, done + {p});
    assert b == a[p := targets[p]];
    assert p in UpTo(p) by { UpToItself(p); }
    assert Keep(b) == Keep(a) + UpTo(p);
    assert forall q :: q in a ==> q in Keep(a) by { EntriesAreKept(a); }
    hide Keep;
    var before, after := Upserted(nodes, a), Upserted(nodes, b);
    var built := Ensured(before, UpTo(p))[p := NodeOf(targets[p])];
    assert after.Keys == built.Keys;
    forall q | q in after ensures after[q] == built[q] {
      if q != p && q in before {
        assert q in b <==> q in a;
      }
    }
  }

  lemma UpToItself(p: string)
    ensures p in UpTo(p)
  {
  }

  lemma UpdatedOneMore(nodes: map<string, Node>, targets: map<string, Entry>, done: set<string>, p: string)
    requires p in targets && p !in done
    ensures |Updated(nodes, Restricted(targets, done + {p}))|
         == |Updated(nodes, Restricted(targets, done))| + if p in nodes && nodes[p] != NodeOf(targets[p]) then 1 else 0
  {
    hide NodeOf;
    var a, b := Updated(nodes, Restricted(targets, done)), Updated(nodes, Restricted(targets, done + {p}));
    assert b == if p in nodes && nodes[p] != NodeOf(targets[p]) then a + {p} else a;
  }

  method UpsertEntries(nodes: map<string, Node>, targets: map<string, Entry>)
      returns (out: map<string, Node>, created: set<string>, updated: nat)
    requires "" in nodes && "" !in targets
    ensures out == Upserted(nodes, targets)
    ensures created == Keep(targets) - nodes.Keys
    ensures updated == |Updated(nodes, targets)|
  {
    hide *;
    out, created, updated := nodes, {}, 0;
    var paths := AnyOrder(targets.Keys);
    NoEntries(nodes, targets);
    Visited(paths, targets.Keys);
    AllEntries(targets);
    for i := 0 to |paths|
      invariant out == Upserted(nodes, Restricted(targets, Elements(paths[..i])))
      invariant created == Keep(Restricted(targets, Elements(paths[..i]))) - nodes.Keys
      invariant updated == |Updated(nodes, Restricted(targets, Elements(paths[..i])))|
    {
      var p := paths[i];
      ghost var done := Elements(paths[..i]);
      Visit(paths, targets.Keys, i);
      UpsertedOneMore(nodes, targets, done, p);
      UpdatedOneMore(nodes, targets, done, p);
      EntryStep(nodes, targets, done, p);
      out, created := EnsureAll(out, created, p);
      var existed := p !in created;
      var before := out[p];
      out := out[p := NodeOf(targets[p])];
      if existed && before != out[p] {
        updated := updated + 1;
      }
    }
  }

  /** What stands at p when its turn comes: what was there, or a node just made. */
  lemma EntryStep(nodes: map<string, Node>, targets: map<string, Entry>, done: set<string>, p: string)
    requires p in targets && p !in done && p != "" && "" in nodes
    ensures var before := Upserted(nodes, Restricted(targets, done));
      var created := (Keep(Restricted(targets, done)) - nodes.Keys) + (UpTo(p) - before.Keys);
      && p in Ensured(before, UpTo(p))
      && created == Keep(Restricted(targets, done + {p})) - nodes.Keys
      && (p in nodes <==> p !in created)
      && (p in nodes ==> Ensured(before, UpTo(p))[p] == nodes[p])
  {
    hide Keep, UpTo, NodeOf;
    UpToItself(p);
    UpsertedOneMore(nodes, targets, done, p);
    UpsertedKeys(nodes, Restricted(targets, done));
    assert p !in Restricted(targets, done);
    hide Upserted;
  }

  lemma AllEntries(targets: map<string, Entry>)
    ensures Restricted(targets, targets.Keys) == targets
  {
  }

  lemma NoEntries(nodes: map<string, Node>, targets: map<string, Entry>)
    requires "" in nodes
    ensures Restricted(targets, Elements([])) == map[]
    ensures Upserted(nodes, map[]) == nodes && Keep(map[]) - nodes.Keys == {} && Updated(nodes, map[]) == {}
  {
  }

  lemma UpsertedKeys(nodes: map<string, Node>, targets: map<string, Entry>)
    requires "" in nodes
    ensures Upserted(nodes, targets).Keys == nodes.Keys + Keep(targets)
    ensures forall p :: p in nodes && p !in targets ==> Upserted(nodes, targets)[p] == nodes[p]
  {
  }

  // ---------------------------------------------------------------- absence

  method KeepOf(targets: map<string, Entry>) returns (keep: set<string>)
    ensures keep == Keep(targets)
  {
    keep := {""};
    var paths := AnyOrder(targets.Keys);
    Visited(paths, targets.Keys);
    assert Restricted(targets, targets.Keys) == targets && Keep(Restricted(targets, {})) == {""};
    hide Ancestors, Keep, Lists, Distinct, Elements, Restricted;
    for i := 0 to |paths|
      invariant keep == Keep(Restricted(targets, Elements(paths[..i])))
    {
      var p := paths[i];
      Visit(paths, targets.Keys, i);
      KeepOneMore(targets, Elements(paths[..i]), p);
      var above := AncestorsOf(p);
      assert Elements(above) == Ancestors(p) by { ElementsAre(above, Ancestors(p)); }
      keep := keep + {p} + Elements(above);
    }
  }

  lemma ElementsAre(s: seq<string>, keys: set<string>)
    requires forall q :: q in s <==> q in keys
    ensures Elements(s) == keys
  {
  }

  lemma KeepOneMore(targets: map<string, Entry>, done: set<string>, p: string)
    requires p in targets
    ensures Keep(Restricted(targets, done + {p})) == Keep(Restricted(targets, done)) + UpTo(p)
  {
    hide UpTo;
    assert Restricted(targets, done + {p}) == Restricted(targets, done)[p := targets[p]];
  }

  function Disabled(nodes: map<string, Node>, paths: set<string>): map<string, Node> {
    map p | p in nodes :: if p in paths then nodes[p].(enabled := false) else nodes[p]
  }

  /** What becomes of the nodes a file does not mention. */
  method Absentees(nodes: map<string, Node>, existing: set<string>, keep: set<string>, prune: bool)
      returns (out: map<string, Node>, gone: seq<string>, disabled: nat)
    requires existing <= nodes.Keys
    ensures out == if prune then nodes else Disabled(nodes, existing - keep)
    ensures forall p :: p in gone <==> prune && p in existing - keep
    ensures Distinct(gone)
    ensures disabled == if prune then 0 else |Enabled(nodes, existing - keep)|
  {
    out, gone, disabled := nodes, [], 0;
    var order := AnyOrder(existing);
    Visited(order, existing);
    NoneAbsent(nodes, keep);
    hide Disabled, Enabled, Lists, Elements;
    for i := 0 to |order|
      invariant out == if prune then nodes else Disabled(nodes, Elements(order[..i]) - keep)
      invariant forall p :: p in gone <==> prune && p in Elements(order[..i]) - keep
      invariant Distinct(gone)
      invariant disabled == if prune then 0 else |Enabled(nodes, Elements(order[..i]) - keep)|
    {
      var p := order[i];
      ghost var done := Elements(order[..i]);
      Visit(order, existing, i);
      if p in keep {
        assert done + {p} - keep == done - keep;
      } else {
        assert done + {p} - keep == (done - keep) + {p};
        EnabledOneMore(nodes, done - keep, p);
        DisabledOneMore(nodes, done - keep, p);
        if prune {
          gone := gone + [p];
        } else if out[p].enabled {
          out := out[p := out[p].(enabled := false)];
          disabled := disabled + 1;
        }
      }
    }
  }

  lemma NoneAbsent(nodes: map<string, Node>, keep: set<string>)
    ensures {} - keep == {} && Disabled(nodes, {}) == nodes && Enabled(nodes, {}) == {}
  {
  }

  lemma DisabledOneMore(nodes: map<string, Node>, paths: set<string>, p: string)
    requires p in nodes && p !in paths
    ensures p in Disabled(nodes, paths) && Disabled(nodes, paths)[p] == nodes[p]
    ensures nodes[p].enabled ==>
        Disabled(nodes, paths + {p}) == Disabled(nodes, paths)[p := nodes[p].(enabled := false)]
    ensures !nodes[p].enabled ==> Disabled(nodes, paths + {p}) == Disabled(nodes, paths)
  {
  }

  lemma EnabledOneMore(nodes: map<string, Node>, paths: set<string>, p: string)
    requires p in nodes && p !in paths
    ensures |Enabled(nodes, paths + {p})| == |Enabled(nodes, paths)| + if nodes[p].enabled then 1 else 0
  {
    assert Enabled(nodes, paths + {p}) == if nodes[p].enabled then Enabled(nodes, paths) + {p}
        else Enabled(nodes, paths);
  }

  // ---------------------------------------------------------------- writing and deleting

  function Level(p: string): nat { if p == "" then 0 else Slashes(p) + 1 }

  ghost predicate ParentsFirst(order: seq<string>) {
    forall i, j :: 0 <= i < j < |order| ==> Level(order[i]) <= Level(order[j])
  }

  ghost predicate DeepestFirst(order: seq<string>) {
    forall i, j :: 0 <= i < j < |order| ==> Level(order[i]) >= Level(order[j])
  }

  function Placed(s: seq<string>, p: string): (r: seq<string>)
    ensures multiset(r) == multiset(s) + multiset{p}
    ensures forall q :: q in r <==> q in s || q == p
  {
    if s == [] then [p]
    else if Level(p) >= Level(s[0]) then assert [p] + s == [p] + s; [p] + s
    else assert s == [s[0]] + s[1..]; [s[0]] + Placed(s[1..], p)
  }

  lemma HeadBefore(x: string, rest: seq<string>)
    requires DeepestFirst(rest) && Distinct(rest) && x !in rest
    requires forall q :: q in rest ==> Level(x) >= Level(q)
    ensures DeepestFirst([x] + rest) && Distinct([x] + rest)
  {
    hide Level;
    var r := [x] + rest;
    forall i, j | 0 <= i < j < |r| ensures Level(r[i]) >= Level(r[j]) && r[i] != r[j] {
      assert r[j] == rest[j - 1] && r[j] in rest;
      assert i > 0 ==> r[i] == rest[i - 1];
    }
  }

  lemma TailOrdered(s: seq<string>)
    requires s != [] && DeepestFirst(s) && Distinct(s)
    ensures DeepestFirst(s[1..]) && Distinct(s[1..]) && s[0] !in s[1..] && s == [s[0]] + s[1..]
    ensures forall q :: q in s ==> Level(s[0]) >= Level(q)
  {
    hide Level;
    forall q | q in s ensures Level(s[0]) >= Level(q) {
      var i :| 0 <= i < |s| && s[i] == q;
      assert i == 0 || Level(s[0]) >= Level(s[i]);
    }
  }

  lemma {:induction false} PlacedKeepsOrder(s: seq<string>, p: string)
    requires DeepestFirst(s) && Distinct(s) && p !in s
    ensures DeepestFirst(Placed(s, p)) && Distinct(Placed(s, p))
  {
    hide Level, DeepestFirst, Distinct;
    if s == [] {
      HeadBefore(p, []) by { NothingToOrder(); }
      assert [p] + [] == [p];
    } else {
      TailOrdered(s);
      if Level(p) >= Level(s[0]) {
        HeadBefore(p, s);
      } else {
        PlacedKeepsOrder(s[1..], p);
        HeadBefore(s[0], Placed(s[1..], p));
      }
    }
  }

  lemma NothingToOrder()
    ensures DeepestFirst([]) && Distinct<string>([])
  {
  }

  /** Children before parents. */
  method ByDepth(paths: seq<string>) returns (order: seq<string>)
    requires Distinct(paths)
    ensures DeepestFirst(order) && Distinct(order)
    ensures forall p :: p in order <==> p in paths
  {
    hide Placed, Level;
    order := [];
    for i := 0 to |paths|
      invariant DeepestFirst(order) && Distinct(order)
      invariant forall p :: p in order <==> p in paths[..i]
    {
      assert paths[i] !in paths[..i];
      PlacedKeepsOrder(order, paths[i]);
      order := Placed(order, paths[i]);
    }
    assert paths[..|paths|] == paths;
  }

  lemma ReversedIsParentsFirst(order: seq<string>)
    requires DeepestFirst(order) && Distinct(order)
    ensures ParentsFirst(TreeIndex.Reversed(order)) && Distinct(TreeIndex.Reversed(order))
    ensures forall p :: p in TreeIndex.Reversed(order) <==> p in order
  {
    var r := TreeIndex.Reversed(order);
    hide TreeIndex.Reversed, Level;
    forall p | p in order ensures p in r {
      var i :| 0 <= i < |order| && order[i] == p;
      assert r[|order| - 1 - i] == p;
    }
  }

  lemma ParentIsShallower(p: string)
    requires GoodPath(p)
    ensures Level(ParentPath(p)) < Level(p)
  {
    ParentPathIsAbove(p);
  }

  /** Inserts or replaces; a foreign key holds a node to a parent that is there. */
  method UpsertTarget(nodes: map<string, Node>, p: string, n: Node) returns (out: map<string, Node>)
    requires p != "" ==> ParentPath(p) in nodes
    ensures out == nodes[p := n]
  {
    out := nodes[p := n];
  }

  ghost predicate Rooted(nodes: map<string, Node>) {
    forall p :: p in nodes && p != "" ==> GoodPath(p) && ParentPath(p) in nodes
  }

  function Only(nodes: map<string, Node>, paths: set<string>): map<string, Node> {
    map p | p in nodes && p in paths :: nodes[p]
  }

  method WriteNodes(stored: map<string, Node>, planned: map<string, Node>, order: seq<string>)
        returns (out: map<string, Node>)
    requires Rooted(planned) && ParentsFirst(order) && Distinct(order) && forall p :: p in order <==> p in planned
    ensures out == stored + planned
  {
    hide Level, GoodPath, ParentPath;
    out := stored;
    NothingWritten(stored, planned);
    hide Only, Elements;
    for i := 0 to |order|
      invariant out == stored + Only(planned, Elements(order[..i]))
    {
      var p := order[i];
      assert p in order && p in planned;
      if p != "" {
        ParentIsShallower(p);
        EarlierInOrder(order, i, ParentPath(p));
        AlreadyWritten(planned, order[..i], ParentPath(p));
      }
      OneMoreWritten(stored, planned, order, i);
      out := UpsertTarget(out, p, planned[p]);
    }
    AllWritten(planned, order);
  }

  lemma NothingWritten(stored: map<string, Node>, planned: map<string, Node>)
    ensures stored + Only(planned, Elements([])) == stored
  {
  }

  lemma AlreadyWritten(planned: map<string, Node>, order: seq<string>, q: string)
    requires q in order && q in planned
    ensures q in Only(planned, Elements(order))
  {
  }

  lemma OneMoreWritten(stored: map<string, Node>, planned: map<string, Node>, order: seq<string>, i: nat)
    requires i < |order| && order[i] in planned
    ensures stored + Only(planned, Elements(order[..i + 1]))
         == (stored + Only(planned, Elements(order[..i])))[order[i] := planned[order[i]]]
  {
    assert Elements(order[..i + 1]) == Elements(order[..i]) + {order[i]};
    hide Elements;
  }

  lemma AllWritten(planned: map<string, Node>, order: seq<string>)
    requires forall p :: p in order <==> p in planned
    ensures Only(planned, Elements(order[..|order|])) == planned
  {
    assert order[..|order|] == order;
  }

  lemma EarlierInOrder(order: seq<string>, i: nat, q: string)
    requires ParentsFirst(order) && i < |order| && q in order && Level(q) < Level(order[i])
    ensures q in order[..i]
  {
    var j :| 0 <= j < |order| && order[j] == q;
    assert j < i;
    assert order[..i][j] == q;
  }

  lemma EarlierInDeletion(order: seq<string>, i: nat, q: string)
    requires DeepestFirst(order) && i < |order| && q in order && Level(q) > Level(order[i])
    ensures q in order[..i]
  {
    var j :| 0 <= j < |order| && order[j] == q;
    assert j < i;
    assert order[..i][j] == q;
  }

  /** Deletes a node and the rules defined on it; a foreign key holds it while a child names it. */
  method DeleteTarget(db: Db, p: string) returns (out: Db)
    requires forall q :: q in db.nodes && q != "" ==> ParentPath(q) != p
    ensures out.nodes == db.nodes - {p}
    ensures out.rules == map k | k in db.rules && k.0 != p :: db.rules[k]
  {
    out := Db(db.nodes - {p}, map k | k in db.rules && k.0 != p :: db.rules[k]);
  }

  function WithoutNodes(db: Db, gone: set<string>): Db {
    Db(db.nodes - gone, map k | k in db.rules && k.0 !in gone :: db.rules[k])
  }

  /** Everything that lies below one of these is one of these. */
  ghost predicate Subforest(nodes: map<string, Node>, gone: seq<string>) {
    forall q :: q in nodes && q != "" && ParentPath(q) in gone ==> q in gone
  }

  method DeleteTargets(db: Db, gone: seq<string>) returns (out: Db)
    requires Rooted(db.nodes) && DeepestFirst(gone) && Distinct(gone) && Subforest(db.nodes, gone)
    ensures out == WithoutNodes(db, Elements(gone))
  {
    hide Level, GoodPath, ParentPath;
    out := db;
    NothingGone(db);
    for i := 0 to |gone|
      invariant out == WithoutNodes(db, Elements(gone[..i]))
    {
      var p := gone[i];
      assert Elements(gone[..i + 1]) == Elements(gone[..i]) + {p};
      forall q | q in out.nodes && q != "" ensures ParentPath(q) != p {
        if ParentPath(q) == p {
          assert p in gone && q in gone;
          ParentIsShallower(q);
          EarlierInDeletion(gone, i, q);
        }
      }
      OneMoreGone(db, Elements(gone[..i]), p);
      out := DeleteTarget(out, p);
    }
    assert gone[..|gone|] == gone;
  }

  lemma NothingGone(db: Db)
    ensures WithoutNodes(db, Elements([])) == db
  {
  }

  lemma OneMoreGone(db: Db, gone: set<string>, p: string)
    ensures var before, after := WithoutNodes(db, gone), WithoutNodes(db, gone + {p});
      && after.nodes == before.nodes - {p}
      && after.rules == map k | k in before.rules && k.0 != p :: before.rules[k]
  {
  }

  // ---------------------------------------------------------------- rules

  function SomeWanted(rules: map<RuleKey, Rule>, f: File, done: set<RuleKey>): map<RuleKey, Rule>
    requires "" !in f.targets && done <= WantedKeys(f)
  {
    rules + map k | k in done :: Wanted(f, k)
  }

  function CreatedCount(rules: map<RuleKey, Rule>, done: set<RuleKey>): nat { |done - rules.Keys| }

  function UpdatedCount(rules: map<RuleKey, Rule>, f: File, done: set<RuleKey>): nat
    requires "" !in f.targets
  {
    |done * RulesUpdated(rules, f)|
  }

  /** The first loop of `applyRules`: what the file asks for is created or updated. */
  method UpsertRules(rules: map<RuleKey, Rule>, f: File) returns (out: map<RuleKey, Rule>, created: nat, updated: nat)
    requires "" !in f.targets
    ensures out == SomeWanted(rules, f, WantedKeys(f))
    ensures created == |WantedKeys(f) - rules.Keys| && updated == |RulesUpdated(rules, f)|
  {
    hide *;
    var wanted := WantedKeys(f);
    out, created, updated := rules, 0, 0;
    NothingWanted(rules, f);
    AllWanted(rules, f);
    var order := AnyOrder(wanted);
    Visited(order, wanted);
    for i := 0 to |order|
      invariant Elements(order[..i]) <= wanted && out == SomeWanted(rules, f, Elements(order[..i]))
      invariant created == CreatedCount(rules, Elements(order[..i]))
      invariant updated == UpdatedCount(rules, f, Elements(order[..i]))
    {
      var k := order[i];
      Visit(order, wanted, i);
      WantedOneMore(rules, f, Elements(order[..i]), k);
      CountOneMore(rules, f, Elements(order[..i]), k);
      var rule := Wanted(f, k);
      if k in rules {
        if rule != rules[k] {
          updated := updated + 1;
        }
      } else {
        created := created + 1;
      }
      out := out[k := rule];
    }
  }

  lemma NothingWanted(rules: map<RuleKey, Rule>, f: File)
    requires "" !in f.targets
    ensures SomeWanted(rules, f, {}) == rules && CreatedCount(rules, {}) == 0 && UpdatedCount(rules, f, {}) == 0
  {
    hide Wanted, WantedKeys, RulesUpdated;
    assert {} - rules.Keys == {};
    assert {} * RulesUpdated(rules, f) == {};
  }

  lemma AllWanted(rules: map<RuleKey, Rule>, f: File)
    requires "" !in f.targets
    ensures CreatedCount(rules, WantedKeys(f)) == |WantedKeys(f) - rules.Keys|
    ensures UpdatedCount(rules, f, WantedKeys(f)) == |RulesUpdated(rules, f)|
  {
    hide Wanted, WantedKeys;
    assert WantedKeys(f) * RulesUpdated(rules, f) == RulesUpdated(rules, f);
  }

  lemma WantedOneMore(rules: map<RuleKey, Rule>, f: File, done: set<RuleKey>, k: RuleKey)
    requires "" !in f.targets && done <= WantedKeys(f) && k in WantedKeys(f)
    ensures SomeWanted(rules, f, done + {k}) == SomeWanted(rules, f, done)[k := Wanted(f, k)]
  {
    hide WantedKeys, Wanted;
  }

  lemma CountOneMore(rules: map<RuleKey, Rule>, f: File, done: set<RuleKey>, k: RuleKey)
    requires "" !in f.targets && k in WantedKeys(f) && k !in done
    ensures CreatedCount(rules, done + {k}) == CreatedCount(rules, done) + if k in rules then 0 else 1
    ensures UpdatedCount(rules, f, done + {k})
         == UpdatedCount(rules, f, done) + if k in rules && rules[k] != Wanted(f, k) then 1 else 0
  {
    assert k in RulesUpdated(rules, f) <==> k in rules && rules[k] != Wanted(f, k);
    hide WantedKeys, Wanted, RulesUpdated;
    MinusOneMore(done, rules.Keys, k);
    TimesOneMore(done, RulesUpdated(rules, f), k);
  }

  /** .. and the rules it leaves out, some of them dealt with. */
  function SomeUnwanted(out: map<RuleKey, Rule>, done: set<RuleKey>, prune: bool): map<RuleKey, Rule> {
    map k | k in out && !(prune && k in done) :: if k in done then out[k].(enabled := false) else out[k]
  }

  function EnabledCount(rules: map<RuleKey, Rule>, done: set<RuleKey>): nat { |RulesEnabled(rules, done)| }

  /** The second loop: what is absent from the file is deleted or disabled. */
  method DropRules(rules: map<RuleKey, Rule>, upserted: map<RuleKey, Rule>, f: File, prune: bool)
      returns (out: map<RuleKey, Rule>, disabled: nat, deleted: nat)
    requires Untouched(rules, upserted, RulesUnwanted(rules, f))
    ensures Dropped(rules, upserted, RulesUnwanted(rules, f), prune, out, disabled, deleted)
  {
    hide *;
    var wanted := WantedKeys(f);
    out, disabled, deleted := upserted, 0, 0;
    NothingDropped(rules, upserted, prune);
    var order := AnyOrder(rules.Keys);
    Visited(order, rules.Keys);
    UnwantedEnds(rules, f);
    for i := 0 to |order|
      invariant Dropped(rules, upserted, Unwanted(Elements(order[..i]), wanted), prune, out, disabled, deleted)
    {
      var k := order[i];
      Visit(order, rules.Keys, i);
      UnwantedStep(Elements(order[..i]), wanted, k);
      if k !in wanted {
        IsUntouched(rules, upserted, wanted, f, k);
        out, disabled, deleted := DropRule(rules, k, prune, out, disabled, deleted, upserted,
            Unwanted(Elements(order[..i]), wanted));
      }
    }
  }

  ghost predicate Untouched(rules: map<RuleKey, Rule>, upserted: map<RuleKey, Rule>, keys: set<RuleKey>) {
    forall k :: k in keys ==> k in rules && k in upserted && upserted[k] == rules[k]
  }

  lemma IsUntouched(rules: map<RuleKey, Rule>, upserted: map<RuleKey, Rule>, wanted: set<RuleKey>, f: File, k: RuleKey)
    requires wanted == WantedKeys(f) && k in rules && k !in wanted &&
        Untouched(rules, upserted, RulesUnwanted(rules, f))
    ensures k in upserted && upserted[k] == rules[k]
  {
    hide WantedKeys;
  }

  /** One rule the file does not mention; `upserted` and `done` say what the loop began with and has done. */
  method DropRule(rules: map<RuleKey, Rule>, k: RuleKey, prune: bool, outBefore: map<RuleKey, Rule>,
                  disabledBefore: nat,
                  deletedBefore: nat, ghost upserted: map<RuleKey, Rule>, ghost done: set<RuleKey>)
      returns (out: map<RuleKey, Rule>, disabled: nat, deleted: nat)
    requires Dropped(rules, upserted, done, prune, outBefore, disabledBefore, deletedBefore)
    requires k in rules && k in upserted && upserted[k] == rules[k] && k !in done
    ensures Dropped(rules, upserted, done + {k}, prune, out, disabled, deleted)
  {
    hide *;
    out, disabled, deleted := outBefore, disabledBefore, deletedBefore;
    DropStep(rules, upserted, done, k, prune, out, disabled, deleted);
    if prune {
      out := out - {k};
      deleted := deleted + 1;
    } else if rules[k].enabled {
      out := out[k := rules[k].(enabled := false)];
      disabled := disabled + 1;
    }
  }

  predicate Dropped(rules: map<RuleKey, Rule>, upserted: map<RuleKey, Rule>, done: set<RuleKey>, prune: bool,
                    out: map<RuleKey, Rule>, disabled: nat, deleted: nat)
  {
    && out == SomeUnwanted(upserted, done, prune)
    && deleted == (if prune then |done| else 0)
    && disabled == (if prune then 0 else EnabledCount(rules, done))
  }

  lemma DropStep(rules: map<RuleKey, Rule>, upserted: map<RuleKey, Rule>, done: set<RuleKey>, k: RuleKey, prune: bool,
                 out: map<RuleKey, Rule>, disabled: nat, deleted: nat)
    requires Dropped(rules, upserted, done, prune, out, disabled, deleted)
    requires k in rules && k in upserted && upserted[k] == rules[k] && k !in done
    ensures prune ==> Dropped(rules, upserted, done + {k}, true, out - {k}, disabled, deleted + 1)
    ensures !prune && rules[k].enabled ==>
      Dropped(rules, upserted, done + {k}, false, out[k := rules[k].(enabled := false)], disabled + 1, deleted)
    ensures !prune && !rules[k].enabled ==> Dropped(rules, upserted, done + {k}, false, out, disabled, deleted)
  {
    hide SomeUnwanted, EnabledCount;
    UnwantedOneMore(upserted, done, k, prune);
    EnabledOneMoreRule(rules, done, k);
  }

  lemma AllDropped(rules: map<RuleKey, Rule>, upserted: map<RuleKey, Rule>, done: set<RuleKey>, prune: bool,
                   out: map<RuleKey, Rule>, disabled: nat, deleted: nat)
    requires Dropped(rules, upserted, done, prune, out, disabled, deleted)
    ensures out == SomeUnwanted(upserted, done, prune)
    ensures deleted == if prune then |done| else 0
    ensures disabled == if prune then 0 else EnabledCount(rules, done)
  {
    hide SomeUnwanted, EnabledCount;
  }

  function Unwanted(keys: set<RuleKey>, wanted: set<RuleKey>): set<RuleKey> { keys - wanted }

  lemma UnwantedEnds(rules: map<RuleKey, Rule>, f: File)
    ensures Unwanted({}, WantedKeys(f)) == {} && Unwanted(rules.Keys, WantedKeys(f)) == RulesUnwanted(rules, f)
  {
    hide WantedKeys;
  }

  lemma UnwantedStep(done: set<RuleKey>, wanted: set<RuleKey>, k: RuleKey)
    requires k !in done
    ensures k !in Unwanted(done, wanted)
    ensures Unwanted(done + {k}, wanted) == if k in wanted then Unwanted(done, wanted) else Unwanted(done, wanted) + {k}
    ensures |Unwanted(done + {k}, wanted)| == |Unwanted(done, wanted)| + if k in wanted then 0 else 1
  {
    MinusOneMore(done, wanted, k);
  }

  lemma NothingDropped(rules: map<RuleKey, Rule>, out: map<RuleKey, Rule>, prune: bool)
    ensures Dropped(rules, out, {}, prune, out, 0, 0)
  {
    assert RulesEnabled(rules, {}) == {};
  }

  lemma UnwantedOneMore(out: map<RuleKey, Rule>, done: set<RuleKey>, k: RuleKey, prune: bool)
    requires k in out && k !in done
    ensures prune ==> SomeUnwanted(out, done + {k}, true) == SomeUnwanted(out, done, true) - {k}
    ensures !prune ==>
      SomeUnwanted(out, done + {k}, false) == SomeUnwanted(out, done, false)[k := out[k].(enabled := false)]
    ensures !prune && !out[k].enabled ==> SomeUnwanted(out, done + {k}, false) == SomeUnwanted(out, done, false)
  {
  }

  lemma EnabledOneMoreRule(rules: map<RuleKey, Rule>, done: set<RuleKey>, k: RuleKey)
    requires k in rules && k !in done
    ensures EnabledCount(rules, done + {k}) == EnabledCount(rules, done) + if rules[k].enabled then 1 else 0
  {
    assert RulesEnabled(rules, done + {k})
        == if rules[k].enabled then RulesEnabled(rules, done) + {k} else RulesEnabled(rules, done);
  }

  method ApplyRules(rules: map<RuleKey, Rule>, f: File, prune: bool)
      returns (out: map<RuleKey, Rule>, created: nat, updated: nat, disabled: nat, deleted: nat)
    requires "" !in f.targets
    ensures out == SyncedRules(rules, f, prune)
    ensures created == |WantedKeys(f) - rules.Keys| && updated == |RulesUpdated(rules, f)|
    ensures deleted == if prune then |RulesUnwanted(rules, f)| else 0
    ensures disabled == if prune then 0 else |RulesEnabled(rules, RulesUnwanted(rules, f))|
  {
    var upserted: map<RuleKey, Rule>;
    upserted, created, updated := UpsertRules(rules, f);
    UnwantedAreUntouched(rules, f);
    out, disabled, deleted := DropRules(rules, upserted, f, prune);
    AllDropped(rules, upserted, RulesUnwanted(rules, f), prune, out, disabled, deleted);
    BothLoops(rules, f, prune);
    hide WantedKeys, SomeWanted, SomeUnwanted, SyncedRules, RulesUnwanted, RulesEnabled, RulesUpdated, Dropped,
         Untouched;
  }

  lemma UnwantedAreUntouched(rules: map<RuleKey, Rule>, f: File)
    requires "" !in f.targets
    ensures Untouched(rules, SomeWanted(rules, f, WantedKeys(f)), RulesUnwanted(rules, f))
  {
    hide WantedKeys, Wanted;
  }

  lemma BothLoops(rules: map<RuleKey, Rule>, f: File, prune: bool)
    requires "" !in f.targets
    ensures SomeUnwanted(SomeWanted(rules, f, WantedKeys(f)), RulesUnwanted(rules, f), prune) ==
        SyncedRules(rules, f, prune)
  {
    hide WantedKeys, Wanted;
  }

  // ---------------------------------------------------------------- the whole sync

  /** The rules of deleted nodes go with them; how many those are. */
  method CountRulesOf(rules: map<RuleKey, Rule>, gone: set<string>) returns (n: nat)
    ensures n == |RulesOn(rules, rules.Keys, gone)|
  {
    hide *;
    n := 0;
    var order := AnyOrder(rules.Keys);
    Visited(order, rules.Keys);
    NoRules(rules, gone);
    for i := 0 to |order|
      invariant n == |RulesOn(rules, Elements(order[..i]), gone)|
    {
      Visit(order, rules.Keys, i);
      OneMoreRule(rules, Elements(order[..i]), gone, order[i]);
      if order[i].0 in gone {
        n := n + 1;
      }
    }
  }

  function RulesOn(rules: map<RuleKey, Rule>, keys: set<RuleKey>, gone: set<string>): set<RuleKey> {
    set k | k in keys && k.0 in gone
  }

  lemma NoRules(rules: map<RuleKey, Rule>, gone: set<string>)
    ensures RulesOn(rules, {}, gone) == {}
  {
  }

  lemma OneMoreRule(rules: map<RuleKey, Rule>, keys: set<RuleKey>, gone: set<string>, k: RuleKey)
    requires k !in keys
    ensures |RulesOn(rules, keys + {k}, gone)| == |RulesOn(rules, keys, gone)| + if k.0 in gone then 1 else 0
  {
    assert RulesOn(rules, keys + {k}, gone) == if k.0 in gone then RulesOn(rules, keys, gone) + {k}
        else RulesOn(rules, keys, gone);
  }

  /** The nodes with the file's defaults over the root's settings. */
  function WithDefaults(nodes: map<string, Node>, f: File): map<string, Node>
    requires "" in nodes
  {
    nodes["" := nodes[""].(settings := Overlaid(nodes[""].settings, f.defaults))]
  }

  /** Upserting, then disabling or leaving out what is absent, is what the sync says. */
  lemma PlanIsSynced(nodes: map<string, Node>, f: File, prune: bool)
    requires "" in nodes && "" !in f.targets
    ensures var up := Upserted(WithDefaults(nodes, f), f.targets);
      SyncedNodes(nodes, f, prune) == if prune then up - Absent(nodes, f) else Disabled(up, Absent(nodes, f))
    ensures nodes.Keys <= Upserted(WithDefaults(nodes, f), f.targets).Keys
    ensures Enabled(Upserted(WithDefaults(nodes, f), f.targets), Absent(nodes, f)) == Enabled(nodes, Absent(nodes, f))
    ensures Updated(WithDefaults(nodes, f), f.targets) == Updated(nodes, f.targets)
    ensures Keep(f.targets) - WithDefaults(nodes, f).Keys == Created(nodes, f)
  {
    EntriesAreKept(f.targets);
    RootIsKept(f.targets);
    hide Keep, NodeOf, Overlaid;
    var up := Upserted(WithDefaults(nodes, f), f.targets);
    var next := SyncedNodes(nodes, f, prune);
    forall p | p in next ensures p in up && next[p] == if prune then up[p] else Disabled(up, Absent(nodes, f))[p] {
    }
  }

  /** The tables after the writes and the deletions. */
  lemma WrittenIsSynced(db: Db, f: File, prune: bool)
    requires WellFormed(db) && GoodPaths(f.targets)
    ensures var plan := SyncedNodes(db.nodes, f, prune);
      var gone := if prune then Absent(db.nodes, f) else {};
      && Rooted(plan) && Rooted(db.nodes + plan)
      && WithoutNodes(Db(db.nodes + plan, db.rules), gone) == Db(plan, RulesLeft(db.rules, plan))
      && RulesOn(db.rules, db.rules.Keys, gone) == db.rules.Keys - RulesLeft(db.rules, plan).Keys
  {
    var plan := SyncedNodes(db.nodes, f, prune);
    SyncKeepsWellFormed(db, f, prune);
    SyncedIs(db, f, prune);
    forall p ensures p in plan <==> (p in db.nodes || p in Keep(f.targets)) && (prune ==> p in Keep(f.targets)) {
      IsSynced(db.nodes, f, prune, p);
    }
    hide SyncedNodes, SyncedRules, Synced, Keep, GoodPath, ParentPath;
    var gone := if prune then Absent(db.nodes, f) else {};
    assert (db.nodes + plan) - gone == plan;
    forall k | k in db.rules ensures k.0 in plan <==> k.0 !in gone {
    }
    assert WithoutNodes(Db(db.nodes + plan, db.rules), gone).rules == RulesLeft(db.rules, plan);
  }

  lemma GoneIsASubforest(db: Db, f: File, plan: map<string, Node>, gone: seq<string>)
    requires WellFormed(db) && GoodPaths(f.targets) && plan.Keys <= db.nodes.Keys + Keep(f.targets)
    requires forall p :: p in gone <==> p in Absent(db.nodes, f)
    ensures Subforest(db.nodes + plan, gone)
  {
    hide Keep;
    forall q | q in db.nodes + plan && q != "" && ParentPath(q) in gone ensures q in gone {
      if q in Keep(f.targets) {
        KeepIsClosed(f.targets, q);
      }
    }
  }

  lemma NothingIsASubforest(nodes: map<string, Node>, gone: seq<string>)
    requires forall p :: p !in gone
    ensures Subforest(nodes, gone)
  {
  }

  ghost predicate GoneIs(db: Db, f: File, prune: bool, gone: seq<string>) {
    Distinct(gone) && forall p :: p in gone <==> prune && p in Absent(db.nodes, f)
  }

  lemma GoneIsAbsent(db: Db, f: File, prune: bool, gone: seq<string>)
    requires GoneIs(db, f, prune, gone)
    ensures Elements(gone) == (if prune then Absent(db.nodes, f) else {})
    ensures |gone| == |Elements(gone)|
  {
    hide Absent;
    DistinctSize(gone);
  }

  lemma PlannedIs(db: Db, f: File, prune: bool, nodes: map<string, Node>, planned: map<string, Node>, gone: seq<string>)
    requires "" in db.nodes && "" !in f.targets && GoneIs(db, f, prune, gone)
    requires nodes == Upserted(WithDefaults(db.nodes, f), f.targets)
    requires planned == if prune then nodes else Disabled(nodes, Absent(db.nodes, f))
    ensures planned - Elements(gone) == SyncedNodes(db.nodes, f, prune)
  {
    PlanIsSynced(db.nodes, f, prune);
    GoneIsAbsent(db, f, prune, gone);
    hide *;
  }

  lemma DeletionOrder(db: Db, f: File, prune: bool, gone: seq<string>, order: seq<string>)
    requires WellFormed(db) && GoodPaths(f.targets) && GoneIs(db, f, prune, gone)
    requires forall p :: p in order <==> p in gone
    ensures Subforest(db.nodes + SyncedNodes(db.nodes, f, prune), order)
    ensures Elements(order) == Elements(gone)
  {
    forall p | p in SyncedNodes(db.nodes, f, prune) ensures p in db.nodes.Keys + Keep(f.targets) {
      IsSynced(db.nodes, f, prune, p);
    }
    hide SyncedNodes, Keep, Absent, GoodPath, ParentPath;
    if prune {
      GoneIsASubforest(db, f, SyncedNodes(db.nodes, f, prune), order);
    } else {
      NothingIsASubforest(db.nodes + SyncedNodes(db.nodes, f, prune), order);
    }
  }

  /** Writes what is planned, parents first, and deletes what is gone, children first. */
  method Write(db: Db, f: File, prune: bool, planned: map<string, Node>, gone: seq<string>)
        returns (s: Db, rulesGone: nat)
    requires WellFormed(db) && GoodPaths(f.targets) && planned == SyncedNodes(db.nodes, f, prune) &&
        GoneIs(db, f, prune, gone)
    ensures s == Db(planned, RulesLeft(db.rules, planned))
    ensures rulesGone == |db.rules.Keys - RulesLeft(db.rules, planned).Keys|
  {
    assert Distinct(gone);
    WrittenIsSynced(db, f, prune);
    GoneIsAbsent(db, f, prune, gone);
    hide GoneIs, WellFormed, GoodPaths, SyncedNodes, WithoutNodes, RulesOn, RulesLeft, Absent, DeepestFirst,
         ParentsFirst,
         Rooted, Elements, Subforest, Distinct;
    var order := AllParentsFirst(planned.Keys);
    var stored := WriteNodes(db.nodes, planned, order);
    var down := ByDepth(gone);
    DeletionOrder(db, f, prune, gone, down);
    rulesGone := CountRulesOf(db.rules, Elements(gone));
    s := DeleteTargets(Db(stored, db.rules), down);
  }

  method AllParentsFirst(paths: set<string>) returns (order: seq<string>)
    ensures ParentsFirst(order) && Distinct(order) && forall p :: p in order <==> p in paths
  {
    hide Level, DeepestFirst, ParentsFirst, Elements;
    var any := AnyOrder(paths);
    var down := ByDepth(any);
    order := TreeIndex.Reversed(down);
    ReversedIsParentsFirst(down);
  }

  lemma FileIsGood(db: Db, f: File)
    requires WellFormed(db) && ValidFile(f)
    ensures "" in db.nodes && GoodPaths(f.targets) && "" !in f.targets && "" in WithDefaults(db.nodes, f)
    ensures WithDefaults(db.nodes, f).Keys == db.nodes.Keys
  {
  }

  lemma AbsentIs(nodes: map<string, Node>, f: File)
    ensures Absent(nodes, f) == nodes.Keys - Keep(f.targets)
  {
  }

  lemma IsGone(db: Db, f: File, prune: bool, gone: seq<string>)
    requires Distinct(gone) && forall p :: p in gone <==> prune && p in db.nodes.Keys - Keep(f.targets)
    ensures GoneIs(db, f, prune, gone)
  {
    hide Keep;
  }

  lemma SyncedRest(db: Db, f: File, prune: bool, gone: seq<string>)
    requires WellFormed(db) && GoodPaths(f.targets) && GoneIs(db, f, prune, gone)
    ensures var plan := SyncedNodes(db.nodes, f, prune);
      var rules := RulesLeft(db.rules, plan);
      var unwanted := RulesUnwanted(rules, f);
      && Synced(db, f, prune) == Db(plan, SyncedRules(rules, f, prune))
      && SummaryOf(db, f, prune) ==
           Summary(|Created(db.nodes, f)|, |Updated(db.nodes, f.targets)|,
                   if prune then 0 else |Enabled(db.nodes, Absent(db.nodes, f))|, |gone|,
                   |WantedKeys(f) - rules.Keys|, |RulesUpdated(rules, f)|,
                   if prune then 0 else |RulesEnabled(rules, unwanted)|,
                   |db.rules.Keys - rules.Keys| + if prune then |unwanted| else 0)
  {
    GoneIsAbsent(db, f, prune, gone);
    hide SyncedNodes, SyncedRules, RulesLeft, Keep, Absent, WantedKeys, RulesUpdated, RulesEnabled, RulesUnwanted,
         Enabled,
         Created, Updated, GoneIs, GoodPath, ParentPath;
  }

  /** Steps 1 to 3: the nodes as they should be, which are to go, and what that changes. */
  method Plan(db: Db, f: File, prune: bool)
      returns (planned: map<string, Node>, gone: seq<string>, created: nat, updated: nat, disabled: nat)
    requires WellFormed(db) && ValidFile(f)
    ensures "" in db.nodes && planned == SyncedNodes(db.nodes, f, prune) && GoneIs(db, f, prune, gone)
    ensures created == |Created(db.nodes, f)| && updated == |Updated(db.nodes, f.targets)|
    ensures disabled == if prune then 0 else |Enabled(db.nodes, Absent(db.nodes, f))|
  {
    hide *;
    FileIsGood(db, f);
    var nodes, made: set<string>;
    nodes, made, updated := UpsertEntries(WithDefaults(db.nodes, f), f.targets);
    created := |made|;
    var keep := KeepOf(f.targets);
    PlanIsSynced(db.nodes, f, prune);
    AbsentIs(db.nodes, f);
    planned, gone, disabled := Absentees(nodes, db.nodes.Keys, keep, prune);
    IsGone(db, f, prune, gone);
    PlannedIs(db, f, prune, nodes, planned, gone);
    planned := planned - Elements(gone);
  }

  /** Steps 5 and 6: the writes, the deletions and the rules. */
  method Commit(db: Db, f: File, prune: bool, planned: map<string, Node>, gone: seq<string>)
      returns (out: Db, created: nat, updated: nat, disabled: nat, deleted: nat)
    requires WellFormed(db) && GoodPaths(f.targets) && planned == SyncedNodes(db.nodes, f, prune) &&
        GoneIs(db, f, prune, gone)
    requires "" !in f.targets
    ensures var rules := RulesLeft(db.rules, planned);
      && out == Db(planned, SyncedRules(rules, f, prune))
      && created == |WantedKeys(f) - rules.Keys| && updated == |RulesUpdated(rules, f)|
      && disabled == (if prune then 0 else |RulesEnabled(rules, RulesUnwanted(rules, f))|)
      && deleted == |db.rules.Keys - rules.Keys| + (if prune then |RulesUnwanted(rules, f)| else 0)
  {
    hide *;
    var written, rulesGone := Write(db, f, prune, planned, gone);
    var rules: map<RuleKey, Rule>;
    rules, created, updated, disabled, deleted := ApplyRules(written.rules, f, prune);
    out := Db(written.nodes, rules);
    deleted := rulesGone + deleted;
  }
}
