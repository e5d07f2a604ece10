/** Where a declarative configuration meets the tree: nodes by path, as `Config` and `Sync` have them, and
    targets by id, as the store and the limits do (`Apply` of internal/config/config.go). */
module ConfigTree {
  import opened Options
  import opened Tree
  import opened TreeIndex
  import opened TreeLimits
  import opened TreeEdits
  import opened Renumbering
  import opened Config
  import opened Sets
  import Sync
  import Text
  import TreeRuns

  // ---------------------------------------------------------------- the path of a node

  /** A node's path without the leading slash. */
  function KeyOf(nodes: Nodes, c: seq<int>): string
    requires forall i :: 0 <= i < |c| ==> c[i] in nodes
  {
    if |c| <= 1 then "" else Prefix(nodes, c)[1..]
  }

  function KeyFor(nodes: Nodes, id: int): string
    requires ValidNodes(nodes) && id in nodes
  {
    KeyOf(nodes, ChainOf(nodes, id))
  }

  /** `strings.TrimPrefix(p, "/")` of what `Path` gives. */
  lemma PathIsKey(nodes: Nodes, c: seq<int>)
    requires forall i :: 0 <= i < |c| ==> c[i] in nodes
    ensures PathOf(nodes, c) == "/" + KeyOf(nodes, c)
  {
    if |c| > 1 {
      PrefixStarts(nodes, c);
    }
  }

  lemma {:induction false} PrefixStarts(nodes: Nodes, c: seq<int>)
    requires |c| > 1 && forall i :: 0 <= i < |c| ==> c[i] in nodes
    ensures Prefix(nodes, c) != "" && Prefix(nodes, c)[0] == '/'
  {
    if |c| > 2 {
      PrefixStarts(nodes, c[1..]);
    }
  }

  function Joined(parent: string, name: string): string {
    if parent == "" then name else parent + "/" + name
  }

  /** A child's path is its parent's and its own name. */
  lemma KeyOfChild(nodes: Nodes, id: int)
    requires ValidNodes(nodes) && id in nodes && nodes[id].parent.Some?
    ensures nodes[id].parent.value in nodes
    ensures KeyFor(nodes, id) == Joined(KeyFor(nodes, nodes[id].parent.value), nodes[id].name)
  {
    var c := ChainOf(nodes, id);
    RootChainStart(nodes, c);
    RootChainTail(nodes, c);
    ChainIs(nodes, c[1], c[1..]);
    hide ValidNodes, ChainOf;
    if |c| > 2 {
      PrefixStarts(nodes, c[1..]);
      assert Prefix(nodes, c) == Prefix(nodes, c[1..]) + "/" + nodes[id].name;
      assert Prefix(nodes, c)[1..] == Prefix(nodes, c[1..])[1..] + "/" + nodes[id].name;
      NotTheRoot(nodes, c[1..]);
    } else {
      assert Prefix(nodes, c) == "" + "/" + nodes[id].name;
    }
  }

  lemma NotTheRoot(nodes: Nodes, c: seq<int>)
    requires ValidNodes(nodes) && RootChain(nodes, c) && |c| > 1
    ensures KeyOf(nodes, c) != ""
  {
    RootChainStart(nodes, c);
    RootChainTail(nodes, c);
    NameHasNoSlash(nodes, c[0]);
    hide ValidNodes;
    if |c| > 2 {
      PrefixStarts(nodes, c[1..]);
    }
  }

  lemma KeyOfRoot(nodes: Nodes, id: int)
    requires ValidNodes(nodes) && id in nodes
    ensures KeyFor(nodes, id) == "" <==> nodes[id].parent == None
  {
    var c := ChainOf(nodes, id);
    RootChainStart(nodes, c);
    if |c| > 1 {
      NotTheRoot(nodes, c);
    }
  }

  lemma KeysDiffer(nodes: Nodes)
    requires ValidNodes(nodes)
    ensures forall a, b :: a in nodes && b in nodes && KeyFor(nodes, a) == KeyFor(nodes, b) ==> a == b
  {
    forall a, b | a in nodes && b in nodes && KeyFor(nodes, a) == KeyFor(nodes, b) ensures a == b {
      PathIsKey(nodes, ChainOf(nodes, a));
      PathIsKey(nodes, ChainOf(nodes, b));
      PathIsInjective(nodes, a, b);
    }
  }

  lemma ParentOfJoined(parent: string, name: string)
    requires '/' !in name && name != "" && (parent == "" || GoodPath(parent))
    ensures GoodPath(Joined(parent, name)) && ParentPath(Joined(parent, name)) == parent
    ensures LastName(Joined(parent, name)) == name
  {
    if parent == "" {
      NoSlashNoParent(name);
    } else {
      var p := parent + "/" + name;
      Text.LastEndIs(parent, name, '/');
      assert parent + ['/'] + name == p;
      forall i | 0 <= i < |p| - 1 ensures !(p[i] == '/' && p[i + 1] == '/') {
        if i < |parent| - 1 {
          assert parent[i] == p[i] && parent[i + 1] == p[i + 1];
        } else if i == |parent| {
          assert p[i + 1] == name[0];
        }
      }
      assert p[|p| - 1] == name[|name| - 1];
    }
  }

  lemma {:induction false} NoSlashNoParent(name: string)
    requires '/' !in name
    ensures Text.LastEnd(name, '/') == 0
  {
    if name != "" {
      NoSlashNoParent(name[..|name| - 1]);
    }
  }

  /** A path is its parent and its last name. */
  lemma PathIsJoined(p: string)
    requires GoodPath(p)
    ensures p == Joined(ParentPath(p), LastName(p))
  {
    LastEndIsASlash(p);
    var e := Text.LastEnd(p, '/');
    if e > 0 {
      assert p == p[..e - 1] + "/" + p[e..];
      assert e - 1 > 0;
    }
  }

  // ---------------------------------------------------------------- reading

  function Described(t: Target): Node {
    Node(t.host, t.family, t.title, t.notes, t.hidden, t.enabled, t.sortOrder, t.settings)
  }

  /** The working copies, by path. */
  function ReadNodes(nodes: Nodes): (m: map<string, Node>)
    requires ValidNodes(nodes)
    ensures forall id :: id in nodes ==> KeyFor(nodes, id) in m && m[KeyFor(nodes, id)] == Described(nodes[id])
    ensures forall p :: p in m ==> exists id :: id in nodes && KeyFor(nodes, id) == p
  {
    KeysDiffer(nodes);
    map id | id in nodes :: KeyFor(nodes, id) := Described(nodes[id])
  }

  lemma {:induction false} KeyIsGood(nodes: Nodes, id: int)
    requires ValidNodes(nodes) && id in nodes
    ensures KeyFor(nodes, id) == "" || GoodPath(KeyFor(nodes, id))
    decreases |ChainOf(nodes, id)|
  {
    if nodes[id].parent.Some? {
      var c := ChainOf(nodes, id);
      RootChainStart(nodes, c);
      RootChainTail(nodes, c);
      ChainIs(nodes, c[1], c[1..]);
      KeyOfChild(nodes, id);
      KeyIsGood(nodes, c[1]);
      NameHasNoSlash(nodes, id);
      ParentOfJoined(KeyFor(nodes, c[1]), nodes[id].name);
    } else {
      KeyOfRoot(nodes, id);
    }
  }

  /** Each rule hangs on a node. */
  ghost predicate RulesHang(nodes: Nodes, rules: map<RuleKey, Config.Rule>)
    requires ValidNodes(nodes)
  {
    forall k :: k in rules ==> exists id :: id in nodes && KeyFor(nodes, id) == k.0
  }

  /** What is read of a valid tree is well-formed, its nodes pass the checks on fields, and its root is
      complete: all that syncing and exporting ask for. */
  lemma ReadingIsWellFormed(nodes: Nodes, rules: map<RuleKey, Config.Rule>)
    requires ValidNodes(nodes) && RulesHang(nodes, rules)
    ensures var db := Db(ReadNodes(nodes), rules);
      WellFormed(db) && NodesValid(db) && Complete(db.nodes[""].settings)
  {
    hide *;
    RootIsRead(nodes);
    var db := Db(ReadNodes(nodes), rules);
    forall p | p in db.nodes && p != ""
      ensures GoodPath(p) && ParentPath(p) in db.nodes
      ensures NodeValid(p, db.nodes[p].host, db.nodes[p].family, db.nodes[p].settings)
    {
      ReadIsFine(nodes, p);
    }
    RulesAreRead(nodes, rules);
    WellFormedIs(db);
  }

  lemma RulesAreRead(nodes: Nodes, rules: map<RuleKey, Config.Rule>)
    requires ValidNodes(nodes) && RulesHang(nodes, rules)
    ensures forall k :: k in rules ==> k.0 in ReadNodes(nodes)
  {
    hide ValidNodes, KeyFor;
  }

  lemma WellFormedIs(db: Db)
    requires "" in db.nodes && forall k :: k in db.rules ==> k.0 in db.nodes
    requires forall p :: p in db.nodes && p != "" ==> GoodPath(p) && ParentPath(p) in db.nodes
    requires forall p :: p in db.nodes && p != "" ==>
        NodeValid(p, db.nodes[p].host, db.nodes[p].family, db.nodes[p].settings)
    ensures WellFormed(db) && NodesValid(db)
  {
    hide GoodPath, ParentPath, NodeValid;
  }

  lemma RootIsRead(nodes: Nodes)
    requires ValidNodes(nodes)
    ensures "" in ReadNodes(nodes) && Complete(ReadNodes(nodes)[""].settings)
  {
    var r :| IsRoot(nodes, r) && Complete(nodes[r].settings);
    KeyOfRoot(nodes, r);
    hide ValidNodes, KeyFor, Complete;
  }

  lemma ReadIsFine(nodes: Nodes, p: string)
    requires ValidNodes(nodes) && p in ReadNodes(nodes) && p != ""
    ensures var n := ReadNodes(nodes)[p];
      GoodPath(p) && ParentPath(p) in ReadNodes(nodes) && NodeValid(p, n.host, n.family, n.settings)
  {
    hide ValidNodes, KeyFor, GoodPath, ParentPath, NodeValid;
    var id :| id in nodes && KeyFor(nodes, id) == p;
    NodeReadIsFine(nodes, id);
  }

  lemma NodeReadIsFine(nodes: Nodes, id: int)
    requires ValidNodes(nodes) && id in nodes && KeyFor(nodes, id) != ""
    ensures var p := KeyFor(nodes, id);
      && GoodPath(p) && LastName(p) == nodes[id].name
      && nodes[id].parent.Some? && nodes[id].parent.value in nodes
      && ParentPath(p) == KeyFor(nodes, nodes[id].parent.value)
      && NodeValid(p, nodes[id].host, nodes[id].family, nodes[id].settings)
  {
    hide *;
    KeyOfRoot(nodes, id);
    KeyOfChild(nodes, id);
    KeyIsGood(nodes, nodes[id].parent.value);
    NameHasNoSlash(nodes, id);
    ParentOfJoined(KeyFor(nodes, nodes[id].parent.value), nodes[id].name);
    FieldsAreFine(nodes, id);
    NodeIsValid(nodes[id], KeyFor(nodes, id));
  }

  lemma FieldsAreFine(nodes: Nodes, id: int)
    requires ValidNodes(nodes) && id in nodes
    ensures FieldsValid(nodes[id])
  {
    assert NodeFine(nodes, id);
  }

  lemma NodeIsValid(t: Target, p: string)
    requires FieldsValid(t) && t.parent.Some? && LastName(p) == t.name
    ensures NodeValid(p, t.host, t.family, t.settings)
  {
    hide LastName;
    FieldsIgnorePlace(t, t.(id := 0, parent := Some(1)));
  }

  /** So what is exported of a valid tree is a valid file, and a new database that applies it exports the
      same. */
  lemma ValidTreeExports(nodes: Nodes, rules: map<RuleKey, Config.Rule>, seed: Db, prune: bool)
    requires ValidNodes(nodes) && RulesHang(nodes, rules) && RulesValid(Db(ReadNodes(nodes), rules)) && Config.New(seed)
    ensures var db := Db(ReadNodes(nodes), rules);
      && "" in db.nodes && ValidFile(Export(db)) && "" !in Export(db).targets
      && var again := Synced(seed, Export(db), prune);
      "" in again.nodes && again.rules == rules && Export(again) == Export(db)
  {
    var db := Db(ReadNodes(nodes), rules);
    ReadingIsWellFormed(nodes, rules);
    assert "" in db.nodes;
    hide *;
    ExportIsValid(db);
    ExportRoundTrip(db, seed, prune);
  }

  // ---------------------------------------------------------------- planning

  type Ids = map<string, int>

  ghost predicate Numbered(m: map<string, Node>, ids: Ids) {
    ids.Keys == m.Keys && forall p, q :: p in ids && q in ids && ids[p] == ids[q] ==> p == q
  }

  /** There is a root, and every other node has its parent. */
  ghost predicate Whole(m: map<string, Node>) { "" in m && Sync.Rooted(m) }

  /** A planned node as a target, its parent taken from its path. The root keeps its name. */
  function TargetAt(m: map<string, Node>, ids: Ids, rootName: string, p: string): Target
    requires p in m && p in ids && (p != "" ==> ParentPath(p) in ids)
  {
    var n := m[p];
    Target(ids[p], if p == "" then None else Some(ids[ParentPath(p)]), if p == "" then rootName else LastName(p),
           n.host, n.family, n.title, n.notes, n.hidden, n.enabled, n.sortOrder, n.settings)
  }

  function TargetsOf(m: map<string, Node>, ids: Ids, rootName: string, order: seq<string>): (targets: seq<Target>)
    requires Whole(m) && Numbered(m, ids) && forall p :: p in order ==> p in m
    ensures |targets| == |order|
  {
    seq(|order|, i requires 0 <= i < |order| => TargetAt(m, ids, rootName, order[i]))
  }

  /** The index of a planned tree. */
  lemma PlanIndex(m: map<string, Node>, ids: Ids, rootName: string, order: seq<string>)
    requires Whole(m) && Numbered(m, ids) && Lists(order, m.Keys)
    ensures var targets := TargetsOf(m, ids, rootName, order);
      var nodes := NodesOf(targets);
      && UniqueIds(targets)
      && (forall p :: p in m ==> ids[p] in nodes && nodes[ids[p]] == TargetAt(m, ids, rootName, p))
      && (forall id :: id in nodes ==> exists p :: p in m && ids[p] == id)
  {
    var targets := TargetsOf(m, ids, rootName, order);
    hide GoodPath, ParentPath, LastName;
    forall i, j | 0 <= i < j < |targets| ensures targets[i].id != targets[j].id {
      assert order[i] in order && order[j] in order && order[i] != order[j];
    }
    forall p | p in m ensures ids[p] in NodesOf(targets) && NodesOf(targets)[ids[p]] == TargetAt(m, ids, rootName, p) {
      var k :| 0 <= k < |order| && order[k] == p;
      NodesOfEntry(targets, k);
    }
    forall id | id in NodesOf(targets) ensures exists p :: p in m && ids[p] == id {
      var k := NodesOfSource(targets, id);
      assert order[k] in order;
    }
  }

  /** The nodes of an index are those of the plan. */
  ghost predicate Plans(m: map<string, Node>, ids: Ids, rootName: string, nodes: Nodes) {
    && Whole(m) && Numbered(m, ids)
    && (forall p :: p in m ==> ids[p] in nodes && nodes[ids[p]] == TargetAt(m, ids, rootName, p))
    && (forall id :: id in nodes ==> exists p :: p in m && ids[p] == id)
  }

  lemma {:induction false} PlannedKey(m: map<string, Node>, ids: Ids, rootName: string, nodes: Nodes, p: string)
    requires Plans(m, ids, rootName, nodes) && ValidNodes(nodes) && p in m
    ensures KeyFor(nodes, ids[p]) == p
    decreases |p|
  {
    hide ValidNodes, KeyFor;
    KeyOfRoot(nodes, ids[p]);
    if p != "" {
      KeyOfChild(nodes, ids[p]);
      PlannedKey(m, ids, rootName, nodes, ParentPath(p));
      PathIsJoined(p);
    }
  }

  /** Reading back what was planned gives the plan. */
  lemma PlanReadsBack(m: map<string, Node>, ids: Ids, rootName: string, nodes: Nodes)
    requires Plans(m, ids, rootName, nodes) && ValidNodes(nodes)
    ensures ReadNodes(nodes) == m
  {
    hide *;
    var read := ReadNodes(nodes);
    forall p | p in m ensures p in read && read[p] == m[p] {
      PlannedKey(m, ids, rootName, nodes, p);
      PlannedAt(m, ids, rootName, nodes, p);
    }
    forall p | p in read ensures p in m {
      var id :| id in nodes && KeyFor(nodes, id) == p;
      var q := PlannedAs(m, ids, rootName, nodes, id);
      PlannedKey(m, ids, rootName, nodes, q);
    }
  }

  lemma PlannedAt(m: map<string, Node>, ids: Ids, rootName: string, nodes: Nodes, p: string)
    requires Plans(m, ids, rootName, nodes) && p in m
    ensures Whole(m) && Numbered(m, ids) && p in ids && ids[p] in nodes && Described(nodes[ids[p]]) == m[p]
  {
    hide GoodPath, ParentPath, LastName;
  }

  lemma PlannedAs(m: map<string, Node>, ids: Ids, rootName: string, nodes: Nodes, id: int) returns (p: string)
    requires Plans(m, ids, rootName, nodes) && id in nodes
    ensures p in m && p in ids && ids[p] == id
  {
    p :| p in m && ids[p] == id;
  }

  // ---------------------------------------------------------------- the checks on the plan

  /** Nodes that are there have their ids, new ones have others. */
  ghost predicate Fits(nodes: Nodes, m: map<string, Node>, ids: Ids)
    requires ValidNodes(nodes)
  {
    && Numbered(m, ids)
    && (forall id :: id in nodes && KeyFor(nodes, id) in m ==> ids[KeyFor(nodes, id)] == id)
    && (forall p :: p in m && p !in ReadNodes(nodes) ==> ids[p] !in nodes)
  }

  /** The root's name, which a file says nothing of. */
  function RootName(nodes: Nodes): string
    requires ValidNodes(nodes)
  {
    var r :| IsRoot(nodes, r) && Complete(nodes[r].settings);
    nodes[r].name
  }

  /** The plan passes under some numbering of its new nodes, in some order. */
  ghost predicate Passes(current: seq<Target>, m: map<string, Node>)
    requires Valid(current) && Whole(m)
  {
    exists ids, order :: PassesAs(current, m, ids, order)
  }

  ghost predicate PassesAs(current: seq<Target>, m: map<string, Node>, ids: Ids, order: seq<string>)
    requires Valid(current) && Whole(m)
  {
    && Fits(NodesOf(current), m, ids) && Lists(order, m.Keys)
    && Checked(current, TargetsOf(m, ids, RootName(NodesOf(current)), order))
  }

  /** The new ids in the place of the old. */
  function Changed(m: map<string, Node>, ids: Ids, other: Ids): (r: Numbers)
    requires Numbered(m, ids) && Numbered(m, other)
    ensures forall p :: p in m ==> ids[p] in r && r[ids[p]] == other[p]
    ensures forall x :: x in r ==> exists p :: p in m && ids[p] == x && other[p] == r[x]
    ensures OneToOne(r)
  {
    map p | p in m :: ids[p] := other[p]
  }

  lemma PlansAreRenamed(m: map<string, Node>, ids: Ids, other: Ids, rootName: string, a: Nodes, b: Nodes)
    requires Plans(m, ids, rootName, a) && Plans(m, other, rootName, b) && Numbered(m, ids) && Numbered(m, other)
    requires ids.Keys == m.Keys && other.Keys == m.Keys
    ensures Renames(a, Changed(m, ids, other), b)
  {
    hide *;
    var r := Changed(m, ids, other);
    forall x | x in a
      ensures x in r && (a[x].parent.Some? ==> a[x].parent.value in a && a[x].parent.value in r)
      ensures r[x] in b && b[r[x]] == Renamed(a[x], r[x], r)
    {
      PlanRenamedAt(m, ids, other, rootName, a, b, x);
    }
    forall x | x in r ensures x in a {
      var p :| p in m && ids[p] == x && other[p] == r[x];
      PlannedAt(m, ids, rootName, a, p);
    }
    forall y | y in b ensures exists x :: x in r && r[x] == y {
      var p := PlannedAs(m, other, rootName, b, y);
      PlannedAt(m, ids, rootName, a, p);
      assert r[ids[p]] == y;
    }
    RenamesIs(a, r, b);
  }

  lemma PlanRenamedAt(m: map<string, Node>, ids: Ids, other: Ids, rootName: string, a: Nodes, b: Nodes, x: int)
    requires Plans(m, ids, rootName, a) && Plans(m, other, rootName, b) && Numbered(m, ids) && Numbered(m, other)
    requires x in a
    ensures var r := Changed(m, ids, other);
      && x in r && (a[x].parent.Some? ==> a[x].parent.value in a && a[x].parent.value in r)
      && r[x] in b && b[r[x]] == Renamed(a[x], r[x], r)
  {
    hide *;
    var p := PlannedAs(m, ids, rootName, a, x);
    PlansAt(m, ids, rootName, a, p);
    PlansAt(m, other, rootName, b, p);
    RenamedTarget(m, ids, other, rootName, p);
    if p != "" {
      PlansAt(m, ids, rootName, a, ParentPath(p));
    }
  }

  lemma PlansAt(m: map<string, Node>, ids: Ids, rootName: string, nodes: Nodes, p: string)
    requires Plans(m, ids, rootName, nodes) && p in m
    ensures p in ids && (p != "" ==> ParentPath(p) in m && ParentPath(p) in ids)
    ensures ids[p] in nodes && nodes[ids[p]] == TargetAt(m, ids, rootName, p)
  {
    hide GoodPath, ParentPath, LastName;
  }

  lemma RenamedTarget(m: map<string, Node>, ids: Ids, other: Ids, rootName: string, p: string)
    requires Numbered(m, ids) && Numbered(m, other) && p in m && (p != "" ==> ParentPath(p) in m)
    ensures ids.Keys == m.Keys && other.Keys == m.Keys
    ensures var r, t := Changed(m, ids, other), TargetAt(m, ids, rootName, p);
      && t.id in r && r[t.id] == other[p] && (t.parent.Some? ==> t.parent.value in r)
      && Renamed(t, other[p], r) == TargetAt(m, other, rootName, p)
      && t.parent == if p == "" then None else Some(ids[ParentPath(p)])
  {
    hide ParentPath, LastName, Changed, OneToOne;
  }

  lemma FitsAt(nodes: Nodes, m: map<string, Node>, ids: Ids, other: Ids, p: string)
    requires ValidNodes(nodes) && Fits(nodes, m, ids) && Fits(nodes, m, other) && p in m
    ensures p in ids && p in other && StoredAs(nodes, ids[p]) == StoredAs(nodes, other[p])
    ensures if ids[p] in nodes then other[p] == ids[p] else other[p] !in nodes
  {
    hide ValidNodes, KeyFor;
    if p in ReadNodes(nodes) {
      var id :| id in nodes && KeyFor(nodes, id) == p;
    }
  }

  lemma FitsKeepsIds(nodes: Nodes, m: map<string, Node>, ids: Ids, other: Ids)
    requires ValidNodes(nodes) && Fits(nodes, m, ids) && Fits(nodes, m, other) && Numbered(m, ids) && Numbered(m, other)
    ensures KeepsIds(nodes, Changed(m, ids, other))
    ensures forall p :: p in m ==> p in ids && p in other && StoredAs(nodes, ids[p]) == StoredAs(nodes, other[p])
  {
    hide *;
    assert ids.Keys == m.Keys && other.Keys == m.Keys by { NumberedGives(m, ids); NumberedGives(m, other); }
    forall p | p in m
      ensures StoredAs(nodes, ids[p]) == StoredAs(nodes, other[p])
      ensures if ids[p] in nodes then other[p] == ids[p] else other[p] !in nodes
    {
      FitsAt(nodes, m, ids, other, p);
    }
    KeepsIdsIs(nodes, m, ids, other);
  }

  lemma NumberedGives(m: map<string, Node>, ids: Ids)
    requires Numbered(m, ids)
    ensures ids.Keys == m.Keys
  {
  }

  lemma KeepsIdsIs(nodes: Nodes, m: map<string, Node>, ids: Ids, other: Ids)
    requires Numbered(m, ids) && Numbered(m, other) && ids.Keys == m.Keys && other.Keys == m.Keys
    requires forall p :: p in m ==> if ids[p] in nodes then other[p] == ids[p] else other[p] !in nodes
    ensures KeepsIds(nodes, Changed(m, ids, other))
  {
    var r := Changed(m, ids, other);
    hide Changed, OneToOne, Numbered;
    forall x | x in r ensures (x in nodes <==> r[x] in nodes) && (x in nodes ==> r[x] == x) {
      var p :| p in m && ids[p] == x && other[p] == r[x];
    }
  }

  /** The numbering and the order do not matter. */
  lemma AnyNumberingPasses(current: seq<Target>, m: map<string, Node>, ids: Ids, order: seq<string>, other: Ids,
                           again: seq<string>)
    requires Valid(current) && Whole(m) && PassesAs(current, m, ids, order)
    requires Fits(NodesOf(current), m, other) && Lists(again, m.Keys) && Numbered(m, ids) && Numbered(m, other)
    requires (forall p :: p in order ==> p in m) && (forall p :: p in again ==> p in m)
    ensures PassesAs(current, m, other, again)
    ensures var root := RootName(NodesOf(current));
      SameTree(TargetsOf(m, ids, root, order), Changed(m, ids, other), TargetsOf(m, other, root, again))
      && KeepsIds(NodesOf(current), Changed(m, ids, other))
  {
    hide *;
    PassesGives(current, m, ids, order);
    var nodes, root := NodesOf(current), RootName(NodesOf(current));
    var a, b := TargetsOf(m, ids, root, order), TargetsOf(m, other, root, again);
    FitsKeepsIds(nodes, m, ids, other);
    PlansAreTheSameTree(m, ids, other, root, order, again);
    assert Accepted(current, a) by { CheckedGives(current, a); }
    NumberingDoesNotMatter(current, a, Changed(m, ids, other), b);
    EachWithinLimits(nodes, m, ids, other, root, order, again);
    PassesIs(current, m, other, again);
  }

  lemma PassesGives(current: seq<Target>, m: map<string, Node>, ids: Ids, order: seq<string>)
    requires Valid(current) && Whole(m) && PassesAs(current, m, ids, order)
    ensures ValidNodes(NodesOf(current)) && Fits(NodesOf(current), m, ids) && Numbered(m, ids)
    ensures Lists(order, m.Keys) && (forall p :: p in order ==> p in m)
    ensures Checked(current, TargetsOf(m, ids, RootName(NodesOf(current)), order))
    ensures EachFits(NodesOf(current), TargetsOf(m, ids, RootName(NodesOf(current)), order))
  {
  }

  lemma PassesIs(current: seq<Target>, m: map<string, Node>, ids: Ids, order: seq<string>)
    requires Valid(current) && Whole(m) && Fits(NodesOf(current), m, ids) && Lists(order, m.Keys)
    requires forall p :: p in order ==> p in m
    requires EachFits(NodesOf(current), TargetsOf(m, ids, RootName(NodesOf(current)), order))
    requires Accepted(current, TargetsOf(m, ids, RootName(NodesOf(current)), order))
    ensures PassesAs(current, m, ids, order)
  {
    hide Accepted, Fits;
  }

  lemma CheckedGives(current: seq<Target>, planned: seq<Target>)
    requires Checked(current, planned)
    ensures Accepted(current, planned) && Valid(planned)
  {
    hide CheckLimits;
  }

  ghost predicate EachFits(nodes: Nodes, planned: seq<Target>) {
    forall k :: 0 <= k < |planned| ==> CheckLimits(StoredAs(nodes, planned[k].id), planned[k])
  }

  lemma EachWithinLimits(nodes: Nodes, m: map<string, Node>, ids: Ids, other: Ids, rootName: string,
                         order: seq<string>, again: seq<string>)
    requires Whole(m) && Numbered(m, ids) && Numbered(m, other) && Lists(order, m.Keys)
    requires (forall p :: p in order ==> p in m) && (forall p :: p in again ==> p in m)
    requires forall p :: p in m ==> StoredAs(nodes, ids[p]) == StoredAs(nodes, other[p])
    requires EachFits(nodes, TargetsOf(m, ids, rootName, order))
    ensures EachFits(nodes, TargetsOf(m, other, rootName, again))
  {
    var a, b := TargetsOf(m, ids, rootName, order), TargetsOf(m, other, rootName, again);
    hide GoodPath, ParentPath, LastName, StoredAs;
    forall k | 0 <= k < |b| ensures CheckLimits(StoredAs(nodes, b[k].id), b[k]) {
      assert again[k] in again;
      assert again[k] in order;
      var j :| 0 <= j < |order| && order[j] == again[k];
      assert CheckLimits(StoredAs(nodes, a[j].id), a[j]);
      assert b[k].settings == a[j].settings;
    }
  }

  lemma PlansAreTheSameTree(m: map<string, Node>, ids: Ids, other: Ids, rootName: string, order: seq<string>,
                            again: seq<string>)
    requires Whole(m) && Numbered(m, ids) && Numbered(m, other) && Lists(order, m.Keys) && Lists(again, m.Keys)
    requires (forall p :: p in order ==> p in m) && (forall p :: p in again ==> p in m)
    ensures SameTree(TargetsOf(m, ids, rootName, order), Changed(m, ids, other), TargetsOf(m, other, rootName, again))
  {
    assert ids.Keys == m.Keys && other.Keys == m.Keys;
    hide Whole, Numbered, TargetsOf, TargetAt, Changed, UniqueIds, NodesOf, Renames;
    PlanIndexed(m, ids, rootName, order);
    PlanIndexed(m, other, rootName, again);
    PlansAreRenamed(m, ids, other, rootName, NodesOf(TargetsOf(m, ids, rootName, order)),
        NodesOf(TargetsOf(m, other, rootName, again)));
    SameLength(order, again, m.Keys);
  }

  lemma PlanIndexed(m: map<string, Node>, ids: Ids, rootName: string, order: seq<string>)
    requires Whole(m) && Numbered(m, ids) && Lists(order, m.Keys) && forall p :: p in order ==> p in m
    ensures Plans(m, ids, rootName, NodesOf(TargetsOf(m, ids, rootName, order))) &&
        UniqueIds(TargetsOf(m, ids, rootName, order))
  {
    PlanIndex(m, ids, rootName, order);
    hide TargetsOf, NodesOf, UniqueIds, Whole, Numbered;
  }

  lemma SameLength(a: seq<string>, b: seq<string>, all: set<string>)
    requires Lists(a, all) && Lists(b, all)
    ensures |a| == |b|
  {
    DistinctSize(a);
    DistinctSize(b);
    assert Elements(a) == all && Elements(b) == all;
  }

  // ---------------------------------------------------------------- reading and numbering, step by step

  /** The first loop of `Apply`: the nodes by path, and where each is stored. */
  method Read(nodes: Nodes) returns (m: map<string, Node>, ids: Ids)
    requires ValidNodes(nodes)
    ensures m == ReadNodes(nodes)
    ensures ids.Keys == m.Keys && forall id :: id in nodes ==> ids[KeyFor(nodes, id)] == id
  {
    hide *;
    m, ids := map[], map[];
    var order := AnyOrder(nodes.Keys);
    Visited(order, nodes.Keys);
    KeysDiffer(nodes);
    for i := 0 to |order|
      invariant m.Keys == ids.Keys
      invariant forall id :: id in Elements(order[..i]) ==>
        id in nodes && KeyFor(nodes, id) in m && m[KeyFor(nodes, id)] == Described(nodes[id]) &&
            ids[KeyFor(nodes, id)] == id
      invariant forall p :: p in m ==> exists id :: id in Elements(order[..i]) && id in nodes && KeyFor(nodes, id) == p
    {
      var id := order[i];
      Visit(order, nodes.Keys, i);
      var path := Path(nodes, id);
      PathOfValid(nodes, id);
      var key := path.value[1..];
      m, ids := m[key := Described(nodes[id])], ids[key := id];
    }
    ReadIs(nodes, m);
  }

  lemma PathOfValid(nodes: Nodes, id: int)
    requires ValidNodes(nodes) && id in nodes
    ensures Ancestry(nodes, id).Walked? && PathFor(nodes, id) == Some("/" + KeyFor(nodes, id))
  {
    assert NodeFine(nodes, id);
    PathIsKey(nodes, ChainOf(nodes, id));
    hide ValidNodes, NodeFine;
  }

  lemma ReadIs(nodes: Nodes, m: map<string, Node>)
    requires ValidNodes(nodes)
    requires forall id :: id in nodes ==> KeyFor(nodes, id) in m && m[KeyFor(nodes, id)] == Described(nodes[id])
    requires forall p :: p in m ==> exists id :: id in nodes && KeyFor(nodes, id) == p
    ensures m == ReadNodes(nodes)
  {
    hide ValidNodes, KeyFor, Described;
  }

  /** Ids below zero for the nodes that are new, for the checks alone. */
  method Number(planned: map<string, Node>, known: Ids) returns (ids: Ids)
    requires forall p, q :: p in known && q in known && known[p] == known[q] ==> p == q
    requires forall p :: p in known ==> known[p] > 0
    ensures Numbered(planned, ids)
    ensures forall p :: p in planned ==> if p in known then ids[p] == known[p] else ids[p] < 0
  {
    ids := map[];
    var next := -1;
    var order := AnyOrder(planned.Keys);
    Visited(order, planned.Keys);
    for i := 0 to |order|
      invariant next < 0 && ids.Keys == Elements(order[..i])
      invariant forall p :: p in ids ==> if p in known then ids[p] == known[p] else next < ids[p] < 0
      invariant forall p, q :: p in ids && q in ids && ids[p] == ids[q] ==> p == q
    {
      Visit(order, planned.Keys, i);
      if order[i] in known {
        ids := ids[order[i] := known[order[i]]];
      } else {
        ids := ids[order[i] := next];
        next := next - 1;
      }
    }
  }

  /** Every name that the file gives a node, or the root, is that of an agent. */
  ghost predicate AgentsKnown(planned: map<string, Node>, f: File, known: set<string>) {
    forall p :: p in planned && (p == "" || p in f.targets) ==> NamesKnown(planned[p], known)
  }

  predicate NamesKnown(n: Node, known: set<string>) {
    Agents in n.settings.strs ==>
      forall k :: 0 <= k < |Fields(n.settings.strs[Agents])| ==> Fields(n.settings.strs[Agents])[k] in known
  }

  /** `checkAgentRefs`: the paths with a name that is no agent's. */
  method CheckAgentRefs(planned: map<string, Node>, f: File, known: set<string>) returns (problems: seq<string>)
    ensures problems == [] <==> AgentsKnown(planned, f, known)
    ensures forall p :: p in problems <==> p in planned && (p == "" || p in f.targets) && !NamesKnown(planned[p], known)
  {
    hide NamesKnown;
    problems := [];
    var order := AnyOrder(planned.Keys);
    Visited(order, planned.Keys);
    for i := 0 to |order|
      invariant forall p :: p in problems <==>
        p in Elements(order[..i]) && p in planned && (p == "" || p in f.targets) && !NamesKnown(planned[p], known)
    {
      var p := order[i];
      Visit(order, planned.Keys, i);
      if p != "" && p !in f.targets {
        continue;
      }
      if !NamesKnown(planned[p], known) {
        problems := problems + [p];
      }
    }
    if problems != [] {
      assert problems[0] in problems;
    }
  }

  /** Step 4: the planned tree, each of its nodes held to its limits, and all of it together. */
  method CheckPlan(current: seq<Target>, planned: map<string, Node>, ids: Ids) returns (ok: bool)
    requires Valid(current) && Whole(planned) && Fits(NodesOf(current), planned, ids)
    ensures ok <==> Passes(current, planned)
  {
    hide *;
    ghost var nodes := NodesOf(current);
    ValidIndex(current);
    FitsGives(nodes, planned, ids);
    var order := AnyOrder(planned.Keys);
    ListsGives(order, planned.Keys);
    var name := RootNameOf(current);
    var targets := TargetsOf(planned, ids, name, order);
    ok := true;
    for k := 0 to |targets|
      invariant ok <==> forall j :: 0 <= j < k ==> CheckLimits(StoredAs(nodes, targets[j].id), targets[j])
    {
      var stored := FindStored(current, targets[k].id);
      ok := ok && CheckLimits(stored, targets[k]);
    }
    EachFitsIs(nodes, targets);
    if ok {
      ok := CheckTreeLimits(current, targets);
    }
    PassesExactly(current, planned, ids, order);
  }

  lemma PassesExactly(current: seq<Target>, m: map<string, Node>, ids: Ids, order: seq<string>)
    requires Valid(current) && Whole(m) && Fits(NodesOf(current), m, ids) && Lists(order, m.Keys) && Numbered(m, ids)
    requires forall p :: p in order ==> p in m
    ensures var targets := TargetsOf(m, ids, RootName(NodesOf(current)), order);
      Passes(current, m) <==> EachFits(NodesOf(current), targets) && Accepted(current, targets)
  {
    hide EachFits, Accepted, TargetsOf, Fits, Numbered;
    if Passes(current, m) {
      var other, again :| PassesAs(current, m, other, again);
      PassesGives(current, m, other, again);
      AnyNumberingPasses(current, m, other, again, ids, order);
      PassesGives(current, m, ids, order);
      CheckedGives(current, TargetsOf(m, ids, RootName(NodesOf(current)), order));
    } else if EachFits(NodesOf(current), TargetsOf(m, ids, RootName(NodesOf(current)), order))
           && Accepted(current, TargetsOf(m, ids, RootName(NodesOf(current)), order)) {
      PassesIs(current, m, ids, order);
    }
  }

  lemma EachFitsIs(nodes: Nodes, planned: seq<Target>)
    ensures EachFits(nodes, planned) <==>
      forall k :: 0 <= k < |planned| ==> CheckLimits(StoredAs(nodes, planned[k].id), planned[k])
  {
  }

  lemma ValidIndex(current: seq<Target>)
    requires Valid(current)
    ensures ValidNodes(NodesOf(current))
  {
  }

  lemma FitsGives(nodes: Nodes, m: map<string, Node>, ids: Ids)
    requires ValidNodes(nodes) && Fits(nodes, m, ids)
    ensures Numbered(m, ids)
  {
  }

  lemma ListsGives(order: seq<string>, keys: set<string>)
    requires Lists(order, keys)
    ensures forall p :: p in order ==> p in keys
  {
  }

  method FindStored(current: seq<Target>, id: int) returns (stored: Option<Target>)
    requires Valid(current)
    ensures stored == StoredAs(NodesOf(current), id)
  {
    stored := None;
    hide ValidNodes;
    for i := 0 to |current|
      invariant stored == StoredAs(NodesOf(current[..i]), id)
    {
      assert current[..i + 1][..i] == current[..i];
      if current[i].id == id {
        stored := Some(current[i]);
      }
    }
    assert current[..|current|] == current;
  }

  method RootNameOf(current: seq<Target>) returns (name: string)
    requires Valid(current)
    ensures ValidNodes(NodesOf(current)) && name == RootName(NodesOf(current))
  {
    hide *;
    ValidIndex(current);
    ghost var r := RootRow(current);
    var i := 0;
    while current[i].parent != None
      invariant 0 <= i <= r
      decreases r - i
    {
      i := i + 1;
    }
    RowIsRoot(current, i);
    name := current[i].name;
  }

  lemma RootRow(current: seq<Target>) returns (r: nat)
    requires Valid(current)
    ensures r < |current| && current[r].parent == None
  {
    ValidGives(current);
    var nodes := NodesOf(current);
    var root :| IsRoot(nodes, root) && Complete(nodes[root].settings);
    hide ValidNodes, Complete, NodesOf;
    r :| 0 <= r < |current| && current[r].id == root;
  }

  lemma RowIsRoot(current: seq<Target>, i: nat)
    requires Valid(current) && i < |current| && current[i].parent == None
    ensures ValidNodes(NodesOf(current)) && RootName(NodesOf(current)) == current[i].name
  {
    ValidGives(current);
    hide ValidNodes, NodesOf;
    OneRoot(NodesOf(current), current[i].id);
  }

  lemma OneRoot(nodes: Nodes, id: int)
    requires ValidNodes(nodes) && IsRoot(nodes, id)
    ensures RootName(nodes) == nodes[id].name
  {
  }

  // ---------------------------------------------------------------- Apply

  /** The database gives ids above zero. */
  predicate Positive(targets: seq<Target>) { forall k :: 0 <= k < |targets| ==> targets[k].id > 0 }

  ghost function DbOf(current: seq<Target>, rules: map<RuleKey, Config.Rule>): Db
    requires Valid(current)
  {
    Db(ReadNodes(NodesOf(current)), rules)
  }

  /** What the tree and the agents have to say to a file. */
  ghost predicate Admissible(current: seq<Target>, f: File, prune: bool, known: set<string>, lenient: bool)
    requires Valid(current)
  {
    && "" in ReadNodes(NodesOf(current))
    && var planned := SyncedNodes(ReadNodes(NodesOf(current)), f, prune);
       (lenient || AgentsKnown(planned, f, known)) && Whole(planned) && Passes(current, planned)
  }

  /** `Apply`: all of the file or, when a check refuses it, none of it. */
  method Apply(current: seq<Target>, rules: map<RuleKey, Config.Rule>, f: File, prune: bool, known: set<string>,
               lenient: bool)
      returns (out: Option<Db>, sum: Summary)
    requires Positive(current) && (Valid(current) ==> RulesHang(NodesOf(current), rules))
    ensures out.Some? <==> ValidFile(f) && Valid(current) && Admissible(current, f, prune, known, lenient)
    ensures out.Some? ==>
      && "" in DbOf(current, rules).nodes && "" !in f.targets
      && out.value == Synced(DbOf(current, rules), f, prune) && sum == SummaryOf(DbOf(current, rules), f, prune)
  {
    hide *;
    sum := NOTHING;
    if !ValidFile(f) {
      return None, sum;
    }
    var tree := TreeIndex.New(current);
    if tree == None {
      return None, sum;
    }
    var nodes := tree.value;
    ValidIndex(current);
    var m, ids := Read(nodes);
    var db := Db(m, rules);
    ReadingIsWellFormed(nodes, rules);
    DbIs(current, rules);
    Sync.FileIsGood(db, f);
    var planned, gone, created, updated, disabled := Sync.Plan(db, f, prune);
    PlanIsRooted(db, f, prune);
    AdmissibleIs(current, f, prune, known, lenient);
    var problems := CheckAgentRefs(planned, f, known);
    if problems != [] && !lenient {
      return None, sum;
    }
    IdsAreKnown(current, ids);
    var all := Number(planned, ids);
    NumberFits(nodes, planned, ids, all);
    var ok := CheckPlan(current, planned, all);
    if !ok {
      return None, sum;
    }
    var s, rulesCreated, rulesUpdated, rulesDisabled, rulesDeleted := Sync.Commit(db, f, prune, planned, gone);
    out := Some(s);
    sum := Summary(created, updated, disabled, |gone|, rulesCreated, rulesUpdated, rulesDisabled, rulesDeleted);
    Sync.SyncedRest(db, f, prune, gone);
  }

  lemma DbIs(current: seq<Target>, rules: map<RuleKey, Config.Rule>)
    requires Valid(current)
    ensures DbOf(current, rules) == Db(ReadNodes(NodesOf(current)), rules)
  {
  }

  lemma PlanIsRooted(db: Db, f: File, prune: bool)
    requires WellFormed(db) && GoodPaths(f.targets) && "" !in f.targets
    ensures Whole(SyncedNodes(db.nodes, f, prune))
  {
    SyncKeepsWellFormed(db, f, prune);
    SyncedIs(db, f, prune);
    hide SyncedNodes, GoodPath, ParentPath, Synced;
  }

  lemma AdmissibleIs(current: seq<Target>, f: File, prune: bool, known: set<string>, lenient: bool)
    requires Valid(current) && "" in ReadNodes(NodesOf(current))
    requires Whole(SyncedNodes(ReadNodes(NodesOf(current)), f, prune))
    ensures var planned := SyncedNodes(ReadNodes(NodesOf(current)), f, prune);
      Admissible(current, f, prune, known, lenient) <==>
          (lenient || AgentsKnown(planned, f, known)) && Passes(current, planned)
  {
    hide ReadNodes, SyncedNodes, AgentsKnown, Passes, Whole;
  }

  lemma IdsAreKnown(current: seq<Target>, ids: Ids)
    requires Valid(current) && Positive(current) && ids.Keys == ReadNodes(NodesOf(current)).Keys
    requires forall id :: id in NodesOf(current) ==> ids[KeyFor(NodesOf(current), id)] == id
    ensures forall p, q :: p in ids && q in ids && ids[p] == ids[q] ==> p == q
    ensures forall p :: p in ids ==> ids[p] > 0
  {
    var nodes := NodesOf(current);
    hide ValidNodes, KeyFor, NodesOf;
    forall p | p in ids ensures ids[p] > 0 && ids[p] in nodes && KeyFor(nodes, ids[p]) == p {
      var id :| id in nodes && KeyFor(nodes, id) == p;
      var k := NodesOfSource(current, id);
    }
  }

  lemma NumberFits(nodes: Nodes, planned: map<string, Node>, known: Ids, ids: Ids)
    requires ValidNodes(nodes) && Numbered(planned, ids) && known.Keys == ReadNodes(nodes).Keys
    requires forall id :: id in nodes ==> known[KeyFor(nodes, id)] == id
    requires forall p :: p in known ==> known[p] > 0
    requires forall p :: p in planned ==> if p in known then ids[p] == known[p] else ids[p] < 0
    ensures Fits(nodes, planned, ids)
  {
    hide ValidNodes, KeyFor;
    forall id | id in nodes ensures id > 0 {
      assert known[KeyFor(nodes, id)] == id;
    }
  }

  // ---------------------------------------------------------------- what it leaves

  /** A stored tree that is the plan, under the ids that the database gave its new nodes. */
  ghost predicate StoresAs(current: seq<Target>, m: map<string, Node>, stored: seq<Target>, ids: Ids,
                           order: seq<string>)
    requires Valid(current) && Whole(m)
  {
    && Fits(NodesOf(current), m, ids) && Lists(order, m.Keys) && (forall p :: p in order ==> p in m)
    && stored == TargetsOf(m, ids, RootName(NodesOf(current)), order)
  }

  ghost predicate Stores(current: seq<Target>, m: map<string, Node>, stored: seq<Target>)
    requires Valid(current) && Whole(m)
  {
    exists ids, order :: StoresAs(current, m, stored, ids, order)
  }

  lemma StoredPasses(current: seq<Target>, m: map<string, Node>, stored: seq<Target>)
      returns (planned: seq<Target>, r: Numbers, ids: Ids, order: seq<string>)
    requires Valid(current) && Whole(m) && Passes(current, m) && Stores(current, m, stored)
    ensures Checked(current, planned) && SameTree(planned, r, stored) && KeepsIds(NodesOf(current), r)
    ensures StoresAs(current, m, stored, ids, order) && PassesAs(current, m, ids, order) && Numbered(m, ids)
  {
    ids, order :| StoresAs(current, m, stored, ids, order);
    var first, its :| PassesAs(current, m, first, its);
    assert Fits(NodesOf(current), m, ids) && Lists(order, m.Keys) && forall p :: p in order ==> p in m;
    ValidIndex(current);
    FitsGives(NodesOf(current), m, ids);
    PassesGives(current, m, first, its);
    AnyNumberingPasses(current, m, first, its, ids, order);
    hide *;
    planned, r := TargetsOf(m, first, RootName(NodesOf(current)), its), Changed(m, first, ids);
  }

  /** An import that is accepted and stored is a step of the tree, so it keeps what every run keeps. */
  lemma ImportIsAStep(current: seq<Target>, m: map<string, Node>, stored: seq<Target>)
    requires Valid(current) && Whole(m) && Passes(current, m) && Stores(current, m, stored)
    ensures TreeRuns.Step(current, stored)
  {
    hide *;
    hide Passes, Stores;
    var planned, r, ids, order := StoredPasses(current, m, stored);
    ImportedIs(current, planned, r, stored);
  }

  lemma ImportedIs(current: seq<Target>, planned: seq<Target>, r: Numbers, next: seq<Target>)
    requires Valid(current) && Checked(current, planned) && SameTree(planned, r, next) && KeepsIds(NodesOf(current), r)
    ensures TreeRuns.Step(current, next)
  {
    hide Valid, Checked, SameTree, KeepsIds;
    assert TreeRuns.Imported(current, planned, r, next);
  }

  /** What is read of the stored tree is what was planned. */
  lemma StoredReadsBack(current: seq<Target>, m: map<string, Node>, stored: seq<Target>)
    requires Valid(current) && Whole(m) && Passes(current, m) && Stores(current, m, stored)
    ensures Valid(stored) && ReadNodes(NodesOf(stored)) == m && Passes(stored, m)
  {
    hide *;
    var planned, r, ids, order := StoredPasses(current, m, stored);
    CheckedGives(current, planned);
    SameTreeIsValid(planned, r, stored);
    ValidIndex(stored);
    ValidIndex(current);
    var root := RootName(NodesOf(current));
    StoresGives(current, m, stored, ids, order);
    PlanIndexed(m, ids, root, order);
    PlanReadsBack(m, ids, root, NodesOf(stored));
    PlanFitsItself(m, ids, root, NodesOf(stored));
    UnchangedPasses(stored);
    PassesIs(stored, m, ids, order);
    PassesSo(stored, m, ids, order);
  }

  lemma PassesSo(current: seq<Target>, m: map<string, Node>, ids: Ids, order: seq<string>)
    requires Valid(current) && Whole(m) && PassesAs(current, m, ids, order)
    ensures Passes(current, m)
  {
    hide PassesAs;
  }

  lemma StoresGives(current: seq<Target>, m: map<string, Node>, stored: seq<Target>, ids: Ids, order: seq<string>)
    requires Valid(current) && Whole(m) && StoresAs(current, m, stored, ids, order)
    ensures ValidNodes(NodesOf(current)) && Numbered(m, ids) && Lists(order, m.Keys) &&
        (forall p :: p in order ==> p in m)
    ensures stored == TargetsOf(m, ids, RootName(NodesOf(current)), order)
  {
    hide TargetsOf;
  }

  lemma PlanFitsItself(m: map<string, Node>, ids: Ids, rootName: string, nodes: Nodes)
    requires Plans(m, ids, rootName, nodes) && ValidNodes(nodes) && Numbered(m, ids) && ReadNodes(nodes) == m
    ensures Fits(nodes, m, ids) && RootName(nodes) == rootName
  {
    hide *;
    forall p | p in m ensures p in ids && ids[p] in nodes && KeyFor(nodes, ids[p]) == p {
      PlannedKey(m, ids, rootName, nodes, p);
      PlannedAt(m, ids, rootName, nodes, p);
    }
    forall id | id in nodes ensures KeyFor(nodes, id) in ids && ids[KeyFor(nodes, id)] == id {
      var p := PlannedAs(m, ids, rootName, nodes, id);
    }
    FitsIs(nodes, m, ids);
    PlannedRoot(m, ids, rootName, nodes);
  }

  lemma FitsIs(nodes: Nodes, m: map<string, Node>, ids: Ids)
    requires ValidNodes(nodes) && Numbered(m, ids) && ReadNodes(nodes) == m
    requires forall id :: id in nodes ==> KeyFor(nodes, id) in ids && ids[KeyFor(nodes, id)] == id
    ensures Fits(nodes, m, ids)
  {
    hide ValidNodes, KeyFor, Numbered, ReadNodes;
  }

  lemma PlannedRoot(m: map<string, Node>, ids: Ids, rootName: string, nodes: Nodes)
    requires Plans(m, ids, rootName, nodes) && ValidNodes(nodes)
    ensures RootName(nodes) == rootName
  {
    hide GoodPath, ParentPath, LastName;
    assert nodes[ids[""]] == TargetAt(m, ids, rootName, "");
    hide ValidNodes;
    OneRoot(nodes, ids[""]);
  }

  lemma UnchangedPasses(stored: seq<Target>)
    requires Valid(stored)
    ensures EachFits(NodesOf(stored), stored) && Accepted(stored, stored)
  {
    LimitsAcceptNoChange(stored);
    ValidGives(stored);
    hide Valid, ValidNodes, NodesOf, Accepted;
  }

  /** Applying the same file again, to what the first time left stored: it succeeds, changes nothing and
      reports nothing. */
  method ApplyTwice(current: seq<Target>, rules: map<RuleKey, Config.Rule>, f: File, prune: bool, known: set<string>,
                    lenient: bool, stored: seq<Target>)
      returns (once: Option<Db>, again: Option<Db>, sum: Summary)
    requires Valid(current) && Positive(current) && Positive(stored) && RulesHang(NodesOf(current), rules)
    requires Admissible(current, f, prune, known, lenient) ==>
      Stores(current, SyncedNodes(ReadNodes(NodesOf(current)), f, prune), stored)
    ensures once.Some? ==> again == once && sum == NOTHING
  {
    hide *;
    var first: Summary;
    again, sum := None, NOTHING;
    once, first := Apply(current, rules, f, prune, known, lenient);
    if once.Some? {
      SecondIsAdmissible(current, rules, f, prune, known, lenient, stored, once.value);
      again, sum := Apply(stored, once.value.rules, f, prune, known, lenient);
    }
  }

  lemma SecondIsAdmissible(current: seq<Target>, rules: map<RuleKey, Config.Rule>, f: File, prune: bool,
                           known: set<string>,
                           lenient: bool, stored: seq<Target>, once: Db)
    requires Valid(current) && RulesHang(NodesOf(current), rules) && ValidFile(f)
    requires Admissible(current, f, prune, known, lenient)
    requires Stores(current, SyncedNodes(ReadNodes(NodesOf(current)), f, prune), stored)
    requires "" in DbOf(current, rules).nodes && "" !in f.targets && once == Synced(DbOf(current, rules), f, prune)
    ensures Valid(stored) && RulesHang(NodesOf(stored), once.rules)
    ensures DbOf(stored, once.rules) == once && Admissible(stored, f, prune, known, lenient)
    ensures "" in once.nodes && Synced(once, f, prune) == once && SummaryOf(once, f, prune) == NOTHING
  {
    var db := DbOf(current, rules);
    var m := SyncedNodes(db.nodes, f, prune);
    assert Whole(m) && Passes(current, m) && (lenient || AgentsKnown(m, f, known));
    hide *;
    DbIs(current, rules);
    ValidIndex(current);
    ReadingIsWellFormed(NodesOf(current), rules);
    Sync.FileIsGood(db, f);
    StoredReadsBack(current, m, stored);
    SyncKeepsWellFormed(db, f, prune);
    SyncIsIdempotent(db, f, prune);
    SecondSyncReportsNothing(db, f, prune);
    SyncedIs(db, f, prune);
    SyncedIs(once, f, prune);
    DbIs(stored, once.rules);
    ValidIndex(stored);
    RulesStillHang(NodesOf(stored), once);
    AdmissibleIs(stored, f, prune, known, lenient);
  }

  lemma RulesStillHang(nodes: Nodes, db: Db)
    requires ValidNodes(nodes) && WellFormed(db) && ReadNodes(nodes) == db.nodes
    ensures RulesHang(nodes, db.rules)
  {
    hide ValidNodes, KeyFor, GoodPath, ParentPath;
  }
}
