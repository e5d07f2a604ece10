/** Building the index of a tree, and what holds of one that was built: `New`, `Resolve`, `Path` of
    internal/tree/tree.go, and `NearestRuleNode` of internal/alert/manager.go. */
module TreeIndex {
  import opened Options
  import opened Tree
  import opened Sets
  import Text

  // ---------------------------------------------------------------- New

  lemma {:induction false} NodesOfSource(targets: seq<Target>, id: int) returns (k: nat)
    requires id in NodesOf(targets)
    ensures k < |targets| && targets[k].id == id && NodesOf(targets)[id] == targets[k]
  {
    var n := |targets| - 1;
    if id == targets[n].id {
      k := n;
    } else {
      k := NodesOfSource(targets[..n], id);
    }
  }

  lemma {:induction false} NodesOfEntry(targets: seq<Target>, k: nat)
    requires k < |targets|
    ensures targets[k].id in NodesOf(targets)
    ensures UniqueIds(targets) ==> NodesOf(targets)[targets[k].id] == targets[k]
  {
    var n := |targets| - 1;
    if k < n {
      NodesOfEntry(targets[..n], k);
      assert UniqueIds(targets) ==> UniqueIds(targets[..n]);
    }
  }

  ghost predicate RootIs(nodes: Nodes, root: Option<int>) {
    match root
    case None => forall id :: !IsRoot(nodes, id)
    case Some(r) => forall id :: IsRoot(nodes, id) <==> id == r
  }

  lemma RootsStay(targets: seq<Target>, i: nat, a: int)
    requires UniqueIds(targets) && i <= |targets| && IsRoot(NodesOf(targets[..i]), a)
    ensures IsRoot(NodesOf(targets), a)
  {
    var k := NodesOfSource(targets[..i], a);
    NodesOfEntry(targets, k);
  }

  method Index(targets: seq<Target>) returns (nodes: Option<Nodes>, root: Option<int>)
    ensures nodes.None? ==> !Valid(targets)
    ensures nodes.Some? ==> UniqueIds(targets) && nodes.value == NodesOf(targets) && RootIs(nodes.value, root)
  {
    hide NodeFine, HostFine, SiblingsDiffer, Complete;
    var t: Nodes := map[];
    root := None;
    for i := 0 to |targets|
      invariant t == NodesOf(targets[..i]) && UniqueIds(targets[..i]) && RootIs(t, root)
    {
      var n := targets[i];
      assert targets[..i + 1][..i] == targets[..i];
      if n.id in t {
        var k := NodesOfSource(targets[..i], n.id);
        assert targets[k].id == targets[i].id;
        return None, root;
      }
      forall k | 0 <= k < i ensures targets[k].id != n.id {
        NodesOfEntry(targets[..i], k);
      }
      ghost var before := t;
      t := t[n.id := n];
      assert forall id :: IsRoot(t, id) <==> IsRoot(before, id) || (id == n.id && n.parent == None);
      if n.parent == None {
        if root != None {
          if UniqueIds(targets) {
            RootsStay(targets, i, root.value);
            assert IsRoot(NodesOf(targets[..i + 1]), n.id);
            RootsStay(targets, i + 1, n.id);
          }
          return None, root;
        }
        root := Some(n.id);
      }
    }
    assert targets[..|targets|] == targets;
    nodes := Some(t);
  }

  ghost predicate AllFine(nodes: Nodes) {
    forall id :: id in nodes ==> NodeFine(nodes, id)
  }

  method CheckNodes(nodes: Nodes) returns (ok: bool)
    ensures ok <==> AllFine(nodes)
  {
    hide FieldsValid, Ancestry;
    var order := AnyOrder(nodes.Keys);
    for i := 0 to |order|
      invariant forall id :: id in order[..i] ==> id in nodes && NodeFine(nodes, id)
    {
      var id := order[i];
      assert id in nodes;
      var walk := AncestryOf(nodes, id);
      if !walk.Walked? || !FieldsValid(nodes[id]) {
        assert !NodeFine(nodes, id);
        return false;
      }
    }
    assert order[..|order|] == order;
    ok := true;
  }

  function SiblingKey(t: Target): string
    requires t.parent.Some?
  {
    Text.FormatInt(t.parent.value) + "/" + t.name
  }

  /** The key names the parent and the name, and nothing else. */
  lemma SiblingKeyInjective(a: Target, b: Target)
    requires a.parent.Some? && b.parent.Some?
    ensures SiblingKey(a) == SiblingKey(b) <==> a.parent == b.parent && a.name == b.name
  {
    if SiblingKey(a) == SiblingKey(b) {
      Text.SplitFirst(Text.FormatInt(a.parent.value), a.name, Text.FormatInt(b.parent.value), b.name, '/');
      Text.FormatIntInjective(a.parent.value, b.parent.value);
    }
  }

  method CheckSiblings(nodes: Nodes) returns (ok: bool)
    ensures ok <==> forall a, b :: a in nodes && b in nodes ==> SiblingsDiffer(nodes, a, b)
  {
    hide SiblingKey;
    var seen: set<string> := {};
    var order := AnyOrder(nodes.Keys);
    for i := 0 to |order|
      invariant forall k :: k in seen <==> exists j :: 0 <= j < i && KeyAt(nodes, order, j, k)
      invariant forall a, b :: a in order[..i] && b in order[..i] ==> SiblingsDiffer(nodes, a, b)
    {
      var id := order[i];
      assert id in nodes;
      if nodes[id].parent == None {
        continue;
      }
      var key := SiblingKey(nodes[id]);
      if key in seen {
        var j :| 0 <= j < i && KeyAt(nodes, order, j, key);
        SiblingKeyInjective(nodes[order[j]], nodes[id]);
        assert !SiblingsDiffer(nodes, order[j], id);
        return false;
      }
      forall a | a in order[..i] ensures SiblingsDiffer(nodes, a, id) && SiblingsDiffer(nodes, id, a) {
        var j :| 0 <= j < i && order[j] == a;
        if nodes[a].parent.Some? {
          SiblingKeyInjective(nodes[a], nodes[id]);
          assert KeyAt(nodes, order, j, SiblingKey(nodes[a]));
        }
      }
      assert KeyAt(nodes, order, i, key);
      seen := seen + {key};
    }
    assert order[..|order|] == order;
    ok := true;
  }

  predicate KeyAt(nodes: Nodes, order: seq<int>, j: nat, key: string)
    requires j < |order|
  {
    order[j] in nodes && nodes[order[j]].parent.Some? && SiblingKey(nodes[order[j]]) == key
  }

  method CheckTiming(nodes: Nodes) returns (ok: bool)
    requires AllFine(nodes)
    ensures ok <==> forall id :: id in nodes && NodeFine(nodes, id) ==> HostFine(nodes, id)
  {
    hide FieldsValid, Ancestry, TimingFits;
    var order := AnyOrder(nodes.Keys);
    for i := 0 to |order|
      invariant forall id :: id in order[..i] ==> id in nodes && HostFine(nodes, id)
    {
      var id := order[i];
      assert id in nodes && NodeFine(nodes, id);
      if nodes[id].host == None {
        continue;
      }
      var walk := AncestryOf(nodes, id);
      WalkedIsRootChain(nodes, id);
      if !TimingFits(nodes, walk.chain) {
        assert !HostFine(nodes, id);
        return false;
      }
    }
    assert order[..|order|] == order;
    ok := true;
  }

  /** `New` builds the index exactly when the targets are a valid tree. */
  method New(targets: seq<Target>) returns (tree: Option<Nodes>)
    ensures tree.Some? <==> Valid(targets)
    ensures tree.Some? ==> tree.value == NodesOf(targets)
  {
    hide NodeFine, HostFine, SiblingsDiffer, Complete, NodesOf, UniqueIds;
    var nodes, root := Index(targets);
    if nodes == None {
      return None;
    }
    var t := nodes.value;
    if root == None {
      return None;
    }
    assert IsRoot(t, root.value);
    if !Rooted(t, root.value) {
      return None;
    }
    var ok := CheckNodes(t);
    if ok {
      ok := CheckSiblings(t);
    }
    if ok {
      ok := CheckTiming(t);
    }
    tree := if ok then Some(t) else None;
  }

  predicate Rooted(nodes: Nodes, root: int) {
    root in nodes && Complete(nodes[root].settings)
  }

  // ---------------------------------------------------------------- resolution

  function ChainOf(nodes: Nodes, id: int): (c: seq<int>)
    requires ValidNodes(nodes) && id in nodes
    ensures RootChain(nodes, c) && c[0] == id
  {
    assert NodeFine(nodes, id);
    WalkedIsRootChain(nodes, id);
    Ancestry(nodes, id).chain
  }

  /** The value of the nearest node that gives one, and that node. */
  ghost predicate NearestInt(nodes: Nodes, c: seq<int>, f: IntField, k: nat)
    requires Chain(nodes, c)
  {
    && k < |c| && f in nodes[c[k]].settings.ints
    && forall j :: 0 <= j < k ==> f !in nodes[c[j]].settings.ints
  }

  ghost predicate NearestStr(nodes: Nodes, c: seq<int>, f: StrField, k: nat)
    requires Chain(nodes, c)
  {
    && k < |c| && f in nodes[c[k]].settings.strs
    && forall j :: 0 <= j < k ==> f !in nodes[c[j]].settings.strs
  }

  ghost predicate NearestBool(nodes: Nodes, c: seq<int>, f: BoolField, k: nat)
    requires Chain(nodes, c)
  {
    && k < |c| && f in nodes[c[k]].settings.bools
    && forall j :: 0 <= j < k ==> f !in nodes[c[j]].settings.bools
  }

  lemma {:induction false} LookupFinds<K, V>(layers: seq<map<K, V>>, k: K) returns (i: nat)
    requires exists j :: 0 <= j < |layers| && k in layers[j]
    ensures i < |layers| && k in layers[i] && forall j :: 0 <= j < i ==> k !in layers[j]
    ensures Lookup(layers, k) == Some((layers[i][k], i))
  {
    i := 0;
    while k !in layers[i]
      invariant i < |layers| && forall j :: 0 <= j < i ==> k !in layers[j]
      decreases |layers| - i
    {
      i := i + 1;
    }
    LookupIsNearest(layers, k, i);
  }

  lemma ChainEndsAtRoot(nodes: Nodes, id: int)
    requires ValidNodes(nodes) && id in nodes
    ensures var c := ChainOf(nodes, id); IsRoot(nodes, c[|c| - 1]) && Complete(nodes[c[|c| - 1]].settings)
  {
    hide Complete, NodeFine, HostFine, SiblingsDiffer;
    var c := ChainOf(nodes, id);
    assert IsRoot(nodes, c[|c| - 1]);
  }

  /** Resolving is total in a valid tree: each of the settings the root must give has a value on every
      node, that of the nearest node on the way up, itself first, that gives one. */
  lemma ResolveInt(nodes: Nodes, id: int, f: IntField) returns (k: nat)
    requires ValidNodes(nodes) && id in nodes && f in DEFAULTED_INTS
    ensures var c := ChainOf(nodes, id);
      NearestInt(nodes, c, f, k) && Lookup(IntLayers(nodes, c), f) == Some((nodes[c[k]].settings.ints[f], k))
  {
    var c := ChainOf(nodes, id);
    ChainEndsAtRoot(nodes, id);
    hide ValidNodes, ChainOf, IsRoot, Lookup;
    assert f in IntLayers(nodes, c)[|c| - 1];
    k := LookupFinds(IntLayers(nodes, c), f);
  }

  lemma ResolveStr(nodes: Nodes, id: int, f: StrField) returns (k: nat)
    requires ValidNodes(nodes) && id in nodes && f in DEFAULTED_STRS
    ensures var c := ChainOf(nodes, id);
      NearestStr(nodes, c, f, k) && Lookup(StrLayers(nodes, c), f) == Some((nodes[c[k]].settings.strs[f], k))
  {
    var c := ChainOf(nodes, id);
    ChainEndsAtRoot(nodes, id);
    hide ValidNodes, ChainOf, IsRoot, Lookup;
    assert f in StrLayers(nodes, c)[|c| - 1];
    k := LookupFinds(StrLayers(nodes, c), f);
  }

  lemma ResolveBool(nodes: Nodes, id: int, f: BoolField) returns (k: nat)
    requires ValidNodes(nodes) && id in nodes
    ensures var c := ChainOf(nodes, id);
      NearestBool(nodes, c, f, k) && Lookup(BoolLayers(nodes, c), f) == Some((nodes[c[k]].settings.bools[f], k))
  {
    var c := ChainOf(nodes, id);
    ChainEndsAtRoot(nodes, id);
    hide ValidNodes, ChainOf, IsRoot, Lookup;
    assert f in BoolLayers(nodes, c)[|c| - 1];
    k := LookupFinds(BoolLayers(nodes, c), f);
  }

  // ---------------------------------------------------------------- paths

  /** What comes before a child's name; the root's is empty. */
  function Prefix(nodes: Nodes, c: seq<int>): string
    requires forall i :: 0 <= i < |c| ==> c[i] in nodes
  {
    if |c| <= 1 then "" else Prefix(nodes, c[1..]) + "/" + nodes[c[0]].name
  }

  function PathOf(nodes: Nodes, c: seq<int>): string
    requires forall i :: 0 <= i < |c| ==> c[i] in nodes
  {
    if |c| <= 1 then "/" else Prefix(nodes, c)
  }

  method Path(nodes: Nodes, id: int) returns (path: Option<string>)
    ensures path == if id in nodes && Ancestry(nodes, id).Walked? then PathFor(nodes, id) else None
  {
    hide Ancestry, Text.Join, PathOf;
    if id !in nodes {
      return None;
    }
    var walk := AncestryOf(nodes, id);
    if !walk.Walked? {
      return None;
    }
    WalkedIsRootChain(nodes, id);
    var chain := walk.chain;
    var parts: seq<string> := [];
    for i := 0 to |chain| - 1
      invariant parts == Names(nodes, chain[..i])
    {
      assert chain[..i + 1][..i] == chain[..i];
      parts := parts + [nodes[chain[i]].name];
    }
    parts := Reversed(parts);
    JoinedIsPath(nodes, chain);
    path := Some("/" + Text.Join(parts, "/"));
  }

  function PathFor(nodes: Nodes, id: int): Option<string>
    requires id in nodes && Ancestry(nodes, id).Walked?
  {
    WalkedIsRootChain(nodes, id);
    Some(PathOf(nodes, Ancestry(nodes, id).chain))
  }

  function Names(nodes: Nodes, c: seq<int>): seq<string>
    requires forall i :: 0 <= i < |c| ==> c[i] in nodes
  {
    if c == [] then [] else Names(nodes, c[..|c| - 1]) + [nodes[c[|c| - 1]].name]
  }

  function Reversed<T>(s: seq<T>): (r: seq<T>)
    ensures |r| == |s| && forall i :: 0 <= i < |s| ==> r[i] == s[|s| - 1 - i]
  {
    if s == [] then [] else [s[|s| - 1]] + Reversed(s[..|s| - 1])
  }

  lemma {:induction false} NamesFromFront(nodes: Nodes, c: seq<int>)
    requires c != [] && forall i :: 0 <= i < |c| ==> c[i] in nodes
    ensures Names(nodes, c) == [nodes[c[0]].name] + Names(nodes, c[1..])
  {
    if |c| > 1 {
      NamesFromFront(nodes, c[..|c| - 1]);
      assert c[..|c| - 1][1..] == c[1..][..|c| - 2];
    }
  }

  lemma ReversedFromFront<T>(x: T, s: seq<T>)
    ensures Reversed([x] + s) == Reversed(s) + [x]
  {
  }

  lemma {:induction false} JoinedIsPrefix(nodes: Nodes, c: seq<int>)
    requires |c| > 1 && forall i :: 0 <= i < |c| ==> c[i] in nodes
    ensures "/" + Text.Join(Reversed(Names(nodes, c[..|c| - 1])), "/") == Prefix(nodes, c)
  {
    hide Text.Join, Reversed, Names;
    var below, name := c[..|c| - 1], nodes[c[0]].name;
    NamesFromFront(nodes, below);
    ReversedFromFront(name, Names(nodes, below[1..]));
    var rest := Reversed(Names(nodes, below[1..]));
    Text.JoinAppends(rest, name, "/");
    if |c| == 2 {
      NoNames(nodes);
      assert below[1..] == [] && rest == [];
    } else {
      JoinedIsPrefix(nodes, c[1..]);
      assert c[1..][..|c| - 2] == below[1..];
      NamesFromFront(nodes, below[1..]);
      assert "/" + (Text.Join(rest, "/") + "/" + name) == "/" + Text.Join(rest, "/") + "/" + name;
    }
  }

  lemma NoNames(nodes: Nodes)
    ensures Names(nodes, []) == []
  {
  }

  lemma JoinedIsPath(nodes: Nodes, c: seq<int>)
    requires c != [] && forall i :: 0 <= i < |c| ==> c[i] in nodes
    ensures "/" + Text.Join(Reversed(Names(nodes, c[..|c| - 1])), "/") == PathOf(nodes, c)
  {
    if |c| > 1 {
      JoinedIsPrefix(nodes, c);
    }
  }

  lemma PrefixDetermines(nodes: Nodes, c: seq<int>, d: seq<int>)
    requires ValidNodes(nodes) && RootChain(nodes, c) && RootChain(nodes, d)
    requires Prefix(nodes, c) == Prefix(nodes, d)
    ensures c[0] == d[0]
    decreases |c|
  {
    hide HostFine, Complete, FieldsValid, Ancestry;
    RootChainStart(nodes, c);
    RootChainStart(nodes, d);
    if |c| == 1 || |d| == 1 {
      assert |c| == |d| == 1;
      assert IsRoot(nodes, c[0]) && IsRoot(nodes, d[0]);
    } else {
      RootChainTail(nodes, c);
      RootChainTail(nodes, d);
      NameHasNoSlash(nodes, c[0]);
      NameHasNoSlash(nodes, d[0]);
      Text.SplitLast(Prefix(nodes, c[1..]), nodes[c[0]].name, Prefix(nodes, d[1..]), nodes[d[0]].name, '/');
      PrefixDetermines(nodes, c[1..], d[1..]);
      assert SiblingsDiffer(nodes, c[0], d[0]);
    }
  }

  lemma NameHasNoSlash(nodes: Nodes, id: int)
    requires ValidNodes(nodes) && id in nodes
    ensures '/' !in nodes[id].name && (nodes[id].parent.Some? ==> nodes[id].name != "")
  {
    hide HostFine, Complete, SiblingsDiffer;
    assert NodeFine(nodes, id);
    assert nodes[id].name == "" ==> Blank(nodes[id].name);
  }

  /** In a valid tree a path names one node. */
  lemma PathIsInjective(nodes: Nodes, a: int, b: int)
    requires ValidNodes(nodes) && a in nodes && b in nodes
    ensures PathOf(nodes, ChainOf(nodes, a)) == PathOf(nodes, ChainOf(nodes, b)) <==> a == b
  {
    var c, d := ChainOf(nodes, a), ChainOf(nodes, b);
    hide ValidNodes, ChainOf;
    if PathOf(nodes, c) == PathOf(nodes, d) {
      if |c| > 1 { PrefixIsNotSlash(nodes, c); }
      if |d| > 1 { PrefixIsNotSlash(nodes, d); }
      PrefixDetermines(nodes, c, d);
    }
  }

  lemma PrefixIsNotSlash(nodes: Nodes, c: seq<int>)
    requires ValidNodes(nodes) && RootChain(nodes, c) && |c| > 1
    ensures Prefix(nodes, c) != "/"
  {
    hide ValidNodes;
    RootChainTail(nodes, c);
    NameHasNoSlash(nodes, c[0]);
    assert |Prefix(nodes, c)| >= 2;
  }

  // ---------------------------------------------------------------- rules

  /** The rules that apply to a target are those of the nearest node, itself included, that has any. */
  method NearestRuleNode(nodes: Nodes, hasRules: int -> bool, target: int) returns (found: Option<int>)
    requires ValidNodes(nodes)
    ensures target !in nodes ==> found == None
    ensures target in nodes ==>
      var c := ChainOf(nodes, target);
      match found
      case None => forall i :: 0 <= i < |c| ==> !hasRules(c[i])
      case Some(node) =>
        exists k :: 0 <= k < |c| && c[k] == node && hasRules(node) && forall j :: 0 <= j < k ==> !hasRules(c[j])
  {
    if target !in nodes {
      return None;
    }
    ghost var c := ChainOf(nodes, target);
    hide ValidNodes, ChainOf;
    var cur := target;
    ghost var i := 0;
    while true
      invariant 0 <= i < |c| && cur == c[i] && cur in nodes
      invariant forall j :: 0 <= j < i ==> !hasRules(c[j])
      decreases |c| - i
    {
      if hasRules(cur) {
        return Some(cur);
      }
      assert i < |c| - 1 ==> nodes[c[i]].parent == Some(c[i + 1]);
      if nodes[cur].parent == None {
        return None;
      }
      cur := nodes[cur].parent.value;
      i := i + 1;
    }
  }
}
