/** Deleting a subtree (internal/api/targets.go, internal/store/targets_tx.go): the walk that collects it
    deepest first, so that no row goes while another still names it as its parent. */
module TreeDelete {
  import opened Options
  import opened Sets
  import opened Tree
  import opened TreeIndex
  import opened TreeLimits
  import opened TreeEdits
  import opened TreeRuns

  function ChildrenOf(targets: seq<Target>, p: int): seq<int> {
    if targets == [] then []
    else
      var last := targets[|targets| - 1];
      ChildrenOf(targets[..|targets| - 1], p) + if last.parent == Some(p) then [last.id] else []
  }

  function Listing(children: map<int, seq<int>>, p: int): seq<int> { if p in children then children[p] else [] }

  method Children(targets: seq<Target>) returns (children: map<int, seq<int>>)
    ensures forall p :: Listing(children, p) == ChildrenOf(targets, p)
  {
    children := map[];
    for i := 0 to |targets|
      invariant forall p :: Listing(children, p) == ChildrenOf(targets[..i], p)
    {
      assert targets[..i + 1][..i] == targets[..i];
      ghost var before := children;
      if targets[i].parent.Some? {
        var p := targets[i].parent.value;
        children := children[p := Listing(children, p) + [targets[i].id]];
      }
      forall p ensures Listing(children, p) == ChildrenOf(targets[..i + 1], p) {
        assert Listing(before, p) == ChildrenOf(targets[..i], p);
      }
    }
    assert targets[..|targets|] == targets;
  }

  lemma {:induction false} ChildrenAre(targets: seq<Target>, p: int, id: int)
    ensures id in ChildrenOf(targets, p) <==>
        exists k :: 0 <= k < |targets| && targets[k].id == id && targets[k].parent == Some(p)
  {
    if targets != [] {
      var n := |targets| - 1;
      ChildrenAre(targets[..n], p, id);
      if k :| 0 <= k < n && targets[..n][k].id == id && targets[..n][k].parent == Some(p) {
        assert targets[k] == targets[..n][k];
      }
      if k :| 0 <= k < n && targets[k].id == id && targets[k].parent == Some(p) {
        assert targets[..n][k] == targets[k];
      }
    }
  }

  lemma {:induction false} ChildrenAreDistinct(targets: seq<Target>, p: int)
    requires UniqueIds(targets)
    ensures forall i, j :: 0 <= i < j < |ChildrenOf(targets, p)| ==>
        ChildrenOf(targets, p)[i] != ChildrenOf(targets, p)[j]
  {
    if targets != [] {
      var n := |targets| - 1;
      ChildrenAreDistinct(targets[..n], p);
      ChildrenAre(targets[..n], p, targets[n].id);
      assert targets[n].id !in ChildrenOf(targets[..n], p);
    }
  }

  // ---------------------------------------------------------------- who is below whom

  lemma ChainOfChild(nodes: Nodes, c: int)
    requires ValidNodes(nodes) && c in nodes && nodes[c].parent.Some?
    ensures nodes[c].parent.value in nodes
    ensures ChainOf(nodes, c) == [c] + ChainOf(nodes, nodes[c].parent.value)
  {
    var chain := ChainOf(nodes, c);
    RootChainStart(nodes, chain);
    RootChainTail(nodes, chain);
    ChainFrom(nodes, c, 1);
    assert chain == [chain[0]] + chain[1..];
  }

  lemma PositionOf(nodes: Nodes, top: int, x: int) returns (i: nat)
    requires ValidNodes(nodes) && x in nodes && Under(nodes, top, x)
    ensures i < |ChainOf(nodes, x)| && ChainOf(nodes, x)[i] == top && top in nodes
    ensures ChainOf(nodes, top) == ChainOf(nodes, x)[i..]
  {
    hide ValidNodes, ChainOf;
    i :| 0 <= i < |ChainOf(nodes, x)| && ChainOf(nodes, x)[i] == top;
    ChainFrom(nodes, x, i);
  }

  lemma UnderAChild(nodes: Nodes, top: int, x: int) returns (c: int)
    requires ValidNodes(nodes) && x in nodes && Under(nodes, top, x) && x != top
    ensures c in nodes && nodes[c].parent == Some(top) && Under(nodes, c, x)
  {
    var i := PositionOf(nodes, top, x);
    hide ValidNodes, ChainOf;
    c := ChainOf(nodes, x)[i - 1];
    assert nodes[c].parent == Some(ChainOf(nodes, x)[i - 1 + 1]);
  }

  lemma UnderChildIsUnder(nodes: Nodes, c: int, x: int)
    requires ValidNodes(nodes) && c in nodes && nodes[c].parent.Some? && x in nodes && Under(nodes, c, x)
    ensures Under(nodes, nodes[c].parent.value, x)
  {
    var i := PositionOf(nodes, c, x);
    ChainOfChild(nodes, c);
    hide ValidNodes, ChainOf;
    var p := nodes[c].parent.value;
    assert ChainOf(nodes, x)[i..][1] == ChainOf(nodes, p)[0];
  }

  lemma UnderOneChild(nodes: Nodes, c: int, d: int, x: int)
    requires ValidNodes(nodes) && c in nodes && d in nodes && x in nodes
    requires nodes[c].parent.Some? && nodes[c].parent == nodes[d].parent
    requires Under(nodes, c, x) && Under(nodes, d, x)
    ensures c == d
  {
    var i := PositionOf(nodes, c, x);
    var j := PositionOf(nodes, d, x);
    ChainOfChild(nodes, c);
    ChainOfChild(nodes, d);
    hide ValidNodes, ChainOf;
    var chain := ChainOf(nodes, x);
    assert |chain[i..]| == |chain[j..]|;
  }

  lemma UnderWithParent(nodes: Nodes, top: int, x: int)
    requires ValidNodes(nodes) && x in nodes && nodes[x].parent.Some? && nodes[x].parent.value in nodes
    requires Under(nodes, top, nodes[x].parent.value)
    ensures Under(nodes, top, x)
  {
    ChainOfChild(nodes, x);
  }

  lemma ParentIsNotUnder(nodes: Nodes, x: int)
    requires ValidNodes(nodes) && x in nodes && nodes[x].parent.Some?
    ensures nodes[x].parent.value in nodes && !Under(nodes, x, nodes[x].parent.value)
  {
    ChainOfChild(nodes, x);
    RootChainIsShort(nodes, ChainOf(nodes, x));
    hide ValidNodes, ChainOf;
    var c, p := ChainOf(nodes, x), ChainOf(nodes, nodes[x].parent.value);
    forall i | 0 <= i < |p| ensures p[i] != x {
      assert c[i + 1] == p[i] && c[0] == x;
    }
  }

  // ---------------------------------------------------------------- the walk

  predicate IsChild(nodes: Nodes, child: int, parent: int) {
    child in nodes && nodes[child].parent == Some(parent)
  }

  ghost predicate ChildrenFirst(nodes: Nodes, order: seq<int>) {
    forall a, b :: 0 <= a < |order| && 0 <= b < |order| && IsChild(nodes, order[a], order[b]) ==> a < b
  }

  ghost predicate UnderSome(nodes: Nodes, kids: seq<int>, x: int)
    requires ValidNodes(nodes) && x in nodes
  {
    exists i :: 0 <= i < |kids| && Under(nodes, kids[i], x)
  }

  /** The order lists exactly what is under one of the kids. */
  ghost predicate Collects(nodes: Nodes, kids: seq<int>, order: seq<int>)
    requires ValidNodes(nodes)
  {
    && Distinct(order) && ChildrenFirst(nodes, order)
    && (forall x :: x in order <==> x in nodes && UnderSome(nodes, kids, x))
  }

  /** The node and everything below it, each once, every child before its parent. */
  method Walk(targets: seq<Target>, children: map<int, seq<int>>, cur: int) returns (order: seq<int>)
    requires Valid(targets) && cur in NodesOf(targets)
    requires forall p :: Listing(children, p) == ChildrenOf(targets, p)
    ensures Collects(NodesOf(targets), [cur], order)
    decreases Height(NodesOf(targets), cur)
  {
    ghost var nodes := NodesOf(targets);
    ValidGives(targets);
    var kids := Listing(children, cur);
    KidsAre(targets, cur);
    hide *;
    order := [];
    CollectsNothing(nodes);
    for j := 0 to |kids|
      invariant Collects(nodes, kids[..j], order)
    {
      KidIsLower(nodes, cur, kids, j);
      var below := Walk(targets, children, kids[j]);
      CollectsMore(nodes, cur, kids, j, order, below);
      order := order + below;
    }
    assert kids[..|kids|] == kids;
    CollectsTop(nodes, cur, kids, order);
    order := order + [cur];
  }

  /** The nodes directly below one, each once. */
  ghost predicate KidsOf(nodes: Nodes, cur: int, kids: seq<int>) {
    && Distinct(kids)
    && forall c :: c in kids <==> c in nodes && ParentOf(nodes, c) == Some(cur)
  }

  /** How much further down a chain could go. */
  function Height(nodes: Nodes, id: int): (h: nat)
    requires ValidNodes(nodes) && id in nodes
  {
    RootChainIsShort(nodes, ChainOf(nodes, id));
    |nodes| - |ChainOf(nodes, id)|
  }

  lemma KidIsLower(nodes: Nodes, cur: int, kids: seq<int>, j: nat)
    requires ValidNodes(nodes) && cur in nodes && KidsOf(nodes, cur, kids) && j < |kids|
    ensures kids[j] in nodes && Height(nodes, kids[j]) < Height(nodes, cur)
  {
    assert kids[j] in kids;
    ChainOfChild(nodes, kids[j]);
  }

  lemma KidsAre(targets: seq<Target>, cur: int)
    requires Valid(targets)
    ensures KidsOf(NodesOf(targets), cur, ChildrenOf(targets, cur))
  {
    ValidGives(targets);
    ChildrenAreDistinct(targets, cur);
    hide Valid, ValidNodes, NodesOf, ChildrenOf;
    forall c
      ensures c in ChildrenOf(targets, cur) <==> c in NodesOf(targets) && ParentOf(NodesOf(targets), c) == Some(cur)
    {
      ChildrenAre(targets, cur, c);
    }
  }

  function ParentOf(nodes: Nodes, id: int): Option<int> { if id in nodes then nodes[id].parent else None }

  lemma CollectsNothing(nodes: Nodes)
    requires ValidNodes(nodes)
    ensures Collects(nodes, [], [])
  {
  }

  lemma CollectsMore(nodes: Nodes, cur: int, kids: seq<int>, j: nat, order: seq<int>, below: seq<int>)
    requires ValidNodes(nodes) && KidsOf(nodes, cur, kids) && j < |kids|
    requires Collects(nodes, kids[..j], order) && Collects(nodes, [kids[j]], below)
    ensures Collects(nodes, kids[..j + 1], order + below)
  {
    assert kids[..j + 1] == kids[..j] + [kids[j]];
    assert kids[j] !in kids[..j];
    forall c | c in kids[..j] + [kids[j]] ensures c in kids {
    }
    AppendBlock(nodes, cur, kids[..j], order, kids[j], below);
  }

  lemma AppendBlock(nodes: Nodes, cur: int, kids: seq<int>, order: seq<int>, kid: int, below: seq<int>)
    requires ValidNodes(nodes) && Collects(nodes, kids, order) && Collects(nodes, [kid], below)
    requires forall c :: c in kids + [kid] ==> c in nodes && ParentOf(nodes, c) == Some(cur)
    requires kid !in kids
    ensures Collects(nodes, kids + [kid], order + below)
  {
    hide ValidNodes, Under;
    var all, more := order + below, kids + [kid];
    forall x | x in nodes
      ensures UnderSome(nodes, more, x) <==> UnderSome(nodes, kids, x) || UnderSome(nodes, [kid], x)
    {
      assert UnderSome(nodes, [kid], x) <==> Under(nodes, [kid][0], x);
      if i :| 0 <= i < |kids| && Under(nodes, kids[i], x) {
        assert Under(nodes, more[i], x);
      }
      assert more[|kids|] == kid;
    }
    forall x | x in order && x in below ensures false {
      TwoBlocks(nodes, cur, kids, kid, x);
    }
    forall i, j | 0 <= i < j < |all| ensures all[i] != all[j] {
      if i < |order| <= j {
        assert all[i] == order[i] && all[j] == below[j - |order|];
        assert all[i] in order && all[j] in below;
      }
    }
    forall a, b | 0 <= a < |all| && 0 <= b < |all| && all[a] in nodes && nodes[all[a]].parent == Some(all[b])
      ensures a < b
    {
      if a >= |order| && b < |order| {
        assert all[a] == below[a - |order|] && all[b] == order[b];
        BlockHoldsChildren(nodes, kids, all[a]);
      } else if a >= |order| {
        assert all[a] == below[a - |order|] && all[b] == below[b - |order|];
      }
    }
  }

  lemma TwoBlocks(nodes: Nodes, cur: int, kids: seq<int>, kid: int, x: int)
    requires ValidNodes(nodes) && x in nodes && UnderSome(nodes, kids, x) && UnderSome(nodes, [kid], x)
    requires forall c :: c in kids + [kid] ==> c in nodes && ParentOf(nodes, c) == Some(cur)
    ensures kid in kids
  {
    hide ValidNodes, Under;
    var i :| 0 <= i < |kids| && Under(nodes, kids[i], x);
    assert kids[i] in kids + [kid] && kid in kids + [kid];
    UnderOneChild(nodes, kids[i], kid, x);
  }

  lemma BlockHoldsChildren(nodes: Nodes, kids: seq<int>, x: int)
    requires ValidNodes(nodes) && x in nodes && nodes[x].parent.Some? && nodes[x].parent.value in nodes
    requires UnderSome(nodes, kids, nodes[x].parent.value)
    ensures UnderSome(nodes, kids, x)
  {
    hide ValidNodes, Under;
    var i :| 0 <= i < |kids| && Under(nodes, kids[i], nodes[x].parent.value);
    UnderWithParent(nodes, kids[i], x);
  }

  lemma CollectsTop(nodes: Nodes, cur: int, kids: seq<int>, order: seq<int>)
    requires ValidNodes(nodes) && cur in nodes && Collects(nodes, kids, order) && KidsOf(nodes, cur, kids)
    ensures Collects(nodes, [cur], order + [cur])
  {
    hide ValidNodes, Under;
    var all := order + [cur];
    forall x | x in nodes ensures UnderSome(nodes, [cur], x) <==> UnderSome(nodes, kids, x) || x == cur {
      assert UnderSome(nodes, [cur], x) <==> Under(nodes, [cur][0], x);
      TopOrBelow(nodes, cur, kids, x);
    }
    NotBelowItself(nodes, cur, kids);
    assert Distinct(all);
    forall a, b | 0 <= a < |all| && 0 <= b < |all| && all[a] in nodes && nodes[all[a]].parent == Some(all[b])
      ensures a < b
    {
      if a == |order| {
        ParentIsNotUnder(nodes, cur);
        var p := nodes[cur].parent.value;
        if b < |order| {
          assert p == order[b];
          TopOrBelow(nodes, cur, kids, p);
        } else {
          UnderItself(nodes, cur);
        }
      }
    }
  }

  lemma UnderItself(nodes: Nodes, x: int)
    requires ValidNodes(nodes) && x in nodes
    ensures Under(nodes, x, x)
  {
    hide ValidNodes;
    assert ChainOf(nodes, x)[0] == x;
  }

  lemma TopOrBelow(nodes: Nodes, cur: int, kids: seq<int>, x: int)
    requires ValidNodes(nodes) && cur in nodes && x in nodes
    requires forall c :: c in kids <==> c in nodes && ParentOf(nodes, c) == Some(cur)
    ensures Under(nodes, cur, x) <==> UnderSome(nodes, kids, x) || x == cur
  {
    hide ValidNodes, Under;
    UnderItself(nodes, cur);
    if Under(nodes, cur, x) && x != cur {
      var c := UnderAChild(nodes, cur, x);
      assert c in kids;
    }
    if i :| 0 <= i < |kids| && Under(nodes, kids[i], x) {
      assert kids[i] in kids;
      UnderChildIsUnder(nodes, kids[i], x);
    }
  }

  lemma NotBelowItself(nodes: Nodes, cur: int, kids: seq<int>)
    requires ValidNodes(nodes) && cur in nodes
    requires forall c :: c in kids <==> c in nodes && ParentOf(nodes, c) == Some(cur)
    ensures !UnderSome(nodes, kids, cur)
  {
    hide ValidNodes, Under;
    forall i | 0 <= i < |kids| ensures !Under(nodes, kids[i], cur) {
      assert kids[i] in kids;
      ParentIsNotUnder(nodes, kids[i]);
    }
  }

  // ---------------------------------------------------------------- deleting

  lemma CollectedIsUnder(nodes: Nodes, kids: seq<int>, order: seq<int>, x: int)
    requires ValidNodes(nodes) && Collects(nodes, kids, order) && x in order
    ensures x in nodes && UnderSome(nodes, kids, x)
  {
  }

  /** Deleting in that order, a row is gone before the row it names as its parent. */
  lemma NoDanglingParent(nodes: Nodes, top: int, order: seq<int>, k: nat, x: int)
    requires ValidNodes(nodes) && Collects(nodes, [top], order) && k < |order|
    requires x in nodes && x !in order[..k]
    ensures nodes[x].parent != Some(order[k])
  {
    hide ValidNodes, Under;
    if nodes[x].parent == Some(order[k]) {
      CollectedIsUnder(nodes, [top], order, order[k]);
      BlockHoldsChildren(nodes, [top], x);
    }
  }

  /** There is no such node, it is the root, or it has nodes below it and they were not to go with it. */
  ghost predicate MayNotDelete(current: seq<Target>, id: int, recursive: bool)
    requires Valid(current)
  {
    var nodes := NodesOf(current);
    || id !in nodes
    || IsRoot(nodes, id)
    || (!recursive && exists x :: x in nodes && x != id && Under(nodes, id, x))
  }

  method Delete(current: seq<Target>, id: int, recursive: bool) returns (next: Option<seq<Target>>, order: seq<int>)
    ensures next.Some? ==> Deleted(current, id, next.value)
    ensures next.Some? ==> Collects(NodesOf(current), [id], order) && (recursive || order == [id])
    ensures next.None? && Valid(current) ==> MayNotDelete(current, id, recursive)
  {
    hide Valid, ValidNodes, NodesOf, ChainOf, Under, ChildrenOf;
    order := [];
    var tree := New(current);
    if tree == None {
      return None, order;
    }
    var nodes := tree.value;
    ValidGives(current);
    if id !in nodes {
      return None, order;
    }
    if nodes[id].parent == None {
      return None, order;
    }
    var children := Children(current);
    order := Walk(current, children, id);
    OrderIsSubtree(nodes, id, order);
    if |order| > 1 && !recursive {
      var other := if order[0] == id then order[1] else order[0];
      assert other in order;
      return None, order;
    }
    var rest := DeleteRows(current, order);
    RowsAreRemaining(current, id, order);
    next := Some(rest);
  }

  lemma OrderIsSubtree(nodes: Nodes, id: int, order: seq<int>)
    requires ValidNodes(nodes) && id in nodes && Collects(nodes, [id], order)
    ensures id in order && (|order| <= 1 ==> order == [id])
    ensures forall x :: x in order <==> x in nodes && Under(nodes, id, x)
    ensures forall i, j :: 0 <= i < j < |order| ==> order[i] != order[j]
  {
    hide ValidNodes, Under;
    UnderItself(nodes, id);
    assert Under(nodes, [id][0], id);
    forall x | x in nodes ensures UnderSome(nodes, [id], x) <==> Under(nodes, id, x) {
      assert UnderSome(nodes, [id], x) <==> Under(nodes, [id][0], x);
    }
  }

  function Without(rows: seq<Target>, gone: seq<int>): seq<Target> {
    if rows == [] then []
    else
      var last := rows[|rows| - 1];
      Without(rows[..|rows| - 1], gone) + if last.id in gone then [] else [last]
  }

  /** The deletes, one statement a row, in order. */
  method DeleteRows(rows: seq<Target>, order: seq<int>) returns (rest: seq<Target>)
    ensures rest == Without(rows, order)
  {
    rest := rows;
    WithoutNone(rows);
    for i := 0 to |order|
      invariant rest == Without(rows, order[..i])
    {
      WithoutOneMore(rows, order[..i], order[i]);
      assert order[..i + 1] == order[..i] + [order[i]];
      rest := Without(rest, [order[i]]);
    }
    assert order[..|order|] == order;
  }

  lemma {:induction false} WithoutNone(rows: seq<Target>)
    ensures Without(rows, []) == rows
  {
    if rows != [] {
      WithoutNone(rows[..|rows| - 1]);
    }
  }

  lemma {:induction false} WithoutOneMore(rows: seq<Target>, gone: seq<int>, id: int)
    ensures Without(Without(rows, gone), [id]) == Without(rows, gone + [id])
  {
    if rows != [] {
      var n := |rows| - 1;
      WithoutOneMore(rows[..n], gone, id);
      var kept := Without(rows[..n], gone);
      var r := rows[n];
      assert r.id in gone + [id] <==> r.id in gone || r.id == id;
      assert Without(rows, gone + [id]) == Without(rows[..n], gone + [id]) + if r.id in gone + [id] then [] else [r];
      if r.id in gone {
        assert Without(rows, gone) == kept;
      } else {
        var more := kept + [rows[n]];
        assert more[..|more| - 1] == kept;
        assert Without(more, [id]) == Without(kept, [id]) + if rows[n].id == id then [] else [rows[n]];
      }
    }
  }

  lemma {:induction false} WithoutIsKept(rows: seq<Target>, gone: seq<int>, keep: Target -> bool)
    requires forall k :: 0 <= k < |rows| ==> keep(rows[k]) == (rows[k].id !in gone)
    ensures Without(rows, gone) == Kept(rows, keep)
  {
    if rows != [] {
      WithoutIsKept(rows[..|rows| - 1], gone, keep);
    }
  }

  lemma RowsAreRemaining(current: seq<Target>, id: int, order: seq<int>)
    requires Valid(current)
    requires forall x :: x in order <==> x in NodesOf(current) && Under(NodesOf(current), id, x)
    ensures Without(current, order) == Remaining(current, id)
  {
    ValidGives(current);
    hide Valid, ValidNodes, NodesOf, Under;
    WithoutIsKept(current, order, t => Stays(NodesOf(current), id, t));
  }
}
