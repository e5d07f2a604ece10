/** What a new leaf is, and what cutting off a subtree does to a valid tree: every other node keeps its place. */
module TreeEdits {
  import opened Options
  import opened Tree
  import opened TreeIndex
  import opened TreeLimits

  /** The settings met on two chains are the same, step by step. */
  ghost predicate SameSettings(nodes: Nodes, c: seq<int>, other: Nodes, d: seq<int>)
    requires forall i :: 0 <= i < |c| ==> c[i] in nodes
    requires forall i :: 0 <= i < |d| ==> d[i] in other
  {
    |c| == |d| && forall i :: 0 <= i < |c| ==> nodes[c[i]].settings == other[d[i]].settings
  }

  lemma SameSettingsResolveAlike(nodes: Nodes, c: seq<int>, other: Nodes, d: seq<int>)
    requires forall i :: 0 <= i < |c| ==> c[i] in nodes
    requires forall i :: 0 <= i < |d| ==> d[i] in other
    requires SameSettings(nodes, c, other, d)
    ensures LoadAlong(nodes, c) == LoadAlong(other, d) && TimingFits(nodes, c) == TimingFits(other, d)
  {
    hide Lookup;
    assert IntLayers(nodes, c) == IntLayers(other, d);
    assert StrLayers(nodes, c) == StrLayers(other, d);
  }

  lemma ChainIs(nodes: Nodes, id: int, c: seq<int>)
    requires ValidNodes(nodes) && RootChain(nodes, c) && c[0] == id
    ensures id in nodes && ChainOf(nodes, id) == c
  {
    AncestryIs(nodes, c);
  }

  /** A node at the end of a like chain has the same load and depth. */
  lemma SamePlace(nodes: Nodes, id: int, other: Nodes, jd: int, d: seq<int>)
    requires ValidNodes(nodes) && id in nodes && ValidNodes(other)
    requires RootChain(other, d) && d[0] == jd && SameSettings(nodes, ChainOf(nodes, id), other, d)
    ensures jd in other && ChainOf(other, jd) == d
    ensures LoadOf(other, jd) == LoadOf(nodes, id) && Depth(other, jd) == Depth(nodes, id)
  {
    ChainIs(other, jd, d);
    var c := ChainOf(nodes, id);
    hide ValidNodes, ChainOf, LoadAlong;
    SameSettingsResolveAlike(nodes, c, other, d);
  }

  lemma {:induction false} SameLoadsSumAlike(nodes: Nodes, other: Nodes, targets: seq<Target>)
    requires ValidNodes(nodes) && ValidNodes(other)
    requires forall k :: 0 <= k < |targets| ==> targets[k].id in nodes && targets[k].id in other
    requires forall k :: 0 <= k < |targets| ==> LoadOf(nodes, targets[k].id) == LoadOf(other, targets[k].id)
    ensures TotalRate(nodes, targets) == TotalRate(other, targets)
  {
    hide ValidNodes, LoadOf;
    if targets != [] {
      SameLoadsSumAlike(nodes, other, targets[..|targets| - 1]);
    }
  }

  // ---------------------------------------------------------------- a leaf

  /** n hangs below a node that is there, under an id that is not. */
  ghost predicate Leaf(nodes: Nodes, n: Target) {
    n.id !in nodes && n.parent.Some? && n.parent.value in nodes
  }

  function With(nodes: Nodes, n: Target): Nodes { nodes[n.id := n] }

  lemma NewNodeIsALeaf(nodes: Nodes, n: Target)
    requires n.id !in nodes && n.parent.Some? && ValidNodes(With(nodes, n))
    ensures Leaf(nodes, n)
  {
    var c := ChainOf(With(nodes, n), n.id);
    hide ValidNodes, ChainOf;
    RootChainStart(With(nodes, n), c);
    RootChainIsShort(With(nodes, n), c);
    RootChainTail(With(nodes, n), c);
    assert c[0] != c[1];
  }

  // ---------------------------------------------------------------- cutting off a subtree

  predicate Under(nodes: Nodes, top: int, x: int)
    requires ValidNodes(nodes) && x in nodes
  {
    top in ChainOf(nodes, x)
  }

  /** A tree without a node and everything below it. */
  ghost predicate Cut(nodes: Nodes, top: int, rest: Nodes)
    requires ValidNodes(nodes)
  {
    && (forall x :: x in rest <==> x in nodes && !Under(nodes, top, x))
    && (forall x :: x in rest ==> x in nodes && rest[x] == nodes[x])
  }

  /** The way up from a node on someone's way up is the rest of that way. */
  lemma ChainFrom(nodes: Nodes, x: int, i: nat)
    requires ValidNodes(nodes) && x in nodes && i < |ChainOf(nodes, x)|
    ensures ChainOf(nodes, x)[i] in nodes && ChainOf(nodes, ChainOf(nodes, x)[i]) == ChainOf(nodes, x)[i..]
  {
    var c := ChainOf(nodes, x);
    RootChainDrop(nodes, c, i);
    ChainIs(nodes, c[i], c[i..]);
  }

  lemma KeptChain(nodes: Nodes, top: int, rest: Nodes, x: int)
    requires ValidNodes(nodes) && Cut(nodes, top, rest) && x in rest
    ensures RootChain(rest, ChainOf(nodes, x)) && SameSettings(nodes, ChainOf(nodes, x), rest, ChainOf(nodes, x))
  {
    var c := ChainOf(nodes, x);
    forall i | 0 <= i < |c| ensures c[i] in rest && rest[c[i]] == nodes[c[i]] {
      ChainFrom(nodes, x, i);
      assert !Under(nodes, top, c[i]);
    }
    UntouchedChain(nodes, rest, c);
  }

  lemma UntouchedChain(nodes: Nodes, rest: Nodes, c: seq<int>)
    requires RootChain(nodes, c) && forall i :: 0 <= i < |c| ==> c[i] in rest && rest[c[i]] == nodes[c[i]]
    ensures RootChain(rest, c) && SameSettings(nodes, c, rest, c)
  {
  }

  lemma RootIsKept(nodes: Nodes, top: int, rest: Nodes, r: int)
    requires ValidNodes(nodes) && Cut(nodes, top, rest) && IsRoot(nodes, r) && r != top
    ensures r in rest
  {
    ChainIs(nodes, r, [r]);
  }

  lemma CutStaysValid(nodes: Nodes, top: int, rest: Nodes)
    requires ValidNodes(nodes) && Cut(nodes, top, rest) && !IsRoot(nodes, top)
    ensures ValidNodes(rest)
  {
    var r :| IsRoot(nodes, r) && Complete(nodes[r].settings);
    RootIsKept(nodes, top, rest, r);
    assert IsRoot(rest, r);
    assert forall a :: IsRoot(rest, a) ==> IsRoot(nodes, a);
    forall x | x in rest ensures NodeFine(rest, x) && HostFine(rest, x) {
      CutNodeFine(nodes, top, rest, x);
    }
    forall x, y | x in rest && y in rest ensures SiblingsDiffer(rest, x, y) {
      assert SiblingsDiffer(nodes, x, y);
    }
  }

  lemma CutNodeFine(nodes: Nodes, top: int, rest: Nodes, x: int)
    requires ValidNodes(nodes) && Cut(nodes, top, rest) && x in rest
    ensures NodeFine(rest, x) && HostFine(rest, x)
  {
    assert NodeFine(nodes, x) && HostFine(nodes, x);
    var c := ChainOf(nodes, x);
    KeptChain(nodes, top, rest, x);
    hide SiblingsDiffer, Complete, FieldsValid, TimingFits, Cut;
    AncestryIs(rest, c);
    AncestryIs(nodes, c);
    SameSettingsResolveAlike(nodes, c, rest, c);
  }

  lemma CutLeavesTheRest(nodes: Nodes, top: int, rest: Nodes, x: int)
    requires ValidNodes(nodes) && Cut(nodes, top, rest) && ValidNodes(rest) && x in rest
    ensures LoadOf(rest, x) == LoadOf(nodes, x) && Depth(rest, x) == Depth(nodes, x)
  {
    KeptChain(nodes, top, rest, x);
    SamePlace(nodes, x, rest, x, ChainOf(nodes, x));
  }

  function Kept(targets: seq<Target>, keep: Target -> bool): (r: seq<Target>)
    ensures |r| <= |targets|
  {
    if targets == [] then []
    else
      var n := |targets| - 1;
      Kept(targets[..n], keep) + if keep(targets[n]) then [targets[n]] else []
  }

  lemma {:induction false} KeptIs(targets: seq<Target>, keep: Target -> bool, t: Target)
    ensures t in Kept(targets, keep) <==> t in targets && keep(t)
  {
    if targets != [] {
      var n := |targets| - 1;
      KeptIs(targets[..n], keep, t);
      assert targets == targets[..n] + [targets[n]];
    }
  }

  lemma KeptIdsIn(nodes: Nodes, targets: seq<Target>, keep: Target -> bool)
    requires forall k :: 0 <= k < |targets| ==> targets[k].id in nodes
    ensures forall k :: 0 <= k < |Kept(targets, keep)| ==> Kept(targets, keep)[k].id in nodes
  {
    forall k | 0 <= k < |Kept(targets, keep)| ensures Kept(targets, keep)[k].id in nodes {
      KeptIs(targets, keep, Kept(targets, keep)[k]);
    }
  }

  lemma TotalRateOfOneMore(nodes: Nodes, targets: seq<Target>, t: Target)
    requires ValidNodes(nodes) && (forall k :: 0 <= k < |targets| ==> targets[k].id in nodes) && t.id in nodes
    ensures TotalRate(nodes, targets + [t])
         == TotalRate(nodes, targets) + RateTerm(nodes, t)
  {
    assert (targets + [t])[..|targets|] == targets;
  }

  /** A target less is a rate no higher. */
  lemma {:induction false} SubsequenceSumsToNoMore(nodes: Nodes, targets: seq<Target>, keep: Target -> bool)
    requires ValidNodes(nodes) && forall k :: 0 <= k < |targets| ==> targets[k].id in nodes
    requires forall k :: 0 <= k < |Kept(targets, keep)| ==> Kept(targets, keep)[k].id in nodes
    ensures TotalRate(nodes, Kept(targets, keep)) <= TotalRate(nodes, targets)
  {
    hide *;
    if targets == [] {
      KeptNone(keep);
    } else {
      var rest, t := targets[..|targets| - 1], targets[|targets| - 1];
      KeptLast(targets, keep);
      assert targets == rest + [t];
      KeptIdsIn(nodes, rest, keep);
      SubsequenceSumsToNoMore(nodes, rest, keep);
      TotalRateOfOneMore(nodes, rest, t);
      TotalRateOfOneMore(nodes, Kept(rest, keep), t);
    }
  }

  lemma KeptNone(keep: Target -> bool)
    ensures Kept([], keep) == []
  {
  }

  lemma KeptLast(targets: seq<Target>, keep: Target -> bool)
    requires targets != []
    ensures var rest, t := targets[..|targets| - 1], targets[|targets| - 1];
      Kept(targets, keep) == if keep(t) then Kept(rest, keep) + [t] else Kept(rest, keep)
  {
  }
}
