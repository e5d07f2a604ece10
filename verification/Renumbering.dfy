/** The ids of a tree's nodes are only names: under other ids, and in any other order, it is the same tree,
    with the same loads and within the same limits. An import checks its plan under ids of its own
    (internal/config/config.go); the store gives the real ones. */
module Renumbering {
  import opened Options
  import opened Tree
  import opened TreeIndex
  import opened TreeLimits
  import opened TreeEdits

  type Numbers = map<int, int>

  ghost predicate OneToOne(r: Numbers) { forall x, y :: x in r && y in r && r[x] == r[y] ==> x == y }

  function NewParent(parent: Option<int>, r: Numbers): Option<int>
    requires parent.Some? ==> parent.value in r
  {
    if parent.None? then None else Some(r[parent.value])
  }

  function Renamed(t: Target, id: int, r: Numbers): Target
    requires t.parent.Some? ==> t.parent.value in r
  {
    t.(id := id, parent := NewParent(t.parent, r))
  }

  /** The same nodes under new ids. */
  ghost predicate Renames(nodes: Nodes, r: Numbers, other: Nodes) {
    && OneToOne(r) && r.Keys == nodes.Keys
    && (forall x :: x in nodes && nodes[x].parent.Some? ==> nodes[x].parent.value in nodes)
    && (forall x :: x in nodes ==> r[x] in other && other[r[x]] == Renamed(nodes[x], r[x], r))
    && (forall y :: y in other ==> exists x :: x in r && r[x] == y)
  }

  function Image(c: seq<int>, r: Numbers): (d: seq<int>)
    requires forall i :: 0 <= i < |c| ==> c[i] in r
    ensures |d| == |c| && forall i :: 0 <= i < |c| ==> d[i] == r[c[i]]
  {
    seq(|c|, i requires 0 <= i < |c| => r[c[i]])
  }

  lemma RenamedAt(nodes: Nodes, r: Numbers, other: Nodes, x: int)
    requires Renames(nodes, r, other) && x in nodes
    ensures x in r && r[x] in other && other[r[x]].settings == nodes[x].settings
    ensures nodes[x].parent.Some? ==> nodes[x].parent.value in r
    ensures other[r[x]].parent == NewParent(nodes[x].parent, r) && other[r[x]] == Renamed(nodes[x], r[x], r)
  {
  }

  lemma ChainRenamed(nodes: Nodes, r: Numbers, other: Nodes, c: seq<int>)
    requires Renames(nodes, r, other) && RootChain(nodes, c)
    ensures RootChain(other, Image(c, r)) && SameSettings(nodes, c, other, Image(c, r))
  {
    var d := Image(c, r);
    forall i | 0 <= i < |c|
      ensures d[i] in other && other[d[i]].settings == nodes[c[i]].settings
      ensures other[d[i]].parent == if i < |c| - 1 then Some(d[i + 1]) else None
    {
      RenamedAt(nodes, r, other, c[i]);
    }
    var last := |c| - 1;
    RenamedAt(nodes, r, other, c[last]);
  }

  lemma RenamedNodeIsFine(nodes: Nodes, r: Numbers, other: Nodes, x: int)
    requires ValidNodes(nodes) && Renames(nodes, r, other) && x in nodes
    ensures r[x] in other && NodeFine(other, r[x]) && HostFine(other, r[x])
  {
    assert NodeFine(nodes, x) && HostFine(nodes, x);
    var c := ChainOf(nodes, x);
    ChainRenamed(nodes, r, other, c);
    hide SiblingsDiffer, Complete, TimingFits;
    AncestryIs(nodes, c);
    AncestryIs(other, Image(c, r));
    SameSettingsResolveAlike(nodes, c, other, Image(c, r));
    FieldsIgnorePlace(nodes[x], other[r[x]]);
  }

  lemma FieldsIgnorePlace(t: Target, u: Target)
    requires u == t.(id := u.id, parent := u.parent) && (u.parent.Some? <==> t.parent.Some?)
    ensures FieldsValid(u) == FieldsValid(t)
  {
  }

  lemma RenamedSiblingsDiffer(nodes: Nodes, r: Numbers, other: Nodes, x: int, y: int)
    requires ValidNodes(nodes) && Renames(nodes, r, other) && x in nodes && y in nodes
    ensures r[x] in other && r[y] in other && SiblingsDiffer(other, r[x], r[y])
  {
    hide NodeFine, HostFine, Complete;
    assert SiblingsDiffer(nodes, x, y);
    var p, q := nodes[x].parent, nodes[y].parent;
    if p.Some? && q.Some? && r[p.value] == r[q.value] {
      SameNumber(r, p.value, q.value);
    }
  }

  lemma SameNumber(r: Numbers, x: int, y: int)
    requires OneToOne(r) && x in r && y in r && r[x] == r[y]
    ensures x == y
  {
  }

  lemma RenamedRoots(nodes: Nodes, r: Numbers, other: Nodes)
    requires ValidNodes(nodes) && Renames(nodes, r, other)
    ensures exists a :: IsRoot(other, a) && Complete(other[a].settings)
    ensures forall a, b :: IsRoot(other, a) && IsRoot(other, b) ==> a == b
  {
    hide NodeFine, HostFine, SiblingsDiffer, Complete;
    var root :| IsRoot(nodes, root) && Complete(nodes[root].settings);
    assert IsRoot(other, r[root]) && Complete(other[r[root]].settings);
    forall a | IsRoot(other, a) ensures a == r[root] {
      var x :| x in r && r[x] == a;
      assert IsRoot(nodes, x);
    }
  }

  lemma RenamedIsValid(nodes: Nodes, r: Numbers, other: Nodes)
    requires ValidNodes(nodes) && Renames(nodes, r, other)
    ensures ValidNodes(other)
  {
    RenamedRoots(nodes, r, other);
    forall y | y in other ensures NodeFine(other, y) && HostFine(other, y) {
      var x :| x in r && r[x] == y;
      RenamedNodeIsFine(nodes, r, other, x);
    }
    forall a, b | a in other && b in other ensures SiblingsDiffer(other, a, b) {
      var x :| x in r && r[x] == a;
      var y :| y in r && r[y] == b;
      RenamedSiblingsDiffer(nodes, r, other, x, y);
    }
    hide NodeFine, HostFine, SiblingsDiffer, Complete, Renames, IsRoot;
  }

  /** Every node has the load and the depth it had. */
  lemma RenamedPlace(nodes: Nodes, r: Numbers, other: Nodes, x: int)
    requires ValidNodes(nodes) && Renames(nodes, r, other) && ValidNodes(other) && x in nodes
    ensures r[x] in other && LoadOf(other, r[x]) == LoadOf(nodes, x) && Depth(other, r[x]) == Depth(nodes, x)
  {
    ChainRenamed(nodes, r, other, ChainOf(nodes, x));
    SamePlace(nodes, x, other, r[x], Image(ChainOf(nodes, x), r));
  }

  // ---------------------------------------------------------------- the same rows, in any order

  ghost predicate AllIn(nodes: Nodes, targets: seq<Target>) {
    forall k :: 0 <= k < |targets| ==> targets[k].id in nodes
  }

  lemma {:induction false} RateWithout(nodes: Nodes, targets: seq<Target>, j: nat)
    requires ValidNodes(nodes) && AllIn(nodes, targets) && j < |targets|
    ensures TotalRate(nodes, targets) == TotalRate(nodes, targets[..j] + targets[j + 1..]) + RateTerm(nodes, targets[j])
  {
    hide *;
    var n := |targets| - 1;
    var first, last := targets[..n], targets[n];
    assert targets == first + [last];
    RestIn(nodes, targets, n);
    assert first + targets[n + 1..] == first;
    TotalRateOfAppended(nodes, first, last);
    if j == n {
      assert targets[..j] + targets[j + 1..] == first;
    } else {
      var rest := first[..j] + first[j + 1..];
      assert targets[..j] + targets[j + 1..] == rest + [last];
      RateWithout(nodes, first, j);
      RestIn(nodes, first, j);
      TotalRateOfAppended(nodes, rest, last);
    }
  }

  lemma TotalRateOfAppended(nodes: Nodes, targets: seq<Target>, t: Target)
    requires ValidNodes(nodes) && AllIn(nodes, targets) && t.id in nodes
    ensures AllIn(nodes, targets + [t])
    ensures TotalRate(nodes, targets + [t]) == TotalRate(nodes, targets) + RateTerm(nodes, t)
  {
    hide ValidNodes, RateTerm, TotalRate;
    TotalRateOfOneMore(nodes, targets, t);
  }

  /** Each row of the one list is one of the other, under its new id. */
  ghost predicate Matches(a: seq<Target>, r: Numbers, b: seq<Target>) {
    && |a| == |b|
    && (forall k :: 0 <= k < |a| ==> a[k].id in r)
    && (forall k :: 0 <= k < |a| ==> MatchedAt(b, r[a[k].id], Running(a[k])))
  }

  predicate MatchedAt(b: seq<Target>, id: int, running: bool) {
    exists j :: 0 <= j < |b| && b[j].id == id && Running(b[j]) == running
  }

  lemma MatchOf(a: seq<Target>, r: Numbers, b: seq<Target>, k: nat) returns (j: nat)
    requires Matches(a, r, b) && k < |a|
    ensures a[k].id in r && j < |b| && b[j].id == r[a[k].id] && Running(b[j]) == Running(a[k])
  {
    j :| 0 <= j < |b| && b[j].id == r[a[k].id] && Running(b[j]) == Running(a[k]);
  }

  lemma StillThereAt(b: seq<Target>, j: nat, i: nat) returns (at: nat)
    requires i < |b| && j < |b| && i != j
    ensures at < |b| - 1 && (b[..j] + b[j + 1..])[at] == b[i]
  {
    at := if i < j then i else i - 1;
  }

  lemma MatchesRest(a: seq<Target>, r: Numbers, b: seq<Target>, j: nat)
    requires Matches(a, r, b) && UniqueIds(a) && OneToOne(r) && a != [] && j < |b| && b[j].id == r[a[|a| - 1].id]
    ensures Matches(a[..|a| - 1], r, b[..j] + b[j + 1..])
  {
    var n := |a| - 1;
    var most, rest := a[..n], b[..j] + b[j + 1..];
    forall k | 0 <= k < n
      ensures most[k].id in r && MatchedAt(rest, r[most[k].id], Running(most[k]))
    {
      var i := MatchOf(a, r, b, k);
      assert most[k] == a[k] && a[k].id != a[n].id && a[n].id in r;
      var at := StillThereAt(b, j, i);
    }
  }

  lemma {:induction false} SameTotal(nodes: Nodes, a: seq<Target>, r: Numbers, other: Nodes, b: seq<Target>)
    requires ValidNodes(nodes) && Renames(nodes, r, other) && ValidNodes(other)
    requires AllIn(nodes, a) && AllIn(other, b) && UniqueIds(a) && Matches(a, r, b)
    ensures TotalRate(other, b) == TotalRate(nodes, a)
  {
    if a != [] {
      var n := |a| - 1;
      var j := MatchOf(a, r, b, n);
      var most, rest := a[..n], b[..j] + b[j + 1..];
      hide *;
      RestIn(nodes, a, n);
      RestIn(other, b, j);
      assert OneToOne(r) by { NumbersDiffer(nodes, r, other); }
      assert a[..n] + a[n + 1..] == most;
      MatchesRest(a, r, b, j);
      SameTerm(nodes, r, other, a[n], b[j]);
      SameTotal(nodes, most, r, other, rest);
      RateWithout(other, b, j);
      RateWithout(nodes, a, n);
    } else {
      NoRate(nodes, other, b);
    }
  }

  lemma RestIn(nodes: Nodes, targets: seq<Target>, j: nat)
    requires AllIn(nodes, targets) && j < |targets|
    ensures AllIn(nodes, targets[..j] + targets[j + 1..]) && targets[j].id in nodes
    ensures UniqueIds(targets) ==> UniqueIds(targets[..j])
  {
  }

  lemma NumbersDiffer(nodes: Nodes, r: Numbers, other: Nodes)
    requires Renames(nodes, r, other)
    ensures OneToOne(r)
  {
  }

  lemma SameTerm(nodes: Nodes, r: Numbers, other: Nodes, t: Target, u: Target)
    requires ValidNodes(nodes) && Renames(nodes, r, other) && ValidNodes(other) && t.id in nodes && u.id in other
    requires t.id in r && u.id == r[t.id] && Running(u) == Running(t)
    ensures RateTerm(other, u) == RateTerm(nodes, t)
  {
    RenamedPlace(nodes, r, other, t.id);
    hide ValidNodes, LoadOf, Running;
  }

  lemma NoRate(nodes: Nodes, other: Nodes, b: seq<Target>)
    requires ValidNodes(nodes) && ValidNodes(other) && b == []
    ensures TotalRate(nodes, []) == TotalRate(other, b)
  {
  }

  /** The same rows under new ids, in any order. */
  ghost predicate SameTree(a: seq<Target>, r: Numbers, b: seq<Target>) {
    UniqueIds(a) && UniqueIds(b) && |a| == |b| && Renames(NodesOf(a), r, NodesOf(b))
  }

  lemma SameTreeIs(a: seq<Target>, r: Numbers, b: seq<Target>)
    requires UniqueIds(a) && UniqueIds(b) && |a| == |b| && Renames(NodesOf(a), r, NodesOf(b))
    ensures SameTree(a, r, b)
  {
    hide UniqueIds, NodesOf, Renames;
  }

  lemma SameTreeMatches(a: seq<Target>, r: Numbers, b: seq<Target>)
    requires Valid(a) && Valid(b) && SameTree(a, r, b)
    ensures Matches(a, r, b)
  {
    ValidGives(a);
    ValidGives(b);
    hide ValidNodes, NodesOf, TotalRate;
    forall k | 0 <= k < |a|
      ensures a[k].id in r && MatchedAt(b, r[a[k].id], Running(a[k]))
    {
      var y := r[a[k].id];
      assert y in NodesOf(b);
      var j :| 0 <= j < |b| && b[j].id == y;
    }
  }

  lemma SameTreeIsValid(a: seq<Target>, r: Numbers, b: seq<Target>)
    requires Valid(a) && SameTree(a, r, b)
    ensures Valid(b) && RateOf(b) == RateOf(a)
  {
    RenamedIsValid(NodesOf(a), r, NodesOf(b));
    SameTreeMatches(a, r, b);
    ValidGives(a);
    ValidGives(b);
    hide ValidNodes, NodesOf, TotalRate, Renames, Matches;
    SameTotal(NodesOf(a), a, r, NodesOf(b), b);
  }

  /** Ids that are already there stay, and new ones stay new. */
  ghost predicate KeepsIds(known: Nodes, r: Numbers) {
    forall x :: x in r ==> (x in known <==> r[x] in known) && (x in known ==> r[x] == x)
  }

  lemma RenamedIsFine(known: Nodes, nodes: Nodes, r: Numbers, other: Nodes, x: int)
    requires ValidNodes(known) && ValidNodes(nodes) && ValidNodes(other) && Renames(nodes, r, other) &&
        KeepsIds(known, r)
    requires x in nodes && DepthFine(Some(known), nodes, x) && LoadFine(Some(known), nodes, x)
    ensures r[x] in other && DepthFine(Some(known), other, r[x]) && LoadFine(Some(known), other, r[x])
  {
    RenamedPlace(nodes, r, other, x);
    assert Running(other[r[x]]) == Running(nodes[x]);
    hide ValidNodes, LoadOf, Depth, WithinLimits, NotWorse;
  }

  /** What the limits accept they accept under any ids for the new nodes, and in any order. */
  lemma NumberingDoesNotMatter(before: seq<Target>, a: seq<Target>, r: Numbers, b: seq<Target>)
    requires Valid(before) && SameTree(a, r, b) && KeepsIds(NodesOf(before), r) && Accepted(before, a)
    ensures Accepted(before, b)
  {
    SameTreeIsValid(a, r, b);
    ValidGives(before);
    ValidGives(a);
    ValidGives(b);
    hide Valid, ValidNodes, NodesOf, RateOf, DepthFine, LoadFine, UniqueIds;
    forall y | y in NodesOf(b)
      ensures DepthFine(PriorOf(before), NodesOf(b), y) && LoadFine(PriorOf(before), NodesOf(b), y)
    {
      var x :| x in r && r[x] == y;
      RenamedIsFine(NodesOf(before), NodesOf(a), r, NodesOf(b), x);
    }
  }

  ghost predicate OwnIds(nodes: Nodes) { forall x :: x in nodes ==> nodes[x].id == x }

  lemma IndexedByOwnId(targets: seq<Target>)
    ensures OwnIds(NodesOf(targets))
  {
    forall x | x in NodesOf(targets) ensures NodesOf(targets)[x].id == x {
      var k := NodesOfSource(targets, x);
    }
  }

  function Replaced(nodes: Nodes, id: int, given: int): Numbers {
    map x | x in nodes :: if x == id then given else x
  }

  /** A new leaf under another id. */
  lemma LeafIsRenamed(nodes: Nodes, n: Target, id: int, r: Numbers)
    requires ValidNodes(nodes) && OwnIds(nodes) && Leaf(nodes, n) && id !in nodes
    requires r == Replaced(With(nodes, n), n.id, id)
    ensures Renames(With(nodes, n), r, With(nodes, n.(id := id))) && KeepsIds(nodes, r)
  {
    hide *;
    var one, two := With(nodes, n), With(nodes, n.(id := id));
    LeafIsNew(nodes, n);
    LeafNumbers(nodes, n, id, r);
    forall x | x in one
      ensures one[x].parent.Some? ==> one[x].parent.value in one
      ensures r[x] in two && two[r[x]] == Renamed(one[x], r[x], r)
    {
      LeafRenamedAt(nodes, n, id, r, x);
    }
    RenamesIs(one, r, two);
  }

  lemma LeafIsNew(nodes: Nodes, n: Target)
    requires Leaf(nodes, n)
    ensures n.id !in nodes
  {
  }

  lemma RenamesIs(nodes: Nodes, r: Numbers, other: Nodes)
    requires OneToOne(r) && r.Keys == nodes.Keys
    requires forall x :: x in nodes && nodes[x].parent.Some? ==> nodes[x].parent.value in nodes
    requires forall x :: x in nodes ==> r[x] in other && other[r[x]] == Renamed(nodes[x], r[x], r)
    requires forall y :: y in other ==> exists x :: x in r && r[x] == y
    ensures Renames(nodes, r, other)
  {
  }

  lemma LeafNumbers(nodes: Nodes, n: Target, id: int, r: Numbers)
    requires n.id !in nodes && id !in nodes && r == Replaced(With(nodes, n), n.id, id)
    ensures r.Keys == With(nodes, n).Keys && OneToOne(r) && KeepsIds(nodes, r)
    ensures forall y :: y in With(nodes, n.(id := id)) ==> exists x :: x in r && r[x] == y
  {
    forall y | y in With(nodes, n.(id := id)) ensures exists x :: x in r && r[x] == y {
      assert if y == id then n.id in r && r[n.id] == y else y in r && r[y] == y;
    }
  }

  lemma LeafRenamedAt(nodes: Nodes, n: Target, id: int, r: Numbers, x: int)
    requires ValidNodes(nodes) && OwnIds(nodes) && Leaf(nodes, n) && id !in nodes && x in With(nodes, n)
    requires r == Replaced(With(nodes, n), n.id, id)
    ensures var one, two := With(nodes, n), With(nodes, n.(id := id));
      && x in r && (one[x].parent.Some? ==> one[x].parent.value in r)
      && r[x] in two && two[r[x]] == Renamed(one[x], r[x], r)
  {
    if x != n.id {
      ParentIsThere(nodes, x);
    }
    hide ValidNodes;
    var parent := With(nodes, n)[x].parent;
    assert parent.Some? ==> parent.value in nodes;
    assert parent.Some? ==> parent.value in r && r[parent.value] == parent.value;
    assert NewParent(parent, r) == parent;
  }

  lemma ParentIsThere(nodes: Nodes, x: int)
    requires ValidNodes(nodes) && x in nodes
    ensures nodes[x].parent.Some? ==> nodes[x].parent.value in nodes
  {
    var c := ChainOf(nodes, x);
    hide ValidNodes, ChainOf;
    RootChainStart(nodes, c);
    if |c| > 1 {
      RootChainTail(nodes, c);
    }
  }
}
