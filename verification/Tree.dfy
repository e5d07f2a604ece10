/** The target tree (internal/tree/tree.go): what makes a set of targets a tree, and what a node
    inherits. Settings are maps from the settings a node gives itself. */
module Tree {
  import opened Options
  import opened Sets
  import Schedule

  datatype IntField = IntervalS | PingsPerInterval | BurstGapMS | TimeoutMS | PacketSize | Dscp | ProbePort
                    | TraceIntervalS | RetentionS
  datatype StrField = ProbeMode | Agents | ProbeType | DnsQuery | DnsRRType | HttpPath | GraphSeries
  datatype BoolField = TlsSkipVerify

  datatype Settings = Settings(ints: map<IntField, int>, strs: map<StrField, string>, bools: map<BoolField, bool>)

  datatype Target = Target(id: int, parent: Option<int>, name: string, host: Option<string>, family: Option<string>,
                           title: Option<string>, notes: Option<string>, hidden: bool, enabled: bool,
                           sortOrder: int, settings: Settings)

  /** The index of a tree. */
  type Nodes = map<int, Target>

  // ---------------------------------------------------------------- ancestry

  ghost predicate Chain(nodes: Nodes, c: seq<int>) {
    && c != []
    && (forall i :: 0 <= i < |c| ==> c[i] in nodes)
    && (forall i :: 0 <= i < |c| - 1 ==> nodes[c[i]].parent == Some(c[i + 1]))
  }

  /** From a node up to a root. */
  ghost predicate RootChain(nodes: Nodes, c: seq<int>) {
    Chain(nodes, c) && nodes[c[|c| - 1]].parent == None
  }

  datatype Walk = Walked(chain: seq<int>) | MissingParent(child: int) | Cycle

  /** The walk of `ancestryOf`, from the nodes passed so far. */
  function Climb(nodes: Nodes, chain: seq<int>): Walk
    requires chain != [] && chain[|chain| - 1] in nodes && |chain| <= |nodes| + 1
    decreases |nodes| + 1 - |chain|
  {
    var cur := nodes[chain[|chain| - 1]];
    if cur.parent == None then Walked(chain)
    else if cur.parent.value !in nodes then MissingParent(chain[|chain| - 1])
    else if |chain| > |nodes| then Cycle
    else Climb(nodes, chain + [cur.parent.value])
  }

  function Ancestry(nodes: Nodes, id: int): Walk
    requires id in nodes
  {
    Climb(nodes, [id])
  }

  method AncestryOf(nodes: Nodes, id: int) returns (w: Walk)
    requires id in nodes
    ensures w == Ancestry(nodes, id)
  {
    var chain := [id];
    var cur := id;
    while nodes[cur].parent != None
      invariant chain != [] && cur == chain[|chain| - 1] && cur in nodes && |chain| <= |nodes| + 1
      invariant Climb(nodes, chain) == Ancestry(nodes, id)
      decreases |nodes| + 1 - |chain|
    {
      var next := nodes[cur].parent.value;
      if next !in nodes {
        return MissingParent(cur);
      }
      if |chain| > |nodes| {
        return Cycle;
      }
      chain := chain + [next];
      cur := next;
    }
    w := Walked(chain);
  }

  /** Some ancestor, or the node itself, names a parent that is not there. */
  ghost predicate LinkMissing(nodes: Nodes, c: seq<int>) {
    Chain(nodes, c) && nodes[c[|c| - 1]].parent.Some? && nodes[c[|c| - 1]].parent.value !in nodes
  }

  /** The way up passes a node twice. */
  ghost predicate Loops(nodes: Nodes, c: seq<int>, i: nat, j: nat) {
    Chain(nodes, c) && i < j < |c| && c[i] == c[j]
  }

  lemma Pigeonhole(nodes: Nodes, c: seq<int>) returns (i: nat, j: nat)
    requires |c| > |nodes| && forall k :: 0 <= k < |c| ==> c[k] in nodes
    ensures i < j < |c| && c[i] == c[j]
  {
    if forall i, j :: 0 <= i < j < |c| ==> c[i] != c[j] {
      DistinctSize(c);
      SubsetSize(Elements(c), nodes.Keys);
    }
    i, j :| 0 <= i < j < |c| && c[i] == c[j];
  }

  lemma {:induction false} RootChainUnique(nodes: Nodes, c: seq<int>, d: seq<int>)
    requires RootChain(nodes, c) && RootChain(nodes, d) && c[0] == d[0]
    ensures c == d
  {
    RootChainStart(nodes, c);
    RootChainStart(nodes, d);
    if |c| > 1 && |d| > 1 {
      RootChainTail(nodes, c);
      RootChainTail(nodes, d);
      RootChainUnique(nodes, c[1..], d[1..]);
      assert c == [c[0]] + c[1..] && d == [d[0]] + d[1..];
    }
  }

  lemma RootChainStart(nodes: Nodes, c: seq<int>)
    requires RootChain(nodes, c)
    ensures |c| == 1 <==> nodes[c[0]].parent == None
  {
    if |c| > 1 {
      assert nodes[c[0]].parent == Some(c[1]);
    }
  }

  lemma RootChainTail(nodes: Nodes, c: seq<int>)
    requires RootChain(nodes, c) && |c| > 1
    ensures RootChain(nodes, c[1..]) && nodes[c[0]].parent == Some(c[1])
  {
  }

  lemma RootChainDrop(nodes: Nodes, c: seq<int>, i: nat)
    requires RootChain(nodes, c) && i < |c|
    ensures RootChain(nodes, c[i..])
  {
  }

  lemma RootChainIsShort(nodes: Nodes, c: seq<int>)
    requires RootChain(nodes, c)
    ensures |c| <= |nodes|
    ensures forall i, j :: 0 <= i < j < |c| ==> c[i] != c[j]
  {
    forall i, j | 0 <= i < j < |c| ensures c[i] != c[j] {
      if c[i] == c[j] {
        RootChainDrop(nodes, c, i);
        RootChainDrop(nodes, c, j);
        RootChainUnique(nodes, c[i..], c[j..]);
      }
    }
    if |c| > |nodes| {
      var i, j := Pigeonhole(nodes, c);
    }
  }

  lemma {:induction false} ClimbReaches(nodes: Nodes, chain: seq<int>, d: seq<int>)
    requires RootChain(nodes, d) && chain != [] && chain <= d && |d| <= |nodes|
    ensures Climb(nodes, chain) == Walked(d)
    decreases |d| - |chain|
  {
    var last := |chain| - 1;
    assert chain[last] == d[last];
    if |chain| < |d| {
      assert nodes[d[last]].parent == Some(d[last + 1]);
      ClimbReaches(nodes, chain + [d[last + 1]], d);
    } else {
      assert chain == d;
    }
  }

  lemma {:induction false} ClimbOutcome(nodes: Nodes, chain: seq<int>) returns (c: seq<int>)
    requires Chain(nodes, chain) && |chain| <= |nodes| + 1
    ensures chain <= c && Chain(nodes, c)
    ensures match Climb(nodes, chain)
      case Walked(d) => d == c && RootChain(nodes, c)
      case MissingParent(_) => LinkMissing(nodes, c)
      case Cycle => |c| > |nodes|
    decreases |nodes| + 1 - |chain|
  {
    var cur := nodes[chain[|chain| - 1]];
    c := chain;
    if cur.parent != None && cur.parent.value in nodes && |chain| <= |nodes| {
      c := ClimbOutcome(nodes, chain + [cur.parent.value]);
    }
  }

  /** The walk ends in the chain up to the root whenever there is one.. */
  lemma AncestryIs(nodes: Nodes, c: seq<int>)
    requires RootChain(nodes, c)
    ensures Ancestry(nodes, c[0]) == Walked(c)
  {
    RootChainIsShort(nodes, c);
    ClimbReaches(nodes, [c[0]], c);
  }

  lemma WalkedIsRootChain(nodes: Nodes, id: int)
    requires id in nodes && Ancestry(nodes, id).Walked?
    ensures RootChain(nodes, Ancestry(nodes, id).chain) && Ancestry(nodes, id).chain[0] == id
  {
    var c := ClimbOutcome(nodes, [id]);
  }

  lemma {:induction false} ChainMeetsRootChain(nodes: Nodes, c: seq<int>, d: seq<int>)
    requires Chain(nodes, c) && RootChain(nodes, d) && c[0] == d[0]
    ensures c <= d
    decreases |c|
  {
    if |c| > 1 {
      assert nodes[c[0]].parent == Some(c[1]);
      RootChainTail(nodes, d);
      ChainMeetsRootChain(nodes, c[1..], d[1..]);
      assert c == [c[0]] + c[1..] && d == [d[0]] + d[1..];
    }
  }

  /** .. and reports an error exactly when a parent link is missing or the way up is a cycle. */
  lemma ErrorsAreExact(nodes: Nodes, id: int)
    requires id in nodes
    ensures Ancestry(nodes, id).MissingParent? <==> exists c :: LinkMissing(nodes, c) && c[0] == id
    ensures Ancestry(nodes, id).Cycle? <==> exists c, i, j :: Loops(nodes, c, i, j) && c[0] == id
  {
    var c := ClimbOutcome(nodes, [id]);
    match Ancestry(nodes, id)
    case Walked(d) =>
      forall x | Chain(nodes, x) && x[0] == id
        ensures !LinkMissing(nodes, x) && forall i, j :: 0 <= i < j < |x| ==> x[i] != x[j]
      {
        ChainMeetsRootChain(nodes, x, d);
        RootChainIsShort(nodes, d);
        assert nodes[d[|x| - 1]].parent == if |x| < |d| then Some(d[|x|]) else None;
      }
    case MissingParent(_) =>
      assert LinkMissing(nodes, c);
      forall x | Chain(nodes, x) && x[0] == id ensures x <= c && forall i, j :: 0 <= i < j < |x| ==> x[i] != x[j] {
        ChainMeetsDeadEnd(nodes, x, c);
        NoLoopBeforeDeadEnd(nodes, c);
      }
    case Cycle =>
      var i, j := Pigeonhole(nodes, c);
      assert Loops(nodes, c, i, j);
      forall x | LinkMissing(nodes, x) && x[0] == id ensures false {
        ChainMeetsDeadEnd(nodes, c, x);
        NoLoopBeforeDeadEnd(nodes, x);
      }
  }

  lemma {:induction false} ChainMeetsDeadEnd(nodes: Nodes, c: seq<int>, d: seq<int>)
    requires Chain(nodes, c) && LinkMissing(nodes, d) && c[0] == d[0]
    ensures c <= d
    decreases |c|
  {
    if |c| > 1 {
      assert nodes[c[0]].parent == Some(c[1]);
      ChainMeetsDeadEnd(nodes, c[1..], d[1..]);
      assert c == [c[0]] + c[1..] && d == [d[0]] + d[1..];
    }
  }

  lemma NoLoopBeforeDeadEnd(nodes: Nodes, d: seq<int>)
    requires LinkMissing(nodes, d)
    ensures forall i, j :: 0 <= i < j < |d| ==> d[i] != d[j]
  {
    forall i, j | 0 <= i < j < |d| ensures d[i] != d[j] {
      if d[i] == d[j] {
        assert Chain(nodes, d[i..]) && LinkMissing(nodes, d[j..]);
        ChainMeetsDeadEnd(nodes, d[i..], d[j..]);
      }
    }
  }

  // ---------------------------------------------------------------- inheritance

  /** The first layer, from the node up, that gives the setting, and its value there. */
  function Lookup<K, V>(layers: seq<map<K, V>>, k: K): Option<(V, nat)> {
    if layers == [] then None
    else if k in layers[0] then Some((layers[0][k], 0))
    else
      match Lookup(layers[1..], k)
      case None => None
      case Some(found) => Some((found.0, found.1 + 1))
  }

  method Resolve<K(==), V>(layers: seq<map<K, V>>, k: K) returns (found: Option<(V, nat)>)
    ensures found == Lookup(layers, k)
  {
    for i := 0 to |layers|
      invariant forall j :: 0 <= j < i ==> k !in layers[j]
    {
      if k in layers[i] {
        LookupIsNearest(layers, k, i);
        return Some((layers[i][k], i));
      }
    }
    NothingToFind(layers, k);
    found := None;
  }

  lemma {:induction false} LookupIsNearest<K, V>(layers: seq<map<K, V>>, k: K, i: nat)
    requires i < |layers| && k in layers[i] && forall j :: 0 <= j < i ==> k !in layers[j]
    ensures Lookup(layers, k) == Some((layers[i][k], i))
  {
    if i > 0 {
      LookupIsNearest(layers[1..], k, i - 1);
    }
  }

  lemma {:induction false} NothingToFind<K, V>(layers: seq<map<K, V>>, k: K)
    requires forall j :: 0 <= j < |layers| ==> k !in layers[j]
    ensures Lookup(layers, k) == None
  {
    if layers != [] {
      NothingToFind(layers[1..], k);
    }
  }

  function IntLayers(nodes: Nodes, c: seq<int>): (l: seq<map<IntField, int>>)
    requires forall i :: 0 <= i < |c| ==> c[i] in nodes
    ensures |l| == |c| && forall i :: 0 <= i < |c| ==> l[i] == nodes[c[i]].settings.ints
  {
    seq(|c|, i requires 0 <= i < |c| => nodes[c[i]].settings.ints)
  }

  function StrLayers(nodes: Nodes, c: seq<int>): (l: seq<map<StrField, string>>)
    requires forall i :: 0 <= i < |c| ==> c[i] in nodes
    ensures |l| == |c| && forall i :: 0 <= i < |c| ==> l[i] == nodes[c[i]].settings.strs
  {
    seq(|c|, i requires 0 <= i < |c| => nodes[c[i]].settings.strs)
  }

  function BoolLayers(nodes: Nodes, c: seq<int>): (l: seq<map<BoolField, bool>>)
    requires forall i :: 0 <= i < |c| ==> c[i] in nodes
    ensures |l| == |c| && forall i :: 0 <= i < |c| ==> l[i] == nodes[c[i]].settings.bools
  {
    seq(|c|, i requires 0 <= i < |c| => nodes[c[i]].settings.bools)
  }

  /** What a node's chain resolves a number to; Go's zero when nothing sets it. */
  function IntOf(nodes: Nodes, c: seq<int>, f: IntField): int
    requires forall i :: 0 <= i < |c| ==> c[i] in nodes
  {
    match Lookup(IntLayers(nodes, c), f) case None => 0 case Some(found) => found.0
  }

  function StrOf(nodes: Nodes, c: seq<int>, f: StrField): string
    requires forall i :: 0 <= i < |c| ==> c[i] in nodes
  {
    match Lookup(StrLayers(nodes, c), f) case None => "" case Some(found) => found.0
  }

  // ---------------------------------------------------------------- one node

  predicate Space(c: char) {
    || '\t' <= c <= '\r' || c == ' ' || c == '\U{0085}' || c == '\U{00A0}' || c == '\U{1680}'
    || '\U{2000}' <= c <= '\U{200A}' || c == '\U{2028}' || c == '\U{2029}' || c == '\U{202F}' || c == '\U{205F}'
    || c == '\U{3000}'
  }

  predicate Blank(s: string) { forall i :: 0 <= i < |s| ==> Space(s[i]) }

  predicate IntValid(f: IntField, v: int) {
    match f
    case IntervalS => v > 0
    case PingsPerInterval => 0 < v <= 65535
    case BurstGapMS => v >= 0
    case TimeoutMS => 0 < v <= 600_000
    case PacketSize => 12 <= v <= 65_000
    case Dscp => 0 <= v <= 63
    case ProbePort => 1 <= v <= 65535
    case TraceIntervalS => v >= 0
    case RetentionS => v >= 0
  }

  predicate StrValid(f: StrField, v: string) {
    match f
    case ProbeMode => v == "burst" || v == "spread"
    case ProbeType => v in {"icmp", "dns", "tcp", "http", "https", "irtt"}
    case Agents => !Blank(v)
    case _ => true
  }

  predicate FieldsValid(t: Target) {
    && (t.parent.Some? ==> !Blank(t.name))
    && '/' !in t.name
    && (t.host.Some? <==> t.family.Some?)
    && (t.family.Some? ==> t.family.value == "v4" || t.family.value == "v6")
    && (forall f :: f in t.settings.ints ==> IntValid(f, t.settings.ints[f]))
    && (forall f :: f in t.settings.strs ==> StrValid(f, t.settings.strs[f]))
  }

  const DEFAULTED_INTS: set<IntField> :=
    {IntervalS, PingsPerInterval, BurstGapMS, TimeoutMS, PacketSize, Dscp, TraceIntervalS, RetentionS}
  const DEFAULTED_STRS: set<StrField> := {ProbeMode, Agents, ProbeType, GraphSeries}

  predicate Complete(s: Settings) {
    DEFAULTED_INTS <= s.ints.Keys && DEFAULTED_STRS <= s.strs.Keys && TlsSkipVerify in s.bools
  }

  /** A burst ends inside its interval; products are those of Go's 64-bit int. */
  predicate TimingFits(nodes: Nodes, c: seq<int>)
    requires forall i :: 0 <= i < |c| ==> c[i] in nodes
  {
    StrOf(nodes, c, ProbeMode) == "burst" ==>
      Schedule.Wrap(IntOf(nodes, c, PingsPerInterval) * IntOf(nodes, c, BurstGapMS))
      < Schedule.Wrap(IntOf(nodes, c, IntervalS) * 1000)
  }

  // ---------------------------------------------------------------- the tree

  function NodesOf(targets: seq<Target>): Nodes {
    if targets == [] then map[]
        else NodesOf(targets[..|targets| - 1])[targets[|targets| - 1].id := targets[|targets| - 1]]
  }

  ghost predicate UniqueIds(targets: seq<Target>) {
    forall i, j :: 0 <= i < j < |targets| ==> targets[i].id != targets[j].id
  }

  predicate IsRoot(nodes: Nodes, id: int) { id in nodes && nodes[id].parent == None }

  predicate NodeFine(nodes: Nodes, id: int)
    requires id in nodes
  {
    Ancestry(nodes, id).Walked? && FieldsValid(nodes[id])
  }

  ghost predicate SiblingsDiffer(nodes: Nodes, a: int, b: int)
    requires a in nodes && b in nodes
  {
    a != b && nodes[a].parent.Some? && nodes[a].parent == nodes[b].parent ==> nodes[a].name != nodes[b].name
  }

  ghost predicate HostFine(nodes: Nodes, id: int)
    requires id in nodes && Ancestry(nodes, id).Walked?
  {
    WalkedIsRootChain(nodes, id);
    nodes[id].host.Some? ==> TimingFits(nodes, Ancestry(nodes, id).chain)
  }

  ghost predicate ValidNodes(nodes: Nodes) {
    && (exists r :: IsRoot(nodes, r) && Complete(nodes[r].settings))
    && (forall a, b :: IsRoot(nodes, a) && IsRoot(nodes, b) ==> a == b)
    && (forall id :: id in nodes ==> NodeFine(nodes, id))
    && (forall a, b :: a in nodes && b in nodes ==> SiblingsDiffer(nodes, a, b))
    && (forall id :: id in nodes ==> HostFine(nodes, id))
  }

  /** One complete root, every parent present, no cycle, valid fields, distinct siblings, bursts that fit. */
  ghost predicate Valid(targets: seq<Target>) {
    UniqueIds(targets) && ValidNodes(NodesOf(targets))
  }
}
