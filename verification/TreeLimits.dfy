/** What smokeng will run, as opposed to merely store (internal/tree/limits.go). Rates are exact numbers. */
module TreeLimits {
  import opened Options
  import opened Tree
  import opened TreeIndex

  const MAX_DEPTH: int := 16
  const MAX_TARGETS: int := 10_000
  const MAX_PROBE_RATE: real := 100.0
  const MAX_PROBE_BYTES_PER_SEC: real := 500_000.0
  const MAX_TOTAL_PROBE_RATE: real := 5000.0

  // ---------------------------------------------------------------- one node's own values

  predicate Bounded(f: IntField, v: int) {
    match f
    case IntervalS => 1 <= v <= 86_400
    case PingsPerInterval => 1 <= v <= 1000
    case BurstGapMS => 0 <= v <= 600_000
    case PacketSize => 12 <= v <= 9000
    case TraceIntervalS => v == 0 || 30 <= v <= 604_800
    case RetentionS => v == 0 || 3600 <= v <= 315_360_000
    case _ => true
  }

  predicate Unchanged(before: Option<Target>, after: Target, f: IntField)
    requires f in after.settings.ints
  {
    before.Some? && f in before.value.settings.ints && before.value.settings.ints[f] == after.settings.ints[f]
  }

  /** The numbers of `CheckLimits`: only what a write changes is held to them. */
  predicate CheckLimits(before: Option<Target>, after: Target) {
    forall f :: f in after.settings.ints && !Unchanged(before, after, f) ==> Bounded(f, after.settings.ints[f])
  }

  // ---------------------------------------------------------------- load

  /** The resolved values that make up the load a target puts on what it probes. */
  datatype Load = Load(pings: int, interval: int, size: int, timeout: int)

  predicate Sane(l: Load) { l.pings >= 1 && l.interval >= 1 && l.size >= 12 && l.timeout >= 1 }

  function LoadAlong(nodes: Nodes, c: seq<int>): Load
    requires forall i :: 0 <= i < |c| ==> c[i] in nodes
  {
    Load(IntOf(nodes, c, PingsPerInterval), IntOf(nodes, c, IntervalS), IntOf(nodes, c, PacketSize),
         IntOf(nodes, c, TimeoutMS))
  }

  lemma ResolvedIsValid(nodes: Nodes, id: int, f: IntField)
    requires ValidNodes(nodes) && id in nodes && f in DEFAULTED_INTS
    ensures IntValid(f, IntOf(nodes, ChainOf(nodes, id), f))
    ensures var v := IntOf(nodes, ChainOf(nodes, id), f);
      exists n :: n in nodes && f in nodes[n].settings.ints && nodes[n].settings.ints[f] == v
  {
    hide HostFine, Complete, SiblingsDiffer, Lookup, IntValid;
    var k := ResolveInt(nodes, id, f);
    var n := ChainOf(nodes, id)[k];
    assert NodeFine(nodes, n);
  }

  function LoadOf(nodes: Nodes, id: int): (l: Load)
    requires ValidNodes(nodes) && id in nodes
    ensures Sane(l)
  {
    ResolvedIsValid(nodes, id, PingsPerInterval);
    ResolvedIsValid(nodes, id, IntervalS);
    ResolvedIsValid(nodes, id, PacketSize);
    ResolvedIsValid(nodes, id, TimeoutMS);
    LoadAlong(nodes, ChainOf(nodes, id))
  }

  function ProbeRate(l: Load): (r: real)
    requires Sane(l)
    ensures r > 0.0
  {
    l.pings as real / l.interval as real
  }

  function ByteRate(l: Load): real
    requires Sane(l)
  {
    ProbeRate(l) * l.size as real
  }

  function Waiting(l: Load): real
    requires Sane(l)
  {
    l.timeout as real / (l.interval * 1000) as real
  }

  predicate NotWorse(before: Load, after: Load)
    requires Sane(before) && Sane(after)
  {
    && ProbeRate(after) <= ProbeRate(before)
    && ByteRate(after) <= ByteRate(before)
    && Waiting(after) <= Waiting(before)
  }

  predicate WithinLimits(l: Load)
    requires Sane(l)
  {
    && l.timeout <= l.interval * 1000
    && ProbeRate(l) <= MAX_PROBE_RATE
    && ByteRate(l) <= MAX_PROBE_BYTES_PER_SEC
  }

  lemma WaitingWithin(l: Load)
    requires Sane(l)
    ensures Waiting(l) <= 1.0 <==> l.timeout <= l.interval * 1000
  {
    var t, d := l.timeout as real, (l.interval * 1000) as real;
    assert Waiting(l) * d == t;
    if Waiting(l) <= 1.0 {
      assert Waiting(l) * d <= 1.0 * d;
    } else {
      assert Waiting(l) * d > 1.0 * d;
    }
  }

  /** What is no worse than a load within the limits is within them. */
  lemma NotWorseStaysWithin(before: Load, after: Load)
    requires Sane(before) && Sane(after) && NotWorse(before, after) && WithinLimits(before)
    ensures WithinLimits(after)
  {
    hide ProbeRate, ByteRate, Waiting;
    WaitingWithin(before);
    WaitingWithin(after);
  }

  predicate Running(t: Target) { t.host.Some? && t.enabled }

  function RateTerm(nodes: Nodes, t: Target): (r: real)
    requires ValidNodes(nodes) && t.id in nodes
    ensures r >= 0.0
  {
    if Running(t) then ProbeRate(LoadOf(nodes, t.id)) else 0.0
  }

  /** What all running targets of a list together send, resolved in `nodes`. */
  function TotalRate(nodes: Nodes, targets: seq<Target>): (r: real)
    requires ValidNodes(nodes) && forall k :: 0 <= k < |targets| ==> targets[k].id in nodes
    ensures r >= 0.0
  {
    if targets == [] then 0.0
    else
      var last := targets[|targets| - 1];
      TotalRate(nodes, targets[..|targets| - 1]) + RateTerm(nodes, last)
  }

  function RateOf(targets: seq<Target>): real
    requires Valid(targets)
  {
    EntriesIn(targets);
    TotalRate(NodesOf(targets), targets)
  }

  lemma EntriesIn(targets: seq<Target>)
    ensures forall k :: 0 <= k < |targets| ==> targets[k].id in NodesOf(targets)
  {
    forall k | 0 <= k < |targets| ensures targets[k].id in NodesOf(targets) {
      NodesOfEntry(targets, k);
    }
  }

  function Depth(nodes: Nodes, id: int): nat
    requires ValidNodes(nodes) && id in nodes
  {
    |ChainOf(nodes, id)| - 1
  }

  lemma OnlyTheLastIsRoot(nodes: Nodes, c: seq<int>)
    requires RootChain(nodes, c)
    ensures forall k :: 0 <= k < |c| ==> (nodes[c[k]].parent == None <==> k == |c| - 1)
  {
    forall k | 0 <= k < |c| - 1 ensures nodes[c[k]].parent.Some? {
      assert nodes[c[k]].parent == Some(c[k + 1]);
    }
  }

  method DepthOf(nodes: Nodes, id: int) returns (d: nat)
    requires ValidNodes(nodes) && id in nodes
    ensures d == Depth(nodes, id)
  {
    ghost var c := ChainOf(nodes, id);
    hide ValidNodes, ChainOf;
    OnlyTheLastIsRoot(nodes, c);
    d := 0;
    var cur := id;
    while nodes[cur].parent != None
      invariant 0 <= d < |c| && cur == c[d] && cur in nodes
      decreases |c| - d
    {
      assert d < |c| - 1 && nodes[c[d]].parent == Some(c[d + 1]);
      cur := nodes[cur].parent.value;
      d := d + 1;
    }
  }

  // ---------------------------------------------------------------- the whole tree

  /** A node is deep enough to refuse only where the change put it deeper. */
  ghost predicate DepthFine(prior: Option<Nodes>, nodes: Nodes, id: int)
    requires (prior.Some? ==> ValidNodes(prior.value)) && ValidNodes(nodes) && id in nodes
  {
    Depth(nodes, id) > MAX_DEPTH ==>
      prior.Some? && id in prior.value && Depth(prior.value, id) >= Depth(nodes, id)
  }

  /** A running target is within the limits, or it already ran and its load is no worse. */
  ghost predicate LoadFine(prior: Option<Nodes>, nodes: Nodes, id: int)
    requires (prior.Some? ==> ValidNodes(prior.value)) && ValidNodes(nodes) && id in nodes
  {
    Running(nodes[id]) ==> WithinLimits(LoadOf(nodes, id)) || Excused(prior, nodes, id)
  }

  ghost predicate Excused(prior: Option<Nodes>, nodes: Nodes, id: int)
    requires (prior.Some? ==> ValidNodes(prior.value)) && ValidNodes(nodes) && id in nodes
  {
    prior.Some? && id in prior.value && Running(prior.value[id]) && NotWorse(LoadOf(prior.value, id), LoadOf(nodes, id))
  }

  ghost function PriorOf(before: seq<Target>): (p: Option<Nodes>)
    ensures p.Some? ==> ValidNodes(p.value)
  {
    if Valid(before) then Some(NodesOf(before)) else None
  }

  ghost function RateBefore(before: seq<Target>): real { if Valid(before) then RateOf(before) else 0.0 }

  /** What a change to the tree must be: a valid tree, and past a limit only where it was before, and no
      further. */
  ghost predicate Accepted(before: seq<Target>, after: seq<Target>) {
    && Valid(after)
    && (|after| > MAX_TARGETS ==> |after| <= |before|)
    && (forall id :: id in NodesOf(after) ==> DepthFine(PriorOf(before), NodesOf(after), id))
    && (forall id :: id in NodesOf(after) ==> LoadFine(PriorOf(before), NodesOf(after), id))
    && (RateOf(after) > MAX_TOTAL_PROBE_RATE ==> RateOf(after) <= RateBefore(before))
  }

  function StoredAs(nodes: Nodes, id: int): Option<Target> {
    if id in nodes then Some(nodes[id]) else None
  }

  /** What an import asks of the tree it plans: of each node, and of the whole. */
  ghost predicate Checked(current: seq<Target>, planned: seq<Target>) {
    && (forall k :: 0 <= k < |planned| ==> CheckLimits(StoredAs(NodesOf(current), planned[k].id), planned[k]))
    && Accepted(current, planned)
  }

  method CheckTreeLimits(before: seq<Target>, after: seq<Target>) returns (ok: bool)
    ensures ok <==> Accepted(before, after)
  {
    hide Valid, ValidNodes, NodesOf, Depth, LoadOf, TotalRate, ChainOf;
    var afterT := New(after);
    if afterT == None {
      return false;
    }
    var nodes := afterT.value;
    var prior := New(before);
    if prior != None {
      ValidGives(before);
    }
    if |after| > MAX_TARGETS && |after| > |before| {
      return false;
    }
    ValidGives(after);
    ok := CheckDepths(prior, nodes, after);
    if !ok {
      return;
    }
    var rateAfter: real;
    ok, rateAfter := CheckLoads(prior, nodes, after);
    if !ok {
      return;
    }
    var rateBefore := 0.0;
    if prior != None {
      rateBefore := SumRates(prior.value, before);
    }
    ok := !(rateAfter > MAX_TOTAL_PROBE_RATE && rateAfter > rateBefore);
  }

  lemma ValidGives(targets: seq<Target>)
    requires Valid(targets)
    ensures ValidNodes(NodesOf(targets)) && Listed(NodesOf(targets), targets)
    ensures RateOf(targets) == TotalRate(NodesOf(targets), targets)
  {
    hide ValidNodes;
    EntriesIn(targets);
    forall k | 0 <= k < |targets| ensures NodesOf(targets)[targets[k].id] == targets[k] {
      NodesOfEntry(targets, k);
    }
    forall id | id in NodesOf(targets) ensures exists k :: 0 <= k < |targets| && targets[k].id == id {
      var k := NodesOfSource(targets, id);
    }
  }

  /** The list holds exactly the nodes of the index. */
  ghost predicate Listed(nodes: Nodes, targets: seq<Target>) {
    && (forall k :: 0 <= k < |targets| ==> targets[k].id in nodes && nodes[targets[k].id] == targets[k])
    && (forall id :: id in nodes ==> exists k :: 0 <= k < |targets| && targets[k].id == id)
  }

  method CheckDepths(prior: Option<Nodes>, nodes: Nodes, after: seq<Target>) returns (ok: bool)
    requires (prior.Some? ==> ValidNodes(prior.value)) && ValidNodes(nodes) && Listed(nodes, after)
    ensures ok <==> forall id :: id in nodes ==> DepthFine(prior, nodes, id)
  {
    hide ValidNodes, Depth;
    for i := 0 to |after|
      invariant forall k :: 0 <= k < i ==> DepthFine(prior, nodes, after[k].id)
    {
      var id := after[i].id;
      var d := DepthOf(nodes, id);
      if d > MAX_DEPTH {
        var excused := false;
        if prior != None && id in prior.value {
          var was := DepthOf(prior.value, id);
          excused := was >= d;
        }
        if !excused {
          assert !DepthFine(prior, nodes, id);
          return false;
        }
      }
    }
    ok := true;
  }

  method CheckLoads(prior: Option<Nodes>, nodes: Nodes, after: seq<Target>) returns (ok: bool, rate: real)
    requires (prior.Some? ==> ValidNodes(prior.value)) && ValidNodes(nodes) && Listed(nodes, after)
    ensures ok <==> forall id :: id in nodes ==> LoadFine(prior, nodes, id)
    ensures ok ==> rate == TotalRate(nodes, after)
  {
    hide ValidNodes, LoadOf, WithinLimits, NotWorse;
    rate := 0.0;
    for i := 0 to |after|
      invariant forall k :: 0 <= k < i ==> LoadFine(prior, nodes, after[k].id)
      invariant rate == TotalRate(nodes, after[..i])
    {
      assert after[..i + 1][..i] == after[..i];
      var n := after[i];
      if n.host == None || !n.enabled {
        continue;
      }
      var load := LoadOf(nodes, n.id);
      rate := rate + ProbeRate(load);
      if prior != None && n.id in prior.value {
        var was := prior.value[n.id];
        if was.host.Some? && (was.enabled || !n.enabled) && NotWorse(LoadOf(prior.value, n.id), load) {
          continue;
        }
      }
      if !WithinLimits(load) {
        assert !LoadFine(prior, nodes, n.id);
        return false, rate;
      }
    }
    assert after[..|after|] == after;
    ok := true;
  }

  method SumRates(nodes: Nodes, targets: seq<Target>) returns (rate: real)
    requires ValidNodes(nodes) && Listed(nodes, targets)
    ensures rate == TotalRate(nodes, targets)
  {
    hide ValidNodes, LoadOf;
    rate := 0.0;
    for i := 0 to |targets|
      invariant rate == TotalRate(nodes, targets[..i])
    {
      assert targets[..i + 1][..i] == targets[..i];
      var n := targets[i];
      if n.host == None || !n.enabled {
        continue;
      }
      rate := rate + ProbeRate(LoadOf(nodes, n.id));
    }
    assert targets[..|targets|] == targets;
  }

  /** Limits never refuse a valid tree that is left as it is. */
  lemma LimitsAcceptNoChange(targets: seq<Target>)
    requires Valid(targets)
    ensures Accepted(targets, targets)
  {
    hide Valid, ValidNodes, NodesOf, Depth, LoadOf, WithinLimits;
  }
}
