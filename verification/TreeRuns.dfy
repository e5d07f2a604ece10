/** The writes that change the tree (internal/api/targets.go, internal/store/targets_tx.go) and what every run
    of accepted ones keeps. Each of those reads the tree, decides and writes as one step. An import
    (internal/config/config.go) does not: here it is one that runs whole and alone, and `ImportWrites` has the
    others. Who may write, and the checks on text, are left out: they only refuse more. */
module TreeRuns {
  import opened Options
  import opened Tree
  import opened TreeIndex
  import opened TreeLimits
  import opened TreeEdits
  import opened Renumbering
  import Arithmetic
  import Schedule

  // ---------------------------------------------------------------- creating

  function MaxId(targets: seq<Target>): (m: int)
    ensures m >= 0
  {
    if targets == [] then 0
    else
      var before := MaxId(targets[..|targets| - 1]);
      if targets[|targets| - 1].id > before then targets[|targets| - 1].id else before
  }

  method SynthID(targets: seq<Target>) returns (id: int)
    ensures id == MaxId(targets) + 1
  {
    var maxID := 0;
    for i := 0 to |targets|
      invariant maxID == MaxId(targets[..i])
    {
      assert targets[..i + 1][..i] == targets[..i];
      if targets[i].id > maxID {
        maxID := targets[i].id;
      }
    }
    assert targets[..|targets|] == targets;
    id := maxID + 1;
  }

  lemma {:induction false} MaxIdIsAbove(targets: seq<Target>)
    ensures forall k :: 0 <= k < |targets| ==> targets[k].id <= MaxId(targets)
  {
    if targets != [] {
      MaxIdIsAbove(targets[..|targets| - 1]);
    }
  }

  predicate Free(targets: seq<Target>, id: int) {
    forall k :: 0 <= k < |targets| ==> targets[k].id != id
  }

  function Planned(current: seq<Target>, n: Target): seq<Target> {
    current + [n.(id := MaxId(current) + 1)]
  }

  /** A new node is checked under an id of its own and stored under the one the database gives it. */
  ghost predicate Created(current: seq<Target>, n: Target, next: seq<Target>) {
    && Valid(current)
    && n.parent.Some? && CheckLimits(None, n) && Accepted(current, Planned(current, n))
    && Free(current, n.id)
    && next == current + [n]
  }

  method Create(current: seq<Target>, n: Target) returns (next: Option<seq<Target>>)
    requires Free(current, n.id)
    ensures next.Some? ==> Created(current, n, next.value)
    ensures next.None? ==> !exists s :: Created(current, n, s)
  {
    hide Valid, Accepted, CheckLimits, Free, MaxId;
    if n.parent == None {
      return None;
    }
    var tree := New(current);
    if tree == None {
      return None;
    }
    if !CheckLimits(None, n) {
      return None;
    }
    var id := SynthID(current);
    var planned := current + [n.(id := id)];
    var ok := CheckTreeLimits(current, planned);
    if !ok {
      return None;
    }
    next := Some(current + [n]);
  }

  // ---------------------------------------------------------------- editing

  /** An edit keeps the id; it moves a node below another, and the root nowhere. */
  predicate Edit(before: Target, after: Target) {
    after.id == before.id && (if before.parent == None then after.parent == None else after.parent.Some?)
  }

  ghost predicate Updated(current: seq<Target>, k: nat, after: Target, next: seq<Target>) {
    && Valid(current)
    && k < |current| && Edit(current[k], after) && CheckLimits(Some(current[k]), after)
    && next == current[k := after]
    && Accepted(current, next)
  }

  /** The node as a request would leave it: `moved` is the parent it names, if any, `patch` its other
      fields. */
  function Patched(before: Target, moved: Option<int>, patch: Target): Target {
    patch.(id := before.id, parent := if moved.Some? then moved else before.parent)
  }

  method Update(current: seq<Target>, id: int, moved: Option<int>, patch: Target) returns (next: Option<seq<Target>>)
    ensures next.Some? ==> exists k :: UpdatedBy(current, id, moved, patch, k, next.value)
    ensures next.None? ==> !exists k, s :: UpdatedBy(current, id, moved, patch, k, s)
  {
    hide Valid, Accepted, CheckLimits;
    var tree := New(current);
    if tree == None {
      return None;
    }
    var k := 0;
    while k < |current| && current[k].id != id
      invariant k <= |current| && forall j :: 0 <= j < k ==> current[j].id != id
    {
      k := k + 1;
    }
    if k == |current| {
      return None;
    }
    forall j | 0 <= j < |current| && current[j].id == id ensures j == k {
      IdsAreUnique(current, j, k);
    }
    if current[k].parent == None && moved != None {
      return None;
    }
    var after := Patched(current[k], moved, patch);
    if !CheckLimits(Some(current[k]), after) {
      return None;
    }
    var planned := current[k := after];
    var ok := CheckTreeLimits(current, planned);
    if !ok {
      return None;
    }
    assert UpdatedBy(current, id, moved, patch, k, planned);
    next := Some(planned);
  }

  ghost predicate UpdatedBy(current: seq<Target>, id: int, moved: Option<int>, patch: Target, k: nat,
                            next: seq<Target>) {
    k < |current| && current[k].id == id && Updated(current, k, Patched(current[k], moved, patch), next)
  }

  lemma IdsAreUnique(targets: seq<Target>, j: nat, k: nat)
    requires Valid(targets) && j < |targets| && k < |targets| && targets[j].id == targets[k].id
    ensures j == k
  {
    hide ValidNodes;
  }

  // ---------------------------------------------------------------- deleting

  predicate Stays(nodes: Nodes, top: int, t: Target)
    requires ValidNodes(nodes)
  {
    t.id in nodes && !Under(nodes, top, t.id)
  }

  /** What is left without a node and everything below it. */
  function Remaining(current: seq<Target>, top: int): seq<Target>
    requires Valid(current)
  {
    Kept(current, t => Stays(NodesOf(current), top, t))
  }

  ghost predicate Deleted(current: seq<Target>, top: int, next: seq<Target>) {
    && Valid(current)
    && top in NodesOf(current) && !IsRoot(NodesOf(current), top)
    && next == Remaining(current, top)
  }

  // ---------------------------------------------------------------- importing

  /** An import that runs whole and alone: it checks the tree it plans, whose new nodes have ids of their own,
      and stores it under the ids the database gives them; nodes that were there keep theirs. */
  ghost predicate Imported(current: seq<Target>, planned: seq<Target>, r: Numbers, next: seq<Target>) {
    && Valid(current)
    && Checked(current, planned)
    && SameTree(planned, r, next) && KeepsIds(NodesOf(current), r)
  }

  // ---------------------------------------------------------------- what every step keeps

  ghost predicate Step(current: seq<Target>, next: seq<Target>) {
    || (exists n :: Created(current, n, next))
    || (exists k, after :: Updated(current, k, after, next))
    || (exists top :: Deleted(current, top, next))
    || (exists planned, r :: Imported(current, planned, r, next))
  }

  ghost predicate AllBounded(targets: seq<Target>) {
    forall k, f :: 0 <= k < |targets| && f in targets[k].settings.ints ==> Bounded(f, targets[k].settings.ints[f])
  }

  /** Valid, and within every limit. */
  ghost predicate Sound(targets: seq<Target>) {
    && Valid(targets)
    && AllBounded(targets)
    && |targets| <= MAX_TARGETS
    && (forall id :: id in NodesOf(targets) ==> Depth(NodesOf(targets), id) <= MAX_DEPTH)
    && (forall id :: id in NodesOf(targets) && Running(NodesOf(targets)[id]) ==>
         WithinLimits(LoadOf(NodesOf(targets), id)))
    && RateOf(targets) <= MAX_TOTAL_PROBE_RATE
  }

  /** Past a limit only where the tree was before, and no further. */
  ghost predicate NoWorse(current: seq<Target>, next: seq<Target>)
    requires Valid(current) && Valid(next)
  {
    && (|next| > MAX_TARGETS ==> |next| <= |current|)
    && (forall id :: id in NodesOf(next) ==> DepthFine(Some(NodesOf(current)), NodesOf(next), id))
    && (forall id :: id in NodesOf(next) ==> LoadFine(Some(NodesOf(current)), NodesOf(next), id))
    && (RateOf(next) > MAX_TOTAL_PROBE_RATE ==> RateOf(next) <= RateOf(current))
  }

  /** What is no worse than a sound tree is sound. */
  lemma NoWorseThanSound(current: seq<Target>, next: seq<Target>)
    requires Sound(current) && Valid(next) && AllBounded(next) && NoWorse(current, next)
    ensures Sound(next)
  {
    var prior, nodes := NodesOf(current), NodesOf(next);
    ValidGives(current);
    ValidGives(next);
    hide Valid, ValidNodes, NodesOf, AllBounded, Depth, LoadOf, WithinLimits, NotWorse, RateOf;
    forall id | id in nodes && Running(nodes[id]) ensures WithinLimits(LoadOf(nodes, id)) {
      assert LoadFine(Some(prior), nodes, id);
      if Excused(Some(prior), nodes, id) {
        NotWorseStaysWithin(LoadOf(prior, id), LoadOf(nodes, id));
      }
    }
    forall id | id in nodes ensures Depth(nodes, id) <= MAX_DEPTH {
      assert DepthFine(Some(prior), nodes, id);
    }
  }

  // ---- a created node

  lemma NodesOfAppended(current: seq<Target>, n: Target)
    requires UniqueIds(current) && Free(current, n.id)
    ensures NodesOf(current + [n]) == With(NodesOf(current), n) && n.id !in NodesOf(current)
    ensures UniqueIds(current + [n])
  {
    assert (current + [n])[..|current|] == current;
    if n.id in NodesOf(current) {
      var k := NodesOfSource(current, n.id);
      assert false;
    }
  }

  lemma AcceptedIsNoWorse(current: seq<Target>, next: seq<Target>)
    requires Valid(current) && Accepted(current, next)
    ensures Valid(next) && NoWorse(current, next)
  {
    hide Valid, ValidNodes, NodesOf, DepthFine, LoadFine, RateOf;
  }

  /** The id of its own that a new node is checked under is replaced by the one it is stored under. */
  function RealId(current: seq<Target>, n: Target): Numbers {
    Replaced(With(NodesOf(current), n.(id := MaxId(current) + 1)), MaxId(current) + 1, n.id)
  }

  lemma CreatedIsAsPlanned(current: seq<Target>, n: Target, next: seq<Target>)
    requires Created(current, n, next)
    ensures SameTree(Planned(current, n), RealId(current, n), next)
    ensures KeepsIds(NodesOf(current), RealId(current, n))
  {
    hide *;
    CreatedGives(current, n, next);
    var nodes, p := NodesOf(current), n.(id := MaxId(current) + 1);
    IndexedByOwnId(current);
    ValidGives(current);
    ValidGives(Planned(current, n));
    assert UniqueIds(current) by { ValidIsUnique(current); }
    NodesOfAppended(current, p);
    NodesOfAppended(current, n);
    NewNodeIsALeaf(nodes, p);
    RealIdIs(current, n);
    LeafIsRenamed(nodes, p, n.id, RealId(current, n));
    SameTreeIs(Planned(current, n), RealId(current, n), next);
  }

  lemma CreatedGives(current: seq<Target>, n: Target, next: seq<Target>)
    requires Created(current, n, next)
    ensures Valid(current) && Valid(Planned(current, n)) && n.parent.Some?
    ensures Free(current, n.id) && next == current + [n]
    ensures Planned(current, n) == current + [n.(id := MaxId(current) + 1)] && Free(current, MaxId(current) + 1)
  {
    MaxIdIsAbove(current);
    hide Valid, CheckLimits, MaxId;
  }

  lemma ValidIsUnique(targets: seq<Target>)
    requires Valid(targets)
    ensures UniqueIds(targets)
  {
    hide UniqueIds, ValidNodes;
  }

  lemma RealIdIs(current: seq<Target>, n: Target)
    ensures RealId(current, n)
         == Replaced(With(NodesOf(current), n.(id := MaxId(current) + 1)), MaxId(current) + 1, n.id)
    ensures n.(id := MaxId(current) + 1).(id := n.id) == n
  {
    hide NodesOf, MaxId, Replaced, With;
  }

  lemma CreatedIsNoWorse(current: seq<Target>, n: Target, next: seq<Target>)
    requires Created(current, n, next)
    ensures Valid(next) && NoWorse(current, next) && (AllBounded(current) ==> AllBounded(next))
  {
    CreatedIsAsPlanned(current, n, next);
    hide Valid, NodesOf, Accepted, NoWorse, SameTree, KeepsIds, RealId;
    NumberingDoesNotMatter(current, Planned(current, n), RealId(current, n), next);
    AcceptedIsNoWorse(current, next);
  }

  lemma UpdatedIsNoWorse(current: seq<Target>, k: nat, after: Target, next: seq<Target>)
    requires Updated(current, k, after, next)
    ensures Valid(next) && NoWorse(current, next) && (AllBounded(current) ==> AllBounded(next))
  {
    hide Valid, Accepted, NoWorse, Bounded;
    AcceptedIsNoWorse(current, next);
  }

  // ---- an import

  lemma ImportedIsNoWorse(current: seq<Target>, planned: seq<Target>, r: Numbers, next: seq<Target>)
    requires Imported(current, planned, r, next)
    ensures Valid(next) && NoWorse(current, next) && (AllBounded(current) ==> AllBounded(next))
  {
    hide Valid, Accepted, NoWorse, SameTree, KeepsIds, CheckLimits, AllBounded;
    NumberingDoesNotMatter(current, planned, r, next);
    AcceptedIsNoWorse(current, next);
    if AllBounded(current) {
      ImportedIsBounded(current, planned, r, next);
    }
  }

  lemma ImportedIsBounded(current: seq<Target>, planned: seq<Target>, r: Numbers, next: seq<Target>)
    requires Imported(current, planned, r, next) && AllBounded(current) && Valid(next)
    ensures AllBounded(next)
  {
    assert Valid(planned);
    ValidGives(current);
    ValidGives(planned);
    ValidGives(next);
    hide Valid, ValidNodes, NodesOf, Accepted, KeepsIds, Bounded, TotalRate;
    forall k, f | 0 <= k < |next| && f in next[k].settings.ints ensures Bounded(f, next[k].settings.ints[f]) {
      var x :| x in r && r[x] == next[k].id;
      assert NodesOf(next)[r[x]] == Renamed(NodesOf(planned)[x], r[x], r);
      var j :| 0 <= j < |planned| && planned[j].id == x;
      assert CheckLimits(StoredAs(NodesOf(current), x), planned[j]);
      if x in NodesOf(current) && Unchanged(Some(NodesOf(current)[x]), planned[j], f) {
        var i :| 0 <= i < |current| && current[i].id == x;
      }
    }
  }

  // ---- a deleted subtree

  lemma NotWorseThanItself(l: Load)
    requires Sane(l)
    ensures NotWorse(l, l)
  {
  }

  lemma {:induction false} KeptUnique(targets: seq<Target>, keep: Target -> bool)
    requires UniqueIds(targets)
    ensures UniqueIds(Kept(targets, keep))
  {
    if targets != [] {
      var n := |targets| - 1;
      KeptUnique(targets[..n], keep);
      var kept := Kept(targets[..n], keep);
      forall k | 0 <= k < |kept| ensures kept[k].id != targets[n].id {
        KeptIs(targets[..n], keep, kept[k]);
        var j :| 0 <= j < n && targets[..n][j] == kept[k];
        assert targets[j].id != targets[n].id;
      }
    }
  }

  lemma RemainingIsCut(current: seq<Target>, top: int)
    requires Valid(current)
    ensures UniqueIds(Remaining(current, top)) && Cut(NodesOf(current), top, NodesOf(Remaining(current, top)))
  {
    var nodes, rest := NodesOf(current), Remaining(current, top);
    var keep := t => Stays(NodesOf(current), top, t);
    ValidGives(current);
    KeptUnique(current, keep);
    hide ValidNodes, Valid, NodesOf, Kept, ChainOf, UniqueIds;
    forall x | x in NodesOf(rest) ensures x in nodes && !Under(nodes, top, x) && NodesOf(rest)[x] == nodes[x] {
      var k := NodesOfSource(rest, x);
      KeptIs(current, keep, rest[k]);
    }
    forall x | x in nodes && !Under(nodes, top, x) ensures x in NodesOf(rest) {
      var j :| 0 <= j < |current| && current[j].id == x;
      KeptIs(current, keep, current[j]);
      var k :| 0 <= k < |rest| && rest[k] == current[j];
      NodesOfEntry(rest, k);
    }
  }

  lemma DeletedLoads(nodes: Nodes, top: int, rest: Nodes, id: int)
    requires ValidNodes(nodes) && ValidNodes(rest) && Cut(nodes, top, rest) && id in rest
    ensures DepthFine(Some(nodes), rest, id) && LoadFine(Some(nodes), rest, id)
  {
    hide ValidNodes, Depth, LoadOf, WithinLimits, NotWorse, Cut;
    CutLeavesTheRest(nodes, top, rest, id);
    StillThere(nodes, top, rest, id);
    NotWorseThanItself(LoadOf(nodes, id));
  }

  lemma DeletedRate(current: seq<Target>, top: int, rest: Nodes)
    requires Valid(current) && Cut(NodesOf(current), top, rest) && ValidNodes(rest)
    requires forall k :: 0 <= k < |Remaining(current, top)| ==> Remaining(current, top)[k].id in rest
    ensures TotalRate(rest, Remaining(current, top)) <= RateOf(current)
  {
    var nodes, next := NodesOf(current), Remaining(current, top);
    ValidGives(current);
    var keep := t => Stays(NodesOf(current), top, t);
    assert next == Kept(current, keep);
    hide *;
    forall k | 0 <= k < |next| ensures next[k].id in nodes && LoadOf(nodes, next[k].id) == LoadOf(rest, next[k].id) {
      CutLeavesTheRest(nodes, top, rest, next[k].id);
      StillThere(nodes, top, rest, next[k].id);
    }
    assert forall k :: 0 <= k < |current| ==> current[k].id in nodes by { EntriesIn(current); }
    SameLoadsSumAlike(nodes, rest, next);
    SubsequenceSumsToNoMore(nodes, current, keep);
  }

  lemma DeletedIsValid(current: seq<Target>, top: int, next: seq<Target>)
    requires Deleted(current, top, next)
    ensures Valid(current) && Valid(next) && next == Remaining(current, top)
    ensures Cut(NodesOf(current), top, NodesOf(next))
  {
    hide NodesOf, ValidNodes, Cut, Remaining;
    RemainingIsCut(current, top);
    ValidGives(current);
    CutStaysValid(NodesOf(current), top, NodesOf(next));
  }

  lemma DeletedIsFine(current: seq<Target>, top: int, next: seq<Target>, id: int)
    requires Deleted(current, top, next) && id in NodesOf(next) && ValidNodes(NodesOf(next))
    ensures DepthFine(Some(NodesOf(current)), NodesOf(next), id) && LoadFine(Some(NodesOf(current)), NodesOf(next), id)
  {
    DeletedIsValid(current, top, next);
    ValidGives(current);
    hide *;
    DeletedLoads(NodesOf(current), top, NodesOf(next), id);
  }

  lemma DeletedStaysBounded(current: seq<Target>, top: int)
    requires Valid(current) && AllBounded(current)
    ensures AllBounded(Remaining(current, top))
  {
    var keep := t => Stays(NodesOf(current), top, t);
    hide Kept, Bounded;
    var next := Remaining(current, top);
    forall k | 0 <= k < |next| ensures next[k] in current {
      KeptIs(current, keep, next[k]);
    }
  }

  lemma DeletedIsNoWorse(current: seq<Target>, top: int, next: seq<Target>)
    requires Deleted(current, top, next)
    ensures Valid(next) && NoWorse(current, next) && (AllBounded(current) ==> AllBounded(next))
  {
    DeletedIsValid(current, top, next);
    ValidGives(next);
    assert |next| <= |current|;
    hide Deleted, Valid, ValidNodes, NodesOf, Cut, AllBounded, Remaining, DepthFine, LoadFine, TotalRate;
    forall id | id in NodesOf(next)
      ensures DepthFine(Some(NodesOf(current)), NodesOf(next), id) &&
          LoadFine(Some(NodesOf(current)), NodesOf(next), id)
    {
      DeletedIsFine(current, top, next, id);
    }
    DeletedRate(current, top, NodesOf(next));
    if AllBounded(current) {
      DeletedStaysBounded(current, top);
    }
  }

  lemma StillThere(nodes: Nodes, top: int, rest: Nodes, x: int)
    requires ValidNodes(nodes) && Cut(nodes, top, rest) && x in rest
    ensures x in nodes && rest[x] == nodes[x]
  {
  }

  // ---------------------------------------------------------------- runs

  /** From a valid tree, however far past a limit, no accepted step makes that excess larger, and every
      target past the limits of one was running before with no smaller a load. */
  lemma StepIsNoWorse(current: seq<Target>, next: seq<Target>)
    requires Step(current, next)
    ensures Valid(current) && Valid(next) && NoWorse(current, next) && (AllBounded(current) ==> AllBounded(next))
  {
    hide Created, Updated, Deleted, NoWorse, Valid, AllBounded;
    if n :| Created(current, n, next) {
      CreatedIsNoWorse(current, n, next);
      assert Valid(current) by { StepFromValid(current, next); }
    } else if k, after :| Updated(current, k, after, next) {
      UpdatedIsNoWorse(current, k, after, next);
      assert Valid(current) by { StepFromValid(current, next); }
    } else if planned, r :| Imported(current, planned, r, next) {
      ImportedIsNoWorse(current, planned, r, next);
      assert Valid(current) by { StepFromValid(current, next); }
    } else {
      var top :| Deleted(current, top, next);
      DeletedIsNoWorse(current, top, next);
      assert Valid(current) by { StepFromValid(current, next); }
    }
  }

  lemma StepFromValid(current: seq<Target>, next: seq<Target>)
    requires Step(current, next)
    ensures Valid(current)
  {
    hide Valid, Accepted, CheckLimits;
  }

  /** The one target of a new database. */
  const ROOT: Target := Target(1, None, "", None, None, None, None, false, true, 0,
    Settings(map[IntervalS := 60, PingsPerInterval := 20, BurstGapMS := 10, TimeoutMS := 1000, PacketSize := 56,
                 Dscp := 0, TraceIntervalS := 300, RetentionS := 0],
             map[ProbeMode := "burst", Agents := "local", ProbeType := "icmp", GraphSeries := "all"],
             map[TlsSkipVerify := false]))

  /** A root on its own, within the limits. */
  predicate Lone(root: Target) {
    && root.id == 1 && root.parent == None && root.host == None && FieldsValid(root) && Complete(root.settings)
    && forall f :: f in root.settings.ints ==> Bounded(f, root.settings.ints[f])
  }

  lemma SeedIndex(root: Target)
    requires root.id == 1 && root.parent == None
    ensures NodesOf([root]) == map[1 := root]
    ensures RootChain(NodesOf([root]), [1]) && Ancestry(NodesOf([root]), 1) == Walked([1])
  {
    assert [root][..0] == [];
    assert NodesOf([]) == map[];
    assert NodesOf([root]) == NodesOf([])[root.id := root];
    AncestryIs(NodesOf([root]), [1]);
  }

  lemma SeedInts(f: IntField)
    ensures f in ROOT.settings.ints ==> IntValid(f, ROOT.settings.ints[f]) && Bounded(f, ROOT.settings.ints[f])
  {
  }

  lemma SeedStrs(f: StrField)
    ensures f in ROOT.settings.strs ==> StrValid(f, ROOT.settings.strs[f])
  {
    assert !Blank("local") by { assert !Space("local"[0]); }
  }

  lemma SeedFields()
    ensures FieldsValid(ROOT) && Complete(ROOT.settings) && Lone(ROOT)
  {
    assert Complete(ROOT.settings);
    hide Complete, IntValid, StrValid, Bounded;
    forall f | f in ROOT.settings.ints
      ensures IntValid(f, ROOT.settings.ints[f]) && Bounded(f, ROOT.settings.ints[f])
    {
      SeedInts(f);
    }
    forall f | f in ROOT.settings.strs ensures StrValid(f, ROOT.settings.strs[f]) {
      SeedStrs(f);
    }
  }

  lemma LoneIsValid(root: Target)
    requires Lone(root)
    ensures Valid([root])
  {
    hide FieldsValid, Complete, Bounded;
    SeedIndex(root);
    var nodes := NodesOf([root]);
    assert IsRoot(nodes, 1) && nodes[1].host == None && nodes[1] == root;
    hide NodesOf, Ancestry;
    assert NodeFine(nodes, 1);
    assert HostFine(nodes, 1);
  }

  lemma LoneIsSound(root: Target)
    requires Lone(root)
    ensures Sound([root])
  {
    LoneIsValid(root);
    SeedIndex(root);
    ValidGives([root]);
    var nodes := NodesOf([root]);
    hide Valid, ValidNodes, FieldsValid, Complete, LoadOf, NodesOf, Bounded;
    ChainIs(nodes, 1, [1]);
    assert AllBounded([root]);
    assert [root][..0] == [];
    assert TotalRate(nodes, [root]) == 0.0;
    hide ChainOf;
  }

  lemma SeedIsSound()
    ensures Sound([ROOT])
  {
    SeedFields();
    hide Lone, Sound;
    LoneIsSound(ROOT);
  }

  ghost predicate Run(states: seq<seq<Target>>) {
    states != [] && states[0] == [ROOT] && forall i :: 0 <= i < |states| - 1 ==> Step(states[i], states[i + 1])
  }

  /** Every run of accepted creations, edits, moves, deletions and whole imports from a new database keeps the tree
      valid, acyclic, at most MAX_TARGETS targets, at most MAX_DEPTH deep, every running target within
      its limits and all of them together within theirs. */
  lemma {:induction false} EveryRunIsSound(states: seq<seq<Target>>, i: nat)
    requires Run(states) && i < |states|
    ensures Sound(states[i])
  {
    if i == 0 {
      SeedIsSound();
    } else {
      EveryRunIsSound(states, i - 1);
      hide Step, NoWorse, Valid, AllBounded;
      assert Step(states[i - 1], states[i - 1 + 1]);
      StepIsNoWorse(states[i - 1], states[i]);
      assert AllBounded(states[i - 1]) by { SoundGives(states[i - 1]); }
      NoWorseThanSound(states[i - 1], states[i]);
    }
  }

  lemma SoundIs(targets: seq<Target>)
    requires Valid(targets) && AllBounded(targets)
    requires |targets| <= MAX_TARGETS && RateOf(targets) <= MAX_TOTAL_PROBE_RATE
    requires ValidNodes(NodesOf(targets))
    requires forall id :: id in NodesOf(targets) ==> Depth(NodesOf(targets), id) <= MAX_DEPTH
    requires forall id :: id in NodesOf(targets) && Running(NodesOf(targets)[id]) ==>
      WithinLimits(LoadOf(NodesOf(targets), id))
    ensures Sound(targets)
  {
    hide Valid, ValidNodes, NodesOf, AllBounded, Depth, LoadOf, WithinLimits, RateOf, Running;
  }

  lemma SoundGives(targets: seq<Target>)
    requires Sound(targets)
    ensures Valid(targets) && AllBounded(targets)
  {
    hide Valid, AllBounded;
  }

  /** The probing schedule of a node, as the engine takes it from the resolved settings. */
  function SpecOf(nodes: Nodes, id: int): Schedule.Spec
    requires ValidNodes(nodes) && id in nodes
  {
    var c := ChainOf(nodes, id);
    Schedule.Spec(IntOf(nodes, c, IntervalS), IntOf(nodes, c, PingsPerInterval),
                  StrOf(nodes, c, ProbeMode) == "spread", IntOf(nodes, c, BurstGapMS))
  }

  lemma ResolvedIsBounded(targets: seq<Target>, id: int, f: IntField)
    requires Valid(targets) && AllBounded(targets) && id in NodesOf(targets) && f in DEFAULTED_INTS
    ensures var v := IntOf(NodesOf(targets), ChainOf(NodesOf(targets), id), f); IntValid(f, v) && Bounded(f, v)
  {
    var nodes := NodesOf(targets);
    ValidGives(targets);
    ResolvedIsValid(nodes, id, f);
    hide ValidNodes, NodesOf, Valid, ChainOf, IntOf, Bounded, IntValid;
    var v := IntOf(nodes, ChainOf(nodes, id), f);
    var n :| n in nodes && f in nodes[n].settings.ints && nodes[n].settings.ints[f] == v;
    var k := NodesOfSource(targets, n);
    assert f in targets[k].settings.ints;
  }

  /** In a sound tree every probe of every host is sent within the bucket it is measured in.. */
  lemma SoundProbesStayInTheirBucket(targets: seq<Target>, id: int, hash: Schedule.Hash, bucket: int, k: nat)
    requires Sound(targets) && id in NodesOf(targets) && NodesOf(targets)[id].host.Some?
    ensures Valid(targets)
    ensures var s := SpecOf(NodesOf(targets), id);
      && Schedule.Valid(s)
      && (k < s.pings ==>
        bucket * Schedule.SECOND <= Schedule.SendTime(s, hash, bucket, k) < (bucket + s.intervalS) * Schedule.SECOND)
  {
    SoundGives(targets);
    SpecIsValid(targets, id);
    hide Run, Sound, NodesOf, ValidNodes, SpecOf, Valid;
    if k < SpecOf(NodesOf(targets), id).pings {
      Schedule.SendTimesStayInTheBucket(SpecOf(NodesOf(targets), id), hash, bucket, k);
    }
  }

  /** .. so in every tree that such a run reaches. */
  lemma ReachableProbesStayInTheirBucket(states: seq<seq<Target>>, i: nat, id: int, hash: Schedule.Hash, bucket: int,
                                         k: nat)
    requires Run(states) && i < |states| && id in NodesOf(states[i]) && NodesOf(states[i])[id].host.Some?
    ensures Valid(states[i])
    ensures var s := SpecOf(NodesOf(states[i]), id);
      && Schedule.Valid(s)
      && (k < s.pings ==>
        bucket * Schedule.SECOND <= Schedule.SendTime(s, hash, bucket, k) < (bucket + s.intervalS) * Schedule.SECOND)
  {
    hide *;
    EveryRunIsSound(states, i);
    SoundProbesStayInTheirBucket(states[i], id, hash, bucket, k);
  }

  lemma SpecIsValid(targets: seq<Target>, id: int)
    requires Valid(targets) && AllBounded(targets) && id in NodesOf(targets) && NodesOf(targets)[id].host.Some?
    ensures Schedule.Valid(SpecOf(NodesOf(targets), id))
  {
    var nodes := NodesOf(targets);
    var c := ChainOf(nodes, id);
    ResolvedIsBounded(targets, id, IntervalS);
    ResolvedIsBounded(targets, id, PingsPerInterval);
    ResolvedIsBounded(targets, id, BurstGapMS);
    BurstFitsHost(nodes, id);
    ModeIsKnown(nodes, id);
    hide Valid, ValidNodes, NodesOf, ChainOf, IntOf, StrOf, AllBounded;
    var pings, gap := IntOf(nodes, c, PingsPerInterval), IntOf(nodes, c, BurstGapMS);
    ProductFits(pings, gap);
  }

  lemma ProductFits(pings: int, gap: int)
    requires 1 <= pings <= 1000 && 0 <= gap <= 600_000
    ensures 0 <= pings * gap <= 600_000_000
  {
    Arithmetic.MulMonotone(0, pings, gap);
    Arithmetic.MulMonotone(pings, 1000, gap);
  }

  lemma BurstFitsHost(nodes: Nodes, id: int)
    requires ValidNodes(nodes) && id in nodes && nodes[id].host.Some?
    ensures TimingFits(nodes, ChainOf(nodes, id))
  {
    hide TimingFits, FieldsValid, SiblingsDiffer, Complete;
    assert HostFine(nodes, id);
  }

  lemma ModeIsKnown(nodes: Nodes, id: int)
    requires ValidNodes(nodes) && id in nodes
    ensures StrOf(nodes, ChainOf(nodes, id), ProbeMode) in {"burst", "spread"}
  {
    hide HostFine, Complete, SiblingsDiffer, Lookup;
    var k := ResolveStr(nodes, id, ProbeMode);
    assert NodeFine(nodes, ChainOf(nodes, id)[k]);
  }
}
