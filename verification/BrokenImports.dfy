/** Two imports that break the tree they are checked against (`Apply` of internal/config/config.go): one cut off
    between its rows, and one whose rows are written over a host that was created meanwhile. */
module BrokenImports {
  import opened Options
  import opened Sets
  import opened Tree
  import opened TreeIndex
  import opened TreeLimits
  import opened TreeEdits
  import opened TreeRuns
  import opened ImportWrites
  import Config
  import ConfigTree
  import Text

  // ---------------------------------------------------------------- a root and a host

  /** The seeded root with a long burst gap, and a host below it, with and without an interval of its own. */
  const LONG_GAP: Target :=
    ROOT.(settings := ROOT.settings.(ints := ROOT.settings.ints[BurstGapMS := 5000]))

  const HOST: Target := Target(2, Some(1), "h", Some("192.0.2.1"), Some("v4"), None, None, false, true, 0,
                               Settings(map[], map[], map[]))

  const SLOW_HOST: Target := HOST.(settings := Settings(map[IntervalS := 120], map[], map[]))

  ghost predicate Pair(root: Target, host: Target) {
    && root in {ROOT, LONG_GAP} && host in {HOST, SLOW_HOST}
  }

  function PairNodes(root: Target, host: Target): Nodes { map[1 := root, 2 := host] }

  lemma PairIndex(root: Target, host: Target)
    requires Pair(root, host)
    ensures NodesOf([root, host]) == PairNodes(root, host) && UniqueIds([root, host])
    ensures RootChain(PairNodes(root, host), [1]) && RootChain(PairNodes(root, host), [2, 1])
    ensures Ancestry(PairNodes(root, host), 1) == Walked([1]) && Ancestry(PairNodes(root, host), 2) == Walked([2, 1])
  {
    NodesOfOneMore([root], host);
    NodesOfOneMore([], root);
    assert [root] + [host] == [root, host] && [] + [root] == [root];
    var nodes := PairNodes(root, host);
    AncestryIs(nodes, [1]);
    AncestryIs(nodes, [2, 1]);
  }

  lemma TwoLayers<K, V>(layers: seq<map<K, V>>, k: K)
    requires |layers| == 2
    ensures Lookup(layers, k) == if k in layers[0] then Some((layers[0][k], 0))
                                 else if k in layers[1] then Some((layers[1][k], 1)) else None
  {
    assert layers[1..] == [layers[1]] && layers[1..][1..] == [];
    assert Lookup(layers[1..][1..], k) == None;
    assert Lookup(layers[1..], k) == if k in layers[1] then Some((layers[1][k], 0)) else None;
  }

  lemma PairResolves(root: Target, host: Target, f: IntField)
    requires Pair(root, host) && f in DEFAULTED_INTS
    ensures f in root.settings.ints
    ensures IntOf(PairNodes(root, host), [2, 1], f)
         == if f in host.settings.ints then host.settings.ints[f] else root.settings.ints[f]
    ensures StrOf(PairNodes(root, host), [2, 1], ProbeMode) == "burst"
  {
    TwoLayers(IntLayers(PairNodes(root, host), [2, 1]), f);
    TwoLayers(StrLayers(PairNodes(root, host), [2, 1]), ProbeMode);
    hide Lookup;
  }

  lemma PairTiming(root: Target, host: Target)
    requires Pair(root, host)
    ensures TimingFits(PairNodes(root, host), [2, 1]) <==> !(root == LONG_GAP && host == HOST)
  {
    PairResolves(root, host, PingsPerInterval);
    PairResolves(root, host, BurstGapMS);
    PairResolves(root, host, IntervalS);
    hide IntOf, StrOf;
  }

  lemma OneIntMore(t: Target, f: IntField, v: int)
    requires FieldsValid(t) && IntValid(f, v)
    ensures FieldsValid(t.(settings := t.settings.(ints := t.settings.ints[f := v])))
  {
    hide IntValid, StrValid, Blank;
  }

  lemma PairFields(root: Target, host: Target)
    requires Pair(root, host)
    ensures FieldsValid(root) && FieldsValid(host) && Complete(root.settings)
  {
    SeedFields();
    assert FieldsValid(HOST) by { assert !Blank("h") by { assert !Space("h"[0]); } }
    assert SLOW_HOST == HOST.(settings := HOST.settings.(ints := HOST.settings.ints[IntervalS := 120]));
    hide FieldsValid;
    OneIntMore(ROOT, BurstGapMS, 5000);
    OneIntMore(HOST, IntervalS, 120);
  }

  /** Such a pair is a valid tree unless the burst outlasts the host's interval. */
  lemma PairIsValid(root: Target, host: Target)
    requires Pair(root, host)
    ensures Valid([root, host]) <==> !(root == LONG_GAP && host == HOST)
  {
    hide NodesOf, UniqueIds, Ancestry, FieldsValid, Complete, TimingFits;
    var nodes := PairNodes(root, host);
    PairIndex(root, host);
    PairFields(root, host);
    PairTiming(root, host);
    assert IsRoot(nodes, 1) && nodes[1] == root && nodes[2] == host;
    assert NodeFine(nodes, 1) && NodeFine(nodes, 2);
    assert HostFine(nodes, 1) && (HostFine(nodes, 2) <==> TimingFits(nodes, [2, 1]));
  }

  lemma LoadIsAlong(nodes: Nodes, id: int, c: seq<int>)
    requires ValidNodes(nodes) && id in nodes && ChainOf(nodes, id) == c
    ensures LoadOf(nodes, id) == LoadAlong(nodes, c) && Depth(nodes, id) == |c| - 1
  {
    hide ValidNodes, ChainOf, LoadAlong;
  }

  lemma PairValues(root: Target, host: Target)
    requires Pair(root, host)
    ensures {PingsPerInterval, PacketSize, IntervalS, TimeoutMS} <= root.settings.ints.Keys
    ensures root.settings.ints[PingsPerInterval] == 20 && root.settings.ints[PacketSize] == 56
    ensures root.settings.ints[IntervalS] == 60 && root.settings.ints[TimeoutMS] == 1000
    ensures host.settings.ints == if host == SLOW_HOST then map[IntervalS := 120] else map[]
    ensures !Running(root) && Running(host)
  {
  }

  lemma PairLoad(root: Target, host: Target)
    requires Pair(root, host) && ValidNodes(PairNodes(root, host))
    ensures LoadOf(PairNodes(root, host), 2) == Load(20, if host == SLOW_HOST then 120 else 60, 56, 1000)
    ensures Depth(PairNodes(root, host), 1) == 0 && Depth(PairNodes(root, host), 2) == 1
  {
    var nodes := PairNodes(root, host);
    assert nodes.Keys == {1, 2};
    hide *;
    PairValues(root, host);
    PairResolves(root, host, PingsPerInterval);
    PairResolves(root, host, PacketSize);
    PairResolves(root, host, IntervalS);
    PairResolves(root, host, TimeoutMS);
    PairChains(root, host);
    LoadIsAlong(nodes, 1, [1]);
    LoadIsAlong(nodes, 2, [2, 1]);
    AlongIs(nodes, [2, 1]);
  }

  lemma AlongIs(nodes: Nodes, c: seq<int>)
    requires forall i :: 0 <= i < |c| ==> c[i] in nodes
    ensures LoadAlong(nodes, c) == Load(IntOf(nodes, c, PingsPerInterval), IntOf(nodes, c, IntervalS),
                                        IntOf(nodes, c, PacketSize), IntOf(nodes, c, TimeoutMS))
  {
  }

  lemma PairChains(root: Target, host: Target)
    requires Pair(root, host) && ValidNodes(PairNodes(root, host))
    ensures ChainOf(PairNodes(root, host), 1) == [1] && ChainOf(PairNodes(root, host), 2) == [2, 1]
  {
    PairIndex(root, host);
    hide ValidNodes;
    ChainIs(PairNodes(root, host), 1, [1]);
    ChainIs(PairNodes(root, host), 2, [2, 1]);
  }

  lemma PairRate(root: Target, host: Target)
    requires Pair(root, host) && Valid([root, host]) && ValidNodes(PairNodes(root, host))
    ensures RateOf([root, host]) == ProbeRate(LoadOf(PairNodes(root, host), 2))
  {
    var nodes := PairNodes(root, host);
    PairIndex(root, host);
    ValidGives([root, host]);
    assert !Running(root) && Running(host);
    assert [root, host][..1] == [root] && [root][..0] == [];
    hide ValidNodes, NodesOf, Valid, LoadOf, ProbeRate;
    assert TotalRate(nodes, [root]) == 0.0;
  }

  lemma PairIsSound(root: Target, host: Target)
    requires Pair(root, host) && Valid([root, host])
    ensures Sound([root, host])
  {
    assert 2 <= MAX_TARGETS && 1 <= MAX_DEPTH;
    hide *;
    var nodes := PairNodes(root, host);
    PairIndex(root, host);
    ValidGives([root, host]);
    PairNodesAre(root, host);
    PairLoad(root, host);
    PairRate(root, host);
    PairValues(root, host);
    PairIsBounded(root, host);
    LoadsAreSmall();
    SoundIs([root, host]);
  }

  lemma PairNodesAre(root: Target, host: Target)
    ensures forall id :: id in PairNodes(root, host) <==> id == 1 || id == 2
    ensures PairNodes(root, host)[1] == root && PairNodes(root, host)[2] == host
  {
  }

  lemma LoadsAreSmall()
    ensures forall l :: l == Load(20, 60, 56, 1000) || l == Load(20, 120, 56, 1000) ==>
      Sane(l) && WithinLimits(l) && ProbeRate(l) <= MAX_TOTAL_PROBE_RATE
  {
  }

  lemma PairsDiffer()
    ensures ROOT != LONG_GAP && HOST != SLOW_HOST
  {
    assert ROOT.settings.ints[BurstGapMS] == 10 && LONG_GAP.settings.ints[BurstGapMS] == 5000;
    assert IntervalS in SLOW_HOST.settings.ints && IntervalS !in HOST.settings.ints;
  }

  lemma PairIsBounded(root: Target, host: Target)
    requires Pair(root, host)
    ensures AllBounded([root, host])
  {
  }

  lemma PairWritten()
    ensures var ws := Puts([LONG_GAP, SLOW_HOST]);
      WroteAll([ROOT, HOST], ws[..1]) == [LONG_GAP, HOST] && WroteAll([ROOT, HOST], ws) == [LONG_GAP, SLOW_HOST]
    ensures WroteAll([ROOT, HOST], Puts([LONG_GAP])) == [LONG_GAP, HOST]
  {
    TwoRows(ROOT, HOST, LONG_GAP, SLOW_HOST);
  }

  /** Two rows written over. */
  lemma TwoRows(a: Target, b: Target, c: Target, d: Target)
    requires a.id == c.id != b.id == d.id
    ensures var ws := Puts([c, d]);
      WroteAll([a, b], ws[..1]) == [c, b] && WroteAll([a, b], ws) == [c, d] && WroteAll([a, b], Puts([c])) == [c, b]
  {
    var ws := Puts([c, d]);
    assert ws[..1] == [] + [Put(c)] && ws == ws[..1] + [Put(d)] && Puts([c]) == ws[..1];
    assert [a, b] == [a] + [b] && [c, b] == [c] + [b] && [c, d] == [c] + [d] && [a] == [] + [a] && [c] == [] + [c];
    hide PutRow, WroteAll;
    PutRowLast([a], b, c);
    PutRowLast([], a, c);
    PutRowLast([c], b, d);
    WroteOneMore([a, b], [], Put(c));
    WroteOneMore([a, b], ws[..1], Put(d));
    WroteNothing([a, b]);
  }

  // ---------------------------------------------------------------- cut off

  /** A file that gives the root a long burst gap, and its host an interval to match. */
  const FILE: Config.File :=
    Config.File(Config.Values(map[BurstGapMS := 5000], map[], map[], None), map[],
                map["h" := Config.Entry(HOST.host, HOST.family, None, None, false, false, 0,
                                        Config.Values(map[IntervalS := 120], map[], map[], None), map[])])

  const IDS: ConfigTree.Ids := map["" := 1, "h" := 2]

  const ORDER: seq<string> := ["", "h"]

  function PairByPath(root: Target, host: Target): map<string, Config.Node> {
    map["" := ConfigTree.Described(root), "h" := ConfigTree.Described(host)]
  }

  lemma HIsAPath()
    ensures Config.GoodPath("h") && Config.ParentPath("h") == "" && Config.LastName("h") == "h"
    ensures Config.Ancestors("h") == {} && !Blank("h") && '/' !in "h"
  {
    assert Text.LastEnd("h", '/') == 0 by { assert "h"[..0] == ""; }
    assert !Space("h"[0]);
  }

  lemma PairPlans(root: Target, host: Target)
    requires Pair(root, host)
    ensures ConfigTree.Whole(PairByPath(root, host)) && ConfigTree.Numbered(PairByPath(root, host), IDS)
    ensures ConfigTree.Plans(PairByPath(root, host), IDS, "", PairNodes(root, host))
    ensures Lists(ORDER, PairByPath(root, host).Keys) && forall p :: p in ORDER ==> p in PairByPath(root, host)
    ensures ConfigTree.TargetsOf(PairByPath(root, host), IDS, "", ORDER) == [root, host]
  {
    var m := PairByPath(root, host);
    PairIsWhole(root, host);
    hide *;
    PairTargets(root, host);
    PairNodesAre(root, host);
    PlansFrom(m, PairNodes(root, host), root, host);
    TargetsFrom(m, root, host);
  }

  lemma PairIsWhole(root: Target, host: Target)
    ensures var m := PairByPath(root, host);
      && ConfigTree.Whole(m) && ConfigTree.Numbered(m, IDS) && m.Keys == {"", "h"} && IDS.Keys == {"", "h"}
      && IDS[""] == 1 && IDS["h"] == 2
      && Lists(ORDER, m.Keys) && forall p :: p in ORDER ==> p in m
    ensures Config.ParentPath("h") == ""
  {
    HIsAPath();
    hide Config.GoodPath, Config.ParentPath, Config.LastName, ConfigTree.Described;
  }

  lemma PairTargets(root: Target, host: Target)
    requires Pair(root, host) && Config.ParentPath("h") == ""
    ensures ConfigTree.TargetAt(PairByPath(root, host), IDS, "", "") == root
    ensures ConfigTree.TargetAt(PairByPath(root, host), IDS, "", "h") == host
  {
    HIsAPath();
    hide Config.GoodPath, Config.ParentPath, Config.LastName;
  }

  lemma PlansFrom(m: map<string, Config.Node>, nodes: Nodes, root: Target, host: Target)
    requires ConfigTree.Whole(m) && ConfigTree.Numbered(m, IDS) && m.Keys == {"", "h"} && IDS.Keys == {"", "h"}
    requires IDS[""] == 1 && IDS["h"] == 2 && Config.ParentPath("h") == ""
    requires (forall id :: id in nodes <==> id == 1 || id == 2) && nodes[1] == root && nodes[2] == host
    requires ConfigTree.TargetAt(m, IDS, "", "") == root && ConfigTree.TargetAt(m, IDS, "", "h") == host
    ensures ConfigTree.Plans(m, IDS, "", nodes)
  {
    hide ConfigTree.Whole, ConfigTree.Numbered, ConfigTree.TargetAt, Config.ParentPath;
    forall p | p in m ensures IDS[p] in nodes && nodes[IDS[p]] == ConfigTree.TargetAt(m, IDS, "", p) {
      assert p == "" || p == "h";
    }
    forall id | id in nodes ensures exists p :: p in m && IDS[p] == id {
      assert IDS[if id == 1 then "" else "h"] == id;
    }
  }

  lemma TargetsFrom(m: map<string, Config.Node>, root: Target, host: Target)
    requires ConfigTree.Whole(m) && ConfigTree.Numbered(m, IDS) && m.Keys == {"", "h"} && IDS.Keys == {"", "h"}
    requires Config.ParentPath("h") == "" && forall p :: p in ORDER ==> p in m
    requires ConfigTree.TargetAt(m, IDS, "", "") == root && ConfigTree.TargetAt(m, IDS, "", "h") == host
    ensures ConfigTree.TargetsOf(m, IDS, "", ORDER) == [root, host]
  {
    hide ConfigTree.Whole, ConfigTree.Numbered, ConfigTree.TargetAt, Config.ParentPath;
  }

  /** What the file makes of the pair. */
  lemma FileMakes()
    ensures "" in PairByPath(ROOT, HOST)
    ensures Config.SyncedNodes(PairByPath(ROOT, HOST), FILE, false) == PairByPath(LONG_GAP, SLOW_HOST)
  {
    FileKeeps();
    RootOverlaid();
    HostFrom();
    hide *;
    PairByPathIs(ROOT, HOST);
    PairByPathIs(LONG_GAP, SLOW_HOST);
    SameRoot();
    SyncedPair(PairByPath(ROOT, HOST), PairByPath(LONG_GAP, SLOW_HOST));
  }

  lemma FileKeeps()
    ensures Config.Keep(FILE.targets) == {"", "h"} && FILE.targets.Keys == {"h"}
  {
    HIsAPath();
    Config.EntriesAreKept(FILE.targets);
    Config.RootIsKept(FILE.targets);
    assert Config.UpTo("h") == {"h"};
    hide Config.ParentPath;
  }

  lemma PairByPathIs(root: Target, host: Target)
    ensures var m := PairByPath(root, host);
      m.Keys == {"", "h"} && m[""] == ConfigTree.Described(root) && m["h"] == ConfigTree.Described(host)
  {
  }

  lemma SameRoot()
    ensures ConfigTree.Described(LONG_GAP) == ConfigTree.Described(ROOT).(settings := LONG_GAP.settings)
    ensures ConfigTree.Described(ROOT).settings == ROOT.settings
  {
  }

  lemma SyncedPair(m: map<string, Config.Node>, next: map<string, Config.Node>)
    requires m.Keys == next.Keys == {"", "h"} && Config.Keep(FILE.targets) == {"", "h"} && FILE.targets.Keys == {"h"}
    requires next[""] == m[""].(settings := Config.Overlaid(m[""].settings, FILE.defaults))
    requires next["h"] == Config.NodeOf(FILE.targets["h"])
    ensures "" in m && Config.SyncedNodes(m, FILE, false) == next
  {
    hide Config.Keep, Config.Overlaid, Config.NodeOf;
    var s := Config.SyncedNodes(m, FILE, false);
    assert s.Keys == next.Keys;
    assert s[""] == next[""] && s["h"] == next["h"];
    forall p | p in next ensures s[p] == next[p] {
      assert p == "" || p == "h";
    }
  }

  lemma RootOverlaid()
    ensures Config.Overlaid(ROOT.settings, FILE.defaults) == LONG_GAP.settings
  {
    var s := Config.SettingsOf(FILE.defaults);
    assert s == Settings(map[BurstGapMS := 5000], map[], map[]);
    assert ROOT.settings.ints + s.ints == LONG_GAP.settings.ints;
    assert ROOT.settings.strs + s.strs == ROOT.settings.strs;
    assert ROOT.settings.bools + s.bools == ROOT.settings.bools;
  }

  lemma HostFrom()
    ensures Config.NodeOf(FILE.targets["h"]) == ConfigTree.Described(SLOW_HOST)
  {
    assert Config.SettingsOf(FILE.targets["h"].values) == SLOW_HOST.settings;
  }

  lemma FileIsValid()
    ensures Config.ValidFile(FILE)
  {
    hide *;
    FileParts();
    HIsAPath();
    HostIsValid();
    Config.ValidFileIs(FILE);
  }

  lemma FileParts()
    ensures FILE.targets.Keys == {"h"} && Config.AlertsValid(FILE.defaultAlerts) && Config.SingleNames(FILE.defaults)
    ensures Config.AlertsValid(FILE.targets["h"].alerts) && Config.SingleNames(FILE.targets["h"].values)
    ensures Config.GoodPaths(FILE.targets)
  {
    HIsAPath();
    hide Config.GoodPath;
  }

  lemma HostIsValid()
    ensures Config.EntryValid("h", FILE.targets["h"])
  {
    var t := Target(0, Some(1), "h", HOST.host, HOST.family, None, None, false, false, 0, SLOW_HOST.settings);
    SameFields(SLOW_HOST, t);
    PairFields(ROOT, SLOW_HOST);
    HIsAPath();
    assert Config.SettingsOf(FILE.targets["h"].values) == SLOW_HOST.settings;
    hide FieldsValid, Config.GoodPath, Config.ParentPath, Config.LastName, Config.SettingsOf;
  }

  lemma SameFields(t: Target, u: Target)
    requires t.parent.Some? && u == t.(id := u.id, parent := u.parent, enabled := u.enabled) && u.parent.Some?
    ensures FieldsValid(u) == FieldsValid(t)
  {
  }

  lemma NamesAreKnown(known: set<string>)
    requires "local" in known
    ensures ConfigTree.AgentsKnown(PairByPath(LONG_GAP, SLOW_HOST), FILE, known)
  {
    assert Config.Fields("local") == ["local"] by {
      assert forall i :: 0 <= i < |"local"| ==> !Space("local"[i]);
      Config.FieldsOfWord("local", "");
      assert "" + "local" == "local";
    }
    hide Config.Fields;
  }

  lemma FileIsAdmissible(known: set<string>)
    requires "local" in known
    ensures Valid([ROOT, HOST]) && ConfigTree.Admissible([ROOT, HOST], FILE, false, known, false)
    ensures ConfigTree.Whole(PairByPath(LONG_GAP, SLOW_HOST))
    ensures ConfigTree.ReadNodes(NodesOf([ROOT, HOST])) == PairByPath(ROOT, HOST)
    ensures ConfigTree.Stores([ROOT, HOST], PairByPath(LONG_GAP, SLOW_HOST), [LONG_GAP, SLOW_HOST])
  {
    hide *;
    PairsAreKnown();
    PairsDiffer();
    PairIsValid(ROOT, HOST);
    PairIsValid(LONG_GAP, SLOW_HOST);
    var m, nodes, stored := PairByPath(LONG_GAP, SLOW_HOST), PairNodes(ROOT, HOST), [LONG_GAP, SLOW_HOST];
    PairIndex(ROOT, HOST);
    ConfigTree.ValidIndex([ROOT, HOST]);
    PairPlans(ROOT, HOST);
    PairPlans(LONG_GAP, SLOW_HOST);
    ConfigTree.PlanReadsBack(PairByPath(ROOT, HOST), IDS, "", nodes);
    ConfigTree.PlanFitsItself(PairByPath(ROOT, HOST), IDS, "", nodes);
    SamePathsFit(nodes, PairByPath(ROOT, HOST), m);
    PairIsSound(LONG_GAP, SLOW_HOST);
    SoundPasses([ROOT, HOST], stored);
    PassesThere(m, stored);
    FileMakes();
    NamesAreKnown(known);
    ConfigTree.AdmissibleIs([ROOT, HOST], FILE, false, known, false);
  }

  lemma PairsAreKnown()
    ensures Pair(ROOT, HOST) && Pair(LONG_GAP, SLOW_HOST) && Pair(LONG_GAP, HOST)
    ensures PairByPath(ROOT, HOST).Keys == PairByPath(LONG_GAP, SLOW_HOST).Keys
    ensures "" in PairByPath(ROOT, HOST)
  {
  }

  lemma SamePathsFit(nodes: Nodes, m: map<string, Config.Node>, other: map<string, Config.Node>)
    requires ValidNodes(nodes) && ConfigTree.Fits(nodes, m, IDS) && m.Keys == other.Keys
    ensures ConfigTree.Fits(nodes, other, IDS)
  {
    hide ValidNodes, ConfigTree.KeyFor, ConfigTree.ReadNodes;
  }

  lemma PassesThere(m: map<string, Config.Node>, stored: seq<Target>)
    requires Valid([ROOT, HOST]) && ConfigTree.Whole(m) && Checked([ROOT, HOST], stored)
    requires ValidNodes(NodesOf([ROOT, HOST])) && ConfigTree.Fits(NodesOf([ROOT, HOST]), m, IDS)
    requires Lists(ORDER, m.Keys) && ConfigTree.Numbered(m, IDS) && forall p :: p in ORDER ==> p in m
    requires ConfigTree.RootName(NodesOf([ROOT, HOST])) == "" && ConfigTree.TargetsOf(m, IDS, "", ORDER) == stored
    ensures ConfigTree.Passes([ROOT, HOST], m) && ConfigTree.Stores([ROOT, HOST], m, stored)
  {
    hide Valid, Checked, ConfigTree.Fits, NodesOf, ConfigTree.TargetsOf, ConfigTree.RootName, ConfigTree.Whole,
         ValidNodes;
    assert ConfigTree.PassesAs([ROOT, HOST], m, IDS, ORDER);
    assert ConfigTree.StoresAs([ROOT, HOST], m, stored, IDS, ORDER);
  }

  /** A sound tree, a file that is accepted for it, and the rows it comes to, the root's first: after that one
      the tree is not valid, and every read of it fails until the rest is written. */
  lemma CutOffImportBreaksTheTree(known: set<string>)
    requires "local" in known
    ensures Sound([ROOT, HOST]) && Config.ValidFile(FILE)
    ensures ConfigTree.Admissible([ROOT, HOST], FILE, false, known, false)
    ensures ConfigTree.Whole(PairByPath(LONG_GAP, SLOW_HOST)) && "" in PairByPath(ROOT, HOST)
    ensures Config.SyncedNodes(ConfigTree.ReadNodes(NodesOf([ROOT, HOST])), FILE, false)
         == PairByPath(LONG_GAP, SLOW_HOST)
    ensures ConfigTree.Stores([ROOT, HOST], PairByPath(LONG_GAP, SLOW_HOST), [LONG_GAP, SLOW_HOST])
    ensures var ws := Puts([LONG_GAP, SLOW_HOST]);
      && !Valid(WroteAll([ROOT, HOST], ws[..1])) && Sound(WroteAll([ROOT, HOST], ws))
  {
    hide *;
    PairsAreKnown();
    PairsDiffer();
    PairIsValid(ROOT, HOST);
    PairIsValid(LONG_GAP, SLOW_HOST);
    PairIsValid(LONG_GAP, HOST);
    PairIsSound(ROOT, HOST);
    PairIsSound(LONG_GAP, SLOW_HOST);
    PairWritten();
    FileIsValid();
    FileIsAdmissible(known);
    FileMakes();
  }

  // ---------------------------------------------------------------- raced

  /** An import of a long gap, and the creation of a host, each accepted over the same tree: whichever order they
      are decided in, the import's row written last leaves a tree that is not valid. */
  lemma RacedImportBreaksTheTree()
    ensures Checked([ROOT], [LONG_GAP]) && Created([ROOT], HOST, [ROOT, HOST])
    ensures !Valid(WroteAll([ROOT, HOST], Puts([LONG_GAP])))
  {
    hide *;
    PairsAreKnown();
    PairsDiffer();
    PairIsValid(ROOT, HOST);
    PairIsValid(LONG_GAP, HOST);
    PairIsSound(ROOT, HOST);
    SeedIsSound();
    SoundPasses([ROOT], [ROOT, HOST]);
    CheckedIs([ROOT], [ROOT, HOST]);
    HostIsCreated();
    LongGapIsSound();
    SoundPasses([ROOT], [LONG_GAP]);
    PairWritten();
  }

  lemma HostIsCreated()
    requires Accepted([ROOT], [ROOT, HOST]) && Sound([ROOT])
    ensures Created([ROOT], HOST, [ROOT, HOST])
  {
    SoundGives([ROOT]);
    hide Valid, Sound, Accepted;
    assert MaxId([ROOT]) == 1 by { assert [ROOT][..0] == []; }
    assert HOST.(id := 2) == HOST && [ROOT] + [HOST] == [ROOT, HOST];
    assert CheckLimits(None, HOST) && Free([ROOT], HOST.id);
  }

  lemma CheckedIs(current: seq<Target>, planned: seq<Target>)
    requires Checked(current, planned)
    ensures Accepted(current, planned)
  {
    hide CheckLimits, Accepted;
  }

  lemma LongGapIsSound()
    ensures Sound([LONG_GAP])
  {
    LongGapIsLone();
    hide Lone, Sound;
    LoneIsSound(LONG_GAP);
  }

  lemma LongGapIsLone()
    ensures Lone(LONG_GAP)
  {
    PairFields(LONG_GAP, HOST);
    SeedFields();
    hide FieldsValid, Complete, Bounded;
    assert Bounded(BurstGapMS, 5000) by { BurstGapIsBounded(); }
  }

  lemma BurstGapIsBounded()
    ensures Bounded(BurstGapMS, 5000)
  {
  }
}
