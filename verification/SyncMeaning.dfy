/** What an import does to each node and each rule (internal/config/config.go `Apply`), said of the database before
    and after it: what is in the file, what the file implies, and what it leaves out. */
module SyncMeaning {
  import opened Options
  import opened Tree
  import opened Config
  import Text

  // ---------------------------------------------------------------- what a file keeps

  /** The path itself, or something below it. */
  predicate Under(e: string, p: string) { e == p || (|p| < |e| && e[..|p|] == p && e[|p|] == '/') }

  /** The root, the entries of the file, and everything above them. */
  ghost predicate KeptBy(f: File, p: string) { p == "" || exists e :: e in f.targets && Under(e, p) }

  lemma {:induction false} NoSlashLater(p: string)
    ensures var e := Text.LastEnd(p, '/'); forall i :: e <= i < |p| ==> p[i] != '/'
  {
    if p != "" && p[|p| - 1] != '/' {
      NoSlashLater(p[..|p| - 1]);
    }
  }

  lemma ParentIs(p: string)
    requires GoodPath(p)
    ensures var parent := ParentPath(p);
      if parent == "" then '/' !in p
      else GoodPath(parent) && |parent| < |p| && p[..|parent|] == parent && p[|parent|] == '/'
           && forall i :: |parent| < i < |p| ==> p[i] != '/'
  {
    ParentPathIsAbove(p);
    LastEndIsASlash(p);
    NoSlashLater(p);
  }

  lemma {:induction false} AncestorsAreAbove(p: string, q: string)
    requires GoodPath(p) && q != ""
    ensures q in UpTo(p) <==> Under(p, q)
    decreases |p|
  {
    ParentIs(p);
    var parent := ParentPath(p);
    if parent != "" {
      AncestorsAreAbove(parent, q);
      UnderParent(p, parent, q);
      hide GoodPath, Under;
    } else {
      NothingAbove(p, q);
    }
  }

  lemma NothingAbove(p: string, q: string)
    requires '/' !in p
    ensures Under(p, q) <==> q == p
  {
  }

  lemma UnderParent(p: string, parent: string, q: string)
    requires |parent| < |p| && p[..|parent|] == parent && p[|parent|] == '/'
    requires forall i :: |parent| < i < |p| ==> p[i] != '/'
    ensures Under(p, q) <==> q == p || Under(parent, q)
  {
    if Under(p, q) && q != p {
      assert |q| <= |parent|;
      if |q| < |parent| {
        assert parent[..|q|] == p[..|q|] && parent[|q|] == p[|q|];
      }
    }
    if Under(parent, q) && q != parent {
      assert parent[..|q|] == p[..|q|] && parent[|q|] == p[|q|];
    }
  }

  lemma KeepIs(f: File, p: string)
    requires GoodPaths(f.targets)
    ensures p in Keep(f.targets) <==> KeptBy(f, p)
  {
    hide GoodPath, Under, UpTo;
    if p != "" {
      forall e | e in f.targets ensures p in UpTo(e) <==> Under(e, p) {
        AncestorsAreAbove(e, p);
      }
    }
  }

  // ---------------------------------------------------------------- the nodes

  /** As the entry says; what it does not set is inherited. */
  ghost predicate AsEntered(e: Entry, n: Node) {
    && n.host == e.host && n.family == e.family && n.title == e.title && n.notes == e.notes && n.hidden == e.hidden
    && n.enabled == !e.disabled && n.sortOrder == e.sortOrder
    && n.settings.ints == e.values.ints && n.settings.bools == e.values.bools
    && (forall s :: s != Agents ==> (s in n.settings.strs <==> s in e.values.strs))
    && (forall s :: s != Agents && s in n.settings.strs ==> n.settings.strs[s] == e.values.strs[s])
    && (Agents in n.settings.strs <==> e.values.agents.Some?)
    && (e.values.agents.Some? ==> n.settings.strs[Agents] == Text.Join(e.values.agents.value, " "))
  }

  /** What is given is overwritten, the rest stays. */
  ghost predicate Laid<K(!new), V>(was: map<K, V>, given: map<K, V>, after: map<K, V>) {
    && (forall k :: k in after <==> k in given || k in was)
    && (forall k :: k in after ==> after[k] == if k in given then given[k] else was[k])
  }

  /** The root keeps what the file does not give. */
  ghost predicate RootAsGiven(was: Node, v: Values, n: Node) {
    && n == was.(settings := n.settings)
    && Laid(was.settings.ints, v.ints, n.settings.ints) && Laid(was.settings.bools, v.bools, n.settings.bools)
    && Laid(was.settings.strs - {Agents}, v.strs - {Agents}, n.settings.strs - {Agents})
    && (Agents in n.settings.strs <==> v.agents.Some? || Agents in was.settings.strs)
    && (Agents in n.settings.strs ==> n.settings.strs[Agents] == AgentsAsGiven(was, v))
  }

  function AgentsAsGiven(was: Node, v: Values): string
    requires v.agents.Some? || Agents in was.settings.strs
  {
    if v.agents.Some? then Text.Join(v.agents.value, " ") else was.settings.strs[Agents]
  }

  /** A group that sets nothing. */
  ghost predicate Bare(n: Node) {
    && n.host == None && n.family == None && n.title == None && n.notes == None && !n.hidden && n.enabled
    && n.sortOrder == 0 && n.settings.ints == map[] && n.settings.strs == map[] && n.settings.bools == map[]
  }

  ghost predicate NodeAfter(db: Db, f: File, p: string, n: Node) {
    if p == "" then p in db.nodes && RootAsGiven(db.nodes[p], f.defaults, n)
    else if p in f.targets then AsEntered(f.targets[p], n)
    else if KeptBy(f, p) then (if p in db.nodes then n == db.nodes[p] else Bare(n))
    else p in db.nodes && n == db.nodes[p].(enabled := false)
  }

  /** Each node after an import: the root with the file's defaults, an entry as the file has it, what lies above one as
      it was, or new and bare; and everything else gone, when pruning, or as it was and disabled. */
  lemma NodesAfter(db: Db, f: File, prune: bool, p: string)
    requires WellFormed(db) && GoodPaths(f.targets)
    ensures var next := Synced(db, f, prune);
      && (p in next.nodes <==> KeptBy(f, p) || (p in db.nodes && !prune))
      && (p in next.nodes ==> NodeAfter(db, f, p, next.nodes[p]))
  {
    assert "" in db.nodes && "" !in f.targets;
    SyncedIs(db, f, prune);
    IsSynced(db.nodes, f, prune, p);
    KeepIs(f, p);
    hide Synced;
    if p in SyncedNodes(db.nodes, f, prune) {
      OneNodeAfter(db, f, prune, p);
    }
  }

  lemma OneNodeAfter(db: Db, f: File, prune: bool, p: string)
    requires WellFormed(db) && "" !in f.targets && p in SyncedNodes(db.nodes, f, prune)
    requires p in Keep(f.targets) <==> KeptBy(f, p)
    ensures NodeAfter(db, f, p, SyncedNodes(db.nodes, f, prune)[p])
  {
    hide Keep, KeptBy, NodeOf, Overlaid, AsEntered, RootAsGiven, Bare, GoodPath, ParentPath;
    if p == "" {
      RootGiven(db.nodes[p], f.defaults);
    } else if p in f.targets {
      Entered(f.targets[p]);
    }
    assert Bare(GROUP) by { GroupIsBare(); }
  }

  lemma GroupIsBare()
    ensures Bare(GROUP)
  {
  }

  lemma Entered(e: Entry)
    ensures AsEntered(e, NodeOf(e))
  {
    hide Text.Join;
  }

  lemma PlusIsLaid<K(!new), V>(was: map<K, V>, given: map<K, V>)
    ensures Laid(was, given, was + given)
  {
  }

  lemma RootGiven(was: Node, v: Values)
    ensures RootAsGiven(was, v, was.(settings := Overlaid(was.settings, v)))
  {
    PlusIsLaid(was.settings.ints, v.ints);
    PlusIsLaid(was.settings.bools, v.bools);
    PlusIsLaid(was.settings.strs - {Agents}, v.strs - {Agents});
    AgentsLaid(was, v);
    hide Laid, Text.Join;
  }

  lemma WithoutKey<K(!new), V>(was: map<K, V>, given: map<K, V>, x: K, more: map<K, V>)
    requires more.Keys <= {x}
    ensures var all := was + ((given - {x}) + more);
      && all - {x} == (was - {x}) + (given - {x})
      && (x in all <==> x in more || x in was) && (x in all ==> all[x] == if x in more then more[x] else was[x])
  {
    var all := was + ((given - {x}) + more);
    forall k ensures k in all - {x} <==> k in (was - {x}) + (given - {x}) {
    }
    assert forall k :: k in all - {x} ==> (all - {x})[k] == ((was - {x}) + (given - {x}))[k];
  }

  lemma AgentsLaid(was: Node, v: Values)
    ensures var strs := Overlaid(was.settings, v).strs;
      && strs - {Agents} == (was.settings.strs - {Agents}) + (v.strs - {Agents})
      && (Agents in strs <==> v.agents.Some? || Agents in was.settings.strs)
      && (Agents in strs ==> strs[Agents] == AgentsAsGiven(was, v))
  {
    var more: map<StrField, string> := if v.agents.Some? then map[Agents := Text.Join(v.agents.value, " ")] else map[];
    WithoutKey(was.settings.strs, v.strs, Agents, more);
    assert Overlaid(was.settings, v).strs == was.settings.strs + ((v.strs - {Agents}) + more);
    hide Text.Join, Overlaid;
  }

  // ---------------------------------------------------------------- the rules

  /** The rule that the file gives a node under a name. */
  ghost function Given(f: File, k: RuleKey): Option<AlertRule> {
    var alerts := if k.0 == "" then f.defaultAlerts else if k.0 in f.targets then f.targets[k.0].alerts else map[];
    if k.1 in alerts then Some(alerts[k.1]) else None
  }

  /** As the file says, with three intervals to fire and to clear and a warning where it says nothing. */
  ghost predicate AsRuled(a: AlertRule, r: Rule) {
    && r.metric == a.metric && r.op == a.op && r.threshold == a.threshold && r.mode == a.mode
    && r.baseline == a.baseline && r.enabled == !a.disabled
    && r.forIntervals == (if a.forIntervals == 0 then 3 else a.forIntervals)
    && r.clearFor == (if a.clearFor == 0 then 3 else a.clearFor)
    && r.severity == (if a.severity == "" then "warning" else a.severity)
  }

  lemma WantedIs(f: File, k: RuleKey)
    requires "" !in f.targets
    ensures k in WantedKeys(f) <==> Given(f, k).Some?
    ensures k in WantedKeys(f) ==> AsRuled(Given(f, k).value, Wanted(f, k))
  {
    assert k == (k.0, k.1);
  }

  /** Each rule after an import: as the file has it; and every other gone, when pruning or with its node, or as it was
      and disabled. */
  lemma RulesAfter(db: Db, f: File, prune: bool, k: RuleKey)
    requires WellFormed(db) && GoodPaths(f.targets)
    ensures var next, given := Synced(db, f, prune), Given(f, k);
      && (k in next.rules <==> given.Some? || (k in db.rules && !prune))
      && (given.Some? ==> AsRuled(given.value, next.rules[k]))
      && (given.None? && k in next.rules ==> next.rules[k] == db.rules[k].(enabled := false))
  {
    assert "" in db.nodes && "" !in f.targets;
    SyncedIs(db, f, prune);
    WantedIs(f, k);
    if k in db.rules {
      assert k.0 in db.nodes;
      IsSynced(db.nodes, f, prune, k.0);
    }
    hide Synced, SyncedNodes, Wanted, WantedKeys, Given, AsRuled, Keep, GoodPath, ParentPath;
  }

  // ---------------------------------------------------------------- the summary

  ghost function Changed(db: Db, next: Db, paths: set<string>): set<string> {
    set p | p in paths && p in db.nodes && p in next.nodes && db.nodes[p] != next.nodes[p]
  }

  ghost function RulesChanged(db: Db, next: Db, keys: set<RuleKey>): set<RuleKey> {
    set k | k in keys && k in db.rules && k in next.rules && db.rules[k] != next.rules[k]
  }

  ghost function GivenKeys(f: File): set<RuleKey> {
    (set name | name in f.defaultAlerts :: ("", name))
    + (set p, name | p in f.targets && name in f.targets[p].alerts :: (p, name))
  }

  /** What an import reports is the difference between the databases: the nodes and rules that are new, those of the
      file that changed, those not of the file that changed, and those that are gone. */
  lemma SummaryIsTheDifference(db: Db, f: File, prune: bool)
    requires WellFormed(db) && GoodPaths(f.targets)
    ensures "" in db.nodes && "" !in f.targets
    ensures var next, s := Synced(db, f, prune), SummaryOf(db, f, prune);
      && s.created == |next.nodes.Keys - db.nodes.Keys| && s.deleted == |db.nodes.Keys - next.nodes.Keys|
      && s.updated == |Changed(db, next, f.targets.Keys)|
      && s.disabled == |Changed(db, next, set p | p in db.nodes && !KeptBy(f, p))|
      && s.rulesCreated == |next.rules.Keys - db.rules.Keys|
      && s.rulesDeleted == |db.rules.Keys - next.rules.Keys|
      && s.rulesUpdated == |RulesChanged(db, next, GivenKeys(f))|
      && s.rulesDisabled == |RulesChanged(db, next, db.rules.Keys - GivenKeys(f))|
  {
    assert "" in db.nodes && "" !in f.targets;
    hide *;
    NodesCounted(db, f, prune);
    RulesCounted(db, f, prune);
  }

  lemma NodesCounted(db: Db, f: File, prune: bool)
    requires WellFormed(db) && GoodPaths(f.targets) && "" in db.nodes && "" !in f.targets
    ensures var next, s := Synced(db, f, prune), SummaryOf(db, f, prune);
      && s.created == |next.nodes.Keys - db.nodes.Keys| && s.deleted == |db.nodes.Keys - next.nodes.Keys|
      && s.updated == |Changed(db, next, f.targets.Keys)|
      && s.disabled == |Changed(db, next, set p | p in db.nodes && !KeptBy(f, p))|
  {
    hide *;
    var next := Synced(db, f, prune);
    SyncedIs(db, f, prune);
    NodesReported(db, f, prune);
    RootIsKept(f.targets);
    EntriesAreKept(f.targets);
    forall p
      ensures p in next.nodes <==> (p in db.nodes || p in Keep(f.targets)) && (prune ==> p in Keep(f.targets))
      ensures p in Keep(f.targets) <==> KeptBy(f, p)
      ensures p in next.nodes && p in f.targets ==> next.nodes[p] == NodeOf(f.targets[p])
      ensures p in next.nodes && p !in Keep(f.targets) ==>
        p in db.nodes && next.nodes[p] == db.nodes[p].(enabled := false)
    {
      IsSynced(db.nodes, f, prune, p);
      KeepIs(f, p);
      NodeValue(db, f, prune, p);
    }
    KeySets(db.nodes.Keys, next.nodes.Keys, Keep(f.targets), prune);
    UpdatedAre(db, f, next);
    DisabledAre(db, f, next, prune);
  }

  lemma NodeValue(db: Db, f: File, prune: bool, p: string)
    requires "" in db.nodes && "" !in f.targets
    ensures var next := SyncedNodes(db.nodes, f, prune);
      && (p in next && p in f.targets ==> next[p] == NodeOf(f.targets[p]))
      && (p in next && p !in Keep(f.targets) ==> p in db.nodes && next[p] == db.nodes[p].(enabled := false))
  {
    RootIsKept(f.targets);
    EntriesAreKept(f.targets);
    hide Keep, NodeOf, Overlaid;
  }

  lemma NodesReported(db: Db, f: File, prune: bool)
    requires "" in db.nodes && "" !in f.targets
    ensures var s := SummaryOf(db, f, prune);
      && s.created == |Keep(f.targets) - db.nodes.Keys| && s.updated == |Updated(db.nodes, f.targets)|
      && s.disabled == (if prune then 0 else |Enabled(db.nodes, db.nodes.Keys - Keep(f.targets))|)
      && s.deleted == (if prune then |db.nodes.Keys - Keep(f.targets)| else 0)
  {
    hide Keep, Updated, Enabled, WantedKeys, SyncedNodes, RulesLeft;
  }

  lemma KeySets<T>(before: set<T>, next: set<T>, keep: set<T>, prune: bool)
    requires forall p :: p in next <==> (p in before || p in keep) && (prune ==> p in keep)
    ensures next - before == keep - before && before - next == if prune then before - keep else {}
  {
  }

  lemma UpdatedAre(db: Db, f: File, next: Db)
    requires forall p :: p in f.targets ==> p in next.nodes && next.nodes[p] == NodeOf(f.targets[p])
    ensures Changed(db, next, f.targets.Keys) == Updated(db.nodes, f.targets)
  {
    hide NodeOf;
  }

  lemma DisabledAre(db: Db, f: File, next: Db, prune: bool)
    requires forall p :: p in db.nodes && !KeptBy(f, p) ==>
      if prune then p !in next.nodes else p in next.nodes && next.nodes[p] == db.nodes[p].(enabled := false)
    requires forall p :: p in Keep(f.targets) <==> KeptBy(f, p)
    ensures var gone := set p | p in db.nodes && !KeptBy(f, p);
      Changed(db, next, gone) == if prune then {} else Enabled(db.nodes, db.nodes.Keys - Keep(f.targets))
  {
    hide Keep, KeptBy;
  }

  lemma RulesCounted(db: Db, f: File, prune: bool)
    requires WellFormed(db) && GoodPaths(f.targets) && "" in db.nodes && "" !in f.targets
    ensures var next, s := Synced(db, f, prune), SummaryOf(db, f, prune);
      && s.rulesCreated == |next.rules.Keys - db.rules.Keys|
      && s.rulesDeleted == |db.rules.Keys - next.rules.Keys|
      && s.rulesUpdated == |RulesChanged(db, next, GivenKeys(f))|
      && s.rulesDisabled == |RulesChanged(db, next, db.rules.Keys - GivenKeys(f))|
  {
    hide *;
    var next, wanted := Synced(db, f, prune), WantedKeys(f);
    var left := RulesLeft(db.rules, SyncedNodes(db.nodes, f, prune));
    SyncedIs(db, f, prune);
    RulesReported(db, f, prune);
    GivenAreWanted(f);
    forall k | k in db.rules
      ensures k in wanted || !prune ==> k in left
      ensures k in left ==> left[k] == db.rules[k]
    {
      RuleLeft(db, f, prune, k);
    }
    LeftAreOld(db.rules, SyncedNodes(db.nodes, f, prune));
    forall k
      ensures k in next.rules <==> (k in left || k in wanted) && (k in wanted || !prune)
      ensures k in wanted ==> next.rules[k] == Wanted(f, k)
      ensures k in next.rules && k !in wanted ==> k in left && next.rules[k] == left[k].(enabled := false)
    {
      RuleValue(left, f, prune, k);
    }
    RuleSets(db.rules.Keys, left.Keys, next.rules.Keys, wanted, prune);
    RulesUpdatedAre(db, f, left, next);
    RulesDisabledAre(db, f, left, next, prune);
  }

  lemma GivenAreWanted(f: File)
    ensures GivenKeys(f) == WantedKeys(f)
  {
  }

  lemma RuleLeft(db: Db, f: File, prune: bool, k: RuleKey)
    requires WellFormed(db) && GoodPaths(f.targets) && "" in db.nodes && k in db.rules
    ensures var left := RulesLeft(db.rules, SyncedNodes(db.nodes, f, prune));
      && (k in WantedKeys(f) || !prune ==> k in left) && (k in left ==> left[k] == db.rules[k])
  {
    assert k.0 in db.nodes;
    if k in WantedKeys(f) {
      WantedIsKept(f, k);
    }
    IsSynced(db.nodes, f, prune, k.0);
    hide SyncedNodes, WantedKeys, GoodPath, ParentPath, Keep;
  }

  lemma LeftAreOld(rules: map<RuleKey, Rule>, nodes: map<string, Node>)
    ensures RulesLeft(rules, nodes).Keys <= rules.Keys
  {
  }

  lemma RuleValue(left: map<RuleKey, Rule>, f: File, prune: bool, k: RuleKey)
    requires "" !in f.targets
    ensures var next := SyncedRules(left, f, prune);
      && (k in next <==> (k in left || k in WantedKeys(f)) && (k in WantedKeys(f) || !prune))
      && (k in WantedKeys(f) ==> next[k] == Wanted(f, k))
      && (k in next && k !in WantedKeys(f) ==> k in left && next[k] == left[k].(enabled := false))
  {
    hide WantedKeys, Wanted;
  }

  lemma RulesReported(db: Db, f: File, prune: bool)
    requires "" in db.nodes && "" !in f.targets
    ensures var s, left := SummaryOf(db, f, prune), RulesLeft(db.rules, SyncedNodes(db.nodes, f, prune));
      && s.rulesCreated == |WantedKeys(f) - left.Keys| && s.rulesUpdated == |RulesUpdated(left, f)|
      && s.rulesDisabled == (if prune then 0 else |RulesEnabled(left, left.Keys - WantedKeys(f))|)
      && s.rulesDeleted == |db.rules.Keys - left.Keys| + if prune then |left.Keys - WantedKeys(f)| else 0
  {
    hide Keep, Updated, Enabled, WantedKeys, SyncedNodes, RulesLeft, RulesUpdated, RulesEnabled;
  }

  lemma RuleSets<T>(before: set<T>, left: set<T>, next: set<T>, wanted: set<T>, prune: bool)
    requires left <= before && forall k :: k in before && (k in wanted || !prune) ==> k in left
    requires forall k :: k in next <==> (k in left || k in wanted) && (k in wanted || !prune)
    ensures next - before == wanted - left
    ensures |before - next| == |before - left| + if prune then |left - wanted| else 0
  {
    if prune {
      assert before - next == (before - left) + (left - wanted) && (before - left) !! (left - wanted);
    } else {
      assert before - next == {} && before - left == {};
    }
  }

  lemma RulesUpdatedAre(db: Db, f: File, left: map<RuleKey, Rule>, next: Db)
    requires "" !in f.targets && left.Keys <= db.rules.Keys && GivenKeys(f) == WantedKeys(f)
    requires forall k :: k in db.rules && k in WantedKeys(f) ==> k in left
    requires forall k :: k in left ==> left[k] == db.rules[k]
    requires forall k :: k in WantedKeys(f) ==> k in next.rules && next.rules[k] == Wanted(f, k)
    ensures RulesChanged(db, next, GivenKeys(f)) == RulesUpdated(left, f)
  {
    hide WantedKeys, GivenKeys, Wanted;
  }

  lemma RulesDisabledAre(db: Db, f: File, left: map<RuleKey, Rule>, next: Db, prune: bool)
    requires left.Keys <= db.rules.Keys && GivenKeys(f) == WantedKeys(f)
    requires forall k :: k in db.rules && !prune ==> k in left
    requires forall k :: k in left ==> left[k] == db.rules[k]
    requires forall k :: k !in WantedKeys(f) ==>
      if prune then k !in next.rules
      else k in left ==> k in next.rules && next.rules[k] == left[k].(enabled := false)
    ensures RulesChanged(db, next, db.rules.Keys - GivenKeys(f)) ==
      if prune then {} else RulesEnabled(left, left.Keys - WantedKeys(f))
  {
    hide WantedKeys, GivenKeys;
  }
}
