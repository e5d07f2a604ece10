/** Declarative configuration (internal/config/config.go, agents.go): what a file says the targets and
    alert rules should be. Nodes are named by their paths, which `PathIsInjective` allows; a path is
    written without its leading slash, and the root's is empty. */
module Config {
  import opened Options
  import opened Tree
  import Text

  // ---------------------------------------------------------------- the file and the database

  /** The inheritable settings as a file gives them; an `agents` list is kept as a list. */
  datatype Values = Values(ints: map<IntField, int>, strs: map<StrField, string>, bools: map<BoolField, bool>,
                           agents: Option<seq<string>>)

  datatype AlertRule = AlertRule(metric: string, op: string, threshold: real, forIntervals: int, clearFor: int,
                                 disabled: bool, mode: string, baseline: string, severity: string)

  datatype Entry = Entry(host: Option<string>, family: Option<string>, title: Option<string>, notes: Option<string>,
                         hidden: bool, disabled: bool, sortOrder: int, values: Values, alerts: map<string, AlertRule>)

  datatype File = File(defaults: Values, defaultAlerts: map<string, AlertRule>, targets: map<string, Entry>)

  datatype Node = Node(host: Option<string>, family: Option<string>, title: Option<string>, notes: Option<string>,
                       hidden: bool, enabled: bool, sortOrder: int, settings: Settings)

  datatype Rule = Rule(metric: string, op: string, threshold: real, forIntervals: int, clearFor: int,
                       enabled: bool, mode: string, baseline: string, severity: string)

  /** The path of the node a rule is defined on, and the rule's name. */
  type RuleKey = (string, string)

  datatype Db = Db(nodes: map<string, Node>, rules: map<RuleKey, Rule>)

  // ---------------------------------------------------------------- paths

  function ParentPath(p: string): (parent: string)
    ensures p != "" ==> |parent| < |p|
  {
    var e := Text.LastEnd(p, '/');
    if e == 0 then "" else p[..e - 1]
  }

  predicate GoodPath(p: string) {
    && p != "" && p[0] != '/' && p[|p| - 1] != '/'
    && forall i :: 0 <= i < |p| - 1 ==> !(p[i] == '/' && p[i + 1] == '/')
  }

  function Slashes(p: string): nat {
    if p == "" then 0 else Slashes(p[..|p| - 1]) + if p[|p| - 1] == '/' then 1 else 0
  }

  /** The proper ancestors of a path, without the root. */
  function Ancestors(p: string): (s: set<string>)
    decreases |p|
  {
    var parent := ParentPath(p);
    if p == "" || parent == "" then {} else {parent} + Ancestors(parent)
  }

  function UpTo(p: string): set<string> { {p} + Ancestors(p) }

  /** The root, the file's entries, and everything above them. */
  function Keep(targets: map<string, Entry>): set<string> {
    {""} + set p, q | p in targets.Keys && q in UpTo(p) :: q
  }

  lemma {:induction false} SlashesBeforeLastEnd(p: string)
    requires Text.LastEnd(p, '/') > 0
    ensures Slashes(p) == Slashes(p[..Text.LastEnd(p, '/') - 1]) + 1
  {
    if p[|p| - 1] != '/' {
      SlashesBeforeLastEnd(p[..|p| - 1]);
      assert p[..|p| - 1][..Text.LastEnd(p, '/') - 1] == p[..Text.LastEnd(p, '/') - 1];
    }
  }

  lemma {:induction false} LastEndIsASlash(p: string)
    ensures var e := Text.LastEnd(p, '/'); e > 0 ==> p[e - 1] == '/'
    ensures Text.LastEnd(p, '/') == 0 ==> Slashes(p) == 0
  {
    if p != [] && p[|p| - 1] != '/' {
      LastEndIsASlash(p[..|p| - 1]);
    }
  }

  /** A node lies exactly one level below its parent, and a good path's parent is good. */
  lemma ParentPathIsAbove(p: string)
    requires GoodPath(p)
    ensures ParentPath(p) == "" ==> Slashes(p) == 0
    ensures ParentPath(p) != "" ==> GoodPath(ParentPath(p)) && Slashes(p) == Slashes(ParentPath(p)) + 1
  {
    LastEndIsASlash(p);
    var e := Text.LastEnd(p, '/');
    if e > 0 {
      SlashesBeforeLastEnd(p);
      assert p[e - 2] != '/';
      var parent := p[..e - 1];
      forall i | 0 <= i < |parent| - 1 ensures !(parent[i] == '/' && parent[i + 1] == '/') {
        assert parent[i] == p[i] && parent[i + 1] == p[i + 1];
      }
    }
  }

  lemma {:induction false} AncestorsAreClosed(p: string, q: string)
    requires q in UpTo(p)
    ensures q == p || p != ""
    ensures ParentPath(q) in UpTo(p) || ParentPath(q) == ""
    ensures GoodPath(p) ==> GoodPath(q)
    decreases |p|
  {
    if q != p {
      if GoodPath(p) {
        ParentPathIsAbove(p);
      }
      AncestorsAreClosed(ParentPath(p), q);
    }
  }

  predicate GoodPaths(targets: map<string, Entry>) {
    forall p :: p in targets ==> GoodPath(p)
  }

  /** What is kept is closed upwards, so what is not kept is closed downwards. */
  lemma KeepIsClosed(targets: map<string, Entry>, q: string)
    requires q in Keep(targets)
    ensures ParentPath(q) in Keep(targets)
    ensures GoodPaths(targets) && q != "" ==> GoodPath(q)
  {
    if q != "" {
      var p :| p in targets.Keys && q in UpTo(p);
      AncestorsAreClosed(p, q);
    }
  }

  // ---------------------------------------------------------------- values

  /** `strings.Fields`: the words of s; `word` is what has been read of the one before it. */
  function FieldsFrom(s: string, word: string): seq<string> {
    if s == "" then (if word == "" then [] else [word])
    else if Space(s[0]) then (if word == "" then [] else [word]) + FieldsFrom(s[1..], "")
    else FieldsFrom(s[1..], word + [s[0]])
  }

  function Fields(s: string): seq<string> { FieldsFrom(s, "") }

  predicate Word(w: string) { w != "" && forall i :: 0 <= i < |w| ==> !Space(w[i]) }

  lemma {:induction false} FieldsAreWords(s: string, word: string)
    requires forall i :: 0 <= i < |word| ==> !Space(word[i])
    ensures forall k :: 0 <= k < |FieldsFrom(s, word)| ==> Word(FieldsFrom(s, word)[k])
  {
    if s != "" {
      if Space(s[0]) {
        FieldsAreWords(s[1..], "");
      } else {
        FieldsAreWords(s[1..], word + [s[0]]);
      }
    }
  }

  lemma {:induction false} FieldsOfWord(w: string, word: string)
    requires forall i :: 0 <= i < |w| ==> !Space(w[i])
    ensures FieldsFrom(w, word) == if word + w == "" then [] else [word + w]
  {
    if w != "" {
      FieldsOfWord(w[1..], word + [w[0]]);
      assert word + [w[0]] + w[1..] == word + w;
    } else {
      assert word + w == word;
    }
  }

  lemma {:induction false} FieldsOfOneMore(s: string, word: string, w: string)
    requires Word(w)
    ensures FieldsFrom(s + " " + w, word) == FieldsFrom(s, word) + [w]
  {
    var all := s + " " + w;
    if s == "" {
      assert all == " " + w && all[1..] == w;
      FieldsOfWord(w, "");
      assert "" + w == w;
    } else {
      assert all[0] == s[0] && all[1..] == s[1..] + " " + w;
      if Space(s[0]) {
        FieldsOfOneMore(s[1..], "", w);
      } else {
        FieldsOfOneMore(s[1..], word + [s[0]], w);
      }
    }
  }

  /** Splitting what was joined gives the words back. */
  lemma {:induction false} FieldsOfJoin(ws: seq<string>)
    requires forall k :: 0 <= k < |ws| ==> Word(ws[k])
    ensures Fields(Text.Join(ws, " ")) == ws
  {
    if |ws| == 1 {
      FieldsOfWord(ws[0], "");
      assert "" + ws[0] == ws[0] && ws == [ws[0]];
    } else if |ws| > 1 {
      FieldsOfJoin(ws[..|ws| - 1]);
      FieldsOfOneMore(Text.Join(ws[..|ws| - 1], " "), "", ws[|ws| - 1]);
      assert ws == ws[..|ws| - 1] + [ws[|ws| - 1]];
    }
  }

  function SettingsOf(v: Values): Settings {
    var agents := if v.agents.Some? then map[Agents := Text.Join(v.agents.value, " ")] else map[];
    Settings(v.ints, (v.strs - {Agents}) + agents, v.bools)
  }

  function ValuesFrom(s: Settings): Values {
    Values(s.ints, s.strs - {Agents}, s.bools, if Agents in s.strs then Some(Fields(s.strs[Agents])) else None)
  }

  /** The file's values over the root's: only what it gives is overwritten. */
  function Overlaid(s: Settings, v: Values): Settings {
    var t := SettingsOf(v);
    Settings(s.ints + t.ints, s.strs + t.strs, s.bools + t.bools)
  }

  function NodeOf(e: Entry): Node {
    Node(e.host, e.family, e.title, e.notes, e.hidden, !e.disabled, e.sortOrder, SettingsOf(e.values))
  }

  function EntryFrom(n: Node, alerts: map<string, AlertRule>): Entry {
    Entry(n.host, n.family, n.title, n.notes, n.hidden, !n.enabled, n.sortOrder, ValuesFrom(n.settings), alerts)
  }

  /** An ancestor that the file implies but does not describe. */
  const GROUP: Node := Node(None, None, None, None, false, true, 0, Settings(map[], map[], map[]))

  function RuleOf(r: AlertRule): Rule {
    Rule(r.metric, r.op, r.threshold,
         if r.forIntervals == 0 then 3 else r.forIntervals, if r.clearFor == 0 then 3 else r.clearFor,
         !r.disabled, r.mode, r.baseline, if r.severity == "" then "warning" else r.severity)
  }

  function AlertFrom(r: Rule): AlertRule {
    AlertRule(r.metric, r.op, r.threshold, r.forIntervals, r.clearFor, !r.enabled, r.mode, r.baseline,
              if r.severity == "warning" then "" else r.severity)
  }

  /** `Rule.Validate`. */
  predicate RuleValid(name: string, r: Rule) {
    && r.metric in {"loss", "median", "p95", "spread", "shape", "bimodality"}
    && (r.metric in {"shape", "bimodality"} ==> r.op == ">" && r.mode in {"auto", "tunable"})
    && (r.metric == "shape" ==> r.baseline in {"rolling", "golden"})
    && r.op in {">", "<"}
    && name != ""
    && (r.metric == "loss" ==> 0.0 <= r.threshold <= 100.0)
    && r.forIntervals >= 1 && r.clearFor >= 1
    && r.severity in {"critical", "warning", "info"}
  }

  // ---------------------------------------------------------------- what a sync leaves

  function SyncedNodes(nodes: map<string, Node>, f: File, prune: bool): map<string, Node>
    requires "" in nodes
  {
    map p | p in nodes.Keys + Keep(f.targets) && (prune ==> p in Keep(f.targets)) ::
      if p == "" then nodes[p].(settings := Overlaid(nodes[p].settings, f.defaults))
      else if p in f.targets then NodeOf(f.targets[p])
      else if p !in nodes then GROUP
      else if p in Keep(f.targets) then nodes[p]
      else nodes[p].(enabled := false)
  }

  function WantedKeys(f: File): set<RuleKey> {
    (set name | name in f.defaultAlerts.Keys :: ("", name))
    + (set p, name | p in f.targets.Keys && name in f.targets[p].alerts.Keys :: (p, name))
  }

  function Wanted(f: File, k: RuleKey): Rule
    requires k in WantedKeys(f) && "" !in f.targets
  {
    RuleOf(if k.0 == "" then f.defaultAlerts[k.1] else f.targets[k.0].alerts[k.1])
  }

  /** The rules that are left when the nodes of a sync are written: those of deleted nodes go with them. */
  function RulesLeft(rules: map<RuleKey, Rule>, nodes: map<string, Node>): map<RuleKey, Rule> {
    map k | k in rules && k.0 in nodes :: rules[k]
  }

  function SyncedRules(rules: map<RuleKey, Rule>, f: File, prune: bool): map<RuleKey, Rule>
    requires "" !in f.targets
  {
    map k | k in rules.Keys + WantedKeys(f) && (k in WantedKeys(f) || !prune) ::
      if k in WantedKeys(f) then Wanted(f, k) else rules[k].(enabled := false)
  }

  function Synced(db: Db, f: File, prune: bool): Db
    requires "" in db.nodes && "" !in f.targets
  {
    var nodes := SyncedNodes(db.nodes, f, prune);
    Db(nodes, SyncedRules(RulesLeft(db.rules, nodes), f, prune))
  }

  datatype Summary = Summary(created: nat, updated: nat, disabled: nat, deleted: nat,
                             rulesCreated: nat, rulesUpdated: nat, rulesDisabled: nat, rulesDeleted: nat)

  function Created(nodes: map<string, Node>, f: File): set<string> { Keep(f.targets) - nodes.Keys }

  function Updated(nodes: map<string, Node>, targets: map<string, Entry>): set<string> {
    set p | p in targets.Keys && p in nodes && nodes[p] != NodeOf(targets[p])
  }

  function Absent(nodes: map<string, Node>, f: File): set<string> { nodes.Keys - Keep(f.targets) }

  function Enabled(nodes: map<string, Node>, paths: set<string>): set<string> {
    set p | p in paths && p in nodes && nodes[p].enabled
  }

  function RulesUpdated(rules: map<RuleKey, Rule>, f: File): set<RuleKey>
    requires "" !in f.targets
  {
    set k | k in WantedKeys(f) && k in rules && rules[k] != Wanted(f, k)
  }

  function RulesUnwanted(rules: map<RuleKey, Rule>, f: File): set<RuleKey> { rules.Keys - WantedKeys(f) }

  function RulesEnabled(rules: map<RuleKey, Rule>, keys: set<RuleKey>): set<RuleKey> {
    set k | k in keys && k in rules && rules[k].enabled
  }

  function SummaryOf(db: Db, f: File, prune: bool): Summary
    requires "" in db.nodes && "" !in f.targets
  {
    var absent := Absent(db.nodes, f);
    var rules := RulesLeft(db.rules, SyncedNodes(db.nodes, f, prune));
    var unwanted := RulesUnwanted(rules, f);
    Summary(|Created(db.nodes, f)|, |Updated(db.nodes, f.targets)|,
            if prune then 0 else |Enabled(db.nodes, absent)|, if prune then |absent| else 0,
            |WantedKeys(f) - rules.Keys|, |RulesUpdated(rules, f)|,
            if prune then 0 else |RulesEnabled(rules, unwanted)|,
            |db.rules.Keys - rules.Keys| + if prune then |unwanted| else 0)
  }

  const NOTHING: Summary := Summary(0, 0, 0, 0, 0, 0, 0, 0)

  // ---------------------------------------------------------------- properties

  /** What reading a valid tree gives: every node's parent is there, every rule's node is. */
  ghost predicate WellFormed(db: Db) {
    && "" in db.nodes
    && (forall p :: p in db.nodes && p != "" ==> GoodPath(p) && ParentPath(p) in db.nodes)
    && (forall k :: k in db.rules ==> k.0 in db.nodes)
  }

  /** A sync leaves no node without its parent and no rule without its node, pruning or not: the pruned
      are closed under descendants, and hold no parent of what is kept or created. */
  lemma SyncKeepsWellFormed(db: Db, f: File, prune: bool)
    requires WellFormed(db) && GoodPaths(f.targets)
    ensures WellFormed(Synced(db, f, prune))
  {
    var next := Synced(db, f, prune);
    forall p | p in next.nodes && p != "" ensures GoodPath(p) && ParentPath(p) in next.nodes {
      ParentIsSynced(db, f, prune, p);
    }
    forall k | k in next.rules ensures k.0 in next.nodes {
      RuleIsSynced(db, f, prune, k);
    }
    hide GoodPath, ParentPath, SyncedRules, Keep;
  }

  lemma IsSynced(nodes: map<string, Node>, f: File, prune: bool, p: string)
    requires "" in nodes
    ensures p in SyncedNodes(nodes, f, prune) <==>
        (p in nodes || p in Keep(f.targets)) && (prune ==> p in Keep(f.targets))
  {
    hide Keep, NodeOf, Overlaid;
  }

  lemma ParentIsSynced(db: Db, f: File, prune: bool, p: string)
    requires WellFormed(db) && GoodPaths(f.targets) && p in SyncedNodes(db.nodes, f, prune) && p != ""
    ensures GoodPath(p) && ParentPath(p) in SyncedNodes(db.nodes, f, prune)
  {
    IsSynced(db.nodes, f, prune, p);
    IsSynced(db.nodes, f, prune, ParentPath(p));
    if p in Keep(f.targets) {
      KeepIsClosed(f.targets, p);
    }
    hide *;
    hide SyncedNodes;
  }

  lemma RuleIsSynced(db: Db, f: File, prune: bool, k: RuleKey)
    requires WellFormed(db) && GoodPaths(f.targets) && k in Synced(db, f, prune).rules
    ensures k.0 in Synced(db, f, prune).nodes
  {
    IsSynced(db.nodes, f, prune, k.0);
    if k in WantedKeys(f) {
      WantedIsKept(f, k);
    }
    hide SyncedNodes, Keep, Wanted;
  }

  lemma WantedIsKept(f: File, k: RuleKey)
    requires k in WantedKeys(f)
    ensures k.0 in Keep(f.targets)
  {
    EntriesAreKept(f.targets);
    RootIsKept(f.targets);
    hide Keep;
  }

  lemma PrunedIsASubforest(db: Db, f: File, p: string)
    requires WellFormed(db) && GoodPaths(f.targets) && p in db.nodes && ParentPath(p) in Absent(db.nodes, f)
    ensures p in Absent(db.nodes, f)
  {
    if p in Keep(f.targets) {
      KeepIsClosed(f.targets, p);
    }
  }

  lemma SecondSyncSeesNoNodes(nodes: map<string, Node>, f: File, prune: bool)
    requires "" in nodes && GoodPaths(f.targets)
    ensures var next := SyncedNodes(nodes, f, prune);
      && SyncedNodes(next, f, prune) == next
      && Created(next, f) == {} && Updated(next, f.targets) == {}
      && (prune ==> Absent(next, f) == {})
      && Enabled(next, Absent(next, f)) == {}
  {
    hide NodeOf, SettingsOf, Keep;
    var next := SyncedNodes(nodes, f, prune);
    OverlayTwice(nodes[""].settings, f.defaults);
    RootIsKept(f.targets);
    assert forall p :: p in f.targets ==> p in Keep(f.targets) by { EntriesAreKept(f.targets); }
    assert SyncedNodes(next, f, prune) == next;
  }

  lemma EntriesAreKept(targets: map<string, Entry>)
    ensures forall p :: p in targets ==> p in Keep(targets)
  {
    forall p | p in targets ensures p in Keep(targets) {
      assert p in UpTo(p);
    }
  }

  lemma RootIsKept(targets: map<string, Entry>)
    ensures "" in Keep(targets)
  {
  }

  lemma OverlayTwice(s: Settings, v: Values)
    ensures Overlaid(Overlaid(s, v), v) == Overlaid(s, v)
  {
    var t, once := SettingsOf(v), Overlaid(s, v);
    assert once.ints + t.ints == once.ints;
    assert once.strs + t.strs == once.strs;
    assert once.bools + t.bools == once.bools;
  }

  lemma SecondSyncSeesNoRules(rules: map<RuleKey, Rule>, f: File, prune: bool)
    requires "" !in f.targets
    ensures var next := SyncedRules(rules, f, prune);
      && SyncedRules(next, f, prune) == next
      && WantedKeys(f) <= next.Keys && RulesUpdated(next, f) == {}
      && (prune ==> RulesUnwanted(next, f) == {})
      && RulesEnabled(next, RulesUnwanted(next, f)) == {}
  {
    hide Wanted, WantedKeys;
  }

  lemma RulesAreWhole(db: Db)
    requires WellFormed(db)
    ensures RulesLeft(db.rules, db.nodes) == db.rules
  {
    hide GoodPath, ParentPath;
  }

  /** Applying the same file twice changes nothing.. */
  lemma SyncIsIdempotent(db: Db, f: File, prune: bool)
    requires WellFormed(db) && GoodPaths(f.targets)
    ensures var once := Synced(db, f, prune);
      "" in once.nodes && Synced(once, f, prune) == once
  {
    var once := Synced(db, f, prune);
    SyncKeepsWellFormed(db, f, prune);
    RulesAreWhole(once);
    SecondSyncSeesNoNodes(db.nodes, f, prune);
    SecondSyncSeesNoRules(RulesLeft(db.rules, once.nodes), f, prune);
    hide SyncedNodes, SyncedRules, WantedKeys, GoodPath, Keep, RulesLeft;
  }

  /** .. and reports nothing, the second time. */
  lemma SecondSyncReportsNothing(db: Db, f: File, prune: bool)
    requires WellFormed(db) && GoodPaths(f.targets)
    ensures var once := Synced(db, f, prune);
      "" in once.nodes && SummaryOf(once, f, prune) == NOTHING
  {
    var once := Synced(db, f, prune);
    SyncKeepsWellFormed(db, f, prune);
    RulesAreWhole(once);
    SecondSyncSeesNoNodes(db.nodes, f, prune);
    SecondSyncSeesNoRules(RulesLeft(db.rules, once.nodes), f, prune);
    hide SyncedNodes, SyncedRules, WantedKeys, GoodPath, Keep, RulesLeft, Created, Updated, Absent, Enabled,
         RulesUpdated,
         RulesUnwanted, RulesEnabled;
    var rules := once.rules;
    assert RulesLeft(rules, SyncedNodes(once.nodes, f, prune)) == rules;
    assert WantedKeys(f) - rules.Keys == {} && rules.Keys - rules.Keys == {};
  }

  // ---------------------------------------------------------------- export

  function AlertsOf(rules: map<RuleKey, Rule>, p: string): map<string, AlertRule> {
    map k | k in rules && k.0 == p :: k.1 := AlertFrom(rules[k])
  }

  /** The root's settings and rules, and every other node with only what it sets itself. */
  function Export(db: Db): File
    requires "" in db.nodes
  {
    File(ValuesFrom(db.nodes[""].settings), AlertsOf(db.rules, ""),
         map p | p in db.nodes && p != "" :: EntryFrom(db.nodes[p], AlertsOf(db.rules, p)))
  }

  // ---------------------------------------------------------------- what a file may say

  function LastName(p: string): string { p[Text.LastEnd(p, '/')..] }

  /** An entry is held to the field rules of the API. */
  predicate EntryValid(p: string, e: Entry) {
    NodeValid(p, e.host, e.family, SettingsOf(e.values))
  }

  predicate NodeValid(p: string, host: Option<string>, family: Option<string>, s: Settings) {
    FieldsValid(Target(0, Some(1), LastName(p), host, family, None, None, false, false, 0, s))
  }

  predicate AlertsValid(alerts: map<string, AlertRule>) {
    forall name :: name in alerts ==> RuleValid(name, RuleOf(alerts[name]))
  }

  /** Each entry of a list is one name: with a space inside it could name nothing. */
  predicate SingleNames(v: Values) {
    v.agents.Some? ==> forall k :: 0 <= k < |v.agents.value| ==> |Fields(v.agents.value[k])| == 1
  }

  predicate ValidFile(f: File) {
    && SingleNames(f.defaults) && (forall p :: p in f.targets ==> SingleNames(f.targets[p].values))
    && GoodPaths(f.targets)
    && (forall p :: p in f.targets ==> EntryValid(p, f.targets[p]) && AlertsValid(f.targets[p].alerts))
    && AlertsValid(f.defaultAlerts)
  }

  // ---------------------------------------------------------------- the round trip

  /** Every stored rule is valid, as every write of one checks. */
  ghost predicate RulesValid(db: Db) {
    forall k :: k in db.rules ==> RuleValid(k.1, db.rules[k])
  }

  ghost predicate NodesValid(db: Db) {
    forall p :: p in db.nodes && p != "" ==> NodeValid(p, db.nodes[p].host, db.nodes[p].family, db.nodes[p].settings)
  }

  /** A new database: only a root, with the defaults and no rules. */
  ghost predicate New(db: Db) {
    && db.nodes.Keys == {""} && db.rules == map[]
    && db.nodes[""].settings.ints.Keys <= DEFAULTED_INTS
    && db.nodes[""].settings.strs.Keys <= DEFAULTED_STRS
  }

  lemma ValuesSurvive(s: Settings)
    ensures SettingsOf(ValuesFrom(s)).ints == s.ints && SettingsOf(ValuesFrom(s)).bools == s.bools
    ensures SettingsOf(ValuesFrom(s)).strs.Keys == s.strs.Keys
    ensures forall k :: k in s.strs && k != Agents ==> SettingsOf(ValuesFrom(s)).strs[k] == s.strs[k]
    ensures ValuesFrom(SettingsOf(ValuesFrom(s))) == ValuesFrom(s)
  {
    var v := ValuesFrom(s);
    var t := SettingsOf(v);
    if Agents in s.strs {
      FieldsAreWords(s.strs[Agents], "");
      FieldsOfJoin(Fields(s.strs[Agents]));
    }
    hide Fields, Text.Join;
    assert t.strs - {Agents} == s.strs - {Agents};
  }

  lemma RuleSurvives(name: string, r: Rule)
    requires RuleValid(name, r)
    ensures RuleOf(AlertFrom(r)) == r
  {
  }

  lemma {:induction false} AncestorsArePresent(db: Db, p: string)
    requires WellFormed(db) && p in db.nodes && p != ""
    ensures Ancestors(p) <= db.nodes.Keys
    decreases |p|
  {
    if ParentPath(p) != "" {
      AncestorsArePresent(db, ParentPath(p));
    }
  }

  lemma ExportKeepsAll(db: Db)
    requires WellFormed(db)
    ensures Keep(Export(db).targets) == db.nodes.Keys && GoodPaths(Export(db).targets) && "" !in Export(db).targets
  {
    var targets := Export(db).targets;
    EntriesAreKept(targets);
    forall q | q in Keep(targets) ensures q in db.nodes {
      if q != "" {
        var p :| p in targets.Keys && q in UpTo(p);
        AncestorsArePresent(db, p);
      }
    }
    assert forall p :: p in db.nodes && p != "" ==> p in targets;
  }

  /** Two nodes that a file describes alike. */
  predicate Alike(n: Node, m: Node) { EntryFrom(n, map[]) == EntryFrom(m, map[]) }

  lemma ExportedNode(db: Db, seed: Db, prune: bool, p: string)
    requires WellFormed(db) && New(seed) && p in db.nodes && p != ""
    ensures "" !in Export(db).targets
    ensures p in Synced(seed, Export(db), prune).nodes && Alike(Synced(seed, Export(db), prune).nodes[p], db.nodes[p])
  {
    ExportKeepsAll(db);
    ValuesSurvive(db.nodes[p].settings);
    hide Keep, ValuesFrom, SettingsOf, GoodPath, AlertsOf, ParentPath;
  }

  lemma OverlayOfAll(base: Settings, s: Settings)
    requires Complete(s) && base.ints.Keys <= DEFAULTED_INTS && base.strs.Keys <= DEFAULTED_STRS
    ensures Overlaid(base, ValuesFrom(s)) == SettingsOf(ValuesFrom(s))
  {
    ValuesSurvive(s);
    var t := SettingsOf(ValuesFrom(s));
    hide SettingsOf, ValuesFrom;
    assert base.ints + t.ints == t.ints;
    assert base.strs + t.strs == t.strs;
    forall f | f in base.bools ensures f in t.bools {
      match f case TlsSkipVerify =>
    }
    assert base.bools + t.bools == t.bools;
  }

  lemma ExportedRoot(db: Db, seed: Db, prune: bool)
    requires WellFormed(db) && Complete(db.nodes[""].settings) && New(seed)
    ensures "" !in Export(db).targets
    ensures ValuesFrom(Synced(seed, Export(db), prune).nodes[""].settings) == ValuesFrom(db.nodes[""].settings)
  {
    ExportKeepsAll(db);
    OverlayOfAll(seed.nodes[""].settings, db.nodes[""].settings);
    ValuesSurvive(db.nodes[""].settings);
    RootIsSynced(seed.nodes, Export(db), prune);
    hide *;
    hide Synced;
    SyncedIs(seed, Export(db), prune);
    assert Export(db).defaults == ValuesFrom(db.nodes[""].settings) by { ExportedDefaults(db); }
  }

  lemma SyncedIs(db: Db, f: File, prune: bool)
    requires "" in db.nodes && "" !in f.targets
    ensures Synced(db, f, prune).nodes == SyncedNodes(db.nodes, f, prune)
    ensures Synced(db, f, prune).rules == SyncedRules(RulesLeft(db.rules, SyncedNodes(db.nodes, f, prune)), f, prune)
  {
    hide SyncedNodes, SyncedRules, RulesLeft;
  }

  lemma ExportedDefaults(db: Db)
    requires "" in db.nodes
    ensures Export(db).defaults == ValuesFrom(db.nodes[""].settings)
  {
  }

  lemma RootIsSynced(nodes: map<string, Node>, f: File, prune: bool)
    requires "" in nodes
    ensures "" in SyncedNodes(nodes, f, prune)
    ensures SyncedNodes(nodes, f, prune)[""].settings == Overlaid(nodes[""].settings, f.defaults)
  {
    RootIsKept(f.targets);
    hide Keep, Overlaid, NodeOf;
  }

  lemma RulesRestored(rules: map<RuleKey, Rule>, f: File, prune: bool)
    requires "" !in f.targets && WantedKeys(f) == rules.Keys
    requires forall k :: k in rules ==> Wanted(f, k) == rules[k]
    ensures SyncedRules(map[], f, prune) == rules
  {
    hide Wanted, WantedKeys;
  }

  lemma ExportedRules(db: Db, seed: Db, prune: bool)
    requires WellFormed(db) && RulesValid(db) && New(seed)
    ensures "" in seed.nodes && "" !in Export(db).targets
    ensures Synced(seed, Export(db), prune).rules == db.rules
  {
    hide *;
    ExportHasNoRoot(db);
    var f := Export(db);
    forall k | k in db.rules ensures k in WantedKeys(f) && Wanted(f, k) == db.rules[k] {
      ExportWants(db, k);
    }
    forall k | k in WantedKeys(f) ensures k in db.rules {
      OnlyRulesAreWanted(db, k);
    }
    NewHasNoRules(seed, f, prune);
    RulesRestored(db.rules, f, prune);
  }

  lemma ExportHasNoRoot(db: Db)
    requires WellFormed(db)
    ensures "" in db.nodes && "" !in Export(db).targets
  {
    hide GoodPath, ParentPath;
  }

  lemma NewHasNoRules(seed: Db, f: File, prune: bool)
    requires New(seed) && "" !in f.targets
    ensures "" in seed.nodes && Synced(seed, f, prune).rules == SyncedRules(map[], f, prune)
  {
    SyncedIs(seed, f, prune);
    hide SyncedNodes, SyncedRules, Synced;
    assert RulesLeft(map[], SyncedNodes(seed.nodes, f, prune)) == map[];
  }

  lemma ExportWants(db: Db, k: RuleKey)
    requires WellFormed(db) && RulesValid(db) && k in db.rules
    ensures "" !in Export(db).targets && k in WantedKeys(Export(db)) && Wanted(Export(db), k) == db.rules[k]
  {
    hide GoodPath, RuleValid, RuleOf, AlertFrom, ValuesFrom;
    var f := Export(db);
    RuleSurvives(k.1, db.rules[k]);
    assert k == (k.0, k.1);
    assert k.1 in AlertsOf(db.rules, k.0) && AlertsOf(db.rules, k.0)[k.1] == AlertFrom(db.rules[k]);
  }

  lemma OnlyRulesAreWanted(db: Db, k: RuleKey)
    requires WellFormed(db) && k in WantedKeys(Export(db))
    ensures k in db.rules
  {
    hide GoodPath, AlertFrom, ValuesFrom;
    var r :| r in db.rules && r.0 == k.0 && r.1 == k.1;
    assert r == k;
  }

  lemma SameExport(a: Db, b: Db)
    requires "" in a.nodes && "" in b.nodes && a.nodes.Keys == b.nodes.Keys && a.rules == b.rules
    requires ValuesFrom(a.nodes[""].settings) == ValuesFrom(b.nodes[""].settings)
    requires forall p :: p in a.nodes && p != "" ==> Alike(a.nodes[p], b.nodes[p])
    ensures Export(a) == Export(b)
  {
    hide ValuesFrom, AlertsOf;
    forall p | p in a.nodes && p != ""
      ensures EntryFrom(a.nodes[p], AlertsOf(a.rules, p)) == EntryFrom(b.nodes[p], AlertsOf(b.rules, p))
    {
      assert Alike(a.nodes[p], b.nodes[p]);
    }
  }

  /** Exporting, applying to a new database and exporting again gives the same file; agent lists come
      back without the whitespace between and around their names. */
  lemma ExportRoundTrip(db: Db, seed: Db, prune: bool)
    requires WellFormed(db) && Complete(db.nodes[""].settings) && RulesValid(db) && New(seed)
    ensures "" !in Export(db).targets
    ensures var again := Synced(seed, Export(db), prune);
      && "" in again.nodes && again.rules == db.rules && Export(again) == Export(db)
  {
    var f := Export(db);
    ExportKeepsAll(db);
    ExportedRoot(db, seed, prune);
    ExportedRules(db, seed, prune);
    var again := Synced(seed, f, prune);
    assert again.nodes.Keys == db.nodes.Keys by {
      forall p ensures p in again.nodes <==> p in db.nodes {
        IsSynced(seed.nodes, f, prune, p);
      }
    }
    hide Keep, ValuesFrom, SettingsOf, GoodPath, AlertsOf, EntryFrom, SyncedRules, WantedKeys, SyncedNodes, Synced,
         Export, Alike;
    forall p | p in again.nodes && p != "" ensures Alike(again.nodes[p], db.nodes[p]) {
      ExportedNode(db, seed, prune, p);
    }
    SameExport(again, db);
  }

  // ---- the other way round: importing, then exporting

  /** Values and rules as an export spells them: agents one name each, nothing left to a default. */
  predicate NormalValues(v: Values) {
    Agents !in v.strs && (v.agents.Some? ==> forall k :: 0 <= k < |v.agents.value| ==> Word(v.agents.value[k]))
  }

  predicate NormalAlerts(alerts: map<string, AlertRule>) {
    forall name :: name in alerts ==>
      alerts[name].forIntervals != 0 && alerts[name].clearFor != 0 && alerts[name].severity != "warning"
  }

  /** .. and every ancestor of an entry described as well. */
  ghost predicate NormalFile(f: File) {
    && NormalAlerts(f.defaultAlerts)
    && (forall p :: p in f.targets ==> NormalValues(f.targets[p].values) && NormalAlerts(f.targets[p].alerts))
    && (forall p :: p in f.targets ==> Ancestors(p) <= f.targets.Keys)
  }

  lemma NormalValuesSurvive(v: Values)
    requires NormalValues(v)
    ensures ValuesFrom(SettingsOf(v)) == v
  {
    if v.agents.Some? {
      FieldsOfJoin(v.agents.value);
    }
    hide Fields, Text.Join;
    assert SettingsOf(v).strs - {Agents} == v.strs;
  }

  lemma DescribedIsKept(f: File)
    requires NormalFile(f)
    ensures Keep(f.targets) == {""} + f.targets.Keys
  {
    EntriesAreKept(f.targets);
    forall q | q in Keep(f.targets) ensures q == "" || q in f.targets {
      if q != "" {
        var p :| p in f.targets.Keys && q in UpTo(p);
      }
    }
  }

  /** The rules of one node after a pruning sync are those its entry gives. */
  lemma RulesOfEntry(rules: map<RuleKey, Rule>, f: File, p: string)
    requires "" !in f.targets && (p == "" || p in f.targets)
    requires NormalAlerts(if p == "" then f.defaultAlerts else f.targets[p].alerts)
    ensures AlertsOf(SyncedRules(rules, f, true), p) == if p == "" then f.defaultAlerts else f.targets[p].alerts
  {
    hide *;
    var given := if p == "" then f.defaultAlerts else f.targets[p].alerts;
    var synced := SyncedRules(rules, f, true);
    forall name ensures name in given <==> (p, name) in synced {
      EntryWants(rules, f, p, name);
    }
    forall name | name in given ensures AlertFrom(synced[(p, name)]) == given[name] {
      EntryWants(rules, f, p, name);
      NormalAlertSurvives(given, name);
    }
    AlertsAre(synced, p, given);
  }

  lemma EntryWants(rules: map<RuleKey, Rule>, f: File, p: string, name: string)
    requires "" !in f.targets && (p == "" || p in f.targets)
    ensures var given := if p == "" then f.defaultAlerts else f.targets[p].alerts;
      && (name in given <==> (p, name) in SyncedRules(rules, f, true))
      && (name in given ==> SyncedRules(rules, f, true)[(p, name)] == RuleOf(given[name]))
  {
    var given := if p == "" then f.defaultAlerts else f.targets[p].alerts;
    hide RuleOf;
    assert (p, name) in WantedKeys(f) <==> name in given;
  }

  lemma NormalAlertSurvives(alerts: map<string, AlertRule>, name: string)
    requires NormalAlerts(alerts) && name in alerts
    ensures AlertFrom(RuleOf(alerts[name])) == alerts[name]
  {
  }

  lemma AlertsAre(rules: map<RuleKey, Rule>, p: string, given: map<string, AlertRule>)
    requires forall name :: name in given <==> (p, name) in rules
    requires forall name :: name in given ==> AlertFrom(rules[(p, name)]) == given[name]
    ensures AlertsOf(rules, p) == given
  {
    hide AlertFrom;
    forall k | k in rules && k.0 == p ensures k == (p, k.1) {
    }
  }

  /** After an import that prunes, an export says exactly what the file said, of every target and rule. */
  lemma ImportSaysTheFile(db: Db, f: File)
    requires WellFormed(db) && GoodPaths(f.targets) && NormalFile(f)
    ensures "" in Synced(db, f, true).nodes
    ensures Export(Synced(db, f, true)).targets == f.targets
    ensures Export(Synced(db, f, true)).defaultAlerts == f.defaultAlerts
  {
    hide *;
    OnlyTheFile(db, f);
    var next := Synced(db, f, true);
    forall p | p in f.targets ensures EntryFrom(next.nodes[p], AlertsOf(next.rules, p)) == f.targets[p] {
      EntryComesBack(db, f, p);
    }
    ExportIs(next, f);
  }

  lemma ExportIs(db: Db, f: File)
    requires db.nodes.Keys == {""} + f.targets.Keys && "" !in f.targets
    requires forall p :: p in f.targets ==> EntryFrom(db.nodes[p], AlertsOf(db.rules, p)) == f.targets[p]
    ensures Export(db).targets == f.targets && Export(db).defaultAlerts == AlertsOf(db.rules, "")
  {
    hide EntryFrom, AlertsOf, ValuesFrom;
  }

  lemma OnlyTheFile(db: Db, f: File)
    requires WellFormed(db) && GoodPaths(f.targets) && NormalFile(f)
    ensures "" in db.nodes && "" !in f.targets
    ensures Synced(db, f, true).nodes.Keys == {""} + f.targets.Keys
    ensures AlertsOf(Synced(db, f, true).rules, "") == f.defaultAlerts
  {
    DescribedIsKept(f);
    SyncedIs(db, f, true);
    RulesOfEntry(RulesLeft(db.rules, SyncedNodes(db.nodes, f, true)), f, "");
    var nodes := SyncedNodes(db.nodes, f, true);
    forall p ensures p in nodes <==> p == "" || p in f.targets {
      IsSynced(db.nodes, f, true, p);
    }
    hide Synced, SyncedNodes, SyncedRules, RulesLeft, Keep, AlertsOf, GoodPath, NormalFile, ParentPath;
  }

  lemma EntryComesBack(db: Db, f: File, p: string)
    requires WellFormed(db) && GoodPaths(f.targets) && NormalFile(f) && p in f.targets
    ensures p in Synced(db, f, true).nodes
    ensures EntryFrom(Synced(db, f, true).nodes[p], AlertsOf(Synced(db, f, true).rules, p)) == f.targets[p]
  {
    SyncedIs(db, f, true);
    IsSynced(db.nodes, f, true, p);
    DescribedIsKept(f);
    RulesOfEntry(RulesLeft(db.rules, SyncedNodes(db.nodes, f, true)), f, p);
    NormalValuesSurvive(f.targets[p].values);
    assert SyncedNodes(db.nodes, f, true)[p] == NodeOf(f.targets[p]);
    hide Synced, SyncedNodes, SyncedRules, RulesLeft, Keep, AlertsOf, GoodPath, NormalFile, ValuesFrom, SettingsOf,
         ParentPath;
  }

  // ---- what an export says passes the checks on a file

  lemma {:induction false} BlankHasNoFields(s: string)
    requires Blank(s)
    ensures Fields(s) == []
  {
    if s != "" {
      assert Space(s[0]);
      BlankHasNoFields(s[1..]);
    }
  }

  lemma {:induction false} WordsAreFound(s: string, word: string)
    requires word != "" || !Blank(s)
    ensures FieldsFrom(s, word) != []
  {
    if s != "" {
      if Space(s[0]) {
        if word == "" {
          assert !Blank(s[1..]) by { NotBlankLater(s); }
          WordsAreFound(s[1..], "");
        }
      } else {
        WordsAreFound(s[1..], word + [s[0]]);
      }
    }
  }

  lemma NotBlankLater(s: string)
    requires s != "" && Space(s[0]) && !Blank(s)
    ensures !Blank(s[1..])
  {
    var i :| 0 <= i < |s| && !Space(s[i]);
    assert s[1..][i - 1] == s[i];
  }

  lemma JoinedFieldsAreNotBlank(s: string)
    requires !Blank(s)
    ensures !Blank(Text.Join(Fields(s), " "))
  {
    WordsAreFound(s, "");
    FieldsAreWords(s, "");
    FieldsOfJoin(Fields(s));
    if Blank(Text.Join(Fields(s), " ")) {
      BlankHasNoFields(Text.Join(Fields(s), " "));
    }
  }

  /** What was exported from valid nodes and rules is a valid file. */
  lemma ExportIsValid(db: Db)
    requires WellFormed(db) && RulesValid(db) && NodesValid(db)
    ensures ValidFile(Export(db))
  {
    hide *;
    ExportKeepsAll(db);
    ExportHasNoRoot(db);
    forall p | p in Export(db).targets
      ensures EntryValid(p, Export(db).targets[p]) && AlertsValid(Export(db).targets[p].alerts)
      ensures SingleNames(Export(db).targets[p].values)
    {
      ExportedEntryIsValid(db, p);
    }
    ExportedRootIsValid(db);
    ValidFileIs(Export(db));
  }

  lemma ExportedEntryIsValid(db: Db, p: string)
    requires WellFormed(db) && RulesValid(db) && NodesValid(db) && p in Export(db).targets
    ensures var e := Export(db).targets[p];
      EntryValid(p, e) && AlertsValid(e.alerts) && SingleNames(e.values)
  {
    hide AlertsOf, AlertsValid, NodeValid, SettingsOf, ValuesFrom, GoodPath, SingleNames, RulesValid;
    SettingsStayValid(p, db.nodes[p].host, db.nodes[p].family, db.nodes[p].settings);
    ExportedAlertsValid(db, p);
    ExportedNamesAreSingle(db.nodes[p].settings);
  }

  lemma ExportedRootIsValid(db: Db)
    requires WellFormed(db) && RulesValid(db)
    ensures AlertsValid(Export(db).defaultAlerts) && SingleNames(Export(db).defaults)
  {
    hide AlertsOf, AlertsValid, ValuesFrom, GoodPath, SingleNames, RulesValid;
    ExportedAlertsValid(db, "");
    ExportedNamesAreSingle(db.nodes[""].settings);
  }

  lemma ValidFileIs(f: File)
    requires GoodPaths(f.targets) && AlertsValid(f.defaultAlerts) && SingleNames(f.defaults)
    requires forall p :: p in f.targets ==>
      EntryValid(p, f.targets[p]) && AlertsValid(f.targets[p].alerts) && SingleNames(f.targets[p].values)
    ensures ValidFile(f)
  {
    hide GoodPaths, AlertsValid, SingleNames, EntryValid;
  }

  lemma ExportedNamesAreSingle(s: Settings)
    ensures SingleNames(ValuesFrom(s))
  {
    if Agents in s.strs {
      var names := Fields(s.strs[Agents]);
      FieldsAreWords(s.strs[Agents], "");
      forall k | 0 <= k < |names| ensures |Fields(names[k])| == 1 {
        FieldsOfWord(names[k], "");
      }
    }
  }

  lemma ExportedAlertsValid(db: Db, p: string)
    requires RulesValid(db)
    ensures AlertsValid(AlertsOf(db.rules, p))
  {
    hide RuleValid, RuleOf, AlertFrom;
    forall name | name in AlertsOf(db.rules, p) ensures RuleValid(name, RuleOf(AlertsOf(db.rules, p)[name])) {
      var k :| k in db.rules && k.0 == p && k.1 == name && AlertsOf(db.rules, p)[name] == AlertFrom(db.rules[k]);
      RuleSurvives(name, db.rules[k]);
    }
  }

  lemma SettingsStayValid(p: string, host: Option<string>, family: Option<string>, s: Settings)
    requires NodeValid(p, host, family, s)
    ensures NodeValid(p, host, family, SettingsOf(ValuesFrom(s)))
  {
    ValuesSurvive(s);
    if Agents in s.strs {
      assert StrValid(Agents, s.strs[Agents]);
      JoinedFieldsAreNotBlank(s.strs[Agents]);
      assert SettingsOf(ValuesFrom(s)).strs[Agents] == Text.Join(Fields(s.strs[Agents]), " ");
    }
    hide Blank, Fields, Text.Join, SettingsOf, ValuesFrom, LastName, IntValid;
  }
}
