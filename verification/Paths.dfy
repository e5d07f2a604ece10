/** The route log (internal/store/agents.go): on an agent it is an outbox that always keeps the latest
    change of each series; on the master the first write wins. */
module Paths {
  import opened Options
  import opened Store

  datatype Change = Change(hops: string, submitted: bool)

  type Log = map<Key, Change>

  predicate SameSeries(a: Key, b: Key) { a.target == b.target && a.agent == b.agent }

  /** k is the most recent change of its series. */
  ghost predicate IsLast(log: Log, k: Key) {
    k in log && forall other :: other in log && SameSeries(other, k) ==> other.ts <= k.ts
  }

  /** One turn of `PathsSubmitted`: mark the change confirmed, then forget confirmed changes that are
      not the latest of its series. */
  function Confirm(log: Log, key: Key): Log {
    var marked := if key in log then log[key := log[key].(submitted := true)] else log;
    map k | k in marked && !(SameSeries(k, key) && marked[k].submitted && Superseded(marked, k)) :: marked[k]
  }

  function RecordedPath(log: Log, key: Key, hops: string): Log { log[key := Change(hops, false)] }

  predicate Superseded(log: Log, k: Key) {
    exists other :: other in log && SameSeries(other, k) && k.ts < other.ts
  }

  function ConfirmAll(log: Log, keys: seq<Key>): Log {
    if keys == [] then log else Confirm(ConfirmAll(log, keys[..|keys| - 1]), keys[|keys| - 1])
  }

  function IngestAll(log: Log, agent: int, cs: seq<(Key, string)>): Log {
    if cs == [] then log
    else
      var l := IngestAll(log, agent, cs[..|cs| - 1]);
      var (k, hops) := cs[|cs| - 1];
      var own := Key(k.target, agent, k.ts);
      if own in l then l else l[own := Change(hops, true)]
  }

  class PathLog {
    var log: Log

    constructor ()
      ensures log == map[]
    {
      log := map[];
    }

    /** `RecordPath`: INSERT OR REPLACE, which also makes the change pending again. One no older than the
        rest of its series becomes its latest; other series keep theirs. */
    method RecordPath(key: Key, hops: string)
      modifies this
      ensures log == RecordedPath(old(log), key, hops)
      ensures IsLast(log, key) <==> forall k :: k in old(log) && SameSeries(k, key) ==> k.ts <= key.ts
      ensures forall k :: !SameSeries(k, key) ==> (IsLast(log, k) <==> IsLast(old(log), k))
    {
      log := log[key := Change(hops, false)];
    }

    /** `LastPath`: the hops of the latest change, or the empty string. */
    method LastPath(target: int, agent: int) returns (hops: string)
      ensures (forall k :: k in log ==> k.target != target || k.agent != agent) ==> hops == ""
      ensures forall k :: IsLast(log, k) && k.target == target && k.agent == agent ==> hops == log[k].hops
    {
      var best: Option<Key> := None;
      var todo := log.Keys;
      while todo != {}
        invariant todo <= log.Keys
        invariant best.Some? ==> best.value in log && best.value.target == target && best.value.agent == agent
        invariant forall k :: k in log && k !in todo && k.target == target && k.agent == agent ==>
          best.Some? && k.ts <= best.value.ts
      {
        var k :| k in todo;
        todo := todo - {k};
        if k.target == target && k.agent == agent && (best.None? || best.value.ts < k.ts) {
          best := Some(k);
        }
      }
      forall k | IsLast(log, k) && k.target == target && k.agent == agent ensures best == Some(k) {
        assert best.Some? && SameSeries(best.value, k);
      }
      return if best.Some? then log[best.value].hops else "";
    }

    /** `PathsSubmitted`. */
    method PathsSubmitted(keys: seq<Key>)
      modifies this
      ensures log == ConfirmAll(old(log), keys)
    {
      ghost var before := log;
      for i := 0 to |keys|
        invariant log == ConfirmAll(before, keys[..i])
      {
        assert keys[..i + 1][..i] == keys[..i];
        var key := keys[i];
        if key in log {
          log := log[key := log[key].(submitted := true)];
        }
        log := map k | k in log && !(SameSeries(k, key) && log[k].submitted && Superseded(log, k)) :: log[k];
      }
      assert keys[..|keys|] == keys;
    }

    /** `IngestPaths`: restamped with the agent's own id; returns how many were already there. */
    method IngestPaths(agent: int, cs: seq<(Key, string)>) returns (duplicates: nat)
      modifies this
      ensures log == IngestAll(old(log), agent, cs)
      ensures |cs| - duplicates == |log| - |old(log)|
    {
      ghost var before := log;
      duplicates := 0;
      for i := 0 to |cs|
        invariant log == IngestAll(before, agent, cs[..i])
        invariant i - duplicates == |log| - |before|
      {
        assert cs[..i + 1][..i] == cs[..i];
        var own := Key(cs[i].0.target, agent, cs[i].0.ts);
        if own in log {
          duplicates := duplicates + 1;
        } else {
          log := log[own := Change(cs[i].1, true)];
        }
      }
      assert cs[..|cs|] == cs;
    }
  }

  /** Confirming keeps the latest change of every series, and its hops, and adds nothing; a pending
      change that was not among those confirmed is still there and still pending. */
  lemma {:induction false} ConfirmKeepsLast(log: Log, keys: seq<Key>)
    ensures var l := ConfirmAll(log, keys);
      && (forall k :: IsLast(log, k) <==> IsLast(l, k))
      && (forall k :: IsLast(log, k) ==> l[k].hops == log[k].hops)
      && (forall k :: k in l ==> k in log && l[k].hops == log[k].hops)
      && (forall k :: k in log && !log[k].submitted && k !in keys ==> k in l && !l[k].submitted)
  {
    if keys != [] {
      var last := |keys| - 1;
      ConfirmKeepsLast(log, keys[..last]);
      ConfirmOneKeepsLast(ConfirmAll(log, keys[..last]), keys[last]);
      assert forall k :: k !in keys ==> k !in keys[..last];
    }
  }

  /** The latest change of k's series: the latest survives anything that only drops superseded ones. */
  lemma ConfirmOneKeepsLast(log: Log, key: Key)
    ensures var l := Confirm(log, key);
      && (forall k :: IsLast(log, k) <==> IsLast(l, k))
      && (forall k :: k in l ==> k in log && l[k].hops == log[k].hops)
      && (forall k :: k in log && !log[k].submitted && k != key ==> k in l && !l[k].submitted)
  {
    var l := Confirm(log, key);
    forall k ensures IsLast(log, k) <==> IsLast(l, k) {
      if IsLast(l, k) {
        forall other | other in log && SameSeries(other, k) ensures other.ts <= k.ts {
          var top := Latest(log, other);
          assert top in l;
          assert SameSeries(top, k);
        }
      }
    }
  }

  ghost function Later(log: Log, k: Key): set<Key> {
    set other | other in log && SameSeries(other, k) && k.ts < other.ts
  }

  lemma Latest(log: Log, k: Key) returns (top: Key)
    requires k in log
    ensures IsLast(log, top) && SameSeries(top, k) && k.ts <= top.ts
    decreases Later(log, k)
  {
    if other :| other in log && SameSeries(other, k) && k.ts < other.ts {
      assert other in Later(log, k) && Later(log, other) <= Later(log, k);
      top := Latest(log, other);
    } else {
      top := k;
    }
  }

  /** `LastPath` says the same before and after `PathsSubmitted`, for every series: a route that did not
      change is not reported as one that did. */
  method LastPathUnchanged(p: PathLog, keys: seq<Key>, target: int, agent: int) returns (before: string, after: string)
    modifies p
    ensures p.log == ConfirmAll(old(p.log), keys)
    ensures before == after
  {
    before := p.LastPath(target, agent);
    ghost var log := p.log;
    p.PathsSubmitted(keys);
    after := p.LastPath(target, agent);
    ConfirmKeepsLast(log, keys);
    if k :| k in log && k.target == target && k.agent == agent {
      ghost var top := Latest(log, k);
      assert IsLast(p.log, top);
    }
  }
}
