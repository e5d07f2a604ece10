/** Path changes on their way to the master (internal/agent/agent.go `pushPaths`, internal/api/ingest.go
    `handleAgentPaths`): pages go out oldest first, and a page is confirmed only when answered. */
module PathDrain {
  import opened Options
  import opened Paths
  import opened Sets
  import opened Store
  import opened Pages
  import opened Draining
  import Text

  const PUSH_PATHS: nat := 200
  const MAX_PATHS: nat := 1000
  const MAX_HOPS_PER_PATH: nat := 64

  // ---------------------------------------------------------------- the agent

  datatype Reply = NoReply | Ok200 | Bad400 | NotFound404 | OtherStatus

  /** A 400 is final as well: the same bytes would be refused again. */
  predicate Confirms(r: Reply) { r == Ok200 || r == Bad400 }

  function Pending(log: Log): set<Key> { set k | k in log && !log[k].submitted }

  /** A page of pending changes, oldest first. */
  ghost predicate IsPage(log: Log, page: seq<Key>, limit: nat) {
    OldestPage(Pending(log), page) && |page| == SizeOf(Pending(log), limit)
  }

  method PendingPaths(p: PathLog, limit: nat) returns (page: seq<Key>)
    ensures IsPage(p.log, page, limit)
  {
    page := TakePage(Pending(p.log), limit);
  }

  lemma {:induction false} ConfirmTwice(log: Log, a: seq<Key>, b: seq<Key>)
    ensures ConfirmAll(log, a + b) == ConfirmAll(ConfirmAll(log, a), b)
  {
    if b == [] {
      assert a + b == a;
    } else {
      ConfirmTwice(log, a, b[..|b| - 1]);
      assert (a + b)[..|a + b| - 1] == a + b[..|b| - 1];
    }
  }

  lemma {:induction false} OnlyOthersStayPending(log: Log, keys: seq<Key>)
    ensures forall k :: k in Pending(ConfirmAll(log, keys)) ==> k in Pending(log) && k !in keys
  {
    if keys != [] {
      OnlyOthersStayPending(log, keys[..|keys| - 1]);
      assert forall k :: k in keys <==> k in keys[..|keys| - 1] || k == keys[|keys| - 1];
    }
  }

  /** Confirming a page takes exactly that page off what is pending. */
  lemma ConfirmClears(log: Log, keys: seq<Key>)
    ensures Pending(ConfirmAll(log, keys)) == Pending(log) - Elements(keys)
  {
    OnlyOthersStayPending(log, keys);
    ConfirmKeepsLast(log, keys);
    hide ConfirmAll;
  }

  /** What happens to one page: changes recorded while the request is out, what comes back, and whether
      the log can then be marked. */
  datatype Turn = Turn(recorded: seq<(Key, string)>, reply: Reply, cleared: bool)

  predicate IsConfirmed(turn: Turn) { Confirms(turn.reply) && turn.cleared }

  /** The drain takes another page after this one. */
  predicate GoesOn(page: seq<Key>, turn: Turn) { IsConfirmed(turn) && |page| == PUSH_PATHS }

  function RecordAll(log: Log, cs: seq<(Key, string)>): Log {
    if cs == [] then log
    else RecordedPath(RecordAll(log, cs[..|cs| - 1]), cs[|cs| - 1].0, cs[|cs| - 1].1)
  }

  function AfterTurn(log: Log, page: seq<Key>, turn: Turn): Log {
    var r := RecordAll(log, turn.recorded);
    if IsConfirmed(turn) then ConfirmAll(r, page) else r
  }

  /** Pages sent one after the other, each the oldest pending changes there were when it was read. */
  ghost const PUSH: Loop<Log, Key, Turn> :=
    Loop((log, page, turn) => AfterTurn(log, page, turn),
         (log, page, turn) => page != [] && IsPage(log, page, PUSH_PATHS),
         (page, turn) => GoesOn(page, turn), turn => IsConfirmed(turn), PUSH_PATHS)

  lemma PushIs(log: Log, page: seq<Key>, turn: Turn)
    ensures PUSH.after(log, page, turn) == AfterTurn(log, page, turn)
    ensures PUSH.isPage(log, page, turn) <==> page != [] && IsPage(log, page, PUSH_PATHS)
    ensures PUSH.goesOn(page, turn) <==> GoesOn(page, turn)
    ensures PUSH.taken(turn) <==> IsConfirmed(turn)
    ensures PUSH.full == PUSH_PATHS
  {
    hide IsPage, AfterTurn, GoesOn;
  }

  /** Why a drain ends: the agent stops, nothing is pending, or its last page was not a full one, confirmed
      and marked. */
  ghost predicate Ends(after: Log, pages: seq<seq<Key>>, turns: seq<Turn>)
    requires |pages| <= |turns|
  {
    || |pages| == |turns|
    || Pending(after) == {}
    || (pages != [] && !GoesOn(pages[|pages| - 1], turns[|pages| - 1]))
  }

  class Agent {
    const paths: PathLog
    var pathsUnsupported: bool

    constructor (paths: PathLog)
      ensures this.paths == paths && !pathsUnsupported
    {
      this.paths := paths;
      pathsUnsupported := false;
    }

    /** `pushPaths`: the pages it sent. Only pages answered with a 200 or a 400 are confirmed; any other
        answer, or none, ends the drain and keeps its page and all after it. */
    method PushPaths(turns: seq<Turn>) returns (pages: seq<seq<Key>>)
      modifies this, paths
      ensures Drained(PUSH, old(paths.log), pages, turns)
      ensures paths.log == AfterTurns(PUSH, old(paths.log), pages, turns)
      ensures Ends(paths.log, pages, turns)
      ensures pathsUnsupported == Unsupported(old(pathsUnsupported), |pages|, turns)
    {
      hide ConfirmAll, IsPage, Drained, PUSH;
      ghost var before := paths.log;
      pages := [];
      NothingDrained(PUSH, before, turns);
      while |pages| < |turns|
        invariant Drained(PUSH, before, pages, turns) && |pages| <= |turns|
        invariant paths.log == AfterTurns(PUSH, before, pages, turns)
        invariant pages != [] ==> GoesOn(pages[|pages| - 1], turns[|pages| - 1])
        invariant pathsUnsupported == Unsupported(old(pathsUnsupported), |pages|, turns)
        decreases |turns| - |pages|
      {
        var page := PendingPaths(paths, PUSH_PATHS);
        ShortIsAll(paths.log, page);
        if |page| == 0 {
          return;
        }
        var turn := turns[|pages|];
        PushIs(paths.log, page, turn);
        LastGoesOn(pages, turns);
        DrainedOneMore(PUSH, before, pages, turns, page);
        pages := pages + [page];
        RecordPaths(paths, turn.recorded);
        if turn.reply == NotFound404 {
          pathsUnsupported := true;
          return;
        }
        if !Confirms(turn.reply) {
          return;
        }
        pathsUnsupported := false;
        if !turn.cleared {
          return;
        }
        paths.PathsSubmitted(page);
        if |page| < PUSH_PATHS {
          return;
        }
      }
    }
  }

  /** The prober's side, while a request is out. */
  method RecordPaths(p: PathLog, cs: seq<(Key, string)>)
    modifies p
    ensures p.log == RecordAll(old(p.log), cs)
  {
    ghost var before := p.log;
    for i := 0 to |cs|
      invariant p.log == RecordAll(before, cs[..i])
    {
      assert cs[..i + 1][..i] == cs[..i];
      p.RecordPath(cs[i].0, cs[i].1);
    }
    assert cs[..|cs|] == cs;
  }

  /** What the last answer that said something about the route said. */
  function Unsupported(before: bool, sent: nat, turns: seq<Turn>): bool
    requires sent <= |turns|
  {
    if sent == 0 then before
    else if turns[sent - 1].reply == NotFound404 then true
    else if Confirms(turns[sent - 1].reply) then false
    else Unsupported(before, sent - 1, turns)
  }

  lemma ShortIsAll(log: Log, page: seq<Key>)
    requires IsPage(log, page, PUSH_PATHS)
    ensures |page| <= PUSH_PATHS && (|page| < PUSH_PATHS ==> |page| == |Pending(log)|)
  {
    hide OldestPage;
  }

  /** Every page but the last is of 200 changes, and the last of no more. */
  lemma PagesAreFull(log: Log, pages: seq<seq<Key>>, turns: seq<Turn>, i: nat)
    requires Drained(PUSH, log, pages, turns) && i < |pages|
    ensures 0 < |pages[i]| <= 200 && (i < |pages| - 1 ==> |pages[i]| == 200)
  {
    DrainedAt(PUSH, log, pages, turns, i);
    var before := AfterTurns(PUSH, log, pages[..i], turns);
    PushIs(before, pages[i], turns[i]);
    hide AfterTurns, PUSH, IsPage;
    ShortIsAll(before, pages[i]);
  }

  lemma LastGoesOn(pages: seq<seq<Key>>, turns: seq<Turn>)
    requires |pages| <= |turns| && (pages != [] ==> GoesOn(pages[|pages| - 1], turns[|pages| - 1]))
    ensures pages != [] ==> PUSH.goesOn(pages[|pages| - 1], turns[|pages| - 1])
  {
    hide GoesOn;
  }

  /** A change that is pending at some point of a drain, before it or recorded during it, is pending at its
      end, unless it was sent in a later page that was confirmed. */
  lemma OnlyConfirmedIsCleared(log: Log, pages: seq<seq<Key>>, turns: seq<Turn>, j: nat, k: Key)
    requires Drained(PUSH, log, pages, turns) && |pages| <= |turns|
    requires j <= |pages| && k in Pending(AfterTurns(PUSH, log, pages[..j], turns))
    ensures k in Pending(AfterTurns(PUSH, log, pages, turns))
      || exists i :: j <= i < |pages| && IsConfirmed(turns[i]) && k in pages[i]
  {
    hide *;
    var holds, on := (after: Log) => k in Pending(after), (page: seq<Key>) => k in page;
    forall before, page, turn | holds(before) && !holds(PUSH.after(before, page, turn))
      ensures PUSH.taken(turn) && on(page)
    {
      PushIs(before, page, turn);
      TurnKeeps(before, page, turn, k);
    }
    OnlyTakenGoes(PUSH, log, pages, turns, j, holds, on);
    if !holds(AfterTurns(PUSH, log, pages, turns)) {
      var i :| j <= i < |pages| && PUSH.taken(turns[i]) && on(pages[i]);
      PushIs(log, pages[i], turns[i]);
    }
  }

  lemma {:induction false} RecordingKeepsPending(log: Log, cs: seq<(Key, string)>, k: Key)
    requires k in Pending(log)
    ensures k in Pending(RecordAll(log, cs))
  {
    if cs != [] {
      RecordingKeepsPending(log, cs[..|cs| - 1], k);
    }
  }

  lemma TurnKeeps(log: Log, page: seq<Key>, turn: Turn, k: Key)
    requires k in Pending(log)
    ensures k in Pending(AfterTurn(log, page, turn)) || (IsConfirmed(turn) && k in page)
  {
    RecordingKeepsPending(log, turn.recorded, k);
    ConfirmClears(RecordAll(log, turn.recorded), page);
    hide Pending, RecordAll, ConfirmAll;
  }

  ghost predicate Quiet(turns: seq<Turn>, n: nat) {
    forall i :: 0 <= i < n && i < |turns| ==> turns[i].recorded == []
  }

  /** While nothing new is recorded, a drain confirms exactly the pages answered and marked, all full but
      perhaps the last; and nothing still pending is older than anything confirmed. */
  lemma {:induction false} QuietDrain(log: Log, pages: seq<seq<Key>>, turns: seq<Turn>)
    requires Drained(PUSH, log, pages, turns) && |pages| <= |turns| && Quiet(turns, |pages|)
    ensures var done, after := Taken(PUSH, pages, turns), AfterTurns(PUSH, log, pages, turns);
      && after == ConfirmAll(log, done) && |Pending(after)| == |Pending(log)| - |done|
      && OlderThan(done, Pending(after))
      && |done| == Amount(PUSH, pages, turns)
  {
    hide *;
    if pages == [] {
      NothingDrained(PUSH, log, turns);
      NothingTaken(log, turns);
    } else {
      var n := |pages| - 1;
      assert Quiet(turns, n) && turns[n].recorded == [] by { QuietBefore(turns, n); }
      DrainedLast(PUSH, log, pages, turns);
      QuietDrain(log, pages[..n], turns);
      var before, done := AfterTurns(PUSH, log, pages[..n], turns), Taken(PUSH, pages[..n], turns);
      PushIs(before, pages[n], turns[n]);
      QuietAfter(before, pages[n], turns[n]);
      TakenLast(pages, turns);
      QuietTurn(log, before, done, pages[n]);
    }
    AmountIs(log, pages, turns);
  }

  lemma AmountIs(log: Log, pages: seq<seq<Key>>, turns: seq<Turn>)
    requires Drained(PUSH, log, pages, turns) && |pages| <= |turns|
    ensures |Taken(PUSH, pages, turns)| == Amount(PUSH, pages, turns)
  {
    hide IsPage, AfterTurn, Drained, Taken, Amount;
    AmountTaken(PUSH, log, pages, turns);
  }

  lemma NothingTaken(log: Log, turns: seq<Turn>)
    ensures Taken(PUSH, [], turns) == [] && ConfirmAll(log, []) == log && OlderThan([], Pending(log))
  {
  }

  lemma QuietBefore(turns: seq<Turn>, n: nat)
    requires Quiet(turns, n + 1) && n < |turns|
    ensures Quiet(turns, n) && turns[n].recorded == []
  {
  }

  lemma QuietAfter(log: Log, page: seq<Key>, turn: Turn)
    requires turn.recorded == []
    ensures AfterTurn(log, page, turn) == if IsConfirmed(turn) then ConfirmAll(log, page) else log
  {
    hide ConfirmAll;
  }

  lemma TakenLast(pages: seq<seq<Key>>, turns: seq<Turn>)
    requires pages != [] && |pages| <= |turns|
    ensures var n := |pages| - 1;
      Taken(PUSH, pages, turns) ==
        if IsConfirmed(turns[n]) then Taken(PUSH, pages[..n], turns) + pages[n] else Taken(PUSH, pages[..n], turns)
  {
    hide IsConfirmed;
  }

  lemma QuietTurn(log: Log, before: Log, done: seq<Key>, page: seq<Key>)
    requires before == ConfirmAll(log, done) && |Pending(before)| == |Pending(log)| - |done|
    requires OlderThan(done, Pending(before)) && IsPage(before, page, PUSH_PATHS)
    ensures var after := ConfirmAll(before, page);
      && after == ConfirmAll(log, done + page) && |Pending(after)| == |Pending(log)| - |done + page|
      && OlderThan(done + page, Pending(after))
  {
    hide OldestPage, Pending, ConfirmAll, OlderThan;
    ConfirmTwice(log, done, page);
    ConfirmClears(before, page);
    PageSize(Pending(before), page);
    StillOlder(done, Pending(before), page);
  }

  /** With every page confirmed nothing stays pending. */
  lemma ConfirmedDrainEmpties(log: Log, pages: seq<seq<Key>>, turns: seq<Turn>)
    requires Drained(PUSH, log, pages, turns) && Ends(AfterTurns(PUSH, log, pages, turns), pages, turns)
    requires forall i :: 0 <= i < |turns| ==> IsConfirmed(turns[i]) && turns[i].recorded == []
    requires |Pending(log)| < PUSH_PATHS * |turns|
    ensures Pending(AfterTurns(PUSH, log, pages, turns)) == {}
  {
    assert |pages| <= |turns|;
    hide IsPage, AfterTurn, ConfirmAll, OlderThan, AfterTurns, Drained, Taken, Pending, PUSH, Amount;
    QuietDrain(log, pages, turns);
    var n := |pages|;
    AmountSo(pages, turns);
    if pages != [] {
      var before := AfterTurns(PUSH, log, pages[..n - 1], turns);
      DrainedLast(PUSH, log, pages, turns);
      PushIs(before, pages[n - 1], turns[n - 1]);
      ShortIsAll(before, pages[n - 1]);
      if |pages[n - 1]| < PUSH_PATHS {
        QuietDrain(log, pages[..n - 1], turns);
        TakenLast(pages, turns);
        assert |Pending(AfterTurns(PUSH, log, pages, turns))| == 0;
      }
    }
  }

  lemma AmountSo(pages: seq<seq<Key>>, turns: seq<Turn>)
    requires |pages| <= |turns| && forall i :: 0 <= i < |turns| ==> IsConfirmed(turns[i])
    ensures pages != [] ==> Amount(PUSH, pages, turns) == PUSH_PATHS * (|pages| - 1) + |pages[|pages| - 1]|
  {
    hide IsConfirmed;
  }

  // ---------------------------------------------------------------- the master

  datatype PathRow = PathRow(target: int, ts: int, hops: seq<string>)

  /** At least one hop, each an address or "*". */
  predicate ValidHops(hops: seq<string>, address: string -> bool) {
    1 <= |hops| <= MAX_HOPS_PER_PATH && forall i :: 0 <= i < |hops| ==> hops[i] == "*" || address(hops[i])
  }

  predicate PathKept(p: PathRow, assignedTo: set<int>, horizon: int, address: string -> bool) {
    p.target in assignedTo && p.ts <= horizon && ValidHops(p.hops, address)
  }

  function Stored(p: PathRow): (Key, string) { (Key(p.target, 0, p.ts), Text.Join(p.hops, ",")) }

  function KeptPaths(rows: seq<PathRow>, assignedTo: set<int>, horizon: int, address: string -> bool)
    : seq<(Key, string)>
  {
    if rows == [] then []
    else
      var last := rows[|rows| - 1];
      KeptPaths(rows[..|rows| - 1], assignedTo, horizon, address)
        + if PathKept(last, assignedTo, horizon, address) then [Stored(last)] else []
  }

  /** `handleAgentPaths`, up to the store: None is its 400, for a body that is not the JSON it should be or
      lists too many paths. A page of the agent's own size is never too long. */
  method FilterPaths(body: Option<seq<PathRow>>, assignedTo: set<int>, horizon: int, address: string -> bool)
      returns (kept: Option<seq<(Key, string)>>, dropped: nat)
    ensures kept.None? <==> body.None? || |body.value| > 1000
    ensures body.Some? && |body.value| <= PUSH_PATHS ==> kept.Some?
    ensures kept.Some? ==> kept.value == KeptPaths(body.value, assignedTo, horizon, address)
    ensures kept.Some? ==> |kept.value| + dropped == |body.value|
  {
    hide ValidHops;
    dropped := 0;
    if body.None? || |body.value| > MAX_PATHS {
      return None, 0;
    }
    var rows, taken := body.value, [];
    for i := 0 to |rows|
      invariant taken == KeptPaths(rows[..i], assignedTo, horizon, address) && |taken| + dropped == i
    {
      assert rows[..i + 1][..i] == rows[..i];
      var p := rows[i];
      if p.target !in assignedTo || p.ts > horizon || !ValidHops(p.hops, address) {
        dropped := dropped + 1;
      } else {
        taken := taken + [Stored(p)];
      }
    }
    assert rows[..|rows|] == rows;
    kept := Some(taken);
  }

  /** A path of an assigned target, not of the future, of one to sixty-four hops that are addresses or unknown. */
  ghost predicate Acceptable(p: PathRow, assignedTo: set<int>, horizon: int, address: string -> bool) {
    && p.target in assignedTo && p.ts <= horizon && p.hops != [] && |p.hops| <= 64
    && forall h :: h in p.hops ==> h == "*" || address(h)
  }

  ghost function AcceptableOnes(rows: seq<PathRow>, assignedTo: set<int>, horizon: int, address: string -> bool)
    : set<int>
  {
    set i | 0 <= i < |rows| && Acceptable(rows[i], assignedTo, horizon, address)
  }

  ghost predicate IsOf(c: (Key, string), p: PathRow) { c == (Key(p.target, 0, p.ts), Text.Join(p.hops, ",")) }

  lemma KeptIsAcceptable(p: PathRow, assignedTo: set<int>, horizon: int, address: string -> bool)
    ensures PathKept(p, assignedTo, horizon, address) <==> Acceptable(p, assignedTo, horizon, address)
  {
    if PathKept(p, assignedTo, horizon, address) {
      forall h | h in p.hops ensures h == "*" || address(h) {
        var i :| 0 <= i < |p.hops| && p.hops[i] == h;
      }
    }
  }

  /** What the master keeps of a report: each acceptable path, under its target and time, and nothing else. */
  lemma {:induction false} KeptPathsAre(rows: seq<PathRow>, assignedTo: set<int>, horizon: int,
                                        address: string -> bool)
    ensures var kept := KeptPaths(rows, assignedTo, horizon, address);
      && |kept| == |AcceptableOnes(rows, assignedTo, horizon, address)|
      && (forall p :: p in rows && Acceptable(p, assignedTo, horizon, address) ==>
           (Key(p.target, 0, p.ts), Text.Join(p.hops, ",")) in kept)
      && (forall c :: c in kept ==> exists p ::
           p in rows && Acceptable(p, assignedTo, horizon, address) && IsOf(c, p))
  {
    hide PathKept, Acceptable, Text.Join;
    if rows == [] {
      assert AcceptableOnes(rows, assignedTo, horizon, address) == {};
    } else {
      var n := |rows| - 1;
      KeptPathsAre(rows[..n], assignedTo, horizon, address);
      KeptIsAcceptable(rows[n], assignedTo, horizon, address);
      AcceptableSplits(rows, assignedTo, horizon, address);
      assert forall p :: p in rows <==> p in rows[..n] || p == rows[n];
      hide AcceptableOnes;
    }
  }

  lemma AcceptableSplits(rows: seq<PathRow>, assignedTo: set<int>, horizon: int, address: string -> bool)
    requires rows != []
    ensures var n := |rows| - 1;
      |AcceptableOnes(rows, assignedTo, horizon, address)| == |AcceptableOnes(rows[..n], assignedTo, horizon, address)|
        + if Acceptable(rows[n], assignedTo, horizon, address) then 1 else 0
  {
    hide Acceptable;
    var n := |rows| - 1;
    var fewer := AcceptableOnes(rows[..n], assignedTo, horizon, address);
    forall i | 0 <= i < n ensures rows[..n][i] == rows[i] {
    }
    assert n !in fewer;
    assert AcceptableOnes(rows, assignedTo, horizon, address) ==
      if Acceptable(rows[n], assignedTo, horizon, address) then fewer + {n} else fewer;
  }

  /** As the agent puts a change on the wire. */
  function OnTheWire(key: Key, hops: string): PathRow { PathRow(key.target, key.ts, Text.Split(hops, ',')) }

  /** A path arrives as it was recorded. */
  lemma HopsSurvive(key: Key, hops: string)
    ensures Stored(OnTheWire(key, hops)) == (Key(key.target, 0, key.ts), hops)
  {
    Text.JoinOfSplit(hops, ',');
  }

  /** On the master the first write wins: nothing there changes, what is new is under the agent's own id
      and is one of the changes offered. */
  lemma {:induction false} PathFirstWriteWins(log: Log, agent: int, cs: seq<(Key, string)>)
    ensures var after := IngestAll(log, agent, cs);
      && (forall k :: k in log ==> k in after && after[k] == log[k])
      && (forall c :: c in cs ==> Key(c.0.target, agent, c.0.ts) in after)
      && (forall k :: k in after && k !in log ==> k.agent == agent && OfferedAs(cs, k, after[k]))
  {
    if cs != [] {
      var n := |cs| - 1;
      PathFirstWriteWins(log, agent, cs[..n]);
      assert forall c :: c in cs <==> c in cs[..n] || c == cs[n];
    }
  }

  ghost predicate OfferedAs(cs: seq<(Key, string)>, k: Key, stored: Change) {
    exists c :: c in cs && c.0.target == k.target && c.0.ts == k.ts && stored == Change(c.1, true)
  }
}
