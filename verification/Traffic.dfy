/** What the limits on load come to on the wire (internal/tree/limits.go, internal/probe/scheduler.go): the pings
    that the schedule of every running target sends in some stretch of time, counted one by one. */
module Traffic {
  import opened Options
  import opened Sets
  import opened Tree
  import opened TreeIndex
  import opened TreeLimits
  import opened TreeRuns
  import Schedule
  import Arithmetic

  // ---------------------------------------------------------------- one target

  /** Target, bucket and number of a ping. */
  type Send = (int, int, int)

  /** A ping of the schedule whose send time lies between two instants. */
  ghost predicate SentIn(s: Schedule.Spec, hash: Schedule.Hash, b: int, i: int, from: int, to: int)
    requires s.pings > 0 && s.intervalS > 0
  {
    Schedule.Aligned(b, s.intervalS) && 0 <= i < s.pings && from <= Schedule.SendTime(s, hash, b, i) < to
  }

  /** .. of one target. */
  ghost predicate OfTarget(y: Send, id: int, s: Schedule.Spec, hash: Schedule.Hash, from: int, to: int)
    requires s.pings > 0 && s.intervalS > 0
  {
    y.0 == id && SentIn(s, hash, y.1, y.2, from, to)
  }

  /** Consecutive multiples of iv. */
  function Multiples(iv: int, first: int, k: nat): set<int> {
    if k == 0 then {} else Multiples(iv, first, k - 1) + {(first + k - 1) * iv}
  }

  lemma MultipleIs(b: int, iv: int, n: int)
    requires iv > 0
    ensures b % iv == 0 && b / iv == n <==> b == n * iv
  {
    Arithmetic.MultipleHasNoRemainder(n, iv);
  }

  lemma {:induction false} MultiplesAre(iv: int, first: int, k: nat)
    requires iv > 0
    ensures |Multiples(iv, first, k)| == k
    ensures forall b :: b in Multiples(iv, first, k) <==> b % iv == 0 && first <= b / iv < first + k
  {
    if k > 0 {
      MultiplesAre(iv, first, k - 1);
      var fewer, last := Multiples(iv, first, k - 1), first + k - 1;
      assert Multiples(iv, first, k) == fewer + {last * iv};
      hide *;
      MultipleIs(last * iv, iv, last);
      forall b ensures b in fewer + {last * iv} <==> b % iv == 0 && first <= b / iv < first + k {
        MultipleIs(b, iv, last);
      }
    } else {
      assert Multiples(iv, first, k) == {};
    }
  }

  /** The first multiple of p at or past x is this many times p. */
  function Upwards(x: int, p: int): int
    requires p > 0
  {
    -(-x / p)
  }

  lemma UpwardsIs(x: int, p: int, m: int)
    requires p > 0
    ensures m * p >= x <==> m >= Upwards(x, p)
  {
    Arithmetic.QuotientBelow(-x, p, -m);
    Arithmetic.QuotientBelow(-x, p, -m + 1);
    Arithmetic.MulDistributes(-m, 1, p);
  }

  lemma MovedBy(m: int, k: int, p: int)
    ensures (m - k) * p == m * p - k * p
  {
  }

  lemma WindowHolds(x: int, p: int, m: int, k: nat)
    requires p > 0
    ensures x <= m * p < x + k * p <==> Upwards(x, p) <= m < Upwards(x, p) + k
  {
    hide Upwards;
    UpwardsIs(x, p, m);
    UpwardsIs(x, p, m - k);
    MovedBy(m, k, p);
  }

  lemma SendTimeIs(s: Schedule.Spec, hash: Schedule.Hash, b: int, i: nat)
    requires s.pings > 0 && s.intervalS > 0
    ensures Schedule.SendTime(s, hash, b, i) == b * Schedule.SECOND + Schedule.SendTime(s, hash, 0, i)
    ensures b % s.intervalS == 0 ==> b * Schedule.SECOND == b / s.intervalS * (s.intervalS * Schedule.SECOND)
  {
    hide Schedule.PhaseOffset, Schedule.Wrap, Schedule.Step;
    if b % s.intervalS == 0 {
      assert b == b / s.intervalS * s.intervalS;
      Arithmetic.MulAssociates(b / s.intervalS, s.intervalS, Schedule.SECOND);
    }
  }

  /** Every interval long, each ping of the train is sent once, wherever the stretch begins. */
  lemma PingSends(id: int, s: Schedule.Spec, hash: Schedule.Hash, i: nat, from: int, k: nat) returns (sends: set<Send>)
    requires s.intervalS > 0 && i < s.pings
    ensures |sends| == k
    ensures forall y :: y in sends <==>
      y.0 == id && y.2 == i && SentIn(s, hash, y.1, i, from, from + k * (s.intervalS * Schedule.SECOND))
  {
    hide Schedule.SendTime;
    var p := s.intervalS * Schedule.SECOND;
    var x := from - Schedule.SendTime(s, hash, 0, i);
    var first := Upwards(x, p);
    MultiplesAre(s.intervalS, first, k);
    var buckets := Multiples(s.intervalS, first, k);
    hide Multiples, Upwards;
    forall b ensures b in buckets <==> SentIn(s, hash, b, i, from, from + k * p) {
      SendTimeIs(s, hash, b, i);
      WindowHolds(x, p, b / s.intervalS, k);
    }
    sends := set b | b in buckets :: (id, b, i as int);
    Tagged(id, i, buckets, sends);
  }

  lemma {:induction false} Tagged(id: int, i: int, buckets: set<int>, sends: set<Send>)
    requires sends == set b | b in buckets :: (id, b, i)
    ensures |sends| == |buckets|
  {
    if buckets == {} {
      assert sends == {};
    } else {
      var b := Pick(buckets);
      var rest := set c | c in buckets - {b} :: (id, c, i);
      Tagged(id, i, buckets - {b}, rest);
      assert buckets == (buckets - {b}) + {b};
      assert sends == rest + {(id, b, i)};
    }
  }

  /** So a target sends its pings once every interval: k times as many in any stretch of k intervals. */
  lemma TargetSends(id: int, s: Schedule.Spec, hash: Schedule.Hash, from: int, k: nat) returns (sends: set<Send>)
    requires s.intervalS > 0 && s.pings > 0
    ensures |sends| == k * s.pings
    ensures forall y :: y in sends <==> OfTarget(y, id, s, hash, from, from + k * (s.intervalS * Schedule.SECOND))
  {
    hide Schedule.SendTime, Schedule.Aligned;
    sends := {};
    var to := from + k * (s.intervalS * Schedule.SECOND);
    var n := 0;
    while n < s.pings
      invariant 0 <= n <= s.pings && |sends| == k * n
      invariant forall y :: y in sends <==> y.0 == id && y.2 < n && SentIn(s, hash, y.1, y.2, from, to)
    {
      var more := PingSends(id, s, hash, n, from, k);
      Arithmetic.MulDistributes(n, 1, k);
      sends := sends + more;
      n := n + 1;
    }
  }

  // ---------------------------------------------------------------- all of them

  ghost predicate RunsAt(nodes: Nodes, id: int) { id in nodes && nodes[id].host.Some? && nodes[id].enabled }

  /** A ping that a running target of the tree sends between two instants. */
  ghost predicate TreeSends(nodes: Nodes, hashes: int -> Schedule.Hash, y: Send, from: int, to: int)
    requires ValidNodes(nodes)
  {
    && RunsAt(nodes, y.0) && SpecOf(nodes, y.0).pings > 0 && SpecOf(nodes, y.0).intervalS > 0
    && OfTarget(y, y.0, SpecOf(nodes, y.0), hashes(y.0), from, to)
  }

  /** A stretch of whole seconds that every running target's interval divides. */
  ghost predicate WholeIntervals(nodes: Nodes, seconds: nat)
    requires ValidNodes(nodes)
  {
    forall id :: RunsAt(nodes, id) && SpecOf(nodes, id).intervalS > 0 ==> seconds % SpecOf(nodes, id).intervalS == 0
  }

  lemma SpecIsLoad(nodes: Nodes, id: int)
    requires ValidNodes(nodes) && id in nodes
    ensures var s, l := SpecOf(nodes, id), LoadOf(nodes, id);
      s.pings == l.pings >= 1 && s.intervalS == l.interval >= 1
  {
    hide ChainOf, ValidNodes, IntOf, StrOf;
  }

  /** The rate that the limits speak of is what is sent. */
  lemma RateIsSends(nodes: Nodes, id: int, hash: Schedule.Hash, from: int, k: nat) returns (sends: set<Send>)
    requires ValidNodes(nodes) && id in nodes
    ensures var s := SpecOf(nodes, id);
      && s.pings > 0 && s.intervalS > 0
      && (forall y :: y in sends <==> OfTarget(y, id, s, hash, from, from + k * (s.intervalS * Schedule.SECOND)))
      && |sends| == k * s.pings
      && |sends| as real == ProbeRate(LoadOf(nodes, id)) * (k * s.intervalS) as real
  {
    hide *;
    SpecIsLoad(nodes, id);
    var s, l := SpecOf(nodes, id), LoadOf(nodes, id);
    sends := TargetSends(id, s, hash, from, k);
    RateTimes(l, k);
  }

  lemma RateTimes(l: Load, k: nat)
    requires Sane(l)
    ensures ProbeRate(l) * (k * l.interval) as real == (k * l.pings) as real
  {
    var q := l.pings as real / l.interval as real;
    assert q * l.interval as real == l.pings as real;
    assert (k * l.interval) as real == k as real * l.interval as real;
    RealSwap(q, k as real, l.interval as real);
  }

  lemma RealSwap(q: real, a: real, b: real)
    ensures q * (a * b) == a * (q * b)
  {
  }

  ghost predicate Among(targets: seq<Target>, id: int) { exists k :: 0 <= k < |targets| && targets[k].id == id }

  /** The list is of nodes of the index. */
  ghost predicate Entries(nodes: Nodes, targets: seq<Target>) {
    forall k :: 0 <= k < |targets| ==> targets[k].id in nodes && nodes[targets[k].id] == targets[k]
  }

  lemma EntriesGive(nodes: Nodes, targets: seq<Target>)
    requires Entries(nodes, targets)
    ensures forall k :: 0 <= k < |targets| ==> targets[k].id in nodes && nodes[targets[k].id] == targets[k]
    ensures targets != [] ==> Entries(nodes, targets[..|targets| - 1])
  {
  }

  lemma {:induction false} ListSends(nodes: Nodes, targets: seq<Target>, hashes: int -> Schedule.Hash, from: int,
                                     seconds: nat)
      returns (sends: set<Send>)
    requires ValidNodes(nodes) && WholeIntervals(nodes, seconds) && UniqueIds(targets) && Entries(nodes, targets)
    ensures forall k :: 0 <= k < |targets| ==> targets[k].id in nodes
    ensures forall y :: y in sends <==>
      Among(targets, y.0) && TreeSends(nodes, hashes, y, from, from + seconds * Schedule.SECOND)
    ensures |sends| as real == TotalRate(nodes, targets) * seconds as real
  {
    hide *;
    EntriesGive(nodes, targets);
    if targets == [] {
      sends := {};
      NothingSent(nodes, seconds);
    } else {
      var n := |targets| - 1;
      var first, last := targets[..n], targets[n];
      assert targets == first + [last];
      LastIsNew(first, last);
      var most := ListSends(nodes, first, hashes, from, seconds);
      var more := OneSends(nodes, last, hashes, from, seconds);
      sends := most + more;
      ListSplits(first, last);
      DisjointSize(most, more);
      TotalSplits(nodes, targets);
      RealSum(TotalRate(nodes, first), RateTerm(nodes, last), seconds as real);
    }
  }

  lemma NothingSent(nodes: Nodes, seconds: nat)
    requires ValidNodes(nodes)
    ensures TotalRate(nodes, []) * seconds as real == 0.0 && forall id :: !Among([], id)
  {
    hide ValidNodes;
  }

  lemma RealSum(a: real, b: real, c: real)
    ensures (a + b) * c == a * c + b * c
  {
  }

  lemma LastIsNew(first: seq<Target>, last: Target)
    requires UniqueIds(first + [last])
    ensures UniqueIds(first) && !Among(first, last.id)
  {
    var all := first + [last];
    assert forall k :: 0 <= k < |first| ==> all[k] == first[k];
    assert all[|first|] == last;
  }

  lemma ListSplits(first: seq<Target>, last: Target)
    ensures forall id :: Among(first + [last], id) <==> id == last.id || Among(first, id)
  {
    var all := first + [last];
    assert all[|first|] == last;
    forall id | Among(first, id) ensures Among(all, id) {
      var k :| 0 <= k < |first| && first[k].id == id;
      assert all[k] == first[k];
    }
  }

  lemma DisjointSize(a: set<Send>, b: set<Send>)
    requires forall y :: y in a ==> y !in b
    ensures |a + b| == |a| + |b|
  {
    assert a * b == {};
  }

  lemma TotalSplits(nodes: Nodes, targets: seq<Target>)
    requires ValidNodes(nodes) && targets != [] && forall k :: 0 <= k < |targets| ==> targets[k].id in nodes
    ensures TotalRate(nodes, targets) ==
      TotalRate(nodes, targets[..|targets| - 1]) + RateTerm(nodes, targets[|targets| - 1])
  {
    hide ValidNodes, RateTerm;
  }

  lemma OneSends(nodes: Nodes, t: Target, hashes: int -> Schedule.Hash, from: int, seconds: nat)
      returns (sends: set<Send>)
    requires ValidNodes(nodes) && WholeIntervals(nodes, seconds) && t.id in nodes && nodes[t.id] == t
    ensures forall y :: y in sends <==>
      y.0 == t.id && TreeSends(nodes, hashes, y, from, from + seconds * Schedule.SECOND)
    ensures |sends| as real == RateTerm(nodes, t) * seconds as real
  {
    hide SpecOf, LoadOf, ValidNodes, SentIn, ProbeRate;
    sends := {};
    if Running(t) {
      SpecIsLoad(nodes, t.id);
      var iv := SpecOf(nodes, t.id).intervalS;
      assert RunsAt(nodes, t.id);
      var k := seconds / iv;
      assert seconds == k * iv;
      Arithmetic.MulAssociates(k, iv, Schedule.SECOND);
      sends := RateIsSends(nodes, t.id, hashes(t.id), from, k);
    }
  }

  /** All that a valid tree sends in a stretch of whole intervals, beginning anywhere, is its rate times the
      seconds. */
  lemma TreeRateIsSends(targets: seq<Target>, hashes: int -> Schedule.Hash, from: int, seconds: nat)
      returns (sends: set<Send>)
    requires Valid(targets) && ValidNodes(NodesOf(targets)) && WholeIntervals(NodesOf(targets), seconds)
    ensures forall y :: y in sends <==> TreeSends(NodesOf(targets), hashes, y, from, from + seconds * Schedule.SECOND)
    ensures |sends| as real == RateOf(targets) * seconds as real
  {
    hide *;
    ValidIsUnique(targets);
    ValidGives(targets);
    ListedGives(targets);
    sends := ListSends(NodesOf(targets), targets, hashes, from, seconds);
    forall y | TreeSends(NodesOf(targets), hashes, y, from, from + seconds * Schedule.SECOND)
      ensures Among(targets, y.0)
    {
      SendsFromNodes(NodesOf(targets), hashes, y, from, from + seconds * Schedule.SECOND);
    }
  }

  lemma ListedGives(targets: seq<Target>)
    requires Listed(NodesOf(targets), targets)
    ensures Entries(NodesOf(targets), targets) && forall id :: id in NodesOf(targets) ==> Among(targets, id)
  {
    hide NodesOf;
  }

  lemma SendsFromNodes(nodes: Nodes, hashes: int -> Schedule.Hash, y: Send, from: int, to: int)
    requires ValidNodes(nodes) && TreeSends(nodes, hashes, y, from, to)
    ensures y.0 in nodes
  {
    hide ValidNodes, SpecOf, OfTarget;
  }

  // ---------------------------------------------------------------- the limits

  /** Every running target of a sound tree sends at most 100 pings and 500,000 bytes a second, over any stretch of
      its intervals, and waits for none longer than an interval. */
  lemma SoundTargetSends(targets: seq<Target>, id: int, hash: Schedule.Hash, from: int, k: nat)
      returns (sends: set<Send>)
    requires Sound(targets) && ValidNodes(NodesOf(targets)) && RunsAt(NodesOf(targets), id)
    ensures var nodes := NodesOf(targets);
      var s, c := SpecOf(nodes, id), ChainOf(nodes, id);
      && s.pings > 0 && s.intervalS > 0
      && (forall y :: y in sends <==> OfTarget(y, id, s, hash, from, from + k * (s.intervalS * Schedule.SECOND)))
      && |sends| == k * s.pings <= 100 * (k * s.intervalS)
      && |sends| * IntOf(nodes, c, PacketSize) <= 500_000 * (k * s.intervalS)
      && IntOf(nodes, c, TimeoutMS) <= s.intervalS * 1000
  {
    var nodes := NodesOf(targets);
    var l := LoadOf(nodes, id);
    assert WithinLimits(l);
    assert l.size == IntOf(nodes, ChainOf(nodes, id), PacketSize);
    assert l.timeout == IntOf(nodes, ChainOf(nodes, id), TimeoutMS);
    hide *;
    RunsIn(nodes, id);
    SpecIsLoad(nodes, id);
    sends := RateIsSends(nodes, id, hash, from, k);
    LimitsInWholeNumbers(l);
    InWholeNumbers(l);
    Arithmetic.MulAssociates(k, l.pings, l.size);
    Times(k, l.pings, 100, l.interval);
    Times(k, l.pings * l.size, 500_000, l.interval);
  }

  lemma RunsIn(nodes: Nodes, id: int)
    requires RunsAt(nodes, id)
    ensures id in nodes && Running(nodes[id])
  {
  }

  lemma Times(k: nat, a: int, b: int, c: int)
    requires a <= b * c
    ensures k * a <= b * (k * c)
  {
    Arithmetic.MulMonotone(a, b * c, k);
    Arithmetic.MulAssociates(b, c, k);
  }

  /** The limits on a load, without dividing. */
  ghost predicate FitsInWhole(l: Load) {
    l.timeout <= l.interval * 1000 && l.pings <= 100 * l.interval && l.pings * l.size <= 500_000 * l.interval
  }

  ghost predicate NoHeavier(before: Load, after: Load) {
    && after.pings * before.interval <= before.pings * after.interval
    && after.pings * after.size * before.interval <= before.pings * before.size * after.interval
    && after.timeout * before.interval <= before.timeout * after.interval
  }

  lemma InWholeNumbers(l: Load)
    requires FitsInWhole(l)
    ensures l.timeout <= l.interval * 1000 && l.pings <= 100 * l.interval && l.pings * l.size <= 500_000 * l.interval
  {
  }

  lemma FractionsCompare(a: int, b: int, c: int, d: int)
    requires b > 0 && d > 0
    ensures a as real / b as real <= c as real / d as real <==> a * d <= c * b
  {
    var p, q := a as real / b as real, c as real / d as real;
    assert p * b as real == a as real && q * d as real == c as real;
    var bd := b as real * d as real;
    assert bd > 0.0;
    RealSwap(p, d as real, b as real);
    RealSwap(q, b as real, d as real);
    assert p * bd == (a * d) as real;
    assert q * bd == (c * b) as real;
    RealOrder(p, q, bd);
  }

  lemma RealOrder(p: real, q: real, c: real)
    requires c > 0.0
    ensures p <= q <==> p * c <= q * c
  {
  }

  lemma BytesAre(l: Load)
    requires Sane(l)
    ensures ByteRate(l) == (l.pings * l.size) as real / l.interval as real
  {
    var i := l.interval as real;
    QuotientTimes(l.pings as real, i, l.size as real);
  }

  lemma QuotientTimes(a: real, b: real, c: real)
    requires b > 0.0
    ensures a / b * c == a * c / b
  {
    assert a / b * b == a;
    RealSwap(a / b, c, b);
    assert a / b * c * b == a * c;
  }

  lemma LimitsInWholeNumbers(l: Load)
    requires Sane(l)
    ensures WithinLimits(l) <==> FitsInWhole(l)
  {
    BytesAre(l);
    FractionsCompare(l.pings, l.interval, 100, 1);
    FractionsCompare(l.pings * l.size, l.interval, 500_000, 1);
    assert MAX_PROBE_RATE == 100 as real / 1 as real && MAX_PROBE_BYTES_PER_SEC == 500_000 as real / 1 as real;
    hide ByteRate;
  }

  lemma NotWorseInWholeNumbers(before: Load, after: Load)
    requires Sane(before) && Sane(after)
    ensures NotWorse(before, after) <==> NoHeavier(before, after)
  {
    BytesAre(before);
    BytesAre(after);
    FractionsCompare(after.pings, after.interval, before.pings, before.interval);
    FractionsCompare(after.pings * after.size, after.interval, before.pings * before.size, before.interval);
    WaitsCompare(before, after);
    hide ByteRate, Waiting;
  }

  lemma WaitsCompare(before: Load, after: Load)
    requires Sane(before) && Sane(after)
    ensures Waiting(after) <= Waiting(before) <==> after.timeout * before.interval <= before.timeout * after.interval
  {
    FractionsCompare(after.timeout, after.interval * 1000, before.timeout, before.interval * 1000);
    Arithmetic.MulAssociates(after.timeout, before.interval, 1000);
    Arithmetic.MulAssociates(before.timeout, after.interval, 1000);
  }

  /** What the limits accept, counted: past 10,000 targets, below 16 others, over 100 pings or 500,000 bytes a second
      for one target or waiting longer than an interval, and over 5000 pings a second for all, only where the
      tree was so before and no further. */
  lemma AcceptedCounts(before: seq<Target>, after: seq<Target>, hashes: int -> Schedule.Hash, from: int, seconds: nat)
      returns (was: set<Send>, sends: set<Send>)
    requires Valid(after) && ValidNodes(NodesOf(after)) && WholeIntervals(NodesOf(after), seconds) && seconds > 0
    requires Valid(before) ==> ValidNodes(NodesOf(before)) && WholeIntervals(NodesOf(before), seconds)
    ensures forall y :: y in sends <==> TreeSends(NodesOf(after), hashes, y, from, from + seconds * Schedule.SECOND)
    ensures Valid(before) ==>
      forall y :: y in was <==> TreeSends(NodesOf(before), hashes, y, from, from + seconds * Schedule.SECOND)
    ensures !Valid(before) ==> was == {}
    ensures Accepted(before, after) <==>
      && (|after| > 10_000 ==> |after| <= |before|)
      && (forall id :: id in NodesOf(after) ==> DepthAsWas(before, NodesOf(after), id))
      && (forall id :: RunsAt(NodesOf(after), id) ==> LoadAsWas(before, NodesOf(after), id))
      && (|sends| > 5000 * seconds ==> |sends| <= |was|)
  {
    hide *;
    sends := TreeRateIsSends(after, hashes, from, seconds);
    was := SendsBefore(before, hashes, from, seconds);
    TotalCounts(RateOf(after), RateBefore(before), seconds, |sends|, |was|);
    forall id | id in NodesOf(after)
      ensures DepthFine(PriorOf(before), NodesOf(after), id) <==> DepthAsWas(before, NodesOf(after), id)
      ensures LoadFine(PriorOf(before), NodesOf(after), id) <==>
        (RunsAt(NodesOf(after), id) ==> LoadAsWas(before, NodesOf(after), id))
    {
      DepthCounts(before, NodesOf(after), id);
      LoadCounts(before, NodesOf(after), id);
    }
    AcceptedIs(before, after);
    forall id | RunsAt(NodesOf(after), id) ensures id in NodesOf(after) {
      RunsIn(NodesOf(after), id);
    }
  }

  lemma AcceptedIs(before: seq<Target>, after: seq<Target>)
    requires Valid(after) && ValidNodes(NodesOf(after))
    ensures Accepted(before, after) <==>
      && (|after| > 10_000 ==> |after| <= |before|)
      && (forall id :: id in NodesOf(after) ==> DepthFine(PriorOf(before), NodesOf(after), id))
      && (forall id :: id in NodesOf(after) ==> LoadFine(PriorOf(before), NodesOf(after), id))
      && (RateOf(after) > MAX_TOTAL_PROBE_RATE ==> RateOf(after) <= RateBefore(before))
  {
    hide Valid, ValidNodes, NodesOf, DepthFine, LoadFine, RateOf, RateBefore, PriorOf;
  }

  lemma SendsBefore(before: seq<Target>, hashes: int -> Schedule.Hash, from: int, seconds: nat) returns (was: set<Send>)
    requires Valid(before) ==> ValidNodes(NodesOf(before)) && WholeIntervals(NodesOf(before), seconds)
    ensures Valid(before) ==>
      forall y :: y in was <==> TreeSends(NodesOf(before), hashes, y, from, from + seconds * Schedule.SECOND)
    ensures !Valid(before) ==> was == {}
    ensures |was| as real == RateBefore(before) * seconds as real
  {
    hide Valid, ValidNodes, NodesOf, TreeSends, WholeIntervals, RateOf;
    was := {};
    if Valid(before) {
      was := TreeRateIsSends(before, hashes, from, seconds);
    }
  }

  lemma TotalCounts(after: real, before: real, seconds: nat, sends: nat, was: nat)
    requires seconds > 0 && sends as real == after * seconds as real && was as real == before * seconds as real
    ensures (after > MAX_TOTAL_PROBE_RATE ==> after <= before) <==> (sends > 5000 * seconds ==> sends <= was)
  {
    ScaledOrder(after, before, seconds as real, sends as real, was as real);
    FiveThousand(seconds);
    ScaledOrder(after, 5000.0, seconds as real, sends as real, (5000 * seconds) as real);
    assert MAX_TOTAL_PROBE_RATE == 5000.0;
    hide *;
    CastOrder(sends, was);
    CastOrder(sends, 5000 * seconds);
  }

  lemma ScaledOrder(p: real, q: real, c: real, pc: real, qc: real)
    requires c > 0.0 && pc == p * c && qc == q * c
    ensures p <= q <==> pc <= qc
  {
    RealOrder(p, q, c);
  }

  lemma FiveThousand(n: nat)
    ensures 5000.0 * n as real == (5000 * n) as real
  {
  }

  lemma CastOrder(a: int, b: int)
    ensures a as real <= b as real <==> a <= b
  {
  }

  /** At most 17 nodes from it to the root, or as many before. */
  ghost predicate DepthAsWas(before: seq<Target>, nodes: Nodes, id: int)
    requires ValidNodes(nodes) && id in nodes
  {
    |ChainOf(nodes, id)| <= 17
    || (Valid(before) && ValidNodes(NodesOf(before)) && id in NodesOf(before)
          && |ChainOf(NodesOf(before), id)| >= |ChainOf(nodes, id)|)
  }

  lemma DepthCounts(before: seq<Target>, nodes: Nodes, id: int)
    requires ValidNodes(nodes) && id in nodes
    ensures DepthFine(PriorOf(before), nodes, id) <==> DepthAsWas(before, nodes, id)
  {
    PriorIs(before);
    hide Valid, ValidNodes, NodesOf, ChainOf, PriorOf;
  }

  lemma PriorIs(before: seq<Target>)
    ensures Valid(before) ==> ValidNodes(NodesOf(before)) && PriorOf(before) == Some(NodesOf(before))
    ensures !Valid(before) ==> PriorOf(before) == None
  {
    hide ValidNodes, NodesOf, UniqueIds;
  }

  ghost predicate LoadAsWas(before: seq<Target>, nodes: Nodes, id: int)
    requires ValidNodes(nodes) && id in nodes
  {
    FitsInWhole(LoadOf(nodes, id))
    || (Valid(before) && ValidNodes(NodesOf(before)) && RunsAt(NodesOf(before), id)
          && NoHeavier(LoadOf(NodesOf(before), id), LoadOf(nodes, id)))
  }

  lemma LoadCounts(before: seq<Target>, nodes: Nodes, id: int)
    requires ValidNodes(nodes) && id in nodes
    ensures LoadFine(PriorOf(before), nodes, id) <==> (RunsAt(nodes, id) ==> LoadAsWas(before, nodes, id))
  {
    PriorIs(before);
    LimitsInWholeNumbers(LoadOf(nodes, id));
    if Valid(before) && id in NodesOf(before) {
      NotWorseInWholeNumbers(LoadOf(NodesOf(before), id), LoadOf(nodes, id));
    }
    hide Valid, ValidNodes, NodesOf, LoadOf, PriorOf, WithinLimits, NotWorse, FitsInWhole, NoHeavier;
  }

  /** So in every tree that a run of accepted writes reaches, all running targets together send at most 5000 pings a
      second, over any stretch of whole intervals and wherever it begins. */
  lemma EveryRunSendsLittle(states: seq<seq<Target>>, i: nat, hashes: int -> Schedule.Hash, from: int, seconds: nat)
      returns (sends: set<Send>)
    requires Run(states) && i < |states| && ValidNodes(NodesOf(states[i]))
    requires WholeIntervals(NodesOf(states[i]), seconds)
    ensures forall y :: y in sends <==> TreeSends(NodesOf(states[i]), hashes, y, from, from + seconds * Schedule.SECOND)
    ensures |sends| <= 5000 * seconds
  {
    hide *;
    EveryRunIsSound(states, i);
    SoundGives(states[i]);
    sends := TreeRateIsSends(states[i], hashes, from, seconds);
    SoundRate(states[i]);
    if seconds > 0 {
      AtMost5000(RateOf(states[i]), seconds, |sends|);
    }
  }

  lemma SoundRate(targets: seq<Target>)
    requires Sound(targets)
    ensures Valid(targets) && RateOf(targets) <= MAX_TOTAL_PROBE_RATE
  {
    hide Valid, RateOf;
  }

  lemma AtMost5000(rate: real, seconds: nat, sends: nat)
    requires seconds > 0 && rate <= MAX_TOTAL_PROBE_RATE && sends as real == rate * seconds as real
    ensures sends <= 5000 * seconds
  {
    FiveThousand(seconds);
    ScaledOrder(rate, 5000.0, seconds as real, sends as real, (5000 * seconds) as real);
    CastOrder(sends, 5000 * seconds);
  }

  /** .. and every number that a node of it resolves to is in the range the program will run. */
  lemma EveryRunResolvesInRange(states: seq<seq<Target>>, i: nat, id: int)
    requires Run(states) && i < |states| && ValidNodes(NodesOf(states[i])) && id in NodesOf(states[i])
    ensures var nodes := NodesOf(states[i]);
      var c := ChainOf(nodes, id);
      && 1 <= IntOf(nodes, c, IntervalS) <= 86_400 && 1 <= IntOf(nodes, c, PingsPerInterval) <= 1000
      && 0 <= IntOf(nodes, c, BurstGapMS) <= 600_000 && 12 <= IntOf(nodes, c, PacketSize) <= 9000
      && (IntOf(nodes, c, TraceIntervalS) == 0 || 30 <= IntOf(nodes, c, TraceIntervalS) <= 604_800)
      && (IntOf(nodes, c, RetentionS) == 0 || 3600 <= IntOf(nodes, c, RetentionS) <= 315_360_000)
  {
    hide *;
    var nodes := NodesOf(states[i]);
    EveryRunIsSound(states, i);
    SoundGives(states[i]);
    AllDefaulted();
    ChainIsIn(nodes, id);
    forall f | f in DEFAULTED_INTS ensures Bounded(f, IntOf(nodes, ChainOf(nodes, id), f)) {
      ResolvedIsBounded(states[i], id, f);
    }
    BoundsAre(nodes, ChainOf(nodes, id));
  }

  lemma ChainIsIn(nodes: Nodes, id: int)
    requires ValidNodes(nodes) && id in nodes
    ensures forall k :: 0 <= k < |ChainOf(nodes, id)| ==> ChainOf(nodes, id)[k] in nodes
  {
    hide ValidNodes;
  }

  lemma AllDefaulted()
    ensures {IntervalS, PingsPerInterval, BurstGapMS, PacketSize, TraceIntervalS, RetentionS} <= DEFAULTED_INTS
  {
  }

  lemma BoundsAre(nodes: Nodes, c: seq<int>)
    requires (forall k :: 0 <= k < |c| ==> c[k] in nodes)
    requires forall f :: f in {IntervalS, PingsPerInterval, BurstGapMS, PacketSize, TraceIntervalS, RetentionS} ==>
      Bounded(f, IntOf(nodes, c, f))
    ensures 1 <= IntOf(nodes, c, IntervalS) <= 86_400 && 1 <= IntOf(nodes, c, PingsPerInterval) <= 1000
    ensures 0 <= IntOf(nodes, c, BurstGapMS) <= 600_000 && 12 <= IntOf(nodes, c, PacketSize) <= 9000
    ensures IntOf(nodes, c, TraceIntervalS) == 0 || 30 <= IntOf(nodes, c, TraceIntervalS) <= 604_800
    ensures IntOf(nodes, c, RetentionS) == 0 || 3600 <= IntOf(nodes, c, RetentionS) <= 315_360_000
  {
    hide IntOf;
    assert Bounded(IntervalS, IntOf(nodes, c, IntervalS));
    assert Bounded(PingsPerInterval, IntOf(nodes, c, PingsPerInterval));
    assert Bounded(BurstGapMS, IntOf(nodes, c, BurstGapMS)) && Bounded(PacketSize, IntOf(nodes, c, PacketSize));
    assert Bounded(TraceIntervalS, IntOf(nodes, c, TraceIntervalS)) && Bounded(RetentionS, IntOf(nodes, c, RetentionS));
  }
}
