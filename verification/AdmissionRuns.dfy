/** What holds over whole runs of the verifier: no replay is accepted, an agent's rate is bounded, and
    so is the memory the nonce cache holds. The clock is assumed not to run backwards between calls. */
module AdmissionRuns {
  import opened Options
  import opened Admission
  import opened Sets
  import opened Arithmetic

  /** One request reaching `Check`, with what Lookup answered and the time of the call. */
  datatype Input = Input(s: Signed, agent: Option<Agent>, now: int)

  ghost predicate Nondecreasing(inputs: seq<Input>) {
    forall i, j :: 0 <= i <= j < |inputs| ==> inputs[i].now <= inputs[j].now
  }

  function After(c: Setup, inputs: seq<Input>): State {
    if inputs == [] then INITIAL
    else
      var i := inputs[|inputs| - 1];
      Step(c, After(c, inputs[..|inputs| - 1]), i.agent, i.s, i.now).0
  }

  function VerdictAt(c: Setup, inputs: seq<Input>, k: nat): Verdict
    requires k < |inputs|
  {
    Step(c, After(c, inputs[..k]), inputs[k].agent, inputs[k].s, inputs[k].now).1
  }

  lemma VerdictOfPrefix(c: Setup, inputs: seq<Input>, n: nat, k: nat)
    requires k < n <= |inputs|
    ensures VerdictAt(c, inputs[..n], k) == VerdictAt(c, inputs, k)
  {
    assert inputs[..n][..k] == inputs[..k];
  }

  lemma AfterStep(c: Setup, inputs: seq<Input>, k: nat)
    requires k < |inputs|
    ensures After(c, inputs[..k + 1]) == Step(c, After(c, inputs[..k]), inputs[k].agent, inputs[k].s, inputs[k].now).0
  {
    assert inputs[..k + 1][..k] == inputs[..k];
  }

  // ---------------------------------------------------------------- single steps

  /** Nothing a caller cannot sign touches the nonces or the buckets; a replay spends no token; a
      rate-limited request stores no nonce. */
  lemma RefusalsTouchLittle(c: Setup, st: State, agent: Option<Agent>, s: Signed, now: int)
    ensures var (st', v) := Step(c, st, agent, s, now);
      && (v in {UnknownAgent, Disabled, BadClock, BadSignature} ==> st' == st)
      && (v == Replayed ==> st'.buckets == st.buckets)
      && (v in {Replayed, Limited} ==> st'.seen.Keys <= st.seen.Keys)
      && (forall id :: id != s.agentId && id in st.buckets ==> id in st'.buckets && st'.buckets[id] == st.buckets[id])
  {
  }

  // ---------------------------------------------------------------- replays

  /** An accepted nonce is remembered, at its time or a later one, for as long as its time to live: the lazy
      sweep never drops an entry that is still needed. */
  lemma {:induction false} NonceRemembered(c: Setup, inputs: seq<Input>, i: nat, n: nat)
    requires i < n <= |inputs| && Nondecreasing(inputs) && VerdictAt(c, inputs, i) == Accepted
    requires inputs[n - 1].now - inputs[i].now <= c.ttl
    ensures var seen := After(c, inputs[..n]).seen;
            inputs[i].s.nonce in seen && inputs[i].now <= seen[inputs[i].s.nonce]
    decreases n
  {
    hide Canonical, Spend, Screen;
    AfterStep(c, inputs, n - 1);
    if i < n - 1 {
      NonceRemembered(c, inputs, i, n - 1);
    }
  }

  /** Two acceptances of one nonce are more than its time to live apart. */
  lemma NonceSpacing(c: Setup, inputs: seq<Input>, i: nat, j: nat)
    requires i < j < |inputs| && Nondecreasing(inputs)
    requires VerdictAt(c, inputs, i) == Accepted && VerdictAt(c, inputs, j) == Accepted
    requires inputs[i].s.nonce == inputs[j].s.nonce
    ensures inputs[j].now - inputs[i].now > c.ttl
  {
    if inputs[j].now - inputs[i].now <= c.ttl {
      assert inputs[j - 1].now <= inputs[j].now;
      NonceRemembered(c, inputs, i, j);
    }
  }

  lemma AcceptedInSkew(c: Setup, inputs: seq<Input>, k: nat)
    requires k < |inputs| && VerdictAt(c, inputs, k) == Accepted
    ensures -c.skew <= inputs[k].now - inputs[k].s.timestamp * SECOND <= c.skew
  {
  }

  /** No two accepted requests of a run carry the same timestamp and nonce, so no captured request is
      ever accepted a second time.. */
  ghost predicate NoReplay(c: Setup, inputs: seq<Input>) {
    forall i: nat, j: nat :: i < j < |inputs| && VerdictAt(c, inputs, i) == VerdictAt(c, inputs, j) == Accepted ==>
      inputs[i].s.timestamp != inputs[j].s.timestamp || inputs[i].s.nonce != inputs[j].s.nonce
  }

  lemma LongEnough(c: Setup, inputs: seq<Input>)
    requires c.ttl >= 2 * c.skew && Nondecreasing(inputs)
    ensures NoReplay(c, inputs)
  {
    hide VerdictAt;
    forall i: nat, j: nat | i < j < |inputs| && VerdictAt(c, inputs, i) == VerdictAt(c, inputs, j) == Accepted
      ensures inputs[i].s.timestamp != inputs[j].s.timestamp || inputs[i].s.nonce != inputs[j].s.nonce
    {
      AcceptedInSkew(c, inputs, i);
      AcceptedInSkew(c, inputs, j);
      if inputs[i].s.nonce == inputs[j].s.nonce {
        NonceSpacing(c, inputs, i, j);
      }
    }
  }

  /** .. by the times the program ships with. */
  lemma NoReplayAccepted(c: Setup, inputs: seq<Input>)
    requires Shipped(c) && Nondecreasing(inputs)
    ensures NoReplay(c, inputs)
  {
    LongEnough(c, inputs);
  }

  /** One request, sent again as late as its timestamp allows after it came as early. */
  lemma TooShort(c: Setup) returns (inputs: seq<Input>)
    requires c.skew >= 0 && c.ttl < 2 * c.skew
    requires forall key, message, signature :: c.verifies(key, message, signature)
    ensures Nondecreasing(inputs) && !NoReplay(c, inputs)
  {
    var s, agent := Signed("POST", "/", 1, 0, "", [], []), Some(Agent(1, "", [], true));
    inputs := [Input(s, agent, -c.skew), Input(s, agent, c.skew)];
    assert inputs[..0] == [] && inputs[..1] == [inputs[0]] && inputs[..1][..0] == [];
    hide Canonical, Seconds;
    assert VerdictAt(c, inputs, 0) == Accepted;
    var st := After(c, inputs[..1]);
    assert st.seen == map["" := -c.skew] && st.buckets == map[1 := Bucket(BURST_SIZE - 1.0, -c.skew)];
    assert Refilled(st.buckets[1], c.skew) >= 1.0 by { SecondsAdd(2 * c.skew, 0); }
    assert VerdictAt(c, inputs, 1) == Accepted;
  }

  /** What it takes of the two times: a timestamp stays acceptable for twice the skew. */
  lemma NoReplayIsExact(skew: int, ttl: int)
    requires skew >= 0
    ensures ttl >= 2 * skew <==>
      forall c: Setup, inputs :: c.skew == skew && c.ttl == ttl && Nondecreasing(inputs) ==> NoReplay(c, inputs)
  {
    hide NoReplay;
    if ttl >= 2 * skew {
      forall c: Setup, inputs | c.skew == skew && c.ttl == ttl && Nondecreasing(inputs) ensures NoReplay(c, inputs) {
        LongEnough(c, inputs);
      }
    } else {
      var c := Setup(_ => "", (_, _, _) => true, skew, ttl);
      var inputs := TooShort(c);
    }
  }

  // ---------------------------------------------------------------- rate

  predicate AcceptedFor(c: Setup, inputs: seq<Input>, k: nat, id: int, from: int)
    requires k < |inputs|
  {
    VerdictAt(c, inputs, k) == Accepted && inputs[k].s.agentId == id && inputs[k].now >= from
  }

  /** How many requests of one agent were accepted at or after `from`. */
  function AcceptedSince(c: Setup, inputs: seq<Input>, id: int, from: int): nat {
    if inputs == [] then 0
    else
      var last := |inputs| - 1;
      AcceptedSince(c, inputs[..last], id, from) + if AcceptedFor(c, inputs, last, id, from) then 1 else 0
  }

  /** .. and at or before `to`. */
  function AcceptedWithin(c: Setup, inputs: seq<Input>, id: int, from: int, to: int): nat {
    if inputs == [] then 0
    else
      var last := |inputs| - 1;
      AcceptedWithin(c, inputs[..last], id, from, to)
      + if AcceptedFor(c, inputs, last, id, from) && inputs[last].now <= to then 1 else 0
  }

  /** Tokens and acceptances together never outrun the burst and the refill. */
  ghost predicate Budgeted(st: State, id: int, from: int, accepted: nat, now: int) {
    if id in st.buckets && st.buckets[id].last >= from then
      && 0.0 <= st.buckets[id].tokens
      && st.buckets[id].last <= now
      && accepted as real + st.buckets[id].tokens
         <= BURST_SIZE + Seconds(st.buckets[id].last - from) * REFILL_RATE
    else
      && (id in st.buckets ==> 0.0 <= st.buckets[id].tokens <= BURST_SIZE)
      && accepted == 0
  }

  lemma SecondsAdd(a: int, b: int)
    ensures Seconds(a) + Seconds(b) == Seconds(a + b)
    ensures a >= 0 ==> Seconds(a) >= 0.0
  {
  }

  lemma SpendKeepsBudget(st: State, id: int, from: int, accepted: nat, before: int, now: int)
    requires Budgeted(st, id, from, accepted, before) && before <= now
    requires id in st.buckets ==> st.buckets[id].last <= now
    ensures var (buckets, ok) := Spend(st.buckets, id, now);
            Budgeted(st.(buckets := buckets), id, from, accepted + if ok && now >= from then 1 else 0, now)
  {
    hide Seconds;
    SecondsAdd(now - from, 0);
    if id in st.buckets {
      var b := st.buckets[id];
      SecondsAdd(b.last - from, now - b.last);
      SecondsAdd(now - b.last, 0);
    }
  }

  ghost predicate LastInPast(st: State, now: int) {
    forall id :: id in st.buckets ==> st.buckets[id].last <= now
  }

  lemma SpendDates(st: State, id: int, now: int, other: int)
    requires LastInPast(st, now)
    ensures LastInPast(st.(buckets := Spend(st.buckets, id, now).0), now)
    ensures var b := Spend(st.buckets, id, now).0;
      other != id ==> (other in b <==> other in st.buckets) && (other in b ==> b[other] == st.buckets[other])
  {
    hide Refilled;
  }

  /** What one request does to the buckets. */
  lemma BucketsStep(c: Setup, inputs: seq<Input>)
    requires inputs != []
    ensures var last := |inputs| - 1;
      var i, st, v := inputs[last], After(c, inputs[..last]), VerdictAt(c, inputs, last);
      if v == Accepted || v == Limited
      then After(c, inputs).buckets == Spend(st.buckets, i.s.agentId, i.now).0
           && (v == Accepted <==> Spend(st.buckets, i.s.agentId, i.now).1)
      else After(c, inputs).buckets == st.buckets
  {
    hide Screen, Spend;
  }

  lemma {:induction false} BudgetHolds(c: Setup, inputs: seq<Input>, id: int, from: int)
    requires Nondecreasing(inputs) && inputs != []
    ensures var now := inputs[|inputs| - 1].now;
      LastInPast(After(c, inputs), now) && Budgeted(After(c, inputs), id, from, AcceptedSince(c, inputs, id, from), now)
  {
    hide Step, Seconds, Spend, After;
    var last := |inputs| - 1;
    var rest, i := inputs[..last], inputs[last];
    if rest == [] {
      FreshBudget(c, id, from, i.now);
    } else {
      BudgetHolds(c, rest, id, from);
    }
    var before := if rest == [] then i.now else rest[last - 1].now;
    var st, n := After(c, rest), AcceptedSince(c, rest, id, from);
    BucketsStep(c, inputs);
    SpendDates(st, i.s.agentId, i.now, id);
    if id == i.s.agentId {
      SpendKeepsBudget(st, id, from, n, before, i.now);
    }
  }

  lemma FreshBudget(c: Setup, id: int, from: int, now: int)
    ensures LastInPast(After(c, []), now) && Budgeted(After(c, []), id, from, 0, now)
  {
  }

  lemma {:induction false} WithinIsSince(c: Setup, inputs: seq<Input>, id: int, from: int, to: int)
    requires forall k :: 0 <= k < |inputs| ==> inputs[k].now <= to
    ensures AcceptedWithin(c, inputs, id, from, to) == AcceptedSince(c, inputs, id, from)
  {
    if inputs != [] { WithinIsSince(c, inputs[..|inputs| - 1], id, from, to); }
  }

  /** In any window [from, to] an agent has at most 30 requests accepted, plus one for every two
      seconds of the window. */
  lemma {:induction false} RateBounded(c: Setup, inputs: seq<Input>, id: int, from: int, to: int)
    requires Nondecreasing(inputs) && from <= to
    ensures AcceptedWithin(c, inputs, id, from, to) as real <= BURST_SIZE + Seconds(to - from) * REFILL_RATE
  {
    hide Seconds;
    SecondsAdd(to - from, 0);
    if inputs != [] {
      var last := |inputs| - 1;
      if inputs[last].now > to {
        RateBounded(c, inputs[..last], id, from, to);
      } else {
        WithinIsSince(c, inputs, id, from, to);
        BudgetHolds(c, inputs, id, from);
        var st := After(c, inputs);
        if id in st.buckets && st.buckets[id].last >= from {
          SecondsAdd(st.buckets[id].last - from, to - st.buckets[id].last);
          SecondsAdd(to - st.buckets[id].last, 0);
        }
      }
    }
  }

  /** Request k of agent `id` got as far as the rate limit. */
  predicate ReachedLimit(c: Setup, inputs: seq<Input>, k: int, id: int) {
    0 <= k < |inputs| && inputs[k].s.agentId == id
    && (VerdictAt(c, inputs, k) == Accepted || VerdictAt(c, inputs, k) == Limited)
  }

  ghost predicate BucketDated(c: Setup, inputs: seq<Input>, id: int, b: Bucket) {
    exists k :: ReachedLimit(c, inputs, k, id) && inputs[k].now == b.last
  }

  /** A bucket's clock is the time of a request of that agent that reached the rate limit. */
  lemma {:induction false} BucketDates(c: Setup, inputs: seq<Input>, id: int)
    ensures var b := After(c, inputs).buckets;
      id in b ==> BucketDated(c, inputs, id, b[id])
  {
    hide Canonical, Seconds;
    if inputs != [] {
      var last := |inputs| - 1;
      var rest, i := inputs[..last], inputs[last];
      BucketDates(c, rest, id);
      var b, b' := After(c, rest).buckets, After(c, inputs).buckets;
      if id in b' {
        if id in b && b'[id] == b[id] {
          var k :| ReachedLimit(c, rest, k, id) && rest[k].now == b[id].last;
          VerdictOfPrefix(c, inputs, last, k);
          assert ReachedLimit(c, inputs, k, id);
        } else {
          assert ReachedLimit(c, inputs, last, id);
        }
      }
    }
  }

  /** A request that comes at least two seconds after every earlier one of its agent that reached the
      rate limit is never limited. */
  lemma SpacedNeverLimited(c: Setup, inputs: seq<Input>, k: nat)
    requires k < |inputs| && Nondecreasing(inputs)
    requires forall j | j < k && ReachedLimit(c, inputs, j, inputs[k].s.agentId) ::
      inputs[k].now - inputs[j].now >= 2 * SECOND
    ensures VerdictAt(c, inputs, k) != Limited
  {
    hide Screen, After, Seconds;
    var id, rest := inputs[k].s.agentId, inputs[..k];
    var st := After(c, rest);
    if id in st.buckets {
      assert rest != [] by { NoBuckets(c); }
      BucketDates(c, rest, id);
      var j :| ReachedLimit(c, rest, j, id) && rest[j].now == st.buckets[id].last;
      VerdictOfPrefix(c, inputs, k, j);
      assert ReachedLimit(c, inputs, j, id);
      BudgetHolds(c, rest, id, rest[k - 1].now + 1);
      TwoSeconds(inputs[k].now - st.buckets[id].last);
    }
  }

  lemma NoBuckets(c: Setup)
    ensures After(c, []).buckets == map[]
  {
  }

  lemma TwoSeconds(d: int)
    requires d >= 2 * SECOND
    ensures Seconds(d) * REFILL_RATE >= 1.0
  {
  }

  // ---------------------------------------------------------------- memory

  /** The agents that have had a request accepted. */
  function Submitters(c: Setup, inputs: seq<Input>): set<int> {
    if inputs == [] then {}
    else
      var last := |inputs| - 1;
      Submitters(c, inputs[..last]) + if VerdictAt(c, inputs, last) == Accepted then {inputs[last].s.agentId} else {}
  }

  /** The nonces accepted at or after `from`. */
  function NoncesSince(c: Setup, inputs: seq<Input>, from: int): set<string> {
    if inputs == [] then {}
    else
      var last := |inputs| - 1;
      NoncesSince(c, inputs[..last], from)
      + if VerdictAt(c, inputs, last) == Accepted && inputs[last].now >= from then {inputs[last].s.nonce} else {}
  }

  /** How many requests of the given agents were accepted at or after `from`. */
  function AcceptedAmong(c: Setup, inputs: seq<Input>, ids: set<int>, from: int): nat {
    if inputs == [] then 0
    else
      var last := |inputs| - 1;
      AcceptedAmong(c, inputs[..last], ids, from)
      + if VerdictAt(c, inputs, last) == Accepted && inputs[last].s.agentId in ids && inputs[last].now >= from
        then 1 else 0
  }

  lemma {:induction false} NoncesCounted(c: Setup, inputs: seq<Input>, ids: set<int>, from: int)
    requires Submitters(c, inputs) <= ids
    ensures |NoncesSince(c, inputs, from)| <= AcceptedAmong(c, inputs, ids, from)
  {
    if inputs != [] {
      NoncesCounted(c, inputs[..|inputs| - 1], ids, from);
    }
  }

  lemma {:induction false} AcceptedSplits(c: Setup, inputs: seq<Input>, ids: set<int>, id: int, from: int)
    requires id in ids
    ensures AcceptedAmong(c, inputs, ids, from)
            == AcceptedAmong(c, inputs, ids - {id}, from) + AcceptedSince(c, inputs, id, from)
  {
    hide Step, After;
    if inputs != [] {
      AcceptedSplits(c, inputs[..|inputs| - 1], ids, id, from);
    }
  }

  lemma {:induction false} AcceptedAmongNone(c: Setup, inputs: seq<Input>, from: int)
    ensures AcceptedAmong(c, inputs, {}, from) == 0
  {
    if inputs != [] { AcceptedAmongNone(c, inputs[..|inputs| - 1], from); }
  }

  lemma {:induction false} AcceptedPerAgent(c: Setup, inputs: seq<Input>, ids: set<int>, from: int, most: nat)
    requires forall id :: AcceptedSince(c, inputs, id, from) <= most
    ensures AcceptedAmong(c, inputs, ids, from) <= most * |ids|
    decreases ids
  {
    hide AcceptedAmong, AcceptedSince;
    if ids == {} {
      AcceptedAmongNone(c, inputs, from);
    } else {
      var id := Pick(ids);
      AcceptedSplits(c, inputs, ids, id, from);
      AcceptedPerAgent(c, inputs, ids - {id}, from, most);
      MulDistributes(|ids - {id}|, 1, most);
      assert |ids| == |ids - {id}| + 1;
    }
  }

  /** Every nonce held is one accepted at its recorded time; none is older than the last sweep allows;
      and that sweep is less than a sweep interval behind the last request that asked for one. */
  ghost predicate CacheFresh(c: Setup, inputs: seq<Input>, st: State, now: int) {
    && (st.swept.None? ==> st.seen == map[])
    && (st.swept.Some? ==>
          && st.swept.value <= now
          && (forall n :: n in st.seen ==> st.swept.value - st.seen[n] <= c.ttl))
    && (forall n, from :: n in st.seen && from <= st.seen[n] ==> n in NoncesSince(c, inputs, from))
    && (forall n :: n in st.seen ==> st.seen[n] <= now)
  }

  lemma {:induction false} CacheStaysFresh(c: Setup, inputs: seq<Input>)
    requires c.ttl >= 0 && Nondecreasing(inputs) && inputs != []
    ensures CacheFresh(c, inputs, After(c, inputs), inputs[|inputs| - 1].now)
  {
    hide Canonical, Seconds, Spend;
    var last := |inputs| - 1;
    var rest, i := inputs[..last], inputs[last];
    if rest != [] {
      CacheStaysFresh(c, rest);
    }
    var before := if rest == [] then i.now else rest[last - 1].now;
    AdmitKeepsCacheFresh(c, inputs, After(c, rest), before);
  }

  lemma AdmitKeepsCacheFresh(c: Setup, inputs: seq<Input>, st: State, before: int)
    requires c.ttl >= 0 && inputs != [] && before <= inputs[|inputs| - 1].now
    requires st == After(c, inputs[..|inputs| - 1])
    requires CacheFresh(c, inputs[..|inputs| - 1], st, before)
    ensures CacheFresh(c, inputs, After(c, inputs), inputs[|inputs| - 1].now)
  {
    hide Screen, Spend, After, NoncesSince;
    var last := |inputs| - 1;
    var i := inputs[last];
    AfterStep(c, inputs, last);
    assert inputs[..last + 1] == inputs;
    var st' := After(c, inputs);
    forall from ensures NoncesSince(c, inputs[..last], from) <= NoncesSince(c, inputs, from)
      && (VerdictAt(c, inputs, last) == Accepted && from <= i.now ==> i.s.nonce in NoncesSince(c, inputs, from))
    {
      NoncesStep(c, inputs, from);
    }
  }

  lemma NoncesStep(c: Setup, inputs: seq<Input>, from: int)
    requires inputs != []
    ensures var last := |inputs| - 1;
      NoncesSince(c, inputs, from) == NoncesSince(c, inputs[..last], from)
        + if VerdictAt(c, inputs, last) == Accepted && inputs[last].now >= from then {inputs[last].s.nonce} else {}
  {
    hide Step, After;
  }

  /** After any request that reached the nonce cache, the cache holds fewer than 360 nonces for each
      agent that has had a request accepted. */
  lemma CacheBounded(c: Setup, inputs: seq<Input>)
    requires Shipped(c) && Nondecreasing(inputs) && inputs != []
    requires VerdictAt(c, inputs, |inputs| - 1) in {Accepted, Replayed, Limited}
    ensures |After(c, inputs).seen| <= 359 * |Submitters(c, inputs)|
  {
    hide Screen, Spend, Seconds, NoncesSince, AcceptedSince, AcceptedAmong, Submitters;
    var last := |inputs| - 1;
    AfterStep(c, inputs, last);
    assert inputs[..last + 1] == inputs;
    var st, now, ids := After(c, inputs), inputs[last].now, Submitters(c, inputs);
    CacheStaysFresh(c, inputs);
    if inputs[..last] != [] {
      CacheStaysFresh(c, inputs[..last]);
    }
    assert st.swept.Some? && now - st.swept.value < NONCE_SWEEP_EVERY;
    var from := st.swept.value - NONCE_TTL;
    forall id ensures AcceptedSince(c, inputs, id, from) <= 359 {
      WithinIsSince(c, inputs, id, from, now);
      RateBounded(c, inputs, id, from, now);
      ElevenMinutes(now - from, AcceptedSince(c, inputs, id, from));
    }
    AcceptedPerAgent(c, inputs, ids, from, 359);
    NoncesCounted(c, inputs, ids, from);
    assert st.seen.Keys <= NoncesSince(c, inputs, from);
    SubsetSize(st.seen.Keys, NoncesSince(c, inputs, from));
    assert |st.seen| == |st.seen.Keys|;
  }

  lemma ElevenMinutes(d: int, n: nat)
    requires 0 <= d < 660 * SECOND && n as real <= BURST_SIZE + Seconds(d) * REFILL_RATE
    ensures n <= 359
  {
  }
}
