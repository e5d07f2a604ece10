/** What the verifier answers (internal/ingest/sign.go), from the requests of the run alone: exactly which are
    accepted, which are refused, and why. */
module Verdicts {
  import opened Options
  import opened Admission
  import opened AdmissionRuns
  import Text

  // ---------------------------------------------------------------- one request

  /** An enabled agent, a clock no further off than allowed, and a signature of this very request by its key. */
  ghost predicate Genuine(c: Setup, i: Input) {
    && i.agent.Some? && i.agent.value.enabled
    && i.s.timestamp * SECOND - c.skew <= i.now <= i.s.timestamp * SECOND + c.skew
    && c.verifies(i.agent.value.pubKey, SignedBytes(c, i.s), i.s.signature)
  }

  ghost function SignedBytes(c: Setup, s: Signed): string {
    "smokeng-ingest-v1" + "\n" + s.httpMethod + "\n" + s.path + "\n" + Text.FormatInt(s.agentId) + "\n"
    + Text.FormatInt(s.timestamp) + "\n" + s.nonce + "\n" + c.digest(s.body)
  }

  /** Only what the agent signed gets as far as the nonces and the rate: anything else changes nothing and is
      refused for what is wrong with it. */
  lemma OnlyTheSignedCounts(c: Setup, st: State, i: Input)
    ensures var (st', v) := Step(c, st, i.agent, i.s, i.now);
      && (v in {Accepted, Replayed, Limited} <==> Genuine(c, i))
      && (!Genuine(c, i) ==> st' == st)
      && (v == UnknownAgent <==> i.agent == None)
      && (v == Disabled <==> i.agent.Some? && !i.agent.value.enabled)
      && (v == BadClock ==> i.now < i.s.timestamp * SECOND - c.skew || i.now > i.s.timestamp * SECOND + c.skew)
      && (v == BadSignature ==> !c.verifies(i.agent.value.pubKey, SignedBytes(c, i.s), i.s.signature))
  {
    assert SignedBytes(c, i.s) ==
      Canonical(i.s.httpMethod, i.s.path, i.s.agentId, i.s.timestamp, i.s.nonce, c.digest(i.s.body));
    hide Canonical, SignedBytes, AdmitNonce;
  }

  // ---------------------------------------------------------------- replays

  ghost predicate AcceptedAt(c: Setup, inputs: seq<Input>, i: nat)
    requires i < |inputs|
  {
    VerdictAt(c, inputs, i) == Accepted
  }

  /** Its nonce was accepted no longer ago than nonces are remembered. */
  ghost predicate Repeats(c: Setup, inputs: seq<Input>, k: nat)
    requires k < |inputs|
  {
    exists i :: 0 <= i < k && AcceptedAt(c, inputs, i) && inputs[i].s.nonce == inputs[k].s.nonce
      && inputs[k].now - inputs[i].now <= c.ttl
  }

  ghost predicate SeenBy(c: Setup, inputs: seq<Input>, n: nat, nonce: string, at: int)
    requires n <= |inputs|
  {
    exists i :: 0 <= i < n && AcceptedAt(c, inputs, i) && inputs[i].s.nonce == nonce && inputs[i].now == at
  }

  /** What the cache holds was accepted, at the time it says. */
  lemma {:induction false} SeenWasAccepted(c: Setup, inputs: seq<Input>, n: nat, nonce: string)
    requires n <= |inputs| && nonce in After(c, inputs[..n]).seen
    ensures SeenBy(c, inputs, n, nonce, After(c, inputs[..n]).seen[nonce])
  {
    if n > 0 {
      AfterStep(c, inputs, n - 1);
      var was, now := After(c, inputs[..n - 1]), After(c, inputs[..n]);
      var i := inputs[n - 1];
      StepSees(c, was, i, nonce);
      hide After, Step, VerdictAt;
      if nonce in was.seen && now.seen[nonce] == was.seen[nonce] {
        SeenWasAccepted(c, inputs, n - 1, nonce);
        var j :| 0 <= j < n - 1 && AcceptedAt(c, inputs, j) && inputs[j].s.nonce == nonce
          && inputs[j].now == was.seen[nonce];
        assert SeenBy(c, inputs, n, nonce, now.seen[nonce]);
      } else {
        VerdictIs(c, inputs, n - 1);
        assert AcceptedAt(c, inputs, n - 1);
      }
    }
  }

  lemma VerdictIs(c: Setup, inputs: seq<Input>, k: nat)
    requires k < |inputs|
    ensures VerdictAt(c, inputs, k) == Step(c, After(c, inputs[..k]), inputs[k].agent, inputs[k].s, inputs[k].now).1
  {
  }

  lemma StepSees(c: Setup, st: State, i: Input, nonce: string)
    ensures var (st', v) := Step(c, st, i.agent, i.s, i.now);
      nonce in st'.seen ==>
        || (nonce in st.seen && st'.seen[nonce] == st.seen[nonce])
        || (v == Accepted && i.s.nonce == nonce && st'.seen[nonce] == i.now)
  {
    hide Canonical, Spend;
  }

  lemma ReplayIs(c: Setup, st: State, i: Input)
    requires Genuine(c, i)
    ensures Step(c, st, i.agent, i.s, i.now).1 == Replayed <==>
      i.s.nonce in st.seen && i.now - st.seen[i.s.nonce] <= c.ttl
  {
    OnlyTheSignedCounts(c, st, i);
    hide Genuine, Spend, Screen;
  }

  lemma ReplayedExactly(c: Setup, inputs: seq<Input>, k: nat)
    requires k < |inputs| && Nondecreasing(inputs) && Genuine(c, inputs[k])
    ensures VerdictAt(c, inputs, k) == Replayed <==> Repeats(c, inputs, k)
  {
    var st, nonce := After(c, inputs[..k]), inputs[k].s.nonce;
    ReplayIs(c, st, inputs[k]);
    VerdictIs(c, inputs, k);
    hide After, Step, VerdictAt, Genuine;
    if nonce in st.seen && inputs[k].now - st.seen[nonce] <= c.ttl {
      SeenWasAccepted(c, inputs, k, nonce);
    }
    if Repeats(c, inputs, k) {
      var i :| 0 <= i < k && AcceptedAt(c, inputs, i) && inputs[i].s.nonce == nonce
        && inputs[k].now - inputs[i].now <= c.ttl;
      assert inputs[k - 1].now <= inputs[k].now;
      NonceRemembered(c, inputs, i, k);
    }
  }

  // ---------------------------------------------------------------- the rate

  ghost predicate AcceptedOf(c: Setup, inputs: seq<Input>, i: nat, id: int)
    requires i < |inputs|
  {
    AcceptedAt(c, inputs, i) && inputs[i].s.agentId == id
  }

  /** How many of an agent's requests were accepted from the i-th to before the n-th. */
  ghost function Between(c: Setup, inputs: seq<Input>, id: int, i: nat, n: nat): nat
    requires n <= |inputs|
  {
    if n <= i then 0 else Between(c, inputs, id, i, n - 1) + if AcceptedOf(c, inputs, n - 1, id) then 1 else 0
  }

  /** From each accepted request on, this one included, there are at most thirty, and one more for every two
      seconds since. */
  ghost predicate HasRoom(c: Setup, inputs: seq<Input>, k: nat)
    requires k < |inputs|
  {
    var id := inputs[k].s.agentId;
    forall i :: 0 <= i < k && AcceptedOf(c, inputs, i, id) ==>
      (Between(c, inputs, id, i, k) - 29) * (2 * SECOND) <= inputs[k].now - inputs[i].now
  }

  function Tokens(st: State, id: int, now: int): real {
    if id in st.buckets then Refilled(st.buckets[id], now) else 30.0
  }

  ghost function Allowance(c: Setup, inputs: seq<Input>, id: int, i: nat, n: nat, now: int): real
    requires i < |inputs| && n <= |inputs|
  {
    30.0 - Between(c, inputs, id, i, n) as real + Seconds(now - inputs[i].now) * 0.5
  }

  ghost predicate Capped(c: Setup, inputs: seq<Input>, id: int, n: nat, now: int, t: real)
    requires n <= |inputs|
  {
    && t <= 30.0
    && (forall i :: 0 <= i < n && AcceptedOf(c, inputs, i, id) ==> t <= Allowance(c, inputs, id, i, n, now))
    && (t == 30.0 || exists i :: 0 <= i < n && AcceptedOf(c, inputs, i, id) && t == Allowance(c, inputs, id, i, n, now))
  }

  lemma RefilledTwice(b: Bucket, x: int, y: int)
    requires b.last <= x <= y
    ensures Refilled(Bucket(Refilled(b, x), x), y) == Refilled(b, y)
    ensures Refilled(b, x) <= 30.0
  {
    SecondsAdd(x - b.last, y - x);
    SecondsAdd(y - x, 0);
    hide Seconds;
  }

  /** One request moves the tokens of its agent alone: by one, when it is accepted. */
  lemma TokensMove(c: Setup, st: State, i: Input, id: int, now: int)
    requires i.now <= now && LastInPast(st, i.now)
    ensures var (st', v) := Step(c, st, i.agent, i.s, i.now);
      && LastInPast(st', now)
      && (if v == Accepted && i.s.agentId == id
          then Tokens(st', id, now) == Refilled(Bucket(Tokens(st, id, i.now) - 1.0, i.now), now)
          else Tokens(st', id, now) == Tokens(st, id, now))
      && (Genuine(c, i) && v != Replayed && i.s.agentId == id ==> (v == Accepted <==> Tokens(st, id, i.now) >= 1.0))
  {
    OnlyTheSignedCounts(c, st, i);
    var (st', v) := Step(c, st, i.agent, i.s, i.now);
    if id in st.buckets {
      RefilledTwice(st.buckets[id], i.now, now);
    }
    hide Refilled, Genuine, Screen;
    SpendDates(st, i.s.agentId, i.now, id);
  }

  lemma {:induction false} TokensAre(c: Setup, inputs: seq<Input>, id: int, n: nat, now: int)
    requires n <= |inputs| && Nondecreasing(inputs) && (n > 0 ==> inputs[n - 1].now <= now)
    ensures LastInPast(After(c, inputs[..n]), now)
    ensures Capped(c, inputs, id, n, now, Tokens(After(c, inputs[..n]), id, now))
  {
    if n > 0 {
      var i, st := inputs[n - 1], After(c, inputs[..n - 1]);
      assert n > 1 ==> inputs[n - 2].now <= i.now;
      TokensAre(c, inputs, id, n - 1, i.now);
      TokensAre(c, inputs, id, n - 1, now);
      AfterStep(c, inputs, n - 1);
      VerdictIs(c, inputs, n - 1);
      TokensMove(c, st, i, id, now);
      hide After, Step, VerdictAt, Capped, Tokens, LastInPast;
      if AcceptedOf(c, inputs, n - 1, id) {
        CapMoves(c, inputs, id, n, now, Tokens(st, id, i.now));
      } else {
        CapStays(c, inputs, id, n, now, Tokens(st, id, now));
      }
    }
  }

  lemma CapStays(c: Setup, inputs: seq<Input>, id: int, n: nat, now: int, t: real)
    requires 0 < n <= |inputs| && !AcceptedOf(c, inputs, n - 1, id) && Capped(c, inputs, id, n - 1, now, t)
    ensures Capped(c, inputs, id, n, now, t)
  {
    hide AcceptedOf, Seconds;
    forall i | 0 <= i < n && AcceptedOf(c, inputs, i, id)
      ensures Allowance(c, inputs, id, i, n, now) == Allowance(c, inputs, id, i, n - 1, now)
    {
    }
  }

  lemma AllowanceMoves(c: Setup, inputs: seq<Input>, id: int, i: nat, n: nat, now: int)
    requires 0 < n <= |inputs| && i < n && AcceptedOf(c, inputs, n - 1, id)
    ensures var was := if i == n - 1 then 30.0 else Allowance(c, inputs, id, i, n - 1, inputs[n - 1].now);
      Allowance(c, inputs, id, i, n, now) == was - 1.0 + Seconds(now - inputs[n - 1].now) * 0.5
  {
    hide AcceptedOf;
    SecondsAdd(inputs[n - 1].now - inputs[i].now, now - inputs[n - 1].now);
    if i == n - 1 {
      assert Between(c, inputs, id, i, n - 1) == 0;
    }
    hide Seconds;
  }

  lemma CapMoves(c: Setup, inputs: seq<Input>, id: int, n: nat, now: int, t: real)
    requires 0 < n <= |inputs| && AcceptedOf(c, inputs, n - 1, id) && inputs[n - 1].now <= now
    requires Capped(c, inputs, id, n - 1, inputs[n - 1].now, t)
    ensures Capped(c, inputs, id, n, now, Refilled(Bucket(t - 1.0, inputs[n - 1].now), now))
  {
    var at := inputs[n - 1].now;
    var t' := Refilled(Bucket(t - 1.0, at), now);
    assert t' == if t - 1.0 + Seconds(now - at) * 0.5 < 30.0 then t - 1.0 + Seconds(now - at) * 0.5 else 30.0;
    forall i | 0 <= i < n && AcceptedOf(c, inputs, i, id) ensures t' <= Allowance(c, inputs, id, i, n, now) {
      AllowanceMoves(c, inputs, id, i, n, now);
    }
    var j := n - 1;
    if t != 30.0 {
      j :| 0 <= j < n - 1 && AcceptedOf(c, inputs, j, id) && t == Allowance(c, inputs, id, j, n - 1, at);
    }
    AllowanceMoves(c, inputs, id, j, n, now);
    assert t' == 30.0 || t' == Allowance(c, inputs, id, j, n, now);
    hide AcceptedOf, Allowance, Refilled, Seconds;
  }

  lemma RoomIsTokens(c: Setup, inputs: seq<Input>, k: nat, t: real)
    requires k < |inputs| && Capped(c, inputs, inputs[k].s.agentId, k, inputs[k].now, t)
    ensures HasRoom(c, inputs, k) <==> t >= 1.0
  {
    hide AcceptedOf, Between;
    var id, now := inputs[k].s.agentId, inputs[k].now;
    forall i | 0 <= i < k
      ensures Allowance(c, inputs, id, i, k, now) >= 1.0 <==>
        (Between(c, inputs, id, i, k) - 29) * (2 * SECOND) <= now - inputs[i].now
    {
      TokenOrTime(Between(c, inputs, id, i, k), now - inputs[i].now);
    }
    hide Allowance;
  }

  lemma TokenOrTime(n: nat, d: int)
    ensures 30.0 - n as real + Seconds(d) * 0.5 >= 1.0 <==> (n - 29) * (2 * SECOND) <= d
  {
    assert Seconds(d) * 0.5 * (2 * SECOND) as real == d as real;
    assert ((n - 29) * (2 * SECOND)) as real == (n as real - 29.0) * (2 * SECOND) as real;
  }

  // ---------------------------------------------------------------- the verdict

  /** Which requests of a run are accepted: exactly the genuine ones whose nonce was not accepted within its time to
      live, and that keep the agent, from each of its accepted requests on, at thirty and one for every two
      seconds. The other genuine ones are replays or over the rate, in this order. */
  lemma VerdictExactly(c: Setup, inputs: seq<Input>, k: nat)
    requires k < |inputs| && Nondecreasing(inputs)
    ensures var v, i := VerdictAt(c, inputs, k), inputs[k];
      && (v == Accepted <==> Genuine(c, i) && !Repeats(c, inputs, k) && HasRoom(c, inputs, k))
      && (v == Replayed <==> Genuine(c, i) && Repeats(c, inputs, k))
      && (v == Limited <==> Genuine(c, i) && !Repeats(c, inputs, k) && !HasRoom(c, inputs, k))
      && (!Genuine(c, i) ==> After(c, inputs[..k + 1]) == After(c, inputs[..k]))
  {
    var st, i := After(c, inputs[..k]), inputs[k];
    VerdictIs(c, inputs, k);
    AfterStep(c, inputs, k);
    OnlyTheSignedCounts(c, st, i);
    assert k > 0 ==> inputs[k - 1].now <= i.now;
    TokensAre(c, inputs, i.s.agentId, k, i.now);
    TokensMove(c, st, i, i.s.agentId, i.now);
    RoomIsTokens(c, inputs, k, Tokens(st, i.s.agentId, i.now));
    if Genuine(c, i) {
      ReplayedExactly(c, inputs, k);
    }
    hide Genuine, Repeats, HasRoom, After, Step, VerdictAt, Capped, Tokens;
  }
}
