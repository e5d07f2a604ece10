/** Admission of signed requests (internal/ingest/sign.go): the order of the checks, the nonce cache
    with its lazy sweep, and the token bucket of each agent. Times are nanoseconds. */
module Admission {
  import opened Options
  import opened Text

  const SECOND: int := 1_000_000_000
  const MAX_SKEW: int := 300 * SECOND
  const NONCE_TTL: int := 600 * SECOND
  const NONCE_SWEEP_EVERY: int := 60 * SECOND
  const BURST_SIZE: real := 30.0
  const REFILL_RATE: real := 0.5 // tokens a second

  const DOMAIN: string := "smokeng-ingest-v1"

  datatype Signed = Signed(httpMethod: string, path: string, agentId: int, timestamp: int, nonce: string,
                           signature: seq<bv8>, body: seq<bv8>)

  datatype Agent = Agent(id: int, name: string, pubKey: seq<bv8>, enabled: bool)

  /** What the verifier takes from libraries: the hex SHA-256 of a body, and whether a signature
      verifies under a key (Ed25519, section 5.1 of RFC 8032). Both are arbitrary here; and so, until
      `Shipped`, are how far a timestamp may be off and for how long a nonce is remembered. */
  datatype Setup = Setup(digest: seq<bv8> -> string, verifies: (seq<bv8>, string, seq<bv8>) -> bool,
                         skew: int, ttl: int)

  predicate Shipped(c: Setup) { c.skew == MAX_SKEW && c.ttl == NONCE_TTL }

  datatype Bucket = Bucket(tokens: real, last: int)

  /** `swept` is None for Go's zero time, which lies further back than any sweep interval. */
  datatype State = State(seen: map<string, int>, swept: Option<int>, buckets: map<int, Bucket>)

  datatype Outcome = AdmitOk | AdmitReplay | AdmitLimited

  datatype Verdict = Accepted | UnknownAgent | Disabled | BadClock | BadSignature | Replayed | Limited

  // ---------------------------------------------------------------- what is signed

  function Canonical(httpMethod: string, path: string, agentId: int, timestamp: int, nonce: string,
                     digest: string): string {
    DOMAIN + "\n" + httpMethod + "\n" + path + "\n" + FormatInt(agentId) + "\n" + FormatInt(timestamp) + "\n"
    + nonce + "\n" + digest
  }

  predicate OneLine(s: string) { '\n' !in s }

  /** The signed bytes determine every field, whatever the path contains: a path may hold a decoded
      newline, but the fields on both sides of it cannot. */
  lemma CanonicalDetermines(m1: string, p1: string, i1: int, t1: int, n1: string, d1: string,
                            m2: string, p2: string, i2: int, t2: int, n2: string, d2: string)
    requires OneLine(m1) && OneLine(n1) && OneLine(d1) && OneLine(m2) && OneLine(n2) && OneLine(d2)
    requires Canonical(m1, p1, i1, t1, n1, d1) == Canonical(m2, p2, i2, t2, n2, d2)
    ensures m1 == m2 && p1 == p2 && i1 == i2 && t1 == t2 && n1 == n2 && d1 == d2
  {
    var f1, f2 := FormatInt(i1), FormatInt(i2);
    var g1, g2 := FormatInt(t1), FormatInt(t2);
    var h1, h2 := DOMAIN + "\n" + m1 + "\n" + p1, DOMAIN + "\n" + m2 + "\n" + p2;
    SplitLast(h1 + "\n" + f1 + "\n" + g1 + "\n" + n1, d1, h2 + "\n" + f2 + "\n" + g2 + "\n" + n2, d2, '\n');
    SplitLast(h1 + "\n" + f1 + "\n" + g1, n1, h2 + "\n" + f2 + "\n" + g2, n2, '\n');
    SplitLast(h1 + "\n" + f1, g1, h2 + "\n" + f2, g2, '\n');
    SplitLast(h1, f1, h2, f2, '\n');
    FormatIntInjective(i1, i2);
    FormatIntInjective(t1, t2);
    assert h1 == (DOMAIN + "\n") + (m1 + "\n" + p1) && h2 == (DOMAIN + "\n") + (m2 + "\n" + p2);
    assert m1 + "\n" + p1 == h1[|DOMAIN + "\n"|..];
    assert m2 + "\n" + p2 == h2[|DOMAIN + "\n"|..];
    SplitFirst(m1, p1, m2, p2, '\n');
  }

  // ---------------------------------------------------------------- the steps, as functions

  function SweepDue(swept: Option<int>, now: int): bool {
    swept.None? || now - swept.value >= NONCE_SWEEP_EVERY
  }

  function Unexpired(seen: map<string, int>, now: int, ttl: int): map<string, int> {
    map n | n in seen && now - seen[n] <= ttl :: seen[n]
  }

  function Seconds(d: int): real { d as real / SECOND as real }

  function Refilled(b: Bucket, now: int): real {
    var t := b.tokens + Seconds(now - b.last) * REFILL_RATE;
    if t < BURST_SIZE then t else BURST_SIZE
  }

  /** One call of `rateLimiters.allow`. */
  function Spend(buckets: map<int, Bucket>, id: int, now: int): (map<int, Bucket>, bool) {
    if id !in buckets then (buckets[id := Bucket(BURST_SIZE - 1.0, now)], true)
    else
      var t := Refilled(buckets[id], now);
      if t < 1.0 then (buckets[id := Bucket(t, now)], false) else (buckets[id := Bucket(t - 1.0, now)], true)
  }

  /** One call of `nonceCache.admit`. */
  function AdmitNonce(st: State, nonce: string, id: int, now: int, ttl: int): (State, Outcome) {
    var due := SweepDue(st.swept, now);
    var seen := if due then Unexpired(st.seen, now, ttl) else st.seen;
    var st' := st.(seen := seen, swept := if due then Some(now) else st.swept);
    if nonce in seen && now - seen[nonce] <= ttl then (st', AdmitReplay)
    else
      var (buckets, ok) := Spend(st.buckets, id, now);
      if ok then (st'.(seen := seen[nonce := now], buckets := buckets), AdmitOk)
      else (st'.(buckets := buckets), AdmitLimited)
  }

  /** What the checks before the stateful ones say, or None when the request is proven to come from
      the agent it names. */
  function Screen(c: Setup, agent: Option<Agent>, s: Signed, now: int): (r: Option<Verdict>)
    ensures r.Some? ==> !r.value.Accepted? && !r.value.Replayed? && !r.value.Limited?
  {
    var skew := now - s.timestamp * SECOND;
    if agent.None? then Some(UnknownAgent)
    else if !agent.value.enabled then Some(Disabled)
    else if skew < -c.skew || skew > c.skew then Some(BadClock)
    else if !c.verifies(agent.value.pubKey,
                        Canonical(s.httpMethod, s.path, s.agentId, s.timestamp, s.nonce, c.digest(s.body)),
                        s.signature) then Some(BadSignature)
    else None
  }

  /** One call of `Verifier.Check`. */
  function Step(c: Setup, st: State, agent: Option<Agent>, s: Signed, now: int): (State, Verdict) {
    var screened := Screen(c, agent, s, now);
    if screened.Some? then (st, screened.value)
    else
      var (st', a) := AdmitNonce(st, s.nonce, s.agentId, now, c.ttl);
      (st', match a case AdmitOk => Accepted case AdmitReplay => Replayed case AdmitLimited => Limited)
  }

  const INITIAL: State := State(map[], None, map[])

  // ---------------------------------------------------------------- the objects

  class RateLimiters {
    var buckets: map<int, Bucket>

    constructor ()
      ensures buckets == map[]
    {
      buckets := map[];
    }

    method Allow(id: int, now: int) returns (ok: bool)
      modifies this
      ensures (buckets, ok) == Spend(old(buckets), id, now)
    {
      if id !in buckets {
        buckets := buckets[id := Bucket(BURST_SIZE - 1.0, now)];
        return true;
      }
      var b := buckets[id];
      b := b.(tokens := Refilled(b, now), last := now);
      if b.tokens < 1.0 {
        buckets := buckets[id := b];
        return false;
      }
      buckets := buckets[id := b.(tokens := b.tokens - 1.0)];
      return true;
    }
  }

  class NonceCache {
    const ttl: int
    var seen: map<string, int>
    var swept: Option<int>

    constructor (ttl: int)
      ensures seen == map[] && swept == None && this.ttl == ttl
    {
      this.ttl := ttl;
      seen, swept := map[], None;
    }

    /** Drops every nonce older than `ttl`. */
    method Sweep(now: int)
      modifies this
      ensures seen == Unexpired(old(seen), now, ttl) && swept == Some(now)
    {
      var todo := seen.Keys;
      while todo != {}
        invariant todo <= seen.Keys <= old(seen).Keys
        invariant forall n :: n in seen ==> seen[n] == old(seen)[n]
        invariant forall n :: n in old(seen) && n !in todo ==> (n in seen <==> now - old(seen)[n] <= ttl)
        decreases todo
      {
        var n :| n in todo;
        todo := todo - {n};
        if now - seen[n] > ttl {
          seen := seen - {n};
        }
      }
      swept := Some(now);
    }

    /** `limits` plays the part of the `allow` callback. */
    method Admit(nonce: string, now: int, id: int, limits: RateLimiters) returns (a: Outcome)
      modifies this, limits
      ensures (State(seen, swept, limits.buckets), a) ==
              AdmitNonce(old(State(seen, swept, limits.buckets)), nonce, id, now, ttl)
    {
      if swept.None? || now - swept.value >= NONCE_SWEEP_EVERY {
        Sweep(now);
      }
      if nonce in seen && now - seen[nonce] <= ttl {
        return AdmitReplay;
      }
      var ok := limits.Allow(id, now);
      if !ok {
        return AdmitLimited;
      }
      seen := seen[nonce := now];
      return AdmitOk;
    }
  }

  class Verifier {
    const setup: Setup
    const nonces: NonceCache
    const limits: RateLimiters
    var accepted: nat
    var rejected: nat

    constructor (setup: Setup)
      ensures Valid() && Abstract() == INITIAL && accepted == rejected == 0
      ensures this.setup == setup && fresh(nonces) && fresh(limits)
    {
      this.setup := setup;
      nonces := new NonceCache(setup.ttl);
      limits := new RateLimiters();
      accepted, rejected := 0, 0;
    }

    ghost predicate Valid() { nonces.ttl == setup.ttl }

    ghost function Abstract(): State
      reads this, nonces, limits
    {
      State(nonces.seen, nonces.swept, limits.buckets)
    }

    /** `Check`: `agent` is what Lookup returned for the id in the request. */
    method Check(s: Signed, agent: Option<Agent>, now: int) returns (v: Verdict)
      requires Valid()
      modifies this, nonces, limits
      ensures (Abstract(), v) == Step(setup, old(Abstract()), agent, s, now)
      ensures accepted == old(accepted) + (if v == Accepted then 1 else 0)
      ensures accepted + rejected == old(accepted + rejected) + 1
    {
      var skew := now - s.timestamp * SECOND;
      if agent.None? {
        v := UnknownAgent;
      } else if !agent.value.enabled {
        v := Disabled;
      } else if skew < -setup.skew || skew > setup.skew {
        v := BadClock;
      } else {
        var msg := Canonical(s.httpMethod, s.path, s.agentId, s.timestamp, s.nonce, setup.digest(s.body));
        if !setup.verifies(agent.value.pubKey, msg, s.signature) {
          v := BadSignature;
        } else {
          var a := nonces.Admit(s.nonce, now, s.agentId, limits);
          v := match a case AdmitOk => Accepted case AdmitReplay => Replayed case AdmitLimited => Limited;
        }
      }
      if v == Accepted {
        accepted := accepted + 1;
      } else {
        rejected := rejected + 1;
      }
    }
  }
}
