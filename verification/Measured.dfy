/** What a measurement says of the pings of its bucket (internal/probe/scheduler.go `finalize`), ping by ping:
    what is counted, which replies are samples and of how many microseconds, and what every flag and error means. */
module Measured {
  import opened Options
  import opened Collector
  import opened Sorting
  import Arithmetic

  // ---------------------------------------------------------------- one ping

  /** Sent, and not left out because the bucket was cut short while it was still waiting. */
  predicate Counts(p: Ping, truncated: bool, deadline: int) {
    p.sent && !(truncated && p.rx == None && !p.sendFailed && p.txUser > deadline)
  }

  /** A reply came to what was counted and went out. */
  predicate CameBack(p: Ping) { p.sent && !p.sendFailed && p.rx.Some? }

  /** The kernel's stamp is from between this ping's own send and its reply. */
  predicate KernelKnows(p: Ping)
    requires p.rx.Some?
  {
    p.txKern.Some? && p.txUser <= p.txKern.value && p.txKern.value <= p.rx.value
  }

  function WentOut(p: Ping): int
    requires p.rx.Some?
  {
    if KernelKnows(p) then p.txKern.value else p.txUser
  }

  predicate InTime(p: Ping, timeout: int) {
    CameBack(p) && WentOut(p) <= p.rx.value <= WentOut(p) + timeout
  }

  /** The whole microseconds of a duration, as far as 32 bits go. */
  predicate Micros(us: int, d: int) {
    (us < 0xFFFF_FFFF && us * 1000 <= d < (us + 1) * 1000) || (us == 0xFFFF_FFFF && d >= 0xFFFF_FFFF * 1000)
  }

  lemma FateIs(p: Ping, truncated: bool, deadline: int, timeout: int)
    ensures var f := FateOf(p, truncated, deadline, timeout);
      && (Attempted(f) <==> Counts(p, truncated, deadline))
      && (f == Refused <==> p.sent && p.sendFailed)
      && (f == ClockMoved <==> CameBack(p) && p.rx.value < p.txUser)
      && (f.Sampled? <==> InTime(p, timeout))
      && (f.Sampled? ==> p.rx.Some? && Micros(f.us, p.rx.value - WentOut(p)))
  {
  }

  // ---------------------------------------------------------------- all of them

  ghost function Which(pings: seq<Ping>, f: Ping -> bool): set<int> { set i | 0 <= i < |pings| && f(pings[i]) }

  lemma WhichSplits(pings: seq<Ping>, f: Ping -> bool)
    requires pings != []
    ensures var n := |pings| - 1;
      && n !in Which(pings[..n], f)
      && Which(pings, f) == if f(pings[n]) then Which(pings[..n], f) + {n} else Which(pings[..n], f)
  {
    var n := |pings| - 1;
    forall i | 0 <= i < n ensures pings[..n][i] == pings[i] {
    }
  }

  lemma WhichCounts(pings: seq<Ping>, f: Ping -> bool)
    requires pings != []
    ensures var n := |pings| - 1;
      |Which(pings, f)| == |Which(pings[..n], f)| + if f(pings[n]) then 1 else 0
  {
    WhichSplits(pings, f);
    hide Which;
  }

  lemma FatesOfMost(pings: seq<Ping>, truncated: bool, deadline: int, timeout: int)
    requires pings != []
    ensures var n := |pings| - 1;
      && Fates(pings, truncated, deadline, timeout)[..n] == Fates(pings[..n], truncated, deadline, timeout)
      && Fates(pings, truncated, deadline, timeout)[n] == FateOf(pings[n], truncated, deadline, timeout)
  {
    hide FateOf;
  }

  /** One sample for each ping that came back in time, in the order of the pings. */
  ghost predicate SampledEach(pings: seq<Ping>, timeout: int, samples: seq<int>, which: seq<int>) {
    && |samples| == |which|
    && (forall j, k :: 0 <= j < k < |which| ==> which[j] < which[k])
    && (forall i :: i in which <==> 0 <= i < |pings| && InTime(pings[i], timeout))
    && (forall j :: 0 <= j < |which| ==> SampleOf(pings, samples[j], which[j]))
  }

  ghost predicate SampleOf(pings: seq<Ping>, us: int, i: int) {
    0 <= i < |pings| && pings[i].rx.Some? && Micros(us, pings[i].rx.value - WentOut(pings[i]))
  }

  lemma {:induction false} SamplesAre(pings: seq<Ping>, truncated: bool, deadline: int, timeout: int)
      returns (which: seq<int>)
    ensures SampledEach(pings, timeout, Samples(Fates(pings, truncated, deadline, timeout)), which)
  {
    hide *;
    if pings == [] {
      which := [];
      NothingSampled(truncated, deadline, timeout);
    } else {
      var n := |pings| - 1;
      var most := SamplesAre(pings[..n], truncated, deadline, timeout);
      var fates := Fates(pings, truncated, deadline, timeout);
      FatesOfMost(pings, truncated, deadline, timeout);
      FateIs(pings[n], truncated, deadline, timeout);
      SamplesLast(fates);
      SampledOneMore(pings, timeout, Samples(fates[..n]), most);
      if fates[n].Sampled? {
        which := most + [n];
        LastSample(pings, timeout, fates[n].us);
        SampledLast(pings, timeout, Samples(fates[..n]), most, fates[n].us);
      } else {
        which := most;
        SampledSame(pings, timeout, Samples(fates[..n]), most);
      }
    }
  }

  lemma NothingSampled(truncated: bool, deadline: int, timeout: int)
    ensures SampledEach([], timeout, Samples(Fates([], truncated, deadline, timeout)), [])
  {
  }

  lemma SamplesLast(fates: seq<Fate>)
    requires fates != []
    ensures var n := |fates| - 1;
      Samples(fates) == if fates[n].Sampled? then Samples(fates[..n]) + [fates[n].us] else Samples(fates[..n])
  {
  }

  lemma LastSample(pings: seq<Ping>, timeout: int, us: int)
    requires pings != [] && InTime(pings[|pings| - 1], timeout)
    requires pings[|pings| - 1].rx.Some? ==>
      Micros(us, pings[|pings| - 1].rx.value - WentOut(pings[|pings| - 1]))
    ensures SampleOf(pings, us, |pings| - 1)
  {
    hide Micros, WentOut;
  }

  lemma SampledSame(pings: seq<Ping>, timeout: int, samples: seq<int>, which: seq<int>)
    requires pings != [] && |samples| == |which|
    requires forall j, k :: 0 <= j < k < |which| ==> which[j] < which[k]
    requires forall i :: i in which <==> 0 <= i < |pings| - 1 && InTime(pings[i], timeout)
    requires forall j :: 0 <= j < |which| ==> 0 <= which[j] < |pings| - 1 && SampleOf(pings, samples[j], which[j])
    requires !InTime(pings[|pings| - 1], timeout)
    ensures SampledEach(pings, timeout, samples, which)
  {
    hide InTime, SampleOf;
  }

  lemma SampledOneMore(pings: seq<Ping>, timeout: int, samples: seq<int>, which: seq<int>)
    requires pings != [] && SampledEach(pings[..|pings| - 1], timeout, samples, which)
    ensures var n := |pings| - 1;
      && |samples| == |which| && (forall j, k :: 0 <= j < k < |which| ==> which[j] < which[k])
      && (forall i :: i in which <==> 0 <= i < n && InTime(pings[i], timeout))
      && (forall j :: 0 <= j < |which| ==> 0 <= which[j] < n && SampleOf(pings, samples[j], which[j]))
  {
    hide InTime, Micros, WentOut;
    var n := |pings| - 1;
    assert forall i :: 0 <= i < n ==> pings[..n][i] == pings[i];
    forall j | 0 <= j < |which| ensures 0 <= which[j] < n && SampleOf(pings, samples[j], which[j]) {
      assert SampleOf(pings[..n], samples[j], which[j]);
    }
  }

  lemma SampledLast(pings: seq<Ping>, timeout: int, samples: seq<int>, which: seq<int>, us: int)
    requires pings != [] && |samples| == |which|
    requires forall j, k :: 0 <= j < k < |which| ==> which[j] < which[k]
    requires forall i :: i in which <==> 0 <= i < |pings| - 1 && InTime(pings[i], timeout)
    requires forall j :: 0 <= j < |which| ==> 0 <= which[j] < |pings| - 1 && SampleOf(pings, samples[j], which[j])
    requires InTime(pings[|pings| - 1], timeout) && SampleOf(pings, us, |pings| - 1)
    ensures SampledEach(pings, timeout, samples + [us], which + [|pings| - 1])
  {
    hide InTime, SampleOf;
    var n, more := |pings| - 1, which + [|pings| - 1];
    forall i ensures i in more <==> 0 <= i < |pings| && InTime(pings[i], timeout) {
      assert i in more <==> i in which || i == n;
    }
  }

  /** The samples of a measurement are, in order of length, the whole microseconds between going out and coming back
      of exactly the pings that came back in time. */
  lemma SamplesMean(pings: seq<Ping>, timeout: int, c: Conditions, at: Clocks, m: Measurement, suspect: nat)
      returns (samples: seq<int>, which: seq<int>)
    requires Measures(pings, timeout, c, at, m, suspect)
    ensures SampledEach(pings, timeout, samples, which)
    ensures multiset(m.samples) == multiset(samples) && IsSorted(m.samples) && m.received == |which|
  {
    hide *;
    MeasuresGives(pings, timeout, c, at, m, suspect);
    which := SamplesAre(pings, c.truncated, at.now - timeout, timeout);
    samples := Samples(Fates(pings, c.truncated, at.now - timeout, timeout));
    SortedPermutes(samples);
    SampledSize(pings, timeout, samples, which);
  }

  lemma SampledSize(pings: seq<Ping>, timeout: int, samples: seq<int>, which: seq<int>)
    requires SampledEach(pings, timeout, samples, which)
    ensures |samples| == |which|
  {
    hide InTime, SampleOf;
  }

  // ---------------------------------------------------------------- counts, flags and errors

  predicate Misstamped(p: Ping) { CameBack(p) && p.txKern.Some? && !KernelKnows(p) }

  predicate Explained(p: Ping, truncated: bool, deadline: int, error: int) {
    Counts(p, truncated, deadline) && !p.sendFailed && p.icmpErr == Some(error)
  }

  predicate RefusedFor(p: Ping, reason: int) { p.sent && p.sendFailed && p.sendReason == reason && reason != 0 }

  lemma {:induction false} CountsAre(pings: seq<Ping>, truncated: bool, deadline: int, timeout: int)
    ensures var fates := Fates(pings, truncated, deadline, timeout);
      && Attempts(fates) == |Which(pings, (p: Ping) => Counts(p, truncated, deadline))|
      && Misfits(pings, fates) == |Which(pings, (p: Ping) => Misstamped(p))|
  {
    if pings != [] {
      var n := |pings| - 1;
      CountsAre(pings[..n], truncated, deadline, timeout);
      FatesOfMost(pings, truncated, deadline, timeout);
      FateIs(pings[n], truncated, deadline, timeout);
      MisfitIs(pings[n], truncated, deadline, timeout);
      WhichCounts(pings, (p: Ping) => Counts(p, truncated, deadline));
      WhichCounts(pings, (p: Ping) => Misstamped(p));
      hide Which, FateOf, Counts, Misstamped, Misfit, Attempted, Fates;
    } else {
      assert Which(pings, (p: Ping) => Counts(p, truncated, deadline)) == {};
      assert Which(pings, (p: Ping) => Misstamped(p)) == {};
    }
  }

  lemma MisfitIs(p: Ping, truncated: bool, deadline: int, timeout: int)
    ensures Misfit(p, FateOf(p, truncated, deadline, timeout)) <==> Misstamped(p)
  {
  }

  lemma {:induction false} ErrorsAre(pings: seq<Ping>, truncated: bool, deadline: int, timeout: int, e: int)
    ensures var t := ErrorTally(pings, Fates(pings, truncated, deadline, timeout));
      |Which(pings, (p: Ping) => Explained(p, truncated, deadline, e))| == if e in t then t[e] else 0
    ensures var t := ErrorTally(pings, Fates(pings, truncated, deadline, timeout)); e in t ==> t[e] > 0
  {
    if pings != [] {
      var n := |pings| - 1;
      ErrorsAre(pings[..n], truncated, deadline, timeout, e);
      FatesOfMost(pings, truncated, deadline, timeout);
      FateIs(pings[n], truncated, deadline, timeout);
      WhichCounts(pings, (p: Ping) => Explained(p, truncated, deadline, e));
      hide Which, FateOf, Counts, Attempted, Fates;
    } else {
      assert Which(pings, (p: Ping) => Explained(p, truncated, deadline, e)) == {};
    }
  }

  lemma {:induction false} ReasonsAre(pings: seq<Ping>, truncated: bool, deadline: int, timeout: int, e: int)
    ensures var t := ReasonTally(pings, Fates(pings, truncated, deadline, timeout));
      |Which(pings, (p: Ping) => RefusedFor(p, e))| == if e in t then t[e] else 0
    ensures var t := ReasonTally(pings, Fates(pings, truncated, deadline, timeout)); e in t ==> t[e] > 0
  {
    if pings != [] {
      var n := |pings| - 1;
      ReasonsAre(pings[..n], truncated, deadline, timeout, e);
      FatesOfMost(pings, truncated, deadline, timeout);
      FateIs(pings[n], truncated, deadline, timeout);
      WhichCounts(pings, (p: Ping) => RefusedFor(p, e));
      hide Which, FateOf, Fates;
    } else {
      assert Which(pings, (p: Ping) => RefusedFor(p, e)) == {};
    }
  }

  /** The one named explains most of the pings, the lowest of several; none is named when nothing explains any. */
  ghost predicate Commonest(answer: Option<int>, explains: int -> nat) {
    match answer
    case None => forall e :: explains(e) == 0
    case Some(k) => explains(k) > 0 && forall e :: NoCommoner(explains(e), e, explains(k), k)
  }

  predicate NoCommoner(n: nat, e: int, most: nat, k: int) { n < most || (n == most && k <= e) || n == 0 }

  lemma CommonestIs(t: Tally, answer: Option<int>, explains: int -> nat)
    requires Explains(t, answer)
    requires forall e :: explains(e) == (if e in t then t[e] else 0) && (e in t ==> t[e] > 0)
    ensures Commonest(answer, explains)
  {
  }

  /** How many were counted, and how many kernel stamps refused. */
  lemma CountsMean(pings: seq<Ping>, timeout: int, c: Conditions, at: Clocks, m: Measurement, suspect: nat)
    requires Measures(pings, timeout, c, at, m, suspect)
    ensures m.sent == |Which(pings, (p: Ping) => Counts(p, c.truncated, at.now - timeout))|
    ensures suspect == |Which(pings, (p: Ping) => Misstamped(p))|
  {
    hide *;
    MeasuresGives(pings, timeout, c, at, m, suspect);
    CountsAre(pings, c.truncated, at.now - timeout, timeout);
  }

  /** The ICMP error of a measurement is the commonest among the pings counted and sent.. */
  lemma ErrorMeans(pings: seq<Ping>, timeout: int, c: Conditions, at: Clocks, m: Measurement, suspect: nat)
    requires Measures(pings, timeout, c, at, m, suspect)
    ensures Commonest(m.icmpErr, e => |Which(pings, (p: Ping) => Explained(p, c.truncated, at.now - timeout, e))|)
  {
    hide *;
    MeasuresGives(pings, timeout, c, at, m, suspect);
    var t := ErrorTally(pings, Fates(pings, c.truncated, at.now - timeout, timeout));
    var errors: int -> nat := e => |Which(pings, (p: Ping) => Explained(p, c.truncated, at.now - timeout, e))|;
    forall e ensures errors(e) == (if e in t then t[e] else 0) && (e in t ==> t[e] > 0) {
      ErrorsAre(pings, c.truncated, at.now - timeout, timeout, e);
    }
    CommonestIs(t, m.icmpErr, errors);
  }

  /** .. and its send error the commonest reason of the pings refused locally. */
  lemma SendErrorMeans(pings: seq<Ping>, timeout: int, c: Conditions, at: Clocks, m: Measurement, suspect: nat)
    requires Measures(pings, timeout, c, at, m, suspect)
    ensures Commonest(m.sendErr, e => |Which(pings, (p: Ping) => RefusedFor(p, e))|)
  {
    hide *;
    MeasuresGives(pings, timeout, c, at, m, suspect);
    var t := ReasonTally(pings, Fates(pings, c.truncated, at.now - timeout, timeout));
    var reasons: int -> nat := e => |Which(pings, (p: Ping) => RefusedFor(p, e))|;
    forall e ensures reasons(e) == (if e in t then t[e] else 0) && (e in t ==> t[e] > 0) {
      ReasonsAre(pings, c.truncated, at.now - timeout, timeout, e);
    }
    CommonestIs(t, m.sendErr, reasons);
  }

  lemma MeasuresGives(pings: seq<Ping>, timeout: int, c: Conditions, at: Clocks, m: Measurement, suspect: nat)
    requires Measures(pings, timeout, c, at, m, suspect)
    ensures var fates := Fates(pings, c.truncated, at.now - timeout, timeout);
      && m.samples == Sorted(Samples(fates)) && m.received == |m.samples|
      && m.sent == Attempts(fates) && suspect == Misfits(pings, fates)
      && Explains(ErrorTally(pings, fates), m.icmpErr) && Explains(ReasonTally(pings, fates), m.sendErr)
      && m.flags == BucketFlags(c, at) + FlagsOf(pings, fates) + (if m.icmpErr.Some? then {ICMPError} else {})
  {
    hide FateOf, Fates, BucketFlags, FlagsOf, ErrorTally, ReasonTally, Misfits, Attempts, Samples, Sorted;
  }

  /** Some ping is so. */
  ghost predicate Any(pings: seq<Ping>, f: Ping -> bool) { exists i :: 0 <= i < |pings| && f(pings[i]) }

  lemma AnySplits(pings: seq<Ping>, f: Ping -> bool)
    requires pings != []
    ensures Any(pings, f) <==> Any(pings[..|pings| - 1], f) || f(pings[|pings| - 1])
  {
    var n := |pings| - 1;
    assert forall i :: 0 <= i < n ==> pings[..n][i] == pings[i];
  }

  predicate SendRefused(p: Ping) { p.sent && p.sendFailed }

  predicate TimedHereOut(p: Ping) { CameBack(p) && !KernelKnows(p) }

  predicate TimedHereBack(p: Ping) { CameBack(p) && !p.rxKernel }

  predicate CameBackEarly(p: Ping) { CameBack(p) && p.rx.value < p.txUser }

  lemma {:induction false} FlagsAre(pings: seq<Ping>, truncated: bool, deadline: int, timeout: int)
    ensures var flags := FlagsOf(pings, Fates(pings, truncated, deadline, timeout));
      && (SendFailed in flags <==> Any(pings, (p: Ping) => SendRefused(p)))
      && (UserspaceTX in flags <==> Any(pings, (p: Ping) => TimedHereOut(p)))
      && (UserspaceRX in flags <==> Any(pings, (p: Ping) => TimedHereBack(p)))
      && (ClockStep in flags <==> Any(pings, (p: Ping) => CameBackEarly(p)))
      && flags <= {SendFailed, UserspaceTX, UserspaceRX, ClockStep}
  {
    if pings != [] {
      var n := |pings| - 1;
      FlagsAre(pings[..n], truncated, deadline, timeout);
      FatesOfMost(pings, truncated, deadline, timeout);
      PingFlagsAre(pings[n], truncated, deadline, timeout);
      AnySplits(pings, (p: Ping) => SendRefused(p));
      AnySplits(pings, (p: Ping) => TimedHereOut(p));
      AnySplits(pings, (p: Ping) => TimedHereBack(p));
      AnySplits(pings, (p: Ping) => CameBackEarly(p));
      hide Any, FateOf, Fates, SendRefused, TimedHereOut, TimedHereBack, CameBackEarly, PingFlags;
    }
  }

  lemma PingFlagsAre(p: Ping, truncated: bool, deadline: int, timeout: int)
    ensures var flags := PingFlags(p, FateOf(p, truncated, deadline, timeout));
      && (SendFailed in flags <==> SendRefused(p)) && (UserspaceTX in flags <==> TimedHereOut(p))
      && (UserspaceRX in flags <==> TimedHereBack(p)) && (ClockStep in flags <==> CameBackEarly(p))
      && flags <= {SendFailed, UserspaceTX, UserspaceRX, ClockStep}
  {
  }

  /** Wall clock and monotonic clock came apart by more than two milliseconds and 600 parts per million. */
  predicate CameApart(wall: int, mono: int) {
    var apart := if wall > mono then wall - mono else mono - wall;
    (apart - 2_000_000) * 1_000_000 > 600 * mono
  }

  lemma SteppedIs(wall: int, mono: int)
    requires mono >= 0
    ensures ClockStepped(wall, mono) <==> CameApart(wall, mono)
  {
    Arithmetic.QuotientBelow(mono * 600, 1_000_000, wall - mono - 2_000_000);
    Arithmetic.QuotientBelow(mono * 600, 1_000_000, mono - wall - 2_000_000);
  }

  /** Each flag is up exactly when some ping, the socket, the bucket or the clock gave cause for it. */
  lemma FlagsMeanPings(pings: seq<Ping>, timeout: int, c: Conditions, at: Clocks, m: Measurement, suspect: nat)
    requires Measures(pings, timeout, c, at, m, suspect) && at.mono >= 0
    ensures SendFailed in m.flags <==> Any(pings, (p: Ping) => SendRefused(p))
    ensures UserspaceTX in m.flags <==> Any(pings, (p: Ping) => TimedHereOut(p))
    ensures UserspaceRX in m.flags <==> Any(pings, (p: Ping) => TimedHereBack(p))
    ensures ClockStep in m.flags <==> CameApart(at.wall, at.mono) || Any(pings, (p: Ping) => CameBackEarly(p))
    ensures ICMPError in m.flags <==> m.icmpErr.Some?
    ensures (RawSocket in m.flags <==> c.rawSocket) && (SocketOverflow in m.flags <==> c.overflowed)
    ensures Truncated in m.flags <==> c.truncated
  {
    hide *;
    MeasuresGives(pings, timeout, c, at, m, suspect);
    FlagsAre(pings, c.truncated, at.now - timeout, timeout);
    SteppedIs(at.wall, at.mono);
    BucketFlagsAre(c, at);
  }

  lemma BucketFlagsAre(c: Conditions, at: Clocks)
    ensures var flags := BucketFlags(c, at);
      && (RawSocket in flags <==> c.rawSocket) && (SocketOverflow in flags <==> c.overflowed)
      && (Truncated in flags <==> c.truncated) && (ClockStep in flags <==> ClockStepped(at.wall, at.mono))
      && flags <= {RawSocket, SocketOverflow, Truncated, ClockStep}
  {
    hide ClockStepped;
  }
}
