/** One bucket's replies and the measurement made of them (internal/probe/scheduler.go). Instants and
    durations are nanoseconds; an unset time is None; the flag byte is a set of flags. */
module Collector {
  import opened Options
  import Arithmetic
  import opened Sorting
  import opened Sets

  datatype Ping = Ping(sent: bool, sendFailed: bool, txUser: int, txKern: Option<int>, rx: Option<int>,
                       rxKernel: bool, icmpErr: Option<int>, sendReason: int)

  datatype Flag =
    UserspaceTX | UserspaceRX | RawSocket | SocketOverflow | ClockStep | ICMPError | SendFailed | Truncated

  datatype Conditions = Conditions(rawSocket: bool, overflowed: bool, truncated: bool)

  datatype Measurement = Measurement(sent: nat, received: nat, samples: seq<int>, flags: set<Flag>,
                                     icmpErr: Option<int>, sendErr: Option<int>)

  const MAX_SAMPLE: int := 0xFFFF_FFFF
  const CLOCK_STEP_FLOOR: int := 2_000_000

  // ---------------------------------------------------------------- what becomes of one ping

  /** Exactly one of these becomes of every ping. */
  datatype Fate = Unsent | Abandoned | Refused | Unanswered | ClockMoved | TooLate | Sampled(us: int)

  /** The kernel's transmit stamp when it can belong to this ping, else the one taken in userspace. */
  function Transmitted(p: Ping): int
    requires p.rx.Some?
  {
    if StampFits(p) then p.txKern.value else p.txUser
  }

  function FateOf(p: Ping, truncated: bool, deadline: int, timeout: int): Fate {
    if !p.sent then Unsent
    else if truncated && p.rx.None? && !p.sendFailed && p.txUser > deadline then Abandoned
    else if p.sendFailed then Refused
    else if p.rx.None? then Unanswered
    else ReplyFate(p.rx.value - Transmitted(p), timeout)
  }

  /** What a round trip comes to, in microseconds. */
  function ReplyFate(rtt: int, timeout: int): Fate {
    if rtt < 0 then ClockMoved
    else if rtt > timeout then TooLate
    else Sampled(if rtt / 1000 > MAX_SAMPLE then MAX_SAMPLE else rtt / 1000)
  }

  function Fates(pings: seq<Ping>, truncated: bool, deadline: int, timeout: int): (f: seq<Fate>)
    ensures |f| == |pings|
    ensures forall i :: 0 <= i < |f| ==> f[i] == FateOf(pings[i], truncated, deadline, timeout)
  {
    if pings == [] then []
    else Fates(pings[..|pings| - 1], truncated, deadline, timeout) +
         [FateOf(pings[|pings| - 1], truncated, deadline, timeout)]
  }

  predicate Attempted(f: Fate) { f != Unsent && f != Abandoned }

  function Attempts(fates: seq<Fate>): (n: nat)
    ensures n <= |fates|
  {
    if fates == [] then 0 else Attempts(fates[..|fates| - 1]) + if Attempted(fates[|fates| - 1]) then 1 else 0
  }

  /** How many have one of the given fates other than a sample. */
  function HowMany(fates: seq<Fate>, f: Fate): nat {
    if fates == [] then 0 else HowMany(fates[..|fates| - 1], f) + if fates[|fates| - 1] == f then 1 else 0
  }

  function Samples(fates: seq<Fate>): (s: seq<int>)
    ensures |s| <= |fates|
  {
    if fates == [] then []
    else Samples(fates[..|fates| - 1]) +
         if fates[|fates| - 1].Sampled? then [fates[|fates| - 1].us] else []
  }

  // ---------------------------------------------------------------- tallies

  type Tally = map<int, nat>

  function Counted(t: Tally, key: int): Tally { t[key := if key in t then t[key] + 1 else 1] }

  /** How often each ICMP error explains a ping that was attempted and not refused locally. */
  function ErrorTally(pings: seq<Ping>, fates: seq<Fate>): Tally
    requires |pings| == |fates|
  {
    if pings == [] then map[]
    else
      var n := |pings| - 1;
      var before := ErrorTally(pings[..n], fates[..n]);
      if Attempted(fates[n]) && fates[n] != Refused && pings[n].icmpErr.Some? then
        Counted(before, pings[n].icmpErr.value)
      else before
  }

  function ReasonTally(pings: seq<Ping>, fates: seq<Fate>): Tally
    requires |pings| == |fates|
  {
    if pings == [] then map[]
    else
      var n := |pings| - 1;
      var before := ReasonTally(pings[..n], fates[..n]);
      if fates[n] == Refused && pings[n].sendReason != 0 then Counted(before, pings[n].sendReason) else before
  }

  /** The most frequent key, the lowest of several. */
  ghost predicate IsMode(t: Tally, k: int) {
    k in t && forall j :: j in t ==> t[j] < t[k] || (t[j] == t[k] && k <= j)
  }

  lemma ModeIsUnique(t: Tally, a: int, b: int)
    requires IsMode(t, a) && IsMode(t, b)
    ensures a == b
  {
    assert b in t && a in t;
  }

  /** `modeOf`, for every order in which the map's keys may come up. */
  method ModeOf(t: Tally, order: seq<int>) returns (best: int)
    requires t != map[] && forall k :: k in order <==> k in t
    ensures IsMode(t, best)
  {
    best := 0;
    var bestN := -1;
    for i := 0 to |order|
      invariant i == 0 <==> bestN == -1
      invariant i > 0 ==> best in order[..i] && t[best] == bestN
      invariant forall k :: k in order[..i] ==> t[k] < bestN || (t[k] == bestN && best <= k)
    {
      var k := order[i];
      if t[k] > bestN || (t[k] == bestN && k < best) {
        best, bestN := k, t[k];
      }
    }
    assert order[..|order|] == order;
    var k := AnyKey(t);
    assert k in order;
  }

  lemma AnyKey(t: Tally) returns (k: int)
    requires t != map[]
    ensures k in t
  {
    assert t == map[] <==> t.Keys == {};
    k := Pick(t.Keys);
  }

  /** What the loop of `finalize` has gathered so far. */
  datatype Totals = Totals(sent: nat, samples: seq<int>, flags: set<Flag>, errors: Tally, reasons: Tally, suspect: nat)

  function TotalsOf(pings: seq<Ping>, fates: seq<Fate>): Totals
    requires |pings| == |fates|
  {
    Totals(Attempts(fates), Samples(fates), FlagsOf(pings, fates), ErrorTally(pings, fates),
           ReasonTally(pings, fates), Misfits(pings, fates))
  }

  predicate StampFits(p: Ping)
    requires p.rx.Some?
  {
    p.txKern.Some? && p.txUser <= p.txKern.value <= p.rx.value
  }

  /** Kernel stamps discarded because they cannot belong to their ping. */
  function Misfits(pings: seq<Ping>, fates: seq<Fate>): nat
    requires |pings| == |fates|
  {
    if pings == [] then 0
    else
      var n := |pings| - 1;
      Misfits(pings[..n], fates[..n]) + if Misfit(pings[n], fates[n]) then 1 else 0
  }

  predicate Misfit(p: Ping, f: Fate) {
    Attempted(f) && f != Refused && p.rx.Some? && p.txKern.Some? && !StampFits(p)
  }

  function Added(t: Totals, p: Ping, f: Fate): Totals {
    Totals(t.sent + if Attempted(f) then 1 else 0,
           t.samples + (if f.Sampled? then [f.us] else []),
           t.flags + PingFlags(p, f),
           if Attempted(f) && f != Refused && p.icmpErr.Some? then Counted(t.errors, p.icmpErr.value) else t.errors,
           if f == Refused && p.sendReason != 0 then Counted(t.reasons, p.sendReason) else t.reasons,
           t.suspect + if Misfit(p, f) then 1 else 0)
  }

  lemma TotalsStep(pings: seq<Ping>, fates: seq<Fate>, i: nat)
    requires i < |pings| == |fates|
    ensures TotalsOf(pings[..i + 1], fates[..i + 1]) == Added(TotalsOf(pings[..i], fates[..i]), pings[i], fates[i])
  {
    var p, f := pings[..i + 1], fates[..i + 1];
    assert p[..i] == pings[..i] && f[..i] == fates[..i];
  }

  // ---------------------------------------------------------------- the collector

  /** Whether wall and monotonic clock moved apart by more than slewing explains. */
  predicate ClockStepped(wall: int, mono: int) {
    var tolerance := CLOCK_STEP_FLOOR + Arithmetic.Quo(mono * 600, 1_000_000);
    wall - mono > tolerance || wall - mono < -tolerance
  }

  /** What the clocks said at the end: now, and how far each has come since the bucket began. */
  datatype Clocks = Clocks(now: int, wall: int, mono: int)

  function FlagsOf(pings: seq<Ping>, fates: seq<Fate>): set<Flag>
    requires |pings| == |fates|
  {
    if pings == [] then {}
    else
      var n := |pings| - 1;
      FlagsOf(pings[..n], fates[..n]) + PingFlags(pings[n], fates[n])
  }

  function PingFlags(p: Ping, f: Fate): set<Flag> {
    if !Attempted(f) then {}
    else if f == Refused then {SendFailed}
    else if p.rx.None? then {}
    else
      (if StampFits(p) then {} else {UserspaceTX})
      + (if p.rxKernel then {} else {UserspaceRX})
      + (if f == ClockMoved then {ClockStep} else {})
  }

  function BucketFlags(c: Conditions, at: Clocks): set<Flag> {
    (if c.rawSocket then {RawSocket} else {})
    + (if c.overflowed then {SocketOverflow} else {})
    + (if c.truncated then {Truncated} else {})
    + (if ClockStepped(at.wall, at.mono) then {ClockStep} else {})
  }

  class Collector {
    var done: bool
    var pings: seq<Ping>
    var late: nat

    constructor (n: nat)
      ensures !done && late == 0 && |pings| == n
      ensures forall i :: 0 <= i < n ==> pings[i] == NEW
    {
      done, late := false, 0;
      pings := seq(n, i => NEW);
    }

    method MarkSent(i: nat, txUser: int)
      requires i < |pings|
      modifies this`pings
      ensures pings == Handled(false, old(pings), Sent(i, txUser))
    {
      pings := pings[i := pings[i].(sent := true, txUser := txUser)];
    }

    method MarkSendFailed(i: nat, reason: int)
      requires i < |pings|
      modifies this`pings
      ensures pings == Handled(false, old(pings), Failed(i, reason))
    {
      pings := pings[i := pings[i].(sent := true, sendFailed := true, sendReason := reason)];
    }

    method OnRX(i: nat, t: int, kernel: bool)
      requires i < |pings|
      modifies this`pings, this`late
      ensures pings == Handled(done, old(pings), Reply(i, t, kernel))
      ensures late == old(late) + if done then 1 else 0
    {
      if done {
        late := late + 1;
        return;
      }
      if pings[i].rx.Some? {
        return;
      }
      pings := pings[i := pings[i].(rx := Some(t), rxKernel := kernel)];
    }

    method RecordRoundTrip(i: nat, now: int, rtt: int)
      requires i < |pings|
      modifies this`pings, this`late
      ensures pings == Handled(done, old(pings), RoundTrip(i, now, rtt))
      ensures late == old(late) + if done then 1 else 0
    {
      if done {
        late := late + 1;
        return;
      }
      if pings[i].rx.Some? {
        return;
      }
      pings := pings[i := pings[i].(sent := true, txUser := now - rtt, rx := Some(now), rxKernel := false)];
    }

    method OnICMPError(i: nat, error: int)
      requires i < |pings|
      modifies this`pings
      ensures pings == Handled(done, old(pings), Error(i, error))
    {
      if done {
        return;
      }
      if pings[i].rx.Some? {
        return;
      }
      pings := pings[i := pings[i].(icmpErr := Some(error))];
    }

    method OnTXKernel(i: nat, t: int)
      requires i < |pings|
      modifies this`pings
      ensures pings == Handled(done, old(pings), Stamp(i, t))
    {
      if !done {
        pings := pings[i := pings[i].(txKern := Some(t))];
      }
    }

    /** Closes the collector and makes the measurement; also how many transmit stamps it refused. */
    method Finalize(timeoutMS: int, c: Conditions, at: Clocks) returns (m: Measurement, suspect: nat)
      modifies this`done
      ensures done
      ensures Measures(pings, timeoutMS * 1_000_000, c, at, m, suspect)
    {
      hide FateOf, BucketFlags, TotalsOf, Fates, IsMode, Added, ClockStepped;
      done := true;
      var timeout := timeoutMS * 1_000_000;
      var deadline := at.now - timeout;
      ghost var fates := Fates(pings, c.truncated, deadline, timeout);
      var flags := InitialFlags(c, at);
      ghost var base := flags;
      var t := Totals(0, [], flags, map[], map[], 0);
      NoTotals();
      for i := 0 to |pings|
        invariant done
        invariant t == WithFlags(TotalsOf(pings[..i], fates[..i]), base)
      {
        TotalsStep(pings, fates, i);
        AddedKeepsFlags(TotalsOf(pings[..i], fates[..i]), base, pings[i], fates[i]);
        t := Add(t, pings[i], c.truncated, deadline, timeout);
      }
      assert pings[..|pings|] == pings && fates[..|pings|] == fates;
      m := Measurement(t.sent, |t.samples|, Sorted(t.samples), t.flags, None, None);
      suspect := t.suspect;
      if t.errors != map[] {
        var order := AnyOrder(t.errors.Keys);
        var mode := ModeOf(t.errors, order);
        m := m.(flags := m.flags + {ICMPError}, icmpErr := Some(mode));
      }
      if t.reasons != map[] {
        var order := AnyOrder(t.reasons.Keys);
        var mode := ModeOf(t.reasons, order);
        m := m.(sendErr := Some(mode));
      }
    }
  }

  /** The measurement that `pings` amount to. */
  ghost predicate Measures(pings: seq<Ping>, timeout: int, c: Conditions, at: Clocks, m: Measurement, suspect: nat) {
    var fates := Fates(pings, c.truncated, at.now - timeout, timeout);
    var t := TotalsOf(pings, fates);
    && m.sent == t.sent
    && m.samples == Sorted(t.samples)
    && m.received == |m.samples|
    && m.flags == BucketFlags(c, at) + t.flags + (if t.errors != map[] then {ICMPError} else {})
    && Explains(t.errors, m.icmpErr)
    && Explains(t.reasons, m.sendErr)
    && suspect == t.suspect
  }

  /** The tally's mode, when there is anything in it. */
  ghost predicate Explains(t: Tally, answer: Option<int>) {
    match answer
    case None => t == map[]
    case Some(k) => IsMode(t, k)
  }

  function WithFlags(t: Totals, base: set<Flag>): Totals { t.(flags := base + t.flags) }

  lemma NoTotals()
    ensures TotalsOf([], []) == Totals(0, [], {}, map[], map[], 0)
  {
  }

  lemma AddedKeepsFlags(t: Totals, base: set<Flag>, p: Ping, f: Fate)
    ensures Added(WithFlags(t, base), p, f) == WithFlags(Added(t, p, f), base)
  {
    hide PingFlags, Misfit, Attempted;
    assert base + t.flags + PingFlags(p, f) == base + (t.flags + PingFlags(p, f));
  }

  method InitialFlags(c: Conditions, at: Clocks) returns (flags: set<Flag>)
    ensures flags == BucketFlags(c, at)
  {
    flags := {};
    if c.rawSocket { flags := flags + {RawSocket}; }
    if c.overflowed { flags := flags + {SocketOverflow}; }
    if c.truncated { flags := flags + {Truncated}; }
    if ClockStepped(at.wall, at.mono) { flags := flags + {ClockStep}; }
  }

  /** Which transmit stamp to use, and what the stamps say about the measurement. */
  method Stamps(p: Ping) returns (sent: int, flags: set<Flag>, misfit: bool)
    requires p.rx.Some?
    ensures sent == Transmitted(p)
    ensures flags == (if StampFits(p) then {} else {UserspaceTX}) + (if p.rxKernel then {} else {UserspaceRX})
    ensures misfit == (p.txKern.Some? && !StampFits(p))
  {
    flags, misfit := {}, false;
    var tx := p.txKern;
    if tx.Some? && (tx.value < p.txUser || tx.value > p.rx.value) {
      tx := None;
      misfit := true;
    }
    if tx.None? {
      tx := Some(p.txUser);
      flags := flags + {UserspaceTX};
    }
    if !p.rxKernel {
      flags := flags + {UserspaceRX};
    }
    sent := tx.value;
  }

  /** The body of the loop, branch by branch. */
  method Add(before: Totals, p: Ping, truncated: bool, deadline: int, timeout: int) returns (t: Totals)
    ensures t == Added(before, p, FateOf(p, truncated, deadline, timeout))
  {
    hide Transmitted, StampFits, Counted;
    t := before;
    if !p.sent {
      return;
    }
    if truncated && p.rx.None? && !p.sendFailed && p.txUser > deadline {
      return;
    }
    t := t.(sent := t.sent + 1);
    if p.sendFailed {
      t := t.(flags := t.flags + {SendFailed});
      if p.sendReason != 0 {
        t := t.(reasons := Counted(t.reasons, p.sendReason));
      }
      return;
    }
    if p.icmpErr.Some? {
      t := t.(errors := Counted(t.errors, p.icmpErr.value));
    }
    if p.rx.None? {
      return;
    }
    var tx, flags, misfit := Stamps(p);
    t := t.(flags := t.flags + flags, suspect := t.suspect + if misfit then 1 else 0);
    t := AddRoundTrip(t, p.rx.value - tx, timeout);
  }

  /** .. from the round trip on. */
  method AddRoundTrip(before: Totals, rtt: int, timeout: int) returns (t: Totals)
    ensures var f := ReplyFate(rtt, timeout);
      t == before.(flags := before.flags + (if f == ClockMoved then {ClockStep} else {}),
                   samples := before.samples + (if f.Sampled? then [f.us] else []))
  {
    t := before;
    if rtt < 0 {
      t := t.(flags := t.flags + {ClockStep});
      return;
    }
    if rtt > timeout {
      return;
    }
    var us := rtt / 1000;
    if us > MAX_SAMPLE {
      us := MAX_SAMPLE;
    }
    t := t.(samples := t.samples + [us]);
  }

  // ---------------------------------------------------------------- what a measurement says

  /** Every ping has one outcome: those not counted, the four kinds of loss, and the samples add up. */
  lemma {:induction false} OutcomesAddUp(fates: seq<Fate>)
    ensures Attempts(fates) + HowMany(fates, Unsent) + HowMany(fates, Abandoned) == |fates|
    ensures Attempts(fates) == |Samples(fates)| + HowMany(fates, Refused) + HowMany(fates, Unanswered)
                               + HowMany(fates, ClockMoved) + HowMany(fates, TooLate)
  {
    if fates != [] {
      OutcomesAddUp(fates[..|fates| - 1]);
    }
  }

  predicate Timely(us: int, timeout: int) { 0 <= us <= MAX_SAMPLE && us * 1000 <= timeout }

  lemma SampleIsTimely(p: Ping, truncated: bool, deadline: int, timeout: int)
    requires FateOf(p, truncated, deadline, timeout).Sampled?
    ensures Timely(FateOf(p, truncated, deadline, timeout).us, timeout)
  {
  }

  lemma {:induction false} SamplesAreTimely(pings: seq<Ping>, truncated: bool, deadline: int, timeout: int)
    ensures forall us :: us in Samples(Fates(pings, truncated, deadline, timeout)) ==> Timely(us, timeout)
  {
    hide FateOf, Timely;
    if pings != [] {
      var n := |pings| - 1;
      SamplesAreTimely(pings[..n], truncated, deadline, timeout);
      var fates := Fates(pings, truncated, deadline, timeout);
      assert fates[..n] == Fates(pings[..n], truncated, deadline, timeout);
      if fates[n].Sampled? {
        SampleIsTimely(pings[n], truncated, deadline, timeout);
      }
    }
  }

  /** Received = |Samples| <= Sent <= Pings, the samples ascend, fit the wire format and the timeout; an
      ICMP error is named exactly when the flag says there was one. */
  lemma MeasurementIsConsistent(pings: seq<Ping>, timeout: int, c: Conditions, at: Clocks, m: Measurement, suspect: nat)
    requires Measures(pings, timeout, c, at, m, suspect)
    ensures m.received == |m.samples| <= m.sent <= |pings|
    ensures IsSorted(m.samples)
    ensures forall i :: 0 <= i < |m.samples| ==> Timely(m.samples[i], timeout)
    ensures ICMPError in m.flags <==> m.icmpErr.Some?
    ensures Truncated in m.flags <==> c.truncated
    ensures suspect > 0 ==> UserspaceTX in m.flags
  {
    hide FateOf, ClockStepped, Timely, Sorted, IsSorted, Fates, Samples, ErrorTally, ReasonTally, FlagsOf, Misfits,
         Attempts;
    var fates := Fates(pings, c.truncated, at.now - timeout, timeout);
    OutcomesAddUp(fates);
    SamplesAreTimely(pings, c.truncated, at.now - timeout, timeout);
    FlagsAreAboutPings(pings, fates);
    SortedKeepsMembers(Samples(fates));
  }

  lemma {:induction false} FlagsAreAboutPings(pings: seq<Ping>, fates: seq<Fate>)
    requires |pings| == |fates|
    ensures ICMPError !in FlagsOf(pings, fates) && Truncated !in FlagsOf(pings, fates)
    ensures Misfits(pings, fates) > 0 ==> UserspaceTX in FlagsOf(pings, fates)
  {
    if pings != [] {
      FlagsAreAboutPings(pings[..|pings| - 1], fates[..|pings| - 1]);
    }
  }

  /** Counted, not refused locally, and answered. */
  predicate Answered(p: Ping, f: Fate) { Attempted(f) && f != Refused && p.rx.Some? }

  /** How many answered pings had no kernel stamp of their own. */
  function StampedHere(pings: seq<Ping>, fates: seq<Fate>): nat
    requires |pings| == |fates|
  {
    if pings == [] then 0
    else
      var n := |pings| - 1;
      StampedHere(pings[..n], fates[..n]) + if Answered(pings[n], fates[n]) && !StampFits(pings[n]) then 1 else 0
  }

  /** How many replies were timed in userspace. */
  function ReceivedHere(pings: seq<Ping>, fates: seq<Fate>): nat
    requires |pings| == |fates|
  {
    if pings == [] then 0
    else
      var n := |pings| - 1;
      ReceivedHere(pings[..n], fates[..n]) + if Answered(pings[n], fates[n]) && !pings[n].rxKernel then 1 else 0
  }

  lemma {:induction false} PingFlagsSay(pings: seq<Ping>, truncated: bool, deadline: int, timeout: int)
    ensures var fates := Fates(pings, truncated, deadline, timeout);
      var flags := FlagsOf(pings, fates);
      && (SendFailed in flags <==> HowMany(fates, Refused) > 0)
      && (UserspaceTX in flags <==> StampedHere(pings, fates) > 0)
      && (UserspaceRX in flags <==> ReceivedHere(pings, fates) > 0)
      && (ClockStep in flags <==> HowMany(fates, ClockMoved) > 0)
      && flags <= {SendFailed, UserspaceTX, UserspaceRX, ClockStep}
  {
    if pings != [] {
      var n := |pings| - 1;
      PingFlagsSay(pings[..n], truncated, deadline, timeout);
      var fates := Fates(pings, truncated, deadline, timeout);
      assert fates[..n] == Fates(pings[..n], truncated, deadline, timeout);
      OnlyAnswersMove(pings[n], truncated, deadline, timeout);
      OnePingsFlags(pings[n], fates[n]);
      hide StampFits, FateOf, PingFlags, Answered;
    }
  }

  lemma OnePingsFlags(p: Ping, f: Fate)
    ensures var flags := PingFlags(p, f);
      && (SendFailed in flags <==> f == Refused)
      && (UserspaceTX in flags <==> Answered(p, f) && !StampFits(p))
      && (UserspaceRX in flags <==> Answered(p, f) && !p.rxKernel)
      && (ClockStep in flags <==> f == ClockMoved && p.rx.Some?)
      && flags <= {SendFailed, UserspaceTX, UserspaceRX, ClockStep}
  {
  }

  lemma OnlyAnswersMove(p: Ping, truncated: bool, deadline: int, timeout: int)
    ensures FateOf(p, truncated, deadline, timeout) == ClockMoved ==> p.rx.Some?
  {
  }

  /** What every flag of a measurement says: of the socket, of the bucket, of the clock, of the pings. */
  lemma FlagsMean(pings: seq<Ping>, timeout: int, c: Conditions, at: Clocks, m: Measurement, suspect: nat)
    requires Measures(pings, timeout, c, at, m, suspect)
    ensures RawSocket in m.flags <==> c.rawSocket
    ensures SocketOverflow in m.flags <==> c.overflowed
    ensures var fates := Fates(pings, c.truncated, at.now - timeout, timeout);
      && (SendFailed in m.flags <==> HowMany(fates, Refused) > 0)
      && (UserspaceTX in m.flags <==> StampedHere(pings, fates) > 0)
      && (UserspaceRX in m.flags <==> ReceivedHere(pings, fates) > 0)
      && (ClockStep in m.flags <==> ClockStepped(at.wall, at.mono) || HowMany(fates, ClockMoved) > 0)
  {
    hide FateOf, ClockStepped, Fates, Samples, ErrorTally, ReasonTally, FlagsOf, Misfits, Attempts, StampedHere,
         ReceivedHere,
         HowMany, IsMode, Sorted;
    PingFlagsSay(pings, c.truncated, at.now - timeout, timeout);
  }

  /** How many counted pings, not refused locally, an ICMP error explains. */
  function ErrorsOf(pings: seq<Ping>, fates: seq<Fate>, error: int): nat
    requires |pings| == |fates|
  {
    if pings == [] then 0
    else
      var n := |pings| - 1;
      ErrorsOf(pings[..n], fates[..n], error)
        + if Attempted(fates[n]) && fates[n] != Refused && pings[n].icmpErr == Some(error) then 1 else 0
  }

  /** The tally counts, so its mode is the error that explains most. */
  lemma {:induction false} TallyCounts(pings: seq<Ping>, fates: seq<Fate>, error: int)
    requires |pings| == |fates|
    ensures error in ErrorTally(pings, fates) <==> ErrorsOf(pings, fates, error) > 0
    ensures error in ErrorTally(pings, fates) ==> ErrorTally(pings, fates)[error] == ErrorsOf(pings, fates, error)
  {
    if pings != [] {
      TallyCounts(pings[..|pings| - 1], fates[..|pings| - 1], error);
    }
  }

  /** A kernel stamp never makes a round trip longer than this ping's own send and reply allow, nor
      negative: a sample is dropped for the clock exactly when the ping's own two stamps disagree. */
  lemma OwnStampsBoundTheSample(p: Ping, truncated: bool, deadline: int, timeout: int)
    requires p.sent && !p.sendFailed && p.rx.Some?
    ensures var f := FateOf(p, truncated, deadline, timeout);
      && (f == ClockMoved <==> p.rx.value < p.txUser)
      && (f.Sampled? ==> f.us * 1000 <= p.rx.value - p.txUser)
      && (f.Sampled? <==> p.txUser <= p.rx.value && p.rx.value - Transmitted(p) <= timeout)
  {
  }

  /** A bucket that ran its course counts every ping that was sent; one cut short leaves out exactly the
      unanswered ones whose timeout had not passed. */
  lemma {:induction false} OnlyOpenPingsAreLeftOut(pings: seq<Ping>, truncated: bool, deadline: int, timeout: int)
    ensures var fates := Fates(pings, truncated, deadline, timeout);
      && HowMany(fates, Abandoned) == (if truncated then Open(pings, deadline) else 0)
      && Attempts(fates) == SentOf(pings) - HowMany(fates, Abandoned)
  {
    if pings != [] {
      var n := |pings| - 1;
      OnlyOpenPingsAreLeftOut(pings[..n], truncated, deadline, timeout);
      var fates := Fates(pings, truncated, deadline, timeout);
      assert fates[..n] == Fates(pings[..n], truncated, deadline, timeout);
    }
  }

  function SentOf(pings: seq<Ping>): nat {
    if pings == [] then 0 else SentOf(pings[..|pings| - 1]) + if pings[|pings| - 1].sent then 1 else 0
  }

  function Open(pings: seq<Ping>, deadline: int): nat {
    if pings == [] then 0
    else
      var p := pings[|pings| - 1];
      Open(pings[..|pings| - 1], deadline) +
        if p.sent && !p.sendFailed && p.rx.None? && p.txUser > deadline then 1 else 0
  }

  /** Slewing at up to 600 parts per million is never taken for a step. */
  lemma SlewIsNotAStep(wall: int, mono: int)
    requires 0 <= mono && -600 * mono <= (wall - mono) * 1_000_000 <= 600 * mono
    ensures !ClockStepped(wall, mono)
  {
  }

  // ---------------------------------------------------------------- which reply counts

  /** The collector's calls, as they come in. */
  datatype Call =
    | Sent(i: nat, txUser: int)
    | Failed(i: nat, reason: int)
    | Reply(i: nat, at: int, kernel: bool)
    | RoundTrip(i: nat, now: int, rtt: int)
    | Error(i: nat, error: int)
    | Stamp(i: nat, at: int)

  const NEW: Ping := Ping(false, false, 0, None, None, false, None, 0)

  function Handled(done: bool, pings: seq<Ping>, e: Call): (r: seq<Ping>)
    requires e.i < |pings|
    ensures |r| == |pings|
  {
    var p := pings[e.i];
    match e
    case Sent(i, txUser) => pings[i := p.(sent := true, txUser := txUser)]
    case Failed(i, reason) => pings[i := p.(sent := true, sendFailed := true, sendReason := reason)]
    case Reply(i, at, kernel) =>
      if done || p.rx.Some? then pings else pings[i := p.(rx := Some(at), rxKernel := kernel)]
    case RoundTrip(i, now, rtt) =>
      if done || p.rx.Some? then pings
      else pings[i := p.(sent := true, txUser := now - rtt, rx := Some(now), rxKernel := false)]
    case Error(i, error) => if done || p.rx.Some? then pings else pings[i := p.(icmpErr := Some(error))]
    case Stamp(i, at) => if done then pings else pings[i := p.(txKern := Some(at))]
  }

  predicate Fit(n: nat, calls: seq<Call>) {
    forall k :: 0 <= k < |calls| ==> calls[k].i < n
  }

  function After(n: nat, calls: seq<Call>): (r: seq<Ping>)
    requires Fit(n, calls)
    ensures |r| == n
  {
    if calls == [] then seq(n, i => NEW)
    else Handled(false, After(n, calls[..|calls| - 1]), calls[|calls| - 1])
  }

  predicate Answers(e: Call, i: nat) { e.i == i && (e.Reply? || e.RoundTrip?) }

  function When(e: Call): int
    requires e.Reply? || e.RoundTrip?
  {
    if e.Reply? then e.at else e.now
  }

  /** The first reply to ping i. */
  function FirstAnswer(calls: seq<Call>, i: nat): Option<int> {
    if calls == [] then None
    else
      var last := calls[|calls| - 1];
      var before := FirstAnswer(calls[..|calls| - 1], i);
      if before.None? && Answers(last, i) then Some(When(last)) else before
  }

  /** The last ICMP error for ping i that came before any reply to it. */
  function ErrorBeforeAnswer(calls: seq<Call>, i: nat): Option<int> {
    if calls == [] then None
    else
      var last := calls[|calls| - 1];
      var rest := calls[..|calls| - 1];
      if last.Error? && last.i == i && FirstAnswer(rest, i).None? then Some(last.error) else ErrorBeforeAnswer(rest, i)
  }

  /** Whatever else happens in a bucket, and to other pings, a ping is answered at its first reply, and
      its error is the last one that came before. */
  lemma {:induction false} FirstReplyWins(n: nat, calls: seq<Call>, i: nat)
    requires Fit(n, calls) && i < n
    ensures After(n, calls)[i].rx == FirstAnswer(calls, i)
    ensures After(n, calls)[i].icmpErr == ErrorBeforeAnswer(calls, i)
  {
    if calls != [] {
      var m := |calls| - 1;
      assert Fit(n, calls[..m]);
      FirstReplyWins(n, calls[..m], i);
    }
  }

  /** It is counted exactly when some call says it was sent, could not be, or came back timed. */
  lemma {:induction false} SentWhenACallSaysSo(n: nat, calls: seq<Call>, i: nat)
    requires Fit(n, calls) && i < n
    ensures After(n, calls)[i].sent <==> exists k :: 0 <= k < |calls| && Sends(calls, k, i)
  {
    if calls != [] {
      hide FirstAnswer, ErrorBeforeAnswer;
      var m := |calls| - 1;
      assert Fit(n, calls[..m]);
      FirstReplyWins(n, calls[..m], i);
      SentWhenACallSaysSo(n, calls[..m], i);
      forall k | 0 <= k < m ensures Sends(calls, k, i) <==> Sends(calls[..m], k, i) {
        assert calls[..m][..k] == calls[..k];
      }
      assert After(n, calls)[i].sent <==> After(n, calls[..m])[i].sent || Sends(calls, m, i);
    }
  }

  /** Call k puts ping i on the books: it was sent, could not be, or came back measured elsewhere. */
  predicate Sends(calls: seq<Call>, k: nat, i: nat)
    requires k < |calls|
  {
    calls[k].i == i && (calls[k].Sent? || calls[k].Failed? || (calls[k].RoundTrip? && FirstAnswer(calls[..k], i).None?))
  }

  /** Once the bucket is finalized, replies, errors and stamps change nothing it measured. */
  lemma {:induction false} LateCallsChangeNothing(pings: seq<Ping>, calls: seq<Call>)
    requires Fit(|pings|, calls)
    requires forall k :: 0 <= k < |calls| ==> !calls[k].Sent? && !calls[k].Failed?
    ensures AfterDone(pings, calls) == pings
  {
    if calls != [] {
      LateCallsChangeNothing(pings, calls[..|calls| - 1]);
    }
  }

  function AfterDone(pings: seq<Ping>, calls: seq<Call>): (r: seq<Ping>)
    requires Fit(|pings|, calls)
    ensures |r| == |pings|
  {
    if calls == [] then pings else Handled(true, AfterDone(pings, calls[..|calls| - 1]), calls[|calls| - 1])
  }
}
