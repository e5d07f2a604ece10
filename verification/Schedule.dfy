/** When a target is probed (internal/probe/scheduler.go, the bucket loop of internal/probe/engine.go).
    Instants are nanoseconds since the epoch, buckets seconds; the hash of the target id is given. */
module Schedule {
  import Arithmetic

  const SECOND: int := 1_000_000_000
  const MILLISECOND: int := 1_000_000

  /** The longest interval, in whole seconds, that a `time.Duration` can hold. */
  const LONGEST: int := 9_223_372_036

  /** A 64-bit FNV hash. */
  type Hash = h: nat | h < 0x1_0000_0000_0000_0000

  datatype Spec = Spec(intervalS: int, pings: int, spread: bool, burstGapMS: int)

  /** What `Target.Validate` leaves of a schedule (internal/tree/tree.go), and a positive interval. */
  predicate InRange(s: Spec) {
    1 <= s.intervalS && 1 <= s.pings <= 65_535 && 0 <= s.burstGapMS
  }

  /** .. with a burst that ends inside the interval. `validateTiming` compares the same products in 64 bits. */
  predicate BurstEnds(s: Spec) {
    !s.spread ==> s.pings * s.burstGapMS < s.intervalS * 1000
  }

  predicate PassesTiming(s: Spec) {
    !s.spread ==> Wrap(s.pings * s.burstGapMS) < Wrap(s.intervalS * 1000)
  }

  /** .. and an interval that a duration can hold. */
  predicate Valid(s: Spec) {
    InRange(s) && BurstEnds(s) && s.intervalS <= LONGEST
  }

  const HALF: int := 0x8000_0000_0000_0000
  const WHOLE: int := 0x1_0000_0000_0000_0000

  /** Two's complement: what is left of an exact result in an int64. */
  function Wrap(x: int): (r: int)
    ensures -HALF <= x < HALF ==> r == x
    ensures -HALF <= r < HALF
  {
    (x + HALF) % WHOLE - HALF
  }

  function BucketStart(t: int, intervalS: int): int
    requires intervalS > 0
  {
    t - Arithmetic.Rem(t, intervalS)
  }

  function Interval(s: Spec): int { Wrap(s.intervalS * SECOND) }

  function Step(s: Spec): int
    requires s.pings > 0
  {
    if s.spread then Arithmetic.Quo(Interval(s), s.pings) else Wrap(s.burstGapMS * MILLISECOND)
  }

  /** The room a bucket leaves for its train. */
  function Window(s: Spec): int
    requires s.pings > 0
  {
    if s.spread then Arithmetic.Quo(Interval(s), s.pings)
    else Wrap(Interval(s) - Wrap(Wrap(s.pings * s.burstGapMS) * MILLISECOND))
  }

  function PhaseOffset(s: Spec, hash: Hash): int
    requires s.pings > 0
  {
    if Window(s) <= 0 then 0 else hash % Window(s)
  }

  function SendTime(s: Spec, hash: Hash, bucket: int, i: nat): int
    requires s.pings > 0
  {
    bucket * SECOND + PhaseOffset(s, hash) + Wrap(i * Step(s))
  }

  method SendTimes(s: Spec, hash: Hash, bucket: int) returns (out: array<int>)
    requires s.pings > 0
    ensures fresh(out) && out.Length == s.pings
    ensures forall i :: 0 <= i < out.Length ==> out[i] == SendTime(s, hash, bucket, i)
  {
    hide Wrap, PhaseOffset, Step;
    var start := bucket * SECOND + PhaseOffset(s, hash);
    var step := Step(s);
    out := new int[s.pings];
    for i := 0 to out.Length
      invariant forall j :: 0 <= j < i ==> out[j] == SendTime(s, hash, bucket, j)
    {
      out[i] := start + Wrap(i * step);
    }
  }

  // ---------------------------------------------------------------- buckets

  /** Buckets are the aligned times. */
  predicate Aligned(b: int, intervalS: int)
    requires intervalS > 0
  {
    b % intervalS == 0
  }

  lemma BucketIsAligned(t: int, iv: int)
    requires iv > 0
    ensures Aligned(BucketStart(t, iv), iv)
    ensures t >= 0 ==> BucketStart(t, iv) <= t < BucketStart(t, iv) + iv
    ensures t < 0 ==> BucketStart(t, iv) - iv < t <= BucketStart(t, iv)
  {
    if t >= 0 {
      Arithmetic.MultipleHasNoRemainder(t / iv, iv);
      assert BucketStart(t, iv) == t / iv * iv;
    } else {
      Arithmetic.MultipleHasNoRemainder(-(-t / iv), iv);
      assert BucketStart(t, iv) == -(-t / iv) * iv;
    }
  }

  /** The bucket of a time since the epoch is the only aligned one whose interval contains it, so every
      agent names it alike. */
  lemma BucketIsUnique(t: int, iv: int, b: int)
    requires iv > 0 && t >= 0
    ensures b == BucketStart(t, iv) <==> Aligned(b, iv) && b <= t < b + iv
  {
    BucketIsAligned(t, iv);
    if Aligned(b, iv) && b <= t < b + iv {
      Arithmetic.MultiplesAreApart(b, BucketStart(t, iv), iv);
    }
  }

  lemma BucketsFollowTheClock(b: int, t: int, iv: int)
    requires iv > 0 && Aligned(b, iv) && b <= t
    ensures b <= BucketStart(t, iv)
    ensures b != BucketStart(t, iv) ==> b + iv <= BucketStart(t, iv)
  {
    hide BucketStart;
    BucketIsAligned(t, iv);
    Arithmetic.MultiplesAreApart(b, BucketStart(t, iv), iv);
  }

  // ---------------------------------------------------------------- 64 bits

  lemma WrapDrops(x: int, k: int)
    ensures Wrap(x + k * WHOLE) == Wrap(x)
  {
    Arithmetic.MultipleHasNoRemainder(k, WHOLE);
  }

  lemma WrapIs(x: int) returns (k: int)
    ensures Wrap(x) == x - k * WHOLE
    ensures x >= -HALF ==> k >= 0
  {
    k := (x + HALF) / WHOLE;
  }

  lemma WrapTimes(a: int, b: int)
    ensures Wrap(Wrap(a) * b) == Wrap(a * b)
  {
    var k := WrapIs(a);
    hide Wrap;
    TimesWhole(a, k, b);
    WrapDrops(a * b, -(k * b));
  }

  lemma TimesWhole(a: int, k: int, b: int)
    ensures (a - k * WHOLE) * b == a * b + -(k * b) * WHOLE
  {
    Arithmetic.MulDistributes(a, k * WHOLE, b);
    Arithmetic.MulAssociates(k, WHOLE, b);
    Arithmetic.MulAssociates(k, b, WHOLE);
  }

  lemma WrapMinus(a: int, b: int)
    ensures Wrap(Wrap(a) - Wrap(b)) == Wrap(a - b)
  {
    var k := WrapIs(a);
    var l := WrapIs(b);
    hide Wrap;
    WrapDrops(a - b, l - k);
  }

  // ---------------------------------------------------------------- containment

  /** The largest offset any hash gives. */
  function Top(s: Spec): (r: int)
    requires s.pings > 0
    ensures 0 <= r < HALF
  {
    if Window(s) <= 0 then 0 else Window(s) - 1
  }

  lemma OffsetReaches(s: Spec, hash: Hash)
    requires s.pings > 0
    ensures hash == 0 ==> PhaseOffset(s, hash) == 0
    ensures hash == Top(s) ==> PhaseOffset(s, hash) == Top(s)
  {
    hide Window;
  }

  lemma OffsetsStayBelowTheTop(s: Spec, hash: Hash)
    requires s.pings > 0
    ensures 0 <= PhaseOffset(s, hash) <= Top(s)
  {
    hide Window;
  }

  ghost predicate InBucket(s: Spec, hash: Hash, bucket: int, i: nat)
    requires s.pings > 0
  {
    bucket * SECOND <= SendTime(s, hash, bucket, i) < (bucket + s.intervalS) * SECOND
  }

  ghost predicate Contained(s: Spec)
    requires s.pings > 0
  {
    forall hash: Hash, bucket: int, i: nat :: i < s.pings ==> InBucket(s, hash, bucket, i)
  }

  /** No send overflows on the way to it. */
  predicate Forward(s: Spec)
    requires s.pings > 0
  {
    s.pings == 1 || (0 <= Step(s) && (s.pings - 1) * Step(s) < HALF)
  }

  lemma ForwardGives(s: Spec, i: nat)
    requires i < s.pings && Forward(s)
    ensures 0 <= i * Step(s) <= (s.pings - 1) * Step(s)
    ensures Wrap(i * Step(s)) == i * Step(s)
  {
    hide Wrap, Step;
    if s.pings > 1 {
      Arithmetic.MulMonotone(0, i, Step(s));
      Arithmetic.MulMonotone(i, s.pings - 1, Step(s));
    }
  }

  lemma StepIsADuration(s: Spec)
    requires s.pings > 0
    ensures -HALF <= Step(s) < HALF
  {
    hide Wrap;
    var v := Interval(s);
    if v >= 0 {
      Arithmetic.QuotientBelow(v, s.pings, HALF);
      Arithmetic.MulMonotone(1, s.pings, HALF);
    } else {
      Arithmetic.QuotientBelow(-v, s.pings, HALF + 1);
      Arithmetic.MulMonotone(1, s.pings, HALF + 1);
    }
  }

  /** A step is less than half of the whole, so the first send to overflow comes out negative. */
  lemma BackwardGives(s: Spec) returns (i: nat)
    requires s.pings > 0 && !Forward(s)
    ensures 0 < i < s.pings && Wrap(i * Step(s)) < 0
  {
    StepIsADuration(s);
    hide Step;
    var d := Step(s);
    i := 1;
    if d >= 0 {
      i := (HALF - 1) / d + 1;
      Arithmetic.QuotientBelow(HALF - 1, d, i);
      Arithmetic.QuotientBelow(HALF - 1, d, s.pings - 1);
      Arithmetic.QuotientBelow(HALF - 1, d, i - 1);
      Arithmetic.MulDistributes(i, 1, d);
    }
  }

  lemma ForwardIs(s: Spec)
    requires s.pings > 0
    ensures Forward(s) <==> forall i: nat :: i < s.pings ==> Wrap(i * Step(s)) >= 0
  {
    hide Step, Wrap;
    if Forward(s) {
      forall i: nat | i < s.pings ensures Wrap(i * Step(s)) >= 0 {
        ForwardGives(s, i);
      }
    } else {
      var i := BackwardGives(s);
    }
  }

  lemma InBucketIs(s: Spec, hash: Hash, bucket: int, i: nat)
    requires s.pings > 0
    ensures InBucket(s, hash, bucket, i)
       <==> 0 <= PhaseOffset(s, hash) + Wrap(i * Step(s)) < s.intervalS * SECOND
  {
    hide PhaseOffset, Wrap, Step;
    Arithmetic.MulDistributes(bucket, s.intervalS, SECOND);
  }

  /** When every send of every bucket lies in its bucket, for all hashes: no send overflows, and the last
      one ends inside the interval even behind the largest offset. */
  lemma ContainmentIsExact(s: Spec)
    requires s.pings > 0
    ensures Contained(s) <==> Forward(s) && Top(s) + (s.pings - 1) * Step(s) < s.intervalS * SECOND
  {
    hide PhaseOffset, Wrap, Step, Top, SendTime, InBucket;
    var low: Hash, high: Hash := 0, Top(s);
    OffsetReaches(s, low);
    OffsetReaches(s, high);
    if !Forward(s) {
      var i := BackwardGives(s);
      InBucketIs(s, low, 0, i);
      assert !InBucket(s, low, 0, i);
    } else if Contained(s) {
      ForwardGives(s, s.pings - 1);
      InBucketIs(s, high, 0, s.pings - 1);
      assert InBucket(s, high, 0, s.pings - 1);
    }
    if Forward(s) && Top(s) + (s.pings - 1) * Step(s) < s.intervalS * SECOND {
      forall hash: Hash, bucket: int, i: nat | i < s.pings ensures InBucket(s, hash, bucket, i) {
        ForwardGives(s, i);
        OffsetsStayBelowTheTop(s, hash);
        InBucketIs(s, hash, bucket, i);
      }
    }
  }

  lemma WindowFitsSpread(s: Spec)
    requires InRange(s) && s.spread && Forward(s)
    ensures Top(s) + (s.pings - 1) * Step(s) < s.intervalS * SECOND
  {
    var k := WrapIs(s.intervalS * SECOND);
    hide Wrap;
    var v := Interval(s);
    if v >= 0 {
      assert v == s.pings * (v / s.pings) + v % s.pings;
      Arithmetic.MulDistributes(s.pings, 1, Step(s));
    } else if s.pings > 1 {
      Arithmetic.MulMonotone(0, s.pings - 1, Step(s));
    }
  }

  lemma BurstWindowIs(s: Spec)
    requires s.pings > 0 && !s.spread
    ensures Window(s) == Wrap(s.intervalS * SECOND - s.pings * s.burstGapMS * MILLISECOND)
  {
    hide Wrap;
    WrapTimes(s.pings * s.burstGapMS, MILLISECOND);
    WrapMinus(s.intervalS * SECOND, s.pings * s.burstGapMS * MILLISECOND);
  }

  lemma BurstSpanIs(s: Spec)
    requires InRange(s) && !s.spread && Forward(s)
    ensures (s.pings - 1) * Step(s) <= (s.pings - 1) * (s.burstGapMS * MILLISECOND)
  {
    var gap := s.burstGapMS * MILLISECOND;
    assert Step(s) == Wrap(gap);
    ForwardGives(s, s.pings - 1);
    hide Wrap, Step, Forward;
    WrapTimes(gap, s.pings - 1);
    assert (s.pings - 1) * Step(s) == Wrap(gap * (s.pings - 1));
    Arithmetic.MulMonotone(0, s.pings - 1, gap);
    var l := WrapIs(gap * (s.pings - 1));
  }

  lemma BurstLengthIs(s: Spec)
    ensures s.pings * s.burstGapMS * MILLISECOND
         == (s.pings - 1) * (s.burstGapMS * MILLISECOND) + s.burstGapMS * MILLISECOND
  {
    Arithmetic.MulAssociates(s.pings, s.burstGapMS, MILLISECOND);
    Arithmetic.MulDistributes(s.pings, 1, s.burstGapMS * MILLISECOND);
  }

  lemma WindowFitsBurst(s: Spec)
    requires InRange(s) && !s.spread && BurstEnds(s) && Forward(s)
    ensures Top(s) + (s.pings - 1) * Step(s) < s.intervalS * SECOND
  {
    hide Wrap, Step, Window, Forward;
    BurstWindowIs(s);
    var total, burst := s.intervalS * SECOND, s.pings * s.burstGapMS * MILLISECOND;
    assert burst < total;
    var k := WrapIs(total - burst);
    assert Top(s) < total - burst;
    BurstLengthIs(s);
    BurstSpanIs(s);
  }

  /** A burst that ends inside its interval, and every spread train, stays in its bucket unless a send
      overflows. */
  lemma ContainedUnlessItOverflows(s: Spec)
    requires InRange(s) && BurstEnds(s)
    ensures Contained(s) <==> Forward(s)
    ensures Contained(s) <==> forall i: nat :: i < s.pings ==> Wrap(i * Step(s)) >= 0
  {
    hide Contained, Forward, Top, Step, Wrap;
    ContainmentIsExact(s);
    ForwardIs(s);
    if Forward(s) {
      if s.spread { WindowFitsSpread(s); } else { WindowFitsBurst(s); }
    }
  }

  lemma ValidIsForward(s: Spec)
    requires Valid(s)
    ensures Forward(s)
  {
    if s.spread {
      var v := s.intervalS * SECOND;
      assert Interval(s) == v && Step(s) == v / s.pings;
      hide Wrap, Step;
      assert v == s.pings * (v / s.pings) + v % s.pings;
      Arithmetic.MulDistributes(s.pings, 1, Step(s));
    } else {
      hide Wrap;
      var gap := s.burstGapMS * MILLISECOND;
      Arithmetic.MulMonotone(1, s.pings, s.burstGapMS);
      assert Step(s) == gap;
      hide Step;
      Arithmetic.MulAssociates(s.pings, s.burstGapMS, MILLISECOND);
      Arithmetic.MulDistributes(s.pings, 1, gap);
    }
  }

  /** So every send time of a valid target lies in its bucket, whatever the target's hash. */
  lemma SendTimesStayInTheBucket(s: Spec, hash: Hash, bucket: int, i: nat)
    requires Valid(s) && i < s.pings
    ensures bucket * SECOND <= SendTime(s, hash, bucket, i) < (bucket + s.intervalS) * SECOND
  {
    hide Forward, SendTime, Wrap, Step;
    ValidIsForward(s);
    ContainedUnlessItOverflows(s);
    assert InBucket(s, hash, bucket, i);
  }

  /** An interval that a duration cannot hold can break it: this train runs backwards out of its bucket. */
  lemma TooLongAnIntervalEscapes()
    ensures var s := Spec(LONGEST + 1, 2, true, 0);
      InRange(s) && BurstEnds(s) && !Contained(s) && SendTime(s, 0, 0, 1) < 0
  {
    var s := Spec(LONGEST + 1, 2, true, 0);
    assert Interval(s) == (LONGEST + 1) * SECOND - WHOLE;
    assert !InBucket(s, 0, 0, 1);
  }

  /** .. or not: this one comes out as a short interval, and the train is contained. */
  lemma ALongerIntervalMayNot()
    ensures var s := Spec(2 * LONGEST + 2, 2, true, 0);
      InRange(s) && BurstEnds(s) && s.intervalS > LONGEST && Contained(s)
  {
    var s := Spec(2 * LONGEST + 2, 2, true, 0);
    assert Interval(s) == (2 * LONGEST + 2) * SECOND - WHOLE;
    ContainedUnlessItOverflows(s);
  }

  /** A burst whose length overflows passes the comparison of `validateTiming` and leaves its bucket. */
  lemma AWrappedBurstEscapes()
    ensures var s := Spec(60, 2, false, 5_000_000_000_000_000_000);
      InRange(s) && PassesTiming(s) && s.intervalS <= LONGEST && !BurstEnds(s) && !Contained(s)
  {
    var s := Spec(60, 2, false, 5_000_000_000_000_000_000);
    assert Wrap(10_000_000_000_000_000_000) == 10_000_000_000_000_000_000 - WHOLE;
    assert Step(s) == Wrap(5_000_000_000_000_000_000_000_000);
    assert !InBucket(s, 0, 0, 1);
  }

  // ---------------------------------------------------------------- order

  ghost predicate InOrder(s: Spec, strictly: bool)
    requires s.pings > 0
  {
    forall hash: Hash, bucket: int, i: nat, j: nat :: i < j < s.pings ==>
      SendTime(s, hash, bucket, i) <= SendTime(s, hash, bucket, j)
      && (strictly ==> SendTime(s, hash, bucket, i) != SendTime(s, hash, bucket, j))
  }

  /** When the sends of a train come in order: none overflows; and at distinct times: the step is not zero. */
  lemma OrderIsExact(s: Spec)
    requires s.pings > 0
    ensures InOrder(s, false) <==> Forward(s)
    ensures InOrder(s, true) <==> Forward(s) && (s.pings == 1 || Step(s) != 0)
  {
    hide Step, PhaseOffset, Wrap;
    if Forward(s) {
      forall hash: Hash, bucket: int, i: nat, j: nat | i < j < s.pings
        ensures SendTime(s, hash, bucket, i) <= SendTime(s, hash, bucket, j)
        ensures Step(s) != 0 ==> SendTime(s, hash, bucket, i) < SendTime(s, hash, bucket, j)
        ensures Step(s) == 0 ==> SendTime(s, hash, bucket, i) == SendTime(s, hash, bucket, j)
      {
        ForwardGives(s, i);
        ForwardGives(s, j);
        Arithmetic.MulMonotone(i, j, Step(s));
        if Step(s) > 0 { Arithmetic.MulStrict(i, j, Step(s)); }
      }
      assert SendTime(s, 0, 0, 0) <= SendTime(s, 0, 0, 0);
      if InOrder(s, true) && s.pings > 1 {
        assert SendTime(s, 0, 0, 0) != SendTime(s, 0, 0, 1);
      }
    } else {
      var i := BackwardGives(s);
      assert SendTime(s, 0, 0, 0) > SendTime(s, 0, 0, i);
      assert !InOrder(s, false);
    }
  }

  /** So the sends of a valid target come in order, spread ones at distinct times. */
  lemma SendTimesAscend(s: Spec, hash: Hash, bucket: int, i: nat, j: nat)
    requires Valid(s) && i < j < s.pings
    ensures SendTime(s, hash, bucket, i) <= SendTime(s, hash, bucket, j)
    ensures s.spread ==> SendTime(s, hash, bucket, i) < SendTime(s, hash, bucket, j)
  {
    if s.spread {
      assert Step(s) == s.intervalS * SECOND / s.pings;
      hide Step;
      Arithmetic.QuotientBelow(s.intervalS * SECOND, s.pings, 1);
    }
    hide Forward, SendTime, Wrap, Step;
    ValidIsForward(s);
    OrderIsExact(s);
  }

  /** A spread train's pings are an interval over pings apart, in whole nanoseconds; a burst's are its gap. */
  lemma SendsAreSpaced(s: Spec, hash: Hash, bucket: int, i: nat)
    requires Valid(s) && i + 1 < s.pings
    ensures var gap := SendTime(s, hash, bucket, i + 1) - SendTime(s, hash, bucket, i);
      if s.spread then gap * s.pings <= s.intervalS * SECOND < (gap + 1) * s.pings
      else gap == s.burstGapMS * MILLISECOND
  {
    ValidIsForward(s);
    ForwardGives(s, i);
    ForwardGives(s, i + 1);
    StepIs(s);
    hide Wrap, PhaseOffset, Step, Forward;
    Arithmetic.MulDistributes(i, 1, Step(s));
  }

  lemma StepIs(s: Spec)
    requires Valid(s)
    ensures if s.spread then Step(s) * s.pings <= s.intervalS * SECOND < (Step(s) + 1) * s.pings
            else Step(s) == s.burstGapMS * MILLISECOND
  {
    if s.spread {
      var v := s.intervalS * SECOND;
      assert Interval(s) == v && Step(s) == v / s.pings;
      hide Wrap, Step;
      Arithmetic.QuotientBelow(v, s.pings, Step(s));
      Arithmetic.QuotientBelow(v, s.pings, Step(s) + 1);
    } else {
      Arithmetic.MulMonotone(1, s.pings, s.burstGapMS);
      assert s.pings * s.burstGapMS < s.intervalS * 1000;
      hide Step;
      assert Wrap(s.burstGapMS * MILLISECOND) == s.burstGapMS * MILLISECOND;
    }
  }

  /** The first ping goes out at the hash, modulo the room that the bucket leaves for the train: all that the burst
      does not fill, or one spacing of a spread train. */
  lemma FirstSendIs(s: Spec, hash: Hash, bucket: int) returns (room: int)
    requires Valid(s)
    ensures room > 0 && SendTime(s, hash, bucket, 0) == bucket * SECOND + hash % room
    ensures if s.spread then room * s.pings <= s.intervalS * SECOND < (room + 1) * s.pings
            else room == s.intervalS * SECOND - s.pings * s.burstGapMS * MILLISECOND
  {
    room := Window(s);
    StepIs(s);
    if s.spread {
      assert Window(s) == Step(s) == s.intervalS * SECOND / s.pings;
      hide Step, Window;
      Arithmetic.QuotientBelow(s.intervalS * SECOND, s.pings, 1);
    } else {
      hide Step;
      BurstWindowIs(s);
      var total, burst := s.intervalS * SECOND, s.pings * s.burstGapMS * MILLISECOND;
      Arithmetic.MulMonotone(0, s.pings, s.burstGapMS);
      assert 0 <= burst < total && Wrap(total - burst) == total - burst;
    }
    hide Window, Step;
    assert PhaseOffset(s, hash) == hash % room;
  }

  // ---------------------------------------------------------------- the loop

  /** What the clock said in one turn of `runTarget`: at its two readings, and when the turn ended; and
      whether the turn got as far as probing. */
  datatype Turn = Turn(first: int, second: int, ended: int, probed: bool)

  function Chosen(s: Spec, hash: Hash, t: Turn): int
    requires s.pings > 0 && s.intervalS > 0
  {
    var bucket := BucketStart(t.first / SECOND, s.intervalS);
    if t.second < SendTime(s, hash, bucket, 0) then bucket else bucket + s.intervalS
  }

  /** A clock that never runs backwards, and sleeps that last as long as they were asked to: a turn that
      probes has slept until its first send, one that could not sleeps its bucket out. */
  ghost predicate Plausible(s: Spec, hash: Hash, turns: seq<Turn>)
    requires s.pings > 0 && s.intervalS > 0
  {
    && (forall i :: 0 <= i < |turns| ==> TurnPlausible(s, hash, turns[i]))
    && (forall i :: 0 < i < |turns| ==> turns[i - 1].ended <= turns[i].first)
  }

  ghost predicate TurnPlausible(s: Spec, hash: Hash, t: Turn)
    requires s.pings > 0 && s.intervalS > 0
  {
    var bucket := Chosen(s, hash, t);
    && t.first <= t.second <= t.ended
    && (if t.probed then SendTime(s, hash, bucket, 0) else (bucket + s.intervalS) * SECOND) <= t.ended
  }

  lemma ChosenIsAligned(s: Spec, hash: Hash, t: Turn)
    requires s.pings > 0 && s.intervalS > 0
    ensures Aligned(Chosen(s, hash, t), s.intervalS)
  {
    hide SendTime, BucketStart;
    BucketIsAligned(t.first / SECOND, s.intervalS);
    var b := BucketStart(t.first / SECOND, s.intervalS);
    Arithmetic.NextMultiple(b, s.intervalS);
  }

  lemma FirstSendIsInTheBucket(s: Spec, hash: Hash, bucket: int)
    requires s.pings > 0
    ensures bucket * SECOND <= SendTime(s, hash, bucket, 0)
  {
    hide PhaseOffset, Step, Top;
    OffsetsStayBelowTheTop(s, hash);
  }

  /** The chosen bucket is the next one: the first send of every earlier bucket is past, and its own is still ahead,
      as long as both clock readings are in one bucket. */
  lemma ChosenIsNext(s: Spec, hash: Hash, t: Turn, b: int)
    requires Valid(s) && 0 <= t.first <= t.second && Aligned(b, s.intervalS)
    ensures b < Chosen(s, hash, t) ==> SendTime(s, hash, b, 0) <= t.second
    ensures t.second / SECOND < BucketStart(t.first / SECOND, s.intervalS) + s.intervalS ==>
      t.second < SendTime(s, hash, Chosen(s, hash, t), 0)
  {
    var iv, now := s.intervalS, BucketStart(t.first / SECOND, s.intervalS);
    BucketIsAligned(t.first / SECOND, iv);
    SendTimesStayInTheBucket(s, hash, b, 0);
    SendTimesStayInTheBucket(s, hash, now + iv, 0);
    hide SendTime, BucketStart, Aligned, Valid;
    if b < Chosen(s, hash, t) && b != now {
      AlignedApart(b, now, iv);
    }
  }

  lemma AlignedApart(b: int, c: int, iv: int)
    requires iv > 0 && Aligned(b, iv) && Aligned(c, iv) && b < c + iv && b != c
    ensures b + iv <= c
  {
    Arithmetic.MultiplesAreApart(b, c, iv);
  }

  /** So no bucket is skipped: a turn that gets its two readings before the first send of the bucket after the last
      one takes that bucket. */
  lemma NoBucketSkipped(s: Spec, hash: Hash, t: Turn, u: Turn)
    requires Valid(s) && TurnPlausible(s, hash, t) && TurnPlausible(s, hash, u) && t.ended <= u.first
    requires 0 <= t.first && u.second < SendTime(s, hash, Chosen(s, hash, t) + s.intervalS, 0)
    ensures Chosen(s, hash, u) == Chosen(s, hash, t) + s.intervalS
  {
    hide SendTime, BucketStart, Aligned;
    var b := Chosen(s, hash, t);
    TurnsMoveOn(s, hash, t, u);
    ChosenIsAligned(s, hash, t);
    NextIsAligned(b, s.intervalS);
    ChosenIsNext(s, hash, u, b + s.intervalS);
  }

  lemma NextIsAligned(b: int, iv: int)
    requires iv > 0 && Aligned(b, iv)
    ensures Aligned(b + iv, iv)
  {
    Arithmetic.NextMultiple(b, iv);
  }

  /** Each turn moves on by at least a whole interval. */
  lemma TurnsMoveOn(s: Spec, hash: Hash, t: Turn, u: Turn)
    requires s.pings > 0 && s.intervalS > 0
    requires TurnPlausible(s, hash, t) && TurnPlausible(s, hash, u) && t.ended <= u.first
    ensures Chosen(s, hash, t) + s.intervalS <= Chosen(s, hash, u)
  {
    hide SendTime, BucketStart;
    var b := Chosen(s, hash, t);
    ChosenIsAligned(s, hash, t);
    FirstSendIsInTheBucket(s, hash, b);
    assert b * SECOND <= u.first;
    BucketsFollowTheClock(b, u.first / SECOND, s.intervalS);
    if !t.probed {
      Arithmetic.NextMultiple(b, s.intervalS);
      BucketsFollowTheClock(b + s.intervalS, u.first / SECOND, s.intervalS);
    }
  }

  /** The buckets that turns measure. */
  function Measured(s: Spec, hash: Hash, turns: seq<Turn>): seq<int>
    requires s.pings > 0 && s.intervalS > 0
  {
    if turns == [] then []
    else
      var last := turns[|turns| - 1];
      Measured(s, hash, turns[..|turns| - 1]) + if last.probed then [Chosen(s, hash, last)] else []
  }

  ghost predicate Spaced(m: seq<int>, iv: int) {
    forall i, j :: 0 <= i < j < |m| ==> m[i] + iv <= m[j]
  }

  predicate AlignedUpTo(m: seq<int>, iv: int, last: int)
    requires iv > 0
  {
    forall i :: 0 <= i < |m| ==> Aligned(m[i], iv) && m[i] <= last
  }

  lemma MoveOn(m: seq<int>, iv: int, last: int, next: int)
    requires iv > 0 && Spaced(m, iv) && AlignedUpTo(m, iv, last) && last + iv <= next && Aligned(next, iv)
    ensures Spaced(m + [next], iv) && AlignedUpTo(m + [next], iv, next) && AlignedUpTo(m, iv, next)
  {
    hide Aligned;
  }

  lemma {:induction false} MeasuredUpTo(s: Spec, hash: Hash, turns: seq<Turn>)
    requires s.pings > 0 && s.intervalS > 0
    requires Plausible(s, hash, turns) && turns != []
    ensures var m := Measured(s, hash, turns);
      Spaced(m, s.intervalS) && AlignedUpTo(m, s.intervalS, Chosen(s, hash, turns[|turns| - 1]))
  {
    var n := |turns| - 1;
    ChosenIsAligned(s, hash, turns[n]);
    if n == 0 {
      assert Measured(s, hash, turns[..0]) == [];
      hide Aligned, Chosen;
    } else {
      assert turns[..n][n - 1] == turns[n - 1];
      MeasuredUpTo(s, hash, turns[..n]);
      TurnsMoveOn(s, hash, turns[n - 1], turns[n]);
      hide Aligned, Chosen, Spaced, AlignedUpTo, TurnPlausible;
      MoveOn(Measured(s, hash, turns[..n]), s.intervalS, Chosen(s, hash, turns[n - 1]), Chosen(s, hash, turns[n]));
      assert Measured(s, hash, turns[..n]) + [] == Measured(s, hash, turns[..n]);
    }
  }

  /** No bucket is measured twice: each is aligned, and at least an interval after the one before. */
  lemma NoBucketTwice(s: Spec, hash: Hash, turns: seq<Turn>)
    requires s.pings > 0 && s.intervalS > 0
    requires Plausible(s, hash, turns)
    ensures forall i :: 0 <= i < |Measured(s, hash, turns)| ==> Aligned(Measured(s, hash, turns)[i], s.intervalS)
    ensures Spaced(Measured(s, hash, turns), s.intervalS)
  {
    if turns != [] {
      MeasuredUpTo(s, hash, turns);
    }
  }

  /** `runTarget` for as long as it runs: the buckets it measured. */
  method RunTarget(s: Spec, hash: Hash, turns: seq<Turn>) returns (measured: seq<int>)
    requires s.pings > 0 && s.intervalS > 0
    ensures measured == Measured(s, hash, turns)
  {
    hide SendTime, BucketStart;
    measured := [];
    for k := 0 to |turns|
      invariant measured == Measured(s, hash, turns[..k])
    {
      assert turns[..k + 1][..k] == turns[..k];
      var bucket := BucketStart(turns[k].first / SECOND, s.intervalS);
      var times := SendTimes(s, hash, bucket);
      if turns[k].second >= times[0] {
        bucket := bucket + s.intervalS;
        times := SendTimes(s, hash, bucket);
      }
      if turns[k].probed {
        measured := measured + [bucket];
      }
    }
    assert turns[..|turns|] == turns;
  }
}
