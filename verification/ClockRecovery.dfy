/** ClockRecoveryLoop: filtering sync points, disciplining the common clock and deciding when the error
  * is too large to tolerate.  The controller uses reals where the original uses floats, and slews in
  * software (the original's path for clocks without hardware slew).
  */
module ClockRecovery {
  import opened Common
  import opened CommonClock

  const PANIC_THRESHOLD := 50000
  const CONTROL_THRESHOLD := 10000
  const FILTER_SIZE := 16
  const STARTUP_FILTER_SIZE := 4

  datatype Point = Point(localTime: int, observed: int, nominal: int, rtt: int)

  // ----- what a sync exchange tells -----

  /** Half of a sum, as the original's arithmetic shift computes it. */
  function Midpoint(a: int, b: int): int { (a + b) / 2 }

  /** The point the client makes of an exchange: it sent at t1 and received the answer at t4 by its
    * local clock, the master received at m1 and answered at m2 in common time. */
  function ExchangePoint(t1: int, m1: int, m2: int, t4: int): (int, int, int) {
    (Midpoint(t1, t4), Midpoint(m2, m1), t4 - t1)
  }

  predicate Panics(delta: int, rtt: int) {
    delta > PANIC_THRESHOLD + rtt || delta < -(PANIC_THRESHOLD + rtt)
  }

  /** On clocks of the same rate, whatever the one-way delays d1 and d2 and the master's processing
    * time, the measured error differs from the true one by at most half the round trip (and half a
    * microsecond of rounding).  observed is what the client's common clock reads at the midpoint;
    * offset is the true difference between common and local time. */
  lemma MeasurementError(t1: int, offset: int, d1: nat, processing: nat, d2: nat, observed: int)
    ensures var m1 := t1 + d1 + offset;
            var m2 := m1 + processing;
            var t4 := t1 + d1 + processing + d2;
            var (local, nominal, rtt) := ExchangePoint(t1, m1, m2, t4);
            var measured, actual := nominal - observed, local + offset - observed;
            -(rtt + 1) <= 2 * (measured - actual) <= rtt + 1
  {
  }

  /** No false panic and no missed one: a panic means the true error exceeds the threshold plus half
    * the round trip (up to rounding), and a true error beyond the threshold plus one and a half round
    * trips panics. */
  lemma PanicMeansRealError(t1: int, offset: int, d1: nat, processing: nat, d2: nat, observed: int)
    ensures var m1 := t1 + d1 + offset;
            var m2 := m1 + processing;
            var t4 := t1 + d1 + processing + d2;
            var (local, nominal, rtt) := ExchangePoint(t1, m1, m2, t4);
            var actual := local + offset - observed;
            && (Panics(nominal - observed, rtt) ==> BeyondDoubt(rtt, actual))
            && (FarBeyond(rtt, actual) ==> Panics(nominal - observed, rtt))
  {
    MeasurementError(t1, offset, d1, processing, d2, observed);
  }

  /** A clock started from one exchange is at most half that exchange's round trip wrong, so unless
    * that was over 0.1 s no later exchange makes it panic while it runs at the right rate. */
  lemma NoPanicAfterGoodStart(s1: int, offset: int, e1: nat, working: nat, e2: nat,
                              t1: int, d1: nat, processing: nat, d2: nat)
    requires e1 + working + e2 <= 99998
    ensures var (startLocal, startCommon, _) :=
              ExchangePoint(s1, s1 + e1 + offset, s1 + e1 + offset + working, s1 + e1 + working + e2);
            var (local, nominal, rtt) :=
              ExchangePoint(t1, t1 + d1 + offset, t1 + d1 + offset + processing, t1 + d1 + processing + d2);
            !Panics(nominal - (startCommon + (local - startLocal)), rtt)
  {
    var (startLocal, startCommon, _) :=
      ExchangePoint(s1, s1 + e1 + offset, s1 + e1 + offset + working, s1 + e1 + working + e2);
    var (local, _, _) :=
      ExchangePoint(t1, t1 + d1 + offset, t1 + d1 + offset + processing, t1 + d1 + processing + d2);
    MeasurementError(s1, offset, e1, working, e2, 0);
    PanicMeansRealError(t1, offset, d1, processing, d2, startCommon + (local - startLocal));
  }

  // ----- the controller -----

  /** Controller output, its slow average, and the last error. */
  datatype Controller = Controller(co: real, coBias: real, lastDelta: real)

  const CO_MIN := -100.0
  const CO_MAX := 100.0
  const TF := 0.05
  const BIAS_ALPHA := 1.0 / (1.0 / (2.0 * 3.14159 * 0.01) + 1.0)

  function Clamp(x: real): real {
    if x < CO_MIN then CO_MIN else if x > CO_MAX then CO_MAX else x
  }

  /** The velocity form of the PI equation with gain 1, integral time 15 and the output filter. */
  function PiStep(c: Controller, delta: real): Controller {
    var co := Clamp(c.co + ((1.0 + 1.0 / 15.0) * delta - c.lastDelta) * TF);
    Controller(co, BIAS_ALPHA * co + (1.0 - BIAS_ALPHA) * c.coBias, delta)
  }

  const AT_REST := Controller(0.0, 0.0, 0.0)

  /** From rest the controller answers an error with an output of the same sign, of at most 100 ppm. */
  lemma StepFromRest(delta: real)
    ensures var co := PiStep(AT_REST, delta).co;
            && -100.0 <= co <= 100.0 && (delta > 0.0 <==> co > 0.0) && (delta < 0.0 <==> co < 0.0)
  {
  }

  lemma StepInRange(c: Controller, delta: real)
    ensures -100.0 <= PiStep(c, delta).co <= 100.0
  {
  }

  /** The output moves by a twentieth of what the error, and a fifteenth of it for good measure, exceed the last
    * error by, held between -100 and 100; the bias follows it by about a seventeenth of their difference. */
  lemma StepMeans(c: Controller, delta: real)
    requires -100.0 <= c.co <= 100.0
    ensures var after, moved := PiStep(c, delta), c.co + 0.05 * (16.0 / 15.0 * delta - c.lastDelta);
            && after.co == (if moved < -100.0 then -100.0 else if moved > 100.0 then 100.0 else moved)
            && (16.0 * delta >= 15.0 * c.lastDelta ==> after.co >= c.co)
            && (16.0 * delta <= 15.0 * c.lastDelta ==> after.co <= c.co)
            && after.lastDelta == delta
            && (after.coBias <= after.co <==> c.coBias <= after.co)
            && 0.0591 * Apart(after.co, c.coBias) <= Apart(after.coBias, c.coBias) <= 0.0592 * Apart(after.co, c.coBias)
  {
    BiasFollows(PiStep(c, delta).co, c.coBias, BIAS_ALPHA);
  }

  function Apart(x: real, y: real): real { if x < y then y - x else x - y }

  lemma ProductIsPositive(x: real, y: real)
    requires x >= 0.0 && y >= 0.0
    ensures x * y >= 0.0
  {
  }

  lemma BiasFollows(co: real, bias: real, alpha: real)
    requires 0.0591 <= alpha <= 0.0592
    ensures var next := alpha * co + (1.0 - alpha) * bias;
            && (next <= co <==> bias <= co)
            && 0.0591 * Apart(co, bias) <= Apart(next, bias) <= 0.0592 * Apart(co, bias)
  {
    var next, d := alpha * co + (1.0 - alpha) * bias, Apart(co, bias);
    assert next - bias == alpha * (co - bias);
    assert co - next == (1.0 - alpha) * (co - bias);
    ProductIsPositive(alpha - 0.0591, d);
    ProductIsPositive(0.0592 - alpha, d);
    assert Apart(next, bias) == alpha * d;
  }

  /** Where there is no correction the output was below one part per million. */
  lemma NoCorrectionNoRate(output: real)
    requires Truncate(output * 327.66) == 0
    ensures Truncate(output) == 0
  {
  }

  /** The guess used when the last point is not good enough to steer by. */
  function Extrapolate(c: Controller): real { c.lastDelta - (c.co - c.coBias) }

  /** Conversion of a float to an integer: towards zero. */
  function Truncate(x: real): int {
    if x >= 0.0 then x.Floor else -((-x).Floor)
  }

  lemma TruncateInRange(x: real, bound: nat)
    requires -(bound as real) <= x <= bound as real
    ensures -(bound as int) <= Truncate(x) <= bound
  {
  }

  /** The first of the points with the least round trip. */
  method FindMinRttNdx(data: array<Point>, count: nat) returns (min: nat)
    requires 0 < count <= data.Length
    ensures min < count
    ensures forall i | 0 <= i < count :: data[min].rtt <= data[i].rtt
    ensures forall i | 0 <= i < min :: data[min].rtt < data[i].rtt
  {
    min := 0;
    for i := 1 to count
      invariant min < i
      invariant forall k | 0 <= k < i :: data[min].rtt <= data[k].rtt
      invariant forall k | 0 <= k < min :: data[min].rtt < data[k].rtt
    {
      if data[min].rtt > data[i].rtt {
        min := i;
      }
    }
  }

  /** The last n of a sequence (all of it if it is shorter). */
  function Last<T>(s: seq<T>, n: nat): seq<T> {
    if |s| <= n then s else s[|s| - n..]
  }

  /** The points of a ring buffer, oldest first. */
  ghost function RingWindow(ring: seq<Point>, wr: nat, full: bool): seq<Point>
    requires wr <= |ring|
  {
    if full then ring[wr..] + ring[..wr] else ring[..wr]
  }

  lemma FullWindow(ring: seq<Point>, wr: nat, point: Point)
    requires wr < |ring| == FILTER_SIZE
    ensures var window := RingWindow(ring, wr, true);
            && Last(window, FILTER_SIZE - 1) == ring[wr + 1..] + ring[..wr]
            && Last(window + [point], FILTER_SIZE) == ring[wr + 1..] + (ring[..wr] + [point])
  {
    var window := RingWindow(ring, wr, true);
    assert window[1..] == ring[wr + 1..] + ring[..wr];
    assert (window + [point])[1..] == ring[wr + 1..] + (ring[..wr] + [point]);
  }

  lemma PartWindow(ring: seq<Point>, wr: nat, point: Point)
    requires wr < |ring| == FILTER_SIZE
    ensures var window := RingWindow(ring, wr, false);
            && Last(window, FILTER_SIZE - 1) == [] + ring[..wr]
            && Last(window + [point], FILTER_SIZE) == ring[..wr] + [point]
  {
  }

  /** The ring after writing. */
  lemma RingAfter(ring: seq<Point>, wr: nat, full: bool, point: Point)
    requires wr < |ring| == FILTER_SIZE
    ensures RingWindow(ring[wr := point], (wr + 1) % FILTER_SIZE, full || wr + 1 == FILTER_SIZE)
         == (if full then ring[wr + 1..] else []) + (ring[..wr] + [point])
  {
    var put := ring[wr := point];
    assert put[..wr + 1] == ring[..wr] + [point] && put[wr + 1..] == ring[wr + 1..];
    if wr + 1 == FILTER_SIZE {
      assert put[0..] + put[..0] == put == put[..wr + 1];
      assert ring[wr + 1..] == [];
      assert [] + put == put;
    } else {
      assert (wr + 1) % FILTER_SIZE == wr + 1;
      assert [] + put[..wr + 1] == put[..wr + 1];
    }
  }

  /** Writing at the cursor appends to the window and drops what exceeds the ring; the points kept
    * are the ones at the other positions. */
  lemma RingPut(ring: seq<Point>, wr: nat, full: bool, point: Point)
    requires wr < |ring| == FILTER_SIZE
    ensures var window := RingWindow(ring, wr, full);
            var full' := full || wr + 1 == FILTER_SIZE;
            var wr' := (wr + 1) % FILTER_SIZE;
            && RingWindow(ring[wr := point], wr', full') == Last(window + [point], FILTER_SIZE)
            && Last(window, FILTER_SIZE - 1) ==
                 (if full then ring[wr + 1..] else []) + ring[..wr]
  {
    hide Last, RingWindow;
    RingAfter(ring, wr, full, point);
    if full {
      FullWindow(ring, wr, point);
    } else {
      PartWindow(ring, wr, point);
      assert [] + (ring[..wr] + [point]) == ring[..wr] + [point];
    }
  }

  /** A round trip is the best of the window so far: no point kept is better, and none of those written
    * since the ring last started over, the last recent ones, is as good. */
  ghost predicate IsBest(kept: seq<Point>, recent: nat, rtt: int) {
    forall i | 0 <= i < |kept| :: if i < |kept| - recent then rtt <= kept[i].rtt else rtt < kept[i].rtt
  }

  /** Whether the point just written steers the clock: its round trip is short, or the best. */
  ghost predicate Steers(window: seq<Point>, recent: nat, rtt: int) {
    rtt < 10000 || IsBest(Last(window, 15), recent, rtt)
  }

  /** The first least round trip of the ring is the one just written exactly when it is the best. */
  lemma LeastInRing(ring: seq<Point>, wr: nat, full: bool, point: Point, put: seq<Point>, scanEnd: nat, min: nat)
    requires wr < |ring| == FILTER_SIZE && put == ring[wr := point]
    requires scanEnd == if full || wr + 1 == FILTER_SIZE then FILTER_SIZE else wr + 1
    requires min < scanEnd && forall i | 0 <= i < scanEnd :: put[min].rtt <= put[i].rtt
    requires forall i | 0 <= i < min :: put[min].rtt < put[i].rtt
    ensures min == wr <==> IsBest(Last(RingWindow(ring, wr, full), FILTER_SIZE - 1), wr, point.rtt)
  {
    RingPut(ring, wr, full, point);
    LeastInParts(if full then ring[wr + 1..] else [], ring[..wr], put, scanEnd, wr, point, min);
  }

  lemma LeastInParts(older: seq<Point>, recent: seq<Point>, put: seq<Point>, scanEnd: nat, wr: nat, point: Point, min: nat)
    requires |recent| == wr < scanEnd <= |put| && put[wr] == point && scanEnd == wr + 1 + |older|
    requires forall k | 0 <= k < wr :: recent[k] == put[k]
    requires forall k | 0 <= k < |older| :: older[k] == put[wr + 1 + k]
    requires min < scanEnd && forall i | 0 <= i < scanEnd :: put[min].rtt <= put[i].rtt
    requires forall i | 0 <= i < min :: put[min].rtt < put[i].rtt
    ensures min == wr <==> IsBest(older + recent, wr, point.rtt)
  {
    var kept := older + recent;
    if min < wr {
      assert kept[|older| + min] == put[min];
    } else if min > wr {
      assert kept[min - wr - 1] == put[min];
      assert put[min].rtt < put[wr].rtt;
    } else {
      forall i | 0 <= i < |kept|
        ensures if i < |kept| - wr then point.rtt <= kept[i].rtt else point.rtt < kept[i].rtt
      {
        assert kept[i] == put[if i < |older| then wr + 1 + i else i - |older|];
      }
    }
  }

  /** A clock whose adjustments, all between -100 and 100 parts per million, always leave a rate. */
  ghost predicate SlewsAlways(freq: nat) {
    freq > 0 && Accepted(freq) && forall ppm | -100 <= ppm <= 100 :: KeepsARate(freq, ppm)
  }

  /** Every clock below 2^32 Hz is one. */
  lemma SlowClocksSlewAlways(freq: nat)
    requires 0 < freq < 0x1_0000_0000
    ensures SlewsAlways(freq)
  {
    hide Accepted, WantedDenom;
    SlowClocksSlewExactly(freq, 0);
    forall ppm | -100 <= ppm <= 100
      ensures KeepsARate(freq, ppm)
    {
      SlowClocksSlewExactly(freq, ppm);
    }
  }

  /** The rate of a clock of this frequency, adjusted by so many parts per million: the numerator of
    * (10^6 + ppm) / freq in lowest terms, and its denominator in 32 bits. */
  predicate RunsAt(t: Transform, freq: nat, ppm: int) {
    && freq > 0 && 1000000 + ppm > 0
    && t.numer * freq == WantedDenom(freq, ppm) * (1000000 + ppm)
    && t.denom == WantedDenom(freq, ppm) % 0x1_0000_0000
  }

  /** Below 2^32 Hz that is exactly the rate (10^6 + ppm) / freq. */
  lemma RunsExactly(t: Transform, freq: nat, ppm: int)
    requires 0 < freq < 0x1_0000_0000 && -100 <= ppm <= 100 && RunsAt(t, freq, ppm)
    ensures t.numer * freq == t.denom * (1000000 + ppm)
  {
    hide WantedDenom;
    SlowClocksSlewExactly(freq, ppm);
  }

  lemma SlewedRunsAt(t: Transform, freq: nat, n1: uint32, d1: uint32, time: int, ppm: int)
    requires SlewsAlways(freq) && -100 <= ppm <= 100 && (n1, d1) == Reduce(COMMON_FREQ, freq) && n1 > 0 && d1 > 0
    requires t.Valid()
    ensures RunsAt(Slewed(t, n1, d1, time, ppm), freq, ppm)
    ensures RunsAt(Transform(0, 0, SlewRate(n1, d1, ppm).0, SlewRate(n1, d1, ppm).1), freq, ppm)
  {
    hide Reduce, SlewRate, WantedDenom;
    assert KeepsARate(freq, ppm);
    SlewRateIsExact(freq, ppm);
  }

  lemma SameRate(t: Transform, u: Transform, freq: nat, ppm: int)
    requires t.numer == u.numer && t.denom == u.denom && RunsAt(t, freq, ppm)
    ensures RunsAt(u, freq, ppm)
  {
    hide WantedDenom;
  }

  lemma NominalRunsAt(t: Transform, freq: nat)
    requires Accepted(freq) && (t.numer, t.denom) == Reduce(COMMON_FREQ, freq)
    ensures RunsAt(t, freq, 0)
  {
    hide Reduce, Gcd, Coprime;
    var g, n, d := ReduceParts(COMMON_FREQ, freq);
    assert n * freq == d * COMMON_FREQ by {
      assert n * (d * g) == d * (n * g);
    }
    WantedIs(freq, COMMON_FREQ, n, d);
  }

  lemma AlwaysUsable(freq: nat, ppm: int)
    requires SlewsAlways(freq) && -100 <= ppm <= 100
    ensures var (n1, d1) := Reduce(COMMON_FREQ, freq);
            n1 > 0 && d1 > 0 && SlewRate(n1, d1, ppm).1 > 0
  {
    hide Reduce, SlewRate, KeepsARate;
    UsableSlew(freq, ppm);
  }

  class ClockRecoveryLoop {
    const clock: Clock
    ghost const freq: nat
    const filter: array<Point>
    const startup: array<Point>
    var filterWr: nat
    var filterFull: bool
    var startupWr: nat
    var controller: Controller
    var tgtCorrection: int
    var curCorrection: int
    var lastErrorEstimate: Option<int>
    /** The controller output for which the clock's rate was last set. */
    ghost var applied: real

    ghost predicate Valid()
      reads this, clock
    {
      && Ready() && curCorrection == tgtCorrection
      && -100.0 <= applied <= 100.0 && curCorrection == Truncate(applied * 327.66)
      && RunsAt(clock.curTrans, freq, Truncate(applied))
    }

    /** The same without the correction, while that is changing. */
    ghost predicate Ready()
      reads this, clock
    {
      && filter != startup && filter.Length == FILTER_SIZE && startup.Length == STARTUP_FILTER_SIZE
      && filterWr < FILTER_SIZE && startupWr <= STARTUP_FILTER_SIZE
      && CO_MIN <= controller.co <= CO_MAX
      && clock.Valid() && SlewsAlways(freq)
      && (clock.freqNumer, clock.freqDenom) == Reduce(COMMON_FREQ, freq)
      && clock.durationTrans == Transform(0, 0, clock.freqNumer, clock.freqDenom)
    }

    /** The points in the ring, oldest first. */
    ghost function Window(): seq<Point>
      requires Ready()
      reads this, clock, filter
    {
      RingWindow(filter[..], filterWr, filterFull)
    }

    constructor (clock: Clock, ghost freq: nat)
      requires clock.Valid() && SlewsAlways(freq)
      requires (clock.freqNumer, clock.freqDenom) == Reduce(COMMON_FREQ, freq)
      requires clock.durationTrans == Transform(0, 0, clock.freqNumer, clock.freqDenom)
      requires clock.curTrans.numer == clock.freqNumer && clock.curTrans.denom == clock.freqDenom
      ensures Valid() && Window() == [] && startupWr == 0 && this.clock == clock
      ensures fresh(filter) && fresh(startup) && this.freq == freq
    {
      this.clock := clock;
      this.freq := freq;
      filter := new Point[FILTER_SIZE](_ => Point(0, 0, 0, 0));
      startup := new Point[STARTUP_FILTER_SIZE](_ => Point(0, 0, 0, 0));
      filterWr, filterFull, startupWr := 0, false, 0;
      controller := Controller(0.0, 0.0, 0.0);
      tgtCorrection, curCorrection, applied := 0, 0, 0.0;
      lastErrorEstimate := None;
      assert RunsAt(clock.curTrans, freq, 0) by { hide Reduce; NominalRunsAt(clock.curTrans, freq); }
    }

    /** The common clock still reads the same now, whatever happened to its rate. */
    twostate predicate NoJump(now: int)
      reads clock
      requires old(clock.Valid()) && clock.Valid()
    {
      old(clock.valid) ==> clock.valid && Forward(clock.curTrans, now) == old(Forward(clock.curTrans, now))
    }

    /** The rate is set for this output from now on, from what the clock reads now. */
    twostate predicate Applies(now: int, output: real)
      reads this, clock
      requires old(clock.Valid())
    {
      && applied == output && RunsAt(clock.curTrans, freq, Truncate(output))
      && (old(clock.valid) ==>
            clock.curTrans.aZero == now && clock.curTrans.bZero == old(Forward(clock.curTrans, now)))
    }

    method ApplySlew(now: int)
      requires Ready()
      requires if curCorrection == tgtCorrection then Valid() else tgtCorrection == Truncate(controller.co * 327.66)
      modifies this`curCorrection, this`applied, clock
      ensures Valid()
      ensures old(curCorrection) == tgtCorrection ==> clock.curTrans == old(clock.curTrans) && applied == old(applied)
      ensures old(curCorrection) != tgtCorrection ==> Applies(now, controller.co)
      ensures clock.valid == old(clock.valid) && NoJump(now)
      ensures !clock.valid && old(clock.curTrans.aZero == 0 == clock.curTrans.bZero) ==>
                clock.curTrans.aZero == 0 == clock.curTrans.bZero
    {
      hide SlewsAlways, RunsAt, Reduce;
      if curCorrection != tgtCorrection {
        curCorrection := tgtCorrection;
        var ppm := Truncate(controller.co);
        TruncateInRange(controller.co, 100);
        AlwaysUsable(freq, ppm);
        SlewedRunsAt(clock.curTrans, freq, clock.freqNumer, clock.freqDenom, now, ppm);
        if clock.valid {
          SlewIsContinuous(clock.curTrans, clock.freqNumer, clock.freqDenom, now, ppm);
        }
        clock.SetSlew(now, ppm);
        applied := controller.co;
      }
    }

    /** A new target takes effect at once, and an unchanged one leaves the clock alone. */
    method SetTargetCorrection(tgt: int, now: int)
      requires Valid() && tgt == Truncate(controller.co * 327.66)
      modifies this`curCorrection, this`tgtCorrection, this`applied, clock
      ensures Valid() && tgtCorrection == tgt
      ensures clock.valid == old(clock.valid) && NoJump(now)
      ensures tgt == old(tgtCorrection) ==> clock.curTrans == old(clock.curTrans) && applied == old(applied)
      ensures tgt != old(tgtCorrection) ==> Applies(now, controller.co)
    {
      hide RunsAt, SlewsAlways, Reduce;
      if tgtCorrection != tgt {
        tgtCorrection := tgt;
        ApplySlew(now);
      }
    }

    /** Forget the filter; with position the clock's basis too, with frequency the correction too. */
    method Reset(position: bool, frequency: bool, now: int)
      requires Valid()
      modifies this, clock
      ensures Valid() && Window() == []
      ensures position ==> !clock.valid && startupWr == 0
      ensures !position ==> clock.valid == old(clock.valid) && startupWr == old(startupWr) && NoJump(now)
      ensures frequency ==> controller == Controller(0.0, 0.0, 0.0) && lastErrorEstimate == None
                            && tgtCorrection == 0 == curCorrection && RunsAt(clock.curTrans, freq, 0)
      ensures !frequency ==> controller == old(controller) && lastErrorEstimate == old(lastErrorEstimate)
    {
      hide RunsAt, SlewsAlways, Reduce;
      if position {
        ghost var before := clock.curTrans;
        clock.ResetBasis();
        SameRate(before, clock.curTrans, freq, Truncate(applied));
        startupWr := 0;
      }
      if frequency {
        lastErrorEstimate := None;
        controller := Controller(0.0, 0.0, 0.0);
        SetTargetCorrection(0, now);
        ApplySlew(now);
        NoCorrectionNoRate(applied);
      }
      filterWr, filterFull := 0, false;
    }

    /** Put a point into the ring. */
    method Record(point: Point) returns (current: nat, scanEnd: nat)
      requires Valid()
      modifies filter, this`filterWr, this`filterFull
      ensures Valid() && Window() == Last(old(Window()) + [point], FILTER_SIZE)
      ensures current < scanEnd <= FILTER_SIZE && filter[current] == point
      ensures current == old(filterWr) && filter[..] == old(filter[..])[current := point]
      ensures scanEnd == if old(filterFull) || current + 1 == FILTER_SIZE then FILTER_SIZE else current + 1
    {
      RingPut(filter[..], filterWr, filterFull, point);
      current := filterWr;
      filter[filterWr] := point;
      filterWr := (filterWr + 1) % FILTER_SIZE;
      if filterWr == 0 {
        filterFull := true;
      }
      scanEnd := if filterFull then FILTER_SIZE else filterWr;
    }

    /** Collect a startup point; the fourth one gives the clock its basis, from the best of them. */
    method CollectStartup(point: Point)
      requires Valid() && !clock.valid
      modifies this`startupWr, startup, clock
      ensures Valid()
      ensures old(startupWr) < STARTUP_FILTER_SIZE ==>
                startupWr == old(startupWr) + 1 && startup[..startupWr] == old(startup[..startupWr]) + [point]
      ensures old(startupWr) == STARTUP_FILTER_SIZE ==> startup[..] == old(startup[..]) && startupWr == old(startupWr)
      ensures clock.valid <==> startupWr == STARTUP_FILTER_SIZE
      ensures clock.valid ==> exists best | 0 <= best < STARTUP_FILTER_SIZE ::
                && (forall i | 0 <= i < STARTUP_FILTER_SIZE :: startup[best].rtt <= startup[i].rtt)
                && (forall i | 0 <= i < best :: startup[best].rtt < startup[i].rtt)
                && Forward(clock.curTrans, startup[best].localTime) == startup[best].nominal
    {
      if startupWr < STARTUP_FILTER_SIZE {
        startup[startupWr] := point;
        startupWr := startupWr + 1;
      }
      if startupWr == STARTUP_FILTER_SIZE {
        var min := FindMinRttNdx(startup, STARTUP_FILTER_SIZE);
        clock.SetBasis(startup[min].localTime, startup[min].nominal);
      }
    }

    /** pushDisciplineEvent. now is the local time at which a new rate takes effect.
      * Without a basis points are collected, and the fourth makes the clock read right at the first best
      * of the four. With one, the clock never jumps, and the call fails exactly on a point that steers
      * and whose error panics. */
    method PushDisciplineEvent(localTime: int, nominal: int, rtt: int, now: int) returns (ok: bool)
      requires Valid()
      modifies this, clock, filter, startup
      ensures Valid()
      ensures !old(clock.valid) ==> (
        && ok && controller == old(controller)
        && (old(startupWr) < 4 ==>
              startup[..startupWr] == old(startup[..startupWr]) + [Point(localTime, 0, nominal, rtt)])
        && (clock.valid <==> startupWr == 4)
        && (clock.valid ==> exists best | 0 <= best < 4 ::
              && (forall i | 0 <= i < 4 :: startup[best].rtt <= startup[i].rtt)
              && (forall i | 0 <= i < best :: startup[best].rtt < startup[i].rtt)
              && Forward(clock.curTrans, startup[best].localTime) == startup[best].nominal))
      ensures old(clock.valid) ==>
        Disciplined(old(Window()), old(filterWr), Point(localTime, old(Forward(clock.curTrans, localTime)), nominal, rtt),
                    old(controller), ok, Window(), controller)
      ensures old(clock.valid) ==> NoJump(now) && Steered(now, ok)
    {
      hide RunsAt, SlewsAlways, Reduce, Forward;
      var observed := clock.LocalToCommon(localTime);
      if observed.None? {
        CollectStartup(Point(localTime, 0, nominal, rtt));
        return true;
      }
      ok := Discipline(Point(localTime, observed.value, nominal, rtt), now);
    }

    /** What a disciplining event does to the rate.  A point that is accepted leaves the correction for the new
      * controller output in force: a correction that differs from the one before slews the clock by that many
      * parts per million from now on, and the same one leaves the clock alone.  After a panic the clock runs at its
      * nominal rate. */
    twostate predicate Steered(now: int, ok: bool)
      reads this, clock
      requires old(clock.Valid())
    {
      && curCorrection == tgtCorrection
      && if ok then
           && tgtCorrection == Truncate(controller.co * 327.66)
           && if tgtCorrection == old(tgtCorrection) then clock.curTrans == old(clock.curTrans)
              else Applies(now, controller.co)
         else tgtCorrection == 0 && RunsAt(clock.curTrans, freq, 0)
    }

    method Discipline(point: Point, now: int) returns (ok: bool)
      requires Valid() && clock.valid
      modifies this, clock, filter
      ensures Valid() && NoJump(now) && Steered(now, ok)
      ensures Disciplined(old(Window()), old(filterWr), point, old(controller), ok, Window(), controller)
      ensures lastErrorEstimate ==
                if !ok then None
                else if Steers(old(Window()), old(filterWr), point.rtt) then Some(point.nominal - point.observed)
                else old(lastErrorEstimate)
    {
      hide Steers, RunsAt, SlewsAlways, Reduce, PiStep, Truncate, Forward;
      var steers := Considered(point);
      var delta := point.nominal - point.observed;
      if steers {
        lastErrorEstimate := Some(delta);
        if delta > PANIC_THRESHOLD + point.rtt || delta < -(PANIC_THRESHOLD + point.rtt) {
          Reset(false, true, now);
          return false;
        }
        StepFromRest(delta as real);
        StepInRange(controller, delta as real);
        controller := PiStep(controller, delta as real);
      } else {
        StepInRange(controller, Extrapolate(controller));
        controller := PiStep(controller, Extrapolate(controller));
      }
      var correction := Truncate(controller.co * 327.66);
      SetTargetCorrection(correction, now);
      return true;
    }

    /** Record a point and decide whether it steers the clock. */
    method Considered(point: Point) returns (steers: bool)
      requires Valid()
      modifies filter, this`filterWr, this`filterFull
      ensures Valid() && Window() == Last(old(Window()) + [point], FILTER_SIZE)
      ensures steers <==> Steers(old(Window()), old(filterWr), point.rtt)
    {
      ghost var ring, full := filter[..], filterFull;
      var current, scanEnd := Record(point);
      var min := FindMinRttNdx(filter, scanEnd);
      LeastInRing(ring, current, full, point, filter[..], scanEnd, min);
      steers := current == min || point.rtt < CONTROL_THRESHOLD;
    }

    method RoundTripInCommonTime(rtt: int) returns (common: int)
      requires Valid()
      ensures common == Forward(clock.durationTrans, rtt)
      ensures freq == COMMON_FREQ ==> common == rtt
    {
      hide Reduce, SlewsAlways;
      common := clock.LocalDurationToCommonDuration(rtt);
      ReduceSame(COMMON_FREQ);
    }

    /** The client's use of one sync exchange: it sent at t1 and received at t4 by its local clock, the
      * master received at m1 and answered at m2.  Whatever the delays d1 and d2 of the two ways were, on
      * clocks of the same rate - so that local ticks are microseconds, too - a failure means that the common
      * clock, at the middle of the exchange, was wrong by more than the threshold plus half the round trip;
      * and an error beyond the threshold plus one and a half round trips fails if the point steers at all. */
    method HandleExchange(t1: int, m1: int, m2: int, t4: int, now: int,
                          ghost offset: int, ghost d1: nat, ghost processing: nat, ghost d2: nat)
      returns (ok: bool)
      requires Valid()
      requires m1 == t1 + d1 + offset && m2 == m1 + processing && t4 == t1 + d1 + processing + d2
      modifies this, clock, filter, startup
      ensures Valid()
      ensures freq == COMMON_FREQ ==>
                var actual := old(Midpoint(t1, t4) + offset - Forward(clock.curTrans, Midpoint(t1, t4)));
                && (!ok ==> old(clock.valid) && BeyondDoubt(t4 - t1, actual))
                && (old(clock.valid && Steers(Window(), filterWr, t4 - t1)) && FarBeyond(t4 - t1, actual) ==> !ok)
    {
      hide Forward, Reduce, SlewsAlways;
      var (local, nominal, rtt) := ExchangePoint(t1, m1, m2, t4);
      PanicMeansRealError(t1, offset, d1, processing, d2, Forward(clock.curTrans, local));
      var rttCommon := RoundTripInCommonTime(rtt);
      ok := PushDisciplineEvent(local, nominal, rttCommon, now);
    }
  }

  lemma ReduceSame(n: nat)
    requires n > 0
    ensures Reduce(n, n) == (1, 1)
  {
    ReduceFacts(n, n);
  }

  /** A clock of any frequency below 2^32 Hz can be set up and disciplined. */
  method StartRecovery(localFreq: nat) returns (loop: ClockRecoveryLoop)
    requires 0 < localFreq < 0x1_0000_0000
    ensures fresh(loop) && fresh(loop.clock) && loop.Valid() && loop.freq == localFreq
    ensures !loop.clock.valid && loop.Window() == [] && loop.startupWr == 0
  {
    hide Reduce, SlewsAlways, KeepsARate;
    var clock := new Clock();
    SlowClocksSlewAlways(localFreq);
    SlowClocksSlewExactly(localFreq, 0);
    var ok := clock.Init(localFreq);
    loop := new ClockRecoveryLoop(clock, localFreq);
  }

  /** An error that exceeds the threshold plus half a round trip (up to half a microsecond). */
  predicate BeyondDoubt(rtt: int, actual: int) {
    2 * actual > 100000 + rtt - 1 || 2 * actual < -(100000 + rtt - 1)
  }

  /** One that exceeds it by a whole round trip more. */
  predicate FarBeyond(rtt: int, actual: int) {
    2 * actual > 100000 + 3 * rtt + 1 || 2 * actual < -(100000 + 3 * rtt + 1)
  }

  /** What one disciplining step does to the window and the controller, and when it fails. */
  ghost predicate Disciplined(window: seq<Point>, recent: nat, point: Point, before: Controller,
                              ok: bool, window': seq<Point>, after: Controller)
  {
    var delta, steers := point.nominal - point.observed, Steers(window, recent, point.rtt);
    && ok == !(steers && (delta > 50000 + point.rtt || delta < -(50000 + point.rtt)))
    && if !ok then window' == [] && after == Controller(0.0, 0.0, 0.0)
       else
         && window' == Last(window + [point], 16)
         && after == PiStep(before, if steers then delta as real else before.lastDelta - (before.co - before.coBias))
         && -100.0 <= after.co <= 100.0
         && (steers && before == AT_REST ==> (after.co > 0.0 <==> delta > 0) && (after.co < 0.0 <==> delta < 0))
  }
}
