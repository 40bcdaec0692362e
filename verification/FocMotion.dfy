/** What the field-oriented controller measures and commands: exact output voltages, arithmetic that fits
    its 32-bit variables, speed from net movement, position targets modulo one revolution. */
module FocMotion {
  import opened Arith
  import opened FocVector
  import opened FocAngle
  import opened FocSpec

  // ----- output voltages -----

  /** The voltage the current controllers request at a sample. */
  function RequestedVoltage(f: Foc, a: Count, b: Count, c: Count, tick: Word32): Voltage {
    RegulatedBy(f.loops, MeasuredCurrent(a, b, c, PredictedAngle(f.encoder, tick))).voltage
  }

  /** Every current sample that keeps a running motor running drives it at the predicted angle, which the state
      reports, with the exact line voltages of the requested voltage put inside the circle. */
  lemma RunningOutputIsExact(f: Foc, a: Count, b: Count, c: Count, tick: Word32)
    requires f.state == Running && CurrentSample(f, a, b, c, tick).state == Running
    ensures var g := CurrentSample(f, a, b, c, tick);
            var u := LoopOutput(RequestedVoltage(f, a, b, c, tick), g.predicted);
            g.predicted == PredictedAngle(f.encoder, tick) && g.stage.compares == PwmFor(u) &&
            KeepsLineVoltages(g.stage.compares, InverseClarke(u))
  {
    hide MeasuredCurrent, LoopOutput, PwmFor, KeepsLineVoltages, InRange, InverseClarke, Injected, Regulate, OverLimit;
    var g := Counted(f, a, b, c);
    var angle := PredictedAngle(g.encoder, tick);
    var i := MeasuredCurrent(a, b, c, angle);
    assert CurrentSample(f, a, b, c, tick) == Driven(g, angle, i, RegulatedBy(g.loops, i));
    CurrentLoopNeverClamps(RegulatedBy(g.loops, i).voltage, angle);
  }

  // ----- current measurement -----

  predicate Fits32(x: int) {
    -0x8000_0000 <= x < 0x8000_0000
  }

  lemma ProductBound(x: int, y: int, m: nat, n: nat)
    requires Abs(x) <= m && Abs(y) <= n
    ensures Abs(x * y) <= m * n
  {
    assert Abs(x * y) == Abs(x) * Abs(y);
    BoundedProduct(Abs(y), Abs(x), m);
    BoundedProduct(m, Abs(y), n);
  }

  lemma SineBound(angle: Word16)
    ensures Abs(SinQ15(angle)) <= Q15 && Abs(CosQ15(angle)) <= Q15
  {
    var s, c := SinQ15(angle), CosQ15(angle);
    SineCosineInCircle(angle);
    NonNegativeSquare(s);
    NonNegativeSquare(c);
    RootBound(s, Q15);
    RootBound(c, Q15);
  }

  const ALPHA_BOUND: nat := 8190
  const BETA_BOUND: nat := 4729
  const CURRENT_BOUND: nat := 12919

  /** The difference of two 12-bit conversions. */
  type Delta = x: int | -4095 <= x <= 4095

  lemma ClarkeBound(a: Delta, b: Delta, c: Delta)
    ensures Abs(a - TruncDiv(a + b + c, 3)) <= ALPHA_BOUND && Fits32((b - c) * 18919)
    ensures Abs(((b - c) * 18919) / Q15) <= BETA_BOUND
  {
  }

  lemma ParkBound(alpha: int, beta: int, s: int, k: int)
    requires Abs(alpha) <= ALPHA_BOUND && Abs(beta) <= BETA_BOUND && Abs(s) <= Q15 && Abs(k) <= Q15
    ensures Abs(alpha * k + beta * s) <= CURRENT_BOUND * Q15 && Abs(-alpha * s + beta * k) <= CURRENT_BOUND * Q15
  {
    ProductBound(alpha, k, ALPHA_BOUND, Q15);
    ProductBound(beta, s, BETA_BOUND, Q15);
    ProductBound(-alpha, s, ALPHA_BOUND, Q15);
    ProductBound(beta, k, BETA_BOUND, Q15);
  }

  /** The products of the inverse transforms for a limited and shifted voltage. */
  predicate OutputFits(w: Voltage, angle: Word16) {
    var s, c, u := SinQ15(angle), CosQ15(angle), InversePark(w, angle);
    Fits32(w.d * c) && Fits32(w.q * s) && Fits32(w.d * c - w.q * s) &&
    Fits32(w.d * s) && Fits32(w.q * c) && Fits32(w.d * s + w.q * c) && Fits32(u.beta * 28378)
  }

  lemma LimitedAxes(v: Voltage)
    ensures var w := FromQ8(Limited(v)); Abs(w.d) <= MAXIMUM_VOLTAGE && Abs(w.q) <= MAXIMUM_VOLTAGE
  {
    hide FromQ8, Limited;
    var w := FromQ8(Limited(v));
    LimitedVoltage(v);
    NonNegativeSquare(w.d);
    NonNegativeSquare(w.q);
    RootBound(w.d, MAXIMUM_VOLTAGE);
    RootBound(w.q, MAXIMUM_VOLTAGE);
  }

  lemma LimitedOutputFits(v: Voltage, angle: Word16)
    ensures OutputFits(FromQ8(Limited(v)), angle)
  {
    hide FromQ8, Limited, SinQ15, CosQ15;
    var w, s, c := FromQ8(Limited(v)), SinQ15(angle), CosQ15(angle);
    LimitedAxes(v);
    SineBound(angle);
    ProductBound(w.d, c, MAXIMUM_VOLTAGE, Q15);
    ProductBound(w.q, s, MAXIMUM_VOLTAGE, Q15);
    ProductBound(w.d, s, MAXIMUM_VOLTAGE, Q15);
    ProductBound(w.q, c, MAXIMUM_VOLTAGE, Q15);
    LimitedVoltage(v);
    RotatedInBounds(w, angle);
  }

  /** For every reading a 12-bit converter can deliver, the transforms, the controller products and the inverse
      transforms fit in 32 bits, so nothing in the interrupt overflows. */
  lemma CurrentArithmeticFits(a: Delta, b: Delta, c: Delta, angle: Word16, iqReference: int, dIntegral: int,
                              qIntegral: int)
    requires Abs(iqReference) <= IQ_LIMIT
    requires Abs(dIntegral) <= CURRENT_INTEGRAL_LIMIT && Abs(qIntegral) <= CURRENT_INTEGRAL_LIMIT
    ensures var i := MeasuredCurrent(a, b, c, angle);
            Abs(i.d) <= CURRENT_BOUND && Abs(i.q) <= CURRENT_BOUND &&
            RequestFits(Request(-i.d, iqReference - i.q, dIntegral, qIntegral)) &&
            OutputFits(FromQ8(Limited(Request(-i.d, iqReference - i.q, dIntegral, qIntegral))), angle)
  {
    hide OutputFits;
    MeasurementBound(a, b, c, angle);
    LimitedOutputFits(Request(-MeasuredCurrent(a, b, c, angle).d, iqReference - MeasuredCurrent(a, b, c, angle).q,
                              dIntegral, qIntegral), angle);
    BoundedRequestFits(MeasuredCurrent(a, b, c, angle), iqReference, dIntegral, qIntegral);
  }

  predicate RequestFits(v: Voltage) {
    Fits32(v.d) && Fits32(v.q) && Fits32(Magnitude(v))
  }

  lemma BoundedRequestFits(i: Current, iqReference: int, dIntegral: int, qIntegral: int)
    requires Abs(i.d) <= CURRENT_BOUND && Abs(i.q) <= CURRENT_BOUND && Abs(iqReference) <= IQ_LIMIT
    requires Abs(dIntegral) <= CURRENT_INTEGRAL_LIMIT && Abs(qIntegral) <= CURRENT_INTEGRAL_LIMIT
    ensures RequestFits(Request(-i.d, iqReference - i.q, dIntegral, qIntegral))
  {
  }

  lemma MeasurementBound(a: Delta, b: Delta, c: Delta, angle: Word16)
    ensures var i := MeasuredCurrent(a, b, c, angle); Abs(i.d) <= CURRENT_BOUND && Abs(i.q) <= CURRENT_BOUND
  {
    ClarkeBound(a, b, c);
    SineBound(angle);
    MeasuredBound(a - TruncDiv(a + b + c, 3), ((b - c) * 18919) / Q15, SinQ15(angle), CosQ15(angle));
  }

  lemma MeasuredBound(alpha: int, beta: int, s: int, k: int)
    requires Abs(alpha) <= ALPHA_BOUND && Abs(beta) <= BETA_BOUND && Abs(s) <= Q15 && Abs(k) <= Q15
    ensures Abs(Park(alpha, beta, s, k).d) <= CURRENT_BOUND && Abs(Park(alpha, beta, s, k).q) <= CURRENT_BOUND
  {
    ParkBound(alpha, beta, s, k);
    ShiftedBound(alpha * k + beta * s, CURRENT_BOUND);
    ShiftedBound(-alpha * s + beta * k, CURRENT_BOUND);
  }

  lemma ShiftedThird(s: int, k: int)
    ensures -1 <= TruncDiv(s + 3 * k, 3) - TruncDiv(s, 3) - k <= 1
  {
  }

  lemma ShiftedQuotient(x: int, y: int)
    requires Abs(x - y) <= Q15
    ensures -1 <= x / Q15 - y / Q15 <= 1
  {
  }

  lemma UnitProduct(e: int, s: int)
    requires -1 <= e <= 1 && Abs(s) <= Q15
    ensures Abs(e * s) <= Q15
  {
  }

  lemma ParkShift(alpha: int, moved: int, beta: int, s: int, k: int)
    requires -1 <= moved - alpha <= 1 && Abs(s) <= Q15 && Abs(k) <= Q15
    ensures var i, j := Park(alpha, beta, s, k), Park(moved, beta, s, k); Abs(i.d - j.d) <= 1 && Abs(i.q - j.q) <= 1
  {
    ProductShift(alpha, moved, k);
    ProductShift(alpha, moved, s);
    assert -moved * s == -(moved * s) && -alpha * s == -(alpha * s);
    ShiftedQuotient(moved * k + beta * s, alpha * k + beta * s);
    ShiftedQuotient(-moved * s + beta * k, -alpha * s + beta * k);
  }

  lemma ProductShift(alpha: int, moved: int, s: int)
    requires -1 <= moved - alpha <= 1 && Abs(s) <= Q15
    ensures Abs(moved * s - alpha * s) <= Q15
  {
    var e := moved - alpha;
    UnitProduct(e, s);
    assert moved * s == alpha * s + e * s;
  }

  /** A current common to all three phases does not count: the measured vector moves by at most one unit. */
  lemma CommonModeRejected(a: Count, b: Count, c: Count, k: int, a1: Count, b1: Count, c1: Count, angle: Word16)
    requires a1 == a + k && b1 == b + k && c1 == c + k
    ensures var i, j := MeasuredCurrent(a, b, c, angle), MeasuredCurrent(a1, b1, c1, angle);
            Abs(i.d - j.d) <= 1 && Abs(i.q - j.q) <= 1
  {
    hide SinQ15, CosQ15, Park;
    ShiftedThird(a + b + c, k);
    SineBound(angle);
    assert b1 - c1 == b - c && a1 + b1 + c1 == a + b + c + 3 * k;
    ParkShift(a - TruncDiv(a + b + c, 3), a1 - TruncDiv(a1 + b1 + c1, 3), ((b - c) * 18919) / Q15, SinQ15(angle),
              CosQ15(angle));
  }

  // ----- position control -----

  /** The speed command points at the target, is zero exactly in the direct zone, never exceeds its limit and
      never falls as the error grows. */
  lemma PositionSpeedPoints(error: int)
    ensures PositionSpeed(error) == 0 <==> Abs(error) <= POSITION_DIRECT_ZONE
    ensures Abs(PositionSpeed(error)) <= POSITION_SPEED_LIMIT && PositionSpeed(-error) == -PositionSpeed(error)
    ensures error > POSITION_DIRECT_ZONE ==> PositionSpeed(error) > 0
  {
  }

  lemma PositionSpeedMonotone(e1: int, e2: int)
    requires e1 <= e2
    ensures PositionSpeed(e1) <= PositionSpeed(e2)
  {
  }

  /** Moving the target by degrees is exact modulo one revolution, however far and in either direction. */
  lemma MovedTargetIsModular(position: Raw14, degrees: Int32)
    ensures MovedTarget(position, degrees) ==
            (position + TruncDiv(degrees * COUNTS_PER_REVOLUTION, 360)) % COUNTS_PER_REVOLUTION
  {
    var counts := TruncDiv(degrees * COUNTS_PER_REVOLUTION, 360);
    var narrow := ToInt32(counts);
    assert narrow == counts - 0x1_0000_0000 * ((counts - narrow) / 0x1_0000_0000);
    var sum := position + narrow;
    assert Wrap32(sum) == sum - 0x1_0000_0000 * (sum / 0x1_0000_0000);
    var k := (counts - narrow) / 0x1_0000_0000 + sum / 0x1_0000_0000;
    SameCounts(Wrap32(sum), position + counts, -k * 262144);
  }

  lemma SameCounts(x: int, y: int, turns: int)
    requires x == y + turns * COUNTS_PER_REVOLUTION
    ensures x % COUNTS_PER_REVOLUTION == y % COUNTS_PER_REVOLUTION
  {
  }

  /** Whole turns bring the target back to where it was. */
  lemma FullTurnsReturn(position: Raw14, turns: int)
    requires Fits32(360 * turns)
    ensures MovedTarget(position, 360 * turns) == position
  {
    MovedTargetIsModular(position, 360 * turns);
    assert TruncDiv(360 * turns * COUNTS_PER_REVOLUTION, 360) == turns * COUNTS_PER_REVOLUTION;
    SameCounts(position + turns * COUNTS_PER_REVOLUTION, position, turns);
  }

  // ----- electrical angle -----

  /** The angle in use is that of the last reading under the stored offset. */
  predicate AngleTracked(f: Foc) {
    f.encoder.angle == ElectricalAngle(f.encoder.raw, f.encoder.offset)
  }

  /** The two events that set the offset. */
  predicate SetsOffset(e: Event) {
    e.DoInitialize? || e.DoFinishAlignment?
  }

  lemma TrackedStep(f: Foc, e: Event)
    requires AngleTracked(f)
    ensures AngleTracked(Step(f, e))
    ensures !SetsOffset(e) ==> Step(f, e).encoder.offset == f.encoder.offset
  {
  }

  /** Over every run the angle stays that of the last reading, and the offset stays as the last alignment left it. */
  lemma {:induction false} TrackedRun(f: Foc, events: seq<Event>)
    requires AngleTracked(f)
    ensures AngleTracked(Run(f, events))
    ensures (forall i :: 0 <= i < |events| ==> !SetsOffset(events[i])) ==>
            Run(f, events).encoder.offset == f.encoder.offset
    decreases |events|
  {
    if events != [] {
      TrackedStep(f, events[0]);
      TrackedRun(Step(f, events[0]), events[1..]);
    }
  }

  /** The controller once an alignment with the shaft at `start` has succeeded. */
  function AlignedAt(f: Foc, start: int, tick: Word32): Foc {
    FinishAlignment(f, RawAt(start), tick, false)
  }

  lemma AlignmentTracks(f: Foc, start: int, tick: Word32)
    requires f.state == Aligning
    ensures AngleTracked(AlignedAt(f, start, tick)) &&
            AlignedAt(f, start, tick).encoder.offset == AlignmentOffset(RawAt(start))
  {
    hide AlignmentOffset, ElectricalAngle;
    assert RawAt(start) % 0x4000 == RawAt(start);
  }

  /** After an alignment at `start`, whatever happens short of another alignment or an initialisation, the angle
      is 56 units per count of shaft movement since, through every encoder wrap. */
  lemma AngleFollowsRun(f: Foc, start: int, tick: Word32, events: seq<Event>, position: int)
    requires f.state == Aligning && forall i :: 0 <= i < |events| ==> !SetsOffset(events[i])
    requires Run(AlignedAt(f, start, tick), events).encoder.raw == RawAt(position)
    ensures Run(AlignedAt(f, start, tick), events).encoder.angle == (56 * (position - start)) % 0x1_0000
  {
    hide AlignmentOffset, ElectricalAngle, AlignedAt;
    var g := AlignedAt(f, start, tick);
    AlignmentTracks(f, start, tick);
    TrackedRun(g, events);
    AngleFollowsShaft(start, position);
  }

  /** A valid sample is taken up unless the motor runs and the tick is the last sample's. */
  lemma SampleIsTaken(f: Foc, position: int, tick: Word32)
    requires f.state != Running || !f.encoder.ready || tick != f.encoder.previousTick
    ensures Step(f, DoEncoderSample(RawAt(position), true, tick)).encoder.raw == RawAt(position)
  {
    assert RawAt(position) % 0x4000 == RawAt(position);
  }

  lemma {:induction false} RunAppend(f: Foc, events: seq<Event>, e: Event)
    ensures Run(f, events + [e]) == Step(Run(f, events), e)
    decreases |events|
  {
    if events == [] {
      assert [] + [e] == [e] && [e][1..] == [];
    } else {
      assert (events + [e])[1..] == events[1..] + [e];
      RunAppend(Step(f, events[0]), events[1..], e);
    }
  }

  /** So from one reading to the next the angle moves exactly with the shaft, also where the encoder wraps. */
  lemma AngleIsContinuous(f: Foc, start: int, tick: Word32, events: seq<Event>, p1: int, e: Event, p2: int)
    requires f.state == Aligning && (forall i :: 0 <= i < |events| ==> !SetsOffset(events[i])) && !SetsOffset(e)
    requires var h := Run(AlignedAt(f, start, tick), events);
             h.encoder.raw == RawAt(p1) && Step(h, e).encoder.raw == RawAt(p2)
    ensures var h := Run(AlignedAt(f, start, tick), events);
            Step(h, e).encoder.angle == (h.encoder.angle + 56 * (p2 - p1)) % 0x1_0000
  {
    hide Step, AlignedAt, RawAt, SetsOffset;
    AngleFollowsRun(f, start, tick, events, p1);
    RunAppend(AlignedAt(f, start, tick), events, e);
    AngleFollowsRun(f, start, tick, events + [e], p2);
    var x := 56 * (p1 - start);
    SameAngle(56 * (p2 - start), x % 0x1_0000 + 56 * (p2 - p1), x / 0x1_0000);
  }

  // ----- speed measurement -----

  /** A sample of the shaft at a true position and a true time. */
  datatype Sample = Sample(position: int, tick: nat)

  function Reading(s: Sample): Event {
    DoEncoderSample(RawAt(s.position), true, Wrap32(s.tick))
  }

  function Readings(samples: seq<Sample>): seq<Event> {
    seq(|samples|, i requires 0 <= i < |samples| => Reading(samples[i]))
  }

  /** The controller last saw the shaft at sample `s`. */
  predicate SeenAt(f: Foc, s: Sample) {
    f.state == Running && f.encoder.ready && f.encoder.previousRaw == RawAt(s.position) &&
    f.encoder.previousTick == Wrap32(s.tick)
  }

  /** Later, and less than half a turn away. */
  predicate Follows(s: Sample, next: Sample) {
    s.tick < next.tick < s.tick + 0x8000_0000 && -8192 <= next.position - s.position <= 8191
  }

  lemma OneReading(f: Foc, s: Sample, next: Sample)
    requires SeenAt(f, s) && Follows(s, next)
    ensures var g := Step(f, Reading(next));
            SeenAt(g, next) && g == RunningSample(f, RawAt(next.position), Wrap32(next.tick), next.tick - s.tick)
    ensures Accumulated(f, RawAt(next.position), next.tick - s.tick) ==
            f.loops.(windowDelta := f.loops.windowDelta + (next.position - s.position),
                     windowTicks := Wrap32(f.loops.windowTicks + (next.tick - s.tick)))
  {
    WrappedElapsed(s.tick, next.tick);
    DifferenceIsMovement(s.position, next.position);
    assert RawAt(next.position) % 0x4000 == RawAt(next.position);
  }

  lemma PartialWindow(f: Foc, raw: Raw14, tick: Word32, elapsed: Word32)
    requires Accumulated(f, raw, elapsed).windowTicks < SPEED_WINDOW_TICKS
    ensures RunningSample(f, raw, tick, elapsed).loops == Accumulated(f, raw, elapsed)
  {
  }

  lemma ReadingInsideWindow(f: Foc, s: Sample, next: Sample)
    requires SeenAt(f, s) && Follows(s, next) && f.loops.windowTicks + (next.tick - s.tick) < SPEED_WINDOW_TICKS
    ensures var g := Step(f, Reading(next));
            SeenAt(g, next) && g.loops == f.loops.(windowDelta := f.loops.windowDelta + (next.position - s.position),
                                                   windowTicks := f.loops.windowTicks + (next.tick - s.tick))
  {
    hide Step, RunningSample, Accumulated, SeenAt, RawAt;
    OneReading(f, s, next);
    var ticks := f.loops.windowTicks + (next.tick - s.tick);
    assert Wrap32(ticks) == ticks;
    PartialWindow(f, RawAt(next.position), Wrap32(next.tick), next.tick - s.tick);
  }

  /** Each sample follows the one before it, and the first follows `s`. */
  predicate Chain(s: Sample, samples: seq<Sample>)
    decreases |samples|
  {
    samples == [] || (Follows(s, samples[0]) && Chain(samples[0], samples[1..]))
  }

  function Last(s: Sample, samples: seq<Sample>): Sample {
    if samples == [] then s else samples[|samples| - 1]
  }

  lemma {:induction false} LaterThan(s: Sample, samples: seq<Sample>)
    requires Chain(s, samples)
    ensures s.tick <= Last(s, samples).tick
    decreases |samples|
  {
    if samples != [] {
      LaterThan(samples[0], samples[1..]);
      assert Last(samples[0], samples[1..]) == Last(s, samples);
    }
  }

  /** Inside one window the accumulator is the net movement of the shaft and the true time it took,
      however many samples there were and wherever the encoder wrapped. */
  lemma {:induction false} WindowIsNetMovement(f: Foc, s: Sample, samples: seq<Sample>)
    requires SeenAt(f, s) && Chain(s, samples)
    requires f.loops.windowTicks + (Last(s, samples).tick - s.tick) < SPEED_WINDOW_TICKS
    ensures var g, last := Run(f, Readings(samples)), Last(s, samples);
            SeenAt(g, last) && g.loops.windowDelta == f.loops.windowDelta + (last.position - s.position) &&
            g.loops.windowTicks == f.loops.windowTicks + (last.tick - s.tick) &&
            g.loops.measuredRpm == f.loops.measuredRpm
    decreases |samples|
  {
    if samples == [] {
      assert Readings(samples) == [];
    } else {
      var first, rest := samples[0], samples[1..];
      LaterThan(first, rest);
      assert Last(first, rest) == Last(s, samples);
      ReadingInsideWindow(f, s, first);
      assert Readings(samples)[0] == Reading(first) && Readings(samples)[1..] == Readings(rest);
      WindowIsNetMovement(Step(f, Reading(first)), first, rest);
    }
  }

  /** When a window closes, the new speed is one filter step toward the net movement over the true time. */
  lemma ClosedWindowSpeed(f: Foc, s: Sample, next: Sample)
    requires SeenAt(f, s) && Follows(s, next) && f.loops.windowTicks + (next.tick - s.tick) < 0x1_0000_0000
    requires f.loops.windowTicks + (next.tick - s.tick) >= SPEED_WINDOW_TICKS
    ensures var g := Step(f, Reading(next));
            var ticks := f.loops.windowTicks + (next.tick - s.tick);
            g.loops.measuredRpm ==
              Approach(f.loops.measuredRpm, WindowRpm(f.loops.windowDelta + (next.position - s.position), ticks)) &&
            g.loops.windowDelta == 0 && g.loops.windowTicks == 0
  {
    hide WindowRpm, Approach, OuterControllers, Step, SeenAt, RawAt;
    OneReading(f, s, next);
    var closed := CloseWindow(Accumulated(f, RawAt(next.position), next.tick - s.tick));
    OuterKeepMeasurement(closed, RawAt(next.position));
  }

  lemma OuterKeepMeasurement(l: Loops, raw: Raw14)
    ensures var o := OuterControllers(l, raw);
            o.measuredRpm == l.measuredRpm && o.windowDelta == l.windowDelta && o.windowTicks == l.windowTicks
  {
  }
}
