/** What the field-oriented controller's samples and commands do, told in the source's own units: trips in counts,
    speeds in turns and ticks, angles ahead of the last reading, and when an encoder reading may be used at all. */
module FocStateLaws {
  import opened Arith
  import opened DivLemmas
  import opened FocVector
  import opened FocAngle
  import opened FocSpec
  import opened FocSafety
  import FocMotion
  import FocLaws

  // ----- the encoder's readiness over runs -----

  /** The encoder counts as ready exactly while running, and a velocity is held only then. */
  predicate ReadyWhileRunning(f: Foc) {
    (f.encoder.ready <==> f.state == Running) && (f.encoder.velocityReady ==> f.encoder.ready) &&
    (!f.encoder.velocityReady && f.encoder.ready ==> f.encoder.velocityQ16 == 0)
  }

  lemma SampleKeepsReadiness(f: Foc, raw: Word16, valid: bool, tick: Word32)
    requires ReadyWhileRunning(f)
    ensures ReadyWhileRunning(EncoderSample(f, raw, valid, tick))
  {
    hide NextVelocity, OuterControllers, CloseWindow, Accumulated, ElectricalAngle;
  }

  lemma CurrentKeepsReadiness(f: Foc, a: Count, b: Count, c: Count, tick: Word32)
    requires ReadyWhileRunning(f)
    ensures ReadyWhileRunning(CurrentSample(f, a, b, c, tick))
  {
    hide OverLimit, Stale, CurrentControl;
    var g := Counted(f, a, b, c);
    ControlKeepsEncoder(g, a, b, c, tick);
  }

  lemma ControlKeepsEncoder(f: Foc, a: Count, b: Count, c: Count, tick: Word32)
    ensures var g := CurrentControl(f, a, b, c, tick); g.encoder == f.encoder && g.state == f.state
  {
    hide PredictedAngle, MeasuredCurrent, RegulatedBy;
  }

  lemma StepKeepsReadiness(f: Foc, e: Event)
    requires ReadyWhileRunning(f)
    ensures ReadyWhileRunning(Step(f, e))
  {
    hide EncoderSample, CurrentSample, SpeedController, PositionController, PwmFor, ElectricalAngle;
    match e {
      case DoEncoderSample(raw, valid, tick) => SampleKeepsReadiness(f, raw, valid, tick);
      case DoCurrentSample(a, b, c, tick) => CurrentKeepsReadiness(f, a, b, c, tick);
      case _ =>
    }
  }

  /** Over every run after initialisation: no reading from before the last alignment is ever used, and the first
      velocity after it is taken unfiltered. */
  lemma {:induction false} RunKeepsReadiness(f: Foc, events: seq<Event>)
    requires ReadyWhileRunning(f)
    ensures ReadyWhileRunning(Run(f, events))
    decreases |events|
  {
    if events != [] {
      hide Step;
      StepKeepsReadiness(f, events[0]);
      RunKeepsReadiness(Step(f, events[0]), events[1..]);
    }
  }

  lemma InitialisedRunKeepsReadiness(f: Foc, events: seq<Event>)
    ensures ReadyWhileRunning(Run(f, [DoInitialize] + events))
  {
    assert ([DoInitialize] + events)[1..] == events;
    RunKeepsReadiness(Initialize(f), events);
  }

  // ----- current samples -----

  /** Some phase carries more than the hard limit, either way. */
  predicate SomePhaseOver(a: Count, b: Count, c: Count) {
    !(-298 <= a <= 298 && -298 <= b <= 298 && -298 <= c <= 298)
  }

  /** A sample with every phase within the limit starts the count over and never trips on current; the third in a row
      with some phase beyond it stops an active motor, whichever phase it is. */
  lemma PhaseTrips(f: Foc, a: Count, b: Count, c: Count, tick: Word32)
    requires FocSafety.Invariant(f) && f.Active()
    ensures var g := CurrentSample(f, a, b, c, tick);
            (SomePhaseOver(a, b, c) && f.loops.overcurrent == 2 ==>
               g.state == Fault && g.reason == Overcurrent && !g.stage.enabled) &&
            (SomePhaseOver(a, b, c) && f.loops.overcurrent < 2 ==> g.loops.overcurrent == f.loops.overcurrent + 1) &&
            (!SomePhaseOver(a, b, c) ==>
               g.loops.overcurrent == 0 && (f.reason != Overcurrent ==> g.reason != Overcurrent))
  {
    hide Stale, PredictedAngle, MeasuredCurrent, RegulatedBy, PwmFor, LoopOutput;
  }

  /** The angle used is that of the last reading carried on at the filtered velocity, for the true time since, but for
      at most 40 ticks; right after a reading it is the reading's own. */
  lemma PredictionCarriesOn(e: Encoder, elapsed: nat, tick: Word32, ahead: int)
    requires elapsed < 0x1_0000_0000 && tick == Wrap32(e.angleTick + elapsed)
    requires ahead * 0x1_0000 <= e.velocityQ16 * Min(elapsed, 40) < (ahead + 1) * 0x1_0000
    ensures PredictedAngle(e, tick) == (e.angle + ahead) % 0x1_0000
    ensures elapsed == 0 ==> PredictedAngle(e, tick) == e.angle
    ensures e.velocityQ16 > 0 ==> ahead >= 0
    ensures e.velocityQ16 < 0 && elapsed > 0 ==> ahead < 0
  {
    var ticks := Min(elapsed, 40);
    SameElapsed(e.angleTick, elapsed, tick);
    SignOfProduct(e.velocityQ16, ticks);
    assert (e.velocityQ16 * ticks) / 0x1_0000 == ahead;
  }

  lemma SameElapsed(start: Word32, elapsed: nat, tick: Word32)
    requires elapsed < 0x1_0000_0000 && tick == Wrap32(start + elapsed)
    ensures Wrap32(tick - start) == elapsed
  {
  }

  lemma SignOfProduct(v: int, n: nat)
    ensures v >= 0 ==> v * n >= 0
    ensures v < 0 && n > 0 ==> v * n < 0
    ensures n == 0 ==> v * n == 0
  {
  }

  // ----- speeds -----

  /** A window's speed in rpm: 16384 counts a turn and 20000 ticks a second, rounded toward zero. */
  lemma WindowRpmMeans(delta: int, ticks: Word32)
    requires ticks > 0 && Abs(delta) * 1200000 < 0x8000_0000 * (16384 * ticks)
    ensures var rpm := WindowRpm(delta, ticks);
            Abs(rpm) * (16384 * ticks) <= Abs(delta) * 1200000 < (Abs(rpm) + 1) * (16384 * ticks) &&
            (delta >= 0 ==> rpm >= 0) && (delta <= 0 ==> rpm <= 0)
  {
    QuotientMeans(delta, 1200000, 16384 * ticks);
    assert delta * CURRENT_LOOP_HZ * 60 == delta * 1200000;
  }

  /** A window's electrical velocity: 56 units of angle a count, in 2^16ths of a unit per tick. */
  lemma WindowVelocityMeans(delta: int, ticks: Word32)
    requires ticks > 0 && Abs(delta) * 3670016 < 0x8000_0000 * (ticks as int)
    ensures var v := WindowVelocity(delta, ticks);
            Abs(v) * ticks <= Abs(delta) * 3670016 < (Abs(v) + 1) * ticks &&
            (delta >= 0 ==> v >= 0) && (delta <= 0 ==> v <= 0)
  {
    QuotientMeans(delta, 3670016, ticks);
    assert delta * 4 * POLE_PAIRS * 0x1_0000 == delta * 3670016;
  }

  lemma QuotientMeans(delta: int, scale: nat, divisor: nat)
    requires divisor > 0 && Abs(delta) * scale < 0x8000_0000 * divisor
    ensures var q := TruncDiv(delta * scale, divisor);
            ToInt32(q) == q && Abs(q) * divisor <= Abs(delta) * scale < (Abs(q) + 1) * divisor &&
            (delta >= 0 ==> q >= 0) && (delta <= 0 ==> q <= 0)
  {
    var q := TruncDiv(delta * scale, divisor);
    AbsProduct(delta, scale);
    TruncDivBounds(delta * scale, divisor);
    if Abs(q) >= 0x8000_0000 { MulMonotone(divisor, 0x8000_0000, Abs(q)); }
  }

  lemma AbsProduct(x: int, n: nat)
    ensures Abs(x * n) == Abs(x) * n && (x >= 0 ==> x * n >= 0) && (x <= 0 ==> x * n <= 0)
  {
    SignOfProduct(x, n);
    if x < 0 { assert (-x) * n == -(x * n); }
  }

  // ----- encoder samples -----

  /** A running motor's reading at a later tick than the one before. */
  predicate Fresh(f: Foc, raw: Raw14, tick: Word32) {
    f.state == Running && f.encoder.ready && tick != f.encoder.previousTick
  }

  function WindowAfter(f: Foc, raw: Raw14, tick: Word32): Loops {
    Accumulated(f, raw, Wrap32(tick - f.encoder.previousTick))
  }

  /** Between windows a reading leaves the controllers alone; a full window runs them, the position controller only in
      position mode and toward the short way round. */
  lemma OuterLoopsByMode(f: Foc, raw: Raw14, tick: Word32, distance: int)
    requires Fresh(f, raw, tick)
    requires -8192 <= distance <= 8191 && RawAt(raw + distance) == f.loops.targetPosition
    ensures var l, g := f.loops, EncoderSample(f, raw, true, tick).loops;
            var full := WindowAfter(f, raw, tick).windowTicks >= 200;
            g.mode == l.mode && g.targetPosition == l.targetPosition &&
            (!full ==> g.targetRpm == l.targetRpm && g.iqReference == l.iqReference &&
                       g.speedIntegralQ6 == l.speedIntegralQ6 && g.positionError == l.positionError) &&
            (full && l.mode == SpeedMode ==> g.targetRpm == l.targetRpm && g.positionError == l.positionError) &&
            (full && l.mode == PositionMode ==>
               g.positionError == distance && (Abs(distance) <= 128 ==> g.targetRpm == 0) &&
               (Abs(distance) > 128 ==> (g.targetRpm > 0 <==> distance > 0)))
  {
    hide WindowRpm, Approach, NextVelocity, ElectricalAngle, WrapError, PositionSpeed, NextSpeedIntegral,
    ReleasedIntegral;
    DifferenceIsMovement(raw, raw + distance);
    assert RawAt(raw) == raw;
    FocLaws.SpeedPoints(distance, PositionSpeed(distance));
  }

  /** The first full window after an alignment sets the velocity, every later one moves it toward its own. */
  lemma VelocityFollowsWindows(f: Foc, raw: Raw14, tick: Word32)
    requires Fresh(f, raw, tick)
    ensures var e, g, w := f.encoder, EncoderSample(f, raw, true, tick).encoder, WindowAfter(f, raw, tick);
            (w.windowTicks < 200 ==> g.velocityQ16 == e.velocityQ16 && g.velocityReady == e.velocityReady) &&
            (w.windowTicks >= 200 ==>
               g.velocityReady &&
               var v := WindowVelocity(w.windowDelta, w.windowTicks);
               if e.velocityReady
               then Between(e.velocityQ16, g.velocityQ16, v) && (g.velocityQ16 == e.velocityQ16 ==> v == e.velocityQ16)
               else g.velocityQ16 == v)
  {
    hide WindowVelocity, OuterControllers, CloseWindow, ElectricalAngle, Accumulated, Approach;
    var w := WindowAfter(f, raw, tick);
    if w.windowTicks >= 200 {
      ApproachStep(f.encoder.velocityQ16, WindowVelocity(w.windowDelta, w.windowTicks));
    }
  }

  // ----- commands -----

  /** Reversing twice restores a target other than rest; from rest it turns backwards. */
  lemma ReverseTwice(f: Foc)
    requires LoopsBounded(f.loops)
    ensures var once := Reverse(f);
            once.loops.targetRpm + f.loops.targetRpm == (if f.loops.targetRpm == 0 then -25 else 0) &&
            (f.loops.targetRpm != 0 ==> Reverse(once).loops.targetRpm == f.loops.targetRpm)
  {
    hide SpeedController;
    TargetStored(f.(loops := f.loops.(speedIntegralQ6 := 0)),
                 if f.loops.targetRpm == 0 then -25 else 0 - f.loops.targetRpm);
    var g := Reverse(f);
    TargetStored(g.(loops := g.loops.(speedIntegralQ6 := 0)), 0 - g.loops.targetRpm);
  }

  lemma TargetStored(f: Foc, rpm: int)
    ensures SetTargetRpm(f, rpm).loops.targetRpm == Clamp(rpm, -400, 400)
  {
  }

  /** Leaving position control brakes at once; entering it at a standstill holds still. */
  lemma ModesStartFromRest(f: Foc)
    requires f.state == Running && f.encoder.ready
    ensures var s, p, measured := EnterSpeed(f).loops, EnterPosition(f).loops, f.loops.measuredRpm;
            s.mode == SpeedMode && s.targetRpm == 0 && (measured > 1 ==> s.iqReference < 0) &&
            (measured < -1 ==> s.iqReference > 0) && (Abs(measured) <= 1 ==> s.iqReference == 0) &&
            p.mode == PositionMode && p.targetPosition == f.encoder.raw && p.targetRpm == p.positionError == 0 &&
            (measured > 0 <==> p.iqReference < 0) && (measured < 0 <==> p.iqReference > 0)
  {
  }

  /** A running motor keeps its reason; otherwise it is cleared, and a fault becomes a standstill. */
  lemma ReasonCleared(f: Foc)
    ensures var g := ClearStopReason(f);
            (f.state == Running ==> g == f) && (f.state == Aligning ==> g.state == Aligning) &&
            (f.state in {Stopped, Fault} ==> g.state == Stopped) && (f.state != Running ==> g.reason == NoStop) &&
            g.stage == f.stage && g.loops == f.loops && g.encoder == f.encoder
  {
  }

  /** Only a running motor under position control takes a new position: an eighth of a turn is 2048 counts. */
  lemma EighthsOfATurn(f: Foc, eighths: int)
    requires Abs(eighths) <= 40000000
    ensures var g := AdjustPosition(f, 45 * eighths);
            if f.state == Running && f.loops.mode == PositionMode
            then g.loops.targetPosition == RawAt(f.loops.targetPosition + 2048 * eighths) && g.state == Running &&
                 g.loops.mode == PositionMode
            else g == f
  {
    hide WrapError, PositionSpeed, NextSpeedIntegral, ReleasedIntegral, MovedTarget;
    EighthsMoved(f.loops.targetPosition, eighths);
  }

  lemma EighthsMoved(position: Raw14, eighths: int)
    requires Abs(eighths) <= 40000000
    ensures MovedTarget(position, 45 * eighths) == RawAt(position + 2048 * eighths)
  {
    assert TruncDiv(45 * eighths * COUNTS_PER_REVOLUTION, 360) == 2048 * eighths;
    FocMotion.MovedTargetIsModular(position, 45 * eighths);
  }
}
