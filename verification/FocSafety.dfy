/** What every step of the field-oriented controller keeps, and what stops it. */
module FocSafety {
  import opened Arith
  import opened FocVector
  import opened FocAngle
  import opened FocSpec

  /** Controller outputs and memories stay within their limits. */
  predicate LoopsBounded(l: Loops) {
    Abs(l.targetRpm) <= MAX_TARGET_RPM && Abs(l.iqReference) <= IQ_LIMIT &&
    Abs(l.speedIntegralQ6) <= SPEED_INTEGRAL_LIMIT &&
    Abs(l.idIntegralQ8) <= CURRENT_INTEGRAL_LIMIT && Abs(l.iqIntegralQ8) <= CURRENT_INTEGRAL_LIMIT
  }

  /** The half-bridges are on exactly while aligning or running, and then switch inside the PWM period. */
  predicate StageAgrees(f: Foc) {
    (f.stage.enabled <==> f.Active()) &&
    (f.stage.enabled ==> Within(f.stage.compares, PWM_NEUTRAL_COMPARE - PWM_MAX_PHASE_DELTA,
                                PWM_NEUTRAL_COMPARE + PWM_MAX_PHASE_DELTA))
  }

  predicate Invariant(f: Foc) {
    LoopsBounded(f.loops) && StageAgrees(f) &&
    (f.state == Running ==> f.encoder.ready) &&
    (f.state != Running ==> f.loops.iqReference == 0) &&
    (f.Active() ==> f.loops.overcurrent < TRIP_SAMPLES && f.reason == NoStop)
  }

  lemma SpeedControllerBounded(l: Loops)
    requires LoopsBounded(l)
    ensures LoopsBounded(SpeedController(l)) && SpeedController(l).overcurrent == l.overcurrent
  {
    var error := l.targetRpm - l.measuredRpm;
    var integral := ReleasedIntegral(l, error);
    assert Abs(integral) <= SPEED_INTEGRAL_LIMIT;
    assert Abs(NextSpeedIntegral(integral, error)) <= SPEED_INTEGRAL_LIMIT;
  }

  lemma PositionControllerBounded(l: Loops, raw: Raw14)
    requires LoopsBounded(l)
    ensures LoopsBounded(PositionController(l, raw)) && PositionController(l, raw).overcurrent == l.overcurrent
  {
  }

  lemma SetTargetKeeps(f: Foc, rpm: int)
    requires Invariant(f)
    ensures Invariant(SetTargetRpm(f, rpm))
  {
    var l := f.loops.(targetRpm := Clamp(rpm, -MAX_TARGET_RPM, MAX_TARGET_RPM));
    SpeedControllerBounded(l);
    SpeedControllerBounded(l.(speedIntegralQ6 := 0));
  }

  lemma SampleKeeps(f: Foc, raw: Word16, valid: bool, tick: Word32)
    requires Invariant(f)
    ensures Invariant(EncoderSample(f, raw, valid, tick))
  {
    var r := raw % 0x4000;
    var elapsed := Wrap32(tick - f.encoder.previousTick);
    if valid && f.state == Running && elapsed != 0 {
      assert EncoderSample(f, raw, valid, tick) == RunningSample(f, r, tick, elapsed);
      RunningSampleKeeps(f, r, tick, elapsed);
    } else if valid && f.state != Running {
      assert EncoderSample(f, raw, valid, tick) == IdleSample(f, r, tick);
    } else {
      assert EncoderSample(f, raw, valid, tick) == f;
    }
  }

  lemma RunningSampleKeeps(f: Foc, raw: Raw14, tick: Word32, elapsed: Word32)
    requires Invariant(f) && f.state == Running
    ensures Invariant(RunningSample(f, raw, tick, elapsed))
  {
    var l := Accumulated(f, raw, elapsed);
    if l.windowTicks >= SPEED_WINDOW_TICKS {
      var closed := CloseWindow(l);
      PositionControllerBounded(closed, raw);
      SpeedControllerBounded(closed);
      SpeedControllerBounded(PositionController(closed, raw));
    }
  }

  lemma RegulateBounded(d: int, q: int, dError: int, qError: int)
    requires Abs(d) <= CURRENT_INTEGRAL_LIMIT && Abs(q) <= CURRENT_INTEGRAL_LIMIT
    ensures Abs(Regulate(d, q, dError, qError).d) <= CURRENT_INTEGRAL_LIMIT
    ensures Abs(Regulate(d, q, dError, qError).q) <= CURRENT_INTEGRAL_LIMIT
  {
  }

  lemma CurrentControlKeeps(f: Foc, a: Count, b: Count, c: Count, tick: Word32)
    requires Invariant(f) && f.state == Running
    ensures Invariant(CurrentControl(f, a, b, c, tick))
  {
    var angle := PredictedAngle(f.encoder, tick);
    DrivenKeeps(f, angle, MeasuredCurrent(a, b, c, angle));
  }

  lemma DrivenKeeps(f: Foc, angle: Word16, i: Current)
    requires Invariant(f) && f.state == Running
    ensures Invariant(Driven(f, angle, i, RegulatedBy(f.loops, i)))
  {
    RegulateBounded(f.loops.idIntegralQ8, f.loops.iqIntegralQ8, -i.d, f.loops.iqReference - i.q);
    OutputKeeps(f, angle, i, RegulatedBy(f.loops, i));
  }

  lemma OutputKeeps(f: Foc, angle: Word16, i: Current, r: Regulated)
    requires Invariant(f) && f.state == Running
    requires Abs(r.d) <= CURRENT_INTEGRAL_LIMIT && Abs(r.q) <= CURRENT_INTEGRAL_LIMIT
    ensures Invariant(Driven(f, angle, i, r))
  {
    ComparesInPeriod(LoopOutput(r.voltage, angle));
  }

  lemma EmergencyStopKeeps(f: Foc, reason: StopReason)
    requires Invariant(f) || LoopsBounded(f.loops)
    ensures Invariant(EmergencyStop(f, reason))
  {
  }

  lemma CurrentSampleKeeps(f: Foc, a: Count, b: Count, c: Count, tick: Word32)
    requires Invariant(f)
    ensures Invariant(CurrentSample(f, a, b, c, tick))
  {
    hide Within;
    var g := Counted(f, a, b, c);
    if f.Active() {
      EmergencyStopKeeps(g, Overcurrent);
      EmergencyStopKeeps(g, EncoderLost);
      if f.state == Running && !(OverLimit(a, b, c) && g.loops.overcurrent >= TRIP_SAMPLES) && !Stale(g, tick) {
        CurrentControlKeeps(g, a, b, c, tick);
      }
    }
  }

  lemma BeginAlignmentKeeps(f: Foc, driverFault: bool)
    requires Invariant(f)
    ensures Invariant(BeginAlignment(f, driverFault))
  {
    ComparesInPeriod(AlphaBeta(ALIGN_ALPHA_VOLTAGE, 0));
  }

  lemma EnterPositionKeeps(f: Foc)
    requires Invariant(f)
    ensures Invariant(EnterPosition(f))
  {
    var l := f.loops.(mode := PositionMode, targetPosition := f.encoder.raw, positionError := 0, targetRpm := 0,
                      speedIntegralQ6 := 0, iqReference := 0);
    PositionControllerBounded(l, f.encoder.raw);
    SpeedControllerBounded(PositionController(l, f.encoder.raw));
  }

  lemma AdjustPositionKeeps(f: Foc, degrees: Int32)
    requires Invariant(f)
    ensures Invariant(AdjustPosition(f, degrees))
  {
    var l := f.loops.(targetPosition := MovedTarget(f.loops.targetPosition, degrees), speedIntegralQ6 := 0);
    PositionControllerBounded(l, f.encoder.raw);
    SpeedControllerBounded(PositionController(l, f.encoder.raw));
  }

  lemma ReverseKeeps(f: Foc)
    requires Invariant(f)
    ensures Invariant(Reverse(f))
  {
    SetTargetKeeps(f.(loops := f.loops.(speedIntegralQ6 := 0)),
                   if f.loops.targetRpm == 0 then -TARGET_RPM_STEP else -f.loops.targetRpm);
  }

  lemma EnterSpeedKeeps(f: Foc)
    requires Invariant(f)
    ensures Invariant(EnterSpeed(f))
  {
    SetTargetKeeps(f.(loops := f.loops.(mode := SpeedMode, positionError := 0, speedIntegralQ6 := 0)), 0);
  }

  /** Initialisation establishes it from any state of the memory. */
  lemma InitializeEstablishes(f: Foc)
    ensures Invariant(Initialize(f))
  {
  }

  lemma EnableAdcTriggerKeeps(f: Foc)
    requires Invariant(f)
    ensures Invariant(EnableAdcTrigger(f))
  {
  }

  lemma FinishAlignmentKeeps(f: Foc, raw: Word16, tick: Word32, driverFault: bool)
    requires Invariant(f)
    ensures Invariant(FinishAlignment(f, raw, tick, driverFault))
  {
    EmergencyStopKeeps(f, DriverFault);
  }

  lemma StopKeeps(f: Foc)
    requires Invariant(f)
    ensures Invariant(Stop(f)) && Invariant(ClearStopReason(f))
  {
  }

  lemma StepKeeps(f: Foc, e: Event)
    requires Invariant(f)
    ensures Invariant(Step(f, e))
  {
    hide Invariant, Initialize, EnableAdcTrigger, BeginAlignment, FinishAlignment, Stop, EmergencyStop,
         EncoderSample, CurrentSample, ClearStopReason, SetTargetRpm, Reverse, EnterPosition, EnterSpeed,
         AdjustPosition;
    match e
    case DoInitialize => InitializeEstablishes(f);
    case DoEnableAdcTrigger => EnableAdcTriggerKeeps(f);
    case DoBeginAlignment(driverFault) => BeginAlignmentKeeps(f, driverFault);
    case DoFinishAlignment(raw, tick, driverFault) => FinishAlignmentKeeps(f, raw, tick, driverFault);
    case DoStop => StopKeeps(f);
    case DoEmergencyStop(reason) => EmergencyStopKeeps(f, reason);
    case DoEncoderSample(raw, valid, tick) => SampleKeeps(f, raw, valid, tick);
    case DoCurrentSample(a, b, c, tick) => CurrentSampleKeeps(f, a, b, c, tick);
    case DoClearStopReason => StopKeeps(f);
    case DoAdjustTargetRpm(delta) => SetTargetKeeps(f, ToInt32(f.loops.targetRpm + delta));
    case DoReverse => ReverseKeeps(f);
    case DoEnterPosition => EnterPositionKeeps(f);
    case DoEnterSpeed => EnterSpeedKeeps(f);
    case DoAdjustPosition(degrees) => AdjustPositionKeeps(f, degrees);
  }

  /** Every run of the controller, through any sequence of entry points and interrupts, keeps the invariant. */
  lemma {:induction false} RunKeeps(f: Foc, events: seq<Event>)
    requires Invariant(f)
    ensures Invariant(Run(f, events))
    decreases |events|
  {
    if events != [] {
      StepKeeps(f, events[0]);
      RunKeeps(Step(f, events[0]), events[1..]);
    }
  }

  // ----- faults -----

  predicate OverLimitSample(e: Event) {
    e.DoCurrentSample? && OverLimit(e.a, e.b, e.c)
  }

  /** Events that neither start, stop nor acknowledge anything. */
  predicate Ordinary(e: Event) {
    e.DoEnableAdcTrigger? || e.DoEncoderSample? || e.DoAdjustTargetRpm? || e.DoReverse? || e.DoEnterPosition? ||
    e.DoEnterSpeed? || e.DoAdjustPosition?
  }

  lemma OrdinaryKeeps(f: Foc, e: Event)
    requires Ordinary(e)
    ensures Step(f, e).state == f.state && Step(f, e).loops.overcurrent == f.loops.overcurrent
    ensures Step(f, e).reason == f.reason && Step(f, e).stage.enabled == f.stage.enabled
    ensures !e.DoEnableAdcTrigger? ==> Step(f, e).stage == f.stage
  {
  }

  /** The sample that makes it three in a row stops the motor in that very call, and no earlier one does. */
  lemma ThirdSampleTrips(f: Foc, a: Count, b: Count, c: Count, tick: Word32)
    requires Invariant(f) && f.Active()
    ensures var g := CurrentSample(f, a, b, c, tick);
            (g.reason == Overcurrent <==> OverLimit(a, b, c) && f.loops.overcurrent == TRIP_SAMPLES - 1) &&
            (g.reason == Overcurrent ==> g.state == Fault && !g.stage.enabled && g.loops.iqReference == 0)
  {
  }

  /** A running motor whose encoder has been silent for more than 100 ticks stops in that very call. */
  lemma StaleEncoderStops(f: Foc, a: Count, b: Count, c: Count, tick: Word32)
    requires Invariant(f) && f.state == Running && Wrap32(tick - f.encoder.lastTick) > ENCODER_STALE_TICKS
    ensures var g := CurrentSample(f, a, b, c, tick);
            g.state == Fault && !g.stage.enabled && (g.reason == EncoderLost || g.reason == Overcurrent)
  {
    hide MeasuredCurrent, Driven, RegulatedBy, PredictedAngle;
  }

  lemma CurrentSampleOf(f: Foc, a: Count, b: Count, c: Count, tick: Word32)
    requires Invariant(f)
    ensures var g := CurrentSample(f, a, b, c, tick);
            (!f.Active() ==> g == f) && (f.Active() ==> g.state == f.state || g.state == Fault) &&
            (g.Active() ==> g.loops.overcurrent == if OverLimit(a, b, c) then f.loops.overcurrent + 1 else 0)
  {
  }

  lemma CurrentStep(f: Foc, e: Event)
    requires Invariant(f) && e.DoCurrentSample?
    ensures var g := Step(f, e);
            (!f.Active() ==> g == f) && (f.Active() ==> g.state == f.state || g.state == Fault) &&
            (g.Active() ==> g.loops.overcurrent == if OverLimitSample(e) then f.loops.overcurrent + 1 else 0)
  {
    hide Invariant, CurrentSample, OverLimit;
    CurrentSampleOf(f, e.a, e.b, e.c, e.tick);
  }

  /** The counter of an active motor has not tripped yet. */
  lemma CounterBelow(f: Foc)
    requires Invariant(f) && f.Active()
    ensures f.loops.overcurrent < TRIP_SAMPLES
  {
  }

  /** Consecutive over-limit samples, counting on from `start`. */
  function Streak(start: nat, events: seq<Event>): nat
    decreases |events|
  {
    if events == [] then start
    else
      var e := events[0];
      Streak(if !e.DoCurrentSample? then start else if OverLimitSample(e) then start + 1 else 0, events[1..])
  }

  /** While the motor stays active its counter is the number of consecutive over-limit samples, so it is
      below three; anything else that happens in between does not interrupt the count. */
  lemma {:induction false} CounterIsStreak(f: Foc, events: seq<Event>)
    requires Invariant(f)
    requires forall i :: 0 <= i < |events| ==> Ordinary(events[i]) || events[i].DoCurrentSample?
    ensures Run(f, events).Active() ==>
            f.Active() && Run(f, events).loops.overcurrent == Streak(f.loops.overcurrent, events) < TRIP_SAMPLES
    decreases |events|
  {
    hide Step, Invariant, Ordinary, OverLimitSample;
    if events == [] {
      if f.Active() { CounterBelow(f); }
    } else {
      var e, g := events[0], Step(f, events[0]);
      StepKeeps(f, e);
      if e.DoCurrentSample? { CurrentStep(f, e); } else { OrdinaryKeeps(f, e); }
      CounterIsStreak(g, events[1..]);
    }
  }

  /** Three consecutive over-limit samples stop an active motor, whatever ordinary events come between them. */
  lemma {:induction false} OverLimitStops(f: Foc, events: seq<Event>)
    requires Invariant(f) && (f.Active() || f.state == Fault)
    requires forall i :: 0 <= i < |events| ==> Ordinary(events[i]) || OverLimitSample(events[i])
    requires f.state == Fault || Streak(f.loops.overcurrent, events) >= TRIP_SAMPLES
    ensures Run(f, events).state == Fault && !Run(f, events).stage.enabled
    decreases |events|
  {
    if events != [] {
      hide Step, Invariant, Ordinary, OverLimit;
      var e := events[0];
      StepKeeps(f, e);
      if e.DoCurrentSample? { CurrentStep(f, e); } else { OrdinaryKeeps(f, e); }
      OverLimitStops(Step(f, e), events[1..]);
    }
  }

  /** Events that may leave the fault state. */
  predicate Acknowledges(e: Event) {
    e.DoInitialize? || e.DoStop? || e.DoClearStopReason?
  }

  lemma FaultStep(f: Foc, e: Event)
    requires f.state == Fault && !Acknowledges(e)
    ensures Step(f, e).state == Fault
  {
    if Ordinary(e) { OrdinaryKeeps(f, e); }
  }

  /** A fault lasts, with the phases off and no torque requested, until it is explicitly acknowledged. */
  lemma {:induction false} FaultLatches(f: Foc, events: seq<Event>)
    requires Invariant(f) && f.state == Fault
    requires forall i :: 0 <= i < |events| ==> !Acknowledges(events[i])
    ensures Run(f, events).state == Fault && !Run(f, events).stage.enabled && Run(f, events).loops.iqReference == 0
    decreases |events|
  {
    if events != [] {
      StepKeeps(f, events[0]);
      FaultStep(f, events[0]);
      FaultLatches(Step(f, events[0]), events[1..]);
    }
  }

  lemma IdleStep(f: Foc, e: Event)
    requires !f.Active() && !e.DoBeginAlignment?
    ensures !Step(f, e).Active()
  {
    if Ordinary(e) { OrdinaryKeeps(f, e); }
  }

  /** The half-bridges come on only through an alignment: without one they stay off for ever. */
  lemma {:induction false} OffUntilAligned(f: Foc, events: seq<Event>)
    requires Invariant(f) && !f.Active()
    requires forall i :: 0 <= i < |events| ==> !events[i].DoBeginAlignment?
    ensures !Run(f, events).Active() && !Run(f, events).stage.enabled
    decreases |events|
  {
    if events != [] {
      StepKeeps(f, events[0]);
      IdleStep(f, events[0]);
      OffUntilAligned(Step(f, events[0]), events[1..]);
    }
  }

  lemma NotRunningStep(f: Foc, e: Event)
    requires Invariant(f) && f.state != Running && !e.DoFinishAlignment?
    ensures Step(f, e).state != Running
  {
    if Ordinary(e) {
      OrdinaryKeeps(f, e);
    } else if e.DoCurrentSample? {
      CurrentSampleOf(f, e.a, e.b, e.c, e.tick);
    }
  }

  /** Closed-loop operation begins only by finishing an alignment. */
  lemma {:induction false} NotRunningUntilAligned(f: Foc, events: seq<Event>)
    requires Invariant(f) && f.state != Running
    requires forall i :: 0 <= i < |events| ==> !events[i].DoFinishAlignment?
    ensures Run(f, events).state != Running
    decreases |events|
  {
    if events != [] {
      StepKeeps(f, events[0]);
      NotRunningStep(f, events[0]);
      NotRunningUntilAligned(Step(f, events[0]), events[1..]);
    }
  }
}
