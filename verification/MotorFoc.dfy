/** The field-oriented controller as the firmware runs it: module variables updated step by step. */
module MotorFoc {
  import opened Arith
  import opened FocVector
  import opened FocAngle
  import opened FocSpec
  import opened FocSafety

  class MotorFoc {
    var state: State
    var reason: StopReason
    var encoder: Encoder
    var predicted: Word16
    var loops: Loops
    var stage: Stage

    function View(): Foc
      reads this
    {
      Foc(state, reason, encoder, predicted, loops, stage)
    }

    ghost predicate Valid()
      reads this
    {
      Invariant(View())
    }

    constructor ()
      ensures Valid() && state == Stopped && !stage.enabled
    {
      state, reason := Stopped, NoStop;
      encoder := Encoder(false, 0, 0, 0, 0, 0, 0, 0, 0, false);
      predicted := 0;
      loops := Loops(SpeedMode, DEFAULT_TARGET_RPM, 0, 0, 0, 0, 0, 0, 0, 0, 0, 0, 0, 0);
      stage := Stage(false, Phases(PWM_NEUTRAL_COMPARE, PWM_NEUTRAL_COMPARE, PWM_NEUTRAL_COMPARE));
    }

    // ----- voltage output -----

    /** Scales both axes down when the cheap magnitude estimate exceeds the limit. */
    static method LimitDqVoltageVector(d: int, q: int) returns (limitedD: int, limitedQ: int, saturated: bool)
      ensures Voltage(limitedD, limitedQ) == Limited(Voltage(d, q)) && saturated == Saturated(Voltage(d, q))
    {
      var absoluteD, absoluteQ := Abs(d), Abs(q);
      var maximum := if absoluteD > absoluteQ then absoluteD else absoluteQ;
      var minimum := if absoluteD > absoluteQ then absoluteQ else absoluteD;
      var magnitude := maximum + minimum / 2;
      if magnitude <= VOLTAGE_LIMIT_Q8 { return d, q, false; }
      limitedD := TruncDiv(d * VOLTAGE_LIMIT_Q8, magnitude);
      limitedQ := TruncDiv(q * VOLTAGE_LIMIT_Q8, magnitude);
      saturated := true;
    }

    method WritePwmCompare(p: Phases)
      modifies this`stage
      ensures stage == old(stage).(compares := Compares(p))
    {
      var a, b, c := ClampPhase(p.a), ClampPhase(p.b), ClampPhase(p.c);
      stage := stage.(compares := Phases(PWM_NEUTRAL_COMPARE - a, PWM_NEUTRAL_COMPARE - b, PWM_NEUTRAL_COMPARE - c));
    }

    method ApplyAlphaBetaVoltage(alpha: int, beta: int)
      modifies this`stage
      ensures stage == old(stage).(compares := PwmFor(AlphaBeta(alpha, beta)))
    {
      hide TruncDiv, Compares;
      var half, shifted := TruncDiv(-alpha, 2), (beta * 28378) / Q15;
      var a, b, c := alpha, half + shifted, half - shifted;
      var maximum, minimum := a, a;
      if b > maximum { maximum := b; }
      if c > maximum { maximum := c; }
      if b < minimum { minimum := b; }
      if c < minimum { minimum := c; }
      var common := TruncDiv(-(maximum + minimum), 2);
      assert Phases(a, b, c) == InverseClarke(AlphaBeta(alpha, beta));
      assert Injected(Phases(a, b, c)) == Phases(a + common, b + common, c + common);
      WritePwmCompare(Phases(a + common, b + common, c + common));
    }

    method ApplyDqVoltage(d: int, q: int, angle: Word16)
      modifies this`stage
      ensures stage == old(stage).(compares := PwmFor(InversePark(Voltage(d, q), angle)))
    {
      hide PwmFor;
      var sine, cosine := SinQ15(angle), CosQ15(angle);
      ApplyAlphaBetaVoltage((d * cosine - q * sine) / Q15, (d * sine + q * cosine) / Q15);
    }

    method DisablePhases()
      modifies this`stage
      ensures stage == Disabled()
    {
      stage := stage.(enabled := false);
      WritePwmCompare(Phases(0, 0, 0));
    }

    method EnablePhases()
      modifies this`stage
      ensures stage == old(stage).(enabled := true)
    {
      stage := stage.(enabled := true);
    }

    method ResetControlState()
      modifies this`loops
      ensures loops == ResetControl(old(loops))
    {
      loops := loops.(windowDelta := 0, windowTicks := 0, measuredRpm := 0);
      loops := loops.(speedIntegralQ6 := 0, iqReference := 0, positionError := 0);
      loops := loops.(idIntegralQ8 := 0, iqIntegralQ8 := 0, lastId := 0, lastIq := 0, overcurrent := 0);
    }

    // ----- transitions -----

    method Initialize()
      modifies this
      ensures Valid() && View() == FocSpec.Initialize(old(View()))
    {
      state, reason := Stopped, NoStop;
      encoder := Encoder(false, 0, 0, 0, 0, 0, encoder.previousRaw, encoder.previousTick, 0, false);
      predicted := 0;
      loops := loops.(mode := SpeedMode, targetPosition := 0, targetRpm := DEFAULT_TARGET_RPM);
      ResetControlState();
      stage := Stage(false, Phases(PWM_LOAD_COUNTS, PWM_LOAD_COUNTS, PWM_LOAD_COUNTS));
    }

    method EnableAdcTrigger()
      requires Valid()
      modifies this`stage
      ensures Valid() && View() == FocSpec.EnableAdcTrigger(old(View()))
    {
      EnableAdcTriggerKeeps(View());
      WritePwmCompare(Phases(0, 0, 0));
    }

    method BeginAlignment(driverFault: bool) returns (started: bool)
      requires Valid()
      modifies this
      ensures Valid() && View() == FocSpec.BeginAlignment(old(View()), driverFault)
      ensures started == (old(state) == Stopped && !driverFault)
    {
      BeginAlignmentKeeps(View(), driverFault);
      if state != Stopped || driverFault { return false; }
      reason := NoStop;
      encoder := encoder.(ready := false, velocityReady := false, velocityQ16 := 0);
      loops := loops.(mode := SpeedMode, targetRpm := DEFAULT_TARGET_RPM);
      ResetControlState();
      ApplyAlphaBetaVoltage(ALIGN_ALPHA_VOLTAGE, 0);
      EnablePhases();
      state := Aligning;
      started := true;
    }

    method EmergencyStop(why: StopReason)
      requires LoopsBounded(loops)
      modifies this`state, this`reason, this`encoder, this`loops, this`stage
      ensures Valid() && View() == FocSpec.EmergencyStop(old(View()), why)
    {
      DisablePhases();
      state := Fault;
      reason := why;
      encoder := encoder.(ready := false, velocityReady := false, velocityQ16 := 0);
      loops := loops.(iqReference := 0);
    }

    method FinishAlignment(raw: Word16, tick: Word32, driverFault: bool) returns (running: bool)
      requires Valid()
      modifies this
      ensures Valid() && View() == FocSpec.FinishAlignment(old(View()), raw, tick, driverFault)
      ensures running == (state == Running)
    {
      if state != Aligning || driverFault {
        EmergencyStop(DriverFault);
        return false;
      }
      var r := raw % 0x4000;
      var offset := AlignmentOffset(r);
      var angle := ElectricalAngle(r, offset);
      encoder := encoder.(offset := offset, raw := r, angle := angle, velocityQ16 := 0, angleTick := tick,
                          lastTick := tick);
      predicted := angle;
      encoder := encoder.(previousRaw := r, previousTick := tick, velocityReady := false, ready := true);
      ResetControlState();
      state := Running;
      running := true;
    }

    method Stop()
      requires Valid()
      modifies this
      ensures Valid() && View() == FocSpec.Stop(old(View()))
    {
      DisablePhases();
      state, reason := Stopped, Commanded;
      encoder := encoder.(ready := false, velocityReady := false, velocityQ16 := 0);
      loops := loops.(mode := SpeedMode);
      ResetControlState();
    }

    method ClearStopReason()
      requires Valid()
      modifies this`state, this`reason
      ensures Valid() && View() == FocSpec.ClearStopReason(old(View()))
    {
      if state != Running {
        reason := NoStop;
        if state == Fault { state := Stopped; }
      }
    }

    // ----- outer controllers -----

    method UpdateSpeedController()
      modifies this`loops
      ensures loops == SpeedController(old(loops))
    {
      var error := loops.targetRpm - loops.measuredRpm;
      if loops.mode == PositionMode && Abs(loops.positionError) <= POSITION_DIRECT_ZONE {
        var direct := TruncDiv(loops.positionError, POSITION_ERROR_DIVISOR) - loops.measuredRpm * POSITION_DAMPING;
        loops := loops.(speedIntegralQ6 := 0, iqReference := Clamp(direct, -DIRECT_IQ_LIMIT, DIRECT_IQ_LIMIT));
        return;
      }
      if loops.mode == SpeedMode && loops.targetRpm == 0 && Abs(loops.measuredRpm) <= 1 {
        loops := loops.(speedIntegralQ6 := 0, iqReference := 0);
        return;
      }
      Integrate(error);
      loops := loops.(iqReference := Clamp(error + loops.speedIntegralQ6 / SPEED_INTEGRAL_SCALE, -IQ_LIMIT, IQ_LIMIT));
    }

    method Integrate(error: int)
      modifies this`loops
      ensures loops == old(loops).(speedIntegralQ6 := NextSpeedIntegral(ReleasedIntegral(old(loops), error), error))
    {
      if loops.mode == PositionMode &&
         ((error <= -POSITION_RELEASE_RPM && loops.speedIntegralQ6 > 0) ||
          (error >= POSITION_RELEASE_RPM && loops.speedIntegralQ6 < 0)) {
        loops := loops.(speedIntegralQ6 := 0);
      }
      var candidate := Clamp(loops.speedIntegralQ6 + error, -SPEED_INTEGRAL_LIMIT, SPEED_INTEGRAL_LIMIT);
      var output := error + candidate / SPEED_INTEGRAL_SCALE;
      if !((output > IQ_LIMIT && error > 0) || (output < -IQ_LIMIT && error < 0)) {
        loops := loops.(speedIntegralQ6 := candidate);
      }
    }

    method UpdatePositionController()
      modifies this`loops
      ensures loops == PositionController(old(loops), encoder.raw)
    {
      var error := WrapError(loops.targetPosition - encoder.raw);
      loops := loops.(positionError := error);
      var speed := 0;
      if Abs(error) > POSITION_DIRECT_ZONE {
        speed := TruncDiv(error, POSITION_COUNTS_PER_RPM);
        if speed == 0 { speed := if error > 0 then 1 else -1; }
        speed := Clamp(speed, -POSITION_SPEED_LIMIT, POSITION_SPEED_LIMIT);
      }
      loops := loops.(targetRpm := speed);
    }

    method SetTargetRpm(rpm: int)
      requires Valid()
      modifies this`loops
      ensures Valid() && View() == FocSpec.SetTargetRpm(old(View()), rpm)
    {
      SetTargetKeeps(View(), rpm);
      loops := loops.(targetRpm := Clamp(rpm, -MAX_TARGET_RPM, MAX_TARGET_RPM));
      if state == Running {
        var error := loops.targetRpm - loops.measuredRpm;
        if loops.targetRpm == 0 || (error < 0 && loops.iqReference > 0) || (error > 0 && loops.iqReference < 0) {
          loops := loops.(speedIntegralQ6 := 0);
        }
        UpdateSpeedController();
      }
    }

    method AdjustTargetRpm(delta: Int32)
      requires Valid()
      modifies this`loops
      ensures Valid() && View() == Step(old(View()), DoAdjustTargetRpm(delta))
    {
      SetTargetRpm(ToInt32(loops.targetRpm + delta));
    }

    method Reverse()
      requires Valid()
      modifies this`loops
      ensures Valid() && View() == FocSpec.Reverse(old(View()))
    {
      var reversed := -loops.targetRpm;
      if reversed == 0 { reversed := -TARGET_RPM_STEP; }
      loops := loops.(speedIntegralQ6 := 0);
      SetTargetRpm(reversed);
    }

    method EnterPositionMode() returns (entered: bool)
      requires Valid()
      modifies this`loops
      ensures Valid() && View() == EnterPosition(old(View()))
      ensures entered == (state == Running && encoder.ready)
    {
      EnterPositionKeeps(View());
      if state != Running || !encoder.ready { return false; }
      loops := loops.(mode := PositionMode, targetPosition := encoder.raw, positionError := 0);
      loops := loops.(targetRpm := 0, speedIntegralQ6 := 0, iqReference := 0);
      UpdatePositionController();
      UpdateSpeedController();
      entered := true;
    }

    method EnterSpeedMode()
      requires Valid()
      modifies this`loops
      ensures Valid() && View() == EnterSpeed(old(View()))
    {
      loops := loops.(mode := SpeedMode, positionError := 0, speedIntegralQ6 := 0);
      SetTargetRpm(0);
    }

    method AdjustTargetPositionDegrees(degrees: Int32)
      requires Valid()
      modifies this`loops
      ensures Valid() && View() == AdjustPosition(old(View()), degrees)
    {
      AdjustPositionKeeps(View(), degrees);
      if state != Running || loops.mode != PositionMode { return; }
      loops := loops.(targetPosition := MovedTarget(loops.targetPosition, degrees), speedIntegralQ6 := 0);
      UpdatePositionController();
      UpdateSpeedController();
    }

    // ----- interrupts -----

    method OnEncoderSample(raw: Word16, valid: bool, tick: Word32)
      requires Valid()
      modifies this`encoder, this`predicted, this`loops
      ensures Valid() && View() == EncoderSample(old(View()), raw, valid, tick)
    {
      hide Invariant, ElectricalAngle, RunningSample;
      SampleKeeps(View(), raw, valid, tick);
      if !valid { return; }
      var r := raw % 0x4000;
      var angle := ElectricalAngle(r, encoder.offset);
      if state != Running || !encoder.ready {
        encoder := encoder.(raw := r, angle := angle, angleTick := tick, lastTick := tick);
        predicted := angle;
        return;
      }
      var elapsed := Wrap32(tick - encoder.previousTick);
      if elapsed == 0 { return; }
      TakeSample(r, angle, tick, elapsed);
    }

    method TakeSample(r: Raw14, angle: Word16, tick: Word32, elapsed: Word32)
      requires angle == ElectricalAngle(r, encoder.offset)
      modifies this`encoder, this`predicted, this`loops
      ensures View() == RunningSample(old(View()), r, tick, elapsed)
    {
      ghost var f := View();
      var delta := WrapError(r - encoder.previousRaw);
      encoder := encoder.(previousRaw := r, previousTick := tick);
      loops := loops.(windowDelta := loops.windowDelta + delta, windowTicks := Wrap32(loops.windowTicks + elapsed));
      assert loops == Accumulated(f, r, elapsed);
      var update := loops.windowTicks >= SPEED_WINDOW_TICKS;
      if update { CloseSpeedWindow(); }
      encoder := encoder.(raw := r, angle := angle, angleTick := tick, lastTick := tick);
      predicted := angle;
      if update {
        if loops.mode == PositionMode { UpdatePositionController(); }
        UpdateSpeedController();
      }
    }

    method CloseSpeedWindow()
      requires loops.windowTicks > 0
      modifies this`encoder, this`loops
      ensures loops == CloseWindow(old(loops))
      ensures encoder == old(encoder).(velocityQ16 := NextVelocity(old(encoder), old(loops)), velocityReady := true)
    {
      var velocity := WindowVelocity(loops.windowDelta, loops.windowTicks);
      var rpm := WindowRpm(loops.windowDelta, loops.windowTicks);
      if encoder.velocityReady {
        velocity := ToInt32(Approach(encoder.velocityQ16, velocity));
      } else {
        encoder := encoder.(velocityReady := true);
      }
      encoder := encoder.(velocityQ16 := velocity);
      loops := loops.(measuredRpm := Approach(loops.measuredRpm, rpm), windowDelta := 0, windowTicks := 0);
    }

    method CurrentLoopIsr(a: Count, b: Count, c: Count, tick: Word32)
      requires Valid()
      modifies this
      ensures Valid() && View() == CurrentSample(old(View()), a, b, c, tick)
    {
      hide CurrentControl;
      CurrentSampleKeeps(View(), a, b, c, tick);
      if state != Aligning && state != Running { return; }
      ghost var f := View();
      var tripped := CheckHardLimit(a, b, c);
      assert View() == Counted(f, a, b, c);
      if tripped {
        EmergencyStop(Overcurrent);
      } else if state == Running {
        if !encoder.ready || Wrap32(tick - encoder.lastTick) > ENCODER_STALE_TICKS {
          EmergencyStop(EncoderLost);
        } else {
          RegulateCurrent(a, b, c, tick);
        }
      }
    }

    /** Counts consecutive samples over the hard limit. */
    method CheckHardLimit(a: Count, b: Count, c: Count) returns (tripped: bool)
      modifies this`loops
      ensures View() == Counted(old(View()), a, b, c)
      ensures tripped == (OverLimit(a, b, c) && loops.overcurrent >= TRIP_SAMPLES)
    {
      tripped := false;
      if OverLimit(a, b, c) {
        loops := loops.(overcurrent := loops.overcurrent + 1);
        tripped := loops.overcurrent >= TRIP_SAMPLES;
      } else {
        loops := loops.(overcurrent := 0);
      }
    }

    method RegulateCurrent(a: Count, b: Count, c: Count, tick: Word32)
      modifies this`predicted, this`loops, this`stage
      ensures View() == CurrentControl(old(View()), a, b, c, tick)
    {
      var angle := PredictedAngle(encoder, tick);
      RegulateMeasured(angle, MeasuredCurrent(a, b, c, angle));
    }

    method RegulateMeasured(angle: Word16, i: Current)
      modifies this`predicted, this`loops, this`stage
      ensures View() == Driven(old(View()), angle, i, RegulatedBy(old(loops), i))
    {
      ghost var r := RegulatedBy(loops, i);
      predicted := angle;
      var d, q := ControlCurrent(i);
      DriveBridge(d, q, angle, r.voltage);
    }

    method DriveBridge(d: int, q: int, angle: Word16, ghost request: Voltage)
      requires Voltage(d, q) == Limited(request)
      modifies this`stage
      ensures stage == old(stage).(compares := PwmFor(LoopOutput(request, angle)))
    {
      assert FromQ8(Limited(request)) == Voltage(d / 0x100, q / 0x100);
      ApplyDqVoltage(d / 0x100, q / 0x100, angle);
    }

    /** The two current controllers with conditional integration; returns the limited voltage. */
    method ControlCurrent(i: Current) returns (d: int, q: int)
      modifies this`loops
      ensures var r := RegulatedBy(old(loops), i);
              Voltage(d, q) == Limited(r.voltage) &&
              loops == old(loops).(lastId := i.d, lastIq := i.q, idIntegralQ8 := r.d, iqIntegralQ8 := r.q)
    {
      hide Limited, Saturated;
      var dError, qError := -i.d, loops.iqReference - i.q;
      loops := loops.(lastId := i.d, lastIq := i.q);
      var candidateD, candidateQ := NextIntegral(loops.idIntegralQ8, dError), NextIntegral(loops.iqIntegralQ8, qError);
      var saturated: bool;
      d, q, saturated := LimitDqVoltageVector(dError * CURRENT_KP_Q8 + candidateD, qError * CURRENT_KP_Q8 + candidateQ);
      if !saturated || dError * d + qError * q <= 0 {
        loops := loops.(idIntegralQ8 := candidateD, iqIntegralQ8 := candidateQ);
      } else {
        d, q, saturated := LimitDqVoltageVector(dError * CURRENT_KP_Q8 + loops.idIntegralQ8,
                                                qError * CURRENT_KP_Q8 + loops.iqIntegralQ8);
      }
    }
  }
}
