/** The controller as the firmware runs it: one state record per motor, updated in place
    beside the register file. */
module MotorControl {
  import opened Arith
  import opened RegisterSpec
  import opened RegisterInvariants
  import opened ControlSpec
  import RM = RegisterMap

  class SpeedPid {
    var state: Pid

    constructor ()
      ensures state == ResetPid(state) && state.lastUpdateMs == 0
    {
      state := Pid(0, 0, 0, 0, 0, 0, 0, 0, 0, 0, 0, MODE_COAST, 0, 0, false, false, false);
    }

    method AdvanceControlTarget(requested: Word16, accel: Word16, decel: Word16, elapsedMs: Word32)
      returns (rpm: Word16)
      modifies this
      ensures state == Advance(old(state), requested, accel, decel, elapsedMs)
      ensures rpm == state.controlTargetRpm
    {
      hide Scaled;
      if state.controlTargetRpm == requested {
        state := state.(rampRemainder := 0, rampDirection := 0);
        return requested;
      }
      var accelerating := requested > state.controlTargetRpm;
      var direction := if accelerating then 1 else -1;
      var rate := if accelerating then accel else decel;
      if rate == 0 {
        state := state.(controlTargetRpm := requested, rampRemainder := 0, rampDirection := 0);
        return requested;
      }
      if state.rampDirection != direction {
        state := state.(rampRemainder := 0, rampDirection := direction);
      }
      var scaledStep := Scaled(rate, elapsedMs, state.rampRemainder);
      var step := Wrap32(scaledStep / 1000);
      state := state.(rampRemainder := scaledStep % 1000);
      var distance := if accelerating then requested - state.controlTargetRpm else state.controlTargetRpm - requested;
      if step >= distance {
        state := state.(controlTargetRpm := requested, rampRemainder := 0, rampDirection := 0);
      } else if accelerating {
        state := state.(controlTargetRpm := state.controlTargetRpm + step);
      } else {
        state := state.(controlTargetRpm := state.controlTargetRpm - step);
      }
      rpm := state.controlTargetRpm;
    }

    /** Decides whether the motor counts as at target. */
    method TrackTarget(r: RegBytes, error: Int32, now: Word32)
      modifies this
      ensures state == TargetTracking(r, old(state), error, now)
    {
      var enterTolerance := LoadUint16(r, REG_POSITION_TOLERANCE);
      var exitTolerance := LoadUint16(r, REG_POSITION_EXIT_TOLERANCE);
      if exitTolerance < enterTolerance { exitTolerance := enterTolerance; }
      var settleMs := 10 * (r[REG_POSITION_SETTLE_10MS] as int);
      var previousSign, currentSign := Sign(state.previousPositionError), Sign(error);
      if previousSign != 0 && currentSign != 0 && previousSign != currentSign && !state.atTarget {
        state := state.(atTarget := true, positionIntegralQ4 := 0, settleUntilMs := Wrap32(now + settleMs));
      }
      if state.atTarget {
        if !TimeBefore(now, state.settleUntilMs) && Abs(error) > exitTolerance {
          state := state.(atTarget := false);
        }
      } else if Abs(error) <= enterTolerance {
        state := state.(atTarget := true, positionIntegralQ4 := 0, settleUntilMs := Wrap32(now + settleMs));
      }
    }

    /** The position law: integrates, limits, and maps the command to a duty and a direction. */
    method PositionCommand(r: RegBytes, error: Int32, previousError: Int32, countsPerRev: Word32)
      returns (rpm: Word16, duty: Byte, direction: Byte)
      modifies this
      ensures state ==
              old(state).(positionIntegralQ4 := PositionIntegral(r, old(state).positionIntegralQ4, error, countsPerRev))
      ensures var command := PositionCommandQ4(r, state.positionIntegralQ4, error, previousError, countsPerRev);
              rpm == PositionRpm(r, command, error) &&
              duty == PositionDuty(rpm, LoadUint16(r, REG_POSITION_MAX_RPM), r[REG_POSITION_MIN_DUTY],
                                   r[REG_POSITION_MAX_DUTY]) &&
              direction == if command < 0 then 1 else 0
    {
      var maxRpm := LoadUint16(r, REG_POSITION_MAX_RPM);
      var derivative := SaturateInt32(error - previousError);
      var integral := state.positionIntegralQ4 + PositionTermQ4(error, r[REG_POSITION_KI], countsPerRev);
      integral := ClampQ4(integral, maxRpm);
      state := state.(positionIntegralQ4 := integral);
      var commandQ4 := PositionTermQ4(error, r[REG_POSITION_KP], countsPerRev) + integral +
                       PositionTermQ4(derivative, r[REG_POSITION_KD], countsPerRev);
      commandQ4 := ClampQ4(commandQ4, maxRpm);
      direction := if commandQ4 < 0 then 1 else 0;
      rpm := CommandRpmFromQ4(commandQ4, maxRpm);
      if rpm == 0 && Abs(error) > LoadUint16(r, REG_POSITION_TOLERANCE) && maxRpm > 0 &&
         (r[REG_POSITION_KP] != 0 || r[REG_POSITION_KI] != 0 || r[REG_POSITION_KD] != 0) {
        rpm := 1;
      }
      duty := PositionDuty(rpm, maxRpm, r[REG_POSITION_MIN_DUTY], r[REG_POSITION_MAX_DUTY]);
    }

    /** Position and hold control. */
    method UpdatePositionMotor(file: RM.RegisterMap, m: Motor, hold: bool, targetPosition: Int32, count: Int32,
                               countsPerRev: Word32, now: Word32) returns (changed: bool)
      requires file.Valid()
      requires hold == HoldMode(file.View().regs, m) &&
               targetPosition == LoadInt32(file.View().regs, TargetPositionReg(m))
      modifies this, file.registers
      ensures file.Valid()
      ensures var result := PositionStep(old(file.View().regs), old(state), m, count, countsPerRev, now);
              state == result.pid && changed == result.changed &&
              file.View() == Run(old(file.View()), result.ops)
    {
      hide LoadUint16, LoadUint32, LoadInt32, PositionIntegral, PositionCommandQ4, PositionRpm, PositionDuty,
           TargetTracking, Run;
      var r := file.View().regs;
      var positionTarget := if hold then state.holdCount else targetPosition;
      var error := SaturateInt32(positionTarget - count);
      var previousError := state.previousPositionError;
      TrackTarget(r, error, now);
      var rpm: Word16, duty: Byte, direction: Byte := 0, 0, 0;
      if !state.atTarget {
        rpm, duty, direction := PositionCommand(r, error, previousError, countsPerRev);
      }
      state := state.(outputDutyQ8 := duty * DUTY_Q8_SCALE, previousPositionError := error);
      Publish(file, m, hold, error, rpm, duty, direction);
      changed := true;
    }

    /** Writes the position error, the commanded speed unless holding, and the output to the registers. */
    static method Publish(file: RM.RegisterMap, m: Motor, hold: bool, error: Int32, rpm: Word16, duty: Byte,
                          direction: Byte)
      requires file.Valid()
      modifies file.registers
      ensures file.Valid()
      ensures file.View() == Run(old(file.View()), [UpdatePositionError(m, error)] +
                                 (if hold then [] else [UpdateTargetRpm(m, rpm)]) + [SetOutput(m, duty, direction)])
    {
      hide Refreshed, Store16, Store32, WithPositionError, WithTargetRpm, WithOutput;
      ghost var f := file.View();
      ghost var ops: seq<RegOp> := [UpdatePositionError(m, error)];
      file.UpdatePositionError(m, error);
      RunOne(f, [], ops[0]);
      assert [] + ops == ops;
      if !hold {
        file.UpdateTargetRpmFromControl(m, rpm);
        RunOne(f, ops, UpdateTargetRpm(m, rpm));
        ops := ops + [UpdateTargetRpm(m, rpm)];
      } else {
        assert ops + [] == ops;
      }
      assert file.View() == Run(f, ops);
      file.SetMotorOutputFromControl(m, duty, direction);
      RunOne(f, ops, SetOutput(m, duty, direction));
    }

    /** One control step of one motor. */
    method UpdateSpeedMotor(file: RM.RegisterMap, m: Motor, count: Int32, measuredRpm: Int16, now: Word32)
      returns (changed: bool)
      requires file.Valid()
      modifies this, file.registers
      ensures file.Valid()
      ensures var result := ControlStep(old(file.View().regs), old(state), m, count, measuredRpm, now);
              state == result.pid && changed == result.changed &&
              file.View() == Run(old(file.View()), result.ops)
    {
      var r := file.View().regs;
      ghost var f, p := file.View(), state;
      var countsPerRev := LoadUint32(r, CountsPerRevReg(m));
      var mode := r[ModeReg(m)];
      if (mode != MODE_SPEED && mode != MODE_POSITION) || countsPerRev == 0 {
        changed := StopMotor(file, m);
      } else if NeedsRestart(r, state, m) {
        changed := RestartMotor(file, m, count, now);
      } else {
        var elapsedMs := Wrap32(now - state.lastUpdateMs);
        var slow := HoldMode(r, m) || mode == MODE_POSITION;
        assert ControlStep(r, p, m, count, measuredRpm, now) ==
               PeriodicStep(r, p, m, count, measuredRpm, countsPerRev, now);
        if elapsedMs < (if slow then POSITION_CONTROL_PERIOD_MS else SPEED_CONTROL_PERIOD_MS) { return false; }
        state := state.(lastUpdateMs := now);
        if slow {
          changed := UpdatePositionMotor(file, m, HoldMode(r, m), LoadInt32(r, TargetPositionReg(m)), count,
                                         countsPerRev, now);
        } else {
          changed := UpdateSpeedLoop(file, m, measuredRpm, elapsedMs);
        }
      }
    }

    /** A mode without closed-loop control, or no encoder scale to control with. */
    method StopMotor(file: RM.RegisterMap, m: Motor) returns (changed: bool)
      requires file.Valid()
      modifies this, file.registers
      ensures file.Valid() && state == ResetPid(old(state))
      ensures var r := old(file.View().regs); var active := SpeedMode(r, m) || PositionMode(r, m);
              changed == (active && r[DutyReg(m)] != 0) &&
              file.View() == Run(old(file.View()), [NoTelemetry(m)] +
                                 (if changed then [SetOutput(m, 0, r[DirectionReg(m)])] else []))
    {
      hide Refreshed, Store16, WithTelemetry;
      var r := file.View().regs;
      ghost var f := file.View();
      state := ResetPid(state);
      file.UpdateSpeedControlTelemetry(m, 0, 0, 0, 0);
      RunOne(f, [], NoTelemetry(m));
      assert [] + [NoTelemetry(m)] == [NoTelemetry(m)] && [NoTelemetry(m)] + [] == [NoTelemetry(m)];
      changed := (SpeedMode(r, m) || PositionMode(r, m)) && r[DutyReg(m)] != 0;
      if changed {
        DirectionKept(f, NoTelemetry(m), m);
        file.SetMotorDutyFromControl(m, 0);
        RunOne(f, [NoTelemetry(m)], SetOutput(m, 0, r[DirectionReg(m)]));
      }
    }

    /** A new command: the state starts over and the output drops to zero. */
    method RestartMotor(file: RM.RegisterMap, m: Motor, count: Int32, now: Word32) returns (changed: bool)
      requires file.Valid()
      modifies this, file.registers
      ensures file.Valid()
      ensures var result := Restart(old(file.View().regs), old(state), m, count, now);
              state == result.pid && changed == result.changed &&
              file.View() == Run(old(file.View()), result.ops)
    {
      hide Refreshed, LoadInt32, LoadUint16;
      var r := file.View().regs;
      ghost var f := file.View();
      ghost var first: seq<RegOp>, last := [], [NoTelemetry(m), SetOutput(m, 0, r[DirectionReg(m)])];
      var hold := HoldMode(r, m);
      state := ResetPid(state);
      state := state.(holdCount := count, lastUpdateMs := now, previousMode := r[ModeReg(m)],
                      previousDirection := DirectionKey(r, m), previousTargetPosition := TargetPositionKey(r, m),
                      holdMode := hold, initialized := true);
      if hold {
        state := state.(previousPositionError := 0, atTarget := true);
        PublishHold(file, m, count);
        first := [UpdateHold(m, count), UpdatePositionError(m, 0)];
        assert first + last == [UpdateHold(m, count), UpdatePositionError(m, 0), last[0], last[1]];
      } else if PositionMode(r, m) {
        var error := SaturateInt32(LoadInt32(r, TargetPositionReg(m)) - count);
        state := state.(previousPositionError := error,
                        atTarget := Abs(error) <= LoadUint16(r, REG_POSITION_TOLERANCE));
        PublishPosition(file, m, error);
        first := [UpdatePositionError(m, error), UpdateTargetRpm(m, 0)];
        assert first + last == [UpdatePositionError(m, error), UpdateTargetRpm(m, 0), last[0], last[1]];
      } else {
        assert first + last == last;
      }
      ClearOutput(file, m);
      RunConcat(f, first, last);
      changed := true;
    }

    static method PublishHold(file: RM.RegisterMap, m: Motor, count: Int32)
      requires file.Valid()
      modifies file.registers
      ensures file.Valid() && file.View() == Run(old(file.View()), [UpdateHold(m, count), UpdatePositionError(m, 0)])
      ensures file.View().regs[DirectionReg(m)] == old(file.View().regs[DirectionReg(m)])
    {
      TwoOps(file.View(), UpdateHold(m, count), UpdatePositionError(m, 0), m);
      file.UpdateHoldTarget(m, count);
      file.UpdatePositionError(m, 0);
    }

    static method PublishPosition(file: RM.RegisterMap, m: Motor, error: Int32)
      requires file.Valid()
      modifies file.registers
      ensures file.Valid() &&
              file.View() == Run(old(file.View()), [UpdatePositionError(m, error), UpdateTargetRpm(m, 0)])
      ensures file.View().regs[DirectionReg(m)] == old(file.View().regs[DirectionReg(m)])
    {
      TwoOps(file.View(), UpdatePositionError(m, error), UpdateTargetRpm(m, 0), m);
      file.UpdatePositionError(m, error);
      file.UpdateTargetRpmFromControl(m, 0);
    }

    /** Clears the motor's telemetry and its duty. */
    static method ClearOutput(file: RM.RegisterMap, m: Motor)
      requires file.Valid()
      modifies file.registers
      ensures file.Valid()
      ensures file.View() ==
              Run(old(file.View()), [NoTelemetry(m), SetOutput(m, 0, old(file.View().regs)[DirectionReg(m)])])
    {
      TwoOps(file.View(), NoTelemetry(m), SetOutput(m, 0, file.View().regs[DirectionReg(m)]), m);
      file.UpdateSpeedControlTelemetry(m, 0, 0, 0, 0);
      file.SetMotorDutyFromControl(m, 0);
    }

    static lemma TwoOps(f: RegFile, a: RegOp, b: RegOp, m: Motor)
      ensures Run(f, [a, b]) == Apply(Apply(f, a), b)
      ensures KeepsDirection(a) ==> Apply(f, a).regs[DirectionReg(m)] == f.regs[DirectionReg(m)]
      ensures KeepsDirection(a) && KeepsDirection(b) ==> Run(f, [a, b]).regs[DirectionReg(m)] == f.regs[DirectionReg(m)]
    {
      RunOne(f, [], a);
      RunOne(f, [a], b);
      assert [] + [a] == [a] && [a] + [b] == [a, b];
      DirectionKept(f, a, m);
      DirectionKept(Apply(f, a), b, m);
    }

    static predicate KeepsDirection(op: RegOp) {
      op.UpdateHold? || op.UpdatePositionError? || op.UpdateTargetRpm? || op.UpdateTelemetry?
    }

    static lemma DirectionKept(f: RegFile, op: RegOp, m: Motor)
      ensures KeepsDirection(op) ==> Apply(f, op).regs[DirectionReg(m)] == f.regs[DirectionReg(m)]
    {
    }

    /** The speed law: ramp, proportional-integral-derivative terms, anti-windup, duty limits. */
    method UpdateSpeedLoop(file: RM.RegisterMap, m: Motor, measuredRpm: Int16, elapsedMs: Word32)
      returns (changed: bool)
      requires file.Valid() && elapsedMs > 0
      modifies this, file.registers
      ensures file.Valid()
      ensures var result := SpeedStep(old(file.View().regs), old(state), m, measuredRpm, elapsedMs);
              state == result.pid && changed == result.changed &&
              file.View() == Run(old(file.View()), result.ops)
    {
      var r := file.View().regs;
      var s := RunSpeedLaw(r, m, measuredRpm, elapsedMs);
      PublishSpeed(file, m, s);
      changed := true;
    }

    static method PublishSpeed(file: RM.RegisterMap, m: Motor, s: SpeedResult)
      requires file.Valid()
      modifies file.registers
      ensures file.Valid() && file.View() == Run(old(file.View()), SpeedOps(old(file.View().regs), m, s))
    {
      hide Refreshed, Run, Store16, WithTelemetry, WithOutput;
      var duty, direction := DutyQ8ToPercent(s.pid.outputDutyQ8), file.View().regs[DirectionReg(m)];
      ghost var ops := SpeedOps(file.View().regs, m, s);
      TwoOps(file.View(), ops[0], ops[1], m);
      file.UpdateSpeedControlTelemetry(m, s.pid.controlTargetRpm, SaturateInt16(s.errorRpm),
                                       SaturateInt16(s.integralQ4), duty);
      file.SetMotorOutputFromControl(m, duty, direction);
    }

    method RunSpeedLaw(r: RegBytes, m: Motor, measuredRpm: Int16, elapsedMs: Word32) returns (s: SpeedResult)
      requires elapsedMs > 0
      modifies this
      ensures s == SpeedLaw(r, old(state), m, measuredRpm, elapsedMs) && state == s.pid
    {
      var commandRpm := AdvanceControlTarget(LoadUint16(r, TargetRpmReg(m)), LoadUint16(r, REG_SPEED_ACCEL),
                                             LoadUint16(r, REG_SPEED_DECEL), elapsedMs);
      var errorRpm := SpeedError(r, m, commandRpm, measuredRpm);
      var pidElapsedMs := elapsedMs;
      if pidElapsedMs > MAXIMUM_PID_ELAPSED_MS { pidElapsedMs := MAXIMUM_PID_ELAPSED_MS; }
      assert pidElapsedMs == Min(elapsedMs, MAXIMUM_PID_ELAPSED_MS);
      ghost var q := state;
      var other := ProportionalDerivative(r, errorRpm, state.previousErrorRpm, pidElapsedMs);
      state := state.(previousErrorRpm := errorRpm);
      var proposed := ProposedIntegral(r, state.integralQ4Ms, errorRpm, pidElapsedMs);
      Integrate(r, proposed, other, errorRpm);
      assert state == q.(previousErrorRpm := errorRpm,
                         integralQ4Ms := KeptIntegral(r, q.integralQ4Ms, proposed, other, errorRpm));
      var integralQ4 := TruncDiv(state.integralQ4Ms, PID_REFERENCE_PERIOD_MS);
      state := state.(outputDutyQ8 := ClampDutyQ8(other + integralQ4, r[REG_SPEED_MIN_DUTY], r[REG_SPEED_MAX_DUTY]));
      s := SpeedResult(state, errorRpm, integralQ4);
    }

    /** Keeps the proposed integral unless the output is saturated and the error drives it further out. */
    method Integrate(r: RegBytes, proposed: int, other: int, errorRpm: int)
      modifies this
      ensures state == old(state).(integralQ4Ms := KeptIntegral(r, old(state).integralQ4Ms, proposed, other, errorRpm))
    {
      var maxQ4 := r[REG_SPEED_MAX_DUTY] * PID_SCALE;
      var proposedOutput := other + TruncDiv(proposed, PID_REFERENCE_PERIOD_MS);
      var saturatingHigh := proposedOutput > maxQ4 && errorRpm > 0;
      var saturatingLow := proposedOutput < 0 && errorRpm < 0;
      if !saturatingHigh && !saturatingLow {
        state := state.(integralQ4Ms := proposed);
      }
    }
  }
}
