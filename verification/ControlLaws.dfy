/** What the controller and the output stage mean for the shaft: which way a bridge drives and how hard, which way a
    speed error pushes, when a motor counts as at its target, when a command starts over. */
module ControlLaws {
  import opened Arith
  import opened DivLemmas
  import opened RegisterSpec
  import opened RegisterInvariants
  import opened RegisterLaws
  import opened ControlSpec

  // ----- bridges -----

  function DirectionByte(r: RegBytes, m: Motor): Byte { if m.M1? then r[0x12] else r[0x22] }

  predicate Inverted(r: RegBytes, m: Motor) { Bit(r[0x06], if m.M1? then 0 else 1) }

  /** A driven bridge runs in reverse when the direction byte is 1, and with the motor's invert bit when it is not. */
  predicate TurnsBack(r: RegBytes, m: Motor) {
    if Inverted(r, m) then DirectionByte(r, m) != 1 else DirectionByte(r, m) == 1
  }

  /** The bridge from the register bytes: off when inhibited or not enabled; RUN at 256 times the duty byte, BRAKE
      braking, SPEED and POSITION at the controller's duty, anything else, or no duty, coasting. */
  lemma BridgeFollowsRegisters(f: RegFile, p: Pid, m: Motor, inhibited: bool)
    ensures var b, motion := Output(f, p, m, inhibited), MotionOf(f.regs, m);
            if inhibited || !Bit(f.regs[0x04], 0) then b == Coast
            else if motion.mode == 2 then b == Brake
            else if motion.mode == 1 && motion.duty > 0 then b == Drive(TurnsBack(f.regs, m), 256 * motion.duty)
            else if (motion.mode == 3 || motion.mode == 4) && p.outputDutyQ8 > 0
            then b == Drive(TurnsBack(f.regs, m), p.outputDutyQ8)
            else b == Coast
  {
  }

  // ----- the speed loop -----

  /** The measured speed in the commanded direction. */
  function Along(r: RegBytes, m: Motor, measuredRpm: Int16): int {
    if DirectionByte(r, m) == 1 then 0 - measuredRpm else measuredRpm
  }

  /** A speed command under way, and a call that is due. */
  predicate SpeedDue(r: RegBytes, p: Pid, m: Motor, now: Word32) {
    MotionOf(r, m).mode == 3 && MotionOf(r, m).targetRpm != 0 && LoadUint32(r, CountsPerRevReg(m)) != 0 &&
    !NeedsRestart(r, p, m) && Wrap32(now - p.lastUpdateMs) >= 10
  }

  lemma SpeedDueIsSpeedStep(r: RegBytes, p: Pid, m: Motor, count: Int32, measuredRpm: Int16, now: Word32)
    requires SpeedDue(r, p, m, now)
    ensures ControlStep(r, p, m, count, measuredRpm, now) ==
            SpeedStep(r, p.(lastUpdateMs := now), m, measuredRpm, Wrap32(now - p.lastUpdateMs))
  {
    hide SpeedStep, NeedsRestart, PositionStep, Restart, LoadUint32;
  }

  /** The error is zero, positive or negative exactly as the speed along the commanded direction equals, is below or
      is above the ramped target; it is reported, and the direction is left as commanded. */
  lemma SpeedErrorMeans(r: RegBytes, p: Pid, m: Motor, count: Int32, measuredRpm: Int16, now: Word32)
    requires SpeedDue(r, p, m, now)
    ensures var s := ControlStep(r, p, m, count, measuredRpm, now);
            var target, error := s.pid.controlTargetRpm, s.pid.previousErrorRpm;
            (error > 0 <==> Along(r, m, measuredRpm) < target) && (error < 0 <==> Along(r, m, measuredRpm) > target) &&
            |s.ops| == 2 && s.ops[0].UpdateTelemetry? && s.ops[0].m == m && s.ops[0].rpm == target &&
            (s.ops[0].error > 0 <==> error > 0) && (s.ops[0].error < 0 <==> error < 0) &&
            s.ops[1].SetOutput? && s.ops[1].m == m && s.ops[1].direction == DirectionByte(r, m) &&
            s.ops[0].duty == s.ops[1].duty && s.changed
  {
    SpeedDueIsSpeedStep(r, p, m, count, measuredRpm, now);
    hide ControlStep, Advance, ProportionalDerivative, KeptIntegral, ProposedIntegral, ClampDutyQ8, LoadUint16,
    NeedsRestart;
  }

  /** What the integral may reach at the present maximum duty. */
  function IntegralLimit(r: RegBytes): nat { 1600 * (r[0x3D] as int) }

  lemma GainSign(k: Byte, x: int)
    ensures Gain(k, x) == k * x
    ensures x >= 0 ==> Gain(k, x) >= 0
    ensures x <= 0 ==> Gain(k, x) <= 0
    ensures k > 0 && x > 0 ==> Gain(k, x) > 0
    ensures k > 0 && x < 0 ==> Gain(k, x) < 0
  {
    GainIsProduct(k, x);
    if x >= 0 { MulMonotone(k, 0, x); } else { MulMonotone(k, x, 0); }
    if k > 0 { if x > 0 { MulMonotone(k, 1, x); } else if x < 0 { MulMonotone(k, x, -1); } }
  }

  lemma ElapsedProduct(error: int, elapsed: nat)
    requires elapsed > 0
    ensures (error > 0 ==> error * elapsed > 0) && (error < 0 ==> error * elapsed < 0)
    ensures error == 0 ==> error * elapsed == 0
  {
  }

  lemma ProposalFollowsError(r: RegBytes, integral: int, error: int, elapsed: nat)
    requires elapsed > 0 && Abs(integral) <= IntegralLimit(r)
    ensures var proposed := ProposedIntegral(r, integral, error, elapsed);
            Abs(proposed) <= IntegralLimit(r) &&
            (error > 0 ==> proposed >= integral) && (error < 0 ==> proposed <= integral) &&
            (error == 0 || r[0x3B] == 0 ==> proposed == integral) &&
            (r[0x3B] > 0 && error > 0 && integral < IntegralLimit(r) ==> proposed > integral) &&
            (r[0x3B] > 0 && error < 0 && -(IntegralLimit(r) as int) < integral ==> proposed < integral)
  {
    ElapsedProduct(error, elapsed);
    GainSign(r[0x3B], error * elapsed);
    if r[0x3B] == 0 { GainIsProduct(0, error * elapsed); }
  }

  /** The integral is held back exactly while the output it would give lies past the end it is pushed toward. */
  lemma HeldBack(r: RegBytes, integral: int, proposed: int, other: int, error: int)
    ensures var wanted := other + TruncDiv(proposed, 100); var top := 16 * (r[0x3D] as int);
            KeptIntegral(r, integral, proposed, other, error) ==
            if (error > 0 && top < wanted) || (error < 0 && wanted < 0) then integral else proposed
  {
  }

  /** The integral rises only under a positive error and falls only under a negative one. With an integral gain alone
      it does rise under a positive error, up to its limit. */
  lemma IntegralFollowsError(r: RegBytes, p: Pid, m: Motor, count: Int32, measuredRpm: Int16, now: Word32)
    requires SpeedDue(r, p, m, now) && Abs(p.integralQ4Ms) <= IntegralLimit(r)
    ensures var s := ControlStep(r, p, m, count, measuredRpm, now);
            var error, before, after := s.pid.previousErrorRpm, p.integralQ4Ms, s.pid.integralQ4Ms;
            Abs(after) <= IntegralLimit(r) && (error > 0 ==> after >= before) && (error < 0 ==> after <= before) &&
            (error == 0 || r[0x3B] == 0 ==> after == before) &&
            (r[0x3A] == 0 && r[0x3C] == 0 && r[0x3B] > 0 && error > 0 && before < IntegralLimit(r) ==> after > before)
  {
    hide ControlStep, SpeedStep, NeedsRestart, LoadUint32, SpeedDue, ProposedIntegral, KeptIntegral, SpeedLaw;
    SpeedDueIsSpeedStep(r, p, m, count, measuredRpm, now);
    DueTime(r, p, m, now);
    SpeedStepIntegral(r, p.(lastUpdateMs := now), m, measuredRpm, Wrap32(now - p.lastUpdateMs));
  }

  lemma SpeedStepIntegral(r: RegBytes, p: Pid, m: Motor, measuredRpm: Int16, elapsedMs: Word32)
    requires elapsedMs > 0 && Abs(p.integralQ4Ms) <= IntegralLimit(r)
    ensures var s := SpeedStep(r, p, m, measuredRpm, elapsedMs);
            var error, before, after := s.pid.previousErrorRpm, p.integralQ4Ms, s.pid.integralQ4Ms;
            Abs(after) <= IntegralLimit(r) && (error > 0 ==> after >= before) && (error < 0 ==> after <= before) &&
            (error == 0 || r[0x3B] == 0 ==> after == before) &&
            (r[0x3A] == 0 && r[0x3C] == 0 && r[0x3B] > 0 && error > 0 && before < IntegralLimit(r) ==> after > before)
  {
    hide ProposedIntegral, KeptIntegral, ProportionalDerivative, SpeedError, LoadUint16, ClampDutyQ8, TruncDiv, Advance;
    var q := Advance(p, LoadUint16(r, TargetRpmReg(m)), LoadUint16(r, REG_SPEED_ACCEL),
                     LoadUint16(r, REG_SPEED_DECEL), elapsedMs);
    AdvanceKeepsTerms(p, LoadUint16(r, TargetRpmReg(m)), LoadUint16(r, REG_SPEED_ACCEL),
                      LoadUint16(r, REG_SPEED_DECEL), elapsedMs);
    var error, elapsed := SpeedError(r, m, q.controlTargetRpm, measuredRpm), Min(elapsedMs, 100);
    var other := ProportionalDerivative(r, error, q.previousErrorRpm, elapsed);
    var proposed := ProposedIntegral(r, p.integralQ4Ms, error, elapsed);
    ProposalFollowsError(r, p.integralQ4Ms, error, elapsed);
    HeldBack(r, p.integralQ4Ms, proposed, other, error);
    if r[0x3A] == 0 && r[0x3C] == 0 { NoOtherTerms(r, error, q.previousErrorRpm, elapsed); }
    HundredthOf(proposed, IntegralLimit(r));
  }

  lemma AdvanceKeepsTerms(p: Pid, requested: Word16, accel: Word16, decel: Word16, elapsedMs: Word32)
    ensures var q := Advance(p, requested, accel, decel, elapsedMs);
            q.integralQ4Ms == p.integralQ4Ms && q.previousErrorRpm == p.previousErrorRpm
  {
  }

  lemma NoOtherTerms(r: RegBytes, error: int, previous: int, elapsed: nat)
    requires r[0x3A] == 0 && r[0x3C] == 0 && elapsed > 0
    ensures ProportionalDerivative(r, error, previous, elapsed) == 0
  {
  }

  lemma HundredthOf(x: int, limit: nat)
    requires Abs(x) <= limit
    ensures 100 * TruncDiv(x, 100) <= limit
  {
  }

  // ----- proportional control -----

  lemma GainMonotone(k: Byte, x: int, y: int)
    requires x <= y
    ensures Gain(k, x) <= Gain(k, y)
  {
    GainIsProduct(k, x);
    GainIsProduct(k, y);
    MulMonotone(k, x, y);
  }

  /** More demand never means less duty, none means none, and inside the band it is the demand in 1/256 percent. */
  lemma DutyFollowsDemand(low: int, high: int, minDuty: Byte, maxDuty: Byte)
    requires low <= high
    ensures ClampDutyQ8(low, minDuty, maxDuty) <= ClampDutyQ8(high, minDuty, maxDuty)
    ensures low <= 0 ==> ClampDutyQ8(low, minDuty, maxDuty) == 0
    ensures 0 < low && minDuty * 16 <= low <= Min(maxDuty, 100) * 16 ==> ClampDutyQ8(low, minDuty, maxDuty) == 16 * low
  {
  }

  /** Under proportional control the duty never rises with the speed along the commanded direction, and with nothing
      integrated it is zero at or above the target. */
  lemma FasterIsDrivenLess(r: RegBytes, p: Pid, m: Motor, count: Int32, slow: Int16, fast: Int16, now: Word32)
    requires SpeedDue(r, p, m, now) && r[0x3B] == 0 && r[0x3C] == 0 && Abs(p.integralQ4Ms) <= IntegralLimit(r)
    requires Along(r, m, slow) <= Along(r, m, fast)
    ensures var s, t := ControlStep(r, p, m, count, slow, now), ControlStep(r, p, m, count, fast, now);
            s.pid.controlTargetRpm == t.pid.controlTargetRpm && s.pid.outputDutyQ8 >= t.pid.outputDutyQ8 &&
            (p.integralQ4Ms == 0 && Along(r, m, fast) >= t.pid.controlTargetRpm ==> t.pid.outputDutyQ8 == 0)
  {
    hide ControlStep, SpeedStep, NeedsRestart, LoadUint32, SpeedDue, SpeedLaw, DirectionByte;
    SpeedDueIsSpeedStep(r, p, m, count, slow, now);
    SpeedDueIsSpeedStep(r, p, m, count, fast, now);
    var q, elapsed := p.(lastUpdateMs := now), Wrap32(now - p.lastUpdateMs);
    DueTime(r, p, m, now);
    ProportionalOutput(r, q, m, slow, elapsed);
    ProportionalOutput(r, q, m, fast, elapsed);
    var target := SpeedStep(r, q, m, slow, elapsed).pid.controlTargetRpm;
    var e1, e2 := target - Along(r, m, slow), target - Along(r, m, fast);
    GainMonotone(r[0x3A], e2, e1);
    GainSign(r[0x3A], e2);
    DutyFollowsDemand(Gain(r[0x3A], e2) + TruncDiv(p.integralQ4Ms, 100),
                      Gain(r[0x3A], e1) + TruncDiv(p.integralQ4Ms, 100),
                      r[0x3E], r[0x3D]);
  }

  lemma DueTime(r: RegBytes, p: Pid, m: Motor, now: Word32)
    requires SpeedDue(r, p, m, now)
    ensures Wrap32(now - p.lastUpdateMs) >= 10
  {
  }

  lemma ProportionalOutput(r: RegBytes, p: Pid, m: Motor, measuredRpm: Int16, elapsedMs: Word32)
    requires elapsedMs > 0 && r[0x3B] == 0 && r[0x3C] == 0 && Abs(p.integralQ4Ms) <= IntegralLimit(r)
    ensures var s := SpeedStep(r, p, m, measuredRpm, elapsedMs);
            s.pid.controlTargetRpm == SpeedStep(r, p, m, 0, elapsedMs).pid.controlTargetRpm &&
            s.pid.outputDutyQ8 ==
              ClampDutyQ8(Gain(r[0x3A], s.pid.controlTargetRpm - Along(r, m, measuredRpm)) +
                          TruncDiv(p.integralQ4Ms, 100), r[0x3E], r[0x3D])
  {
    SpeedStepIntegral(r, p, m, measuredRpm, elapsedMs);
    AdvanceKeepsTerms(p, LoadUint16(r, TargetRpmReg(m)), LoadUint16(r, REG_SPEED_ACCEL),
                      LoadUint16(r, REG_SPEED_DECEL), elapsedMs);
    hide Advance, ClampDutyQ8, LoadUint16, KeptIntegral, ProposedIntegral, TruncDiv;
  }

  /** Derivative control alone drives only while the error grows. */
  lemma DerivativeOpposesChange(r: RegBytes, p: Pid, m: Motor, count: Int32, measuredRpm: Int16, now: Word32)
    requires SpeedDue(r, p, m, now) && r[0x3A] == 0 && r[0x3B] == 0 && p.integralQ4Ms == 0
    ensures var s := ControlStep(r, p, m, count, measuredRpm, now);
            s.pid.outputDutyQ8 > 0 ==> s.pid.previousErrorRpm > p.previousErrorRpm
  {
    hide ControlStep, SpeedStep, NeedsRestart, LoadUint32, SpeedDue;
    SpeedDueIsSpeedStep(r, p, m, count, measuredRpm, now);
    DueTime(r, p, m, now);
    DerivativeOutput(r, p.(lastUpdateMs := now), m, measuredRpm, Wrap32(now - p.lastUpdateMs));
  }

  lemma DerivativeOutput(r: RegBytes, p: Pid, m: Motor, measuredRpm: Int16, elapsedMs: Word32)
    requires elapsedMs > 0 && r[0x3A] == 0 && r[0x3B] == 0 && p.integralQ4Ms == 0
    ensures var s := SpeedStep(r, p, m, measuredRpm, elapsedMs);
            s.pid.outputDutyQ8 > 0 ==> s.pid.previousErrorRpm > p.previousErrorRpm
  {
    SpeedStepIntegral(r, p, m, measuredRpm, elapsedMs);
    AdvanceKeepsTerms(p, LoadUint16(r, TargetRpmReg(m)), LoadUint16(r, REG_SPEED_ACCEL),
                      LoadUint16(r, REG_SPEED_DECEL), elapsedMs);
    var s := SpeedStep(r, p, m, measuredRpm, elapsedMs);
    var change := s.pid.previousErrorRpm - p.previousErrorRpm;
    if change <= 0 { RateSign(change, Min(elapsedMs, 100)); }
    GainSign(r[0x3C], TruncDiv(change * 100, Min(elapsedMs, 100)));
    hide Advance, LoadUint16, KeptIntegral, ProposedIntegral, SpeedError;
  }

  lemma RateSign(change: int, elapsed: nat)
    requires elapsed > 0 && change <= 0
    ensures TruncDiv(change * 100, elapsed) <= 0
  {
    if change < 0 { DivAtLeast(-(change * 100), elapsed, 0); }
  }

  // ----- when commands start over -----

  /** A state that belongs to one command starts over for another exactly when the mode changed, or a speed command
      its direction, or a position command its target, or holding began or ended. */
  lemma RestartsOnChange(r: RegBytes, r': RegBytes, p: Pid, m: Motor)
    requires !NeedsRestart(r, p, m)
    ensures var before, after := MotionOf(r, m), MotionOf(r', m);
            NeedsRestart(r', p, m) <==>
            before.mode != after.mode || (after.mode == 3 && DirectionByte(r, m) != DirectionByte(r', m)) ||
            (after.mode == 4 && LoadInt32(r, TargetPositionReg(m)) != LoadInt32(r', TargetPositionReg(m))) ||
            (after.mode == 3 && (before.targetRpm == 0) != (after.targetRpm == 0))
  {
  }

  /** Starting over switches the output off, forgets both integrals, and belongs to the command from then on. */
  lemma RestartStops(r: RegBytes, p: Pid, m: Motor, count: Int32, measuredRpm: Int16, now: Word32)
    requires MotionOf(r, m).mode in {3, 4} && LoadUint32(r, CountsPerRevReg(m)) != 0 && NeedsRestart(r, p, m)
    ensures var s := ControlStep(r, p, m, count, measuredRpm, now);
            s.changed && !NeedsRestart(r, s.pid, m) && s.pid.outputDutyQ8 == 0 && s.pid.lastUpdateMs == now &&
            s.pid.integralQ4Ms == 0 && s.pid.positionIntegralQ4 == 0 && s.pid.controlTargetRpm == 0 &&
            |s.ops| > 0 && s.ops[|s.ops| - 1] == SetOutput(m, 0, DirectionByte(r, m)) &&
            (s.pid.holdMode <==> MotionOf(r, m).mode == 3 && MotionOf(r, m).targetRpm == 0) &&
            (s.pid.holdMode ==> s.pid.holdCount == count && s.pid.atTarget) &&
            (MotionOf(r, m).mode == 3 && !s.pid.holdMode ==> !s.pid.atTarget) &&
            (MotionOf(r, m).mode == 4 ==>
               s.pid.previousPositionError == SaturateInt32(LoadInt32(r, TargetPositionReg(m)) - count) &&
               (s.pid.atTarget <==> Abs(s.pid.previousPositionError) <= LoadUint16(r, REG_POSITION_TOLERANCE)))
  {
    hide LoadUint32, LoadInt32;
  }

  /** Between two calls that are due nothing happens: 10 ms apart in speed control, 100 ms in hold and position. */
  lemma EarlyCallWaits(r: RegBytes, p: Pid, m: Motor, count: Int32, measuredRpm: Int16, now: Word32)
    requires MotionOf(r, m).mode in {3, 4} && LoadUint32(r, CountsPerRevReg(m)) != 0 && !NeedsRestart(r, p, m)
    ensures var s := ControlStep(r, p, m, count, measuredRpm, now);
            var period := if MotionOf(r, m).mode == 3 && MotionOf(r, m).targetRpm != 0 then 10 else 100;
            Wrap32(now - p.lastUpdateMs) < period <==> s == ControlResult([], p, false)
  {
    hide LoadUint32, LoadInt32, SpeedLaw, PositionCommandQ4, PositionRpm, PositionDuty, PositionIntegral;
  }

  /** Without a closed-loop mode, or without a scale, the state is forgotten, and an output still on is switched off. */
  lemma OpenLoopForgets(r: RegBytes, p: Pid, m: Motor, count: Int32, measuredRpm: Int16, now: Word32)
    requires MotionOf(r, m).mode !in {3, 4} || LoadUint32(r, CountsPerRevReg(m)) == 0
    ensures var s := ControlStep(r, p, m, count, measuredRpm, now);
            s.pid.outputDutyQ8 == 0 && !s.pid.initialized && s.pid.integralQ4Ms == 0 && s.pid.positionIntegralQ4 == 0 &&
            !s.pid.atTarget && !s.pid.holdMode && s.pid.controlTargetRpm == 0 &&
            s.pid.lastUpdateMs == p.lastUpdateMs &&
            (s.changed <==> MotionOf(r, m).mode in {3, 4} && MotionOf(r, m).duty != 0) &&
            (s.changed ==> |s.ops| == 2 && s.ops[1] == SetOutput(m, 0, DirectionByte(r, m))) &&
            (!s.changed ==> |s.ops| == 1)
  {
    hide LoadUint32, LoadInt32;
  }

  // ----- when a motor is at its target -----

  /** The deadline has come, on the 32-bit clock: it lies at most 2^31 ms back. */
  predicate Settled(now: Word32, deadline: Word32) { Wrap32(now - deadline) < 0x8000_0000 }

  lemma SettledMeans(now: Word32, deadline: Word32)
    ensures Settled(now, deadline) <==> !TimeBefore(now, deadline)
  {
  }

  /** Inside the tolerance a motor is at its target. One that is there leaves only beyond the wider of the two
      tolerances and once settled; one that is not arrives only inside the tolerance or by crossing the target. */
  lemma AtTargetTracking(r: RegBytes, p: Pid, error: Int32, now: Word32)
    ensures var q := TargetTracking(r, p, error, now);
            var enter, exit := LoadUint16(r, 0x65), Max(LoadUint16(r, 0x6A), LoadUint16(r, 0x65));
            var crossed := (p.previousPositionError > 0 && error < 0) || (p.previousPositionError < 0 && error > 0);
            (Abs(error) <= enter ==> q.atTarget) &&
            (p.atTarget ==> (q.atTarget <==> Abs(error) <= exit || !Settled(now, p.settleUntilMs))) &&
            (!p.atTarget && !crossed ==> (q.atTarget <==> Abs(error) <= enter)) &&
            (!p.atTarget && crossed && r[0x6C] > 0 ==> q.atTarget) &&
            (q.atTarget && !p.atTarget ==>
               q.positionIntegralQ4 == 0 && q.settleUntilMs == Wrap32(now + 10 * (r[0x6C] as int)))
  {
    hide LoadUint16;
    SettledMeans(now, p.settleUntilMs);
    SettledMeans(now, Wrap32(now + 10 * (r[0x6C] as int)));
    FutureNotSettled(now, 10 * (r[0x6C] as int));
    SignProduct(p.previousPositionError, error);
  }

  lemma SignProduct(x: int, y: int)
    ensures Sign(x) * Sign(y) == -1 <==> (x > 0 && y < 0) || (x < 0 && y > 0)
  {
  }

  lemma FutureNotSettled(now: Word32, ms: nat)
    requires ms < 0x8000_0000
    ensures Settled(now, Wrap32(now + ms)) <==> ms == 0
  {
  }

  /** The duty reported is the nearest percent to the duty applied. */
  lemma ReportedDutyIsNearest(dutyQ8: Word16)
    requires dutyQ8 <= 25600
    ensures 2 * Abs(256 * (DutyQ8ToPercent(dutyQ8) as int) - dutyQ8) <= 256
  {
  }

  // ----- position control -----

  /** A term of the position law in sixteenths of an rpm: gain times error in turns a minute, rounded toward zero. */
  lemma PositionTermMeans(error: Int32, gain: Byte, countsPerRev: Word32)
    requires countsPerRev != 0
    ensures var term := PositionTermQ4(error, gain, countsPerRev);
            Abs(term) * countsPerRev <= Abs(error) * (60 * (gain as int)) < (Abs(term) + 1) * countsPerRev &&
            (error >= 0 ==> term >= 0) && (error <= 0 ==> term <= 0)
  {
    var n := error * (gain as int) * 60;
    GainTimes(error, gain);
    TruncDivBounds(n, countsPerRev);
    assert gain == 0 ==> n == 0;
  }

  lemma GainTimes(error: int, gain: Byte)
    ensures Abs(error * (gain as int) * 60) == Abs(error) * (60 * (gain as int))
    ensures error >= 0 ==> error * (gain as int) * 60 >= 0
    ensures error <= 0 ==> error * (gain as int) * 60 <= 0
  {
    MulMonotone(gain, 0, Abs(error));
    assert error * (gain as int) * 60 == error * (60 * (gain as int));
    if error < 0 { assert error * (60 * (gain as int)) == -((-error) * (60 * (gain as int))); }
  }

  /** A demand is limited to the maximum speed in either direction alike. */
  lemma DemandIsLimited(v: int, maxRpm: Word16)
    ensures var c := ClampQ4(v, maxRpm);
            Abs(c) == Min(Abs(v), 16 * maxRpm) && (v >= 0 ==> c >= 0) && (v <= 0 ==> c <= 0)
  {
  }

  /** The speed asked for is the nearest rpm to the limited demand. */
  lemma SpeedAskedIsNearest(v: int, maxRpm: Word16)
    ensures 2 * Abs(16 * (CommandRpmFromQ4(v, maxRpm) as int) - Min(Abs(v), 16 * maxRpm)) <= 16
  {
  }

  /** The duty for a speed lies between the two limits in proportion to the maximum speed, to the nearest percent;
      from the maximum on it is the upper limit, and without a speed, a maximum or a limit there is none. */
  lemma PositionDutyMeans(rpm: Word16, maxRpm: Word16, minDuty: Byte, maxDuty: Byte, hi: nat, lo: nat)
    requires hi == (if maxDuty > 100 then 100 else maxDuty) && lo == (if minDuty > hi then hi else minDuty)
    ensures var duty := PositionDuty(rpm, maxRpm, minDuty, maxDuty);
            if rpm == 0 || maxRpm == 0 || hi == 0 then duty == 0
            else if rpm >= maxRpm then duty == hi
            else lo <= duty <= hi && 2 * Abs((duty - lo) * maxRpm - rpm * (hi - lo)) <= maxRpm
  {
    if rpm != 0 && hi != 0 && rpm < maxRpm {
      RoundedShareInSpan(rpm, hi - lo, maxRpm);
      ShareIsNearest(rpm, hi - lo, maxRpm);
    }
  }

  lemma ShareIsNearest(part: nat, span: nat, whole: nat)
    requires whole > 0
    ensures 2 * Abs(RoundedShare(part, span, whole) * whole - part * span) <= whole
  {
    var n := part * span;
    assert n >= 0 by { MulMonotone(part, 0, span); }
    var q := (n + whole / 2) / whole;
    DivMod(n + whole / 2, whole);
    assert RoundedShare(part, span, whole) == q;
    assert q * whole <= n + whole / 2 < q * whole + whole;
  }

  /** Without a rate in its direction the ramp follows the request at once. */
  lemma NoRateNoRamp(p: Pid, requested: Word16, accel: Word16, decel: Word16, elapsedMs: Word32)
    requires (requested > p.controlTargetRpm && accel == 0) || (requested < p.controlTargetRpm && decel == 0)
    ensures var q := Advance(p, requested, accel, decel, elapsedMs);
            q.controlTargetRpm == requested && q.rampRemainder == 0 && q.rampDirection == 0
  {
  }

  /** A position or hold command under way, and a call that is due. */
  predicate PositionDue(r: RegBytes, p: Pid, m: Motor, now: Word32) {
    (MotionOf(r, m).mode == 4 || (MotionOf(r, m).mode == 3 && MotionOf(r, m).targetRpm == 0)) &&
    LoadUint32(r, CountsPerRevReg(m)) != 0 && !NeedsRestart(r, p, m) && Wrap32(now - p.lastUpdateMs) >= 100
  }

  /** Where a motor is to be: its target position, or while holding the count it holds. */
  function Goal(r: RegBytes, p: Pid, m: Motor): Int32 {
    if MotionOf(r, m).mode == 4 then LoadInt32(r, TargetPositionReg(m)) else p.holdCount
  }

  lemma PositionDueIsPositionStep(r: RegBytes, p: Pid, m: Motor, count: Int32, measuredRpm: Int16, now: Word32)
    requires PositionDue(r, p, m, now)
    ensures ControlStep(r, p, m, count, measuredRpm, now) ==
            PositionStep(r, p.(lastUpdateMs := now), m, count, LoadUint32(r, CountsPerRevReg(m)), now)
  {
    hide SpeedStep, NeedsRestart, PositionStep, Restart, LoadUint32;
  }

  /** The distance to the goal is reported and kept; at the goal the motor is switched off; the duty kept for the bridge
      is the duty in the registers; the speed asked for is reported, but not while holding. */
  lemma PositionStepReports(r: RegBytes, p: Pid, m: Motor, count: Int32, measuredRpm: Int16, now: Word32, error: int)
    requires PositionDue(r, p, m, now) && error == Goal(r, p, m) - count && -0x8000_0000 <= error < 0x8000_0000
    ensures var s := ControlStep(r, p, m, count, measuredRpm, now); var n := |s.ops| - 1;
            s.changed && s.pid.previousPositionError == error && s.pid.lastUpdateMs == now &&
            n == (if MotionOf(r, m).mode == 4 then 2 else 1) && s.ops[0] == UpdatePositionError(m, error) &&
            s.ops[n].SetOutput? && s.ops[n].m == m && s.pid.outputDutyQ8 == 256 * s.ops[n].duty &&
            (s.pid.atTarget ==> s.ops[n].duty == 0 && s.ops[n].direction == 0) &&
            (n == 2 ==> s.ops[1].UpdateTargetRpm? && s.ops[1].m == m && (s.pid.atTarget ==> s.ops[1].rpm == 0))
  {
    hide ControlStep, PositionDuty, PositionRpm, PositionCommandQ4, PositionIntegral, LoadUint32, NeedsRestart;
    PositionDueIsPositionStep(r, p, m, count, measuredRpm, now);
  }

  /** The integral of the position law never moves against the error, and stays within the limit of the speed. */
  lemma PositionIntegralFollowsError(r: RegBytes, integral: int, error: Int32, countsPerRev: Word32)
    requires countsPerRev != 0 && Abs(integral) <= 16 * LoadUint16(r, REG_POSITION_MAX_RPM)
    ensures var next, limit := PositionIntegral(r, integral, error, countsPerRev),
                               16 * LoadUint16(r, REG_POSITION_MAX_RPM);
            Abs(next) <= limit && (error >= 0 ==> next >= integral) && (error <= 0 ==> next <= integral) &&
            (Abs(error) * (60 * (r[0x61] as int)) >= countsPerRev && Abs(integral) < limit ==> next != integral)
  {
    hide PositionTermQ4, LoadUint16;
    PositionTermMeans(error, r[0x61], countsPerRev);
  }

  lemma NoGainNoTerm(error: Int32, gain: Byte, countsPerRev: Word32)
    requires gain == 0
    ensures PositionTermQ4(error, gain, countsPerRev) == 0
  {
  }

  /** Without proportional and derivative gain the demand is the integral. */
  lemma IntegralAlone(r: RegBytes, integral: int, error: Int32, previous: Int32, countsPerRev: Word32)
    requires r[0x60] == 0 && r[0x62] == 0 && Abs(integral) <= 16 * LoadUint16(r, REG_POSITION_MAX_RPM)
    ensures PositionCommandQ4(r, integral, error, previous, countsPerRev) == integral
  {
    hide PositionTermQ4, LoadUint16;
    NoGainNoTerm(error, r[0x60], countsPerRev);
    NoGainNoTerm(SaturateInt32(error - previous), r[0x62], countsPerRev);
  }

  /** The derivative alone drives the way the error grows, and so brakes while it shrinks. */
  lemma DerivativeAlone(r: RegBytes, error: Int32, previous: Int32, countsPerRev: Word32)
    requires countsPerRev != 0 && r[0x60] == 0 && -0x8000_0000 <= error - previous < 0x8000_0000
    ensures var q := PositionCommandQ4(r, 0, error, previous, countsPerRev);
            (error <= previous ==> q <= 0) && (error >= previous ==> q >= 0) &&
            (LoadUint16(r, REG_POSITION_MAX_RPM) > 0 ==>
               Abs(error - previous) * (60 * (r[0x62] as int)) >= countsPerRev ==> q != 0)
  {
    hide PositionTermQ4, LoadUint16;
    NoGainNoTerm(error, r[0x60], countsPerRev);
    PositionTermMeans(error - previous, r[0x62], countsPerRev);
    assert SaturateInt32(error - previous) == error - previous;
    DemandIsLimited(PositionTermQ4(error - previous, r[0x62], countsPerRev), LoadUint16(r, REG_POSITION_MAX_RPM));
    hide ClampQ4;
  }

  /** Outside the tolerance a motor with any gain and any speed allowed is asked for at least 1 rpm; otherwise for the
      nearest to the demand. */
  lemma AtLeastOneRpm(r: RegBytes, v: int, error: Int32)
    ensures var rpm, maxRpm := PositionRpm(r, v, error), LoadUint16(r, REG_POSITION_MAX_RPM);
            var asked := Abs(error) > LoadUint16(r, REG_POSITION_TOLERANCE) && maxRpm > 0 &&
                         (r[0x60] > 0 || r[0x61] > 0 || r[0x62] > 0);
            rpm == if asked then Max(1, CommandRpmFromQ4(v, maxRpm)) else CommandRpmFromQ4(v, maxRpm)
  {
    hide LoadUint16;
  }
}
