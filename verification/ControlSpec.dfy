/** The speed and position controller as values: what one control step does to a motor's
    state, and the register operations it issues. */
module ControlSpec {
  import opened Arith
  import opened DivLemmas
  import opened RegisterSpec
  import opened RegisterInvariants

  const SPEED_CONTROL_PERIOD_MS: nat := 10
  const POSITION_CONTROL_PERIOD_MS: nat := 100
  const PID_REFERENCE_PERIOD_MS: nat := 100
  const MAXIMUM_PID_ELAPSED_MS: nat := 100
  const PID_SCALE: nat := 16
  const DUTY_Q8_SCALE: nat := 256

  datatype Pid = Pid(
    integralQ4Ms: int, previousErrorRpm: int, rampRemainder: Word32,
    holdCount: Int32, previousPositionError: Int32, previousTargetPosition: Int32,
    positionIntegralQ4: int, lastUpdateMs: Word32, settleUntilMs: Word32,
    controlTargetRpm: Word16, outputDutyQ8: Word16,
    previousMode: Byte, previousDirection: Byte, rampDirection: int,
    holdMode: bool, atTarget: bool, initialized: bool)

  function ResetPid(p: Pid): Pid {
    Pid(0, 0, 0, 0, 0, 0, 0, p.lastUpdateMs, 0, 0, 0, MODE_COAST, 0, 0, false, false, false)
  }

  // ----- arithmetic -----

  function SaturateInt16(v: int): Int16 { Clamp(v, -0x8000, 0x7FFF) }
  function SaturateInt32(v: int): Int32 { Clamp(v, -0x8000_0000, 0x7FFF_FFFF) }
  function Sign(v: int): int { if v > 0 then 1 else if v < 0 then -1 else 0 }

  /** A controller gain times a value, as repeated addition. */
  function Gain(k: Byte, x: int): int
    decreases k
  {
    if k == 0 then 0 else x + Gain(k - 1, x)
  }

  lemma {:induction false} GainIsProduct(k: Byte, x: int)
    ensures Gain(k, x) == k * x
    decreases k
  {
    if k > 0 {
      GainIsProduct(k - 1, x);
      assert (k - 1) * x == k * x - x;
    }
  }

  predicate TimeBefore(now: Word32, deadline: Word32) {
    ToInt32(now - deadline) < 0
  }

  function ClampDutyQ8(dutyQ4: int, minDuty: Byte, maxDuty: Byte): Word16 {
    var hi := Min(maxDuty, 100);
    var lo := Min(minDuty, hi);
    if dutyQ4 <= 0 then 0
    else Clamp(dutyQ4, lo * PID_SCALE, hi * PID_SCALE) * DUTY_Q8_SCALE / PID_SCALE
  }

  function DutyQ8ToPercent(dutyQ8: Word16): Byte {
    Min((dutyQ8 + DUTY_Q8_SCALE / 2) / DUTY_Q8_SCALE, 100)
  }

  function ClampQ4(v: int, maxRpm: Word16): (clamped: int)
    ensures Abs(clamped) <= maxRpm * PID_SCALE
  {
    Clamp(v, -(maxRpm * PID_SCALE as int), maxRpm * PID_SCALE)
  }

  function PositionTermQ4(errorCount: Int32, gain: Byte, countsPerRev: Word32): int {
    if gain == 0 || countsPerRev == 0 then 0 else TruncDiv(errorCount * (gain as int) * 60, countsPerRev)
  }

  function CommandRpmFromQ4(commandQ4: int, maxRpm: Word16): Word16 {
    (Min(Abs(commandQ4), maxRpm * PID_SCALE) + PID_SCALE / 2) / PID_SCALE
  }

  function PositionDuty(commandRpm: Word16, maxRpm: Word16, minDuty: Byte, maxDuty: Byte): (duty: Byte)
    ensures duty == 0 || Min(minDuty, Min(maxDuty, 100)) <= duty <= Min(maxDuty, 100)
  {
    var hi := Min(maxDuty, 100);
    var lo := Min(Min(minDuty, 100), hi);
    if commandRpm == 0 || maxRpm == 0 || hi == 0 then 0
    else if commandRpm >= maxRpm then hi
    else
      RoundedShareInSpan(commandRpm, hi - lo, maxRpm);
      lo + RoundedShare(commandRpm, hi - lo, maxRpm)
  }

  // ----- speed ramp -----

  /** Thousandths of an rpm owed after `ms` milliseconds at `rate` rpm per second. */
  function Scaled(rate: nat, ms: nat, carried: nat): nat {
    MulMonotone(rate, 0, ms);
    rate * ms + carried
  }

  /** One call of the ramp: moves the controlled target toward the request. */
  function Advance(p: Pid, requested: Word16, accel: Word16, decel: Word16, elapsedMs: Word32): Pid {
    var up := requested > p.controlTargetRpm;
    var rate := if up then accel else decel;
    if p.controlTargetRpm == requested || rate == 0 then
      p.(controlTargetRpm := requested, rampRemainder := 0, rampDirection := 0)
    else
      var direction := if up then 1 else -1;
      var remainder := if p.rampDirection == direction then p.rampRemainder else 0;
      var scaled := Scaled(rate, elapsedMs, remainder);
      var step := Wrap32(scaled / 1000);
      if step >= Abs(requested - p.controlTargetRpm) then
        p.(controlTargetRpm := requested, rampRemainder := 0, rampDirection := 0)
      else
        p.(controlTargetRpm := p.controlTargetRpm + direction * step,
           rampRemainder := scaled % 1000, rampDirection := direction)
  }

  // ----- one control step of one motor -----

  /** Register operations in order, the new controller state, and whether outputs must be applied. */
  datatype ControlResult = ControlResult(ops: seq<RegOp>, pid: Pid, changed: bool)

  predicate SpeedMode(r: RegBytes, m: Motor) { r[ModeReg(m)] == MODE_SPEED }
  predicate PositionMode(r: RegBytes, m: Motor) { r[ModeReg(m)] == MODE_POSITION }
  predicate HoldMode(r: RegBytes, m: Motor) { SpeedMode(r, m) && LoadUint16(r, TargetRpmReg(m)) == 0 }

  function DirectionKey(r: RegBytes, m: Motor): Byte {
    if SpeedMode(r, m) then r[DirectionReg(m)] else 0
  }

  function TargetPositionKey(r: RegBytes, m: Motor): Int32 {
    if PositionMode(r, m) then LoadInt32(r, TargetPositionReg(m)) else 0
  }

  /** The command differs from the one the controller state belongs to. */
  predicate NeedsRestart(r: RegBytes, p: Pid, m: Motor) {
    !p.initialized || p.previousMode != r[ModeReg(m)] || p.previousDirection != DirectionKey(r, m) ||
    p.previousTargetPosition != TargetPositionKey(r, m) || p.holdMode != HoldMode(r, m)
  }

  function NoTelemetry(m: Motor): RegOp {
    UpdateTelemetry(m, 0, 0, 0, 0)
  }

  function Restart(r: RegBytes, p: Pid, m: Motor, count: Int32, now: Word32): ControlResult {
    var hold := HoldMode(r, m);
    var p1 := ResetPid(p).(holdCount := count, lastUpdateMs := now, previousMode := r[ModeReg(m)],
                           previousDirection := DirectionKey(r, m), previousTargetPosition := TargetPositionKey(r, m),
                           holdMode := hold, initialized := true);
    var zero := SetOutput(m, 0, r[DirectionReg(m)]);
    if hold then
      ControlResult([UpdateHold(m, count), UpdatePositionError(m, 0), NoTelemetry(m), zero],
                    p1.(previousPositionError := 0, atTarget := true), true)
    else if PositionMode(r, m) then
      var error := SaturateInt32(LoadInt32(r, TargetPositionReg(m)) - count);
      ControlResult([UpdatePositionError(m, error), UpdateTargetRpm(m, 0), NoTelemetry(m), zero],
                    p1.(previousPositionError := error,
                        atTarget := Abs(error) <= LoadUint16(r, REG_POSITION_TOLERANCE)), true)
    else
      ControlResult([NoTelemetry(m), zero], p1, true)
  }

  /** Whether the motor counts as at target after this step, and the state that goes with it. */
  function TargetTracking(r: RegBytes, p: Pid, error: Int32, now: Word32): Pid {
    var enter := LoadUint16(r, REG_POSITION_TOLERANCE);
    var exit := Max(LoadUint16(r, REG_POSITION_EXIT_TOLERANCE), enter);
    var settle := Wrap32(now + 10 * (r[REG_POSITION_SETTLE_10MS] as int));
    var crossed := Sign(p.previousPositionError) * Sign(error) == -1;
    var q :=
      if crossed && !p.atTarget then p.(atTarget := true, positionIntegralQ4 := 0, settleUntilMs := settle) else p;
    if q.atTarget then
      q.(atTarget := !(!TimeBefore(now, q.settleUntilMs) && Abs(error) > exit))
    else if Abs(error) <= enter then
      q.(atTarget := true, positionIntegralQ4 := 0, settleUntilMs := settle)
    else q
  }

  function PositionIntegral(r: RegBytes, integral: int, error: Int32, countsPerRev: Word32): int {
    ClampQ4(integral + PositionTermQ4(error, r[REG_POSITION_KI], countsPerRev), LoadUint16(r, REG_POSITION_MAX_RPM))
  }

  function PositionCommandQ4(r: RegBytes, integral: int, error: Int32, previousError: Int32,
                             countsPerRev: Word32): int {
    ClampQ4(PositionTermQ4(error, r[REG_POSITION_KP], countsPerRev) + integral +
            PositionTermQ4(SaturateInt32(error - previousError), r[REG_POSITION_KD], countsPerRev),
            LoadUint16(r, REG_POSITION_MAX_RPM))
  }

  /** The commanded speed; a correction too small to round to 1 rpm still gets 1 rpm outside the tolerance. */
  function PositionRpm(r: RegBytes, commandQ4: int, error: Int32): Word16 {
    var maxRpm := LoadUint16(r, REG_POSITION_MAX_RPM);
    var rounded := CommandRpmFromQ4(commandQ4, maxRpm);
    if rounded == 0 && Abs(error) > LoadUint16(r, REG_POSITION_TOLERANCE) && maxRpm > 0 &&
       (r[REG_POSITION_KP] != 0 || r[REG_POSITION_KI] != 0 || r[REG_POSITION_KD] != 0) then 1
    else rounded
  }

  function PositionStep(r: RegBytes, p: Pid, m: Motor, count: Int32, countsPerRev: Word32, now: Word32): ControlResult {
    var hold := HoldMode(r, m);
    var target := if hold then p.holdCount else LoadInt32(r, TargetPositionReg(m));
    var error := SaturateInt32(target - count);
    var q := TargetTracking(r, p, error, now);
    var integral :=
      if q.atTarget then q.positionIntegralQ4
      else PositionIntegral(r, q.positionIntegralQ4, error, countsPerRev);
    var command := PositionCommandQ4(r, integral, error, p.previousPositionError, countsPerRev);
    var rpm := if q.atTarget then 0 else PositionRpm(r, command, error);
    var duty: Byte := if q.atTarget then 0
                      else PositionDuty(rpm, LoadUint16(r, REG_POSITION_MAX_RPM), r[REG_POSITION_MIN_DUTY],
                                        r[REG_POSITION_MAX_DUTY]);
    var direction: Byte := if !q.atTarget && command < 0 then 1 else 0;
    var target := if hold then [] else [UpdateTargetRpm(m, rpm)];
    ControlResult([UpdatePositionError(m, error)] + target + [SetOutput(m, duty, direction)],
                  q.(positionIntegralQ4 := integral, outputDutyQ8 := duty * DUTY_Q8_SCALE,
                     previousPositionError := error), true)
  }

  /** The integral the speed loop would like to keep. */
  function ProposedIntegral(r: RegBytes, integral: int, errorRpm: int, pidElapsedMs: nat): int {
    var limit := r[REG_SPEED_MAX_DUTY] * PID_SCALE * PID_REFERENCE_PERIOD_MS;
    Clamp(integral + Gain(r[REG_SPEED_KI], errorRpm * pidElapsedMs), -(limit as int), limit)
  }

  /** What the speed law computes: the new state and the quantities it reports. */
  datatype SpeedResult = SpeedResult(pid: Pid, errorRpm: int, integralQ4: int)

  /** Ramped target minus the measured speed in the commanded direction. */
  function SpeedError(r: RegBytes, m: Motor, rpm: Word16, measuredRpm: Int16): int {
    rpm - (if r[DirectionReg(m)] == 1 then -(measuredRpm as int) else measuredRpm)
  }

  /** Proportional and derivative terms; the derivative is per 100 ms. */
  function ProportionalDerivative(r: RegBytes, errorRpm: int, previousErrorRpm: int, pidElapsedMs: nat): int
    requires pidElapsedMs > 0
  {
    Gain(r[REG_SPEED_KP], errorRpm) +
    Gain(r[REG_SPEED_KD], TruncDiv((errorRpm - previousErrorRpm) * PID_REFERENCE_PERIOD_MS, pidElapsedMs))
  }

  /** Conditional integration: the integral is kept back while it would push a saturated output further out. */
  function KeptIntegral(r: RegBytes, integral: int, proposed: int, other: int, errorRpm: int): int {
    var wanted := other + TruncDiv(proposed, PID_REFERENCE_PERIOD_MS);
    if (wanted > r[REG_SPEED_MAX_DUTY] * PID_SCALE && errorRpm > 0) || (wanted < 0 && errorRpm < 0) then integral
    else proposed
  }

  function SpeedLaw(r: RegBytes, p: Pid, m: Motor, measuredRpm: Int16, elapsedMs: Word32): SpeedResult
    requires elapsedMs > 0
  {
    var q := Advance(p, LoadUint16(r, TargetRpmReg(m)), LoadUint16(r, REG_SPEED_ACCEL), LoadUint16(r, REG_SPEED_DECEL),
                     elapsedMs);
    var error := SpeedError(r, m, q.controlTargetRpm, measuredRpm);
    var pidElapsed := Min(elapsedMs, MAXIMUM_PID_ELAPSED_MS);
    var other := ProportionalDerivative(r, error, q.previousErrorRpm, pidElapsed);
    var integral := KeptIntegral(r, q.integralQ4Ms, ProposedIntegral(r, q.integralQ4Ms, error, pidElapsed), other,
                                 error);
    var integralQ4 := TruncDiv(integral, PID_REFERENCE_PERIOD_MS);
    var dutyQ8 := ClampDutyQ8(other + integralQ4, r[REG_SPEED_MIN_DUTY], r[REG_SPEED_MAX_DUTY]);
    SpeedResult(q.(previousErrorRpm := error, integralQ4Ms := integral, outputDutyQ8 := dutyQ8), error, integralQ4)
  }

  function SpeedOps(r: RegBytes, m: Motor, s: SpeedResult): seq<RegOp> {
    var duty := DutyQ8ToPercent(s.pid.outputDutyQ8);
    [UpdateTelemetry(m, s.pid.controlTargetRpm, SaturateInt16(s.errorRpm), SaturateInt16(s.integralQ4), duty),
     SetOutput(m, duty, r[DirectionReg(m)])]
  }

  function SpeedStep(r: RegBytes, p: Pid, m: Motor, measuredRpm: Int16, elapsedMs: Word32): ControlResult
    requires elapsedMs > 0
  {
    var s := SpeedLaw(r, p, m, measuredRpm, elapsedMs);
    ControlResult(SpeedOps(r, m, s), s.pid, true)
  }

  function ControlStep(r: RegBytes, p: Pid, m: Motor, count: Int32, measuredRpm: Int16, now: Word32): ControlResult {
    var countsPerRev := LoadUint32(r, CountsPerRevReg(m));
    var active := SpeedMode(r, m) || PositionMode(r, m);
    if !active || countsPerRev == 0 then
      var stop := active && r[DutyReg(m)] != 0;
      ControlResult([NoTelemetry(m)] + (if stop then [SetOutput(m, 0, r[DirectionReg(m)])] else []), ResetPid(p), stop)
    else if NeedsRestart(r, p, m) then Restart(r, p, m, count, now)
    else PeriodicStep(r, p, m, count, measuredRpm, countsPerRev, now)
  }

  /** Position control runs every 100 ms and speed control every 10 ms; in between nothing happens. */
  function PeriodicStep(r: RegBytes, p: Pid, m: Motor, count: Int32, measuredRpm: Int16, countsPerRev: Word32,
                        now: Word32): ControlResult {
    var elapsed := Wrap32(now - p.lastUpdateMs);
    var slow := HoldMode(r, m) || PositionMode(r, m);
    var q := p.(lastUpdateMs := now);
    if elapsed < (if slow then POSITION_CONTROL_PERIOD_MS else SPEED_CONTROL_PERIOD_MS) then ControlResult([], p, false)
    else if slow then PositionStep(r, q, m, count, countsPerRev, now)
    else SpeedStep(r, q, m, measuredRpm, elapsed)
  }

  // ----- output stage -----

  datatype Bridge = Coast | Brake | Drive(reverse: bool, dutyQ8: Word16)

  /** The direction register as the bridge sees it, after the polarity option. */
  predicate Reversed(r: RegBytes, m: Motor) {
    (r[DirectionReg(m)] == 1) != Bit(r[REG_OUTPUT_INVERT_FLAGS], if m.M1? then 0 else 1)
  }

  function BridgeFor(r: RegBytes, p: Pid, m: Motor): Bridge {
    var mode := r[ModeReg(m)];
    var dutyQ8: Word16 :=
      if mode == MODE_SPEED || mode == MODE_POSITION then p.outputDutyQ8 else r[DutyReg(m)] * DUTY_Q8_SCALE;
    if mode == MODE_RUN || mode == MODE_SPEED || mode == MODE_POSITION then
      (if dutyQ8 == 0 then Coast else Drive(Reversed(r, m), dutyQ8))
    else if mode == MODE_BRAKE then Brake
    else Coast
  }

  function Output(f: RegFile, p: Pid, m: Motor, inhibited: bool): Bridge {
    if inhibited || !Enabled(f.regs) then Coast else BridgeFor(f.regs, p, m)
  }

  // ----- duty laws -----

  /** The position duty never falls when the commanded speed rises, despite the rounding. */
  lemma PositionDutyMonotone(slow: Word16, fast: Word16, maxRpm: Word16, minDuty: Byte, maxDuty: Byte)
    requires slow <= fast
    ensures PositionDuty(slow, maxRpm, minDuty, maxDuty) <= PositionDuty(fast, maxRpm, minDuty, maxDuty)
  {
    var hi := Min(maxDuty, 100);
    var lo := Min(Min(minDuty, 100), hi);
    if 0 < slow && fast < maxRpm && hi > 0 {
      RoundedShareMonotone(slow, fast, hi - lo, maxRpm);
    }
  }

  /** A speed duty is zero or lies between the effective limits, in 1/256 percent. */
  lemma SpeedDutyInBand(dutyQ4: int, minDuty: Byte, maxDuty: Byte)
    ensures var duty, hi := ClampDutyQ8(dutyQ4, minDuty, maxDuty), Min(maxDuty, 100);
            duty <= 100 * DUTY_Q8_SCALE &&
            (dutyQ4 <= 0 ==> duty == 0) &&
            (dutyQ4 > 0 ==> Min(minDuty, hi) * DUTY_Q8_SCALE <= duty <= hi * DUTY_Q8_SCALE)
  {
  }

  /** State bounds every control step keeps. */
  predicate PidInRange(p: Pid) {
    -160000 <= p.integralQ4Ms <= 160000 && p.outputDutyQ8 <= 100 * DUTY_Q8_SCALE &&
    Abs(p.positionIntegralQ4) <= 0xFFFF * PID_SCALE && -1 <= p.rampDirection <= 1 && p.rampRemainder < 1000
  }

  lemma AdvanceKeepsRange(p: Pid, requested: Word16, accel: Word16, decel: Word16, elapsedMs: Word32)
    requires PidInRange(p)
    ensures PidInRange(Advance(p, requested, accel, decel, elapsedMs))
  {
  }

  lemma SpeedStepKeepsRange(r: RegBytes, p: Pid, m: Motor, measuredRpm: Int16, elapsedMs: Word32)
    requires r[REG_SPEED_MAX_DUTY] <= 100 && PidInRange(p) && elapsedMs > 0
    ensures PidInRange(SpeedStep(r, p, m, measuredRpm, elapsedMs).pid)
  {
    AdvanceKeepsRange(p, LoadUint16(r, TargetRpmReg(m)), LoadUint16(r, REG_SPEED_ACCEL), LoadUint16(r, REG_SPEED_DECEL),
                      elapsedMs);
  }

  lemma TargetTrackingKeepsRange(r: RegBytes, p: Pid, error: Int32, now: Word32)
    requires PidInRange(p)
    ensures PidInRange(TargetTracking(r, p, error, now))
  {
  }

  lemma PositionStepKeepsRange(r: RegBytes, p: Pid, m: Motor, count: Int32, countsPerRev: Word32, now: Word32)
    requires PidInRange(p)
    ensures PidInRange(PositionStep(r, p, m, count, countsPerRev, now).pid)
  {
    var target := if HoldMode(r, m) then p.holdCount else LoadInt32(r, TargetPositionReg(m));
    var error := SaturateInt32(target - count);
    var q := TargetTracking(r, p, error, now);
    TargetTrackingKeepsRange(r, p, error, now);
  }

  lemma RestartKeepsRange(r: RegBytes, p: Pid, m: Motor, count: Int32, now: Word32)
    ensures PidInRange(Restart(r, p, m, count, now).pid)
  {
  }

  lemma PeriodicKeepsRange(r: RegBytes, p: Pid, m: Motor, count: Int32, measuredRpm: Int16, countsPerRev: Word32,
                           now: Word32)
    requires r[REG_SPEED_MAX_DUTY] <= 100 && PidInRange(p)
    ensures PidInRange(PeriodicStep(r, p, m, count, measuredRpm, countsPerRev, now).pid)
  {
    var elapsed := Wrap32(now - p.lastUpdateMs);
    var q := p.(lastUpdateMs := now);
    assert PidInRange(q);
    var result := PeriodicStep(r, p, m, count, measuredRpm, countsPerRev, now);
    if elapsed < SPEED_CONTROL_PERIOD_MS ||
       ((HoldMode(r, m) || PositionMode(r, m)) && elapsed < POSITION_CONTROL_PERIOD_MS) {
      assert result.pid == p;
    } else if HoldMode(r, m) || PositionMode(r, m) {
      assert result == PositionStep(r, q, m, count, countsPerRev, now);
      PositionStepKeepsRange(r, q, m, count, countsPerRev, now);
    } else {
      assert result == SpeedStep(r, q, m, measuredRpm, elapsed);
      SpeedStepKeepsRange(r, q, m, measuredRpm, elapsed);
    }
  }

  /** In every reachable controller state the integrals and the output duty are bounded. */
  lemma ControlKeepsRange(r: RegBytes, p: Pid, m: Motor, count: Int32, measuredRpm: Int16, now: Word32)
    requires r[REG_SPEED_MAX_DUTY] <= 100 && PidInRange(p)
    ensures PidInRange(ControlStep(r, p, m, count, measuredRpm, now).pid)
  {
    RestartKeepsRange(r, p, m, count, now);
    PeriodicKeepsRange(r, p, m, count, measuredRpm, LoadUint32(r, CountsPerRevReg(m)), now);
  }
}
