/** The field-oriented controller as a state machine on values: each entry point and each interrupt is one step. */
module FocSpec {
  import opened Arith
  import opened FocVector
  import opened FocAngle

  const ALIGN_ALPHA_VOLTAGE: int := 64
  const PWM_LOAD_COUNTS: nat := 800
  const CURRENT_LOOP_HZ: nat := 20000
  const SPEED_WINDOW_TICKS: nat := 200
  const ENCODER_STALE_TICKS: nat := 100
  const PREDICTION_MAX_TICKS: nat := 40
  const IQ_LIMIT: int := 124
  const DIRECT_IQ_LIMIT: int := 32
  const HARD_CURRENT_LIMIT: nat := 298
  const TRIP_SAMPLES: nat := 3
  const SPEED_INTEGRAL_SCALE: nat := 64
  const SPEED_INTEGRAL_LIMIT: int := 7936
  const CURRENT_KP_Q8: int := 384
  const CURRENT_KI_Q8: int := 1
  const CURRENT_INTEGRAL_LIMIT: int := 40960
  const DEFAULT_TARGET_RPM: int := 25
  const TARGET_RPM_STEP: int := 25
  const MAX_TARGET_RPM: int := 400
  const POSITION_COUNTS_PER_RPM: int := 10
  const POSITION_SPEED_LIMIT: int := 50
  const POSITION_DIRECT_ZONE: nat := 128
  const POSITION_ERROR_DIVISOR: int := 4
  const POSITION_DAMPING: int := 2
  const POSITION_RELEASE_RPM: int := 5

  datatype State = Stopped | Aligning | Running | Fault
  datatype StopReason = NoStop | Commanded | DriverFault | EncoderLost | Overcurrent
  datatype Mode = SpeedMode | PositionMode

  datatype Encoder = Encoder(
    ready: bool, raw: Raw14, angle: Word16, angleTick: Word32, lastTick: Word32, offset: Word16,
    previousRaw: Raw14, previousTick: Word32, velocityQ16: Int32, velocityReady: bool)

  datatype Loops = Loops(
    mode: Mode, targetRpm: int, measuredRpm: int, speedIntegralQ6: int, iqReference: int,
    targetPosition: Raw14, positionError: int, idIntegralQ8: int, iqIntegralQ8: int, lastId: int, lastIq: int,
    windowDelta: int, windowTicks: Word32, overcurrent: nat)

  datatype Stage = Stage(enabled: bool, compares: Phases)

  datatype Foc = Foc(state: State, reason: StopReason, encoder: Encoder, predicted: Word16, loops: Loops, stage: Stage)
  {
    predicate Active() { state == Aligning || state == Running }
  }

  // ----- outer controllers -----

  function ResetControl(l: Loops): Loops {
    l.(windowDelta := 0, windowTicks := 0, measuredRpm := 0, speedIntegralQ6 := 0, iqReference := 0, positionError := 0,
       idIntegralQ8 := 0, iqIntegralQ8 := 0, lastId := 0, lastIq := 0, overcurrent := 0)
  }

  /** Crossing the target in position mode drops an integral that pushes the wrong way. */
  function ReleasedIntegral(l: Loops, error: int): int {
    if l.mode == PositionMode &&
       ((error <= -POSITION_RELEASE_RPM && l.speedIntegralQ6 > 0) ||
        (error >= POSITION_RELEASE_RPM && l.speedIntegralQ6 < 0)) then 0
    else l.speedIntegralQ6
  }

  /** Conditional integration: no further windup at either limit. */
  function NextSpeedIntegral(integral: int, error: int): int {
    var candidate := Clamp(integral + error, -SPEED_INTEGRAL_LIMIT, SPEED_INTEGRAL_LIMIT);
    var output := error + candidate / SPEED_INTEGRAL_SCALE;
    if (output > IQ_LIMIT && error > 0) || (output < -IQ_LIMIT && error < 0) then integral else candidate
  }

  function SpeedController(l: Loops): Loops {
    var error := l.targetRpm - l.measuredRpm;
    if l.mode == PositionMode && Abs(l.positionError) <= POSITION_DIRECT_ZONE then
      var direct := TruncDiv(l.positionError, POSITION_ERROR_DIVISOR) - l.measuredRpm * POSITION_DAMPING;
      l.(speedIntegralQ6 := 0, iqReference := Clamp(direct, -DIRECT_IQ_LIMIT, DIRECT_IQ_LIMIT))
    else if l.mode == SpeedMode && l.targetRpm == 0 && Abs(l.measuredRpm) <= 1 then
      l.(speedIntegralQ6 := 0, iqReference := 0)
    else
      var integral := NextSpeedIntegral(ReleasedIntegral(l, error), error);
      l.(speedIntegralQ6 := integral,
         iqReference := Clamp(error + integral / SPEED_INTEGRAL_SCALE, -IQ_LIMIT, IQ_LIMIT))
  }

  function PositionSpeed(error: int): int {
    if Abs(error) <= POSITION_DIRECT_ZONE then 0
    else
      var speed := TruncDiv(error, POSITION_COUNTS_PER_RPM);
      Clamp(if speed == 0 then (if error > 0 then 1 else -1) else speed, -POSITION_SPEED_LIMIT, POSITION_SPEED_LIMIT)
  }

  function PositionController(l: Loops, raw: Raw14): Loops {
    var error := WrapError(l.targetPosition - raw);
    l.(positionError := error, targetRpm := PositionSpeed(error))
  }

  function SetTargetRpm(f: Foc, rpm: int): Foc {
    var l := f.loops.(targetRpm := Clamp(rpm, -MAX_TARGET_RPM, MAX_TARGET_RPM));
    if f.state != Running then f.(loops := l)
    else
      var error := l.targetRpm - l.measuredRpm;
      var opposed := l.targetRpm == 0 || (error < 0 && l.iqReference > 0) || (error > 0 && l.iqReference < 0);
      f.(loops := SpeedController(if opposed then l.(speedIntegralQ6 := 0) else l))
  }

  // ----- transitions -----

  function Disabled(): Stage {
    Stage(false, Compares(Phases(0, 0, 0)))
  }

  function Initialize(f: Foc): Foc {
    Foc(Stopped, NoStop, Encoder(false, 0, 0, 0, 0, 0, f.encoder.previousRaw, f.encoder.previousTick, 0, false), 0,
        ResetControl(f.loops.(mode := SpeedMode, targetPosition := 0, targetRpm := DEFAULT_TARGET_RPM)),
        Stage(false, Phases(PWM_LOAD_COUNTS, PWM_LOAD_COUNTS, PWM_LOAD_COUNTS)))
  }

  /** Before the current samples start the compare values are neutral; the half-bridges stay as they are. */
  function EnableAdcTrigger(f: Foc): Foc {
    f.(stage := f.stage.(compares := Compares(Phases(0, 0, 0))))
  }

  function EmergencyStop(f: Foc, reason: StopReason): Foc {
    f.(state := Fault, reason := reason, stage := Disabled(), loops := f.loops.(iqReference := 0),
       encoder := f.encoder.(ready := false, velocityReady := false, velocityQ16 := 0))
  }

  function Stop(f: Foc): Foc {
    f.(state := Stopped, reason := Commanded, stage := Disabled(), loops := ResetControl(f.loops.(mode := SpeedMode)),
       encoder := f.encoder.(ready := false, velocityReady := false, velocityQ16 := 0))
  }

  function BeginAlignment(f: Foc, driverFault: bool): Foc {
    if f.state != Stopped || driverFault then f
    else
      f.(state := Aligning, reason := NoStop,
         encoder := f.encoder.(ready := false, velocityReady := false, velocityQ16 := 0),
         loops := ResetControl(f.loops.(mode := SpeedMode, targetRpm := DEFAULT_TARGET_RPM)),
         stage := Stage(true, PwmFor(AlphaBeta(ALIGN_ALPHA_VOLTAGE, 0))))
  }

  function FinishAlignment(f: Foc, raw: Word16, tick: Word32, driverFault: bool): Foc {
    if f.state != Aligning || driverFault then EmergencyStop(f, DriverFault)
    else
      var r := raw % 0x4000;
      var offset := AlignmentOffset(r);
      var angle := ElectricalAngle(r, offset);
      f.(state := Running, predicted := angle, loops := ResetControl(f.loops),
         encoder := Encoder(true, r, angle, tick, tick, offset, r, tick, 0, false))
  }

  function ClearStopReason(f: Foc): Foc {
    if f.state == Running then f
    else f.(reason := NoStop, state := if f.state == Fault then Stopped else f.state)
  }

  // ----- encoder samples -----

  /** The window's rate as electrical angle per tick, in Q16, cut to 32 bits. */
  function WindowVelocity(delta: int, ticks: Word32): Int32
    requires ticks > 0
  {
    ToInt32(TruncDiv(delta * 4 * POLE_PAIRS * 0x1_0000, ticks))
  }

  function WindowRpm(delta: int, ticks: Word32): Int32
    requires ticks > 0
  {
    ToInt32(TruncDiv(delta * CURRENT_LOOP_HZ * 60, 16384 * ticks))
  }

  /** A reading taken while not running only refreshes the angle. */
  function IdleSample(f: Foc, raw: Raw14, tick: Word32): Foc {
    var angle := ElectricalAngle(raw, f.encoder.offset);
    f.(encoder := f.encoder.(raw := raw, angle := angle, angleTick := tick, lastTick := tick), predicted := angle)
  }

  /** Accumulates the movement since the last sample. */
  function Accumulated(f: Foc, raw: Raw14, elapsed: Word32): Loops {
    f.loops.(windowDelta := f.loops.windowDelta + WrapError(raw - f.encoder.previousRaw),
             windowTicks := Wrap32(f.loops.windowTicks + elapsed))
  }

  /** A full window: a new filtered speed, and the window starts over. */
  function CloseWindow(l: Loops): Loops
    requires l.windowTicks > 0
  {
    l.(measuredRpm := Approach(l.measuredRpm, WindowRpm(l.windowDelta, l.windowTicks)), windowDelta := 0,
       windowTicks := 0)
  }

  function NextVelocity(e: Encoder, l: Loops): Int32
    requires l.windowTicks > 0
  {
    var v := WindowVelocity(l.windowDelta, l.windowTicks);
    if e.velocityReady then ToInt32(Approach(e.velocityQ16, v)) else v
  }

  function OuterControllers(l: Loops, raw: Raw14): Loops {
    SpeedController(if l.mode == PositionMode then PositionController(l, raw) else l)
  }

  function RunningSample(f: Foc, raw: Raw14, tick: Word32, elapsed: Word32): Foc {
    var l := Accumulated(f, raw, elapsed);
    var full := l.windowTicks >= SPEED_WINDOW_TICKS;
    var angle := ElectricalAngle(raw, f.encoder.offset);
    var e := f.encoder.(previousRaw := raw, previousTick := tick, raw := raw, angle := angle, angleTick := tick,
                        lastTick := tick);
    f.(encoder := if full then e.(velocityQ16 := NextVelocity(e, l), velocityReady := true) else e,
       predicted := angle,
       loops := if full then OuterControllers(CloseWindow(l), raw) else l)
  }

  function EncoderSample(f: Foc, raw: Word16, valid: bool, tick: Word32): Foc {
    var r := raw % 0x4000;
    var elapsed := Wrap32(tick - f.encoder.previousTick);
    if !valid then f
    else if f.state != Running || !f.encoder.ready then IdleSample(f, r, tick)
    else if elapsed == 0 then f
    else RunningSample(f, r, tick, elapsed)
  }

  // ----- the current loop -----

  /** A phase current as the interrupt receives it. */
  type Count = Int16

  predicate OverLimit(a: Count, b: Count, c: Count) {
    Abs(a) > HARD_CURRENT_LIMIT || Abs(b) > HARD_CURRENT_LIMIT || Abs(c) > HARD_CURRENT_LIMIT
  }

  predicate Stale(f: Foc, tick: Word32) {
    !f.encoder.ready || Wrap32(tick - f.encoder.lastTick) > ENCODER_STALE_TICKS
  }

  /** The rotor angle carried forward from the last sample at the filtered velocity. */
  function PredictedAngle(e: Encoder, tick: Word32): Word16 {
    var ticks := Min(Wrap32(tick - e.angleTick), PREDICTION_MAX_TICKS);
    (e.angle + (e.velocityQ16 * ticks) / 0x1_0000) % 0x1_0000
  }

  datatype Current = Current(d: int, q: int)

  function Park(alpha: int, beta: int, sine: int, cosine: int): Current {
    Current((alpha * cosine + beta * sine) / Q15, (-alpha * sine + beta * cosine) / Q15)
  }

  /** Clarke and Park transforms of the phase currents, without their zero sequence. */
  function MeasuredCurrent(a: Count, b: Count, c: Count, angle: Word16): Current {
    var zero := TruncDiv(a + b + c, 3);
    var alpha, beta := a - zero, ((b - c) * 18919) / Q15;
    Park(alpha, beta, SinQ15(angle), CosQ15(angle))
  }

  function NextIntegral(integral: int, error: int): int {
    Clamp(integral + error * CURRENT_KI_Q8, -CURRENT_INTEGRAL_LIMIT, CURRENT_INTEGRAL_LIMIT)
  }

  datatype Regulated = Regulated(voltage: Voltage, d: int, q: int)

  function Request(dError: int, qError: int, dIntegral: int, qIntegral: int): Voltage {
    Voltage(dError * CURRENT_KP_Q8 + dIntegral, qError * CURRENT_KP_Q8 + qIntegral)
  }

  /** The voltage to apply, before the limit, and the integrals kept: integration stops while a limited
      voltage and the error point the same way. */
  function Regulate(dIntegral: int, qIntegral: int, dError: int, qError: int): Regulated {
    var d, q := NextIntegral(dIntegral, dError), NextIntegral(qIntegral, qError);
    var request := Request(dError, qError, d, q);
    var limited := Limited(request);
    if !Saturated(request) || dError * limited.d + qError * limited.q <= 0 then Regulated(request, d, q)
    else Regulated(Request(dError, qError, dIntegral, qIntegral), dIntegral, qIntegral)
  }

  function RegulatedBy(l: Loops, i: Current): Regulated {
    Regulate(l.idIntegralQ8, l.iqIntegralQ8, -i.d, l.iqReference - i.q)
  }

  /** Stores the measurement and the integrals and drives the bridge. */
  function Driven(f: Foc, angle: Word16, i: Current, r: Regulated): Foc {
    f.(predicted := angle, loops := f.loops.(lastId := i.d, lastIq := i.q, idIntegralQ8 := r.d, iqIntegralQ8 := r.q),
       stage := f.stage.(compares := PwmFor(LoopOutput(r.voltage, angle))))
  }

  /** The current controller proper, for a running motor with a fresh angle. */
  function CurrentControl(f: Foc, a: Count, b: Count, c: Count, tick: Word32): Foc {
    var angle := PredictedAngle(f.encoder, tick);
    var i := MeasuredCurrent(a, b, c, angle);
    Driven(f, angle, i, RegulatedBy(f.loops, i))
  }

  /** The counter of consecutive samples over the hard limit. */
  function Counted(f: Foc, a: Count, b: Count, c: Count): Foc {
    f.(loops := f.loops.(overcurrent := if OverLimit(a, b, c) then f.loops.overcurrent + 1 else 0))
  }

  function CurrentSample(f: Foc, a: Count, b: Count, c: Count, tick: Word32): Foc {
    var g := Counted(f, a, b, c);
    if !f.Active() then f
    else if OverLimit(a, b, c) && g.loops.overcurrent >= TRIP_SAMPLES then EmergencyStop(g, Overcurrent)
    else if f.state == Aligning then g
    else if Stale(g, tick) then EmergencyStop(g, EncoderLost)
    else CurrentControl(g, a, b, c, tick)
  }

  // ----- commands -----

  function Reverse(f: Foc): Foc {
    SetTargetRpm(f.(loops := f.loops.(speedIntegralQ6 := 0)),
                 if f.loops.targetRpm == 0 then -TARGET_RPM_STEP else -f.loops.targetRpm)
  }

  function EnterPosition(f: Foc): Foc {
    if f.state != Running || !f.encoder.ready then f
    else
      var l := f.loops.(mode := PositionMode, targetPosition := f.encoder.raw, positionError := 0, targetRpm := 0,
                        speedIntegralQ6 := 0, iqReference := 0);
      f.(loops := SpeedController(PositionController(l, f.encoder.raw)))
  }

  function EnterSpeed(f: Foc): Foc {
    SetTargetRpm(f.(loops := f.loops.(mode := SpeedMode, positionError := 0, speedIntegralQ6 := 0)), 0)
  }

  function MovedTarget(position: Raw14, degrees: Int32): Raw14 {
    Wrap32(position + ToInt32(TruncDiv(degrees * COUNTS_PER_REVOLUTION, 360))) % COUNTS_PER_REVOLUTION
  }

  function AdjustPosition(f: Foc, degrees: Int32): Foc {
    if f.state != Running || f.loops.mode != PositionMode then f
    else
      var l := f.loops.(targetPosition := MovedTarget(f.loops.targetPosition, degrees), speedIntegralQ6 := 0);
      f.(loops := SpeedController(PositionController(l, f.encoder.raw)))
  }

  // ----- runs -----

  datatype Event =
    | DoInitialize
    | DoEnableAdcTrigger
    | DoBeginAlignment(driverFault: bool)
    | DoFinishAlignment(raw: Word16, tick: Word32, driverFault: bool)
    | DoStop
    | DoEmergencyStop(reason: StopReason)
    | DoEncoderSample(raw: Word16, valid: bool, tick: Word32)
    | DoCurrentSample(a: Count, b: Count, c: Count, tick: Word32)
    | DoClearStopReason
    | DoAdjustTargetRpm(delta: Int32)
    | DoReverse
    | DoEnterPosition
    | DoEnterSpeed
    | DoAdjustPosition(degrees: Int32)

  function Step(f: Foc, e: Event): Foc {
    match e
    case DoInitialize => Initialize(f)
    case DoEnableAdcTrigger => EnableAdcTrigger(f)
    case DoBeginAlignment(driverFault) => BeginAlignment(f, driverFault)
    case DoFinishAlignment(raw, tick, driverFault) => FinishAlignment(f, raw, tick, driverFault)
    case DoStop => Stop(f)
    case DoEmergencyStop(reason) => EmergencyStop(f, reason)
    case DoEncoderSample(raw, valid, tick) => EncoderSample(f, raw, valid, tick)
    case DoCurrentSample(a, b, c, tick) => CurrentSample(f, a, b, c, tick)
    case DoClearStopReason => ClearStopReason(f)
    case DoAdjustTargetRpm(delta) => SetTargetRpm(f, ToInt32(f.loops.targetRpm + delta))
    case DoReverse => Reverse(f)
    case DoEnterPosition => EnterPosition(f)
    case DoEnterSpeed => EnterSpeed(f)
    case DoAdjustPosition(degrees) => AdjustPosition(f, degrees)
  }

  function Run(f: Foc, events: seq<Event>): Foc
    decreases |events|
  {
    if events == [] then f else Run(Step(f, events[0]), events[1..])
  }
}
