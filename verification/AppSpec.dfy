/** The motor driver's main loop as a state machine on values: received bytes, queued I2C
    writes, bus trips, the watchdog lease, the controller and the bridge outputs. */
module AppSpec {
  import opened Arith
  import opened RegisterSpec
  import opened RegisterInvariants
  import opened SerialFrame
  import opened ControlSpec
  import I2C = I2cTarget
  import QE = QuadratureEncoder

  /** One reading of both encoders. */
  datatype Encoders = Encoders(count1: Int32, cps1: Int32, state1: Byte, count2: Int32, cps2: Int32, state2: Byte)

  /** What the controller is given. */
  datatype Feedback = Feedback(count1: Int32, rpm1: Int16, count2: Int32, rpm2: Int16)

  /** `now`, `leaseAt`, `checkedAt` and `log` are history: true time, when a write was last committed or
      a heartbeat last accepted, when the watchdog last looked, and every register operation so far. */
  datatype App = App(
    file: RegFile, parser: Parser, pid1: Pid, pid2: Pid,
    lastRefreshMs: Word32, armed: bool, timeout: bool, dirty: bool,
    bridge1: Bridge, bridge2: Bridge,
    now: nat, leaseAt: nat, checkedAt: nat, log: seq<RegOp>)
  {
    function Millis(): Word32 { Wrap32(now) }
    function PidOf(m: Motor): Pid { if m.M1? then pid1 else pid2 }
    function BridgeOf(m: Motor): Bridge { if m.M1? then bridge1 else bridge2 }
  }

  function Do(a: App, ops: seq<RegOp>): App {
    a.(file := Run(a.file, ops), log := a.log + ops)
  }

  function Tick(a: App, ms: nat): App {
    a.(now := a.now + ms)
  }

  // ----- encoder feedback -----

  function NegateSaturating(v: Int32): Int32 {
    if v == -0x8000_0000 then 0x7FFF_FFFF else -v
  }

  function CountsPerSecondToRpm(cps: Int32, countsPerRev: Word32): Int16 {
    if countsPerRev == 0 then 0
    else
      var n := cps * 60;
      SaturateInt16(TruncDiv(if n >= 0 then n + countsPerRev / 2 else n - countsPerRev / 2, countsPerRev))
  }

  /** Unless it saturates, the measured speed is the nearest whole number of revolutions per minute. */
  lemma RpmIsNearest(cps: Int32, countsPerRev: Word32)
    requires countsPerRev != 0
    ensures var rpm := CountsPerSecondToRpm(cps, countsPerRev);
            -0x8000 < rpm < 0x7FFF ==> 2 * Abs(cps * 60 - (rpm as int) * countsPerRev) <= countsPerRev
  {
    QE.RoundedQuotientIsNearest(cps * 60, countsPerRev);
    assert CountsPerSecondToRpm(cps, countsPerRev) == SaturateInt16(QE.RoundedQuotient(cps * 60, countsPerRev));
  }

  predicate EncoderInverted(r: RegBytes, m: Motor) {
    Bit(r[REG_ENCODER_INVERT_FLAGS], if m.M1? then 0 else 1)
  }

  /** The readings after each encoder's polarity option. */
  function Oriented(r: RegBytes, e: Encoders): Encoders {
    var e1 :=
      if EncoderInverted(r, M1) then e.(count1 := NegateSaturating(e.count1), cps1 := NegateSaturating(e.cps1)) else e;
    if EncoderInverted(r, M2) then e1.(count2 := NegateSaturating(e.count2), cps2 := NegateSaturating(e.cps2)) else e1
  }

  function FeedbackFrom(r: RegBytes, e: Encoders): Feedback {
    var o := Oriented(r, e);
    Feedback(o.count1, CountsPerSecondToRpm(o.cps1, LoadUint32(r, CountsPerRevReg(M1))),
             o.count2, CountsPerSecondToRpm(o.cps2, LoadUint32(r, CountsPerRevReg(M2))))
  }

  function SyncOps(r: RegBytes, e: Encoders): seq<RegOp> {
    var o, fb := Oriented(r, e), FeedbackFrom(r, e);
    [UpdateEncoder(o.count1, o.cps1, o.state1, o.count2, o.cps2, o.state2), UpdateMeasured(fb.rpm1, fb.rpm2)]
  }

  // ----- the watchdog lease -----

  function EncoderControlOps(r: RegBytes, e: Encoders): seq<RegOp> {
    if r[REG_ENCODER_CONTROL] != 0 then [ClearEncoderControl] + SyncOps(r, e) else []
  }

  function ArmLease(a: App): App {
    if HasActiveCommand(a.file) then a.(lastRefreshMs := a.Millis(), armed := true) else a.(armed := false)
  }

  /** A committed write clears the timeout and starts a lease if there is anything to protect. */
  function RenewLease(a: App): App {
    ArmLease(Do(a, [SetTimeout(false)]).(timeout := false, dirty := true, leaseAt := a.now))
  }

  /** Follows every committed write: encoder resets, then the lease. */
  function AfterWrite(a: App, e: Encoders): App {
    RenewLease(Do(a, EncoderControlOps(a.file.regs, e)))
  }

  function AfterKeepalive(a: App): App {
    if !a.timeout && HasActiveCommand(a.file) then a.(lastRefreshMs := a.Millis(), armed := true, leaseAt := a.now)
    else a
  }

  function OnByte(a: App, value: Byte, e: Encoders): App
    requires ParserInvariant(a.parser)
  {
    StepSound(a.parser, value);
    var (next, event) := Step(a.parser, value);
    var outcome := HandleEvent(a.file, event);
    var b := a.(parser := next);
    if outcome.keepalive then AfterKeepalive(b)
    else if outcome.committed then AfterWrite(Do(b, [Commit(event.request.reg, event.request.data)]), e)
    else b
  }

  function OnI2cWrite(a: App, w: I2C.Write, e: Encoders): App {
    if CommitAccepted(w.reg, w.data) then AfterWrite(Do(a, [Commit(w.reg, w.data)]), e) else a
  }

  function OnBusTrip(a: App): App {
    Do(a, [ForceCoast]).(timeout := true, armed := false, dirty := true)
  }

  function TimeoutMs(f: RegFile): nat {
    10 * (f.regs[REG_WATCHDOG_TIMEOUT] as int)
  }

  /** An active command that finds the watchdog unarmed gets a lease; one that outlived its lease is tripped. */
  function Supervise(a: App, timeoutMs: nat): App {
    if !a.armed then a.(lastRefreshMs := a.Millis(), armed := true)
    else if !a.timeout && Wrap32(a.Millis() - a.lastRefreshMs) > timeoutMs then
      Do(a, [ForceCoast]).(timeout := true, armed := false, dirty := true)
    else a
  }

  function CheckWatchdog(a: App): App {
    var b := a.(checkedAt := a.now);
    if TimeoutMs(b.file) == 0 || !HasActiveCommand(b.file) then b.(armed := false)
    else Supervise(b, TimeoutMs(b.file))
  }

  // ----- control and outputs -----

  function Control(a: App, fb: Feedback): App {
    if a.timeout || !Enabled(a.file.regs) then a
    else
      var s1 := ControlStep(a.file.regs, a.pid1, M1, fb.count1, fb.rpm1, a.Millis());
      var b := Do(a, s1.ops).(pid1 := s1.pid);
      var s2 := ControlStep(b.file.regs, b.pid2, M2, fb.count2, fb.rpm2, b.Millis());
      Do(b, s2.ops).(pid2 := s2.pid, dirty := a.dirty || s1.changed || s2.changed)
  }

  function ApplyOutputs(a: App): App {
    if !a.dirty then a
    else
      var b := Do(a, [SetTimeout(a.file.timeoutActive)]);
      b.(bridge1 := Output(b.file, b.pid1, M1, b.timeout), bridge2 := Output(b.file, b.pid2, M2, b.timeout),
         dirty := false)
  }

  // ----- one pass -----

  /** A byte or an I2C write, the time that passed before it was taken, and the encoders as they then read. */
  datatype SerialInput = SerialInput(ms: nat, value: Byte, encoders: Encoders)
  datatype I2cInput = I2cInput(ms: nat, write: I2C.Write, encoders: Encoders)

  datatype PassInput = PassInput(
    encoders: Encoders, serial: seq<SerialInput>, i2c: seq<I2cInput>, busTrip: bool, msBeforeCheck: nat,
    msBeforeControl: nat)

  function SerialRx(a: App, inputs: seq<SerialInput>): App
    requires ParserInvariant(a.parser)
    decreases |inputs|
  {
    if inputs == [] then a
    else
      OnByteParser(Tick(a, inputs[0].ms), inputs[0].value, inputs[0].encoders);
      SerialRx(OnByte(Tick(a, inputs[0].ms), inputs[0].value, inputs[0].encoders), inputs[1..])
  }

  lemma OnByteParser(a: App, value: Byte, e: Encoders)
    requires ParserInvariant(a.parser)
    ensures OnByte(a, value, e).parser == Step(a.parser, value).0
    ensures ParserInvariant(OnByte(a, value, e).parser)
  {
    hide Step, ParserInvariant, HandleEvent;
    StepSound(a.parser, value);
  }

  function I2cWrites(a: App, inputs: seq<I2cInput>): App
    decreases |inputs|
  {
    if inputs == [] then a
    else I2cWrites(OnI2cWrite(Tick(a, inputs[0].ms), inputs[0].write, inputs[0].encoders), inputs[1..])
  }

  /** Everything that reaches the application before the watchdog looks. */
  function Inputs(a: App, input: PassInput): App
    requires ParserInvariant(a.parser)
  {
    var b := I2cWrites(SerialRx(Do(a, SyncOps(a.file.regs, input.encoders)), input.serial), input.i2c);
    if input.busTrip then OnBusTrip(b) else b
  }

  /** The application once the watchdog has looked. */
  function Checked(a: App, input: PassInput): App
    requires ParserInvariant(a.parser)
  {
    CheckWatchdog(Tick(Inputs(a, input), input.msBeforeCheck))
  }

  function Steer(a: App, ms: nat, fb: Feedback): App {
    ApplyOutputs(Control(Tick(a, ms), fb))
  }

  function Pass(a: App, input: PassInput): App
    requires ParserInvariant(a.parser)
  {
    Steer(Checked(a, input), input.msBeforeControl, FeedbackFrom(a.file.regs, input.encoders))
  }

  const FRESH_PID: Pid := Pid(0, 0, 0, 0, 0, 0, 0, 0, 0, 0, 0, MODE_COAST, 0, 0, false, false, false)

  function Cold(f: RegFile, p: Parser): App {
    App(f, p, FRESH_PID, FRESH_PID, 0, false, false, true, Coast, Coast, 0, 0, 0, [])
  }

  /** The I2C address in use, the derived registers and the encoder readings go into the file. */
  function Reported(a: App, address: Byte, e: Encoders): App {
    var b := Do(Do(a, [SetI2cAddress(address)]), [SetTimeout(false)]);
    Do(b, SyncOps(b.file.regs, e))
  }

  /** Then both outputs are switched off. */
  function Initialised(a: App, address: Byte, e: Encoders): App {
    Reported(a, address, e).(bridge1 := Coast, bridge2 := Coast, dirty := false)
  }

  function StartOver(f: RegFile, p: Parser, address: Byte, e: Encoders): App {
    Initialised(Cold(f, p), address, e)
  }

  /** The application after initialisation. */
  function Start(address: Byte, e: Encoders): App {
    StartOver(Initial(), IDLE, address, e)
  }
}
