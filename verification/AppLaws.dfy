/** What drives each bridge at the end of every run from power-on, read from the register bytes alone. */
module AppLaws {
  import opened Arith
  import opened RegisterSpec
  import opened RegisterLaws
  import opened RegisterReports
  import opened SerialFrame
  import opened ControlSpec
  import opened ControlLaws
  import opened AppHistory
  import opened AppSpec
  import opened AppSafety
  import RegisterInvariants

  /** A RUN duty and a controller's duty are whole and 1/256 percent; BRAKE brakes; everything else coasts. */
  predicate AsCommanded(a: App, m: Motor) {
    var b, motion, duty := a.BridgeOf(m), MotionOf(a.file.regs, m), a.PidOf(m).outputDutyQ8;
    if a.timeout || !Bit(a.file.regs[0x04], 0) then b == Coast
    else match motion.mode
      case 1 => if motion.duty == 0 then b == Coast else b.Drive? && b.dutyQ8 == 256 * motion.duty
      case 2 => b == Brake
      case 3 => if duty == 0 then b == Coast else b.Drive? && b.dutyQ8 == duty
      case 4 => if duty == 0 then b == Coast else b.Drive? && b.dutyQ8 == duty
      case _ => b == Coast
  }

  /** Reverse exactly for direction byte 1, or, with the motor's invert bit, exactly for direction byte 0. */
  predicate TurnsAsCommanded(a: App, m: Motor) {
    var b, direction := a.BridgeOf(m), DirectionByte(a.file.regs, m);
    b.Drive? ==> direction in {0, 1} && (b.reverse <==> direction == (if Inverted(a.file.regs, m) then 0 else 1))
  }

  lemma SettledBridge(a: App, m: Motor)
    requires RegisterInvariants.WellFormed(a.file)
    requires a.BridgeOf(m) == Output(a.file, a.PidOf(m), m, a.timeout)
    ensures AsCommanded(a, m) && TurnsAsCommanded(a, m)
  {
    hide Output;
    BridgeFollowsRegisters(a.file, a.PidOf(m), m, a.timeout);
  }

  /** At the end of every run from power-on each bridge does what the register bytes and the controller's duty say. */
  lemma BridgesOnEveryRun(address: Byte, e: Encoders, inputs: seq<PassInput>, m: Motor)
    ensures ParserInvariant(Start(address, e).parser)
    ensures var a := Passes(Start(address, e), inputs); AsCommanded(a, m) && TurnsAsCommanded(a, m)
  {
    hide Start, Idle, Invariant, Safe, ParserInvariant, AsCommanded, TurnsAsCommanded, Passes, Output;
    StartIsIdle(address, e);
    IdleIsSafe(Start(address, e));
    IdleHolds(Start(address, e));
    RunSafe(Start(address, e), inputs);
    var a := Passes(Start(address, e), inputs);
    SafeBridge(a, m);
    SettledBridge(a, m);
  }

  lemma IdleHolds(a: App)
    requires Idle(a)
    ensures Invariant(a) && ParserInvariant(a.parser)
  {
  }

  lemma SafeBridge(a: App, m: Motor)
    requires Invariant(a) && Safe(a)
    ensures RegisterInvariants.WellFormed(a.file) && a.BridgeOf(m) == Output(a.file, a.PidOf(m), m, a.timeout)
  {
  }

  // ----- encoder feedback -----

  /** A reading with the opposite sign, but that the least one becomes the greatest. */
  predicate Opposite(v: Int32, w: Int32) {
    v + w == 0 || (v == -0x8000_0000 && w == 0x7FFF_FFFF)
  }

  /** Whether the encoder's own invert bit is set. */
  predicate Flipped(r: RegBytes, m: Motor) {
    Bit(r[0x07], if m.M1? then 0 else 1)
  }

  /** What the controllers are given: each encoder's count turned by its own invert bit, and its speed so turned, to the
      nearest rpm of its own scale, unless that saturates. */
  lemma FeedbackMeans(r: RegBytes, e: Encoders)
    ensures var fb := FeedbackFrom(r, e);
            (if Flipped(r, M1) then Opposite(e.count1, fb.count1) else fb.count1 == e.count1) &&
            (if Flipped(r, M2) then Opposite(e.count2, fb.count2) else fb.count2 == e.count2) &&
            (exists cps1 :: (if Flipped(r, M1) then Opposite(e.cps1, cps1) else cps1 == e.cps1) &&
                            Converts(cps1, Scale(r, 0x40), fb.rpm1)) &&
            (exists cps2 :: (if Flipped(r, M2) then Opposite(e.cps2, cps2) else cps2 == e.cps2) &&
                            Converts(cps2, Scale(r, 0x44), fb.rpm2))
  {
    var o := Oriented(r, e);
    Converted(o.cps1, Scale(r, 0x40));
    Converted(o.cps2, Scale(r, 0x44));
    hide Converts, CountsPerSecondToRpm;
  }

  function Scale(r: RegBytes, at: nat): Word32
    requires at + 3 < REGISTER_COUNT
  {
    (r[at] as int) + 0x100 * (r[at + 1] as int) + 0x1_0000 * (r[at + 2] as int) + 0x100_0000 * (r[at + 3] as int)
  }

  predicate Converts(cps: Int32, scale: Word32, rpm: Int16) {
    if scale == 0 then rpm == 0
    else -0x8000 < rpm < 0x7FFF ==> 2 * Abs(cps * 60 - (rpm as int) * scale) <= scale
  }

  lemma Converted(cps: Int32, scale: Word32)
    ensures Converts(cps, scale, CountsPerSecondToRpm(cps, scale))
  {
    if scale != 0 { RpmIsNearest(cps, scale); }
  }

  // ----- the lease -----

  lemma RequestGone(f: RegFile, e: Encoders)
    ensures RegisterInvariants.Run(f, EncoderControlOps(f.regs, e)).regs[0x31] == 0
  {
    hide RegisterInvariants.Apply, FeedbackFrom, Oriented;
    var ops := EncoderControlOps(f.regs, e);
    if ops != [] {
      var g := RegisterInvariants.Apply(f, ops[0]);
      var h := RegisterInvariants.Apply(g, ops[1]);
      ReportsLand(f, ops[0]);
      ReportsLand(g, ops[1]);
      ReportsLand(h, ops[2]);
      RegisterInvariants.RunOne(f, [], ops[0]);
      RegisterInvariants.RunOne(f, [ops[0]], ops[1]);
      RegisterInvariants.RunOne(f, [ops[0], ops[1]], ops[2]);
      assert ops == [ops[0], ops[1]] + [ops[2]] && [ops[0], ops[1]] == [ops[0]] + [ops[1]] && [ops[0]] == [] + [ops[0]];
    }
  }

  lemma NoRequestNoOps(a: App, e: Encoders)
    ensures a.file.regs[0x31] == 0 ==> EncoderControlOps(a.file.regs, e) == []
  {
  }

  lemma RefreshKeepsRequest(f: RegFile)
    ensures WithTimeout(f, false).regs[0x31] == f.regs[0x31]
  {
  }

  /** After every committed write no encoder request is left, the watchdog is armed exactly for an active command, and
      with nothing to renew a lease from, neither time nor bridges move. */
  lemma WriteSettles(a: App, e: Encoders)
    ensures var b := AfterWrite(a, e);
            b.file.regs[0x31] == 0 && (b.armed <==> HasActiveCommand(b.file)) && !b.timeout && b.dirty &&
            b.lastRefreshMs == (if b.armed then a.now % 0x1_0000_0000 else a.lastRefreshMs) &&
            b.leaseAt == a.now == b.now && b.bridge1 == a.bridge1 && b.bridge2 == a.bridge2 &&
            (a.file.regs[0x31] == 0 ==> b.log == a.log + [RegisterInvariants.SetTimeout(false)])
  {
    hide HasActiveCommand, EncoderControlOps, WithTimeout;
    RequestGone(a.file, e);
    var b := Do(a, EncoderControlOps(a.file.regs, e));
    RefreshKeepsRequest(b.file);
    var refresh := RegisterInvariants.SetTimeout(false);
    assert [refresh][1..] == [];
    assert RegisterInvariants.Run(b.file, [refresh]) == WithTimeout(b.file, false);
    NoRequestNoOps(a, e);
  }

  /** Whenever the watchdog has looked it is armed exactly for an active command under a timeout; a recovered bus leaves
      it disarmed, nothing commanded and the outputs pending. */
  lemma WatchdogArms(a: App)
    requires a.timeout == a.file.timeoutActive
    ensures var b, c := CheckWatchdog(a), OnBusTrip(a);
            (b.armed <==> HasActiveCommand(b.file) && b.file.regs[0x30] != 0) && !c.armed && c.timeout && c.dirty &&
            MotionOf(c.file.regs, M1) == MotionOf(c.file.regs, M2) == Motion(0, 0, 0)
  {
    hide HasActiveCommand;
    CoastIsInactive(a.file);
    CoastIsInactive(CheckWatchdog(a).file);
    var coast := RegisterInvariants.ForceCoast;
    assert [coast][1..] == [] && RegisterInvariants.Run(a.file, [coast]) == CoastOnTimeout(a.file);
    hide CoastOnTimeout, RegisterInvariants.Run;
  }

  lemma CoastIsInactive(f: RegFile)
    ensures !HasActiveCommand(CoastOnTimeout(f))
    ensures MotionOf(CoastOnTimeout(f).regs, M1) == MotionOf(CoastOnTimeout(f).regs, M2) == Motion(0, 0, 0)
  {
    hide MotorStatus, PositionStatus, DeviceStatus;
  }
}
