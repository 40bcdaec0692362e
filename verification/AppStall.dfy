/** A run in which the wrapped clock hides an expired lease: it begins at power-on and ends with a bridge driven
    under a lease that ran out long ago. */
module AppStall {
  import opened Arith
  import opened RegisterSpec
  import opened RegisterInvariants
  import opened SerialFrame
  import opened ControlSpec
  import opened AppFrames
  import opened AppHistory
  import opened AppSpec
  import opened AppSafety
  import I2C = I2cTarget

  /** A pass that takes one I2C write: motor 1 runs at half duty, forward. */
  function RunCommand(e: Encoders): PassInput {
    PassInput(e, [], [I2cInput(0, I2C.Write(0x10, [MODE_RUN, 50, 0]), e)], false, 0, 0)
  }

  /** A pass that nothing reaches and that lasts as long as the clock takes to wrap. */
  function Stall(e: Encoders): PassInput {
    PassInput(e, [], [], false, CLOCK_PERIOD_MS, 0)
  }

  /** Enabled under the default timeout of one second, with both outputs inverted as at power-on. */
  predicate Settings(f: RegFile) {
    Enabled(f.regs) && f.regs[REG_WATCHDOG_TIMEOUT] == 100 && f.regs[REG_OUTPUT_INVERT_FLAGS] == 3 && !f.timeoutActive
  }

  /** Motor 1 is told to run and motor 2 coasts. */
  predicate Commanded(f: RegFile) {
    Settings(f) && f.regs[ModeReg(M1)] == MODE_RUN && f.regs[DutyReg(M1)] == 50 && f.regs[DirectionReg(M1)] == 0 &&
    f.regs[ModeReg(M2)] == MODE_COAST
  }

  lemma DecisionsCarry(f: RegFile, g: RegFile)
    requires SameDecisions(f, g)
    ensures Settings(f) == Settings(g) && Commanded(f) == Commanded(g)
  {
    assert Decisive(REG_CONTROL_FLAGS) && Decisive(REG_WATCHDOG_TIMEOUT) && Decisive(REG_OUTPUT_INVERT_FLAGS);
    assert Decisive(ModeReg(M1)) && Decisive(DutyReg(M1)) && Decisive(DirectionReg(M1)) && Decisive(ModeReg(M2));
  }

  lemma ReportsCarry(a: App, ops: seq<RegOp>)
    requires forall i :: 0 <= i < |ops| ==> Reporting(ops[i])
    ensures Settings(a.file) == Settings(Do(a, ops).file) && Commanded(a.file) == Commanded(Do(a, ops).file)
  {
    ReportingRunKeepsDecisions(a.file, ops);
    DecisionsCarry(a.file, Do(a, ops).file);
  }

  lemma RefreshCarries(a: App)
    requires !a.file.timeoutActive
    ensures Settings(a.file) == Settings(Do(a, [SetTimeout(false)]).file)
    ensures Commanded(a.file) == Commanded(Do(a, [SetTimeout(false)]).file)
  {
    RunOne(a.file, [], SetTimeout(false));
    assert [] + [SetTimeout(false)] == [SetTimeout(false)];
    DecisionsCarry(a.file, WithTimeout(a.file, false));
  }

  // ----- power-on -----

  lemma InitialSettings(f: RegFile)
    requires f == Initial()
    ensures Settings(f)
  {
    assert f.regs[REG_CONTROL_FLAGS] == InitialByte(REG_CONTROL_FLAGS);
    assert f.regs[REG_WATCHDOG_TIMEOUT] == InitialByte(REG_WATCHDOG_TIMEOUT);
    assert f.regs[REG_OUTPUT_INVERT_FLAGS] == InitialByte(REG_OUTPUT_INVERT_FLAGS);
  }

  lemma ReportedSettings(a: App, address: Byte, e: Encoders)
    requires Settings(a.file)
    ensures Settings(Reported(a, address, e).file)
  {
    ReportsCarry(a, [SetI2cAddress(address)]);
    var b := Do(a, [SetI2cAddress(address)]);
    RefreshCarries(b);
    var c := Do(b, [SetTimeout(false)]);
    ReportsCarry(c, SyncOps(c.file.regs, e));
  }

  lemma StartSettings(address: Byte, e: Encoders)
    ensures var a := Start(address, e); Idle(a) && Settings(a.file) && a.now == 0
  {
    hide Idle, Settings;
    StartIsIdle(address, e);
    InitialSettings(Initial());
    ReportedSettings(Cold(Initial(), IDLE), address, e);
  }

  // ----- the command -----

  /** The write is accepted and leaves motor 1 running. */
  lemma CommandTakes(f: RegFile)
    requires Settings(f) && f.regs[ModeReg(M2)] == MODE_COAST
    ensures CommitAccepted(0x10, [MODE_RUN, 50, 0]) && Commanded(Committed(f, 0x10, [MODE_RUN, 50, 0]))
  {
    var data: seq<Byte> := [MODE_RUN, 50, 0];
    assert WriteAllowed(0x10, data[0]) && WriteAllowed(0x11, data[1]) && WriteAllowed(0x12, data[2]);
    var r := Merged(f.regs, 0x10, data);
    var n := Normalized(r, 0x10, 3);
    assert n == ClearTargetRpm(r, M1);
    assert n[REG_CONTROL_FLAGS] == f.regs[REG_CONTROL_FLAGS] && n[REG_WATCHDOG_TIMEOUT] == f.regs[REG_WATCHDOG_TIMEOUT];
    assert n[REG_OUTPUT_INVERT_FLAGS] == f.regs[REG_OUTPUT_INVERT_FLAGS];
    assert n[0x10] == data[0] && n[0x11] == data[1] && n[0x12] == data[2] && n[0x20] == f.regs[0x20];
  }

  lemma CommandIsActive(f: RegFile)
    requires Commanded(f)
    ensures HasActiveCommand(f) && TimeoutMs(f) == 1000 && !ClosedLoop(f.regs, M1) && !ClosedLoop(f.regs, M2)
    ensures forall p :: Output(f, p, M1, false) == Drive(true, 12800)
  {
  }

  /** A lease that starts now, and everything the command needs. */
  predicate Leased(a: App) {
    Commanded(a.file) && a.leaseAt == a.now && !a.timeout
  }

  lemma AfterWriteLeased(a: App, e: Encoders)
    requires Commanded(a.file)
    ensures Leased(AfterWrite(a, e)) && AfterWrite(a, e).now == a.now
  {
    hide Commanded;
    var ops := EncoderControlOps(a.file.regs, e);
    ReportsCarry(a, ops);
    var b := Do(a, ops);
    CommandedUnexpired(b.file);
    RefreshCarries(b);
  }

  lemma CommandedUnexpired(f: RegFile)
    requires Commanded(f)
    ensures !f.timeoutActive
  {
  }

  lemma CommandReaches(a: App, e: Encoders)
    requires Idle(a) && Settings(a.file) && a.now == 0
    ensures var b := Inputs(a, RunCommand(e)); Invariant(b) && Leased(b) && b.now == 0
  {
    InputsKeep(a, RunCommand(e));
    var synced := Do(a, SyncOps(a.file.regs, e));
    ReportKeepsQuiet(a, SyncOps(a.file.regs, e));
    ReportsCarry(a, SyncOps(a.file.regs, e));
    CommandInput(synced, e, I2C.Write(0x10, [MODE_RUN, 50, 0]));
    hide Commanded, Settings, Invariant, Idle;
    assert SerialRx(synced, []) == synced;
    assert Inputs(a, RunCommand(e)) == I2cWrites(synced, [I2cInput(0, I2C.Write(0x10, [MODE_RUN, 50, 0]), e)]);
  }

  lemma CommandInput(a: App, e: Encoders, w: I2C.Write)
    requires Settings(a.file) && a.file.regs[ModeReg(M2)] == MODE_COAST && w == I2C.Write(0x10, [MODE_RUN, 50, 0])
    ensures var b := I2cWrites(a, [I2cInput(0, w, e)]); Leased(b) && b.now == a.now
  {
    hide Commanded, Settings, Leased, AfterWrite;
    CommandTakes(a.file);
    CommandWrite(a, w, e);
    OneI2cWrite(a, w, e);
  }

  lemma CommandWrite(a: App, w: I2C.Write, e: Encoders)
    requires CommitAccepted(w.reg, w.data) && Commanded(Committed(a.file, w.reg, w.data))
    ensures Leased(OnI2cWrite(a, w, e)) && OnI2cWrite(a, w, e).now == a.now
  {
    hide Commanded, Committed, CommitAccepted, Leased, AfterWrite;
    var op := Commit(w.reg, w.data);
    RunOne(a.file, [], op);
    assert [] + [op] == [op];
    AfterWriteLeased(Do(a, [op]), e);
  }

  lemma OneI2cWrite(a: App, w: I2C.Write, e: Encoders)
    ensures I2cWrites(a, [I2cInput(0, w, e)]) == OnI2cWrite(a, w, e)
  {
    hide OnI2cWrite;
    var input := I2cInput(0, w, e);
    assert [input][1..] == [] && Tick(a, 0) == a;
    assert I2cWrites(OnI2cWrite(a, w, e), []) == OnI2cWrite(a, w, e);
  }

  // ----- what neither watchdog nor controllers undo -----

  lemma ControlCarries(a: App, fb: Feedback)
    requires Commanded(a.file)
    ensures var b := Control(a, fb); Commanded(b.file) && b.dirty == a.dirty && b.bridge1 == a.bridge1
  {
    CommandIsActive(a.file);
    var s1 := ControlStep(a.file.regs, a.pid1, M1, fb.count1, fb.rpm1, a.Millis());
    ControlOpsOwned(a.file.regs, a.pid1, M1, fb.count1, fb.rpm1, a.Millis());
    var b := Do(a, s1.ops).(pid1 := s1.pid);
    ReportsCarry(a, s1.ops);
    CommandIsActive(b.file);
    var s2 := ControlStep(b.file.regs, b.pid2, M2, fb.count2, fb.rpm2, b.Millis());
    ControlOpsOwned(b.file.regs, b.pid2, M2, fb.count2, fb.rpm2, b.Millis());
    ReportsCarry(b, s2.ops);
    hide Commanded, ControlStep, Reporting;
    assert Control(a, fb) == a ||
           Control(a, fb) == Do(b, s2.ops).(pid2 := s2.pid, dirty := a.dirty || s1.changed || s2.changed);
  }

  lemma SteerCarries(a: App, ms: nat, fb: Feedback)
    requires Commanded(a.file)
    ensures var b := Steer(a, ms, fb); Commanded(b.file) && b.leaseAt == a.leaseAt && b.now == a.now + ms
    ensures !a.dirty ==> Steer(a, ms, fb).bridge1 == a.bridge1 && !Steer(a, ms, fb).dirty
  {
    var later := Tick(a, ms);
    ControlCarries(later, fb);
    var c := Control(later, fb);
    CommandedUnexpired(c.file);
    RefreshCarries(c);
    hide Commanded, ControlStep;
  }

  /** The first pass: the write is taken and the bridge driven. */
  lemma CommandPass(a: App, e: Encoders)
    requires Idle(a) && Settings(a.file) && a.now == 0
    ensures var b := Pass(a, RunCommand(e));
            Invariant(b) && Commanded(b.file) && b.leaseAt == b.now == 0 && !b.dirty &&
            b.bridge1 == Drive(true, 12800)
  {
    var input, fed := RunCommand(e), Inputs(a, RunCommand(e));
    CommandReaches(a, e);
    CommandIsActive(fed.file);
    PassSafe(a, input);
    assert Tick(fed, 0) == fed;
    assert LeaseTrue(fed);
    WatchdogDecides(fed);
    var fb := FeedbackFrom(a.file.regs, e);
    SteerCarries(Checked(a, input), 0, fb);
    CommandIsActive(Pass(a, input).file);
    hide Commanded, Invariant, Idle, Settings;
    DrivenWhenSafe(Pass(a, input));
  }

  lemma DrivenWhenSafe(a: App)
    requires Safe(a) && !a.file.timeoutActive && forall p :: Output(a.file, p, M1, false) == Drive(true, 12800)
    ensures a.bridge1 == Drive(true, 12800) && !a.dirty
  {
    assert a.BridgeOf(M1) == Output(a.file, a.PidOf(M1), M1, a.timeout);
  }

  /** The second: the watchdog sees an age of zero and the bridge stays driven. */
  lemma StalledPass(a: App, e: Encoders)
    requires Invariant(a) && Commanded(a.file) && a.leaseAt == a.now && !a.dirty
    ensures var b := Pass(a, Stall(e));
            b.bridge1 == a.bridge1 && Commanded(b.file) && b.leaseAt == a.leaseAt &&
            b.now == a.leaseAt + CLOCK_PERIOD_MS
  {
    var input, ops := Stall(e), SyncOps(a.file.regs, e);
    var synced := Do(a, ops);
    ReportKeeps(a, ops);
    ReportsCarry(a, ops);
    assert Inputs(a, input) == synced;
    var later := Tick(synced, CLOCK_PERIOD_MS);
    TickKeeps(synced, CLOCK_PERIOD_MS);
    CommandIsActive(later.file);
    StalledLoopMissesTrip(later);
    SteerCarries(Checked(a, input), 0, FeedbackFrom(a.file.regs, e));
  }

  /** From power-on, for any encoder readings: the command forward at half duty drives the bridge in reverse, as the
      outputs are inverted, with 50 units of 256. */
  lemma PowerOnCommandDrives(address: Byte, e: Encoders)
    ensures ParserInvariant(Start(address, e).parser)
    ensures Pass(Start(address, e), RunCommand(e)).bridge1 == Drive(true, 12800)
  {
    hide Start, Idle, Settings, Commanded, Invariant, RunCommand, Pass;
    StartSettings(address, e);
    IdleParts(Start(address, e));
    CommandPass(Start(address, e), e);
  }

  /** And after the stall the bridge is still so driven, although the last write is 2^32 ms old and the timeout one
      second. */
  lemma StalledRunKeepsDriving(address: Byte, e: Encoders, inputs: seq<PassInput>)
    requires inputs == [RunCommand(e), Stall(e)]
    ensures ParserInvariant(Start(address, e).parser)
    ensures var a := Passes(Start(address, e), inputs);
            a.bridge1.Drive? && a.bridge1.reverse && a.bridge1.dutyQ8 == 12800 && HasActiveCommand(a.file) &&
            TimeoutMs(a.file) == 1000 &&
            a.now - a.leaseAt == CLOCK_PERIOD_MS
  {
    hide Start, Idle, Settings, Commanded, Invariant, RunCommand, Stall, Pass;
    var a := Start(address, e);
    StartSettings(address, e);
    IdleParts(a);
    CommandPass(a, e);
    var b := Pass(a, RunCommand(e));
    InvariantParts(b);
    StalledPass(b, e);
    CommandIsActive(Pass(b, Stall(e)).file);
    TwoPasses(a, RunCommand(e), Stall(e));
  }

  lemma IdleParts(a: App)
    requires Idle(a)
    ensures Invariant(a) && ParserInvariant(a.parser)
  {
  }

  lemma InvariantParts(a: App)
    requires Invariant(a)
    ensures ParserInvariant(a.parser)
  {
  }

  lemma TwoPasses(a: App, first: PassInput, second: PassInput)
    requires ParserInvariant(a.parser)
    ensures ParserInvariant(Pass(a, first).parser) && Passes(a, [first, second]) == Pass(Pass(a, first), second)
  {
    hide Pass, ParserInvariant;
    PassExtends(a, first);
    PassExtends(Pass(a, first), second);
    assert [first, second][1..] == [second] && [second][1..] == [];
    assert Passes(Pass(Pass(a, first), second), []) == Pass(Pass(a, first), second);
  }
}
