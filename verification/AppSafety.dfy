/** What holds at the end of every main-loop pass of every run. */
module AppSafety {
  import opened Arith
  import opened RegisterSpec
  import opened RegisterInvariants
  import opened SerialFrame
  import opened ControlSpec
  import opened AppFrames
  import opened AppHistory
  import opened AppSpec

  const MAXIMUM_TIMEOUT_MS: nat := 2550

  /** An active command holds a lease that the firmware's clock remembers, and under a running watchdog is armed. */
  predicate LeaseHolds(a: App) {
    a.leaseAt <= a.now && a.checkedAt <= a.now &&
    (HasActiveCommand(a.file) ==> a.lastRefreshMs == Wrap32(a.leaseAt)) &&
    (HasActiveCommand(a.file) && TimeoutMs(a.file) != 0 ==> a.armed)
  }

  predicate StateHolds(a: App) {
    RegisterInvariants.WellFormed(a.file) && ParserInvariant(a.parser) && PidInRange(a.pid1) && PidInRange(a.pid2) &&
    a.timeout == a.file.timeoutActive
  }

  /** Unless an update is pending, each bridge does what registers and controller say. */
  predicate OutputsCurrent(a: App, m: Motor) {
    !a.dirty ==>
      a.BridgeOf(m) == Output(a.file, a.PidOf(m), m, a.timeout) &&
      (!a.timeout && Enabled(a.file.regs) ==> NoStaleOutput(a.file, a.PidOf(m), m))
  }

  predicate Invariant(a: App) {
    StateHolds(a) && LeaseHolds(a) && OutputsCurrent(a, M1) && OutputsCurrent(a, M2)
  }

  /** When the watchdog last looked, the lease of an active command was within the timeout, or began only later. */
  predicate LeaseTrue(a: App) {
    HasActiveCommand(a.file) && TimeoutMs(a.file) != 0 ==> a.checkedAt <= a.leaseAt + TimeoutMs(a.file)
  }

  // ----- steps that only report -----

  /** Two states that agree on everything the invariant reads. */
  predicate Agrees(a: App, b: App) {
    SameDecisions(a.file, b.file) && RegisterInvariants.WellFormed(b.file) &&
    b.parser == a.parser && b.pid1 == a.pid1 && b.pid2 == a.pid2 && b.timeout == a.timeout && b.dirty == a.dirty &&
    b.bridge1 == a.bridge1 && b.bridge2 == a.bridge2 && b.armed == a.armed && b.lastRefreshMs == a.lastRefreshMs &&
    b.leaseAt == a.leaseAt && b.checkedAt == a.checkedAt && a.now <= b.now
  }

  lemma AgreementKeeps(a: App, b: App)
    requires Invariant(a) && Agrees(a, b)
    ensures Invariant(b) && (LeaseTrue(a) ==> LeaseTrue(b))
  {
    hide ParserInvariant, PidInRange;
    DecisionsDetermine(a.file, b.file, a.pid1, M1);
    DecisionsDetermine(a.file, b.file, a.pid2, M2);
  }

  lemma ReportKeeps(a: App, ops: seq<RegOp>)
    requires Invariant(a) && forall i :: 0 <= i < |ops| ==> Reporting(ops[i])
    ensures Invariant(Do(a, ops)) && (LeaseTrue(a) ==> LeaseTrue(Do(a, ops)))
  {
    hide ParserInvariant, PidInRange;
    ReportingRunKeepsDecisions(a.file, ops);
    ReachableWellFormed(a.file, ops);
    AgreementKeeps(a, Do(a, ops));
  }

  lemma TickKeeps(a: App, ms: nat)
    requires Invariant(a)
    ensures Invariant(Tick(a, ms)) && (LeaseTrue(a) ==> LeaseTrue(Tick(a, ms)))
  {
    AgreementKeeps(a, Tick(a, ms));
  }

  // ----- steps that change the lease -----

  /** What the invariant needs of the state in which a write has just been committed. */
  predicate Sound(a: App) {
    RegisterInvariants.WellFormed(a.file) && ParserInvariant(a.parser) && PidInRange(a.pid1) && PidInRange(a.pid2) &&
    a.leaseAt <= a.now && a.checkedAt <= a.now
  }

  lemma AfterWriteKeeps(a: App, e: Encoders)
    requires Sound(a)
    ensures Invariant(AfterWrite(a, e)) && LeaseTrue(AfterWrite(a, e)) && AfterWrite(a, e).dirty
  {
    AfterWriteExtends(a, e);
    ReachableWellFormed(a.file, AfterWrite(a, e).log[|a.log|..]);
    var b := Do(a, EncoderControlOps(a.file.regs, e));
    RunOne(b.file, [], SetTimeout(false));
    assert [] + [SetTimeout(false)] == [SetTimeout(false)];
  }

  lemma WriteKeeps(a: App, op: RegOp, e: Encoders)
    requires Sound(a)
    ensures var b := AfterWrite(Do(a, [op]), e); Invariant(b) && LeaseTrue(b) && b.dirty
  {
    ReachableWellFormed(a.file, [op]);
    AfterWriteKeeps(Do(a, [op]), e);
  }

  lemma KeepaliveKeeps(a: App)
    requires Invariant(a)
    ensures Invariant(AfterKeepalive(a)) && (LeaseTrue(a) ==> LeaseTrue(AfterKeepalive(a)))
  {
  }

  lemma ParserChangeKeeps(a: App, p: Parser)
    requires Invariant(a) && ParserInvariant(p)
    ensures Invariant(a.(parser := p)) && (LeaseTrue(a) ==> LeaseTrue(a.(parser := p)))
  {
  }

  lemma ByteKeeps(a: App, value: Byte, e: Encoders)
    requires Invariant(a)
    ensures Invariant(OnByte(a, value, e)) && (LeaseTrue(a) ==> LeaseTrue(OnByte(a, value, e)))
  {
    StepSound(a.parser, value);
    var event := Step(a.parser, value).1;
    var b := a.(parser := Step(a.parser, value).0);
    ParserChangeKeeps(a, b.parser);
    if HandleEvent(a.file, event).keepalive {
      KeepaliveKeeps(b);
    } else if HandleEvent(a.file, event).committed {
      WriteKeeps(b, Commit(event.request.reg, event.request.data), e);
    }
  }

  lemma {:induction false} SerialKeeps(a: App, inputs: seq<SerialInput>)
    requires Invariant(a)
    ensures Invariant(SerialRx(a, inputs)) && (LeaseTrue(a) ==> LeaseTrue(SerialRx(a, inputs)))
    decreases |inputs|
  {
    if inputs != [] {
      var t := Tick(a, inputs[0].ms);
      TickKeeps(a, inputs[0].ms);
      ByteKeeps(t, inputs[0].value, inputs[0].encoders);
      SerialKeeps(OnByte(t, inputs[0].value, inputs[0].encoders), inputs[1..]);
    }
  }

  lemma I2cWriteKeeps(a: App, i: I2cInput)
    requires Invariant(a)
    ensures Invariant(OnI2cWrite(a, i.write, i.encoders)) &&
            (LeaseTrue(a) ==> LeaseTrue(OnI2cWrite(a, i.write, i.encoders)))
  {
    if CommitAccepted(i.write.reg, i.write.data) { WriteKeeps(a, Commit(i.write.reg, i.write.data), i.encoders); }
  }

  lemma {:induction false} I2cKeeps(a: App, inputs: seq<I2cInput>)
    requires Invariant(a)
    ensures Invariant(I2cWrites(a, inputs)) && (LeaseTrue(a) ==> LeaseTrue(I2cWrites(a, inputs)))
    decreases |inputs|
  {
    if inputs != [] {
      var t := Tick(a, inputs[0].ms);
      TickKeeps(a, inputs[0].ms);
      I2cWriteKeeps(t, inputs[0]);
      I2cKeeps(OnI2cWrite(t, inputs[0].write, inputs[0].encoders), inputs[1..]);
    }
  }

  lemma TripKeeps(a: App)
    requires Invariant(a)
    ensures Invariant(OnBusTrip(a)) && LeaseTrue(OnBusTrip(a))
  {
    RunOne(a.file, [], ForceCoast);
    assert [] + [ForceCoast] == [ForceCoast];
    ReachableWellFormed(a.file, [ForceCoast]);
    CoastOnTimeoutEffect(a.file, M1);
  }

  lemma InputsKeep(a: App, input: PassInput)
    requires Invariant(a)
    ensures Invariant(Inputs(a, input)) && (LeaseTrue(a) ==> LeaseTrue(Inputs(a, input)))
  {
    var synced := Do(a, SyncOps(a.file.regs, input.encoders));
    ReportKeeps(a, SyncOps(a.file.regs, input.encoders));
    SerialKeeps(synced, input.serial);
    I2cKeeps(SerialRx(synced, input.serial), input.i2c);
    if input.busTrip { TripKeeps(I2cWrites(SerialRx(synced, input.serial), input.i2c)); }
  }

  // ----- the watchdog -----

  /** The longest stretch between two looks at the watchdog that its 32-bit clock can measure. */
  const MAXIMUM_GAP_MS: nat := 0xFFFF_0000

  const CLOCK_PERIOD_MS: nat := 0x1_0000_0000

  /** When the watchdog last looked, the lease of an active command was no older than its timeout, as its clock
      measures ages. */
  predicate Covered(a: App) {
    HasActiveCommand(a.file) && TimeoutMs(a.file) != 0 ==>
      a.leaseAt <= a.checkedAt && (a.checkedAt - a.leaseAt) % CLOCK_PERIOD_MS <= TimeoutMs(a.file)
  }

  predicate Tripped(a: App) {
    a.timeout && a.file.timeoutActive && Bit(a.file.regs[REG_FAULT_FLAGS], 0) &&
    a.file.regs[ModeReg(M1)] == MODE_COAST && a.file.regs[ModeReg(M2)] == MODE_COAST
  }

  lemma TimeoutIsShort(f: RegFile)
    ensures TimeoutMs(f) <= MAXIMUM_TIMEOUT_MS
  {
  }

  lemma ForceCoastTrips(a: App)
    requires RegisterInvariants.WellFormed(a.file)
    ensures var b := Do(a, [ForceCoast]);
            RegisterInvariants.WellFormed(b.file) && b.file == CoastOnTimeout(a.file) && !HasActiveCommand(b.file)
  {
    RunOne(a.file, [], ForceCoast);
    assert [] + [ForceCoast] == [ForceCoast];
    ReachableWellFormed(a.file, [ForceCoast]);
    CoastOnTimeoutEffect(a.file, M1);
  }

  lemma LeaseAge(a: App)
    requires Invariant(a) && LeaseTrue(a) && a.now - a.checkedAt <= MAXIMUM_GAP_MS
    requires HasActiveCommand(a.file) && TimeoutMs(a.file) != 0
    ensures a.armed && !a.timeout && Wrap32(a.Millis() - a.lastRefreshMs) == a.now - a.leaseAt
  {
    hide RegisterInvariants.WellFormed, ParserInvariant, PidInRange, OutputsCurrent, HasActiveCommand;
    ActiveUnexpired(a.file);
    TimeoutIsShort(a.file);
    WrappedElapsed(a.leaseAt, a.now);
  }

  lemma ActiveUnexpired(f: RegFile)
    requires HasActiveCommand(f)
    ensures !f.timeoutActive
  {
  }

  lemma ExpiredLeaseTrips(a: App)
    requires RegisterInvariants.WellFormed(a.file) && HasActiveCommand(a.file) && TimeoutMs(a.file) != 0
    requires a.armed && !a.timeout && Wrap32(a.Millis() - a.lastRefreshMs) > TimeoutMs(a.file)
    ensures Tripped(CheckWatchdog(a))
  {
    hide HasActiveCommand, CoastOnTimeout, RegisterInvariants.WellFormed, Refreshed;
    ForceCoastTrips(a);
    assert CheckWatchdog(a).file == CoastOnTimeout(a.file);
    CoastOnTimeoutEffect(a.file, M1);
    CoastOnTimeoutEffect(a.file, M2);
  }

  /** Whatever the gap, the watchdog measures the age of the lease modulo 2^32, so it decides by the true age
      exactly when that age is within the timeout or still exceeds it after the wrap. */
  lemma WatchdogMeasuresModulo(a: App)
    requires Invariant(a) && HasActiveCommand(a.file) && TimeoutMs(a.file) != 0
    ensures var age := a.now - a.leaseAt; var limit := TimeoutMs(a.file); var trips := Tripped(CheckWatchdog(a));
            (trips <==> age % CLOCK_PERIOD_MS > limit) && (!trips ==> CheckWatchdog(a) == a.(checkedAt := a.now)) &&
            ((trips <==> age > limit) <==> age <= limit || age % CLOCK_PERIOD_MS > limit)
  {
    hide RegisterInvariants.WellFormed, ParserInvariant, PidInRange, OutputsCurrent, HasActiveCommand;
    ActiveUnexpired(a.file);
    WrappedElapsed(a.leaseAt, a.now);
    TimeoutIsShort(a.file);
    if Wrap32(a.now - a.leaseAt) > TimeoutMs(a.file) {
      ExpiredLeaseTrips(a);
    } else {
      assert CheckWatchdog(a) == a.(checkedAt := a.now);
    }
    SmallRemainder(a.now - a.leaseAt);
  }

  lemma SmallRemainder(x: nat)
    ensures x % 0x1_0000_0000 <= x && (x < 0x1_0000_0000 ==> x % 0x1_0000_0000 == x)
  {
  }

  /** With an active command the watchdog is already armed, so it never silently grants a new lease: it trips
      exactly when the last write or heartbeat is older than the configured timeout. */
  lemma WatchdogDecides(a: App)
    requires Invariant(a) && LeaseTrue(a) && a.now - a.checkedAt <= MAXIMUM_GAP_MS
    requires HasActiveCommand(a.file) && TimeoutMs(a.file) != 0
    ensures a.armed
    ensures a.now - a.leaseAt > TimeoutMs(a.file) <==> Tripped(CheckWatchdog(a))
    ensures a.now - a.leaseAt <= TimeoutMs(a.file) ==> CheckWatchdog(a) == a.(checkedAt := a.now)
  {
    hide RegisterInvariants.WellFormed, ParserInvariant, PidInRange, OutputsCurrent, HasActiveCommand, LeaseHolds;
    LeaseAge(a);
    if a.now - a.leaseAt > TimeoutMs(a.file) {
      ExpiredLeaseTrips(a);
    } else {
      assert CheckWatchdog(a) == a.(checkedAt := a.now);
    }
  }

  lemma CheckKeeps(a: App)
    requires Invariant(a)
    ensures Invariant(CheckWatchdog(a)) && Covered(CheckWatchdog(a))
  {
    hide ParserInvariant, PidInRange, RegisterInvariants.WellFormed, NoStaleOutput;
    if HasActiveCommand(a.file) && TimeoutMs(a.file) != 0 {
      WatchdogMeasuresModulo(a);
      if Tripped(CheckWatchdog(a)) { TripCovers(a); }
    }
  }

  /** A trip leaves nothing active. */
  lemma TripCovers(a: App)
    requires Invariant(a) && HasActiveCommand(a.file) && TimeoutMs(a.file) != 0 && Tripped(CheckWatchdog(a))
    ensures Invariant(CheckWatchdog(a)) && !HasActiveCommand(CheckWatchdog(a).file)
  {
    hide ParserInvariant, PidInRange, NoStaleOutput;
    ActiveUnexpired(a.file);
    ForceCoastTrips(a);
    assert CheckWatchdog(a) ==
           Do(a.(checkedAt := a.now), [ForceCoast]).(timeout := true, armed := false, dirty := true);
  }

  /** Looking in time keeps the true age of the lease within the timeout. */
  lemma TimelyCheck(a: App)
    requires Invariant(a) && LeaseTrue(a) && a.now - a.checkedAt <= MAXIMUM_GAP_MS
    ensures LeaseTrue(CheckWatchdog(a))
  {
    ForceCoastTrips(a);
    if HasActiveCommand(a.file) && TimeoutMs(a.file) != 0 { WatchdogDecides(a); }
  }

  /** Beyond that stretch the clock wraps: a loop stalled for exactly 2^32 ms after a lease misses the trip. */
  lemma StalledLoopMissesTrip(a: App)
    requires Invariant(a) && HasActiveCommand(a.file) && TimeoutMs(a.file) != 0
    requires a.now == a.leaseAt + CLOCK_PERIOD_MS
    ensures a.now - a.leaseAt > TimeoutMs(a.file) && CheckWatchdog(a) == a.(checkedAt := a.now)
  {
    hide RegisterInvariants.WellFormed, ParserInvariant, PidInRange, OutputsCurrent;
    WrappedElapsed(a.leaseAt, a.now);
    TimeoutIsShort(a.file);
  }

  // ----- control and outputs -----

  /** What the first half of the controller leaves for the second. */
  lemma ControlFirst(a: App, count: Int32, rpm: Int16)
    requires Invariant(a)
    ensures var s := ControlStep(a.file.regs, a.pid1, M1, count, rpm, a.Millis()); var f := Run(a.file, s.ops);
            RegisterInvariants.WellFormed(f) && PidInRange(s.pid) && f.timeoutActive == a.file.timeoutActive &&
            Enabled(f.regs) == Enabled(a.file.regs) && TimeoutMs(f) == TimeoutMs(a.file) &&
            HasActiveCommand(f) == HasActiveCommand(a.file) && NoStaleOutput(f, s.pid, M1) &&
            NoStaleOutput(f, a.pid2, M2) == NoStaleOutput(a.file, a.pid2, M2) &&
            BridgeFor(f.regs, a.pid2, M2) == BridgeFor(a.file.regs, a.pid2, M2) &&
            (!s.changed && NoStaleOutput(a.file, a.pid1, M1) ==>
             BridgeFor(f.regs, s.pid, M1) == BridgeFor(a.file.regs, a.pid1, M1))
  {
    var s := ControlStep(a.file.regs, a.pid1, M1, count, rpm, a.Millis());
    ControlOneMotor(a.file, a.pid1, M1, count, rpm, a.Millis());
    ControlKeepsRange(a.file.regs, a.pid1, M1, count, rpm, a.Millis());
    ReachableWellFormed(a.file, s.ops);
    OthersDetermine(a.file, Run(a.file, s.ops), a.pid2, M1, M2);
  }

  lemma ControlSecond(f: RegFile, p1: Pid, p2: Pid, count: Int32, rpm: Int16, now: Word32)
    requires RegisterInvariants.WellFormed(f) && PidInRange(p2)
    ensures var s := ControlStep(f.regs, p2, M2, count, rpm, now); var g := Run(f, s.ops);
            RegisterInvariants.WellFormed(g) && PidInRange(s.pid) && g.timeoutActive == f.timeoutActive &&
            Enabled(g.regs) == Enabled(f.regs) && TimeoutMs(g) == TimeoutMs(f) &&
            HasActiveCommand(g) == HasActiveCommand(f) && NoStaleOutput(g, s.pid, M2) &&
            NoStaleOutput(g, p1, M1) == NoStaleOutput(f, p1, M1) &&
            BridgeFor(g.regs, p1, M1) == BridgeFor(f.regs, p1, M1) &&
            (!s.changed && NoStaleOutput(f, p2, M2) ==> BridgeFor(g.regs, s.pid, M2) == BridgeFor(f.regs, p2, M2))
  {
    var s := ControlStep(f.regs, p2, M2, count, rpm, now);
    ControlOneMotor(f, p2, M2, count, rpm, now);
    ControlKeepsRange(f.regs, p2, M2, count, rpm, now);
    ReachableWellFormed(f, s.ops);
    OthersDetermine(f, Run(f, s.ops), p1, M2, M1);
  }

  /** After control no closed-loop motor without an encoder scale keeps an output. */
  predicate Ready(a: App) {
    !a.timeout && Enabled(a.file.regs) ==> NoStaleOutput(a.file, a.pid1, M1) && NoStaleOutput(a.file, a.pid2, M2)
  }

  /** Control moves neither the lease nor what it protects. */
  lemma ControlKeeps(a: App, fb: Feedback)
    requires Invariant(a)
    ensures Invariant(Control(a, fb)) && Ready(Control(a, fb))
    ensures Covered(a) == Covered(Control(a, fb)) && LeaseTrue(a) == LeaseTrue(Control(a, fb))
  {
    hide ParserInvariant, RegisterInvariants.WellFormed, PidInRange, NoStaleOutput, HasActiveCommand, BridgeFor,
         ControlStep;
    if !a.timeout && Enabled(a.file.regs) {
      var s1 := ControlStep(a.file.regs, a.pid1, M1, fb.count1, fb.rpm1, a.Millis());
      var f := Run(a.file, s1.ops);
      ControlFirst(a, fb.count1, fb.rpm1);
      ControlSecond(f, s1.pid, a.pid2, fb.count2, fb.rpm2, a.Millis());
    }
  }

  /** The end of a pass: nothing is pending and each bridge does what registers and controller say; a bridge is
      driven only for an enabled, unexpired command in a driving mode whose lease the watchdog found valid. */
  predicate Safe(a: App) {
    !a.dirty && a.timeout == a.file.timeoutActive &&
    forall m: Motor ::
      a.BridgeOf(m) == Output(a.file, a.PidOf(m), m, a.timeout) &&
      (a.BridgeOf(m).Drive? ==>
        Enabled(a.file.regs) && !a.timeout && a.file.regs[ModeReg(m)] in {MODE_RUN, MODE_SPEED, MODE_POSITION} &&
        (TimeoutMs(a.file) != 0 ==>
           a.leaseAt <= a.checkedAt && (a.checkedAt - a.leaseAt) % CLOCK_PERIOD_MS <= TimeoutMs(a.file)))
  }

  lemma DriveMeansActive(f: RegFile, p: Pid, m: Motor)
    requires Output(f, p, m, f.timeoutActive).Drive?
    ensures HasActiveCommand(f) && f.regs[ModeReg(m)] in {MODE_RUN, MODE_SPEED, MODE_POSITION}
  {
    assert MotorActive(f, m);
  }

  lemma SettledIsSafe(a: App)
    requires Invariant(a) && Covered(a) && !a.dirty
    ensures Safe(a)
  {
    hide RegisterInvariants.WellFormed, ParserInvariant, PidInRange;
    forall m: Motor
      ensures a.BridgeOf(m) == Output(a.file, a.PidOf(m), m, a.timeout)
      ensures a.BridgeOf(m).Drive? ==>
              HasActiveCommand(a.file) && a.file.regs[ModeReg(m)] in {MODE_RUN, MODE_SPEED, MODE_POSITION}
    {
      assert OutputsCurrent(a, M1) && OutputsCurrent(a, M2);
      if a.BridgeOf(m).Drive? { DriveMeansActive(a.file, a.PidOf(m), m); }
    }
  }

  lemma RefreshKeepsFile(f: RegFile)
    requires RegisterInvariants.WellFormed(f)
    ensures Run(f, [SetTimeout(f.timeoutActive)]) == f
  {
    RunOne(f, [], SetTimeout(f.timeoutActive));
    assert [] + [SetTimeout(f.timeoutActive)] == [SetTimeout(f.timeoutActive)];
    var g := WithTimeout(f, f.timeoutActive);
    assert g.regs == f.regs;
  }

  lemma OutputsKeep(a: App)
    requires Invariant(a) && Ready(a) && Covered(a)
    ensures Invariant(ApplyOutputs(a)) && Safe(ApplyOutputs(a)) && (LeaseTrue(a) ==> LeaseTrue(ApplyOutputs(a)))
  {
    hide ParserInvariant, PidInRange;
    RefreshKeepsFile(a.file);
    SettledIsSafe(ApplyOutputs(a));
  }

  // ----- whole passes and whole runs -----

  function SerialMs(inputs: seq<SerialInput>): nat
    decreases |inputs|
  {
    if inputs == [] then 0 else inputs[0].ms + SerialMs(inputs[1..])
  }

  function I2cMs(inputs: seq<I2cInput>): nat
    decreases |inputs|
  {
    if inputs == [] then 0 else inputs[0].ms + I2cMs(inputs[1..])
  }

  /** A pass that takes less than about 24 days. */
  predicate Timely(input: PassInput) {
    SerialMs(input.serial) + I2cMs(input.i2c) + input.msBeforeCheck + input.msBeforeControl < 0x7FFF_0000
  }

  lemma ByteTime(a: App, value: Byte, e: Encoders)
    requires ParserInvariant(a.parser)
    ensures var b := OnByte(a, value, e); b.now == a.now && b.checkedAt == a.checkedAt
  {
    hide ParserInvariant, HasActiveCommand, Step, HandleEvent;
  }

  lemma {:induction false} SerialTime(a: App, inputs: seq<SerialInput>)
    requires ParserInvariant(a.parser)
    ensures var b := SerialRx(a, inputs); b.now == a.now + SerialMs(inputs) && b.checkedAt == a.checkedAt
    decreases |inputs|
  {
    hide ParserInvariant, HasActiveCommand, OnByte;
    if inputs != [] {
      var t := Tick(a, inputs[0].ms);
      OnByteParser(t, inputs[0].value, inputs[0].encoders);
      ByteTime(t, inputs[0].value, inputs[0].encoders);
      SerialTime(OnByte(t, inputs[0].value, inputs[0].encoders), inputs[1..]);
    }
  }

  lemma {:induction false} I2cTime(a: App, inputs: seq<I2cInput>)
    ensures var b := I2cWrites(a, inputs); b.now == a.now + I2cMs(inputs) && b.checkedAt == a.checkedAt
    decreases |inputs|
  {
    if inputs != [] {
      I2cTime(OnI2cWrite(Tick(a, inputs[0].ms), inputs[0].write, inputs[0].encoders), inputs[1..]);
    }
  }

  lemma InputsTime(a: App, input: PassInput)
    requires ParserInvariant(a.parser)
    ensures var b := Inputs(a, input);
            b.now == a.now + SerialMs(input.serial) + I2cMs(input.i2c) && b.checkedAt == a.checkedAt
  {
    var synced := Do(a, SyncOps(a.file.regs, input.encoders));
    SerialTime(synced, input.serial);
    SerialExtends(synced, input.serial);
    I2cTime(SerialRx(synced, input.serial), input.i2c);
  }

  /** The watchdog looked recently enough for its clock to measure the time since. */
  predicate Recent(a: App) {
    a.now - a.checkedAt < 0x7FFF_0000
  }

  lemma CheckedSafe(a: App, input: PassInput)
    requires Invariant(a)
    ensures Invariant(Checked(a, input)) && Covered(Checked(a, input))
    ensures Checked(a, input).checkedAt == Checked(a, input).now
    ensures LeaseTrue(a) && Recent(a) && Timely(input) ==> LeaseTrue(Checked(a, input))
  {
    hide ParserInvariant, PidInRange;
    var fed := Inputs(a, input);
    InputsKeep(a, input);
    InputsTime(a, input);
    TickKeeps(fed, input.msBeforeCheck);
    var later := Tick(fed, input.msBeforeCheck);
    CheckKeeps(later);
    if LeaseTrue(a) && Recent(a) && Timely(input) { TimelyCheck(later); }
  }

  lemma SteerTimes(a: App, ms: nat, fb: Feedback)
    ensures Steer(a, ms, fb).checkedAt == a.checkedAt && Steer(a, ms, fb).now == a.now + ms
  {
    hide ControlStep, Run, Output, HasActiveCommand;
  }

  lemma SteerSafe(a: App, ms: nat, fb: Feedback)
    requires Invariant(a) && Covered(a) && a.checkedAt == a.now
    ensures var b := Steer(a, ms, fb);
            Invariant(b) && Safe(b) && b.checkedAt == a.checkedAt && b.now == a.now + ms &&
            (LeaseTrue(a) ==> LeaseTrue(b))
  {
    hide Invariant, Safe, Ready, LeaseTrue, Control, ApplyOutputs, HasActiveCommand;
    var later := Tick(a, ms);
    SteerTimes(a, ms, fb);
    TickKeeps(a, ms);
    ControlKeeps(later, fb);
    OutputsKeep(Control(later, fb));
  }

  /** One pass, however long it takes, keeps the invariant and ends safe. */
  lemma PassSafe(a: App, input: PassInput)
    requires Invariant(a)
    ensures var b := Pass(a, input); Invariant(b) && Safe(b) && b.now - b.checkedAt == input.msBeforeControl
    ensures LeaseTrue(a) && Recent(a) && Timely(input) ==> LeaseTrue(Pass(a, input)) && Recent(Pass(a, input))
  {
    CheckedSafe(a, input);
    SteerSafe(Checked(a, input), input.msBeforeControl, FeedbackFrom(a.file.regs, input.encoders));
  }

  /** What the last pass spends after the watchdog has looked. */
  function LastDelay(inputs: seq<PassInput>): nat
    requires inputs != []
  {
    inputs[|inputs| - 1].msBeforeControl
  }

  lemma LastDelayLater(inputs: seq<PassInput>)
    requires |inputs| > 1
    ensures LastDelay(inputs[1..]) == LastDelay(inputs)
  {
  }

  /** Safety over whole runs: any number of passes of any length, whatever arrives on the serial line and the I2C
      bus, ends with every bridge either off or driven under a lease the watchdog found valid in the last pass. */
  lemma {:induction false} RunSafe(a: App, inputs: seq<PassInput>)
    requires Invariant(a) && Safe(a)
    ensures var b := Passes(a, inputs);
            Invariant(b) && Safe(b) && (inputs != [] ==> b.now - b.checkedAt == LastDelay(inputs))
    decreases |inputs|
  {
    hide Safe, LastDelay, Pass;
    if inputs != [] {
      PassSafe(a, inputs[0]);
      PassExtends(a, inputs[0]);
      RunSafe(Pass(a, inputs[0]), inputs[1..]);
      if |inputs| > 1 { LastDelayLater(inputs); } else { OnlyDelay(inputs); }
    }
  }

  lemma OnlyDelay(inputs: seq<PassInput>)
    requires |inputs| == 1
    ensures LastDelay(inputs) == inputs[0].msBeforeControl && inputs[1..] == []
  {
  }

  /** No bridge is driven under a lease older than the timeout by more than `ms`. */
  predicate LeaseWithin(a: App, ms: nat) {
    forall m: Motor :: a.BridgeOf(m).Drive? && TimeoutMs(a.file) != 0 ==> a.now - a.leaseAt <= TimeoutMs(a.file) + ms
  }

  lemma TrueLeaseIsWithin(a: App, ms: nat)
    requires Safe(a) && LeaseTrue(a) && a.now - a.checkedAt == ms
    ensures LeaseWithin(a, ms)
  {
    forall m: Motor | a.BridgeOf(m).Drive? ensures HasActiveCommand(a.file) {
      DriveMeansActive(a.file, a.PidOf(m), m);
    }
  }

  lemma InvariantParser(a: App)
    requires Invariant(a)
    ensures ParserInvariant(a.parser)
  {
  }

  lemma {:induction false} TimelyRunTrue(a: App, inputs: seq<PassInput>)
    requires Invariant(a) && LeaseTrue(a) && Recent(a)
    requires forall i :: 0 <= i < |inputs| ==> Timely(inputs[i])
    ensures LeaseTrue(Passes(a, inputs))
    decreases |inputs|
  {
    hide Safe, Invariant, LeaseTrue, Recent, Timely, Pass, ParserInvariant;
    InvariantParser(a);
    if inputs != [] {
      var b := Pass(a, inputs[0]);
      PassSafe(a, inputs[0]);
      PassExtends(a, inputs[0]);
      TimelyRunTrue(b, inputs[1..]);
      assert Passes(a, inputs) == Passes(b, inputs[1..]);
    }
  }

  /** While every pass is timely the true age counts: no bridge is driven when the last write or heartbeat is older
      than the timeout plus what the last pass spent after the watchdog had looked. */
  lemma TimelyRunSafe(a: App, inputs: seq<PassInput>)
    requires Invariant(a) && Safe(a) && LeaseTrue(a) && Recent(a)
    requires inputs != [] && forall i :: 0 <= i < |inputs| ==> Timely(inputs[i])
    ensures LeaseWithin(Passes(a, inputs), LastDelay(inputs))
  {
    hide Recent, Timely, Safe, LeaseWithin, LeaseTrue, LastDelay;
    RunSafe(a, inputs);
    TimelyRunTrue(a, inputs);
    TrueLeaseIsWithin(Passes(a, inputs), LastDelay(inputs));
  }

  /** Nothing is commanded. */
  predicate Quiet(a: App) {
    StateHolds(a) && !a.timeout && a.leaseAt <= a.now && a.checkedAt <= a.now && Recent(a) &&
    a.file.regs[ModeReg(M1)] == MODE_COAST && a.file.regs[ModeReg(M2)] == MODE_COAST
  }

  /** Nothing is commanded and nothing is pending. */
  predicate Idle(a: App) {
    Quiet(a) && Invariant(a) && !a.dirty
  }

  lemma ReportKeepsQuiet(a: App, ops: seq<RegOp>)
    requires Quiet(a) && forall i :: 0 <= i < |ops| ==> Reporting(ops[i])
    ensures Quiet(Do(a, ops))
  {
    hide ParserInvariant, PidInRange;
    ReportingRunKeepsDecisions(a.file, ops);
    ReachableWellFormed(a.file, ops);
    assert Decisive(ModeReg(M1)) && Decisive(ModeReg(M2));
  }

  lemma RefreshKeepsQuiet(a: App)
    requires Quiet(a)
    ensures Quiet(Do(a, [SetTimeout(false)]))
  {
    hide ParserInvariant, PidInRange;
    RefreshKeepsFile(a.file);
  }

  /** Coasting motors under coasting bridges need no lease. */
  lemma SwitchedOffIsIdle(a: App, b: App)
    requires Quiet(a) && b == a.(bridge1 := Coast, bridge2 := Coast, dirty := false)
    ensures Idle(b)
  {
    hide ParserInvariant, PidInRange, RegisterInvariants.WellFormed;
    CoastingMotor(a.file, a.pid1, M1);
    CoastingMotor(a.file, a.pid2, M2);
  }

  lemma CoastingMotor(f: RegFile, p: Pid, m: Motor)
    requires f.regs[ModeReg(m)] == MODE_COAST
    ensures !MotorActive(f, m) && Output(f, p, m, f.timeoutActive) == Coast && NoStaleOutput(f, p, m)
  {
  }

  lemma IdleParserSound(p: Parser)
    requires p == IDLE
    ensures ParserInvariant(p)
  {
  }

  lemma IdleIsSafe(a: App)
    requires Idle(a)
    ensures Safe(a) && LeaseTrue(a)
  {
    assert !HasActiveCommand(a.file);
    SettledIsSafe(a);
  }

  lemma ReportedIsQuiet(a: App, address: Byte, e: Encoders)
    requires Quiet(a)
    ensures Quiet(Reported(a, address, e))
  {
    hide Quiet;
    ReportKeepsQuiet(a, [SetI2cAddress(address)]);
    var b := Do(a, [SetI2cAddress(address)]);
    RefreshKeepsQuiet(b);
    var c := Do(b, [SetTimeout(false)]);
    ReportKeepsQuiet(c, SyncOps(c.file.regs, e));
  }

  lemma ColdIsQuiet(f: RegFile, p: Parser)
    requires RegisterInvariants.WellFormed(f) && !f.timeoutActive && ParserInvariant(p)
    requires f.regs[ModeReg(M1)] == MODE_COAST && f.regs[ModeReg(M2)] == MODE_COAST
    ensures Quiet(Cold(f, p))
  {
    hide ParserInvariant, RegisterInvariants.WellFormed;
  }

  lemma StartOverIsIdle(f: RegFile, p: Parser, address: Byte, e: Encoders)
    requires RegisterInvariants.WellFormed(f) && !f.timeoutActive && ParserInvariant(p)
    requires f.regs[ModeReg(M1)] == MODE_COAST && f.regs[ModeReg(M2)] == MODE_COAST
    ensures Idle(StartOver(f, p, address, e))
  {
    hide Quiet, Idle, RegisterInvariants.WellFormed, ParserInvariant;
    ColdIsQuiet(f, p);
    ReportedIsQuiet(Cold(f, p), address, e);
    SwitchedOffIsIdle(Reported(Cold(f, p), address, e), StartOver(f, p, address, e));
  }

  lemma StartIsIdle(address: Byte, e: Encoders)
    ensures Idle(Start(address, e))
  {
    hide ParserInvariant, Idle, Initial;
    InitialWellFormed();
    var f, p := Initial(), IDLE;
    IdleParserSound(p);
    StartOverIsIdle(f, p, address, e);
  }

  /** From power-on, after any run, every bridge is off or driven under a lease the watchdog found valid. */
  lemma RunFromStartSafe(address: Byte, e: Encoders, inputs: seq<PassInput>)
    ensures Idle(Start(address, e)) && Safe(Passes(Start(address, e), inputs))
    ensures var b := Passes(Start(address, e), inputs); inputs != [] ==> b.now - b.checkedAt == LastDelay(inputs)
  {
    hide Start, Safe;
    StartIsIdle(address, e);
    IdleIsSafe(Start(address, e));
    RunSafe(Start(address, e), inputs);
  }

  /** From power-on, after any run of timely passes, the last write or heartbeat behind a driven bridge is at most
      the timeout old, plus the time the last pass spent after the watchdog had looked. */
  lemma TimelyRunFromStart(address: Byte, e: Encoders, inputs: seq<PassInput>)
    requires inputs != [] && forall i :: 0 <= i < |inputs| ==> Timely(inputs[i])
    ensures Idle(Start(address, e))
    ensures LeaseWithin(Passes(Start(address, e), inputs), LastDelay(inputs))
  {
    hide Start, Safe, LeaseWithin;
    StartIsIdle(address, e);
    IdleIsSafe(Start(address, e));
    TimelyRunSafe(Start(address, e), inputs);
  }

  // ----- the trips -----

  lemma StoppedAfterTrip(a: App, ms: nat, fb: Feedback)
    requires Tripped(a) && a.dirty
    ensures var b := Steer(a, ms, fb); Tripped(b) && b.bridge1 == Coast && b.bridge2 == Coast && !b.dirty
  {
    var f, op := a.file, SetTimeout(a.file.timeoutActive);
    RunOne(f, [], op);
    assert [] + [op] == [op];
    var b := Steer(a, ms, fb);
    assert b.file == Apply(f, op);
  }

  lemma ExpiredLookTrips(a: App)
    requires Invariant(a) && HasActiveCommand(a.file) && TimeoutMs(a.file) != 0
    requires (a.now - a.leaseAt) % CLOCK_PERIOD_MS > TimeoutMs(a.file)
    ensures Tripped(CheckWatchdog(a)) && CheckWatchdog(a).dirty
  {
    WatchdogMeasuresModulo(a);
    UntimedWhileActive(a);
    hide Invariant, HasActiveCommand;
    TrippedMeansTimeout(CheckWatchdog(a));
    TripIsDirty(a);
  }

  lemma UntimedWhileActive(a: App)
    requires Invariant(a) && HasActiveCommand(a.file)
    ensures !a.timeout
  {
    hide RegisterInvariants.WellFormed, ParserInvariant, PidInRange, OutputsCurrent;
    ActiveUnexpired(a.file);
  }

  lemma TrippedMeansTimeout(a: App)
    requires Tripped(a)
    ensures a.timeout
  {
  }

  lemma ExpiredLater(fed: App, ms: nat, later: App)
    requires Invariant(fed) && HasActiveCommand(fed.file) && TimeoutMs(fed.file) != 0
    requires later == Tick(fed, ms) && (fed.now + ms - fed.leaseAt) % CLOCK_PERIOD_MS > TimeoutMs(fed.file)
    ensures Tripped(CheckWatchdog(later)) && CheckWatchdog(later).dirty
  {
    hide Invariant, HasActiveCommand, Tripped, CheckWatchdog, TimeoutMs;
    TickKeeps(fed, ms);
    assert later.file == fed.file && later.now - later.leaseAt == fed.now + ms - fed.leaseAt;
    ExpiredLookTrips(later);
  }

  /** A pass whose watchdog finds the lease expired, its age measured modulo 2^32 ms, ends with both motors coasting,
      flags and fault set. */
  lemma ExpiredPassCoasts(a: App, input: PassInput, fed: App)
    requires Invariant(a) && fed == Inputs(a, input)
    requires HasActiveCommand(fed.file) && TimeoutMs(fed.file) != 0
    requires (fed.now + input.msBeforeCheck - fed.leaseAt) % CLOCK_PERIOD_MS > TimeoutMs(fed.file)
    ensures var b := Pass(a, input); Tripped(b) && b.bridge1 == Coast && b.bridge2 == Coast
  {
    hide Inputs, Tripped, CheckWatchdog, Steer, Invariant, HasActiveCommand, ParserInvariant, TimeoutMs, FeedbackFrom;
    InvariantParser(a);
    InputsKeep(a, input);
    ExpiredLater(fed, input.msBeforeCheck, Tick(fed, input.msBeforeCheck));
    StoppedAfterTrip(Checked(a, input), input.msBeforeControl, FeedbackFrom(a.file.regs, input.encoders));
  }

  lemma TripIsDirty(a: App)
    requires !a.timeout && CheckWatchdog(a).timeout
    ensures CheckWatchdog(a).dirty
  {
  }

  lemma BusTripStops(b: App)
    ensures Tripped(OnBusTrip(b)) && OnBusTrip(b).dirty && !HasActiveCommand(OnBusTrip(b).file)
  {
    RunOne(b.file, [], ForceCoast);
    assert [] + [ForceCoast] == [ForceCoast];
    CoastOnTimeoutEffect(b.file, M1);
    CoastOnTimeoutEffect(b.file, M2);
  }

  /** So does a pass in which the I2C bus had to be recovered. */
  lemma BusTripPassCoasts(a: App, input: PassInput)
    requires ParserInvariant(a.parser) && input.busTrip
    ensures var b := Pass(a, input); Tripped(b) && b.bridge1 == Coast && b.bridge2 == Coast
  {
    var written := I2cWrites(SerialRx(Do(a, SyncOps(a.file.regs, input.encoders)), input.serial), input.i2c);
    BusTripStops(written);
    var later := Tick(OnBusTrip(written), input.msBeforeCheck);
    assert CheckWatchdog(later) == later.(checkedAt := later.now, armed := false);
    StoppedAfterTrip(Checked(a, input), input.msBeforeControl, FeedbackFrom(a.file.regs, input.encoders));
  }
}
