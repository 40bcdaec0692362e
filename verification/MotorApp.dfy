/** The motor driver's main loop as the firmware runs it: a register file, a parser, two controllers
    and the watchdog variables, updated in place. */
module MotorApp {
  import opened Arith
  import opened RegisterSpec
  import opened RegisterInvariants
  import opened SerialFrame
  import opened ControlSpec
  import opened AppSpec
  import opened AppTraffic
  import RM = RegisterMap
  import SP = SerialProtocol
  import MC = MotorControl
  import I2C = I2cTarget

  class MotorApp {
    const registers: RM.RegisterMap
    const serial: SP.SerialProtocol
    const response: SP.SerialResponse
    const m1: MC.SpeedPid
    const m2: MC.SpeedPid
    var ticks: Word32
    var lastRefreshMs: Word32
    var armed: bool
    var timeout: bool
    var dirty: bool
    var bridge1: Bridge
    var bridge2: Bridge
    ghost var now: nat
    ghost var leaseAt: nat
    ghost var checkedAt: nat
    ghost var log: seq<RegOp>

    ghost predicate Valid()
      reads this`ticks, this`now, serial, serial.data, response
    {
      registers.Valid() && serial.registers == registers && serial.Valid() && response.Valid() && m1 != m2 &&
      response.bytes != serial.data && response.bytes != registers.registers && ticks == Wrap32(now)
    }

    /** The state the specification speaks of. */
    ghost function View(): App
      requires registers.Valid() && serial.dataIndex <= serial.data.Length
      reads this, registers, registers.registers, serial, serial.data, m1, m2
    {
      App(registers.View(), serial.View(), m1.state, m2.state, lastRefreshMs, armed, timeout, dirty,
          bridge1, bridge2, now, leaseAt, checkedAt, log)
    }

    /** The application over the objects the firmware allocates statically. */
    constructor (registers: RM.RegisterMap, serial: SP.SerialProtocol, response: SP.SerialResponse, m1: MC.SpeedPid,
                 m2: MC.SpeedPid)
      requires registers.Valid() && serial.Valid() && serial.registers == registers && response.Valid() && m1 != m2
      requires response.bytes != serial.data && response.bytes != registers.registers
      ensures Valid()
      ensures this.registers == registers && this.serial == serial && this.response == response && this.m1 == m1 &&
              this.m2 == m2
      ensures View() ==
              App(registers.View(), serial.View(), m1.state, m2.state, 0, false, false, true, Coast, Coast, 0, 0, 0, [])
    {
      this.registers, this.serial, this.response, this.m1, this.m2 := registers, serial, response, m1, m2;
      ticks, lastRefreshMs, armed, timeout, dirty := 0, 0, false, false, true;
      bridge1, bridge2 := Coast, Coast;
      now, leaseAt, checkedAt, log := 0, 0, 0, [];
      new;
      hide ParserInvariant;
    }

    /** Initialisation: the I2C address in use, the derived registers, the encoder readings, outputs off. */
    method Init(address: Byte, e: Encoders)
      requires Valid() && !timeout && !registers.timeoutActive
      modifies this`log, this`bridge1, this`bridge2, this`dirty, registers.registers
      ensures Valid() && View() == Initialised(old(View()), address, e)
    {
      hide ParserInvariant;
      ReportStart(address, e);
      Apply(true);
      dirty := false;
    }

    method ReportStart(address: Byte, e: Encoders)
      requires Valid() && !timeout && !registers.timeoutActive
      modifies this`log, registers.registers
      ensures Valid() && View() == Reported(old(View()), address, e)
    {
      hide ParserInvariant;
      ghost var a := View();
      registers.SetI2cAddress(address);
      DoOne(a, SetI2cAddress(address));
      log := log + [SetI2cAddress(address)];
      ghost var b := View();
      assert b == Do(a, [SetI2cAddress(address)]);
      registers.RefreshStatus();
      DoOne(b, SetTimeout(false));
      assert b.file.(timeoutActive := false) == b.file;
      log := log + [SetTimeout(false)];
      assert View() == Do(b, [SetTimeout(false)]);
      var fb := SyncEncoderRegisters(e);
    }

    method TickFromIsr()
      requires Valid()
      modifies this`ticks, this`now
      ensures Valid() && View() == Tick(old(View()), 1)
    {
      hide ParserInvariant;
      ticks := Wrap32(ticks + 1);
      now := now + 1;
    }

    /** Timer interrupts that arrive while the main loop is busy. */
    method Elapse(ms: nat)
      requires Valid()
      modifies this`ticks, this`now
      ensures Valid() && View() == Tick(old(View()), ms)
    {
      for i := 0 to ms
        invariant Valid() && View() == Tick(old(View()), i)
      {
        TickFromIsr();
      }
    }

    /** Copies the encoder readings into the registers. */
    method SyncEncoderRegisters(e: Encoders) returns (fb: Feedback)
      requires Valid()
      modifies this`log, registers.registers
      ensures Valid() && View() == Do(old(View()), SyncOps(old(registers.View().regs), e))
      ensures fb == FeedbackFrom(old(registers.View().regs), e)
    {
      hide ParserInvariant;
      var r := registers.View().regs;
      var o := Oriented(r, e);
      fb := FeedbackFrom(r, e);
      WriteReadings(registers, o, fb);
      log := log + SyncOps(r, e);
    }

    static method WriteReadings(file: RM.RegisterMap, o: Encoders, fb: Feedback)
      requires file.Valid()
      modifies file.registers
      ensures file.View() == Run(old(file.View()),
                [UpdateEncoder(o.count1, o.cps1, o.state1, o.count2, o.cps2, o.state2),
                 UpdateMeasured(fb.rpm1, fb.rpm2)])
    {
      ghost var f := file.View();
      file.UpdateEncoderSnapshot(M1, o.count1, o.cps1, o.state1);
      file.UpdateEncoderSnapshot(M2, o.count2, o.cps2, o.state2);
      file.UpdateMeasuredRpm(fb.rpm1, fb.rpm2);
      RunTwo(f, UpdateEncoder(o.count1, o.cps1, o.state1, o.count2, o.cps2, o.state2),
             UpdateMeasured(fb.rpm1, fb.rpm2));
    }

    /** Carries out encoder resets a write asked for: says which encoders are reset and clears the request; `e` is
        how the encoders read afterwards. */
    method HandleEncoderControl(e: Encoders) returns (reset1: bool, reset2: bool)
      requires Valid()
      modifies this`log, registers.registers
      ensures Valid() && View() == Do(old(View()), EncoderControlOps(old(registers.View().regs), e))
      ensures reset1 == Bit(old(registers.View().regs[REG_ENCODER_CONTROL]), 0)
      ensures reset2 == Bit(old(registers.View().regs[REG_ENCODER_CONTROL]), 1)
    {
      hide ParserInvariant, Do, SyncOps, EncoderControlOps;
      ghost var a := View();
      if a.file.regs[REG_ENCODER_CONTROL] == 0 { NothingAsked(a, e); }
      var control := registers.Read(REG_ENCODER_CONTROL);
      reset1, reset2 := Bit(control, 0), Bit(control, 1);
      if control != 0 {
        registers.ClearEncoderControl();
        log := log + [ClearEncoderControl];
        ClearedThenSynced(a, View(), e);
        var fb := SyncEncoderRegisters(e);
      }
    }

    method RefreshWatchdogLeaseFromWrite()
      requires Valid()
      modifies this`timeout, this`lastRefreshMs, this`armed, this`dirty, this`leaseAt, this`log, registers,
               registers.registers
      ensures Valid() && View() == RenewLease(old(View()))
    {
      hide ParserInvariant;
      ghost var a := View();
      timeout := false;
      registers.SetTimeoutActive(false);
      DoOne(a, SetTimeout(false));
      log := log + [SetTimeout(false)];
      leaseAt := now;
      dirty := true;
      ghost var b := View();
      assert b == Do(a, [SetTimeout(false)]).(timeout := false, dirty := true, leaseAt := a.now);
      ArmLease();
    }

    method ArmLease()
      requires Valid()
      modifies this`lastRefreshMs, this`armed
      ensures Valid() && View() == AppSpec.ArmLease(old(View()))
    {
      hide ParserInvariant;
      var active := registers.HasActiveCommand();
      if active {
        lastRefreshMs := ticks;
        armed := true;
      } else {
        armed := false;
      }
    }

    method RefreshWatchdogLeaseFromKeepalive()
      requires Valid()
      modifies this`lastRefreshMs, this`armed, this`leaseAt
      ensures Valid() && View() == AfterKeepalive(old(View()))
    {
      hide ParserInvariant;
      var active := registers.HasActiveCommand();
      if !timeout && active {
        lastRefreshMs := ticks;
        armed := true;
        leaseAt := now;
      }
    }

    method Trip()
      requires Valid()
      modifies this`timeout, this`armed, this`dirty, this`log, registers, registers.registers
      ensures Valid() && View() == OnBusTrip(old(View()))
    {
      hide ParserInvariant, CoastOnTimeout;
      ghost var a := View();
      timeout := true;
      armed := false;
      registers.ForceCoastOnTimeout();
      DoOne(a, ForceCoast);
      log := log + [ForceCoast];
      dirty := true;
    }

    method WatchdogTimeoutMs() returns (ms: nat)
      requires Valid()
      ensures ms == TimeoutMs(registers.View())
    {
      var timeout10ms := registers.Read(REG_WATCHDOG_TIMEOUT);
      ms := 10 * (timeout10ms as int);
    }

    method CheckWatchdog()
      requires Valid()
      modifies this`timeout, this`lastRefreshMs, this`armed, this`dirty, this`checkedAt, this`log, registers,
               registers.registers
      ensures Valid() && View() == AppSpec.CheckWatchdog(old(View()))
    {
      hide ParserInvariant;
      checkedAt := now;
      ghost var b := View();
      var timeoutMs := WatchdogTimeoutMs();
      var active := registers.HasActiveCommand();
      if timeoutMs == 0 || !active {
        armed := false;
        assert View() == b.(armed := false);
      } else {
        Supervise(timeoutMs);
      }
    }

    method Supervise(timeoutMs: nat)
      requires Valid()
      modifies this`timeout, this`lastRefreshMs, this`armed, this`dirty, this`log, registers, registers.registers
      ensures Valid() && View() == AppSpec.Supervise(old(View()), timeoutMs)
    {
      hide ParserInvariant;
      if !armed {
        lastRefreshMs := ticks;
        armed := true;
      } else if !timeout && armed && Wrap32(ticks - lastRefreshMs) > timeoutMs {
        Trip();
      }
    }

    /** After a committed write: encoder resets, then the lease. */
    method FollowWrite(e: Encoders)
      requires Valid()
      modifies this`timeout, this`lastRefreshMs, this`armed, this`dirty, this`leaseAt, this`log, registers,
               registers.registers
      ensures Valid() && View() == AfterWrite(old(View()), e)
    {
      var reset1, reset2 := HandleEncoderControl(e);
      RefreshWatchdogLeaseFromWrite();
    }

    /** Parses one byte and, if it completed a request, carries the request out. */
    method ParseByte(value: Byte) returns (writeCommitted: bool, keepalive: bool)
      requires Valid()
      modifies this`log, serial, serial.data, response, response.bytes, registers, registers.registers
      ensures Valid()
      ensures Parsed(old(View()), value, View(), writeCommitted, keepalive)
    {
      hide ParserInvariant, Committed, CommitAccepted, HandleRequest, HandleEvent, Step, Parsed, SerialFrame.WellFormed,
           Encode, Pending;
      ghost var a := View();
      ghost var event := Step(a.parser, value).1;
      StepSound(a.parser, value);
      OnlyWritesChangeRegisters(a.file, event);
      var ready;
      ready, writeCommitted, keepalive := serial.ProcessByte(value, response);
      if writeCommitted { log := log + [Commit(event.request.reg, event.request.data)]; }
      ParsedWhen(a, value, View(), writeCommitted, keepalive);
    }

    /** One turn of the receive loop; `e` is how the encoders read once the byte has been handled. */
    method ReceiveByte(value: Byte, e: Encoders)
      requires Valid()
      modifies this`timeout, this`lastRefreshMs, this`armed, this`dirty, this`leaseAt, this`log
      modifies serial, serial.data, response, response.bytes, registers, registers.registers
      ensures Valid() && View() == OnByte(old(View()), value, e)
    {
      ghost var a := View();
      var writeCommitted, keepalive := ParseByte(value);
      ParsedIsByte(a, value, View(), writeCommitted, keepalive, e);
      if keepalive { RefreshWatchdogLeaseFromKeepalive(); }
      if writeCommitted { FollowWrite(e); }
    }

    /** Drains the bytes that have arrived. */
    method ProcessSerialRx(inputs: seq<SerialInput>)
      requires Valid()
      modifies this`timeout, this`lastRefreshMs, this`armed, this`dirty, this`leaseAt, this`log, this`ticks, this`now
      modifies serial, serial.data, response, response.bytes, registers, registers.registers
      ensures Valid() && View() == SerialRx(old(View()), inputs)
    {
      ghost var a := View();
      SerialRxNone(a);
      for i := 0 to |inputs|
        invariant Valid() && View() == SerialRx(a, inputs[..i])
      {
        Elapse(inputs[i].ms);
        ReceiveByte(inputs[i].value, inputs[i].encoders);
        SerialRxNext(a, inputs, i);
      }
      assert inputs[..|inputs|] == inputs;
    }

    method AcceptI2cWrite(w: I2C.Write, e: Encoders)
      requires Valid()
      modifies this`timeout, this`lastRefreshMs, this`armed, this`dirty, this`leaseAt, this`log, registers,
               registers.registers
      ensures Valid() && View() == OnI2cWrite(old(View()), w, e)
    {
      hide ParserInvariant;
      ghost var a := View();
      var ok, controlChanged := registers.CommitWrite(w.reg, w.data);
      if ok {
        DoOne(a, Commit(w.reg, w.data));
        log := log + [Commit(w.reg, w.data)];
        assert View() == Do(a, [Commit(w.reg, w.data)]);
        FollowWrite(e);
      }
    }

    /** Drains the queued I2C writes. */
    method ProcessI2cWrites(inputs: seq<I2cInput>)
      requires Valid()
      modifies this`timeout, this`lastRefreshMs, this`armed, this`dirty, this`leaseAt, this`log, this`ticks, this`now
      modifies registers, registers.registers
      ensures Valid() && View() == I2cWrites(old(View()), inputs)
    {
      ghost var a := View();
      for i := 0 to |inputs|
        invariant Valid() && View() == I2cWrites(a, inputs[..i])
      {
        Elapse(inputs[i].ms);
        AcceptI2cWrite(inputs[i].write, inputs[i].encoders);
        I2cWritesNext(a, inputs, i);
      }
      assert inputs[..|inputs|] == inputs;
    }

    /** Runs the controller of both motors. */
    method UpdateSpeed(fb: Feedback) returns (changed: bool)
      requires Valid() && !timeout && Enabled(registers.View().regs)
      modifies this`log, m1, m2, registers.registers
      ensures Valid() && View().(dirty := old(dirty) || changed) == Control(old(View()), fb) && dirty == old(dirty)
    {
      hide ParserInvariant, ControlStep;
      ghost var a := View();
      ghost var s1 := ControlStep(a.file.regs, a.pid1, M1, fb.count1, fb.rpm1, a.Millis());
      var changed1 := m1.UpdateSpeedMotor(registers, M1, fb.count1, fb.rpm1, ticks);
      log := log + s1.ops;
      ghost var b := View();
      assert b == Do(a, s1.ops).(pid1 := s1.pid);
      ghost var s2 := ControlStep(b.file.regs, b.pid2, M2, fb.count2, fb.rpm2, b.Millis());
      var changed2 := m2.UpdateSpeedMotor(registers, M2, fb.count2, fb.rpm2, ticks);
      log := log + s2.ops;
      assert View() == Do(b, s2.ops).(pid2 := s2.pid);
      changed := changed1 || changed2;
    }

    /** The output stage: stops both bridges or sets each one from its mode, duty and direction. */
    method Apply(inhibited: bool)
      requires Valid()
      modifies this`bridge1, this`bridge2
      ensures Valid()
      ensures View() == old(View()).(bridge1 := Output(registers.View(), m1.state, M1, inhibited),
                                     bridge2 := Output(registers.View(), m2.state, M2, inhibited))
    {
      hide ParserInvariant;
      var r := registers.View().regs;
      if inhibited || !Enabled(r) {
        bridge1, bridge2 := Coast, Coast;
      } else {
        bridge1, bridge2 := BridgeFor(r, m1.state, M1), BridgeFor(r, m2.state, M2);
      }
    }

    method ApplyIfDirty()
      requires Valid()
      modifies this`bridge1, this`bridge2, this`dirty, this`log, registers.registers
      ensures Valid() && View() == ApplyOutputs(old(View()))
    {
      hide ParserInvariant, Output, Refreshed, Do;
      if dirty {
        ghost var a := View();
        registers.RefreshStatus();
        RefreshIsSetTimeout(a);
        log := log + [SetTimeout(a.file.timeoutActive)];
        assert View() == Do(a, [SetTimeout(a.file.timeoutActive)]);
        Apply(timeout);
        dirty := false;
      }
    }

    /** The second half of a pass: control, then outputs. */
    method Steer(ms: nat, fb: Feedback)
      requires Valid()
      modifies this, m1, m2, registers.registers
      ensures Valid() && View() == AppSpec.Steer(old(View()), ms, fb)
    {
      hide ParserInvariant, ApplyOutputs;
      Elapse(ms);
      ghost var a := View();
      if !timeout && Enabled(registers.View().regs) {
        var changed := UpdateSpeed(fb);
        if changed { dirty := true; }
      }
      assert View() == Control(a, fb);
      ApplyIfDirty();
    }

    /** The first part of a pass: everything that arrives before the watchdog looks. */
    method TakeInputs(input: PassInput) returns (fb: Feedback)
      requires Valid()
      modifies this, serial, serial.data, response, response.bytes, registers, registers.registers
      ensures Valid() && View() == Inputs(old(View()), input)
      ensures fb == FeedbackFrom(old(registers.View().regs), input.encoders)
    {
      ghost var a := View();
      fb := SyncEncoderRegisters(input.encoders);
      ProcessSerialRx(input.serial);
      ProcessI2cWrites(input.i2c);
      assert View() == I2cWrites(SerialRx(Do(a, SyncOps(a.file.regs, input.encoders)), input.serial), input.i2c);
      if input.busTrip { Trip(); }
    }

    /** One pass of the main loop. */
    method Process(input: PassInput)
      requires Valid()
      modifies this, m1, m2, serial, serial.data, response, response.bytes, registers, registers.registers
      ensures Valid() && View() == Pass(old(View()), input)
    {
      ghost var a := View();
      var fb := TakeInputs(input);
      Elapse(input.msBeforeCheck);
      CheckWatchdog();
      assert View() == Checked(a, input);
      Steer(input.msBeforeControl, fb);
    }
  }

  /** What parsing one byte leaves: the parser moved, an accepted write applied and logged. */
  predicate Parsed(a: App, value: Byte, b: App, writeCommitted: bool, keepalive: bool)
  {
    ParserInvariant(a.parser) &&
    (StepSound(a.parser, value);
     var (next, event) := Step(a.parser, value);
     var outcome := HandleEvent(a.file, event);
     writeCommitted == outcome.committed && keepalive == outcome.keepalive &&
     b == if writeCommitted then Do(a.(parser := next), [Commit(event.request.reg, event.request.data)])
          else a.(parser := next))
  }

  /** What parsing leaves behind: the parser's step, and the registers as the reported event changes them. */
  lemma ParsedWhen(a: App, value: Byte, b: App, writeCommitted: bool, keepalive: bool)
    requires ParserInvariant(a.parser)
    requires var event := Step(a.parser, value).1; event.Frame? ==> SerialFrame.WellFormed(event.request)
    requires var (next, event) := Step(a.parser, value); var outcome := HandleEvent(a.file, event);
             writeCommitted == outcome.committed && keepalive == outcome.keepalive &&
             (writeCommitted ==> event.Frame?) &&
             b == a.(parser := next, file := outcome.file,
                     log := if writeCommitted then a.log + [Commit(event.request.reg, event.request.data)] else a.log)
    ensures Parsed(a, value, b, writeCommitted, keepalive)
  {
    hide ParserInvariant, Step, Committed, HandleEvent;
    var (next, event) := Step(a.parser, value);
    OnlyWritesChangeRegisters(a.file, event);
    if writeCommitted { DoOne(a.(parser := next), Commit(event.request.reg, event.request.data)); }
  }

  lemma ParsedIsByte(a: App, value: Byte, b: App, writeCommitted: bool, keepalive: bool, e: Encoders)
    requires Parsed(a, value, b, writeCommitted, keepalive)
    ensures !(writeCommitted && keepalive)
    ensures OnByte(a, value, e) ==
            if writeCommitted then AfterWrite(b, e) else if keepalive then AfterKeepalive(b) else b
  {
    hide ParserInvariant, Step, Committed, AfterWrite, AfterKeepalive, RegisterInvariants.Apply;
  }

  lemma DoOne(a: App, op: RegOp)
    ensures Do(a, [op]) == a.(file := Apply(a.file, op), log := a.log + [op])
  {
    RunOne(a.file, [], op);
    assert [] + [op] == [op];
  }

  lemma RunTwo(f: RegFile, a: RegOp, b: RegOp)
    ensures Run(f, [a, b]) == Apply(Apply(f, a), b)
  {
    RunOne(f, [], a);
    RunOne(f, [a], b);
    assert [] + [a] == [a] && [a] + [b] == [a, b];
  }

  lemma RefreshIsSetTimeout(a: App)
    ensures var op := SetTimeout(a.file.timeoutActive);
            Do(a, [op]) == a.(file := Refreshed(a.file), log := a.log + [op])
  {
    hide Refreshed;
    DoOne(a, SetTimeout(a.file.timeoutActive));
  }

  lemma DoDo(a: App, first: seq<RegOp>, second: seq<RegOp>)
    ensures Do(Do(a, first), second) == Do(a, first + second)
  {
    RunConcat(a.file, first, second);
    assert a.log + first + second == a.log + (first + second);
  }

  lemma NothingAsked(a: App, e: Encoders)
    requires a.file.regs[REG_ENCODER_CONTROL] == 0
    ensures Do(a, EncoderControlOps(a.file.regs, e)) == a
  {
    assert a.log + [] == a.log;
  }

  lemma ClearedThenSynced(a: App, b: App, e: Encoders)
    requires a.file.regs[REG_ENCODER_CONTROL] != 0
    requires b == a.(file := WithEncoderControlCleared(a.file), log := a.log + [ClearEncoderControl])
    ensures Do(b, SyncOps(b.file.regs, e)) == Do(a, EncoderControlOps(a.file.regs, e))
  {
    hide SyncOps, WithEncoderControlCleared;
    DoOne(a, ClearEncoderControl);
    ClearingKeepsScales(a.file, e);
    DoDo(a, [ClearEncoderControl], SyncOps(a.file.regs, e));
  }

  lemma ClearingKeepsScales(f: RegFile, e: Encoders)
    ensures SyncOps(Apply(f, ClearEncoderControl).regs, e) == SyncOps(f.regs, e)
  {
  }

  lemma SerialRxNone(a: App)
    requires ParserInvariant(a.parser)
    ensures SerialRx(a, []) == a
  {
  }

  lemma {:induction false} SerialRxNext(a: App, inputs: seq<SerialInput>, i: nat)
    requires ParserInvariant(a.parser) && i < |inputs|
    ensures ParserInvariant(SerialRx(a, inputs[..i]).parser)
    ensures SerialRx(a, inputs[..i + 1]) ==
            OnByte(Tick(SerialRx(a, inputs[..i]), inputs[i].ms), inputs[i].value, inputs[i].encoders)
  {
    hide OnByte, ParserInvariant, SerialRx, Tick;
    assert inputs[..i + 1] == inputs[..i] + [inputs[i]];
    SerialConcat(a, inputs[..i], [inputs[i]]);
    OneByte(SerialRx(a, inputs[..i]), inputs[i]);
  }

  lemma {:induction false} I2cWritesNext(a: App, inputs: seq<I2cInput>, i: nat)
    requires i < |inputs|
    ensures I2cWrites(a, inputs[..i + 1]) ==
            OnI2cWrite(Tick(I2cWrites(a, inputs[..i]), inputs[i].ms), inputs[i].write, inputs[i].encoders)
    decreases i
  {
    if i == 0 {
      assert inputs[..1][1..] == [];
    } else {
      assert inputs[..i + 1][1..] == inputs[1..][..i] && inputs[..i][1..] == inputs[1..][..i - 1];
      I2cWritesNext(OnI2cWrite(Tick(a, inputs[0].ms), inputs[0].write, inputs[0].encoders), inputs[1..], i - 1);
    }
  }
}
