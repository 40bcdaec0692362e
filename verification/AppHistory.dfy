/** Every step of the application is a sequence of register operations added to its log, so what holds
    for every sequence of operations holds for every run. */
module AppHistory {
  import opened Arith
  import opened RegisterSpec
  import opened RegisterInvariants
  import opened SerialFrame
  import opened ControlSpec
  import opened AppSpec

  /** The operations `b` logged after `a` lead from the registers of `a` to those of `b`. */
  predicate Extends(a: App, b: App) {
    |a.log| <= |b.log| && b.log[..|a.log|] == a.log && b.file == Run(a.file, b.log[|a.log|..])
  }

  lemma ExtendsTransitive(a: App, b: App, c: App)
    requires Extends(a, b) && Extends(b, c)
    ensures Extends(a, c)
  {
    var first, second := b.log[|a.log|..], c.log[|b.log|..];
    assert c.log == b.log + second && b.log == a.log + first;
    assert c.log[|a.log|..] == first + second;
    RunConcat(a.file, first, second);
  }

  lemma DoExtends(a: App, ops: seq<RegOp>)
    ensures Extends(a, Do(a, ops))
  {
    assert (a.log + ops)[|a.log|..] == ops;
  }

  lemma SameExtends(a: App, b: App)
    requires b.file == a.file && b.log == a.log
    ensures Extends(a, b)
  {
    assert a.log[|a.log|..] == [];
  }

  lemma AfterWriteExtends(a: App, e: Encoders)
    ensures Extends(a, AfterWrite(a, e))
  {
    var b := Do(a, EncoderControlOps(a.file.regs, e));
    DoExtends(a, EncoderControlOps(a.file.regs, e));
    DoExtends(b, [SetTimeout(false)]);
    SameExtends(Do(b, [SetTimeout(false)]), AfterWrite(a, e));
    ExtendsTransitive(a, b, Do(b, [SetTimeout(false)]));
    ExtendsTransitive(a, Do(b, [SetTimeout(false)]), AfterWrite(a, e));
  }

  lemma WriteExtends(a: App, op: RegOp, e: Encoders)
    ensures Extends(a, AfterWrite(Do(a, [op]), e))
  {
    DoExtends(a, [op]);
    AfterWriteExtends(Do(a, [op]), e);
    ExtendsTransitive(a, Do(a, [op]), AfterWrite(Do(a, [op]), e));
  }

  lemma ByteExtends(a: App, value: Byte, e: Encoders)
    requires ParserInvariant(a.parser)
    ensures Extends(a, OnByte(a, value, e))
  {
    hide ParserInvariant, Step, HandleRequest, Committed;
    StepSound(a.parser, value);
    var b := a.(parser := Step(a.parser, value).0);
    SameExtends(a, b);
    var event := Step(a.parser, value).1;
    if HandleEvent(a.file, event).keepalive {
      SameExtends(a, AfterKeepalive(b));
    } else if HandleEvent(a.file, event).committed {
      WriteExtends(b, Commit(event.request.reg, event.request.data), e);
      ExtendsTransitive(a, b, OnByte(a, value, e));
    }
  }

  lemma {:induction false} SerialExtends(a: App, inputs: seq<SerialInput>)
    requires ParserInvariant(a.parser)
    ensures Extends(a, SerialRx(a, inputs)) && ParserInvariant(SerialRx(a, inputs).parser)
    decreases |inputs|
  {
    if inputs == [] {
      SameExtends(a, a);
    } else {
      var t := Tick(a, inputs[0].ms);
      var b := OnByte(t, inputs[0].value, inputs[0].encoders);
      SameExtends(a, t);
      ByteExtends(t, inputs[0].value, inputs[0].encoders);
      OnByteParser(t, inputs[0].value, inputs[0].encoders);
      SerialExtends(b, inputs[1..]);
      ExtendsTransitive(a, t, b);
      ExtendsTransitive(a, b, SerialRx(a, inputs));
    }
  }

  lemma I2cWriteExtends(a: App, i: I2cInput)
    ensures Extends(a, OnI2cWrite(a, i.write, i.encoders)) && OnI2cWrite(a, i.write, i.encoders).parser == a.parser
  {
    SameExtends(a, a);
    WriteExtends(a, Commit(i.write.reg, i.write.data), i.encoders);
  }

  lemma {:induction false} I2cExtends(a: App, inputs: seq<I2cInput>)
    ensures Extends(a, I2cWrites(a, inputs)) && I2cWrites(a, inputs).parser == a.parser
    decreases |inputs|
  {
    if inputs == [] {
      SameExtends(a, a);
    } else {
      var t := Tick(a, inputs[0].ms);
      var b := OnI2cWrite(t, inputs[0].write, inputs[0].encoders);
      SameExtends(a, t);
      I2cWriteExtends(t, inputs[0]);
      I2cExtends(b, inputs[1..]);
      ExtendsTransitive(a, t, b);
      ExtendsTransitive(a, b, I2cWrites(a, inputs));
    }
  }

  lemma InputsExtend(a: App, input: PassInput)
    requires ParserInvariant(a.parser)
    ensures Extends(a, Inputs(a, input)) && ParserInvariant(Inputs(a, input).parser)
  {
    var synced := Do(a, SyncOps(a.file.regs, input.encoders));
    var fed := SerialRx(synced, input.serial);
    var written := I2cWrites(fed, input.i2c);
    DoExtends(a, SyncOps(a.file.regs, input.encoders));
    SerialExtends(synced, input.serial);
    I2cExtends(fed, input.i2c);
    ExtendsTransitive(a, synced, fed);
    ExtendsTransitive(a, fed, written);
    if input.busTrip {
      DoExtends(written, [ForceCoast]);
      SameExtends(Do(written, [ForceCoast]), OnBusTrip(written));
      ExtendsTransitive(written, Do(written, [ForceCoast]), OnBusTrip(written));
      ExtendsTransitive(a, written, OnBusTrip(written));
    }
  }

  lemma CheckExtends(a: App)
    ensures Extends(a, CheckWatchdog(a))
  {
    var tripped := Do(a, [ForceCoast]);
    DoExtends(a, [ForceCoast]);
    if CheckWatchdog(a).file == a.file && CheckWatchdog(a).log == a.log {
      SameExtends(a, CheckWatchdog(a));
    } else {
      SameExtends(tripped, CheckWatchdog(a));
      ExtendsTransitive(a, tripped, CheckWatchdog(a));
    }
  }

  lemma ControlExtends(a: App, fb: Feedback)
    ensures Extends(a, Control(a, fb))
  {
    SameExtends(a, a);
    if !a.timeout && Enabled(a.file.regs) {
      var s1 := ControlStep(a.file.regs, a.pid1, M1, fb.count1, fb.rpm1, a.Millis());
      var d1 := Do(a, s1.ops);
      var b := d1.(pid1 := s1.pid);
      var s2 := ControlStep(b.file.regs, b.pid2, M2, fb.count2, fb.rpm2, b.Millis());
      var d2 := Do(b, s2.ops);
      DoExtends(a, s1.ops);
      SameExtends(d1, b);
      DoExtends(b, s2.ops);
      SameExtends(d2, Control(a, fb));
      ExtendsTransitive(a, d1, b);
      ExtendsTransitive(a, b, d2);
      ExtendsTransitive(a, d2, Control(a, fb));
    }
  }

  lemma OutputsExtend(a: App)
    ensures Extends(a, ApplyOutputs(a))
  {
    var b := Do(a, [SetTimeout(a.file.timeoutActive)]);
    DoExtends(a, [SetTimeout(a.file.timeoutActive)]);
    SameExtends(a, a);
    SameExtends(b, if a.dirty then ApplyOutputs(a) else b);
    if a.dirty { ExtendsTransitive(a, b, ApplyOutputs(a)); }
  }

  lemma CheckedExtends(a: App, input: PassInput)
    requires ParserInvariant(a.parser)
    ensures Extends(a, Checked(a, input)) && ParserInvariant(Checked(a, input).parser)
  {
    hide ParserInvariant, Extends, Inputs, HasActiveCommand;
    var fed := Inputs(a, input);
    var later := Tick(fed, input.msBeforeCheck);
    InputsExtend(a, input);
    SameExtends(fed, later);
    CheckExtends(later);
    ExtendsTransitive(a, fed, later);
    ExtendsTransitive(a, later, CheckWatchdog(later));
  }

  lemma SteerExtends(a: App, ms: nat, fb: Feedback)
    ensures Extends(a, Steer(a, ms, fb)) && Steer(a, ms, fb).parser == a.parser
  {
    var later := Tick(a, ms);
    SameExtends(a, later);
    ControlExtends(later, fb);
    OutputsExtend(Control(later, fb));
    ExtendsTransitive(a, later, Control(later, fb));
    ExtendsTransitive(a, Control(later, fb), Steer(a, ms, fb));
  }

  /** One pass of the main loop only adds operations to the log, and keeps the parser sound. */
  lemma PassExtends(a: App, input: PassInput)
    requires ParserInvariant(a.parser)
    ensures Extends(a, Pass(a, input)) && ParserInvariant(Pass(a, input).parser)
  {
    CheckedExtends(a, input);
    SteerExtends(Checked(a, input), input.msBeforeControl, FeedbackFrom(a.file.regs, input.encoders));
    ExtendsTransitive(a, Checked(a, input), Pass(a, input));
  }

  /** A whole run: any number of passes. */
  function Passes(a: App, inputs: seq<PassInput>): App
    requires ParserInvariant(a.parser)
    decreases |inputs|
  {
    if inputs == [] then a
    else
      PassExtends(a, inputs[0]);
      Passes(Pass(a, inputs[0]), inputs[1..])
  }

  lemma {:induction false} PassesExtend(a: App, inputs: seq<PassInput>)
    requires ParserInvariant(a.parser)
    ensures Extends(a, Passes(a, inputs)) && ParserInvariant(Passes(a, inputs).parser)
    decreases |inputs|
  {
    if inputs == [] {
      SameExtends(a, a);
    } else {
      PassExtends(a, inputs[0]);
      PassesExtend(Pass(a, inputs[0]), inputs[1..]);
      ExtendsTransitive(a, Pass(a, inputs[0]), Passes(a, inputs));
    }
  }

  /** Operations logged since `a`. */
  function Since(a: App, b: App): seq<RegOp>
    requires Extends(a, b)
  {
    b.log[|a.log|..]
  }

  /** After any coast, forced or commanded, a motor stays at coast through any number of passes, whatever
      arrives in them, unless a committed write gives it another mode. */
  lemma CoastSurvivesPasses(a: App, inputs: seq<PassInput>, m: Motor)
    requires ParserInvariant(a.parser) && a.file.regs[ModeReg(m)] == MODE_COAST
    ensures Extends(a, Passes(a, inputs))
    ensures (forall i :: 0 <= i < |Since(a, Passes(a, inputs))| ==> !SetsMode(Since(a, Passes(a, inputs))[i], m)) ==>
              Passes(a, inputs).file.regs[ModeReg(m)] == MODE_COAST && !MotorActive(Passes(a, inputs).file, m)
  {
    PassesExtend(a, inputs);
    var ops := Since(a, Passes(a, inputs));
    if forall i :: 0 <= i < |ops| ==> !SetsMode(ops[i], m) { CoastLatch(a.file, ops, m); }
  }

  /** The fault bit survives any number of passes unless a committed write clears it. */
  lemma FaultSurvivesPasses(a: App, inputs: seq<PassInput>)
    requires ParserInvariant(a.parser) && Bit(a.file.regs[REG_FAULT_FLAGS], 0)
    ensures Extends(a, Passes(a, inputs))
    ensures (forall i :: 0 <= i < |Since(a, Passes(a, inputs))| ==> !ClearsFault(Since(a, Passes(a, inputs))[i])) ==>
              Bit(Passes(a, inputs).file.regs[REG_FAULT_FLAGS], 0)
  {
    PassesExtend(a, inputs);
    var ops := Since(a, Passes(a, inputs));
    if forall i :: 0 <= i < |ops| ==> !ClearsFault(ops[i]) { FaultLatch(a.file, ops); }
  }
}
