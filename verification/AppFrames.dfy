/** Which registers the parts of a pass can change: readings and telemetry decide nothing, and a
    controller changes the output of its own motor only. */
module AppFrames {
  import opened Arith
  import opened RegisterSpec
  import opened RegisterInvariants
  import opened ControlSpec
  import opened AppSpec

  predicate ClosedLoop(r: RegBytes, m: Motor) {
    SpeedMode(r, m) || PositionMode(r, m)
  }

  /** A closed-loop mode without an encoder scale has no output of its own. */
  predicate NoStaleOutput(f: RegFile, p: Pid, m: Motor) {
    ClosedLoop(f.regs, m) && LoadUint32(f.regs, CountsPerRevReg(m)) == 0 ==> p.outputDutyQ8 == 0
  }

  // ----- registers an operation leaves alone -----

  /** Operations that touch only readings, telemetry and the I2C address. */
  predicate Reporting(op: RegOp) {
    op.UpdateEncoder? || op.UpdateMeasured? || op.UpdateTelemetry? || op.UpdateHold? || op.SetI2cAddress? ||
    op.ClearEncoderControl?
  }

  /** Registers that decide activity, the watchdog and the bridges. */
  predicate Decisive(reg: int) {
    reg == REG_CONTROL_FLAGS || reg == REG_OUTPUT_INVERT_FLAGS || reg == REG_WATCHDOG_TIMEOUT ||
    0x10 <= reg <= 0x12 || 0x20 <= reg <= 0x22 || 0x40 <= reg <= 0x47
  }

  predicate SameDecisions(f: RegFile, g: RegFile) {
    f.timeoutActive == g.timeoutActive &&
    forall reg :: 0 <= reg < REGISTER_COUNT && Decisive(reg) ==> f.regs[reg] == g.regs[reg]
  }

  lemma ReportingKeeps(f: RegFile, op: RegOp, reg: nat)
    requires Reporting(op) && reg < REGISTER_COUNT && !ReadingRegister(reg)
    ensures Apply(f, op).regs[reg] == f.regs[reg] && Apply(f, op).timeoutActive == f.timeoutActive
  {
    match op
    case UpdateEncoder(c1, v1, s1, c2, v2, s2) =>
      EncoderKeeps(f.regs, M1, c1, v1, s1, reg);
      EncoderKeeps(WithEncoder(f.regs, M1, c1, v1, s1), M2, c2, v2, s2, reg);
    case _ =>
  }

  lemma ReportingKeepsDecisions(f: RegFile, op: RegOp)
    requires Reporting(op)
    ensures SameDecisions(f, Apply(f, op))
  {
    hide Apply, Reporting;
    ReportingKeeps(f, op, REG_CONTROL_FLAGS);
    forall reg: nat | reg < REGISTER_COUNT && Decisive(reg) ensures f.regs[reg] == Apply(f, op).regs[reg] {
      ReportingKeeps(f, op, reg);
    }
  }

  lemma {:induction false} ReportingRunKeepsDecisions(f: RegFile, ops: seq<RegOp>)
    requires forall i :: 0 <= i < |ops| ==> Reporting(ops[i])
    ensures SameDecisions(f, Run(f, ops))
    decreases |ops|
  {
    if ops != [] {
      ReportingKeepsDecisions(f, ops[0]);
      ReportingRunKeepsDecisions(Apply(f, ops[0]), ops[1..]);
    }
  }

  lemma DecisionsDetermine(f: RegFile, g: RegFile, p: Pid, m: Motor)
    requires SameDecisions(f, g)
    ensures MotorActive(f, m) == MotorActive(g, m) && Enabled(f.regs) == Enabled(g.regs)
    ensures TimeoutMs(f) == TimeoutMs(g)
    ensures forall inhibited :: Output(f, p, m, inhibited) == Output(g, p, m, inhibited)
    ensures NoStaleOutput(f, p, m) == NoStaleOutput(g, p, m)
  {
    var c := CountsPerRevReg(m);
    assert Decisive(c) && Decisive(c + 1) && Decisive(c + 2) && Decisive(c + 3);
    assert Decisive(ModeReg(m)) && Decisive(DutyReg(m)) && Decisive(DirectionReg(m));
  }

  // ----- registers only the owner of an operation changes -----

  /** Operations one motor's controller may issue. */
  predicate Owned(op: RegOp, m: Motor) {
    Reporting(op) || (op.SetOutput? && op.m == m) || (op.UpdateTargetRpm? && op.m == m) ||
    (op.UpdatePositionError? && op.m == m)
  }

  predicate SameExceptOutput(f: RegFile, g: RegFile, m: Motor) {
    f.timeoutActive == g.timeoutActive &&
    forall reg :: 0 <= reg < REGISTER_COUNT && Decisive(reg) && reg != DutyReg(m) && reg != DirectionReg(m) ==>
      f.regs[reg] == g.regs[reg]
  }

  lemma OwnedKeepsOthers(f: RegFile, op: RegOp, m: Motor)
    requires Owned(op, m)
    ensures SameExceptOutput(f, Apply(f, op), m)
  {
    if Reporting(op) {
      hide Apply, Reporting, Decisive;
      ReportingKeepsDecisions(f, op);
    } else {
      hide Reporting, Decisive;
      forall reg: nat | reg < REGISTER_COUNT && Decisive(reg) && reg != DutyReg(m) && reg != DirectionReg(m)
        ensures f.regs[reg] == Apply(f, op).regs[reg]
      {
        OwnedKeepsDecision(f, op, m, reg);
      }
    }
  }

  lemma OwnedKeepsDecision(f: RegFile, op: RegOp, m: Motor, reg: nat)
    requires Owned(op, m) && !Reporting(op) && reg < REGISTER_COUNT
    requires Decisive(reg) && reg != DutyReg(m) && reg != DirectionReg(m)
    ensures Apply(f, op).regs[reg] == f.regs[reg]
  {
  }

  lemma {:induction false} OwnedRunKeepsOthers(f: RegFile, ops: seq<RegOp>, m: Motor)
    requires forall i :: 0 <= i < |ops| ==> Owned(ops[i], m)
    ensures SameExceptOutput(f, Run(f, ops), m)
    decreases |ops|
  {
    if ops != [] {
      OwnedKeepsOthers(f, ops[0], m);
      OwnedRunKeepsOthers(Apply(f, ops[0]), ops[1..], m);
    }
  }

  /** A controller touches only its own motor, drives only in closed-loop modes, and says when it did. */
  lemma ControlOpsOwned(r: RegBytes, p: Pid, m: Motor, count: Int32, measuredRpm: Int16, now: Word32)
    ensures var s := ControlStep(r, p, m, count, measuredRpm, now);
            forall i :: 0 <= i < |s.ops| ==> Owned(s.ops[i], m)
    ensures var s := ControlStep(r, p, m, count, measuredRpm, now);
            (!ClosedLoop(r, m) ==> !s.changed) && (!s.changed ==> forall i :: 0 <= i < |s.ops| ==> Reporting(s.ops[i]))
  {
    hide TargetTracking, PositionIntegral, PositionCommandQ4, PositionRpm, PositionDuty, SpeedLaw, LoadUint16,
         LoadInt32, LoadUint32, DutyQ8ToPercent, SaturateInt16, SaturateInt32, ResetPid, NeedsRestart;
  }

  lemma OthersDetermine(f: RegFile, g: RegFile, q: Pid, m: Motor, other: Motor)
    requires SameExceptOutput(f, g, m)
    ensures Enabled(f.regs) == Enabled(g.regs) && TimeoutMs(f) == TimeoutMs(g)
    ensures f.regs[ModeReg(other)] == g.regs[ModeReg(other)]
    ensures LoadUint32(f.regs, CountsPerRevReg(other)) == LoadUint32(g.regs, CountsPerRevReg(other))
    ensures NoStaleOutput(f, q, other) == NoStaleOutput(g, q, other)
    ensures other != m || ClosedLoop(f.regs, m) ==> MotorActive(f, other) == MotorActive(g, other)
    ensures other != m ==> BridgeFor(f.regs, q, other) == BridgeFor(g.regs, q, other)
  {
    var c := CountsPerRevReg(other);
    assert Decisive(c) && Decisive(c + 1) && Decisive(c + 2) && Decisive(c + 3);
    assert Decisive(ModeReg(other)) && Decisive(DutyReg(other)) && Decisive(DirectionReg(other));
  }

  /** One motor's control step: nothing but its own output moves, activity and the watchdog setting stay,
      and unless it reports a change its bridge command stays too. */
  lemma ControlOneMotor(f: RegFile, p: Pid, m: Motor, count: Int32, measuredRpm: Int16, now: Word32)
    ensures var s := ControlStep(f.regs, p, m, count, measuredRpm, now); var g := Run(f, s.ops);
            SameExceptOutput(f, g, m) && NoStaleOutput(g, s.pid, m) &&
            HasActiveCommand(f) == HasActiveCommand(g) &&
            (!s.changed && NoStaleOutput(f, p, m) ==> BridgeFor(g.regs, s.pid, m) == BridgeFor(f.regs, p, m))
  {
    var s := ControlStep(f.regs, p, m, count, measuredRpm, now);
    var g := Run(f, s.ops);
    ControlOpsOwned(f.regs, p, m, count, measuredRpm, now);
    OwnedRunKeepsOthers(f, s.ops, m);
    OthersDetermine(f, g, p, m, M1);
    OthersDetermine(f, g, p, m, M2);
    if !s.changed {
      ReportingRunKeepsDecisions(f, s.ops);
      DecisionsDetermine(f, g, p, M1);
      DecisionsDetermine(f, g, p, M2);
      UnchangedPid(f.regs, p, m, count, measuredRpm, now);
      BridgeFromDecisions(f, g, p, s.pid, m);
    }
  }

  lemma UnchangedPid(r: RegBytes, p: Pid, m: Motor, count: Int32, measuredRpm: Int16, now: Word32)
    requires !ControlStep(r, p, m, count, measuredRpm, now).changed
    ensures var q := ControlStep(r, p, m, count, measuredRpm, now).pid;
            q == p || (q.outputDutyQ8 == 0 && (ClosedLoop(r, m) ==> LoadUint32(r, CountsPerRevReg(m)) == 0))
  {
  }

  lemma BridgeFromDecisions(f: RegFile, g: RegFile, p: Pid, q: Pid, m: Motor)
    requires SameDecisions(f, g)
    requires q == p || (q.outputDutyQ8 == 0 && (ClosedLoop(f.regs, m) ==> LoadUint32(f.regs, CountsPerRevReg(m)) == 0))
    ensures NoStaleOutput(f, p, m) ==> BridgeFor(g.regs, q, m) == BridgeFor(f.regs, p, m)
  {
    assert Decisive(ModeReg(m)) && Decisive(DutyReg(m)) && Decisive(DirectionReg(m));
  }
}
