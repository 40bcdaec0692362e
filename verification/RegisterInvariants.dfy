/** What holds in every register file reachable through the public operations. */
module RegisterInvariants {
  import opened Arith
  import opened RegisterSpec

  /** Every public mutation of the register file. */
  datatype RegOp =
    | Commit(start: Byte, data: seq<Byte>)
    | SetTimeout(active: bool)
    | ForceCoast
    | UpdateEncoder(count1: Int32, cps1: Int32, state1: Byte, count2: Int32, cps2: Int32, state2: Byte)
    | UpdateMeasured(rpm1: Int16, rpm2: Int16)
    | UpdateTelemetry(m: Motor, rpm: Word16, error: Int16, integral: Int16, duty: Byte)
    | SetOutput(m: Motor, duty: Byte, direction: Byte)
    | UpdateTargetRpm(m: Motor, rpm: Word16)
    | UpdateHold(m: Motor, count: Int32)
    | UpdatePositionError(m: Motor, count: Int32)
    | SetI2cAddress(address: Byte)
    | ClearEncoderControl

  function Apply(f: RegFile, op: RegOp): RegFile {
    match op
    case Commit(start, data) => if CommitAccepted(start, data) then Committed(f, start, data) else f
    case SetTimeout(active) => WithTimeout(f, active)
    case ForceCoast => CoastOnTimeout(f)
    case UpdateEncoder(c1, v1, s1, c2, v2, s2) =>
      f.(regs := WithEncoder(WithEncoder(f.regs, M1, c1, v1, s1), M2, c2, v2, s2))
    case UpdateMeasured(rpm1, rpm2) => WithMeasuredRpm(f, rpm1, rpm2)
    case UpdateTelemetry(m, rpm, error, integral, duty) => WithTelemetry(f, m, rpm, error, integral, duty)
    case SetOutput(m, duty, direction) => WithOutput(f, m, duty, direction)
    case UpdateTargetRpm(m, rpm) => WithTargetRpm(f, m, rpm)
    case UpdateHold(m, count) => WithHoldTarget(f, m, count)
    case UpdatePositionError(m, count) => WithPositionError(f, m, count)
    case SetI2cAddress(address) => WithI2cAddress(f, address)
    case ClearEncoderControl => WithEncoderControlCleared(f)
  }

  function Run(f: RegFile, ops: seq<RegOp>): RegFile
    decreases |ops|
  {
    if ops == [] then f else Run(Apply(f, ops[0]), ops[1..])
  }

  lemma {:induction false} RunConcat(f: RegFile, a: seq<RegOp>, b: seq<RegOp>)
    ensures Run(f, a + b) == Run(Run(f, a), b)
    decreases |a|
  {
    if a == [] {
      assert a + b == b;
    } else {
      assert (a + b)[1..] == a[1..] + b;
      RunConcat(Apply(f, a[0]), a[1..], b);
    }
  }

  lemma RunOne(f: RegFile, ops: seq<RegOp>, op: RegOp)
    ensures Run(f, ops + [op]) == Apply(Run(f, ops), op)
  {
    RunConcat(f, ops, [op]);
    assert [op][1..] == [];
  }

  predicate MotorInRange(r: RegBytes, m: Motor) {
    r[ModeReg(m)] <= MODE_POSITION && r[DutyReg(m)] <= 100 && r[DirectionReg(m)] <= 1 && r[EncoderStateReg(m)] <= 3
  }

  predicate InRange(r: RegBytes) {
    r[REG_DEVICE_ID] == DEVICE_ID && r[REG_FW_VERSION] == FIRMWARE_VERSION &&
    MotorInRange(r, M1) && MotorInRange(r, M2) &&
    r[REG_FAULT_FLAGS] <= 1 && r[REG_CONTROL_FLAGS] <= 1 &&
    r[REG_OUTPUT_INVERT_FLAGS] <= 3 && r[REG_ENCODER_INVERT_FLAGS] <= 3 && r[REG_ENCODER_CONTROL] <= 3 &&
    r[REG_SPEED_MAX_DUTY] <= 100 && r[REG_SPEED_MIN_DUTY] <= 100 &&
    r[REG_POSITION_MAX_DUTY] <= 100 && r[REG_POSITION_MIN_DUTY] <= 100
  }

  predicate WellFormed(f: RegFile) {
    InRange(f.regs) && StatusConsistent(f)
  }

  lemma InitialWellFormed()
    ensures WellFormed(Initial())
    ensures !HasActiveCommand(Initial()) && !Initial().timeoutActive
    ensures Initial().regs[ModeReg(M1)] == MODE_COAST && Initial().regs[ModeReg(M2)] == MODE_COAST
  {
    InitialInRange();
    RefreshedWellFormed(RegFile(InitialRegs(), false));
  }

  lemma InitialInRange()
    ensures InRange(InitialRegs())
    ensures InitialRegs()[ModeReg(M1)] == InitialRegs()[ModeReg(M2)] == MODE_COAST
  {
    InitialMotorInRange(M1);
    InitialMotorInRange(M2);
    InitialSettingsInRange(InitialRegs());
  }

  lemma InitialMotorInRange(m: Motor)
    ensures MotorInRange(InitialRegs(), m) && InitialRegs()[ModeReg(m)] == MODE_COAST
  {
  }

  lemma InitialSettingsInRange(r: RegBytes)
    requires r == InitialRegs()
    ensures r[REG_DEVICE_ID] == DEVICE_ID && r[REG_FW_VERSION] == FIRMWARE_VERSION && r[REG_FAULT_FLAGS] == 0 &&
            r[REG_CONTROL_FLAGS] == 1
    ensures r[REG_OUTPUT_INVERT_FLAGS] == 3 && r[REG_ENCODER_INVERT_FLAGS] == 1 && r[REG_ENCODER_CONTROL] == 0
    ensures r[REG_SPEED_MAX_DUTY] == 60 && r[REG_SPEED_MIN_DUTY] == 4 && r[REG_POSITION_MAX_DUTY] == 25 &&
            r[REG_POSITION_MIN_DUTY] == 5
  {
  }

  lemma RefreshedInRange(f: RegFile)
    requires InRange(f.regs)
    ensures InRange(Refreshed(f).regs)
  {
  }

  lemma RefreshedMotor(f: RegFile, m: Motor)
    ensures MotorActive(Refreshed(f), m) == MotorActive(f, m)
    ensures MotorStatus(Refreshed(f), m) == MotorStatus(f, m)
    ensures PositionAtTarget(Refreshed(f).regs, m) == PositionAtTarget(f.regs, m)
  {
    var g := Refreshed(f);
    assert LoadInt32(g.regs, PositionErrorReg(m)) == LoadInt32(f.regs, PositionErrorReg(m));
    assert LoadUint16(g.regs, REG_POSITION_TOLERANCE) == LoadUint16(f.regs, REG_POSITION_TOLERANCE);
  }

  /** Recomputation reads nothing it writes, so it settles in one step. */
  lemma RefreshedConsistent(f: RegFile)
    ensures StatusConsistent(Refreshed(f))
    ensures HasActiveCommand(Refreshed(f)) == HasActiveCommand(f)
  {
    RefreshedMotor(f, M1);
    RefreshedMotor(f, M2);
  }

  /** Changes confined to registers the status does not depend on keep it right. */
  lemma UnrelatedChangeKeepsStatus(f: RegFile, g: RegFile)
    requires StatusConsistent(f) && g.timeoutActive == f.timeoutActive
    requires forall reg :: 0 <= reg < REGISTER_COUNT && StatusInput(reg) ==> g.regs[reg] == f.regs[reg]
    ensures StatusConsistent(g)
  {
    forall m: Motor
      ensures MotorStatus(g, m) == MotorStatus(f, m) && PositionAtTarget(g.regs, m) == PositionAtTarget(f.regs, m) &&
              MotorActive(g, m) == MotorActive(f, m) {
      var e := PositionErrorReg(m);
      assert StatusInput(e) && StatusInput(e + 1) && StatusInput(e + 2) && StatusInput(e + 3);
      assert LoadInt32(g.regs, PositionErrorReg(m)) == LoadInt32(f.regs, PositionErrorReg(m));
      assert LoadUint16(g.regs, REG_POSITION_TOLERANCE) == LoadUint16(f.regs, REG_POSITION_TOLERANCE);
    }
  }

  /** Registers the status is computed from, and the status registers themselves. */
  predicate StatusInput(reg: int) {
    reg == REG_CONTROL_FLAGS || reg == REG_STATUS || reg == REG_POSITION_STATUS ||
    0x10 <= reg <= 0x13 || 0x20 <= reg <= 0x23 || 0x58 <= reg <= 0x5F || 0x65 <= reg <= 0x66
  }

  lemma MergedInRange(r: RegBytes, start: Byte, data: seq<Byte>)
    requires InRange(r) && CommitAccepted(start, data)
    ensures InRange(Merged(r, start, data))
  {
    var g := Merged(r, start, data);
    forall reg | 0 <= reg < REGISTER_COUNT
      ensures g[reg] == r[reg] || (reg != REG_FAULT_FLAGS && WriteAllowed(reg, g[reg])) ||
              (reg == REG_FAULT_FLAGS && g[reg] <= r[reg])
    {
      if Covers(start, |data|, reg) { CoveredIsAllowed(start, data, reg); }
    }
    assert MotorInRange(g, M1) && MotorInRange(g, M2);
  }

  lemma ClearedInRange(r: RegBytes, m: Motor)
    requires InRange(r)
    ensures InRange(ClearMotion(r, m)) && InRange(ClearTargetRpm(r, m))
  {
    assert MotorInRange(ClearMotion(r, m), M1) && MotorInRange(ClearMotion(r, m), M2);
  }

  lemma NormalizedMotorInRange(r: RegBytes, m: Motor, modeWritten: bool)
    requires InRange(r)
    ensures InRange(NormalizedMotor(r, m, modeWritten))
  {
    ClearedInRange(r, m);
    assert InRange(r[DutyReg(m) := 0]);
    ClearedInRange(r[DutyReg(m) := 0], m);
  }

  lemma NormalizedInRange(r: RegBytes, start: Byte, length: nat)
    requires InRange(r)
    ensures InRange(Normalized(r, start, length))
  {
    ClearedInRange(r, M1);
    ClearedInRange(ClearMotion(r, M1), M2);
    var w1 := Covers(start, length, ModeReg(M1));
    NormalizedMotorInRange(r, M1, w1);
    NormalizedMotorInRange(NormalizedMotor(r, M1, w1), M2, Covers(start, length, ModeReg(M2)));
  }

  lemma RefreshedWellFormed(f: RegFile)
    requires InRange(f.regs)
    ensures WellFormed(Refreshed(f))
  {
    RefreshedConsistent(f);
    RefreshedInRange(f);
  }

  lemma CommitKeepsWellFormed(f: RegFile, start: Byte, data: seq<Byte>)
    requires WellFormed(f) && CommitAccepted(start, data)
    ensures WellFormed(Committed(f, start, data))
  {
    MergedInRange(f.regs, start, data);
    NormalizedInRange(Merged(f.regs, start, data), start, |data|);
    RefreshedWellFormed(f.(regs := Normalized(Merged(f.regs, start, data), start, |data|)));
  }

  lemma FaultBitKeepsRange(r: RegBytes)
    requires InRange(r)
    ensures InRange(r[REG_FAULT_FLAGS := r[REG_FAULT_FLAGS] - r[REG_FAULT_FLAGS] % 2 + 1])
  {
  }

  lemma CoastKeepsWellFormed(f: RegFile)
    requires WellFormed(f)
    ensures WellFormed(CoastOnTimeout(f))
  {
    ClearedInRange(f.regs, M1);
    ClearedInRange(ClearMotion(f.regs, M1), M2);
    var r := ClearMotion(ClearMotion(f.regs, M1), M2);
    FaultBitKeepsRange(r);
    RefreshedWellFormed(RegFile(r[REG_FAULT_FLAGS := r[REG_FAULT_FLAGS] - r[REG_FAULT_FLAGS] % 2 + 1], true));
  }

  lemma OutputKeepsWellFormed(f: RegFile, m: Motor, duty: Byte, direction: Byte)
    requires WellFormed(f)
    ensures WellFormed(WithOutput(f, m, duty, direction))
  {
    RefreshedWellFormed(
      f.(regs := f.regs[DutyReg(m) := Min(duty, 100)][DirectionReg(m) := if direction > 1 then 0 else direction]));
  }

  lemma TargetRpmKeepsWellFormed(f: RegFile, m: Motor, rpm: Word16)
    requires WellFormed(f)
    ensures WellFormed(WithTargetRpm(f, m, rpm))
  {
    RefreshedWellFormed(f.(regs := Store16(f.regs, TargetRpmReg(m), rpm)));
  }

  lemma PositionErrorKeepsWellFormed(f: RegFile, m: Motor, count: Int32)
    requires WellFormed(f)
    ensures WellFormed(WithPositionError(f, m, count))
  {
    assert InRange(Store32(f.regs, PositionErrorReg(m), count));
    RefreshedWellFormed(f.(regs := Store32(f.regs, PositionErrorReg(m), count)));
  }

  lemma HoldTargetKeepsWellFormed(f: RegFile, m: Motor, count: Int32)
    requires WellFormed(f)
    ensures WellFormed(WithHoldTarget(f, m, count))
  {
    UnrelatedChangeKeepsStatus(f, WithHoldTarget(f, m, count));
  }

  lemma TelemetryKeepsWellFormed(f: RegFile, m: Motor, rpm: Word16, error: Int16, integral: Int16, duty: Byte)
    requires WellFormed(f)
    ensures WellFormed(WithTelemetry(f, m, rpm, error, integral, duty))
  {
    UnrelatedChangeKeepsStatus(f, WithTelemetry(f, m, rpm, error, integral, duty));
  }

  lemma EncoderKeepsWellFormed(f: RegFile, m: Motor, count: Int32, cps: Int32, state: Byte)
    requires WellFormed(f)
    ensures WellFormed(f.(regs := WithEncoder(f.regs, m, count, cps, state)))
  {
    hide StatusConsistent;
    UnrelatedChangeKeepsStatus(f, f.(regs := WithEncoder(f.regs, m, count, cps, state)));
  }

  lemma MeasuredKeepsWellFormed(f: RegFile, rpm1: Int16, rpm2: Int16)
    requires WellFormed(f)
    ensures WellFormed(WithMeasuredRpm(f, rpm1, rpm2))
  {
    UnrelatedChangeKeepsStatus(f, WithMeasuredRpm(f, rpm1, rpm2));
  }

  lemma TimeoutKeepsWellFormed(f: RegFile, active: bool)
    requires WellFormed(f)
    ensures WellFormed(WithTimeout(f, active))
  {
    RefreshedWellFormed(f.(timeoutActive := active));
  }

  lemma AddressKeepsWellFormed(f: RegFile, address: Byte)
    requires WellFormed(f)
    ensures WellFormed(WithI2cAddress(f, address))
  {
    UnrelatedChangeKeepsStatus(f, WithI2cAddress(f, address));
  }

  lemma RequestClearedWellFormed(f: RegFile)
    requires WellFormed(f)
    ensures WellFormed(WithEncoderControlCleared(f))
  {
    UnrelatedChangeKeepsStatus(f, WithEncoderControlCleared(f));
  }

  lemma ApplyKeepsWellFormed(f: RegFile, op: RegOp)
    requires WellFormed(f)
    ensures WellFormed(Apply(f, op))
  {
    hide WellFormed, Refreshed, Committed, CommitAccepted, CoastOnTimeout, WithEncoder, WithMeasuredRpm, WithTelemetry,
         WithOutput, WithTargetRpm, WithHoldTarget, WithPositionError, WithI2cAddress, WithEncoderControlCleared,
         WithTimeout;
    match op
    case Commit(start, data) => if CommitAccepted(start, data) { CommitKeepsWellFormed(f, start, data); }
    case SetTimeout(active) => TimeoutKeepsWellFormed(f, active);
    case ForceCoast => CoastKeepsWellFormed(f);
    case UpdateEncoder(c1, v1, s1, c2, v2, s2) =>
      EncoderKeepsWellFormed(f, M1, c1, v1, s1);
      EncoderKeepsWellFormed(f.(regs := WithEncoder(f.regs, M1, c1, v1, s1)), M2, c2, v2, s2);
    case UpdateMeasured(rpm1, rpm2) => MeasuredKeepsWellFormed(f, rpm1, rpm2);
    case UpdateTelemetry(m, rpm, error, integral, duty) => TelemetryKeepsWellFormed(f, m, rpm, error, integral, duty);
    case SetOutput(m, duty, direction) => OutputKeepsWellFormed(f, m, duty, direction);
    case UpdateTargetRpm(m, rpm) => TargetRpmKeepsWellFormed(f, m, rpm);
    case UpdateHold(m, count) => HoldTargetKeepsWellFormed(f, m, count);
    case UpdatePositionError(m, count) => PositionErrorKeepsWellFormed(f, m, count);
    case SetI2cAddress(address) => AddressKeepsWellFormed(f, address);
    case ClearEncoderControl => RequestClearedWellFormed(f);
  }

  /** Every reachable register file is in range and reports its true status. */
  lemma {:induction false} ReachableWellFormed(f: RegFile, ops: seq<RegOp>)
    requires WellFormed(f)
    ensures WellFormed(Run(f, ops))
    decreases |ops|
  {
    if ops != [] {
      ApplyKeepsWellFormed(f, ops[0]);
      ReachableWellFormed(Apply(f, ops[0]), ops[1..]);
    }
  }

  // ----- what a write can and cannot reach -----

  lemma DigitsOf(x: int)
    ensures x == x % 0x100 + 0x100 * (x / 0x100)
    ensures x / 0x1_0000 == (x / 0x100) / 0x100
    ensures x / 0x100_0000 == (x / 0x1_0000) / 0x100
  {
  }

  lemma TopDigit(v: Int32)
    ensures (v / 0x100_0000) % 0x100 == v / 0x100_0000 + (if v >= 0 then 0 else 0x100)
  {
    assert -0x80 <= v / 0x100_0000 < 0x80;
  }

  lemma DigitsRejoin(v: Int32)
    ensures v % 0x100 + 0x100 * ((v / 0x100) % 0x100) + 0x1_0000 * ((v / 0x1_0000) % 0x100) +
            0x100_0000 * ((v / 0x100_0000) % 0x100) == if v >= 0 then v else v + 0x1_0000_0000
  {
    DigitsOf(v);
    DigitsOf(v / 0x100);
    DigitsOf(v / 0x1_0000);
    TopDigit(v);
  }

  lemma LoadAfterStore32(r: RegBytes, reg: nat, v: Int32)
    requires reg + 3 < REGISTER_COUNT
    ensures LoadInt32(Store32(r, reg, v), reg) == v
  {
    var s := Store32(r, reg, v);
    assert s[reg] == v % 0x100 && s[reg + 1] == (v / 0x100) % 0x100;
    assert s[reg + 2] == (v / 0x1_0000) % 0x100 && s[reg + 3] == (v / 0x100_0000) % 0x100;
    hide Store32;
    DigitsRejoin(v);
  }

  predicate StatusRegister(reg: int) {
    reg == REG_STATUS || reg == REG_POSITION_STATUS || reg == 0x13 || reg == 0x23
  }

  /** Registers a mode write may also clear. */
  predicate MotionRegister(reg: int) {
    reg == 0x10 || reg == 0x11 || reg == 0x20 || reg == 0x21 || 0x32 <= reg <= 0x35
  }

  /** Registers the normalisation of one motor may change. */
  predicate MotionRegisterOf(m: Motor, reg: int) {
    reg == ModeReg(m) || reg == DutyReg(m) || TargetRpmRegister(m, reg)
  }

  lemma ClearedKeeps(r: RegBytes, m: Motor, reg: nat)
    requires reg < REGISTER_COUNT && !MotionRegisterOf(m, reg)
    ensures ClearMotion(r, m)[reg] == r[reg] && ClearTargetRpm(r, m)[reg] == r[reg]
  {
  }

  lemma NormalizedMotorKeeps(r: RegBytes, m: Motor, modeWritten: bool, reg: nat)
    requires reg < REGISTER_COUNT && !MotionRegisterOf(m, reg)
    ensures NormalizedMotor(r, m, modeWritten)[reg] == r[reg]
  {
    ClearedKeeps(r, m, reg);
    ClearedKeeps(r[DutyReg(m) := 0], m, reg);
  }

  lemma NormalizedKeeps(r: RegBytes, start: Byte, length: nat, reg: nat)
    requires reg < REGISTER_COUNT && !MotionRegister(reg)
    ensures Normalized(r, start, length)[reg] == r[reg]
  {
    var written1 := Covers(start, length, ModeReg(M1));
    NormalizedMotorKeeps(r, M1, written1, reg);
    NormalizedMotorKeeps(NormalizedMotor(r, M1, written1), M2, Covers(start, length, ModeReg(M2)), reg);
    ClearedKeeps(r, M1, reg);
    ClearedKeeps(ClearMotion(r, M1), M2, reg);
  }

  /** An accepted write puts each payload byte where it was sent and touches nothing else,
      apart from recomputed status and what a new mode clears. */
  lemma CommitEffect(f: RegFile, start: Byte, data: seq<Byte>, reg: nat)
    requires CommitAccepted(start, data) && reg < REGISTER_COUNT
    requires !StatusRegister(reg) && !MotionRegister(reg)
    ensures Committed(f, start, data).regs[reg] ==
            if Covers(start, |data|, reg) then Written(reg, f.regs[reg], data[reg - start]) else f.regs[reg]
  {
    hide Normalized, CommitAccepted;
    NormalizedKeeps(Merged(f.regs, start, data), start, |data|, reg);
  }

  lemma CoveredIsAllowed(start: Byte, data: seq<Byte>, reg: nat)
    requires CommitAccepted(start, data) && Covers(start, |data|, reg)
    ensures WriteAllowed(reg, data[reg - start])
  {
    assert WriteAllowed(start + (reg - start), data[reg - start]);
  }

  /** Identity, encoder, measured-speed, hold, position-error and telemetry registers. */
  predicate ReadOnly(reg: int) {
    reg == 0x00 || reg == 0x01 || 0x14 <= reg <= 0x1C || 0x24 <= reg <= 0x2C || 0x36 <= reg <= 0x39 ||
    0x48 <= reg <= 0x4F || 0x58 <= reg <= 0x5F || 0x6D <= reg <= 0x7A
  }

  lemma CommitLeavesReadOnly(f: RegFile, start: Byte, data: seq<Byte>, reg: nat)
    requires CommitAccepted(start, data) && ReadOnly(reg)
    ensures !Covers(start, |data|, reg)
    ensures Committed(f, start, data).regs[reg] == f.regs[reg]
  {
    if Covers(start, |data|, reg) {
      CoveredIsAllowed(start, data, reg);
      assert false;
    }
    CommitEffect(f, start, data, reg);
  }

  // ----- latches -----

  /** The operation is a committed write that gives motor `m` a mode other than coast. */
  predicate SetsMode(op: RegOp, m: Motor) {
    op.Commit? && CommitAccepted(op.start, op.data) && Covers(op.start, |op.data|, ModeReg(m)) &&
    op.data[ModeReg(m) - op.start] != MODE_COAST
  }

  /** The operation is a committed write of 1 to the fault flag. */
  predicate ClearsFault(op: RegOp) {
    op.Commit? && CommitAccepted(op.start, op.data) && Covers(op.start, |op.data|, REG_FAULT_FLAGS) &&
    op.data[REG_FAULT_FLAGS - op.start] == 1
  }

  lemma NormalizedMode(r: RegBytes, start: Byte, length: nat, m: Motor)
    ensures Normalized(r, start, length)[ModeReg(m)] in {MODE_COAST, r[ModeReg(m)]}
  {
    var written1, written2 := Covers(start, length, ModeReg(M1)), Covers(start, length, ModeReg(M2));
    var once := NormalizedMotor(r, M1, written1);
    if m == M1 {
      OwnMode(r, M1, written1);
      NormalizedMotorKeeps(once, M2, written2, ModeReg(M1));
    } else {
      NormalizedMotorKeeps(r, M1, written1, ModeReg(M2));
      OwnMode(once, M2, written2);
    }
  }

  /** Normalisation keeps a motor's own mode. */
  lemma OwnMode(r: RegBytes, m: Motor, modeWritten: bool)
    ensures NormalizedMotor(r, m, modeWritten)[ModeReg(m)] == r[ModeReg(m)]
  {
  }

  /** Only a write or a forced coast changes a mode or the fault flags. */
  lemma OnlyWritesChangeModes(f: RegFile, op: RegOp, reg: nat)
    requires !op.Commit? && !op.ForceCoast?
    requires reg == REG_FAULT_FLAGS || reg == 0x10 || reg == 0x20
    ensures Apply(f, op).regs[reg] == f.regs[reg]
  {
    match op
    case UpdateEncoder(c1, v1, s1, c2, v2, s2) =>
      EncoderKeeps(f.regs, M1, c1, v1, s1, reg);
      EncoderKeeps(WithEncoder(f.regs, M1, c1, v1, s1), M2, c2, v2, s2, reg);
    case _ =>
  }

  /** Registers that readings, telemetry and requests use. */
  predicate ReadingRegister(reg: int) {
    reg == REG_I2C_ADDRESS || reg == REG_ENCODER_CONTROL || 0x14 <= reg <= 0x1C || 0x24 <= reg <= 0x2C ||
    0x36 <= reg <= 0x39 || 0x48 <= reg <= 0x4F || 0x6D <= reg <= 0x7A
  }

  lemma EncoderKeeps(r: RegBytes, m: Motor, count: Int32, cps: Int32, state: Byte, reg: nat)
    requires reg < REGISTER_COUNT && !ReadingRegister(reg)
    ensures WithEncoder(r, m, count, cps, state)[reg] == r[reg]
  {
  }

  lemma CoastStep(f: RegFile, op: RegOp, m: Motor)
    requires f.regs[ModeReg(m)] == MODE_COAST && !SetsMode(op, m)
    ensures Apply(f, op).regs[ModeReg(m)] == MODE_COAST
  {
    hide Normalized, WithEncoder, Store16, Store32, WithTelemetry;
    if op.Commit? && CommitAccepted(op.start, op.data) {
      NormalizedMode(Merged(f.regs, op.start, op.data), op.start, |op.data|, m);
    } else if !op.Commit? && !op.ForceCoast? {
      OnlyWritesChangeModes(f, op, ModeReg(m));
    }
  }

  /** A coasting motor stays coasting until a committed write gives it another mode,
      whatever else happens to the register file. */
  lemma {:induction false} CoastLatch(f: RegFile, ops: seq<RegOp>, m: Motor)
    requires f.regs[ModeReg(m)] == MODE_COAST
    requires forall i :: 0 <= i < |ops| ==> !SetsMode(ops[i], m)
    ensures Run(f, ops).regs[ModeReg(m)] == MODE_COAST
    ensures !MotorActive(Run(f, ops), m)
    decreases |ops|
  {
    if ops != [] {
      CoastStep(f, ops[0], m);
      CoastLatch(Apply(f, ops[0]), ops[1..], m);
    }
  }

  lemma FaultStep(f: RegFile, op: RegOp)
    requires Bit(f.regs[REG_FAULT_FLAGS], 0) && !ClearsFault(op)
    ensures Bit(Apply(f, op).regs[REG_FAULT_FLAGS], 0)
  {
    if op.Commit? && CommitAccepted(op.start, op.data) {
      if Covers(op.start, |op.data|, REG_FAULT_FLAGS) { CoveredIsAllowed(op.start, op.data, REG_FAULT_FLAGS); }
      CommitEffect(f, op.start, op.data, REG_FAULT_FLAGS);
    } else if !op.Commit? && !op.ForceCoast? {
      OnlyWritesChangeModes(f, op, REG_FAULT_FLAGS);
    }
  }

  /** The watchdog fault bit survives everything except a committed write of 1 to it. */
  lemma {:induction false} FaultLatch(f: RegFile, ops: seq<RegOp>)
    requires Bit(f.regs[REG_FAULT_FLAGS], 0)
    requires forall i :: 0 <= i < |ops| ==> !ClearsFault(ops[i])
    ensures Bit(Run(f, ops).regs[REG_FAULT_FLAGS], 0)
    decreases |ops|
  {
    if ops != [] {
      FaultStep(f, ops[0]);
      FaultLatch(Apply(f, ops[0]), ops[1..]);
    }
  }

  lemma CoastOnTimeoutEffect(f: RegFile, m: Motor)
    ensures CoastOnTimeout(f).regs[ModeReg(m)] == MODE_COAST
    ensures Bit(CoastOnTimeout(f).regs[REG_FAULT_FLAGS], 0)
    ensures CoastOnTimeout(f).timeoutActive && !HasActiveCommand(CoastOnTimeout(f))
  {
  }
}
