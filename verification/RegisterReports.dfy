/** Where the register file keeps what it is told: every reading, report and setting, by register number. */
module RegisterReports {
  import opened Arith
  import opened RegisterSpec
  import opened RegisterInvariants

  /** Two or four registers hold a number, low byte first, negative ones as their two's complement. */
  predicate Holds16(r: RegBytes, at: nat, v: int)
    requires at + 1 < REGISTER_COUNT
  {
    var n := (r[at] as int) + 0x100 * (r[at + 1] as int);
    n == if v >= 0 then v else v + 0x1_0000
  }

  predicate Holds32(r: RegBytes, at: nat, v: int)
    requires at + 3 < REGISTER_COUNT
  {
    var n := (r[at] as int) + 0x100 * (r[at + 1] as int) + 0x1_0000 * (r[at + 2] as int) +
             0x100_0000 * (r[at + 3] as int);
    n == if v >= 0 then v else v + 0x1_0000_0000
  }

  lemma Store16Holds(r: RegBytes, at: nat, v: int)
    requires at + 1 < REGISTER_COUNT && -0x8000 <= v < 0x1_0000
    ensures Holds16(Store16(r, at, v), at, v)
  {
  }

  lemma Store32Holds(r: RegBytes, at: nat, v: Int32)
    requires at + 3 < REGISTER_COUNT
    ensures Holds32(Store32(r, at, v), at, v)
  {
    var s := Store32(r, at, v);
    assert s[at] == v % 0x100 && s[at + 1] == (v / 0x100) % 0x100;
    assert s[at + 2] == (v / 0x1_0000) % 0x100 && s[at + 3] == (v / 0x100_0000) % 0x100;
    hide Store32;
    DigitsRejoin(v);
  }

  /** What the registers show after an update. */
  predicate Shows(r: RegBytes, op: RegOp) {
    match op
    case UpdateEncoder(c1, v1, s1, c2, v2, s2) =>
      Holds32(r, 0x14, c1) && Holds32(r, 0x18, v1) && r[0x1C] == s1 % 4 &&
      Holds32(r, 0x24, c2) && Holds32(r, 0x28, v2) && r[0x2C] == s2 % 4
    case UpdateMeasured(rpm1, rpm2) => Holds16(r, 0x36, rpm1) && Holds16(r, 0x38, rpm2)
    case UpdateTelemetry(m, rpm, error, integral, duty) =>
      if m.M1?
      then Holds16(r, 0x6D, rpm) && Holds16(r, 0x71, error) && Holds16(r, 0x75, integral) && r[0x79] == duty
      else Holds16(r, 0x6F, rpm) && Holds16(r, 0x73, error) && Holds16(r, 0x77, integral) && r[0x7A] == duty
    case SetOutput(m, duty, direction) =>
      var at := if m.M1? then 0x11 else 0x21;
      r[at] == Min(duty, 100) && r[at + 1] == if direction == 1 then 1 else 0
    case UpdateTargetRpm(m, rpm) => Holds16(r, if m.M1? then 0x32 else 0x34, rpm)
    case UpdateHold(m, count) => Holds32(r, if m.M1? then 0x48 else 0x4C, count)
    case UpdatePositionError(m, count) => Holds32(r, if m.M1? then 0x58 else 0x5C, count)
    case SetI2cAddress(address) => r[0x05] == address
    case ClearEncoderControl => r[0x31] == 0
    case _ => true
  }

  /** The registers an update may change, beside the derived status. */
  predicate Concerns(op: RegOp, reg: int) {
    match op
    case UpdateEncoder(_, _, _, _, _, _) => 0x14 <= reg <= 0x1C || 0x24 <= reg <= 0x2C
    case UpdateMeasured(_, _) => 0x36 <= reg <= 0x39
    case UpdateTelemetry(m, _, _, _, _) =>
      if m.M1? then reg in {0x6D, 0x6E, 0x71, 0x72, 0x75, 0x76, 0x79}
      else reg in {0x6F, 0x70, 0x73, 0x74, 0x77, 0x78, 0x7A}
    case SetOutput(m, _, _) => reg in (if m.M1? then {0x11, 0x12} else {0x21, 0x22})
    case UpdateTargetRpm(m, _) => reg in (if m.M1? then {0x32, 0x33} else {0x34, 0x35})
    case UpdateHold(m, _) => if m.M1? then 0x48 <= reg <= 0x4B else 0x4C <= reg <= 0x4F
    case UpdatePositionError(m, _) => if m.M1? then 0x58 <= reg <= 0x5B else 0x5C <= reg <= 0x5F
    case SetI2cAddress(_) => reg == 0x05
    case ClearEncoderControl => reg == 0x31
    case _ => true
  }

  /** Every reading and report lands in its registers, and nowhere else but in the status. */
  lemma ReportsLand(f: RegFile, op: RegOp)
    ensures Shows(Apply(f, op).regs, op)
    ensures forall reg :: 0 <= reg < REGISTER_COUNT && !Concerns(op, reg) && reg !in {0x02, 0x13, 0x23, 0x67} ==>
                            Apply(f, op).regs[reg] == f.regs[reg]
  {
    hide DeviceStatus, MotorStatus, PositionStatus, Committed, CommitAccepted, CoastOnTimeout, Store32, Store16;
    match op {
      case UpdateEncoder(c1, v1, s1, c2, v2, s2) => EncodersLand(f.regs, c1, v1, s1, c2, v2, s2);
      case UpdateMeasured(rpm1, rpm2) => MeasuredLands(f, rpm1, rpm2);
      case UpdateTelemetry(m, rpm, error, integral, duty) => TelemetryLands(f, m, rpm, error, integral, duty);
      case UpdateTargetRpm(m, rpm) =>
        Stored16(f.regs, if m.M1? then 0x32 else 0x34, rpm);
      case UpdateHold(m, count) =>
        Stored32(f.regs, if m.M1? then 0x48 else 0x4C, count);
      case UpdatePositionError(m, count) =>
        Stored32(f.regs, if m.M1? then 0x58 else 0x5C, count);
      case _ =>
    }
  }

  /** A store changes its own registers alone. */
  lemma Stored16(r: RegBytes, at: nat, v: int)
    requires at + 1 < REGISTER_COUNT && -0x8000 <= v < 0x1_0000
    ensures Holds16(Store16(r, at, v), at, v)
    ensures forall reg :: 0 <= reg < REGISTER_COUNT && reg !in {at, at + 1} ==> Store16(r, at, v)[reg] == r[reg]
  {
    Store16Holds(r, at, v);
    hide Holds16;
  }

  lemma Stored32(r: RegBytes, at: nat, v: Int32)
    requires at + 3 < REGISTER_COUNT
    ensures Holds32(Store32(r, at, v), at, v)
    ensures forall reg :: 0 <= reg < REGISTER_COUNT && !(at <= reg < at + 4) ==> Store32(r, at, v)[reg] == r[reg]
  {
    Store32Holds(r, at, v);
    hide Holds32;
  }

  lemma EncoderLands(r: RegBytes, m: Motor, at: nat, count: Int32, cps: Int32, state: Byte)
    requires at == if m.M1? then 0x14 else 0x24
    ensures var s := WithEncoder(r, m, count, cps, state);
            Holds32(s, at, count) && Holds32(s, at + 4, cps) && s[at + 8] == state % 4 &&
            forall reg :: 0 <= reg < REGISTER_COUNT && !(at <= reg <= at + 8) ==> s[reg] == r[reg]
  {
    hide Store32;
    var s := Store32(r, at, count);
    Stored32(r, at, count);
    Stored32(s, at + 4, cps);
  }

  lemma EncodersLand(r: RegBytes, c1: Int32, v1: Int32, s1: Byte, c2: Int32, v2: Int32, s2: Byte)
    ensures var s := WithEncoder(WithEncoder(r, M1, c1, v1, s1), M2, c2, v2, s2);
            Shows(s, UpdateEncoder(c1, v1, s1, c2, v2, s2)) &&
            forall reg :: 0 <= reg < REGISTER_COUNT && !(0x14 <= reg <= 0x1C || 0x24 <= reg <= 0x2C) ==>
                            s[reg] == r[reg]
  {
    hide WithEncoder;
    EncoderLands(r, M1, 0x14, c1, v1, s1);
    EncoderLands(WithEncoder(r, M1, c1, v1, s1), M2, 0x24, c2, v2, s2);
  }

  lemma MeasuredLands(f: RegFile, rpm1: Int16, rpm2: Int16)
    ensures var s := WithMeasuredRpm(f, rpm1, rpm2).regs;
            Shows(s, UpdateMeasured(rpm1, rpm2)) &&
            forall reg :: 0 <= reg < REGISTER_COUNT && !(0x36 <= reg <= 0x39) ==> s[reg] == f.regs[reg]
  {
    hide Store16;
    Stored16(f.regs, 0x36, rpm1);
    Stored16(Store16(f.regs, 0x36, rpm1), 0x38, rpm2);
  }

  lemma TelemetryLands(f: RegFile, m: Motor, rpm: Word16, error: Int16, integral: Int16, duty: Byte)
    ensures var s, op := WithTelemetry(f, m, rpm, error, integral, duty).regs,
                         UpdateTelemetry(m, rpm, error, integral, duty);
            Shows(s, op) && forall reg :: 0 <= reg < REGISTER_COUNT && !Concerns(op, reg) ==> s[reg] == f.regs[reg]
  {
    hide Store16;
    var k := if m.M1? then 0 else 2;
    var a := Store16(f.regs, 0x6D + k, rpm);
    var b := Store16(a, 0x71 + k, error);
    Stored16(f.regs, 0x6D + k, rpm);
    Stored16(a, 0x71 + k, error);
    Stored16(b, 0x75 + k, integral);
  }

  lemma WordIsHeld(r: RegBytes, at: nat)
    requires at + 3 < REGISTER_COUNT
    ensures Holds32(r, at, LoadUint32(r, at))
  {
  }

  lemma NumberIsHeld(r: RegBytes, at: nat)
    requires at + 3 < REGISTER_COUNT
    ensures Holds32(r, at, LoadInt32(r, at))
  {
    var n: int := LoadUint32(r, at);
    assert ToInt32(n) == if n < 0x8000_0000 then n else n - 0x1_0000_0000;
  }

  lemma ShortIsHeld(r: RegBytes, at: nat)
    requires at + 1 < REGISTER_COUNT
    ensures Holds16(r, at, LoadUint16(r, at))
  {
  }

  /** What the controller reads as a motor's settings: scale, target speed, target position. */
  lemma SettingsAreRead(r: RegBytes, m: Motor)
    ensures var k := if m.M1? then 0 else 1;
            Holds32(r, 0x40 + 4 * k, LoadUint32(r, CountsPerRevReg(m))) &&
            Holds16(r, 0x32 + 2 * k, LoadUint16(r, TargetRpmReg(m))) &&
            Holds32(r, 0x50 + 4 * k, LoadInt32(r, TargetPositionReg(m)))
  {
    hide Holds16, Holds32, LoadUint16, LoadUint32, LoadInt32;
    WordIsHeld(r, CountsPerRevReg(m));
    ShortIsHeld(r, TargetRpmReg(m));
    NumberIsHeld(r, TargetPositionReg(m));
  }
}
