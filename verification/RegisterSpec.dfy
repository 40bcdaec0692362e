/** The motor driver's register file as a value: 127 bytes and the timeout flag.
    Each public operation of the firmware's RegisterMap is a function on it. */
module RegisterSpec {
  import opened Arith

  const DEVICE_ID: Byte := 0xA5
  const FIRMWARE_VERSION: Byte := 0x03
  const REGISTER_COUNT: nat := 0x7F
  const MAX_PAYLOAD_LENGTH: nat := 32

  const REG_DEVICE_ID: nat := 0x00
  const REG_FW_VERSION: nat := 0x01
  const REG_STATUS: nat := 0x02
  const REG_FAULT_FLAGS: nat := 0x03
  const REG_CONTROL_FLAGS: nat := 0x04
  const REG_I2C_ADDRESS: nat := 0x05
  const REG_OUTPUT_INVERT_FLAGS: nat := 0x06
  const REG_ENCODER_INVERT_FLAGS: nat := 0x07
  const REG_WATCHDOG_TIMEOUT: nat := 0x30
  const REG_ENCODER_CONTROL: nat := 0x31
  const REG_SPEED_KP: nat := 0x3A
  const REG_SPEED_KI: nat := 0x3B
  const REG_SPEED_KD: nat := 0x3C
  const REG_SPEED_MAX_DUTY: nat := 0x3D
  const REG_SPEED_MIN_DUTY: nat := 0x3E
  const REG_POSITION_KP: nat := 0x60
  const REG_POSITION_KI: nat := 0x61
  const REG_POSITION_KD: nat := 0x62
  const REG_POSITION_MAX_RPM: nat := 0x63
  const REG_POSITION_TOLERANCE: nat := 0x65
  const REG_POSITION_STATUS: nat := 0x67
  const REG_POSITION_MIN_DUTY: nat := 0x68
  const REG_POSITION_MAX_DUTY: nat := 0x69
  const REG_POSITION_EXIT_TOLERANCE: nat := 0x6A
  const REG_POSITION_SETTLE_10MS: nat := 0x6C
  const REG_SPEED_ACCEL: nat := 0x7B
  const REG_SPEED_DECEL: nat := 0x7D

  const MODE_COAST: Byte := 0
  const MODE_RUN: Byte := 1
  const MODE_BRAKE: Byte := 2
  const MODE_SPEED: Byte := 3
  const MODE_POSITION: Byte := 4

  datatype Motor = M1 | M2

  function ModeReg(m: Motor): nat { if m.M1? then 0x10 else 0x20 }
  function DutyReg(m: Motor): nat { if m.M1? then 0x11 else 0x21 }
  function DirectionReg(m: Motor): nat { if m.M1? then 0x12 else 0x22 }
  function StatusReg(m: Motor): nat { if m.M1? then 0x13 else 0x23 }
  function EncoderCountReg(m: Motor): nat { if m.M1? then 0x14 else 0x24 }
  function EncoderCpsReg(m: Motor): nat { if m.M1? then 0x18 else 0x28 }
  function EncoderStateReg(m: Motor): nat { if m.M1? then 0x1C else 0x2C }
  function TargetRpmReg(m: Motor): nat { if m.M1? then 0x32 else 0x34 }
  function MeasuredRpmReg(m: Motor): nat { if m.M1? then 0x36 else 0x38 }
  function CountsPerRevReg(m: Motor): nat { if m.M1? then 0x40 else 0x44 }
  function HoldCountReg(m: Motor): nat { if m.M1? then 0x48 else 0x4C }
  function TargetPositionReg(m: Motor): nat { if m.M1? then 0x50 else 0x54 }
  function PositionErrorReg(m: Motor): nat { if m.M1? then 0x58 else 0x5C }
  function ControlRpmReg(m: Motor): nat { if m.M1? then 0x6D else 0x6F }
  function SpeedErrorReg(m: Motor): nat { if m.M1? then 0x71 else 0x73 }
  function SpeedIntegralReg(m: Motor): nat { if m.M1? then 0x75 else 0x77 }
  function ControlDutyReg(m: Motor): nat { if m.M1? then 0x79 else 0x7A }

  type RegBytes = s: seq<Byte> | |s| == REGISTER_COUNT witness seq(REGISTER_COUNT, i => 0)

  datatype RegFile = RegFile(regs: RegBytes, timeoutActive: bool)

  // ----- little-endian fields -----

  function LoadUint16(r: RegBytes, reg: nat): Word16
    requires reg + 1 < REGISTER_COUNT
  {
    var low: int, high: int := r[reg], r[reg + 1];
    low + 0x100 * high
  }

  function LoadUint32(r: RegBytes, reg: nat): Word32
    requires reg + 3 < REGISTER_COUNT
  {
    var b0: int, b1: int, b2: int, b3: int := r[reg], r[reg + 1], r[reg + 2], r[reg + 3];
    b0 + 0x100 * b1 + 0x1_0000 * b2 + 0x100_0000 * b3
  }

  function LoadInt32(r: RegBytes, reg: nat): Int32
    requires reg + 3 < REGISTER_COUNT
  {
    ToInt32(LoadUint32(r, reg))
  }

  /** Stores the low 16 bits of `v`, which may be signed. */
  function Store16(r: RegBytes, reg: nat, v: int): RegBytes
    requires reg + 1 < REGISTER_COUNT
  {
    r[reg := v % 0x100][reg + 1 := (v / 0x100) % 0x100]
  }

  /** Stores the low 32 bits of `v`, which may be signed. */
  function Store32(r: RegBytes, reg: nat, v: int): RegBytes
    requires reg + 3 < REGISTER_COUNT
  {
    r[reg := v % 0x100][reg + 1 := (v / 0x100) % 0x100]
     [reg + 2 := (v / 0x1_0000) % 0x100][reg + 3 := (v / 0x100_0000) % 0x100]
  }

  // ----- status registers -----

  predicate Enabled(r: RegBytes) {
    Bit(r[REG_CONTROL_FLAGS], 0)
  }

  predicate PositionAtTarget(r: RegBytes, m: Motor) {
    r[ModeReg(m)] == MODE_POSITION &&
    Abs(LoadInt32(r, PositionErrorReg(m))) <= LoadUint16(r, REG_POSITION_TOLERANCE)
  }

  /** The motor has a command that may drive its bridge. */
  predicate MotorActive(f: RegFile, m: Motor) {
    Enabled(f.regs) && !f.timeoutActive &&
    var mode := f.regs[ModeReg(m)];
    (mode == MODE_RUN && f.regs[DutyReg(m)] > 0) || mode == MODE_SPEED || mode == MODE_POSITION
  }

  function MotorStatus(f: RegFile, m: Motor): Byte {
    (if MotorActive(f, m) then 1 else 0) +
    (if f.regs[DirectionReg(m)] == 1 then 2 else 0) +
    (if PositionAtTarget(f.regs, m) then 4 else 0)
  }

  function PositionStatus(f: RegFile): Byte {
    (if PositionAtTarget(f.regs, M1) then 1 else 0) + (if PositionAtTarget(f.regs, M2) then 2 else 0)
  }

  function DeviceStatus(f: RegFile): Byte {
    1 + (if Enabled(f.regs) then 2 else 0) +
    (if MotorActive(f, M1) || MotorActive(f, M2) then 4 else 0) +
    (if f.timeoutActive then 8 else 0)
  }

  /** The four derived registers hold what the other registers imply. */
  predicate StatusConsistent(f: RegFile) {
    f.regs[REG_STATUS] == DeviceStatus(f) &&
    f.regs[StatusReg(M1)] == MotorStatus(f, M1) &&
    f.regs[StatusReg(M2)] == MotorStatus(f, M2) &&
    f.regs[REG_POSITION_STATUS] == PositionStatus(f)
  }

  function Refreshed(f: RegFile): RegFile {
    f.(regs := f.regs[StatusReg(M1) := MotorStatus(f, M1)][StatusReg(M2) := MotorStatus(f, M2)]
               [REG_POSITION_STATUS := PositionStatus(f)][REG_STATUS := DeviceStatus(f)])
  }

  predicate HasActiveCommand(f: RegFile) {
    MotorActive(f, M1) || MotorActive(f, M2)
  }

  // ----- transactional writes -----

  /** Registers that accept any byte. */
  predicate FreeRegister(reg: int) {
    reg == REG_WATCHDOG_TIMEOUT || 0x32 <= reg <= 0x35 || 0x3A <= reg <= 0x3C || 0x40 <= reg <= 0x47 ||
    0x50 <= reg <= 0x57 || 0x60 <= reg <= 0x66 || 0x6A <= reg <= 0x6C || 0x7B <= reg <= 0x7E
  }

  predicate PercentRegister(reg: int) {
    reg == 0x11 || reg == 0x21 || reg == 0x3D || reg == 0x3E || reg == 0x68 || reg == 0x69
  }

  predicate WriteAllowed(reg: int, value: Byte) {
    if reg == REG_FAULT_FLAGS || reg == REG_CONTROL_FLAGS || reg == 0x12 || reg == 0x22 then value <= 1
    else if reg == REG_OUTPUT_INVERT_FLAGS || reg == REG_ENCODER_INVERT_FLAGS || reg == REG_ENCODER_CONTROL
    then value <= 3
    else if reg == REG_I2C_ADDRESS then 0x08 <= value <= 0x77
    else if reg == 0x10 || reg == 0x20 then value <= MODE_POSITION
    else if PercentRegister(reg) then value <= 100
    else FreeRegister(reg)
  }

  /** What a register holds after an allowed write; FAULT_FLAGS is write-1-to-clear. */
  function Written(reg: int, before: Byte, value: Byte): Byte {
    if reg == REG_FAULT_FLAGS then (if value == 1 then before - before % 2 else before) else value
  }

  predicate ControlRegister(reg: int) {
    reg == 0x04 || reg == 0x06 || reg == 0x07 || 0x10 <= reg <= 0x12 || 0x20 <= reg <= 0x22 ||
    0x32 <= reg <= 0x35 || 0x3A <= reg <= 0x3E || 0x40 <= reg <= 0x47 || 0x50 <= reg <= 0x57 ||
    0x60 <= reg <= 0x66 || 0x68 <= reg <= 0x6C || 0x7B <= reg <= 0x7E
  }

  predicate CommitAccepted(start: Byte, data: seq<Byte>) {
    |data| > 0 && start + |data| <= REGISTER_COUNT &&
    forall i :: 0 <= i < |data| ==> WriteAllowed(start + i, data[i])
  }

  predicate Covers(start: Byte, length: nat, reg: int) {
    start <= reg < start + length
  }

  function Merged(r: RegBytes, start: Byte, data: seq<Byte>): RegBytes {
    seq(REGISTER_COUNT, i requires 0 <= i < REGISTER_COUNT =>
      if Covers(start, |data|, i) then Written(i, r[i], data[i - start]) else r[i])
  }

  predicate TargetRpmRegister(m: Motor, reg: int) {
    reg == TargetRpmReg(m) || reg == TargetRpmReg(m) + 1
  }

  /** Coast: mode, duty and speed target of one motor become zero. */
  function ClearMotion(r: RegBytes, m: Motor): RegBytes {
    seq(REGISTER_COUNT, i requires 0 <= i < REGISTER_COUNT =>
      if i == ModeReg(m) || i == DutyReg(m) || TargetRpmRegister(m, i) then 0 else r[i])
  }

  function ClearTargetRpm(r: RegBytes, m: Motor): RegBytes {
    seq(REGISTER_COUNT, i requires 0 <= i < REGISTER_COUNT => if TargetRpmRegister(m, i) then 0 else r[i])
  }

  /** A newly written mode drops what is left over from the motor's previous mode. */
  function NormalizedMotor(r: RegBytes, m: Motor, modeWritten: bool): RegBytes {
    var mode := r[ModeReg(m)];
    if !modeWritten || mode == MODE_SPEED || mode > MODE_POSITION then r
    else if mode == MODE_COAST then ClearMotion(r, m)
    else if mode == MODE_RUN then ClearTargetRpm(r, m)
    else ClearTargetRpm(r[DutyReg(m) := 0], m)
  }

  function Normalized(r: RegBytes, start: Byte, length: nat): RegBytes {
    if Covers(start, length, REG_CONTROL_FLAGS) && !Enabled(r) then ClearMotion(ClearMotion(r, M1), M2)
    else NormalizedMotor(NormalizedMotor(r, M1, Covers(start, length, ModeReg(M1))),
                         M2, Covers(start, length, ModeReg(M2)))
  }

  function Committed(f: RegFile, start: Byte, data: seq<Byte>): RegFile {
    Refreshed(f.(regs := Normalized(Merged(f.regs, start, data), start, |data|)))
  }

  // ----- the other public mutators -----

  function WithTimeout(f: RegFile, active: bool): RegFile {
    Refreshed(f.(timeoutActive := active))
  }

  function CoastOnTimeout(f: RegFile): RegFile {
    var r := ClearMotion(ClearMotion(f.regs, M1), M2);
    var fault := r[REG_FAULT_FLAGS];
    Refreshed(RegFile(r[REG_FAULT_FLAGS := fault - fault % 2 + 1], true))
  }

  function WithEncoder(r: RegBytes, m: Motor, count: Int32, cps: Int32, state: Byte): RegBytes {
    Store32(Store32(r, EncoderCountReg(m), count), EncoderCpsReg(m), cps)[EncoderStateReg(m) := state % 4]
  }

  function WithMeasuredRpm(f: RegFile, rpm1: Int16, rpm2: Int16): RegFile {
    f.(regs := Store16(Store16(f.regs, MeasuredRpmReg(M1), rpm1), MeasuredRpmReg(M2), rpm2))
  }

  function WithTelemetry(f: RegFile, m: Motor, rpm: Word16, error: Int16, integral: Int16, duty: Byte): RegFile {
    var r := Store16(f.regs, ControlRpmReg(m), rpm);
    var r := Store16(r, SpeedErrorReg(m), error);
    var r := Store16(r, SpeedIntegralReg(m), integral);
    f.(regs := r[ControlDutyReg(m) := duty])
  }

  function WithOutput(f: RegFile, m: Motor, duty: Byte, direction: Byte): RegFile {
    Refreshed(
      f.(regs := f.regs[DutyReg(m) := Min(duty, 100)][DirectionReg(m) := if direction > 1 then 0 else direction]))
  }

  function WithDuty(f: RegFile, m: Motor, duty: Byte): RegFile {
    WithOutput(f, m, duty, f.regs[DirectionReg(m)])
  }

  function WithTargetRpm(f: RegFile, m: Motor, rpm: Word16): RegFile {
    Refreshed(f.(regs := Store16(f.regs, TargetRpmReg(m), rpm)))
  }

  function WithHoldTarget(f: RegFile, m: Motor, count: Int32): RegFile {
    f.(regs := Store32(f.regs, HoldCountReg(m), count))
  }

  function WithPositionError(f: RegFile, m: Motor, error: Int32): RegFile {
    Refreshed(f.(regs := Store32(f.regs, PositionErrorReg(m), error)))
  }

  function WithI2cAddress(f: RegFile, address: Byte): RegFile {
    f.(regs := f.regs[REG_I2C_ADDRESS := address])
  }

  function WithEncoderControlCleared(f: RegFile): RegFile {
    f.(regs := f.regs[REG_ENCODER_CONTROL := 0])
  }

  /** Power-on contents of each register. */
  function InitialByte(reg: nat): Byte {
    match reg
    case 0x00 => DEVICE_ID
    case 0x01 => FIRMWARE_VERSION
    case 0x02 => 3       // READY and ENABLED
    case 0x04 => 1       // enabled
    case 0x05 => 0x20    // I2C address
    case 0x06 => 3
    case 0x07 => 1
    case 0x30 => 100     // watchdog: one second
    case 0x3A => 2       // speed gains and duty limits
    case 0x3B => 2
    case 0x3D => 60
    case 0x3E => 4
    case 0x40 => 0xB0    // 1456 counts per revolution
    case 0x41 => 0x05
    case 0x44 => 0xB0
    case 0x45 => 0x05
    case 0x60 => 20      // position gain
    case 0x63 => 40      // position rpm limit
    case 0x65 => 0x90    // tolerance 400
    case 0x66 => 0x01
    case 0x68 => 5
    case 0x69 => 25
    case 0x6A => 0x20    // exit tolerance 800
    case 0x6B => 0x03
    case 0x6C => 10
    case 0x7B => 0x58    // ramp 600 and 900 rpm/s
    case 0x7C => 0x02
    case 0x7D => 0x84
    case 0x7E => 0x03
    case _ => 0
  }

  function InitialRegs(): RegBytes {
    seq(REGISTER_COUNT, i requires 0 <= i < REGISTER_COUNT => InitialByte(i))
  }

  function Initial(): RegFile {
    Refreshed(RegFile(InitialRegs(), false))
  }
}
