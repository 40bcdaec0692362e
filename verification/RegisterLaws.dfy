/** What an accepted write leaves in the motion registers, told by register number, and what the status bits mean. */
module RegisterLaws {
  import opened Arith
  import opened RegisterSpec
  import opened RegisterInvariants

  // ----- motion registers -----

  /** Mode, duty and target speed of a motor, as the register map documents them. */
  datatype Motion = Motion(mode: Byte, duty: Byte, targetRpm: int)

  function MotionOf(r: RegBytes, m: Motor): Motion {
    if m.M1? then Motion(r[0x10], r[0x11], (r[0x32] as int) + 0x100 * (r[0x33] as int))
    else Motion(r[0x20], r[0x21], (r[0x34] as int) + 0x100 * (r[0x35] as int))
  }

  /** The byte a write sends to a register, or what it holds. */
  function Sent(r: RegBytes, start: Byte, data: seq<Byte>, reg: nat): Byte
    requires reg < REGISTER_COUNT
  {
    if start <= reg < start + |data| then data[reg - start] else r[reg]
  }

  function SentMotion(r: RegBytes, start: Byte, data: seq<Byte>, m: Motor): Motion {
    if m.M1? then
      Motion(Sent(r, start, data, 0x10), Sent(r, start, data, 0x11),
             (Sent(r, start, data, 0x32) as int) + 0x100 * (Sent(r, start, data, 0x33) as int))
    else
      Motion(Sent(r, start, data, 0x20), Sent(r, start, data, 0x21),
             (Sent(r, start, data, 0x34) as int) + 0x100 * (Sent(r, start, data, 0x35) as int))
  }

  /** The write covers CONTROL_FLAGS and clears its enable bit. */
  predicate Disables(start: Byte, data: seq<Byte>) {
    start <= 0x04 < start + |data| && data[0x04 - start] % 2 == 0
  }

  predicate SendsMode(start: Byte, data: seq<Byte>, m: Motor) {
    start <= (if m.M1? then 0x10 else 0x20) < start + |data|
  }

  /** A cleared enable takes mode, duty and target speed of both motors to zero. */
  lemma DisableClears(f: RegFile, start: Byte, data: seq<Byte>, m: Motor)
    requires CommitAccepted(start, data) && Disables(start, data)
    ensures MotionOf(Committed(f, start, data).regs, m) == Motion(0, 0, 0)
  {
    hide MotorStatus, PositionStatus, DeviceStatus;
    var r := Merged(f.regs, start, data);
    assert r[REG_CONTROL_FLAGS] == data[REG_CONTROL_FLAGS - start];
    assert !Enabled(r);
  }

  /** After it both motors stay inactive through anything, enabling again included, until a committed write gives
      the motor in question a mode. */
  lemma DisabledStaysDown(f: RegFile, start: Byte, data: seq<Byte>, ops: seq<RegOp>, m: Motor)
    requires CommitAccepted(start, data) && Disables(start, data)
    requires forall i :: 0 <= i < |ops| ==> !SetsMode(ops[i], m)
    ensures var g := Run(Committed(f, start, data), ops);
            MotionOf(g.regs, m).mode == MODE_COAST && !MotorActive(g, m)
  {
    DisableClears(f, start, data, m);
    hide Committed, MotorActive;
    CoastLatch(Committed(f, start, data), ops, m);
  }

  /** Any other accepted write leaves the motion registers as sent, except that a sent COAST clears duty and target
      speed, BRAKE and POSITION clear both too, and RUN clears the target speed. */
  lemma MotionEffect(f: RegFile, start: Byte, data: seq<Byte>, m: Motor)
    requires CommitAccepted(start, data) && !Disables(start, data)
    ensures var sent := SentMotion(f.regs, start, data, m);
            MotionOf(Committed(f, start, data).regs, m) ==
            if !SendsMode(start, data, m) || sent.mode == MODE_SPEED then sent
            else if sent.mode == MODE_RUN then sent.(targetRpm := 0)
            else Motion(sent.mode, 0, 0)
  {
    hide MotorStatus, PositionStatus, DeviceStatus, NormalizedMotor;
    var r := Merged(f.regs, start, data);
    ControlBit(f, start, data);
    MergedMotion(f.regs, start, data, m);
    SentModeIsOne(f, start, data, M1);
    SentModeIsOne(f, start, data, M2);
    var once := NormalizedMotor(r, M1, Covers(start, |data|, ModeReg(M1)));
    var twice := NormalizedMotor(once, M2, Covers(start, |data|, ModeReg(M2)));
    OwnMotion(r, M1, Covers(start, |data|, ModeReg(M1)));
    OtherMotion(r, M1, Covers(start, |data|, ModeReg(M1)));
    OwnMotion(once, M2, Covers(start, |data|, ModeReg(M2)));
    OtherMotion(once, M2, Covers(start, |data|, ModeReg(M2)));
    assert MotionOf(Committed(f, start, data).regs, m) ==
           MotionOf(Normalized(r, start, |data|), m);
  }

  /** Unless the write disables, the normalisation goes by the modes. */
  lemma ControlBit(f: RegFile, start: Byte, data: seq<Byte>)
    requires CommitAccepted(start, data) && !Disables(start, data)
    ensures !Covers(start, |data|, REG_CONTROL_FLAGS) || Enabled(Merged(f.regs, start, data))
  {
    if Covers(start, |data|, REG_CONTROL_FLAGS) {
      CoveredIsAllowed(start, data, REG_CONTROL_FLAGS);
      assert Merged(f.regs, start, data)[REG_CONTROL_FLAGS] == data[REG_CONTROL_FLAGS - start];
    }
  }

  lemma SentModeIsOne(f: RegFile, start: Byte, data: seq<Byte>, m: Motor)
    requires CommitAccepted(start, data)
    ensures Covers(start, |data|, ModeReg(m)) ==> Merged(f.regs, start, data)[ModeReg(m)] <= MODE_POSITION
  {
    if Covers(start, |data|, ModeReg(m)) { CoveredIsAllowed(start, data, ModeReg(m)); }
  }

  lemma MergedMotion(r: RegBytes, start: Byte, data: seq<Byte>, m: Motor)
    ensures MotionOf(Merged(r, start, data), m) == SentMotion(r, start, data, m)
  {
  }

  lemma OwnMotion(r: RegBytes, m: Motor, modeWritten: bool)
    requires modeWritten ==> r[ModeReg(m)] <= MODE_POSITION
    ensures var motion := MotionOf(r, m);
            MotionOf(NormalizedMotor(r, m, modeWritten), m) ==
            if !modeWritten || motion.mode == MODE_SPEED then motion
            else if motion.mode == MODE_RUN then motion.(targetRpm := 0)
            else Motion(motion.mode, 0, 0)
  {
  }

  lemma OtherMotion(r: RegBytes, m: Motor, modeWritten: bool)
    ensures var other := if m.M1? then M2 else M1;
            MotionOf(NormalizedMotor(r, m, modeWritten), other) == MotionOf(r, other)
  {
  }

  // ----- status bits -----

  /** Where the status is consistent, as it is in every reachable file, each bit says one thing. */
  lemma StatusBits(f: RegFile)
    requires StatusConsistent(f)
    ensures Bit(f.regs[0x02], 0) && (Bit(f.regs[0x02], 1) <==> Bit(f.regs[0x04], 0))
    ensures Bit(f.regs[0x02], 2) <==> HasActiveCommand(f)
    ensures Bit(f.regs[0x02], 3) <==> f.timeoutActive
  {
  }

  lemma MotorStatusBits(f: RegFile, m: Motor)
    requires StatusConsistent(f)
    ensures var status := f.regs[if m.M1? then 0x13 else 0x23];
            (Bit(status, 0) <==> MotorActive(f, m)) &&
            (Bit(status, 1) <==> f.regs[if m.M1? then 0x12 else 0x22] == 1) &&
            (Bit(status, 2) <==> PositionAtTarget(f.regs, m))
    ensures Bit(f.regs[0x67], if m.M1? then 0 else 1) <==> PositionAtTarget(f.regs, m)
  {
  }

  /** At its target is a motor in position mode whose error is within the tolerance either way. */
  lemma AtTargetMeans(f: RegFile, m: Motor)
    ensures var error, tolerance := LoadInt32(f.regs, if m.M1? then 0x58 else 0x5C), LoadUint16(f.regs, 0x65);
            PositionAtTarget(f.regs, m) <==> MotionOf(f.regs, m).mode == 4 && -(tolerance as int) <= error <= tolerance
  {
  }

  /** A motor is active exactly when enabled, not timed out, and told to run at a duty, or under closed-loop control. */
  lemma ActiveMeans(f: RegFile, m: Motor)
    ensures var motion := MotionOf(f.regs, m);
            MotorActive(f, m) <==> Bit(f.regs[0x04], 0) && !f.timeoutActive &&
                                   (if motion.mode == MODE_RUN then motion.duty > 0 else motion.mode in {3, 4})
  {
  }

  // ----- what may be written -----

  /** No bit from `k` on is set. */
  predicate NoBitFrom(v: Byte, k: nat) { forall j :: k <= j < 8 ==> !Bit(v, j) }

  /** Which bytes a register takes: flags their defined bits, modes and percentages their range, the bus address one
      outside the reserved ones, settings anything, all others nothing. */
  ghost predicate Takes(reg: int, v: Byte) {
    match reg
    case 0x03 => NoBitFrom(v, 1)
    case 0x04 => NoBitFrom(v, 1)
    case 0x05 => 8 <= v < 120
    case 0x06 => NoBitFrom(v, 2)
    case 0x07 => NoBitFrom(v, 2)
    case 0x10 => v in {0, 1, 2, 3, 4}
    case 0x11 => v <= 100
    case 0x12 => v in {0, 1}
    case 0x20 => v in {0, 1, 2, 3, 4}
    case 0x21 => v <= 100
    case 0x22 => v in {0, 1}
    case 0x31 => NoBitFrom(v, 2)
    case 0x3D => v <= 100
    case 0x3E => v <= 100
    case 0x68 => v <= 100
    case 0x69 => v <= 100
    case _ => reg in {0x30, 0x32, 0x33, 0x34, 0x35, 0x3A, 0x3B, 0x3C, 0x6A, 0x6B, 0x6C, 0x7B, 0x7C, 0x7D, 0x7E} ||
              0x40 <= reg <= 0x47 || 0x50 <= reg <= 0x57 || 0x60 <= reg <= 0x66
  }

  lemma LowBits(v: Byte)
    ensures NoBitFrom(v, 1) <==> v < 2
    ensures NoBitFrom(v, 2) <==> v < 4
  {
    if v >= 2 { HighBit(v, 1); }
    if v >= 4 { HighBit(v, 2); }
  }

  lemma HighBit(v: Byte, k: nat)
    requires 1 <= k < 8 && v >= [1, 2, 4, 8, 16, 32, 64, 128][k]
    ensures exists j :: k <= j < 8 && Bit(v, j)
    decreases 8 - k
  {
    if k < 7 && v >= [1, 2, 4, 8, 16, 32, 64, 128][k + 1] {
      HighBit(v, k + 1);
    } else {
      assert Bit(v, k);
    }
  }

  lemma TakesExactly(reg: int, v: Byte)
    ensures WriteAllowed(reg, v) <==> Takes(reg, v)
  {
    LowBits(v);
    hide NoBitFrom;
  }

  /** A write is accepted exactly when it is not empty, stays inside the file, and every register it covers takes the
      byte it is sent: one that does not refuses them all. */
  lemma AcceptedExactly(start: Byte, data: seq<Byte>)
    ensures CommitAccepted(start, data) <==>
            1 <= |data| && start + |data| <= 127 && forall i :: 0 <= i < |data| ==> Takes(start + i, data[i])
  {
    forall i | 0 <= i < |data| ensures WriteAllowed(start + i, data[i]) <==> Takes(start + i, data[i]) {
      TakesExactly(start + i, data[i]);
    }
    hide WriteAllowed, Takes;
  }

  /** The registers whose writes count as control changes are the writable ones but for fault flags, bus address,
      watchdog timeout and encoder request. */
  lemma ControlRegistersAre(reg: int)
    ensures ControlRegister(reg) <==> (exists v: Byte :: WriteAllowed(reg, v)) && reg !in {0x03, 0x05, 0x30, 0x31}
  {
    if ControlRegister(reg) { assert WriteAllowed(reg, 0); }
  }
}
