/** The register file as the firmware keeps it: a byte array updated in place. */
module RegisterMap {
  import opened Arith
  import opened RegisterSpec

  class RegisterMap {
    const registers: array<Byte>
    var timeoutActive: bool

    ghost predicate Valid() {
      registers.Length == REGISTER_COUNT
    }

    function View(): RegFile
      requires Valid()
      reads this, registers
    {
      RegFile(registers[..], timeoutActive)
    }

    constructor ()
      ensures Valid() && fresh(registers)
      ensures View() == Initial()
    {
      registers := new Byte[REGISTER_COUNT](i requires 0 <= i < REGISTER_COUNT => InitialByte(i));
      timeoutActive := false;
      new;
      assert registers[..] == InitialRegs();
      RefreshStatus();
    }

    method Read(reg: Byte) returns (value: Byte)
      requires Valid()
      ensures value == if reg < REGISTER_COUNT then View().regs[reg] else 0
    {
      if reg >= REGISTER_COUNT { return 0; }
      return registers[reg];
    }

    method HasActiveCommand() returns (active: bool)
      requires Valid()
      ensures active == RegisterSpec.HasActiveCommand(View())
    {
      if !Bit(registers[REG_CONTROL_FLAGS], 0) || timeoutActive { return false; }
      if registers[ModeReg(M1)] == MODE_RUN && registers[DutyReg(M1)] > 0 { return true; }
      if registers[ModeReg(M2)] == MODE_RUN && registers[DutyReg(M2)] > 0 { return true; }
      if registers[ModeReg(M1)] == MODE_SPEED || registers[ModeReg(M2)] == MODE_SPEED { return true; }
      return registers[ModeReg(M1)] == MODE_POSITION || registers[ModeReg(M2)] == MODE_POSITION;
    }

    /** Copies a block of registers, or refuses a range that leaves the file. */
    method ReadBlock(start: Byte, length: Byte) returns (block: Option<seq<Byte>>)
      requires Valid()
      ensures block == if length > 0 && start + length <= REGISTER_COUNT
                       then Some(View().regs[start..start + length]) else None
    {
      if length == 0 || start + length > REGISTER_COUNT { return None; }
      var out: seq<Byte> := [];
      for index := 0 to length
        invariant out == registers[start..start + index]
      {
        var value := Read(start + index);
        out := out + [value];
      }
      return Some(out);
    }

    /** Applies a payload to a copy of the file, stopping at the first refused byte. */
    static method StageWrite(next: array<Byte>, start: Byte, data: seq<Byte>) returns (ok: bool, controlChanged: bool)
      requires next.Length == REGISTER_COUNT
      requires |data| > 0 && start + |data| <= REGISTER_COUNT
      modifies next
      ensures ok == CommitAccepted(start, data)
      ensures ok ==> next[..] == Merged(old(next[..]), start, data)
      ensures controlChanged == (ok && exists reg :: Covers(start, |data|, reg) && ControlRegister(reg))
    {
      hide Written, WriteAllowed, ControlRegister;
      controlChanged := false;
      for index := 0 to |data|
        invariant forall i :: 0 <= i < index ==> WriteAllowed(start + i, data[i])
        invariant forall i :: 0 <= i < REGISTER_COUNT ==>
          next[i] == if Covers(start, index, i) then Written(i, old(next[i]), data[i - start]) else old(next[i])
        invariant controlChanged == exists reg :: Covers(start, index, reg) && ControlRegister(reg)
      {
        if !WriteAllowed(start + index, data[index]) { return false, false; }
        next[start + index] := Written(start + index, next[start + index], data[index]);
        assert forall reg :: Covers(start, index + 1, reg) <==> Covers(start, index, reg) || reg == start + index;
        if ControlRegister(start + index) { controlChanged := true; }
      }
      ok := true;
    }

    /** All or nothing: every byte is validated against a copy before the file changes. */
    method CommitWrite(start: Byte, data: seq<Byte>) returns (ok: bool, controlChanged: bool)
      requires Valid()
      modifies this, registers
      ensures Valid()
      ensures ok == CommitAccepted(start, data)
      ensures View() == if ok then Committed(old(View()), start, data) else old(View())
      ensures controlChanged == (ok && exists reg :: Covers(start, |data|, reg) && ControlRegister(reg))
    {
      if |data| == 0 || start + |data| > REGISTER_COUNT { return false, false; }
      ghost var was := View();
      var next := new Byte[REGISTER_COUNT];
      Copy(registers, next);
      ok, controlChanged := StageWrite(next, start, data);
      if !ok { return; }
      ghost var merged: RegBytes := Merged(was.regs, start, data);
      assert next[..] == merged;
      NormalizeControlState(next, start, |data|);
      ghost var normal: RegBytes := Normalized(merged, start, |data|);
      assert next[..] == normal;
      Copy(next, registers);
      assert View() == was.(regs := normal);
      RefreshStatus();
    }

    static method Copy(from: array<Byte>, to: array<Byte>)
      requires from.Length == to.Length == REGISTER_COUNT && from != to
      modifies to
      ensures to[..] == old(from[..])
    {
      forall index | 0 <= index < REGISTER_COUNT {
        to[index] := from[index];
      }
    }

    static method ClearMotorMotion(target: array<Byte>, m: Motor)
      requires target.Length == REGISTER_COUNT
      modifies target
      ensures target[..] == ClearMotion(old(target[..]), m)
    {
      target[ModeReg(m)] := MODE_COAST;
      target[DutyReg(m)] := 0;
      target[TargetRpmReg(m)] := 0;
      target[TargetRpmReg(m) + 1] := 0;
    }

    static method NormalizeMotor(target: array<Byte>, m: Motor, modeWritten: bool)
      requires target.Length == REGISTER_COUNT
      modifies target
      ensures target[..] == NormalizedMotor(old(target[..]), m, modeWritten)
    {
      if modeWritten {
        var mode := target[ModeReg(m)];
        if mode == MODE_COAST {
          ClearMotorMotion(target, m);
        } else if mode == MODE_BRAKE || mode == MODE_RUN || mode == MODE_POSITION {
          if mode != MODE_RUN { target[DutyReg(m)] := 0; }
          target[TargetRpmReg(m)] := 0;
          target[TargetRpmReg(m) + 1] := 0;
        }
      }
    }

    static method NormalizeControlState(target: array<Byte>, start: Byte, length: nat)
      requires target.Length == REGISTER_COUNT
      modifies target
      ensures target[..] == Normalized(old(target[..]), start, length)
    {
      if Covers(start, length, REG_CONTROL_FLAGS) && !Bit(target[REG_CONTROL_FLAGS], 0) {
        ClearMotorMotion(target, M1);
        ClearMotorMotion(target, M2);
        return;
      }
      NormalizeMotor(target, M1, Covers(start, length, ModeReg(M1)));
      NormalizeMotor(target, M2, Covers(start, length, ModeReg(M2)));
    }

    method RefreshStatus()
      requires Valid()
      modifies registers
      ensures View() == Refreshed(old(View()))
    {
      ghost var was := View();
      var status: Byte := 1;
      if Enabled(registers[..]) { status := status + 2; }
      var view := RegFile(registers[..], timeoutActive);
      var status1, status2 := MotorStatus(view, M1), MotorStatus(view, M2);
      registers[StatusReg(M1)] := status1;
      registers[StatusReg(M2)] := status2;
      registers[REG_POSITION_STATUS] := PositionStatus(view);
      if Bit(status1, 0) || Bit(status2, 0) { status := status + 4; }
      if timeoutActive { status := status + 8; }
      registers[REG_STATUS] := status;
      assert registers[..] == Refreshed(was).regs;
    }

    method SetTimeoutActive(active: bool)
      requires Valid()
      modifies this, registers
      ensures Valid() && View() == WithTimeout(old(View()), active)
    {
      timeoutActive := active;
      RefreshStatus();
    }

    method ForceCoastOnTimeout()
      requires Valid()
      modifies this, registers
      ensures Valid() && View() == CoastOnTimeout(old(View()))
    {
      ClearMotorMotion(registers, M1);
      ClearMotorMotion(registers, M2);
      registers[REG_FAULT_FLAGS] := registers[REG_FAULT_FLAGS] - registers[REG_FAULT_FLAGS] % 2 + 1;
      timeoutActive := true;
      RefreshStatus();
    }

    method StoreInt16(reg: nat, value: int)
      requires Valid() && reg + 1 < REGISTER_COUNT
      modifies registers
      ensures registers[..] == Store16(old(registers[..]), reg, value)
    {
      registers[reg] := value % 0x100;
      registers[reg + 1] := (value / 0x100) % 0x100;
    }

    method StoreInt32(reg: nat, value: int)
      requires Valid() && reg + 3 < REGISTER_COUNT
      modifies registers
      ensures registers[..] == Store32(old(registers[..]), reg, value)
    {
      registers[reg] := value % 0x100;
      registers[reg + 1] := (value / 0x100) % 0x100;
      registers[reg + 2] := (value / 0x1_0000) % 0x100;
      registers[reg + 3] := (value / 0x100_0000) % 0x100;
    }

    method UpdateEncoderSnapshot(m: Motor, count: Int32, cps: Int32, state: Byte)
      requires Valid()
      modifies registers
      ensures View() == old(View()).(regs := WithEncoder(old(View()).regs, m, count, cps, state))
    {
      StoreInt32(EncoderCountReg(m), count);
      StoreInt32(EncoderCpsReg(m), cps);
      registers[EncoderStateReg(m)] := state % 4;
    }

    method UpdateMeasuredRpm(rpm1: Int16, rpm2: Int16)
      requires Valid()
      modifies registers
      ensures View() == WithMeasuredRpm(old(View()), rpm1, rpm2)
    {
      StoreInt16(MeasuredRpmReg(M1), rpm1);
      StoreInt16(MeasuredRpmReg(M2), rpm2);
    }

    method UpdateSpeedControlTelemetry(m: Motor, rpm: Word16, error: Int16, integral: Int16, duty: Byte)
      requires Valid()
      modifies registers
      ensures View() == WithTelemetry(old(View()), m, rpm, error, integral, duty)
    {
      StoreInt16(ControlRpmReg(m), rpm);
      StoreInt16(SpeedErrorReg(m), error);
      StoreInt16(SpeedIntegralReg(m), integral);
      registers[ControlDutyReg(m)] := duty;
    }

    method SetMotorOutputFromControl(m: Motor, duty: Byte, direction: Byte)
      requires Valid()
      modifies registers
      ensures View() == WithOutput(old(View()), m, duty, direction)
    {
      registers[DutyReg(m)] := if duty > 100 then 100 else duty;
      registers[DirectionReg(m)] := if direction > 1 then 0 else direction;
      RefreshStatus();
    }

    method SetMotorDutyFromControl(m: Motor, duty: Byte)
      requires Valid()
      modifies registers
      ensures View() == WithDuty(old(View()), m, duty)
    {
      SetMotorOutputFromControl(m, duty, registers[DirectionReg(m)]);
    }

    method UpdateTargetRpmFromControl(m: Motor, rpm: Word16)
      requires Valid()
      modifies registers
      ensures View() == WithTargetRpm(old(View()), m, rpm)
    {
      StoreInt16(TargetRpmReg(m), rpm);
      RefreshStatus();
    }

    method UpdateHoldTarget(m: Motor, count: Int32)
      requires Valid()
      modifies registers
      ensures View() == WithHoldTarget(old(View()), m, count)
    {
      StoreInt32(HoldCountReg(m), count);
    }

    method UpdatePositionError(m: Motor, error: Int32)
      requires Valid()
      modifies registers
      ensures View() == WithPositionError(old(View()), m, error)
    {
      StoreInt32(PositionErrorReg(m), error);
      RefreshStatus();
    }

    method SetI2cAddress(address: Byte)
      requires Valid()
      modifies registers
      ensures View() == WithI2cAddress(old(View()), address)
    {
      registers[REG_I2C_ADDRESS] := address;
    }

    method ClearEncoderControl()
      requires Valid()
      modifies registers
      ensures View() == WithEncoderControlCleared(old(View()))
    {
      registers[REG_ENCODER_CONTROL] := 0;
    }
  }
}
