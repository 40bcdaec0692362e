/** Which way the position law drives. */
module PositionLaw {
  import opened Arith
  import opened RegisterSpec
  import opened RegisterInvariants
  import opened ControlSpec
  import opened DivLemmas
  import opened AppFrames
  import opened AppSpec

  /** Proportional control only, and nothing integrated so far. */
  predicate Proportional(r: RegBytes, p: Pid) {
    r[REG_POSITION_KP] != 0 && r[REG_POSITION_KI] == 0 && r[REG_POSITION_KD] == 0 && p.positionIntegralQ4 == 0 &&
    LoadUint16(r, REG_POSITION_MAX_RPM) > 0
  }

  function TargetOf(r: RegBytes, p: Pid, m: Motor): Int32 {
    if HoldMode(r, m) then p.holdCount else LoadInt32(r, TargetPositionReg(m))
  }

  /** The step's last operation sets the output; in this direction. */
  function DirectionOf(s: ControlResult): Byte
    requires |s.ops| > 0 && s.ops[|s.ops| - 1].SetOutput?
  {
    s.ops[|s.ops| - 1].direction
  }

  lemma TermSign(error: Int32, gain: Byte, countsPerRev: Word32)
    requires gain != 0 && countsPerRev != 0
    ensures PositionTermQ4(error, gain, countsPerRev) < 0 <==> error < 0 && Abs(error) * gain * 60 >= countsPerRev
  {
    hide TruncDiv;
    var x := error * (gain as int) * 60;
    TruncDivSign(x, countsPerRev);
    if error >= 0 {
      NonNegativeProduct(error, gain);
    } else {
      NonNegativeProduct(Abs(error), gain);
      assert -x == Abs(error) * gain * 60;
    }
  }

  lemma NonNegativeProduct(a: nat, b: nat)
    ensures a * b >= 0
  {
  }

  lemma TruncDivSign(x: int, n: nat)
    requires n > 0
    ensures TruncDiv(x, n) < 0 <==> x < 0 && -x >= n
  {
    if x >= 0 {
      DivAtLeast(x, n, 0);
    } else if -x < n {
      DivBelow(-x, n, 1);
      DivAtLeast(-x, n, 0);
    } else {
      DivAtLeast(-x, n, 1);
    }
  }

  lemma TrackingKeepsIntegral(r: RegBytes, p: Pid, error: Int32, now: Word32)
    requires p.positionIntegralQ4 == 0
    ensures TargetTracking(r, p, error, now).positionIntegralQ4 == 0
    ensures !TargetTracking(r, p, error, now).atTarget ==> Abs(error) > LoadUint16(r, REG_POSITION_TOLERANCE)
  {
  }

  lemma CommandSign(r: RegBytes, p: Pid, error: Int32, countsPerRev: Word32)
    requires Proportional(r, p) && countsPerRev != 0
    ensures PositionIntegral(r, 0, error, countsPerRev) == 0
    ensures PositionCommandQ4(r, 0, error, p.previousPositionError, countsPerRev) < 0 <==>
            error < 0 && Abs(error) * r[REG_POSITION_KP] * 60 >= countsPerRev
  {
    TermSign(error, r[REG_POSITION_KP], countsPerRev);
  }

  /** Away from its target the position law drives toward it, except that a negative error too small to give a
      command of its own is corrected forwards, which is the wrong way. */
  lemma DrivesTowardTarget(r: RegBytes, p: Pid, m: Motor, count: Int32, countsPerRev: Word32, now: Word32, error: Int32)
    requires Proportional(r, p) && countsPerRev != 0 && error == SaturateInt32(TargetOf(r, p, m) - count)
    requires !PositionStep(r, p, m, count, countsPerRev, now).pid.atTarget
    ensures var s := PositionStep(r, p, m, count, countsPerRev, now);
            error != 0 && |s.ops| > 0 && s.ops[|s.ops| - 1].SetOutput? &&
            ((DirectionOf(s) == 1 <==> error < 0) <==>
             error > 0 || Abs(error) * r[REG_POSITION_KP] * 60 >= countsPerRev)
  {
    hide PositionDuty, PositionRpm, PositionCommandQ4, PositionIntegral, LoadUint16, LoadInt32;
    TrackingKeepsIntegral(r, p, error, now);
    CommandSign(r, p, error, countsPerRev);
  }

  // ----- any gains -----

  /** The three terms of the law before the limit, with the integral the step keeps. */
  function Demand(r: RegBytes, p: Pid, error: Int32, countsPerRev: Word32, now: Word32): int {
    PositionTermQ4(error, r[REG_POSITION_KP], countsPerRev) +
    PositionIntegral(r, TargetTracking(r, p, error, now).positionIntegralQ4, error, countsPerRev) +
    PositionTermQ4(SaturateInt32(error - p.previousPositionError), r[REG_POSITION_KD], countsPerRev)
  }

  /** With any gains and any history the law drives toward its target exactly when the three terms together have
      the sign of the error; the limit on the command does not change that unless it is zero. */
  lemma DrivesByDemand(r: RegBytes, p: Pid, m: Motor, count: Int32, countsPerRev: Word32, now: Word32, error: Int32)
    requires LoadUint16(r, REG_POSITION_MAX_RPM) > 0 && error == SaturateInt32(TargetOf(r, p, m) - count)
    requires !PositionStep(r, p, m, count, countsPerRev, now).pid.atTarget
    ensures var s := PositionStep(r, p, m, count, countsPerRev, now);
            error != 0 && |s.ops| > 0 && s.ops[|s.ops| - 1].SetOutput? &&
            ((DirectionOf(s) == 1 <==> error < 0) <==> (Demand(r, p, error, countsPerRev, now) < 0 <==> error < 0))
  {
    hide PositionDuty, PositionRpm, PositionTermQ4, PositionIntegral, LoadUint16, LoadInt32;
    TrackingLeavesOutside(r, p, error, now);
  }

  lemma TrackingLeavesOutside(r: RegBytes, p: Pid, error: Int32, now: Word32)
    requires !TargetTracking(r, p, error, now).atTarget
    ensures Abs(error) > LoadUint16(r, REG_POSITION_TOLERANCE)
  {
  }

  // ----- a motor that runs away -----

  /** Registers the example depends on; no control step of the motor changes them. */
  predicate Tuning(reg: int) {
    reg == 0x10 || 0x40 <= reg <= 0x43 || 0x50 <= reg <= 0x53 || 0x60 <= reg <= 0x66 || 0x68 <= reg <= 0x69
  }

  predicate SameTuning(f: RegFile, g: RegFile) {
    forall reg :: 0 <= reg < REGISTER_COUNT && Tuning(reg) ==> f.regs[reg] == g.regs[reg]
  }

  lemma OwnedKeepTuning(f: RegFile, op: RegOp)
    requires Owned(op, M1)
    ensures SameTuning(f, Apply(f, op))
  {
    hide Apply, Owned;
    forall reg: nat | reg < REGISTER_COUNT && Tuning(reg) ensures f.regs[reg] == Apply(f, op).regs[reg] {
      OwnedKeepsTuningByte(f, op, reg);
    }
  }

  lemma OwnedKeepsTuningByte(f: RegFile, op: RegOp, reg: nat)
    requires Owned(op, M1) && reg < REGISTER_COUNT && Tuning(reg)
    ensures Apply(f, op).regs[reg] == f.regs[reg]
  {
    if Reporting(op) {
      hide Apply, Owned;
      ReportingKeeps(f, op, reg);
    }
  }

  lemma {:induction false} OwnedRunKeepsTuning(f: RegFile, ops: seq<RegOp>)
    requires forall i :: 0 <= i < |ops| ==> Owned(ops[i], M1)
    ensures SameTuning(f, Run(f, ops))
    decreases |ops|
  {
    if ops != [] {
      OwnedKeepTuning(f, ops[0]);
      OwnedRunKeepsTuning(Apply(f, ops[0]), ops[1..]);
    }
  }

  /** Position mode, target 0, gain 1, 40 rpm at most, tolerance 10. */
  predicate Tuned(r: RegBytes) {
    PositionMode(r, M1) && LoadInt32(r, TargetPositionReg(M1)) == 0 && LoadUint32(r, CountsPerRevReg(M1)) == 1456 &&
    r[REG_POSITION_KP] == 1 && r[REG_POSITION_KI] == 0 && r[REG_POSITION_KD] == 0 &&
    LoadUint16(r, REG_POSITION_MAX_RPM) == 40 && LoadUint16(r, REG_POSITION_TOLERANCE) == 10 &&
    r[REG_POSITION_MIN_DUTY] == 5 && r[REG_POSITION_MAX_DUTY] == 25
  }

  lemma TuningDetermines(f: RegFile, g: RegFile)
    requires SameTuning(f, g) && Tuned(f.regs)
    ensures Tuned(g.regs)
  {
    assert forall reg :: 0x50 <= reg <= 0x53 || 0x40 <= reg <= 0x43 || 0x60 <= reg <= 0x66 || 0x68 <= reg <= 0x69 ==>
           Tuning(reg);
    assert Tuning(0x10);
  }

  /** The power-on registers after two writes: position gains, limit and tolerance, then the mode. */
  function TunedFile(): RegFile {
    Committed(Committed(Initial(), 0x60, [1, 0, 0, 40, 0, 10, 0]), 0x10, [MODE_POSITION])
  }

  lemma GainsWritten(f: RegFile, g: RegFile, data: seq<Byte>)
    requires f == Initial() && data == [1, 0, 0, 40, 0, 10, 0] && g == Committed(f, 0x60, data)
    ensures CommitAccepted(0x60, data)
    ensures forall reg :: 0x60 <= reg < 0x67 ==> g.regs[reg] == data[reg - 0x60]
    ensures forall reg :: 0x40 <= reg <= 0x43 || 0x50 <= reg <= 0x53 || 0x68 <= reg <= 0x69 ==>
            g.regs[reg] == InitialByte(reg)
  {
    var r := Merged(f.regs, 0x60, data);
    assert Normalized(r, 0x60, 7) == r;
    assert forall reg :: 0x60 <= reg < 0x67 ==> r[reg] == data[reg - 0x60];
  }

  lemma ModeWritten(f: RegFile, g: RegFile, data: seq<Byte>)
    requires data == [MODE_POSITION] && g == Committed(f, 0x10, data)
    ensures CommitAccepted(0x10, data) && PositionMode(g.regs, M1)
    ensures forall reg :: reg != 0x10 && Tuning(reg) ==> g.regs[reg] == f.regs[reg]
  {
    var r := Merged(f.regs, 0x10, data);
    assert Normalized(r, 0x10, 1) == ClearTargetRpm(r[DutyReg(M1) := 0], M1);
    assert r[0x10] == data[0];
  }

  lemma FileIsTuned()
    ensures Tuned(TunedFile().regs)
  {
    var gains: seq<Byte> := [1, 0, 0, 40, 0, 10, 0];
    var f, g := Initial(), Committed(Initial(), 0x60, gains);
    GainsWritten(f, g, gains);
    ModeWritten(g, TunedFile(), [MODE_POSITION]);
    TunedBytes(TunedFile().regs, g.regs, gains);
  }

  lemma TunedBytes(r: RegBytes, g: RegBytes, gains: seq<Byte>)
    requires PositionMode(r, M1) && gains == [1, 0, 0, 40, 0, 10, 0]
    requires forall reg :: reg != 0x10 && Tuning(reg) ==> r[reg] == g[reg]
    requires forall reg :: 0x60 <= reg < 0x67 ==> g[reg] == gains[reg - 0x60]
    requires forall reg :: 0x40 <= reg <= 0x43 || 0x50 <= reg <= 0x53 || 0x68 <= reg <= 0x69 ==>
             g[reg] == InitialByte(reg)
    ensures Tuned(r)
  {
    assert g[0x60] == 1 && g[0x61] == 0 && g[0x62] == 0 && g[0x63] == 40 && g[0x64] == 0 && g[0x65] == 10 &&
           g[0x66] == 0;
    assert Tuning(0x60) && Tuning(0x61) && Tuning(0x62) && Tuning(0x63) && Tuning(0x64) && Tuning(0x65) && Tuning(0x66);
    assert Tuning(0x40) && Tuning(0x41) && Tuning(0x42) && Tuning(0x43) && Tuning(0x68) && Tuning(0x69);
    assert Tuning(0x50) && Tuning(0x51) && Tuning(0x52) && Tuning(0x53);
  }

  /** A new position command 20 counts past its target: the output is switched off and the error noted. */
  lemma FirstStep(r: RegBytes)
    requires Tuned(r)
    ensures var s := ControlStep(r, FRESH_PID, M1, 20, 0, 0);
            s == Restart(r, FRESH_PID, M1, 20, 0) && s.pid.previousPositionError == -20 && !s.pid.atTarget &&
            s.pid.positionIntegralQ4 == 0 && s.pid.lastUpdateMs == 0 && !NeedsRestart(r, s.pid, M1)
  {
    hide LoadUint16, LoadInt32, LoadUint32;
  }

  /** One period later, with the motor still there, it is driven forwards, away from the target. */
  lemma SecondStep(r: RegBytes, p: Pid)
    requires Tuned(r) && p.previousPositionError == -20 && !p.atTarget && p.positionIntegralQ4 == 0 &&
             p.lastUpdateMs == 0
    requires !NeedsRestart(r, p, M1)
    ensures var s := ControlStep(r, p, M1, 20, 0, 100);
            |s.ops| == 3 && s.ops[2].SetOutput? && s.ops[2].duty > 0 && s.ops[2].direction == 0
  {
    hide LoadUint16, LoadInt32, LoadUint32;
    assert PositionTermQ4(-20, 1, 1456) == 0;
    assert RoundedShare(1, 20, 40) == 1;
  }

  lemma RestartDepends(f: RegFile, g: RegFile, p: Pid)
    requires SameTuning(f, g)
    ensures NeedsRestart(f.regs, p, M1) == NeedsRestart(g.regs, p, M1) || !PositionMode(f.regs, M1)
  {
    assert Tuning(0x10) && Tuning(0x50) && Tuning(0x51) && Tuning(0x52) && Tuning(0x53);
  }

  lemma AfterFirstStep(f: RegFile, first: ControlResult, g: RegFile)
    requires Tuned(f.regs) && first == ControlStep(f.regs, FRESH_PID, M1, 20, 0, 0) && g == Run(f, first.ops)
    ensures Tuned(g.regs) && !NeedsRestart(g.regs, first.pid, M1)
    ensures first.pid.previousPositionError == -20 && !first.pid.atTarget && first.pid.positionIntegralQ4 == 0 &&
            first.pid.lastUpdateMs == 0
  {
    hide ControlStep, Tuned, NeedsRestart, SameTuning, Restart, Owned, Run, PositionMode;
    FirstStep(f.regs);
    TunedTarget(f.regs);
    ControlOpsOwned(f.regs, FRESH_PID, M1, 20, 0, 0);
    OwnedRunKeepsTuning(f, first.ops);
    TuningDetermines(f, g);
    RestartDepends(f, g, first.pid);
  }

  /** The wrong way happens: registers written over power-on values, a motor at rest 20 counts past its target, and
      the second control step drives it on, forwards. */
  lemma SmallErrorDrivesAway(f: RegFile, first: ControlResult, second: ControlResult)
    requires f == TunedFile() && first == ControlStep(f.regs, FRESH_PID, M1, 20, 0, 0)
    requires second == ControlStep(Run(f, first.ops).regs, first.pid, M1, 20, 0, 100)
    ensures LoadInt32(f.regs, TargetPositionReg(M1)) == 0
    ensures |second.ops| == 3 && second.ops[2].SetOutput? && second.ops[2].duty > 0 && second.ops[2].direction == 0
  {
    hide TunedFile, ControlStep, Tuned, NeedsRestart, Run, LoadInt32, FRESH_PID;
    FileIsTuned();
    TunedTarget(f.regs);
    AfterFirstStep(f, first, Run(f, first.ops));
    SecondStep(Run(f, first.ops).regs, first.pid);
  }

  lemma TunedTarget(r: RegBytes)
    requires Tuned(r)
    ensures LoadInt32(r, TargetPositionReg(M1)) == 0 && PositionMode(r, M1)
  {
  }
}
