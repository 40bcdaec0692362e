/** What validation buys: which conditions can be added and run, and that no valid instruction waits forever unless it
    waits for a distance or for the CAN motor. */
module ActionValidity {
  import opened Arith
  import opened ActionCondition
  import opened ActionSpec
  import opened ActionLaws

  // ----- conditions -----

  /** The sources that are measured in numbers. */
  predicate Numeric(source: nat) { source in {8, 9, 14, 15, 16, 17, 19, 20, 21, 22, 23} }

  /** An order can be asked of the numeric sources alone, bits of the set of road paths alone, and equality of all but
      that one. */
  lemma ComparisonsBySource(source: nat, compare: nat)
    requires source < SOURCE_COUNT && compare <= 7
    ensures CompareAllowed(source, compare) <==>
            match compare
            case 0 => source != 12
            case 1 => source != 12
            case 6 => source == 12
            case 7 => source == 12
            case _ => Numeric(source)
  {
  }

  /** A number may be compared with any value nearer to zero than one it may be compared with; a state, a mode or a
      kind of road only with one of at most nine. */
  lemma ValuesBySource(source: nat, value: Int32, nearer: Int32, maxRpm: Word16)
    requires source < SOURCE_COUNT && ConditionValueInRange(source, value, maxRpm)
    ensures Numeric(source) && Abs(nearer) <= Abs(value) && (nearer >= 0 || source !in {9, 15, 16}) ==>
              ConditionValueInRange(source, nearer, maxRpm)
    ensures !Numeric(source) ==> 0 <= value <= 8 && (source == 12 ==> value != 0)
    ensures BooleanSource(source) ==> value <= 1
    ensures source in {19, 20} ==> -(maxRpm as int) <= value <= maxRpm
  {
  }

  /** What a condition must be beside its timing. */
  predicate Sensible(op: int, param1: Int32, c: Condition, maxRpm: Word16) {
    CompareAllowed(c.source, c.compare) && ConditionValueInRange(c.source, c.value, maxRpm) &&
    (if op == OP_CONDITION then param1 == 0 else Abs(param1) <= maxRpm) &&
    (c.stableMs == 0 || c.source !in {2, 4, 6})
  }

  /** A condition the interpreter lets in is valid exactly when source, comparison, value and speed make sense and a
      momentary press is not asked to be stable: its timing always is. */
  lemma AddedIsValid(op: int, param1: Int32, c: Condition, onSuccess: Byte, onTimeout: Byte, maxRpm: Word16)
    requires Acceptable(op, c)
    ensures CompareInstrValid(Encode(op, param1, c, onSuccess, onTimeout), maxRpm) <==> Sensible(op, param1, c, maxRpm)
  {
    hide Encode, Decode, CompareAllowed, ConditionValueInRange;
    ConditionRoundTrip(op, param1, c, onSuccess, onTimeout);
    EncodedFields(op, param1, c, onSuccess, onTimeout);
  }

  lemma EncodedFields(op: int, param1: Int32, c: Condition, onSuccess: Byte, onTimeout: Byte)
    ensures var i := Encode(op, param1, c, onSuccess, onTimeout); i.op == op && i.param1 == param1
  {
  }

  /** A valid comparison instruction makes sense, and could have been added so if its stable time, which validation
      does not limit, is at most a second. */
  lemma ValidCouldBeAdded(i: Instr, maxRpm: Word16)
    requires IsCompareOp(i.op) && CompareInstrValid(i, maxRpm)
    ensures Acceptable(i.op, Decode(i).value) <==> Decode(i).value.stableMs <= 1000
    ensures Sensible(i.op, i.param1, Decode(i).value, maxRpm)
  {
    hide CompareAllowed, ConditionValueInRange;
  }

  /** Such an instruction: always true, to be true for 1550 ms. */
  lemma LongStabilityIsValid(i: Instr, maxRpm: Word16)
    requires i == Instr(OP_CONDITION, 0, 0x8000 + 31 * 0x400 + 600, 0, 0, 255, 255)
    ensures InstrValid(i, maxRpm) && Decode(i).value.wait && Decode(i).value.stableMs == 1550 &&
            !Acceptable(i.op, Decode(i).value)
  {
  }

  /** What an instruction without a comparison may wait for. */
  lemma ConditionsByOperation(i: Instr, maxRpm: Word16)
    requires InstrValid(i, maxRpm) && !IsCompareOp(i.op)
    ensures i.until in (match i.op
                        case 1 => {0, 2, 3, 4}
                        case 2 => {1}
                        case 3 => {0, 2, 3, 4}
                        case 4 => {0, 2, 3, 4}
                        case 6 => {0, 2, 3, 4, 5}
                        case 8 => {6}
                        case 20 => {7, 8}
                        case _ => {5})
  {
  }

  // ----- the entry a failed validation reports -----

  lemma {:induction false} FirstBadIsFirst(program: seq<Instr>, from: nat, maxRpm: Word16)
    requires from <= |program|
    ensures var k := FirstBad(program, from, maxRpm);
            (forall j :: from <= j < |program| && j < k ==> EntryValid(program, j, maxRpm)) &&
            (k != 255 ==> from <= k < |program| && !EntryValid(program, k, maxRpm)) &&
            (k == 255 && |program| <= 64 ==> forall j :: from <= j < |program| ==> EntryValid(program, j, maxRpm))
    decreases |program| - from
  {
    hide EntryValid;
    if from < |program| && EntryValid(program, from, maxRpm) { FirstBadIsFirst(program, from + 1, maxRpm); }
  }

  /** Of a program with entries, and not too many, validation names the first bad one; of another it names none. */
  lemma ReportsFirstBad(program: seq<Instr>, maxRpm: Word16)
    requires !ProgramValid(program, maxRpm)
    ensures var k := FirstInvalid(program, maxRpm);
            if 1 <= |program| <= 64
            then k < |program| && !EntryValid(program, k, maxRpm) &&
                 forall j :: 0 <= j < k ==> EntryValid(program, j, maxRpm)
            else k == 255
  {
    hide EntryValid;
    FirstBadIsFirst(program, 0, maxRpm);
  }

  /** No valid instruction asks for more than the wheels, the compass or the CAN motor may do. */
  lemma MotionWithinLimits(i: Instr, maxRpm: Word16)
    requires InstrValid(i, maxRpm)
    ensures i.op in {1, 3, 16, 17} ==> -(maxRpm as int) <= i.param1 <= maxRpm
    ensures i.op == 8 ==> -10000 <= i.param1 <= 10000 && i.param1 != 0 && 1 <= i.param2 <= maxRpm
    ensures i.op == 19 ==> 1 <= i.param1 <= maxRpm && 0 <= i.value <= 6
    ensures i.op == 2 ==> -180 <= i.param1 <= 180
    ensures i.op == 20 ==> -12500 <= i.param1 <= 12500 && 1 <= i.param2 <= 20000 && 50 <= i.value <= 30000
    ensures i.op == 21 ==> -20000 <= i.param1 <= 20000 && i.param1 != 0
    ensures i.op == 18 ==> 1 <= i.param1 <= 1000
  {
    hide CompareAllowed, ConditionValueInRange;
  }

  /** What an instruction has no use for is zero, an output is one of the board's, and it is on for a tick at least or
      until switched off, off at once. */
  lemma UnusedAreZero(i: Instr, maxRpm: Word16)
    requires InstrValid(i, maxRpm)
    ensures i.op in {4, 5, 6, 7, 12, 13, 14, 15, 22} ==> i.param1 == 0
    ensures i.op in {5, 6, 7, 10, 13, 18, 22} ==> i.param2 == 0
    ensures i.op in {21, 22} ==> i.value == 0
    ensures i.op in {9, 10, 11} ==> i.param1 in {0, 2, 3}
    ensures i.op in {9, 11, 12, 14} ==> i.param2 == 0 || 50 <= i.param2 <= 30000
  {
    hide CompareAllowed, ConditionValueInRange;
  }

  /** An instruction of each kind that is valid. */
  function Examples(): seq<Instr> {
    [Instr(1, 100, 2000, 0, 0, 255, 255), Instr(2, 90, 2000, 1, 0, 255, 255), Instr(3, 100, 2000, 3, 0, 255, 255),
     Instr(4, 0, 500, 4, 0, 255, 255), Instr(5, 0, 0, 5, 0, 255, 255), Instr(6, 0, 0, 2, 0, 255, 255),
     Instr(8, 500, 100, 6, 0, 255, 255), Instr(9, 2, 50, 5, 0, 255, 255), Instr(10, 3, 0, 5, 0, 255, 255),
     Instr(11, 0, 50, 5, 0, 255, 255), Instr(12, 0, 50, 5, 0, 255, 255), Instr(13, 0, 0, 5, 0, 255, 255),
     Instr(14, 0, 50, 5, 0, 255, 255), Instr(19, 100, 2000, 5, 0, 255, 255), Instr(20, 90, 20, 7, 50, 255, 255),
     Instr(21, 90, 100, 5, 0, 255, 255), Instr(22, 0, 0, 5, 0, 255, 255)]
  }

  lemma ExamplesAreValid(k: nat, maxRpm: Word16)
    requires maxRpm >= 100 && k < |Examples()|
    ensures InstrValid(Examples()[k], maxRpm)
  {
  }

  // ----- jumps -----

  /** In a valid program every named exit is a place in it, so a run goes exactly where its instruction says; a loop
      has two such exits and always goes on. */
  lemma ExitsLeadIntoProgram(r: Runner, s: Runner, i: Instr, maxRpm: Word16)
    requires ProgramValid(r.program, maxRpm) && r.current < |r.program| && i == r.program[r.current]
    ensures TakesExit(r, s, i.onSuccess, true) && (i.onSuccess != 255 || i.op == 18) ==>
              s.running && s.current == i.onSuccess < |r.program|
    ensures TakesExit(r, s, i.onTimeout, i.op == 18) && (i.onTimeout != 255 || i.op == 18) ==>
              s.running && s.current == i.onTimeout < |r.program|
  {
    hide InstrValid;
    assert EntryValid(r.program, r.current, maxRpm);
  }

  /** A valid program: drive for a second, three times over, and end. */
  lemma DriveThriceIsValid(program: seq<Instr>, maxRpm: Word16)
    requires program == [Instr(1, 100, 1000, 0, 0, 255, 2), Instr(18, 3, 0, 5, 0, 0, 2), Instr(7, 0, 0, 5, 0, 255, 255)]
    ensures ProgramValid(program, maxRpm) <==> maxRpm >= 100
  {
    assert EntryValid(program, 1, maxRpm) && EntryValid(program, 2, maxRpm);
    assert EntryValid(program, 0, maxRpm) <==> maxRpm >= 100;
  }

  // ----- time -----

  /** The times of a road manoeuvre and of a speed run are whole ticks, and of any plain wait at most 30 seconds. */
  lemma TimesAreTicks(i: Instr, maxRpm: Word16)
    requires InstrValid(i, maxRpm)
    ensures i.op in {19, 21} ==> exists k :: 1 <= k <= 600 && i.param2 == 50 * k
    ensures i.op in {1, 2, 3} ==> 1 <= i.param2 <= 30000
    ensures i.op == 4 || 9 <= i.op <= 14 ==> 0 <= i.param2 <= 30000
  {
    if i.op in {19, 21} { assert i.param2 == 50 * (i.param2 / 50); }
  }

  /** Whatever it is waiting for, a valid instruction is over, one way or the other, at the first update more than 30
      seconds after its start, but for a distance run and the operations of the CAN motor. */
  lemma ValidInstructionEnds(r: Runner, e: Env, i: Instr, maxRpm: Word16)
    requires Reaches(r, e, i) && InstrValid(i, maxRpm) && i.op !in {7, 8, 18, 20, 21, 22}
    requires Wrap32(e.now - r.instrStart) > 30000
    ensures !Waits(r, Update(r, e))
  {
    hide Update, InstrValid, Evaluate, StopUnlessContinued;
    StopUnlessContinuedKeeps(r);
    OutcomeTakesExit(r, e, i);
    EndsInTime(StopUnlessContinued(r), e, i, maxRpm);
  }

  lemma EndsInTime(r: Runner, e: Env, i: Instr, maxRpm: Word16)
    requires InstrValid(i, maxRpm) && i.op !in {7, 8, 18, 20, 21, 22} && Wrap32(e.now - r.instrStart) > 30000
    ensures Evaluate(r, i, e).1 != Running
  {
    hide Decode, CompareAllowed, ConditionValueInRange, CompareValue;
  }
}
