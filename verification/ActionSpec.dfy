/** The sequence interpreter as a state machine on values: validation of a program and one update of a run. */
module ActionSpec {
  import opened Arith
  import opened ActionCondition

  const MAX_INSTRS: nat := 64
  const ACT_NEXT: Byte := 255
  const SEQUENCE_TIMEOUT_MS: nat := 300000
  const MAX_LOOP_COUNT: int := 1000
  const MAX_DM_VELOCITY: int := 20000
  const DM_POSITION_LIMIT: int := 12500
  const MAX_DURATION_MS: int := 30000

  const UNTIL_TIMEOUT: int := 0
  const UNTIL_HEADING: int := 1
  const UNTIL_LINE: int := 2
  const UNTIL_NO_LINE: int := 3
  const UNTIL_BUTTON: int := 4
  const UNTIL_IMMEDIATE: int := 5
  const UNTIL_DISTANCE: int := 6
  const UNTIL_DM_ABSOLUTE: int := 7
  const UNTIL_DM_RELATIVE: int := 8

  // ----- validation -----

  predicate Sensed(until: int) {
    until == UNTIL_TIMEOUT || until == UNTIL_LINE || until == UNTIL_NO_LINE || until == UNTIL_BUTTON
  }

  predicate Duration(ms: int) { 0 < ms <= MAX_DURATION_MS }
  predicate TickedDuration(ms: int) { TICK_MS <= ms <= MAX_DURATION_MS && ms % TICK_MS == 0 }
  predicate PressedSource(source: nat) { source == 2 || source == 4 || source == 6 }
  predicate BooleanSource(source: nat) { 1 <= source <= 7 || source == 13 || source == 18 || source == 24 }
  predicate EnumSource(source: nat) { source == 10 || source == 11 || 25 <= source <= 27 }

  predicate CompareAllowed(source: nat, compare: nat) {
    if source == 12 then compare == CONTAINS || compare == NOT_CONTAINS
    else if BooleanSource(source) || EnumSource(source) || source == 0 then compare <= 1
    else compare <= 5
  }

  predicate ConditionValueInRange(source: nat, value: Int32, maxRpm: Word16) {
    if BooleanSource(source) || source == 0 then value == 0 || value == 1
    else match source
      case 8 => -3500 <= value <= 3500
      case 9 => 0 <= value <= 1000
      case 10 => 0 <= value <= 8
      case 11 => 0 <= value <= 8
      case 12 => 1 <= value <= 7
      case 14 => -180000 <= value <= 180000
      case 15 => 0 <= value <= 360000
      case 16 => 0 <= value <= 360000
      case 17 => -2000000 <= value <= 2000000
      case 19 => Abs(value) <= maxRpm
      case 20 => Abs(value) <= maxRpm
      case 21 => Abs(value) <= 10000
      case 22 => Abs(value) <= 10000
      case 23 => Abs(value) <= 10000
      case 25 => 0 <= value <= 5
      case 26 => 0 <= value <= 2
      case 27 => 0 <= value <= 4
      case _ => false
  }

  predicate CompareInstrValid(i: Instr, maxRpm: Word16) {
    Decode(i).Some? &&
    var c := Decode(i).value;
    CompareAllowed(c.source, c.compare) && ConditionValueInRange(c.source, c.value, maxRpm) &&
    (PressedSource(c.source) ==> c.stableMs == 0) &&
    if i.op == OP_CONDITION then
      i.param1 == 0 && (if !c.wait then c.timeoutMs == 0 && c.stableMs == 0
                        else TICK_MS <= c.timeoutMs <= MAX_TIMEOUT_MS)
    else Abs(i.param1) <= maxRpm && TICK_MS <= c.timeoutMs <= MAX_TIMEOUT_MS
  }

  predicate OutputValid(i: Instr, targets: set<int>, off: bool) {
    i.param1 in targets && 0 <= i.param2 <= MAX_DURATION_MS && (i.param2 == 0 || i.param2 >= TICK_MS) &&
    (off ==> i.param2 == 0) && i.until == UNTIL_IMMEDIATE
  }

  /** Operation, parameters and condition of one instruction are in range. */
  predicate InstrValid(i: Instr, maxRpm: Word16) {
    OP_DRIVE <= i.op <= OP_DM_DISABLE && (!IsCompareOp(i.op) ==> UNTIL_TIMEOUT <= i.until <= UNTIL_DM_RELATIVE) &&
    match i.op
    case 1 => Abs(i.param1) <= maxRpm && Sensed(i.until) && Duration(i.param2)
    case 2 => Abs(i.param1) <= 180 && Duration(i.param2) && i.until == UNTIL_HEADING
    case 3 => Abs(i.param1) <= maxRpm && Duration(i.param2) && Sensed(i.until)
    case 4 => i.param1 == 0 && 0 <= i.param2 <= MAX_DURATION_MS && Sensed(i.until)
    case 5 => i.param1 == 0 && i.param2 == 0 && i.until == UNTIL_IMMEDIATE
    case 6 => i.param1 == 0 && i.param2 == 0 && (Sensed(i.until) || i.until == UNTIL_IMMEDIATE)
    case 7 => i.param1 == 0 && i.param2 == 0 && i.until == UNTIL_IMMEDIATE
    case 8 => i.param1 != 0 && Abs(i.param1) <= 10000 && 0 < i.param2 <= maxRpm && i.until == UNTIL_DISTANCE
    case 9 => OutputValid(i, {0, 2, 3}, false)
    case 10 => OutputValid(i, {0, 2, 3}, true)
    case 11 => OutputValid(i, {0, 2, 3}, false)
    case 12 => OutputValid(i, {0}, false)
    case 13 => OutputValid(i, {0}, true)
    case 14 => OutputValid(i, {0}, false)
    case 18 => 1 <= i.param1 <= MAX_LOOP_COUNT && i.param2 == 0 && i.until == UNTIL_IMMEDIATE
    case 19 => 1 <= i.param1 <= maxRpm && TickedDuration(i.param2) && i.until == UNTIL_IMMEDIATE && 0 <= i.value < 7
    case 20 => Abs(i.param1) <= DM_POSITION_LIMIT && 0 < i.param2 <= MAX_DM_VELOCITY && TickedDuration(i.value) &&
               (i.until == UNTIL_DM_ABSOLUTE || i.until == UNTIL_DM_RELATIVE)
    case 21 => i.param1 != 0 && Abs(i.param1) <= MAX_DM_VELOCITY && TickedDuration(i.param2) &&
      i.until == UNTIL_IMMEDIATE && i.value == 0
    case 22 => i.param1 == 0 && i.param2 == 0 && i.until == UNTIL_IMMEDIATE && i.value == 0
    case _ => CompareInstrValid(i, maxRpm)
  }

  /** Jump targets lie inside the program; a loop names both of its exits. */
  predicate TargetsValid(i: Instr, count: nat) {
    (i.onSuccess < count || (i.onSuccess == ACT_NEXT && i.op != OP_LOOP)) &&
    (i.onTimeout < count || (i.onTimeout == ACT_NEXT && i.op != OP_LOOP))
  }

  predicate EntryValid(program: seq<Instr>, k: nat, maxRpm: Word16)
    requires k < |program|
  {
    InstrValid(program[k], maxRpm) && TargetsValid(program[k], |program|)
  }

  predicate ProgramValid(program: seq<Instr>, maxRpm: Word16) {
    0 < |program| <= MAX_INSTRS && forall k :: 0 <= k < |program| ==> EntryValid(program, k, maxRpm)
  }

  // ----- a run -----

  datatype Result = Idle | Active | Succeeded | Aborted | Cancelled | Fault | TimedOut | Invalid
  datatype Failure =
    | NoFailure | StartFailed | InstrTimeout | SequenceTimeout | FaultRaised | CancelRequested | NotValid
    | ConditionFalse | ConditionTimeout | ConditionUnavailable | NoRoute | NotReacquired

  /** `moving` says that a motion primitive may be driving the chassis, `dm` that the CAN motor may be enabled.
      `bodies` and `exits` are history: jumps into the body and out of each loop since the run started. */
  datatype Runner = Runner(
    program: seq<Instr>, current: nat, running: bool, started: bool, preserve: bool,
    sequenceStart: Word32, instrStart: Word32, loops: seq<nat>, window: Window,
    result: Result, lastSuccess: bool, failure: Failure, failureIndex: nat,
    moving: bool, dm: bool, bodies: seq<nat>, exits: seq<nat>)

  datatype DmResult = DmRunning | DmSuccess | DmTargetTimeout | DmStopTimeout | DmOther
  datatype RouteResult =
    | RouteRunning | RouteSuccess | RouteUnavailable | RouteReacquireFailed | RouteTimeout | RouteOther

  /** What one update sees of the rest of the robot. */
  datatype Env = Env(now: Word32, fault: bool, startOk: bool, until: bool, reading: Option<Int32>,
                     route: RouteResult, dm: DmResult, dmSpeeding: bool, dmStops: bool)

  function NoLoops(): (loops: seq<nat>) { seq(MAX_INSTRS, i => 0) }

  predicate IsMotion(op: int) {
    op == OP_DRIVE || op == OP_TURN || op == OP_FOLLOW || op == OP_ROAD_NAV || op == OP_DRIVE_IF ||
    op == OP_FOLLOW_IF || op == OP_DRIVE_MM
  }

  /** Operations that may follow a road manoeuvre without stopping. */
  predicate Continues(op: int) { op == OP_ROAD_NAV || op == OP_LOOP }

  function StopAll(r: Runner): (after: Runner)
    ensures after.program == r.program
  {
    r.(moving := false, preserve := false)
  }

  /** What both ways of ending a run have in common. */
  function Ended(r: Runner): (after: Runner)
    ensures after.program == r.program
  {
    StopAll(r).(running := false, dm := false, window := IDLE_WINDOW, loops := NoLoops())
  }

  function Finish(r: Runner): (after: Runner)
    ensures after.program == r.program
  {
    Ended(r).(lastSuccess := true, result := Succeeded, failure := NoFailure, failureIndex := ACT_NEXT)
  }

  function Abort(r: Runner): (after: Runner)
    ensures after.program == r.program
  {
    Ended(r).(lastSuccess := false, result := if r.result == Active then Aborted else r.result)
  }

  function Goto(r: Runner, target: Byte, success: bool): (after: Runner)
    ensures after.program == r.program
  {
    var s := r.(instrStart := 0, started := false);
    if target != ACT_NEXT && target < |r.program| then s.(current := target)
    else if !success then Abort(s)
    else
      var t := s.(current := r.current + 1);
      if t.current >= |r.program| then Finish(t) else t
  }

  /** A preserved road manoeuvre ends unless the next instruction continues it. */
  function StopUnlessContinued(r: Runner): (after: Runner)
    ensures after.program == r.program
  {
    if r.running && r.preserve && r.current < |r.program| && !Continues(r.program[r.current].op) then StopAll(r) else r
  }

  function Failed(r: Runner, result: Result, failure: Failure): (after: Runner)
    ensures after.program == r.program
  {
    r.(result := result, failure := failure, failureIndex := r.current)
  }

  function Start(r: Runner, maxRpm: Word16, fault: bool, now: Word32): Runner {
    var s := r.(loops := NoLoops(), bodies := NoLoops(), exits := NoLoops());
    if r.running then r
    else if !ProgramValid(r.program, maxRpm)
    then s.(result := Invalid, failure := NotValid, failureIndex := FirstInvalid(r.program, maxRpm))
    else if fault then s.(result := Fault, failure := FaultRaised, failureIndex := ACT_NEXT)
    else s.(current := 0, running := true, lastSuccess := false, result := Active, failure := NoFailure,
            failureIndex := ACT_NEXT, sequenceStart := now, instrStart := 0, started := false, window := IDLE_WINDOW,
            preserve := false)
  }

  /** The entry a failed validation reports: the first bad instruction, or the table itself. */
  function FirstInvalid(program: seq<Instr>, maxRpm: Word16): nat {
    if |program| == 0 || |program| > MAX_INSTRS then ACT_NEXT else FirstBad(program, 0, maxRpm)
  }

  function FirstBad(program: seq<Instr>, from: nat, maxRpm: Word16): nat
    requires from <= |program|
    decreases |program| - from
  {
    if from == |program| then ACT_NEXT
    else if EntryValid(program, from, maxRpm) then FirstBad(program, from + 1, maxRpm)
    else from
  }

  function Cancel(r: Runner): Runner {
    Abort(r.(result := Cancelled, failure := CancelRequested,
             failureIndex := if r.running then r.current else ACT_NEXT))
  }

  // ----- one instruction -----

  /** Starting an instruction may set motion going even if it then reports failure. */
  function Launched(r: Runner, i: Instr): (after: Runner)
    ensures after.program == r.program
  {
    var s := if IsCompareOp(i.op) then r.(window := IDLE_WINDOW) else r;
    if i.op == OP_STOP then StopAll(s)
    else s.(moving := s.moving || IsMotion(i.op), dm := s.dm || i.op == OP_DM_POSITION || i.op == OP_DM_SPEED)
  }

  predicate AlwaysStarts(op: int) {
    op == OP_WAIT || op == OP_STOP || op == OP_BRANCH || op == OP_CONDITION || op == OP_LOOP || op == OP_END
  }

  predicate Starts(i: Instr, e: Env) {
    AlwaysStarts(i.op) || (OP_DRIVE <= i.op <= OP_DM_DISABLE && e.startOk && (i.op == OP_FOLLOW_IF ==> Decode(i).Some?))
  }

  /** The failure exit of an instruction: everything stops, then the recovery target, or the run ends. */
  function Retreat(r: Runner, i: Instr, f: Failure): (after: Runner)
    ensures after.program == r.program
  {
    Goto(StopAll(r).(lastSuccess := false, failure := f, failureIndex := r.current), i.onTimeout, false)
  }

  /** The success exit: everything stops, except that a road manoeuvre may flow into the next one. */
  function Proceed(r: Runner, i: Instr): (after: Runner)
    ensures after.program == r.program
  {
    var s := if i.op == OP_ROAD_NAV then r.(preserve := true) else StopAll(r);
    StopUnlessContinued(
      Goto(s.(lastSuccess := true, failure := NoFailure, failureIndex := ACT_NEXT), i.onSuccess, true))
  }

  function Begun(r: Runner, i: Instr, e: Env): (after: Runner)
    ensures after.program == r.program
  {
    r.(instrStart := e.now, started := true, preserve := r.preserve && i.op != OP_ROAD_NAV)
  }

  function Bumped(counts: seq<nat>, k: nat): seq<nat>
  {
    if k < |counts| then counts[k := counts[k] + 1] else counts
  }

  /** A loop's count as the 16-bit variable it is compared with holds it. */
  function LoopCount(i: Instr): Word16 { i.param1 % 0x1_0000 }

  function EnterBody(r: Runner): (after: Runner)
    ensures after.program == r.program
  {
    r.(loops := Bumped(r.loops, r.current), bodies := Bumped(r.bodies, r.current))
  }

  function LeaveLoop(r: Runner): (after: Runner)
    requires r.current < |r.loops|
    ensures after.program == r.program
  {
    r.(loops := r.loops[r.current := 0], exits := Bumped(r.exits, r.current))
  }

  function LoopStep(r: Runner, i: Instr): (after: Runner)
    requires r.current < |r.loops|
    ensures after.program == r.program
  {
    var s := (if r.preserve then r else StopAll(r))
      .(lastSuccess := true, failure := NoFailure, failureIndex := ACT_NEXT);
    StopUnlessContinued(
      if r.loops[r.current] < LoopCount(i) then Goto(EnterBody(s), i.onSuccess, true)
      else Goto(LeaveLoop(s), i.onTimeout, true))
  }

  function EvalRoute(r: Runner, i: Instr, e: Env): Outcome {
    match e.route
    case RouteRunning => if Wrap32(e.now - r.instrStart) > Wrap32(i.param2) then Timeout else Running
    case RouteSuccess => Success
    case RouteUnavailable => Outcome.RouteUnavailable
    case RouteReacquireFailed => ReacquireFailed
    case RouteTimeout => Timeout
    case RouteOther => Faulted
  }

  function EvalDm(r: Runner, i: Instr, e: Env): Outcome {
    if i.op == OP_DM_SPEED && Wrap32(e.now - r.instrStart) < Wrap32(i.param2) then Running
    else if i.op == OP_DM_SPEED && e.dmSpeeding then (if e.dmStops then Running else Faulted)
    else match e.dm
      case DmRunning => Running
      case DmSuccess => Success
      case DmTargetTimeout => if i.op == OP_DM_POSITION then Timeout else Faulted
      case DmStopTimeout => if i.op == OP_DM_SPEED then Timeout else Faulted
      case DmOther => Faulted
  }

  /** Whether a plain condition holds: some are constants, the rest the robot answers. */
  predicate EvalCond(until: int, e: Env) {
    until == UNTIL_IMMEDIATE || (until != UNTIL_TIMEOUT && UNTIL_HEADING <= until <= UNTIL_DISTANCE && e.until)
  }

  function EvalPlain(r: Runner, i: Instr, e: Env): Outcome {
    var elapsed := Wrap32(e.now - r.instrStart);
    if i.until == UNTIL_TIMEOUT then (if elapsed >= Wrap32(i.param2) then Success else Running)
    else if elapsed > Wrap32(i.param2) then Timeout
    else if EvalCond(i.until, e) then Success else Running
  }

  function Evaluate(r: Runner, i: Instr, e: Env): (Window, Outcome) {
    if i.op == OP_STOP || i.op == OP_END then (r.window, Success)
    else if i.op == OP_BRANCH then (r.window, if EvalCond(i.until, e) then Success else Timeout)
    else if IsCompareOp(i.op) then
      (if Decode(i).None? then (r.window, Unavailable)
       else Look(Decode(i).value, r.window, r.instrStart, e.now, e.reading))
    else if i.op == OP_ROAD_NAV then (r.window, EvalRoute(r, i, e))
    else if i.op == OP_DRIVE_MM then (r.window, if e.until then Success else Running)
    else if OP_DM_POSITION <= i.op <= OP_DM_DISABLE then (r.window, EvalDm(r, i, e))
    else (r.window, EvalPlain(r, i, e))
  }

  function FailureOf(op: int, o: Outcome): Failure {
    match o
    case RouteUnavailable => NoRoute
    case ReacquireFailed => NotReacquired
    case Untrue => ConditionFalse
    case Unavailable => ConditionUnavailable
    case _ => if IsCompareOp(op) then ConditionTimeout else InstrTimeout
  }

  function Conclude(r: Runner, i: Instr, o: Outcome): (after: Runner)
    ensures after.program == r.program
  {
    match o
    case Running => r
    case Faulted => Abort(Failed(r, Fault, FaultRaised))
    case Success => Proceed(r, i)
    case _ => Retreat(r, i, FailureOf(i.op, o))
  }

  function Continue(r: Runner, i: Instr, e: Env): (after: Runner)
    requires r.current < |r.loops|
    ensures after.program == r.program
  {
    if i.op == OP_LOOP then LoopStep(r, i)
    else
      var (window, outcome) := Evaluate(r, i, e);
      Conclude(r.(window := window), i, outcome)
  }

  function Execute(r: Runner, i: Instr, e: Env): (after: Runner)
    requires r.current < |r.loops|
    ensures after.program == r.program
  {
    if i.op == OP_END then Finish(r)
    else if r.started then Continue(r, i, e)
    else if !Starts(i, e) then Retreat(Launched(r, i), i, StartFailed)
    else Continue(Begun(Launched(r, i), i, e), i, e)
  }

  function Update(r: Runner, e: Env): (after: Runner)
    requires |r.loops| == MAX_INSTRS && |r.program| <= MAX_INSTRS
    ensures after.program == r.program
  {
    if !r.running then r
    else if e.fault then Abort(Failed(r, Fault, FaultRaised))
    else if Wrap32(e.now - r.sequenceStart) > SEQUENCE_TIMEOUT_MS then Abort(Failed(r, TimedOut, SequenceTimeout))
    else if r.current >= |r.program| then Finish(r)
    else Execute(StopUnlessContinued(r), r.program[r.current], e)
  }
}
