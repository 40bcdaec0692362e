/** What comparisons mean, and which exit an instruction takes. */
module ActionLaws {
  import opened Arith
  import opened ShiftRegister
  import opened ActionCondition
  import opened ActionSpec
  import opened ActionSafety

  // ----- comparisons -----

  /** Less stays true when the reading falls or the value rises, greater when it rises or the value falls, and so do
      their unions with equality. */
  lemma ComparisonsAreOrdered(low: Int32, high: Int32, from: Int32, to: Int32)
    requires low <= high && from <= to
    ensures CompareValue(high, 2, from) ==> CompareValue(low, 2, to)
    ensures CompareValue(high, 3, from) ==> CompareValue(low, 3, to)
    ensures CompareValue(low, 4, to) ==> CompareValue(high, 4, from)
    ensures CompareValue(low, 5, to) ==> CompareValue(high, 5, from)
  {
  }

  /** Exactly one of less, equal and greater holds; the others are their unions and complements; and there are readings
      on either side. */
  lemma ComparisonsPartition(x: Int32, value: Int32)
    ensures var equal, less, greater := CompareValue(x, 0, value), CompareValue(x, 2, value), CompareValue(x, 4, value);
            (equal || less || greater) && !(equal && less) && !(equal && greater) && !(less && greater) &&
            (CompareValue(x, 1, value) <==> !equal) && (CompareValue(x, 3, value) <==> less || equal) &&
            (CompareValue(x, 5, value) <==> greater || equal)
    ensures CompareValue(value, 0, value) && CompareValue(-100, 2, 0) && CompareValue(100, 4, 0)
  {
  }

  /** Bit `k` of a two's-complement number. */
  predicate BitOf(x: int, k: nat) { (x / Pow2(k)) % 2 == 1 }

  lemma NextBit(x: int, k: nat)
    ensures BitOf(x / 2, k) <==> BitOf(x, k + 1)
    decreases k
  {
    HalvedQuotient(x, Pow2(k));
  }

  lemma HalvedQuotient(x: int, n: nat)
    requires n > 0
    ensures (x / 2) / n == x / (2 * n)
  {
    var h, q := x / 2, (x / 2) / n;
    var rest := h - q * n;
    assert h == n * q + h % n;
    assert 0 <= rest < n && 0 <= x - 2 * h <= 1;
    assert x == (2 * n) * q + (2 * rest + x - 2 * h);
    QuotientIs(x, 2 * n, q, 2 * rest + x - 2 * h);
  }

  lemma QuotientIs(x: int, d: nat, q: int, rest: int)
    requires d > 0 && 0 <= rest < d && x == d * q + rest
    ensures x / d == q
  {
    var k := x / d;
    assert x == d * k + x % d;
    assert d * (k - q) == rest - x % d && d * (q - k) == x % d - rest;
    if k > q { Positive(d, k - q); } else if k < q { Positive(d, q - k); }
  }

  lemma Positive(d: nat, n: nat)
    requires d > 0 && n > 0
    ensures d * n >= d
  {
    assert d * n == d * (n - 1) + d;
  }

  /** CONTAINS holds exactly when every set bit of the value is set in the reading, bit by bit. */
  lemma {:induction false} ContainsEveryBit(x: int, mask: int, n: nat)
    ensures HasBits(x, mask, n) <==> forall k: nat :: k < n && BitOf(mask, k) ==> BitOf(x, k)
    decreases n
  {
    if n > 0 {
      ContainsEveryBit(x / 2, mask / 2, n - 1);
      LowestBit(x);
      LowestBit(mask);
      if HasBits(x, mask, n) {
        forall k: nat | k < n && BitOf(mask, k) ensures BitOf(x, k) {
          if k > 0 { NextBit(x, k - 1); NextBit(mask, k - 1); }
        }
      } else {
        if HasBits(x / 2, mask / 2, n - 1) {
          assert BitOf(mask, 0) && !BitOf(x, 0);
        } else {
          var k: nat :| k < n - 1 && BitOf(mask / 2, k) && !BitOf(x / 2, k);
          NextBit(x, k);
          NextBit(mask, k);
        }
      }
    }
  }

  lemma LowestBit(x: int)
    ensures BitOf(x, 0) <==> x % 2 == 1
  {
  }

  lemma ContainsMeans(x: Int32, mask: Int32)
    ensures CompareValue(x, 6, mask) <==> forall k: nat :: k < 32 && BitOf(mask, k) ==> BitOf(x, k)
    ensures CompareValue(x, 7, mask) <==> !CompareValue(x, 6, mask)
  {
    ContainsEveryBit(x, mask, 32);
  }

  // ----- which exit an update takes -----

  /** An update reaches a started instruction: nothing ends the run before it. */
  predicate Reaches(r: Runner, e: Env, i: Instr) {
    Sized(r) && r.running && r.started && r.current < |r.program| && i == r.program[r.current] && r.result == Active &&
    !e.fault && Wrap32(e.now - r.sequenceStart) <= 300000
  }

  /** The run goes on at the target of an exit, or without one at the next entry or at its end, as after a success or
      a failure. */
  predicate TakesExit(r: Runner, s: Runner, target: Byte, success: bool) {
    s.lastSuccess == success &&
    if target != 255 && target < |r.program| then s.running && s.current == target && !s.started
    else if !success then !s.running && s.result == Aborted
    else if r.current + 1 < |r.program| then s.running && s.current == r.current + 1 && !s.started
    else !s.running && s.result == Succeeded
  }

  predicate Succeeds(r: Runner, s: Runner, i: Instr) { TakesExit(r, s, i.onSuccess, true) && s.failure == NoFailure }

  predicate Fails(r: Runner, s: Runner, i: Instr, why: Failure) {
    TakesExit(r, s, i.onTimeout, false) && s.failure == why && s.failureIndex == r.current && !s.moving
  }

  predicate Waits(r: Runner, s: Runner) { s.running && s.current == r.current && s.started }

  /** How outcomes become exits. */
  lemma OutcomeTakesExit(r: Runner, e: Env, i: Instr)
    requires Reaches(r, e, i) && i.op != OP_END && i.op != OP_LOOP
    ensures var s, outcome := Update(r, e), Evaluate(StopUnlessContinued(r), i, e).1;
            (outcome == Success ==> Succeeds(r, s, i)) && (outcome == Running ==> Waits(r, s)) &&
            (outcome == Faulted ==> !s.running && s.result == Fault) &&
            (outcome == Untrue ==> Fails(r, s, i, ConditionFalse)) &&
            (outcome == Unavailable ==> Fails(r, s, i, ConditionUnavailable)) &&
            (outcome == Timeout ==> Fails(r, s, i, if IsCompareOp(i.op) then ConditionTimeout else InstrTimeout)) &&
            (outcome == Outcome.RouteUnavailable ==> Fails(r, s, i, NoRoute)) &&
            (outcome == ReacquireFailed ==> Fails(r, s, i, NotReacquired))
  {
    hide Evaluate;
    var q := StopUnlessContinued(r);
    var (window, outcome) := Evaluate(q, i, e);
    assert Update(r, e) == Conclude(q.(window := window), i, outcome);
    ConcludesSo(q.(window := window), i, outcome);
  }

  lemma ConcludesSo(r: Runner, i: Instr, o: Outcome)
    requires Sized(r) && r.running && r.started && r.current < |r.program| && r.result == Active
    ensures var s := Conclude(r, i, o);
            (o == Success ==> Succeeds(r, s, i)) && (o == Running ==> Waits(r, s)) &&
            (o == Faulted ==> !s.running && s.result == Fault) &&
            (o != Success && o != Running && o != Faulted ==> Fails(r, s, i, FailureOf(i.op, o)))
  {
  }

  /** An immediate condition takes its success exit exactly when the reading compares as the instruction says, told in
      numbers for the six orders and in bits for the two masks; without a reading it fails. */
  lemma ConditionExit(r: Runner, e: Env, i: Instr, c: Condition)
    requires Reaches(r, e, i) && i.op == OP_CONDITION && Decode(i) == Some(c) && !c.wait && c.compare <= 7
    ensures var s := Update(r, e);
            match e.reading
            case None => Fails(r, s, i, ConditionUnavailable)
            case Some(x) => if Holds(x, c.compare, c.value) then Succeeds(r, s, i) else Fails(r, s, i, ConditionFalse)
  {
    hide Update, Fails, Succeeds, Waits, Decode, StopUnlessContinued;
    OutcomeTakesExit(r, e, i);
    if e.reading.Some? { HoldsMeans(e.reading.value, c.compare, c.value); }
  }

  /** The comparisons as a reader of the instruction set understands them. */
  ghost predicate Holds(x: int, compare: nat, value: int) {
    match compare
    case 0 => x - value == 0
    case 1 => x - value != 0
    case 2 => value - x > 0
    case 3 => value - x >= 0
    case 4 => x - value > 0
    case 5 => x - value >= 0
    case 6 => forall k: nat :: k < 32 && BitOf(value, k) ==> BitOf(x, k)
    case _ => exists k: nat :: k < 32 && BitOf(value, k) && !BitOf(x, k)
  }

  lemma HoldsMeans(x: Int32, compare: nat, value: Int32)
    requires compare <= 7
    ensures Holds(x, compare, value) <==> CompareValue(x, compare, value)
  {
    ContainsMeans(x, value);
  }

  /** A wait that was true at every look since `since`, and is true now, succeeds once that is the stable time ago; one
      that is not true starts over; and past its timeout it fails. */
  lemma WaitExit(r: Runner, e: Env, i: Instr, c: Condition, x: Int32)
    requires Reaches(r, e, i) && IsCompareOp(i.op) && Decode(i) == Some(c) && c.wait && c.compare <= 7
    requires e.reading == Some(x)
    ensures var s := Update(r, e);
            var stable := Holds(x, c.compare, c.value) &&
                          (c.stableMs == 0 || (r.window.pending && Wrap32(e.now - r.window.since) >= c.stableMs));
            if stable then Succeeds(r, s, i)
            else if Wrap32(e.now - r.instrStart) > c.timeoutMs then Fails(r, s, i, ConditionTimeout)
            else Waits(r, s) && (s.window.pending <==> Holds(x, c.compare, c.value)) &&
                 (s.window.pending ==> s.window.since == if r.window.pending then r.window.since else e.now)
  {
    hide Fails, Succeeds, Waits, Decode, Update, Holds;
    OutcomeTakesExit(r, e, i);
    HoldsMeans(x, c.compare, c.value);
    WaitWindow(r, e, i, c, x);
  }

  lemma WaitWindow(r: Runner, e: Env, i: Instr, c: Condition, x: Int32)
    requires Reaches(r, e, i) && IsCompareOp(i.op) && Decode(i) == Some(c) && c.wait && e.reading == Some(x)
    ensures var look := Look(c, r.window, r.instrStart, e.now, e.reading);
            look.1 == Running ==> Update(r, e).window == look.0
  {
    hide Decode, Look;
  }

  /** A plain timed instruction: with a pure time it succeeds when the time is up, and with a condition it succeeds when
      the condition holds in time and fails past it. */
  lemma TimedExit(r: Runner, e: Env, i: Instr)
    requires Reaches(r, e, i) && (i.op in {1, 2, 3, 4} || 9 <= i.op <= 14)
    requires 0 <= i.param2 <= 30000 && 0 <= i.until <= 6
    ensures var s, elapsed := Update(r, e), Wrap32(e.now - r.instrStart);
            if i.until == UNTIL_TIMEOUT then (if elapsed >= i.param2 then Succeeds(r, s, i) else Waits(r, s))
            else if elapsed > i.param2 then Fails(r, s, i, InstrTimeout)
            else if i.until == UNTIL_IMMEDIATE || e.until then Succeeds(r, s, i)
            else Waits(r, s)
  {
    hide Update, Fails, Succeeds, Waits;
    OutcomeTakesExit(r, e, i);
    assert Wrap32(i.param2) == i.param2;
  }

  /** A branch goes one way or the other at once. */
  lemma BranchExit(r: Runner, e: Env, i: Instr)
    requires Reaches(r, e, i) && i.op == OP_BRANCH && 0 <= i.until <= 6
    ensures var s := Update(r, e);
            if i.until == UNTIL_IMMEDIATE || (i.until != UNTIL_TIMEOUT && e.until) then Succeeds(r, s, i)
            else Fails(r, s, i, InstrTimeout)
  {
    hide Update, Fails, Succeeds, Waits;
    OutcomeTakesExit(r, e, i);
  }

  /** A distance run ends when the distance is reached; a road manoeuvre as the controller reports, or past its time. */
  lemma ManoeuvreExit(r: Runner, e: Env, i: Instr)
    requires Reaches(r, e, i) && i.op in {8, 19} && 0 <= i.param2 <= 30000
    ensures var s := Update(r, e);
            if i.op == 8 then (if e.until then Succeeds(r, s, i) else Waits(r, s))
            else match e.route
              case RouteRunning => (if Wrap32(e.now - r.instrStart) > i.param2 then Fails(r, s, i, InstrTimeout)
                                    else Waits(r, s))
              case RouteSuccess => Succeeds(r, s, i)
              case RouteUnavailable => Fails(r, s, i, NoRoute)
              case RouteReacquireFailed => Fails(r, s, i, NotReacquired)
              case RouteTimeout => Fails(r, s, i, InstrTimeout)
              case RouteOther => !s.running && s.result == Fault
  {
    hide Update, Fails, Succeeds, Waits;
    OutcomeTakesExit(r, e, i);
    assert Wrap32(i.param2) == i.param2;
  }

  /** A position move of the CAN motor ends as its driver reports, a speed run once its time is up and the motor has
      been stopped, and disabling it as the driver reports. */
  lemma MotorExit(r: Runner, e: Env, i: Instr)
    requires Reaches(r, e, i) && 20 <= i.op <= 22 && 0 <= i.param2 <= 30000
    ensures var s := Update(r, e);
            if i.op == 21 && Wrap32(e.now - r.instrStart) < i.param2 then Waits(r, s)
            else if i.op == 21 && e.dmSpeeding then (if e.dmStops then Waits(r, s) else !s.running && s.result == Fault)
            else match e.dm
              case DmRunning => Waits(r, s)
              case DmSuccess => Succeeds(r, s, i)
              case DmTargetTimeout =>
                (if i.op == 20 then Fails(r, s, i, InstrTimeout) else !s.running && s.result == Fault)
              case DmStopTimeout =>
                (if i.op == 21 then Fails(r, s, i, InstrTimeout) else !s.running && s.result == Fault)
              case DmOther => !s.running && s.result == Fault
  {
    hide Update, Fails, Succeeds, Waits;
    OutcomeTakesExit(r, e, i);
    assert Wrap32(i.param2) == i.param2;
  }

  /** A loop enters its body until its count is reached, and then leaves by its other exit, starting over. */
  lemma LoopExit(r: Runner, e: Env, i: Instr)
    requires Reaches(r, e, i) && i.op == OP_LOOP && 0 <= i.param1 <= 1000
    ensures var s := Update(r, e);
            if r.loops[r.current] < i.param1
            then TakesExit(r, s, i.onSuccess, true) && (s.running ==> CounterIs(s, r.current, r.loops[r.current] + 1))
            else TakesExit(r, s, i.onTimeout, true) && (s.running ==> CounterIs(s, r.current, 0))
  {
    hide CounterIs, LoopStep, StopUnlessContinued;
    StopUnlessContinuedKeeps(r);
    LoopTurns(StopUnlessContinued(r), i);
  }

  predicate CounterIs(s: Runner, k: nat, count: nat) { k < |s.loops| && s.loops[k] == count }

  lemma StopUnlessContinuedKeeps(r: Runner)
    ensures var q := StopUnlessContinued(r); q == r.(moving := q.moving, preserve := q.preserve)
  {
  }

  lemma LoopTurns(r: Runner, i: Instr)
    requires Sized(r) && r.running && r.current < |r.program| && 0 <= i.param1 <= 1000
    ensures var s := LoopStep(r, i);
            if r.loops[r.current] < i.param1
            then TakesExit(r, s, i.onSuccess, true) && (s.running ==> CounterIs(s, r.current, r.loops[r.current] + 1))
            else TakesExit(r, s, i.onTimeout, true) && (s.running ==> CounterIs(s, r.current, 0))
  {
    assert LoopCount(i) == i.param1;
    hide TakesExit, CounterIs, Goto, StopUnlessContinued, EnterBody, LeaveLoop;
    var s := (if r.preserve then r else StopAll(r))
      .(lastSuccess := true, failure := NoFailure, failureIndex := ACT_NEXT);
    if r.loops[r.current] < i.param1 {
      Turned(r, s, EnterBody(s), i.onSuccess, r.loops[r.current] + 1);
    } else {
      Turned(r, s, LeaveLoop(s), i.onTimeout, 0);
    }
  }

  lemma Turned(r: Runner, s: Runner, t: Runner, target: Byte, count: nat)
    requires Sized(r) && r.running && r.current < |r.program| && Sized(s) && s.running && s.lastSuccess
    requires s.program == r.program && s.current == r.current && s.loops == r.loops
    requires (t == EnterBody(s) && count == r.loops[r.current] + 1) || (t == LeaveLoop(s) && count == 0)
    ensures var u := StopUnlessContinued(Goto(t, target, true));
            TakesExit(r, u, target, true) && (u.running ==> CounterIs(u, r.current, count))
  {
    var g := Goto(t, target, true);
    StopUnlessContinuedKeeps(g);
    hide StopUnlessContinued;
  }

  /** Stopping succeeds at once and leaves nothing moving; the end ends the run in success. */
  lemma StopAndEnd(r: Runner, e: Env, i: Instr)
    requires Reaches(r, e, i) && i.op in {5, 7}
    ensures var s := Update(r, e);
            !s.moving && if i.op == 5 then Succeeds(r, s, i) else !s.running && s.result == Succeeded && s.lastSuccess
  {
    hide Succeeds, StopUnlessContinued;
    StopUnlessContinuedKeeps(r);
    if i.op == 5 {
      hide Update;
      OutcomeTakesExit(r, e, i);
      StopStops(r, e, i);
    }
  }

  lemma StopStops(r: Runner, e: Env, i: Instr)
    requires Reaches(r, e, i) && i.op == 5
    ensures !Update(r, e).moving
  {
    hide StopUnlessContinued, Goto;
    var q := StopUnlessContinued(r);
    StopUnlessContinuedKeeps(r);
    assert Update(r, e) == Conclude(q, i, Success);
    ProceedStops(q, i);
  }

  lemma ProceedStops(r: Runner, i: Instr)
    requires r.running && i.op == 5
    ensures !Proceed(r, i).moving
  {
  }

  /** A run that stands at an instruction not yet started. */
  predicate Comes(r: Runner, e: Env, i: Instr) { !r.started && Reaches(r.(started := true), e, i) && 1 <= i.op <= 22 }

  /** Its driver refuses it: the failure exit, at once, except for those that always start. */
  lemma RefusedStartFails(r: Runner, e: Env, i: Instr)
    requires Comes(r, e, i) && i.op !in {4, 5, 6, 7, 15, 18} && !e.startOk
    ensures Fails(r, Update(r, e), i, StartFailed)
  {
    hide StopUnlessContinued, Launched, Retreat;
    var q := StopUnlessContinued(r);
    StopUnlessContinuedKeeps(r);
    LaunchedKeeps(q, i);
    assert Update(r, e) == Retreat(Launched(q, i), i, StartFailed);
    RetreatFails(Launched(q, i), i, StartFailed);
  }

  lemma LaunchedKeeps(r: Runner, i: Instr)
    ensures var l := Launched(r, i); l == r.(window := l.window, moving := l.moving, preserve := l.preserve, dm := l.dm)
  {
    hide IsMotion, IsCompareOp, NoLoops;
    var s := if IsCompareOp(i.op) then r.(window := IDLE_WINDOW) else r;
    assert s == r.(window := s.window);
    if i.op == OP_STOP {
      assert Launched(r, i) == s.(moving := false, preserve := false);
    }
  }

  lemma LaunchedMoves(r: Runner, i: Instr)
    ensures Launched(r, i).moving <==> i.op != 5 && (r.moving || i.op in {1, 2, 3, 8, 16, 17, 19})
  {
  }

  lemma RetreatFails(r: Runner, i: Instr, f: Failure)
    requires Sized(r) && r.running && r.current < |r.program| && r.result == Active
    ensures Fails(r, Retreat(r, i, f), i, f)
  {
  }

  /** The state an instruction is in once it has started. */
  function Started(r: Runner, e: Env, i: Instr): Runner { Begun(Launched(StopUnlessContinued(r), i), i, e) }

  /** Otherwise it is started, with its time counting from now, a motion moving, and a wait with nothing seen yet; and
      the same update goes on as one that finds it started. */
  lemma FirstUpdateStarts(r: Runner, e: Env, i: Instr)
    requires Comes(r, e, i) && i.op != 7 && (i.op in {4, 5, 6, 15, 18} || (e.startOk && i.op != 17))
    ensures var b := Started(r, e, i);
            Reaches(b, e, i) && b.instrStart == e.now && b.current == r.current && b.loops == r.loops &&
            (i.op in {1, 2, 3, 8, 16, 17, 19} ==> b.moving) && (i.op in {15, 16, 17} ==> b.window == IDLE_WINDOW) &&
            Update(r, e) == Update(b, e)
  {
    hide Continue, StopUnlessContinued, Launched, Retreat;
    StopUnlessContinuedKeeps(r);
    LaunchedKeeps(StopUnlessContinued(r), i);
    LaunchedWindow(StopUnlessContinued(r), i);
    LaunchedMoves(StopUnlessContinued(r), i);
    StaysStarted(r, e, i);
  }

  lemma LaunchedWindow(r: Runner, i: Instr)
    ensures Launched(r, i).window == if i.op in {15, 16, 17} then IDLE_WINDOW else r.window
  {
  }

  lemma StaysStarted(r: Runner, e: Env, i: Instr)
    requires Comes(r, e, i)
    ensures StopUnlessContinued(Started(r, e, i)) == Started(r, e, i)
  {
  }

  // ----- the start of a run, and motion across instructions -----

  /** A run starts exactly for a valid program without a fault, from the top, with its time and its counters at zero. */
  lemma StartBegins(r: Runner, maxRpm: Word16, fault: bool, now: Word32)
    requires !r.running
    ensures var s := Start(r, maxRpm, fault, now);
            (s.running <==> ProgramValid(r.program, maxRpm) && !fault) && s.program == r.program &&
            (s.running ==> s.current == 0 && !s.started && !s.lastSuccess && s.result == Active &&
                           s.failure == NoFailure && s.sequenceStart == now && !s.preserve && !s.window.pending) &&
            (!s.running ==> s.result == if ProgramValid(r.program, maxRpm) then Fault else Invalid) &&
            |s.loops| == 64 && forall k :: 0 <= k < 64 ==> s.loops[k] == 0
  {
    hide ProgramValid, FirstInvalid;
  }

  /** A road manoeuvre that succeeds while moving flows on into a manoeuvre or a loop, and into nothing else; so does a
      loop that one flowed into. */
  lemma MotionFlowsOn(r: Runner, e: Env, i: Instr)
    requires Reaches(r, e, i) && r.moving
    requires (i.op == 19 && e.route == RouteSuccess) || (i.op == 18 && r.preserve)
    ensures FlowsOn(Update(r, e))
  {
    hide FlowsOn;
    if i.op == 19 { ManoeuvreFlowsOn(r, e, i); } else { LoopFlowsOn(r, e, i); }
  }

  /** Still moving exactly when the run goes on with a manoeuvre or a loop. */
  predicate FlowsOn(s: Runner) {
    (s.running ==> s.current < |s.program| && (s.moving <==> s.program[s.current].op in {18, 19})) &&
    (!s.running ==> !s.moving)
  }

  lemma ManoeuvreFlowsOn(r: Runner, e: Env, i: Instr)
    requires Reaches(r, e, i) && r.moving && i.op == 19 && e.route == RouteSuccess
    ensures FlowsOn(Update(r, e))
  {
    hide Goto, FlowsOn;
    var t := r.(preserve := true, lastSuccess := true, failure := NoFailure, failureIndex := ACT_NEXT);
    JumpFlowsOn(t, i.onSuccess);
    assert StopUnlessContinued(r) == r;
    assert Update(r, e) == StopUnlessContinued(Goto(t, i.onSuccess, true));
  }

  lemma LoopFlowsOn(r: Runner, e: Env, i: Instr)
    requires Reaches(r, e, i) && r.moving && r.preserve && i.op == 18
    ensures FlowsOn(Update(r, e))
  {
    hide Goto, FlowsOn, EnterBody, LeaveLoop;
    var t := r.(lastSuccess := true, failure := NoFailure, failureIndex := ACT_NEXT);
    BodyMoves(t);
    JumpFlowsOn(EnterBody(t), i.onSuccess);
    JumpFlowsOn(LeaveLoop(t), i.onTimeout);
    assert StopUnlessContinued(r) == r;
    assert Update(r, e) == LoopStep(r, i);
  }

  lemma BodyMoves(r: Runner)
    requires r.running && r.preserve && r.moving && r.current < |r.loops|
    ensures var b, l := EnterBody(r), LeaveLoop(r);
            b.running && b.preserve && b.moving && l.running && l.preserve && l.moving
  {
  }

  lemma JumpFlowsOn(r: Runner, target: Byte)
    requires r.running && r.preserve && r.moving
    ensures FlowsOn(StopUnlessContinued(Goto(r, target, true)))
  {
  }

  lemma GotoLeavesMotorOff(r: Runner, target: Byte, success: bool)
    requires !r.dm
    ensures !Goto(r, target, success).dm && !StopUnlessContinued(Goto(r, target, success)).dm
  {
  }

  lemma SuccessLeavesMotorOff(r: Runner, i: Instr)
    requires !r.dm
    ensures !Proceed(r, i).dm
  {
    hide Goto, StopUnlessContinued;
    var s := if i.op == OP_ROAD_NAV then r.(preserve := true) else StopAll(r);
    GotoLeavesMotorOff(s.(lastSuccess := true, failure := NoFailure, failureIndex := ACT_NEXT), i.onSuccess, true);
  }

  lemma FailureLeavesMotorOff(r: Runner, i: Instr, f: Failure)
    requires !r.dm
    ensures !Retreat(r, i, f).dm
  {
    hide Goto;
    GotoLeavesMotorOff(StopAll(r).(lastSuccess := false, failure := f, failureIndex := r.current), i.onTimeout, false);
  }

  lemma LoopLeavesMotorOff(r: Runner, i: Instr)
    requires !r.dm && r.current < |r.loops|
    ensures !LoopStep(r, i).dm
  {
    hide Goto, StopUnlessContinued;
    var s := (if r.preserve then r else StopAll(r))
      .(lastSuccess := true, failure := NoFailure, failureIndex := ACT_NEXT);
    GotoLeavesMotorOff(EnterBody(s), i.onSuccess, true);
    GotoLeavesMotorOff(LeaveLoop(s), i.onTimeout, true);
  }

  lemma ContinueLeavesMotorOff(r: Runner, i: Instr, e: Env)
    requires !r.dm && r.current < |r.loops|
    ensures !Continue(r, i, e).dm
  {
    hide Evaluate, Proceed, Retreat, LoopStep;
    var (window, outcome) := Evaluate(r, i, e);
    LoopLeavesMotorOff(r, i);
    SuccessLeavesMotorOff(r.(window := window), i);
    FailureLeavesMotorOff(r.(window := window), i, FailureOf(i.op, outcome));
  }

  lemma ExecuteLeavesMotorOff(r: Runner, i: Instr, e: Env)
    requires !r.dm && r.current < |r.loops| && i.op !in {20, 21}
    ensures !Execute(r, i, e).dm
  {
    hide Continue, Retreat, IsMotion, Starts, Begun;
    ContinueLeavesMotorOff(r, i, e);
    var l := Launched(r, i);
    LaunchedKeeps(r, i);
    assert !l.dm;
    FailureLeavesMotorOff(l, i, StartFailed);
    BegunLeavesMotorOff(l, i, e);
    ContinueLeavesMotorOff(Begun(l, i, e), i, e);
  }

  lemma BegunLeavesMotorOff(r: Runner, i: Instr, e: Env)
    requires !r.dm
    ensures !Begun(r, i, e).dm && Begun(r, i, e).loops == r.loops && Begun(r, i, e).current == r.current
  {
  }

  /** Only its own two operations switch the CAN motor on. */
  lemma OthersLeaveMotorOff(r: Runner, e: Env)
    requires Sized(r) && !r.dm && (r.running && r.current < |r.program| ==> r.program[r.current].op !in {20, 21})
    ensures !Update(r, e).dm
  {
    hide Execute;
    if r.running && r.current < |r.program| {
      StopUnlessContinuedKeeps(r);
      ExecuteLeavesMotorOff(StopUnlessContinued(r), r.program[r.current], e);
    }
  }
}
