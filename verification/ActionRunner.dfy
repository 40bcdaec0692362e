/** The sequence interpreter as the firmware runs it: a program table, a table of loop counters and the
    variables of the run, updated in place. */
module ActionRunner {
  import opened Arith
  import opened ActionCondition
  import opened ActionSpec
  import opened ActionSafety

  datatype Status = Ok | Busy | Full | InvalidArg | NotInitialized

  class ActionRunner {
    const instrs: array<Instr>
    const loopIterations: array<nat>
    var count: nat
    var current: nat
    var running: bool
    var started: bool
    var preserve: bool
    var sequenceStart: Word32
    var instrStart: Word32
    var window: Window
    var result: Result
    var lastSuccess: bool
    var failure: Failure
    var failureIndex: nat
    var moving: bool
    var dm: bool
    ghost var bodies: seq<nat>
    ghost var exits: seq<nat>

    ghost predicate Valid()
      reads this`count, this`bodies, this`exits
    {
      instrs.Length == MAX_INSTRS && loopIterations.Length == MAX_INSTRS && count <= MAX_INSTRS &&
      |bodies| == MAX_INSTRS && |exits| == MAX_INSTRS
    }

    ghost function View(): Runner
      requires count <= instrs.Length
      reads this, instrs, loopIterations
    {
      Runner(instrs[..count], current, running, started, preserve, sequenceStart, instrStart, loopIterations[..],
             window, result, lastSuccess, failure, failureIndex, moving, dm, bodies, exits)
    }

    constructor ()
      ensures Valid() && fresh(instrs) && fresh(loopIterations) && View() == Fresh([])
    {
      instrs := new Instr[MAX_INSTRS](i => Instr(0, 0, 0, 0, 0, 0, 0));
      loopIterations := new nat[MAX_INSTRS](i => 0);
      count, current, running, started, preserve := 0, 0, false, false, false;
      sequenceStart, instrStart, window := 0, 0, IDLE_WINDOW;
      result, lastSuccess, failure, failureIndex := Idle, false, NoFailure, ACT_NEXT;
      moving, dm, bodies, exits := false, false, NoLoops(), NoLoops();
      new;
      assert instrs[..count] == [] && loopIterations[..] == NoLoops();
    }

    method ResetLoopRuntime()
      requires Valid()
      modifies loopIterations
      ensures loopIterations[..] == NoLoops()
    {
      for i := 0 to MAX_INSTRS
        invariant forall k :: 0 <= k < i ==> loopIterations[k] == 0
      {
        loopIterations[i] := 0;
      }
    }

    // ----- the program table -----

    /** Adds an instruction that passes validation, unless a run is going on or the table is full. */
    method AddInstr(candidate: Instr, maxRpm: Word16) returns (status: Status)
      requires Valid()
      modifies this`count, instrs
      ensures Valid()
      ensures status == if old(running) then Busy else if old(count) >= MAX_INSTRS then Full
                        else if InstrValid(candidate, maxRpm) then Ok else InvalidArg
      ensures View() == if status == Ok then old(View()).(program := old(View()).program + [candidate]) else old(View())
    {
      if running { return Busy; }
      if count >= MAX_INSTRS { return Full; }
      if !InstrValid(candidate, maxRpm) { return InvalidArg; }
      instrs[count] := candidate;
      count := count + 1;
      assert instrs[..count] == old(instrs[..count]) + [candidate];
      status := Ok;
    }

    /** Adds a comparison instruction; what it stores decodes to the condition asked for. */
    method AddCompareInstr(op: int, param1: Int32, c: Condition, onSuccess: Byte, onFailure: Byte, maxRpm: Word16)
      returns (status: Status)
      requires Valid()
      modifies this`count, instrs
      ensures Valid()
      ensures status == Ok ==>
                Acceptable(op, c) &&
                View().program == old(View()).program + [Encode(op, param1, c, onSuccess, onFailure)] &&
                Decode(View().program[|old(View()).program|]) == Some(c.(wait := c.wait || op != OP_CONDITION))
      ensures status != Ok ==> View() == old(View())
      ensures status == if !Acceptable(op, c) then InvalidArg else if old(running) then Busy
                        else if old(count) >= MAX_INSTRS then Full
                        else if InstrValid(Encode(op, param1, c, onSuccess, onFailure), maxRpm) then Ok else InvalidArg
    {
      if !Acceptable(op, c) { return InvalidArg; }
      ConditionRoundTrip(op, param1, c, onSuccess, onFailure);
      status := AddInstr(Encode(op, param1, c, onSuccess, onFailure), maxRpm);
    }

    /** Checks the whole table, stopping at the first bad entry. */
    method Validate(maxRpm: Word16) returns (ok: bool, index: nat)
      requires Valid()
      ensures ok == ProgramValid(View().program, maxRpm)
      ensures !ok ==> index == FirstInvalid(View().program, maxRpm)
    {
      hide InstrValid, TargetsValid;
      var program := instrs[..count];
      if count == 0 || count > MAX_INSTRS { return false, ACT_NEXT; }
      for i := 0 to count
        invariant forall k :: 0 <= k < i ==> EntryValid(program, k, maxRpm)
        invariant FirstBad(program, 0, maxRpm) == FirstBad(program, i, maxRpm)
      {
        assert program[i] == instrs[i];
        if !InstrValid(instrs[i], maxRpm) || !TargetsValid(instrs[i], count) {
          return false, i;
        }
        assert EntryValid(program, i, maxRpm);
      }
      ok, index := true, ACT_NEXT;
    }

    // ----- starting and ending -----

    method Start(maxRpm: Word16, fault: bool, now: Word32) returns (status: Status)
      requires Valid()
      modifies this, loopIterations
      ensures Valid() && View() == ActionSpec.Start(old(View()), maxRpm, fault, now)
      ensures status == Ok <==> !old(running) && running
    {
      hide ProgramValid, FirstInvalid, NoLoops;
      if running { return Busy; }
      ghost var s := View().(loops := NoLoops(), bodies := NoLoops(), exits := NoLoops());
      ResetLoopRuntime();
      bodies, exits := NoLoops(), NoLoops();
      assert View() == s;
      var ok, index := Validate(maxRpm);
      if !ok {
        Refuse(Invalid, NotValid, index);
        status := InvalidArg;
      } else if fault {
        Refuse(Fault, FaultRaised, ACT_NEXT);
        status := NotInitialized;
      } else {
        Launch(now);
        status := Ok;
      }
    }

    method Refuse(r: Result, f: Failure, index: nat)
      requires Valid()
      modifies this`result, this`failure, this`failureIndex
      ensures Valid() && View() == old(View()).(result := r, failure := f, failureIndex := index)
    {
      result, failure, failureIndex := r, f, index;
    }

    method Launch(now: Word32)
      requires Valid()
      modifies this`current, this`running, this`lastSuccess, this`result, this`failure, this`failureIndex
      modifies this`sequenceStart, this`instrStart, this`started, this`window, this`preserve
      ensures Valid() && running
      ensures View() == old(View()).(current := 0, running := true, lastSuccess := false, result := Active,
                                     failure := NoFailure, failureIndex := ACT_NEXT, sequenceStart := now,
                                     instrStart := 0, started := false, window := IDLE_WINDOW, preserve := false)
    {
      Rewind();
      running, lastSuccess, sequenceStart := true, false, now;
      result, failure, failureIndex := Active, NoFailure, ACT_NEXT;
    }

    method Rewind()
      requires Valid()
      modifies this`current, this`instrStart, this`started, this`window, this`preserve
      ensures Valid()
      ensures View() == old(View()).(current := 0, instrStart := 0, started := false, window := IDLE_WINDOW,
                                     preserve := false)
    {
      current, instrStart, started := 0, 0, false;
      window, preserve := IDLE_WINDOW, false;
    }

    method StopAll()
      requires Valid()
      modifies this`moving, this`preserve
      ensures Valid() && View() == ActionSpec.StopAll(old(View()))
    {
      moving := false;
      preserve := false;
    }

    method End()
      requires Valid()
      modifies this`running, this`moving, this`preserve, this`dm, this`window, loopIterations
      ensures Valid() && View() == Ended(old(View()))
    {
      running := false;
      StopAll();
      dm := false;
      window := IDLE_WINDOW;
      ResetLoopRuntime();
    }

    method FinishSequence()
      requires Valid()
      modifies this, loopIterations
      ensures Valid() && View() == Finish(old(View()))
    {
      lastSuccess, result, failure, failureIndex := true, Succeeded, NoFailure, ACT_NEXT;
      End();
    }

    method AbortSequence()
      requires Valid()
      modifies this, loopIterations
      ensures Valid() && View() == Abort(old(View()))
    {
      lastSuccess := false;
      if result == Active { result := Aborted; }
      End();
    }

    method Cancel()
      requires Valid()
      modifies this, loopIterations
      ensures Valid() && View() == ActionSpec.Cancel(old(View()))
    {
      hide Abort;
      result, failure, failureIndex := Cancelled, CancelRequested, if running then current else ACT_NEXT;
      AbortSequence();
    }

    // ----- stepping -----

    method Goto(target: Byte, success: bool)
      requires Valid()
      modifies this, loopIterations
      ensures Valid() && View() == ActionSpec.Goto(old(View()), target, success)
    {
      instrStart := 0;
      started := false;
      if target == ACT_NEXT || target >= count {
        if success {
          current := current + 1;
          if current >= count { FinishSequence(); }
        } else {
          AbortSequence();
        }
      } else {
        current := target;
      }
    }

    method StopPreservedRoadMotionForCurrent()
      requires Valid()
      modifies this`moving, this`preserve
      ensures Valid() && View() == StopUnlessContinued(old(View()))
    {
      if running && preserve && current < count && !Continues(instrs[current].op) { StopAll(); }
    }

    /** Starts the current instruction; `ok` is what the motion, LED, buzzer or CAN driver answers. */
    method StartOp(i: Instr, e: Env) returns (ok: bool)
      requires Valid()
      modifies this`moving, this`preserve, this`dm, this`window
      ensures Valid() && View() == Launched(old(View()), i) && ok == Starts(i, e)
    {
      if IsCompareOp(i.op) { window := IDLE_WINDOW; }
      if i.op == OP_STOP {
        StopAll();
      } else {
        if IsMotion(i.op) { moving := true; }
        if i.op == OP_DM_POSITION || i.op == OP_DM_SPEED { dm := true; }
      }
      ok := Starts(i, e);
    }

    /** One turn of a counted loop: into the body until the count is reached, then out, starting over. */
    method StepLoop(i: Instr)
      requires Valid() && current < count
      modifies this, loopIterations
      ensures Valid() && View() == LoopStep(old(View()), i)
    {
      if !preserve { StopAll(); }
      MarkSuccess();
      if loopIterations[current] < LoopCount(i) {
        CountBody();
        Jump(i.onSuccess);
      } else {
        CountExit();
        Jump(i.onTimeout);
      }
    }

    method MarkSuccess()
      requires Valid()
      modifies this`lastSuccess, this`failure, this`failureIndex
      ensures Valid() && View() == old(View()).(lastSuccess := true, failure := NoFailure, failureIndex := ACT_NEXT)
    {
      lastSuccess, failure, failureIndex := true, NoFailure, ACT_NEXT;
    }

    /** On to the next instruction, which may continue a road manoeuvre. */
    method Jump(target: Byte)
      requires Valid()
      modifies this, loopIterations
      ensures Valid() && View() == StopUnlessContinued(ActionSpec.Goto(old(View()), target, true))
    {
      Goto(target, true);
      StopPreservedRoadMotionForCurrent();
    }

    method CountBody()
      requires Valid() && current < count
      modifies this`bodies, loopIterations
      ensures Valid() && View() == EnterBody(old(View()))
    {
      loopIterations[current] := loopIterations[current] + 1;
      bodies := Bumped(bodies, current);
    }

    method CountExit()
      requires Valid() && current < count
      modifies this`exits, loopIterations
      ensures Valid() && View() == LeaveLoop(old(View()))
    {
      loopIterations[current] := 0;
      exits := Bumped(exits, current);
    }

    method Succeed(i: Instr)
      requires Valid()
      modifies this, loopIterations
      ensures Valid() && View() == Proceed(old(View()), i)
    {
      if i.op == OP_ROAD_NAV { preserve := true; } else { StopAll(); }
      MarkSuccess();
      Jump(i.onSuccess);
    }

    method Fail(i: Instr, f: Failure)
      requires Valid()
      modifies this, loopIterations
      ensures Valid() && View() == Retreat(old(View()), i, f)
    {
      StopAll();
      lastSuccess, failure, failureIndex := false, f, current;
      Goto(i.onTimeout, false);
    }

    /** Acts on the judgement of the current instruction. */
    method ConcludeInstr(i: Instr, outcome: Outcome)
      requires Valid()
      modifies this, loopIterations
      ensures Valid() && View() == Conclude(old(View()), i, outcome)
    {
      if outcome == Faulted {
        FailRun(Fault, FaultRaised);
      } else if outcome == Success {
        Succeed(i);
      } else if outcome != Running {
        Fail(i, FailureOf(i.op, outcome));
      }
    }

    method ContinueInstr(i: Instr, e: Env)
      requires Valid() && current < count
      modifies this, loopIterations
      ensures Valid() && View() == Continue(old(View()), i, e)
    {
      if i.op == OP_LOOP {
        StepLoop(i);
      } else {
        var (next, outcome) := Evaluate(Runner(instrs[..count], current, running, started, preserve, sequenceStart,
                                               instrStart, loopIterations[..], window, result, lastSuccess, failure,
                                               failureIndex, moving, dm, [], []), i, e);
        EvaluateIgnoresHistory(View(), [], [], i, e);
        window := next;
        ConcludeInstr(i, outcome);
      }
    }

    method BeginInstr(i: Instr, e: Env)
      requires Valid()
      modifies this`instrStart, this`started, this`preserve
      ensures Valid() && View() == Begun(old(View()), i, e)
    {
      instrStart := e.now;
      started := true;
      if i.op == OP_ROAD_NAV { preserve := false; }
    }

    method ExecuteInstr(i: Instr, e: Env)
      requires Valid() && current < count
      modifies this, loopIterations
      ensures Valid() && View() == Execute(old(View()), i, e)
    {
      if i.op == OP_END {
        FinishSequence();
      } else if started {
        ContinueInstr(i, e);
      } else {
        var ok := StartOp(i, e);
        if ok {
          BeginInstr(i, e);
          ContinueInstr(i, e);
        } else {
          Fail(i, StartFailed);
        }
      }
    }

    method FailRun(r: Result, f: Failure)
      requires Valid()
      modifies this, loopIterations
      ensures Valid() && View() == Abort(Failed(old(View()), r, f))
    {
      result, failure, failureIndex := r, f, current;
      AbortSequence();
    }

    /** One turn of the interpreter. */
    method Update(e: Env)
      requires Valid()
      modifies this, loopIterations
      ensures Valid() && View() == ActionSpec.Update(old(View()), e)
    {
      hide Execute, Abort, Finish, StopUnlessContinued;
      if !running { return; }
      if e.fault {
        FailRun(Fault, FaultRaised);
      } else if Wrap32(e.now - sequenceStart) > SEQUENCE_TIMEOUT_MS {
        FailRun(TimedOut, SequenceTimeout);
      } else if current >= count {
        FinishSequence();
      } else {
        var i := instrs[current];
        StopPreservedRoadMotionForCurrent();
        ExecuteInstr(i, e);
      }
    }
  }

  /** The mode that is lost: this condition, to be looked at once while driving, is accepted and stored as one
      to wait for. */
  lemma LookOnceBecomesWait(maxRpm: Word16, onSuccess: Byte, onFailure: Byte)
    ensures var c := Condition(13, 0, 1, false, 1000, 0); var i := Encode(OP_DRIVE_IF, 0, c, onSuccess, onFailure);
            Acceptable(OP_DRIVE_IF, c) && InstrValid(i, maxRpm) && Decode(i) == Some(c.(wait := true)) &&
            Decode(i) != Some(c)
  {
    ConditionRoundTrip(OP_DRIVE_IF, 0, Condition(13, 0, 1, false, 1000, 0), onSuccess, onFailure);
  }

  lemma EvaluateIgnoresHistory(r: Runner, bodies: seq<nat>, exits: seq<nat>, i: Instr, e: Env)
    ensures Evaluate(r, i, e) == Evaluate(r.(bodies := bodies, exits := exits), i, e)
  {
  }
}
