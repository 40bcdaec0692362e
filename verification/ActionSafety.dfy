/** What every run of every program keeps: motion stays contained, loops count exactly. */
module ActionSafety {
  import opened Arith
  import opened ActionCondition
  import opened ActionSpec

  predicate Sized(r: Runner) {
    |r.loops| == MAX_INSTRS && |r.bodies| == MAX_INSTRS && |r.exits| == MAX_INSTRS && |r.program| <= MAX_INSTRS
  }

  /** The operation the run stands at. */
  function CurrentOp(r: Runner): int
    requires r.current < |r.program|
  {
    r.program[r.current].op
  }

  /** A road manoeuvre is preserved only on the way into an instruction that continues it. */
  predicate PreserveContained(r: Runner) {
    r.preserve ==> r.running && !r.started && r.current < |r.program| && Continues(CurrentOp(r))
  }

  /** The chassis may move only for a started motion instruction or a preserved road manoeuvre. */
  predicate MotionContained(r: Runner) {
    r.moving ==> r.running && r.current < |r.program| && ((r.started && IsMotion(CurrentOp(r))) || r.preserve)
  }

  predicate Stopped(r: Runner) {
    !r.moving && !r.preserve && !r.dm && r.window == IDLE_WINDOW && r.loops == NoLoops()
  }

  predicate MotionInvariant(r: Runner) {
    Sized(r) && PreserveContained(r) && MotionContained(r) &&
    (r.running ==> r.current < |r.program|) && (!r.running ==> Stopped(r))
  }

  // ----- transitions -----

  lemma EndedKeeps(r: Runner)
    requires Sized(r)
    ensures Stopped(Ended(r)) && MotionInvariant(Finish(r)) && MotionInvariant(Abort(r))
    ensures !Finish(r).running && !Abort(r).running
  {
  }

  /** A jump from a state that is not moving leads to one that is not moving. */
  lemma GotoAtRest(r: Runner, target: Byte, success: bool)
    requires Sized(r) && r.running && r.current < |r.program| && !r.moving && !r.preserve
    ensures MotionInvariant(Goto(r, target, success))
  {
    var s := r.(instrStart := 0, started := false);
    EndedKeeps(s);
    EndedKeeps(s.(current := r.current + 1));
  }

  /** A jump with a preserved road manoeuvre goes on or stops it. */
  lemma GotoPreserving(r: Runner, target: Byte)
    requires Sized(r) && r.running && r.current < |r.program| && (r.moving ==> r.preserve)
    ensures MotionInvariant(StopUnlessContinued(Goto(r, target, true)))
  {
    hide MotionInvariant, Ended;
    var s := r.(instrStart := 0, started := false);
    var g := Goto(r, target, true);
    if target != ACT_NEXT && target < |r.program| {
      assert g == s.(current := target);
      ContinuedOrStopped(g);
    } else if r.current + 1 < |r.program| {
      assert g == s.(current := r.current + 1);
      ContinuedOrStopped(g);
    } else {
      EndedKeeps(s.(current := r.current + 1));
      assert StopUnlessContinued(g) == g;
    }
  }

  lemma ContinuedOrStopped(r: Runner)
    requires Sized(r) && r.running && !r.started && r.current < |r.program| && (r.moving ==> r.preserve)
    ensures MotionInvariant(StopUnlessContinued(r))
  {
  }

  lemma LoopStepKeeps(r: Runner, i: Instr)
    requires Sized(r) && r.running && r.current < |r.program| && i == r.program[r.current] && i.op == OP_LOOP
    requires MotionContained(r)
    ensures MotionInvariant(LoopStep(r, i))
  {
    var s := (if r.preserve then r else StopAll(r))
      .(lastSuccess := true, failure := NoFailure, failureIndex := ACT_NEXT);
    if r.loops[r.current] < LoopCount(i) {
      GotoPreserving(EnterBody(s), i.onSuccess);
    } else {
      GotoPreserving(LeaveLoop(s), i.onTimeout);
    }
  }

  /** Between instructions: what an instruction in progress may leave before it is judged. */
  predicate InProgress(r: Runner, i: Instr) {
    Sized(r) && r.running && r.current < |r.program| && i == r.program[r.current] && r.started &&
    (r.preserve ==> i.op == OP_LOOP) && (r.moving ==> IsMotion(i.op) || r.preserve)
  }

  lemma RetreatKeeps(r: Runner, i: Instr, f: Failure)
    requires Sized(r) && r.running && r.current < |r.program|
    ensures MotionInvariant(Retreat(r, i, f))
  {
    GotoAtRest(StopAll(r).(lastSuccess := false, failure := f, failureIndex := r.current), i.onTimeout, false);
  }

  lemma ConcludeKeeps(r: Runner, i: Instr, o: Outcome)
    requires InProgress(r, i) && i.op != OP_LOOP
    ensures MotionInvariant(Conclude(r, i, o))
  {
    match o
    case Running =>
    case Faulted => EndedKeeps(Failed(r, Fault, FaultRaised));
    case Success =>
      var s := if i.op == OP_ROAD_NAV then r.(preserve := true) else StopAll(r);
      GotoPreserving(s.(lastSuccess := true, failure := NoFailure, failureIndex := ACT_NEXT), i.onSuccess);
    case _ =>
      RetreatKeeps(r, i, FailureOf(i.op, o));
  }

  lemma ContinueKeeps(r: Runner, i: Instr, e: Env)
    requires InProgress(r, i)
    ensures MotionInvariant(Continue(r, i, e))
  {
    if i.op == OP_LOOP {
      LoopStepKeeps(r, i);
    } else {
      var (window, outcome) := Evaluate(r, i, e);
      ConcludeKeeps(r.(window := window), i, outcome);
    }
  }

  lemma ExecuteKeeps(r: Runner, i: Instr, e: Env)
    requires MotionInvariant(r) && r.running && i == r.program[r.current]
    ensures MotionInvariant(Execute(r, i, e))
  {
    EndedKeeps(r);
    if i.op == OP_END {
    } else if r.started {
      ContinueKeeps(r, i, e);
    } else if !Starts(i, e) {
      RetreatKeeps(Launched(r, i), i, StartFailed);
    } else {
      ContinueKeeps(Begun(Launched(r, i), i, e), i, e);
    }
  }

  lemma StopUnlessContinuedKeeps(r: Runner)
    requires MotionInvariant(r)
    ensures var q := StopUnlessContinued(r);
            MotionInvariant(q) && q.running == r.running && q.program == r.program && q.current == r.current
  {
  }

  /** One update of any program keeps motion contained. */
  lemma UpdateKeeps(r: Runner, e: Env)
    requires MotionInvariant(r)
    ensures MotionInvariant(Update(r, e))
  {
    if r.running {
      EndedKeeps(Failed(r, Fault, FaultRaised));
      EndedKeeps(Failed(r, TimedOut, SequenceTimeout));
      StopUnlessContinuedKeeps(r);
      ExecuteKeeps(StopUnlessContinued(r), r.program[r.current], e);
    }
  }

  lemma StartKeeps(r: Runner, maxRpm: Word16, fault: bool, now: Word32)
    requires MotionInvariant(r)
    ensures MotionInvariant(Start(r, maxRpm, fault, now))
    ensures Start(r, maxRpm, fault, now).running && !r.running ==> ProgramValid(r.program, maxRpm) && !fault
  {
  }

  lemma CancelKeeps(r: Runner)
    requires Sized(r)
    ensures MotionInvariant(Cancel(r)) && Stopped(Cancel(r)) && !Cancel(r).running && Cancel(r).result == Cancelled
  {
    EndedKeeps(r.(result := Cancelled, failure := CancelRequested,
                  failureIndex := if r.running then r.current else ACT_NEXT));
  }

  // ----- loop counts -----

  /** With `n` as its count, a loop that has left `exits` times and stands at `counter` has entered its body `bodies`
      times. */
  predicate Tally(n: nat, bodies: nat, exits: nat, counter: nat) {
    counter <= n && bodies == n * exits + counter
  }

  predicate LoopTally(r: Runner, k: nat)
    requires k < |r.program| <= MAX_INSTRS && |r.loops| == |r.bodies| == |r.exits| == MAX_INSTRS
  {
    var n := LoopCount(r.program[k]);
    if r.running then Tally(n, r.bodies[k], r.exits[k], r.loops[k])
    else exists counter :: 0 <= counter <= n && Tally(n, r.bodies[k], r.exits[k], counter)
  }

  predicate LoopInvariant(r: Runner) {
    Sized(r) && forall k :: 0 <= k < |r.program| && r.program[k].op == OP_LOOP ==> LoopTally(r, k)
  }

  /** A step that enters and leaves no loop: counts unchanged, counters too unless the run ended. */
  predicate SameCounts(r: Runner, s: Runner) {
    s.program == r.program && s.bodies == r.bodies && s.exits == r.exits && |s.loops| == MAX_INSTRS &&
    (s.running ==> r.running && s.loops == r.loops)
  }

  lemma SameCountsKeeps(r: Runner, s: Runner)
    requires LoopInvariant(r) && SameCounts(r, s)
    ensures LoopInvariant(s)
  {
    forall k | 0 <= k < |s.program| && s.program[k].op == OP_LOOP ensures LoopTally(s, k) {
      assert LoopTally(r, k);
    }
  }

  lemma GotoCounts(r: Runner, target: Byte, success: bool)
    requires Sized(r) && r.running
    ensures SameCounts(r, Goto(r, target, success)) && SameCounts(r, StopUnlessContinued(Goto(r, target, success)))
  {
  }

  lemma RetreatCounts(r: Runner, i: Instr, f: Failure)
    requires Sized(r) && r.running
    ensures SameCounts(r, Retreat(r, i, f))
  {
    GotoCounts(StopAll(r).(lastSuccess := false, failure := f, failureIndex := r.current), i.onTimeout, false);
  }

  lemma ConcludeCounts(r: Runner, i: Instr, o: Outcome)
    requires Sized(r) && r.running
    ensures SameCounts(r, Conclude(r, i, o))
  {
    match o
    case Running =>
    case Faulted =>
    case Success =>
      var s := if i.op == OP_ROAD_NAV then r.(preserve := true) else StopAll(r);
      GotoCounts(s.(lastSuccess := true, failure := NoFailure, failureIndex := ACT_NEXT), i.onSuccess, true);
    case _ =>
      RetreatCounts(r, i, FailureOf(i.op, o));
  }

  lemma EntersBody(n: nat, bodies: nat, exits: nat, counter: nat)
    requires Tally(n, bodies, exits, counter) && counter < n
    ensures Tally(n, bodies + 1, exits, counter + 1)
  {
  }

  lemma LeavesLoop(n: nat, bodies: nat, exits: nat, counter: nat)
    requires Tally(n, bodies, exits, counter) && counter >= n
    ensures Tally(n, bodies, exits + 1, 0)
  {
    assert n * (exits + 1) == n * exits + n;
  }

  lemma LoopStepCounts(r: Runner, i: Instr)
    requires LoopInvariant(r) && r.running && r.current < |r.program| && i == r.program[r.current] && i.op == OP_LOOP
    ensures LoopInvariant(LoopStep(r, i))
  {
    var s := (if r.preserve then r else StopAll(r))
      .(lastSuccess := true, failure := NoFailure, failureIndex := ACT_NEXT);
    var c := r.current;
    assert LoopTally(r, c);
    if r.loops[c] < LoopCount(i) {
      EntersBody(LoopCount(i), r.bodies[c], r.exits[c], r.loops[c]);
      var t := EnterBody(s);
      CountsAt(r, t, c);
      GotoCounts(t, i.onSuccess, true);
      SameCountsKeeps(t, LoopStep(r, i));
    } else {
      LeavesLoop(LoopCount(i), r.bodies[c], r.exits[c], r.loops[c]);
      var t := LeaveLoop(s);
      CountsAt(r, t, c);
      GotoCounts(t, i.onTimeout, true);
      SameCountsKeeps(t, LoopStep(r, i));
    }
  }

  /** Changing the counts of one loop leaves every other loop's tally alone. */
  lemma CountsAt(r: Runner, t: Runner, c: nat)
    requires LoopInvariant(r) && r.running && t.running && Sized(t) && t.program == r.program && c < |r.program|
    requires forall k :: 0 <= k < MAX_INSTRS && k != c ==>
             t.loops[k] == r.loops[k] && t.bodies[k] == r.bodies[k] && t.exits[k] == r.exits[k]
    requires LoopTally(t, c)
    ensures LoopInvariant(t)
  {
    forall k | 0 <= k < |t.program| && t.program[k].op == OP_LOOP ensures LoopTally(t, k) {
      if k != c { assert LoopTally(r, k); }
    }
  }

  lemma ContinueCounts(r: Runner, i: Instr, e: Env)
    requires LoopInvariant(r) && r.running && r.current < |r.program| && i == r.program[r.current]
    ensures LoopInvariant(Continue(r, i, e))
  {
    if i.op == OP_LOOP {
      LoopStepCounts(r, i);
    } else {
      var (window, outcome) := Evaluate(r, i, e);
      var s := r.(window := window);
      ConcludeCounts(s, i, outcome);
      SameCountsKeeps(r, Conclude(s, i, outcome));
    }
  }

  lemma ExecuteCounts(r: Runner, i: Instr, e: Env)
    requires LoopInvariant(r) && r.running && r.current < |r.program| && i == r.program[r.current]
    ensures LoopInvariant(Execute(r, i, e))
  {
    hide Continue, Retreat;
    if i.op == OP_END {
      SameCountsKeeps(r, Finish(r));
    } else if r.started {
      ContinueCounts(r, i, e);
    } else if !Starts(i, e) {
      RetreatCounts(Launched(r, i), i, StartFailed);
      SameCountsKeeps(r, Retreat(Launched(r, i), i, StartFailed));
    } else {
      var s := Begun(Launched(r, i), i, e);
      SameCountsKeeps(r, s);
      ContinueCounts(s, i, e);
    }
  }

  lemma EndCounts(r: Runner, result: Result, failure: Failure)
    requires Sized(r) && r.running
    ensures SameCounts(r, Abort(Failed(r, result, failure))) && SameCounts(r, Finish(r))
    ensures var q := StopUnlessContinued(r); SameCounts(r, q) && q.running && q.current == r.current
  {
  }

  lemma UpdateCounts(r: Runner, e: Env)
    requires LoopInvariant(r)
    ensures LoopInvariant(Update(r, e))
  {
    if r.running {
      EndCounts(r, Fault, FaultRaised);
      SameCountsKeeps(r, Abort(Failed(r, Fault, FaultRaised)));
      EndCounts(r, TimedOut, SequenceTimeout);
      SameCountsKeeps(r, Abort(Failed(r, TimedOut, SequenceTimeout)));
      SameCountsKeeps(r, Finish(r));
      SameCountsKeeps(r, StopUnlessContinued(r));
      if r.current < |r.program| { ExecuteCounts(StopUnlessContinued(r), r.program[r.current], e); }
    }
  }

  lemma StartCounts(r: Runner, maxRpm: Word16, fault: bool, now: Word32)
    requires LoopInvariant(r)
    ensures LoopInvariant(Start(r, maxRpm, fault, now))
  {
    var s := Start(r, maxRpm, fault, now);
    if !r.running {
      forall k | 0 <= k < |s.program| && s.program[k].op == OP_LOOP ensures LoopTally(s, k) {
        assert s.loops[k] == 0 && s.bodies[k] == 0 && s.exits[k] == 0;
        EmptyTally(LoopCount(s.program[k]));
      }
    }
  }

  lemma EmptyTally(n: nat)
    ensures Tally(n, 0, 0, 0)
  {
    assert n * 0 == 0;
  }

  // ----- whole runs -----

  datatype Action = DoUpdate(e: Env) | DoStart(maxRpm: Word16, fault: bool, now: Word32) | DoCancel

  function Act(r: Runner, a: Action): Runner
    requires Sized(r)
  {
    match a
    case DoUpdate(e) => Update(r, e)
    case DoStart(maxRpm, fault, now) => Start(r, maxRpm, fault, now)
    case DoCancel => Cancel(r)
  }

  predicate Invariant(r: Runner) {
    MotionInvariant(r) && LoopInvariant(r)
  }

  lemma ActKeeps(r: Runner, a: Action)
    requires Invariant(r)
    ensures Invariant(Act(r, a)) && Act(r, a).program == r.program
  {
    match a
    case DoUpdate(e) =>
      UpdateKeeps(r, e);
      UpdateCounts(r, e);
      ProgramFixed(r, e);
    case DoStart(maxRpm, fault, now) =>
      StartKeeps(r, maxRpm, fault, now);
      StartCounts(r, maxRpm, fault, now);
    case DoCancel =>
      CancelKeeps(r);
      SameCountsKeeps(r, Cancel(r));
  }

  lemma ProgramFixed(r: Runner, e: Env)
    requires Sized(r)
    ensures Update(r, e).program == r.program
  {
  }

  function Acts(r: Runner, actions: seq<Action>): Runner
    requires Invariant(r)
    decreases |actions|
  {
    if actions == [] then r
    else
      ActKeeps(r, actions[0]);
      Acts(Act(r, actions[0]), actions[1..])
  }

  /** The interpreter before its first run. */
  function Fresh(program: seq<Instr>): Runner {
    Runner(program, 0, false, false, false, 0, 0, NoLoops(), IDLE_WINDOW, Idle, false, NoFailure, ACT_NEXT,
           false, false, NoLoops(), NoLoops())
  }

  lemma FreshHolds(program: seq<Instr>)
    requires |program| <= MAX_INSTRS
    ensures Invariant(Fresh(program))
  {
    var r := Fresh(program);
    forall k | 0 <= k < |r.program| && r.program[k].op == OP_LOOP ensures LoopTally(r, k) {
      EmptyTally(LoopCount(r.program[k]));
    }
  }

  /** No run outlives the sequence cap: the first update past it ends the run with everything stopped. */
  lemma CapEndsRun(r: Runner, e: Env)
    requires MotionInvariant(r) && Wrap32(e.now - r.sequenceStart) > SEQUENCE_TIMEOUT_MS
    ensures !Update(r, e).running && Stopped(Update(r, e))
  {
    UpdateKeeps(r, e);
  }

  /** Every run of every program, started, updated and cancelled in any order under any conditions: the chassis
      moves only for a started motion instruction or a preserved road manoeuvre, a run that ends leaves
      everything stopped and every counter at zero, and each loop has entered its body exactly its count times
      for every time it was left, plus its counter. */
  lemma {:induction false} RunsKeep(r: Runner, actions: seq<Action>)
    requires Invariant(r)
    ensures var s := Acts(r, actions);
            Invariant(s) && s.program == r.program &&
            (s.moving ==>
               s.running && ((s.started && IsMotion(CurrentOp(s))) || (s.preserve && Continues(CurrentOp(s))))) &&
            (!s.running ==> Stopped(s))
    decreases |actions|
  {
    if actions != [] {
      ActKeeps(r, actions[0]);
      RunsKeep(Act(r, actions[0]), actions[1..]);
    }
  }
}
