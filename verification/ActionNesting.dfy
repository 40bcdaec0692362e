/** Nested loops: what the jumps of a program say about how often its loops turn. */
module ActionNesting {
  import opened Arith
  import opened ActionCondition
  import opened ActionSpec
  import opened ActionSafety

  // ----- jumps -----

  predicate ValidTarget(program: seq<Instr>, target: Byte) {
    target != ACT_NEXT && target < |program|
  }

  /** Where a successful jump from entry `k` lands; the length of the program stands for its end. */
  function Landing(program: seq<Instr>, k: nat, target: Byte): nat {
    if ValidTarget(program, target) then target else k + 1
  }

  /** A jump to `j` leaves the run on the given side; jumps out of the program are free. */
  predicate Lands(region: seq<bool>, j: nat, inside: bool) {
    j < |region| ==> region[j] == inside
  }

  /** Every jump of an ordinary entry stays on the entry's own side. */
  predicate KeepsSide(program: seq<Instr>, region: seq<bool>, k: nat)
    requires k < |program| == |region|
  {
    var i := program[k];
    Lands(region, Landing(program, k, i.onSuccess), region[k]) &&
    (if i.op == OP_LOOP then Lands(region, Landing(program, k, i.onTimeout), region[k])
     else ValidTarget(program, i.onTimeout) ==> region[i.onTimeout] == region[k])
  }

  /** The body of a loop is inside, its exit outside. */
  predicate OpensRegion(program: seq<Instr>, region: seq<bool>, k: nat)
    requires k < |program| == |region|
  {
    var i := program[k];
    i.op == OP_LOOP && Lands(region, Landing(program, k, i.onSuccess), true) &&
    Lands(region, Landing(program, k, i.onTimeout), false)
  }

  /** The outer loop's body leads into a region that is entered nowhere else and is left only by the exit of the
      inner loop, which lies in it. Everything else about the program is free. */
  predicate Nested(program: seq<Instr>, outer: nat, inner: nat, region: seq<bool>) {
    |region| == |program| && outer < |program| && inner < |program| &&
    !region[0] && !region[outer] && region[inner] &&
    OpensRegion(program, region, outer) && OpensRegion(program, region, inner) &&
    forall k :: 0 <= k < |program| && k != outer && k != inner && program[k].op != OP_END ==>
      KeepsSide(program, region, k)
  }

  // ----- what the nesting keeps -----

  /** The inner loop was left once for each entry of the outer body, but for a pass still under way. */
  predicate InStep(r: Runner, outer: nat, inner: nat, inside: bool)
    requires Sized(r) && outer < MAX_INSTRS && inner < MAX_INSTRS
  {
    r.exits[inner] + (if inside then 1 else 0) == r.bodies[outer] && (!inside ==> r.loops[inner] == 0)
  }

  predicate NestingInvariant(r: Runner, outer: nat, inner: nat, region: seq<bool>) {
    Sized(r) && Nested(r.program, outer, inner, region) &&
    (r.running ==> r.current < |r.program| && InStep(r, outer, inner, region[r.current]))
  }

  lemma GotoLands(r: Runner, target: Byte, success: bool)
    requires Sized(r) && r.running
    ensures var g := Goto(r, target, success);
            SameCounts(r, g) && Sized(g) &&
            (g.running ==> g.current < |r.program| &&
                           (if success then g.current == Landing(r.program, r.current, target)
                            else ValidTarget(r.program, target) && g.current == target))
  {
  }

  lemma StopUnlessContinuedStays(r: Runner)
    ensures var q := StopUnlessContinued(r);
            q.running == r.running && q.current == r.current && q.program == r.program && q.loops == r.loops &&
            q.bodies == r.bodies && q.exits == r.exits
  {
  }

  /** A run in step that jumps to the same side, counting nothing, stays in step. */
  lemma JumpKeeps(r: Runner, s: Runner, outer: nat, inner: nat, region: seq<bool>, inside: bool)
    requires Sized(r) && Nested(r.program, outer, inner, region) && InStep(r, outer, inner, inside)
    requires SameCounts(r, s) && Sized(s) && (s.running ==> s.current < |r.program| && region[s.current] == inside)
    ensures NestingInvariant(s, outer, inner, region)
  {
  }

  lemma RetreatNests(r: Runner, i: Instr, f: Failure, outer: nat, inner: nat, region: seq<bool>)
    requires NestingInvariant(r, outer, inner, region) && r.running && i == r.program[r.current] && i.op != OP_LOOP &&
             i.op != OP_END
    ensures NestingInvariant(Retreat(r, i, f), outer, inner, region)
  {
    hide Nested;
    var s := StopAll(r).(lastSuccess := false, failure := f, failureIndex := r.current);
    GotoLands(s, i.onTimeout, false);
    SideOf(r.program, outer, inner, region, r.current);
    JumpKeeps(s, Goto(s, i.onTimeout, false), outer, inner, region, region[r.current]);
  }

  lemma SideOf(program: seq<Instr>, outer: nat, inner: nat, region: seq<bool>, k: nat)
    requires Nested(program, outer, inner, region) && k < |program|
    ensures |region| == |program| && outer < |program| && inner < |program|
    ensures k != outer && k != inner && program[k].op != OP_END ==> KeepsSide(program, region, k)
    ensures OpensRegion(program, region, outer) && OpensRegion(program, region, inner) && outer != inner
    ensures !region[0] && !region[outer] && region[inner]
  {
  }

  lemma SucceedNests(r: Runner, s: Runner, i: Instr, outer: nat, inner: nat, region: seq<bool>)
    requires NestingInvariant(r, outer, inner, region) && r.running && i == r.program[r.current] && i.op != OP_LOOP &&
             i.op != OP_END
    requires s.running && s.current == r.current && SameCounts(r, s) && Sized(s)
    ensures NestingInvariant(StopUnlessContinued(Goto(s, i.onSuccess, true)), outer, inner, region)
  {
    hide Nested;
    GotoLands(s, i.onSuccess, true);
    SideOf(r.program, outer, inner, region, r.current);
    var g := Goto(s, i.onSuccess, true);
    JumpKeeps(r, g, outer, inner, region, region[r.current]);
    StopUnlessContinuedStays(g);
  }

  lemma ConcludeNests(r: Runner, i: Instr, o: Outcome, outer: nat, inner: nat, region: seq<bool>)
    requires NestingInvariant(r, outer, inner, region) && r.running && i == r.program[r.current] && i.op != OP_LOOP &&
             i.op != OP_END
    ensures NestingInvariant(Conclude(r, i, o), outer, inner, region)
  {
    hide Nested, InStep;
    match o
    case Running =>
    case Faulted =>
    case Success =>
      var s := if i.op == OP_ROAD_NAV then r.(preserve := true) else StopAll(r);
      SucceedNests(r, s.(lastSuccess := true, failure := NoFailure, failureIndex := ACT_NEXT), i, outer, inner, region);
    case _ =>
      RetreatNests(r, i, FailureOf(i.op, o), outer, inner, region);
  }

  /** The counts of one loop change as it enters its body or leaves. */
  lemma TurnKeeps(r: Runner, t: Runner, outer: nat, inner: nat, region: seq<bool>, enters: bool)
    requires NestingInvariant(r, outer, inner, region) && r.running && r.program[r.current].op == OP_LOOP
    requires t == if enters then EnterBody(r) else LeaveLoop(r)
    ensures Sized(t) && t.running && t.current == r.current && t.program == r.program
    ensures InStep(t, outer, inner, SideAfter(region, outer, inner, r.current, enters))
  {
    SideOf(r.program, outer, inner, region, r.current);
    hide Nested;
  }

  /** The side a turn of loop `k` leads to. */
  function SideAfter(region: seq<bool>, outer: nat, inner: nat, k: nat, enters: bool): bool
    requires k < |region|
  {
    if k == outer || k == inner then enters else region[k]
  }

  lemma LoopLands(program: seq<Instr>, outer: nat, inner: nat, region: seq<bool>, k: nat, enters: bool)
    requires Nested(program, outer, inner, region) && k < |program| && program[k].op == OP_LOOP
    ensures Lands(region, Landing(program, k, if enters then program[k].onSuccess else program[k].onTimeout),
                  SideAfter(region, outer, inner, k, enters))
  {
    SideOf(program, outer, inner, region, k);
    hide Nested;
  }

  lemma LoopStepNests(r: Runner, i: Instr, outer: nat, inner: nat, region: seq<bool>)
    requires NestingInvariant(r, outer, inner, region) && r.running && i == r.program[r.current] && i.op == OP_LOOP
    ensures NestingInvariant(LoopStep(r, i), outer, inner, region)
  {
    hide NestingInvariant, Nested, InStep, Goto, StopUnlessContinued, EnterBody, LeaveLoop;
    InvariantParts(r, outer, inner, region);
    var s := (if r.preserve then r else StopAll(r))
      .(lastSuccess := true, failure := NoFailure, failureIndex := ACT_NEXT);
    SameNesting(r, s, outer, inner, region);
    if r.loops[r.current] < LoopCount(i) {
      TurnLands(s, EnterBody(s), i, outer, inner, region, true);
    } else {
      TurnLands(s, LeaveLoop(s), i, outer, inner, region, false);
    }
  }

  lemma TurnLands(r: Runner, t: Runner, i: Instr, outer: nat, inner: nat, region: seq<bool>, enters: bool)
    requires NestingInvariant(r, outer, inner, region) && r.running && i == r.program[r.current] && i.op == OP_LOOP
    requires t == if enters then EnterBody(r) else LeaveLoop(r)
    ensures var g := Goto(t, if enters then i.onSuccess else i.onTimeout, true);
            NestingInvariant(StopUnlessContinued(g), outer, inner, region)
  {
    TurnKeeps(r, t, outer, inner, region, enters);
    LoopLands(r.program, outer, inner, region, r.current, enters);
    hide Nested, InStep, Goto, StopUnlessContinued;
    var target := if enters then i.onSuccess else i.onTimeout;
    GotoLands(t, target, true);
    JumpKeeps(t, Goto(t, target, true), outer, inner, region, SideAfter(region, outer, inner, r.current, enters));
    StopUnlessContinuedStays(Goto(t, target, true));
  }

  /** Nothing but the place and the counts matters. */
  lemma SameNesting(r: Runner, s: Runner, outer: nat, inner: nat, region: seq<bool>)
    requires NestingInvariant(r, outer, inner, region) && SameCounts(r, s) && Sized(s) &&
             (s.running ==> s.current == r.current)
    ensures NestingInvariant(s, outer, inner, region)
  {
    hide Nested;
  }

  lemma ContinueNests(r: Runner, i: Instr, e: Env, outer: nat, inner: nat, region: seq<bool>)
    requires NestingInvariant(r, outer, inner, region) && r.running && i == r.program[r.current] && i.op != OP_END
    ensures NestingInvariant(Continue(r, i, e), outer, inner, region)
  {
    hide NestingInvariant, LoopStep, Conclude, Evaluate;
    InvariantParts(r, outer, inner, region);
    if i.op == OP_LOOP {
      LoopStepNests(r, i, outer, inner, region);
    } else {
      var (window, outcome) := Evaluate(r, i, e);
      SameNesting(r, r.(window := window), outer, inner, region);
      ConcludeNests(r.(window := window), i, outcome, outer, inner, region);
    }
  }

  lemma InvariantParts(r: Runner, outer: nat, inner: nat, region: seq<bool>)
    requires NestingInvariant(r, outer, inner, region)
    ensures Sized(r) && (r.running ==> r.current < |r.program| == |region|)
  {
  }

  lemma EndNests(r: Runner, s: Runner, outer: nat, inner: nat, region: seq<bool>)
    requires NestingInvariant(r, outer, inner, region) && SameCounts(r, s) && Sized(s) && !s.running
    ensures NestingInvariant(s, outer, inner, region)
  {
    hide Nested;
  }

  lemma ExecuteNests(r: Runner, i: Instr, e: Env, outer: nat, inner: nat, region: seq<bool>)
    requires NestingInvariant(r, outer, inner, region) && r.running && r.current < |r.program| &&
             i == r.program[r.current]
    ensures NestingInvariant(Execute(r, i, e), outer, inner, region)
  {
    hide NestingInvariant, Continue, Retreat, Nested;
    InvariantParts(r, outer, inner, region);
    if i.op == OP_END {
      EndNests(r, Finish(r), outer, inner, region);
    } else if r.started {
      ContinueNests(r, i, e, outer, inner, region);
    } else if !Starts(i, e) {
      var s := Launched(r, i);
      SameNesting(r, s, outer, inner, region);
      RetreatNests(s, i, StartFailed, outer, inner, region);
    } else {
      var s := Begun(Launched(r, i), i, e);
      SameNesting(r, s, outer, inner, region);
      ContinueNests(s, i, e, outer, inner, region);
    }
  }

  lemma UpdateNests(r: Runner, e: Env, outer: nat, inner: nat, region: seq<bool>)
    requires NestingInvariant(r, outer, inner, region)
    ensures NestingInvariant(Update(r, e), outer, inner, region)
  {
    hide NestingInvariant, Execute;
    InvariantParts(r, outer, inner, region);
    if r.running {
      EndCounts(r, Fault, FaultRaised);
      EndNests(r, Abort(Failed(r, Fault, FaultRaised)), outer, inner, region);
      EndCounts(r, TimedOut, SequenceTimeout);
      EndNests(r, Abort(Failed(r, TimedOut, SequenceTimeout)), outer, inner, region);
      var q := StopUnlessContinued(r);
      SameNesting(r, q, outer, inner, region);
      ExecuteNests(q, r.program[r.current], e, outer, inner, region);
    }
  }

  lemma StartShape(r: Runner, maxRpm: Word16, fault: bool, now: Word32)
    requires Sized(r)
    ensures var s := Start(r, maxRpm, fault, now);
            s.program == r.program && Sized(s) && (r.running ==> s == r) &&
            (!r.running && s.running ==>
               s.current == 0 && s.loops == NoLoops() && s.bodies == NoLoops() && s.exits == NoLoops())
  {
    hide ProgramValid, FirstInvalid;
  }

  lemma StartNests(r: Runner, maxRpm: Word16, fault: bool, now: Word32, outer: nat, inner: nat, region: seq<bool>)
    requires NestingInvariant(r, outer, inner, region)
    ensures NestingInvariant(Start(r, maxRpm, fault, now), outer, inner, region)
  {
    SideOf(r.program, outer, inner, region, outer);
    hide Nested, OpensRegion, KeepsSide, Start;
    StartShape(r, maxRpm, fault, now);
  }

  lemma ActNests(r: Runner, a: Action, outer: nat, inner: nat, region: seq<bool>)
    requires NestingInvariant(r, outer, inner, region)
    ensures NestingInvariant(Act(r, a), outer, inner, region)
  {
    hide Nested, InStep, Update;
    match a
    case DoUpdate(e) => UpdateNests(r, e, outer, inner, region);
    case DoStart(maxRpm, fault, now) => StartNests(r, maxRpm, fault, now, outer, inner, region);
    case DoCancel => EndNests(r, Cancel(r), outer, inner, region);
  }

  /** Through any updates, starts and cancels a program with nested loops stays in step. */
  lemma {:induction false} NestingKept(r: Runner, actions: seq<Action>, outer: nat, inner: nat, region: seq<bool>)
    requires Invariant(r) && NestingInvariant(r, outer, inner, region)
    ensures NestingInvariant(Acts(r, actions), outer, inner, region)
    decreases |actions|
  {
    if actions != [] {
      ActKeeps(r, actions[0]);
      ActNests(r, actions[0], outer, inner, region);
      NestingKept(Act(r, actions[0]), actions[1..], outer, inner, region);
    }
  }

  // ----- the product -----

  lemma ProductOfCounts(n: nat, m: nat, bodies: nat, exits: nat, counter: nat, outerExits: nat, outerCounter: nat,
                        pending: nat)
    requires bodies == n * exits + counter && exits + pending == m * outerExits + outerCounter
    ensures bodies + n * pending == n * (m * outerExits + outerCounter) + counter
  {
    assert n * (exits + pending) == n * exits + n * pending;
  }

  /** In every run of a program with nested loops, from its first start on and at every moment: the inner body has
      been entered the product of the counts for every time the outer loop was left, plus a full inner count for
      every turn of the outer loop since, plus the inner counter, less a full count for a pass under way. So
      whenever the outer loop stands at zero outside its body, exactly the product. */
  lemma NestedLoops(program: seq<Instr>, actions: seq<Action>, outer: nat, inner: nat, region: seq<bool>)
    requires |program| <= MAX_INSTRS && Nested(program, outer, inner, region)
    ensures Invariant(Fresh(program))
    ensures var r := Acts(Fresh(program), actions);
            r.program == program && Sized(r) &&
            (r.running ==>
               var n, m := LoopCount(program[inner]), LoopCount(program[outer]);
               r.current < |program| &&
               r.bodies[inner] + (if region[r.current] then n else 0) ==
                 n * (m * r.exits[outer] + r.loops[outer]) + r.loops[inner] &&
               (r.loops[outer] == 0 && !region[r.current] ==> r.bodies[inner] == n * (m * r.exits[outer])))
  {
    hide Nested, LoopInvariant, MotionInvariant, Fresh;
    var f := Fresh(program);
    FreshHolds(program);
    FreshNests(program, outer, inner, region);
    RunsKeep(f, actions);
    NestingKept(f, actions, outer, inner, region);
    InvariantParts(Acts(f, actions), outer, inner, region);
    if Acts(f, actions).running { CountsMultiply(Acts(f, actions), outer, inner, region); }
  }

  lemma FreshNests(program: seq<Instr>, outer: nat, inner: nat, region: seq<bool>)
    requires |program| <= MAX_INSTRS && Nested(program, outer, inner, region)
    ensures Invariant(Fresh(program)) && Fresh(program).program == program
    ensures NestingInvariant(Fresh(program), outer, inner, region)
  {
    hide Nested;
    FreshHolds(program);
  }

  lemma CountsMultiply(r: Runner, outer: nat, inner: nat, region: seq<bool>)
    requires LoopInvariant(r) && NestingInvariant(r, outer, inner, region) && r.running
    ensures var n, m := LoopCount(r.program[inner]), LoopCount(r.program[outer]);
            r.bodies[inner] + (if region[r.current] then n else 0) ==
              n * (m * r.exits[outer] + r.loops[outer]) + r.loops[inner] &&
            (!region[r.current] ==> r.loops[inner] == 0)
  {
    SideOf(r.program, outer, inner, region, r.current);
    hide Nested;
    assert LoopTally(r, outer) && LoopTally(r, inner);
    ProductOfCounts(LoopCount(r.program[inner]), LoopCount(r.program[outer]), r.bodies[inner], r.exits[inner],
                    r.loops[inner], r.exits[outer], r.loops[outer], if region[r.current] then 1 else 0);
  }

  // ----- any depth -----

  /** Each loop of the chain is nested in the one before; what lies inside a body lies inside the bodies around it. */
  predicate NestedChain(program: seq<Instr>, chain: seq<nat>, regions: seq<seq<bool>>) {
    |chain| > 0 && |regions| == |chain| - 1 && chain[0] < |program| && program[chain[0]].op == OP_LOOP &&
    (forall d :: 0 <= d < |regions| ==> Nested(program, chain[d], chain[d + 1], regions[d])) &&
    (forall d :: 0 < d < |regions| ==> InsideTheLast(regions, d))
  }

  predicate InsideTheLast(regions: seq<seq<bool>>, d: nat)
    requires 0 < d < |regions|
  {
    |regions[d]| <= |regions[d - 1]| && forall k :: 0 <= k < |regions[d]| && regions[d][k] ==> regions[d - 1][k]
  }

  /** The run stands outside the body of the loop at this depth, so far as the next loop is concerned. */
  predicate Outside(r: Runner, regions: seq<seq<bool>>, d: nat) {
    d < |regions| && r.current < |regions[d]| ==> !regions[d][r.current]
  }

  /** How often the body at depth `d` was entered, told by the exits of the outermost loop and the counters alone: a
      full count for each entry of the body around it, but the one under way, and the counter. */
  function Turns(r: Runner, chain: seq<nat>, regions: seq<seq<bool>>, d: nat): int
    requires Sized(r) && d < |chain| == |regions| + 1 && forall j :: 0 <= j < |chain| ==> chain[j] < |r.program|
    decreases d
  {
    var n := LoopCount(r.program[chain[d]]);
    if d == 0 then n * r.exits[chain[0]] + r.loops[chain[0]]
    else
      n * (Turns(r, chain, regions, d - 1) - (if Outside(r, regions, d - 1) then 0 else 1)) + r.loops[chain[d]]
  }

  /** The product of the counts from depth 1 to depth `d`. */
  function CountsTo(program: seq<Instr>, chain: seq<nat>, d: nat): nat
    requires d < |chain| && forall j :: 0 <= j < |chain| ==> chain[j] < |program|
    decreases d
  {
    if d == 0 then 1 else LoopCount(program[chain[d]]) * CountsTo(program, chain, d - 1)
  }

  lemma ChainInside(program: seq<Instr>, chain: seq<nat>, regions: seq<seq<bool>>, d: nat)
    requires NestedChain(program, chain, regions) && d < |chain|
    ensures chain[d] < |program| && program[chain[d]].op == OP_LOOP
    ensures d > 0 ==> Nested(program, chain[d - 1], chain[d], regions[d - 1])
  {
    if d > 0 {
      assert Nested(program, chain[d - 1], chain[d], regions[d - 1]);
      SideOf(program, chain[d - 1], chain[d], regions[d - 1], chain[d - 1]);
    }
  }

  lemma ChainBounds(program: seq<Instr>, chain: seq<nat>, regions: seq<seq<bool>>)
    requires NestedChain(program, chain, regions)
    ensures |chain| == |regions| + 1 && forall j :: 0 <= j < |chain| ==> chain[j] < |program|
  {
    hide Nested;
    forall j | 0 <= j < |chain| ensures chain[j] < |program| { ChainInside(program, chain, regions, j); }
  }

  /** Every pair of neighbours is in step. */
  ghost predicate ChainInStep(r: Runner, chain: seq<nat>, regions: seq<seq<bool>>) {
    LoopInvariant(r) && NestedChain(r.program, chain, regions) && r.running && r.current < |r.program| &&
    forall d :: 0 <= d < |regions| ==> NestingInvariant(r, chain[d], chain[d + 1], regions[d])
  }

  lemma {:induction false} BodiesAreTurns(r: Runner, chain: seq<nat>, regions: seq<seq<bool>>, d: nat)
    requires ChainInStep(r, chain, regions) && Sized(r) && d < |chain| == |regions| + 1
    requires forall j :: 0 <= j < |chain| ==> chain[j] < |r.program|
    ensures r.bodies[chain[d]] == Turns(r, chain, regions, d)
    decreases d
  {
    hide NestingInvariant, Nested;
    ChainInside(r.program, chain, regions, d);
    assert LoopTally(r, chain[d]);
    if d > 0 {
      BodiesAreTurns(r, chain, regions, d - 1);
      assert NestingInvariant(r, chain[d - 1], chain[d], regions[d - 1]);
      StepOfChain(r, chain[d - 1], chain[d], regions[d - 1]);
    }
  }

  lemma StepOfChain(r: Runner, outer: nat, inner: nat, region: seq<bool>)
    requires NestingInvariant(r, outer, inner, region) && r.running
    ensures r.current < |r.program| == |region| && Sized(r) && outer < |r.program| && inner < |r.program|
    ensures r.exits[inner] == r.bodies[outer] - (if region[r.current] then 1 else 0)
    ensures !region[r.current] ==> r.loops[inner] == 0
  {
    SideOf(r.program, outer, inner, region, outer);
    hide Nested;
  }

  lemma {:induction false} OutsideAll(r: Runner, chain: seq<nat>, regions: seq<seq<bool>>, d: nat)
    requires NestedChain(r.program, chain, regions) && r.current < |r.program| && Outside(r, regions, 0)
    ensures Outside(r, regions, d)
    decreases d
  {
    if 0 < d < |regions| {
      OutsideAll(r, chain, regions, d - 1);
      assert InsideTheLast(regions, d);
    }
  }

  /** Outside the outermost body every inner counter is zero, and what is left is the product. */
  lemma {:induction false} TurnsOutside(r: Runner, chain: seq<nat>, regions: seq<seq<bool>>, d: nat)
    requires ChainInStep(r, chain, regions) && Sized(r) && d < |chain| == |regions| + 1
    requires forall j :: 0 <= j < |chain| ==> chain[j] < |r.program|
    requires Outside(r, regions, 0)
    ensures Turns(r, chain, regions, d) == CountsTo(r.program, chain, d) * Turns(r, chain, regions, 0)
    decreases d
  {
    if d > 0 {
      TurnsOutside(r, chain, regions, d - 1);
      OutsideCounter(r, chain, regions, d);
      hide ChainInStep;
      ProductStep(LoopCount(r.program[chain[d]]), CountsTo(r.program, chain, d - 1), Turns(r, chain, regions, 0));
    }
  }

  lemma OutsideCounter(r: Runner, chain: seq<nat>, regions: seq<seq<bool>>, d: nat)
    requires ChainInStep(r, chain, regions) && Sized(r) && 0 < d < |chain| == |regions| + 1
    requires forall j :: 0 <= j < |chain| ==> chain[j] < |r.program|
    requires Outside(r, regions, 0)
    ensures Outside(r, regions, d - 1) && r.loops[chain[d]] == 0
  {
    hide NestingInvariant, LoopInvariant, NestedChain;
    OutsideAll(r, chain, regions, d - 1);
    assert NestingInvariant(r, chain[d - 1], chain[d], regions[d - 1]);
    StepOfChain(r, chain[d - 1], chain[d], regions[d - 1]);
  }

  lemma ProductStep(n: nat, m: nat, turns: int)
    ensures n * (m * turns) == n * m * turns
  {
  }

  lemma ChainKept(program: seq<Instr>, actions: seq<Action>, chain: seq<nat>, regions: seq<seq<bool>>)
    requires |program| <= MAX_INSTRS && NestedChain(program, chain, regions)
    ensures Invariant(Fresh(program))
    ensures var r := Acts(Fresh(program), actions);
            r.program == program && Sized(r) && (r.running ==> ChainInStep(r, chain, regions))
  {
    hide Nested, NestingInvariant, LoopInvariant, Acts;
    var f := Fresh(program);
    FreshHolds(program);
    RunsKeep(f, actions);
    var r := Acts(f, actions);
    forall d | 0 <= d < |regions| ensures NestingInvariant(r, chain[d], chain[d + 1], regions[d]) {
      FreshNests(program, chain[d], chain[d + 1], regions[d]);
      NestingKept(f, actions, chain[d], chain[d + 1], regions[d]);
    }
  }

  /** Loops nested to any depth, in every run from the first start on and at every moment: each body was entered as
      often as the counters say; and whenever the run stands outside the outermost body, exactly the product of the
      inner counts for every turn of the outermost loop. */
  lemma ChainOfLoops(program: seq<Instr>, actions: seq<Action>, chain: seq<nat>, regions: seq<seq<bool>>, d: nat)
    requires |program| <= MAX_INSTRS && NestedChain(program, chain, regions) && d < |chain|
    ensures Invariant(Fresh(program))
    ensures |chain| == |regions| + 1 && forall j :: 0 <= j < |chain| ==> chain[j] < |program|
    ensures var r := Acts(Fresh(program), actions);
            r.program == program && Sized(r) &&
            (r.running ==>
               r.bodies[chain[d]] == Turns(r, chain, regions, d) &&
               (Outside(r, regions, 0) ==>
                  r.bodies[chain[d]] ==
                    CountsTo(program, chain, d) *
                      (LoopCount(program[chain[0]]) * r.exits[chain[0]] + r.loops[chain[0]])))
  {
    hide NestedChain, ChainInStep, Fresh, Acts, CountsTo;
    ChainBounds(program, chain, regions);
    ChainKept(program, actions, chain, regions);
    var r := Acts(Fresh(program), actions);
    if r.running {
      BodiesAreTurns(r, chain, regions, d);
      if Outside(r, regions, 0) { TurnsOutside(r, chain, regions, d); }
    }
  }

  // ----- the usual shape -----

  /** Outer loop, inner loop, a body, the way back to the outer loop, and the rest. */
  predicate UsualShape(program: seq<Instr>) {
    |program| == 5 && program[0].op == OP_LOOP && program[0].onSuccess == 1 && program[0].onTimeout == 4 &&
    program[1].op == OP_LOOP && program[1].onSuccess == 2 && program[1].onTimeout == 3 &&
    program[2].op != OP_LOOP && program[2].onSuccess == 1 && program[2].onTimeout == ACT_NEXT &&
    program[3].op != OP_LOOP && program[3].onSuccess == 0 && program[3].onTimeout == ACT_NEXT && program[4].op == OP_END
  }

  /** Programs of that shape are nested. */
  lemma UsualShapeNests(program: seq<Instr>)
    requires UsualShape(program)
    ensures Nested(program, 0, 1, [false, true, true, false, false])
  {
    var region := [false, true, true, false, false];
    assert OpensRegion(program, region, 0) && OpensRegion(program, region, 1);
    assert KeepsSide(program, region, 2) && KeepsSide(program, region, 3);
  }

  /** Three loops, a body, and the way back out. */
  predicate ThreeDeep(program: seq<Instr>) {
    |program| == 7 && program[0].op == OP_LOOP && program[0].onSuccess == 1 && program[0].onTimeout == 6 &&
    program[1].op == OP_LOOP && program[1].onSuccess == 2 && program[1].onTimeout == 5 &&
    program[2].op == OP_LOOP && program[2].onSuccess == 3 && program[2].onTimeout == 4 &&
    program[3].op != OP_LOOP && program[3].onSuccess == 2 && program[3].onTimeout == ACT_NEXT &&
    program[4].op != OP_LOOP && program[4].onSuccess == 1 && program[4].onTimeout == ACT_NEXT &&
    program[5].op != OP_LOOP && program[5].onSuccess == 0 && program[5].onTimeout == ACT_NEXT && program[6].op == OP_END
  }

  lemma ThreeDeepNests(program: seq<Instr>, around: seq<bool>, within: seq<bool>)
    requires ThreeDeep(program)
    requires around == [false, true, true, true, true, false, false]
    requires within == [false, false, true, true, false, false, false]
    ensures NestedChain(program, [0, 1, 2], [around, within])
  {
    assert OpensRegion(program, around, 0) && OpensRegion(program, around, 1);
    assert forall k :: 2 <= k < 6 ==> KeepsSide(program, around, k);
    assert Nested(program, 0, 1, around);
    assert OpensRegion(program, within, 1) && OpensRegion(program, within, 2);
    assert KeepsSide(program, within, 0) && forall k :: 3 <= k < 6 ==> KeepsSide(program, within, k);
    assert Nested(program, 1, 2, within);
  }
}
