/** Conditions of the sequence interpreter: the comparison, its packed form inside an instruction, and the wait
    for a condition that stays true. */
module ActionCondition {
  import opened Arith

  const OP_DRIVE: int := 1
  const OP_TURN: int := 2
  const OP_FOLLOW: int := 3
  const OP_WAIT: int := 4
  const OP_STOP: int := 5
  const OP_BRANCH: int := 6
  const OP_END: int := 7
  const OP_DRIVE_MM: int := 8
  const OP_LED_ON: int := 9
  const OP_LED_OFF: int := 10
  const OP_LED_TOGGLE: int := 11
  const OP_BUZZER_ON: int := 12
  const OP_BUZZER_OFF: int := 13
  const OP_BUZZER_TOGGLE: int := 14
  const OP_CONDITION: int := 15
  const OP_DRIVE_IF: int := 16
  const OP_FOLLOW_IF: int := 17
  const OP_LOOP: int := 18
  const OP_ROAD_NAV: int := 19
  const OP_DM_POSITION: int := 20
  const OP_DM_SPEED: int := 21
  const OP_DM_DISABLE: int := 22

  /** `until` is a plain condition code, or for comparison instructions the packed source and comparison. */
  datatype Instr = Instr(op: int, param1: Int32, param2: Int32, until: int, value: Int32, onSuccess: Byte,
                         onTimeout: Byte)

  const SOURCE_COUNT: nat := 28
  const CONTAINS: nat := 6
  const NOT_CONTAINS: nat := 7
  const TICK_MS: nat := 50
  const MAX_TIMEOUT_MS: nat := 30000
  const MAX_STABLE_MS: nat := 1000

  datatype Condition = Condition(source: nat, compare: nat, value: Int32, wait: bool, timeoutMs: Word16,
                                 stableMs: Word16)

  predicate IsCompareOp(op: int) {
    op == OP_CONDITION || op == OP_DRIVE_IF || op == OP_FOLLOW_IF
  }

  /** Every bit of `mask`, among the lowest `n`, is set in `actual`. */
  predicate HasBits(actual: int, mask: int, n: nat)
    decreases n
  {
    n == 0 || ((mask % 2 == 1 ==> actual % 2 == 1) && HasBits(actual / 2, mask / 2, n - 1))
  }

  predicate CompareValue(actual: Int32, compare: nat, expected: Int32) {
    match compare
    case 0 => actual == expected
    case 1 => actual != expected
    case 2 => actual < expected
    case 3 => actual <= expected
    case 4 => actual > expected
    case 5 => actual >= expected
    case 6 => HasBits(actual, expected, 32)
    case 7 => !HasBits(actual, expected, 32)
    case _ => false
  }

  // ----- the packed form -----

  /** Ten bits of timeout, five of stability, one for waiting. */
  function Timing(op: int, c: Condition): Word16 {
    (c.timeoutMs / TICK_MS) % 0x400 + ((c.stableMs / TICK_MS) % 0x20) * 0x400 +
    (if op == OP_CONDITION && c.wait then 0x8000 else 0)
  }

  function Encode(op: int, param1: Int32, c: Condition, onSuccess: Byte, onTimeout: Byte): Instr {
    Instr(op, param1, Timing(op, c), (c.source * 8 + c.compare) % 0x100, c.value, onSuccess, onTimeout)
  }

  function Decode(i: Instr): Option<Condition> {
    var raw, timing := i.until % 0x100, i.param2 % 0x1_0000;
    if !IsCompareOp(i.op) || raw / 8 >= SOURCE_COUNT then None
    else Some(Condition(raw / 8, raw % 8, i.value, i.op != OP_CONDITION || timing >= 0x8000,
                        (timing % 0x400) * TICK_MS, ((timing / 0x400) % 0x20) * TICK_MS))
  }

  /** What the interpreter accepts when an instruction with this condition is added. */
  predicate Acceptable(op: int, c: Condition) {
    IsCompareOp(op) && c.source < SOURCE_COUNT && c.compare <= NOT_CONTAINS &&
    c.timeoutMs % TICK_MS == 0 && c.stableMs % TICK_MS == 0 && c.timeoutMs <= MAX_TIMEOUT_MS &&
    c.stableMs <= MAX_STABLE_MS &&
    (op == OP_CONDITION && !c.wait ==> c.timeoutMs == 0 && c.stableMs == 0) &&
    (op != OP_CONDITION || c.wait ==> c.timeoutMs != 0)
  }

  lemma TimingFields(op: int, c: Condition)
    requires Acceptable(op, c)
    ensures var t := Timing(op, c);
            (t % 0x400) * TICK_MS == c.timeoutMs && ((t / 0x400) % 0x20) * TICK_MS == c.stableMs &&
            (t >= 0x8000 <==> op == OP_CONDITION && c.wait)
  {
    var ticks, stable := c.timeoutMs / TICK_MS, c.stableMs / TICK_MS;
    TimingDigits(ticks, stable, op == OP_CONDITION && c.wait);
  }

  lemma TimingDigits(ticks: nat, stable: nat, wait: bool)
    requires ticks < 0x400 && stable < 0x20
    ensures var t := ticks % 0x400 + (stable % 0x20) * 0x400 + (if wait then 0x8000 else 0);
            t % 0x400 == ticks && (t / 0x400) % 0x20 == stable && (t >= 0x8000 <==> wait)
  {
  }

  /** Adding a condition and reading it back gives the same condition, except that the two motion-until
      instructions always wait: for them the mode is kept exactly when it was to wait. */
  lemma ConditionRoundTrip(op: int, param1: Int32, c: Condition, onSuccess: Byte, onTimeout: Byte)
    requires Acceptable(op, c)
    ensures Decode(Encode(op, param1, c, onSuccess, onTimeout)) == Some(c.(wait := c.wait || op != OP_CONDITION))
    ensures Decode(Encode(op, param1, c, onSuccess, onTimeout)) == Some(c) <==> op == OP_CONDITION || c.wait
  {
    hide Timing;
    TimingFields(op, c);
    SpecFields(c.source, c.compare);
    DecodesTo(Encode(op, param1, c, onSuccess, onTimeout), (c.source * 8 + c.compare) % 0x100, Timing(op, c));
  }

  lemma SpecFields(source: nat, compare: nat)
    requires source < SOURCE_COUNT && compare <= NOT_CONTAINS
    ensures var raw := (source * 8 + compare) % 0x100; raw / 8 == source && raw % 8 == compare
  {
  }

  /** What is in range reads as it is stored. */
  lemma DecodesTo(i: Instr, raw: Byte, timing: Word16)
    requires i.until == raw && i.param2 == timing
    ensures Decode(i) ==
            if !IsCompareOp(i.op) || raw / 8 >= SOURCE_COUNT then None
            else Some(Condition(raw / 8, raw % 8, i.value, i.op != OP_CONDITION || timing >= 0x8000,
                                (timing % 0x400) * TICK_MS, ((timing / 0x400) % 0x20) * TICK_MS))
  {
    assert raw % 0x100 == raw && timing % 0x1_0000 == timing;
  }

  lemma DigitsOfTiming(t: Word16)
    ensures t == t % 0x400 + ((t / 0x400) % 0x20) * 0x400 + (if t >= 0x8000 then 0x8000 else 0)
  {
  }

  /** Conversely, every instruction that decodes is the packed form of what it decodes to. */
  lemma PackedFormIsUnique(i: Instr)
    requires Decode(i).Some? && 0 <= i.until < 0x100
    requires 0 <= i.param2 < 0x8000 || (i.op == OP_CONDITION && 0 <= i.param2 < 0x1_0000)
    ensures Encode(i.op, i.param1, Decode(i).value, i.onSuccess, i.onTimeout) == i
  {
    hide Timing;
    var c, t := Decode(i).value, i.param2;
    DecodesTo(i, i.until, t);
    hide Decode;
    TimingIs(i.op, c, t);
    SpecDigits(i.until);
  }

  lemma TimingIs(op: int, c: Condition, t: Word16)
    requires c.timeoutMs == (t % 0x400) * TICK_MS && c.stableMs == ((t / 0x400) % 0x20) * TICK_MS
    requires op == OP_CONDITION && c.wait <==> t >= 0x8000
    ensures Timing(op, c) == t
  {
    TicksBack(t % 0x400);
    TicksBack((t / 0x400) % 0x20);
    DigitsOfTiming(t);
  }

  lemma TicksBack(n: nat)
    ensures (n * TICK_MS) / TICK_MS == n
  {
  }

  lemma SpecDigits(raw: Byte)
    ensures (raw / 8 * 8 + raw % 8) % 0x100 == raw
  {
  }

  // ----- waiting for a condition that stays true -----

  datatype Window = Window(pending: bool, since: Word32)

  datatype Outcome = Running | Success | Untrue | Timeout | Unavailable | RouteUnavailable | ReacquireFailed | Faulted

  const IDLE_WINDOW: Window := Window(false, 0)

  /** One look at the condition; `reading` is None when its source has nothing valid to offer. */
  function Look(c: Condition, w: Window, startedAt: Word32, now: Word32, reading: Option<Int32>): (Window, Outcome) {
    if reading.None? then (w, Unavailable)
    else
      var matches := CompareValue(reading.value, c.compare, c.value);
      if !c.wait then (w, if matches then Success else Untrue)
      else if matches && c.stableMs == 0 then (w, Success)
      else if matches && w.pending && Wrap32(now - w.since) >= c.stableMs then (w, Success)
      else
        (if !matches then IDLE_WINDOW else if w.pending then w else Window(true, now),
         if Wrap32(now - startedAt) > c.timeoutMs then Timeout else Running)
  }

  /** A look at true time `at`. */
  datatype Glance = Glance(at: nat, reading: Option<Int32>)

  predicate Matches(c: Condition, g: Glance) {
    g.reading.Some? && CompareValue(g.reading.value, c.compare, c.value)
  }

  /** The glances at the end of the list during which the condition has held without a break. */
  function TrueSuffix(c: Condition, glances: seq<Glance>): nat
    ensures TrueSuffix(c, glances) <= |glances|
    decreases |glances|
  {
    if glances == [] || !Matches(c, glances[|glances| - 1]) then 0 else 1 + TrueSuffix(c, glances[..|glances| - 1])
  }

  /** The window remembers when the unbroken run of true glances began. */
  predicate WindowTracks(c: Condition, w: Window, glances: seq<Glance>) {
    var n := TrueSuffix(c, glances);
    (w.pending <==> n > 0) && (n > 0 ==> w.since == Wrap32(glances[|glances| - n].at))
  }

  /** A look that goes on waiting keeps the window exact. */
  lemma LookTracks(c: Condition, w: Window, startedAt: Word32, glances: seq<Glance>, g: Glance)
    requires c.wait && c.stableMs > 0 && WindowTracks(c, w, glances) && g.reading.Some?
    requires Look(c, w, startedAt, Wrap32(g.at), g.reading).1 == Running
    ensures WindowTracks(c, Look(c, w, startedAt, Wrap32(g.at), g.reading).0, glances + [g])
  {
    assert (glances + [g])[..|glances|] == glances;
    var n := TrueSuffix(c, glances);
    if Matches(c, g) && n > 0 {
      assert (glances + [g])[|glances + [g]| - (n + 1)] == glances[|glances| - n];
    }
  }

  lemma LookSucceeds(c: Condition, w: Window, startedAt: Word32, now: Word32, reading: Option<Int32>)
    requires c.wait && c.stableMs > 0
    ensures Look(c, w, startedAt, now, reading).1 == Success <==>
            reading.Some? && CompareValue(reading.value, c.compare, c.value) && w.pending &&
            Wrap32(now - w.since) >= c.stableMs
  {
  }

  /** A wait ends in success exactly when the condition was true at every look for at least the stable time. */
  lemma SuccessMeansStable(c: Condition, w: Window, startedAt: Word32, glances: seq<Glance>, g: Glance)
    requires c.wait && c.stableMs > 0 && WindowTracks(c, w, glances)
    requires forall i :: 0 <= i < |glances| ==> glances[i].at <= g.at < glances[i].at + 0x1_0000_0000
    ensures Look(c, w, startedAt, Wrap32(g.at), g.reading).1 == Success <==>
            Matches(c, g) && TrueSuffix(c, glances) > 0 &&
            g.at - glances[|glances| - TrueSuffix(c, glances)].at >= c.stableMs
  {
    hide Look, CompareValue, TrueSuffix;
    var n := TrueSuffix(c, glances);
    LookSucceeds(c, w, startedAt, Wrap32(g.at), g.reading);
    if n > 0 { WrappedElapsed(glances[|glances| - n].at, g.at); }
  }

  /** Looking again and again from the start of the instruction, until a look answers anything but to go on. */
  function Watch(c: Condition, startedAt: Word32, glances: seq<Glance>): (result: (Window, Outcome))
    decreases |glances|
  {
    if glances == [] then (IDLE_WINDOW, Running)
    else
      var last := glances[|glances| - 1];
      var (w, outcome) := Watch(c, startedAt, glances[..|glances| - 1]);
      if outcome != Running then (w, outcome) else Look(c, w, startedAt, Wrap32(last.at), last.reading)
  }

  /** While the wait goes on the window is exact. */
  lemma {:induction false} WatchTracks(c: Condition, startedAt: Word32, glances: seq<Glance>)
    requires c.wait && c.stableMs > 0 && Watch(c, startedAt, glances).1 == Running
    ensures WindowTracks(c, Watch(c, startedAt, glances).0, glances)
    decreases |glances|
  {
    if glances != [] {
      var before, last := glances[..|glances| - 1], glances[|glances| - 1];
      WatchTracks(c, startedAt, before);
      LookTracks(c, Watch(c, startedAt, before).0, startedAt, before, last);
      assert before + [last] == glances;
    }
  }

  /** The whole wait, from its first look: a look that comes after a wait still going on ends it in success exactly
      when the condition is true and has been true at every look for at least the stable time. */
  lemma WaitSucceedsExactly(c: Condition, startedAt: Word32, glances: seq<Glance>, g: Glance)
    requires c.wait && c.stableMs > 0 && Watch(c, startedAt, glances).1 == Running
    requires forall i :: 0 <= i < |glances| ==> glances[i].at <= g.at < glances[i].at + 0x1_0000_0000
    ensures Watch(c, startedAt, glances + [g]).1 == Success <==>
            Matches(c, g) && TrueSuffix(c, glances) > 0 &&
            g.at - glances[|glances| - TrueSuffix(c, glances)].at >= c.stableMs
  {
    assert (glances + [g])[..|glances|] == glances;
    WatchTracks(c, startedAt, glances);
    SuccessMeansStable(c, Watch(c, startedAt, glances).0, startedAt, glances, g);
  }

  /** All glances in the suffix are true. */
  lemma {:induction false} SuffixIsTrue(c: Condition, glances: seq<Glance>, i: nat)
    requires |glances| - TrueSuffix(c, glances) <= i < |glances|
    ensures Matches(c, glances[i])
    decreases |glances|
  {
    if i < |glances| - 1 { SuffixIsTrue(c, glances[..|glances| - 1], i); }
  }
}
