/** One quadrature encoder: a 16-bit hardware counter unwrapped into a software count,
    and a speed measured over a sliding window of up to three samples. */
module QuadratureEncoder {
  import opened Arith

  const SPEED_WINDOW_SAMPLES: nat := 3
  const SAMPLE_PERIOD_MS: nat := 10
  const COUNT_SIGN: int := -1

  // ----- unwrapping -----

  /** What the 16-bit counter shows at shaft position `p`. */
  function Hardware(p: int): Word16 {
    p % 0x1_0000
  }

  /** The movement read off two counter values. */
  function RawDelta(before: Word16, after: Word16): Int16 {
    ToInt16(after - before)
  }

  /** The counter difference is the true movement exactly when that fits 16 signed bits. */
  lemma UnwrapExact(p: int, q: int)
    ensures RawDelta(Hardware(p), Hardware(q)) == q - p <==> -0x8000 <= q - p < 0x8000
  {
    var d := q - p;
    assert (Hardware(q) - Hardware(p)) % 0x1_0000 == d % 0x1_0000 by {
      var j, k := p / 0x1_0000, q / 0x1_0000;
      assert Hardware(q) - Hardware(p) == d - 0x1_0000 * (k - j);
      ModShift(d, k - j);
    }
  }

  lemma ModShift(d: int, m: int)
    ensures (d - 0x1_0000 * m) % 0x1_0000 == d % 0x1_0000
  {
  }

  /** Where the firmware takes the shaft to be when the counter reads `hw`: the nearest place that shows it. */
  function Tracked(shaft: int, hw: Word16): int {
    shaft + RawDelta(Hardware(shaft), hw)
  }

  lemma TrackedShows(shaft: int, hw: Word16)
    ensures Hardware(Tracked(shaft, hw)) == hw
  {
    var d := hw - Hardware(shaft);
    assert shaft == 0x1_0000 * (shaft / 0x1_0000) + Hardware(shaft);
    assert RawDelta(Hardware(shaft), hw) % 0x1_0000 == d % 0x1_0000;
    ModShift(RawDelta(Hardware(shaft), hw) + Hardware(shaft), -(shaft / 0x1_0000));
  }

  /** Software count after reading the counter at each of the given shaft positions. */
  function CountAfter(count: int, last: Word16, positions: seq<int>): int
    decreases |positions|
  {
    if positions == [] then count
    else
      var hw := Hardware(positions[0]);
      CountAfter(count + COUNT_SIGN * RawDelta(last, hw), hw, positions[1..])
  }

  /** Between consecutive reads the shaft moves by less than half the counter's range. */
  predicate SmallMoves(start: int, positions: seq<int>)
    decreases |positions|
  {
    positions == [] || (-0x8000 <= positions[0] - start < 0x8000 && SmallMoves(positions[0], positions[1..]))
  }

  function FinalPosition(start: int, positions: seq<int>): int {
    if positions == [] then start else positions[|positions| - 1]
  }

  /** Across any number of counter wraps the count changes by the signed net movement. */
  lemma {:induction false} CountIsNetMovement(count: int, start: int, positions: seq<int>)
    requires SmallMoves(start, positions)
    ensures CountAfter(count, Hardware(start), positions) ==
            count + COUNT_SIGN * (FinalPosition(start, positions) - start)
    decreases |positions|
  {
    if positions != [] {
      var p := positions[0];
      UnwrapExact(start, p);
      CountIsNetMovement(count + COUNT_SIGN * (p - start), p, positions[1..]);
      assert FinalPosition(p, positions[1..]) == FinalPosition(start, positions);
    }
  }

  // ----- speed -----

  /** `n` divided by `d`, rounded to nearest, halves away from zero. */
  function RoundedQuotient(n: int, d: int): int
    requires d > 0
  {
    TruncDiv(if n >= 0 then n + d / 2 else n - d / 2, d)
  }

  lemma RoundedQuotientIsNearest(n: int, d: int)
    requires d > 0
    ensures 2 * Abs(n - RoundedQuotient(n, d) * d) <= d
  {
    if n >= 0 {
      var m := n + d / 2;
      assert m == (m / d) * d + m % d;
    } else {
      var m := -(n - d / 2);
      assert m == (m / d) * d + m % d;
      assert RoundedQuotient(n, d) * d == -((m / d) * d);
    }
  }

  function RoundedSpeed(delta: int, elapsedMs: int): Int32
    requires elapsedMs > 0
  {
    ToInt32(RoundedQuotient(delta * 1000, elapsedMs))
  }

  /** A point on the sampled trajectory: software count and true time. */
  datatype Sample = Sample(count: Int32, ms: nat)

  /** Values a signed 32-bit variable of the firmware can hold. */
  predicate FitsInt32(c: int) {
    -0x8000_0000 <= c < 0x8000_0000
  }

  class Encoder {
    var count: Int32
    var countsPerSecond: Int32
    var lastSampleCount: Int32
    var lastSampleMs: Word32
    const sampleDelta: array<Int32>
    const sampleElapsedMs: array<Word32>
    var windowDeltaCount: int
    var windowElapsedMs: Word32
    var windowIndex: nat
    var windowCount: nat
    var sampleInitialized: bool
    var enabled: bool
    var lastHwCount: Word16

    /** Where the firmware took the shaft to be at the last counter read, and where the count was last zero. */
    ghost var shaft: int
    ghost var origin: int
    /** Every sample point since sampling started. */
    ghost var samples: seq<Sample>

    ghost predicate Valid()
      reads this, sampleDelta, sampleElapsedMs
    {
      CountValid() && WindowValid()
    }

    /** The count is the signed movement since the last reset. */
    ghost predicate CountValid()
      reads `lastHwCount, `count, `shaft, `origin
    {
      lastHwCount == Hardware(shaft) && count == COUNT_SIGN * (shaft - origin)
    }

    ghost predicate WindowValid()
      reads `windowDeltaCount, `windowElapsedMs, `windowIndex, `windowCount, `sampleInitialized
      reads `lastSampleCount, `lastSampleMs, `samples, sampleDelta, sampleElapsedMs
    {
      sampleDelta.Length == SPEED_WINDOW_SAMPLES && sampleElapsedMs.Length == SPEED_WINDOW_SAMPLES &&
      windowIndex < SPEED_WINDOW_SAMPLES && windowCount <= SPEED_WINDOW_SAMPLES &&
      (windowCount < SPEED_WINDOW_SAMPLES ==> windowIndex == windowCount) &&
      WindowSumsHold() &&
      (if sampleInitialized then |samples| > 0 && WindowMirrorsSamples() else windowCount == 0 && samples == [])
    }

    /** The running sums are the sums of the ring entries, that of the times modulo 2^32. */
    ghost predicate WindowSumsHold()
      requires sampleDelta.Length == SPEED_WINDOW_SAMPLES && sampleElapsedMs.Length == SPEED_WINDOW_SAMPLES
      reads `windowDeltaCount, `windowElapsedMs, `windowCount, sampleDelta, sampleElapsedMs
    {
      windowDeltaCount == (sampleDelta[0] as int) + (sampleDelta[1] as int) + (sampleDelta[2] as int) &&
      windowElapsedMs ==
        Wrap32((sampleElapsedMs[0] as int) + (sampleElapsedMs[1] as int) + (sampleElapsedMs[2] as int)) &&
      (windowCount < 3 ==> sampleDelta[2] == 0 && sampleElapsedMs[2] == 0) &&
      (windowCount < 2 ==> sampleDelta[1] == 0 && sampleElapsedMs[1] == 0) &&
      (windowCount < 1 ==> sampleDelta[0] == 0 && sampleElapsedMs[0] == 0)
    }

    /** The live ring entries are the last one to three intervals of the trajectory. */
    ghost predicate WindowMirrorsSamples()
      requires sampleDelta.Length == SPEED_WINDOW_SAMPLES && sampleElapsedMs.Length == SPEED_WINDOW_SAMPLES
      requires |samples| > 0 && windowIndex < SPEED_WINDOW_SAMPLES
      reads `windowIndex, `windowCount, `lastSampleCount, `lastSampleMs, `samples, sampleDelta, sampleElapsedMs
    {
      var last := samples[|samples| - 1];
      windowCount == Min(|samples| - 1, SPEED_WINDOW_SAMPLES) &&
      lastSampleCount == last.count && lastSampleMs == Wrap32(last.ms) &&
      (windowCount >= 1 ==> EntryIsInterval(1)) &&
      (windowCount >= 2 ==> EntryIsInterval(2)) &&
      (windowCount >= 3 ==> EntryIsInterval(3))
    }

    /** The entry written `back` pushes ago is the interval that ended `back - 1` samples ago. */
    ghost predicate EntryIsInterval(back: nat)
      requires sampleDelta.Length == SPEED_WINDOW_SAMPLES && sampleElapsedMs.Length == SPEED_WINDOW_SAMPLES
      requires 1 <= back <= SPEED_WINDOW_SAMPLES && back < |samples| && windowIndex < SPEED_WINDOW_SAMPLES
      reads `windowIndex, `samples, sampleDelta, sampleElapsedMs
    {
      var slot := if windowIndex >= back then windowIndex - back else windowIndex + SPEED_WINDOW_SAMPLES - back;
      var from, to := samples[|samples| - 1 - back], samples[|samples| - back];
      (sampleDelta[slot] as int) == to.count - from.count &&
      from.ms <= to.ms && sampleElapsedMs[slot] == Wrap32(to.ms - from.ms) && sampleElapsedMs[slot] >= SAMPLE_PERIOD_MS
    }

    /** The sums span the trajectory from `windowCount` samples ago to the last one, the time modulo 2^32 ms. */
    lemma WindowSpansSamples()
      requires WindowValid() && sampleInitialized
      ensures windowCount == Min(|samples| - 1, SPEED_WINDOW_SAMPLES)
      ensures var last, first := samples[|samples| - 1], samples[|samples| - 1 - windowCount];
              first.ms <= last.ms &&
              windowDeltaCount == last.count - first.count && windowElapsedMs == Wrap32(last.ms - first.ms)
    {
      if windowCount == 3 {
        FullWindowSpans();
      } else if windowCount == 2 {
        WrapSum(samples[|samples| - 1].ms - samples[|samples| - 2].ms,
                samples[|samples| - 2].ms - samples[|samples| - 3].ms, 0);
      }
    }

    lemma FullWindowSpans()
      requires WindowValid() && sampleInitialized && windowCount == 3
      ensures var last, first := samples[|samples| - 1], samples[|samples| - 4];
              first.ms <= last.ms &&
              windowDeltaCount == last.count - first.count && windowElapsedMs == Wrap32(last.ms - first.ms)
    {
      hide Wrap32;
      var n := |samples|;
      WrapSum(samples[n - 1].ms - samples[n - 2].ms, samples[n - 2].ms - samples[n - 3].ms,
              samples[n - 3].ms - samples[n - 4].ms);
    }

    constructor (hw: Word16, ghost position: int)
      requires hw == Hardware(position)
      ensures Valid() && count == 0 && shaft == origin == position && !sampleInitialized && enabled
      ensures fresh(sampleDelta) && fresh(sampleElapsedMs)
    {
      sampleDelta := new Int32[SPEED_WINDOW_SAMPLES](i => 0);
      sampleElapsedMs := new Word32[SPEED_WINDOW_SAMPLES](i => 0);
      count, countsPerSecond, lastSampleCount, lastSampleMs := 0, 0, 0, 0;
      windowDeltaCount, windowElapsedMs, windowIndex, windowCount := 0, 0, 0, 0;
      sampleInitialized, enabled := false, true;
      shaft, origin, samples := position, position, [];
      lastHwCount := hw;
    }

    /** Reads the counter with the shaft at `position`: the count follows the shaft if and only if it moved by
        less than half the counter's range since the last read. */
    method SyncQeiCounter(hw: Word16, ghost position: int)
      requires CountValid() && hw == Hardware(position) && FitsInt32(COUNT_SIGN * (Tracked(shaft, hw) - origin))
      modifies `lastHwCount, `count, `shaft
      ensures CountValid() && shaft == Tracked(old(shaft), hw)
      ensures count == COUNT_SIGN * (position - origin) <==> -0x8000 <= position - old(shaft) < 0x8000
    {
      var rawDelta := RawDelta(lastHwCount, hw);
      UnwrapExact(shaft, position);
      TrackedShows(shaft, hw);
      lastHwCount := hw;
      shaft := Tracked(shaft, hw);
      count := count + rawDelta * COUNT_SIGN;
    }

    method ClearSpeedWindow()
      requires sampleDelta.Length == SPEED_WINDOW_SAMPLES && sampleElapsedMs.Length == SPEED_WINDOW_SAMPLES
      requires sampleDelta as object != sampleElapsedMs
      modifies this, sampleDelta, sampleElapsedMs
      ensures countsPerSecond == 0 && windowCount == windowIndex == 0 && WindowSumsHold()
      ensures count == old(count) && lastHwCount == old(lastHwCount) && enabled == old(enabled)
      ensures shaft == old(shaft) && origin == old(origin)
    {
      countsPerSecond := 0;
      windowDeltaCount, windowElapsedMs, windowIndex, windowCount := 0, 0, 0, 0;
      for i := 0 to SPEED_WINDOW_SAMPLES
        invariant forall j :: 0 <= j < i ==> sampleDelta[j] == 0 && sampleElapsedMs[j] == 0
        modifies sampleDelta, sampleElapsedMs
      {
        sampleDelta[i] := 0;
        sampleElapsedMs[i] := 0;
      }
    }

    method ResetSpeedSampling(currentCount: Int32, nowMs: Word32)
      requires WindowValid()
      modifies this, sampleDelta, sampleElapsedMs
      ensures WindowValid() && !sampleInitialized && countsPerSecond == 0
      ensures count == old(count) && lastHwCount == old(lastHwCount) && enabled == old(enabled)
      ensures shaft == old(shaft) && origin == old(origin)
    {
      ClearSpeedWindow();
      lastSampleCount := currentCount;
      lastSampleMs := nowMs;
      sampleInitialized := false;
      samples := [];
    }

    /** Adds a sample point when the clock shows at least 10 ms since the last one; the speed becomes the rounded
        count change over the last one to three intervals, timed modulo 2^32 ms. The caller must not let those
        intervals add up to a multiple of 2^32 ms: the source then divides by zero. */
    method UpdateSample(currentCount: Int32, nowMs: Word32, ghost now: nat) returns (ghost sampled: bool)
      requires WindowValid() && nowMs == Wrap32(now)
      requires samples != [] ==>
               samples[|samples| - 1].ms <= now && FitsInt32(currentCount - samples[|samples| - 1].count)
      requires Due(samples, now) ==> TimedSpan(samples + [Sample(currentCount, now)]) > 0
      modifies `windowDeltaCount, `windowElapsedMs, `windowIndex, `windowCount, `sampleInitialized, `countsPerSecond
      modifies `lastSampleCount, `lastSampleMs, `samples, sampleDelta, sampleElapsedMs
      ensures WindowValid() && sampleInitialized
      ensures sampled == (old(samples) == [] || Due(old(samples), now))
      ensures samples == if sampled then old(samples) + [Sample(currentCount, now)] else old(samples)
      ensures !sampled ==> countsPerSecond == old(countsPerSecond)
      ensures sampled && old(samples) == [] ==> countsPerSecond == 0
      ensures sampled && old(samples) != [] ==> TimedSpan(samples) > 0 && countsPerSecond == TimedSpeed(samples)
    {
      hide EntryIsInterval, WindowSumsHold;
      if !sampleInitialized {
        StartSampling(currentCount, nowMs, now);
        return true;
      }
      var elapsedMs := ElapsedSinceSample(nowMs, now);
      if elapsedMs < SAMPLE_PERIOD_MS { return false; }
      PushInterval(currentCount, elapsedMs, nowMs, now);
      RefreshSpeed();
      sampled := true;
    }

    method StartSampling(currentCount: Int32, nowMs: Word32, ghost now: nat)
      requires WindowValid() && !sampleInitialized && nowMs == Wrap32(now)
      modifies `sampleInitialized, `countsPerSecond, `lastSampleCount, `lastSampleMs, `samples
      ensures WindowValid() && sampleInitialized && samples == [Sample(currentCount, now)] && countsPerSecond == 0
    {
      lastSampleCount := currentCount;
      lastSampleMs := nowMs;
      countsPerSecond := 0;
      sampleInitialized := true;
      samples := [Sample(currentCount, now)];
    }

    method ElapsedSinceSample(nowMs: Word32, ghost now: nat) returns (elapsedMs: Word32)
      requires WindowValid() && sampleInitialized && nowMs == Wrap32(now) && samples[|samples| - 1].ms <= now
      ensures elapsedMs == Wrap32(now - samples[|samples| - 1].ms)
    {
      WrappedElapsed(samples[|samples| - 1].ms, now);
      elapsedMs := Wrap32(nowMs - lastSampleMs);
    }

    /** Replaces the oldest ring entry by the interval that ends now. */
    method PushInterval(currentCount: Int32, elapsedMs: Word32, nowMs: Word32, ghost now: nat)
      requires WindowValid() && sampleInitialized && nowMs == Wrap32(now) && samples[|samples| - 1].ms <= now
      requires FitsInt32(currentCount - samples[|samples| - 1].count)
      requires elapsedMs == Wrap32(now - samples[|samples| - 1].ms) && elapsedMs >= SAMPLE_PERIOD_MS
      modifies `windowDeltaCount, `windowElapsedMs, `windowIndex, `windowCount
      modifies `lastSampleCount, `lastSampleMs, `samples, sampleDelta, sampleElapsedMs
      ensures WindowValid() && sampleInitialized
      ensures samples == old(samples) + [Sample(currentCount, now)]
    {
      hide Wrap32, WindowSumsHold;
      ghost var n := |samples|;
      ReplaceEntry(currentCount - lastSampleCount, elapsedMs);
      lastSampleCount := currentCount;
      lastSampleMs := nowMs;
      samples := samples + [Sample(currentCount, now)];
      assert samples[n - 1] == old(samples[n - 1]);
      assert EntryIsInterval(1);
      if windowCount >= 2 { assert samples[n - 2] == old(samples[n - 2]) && EntryIsInterval(2); }
      if windowCount >= 3 { assert samples[n - 3] == old(samples[n - 3]) && EntryIsInterval(3); }
    }

    /** Writes the slot at the window index, keeping the sums equal to the ring's contents. */
    method ReplaceEntry(delta: Int32, elapsedMs: Word32)
      requires sampleDelta.Length == SPEED_WINDOW_SAMPLES && sampleElapsedMs.Length == SPEED_WINDOW_SAMPLES
      requires windowIndex < SPEED_WINDOW_SAMPLES && windowCount <= SPEED_WINDOW_SAMPLES
      requires windowCount < SPEED_WINDOW_SAMPLES ==> windowIndex == windowCount
      requires WindowSumsHold()
      modifies `windowDeltaCount, `windowElapsedMs, `windowIndex, `windowCount, sampleDelta, sampleElapsedMs
      ensures WindowSumsHold()
      ensures windowCount == Min(old(windowCount) + 1, SPEED_WINDOW_SAMPLES)
      ensures windowIndex == if old(windowIndex) == 2 then 0 else old(windowIndex) + 1
      ensures sampleDelta[..] == old(sampleDelta[..])[old(windowIndex) := delta]
      ensures sampleElapsedMs[..] == old(sampleElapsedMs[..])[old(windowIndex) := elapsedMs]
    {
      hide Wrap32;
      var slot := windowIndex;
      ghost var total := (sampleElapsedMs[0] as int) + (sampleElapsedMs[1] as int) + (sampleElapsedMs[2] as int);
      ghost var out: int := sampleElapsedMs[slot];
      WrapReplace(total, out, elapsedMs);
      if windowCount == SPEED_WINDOW_SAMPLES {
        windowDeltaCount := windowDeltaCount - sampleDelta[slot];
        windowElapsedMs := Wrap32(windowElapsedMs - sampleElapsedMs[slot]);
      } else {
        windowCount := windowCount + 1;
      }
      sampleDelta[slot] := delta;
      sampleElapsedMs[slot] := elapsedMs;
      windowDeltaCount := windowDeltaCount + delta;
      windowElapsedMs := Wrap32(windowElapsedMs + elapsedMs);
      windowIndex := (slot + 1) % SPEED_WINDOW_SAMPLES;
    }

    method RefreshSpeed()
      requires WindowValid() && sampleInitialized && |samples| > 1 && TimedSpan(samples) > 0
      modifies `countsPerSecond
      ensures countsPerSecond == TimedSpeed(samples)
    {
      hide RoundedSpeed;
      WindowSpansSamples();
      countsPerSecond := RoundedSpeed(windowDeltaCount, windowElapsedMs);
    }

    /** Main-loop step; a disabled encoder is passed over. */
    method Process(hw: Word16, nowMs: Word32, ghost position: int, ghost now: nat)
      requires Valid() && hw == Hardware(position) && nowMs == Wrap32(now)
      requires enabled ==> FitsInt32(COUNT_SIGN * (Tracked(shaft, hw) - origin))
      requires enabled && samples != [] ==>
                 samples[|samples| - 1].ms <= now &&
                 FitsInt32(COUNT_SIGN * (Tracked(shaft, hw) - origin) - samples[|samples| - 1].count)
      requires enabled && Due(samples, now) ==>
                 TimedSpan(samples + [Sample(COUNT_SIGN * (Tracked(shaft, hw) - origin), now)]) > 0
      modifies this, sampleDelta, sampleElapsedMs
      ensures Valid() && enabled == old(enabled) && origin == old(origin)
      ensures !enabled ==> count == old(count) && shaft == old(shaft) && samples == old(samples) &&
                           countsPerSecond == old(countsPerSecond)
      ensures enabled ==> shaft == Tracked(old(shaft), hw) && sampleInitialized &&
                          (count == COUNT_SIGN * (position - origin) <==> -0x8000 <= position - old(shaft) < 0x8000)
      ensures enabled ==>
                samples == (if old(samples) == [] || Due(old(samples), now) then old(samples) + [Sample(count, now)]
                            else old(samples))
      ensures enabled && old(samples) != [] ==>
                if Due(old(samples), now) then TimedSpan(samples) > 0 && countsPerSecond == TimedSpeed(samples)
                else countsPerSecond == old(countsPerSecond)
    {
      hide WindowSumsHold, WindowMirrorsSamples, TimedSpeed;
      if enabled {
        SyncQeiCounter(hw, position);
        ghost var sampled := UpdateSample(count, nowMs, now);
      }
    }

    /** Reads the count between samples, or the count at which a disabled encoder stopped; the speed is the last
        one computed. */
    method GetSnapshot(hw: Word16, ghost position: int) returns (snapshotCount: Int32, cps: Int32)
      requires Valid() && hw == Hardware(position)
      requires enabled ==> FitsInt32(COUNT_SIGN * (Tracked(shaft, hw) - origin))
      modifies `lastHwCount, `count, `shaft
      ensures Valid() && snapshotCount == count && cps == countsPerSecond
      ensures !enabled ==> count == old(count) && shaft == old(shaft)
      ensures enabled ==> shaft == Tracked(old(shaft), hw) &&
                          (count == COUNT_SIGN * (position - origin) <==> -0x8000 <= position - old(shaft) < 0x8000)
    {
      if enabled { SyncQeiCounter(hw, position); }
      snapshotCount, cps := count, countsPerSecond;
    }

    /** The present position becomes zero and sampling starts over. */
    method Reset(hw: Word16, ghost position: int)
      requires Valid() && hw == Hardware(position)
      modifies this, sampleDelta, sampleElapsedMs
      ensures Valid() && count == 0 && shaft == origin == position && !sampleInitialized && enabled == old(enabled)
    {
      hide EntryIsInterval, WindowMirrorsSamples, WindowSumsHold;
      count := 0;
      origin := shaft;
      ResetSpeedSampling(0, lastSampleMs);
      lastHwCount := hw;
      shaft, origin := position, position;
    }

    /** While disabled the counter stands still; enabling again keeps the count. */
    method SetEnabled(on: bool, hw: Word16, ghost position: int)
      requires Valid() && hw == Hardware(position)
      requires enabled && !on ==> FitsInt32(COUNT_SIGN * (Tracked(shaft, hw) - origin))
      modifies this, sampleDelta, sampleElapsedMs
      ensures Valid() && enabled == on
      ensures enabled && !old(enabled) ==> count == old(count) && shaft == position
      ensures !enabled && old(enabled) ==> shaft == Tracked(old(shaft), hw) && origin == old(origin)
    {
      hide EntryIsInterval, WindowMirrorsSamples, WindowSumsHold;
      if enabled == on { return; }
      if !on {
        SyncQeiCounter(hw, position);
        enabled := false;
      } else {
        lastHwCount := hw;
        origin := origin + (position - shaft);
        shaft := position;
        enabled := true;
      }
      ResetSpeedSampling(count, lastSampleMs);
    }
  }

  function WindowStart(samples: seq<Sample>): Sample
    requires |samples| > 0
  {
    samples[|samples| - 1 - Min(|samples| - 1, SPEED_WINDOW_SAMPLES)]
  }

  /** By the 32-bit clock, 10 ms have passed since the last sample. */
  predicate Due(samples: seq<Sample>, now: nat) {
    samples != [] && Wrap32(now - samples[|samples| - 1].ms) >= SAMPLE_PERIOD_MS
  }

  /** Time and count change over the last one to three intervals of a trajectory. */
  function Span(samples: seq<Sample>): int
    requires |samples| > 0
  {
    samples[|samples| - 1].ms - WindowStart(samples).ms
  }

  function Gained(samples: seq<Sample>): int
    requires |samples| > 0
  {
    samples[|samples| - 1].count - WindowStart(samples).count
  }

  /** The span as 32-bit times add up. */
  function TimedSpan(samples: seq<Sample>): Word32
    requires |samples| > 0
  {
    Wrap32(Span(samples))
  }

  function TimedSpeed(samples: seq<Sample>): Int32
    requires |samples| > 0 && TimedSpan(samples) > 0
  {
    RoundedSpeed(Gained(samples), TimedSpan(samples))
  }

  /** The speed is the count change over the true time exactly as long as the window is shorter than 2^32 ms. */
  lemma SpeedIsTimed(samples: seq<Sample>)
    requires |samples| > 1 && Span(samples) > 0
    ensures TimedSpan(samples) == Span(samples) <==> Span(samples) < 0x1_0000_0000
    ensures Span(samples) < 0x1_0000_0000 ==>
              TimedSpan(samples) > 0 && TimedSpeed(samples) == RoundedSpeed(Gained(samples), Span(samples))
  {
    hide RoundedSpeed;
    ShortUnwrapped(Span(samples));
  }

  lemma ShortUnwrapped(x: nat)
    ensures Wrap32(x) == x <==> x < 0x1_0000_0000
  {
  }

  /** Beyond that: 1000 counts in a gap of 2^32 + 1000 ms read as 1000 counts in one second. */
  lemma LongGapMisreads(samples: seq<Sample>, start: nat)
    requires samples == [Sample(0, start), Sample(1000, start + 0x1_0000_0000 + 1000)]
    ensures TimedSpan(samples) == 1000 && TimedSpeed(samples) == 1000
    ensures RoundedSpeed(Gained(samples), Span(samples)) == 0
  {
    assert Wrap32(Span(samples)) == 1000;
    assert TruncDiv(1000 * 1000 + 500, 1000) == 1000;
    assert TruncDiv(1000 * 1000 + 0x8000_01F4, 0x1_0000_03E8) == 0;
  }

  /** And three gaps, each of which counts as a sample, can leave a divisor of zero. */
  lemma GapsCancel(samples: seq<Sample>, start: nat, count: Int32)
    requires samples == [Sample(count, start), Sample(count, start + 0x8000_0000),
                         Sample(count, start + 0xFFFF_0000), Sample(count, start + 0x1_0000_0000)]
    ensures Due(samples[..1], samples[1].ms) && Due(samples[..2], samples[2].ms) && Due(samples[..3], samples[3].ms)
    ensures TimedSpan(samples) == 0
  {
  }

  /** Times that wrap add up modulo 2^32. */
  lemma WrapSum(a: int, b: int, c: int)
    ensures Wrap32(Wrap32(a) + Wrap32(b) + Wrap32(c)) == Wrap32(a + b + c)
  {
    hide Wrap32;
    WrapAdd(a, b);
    WrapAdd(Wrap32(a) + Wrap32(b), c);
    WrapAdd(Wrap32(a) + Wrap32(b), Wrap32(c));
    WrapAdd(a + b, c);
  }

  lemma WrapReplace(total: int, out: int, next: int)
    ensures Wrap32(Wrap32(Wrap32(total) - out) + next) == Wrap32(total - out + next)
    ensures Wrap32(Wrap32(total) + next) == Wrap32(total + next)
  {
    hide Wrap32;
    WrapAdd(total, -out);
    WrapAdd(total - out, next);
    WrapAdd(total, next);
  }
}
