/** The interleaved scan of the eight line sensor channels: one conversion per scheduler call, a complete frame
    every seven, channels 0 and 7 taking turns. */
module GrayscaleScan {
  import opened Arith

  const CHANNEL_COUNT: nat := 8
  const SCAN_LENGTH: nat := 14
  const FRAME_LENGTH: nat := 7

  /** The channel converted in a phase: 0 to 6, then 7, then 1 to 6 again. */
  function ScanChannel(phase: nat): (channel: nat)
    ensures channel < CHANNEL_COUNT
  {
    if phase <= 7 then phase else if phase < SCAN_LENGTH then phase - 7 else 0
  }

  datatype Take = Completed(channel: nat, raw: Word16) | Busy | Failed

  /** What one scheduler call meets: the last conversion's outcome, and whether the next one could be started. */
  datatype Call = Call(ready: bool, take: Take, startOk: bool)

  /** `readings` is history: the conversions accepted since the last failure, in order. */
  datatype Scan = Scan(
    phase: nat, initialized: set<nat>, renewed: set<nat>, working: seq<Word16>,
    raw: seq<Word16>, valid: bool, sequence: Word32, errors: Word32, readings: seq<Word16>)

  /** What a call publishes: the eight values and the channels read since the frame before. */
  datatype Frame = Frame(raw: seq<Word16>, renewed: set<nat>)

  function Bumped(n: Word32): Word32 {
    if n == 0xFFFF_FFFF then n else n + 1
  }

  function NextPhase(phase: nat): nat {
    if phase + 1 >= SCAN_LENGTH then 0 else phase + 1
  }

  predicate AllChannels(channels: set<nat>) {
    forall c :: 0 <= c < CHANNEL_COUNT ==> c in channels
  }

  function Restarted(s: Scan): Scan {
    s.(valid := false, errors := Bumped(s.errors), phase := 0, initialized := {}, renewed := {}, readings := [])
  }

  function WithReading(s: Scan, channel: nat, raw: Word16): Scan
    requires channel < |s.working|
  {
    s.(working := s.working[channel := raw], initialized := s.initialized + {channel}, renewed := s.renewed + {channel},
       phase := NextPhase(s.phase), readings := s.readings + [raw])
  }

  function Published(s: Scan): Scan {
    s.(raw := s.working, valid := true, sequence := Bumped(s.sequence), renewed := {})
  }

  /** Once the outcome of the last conversion is accepted: start the next one, then publish a complete frame. */
  function Proceed(s: Scan, complete: bool, startOk: bool): (Scan, Option<Frame>) {
    if !startOk then (Restarted(s), None)
    else if complete then (Published(s), Some(Frame(s.working, s.renewed)))
    else (s, None)
  }

  function Stepped(s: Scan, call: Call): (Scan, Option<Frame>)
    requires |s.working| == CHANNEL_COUNT
  {
    if !call.ready then (Restarted(s), None)
    else
      match call.take
      case Failed => (Restarted(s), None)
      case Busy => Proceed(s, false, call.startOk)
      case Completed(channel, raw) =>
        if channel != ScanChannel(s.phase) then (Restarted(s), None)
        else
          var t := WithReading(s, channel, raw);
          Proceed(t, channel == 6 && AllChannels(t.initialized), call.startOk)
  }

  // ----- what a run keeps -----

  /** The latest of the readings that came from a channel. */
  function Latest(readings: seq<Word16>, c: nat): Option<Word16>
    decreases |readings|
  {
    var n := |readings|;
    if n == 0 then None
    else if ScanChannel((n - 1) % SCAN_LENGTH) == c then Some(readings[n - 1])
    else Latest(readings[..n - 1], c)
  }

  /** The channels read, up to reading `n`, for the frame that reading belongs to; the first frame takes fourteen. */
  predicate Gathered(n: nat, c: nat) {
    if n <= SCAN_LENGTH then c < n
    else ScanChannel((n - 1) / FRAME_LENGTH * FRAME_LENGTH % SCAN_LENGTH) == c || 1 <= c <= (n - 1) % FRAME_LENGTH
  }

  /** A frame has just been completed. */
  predicate AtFrameEnd(n: nat) {
    n >= SCAN_LENGTH && n % FRAME_LENGTH == 0
  }

  /** The working value of every channel read since the last failure is its latest reading. */
  predicate WorkingIsLatest(s: Scan)
    requires |s.working| == CHANNEL_COUNT
  {
    forall c :: 0 <= c < CHANNEL_COUNT && c in s.initialized ==> Latest(s.readings, c) == Some(s.working[c])
  }

  /** After an accepted reading, before anything is published. */
  predicate Accepted(s: Scan) {
    |s.working| == |s.raw| == CHANNEL_COUNT && s.phase == |s.readings| % SCAN_LENGTH && WorkingIsLatest(s) &&
    (forall c :: 0 <= c < CHANNEL_COUNT ==> (c in s.initialized <==> c < |s.readings|)) &&
    (forall c :: 0 <= c < CHANNEL_COUNT ==> (c in s.renewed <==> Gathered(|s.readings|, c)))
  }

  predicate Invariant(s: Scan) {
    |s.working| == |s.raw| == CHANNEL_COUNT && s.phase == |s.readings| % SCAN_LENGTH && WorkingIsLatest(s) &&
    (forall c :: 0 <= c < CHANNEL_COUNT ==> (c in s.initialized <==> c < |s.readings|)) &&
    (forall c :: 0 <= c < CHANNEL_COUNT ==>
     (c in s.renewed <==> !AtFrameEnd(|s.readings|) && Gathered(|s.readings|, c)))
  }

  lemma ScanOrder(n: nat, c: nat)
    requires c < CHANNEL_COUNT
    ensures c < n + 1 <==> c < n || c == ScanChannel(n % SCAN_LENGTH)
  {
  }

  lemma GatheredNext(n: nat, c: nat)
    requires c < CHANNEL_COUNT
    ensures Gathered(n + 1, c) <==> (!AtFrameEnd(n) && Gathered(n, c)) || c == ScanChannel(n % SCAN_LENGTH)
  {
    if n < SCAN_LENGTH {
      ScanOrder(n, c);
    } else {
      BlockNext(n);
      PhaseOf(n);
    }
  }

  /** Past the first place of a frame the channel read is the place. */
  lemma PhaseOf(n: nat)
    ensures n % FRAME_LENGTH > 0 ==> ScanChannel(n % SCAN_LENGTH) == n % FRAME_LENGTH
  {
    var k, phase := n / SCAN_LENGTH, n % SCAN_LENGTH;
    assert n == FRAME_LENGTH * (2 * k) + phase;
    ModShift(phase, 2 * k);
  }

  lemma ModShift(x: nat, k: nat)
    ensures (FRAME_LENGTH * k + x) % FRAME_LENGTH == x % FRAME_LENGTH
  {
  }

  lemma BlockNext(n: nat)
    ensures n % FRAME_LENGTH > 0 ==>
              (n - 1) / FRAME_LENGTH == n / FRAME_LENGTH && (n - 1) % FRAME_LENGTH == n % FRAME_LENGTH - 1
    ensures n % FRAME_LENGTH == 0 ==> n / FRAME_LENGTH * FRAME_LENGTH == n
  {
  }

  lemma LatestNext(readings: seq<Word16>, raw: Word16, c: nat)
    ensures Latest(readings + [raw], c) ==
            if ScanChannel(|readings| % SCAN_LENGTH) == c then Some(raw) else Latest(readings, c)
  {
    assert (readings + [raw])[..|readings|] == readings;
  }

  lemma AcceptKeeps(s: Scan, raw: Word16)
    requires Invariant(s)
    ensures Accepted(WithReading(s, ScanChannel(s.phase), raw))
  {
    hide Gathered, Latest, ScanChannel, AtFrameEnd;
    var n := |s.readings|;
    var t := WithReading(s, ScanChannel(s.phase), raw);
    assert t.phase == (n + 1) % SCAN_LENGTH;
    forall c | 0 <= c < CHANNEL_COUNT
      ensures c in t.initialized <==> c < n + 1
      ensures c in t.renewed <==> Gathered(n + 1, c)
      ensures c in t.initialized ==> Latest(t.readings, c) == Some(t.working[c])
    {
      ScanOrder(n, c);
      GatheredNext(n, c);
      LatestNext(s.readings, raw, c);
    }
  }

  lemma FailureKeeps(s: Scan)
    requires |s.working| == |s.raw| == CHANNEL_COUNT
    ensures Invariant(Restarted(s))
  {
  }

  /** Whatever fails, the board, a conversion, its channel or the start of the next one: no frame is published, the last
      one is no longer valid, the error is counted, and the scan begins anew. */
  lemma FailureInvalidates(s: Scan, call: Call)
    requires |s.working| == CHANNEL_COUNT
    requires !call.ready || !call.startOk || call.take == Failed ||
             (call.take.Completed? && call.take.channel != ScanChannel(s.phase))
    ensures var (t, frame) := Stepped(s, call);
            frame == None && !t.valid && t.phase == 0 && t.initialized == t.renewed == {} && t.readings == [] &&
            t.errors == if s.errors == 0xFFFF_FFFF then s.errors else s.errors + 1
  {
  }

  /** After an accepted reading the code's test for a complete frame is true exactly at the end of a frame. */
  lemma CompleteAtFrameEnd(s: Scan, channel: nat)
    requires Accepted(s) && s.readings != [] && channel == ScanChannel((|s.readings| - 1) % SCAN_LENGTH)
    ensures channel == 6 && AllChannels(s.initialized) <==> AtFrameEnd(|s.readings|)
  {
    var n := |s.readings|;
    assert AllChannels(s.initialized) <==> n >= CHANNEL_COUNT by {
      if n < CHANNEL_COUNT { assert !(n in s.initialized); }
    }
    assert channel == 6 <==> n % FRAME_LENGTH == 0;
  }

  lemma ProceedKeeps(s: Scan, startOk: bool)
    requires Accepted(s)
    ensures Invariant(Proceed(s, AtFrameEnd(|s.readings|), startOk).0)
  {
    FailureKeeps(s);
  }

  /** Every scheduler call, whatever it meets, keeps the scan in order. */
  lemma UpdateKeeps(s: Scan, call: Call)
    requires Invariant(s)
    ensures Invariant(Stepped(s, call).0)
  {
    FailureKeeps(s);
    if call.ready && call.take.Completed? && call.take.channel == ScanChannel(s.phase) {
      var t := WithReading(s, call.take.channel, call.take.raw);
      AcceptKeeps(s, call.take.raw);
      CompleteAtFrameEnd(t, call.take.channel);
      ProceedKeeps(t, call.startOk);
    }
  }

  // ----- what a frame holds -----

  lemma {:induction false} LatestIs(readings: seq<Word16>, c: nat, k: nat)
    requires k < |readings| && ScanChannel(k % SCAN_LENGTH) == c
    requires forall j :: k < j < |readings| ==> ScanChannel(j % SCAN_LENGTH) != c
    ensures Latest(readings, c) == Some(readings[k])
    decreases |readings|
  {
    if k < |readings| - 1 {
      LatestIs(readings[..|readings| - 1], c, k);
    }
  }

  /** How many readings ago a channel was read, at the end of a frame: at most fourteen. */
  function Age(n: nat, c: nat): (age: nat)
    ensures c < CHANNEL_COUNT ==> 1 <= age <= SCAN_LENGTH
  {
    if 1 <= c <= 6 then FRAME_LENGTH - c
    else if (c == 7) == (n % SCAN_LENGTH == 0) then FRAME_LENGTH
    else SCAN_LENGTH
  }

  lemma AgeIsExact(readings: seq<Word16>, n: nat, c: nat)
    requires n == |readings| && AtFrameEnd(n) && c < CHANNEL_COUNT
    ensures Latest(readings, c) == Some(readings[n - Age(n, c)])
  {
    hide AtFrameEnd, Age, ScanChannel, Latest;
    var k := n - Age(n, c);
    OwnTurn(n, c);
    forall j | k < j < n ensures ScanChannel(j % SCAN_LENGTH) != c {
      OutOfTurn(n, c, j);
    }
    LatestIs(readings, c, k);
  }

  lemma OwnTurn(n: nat, c: nat)
    requires AtFrameEnd(n) && c < CHANNEL_COUNT
    ensures Age(n, c) <= n && ScanChannel((n - Age(n, c)) % SCAN_LENGTH) == c
  {
  }

  lemma OutOfTurn(n: nat, c: nat, j: nat)
    requires AtFrameEnd(n) && c < CHANNEL_COUNT && n - Age(n, c) < j < n
    ensures ScanChannel(j % SCAN_LENGTH) != c
  {
  }

  /** The channels of the frame that ends with reading `n`: all of them at first, later 1 to 6 and one of 0 and 7. */
  lemma GatheredAtEnd(n: nat, c: nat)
    requires AtFrameEnd(n) && c < CHANNEL_COUNT
    ensures Gathered(n, c) <==> n == SCAN_LENGTH || 1 <= c <= 6 || c == if n % SCAN_LENGTH == 0 then 7 else 0
  {
    var k := n / FRAME_LENGTH;
    assert n == FRAME_LENGTH * k;
    FrameBefore(k);
  }

  lemma FrameBefore(k: nat)
    requires k > 0
    ensures (FRAME_LENGTH * k - 1) / FRAME_LENGTH == k - 1 && (FRAME_LENGTH * k - 1) % FRAME_LENGTH == 6
    ensures ((k - 1) * FRAME_LENGTH) % SCAN_LENGTH == if (FRAME_LENGTH * k) % SCAN_LENGTH == 0 then 7 else 0
  {
    var h := k / 2;
    if k == 2 * h {
      assert FRAME_LENGTH * k == SCAN_LENGTH * h && (k - 1) * FRAME_LENGTH == SCAN_LENGTH * (h - 1) + 7;
    } else {
      assert FRAME_LENGTH * k == SCAN_LENGTH * h + 7 && (k - 1) * FRAME_LENGTH == SCAN_LENGTH * h;
    }
  }

  /** Every published frame is coherent: channels 1 to 6 are the last six readings in order, channels 0 and 7 are
      seven and fourteen readings old by turns, and exactly the channels read for this frame count as renewed. */
  lemma FrameIsCoherent(s: Scan, call: Call)
    requires Invariant(s) && Stepped(s, call).1.Some?
    ensures var (t, frame) := Stepped(s, call); var n := |t.readings|;
            AtFrameEnd(n) && t.valid && t.raw == frame.value.raw && |t.raw| == CHANNEL_COUNT &&
            call.take.Completed? && t.readings == s.readings + [call.take.raw] &&
            (forall c :: 0 <= c < CHANNEL_COUNT ==> t.raw[c] == t.readings[n - Age(n, c)]) &&
            (forall c :: 0 <= c < CHANNEL_COUNT ==>
               (c in frame.value.renewed <==>
                n == SCAN_LENGTH || 1 <= c <= 6 || c == if n % SCAN_LENGTH == 0 then 7 else 0))
  {
    hide Gathered, Latest, Age, ScanChannel;
    var u := WithReading(s, call.take.channel, call.take.raw);
    AcceptKeeps(s, call.take.raw);
    CompleteAtFrameEnd(u, call.take.channel);
    var n := |u.readings|;
    forall c | 0 <= c < CHANNEL_COUNT
      ensures u.working[c] == u.readings[n - Age(n, c)]
      ensures Gathered(n, c) <==> n == SCAN_LENGTH || 1 <= c <= 6 || c == if n % SCAN_LENGTH == 0 then 7 else 0
    {
      AgeIsExact(u.readings, n, c);
      GatheredAtEnd(n, c);
    }
  }

  /** A call that completes the conversion that is due and starts the next one. */
  predicate Smooth(s: Scan, call: Call) {
    call.ready && call.startOk && call.take.Completed? && call.take.channel == ScanChannel(s.phase)
  }

  /** Such a call publishes exactly at the end of a frame. */
  lemma SmoothCall(s: Scan, call: Call)
    requires Invariant(s) && Smooth(s, call)
    ensures Stepped(s, call).0.readings == s.readings + [call.take.raw]
    ensures Stepped(s, call).1.Some? <==> AtFrameEnd(|s.readings| + 1)
  {
    AcceptKeeps(s, call.take.raw);
    CompleteAtFrameEnd(WithReading(s, call.take.channel, call.take.raw), call.take.channel);
  }

  predicate AllSmooth(s: Scan, calls: seq<Call>)
    requires |s.working| == CHANNEL_COUNT
    decreases |calls|
  {
    calls == [] || (Smooth(s, calls[0]) && AllSmooth(Stepped(s, calls[0]).0, calls[1..]))
  }

  /** Frames published by a run. */
  function FrameCount(s: Scan, calls: seq<Call>): nat
    requires |s.working| == CHANNEL_COUNT
    decreases |calls|
  {
    if calls == [] then 0
    else (if Stepped(s, calls[0]).1.Some? then 1 else 0) + FrameCount(Stepped(s, calls[0]).0, calls[1..])
  }

  /** Frames completed by `n` readings: none before the fourteenth, then one every seven. */
  function FramesBy(n: nat): nat {
    if n < SCAN_LENGTH then 0 else n / FRAME_LENGTH - 1
  }

  lemma FirstCall(s: Scan, calls: seq<Call>)
    requires Invariant(s) && calls != [] && AllSmooth(s, calls)
    ensures var (t, frame) := Stepped(s, calls[0]);
            |t.working| == CHANNEL_COUNT && Smooth(s, calls[0]) && AllSmooth(t, calls[1..]) &&
            FrameCount(s, calls) == (if frame.Some? then 1 else 0) + FrameCount(t, calls[1..])
  {
    hide Smooth;
    UpdateKeeps(s, calls[0]);
  }

  lemma FramesNext(n: nat)
    ensures FramesBy(n + 1) == FramesBy(n) + if AtFrameEnd(n + 1) then 1 else 0
  {
  }

  /** While nothing fails there is one frame every seven calls, after the first fourteen. */
  lemma {:induction false} FrameEverySevenCalls(s: Scan, calls: seq<Call>)
    requires Invariant(s) && AllSmooth(s, calls)
    ensures FrameCount(s, calls) == FramesBy(|s.readings| + |calls|) - FramesBy(|s.readings|)
    decreases |calls|
  {
    if calls != [] {
      hide Invariant, Stepped, Smooth, AtFrameEnd, FramesBy, AllSmooth, FrameCount;
      var t, n := Stepped(s, calls[0]).0, |s.readings|;
      UpdateKeeps(s, calls[0]);
      FirstCall(s, calls);
      SmoothCall(s, calls[0]);
      FramesNext(n);
      FrameEverySevenCalls(t, calls[1..]);
      assert |t.readings| + |calls[1..]| == n + |calls|;
    }
  }

  // ----- as the firmware runs it -----

  class Scanner {
    const working: array<Word16>
    const raw: array<Word16>
    var phase: nat
    var initialized: set<nat>
    var renewed: set<nat>
    var valid: bool
    var sequence: Word32
    var errors: Word32
    ghost var readings: seq<Word16>

    ghost predicate Valid()
      reads this, working, raw
    {
      working.Length == raw.Length == CHANNEL_COUNT && working != raw && Invariant(View())
    }

    ghost function View(): Scan
      reads this, working, raw
    {
      Scan(phase, initialized, renewed, working[..], raw[..], valid, sequence, errors, readings)
    }

    constructor ()
      ensures Valid() && !valid && readings == []
    {
      working := new Word16[CHANNEL_COUNT](i => 0);
      raw := new Word16[CHANNEL_COUNT](i => 0);
      phase, initialized, renewed, valid, sequence, errors, readings := 0, {}, {}, false, 0, 0, [];
    }

    method MarkFailure()
      modifies this
      ensures View() == Restarted(old(View()))
    {
      valid := false;
      if errors != 0xFFFF_FFFF { errors := errors + 1; }
      phase, initialized, renewed, readings := 0, {}, {}, [];
    }

    /** Stores an accepted conversion. */
    method Accept(channel: nat, value: Word16)
      requires working.Length == raw.Length == CHANNEL_COUNT && working != raw && channel < CHANNEL_COUNT
      modifies this`phase, this`initialized, this`renewed, this`readings, working
      ensures View() == WithReading(old(View()), channel, value)
    {
      working[channel] := value;
      initialized, renewed := initialized + {channel}, renewed + {channel};
      phase := phase + 1;
      if phase >= SCAN_LENGTH { phase := 0; }
      readings := readings + [value];
    }

    method Publish() returns (frame: Frame)
      requires working.Length == raw.Length == CHANNEL_COUNT && working != raw
      modifies this`valid, this`sequence, this`renewed, raw
      ensures View() == Published(old(View())) && frame == Frame(old(working[..]), old(renewed))
    {
      forall i | 0 <= i < CHANNEL_COUNT { raw[i] := working[i]; }
      valid := true;
      if sequence != 0xFFFF_FFFF { sequence := sequence + 1; }
      frame := Frame(raw[..], renewed);
      renewed := {};
    }

    /** Starts the next conversion and, when that works, publishes a complete frame. */
    method StartNext(complete: bool, startOk: bool) returns (frame: Option<Frame>)
      requires working.Length == raw.Length == CHANNEL_COUNT && working != raw
      modifies this, raw
      ensures View() == Proceed(old(View()), complete, startOk).0
      ensures frame == Proceed(old(View()), complete, startOk).1
    {
      frame := None;
      if !startOk {
        MarkFailure();
      } else if complete {
        var published := Publish();
        frame := Some(published);
      }
    }

    /** One scheduler call. */
    method Update(call: Call) returns (frame: Option<Frame>)
      requires Valid()
      modifies this, working, raw
      ensures Valid() && View() == Stepped(old(View()), call).0 && frame == Stepped(old(View()), call).1
    {
      UpdateKeeps(View(), call);
      frame := None;
      var complete := false;
      if !call.ready {
        MarkFailure();
        return;
      }
      match call.take {
        case Failed =>
          MarkFailure();
          return;
        case Busy =>
        case Completed(channel, value) =>
          if channel != ScanChannel(phase) {
            MarkFailure();
            return;
          }
          Accept(channel, value);
          complete := channel == 6 && AllChannels(initialized);
      }
      frame := StartNext(complete, call.startOk);
    }
  }
}
