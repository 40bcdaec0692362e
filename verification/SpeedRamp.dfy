/** The speed ramp over any sequence of calls. */
module SpeedRamp {
  import opened Arith
  import opened ControlSpec

  function Rate(p: Pid, requested: Word16, accel: Word16, decel: Word16): Word16 {
    if requested > p.controlTargetRpm then accel else decel
  }

  function Direction(p: Pid, requested: Word16): int {
    if requested > p.controlTargetRpm then 1 else -1
  }

  /** The fraction of an rpm, in thousandths, carried over from earlier calls in the same direction. */
  function Carried(p: Pid, requested: Word16): nat {
    if p.rampDirection == Direction(p, requested) then p.rampRemainder else 0
  }

  /** `steps` whole rpm from `start` toward `requested`, stopping there. */
  function Toward(start: Word16, requested: Word16, steps: nat): Word16 {
    if steps >= Abs(requested - start) then requested
    else if requested > start then start + steps else start - steps
  }

  function AdvanceAll(p: Pid, requested: Word16, accel: Word16, decel: Word16, elapsed: seq<Word32>): Pid
    decreases |elapsed|
  {
    if elapsed == [] then p
    else AdvanceAll(Advance(p, requested, accel, decel, elapsed[0]), requested, accel, decel, elapsed[1..])
  }

  function Total(elapsed: seq<Word32>): nat
    decreases |elapsed|
  {
    if elapsed == [] then 0 else elapsed[0] + Total(elapsed[1..])
  }

  /** The whole rpm owed after `ms` more milliseconds. */
  function Owed(p: Pid, requested: Word16, accel: Word16, decel: Word16, ms: nat): nat {
    Scaled(Rate(p, requested, accel, decel), ms, Carried(p, requested)) / 1000
  }

  /** What the firmware's 32-bit step variable cuts off the steps of all calls together. */
  function CutOff(rate: Word16, carried: nat, elapsed: seq<Word32>): nat
    decreases |elapsed|
  {
    if elapsed == [] then 0
    else
      var scaled := Scaled(rate, elapsed[0], carried);
      (scaled / 1000 - Wrap32(scaled / 1000)) + CutOff(rate, scaled % 1000, elapsed[1..])
  }

  /** One call: the low 32 bits of the step owed, and an exact remainder for the next call. */
  lemma AdvanceOnce(p: Pid, requested: Word16, accel: Word16, decel: Word16, ms: Word32)
    requires PidInRange(p) && p.controlTargetRpm != requested && Rate(p, requested, accel, decel) != 0
    ensures var q := Advance(p, requested, accel, decel, ms);
            q.controlTargetRpm == Toward(p.controlTargetRpm, requested, Wrap32(Owed(p, requested, accel, decel, ms))) &&
            (q.controlTargetRpm != requested ==>
               Rate(q, requested, accel, decel) == Rate(p, requested, accel, decel) &&
               Carried(q, requested) == Scaled(Rate(p, requested, accel, decel), ms, Carried(p, requested)) % 1000)
  {
  }

  lemma {:induction false} StaysAtRequest(p: Pid, requested: Word16, accel: Word16, decel: Word16, elapsed: seq<Word32>)
    requires p.controlTargetRpm == requested
    ensures AdvanceAll(p, requested, accel, decel, elapsed).controlTargetRpm == requested
    decreases |elapsed|
  {
    if elapsed != [] {
      StaysAtRequest(Advance(p, requested, accel, decel, elapsed[0]), requested, accel, decel, elapsed[1..]);
    }
  }

  /** Time may be split at any point: the remainder carries what the first part leaves over. */
  lemma ScaledSplit(rate: nat, first: nat, second: nat, carried: nat)
    ensures Scaled(rate, first + second, carried) == Scaled(rate, first, carried) + Scaled(rate, second, 0)
    ensures Scaled(rate, first + second, carried) / 1000 ==
            Scaled(rate, first, carried) / 1000 + Scaled(rate, second, Scaled(rate, first, carried) % 1000) / 1000
  {
    assert rate * (first + second) == rate * first + rate * second;
    SplitQuotient(Scaled(rate, first, carried), Scaled(rate, second, 0));
  }

  lemma SplitQuotient(a: nat, b: nat)
    ensures (a + b) / 1000 == a / 1000 + (b + a % 1000) / 1000
  {
  }

  lemma TowardTwice(start: Word16, requested: Word16, first: nat, second: nat)
    ensures Toward(start, requested, first) == requested ==> Toward(start, requested, first + second) == requested
    ensures Toward(start, requested, first) != requested ==>
            Toward(Toward(start, requested, first), requested, second) == Toward(start, requested, first + second)
  {
  }

  /** The cut-off part is whole multiples of 2^32, part of what is owed, and nothing when every call's step fits. */
  lemma {:induction false} CutOffIsOwed(rate: Word16, carried: nat, elapsed: seq<Word32>)
    ensures CutOff(rate, carried, elapsed) <= Scaled(rate, Total(elapsed), carried) / 1000
    ensures CutOff(rate, carried, elapsed) % 0x1_0000_0000 == 0
    ensures Scaled(rate, Total(elapsed), carried) / 1000 < 0x1_0000_0000 ==> CutOff(rate, carried, elapsed) == 0
    decreases |elapsed|
  {
    if elapsed != [] {
      var scaled := Scaled(rate, elapsed[0], carried);
      CutOffIsOwed(rate, scaled % 1000, elapsed[1..]);
      ScaledSplit(rate, elapsed[0], Total(elapsed[1..]), carried);
      WholeWraps(scaled / 1000, CutOff(rate, scaled % 1000, elapsed[1..]));
    }
  }

  lemma WholeWraps(x: nat, rest: nat)
    requires rest % 0x1_0000_0000 == 0
    ensures (x - Wrap32(x) + rest) % 0x1_0000_0000 == 0 && x - Wrap32(x) >= 0
  {
  }

  /** The steps taken in all: what is owed, less what was cut off. */
  function Taken(rate: Word16, carried: nat, elapsed: seq<Word32>): nat {
    CutOffIsOwed(rate, carried, elapsed);
    Scaled(rate, Total(elapsed), carried) / 1000 - CutOff(rate, carried, elapsed)
  }

  lemma TakenFirst(rate: Word16, carried: nat, elapsed: seq<Word32>)
    requires elapsed != []
    ensures var scaled := Scaled(rate, elapsed[0], carried);
            Taken(rate, carried, elapsed) == Wrap32(scaled / 1000) + Taken(rate, scaled % 1000, elapsed[1..])
  {
    ScaledSplit(rate, elapsed[0], Total(elapsed[1..]), carried);
  }

  /** After any calls the target has moved by what the total time owes, less what the 32-bit step cut off: nothing
      else about the way the time was split matters, and the request is never overshot. */
  lemma {:induction false} RampIsExact(p: Pid, requested: Word16, accel: Word16, decel: Word16, elapsed: seq<Word32>)
    requires PidInRange(p) && p.controlTargetRpm != requested && Rate(p, requested, accel, decel) != 0
    ensures AdvanceAll(p, requested, accel, decel, elapsed).controlTargetRpm ==
            Toward(p.controlTargetRpm, requested,
                   Taken(Rate(p, requested, accel, decel), Carried(p, requested), elapsed))
    decreases |elapsed|
  {
    var rate, carried := Rate(p, requested, accel, decel), Carried(p, requested);
    if elapsed == [] {
      assert Scaled(rate, 0, carried) == carried < 1000;
    } else {
      hide Advance, Toward, Scaled, Taken, PidInRange;
      var first, rest := elapsed[0], elapsed[1..];
      var q := Advance(p, requested, accel, decel, first);
      AdvanceOnce(p, requested, accel, decel, first);
      AdvanceKeepsRange(p, requested, accel, decel, first);
      TakenFirst(rate, carried, elapsed);
      TowardTwice(p.controlTargetRpm, requested, Wrap32(Owed(p, requested, accel, decel, first)),
                  Taken(rate, Scaled(rate, first, carried) % 1000, rest));
      if q.controlTargetRpm == requested {
        StaysAtRequest(q, requested, accel, decel, rest);
      } else {
        RampIsExact(q, requested, accel, decel, rest);
      }
    }
  }

  /** So the target depends on the total time alone if and only if no step was cut, or what is left of the cut steps
      still covers the distance. */
  lemma RampIgnoresSplitting(p: Pid, requested: Word16, accel: Word16, decel: Word16, elapsed: seq<Word32>)
    requires PidInRange(p) && p.controlTargetRpm != requested && Rate(p, requested, accel, decel) != 0
    ensures var rate, carried, distance :=
              Rate(p, requested, accel, decel), Carried(p, requested), Abs(requested - p.controlTargetRpm);
            AdvanceAll(p, requested, accel, decel, elapsed).controlTargetRpm ==
              Toward(p.controlTargetRpm, requested, Owed(p, requested, accel, decel, Total(elapsed)))
            <==> CutOff(rate, carried, elapsed) == 0 || Taken(rate, carried, elapsed) >= distance
  {
    RampIsExact(p, requested, accel, decel, elapsed);
  }

  /** The request is reached exactly when the steps that were not cut cover the distance; so, at the given rate, it is
      reached once enough time has passed, unless a step was cut. */
  lemma RampArrives(p: Pid, requested: Word16, accel: Word16, decel: Word16, elapsed: seq<Word32>)
    requires PidInRange(p) && p.controlTargetRpm != requested && Rate(p, requested, accel, decel) != 0
    ensures var rate, carried, distance :=
              Rate(p, requested, accel, decel), Carried(p, requested), Abs(requested - p.controlTargetRpm);
            AdvanceAll(p, requested, accel, decel, elapsed).controlTargetRpm == requested <==>
              Scaled(rate, Total(elapsed), carried) >= 1000 * (distance + CutOff(rate, carried, elapsed))
  {
    RampIsExact(p, requested, accel, decel, elapsed);
    var rate, carried := Rate(p, requested, accel, decel), Carried(p, requested);
    QuotientReaches(Scaled(rate, Total(elapsed), carried),
                    Abs(requested - p.controlTargetRpm) + CutOff(rate, carried, elapsed));
  }

  lemma QuotientReaches(scaled: nat, distance: nat)
    ensures scaled / 1000 >= distance <==> scaled >= 1000 * distance
  {
  }

  /** A call after a very long pause takes the ideal step exactly when that step fits 32 bits,
      or when even its low 32 bits cover the distance. */
  lemma LongPauseStep(p: Pid, requested: Word16, accel: Word16, decel: Word16, ms: Word32)
    requires PidInRange(p) && p.controlTargetRpm != requested && Rate(p, requested, accel, decel) != 0
    ensures Advance(p, requested, accel, decel, ms).controlTargetRpm ==
              Toward(p.controlTargetRpm, requested, Owed(p, requested, accel, decel, ms))
            <==> Owed(p, requested, accel, decel, ms) < 0x1_0000_0000 ||
                 Wrap32(Owed(p, requested, accel, decel, ms)) >= Abs(requested - p.controlTargetRpm)
  {
  }

  /** Such a pause exists: 131072 seconds at 32768 rpm/s leave the target where it was. */
  lemma LongPauseStalls(p: Pid)
    requires p.controlTargetRpm == 0 && p.rampDirection == 0
    ensures Advance(p, 100, 32768, 32768, 131072000).controlTargetRpm == 0
  {
    assert Scaled(32768, 131072000, 0) == 1000 * 0x1_0000_0000;
  }
}
