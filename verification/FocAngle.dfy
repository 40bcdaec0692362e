/** Rotor angle arithmetic: a 14-bit encoder, a 16-bit electrical angle, wrapped differences and the
    filter that always arrives. */
module FocAngle {
  import opened Arith

  const COUNTS_PER_REVOLUTION: nat := 16384
  const POLE_PAIRS: nat := 14

  type Raw14 = x: int | 0 <= x < 16384

  /** Electrical degrees of a raw reading: a full turn is 65536, and the rotor passes 14 of them per revolution. */
  function ElectricalAngle(raw: Raw14, offset: Word16): Word16 {
    (raw * 4 * POLE_PAIRS + offset) % 0x1_0000
  }

  /** The offset stored when the aligned rotor reads `raw`. */
  function AlignmentOffset(raw: Raw14): Word16 {
    (0 - (raw * 4 * POLE_PAIRS) % 0x1_0000) % 0x1_0000
  }

  /** What the encoder reads when the shaft has turned `position` counts, in either direction, any number of times. */
  function RawAt(position: int): Raw14 {
    position % COUNTS_PER_REVOLUTION
  }

  lemma SameAngle(x: int, y: int, turns: int)
    requires x == y + turns * 0x1_0000
    ensures x % 0x1_0000 == y % 0x1_0000
  {
  }

  /** After alignment at `start` the electrical angle follows the shaft through every encoder wrap, forwards
      and backwards: 56 angle units per count, modulo one electrical turn. */
  lemma AngleFollowsShaft(start: int, position: int)
    ensures ElectricalAngle(RawAt(position), AlignmentOffset(RawAt(start))) == (56 * (position - start)) % 0x1_0000
  {
    var r0: int, r1: int := RawAt(start), RawAt(position);
    var k0, k1 := start / COUNTS_PER_REVOLUTION, position / COUNTS_PER_REVOLUTION;
    var a0 := 56 * r0;
    AngleSum(r1, a0, if a0 % 0x1_0000 == 0 then 0 else 1);
    assert 56 * r1 - a0 == 56 * (position - start) + (k0 - k1) * 14 * 0x1_0000;
    SameAngle(56 * r1 - a0, 56 * (position - start), (k0 - k1) * 14);
  }

  lemma AngleSum(raw: Raw14, a0: nat, borrow: nat)
    requires borrow == if a0 % 0x1_0000 == 0 then 0 else 1
    ensures (raw * 4 * POLE_PAIRS + (0 - a0 % 0x1_0000) % 0x1_0000) % 0x1_0000 == (56 * (raw as int) - a0) % 0x1_0000
  {
    var w := a0 / 0x1_0000;
    assert (0 - a0 % 0x1_0000) % 0x1_0000 == borrow * 0x1_0000 - a0 % 0x1_0000;
    SameAngle(56 * (raw as int) + borrow * 0x1_0000 - a0 % 0x1_0000, 56 * (raw as int) - a0, borrow + w);
  }

  // ----- wrapped differences -----

  function WrapError(error: int): int {
    if error > 8191 then error - COUNTS_PER_REVOLUTION
    else if error < -8192 then error + COUNTS_PER_REVOLUTION
    else error
  }

  predicate Congruent(x: int, y: int) {
    (x - y) % COUNTS_PER_REVOLUTION == 0
  }

  /** For two raw readings the wrapped difference is the one and only value in half a turn either way
      that leads from one to the other. */
  lemma WrapErrorIsUnique(to: Raw14, from: Raw14, x: int)
    requires -8192 <= x <= 8191
    ensures -8192 <= WrapError(to - from) <= 8191 && Congruent(WrapError(to - from), to - from)
    ensures Congruent(x, to - from) <==> x == WrapError(to - from)
  {
  }

  /** Between two samples the difference is the true movement exactly when the shaft turned less than half a turn. */
  lemma DifferenceIsMovement(before: int, after: int)
    ensures WrapError(RawAt(after) - RawAt(before)) == after - before <==> -8192 <= after - before <= 8191
  {
    var k0, k1 := before / COUNTS_PER_REVOLUTION, after / COUNTS_PER_REVOLUTION;
    assert after - before == RawAt(after) - RawAt(before) + (k1 - k0) * COUNTS_PER_REVOLUTION;
    var x := after - before;
    if -8192 <= x <= 8191 {
      WrapErrorIsUnique(RawAt(after), RawAt(before), x);
    } else {
      WrapErrorIsUnique(RawAt(after), RawAt(before), 0);
    }
  }

  /** Sum of the wrapped differences of successive readings. */
  function Movement(positions: seq<int>): int
    decreases |positions|
  {
    if |positions| < 2 then 0
    else WrapError(RawAt(positions[1]) - RawAt(positions[0])) + Movement(positions[1..])
  }

  /** Over any number of samples the differences add up to the net movement of the shaft. */
  lemma {:induction false} MovementTelescopes(positions: seq<int>)
    requires |positions| > 0
    requires forall i :: 0 <= i < |positions| - 1 ==> -8192 <= positions[i + 1] - positions[i] <= 8191
    ensures Movement(positions) == positions[|positions| - 1] - positions[0]
    decreases |positions|
  {
    if |positions| >= 2 {
      var rest := positions[1..];
      DifferenceIsMovement(positions[0], positions[1]);
      forall i | 0 <= i < |rest| - 1 ensures -8192 <= rest[i + 1] - rest[i] <= 8191 {
        assert rest[i + 1] == positions[i + 2] && rest[i] == positions[i + 1];
      }
      MovementTelescopes(rest);
    }
  }

  // ----- the filter -----

  /** One step toward the target: an eighth of the way, but never nothing. */
  function Approach(current: int, target: int): int {
    var difference := target - current;
    if difference == 0 then current
    else
      var step := TruncDiv(difference, 8);
      current + (if step == 0 then (if difference > 0 then 1 else -1) else step)
  }

  function ApproachRepeatedly(current: int, target: int, n: nat): int
    decreases n
  {
    if n == 0 then current else ApproachRepeatedly(Approach(current, target), target, n - 1)
  }

  /** The value lies on the way from `current` to `target`, ends included. */
  predicate Between(current: int, value: int, target: int) {
    current <= value <= target || target <= value <= current
  }

  lemma ApproachStep(current: int, target: int)
    ensures Between(current, Approach(current, target), target)
    ensures current != target ==> Abs(target - Approach(current, target)) < Abs(target - current)
    ensures Abs(target - Approach(current, target)) <= Abs(target - current) - Abs(target - current) / 8
  {
  }

  /** Held at one target the filter moves monotonically, never overshoots, and arrives exactly. */
  lemma {:induction false} ApproachArrives(current: int, target: int, n: nat)
    ensures Between(current, ApproachRepeatedly(current, target, n), target)
    ensures Abs(target - ApproachRepeatedly(current, target, n)) <= Max(Abs(target - current) - n, 0)
    ensures n >= Abs(target - current) ==> ApproachRepeatedly(current, target, n) == target
    decreases n
  {
    if n > 0 {
      ApproachStep(current, target);
      ApproachArrives(Approach(current, target), target, n - 1);
    }
  }

  /** The step is a single count, in the right direction, exactly while the difference is under sixteen. */
  lemma FinalSteps(current: int, target: int)
    ensures Abs(Approach(current, target) - current) == 1 <==> 0 < Abs(target - current) < 16
    ensures Approach(current, target) == current <==> target == current
  {
  }
}
