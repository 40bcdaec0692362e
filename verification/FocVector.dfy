/** The voltage path of the current loop: circular limit without a square root, table-driven inverse
    Park transform, inverse Clarke transform with min/max injection, PWM compare values. */
module FocVector {
  import opened Arith

  const VOLTAGE_LIMIT_Q8: nat := 40960
  const PWM_NEUTRAL_COMPARE: nat := 400
  const PWM_MAX_PHASE_DELTA: nat := 200
  const Q15: nat := 0x8000

  // ----- the vector limit -----

  datatype Voltage = Voltage(d: int, q: int)

  function Longer(v: Voltage): nat { Max(Abs(v.d), Abs(v.q)) }
  function Shorter(v: Voltage): nat { if Abs(v.d) > Abs(v.q) then Abs(v.q) else Abs(v.d) }

  /** The estimate of the magnitude: longer axis plus half the shorter one. */
  function Magnitude(v: Voltage): nat { Longer(v) + Shorter(v) / 2 }

  /** One axis scaled to the limit, rounded toward zero. */
  function Scale(x: int, magnitude: nat): int
    requires magnitude > 0
  {
    TruncDiv(x * VOLTAGE_LIMIT_Q8, magnitude)
  }

  function Limited(v: Voltage): Voltage {
    if Magnitude(v) <= VOLTAGE_LIMIT_Q8 then v
    else Voltage(Scale(v.d, Magnitude(v)), Scale(v.q, Magnitude(v)))
  }

  predicate Saturated(v: Voltage) { Magnitude(v) > VOLTAGE_LIMIT_Q8 }

  function NormSquared(v: Voltage): int { v.d * v.d + v.q * v.q }

  lemma SquareMonotone(s: nat, t: nat)
    requires s <= t
    ensures s * s <= t * t
  {
    assert t * t - s * s == (t - s) * (t + s);
  }

  lemma SquareOfAbs(x: int)
    ensures x * x == Abs(x) * Abs(x)
  {
  }

  lemma SquareOfProduct(a: int, m: int)
    ensures (a * m) * (a * m) == (a * a) * (m * m)
  {
    assert (a * m) * (a * m) == a * (m * a) * m;
    assert m * a == a * m;
  }

  lemma StrictProduct(p: int, q: int, s: nat)
    requires s > 0 && p > q
    ensures p * s > q * s
  {
    assert p * s - q * s == (p - q) * s;
  }

  lemma Cancel(p: int, q: int, s: nat)
    requires s > 0 && p * s <= q * s
    ensures p <= q
  {
    if p > q {
      StrictProduct(p, q, s);
      assert false;
    }
  }

  /** An unscaled vector is inside the circle unless its shorter axis is one unit. */
  lemma UnscaledInside(x: nat, y: nat)
    requires y <= x && x + y / 2 <= VOLTAGE_LIMIT_Q8 && y != 1
    ensures x * x + y * y <= VOLTAGE_LIMIT_Q8 * VOLTAGE_LIMIT_Q8
  {
    if y == 0 {
      SquareMonotone(x, VOLTAGE_LIMIT_Q8);
    } else {
      var k := y / 2;
      var room := VOLTAGE_LIMIT_Q8 - k;
      SquareMonotone(x, room);
      SquareMonotone(y, 2 * k + 1);
      assert room * room == VOLTAGE_LIMIT_Q8 * VOLTAGE_LIMIT_Q8 - 2 * VOLTAGE_LIMIT_Q8 * k + k * k;
      assert (2 * k + 1) * (2 * k + 1) == 4 * (k * k) + 4 * k + 1;
      BoundedSquare(k, 13653);
    }
  }

  /** With a shorter axis of one unit it is outside only at full length, and then by one. */
  lemma UnscaledUnit(x: nat)
    requires x <= VOLTAGE_LIMIT_Q8
    ensures x * x + 1 > VOLTAGE_LIMIT_Q8 * VOLTAGE_LIMIT_Q8 <==> x == VOLTAGE_LIMIT_Q8
    ensures x * x <= VOLTAGE_LIMIT_Q8 * VOLTAGE_LIMIT_Q8
  {
    SquareMonotone(x, VOLTAGE_LIMIT_Q8);
    if x < VOLTAGE_LIMIT_Q8 { SquareMonotone(x, VOLTAGE_LIMIT_Q8 - 1); }
  }

  lemma BoundedSquare(k: nat, bound: nat)
    requires k <= bound
    ensures k * k <= bound * k
  {
    assert bound * k - k * k == (bound - k) * k;
  }

  /** Above the limit the estimate is no smaller than the true magnitude, unless the shorter axis is one unit. */
  lemma MagnitudeCovers(x: nat, y: nat)
    requires y <= x && x + y / 2 > VOLTAGE_LIMIT_Q8 && y != 1
    ensures x * x + y * y <= (x + y / 2) * (x + y / 2)
  {
    var k := y / 2;
    SquareOfSum(x, k);
    if y == 2 * k { EvenCovers(x, k); } else { OddCovers(x, k); }
  }

  /** Room for the square of a shorter axis of 2k ... */
  lemma EvenCovers(x: nat, k: nat)
    requires 2 * k <= x
    ensures (2 * k) * (2 * k) <= 2 * (x * k) + k * k
  {
    BoundedProduct(k, 2 * k, x);
    assert (2 * k) * (2 * k) == 4 * (k * k) && (2 * k) * k == 2 * (k * k);
  }

  /** ... and of one of 2k + 1. */
  lemma OddCovers(x: nat, k: nat)
    requires 2 * k + 1 <= x && 0 < k && x + k > VOLTAGE_LIMIT_Q8
    ensures (2 * k + 1) * (2 * k + 1) <= 2 * (x * k) + k * k
  {
    SquareOfSum(2 * k, 1);
    assert (2 * k) * (2 * k) == 4 * (k * k);
    if k <= 2 {
      BoundedProduct(k, 40000, x);
      BoundedSquare(k, 2);
    } else {
      BoundedProduct(k, 2 * k + 1, x);
      assert (2 * k + 1) * k == 2 * (k * k) + k;
      BoundedProduct(k, 3, k);
    }
  }

  lemma BoundedProduct(k: nat, small: nat, x: nat)
    requires small <= x
    ensures small * k <= x * k && k * small <= x * k
  {
    assert x * k - small * k == (x - small) * k;
  }

  /** Scaling both axes of a vector covered by `m` puts it inside the circle. */
  lemma ScaledNorm(x: nat, y: nat, m: nat, a: nat, b: nat)
    requires m > 0 && x * x + y * y <= m * m
    requires a * m <= x * VOLTAGE_LIMIT_Q8 && b * m <= y * VOLTAGE_LIMIT_Q8
    ensures a * a + b * b <= VOLTAGE_LIMIT_Q8 * VOLTAGE_LIMIT_Q8
  {
    var l := VOLTAGE_LIMIT_Q8;
    ScaledAxis(x, m, a);
    ScaledAxis(y, m, b);
    assert (a * a + b * b) * (m * m) == (a * a) * (m * m) + (b * b) * (m * m);
    assert (x * x + y * y) * (l * l) == (x * x) * (l * l) + (y * y) * (l * l);
    BoundedProduct(l * l, x * x + y * y, m * m);
    assert (m * m) * (l * l) == (l * l) * (m * m);
    PositiveSquare(m);
    Cancel(a * a + b * b, l * l, m * m);
  }

  lemma PositiveSquare(m: nat)
    requires m > 0
    ensures m * m > 0
  {
  }

  lemma ScaledAxis(x: nat, m: nat, a: nat)
    requires a * m <= x * VOLTAGE_LIMIT_Q8
    ensures (a * a) * (m * m) <= (x * x) * (VOLTAGE_LIMIT_Q8 * VOLTAGE_LIMIT_Q8)
  {
    SquareMonotone(a * m, x * VOLTAGE_LIMIT_Q8);
    SquareOfProduct(a, m);
    SquareOfProduct(x, VOLTAGE_LIMIT_Q8);
  }

  /** The scaled axis keeps its sign, does not grow, and its size is the rounded share. */
  lemma ScaleAxis(x: int, m: nat)
    requires m > VOLTAGE_LIMIT_Q8
    ensures Abs(Scale(x, m)) * m <= Abs(x) * VOLTAGE_LIMIT_Q8
    ensures Abs(Scale(x, m)) <= Abs(x)
    ensures x >= 0 ==> Scale(x, m) >= 0
    ensures x <= 0 ==> Scale(x, m) <= 0
    ensures Abs(x) <= 1 ==> Scale(x, m) == 0
  {
    var n := x * VOLTAGE_LIMIT_Q8;
    TruncDivBounds(n, m);
    var s := Abs(Scale(x, m));
    if s > Abs(x) {
      BoundedProduct(m, Abs(x) + 1, s);
      assert (Abs(x) + 1) * m == Abs(x) * m + m;
      BoundedProduct(Abs(x), VOLTAGE_LIMIT_Q8, m);
      assert false;
    }
    if Abs(x) <= 1 && s >= 1 {
      BoundedProduct(m, 1, s);
      assert false;
    }
  }

  lemma AxesOf(v: Voltage)
    ensures NormSquared(v) == Longer(v) * Longer(v) + Shorter(v) * Shorter(v)
    ensures Shorter(v) <= Longer(v)
    ensures {Abs(v.d), Abs(v.q)} == {Longer(v), Shorter(v)}
  {
    SquareOfAbs(v.d);
    SquareOfAbs(v.q);
  }

  /** For every voltage request the limiter returns a vector inside the circle when it scales, and one at
      most a rounding unit outside when it does not. */
  lemma LimitedInCircle(v: Voltage)
    ensures Saturated(v) ==> NormSquared(Limited(v)) <= VOLTAGE_LIMIT_Q8 * VOLTAGE_LIMIT_Q8
    ensures !Saturated(v) ==> Limited(v) == v && NormSquared(v) <= VOLTAGE_LIMIT_Q8 * VOLTAGE_LIMIT_Q8 + 1
  {
    AxesOf(v);
    if Saturated(v) {
      var w := Limited(v);
      ScaleAxis(v.d, Magnitude(v));
      ScaleAxis(v.q, Magnitude(v));
      SaturatedNorm(Abs(v.d), Abs(v.q), Abs(w.d), Abs(w.q));
      SquareOfAbs(w.d);
      SquareOfAbs(w.q);
    } else {
      UnscaledUnit(Longer(v));
      if Shorter(v) != 1 { UnscaledInside(Longer(v), Shorter(v)); }
    }
  }

  /** It leaves the circle for exactly the requests with one axis at the limit and the other at one unit. */
  lemma LimitExact(v: Voltage)
    ensures NormSquared(Limited(v)) > VOLTAGE_LIMIT_Q8 * VOLTAGE_LIMIT_Q8 <==>
            Longer(v) == VOLTAGE_LIMIT_Q8 && Shorter(v) == 1
  {
    LimitedInCircle(v);
    AxesOf(v);
    if !Saturated(v) {
      UnscaledUnit(Longer(v));
      if Shorter(v) != 1 { UnscaledInside(Longer(v), Shorter(v)); }
    }
  }

  predicate SameDirection(a: int, b: int) {
    Abs(a) <= Abs(b) && (b >= 0 ==> a >= 0) && (b <= 0 ==> a <= 0)
  }

  /** It never turns an axis around and never enlarges it. */
  lemma LimitedKeepsDirection(v: Voltage)
    ensures SameDirection(Limited(v).d, v.d) && SameDirection(Limited(v).q, v.q)
  {
    if Saturated(v) {
      ScaleAxis(v.d, Magnitude(v));
      ScaleAxis(v.q, Magnitude(v));
    }
  }

  lemma SaturatedNorm(x: nat, y: nat, a: nat, b: nat)
    requires var m := Max(x, y) + Min(x, y) / 2;
             m > VOLTAGE_LIMIT_Q8 && a * m <= x * VOLTAGE_LIMIT_Q8 && b * m <= y * VOLTAGE_LIMIT_Q8 &&
             (x <= 1 ==> a == 0) && (y <= 1 ==> b == 0)
    ensures a * a + b * b <= VOLTAGE_LIMIT_Q8 * VOLTAGE_LIMIT_Q8
  {
    var m := Max(x, y) + Min(x, y) / 2;
    var x', y' := if x <= 1 then 0 else x, if y <= 1 then 0 else y;
    if x >= y { MagnitudeCovers(x', y'); } else { MagnitudeCovers(y', x'); }
    ScaledNorm(x', y', m, a, b);
  }

  /** The extra unit is real: this request passes unscaled and lies one unit outside. */
  lemma LimitSlackIsReal()
    ensures var v := Voltage(VOLTAGE_LIMIT_Q8, 1);
            Limited(v) == v && NormSquared(v) == VOLTAGE_LIMIT_Q8 * VOLTAGE_LIMIT_Q8 + 1
  {
  }

  // ----- the sine table -----

  /** Quarter-wave sine in 64 steps. */
  function SinQuarter(i: nat): int
    requires i <= 64
  {
    match i / 8
    case 0 => [0, 804, 1608, 2410, 3212, 4011, 4808, 5602][i % 8]
    case 1 => [6393, 7179, 7962, 8739, 9512, 10278, 11039, 11793][i % 8]
    case 2 => [12539, 13279, 14010, 14732, 15446, 16151, 16846, 17530][i % 8]
    case 3 => [18204, 18868, 19519, 20159, 20787, 21403, 22005, 22594][i % 8]
    case 4 => [23170, 23731, 24279, 24811, 25329, 25832, 26319, 26790][i % 8]
    case 5 => [27245, 27683, 28105, 28510, 28898, 29268, 29621, 29956][i % 8]
    case 6 => [30273, 30571, 30852, 31113, 31356, 31580, 31785, 31971][i % 8]
    case 7 => [32137, 32285, 32412, 32521, 32609, 32678, 32728, 32757][i % 8]
    case _ => 32767
  }

  function TableSine(quadrant: nat, offset: nat): int
    requires offset < 64
  {
    match quadrant
    case 0 => SinQuarter(offset)
    case 1 => SinQuarter(64 - offset)
    case 2 => -SinQuarter(offset)
    case _ => -SinQuarter(64 - offset)
  }

  function SinQ15(angle: Word16): int {
    var index := angle / 0x100;
    TableSine(index / 0x40, index % 0x40)
  }

  function CosQ15(angle: Word16): int {
    SinQ15((angle + 0x4000) % 0x1_0000)
  }

  predicate PairInCircle(i: nat)
    requires i <= 64
  {
    SinQuarter(i) * SinQuarter(i) + SinQuarter(64 - i) * SinQuarter(64 - i) <= Q15 * Q15
  }

  lemma FirstPairs(i: nat)
    requires 0 <= i <= 8
    ensures PairInCircle(i)
  {
    assert PairInCircle(0) && PairInCircle(1) && PairInCircle(2) && PairInCircle(3) && PairInCircle(4) &&
           PairInCircle(5) && PairInCircle(6) && PairInCircle(7) && PairInCircle(8);
  }

  lemma SecondPairs(i: nat)
    requires 9 <= i <= 16
    ensures PairInCircle(i)
  {
    assert PairInCircle(9) && PairInCircle(10) && PairInCircle(11) && PairInCircle(12) && PairInCircle(13) &&
           PairInCircle(14) && PairInCircle(15) && PairInCircle(16);
  }

  lemma ThirdPairs(i: nat)
    requires 17 <= i <= 24
    ensures PairInCircle(i)
  {
    assert PairInCircle(17) && PairInCircle(18) && PairInCircle(19) && PairInCircle(20) && PairInCircle(21) &&
           PairInCircle(22) && PairInCircle(23) && PairInCircle(24);
  }

  lemma FourthPairs(i: nat)
    requires 25 <= i <= 32
    ensures PairInCircle(i)
  {
    assert PairInCircle(25) && PairInCircle(26) && PairInCircle(27) && PairInCircle(28) && PairInCircle(29) &&
           PairInCircle(30) && PairInCircle(31) && PairInCircle(32);
  }

  lemma PairMirrors(i: nat)
    requires i <= 64
    ensures PairInCircle(64 - i) == PairInCircle(i)
  {
    hide SinQuarter;
    assert 64 - (64 - i) == i;
  }

  /** Every sine and cosine the table can give lie inside the unit circle. */
  lemma TablePairs(i: nat)
    requires i <= 64
    ensures PairInCircle(i)
  {
    var k := if i <= 32 then i else 64 - i;
    hide PairInCircle;
    if k <= 8 { FirstPairs(k); } else if k <= 16 { SecondPairs(k); } else if k <= 24 { ThirdPairs(k); }
    else { FourthPairs(k); }
    PairMirrors(k);
  }

  lemma QuarterTurn(angle: Word16)
    ensures var turned := (angle + 0x4000) % 0x1_0000;
            turned / 0x100 / 0x40 == (angle / 0x100 / 0x40 + 1) % 4 && (turned / 0x100) % 0x40 == (angle / 0x100) % 0x40
  {
    TurnedIndex(angle);
    QuarterOfIndex(angle / 0x100);
  }

  lemma TurnedIndex(angle: Word16)
    ensures (angle + 0x4000) % 0x1_0000 / 0x100 == (angle / 0x100 + 0x40) % 0x100
  {
  }

  lemma QuarterOfIndex(index: Byte)
    ensures var turned := (index + 0x40) % 0x100;
            turned / 0x40 == (index / 0x40 + 1) % 4 && turned % 0x40 == index % 0x40
  {
  }

  lemma QuadrantPair(quadrant: nat, offset: nat)
    requires quadrant < 4 && offset < 64
    ensures var s, c := TableSine(quadrant, offset), TableSine((quadrant + 1) % 4, offset);
            s * s + c * c <= Q15 * Q15
  {
    hide SinQuarter;
    var x, y := SinQuarter(offset), SinQuarter(64 - offset);
    TablePairs(offset);
    SquareOfNegation(x);
    SquareOfNegation(y);
  }

  lemma SquareOfNegation(x: int)
    ensures (-x) * (-x) == x * x
  {
  }

  /** Sine and cosine of every angle lie inside the unit circle. */
  lemma SineCosineInCircle(angle: Word16)
    ensures SinQ15(angle) * SinQ15(angle) + CosQ15(angle) * CosQ15(angle) <= Q15 * Q15
  {
    var index := angle / 0x100;
    QuarterTurn(angle);
    QuadrantPair(index / 0x40, index % 0x40);
  }

  // ----- inverse Park transform -----

  datatype AlphaBeta = AlphaBeta(alpha: int, beta: int)

  /** Rotates the voltage, which has been shifted down from Q8, by the rotor angle. */
  function InversePark(v: Voltage, angle: Word16): AlphaBeta {
    var s, c := SinQ15(angle), CosQ15(angle);
    AlphaBeta((v.d * c - v.q * s) / Q15, (v.d * s + v.q * c) / Q15)
  }

  /** Shifts both axes right by eight, toward minus infinity. */
  function FromQ8(v: Voltage): Voltage {
    Voltage(v.d / 0x100, v.q / 0x100)
  }

  const MAXIMUM_VOLTAGE: nat := 162

  lemma FromQ8Axis(x: int)
    requires Abs(x) <= VOLTAGE_LIMIT_Q8
    ensures 65536 * ((x / 0x100) * (x / 0x100)) <= x * x + 510 * VOLTAGE_LIMIT_Q8 + 65025
  {
    var y := Abs(x / 0x100);
    assert 0x100 * y <= Abs(x) + 255;
    SquareMonotone(0x100 * y, Abs(x) + 255);
    assert (0x100 * y) * (0x100 * y) == 65536 * (y * y);
    assert (Abs(x) + 255) * (Abs(x) + 255) == Abs(x) * Abs(x) + 510 * Abs(x) + 65025;
    SquareOfAbs(x);
    SquareOfAbs(x / 0x100);
  }

  lemma AxisInLimit(x: int, rest: nat)
    requires x * x + rest <= VOLTAGE_LIMIT_Q8 * VOLTAGE_LIMIT_Q8 + 1
    ensures Abs(x) <= VOLTAGE_LIMIT_Q8
  {
    if Abs(x) > VOLTAGE_LIMIT_Q8 {
      SquareMonotone(VOLTAGE_LIMIT_Q8 + 1, Abs(x));
      SquareOfAbs(x);
      assert false;
    }
  }

  /** After the limiter and the shift the voltage has magnitude at most 162. */
  lemma LimitedVoltage(v: Voltage)
    ensures NormSquared(FromQ8(Limited(v))) <= MAXIMUM_VOLTAGE * MAXIMUM_VOLTAGE
  {
    LimitedInCircle(v);
    var w := Limited(v);
    SquareOfAbs(w.d);
    SquareOfAbs(w.q);
    AxisInLimit(w.d, w.q * w.q);
    AxisInLimit(w.q, w.d * w.d);
    FromQ8Axis(w.d);
    FromQ8Axis(w.q);
  }

  lemma Rotation(d: int, q: int, s: int, c: int)
    ensures (d * c - q * s) * (d * c - q * s) + (d * s + q * c) * (d * s + q * c) == (d * d + q * q) * (s * s + c * c)
  {
    SquareOfDifference(d * c, q * s);
    SquareOfSum(d * s, q * c);
    SquareOfProduct(d, c);
    SquareOfProduct(q, s);
    SquareOfProduct(d, s);
    SquareOfProduct(q, c);
    CrossTerms(d, q, s, c);
    Distribute(d * d, q * q, s * s, c * c);
  }

  lemma SquareOfSum(x: int, y: int)
    ensures (x + y) * (x + y) == x * x + 2 * (x * y) + y * y
  {
  }

  lemma SquareOfDifference(x: int, y: int)
    ensures (x - y) * (x - y) == x * x - 2 * (x * y) + y * y
  {
  }

  lemma CrossTerms(d: int, q: int, s: int, c: int)
    ensures (d * c) * (q * s) == (d * s) * (q * c)
  {
    assert (d * c) * (q * s) == d * ((c * q) * s);
    assert (d * s) * (q * c) == d * ((s * q) * c);
    assert (c * q) * s == (s * q) * c;
  }

  lemma Distribute(a: int, b: int, x: int, y: int)
    ensures (a + b) * (x + y) == a * x + a * y + b * x + b * y
  {
  }

  lemma NonNegativeSquare(x: int)
    ensures x * x >= 0
  {
    SquareOfAbs(x);
  }

  lemma RootBound(x: int, bound: nat)
    requires x * x <= bound * bound
    ensures Abs(x) <= bound
  {
    SquareOfAbs(x);
    SquareOfSum(bound, 1);
    if Abs(x) > bound {
      SquareMonotone(bound + 1, Abs(x));
      assert false;
    }
  }

  lemma RotatedAxes(d: int, q: int, s: int, c: int)
    requires d * d + q * q <= MAXIMUM_VOLTAGE * MAXIMUM_VOLTAGE && s * s + c * c <= Q15 * Q15
    ensures Abs(d * c - q * s) <= MAXIMUM_VOLTAGE * Q15 && Abs(d * s + q * c) <= MAXIMUM_VOLTAGE * Q15
  {
    var a, b := d * c - q * s, d * s + q * c;
    Rotation(d, q, s, c);
    NonNegativeSquare(a);
    NonNegativeSquare(b);
    NonNegativeSquare(s);
    NonNegativeSquare(c);
    NormProduct(d * d + q * q, s * s + c * c);
    RootBound(a, MAXIMUM_VOLTAGE * Q15);
    RootBound(b, MAXIMUM_VOLTAGE * Q15);
  }

  lemma ShiftedBound(x: int, bound: nat)
    requires Abs(x) <= bound * Q15
    ensures Abs(x / Q15) <= bound
  {
  }

  /** A rotated voltage stays within its magnitude on both stationary axes. */
  lemma RotatedInBounds(v: Voltage, angle: Word16)
    requires NormSquared(v) <= MAXIMUM_VOLTAGE * MAXIMUM_VOLTAGE
    ensures Abs(InversePark(v, angle).alpha) <= MAXIMUM_VOLTAGE && Abs(InversePark(v, angle).beta) <= MAXIMUM_VOLTAGE
  {
    SineCosineInCircle(angle);
    ParkInBounds(v, SinQ15(angle), CosQ15(angle));
  }

  lemma ParkInBounds(v: Voltage, s: int, c: int)
    requires NormSquared(v) <= MAXIMUM_VOLTAGE * MAXIMUM_VOLTAGE && s * s + c * c <= Q15 * Q15
    ensures Abs((v.d * c - v.q * s) / Q15) <= MAXIMUM_VOLTAGE && Abs((v.d * s + v.q * c) / Q15) <= MAXIMUM_VOLTAGE
  {
    RotatedAxes(v.d, v.q, s, c);
    ShiftedBound(v.d * c - v.q * s, MAXIMUM_VOLTAGE);
    ShiftedBound(v.d * s + v.q * c, MAXIMUM_VOLTAGE);
  }

  lemma NormProduct(x: int, y: int)
    requires x <= MAXIMUM_VOLTAGE * MAXIMUM_VOLTAGE && 0 <= y <= Q15 * Q15
    ensures x * y <= (MAXIMUM_VOLTAGE * Q15) * (MAXIMUM_VOLTAGE * Q15)
  {
    OrderedProduct(x, MAXIMUM_VOLTAGE * MAXIMUM_VOLTAGE, y);
    OrderedProduct(y, Q15 * Q15, MAXIMUM_VOLTAGE * MAXIMUM_VOLTAGE);
  }

  lemma OrderedProduct(p: int, q: int, s: nat)
    requires p <= q
    ensures p * s <= q * s
  {
    assert q * s - p * s == (q - p) * s;
  }

  // ----- inverse Clarke transform and PWM -----

  datatype Phases = Phases(a: int, b: int, c: int)
  {
    function Largest(): int { Max(Max(a, b), c) }
    function Smallest(): int { Min(Min(a, b), c) }
    function Plus(x: int): Phases { Phases(a + x, b + x, c + x) }
  }

  function InverseClarke(v: AlphaBeta): Phases {
    var half, shifted := TruncDiv(-v.alpha, 2), (v.beta * 28378) / Q15;
    Phases(v.alpha, half + shifted, half - shifted)
  }

  /** Min/max injection: the same offset on all phases centres them. */
  function Injected(p: Phases): Phases {
    p.Plus(TruncDiv(-(p.Largest() + p.Smallest()), 2))
  }

  function ClampPhase(x: int): (y: int)
    ensures Abs(y) <= PWM_MAX_PHASE_DELTA
  {
    Clamp(x, -(PWM_MAX_PHASE_DELTA as int), PWM_MAX_PHASE_DELTA)
  }

  function Clamped(p: Phases): Phases {
    Phases(ClampPhase(p.a), ClampPhase(p.b), ClampPhase(p.c))
  }

  /** The compare values written to the timer. */
  function Compares(p: Phases): Phases {
    var c := Clamped(p);
    Phases(PWM_NEUTRAL_COMPARE - c.a, PWM_NEUTRAL_COMPARE - c.b, PWM_NEUTRAL_COMPARE - c.c)
  }

  function PwmFor(v: AlphaBeta): Phases {
    Compares(Injected(InverseClarke(v)))
  }

  predicate InRange(p: Phases) {
    Clamped(p) == p
  }

  /** The output of the current loop for a requested Q8 voltage. */
  function LoopOutput(v: Voltage, angle: Word16): AlphaBeta {
    InversePark(FromQ8(Limited(v)), angle)
  }

  lemma PhaseSpread(v: AlphaBeta)
    requires Abs(v.alpha) <= MAXIMUM_VOLTAGE && Abs(v.beta) <= MAXIMUM_VOLTAGE
    ensures InverseClarke(v).Largest() - InverseClarke(v).Smallest() <= 2 * PWM_MAX_PHASE_DELTA - 1
  {
  }

  lemma InjectionCentres(p: Phases)
    ensures -1 <= Injected(p).Largest() + Injected(p).Smallest() <= 1
    ensures Injected(p).Largest() - Injected(p).Smallest() == p.Largest() - p.Smallest()
    ensures Injected(p).a - Injected(p).b == p.a - p.b && Injected(p).b - Injected(p).c == p.b - p.c
  {
  }

  lemma SmallSpreadFits(p: Phases)
    requires p.Largest() - p.Smallest() <= 2 * PWM_MAX_PHASE_DELTA - 1
    ensures InRange(Injected(p))
  {
    InjectionCentres(p);
  }

  predicate Within(c: Phases, lo: int, hi: int) {
    lo <= c.a <= hi && lo <= c.b <= hi && lo <= c.c <= hi
  }

  /** The compare values carry the line-to-line voltages of the unclamped phases. */
  predicate KeepsLineVoltages(compares: Phases, p: Phases) {
    compares.b - compares.a == p.a - p.b && compares.c - compares.b == p.b - p.c && compares.a - compares.c == p.c - p.a
  }

  lemma UnclampedLines(p: Phases)
    requires InRange(Injected(p))
    ensures KeepsLineVoltages(Compares(Injected(p)), p)
  {
    InjectionCentres(p);
  }

  lemma ComparesInPeriod(v: AlphaBeta)
    ensures Within(PwmFor(v), PWM_NEUTRAL_COMPARE - PWM_MAX_PHASE_DELTA, PWM_NEUTRAL_COMPARE + PWM_MAX_PHASE_DELTA)
  {
  }

  /** For every requested voltage and every rotor angle the phase clamp does nothing, so the three compare
      values reproduce the line-to-line voltages of the transforms exactly. */
  lemma CurrentLoopNeverClamps(v: Voltage, angle: Word16)
    ensures var p := InverseClarke(LoopOutput(v, angle));
            InRange(Injected(p)) && KeepsLineVoltages(PwmFor(LoopOutput(v, angle)), p)
  {
    LimitedVoltage(v);
    RotatedInBounds(FromQ8(Limited(v)), angle);
    var u := LoopOutput(v, angle);
    PhaseSpread(u);
    SmallSpreadFits(InverseClarke(u));
    UnclampedLines(InverseClarke(u));
  }
}
