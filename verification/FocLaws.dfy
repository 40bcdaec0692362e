/** What the field-oriented loops mean for the motor: which way each of them pushes, and that what is driven is what
    is measured back. */
module FocLaws {
  import opened Arith
  import opened FocVector
  import opened FocAngle
  import opened FocSpec
  import opened FocSafety
  import opened FocMotion

  // ----- the current loop -----

  /** The integral a current controller would move to: the error, at gain one, inside its limit. */
  function Moved(integral: int, error: int): int {
    Clamp(integral + error, -40960, 40960)
  }

  /** `x` lies on the side of `y` that the sign of `error` says. */
  predicate OnSideOf(x: int, y: int, error: int) {
    (error > 0 ==> x > y) && (error < 0 ==> x < y) && (error == 0 ==> x == y)
  }

  predicate NotAgainst(x: int, y: int, error: int) {
    (error > 0 ==> x >= y) && (error < 0 ==> x <= y) && (error == 0 ==> x == y)
  }

  lemma AxisOpposes(integral: int, error: int, kept: int)
    requires Abs(integral) <= 40960 && (kept == integral || kept == Moved(integral, error))
    ensures OnSideOf(384 * error + kept, integral, error) && NotAgainst(kept, integral, error)
  {
  }

  /** The loop opposes the error on both axes: the voltage a running motor's sample requests lies below the stored
      integral of its axis exactly when too much current was measured, zero being wanted on d and the reference on q,
      and above it when too little; the kept integrals move that way or stay. The measurement is what is stored. */
  lemma CurrentLoopOpposes(f: Foc, a: Count, b: Count, c: Count, tick: Word32)
    requires Invariant(f) && f.state == Running && CurrentSample(f, a, b, c, tick).state == Running
    ensures var g := CurrentSample(f, a, b, c, tick);
            var i, v := MeasuredCurrent(a, b, c, g.predicted), RequestedVoltage(f, a, b, c, tick);
            OnSideOf(v.d, f.loops.idIntegralQ8, 0 - i.d) &&
            OnSideOf(v.q, f.loops.iqIntegralQ8, f.loops.iqReference - i.q) &&
            NotAgainst(g.loops.idIntegralQ8, f.loops.idIntegralQ8, 0 - i.d) &&
            NotAgainst(g.loops.iqIntegralQ8, f.loops.iqIntegralQ8, f.loops.iqReference - i.q) &&
            g.loops.lastId == i.d && g.loops.lastIq == i.q
  {
    hide MeasuredCurrent, LoopOutput, PwmFor, OverLimit, RegulatedBy, OnSideOf, NotAgainst, StageAgrees;
    var g := CurrentSample(f, a, b, c, tick);
    SampleStores(f, a, b, c, tick);
    RegulationOpposes(f.loops, MeasuredCurrent(a, b, c, g.predicted));
  }

  lemma SampleStores(f: Foc, a: Count, b: Count, c: Count, tick: Word32)
    requires f.state == Running && CurrentSample(f, a, b, c, tick).state == Running
    ensures var g := CurrentSample(f, a, b, c, tick);
            var i := MeasuredCurrent(a, b, c, g.predicted); var r := RegulatedBy(f.loops, i);
            g.predicted == PredictedAngle(f.encoder, tick) && g.loops.lastId == i.d && g.loops.lastIq == i.q &&
            g.loops.idIntegralQ8 == r.d && g.loops.iqIntegralQ8 == r.q
  {
    hide MeasuredCurrent, LoopOutput, PwmFor, OverLimit, Regulate, PredictedAngle;
  }

  lemma RegulationOpposes(l: Loops, i: Current)
    requires LoopsBounded(l)
    ensures var r := RegulatedBy(l, i); var dError, qError := 0 - i.d, l.iqReference - i.q;
            OnSideOf(r.voltage.d, l.idIntegralQ8, dError) && OnSideOf(r.voltage.q, l.iqIntegralQ8, qError) &&
            NotAgainst(r.d, l.idIntegralQ8, dError) && NotAgainst(r.q, l.iqIntegralQ8, qError)
  {
    hide Limited, Saturated, OnSideOf, NotAgainst;
    var r := RegulatedBy(l, i);
    AxisOpposes(l.idIntegralQ8, 0 - i.d, r.d);
    AxisOpposes(l.iqIntegralQ8, l.iqReference - i.q, r.q);
  }

  /** No windup: while the requested voltage is beyond the limit and the errors point further out, neither integral
      moves. Both move by their errors whenever the voltage that gives is within the limit or the errors point back. */
  lemma NoWindup(f: Foc, a: Count, b: Count, c: Count, tick: Word32)
    requires f.state == Running && CurrentSample(f, a, b, c, tick).state == Running
    ensures var l, g := f.loops, CurrentSample(f, a, b, c, tick);
            var i, v := MeasuredCurrent(a, b, c, g.predicted), RequestedVoltage(f, a, b, c, tick);
            var dError, qError := 0 - i.d, l.iqReference - i.q;
            var dMoved, qMoved := Moved(l.idIntegralQ8, dError), Moved(l.iqIntegralQ8, qError);
            var moved := Voltage(384 * dError + dMoved, 384 * qError + qMoved);
            (PointsOut(v, dError, qError) ==>
               g.loops.idIntegralQ8 == l.idIntegralQ8 && g.loops.iqIntegralQ8 == l.iqIntegralQ8) &&
            (!PointsOut(moved, dError, qError) ==> g.loops.idIntegralQ8 == dMoved && g.loops.iqIntegralQ8 == qMoved)
  {
    hide MeasuredCurrent, LoopOutput, PwmFor, OverLimit, Limited, Saturated;
  }

  /** The voltage is beyond the limit, and the errors point further out. */
  predicate PointsOut(v: Voltage, dError: int, qError: int) {
    Saturated(v) && dError * Limited(v).d + qError * Limited(v).q > 0
  }

  // ----- the speed loop -----

  /** The speed loop in its integrating regime: not in the direct zone of position control, not stopped at zero. */
  predicate Integrating(l: Loops) {
    !(l.mode == PositionMode && Abs(l.positionError) <= 128) &&
    !(l.mode == SpeedMode && l.targetRpm == 0 && Abs(l.measuredRpm) <= 1)
  }

  /** What is left of the integral when position control has crossed its target by 5 rpm and more. */
  function Released(l: Loops): int {
    var error := l.targetRpm - l.measuredRpm;
    if l.mode == PositionMode && ((error >= 5 && l.speedIntegralQ6 < 0) || (error <= -5 && l.speedIntegralQ6 > 0))
    then 0 else l.speedIntegralQ6
  }

  /** The speed loop opposes the speed error: the torque reference lies beyond what the integral alone gives, on the
      side of the error, up to the limit; the integral moves that way or stays; a motor at its target keeps both. */
  lemma SpeedLoopOpposes(l: Loops)
    requires LoopsBounded(l) && Integrating(l)
    ensures var n, error, before := SpeedController(l), l.targetRpm - l.measuredRpm, Released(l);
            NotAgainst(n.speedIntegralQ6, before, error) &&
            (error > 0 ==> n.iqReference >= Min(124, before / 64 + error)) &&
            (error < 0 ==> n.iqReference <= Max(-124, before / 64 + error)) &&
            (error == 0 ==> n.iqReference == Clamp(before / 64, -124, 124)) &&
            var candidate := Clamp(before + error, -7936, 7936);
            (error > 0 ==> n.speedIntegralQ6 == if error + candidate / 64 > 124 then before else candidate) &&
            (error < 0 ==> n.speedIntegralQ6 == if error + candidate / 64 < -124 then before else candidate) &&
            (error == 0 ==> n.speedIntegralQ6 == candidate)
  {
  }

  /** A new target speed is limited to the maximum. A running motor whose torque is against it brakes in the same call,
      whatever the integral was; told to stop it does so too; with torque the right way it keeps its integral. */
  lemma NewTargetActsAtOnce(f: Foc, rpm: int)
    requires LoopsBounded(f.loops) && f.state == Running && f.loops.mode == SpeedMode
    ensures var l, n := f.loops, SetTargetRpm(f, rpm).loops; var error := n.targetRpm - l.measuredRpm;
            n.targetRpm == (if rpm > 400 then 400 else if rpm < -400 then -400 else rpm) &&
            n.measuredRpm == l.measuredRpm &&
            (error < 0 && (l.iqReference > 0 || n.targetRpm == 0) && Abs(error) > 1 ==> n.iqReference < 0) &&
            (error > 0 && (l.iqReference < 0 || n.targetRpm == 0) && Abs(error) > 1 ==> n.iqReference > 0) &&
            (error > 0 && l.iqReference >= 0 && n.targetRpm != 0 ==> n.speedIntegralQ6 >= l.speedIntegralQ6) &&
            (error < 0 && l.iqReference <= 0 && n.targetRpm != 0 ==> n.speedIntegralQ6 <= l.speedIntegralQ6)
  {
  }

  /** A stopped motor told to stand still is left alone. */
  lemma StandsStill(l: Loops)
    requires l.mode == SpeedMode && l.targetRpm == 0 && Abs(l.measuredRpm) <= 1
    ensures SpeedController(l).iqReference == 0 && SpeedController(l).speedIntegralQ6 == 0
  {
  }

  /** Within 128 counts of its target position control pulls at a quarter of the distance and brakes at twice the
      speed; at rest the torque has the sign of the error, and at the target that of the speed it is against. */
  lemma DirectZonePulls(l: Loops)
    requires l.mode == PositionMode && Abs(l.positionError) <= 128
    ensures var iq := SpeedController(l).iqReference;
            iq == Clamp(TruncDiv(l.positionError, 4) - 2 * l.measuredRpm, -32, 32) &&
            SpeedController(l).speedIntegralQ6 == 0 &&
            (l.measuredRpm == 0 ==> (iq > 0 <==> l.positionError >= 4) && (iq < 0 <==> l.positionError <= -4)) &&
            (l.positionError == 0 ==> (iq > 0 <==> l.measuredRpm < 0) && (iq < 0 <==> l.measuredRpm > 0))
  {
  }

  lemma SpeedPoints(distance: int, speed: int)
    requires speed == PositionSpeed(distance)
    ensures (speed > 0 <==> distance > 128) && (speed < 0 <==> distance < -128)
    ensures Abs(distance) > 128 ==> Abs(speed) == Min(50, Abs(distance) / 10)
  {
  }

  /** Position control takes the short way round: the error is the one distance within half a turn, and the speed
      command points along it beyond the direct zone, one rpm for ten counts and at most 50. */
  lemma PositionTakesShortWay(l: Loops, raw: Raw14, distance: int)
    requires -8192 <= distance <= 8191 && RawAt(raw + distance) == l.targetPosition
    ensures var n := PositionController(l, raw);
            n.positionError == distance && (n.targetRpm > 0 <==> distance > 128) &&
            (n.targetRpm < 0 <==> distance < -128) &&
            (Abs(distance) > 128 ==> Abs(n.targetRpm) == Min(50, Abs(distance) / 10))
  {
    hide PositionSpeed, WrapError;
    DifferenceIsMovement(raw, raw + distance);
    assert RawAt(raw) == raw;
    SpeedPoints(distance, PositionSpeed(distance));
    hide RawAt;
  }

  // ----- the sine table -----

  predicate Rises(i: nat)
    requires i < 64
  {
    0 <= SinQuarter(i) < SinQuarter(i + 1)
  }

  lemma FirstRise(i: nat)
    requires 0 <= i <= 15
    ensures Rises(i)
  {
    assert Rises(0) && Rises(1) && Rises(2) && Rises(3) && Rises(4) && Rises(5) && Rises(6) && Rises(7);
    assert Rises(8) && Rises(9) && Rises(10) && Rises(11) && Rises(12) && Rises(13) && Rises(14) && Rises(15);
  }

  lemma SecondRise(i: nat)
    requires 16 <= i <= 31
    ensures Rises(i)
  {
    assert Rises(16) && Rises(17) && Rises(18) && Rises(19) && Rises(20) && Rises(21) && Rises(22) && Rises(23);
    assert Rises(24) && Rises(25) && Rises(26) && Rises(27) && Rises(28) && Rises(29) && Rises(30) && Rises(31);
  }

  lemma ThirdRise(i: nat)
    requires 32 <= i <= 47
    ensures Rises(i)
  {
    assert Rises(32) && Rises(33) && Rises(34) && Rises(35) && Rises(36) && Rises(37) && Rises(38) && Rises(39);
    assert Rises(40) && Rises(41) && Rises(42) && Rises(43) && Rises(44) && Rises(45) && Rises(46) && Rises(47);
  }

  lemma FourthRise(i: nat)
    requires 48 <= i <= 63
    ensures Rises(i)
  {
    assert Rises(48) && Rises(49) && Rises(50) && Rises(51) && Rises(52) && Rises(53) && Rises(54) && Rises(55);
    assert Rises(56) && Rises(57) && Rises(58) && Rises(59) && Rises(60) && Rises(61) && Rises(62) && Rises(63);
  }

  /** The table rises through its quarter ... */
  lemma QuarterRises(i: nat)
    requires i < 64
    ensures 0 <= SinQuarter(i) < SinQuarter(i + 1)
  {
    hide SinQuarter;
    if i <= 15 { FirstRise(i); } else if i <= 31 { SecondRise(i); } else if i <= 47 { ThirdRise(i); }
    else { FourthRise(i); }
    assert Rises(i);
  }

  /** ... the sine repeats it mirrored, is not negative over the first half turn, and changes sign over half a turn;
      the cosine is the sine a quarter turn on. */
  lemma SineWave(angle: Word16)
    ensures SinQ15((angle + 0x8000) % 0x1_0000) == -SinQ15(angle)
    ensures angle < 0x8000 ==> SinQ15(angle) >= 0
    ensures angle < 0x4000 ==> SinQ15(angle) == SinQuarter(angle / 0x100)
    ensures 0x4000 <= angle < 0x8000 ==> SinQ15(angle) == SinQuarter(128 - angle / 0x100)
    ensures CosQ15(angle) == SinQ15((angle + 0x4000) % 0x1_0000)
  {
    hide SinQuarter;
    HalfTurnIndex(angle);
    var offset := angle / 0x100 % 0x40;
    QuarterRises(offset);
    QuarterRises(63 - offset);
  }

  lemma HalfTurnIndex(angle: Word16)
    ensures (angle + 0x8000) % 0x1_0000 / 0x100 == (angle / 0x100 + 0x80) % 0x100
  {
  }

  /** Sine and cosine nearly fill the unit circle. */
  predicate PairFillsCircle(i: nat)
    requires i <= 64
  {
    SinQuarter(i) * SinQuarter(i) + SinQuarter(64 - i) * SinQuarter(64 - i) >= Q15 * Q15 - 3 * Q15
  }

  lemma FirstFill(i: nat)
    requires 0 <= i <= 8
    ensures PairFillsCircle(i)
  {
    assert PairFillsCircle(0) && PairFillsCircle(1) && PairFillsCircle(2) && PairFillsCircle(3) &&
           PairFillsCircle(4) && PairFillsCircle(5) && PairFillsCircle(6) && PairFillsCircle(7) &&
           PairFillsCircle(8);
  }

  lemma SecondFill(i: nat)
    requires 9 <= i <= 16
    ensures PairFillsCircle(i)
  {
    assert PairFillsCircle(9) && PairFillsCircle(10) && PairFillsCircle(11) && PairFillsCircle(12) &&
           PairFillsCircle(13) && PairFillsCircle(14) && PairFillsCircle(15) && PairFillsCircle(16);
  }

  lemma ThirdFill(i: nat)
    requires 17 <= i <= 24
    ensures PairFillsCircle(i)
  {
    assert PairFillsCircle(17) && PairFillsCircle(18) && PairFillsCircle(19) && PairFillsCircle(20) &&
           PairFillsCircle(21) && PairFillsCircle(22) && PairFillsCircle(23) && PairFillsCircle(24);
  }

  lemma FourthFill(i: nat)
    requires 25 <= i <= 32
    ensures PairFillsCircle(i)
  {
    assert PairFillsCircle(25) && PairFillsCircle(26) && PairFillsCircle(27) && PairFillsCircle(28) &&
           PairFillsCircle(29) && PairFillsCircle(30) && PairFillsCircle(31) && PairFillsCircle(32);
  }

  lemma TableFills(i: nat)
    requires i <= 64
    ensures PairFillsCircle(i)
  {
    var k := if i <= 32 then i else 64 - i;
    hide PairFillsCircle;
    if k <= 8 { FirstFill(k); } else if k <= 16 { SecondFill(k); } else if k <= 24 { ThirdFill(k); }
    else { FourthFill(k); }
    FillMirrors(k);
  }

  lemma FillMirrors(i: nat)
    requires i <= 64
    ensures PairFillsCircle(64 - i) == PairFillsCircle(i)
  {
    hide SinQuarter;
    assert 64 - (64 - i) == i;
  }

  lemma QuadrantFills(quadrant: nat, offset: nat)
    requires quadrant < 4 && offset < 64
    ensures var s, c := TableSine(quadrant, offset), TableSine((quadrant + 1) % 4, offset);
            s * s + c * c >= Q15 * Q15 - 3 * Q15
  {
    hide SinQuarter;
    TableFills(offset);
    SquareOfNegation(SinQuarter(offset));
    SquareOfNegation(SinQuarter(64 - offset));
  }

  lemma SineCosineFill(angle: Word16)
    ensures SinQ15(angle) * SinQ15(angle) + CosQ15(angle) * CosQ15(angle) >= Q15 * Q15 - 3 * Q15
  {
    hide TableSine;
    QuarterTurn(angle);
    QuadrantFills(angle / 0x100 / 0x40, angle / 0x100 % 0x40);
  }

  // ----- what is driven is measured -----

  lemma ProductsOf(d: int, q: int, s: int, c: int)
    ensures (d * c - q * s) * c + (d * s + q * c) * s == d * (s * s + c * c)
    ensures (d * s + q * c) * c - (d * c - q * s) * s == q * (s * s + c * c)
  {
    assert (d * c - q * s) * c == d * (c * c) - q * (s * c) && (d * s + q * c) * s == d * (s * s) + q * (s * c);
    assert (d * s + q * c) * c == d * (s * c) + q * (c * c) && (d * c - q * s) * s == d * (s * c) - q * (s * s);
  }

  /** A quotient by 2^15 is short of the number by less than a unit. */
  lemma ShortOf(x: int)
    ensures 0 <= x - Q15 * (x / Q15) < Q15
  {
  }

  lemma SmallProduct(x: int, y: int, m: nat, n: nat)
    requires Abs(x) <= m && Abs(y) <= n
    ensures Abs(x * y) <= m * n
  {
    ProductBound(x, y, m, n);
  }

  lemma Spread(x: int, f: int, u: int)
    ensures (Q15 * x + f) * u == Q15 * (x * u) + f * u
  {
  }

  lemma Gap(d: int, norm: int)
    ensures d * norm == d * (Q15 * Q15) - d * (Q15 * Q15 - norm)
  {
  }

  lemma SumTimes(y: int, e: int, w: int)
    ensures (y + e) * w == y * w + e * w
  {
  }

  /** Recombining two rounded coordinates, the second off by at most two, gives what the exact ones would within five
      units. */
  lemma RotatedBack(d: int, p: int, r: int, e: int, u: int, w: int, norm: int)
    requires Abs(d) <= 4095 && Abs(u) <= Q15 && Abs(w) <= Q15 && Abs(e) <= 2
    requires Q15 * Q15 - 3 * Q15 <= norm <= Q15 * Q15 && p * u + r * w == d * norm
    ensures Abs(((p / Q15) * u + (r / Q15 + e) * w) / Q15 - d) <= 5
  {
    var x, y := p / Q15, r / Q15;
    var f, g := p - Q15 * x, r - Q15 * y;
    ShortOf(p);
    ShortOf(r);
    SmallProduct(f, u, Q15, Q15);
    SmallProduct(g, w, Q15, Q15);
    SmallProduct(e, w, 2, Q15);
    SmallProduct(d, Q15 * Q15 - norm, 4095, 3 * Q15);
    Spread(x, f, u);
    Spread(y, g, w);
    Gap(d, norm);
    SumTimes(y, e, w);
    Recombined(x * u, y * w, e * w, f * u, g * w, p * u, r * w, d * norm, d * (Q15 * Q15 - norm), d);
  }

  lemma Recombined(xu: int, yw: int, ew: int, fu: int, gw: int, pu: int, rw: int, dn: int, gap: int, d: int)
    requires Abs(fu) <= Q15 * Q15 && Abs(gw) <= Q15 * Q15 && Abs(ew) <= 2 * Q15 && Abs(gap) <= 4095 * (3 * Q15)
    requires pu == Q15 * xu + fu && rw == Q15 * yw + gw && pu + rw == dn && dn == d * (Q15 * Q15) - gap
    ensures Abs((xu + (yw + ew)) / Q15 - d) <= 5
  {
    NearQuotient(xu + (yw + ew), d);
  }

  lemma NearQuotient(z: int, d: int)
    requires Abs(Q15 * z - d * (Q15 * Q15)) <= 4 * Q15 * Q15 + 4095 * 3 * Q15
    ensures Abs(z / Q15 - d) <= 5
  {
    assert d * (Q15 * Q15) == Q15 * (d * Q15);
  }

  /** Three currents that add up to within one unit of nothing give back the stationary vector, the first coordinate
      exactly and the second within two units. */
  lemma ClarkeBack(v: AlphaBeta, p: Phases)
    requires Abs(v.beta) <= 8192 && p == InverseClarke(v)
    ensures p.a - TruncDiv(p.a + p.b + p.c, 3) == v.alpha && Abs(((p.b - p.c) * 18919) / Q15 - v.beta) <= 2
    ensures Abs(p.a + p.b + p.c) <= 1
  {
  }

  /** The transforms of a rotation by any sine and cosine that nearly fill the circle. */
  lemma ParkBack(v: Voltage, s: int, c: int, alpha: int, beta: int, error: int)
    requires Abs(v.d) <= 4095 && Abs(v.q) <= 4095 && Abs(s) <= Q15 && Abs(c) <= Q15 && Abs(error) <= 2
    requires Q15 * Q15 - 3 * Q15 <= s * s + c * c <= Q15 * Q15
    requires alpha == (v.d * c - v.q * s) / Q15 && beta == (v.d * s + v.q * c) / Q15
    ensures var i := Park(alpha, beta + error, s, c); Abs(i.d - v.d) <= 5 && Abs(i.q - v.q) <= 5
  {
    ProductsOf(v.d, v.q, s, c);
    var p, r, norm := v.d * c - v.q * s, v.d * s + v.q * c, s * s + c * c;
    RotatedBack(v.d, p, r, error, c, s, norm);
    Negated(alpha, s);
    Negated(p, s);
    RotatedBack(v.q, p, r, error, -s, c, norm);
  }

  /** Inverse transforms and transforms agree, at every angle and for every vector of up to 4095 units on each axis:
      phase currents made of a vector are measured as that vector within five units on each axis. */
  lemma DrivenIsMeasured(v: Voltage, angle: Word16, p: Phases)
    requires Abs(v.d) <= 4095 && Abs(v.q) <= 4095 && p == InverseClarke(InversePark(v, angle))
    ensures -0x8000 <= p.a < 0x8000 && -0x8000 <= p.b < 0x8000 && -0x8000 <= p.c < 0x8000
    ensures var i := MeasuredCurrent(p.a, p.b, p.c, angle); Abs(i.d - v.d) <= 5 && Abs(i.q - v.q) <= 5
  {
    hide SinQ15, CosQ15, InverseClarke, TruncDiv, Park;
    var s, c, u := SinQ15(angle), CosQ15(angle), InversePark(v, angle);
    SineBound(angle);
    SineCosineInCircle(angle);
    SineCosineFill(angle);
    StationaryBound(v, s, c);
    ClarkeBack(u, p);
    PhaseBound(u, p);
    var error := ((p.b - p.c) * 18919) / Q15 - u.beta;
    ParkBack(v, s, c, u.alpha, u.beta, error);
  }

  lemma Negated(x: int, s: int)
    ensures x * -s == -x * s == -(x * s)
  {
  }

  lemma StationaryBound(v: Voltage, s: int, c: int)
    requires Abs(v.d) <= 4095 && Abs(v.q) <= 4095 && Abs(s) <= Q15 && Abs(c) <= Q15
    ensures Abs((v.d * c - v.q * s) / Q15) <= 8191 && Abs((v.d * s + v.q * c) / Q15) <= 8191
  {
    SmallProduct(v.d, c, 4095, Q15);
    SmallProduct(v.q, s, 4095, Q15);
    SmallProduct(v.d, s, 4095, Q15);
    SmallProduct(v.q, c, 4095, Q15);
    QuotientBound(v.d * c - v.q * s);
    QuotientBound(v.d * s + v.q * c);
  }

  lemma QuotientBound(x: int)
    requires Abs(x) <= 8190 * Q15
    ensures Abs(x / Q15) <= 8191
  {
  }

  lemma PhaseBound(u: AlphaBeta, p: Phases)
    requires Abs(u.alpha) <= 8191 && Abs(u.beta) <= 8191 && p == InverseClarke(u)
    ensures Abs(p.a) < 0x8000 && Abs(p.b) < 0x8000 && Abs(p.c) < 0x8000
  {
  }

  /** At angle zero the rotor's axes are the stator's, within a unit; a quarter turn on, d lies along the second axis
      and q against the first. */
  lemma AxesOfTheRotor(v: Voltage)
    requires Abs(v.d) <= 4095 && Abs(v.q) <= 4095
    ensures var u := InversePark(v, 0); Abs(u.alpha - v.d) <= 1 && Abs(u.beta - v.q) <= 1
    ensures var u := InversePark(v, 0x4000); Abs(u.alpha + v.q) <= 1 && Abs(u.beta - v.d) <= 1
  {
    TableEnds(0, 0x4000);
    hide SinQ15, CosQ15;
    AlmostWhole(v.d);
    AlmostWhole(v.q);
    AlmostWhole(-v.q);
  }

  lemma TableEnds(zero: Word16, quarter: Word16)
    requires zero == 0 && quarter == 0x4000
    ensures SinQ15(zero) == 0 && CosQ15(zero) == 32767 && SinQ15(quarter) == 32767 && CosQ15(quarter) == 0
  {
    hide SinQuarter, SinQ15, CosQ15;
    QuarterEnds(0, 64);
    SineWave(zero);
    SineWave(quarter);
  }

  lemma QuarterEnds(first: nat, last: nat)
    requires first == 0 && last == 64
    ensures SinQuarter(first) == 0 && SinQuarter(last) == 32767
  {
  }

  lemma AlmostWhole(x: int)
    requires Abs(x) <= 4095
    ensures Abs((x * 32767) / Q15 - x) <= 1
  {
  }

  /** The phases of a stationary vector: the first carries it, the others follow at a third of a turn. */
  lemma PhasesOfVector(v: AlphaBeta)
    ensures var p := InverseClarke(v);
            p.a == v.alpha && Abs(p.a + p.b + p.c) <= 1 && Abs(0x8000 * (p.b - p.c) - 56756 * v.beta) <= 0x1_0000
  {
  }
}
