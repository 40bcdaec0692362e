/** What the conditions between fields mean for one change at a time: which values a field accepts, given the others. */
module ConfigLaws {
  import opened Arith
  import opened ConfigCodec
  import opened ConfigTable
  import opened ConfigImage
  import opened ConfigStore

  /** Both edges of a hysteresis band, in half units: the lower is above zero, the upper at most the top. */
  lemma BandMeans(threshold: int, hysteresis: int, top: int)
    requires threshold >= 0 && hysteresis >= 0
    ensures BandFits(threshold, hysteresis, top) <==>
            0 < 2 * threshold - hysteresis && 2 * threshold + hysteresis <= 2 * top
  {
  }

  predicate Band(threshold: int, hysteresis: int, top: int) {
    0 < 2 * threshold - hysteresis && 2 * threshold + hysteresis <= 2 * top
  }

  /** Values a speed or a duty field accepts. */
  predicate DriveAccepts(p: seq<int>, i: nat, v: int)
    requires |p| == FIELD_COUNT
  {
    match i
    case 4 => Max(p[71], p[88]) <= v
    case 10 => p[11] <= v
    case 11 => v <= p[10]
    case 28 => p[29] <= v
    case 29 => v <= p[28]
    case 71 => p[74] <= v <= p[4]
    case 74 => v <= p[71]
    case 85 => p[86] < v
    case 86 => v < p[85]
    case 87 => v <= p[88]
    case 88 => p[87] <= v <= p[4]
    case _ => true
  }

  /** Values a sensor field accepts. */
  predicate SensorAccepts(p: seq<int>, i: nat, v: int)
    requires |p| == FIELD_COUNT
  {
    if 41 <= i < 49 then v != p[i + 8]
    else if 49 <= i < 57 then v != p[i - 8]
    else match i
      case 32 => v < p[33]
      case 33 => p[32] < v
      case 34 => p[35] < v
      case 35 => v < p[34]
      case 57 => Band(v, p[58], 999)
      case 58 => Band(p[57], v, 999)
      case 65 => v <= p[66]
      case 66 => p[65] <= v
      case 109 => v != 0 || p[110] == 0
      case 110 => v == 0 || (p[109] != 0 && Band(v, p[111], 4095))
      case 111 => p[110] == 0 || Band(p[110], v, 4095)
      case _ => true
  }

  /** Whether a field accepts a value in its range. The two wheel radii follow each other and accept every one. */
  predicate Accepts(p: seq<int>, i: nat, v: int)
    requires |p| == FIELD_COUNT
  {
    i in {2, 67} || (DriveAccepts(p, i, v) && SensorAccepts(p, i, v))
  }

  lemma DriveChange(p: seq<int>, i: nat, v: int)
    requires |p| == FIELD_COUNT && i < FIELD_COUNT && i !in {2, 67} && DriveCoherent(p)
    ensures DriveCoherent(p[i := v]) <==> DriveAccepts(p, i, v)
  {
  }

  /** What the ranges of all fields give the conditions. */
  predicate Unsigned(p: seq<int>)
    requires |p| == FIELD_COUNT
  {
    p[57] >= 0 && p[58] >= 0 && p[110] >= 0 && p[111] >= 0
  }

  lemma OtherChannels(p: seq<int>, q: seq<int>, i: nat, v: int)
    requires |p| == FIELD_COUNT && i < FIELD_COUNT && q == p[i := v]
    requires forall k :: 0 <= k < CHANNELS ==> ChannelUsable(p, k)
    ensures (forall k :: 0 <= k < CHANNELS ==> ChannelUsable(q, k)) <==>
            (41 <= i < 49 ==> v != p[i + 8]) && (49 <= i < 57 ==> v != p[i - 8])
  {
    if 41 <= i < 49 {
      assert ChannelUsable(q, i - 41) <==> v != p[i + 8];
      assert forall k :: 0 <= k < CHANNELS && k != i - 41 ==> (ChannelUsable(q, k) <==> ChannelUsable(p, k));
    } else if 49 <= i < 57 {
      assert ChannelUsable(q, i - 49) <==> v != p[i - 8];
      assert forall k :: 0 <= k < CHANNELS && k != i - 49 ==> (ChannelUsable(q, k) <==> ChannelUsable(p, k));
    } else {
      assert forall k :: 0 <= k < CHANNELS ==> (ChannelUsable(q, k) <==> ChannelUsable(p, k));
    }
  }

  lemma SensorChange(p: seq<int>, i: nat, v: int)
    requires |p| == FIELD_COUNT && i < FIELD_COUNT && SensorCoherent(p)
    requires Unsigned(p) && Unsigned(p[i := v])
    ensures SensorCoherent(p[i := v]) <==> SensorAccepts(p, i, v)
  {
    hide BandFits, ChannelUsable;
    var q := p[i := v];
    OtherChannels(p, q, i, v);
    BandMeans(p[57], p[58], 999);
    BandMeans(q[57], q[58], 999);
    BandMeans(p[110], p[111], 4095);
    BandMeans(q[110], q[111], 4095);
  }

  // ----- one accepted change -----

  lemma WithinIsInRange(i: nat, v: int, spec: Spec)
    requires i < FIELD_COUNT && spec == SpecOf(i) && spec.lo <= v <= spec.hi
    ensures InRange(i, v)
  {
    hide SpecOf;
    assert Proper(spec);
  }

  lemma AssignedInRange(p: seq<int>, i: nat, v: int)
    requires |p| == FIELD_COUNT && i < FIELD_COUNT && AllInRange(p) && SpecOf(i).lo <= v <= SpecOf(i).hi
    ensures AllInRange(Assigned(p, i, v))
  {
    hide SpecOf, InRange;
    RadiusRanges();
    var q := Assigned(p, i, v);
    forall k | 0 <= k < FIELD_COUNT ensures InRange(k, q[k]) {
      if k == i || (k in {2, 67} && i in {2, 67}) {
        WithinIsInRange(k, q[k], SpecOf(k));
      } else {
        assert InRange(k, p[k]);
      }
    }
  }

  lemma FitsUnsigned(p: seq<int>)
    requires ParamsFit(p)
    ensures Unsigned(p)
  {
    assert forall k :: 0 <= k < FIELD_COUNT ==> Stretch(0, |p|)[k] == KindOf(k);
  }

  /** Setting a field to a value in its range succeeds exactly when the other fields accept it. */
  lemma SetAccepts(p: seq<int>, i: nat, v: int)
    requires ParamsFit(p) && ParamsValid(p) && i < FIELD_COUNT && SpecOf(i).lo <= v <= SpecOf(i).hi
    ensures ParamsValid(Assigned(p, i, v)) <==> Accepts(p, i, v)
    ensures ParamsFit(Assigned(p, i, v))
  {
    hide SpecOf, AllInRange, ParamsFit, DriveCoherent, SensorCoherent, SensorAccepts, DriveAccepts, Unsigned;
    AssignedInRange(p, i, v);
    AssignedFits(p, i, v);
    FitsUnsigned(p);
    FitsUnsigned(Assigned(p, i, v));
    if i in {2, 67} {
      RadiusCoherent(p, i, v);
    } else {
      DriveChange(p, i, v);
      SensorChange(p, i, v);
    }
  }

  lemma RadiusCoherent(p: seq<int>, i: nat, v: int)
    requires |p| == FIELD_COUNT && i in {2, 67} && Coherent(p)
    ensures Coherent(Assigned(p, i, v))
  {
    var q := Assigned(p, i, v);
    forall k | 0 <= k < CHANNELS ensures ChannelUsable(q, k) {
      assert ChannelUsable(p, k);
    }
    hide ChannelUsable;
  }

  // ----- from any configuration to any other, one change at a time -----

  predicate Sound(p: seq<int>) { ParamsFit(p) && ParamsValid(p) }

  datatype Change = Change(field: nat, value: int)

  /** A change that setting the field would accept. */
  predicate Taken(p: seq<int>, c: Change)
    requires |p| == FIELD_COUNT
  {
    c.field < FIELD_COUNT && SpecOf(c.field).lo <= c.value <= SpecOf(c.field).hi &&
    ParamsValid(Assigned(p, c.field, c.value))
  }

  /** Every one of the changes is accepted, and they lead from one configuration to the other. */
  predicate Leads(p: seq<int>, changes: seq<Change>, q: seq<int>)
    requires |p| == FIELD_COUNT
    decreases |changes|
  {
    if changes == [] then p == q
    else Taken(p, changes[0]) && Leads(Assigned(p, changes[0].field, changes[0].value), changes[1..], q)
  }

  function Differ(p: seq<int>, q: seq<int>): set<nat>
    requires |p| == |q| == FIELD_COUNT
  {
    set i: nat | i < FIELD_COUNT && p[i] != q[i]
  }

  /** White and black of a channel are to change places. */
  predicate Swapped(p: seq<int>, q: seq<int>, k: nat)
    requires |p| == |q| == FIELD_COUNT && k < CHANNELS
  {
    q[41 + k] == p[49 + k] && q[49 + k] == p[41 + k] && p[41 + k] != p[49 + k]
  }

  function Swaps(p: seq<int>, q: seq<int>): set<nat>
    requires |p| == |q| == FIELD_COUNT
  {
    set k: nat | k < CHANNELS && Swapped(p, q, k)
  }

  /** A field that can be given its final value at once. */
  predicate Direct(p: seq<int>, q: seq<int>, j: nat)
    requires |p| == |q| == FIELD_COUNT
  {
    j < FIELD_COUNT && p[j] != q[j] && Accepts(p, j, q[j])
  }

  /** Of the fields ordered by the conditions of the drive, one that differs can be set at once. */
  lemma DriveDirect(p: seq<int>, q: seq<int>, i: nat)
    requires |p| == |q| == FIELD_COUNT && i < FIELD_COUNT && p[i] != q[i] && i !in {2, 67}
    requires DriveCoherent(p) && DriveCoherent(q)
    ensures exists j :: 0 <= j < FIELD_COUNT && p[j] != q[j] && j !in {2, 67} && DriveAccepts(p, j, q[j]) &&
                        (j == i || j in {4, 10, 11, 28, 29, 71, 74, 85, 86, 87, 88})
  {
    var can := (j: int) => 0 <= j < FIELD_COUNT && p[j] != q[j] && j !in {2, 67} && DriveAccepts(p, j, q[j]);
    assert can(i) || (i == 4 && (can(87) || can(88) || can(71) || can(74))) || (i == 88 && (can(87) || can(4))) ||
           (i == 71 && (can(74) || can(4))) || (i == 87 && (can(88) || can(4))) || (i == 74 && (can(71) || can(4))) ||
           (i == 10 && can(11)) || (i == 11 && can(10)) || (i == 28 && can(29)) || (i == 29 && can(28)) ||
           (i == 85 && can(86)) || (i == 86 && can(85));
  }

  /** The same of the supply and of the sensors, but for the grey channels. */
  lemma SensorDirect(p: seq<int>, q: seq<int>, i: nat)
    requires |p| == |q| == FIELD_COUNT && i < FIELD_COUNT && p[i] != q[i] && !(41 <= i < 57)
    requires SensorCoherent(p) && SensorCoherent(q) && Unsigned(p) && Unsigned(q)
    ensures exists j :: 0 <= j < FIELD_COUNT && p[j] != q[j] && SensorAccepts(p, j, q[j]) &&
                        (j == i || j in {32, 33, 34, 35, 57, 58, 65, 66, 109, 110, 111})
  {
    BandMeans(p[57], p[58], 999);
    BandMeans(q[57], q[58], 999);
    BandMeans(p[110], p[111], 4095);
    BandMeans(q[110], q[111], 4095);
    hide BandFits, ChannelUsable;
    var can := (j: int) => 0 <= j < FIELD_COUNT && p[j] != q[j] && SensorAccepts(p, j, q[j]);
    assert can(i) || (i == 32 && can(33)) || (i == 33 && can(32)) || (i == 34 && can(35)) || (i == 35 && can(34)) ||
           (i == 57 && can(58)) || (i == 58 && can(57)) || (i == 65 && can(66)) || (i == 66 && can(65)) ||
           (i == 109 && (can(110) || can(111))) || (i == 110 && (can(109) || can(111))) ||
           (i == 111 && (can(109) || can(110)));
  }

  lemma ChannelDirect(p: seq<int>, q: seq<int>, k: nat)
    requires |p| == |q| == FIELD_COUNT && k < CHANNELS && (p[41 + k] != q[41 + k] || p[49 + k] != q[49 + k])
    requires ChannelUsable(p, k) && ChannelUsable(q, k)
    ensures Direct(p, q, 41 + k) || Direct(p, q, 49 + k) || Swapped(p, q, k)
  {
  }

  predicate CanProceed(p: seq<int>, q: seq<int>)
    requires |p| == |q| == FIELD_COUNT
  {
    (exists j :: 0 <= j < FIELD_COUNT && j != 2 && Direct(p, q, j)) ||
    (exists k :: 0 <= k < CHANNELS && Swapped(p, q, k))
  }

  lemma DriveProceeds(p: seq<int>, q: seq<int>, i: nat)
    requires |p| == |q| == FIELD_COUNT && i in {4, 10, 11, 28, 29, 71, 74, 85, 86, 87, 88} && p[i] != q[i]
    requires DriveCoherent(p) && DriveCoherent(q)
    ensures CanProceed(p, q)
  {
    DriveDirect(p, q, i);
    var j :| 0 <= j < FIELD_COUNT && p[j] != q[j] && j !in {2, 67} && DriveAccepts(p, j, q[j]) &&
             (j == i || j in {4, 10, 11, 28, 29, 71, 74, 85, 86, 87, 88});
    hide DriveAccepts, DriveCoherent;
    assert Direct(p, q, j);
  }

  lemma SensorProceeds(p: seq<int>, q: seq<int>, i: nat)
    requires |p| == |q| == FIELD_COUNT && i < FIELD_COUNT && p[i] != q[i]
    requires !(41 <= i < 57) && i !in {2, 4, 10, 11, 28, 29, 67, 71, 74, 85, 86, 87, 88}
    requires SensorCoherent(p) && SensorCoherent(q) && Unsigned(p) && Unsigned(q)
    ensures CanProceed(p, q)
  {
    SensorDirect(p, q, i);
    var j :| 0 <= j < FIELD_COUNT && p[j] != q[j] && SensorAccepts(p, j, q[j]) &&
             (j == i || j in {32, 33, 34, 35, 57, 58, 65, 66, 109, 110, 111});
    hide SensorAccepts, SensorCoherent;
    assert DriveAccepts(p, j, q[j]);
    assert Direct(p, q, j);
  }

  lemma ChannelProceeds(p: seq<int>, q: seq<int>, k: nat)
    requires |p| == |q| == FIELD_COUNT && k < CHANNELS && (p[41 + k] != q[41 + k] || p[49 + k] != q[49 + k])
    requires ChannelUsable(p, k) && ChannelUsable(q, k)
    ensures CanProceed(p, q)
  {
    ChannelDirect(p, q, k);
    hide Direct, Swapped;
  }

  /** Unless the two agree, some field can be set at once, or a channel waits to have its readings swapped. */
  lemma SomethingToDo(p: seq<int>, q: seq<int>)
    requires |p| == |q| == FIELD_COUNT && p != q
    requires Coherent(p) && Coherent(q) && Unsigned(p) && Unsigned(q)
    ensures CanProceed(p, q)
  {
    hide Unsigned, CanProceed, DriveCoherent;
    var i: nat :| i < FIELD_COUNT && p[i] != q[i];
    if i in {2, 67} {
      RadiusDirect(p, q, i);
    } else if 41 <= i < 57 {
      var k := if i < 49 then i - 41 else i - 49;
      assert ChannelUsable(p, k) && ChannelUsable(q, k);
      ChannelProceeds(p, q, k);
    } else if i in {4, 10, 11, 28, 29, 71, 74, 85, 86, 87, 88} {
      DriveProceeds(p, q, i);
    } else {
      SensorProceeds(p, q, i);
    }
  }

  lemma RadiusDirect(p: seq<int>, q: seq<int>, i: nat)
    requires |p| == |q| == FIELD_COUNT && i in {2, 67} && p[i] != q[i] && DriveCoherent(p) && DriveCoherent(q)
    ensures CanProceed(p, q)
  {
    assert Direct(p, q, 67);
  }

  lemma SoundParts(p: seq<int>)
    requires Sound(p)
    ensures |p| == FIELD_COUNT && Coherent(p) && Unsigned(p)
  {
    FitsUnsigned(p);
  }

  /** A value a valid configuration holds is in its range, also before it is read as a signed number. */
  lemma HeldInRange(p: seq<int>, i: nat, spec: Spec)
    requires Sound(p) && i < FIELD_COUNT && spec == SpecOf(i)
    ensures spec.lo <= p[i] <= spec.hi
  {
    hide SpecOf, Coherent, KindOf;
    assert InRange(i, p[i]) && RangeFits(KindOf(i), spec);
    assert Stretch(0, |p|)[i] == KindOf(i);
    assert Fits(KindOf(i), p[i]);
    assert spec.lo <= ToInt32(p[i]) <= spec.hi;
  }

  /** Giving one field its final value. */
  lemma OneChange(p: seq<int>, q: seq<int>, j: nat, v: int, p': seq<int>)
    requires Sound(p) && Sound(q) && j < FIELD_COUNT && j != 2 && Accepts(p, j, v)
    requires SpecOf(j).lo <= v <= SpecOf(j).hi && p' == Assigned(p, j, v)
    ensures Taken(p, Change(j, v)) && Sound(p')
    ensures forall i :: 0 <= i < FIELD_COUNT && i != j && (j == 67 ==> i != 2) ==> p'[i] == p[i]
    ensures p'[j] == v && (j == 67 ==> p'[2] == v / 1000)
  {
    hide ParamsFit, ParamsValid, SpecOf, Accepts, Coherent;
    SoundParts(p);
    SetAccepts(p, j, v);
  }

  lemma DirectChange(p: seq<int>, q: seq<int>, j: nat)
    requires Sound(p) && Sound(q) && j != 2 && Direct(p, q, j)
    ensures var p' := Assigned(p, j, q[j]);
            Taken(p, Change(j, q[j])) && Sound(p') && Differ(p', q) < Differ(p, q) && Swaps(p', q) <= Swaps(p, q)
  {
    hide SpecOf, Accepts, ParamsFit;
    SoundParts(q);
    HeldInRange(q, j, SpecOf(j));
    var p' := Assigned(p, j, q[j]);
    OneChange(p, q, j, q[j], p');
    hide Taken, Sound;
    assert j in Differ(p, q) && j !in Differ(p', q);
  }

  /** A channel whose readings change places takes one value more. */
  lemma MakeRoom(p: seq<int>, q: seq<int>, k: nat) returns (v: int)
    requires Sound(p) && Sound(q) && k < CHANNELS && Swapped(p, q, k)
    ensures var p' := Assigned(p, 41 + k, v);
            Taken(p, Change(41 + k, v)) && Sound(p') && Differ(p', q) <= Differ(p, q) && Swaps(p', q) < Swaps(p, q)
  {
    hide SpecOf, ParamsFit, Coherent;
    ChannelRange(k, SpecOf(41 + k));
    v :| v in {0, 1, 2} && v != p[41 + k] && v != p[49 + k];
    var p' := Assigned(p, 41 + k, v);
    OneChange(p, q, 41 + k, v, p');
    hide Taken, Sound;
    assert k in Swaps(p, q) && k !in Swaps(p', q);
  }

  lemma ChannelRange(k: nat, spec: Spec)
    requires k < CHANNELS && spec == SpecOf(41 + k)
    ensures spec.lo == 0 && spec.hi == 4095
  {
    assert k in {0, 1, 2, 3, 4, 5, 6, 7};
  }

  /** From any valid configuration any other is reached by setting one field at a time, every time with success. */
  lemma {:induction false} EveryConfigurationIsReachable(p: seq<int>, q: seq<int>) returns (changes: seq<Change>)
    requires Sound(p) && Sound(q)
    ensures Leads(p, changes, q) && |changes| <= |Differ(p, q)| + |Swaps(p, q)|
    decreases |Differ(p, q)| + |Swaps(p, q)|
  {
    hide Differ, Swaps, Taken, Sound, ParamsFit, ParamsValid, Direct, Swapped, Assigned;
    SoundParts(p);
    SoundParts(q);
    if p == q { return []; }
    SomethingToDo(p, q);
    var c: Change;
    if j: nat :| j < FIELD_COUNT && j != 2 && Direct(p, q, j) {
      DirectChange(p, q, j);
      c := Change(j, q[j]);
    } else {
      var k: nat :| k < CHANNELS && Swapped(p, q, k);
      var v := MakeRoom(p, q, k);
      c := Change(41 + k, v);
    }
    var p' := Assigned(p, c.field, c.value);
    Fewer(Differ(p', q), Differ(p, q));
    Fewer(Swaps(p', q), Swaps(p, q));
    var rest := EveryConfigurationIsReachable(p', q);
    changes := [c] + rest;
    assert changes[1..] == rest;
  }

  lemma Fewer(a: set<nat>, b: set<nat>)
    requires a <= b
    ensures |a| <= |b| && (a != b ==> |a| < |b|)
  {
    assert b == a + (b - a);
  }

  // ----- migration -----

  /** An image of version 10 or before that still tracks with the four inner channels tracks with the six inner ones
      once loaded; any other choice of channels, and any later one, is kept, and so is every other field. */
  lemma MaskMigrates(version: int, p: seq<int>, i: nat)
    requires |p| == FIELD_COUNT && i < FIELD_COUNT
    ensures var q := WithCurrentMask(version, p);
            (i != 61 || version >= 11 || p[61] != 0x3C ==> q[i] == p[i]) &&
            (version <= 10 && p[61] == 0x3C ==> q[61] == 0x7E)
  {
  }
}
