/** The table of configuration fields: kinds in stored order and version by version, ranges, defaults,
    and the conditions between fields. */
module ConfigTable {
  import opened Arith
  import opened ConfigCodec

  const MAIN_COUNT: nat := 107
  const FIELD_COUNT: nat := 116
  const CHANNELS: nat := 8

  // Positions of the fields that take part in conditions between fields.
  const WHEEL_RADIUS_MM: nat := 2
  const MAX_WHEEL_RPM: nat := 4
  const SPEED_MAX_DUTY: nat := 10
  const SPEED_MIN_DUTY: nat := 11
  const HEADING_TURN_MAX_RPM: nat := 28
  const HEADING_TURN_MIN_RPM: nat := 29
  const INA219_UNDERVOLTAGE_TRIP_MV: nat := 32
  const INA219_UNDERVOLTAGE_RELEASE_MV: nat := 33
  const INA219_OVERCURRENT_TRIP_MA: nat := 34
  const INA219_OVERCURRENT_RELEASE_MA: nat := 35
  const GRAYSCALE_WHITE: nat := 41
  const GRAYSCALE_BLACK: nat := 49
  const GRAYSCALE_THRESHOLD: nat := 57
  const GRAYSCALE_HYSTERESIS: nat := 58
  const GRAYSCALE_TRACK_MASK: nat := 61
  const LINEFOLLOW_LOST_HOLD_MS: nat := 65
  const LINEFOLLOW_LOST_STOP_MS: nat := 66
  const WHEEL_RADIUS_UM: nat := 67
  const DISTANCE_CREEP_RPM: nat := 71
  const DISTANCE_SETTLE_RPM: nat := 74
  const HEADING_LOCK_WAKE_MDEG: nat := 85
  const HEADING_LOCK_SETTLE_MDEG: nat := 86
  const HEADING_LOCK_MIN_RPM: nat := 87
  const HEADING_LOCK_MAX_RPM: nat := 88
  const INFRARED_POSITION_SPAN_RAW: nat := 109
  const INFRARED_ADC_THRESHOLD: nat := 110
  const INFRARED_ADC_HYSTERESIS: nat := 111

  // ----- kinds, version by version -----

  function KindOf(i: nat): Kind {
    if i < 4 then U32
    else if i < 5 then U16
    else if i < 15 then U8
    else if i < 17 then U16
    else if i < 31 then I32
    else if i < 36 then U16
    else if i < 41 then U8
    else if i < 61 then U16
    else if i < 62 then U8
    else if i < 64 then I32
    else if i < 67 then U16
    else if i < 68 then U32
    else if i < 69 then U8
    else if i < 83 then U16
    else if i < 85 then I32
    else if i < 107 then U16
    else if i < 109 then U8
    else if i < 112 then U16
    else if i < 114 then I32
    else U16
  }

  /** The kinds of `count` fields from position `from` on. */
  function Stretch(from: nat, count: nat): (kinds: seq<Kind>)
    ensures |kinds| == count
  {
    seq(count, i requires 0 <= i < count => KindOf(from + i))
  }

  /** Where field `n` starts. */
  function Offset(n: nat): int {
    if n <= 4 then 4 * n
    else if n <= 5 then 16 + 2 * (n - 4)
    else if n <= 15 then 18 + n - 5
    else if n <= 17 then 28 + 2 * (n - 15)
    else if n <= 31 then 32 + 4 * (n - 17)
    else if n <= 36 then 88 + 2 * (n - 31)
    else if n <= 41 then 98 + n - 36
    else if n <= 61 then 103 + 2 * (n - 41)
    else if n <= 62 then 143 + n - 61
    else if n <= 64 then 144 + 4 * (n - 62)
    else if n <= 67 then 152 + 2 * (n - 64)
    else if n <= 68 then 158 + 4 * (n - 67)
    else if n <= 69 then 162 + n - 68
    else if n <= 83 then 163 + 2 * (n - 69)
    else if n <= 85 then 191 + 4 * (n - 83)
    else if n <= 107 then 199 + 2 * (n - 85)
    else if n <= 109 then 243 + n - 107
    else if n <= 112 then 245 + 2 * (n - 109)
    else if n <= 114 then 251 + 4 * (n - 112)
    else 259 + 2 * (n - 114)
  }

  /** Layouts in order of appearance: versions 7, 8, 9, 10 and 11, 12, 13, 14, 15, 17. */
  const LAST_LAYOUT: nat := 8

  function LayoutCount(layout: nat): (count: nat)
    ensures count <= MAIN_COUNT
  {
    match layout
    case 0 => 68
    case 1 => 76
    case 2 => 78
    case 3 => 79
    case 4 => 83
    case 5 => 93
    case 6 => 95
    case 7 => 97
    case _ => 107
  }

  /** The payload length by which a layout is recognised. */
  function LayoutLength(layout: nat): nat {
    match layout
    case 0 => 162
    case 1 => 177
    case 2 => 181
    case 3 => 183
    case 4 => 191
    case 5 => 215
    case 6 => 219
    case 7 => 223
    case _ => 243
  }

  lemma NextOffset(n: nat)
    requires n < FIELD_COUNT
    ensures Offset(n + 1) == Offset(n) + Size(KindOf(n))
  {
  }

  lemma {:induction false} StretchSize(from: nat, count: nat)
    requires from + count <= FIELD_COUNT
    ensures TotalSize(Stretch(from, count)) == Offset(from + count) - Offset(from)
    decreases count
  {
    if count > 0 {
      var last := KindOf(from + count - 1);
      StretchSize(from, count - 1);
      NextOffset(from + count - 1);
      assert Stretch(from, count) == Stretch(from, count - 1) + [last];
      SizeConcat(Stretch(from, count - 1), [last]);
      assert [last][1..] == [];
    }
  }

  /** Every layout ends exactly where a field ends: its payload length is the size of the fields it stores. */
  lemma LayoutSize(layout: nat, count: nat)
    requires layout <= LAST_LAYOUT && count == LayoutCount(layout)
    ensures TotalSize(Stretch(0, count)) == LayoutLength(layout)
  {
    StretchSize(0, count);
  }

  // ----- ranges and defaults -----

  datatype Spec = Spec(lo: int, hi: int, default: int)

  /** The default lies in the range, which 32 bits can hold. */
  predicate Proper(spec: Spec) {
    -0x8000_0000 <= spec.lo <= spec.default <= spec.hi < 0x8000_0000
  }

  /** The range fits the variable the field is kept in. */
  predicate RangeFits(kind: Kind, spec: Spec) {
    Fits(kind, spec.lo) && Fits(kind, spec.hi)
  }

  /** Range and default of each field, in stored order, eight to a row. */
  function Row(r: nat): (row: seq<Spec>)
    ensures |row| == (if r < 14 then 8 else 4) && forall k :: 0 <= k < |row| ==> Proper(row[k])
    ensures r < 15 ==> forall k :: 0 <= k < |row| ==> RangeFits(KindOf(8 * r + k), row[k])
  {
    if r < 8 then LowRow(r) else HighRow(r)
  }

  function LowRow(r: nat): (row: seq<Spec>)
    requires r < 8
    ensures |row| == 8 && forall k :: 0 <= k < |row| ==> Proper(row[k]) && RangeFits(KindOf(8 * r + k), row[k])
  {
    match r
    case 0 => [Spec(1, 100000000, 1456), Spec(1, 100000000, 1456), Spec(1, 1000, 33), Spec(1, 2000, 160),
               Spec(1, 1000, 1000), Spec(0, 3, 3), Spec(0, 3, 1), Spec(0, 255, 2)]
    case 1 => [Spec(0, 255, 2), Spec(0, 255, 0), Spec(0, 100, 60), Spec(0, 100, 4), Spec(0, 255, 15), Spec(0, 255, 0),
               Spec(0, 255, 0), Spec(0, 1000, 40)]
    case 2 => [Spec(0, 65535, 3), Spec(-180000000, 180000000, 0), Spec(-180000000, 180000000, 0),
               Spec(-180000000, 180000000, 0), Spec(-200000, 200000, 0), Spec(-200000, 200000, 0),
               Spec(-200000, 200000, 0), Spec(-2000000, 2000000, 0)]
    case 3 => [Spec(-2000000, 2000000, 0), Spec(-2000000, 2000000, 0), Spec(0, 100000, 1000), Spec(0, 500, 30),
               Spec(0, 1000, 60), Spec(0, 500, 20), Spec(0, 90000, 3000), Spec(0, 5000, 300)]
    case 4 => [Spec(1, 25999, 6000), Spec(2, 26000, 6500), Spec(1, 6500, 5000), Spec(0, 6499, 4500), Spec(1, 100, 3),
               Spec(1, 100, 5), Spec(1, 100, 3), Spec(0, 1, 0)]
    case 5 => [Spec(0, 1, 0), Spec(0, 4095, 3253), Spec(0, 4095, 3217), Spec(0, 4095, 3189), Spec(0, 4095, 3316),
               Spec(0, 4095, 3151), Spec(0, 4095, 3011), Spec(0, 4095, 2802)]
    case 6 => [Spec(0, 4095, 3188), Spec(0, 4095, 1010), Spec(0, 4095, 934), Spec(0, 4095, 737), Spec(0, 4095, 2010),
               Spec(0, 4095, 1548), Spec(0, 4095, 1347), Spec(0, 4095, 753)]
    case _ => [Spec(0, 4095, 1362), Spec(1, 999, 500), Spec(0, 998, 300), Spec(0, 999, 100), Spec(1, 8000, 600),
               Spec(1, 255, 126), Spec(0, 1000000, 3800), Spec(0, 1000000, 600)]
  }

  function HighRow(r: nat): (row: seq<Spec>)
    requires r >= 8
    ensures |row| == (if r < 14 then 8 else 4) && forall k :: 0 <= k < |row| ==> Proper(row[k])
    ensures r < 15 ==> forall k :: 0 <= k < |row| ==> RangeFits(KindOf(8 * r + k), row[k])
  {
    match r
    case 8 => [Spec(0, 500, 30), Spec(0, 10000, 150), Spec(1, 10000, 500), Spec(1000, 1000000, 33050), Spec(0, 1, 1),
               Spec(1, 5000, 600), Spec(1, 5000, 900), Spec(1, 500, 15)]
    case 9 => [Spec(0, 2000, 360), Spec(0, 1000, 5), Spec(0, 100, 3), Spec(1, 100, 3), Spec(0, 65535, 1500),
               Spec(0, 65535, 2000), Spec(1, 65535, 25000), Spec(0, 500, 60)]
    case 10 => [Spec(0, 30000, 500), Spec(0, 60000, 1500), Spec(0, 100, 3), Spec(0, 100000, 1500), Spec(0, 100000, 250),
                Spec(100, 30000, 2000), Spec(50, 29999, 800), Spec(0, 100, 10)]
    case 11 => [Spec(1, 200, 30), Spec(0, 60000, 1500), Spec(0, 100, 3), Spec(50, 5000, 250), Spec(500, 10000, 3000),
                Spec(0, 300, 0), Spec(1, 300, 30), Spec(1, 1000, 220)]
    case 12 => [Spec(0, 1000, 120), Spec(0, 10000, 4000), Spec(0, 2000, 400), Spec(0, 2000, 500), Spec(0, 20000, 2000),
                Spec(1, 250, 250), Spec(1, 10000, 2000), Spec(1, 100, 10)]
    case 13 => [Spec(1, 500, 80), Spec(50, 1000, 200), Spec(50, 500, 100), Spec(0, 1, 1), Spec(0, 1, 0),
                Spec(0, 32767, 0), Spec(0, 4095, 0), Spec(0, 1000, 0)]
    case _ => [Spec(0, 1000000, 3800), Spec(0, 1000000, 600), Spec(0, 500, 30), Spec(1, 65535, 25000)]
  }

  function SpecOf(i: nat): (spec: Spec)
    requires i < FIELD_COUNT
    ensures Proper(spec) && RangeFits(KindOf(i), spec)
  {
    assert i == 8 * (i / 8) + i % 8;
    Row(i / 8)[i % 8]
  }

  function Defaults(): (p: seq<int>)
    ensures |p| == FIELD_COUNT
  {
    seq(FIELD_COUNT, i requires 0 <= i < FIELD_COUNT => SpecOf(i).default)
  }

  /** The value, read as a signed 32-bit number, is within the field's range. */
  predicate InRange(i: nat, v: int)
    requires i < FIELD_COUNT
  {
    SpecOf(i).lo <= ToInt32(v) <= SpecOf(i).hi
  }

  /** A threshold with its hysteresis band stays strictly inside its scale. */
  predicate BandFits(threshold: int, hysteresis: int, top: int) {
    threshold > hysteresis / 2 && threshold + (hysteresis + 1) / 2 <= top
  }

  /** A grey channel whose white and black readings differ. */
  predicate ChannelUsable(p: seq<int>, i: nat)
    requires |p| == FIELD_COUNT && i < CHANNELS
  {
    p[GRAYSCALE_WHITE + i] != p[GRAYSCALE_BLACK + i]
  }

  /** Conditions between the fields of the drive. */
  predicate DriveCoherent(p: seq<int>)
    requires |p| == FIELD_COUNT
  {
    p[SPEED_MIN_DUTY] <= p[SPEED_MAX_DUTY] &&
    p[HEADING_TURN_MIN_RPM] <= p[HEADING_TURN_MAX_RPM] &&
    p[HEADING_LOCK_SETTLE_MDEG] < p[HEADING_LOCK_WAKE_MDEG] &&
    p[HEADING_LOCK_MIN_RPM] <= p[HEADING_LOCK_MAX_RPM] <= p[MAX_WHEEL_RPM] &&
    p[WHEEL_RADIUS_MM] == p[WHEEL_RADIUS_UM] / 1000 &&
    p[DISTANCE_SETTLE_RPM] <= p[DISTANCE_CREEP_RPM] <= p[MAX_WHEEL_RPM]
  }

  /** Conditions between the fields of the supply and of the sensors. */
  predicate SensorCoherent(p: seq<int>)
    requires |p| == FIELD_COUNT
  {
    p[INA219_UNDERVOLTAGE_RELEASE_MV] > p[INA219_UNDERVOLTAGE_TRIP_MV] &&
    p[INA219_OVERCURRENT_RELEASE_MA] < p[INA219_OVERCURRENT_TRIP_MA] &&
    (forall i :: 0 <= i < CHANNELS ==> ChannelUsable(p, i)) &&
    BandFits(p[GRAYSCALE_THRESHOLD], p[GRAYSCALE_HYSTERESIS], 999) &&
    p[LINEFOLLOW_LOST_STOP_MS] >= p[LINEFOLLOW_LOST_HOLD_MS] &&
    (p[INFRARED_ADC_THRESHOLD] != 0 ==>
      BandFits(p[INFRARED_ADC_THRESHOLD], p[INFRARED_ADC_HYSTERESIS], 4095) && p[INFRARED_POSITION_SPAN_RAW] != 0)
  }

  /** Conditions between fields. */
  predicate Coherent(p: seq<int>)
    requires |p| == FIELD_COUNT
  {
    DriveCoherent(p) && SensorCoherent(p)
  }

  predicate AllInRange(p: seq<int>)
    requires |p| == FIELD_COUNT
  {
    forall i :: 0 <= i < FIELD_COUNT ==> InRange(i, p[i])
  }

  predicate ParamsValid(p: seq<int>) {
    |p| == FIELD_COUNT && AllInRange(p) && Coherent(p)
  }

  /** Each value fits the variable it is kept in. */
  predicate ParamsFit(p: seq<int>) {
    |p| == FIELD_COUNT && AllFit(Stretch(0, |p|), p)
  }

  lemma DriveDefaults()
    ensures Defaults()[SPEED_MIN_DUTY] == 4 &&
            Defaults()[SPEED_MAX_DUTY] == 60 &&
            Defaults()[HEADING_TURN_MIN_RPM] == 20 &&
            Defaults()[HEADING_TURN_MAX_RPM] == 60 &&
            Defaults()[MAX_WHEEL_RPM] == 1000 &&
            Defaults()[WHEEL_RADIUS_MM] == 33 &&
            Defaults()[WHEEL_RADIUS_UM] == 33050
  {
  }

  lemma HeadingDefaults()
    ensures Defaults()[HEADING_LOCK_SETTLE_MDEG] == 800 &&
            Defaults()[HEADING_LOCK_WAKE_MDEG] == 2000 &&
            Defaults()[HEADING_LOCK_MIN_RPM] == 10 &&
            Defaults()[HEADING_LOCK_MAX_RPM] == 30 &&
            Defaults()[DISTANCE_SETTLE_RPM] == 3 &&
            Defaults()[DISTANCE_CREEP_RPM] == 15
  {
  }

  lemma SupplyDefaults()
    ensures Defaults()[INA219_UNDERVOLTAGE_RELEASE_MV] == 6500 &&
            Defaults()[INA219_UNDERVOLTAGE_TRIP_MV] == 6000 &&
            Defaults()[INA219_OVERCURRENT_RELEASE_MA] == 4500 &&
            Defaults()[INA219_OVERCURRENT_TRIP_MA] == 5000
  {
  }

  lemma LineDefaults()
    ensures Defaults()[GRAYSCALE_THRESHOLD] == 500 &&
            Defaults()[GRAYSCALE_HYSTERESIS] == 300 &&
            Defaults()[LINEFOLLOW_LOST_STOP_MS] == 500 &&
            Defaults()[LINEFOLLOW_LOST_HOLD_MS] == 150 &&
            Defaults()[INFRARED_ADC_THRESHOLD] == 0
  {
  }

  lemma ChannelDefaults(i: nat)
    requires i < CHANNELS
    ensures ChannelUsable(Defaults(), i)
  {
    assert Defaults()[GRAYSCALE_WHITE + i] == [3253, 3217, 3189, 3316, 3151, 3011, 2802, 3188][i];
    assert Defaults()[GRAYSCALE_BLACK + i] == [1010, 934, 737, 2010, 1548, 1347, 753, 1362][i];
  }

  /** The defaults are a valid configuration. */
  lemma DefaultsValid()
    ensures ParamsValid(Defaults())
  {
    forall i | 0 <= i < FIELD_COUNT ensures InRange(i, Defaults()[i]) {
      DefaultInRange(SpecOf(i), i);
    }
    DefaultsCoherent();
  }

  lemma DefaultInRange(spec: Spec, i: nat)
    requires i < FIELD_COUNT && spec == SpecOf(i)
    ensures InRange(i, spec.default)
  {
    ProperInRange(spec);
  }

  lemma ProperInRange(spec: Spec)
    requires Proper(spec)
    ensures spec.lo <= ToInt32(spec.default) <= spec.hi
  {
  }

  lemma DefaultsCoherent()
    ensures Coherent(Defaults())
  {
    DriveDefaults();
    HeadingDefaults();
    SupplyDefaults();
    LineDefaults();
    forall i | 0 <= i < CHANNELS ensures ChannelUsable(Defaults(), i) {
      ChannelDefaults(i);
    }
  }
}
