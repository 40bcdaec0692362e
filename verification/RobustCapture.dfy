/** Calibration captures of one sensor channel: in-place insertion sort, trimmed mean and spread, and the
    test that tells a white capture from a black one. */
module RobustCapture {
  import opened Arith
  import opened DivLemmas

  const MAXIMUM_CAPTURE_FRAMES: nat := 128
  const MINIMUM_SPAN: nat := 400
  const NOISE_MULTIPLIER: nat := 8

  // ----- sorting -----

  /** Inserts a value into an ordered sequence, after everything not greater. */
  function Insert(s: seq<Word16>, v: Word16): (t: seq<Word16>)
    ensures |t| == |s| + 1
  {
    if s == [] || s[|s| - 1] <= v then s + [v] else Insert(s[..|s| - 1], v) + [s[|s| - 1]]
  }

  function Sorted(s: seq<Word16>): (t: seq<Word16>)
    ensures |t| == |s|
  {
    if s == [] then [] else Insert(Sorted(s[..|s| - 1]), s[|s| - 1])
  }

  predicate Ordered(s: seq<Word16>) {
    forall i, j :: 0 <= i < j < |s| ==> s[i] <= s[j]
  }

  lemma {:induction false} InsertKeepsMembers(s: seq<Word16>, v: Word16)
    ensures multiset(Insert(s, v)) == multiset(s) + multiset{v}
  {
    if s != [] && s[|s| - 1] > v {
      InsertKeepsMembers(s[..|s| - 1], v);
      assert s == s[..|s| - 1] + [s[|s| - 1]];
    }
  }

  lemma {:induction false} InsertKeepsOrder(s: seq<Word16>, v: Word16)
    requires Ordered(s)
    ensures Ordered(Insert(s, v))
    ensures forall w :: w in Insert(s, v) ==> w in s || w == v
  {
    if s != [] && s[|s| - 1] > v {
      var init, last := s[..|s| - 1], s[|s| - 1];
      InsertKeepsOrder(init, v);
      var t := Insert(init, v);
      forall i | 0 <= i < |t| ensures t[i] <= last {
        assert t[i] in t;
      }
    }
  }

  /** Sorting keeps every sample and puts them in order. */
  lemma {:induction false} SortedIsOrderedPermutation(s: seq<Word16>)
    ensures Ordered(Sorted(s)) && multiset(Sorted(s)) == multiset(s)
  {
    if s != [] {
      var init, last := s[..|s| - 1], s[|s| - 1];
      SortedIsOrderedPermutation(init);
      InsertKeepsOrder(Sorted(init), last);
      InsertKeepsMembers(Sorted(init), last);
      assert s == init + [last];
    }
  }

  lemma Dropped(before: seq<Word16>, after: seq<Word16>, s: seq<Word16>, k: nat, i: nat)
    requires k <= i < |before| == |after| && |s| == i && after == before[k := after[k]]
    requires before[..k] == s[..k] && before[k + 1..i + 1] == s[k..]
    ensures after[..i + 1] == s[..k] + [after[k]] + s[k..] && after[i + 1..] == before[i + 1..]
  {
    assert after[..i + 1] == after[..k] + [after[k]] + after[k + 1..i + 1];
    assert after[..k] == before[..k] && after[k + 1..i + 1] == before[k + 1..i + 1];
  }

  lemma {:induction false} InsertAt(s: seq<Word16>, v: Word16, k: nat)
    requires k <= |s| && (k > 0 ==> s[k - 1] <= v) && forall i :: k <= i < |s| ==> s[i] > v
    ensures Insert(s, v) == s[..k] + [v] + s[k..]
    decreases |s|
  {
    if k < |s| {
      InsertAt(s[..|s| - 1], v, k);
      assert s[..|s| - 1][k..] + [s[|s| - 1]] == s[k..];
    } else {
      assert s[..k] == s && s[k..] == [];
    }
  }

  lemma SortedNext(s: seq<Word16>, i: nat)
    requires i < |s|
    ensures Sorted(s[..i + 1]) == Insert(Sorted(s[..i]), s[i])
  {
    assert s[..i + 1][..i] == s[..i];
  }

  /** Sorts the first `count` samples in place. */
  method SortCaptureSamples(samples: array<Word16>, count: nat)
    requires count <= samples.Length
    modifies samples
    ensures samples[..count] == Sorted(old(samples[..count]))
    ensures samples[count..] == old(samples[count..])
  {
    hide Sorted, Insert;
    ghost var was := samples[..];
    SortedOfFew(was[..Min(1, count)]);
    for i := 1 to Max(count, 1)
      invariant samples[..Min(i, count)] == Sorted(was[..Min(i, count)])
      invariant samples[Min(i, count)..] == was[Min(i, count)..]
    {
      InsertSample(samples, i);
      SortedNext(was, i);
      assert samples[..i + 1] == Insert(Sorted(was[..i]), was[i]);
      assert samples[i + 1..] == was[i..][1..];
    }
    assert was[..count] == old(samples[..count]) && was[count..] == old(samples[count..]);
  }

  lemma SortedOfFew(s: seq<Word16>)
    requires |s| <= 1
    ensures Sorted(s) == s
  {
    if |s| == 1 { assert s[..0] == [] && [] + [s[0]] == s; }
  }

  /** Moves sample `i` down to its place among the ordered ones before it. */
  method InsertSample(samples: array<Word16>, i: nat)
    requires i < samples.Length
    modifies samples
    ensures samples[..i + 1] == Insert(old(samples[..i]), old(samples[i]))
    ensures samples[i + 1..] == old(samples[i + 1..])
  {
    hide Insert;
    ghost var s := samples[..i];
    var value, insert := samples[i], i;
    while insert > 0 && samples[insert - 1] > value
      invariant insert <= i
      invariant samples[..insert] == s[..insert]
      invariant samples[insert + 1..i + 1] == s[insert..]
      invariant forall k :: insert <= k < i ==> s[k] > value
      invariant samples[i + 1..] == old(samples[i + 1..])
    {
      ghost var before := samples[..];
      samples[insert] := samples[insert - 1];
      insert := insert - 1;
      Shifted(before, samples[..], s, insert, i);
    }
    InsertAt(s, value, insert);
    ghost var before := samples[..];
    samples[insert] := value;
    Dropped(before, samples[..], s, insert, i);
  }

  lemma Shifted(before: seq<Word16>, after: seq<Word16>, s: seq<Word16>, k: nat, i: nat)
    requires k < i < |before| == |after| && |s| == i && after == before[k + 1 := before[k]]
    requires before[..k + 1] == s[..k + 1] && before[k + 2..i + 1] == s[k + 1..]
    ensures after[..k] == s[..k] && after[k + 1..i + 1] == s[k..] && after[i + 1..] == before[i + 1..]
  {
    assert before[..k + 1][k] == s[k];
    assert after[k + 1..i + 1] == [before[k]] + before[k + 2..i + 1];
    assert s[k..] == [s[k]] + s[k + 1..];
    assert after[..k] == before[..k + 1][..k];
  }

  // ----- trimmed mean and spread -----

  /** How many samples each end gives up. */
  function Trim(count: nat): (trim: nat)
    ensures count > 0 ==> 2 * trim < count
  {
    if count >= 8 then count / 8 else 0
  }

  function Sum(s: seq<Word16>): nat {
    if s == [] then 0 else Sum(s[..|s| - 1]) + s[|s| - 1]
  }

  function Middle(s: seq<Word16>, trim: nat): seq<Word16>
    requires 2 * trim <= |s|
  {
    s[trim..|s| - trim]
  }

  /** The samples that remain after sorting and trimming. */
  function Retained(s: seq<Word16>): (r: seq<Word16>)
    requires |s| > 0
    ensures |r| == |s| - 2 * Trim(|s|) > 0 && Ordered(r)
  {
    SortedIsOrderedPermutation(s);
    Middle(Sorted(s), Trim(|s|))
  }

  /** Mean, rounded down, and spread of ordered samples. */
  function Level(r: seq<Word16>): Word16
    requires |r| > 0
  {
    MeanBetween(r, 0, 0xFFFF);
    Sum(r) / |r|
  }

  function Spread(r: seq<Word16>): Word16
    requires |r| > 0 && Ordered(r)
  {
    r[|r| - 1] - r[0]
  }

  lemma {:induction false} SumBetween(s: seq<Word16>, lo: nat, hi: nat)
    requires forall i :: 0 <= i < |s| ==> lo <= s[i] <= hi
    ensures |s| * lo <= Sum(s) <= |s| * hi
  {
    if s != [] {
      SumBetween(s[..|s| - 1], lo, hi);
      assert |s| * lo == (|s| - 1) * lo + lo && |s| * hi == (|s| - 1) * hi + hi;
    }
  }

  lemma MeanBetween(s: seq<Word16>, lo: nat, hi: nat)
    requires |s| > 0 && forall i :: 0 <= i < |s| ==> lo <= s[i] <= hi
    ensures lo <= Sum(s) / |s| <= hi
  {
    hide Sum;
    SumBetween(s, lo, hi);
    DivAtLeast(Sum(s), |s|, lo);
    assert |s| * (hi + 1) == |s| * hi + |s|;
    DivBelow(Sum(s), |s|, hi + 1);
  }

  lemma MeanIsLevel(r: seq<Word16>, sum: nat, n: nat)
    requires |r| > 0 && sum == Sum(r) && n == |r|
    ensures sum / n == Level(r)
  {
  }

  lemma RetainedIsMiddle(s: seq<Word16>, first: nat, last: nat)
    requires |s| > 0 && first == Trim(|s|) && last == |s| - first
    ensures first < last && Retained(s) == Sorted(s)[first..last]
  {
  }

  /** One channel's capture: the mean of the retained samples and their spread. */
  method CalculateRobustCapture(samples: array<Word16>, count: nat) returns (level: Word16, noise: Word16)
    requires 0 < count <= samples.Length
    modifies samples
    ensures level == Level(Retained(old(samples[..count]))) && noise == Spread(Retained(old(samples[..count])))
    ensures samples[..count] == Sorted(old(samples[..count])) && samples[count..] == old(samples[count..])
  {
    hide Sorted, Sum, Level, Retained;
    ghost var r := Retained(samples[..count]);
    var trim := if count >= 8 then count / 8 else 0;
    var first, last := trim, count - trim;
    RetainedIsMiddle(samples[..count], first, last);
    SortCaptureSamples(samples, count);
    assert r == samples[..count][first..last] == samples[first..last];
    var sum := AddUp(samples, first, last);
    MeanIsLevel(r, sum, last - first);
    level := sum / (last - first);
    assert r[0] == samples[first] && r[|r| - 1] == samples[last - 1];
    assert Spread(r) == r[|r| - 1] - r[0];
    noise := samples[last - 1] - samples[first];
  }

  method AddUp(samples: array<Word16>, first: nat, last: nat) returns (sum: nat)
    requires first <= last <= samples.Length
    ensures sum == Sum(samples[first..last])
  {
    sum := 0;
    for sample := first to last
      invariant sum == Sum(samples[first..sample])
    {
      assert samples[first..sample + 1] == samples[first..sample] + [samples[sample]];
      sum := sum + samples[sample];
    }
  }

  // ----- robustness -----

  /** Samples below a bound, and above one. */
  function Below(s: seq<Word16>, bound: int): nat {
    if s == [] then 0 else Below(s[..|s| - 1], bound) + if s[|s| - 1] < bound then 1 else 0
  }

  function Above(s: seq<Word16>, bound: int): nat {
    if s == [] then 0 else Above(s[..|s| - 1], bound) + if s[|s| - 1] > bound then 1 else 0
  }

  lemma {:induction false} InsertCounts(s: seq<Word16>, v: Word16, bound: int)
    ensures Below(Insert(s, v), bound) == Below(s, bound) + if v < bound then 1 else 0
    ensures Above(Insert(s, v), bound) == Above(s, bound) + if v > bound then 1 else 0
  {
    var t := Insert(s, v);
    if s == [] || s[|s| - 1] <= v {
      assert t[..|t| - 1] == s;
    } else {
      InsertCounts(s[..|s| - 1], v, bound);
      assert t[..|t| - 1] == Insert(s[..|s| - 1], v);
    }
  }

  lemma {:induction false} SortedCounts(s: seq<Word16>, bound: int)
    ensures Below(Sorted(s), bound) == Below(s, bound) && Above(Sorted(s), bound) == Above(s, bound)
  {
    if s != [] {
      SortedCounts(s[..|s| - 1], bound);
      InsertCounts(Sorted(s[..|s| - 1]), s[|s| - 1], bound);
    }
  }

  /** In an ordered sequence an element below a bound has everything before it below too. */
  lemma {:induction false} RankBelow(s: seq<Word16>, k: nat, bound: int)
    requires Ordered(s) && k < |s| && s[k] < bound
    ensures Below(s, bound) >= k + 1
    decreases |s|
  {
    var init := s[..|s| - 1];
    if k < |s| - 1 {
      RankBelow(init, k, bound);
    } else if k > 0 {
      assert s[k - 1] <= s[k];
      RankBelow(init, k - 1, bound);
    }
  }

  lemma {:induction false} RankAbove(s: seq<Word16>, k: nat, bound: int)
    requires Ordered(s) && k < |s| && s[k] > bound
    ensures Above(s, bound) >= |s| - k
    decreases |s|
  {
    var last := |s| - 1;
    if k < last {
      assert s[k] <= s[last];
      RankAbove(s[..last], k, bound);
    }
  }

  /** Samples outside a range. */
  function Outside(s: seq<Word16>, lo: nat, hi: nat): nat {
    if s == [] then 0 else Outside(s[..|s| - 1], lo, hi) + if lo <= s[|s| - 1] <= hi then 0 else 1
  }

  lemma {:induction false} OutsideCounts(s: seq<Word16>, lo: nat, hi: nat)
    ensures Below(s, lo) <= Outside(s, lo, hi) && Above(s, hi) <= Outside(s, lo, hi)
  {
    if s != [] { OutsideCounts(s[..|s| - 1], lo, hi); }
  }

  lemma RetainedAt(t: seq<Word16>, lo: nat, hi: nat, trim: nat, k: nat)
    requires Ordered(t) && trim <= k < |t| - trim && Below(t, lo) <= trim && Above(t, hi) <= trim
    ensures lo <= t[k] <= hi
  {
    if t[k] < lo { RankBelow(t, k, lo); }
    if t[k] > hi { RankAbove(t, k, hi); }
  }

  predicate AllWithin(s: seq<Word16>, lo: nat, hi: nat) {
    forall i :: 0 <= i < |s| ==> lo <= s[i] <= hi
  }

  lemma MiddleInRange(t: seq<Word16>, lo: nat, hi: nat, trim: nat)
    requires Ordered(t) && 2 * trim <= |t| && Below(t, lo) <= trim && Above(t, hi) <= trim
    ensures AllWithin(Middle(t, trim), lo, hi)
  {
    forall k | trim <= k < |t| - trim ensures lo <= t[k] <= hi {
      RetainedAt(t, lo, hi, trim, k);
    }
  }

  lemma SortedTails(s: seq<Word16>, lo: nat, hi: nat)
    ensures Ordered(Sorted(s))
    ensures Below(Sorted(s), lo) <= Outside(s, lo, hi) && Above(Sorted(s), hi) <= Outside(s, lo, hi)
  {
    SortedIsOrderedPermutation(s);
    SortedCounts(s, lo);
    SortedCounts(s, hi);
    OutsideCounts(s, lo, hi);
  }

  lemma RetainedInRange(s: seq<Word16>, lo: nat, hi: nat)
    requires |s| > 0 && Outside(s, lo, hi) <= Trim(|s|)
    ensures AllWithin(Retained(s), lo, hi)
  {
    SortedTails(s, lo, hi);
    MiddleInRange(Sorted(s), lo, hi, Trim(|s|));
  }

  /** Robustness: as long as at most one sample in eight is corrupted, whatever the corrupted ones read, the level lies
      within the range of the good ones and the noise is at most their spread. */
  lemma CaptureIsRobust(s: seq<Word16>, lo: nat, hi: nat)
    requires |s| > 0 && lo <= hi && 8 * Outside(s, lo, hi) <= |s|
    ensures lo <= Level(Retained(s)) <= hi && Spread(Retained(s)) <= hi - lo
  {
    RetainedInRange(s, lo, hi);
    MeanBetween(Retained(s), lo, hi);
  }

  /** Good samples that all read `v`, and behind them `bad` samples at the top of the range. */
  function Spoilt(n: nat, v: Word16, bad: nat): (s: seq<Word16>)
    requires bad <= n
    ensures |s| == n
  {
    seq(n, i => if i < n - bad then v else 0xFFFF)
  }

  lemma InsertLargest(s: seq<Word16>, v: Word16)
    requires s == [] || s[|s| - 1] <= v
    ensures Insert(s, v) == s + [v]
  {
  }

  lemma {:induction false} OrderedIsSorted(s: seq<Word16>)
    requires Ordered(s)
    ensures Sorted(s) == s
  {
    if s != [] {
      var front, last := s[..|s| - 1], s[|s| - 1];
      OrderedIsSorted(front);
      assert front + [last] == s;
      InsertLargest(front, last);
    }
  }

  lemma {:induction false} SpoiltCounts(n: nat, v: Word16, bad: nat, s: seq<Word16>)
    requires bad <= n && s == Spoilt(n, v, bad) && v < 0xFFFF
    ensures Outside(s, v, v) == bad && Sum(s) == v * (n - bad) + 0xFFFF * bad
    decreases n
  {
    if n > 0 {
      var last := if bad == 0 then 0 else bad - 1;
      assert s[..n - 1] == Spoilt(n - 1, v, last);
      SpoiltCounts(n - 1, v, last, s[..n - 1]);
      assert bad == 0 ==> v * n == v * (n - 1) + v;
    }
  }

  lemma MeanAbove(v: nat, m: nat, top: nat)
    requires m > 0 && top >= v + m
    ensures (v * (m - 1) + top) / m > v
  {
    assert v * (m - 1) + top == (v + 1) * m + (top - v - m);
    DivAtLeast(v * (m - 1) + top, m, v + 1);
  }

  /** One corrupted sample more than each end gives up is retained. */
  lemma SpoiltRetains(n: nat, v: Word16, trim: nat, s: seq<Word16>)
    requires n > 0 && trim == Trim(n) && trim + 1 <= n && s == Spoilt(n, v, trim + 1)
    ensures Retained(s) == Spoilt(n - 2 * trim, v, 1)
  {
    hide Sorted;
    OrderedIsSorted(s);
  }

  lemma TrimIsAnEighth(n: nat)
    ensures Trim(n) == n / 8
  {
  }

  /** The tolerance is tight at every count of samples the firmware takes and for every good reading with some
      room above it: one corrupted sample more, and the level leaves the range of the good ones. */
  lemma ToleranceIsTight(n: nat, v: Word16)
    requires 0 < n <= MAXIMUM_CAPTURE_FRAMES && v + MAXIMUM_CAPTURE_FRAMES <= 0xFFFF
    ensures n / 8 + 1 <= n
    ensures var s := Spoilt(n, v, n / 8 + 1); Outside(s, v, v) == n / 8 + 1 && Level(Retained(s)) > v
  {
    hide Trim, Sorted, Sum, Outside, Retained, Spoilt;
    TrimIsAnEighth(n);
    var trim := Trim(n);
    var s, m := Spoilt(n, v, trim + 1), n - 2 * trim;
    SpoiltCounts(n, v, trim + 1, s);
    SpoiltRetains(n, v, trim, s);
    SpoiltCounts(m, v, 1, Retained(s));
    MeanAbove(v, m, 0xFFFF);
  }

  // ----- telling white from black -----

  function Difference(a: Word16, b: Word16): Word16 { if a >= b then a - b else b - a }

  /** The two levels differ enough, in themselves and compared with the noise. */
  predicate Separated(white: Word16, black: Word16, whiteNoise: Word16, blackNoise: Word16) {
    Difference(white, black) >= MINIMUM_SPAN &&
    Difference(white, black) >= Max(whiteNoise, blackNoise) * NOISE_MULTIPLIER
  }

  /** The channels of a calibration that fail the test. */
  method ValidatePointCalibration(white: seq<Word16>, black: seq<Word16>, whiteNoise: seq<Word16>,
                                  blackNoise: seq<Word16>)
    returns (faults: set<nat>)
    requires |white| == |black| == |whiteNoise| == |blackNoise|
    ensures forall i: nat :: i in faults <==>
            i < |white| && !Separated(white[i], black[i], whiteNoise[i], blackNoise[i])
  {
    faults := {};
    for i := 0 to |white|
      invariant forall k: nat :: k in faults <==> k < i && Difference(white[k], black[k]) < MINIMUM_SPAN
    {
      if Difference(white[i], black[i]) < MINIMUM_SPAN { faults := faults + {i}; }
    }
    for i := 0 to |white|
      invariant forall k: nat :: k in faults <==>
        k < |white| && (Difference(white[k], black[k]) < MINIMUM_SPAN ||
                        (k < i && !Separated(white[k], black[k], whiteNoise[k], blackNoise[k])))
    {
      var noise := if whiteNoise[i] > blackNoise[i] then whiteNoise[i] else blackNoise[i];
      if Difference(white[i], black[i]) < noise * NOISE_MULTIPLIER { faults := faults + {i}; }
    }
  }

  /** A channel that passes keeps every retained white sample at least 300 counts to the same side of every
      retained black one. */
  lemma AcceptedBandsAreApart(white: seq<Word16>, black: seq<Word16>, w: seq<Word16>, b: seq<Word16>)
    requires |white| > 0 && |black| > 0 && w == Retained(white) && b == Retained(black)
    requires Separated(Level(w), Level(b), Spread(w), Spread(b))
    ensures (forall i, j :: 0 <= i < |w| && 0 <= j < |b| ==> (w[i] as int) - b[j] >= 300) ||
            (forall i, j :: 0 <= i < |w| && 0 <= j < |b| ==> (b[j] as int) - w[i] >= 300)
  {
    hide Retained, Level, Sum, Sorted;
    LevelInside(w);
    LevelInside(b);
  }

  lemma LevelInside(r: seq<Word16>)
    requires |r| > 0 && Ordered(r)
    ensures r[0] <= Level(r) <= r[|r| - 1] && forall i :: 0 <= i < |r| ==> r[0] <= r[i] <= r[|r| - 1]
  {
    MeanBetween(r, r[0], r[|r| - 1]);
  }
}
