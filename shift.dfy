/** The shift classifier: an interval of wall-clock time is sampled once a
    minute and labelled with the band that receives the most samples. */
module Shift {

  /** The three fixed bands of the 24-hour clock; the source names them by
      the letters O, M and N. */
  datatype Band = Overday | Mid | Night

  /** Band order of the counters' dictionary, which decides ties. */
  const DictOrder: seq<Band> := [Overday, Mid, Night]

  /** The letter that is persisted for a band. */
  function Letter(b: Band): (s: string)
    ensures |s| == 1
  {
    match b
    case Overday => "O"
    case Mid => "M"
    case Night => "N"
  }

  /** Timestamps are whole seconds counted from local midnight of day 0; the
      hour of a timestamp is its wall-clock hour. */
  function HourOf(t: nat): (h: nat)
    ensures h < 24
  {
    (t / 3600) % 24
  }

  function BandOfHour(h: nat): Band {
    if 6 <= h < 14 then Overday
    else if 14 <= h < 22 then Mid
    else Night
  }

  function BandAt(t: nat): Band {
    BandOfHour(HourOf(t))
  }

  /** One counter per band. */
  datatype Counts = Counts(o: nat, m: nat, n: nat)

  function Count(c: Counts, b: Band): nat {
    match b
    case Overday => c.o
    case Mid => c.m
    case Night => c.n
  }

  function Unit(p: bool): nat {
    if p then 1 else 0
  }

  /** How many of the instants start, start + 60, ..., start + 60 (n - 1)
      lie in band b, each instant placed in the band that `band` gives it. */
  function CountIn(band: nat -> Band, b: Band, start: nat, n: nat): nat {
    if n == 0 then 0
    else CountIn(band, b, start, n - 1) + Unit(band(start + 60 * (n - 1)) == b)
  }

  /** The number of sample instants start + 60 k that fall before end. */
  function NumSamples(start: nat, end: nat): nat {
    if start >= end then 0 else (end - start + 59) / 60
  }

  /** Exactly the instants start + 60 k with start + 60 k < end are sampled. */
  lemma SampleInstants(start: nat, end: nat, k: nat)
    ensures start + 60 * k < end <==> k < NumSamples(start, end)
  {
  }

  /** The counters after sampling [start, end) once a minute, bands by
      wall-clock hour. */
  function Tally(start: nat, end: nat): Counts {
    var k := NumSamples(start, end);
    Counts(CountIn(BandAt, Overday, start, k), CountIn(BandAt, Mid, start, k),
           CountIn(BandAt, Night, start, k))
  }

  /** Python's max(counts, key=counts.get): scan the keys in order and replace
      the current best only by a strictly larger count, so the first maximal
      key wins.  The result is the position of the winner in `order`. */
  function FirstMax(order: seq<Band>, c: Counts): (i: nat)
    requires |order| > 0
    ensures i < |order|
    ensures forall j :: 0 <= j < |order| ==> Count(c, order[j]) <= Count(c, order[i])
    ensures forall j :: 0 <= j < i ==> Count(c, order[j]) < Count(c, order[i])
  {
    if |order| == 1 then 0
    else
      var best := FirstMax(order[..|order| - 1], c);
      if Count(c, order[|order| - 1]) > Count(c, order[best]) then |order| - 1 else best
  }

  /** The band picked for given counters. */
  function Pick(c: Counts): Band {
    DictOrder[FirstMax(DictOrder, c)]
  }

  /** The label of an interval, as a function of its endpoints only. */
  function Classify(start: nat, end: nat): Band {
    Pick(Tally(start, end))
  }

  /** determine_shift: the while loop over the sample instants with three
      counters, followed by the first-max selection. */
  method DetermineShift(start: nat, end: nat) returns (b: Band)
    ensures b == Classify(start, end)
  {
    var o, m, n := 0, 0, 0;
    var cur := start;
    ghost var k: nat := 0;
    while cur < end
      invariant cur == start + 60 * k && k <= NumSamples(start, end)
      invariant o == CountIn(BandAt, Overday, start, k)
      invariant m == CountIn(BandAt, Mid, start, k)
      invariant n == CountIn(BandAt, Night, start, k)
      decreases end - cur
    {
      SampleInstants(start, end, k);
      var h := HourOf(cur);
      if 6 <= h < 14 {
        o := o + 1;
      } else if 14 <= h < 22 {
        m := m + 1;
      } else {
        n := n + 1;
      }
      cur := cur + 60;
      k := k + 1;
    }
    SampleInstants(start, end, k);
    b := Pick(Counts(o, m, n));
  }

  /** The label's counter is at least each other counter, and a band that
      comes earlier in O, M, N has a strictly smaller counter. */
  lemma ClassifyIsFirstMax(start: nat, end: nat)
    ensures var c, r := Tally(start, end), Classify(start, end);
      Count(c, r) >= c.o && Count(c, r) >= c.m && Count(c, r) >= c.n &&
      (r == Mid ==> c.o < c.m) &&
      (r == Night ==> c.o < c.n && c.m < c.n) &&
      (c.o >= c.m && c.o >= c.n ==> r == Overday)
  {
    var c := Tally(start, end);
    var i := FirstMax(DictOrder, c);
    assert Count(c, DictOrder[0]) <= Count(c, DictOrder[i]);
    assert Count(c, DictOrder[1]) <= Count(c, DictOrder[i]);
    assert Count(c, DictOrder[2]) <= Count(c, DictOrder[i]);
    assert 0 < i ==> Count(c, DictOrder[0]) < Count(c, DictOrder[i]);
    assert 1 < i ==> Count(c, DictOrder[1]) < Count(c, DictOrder[i]);
  }

  /** Every sample lands in exactly one band: the counters add up to the
      number of samples. */
  lemma {:induction false} CountAll(band: nat -> Band, start: nat, n: nat)
    ensures CountIn(band, Overday, start, n) + CountIn(band, Mid, start, n) +
            CountIn(band, Night, start, n) == n
  {
    if n > 0 {
      CountAll(band, start, n - 1);
    }
  }

  lemma TallyTotal(start: nat, end: nat)
    ensures var c := Tally(start, end); c.o + c.m + c.n == NumSamples(start, end)
  {
    CountAll(BandAt, start, NumSamples(start, end));
  }

  /** Sampling a + b instants is sampling the first a and then the b after
      them. */
  lemma {:induction false} CountSplit(band: nat -> Band, x: Band, start: nat, a: nat, b: nat)
    ensures CountIn(band, x, start, a + b) ==
            CountIn(band, x, start, a) + CountIn(band, x, start + 60 * a, b)
  {
    if b > 0 {
      CountSplit(band, x, start, a, b - 1);
      assert start + 60 * (a + b - 1) == (start + 60 * a) + 60 * (b - 1);
    }
  }

  /** Every one of the first n instants lies in band x: all n samples count
      for x, none for any other band. */
  lemma {:induction false} CountUniform(band: nat -> Band, x: Band, y: Band, start: nat, n: nat)
    requires forall k :: 0 <= k < n ==> band(start + 60 * k) == x
    ensures CountIn(band, y, start, n) == if y == x then n else 0
  {
    if n > 0 {
      assert band(start + 60 * (n - 1)) == x;
      CountUniform(band, x, y, start, n - 1);
    }
  }

  /** Every sample instant of [start, end) lies in band b. */
  ghost predicate AllSamplesIn(start: nat, end: nat, b: Band) {
    forall k :: 0 <= k < NumSamples(start, end) ==> BandAt(start + 60 * k) == b
  }

  function Only(b: Band, k: nat): (c: Counts)
    ensures Count(c, b) == k && c.o + c.m + c.n == k
  {
    match b
    case Overday => Counts(k, 0, 0)
    case Mid => Counts(0, k, 0)
    case Night => Counts(0, 0, k)
  }

  lemma TallyUniform(start: nat, end: nat, b: Band)
    requires AllSamplesIn(start, end, b)
    ensures Tally(start, end) == Only(b, NumSamples(start, end))
  {
    var n := NumSamples(start, end);
    CountUniform(BandAt, b, Overday, start, n);
    CountUniform(BandAt, b, Mid, start, n);
    CountUniform(BandAt, b, Night, start, n);
  }

  /** A non-empty interval whose every sample lies in one band gets that band. */
  lemma UniformInterval(start: nat, end: nat, b: Band)
    requires start < end
    requires AllSamplesIn(start, end, b)
    ensures Classify(start, end) == b
  {
    TallyUniform(start, end, b);
    ClassifyIsFirstMax(start, end);
  }

  /** An empty or inverted interval has no samples and gets Overday. */
  lemma EmptyInterval(start: nat, end: nat)
    requires start >= end
    ensures Classify(start, end) == Overday
  {
    ClassifyIsFirstMax(start, end);
  }

  /** Divisions by 3600 and by 24 whose quotient and remainder are known. */
  lemma DivMod3600(t: int, q: int, r: int)
    requires 0 <= r < 3600 && t == 3600 * q + r
    ensures t / 3600 == q
  {
  }

  lemma DivMod24(t: int, q: int, r: int)
    requires 0 <= r < 24 && t == 24 * q + r
    ensures t % 24 == r
  {
  }

  /** The hour of second s (s < 86400) of day number day. */
  lemma HourOfDay(day: nat, s: nat)
    requires s < 86400
    ensures HourOf(day * 86400 + s) == s / 3600
  {
    var t := day * 86400 + s;
    assert s / 3600 < 24;
    DivMod3600(t, day * 24 + s / 3600, s % 3600);
    DivMod24(day * 24 + s / 3600, day, s / 3600);
  }

  /** The thirty samples from second s of a day lie in the wall-clock hour h
      when [s, s + 1800) lies inside it, so they all count for h's band. */
  lemma HalfHour(start: nat, day: nat, s: nat, h: nat, x: Band, y: Band)
    requires start == day * 86400 + s
    requires h < 24 && 3600 * h <= s && s + 1800 <= 3600 * (h + 1)
    requires BandOfHour(h) == x
    ensures CountIn(BandAt, y, start, 30) == if y == x then 30 else 0
  {
    forall k | 0 <= k < 30 ensures BandAt(start + 60 * k) == x {
      HourOfDay(day, s + 60 * k);
      DivMod3600(s + 60 * k, h, s + 60 * k - 3600 * h);
    }
    CountUniform(BandAt, x, y, start, 30);
  }

  /** The hour from 05:30 is its first half-hour and then the second. */
  lemma HalfPastFiveCounts(day: nat, x: Band)
    ensures CountIn(BandAt, x, day * 86400 + 19800, 60) == if x == Mid then 0 else 30
  {
    var start := day * 86400 + 19800;
    var mid := start + 60 * 30;
    CountSplit(BandAt, x, start, 30, 30);
    HalfHour(start, day, 19800, 5, Night, x);
    HalfHour(mid, day, 21600, 6, Overday, x);
  }

  /** 05:30 to 06:30 on any day: thirty Night samples, thirty Overday
      samples, and the tie goes to Overday. */
  lemma HalfPastFiveToHalfPastSix(day: nat)
    ensures Tally(day * 86400 + 19800, day * 86400 + 23400) == Counts(30, 0, 30)
    ensures Classify(day * 86400 + 19800, day * 86400 + 23400) == Overday
  {
    var start, end := day * 86400 + 19800, day * 86400 + 23400;
    assert NumSamples(start, end) == 60;
    HalfPastFiveCounts(day, Overday);
    HalfPastFiveCounts(day, Mid);
    HalfPastFiveCounts(day, Night);
    assert Tally(start, end) == Counts(30, 0, 30);
    ClassifyIsFirstMax(start, end);
  }
}
