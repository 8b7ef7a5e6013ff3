/** Day numbers and ISO 8601 week dates:
    weeks start on Monday and week 1 of a year is the week that holds the
    year's first Thursday. */
module IsoCalendar {

  /** Day numbers count days of the proleptic Gregorian calendar from
      0001-01-01, which is day 0 and a Monday. A timestamp t (seconds from
      midnight of day 0) falls on day t / 86400. */
  function DayOf(t: nat): nat {
    t / 86400
  }

  /** 0 for Monday up to 6 for Sunday. */
  function Weekday(d: nat): (w: nat)
    ensures w < 7
  {
    d % 7
  }

  predicate IsLeap(y: int) {
    y % 4 == 0 && (y % 100 != 0 || y % 400 == 0)
  }

  /** The day number of 1 January of year y. */
  function DaysBeforeYear(y: int): (d: int)
    requires y >= 1
    ensures d >= 365 * (y - 1)
  {
    var p := y - 1;
    assert p / 4 >= p / 100;
    p * 365 + p / 4 - p / 100 + p / 400
  }

  /** Moving from p to p + 1 crosses a multiple of 4, 100 or 400 exactly
      when p + 1 is one. */
  lemma NextQuarter(p: nat)
    ensures (p + 1) / 4 == p / 4 + (if (p + 1) % 4 == 0 then 1 else 0)
  {
  }

  lemma NextCentury(p: nat)
    ensures (p + 1) / 100 == p / 100 + (if (p + 1) % 100 == 0 then 1 else 0)
  {
  }

  lemma NextQuadCentury(p: nat)
    ensures (p + 1) / 400 == p / 400 + (if (p + 1) % 400 == 0 then 1 else 0)
  {
  }

  /** A year has 366 days when it is a leap year and 365 otherwise. */
  lemma YearLength(y: int)
    requires y >= 1
    ensures DaysBeforeYear(y + 1) == DaysBeforeYear(y) + (if IsLeap(y) then 366 else 365)
  {
    var p := y - 1;
    NextQuarter(p);
    NextCentury(p);
    NextQuadCentury(p);
    CenturyDivides(y);
  }

  /** A multiple of 400 is a multiple of 100, and that of 4. */
  lemma CenturyDivides(y: int)
    requires y >= 1
    ensures y % 400 == 0 ==> y % 100 == 0
    ensures y % 100 == 0 ==> y % 4 == 0
  {
    if y % 400 == 0 {
      CenturyOfQuadCentury(y / 400);
    }
    if y % 100 == 0 {
      QuarterOfCentury(y / 100);
    }
  }

  lemma CenturyOfQuadCentury(k: int)
    ensures (400 * k) % 100 == 0
  {
    assert 400 * k == 100 * (4 * k);
  }

  lemma QuarterOfCentury(k: int)
    ensures (100 * k) % 4 == 0
  {
    assert 100 * k == 4 * (25 * k);
  }

  function YearFrom(d: nat, y: int): (r: int)
    requires y >= 1 && DaysBeforeYear(y) <= d
    ensures r >= y && DaysBeforeYear(r) <= d < DaysBeforeYear(r + 1)
    decreases d - DaysBeforeYear(y)
  {
    YearLength(y);
    if d < DaysBeforeYear(y + 1) then y else YearFrom(d, y + 1)
  }

  /** The calendar year that day d falls in. */
  function YearOf(d: nat): (y: int)
    ensures y >= 1 && DaysBeforeYear(y) <= d < DaysBeforeYear(y + 1)
  {
    YearFrom(d, 1)
  }

  function MondayOf(d: nat): (m: nat)
    ensures m <= d < m + 7 && Weekday(m) == 0
  {
    d - d % 7
  }

  /** The Monday of the week whose Thursday is the first Thursday on or
      after day j. */
  function MondayOfFirstThursday(j: int): int {
    var wd := j % 7;
    if wd > 3 then j - wd + 7 else j - wd
  }

  lemma FirstThursday(j: int)
    ensures MondayOfFirstThursday(j) % 7 == 0
    ensures j <= MondayOfFirstThursday(j) + 3 < j + 7
  {
  }

  /** Of two Mondays whose Thursdays fall on or after day j, the one whose
      Thursday is within a week of j comes no later. */
  lemma MondayOrder(j: int, first: int, other: int)
    requires first % 7 == 0 && other % 7 == 0
    requires j <= first + 3 < j + 7 && j <= other + 3
    ensures first <= other
  {
    assert first == 7 * (first / 7);
    assert other == 7 * (other / 7);
  }

  /** The Monday of week 1 of ISO year y: the Monday on or before the first
      Thursday of y. */
  function Week1Monday(y: int): (m: int)
    requires y >= 1
    ensures m >= 0 && m % 7 == 0
    ensures DaysBeforeYear(y) <= m + 3 < DaysBeforeYear(y) + 7
  {
    FirstThursday(DaysBeforeYear(y));
    MondayOfFirstThursday(DaysBeforeYear(y))
  }

  /** The ISO year of day d: the calendar year of the Thursday of its week. */
  function IsoYear(d: nat): (y: int)
    ensures y >= 1 && DaysBeforeYear(y) <= MondayOf(d) + 3 < DaysBeforeYear(y + 1)
  {
    YearOf(MondayOf(d) + 3)
  }

  /** The ISO week number of day d: its week's place among the weeks of
      its ISO year, from 1. */
  function IsoWeek(d: nat): (w: int)
    ensures 1 <= w <= WeeksIn(IsoYear(d))
  {
    var y := IsoYear(d);
    IsoWeekBounds(d);
    WeeksInBounds(y);
    var k := (MondayOf(d) - Week1Monday(y)) / 7;
    assert MondayOf(d) - Week1Monday(y) == 7 * k;
    k + 1
  }

  /** date.fromisocalendar: the day of weekday wd (1 = Monday) of week w of
      ISO year y. */
  function FromIsoCalendar(y: int, w: int, wd: int): (d: int)
    requires y >= 1
    ensures w >= 1 && 1 <= wd <= 7 ==> d >= 0 && d % 7 == wd - 1
  {
    var m := Week1Monday(y);
    MondayOfWeekday(m, w, wd - 1);
    m + 7 * (w - 1) + (wd - 1)
  }

  /** The Thursday of every ISO week of year y lies in calendar year y, so
      its Monday lies between the week-1 Mondays of y and y + 1. */
  lemma IsoWeekBounds(d: nat)
    ensures IsoYear(d) >= 1
    ensures Week1Monday(IsoYear(d)) <= MondayOf(d) < Week1Monday(IsoYear(d) + 1)
    ensures (MondayOf(d) - Week1Monday(IsoYear(d))) % 7 == 0
  {
    var y, mon := IsoYear(d), MondayOf(d);
    var w0, w1 := Week1Monday(y), Week1Monday(y + 1);
    var j0, j1 := DaysBeforeYear(y), DaysBeforeYear(y + 1);
    assert j0 <= mon + 3 < j1;
    assert mon % 7 == 0;
    MondayOrder(j0, w0, mon);
    MultiplesOfSeven(mon, w0);
  }

  lemma MultiplesOfSeven(a: int, b: int)
    requires a % 7 == 0 && b % 7 == 0
    ensures (a - b) % 7 == 0
  {
    assert a == 7 * (a / 7);
    assert b == 7 * (b / 7);
    assert a - b == 7 * (a / 7 - b / 7);
  }

  /** The week number is 1 to 53, and the ISO calendar fields of d are the
      ones fromisocalendar turns back into d; in particular the Monday of
      the selected week is fromisocalendar(year, week, 1). */
  lemma IsoRoundTrip(d: nat)
    ensures IsoYear(d) >= 1
    ensures 1 <= IsoWeek(d) <= WeeksIn(IsoYear(d)) <= 53
    ensures FromIsoCalendar(IsoYear(d), IsoWeek(d), Weekday(d) + 1) == d
    ensures FromIsoCalendar(IsoYear(d), IsoWeek(d), 1) == MondayOf(d)
  {
    var y, mon := IsoYear(d), MondayOf(d);
    var w0, w1 := Week1Monday(y), Week1Monday(y + 1);
    IsoWeekBounds(d);
    YearLength(y);
    var k := (mon - w0) / 7;
    assert mon - w0 == 7 * k;
    assert w1 - w0 <= 372;
    assert k <= 52;
    assert IsoWeek(d) == k + 1;
    WeeksInBounds(y);
  }

  /** Later years start later: 1 January of year b is no earlier than the
      end of year a when a < b. */
  lemma {:induction false} YearsOrdered(a: int, b: int)
    requires 1 <= a < b
    ensures DaysBeforeYear(a + 1) <= DaysBeforeYear(b)
    decreases b - a
  {
    if a + 1 < b {
      YearsOrdered(a + 1, b);
      YearLength(a + 1);
    }
  }

  /** The calendar year is the only year whose days contain d. */
  lemma YearOfUnique(d: nat, y: int)
    requires y >= 1 && DaysBeforeYear(y) <= d < DaysBeforeYear(y + 1)
    ensures YearOf(d) == y
  {
    var z := YearOf(d);
    if z < y {
      YearsOrdered(z, y);
    } else if y < z {
      YearsOrdered(y, z);
    }
  }

  /** The number of ISO weeks of year y. */
  function WeeksIn(y: int): int
    requires y >= 1
  {
    (Week1Monday(y + 1) - Week1Monday(y)) / 7
  }

  /** An ISO year has 52 or 53 weeks, and week 1 of the next year follows
      its last week. */
  lemma WeeksInBounds(y: int)
    requires y >= 1
    ensures WeeksIn(y) == 52 || WeeksIn(y) == 53
    ensures Week1Monday(y + 1) == Week1Monday(y) + 7 * WeeksIn(y)
  {
    YearLength(y);
    MultiplesOfSeven(Week1Monday(y + 1), Week1Monday(y));
    var k := (Week1Monday(y + 1) - Week1Monday(y)) / 7;
    assert Week1Monday(y + 1) - Week1Monday(y) == 7 * k;
  }

  /** Day k of week w after a Monday m is a day of Monday m + 7 (w - 1). */
  lemma MondayOfWeekday(m: int, w: int, k: int)
    requires m >= 0 && m % 7 == 0
    ensures w >= 1 && 0 <= k < 7 ==>
      MondayOf(m + 7 * (w - 1) + k) == m + 7 * (w - 1) &&
      Weekday(m + 7 * (w - 1) + k) == k &&
      (m + 7 * (w - 1) - m) / 7 == w - 1
  {
    if w >= 1 && 0 <= k < 7 {
      var q := m / 7 + w - 1;
      assert m + 7 * (w - 1) + k == 7 * q + k;
    }
  }

  /** fromisocalendar followed by isocalendar: every weekday of every week
      of an ISO year is a day whose ISO fields are those it was built from. */
  lemma IsoFromRoundTrip(y: int, w: int, wd: int)
    requires y >= 1 && 1 <= w <= WeeksIn(y) && 1 <= wd <= 7
    ensures FromIsoCalendar(y, w, wd) >= 0
    ensures var d: nat := FromIsoCalendar(y, w, wd);
      IsoYear(d) == y && IsoWeek(d) == w && Weekday(d) == wd - 1
  {
    var w0 := Week1Monday(y);
    WeeksInBounds(y);
    MondayOfWeekday(w0, w, wd - 1);
    var mon := w0 + 7 * (w - 1);
    var d: nat := mon + (wd - 1);
    assert MondayOf(d) == mon;
    assert mon + 7 <= Week1Monday(y + 1) by {
      assert 7 * (w - 1) + 7 <= 7 * WeeksIn(y);
    }
    YearOfUnique(mon + 3, y);
  }

  /** Two days of the same Monday-to-Sunday week have the same ISO year,
      week and Monday. */
  lemma SameWeek(d1: nat, d2: nat)
    requires d1 / 7 == d2 / 7
    ensures MondayOf(d1) == MondayOf(d2)
    ensures IsoYear(d1) == IsoYear(d2) && IsoWeek(d1) == IsoWeek(d2)
  {
  }
}
