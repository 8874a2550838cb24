/**
 * The calendar conversion used when a block's timestamp is shown: a
 * non-negative count of seconds since 1970-01-01 00:00:00 UTC is split into
 * the fields of a broken-down time, proleptic Gregorian, without time zones.
 */
module Helpers {

  /** The Gregorian leap-year rule. */
  predicate IsLeapYear(y: int) {
    y % 4 == 0 && (y % 100 != 0 || y % 400 == 0)
  }

  function DaysInYear(y: int): (d: nat)
    ensures d == 365 || d == 366
    ensures d == 366 <==> IsLeapYear(y)
  {
    if IsLeapYear(y) then 366 else 365
  }

  /** Days of the common-year months January .. m-1: the thirteen cumulative totals. */
  const DaysBeforeMonth: seq<int> := [0, 31, 59, 90, 120, 151, 181, 212, 243, 273, 304, 334, 365]

  /** Days in month `m` (0 = January) of a year that is a leap year iff `leap`. */
  function DaysInMonth(m: int, leap: bool): (d: nat)
    requires 0 <= m < 12
    ensures 28 <= d <= 31
    ensures d == 29 <==> m == 1 && leap
  {
    if m == 1 then (if leap then 29 else 28)
    else if m == 3 || m == 5 || m == 8 || m == 10 then 30
    else 31
  }

  /** Days of the months before month `m` in a year that is a leap year iff `leap`: the table entry, shifted after February. */
  function MonthStart(m: int, leap: bool): nat
    requires 0 <= m <= 12
  {
    DaysBeforeMonth[m] + (if leap && m >= 2 then 1 else 0)
  }

  /** Consecutive months: each starts where the previous one ends, and December ends the year. */
  lemma MonthStartNext(m: int, leap: bool)
    requires 0 <= m < 12
    ensures MonthStart(m, leap) + DaysInMonth(m, leap) == MonthStart(m + 1, leap)
    ensures MonthStart(12, leap) == (if leap then 366 else 365)
  {
  }

  /** Days of the months January .. m-1, month by month. */
  function MonthsLength(m: int, leap: bool): nat
    requires 0 <= m <= 12
  {
    if m == 0 then 0 else MonthsLength(m - 1, leap) + DaysInMonth(m - 1, leap)
  }

  /** The cumulative table, with the leap-day shift, is the running total of the month lengths. */
  lemma {:induction false} MonthStartIsSum(m: int, leap: bool)
    requires 0 <= m <= 12
    ensures MonthStart(m, leap) == MonthsLength(m, leap)
  {
    if m > 0 {
      MonthStartIsSum(m - 1, leap);
      MonthStartNext(m - 1, leap);
    }
  }

  /**
   * The month search of `time_t_to_tm`: with the day of a leap year after
   * February 28 moved back by one, the last month starting no later than the
   * day, and the day's number within it.
   */
  lemma MonthSearch(yday: int, leap: bool, w: int, m: int, mday0: int)
    requires 0 <= yday < (if leap then 366 else 365)
    requires w == (if leap && yday > 58 then yday - 1 else yday)
    requires mday0 == (if leap && yday == 59 then 2 else 1)
    requires 0 <= m <= 11 && (m == 0 || DaysBeforeMonth[m] <= w)
    requires forall j | m < j <= 11 :: DaysBeforeMonth[j] > w
    ensures var mday := mday0 + w - DaysBeforeMonth[m];
            && 1 <= mday <= DaysInMonth(m, leap)
            && MonthStart(m, leap) + mday - 1 == yday
  {
    if m < 11 {
      assert DaysBeforeMonth[m + 1] > w;
    }
  }

  /** Days of the years 1970 .. y-1. */
  function DaysBefore(y: int): nat
    requires y >= 1970
    decreases y - 1970
  {
    if y == 1970 then 0 else DaysBefore(y - 1) + DaysInYear(y - 1)
  }

  lemma {:induction false} DaysBeforeGrows(a: int, b: int)
    requires 1970 <= a < b
    ensures DaysBefore(a) + DaysInYear(a) <= DaysBefore(b)
    decreases b - a
  {
    if a + 1 < b {
      DaysBeforeGrows(a, b - 1);
    }
  }

  /** std::tm: every field an int; the year counts from 1900, the month and weekday from 0. */
  datatype Tm = Tm(sec: int, min: int, hour: int, mday: int, mon: int, year: int, wday: int, yday: int)

  /**
   * `r` is the broken-down time of `t`: time of day, weekday (1970-01-01 was
   * a Thursday), the year and the day within it, and the month and the day
   * within that.
   */
  ghost predicate CalendarOf(t: nat, r: Tm) {
    && 0 <= r.sec < 60 && 0 <= r.min < 60 && 0 <= r.hour < 24
    && r.hour * 3600 + r.min * 60 + r.sec == t % 86400
    && r.wday == (4 + t / 86400) % 7
    && r.year + 1900 >= 1970
    && 0 <= r.yday < DaysInYear(r.year + 1900)
    && DaysBefore(r.year + 1900) + r.yday == t / 86400
    && 0 <= r.mon < 12
    && 1 <= r.mday <= DaysInMonth(r.mon, IsLeapYear(r.year + 1900))
    && MonthStart(r.mon, IsLeapYear(r.year + 1900)) + r.mday - 1 == r.yday
  }

  /** `time_t_to_tm` for t >= 0. */
  method TimeToTm(t: nat) returns (r: Tm)
    ensures CalendarOf(t, r)
    ensures r.mon == 1 && r.mday == 29 ==> IsLeapYear(r.year + 1900)
  {
    var work := t % 86400;
    var sec := work % 60;
    work := work / 60;
    var min := work % 60;
    var hour := work / 60;
    work := t / 86400;
    var wday := (4 + work) % 7;

    var i := 1970;
    while true
      invariant i >= 1970 && 0 <= work
      invariant DaysBefore(i) + work == t / 86400
      decreases work
    {
      var k := if IsLeapYear(i) then 366 else 365;
      if work >= k {
        work := work - k;
      } else {
        break;
      }
      i := i + 1;
    }
    var year := i - 1900;
    var yday := work;
    var leap := IsLeapYear(i);
    var mday := 1;
    if leap && work > 58 {
      if work == 59 {
        mday := 2;
      }
      work := work - 1;
    }

    var m := 11;
    while m != 0 && DaysBeforeMonth[m] > work
      invariant 0 <= m <= 11
      invariant forall j | m < j <= 11 :: DaysBeforeMonth[j] > work
      decreases m
    {
      m := m - 1;
    }
    MonthSearch(yday, leap, work, m, mday);
    mday := mday + work - DaysBeforeMonth[m];
    r := Tm(sec, min, hour, mday, m, year, wday, yday);
  }

  /** Two broken-down times of the same `t` agree on the year and the day within it. */
  lemma CalendarSameDay(t: nat, r1: Tm, r2: Tm)
    requires CalendarOf(t, r1) && CalendarOf(t, r2)
    ensures r1.year == r2.year && r1.yday == r2.yday
  {
    var y1, y2 := r1.year + 1900, r2.year + 1900;
    if y1 < y2 {
      DaysBeforeGrows(y1, y2);
    } else if y2 < y1 {
      DaysBeforeGrows(y2, y1);
    }
  }

  /** A day of a year lies in at most one month, at at most one day of it. */
  lemma MonthOfDayUnique(leap: bool, m1: int, d1: int, m2: int, d2: int)
    requires 0 <= m1 < 12 && 1 <= d1 <= DaysInMonth(m1, leap)
    requires 0 <= m2 < 12 && 1 <= d2 <= DaysInMonth(m2, leap)
    requires MonthStart(m1, leap) + d1 == MonthStart(m2, leap) + d2
    ensures m1 == m2 && d1 == d2
  {
    if m1 < m2 {
      MonthStartGrows(m1, m2, leap);
    } else if m2 < m1 {
      MonthStartGrows(m2, m1, leap);
    }
  }

  /** At most one broken-down time satisfies `CalendarOf` for a given `t`. */
  lemma CalendarUnique(t: nat, r1: Tm, r2: Tm)
    requires CalendarOf(t, r1) && CalendarOf(t, r2)
    ensures r1 == r2
  {
    CalendarSameDay(t, r1, r2);
    MonthOfDayUnique(IsLeapYear(r1.year + 1900), r1.mon, r1.mday, r2.mon, r2.mday);
  }

  lemma {:induction false} MonthStartGrows(a: int, b: int, leap: bool)
    requires 0 <= a < b < 12
    ensures MonthStart(a, leap) + DaysInMonth(a, leap) <= MonthStart(b, leap)
    decreases b - a
  {
    MonthStartNext(a, leap);
    if a + 1 < b {
      MonthStartGrows(a + 1, b, leap);
    }
  }

  /** Second 0 is 1970-01-01 00:00:00, a Thursday. */
  lemma Epoch(r: Tm)
    requires CalendarOf(0, r)
    ensures r == Tm(0, 0, 0, 1, 0, 70, 4, 0)
  {
    CalendarUnique(0, r, Tm(0, 0, 0, 1, 0, 70, 4, 0));
  }
}
