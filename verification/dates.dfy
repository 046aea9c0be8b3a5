/**
 Calendar dates as integer tuples, standing in for the local-time fields of a
 JavaScript `Date`: month 0..11 as `getMonth` gives it, day 1..31 as
 `getDate` gives it, Sunday = 0 as `getDay` gives it. Instants are ordered by
 their millisecond count in one fixed time zone.
 */
module Dates {

  datatype DateTime = DateTime(year: int, month: int, day: int, hour: int, minute: int, second: int, ms: int)

  predicate IsLeapYear(y: int)
  {
    y % 4 == 0 && (y % 100 != 0 || y % 400 == 0)
  }

  /** Days in month `m` (0-based) of year `y` in the proleptic Gregorian calendar. */
  function DaysInMonth(y: int, m: int): (n: int)
    requires 0 <= m < 12
    ensures 28 <= n <= 31
    ensures m == 1 ==> (n == 29 <==> IsLeapYear(y))
    ensures n == 30 <==> m == 3 || m == 5 || m == 8 || m == 10
    ensures n == 31 <==> m == 0 || m == 2 || m == 4 || m == 6 || m == 7 || m == 9 || m == 11
  {
    if m == 1 then (if IsLeapYear(y) then 29 else 28)
    else if m == 3 || m == 5 || m == 8 || m == 10 then 30
    else 31
  }

  predicate Valid(t: DateTime)
  {
    && 0 <= t.month < 12 && 1 <= t.day <= DaysInMonth(t.year, t.month)
    && 0 <= t.hour < 24 && 0 <= t.minute < 60 && 0 <= t.second < 60 && 0 <= t.ms < 1000
  }

  /**
   Days from 1970-01-01 to the given civil date (Gregorian, proleptic).
   Dafny's `/` on a positive divisor rounds down, which is what the
   era arithmetic needs for negative years.
   */
  function DayNumber(y: int, m: int, d: int): int
    requires 0 <= m < 12
  {
    var y1 := if m < 2 then y - 1 else y;
    var era := y1 / 400;
    var yoe := y1 - era * 400;
    var mp := if m >= 2 then m - 2 else m + 10;
    var doy := (153 * mp + 2) / 5 + d - 1;
    var doe := yoe * 365 + yoe / 4 - yoe / 100 + doy;
    era * 146097 + doe - 719468
  }

  /** Consecutive days of one month have consecutive day numbers. */
  lemma DayNumberStep(y: int, m: int, d: int)
    requires 0 <= m < 12
    ensures DayNumber(y, m, d) == DayNumber(y, m, 1) + (d - 1)
  {
  }

  /**
   Days from the start of the 400-year era holding the March-based year `y`
   to 1 March of `y`, plus the era's own offset: the part of `DayNumber` that
   depends on the year alone.
   */
  function YearDays(y: int): int
  {
    var era := y / 400;
    var yoe := y - era * 400;
    era * 146097 + yoe * 365 + yoe / 4 - yoe / 100
  }

  /** From 1 March of `y` to 1 March of `y + 1` is 366 days when `y + 1` is a leap year, else 365. */
  lemma YearLength(y: int)
    ensures YearDays(y + 1) == YearDays(y) + (if IsLeapYear(y + 1) then 366 else 365)
  {
    var era := y / 400;
    var yoe := y - era * 400;
    if yoe < 399 {
      EraSplit(y + 1, era, yoe + 1);
      LeapWithinEra(era, yoe + 1);
      YearWithinEra(yoe + 1);
    } else {
      EraSplit(y + 1, era + 1, 0);
      LeapWithinEra(era + 1, 0);
    }
  }

  /** Writing `y` as `400 * era + k` with `0 <= k < 400` fixes the era and the year of the era. */
  lemma EraSplit(y: int, era: int, k: int)
    requires y == 400 * era + k && 0 <= k < 400
    ensures y / 400 == era && y - (y / 400) * 400 == k
  {
  }

  /** Whether a year is a leap year depends only on its place in the 400-year era. */
  lemma LeapWithinEra(era: int, k: int)
    ensures IsLeapYear(400 * era + k) == IsLeapYear(k)
  {
    MultipleMod4(100 * era, k);
    MultipleMod100(4 * era, k);
    MultipleMod400(era, k);
  }

  /** Inside one era, year `k` of the era adds 366 days when it is a leap year, else 365. */
  lemma YearWithinEra(k: int)
    requires 1 <= k < 400
    ensures (k * 365 + k / 4 - k / 100) - ((k - 1) * 365 + (k - 1) / 4 - (k - 1) / 100)
            == if IsLeapYear(k) then 366 else 365
  {
    DivStep4(k);
    DivStep100(k);
    assert k % 400 == k;
  }

  lemma DivStep4(k: int)
    ensures k / 4 - (k - 1) / 4 == if k % 4 == 0 then 1 else 0
  {
    var q, r := (k - 1) / 4, (k - 1) % 4;
    assert k == 4 * q + r + 1;
    if r == 3 {
      assert k == 4 * (q + 1);
    } else {
      assert k / 4 == q && k % 4 == r + 1;
    }
  }

  lemma DivStep100(k: int)
    ensures k / 100 - (k - 1) / 100 == if k % 100 == 0 then 1 else 0
  {
    var q, r := (k - 1) / 100, (k - 1) % 100;
    assert k == 100 * q + r + 1;
    if r == 99 {
      assert k == 100 * (q + 1);
    } else {
      assert k / 100 == q && k % 100 == r + 1;
    }
  }

  lemma MultipleMod4(q: int, r: int)
    ensures (4 * q + r) % 4 == r % 4
  {
    var a := (4 * q + r) / 4;
    var b := r / 4;
    assert 4 * q + r == 4 * a + (4 * q + r) % 4;
    assert r == 4 * b + r % 4;
    assert 4 * (q + b - a) == (4 * q + r) % 4 - r % 4;
  }

  lemma MultipleMod100(q: int, r: int)
    ensures (100 * q + r) % 100 == r % 100
  {
    var a := (100 * q + r) / 100;
    var b := r / 100;
    assert 100 * q + r == 100 * a + (100 * q + r) % 100;
    assert r == 100 * b + r % 100;
    assert 100 * (q + b - a) == (100 * q + r) % 100 - r % 100;
  }

  lemma MultipleMod400(q: int, r: int)
    ensures (400 * q + r) % 400 == r % 400
  {
    var a := (400 * q + r) / 400;
    var b := r / 400;
    assert 400 * q + r == 400 * a + (400 * q + r) % 400;
    assert r == 400 * b + r % 400;
    assert 400 * (q + b - a) == (400 * q + r) % 400 - r % 400;
  }

  /** Days from 1 March to day 1 of month `m` (0-based, January and February counting in the year before). */
  function MonthOffset(m: int): int
    requires 0 <= m < 12
  {
    (153 * (if m >= 2 then m - 2 else m + 10) + 2) / 5
  }

  /** `DayNumber` is the March-based year's `YearDays` plus the days before the month and the day. */
  lemma DayNumberByYear(y: int, m: int, d: int)
    requires 0 <= m < 12
    ensures DayNumber(y, m, d) == YearDays(if m < 2 then y - 1 else y) + MonthOffset(m) + d - 1 - 719468
  {
  }

  /** Outside February, a month's offset plus its length is the next month's offset. */
  lemma MonthOffsetStep(y: int, m: int)
    requires 0 <= m < 12 && m != 1
    ensures MonthOffset(m) + DaysInMonth(y, m) == MonthOffset((m + 1) % 12)
  {
  }

  /** The last day of each month is followed by day 1 of the next month: the month lengths and the day count agree. */
  lemma MonthEndMeetsNextStart(y: int, m: int)
    requires 0 <= m < 12
    ensures DayNumber(y, m, DaysInMonth(y, m)) + 1
            == DayNumber(MonthStart(y, m + 1).year, MonthStart(y, m + 1).month, 1)
  {
    var next := MonthStart(y, m + 1);
    if m == 11 {
      assert next.year == y + 1 && next.month == 0;
      DecemberEndMeetsJanuary(y);
    } else {
      assert next.year == y && next.month == m + 1;
      if m == 1 {
        FebruaryEndMeetsMarch(y);
      } else {
        MonthEndWithinYear(y, m);
      }
    }
  }

  lemma FebruaryEndMeetsMarch(y: int)
    ensures DayNumber(y, 1, DaysInMonth(y, 1)) + 1 == DayNumber(y, 2, 1)
  {
    DayNumberByYear(y, 1, DaysInMonth(y, 1));
    DayNumberByYear(y, 2, 1);
    YearLength(y - 1);
  }

  lemma DecemberEndMeetsJanuary(y: int)
    ensures DayNumber(y, 11, 31) + 1 == DayNumber(y + 1, 0, 1)
  {
    DayNumberByYear(y, 11, 31);
    DayNumberByYear(y + 1, 0, 1);
  }

  lemma MonthEndWithinYear(y: int, m: int)
    requires 0 <= m < 11 && m != 1
    ensures DayNumber(y, m, DaysInMonth(y, m)) + 1 == DayNumber(y, m + 1, 1)
  {
    DayNumberByYear(y, m, DaysInMonth(y, m));
    DayNumberByYear(y, m + 1, 1);
    MonthOffsetStep(y, m);
  }

  /** `getDay()`: 0 = Sunday .. 6 = Saturday; 1970-01-01 was a Thursday. */
  function Weekday(y: int, m: int, d: int): (w: int)
    requires 0 <= m < 12
    ensures 0 <= w < 7
  {
    (DayNumber(y, m, d) + 4) % 7
  }

  /** The epoch, 1 January 1970, was a Thursday. */
  lemma EpochIsThursday()
    ensures DayNumber(1970, 0, 1) == 0 && Weekday(1970, 0, 1) == 4
  {
  }

  /** 1 January 2024 was a Monday. */
  lemma NewYear2024IsMonday()
    ensures Weekday(2024, 0, 1) == 1
  {
  }

  /** 29 February 2000 was a Tuesday. */
  lemma LeapDay2000IsTuesday()
    ensures Weekday(2000, 1, 29) == 2
  {
  }

  /** Each day of a month falls one weekday after the day before. */
  lemma WeekdayOfDay(y: int, m: int, d: int)
    requires 0 <= m < 12
    ensures Weekday(y, m, d) == (Weekday(y, m, 1) + d - 1) % 7
  {
    DayNumberStep(y, m, d);
    ShiftMod7(DayNumber(y, m, 1) + 4, d - 1);
  }

  lemma ShiftMod7(x: int, k: int)
    ensures (x + k) % 7 == (x % 7 + k) % 7
  {
    var q := x / 7;
    assert x + k == 7 * q + (x % 7 + k);
    MultipleMod7(q, x % 7 + k);
  }

  lemma MultipleMod7(q: int, r: int)
    ensures (7 * q + r) % 7 == r % 7
  {
    var a := (7 * q + r) / 7;
    var b := r / 7;
    assert 7 * q + r == 7 * a + (7 * q + r) % 7;
    assert r == 7 * b + r % 7;
    assert 7 * (q + b - a) == (7 * q + r) % 7 - r % 7;
  }

  /** Milliseconds since 1970-01-01T00:00:00.000 of the fixed zone. */
  function Ticks(t: DateTime): int
    requires 0 <= t.month < 12
  {
    ((DayNumber(t.year, t.month, t.day) * 24 + t.hour) * 60 + t.minute) * 60000 + t.second * 1000 + t.ms
  }

  /** Same calendar day: `getDate`, `getMonth` and `getFullYear` all agree. */
  predicate SameDay(a: DateTime, b: DateTime)
  {
    a.day == b.day && a.month == b.month && a.year == b.year
  }

  /** Midnight of day `d` of month `m` (0-based) of year `y`. */
  function Midnight(y: int, m: int, d: int): DateTime
  {
    DateTime(y, m, d, 0, 0, 0, 0)
  }

  /**
   The first day of month `m` of year `y`, where `m` may lie outside 0..11 and
   carries into the year, as the `Date(year, month, 1)` constructor does.
   */
  function MonthStart(y: int, m: int): (t: DateTime)
    ensures Valid(t) && t.day == 1 && t.hour == 0 && t.minute == 0
    ensures t.year * 12 + t.month == y * 12 + m
  {
    Midnight(y + m / 12, m % 12, 1)
  }

  /** Two month starts are equal exactly when they name the same absolute month. */
  lemma MonthStartInjective(y1: int, m1: int, y2: int, m2: int)
    ensures MonthStart(y1, m1) == MonthStart(y2, m2) <==> y1 * 12 + m1 == y2 * 12 + m2
  {
    var a, b := MonthStart(y1, m1), MonthStart(y2, m2);
    if y1 * 12 + m1 == y2 * 12 + m2 {
      assert a.year == b.year;
    }
  }

  /** `nextMonth`: day 1 of the following month. */
  function NextMonth(t: DateTime): (r: DateTime)
    ensures Valid(r) && r.day == 1
    ensures 0 <= t.month < 11 ==> r.year == t.year && r.month == t.month + 1
    ensures t.month == 11 ==> r.year == t.year + 1 && r.month == 0
  {
    MonthStart(t.year, t.month + 1)
  }

  /** `previousMonth`: day 1 of the preceding month. */
  function PreviousMonth(t: DateTime): (r: DateTime)
    ensures Valid(r) && r.day == 1
    ensures 0 < t.month < 12 ==> r.year == t.year && r.month == t.month - 1
    ensures t.month == 0 ==> r.year == t.year - 1 && r.month == 11
  {
    MonthStart(t.year, t.month - 1)
  }

  /** Going forward a month and back lands on day 1 of the month one started in. */
  lemma PreviousAfterNext(t: DateTime)
    ensures PreviousMonth(NextMonth(t)) == MonthStart(t.year, t.month)
  {
    var n := NextMonth(t);
    MonthStartInjective(n.year, n.month - 1, t.year, t.month);
  }

  /** Going back a month and forward lands on day 1 of the month one started in. */
  lemma NextAfterPrevious(t: DateTime)
    ensures NextMonth(PreviousMonth(t)) == MonthStart(t.year, t.month)
  {
    var p := PreviousMonth(t);
    MonthStartInjective(p.year, p.month + 1, t.year, t.month);
  }

  // ---------------------------------------------------------------------------
  // The constructor as it behaves in JavaScript
  // ---------------------------------------------------------------------------

  /**
   `new Date(y, m, 1)` exactly as the language defines it: a year argument
   from 0 to 99 is read as 1900 + y before the month carries into the year.
   */
  function JsMonthStart(y: int, m: int): (t: DateTime)
    ensures !(0 <= y <= 99) ==> t == MonthStart(y, m)
    ensures 0 <= y <= 99 ==> t == MonthStart(1900 + y, m)
  {
    MonthStart(if 0 <= y <= 99 then 1900 + y else y, m)
  }

  /**
   `new Date(year, month + 1, 0).getDate()` as written: the length of the
   month, looked up in the year the constructor actually builds.
   */
  function JsDaysInMonth(y: int, m: int): (n: int)
    requires 0 <= m < 12
    ensures !(0 <= y <= 99) ==> n == DaysInMonth(y, m)
    ensures 0 <= y <= 99 ==> n == DaysInMonth(1900 + y, m)
  {
    DaysInMonth(if 0 <= y <= 99 then 1900 + y else y, m)
  }

  /**
   February of year 0 has 29 days (year 0 is a leap year), but the grid as
   written lays out 28, the length of February 1900.
   */
  lemma JsFebruaryOfYearZero()
    ensures DaysInMonth(0, 1) == 29
    ensures JsDaysInMonth(0, 1) == 28
  {
  }

  /** `nextMonth` as written, through the two-digit-year mapping. */
  function JsNextMonth(t: DateTime): (r: DateTime)
    ensures !(0 <= t.year <= 99) ==> r == NextMonth(t)
  {
    JsMonthStart(t.year, t.month + 1)
  }

  /** `previousMonth` as written, through the two-digit-year mapping. */
  function JsPreviousMonth(t: DateTime): (r: DateTime)
    ensures !(0 <= t.year <= 99) ==> r == PreviousMonth(t)
  {
    JsMonthStart(t.year, t.month - 1)
  }

  /**
   From January of year 100 the previous-month button shows December of
   year 99, and the next-month button from there jumps to January 2000
   instead of returning to January 100.
   */
  lemma JsNavigationSkipsCenturies()
    ensures JsPreviousMonth(Midnight(100, 0, 1)) == Midnight(99, 11, 1)
    ensures JsNextMonth(Midnight(99, 11, 1)) == Midnight(2000, 0, 1)
    ensures JsNextMonth(JsPreviousMonth(Midnight(100, 0, 1))) != Midnight(100, 0, 1)
  {
    assert JsPreviousMonth(Midnight(100, 0, 1)) == MonthStart(100, -1);
    assert JsNextMonth(Midnight(99, 11, 1)) == MonthStart(1999, 12);
  }
}
