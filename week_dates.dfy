/**
 * The ISO 8601 week-date system (ISO 8601:2004, 4.1.4 week dates) as Python's
 * `date.isocalendar()` computes it: days are counted as proleptic Gregorian
 * ordinals (0001-01-01 is day 1, a Monday), week 1 of an ISO year is the week
 * that holds January 4, and a date belongs to the ISO year whose week 1 began
 * most recently.
 */
module WeekDates {

  /** A calendar date: the `year`, `month` and `day` fields of a Python datetime. */
  datatype Date = Date(year: int, month: int, day: int)

  predicate IsLeapYear(y: int) {
    y % 4 == 0 && (y % 100 != 0 || y % 400 == 0)
  }

  function DaysInMonth(y: int, m: int): int
    requires 1 <= m <= 12
  {
    if m == 2 then (if IsLeapYear(y) then 29 else 28)
    else if m == 4 || m == 6 || m == 9 || m == 11 then 30
    else 31
  }

  /** Python's datetime range: years 1 to 9999, and days that exist in their month. */
  predicate ValidDate(d: Date) {
    1 <= d.year <= 9999 && 1 <= d.month <= 12 && 1 <= d.day <= DaysInMonth(d.year, d.month)
  }

  type Day = d: Date | ValidDate(d) witness Date(2024, 1, 1)

  /** Number of days in the years before year `y`. */
  function DaysBeforeYear(y: int): int {
    var p := y - 1;
    p * 365 + p / 4 - p / 100 + p / 400
  }

  /** Number of days in year `y` before the first of month `m`. */
  function DaysBeforeMonth(y: int, m: int): int
    requires 1 <= m <= 12
  {
    var leapDay := if m > 2 && IsLeapYear(y) then 1 else 0;
    if m == 1 then 0
    else if m == 2 then 31
    else if m == 3 then 59 + leapDay
    else if m == 4 then 90 + leapDay
    else if m == 5 then 120 + leapDay
    else if m == 6 then 151 + leapDay
    else if m == 7 then 181 + leapDay
    else if m == 8 then 212 + leapDay
    else if m == 9 then 243 + leapDay
    else if m == 10 then 273 + leapDay
    else if m == 11 then 304 + leapDay
    else 334 + leapDay
  }

  /** Python's `date.toordinal()`. */
  function Ordinal(d: Day): int {
    DaysBeforeYear(d.year) + DaysBeforeMonth(d.year, d.month) + d.day
  }

  /** The ordinal of the Monday that starts ISO week 1 of year `y`. */
  function IsoWeek1Monday(y: int): int {
    Week1MondayFrom(DaysBeforeYear(y) + 1)
  }

  /** The Monday of ISO week 1 of the year whose January 1 has ordinal `firstDay`. */
  function Week1MondayFrom(firstDay: int): int {
    var firstWeekday := (firstDay + 6) % 7;  // 0 is Monday
    var monday := firstDay - firstWeekday;
    if firstWeekday > 3 then monday + 7 else monday
  }

  /** An ISO week date: ISO year, week number, weekday (1 is Monday). */
  datatype IsoDate = IsoDate(year: int, week: int, weekday: int)

  /** Python's `date.isocalendar()`. */
  function IsoCalendar(d: Day): IsoDate {
    IsoWeekDate(d.year, Ordinal(d))
  }

  /** The ISO week date of the day with ordinal `today`, which lies in calendar year `year`. */
  function IsoWeekDate(year: int, today: int): IsoDate {
    WeekDateFrom(year, today, IsoWeek1Monday(year - 1), IsoWeek1Monday(year), IsoWeek1Monday(year + 1))
  }

  /**
   * CPython's three branches, given the week-1 Mondays of the years before,
   * at and after `year`: a day before this year's week 1 belongs to the last
   * week of the previous ISO year, a day from next year's week-1 Monday on to
   * week 1 of the next ISO year.
   */
  function WeekDateFrom(year: int, today: int, previous: int, monday: int, next: int): IsoDate {
    var week := (today - monday) / 7;
    if week < 0 then
      IsoDate(year - 1, (today - previous) / 7 + 1, (today - previous) % 7 + 1)
    else if week >= 52 && today >= next then
      IsoDate(year + 1, 1, (today - monday) % 7 + 1)
    else
      IsoDate(year, week + 1, (today - monday) % 7 + 1)
  }

  /** A valid date lies inside its own year. */
  lemma DayOfYear(d: Day)
    ensures DaysBeforeYear(d.year) + 1 <= Ordinal(d)
    ensures Ordinal(d) <= DaysBeforeYear(d.year) + (if IsLeapYear(d.year) then 366 else 365)
  {
  }

  /** A year has 366 days when it is a leap year and 365 otherwise. */
  lemma YearLength(y: int)
    ensures DaysBeforeYear(y + 1) - DaysBeforeYear(y) == if IsLeapYear(y) then 366 else 365
  {
    DivStep4(y);
    DivStep100(y);
    DivStep400(y);
    CenturyDivisibility(y);
  }

  lemma DivUnique4(a: int, q: int, r: int)
    requires a == 4 * q + r && 0 <= r < 4
    ensures a / 4 == q && a % 4 == r
  {
  }

  lemma DivStep4(y: int)
    ensures y / 4 - (y - 1) / 4 == if y % 4 == 0 then 1 else 0
  {
    var q, r := (y - 1) / 4, (y - 1) % 4;
    DivUnique4(y - 1, q, r);
    if r == 3 {
      DivUnique4(y, q + 1, 0);
    } else {
      DivUnique4(y, q, r + 1);
    }
  }

  lemma DivUnique100(a: int, q: int, r: int)
    requires a == 100 * q + r && 0 <= r < 100
    ensures a / 100 == q && a % 100 == r
  {
  }

  lemma DivStep100(y: int)
    ensures y / 100 - (y - 1) / 100 == if y % 100 == 0 then 1 else 0
  {
    var q, r := (y - 1) / 100, (y - 1) % 100;
    DivUnique100(y - 1, q, r);
    if r == 99 {
      DivUnique100(y, q + 1, 0);
    } else {
      DivUnique100(y, q, r + 1);
    }
  }

  lemma DivUnique400(a: int, q: int, r: int)
    requires a == 400 * q + r && 0 <= r < 400
    ensures a / 400 == q && a % 400 == r
  {
  }

  lemma DivStep400(y: int)
    ensures y / 400 - (y - 1) / 400 == if y % 400 == 0 then 1 else 0
  {
    var q, r := (y - 1) / 400, (y - 1) % 400;
    DivUnique400(y - 1, q, r);
    if r == 399 {
      DivUnique400(y, q + 1, 0);
    } else {
      DivUnique400(y, q, r + 1);
    }
  }

  /** Every fourth century year is a century year, and every century year is a fourth year. */
  lemma CenturyDivisibility(y: int)
    ensures y % 400 == 0 ==> y % 100 == 0
    ensures y % 100 == 0 ==> y % 4 == 0
  {
    if y % 400 == 0 {
      DivUnique400(y, y / 400, 0);
      DivUnique100(y, 4 * (y / 400), 0);
    }
    if y % 100 == 0 {
      DivUnique100(y, y / 100, 0);
      DivUnique4(y, 25 * (y / 100), 0);
    }
  }

  /**
   * Week 1 of year `y` starts on a Monday (ordinals congruent to 1 modulo 7 are
   * Mondays) and is the week that holds January 4 of `y`.
   */
  lemma Week1Monday(y: int)
    ensures IsoWeek1Monday(y) % 7 == 1
    ensures IsoWeek1Monday(y) <= DaysBeforeYear(y) + 4 < IsoWeek1Monday(y) + 7
  {
    MondayNear(DaysBeforeYear(y) + 1);
  }

  lemma MondayNear(firstDay: int)
    ensures Week1MondayFrom(firstDay) % 7 == 1
    ensures firstDay - 3 <= Week1MondayFrom(firstDay) <= firstDay + 3
  {
    var q := (firstDay + 6) / 7;
    assert firstDay + 6 == 7 * q + (firstDay + 6) % 7;
    if (firstDay + 6) % 7 > 3 {
      assert Week1MondayFrom(firstDay) == 7 * q + 1;
    } else {
      assert Week1MondayFrom(firstDay) == 7 * (q - 1) + 1;
    }
  }

  /** The Monday of week 1 lies within three days of January 1. */
  lemma Week1MondayNearNewYear(y: int)
    ensures DaysBeforeYear(y) - 2 <= IsoWeek1Monday(y) <= DaysBeforeYear(y) + 4
  {
    MondayNear(DaysBeforeYear(y) + 1);
  }

  /** Consecutive ISO years are 52 or 53 weeks long. */
  lemma IsoYearLength(y: int)
    ensures IsoWeek1Monday(y + 1) - IsoWeek1Monday(y) == 364 || IsoWeek1Monday(y + 1) - IsoWeek1Monday(y) == 371
  {
    Week1Monday(y);
    Week1Monday(y + 1);
    YearLength(y);
    MondayGap(IsoWeek1Monday(y), IsoWeek1Monday(y + 1), DaysBeforeYear(y) + 4, DaysBeforeYear(y + 1) + 4);
  }

  /**
   * Two Mondays each starting the week that holds a given day (January 4),
   * where the two days are 365 or 366 days apart, are 52 or 53 weeks apart.
   */
  lemma MondayGap(a: int, b: int, dayA: int, dayB: int)
    requires a % 7 == 1 && b % 7 == 1
    requires a <= dayA < a + 7 && b <= dayB < b + 7
    requires dayB - dayA == 365 || dayB - dayA == 366
    ensures b - a == 364 || b - a == 371
  {
    assert a == 7 * (a / 7) + 1;
    assert b == 7 * (b / 7) + 1;
    assert 52 <= b / 7 - a / 7 <= 53;
  }

  /**
   * ISO 8601's definition of `r` as the week date of the day with ordinal
   * `today`: the day falls in the ISO year whose week 1 began on or before it
   * and whose successor's week 1 has not yet begun, and week and weekday
   * count from that year's week-1 Monday.
   */
  predicate IsIsoWeekDate(today: int, r: IsoDate) {
    && IsoWeek1Monday(r.year) <= today < IsoWeek1Monday(r.year + 1)
    && today == IsoWeek1Monday(r.year) + 7 * (r.week - 1) + (r.weekday - 1)
    && 1 <= r.weekday <= 7
  }

  /** `IsoCalendar` computes the ISO week date, with weeks numbered 1 to 53. */
  lemma IsoCalendarSpec(d: Day)
    ensures IsIsoWeekDate(Ordinal(d), IsoCalendar(d))
    ensures 1 <= IsoCalendar(d).week <= 53
    ensures d.year - 1 <= IsoCalendar(d).year <= d.year + 1
  {
    DayOfYear(d);
    YearLength(d.year);
    Surroundings(d.year, Ordinal(d));
    IsoWeekDateSpec(d.year, Ordinal(d));
  }

  lemma IsoWeekDateSpec(year: int, today: int)
    requires IsoWeek1Monday(year - 1) <= today
    requires IsoWeek1Monday(year) - 3 <= today <= IsoWeek1Monday(year + 1) + 2
    requires today < IsoWeek1Monday(year + 2)
    ensures IsIsoWeekDate(today, IsoWeekDate(year, today))
    ensures 1 <= IsoWeekDate(year, today).week <= 53
    ensures year - 1 <= IsoWeekDate(year, today).year <= year + 1
  {
    var previous, monday, next, afterNext :=
      IsoWeek1Monday(year - 1), IsoWeek1Monday(year), IsoWeek1Monday(year + 1), IsoWeek1Monday(year + 2);
    IsoYearLength(year - 1);
    IsoYearLength(year);
    WeekBranches(year, today, previous, monday, next, afterNext);
    var r := IsoWeekDate(year, today);
    if r.year == year - 1 {
      assert year - 1 + 1 == year;
    } else if r.year == year + 1 {
      assert year + 1 + 1 == year + 2;
    }
  }

  /** Where a day of year `year` lies relative to the week-1 Mondays of the years around it. */
  lemma Surroundings(year: int, today: int)
    requires DaysBeforeYear(year) + 1 <= today <= DaysBeforeYear(year + 1)
    ensures IsoWeek1Monday(year - 1) <= today
    ensures IsoWeek1Monday(year) - 3 <= today <= IsoWeek1Monday(year + 1) + 2
    ensures today < IsoWeek1Monday(year + 2)
  {
    YearLength(year - 1);
    YearLength(year);
    YearLength(year + 1);
    Week1MondayNearNewYear(year - 1);
    Week1MondayNearNewYear(year);
    Week1MondayNearNewYear(year + 1);
    Week1MondayNearNewYear(year + 2);
  }

  /**
   * The arithmetic behind the three branches of `WeekDateFrom`, for the
   * ordinal `today` of a day in `year` and the week-1 Mondays of the years
   * `year - 1` to `year + 2`: the result lies in the ISO year whose week 1
   * began on or before `today` and counts weeks and weekdays from its Monday.
   */
  lemma WeekBranches(year: int, today: int, previous: int, monday: int, next: int, afterNext: int)
    requires previous <= today && monday - 3 <= today <= next + 2 && today < afterNext
    requires monday - previous == 364 || monday - previous == 371
    requires next - monday == 364 || next - monday == 371
    ensures var r := WeekDateFrom(year, today, previous, monday, next);
      && 1 <= r.weekday <= 7 && 1 <= r.week <= 53
      && (r.year == year - 1 ==> previous <= today < monday && today == previous + 7 * (r.week - 1) + (r.weekday - 1))
      && (r.year == year ==> monday <= today < next && today == monday + 7 * (r.week - 1) + (r.weekday - 1))
      && (r.year == year + 1 ==> next <= today < afterNext && today == next + 7 * (r.week - 1) + (r.weekday - 1))
      && year - 1 <= r.year <= year + 1
  {
    var week := (today - monday) / 7;
    assert today - monday == 7 * week + (today - monday) % 7;
    if week < 0 {
      assert today - previous == 7 * ((today - previous) / 7) + (today - previous) % 7;
    }
  }

  /** 2024 begins on a Monday, so its week 1 starts on January 1 and week 1 of 2025 on December 30, 2024. */
  lemma Mondays2024()
    ensures IsoWeek1Monday(2023) == 738522
    ensures IsoWeek1Monday(2024) == 738886
    ensures IsoWeek1Monday(2025) == 739250
  {
    assert DaysBeforeYear(2023) == 738520;
    assert DaysBeforeYear(2024) == 738885;
    assert DaysBeforeYear(2025) == 739251;
    assert Week1MondayFrom(738521) == 738522 by {
      assert (738521 + 6) % 7 == 6;
    }
    assert Week1MondayFrom(738886) == 738886 by {
      assert (738886 + 6) % 7 == 0;
    }
    assert Week1MondayFrom(739252) == 739250 by {
      assert (739252 + 6) % 7 == 2;
    }
  }

  /** January 1, 2024 is Monday of week 1 of 2024; December 30 and 31, 2024 are Monday and Tuesday of week 1 of 2025. */
  lemma Calendar2024()
    ensures IsoWeek1Monday(2024) == Ordinal(Date(2024, 1, 1))
    ensures IsoWeek1Monday(2025) == Ordinal(Date(2024, 12, 30))
    ensures IsoCalendar(Date(2024, 1, 1)) == IsoDate(2024, 1, 1)
    ensures IsoCalendar(Date(2024, 12, 30)) == IsoDate(2025, 1, 1)
    ensures IsoCalendar(Date(2024, 12, 31)) == IsoDate(2025, 1, 2)
  {
    Mondays2024();
    assert DaysBeforeYear(2024) == 738885;
    assert Ordinal(Date(2024, 12, 30)) == 739250;
    assert WeekDateFrom(2024, 738886, 738522, 738886, 739250) == IsoDate(2024, 1, 1);
    assert WeekDateFrom(2024, 739250, 738522, 738886, 739250) == IsoDate(2025, 1, 1);
    assert WeekDateFrom(2024, 739251, 738522, 738886, 739250) == IsoDate(2025, 1, 2);
  }

  /** Every day of calendar year 2024 has an ISO week number between 1 and 52. */
  lemma Weeks2024(d: Day)
    requires d.year == 2024
    ensures 1 <= IsoCalendar(d).week <= 52
  {
    DayOfYear(d);
    assert DaysBeforeYear(2024) == 738885;
    Weeks2024Ordinal(Ordinal(d));
  }

  lemma Weeks2024Ordinal(today: int)
    requires 738886 <= today <= 739251
    ensures 1 <= IsoWeekDate(2024, today).week <= 52
  {
    Mondays2024();
  }
}
