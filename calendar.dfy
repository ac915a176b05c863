/** Whole-day dates of the proleptic Gregorian calendar: day numbers (day 1 is
    1 January of year 1, as in Python's `date.toordinal`), weekdays counted
    from Monday = 0, the Monday that starts a date's week, and ISO 8601 week
    dates (section 4.1.4 of ISO 8601:2004) computed as Python's
    `date.isocalendar` computes them, with which pandas'
    `Series.dt.isocalendar` agrees. */
module Calendar {

  datatype CivilDate = CivilDate(year: int, month: int, day: int)

  predicate IsLeapYear(y: int) {
    y % 4 == 0 && (y % 100 != 0 || y % 400 == 0)
  }

  function YearLength(y: int): int {
    if IsLeapYear(y) then 366 else 365
  }

  function DaysInMonth(y: int, m: int): int
    requires 1 <= m <= 12
  {
    if m == 2 then (if IsLeapYear(y) then 29 else 28)
    else if m == 4 || m == 6 || m == 9 || m == 11 then 30
    else 31
  }

  predicate ValidDate(d: CivilDate) {
    1 <= d.month <= 12 && 1 <= d.day <= DaysInMonth(d.year, d.month)
  }

  /** A calendar date that exists. */
  type Date = d: CivilDate | ValidDate(d) witness CivilDate(1970, 1, 1)

  /** Lexicographic order on (year, month, day): the calendar's own order. */
  predicate Before(a: Date, b: Date) {
    a.year < b.year
    || (a.year == b.year && (a.month < b.month || (a.month == b.month && a.day < b.day)))
  }

  /** Days in the years 1 .. y-1 (negative for years before 1). */
  function DaysBeforeYear(y: int): int {
    var p := y - 1;
    365 * p + p / 4 - p / 100 + p / 400
  }

  /** Days in the months of year y before month m. */
  function DaysBeforeMonth(y: int, m: int): int
    requires 1 <= m <= 12
  {
    var leap := if IsLeapYear(y) then 1 else 0;
    if m == 1 then 0
    else if m == 2 then 31
    else if m == 3 then 59 + leap
    else if m == 4 then 90 + leap
    else if m == 5 then 120 + leap
    else if m == 6 then 151 + leap
    else if m == 7 then 181 + leap
    else if m == 8 then 212 + leap
    else if m == 9 then 243 + leap
    else if m == 10 then 273 + leap
    else if m == 11 then 304 + leap
    else 334 + leap
  }

  /** The proleptic Gregorian ordinal of a date. */
  function DayNumber(d: Date): int {
    DaysBeforeYear(d.year) + DaysBeforeMonth(d.year, d.month) + d.day
  }

  lemma DaysBeforeYearStep(y: int)
    ensures DaysBeforeYear(y + 1) == DaysBeforeYear(y) + YearLength(y)
  {
    LeapCounts(y);
  }

  /** Stepping from year y - 1 to y adds one to the count of multiples of 4,
      100 and 400 exactly when y is one; multiples of 400 are multiples of
      100, which are multiples of 4. */
  lemma LeapCounts(y: int)
    ensures y / 4 == (y - 1) / 4 + (if y % 4 == 0 then 1 else 0)
    ensures y / 100 == (y - 1) / 100 + (if y % 100 == 0 then 1 else 0)
    ensures y / 400 == (y - 1) / 400 + (if y % 400 == 0 then 1 else 0)
    ensures y % 400 == 0 ==> y % 100 == 0
    ensures y % 100 == 0 ==> y % 4 == 0
  {
  }

  lemma DaysBeforeYearMonotone(a: int, b: int)
    requires a < b
    ensures DaysBeforeYear(a) + YearLength(a) <= DaysBeforeYear(b)
    decreases b - a
  {
    DaysBeforeYearStep(a);
    if a + 1 < b {
      DaysBeforeYearMonotone(a + 1, b);
    }
  }

  lemma DaysBeforeMonthMonotone(y: int, a: int, b: int)
    requires 1 <= a < b <= 12
    ensures DaysBeforeMonth(y, a) + DaysInMonth(y, a) <= DaysBeforeMonth(y, b)
  {
  }

  /** A date's day number lies within the day numbers of its year. */
  lemma DayNumberWithinYear(d: Date)
    ensures DaysBeforeYear(d.year) < DayNumber(d) <= DaysBeforeYear(d.year) + YearLength(d.year)
  {
  }

  /** Day numbers follow the calendar order, so they also tell dates apart. */
  lemma DayNumberOrder(a: Date, b: Date)
    ensures DayNumber(a) < DayNumber(b) <==> Before(a, b)
    ensures DayNumber(a) == DayNumber(b) <==> a == b
  {
    if Before(a, b) {
      BeforeDayNumber(a, b);
    }
    if Before(b, a) {
      BeforeDayNumber(b, a);
    }
  }

  /** An earlier date has a smaller day number. */
  lemma BeforeDayNumber(x: Date, z: Date)
    requires Before(x, z)
    ensures DayNumber(x) < DayNumber(z)
  {
    DayNumberWithinYear(x);
    DayNumberWithinYear(z);
    if x.year < z.year {
      DaysBeforeYearMonotone(x.year, z.year);
    } else if x.month < z.month {
      DaysBeforeMonthMonotone(x.year, x.month, z.month);
    }
  }

  /** Dates with the same day number are the same date. */
  lemma DayNumberInjective(a: Date, b: Date)
    requires DayNumber(a) == DayNumber(b)
    ensures a == b
  {
    DayNumberOrder(a, b);
  }

  /** The number of whole days from `a` to `b` (negative when b is earlier). */
  function DaysBetween(a: Date, b: Date): (n: int)
    ensures n == 0 <==> a == b
    ensures n > 0 <==> Before(a, b)
    ensures n >= 0 ==> DaysEarlier(b, n) == a
    ensures n <= 0 ==> DaysEarlier(a, -n) == b
  {
    DayNumberOrder(a, b);
    if DayNumber(a) < DayNumber(b) then
      DaysBetweenSteps(a, b);
      DayNumber(b) - DayNumber(a)
    else if DayNumber(b) < DayNumber(a) then
      DaysBetweenSteps(b, a);
      DayNumber(b) - DayNumber(a)
    else
      DaysBetweenSteps(a, b);
      DaysBetweenSteps(b, a);
      0
  }

  /** Stepping back the day-number difference from a later date b reaches a. */
  lemma DaysBetweenSteps(a: Date, b: Date)
    requires DayNumber(a) <= DayNumber(b)
    ensures DaysEarlier(b, DayNumber(b) - DayNumber(a)) == a
  {
    DaysEarlierReaches(b, DayNumber(b) - DayNumber(a), a);
  }

  /** Stepping k days back from d reaches the date whose day number is k less. */
  lemma DaysEarlierReaches(d: Date, k: nat, e: Date)
    requires DayNumber(e) == DayNumber(d) - k
    ensures DaysEarlier(d, k) == e
  {
    DayNumberInjective(DaysEarlier(d, k), e);
  }

  function PrevDay(d: Date): (r: Date)
    ensures DayNumber(r) == DayNumber(d) - 1
  {
    if d.day > 1 then CivilDate(d.year, d.month, d.day - 1)
    else if d.month > 1 then CivilDate(d.year, d.month - 1, DaysInMonth(d.year, d.month - 1))
    else
      DaysBeforeYearStep(d.year - 1);
      CivilDate(d.year - 1, 12, 31)
  }

  /** The date k days before d. */
  function DaysEarlier(d: Date, k: nat): (r: Date)
    ensures DayNumber(r) == DayNumber(d) - k
    decreases k
  {
    if k == 0 then d else DaysEarlier(PrevDay(d), k - 1)
  }

  /** Day of the week, Monday = 0 .. Sunday = 6 (1 January of year 1 was a Monday). */
  function Weekday(d: Date): int {
    WeekdayOfOrdinal(DayNumber(d))
  }

  function WeekdayOfOrdinal(n: int): int {
    (n + 6) % 7
  }

  /** Stepping back from n by its weekday offset lands on a Monday. */
  lemma MondayAlign(n: int, k: int)
    ensures (n - (n + 6) % 7 + 7 * k + 6) % 7 == 0
  {
  }

  /** The Monday that starts the week of d: the start time of d's weekly
      period (weeks running Monday to Sunday). */
  function WeekStart(d: Date): (r: Date)
    ensures Weekday(r) == 0
    ensures DayNumber(r) <= DayNumber(d) <= DayNumber(r) + 6
    ensures DayNumber(d) - DayNumber(r) == Weekday(d)
  {
    MondayAlign(DayNumber(d), 0);
    DaysEarlier(d, Weekday(d))
  }

  /** Two Mondays less than a week apart are the same day. */
  lemma MondaysApart(a: int, b: int)
    requires (a + 6) % 7 == 0 && (b + 6) % 7 == 0
    requires -7 < b - a < 7
    ensures a == b
  {
  }

  lemma SameMonday(m: Date, s: Date, d: Date)
    requires Weekday(m) == 0 && Weekday(s) == 0
    requires DayNumber(m) <= DayNumber(d) <= DayNumber(m) + 6
    requires DayNumber(s) <= DayNumber(d) <= DayNumber(s) + 6
    ensures DayNumber(m) == DayNumber(s)
  {
    MondaysApart(DayNumber(m), DayNumber(s));
  }

  /** The Monday of a week is unique: any Monday at most six days before d is WeekStart(d). */
  lemma WeekStartUnique(d: Date, m: Date)
    requires Weekday(m) == 0
    requires DayNumber(m) <= DayNumber(d) <= DayNumber(m) + 6
    ensures m == WeekStart(d)
  {
    var s := WeekStart(d);
    SameMonday(m, s, d);
    DayNumberInjective(m, s);
  }

  /** Day number of the Monday of ISO week 1 of year y. */
  function IsoWeekOneMonday(y: int): (n: int)
    ensures (n + 6) % 7 == 0
    ensures n <= DayNumber(CivilDate(y, 1, 4)) <= n + 6
  {
    var jan1 := DayNumber(CivilDate(y, 1, 1));
    var wd := (jan1 + 6) % 7;
    MondayAlign(jan1, 0);
    MondayAlign(jan1, 1);
    if wd > 3 then jan1 - wd + 7 else jan1 - wd
  }

  /** The ISO calendar of a date: ISO year, week number (1-based) and
      weekday (Monday = 1). */
  datatype IsoDate = IsoDate(isoYear: int, week: int, weekday: int)

  function IsoCalendar(d: Date): (iso: IsoDate)
    ensures IsWeekDateOf(iso, d)
  {
    DayNumberWithinYear(d);
    IsoCalendarOfOrdinalIsWeekDate(d.year, DayNumber(d));
    IsoCalendarOfOrdinal(d.year, DayNumber(d))
  }

  /** The ISO week date of the day numbered `today` in calendar year y: count
      whole weeks from the Monday of this year's week 1; before that Monday the
      day belongs to the previous ISO year; from week 53 on, it belongs to the
      next ISO year once that year's week 1 has begun. */
  function IsoCalendarOfOrdinal(y: int, today: int): IsoDate {
    IsoWeekDate(y, today, IsoWeekOneMonday(y - 1), IsoWeekOneMonday(y), IsoWeekOneMonday(y + 1))
  }

  /** The ISO week date of day `today` of calendar year y, given the Mondays of
      week 1 of years y-1, y and y+1. */
  function IsoWeekDate(y: int, today: int, monday0: int, monday1: int, monday2: int): IsoDate {
    var week := (today - monday1) / 7;
    var day := (today - monday1) % 7;
    if week < 0 then
      IsoDate(y - 1, (today - monday0) / 7 + 1, (today - monday0) % 7 + 1)
    else if week >= 52 && today >= monday2 then
      IsoDate(y + 1, 1, day + 1)
    else
      IsoDate(y, week + 1, day + 1)
  }

  lemma IsoWeekOneMondayNearNewYear(y: int)
    ensures DaysBeforeYear(y) - 2 <= IsoWeekOneMonday(y) <= DaysBeforeYear(y) + 4
  {
  }

  /** Two Mondays 359 to 372 days apart are exactly 52 or 53 weeks apart. */
  lemma MondaysYearApart(a: int, b: int)
    requires (a + 6) % 7 == 0 && (b + 6) % 7 == 0
    requires 359 <= b - a <= 372
    ensures b - a == 364 || b - a == 371
  {
  }

  /** Consecutive ISO years are 52 or 53 weeks long. */
  lemma IsoYearLength(y: int)
    ensures IsoWeekOneMonday(y + 1) - IsoWeekOneMonday(y) == 364
         || IsoWeekOneMonday(y + 1) - IsoWeekOneMonday(y) == 371
  {
    DaysBeforeYearStep(y);
    IsoWeekOneMondayNearNewYear(y);
    IsoWeekOneMondayNearNewYear(y + 1);
    MondaysYearApart(IsoWeekOneMonday(y), IsoWeekOneMonday(y + 1));
  }

  /** A day at most 53 weeks after the Monday m is some whole weeks and a weekday after m. */
  lemma WeeksAfterMonday(t: int, m: int, next: int)
    requires (m + 6) % 7 == 0
    requires m <= t < next <= m + 371
    ensures 0 <= (t - m) / 7 <= 52
    ensures 0 <= (t - m) % 7 < 7
    ensures t == m + 7 * ((t - m) / 7) + (t - m) % 7
    ensures (t - m) % 7 == (t + 6) % 7
  {
  }

  /** The offset of t from a Monday m, modulo 7, is t's weekday. */
  lemma OffsetFromMonday(t: int, m: int)
    requires (m + 6) % 7 == 0
    ensures (t - m) % 7 == (t + 6) % 7
  {
  }

  lemma WholeWeeks(t: int)
    ensures t / 7 < 0 <==> t < 0
    ensures t / 7 >= 52 <==> t >= 364
  {
  }

  /** `iso` places day t in the ISO year whose week 1 starts on Monday `start`
      when the next ISO year's week 1 starts on `next`: t lies between them,
      `week` counts whole weeks from `start` and `weekday` is t's weekday
      counted from Monday = 1. */
  predicate FitsIsoYear(iso: IsoDate, t: int, start: int, next: int) {
    && 1 <= iso.week <= 53
    && 1 <= iso.weekday <= 7
    && iso.weekday == WeekdayOfOrdinal(t) + 1
    && start <= t < next
    && t == start + 7 * (iso.week - 1) + (iso.weekday - 1)
  }

  /** `iso` is the ISO 8601 week date of the day numbered t in calendar year y:
      its ISO year is y-1, y or y+1, and it fits that ISO year. */
  predicate IsWeekDateOfOrdinal(iso: IsoDate, y: int, t: int) {
    && y - 1 <= iso.isoYear <= y + 1
    && (iso.isoYear == y - 1 ==> FitsIsoYear(iso, t, IsoWeekOneMonday(y - 1), IsoWeekOneMonday(y)))
    && (iso.isoYear == y ==> FitsIsoYear(iso, t, IsoWeekOneMonday(y), IsoWeekOneMonday(y + 1)))
    && (iso.isoYear == y + 1 ==> FitsIsoYear(iso, t, IsoWeekOneMonday(y + 1), IsoWeekOneMonday(y + 2)))
  }

  predicate IsWeekDateOf(iso: IsoDate, d: Date) {
    IsWeekDateOfOrdinal(iso, d.year, DayNumber(d))
  }

  /** The week-date computation on plain integers, for Mondays m0 .. m3 of
      week 1 of four consecutive years: the result lies between the Mondays of
      its ISO year and the next, and counts whole weeks from the first. */
  lemma {:induction false} IsoWeekDateCorrect(y: int, t: int, m0: int, m1: int, m2: int, m3: int)
    requires (m0 + 6) % 7 == 0 && (m1 + 6) % 7 == 0 && (m2 + 6) % 7 == 0
    requires m0 + 364 <= m1 <= m0 + 371 && m1 + 364 <= m2 <= m1 + 371 && m2 + 364 <= m3
    requires m1 - 3 <= t <= m2 + 2
    ensures var iso := IsoWeekDate(y, t, m0, m1, m2);
      && y - 1 <= iso.isoYear <= y + 1
      && (iso.isoYear == y - 1 ==> FitsIsoYear(iso, t, m0, m1))
      && (iso.isoYear == y ==> FitsIsoYear(iso, t, m1, m2))
      && (iso.isoYear == y + 1 ==> FitsIsoYear(iso, t, m2, m3))
  {
    WholeWeeks(t - m1);
    if t < m1 {
      WeeksAfterMonday(t, m0, m1);
    } else if t - m1 >= 364 && t >= m2 {
      OffsetFromMonday(t, m1);
      WeeksAfterMonday(t, m2, m2 + 7);
    } else {
      WeeksAfterMonday(t, m1, m2);
    }
  }

  /** A day of calendar year y lies at most three days before ISO year y starts and at most two days after it ends. */
  lemma DayNearIsoYear(y: int, t: int)
    requires DaysBeforeYear(y) < t <= DaysBeforeYear(y) + YearLength(y)
    ensures IsoWeekOneMonday(y) - 3 <= t <= IsoWeekOneMonday(y + 1) + 2
  {
    DaysBeforeYearStep(y);
    IsoWeekOneMondayNearNewYear(y);
    IsoWeekOneMondayNearNewYear(y + 1);
  }

  lemma IsoYearWeeks(y: int)
    ensures IsoWeekOneMonday(y) + 364 <= IsoWeekOneMonday(y + 1) <= IsoWeekOneMonday(y) + 371
  {
    IsoYearLength(y);
  }

  /** IsoCalendarOfOrdinal computes the ISO 8601 week date of every day of year y. */
  lemma IsoCalendarOfOrdinalIsWeekDate(y: int, t: int)
    requires DaysBeforeYear(y) < t <= DaysBeforeYear(y) + YearLength(y)
    ensures IsWeekDateOfOrdinal(IsoCalendarOfOrdinal(y, t), y, t)
  {
    var m0, m1, m2, m3 := IsoWeekOneMonday(y - 1), IsoWeekOneMonday(y), IsoWeekOneMonday(y + 1), IsoWeekOneMonday(y + 2);
    DayNearIsoYear(y, t);
    IsoYearWeeks(y - 1);
    IsoYearWeeks(y);
    IsoYearWeeks(y + 1);
    IsoWeekDateCorrect(y, t, m0, m1, m2, m3);
  }

  /** ISO week numbers run from 1 to 53. */
  lemma IsoWeekRange(d: Date)
    ensures 1 <= IsoCalendar(d).week <= 53
  {
  }
}
