/**
 * A small model of the parts of `java.time` the calendar engine relies on:
 * the proleptic Gregorian calendar (`LocalDate`), wall-clock times of day
 * (`LocalTime`), zone-less date-times (`LocalDateTime`), day-of-week, the
 * `previousOrSame` adjuster, `plusDays` and `ChronoUnit.HOURS.between`.
 *
 * Days are numbered as `LocalDate.toEpochDay` numbers them: 1970-01-01 is
 * day 0. A date-time is placed on one integer timeline counted in
 * nanoseconds (`Stamp`); there are no zones and no daylight-saving gaps.
 */
module Calendar {

  const NanosPerSecond: int := 1_000_000_000
  const NanosPerMinute: int := 60_000_000_000
  const NanosPerHour: int := 3_600_000_000_000
  const NanosPerDay: int := 86_400_000_000_000
  const NanosPerWeek: int := 604_800_000_000_000

  /** ISO day-of-week numbers, as `DayOfWeek.getValue` returns them. */
  const Monday: int := 1
  const Sunday: int := 7

  // ---- dates ----

  predicate IsLeapYear(year: int) {
    year % 4 == 0 && (year % 100 != 0 || year % 400 == 0)
  }

  function MonthLength(year: int, month: int): int
    requires 1 <= month <= 12
  {
    if month == 2 then (if IsLeapYear(year) then 29 else 28)
    else if month == 4 || month == 6 || month == 9 || month == 11 then 30
    else 31
  }

  datatype Date = Date(year: int, month: int, day: int)

  predicate IsValidDate(d: Date) {
    1 <= d.month <= 12 && 1 <= d.day <= MonthLength(d.year, d.month)
  }

  /** A calendar date that exists; `LocalDate.of` rejects every other triple. */
  type LocalDate = d: Date | IsValidDate(d) witness Date(1970, 1, 1)

  function YearLength(year: int): int {
    if IsLeapYear(year) then 366 else 365
  }

  /** Epoch-day number of 1 January of `year`: the lengths of the years in between, counted from 1970. */
  function YearStart(year: int): int
    decreases if year >= 1970 then year - 1970 else 1970 - year
  {
    if year == 1970 then 0
    else if year > 1970 then YearStart(year - 1) + YearLength(year - 1)
    else YearStart(year + 1) - YearLength(year)
  }

  /** Days of `year` that come before day 1 of `month`: the lengths of the earlier months. */
  function DaysBeforeMonth(year: int, month: int): int
    requires 1 <= month <= 12
  {
    if month == 1 then 0 else DaysBeforeMonth(year, month - 1) + MonthLength(year, month - 1)
  }

  /** The familiar cumulative table, one more from March on in a leap year. */
  lemma DaysBeforeMonthTable(year: int, month: int)
    requires 1 <= month <= 12
    ensures DaysBeforeMonth(year, month) ==
      (if month == 1 then 0 else if month == 2 then 31 else if month == 3 then 59
       else if month == 4 then 90 else if month == 5 then 120 else if month == 6 then 151
       else if month == 7 then 181 else if month == 8 then 212 else if month == 9 then 243
       else if month == 10 then 273 else if month == 11 then 304 else 334)
      + (if month > 2 && IsLeapYear(year) then 1 else 0)
  {
    if month > 1 {
      DaysBeforeMonthTable(year, month - 1);
    }
  }

  /** The months of a year fill it exactly. */
  lemma MonthsFillYear(year: int)
    ensures DaysBeforeMonth(year, 12) + MonthLength(year, 12) == YearLength(year)
  {
    DaysBeforeMonthTable(year, 12);
  }

  /** Earlier months end no later than later months begin. */
  lemma {:induction false} DaysBeforeMonthMonotone(year: int, a: int, b: int)
    requires 1 <= a < b <= 12
    ensures DaysBeforeMonth(year, a) + MonthLength(year, a) <= DaysBeforeMonth(year, b)
    decreases b - a
  {
    if a < b - 1 {
      DaysBeforeMonthMonotone(year, a, b - 1);
    }
  }

  /** A date's offset within its year is below the year's length. */
  lemma DayOfYearBound(d: LocalDate)
    ensures 0 <= DaysBeforeMonth(d.year, d.month) + d.day - 1 < YearLength(d.year)
  {
    DaysBeforeMonthTable(d.year, d.month);
  }

  /** `LocalDate.toEpochDay`. */
  function EpochDay(d: LocalDate): int {
    YearStart(d.year) + DaysBeforeMonth(d.year, d.month) + d.day - 1
  }

  /** Consecutive year starts are one year length apart, on both sides of 1970. */
  lemma YearStartStep(year: int)
    ensures YearStart(year + 1) == YearStart(year) + YearLength(year)
  {
  }

  /** Leap years among 1..year (floor division extends it below year 1). */
  function LeapYearsThrough(year: int): int {
    year / 4 - year / 100 + year / 400
  }

  lemma LeapYearsStep(year: int)
    ensures LeapYearsThrough(year) - LeapYearsThrough(year - 1) == if IsLeapYear(year) then 1 else 0
  {
    assert year / 4 - (year - 1) / 4 == if year % 4 == 0 then 1 else 0;
    assert year / 100 - (year - 1) / 100 == if year % 100 == 0 then 1 else 0;
    assert year / 400 - (year - 1) / 400 == if year % 400 == 0 then 1 else 0;
    if year % 100 == 0 {
      assert year % 4 == 0;
    }
    if year % 400 == 0 {
      assert year % 100 == 0;
    }
  }

  /**
   * The closed form of `YearStart`: 365 days a year plus one per leap year
   * passed. It lets a concrete date's day number be computed without
   * unfolding the year-by-year count.
   */
  lemma {:induction false} YearStartClosedForm(year: int)
    ensures YearStart(year) == 365 * (year - 1970) + LeapYearsThrough(year - 1) - LeapYearsThrough(1969)
    decreases if year >= 1970 then year - 1970 else 1970 - year
  {
    if year > 1970 {
      YearStartClosedForm(year - 1);
      LeapYearsStep(year - 1);
    } else if year < 1970 {
      YearStartClosedForm(year + 1);
      LeapYearsStep(year);
    }
  }

  /** Each date lies between the first day of its year and the first day of the next. */
  lemma DateWithinYear(d: LocalDate)
    ensures YearStart(d.year) <= EpochDay(d) < YearStart(d.year + 1)
  {
    YearStartStep(d.year);
    DayOfYearBound(d);
  }

  lemma {:induction false} YearStartMonotone(a: int, b: int)
    requires a <= b
    ensures YearStart(a) <= YearStart(b)
    decreases b - a
  {
    if a < b {
      YearStartStep(b - 1);
      YearStartMonotone(a, b - 1);
    }
  }

  /** The year of a date is the year whose span contains its day number. */
  lemma YearOfEpochDay(d: LocalDate, year: int)
    requires YearStart(year) <= EpochDay(d) < YearStart(year + 1)
    ensures d.year == year
  {
    DateWithinYear(d);
    if d.year < year {
      YearStartMonotone(d.year + 1, year);
    } else if d.year > year {
      YearStartMonotone(year + 1, d.year);
    }
  }

  /** The order `LocalDate.compareTo` uses: year, then month, then day. */
  predicate DateBefore(a: LocalDate, b: LocalDate) {
    a.year < b.year
    || (a.year == b.year && a.month < b.month)
    || (a.year == b.year && a.month == b.month && a.day < b.day)
  }

  lemma SameYearOrder(a: LocalDate, b: LocalDate)
    requires a.year == b.year && DateBefore(a, b)
    ensures EpochDay(a) < EpochDay(b)
  {
    if a.month < b.month {
      DaysBeforeMonthMonotone(a.year, a.month, b.month);
    }
  }

  /** Day numbers follow the calendar order. */
  lemma EpochDayOrder(a: LocalDate, b: LocalDate)
    ensures DateBefore(a, b) <==> EpochDay(a) < EpochDay(b)
  {
    if a.year < b.year {
      DateWithinYear(a);
      DateWithinYear(b);
      YearStartMonotone(a.year + 1, b.year);
    } else if b.year < a.year {
      DateWithinYear(a);
      DateWithinYear(b);
      YearStartMonotone(b.year + 1, a.year);
    } else if DateBefore(a, b) {
      SameYearOrder(a, b);
    } else if DateBefore(b, a) {
      SameYearOrder(b, a);
    }
  }

  /** Distinct dates have distinct day numbers. */
  lemma EpochDayInjective(a: LocalDate, b: LocalDate)
    requires EpochDay(a) == EpochDay(b)
    ensures a == b
  {
    EpochDayOrder(a, b);
    EpochDayOrder(b, a);
  }

  function NextDay(d: LocalDate): (r: LocalDate)
    ensures EpochDay(r) == EpochDay(d) + 1
  {
    if d.day < MonthLength(d.year, d.month) then Date(d.year, d.month, d.day + 1)
    else if d.month < 12 then Date(d.year, d.month + 1, 1)
    else YearStartStep(d.year); MonthsFillYear(d.year); Date(d.year + 1, 1, 1)
  }

  function PrevDay(d: LocalDate): (r: LocalDate)
    ensures EpochDay(r) == EpochDay(d) - 1
  {
    if d.day > 1 then Date(d.year, d.month, d.day - 1)
    else if d.month > 1 then Date(d.year, d.month - 1, MonthLength(d.year, d.month - 1))
    else YearStartStep(d.year - 1); MonthsFillYear(d.year - 1); Date(d.year - 1, 12, 31)
  }

  /**
   * `LocalDate.plusDays(n)`: Java computes `ofEpochDay(toEpochDay() + n)`;
   * with `EpochDayInjective` the contract below pins the same date.
   */
  function PlusDays(d: LocalDate, n: int): (r: LocalDate)
    ensures EpochDay(r) == EpochDay(d) + n
    decreases if n >= 0 then n else -n
  {
    if n == 0 then d
    else if n > 0 then PlusDays(NextDay(d), n - 1)
    else PlusDays(PrevDay(d), n + 1)
  }

  /** Day-of-week number of epoch day `n`: day 0, 1970-01-01, was a Thursday (4). */
  function Weekday(n: int): (w: int)
    ensures Monday <= w <= Sunday
  {
    (n + 3) % 7 + 1
  }

  /** `LocalDate.getDayOfWeek().getValue()`. */
  function DayOfWeek(d: LocalDate): (w: int)
    ensures Monday <= w <= Sunday
  {
    Weekday(EpochDay(d))
  }

  /** Two days on the same weekday lie a whole number of weeks apart. */
  lemma SameWeekdayGap(a: int, b: int)
    requires Weekday(a) == Weekday(b)
    ensures (b - a) % 7 == 0
  {
    var qa, qb := (a + 3) / 7, (b + 3) / 7;
    assert a + 3 == 7 * qa + (a + 3) % 7;
    assert b + 3 == 7 * qb + (b + 3) % 7;
    assert b - a == 7 * (qb - qa);
  }

  /**
   * `TemporalAdjusters.previousOrSame(dow)`: the same date when it already falls
   * on `dow`, otherwise step back `calDow - dow` days, wrapping by a week.
   */
  function PreviousOrSame(d: LocalDate, dow: int): (r: LocalDate)
    requires Monday <= dow <= Sunday
    ensures DayOfWeek(r) == dow
    ensures EpochDay(d) - 6 <= EpochDay(r) <= EpochDay(d)
  {
    var calDow := DayOfWeek(d);
    if calDow == dow then d
    else
      var daysDiff := calDow - dow;
      var back := if daysDiff >= 0 then daysDiff else daysDiff + 7;
      WeekdayStepBack(EpochDay(d), dow);
      PlusDays(d, -back)
  }

  /** Stepping back from weekday `n % 7 + 1` as `previousOrSame` does lands on `dow`. */
  lemma WeekdayStepBack(n: int, dow: int)
    requires Monday <= dow <= Sunday
    ensures var diff := Weekday(n) - dow;
            Weekday(n - (if diff >= 0 then diff else diff + 7)) == dow
  {
  }

  /** Two day numbers less than a week apart fall on different weekdays. */
  lemma WeekdaysWithinAWeek(a: int, b: int)
    requires a < b < a + 7
    ensures Weekday(a) != Weekday(b)
  {
  }

  /** No later date on or before `d` falls on `dow`. */
  lemma PreviousOrSameIsLatest(d: LocalDate, dow: int, e: LocalDate)
    requires Monday <= dow <= Sunday
    requires DayOfWeek(e) == dow && EpochDay(e) <= EpochDay(d)
    ensures EpochDay(e) <= EpochDay(PreviousOrSame(d, dow))
  {
    var r := PreviousOrSame(d, dow);
    if EpochDay(e) > EpochDay(r) {
      WeekdaysWithinAWeek(EpochDay(r), EpochDay(e));
    }
  }

  // ---- times of day and date-times ----

  datatype Time = LocalTime(hour: int, minute: int, second: int, nano: int)

  predicate IsValidTime(t: Time) {
    0 <= t.hour < 24 && 0 <= t.minute < 60 && 0 <= t.second < 60 && 0 <= t.nano < NanosPerSecond
  }

  type LocalTime = t: Time | IsValidTime(t) witness LocalTime(0, 0, 0, 0)

  /** `LocalTime.toNanoOfDay`. */
  function NanoOfDay(t: LocalTime): (n: int)
    ensures 0 <= n < NanosPerDay
  {
    ((t.hour * 60 + t.minute) * 60 + t.second) * NanosPerSecond + t.nano
  }

  datatype LocalDateTime = LocalDateTime(date: LocalDate, time: LocalTime)

  /** Position of a date-time on the nanosecond timeline. */
  function Stamp(t: LocalDateTime): int {
    EpochDay(t.date) * NanosPerDay + NanoOfDay(t.time)
  }

  /** `LocalDateTime.isBefore`: compare dates first, then times of day. */
  predicate IsBefore(a: LocalDateTime, b: LocalDateTime) {
    DateBefore(a.date, b.date) || (a.date == b.date && NanoOfDay(a.time) < NanoOfDay(b.time))
  }

  /** `isBefore` is exactly the order of the timeline. */
  lemma IsBeforeIsTimelineOrder(a: LocalDateTime, b: LocalDateTime)
    ensures IsBefore(a, b) <==> Stamp(a) < Stamp(b)
  {
    EpochDayOrder(a.date, b.date);
    if EpochDay(a.date) == EpochDay(b.date) {
      EpochDayInjective(a.date, b.date);
    }
  }

  /** `LocalDateTime.plusDays`: the date moves, the time of day stays. */
  function PlusDaysAt(t: LocalDateTime, n: int): (r: LocalDateTime)
    ensures r.time == t.time
    ensures Stamp(r) == Stamp(t) + n * NanosPerDay
  {
    LocalDateTime(PlusDays(t.date, n), t.time)
  }

  /** Integer division truncating toward zero, as Java's `/` on `long` does. */
  function JavaDiv(x: int, k: int): int
    requires k > 0
  {
    if x >= 0 then x / k else -((-x) / k)
  }

  /**
   * `ChronoUnit.HOURS.between(a, b)`: the whole hours from `a` to `b`,
   * truncated toward zero (negative when `b` is before `a`).
   */
  function HoursBetween(a: LocalDateTime, b: LocalDateTime): (h: int)
    ensures Stamp(a) <= Stamp(b) ==> h >= 0 && Stamp(a) + h * NanosPerHour <= Stamp(b) < Stamp(a) + (h + 1) * NanosPerHour
    ensures Stamp(b) < Stamp(a) ==> h <= 0 && Stamp(b) <= Stamp(a) + h * NanosPerHour < Stamp(b) + NanosPerHour
  {
    JavaDiv(Stamp(b) - Stamp(a), NanosPerHour)
  }
}
