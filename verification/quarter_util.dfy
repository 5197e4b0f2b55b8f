/**
 * The quarter/week calendar engine of `QuarterUtil`.
 *
 * A business quarter (y, q) runs over the half-open interval
 * [Anchor(y, q), Anchor(next(y, q))), where the anchor is 18:00 on the Monday
 * on or before the first day of the calendar quarter. Weeks are counted in
 * 168-hour steps from the anchor, starting at 1. The year of a week record is
 * the calendar year of the anchor, so a first quarter whose anchor falls in
 * December is reported under the previous year.
 */
module QuarterUtil {
  import opened Calendar

  /** `QuarterUtil.YQWRecord`. */
  datatype YQWRecord = YQWRecord(yearValue: int, quarterValue: int, weekValue: int)

  /** `QuarterUtil.AnchorInfo`. */
  datatype AnchorInfo = AnchorInfo(year: int, quarter: int, anchorStart: LocalDateTime)

  /** A (year, quarter) pair; only quarters 1..4 occur. */
  datatype YearQuarter = YearQuarter(year: int, quarter: int)

  predicate IsQuarter(q: int) {
    1 <= q <= 4
  }

  type Quarter = yq: YearQuarter | IsQuarter(yq.quarter) witness YearQuarter(1970, 1)

  /** Position of a quarter in the sequence of all quarters. */
  function Ordinal(yq: Quarter): int {
    4 * yq.year + yq.quarter - 1
  }

  /** Distinct quarters have distinct positions. */
  lemma OrdinalInjective(a: Quarter, b: Quarter)
    requires Ordinal(a) == Ordinal(b)
    ensures a == b
  {
  }

  /** The quarter after `yq`: Q4 wraps to Q1 of the next year. */
  function Next(yq: Quarter): (r: Quarter)
    ensures Ordinal(r) == Ordinal(yq) + 1
  {
    if yq.quarter == 4 then YearQuarter(yq.year + 1, 1) else YearQuarter(yq.year, yq.quarter + 1)
  }

  /** The quarter before `yq`: Q1 wraps to Q4 of the previous year. */
  function Prev(yq: Quarter): (r: Quarter)
    ensures Ordinal(r) == Ordinal(yq) - 1
    ensures Next(r) == yq
  {
    if yq.quarter == 1 then YearQuarter(yq.year - 1, 4) else YearQuarter(yq.year, yq.quarter - 1)
  }

  // ---- helpers ----

  /** `calendarQuarter`: months 1-3, 4-6, 7-9, 10-12 map to quarters 1, 2, 3, 4. */
  function CalendarQuarter(month: int): (q: int)
    requires 1 <= month <= 12
    ensures IsQuarter(q)
    ensures FirstMonth(q) <= month < FirstMonth(q) + 3
  {
    (month - 1) / 3 + 1
  }

  /** Months 1, 4, 7, 10. */
  function FirstMonth(q: int): int {
    (q - 1) * 3 + 1
  }

  /** `firstDayOfQuarter`: day 1 of the quarter's first month. */
  function FirstDayOfQuarter(yq: Quarter): (d: LocalDate)
  {
    Date(yq.year, FirstMonth(yq.quarter), 1)
  }

  /**
   * The first day of a quarter is day 1 of month 1, 4, 7 or 10 of its year:
   * its month belongs to the quarter and no month of the quarter comes before it.
   */
  lemma FirstDayInItsQuarter(yq: Quarter)
    ensures var d := FirstDayOfQuarter(yq);
            && d.year == yq.year && d.day == 1
            && d.month == 3 * yq.quarter - 2
            && CalendarQuarter(d.month) == yq.quarter
            && forall m :: 1 <= m <= 12 && CalendarQuarter(m) == yq.quarter ==> d.month <= m
  {
  }

  /** Day number of the quarter's first day. */
  function FirstDayNumber(yq: Quarter): int {
    YearStart(yq.year) + DaysBeforeMonth(yq.year, FirstMonth(yq.quarter))
  }

  /** Day number of the quarter's anchor: back from the first day to the Monday on or before it. */
  function AnchorDay(yq: Quarter): (n: int)
    ensures Weekday(n) == Monday
    ensures FirstDayNumber(yq) - 6 <= n <= FirstDayNumber(yq)
  {
    var first := FirstDayNumber(yq);
    MondayOnOrBefore(first);
    first - (Weekday(first) - Monday)
  }

  lemma MondayOnOrBefore(n: int)
    ensures Weekday(n - (Weekday(n) - Monday)) == Monday
  {
  }

  /** The anchor's time of day, `LocalTime.of(18, 0)`. */
  const AnchorTime: LocalTime := LocalTime(18, 0, 0, 0)

  /** Position of a quarter's anchor on the timeline. */
  function AnchorStamp(yq: Quarter): int {
    AnchorDay(yq) * NanosPerDay + 18 * NanosPerHour
  }

  /** `anchorForQuarter`: 18:00 on the Monday on or before the quarter's first day. */
  function AnchorForQuarter(yq: Quarter): (a: LocalDateTime)
    ensures DayOfWeek(a.date) == Monday && a.time == AnchorTime
    ensures EpochDay(a.date) == AnchorDay(yq)
    ensures Stamp(a) == AnchorStamp(yq)
  {
    var first := FirstDayOfQuarter(yq);
    assert EpochDay(first) == FirstDayNumber(yq);
    LocalDateTime(PreviousOrSame(first, Monday), AnchorTime)
  }

  /** No Monday after the anchor is on or before the quarter's first day. */
  lemma AnchorIsLatestMonday(yq: Quarter, d: LocalDate)
    requires DayOfWeek(d) == Monday && EpochDay(d) <= FirstDayNumber(yq)
    ensures EpochDay(d) <= EpochDay(AnchorForQuarter(yq).date)
  {
    if EpochDay(d) > AnchorDay(yq) {
      WeekdaysWithinAWeek(AnchorDay(yq), EpochDay(d));
    }
  }

  /** A quarter has 90 to 92 days. */
  lemma QuarterLength(yq: Quarter)
    ensures 90 <= FirstDayNumber(Next(yq)) - FirstDayNumber(yq) <= 92
  {
    var y := yq.year;
    var m := FirstMonth(yq.quarter);
    DaysBeforeMonthTable(y, m);
    if yq.quarter == 4 {
      YearStartStep(y);
      DaysBeforeMonthTable(y + 1, 1);
    } else {
      DaysBeforeMonthTable(y, m + 3);
    }
  }

  /** Every date lies in its calendar quarter: on or after its first day, before the next one's. */
  lemma DateInCalendarQuarter(d: LocalDate)
    ensures var yq := YearQuarter(d.year, CalendarQuarter(d.month));
            FirstDayNumber(yq) <= EpochDay(d) < FirstDayNumber(Next(yq))
  {
    var yq := YearQuarter(d.year, CalendarQuarter(d.month));
    QuarterStartsBefore(d, yq);
    if yq.quarter == 4 {
      DateWithinYear(d);
      assert FirstDayNumber(Next(yq)) == YearStart(d.year + 1);
    } else {
      QuarterEndsAfter(d, yq);
    }
  }

  /** A date's calendar quarter starts no later than the date. */
  lemma QuarterStartsBefore(d: LocalDate, yq: Quarter)
    requires yq == YearQuarter(d.year, CalendarQuarter(d.month))
    ensures FirstDayNumber(yq) <= EpochDay(d)
  {
    var m := FirstMonth(yq.quarter);
    if m < d.month {
      DaysBeforeMonthMonotone(d.year, m, d.month);
    }
  }

  /** In quarters 1 to 3, a date comes before the first day of the quarter's fourth month. */
  lemma QuarterEndsAfter(d: LocalDate, yq: Quarter)
    requires yq == YearQuarter(d.year, CalendarQuarter(d.month)) && yq.quarter < 4
    ensures EpochDay(d) < FirstDayNumber(Next(yq))
  {
    var m := FirstMonth(yq.quarter);
    assert Next(yq) == YearQuarter(d.year, yq.quarter + 1);
    assert FirstMonth(yq.quarter + 1) == m + 3;
    DaysBeforeMonthMonotone(d.year, d.month, m + 3);
  }

  /** Consecutive anchors are 12, 13 or 14 weeks apart. */
  lemma AnchorGap(yq: Quarter)
    ensures var gap := AnchorDay(Next(yq)) - AnchorDay(yq);
            gap == 84 || gap == 91 || gap == 98
  {
    QuarterLength(yq);
    WholeWeeks(AnchorDay(yq), AnchorDay(Next(yq)));
  }

  lemma WholeWeeks(a: int, b: int)
    requires Weekday(a) == Weekday(b) && 84 <= b - a <= 98
    ensures b - a == 84 || b - a == 91 || b - a == 98
  {
    SameWeekdayGap(a, b);
  }

  /** Anchors strictly increase along the sequence of quarters. */
  lemma {:induction false} AnchorsIncrease(a: Quarter, b: Quarter)
    requires Ordinal(a) < Ordinal(b)
    ensures AnchorDay(a) < AnchorDay(b)
    decreases Ordinal(b) - Ordinal(a)
  {
    var p := Prev(b);
    AnchorGap(p);
    if Ordinal(a) < Ordinal(p) {
      AnchorsIncrease(a, p);
    } else {
      OrdinalInjective(a, p);
    }
  }

  /** A date-time lies within its own day. */
  lemma StampWithinDay(t: LocalDateTime)
    ensures EpochDay(t.date) * NanosPerDay <= Stamp(t) < EpochDay(t.date) * NanosPerDay + NanosPerDay
  {
  }

  /** The business quarter whose interval contains `t`. */
  predicate InBusinessQuarter(t: LocalDateTime, yq: Quarter) {
    AnchorStamp(yq) <= Stamp(t) < AnchorStamp(Next(yq))
  }

  /** The intervals of distinct quarters never overlap. */
  lemma BusinessQuarterUnique(t: LocalDateTime, a: Quarter, b: Quarter)
    requires InBusinessQuarter(t, a) && InBusinessQuarter(t, b)
    ensures a == b
  {
    if a != b {
      var lo, hi := a, b;
      if Ordinal(b) < Ordinal(a) {
        lo, hi := b, a;
      }
      if Ordinal(lo) == Ordinal(hi) {
        OrdinalInjective(lo, hi);
      }
      // Next(lo) comes no later than hi, so its anchor is no later than hi's.
      if Ordinal(Next(lo)) < Ordinal(hi) {
        AnchorsIncrease(Next(lo), hi);
      } else {
        OrdinalInjective(Next(lo), hi);
      }
      AnchorStampMonotone(Next(lo), hi);
    }
  }

  lemma AnchorStampMonotone(a: Quarter, b: Quarter)
    requires AnchorDay(a) <= AnchorDay(b)
    ensures AnchorStamp(a) <= AnchorStamp(b)
  {
  }

  /** The quarter an `AnchorInfo` names. */
  function QuarterOf(ai: AnchorInfo): YearQuarter {
    YearQuarter(ai.year, ai.quarter)
  }

  /** The calendar quarter of a date-time: `resolveAnchor`'s first guess. */
  function SeedQuarter(time: LocalDateTime): Quarter {
    YearQuarter(time.date.year, CalendarQuarter(time.date.month))
  }

  /**
   * `resolveAnchor`: seed with the calendar quarter of `time`, then correct by
   * one quarter back (before the seed's anchor) or forward (at or after the
   * next anchor).
   */
  function ResolveAnchor(time: LocalDateTime): (ai: AnchorInfo)
    ensures IsQuarter(ai.quarter)
    ensures ai.anchorStart == AnchorForQuarter(QuarterOf(ai))
    ensures InBusinessQuarter(time, QuarterOf(ai))
    ensures var seed := SeedQuarter(time);
            || (QuarterOf(ai) == seed)
            || (QuarterOf(ai) == Prev(seed) && Stamp(time) < AnchorStamp(seed))
            || (QuarterOf(ai) == Next(seed) && AnchorStamp(Next(seed)) <= Stamp(time))
  {
    var seed := SeedQuarter(time);
    var currAnchor := AnchorForQuarter(seed);
    var next := Next(seed);
    var nextAnchor := AnchorForQuarter(next);
    ResolveFacts(time);
    if IsBefore(time, currAnchor) then
      var prev := Prev(seed);
      AnchorInfo(prev.year, prev.quarter, AnchorForQuarter(prev))
    else if IsBefore(time, nextAnchor) then
      AnchorInfo(seed.year, seed.quarter, currAnchor)
    else
      AnchorInfo(next.year, next.quarter, nextAnchor)
  }

  /** The seed's neighbours bracket `time`: the previous anchor is before it, the one after next is after it. */
  lemma SeedNeighbours(time: LocalDateTime)
    ensures AnchorStamp(Prev(SeedQuarter(time))) <= Stamp(time)
    ensures Stamp(time) < AnchorStamp(Next(Next(SeedQuarter(time))))
  {
    var seed := SeedQuarter(time);
    DateInCalendarQuarter(time.date);
    QuarterLength(Prev(seed));
    QuarterLength(Next(seed));
    StampWithinDay(time);
  }

  /** The facts `ResolveAnchor` needs about the seed quarter of `time`. */
  lemma ResolveFacts(time: LocalDateTime)
    ensures IsBefore(time, AnchorForQuarter(SeedQuarter(time))) <==> Stamp(time) < AnchorStamp(SeedQuarter(time))
    ensures IsBefore(time, AnchorForQuarter(Next(SeedQuarter(time)))) <==> Stamp(time) < AnchorStamp(Next(SeedQuarter(time)))
    ensures AnchorStamp(Prev(SeedQuarter(time))) <= Stamp(time)
    ensures Stamp(time) < AnchorStamp(Next(Next(SeedQuarter(time))))
  {
    IsBeforeIsTimelineOrder(time, AnchorForQuarter(SeedQuarter(time)));
    IsBeforeIsTimelineOrder(time, AnchorForQuarter(Next(SeedQuarter(time))));
    SeedNeighbours(time);
  }

  /** Resolution is exact: `t` resolves to a quarter if and only if that quarter's interval holds `t`. */
  lemma ResolveAnchorExact(t: LocalDateTime, yq: Quarter)
    ensures QuarterOf(ResolveAnchor(t)) == yq <==> InBusinessQuarter(t, yq)
  {
    var ai := ResolveAnchor(t);
    if InBusinessQuarter(t, yq) {
      BusinessQuarterUnique(t, QuarterOf(ai), yq);
    }
  }

  /** An anchor instant opens its own quarter, even when it falls in the previous calendar quarter. */
  lemma AnchorResolvesToItself(yq: Quarter)
    ensures ResolveAnchor(AnchorForQuarter(yq)) == AnchorInfo(yq.year, yq.quarter, AnchorForQuarter(yq))
  {
    AnchorGap(yq);
    ResolveAnchorExact(AnchorForQuarter(yq), yq);
  }

  // ---- weeks ----

  /** Hours in a week. */
  const HoursPerWeek: int := 7 * 24

  /** `weekOfQuarter`: whole 168-hour steps from the anchor, plus one. */
  function WeekOfQuarter(time: LocalDateTime, anchor: LocalDateTime): (w: int)
    ensures Stamp(anchor) <= Stamp(time) ==>
              w >= 1 && Stamp(anchor) + (w - 1) * NanosPerWeek <= Stamp(time) < Stamp(anchor) + w * NanosPerWeek
    ensures Stamp(time) < Stamp(anchor) ==> w <= 1
  {
    var hours := HoursBetween(anchor, time);
    WeeksOfHours(hours);
    JavaDiv(hours, HoursPerWeek) + 1
  }

  lemma WeeksOfHours(h: int)
    ensures h >= 0 ==> var w := h / HoursPerWeek;
                       w * NanosPerWeek <= h * NanosPerHour && (h + 1) * NanosPerHour <= (w + 1) * NanosPerWeek
    ensures h <= 0 ==> JavaDiv(h, HoursPerWeek) <= 0
  {
  }

  /** An instant `h` whole hours after the anchor is in week `h / 168 + 1`: 167 hours is week 1, 168 hours week 2. */
  lemma WeekOfWholeHours(time: LocalDateTime, anchor: LocalDateTime, h: int)
    requires h >= 0 && Stamp(time) == Stamp(anchor) + h * NanosPerHour
    ensures WeekOfQuarter(time, anchor) == h / HoursPerWeek + 1
  {
    var hours := HoursBetween(anchor, time);
    HoursBracket(hours, h);
  }

  /** The only whole-hour count whose hour holds `h` hours. */
  lemma HoursBracket(k: int, h: int)
    requires k * NanosPerHour <= h * NanosPerHour < (k + 1) * NanosPerHour
    ensures k == h
  {
  }

  /** `getThisWeekRecord`: the resolved quarter, the week against its anchor, and the anchor's year. */
  function GetThisWeekRecord(time: LocalDateTime): (r: YQWRecord)
    ensures var ai := ResolveAnchor(time);
            && r.quarterValue == ai.quarter
            && r.yearValue == ai.anchorStart.date.year
            && 1 <= r.weekValue <= 14
            && Stamp(ai.anchorStart) + (r.weekValue - 1) * NanosPerWeek <= Stamp(time)
            && Stamp(time) < Stamp(ai.anchorStart) + r.weekValue * NanosPerWeek
  {
    var ai := ResolveAnchor(time);
    var week := WeekOfQuarter(time, ai.anchorStart);
    AnchorGap(QuarterOf(ai));
    var quarterYear := ai.anchorStart.date.year;
    YQWRecord(quarterYear, ai.quarter, week)
  }

  /**
   * The record year is the anchor's calendar year: the quarter's own year,
   * except for a first quarter whose 1 January is not a Monday, whose anchor
   * falls in the last days of December of the year before.
   */
  lemma AnchorYear(yq: Quarter)
    ensures var a := AnchorForQuarter(yq).date;
            var late := yq.quarter == 1 && DayOfWeek(FirstDayOfQuarter(yq)) != Monday;
            && (late ==> a.year == yq.year - 1 && a.month == 12)
            && (!late ==> a.year == yq.year)
  {
    var a := AnchorForQuarter(yq).date;
    var y := yq.year;
    assert EpochDay(FirstDayOfQuarter(yq)) == FirstDayNumber(yq);
    if yq.quarter == 1 && DayOfWeek(FirstDayOfQuarter(yq)) != Monday {
      assert YearStart(y) - 6 <= EpochDay(a) < YearStart(y);
      InLastWeekOfYear(a, y);
    } else {
      assert YearStart(y) <= EpochDay(a) < YearStart(y + 1) by {
        DaysBeforeMonthTable(y, FirstMonth(yq.quarter));
        YearStartStep(y);
      }
      YearOfEpochDay(a, y);
    }
  }

  /** A day in the six days before 1 January of `y` is in December of `y - 1`. */
  lemma InLastWeekOfYear(d: LocalDate, y: int)
    requires YearStart(y) - 6 <= EpochDay(d) < YearStart(y)
    ensures d.year == y - 1 && d.month == 12
  {
    YearStartStep(y - 1);
    YearOfEpochDay(d, y - 1);
    DaysBeforeMonthTable(y - 1, d.month);
  }

  /**
   * The anchor-year rule makes two business quarters share records. When
   * 1 January of `y` is a Monday and 1 January of `y + 1` is not, the anchor
   * of Q1 `y + 1` lies in December of `y`. Then week `k + 1` of Q1 `y` and
   * week `k + 1` of Q1 `y + 1` both record (`y`, 1, `k + 1`), although the two
   * instants lie in different, non-overlapping quarters.
   */
  lemma RecordsCollide(y: int, k: int)
    requires DayOfWeek(FirstDayOfQuarter(YearQuarter(y, 1))) == Monday
    requires DayOfWeek(FirstDayOfQuarter(YearQuarter(y + 1, 1))) != Monday
    requires 0 <= k < 12
    ensures InBusinessQuarter(WeekStart(YearQuarter(y, 1), k), YearQuarter(y, 1))
    ensures InBusinessQuarter(WeekStart(YearQuarter(y + 1, 1), k), YearQuarter(y + 1, 1))
    ensures GetThisWeekRecord(WeekStart(YearQuarter(y, 1), k)) == YQWRecord(y, 1, k + 1)
    ensures GetThisWeekRecord(WeekStart(YearQuarter(y + 1, 1), k)) == YQWRecord(y, 1, k + 1)
  {
    var early := YearQuarter(y, 1);
    var late := YearQuarter(y + 1, 1);
    AnchorYear(early);
    AnchorYear(late);
    WeekStartInQuarter(early, k);
    WeekStartInQuarter(late, k);
    WeekStartsAt(early, k);
    WeekStartsAt(late, k);
  }

  /** The instant week `k + 1` of a quarter begins: `k` weeks after its anchor. */
  function WeekStart(yq: Quarter, k: int): LocalDateTime {
    PlusDaysAt(AnchorForQuarter(yq), 7 * k)
  }

  /**
   * 1 January 2024 is a Monday. With `NewYear2025` this meets the requires of
   * `RecordsCollide` for 2024: 2024-01-01 18:00 and 2024-12-30 18:00 both
   * record (2024, 1, 1).
   */
  lemma NewYear2024()
    ensures DayOfWeek(FirstDayOfQuarter(YearQuarter(2024, 1))) == Monday
  {
    YearStartClosedForm(2024);
    assert LeapYearsThrough(2023) == 490 && LeapYearsThrough(1969) == 477;
    assert YearStart(2024) == 19723;
    assert EpochDay(Date(2024, 1, 1)) == 19723;
    assert Weekday(19723) == Monday;
  }

  /** The record of any instant names the resolved quarter under its anchor's year. */
  lemma RecordYear(time: LocalDateTime)
    ensures var ai := ResolveAnchor(time);
            var r := GetThisWeekRecord(time);
            var late := ai.quarter == 1 && DayOfWeek(FirstDayOfQuarter(QuarterOf(ai))) != Monday;
            && (late ==> r.yearValue == ai.year - 1)
            && (!late ==> r.yearValue == ai.year)
  {
    AnchorYear(QuarterOf(ResolveAnchor(time)));
  }

  /** Week `k + 1` of a quarter begins exactly `k` weeks after its anchor. */
  lemma WeekStartsAt(yq: Quarter, k: int)
    requires 0 <= k < 12
    ensures GetThisWeekRecord(PlusDaysAt(AnchorForQuarter(yq), 7 * k))
            == YQWRecord(AnchorForQuarter(yq).date.year, yq.quarter, k + 1)
  {
    WeekStartInQuarter(yq, k);
    RecordAtWeekStart(PlusDaysAt(AnchorForQuarter(yq), 7 * k), yq, k);
  }

  /** An instant exactly `k` weeks after the anchor, inside the quarter, is the start of week `k + 1`. */
  lemma RecordAtWeekStart(t: LocalDateTime, yq: Quarter, k: int)
    requires Stamp(t) == AnchorStamp(yq) + k * NanosPerWeek && InBusinessQuarter(t, yq)
    ensures GetThisWeekRecord(t) == YQWRecord(AnchorForQuarter(yq).date.year, yq.quarter, k + 1)
  {
    RecordInQuarter(t, yq);
    WeeksDivide(k);
  }

  /** `k` whole weeks divide back to `k`. */
  lemma WeeksDivide(k: int)
    ensures (k * NanosPerWeek) / NanosPerWeek == k
  {
  }

  /** The start of week `k + 1` lies `k` weeks after the anchor, inside the quarter. */
  lemma WeekStartInQuarter(yq: Quarter, k: int)
    requires 0 <= k < 12
    ensures var t := PlusDaysAt(AnchorForQuarter(yq), 7 * k);
            Stamp(t) == AnchorStamp(yq) + k * NanosPerWeek && InBusinessQuarter(t, yq)
  {
    WeeksAsDays(k);
    AnchorGap(yq);
  }

  /** An instant inside a quarter's interval is recorded under that quarter, against its anchor. */
  lemma RecordInQuarter(t: LocalDateTime, yq: Quarter)
    requires InBusinessQuarter(t, yq)
    ensures var r := GetThisWeekRecord(t);
            && r.yearValue == AnchorForQuarter(yq).date.year
            && r.quarterValue == yq.quarter
            && r.weekValue == (Stamp(t) - AnchorStamp(yq)) / NanosPerWeek + 1
  {
    ResolveAnchorExact(t, yq);
    WeekIsQuotient(Stamp(t) - AnchorStamp(yq), GetThisWeekRecord(t).weekValue);
  }

  /** The week count whose window holds an offset is the offset's quotient by a week, plus one. */
  lemma WeekIsQuotient(offset: int, w: int)
    requires (w - 1) * NanosPerWeek <= offset < w * NanosPerWeek
    ensures w == offset / NanosPerWeek + 1
  {
  }

  /** `k` weeks, counted as `7 * k` days, fall before the shortest quarter ends. */
  lemma WeeksAsDays(k: int)
    requires 0 <= k < 12
    ensures 7 * k * NanosPerDay == k * NanosPerWeek
    ensures k * NanosPerWeek < 84 * NanosPerDay
  {
  }

  /**
   * The last instant before an anchor, one nanosecond earlier, is still in the
   * previous quarter, in its final week: week 12, 13 or 14 by the anchor gap.
   */
  lemma LastInstantBeforeAnchor(yq: Quarter, t: LocalDateTime)
    requires Stamp(t) == AnchorStamp(yq) - 1
    ensures var r := GetThisWeekRecord(t);
            && r.quarterValue == Prev(yq).quarter
            && 7 * r.weekValue == AnchorDay(yq) - AnchorDay(Prev(yq))
  {
    var p := Prev(yq);
    var ai := ResolveAnchor(t);
    var gap := AnchorDay(yq) - AnchorDay(p);
    AnchorGap(p);
    assert InBusinessQuarter(t, p);
    ResolveAnchorExact(t, p);
    var w := GetThisWeekRecord(t).weekValue;
    var m := if gap == 84 then 12 else if gap == 91 then 13 else 14;
    assert Stamp(ai.anchorStart) + m * NanosPerWeek == Stamp(t) + 1;
    WeekOfBracket(w, m);
  }

  /** The only week count whose window ends at `m` whole weeks. */
  lemma WeekOfBracket(w: int, m: int)
    requires (w - 1) * NanosPerWeek <= m * NanosPerWeek - 1 < w * NanosPerWeek
    ensures w == m
  {
  }

  /**
   * 17:59:59.999999999 on an anchor's date is the last instant before it, so
   * it is recorded in the previous quarter's final week.
   */
  lemma LastNanoIsBeforeAnchor(yq: Quarter)
    ensures var r := GetThisWeekRecord(LocalDateTime(AnchorForQuarter(yq).date, LastNanoBeforeAnchor));
            && r.quarterValue == Prev(yq).quarter
            && 7 * r.weekValue == AnchorDay(yq) - AnchorDay(Prev(yq))
  {
    var t := LocalDateTime(AnchorForQuarter(yq).date, LastNanoBeforeAnchor);
    assert Stamp(t) == AnchorStamp(yq) - 1;
    LastInstantBeforeAnchor(yq, t);
  }

  /** 17:59:59.999999999, the last nanosecond before an anchor's 18:00. */
  const LastNanoBeforeAnchor: LocalTime := LocalTime(17, 59, 59, 999_999_999)

  /** ISO number of Wednesday. */
  const Wednesday: int := 3

  /**
   * A first quarter whose 1 January is a Wednesday opens on 30 December of
   * the year before.
   */
  lemma WednesdayNewYearAnchorDate(yq: Quarter)
    requires yq.quarter == 1 && DayOfWeek(FirstDayOfQuarter(yq)) == Wednesday
    ensures AnchorForQuarter(yq).date == Date(yq.year - 1, 12, 30)
  {
    var a := AnchorForQuarter(yq).date;
    var dec30: LocalDate := Date(yq.year - 1, 12, 30);
    assert EpochDay(a) == YearStart(yq.year) - 2 by {
      FirstQuarterAnchorDay(yq.year);
    }
    assert EpochDay(dec30) == YearStart(yq.year) - 2 by {
      DecemberDay(yq.year - 1, 30);
    }
    EpochDayInjective(a, dec30);
  }

  /** ... and its second week starts on 6 January, at 18:00 as every week does. */
  lemma WednesdayNewYearSecondWeek(yq: Quarter)
    requires yq.quarter == 1 && DayOfWeek(FirstDayOfQuarter(yq)) == Wednesday
    ensures PlusDaysAt(AnchorForQuarter(yq), 7).date == Date(yq.year, 1, 6)
  {
    var next := PlusDaysAt(AnchorForQuarter(yq), 7).date;
    var jan6: LocalDate := Date(yq.year, 1, 6);
    assert EpochDay(next) == YearStart(yq.year) + 5 by {
      FirstQuarterAnchorDay(yq.year);
    }
    assert EpochDay(jan6) == YearStart(yq.year) + 5;
    EpochDayInjective(next, jan6);
  }

  /** The first quarter's anchor lies as many days before 1 January as that day is past Monday. */
  lemma FirstQuarterAnchorDay(y: int)
    ensures AnchorDay(YearQuarter(y, 1)) == YearStart(y) - (DayOfWeek(Date(y, 1, 1)) - Monday)
  {
    assert FirstDayNumber(YearQuarter(y, 1)) == EpochDay(Date(y, 1, 1)) == YearStart(y);
  }

  /** Day `day` of December counts back from the next 1 January. */
  lemma DecemberDay(y: int, day: int)
    requires 1 <= day <= 31
    ensures EpochDay(Date(y, 12, day)) == YearStart(y + 1) - 32 + day
  {
    YearStartStep(y);
    DaysBeforeMonthTable(y, 12);
  }

  /** 1 January 2025 is a Wednesday, so the rule above places its first week at 30 December 2024. */
  lemma NewYear2025()
    ensures DayOfWeek(Date(2025, 1, 1)) == Wednesday
  {
    YearStartClosedForm(2025);
    assert LeapYearsThrough(2024) == 491 && LeapYearsThrough(1969) == 477;
    assert YearStart(2025) == 20089;
    assert EpochDay(Date(2025, 1, 1)) == 20089;
    assert Weekday(20089) == Wednesday;
  }
}
