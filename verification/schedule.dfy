/**
 * The two schedule views of `WeekService`: the airing schedule of the
 * current week (`getWeeklyScheduleFromOffset`) and of a whole quarter
 * (`getScheduleByQuarterId`). Both group anime previews by airing day, with
 * the `NONE` bucket for previews without a day, and then make sure every
 * day key is present.
 *
 * `DayOfWeekShort` is a type parameter `K`: `days` stands for
 * `DayOfWeekShort.values()` and `none` for `DayOfWeekShort.NONE`. The
 * preview queries are parameters.
 */
module Schedule {
  import opened Calendar
  import opened ApiStatus
  import opened WeekDomain
  import opened WeekLookup

  /** An `AnimePreviewDto`, reduced to its anime and its (nullable) airing day. */
  datatype AnimePreview<K> = AnimePreview(animeId: int, dayOfWeek: Option<K>)

  /** `AnimePreviewListDto`: `year` and `quarter` are `null` for the weekly view. */
  datatype AnimePreviewList<K> = AnimePreviewList(year: Option<int>, quarter: Option<int>, schedule: map<K, seq<AnimePreview<K>>>)

  // ---- the weekly window ----

  /**
   * `getWeeklyScheduleFromOffset`'s window: from the Monday on or before
   * `now`'s date, at the offset's hour and minute with zero seconds and nanos,
   * to exactly seven days later.
   */
  function WeeklyScheduleWindow(now: LocalDateTime, offset: LocalTime): (w: (LocalDateTime, LocalDateTime))
    ensures var (lastMonday, endMonday) := w;
            && DayOfWeek(lastMonday.date) == Monday
            && EpochDay(now.date) - 6 <= EpochDay(lastMonday.date) <= EpochDay(now.date)
            && lastMonday.time == LocalTime(offset.hour, offset.minute, 0, 0)
            && endMonday.time == lastMonday.time
            && Stamp(endMonday) == Stamp(lastMonday) + 7 * NanosPerDay
  {
    var lastMonday := LocalDateTime(PreviousOrSame(now.date, Monday), LocalTime(offset.hour, offset.minute, 0, 0));
    var endMonday := PlusDaysAt(lastMonday, 7);
    (lastMonday, endMonday)
  }

  /** The window starts on the latest Monday that is not after `now`'s date. */
  lemma WindowStartsOnLatestMonday(now: LocalDateTime, offset: LocalTime, d: LocalDate)
    requires DayOfWeek(d) == Monday && EpochDay(d) <= EpochDay(now.date)
    ensures EpochDay(d) <= EpochDay(WeeklyScheduleWindow(now, offset).0.date)
  {
    PreviousOrSameIsLatest(now.date, Monday, d);
  }

  /**
   * The window holds `now` except on a Monday before the offset time, when
   * it is the coming week and starts later that day.
   */
  lemma WindowHoldsNowUnlessEarlyMonday(now: LocalDateTime, offset: LocalTime)
    ensures var (lastMonday, endMonday) := WeeklyScheduleWindow(now, offset);
            Stamp(lastMonday) <= Stamp(now) < Stamp(endMonday)
            <==> !(DayOfWeek(now.date) == Monday && NanoOfDay(now.time) < NanoOfDay(lastMonday.time))
  {
    var (lastMonday, endMonday) := WeeklyScheduleWindow(now, offset);
    if DayOfWeek(now.date) == Monday {
      PreviousOrSameIsLatest(now.date, Monday, now.date);
      EpochDayInjective(lastMonday.date, now.date);
    } else {
      assert EpochDay(lastMonday.date) < EpochDay(now.date);
    }
  }

  // ---- grouping by airing day ----

  /** The bucket of a preview: its airing day, or `none` when it has none. */
  function DayKey<K>(p: AnimePreview<K>, none: K): K {
    if p.dayOfWeek.Some? then p.dayOfWeek.value else none
  }

  /**
   * `Collectors.groupingBy(DayKey)`: walk the previews in order, appending
   * each to the list of its key, a new list when the key is first seen.
   */
  function GroupByDay<K(==)>(previews: seq<AnimePreview<K>>, none: K): (g: map<K, seq<AnimePreview<K>>>)
    ensures g.Keys == set i | 0 <= i < |previews| :: DayKey(previews[i], none)
  {
    if |previews| == 0 then map[]
    else
      var g := GroupByDay(previews[..|previews| - 1], none);
      var p := previews[|previews| - 1];
      var k := DayKey(p, none);
      assert forall i :: 0 <= i < |previews| - 1 ==> previews[..|previews| - 1][i] == previews[i];
      g[k := (if k in g then g[k] else []) + [p]]
  }

  /** `schedule.putIfAbsent(key, List.of())` for every key of `days`. */
  function FillAbsent<K(==), V>(schedule: map<K, seq<V>>, days: seq<K>): (r: map<K, seq<V>>)
    ensures r.Keys == schedule.Keys + set k | k in days
    ensures forall k :: k in r ==> r[k] == if k in schedule then schedule[k] else []
    decreases |days|
  {
    if |days| == 0 then schedule
    else
      var filled := if days[0] in schedule then schedule else schedule[days[0] := []];
      FillAbsent(filled, days[1..])
  }

  /** The grouped schedule with every day key present. */
  function BuildSchedule<K(==)>(previews: seq<AnimePreview<K>>, days: seq<K>, none: K): (s: map<K, seq<AnimePreview<K>>>)
    ensures forall k :: k in days ==> k in s
    ensures s.Keys == (set k | k in days) + (set i | 0 <= i < |previews| :: DayKey(previews[i], none))
    ensures forall k :: k in s ==> s[k] == DayFilter(previews, k, none)
  {
    var g := GroupByDay(previews, none);
    GroupByDayIsFilter(previews, none);
    forall k | k in days && k !in g
      ensures DayFilter(previews, k, none) == []
    {
      DayFilterEmpty(previews, k, none);
    }
    FillAbsent(g, days)
  }

  /** Reference definition: the previews with key `k`, in their original order. */
  function DayFilter<K(==)>(previews: seq<AnimePreview<K>>, k: K, none: K): seq<AnimePreview<K>> {
    if |previews| == 0 then []
    else (if DayKey(previews[0], none) == k then [previews[0]] else []) + DayFilter(previews[1..], k, none)
  }

  lemma {:induction false} DayFilterAppend<K>(a: seq<AnimePreview<K>>, b: seq<AnimePreview<K>>, k: K, none: K)
    ensures DayFilter(a + b, k, none) == DayFilter(a, k, none) + DayFilter(b, k, none)
  {
    if |a| == 0 {
      assert a + b == b;
    } else {
      assert (a + b)[1..] == a[1..] + b;
      DayFilterAppend(a[1..], b, k, none);
    }
  }

  /** No preview has key `k` exactly when filtering by `k` leaves nothing. */
  lemma {:induction false} DayFilterEmpty<K>(previews: seq<AnimePreview<K>>, k: K, none: K)
    ensures DayFilter(previews, k, none) == [] <==> forall i :: 0 <= i < |previews| ==> DayKey(previews[i], none) != k
  {
    if |previews| > 0 {
      DayFilterEmpty(previews[1..], k, none);
      assert forall i :: 1 <= i < |previews| ==> previews[1..][i - 1] == previews[i];
    }
  }

  /** Each group `groupingBy` builds is the filter of the previews by its key. */
  lemma {:induction false} GroupByDayIsFilter<K>(previews: seq<AnimePreview<K>>, none: K)
    ensures forall k :: k in GroupByDay(previews, none) ==> GroupByDay(previews, none)[k] == DayFilter(previews, k, none)
    ensures forall k :: k !in GroupByDay(previews, none) ==> DayFilter(previews, k, none) == []
  {
    if |previews| > 0 {
      var init := previews[..|previews| - 1];
      var p := previews[|previews| - 1];
      GroupByDayIsFilter(init, none);
      assert previews == init + [p];
      forall k
        ensures DayFilter(previews, k, none) == DayFilter(init, k, none) + (if DayKey(p, none) == k then [p] else [])
      {
        DayFilterAppend(init, [p], k, none);
        assert DayFilter([p], k, none) == (if DayKey(p, none) == k then [p] else []) + DayFilter([p][1..], k, none);
      }
    }
  }

  /** Every preview lands in exactly one bucket, as many times as it occurs. */
  lemma {:induction false} DayFilterCounts<K>(previews: seq<AnimePreview<K>>, k: K, none: K, p: AnimePreview<K>)
    ensures multiset(DayFilter(previews, k, none))[p] == if DayKey(p, none) == k then multiset(previews)[p] else 0
  {
    if |previews| > 0 {
      DayFilterCounts(previews[1..], k, none, p);
      assert previews == [previews[0]] + previews[1..];
    }
  }

  /** Schedule buckets partition the previews: each one is counted in its own bucket and nowhere else. */
  lemma SchedulePartitionsPreviews<K>(previews: seq<AnimePreview<K>>, days: seq<K>, none: K, k: K, p: AnimePreview<K>)
    requires k in BuildSchedule(previews, days, none)
    ensures multiset(BuildSchedule(previews, days, none)[k])[p] == if DayKey(p, none) == k then multiset(previews)[p] else 0
  {
    DayFilterCounts(previews, k, none, p);
  }

  // ---- the two service calls ----

  /** `getWeeklyScheduleFromOffset`: the previews airing in this week's window, by day. */
  function GetWeeklyScheduleFromOffset<K(==)>(
    now: LocalDateTime, offset: LocalTime,
    previewsByWeek: (LocalDateTime, LocalDateTime) -> seq<AnimePreview<K>>,
    days: seq<K>, none: K): (r: AnimePreviewList<K>)
    ensures r.year == None && r.quarter == None
    ensures var (lastMonday, endMonday) := WeeklyScheduleWindow(now, offset);
            && (forall k :: k in days ==> k in r.schedule)
            && (forall k :: k in r.schedule ==> r.schedule[k] == DayFilter(previewsByWeek(lastMonday, endMonday), k, none))
  {
    var (lastMonday, endMonday) := WeeklyScheduleWindow(now, offset);
    var animePreviews := previewsByWeek(lastMonday, endMonday);
    AnimePreviewList(None, None, BuildSchedule(animePreviews, days, none))
  }

  /**
   * `getScheduleByQuarterId`: the quarter's previews by day, tagged with the
   * requested year and quarter, or `QUARTER_NOT_FOUND`.
   */
  function GetScheduleByQuarterId<K(==)>(
    quarters: seq<QuarterRow>, year: int, quarter: int,
    previewsByQuarter: int -> seq<AnimePreview<K>>,
    days: seq<K>, none: K): (r: Result<AnimePreviewList<K>>)
    ensures r.Err? <==> GetQuarterIdByYQ(quarters, year, quarter).Err?
    ensures r.Err? ==> r.error == QuarterNotFound
    ensures r.Ok? ==>
              var quarterId := GetQuarterIdByYQ(quarters, year, quarter).value;
              && r.value.year == Some(year) && r.value.quarter == Some(quarter)
              && (forall k :: k in days ==> k in r.value.schedule)
              && (forall k :: k in r.value.schedule ==> r.value.schedule[k] == DayFilter(previewsByQuarter(quarterId), k, none))
  {
    var quarterId :- GetQuarterIdByYQ(quarters, year, quarter);
    var animePreviews := previewsByQuarter(quarterId);
    Ok(AnimePreviewList(Some(year), Some(quarter), BuildSchedule(animePreviews, days, none)))
  }
}
