/**
 * The single-row lookups of `WeekService`: the week whose window holds an
 * instant, and the id of the quarter row for a (year, quarter). The
 * repository's table is a list of rows; a query that returns an `Optional`
 * becomes the first row that matches, and `orElseThrow` becomes an `Err`.
 */
module WeekLookup {
  import opened Calendar
  import opened ApiStatus
  import opened WeekDomain

  /** The first element of `xs` satisfying `p`, if any. */
  function FindFirst<T>(xs: seq<T>, p: T -> bool): (r: Option<T>)
    ensures r.Some? ==> r.value in xs && p(r.value)
    ensures r.None? <==> forall x :: x in xs ==> !p(x)
  {
    if |xs| == 0 then None
    else if p(xs[0]) then Some(xs[0])
    else FindFirst(xs[1..], p)
  }

  /** When exactly one element satisfies `p`, that is the one found. */
  lemma {:induction false} FindFirstUnique<T>(xs: seq<T>, p: T -> bool, x: T)
    requires x in xs && p(x)
    requires forall y :: y in xs && p(y) ==> y == x
    ensures FindFirst(xs, p) == Some(x)
  {
    if p(xs[0]) {
    } else {
      assert x in xs[1..];
      FindFirstUnique(xs[1..], p, x);
    }
  }

  /**
   * `getWeekByTime`: the week with `startDateTime <= time < endDateTime`,
   * or `WEEK_NOT_FOUND` when no week covers `time`.
   */
  function GetWeekByTime(weeks: seq<Week>, time: LocalDateTime): (r: Result<Week>)
    ensures r.Ok? ==> r.value in weeks && Covers(r.value, time)
    ensures r.Err? ==> r.error == WeekNotFound
    ensures r.Err? <==> forall w :: w in weeks ==> !Covers(w, time)
  {
    match FindFirst(weeks, (w: Week) => Covers(w, time))
    case Some(w) => Ok(w)
    case None => Err(WeekNotFound)
  }

  /** With non-overlapping windows, the week found is the only week that covers `time`. */
  lemma WeekByTimeIsTheCoveringWeek(weeks: seq<Week>, time: LocalDateTime, i: int)
    requires WindowsDisjoint(weeks)
    requires 0 <= i < |weeks| && Covers(weeks[i], time)
    ensures GetWeekByTime(weeks, time) == Ok(weeks[i])
  {
    forall y | y in weeks && Covers(y, time)
      ensures y == weeks[i]
    {
      var j :| 0 <= j < |weeks| && weeks[j] == y;
      if j != i {
        assert !Covers(weeks[j], time);
      }
    }
    FindFirstUnique(weeks, w => Covers(w, time), weeks[i]);
  }

  /** `findWeekById`: the first week with the id, if any. */
  function FindWeekById(weeks: seq<Week>, weekId: int): (r: Option<Week>)
    ensures r.Some? ==> r.value in weeks && r.value.id == weekId
    ensures r.None? <==> forall w :: w in weeks ==> w.id != weekId
  {
    if |weeks| == 0 then None
    else if weeks[0].id == weekId then Some(weeks[0])
    else FindWeekById(weeks[1..], weekId)
  }

  /** `getQuarterIdByYQ`: the id of the quarter row for (year, quarter), or `QUARTER_NOT_FOUND`. */
  function GetQuarterIdByYQ(quarters: seq<QuarterRow>, year: int, quarter: int): (r: Result<int>)
    ensures r.Ok? ==> exists q :: q in quarters && q.id == r.value && q.yearValue == year && q.quarterValue == quarter
    ensures r.Err? ==> r.error == QuarterNotFound
    ensures r.Err? <==> forall q :: q in quarters ==> !(q.yearValue == year && q.quarterValue == quarter)
  {
    match FindFirst(quarters, (q: QuarterRow) => q.yearValue == year && q.quarterValue == quarter)
    case Some(q) => Ok(q.id)
    case None => Err(QuarterNotFound)
  }
}
