/**
 * `setupWeeklyVote`: the weekly rollover. It closes the last voting week,
 * finds or creates the quarter and season of the new week, saves the new
 * week, seeds its anime candidates and opens its vote.
 *
 * The week table is a map from id to row, and `save` assigns the store's
 * next id. The read-only lookups of `WeekLookup` and `RankSlice` see the same
 * table as a list of rows, because their queries return the first row that
 * matches; the rollover writes rows back by id, which a map states directly.
 *
 * `SeasonService`, `AnimeService` and `Week.create` are not part of this
 * model: they are the parameters in `Services`, and the season row is the
 * type parameter `S`. `closeVote` and `openVote` are modelled as status
 * updates to `Closed` and `Open`, with no guard on the previous status.
 */
module Rollover {
  import opened Calendar
  import opened ApiStatus
  import opened WeekDomain
  import opened QuarterUtil

  /** The rows the rollover reads and writes. */
  datatype Store = Store(weeks: map<int, Week>, candidates: seq<AnimeCandidate>, nextWeekId: int)

  /** Every week is stored under its own id, and `save` hands out an id not yet used. */
  predicate WellFormed(st: Store) {
    forall id :: id in st.weeks ==> st.weeks[id].id == id && id < st.nextWeekId
  }

  /** The collaborators whose source is not part of this model. */
  datatype Services<!S> = Services(
    getOrCreateQuarter: (bool, int, int) -> QuarterRow,
    getOrCreateSeason: (bool, QuarterRow) -> S,
    animesForCandidate: (S, LocalDateTime) -> seq<int>,
    createWeek: (QuarterRow, int, LocalDateTime) -> Week)

  /** What one rollover did: the new store, the new week's id, and what it asked the season service. */
  datatype RolloverResult<S> = RolloverResult(store: Store, newWeekId: int, quarterChanged: bool, quarter: QuarterRow, season: S)

  function CloseVote(w: Week): Week {
    w.(voteStatus := Closed)
  }

  function OpenVote(w: Week): Week {
    w.(voteStatus := Open)
  }

  /** `AnimeCandidate.create(savedWeek, anime)` for each anime, in order. */
  function CandidatesFor(weekId: int, animes: seq<int>): (r: seq<AnimeCandidate>)
    ensures |r| == |animes|
    ensures forall c :: c in r ==> c.weekId == weekId
  {
    if |animes| == 0 then [] else [AnimeCandidate(weekId, animes[0])] + CandidatesFor(weekId, animes[1..])
  }

  /** The anime of a list of candidates, in order. */
  function AnimeIds(cs: seq<AnimeCandidate>): (r: seq<int>)
    ensures |r| == |cs|
  {
    if |cs| == 0 then [] else [cs[0].animeId] + AnimeIds(cs[1..])
  }

  /** Exactly one candidate per eligible anime: the candidates name the anime list itself. */
  lemma {:induction false} CandidatesNameEachAnime(weekId: int, animes: seq<int>)
    ensures AnimeIds(CandidatesFor(weekId, animes)) == animes
  {
    if |animes| > 0 {
      CandidatesNameEachAnime(weekId, animes[1..]);
    }
  }

  /** The ids of the weeks whose vote is open. */
  function OpenWeeks(st: Store): set<int> {
    set id | id in st.weeks && st.weeks[id].voteStatus == Open
  }

  /** `setupWeeklyVote(now, lastWeekId, record)`, or `WEEK_NOT_FOUND`. */
  function SetupWeeklyVote<S>(st: Store, now: LocalDateTime, lastWeekId: int, record: YQWRecord, sv: Services<S>)
    : (r: Result<RolloverResult<S>>)
    requires WellFormed(st)
    ensures r.Err? <==> lastWeekId !in st.weeks
    ensures r.Err? ==> r.error == WeekNotFound
    ensures r.Ok? ==> |st.candidates| <= |r.value.store.candidates|
    ensures r.Ok? ==>
              var o := r.value;
              var newId := o.newWeekId;
              var added := o.store.candidates[|st.candidates|..];
              && lastWeekId in st.weeks
              && newId !in st.weeks
              && WellFormed(o.store)
              && o.quarterChanged == (st.weeks[lastWeekId].quarter.quarterValue != record.quarterValue)
              && o.quarter == sv.getOrCreateQuarter(o.quarterChanged, record.yearValue, record.quarterValue)
              && o.season == sv.getOrCreateSeason(o.quarterChanged, o.quarter)
              && o.store.weeks.Keys == st.weeks.Keys + {newId}
              && o.store.weeks[lastWeekId] == st.weeks[lastWeekId].(voteStatus := Closed)
              && o.store.weeks[newId] == sv.createWeek(o.quarter, record.weekValue, now).(id := newId, voteStatus := Open)
              && (forall id :: id in st.weeks && id != lastWeekId ==> o.store.weeks[id] == st.weeks[id])
              && o.store.candidates[..|st.candidates|] == st.candidates
              && (forall c :: c in added ==> c.weekId == newId)
              && AnimeIds(added) == sv.animesForCandidate(o.season, now)
  {
    if lastWeekId !in st.weeks then Err(WeekNotFound)
    else
      var lastWeek := st.weeks[lastWeekId];
      var lastWeekQuarterValue := lastWeek.quarter.quarterValue;
      var closed := st.(weeks := st.weeks[lastWeekId := CloseVote(lastWeek)]);
      var thisQuarterValue := record.quarterValue;
      var isQuarterChanged := lastWeekQuarterValue != thisQuarterValue;
      var quarter := sv.getOrCreateQuarter(isQuarterChanged, record.yearValue, thisQuarterValue);
      var season := sv.getOrCreateSeason(isQuarterChanged, quarter);
      var newWeek := sv.createWeek(quarter, record.weekValue, now);
      var newId := closed.nextWeekId;
      var savedWeek := newWeek.(id := newId);
      var saved := closed.(weeks := closed.weeks[newId := savedWeek], nextWeekId := newId + 1);
      var nowShowingAnimes := sv.animesForCandidate(season, now);
      var animeCandidates := CandidatesFor(newId, nowShowingAnimes);
      CandidatesNameEachAnime(newId, nowShowingAnimes);
      assert (st.candidates + animeCandidates)[|st.candidates|..] == animeCandidates;
      var seeded := saved.(candidates := saved.candidates + animeCandidates);
      var voting := seeded.(weeks := seeded.weeks[newId := OpenVote(seeded.weeks[newId])]);
      Ok(RolloverResult(voting, newId, isQuarterChanged, quarter, season))
  }

  /**
   * When the last week is the only open week, the new week is the only open
   * week afterwards: the single-open-week invariant moves with the rollover.
   */
  lemma RolloverMovesTheOpenWeek<S>(st: Store, now: LocalDateTime, lastWeekId: int, record: YQWRecord, sv: Services<S>)
    requires WellFormed(st)
    requires OpenWeeks(st) <= {lastWeekId}
    requires SetupWeeklyVote(st, now, lastWeekId, record, sv).Ok?
    ensures var o := SetupWeeklyVote(st, now, lastWeekId, record, sv).value;
            OpenWeeks(o.store) == {o.newWeekId}
  {
    var o := SetupWeeklyVote(st, now, lastWeekId, record, sv).value;
    forall id | id in o.store.weeks && id != o.newWeekId && id != lastWeekId
      ensures o.store.weeks[id].voteStatus != Open
    {
      assert id !in OpenWeeks(st);
    }
    assert o.newWeekId in OpenWeeks(o.store);
  }

  /**
   * `setupWeeklyVote` has no double-rollover guard: a second rollover from the
   * same last week succeeds again and leaves both new weeks open.
   */
  lemma RerunOpensASecondWeek<S>(st: Store, now: LocalDateTime, lastWeekId: int, record: YQWRecord, sv: Services<S>)
    requires WellFormed(st)
    requires SetupWeeklyVote(st, now, lastWeekId, record, sv).Ok?
    ensures var first := SetupWeeklyVote(st, now, lastWeekId, record, sv).value;
            var again := SetupWeeklyVote(first.store, now, lastWeekId, record, sv);
            && again.Ok?
            && again.value.newWeekId != first.newWeekId
            && {first.newWeekId, again.value.newWeekId} <= OpenWeeks(again.value.store)
  {
    var first := SetupWeeklyVote(st, now, lastWeekId, record, sv).value;
    var again := SetupWeeklyVote(first.store, now, lastWeekId, record, sv);
    assert first.newWeekId in first.store.weeks;
    assert again.value.store.weeks[first.newWeekId] == first.store.weeks[first.newWeekId];
  }
}
