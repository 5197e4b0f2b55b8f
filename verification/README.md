# duckstar-backend: the quarter/week engine, in Dafny

This project models the part of duckstar-backend that puts every instant
on a (year, quarter, week) calendar and moves the weekly vote from one week
to the next. It also models the read-side service logic that sits on that
calendar, and the voter-identity rules of the vote cookie. Everything is
stated as pure Dafny functions over immutable data, with proofs of the
properties the code promises.

- `calendar.dfy` (`Calendar`): the pieces of `java.time` the engine uses.
  - Proleptic Gregorian dates numbered as epoch days.
  - Times of day, and date-times placed on one nanosecond timeline.
  - `previousOrSame(MONDAY)`, `plusDays`, `isBefore`, and
    `ChronoUnit.HOURS.between`, which truncates toward zero.
- `quarter_util.dfy` (`QuarterUtil`): `QuarterUtil`.
  - Calendar quarters and the quarter anchor, 18:00 on the Monday on or
    before a quarter's first day.
  - `resolveAnchor`: the business quarter of an instant.
  - `weekOfQuarter`, and `getThisWeekRecord` with its anchor-year rule.
- `week_domain.dfy` (`WeekDomain`): the persisted rows the service reads,
  `Week`, `Quarter`, `Season` and `AnimeCandidate`, reduced to the fields its
  logic uses.
- `week_lookup.dfy` (`WeekLookup`): `getWeekByTime`, `getQuarterIdByYQ` and
  the by-id week lookup, as first-match selections over a table.
- `season_listing.dfy` (`SeasonListing`): `getSeasons`.
  - Keep the prepared seasons.
  - Sort them stably by year, then by type order.
  - Group their types by year into an insertion-ordered map.
- `schedule.dfy` (`Schedule`): `getWeeklyScheduleFromOffset` and
  `getScheduleByQuarterId`.
  - The Monday-based weekly window.
  - Grouping by airing day, with a `NONE` bucket.
  - Every day key made present.
- `rank_slice.dfy` (`RankSlice`): `getAnimeRankSliceDto`. It over-fetches
  one row to learn whether a next page exists. Java `int` wrap-around of
  `size + 1` is modelled, and so is `PageRequest.of` rejecting a size below one.
- `rollover.dfy` (`Rollover`): `setupWeeklyVote`, as a transition on a store
  of weeks and candidates.
- `vote_cookie_manager.dfy` (`VoteCookieManager`): `toPrincipalKey`, and the
  cookie scan and reuse decision of `ensureVoteCookie`.
- `api_status.dfy` (`ApiStatus`): the `ErrorStatus` codes, and
  `Result`/`Option`. An `orElseThrow` or a handler exception becomes an `Err`;
  `null` becomes `None`.

Parameters stand in for the clock (`now`), the random UUID (`freshId`), the
repository queries, and the collaborators whose code is not part of this
model.
- Queries are functions or lists passed in.
- `SeasonService`, `AnimeService` and `Week.create` are the `Services` record.
- The `DayOfWeekShort` and `SeasonType` enums are type parameters.

Three consequences of the code are worth stating on their own:
- **Q1 2025 boundary.** A quarter is anchored at 18:00 on the Monday on
  *or before* its first day. 1 January 2025 is a Wednesday
  (`QuarterUtil.NewYear2025`), so the anchor of Q1 2025 is 2024-12-30 18:00
  (`QuarterUtil.WednesdayNewYearAnchorDate`). 2025-01-06 18:00 starts week 2
  (`QuarterUtil.WednesdayNewYearSecondWeek`, `QuarterUtil.WeekStartsAt`), and
  it carries record year 2024, the anchor's year (`QuarterUtil.RecordYear`).
- **Double rollover.** `setupWeeklyVote` has no guard against a last week
  that is already closed. `Week.closeVote` is not part of this model, and it
  is modelled without a guard. As modelled, a second rollover from the same
  last week succeeds and leaves two weeks open
  (`Rollover.RerunOpensASecondWeek`).
- **Records shared by two quarters.** The record year is the anchor's
  calendar year. When 1 January of a year is a Monday and 1 January of the
  next year is not, the next Q1 is anchored in December of the first year.
  Then week k of both first quarters records the same (year, 1, k)
  (`QuarterUtil.RecordsCollide`). 1 January 2024 is a Monday
  (`QuarterUtil.NewYear2024`) and 1 January 2025 a Wednesday, so
  2024-01-01 18:00 and 2024-12-30 18:00 both record (2024, 1, 1). The
  rollover into the later quarter then calls
  `getOrCreateQuarter(true, 2024, 1)`, which either returns the row of the
  earlier Q1 2024 or creates a second (2024, 1) row, depending on
  `SeasonService`, which is not part of this model.

## Model

| member | source | states |
|---|---|---|
| `Calendar.PreviousOrSame` | src/main/java/com/duckstar/util/QuarterUtil.java:29 | The adjusted date falls on the requested weekday and lies zero to six days before the input date. |
| `Calendar.PreviousOrSameIsLatest` | src/main/java/com/duckstar/service/WeekService.java:86-87 | No date on that weekday lies strictly between the adjusted date and the input: it is the latest such day on or before the input. |
| `Calendar.IsBeforeIsTimelineOrder` | src/main/java/com/duckstar/util/QuarterUtil.java:46-52 | `isBefore` (compare dates, then times of day) holds exactly when the first instant is earlier on the timeline. |
| `Calendar.HoursBetween` | src/main/java/com/duckstar/util/QuarterUtil.java:60 | The whole hours from one instant to another, truncated toward zero: for a later end, the end lies in that hour after the start; for an earlier end, the count is non-positive and within one hour. |
| `Calendar.PlusDaysAt` | src/main/java/com/duckstar/service/WeekService.java:90 | Adding days keeps the time of day and moves the instant by exactly that many 24-hour days. |
| `QuarterUtil.CalendarQuarter` | src/main/java/com/duckstar/util/QuarterUtil.java:20 | A month maps to the quarter 1..4 whose three months, starting at month 1, 4, 7 or 10, contain it. |
| `QuarterUtil.FirstDayInItsQuarter` | src/main/java/com/duckstar/util/QuarterUtil.java:21-24 | A quarter's first day is day 1 of month 1, 4, 7 or 10 of that year: its month lies in the quarter and no month of the quarter comes before it. |
| `QuarterUtil.Next` | src/main/java/com/duckstar/util/QuarterUtil.java:42-43 | The next quarter is one step later in the sequence of all quarters, so Q4 wraps to Q1 of the next year. |
| `QuarterUtil.Prev` | src/main/java/com/duckstar/util/QuarterUtil.java:47-48 | The previous quarter is one step earlier, so Q1 wraps to Q4 of the year before; `Next` undoes it. |
| `QuarterUtil.AnchorForQuarter` | src/main/java/com/duckstar/util/QuarterUtil.java:27-31 | The anchor is a Monday at 18:00, on the quarter's first day or up to six days before it. |
| `QuarterUtil.AnchorIsLatestMonday` | src/main/java/com/duckstar/util/QuarterUtil.java:26-31 | Every Monday on or before the quarter's first day is on or before the anchor date. |
| `QuarterUtil.AnchorGap` | src/main/java/com/duckstar/util/QuarterUtil.java:27-31 | Consecutive quarter anchors are exactly 12, 13 or 14 weeks apart. |
| `QuarterUtil.AnchorsIncrease` | src/main/java/com/duckstar/util/QuarterUtil.java:27-31 | A later quarter always has a later anchor. |
| `QuarterUtil.BusinessQuarterUnique` | src/main/java/com/duckstar/util/QuarterUtil.java:33-35 | Two quarters whose half-open intervals `[anchor, next anchor)` both hold an instant are the same quarter. |
| `QuarterUtil.ResolveAnchor` | src/main/java/com/duckstar/util/QuarterUtil.java:37-56 | The result names a quarter 1..4 and carries that quarter's anchor. The instant lies in `[anchor, next anchor)`. The quarter is the calendar quarter of the instant, or its predecessor (only before that quarter's anchor), or its successor (only at or after the next anchor). |
| `QuarterUtil.ResolveAnchorExact` | src/main/java/com/duckstar/util/QuarterUtil.java:37-56 | An instant resolves to a quarter if and only if that quarter's interval holds it. |
| `QuarterUtil.AnchorResolvesToItself` | src/main/java/com/duckstar/util/QuarterUtil.java:33-56 | An anchor instant resolves to its own quarter and anchor, even when it falls in the previous calendar quarter (left-inclusive boundary). |
| `QuarterUtil.WeekOfQuarter` | src/main/java/com/duckstar/util/QuarterUtil.java:59-62 | At or after the anchor, the week is at least 1, and the instant lies within that week's 168-hour window from the anchor. Before the anchor, the week is at most 1. |
| `QuarterUtil.WeekOfWholeHours` | src/main/java/com/duckstar/util/QuarterUtil.java:58-62 | An instant exactly `h` hours after the anchor is in week `h / 168 + 1`, so anchor + 167 h is week 1 and anchor + 168 h is week 2. |
| `QuarterUtil.GetThisWeekRecord` | src/main/java/com/duckstar/util/QuarterUtil.java:65-73 | The record's quarter is the resolved quarter. Its year is the anchor's calendar year. Its week, between 1 and 14, is the 168-hour window from that same anchor that holds the instant. |
| `QuarterUtil.AnchorYear` | src/main/java/com/duckstar/util/QuarterUtil.java:69-72 | The anchor's year is the quarter's year, except for a Q1 whose 1 January is not a Monday: then the anchor is in December of the year before. |
| `QuarterUtil.RecordYear` | src/main/java/com/duckstar/util/QuarterUtil.java:69-72 | The record year differs from the resolved quarter's year (one less) exactly for such a Q1. |
| `QuarterUtil.RecordsCollide` | src/main/java/com/duckstar/util/QuarterUtil.java:58-73 | When 1 January of `y` is a Monday and that of `y + 1` is not, the start of week `k + 1` of Q1 `y` and of Q1 `y + 1` lie in their own, distinct quarters, yet both record (`y`, 1, `k + 1`). |
| `QuarterUtil.NewYear2024` | src/main/java/com/duckstar/util/QuarterUtil.java:21-29 | 1 January 2024 is a Monday, so Q1 2024 is anchored on 1 January itself and the 2024/2025 pair meets the condition for shared records. |
| `QuarterUtil.RecordInQuarter` | src/main/java/com/duckstar/util/QuarterUtil.java:58-73 | An instant inside a quarter's interval is recorded under that quarter and its anchor's year. Its week is the whole weeks elapsed since that quarter's anchor, plus one. |
| `QuarterUtil.WeekStartsAt` | src/main/java/com/duckstar/util/QuarterUtil.java:65-73 | Exactly `k` weeks after a quarter's anchor (k < 12), the record is week `k + 1` of that quarter, so week 1 starts at the anchor. |
| `QuarterUtil.LastInstantBeforeAnchor` | src/main/java/com/duckstar/util/QuarterUtil.java:46-51 | One nanosecond before an anchor is still the previous quarter, in its final week: the week count times 7 is the gap in days between the two anchors. |
| `QuarterUtil.LastNanoIsBeforeAnchor` | src/main/java/com/duckstar/util/QuarterUtil.java:46-51 | 17:59:59.999999999 on an anchor's date is recorded in the previous quarter, in its final week, whose count times 7 is the gap in days between the two anchors. |
| `QuarterUtil.WednesdayNewYearAnchorDate` | src/main/java/com/duckstar/util/QuarterUtil.java:27-31 | A Q1 whose 1 January is a Wednesday is anchored on 30 December of the year before. |
| `QuarterUtil.WednesdayNewYearSecondWeek` | src/main/java/com/duckstar/util/QuarterUtil.java:65-73 | For such a Q1, the second week starts on 6 January. |
| `WeekLookup.GetWeekByTime` | src/main/java/com/duckstar/service/WeekService.java:57-60 | A found week is in the table and covers the instant (start inclusive, end exclusive). `WEEK_NOT_FOUND` is returned exactly when no week covers it. |
| `WeekLookup.WeekByTimeIsTheCoveringWeek` | src/main/java/com/duckstar/service/WeekService.java:57-60 | When week windows do not overlap, the week found is the one week covering the instant. |
| `WeekLookup.GetQuarterIdByYQ` | src/main/java/com/duckstar/service/WeekService.java:62-65 | The id belongs to a quarter row with that year and quarter. `QUARTER_NOT_FOUND` is returned exactly when no row has them. |
| `WeekLookup.FindWeekById` | src/main/java/com/duckstar/service/WeekService.java:155-156 | A found week is in the table with that id; nothing is found exactly when no week has it. |
| `SeasonListing.PreparedCounts` | src/main/java/com/duckstar/service/WeekService.java:73-74 | The filter keeps each prepared season as often as it occurs, and no unprepared one. |
| `SeasonListing.SortSeasons` | src/main/java/com/duckstar/service/WeekService.java:75-76 | The result is ordered by year, then type order, and is a permutation of the input. |
| `SeasonListing.GroupByYear` | src/main/java/com/duckstar/service/WeekService.java:77-81 | The map's years are exactly the years in the list. Each year maps to the types of that year's seasons, in list order. A year is in the key order exactly when it is in the map. |
| `SeasonListing.GroupByYearKeysAscend` | src/main/java/com/duckstar/service/WeekService.java:75-81 | Grouping a year-sorted list puts the years into the linked map in strictly ascending order. |
| `SeasonListing.SeasonsOfYearSorted` | src/main/java/com/duckstar/service/WeekService.java:75-76 | Within one year of a sorted list, the seasons come in ascending type order. |
| `SeasonListing.GetSeasons` | src/main/java/com/duckstar/service/WeekService.java:72-82 | The keys are the years of the prepared seasons, each once, in ascending order, and they match the map's keys. |
| `SeasonListing.GetSeasonsYearList` | src/main/java/com/duckstar/service/WeekService.java:72-82 | A year's list is the types of that year's seasons in ascending type order, counting each prepared season of that year as often as it occurs and nothing else. |
| `Schedule.WeeklyScheduleWindow` | src/main/java/com/duckstar/service/WeekService.java:86-90 | The window starts on a Monday zero to six days before today, at the offset's hour and minute with zero seconds and nanos. It ends at the same time exactly seven days later. |
| `Schedule.WindowStartsOnLatestMonday` | src/main/java/com/duckstar/service/WeekService.java:86-89 | No Monday on or before today is later than the window's start date. |
| `Schedule.WindowHoldsNowUnlessEarlyMonday` | src/main/java/com/duckstar/service/WeekService.java:84-90 | The window holds the current instant exactly unless it is Monday before the offset time. |
| `Schedule.GroupByDay` | src/main/java/com/duckstar/service/WeekService.java:98-106 | The groups' keys are exactly the previews' days, with `NONE` for a preview without a day. |
| `Schedule.GroupByDayIsFilter` | src/main/java/com/duckstar/service/WeekService.java:98-106 | Each group is the previews with its key, in their original order; a key with no group has no previews. |
| `Schedule.FillAbsent` | src/main/java/com/duckstar/service/WeekService.java:108-111 | Every listed key becomes present; existing lists are unchanged and new keys map to the empty list. |
| `Schedule.BuildSchedule` | src/main/java/com/duckstar/service/WeekService.java:98-111 | Every day key is present. The keys are the days plus the previews' keys. Each list is the previews of that key in order, empty for a day with none. |
| `Schedule.SchedulePartitionsPreviews` | src/main/java/com/duckstar/service/WeekService.java:98-111 | Every preview is counted, as often as it occurs, in the bucket of its own key and in no other. |
| `Schedule.GetWeeklyScheduleFromOffset` | src/main/java/com/duckstar/service/WeekService.java:84-116 | Year and quarter are absent, every day key is present, and each list is the window's previews of that day. |
| `Schedule.GetScheduleByQuarterId` | src/main/java/com/duckstar/service/WeekService.java:118-143 | `QUARTER_NOT_FOUND` is returned exactly when the quarter lookup fails. Otherwise the result carries the year and quarter, with every day key present and each list the quarter's previews of that day. |
| `RankSlice.AddInt32` | src/main/java/com/duckstar/service/WeekService.java:151 | The sum is a 32-bit value congruent to the exact sum modulo 2^32, as Java's two's-complement `int` addition wraps; it is the exact sum whenever that fits. |
| `RankSlice.TrimOverFetch` | src/main/java/com/duckstar/service/WeekService.java:162-172 | There is a next page exactly when more than `size` rows came back; the rows shown are the first `min(size, fetched)`. |
| `RankSlice.OverFetchShowsOnePage` | src/main/java/com/duckstar/service/WeekService.java:149-172 | Fetching `size + 1` rows at an offset and trimming shows the `size` rows there. It reports a next page exactly when the ranking continues past them. |
| `RankSlice.GetAnimeRankSlice` | src/main/java/com/duckstar/service/WeekService.java:145-186 | The errors come first. The page request is rejected exactly when `size + 1` overflows. `WEEK_NOT_FOUND` is returned exactly for a missing week, and `ANNOUNCEMENT_NOT_PREPARED` exactly for an unannounced week. Otherwise the rows are the `size` rows at offset `page * (size + 1)`, with the next-page flag to match. |
| `RankSlice.AsWrittenPagePositions` | src/main/java/com/duckstar/service/WeekService.java:149-161 | As written, slot `j` of page `p` shows ranking row `p * (size + 1) + j`, with `j < size`. |
| `RankSlice.AsWrittenSkipsRows` | src/main/java/com/duckstar/service/WeekService.java:149-161 | As written, row `k * (size + 1) + size` is shown in no slot of any page. |
| `RankSlice.AsWrittenHidesSecondRow` | src/main/java/com/duckstar/service/WeekService.java:149-172 | With pages of one row over the ranking 1, 2, 3, no page shows row 2. |
| `RankSlice.GetAnimeRankSliceIntended` | src/main/java/com/duckstar/service/WeekService.java:145-186 | With offset `page * size`, a slice is served exactly when the week exists, is announced and `size + 1` fits an `int`. The rows are the `size` rows at that offset, with the next-page flag to match. |
| `RankSlice.IntendedSameErrors` | src/main/java/com/duckstar/service/WeekService.java:149-158 | The intended slice fails exactly when the slice as written fails, and with the same error. |
| `RankSlice.IntendedPagesTile` | src/main/java/com/duckstar/service/WeekService.java:149-172 | With the intended offset, ranking row `i` is slot `i % size` of page `i / size`: every row is shown. |
| `RankSlice.IntendedHasNextMeansMoreRows` | src/main/java/com/duckstar/service/WeekService.java:162-172 | With the intended offset, a page reports a next page exactly when the next page has rows. |
| `Rollover.CandidatesNameEachAnime` | src/main/java/com/duckstar/service/WeekService.java:213-218 | The candidates created name exactly the eligible anime, one each, in order. |
| `Rollover.SetupWeeklyVote` | src/main/java/com/duckstar/service/WeekService.java:189-223 | `WEEK_NOT_FOUND` is returned exactly when the last week is missing. Otherwise: the last week is closed. Its quarter counts as changed exactly when the quarter numbers differ (the year is not compared). The quarter and season come from the services with that flag. A new week, created with the record's week number, is saved under a fresh id and opened. Other weeks are unchanged. One candidate per eligible anime is appended, bound to the new week. The store stays well formed. |
| `Rollover.RolloverMovesTheOpenWeek` | src/main/java/com/duckstar/service/WeekService.java:189-223 | If at most the last week was open, then afterwards the new week is the only open week. |
| `Rollover.RerunOpensASecondWeek` | src/main/java/com/duckstar/service/WeekService.java:189-195 | A second rollover from the same last week succeeds again, with another new week, and leaves both new weeks open. |
| `VoteCookieManager.ToPrincipalKey` | src/main/java/com/duckstar/web/support/VoteCookieManager.java:45-49 | A member is keyed `m:` plus the id in decimal, whatever the cookie. Otherwise a non-blank cookie is keyed `c:` plus the cookie. `VOTE_AUTH_REQUIRED` is returned exactly when there is no member and the cookie is null or blank, including whitespace-only. |
| `VoteCookieManager.DecimalStringInjective` | src/main/java/com/duckstar/web/support/VoteCookieManager.java:46 | Different member ids print differently. |
| `VoteCookieManager.MemberAndCookieKeysNeverCollide` | src/main/java/com/duckstar/web/support/VoteCookieManager.java:46-47 | A member's key never equals an anonymous voter's key. |
| `VoteCookieManager.PrincipalKeyIdentifiesVoter` | src/main/java/com/duckstar/web/support/VoteCookieManager.java:45-49 | Equal keys come from the same member, or, for anonymous voters, from the same cookie. |
| `VoteCookieManager.VoteCookieValue` | src/main/java/com/duckstar/web/support/VoteCookieManager.java:21-28 | The value is that of the first cookie named `vote_cookie_id`, or absent when there is none. |
| `VoteCookieManager.ScanVoteCookie` | src/main/java/com/duckstar/web/support/VoteCookieManager.java:20-28 | The loop that stops at the first matching cookie finds the same value as the first-match definition, and nothing when the request has no cookies. |
| `VoteCookieManager.LaterDuplicatesIgnored` | src/main/java/com/duckstar/web/support/VoteCookieManager.java:21-28 | Cookies after the first `vote_cookie_id` never change what is found. |
| `VoteCookieManager.EnsureVoteCookie` | src/main/java/com/duckstar/web/support/VoteCookieManager.java:17-43 | As written, the existing value is reused, with no `Set-Cookie`, exactly when it is present and blank. Otherwise the fresh id is returned and set. The cookie is `vote_cookie_id`, HttpOnly, Secure, SameSite=Lax, path `/`, max-age 180 days (15,552,000 s). |
| `VoteCookieManager.AsWrittenReissuesUsableCookie` | src/main/java/com/duckstar/web/support/VoteCookieManager.java:29-42 | As written, a present non-blank cookie is replaced, and the voter's principal key changes. |
| `VoteCookieManager.AsWrittenBlankCookieCannotVote` | src/main/java/com/duckstar/web/support/VoteCookieManager.java:29 | As written, a blank cookie is handed back, and no principal key can be made from it. |
| `VoteCookieManager.AsWrittenReplacesAbc` | src/main/java/com/duckstar/web/support/VoteCookieManager.java:29-42 | A request carrying `vote_cookie_id=abc` gets the fresh id instead of `abc`. |
| `VoteCookieManager.EnsureVoteCookieIntended` | src/main/java/com/duckstar/web/support/VoteCookieManager.java:19-43 | With the intended test, the existing value is reused exactly when it is present and not blank. Otherwise a fresh 180-day cookie is set. |
| `VoteCookieManager.IntendedKeepsVoterIdentity` | src/main/java/com/duckstar/web/support/VoteCookieManager.java:29 | With the intended test, a usable cookie is kept and yields the same `c:` principal key. |
| `VoteCookieManager.IntendedAlwaysYieldsPrincipalKey` | src/main/java/com/duckstar/web/support/VoteCookieManager.java:29-42 | With the intended test and a non-blank fresh id, the returned id always yields a principal key. |

## Left out

- Persistence, Spring Data query derivation, JPA dirty checking and
  `@Transactional` boundaries: tables are lists or maps passed in, and a
  query with one `Optional` result is the first matching row.
- Race safety and concurrency: the find-or-create of quarters and seasons,
  and concurrent rollovers. The model is sequential.
- `LocalDateTime.now()`: `now` is a parameter. Because of this,
  `getCurrentWeek` is `GetWeekByTime` applied to a given instant.
- `getWeekIdByYQW`: a single repository query with `orElseThrow`. It is the
  same pattern as `GetQuarterIdByYQ`, over a repository query that is not modelled.
- `UUID.randomUUID()`: `freshId` is a parameter. `ResponseCookie` header text
  and the servlet request and response are not modelled; the Set-Cookie
  becomes a `SetCookie` value.
- `SeasonService.getOrCreateQuarter`, `SeasonService.getOrCreateSeason`,
  `AnimeService.getAnimesForCandidate`, `Week.create`: their code is not part
  of this model, so they are uninterpreted parameters.
- `Week.closeVote` and `Week.openVote`: their code is not part of this model.
  They are modelled as setting the status to closed and open, with no guard
  on the previous status.
- `DayOfWeekShort` and `SeasonType`: the enums are not part of this model.
  They are type parameters, with `values()` and `NONE` passed in.
- The ranking, preview and season queries, and `EpisodeStarRepositoryCustomImpl`:
  these are query text. Their results are parameters (the ranking list, the
  preview lists).
- The response DTOs and `WeekVoteSubmissionRepository`: these hold no logic
  beyond field copying. The rank slice's two trend previews are always
  `null` and are dropped.
- A query that throws when several rows match: the model takes the first
  matching row.
- Time zones and daylight saving: a `LocalDateTime` is a naive wall-clock
  value on one linear timeline.
- The Java `int` range of `year`, `quarter` and `week` values, and the
  `long` range of member ids: these are unbounded integers. Only `size + 1`
  in the rank slice can overflow for inputs a `Pageable` admits.
- `java.time`'s year range, -999,999,999 to 999,999,999: `LocalDate` years
  are unbounded integers here, so the `DateTimeException` that `LocalDate.of`,
  `plusDays` and `previousOrSame` throw outside that range is not modelled.
  For an instant in Q4 of year 999,999,999, `resolveAnchor` computes the next
  quarter's anchor in year 1,000,000,000 and throws, while `ResolveAnchor`
  and `GetThisWeekRecord` return a record.
- SeasonListing.SortSeasons: the insertion keeps seasons with equal (year,
  type order) in input order, as Java's stable sort does. The contract states
  order and permutation only, not this stability, so the order of two types
  with the same type order in one year is not pinned down.
- QuarterUtil.WednesdayNewYearAnchorDate: states the anchor's date only. Its
  time of day (18:00) is stated for every anchor by `AnchorForQuarter`.

## Findings

| source | as written | input that shows it | evidently intended | confidence | as-written member | corrected member |
|---|---|---|---|---|---|---|
| src/main/java/com/duckstar/service/WeekService.java:149-172 | The fetch uses `PageRequest.of(page, size + 1)`, whose offset is `page * (size + 1)`, while only `size` rows are shown | `size` = 1 over a ranking of three rows: page 0 shows row 1 and page 1 shows row 3; row 2 is never shown | Fetch `size + 1` rows from offset `page * size`, so pages tile the ranking | high (not executed) | `RankSlice.AsWrittenHidesSecondRow` | `RankSlice.IntendedPagesTile` |
| src/main/java/com/duckstar/web/support/VoteCookieManager.java:29 | An existing cookie is reused only when it is blank (`existing.isBlank()`) | A request with `vote_cookie_id=abc` gets a fresh id and a new Set-Cookie on every call | Reuse when the value is present and not blank (`!existing.isBlank()`) | high (not executed) | `VoteCookieManager.AsWrittenReplacesAbc` | `VoteCookieManager.IntendedKeepsVoterIdentity` |
