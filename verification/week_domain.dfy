/**
 * The persisted entities `WeekService` reads and writes, reduced to the
 * fields its logic looks at. Identifiers are the database's `Long` keys.
 */
module WeekDomain {
  import opened Calendar

  /** A week's vote state. `Week.openVote` and `Week.closeVote` move between them. */
  datatype VoteStatus = Draft | Open | Closed

  /** A `Quarter` row: one per (year, quarter). */
  datatype QuarterRow = QuarterRow(id: int, yearValue: int, quarterValue: int)

  /**
   * A `Week` row: its quarter, its 1-based number in that quarter, the
   * half-open window `[startDateTime, endDateTime)` it covers, its vote
   * status, and whether its ranking has been announced.
   */
  datatype Week = Week(
    id: int,
    quarter: QuarterRow,
    weekValue: int,
    startDateTime: LocalDateTime,
    endDateTime: LocalDateTime,
    voteStatus: VoteStatus,
    announcePrepared: bool)

  /** Whether the week's window holds `time`: start inclusive, end exclusive. */
  predicate Covers(w: Week, time: LocalDateTime) {
    Stamp(w.startDateTime) <= Stamp(time) < Stamp(w.endDateTime)
  }

  /** No two distinct weeks of a list cover a common instant. */
  ghost predicate WindowsDisjoint(weeks: seq<Week>) {
    forall i, j, t :: 0 <= i < |weeks| && 0 <= j < |weeks| && i != j && Covers(weeks[i], t) ==> !Covers(weeks[j], t)
  }

  /** A `Season` row as the listing sees it. */
  datatype Season<T> = Season(yearValue: int, typeOrder: int, seasonType: T, isPrepared: bool)

  /** An `AnimeCandidate` row: the anime may be voted for in the week. */
  datatype AnimeCandidate = AnimeCandidate(weekId: int, animeId: int)
}
