/**
 * `getAnimeRankSliceDto`: one page of a week's anime ranking, fetched with
 * one extra row so that the page knows whether a next page exists.
 *
 * The ranking query itself is not part of this model: `ranking` is the
 * week's full ranked list in query order, and a fetch with a `Pageable` is
 * the window `[offset, offset + limit)` of it, where Spring Data's
 * `PageRequest` puts the offset at `pageNumber * pageSize`.
 */
module RankSlice {
  import opened ApiStatus
  import opened WeekDomain
  import opened WeekLookup

  const MaxInt32: int := 0x7fff_ffff

  /** Java `int` addition: the exact sum wrapped into 32-bit two's complement. */
  function AddInt32(a: int, b: int): (r: int)
    ensures -MaxInt32 - 1 <= r <= MaxInt32
    ensures -MaxInt32 - 1 <= a + b <= MaxInt32 ==> r == a + b
    ensures (r - (a + b)) % 0x1_0000_0000 == 0
  {
    var m := (a + b + MaxInt32 + 1) % 0x1_0000_0000;
    m - MaxInt32 - 1
  }

  datatype PageInfo = PageInfo(hasNext: bool, page: int, size: int)

  /** `AnimeRankSliceDto`; the two trend-ranking previews are always `null` and are not kept. */
  datatype AnimeRankSlice<R> = AnimeRankSlice(animeRankDtos: seq<R>, pageInfo: PageInfo)

  /** Spring Data's `PageRequest.getOffset`: the first row of page `page` with pages of `pageSize` rows. */
  function PageOffset(page: nat, pageSize: nat): nat {
    page * pageSize
  }

  function Min(a: int, b: int): int {
    if a <= b then a else b
  }

  /** The rows a fetch with this offset and limit returns. */
  function Window<R>(ranking: seq<R>, offset: int, limit: int): (w: seq<R>)
    requires 0 <= offset && 0 <= limit
    ensures |w| == if offset < |ranking| then Min(limit, |ranking| - offset) else 0
    ensures forall j :: 0 <= j < |w| ==> w[j] == ranking[offset + j]
  {
    if |ranking| <= offset then [] else ranking[offset..Min(offset + limit, |ranking|)]
  }

  /**
   * The trimming step shared by every way of fetching: more than `size` rows
   * means there is a next page, and only the first `size` rows are shown.
   */
  function TrimOverFetch<R>(rows: seq<R>, size: int): (r: (seq<R>, bool))
    requires 0 <= size
    ensures r.1 <==> |rows| > size
    ensures r.0 == rows[..Min(size, |rows|)]
  {
    var duckstarHasNext := |rows| > size;
    var animeTrendHasNext := false;
    var aniLabHasNext := false;
    var hasNextTotal := duckstarHasNext || animeTrendHasNext || aniLabHasNext;
    (if hasNextTotal then rows[..size] else rows, hasNextTotal)
  }

  /** The week exists and its ranking is announced, and the over-fetch size `size + 1` fits an `int`. */
  predicate SliceServed(weeks: seq<Week>, weekId: int, size: int) {
    && size < MaxInt32
    && FindWeekById(weeks, weekId).Some?
    && FindWeekById(weeks, weekId).value.announcePrepared
  }

  /**
   * `getAnimeRankSliceDto` as written. `page` and `size` come from a
   * `Pageable`, so `page >= 0` and `1 <= size`, both Java `int`s.
   */
  function GetAnimeRankSlice<R>(weeks: seq<Week>, weekId: int, page: int, size: int, ranking: seq<R>)
    : (r: Result<AnimeRankSlice<R>>)
    requires 0 <= page <= MaxInt32 && 1 <= size <= MaxInt32
    ensures r == Err(IllegalPageRequest) <==> size == MaxInt32
    ensures size < MaxInt32 ==>
              (r == Err(WeekNotFound) <==> forall w :: w in weeks ==> w.id != weekId)
    ensures r == Err(AnnouncementNotPrepared) <==>
              size < MaxInt32 && (exists w :: w in weeks && w.id == weekId)
              && !FindWeekById(weeks, weekId).value.announcePrepared
    ensures r.Ok? <==> SliceServed(weeks, weekId, size)
    ensures r.Ok? ==>
              var offset := PageOffset(page, size + 1);
              && r.value.pageInfo == PageInfo(|ranking| > offset + size, page, size)
              && r.value.animeRankDtos == Window(ranking, offset, size)
  {
    var overFetchSize := AddInt32(size, 1);
    // PageRequest.of rejects a page size below one, which only an overflow produces here.
    if overFetchSize < 1 then Err(IllegalPageRequest)
    else
      match FindWeekById(weeks, weekId)
      case None => Err(WeekNotFound)
      case Some(week) =>
        if !week.announcePrepared then Err(AnnouncementNotPrepared)
        else
          var offset := PageOffset(page, overFetchSize);
          OverFetchShowsOnePage(ranking, offset, size);
          var fetched := Window(ranking, offset, overFetchSize);
          var (rows, hasNextTotal) := TrimOverFetch(fetched, size);
          Ok(AnimeRankSlice(rows, PageInfo(hasNextTotal, page, size)))
  }

  /**
   * Fetching `size + 1` rows at `offset` and trimming shows the `size` rows at
   * `offset`, and reports a next page exactly when the ranking goes on past them.
   */
  lemma OverFetchShowsOnePage<R>(ranking: seq<R>, offset: int, size: int)
    requires 0 <= offset && 1 <= size
    ensures var (rows, hasNext) := TrimOverFetch(Window(ranking, offset, size + 1), size);
            && (hasNext <==> |ranking| > offset + size)
            && rows == Window(ranking, offset, size)
  {
  }

  /** The rank slice with the fetch offset the paging evidently intends: `page * size`. */
  function GetAnimeRankSliceIntended<R>(weeks: seq<Week>, weekId: int, page: int, size: int, ranking: seq<R>)
    : (r: Result<AnimeRankSlice<R>>)
    requires 0 <= page <= MaxInt32 && 1 <= size <= MaxInt32
    ensures r.Ok? <==> SliceServed(weeks, weekId, size)
    ensures r.Ok? ==>
              && r.value.pageInfo == PageInfo(|ranking| > PageOffset(page, size) + size, page, size)
              && r.value.animeRankDtos == Window(ranking, PageOffset(page, size), size)
  {
    var overFetchSize := AddInt32(size, 1);
    if overFetchSize < 1 then Err(IllegalPageRequest)
    else
      match FindWeekById(weeks, weekId)
      case None => Err(WeekNotFound)
      case Some(week) =>
        if !week.announcePrepared then Err(AnnouncementNotPrepared)
        else
          var offset := PageOffset(page, size);
          OverFetchShowsOnePage(ranking, offset, size);
          var fetched := Window(ranking, offset, overFetchSize);
          var (rows, hasNextTotal) := TrimOverFetch(fetched, size);
          Ok(AnimeRankSlice(rows, PageInfo(hasNextTotal, page, size)))
  }

  /** The intended slice fails exactly when, and exactly as, the slice as written does. */
  lemma IntendedSameErrors<R>(weeks: seq<Week>, weekId: int, page: int, size: int, ranking: seq<R>)
    requires 0 <= page <= MaxInt32 && 1 <= size <= MaxInt32
    ensures var r := GetAnimeRankSliceIntended(weeks, weekId, page, size, ranking);
            && (r.Err? <==> GetAnimeRankSlice(weeks, weekId, page, size, ranking).Err?)
            && (r.Err? ==> r == GetAnimeRankSlice(weeks, weekId, page, size, ranking))
  {
  }

  /** The ranking position a page shows in slot `j`, as written. */
  lemma AsWrittenPagePositions<R>(weeks: seq<Week>, weekId: int, page: int, size: int, ranking: seq<R>, j: int)
    requires 0 <= page <= MaxInt32 && 1 <= size <= MaxInt32
    requires SliceServed(weeks, weekId, size)
    requires 0 <= j < |GetAnimeRankSlice(weeks, weekId, page, size, ranking).value.animeRankDtos|
    ensures j < size
    ensures GetAnimeRankSlice(weeks, weekId, page, size, ranking).value.animeRankDtos[j] == ranking[PageOffset(page, size + 1) + j]
  {
    var r := GetAnimeRankSlice(weeks, weekId, page, size, ranking);
    var offset := PageOffset(page, size + 1);
    var w := Window(ranking, offset, size);
    assert r.value.animeRankDtos == w;
    assert |w| <= size;
  }

  /**
   * As written, pages start `size + 1` rows apart but show only `size` rows:
   * the last row of every over-fetch, position `k * (size + 1) + size`, is
   * shown on no page at all.
   */
  lemma AsWrittenSkipsRows(size: int, k: int, page: int, j: int)
    requires 1 <= size && 0 <= k && 0 <= page && 0 <= j < size
    ensures PageOffset(page, size + 1) + j != PageOffset(k, size + 1) + size
  {
    if page <= k {
      assert page * (size + 1) <= k * (size + 1) by {
        MulMonotone(page, k, size + 1);
      }
    } else {
      assert (k + 1) * (size + 1) <= page * (size + 1) by {
        MulMonotone(k + 1, page, size + 1);
      }
    }
  }

  lemma MulMonotone(a: int, b: int, c: int)
    requires a <= b && 0 <= c
    ensures a * c <= b * c
  {
  }

  /** A concrete case: with pages of one row over the ranking 1, 2, 3, the row 2 is never shown. */
  lemma AsWrittenHidesSecondRow(weeks: seq<Week>, weekId: int, page: int)
    requires 0 <= page <= MaxInt32
    requires SliceServed(weeks, weekId, 1)
    ensures 2 !in GetAnimeRankSlice(weeks, weekId, page, 1, [1, 2, 3]).value.animeRankDtos
  {
    var rows := GetAnimeRankSlice(weeks, weekId, page, 1, [1, 2, 3]).value.animeRankDtos;
    forall j | 0 <= j < |rows|
      ensures rows[j] != 2
    {
      AsWrittenPagePositions(weeks, weekId, page, 1, [1, 2, 3], j);
      AsWrittenSkipsRows(1, 0, page, j);
    }
  }

  /** With the intended offset, row `i` of the ranking is slot `i % size` of page `i / size`. */
  lemma IntendedPagesTile<R>(weeks: seq<Week>, weekId: int, size: int, ranking: seq<R>, i: int)
    requires 1 <= size <= MaxInt32 && 0 <= i < |ranking| && i / size <= MaxInt32
    requires SliceServed(weeks, weekId, size)
    ensures var r := GetAnimeRankSliceIntended(weeks, weekId, i / size, size, ranking);
            && r.Ok?
            && i % size < |r.value.animeRankDtos|
            && r.value.animeRankDtos[i % size] == ranking[i]
  {
    PageOfRow(i, size);
    IntendedSlot(weeks, weekId, size, ranking, i / size, i % size);
  }

  /** Slot `j` of page `page`, with the intended offset, shows ranking row `page * size + j` when it exists. */
  lemma IntendedSlot<R>(weeks: seq<Week>, weekId: int, size: int, ranking: seq<R>, page: nat, j: nat)
    requires 1 <= size <= MaxInt32 && page <= MaxInt32 && j < size
    requires PageOffset(page, size) + j < |ranking|
    requires SliceServed(weeks, weekId, size)
    ensures var r := GetAnimeRankSliceIntended(weeks, weekId, page, size, ranking);
            && r.Ok?
            && j < |r.value.animeRankDtos|
            && r.value.animeRankDtos[j] == ranking[PageOffset(page, size) + j]
  {
    var r := GetAnimeRankSliceIntended(weeks, weekId, page, size, ranking);
    assert r.Ok?;
    assert r.value.animeRankDtos == Window(ranking, PageOffset(page, size), size);
  }

  /** Row `i` lies in slot `i % size` of the page that starts at `(i / size) * size`. */
  lemma PageOfRow(i: int, size: int)
    requires 0 <= i && 1 <= size
    ensures PageOffset(i / size, size) + i % size == i
    ensures 0 <= i % size < size
  {
  }

  /** The next page starts `size` rows later. */
  lemma NextPageOffset(page: nat, size: nat)
    ensures PageOffset(page + 1, size) == PageOffset(page, size) + size
  {
  }

  /** With the intended offset, a page says there is a next page exactly when that page has rows. */
  lemma IntendedHasNextMeansMoreRows<R>(weeks: seq<Week>, weekId: int, page: int, size: int, ranking: seq<R>)
    requires 0 <= page < MaxInt32 && 1 <= size <= MaxInt32
    requires SliceServed(weeks, weekId, size)
    ensures GetAnimeRankSliceIntended(weeks, weekId, page, size, ranking).value.pageInfo.hasNext
            <==> |GetAnimeRankSliceIntended(weeks, weekId, page + 1, size, ranking).value.animeRankDtos| > 0
  {
    NextPageOffset(page, size);
    var r := GetAnimeRankSliceIntended(weeks, weekId, page, size, ranking);
    var next := GetAnimeRankSliceIntended(weeks, weekId, page + 1, size, ranking);
    assert next.Ok?;
    assert next.value.animeRankDtos == Window(ranking, PageOffset(page, size) + size, size);
  }
}
