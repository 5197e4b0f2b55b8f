/**
 * `getSeasons`: the prepared seasons, sorted by year and then by type
 * order, grouped by year into an insertion-ordered map (`LinkedHashMap`)
 * whose values list the season types of that year.
 *
 * `SeasonType` is the type parameter `T`.
 */
module SeasonListing {
  import opened WeekDomain

  // ---- filter ----

  /** `.filter(Season::getIsPrepared)`. */
  function Prepared<T>(seasons: seq<Season<T>>): (r: seq<Season<T>>)
    ensures forall i :: 0 <= i < |r| ==> r[i].isPrepared
  {
    if |seasons| == 0 then []
    else (if seasons[0].isPrepared then [seasons[0]] else []) + Prepared(seasons[1..])
  }

  /** The filter keeps every prepared season, as often as it occurs, and nothing else. */
  lemma {:induction false} PreparedCounts<T>(seasons: seq<Season<T>>, s: Season<T>)
    ensures multiset(Prepared(seasons))[s] == if s.isPrepared then multiset(seasons)[s] else 0
  {
    if |seasons| > 0 {
      PreparedCounts(seasons[1..], s);
      assert seasons == [seasons[0]] + seasons[1..];
    }
  }

  // ---- stable sort ----

  /** `Comparator.comparing(getYearValue).thenComparing(getTypeOrder)`: `a` sorts no later than `b`. */
  predicate KeyLe<T>(a: Season<T>, b: Season<T>) {
    a.yearValue < b.yearValue || (a.yearValue == b.yearValue && a.typeOrder <= b.typeOrder)
  }

  predicate Sorted<T>(s: seq<Season<T>>) {
    forall i, j :: 0 <= i < j < |s| ==> KeyLe(s[i], s[j])
  }

  /** Insert `x` after every element that sorts no later than it, which keeps equal keys in arrival order. */
  function Insert<T>(sorted: seq<Season<T>>, x: Season<T>): (r: seq<Season<T>>)
    requires Sorted(sorted)
    ensures Sorted(r)
    ensures multiset(r) == multiset(sorted) + multiset{x}
  {
    if |sorted| == 0 || KeyLe(sorted[|sorted| - 1], x) then sorted + [x]
    else
      var init := sorted[..|sorted| - 1];
      var last := sorted[|sorted| - 1];
      assert sorted == init + [last];
      var r := Insert(init, x);
      forall k | 0 <= k < |init|
        ensures KeyLe(init[k], last)
      {
        assert init[k] == sorted[k];
      }
      BoundedByParts(r, init, x, last);
      r + [last]
  }

  /** A list made of the elements of `parts` and `x` is bounded when they are. */
  lemma BoundedByParts<T>(r: seq<Season<T>>, parts: seq<Season<T>>, x: Season<T>, bound: Season<T>)
    requires multiset(r) == multiset(parts) + multiset{x}
    requires forall k :: 0 <= k < |parts| ==> KeyLe(parts[k], bound)
    requires KeyLe(x, bound)
    ensures forall k :: 0 <= k < |r| ==> KeyLe(r[k], bound)
  {
    forall k | 0 <= k < |r|
      ensures KeyLe(r[k], bound)
    {
      assert r[k] in multiset(r);
      if r[k] != x {
        assert r[k] in multiset(parts);
        var m :| 0 <= m < |parts| && parts[m] == r[k];
      }
    }
  }

  /** `.sorted(...)`: a stable insertion sort, as Java's list sort is stable. */
  function SortSeasons<T>(seasons: seq<Season<T>>): (r: seq<Season<T>>)
    ensures Sorted(r)
    ensures multiset(r) == multiset(seasons)
  {
    if |seasons| == 0 then []
    else
      var init := seasons[..|seasons| - 1];
      assert seasons == init + [seasons[|seasons| - 1]];
      Insert(SortSeasons(init), seasons[|seasons| - 1])
  }

  // ---- grouping ----

  /** A `LinkedHashMap<Integer, List<T>>`: keys in insertion order, and the map itself. */
  datatype LinkedMap<T> = LinkedMap(keys: seq<int>, values: map<int, seq<T>>)

  /** `computeIfAbsent(year, new list).add(t)`: a new key goes to the end of the key order. */
  function Add<T>(m: LinkedMap<T>, year: int, t: T): LinkedMap<T> {
    if year in m.values then LinkedMap(m.keys, m.values[year := m.values[year] + [t]])
    else LinkedMap(m.keys + [year], m.values[year := [t]])
  }

  /** `Collectors.groupingBy(getYearValue, LinkedHashMap::new, mapping(getType, toList()))`. */
  function GroupByYear<T>(sorted: seq<Season<T>>): (m: LinkedMap<T>)
    ensures m.values.Keys == set i | 0 <= i < |sorted| :: sorted[i].yearValue
    ensures forall y :: y in m.values ==> m.values[y] == TypesOf(SeasonsOfYear(sorted, y))
    ensures forall k :: k in m.keys <==> k in m.values
  {
    if |sorted| == 0 then LinkedMap([], map[])
    else
      var init := sorted[..|sorted| - 1];
      var x := sorted[|sorted| - 1];
      assert sorted == init + [x];
      assert forall i :: 0 <= i < |init| ==> init[i] == sorted[i];
      var g := GroupByYear(init);
      AddKeepsGroups(init, x, g);
      Add(g, x.yearValue, x.seasonType)
  }

  /** Adding one more season to the groups of a list gives the groups of the longer list. */
  lemma AddKeepsGroups<T>(init: seq<Season<T>>, x: Season<T>, g: LinkedMap<T>)
    requires g.values.Keys == set i | 0 <= i < |init| :: init[i].yearValue
    requires forall y :: y in g.values ==> g.values[y] == TypesOf(SeasonsOfYear(init, y))
    requires forall k :: k in g.keys <==> k in g.values
    ensures var m := Add(g, x.yearValue, x.seasonType);
            var sorted := init + [x];
            && m.values.Keys == (set i | 0 <= i < |sorted| :: sorted[i].yearValue)
            && (forall y :: y in m.values ==> m.values[y] == TypesOf(SeasonsOfYear(sorted, y)))
            && (forall k :: k in m.keys <==> k in m.values)
  {
    var m := Add(g, x.yearValue, x.seasonType);
    AddKeys(g, x.yearValue, x.seasonType);
    YearsOfAppend(init, x);
    forall y | y in m.values
      ensures m.values[y] == TypesOf(SeasonsOfYear(init + [x], y))
    {
      if y !in g.values {
        assert forall i :: 0 <= i < |init| ==> init[i].yearValue != y;
      }
      AddKeepsGroup(init, x, g, y);
    }
  }

  /** `Add` puts the year into the map and, when it is new, at the end of the key order. */
  lemma AddKeys<T>(g: LinkedMap<T>, year: int, t: T)
    requires forall k :: k in g.keys <==> k in g.values
    ensures var m := Add(g, year, t);
            && m.values.Keys == g.values.Keys + {year}
            && (forall k :: k in m.keys <==> k in m.values)
  {
  }

  /** One year's group after adding a season: that year's types with the new one appended, others unchanged. */
  lemma AddKeepsGroup<T>(init: seq<Season<T>>, x: Season<T>, g: LinkedMap<T>, y: int)
    requires y in g.values ==> g.values[y] == TypesOf(SeasonsOfYear(init, y))
    requires y !in g.values ==> forall i :: 0 <= i < |init| ==> init[i].yearValue != y
    requires y in g.values || y == x.yearValue
    ensures Add(g, x.yearValue, x.seasonType).values[y] == TypesOf(SeasonsOfYear(init + [x], y))
  {
    SeasonsOfYearAppend(init, [x], y);
    assert SeasonsOfYear([x], y) == (if x.yearValue == y then [x] else []) + SeasonsOfYear([x][1..], y);
    if y == x.yearValue {
      if y !in g.values {
        SeasonsOfYearEmpty(init, y);
      }
      TypesOfAppend(SeasonsOfYear(init, y), [x]);
    }
  }

  /** The years of a list with one more season. */
  lemma YearsOfAppend<T>(init: seq<Season<T>>, x: Season<T>)
    ensures (set i | 0 <= i < |init + [x]| :: (init + [x])[i].yearValue)
            == (set i | 0 <= i < |init| :: init[i].yearValue) + {x.yearValue}
  {
    var sorted := init + [x];
    forall i | 0 <= i < |init|
      ensures init[i].yearValue in (set i | 0 <= i < |sorted| :: sorted[i].yearValue)
    {
      assert sorted[i] == init[i];
    }
    assert sorted[|init|] == x;
  }

  lemma {:induction false} TypesOfAppend<T>(a: seq<Season<T>>, b: seq<Season<T>>)
    ensures TypesOf(a + b) == TypesOf(a) + TypesOf(b)
  {
  }

  /** A year no season has selects nothing. */
  lemma {:induction false} SeasonsOfYearEmpty<T>(s: seq<Season<T>>, y: int)
    requires forall i :: 0 <= i < |s| ==> s[i].yearValue != y
    ensures SeasonsOfYear(s, y) == []
  {
    if |s| > 0 {
      SeasonsOfYearEmpty(s[1..], y);
    }
  }

  /** Reference definition: the seasons of year `y`, in list order. */
  function SeasonsOfYear<T>(s: seq<Season<T>>, y: int): seq<Season<T>> {
    if |s| == 0 then []
    else (if s[0].yearValue == y then [s[0]] else []) + SeasonsOfYear(s[1..], y)
  }

  /** `Collectors.mapping(Season::getType, toList())`. */
  function TypesOf<T>(s: seq<Season<T>>): (r: seq<T>)
    ensures |r| == |s|
    ensures forall i :: 0 <= i < |s| ==> r[i] == s[i].seasonType
  {
    if |s| == 0 then [] else [s[0].seasonType] + TypesOf(s[1..])
  }

  lemma {:induction false} SeasonsOfYearAppend<T>(a: seq<Season<T>>, b: seq<Season<T>>, y: int)
    ensures SeasonsOfYear(a + b, y) == SeasonsOfYear(a, y) + SeasonsOfYear(b, y)
  {
    if |a| == 0 {
      assert a + b == b;
    } else {
      var head := if a[0].yearValue == y then [a[0]] else [];
      assert (a + b)[0] == a[0];
      assert (a + b)[1..] == a[1..] + b;
      SeasonsOfYearAppend(a[1..], b, y);
      calc {
        SeasonsOfYear(a + b, y);
        head + SeasonsOfYear(a[1..] + b, y);
        head + (SeasonsOfYear(a[1..], y) + SeasonsOfYear(b, y));
        (head + SeasonsOfYear(a[1..], y)) + SeasonsOfYear(b, y);
      }
    }
  }

  /** The seasons of one year are seasons of the list, of that year. */
  lemma {:induction false} SeasonsOfYearMembers<T>(s: seq<Season<T>>, y: int)
    ensures forall i :: 0 <= i < |SeasonsOfYear(s, y)| ==> SeasonsOfYear(s, y)[i].yearValue == y
    ensures forall i :: 0 <= i < |SeasonsOfYear(s, y)| ==> SeasonsOfYear(s, y)[i] in s[1..] || SeasonsOfYear(s, y)[i] == s[0]
  {
    if |s| > 0 {
      var tail := s[1..];
      SeasonsOfYearMembers(tail, y);
      var head := if s[0].yearValue == y then [s[0]] else [];
      var rest := SeasonsOfYear(tail, y);
      assert SeasonsOfYear(s, y) == head + rest;
      forall i | 0 <= i < |rest|
        ensures rest[i] in tail
      {
        if rest[i] != tail[0] {
          assert rest[i] in tail[1..];
          var k :| 0 <= k < |tail[1..]| && tail[1..][k] == rest[i];
          assert rest[i] == tail[k + 1];
        }
      }
    }
  }

  /** The seasons of one year, taken from a sorted list, are in ascending type order. */
  lemma {:induction false} SeasonsOfYearSorted<T>(s: seq<Season<T>>, y: int)
    requires Sorted(s)
    ensures TypeOrderAscending(SeasonsOfYear(s, y))
  {
    if |s| > 0 {
      var tail := s[1..];
      SortedTail(s);
      SeasonsOfYearSorted(tail, y);
      SeasonsOfYearMembers(tail, y);
      HeadBeforeYearOfTail(s, y);
      var head := if s[0].yearValue == y then [s[0]] else [];
      assert SeasonsOfYear(s, y) == head + SeasonsOfYear(tail, y);
      ConsAscending(head, SeasonsOfYear(tail, y));
    }
  }

  /** Ascending `typeOrder` along a list. */
  predicate TypeOrderAscending<T>(s: seq<Season<T>>) {
    forall i, j :: 0 <= i < j < |s| ==> s[i].typeOrder <= s[j].typeOrder
  }

  /** A sorted list stays sorted without its first element. */
  lemma SortedTail<T>(s: seq<Season<T>>)
    requires Sorted(s) && |s| > 0
    ensures Sorted(s[1..])
  {
    var tail := s[1..];
    forall i, j | 0 <= i < j < |tail|
      ensures KeyLe(tail[i], tail[j])
    {
      assert tail[i] == s[i + 1] && tail[j] == s[j + 1];
    }
  }

  /** A sorted list stays sorted without its last element. */
  lemma SortedInit<T>(s: seq<Season<T>>)
    requires Sorted(s) && |s| > 0
    ensures Sorted(s[..|s| - 1])
  {
    var init := s[..|s| - 1];
    forall i, j | 0 <= i < j < |init|
      ensures KeyLe(init[i], init[j])
    {
      assert init[i] == s[i] && init[j] == s[j];
    }
  }

  /** The first season of a sorted list sorts no later than any season of a year picked from the rest. */
  lemma HeadBeforeYearOfTail<T>(s: seq<Season<T>>, y: int)
    requires Sorted(s) && |s| > 0
    ensures forall i :: 0 <= i < |SeasonsOfYear(s[1..], y)| ==> KeyLe(s[0], SeasonsOfYear(s[1..], y)[i])
  {
    var tail := s[1..];
    var rest := SeasonsOfYear(tail, y);
    SeasonsOfYearMembers(tail, y);
    forall i | 0 <= i < |rest|
      ensures KeyLe(s[0], rest[i])
    {
      assert rest[i] in tail;
      var k :| 0 <= k < |tail| && tail[k] == rest[i];
      assert rest[i] == s[k + 1];
    }
  }

  /** At most one season of year `y` in front of an ascending run of that year, all no earlier, keeps it ascending. */
  lemma ConsAscending<T>(head: seq<Season<T>>, rest: seq<Season<T>>)
    requires |head| <= 1 && TypeOrderAscending(rest)
    requires forall h :: h in head ==> forall i :: 0 <= i < |rest| ==> KeyLe(h, rest[i])
    requires forall h :: h in head ==> forall i :: 0 <= i < |rest| ==> h.yearValue == rest[i].yearValue
    ensures TypeOrderAscending(head + rest)
  {
    var ys := head + rest;
    forall i, j | 0 <= i < j < |ys|
      ensures ys[i].typeOrder <= ys[j].typeOrder
    {
      if i < |head| {
        assert ys[i] == head[0] && ys[j] == rest[j - 1];
        assert head[0] in head;
        assert KeyLe(head[0], rest[j - 1]);
      } else {
        assert ys[i] == rest[i - |head|] && ys[j] == rest[j - |head|];
      }
    }
  }

  /** The seasons of year `y`, counted: exactly the list's seasons of that year. */
  lemma {:induction false} SeasonsOfYearCounts<T>(s: seq<Season<T>>, y: int, x: Season<T>)
    ensures multiset(SeasonsOfYear(s, y))[x] == if x.yearValue == y then multiset(s)[x] else 0
  {
    if |s| > 0 {
      SeasonsOfYearCounts(s[1..], y, x);
      assert s == [s[0]] + s[1..];
    }
  }

  /** Strictly increasing, so also free of repeats. */
  predicate Ascending(keys: seq<int>) {
    forall i, j :: 0 <= i < j < |keys| ==> keys[i] < keys[j]
  }

  /** In a list sorted by year, the years enter the linked map in ascending order. */
  lemma {:induction false} GroupByYearKeysAscend<T>(sorted: seq<Season<T>>)
    requires Sorted(sorted)
    ensures Ascending(GroupByYear(sorted).keys)
  {
    if |sorted| > 0 {
      var init := sorted[..|sorted| - 1];
      var x := sorted[|sorted| - 1];
      SortedInit(sorted);
      GroupByYearKeysAscend(init);
      var g := GroupByYear(init);
      assert GroupByYear(sorted) == Add(g, x.yearValue, x.seasonType);
      if x.yearValue !in g.values {
        forall i | 0 <= i < |g.keys|
          ensures g.keys[i] < x.yearValue
        {
          assert g.keys[i] in g.values;
          KeyBeforeLastYear(sorted, init, g.keys[i]);
        }
        AppendAscending(g.keys, x.yearValue);
      }
    }
  }

  /** A year of all but the last season of a sorted list is no later than the last season's year. */
  lemma KeyBeforeLastYear<T>(sorted: seq<Season<T>>, init: seq<Season<T>>, k: int)
    requires Sorted(sorted) && |sorted| > 0 && init == sorted[..|sorted| - 1]
    requires k in set i | 0 <= i < |init| :: init[i].yearValue
    ensures k <= sorted[|sorted| - 1].yearValue
  {
    var n :| 0 <= n < |init| && init[n].yearValue == k;
    assert init[n] == sorted[n];
    assert KeyLe(sorted[n], sorted[|sorted| - 1]);
  }

  /** Appending a key above every key keeps the keys ascending. */
  lemma AppendAscending(keys: seq<int>, v: int)
    requires Ascending(keys)
    requires forall i :: 0 <= i < |keys| ==> keys[i] < v
    ensures Ascending(keys + [v])
  {
    var ks := keys + [v];
    forall i, j | 0 <= i < j < |ks|
      ensures ks[i] < ks[j]
    {
      assert ks[i] == keys[i];
      if j < |keys| {
        assert ks[j] == keys[j];
      }
    }
  }

  // ---- the service call ----

  /** The years of a permutation of the prepared seasons are the prepared seasons' years. */
  lemma PreparedYears<T>(seasons: seq<Season<T>>, sorted: seq<Season<T>>)
    requires multiset(sorted) == multiset(Prepared(seasons))
    ensures (set i | 0 <= i < |sorted| :: sorted[i].yearValue) == set s | s in seasons && s.isPrepared :: s.yearValue
  {
    forall s | s in seasons && s.isPrepared
      ensures s.yearValue in set i | 0 <= i < |sorted| :: sorted[i].yearValue
    {
      var i := PreparedIsKept(seasons, sorted, s);
    }
    forall i | 0 <= i < |sorted|
      ensures sorted[i].yearValue in set s | s in seasons && s.isPrepared :: s.yearValue
    {
      KeptIsPrepared(seasons, sorted, i);
    }
  }

  /** A prepared season has a place in any permutation of the filtered list. */
  lemma PreparedIsKept<T>(seasons: seq<Season<T>>, sorted: seq<Season<T>>, s: Season<T>) returns (i: int)
    requires multiset(sorted) == multiset(Prepared(seasons))
    requires s in seasons && s.isPrepared
    ensures 0 <= i < |sorted| && sorted[i] == s
  {
    PreparedCounts(seasons, s);
    assert s in multiset(sorted);
    i :| 0 <= i < |sorted| && sorted[i] == s;
  }

  /** Every element of a permutation of the filtered list is a prepared season of the input. */
  lemma KeptIsPrepared<T>(seasons: seq<Season<T>>, sorted: seq<Season<T>>, i: int)
    requires multiset(sorted) == multiset(Prepared(seasons))
    requires 0 <= i < |sorted|
    ensures sorted[i] in seasons && sorted[i].isPrepared
  {
    assert sorted[i] in multiset(Prepared(seasons));
    PreparedCounts(seasons, sorted[i]);
  }

  /** `getSeasons`. */
  function GetSeasons<T>(seasons: seq<Season<T>>): (r: LinkedMap<T>)
    ensures Ascending(r.keys)
    ensures forall k :: k in r.keys <==> k in r.values
    ensures r.values.Keys == set s | s in seasons && s.isPrepared :: s.yearValue
  {
    var sorted := SortSeasons(Prepared(seasons));
    GroupByYearKeysAscend(sorted);
    PreparedYears(seasons, sorted);
    GroupByYear(sorted)
  }

  /**
   * Each year's list holds that year's prepared season types, in ascending
   * type order: it is the types of a run of prepared seasons of that year,
   * one per prepared season, sorted by type order.
   */
  lemma GetSeasonsYearList<T>(seasons: seq<Season<T>>, y: int)
    requires y in GetSeasons(seasons).values
    ensures var ys := SeasonsOfYear(SortSeasons(Prepared(seasons)), y);
            && GetSeasons(seasons).values[y] == TypesOf(ys)
            && (forall i, j :: 0 <= i < j < |ys| ==> ys[i].typeOrder <= ys[j].typeOrder)
            && (forall x :: multiset(ys)[x] == if x.yearValue == y && x.isPrepared then multiset(seasons)[x] else 0)
  {
    var sorted := SortSeasons(Prepared(seasons));
    SeasonsOfYearSorted(sorted, y);
    forall x
      ensures multiset(SeasonsOfYear(sorted, y))[x] == if x.yearValue == y && x.isPrepared then multiset(seasons)[x] else 0
    {
      SeasonsOfYearCounts(sorted, y, x);
      PreparedCounts(seasons, x);
    }
  }
}
