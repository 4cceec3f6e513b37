/**
  backend/src/services/analytics.py: the restaurant-type breakdown and the top-N
  ranking, computed over the loaded table. The dataframe steps (group, mean,
  merge, sort, head) are functions on sequences of rows; the two loops that
  build the result records are methods proved against those functions.
 */
module Analytics {
  import opened Wrappers
  import Text
  import Numeric
  import Sorting
  import opened Models

  // ---------------------------------------------------------------------------
  // Grouping by restaurant type

  /** The rows of type `t`, in table order. */
  function OfType(rows: seq<Restaurant>, t: string): (g: seq<Restaurant>)
    ensures |g| <= |rows|
    ensures forall i :: 0 <= i < |g| ==> g[i].restaurantType == t
  {
    if rows == [] then []
    else (if rows[0].restaurantType == t then [rows[0]] else []) + OfType(rows[1..], t)
  }

  /** The rows of any type but `t`, in table order. */
  function OtherTypes(rows: seq<Restaurant>, t: string): (rest: seq<Restaurant>)
    ensures |rest| + |OfType(rows, t)| == |rows|
    ensures forall i :: 0 <= i < |rest| ==> rest[i].restaurantType != t
  {
    if rows == [] then []
    else (if rows[0].restaurantType == t then [] else [rows[0]]) + OtherTypes(rows[1..], t)
  }

  /** The restaurant types that occur in the table. */
  function TypesOf(rows: seq<Restaurant>): (ts: set<string>)
    ensures forall i :: 0 <= i < |rows| ==> rows[i].restaurantType in ts
  {
    if rows == [] then {} else {rows[0].restaurantType} + TypesOf(rows[1..])
  }

  /** A type has rows exactly when it occurs in the table. */
  lemma {:induction false} OfTypeNonEmpty(rows: seq<Restaurant>, t: string)
    ensures |OfType(rows, t)| > 0 <==> t in TypesOf(rows)
  {
    if rows != [] {
      OfTypeNonEmpty(rows[1..], t);
    }
  }

  /** Removing the rows of type `t` leaves the rows of every other type alone. */
  lemma {:induction false} OtherTypesKeeps(rows: seq<Restaurant>, t: string, u: string)
    requires u != t
    ensures OfType(OtherTypes(rows, t), u) == OfType(rows, u)
  {
    if rows != [] {
      var r := rows[0];
      var tail := OtherTypes(rows[1..], t);
      OtherTypesKeeps(rows[1..], t, u);
      if r.restaurantType != t {
        var kept := [r] + tail;
        assert OtherTypes(rows, t) == kept;
        assert kept[0] == r && kept[1..] == tail;
        assert OfType(kept, u) == (if r.restaurantType == u then [r] else []) + OfType(tail, u);
      } else {
        assert OtherTypes(rows, t) == tail;
        assert OfType(rows, u) == OfType(rows[1..], u);
      }
    }
  }

  /** Removing the rows of type `t` removes `t` and no other type. */
  lemma {:induction false} OtherTypesTypes(rows: seq<Restaurant>, t: string)
    ensures TypesOf(OtherTypes(rows, t)) == TypesOf(rows) - {t}
  {
    if rows != [] {
      var r := rows[0];
      var tail := OtherTypes(rows[1..], t);
      OtherTypesTypes(rows[1..], t);
      if r.restaurantType != t {
        var kept := [r] + tail;
        assert OtherTypes(rows, t) == kept;
        assert kept[0] == r && kept[1..] == tail;
        assert TypesOf(kept) == {r.restaurantType} + TypesOf(tail);
      } else {
        assert OtherTypes(rows, t) == tail;
      }
    }
  }

  /** One group of `groupby("restaurant_type")`: its key and its rows. */
  datatype Group = Group(restaurantType: string, members: seq<Restaurant>)

  function GroupSize(g: Group): int {
    |g.members|
  }

  function KeysOf(groups: seq<Group>): (ks: set<string>)
    ensures forall i :: 0 <= i < |groups| ==> groups[i].restaurantType in ks
  {
    if groups == [] then {} else {groups[0].restaurantType} + KeysOf(groups[1..])
  }

  /**
    `groupby("restaurant_type")`: one group per type, the first group holding
    the type of the first row. pandas orders the groups by key instead; the
    breakdown sorts them afterwards on a key that is unique per group, so the
    group order does not reach the result.
   */
  function GroupByType(rows: seq<Restaurant>): (groups: seq<Group>)
    decreases |rows|
  {
    if rows == [] then []
    else
      var t := rows[0].restaurantType;
      assert |OfType(rows, t)| > 0;
      [Group(t, OfType(rows, t))] + GroupByType(OtherTypes(rows, t))
  }

  /**
    The groups partition the table: each holds every row of its type and no
    other, no group is empty, no type has two groups, every type has one, and
    the group sizes add up to the number of rows.
   */
  lemma GroupByTypePartitions(rows: seq<Restaurant>)
    ensures var gs := GroupByType(rows);
      && (forall i :: 0 <= i < |gs| ==> gs[i].members == OfType(rows, gs[i].restaurantType))
      && (forall i :: 0 <= i < |gs| ==> |gs[i].members| > 0)
      && (forall i, j :: 0 <= i < j < |gs| ==> gs[i].restaurantType != gs[j].restaurantType)
      && KeysOf(gs) == TypesOf(rows)
      && Sorting.SumBy(gs, GroupSize) == |rows|
  {
    GroupByTypeKeys(rows);
    GroupByTypeMembers(rows);
    GroupByTypeDistinct(rows);
    GroupByTypeSum(rows);
  }

  /** There is one group for each type in the table and for no other. */
  lemma {:induction false} GroupByTypeKeys(rows: seq<Restaurant>)
    ensures KeysOf(GroupByType(rows)) == TypesOf(rows)
    decreases |rows|
  {
    if rows != [] {
      var t := rows[0].restaurantType;
      var rest := OtherTypes(rows, t);
      assert |OfType(rows, t)| > 0;
      GroupByTypeKeys(rest);
      OtherTypesTypes(rows, t);
      var gs := GroupByType(rows);
      var tail := GroupByType(rest);
      assert gs == [Group(t, OfType(rows, t))] + tail;
      assert gs[1..] == tail;
      assert KeysOf(gs) == {t} + KeysOf(tail);
    }
  }

  /** Each group holds every row of its type and at least one. */
  lemma {:induction false} GroupByTypeMembers(rows: seq<Restaurant>)
    ensures var gs := GroupByType(rows);
      forall i :: 0 <= i < |gs| ==> gs[i].members == OfType(rows, gs[i].restaurantType) && |gs[i].members| > 0
    decreases |rows|
  {
    if rows != [] {
      var t := rows[0].restaurantType;
      var rest := OtherTypes(rows, t);
      assert |OfType(rows, t)| > 0;
      GroupByTypeMembers(rest);
      GroupByTypeKeys(rest);
      OtherTypesTypes(rows, t);
      var gs := GroupByType(rows);
      var tail := GroupByType(rest);
      assert gs == [Group(t, OfType(rows, t))] + tail;
      forall i | 1 <= i < |gs|
        ensures gs[i].members == OfType(rows, gs[i].restaurantType) && |gs[i].members| > 0
      {
        assert gs[i] == tail[i - 1];
        assert tail[i - 1].restaurantType in KeysOf(tail);
        OtherTypesKeeps(rows, t, gs[i].restaurantType);
      }
    }
  }

  /** No two groups share a type. */
  lemma {:induction false} GroupByTypeDistinct(rows: seq<Restaurant>)
    ensures var gs := GroupByType(rows);
      forall i, j :: 0 <= i < j < |gs| ==> gs[i].restaurantType != gs[j].restaurantType
    decreases |rows|
  {
    if rows != [] {
      var t := rows[0].restaurantType;
      var rest := OtherTypes(rows, t);
      assert |OfType(rows, t)| > 0;
      GroupByTypeDistinct(rest);
      GroupByTypeKeys(rest);
      OtherTypesTypes(rows, t);
      var gs := GroupByType(rows);
      var tail := GroupByType(rest);
      assert gs == [Group(t, OfType(rows, t))] + tail;
      forall i, j | 0 <= i < j < |gs|
        ensures gs[i].restaurantType != gs[j].restaurantType
      {
        assert gs[j] == tail[j - 1];
        assert tail[j - 1].restaurantType in KeysOf(tail);
        if i > 0 {
          assert gs[i] == tail[i - 1];
        }
      }
    }
  }

  /** The group sizes add up to the number of rows. */
  lemma {:induction false} GroupByTypeSum(rows: seq<Restaurant>)
    ensures Sorting.SumBy(GroupByType(rows), GroupSize) == |rows|
    decreases |rows|
  {
    if rows != [] {
      var t := rows[0].restaurantType;
      var rest := OtherTypes(rows, t);
      assert |OfType(rows, t)| > 0;
      GroupByTypeSum(rest);
      var gs := GroupByType(rows);
      var tail := GroupByType(rest);
      assert gs == [Group(t, OfType(rows, t))] + tail;
      assert gs[1..] == tail;
    }
  }

  // ---------------------------------------------------------------------------
  // The per-type statistics (`merged`)

  /** The non-null ratings of `rows`, in table order. */
  function Ratings(rows: seq<Restaurant>): (rs: seq<real>)
    ensures |rs| <= |rows|
  {
    if rows == [] then []
    else (match rows[0].rating case Some(x) => [x] case None => []) + Ratings(rows[1..])
  }

  /** The non-null costs for two of `rows`, in table order. */
  function Costs(rows: seq<Restaurant>): (cs: seq<real>)
    ensures |cs| <= |rows|
  {
    if rows == [] then []
    else (match rows[0].approxCostForTwo case Some(c) => [c as real] case None => []) + Costs(rows[1..])
  }

  /** A mean rating exists exactly when some row has a rating. */
  lemma {:induction false} RatingsEmpty(rows: seq<Restaurant>)
    ensures |Ratings(rows)| == 0 <==> forall i :: 0 <= i < |rows| ==> rows[i].rating.None?
  {
    if rows != [] {
      RatingsEmpty(rows[1..]);
      assert forall i :: 1 <= i < |rows| ==> rows[i] == rows[1..][i - 1];
    }
  }

  /** A mean cost exists exactly when some row has a cost. */
  lemma {:induction false} CostsEmpty(rows: seq<Restaurant>)
    ensures |Costs(rows)| == 0 <==> forall i :: 0 <= i < |rows| ==> rows[i].approxCostForTwo.None?
  {
    if rows != [] {
      CostsEmpty(rows[1..]);
      assert forall i :: 1 <= i < |rows| ==> rows[i] == rows[1..][i - 1];
    }
  }

  /** One row of the `merged` frame: a type, its row count, mean rating, mean cost and share of the table. */
  datatype TypeStats = TypeStats(
    restaurantType: string,
    count: int,
    avgRating: Option<real>,
    avgCost: Option<real>,
    percentage: real)

  function StatsCount(s: TypeStats): int {
    s.count
  }

  /** The statistics of one group, out of a table of `total` rows. */
  function StatsOf(g: Group, total: int): TypeStats
    requires total > 0
  {
    var n := |g.members|;
    TypeStats(g.restaurantType, n, Numeric.Mean(Ratings(g.members)), Numeric.Mean(Costs(g.members)),
      n as real / total as real * 100.0)
  }

  /** The statistics of every group, in group order. */
  function StatsOfAll(groups: seq<Group>, total: int): (m: seq<TypeStats>)
    requires total > 0
    ensures |m| == |groups|
    ensures forall i :: 0 <= i < |m| ==> m[i] == StatsOf(groups[i], total)
  {
    if groups == [] then [] else [StatsOf(groups[0], total)] + StatsOfAll(groups[1..], total)
  }

  lemma {:induction false} StatsOfAllCount(groups: seq<Group>, total: int)
    requires total > 0
    ensures Sorting.SumBy(StatsOfAll(groups, total), StatsCount) == Sorting.SumBy(groups, GroupSize)
  {
    if groups != [] {
      StatsOfAllCount(groups[1..], total);
      assert StatsOfAll(groups, total)[1..] == StatsOfAll(groups[1..], total);
    }
  }

  /** What the breakdown reports for type `t`, stated directly on the table. */
  function StatsOfType(rows: seq<Restaurant>, t: string): TypeStats
    requires |rows| > 0
  {
    StatsOf(Group(t, OfType(rows, t)), |rows|)
  }

  /** The `merged` frame: counts, mean rating and mean cost per type, and each type's percentage. */
  function Merged(rows: seq<Restaurant>): seq<TypeStats>
    requires |rows| > 0
  {
    StatsOfAll(GroupByType(rows), |rows|)
  }

  /** A row of `merged` for a type of the table, holding that type's statistics. */
  ghost predicate Reports(rows: seq<Restaurant>, s: TypeStats)
    requires |rows| > 0
  {
    s.restaurantType in TypesOf(rows) && s == StatsOfType(rows, s.restaurantType)
  }

  /** The position of the group with key `t`. */
  function KeyIndex(groups: seq<Group>, t: string): (i: nat)
    requires t in KeysOf(groups)
    ensures i < |groups| && groups[i].restaurantType == t
  {
    if groups[0].restaurantType == t then 0 else 1 + KeyIndex(groups[1..], t)
  }

  lemma MergedEach(rows: seq<Restaurant>, i: int)
    requires |rows| > 0 && 0 <= i < |Merged(rows)|
    ensures Reports(rows, Merged(rows)[i])
  {
    var gs := GroupByType(rows);
    GroupByTypePartitions(rows);
    assert gs[i].restaurantType in KeysOf(gs);
    assert gs[i] == Group(gs[i].restaurantType, OfType(rows, gs[i].restaurantType));
  }

  lemma MergedCovers(rows: seq<Restaurant>, t: string)
    requires |rows| > 0 && t in TypesOf(rows)
    ensures StatsOfType(rows, t) in Merged(rows)
  {
    var gs := GroupByType(rows);
    GroupByTypePartitions(rows);
    var i := KeyIndex(gs, t);
    assert gs[i] == Group(t, OfType(rows, t));
    assert Merged(rows)[i] == StatsOfType(rows, t);
  }

  lemma MergedDistinct(rows: seq<Restaurant>)
    requires |rows| > 0
    ensures Sorting.Distinct(Merged(rows))
  {
    var gs := GroupByType(rows);
    var m := Merged(rows);
    GroupByTypePartitions(rows);
    forall i, j | 0 <= i < j < |m|
      ensures m[i] != m[j]
    {
      assert m[i].restaurantType == gs[i].restaurantType;
      assert m[j].restaurantType == gs[j].restaurantType;
    }
  }

  lemma MergedCount(rows: seq<Restaurant>)
    requires |rows| > 0
    ensures Sorting.SumBy(Merged(rows), StatsCount) == |rows|
  {
    GroupByTypePartitions(rows);
    StatsOfAllCount(GroupByType(rows), |rows|);
  }

  // ---------------------------------------------------------------------------
  // Ordering the breakdown

  /**
    `sort_values(by=["count", "restaurant_type"], ascending=[False, True])`:
    larger counts first, equal counts by type in code-point order.
   */
  predicate ListedBefore(a: TypeStats, b: TypeStats) {
    a.count > b.count || (a.count == b.count && !Text.LexLess(b.restaurantType, a.restaurantType))
  }

  /** "Not after" on strings is transitive. */
  lemma LexNotAfterTransitive(x: string, y: string, z: string)
    requires !Text.LexLess(y, x) && !Text.LexLess(z, y)
    ensures !Text.LexLess(z, x)
  {
    if x != y && Text.LexLess(z, x) {
      Text.LexLessTotal(x, y);
      Text.LexLessTransitive(z, x, y);
    }
  }

  lemma ListedBeforeTotalPreorder()
    ensures Sorting.TotalPreorder(ListedBefore)
  {
    forall a: TypeStats, b: TypeStats
      ensures ListedBefore(a, b) || ListedBefore(b, a)
    {
      Text.LexLessAsymmetric(a.restaurantType, b.restaurantType);
    }
    forall a: TypeStats, b: TypeStats, c: TypeStats | ListedBefore(a, b) && ListedBefore(b, c)
      ensures ListedBefore(a, c)
    {
      if a.count == b.count == c.count {
        LexNotAfterTransitive(a.restaurantType, b.restaurantType, c.restaurantType);
      }
    }
  }

  /** The `merged` frame after `sort_values`. */
  function SortedStats(rows: seq<Restaurant>): seq<TypeStats>
    requires |rows| > 0
  {
    Sorting.SortBy(Merged(rows), ListedBefore)
  }

  /** Each row of the sorted frame holds the statistics of a type of the table. */
  lemma SortedEach(rows: seq<Restaurant>, i: int)
    requires |rows| > 0 && 0 <= i < |SortedStats(rows)|
    ensures Reports(rows, SortedStats(rows)[i])
  {
    var merged := Merged(rows);
    assert SortedStats(rows)[i] in multiset(merged);
    var j :| 0 <= j < |merged| && merged[j] == SortedStats(rows)[i];
    MergedEach(rows, j);
  }

  /** Every type of the table has its row in the sorted frame. */
  lemma SortedCovers(rows: seq<Restaurant>, t: string)
    requires |rows| > 0 && t in TypesOf(rows)
    ensures StatsOfType(rows, t) in SortedStats(rows)
  {
    MergedCovers(rows, t);
    assert StatsOfType(rows, t) in multiset(SortedStats(rows));
  }

  /** No type has two rows in the sorted frame. */
  lemma SortedDistinctTypes(rows: seq<Restaurant>)
    requires |rows| > 0
    ensures var m := SortedStats(rows);
      forall i, j :: 0 <= i < j < |m| ==> m[i].restaurantType != m[j].restaurantType
  {
    var m := SortedStats(rows);
    MergedDistinct(rows);
    Sorting.SortByDistinct(Merged(rows), ListedBefore);
    forall i, j | 0 <= i < j < |m|
      ensures m[i].restaurantType != m[j].restaurantType
    {
      SortedEach(rows, i);
      SortedEach(rows, j);
    }
  }

  /** Larger counts come first in the sorted frame, equal counts in type order. */
  lemma SortedOrdered(rows: seq<Restaurant>)
    requires |rows| > 0
    ensures var m := SortedStats(rows);
      forall i, j :: 0 <= i < j < |m| ==>
        m[i].count > m[j].count
        || (m[i].count == m[j].count && Text.LexLess(m[i].restaurantType, m[j].restaurantType))
  {
    var m := SortedStats(rows);
    ListedBeforeTotalPreorder();
    Sorting.SortBySorted(Merged(rows), ListedBefore);
    SortedDistinctTypes(rows);
    forall i, j | 0 <= i < j < |m|
      ensures m[i].count > m[j].count
        || (m[i].count == m[j].count && Text.LexLess(m[i].restaurantType, m[j].restaurantType))
    {
      assert ListedBefore(m[i], m[j]);
      if m[i].count == m[j].count {
        Text.LexLessTotal(m[i].restaurantType, m[j].restaurantType);
      }
    }
  }

  /** The counts of the sorted frame add up to the number of rows. */
  lemma SortedCount(rows: seq<Restaurant>)
    requires |rows| > 0
    ensures Sorting.SumBy(SortedStats(rows), StatsCount) == |rows|
  {
    MergedCount(rows);
    Sorting.SortBySum(Merged(rows), ListedBefore, StatsCount);
  }

  // ---------------------------------------------------------------------------
  // The result records

  /** The record for one row of the sorted frame: NaN means become `None`, the mean cost is rounded. */
  function ToSummary(s: TypeStats): RestaurantTypeSummary {
    RestaurantTypeSummary(s.restaurantType, s.count, s.percentage, s.avgRating,
      match s.avgCost
      case None => None
      case Some(c) => Some(Numeric.RoundHalfEven(c)))
  }

  function ToSummaries(m: seq<TypeStats>): (items: seq<RestaurantTypeSummary>)
    ensures |items| == |m|
    ensures forall i :: 0 <= i < |m| ==> items[i] == ToSummary(m[i])
  {
    if m == [] then [] else [ToSummary(m[0])] + ToSummaries(m[1..])
  }

  /**
    What `compute_restaurant_type_summary` returns for a table: nothing for an
    empty table, else one record per row of the sorted frame.
   */
  function TypeSummaries(rows: seq<Restaurant>): (items: seq<RestaurantTypeSummary>)
    ensures items == [] <==> rows == []
  {
    if rows == [] then []
    else
      SortedCovers(rows, rows[0].restaurantType);
      ToSummaries(SortedStats(rows))
  }

  /** `compute_restaurant_type_summary`: the records of the sorted frame, none for an empty table. */
  method ComputeRestaurantTypeSummary(rows: seq<Restaurant>) returns (items: seq<RestaurantTypeSummary>)
    ensures items == TypeSummaries(rows)
  {
    if |rows| == 0 {
      return [];
    }
    var merged := SortedStats(rows);
    items := SummariseRows(merged);
  }

  /** The loop over the sorted frame that builds one record per row. */
  method SummariseRows(merged: seq<TypeStats>) returns (items: seq<RestaurantTypeSummary>)
    ensures items == ToSummaries(merged)
  {
    items := [];
    for i := 0 to |merged|
      invariant |items| == i
      invariant forall k :: 0 <= k < i ==> items[k] == ToSummary(merged[k])
    {
      var row := merged[i];
      var cost: Option<int>;
      if row.avgCost.None? {
        cost := None;
      } else {
        cost := Some(Numeric.RoundHalfEven(row.avgCost.value));
      }
      items := items + [RestaurantTypeSummary(row.restaurantType, row.count, row.percentage, row.avgRating, cost)];
    }
  }

  function SummaryCount(s: RestaurantTypeSummary): int {
    s.count
  }

  function TotalPercentage(items: seq<RestaurantTypeSummary>): real {
    if items == [] then 0.0 else items[0].percentage + TotalPercentage(items[1..])
  }

  lemma {:induction false} ToSummariesCount(m: seq<TypeStats>)
    ensures Sorting.SumBy(ToSummaries(m), SummaryCount) == Sorting.SumBy(m, StatsCount)
  {
    if m != [] {
      ToSummariesCount(m[1..]);
      assert ToSummaries(m)[1..] == ToSummaries(m[1..]);
    }
  }

  /**
    The breakdown has one record per restaurant type of the table, no type
    twice, and each record's count is the number of rows of its type; the
    counts add up to the number of rows.
   */
  lemma TypeSummariesCounts(rows: seq<Restaurant>)
    ensures var items := TypeSummaries(rows);
      && (forall i :: 0 <= i < |items| ==> items[i].restaurantType in TypesOf(rows))
      && (forall t :: t in TypesOf(rows) ==> exists i :: 0 <= i < |items| && items[i].restaurantType == t)
      && (forall i, j :: 0 <= i < j < |items| ==> items[i].restaurantType != items[j].restaurantType)
      && (forall i :: 0 <= i < |items| ==> items[i].count == |OfType(rows, items[i].restaurantType)| > 0)
      && Sorting.SumBy(items, SummaryCount) == |rows|
  {
    if rows != [] {
      var m := SortedStats(rows);
      var items := TypeSummaries(rows);
      SortedDistinctTypes(rows);
      SummariesCountTotal(rows);
      forall i | 0 <= i < |items|
        ensures items[i].restaurantType in TypesOf(rows)
        ensures items[i].count == |OfType(rows, items[i].restaurantType)| > 0
      {
        CountAt(rows, i);
      }
      forall t | t in TypesOf(rows)
        ensures exists i :: 0 <= i < |items| && items[i].restaurantType == t
      {
        CoveredAt(rows, t);
      }
    }
  }

  /** Record `i` is for a type of the table, and counts that type's rows. */
  lemma CountAt(rows: seq<Restaurant>, i: int)
    requires 0 <= i < |TypeSummaries(rows)|
    ensures var s := TypeSummaries(rows)[i];
      s.restaurantType in TypesOf(rows) && s.count == |OfType(rows, s.restaurantType)| > 0
  {
    var m := SortedStats(rows);
    SortedEach(rows, i);
    OfTypeNonEmpty(rows, m[i].restaurantType);
  }

  /** A type of the table has a record. */
  lemma CoveredAt(rows: seq<Restaurant>, t: string)
    requires t in TypesOf(rows)
    ensures var items := TypeSummaries(rows);
      exists i :: 0 <= i < |items| && items[i].restaurantType == t
  {
    var m := SortedStats(rows);
    var items := TypeSummaries(rows);
    SortedCovers(rows, t);
    var i :| 0 <= i < |m| && m[i] == StatsOfType(rows, t);
    assert items[i].restaurantType == t;
  }

  /** Records are listed by count, largest first, and equal counts by type in code-point order. */
  lemma TypeSummariesOrdered(rows: seq<Restaurant>)
    ensures var items := TypeSummaries(rows);
      forall i, j :: 0 <= i < j < |items| ==>
        items[i].count > items[j].count
        || (items[i].count == items[j].count && Text.LexLess(items[i].restaurantType, items[j].restaurantType))
  {
    if rows != [] {
      SortedOrdered(rows);
    }
  }

  /** Each record is the sorted frame's row for its type, as the loop converts it. */
  lemma SummaryOfType(rows: seq<Restaurant>, i: int)
    requires 0 <= i < |TypeSummaries(rows)|
    ensures |rows| > 0
    ensures var s := TypeSummaries(rows)[i];
      s == ToSummary(StatsOfType(rows, s.restaurantType))
  {
    SortedEach(rows, i);
  }

  /** What `Averages` states of record `i`, proved for one record. */
  lemma AveragesAt(rows: seq<Restaurant>, i: int)
    requires 0 <= i < |TypeSummaries(rows)|
    ensures Averages(rows, TypeSummaries(rows)[i])
  {
    SummaryOfType(rows, i);
    var s := TypeSummaries(rows)[i];
    var group := OfType(rows, s.restaurantType);
    RatingsEmpty(group);
    CostsEmpty(group);
    if |Ratings(group)| > 0 {
      Numeric.MeanBetweenMinMax(Ratings(group));
    }
  }

  /**
    The averages of record `s`: the average rating of its type is the mean of
    the type's non-null ratings, `None` exactly when none of its rows has a
    rating, and lies between its lowest and highest rating; the average cost
    is the mean of its non-null costs rounded half to even, `None` exactly
    when none of its rows has a cost.
   */
  ghost predicate Averages(rows: seq<Restaurant>, s: RestaurantTypeSummary) {
    var group := OfType(rows, s.restaurantType);
    && s.avgRating == Numeric.Mean(Ratings(group))
    && (s.avgRating.None? <==> forall k :: 0 <= k < |group| ==> group[k].rating.None?)
    && (s.avgRating.Some? ==> Numeric.Min(Ratings(group)) <= s.avgRating.value <= Numeric.Max(Ratings(group)))
    && (s.avgCostForTwo.None? <==> forall k :: 0 <= k < |group| ==> group[k].approxCostForTwo.None?)
    && (s.avgCostForTwo.Some? && |Costs(group)| > 0 ==>
          s.avgCostForTwo.value == Numeric.RoundHalfEven(Numeric.Mean(Costs(group)).value))
  }

  /** Every record's averages are those of its type's rows (see `Averages`). */
  lemma TypeSummariesAverages(rows: seq<Restaurant>)
    ensures var items := TypeSummaries(rows);
      forall i :: 0 <= i < |items| ==> Averages(rows, items[i])
  {
    var items := TypeSummaries(rows);
    forall i | 0 <= i < |items|
      ensures Averages(rows, items[i])
    {
      AveragesAt(rows, i);
    }
  }

  /** `count / total * 100` summed over types whose counts add up to `total`. */
  lemma {:induction false} PercentageSum(items: seq<RestaurantTypeSummary>, total: int)
    requires total > 0
    requires forall i :: 0 <= i < |items| ==> items[i].percentage == items[i].count as real / total as real * 100.0
    ensures TotalPercentage(items) == Sorting.SumBy(items, SummaryCount) as real / total as real * 100.0
  {
    if items != [] {
      PercentageSum(items[1..], total);
      var c := items[0].count as real;
      var r := Sorting.SumBy(items[1..], SummaryCount) as real;
      SplitQuotient(c, r, total as real);
    }
  }

  lemma SplitQuotient(a: real, b: real, n: real)
    requires n > 0.0
    ensures a / n * 100.0 + b / n * 100.0 == (a + b) / n * 100.0
  {
    var p := a / n;
    var q := b / n;
    assert p * n == a && q * n == b;
    assert (p + q) * n == a + b;
  }

  /** A share of `count` rows out of `total`, for `0 < count <= total`, is in (0, 100]. */
  lemma ShareBounds(count: int, total: int)
    requires 0 < count <= total
    ensures 0.0 < count as real / total as real * 100.0 <= 100.0
  {
    var q := count as real / total as real;
    assert q * total as real == count as real;
  }

  /** Record `i`'s percentage is its count's share of the table, in (0, 100]. */
  lemma ShareAt(rows: seq<Restaurant>, i: int)
    requires 0 <= i < |TypeSummaries(rows)|
    ensures var s := TypeSummaries(rows)[i];
      && s.percentage == s.count as real / |rows| as real * 100.0
      && 0.0 < s.percentage <= 100.0
  {
    SummaryOfType(rows, i);
    var s := TypeSummaries(rows)[i];
    OfTypeNonEmpty(rows, s.restaurantType);
    SortedEach(rows, i);
    ShareBounds(s.count, |rows|);
  }

  /**
    Each record's percentage is its count's share of the table, in (0, 100],
    and the percentages add up to 100 for a non-empty table.
   */
  lemma TypeSummariesPercentages(rows: seq<Restaurant>)
    ensures var items := TypeSummaries(rows);
      && (forall i :: 0 <= i < |items| ==>
            && items[i].percentage == items[i].count as real / |rows| as real * 100.0
            && 0.0 < items[i].percentage <= 100.0)
      && (rows != [] ==> TotalPercentage(items) == 100.0)
  {
    var items := TypeSummaries(rows);
    forall i | 0 <= i < |items|
      ensures items[i].percentage == items[i].count as real / |rows| as real * 100.0
      ensures 0.0 < items[i].percentage <= 100.0
    {
      ShareAt(rows, i);
    }
    if rows != [] {
      PercentagesTotal(rows);
    }
  }

  lemma PercentagesTotal(rows: seq<Restaurant>)
    requires rows != []
    ensures TotalPercentage(TypeSummaries(rows)) == 100.0
  {
    var items := TypeSummaries(rows);
    var n := |rows|;
    forall i | 0 <= i < |items|
      ensures items[i].percentage == items[i].count as real / n as real * 100.0
    {
      ShareAt(rows, i);
    }
    SummariesCountTotal(rows);
    PercentageSum(items, n);
    WholeShare(n);
  }

  lemma WholeShare(n: int)
    requires n > 0
    ensures n as real / n as real * 100.0 == 100.0
  {
  }

  /** The counts of the records add up to the number of rows. */
  lemma SummariesCountTotal(rows: seq<Restaurant>)
    ensures Sorting.SumBy(TypeSummaries(rows), SummaryCount) == |rows|
  {
    if rows != [] {
      SortedCount(rows);
      ToSummariesCount(SortedStats(rows));
    }
  }

  // ---------------------------------------------------------------------------
  // Cuisines

  predicate NoComma(s: string) {
    forall k :: 0 <= k < |s| ==> s[k] != ','
  }

  /** A cuisine name as the service returns it: not blank, no surrounding whitespace. */
  predicate IsCuisineName(s: string) {
    s != "" && !Text.IsSpace(s[0]) && !Text.IsSpace(s[|s| - 1])
  }

  /** A cuisine name is exactly a non-blank text that is its own strip. */
  lemma CuisineNameStripped(s: string)
    ensures IsCuisineName(s) <==> s != "" && Text.Strip(s) == s
  {
    if IsCuisineName(s) {
      Text.StripCharsKeeps(s, Text.IsSpace);
    }
  }

  /** `[p.strip() for p in parts]`. */
  function StripAll(parts: seq<string>): (r: seq<string>)
    ensures |r| == |parts|
    ensures forall i :: 0 <= i < |parts| ==> r[i] == Text.Strip(parts[i])
  {
    seq(|parts|, i requires 0 <= i < |parts| => Text.Strip(parts[i]))
  }

  /** The non-blank items, in order. */
  function NonBlank(items: seq<string>): (r: seq<string>)
    ensures |r| <= |items|
  {
    if items == [] then []
    else (if items[0] != "" then [items[0]] else []) + NonBlank(items[1..])
  }

  /** `[p.strip() for p in parts if p.strip()]`. */
  function NonBlankStripped(parts: seq<string>): (r: seq<string>)
    ensures |r| <= |parts|
  {
    NonBlank(StripAll(parts))
  }

  /** `NonBlank` keeps only items of its input, and none that is blank. */
  lemma {:induction false} NonBlankFrom(items: seq<string>)
    ensures forall x :: x in NonBlank(items) ==> x != "" && x in items
  {
    if items != [] {
      NonBlankFrom(items[1..]);
      assert NonBlank(items) == (if items[0] != "" then [items[0]] else []) + NonBlank(items[1..]);
    }
  }

  /** Items none of which is blank all stay, in order. */
  lemma {:induction false} NonBlankKeeps(items: seq<string>)
    requires forall i :: 0 <= i < |items| ==> items[i] != ""
    ensures NonBlank(items) == items
  {
    if items != [] {
      NonBlankKeeps(items[1..]);
      assert items == [items[0]] + items[1..];
    }
  }

  lemma NonBlankStrippedNames(parts: seq<string>)
    ensures forall i :: 0 <= i < |NonBlankStripped(parts)| ==> IsCuisineName(NonBlankStripped(parts)[i])
  {
    var stripped := StripAll(parts);
    var r := NonBlank(stripped);
    NonBlankFrom(stripped);
    forall i | 0 <= i < |r|
      ensures IsCuisineName(r[i])
    {
      assert r[i] in r;
      var j :| 0 <= j < |stripped| && stripped[j] == r[i];
    }
  }

  /** Stripping takes a run of the middle of the text, so it adds no comma. */
  lemma StripNoComma(s: string)
    requires NoComma(s)
    ensures NoComma(Text.Strip(s))
  {
    var r := Text.Strip(s);
    Text.StripCharsInfix(s, Text.IsSpace);
    var k :| Text.StrippedAt(s, r, Text.IsSpace, k);
    assert forall m :: 0 <= m < |r| ==> r[m] == s[k + m];
  }

  lemma NonBlankStrippedNoComma(parts: seq<string>)
    requires forall i :: 0 <= i < |parts| ==> NoComma(parts[i])
    ensures forall i :: 0 <= i < |NonBlankStripped(parts)| ==> NoComma(NonBlankStripped(parts)[i])
  {
    var stripped := StripAll(parts);
    var r := NonBlank(stripped);
    NonBlankFrom(stripped);
    forall i | 0 <= i < |r|
      ensures NoComma(r[i])
    {
      assert r[i] in r;
      var j :| 0 <= j < |stripped| && stripped[j] == r[i];
      StripNoComma(parts[j]);
    }
  }

  /** Parts that are already stripped and not blank come through unchanged. */
  lemma NonBlankStrippedKeeps(parts: seq<string>)
    requires forall i :: 0 <= i < |parts| ==> IsCuisineName(parts[i])
    ensures NonBlankStripped(parts) == parts
  {
    forall i | 0 <= i < |parts|
      ensures Text.Strip(parts[i]) == parts[i]
    {
      Text.StripCharsKeeps(parts[i], Text.IsSpace);
    }
    assert StripAll(parts) == parts;
    NonBlankKeeps(parts);
  }

  /**
    `_parse_cuisines`: no cuisines for a missing cell or empty text; a list has
    its items stripped and the blank ones dropped; text is split at commas and
    its parts likewise stripped, blanks dropped. Every cuisine returned is
    stripped and not blank, and one read from text holds no comma.
   */
  function ParseCuisines(c: CuisineCell): (r: seq<string>)
    ensures forall i :: 0 <= i < |r| ==> IsCuisineName(r[i])
    ensures c.CuisineText? ==> forall i :: 0 <= i < |r| ==> NoComma(r[i])
  {
    match c
    case NoCuisines => []
    case CuisineList(items) =>
      NonBlankStrippedNames(items);
      NonBlankStripped(items)
    case CuisineText(s) =>
      if s == "" then []
      else
        var parts := Text.Split(s, ',');
        NonBlankStrippedNames(parts);
        NonBlankStrippedNoComma(parts);
        NonBlankStripped(parts)
  }

  lemma JoinStartsWith(parts: seq<string>, sep: char)
    requires |parts| > 0
    ensures parts[0] <= Text.Join(parts, sep)
  {
  }

  /**
    Cuisine names that are stripped, not blank and free of commas, written as
    comma-separated text, read back as the same names in the same order.
   */
  lemma CuisinesRoundTrip(names: seq<string>)
    requires forall i :: 0 <= i < |names| ==> IsCuisineName(names[i]) && NoComma(names[i])
    ensures ParseCuisines(CuisineText(Text.Join(names, ','))) == names
  {
    if names != [] {
      var s := Text.Join(names, ',');
      JoinStartsWith(names, ',');
      assert |s| >= |names[0]| > 0;
      Text.SplitJoin(names, ',');
      NonBlankStrippedKeeps(names);
    }
  }

  /** The "" that fills a missing `cuisines` column parses like a missing cell: no cuisines. */
  lemma EmptyCuisinesText()
    ensures ParseCuisines(CuisineText("")) == ParseCuisines(NoCuisines) == []
  {
  }

  /** A list of cuisine names that are stripped and not blank comes through unchanged. */
  lemma CuisineListKept(names: seq<string>)
    requires forall i :: 0 <= i < |names| ==> IsCuisineName(names[i])
    ensures ParseCuisines(CuisineList(names)) == names
  {
    NonBlankStrippedKeeps(names);
  }

  // ---------------------------------------------------------------------------
  // The top-N ranking

  /** The `rating_sort` column: the rating, or -1 where it is null. */
  function RatingSortKey(r: Restaurant): real {
    match r.rating
    case Some(x) => x
    case None => -1.0
  }

  /** `sort_values(by=["votes", "rating_sort"], ascending=[False, False])`: most votes first, then best rating. */
  predicate RanksByVotes(a: Restaurant, b: Restaurant) {
    a.votes > b.votes || (a.votes == b.votes && RatingSortKey(a) >= RatingSortKey(b))
  }

  /** `sort_values(by=["rating_sort", "votes"], ascending=[False, False])`: best rating first, then most votes. */
  predicate RanksByRating(a: Restaurant, b: Restaurant) {
    RatingSortKey(a) > RatingSortKey(b) || (RatingSortKey(a) == RatingSortKey(b) && a.votes >= b.votes)
  }

  /** The order `sort_by` selects: "rating" sorts by rating, any other value by votes. */
  function Ranking(sortBy: string): (Restaurant, Restaurant) -> bool {
    if sortBy == "rating" then RanksByRating else RanksByVotes
  }

  lemma RankingTotalPreorder(sortBy: string)
    ensures Sorting.TotalPreorder(Ranking(sortBy))
  {
    var le := Ranking(sortBy);
    forall a: Restaurant, b: Restaurant
      ensures le(a, b) || le(b, a)
    {
    }
    forall a: Restaurant, b: Restaurant, c: Restaurant | le(a, b) && le(b, c)
      ensures le(a, c)
    {
    }
  }

  /** `DataFrame.head(n)`: the first `n` rows, or for a negative `n` all rows but the last `-n`. */
  function Head<T>(s: seq<T>, n: int): (r: seq<T>)
    ensures |r| <= |s| && r == s[..|r|]
    ensures n >= 0 ==> |r| == (if n < |s| then n else |s|)
    ensures n < 0 ==> |r| == (if -n < |s| then |s| + n else 0)
  {
    if n >= 0 then (if n < |s| then s[..n] else s)
    else if -n < |s| then s[..|s| + n]
    else []
  }

  /** The rows `top_df` holds: the table sorted by `sort_by`, cut to `limit` rows. */
  function TopRows(rows: seq<Restaurant>, limit: int, sortBy: string): seq<Restaurant> {
    Head(Sorting.SortBy(rows, Ranking(sortBy)), limit)
  }

  /** The record for a row at position `rank` of the ranking. */
  function ToTop(r: Restaurant, rank: int): TopRestaurant {
    TopRestaurant(r.name, r.location, r.rating, r.votes, r.restaurantType, ParseCuisines(r.cuisines), rank)
  }

  /** The records for the rows of `top`, ranked from 1 in order. */
  function Ranked(top: seq<Restaurant>): (items: seq<TopRestaurant>)
    ensures |items| == |top|
  {
    seq(|top|, i requires 0 <= i < |top| => ToTop(top[i], i + 1))
  }

  /** The records `compute_top_restaurants` returns. */
  function TopRanked(rows: seq<Restaurant>, limit: int, sortBy: string): (items: seq<TopRestaurant>)
    ensures |items| == |TopRows(rows, limit, sortBy)|
  {
    Ranked(TopRows(rows, limit, sortBy))
  }

  datatype TopRestaurantsResult = TopRestaurantsResult(topRestaurants: seq<TopRestaurant>, totalRestaurants: int)

  /** The loop over `top_df`: one record per row, its cuisines parsed, ranked from 1. */
  method RankRows(top: seq<Restaurant>) returns (items: seq<TopRestaurant>)
    ensures items == Ranked(top)
  {
    items := [];
    for idx := 0 to |top|
      invariant |items| == idx
      invariant forall k :: 0 <= k < idx ==> items[k] == ToTop(top[k], k + 1)
    {
      var row := top[idx];
      var cuisines := ParseCuisines(row.cuisines);
      items := items + [TopRestaurant(row.name, row.location, row.rating, row.votes, row.restaurantType, cuisines, idx + 1)];
    }
  }

  /** `compute_top_restaurants`: the table ranked by `sort_by`, cut to `limit` rows, as records. */
  method ComputeTopRestaurants(rows: seq<Restaurant>, limit: int, sortBy: string) returns (result: TopRestaurantsResult)
    ensures result.totalRestaurants == |rows|
    ensures result.topRestaurants == TopRanked(rows, limit, sortBy)
  {
    var total := |rows|;
    if total == 0 {
      return TopRestaurantsResult([], 0);
    }
    var ranked := Sorting.SortBy(rows, Ranking(sortBy));
    var top := Head(ranked, limit);
    var items := RankRows(top);
    return TopRestaurantsResult(items, total);
  }

  /**
    The ranking holds `limit` records, or every row when the table is
    smaller; a negative `limit` drops that many rows from the end. Ranks run
    from 1 in order, and the ranked rows are rows of the table, none taken
    twice.
   */
  lemma TopRankedSize(rows: seq<Restaurant>, limit: int, sortBy: string)
    ensures var items := TopRanked(rows, limit, sortBy);
      && (limit >= 0 ==> |items| == (if limit < |rows| then limit else |rows|))
      && (limit < 0 ==> |items| == (if -limit < |rows| then |rows| + limit else 0))
      && (forall i :: 0 <= i < |items| ==> items[i].rank == i + 1)
      && multiset(TopRows(rows, limit, sortBy)) <= multiset(rows)
  {
    var sorted := Sorting.SortBy(rows, Ranking(sortBy));
    var top := TopRows(rows, limit, sortBy);
    assert top == Head(sorted, limit);
    HeadSubMultiset(sorted, limit);
    assert TopRanked(rows, limit, sortBy) == Ranked(top);
  }

  /** A head of `s` takes no element more often than `s` holds it. */
  lemma HeadSubMultiset<T>(s: seq<T>, n: int)
    ensures multiset(Head(s, n)) <= multiset(s)
  {
    var h := Head(s, n);
    assert s == h + s[|h|..];
  }

  /**
    Records come in the order `sort_by` asks for: by votes, then rating, both
    descending, with a missing rating counting as -1; or by rating, then
    votes, when `sort_by` is "rating".
   */
  lemma TopRankedOrdered(rows: seq<Restaurant>, limit: int, sortBy: string)
    ensures var items := TopRanked(rows, limit, sortBy);
      forall i, j :: 0 <= i < j < |items| ==>
        var ri := items[i].rating.GetOr(-1.0);
        var rj := items[j].rating.GetOr(-1.0);
        if sortBy == "rating" then
          ri > rj || (ri == rj && items[i].votes >= items[j].votes)
        else
          items[i].votes > items[j].votes || (items[i].votes == items[j].votes && ri >= rj)
  {
    var sorted := Sorting.SortBy(rows, Ranking(sortBy));
    var top := TopRows(rows, limit, sortBy);
    RankingTotalPreorder(sortBy);
    Sorting.SortBySorted(rows, Ranking(sortBy));
    assert Sorting.SortedBy(top, Ranking(sortBy));
  }

  /** No row left out of the ranking ranks above a row in it. */
  lemma TopRankedBest(rows: seq<Restaurant>, limit: int, sortBy: string)
    ensures var top := TopRows(rows, limit, sortBy);
      forall r, i :: r in multiset(rows) - multiset(top) && 0 <= i < |top| ==> Ranking(sortBy)(top[i], r)
  {
    var sorted := Sorting.SortBy(rows, Ranking(sortBy));
    var top := TopRows(rows, limit, sortBy);
    RankingTotalPreorder(sortBy);
    Sorting.SortBySorted(rows, Ranking(sortBy));
    Sorting.SortedPrefixFirst(sorted, |top|, Ranking(sortBy));
    assert top == sorted[..|top|];
  }

  /**
    Rows that tie on both sort keys keep their table order: the tied rows of
    the ranking are the first of the tied rows of the table, in table order.
   */
  lemma TopRankedStable(rows: seq<Restaurant>, limit: int, sortBy: string, e: Restaurant)
    ensures Sorting.Tied(TopRows(rows, limit, sortBy), e, Ranking(sortBy)) <= Sorting.Tied(rows, e, Ranking(sortBy))
  {
    var sorted := Sorting.SortBy(rows, Ranking(sortBy));
    var top := TopRows(rows, limit, sortBy);
    RankingTotalPreorder(sortBy);
    Sorting.SortByStable(rows, e, Ranking(sortBy));
    Sorting.TiedPrefix(sorted, |top|, e, Ranking(sortBy));
  }

  /**
    With ratings that are never negative, as the loader produces, a row
    without a rating is ranked below every rated row when sorting by rating,
    and below every rated row with the same votes when sorting by votes.
   */
  lemma TopRankedUnratedLast(rows: seq<Restaurant>, limit: int, sortBy: string)
    requires forall r :: r in rows && r.rating.Some? ==> r.rating.value >= 0.0
    ensures var items := TopRanked(rows, limit, sortBy);
      forall i, j :: 0 <= i < j < |items| && items[j].rating.Some? ==>
        (sortBy == "rating" || items[i].votes == items[j].votes) ==> items[i].rating.Some?
  {
    var items := TopRanked(rows, limit, sortBy);
    var top := TopRows(rows, limit, sortBy);
    TopRankedOrdered(rows, limit, sortBy);
    TopRankedSize(rows, limit, sortBy);
    forall i | 0 <= i < |items|
      ensures items[i].rating.Some? ==> items[i].rating.value >= 0.0
    {
      assert top[i] in multiset(rows);
    }
  }

  /** The two-row table of the votes test: more votes ranks first. */
  lemma TopRankedVotesExample(a: Restaurant, b: Restaurant)
    requires a.name == "A" && a.votes == 10 && a.rating == Some(4.5)
    requires b.name == "B" && b.votes == 5 && b.rating == Some(4.8)
    ensures var items := TopRanked([a, b], 2, "votes");
      |items| == 2 && items[0].name == "A" && items[0].rank == 1 && items[1].name == "B" && items[1].rank == 2
  {
    Sorting.SortPair(a, b, Ranking("votes"));
    assert Ranking("votes")(a, b);
    var top := TopRows([a, b], 2, "votes");
    assert top == [a, b];
    assert Ranked(top)[0] == ToTop(a, 1) && Ranked(top)[1] == ToTop(b, 2);
  }

  /** The two-row table of the rating test: the better rating ranks first, despite fewer votes. */
  lemma TopRankedRatingExample(a: Restaurant, b: Restaurant)
    requires a.name == "A" && a.votes == 100 && a.rating == Some(4.5)
    requires b.name == "B" && b.votes == 5 && b.rating == Some(4.8)
    ensures var items := TopRanked([a, b], 2, "rating");
      |items| == 2 && items[0].name == "B" && items[0].rank == 1
  {
    Sorting.SortPair(a, b, Ranking("rating"));
    assert !Ranking("rating")(a, b);
    var top := TopRows([a, b], 2, "rating");
    assert top == [b, a];
    assert Ranked(top)[0] == ToTop(b, 1);
  }

  /**
    The three-row table of the breakdown test: two "Quick Bites" rows rated 4.0
    and 3.0 costing 400 and 300, and a "Cafe" row with neither.
   */
  predicate SampleTable(a: Restaurant, b: Restaurant, c: Restaurant) {
    && a.restaurantType == "Quick Bites" && a.rating == Some(4.0) && a.approxCostForTwo == Some(400)
    && b.restaurantType == "Quick Bites" && b.rating == Some(3.0) && b.approxCostForTwo == Some(300)
    && c.restaurantType == "Cafe" && c.rating == None && c.approxCostForTwo == None
  }

  lemma SampleGroups(a: Restaurant, b: Restaurant, c: Restaurant)
    requires SampleTable(a, b, c)
    ensures GroupByType([a, b, c]) == [Group("Quick Bites", [a, b]), Group("Cafe", [c])]
  {
    var rows := [a, b, c];
    assert rows[1..] == [b, c] && [b, c][1..] == [c] && [c][1..] == [];
    assert OfType([c], "Quick Bites") == [];
    assert OfType([b, c], "Quick Bites") == [b];
    assert OfType(rows, "Quick Bites") == [a, b];
    assert OtherTypes([c], "Quick Bites") == [c];
    assert OtherTypes([b, c], "Quick Bites") == [c];
    assert OtherTypes(rows, "Quick Bites") == [c];
    assert OfType([c], "Cafe") == [c];
    assert OtherTypes([c], "Cafe") == [];
    assert GroupByType([c]) == [Group("Cafe", [c])];
  }

  lemma SampleQuickBites(a: Restaurant, b: Restaurant, c: Restaurant)
    requires SampleTable(a, b, c)
    ensures StatsOf(Group("Quick Bites", [a, b]), 3)
      == TypeStats("Quick Bites", 2, Some(3.5), Some(350.0), 2.0 / 3.0 * 100.0)
  {
    var quick := [a, b];
    assert quick[1..] == [b] && [b][1..] == [];
    assert Ratings([b]) == [3.0] && Costs([b]) == [300.0];
    assert Ratings(quick) == [4.0] + Ratings([b]) == [4.0, 3.0];
    assert Costs(quick) == [400.0] + Costs([b]) == [400.0, 300.0];
    assert [4.0, 3.0][1..] == [3.0] && [400.0, 300.0][1..] == [300.0] && [3.0][1..] == [] && [300.0][1..] == [];
    assert Numeric.Sum([3.0]) == 3.0 && Numeric.Sum([300.0]) == 300.0;
    assert Numeric.Sum([4.0, 3.0]) == 7.0;
    assert Numeric.Sum([400.0, 300.0]) == 700.0;
  }

  lemma SampleCafe(a: Restaurant, b: Restaurant, c: Restaurant)
    requires SampleTable(a, b, c)
    ensures StatsOf(Group("Cafe", [c]), 3) == TypeStats("Cafe", 1, None, None, 1.0 / 3.0 * 100.0)
  {
    var cafe := [c];
    assert cafe[1..] == [];
    assert Ratings(cafe) == [] && Costs(cafe) == [];
  }

  lemma SampleMerged(a: Restaurant, b: Restaurant, c: Restaurant)
    requires SampleTable(a, b, c)
    ensures Merged([a, b, c]) == [
      TypeStats("Quick Bites", 2, Some(3.5), Some(350.0), 2.0 / 3.0 * 100.0),
      TypeStats("Cafe", 1, None, None, 1.0 / 3.0 * 100.0)]
  {
    var rows := [a, b, c];
    SampleGroups(a, b, c);
    SampleQuickBites(a, b, c);
    SampleCafe(a, b, c);
    var gs := GroupByType(rows);
    assert gs[1..] == [gs[1]] && [gs[1]][1..] == [];
    assert Merged(rows) == [StatsOf(gs[0], 3), StatsOf(gs[1], 3)];
  }

  lemma SampleSorted(a: Restaurant, b: Restaurant, c: Restaurant)
    requires SampleTable(a, b, c)
    ensures SortedStats([a, b, c]) == [
      TypeStats("Quick Bites", 2, Some(3.5), Some(350.0), 2.0 / 3.0 * 100.0),
      TypeStats("Cafe", 1, None, None, 1.0 / 3.0 * 100.0)]
  {
    var sq := TypeStats("Quick Bites", 2, Some(3.5), Some(350.0), 2.0 / 3.0 * 100.0);
    var sc := TypeStats("Cafe", 1, None, None, 1.0 / 3.0 * 100.0);
    SampleMerged(a, b, c);
    assert ListedBefore(sq, sc);
    assert [sq, sc][1..] == [sc] && [sc][1..] == [];
    assert Sorting.SortBy([sc], ListedBefore) == [sc];
    assert Sorting.Insert(sq, [sc], ListedBefore) == [sq, sc];
  }

  /**
    The breakdown of the three-row test table: "Quick Bites" comes first with
    two rows, two thirds of the table, average rating 3.5 and average cost 350;
    "Cafe" follows with no rating and no cost.
   */
  lemma TypeSummariesExample(a: Restaurant, b: Restaurant, c: Restaurant)
    requires SampleTable(a, b, c)
    ensures TypeSummaries([a, b, c]) == [
      RestaurantTypeSummary("Quick Bites", 2, 2.0 / 3.0 * 100.0, Some(3.5), Some(350)),
      RestaurantTypeSummary("Cafe", 1, 1.0 / 3.0 * 100.0, None, None)]
  {
    var sq := TypeStats("Quick Bites", 2, Some(3.5), Some(350.0), 2.0 / 3.0 * 100.0);
    var sc := TypeStats("Cafe", 1, None, None, 1.0 / 3.0 * 100.0);
    SampleSorted(a, b, c);
    RoundWhole(350);
    ToSummariesPair(sq, sc);
  }

  lemma RoundWhole(n: int)
    ensures Numeric.RoundHalfEven(n as real) == n
  {
    assert (n as real).Floor == n;
  }

  lemma ToSummariesPair(x: TypeStats, y: TypeStats)
    ensures ToSummaries([x, y]) == [ToSummary(x), ToSummary(y)]
  {
    var items := ToSummaries([x, y]);
    assert items[0] == ToSummary(x) && items[1] == ToSummary(y);
  }
}
