/**
 * The helpers of the game-analysis tools other than the rankings and the sexagenary calendar:
 * grouping by a key, the summary statistics over per-day records, the chart palette and the
 * month names.
 */
module GameTools {
  import opened Wrappers
  import opened JsSemantics
  import opened Grouping
  import opened DayRanking

  /**
   * `regroupArr(arr, key)`: fill a dictionary from group key to the list of items with that key,
   * creating a list on a key's first appearance, then return the dictionary's values. `keys` records
   * the dictionary's own keys in the order this model enumerates them.
   */
  method RegroupArr<T, K(==)>(arr: seq<T>, keyOf: T -> K) returns (groups: seq<seq<T>>)
    ensures IsGrouping(arr, keyOf, groups)
    ensures |groups| == |KeysOf(arr, keyOf)|
  {
    var grouped: map<K, seq<T>> := map[];
    var keys: seq<K> := [];
    GroupedEmpty(keyOf);
    var i := 0;
    while i < |arr|
      invariant 0 <= i <= |arr|
      invariant GroupedSoFar(arr[..i], keyOf, grouped, keys)
    {
      var item := arr[i];
      var groupKey := keyOf(item);
      if groupKey !in grouped {
        GroupedOpenedAt(arr, i, keyOf, grouped, keys);
        grouped := grouped[groupKey := []];
        keys := keys + [groupKey];
      } else {
        GroupedSeenAt(arr, i, keyOf, grouped, keys);
      }
      grouped := grouped[groupKey := grouped[groupKey] + [item]];
      i := i + 1;
    }
    GroupedDone(arr, keyOf, grouped, keys);
    groups := Values(grouped, keys);
  }

  /** The summary that `calculateGameStats` returns (its rounded average is not modelled). */
  datatype GameStats = GameStats(totalGames: nat, totalHours: nat, maxGamesInDay: nat, activeDays: nat)

  /** `data.reduce((sum, item) => sum + (item.count || 0), 0)`. */
  function TotalGames(data: seq<DayStat>): nat {
    if data == [] then 0 else TotalGames(data[..|data| - 1]) + data[|data| - 1].count
  }

  /** `Math.max(...data.map(item => item.count || 0))` on a non-empty list. */
  function MaxGames(data: seq<DayStat>): (m: nat)
    requires data != []
    ensures forall d :: d in data ==> d.count <= m
    ensures exists d :: d in data && d.count == m
  {
    if |data| == 1 then data[0].count
    else
      var rest := MaxGames(data[1..]);
      assert data[1..] <= data[1..] && forall d :: d in data[1..] ==> d in data;
      if data[0].count >= rest then data[0].count else rest
  }

  /** `Math.round(x * 0.5)` for a whole number `x`: halves round up. */
  function RoundHalf(x: nat): (r: nat)
    ensures 2 * r == x || 2 * r == x + 1
  {
    (x + 1) / 2
  }

  /**
   * `calculateGameStats(data)`: all zeros for a missing or empty list; otherwise the total of the
   * per-day game counts, half an hour per game rounded, the largest day, and the number of days.
   */
  function CalculateGameStats(data: Option<seq<DayStat>>): (r: GameStats)
    ensures data.None? || data.value == [] ==> r == GameStats(0, 0, 0, 0)
    ensures data.Some? && data.value != [] ==>
      && r.totalGames == TotalGames(data.value)
      && (2 * r.totalHours == r.totalGames || 2 * r.totalHours == r.totalGames + 1)
      && r.activeDays == |data.value|
      && (forall d :: d in data.value ==> d.count <= r.maxGamesInDay)
      && (exists d :: d in data.value && d.count == r.maxGamesInDay)
  {
    if data.None? || data.value == [] then GameStats(0, 0, 0, 0)
    else
      var total := TotalGames(data.value);
      GameStats(total, RoundHalf(total), MaxGames(data.value), |data.value|)
  }

  /** The total counts every day once: it does not depend on how the days are split. */
  lemma {:induction false} TotalGamesAppend(a: seq<DayStat>, b: seq<DayStat>)
    ensures TotalGames(a + b) == TotalGames(a) + TotalGames(b)
  {
    if b != [] {
      assert (a + b)[..|a + b| - 1] == a + b[..|b| - 1];
      TotalGamesAppend(a, b[..|b| - 1]);
    } else {
      assert a + b == a;
    }
  }

  /** Each day's count is part of the total. */
  lemma {:induction false} CountAtMostTotal(data: seq<DayStat>, i: nat)
    requires i < |data|
    ensures data[i].count <= TotalGames(data)
  {
    if i < |data| - 1 {
      CountAtMostTotal(data[..|data| - 1], i);
    }
  }

  /** The total bounds every day from above, so the largest day never exceeds it. */
  lemma MaxAtMostTotal(data: seq<DayStat>)
    requires data != []
    ensures MaxGames(data) <= TotalGames(data)
  {
    var m := MaxGames(data);
    var d :| d in data && d.count == m;
    var i :| 0 <= i < |data| && data[i] == d;
    CountAtMostTotal(data, i);
  }

  /** The ten chart colours of `getChartColor`. */
  const CHART_COLORS: seq<string> := [
    "#646cff", "#42b883", "#ff6b6b", "#4ecdc4", "#45b7d1",
    "#96ceb4", "#feca57", "#ff9ff3", "#54a0ff", "#5f27cd"
  ]

  /**
   * `colors[index % colors.length]` for a whole-number index. JavaScript's `%` keeps the sign of
   * the index, so a negative index reads `undefined` (None), except a multiple of ten, whose
   * remainder is `-0` and reads the first colour.
   */
  function GetChartColor(index: int): (r: Option<string>)
    ensures r.Some? <==> index >= 0 || index % 10 == 0
    ensures r.Some? ==> r.value in CHART_COLORS
    ensures index >= 0 ==> r == Some(CHART_COLORS[index % 10])
  {
    var i := TruncRem(index, |CHART_COLORS|);
    if 0 <= i then Some(CHART_COLORS[i]) else None
  }

  /** Non-negative indices cycle through the palette with period ten, and ten in a row never repeat. */
  lemma ChartColorCycle(index: nat)
    ensures GetChartColor(index + 10) == GetChartColor(index)
    ensures forall j :: index < j < index + 10 ==> GetChartColor(j) != GetChartColor(index)
  {
    assert (index + 10) % 10 == index % 10;
    forall j | index < j < index + 10 ensures GetChartColor(j) != GetChartColor(index) {
      assert j % 10 != index % 10;
    }
  }

  const MONTH_NAMES: seq<string> := [
    "一月", "二月", "三月", "四月", "五月", "六月",
    "七月", "八月", "九月", "十月", "十一月", "十二月"
  ]

  /** `getMonthName(month)`: `months[month - 1] || ''`. */
  function GetMonthName(month: int): (r: string)
    ensures 1 <= month <= 12 ==> r == MONTH_NAMES[month - 1]
    ensures r != "" <==> 1 <= month <= 12
  {
    if 1 <= month <= 12 then MONTH_NAMES[month - 1] else ""
  }

  /** Distinct months get distinct names. */
  lemma MonthNamesDistinct(m1: int, m2: int)
    requires 1 <= m1 <= 12 && 1 <= m2 <= 12 && m1 != m2
    ensures GetMonthName(m1) != GetMonthName(m2)
  {
  }
}
