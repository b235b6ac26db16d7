/**
 * The six day-ranking pipelines of the game-analysis tools (best, worst, most played, most wins,
 * highest and lowest win rate). Each one guards against a missing list, keeps the days that pass
 * a filter, attaches `loseCount` and `netWin` to a copy of each record, sorts stably with the
 * source's comparator and keeps the first `count` records.
 */
module DayRanking {
  import opened Wrappers
  import opened JsSemantics

  /**
   * One day of statistics as the rankings receive it. `winCount == None` is a record whose
   * `win_count` is undefined; any further fields of the record travel in `date` unchanged.
   */
  datatype DayStat = DayStat(
    date: int,                // the record's date and any other fields, carried unchanged
    count: nat,               // `count`: games played that day
    winCount: Option<nat>)    // `win_count`, or `None` when undefined

  /** `item.win_count || 0`. */
  function Wins(d: DayStat): nat {
    d.winCount.GetOr(0)
  }

  /** The input record together with the fields every ranking attaches to its copy. */
  datatype Ranked = Ranked(day: DayStat, loseCount: int, netWin: int)

  /** `{...item, loseCount, netWin}`: losses are games minus wins, net wins are wins minus losses. */
  function Derive(d: DayStat): (x: Ranked)
    ensures x.day == d
    ensures x.loseCount == d.count - Wins(d)
    ensures x.netWin == 2 * Wins(d) - d.count
  {
    var lose := d.count - Wins(d);
    Ranked(d, lose, Wins(d) - lose)
  }

  /** The four filters the rankings use. */
  datatype Filter =
    | Recorded            // item.win_count !== undefined && item.count
    | Played              // item.count && item.count > 0
    | MinGames(min: int)  // item.count && item.count >= minGames
    | Won                 // item.win_count && item.win_count > 0

  predicate Keeps(f: Filter, d: DayStat) {
    match f
    case Recorded => d.winCount.Some? && d.count != 0
    case Played => d.count > 0
    case MinGames(m) => d.count != 0 && d.count >= m
    case Won => d.winCount.Some? && d.winCount.value > 0
  }

  /** The six sort comparators. */
  datatype Order = NetWinDesc | NetWinAsc | CountDesc | WinsDesc | RateDesc | RateAsc

  /** `winRateNum` as a fraction with a positive denominator: `win_count / count`, or 0 without games. */
  function RateNum(d: DayStat): nat {
    if d.count > 0 then Wins(d) else 0
  }

  function RateDen(d: DayStat): (n: nat)
    ensures n > 0
  {
    if d.count > 0 then d.count else 1
  }

  /** Has the sign of `winRateNum(x) - winRateNum(y)` (cross-multiplied by the positive denominators). */
  function RateDiff(x: DayStat, y: DayStat): int {
    RateNum(x) * RateDen(y) - RateNum(y) * RateDen(x)
  }

  /**
   * The comparator passed to `sort`, up to a positive factor: negative puts `a` first, positive puts
   * `b` first. The win-rate orders fall back to `b.count - a.count` when the rates are equal
   * (JavaScript's `x || y` with `x == 0`).
   */
  function Cmp(o: Order, a: Ranked, b: Ranked): int {
    match o
    case NetWinDesc => b.netWin - a.netWin
    case NetWinAsc => a.netWin - b.netWin
    case CountDesc => b.day.count - a.day.count
    case WinsDesc => Wins(b.day) - Wins(a.day)
    case RateDesc =>
      var c := RateDiff(b.day, a.day);
      if c != 0 then c else b.day.count - a.day.count
    case RateAsc =>
      var c := RateDiff(a.day, b.day);
      if c != 0 then c else b.day.count - a.day.count
  }

  // ---------------------------------------------------------------------------------------------
  // The comparators are total preorders

  lemma CmpAntisymmetric(o: Order, a: Ranked, b: Ranked)
    ensures Cmp(o, a, b) == -Cmp(o, b, a)
  {
  }

  /** `x * y` with `y > 0` has the sign of `x`. */
  lemma MulPositive(x: int, y: int)
    requires y > 0
    ensures x > 0 ==> x * y > 0
    ensures x == 0 ==> x * y == 0
    ensures x < 0 ==> x * y < 0
  {
  }

  /** Comparing fractions by cross-multiplication is transitive when denominators are positive. */
  lemma CrossTransitive(an: int, ad: int, bn: int, bd: int, cn: int, cd: int)
    requires ad > 0 && bd > 0 && cd > 0
    requires an * bd >= bn * ad && bn * cd >= cn * bd
    ensures an * cd >= cn * ad
    ensures an * bd > bn * ad || bn * cd > cn * bd ==> an * cd > cn * ad
  {
    var x := an * bd - bn * ad;
    var y := bn * cd - cn * bd;
    assert (an * cd - cn * ad) * bd == cd * x + ad * y;
    MulPositive(x, cd);
    MulPositive(y, ad);
    assert cd * x >= 0 && ad * y >= 0;
    assert x > 0 || y > 0 ==> cd * x + ad * y > 0;
    MulPositive(an * cd - cn * ad, bd);
  }

  /** Rate at least as high: the cross-multiplied comparison `RateDiff >= 0`. */
  lemma RateTransitive(a: DayStat, b: DayStat, c: DayStat)
    requires RateDiff(a, b) >= 0 && RateDiff(b, c) >= 0
    ensures RateDiff(a, c) >= 0
    ensures RateDiff(a, b) > 0 || RateDiff(b, c) > 0 ==> RateDiff(a, c) > 0
  {
    CrossTransitive(RateNum(a), RateDen(a), RateNum(b), RateDen(b), RateNum(c), RateDen(c));
  }

  lemma {:induction false} CmpTransitive(o: Order, a: Ranked, b: Ranked, c: Ranked)
    requires Cmp(o, a, b) <= 0 && Cmp(o, b, c) <= 0
    ensures Cmp(o, a, c) <= 0
  {
    match o
    case RateDesc =>
      RateTransitive(a.day, b.day, c.day);
    case RateAsc =>
      RateTransitive(c.day, b.day, a.day);
    case _ =>
  }

  /** Being equally ranked is transitive. */
  lemma TiedTransitive(o: Order, a: Ranked, b: Ranked, c: Ranked)
    requires Cmp(o, a, b) == 0 && Cmp(o, b, c) == 0
    ensures Cmp(o, a, c) == 0
  {
    CmpAntisymmetric(o, a, b);
    CmpAntisymmetric(o, b, c);
    CmpAntisymmetric(o, a, c);
    CmpTransitive(o, a, b, c);
    CmpTransitive(o, c, b, a);
  }

  // ---------------------------------------------------------------------------------------------
  // Stable sort

  /** Insert `x` after every element that must come strictly before it, and before the rest. */
  function Insert(o: Order, x: Ranked, t: seq<Ranked>): (r: seq<Ranked>)
    ensures |r| == |t| + 1
    ensures multiset(r) == multiset(t) + multiset{x}
  {
    assert t != [] ==> t == [t[0]] + t[1..];
    if t == [] then [x]
    else if Cmp(o, x, t[0]) > 0 then [t[0]] + Insert(o, x, t[1..])
    else [x] + t
  }

  /**
   * `Array.prototype.sort` with the comparator of `o`. The language guarantees a stable sort; for a
   * comparator that is a total preorder the stable sorted permutation is unique, and this is one.
   */
  function Sort(o: Order, s: seq<Ranked>): (r: seq<Ranked>)
    ensures |r| == |s|
    ensures multiset(r) == multiset(s)
  {
    assert s != [] ==> s == [s[0]] + s[1..];
    if s == [] then [] else Insert(o, s[0], Sort(o, s[1..]))
  }

  ghost predicate Sorted(o: Order, s: seq<Ranked>) {
    forall i, j :: 0 <= i < j < |s| ==> Cmp(o, s[i], s[j]) <= 0
  }

  /** The elements of `s` ranked equal to `e`, in the order of `s`. */
  ghost function Tied(o: Order, s: seq<Ranked>, e: Ranked): seq<Ranked> {
    if s == [] then []
    else (if Cmp(o, s[0], e) == 0 then [s[0]] else []) + Tied(o, s[1..], e)
  }

  /** Everything inserted after the head of a sorted list ranks no better than that head. */
  lemma HeadBoundsInsert(o: Order, x: Ranked, t: seq<Ranked>)
    requires Sorted(o, t) && t != [] && Cmp(o, x, t[0]) > 0
    ensures forall z :: z in Insert(o, x, t[1..]) ==> Cmp(o, t[0], z) <= 0
  {
    var rest := Insert(o, x, t[1..]);
    forall z | z in rest ensures Cmp(o, t[0], z) <= 0 {
      assert z in multiset(rest);
      if z == x {
        CmpAntisymmetric(o, x, t[0]);
      } else {
        assert z in multiset(t[1..]);
        var k :| 0 <= k < |t[1..]| && t[1..][k] == z;
        assert t[k + 1] == z;
      }
    }
  }

  lemma {:induction false} InsertSorted(o: Order, x: Ranked, t: seq<Ranked>)
    requires Sorted(o, t)
    ensures Sorted(o, Insert(o, x, t))
  {
    if t != [] && Cmp(o, x, t[0]) > 0 {
      assert Sorted(o, t[1..]) by {
        forall i, j | 0 <= i < j < |t[1..]| ensures Cmp(o, t[1..][i], t[1..][j]) <= 0 {
          assert t[1..][i] == t[i + 1] && t[1..][j] == t[j + 1];
        }
      }
      InsertSorted(o, x, t[1..]);
      HeadBoundsInsert(o, x, t);
      var rest := Insert(o, x, t[1..]);
      assert Insert(o, x, t) == [t[0]] + rest;
      forall i, j | 0 <= i < j < |rest| + 1 ensures Cmp(o, ([t[0]] + rest)[i], ([t[0]] + rest)[j]) <= 0 {
        if i == 0 {
          assert ([t[0]] + rest)[j] == rest[j - 1];
          assert rest[j - 1] in rest;
        } else {
          assert ([t[0]] + rest)[i] == rest[i - 1] && ([t[0]] + rest)[j] == rest[j - 1];
        }
      }
    } else if t != [] {
      forall j | 0 < j < |t| ensures Cmp(o, x, t[j]) <= 0 {
        CmpTransitive(o, x, t[0], t[j]);
      }
    }
  }

  lemma {:induction false} SortSorted(o: Order, s: seq<Ranked>)
    ensures Sorted(o, Sort(o, s))
  {
    if s != [] {
      SortSorted(o, s[1..]);
      InsertSorted(o, s[0], Sort(o, s[1..]));
    }
  }

  lemma TiedCons(o: Order, y: Ranked, s: seq<Ranked>, e: Ranked)
    ensures Tied(o, [y] + s, e) == (if Cmp(o, y, e) == 0 then [y] else []) + Tied(o, s, e)
  {
    assert ([y] + s)[1..] == s;
  }

  /** Two elements ranked strictly apart cannot both tie with a third. */
  lemma ApartNotBothTied(o: Order, x: Ranked, y: Ranked, e: Ranked)
    requires Cmp(o, x, y) > 0
    ensures Cmp(o, x, e) != 0 || Cmp(o, y, e) != 0
  {
    if Cmp(o, x, e) == 0 && Cmp(o, y, e) == 0 {
      CmpAntisymmetric(o, y, e);
      TiedTransitive(o, x, e, y);
    }
  }

  lemma SwapEmpty<T>(a: seq<T>, b: seq<T>, c: seq<T>)
    requires a == [] || b == []
    ensures a + (b + c) == b + (a + c)
  {
    if a == [] {
      assert a + (b + c) == b + c;
      assert a + c == c;
    } else {
      assert b + c == c;
      assert b + (a + c) == a + c;
    }
  }

  lemma {:induction false} InsertTied(o: Order, x: Ranked, t: seq<Ranked>, e: Ranked)
    ensures Tied(o, Insert(o, x, t), e) == (if Cmp(o, x, e) == 0 then [x] else []) + Tied(o, t, e)
  {
    if t != [] && Cmp(o, x, t[0]) > 0 {
      var y, tail := t[0], t[1..];
      assert t == [y] + tail;
      var rest := Insert(o, x, tail);
      assert Insert(o, x, t) == [y] + rest;
      InsertTied(o, x, tail, e);
      TiedCons(o, y, rest, e);
      TiedCons(o, y, tail, e);
      ApartNotBothTied(o, x, y, e);
      var tx := if Cmp(o, x, e) == 0 then [x] else [];
      var ty := if Cmp(o, y, e) == 0 then [y] else [];
      SwapEmpty(ty, tx, Tied(o, tail, e));
      calc {
        Tied(o, Insert(o, x, t), e);
        Tied(o, [y] + rest, e);
        ty + (tx + Tied(o, tail, e));
        tx + (ty + Tied(o, tail, e));
        tx + Tied(o, [y] + tail, e);
      }
    } else {
      TiedCons(o, x, t, e);
    }
  }

  /** Sorting keeps the input order among equally ranked elements. */
  lemma {:induction false} SortStable(o: Order, s: seq<Ranked>, e: Ranked)
    ensures Tied(o, Sort(o, s), e) == Tied(o, s, e)
  {
    if s != [] {
      SortStable(o, s[1..], e);
      InsertTied(o, s[0], Sort(o, s[1..]), e);
    }
  }

  lemma {:induction false} TiedPrefix(o: Order, s: seq<Ranked>, m: nat, e: Ranked)
    requires m <= |s|
    ensures Tied(o, s[..m], e) <= Tied(o, s, e)
  {
    if m > 0 {
      TiedPrefix(o, s[1..], m - 1, e);
      assert s[..m][1..] == s[1..][..m - 1];
    }
  }

  // ---------------------------------------------------------------------------------------------
  // The pipeline

  /**
   * `data.filter(keep).map(derive)`. `CandidatesCount` says how often each day occurs in it and
   * `CandidatesAppend` that the input's order is kept.
   */
  function Candidates(f: Filter, ds: seq<DayStat>): (r: seq<Ranked>)
    ensures |r| <= |ds|
    ensures forall x :: x in r ==> x.day in ds && Keeps(f, x.day) && x == Derive(x.day)
    ensures forall d :: d in ds && Keeps(f, d) ==> Derive(d) in r
  {
    if ds == [] then []
    else (if Keeps(f, ds[0]) then [Derive(ds[0])] else []) + Candidates(f, ds[1..])
  }

  /** Every kept day occurs among the candidates as often as in the input, and a dropped day never. */
  lemma {:induction false} CandidatesCount(f: Filter, ds: seq<DayStat>, d: DayStat)
    ensures multiset(Candidates(f, ds))[Derive(d)] == (if Keeps(f, d) then multiset(ds)[d] else 0)
  {
    if ds != [] {
      assert ds == [ds[0]] + ds[1..];
      CandidatesCount(f, ds[1..], d);
      assert Derive(ds[0]) == Derive(d) <==> ds[0] == d;
    }
  }

  /** Filtering and deriving work element by element, so the candidates keep the input's order. */
  lemma {:induction false} CandidatesAppend(f: Filter, a: seq<DayStat>, b: seq<DayStat>)
    ensures Candidates(f, a + b) == Candidates(f, a) + Candidates(f, b)
  {
    if a == [] {
      assert a + b == b;
    } else {
      assert (a + b)[0] == a[0];
      assert (a + b)[1..] == a[1..] + b;
      CandidatesAppend(f, a[1..], b);
    }
  }

  /** Guard, filter, derive, sort, `slice(0, count)`. */
  function Rank(o: Order, f: Filter, data: Option<seq<DayStat>>, count: int): (r: seq<Ranked>)
    ensures data.None? ==> r == []
    ensures data.Some? ==> |r| <= |data.value|
    ensures count >= 0 ==> |r| <= count
    ensures data.Some? ==> r <= Sort(o, Candidates(f, data.value))
    ensures data.Some? && count >= 0 ==>
      |r| == (if count < |Candidates(f, data.value)| then count else |Candidates(f, data.value)|)
  {
    if data.None? then [] else SliceTo(Sort(o, Candidates(f, data.value)), count)
  }

  /** Each result is a kept input day carrying its derived fields. */
  lemma RankMembers(o: Order, f: Filter, data: seq<DayStat>, count: int)
    ensures forall x :: x in Rank(o, f, Some(data), count) ==>
              x.day in data && Keeps(f, x.day) && x == Derive(x.day)
  {
    var sorted := Sort(o, Candidates(f, data));
    var r := Rank(o, f, Some(data), count);
    forall x | x in r ensures x.day in data && Keeps(f, x.day) && x == Derive(x.day) {
      assert x in multiset(sorted);
    }
  }

  /** The results come in comparator order. */
  lemma RankSorted(o: Order, f: Filter, data: seq<DayStat>, count: int)
    ensures Sorted(o, Rank(o, f, Some(data), count))
  {
    var sorted := Sort(o, Candidates(f, data));
    var r := Rank(o, f, Some(data), count);
    SortSorted(o, Candidates(f, data));
    forall i, j | 0 <= i < j < |r| ensures Cmp(o, r[i], r[j]) <= 0 {
      assert r[i] == sorted[i] && r[j] == sorted[j];
    }
  }

  /** No kept day that was left out ranks before one that was taken. */
  lemma RankOmitted(o: Order, f: Filter, data: seq<DayStat>, count: int)
    ensures var r := Rank(o, f, Some(data), count);
      forall d, x :: d in data && Keeps(f, d) && Derive(d) !in r && x in r ==> Cmp(o, x, Derive(d)) <= 0
  {
    var sorted := Sort(o, Candidates(f, data));
    var r := Rank(o, f, Some(data), count);
    SortSorted(o, Candidates(f, data));
    forall d, x | d in data && Keeps(f, d) && Derive(d) !in r && x in r
      ensures Cmp(o, x, Derive(d)) <= 0
    {
      assert Derive(d) in multiset(sorted);
      var j :| 0 <= j < |sorted| && sorted[j] == Derive(d);
      var i :| 0 <= i < |r| && r[i] == x;
      assert sorted[i] == x;
    }
  }

  /** With room for every kept day, all of them are there, as often as in the input. */
  lemma RankComplete(o: Order, f: Filter, data: seq<DayStat>, count: int)
    requires count >= |Candidates(f, data)|
    ensures multiset(Rank(o, f, Some(data), count)) == multiset(Candidates(f, data))
    ensures forall d :: d in data && Keeps(f, d) ==> Derive(d) in Rank(o, f, Some(data), count)
  {
    var r := Rank(o, f, Some(data), count);
    assert r == Sort(o, Candidates(f, data));
    forall d | d in data && Keeps(f, d) ensures Derive(d) in r {
      assert Derive(d) in multiset(Candidates(f, data));
    }
  }

  /**
   * The ranking is as long as `slice(0, count)` makes it: `count` records, or every kept day when
   * there are fewer; with room for all, it holds every kept day as often as the input.
   */
  lemma RankSize(o: Order, f: Filter, data: seq<DayStat>, count: int)
    ensures var r, n := Rank(o, f, Some(data), count), |Candidates(f, data)|;
      && (count >= 0 ==> |r| == (if count < n then count else n))
      && (count >= n ==> multiset(r) == multiset(Candidates(f, data)))
      && (count >= n ==> forall d :: d in data && Keeps(f, d) ==> Derive(d) in r)
  {
    if count >= |Candidates(f, data)| {
      RankComplete(o, f, data, count);
    }
  }

  /** Among equally ranked days, the results are the first ones in input order, kept in that order. */
  lemma RankStable(o: Order, f: Filter, data: seq<DayStat>, count: int, e: Ranked)
    ensures Tied(o, Rank(o, f, Some(data), count), e) <= Tied(o, Candidates(f, data), e)
  {
    var cands := Candidates(f, data);
    var sorted := Sort(o, cands);
    var r := Rank(o, f, Some(data), count);
    assert r == sorted[..|r|];
    TiedPrefix(o, sorted, |r|, e);
    SortStable(o, cands, e);
  }

  // ---------------------------------------------------------------------------------------------
  // The six rankings

  /** `getBestDays`: the days with the most net wins. */
  function BestDays(data: Option<seq<DayStat>>, count: int := 3): (r: seq<Ranked>)
    ensures data.None? ==> r == []
    ensures count >= 0 ==> |r| <= count
  {
    Rank(NetWinDesc, Recorded, data, count)
  }

  /** `getWorstDays`: the days with the fewest net wins. */
  function WorstDays(data: Option<seq<DayStat>>, count: int := 3): (r: seq<Ranked>)
    ensures data.None? ==> r == []
    ensures count >= 0 ==> |r| <= count
  {
    Rank(NetWinAsc, Recorded, data, count)
  }

  /** `getMostPlayedDays`: the days with the most games. */
  function MostPlayedDays(data: Option<seq<DayStat>>, count: int := 3): (r: seq<Ranked>)
    ensures data.None? ==> r == []
    ensures count >= 0 ==> |r| <= count
  {
    Rank(CountDesc, Played, data, count)
  }

  /** `getHighestWinRateDays`: among days with at least `minGames` games, the best win rates. */
  function HighestWinRateDays(data: Option<seq<DayStat>>, count: int := 3, minGames: int := 3): (r: seq<Ranked>)
    ensures data.None? ==> r == []
    ensures count >= 0 ==> |r| <= count
  {
    Rank(RateDesc, MinGames(minGames), data, count)
  }

  /** `getLowestWinRateDays`: among days with at least `minGames` games, the worst win rates. */
  function LowestWinRateDays(data: Option<seq<DayStat>>, count: int := 3, minGames: int := 3): (r: seq<Ranked>)
    ensures data.None? ==> r == []
    ensures count >= 0 ==> |r| <= count
  {
    Rank(RateAsc, MinGames(minGames), data, count)
  }

  /** `getMostWinsDays`: the days with the most wins. */
  function MostWinsDays(data: Option<seq<DayStat>>, count: int := 3): (r: seq<Ranked>)
    ensures data.None? ==> r == []
    ensures count >= 0 ==> |r| <= count
  {
    Rank(WinsDesc, Won, data, count)
  }

  // ---------------------------------------------------------------------------------------------
  // What each ranking promises, in the terms of its own fields

  /** `x` carries its input record unchanged and the derived loss and net-win counts. */
  predicate WellDerived(x: Ranked) {
    x.loseCount == x.day.count - Wins(x.day) && x.netWin == Wins(x.day) - x.loseCount
  }

  /** Win rate of `a` strictly above that of `b` (both with games), by cross-multiplication. */
  predicate RateAbove(a: DayStat, b: DayStat) {
    Wins(a) * b.count > Wins(b) * a.count
  }

  predicate SameRate(a: DayStat, b: DayStat) {
    Wins(a) * b.count == Wins(b) * a.count
  }

  /** Which days `BestDaysSpec` may return and in what order, apart from how many. */
  lemma BestDaysOrder(data: seq<DayStat>, count: int)
    ensures var r := BestDays(Some(data), count);
      && (forall x :: x in r ==> x.day in data && x.day.winCount.Some? && x.day.count != 0 && WellDerived(x))
      && (forall i, j :: 0 <= i < j < |r| ==> r[i].netWin >= r[j].netWin)
      && (forall d, x :: d in data && d.winCount.Some? && d.count != 0 && Derive(d) !in r && x in r ==>
            x.netWin >= 2 * d.winCount.value - d.count)
  {
    var r := BestDays(Some(data), count);
    RankMembers(NetWinDesc, Recorded, data, count);
    RankSorted(NetWinDesc, Recorded, data, count);
    RankOmitted(NetWinDesc, Recorded, data, count);
    forall i, j | 0 <= i < j < |r| ensures Cmp(NetWinDesc, r[i], r[j]) <= 0 {
    }
  }

  /** `BestDays` on a list: its records, their order, what was dropped, and how many there are. */
  lemma BestDaysSpec(data: seq<DayStat>, count: int)
    ensures var r := BestDays(Some(data), count);
      && (forall x :: x in r ==> x.day in data && x.day.winCount.Some? && x.day.count != 0 && WellDerived(x))
      && (forall i, j :: 0 <= i < j < |r| ==> r[i].netWin >= r[j].netWin)
      && (forall d, x :: d in data && d.winCount.Some? && d.count != 0 && Derive(d) !in r && x in r ==>
            x.netWin >= 2 * d.winCount.value - d.count)
      && (count >= 0 ==> |r| == (if count < |Candidates(Recorded, data)| then count else |Candidates(Recorded, data)|))
      && (count >= |Candidates(Recorded, data)| ==> multiset(r) == multiset(Candidates(Recorded, data)))
      && (count >= |Candidates(Recorded, data)| ==> forall d :: d in data && d.winCount.Some? && d.count != 0 ==> Derive(d) in r)
  {
    BestDaysOrder(data, count);
    RankSize(NetWinDesc, Recorded, data, count);
  }

  /** Which days `WorstDaysSpec` may return and in what order, apart from how many. */
  lemma WorstDaysOrder(data: seq<DayStat>, count: int)
    ensures var r := WorstDays(Some(data), count);
      && (forall x :: x in r ==> x.day in data && x.day.winCount.Some? && x.day.count != 0 && WellDerived(x))
      && (forall i, j :: 0 <= i < j < |r| ==> r[i].netWin <= r[j].netWin)
      && (forall d, x :: d in data && d.winCount.Some? && d.count != 0 && Derive(d) !in r && x in r ==>
            x.netWin <= 2 * d.winCount.value - d.count)
  {
    var r := WorstDays(Some(data), count);
    RankMembers(NetWinAsc, Recorded, data, count);
    RankSorted(NetWinAsc, Recorded, data, count);
    RankOmitted(NetWinAsc, Recorded, data, count);
    forall i, j | 0 <= i < j < |r| ensures Cmp(NetWinAsc, r[i], r[j]) <= 0 {
    }
  }

  /** `WorstDays` on a list: its records, their order, what was dropped, and how many there are. */
  lemma WorstDaysSpec(data: seq<DayStat>, count: int)
    ensures var r := WorstDays(Some(data), count);
      && (forall x :: x in r ==> x.day in data && x.day.winCount.Some? && x.day.count != 0 && WellDerived(x))
      && (forall i, j :: 0 <= i < j < |r| ==> r[i].netWin <= r[j].netWin)
      && (forall d, x :: d in data && d.winCount.Some? && d.count != 0 && Derive(d) !in r && x in r ==>
            x.netWin <= 2 * d.winCount.value - d.count)
      && (count >= 0 ==> |r| == (if count < |Candidates(Recorded, data)| then count else |Candidates(Recorded, data)|))
      && (count >= |Candidates(Recorded, data)| ==> multiset(r) == multiset(Candidates(Recorded, data)))
      && (count >= |Candidates(Recorded, data)| ==> forall d :: d in data && d.winCount.Some? && d.count != 0 ==> Derive(d) in r)
  {
    WorstDaysOrder(data, count);
    RankSize(NetWinAsc, Recorded, data, count);
  }

  /** Which days `MostPlayedDaysSpec` may return and in what order, apart from how many. */
  lemma MostPlayedDaysOrder(data: seq<DayStat>, count: int)
    ensures var r := MostPlayedDays(Some(data), count);
      && (forall x :: x in r ==> x.day in data && x.day.count > 0 && WellDerived(x))
      && (forall i, j :: 0 <= i < j < |r| ==> r[i].day.count >= r[j].day.count)
      && (forall d, x :: d in data && d.count > 0 && Derive(d) !in r && x in r ==> x.day.count >= d.count)
  {
    var r := MostPlayedDays(Some(data), count);
    RankMembers(CountDesc, Played, data, count);
    RankSorted(CountDesc, Played, data, count);
    RankOmitted(CountDesc, Played, data, count);
    forall i, j | 0 <= i < j < |r| ensures Cmp(CountDesc, r[i], r[j]) <= 0 {
    }
  }

  /** `MostPlayedDays` on a list: its records, their order, what was dropped, and how many there are. */
  lemma MostPlayedDaysSpec(data: seq<DayStat>, count: int)
    ensures var r := MostPlayedDays(Some(data), count);
      && (forall x :: x in r ==> x.day in data && x.day.count > 0 && WellDerived(x))
      && (forall i, j :: 0 <= i < j < |r| ==> r[i].day.count >= r[j].day.count)
      && (forall d, x :: d in data && d.count > 0 && Derive(d) !in r && x in r ==> x.day.count >= d.count)
      && (count >= 0 ==> |r| == (if count < |Candidates(Played, data)| then count else |Candidates(Played, data)|))
      && (count >= |Candidates(Played, data)| ==> multiset(r) == multiset(Candidates(Played, data)))
      && (count >= |Candidates(Played, data)| ==> forall d :: d in data && d.count > 0 ==> Derive(d) in r)
  {
    MostPlayedDaysOrder(data, count);
    RankSize(CountDesc, Played, data, count);
  }

  /** Which days `MostWinsDaysSpec` may return and in what order, apart from how many. */
  lemma MostWinsDaysOrder(data: seq<DayStat>, count: int)
    ensures var r := MostWinsDays(Some(data), count);
      && (forall x :: x in r ==> x.day in data && x.day.winCount.Some? && x.day.winCount.value > 0 && WellDerived(x))
      && (forall i, j :: 0 <= i < j < |r| ==> Wins(r[i].day) >= Wins(r[j].day))
      && (forall d, x :: d in data && d.winCount.Some? && d.winCount.value > 0 && Derive(d) !in r && x in r ==>
            Wins(x.day) >= d.winCount.value)
  {
    var r := MostWinsDays(Some(data), count);
    RankMembers(WinsDesc, Won, data, count);
    RankSorted(WinsDesc, Won, data, count);
    RankOmitted(WinsDesc, Won, data, count);
    forall i, j | 0 <= i < j < |r| ensures Cmp(WinsDesc, r[i], r[j]) <= 0 {
    }
  }

  /** `MostWinsDays` on a list: its records, their order, what was dropped, and how many there are. */
  lemma MostWinsDaysSpec(data: seq<DayStat>, count: int)
    ensures var r := MostWinsDays(Some(data), count);
      && (forall x :: x in r ==> x.day in data && x.day.winCount.Some? && x.day.winCount.value > 0 && WellDerived(x))
      && (forall i, j :: 0 <= i < j < |r| ==> Wins(r[i].day) >= Wins(r[j].day))
      && (forall d, x :: d in data && d.winCount.Some? && d.winCount.value > 0 && Derive(d) !in r && x in r ==>
            Wins(x.day) >= d.winCount.value)
      && (count >= 0 ==> |r| == (if count < |Candidates(Won, data)| then count else |Candidates(Won, data)|))
      && (count >= |Candidates(Won, data)| ==> multiset(r) == multiset(Candidates(Won, data)))
      && (count >= |Candidates(Won, data)| ==> forall d :: d in data && d.winCount.Some? && d.winCount.value > 0 ==> Derive(d) in r)
  {
    MostWinsDaysOrder(data, count);
    RankSize(WinsDesc, Won, data, count);
  }

  /** For days with games, the descending win-rate comparator puts `a` first exactly by `RateAbove`. */
  lemma RateDescMeaning(a: Ranked, b: Ranked)
    requires a.day.count > 0 && b.day.count > 0 && Cmp(RateDesc, a, b) <= 0
    ensures RateAbove(a.day, b.day) || (SameRate(a.day, b.day) && a.day.count >= b.day.count)
  {
  }

  /** For days with games, the ascending win-rate comparator puts `a` first exactly by `RateAbove`. */
  lemma RateAscMeaning(a: Ranked, b: Ranked)
    requires a.day.count > 0 && b.day.count > 0 && Cmp(RateAsc, a, b) <= 0
    ensures RateAbove(b.day, a.day) || (SameRate(a.day, b.day) && a.day.count >= b.day.count)
  {
  }

  /** The rankings by win rate come in the order of their comparator, read as rates. */
  lemma RateRankOrdered(o: Order, data: seq<DayStat>, count: int, minGames: int)
    requires o == RateDesc || o == RateAsc
    ensures var r := Rank(o, MinGames(minGames), Some(data), count);
      forall i, j :: 0 <= i < j < |r| ==>
        (if o == RateDesc then RateAbove(r[i].day, r[j].day) else RateAbove(r[j].day, r[i].day))
        || (SameRate(r[i].day, r[j].day) && r[i].day.count >= r[j].day.count)
  {
    var r := Rank(o, MinGames(minGames), Some(data), count);
    RankMembers(o, MinGames(minGames), data, count);
    RankSorted(o, MinGames(minGames), data, count);
    forall i, j | 0 <= i < j < |r|
      ensures (if o == RateDesc then RateAbove(r[i].day, r[j].day) else RateAbove(r[j].day, r[i].day))
        || (SameRate(r[i].day, r[j].day) && r[i].day.count >= r[j].day.count)
    {
      assert r[i] in r && r[j] in r;
      if o == RateDesc {
        RateDescMeaning(r[i], r[j]);
      } else {
        RateAscMeaning(r[i], r[j]);
      }
    }
  }

  /** A qualifying day left out of a win-rate ranking ranks no better than any day taken. */
  lemma RateRankOmitted(o: Order, data: seq<DayStat>, count: int, minGames: int)
    requires o == RateDesc || o == RateAsc
    ensures var r := Rank(o, MinGames(minGames), Some(data), count);
      forall d, x :: d in data && d.count > 0 && d.count >= minGames && Derive(d) !in r && x in r ==>
        (if o == RateDesc then RateAbove(x.day, d) else RateAbove(d, x.day))
        || (SameRate(x.day, d) && x.day.count >= d.count)
  {
    var r := Rank(o, MinGames(minGames), Some(data), count);
    RankMembers(o, MinGames(minGames), data, count);
    RankOmitted(o, MinGames(minGames), data, count);
    forall d, x | d in data && d.count > 0 && d.count >= minGames && Derive(d) !in r && x in r
      ensures (if o == RateDesc then RateAbove(x.day, d) else RateAbove(d, x.day))
        || (SameRate(x.day, d) && x.day.count >= d.count)
    {
      if o == RateDesc {
        RateDescMeaning(x, Derive(d));
      } else {
        RateAscMeaning(x, Derive(d));
      }
    }
  }

  /** `HighestWinRateDays` on a list: its records, their order, what was dropped, and how many there are. */
  lemma HighestWinRateDaysSpec(data: seq<DayStat>, count: int, minGames: int)
    ensures var r := HighestWinRateDays(Some(data), count, minGames);
      && (forall x :: x in r ==> x.day in data && x.day.count > 0 && x.day.count >= minGames && WellDerived(x))
      && (forall i, j :: 0 <= i < j < |r| ==>
            RateAbove(r[i].day, r[j].day) || (SameRate(r[i].day, r[j].day) && r[i].day.count >= r[j].day.count))
      && (forall d, x :: d in data && d.count > 0 && d.count >= minGames && Derive(d) !in r && x in r ==>
            RateAbove(x.day, d) || (SameRate(x.day, d) && x.day.count >= d.count))
      && (count >= 0 ==> |r| == (if count < |Candidates(MinGames(minGames), data)| then count else |Candidates(MinGames(minGames), data)|))
      && (count >= |Candidates(MinGames(minGames), data)| ==> multiset(r) == multiset(Candidates(MinGames(minGames), data)))
      && (count >= |Candidates(MinGames(minGames), data)| ==> forall d :: d in data && d.count > 0 && d.count >= minGames ==> Derive(d) in r)
  {
    RankMembers(RateDesc, MinGames(minGames), data, count);
    RateRankOrdered(RateDesc, data, count, minGames);
    RateRankOmitted(RateDesc, data, count, minGames);
    RankSize(RateDesc, MinGames(minGames), data, count);
  }

  /** `LowestWinRateDays` on a list: its records, their order, what was dropped, and how many there are. */
  lemma LowestWinRateDaysSpec(data: seq<DayStat>, count: int, minGames: int)
    ensures var r := LowestWinRateDays(Some(data), count, minGames);
      && (forall x :: x in r ==> x.day in data && x.day.count > 0 && x.day.count >= minGames && WellDerived(x))
      && (forall i, j :: 0 <= i < j < |r| ==>
            RateAbove(r[j].day, r[i].day) || (SameRate(r[i].day, r[j].day) && r[i].day.count >= r[j].day.count))
      && (forall d, x :: d in data && d.count > 0 && d.count >= minGames && Derive(d) !in r && x in r ==>
            RateAbove(d, x.day) || (SameRate(x.day, d) && x.day.count >= d.count))
      && (count >= 0 ==> |r| == (if count < |Candidates(MinGames(minGames), data)| then count else |Candidates(MinGames(minGames), data)|))
      && (count >= |Candidates(MinGames(minGames), data)| ==> multiset(r) == multiset(Candidates(MinGames(minGames), data)))
      && (count >= |Candidates(MinGames(minGames), data)| ==> forall d :: d in data && d.count > 0 && d.count >= minGames ==> Derive(d) in r)
  {
    RankMembers(RateAsc, MinGames(minGames), data, count);
    RateRankOrdered(RateAsc, data, count, minGames);
    RateRankOmitted(RateAsc, data, count, minGames);
    RankSize(RateAsc, MinGames(minGames), data, count);
  }
}
