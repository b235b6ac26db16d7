/**
 * The conversion of raw match records (as an OpenDota-style API returns them) into the calendar
 * the game-analysis page draws: matches are bucketed by UTC day, each day counts its games, wins
 * and losses, and the day is rendered with its win rate and two colours chosen from fixed bands.
 */
module MatchAggregator {
  import opened Wrappers
  import opened JsSemantics
  import opened Grouping

  /** One match record of the API. */
  datatype Match = Match(
    matchId: int,
    playerSlot: int,
    radiantWin: bool,
    startTime: int,
    duration: int,
    kills: int,
    deaths: int,
    assists: int)

  const SECONDS_PER_DAY: int := 86400

  /** `Math.floor(t / 86400) * 86400`: the start of the UTC day holding the instant `t`. */
  function DayKey(t: int): (k: int)
    ensures k <= t < k + SECONDS_PER_DAY
    ensures k % SECONDS_PER_DAY == 0
  {
    t / SECONDS_PER_DAY * SECONDS_PER_DAY
  }

  /** The day bucket of a match. */
  function MatchDay(m: Match): int {
    DayKey(m.startTime)
  }

  /** A match is won when the player's side (slots below 128 are Radiant) is the side that won. */
  function IsWin(m: Match): (w: bool)
    ensures w <==> ((m.playerSlot < 128) == m.radiantWin)
  {
    var isRadiant := m.playerSlot < 128;
    (isRadiant && m.radiantWin) || (!isRadiant && !m.radiantWin)
  }

  /** The number of won matches in `ms`. */
  function Wins(ms: seq<Match>): (n: nat)
    ensures n <= |ms|
  {
    if ms == [] then 0 else Wins(ms[..|ms| - 1]) + (if IsWin(ms[|ms| - 1]) then 1 else 0)
  }

  /** One value of the `dailyStats` dictionary while it is being filled. */
  datatype Bucket = Bucket(date: int, count: nat, winCount: nat, loseCount: nat, matches: seq<Match>)

  /** What the bucket of day `k` holds once every match of `ms` has been counted. */
  ghost function BucketOf(ms: seq<Match>, k: int): Bucket {
    var g := Members(ms, MatchDay, k);
    Bucket(k, |g|, Wins(g), |g| - Wins(g), g)
  }

  /** The buckets of the days `ks`, in that order. */
  ghost function BucketsOf(ms: seq<Match>, ks: seq<int>): (bs: seq<Bucket>)
    ensures |bs| == |ks|
    ensures forall j :: 0 <= j < |ks| ==> bs[j] == BucketOf(ms, ks[j])
  {
    if ks == [] then [] else BucketsOf(ms, ks[..|ks| - 1]) + [BucketOf(ms, ks[|ks| - 1])]
  }

  /** `keys` lists every day that has a match, each once. */
  ghost predicate DayOrder(ms: seq<Match>, keys: seq<int>) {
    Distinct(keys) && (set k | k in keys) == KeysOf(ms, MatchDay)
  }

  /** The loop invariant: the dictionary holds, for each day seen so far, that day's bucket. */
  ghost predicate BucketedSoFar(ms: seq<Match>, daily: map<int, Bucket>, keys: seq<int>) {
    && daily.Keys == (set k | k in keys) == KeysOf(ms, MatchDay)
    && Distinct(keys)
    && (forall k :: k in daily ==> daily[k] == BucketOf(ms, k))
  }

  lemma BucketedEmpty()
    ensures BucketedSoFar([], map[], [])
  {
  }

  /** The number of wins of a list extended by one match. */
  lemma WinsSnoc(ms: seq<Match>, m: Match)
    ensures Wins(ms + [m]) == Wins(ms) + (if IsWin(m) then 1 else 0)
  {
    assert (ms + [m])[..|ms|] == ms;
  }

  /** The loop body's update of one bucket: count the game, keep the match, score it. */
  function Count(b: Bucket, m: Match): (r: Bucket)
    ensures r.date == b.date && r.count == b.count + 1 && r.matches == b.matches + [m]
    ensures r.winCount + r.loseCount == b.winCount + b.loseCount + 1
    ensures r.winCount == b.winCount + (if IsWin(m) then 1 else 0)
  {
    var counted := b.(count := b.count + 1, matches := b.matches + [m]);
    if IsWin(m) then counted.(winCount := counted.winCount + 1)
    else counted.(loseCount := counted.loseCount + 1)
  }

  /** Counting one more match changes the bucket of its day, and only that one, by `Count`. */
  lemma BucketSnoc(ms: seq<Match>, m: Match, k: int)
    ensures BucketOf(ms + [m], k) == if MatchDay(m) == k then Count(BucketOf(ms, k), m) else BucketOf(ms, k)
  {
    MembersSnoc(ms, m, MatchDay, k);
    if MatchDay(m) == k {
      BucketSnocSameDay(ms, m);
    } else {
      assert Members(ms + [m], MatchDay, k) == Members(ms, MatchDay, k);
    }
  }

  /** The bucket of the new match's own day counts it. */
  lemma BucketSnocSameDay(ms: seq<Match>, m: Match)
    ensures BucketOf(ms + [m], MatchDay(m)) == Count(BucketOf(ms, MatchDay(m)), m)
  {
    var k := MatchDay(m);
    var g := Members(ms, MatchDay, k);
    MembersSnoc(ms, m, MatchDay, k);
    var g' := Members(ms + [m], MatchDay, k);
    assert g' == g + [m];
    WinsSnoc(g, m);
    var won := if IsWin(m) then 1 else 0;
    assert Wins(g') == Wins(g) + won;
    assert |g'| == |g| + 1;
    var before := Bucket(k, |g|, Wins(g), |g| - Wins(g), g);
    assert BucketOf(ms, k) == before;
    assert BucketOf(ms + [m], k) == Bucket(k, |g| + 1, Wins(g) + won, |g| + 1 - Wins(g) - won, g + [m]);
  }

  /** A day seen for the first time starts from an empty bucket. */
  lemma BucketAbsent(ms: seq<Match>, k: int)
    requires k !in KeysOf(ms, MatchDay)
    ensures BucketOf(ms, k) == Bucket(k, 0, 0, 0, [])
  {
    MembersAbsent(ms, MatchDay, k);
  }

  /** The days seen grow by the day of the new match, which is listed once, on first sight. */
  lemma DayKeysStep(ms: seq<Match>, m: Match, daily: map<int, Bucket>, keys: seq<int>)
    requires daily.Keys == (set k | k in keys) == KeysOf(ms, MatchDay) && Distinct(keys)
    ensures var k := MatchDay(m);
            var keys' := if k in daily then keys else keys + [k];
            && daily.Keys + {k} == (set k' | k' in keys') == KeysOf(ms + [m], MatchDay)
            && Distinct(keys')
  {
    var k := MatchDay(m);
    KeysOfSnoc(ms, m, MatchDay);
    if k !in daily {
      var keys' := keys + [k];
      assert (set k' | k' in keys') == (set k' | k' in keys) + {k};
      assert Distinct(keys');
    }
  }

  /** Counting the new match into its day's bucket keeps every bucket equal to its day's bucket. */
  lemma BucketValuesStep(ms: seq<Match>, m: Match, created: map<int, Bucket>)
    requires MatchDay(m) in created
    requires forall k :: k in created ==> created[k] == BucketOf(ms, k)
    ensures var next := created[MatchDay(m) := Count(created[MatchDay(m)], m)];
            forall k :: k in next ==> next[k] == BucketOf(ms + [m], k)
  {
    var next := created[MatchDay(m) := Count(created[MatchDay(m)], m)];
    forall k | k in next ensures next[k] == BucketOf(ms + [m], k) {
      BucketSnoc(ms, m, k);
    }
  }

  /** Counting a match of a day already seen: that day's bucket counts it. */
  lemma BucketSeenStep(ms: seq<Match>, m: Match, daily: map<int, Bucket>, keys: seq<int>)
    requires BucketedSoFar(ms, daily, keys)
    requires MatchDay(m) in daily
    ensures BucketedSoFar(ms + [m], daily[MatchDay(m) := Count(daily[MatchDay(m)], m)], keys)
  {
    BucketSeenKeys(ms, m, daily, keys);
    BucketValuesStep(ms, m, daily);
  }

  /** A match of a day already listed leaves the days as they are. */
  lemma BucketSeenKeys(ms: seq<Match>, m: Match, daily: map<int, Bucket>, keys: seq<int>)
    requires daily.Keys == (set k | k in keys) == KeysOf(ms, MatchDay)
    requires MatchDay(m) in daily
    ensures daily[MatchDay(m) := Count(daily[MatchDay(m)], m)].Keys == (set k | k in keys) == KeysOf(ms + [m], MatchDay)
  {
    KeysOfSnoc(ms, m, MatchDay);
  }

  /** Counting the first match of a new day: an empty bucket is opened for it and counts it. */
  lemma BucketOpenedStep(ms: seq<Match>, m: Match, daily: map<int, Bucket>, keys: seq<int>)
    requires BucketedSoFar(ms, daily, keys)
    requires MatchDay(m) !in daily
    ensures var k := MatchDay(m);
            var created := daily[k := Bucket(k, 0, 0, 0, [])];
            BucketedSoFar(ms + [m], created[k := Count(created[k], m)], keys + [k])
  {
    BucketOpenedKeys(ms, m, daily, keys);
    BucketOpenedValues(ms, m, daily);
  }

  /** The day of a match seen for the first time is listed at the end. */
  lemma BucketOpenedKeys(ms: seq<Match>, m: Match, daily: map<int, Bucket>, keys: seq<int>)
    requires daily.Keys == (set k | k in keys) == KeysOf(ms, MatchDay) && Distinct(keys)
    requires MatchDay(m) !in daily
    ensures var k := MatchDay(m);
            var created := daily[k := Bucket(k, 0, 0, 0, [])];
            var next := created[k := Count(created[k], m)];
            && next.Keys == (set k' | k' in keys + [k]) == KeysOf(ms + [m], MatchDay)
            && Distinct(keys + [k])
  {
    var k := MatchDay(m);
    DayKeysStep(ms, m, daily, keys);
    var created := daily[k := Bucket(k, 0, 0, 0, [])];
    var next := created[k := Count(created[k], m)];
    assert next.Keys == daily.Keys + {k};
  }

  /** The bucket opened for a new day counts just the new match; the other buckets are unchanged. */
  lemma BucketOpenedValues(ms: seq<Match>, m: Match, daily: map<int, Bucket>)
    requires forall k :: k in daily ==> daily[k] == BucketOf(ms, k)
    requires MatchDay(m) !in daily && MatchDay(m) !in KeysOf(ms, MatchDay)
    ensures var k := MatchDay(m);
            var created := daily[k := Bucket(k, 0, 0, 0, [])];
            var next := created[k := Count(created[k], m)];
            forall k' :: k' in next ==> next[k'] == BucketOf(ms + [m], k')
  {
    var k := MatchDay(m);
    BucketAbsent(ms, k);
    BucketValuesStep(ms, m, daily[k := Bucket(k, 0, 0, 0, [])]);
  }

  /** `BucketSeenStep` for the match at index `i`, so that the loop advances over a prefix. */
  lemma BucketSeenAt(ms: seq<Match>, i: nat, daily: map<int, Bucket>, keys: seq<int>)
    requires i < |ms| && BucketedSoFar(ms[..i], daily, keys)
    requires MatchDay(ms[i]) in daily
    ensures BucketedSoFar(ms[..i + 1], daily[MatchDay(ms[i]) := Count(daily[MatchDay(ms[i])], ms[i])], keys)
  {
    assert ms[..i + 1] == ms[..i] + [ms[i]];
    BucketSeenStep(ms[..i], ms[i], daily, keys);
  }

  /** `BucketOpenedStep` for the match at index `i`. */
  lemma BucketOpenedAt(ms: seq<Match>, i: nat, daily: map<int, Bucket>, keys: seq<int>)
    requires i < |ms| && BucketedSoFar(ms[..i], daily, keys)
    requires MatchDay(ms[i]) !in daily
    ensures var k := MatchDay(ms[i]);
            var created := daily[k := Bucket(k, 0, 0, 0, [])];
            BucketedSoFar(ms[..i + 1], created[k := Count(created[k], ms[i])], keys + [k])
  {
    assert ms[..i + 1] == ms[..i] + [ms[i]];
    BucketOpenedStep(ms[..i], ms[i], daily, keys);
  }

  /** Once every match is counted, the dictionary's values in key order are the days' buckets. */
  lemma BucketedDone(ms: seq<Match>, daily: map<int, Bucket>, keys: seq<int>)
    requires BucketedSoFar(ms[..|ms|], daily, keys)
    ensures forall j :: 0 <= j < |keys| ==> keys[j] in daily
    ensures Values(daily, keys) == BucketsOf(ms, keys)
    ensures DayOrder(ms, keys)
  {
    assert ms[..|ms|] == ms;
    assert forall j :: 0 <= j < |keys| ==> keys[j] in daily;
    var vs := Values(daily, keys);
    var bs := BucketsOf(ms, keys);
    assert forall j :: 0 <= j < |keys| ==> vs[j] == bs[j];
  }

  /** One day of the calendar, every field rendered as text as the page expects it. */
  datatype DayEntry = DayEntry(
    date: string,
    count: string,
    winCount: string,
    loseCount: string,
    winRate: string,
    countColor: string,
    winColor: string)

  datatype CalendarBlock = CalendarBlock(data: seq<DayEntry>)

  /** The object `{ calendar: [...] }` returned by the conversion. */
  datatype Calendar = Calendar(calendar: seq<CalendarBlock>)

  /**
   * `(w / c * 100).toFixed(1)` as a whole number of tenths of a percent: the nearest tenth, a tie
   * going up; a day without games has the rate `0.0`.
   */
  function RateTenths(w: nat, c: nat): nat {
    if c > 0 then (2000 * w + c) / (2 * c) else 0
  }

  /** The rounded rate is the nearest tenth of a percent, a tie going up, and 100% at most. */
  lemma RateRounding(w: nat, c: nat)
    ensures c > 0 ==> 2 * c * RateTenths(w, c) <= 2000 * w + c < 2 * c * (RateTenths(w, c) + 1)
    ensures c > 0 && w <= c ==> RateTenths(w, c) <= 1000
    ensures c == 0 ==> RateTenths(w, c) == 0
  {
    if c > 0 {
      var t := (2000 * w + c) / (2 * c);
      RoundingBounds(2000 * w + c, 2 * c);
      if w <= c {
        AtMostThousand(w, c, t);
      }
    }
  }

  /** Euclidean division brackets the dividend. */
  lemma RoundingBounds(a: nat, d: nat)
    requires d > 0
    ensures d * (a / d) <= a < d * (a / d + 1)
  {
  }

  /** A rate of at most 100% rounds to at most 1000 tenths. */
  lemma AtMostThousand(w: nat, c: nat, t: nat)
    requires 0 < c && w <= c && 2 * c * t <= 2000 * w + c
    ensures t <= 1000
  {
    assert 2 * c * t <= 2001 * c;
    assert c * (2 * t - 2001) <= 0;
    NonPositiveFactor(c, 2 * t - 2001);
  }

  /** A non-positive product with a positive factor has a non-positive other factor. */
  lemma NonPositiveFactor(c: int, d: int)
    requires c > 0 && c * d <= 0
    ensures d <= 0
  {
  }

  /** A rate in tenths written with one decimal and a percent sign, as in `66.7%`. */
  function RateText(t: nat): string {
    NatString(t / 10) + "." + [DigitChar(t % 10)] + "%"
  }

  /** The count colours, lowest band first. */
  const COUNT_COLORS: seq<string> := ["#0CFFFFFF", "#4C92A525", "#7F92A525", "#CC92A525"]

  /** `getCountColor(count)`: none, 1 to 3, 4 to 6, and 7 or more games. */
  function GetCountColor(count: int): (color: string)
    ensures color in COUNT_COLORS
  {
    if count == 0 then "#0CFFFFFF"
    else if count <= 3 then "#4C92A525"
    else if count <= 6 then "#7F92A525"
    else "#CC92A525"
  }

  /** Reference definition of the count band: one band per three games, capped at the fourth band. */
  function CountBand(count: int): (band: nat)
    ensures band < |COUNT_COLORS|
  {
    if count == 0 then 0
    else if count < 0 then 1
    else if (count + 2) / 3 >= 3 then 3
    else (count + 2) / 3
  }

  /** The count colour is the colour of the count's band. */
  lemma CountColorBand(count: int)
    ensures GetCountColor(count) == COUNT_COLORS[CountBand(count)]
  {
  }

  /** More games never give a lower count band. */
  lemma CountBandMonotone(a: int, b: int)
    requires 0 <= a <= b
    ensures CountBand(a) <= CountBand(b)
  {
  }

  /** The four count colours differ, so the colour tells the band. */
  lemma CountColorsDistinct()
    ensures forall i, j :: 0 <= i < j < |COUNT_COLORS| ==> COUNT_COLORS[i] != COUNT_COLORS[j]
  {
  }

  /** The win-rate colours, lowest band first. */
  const WIN_COLORS: seq<string> :=
    ["#C23C2A", "#F37A40", "#F29731", "#F1B224", "#EFCC16", "#C0C21E", "#92A525", "#8FB725", "#60AD2C"]

  /**
   * `getWinColor(winRate)` for a rate given in tenths of a percent (the aggregator passes the
   * one-decimal rounded rate): exactly zero, below 30%, then bands of ten points, and 90% or more.
   */
  function GetWinColor(tenths: int): (color: string)
    ensures color in WIN_COLORS
  {
    if tenths == 0 then "#C23C2A"
    else if tenths < 300 then "#F37A40"
    else if tenths < 400 then "#F29731"
    else if tenths < 500 then "#F1B224"
    else if tenths < 600 then "#EFCC16"
    else if tenths < 700 then "#C0C21E"
    else if tenths < 800 then "#92A525"
    else if tenths < 900 then "#8FB725"
    else "#60AD2C"
  }

  /** Reference definition of the win band: zero, under 30%, then one band per ten points up to 90%. */
  function WinBand(tenths: int): (band: nat)
    ensures band < |WIN_COLORS|
  {
    if tenths == 0 then 0
    else if tenths < 300 then 1
    else if tenths >= 900 then 8
    else tenths / 100 - 1
  }

  /** The win colour is the colour of the rate's band. */
  lemma WinColorBand(tenths: int)
    ensures GetWinColor(tenths) == WIN_COLORS[WinBand(tenths)]
  {
  }

  /** A higher rate never gives a lower win band. */
  lemma WinBandMonotone(a: int, b: int)
    requires 0 <= a <= b
    ensures WinBand(a) <= WinBand(b)
  {
  }

  /** The nine win colours differ, so the colour tells the band. */
  lemma WinColorsDistinct()
    ensures forall i, j :: 0 <= i < j < |WIN_COLORS| ==> WIN_COLORS[i] != WIN_COLORS[j]
  {
  }

  /** The final `map` over one bucket: its numbers as text, its rate and its two colours. */
  function Format(b: Bucket): DayEntry {
    var t := if b.count > 0 then RateTenths(b.winCount, b.count) else 0;
    DayEntry(NumberToString(b.date), NumberToString(b.count), NumberToString(b.winCount),
             NumberToString(b.loseCount), RateText(t), GetCountColor(b.count), GetWinColor(t))
  }

  /**
   * A formatted day reads back as its bucket's numbers, shows the rounded rate, and is coloured
   * by the bands of its count and of that rate.
   */
  lemma FormatReadBack(b: Bucket)
    ensures var e := Format(b);
            && ParseInt(e.date) == Some(b.date)
            && ParseInt(e.count) == Some(b.count as int)
            && ParseInt(e.winCount) == Some(b.winCount as int)
            && ParseInt(e.loseCount) == Some(b.loseCount as int)
            && e.winRate == RateText(RateTenths(b.winCount, b.count))
            && e.countColor == COUNT_COLORS[CountBand(b.count)]
            && e.winColor == WIN_COLORS[WinBand(RateTenths(b.winCount, b.count))]
  {
    ParseNumberToString(b.date);
    ParseNumberToString(b.count);
    ParseNumberToString(b.winCount);
    ParseNumberToString(b.loseCount);
    CountColorBand(b.count);
    WinColorBand(RateTenths(b.winCount, b.count));
  }

  /** `Object.values(dailyStats).map(...)` for the buckets in enumeration order. */
  function FormatAll(bs: seq<Bucket>): (es: seq<DayEntry>)
    ensures |es| == |bs|
    ensures forall j :: 0 <= j < |bs| ==> es[j] == Format(bs[j])
  {
    seq(|bs|, j requires 0 <= j < |bs| => Format(bs[j]))
  }

  /** The calendar days of `ms` for one enumeration order of its days. */
  ghost function Entries(ms: seq<Match>, keys: seq<int>): seq<DayEntry> {
    FormatAll(BucketsOf(ms, keys))
  }

  /**
   * `transformApiDataToLocalFormat(matches)`: a missing input gives an empty calendar; otherwise
   * one block whose days are the buckets of the days that have matches, each day once.
   */
  method TransformApiDataToLocalFormat(matches: Option<seq<Match>>) returns (result: Calendar)
    ensures matches.None? ==> result == Calendar([])
    ensures matches.Some? ==>
      exists keys :: DayOrder(matches.value, keys) && result == Calendar([CalendarBlock(Entries(matches.value, keys))])
  {
    if matches.None? {
      return Calendar([]);
    }
    var ms := matches.value;
    var dailyStats: map<int, Bucket> := map[];
    var keys: seq<int> := [];  // the order in which the dictionary's keys were created
    BucketedEmpty();
    var i := 0;
    while i < |ms|
      invariant 0 <= i <= |ms|
      invariant BucketedSoFar(ms[..i], dailyStats, keys)
    {
      var m := ms[i];
      var dateKey := DayKey(m.startTime);
      if dateKey !in dailyStats {
        BucketOpenedAt(ms, i, dailyStats, keys);
        dailyStats := dailyStats[dateKey := Bucket(dateKey, 0, 0, 0, [])];
        keys := keys + [dateKey];
      } else {
        BucketSeenAt(ms, i, dailyStats, keys);
      }
      var b := Count(dailyStats[dateKey], m);
      dailyStats := dailyStats[dateKey := b];
      i := i + 1;
    }
    BucketedDone(ms, dailyStats, keys);
    var calendarData := FormatAll(Values(dailyStats, keys));
    result := Calendar([CalendarBlock(calendarData)]);
    assert DayOrder(ms, keys) && result == Calendar([CalendarBlock(Entries(ms, keys))]);
  }

  /**
   * Every bucket of the finished dictionary is a day that has games, counts each of them once as
   * a win or a loss, and holds only that day's matches.
   */
  lemma BucketsWellFormed(ms: seq<Match>, keys: seq<int>)
    requires DayOrder(ms, keys)
    ensures forall j :: 0 <= j < |keys| ==>
      var b := BucketsOf(ms, keys)[j];
      && b.date == keys[j]
      && b.count >= 1
      && b.winCount + b.loseCount == b.count
      && b.winCount <= b.count
      && (forall m :: m in b.matches ==> m in ms && MatchDay(m) == b.date)
  {
    forall j | 0 <= j < |keys| ensures BucketsOf(ms, keys)[j].count >= 1 {
      assert keys[j] in KeysOf(ms, MatchDay);
      MembersNonEmpty(ms, MatchDay, keys[j]);
    }
  }

  /** Each match lands in exactly one bucket: the one of its own day. */
  lemma EveryMatchOnce(ms: seq<Match>, keys: seq<int>)
    requires DayOrder(ms, keys)
    ensures forall m :: m in ms ==> MatchDay(m) in keys
    ensures forall m, j :: m in ms && 0 <= j < |keys| ==>
      (m in BucketsOf(ms, keys)[j].matches <==> keys[j] == MatchDay(m))
  {
    forall m | m in ms ensures MatchDay(m) in keys {
      assert MatchDay(m) in KeysOf(ms, MatchDay);
    }
    forall m, j | m in ms && 0 <= j < |keys| && keys[j] == MatchDay(m)
      ensures m in BucketsOf(ms, keys)[j].matches
    {
      MembersHas(ms, MatchDay, m);
    }
  }

  /** The games of all days together. */
  function TotalCount(bs: seq<Bucket>): nat {
    if bs == [] then 0 else TotalCount(bs[..|bs| - 1]) + bs[|bs| - 1].count
  }

  /** The bucket sizes add up to the total length of the groups they count. */
  lemma {:induction false} TotalCountFlatten(ms: seq<Match>, ks: seq<int>)
    ensures TotalCount(BucketsOf(ms, ks)) == |Flatten(GroupsOf(ms, MatchDay, ks))|
  {
    if ks != [] {
      var init := ks[..|ks| - 1];
      TotalCountFlatten(ms, init);
      var gs := GroupsOf(ms, MatchDay, ks);
      assert gs[..|gs| - 1] == GroupsOf(ms, MatchDay, init);
      var bs := BucketsOf(ms, ks);
      assert bs[..|bs| - 1] == BucketsOf(ms, init);
    }
  }

  /** No match is lost or counted twice: the day counts add up to the number of matches. */
  lemma CountsConserved(ms: seq<Match>, keys: seq<int>)
    requires DayOrder(ms, keys)
    ensures TotalCount(BucketsOf(ms, keys)) == |ms|
  {
    TotalCountFlatten(ms, keys);
    PartitionPermutation(ms, MatchDay, keys);
    assert |multiset(Flatten(GroupsOf(ms, MatchDay, keys)))| == |multiset(ms)|;
  }

  /**
   * A day of the calendar has at least one game, so its rate is always computed (the `'0.0'`
   * fallback is never taken), and its text reads back as its bucket's numbers.
   */
  lemma EntryReadBack(ms: seq<Match>, keys: seq<int>, j: int)
    requires DayOrder(ms, keys) && 0 <= j < |keys|
    ensures var b := BucketOf(ms, keys[j]);
            var e := Format(b);
            && b.count > 0
            && ParseInt(e.date) == Some(keys[j])
            && ParseInt(e.count) == Some(b.count as int)
            && ParseInt(e.winCount) == Some(b.winCount as int)
            && ParseInt(e.loseCount) == Some(b.count - b.winCount)
            && RateTenths(b.winCount, b.count) <= 1000
  {
    var b := BucketOf(ms, keys[j]);
    assert keys[j] in KeysOf(ms, MatchDay);
    MembersNonEmpty(ms, MatchDay, keys[j]);
    CountedReadBack(b);
  }

  /** A bucket that has scored each of its games reads back with a rate of at most 100%. */
  lemma CountedReadBack(b: Bucket)
    requires b.winCount <= b.count && b.loseCount == b.count - b.winCount
    ensures var e := Format(b);
            && ParseInt(e.date) == Some(b.date)
            && ParseInt(e.count) == Some(b.count as int)
            && ParseInt(e.winCount) == Some(b.winCount as int)
            && ParseInt(e.loseCount) == Some(b.count - b.winCount)
            && RateTenths(b.winCount, b.count) <= 1000
  {
    FormatReadBack(b);
    RateRounding(b.winCount, b.count);
  }

  /** The calendar has one entry per day with games: the formatted bucket of that day. */
  lemma EntriesPerDay(ms: seq<Match>, keys: seq<int>)
    requires DayOrder(ms, keys)
    ensures |Entries(ms, keys)| == |keys| == |KeysOf(ms, MatchDay)|
    ensures forall j :: 0 <= j < |keys| ==> Entries(ms, keys)[j] == Format(BucketOf(ms, keys[j]))
  {
    DistinctCardinality(keys);
  }

  /** A day's bucket in one order of the days is a bucket in any other order. */
  lemma BucketInOtherOrder(ms: seq<Match>, keys1: seq<int>, keys2: seq<int>, j: int)
    requires DayOrder(ms, keys1) && DayOrder(ms, keys2) && 0 <= j < |keys1|
    ensures BucketsOf(ms, keys1)[j] in BucketsOf(ms, keys2)
  {
    assert (set k | k in keys1) == (set k | k in keys2);
    var j2 := IndexInOther(keys1, keys2, j);
    assert BucketsOf(ms, keys2)[j2] == BucketsOf(ms, keys1)[j];
  }

  /** A list of buckets holding the same buckets as another formats to the same set of days. */
  lemma FormatSameSet(bs1: seq<Bucket>, bs2: seq<Bucket>)
    requires forall b :: b in bs1 ==> b in bs2
    ensures forall e :: e in FormatAll(bs1) ==> e in FormatAll(bs2)
  {
    forall e | e in FormatAll(bs1) ensures e in FormatAll(bs2) {
      var j :| 0 <= j < |bs1| && FormatAll(bs1)[j] == e;
      assert bs1[j] in bs2;
      var j2 :| 0 <= j2 < |bs2| && bs2[j2] == bs1[j];
      assert FormatAll(bs2)[j2] == e;
    }
  }

  /** The set of calendar days does not depend on the order in which the days are enumerated. */
  lemma EntriesOrderFree(ms: seq<Match>, keys1: seq<int>, keys2: seq<int>)
    requires DayOrder(ms, keys1) && DayOrder(ms, keys2)
    ensures (set e | e in Entries(ms, keys1)) == (set e | e in Entries(ms, keys2))
  {
    var bs1 := BucketsOf(ms, keys1);
    var bs2 := BucketsOf(ms, keys2);
    forall b | b in bs1 ensures b in bs2 {
      var j :| 0 <= j < |bs1| && bs1[j] == b;
      BucketInOtherOrder(ms, keys1, keys2, j);
    }
    forall b | b in bs2 ensures b in bs1 {
      var j :| 0 <= j < |bs2| && bs2[j] == b;
      BucketInOtherOrder(ms, keys2, keys1, j);
    }
    FormatSameSet(bs1, bs2);
    FormatSameSet(bs2, bs1);
  }

  /** The four sample matches the conversion is exercised on. */
  const MOCK_API_DATA: seq<Match> := [
    Match(7000000001, 0, true, 1720108800, 1800, 10, 3, 15),
    Match(7000000002, 1, false, 1720112400, 2100, 5, 8, 12),
    Match(7000000003, 128, true, 1720116000, 1500, 3, 12, 5),
    Match(7000000004, 130, false, 1720195200, 2400, 15, 2, 20)
  ]

  /** The day of 4 July 2024 (UTC) in the sample: three games, one won. */
  const MOCK_DAY1: DayEntry :=
    DayEntry("1720051200", "3", "1", "2", "33.3%", "#4C92A525", "#F29731")

  /** The day of 5 July 2024 (UTC) in the sample: one game, won. */
  const MOCK_DAY2: DayEntry :=
    DayEntry("1720137600", "1", "1", "0", "100.0%", "#4C92A525", "#60AD2C")

  const MOCK_DAY_1: int := 1720051200
  const MOCK_DAY_2: int := 1720137600

  /** The first three sample matches fall on 4 July, the last on 5 July. */
  lemma MockDays()
    ensures MatchDay(MOCK_API_DATA[0]) == MatchDay(MOCK_API_DATA[1]) == MatchDay(MOCK_API_DATA[2]) == MOCK_DAY_1
    ensures MatchDay(MOCK_API_DATA[3]) == MOCK_DAY_2
  {
  }

  /** The sample has exactly the two days. */
  lemma MockKeys()
    ensures KeysOf(MOCK_API_DATA, MatchDay) == {MOCK_DAY_1, MOCK_DAY_2}
  {
    var ms := MOCK_API_DATA;
    MockDays();
    forall k | k in KeysOf(ms, MatchDay) ensures k in {MOCK_DAY_1, MOCK_DAY_2} {
      var m :| m in ms && MatchDay(m) == k;
    }
    assert ms[0] in ms && ms[3] in ms;
  }

  /** The matches of each sample day, in input order. */
  lemma MockMembers()
    ensures Members(MOCK_API_DATA, MatchDay, MOCK_DAY_1) == MOCK_API_DATA[..3]
    ensures Members(MOCK_API_DATA, MatchDay, MOCK_DAY_2) == [MOCK_API_DATA[3]]
  {
    var ms := MOCK_API_DATA;
    MockDays();
    assert ms == ms[..3] + [ms[3]];
    assert ms[..3] == ms[..2] + [ms[2]];
    assert ms[..2] == ms[..1] + [ms[1]];
    assert ms[..1] == [] + [ms[0]];
    MembersSnoc([], ms[0], MatchDay, MOCK_DAY_1);
    MembersSnoc(ms[..1], ms[1], MatchDay, MOCK_DAY_1);
    MembersSnoc(ms[..2], ms[2], MatchDay, MOCK_DAY_1);
    MembersSnoc(ms[..3], ms[3], MatchDay, MOCK_DAY_1);
    MembersSnoc([], ms[0], MatchDay, MOCK_DAY_2);
    MembersSnoc(ms[..1], ms[1], MatchDay, MOCK_DAY_2);
    MembersSnoc(ms[..2], ms[2], MatchDay, MOCK_DAY_2);
    MembersSnoc(ms[..3], ms[3], MatchDay, MOCK_DAY_2);
  }

  /** The wins of three matches, one by one. */
  lemma WinsOfThree(a: Match, b: Match, c: Match)
    ensures Wins([a, b, c]) == (if IsWin(a) then 1 else 0) + (if IsWin(b) then 1 else 0) + (if IsWin(c) then 1 else 0)
  {
    WinsSnoc([], a);
    assert [] + [a] == [a];
    WinsSnoc([a], b);
    assert [a] + [b] == [a, b];
    WinsSnoc([a, b], c);
    assert [a, b] + [c] == [a, b, c];
  }

  /** Of the first three sample matches only the first is won; the last sample match is won. */
  lemma MockWins()
    ensures Wins(MOCK_API_DATA[..3]) == 1
    ensures Wins([MOCK_API_DATA[3]]) == 1
  {
    var ms := MOCK_API_DATA;
    assert IsWin(ms[0]) && !IsWin(ms[1]) && !IsWin(ms[2]) && IsWin(ms[3]);
    assert ms[..3] == [ms[0], ms[1], ms[2]];
    WinsOfThree(ms[0], ms[1], ms[2]);
    assert [ms[3]][..0] == [];
  }

  /** The buckets of the two sample days: the slot-128 match of 4 July is a Dire loss. */
  lemma MockBuckets()
    ensures BucketOf(MOCK_API_DATA, MOCK_DAY_1) == Bucket(MOCK_DAY_1, 3, 1, 2, MOCK_API_DATA[..3])
    ensures BucketOf(MOCK_API_DATA, MOCK_DAY_2) == Bucket(MOCK_DAY_2, 1, 1, 0, [MOCK_API_DATA[3]])
  {
    MockMembers();
    MockWins();
  }

  /** The first day key written out. */
  lemma MockDayNumeral1()
    ensures NumberToString(MOCK_DAY_1) == "1720051200"
  {
    assert NatString(1) == "1";
    NatStringSnoc(17, "1");
    NatStringSnoc(172, "17");
    NatStringSnoc(1720, "172");
    NatStringSnoc(17200, "1720");
    NatStringSnoc(172005, "17200");
    NatStringSnoc(1720051, "172005");
    NatStringSnoc(17200512, "1720051");
    NatStringSnoc(172005120, "17200512");
    NatStringSnoc(1720051200, "172005120");
  }

  /** The second day key written out. */
  lemma MockDayNumeral2()
    ensures NumberToString(MOCK_DAY_2) == "1720137600"
  {
    assert NatString(1) == "1";
    NatStringSnoc(17, "1");
    NatStringSnoc(172, "17");
    NatStringSnoc(1720, "172");
    NatStringSnoc(17201, "1720");
    NatStringSnoc(172013, "17201");
    NatStringSnoc(1720137, "172013");
    NatStringSnoc(17201376, "1720137");
    NatStringSnoc(172013760, "17201376");
    NatStringSnoc(1720137600, "172013760");
  }

  /** One win in three games is 33.3%; one in one is 100.0%. */
  lemma MockRates()
    ensures RateTenths(1, 3) == 333 && RateText(333) == "33.3%"
    ensures RateTenths(1, 1) == 1000 && RateText(1000) == "100.0%"
  {
    NatStringSnoc(33, "3");
    NatStringSnoc(10, "1");
    NatStringSnoc(100, "10");
  }

  /** The sample's days, formatted. */
  lemma MockFormat(g1: seq<Match>, g2: seq<Match>)
    ensures Format(Bucket(MOCK_DAY_1, 3, 1, 2, g1)) == MOCK_DAY1
    ensures Format(Bucket(MOCK_DAY_2, 1, 1, 0, g2)) == MOCK_DAY2
  {
    MockDayNumeral1();
    MockDayNumeral2();
    MockRates();
  }

  /** The entry of each sample day. */
  lemma MockDayEntry(k: int)
    requires k == MOCK_DAY_1 || k == MOCK_DAY_2
    ensures Format(BucketOf(MOCK_API_DATA, k)) == if k == MOCK_DAY_1 then MOCK_DAY1 else MOCK_DAY2
  {
    MockBuckets();
    MockFormat(MOCK_API_DATA[..3], [MOCK_API_DATA[3]]);
  }

  /** A list of two distinct days, each once, is one of their two orders. */
  lemma TwoDayOrders(keys: seq<int>, d1: int, d2: int)
    requires Distinct(keys) && (set k | k in keys) == {d1, d2} && d1 != d2
    ensures keys == [d1, d2] || keys == [d2, d1]
  {
    DistinctCardinality(keys);
    assert |{d1, d2}| == 2;
    var elements := set k | k in keys;
    assert keys[0] in elements && keys[1] in elements;
    assert d1 in elements && d2 in elements;
  }

  /** The calendar of two days, entry by entry. */
  lemma TwoEntries(ms: seq<Match>, keys: seq<int>) returns (es: seq<DayEntry>)
    requires DayOrder(ms, keys) && |keys| == 2
    ensures es == Entries(ms, keys) == [Format(BucketOf(ms, keys[0])), Format(BucketOf(ms, keys[1]))]
  {
    es := Entries(ms, keys);
    EntriesPerDay(ms, keys);
    assert es[0] == Format(BucketOf(ms, keys[0]));
    assert es[1] == Format(BucketOf(ms, keys[1]));
  }

  /** Whatever order the two days are enumerated in, the sample gives exactly their two entries. */
  lemma MockEntries(keys: seq<int>)
    requires DayOrder(MOCK_API_DATA, keys)
    ensures Entries(MOCK_API_DATA, keys) == [MOCK_DAY1, MOCK_DAY2]
         || Entries(MOCK_API_DATA, keys) == [MOCK_DAY2, MOCK_DAY1]
  {
    MockKeys();
    TwoDayOrders(keys, MOCK_DAY_1, MOCK_DAY_2);
    var es := TwoEntries(MOCK_API_DATA, keys);
    MockDayEntry(keys[0]);
    MockDayEntry(keys[1]);
  }

  /**
   * The sample converts to one block of exactly two days: 4 July with three games and one win
   * (the match on slot 128 is a Dire loss), and 5 July with one game won.
   */
  method MockExample() returns (result: Calendar)
    ensures |result.calendar| == 1
    ensures result.calendar[0].data == [MOCK_DAY1, MOCK_DAY2] || result.calendar[0].data == [MOCK_DAY2, MOCK_DAY1]
  {
    result := TransformApiDataToLocalFormat(Some(MOCK_API_DATA));
    ghost var keys :| DayOrder(MOCK_API_DATA, keys)
      && result == Calendar([CalendarBlock(Entries(MOCK_API_DATA, keys))]);
    MockEntries(keys);
  }
}
