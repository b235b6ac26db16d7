# My Studio game-analysis core, modelled in Dafny

This project models the logic of the personal "My Studio" web application that does more than
wire up the framework:

- **The game-analysis helpers** (`GameAnalysis/utils/tools.js`), as follows:
  - `regroupArr` groups records by a key;
  - `calculateGameStats` summarises per-day records;
  - six rankings of days: best and worst net wins, most played, most wins, and highest and lowest
    win rate with a minimum number of games;
  - the chart palette and the month names;
  - the sexagenary (stem-and-branch) fallback text `getSixtyWordSimple`, its parser
    `parseSixtyWord`, and the five-element colouring `getWuxingColor` with the stem and branch
    tables.
- **The OpenDota conversion** (`GameAnalysis/test-data-transform.js`):
  - `transformApiDataToLocalFormat` buckets matches by UTC day and counts games, wins and losses;
  - it then renders each day as text with a one-decimal win rate and two colours (`getCountColor`,
    `getWinColor`);
  - the file's sample matches are worked through as an example.
- **The Dota 2 helpers** (`dota2/components/utils/tools.ts`): the second `regroupArr` and the
  `MM-DD` comparator `compareDates`.
- **The application store** (`store/modules/app.js`) holds the theme, the loading flag and the
  sidebar flag. `setTheme`, `toggleTheme`, `setLoading`, `toggleSidebar`, `isDark` and
  `initTheme` act on it, with the theme list of `config/constants.js`.

How the model is organised:

- **Ranking.** One stable insertion sort, `DayRanking.Sort`, stands for JavaScript's stable
  `Array.prototype.sort`. The six rankings share one pipeline, `Rank`, whose properties are
  proved once and then restated per ranking in the ranking's own fields.
- **The two loops** (`regroupArr` and the day buckets) are methods with loop invariants. Their
  specification is a ghost reference definition (`Grouping.Members`, `MatchAggregator.BucketOf`)
  that says what a group or a bucket must hold. The loops' results are proved equal to it.
- **The store** is a class. Local storage and the `<html>` attribute are ghost fields.
- **JavaScript semantics.** The JavaScript behaviours the code relies on are written out in
  `JsSemantics`:
  - `%` truncates toward zero;
  - `slice` clamps;
  - `trim` and `split`;
  - `parseInt` reads an optional sign, then an optional `0x` prefix, then digits;
  - `toString` of an integer.
- **Missing values.** JavaScript's `NaN` and `undefined` are `None`.

The expected summary printed by the conversion's own harness (`test-data-transform.js:156`) says
the first sample day has 2 wins, 1 loss and 66.7%. The code gives 1 win, 2 losses and 33.3%. The
match on slot 128 is a Dire player and Radiant won, so it is a loss. The model follows the code
(`MatchAggregator.MockBuckets`, `MatchAggregator.MockExample`). The discrepancy is in the
comment, not the code.

## Model

| member | source | states |
|---|---|---|
| Grouping.Members | src/views/modules/GameAnalysis/utils/tools.js:14-20 | the group of a key holds only input items with that key, and no more items than the input |
| Grouping.GroupingIsPermutation | src/views/modules/GameAnalysis/utils/tools.js:11-23 | a grouping's lists, flattened, are a permutation of the input (every item kept, none duplicated) |
| Grouping.PartitionPermutation | src/views/modules/GameAnalysis/utils/tools.js:11-23 | the groups of each distinct key, in any order of the keys, together are a permutation of the input |
| Grouping.DistinctCardinality | src/views/modules/GameAnalysis/utils/tools.js:22 | a list of distinct keys has as many entries as the set of those keys, so there is one group per key |
| Grouping.GroupsCover | src/views/modules/GameAnalysis/utils/tools.js:11-23 | for distinct keys, concatenating their groups permutes the input items whose key is among them |
| Grouping.GroupedDone | src/views/modules/GameAnalysis/utils/tools.js:14-22 | once the loop invariant covers the whole input, the dictionary's values in key order are a grouping with one group per distinct key |
| GameTools.RegroupArr | src/views/modules/GameAnalysis/utils/tools.js:11-23 | returns one non-empty group per distinct key; each group is exactly the items with that key, in input order |
| GameTools.CalculateGameStats | src/views/modules/GameAnalysis/utils/tools.js:73-96 | zeros for a missing or empty list. Otherwise: the total of the counts; hours that are half the total rounded up from a half; the number of days; and a maximum that bounds every day and is reached by one |
| GameTools.MaxGames | src/views/modules/GameAnalysis/utils/tools.js:86 | the result bounds every day's count and is the count of some day |
| GameTools.RoundHalf | src/views/modules/GameAnalysis/utils/tools.js:91 | twice the result is the input or one more (a half rounds up) |
| GameTools.TotalGamesAppend | src/views/modules/GameAnalysis/utils/tools.js:84 | the total of a concatenation is the sum of the totals |
| GameTools.CountAtMostTotal | src/views/modules/GameAnalysis/utils/tools.js:84 | each day's count is at most the total |
| GameTools.MaxAtMostTotal | src/views/modules/GameAnalysis/utils/tools.js:84-86 | the largest day never exceeds the total |
| GameTools.GetChartColor | src/views/modules/GameAnalysis/utils/tools.js:103-117 | a colour exists exactly for non-negative indices and negative multiples of ten (`-0`). It is always one of the ten palette colours, namely `index mod 10` for non-negative indices |
| GameTools.ChartColorCycle | src/views/modules/GameAnalysis/utils/tools.js:103-117 | the palette repeats with period ten, and ten consecutive non-negative indices get ten different colours |
| GameTools.GetMonthName | src/views/modules/GameAnalysis/utils/tools.js:136-152 | months 1 to 12 get their name; any other value gives `''`, and only those do |
| GameTools.MonthNamesDistinct | src/views/modules/GameAnalysis/utils/tools.js:137-150 | different months have different names |
| DayRanking.Derive | src/views/modules/GameAnalysis/utils/tools.js:178-182 | the copy keeps the record; losses are games minus wins and net wins are wins minus losses |
| DayRanking.CmpAntisymmetric | src/views/modules/GameAnalysis/utils/tools.js:183 | every comparator of the six rankings changes sign when its arguments are swapped |
| DayRanking.CmpTransitive | src/views/modules/GameAnalysis/utils/tools.js:247 | every comparator is transitive, including the win-rate ones with their game-count tie-break |
| DayRanking.RateTransitive | src/views/modules/GameAnalysis/utils/tools.js:245-247 | win rates compared by cross-multiplication are transitive |
| DayRanking.Insert | src/views/modules/GameAnalysis/utils/tools.js:183 | inserting adds exactly one element: the length grows by one and the multiset gains that element |
| DayRanking.Sort | src/views/modules/GameAnalysis/utils/tools.js:183 | the sort keeps the length and the multiset of its input (a permutation) |
| DayRanking.SortSorted | src/views/modules/GameAnalysis/utils/tools.js:183 | the sort's output is ordered by the comparator |
| DayRanking.SortStable | src/views/modules/GameAnalysis/utils/tools.js:183 | elements the comparator ranks equal keep their input order after sorting |
| DayRanking.Candidates | src/views/modules/GameAnalysis/utils/tools.js:176-182 | every element is a kept input day with its derived fields, and every kept day is there |
| DayRanking.CandidatesCount | src/views/modules/GameAnalysis/utils/tools.js:176-182 | each kept day occurs among the candidates as often as in the input; a dropped day never occurs |
| DayRanking.CandidatesAppend | src/views/modules/GameAnalysis/utils/tools.js:176-182 | filtering and deriving commute with concatenation, so the candidates keep the input's order |
| DayRanking.Rank | src/views/modules/GameAnalysis/utils/tools.js:173-185 | a missing list gives `[]`. Otherwise the result is a prefix of the sorted candidates, exactly `count` long or all of them when fewer are kept |
| DayRanking.RankMembers | src/views/modules/GameAnalysis/utils/tools.js:176-182 | every ranked record is a kept input day with its derived fields |
| DayRanking.RankSorted | src/views/modules/GameAnalysis/utils/tools.js:183-184 | the ranked records come in comparator order |
| DayRanking.RankOmitted | src/views/modules/GameAnalysis/utils/tools.js:183-184 | no kept day that the slice dropped ranks before a day that was kept |
| DayRanking.RankComplete | src/views/modules/GameAnalysis/utils/tools.js:184 | when `count` is at least the number of kept days, the result is a permutation of the kept days and includes every one of them |
| DayRanking.RankSize | src/views/modules/GameAnalysis/utils/tools.js:184 | the result has `count` records, or all kept days when fewer are kept; with room for all it is a permutation of them |
| DayRanking.RankStable | src/views/modules/GameAnalysis/utils/tools.js:183-184 | among equally ranked days, the result holds the first ones of the input, in input order |
| DayRanking.BestDays | src/views/modules/GameAnalysis/utils/tools.js:173-185 | missing data gives `[]`; at most `count` records |
| DayRanking.BestDaysSpec | src/views/modules/GameAnalysis/utils/tools.js:173-185 | results are recorded days with games and derived fields, in non-increasing net wins. Every dropped recorded day has no more net wins than any result. There are `count` results, or all recorded days when fewer are recorded; then every recorded day is included, as often as in the input |
| DayRanking.WorstDays | src/views/modules/GameAnalysis/utils/tools.js:193-205 | missing data gives `[]`; at most `count` records |
| DayRanking.WorstDaysSpec | src/views/modules/GameAnalysis/utils/tools.js:193-205 | as for the best days, with net wins non-decreasing and dropped days having no fewer; `count` results, or all recorded days when fewer |
| DayRanking.MostPlayedDays | src/views/modules/GameAnalysis/utils/tools.js:213-226 | missing data gives `[]`; at most `count` records |
| DayRanking.MostPlayedDaysSpec | src/views/modules/GameAnalysis/utils/tools.js:213-226 | results are days with games, in non-increasing game count. A dropped day has no more games than any result. There are `count` results, or all days with games when fewer; then each of them is there, as often as in the input |
| DayRanking.HighestWinRateDays | src/views/modules/GameAnalysis/utils/tools.js:235-249 | missing data gives `[]`; at most `count` records |
| DayRanking.HighestWinRateDaysSpec | src/views/modules/GameAnalysis/utils/tools.js:235-249 | results have at least `minGames` games. Each one has a strictly higher win rate than the next, or the same rate and at least as many games. A dropped qualifying day ranks no better. There are `count` results, or all qualifying days when fewer; then each of them is there, as often as in the input |
| DayRanking.LowestWinRateDays | src/views/modules/GameAnalysis/utils/tools.js:258-272 | missing data gives `[]`; at most `count` records |
| DayRanking.LowestWinRateDaysSpec | src/views/modules/GameAnalysis/utils/tools.js:258-272 | as for the highest rates, with rates non-decreasing and ties still broken by more games first; `count` results, or all qualifying days when fewer |
| DayRanking.RateDescMeaning | src/views/modules/GameAnalysis/utils/tools.js:247 | for days with games, the descending comparator puts a day first only if its rate is higher, or equal with at least as many games |
| DayRanking.RateAscMeaning | src/views/modules/GameAnalysis/utils/tools.js:270 | for days with games, the ascending comparator puts a day first only if its rate is lower, or equal with at least as many games |
| DayRanking.MostWinsDays | src/views/modules/GameAnalysis/utils/tools.js:280-293 | missing data gives `[]`; at most `count` records |
| DayRanking.MostWinsDaysSpec | src/views/modules/GameAnalysis/utils/tools.js:280-293 | results are days with at least one win, in non-increasing wins. A dropped such day has no more wins than any result. There are `count` results, or all days with wins when fewer; then each of them is there, as often as in the input |
| SixtyCycle.WuxingColor | src/views/modules/GameAnalysis/utils/tools.js:369-372 | the colour is an element colour exactly when the key is one stem or branch character, and the neutral colour otherwise |
| SixtyCycle.StemTable | src/views/modules/GameAnalysis/utils/tools.js:333-344 | the stem table gives the stems wood, fire, earth, metal and water, two stems each, in cycle order |
| SixtyCycle.BranchTable | src/views/modules/GameAnalysis/utils/tools.js:349-362 | the branch table gives each season's element to its first two branches and earth to its last, starting with the winter branch 亥; no branch is a stem |
| SixtyCycle.StemColor | src/views/modules/GameAnalysis/utils/tools.js:369-371 | a stem is coloured by the colour of its element |
| SixtyCycle.BranchColor | src/views/modules/GameAnalysis/utils/tools.js:369-371 | a branch is coloured by the colour of its element |
| SixtyCycle.ElementColorsDistinct | src/views/modules/GameAnalysis/utils/tools.js:322-328 | all five elements have a colour, the colours differ, and none is the neutral colour |
| SixtyCycle.TablesDistinct | src/views/modules/GameAnalysis/utils/tools.js:421-423 | the ten stems differ, the twelve branches differ, and no stem is a branch |
| SixtyCycle.ParsePillarColors | src/views/modules/GameAnalysis/utils/tools.js:388-393 | a pillar holds the first two characters of its part (`undefined` past the end). A stem in first place and a branch in second place get their element's colour; any other or missing character gets the neutral colour |
| SixtyCycle.ParseSixtyWord | src/views/modules/GameAnalysis/utils/tools.js:379-407 | succeeds exactly for a non-empty text whose trimmed form splits at spaces into three parts, and then parses each part |
| SixtyCycle.PillarRoundTrip | src/views/modules/GameAnalysis/utils/tools.js:426-440 | a pillar's text parses back to its stem and branch with their element colours. For a negative index (year before 4), the text `undefined` is parsed instead |
| SixtyCycle.SimpleParts | src/views/modules/GameAnalysis/utils/tools.js:440 | the fallback's text always splits at spaces into exactly its three suffixed pillars |
| SixtyCycle.SimpleRoundTrip | src/views/modules/GameAnalysis/utils/tools.js:379-441 | parsing the fallback's text always succeeds and gives back each of the year, month and day pillars |
| SixtyCycle.BranchDefined | src/views/modules/GameAnalysis/utils/tools.js:428 | a parsed pillar has a real branch exactly when its index is not negative |
| SixtyCycle.PolarityAgrees | src/views/modules/GameAnalysis/utils/tools.js:427-428 | an index always pairs a stem and a branch of the same parity (yang with yang, yin with yin) |
| SixtyCycle.CycleDistinct | src/views/modules/GameAnalysis/utils/tools.js:427-428 | the sixty indices of a cycle name sixty different stem-branch pairs |
| SixtyCycle.CycleComplete | src/views/modules/GameAnalysis/utils/tools.js:427-428 | every stem and branch of equal parity is named by some index of the cycle |
| SixtyCycle.Example1984 | src/views/modules/GameAnalysis/utils/tools.js:414-441 | 1984, January, day 0 print as `甲子年 壬子月 甲子日` |
| SixtyCycle.ExampleYear3 | src/views/modules/GameAnalysis/utils/tools.js:426-428 | the year 3 prints its year pillar as `undefinedundefined` |
| MatchAggregator.DayKey | src/views/modules/GameAnalysis/test-data-transform.js:61 | the key is the start of the UTC day holding the instant: a multiple of 86400 at most 86399 seconds before it |
| MatchAggregator.IsWin | src/views/modules/GameAnalysis/test-data-transform.js:77-78 | a match is won exactly when the player's side (Radiant below slot 128) is the winning side |
| MatchAggregator.Count | src/views/modules/GameAnalysis/test-data-transform.js:73-84 | counting a match adds one game, appends the match, and adds one to wins or to losses according to the result |
| MatchAggregator.BucketSnoc | src/views/modules/GameAnalysis/test-data-transform.js:59-85 | one more match changes only its own day's bucket, by exactly one count |
| MatchAggregator.BucketedDone | src/views/modules/GameAnalysis/test-data-transform.js:57-88 | after the loop, the keys list every day with a match once, and the values in key order are those days' buckets |
| MatchAggregator.TransformApiDataToLocalFormat | src/views/modules/GameAnalysis/test-data-transform.js:51-108 | a missing input gives `{calendar: []}`. Otherwise: one block whose entries are the formatted buckets of the days with matches, each day once, in some key order |
| MatchAggregator.BucketsWellFormed | src/views/modules/GameAnalysis/test-data-transform.js:63-84 | every bucket is dated with its day and has at least one game, with wins plus losses equal to games. It holds only matches of that day |
| MatchAggregator.EveryMatchOnce | src/views/modules/GameAnalysis/test-data-transform.js:59-74 | every match's day is a key, and a match lies in a bucket exactly when the bucket is its own day's |
| MatchAggregator.CountsConserved | src/views/modules/GameAnalysis/test-data-transform.js:73 | the day counts add up to the number of matches |
| MatchAggregator.RateRounding | src/views/modules/GameAnalysis/test-data-transform.js:89 | the rate in tenths is the nearest tenth of a percent, a tie going up; it is at most 1000 when wins do not exceed games; 0 without games |
| MatchAggregator.GetCountColor | src/views/modules/GameAnalysis/test-data-transform.js:111-116 | the colour is always one of the four count colours |
| MatchAggregator.CountColorBand | src/views/modules/GameAnalysis/test-data-transform.js:111-116 | the count colour is that of the count's band: 0 games, 1 to 3, 4 to 6, or 7 or more |
| MatchAggregator.CountBandMonotone | src/views/modules/GameAnalysis/test-data-transform.js:111-116 | more games never give a lower band |
| MatchAggregator.CountColorsDistinct | src/views/modules/GameAnalysis/test-data-transform.js:112-115 | the four count colours differ |
| MatchAggregator.GetWinColor | src/views/modules/GameAnalysis/test-data-transform.js:118-128 | the colour is always one of the nine win colours |
| MatchAggregator.WinColorBand | src/views/modules/GameAnalysis/test-data-transform.js:118-128 | the win colour is that of the rate's band: exactly 0, below 30%, bands of ten points, or 90% and more |
| MatchAggregator.WinBandMonotone | src/views/modules/GameAnalysis/test-data-transform.js:118-128 | a higher rate never gives a lower band |
| MatchAggregator.WinColorsDistinct | src/views/modules/GameAnalysis/test-data-transform.js:119-127 | the nine win colours differ |
| MatchAggregator.FormatReadBack | src/views/modules/GameAnalysis/test-data-transform.js:88-101 | a formatted day's four numeric texts read back with `parseInt` as the bucket's numbers. It shows the rounded rate and is coloured by its count band and its rate band |
| MatchAggregator.EntryReadBack | src/views/modules/GameAnalysis/test-data-transform.js:88-101 | every calendar day has games, so its rate is never the `'0.0'` fallback. It reads back as its day, games, wins and games minus wins, with a rate of at most 100% |
| MatchAggregator.EntriesPerDay | src/views/modules/GameAnalysis/test-data-transform.js:88-107 | the calendar has one entry per day with matches: that day's formatted bucket |
| MatchAggregator.EntriesOrderFree | src/views/modules/GameAnalysis/test-data-transform.js:88 | the set of calendar entries does not depend on the order in which the dictionary's keys are enumerated |
| MatchAggregator.MockBuckets | src/views/modules/GameAnalysis/test-data-transform.js:7-48 | the sample's first day has 3 games, 1 win and 2 losses; its second day has 1 game, won |
| MatchAggregator.MockRates | src/views/modules/GameAnalysis/test-data-transform.js:89-96 | one win in three renders as `33.3%`, one in one as `100.0%` |
| MatchAggregator.MockEntries | src/views/modules/GameAnalysis/test-data-transform.js:7-108 | in either key order, the sample's calendar is exactly its two formatted days |
| MatchAggregator.MockExample | src/views/modules/GameAnalysis/test-data-transform.js:134-157 | converting the sample gives one block of exactly the two expected days |
| JsSemantics.TruncRem | src/views/modules/GameAnalysis/utils/tools.js:426-438 | the remainder lies strictly between `-b` and `b`, is Euclidean for non-negative dividends, and is non-positive for non-positive ones |
| JsSemantics.TruncRemOdd | src/views/modules/GameAnalysis/utils/tools.js:426 | the remainder changes sign with the dividend |
| JsSemantics.SliceTo | src/views/modules/GameAnalysis/utils/tools.js:184 | the result is a prefix of the input, `end` long clamped to the input, a negative `end` counting from the back |
| JsSemantics.TrimStart | src/views/modules/GameAnalysis/utils/tools.js:382 | the result is the longest suffix not starting with white space, and everything dropped is white space |
| JsSemantics.TrimEnd | src/views/modules/GameAnalysis/utils/tools.js:382 | the result is the longest prefix not ending with white space, and everything dropped is white space |
| JsSemantics.Split | src/views/modules/GameAnalysis/utils/tools.js:382 | never empty, no piece holds the separator, and joining the pieces with it gives the input back |
| JsSemantics.SplitJoin | src/views/modules/dota2/components/utils/tools.ts:48-49 | splitting undoes joining when no piece holds the separator |
| JsSemantics.NatStringDigits | src/views/modules/GameAnalysis/test-data-transform.js:93-95 | an integer's text is a non-empty run of decimal digits with no leading zero, worth the integer |
| JsSemantics.NumberToStringSign | src/views/modules/GameAnalysis/test-data-transform.js:65 | an integer's text starts with `-` exactly when it is negative |
| JsSemantics.ParseDigits | src/views/modules/dota2/components/utils/tools.ts:51-55 | `parseInt` reads a run of decimal digits, leading zeros included, as its value |
| JsSemantics.ParseNumberToString | src/views/modules/GameAnalysis/test-data-transform.js:144 | `parseInt` reads back what `toString` writes for every integer |
| Dota2Tools.RegroupArr | src/views/modules/dota2/components/utils/tools.ts:14-24 | returns one non-empty group per distinct key; each group is exactly the items with that key, in input order |
| Dota2Tools.MapKeys | src/views/modules/dota2/components/utils/tools.ts:23 | reading the object key by key gives its values in key order |
| Dota2Tools.CompareDatesDefined | src/views/modules/dota2/components/utils/tools.ts:51-61 | the result is a number (not `NaN`) exactly when both months are, and, if they are equal, both days too |
| Dota2Tools.CompareDatesAntisymmetric | src/views/modules/dota2/components/utils/tools.ts:47-62 | swapping the two records negates the result, `NaN` included |
| Dota2Tools.CompareDatesLex | src/views/modules/dota2/components/utils/tools.ts:57-61 | on readable dates the result is zero exactly on equal (month, day) and negative exactly when the first comes lexicographically earlier |
| Dota2Tools.CompareDatesTransitive | src/views/modules/dota2/components/utils/tools.ts:47-62 | on readable dates the comparator is transitive, so it is a valid sort comparator |
| Dota2Tools.MonthDayOfFields | src/views/modules/dota2/components/utils/tools.ts:48-55 | for two digit runs joined by `-`, such as `07-04`, the month and day are the runs' values |
| Dota2Tools.MonthDayOfNumerals | src/views/modules/dota2/components/utils/tools.ts:48-55 | a month and a day written out and joined by `-` read back as that month and day |
| AppStore.InitialTheme | src/store/modules/app.js:7 | a non-empty stored text is used as it is; a missing or empty one gives `light` |
| AppStore.Toggled | src/store/modules/app.js:23-24 | the requested theme is always one of the offered themes, always differs from the current one, and is `dark` exactly after `light` |
| AppStore.ToggledTwice | src/store/modules/app.js:23-25 | toggling twice returns to the start exactly when the start is an offered theme |
| AppStore.AppStore.constructor | src/store/modules/app.js:7-9 | the theme is the stored text or the default; not loading; sidebar open; the page not yet themed |
| AppStore.AppStore.UpdateThemeClass | src/store/modules/app.js:36-44 | the page shows the current theme; nothing else changes |
| AppStore.AppStore.InitTheme | src/store/modules/app.js:47-49 | the page shows the current theme; nothing else changes |
| AppStore.AppStore.SetTheme | src/store/modules/app.js:15-21 | an offered theme becomes current, stored and shown, and `isDark` then holds exactly for `dark`. Any other value changes nothing; the flags never change |
| AppStore.AppStore.ToggleTheme | src/store/modules/app.js:23-26 | the theme becomes the toggled one, always valid, `isDark` exactly when it was `light`; it is stored and shown; flags unchanged |
| AppStore.AppStore.SetLoading | src/store/modules/app.js:28-30 | only the loading flag changes, to the given value |
| AppStore.AppStore.ToggleSidebar | src/store/modules/app.js:32-34 | only the sidebar flag changes, to its opposite |
| AppStore.ToggleSidebarTwice | src/store/modules/app.js:32-34 | toggling the sidebar twice leaves the whole store as it was |
| AppStore.ToggleThemeTwice | src/store/modules/app.js:23-26 | from an offered theme, toggling twice restores it (and stores and shows it) with the flags unchanged |
| AppStore.FreshToggle | src/store/modules/app.js:7 | a store created from any stored text, even an unknown theme, holds an offered theme after one toggle |

## Left out

- **`getSixtyWord`** uses the external `tyme4ts` calendar library. `addSixtyWord` and
  `addSixtyWordArray` in the Dota 2 helpers depend on it too. Only the plain-arithmetic fallback
  `getSixtyWordSimple` is modelled.
- **`SixtyCycle.SixtyWordSimple`** takes the local year, the month and the whole days since
  31 January 1900 as parameters. The source derives them from `Date` in the local time zone, and its
  day difference is sensitive to daylight-saving changes.
- **`dateFormat`, `getDaysBetween`, and `compareDates` in `GameAnalysis/utils/tools.js`** depend on
  `Date`, the locale and the time zone. They are not modelled.
- **`formatNumber` and `averageGamesPerDay`** produce floating-point renderings and are not modelled.
- **`MatchAggregator.RateTenths`** models `toFixed(1)` as rounding the exact rational rate to the
  nearest tenth of a percent, a tie going up. Binary floating point can round a few exact ties the
  other way.
- **`MatchAggregator.GetWinColor`** takes the rate in tenths of a percent. The source passes
  `parseFloat` of the one-decimal text, which is the same value divided by ten.
- **The order of object keys** is not fixed by the model. JavaScript enumerates integer-like keys
  in ascending order and other keys in insertion order. The loops record keys in insertion order,
  and every contract about the returned lists holds for any order of the keys. For the calendar,
  the set of entries is proved independent of the order.
- **`GameTools.RegroupArr` and `Dota2Tools.RegroupArr`** take the key as a function of the item.
  JavaScript turns the key into a string property name, so for example `1` and `"1"` fall together.
  A key that names an inherited property (`constructor`, `toString`) is also not modelled.
- **`DayRanking.DayStat`** has whole-number counts and an optional win count. Records with a
  non-numeric or fractional `count`, or a `win_count` larger than `count`, are not modelled. The
  record's other fields are not modelled either; a ranking copies them unchanged.
- **The rankings' `winRate` text field** (`toFixed(1)`) and the number `winRateNum` that the two
  win-rate rankings attach to each copy (tools.js:245, :268) are not fields of `Ranked`. The
  win-rate rankings compare the exact rational rate `win_count / count`, by cross-multiplication.
- **`CalculateGameStats`** omits its rounded `averageGamesPerDay` field.
- **The OpenDota record** keeps only `start_time`, `player_slot` and `radiant_win`. The remaining
  fields travel in the matches list unchanged.
- **Integers are unbounded.** The source's numbers are IEEE doubles, and very large timestamps or
  counts would lose precision there.
- **Strings** are sequences of Unicode code points. JavaScript indexes UTF-16 code units; this is
  the same for every stem and branch character.
- **The console harness** of `test-data-transform.js` (lines 131-157) does I/O. Only its sample
  input and expected days are modelled, through `MockExample`.
- **`localStorage` and the `<html>` element** are ghost fields recording what was last written.
  Reading the stored theme at start-up is the constructor's parameter.
