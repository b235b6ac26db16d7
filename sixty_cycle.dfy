/**
 * The sexagenary (stem-and-branch) helpers of the game-analysis page: the fallback that names a
 * day's year, month and day pillars from plain calendar arithmetic, the parser that splits such a
 * text back into stems and branches, and the five-element (wuxing) colouring of each character.
 */
module SixtyCycle {
  import opened Wrappers
  import opened JsSemantics

  /** The ten heavenly stems, in cycle order. */
  const TIAN_GAN: seq<char> := ['甲', '乙', '丙', '丁', '戊', '己', '庚', '辛', '壬', '癸']

  /** The twelve earthly branches, in cycle order. */
  const DI_ZHI: seq<char> := ['子', '丑', '寅', '卯', '辰', '巳', '午', '未', '申', '酉', '戌', '亥']

  /** The five elements. */
  datatype Element = Wood | Fire | Earth | Metal | Water {
    /** The character the tables use for the element. */
    function Name(): string {
      match this
      case Wood => "木"
      case Fire => "火"
      case Earth => "土"
      case Metal => "金"
      case Water => "水"
    }
  }

  /** The colour shown for each element. */
  const WUXING_COLORS: map<Element, string> :=
    map[Wood := "#22c55e", Fire := "#ef4444", Earth := "#eab308", Metal := "#94a3b8", Water := "#3b82f6"]

  /** The element of each stem (every key of the table is one character). */
  const TIANGAN_WUXING: map<char, Element> :=
    map['甲' := Wood, '乙' := Wood, '丙' := Fire, '丁' := Fire, '戊' := Earth,
        '己' := Earth, '庚' := Metal, '辛' := Metal, '壬' := Water, '癸' := Water]

  /** The element of each branch. */
  const DIZHI_WUXING: map<char, Element> :=
    map['子' := Water, '丑' := Earth, '寅' := Wood, '卯' := Wood, '辰' := Earth, '巳' := Fire,
        '午' := Fire, '未' := Earth, '申' := Metal, '酉' := Metal, '戌' := Earth, '亥' := Water]

  /** The colour of a character that is neither a stem nor a branch. */
  const DEFAULT_COLOR: string := "#64748b"

  /** The elements in the order in which each gives rise to the next. */
  const GENERATING: seq<Element> := [Wood, Fire, Earth, Metal, Water]

  /** The elements of winter, spring, summer and autumn, the seasons starting from the branch 亥. */
  const SEASONS: seq<Element> := [Water, Wood, Fire, Metal]

  /** Reference definition: the stems go through the elements in generating order, two stems each. */
  function StemElement(i: int): Element
    requires 0 <= i < 10
  {
    GENERATING[i / 2]
  }

  /**
   * Reference definition: the branches go through the seasons three at a time, the first two of
   * each season taking its element and the last one (丑, 辰, 未, 戌) taking earth.
   */
  function BranchElement(i: int): Element
    requires 0 <= i < 12
  {
    if i % 3 == 1 then Earth else SEASONS[(i + 1) % 12 / 3]
  }

  /** Whether a property key is one of the stems or branches the tables know. */
  predicate IsCycleChar(key: string) {
    |key| == 1 && (key[0] in TIANGAN_WUXING || key[0] in DIZHI_WUXING)
  }

  /**
   * `getWuxingColor(char)`: the element is looked up among the stems, then among the branches,
   * and its colour is returned; anything else gets the neutral colour.
   */
  function WuxingColor(key: string): (color: string)
    ensures color == DEFAULT_COLOR || color in WUXING_COLORS.Values
    ensures color != DEFAULT_COLOR <==> IsCycleChar(key)
  {
    var element :=
      if |key| == 1 && key[0] in TIANGAN_WUXING then Some(TIANGAN_WUXING[key[0]])
      else if |key| == 1 && key[0] in DIZHI_WUXING then Some(DIZHI_WUXING[key[0]])
      else None;
    if element.Some? && element.value in WUXING_COLORS then WUXING_COLORS[element.value]
    else DEFAULT_COLOR
  }

  /** The stem table gives each stem its element in the generating order. */
  lemma {:induction false} StemTable(i: int)
    requires 0 <= i < 10
    ensures TIAN_GAN[i] in TIANGAN_WUXING && TIANGAN_WUXING[TIAN_GAN[i]] == StemElement(i)
  {
    if i < 5 {
      if i == 0 {} else if i == 1 {} else if i == 2 {} else if i == 3 {} else {}
    } else {
      if i == 5 {} else if i == 6 {} else if i == 7 {} else if i == 8 {} else {}
    }
  }

  /** The branch table gives each branch the element of its season, or earth at a season's end. */
  lemma {:induction false} BranchTable(i: int)
    requires 0 <= i < 12
    ensures DI_ZHI[i] in DIZHI_WUXING && DI_ZHI[i] !in TIANGAN_WUXING
    ensures DIZHI_WUXING[DI_ZHI[i]] == BranchElement(i)
  {
    if i < 6 {
      if i == 0 {} else if i == 1 {} else if i == 2 {} else if i == 3 {} else if i == 4 {} else {}
    } else {
      if i == 6 {} else if i == 7 {} else if i == 8 {} else if i == 9 {} else if i == 10 {} else {}
    }
  }

  /** A stem is coloured by its element. */
  lemma StemColor(i: int)
    requires 0 <= i < 10
    ensures WuxingColor([TIAN_GAN[i]]) == WUXING_COLORS[StemElement(i)]
  {
    StemTable(i);
  }

  /** A branch is coloured by its element. */
  lemma BranchColor(i: int)
    requires 0 <= i < 12
    ensures WuxingColor([DI_ZHI[i]]) == WUXING_COLORS[BranchElement(i)]
  {
    BranchTable(i);
  }

  /** The five elements are told apart by colour, and none of them looks like an unknown character. */
  lemma ElementColorsDistinct()
    ensures forall a: Element :: a in WUXING_COLORS
    ensures forall a, b :: a in WUXING_COLORS && b in WUXING_COLORS && a != b ==> WUXING_COLORS[a] != WUXING_COLORS[b]
    ensures DEFAULT_COLOR !in WUXING_COLORS.Values
  {
    forall a: Element ensures a in WUXING_COLORS {
      match a
      case Wood =>
      case Fire =>
      case Earth =>
      case Metal =>
      case Water =>
    }
  }

  /** `table[i]` interpolated into a template literal: the character, or the text `undefined`. */
  function Cell(table: seq<char>, i: int): (r: string)
    ensures 0 <= i < |table| ==> r == [table[i]]
    ensures !(0 <= i < |table|) ==> r == "undefined"
  {
    if 0 <= i < |table| then [table[i]] else "undefined"
  }

  /** The stem and branch of a cycle index, as the fallback writes them (`%` truncates toward zero). */
  function PillarText(index: int): string {
    Cell(TIAN_GAN, TruncRem(index, 10)) + Cell(DI_ZHI, TruncRem(index, 12))
  }

  /** The fallback's year index: `(year - 4) % 60`. */
  function YearIndex(year: int): int {
    TruncRem(year - 4, 60)
  }

  /** The fallback's month index: `(year * 12 + month - 1) % 60`. */
  function MonthIndex(year: int, month: int): int {
    TruncRem(year * 12 + month - 1, 60)
  }

  /** The fallback's day index: whole days since 31 January 1900, `% 60`. */
  function DayIndex(daysSince: int): int {
    TruncRem(daysSince, 60)
  }

  /**
   * `getSixtyWordSimple(timestamp)`, taking the local calendar year, the month (1 to 12) and the
   * number of whole days between that local date and 31 January 1900, which the source obtains
   * from `Date`.
   */
  function SixtyWordSimple(year: int, month: int, daysSince: int): string {
    PillarText(YearIndex(year)) + "年 " + PillarText(MonthIndex(year, month)) + "月 "
      + PillarText(DayIndex(daysSince)) + "日"
  }

  /** One parsed pillar: its two characters, when present, and their colours. */
  datatype Pillar = Pillar(tiangan: Option<char>, dizhi: Option<char>, tianganColor: string, dizhiColor: string)

  /** The structure `parseSixtyWord` returns. */
  datatype SixtyWord = SixtyWord(year: Pillar, month: Pillar, day: Pillar)

  /** `part[i]` on a string: the character, or `undefined` past the end. */
  function CharAt(part: string, i: nat): (r: Option<char>)
    ensures r.Some? <==> i < |part|
    ensures r.Some? ==> r.value == part[i]
  {
    if i < |part| then Some(part[i]) else None
  }

  /** The property key a character (or `undefined`) becomes when it indexes an object. */
  function KeyOf(c: Option<char>): string {
    if c.Some? then [c.value] else "undefined"
  }

  /** One pillar of `parseSixtyWord`: the first two characters of the part and their colours. */
  function ParsePillar(part: string): (p: Pillar)
    ensures p.tiangan == CharAt(part, 0) && p.dizhi == CharAt(part, 1)
    ensures p.tianganColor == WuxingColor(KeyOf(p.tiangan)) && p.dizhiColor == WuxingColor(KeyOf(p.dizhi))
  {
    var t := CharAt(part, 0);
    var d := CharAt(part, 1);
    Pillar(t, d, WuxingColor(KeyOf(t)), WuxingColor(KeyOf(d)))
  }

  /** A parsed pillar colours a stem in first place by its element, and anything else there neutrally. */
  lemma ParsePillarStem(part: string)
    ensures var p := ParsePillar(part);
      && (forall i :: 0 <= i < 10 && |part| >= 1 && part[0] == TIAN_GAN[i] ==>
            p.tianganColor == WUXING_COLORS[StemElement(i)])
      && ((|part| < 1 || !IsCycleChar([part[0]])) ==> p.tianganColor == DEFAULT_COLOR)
  {
    var p := ParsePillar(part);
    forall i | 0 <= i < 10 && |part| >= 1 && part[0] == TIAN_GAN[i]
      ensures p.tianganColor == WUXING_COLORS[StemElement(i)]
    {
      assert KeyOf(p.tiangan) == [TIAN_GAN[i]];
      StemColor(i);
    }
  }

  /** A parsed pillar colours a branch in second place by its element, and anything else there neutrally. */
  lemma ParsePillarBranch(part: string)
    ensures var p := ParsePillar(part);
      && (forall j :: 0 <= j < 12 && |part| >= 2 && part[1] == DI_ZHI[j] ==>
            p.dizhiColor == WUXING_COLORS[BranchElement(j)])
      && ((|part| < 2 || !IsCycleChar([part[1]])) ==> p.dizhiColor == DEFAULT_COLOR)
  {
    var p := ParsePillar(part);
    forall j | 0 <= j < 12 && |part| >= 2 && part[1] == DI_ZHI[j]
      ensures p.dizhiColor == WUXING_COLORS[BranchElement(j)]
    {
      assert KeyOf(p.dizhi) == [DI_ZHI[j]];
      BranchColor(j);
    }
  }

  /**
   * A parsed pillar colours a stem in first place and a branch in second place by its element, and
   * gives the neutral colour to any other character and to a missing one.
   */
  lemma ParsePillarColors(part: string)
    ensures var p := ParsePillar(part);
      && p.tiangan == CharAt(part, 0) && p.dizhi == CharAt(part, 1)
      && (forall i :: 0 <= i < 10 && |part| >= 1 && part[0] == TIAN_GAN[i] ==>
            p.tianganColor == WUXING_COLORS[StemElement(i)])
      && (forall j :: 0 <= j < 12 && |part| >= 2 && part[1] == DI_ZHI[j] ==>
            p.dizhiColor == WUXING_COLORS[BranchElement(j)])
      && ((|part| < 1 || !IsCycleChar([part[0]])) ==> p.tianganColor == DEFAULT_COLOR)
      && ((|part| < 2 || !IsCycleChar([part[1]])) ==> p.dizhiColor == DEFAULT_COLOR)
  {
    ParsePillarStem(part);
    ParsePillarBranch(part);
  }

  /**
   * `parseSixtyWord(text)`: nothing for a missing or empty text; otherwise the trimmed text is
   * split at single spaces and must give exactly three parts, the year, month and day pillars.
   */
  function ParseSixtyWord(text: Option<string>): (r: Option<SixtyWord>)
    ensures r.Some? <==> text.Some? && text.value != "" && |Split(Trim(text.value), ' ')| == 3
    ensures r.Some? ==> var parts := Split(Trim(text.value), ' ');
      r.value == SixtyWord(ParsePillar(parts[0]), ParsePillar(parts[1]), ParsePillar(parts[2]))
  {
    if text.None? || text.value == "" then None
    else
      var parts := Split(Trim(text.value), ' ');
      if |parts| != 3 then None
      else Some(SixtyWord(ParsePillar(parts[0]), ParsePillar(parts[1]), ParsePillar(parts[2])))
  }

  /**
   * The pillar a cycle index denotes once parsed. A non-negative index gives its stem and branch,
   * coloured by their reference elements. A negative index gives a negative branch remainder, so the
   * text `undefined` leaks in: after the stem 甲 when the index is a multiple of ten (its stem
   * remainder is then zero), in place of both characters otherwise; the leaked letters get the
   * neutral colour.
   */
  function ExpectedPillar(index: int): Pillar
    requires -60 < index < 60
  {
    if index >= 0 then
      Pillar(Some(TIAN_GAN[index % 10]), Some(DI_ZHI[index % 12]),
             WUXING_COLORS[StemElement(index % 10)], WUXING_COLORS[BranchElement(index % 12)])
    else if index % 10 == 0 then
      Pillar(Some(TIAN_GAN[0]), Some('u'), WUXING_COLORS[StemElement(0)], DEFAULT_COLOR)
    else
      Pillar(Some('u'), Some('n'), DEFAULT_COLOR, DEFAULT_COLOR)
  }

  /** A non-negative index's text followed by a suffix parses to its stem and branch. */
  lemma PillarRoundTripDefined(index: int, suffix: char)
    requires 0 <= index < 60
    ensures ParsePillar(PillarText(index) + [suffix]) == ExpectedPillar(index)
  {
    var stem := Cell(TIAN_GAN, TruncRem(index, 10));
    var branch := Cell(DI_ZHI, TruncRem(index, 12));
    assert stem == [TIAN_GAN[index % 10]];
    assert branch == [DI_ZHI[index % 12]];
    var t := stem + branch + [suffix];
    assert t[0] == TIAN_GAN[index % 10] && t[1] == DI_ZHI[index % 12];
    StemColor(index % 10);
    BranchColor(index % 12);
  }

  /** The stem 甲 followed by the text `undefined` parses as 甲 and the letter `u`. */
  lemma ParseStemUndefined(suffix: char)
    ensures ParsePillar([TIAN_GAN[0]] + "undefined" + [suffix])
      == Pillar(Some(TIAN_GAN[0]), Some('u'), WUXING_COLORS[StemElement(0)], DEFAULT_COLOR)
  {
    var t := [TIAN_GAN[0]] + "undefined" + [suffix];
    assert t[0] == TIAN_GAN[0] && t[1] == 'u';
    assert WuxingColor("u") == DEFAULT_COLOR;
    StemColor(0);
  }

  /** A negative multiple of ten keeps the stem 甲 and loses the branch to `undefined`. */
  lemma PillarRoundTripTens(index: int, suffix: char)
    requires -60 < index < 0 && index % 10 == 0
    ensures ParsePillar(PillarText(index) + [suffix]) == ExpectedPillar(index)
  {
    assert PillarText(index) + [suffix] == [TIAN_GAN[0]] + "undefined" + [suffix] by {
      assert TruncRem(index, 12) < 0;
      assert TruncRem(index, 10) == 0;
    }
    ParseStemUndefined(suffix);
  }

  /** Any other negative index loses its stem to `undefined`, so only its letters are parsed. */
  lemma PillarRoundTripUndefined(index: int, suffix: char)
    requires -60 < index < 0 && index % 10 != 0
    ensures ParsePillar(PillarText(index) + [suffix]) == ExpectedPillar(index)
  {
    assert TruncRem(index, 10) < 0;
    var t := "undefined" + Cell(DI_ZHI, TruncRem(index, 12)) + [suffix];
    assert PillarText(index) + [suffix] == t;
    assert t[0] == 'u' && t[1] == 'n';
    assert WuxingColor("u") == DEFAULT_COLOR;
    assert WuxingColor("n") == DEFAULT_COLOR;
  }

  /** A pillar's text followed by its suffix parses to the expected pillar. */
  lemma PillarRoundTrip(index: int, suffix: char)
    requires -60 < index < 60
    ensures ParsePillar(PillarText(index) + [suffix]) == ExpectedPillar(index)
  {
    if index >= 0 {
      PillarRoundTripDefined(index, suffix);
    } else if index % 10 == 0 {
      PillarRoundTripTens(index, suffix);
    } else {
      PillarRoundTripUndefined(index, suffix);
    }
  }

  /** No character of a pillar's text is a space or other white space. */
  lemma PillarTextNoSpace(index: int)
    ensures ' ' !in PillarText(index)
    ensures PillarText(index) != [] && !IsWhiteSpace(PillarText(index)[0])
  {
  }

  /** Three space-free parts joined by single spaces split back into those parts. */
  lemma SplitThree(a: string, b: string, c: string)
    requires ' ' !in a && ' ' !in b && ' ' !in c
    ensures Split(a + " " + b + " " + c, ' ') == [a, b, c]
  {
    assert a + " " + b + " " + c == a + [' '] + (b + [' '] + c);
    SplitCons(a, ' ', b + [' '] + c);
    SplitCons(b, ' ', c);
    SplitNone(c, ' ');
  }

  /** The fallback's layout is its three suffixed pillars joined by single spaces. */
  lemma Regroup(pa: string, pb: string, pc: string)
    ensures pa + "年 " + pb + "月 " + pc + "日" == (pa + "年") + " " + (pb + "月") + " " + (pc + "日")
  {
  }

  /** The fallback's text always has exactly its three space-separated pillars. */
  lemma SimpleParts(year: int, month: int, daysSince: int)
    ensures Split(SixtyWordSimple(year, month, daysSince), ' ')
      == [PillarText(YearIndex(year)) + "年", PillarText(MonthIndex(year, month)) + "月",
          PillarText(DayIndex(daysSince)) + "日"]
  {
    var pa := PillarText(YearIndex(year));
    var pb := PillarText(MonthIndex(year, month));
    var pc := PillarText(DayIndex(daysSince));
    PillarTextNoSpace(YearIndex(year));
    PillarTextNoSpace(MonthIndex(year, month));
    PillarTextNoSpace(DayIndex(daysSince));
    Regroup(pa, pb, pc);
    SplitThree(pa + "年", pb + "月", pc + "日");
  }

  /**
   * Parsing the fallback's text always succeeds and gives back, pillar by pillar, the stem and
   * branch of each cycle index with its element's colour.
   */
  lemma SimpleRoundTrip(year: int, month: int, daysSince: int)
    ensures ParseSixtyWord(Some(SixtyWordSimple(year, month, daysSince)))
      == Some(SixtyWord(ExpectedPillar(YearIndex(year)), ExpectedPillar(MonthIndex(year, month)),
                        ExpectedPillar(DayIndex(daysSince))))
  {
    var s := SixtyWordSimple(year, month, daysSince);
    PillarTextNoSpace(YearIndex(year));
    assert s[0] == PillarText(YearIndex(year))[0];
    assert s[|s| - 1] == '日';
    TrimKeeps(s);
    SimpleParts(year, month, daysSince);
    PillarRoundTrip(YearIndex(year), '年');
    PillarRoundTrip(MonthIndex(year, month), '月');
    PillarRoundTrip(DayIndex(daysSince), '日');
  }

  /** A parsed pillar has a genuine branch exactly when its cycle index is not negative. */
  lemma BranchDefined(index: int)
    requires -60 < index < 60
    ensures ExpectedPillar(index).dizhi.value in DI_ZHI <==> index >= 0
  {
    TablesDistinct();
  }

  /** The stems, and the branches, are pairwise distinct, and no stem is a branch. */
  lemma TablesDistinct()
    ensures forall i, j :: 0 <= i < j < 10 ==> TIAN_GAN[i] != TIAN_GAN[j]
    ensures forall i, j :: 0 <= i < j < 12 ==> DI_ZHI[i] != DI_ZHI[j]
    ensures forall i, j :: 0 <= i < 10 && 0 <= j < 12 ==> TIAN_GAN[i] != DI_ZHI[j]
  {
  }

  /** Division by the cycle's moduli is unique: a quotient and an in-range remainder determine `%`. */
  lemma ModUnique(x: int, m: int, q: int, r: int)
    requires m == 2 || m == 10 || m == 12
    requires 0 <= r < m && x == m * q + r
    ensures x % m == r
  {
    var q0, r0 := x / m, x % m;
    assert x == m * q0 + r0 && 0 <= r0 < m;
  }

  /** A cycle index pairs a stem and a branch of the same polarity (both yang or both yin). */
  lemma PolarityAgrees(index: int)
    requires index >= 0
    ensures index % 10 % 2 == index % 12 % 2
  {
    var r1, r2 := index % 10, index % 12;
    var k := 6 * (index / 12) - 5 * (index / 10);
    assert r1 == r2 + 2 * k;
    ModUnique(r1, 2, r2 / 2 + k, r2 % 2);
  }

  /** Two indices of one cycle with the same stem and branch remainders are equal. */
  lemma SameRemainders(i: int, j: int)
    requires 0 <= i < 60 && 0 <= j < 60
    requires i % 10 == j % 10 && i % 12 == j % 12
    ensures i == j
  {
    var p := j / 10 - i / 10;
    var q := j / 12 - i / 12;
    assert j - i == 10 * p;
    assert j - i == 12 * q;
    assert -6 < p < 6;
  }

  /** The sixty indices of one cycle name sixty different pillars. */
  lemma CycleDistinct(i: int, j: int)
    requires 0 <= i < j < 60
    ensures (TIAN_GAN[i % 10], DI_ZHI[i % 12]) != (TIAN_GAN[j % 10], DI_ZHI[j % 12])
  {
    TablesDistinct();
    if i % 10 == j % 10 && i % 12 == j % 12 {
      SameRemainders(i, j);
    }
  }

  /** Every stem and branch of the same polarity is named by some index of the cycle. */
  lemma CycleComplete(s: int, b: int)
    requires 0 <= s < 10 && 0 <= b < 12 && s % 2 == b % 2
    ensures exists i :: 0 <= i < 60 && i % 10 == s && i % 12 == b
  {
    var d := (s - b) / 2;
    assert s - b == 2 * d;
    var e := d % 6;
    var i := s + 10 * e;
    assert i == b + 12 * (d / 6 + e);
    ModUnique(i, 10, e, s);
    ModUnique(i, 12, d / 6 + e, b);
  }

  /** A worked example: 1984 starts a cycle (甲子); its January is the 49th month pillar; day 0 is a 甲子 day. */
  lemma Example1984()
    ensures SixtyWordSimple(1984, 1, 0) == "甲子年 壬子月 甲子日"
  {
  }

  /** A worked example before the year 4: the negative year index prints `undefined` twice. */
  lemma ExampleYear3()
    ensures SixtyWordSimple(3, 1, 0) == "undefinedundefined年 " + PillarText(MonthIndex(3, 1)) + "月 甲子日"
  {
  }
}
