/**
 * The two helpers of the Dota 2 match pages that carry logic of their own: the grouping of match
 * records by a key, and the comparator that orders records by their `MM-DD` date text.
 */
module Dota2Tools {
  import opened Wrappers
  import opened JsSemantics
  import opened Grouping

  /**
   * `regroupArr(arr, str)`: for each item, `obj[key] = obj[key] || []` and then a push, so a key
   * gets an empty list on its first appearance; afterwards `Object.keys(obj).map(k => obj[k])`
   * reads the lists back key by key. `keys` records the object's keys in the order this model
   * enumerates them.
   */
  method RegroupArr<T, K(==)>(arr: seq<T>, keyOf: T -> K) returns (groups: seq<seq<T>>)
    ensures IsGrouping(arr, keyOf, groups)
    ensures |groups| == |KeysOf(arr, keyOf)|
  {
    var obj: map<K, seq<T>> := map[];
    var keys: seq<K> := [];
    GroupedEmpty(keyOf);
    var i := 0;
    while i < |arr|
      invariant 0 <= i <= |arr|
      invariant GroupedSoFar(arr[..i], keyOf, obj, keys)
    {
      var item := arr[i];
      var key := keyOf(item);
      if key !in obj {
        GroupedOpenedAt(arr, i, keyOf, obj, keys);
        obj := obj[key := []];
        keys := keys + [key];
      } else {
        GroupedSeenAt(arr, i, keyOf, obj, keys);
        SelfUpdate(obj, key);
        obj := obj[key := obj[key]];
      }
      obj := obj[key := obj[key] + [item]];
      i := i + 1;
    }
    GroupedDone(arr, keyOf, obj, keys);
    groups := MapKeys(obj, keys);
  }

  /** Writing back the value a key already holds leaves the dictionary as it was. */
  lemma SelfUpdate<K, V>(m: map<K, V>, k: K)
    requires k in m
    ensures m[k := m[k]] == m
  {
  }

  /** `Object.keys(obj).map(k => obj[k])`, given the keys in enumeration order. */
  method MapKeys<K, V>(obj: map<K, V>, keys: seq<K>) returns (values: seq<V>)
    requires forall j :: 0 <= j < |keys| ==> keys[j] in obj
    ensures values == Values(obj, keys)
  {
    values := [];
    var j := 0;
    while j < |keys|
      invariant 0 <= j <= |keys|
      invariant |values| == j
      invariant forall l :: 0 <= l < j ==> values[l] == obj[keys[l]]
    {
      values := values + [obj[keys[j]]];
      j := j + 1;
    }
  }

  /** The month and day `parseInt` reads from the first two `-`-separated fields; `None` is `NaN`. */
  datatype DateMount = DateMount(month: Option<int>, day: Option<int>)

  /**
   * `dateMount.split("-")`, then `parseInt` of the first and second piece. A text without a `-` has
   * no second piece, and `parseInt(undefined)` is `NaN`.
   */
  function MonthDay(dateMount: string): DateMount {
    var parts := Split(dateMount, '-');
    DateMount(ParseInt(parts[0]), if |parts| >= 2 then ParseInt(parts[1]) else None)
  }

  /** JavaScript's `x === y` on numbers: `NaN` equals nothing, not even itself. */
  predicate StrictEquals(x: Option<int>, y: Option<int>) {
    x.Some? && y.Some? && x.value == y.value
  }

  /** JavaScript's `x - y` on numbers: `NaN` when either side is `NaN`. */
  function Minus(x: Option<int>, y: Option<int>): Option<int> {
    if x.Some? && y.Some? then Some(x.value - y.value) else None
  }

  /** JavaScript's unary minus on a number; `NaN` stays `NaN`. */
  function Negate(x: Option<int>): Option<int> {
    if x.Some? then Some(-x.value) else None
  }

  /** The comparison on the parsed fields: the day difference within a month, else the month difference. */
  function CompareMounts(x: DateMount, y: DateMount): Option<int> {
    if StrictEquals(x.month, y.month) then Minus(x.day, y.day) else Minus(x.month, y.month)
  }

  /** `compareDates(a, b)` on the `dateMount` texts of the two records. */
  function CompareDates(a: string, b: string): Option<int> {
    CompareMounts(MonthDay(a), MonthDay(b))
  }

  /** Both fields of a date were read as numbers. */
  predicate Defined(d: DateMount) {
    d.month.Some? && d.day.Some?
  }

  /** Reference definition: (month, day) pairs in lexicographic order. */
  predicate LexLess(x: DateMount, y: DateMount)
    requires Defined(x) && Defined(y)
  {
    x.month.value < y.month.value || (x.month.value == y.month.value && x.day.value < y.day.value)
  }

  /** The comparison is a number exactly when the months are, and, when they agree, the days too. */
  lemma CompareMountsDefined(x: DateMount, y: DateMount)
    ensures CompareMounts(x, y).Some? <==>
      x.month.Some? && y.month.Some? && (x.month.value != y.month.value || (x.day.Some? && y.day.Some?))
  {
  }

  /** Swapping the arguments negates the comparison, `NaN` included. */
  lemma CompareMountsAntisymmetric(x: DateMount, y: DateMount)
    ensures CompareMounts(y, x) == Negate(CompareMounts(x, y))
  {
  }

  /** On readable dates the comparison is zero exactly on the same (month, day) and negative exactly before it. */
  lemma CompareMountsLex(x: DateMount, y: DateMount)
    requires Defined(x) && Defined(y)
    ensures CompareMounts(x, y).Some?
    ensures CompareMounts(x, y).value == 0 <==> x == y
    ensures CompareMounts(x, y).value < 0 <==> LexLess(x, y)
  {
    if x.month.value == y.month.value && x.day.value == y.day.value {
      assert x == y;
    }
  }

  /** `compareDates` is a number exactly when the months are, and, when they agree, the days too. */
  lemma CompareDatesDefined(a: string, b: string)
    ensures var x, y := MonthDay(a), MonthDay(b);
      CompareDates(a, b).Some? <==>
        x.month.Some? && y.month.Some? && (x.month.value != y.month.value || (x.day.Some? && y.day.Some?))
  {
    CompareMountsDefined(MonthDay(a), MonthDay(b));
  }

  /** Swapping the records negates `compareDates`, `NaN` included. */
  lemma CompareDatesAntisymmetric(a: string, b: string)
    ensures CompareDates(b, a) == Negate(CompareDates(a, b))
  {
    CompareMountsAntisymmetric(MonthDay(a), MonthDay(b));
  }

  /** On readable dates `compareDates` is zero exactly on the same (month, day) and negative exactly before it. */
  lemma CompareDatesLex(a: string, b: string)
    requires Defined(MonthDay(a)) && Defined(MonthDay(b))
    ensures CompareDates(a, b).Some?
    ensures CompareDates(a, b).value == 0 <==> MonthDay(a) == MonthDay(b)
    ensures CompareDates(a, b).value < 0 <==> LexLess(MonthDay(a), MonthDay(b))
  {
    CompareMountsLex(MonthDay(a), MonthDay(b));
  }

  /** On readable dates `compareDates` orders consistently: it is transitive, as a sort needs. */
  lemma CompareDatesTransitive(a: string, b: string, c: string)
    requires Defined(MonthDay(a)) && Defined(MonthDay(b)) && Defined(MonthDay(c))
    requires CompareDates(a, b).value <= 0 && CompareDates(b, c).value <= 0
    ensures CompareDates(a, c).Some? && CompareDates(a, c).value <= 0
  {
    CompareMountsLex(MonthDay(a), MonthDay(b));
    CompareMountsLex(MonthDay(b), MonthDay(c));
    CompareMountsLex(MonthDay(a), MonthDay(c));
  }

  /** A plain run of decimal digits: what a zero-padded `MM` or `DD` field is. */
  predicate IsDecimal(s: string) {
    s != [] && forall i :: 0 <= i < |s| ==> IsDigitIn(s[i], 10) && '0' <= s[i] <= '9'
  }

  /** Reading the fields back: two digit runs joined by `-` give their values as month and day. */
  lemma MonthDayOfFields(mm: string, dd: string)
    requires IsDecimal(mm) && IsDecimal(dd)
    ensures MonthDay(mm + "-" + dd) == DateMount(Some(DigitsValue(mm, 10) as int), Some(DigitsValue(dd, 10) as int))
  {
    assert forall i :: 0 <= i < |mm| ==> mm[i] != '-';
    assert forall i :: 0 <= i < |dd| ==> dd[i] != '-';
    assert mm + "-" + dd == mm + ['-'] + dd;
    SplitCons(mm, '-', dd);
    SplitNone(dd, '-');
    ParseDigits(mm);
    ParseDigits(dd);
  }

  /** The numerals of a month and a day joined by `-` read back as that month and day. */
  lemma MonthDayOfNumerals(month: nat, day: nat)
    ensures MonthDay(NatString(month) + "-" + NatString(day)) == DateMount(Some(month), Some(day))
  {
    NatStringDigits(month);
    NatStringDigits(day);
    MonthDayOfFields(NatString(month), NatString(day));
  }
}
