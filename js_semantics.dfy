/**
 * The handful of JavaScript built-ins the analysis code leans on, written out with their
 * ECMAScript behaviour: the truncating remainder `%`, `Array.prototype.slice(0, end)`,
 * `String.prototype.trim`, `String.prototype.split` with a one-character separator and
 * `parseInt` with no radix argument.
 */
module JsSemantics {
  import opened Wrappers

  /** JavaScript's `a % b` on integers with `b > 0`: the remainder takes the sign of `a`. */
  function TruncRem(a: int, b: int): (r: int)
    requires b > 0
    ensures -b < r < b
    ensures a >= 0 ==> r == a % b
    ensures a <= 0 ==> r <= 0
  {
    if a >= 0 then a % b else -((-a) % b)
  }

  /** The remainder is an odd function of the dividend, unlike Dafny's Euclidean `%`. */
  lemma TruncRemOdd(a: int, b: int)
    requires b > 0
    ensures TruncRem(-a, b) == -TruncRem(a, b)
  {
  }

  /** `s.slice(0, end)`: a negative `end` counts back from the end, and the result is clamped. */
  function SliceTo<T>(s: seq<T>, end: int): (r: seq<T>)
    ensures r <= s
    ensures end >= 0 ==> |r| == (if end < |s| then end else |s|)
    ensures end < 0 ==> |r| == (if |s| + end > 0 then |s| + end else 0)
  {
    if end >= 0 then
      (if end < |s| then s[..end] else s)
    else
      (if |s| + end > 0 then s[..|s| + end] else [])
  }

  /** The characters ECMAScript calls WhiteSpace or LineTerminator (what `trim` and `parseInt` skip). */
  predicate IsWhiteSpace(c: char) {
    c == '\t' || c == '\n' || c == '\U{B}' || c == '\U{C}' || c == '\r' || c == ' '
    || c == '\U{A0}' || c == '\U{1680}' || ('\U{2000}' <= c <= '\U{200A}')
    || c == '\U{2028}' || c == '\U{2029}' || c == '\U{202F}' || c == '\U{205F}'
    || c == '\U{3000}' || c == '\U{FEFF}'
  }

  /** Drops leading white space: the result is the longest suffix of `s` that does not start with it. */
  function TrimStart(s: string): (r: string)
    ensures |r| <= |s| && r == s[|s| - |r|..]
    ensures r == [] || !IsWhiteSpace(r[0])
    ensures forall i :: 0 <= i < |s| - |r| ==> IsWhiteSpace(s[i])
  {
    if s != [] && IsWhiteSpace(s[0]) then TrimStart(s[1..]) else s
  }

  /** Drops trailing white space: the result is the longest prefix of `s` that does not end with it. */
  function TrimEnd(s: string): (r: string)
    ensures r <= s
    ensures r == [] || !IsWhiteSpace(r[|r| - 1])
    ensures forall i :: |r| <= i < |s| ==> IsWhiteSpace(s[i])
  {
    if s != [] && IsWhiteSpace(s[|s| - 1]) then TrimEnd(s[..|s| - 1]) else s
  }

  /** `s.trim()`. */
  function Trim(s: string): string {
    TrimEnd(TrimStart(s))
  }

  /** A string whose first and last characters are not white space is left alone by `trim`. */
  lemma TrimKeeps(s: string)
    requires s != [] && !IsWhiteSpace(s[0]) && !IsWhiteSpace(s[|s| - 1])
    ensures Trim(s) == s
  {
  }

  /** The pieces joined back together with the separator (the inverse of `Split`). */
  function Join(parts: seq<string>, sep: char): string
    requires |parts| >= 1
  {
    if |parts| == 1 then parts[0] else parts[0] + [sep] + Join(parts[1..], sep)
  }

  /** `s.split(sep)` for a one-character separator: never empty, no piece holds `sep`, and joining gives `s` back. */
  function Split(s: string, sep: char): (r: seq<string>)
    ensures |r| >= 1
    ensures forall p :: p in r ==> sep !in p
    ensures Join(r, sep) == s
  {
    if s == [] then [""]
    else
      var rest := Split(s[1..], sep);
      if s[0] == sep then [""] + rest
      else [[s[0]] + rest[0]] + rest[1..]
  }

  /** A piece without the separator, followed by it, splits off as the first piece. */
  lemma {:induction false} SplitCons(a: string, sep: char, b: string)
    requires sep !in a
    ensures Split(a + [sep] + b, sep) == [a] + Split(b, sep)
  {
    if a == [] {
      assert a + [sep] + b == [sep] + b;
      assert ([sep] + b)[1..] == b;
    } else {
      assert (a + [sep] + b)[1..] == a[1..] + [sep] + b;
      SplitCons(a[1..], sep, b);
      assert [a[0]] + a[1..] == a;
    }
  }

  /** A string without the separator splits into itself. */
  lemma {:induction false} SplitNone(a: string, sep: char)
    requires sep !in a
    ensures Split(a, sep) == [a]
  {
    if a != [] {
      SplitNone(a[1..], sep);
      assert [a[0]] + a[1..] == a;
    }
  }

  /** Splitting undoes joining, as long as no piece holds the separator. */
  lemma {:induction false} SplitJoin(parts: seq<string>, sep: char)
    requires |parts| >= 1
    requires forall p :: p in parts ==> sep !in p
    ensures Split(Join(parts, sep), sep) == parts
  {
    if |parts| == 1 {
      SplitNone(parts[0], sep);
    } else {
      SplitJoin(parts[1..], sep);
      SplitCons(parts[0], sep, Join(parts[1..], sep));
      assert [parts[0]] + parts[1..] == parts;
    }
  }

  /** The digit value of `c` in bases up to 36, if it is an ASCII digit or letter. */
  function DigitValue(c: char): Option<nat> {
    if '0' <= c <= '9' then Some(c as int - '0' as int)
    else if 'a' <= c <= 'z' then Some(c as int - 'a' as int + 10)
    else if 'A' <= c <= 'Z' then Some(c as int - 'A' as int + 10)
    else None
  }

  predicate IsDigitIn(c: char, radix: nat) {
    DigitValue(c).Some? && DigitValue(c).value < radix
  }

  /** The length of the longest prefix of `s` made of digits of `radix`. */
  function DigitRun(s: string, radix: nat): (n: nat)
    ensures n <= |s|
    ensures forall i :: 0 <= i < n ==> IsDigitIn(s[i], radix)
    ensures n < |s| ==> !IsDigitIn(s[n], radix)
  {
    if s != [] && IsDigitIn(s[0], radix) then 1 + DigitRun(s[1..], radix) else 0
  }

  /** The value of a string of digits of `radix`, most significant first. */
  function DigitsValue(s: string, radix: nat): nat
    requires forall i :: 0 <= i < |s| ==> IsDigitIn(s[i], radix)
  {
    if s == [] then 0
    else
      assert IsDigitIn(s[|s| - 1], radix);
      DigitsValue(s[..|s| - 1], radix) * radix + DigitValue(s[|s| - 1]).value
  }

  /**
   * `parseInt(s)` with no radix: skip leading white space, take an optional sign, read hexadecimal
   * digits after a `0x`/`0X` prefix and decimal digits otherwise, and stop at the first character
   * that is not a digit. No digit at all gives `NaN`, modelled as `None`.
   */
  function ParseInt(s: string): Option<int> {
    ParseSigned(TrimStart(s))
  }

  /** `parseInt` after the leading white space: an optional sign, then the digits. */
  function ParseSigned(t: string): Option<int> {
    if t != [] && t[0] == '-' then
      var m := ParseMagnitude(t[1..]);
      if m.Some? then Some(-(m.value as int)) else None
    else if t != [] && t[0] == '+' then
      var m := ParseMagnitude(t[1..]);
      if m.Some? then Some(m.value as int) else None
    else
      var m := ParseMagnitude(t);
      if m.Some? then Some(m.value as int) else None
  }

  /** `parseInt` after the sign: hexadecimal digits after `0x`/`0X`, decimal ones otherwise. */
  function ParseMagnitude(u: string): Option<nat> {
    var hex := |u| >= 2 && u[0] == '0' && (u[1] == 'x' || u[1] == 'X');
    var radix := if hex then 16 else 10;
    var body := if hex then u[2..] else u;
    var n := DigitRun(body, radix);
    if n == 0 then None else Some(DigitsValue(body[..n], radix))
  }

  /** The decimal digit character of `d`. */
  function DigitChar(d: nat): (c: char)
    requires d < 10
    ensures IsDigitIn(c, 10) && DigitValue(c) == Some(d)
  {
    ('0' as int + d) as char
  }

  /** The shortest decimal numeral of `n`. */
  function NatString(n: nat): string {
    if n < 10 then [DigitChar(n)] else NatString(n / 10) + [DigitChar(n % 10)]
  }

  /** The numeral is made of digits only, has no leading zero, and is worth `n`. */
  lemma {:induction false} NatStringDigits(n: nat)
    ensures NatString(n) != []
    ensures forall i :: 0 <= i < |NatString(n)| ==> IsDigitIn(NatString(n)[i], 10) && '0' <= NatString(n)[i] <= '9'
    ensures |NatString(n)| > 1 ==> NatString(n)[0] != '0'
    ensures DigitsValue(NatString(n), 10) == n
  {
    if n >= 10 {
      NatStringDigits(n / 10);
      var s := NatString(n);
      assert s[..|s| - 1] == NatString(n / 10);
    }
  }

  /** The numeral of a number of two or more digits is that of its leading digits, then its last. */
  lemma NatStringSnoc(n: nat, s: string)
    requires n >= 10 && NatString(n / 10) == s
    ensures NatString(n) == s + [DigitChar(n % 10)]
  {
  }

  /** `String(n)` for an integer: a minus sign before the digits of a negative number. */
  function NumberToString(n: int): string {
    if n < 0 then "-" + NatString(-n) else NatString(n)
  }

  /** The text of an integer starts with a minus sign exactly when the integer is negative. */
  lemma NumberToStringSign(n: int)
    ensures NumberToString(n) != [] && (NumberToString(n)[0] == '-' <==> n < 0)
  {
    NatStringDigits(if n < 0 then -n else n);
  }

  /** A run made only of digits is read to its end. */
  lemma {:induction false} DigitRunAll(s: string, radix: nat)
    requires forall i :: 0 <= i < |s| ==> IsDigitIn(s[i], radix)
    ensures DigitRun(s, radix) == |s|
  {
    if s != [] {
      DigitRunAll(s[1..], radix);
    }
  }

  /** A string that does not start with white space is left alone by `trimStart`. */
  lemma TrimStartKeeps(s: string)
    requires s != [] && !IsWhiteSpace(s[0])
    ensures TrimStart(s) == s
  {
  }

  /** A plain run of decimal digits, not starting a hexadecimal prefix, is read as its value. */
  lemma MagnitudeOfDigits(digits: string)
    requires digits != [] && forall i :: 0 <= i < |digits| ==> IsDigitIn(digits[i], 10) && '0' <= digits[i] <= '9'
    ensures ParseMagnitude(digits) == Some(DigitsValue(digits, 10))
  {
    assert |digits| >= 2 ==> digits[1] != 'x' && digits[1] != 'X';
    DigitRunAll(digits, 10);
    assert digits[..|digits|] == digits;
  }

  /** `parseInt` reads a plain run of decimal digits as its value. */
  lemma ParseDigits(digits: string)
    requires digits != [] && forall i :: 0 <= i < |digits| ==> IsDigitIn(digits[i], 10) && '0' <= digits[i] <= '9'
    ensures ParseInt(digits) == Some(DigitsValue(digits, 10) as int)
  {
    assert !IsWhiteSpace(digits[0]);
    TrimStartKeeps(digits);
    assert digits[0] != '-' && digits[0] != '+';
    MagnitudeOfDigits(digits);
  }

  /** After a minus sign, the magnitude that follows is negated. */
  lemma SignedNegative(u: string)
    requires ParseMagnitude(u).Some?
    ensures ParseSigned("-" + u) == Some(-(ParseMagnitude(u).value as int))
  {
    var s := "-" + u;
    assert s[0] == '-' && s[1..] == u;
  }

  /** `parseInt` reads a minus sign followed by a readable magnitude as its negation. */
  lemma ParseNegated(u: string)
    requires ParseMagnitude(u).Some?
    ensures ParseInt("-" + u) == Some(-(ParseMagnitude(u).value as int))
  {
    assert ("-" + u)[0] == '-';
    TrimStartKeeps("-" + u);
    SignedNegative(u);
  }

  /** `parseInt` reads a minus sign followed by a plain run of decimal digits as the negated value. */
  lemma ParseNegativeDigits(digits: string, m: nat)
    requires digits != [] && forall i :: 0 <= i < |digits| ==> IsDigitIn(digits[i], 10) && '0' <= digits[i] <= '9'
    requires DigitsValue(digits, 10) == m
    ensures ParseInt("-" + digits) == Some(-(m as int))
  {
    MagnitudeOfDigits(digits);
    ParseNegated(digits);
  }

  /** `parseInt` reads back the numeral of a natural number. */
  lemma ParseNatString(n: nat)
    ensures ParseInt(NatString(n)) == Some(n as int)
  {
    NatStringDigits(n);
    ParseDigits(NatString(n));
  }

  /** `parseInt` reads back the text of a negative number. */
  lemma ParseNegativeString(n: int)
    requires n < 0
    ensures ParseInt("-" + NatString(-n)) == Some(n)
  {
    NatStringDigits(-n);
    ParseNegativeDigits(NatString(-n), -n);
  }

  /** `parseInt` reads back what `String` writes for an integer. */
  lemma ParseNumberToString(n: int)
    ensures ParseInt(NumberToString(n)) == Some(n)
  {
    if n < 0 {
      ParseNegativeString(n);
    } else {
      ParseNatString(n);
    }
  }
}
