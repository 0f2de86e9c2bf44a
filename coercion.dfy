/**
 * Lenient coercion of a spreadsheet cell to an integer count:
 * `VacantHouseDataCollector.to_int` in Last/scrape.py.
 *
 * The source removes commas, takes the first match of the regular expression
 * `[-+]?\d*\.?\d+` (`re.search`), converts it with `float` and rounds it with
 * Python's `round` (ties to even); placeholders, NaN and text without a numeral
 * give 0, and so does any exception.
 */
module Coercion {
  import opened Wrappers
  import opened PyText

  /** A spreadsheet cell as pandas hands it over: None for NaN, otherwise its `str()` text. */
  type Cell = Option<string>

  /** `str(cell)`: NaN prints as "nan". */
  function CellText(c: Cell): string {
    match c
    case None => "nan"
    case Some(s) => s
  }

  predicate IsSign(c: char) {
    c == '-' || c == '+'
  }

  /** The text after an optional leading sign. */
  function Unsigned(t: string): string {
    if t != [] && IsSign(t[0]) then t[1..] else t
  }

  /** `u` is digits, a dot at position `p`, and at least one digit after it. */
  predicate DotAt(u: string, p: int) {
    0 <= p < |u| - 1 && u[p] == '.' && AllDigits(u[..p]) && AllDigits(u[p + 1..])
  }

  /** Text that `[-+]?\d*\.?\d+` matches in full: an optional sign, then either digits, or
      digits, a dot and at least one digit. */
  ghost predicate InPattern(t: string) {
    var u := Unsigned(t);
    (u != [] && AllDigits(u)) || (exists p :: DotAt(u, p))
  }

  /** A numeral as the pattern splits it: sign ("", "+" or "-"), integer digits, fraction digits. */
  datatype Numeral = Numeral(sign: string, whole: string, fraction: string)

  predicate WellFormed(n: Numeral) {
    && (n.sign == "" || n.sign == "+" || n.sign == "-")
    && AllDigits(n.whole) && AllDigits(n.fraction)
    && n.whole + n.fraction != ""
  }

  /** The text of a numeral. */
  function Spell(n: Numeral): string {
    n.sign + n.whole + (if n.fraction == "" then "" else "." + n.fraction)
  }

  /** One match of the pattern: the positions it spans and the numeral it spells. */
  datatype Match = Match(start: nat, end: nat, numeral: Numeral)

  /** The end of the run of digits that starts at `j`. */
  function DigitRunEnd(s: string, j: nat): (k: nat)
    requires j <= |s|
    ensures j <= k <= |s|
    ensures forall t :: j <= t < k ==> IsDigit(s[t])
    ensures k == |s| || !IsDigit(s[k])
    decreases |s| - j
  {
    if j < |s| && IsDigit(s[j]) then DigitRunEnd(s, j + 1) else j
  }

  /** A digit run reaches at least as far as any stretch of digits that starts where it does. */
  lemma RunCovers(s: string, j: nat, e: nat)
    requires j <= e <= |s|
    requires forall t :: j <= t < e ==> IsDigit(s[t])
    ensures DigitRunEnd(s, j) >= e
  {
  }

  /** The match Python's backtracking engine settles on when it tries `[-+]?\d*\.?\d+` at
      position `i`: the sign if there is one, the run of digits, then a dot and the following
      digits if at least one digit follows the dot, and otherwise the digit run alone. */
  function MatchAt(s: string, i: nat): (r: Option<Match>)
    requires i <= |s|
    ensures r.Some? ==>
      && r.value.start == i && i < r.value.end <= |s|
      && WellFormed(r.value.numeral)
      && s[i..r.value.end] == Spell(r.value.numeral)
      && (r.value.numeral.sign == "-" <==> s[i] == '-')
  {
    var j := SignEnd(s, i);
    var sign := s[i..j];
    var k := DigitRunEnd(s, j);
    if k + 1 < |s| && s[k] == '.' && IsDigit(s[k + 1]) then
      var m := DigitRunEnd(s, k + 1);
      SpellDotted(s, i, j, k, m);
      Some(Match(i, m, Numeral(sign, s[j..k], s[k + 1..m])))
    else if j < k then
      SpellPlain(s, i, j, k);
      Some(Match(i, k, Numeral(sign, s[j..k], "")))
    else None
  }

  lemma SpellPlain(s: string, i: nat, j: nat, k: nat)
    requires i <= j <= k <= |s|
    ensures s[i..k] == s[i..j] + s[j..k] + ""
  {
    assert s[i..k] == s[i..j] + s[j..k];
  }

  lemma SpellDotted(s: string, i: nat, j: nat, k: nat, m: nat)
    requires i <= j <= k < m <= |s| && s[k] == '.'
    ensures s[i..m] == s[i..j] + s[j..k] + ("." + s[k + 1..m])
  {
    assert s[k..m] == "." + s[k + 1..m];
    assert s[i..m] == s[i..k] + s[k..m];
    assert s[i..k] == s[i..j] + s[j..k];
  }

  /** A stretch of digits, taken as a slice. */
  lemma DigitsSlice(s: string, a: nat, b: nat)
    requires a <= b <= |s| && forall t :: a <= t < b ==> IsDigit(s[t])
    ensures AllDigits(s[a..b])
  {
    forall x | 0 <= x < b - a ensures IsDigit(s[a..b][x]) { assert s[a..b][x] == s[a + x]; }
  }

  /** The text from `i` with the sign at `i` (if any) removed is the text from `SignEnd`. */
  lemma UnsignedSlice(s: string, i: nat, e: nat)
    requires i <= |s| && SignEnd(s, i) < e <= |s|
    ensures Unsigned(s[i..e]) == s[SignEnd(s, i)..e]
  {
    if SignEnd(s, i) == i + 1 {
      assert s[i..e][1..] == s[i + 1..e];
    }
  }

  /** A sign (or none) and then digits up to `e` is a match of the pattern. */
  lemma PlainInPattern(s: string, i: nat, e: nat)
    requires i <= |s| && SignEnd(s, i) < e <= |s|
    requires forall t :: SignEnd(s, i) <= t < e ==> IsDigit(s[t])
    ensures InPattern(s[i..e])
  {
    UnsignedSlice(s, i, e);
    DigitsSlice(s, SignEnd(s, i), e);
  }

  /** A sign (or none), digits, a dot at `k` and at least one digit up to `e` is a match of
      the pattern. */
  lemma DottedInPattern(s: string, i: nat, k: nat, e: nat)
    requires i <= |s| && SignEnd(s, i) <= k && k + 1 < e <= |s| && s[k] == '.'
    requires forall t :: SignEnd(s, i) <= t < k ==> IsDigit(s[t])
    requires forall t :: k < t < e ==> IsDigit(s[t])
    ensures InPattern(s[i..e])
  {
    var j := SignEnd(s, i);
    UnsignedSlice(s, i, e);
    DigitsSlice(s, j, k);
    DigitsSlice(s, k + 1, e);
    var u := s[j..e];
    assert u[..k - j] == s[j..k] && u[k - j + 1..] == s[k + 1..e];
    assert DotAt(u, k - j);
  }

  /** What `MatchAt` returns is a match of the pattern. */
  lemma MatchAtInPattern(s: string, i: nat)
    requires i <= |s| && MatchAt(s, i).Some?
    ensures InPattern(s[i..MatchAt(s, i).value.end])
  {
    var j := SignEnd(s, i);
    var k := DigitRunEnd(s, j);
    var e := MatchAt(s, i).value.end;
    if k + 1 < |s| && s[k] == '.' && IsDigit(s[k + 1]) {
      assert e == DigitRunEnd(s, k + 1);
      DottedInPattern(s, i, k, e);
    } else {
      assert e == k;
      PlainInPattern(s, i, e);
    }
  }

  /** The position just past the optional sign at `i`. */
  function SignEnd(s: string, i: nat): nat
    requires i <= |s|
  {
    if i < |s| && IsSign(s[i]) then i + 1 else i
  }

  /** Digits on `[j, e)` with `j < e` after the sign: `MatchAt` reaches at least `e`. */
  lemma LongestPlain(s: string, i: nat, e: nat)
    requires i < e <= |s| && SignEnd(s, i) < e
    requires forall x :: SignEnd(s, i) <= x < e ==> IsDigit(s[x])
    ensures MatchAt(s, i).Some? && e <= MatchAt(s, i).value.end
  {
    RunCovers(s, SignEnd(s, i), e);
  }

  /** Digits on `[j, d)`, a dot at `d` and digits on `(d, e)` after the sign: `MatchAt`
      takes the dot and reaches at least `e`. */
  lemma LongestDotted(s: string, i: nat, d: nat, e: nat)
    requires i <= d && d + 1 < e <= |s| && SignEnd(s, i) <= d && s[d] == '.'
    requires forall x :: SignEnd(s, i) <= x < d ==> IsDigit(s[x])
    requires forall x :: d < x < e ==> IsDigit(s[x])
    ensures MatchAt(s, i).Some? && e <= MatchAt(s, i).value.end
  {
    RunCovers(s, SignEnd(s, i), d);
    assert DigitRunEnd(s, SignEnd(s, i)) == d;
    RunCovers(s, d + 1, e);
  }

  lemma LongestFromDigits(s: string, i: nat, e: nat)
    requires i < e <= |s| && SignEnd(s, i) < e && AllDigits(s[SignEnd(s, i)..e])
    ensures MatchAt(s, i).Some? && e <= MatchAt(s, i).value.end
  {
    var j := SignEnd(s, i);
    var u := s[j..e];
    forall x | j <= x < e ensures IsDigit(s[x]) { assert s[x] == u[x - j]; }
    LongestPlain(s, i, e);
  }

  lemma LongestFromDot(s: string, i: nat, e: nat, p: int)
    requires i < e <= |s| && SignEnd(s, i) <= e && DotAt(s[SignEnd(s, i)..e], p)
    ensures MatchAt(s, i).Some? && e <= MatchAt(s, i).value.end
  {
    var j := SignEnd(s, i);
    var u := s[j..e];
    forall x | j <= x < j + p ensures IsDigit(s[x]) { assert s[x] == u[..p][x - j]; }
    forall x | j + p < x < e ensures IsDigit(s[x]) { assert s[x] == u[p + 1..][x - j - p - 1]; }
    LongestDotted(s, i, j + p, e);
  }

  /** No match starting at `i` is longer than the one `MatchAt` returns, and if the pattern
      matches anything at `i` then `MatchAt` finds a match there. */
  lemma LongestMatch(s: string, i: nat, e: nat)
    requires i < e <= |s| && InPattern(s[i..e])
    ensures MatchAt(s, i).Some? && e <= MatchAt(s, i).value.end
  {
    var j := SignEnd(s, i);
    assert Unsigned(s[i..e]) == s[j..e];
    if s[j..e] != [] && AllDigits(s[j..e]) {
      LongestFromDigits(s, i, e);
    } else {
      var p :| DotAt(s[j..e], p);
      LongestFromDot(s, i, e, p);
    }
  }

  /** `re.search` from position `i`: the match at the leftmost position where there is one. */
  function Search(s: string, i: nat): (r: Option<Match>)
    requires i <= |s|
    ensures r.Some? ==> i <= r.value.start < |s| && MatchAt(s, r.value.start) == r
    ensures r.Some? ==> forall t :: i <= t < r.value.start ==> MatchAt(s, t).None?
    ensures r.None? ==> forall t :: i <= t <= |s| ==> MatchAt(s, t).None?
    decreases |s| - i
  {
    if i == |s| then None
    else match MatchAt(s, i)
      case Some(m) => Some(m)
      case None => Search(s, i + 1)
  }

  /** The match `re.search` reports is the leftmost and, at its position, the longest: no
      earlier position starts any match, and no longer match starts at the same position. */
  lemma SearchLeftmostLongest(s: string, m: Match)
    requires Search(s, 0) == Some(m)
    ensures InPattern(s[m.start..m.end])
    ensures forall t, e :: 0 <= t < m.start && t < e <= |s| ==> !InPattern(s[t..e])
    ensures forall e :: m.end < e <= |s| ==> !InPattern(s[m.start..e])
  {
    MatchAtInPattern(s, m.start);
    forall t, e | 0 <= t < m.start && t < e <= |s|
      ensures !InPattern(s[t..e])
    {
      if InPattern(s[t..e]) { LongestMatch(s, t, e); }
    }
    forall e | m.end < e <= |s|
      ensures !InPattern(s[m.start..e])
    {
      if InPattern(s[m.start..e]) { LongestMatch(s, m.start, e); }
    }
  }

  /** The numeral's value scaled by 10^(number of fraction digits): value == Scaled / Scale. */
  function Scaled(n: Numeral): int
    requires WellFormed(n)
  {
    var x := DigitsValue(n.whole) * Pow10(|n.fraction|) + DigitsValue(n.fraction);
    if n.sign == "-" then -x else x
  }

  function Abs(x: int): nat {
    if x < 0 then -x else x
  }

  /** `int(round(float(numeral)))`: the nearest integer, ties to the even neighbour. */
  function RoundHalfEven(n: Numeral): int
    requires WellFormed(n)
  {
    var w := DigitsValue(n.whole);
    var f := DigitsValue(n.fraction);
    var m: int := RoundMagnitude(w, f, Pow10(|n.fraction|));
    if n.sign == "-" then -m else m
  }

  /** The magnitude `round` picks for `w + f / p` with `0 <= f < p`. */
  function RoundMagnitude(w: nat, f: nat, p: nat): nat {
    if 2 * f < p then w else if 2 * f > p then w + 1 else if w % 2 == 0 then w else w + 1
  }

  lemma RoundMagnitudeIsNearestEven(w: nat, f: nat, p: nat)
    requires f < p
    ensures var m := RoundMagnitude(w, f, p);
      && 2 * Abs(m * p - (w * p + f)) <= p
      && (2 * Abs(m * p - (w * p + f)) == p ==> m % 2 == 0)
  {
    var m: int := RoundMagnitude(w, f, p);
    var wi: int := w;
    var fi: int := f;
    if m == w {
      assert m * p - (wi * p + fi) == -fi;
    } else {
      assert m * p == wi * p + p;
      assert m * p - (wi * p + fi) == p - fi;
    }
  }

  /** Negating both the candidate and the value keeps their distance and the candidate's parity. */
  lemma NegatedDistance(m: int, p: int, x: int)
    ensures Abs(-m * p - -x) == Abs(m * p - x)
    ensures (-m) % 2 == 0 <==> m % 2 == 0
  {
    assert -m * p - -x == -(m * p - x);
    if m % 2 == 0 {
      assert -m == 2 * -(m / 2);
    } else {
      assert -m == 2 * (-(m / 2) - 1) + 1;
    }
  }

  /** The rounded value is within half of the numeral's value, and even on a tie; this
      determines it uniquely. */
  lemma RoundIsNearestEven(n: Numeral)
    requires WellFormed(n)
    ensures var r := RoundHalfEven(n); var p := Pow10(|n.fraction|);
      && 2 * Abs(r * p - Scaled(n)) <= p
      && (2 * Abs(r * p - Scaled(n)) == p ==> r % 2 == 0)
  {
    var w := DigitsValue(n.whole);
    var f := DigitsValue(n.fraction);
    var p := Pow10(|n.fraction|);
    var m: int := RoundMagnitude(w, f, p);
    RoundMagnitudeIsNearestEven(w, f, p);
    var x: int := w * p + f;
    var r := RoundHalfEven(n);
    if n.sign == "-" {
      assert r == -m && Scaled(n) == -x;
      NegatedDistance(m, p, x);
      assert r * p - Scaled(n) == -m * p - -x;
    } else {
      assert r == m && Scaled(n) == x;
    }
  }

  /** The cell text after `.replace(',', '').strip()`. */
  function Cleaned(v: string): string {
    Strip(RemoveChar(v, ','))
  }

  /** The value of the first numeral of a cleaned text, rounded half to even, or 0 when
      there is none. */
  function FirstNumeralValue(t: string): (r: int)
    ensures Search(t, 0).None? ==> r == 0
    ensures Search(t, 0).Some? ==> r == RoundHalfEven(Search(t, 0).value.numeral)
  {
    match Search(t, 0)
    case None => 0
    case Some(m) => RoundHalfEven(m.numeral)
  }

  /** `to_int(val)`: NaN and the placeholders "-", "..." and "" give 0; otherwise the first
      numeral of the comma-free text, rounded half to even, or 0 when there is none. */
  function ToInt(c: Cell): (r: int)
    ensures c.None? || c.value == "-" || c.value == "..." || c.value == "" ==> r == 0
    ensures c.Some? && Search(Cleaned(c.value), 0).None? ==> r == 0
    ensures c.Some? && c.value != "-" && c.value != "..." && c.value != "" && Search(Cleaned(c.value), 0).Some? ==>
      r == RoundHalfEven(Search(Cleaned(c.value), 0).value.numeral)
  {
    match c
    case None => 0
    case Some(v) => if v == "-" || v == "..." || v == "" then 0 else FirstNumeralValue(Cleaned(v))
  }

  /** A text without any digit coerces to 0: every match of the pattern holds a digit. */
  lemma ToIntWithoutDigitsIsZero(v: string)
    requires forall k :: 0 <= k < |v| ==> !IsDigit(v[k])
    ensures ToInt(Some(v)) == 0
  {
    var s := Cleaned(v);
    var r := RemoveChar(v, ',');
    RemoveCharKeeps(v, ',');
    assert forall k :: 0 <= k < |s| ==> s[k] in r;
    assert forall k :: 0 <= k < |s| ==> !IsDigit(s[k]);
  }

  /** A cell that is an optional minus sign followed by digits matches in full. */
  lemma MatchWhole(s: string, j: nat)
    requires j < |s| && (j == 0 || (j == 1 && s[0] == '-'))
    requires forall x :: j <= x < |s| ==> IsDigit(s[x])
    ensures Search(s, 0) == Some(Match(0, |s|, Numeral(s[..j], s[j..], "")))
  {
    RunCovers(s, j, |s|);
    assert SignEnd(s, 0) == j;
    assert DigitRunEnd(s, j) == |s|;
    var r := MatchAt(s, 0);
    assert r.Some?;
    assert r.value.end == |s|;
    assert r.value.numeral.sign == s[..j];
    assert r.value.numeral.whole == s[j..];
    assert r.value.numeral.fraction == "";
  }

  /** An optional minus sign before digits has no comma and no surrounding whitespace, so
      cleaning leaves it as is. */
  lemma CleanedSignedDigits(sign: string, d: string)
    requires sign == "" || sign == "-"
    requires d != [] && AllDigits(d)
    ensures Cleaned(sign + d) == sign + d
  {
    var s := sign + d;
    assert ',' !in s by {
      forall k | 0 <= k < |s| ensures s[k] != ',' {
        if k >= |sign| { assert s[k] == d[k - |sign|]; }
      }
    }
    assert RemoveChar(s, ',') == s;
    assert s[0] == '-' || s[0] == d[0];
    assert s[|s| - 1] == d[|d| - 1];
    StripUnchanged(s);
  }

  /** A numeral without fraction digits rounds to its own value. */
  lemma RoundWhole(sign: string, whole: string)
    requires WellFormed(Numeral(sign, whole, ""))
    ensures var v: int := DigitsValue(whole); RoundHalfEven(Numeral(sign, whole, "")) == if sign == "-" then -v else v
  {
    assert Pow10(0) == 1 && DigitsValue("") == 0;
  }

  /** An optional minus sign followed by digits is matched whole and rounds to its value. */
  lemma WholeNumeral(sign: string, d: string)
    requires sign == "" || sign == "-"
    requires d != [] && AllDigits(d)
    ensures Search(sign + d, 0) == Some(Match(0, |sign + d|, Numeral(sign, d, "")))
    ensures var v: int := DigitsValue(d); RoundHalfEven(Numeral(sign, d, "")) == if sign == "-" then -v else v
  {
    var s := sign + d;
    var j := |sign|;
    assert s[..j] == sign && s[j..] == d;
    forall x | j <= x < |s| ensures IsDigit(s[x]) { assert s[x] == d[x - j]; }
    MatchWhole(s, j);
    RoundWhole(sign, d);
  }

  /** A text ending in a digit is none of the placeholders. */
  lemma NotPlaceholder(v: string)
    requires |v| > 0 && IsDigit(v[|v| - 1])
    ensures v != "-" && v != "..." && v != ""
  {
    assert "..."[2] == '.' && "-"[0] == '-';
  }

  /** A text other than a placeholder that cleaning leaves as is coerces to its first numeral. */
  lemma ToIntOfCleanText(v: string)
    requires Cleaned(v) == v && v != "-" && v != "..." && v != ""
    ensures ToInt(Some(v)) == FirstNumeralValue(v)
  {
  }

  /** A cell holding an optional minus sign before digits coerces to their signed value. */
  lemma ToIntOfSignedDigits(sign: string, d: string)
    requires sign == "" || sign == "-"
    requires d != [] && AllDigits(d)
    ensures var v: int := DigitsValue(d); ToInt(Some(sign + d)) == if sign == "-" then -v else v
  {
    var s := sign + d;
    WholeNumeral(sign, d);
    CleanedSignedDigits(sign, d);
    assert s[|s| - 1] == d[|d| - 1];
    NotPlaceholder(s);
    ToIntOfCleanText(s);
  }

  /** Taking the commas out of digit groups leaves a non-empty digit string, and cleaning a
      signed group text gives the sign before those digits. */
  lemma CleanedGroupedDigits(sign: string, g: string)
    requires sign == "" || sign == "-"
    requires forall k :: 0 <= k < |g| ==> IsDigit(g[k]) || g[k] == ','
    requires exists k :: 0 <= k < |g| && IsDigit(g[k])
    ensures RemoveChar(g, ',') != [] && AllDigits(RemoveChar(g, ','))
    ensures Cleaned(sign + g) == sign + RemoveChar(g, ',')
  {
    var d := RemoveChar(g, ',');
    var k :| 0 <= k < |g| && IsDigit(g[k]);
    RemoveCharKeepsOthers(g, ',', g[k]);
    RemoveSeparators(g, ',');
    assert ',' !in sign;
    RemoveCharAppend(sign, g, ',');
    CleanedSignedDigits(sign, d);
  }

  /** A text holding a digit is none of the placeholders. */
  lemma HasDigitNotPlaceholder(v: string, k: nat)
    requires k < |v| && IsDigit(v[k])
    ensures v != "-" && v != "..." && v != ""
  {
  }

  /** Digits in groups separated by commas, with an optional minus sign, coerce to the value
      of the digits with the commas taken out: "1,234" is 1234 and "-12,000" is -12000. */
  lemma ToIntOfGroupedDigits(sign: string, g: string)
    requires sign == "" || sign == "-"
    requires forall k :: 0 <= k < |g| ==> IsDigit(g[k]) || g[k] == ','
    requires exists k :: 0 <= k < |g| && IsDigit(g[k])
    ensures var d := RemoveChar(g, ',');
      && d != [] && AllDigits(d)
      && ToInt(Some(sign + g)) == if sign == "-" then -(DigitsValue(d) as int) else DigitsValue(d)
  {
    var d := RemoveChar(g, ',');
    CleanedGroupedDigits(sign, g);
    var k :| 0 <= k < |g| && IsDigit(g[k]);
    var v := sign + g;
    assert v[|sign| + k] == g[k];
    HasDigitNotPlaceholder(v, |sign| + k);
    WholeNumeral(sign, d);
    assert ToInt(Some(v)) == FirstNumeralValue(sign + d);
  }

  /** The thousands separator of the survey tables: "1,234" coerces to 1234. */
  lemma ToIntOfThousands()
    ensures ToInt(Some("1,234")) == 1234
  {
    var g := "1,234";
    assert forall k :: 0 <= k < |g| ==> IsDigit(g[k]) || g[k] == ',';
    assert IsDigit(g[0]);
    ToIntOfGroupedDigits("", g);
    assert "" + g == g;
    ThousandsDigits();
    DigitsValueOf1234();
  }

  lemma ThousandsDigits()
    ensures RemoveChar("1,234", ',') == "1234"
  {
    assert "1,234" == ("1" + ",") + "234";
    RemoveCharAppend("1" + ",", "234", ',');
    RemoveCharAppend("1", ",", ',');
  }

  lemma DigitsValueOf1234()
    ensures AllDigits("1234") && DigitsValue("1234") == 1234
  {
    assert "1234"[..3] == "123" && "123"[..2] == "12" && "12"[..1] == "1" && "1"[..0] == "";
  }

  /** Coercing the text `str(n)` of any integer gives `n` back; negative values stay negative. */
  lemma ToIntOfIntToString(n: int)
    ensures ToInt(Some(IntToString(n))) == n
  {
    var mag: nat := if n < 0 then -n else n;
    var sign := if n < 0 then "-" else "";
    var d := NatToDigits(mag);
    assert IntToString(n) == sign + d;
    ToIntOfSignedDigits(sign, d);
    DigitsRoundTrip(mag);
  }
}
