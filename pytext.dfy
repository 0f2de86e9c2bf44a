/**
 * The Python string built-ins the ingestion core and the weather app rely on
 * (`strip`, `in`, `startswith`, `" ".join`, `zfill`, `split`, `lower`, `str(int)`,
 * `int(str)`), over `string`, a sequence of Unicode scalar values.
 */
module PyText {
  import opened Wrappers

  /** The characters Python's `str.strip()` removes (those for which `str.isspace()` holds). */
  predicate IsSpace(c: char) {
    var k := c as int;
    (0x09 <= k <= 0x0D) || (0x1C <= k <= 0x20) || k == 0x85 || k == 0xA0 || k == 0x1680
    || (0x2000 <= k <= 0x200A) || k == 0x2028 || k == 0x2029 || k == 0x202F || k == 0x205F
    || k == 0x3000
  }

  /** The end of the run of whitespace that starts at `i`. */
  function SpaceRunEnd(s: string, i: nat): (j: nat)
    requires i <= |s|
    ensures i <= j <= |s|
    ensures forall k :: i <= k < j ==> IsSpace(s[k])
    ensures j == |s| || !IsSpace(s[j])
    decreases |s| - i
  {
    if i < |s| && IsSpace(s[i]) then SpaceRunEnd(s, i + 1) else i
  }

  /** The start of the run of whitespace that ends at `j`. */
  function SpaceRunStart(s: string, j: nat): (i: nat)
    requires j <= |s|
    ensures i <= j
    ensures forall k :: i <= k < j ==> IsSpace(s[k])
    ensures i == 0 || !IsSpace(s[i - 1])
  {
    if 0 < j && IsSpace(s[j - 1]) then SpaceRunStart(s, j - 1) else j
  }

  /** `s.strip()`: the slice of `s` between its leading and its trailing whitespace, itself
      neither starting nor ending with whitespace (empty when `s` is all whitespace). */
  function Strip(s: string): (r: string)
    ensures var a := SpaceRunEnd(s, 0); a + |r| <= |s| && r == s[a..a + |r|]
    ensures var a := SpaceRunEnd(s, 0); a + |r| < |s| ==> SpaceRunStart(s, |s|) == a + |r|
    ensures r != [] ==> !IsSpace(r[0]) && !IsSpace(r[|r| - 1])
  {
    var a := SpaceRunEnd(s, 0);
    var b := SpaceRunStart(s, |s|);
    if a < b then s[a..b] else []
  }

  /** `s.startswith(prefix)`. */
  predicate StartsWith(s: string, prefix: string) {
    |prefix| <= |s| && s[..|prefix|] == prefix
  }

  /** `sub in s`: `sub` occurs in `s` at some position. */
  predicate Contains(s: string, sub: string)
    decreases |s|
  {
    StartsWith(s, sub) || (s != [] && Contains(s[1..], sub))
  }

  /** `" ".join(parts)`. */
  function JoinSpace(parts: seq<string>): string
    decreases |parts|
  {
    if parts == [] then ""
    else if |parts| == 1 then parts[0]
    else parts[0] + " " + JoinSpace(parts[1..])
  }

  /** A space between two texts cannot be part of an occurrence of a space-free `m`. */
  lemma {:induction false} ContainsAcrossSpace(a: string, b: string, m: string)
    requires m != [] && ' ' !in m
    ensures Contains(a + " " + b, m) <==> Contains(a, m) || Contains(b, m)
    decreases |a|
  {
    var s := a + " " + b;
    if a == [] {
      assert s[1..] == b;
      assert s[0] == ' ';
    } else {
      assert s[1..] == a[1..] + " " + b;
      ContainsAcrossSpace(a[1..], b, m);
      if |m| <= |a| {
        assert s[..|m|] == a[..|m|];
      } else {
        assert s[|a|] == ' ';
      }
    }
  }

  /** The joined text of a row contains a space-free marker exactly when one of its cells does:
      joining with single spaces never manufactures a marker across a cell boundary. */
  lemma {:induction false} JoinContains(parts: seq<string>, m: string)
    requires m != [] && ' ' !in m
    ensures Contains(JoinSpace(parts), m) <==> exists k :: 0 <= k < |parts| && Contains(parts[k], m)
    decreases |parts|
  {
    if parts == [] {
      assert !Contains("", m);
    } else if |parts| == 1 {
    } else {
      JoinContains(parts[1..], m);
      ContainsAcrossSpace(parts[0], JoinSpace(parts[1..]), m);
      if exists k :: 0 <= k < |parts| && Contains(parts[k], m) {
        var k :| 0 <= k < |parts| && Contains(parts[k], m);
        if k > 0 { assert parts[1..][k - 1] == parts[k]; }
      }
    }
  }

  /** A text occurs in any text built around it. */
  lemma {:induction false} ContainsInfix(a: string, m: string, b: string)
    ensures Contains(a + m + b, m)
    decreases |a|
  {
    var s := a + m + b;
    if a == [] {
      assert s[..|m|] == m;
    } else {
      ContainsInfix(a[1..], m, b);
      assert s[1..] == a[1..] + m + b;
    }
  }

  /** A run of `n` zero digits. */
  function Zeros(n: nat): (r: string)
    ensures |r| == n && forall k :: 0 <= k < n ==> r[k] == '0'
  {
    seq(n, _ => '0')
  }

  /** `s.zfill(width)`: left-pad with '0' up to `width` characters, keeping a leading sign first. */
  function ZFill(s: string, width: nat): (r: string)
    ensures |r| == if |s| >= width then |s| else width
    ensures (s == [] || (s[0] != '+' && s[0] != '-')) ==>
      && r[|r| - |s|..] == s
      && forall k :: 0 <= k < |r| - |s| ==> r[k] == '0'
  {
    if |s| >= width then s
    else if s != [] && (s[0] == '+' || s[0] == '-') then [s[0]] + Zeros(width - |s|) + s[1..]
    else Zeros(width - |s|) + s
  }

  /** `s.find(c)` as an option: the first index of `c` in `s`. */
  function IndexOf(s: string, c: char): (r: Option<nat>)
    ensures r.Some? ==> r.value < |s| && s[r.value] == c && forall k :: 0 <= k < r.value ==> s[k] != c
    ensures r.None? ==> c !in s
  {
    if s == [] then None
    else if s[0] == c then Some(0)
    else match IndexOf(s[1..], c)
      case None => None
      case Some(k) => Some(k + 1)
  }

  /** `s.split(sep, 1)` when `sep` occurs: the text before the first `sep` and the text after it. */
  function SplitOnce(s: string, sep: char): (r: (string, string))
    requires sep in s
    ensures sep !in r.0 && s == r.0 + [sep] + r.1
  {
    var i := IndexOf(s, sep).value;
    (s[..i], s[i + 1..])
  }

  /** `s.split(sep)[0]`: the text before the first `sep`, or all of `s`. */
  function Before(s: string, sep: char): (r: string)
    ensures sep !in r && StartsWith(s, r)
    ensures sep in s ==> s[|r|] == sep
    ensures sep !in s ==> r == s
  {
    match IndexOf(s, sep)
    case None => s
    case Some(i) => s[..i]
  }

  /** Every occurrence of `c` removed (`s.replace(c, '')`). */
  function RemoveChar(s: string, c: char): (r: string)
    ensures c !in r && |r| <= |s|
    ensures c !in s ==> r == s
    ensures |s| == 1 && s[0] == c ==> r == []
  {
    if s == [] then []
    else if s[0] == c then RemoveChar(s[1..], c)
    else [s[0]] + RemoveChar(s[1..], c)
  }

  /** Removal works piece by piece: removing from a concatenation is removing from each part.
      With the one-character cases above, this fixes `RemoveChar` on every text. */
  lemma {:induction false} RemoveCharAppend(a: string, b: string, c: char)
    ensures RemoveChar(a + b, c) == RemoveChar(a, c) + RemoveChar(b, c)
    decreases |a|
  {
    if a != [] {
      assert (a + b)[0] == a[0] && (a + b)[1..] == a[1..] + b;
      RemoveCharAppend(a[1..], b, c);
    } else {
      assert a + b == b;
    }
  }

  /** Every character other than the removed one survives. */
  lemma {:induction false} RemoveCharKeepsOthers(s: string, c: char, x: char)
    requires x in s && x != c
    ensures x in RemoveChar(s, c)
    decreases |s|
  {
    if s[0] != x {
      assert x in s[1..];
      RemoveCharKeepsOthers(s[1..], c, x);
    }
  }

  /** Removing the separator from digits and separators leaves digits only. */
  lemma {:induction false} RemoveSeparators(s: string, c: char)
    requires forall k :: 0 <= k < |s| ==> IsDigit(s[k]) || s[k] == c
    ensures AllDigits(RemoveChar(s, c))
  {
    if s != [] {
      RemoveSeparators(s[1..], c);
    }
  }

  /** Removing a character adds no new one. */
  lemma {:induction false} RemoveCharKeeps(s: string, c: char)
    ensures forall k :: 0 <= k < |RemoveChar(s, c)| ==> RemoveChar(s, c)[k] in s
  {
    if s != [] {
      RemoveCharKeeps(s[1..], c);
      var r := RemoveChar(s, c);
      var t := RemoveChar(s[1..], c);
      forall k | 0 <= k < |r| ensures r[k] in s {
        if s[0] == c {
          assert r[k] == t[k] && t[k] in s[1..];
        } else if k > 0 {
          assert r[k] == t[k - 1] && t[k - 1] in s[1..];
        }
      }
    }
  }

  /** ASCII lower-casing of one character. */
  function LowerChar(c: char): char {
    if 'A' <= c <= 'Z' then (c as int + 32) as char else c
  }

  /** `s.lower()` on the ASCII letters. */
  function Lower(s: string): (r: string)
    ensures |r| == |s| && forall k :: 0 <= k < |s| ==> r[k] == LowerChar(s[k])
  {
    seq(|s|, k requires 0 <= k < |s| => LowerChar(s[k]))
  }

  predicate IsDigit(c: char) {
    '0' <= c <= '9'
  }

  predicate AllDigits(s: string) {
    forall k :: 0 <= k < |s| ==> IsDigit(s[k])
  }

  function DigitValue(c: char): (d: nat)
    requires IsDigit(c)
    ensures d < 10
  {
    (c as int) - ('0' as int)
  }

  function DigitChar(d: nat): (c: char)
    requires d < 10
    ensures IsDigit(c) && DigitValue(c) == d
  {
    ('0' as int + d) as char
  }

  function Pow10(n: nat): (p: nat)
    ensures p >= 1
  {
    if n == 0 then 1 else 10 * Pow10(n - 1)
  }

  /** The value of a decimal digit string, most significant digit first. */
  function DigitsValue(s: string): (v: nat)
    requires AllDigits(s)
    ensures v < Pow10(|s|)
  {
    if s == [] then 0
    else
      var pre := DigitsValue(s[..|s| - 1]);
      assert pre <= Pow10(|s| - 1) - 1;
      pre * 10 + DigitValue(s[|s| - 1])
  }

  /** The decimal digits of `n` without leading zeros (`str(n)` for `n >= 0`). */
  function NatToDigits(n: nat): (s: string)
    ensures |s| >= 1 && AllDigits(s)
  {
    if n < 10 then [DigitChar(n)] else NatToDigits(n / 10) + [DigitChar(n % 10)]
  }

  /** Reading back the digits of `n` gives `n`. */
  lemma {:induction false} DigitsRoundTrip(n: nat)
    ensures DigitsValue(NatToDigits(n)) == n
  {
    if n >= 10 {
      DigitsRoundTrip(n / 10);
      var s := NatToDigits(n);
      assert s[..|s| - 1] == NatToDigits(n / 10);
    }
  }

  /** Python's `str(n)` for an int: a minus sign before the digits of a negative number. */
  function IntToString(n: int): (s: string)
    ensures |s| >= 1
    ensures n < 0 ==> s[0] == '-' && s[1..] == NatToDigits(-n)
    ensures n >= 0 ==> s == NatToDigits(n)
  {
    if n < 0 then "-" + NatToDigits(-n) else NatToDigits(n)
  }

  /** The body of an integer literal as `int()` accepts it: digits, with single underscores
      allowed between two digits. */
  predicate IsIntBody(b: string) {
    && |b| > 0 && IsDigit(b[0]) && IsDigit(b[|b| - 1])
    && (forall k :: 0 <= k < |b| ==> IsDigit(b[k]) || b[k] == '_')
    && (forall i, j :: 0 <= i < |b| && 0 <= j < |b| && j == i + 1 ==> !(b[i] == '_' && b[j] == '_'))
  }

  /** The value of a literal body: its digits read with the underscores removed. */
  function BodyValue(b: string): nat
    requires IsIntBody(b)
  {
    RemoveSeparators(b, '_');
    DigitsValue(RemoveChar(b, '_'))
  }

  /** Python's `int(s)` in base 10: None where it raises ValueError. */
  function PyInt(s: string): (r: Option<int>)
  {
    SignedIntLiteral(Strip(s))
  }

  /** An optionally signed integer literal with nothing around it: accepted exactly when what
      follows the sign is a literal body, and then worth that body's digits, negated after a
      minus sign. */
  function SignedIntLiteral(t: string): (r: Option<int>)
    ensures r.Some? ==> t != [] && IsDigit(t[|t| - 1])
    ensures t == [] ==> r.None?
    ensures t != [] && t[0] != '-' && t[0] != '+' ==>
      && (r.Some? <==> IsIntBody(t))
      && (r.Some? ==> r.value == BodyValue(t))
    ensures t != [] && t[0] == '+' ==>
      && (r.Some? <==> IsIntBody(t[1..]))
      && (r.Some? ==> r.value == BodyValue(t[1..]))
    ensures t != [] && t[0] == '-' ==>
      && (r.Some? <==> IsIntBody(t[1..]))
      && (r.Some? ==> r.value == -(BodyValue(t[1..]) as int))
  {
    var body := if t != [] && (t[0] == '-' || t[0] == '+') then t[1..] else t;
    if IsIntBody(body) then
      var v: int := BodyValue(body);
      Some(if t[0] == '-' then -v else v)
    else None
  }

  /** Stripping a text that neither starts nor ends with whitespace leaves it unchanged. */
  lemma StripUnchanged(s: string)
    requires s != [] ==> !IsSpace(s[0]) && !IsSpace(s[|s| - 1])
    ensures Strip(s) == s
  {
    if s != [] {
      assert SpaceRunEnd(s, 0) == 0;
      assert SpaceRunStart(s, |s|) == |s|;
    }
  }

  /** Plain digits are a literal body that holds no underscore to remove. */
  lemma DigitsAreIntBody(d: string)
    requires d != [] && AllDigits(d)
    ensures IsIntBody(d) && RemoveChar(d, '_') == d
  {
    assert '_' !in d;
  }

  /** A minus sign (or nothing) before plain digits is a literal of their value. */
  lemma SignedDigitsLiteral(sign: string, d: string)
    requires sign == "" || sign == "-"
    requires d != [] && AllDigits(d)
    ensures var v: int := DigitsValue(d); SignedIntLiteral(sign + d) == Some(if sign == "-" then -v else v)
  {
    DigitsAreIntBody(d);
    var t := sign + d;
    if sign == "" {
      assert t == d && t[0] != '-' && t[0] != '+';
    } else {
      assert t[0] == '-' && t[1..] == d;
    }
  }

  /** `int(str(n)) == n`. */
  lemma PyIntOfIntToString(n: int)
    ensures PyInt(IntToString(n)) == Some(n)
  {
    var s := IntToString(n);
    var m: nat := if n < 0 then -n else n;
    var d := NatToDigits(m);
    var sign := if n < 0 then "-" else "";
    assert s == sign + d;
    assert s[|s| - 1] == d[|d| - 1];
    StripUnchanged(s);
    SignedDigitsLiteral(sign, d);
    DigitsRoundTrip(m);
  }

  /** Lexicographic order by code point: SQLite's BINARY collation on UTF-8 text. */
  predicate TextLe(a: string, b: string)
    decreases |a|
  {
    a == [] || (b != [] && (a[0] < b[0] || (a[0] == b[0] && TextLe(a[1..], b[1..]))))
  }

  lemma {:induction false} TextLeReflexive(a: string)
    ensures TextLe(a, a)
    decreases |a|
  {
    if a != [] {
      TextLeReflexive(a[1..]);
    }
  }

  lemma {:induction false} TextLeTotal(a: string, b: string)
    ensures TextLe(a, b) || TextLe(b, a)
    decreases |a|
  {
    if a != [] && b != [] && a[0] == b[0] {
      TextLeTotal(a[1..], b[1..]);
    }
  }

  lemma {:induction false} TextLeTransitive(a: string, b: string, c: string)
    requires TextLe(a, b) && TextLe(b, c)
    ensures TextLe(a, c)
    decreases |a|
  {
    if a != [] && b != [] && c != [] && a[0] == b[0] == c[0] {
      TextLeTransitive(a[1..], b[1..], c[1..]);
    }
  }
}
