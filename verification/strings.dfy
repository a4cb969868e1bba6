/**
 * The handful of Python `str` operations the planner relies on: whitespace
 * predicates, `strip`, `lower`, `split`, substring search, zero-padded
 * decimal formatting (`f"{n:03d}"`) and `int()` parsing, and code-point
 * ordering of strings as used by `sorted`.
 */
module Strings {
  import opened Wrappers

  /** Python's `str.isspace` for one character. */
  predicate IsSpace(c: char) {
    || c == ' ' || c == '\t' || c == '\n' || c == '\r' || c == '\U{000B}' || c == '\U{000C}'
    || ('\U{001C}' <= c <= '\U{001F}') || c == '\U{0085}' || c == '\U{00A0}' || c == '\U{1680}'
    || ('\U{2000}' <= c <= '\U{200A}') || c == '\U{2028}' || c == '\U{2029}' || c == '\U{202F}'
    || c == '\U{205F}' || c == '\U{3000}'
  }

  predicate AllSpace(s: string) {
    forall i :: 0 <= i < |s| ==> IsSpace(s[i])
  }

  predicate NoSpace(s: string) {
    forall i :: 0 <= i < |s| ==> !IsSpace(s[i])
  }

  /** `s.lstrip()`: the suffix left after dropping leading whitespace. */
  function LStrip(s: string): (r: string)
    ensures |r| <= |s|
  {
    if |s| > 0 && IsSpace(s[0]) then LStrip(s[1..]) else s
  }

  /** `lstrip` keeps a suffix, drops only whitespace, and stops at a non-space. */
  lemma {:induction false} LStripSpec(s: string)
    ensures var r := LStrip(s);
      && r == s[|s| - |r|..] && AllSpace(s[..|s| - |r|]) && (|r| > 0 ==> !IsSpace(r[0]))
  {
    if |s| > 0 && IsSpace(s[0]) {
      LStripSpec(s[1..]);
      var r := LStrip(s);
      assert s[1..][..|s| - 1 - |r|] == s[1..|s| - |r|];
    }
  }

  /** `s.rstrip()`: the prefix left after dropping trailing whitespace. */
  function RStrip(s: string): (r: string)
    ensures |r| <= |s|
  {
    if |s| > 0 && IsSpace(s[|s| - 1]) then RStrip(s[..|s| - 1]) else s
  }

  /** `rstrip` keeps a prefix, drops only whitespace, and stops at a non-space. */
  lemma {:induction false} RStripSpec(s: string)
    ensures var r := RStrip(s);
      && r == s[..|r|] && AllSpace(s[|r|..]) && (|r| > 0 ==> !IsSpace(r[|r| - 1]))
  {
    if |s| > 0 && IsSpace(s[|s| - 1]) {
      RStripSpec(s[..|s| - 1]);
      var r := RStrip(s);
      assert s[..|s| - 1][|r|..] == s[|r|..|s| - 1];
    }
  }

  /** `s.strip()`. */
  function Strip(s: string): string {
    RStrip(LStrip(s))
  }

  /** A string `strip()` leaves alone. */
  predicate Stripped(s: string) {
    |s| == 0 || (!IsSpace(s[0]) && !IsSpace(s[|s| - 1]))
  }

  /** Python truthiness of `s.strip()`: the string has a non-whitespace character. */
  predicate Blank(s: string) {
    AllSpace(s)
  }

  lemma {:induction false} LStripOfNonSpaceStart(s: string)
    requires |s| == 0 || !IsSpace(s[0])
    ensures LStrip(s) == s
  {
  }

  lemma {:induction false} RStripOfNonSpaceEnd(s: string)
    requires |s| == 0 || !IsSpace(s[|s| - 1])
    ensures RStrip(s) == s
  {
  }

  /** `strip` is exactly "drop leading and trailing whitespace": its result is stripped, and
      everything removed was whitespace. */
  lemma StripSpec(s: string)
    ensures Stripped(Strip(s))
    ensures |Strip(s)| == 0 <==> Blank(s)
    ensures exists i, j :: 0 <= i <= j <= |s| && Strip(s) == s[i..j] && AllSpace(s[..i]) && AllSpace(s[j..])
  {
    StripStripped(s);
    StripEmptyIffBlank(s);
    var i, j := StripBounds(s);
  }

  lemma StripStripped(s: string)
    ensures Stripped(Strip(s))
  {
    var l := LStrip(s);
    LStripSpec(s);
    var r := RStrip(l);
    RStripSpec(l);
    assert |r| > 0 ==> r[0] == l[0];
  }

  lemma StripEmptyIffBlank(s: string)
    ensures |Strip(s)| == 0 <==> Blank(s)
  {
    var l := LStrip(s);
    LStripSpec(s);
    RStripSpec(l);
    var i := |s| - |l|;
    assert s[i..] == l;
    assert |l| == 0 ==> s[..i] == s;
    if |l| > 0 {
      assert s[i] == l[0];
    }
  }

  /** The positions `strip` cuts at. */
  lemma StripBounds(s: string) returns (i: nat, j: nat)
    ensures i <= j <= |s| && Strip(s) == s[i..j] && AllSpace(s[..i]) && AllSpace(s[j..])
  {
    var l := LStrip(s);
    LStripSpec(s);
    var r := RStrip(l);
    RStripSpec(l);
    i := |s| - |l|;
    j := i + |r|;
    assert s[i..] == l;
    assert l[|r|..] == s[j..];
    assert r == l[..|r|];
    assert s[i..][..|r|] == s[i..j];
  }

  /** `strip` is idempotent. */
  lemma StripIdempotent(s: string)
    ensures Strip(Strip(s)) == Strip(s)
  {
    StripSpec(s);
    StripOfStripped(Strip(s));
  }

  /** `strip` keeps a leading non-space character in place. */
  lemma StripFirstChar(s: string)
    requires |s| > 0 && !IsSpace(s[0])
    ensures |Strip(s)| > 0 && Strip(s)[0] == s[0]
  {
    LStripOfNonSpaceStart(s);
    var r := RStrip(s);
    RStripSpec(s);
  }

  /** `strip` keeps a prefix that neither starts nor ends with whitespace. */
  lemma StripKeepsPrefix(s: string, p: string)
    requires StartsWith(s, p) && |p| > 0 && !IsSpace(p[0]) && !IsSpace(p[|p| - 1])
    ensures StartsWith(Strip(s), p)
  {
    assert s[0] == p[0];
    LStripOfNonSpaceStart(s);
    var r := RStrip(s);
    RStripSpec(s);
    assert r[..|p|] == s[..|p|];
  }

  /** A text that contains `p + q` contains `p`. */
  lemma {:induction false} ContainsShorter(s: string, p: string, q: string)
    requires Contains(s, p + q)
    ensures Contains(s, p)
    decreases |s|
  {
    if StartsWith(s, p + q) {
      assert s[..|p|] == (p + q)[..|p|];
    } else {
      ContainsShorter(s[1..], p, q);
    }
  }

  /** Lower-casing preserves prefixes. */
  lemma LowerKeepsPrefix(s: string, p: string)
    requires StartsWith(s, p)
    ensures StartsWith(Lower(s), Lower(p))
  {
    assert Lower(s)[..|p|] == Lower(p);
  }

  /** A stripped string is a fixed point of `strip`. */
  lemma StripOfStripped(s: string)
    requires Stripped(s)
    ensures Strip(s) == s
  {
    LStripOfNonSpaceStart(s);
    RStripOfNonSpaceEnd(s);
  }

  /** Python's `str.lower` on ASCII letters; other characters are unchanged. */
  function LowerChar(c: char): char {
    if 'A' <= c <= 'Z' then (c as int + 32) as char else c
  }

  function Lower(s: string): (r: string)
    ensures |r| == |s|
    ensures forall i :: 0 <= i < |s| ==> r[i] == LowerChar(s[i])
  {
    seq(|s|, i requires 0 <= i < |s| => LowerChar(s[i]))
  }

  /** `s.startswith(p)`. */
  predicate StartsWith(s: string, p: string) {
    |p| <= |s| && s[..|p|] == p
  }

  /** `p in s` for strings: `p` occurs as a contiguous substring of `s`. */
  predicate Contains(s: string, p: string)
    decreases |s|
  {
    StartsWith(s, p) || (|s| > 0 && Contains(s[1..], p))
  }

  /** `any(k in t for k in keys)`. */
  predicate ContainsAny(t: string, keys: seq<string>) {
    exists k :: 0 <= k < |keys| && Contains(t, keys[k])
  }

  /** `s.replace(c, d)` for single characters. */
  function ReplaceChar(s: string, c: char, d: char): (r: string)
    ensures |r| == |s|
    ensures forall i :: 0 <= i < |s| ==> r[i] == (if s[i] == c then d else s[i])
  {
    seq(|s|, i requires 0 <= i < |s| => if s[i] == c then d else s[i])
  }

  /** Length of the leading run of non-whitespace characters. */
  function WordLen(s: string): (k: nat)
    ensures k <= |s|
    ensures NoSpace(s[..k])
    ensures k < |s| ==> IsSpace(s[k])
  {
    if |s| == 0 || IsSpace(s[0]) then 0 else 1 + WordLen(s[1..])
  }

  /** Non-empty words without whitespace. */
  predicate Words(r: seq<string>) {
    forall i :: 0 <= i < |r| ==> |r[i]| > 0 && NoSpace(r[i])
  }

  lemma WordsCons(w: string, rest: seq<string>)
    requires |w| > 0 && NoSpace(w) && Words(rest)
    ensures Words([w] + rest)
  {
    forall i | 0 < i < |[w] + rest| ensures ([w] + rest)[i] == rest[i - 1] { }
  }

  /** `s.split()` with no separator: the maximal runs of non-whitespace characters. */
  function Split(s: string): (r: seq<string>)
    ensures Words(r)
    decreases |s|
  {
    var t := LStrip(s);
    LStripSpec(s);
    if |t| == 0 then
      []
    else
      var k := WordLen(t);
      WordsCons(t[..k], Split(t[k..]));
      [t[..k]] + Split(t[k..])
  }

  /** `s.split()` finds no word exactly when `s` is all whitespace. */
  lemma SplitEmptyIffBlank(s: string)
    ensures |Split(s)| == 0 <==> Blank(s)
  {
    var t := LStrip(s);
    LStripSpec(s);
    var i := |s| - |t|;
    assert s[i..] == t;
    assert |t| == 0 ==> s[..i] == s;
    assert |t| > 0 ==> s[i] == t[0];
  }

  /** `sep.join(parts)`. */
  function Join(sep: string, parts: seq<string>): string {
    if |parts| == 0 then ""
    else if |parts| == 1 then parts[0]
    else parts[0] + sep + Join(sep, parts[1..])
  }

  /** `s.split(c, 1)[0]`: the text before the first `c`, or all of `s`. */
  function BeforeFirst(s: string, c: char): (r: string)
    ensures StartsWith(s, r)
    ensures forall i :: 0 <= i < |r| ==> r[i] != c
    ensures |r| < |s| ==> s[|r|] == c
  {
    if |s| == 0 || s[0] == c then "" else [s[0]] + BeforeFirst(s[1..], c)
  }

  predicate HasChar(s: string, c: char) {
    exists i :: 0 <= i < |s| && s[i] == c
  }

  // ---------------------------------------------------------------------------
  // Decimal formatting and parsing
  // ---------------------------------------------------------------------------

  predicate IsDigit(c: char) {
    '0' <= c <= '9'
  }

  predicate AllDigits(s: string) {
    forall i :: 0 <= i < |s| ==> IsDigit(s[i])
  }

  function DigitChar(d: nat): char
    requires d < 10
  {
    ('0' as int + d) as char
  }

  /** Decimal digits of `n` without leading zeros (`"0"` for zero). */
  function Digits(n: nat): (r: string)
    ensures |r| > 0 && AllDigits(r)
  {
    if n < 10 then [DigitChar(n)] else Digits(n / 10) + [DigitChar(n % 10)]
  }

  /** `f"{n:0{width}d}"` for a natural `n`: its digits, left-padded with zeros to `width`. */
  function PadNat(n: nat, width: nat): (r: string)
    ensures AllDigits(r)
    ensures |r| >= width
  {
    var d := Digits(n);
    if |d| >= width then d else seq(width - |d|, _ => '0') + d
  }

  /** Python `str(i)` for an integer. */
  function IntToString(i: int): string {
    if i < 0 then "-" + Digits(-i) else Digits(i)
  }

  /** The value of a string of decimal digits, most significant first. */
  function DigitsValue(s: string): nat
    requires AllDigits(s)
  {
    if |s| == 0 then 0 else 10 * DigitsValue(s[..|s| - 1]) + (s[|s| - 1] as int - '0' as int)
  }

  lemma {:induction false} DigitsRoundTrip(n: nat)
    ensures DigitsValue(Digits(n)) == n
  {
    if n >= 10 {
      var d := Digits(n);
      assert d[..|d| - 1] == Digits(n / 10);
      DigitsRoundTrip(n / 10);
    }
  }

  lemma {:induction false} LeadingZerosValue(z: nat, s: string)
    requires AllDigits(s)
    ensures AllDigits(seq(z, _ => '0') + s)
    ensures DigitsValue(seq(z, _ => '0') + s) == DigitsValue(s)
    decreases |s|
  {
    var p := seq(z, _ => '0') + s;
    if |s| == 0 {
      ZerosValue(z);
      assert p == seq(z, _ => '0');
    } else {
      assert p[..|p| - 1] == seq(z, _ => '0') + s[..|s| - 1];
      LeadingZerosValue(z, s[..|s| - 1]);
    }
  }

  lemma {:induction false} ZerosValue(z: nat)
    ensures DigitsValue(seq(z, _ => '0')) == 0
  {
    if z > 0 {
      assert seq(z, _ => '0')[..z - 1] == seq(z - 1, _ => '0');
      ZerosValue(z - 1);
    }
  }

  /** Zero-padded formatting reads back as the number it formats. */
  lemma PadNatRoundTrip(n: nat, width: nat)
    ensures DigitsValue(PadNat(n, width)) == n
  {
    DigitsRoundTrip(n);
    var d := Digits(n);
    if |d| < width {
      LeadingZerosValue(width - |d|, d);
    }
  }

  /** Distinct numbers format to distinct strings, so generated ids never collide. */
  lemma PadNatInjective(a: nat, b: nat, width: nat)
    requires PadNat(a, width) == PadNat(b, width)
    ensures a == b
  {
    PadNatRoundTrip(a, width);
    PadNatRoundTrip(b, width);
  }

  /** The string without its underscores. */
  function DropUnderscores(s: string): (r: string)
    ensures |r| <= |s|
    ensures (forall i :: 0 <= i < |s| ==> IsDigit(s[i]) || s[i] == '_') ==> AllDigits(r)
    ensures (forall i :: 0 <= i < |s| ==> s[i] != '_') ==> r == s
    ensures |s| > 0 && s[0] != '_' ==> |r| > 0
  {
    if |s| == 0 then [] else (if s[0] == '_' then [] else [s[0]]) + DropUnderscores(s[1..])
  }

  /** The digit part `int()` accepts: ASCII digits, single underscores allowed between
      two digits. */
  predicate UnderscoredDigits(s: string) {
    && |s| > 0 && IsDigit(s[0]) && IsDigit(s[|s| - 1])
    && (forall i :: 0 <= i < |s| ==> IsDigit(s[i]) || s[i] == '_')
    && (forall i :: 0 <= i < |s| - 1 ==> s[i] == '_' ==> s[i + 1] != '_')
  }

  /** Python `int(s)` for a string: optional surrounding whitespace, an optional sign, then
      ASCII digits in which single underscores may separate two digits; anything else
      raises (`None`). Decimal digits outside ASCII are not modelled. */
  function ParseInt(s: string): (r: Option<int>)
    ensures r.Some? ==> |Strip(s)| > 0
  {
    var t := Strip(s);
    if |t| == 0 then None
    else
      var neg := t[0] == '-';
      var body := if t[0] == '-' || t[0] == '+' then t[1..] else t;
      if UnderscoredDigits(body) then
        var d := DropUnderscores(body);
        Some(if neg then -(DigitsValue(d) as int) else DigitsValue(d) as int)
      else None
  }

  /** What `int()` accepts: the stripped text is an optional sign and digits joined by
      single underscores, and the value is that of the digits, negated after a minus. */
  lemma ParseIntSpec(s: string)
    ensures var r := ParseInt(s);
      r.Some? ==> var t := Strip(s); var b := if t[0] == '-' || t[0] == '+' then t[1..] else t;
        UnderscoredDigits(b) && r.value == (if t[0] == '-' then -1 else 1) * DigitsValue(DropUnderscores(b))
    ensures var t := Strip(s);
      |t| > 0 && UnderscoredDigits(if t[0] == '-' || t[0] == '+' then t[1..] else t) ==> ParseInt(s).Some?
  {
  }

  lemma DigitNotSpace(c: char)
    requires IsDigit(c)
    ensures !IsSpace(c)
  {
  }

  /** A plain run of digits, signed or not, parses to its value. */
  lemma ParseIntDigits(t: string, d: string, neg: bool)
    requires |d| > 0 && AllDigits(d)
    requires neg ==> |t| == |d| + 1 && t[0] == '-' && t[1..] == d
    requires !neg ==> t == d
    ensures ParseInt(t) == Some(if neg then -(DigitsValue(d) as int) else DigitsValue(d) as int)
  {
    PlainDigits(d);
    if neg {
      assert t[|t| - 1] == d[|d| - 1];
      ParseIntMinus(t);
    } else {
      DigitNotSpace(d[0]);
      ParseIntUnsigned(d);
    }
  }

  lemma PlainDigits(d: string)
    requires |d| > 0 && AllDigits(d)
    ensures UnderscoredDigits(d) && DropUnderscores(d) == d && !IsSpace(d[|d| - 1])
  {
    DigitNotSpace(d[|d| - 1]);
    assert forall k :: 0 <= k < |d| ==> d[k] != '_';
  }

  /** `int(str(i)) == i`: parsing the decimal text of an integer gives it back. */
  lemma ParseIntRoundTrip(i: int)
    ensures ParseInt(IntToString(i)) == Some(i)
  {
    var n: nat := if i < 0 then -i else i;
    DigitsRoundTrip(n);
    var t := IntToString(i);
    if i < 0 { assert t[1..] == Digits(n); }
    ParseIntDigits(t, Digits(n), i < 0);
  }

  /** A text without surrounding whitespace that starts with a minus parses exactly when
      the rest is digits joined by single underscores, to the negated value. */
  lemma ParseIntMinus(t: string)
    requires |t| > 0 && Stripped(t) && t[0] == '-'
    ensures UnderscoredDigits(t[1..]) ==> ParseInt(t) == Some(-(DigitsValue(DropUnderscores(t[1..])) as int))
    ensures !UnderscoredDigits(t[1..]) ==> ParseInt(t).None?
  {
    StripOfStripped(t);
  }

  /** An unsigned text without surrounding whitespace parses exactly when it is digits
      joined by single underscores. */
  lemma ParseIntUnsigned(t: string)
    requires |t| > 0 && Stripped(t) && t[0] != '-' && t[0] != '+'
    ensures UnderscoredDigits(t) ==> ParseInt(t) == Some(DigitsValue(DropUnderscores(t)) as int)
    ensures !UnderscoredDigits(t) ==> ParseInt(t).None?
  {
    StripOfStripped(t);
  }

  /** Underscores between digits are read as Python reads them: `int("1_0") == 10`. */
  lemma ParseIntUnderscores()
    ensures ParseInt("1_0") == Some(10)
  {
    var t := "1_0";
    DigitNotSpace(t[0]);
    DigitNotSpace(t[2]);
    assert UnderscoredDigits(t);
    ParseIntUnsigned(t);
    DropOneUnderscore();
  }

  lemma DropOneUnderscore()
    ensures DropUnderscores("1_0") == "10" && DigitsValue("10") == 10
  {
    assert "1_0"[1..] == "_0" && "_0"[1..] == "0" && "0"[1..] == "";
    assert DropUnderscores("0") == "0";
    assert DropUnderscores("_0") == "0";
    assert "10"[..1] == "1";
  }

  /** Two underscores in a row make `int()` raise. */
  lemma ParseIntDoubleUnderscore()
    ensures ParseInt("1__0").None?
  {
    var t := "1__0";
    DigitNotSpace(t[0]);
    DigitNotSpace(t[3]);
    ParseIntUnsigned(t);
    assert t[1] == '_' && t[2] == '_';
  }

  // ---------------------------------------------------------------------------
  // Code-point ordering of strings (Python `<` on str)
  // ---------------------------------------------------------------------------

  predicate LessEq(a: string, b: string)
    decreases |a|
  {
    if |a| == 0 then true
    else if |b| == 0 then false
    else if a[0] != b[0] then a[0] < b[0]
    else LessEq(a[1..], b[1..])
  }

  lemma {:induction false} LessEqTotal(a: string, b: string)
    ensures LessEq(a, b) || LessEq(b, a)
    decreases |a|
  {
    if |a| > 0 && |b| > 0 && a[0] == b[0] {
      LessEqTotal(a[1..], b[1..]);
    }
  }

  lemma {:induction false} LessEqTransitive(a: string, b: string, c: string)
    requires LessEq(a, b) && LessEq(b, c)
    ensures LessEq(a, c)
    decreases |a|
  {
    if |a| > 0 && |b| > 0 && |c| > 0 && a[0] == b[0] && b[0] == c[0] {
      LessEqTransitive(a[1..], b[1..], c[1..]);
    }
  }

  lemma {:induction false} LessEqAntisymmetric(a: string, b: string)
    requires LessEq(a, b) && LessEq(b, a)
    ensures a == b
    decreases |a|
  {
    if |a| > 0 && |b| > 0 {
      LessEqAntisymmetric(a[1..], b[1..]);
      assert a == [a[0]] + a[1..];
      assert b == [b[0]] + b[1..];
    }
  }
}
