/**
 * The string primitives the Python source relies on: `str.isspace`/`\s`,
 * `\d`, `\w`, `str.lower`/`str.upper` (restricted to ASCII and the German
 * umlauts), the `in` substring test, `str.strip`, `str.rstrip(c)` and
 * decimal digit strings.
 */
module Text {

  // ---------------------------------------------------------------- classes

  /** `str.isspace()`, which is also the class `\s` matches in a str pattern. */
  predicate IsSpace(c: char)
  {
    c == ' ' || ('\t' <= c <= '\r') || ('\U{1c}' <= c <= '\U{1f}')
    || c == '\U{85}' || c == '\U{a0}' || c == '\U{1680}'
    || ('\U{2000}' <= c <= '\U{200a}') || c == '\U{2028}' || c == '\U{2029}'
    || c == '\U{202f}' || c == '\U{205f}' || c == '\U{3000}'
  }

  /** `\d`, restricted to the ASCII digits. */
  predicate IsDigit(c: char)
  {
    '0' <= c <= '9'
  }

  /** The regex class `[A-Z]`. */
  predicate IsAsciiUpper(c: char)
  {
    'A' <= c <= 'Z'
  }

  /** `\w`, restricted to ASCII letters and digits, `_` and the German letters. */
  predicate IsWordChar(c: char)
  {
    ('a' <= c <= 'z') || ('A' <= c <= 'Z') || IsDigit(c) || c == '_'
    || c == 'ä' || c == 'ö' || c == 'ü' || c == 'Ä' || c == 'Ö' || c == 'Ü' || c == 'ß'
  }

  predicate AllDigits(s: string)
  {
    forall i :: 0 <= i < |s| ==> IsDigit(s[i])
  }

  predicate AllSpaces(s: string)
  {
    forall i :: 0 <= i < |s| ==> IsSpace(s[i])
  }

  // ---------------------------------------------------------- case mapping

  function LowerChar(c: char): char
  {
    if 'A' <= c <= 'Z' then (c as int + 32) as char
    else if c == 'Ä' then 'ä'
    else if c == 'Ö' then 'ö'
    else if c == 'Ü' then 'ü'
    else c
  }

  function UpperChar(c: char): char
  {
    if 'a' <= c <= 'z' then (c as int - 32) as char
    else if c == 'ä' then 'Ä'
    else if c == 'ö' then 'Ö'
    else if c == 'ü' then 'Ü'
    else c
  }

  /** `str.lower()`: maps every character, keeps the length. */
  function Lower(s: string): (r: string)
    ensures |r| == |s|
    ensures forall i :: 0 <= i < |s| ==> r[i] == LowerChar(s[i])
  {
    seq(|s|, i requires 0 <= i < |s| => LowerChar(s[i]))
  }

  /** `str.upper()`: maps every character, keeps the length. */
  function Upper(s: string): (r: string)
    ensures |r| == |s|
    ensures forall i :: 0 <= i < |s| ==> r[i] == UpperChar(s[i])
  {
    seq(|s|, i requires 0 <= i < |s| => UpperChar(s[i]))
  }

  /** Every string of the list lower-cased. */
  function LowerAll(ms: seq<string>): (r: seq<string>)
    ensures |r| == |ms| && forall k :: 0 <= k < |ms| ==> r[k] == Lower(ms[k])
  {
    seq(|ms|, k requires 0 <= k < |ms| => Lower(ms[k]))
  }

  /** Every string of the list upper-cased. */
  function UpperAll(ms: seq<string>): (r: seq<string>)
    ensures |r| == |ms| && forall k :: 0 <= k < |ms| ==> r[k] == Upper(ms[k])
  {
    seq(|ms|, k requires 0 <= k < |ms| => Upper(ms[k]))
  }

  /** Case mapping never turns a whitespace character into a non-whitespace one or back. */
  lemma CaseKeepsClasses(c: char)
    ensures IsSpace(LowerChar(c)) == IsSpace(c) && IsSpace(UpperChar(c)) == IsSpace(c)
    ensures IsDigit(LowerChar(c)) == IsDigit(c) && IsDigit(UpperChar(c)) == IsDigit(c)
    ensures UpperChar(LowerChar(c)) == UpperChar(c)
  {
  }

  /** Upper-casing a lower-cased string gives the upper-cased original. */
  lemma UpperLower(s: string)
    ensures Upper(Lower(s)) == Upper(s)
  {
    forall i | 0 <= i < |s|
      ensures Upper(Lower(s))[i] == Upper(s)[i]
    {
      CaseKeepsClasses(s[i]);
    }
  }

  /** Upper-casing commutes with slicing. */
  lemma UpperSlice(s: string, lo: nat, hi: nat)
    requires lo <= hi <= |s|
    ensures Upper(s[lo..hi]) == Upper(s)[lo..hi]
  {
    forall i | 0 <= i < hi - lo
      ensures Upper(s[lo..hi])[i] == Upper(s)[lo..hi][i]
    {
      assert s[lo..hi][i] == s[lo + i];
    }
  }

  // ---------------------------------------------------------------- substrings

  predicate IsPrefix(p: string, s: string)
  {
    |p| <= |s| && s[..|p|] == p
  }

  predicate OccursAt(s: string, sub: string, i: int)
  {
    0 <= i && i + |sub| <= |s| && s[i..i + |sub|] == sub
  }

  /** Python's `sub in s`. */
  predicate Contains(s: string, sub: string)
    decreases |s|
  {
    IsPrefix(sub, s) || (|s| > 0 && Contains(s[1..], sub))
  }

  /** An occurrence at any position makes `sub in s` true. */
  lemma {:induction false} ContainsAt(s: string, sub: string, i: int)
    requires OccursAt(s, sub, i)
    ensures Contains(s, sub)
    decreases i
  {
    if i > 0 {
      assert s[1..][i - 1..i - 1 + |sub|] == s[i..i + |sub|];
      ContainsAt(s[1..], sub, i - 1);
    } else {
      assert s[..|sub|] == s[0..|sub|];
    }
  }

  /** `sub in s` holds only because of an occurrence at some position. */
  lemma {:induction false} ContainsWitness(s: string, sub: string) returns (i: int)
    requires Contains(s, sub)
    ensures OccursAt(s, sub, i)
    decreases |s|
  {
    if IsPrefix(sub, s) {
      i := 0;
      assert s[0..|sub|] == s[..|sub|];
    } else {
      var j := ContainsWitness(s[1..], sub);
      assert s[1..][j..j + |sub|] == s[j + 1..j + 1 + |sub|];
      i := j + 1;
    }
  }

  lemma ContainsIff(s: string, sub: string)
    ensures Contains(s, sub) <==> exists i :: OccursAt(s, sub, i)
  {
    if Contains(s, sub) {
      var i := ContainsWitness(s, sub);
    }
    if exists i :: OccursAt(s, sub, i) {
      var i :| OccursAt(s, sub, i);
      ContainsAt(s, sub, i);
    }
  }

  /** A needle with a character the haystack lacks never occurs in it. */
  lemma NotContainsMissingChar(s: string, sub: string, c: char)
    requires c in sub && c !in s
    ensures !Contains(s, sub)
  {
    var k :| 0 <= k < |sub| && sub[k] == c;
    forall i | 0 <= i && i + |sub| <= |s|
      ensures !OccursAt(s, sub, i)
    {
      assert s[i..i + |sub|][k] == s[i + k] && s[i + k] in s;
    }
    ContainsIff(s, sub);
  }

  /** Non-empty, and neither first nor last character is whitespace. */
  predicate Trimmed(m: string)
  {
    m != [] && !IsSpace(m[0]) && !IsSpace(m[|m| - 1])
  }

  /** Some needle of the list occurs in the text. */
  predicate ContainsAny(t: string, needles: seq<string>)
  {
    exists k :: 0 <= k < |needles| && Contains(t, needles[k])
  }

  /**
   * A trimmed needle occurs in a text exactly when it occurs in the part
   * left after cutting whitespace off both ends.
   */
  lemma ContainsWithin(t: string, lo: nat, hi: nat, m: string)
    requires lo <= hi <= |t| && SpacesOutside(t, lo, hi)
    requires Trimmed(m)
    ensures Contains(t[lo..hi], m) <==> Contains(t, m)
  {
    if Contains(t[lo..hi], m) {
      ContainsShift(t, lo, hi, m);
    }
    if Contains(t, m) {
      ContainsInside(t, lo, hi, m);
    }
  }

  /** The same for a list of trimmed needles; v is the inner part. */
  lemma ContainsAnyWithin(t: string, lo: nat, hi: nat, v: string, needles: seq<string>)
    requires lo <= hi <= |t| && SpacesOutside(t, lo, hi) && v == t[lo..hi]
    requires forall k :: 0 <= k < |needles| ==> Trimmed(needles[k])
    ensures ContainsAny(v, needles) <==> ContainsAny(t, needles)
  {
    if ContainsAny(t, needles) {
      var k :| 0 <= k < |needles| && Contains(t, needles[k]);
      ContainsWithin(t, lo, hi, needles[k]);
    }
    if ContainsAny(v, needles) {
      var k :| 0 <= k < |needles| && Contains(v, needles[k]);
      ContainsWithin(t, lo, hi, needles[k]);
    }
  }

  lemma ContainsShift(t: string, lo: nat, hi: nat, m: string)
    requires lo <= hi <= |t| && Contains(t[lo..hi], m)
    ensures Contains(t, m)
  {
    var i := ContainsWitness(t[lo..hi], m);
    SliceOfSlice(t, lo, hi, i, i + |m|);
    ContainsAt(t, m, lo + i);
  }

  lemma ContainsInside(t: string, lo: nat, hi: nat, m: string)
    requires lo <= hi <= |t| && SpacesOutside(t, lo, hi)
    requires Trimmed(m)
    requires Contains(t, m)
    ensures Contains(t[lo..hi], m)
  {
    var i := ContainsWitness(t, m);
    OccurrenceInside(t, lo, hi, m, i);
    ContainsAt(t[lo..hi], m, i - lo);
  }

  lemma OccurrenceInside(t: string, lo: nat, hi: nat, m: string, i: int)
    requires lo <= hi <= |t| && SpacesOutside(t, lo, hi)
    requires Trimmed(m)
    requires OccursAt(t, m, i)
    ensures lo <= i && i + |m| <= hi && OccursAt(t[lo..hi], m, i - lo)
  {
    assert t[i] == t[i..i + |m|][0] == m[0];
    assert t[i + |m| - 1] == t[i..i + |m|][|m| - 1] == m[|m| - 1];
    SliceOfSlice(t, lo, hi, i - lo, i - lo + |m|);
  }

  lemma SliceOfSlice(t: string, lo: nat, hi: nat, a: nat, b: nat)
    requires lo <= hi <= |t| && a <= b <= hi - lo
    ensures t[lo..hi][a..b] == t[lo + a..lo + b]
  {
    forall k | 0 <= k < b - a
      ensures t[lo..hi][a..b][k] == t[lo + a..lo + b][k]
    {
    }
  }

  // ---------------------------------------------------------------- spans

  /** End of the run of digits (`\d+` without backtracking) that starts at i. */
  function SkipDigits(s: string, i: nat): (j: nat)
    requires i <= |s|
    ensures i <= j <= |s| && (j == |s| || !IsDigit(s[j]))
    ensures forall k :: i <= k < j ==> IsDigit(s[k])
    decreases |s| - i
  {
    if i < |s| && IsDigit(s[i]) then SkipDigits(s, i + 1) else i
  }

  /** A digit run that stops at a non-digit (or at the end) is the one SkipDigits finds. */
  lemma SkipDigitsIs(s: string, i: nat, j: nat)
    requires i <= j <= |s|
    requires forall k :: i <= k < j ==> IsDigit(s[k])
    requires j == |s| || !IsDigit(s[j])
    ensures SkipDigits(s, i) == j
  {
  }

  // ---------------------------------------------------------------- stripping

  /** End of the whitespace run that starts at i. */
  function SkipSpaces(s: string, i: nat): (j: nat)
    requires i <= |s|
    ensures i <= j <= |s| && (j == |s| || !IsSpace(s[j]))
    ensures forall k :: i <= k < j ==> IsSpace(s[k])
    decreases |s| - i
  {
    if i < |s| && IsSpace(s[i]) then SkipSpaces(s, i + 1) else i
  }

  /** Start of the whitespace run that ends at j. */
  function SkipSpacesBack(s: string, j: nat): (i: nat)
    requires j <= |s|
    ensures i <= j && (i == 0 || !IsSpace(s[i - 1]))
    ensures forall k :: i <= k < j ==> IsSpace(s[k])
  {
    if j > 0 && IsSpace(s[j - 1]) then SkipSpacesBack(s, j - 1) else j
  }

  /** Every character of s outside [lo, hi) is whitespace. */
  predicate SpacesOutside(s: string, lo: int, hi: int)
  {
    forall k :: 0 <= k < |s| && !(lo <= k < hi) ==> IsSpace(s[k])
  }

  /** `str.strip()`: the slice between the leading and the trailing whitespace. */
  function Strip(s: string): (r: string)
    ensures |r| <= |s|
    ensures r == [] || (!IsSpace(r[0]) && !IsSpace(r[|r| - 1]))
  {
    var lo := SkipSpaces(s, 0);
    if lo == |s| then [] else s[lo..SkipSpacesBack(s, |s|)]
  }

  /** Strip's slice: whitespace before it, whitespace after it. */
  lemma StripSlice(s: string) returns (lo: nat)
    ensures lo + |Strip(s)| <= |s| && Strip(s) == s[lo..lo + |Strip(s)|]
    ensures SpacesOutside(s, lo, lo + |Strip(s)|)
  {
    lo := SkipSpaces(s, 0);
  }

  /** A string that neither starts nor ends with whitespace is its own strip. */
  lemma StripUnpadded(s: string)
    requires s == [] || (!IsSpace(s[0]) && !IsSpace(s[|s| - 1]))
    ensures Strip(s) == s
  {
    if s != [] {
      assert SkipSpaces(s, 0) == 0;
      assert SkipSpacesBack(s, |s|) == |s|;
    }
  }

  /** `str.rstrip(c)`: drops every trailing c. */
  function RStripChar(s: string, c: char): (r: string)
    ensures |r| <= |s| && r == s[..|r|]
    ensures forall k :: |r| <= k < |s| ==> s[k] == c
    ensures r == [] || r[|r| - 1] != c
  {
    if s != [] && s[|s| - 1] == c then RStripChar(s[..|s| - 1], c) else s
  }

  // ---------------------------------------------------------------- decimals

  function Pow10(k: nat): (r: nat)
    ensures r >= 1
  {
    if k == 0 then 1 else 10 * Pow10(k - 1)
  }

  function DigitOf(c: char): nat
  {
    if IsDigit(c) then c as int - '0' as int else 0
  }

  /** The number a string of ASCII digits denotes (`int(s)`, with "" read as 0). */
  function DigitsValue(s: string): nat
  {
    if s == [] then 0 else DigitsValue(s[..|s| - 1]) * 10 + DigitOf(s[|s| - 1])
  }

  lemma {:induction false} DigitsValueAppend(a: string, b: string)
    ensures DigitsValue(a + b) == DigitsValue(a) * Pow10(|b|) + DigitsValue(b)
    decreases |b|
  {
    if b != [] {
      var b' := b[..|b| - 1];
      assert (a + b)[..|a + b| - 1] == a + b';
      assert (a + b)[|a + b| - 1] == b[|b| - 1];
      DigitsValueAppend(a, b');
      ShiftDigit(DigitsValue(a), Pow10(|b'|), DigitsValue(b'), DigitOf(b[|b| - 1]));
    } else {
      assert a + b == a;
    }
  }

  /** The arithmetic step of `DigitsValueAppend`: appending one digit. */
  lemma ShiftDigit(x: nat, p: nat, y: nat, d: nat)
    ensures (x * p + y) * 10 + d == x * (10 * p) + (y * 10 + d)
  {
  }

  function DigitChar(d: nat): (c: char)
    requires d < 10
    ensures IsDigit(c) && DigitOf(c) == d
  {
    ('0' as int + d) as char
  }

  /** `str(n)` for a natural number: its decimal digits, without leading zeros. */
  function Decimal(n: nat): (r: string)
    ensures r != [] && AllDigits(r)
    ensures DigitsValue(r) == n
  {
    if n < 10 then [DigitChar(n)]
    else
      var r := Decimal(n / 10) + [DigitChar(n % 10)];
      assert r[..|r| - 1] == Decimal(n / 10);
      r
  }

  /** n written with exactly `width` digits, zero-padded on the left (n below 10^width). */
  function Padded(n: nat, width: nat): (r: string)
    requires n < Pow10(width)
    ensures |r| == width && AllDigits(r)
    ensures DigitsValue(r) == n
  {
    if width == 0 then []
    else
      var r := Padded(n / 10, width - 1) + [DigitChar(n % 10)];
      assert r[..|r| - 1] == Padded(n / 10, width - 1);
      r
  }
}
