/**
 * `_parse_share`: reads a percentage or a EUR amount out of a table cell.
 * The two regular expressions are hand-coded matchers that follow the
 * regex engine's leftmost-first search and greedy backtracking; `float()`
 * is modelled on the decimal strings the matches can produce, as exact reals.
 */
module ShareParsing {
  import opened Basics
  import opened Text

  /** The outcome of `_parse_share`: None, a float, or the ValueError of `float("")`. */
  datatype ShareValue = NoShare | Share(value: real) | Unparsable

  predicate IsDigitOrDot(c: char)
  {
    IsDigit(c) || c == '.'
  }

  /** End of the `[\d.]+` run that starts at i. */
  function SkipAmount(s: string, i: nat): (j: nat)
    requires i <= |s|
    ensures i <= j <= |s| && (j == |s| || !IsDigitOrDot(s[j]))
    ensures forall k :: i <= k < j ==> IsDigitOrDot(s[k])
    decreases |s| - i
  {
    if i < |s| && IsDigitOrDot(s[i]) then SkipAmount(s, i + 1) else i
  }

  lemma SkipAmountIs(s: string, i: nat, j: nat)
    requires i <= j <= |s|
    requires forall k :: i <= k < j ==> IsDigitOrDot(s[k])
    requires j == |s| || !IsDigitOrDot(s[j])
    ensures SkipAmount(s, i) == j
  {
  }

  // ------------------------------------------------ (\d+(?:[.,]\d+)?)\s*%

  /** `\s*%` matches at position k. */
  predicate PercentSignAt(s: string, k: nat)
    requires k <= |s|
  {
    var w := SkipSpaces(s, k);
    w < |s| && s[w] == '%'
  }

  /**
   * Group 1 when `(\d+(?:[.,]\d+)?)\s*%` matches at position i. The digit runs
   * are maximal (a shorter run leaves a digit where `[.,]`, `\s` or `%` is
   * needed), and the optional fraction is tried first.
   */
  function PercentGroupAt(s: string, i: nat): (g: Option<string>)
    requires i <= |s|
    ensures g.Some? ==> |g.value| > 0 && i + |g.value| <= |s| && g.value == s[i..i + |g.value|]
  {
    if i < |s| && IsDigit(s[i]) then
      var j := SkipDigits(s, i);
      if j + 1 < |s| && (s[j] == '.' || s[j] == ',') && IsDigit(s[j + 1])
         && PercentSignAt(s, SkipDigits(s, j + 1))
      then Some(s[i..SkipDigits(s, j + 1)])
      else if PercentSignAt(s, j) then Some(s[i..j])
      else None
    else None
  }

  /** `re.search` for the percent pattern, trying start positions from i on. */
  function SearchPercent(s: string, i: nat): Option<string>
    requires i <= |s|
    decreases |s| - i
  {
    if PercentGroupAt(s, i).Some? then PercentGroupAt(s, i)
    else if i == |s| then None
    else SearchPercent(s, i + 1)
  }

  // ------------------------------------------- ([\d.]+(?:,\d+)?)\s*(?:EUR|€)

  /** `\s*(?:EUR|€)` matches at position k. */
  predicate UnitAt(s: string, k: nat)
    requires k <= |s|
  {
    var w := SkipSpaces(s, k);
    (w + 3 <= |s| && s[w..w + 3] == "EUR") || (w < |s| && s[w] == '€')
  }

  /** Group 1 when `([\d.]+(?:,\d+)?)\s*(?:EUR|€)` matches at position i. */
  function EurGroupAt(s: string, i: nat): (g: Option<string>)
    requires i <= |s|
    ensures g.Some? ==> |g.value| > 0 && i + |g.value| <= |s| && g.value == s[i..i + |g.value|]
  {
    if i < |s| && IsDigitOrDot(s[i]) then
      var j := SkipAmount(s, i);
      if j + 1 < |s| && s[j] == ',' && IsDigit(s[j + 1]) && UnitAt(s, SkipDigits(s, j + 1))
      then Some(s[i..SkipDigits(s, j + 1)])
      else if UnitAt(s, j) then Some(s[i..j])
      else None
    else None
  }

  /** `re.search` for the EUR pattern, trying start positions from i on. */
  function SearchEur(s: string, i: nat): Option<string>
    requires i <= |s|
    decreases |s| - i
  {
    if EurGroupAt(s, i).Some? then EurGroupAt(s, i)
    else if i == |s| then None
    else SearchEur(s, i + 1)
  }

  // ------------------------------------------------ str.replace and float()

  /** `s.replace(a, b)` for single characters. */
  function ReplaceChar(s: string, a: char, b: char): (r: string)
    ensures |r| == |s|
    ensures forall k :: 0 <= k < |s| ==> r[k] == if s[k] == a then b else s[k]
  {
    seq(|s|, k requires 0 <= k < |s| => if s[k] == a then b else s[k])
  }

  /** `s.replace(c, "")`. */
  function RemoveChar(s: string, c: char): (r: string)
    ensures c !in r
  {
    if s == [] then [] else (if s[0] == c then [] else [s[0]]) + RemoveChar(s[1..], c)
  }

  lemma {:induction false} RemoveCharAppend(a: string, b: string, c: char)
    ensures RemoveChar(a + b, c) == RemoveChar(a, c) + RemoveChar(b, c)
    decreases |a|
  {
    if a == [] {
      assert a + b == b;
    } else {
      assert (a + b)[1..] == a[1..] + b;
      RemoveCharAppend(a[1..], b, c);
    }
  }

  lemma {:induction false} RemoveAbsentChar(s: string, c: char)
    requires c !in s
    ensures RemoveChar(s, c) == s
    decreases |s|
  {
    if s != [] {
      assert s[0] in s && c !in s[1..];
      RemoveAbsentChar(s[1..], c);
    }
  }

  /**
   * `float(t)` on the strings the two patterns can produce: digits with at
   * most one decimal point and at least one digit; None is the ValueError.
   */
  function FloatOf(t: string): (v: Option<real>)
    ensures v.Some? ==> v.value >= 0.0
  {
    var k := SkipDigits(t, 0);
    if k == |t| then
      if k == 0 then None else Some(DigitsValue(t) as real)
    else if t[k] == '.' && AllDigits(t[k + 1..]) && (k > 0 || k + 1 < |t|) then
      Some(FractionValue(t[..k], t[k + 1..]))
    else None
  }

  /** The value of "<whole>.<frac>". */
  function FractionValue(whole: string, frac: string): (v: real)
    ensures v >= DigitsValue(whole) as real
  {
    var q := DigitsValue(frac) as real / Pow10(|frac|) as real;
    assert q >= 0.0 by { NonNegativeQuotient(DigitsValue(frac), Pow10(|frac|)); }
    DigitsValue(whole) as real + q
  }

  lemma NonNegativeQuotient(a: nat, b: nat)
    requires b > 0
    ensures a as real / b as real >= 0.0
  {
  }

  function ToShare(v: Option<real>): ShareValue
  {
    if v.Some? then Share(v.value) else Unparsable
  }

  /**
   * `_parse_share`: the first percentage wins (comma made the decimal point,
   * no scaling); otherwise the first EUR amount with thousands dots deleted
   * and the comma made the decimal point; otherwise nothing. An empty string
   * (Python's None or "") gives nothing.
   */
  function ParseShare(s: string): (r: ShareValue)
    ensures s == "" ==> r == NoShare
    ensures r.Share? ==> r.value >= 0.0
  {
    if s == "" then NoShare
    else
      match SearchPercent(s, 0)
      case Some(g) => ToShare(FloatOf(ReplaceChar(g, ',', '.')))
      case None =>
        match SearchEur(s, 0)
        case Some(g) => ToShare(FloatOf(ReplaceChar(RemoveChar(g, '.'), ',', '.')))
        case None => NoShare
  }

  // ------------------------------------------------ German number formats

  /** n with a dot between every group of three digits, as in "25.000". */
  function Grouped(n: nat): (r: string)
    ensures r != [] && IsDigit(r[0])
    ensures forall k :: 0 <= k < |r| ==> IsDigitOrDot(r[k])
  {
    if n < 1000 then Decimal(n)
    else Grouped(n / 1000) + "." + Padded(n % 1000, 3)
  }

  /** Deleting the dots of a grouped number leaves its plain digits. */
  lemma {:induction false} GroupedDigits(n: nat)
    ensures AllDigits(RemoveChar(Grouped(n), '.')) && DigitsValue(RemoveChar(Grouped(n), '.')) == n
    ensures RemoveChar(Grouped(n), '.') != []
  {
    if n < 1000 {
      RemoveAbsentChar(Decimal(n), '.');
    } else {
      GroupedDigits(n / 1000);
      GroupedStep(n);
    }
  }

  lemma GroupedStep(n: nat)
    requires n >= 1000
    requires AllDigits(RemoveChar(Grouped(n / 1000), '.'))
    requires DigitsValue(RemoveChar(Grouped(n / 1000), '.')) == n / 1000
    ensures AllDigits(RemoveChar(Grouped(n), '.')) && DigitsValue(RemoveChar(Grouped(n), '.')) == n
    ensures RemoveChar(Grouped(n), '.') != []
  {
    var head := Grouped(n / 1000);
    var tail := Padded(n % 1000, 3);
    var digits := RemoveChar(head, '.');
    assert RemoveChar(Grouped(n), '.') == digits + tail by {
      assert Grouped(n) == head + ("." + tail);
      RemoveCharAppend(head, "." + tail, '.');
      DropLeadingDot(tail);
    }
    assert AllDigits(digits + tail);
    ThousandsValue(digits, tail, n);
  }

  lemma ThousandsValue(digits: string, tail: string, n: nat)
    requires |tail| == 3 && DigitsValue(digits) == n / 1000 && DigitsValue(tail) == n % 1000
    ensures DigitsValue(digits + tail) == n
  {
    DigitsValueAppend(digits, tail);
    assert Pow10(3) == 1000;
  }

  lemma DropLeadingDot(tail: string)
    requires AllDigits(tail)
    ensures RemoveChar("." + tail, '.') == tail
  {
    assert ("." + tail)[1..] == tail;
    RemoveAbsentChar(tail, '.');
  }

  /** A string without '%' has no percentage in it. */
  lemma {:induction false} NoPercentSign(s: string, i: nat)
    requires i <= |s|
    requires '%' !in s
    ensures SearchPercent(s, i) == None
    decreases |s| - i
  {
    if i < |s| {
      NoPercentSign(s, i + 1);
    }
  }

  /** A string without digits and dots has neither a percentage nor an amount. */
  lemma {:induction false} NoNumberNoShare(s: string)
    requires forall k :: 0 <= k < |s| ==> !IsDigitOrDot(s[k])
    ensures ParseShare(s) == NoShare
  {
    NoDigitSearches(s, 0);
  }

  lemma {:induction false} NoDigitSearches(s: string, i: nat)
    requires i <= |s|
    requires forall k :: 0 <= k < |s| ==> !IsDigitOrDot(s[k])
    ensures SearchPercent(s, i) == None && SearchEur(s, i) == None
    decreases |s| - i
  {
    if i < |s| {
      NoDigitSearches(s, i + 1);
    }
  }

  /** `float` of plain digits. */
  lemma FloatOfDigits(d: string)
    requires d != [] && AllDigits(d)
    ensures FloatOf(d) == Some(DigitsValue(d) as real)
  {
    SkipDigitsIs(d, 0, |d|);
  }

  /** `float` of digits, a point and more digits; the digits before the point may be missing. */
  lemma FloatOfFraction(t: string, d: string, f: string)
    requires AllDigits(d) && f != [] && AllDigits(f)
    requires t == d + "." + f
    ensures FloatOf(t) == Some(FractionValue(d, f))
  {
    assert t[|d|] == '.';
    forall k | 0 <= k < |d|
      ensures IsDigit(t[k])
    {
      assert t[k] == d[k];
    }
    SkipDigitsIs(t, 0, |d|);
    assert t[..|d|] == d && t[|d| + 1..] == f;
  }

  // ------------------------------------------------ matches of the two patterns

  /** A run of whitespace that stops at a non-space character is what `\s*` consumes. */
  lemma GapSpan(s: string, k: nat, gap: string)
    requires k + |gap| < |s| && s[k..k + |gap|] == gap && AllSpaces(gap) && !IsSpace(s[k + |gap|])
    ensures SkipSpaces(s, k) == k + |gap|
  {
    forall j | k <= j < k + |gap|
      ensures IsSpace(s[j])
    {
      assert s[j] == s[k..k + |gap|][j - k];
    }
  }

  /** Where `\s*%` matches, the character there is neither a digit nor a separator. */
  lemma PercentSignStops(s: string, e: nat)
    requires e <= |s| && PercentSignAt(s, e)
    ensures e < |s| && !IsDigitOrDot(s[e]) && s[e] != ','
  {
    var w := SkipSpaces(s, e);
    if w > e {
      assert IsSpace(s[e]);
    }
  }

  /** Where `\s*(?:EUR|€)` matches, the character there is neither a digit nor a separator. */
  lemma UnitStops(s: string, e: nat)
    requires e <= |s| && UnitAt(s, e)
    ensures e < |s| && !IsDigitOrDot(s[e]) && s[e] != ','
  {
    var w := SkipSpaces(s, e);
    if w + 3 <= |s| && s[w..w + 3] == "EUR" {
      assert s[w] == s[w..w + 3][0];
    }
    if w > e {
      assert IsSpace(s[e]);
    }
  }

  /**
   * The percent search from position 0 yields s[..e] when s starts with
   * digits, a comma at j, more digits up to e and then `\s*%`.
   */
  lemma PercentMatch(s: string, j: nat, e: nat)
    requires 0 < j && j + 1 < e <= |s|
    requires forall k :: 0 <= k < j ==> IsDigit(s[k])
    requires s[j] == ','
    requires forall k :: j < k < e ==> IsDigit(s[k])
    requires PercentSignAt(s, e)
    ensures SearchPercent(s, 0) == Some(s[0..e])
  {
    PercentSignStops(s, e);
    SkipDigitsIs(s, 0, j);
    SkipDigitsIs(s, j + 1, e);
    assert PercentGroupAt(s, 0) == Some(s[0..e]);
  }

  /**
   * The EUR search from position 0 yields s[..e] when s starts with digits
   * and dots, a comma at j, digits up to e and then `\s*(?:EUR|€)`.
   */
  lemma EurMatchCents(s: string, j: nat, e: nat)
    requires 0 < j && j + 1 < e <= |s|
    requires forall k :: 0 <= k < j ==> IsDigitOrDot(s[k])
    requires s[j] == ','
    requires forall k :: j < k < e ==> IsDigit(s[k])
    requires UnitAt(s, e)
    ensures SearchEur(s, 0) == Some(s[0..e])
  {
    UnitStops(s, e);
    SkipAmountIs(s, 0, j);
    SkipDigitsIs(s, j + 1, e);
  }

  /** The EUR search from position 0 yields s[..j] when s starts with digits and dots up to j and then the unit. */
  lemma EurMatchWhole(s: string, j: nat)
    requires 0 < j <= |s|
    requires forall k :: 0 <= k < j ==> IsDigitOrDot(s[k])
    requires UnitAt(s, j)
    ensures SearchEur(s, 0) == Some(s[0..j])
  {
    UnitStops(s, j);
    SkipAmountIs(s, 0, j);
  }

  /** Where the pieces of "<d>,<c><gap><unit>" sit in the string. */
  lemma CentsLayout(s: string, d: string, c: string, gap: string, unit: string)
    requires |c| == 2 && s == d + "," + c + gap + unit
    ensures |d| + 3 <= |s| && s[0..|d| + 3] == d + "," + c && s[|d| + 3..] == gap + unit
    ensures forall k :: 0 <= k < |d| ==> s[k] == d[k]
    ensures s[|d|] == ',' && s[|d| + 1] == c[0] && s[|d| + 2] == c[1]
  {
    forall k | 0 <= k < |d|
      ensures s[k] == d[k]
    {
    }
  }

  /** Where the pieces of "<d><gap><unit>" sit in the string. */
  lemma WholeLayout(s: string, d: string, gap: string, unit: string)
    requires s == d + gap + unit
    ensures s[0..|d|] == d && s[|d|..] == gap + unit
    ensures forall k :: 0 <= k < |d| ==> s[k] == d[k]
  {
    forall k | 0 <= k < |d|
      ensures s[k] == d[k]
    {
    }
  }

  /** `\s*%` matches where spaces and then the sign follow. */
  lemma PercentAfterGap(s: string, k: nat, gap: string)
    requires k <= |s| && s[k..] == gap + "%" && AllSpaces(gap)
    ensures PercentSignAt(s, k)
  {
    assert s[k..k + |gap|] == gap && s[k + |gap|] == '%';
    GapSpan(s, k, gap);
  }

  /** `\s*(?:EUR|€)` matches where spaces and then the unit follow. */
  lemma UnitAfterGap(s: string, k: nat, gap: string, unit: string)
    requires k <= |s| && s[k..] == gap + unit && AllSpaces(gap)
    requires unit == "EUR" || unit == "€"
    ensures UnitAt(s, k)
  {
    assert s[k..k + |gap|] == gap && s[k + |gap|] == unit[0];
    GapSpan(s, k, gap);
    if unit == "EUR" {
      assert s[k + |gap|..k + |gap| + 3] == unit;
    }
  }

  /** The percent pattern matches "<digits>,<two digits><spaces>%" as a whole, from its first character. */
  lemma PercentOfParts(d: string, c: string, gap: string)
    requires d != [] && AllDigits(d) && |c| == 2 && AllDigits(c) && AllSpaces(gap)
    ensures SearchPercent(d + "," + c + gap + "%", 0) == Some(d + "," + c)
  {
    var s := d + "," + c + gap + "%";
    CentsLayout(s, d, c, gap, "%");
    PercentAfterGap(s, |d| + 3, gap);
    PercentMatch(s, |d|, |d| + 3);
  }

  /** The EUR pattern matches "<digits and dots><spaces><unit>" from its first character. */
  lemma EurOfWhole(d: string, gap: string, unit: string)
    requires d != [] && forall k :: 0 <= k < |d| ==> IsDigitOrDot(d[k])
    requires AllSpaces(gap) && (unit == "EUR" || unit == "€")
    ensures SearchEur(d + gap + unit, 0) == Some(d)
  {
    var s := d + gap + unit;
    WholeLayout(s, d, gap, unit);
    UnitAfterGap(s, |d|, gap, unit);
    EurMatchWhole(s, |d|);
  }

  /** The EUR pattern matches "<digits and dots>,<two digits><spaces><unit>" from its first character. */
  lemma EurOfCents(d: string, c: string, gap: string, unit: string)
    requires d != [] && forall k :: 0 <= k < |d| ==> IsDigitOrDot(d[k])
    requires |c| == 2 && AllDigits(c)
    requires AllSpaces(gap) && (unit == "EUR" || unit == "€")
    ensures SearchEur(d + "," + c + gap + unit, 0) == Some(d + "," + c)
  {
    var s := d + "," + c + gap + unit;
    CentsLayout(s, d, c, gap, unit);
    UnitAfterGap(s, |d| + 3, gap, unit);
    EurMatchCents(s, |d|, |d| + 3);
  }

  // ------------------------------------------------ values of the matches

  /** The comma of "<digits>,<digits>" becomes the decimal point. */
  lemma ReplaceCommaPoint(d: string, c: string)
    requires AllDigits(d) && AllDigits(c)
    ensures ReplaceChar(d + "," + c, ',', '.') == d + "." + c
  {
    var r := ReplaceChar(d + "," + c, ',', '.');
    var t := d + "." + c;
    forall k | 0 <= k < |t|
      ensures r[k] == t[k]
    {
      if k < |d| {
        assert (d + "," + c)[k] == d[k];
      } else if k > |d| {
        assert (d + "," + c)[k] == c[k - |d| - 1];
      }
    }
  }

  lemma ReplaceAbsent(s: string, x: char, y: char)
    requires AllDigits(s) && !IsDigit(x)
    ensures ReplaceChar(s, x, y) == s
  {
  }

  lemma CentsValue(w: string, n: nat, c: string, cents: nat)
    requires DigitsValue(w) == n && |c| == 2 && DigitsValue(c) == cents
    ensures FractionValue(w, c) == n as real + cents as real / 100.0
  {
    assert Pow10(2) == 100;
  }

  /** "<digits>,<cc>" with its comma made the decimal point is digits + cc/100. */
  lemma CentsFloat(g: string, digits: string, n: nat, c: string, cents: nat)
    requires AllDigits(digits) && DigitsValue(digits) == n
    requires |c| == 2 && AllDigits(c) && DigitsValue(c) == cents
    requires g == digits + "," + c
    ensures FloatOf(ReplaceChar(g, ',', '.')) == Some(n as real + cents as real / 100.0)
  {
    var t := ReplaceChar(g, ',', '.');
    assert t == digits + "." + c by {
      ReplaceCommaPoint(digits, c);
    }
    FloatOfFraction(t, digits, c);
    CentsValue(digits, n, c, cents);
  }

  /** Deleting the dots of "<grouped n>,<cc>" leaves "<digits of n>,<cc>". */
  lemma GroupedCentsDigits(d: string, digits: string, c: string)
    requires RemoveChar(d, '.') == digits && |c| == 2 && AllDigits(c)
    ensures RemoveChar(d + "," + c, '.') == digits + "," + c
  {
    RemoveCharAppend(d + ",", c, '.');
    RemoveCharAppend(d, ",", '.');
    RemoveAbsentChar(",", '.');
    RemoveAbsentChar(c, '.');
  }

  // ------------------------------------------------ round trips

  /**
   * Round trip for percentages: "<n>,<cc><spaces>%" (n without grouping,
   * cc two digits) reads back as n + cc/100, as in "50,00 %" and "33,33%".
   */
  lemma PercentRoundTrip(s: string, n: nat, cents: nat, gap: string)
    requires cents < 100 && AllSpaces(gap)
    requires s == Decimal(n) + "," + Padded(cents, 2) + gap + "%"
    ensures ParseShare(s) == Share(n as real + cents as real / 100.0)
  {
    var d, c := Decimal(n), Padded(cents, 2);
    PercentOfParts(d, c, gap);
    CentsFloat(d + "," + c, d, n, c, cents);
  }

  /** Grouped digits followed by spaces and a unit contain no '%'. */
  lemma NoPercentInAmount(s: string, d: string, rest: string)
    requires s == d + rest && '%' !in rest
    requires forall k :: 0 <= k < |d| ==> IsDigitOrDot(d[k])
    ensures SearchPercent(s, 0) == None
  {
    assert '%' !in s;
    NoPercentSign(s, 0);
  }

  /** In "<digits and dots><spaces><unit>" the percent search fails and the EUR search finds the amount. */
  lemma EurWholeFound(s: string, d: string, gap: string, unit: string)
    requires d != [] && forall k :: 0 <= k < |d| ==> IsDigitOrDot(d[k])
    requires AllSpaces(gap) && (unit == "EUR" || unit == "€")
    requires s == d + gap + unit
    ensures SearchPercent(s, 0) == None && SearchEur(s, 0) == Some(d)
  {
    assert '%' !in gap + unit;
    assert s == d + (gap + unit);
    NoPercentInAmount(s, d, gap + unit);
    EurOfWhole(d, gap, unit);
  }

  /** In "<digits and dots>,<cc><spaces><unit>" the percent search fails and the EUR search finds the amount. */
  lemma EurCentsFound(s: string, d: string, c: string, gap: string, unit: string)
    requires d != [] && forall k :: 0 <= k < |d| ==> IsDigitOrDot(d[k])
    requires |c| == 2 && AllDigits(c)
    requires AllSpaces(gap) && (unit == "EUR" || unit == "€")
    requires s == d + "," + c + gap + unit
    ensures SearchPercent(s, 0) == None && SearchEur(s, 0) == Some(d + "," + c)
  {
    var rest := "," + c + gap + unit;
    assert '%' !in rest;
    assert s == d + rest;
    NoPercentInAmount(s, d, rest);
    EurOfCents(d, c, gap, unit);
  }

  /**
   * Round trip for whole EUR amounts: "<n grouped by dots><spaces>EUR" (or
   * "€") reads back as n, as in "12.500 EUR": the dots are thousands
   * separators, never a decimal point.
   */
  lemma EurRoundTripWhole(s: string, n: nat, gap: string, unit: string)
    requires AllSpaces(gap) && (unit == "EUR" || unit == "€")
    requires s == Grouped(n) + gap + unit
    ensures ParseShare(s) == Share(n as real)
  {
    var d := Grouped(n);
    EurWholeFound(s, d, gap, unit);
    var digits := RemoveChar(d, '.');
    GroupedDigits(n);
    ReplaceAbsent(digits, ',', '.');
    FloatOfDigits(digits);
  }

  /**
   * Round trip for EUR amounts with cents: "<n grouped by dots>,<cc><spaces>EUR"
   * (or "€") reads back as n + cc/100, as in "25.000,00 EUR".
   */
  lemma EurRoundTripCents(s: string, n: nat, cents: nat, gap: string, unit: string)
    requires cents < 100 && AllSpaces(gap) && (unit == "EUR" || unit == "€")
    requires s == Grouped(n) + "," + Padded(cents, 2) + gap + unit
    ensures ParseShare(s) == Share(n as real + cents as real / 100.0)
  {
    var d, c := Grouped(n), Padded(cents, 2);
    EurCentsFound(s, d, c, gap, unit);
    var digits := RemoveChar(d, '.');
    GroupedDigits(n);
    GroupedCentsDigits(d, digits, c);
    CentsFloat(RemoveChar(d + "," + c, '.'), digits, n, c, cents);
  }

  /** A run of dots before the unit is matched, leaves "" after deleting the dots, and `float("")` raises. */
  lemma DotsOnlyUnparsable(s: string, dots: nat, gap: string)
    requires dots > 0 && AllSpaces(gap)
    requires s == seq(dots, _ => '.') + gap + "EUR"
    ensures ParseShare(s) == Unparsable
  {
    var d: string := seq(dots, _ => '.');
    NoPercentInAmount(s, d, gap + "EUR");
    EurOfWhole(d, gap, "EUR");
    AllDotsRemoved(d);
  }

  lemma {:induction false} AllDotsRemoved(d: string)
    requires forall k :: 0 <= k < |d| ==> d[k] == '.'
    ensures RemoveChar(d, '.') == []
    decreases |d|
  {
    if d != [] {
      AllDotsRemoved(d[1..]);
    }
  }

  // ------------------------------------------------ examples

  lemma Grouped12500()
    ensures Grouped(12500) == "12.500"
  {
    assert Grouped(12) == "12" by { assert Decimal(1) == "1"; }
    Padded500();
  }

  lemma Padded500()
    ensures Padded(500, 3) == "500"
  {
    assert Padded(5, 1) == "5";
    assert Padded(50, 2) == "50";
  }

  lemma Grouped25000()
    ensures Grouped(25000) == "25.000"
  {
    assert Grouped(25) == "25" by { assert Decimal(2) == "2"; }
    Padded000();
  }

  lemma Padded000()
    ensures Padded(0, 3) == "000"
  {
    assert Padded(0, 1) == "0";
    assert Padded(0, 2) == "00";
  }

  lemma Spelled50(s: string)
    requires s == "50,00 %"
    ensures s == Decimal(50) + "," + Padded(0, 2) + " " + "%"
  {
    assert s == "50" + "," + "00" + " " + "%";
    assert Decimal(50) == "50" by { assert Decimal(5) == "5"; }
    assert Padded(0, 2) == "00" by { assert Padded(0, 1) == "0"; }
  }

  lemma Spelled33(s: string)
    requires s == "33,33%"
    ensures s == Decimal(33) + "," + Padded(33, 2) + "" + "%"
  {
    assert s == "33" + "," + "33" + "" + "%";
    assert Decimal(33) == "33" by { assert Decimal(3) == "3"; }
    assert Padded(33, 2) == "33" by { assert Padded(3, 1) == "3"; }
  }

  lemma Spelled12500(s: string)
    requires s == "12.500 EUR"
    ensures s == Grouped(12500) + " " + "EUR"
  {
    assert s == "12.500" + " " + "EUR";
    Grouped12500();
  }

  lemma Spelled25000(s: string)
    requires s == "25.000,00 EUR"
    ensures s == Grouped(25000) + "," + Padded(0, 2) + " " + "EUR"
  {
    assert s == "25.000" + "," + "00" + " " + "EUR";
    Grouped25000();
    assert Padded(0, 2) == "00" by { assert Padded(0, 1) == "0"; }
  }

  /** A percentage with a space before the sign. */
  lemma PercentExample50(s: string)
    requires s == "50,00 %"
    ensures ParseShare(s) == Share(50.0)
  {
    Spelled50(s);
    PercentRoundTrip(s, 50, 0, " ");
  }

  /** A percentage without a space before the sign. */
  lemma PercentExample33(s: string)
    requires s == "33,33%"
    ensures ParseShare(s) == Share(33.33)
  {
    Spelled33(s);
    PercentRoundTrip(s, 33, 33, "");
  }

  /** A thousands dot is not a decimal point. */
  lemma AmountExample12500(s: string)
    requires s == "12.500 EUR"
    ensures ParseShare(s) == Share(12500.0)
  {
    Spelled12500(s);
    EurRoundTripWhole(s, 12500, " ", "EUR");
  }

  /** Cents follow the comma. */
  lemma AmountExample25000(s: string)
    requires s == "25.000,00 EUR"
    ensures ParseShare(s) == Share(25000.0)
  {
    Spelled25000(s);
    EurRoundTripCents(s, 25000, 0, " ", "EUR");
  }

  /** Text without a number gives no share. */
  lemma NoNumberExample(s: string)
    requires s == "keine Angabe"
    ensures ParseShare(s) == NoShare
  {
    NoNumberNoShare(s);
  }

  /** A bare dot before "EUR" is a parse error. */
  lemma BareDotExample(s: string)
    requires s == ". EUR"
    ensures ParseShare(s) == Unparsable
  {
    DotsOnlyUnparsable(s, 1, " ");
  }
}
