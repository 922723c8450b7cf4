/**
 * `_calculate_confidence`: five additive factors, clamped at 1.0. Scores are
 * kept in exact hundredths (30 stands for 0.3), so the model is free of
 * floating-point rounding.
 */
module Confidence {
  import opened Basics
  import opened Text
  import opened Models

  // ------------------------------------------------- the birth-date search

  /** `\d{2}\.\d{2}\.\d{4}` matches at i. */
  predicate DateAt(s: string, i: nat)
  {
    i + 10 <= |s|
    && IsDigit(s[i]) && IsDigit(s[i + 1]) && s[i + 2] == '.'
    && IsDigit(s[i + 3]) && IsDigit(s[i + 4]) && s[i + 5] == '.'
    && IsDigit(s[i + 6]) && IsDigit(s[i + 7]) && IsDigit(s[i + 8]) && IsDigit(s[i + 9])
  }

  /** The regular-expression meaning of `\*\s*<date>` at i: a star, any run of whitespace, a date. */
  predicate StarDateAt(s: string, i: nat)
  {
    i < |s| && s[i] == '*'
    && exists j :: i < j <= |s| && DateAt(s, j) && forall k :: i < k < j ==> IsSpace(s[k])
  }

  /** The same match decided greedily: skip all whitespace after the star, then expect the date. */
  predicate BirthDateAt(s: string, i: nat)
  {
    i < |s| && s[i] == '*' && DateAt(s, SkipSpaces(s, i + 1))
  }

  /** Two ends of a whitespace run after position i meet when one stops at a digit and the other at a non-space. */
  lemma RunEnd(s: string, i: nat, j: nat, g: nat)
    requires i < j < |s| && IsDigit(s[j]) && forall k :: i < k < j ==> IsSpace(s[k])
    requires i < g <= |s| && (g == |s| || !IsSpace(s[g])) && forall k :: i < k < g ==> IsSpace(s[k])
    ensures j == g
  {
  }

  /** A date starts with a digit, never with whitespace, so the greedy decision is exact. */
  lemma GreedyIsExact(s: string, i: nat)
    ensures BirthDateAt(s, i) <==> StarDateAt(s, i)
  {
    if i < |s| && s[i] == '*' {
      var g := SkipSpaces(s, i + 1);
      if StarDateAt(s, i) {
        var j :| i < j <= |s| && DateAt(s, j) && forall k :: i < k < j ==> IsSpace(s[k]);
        RunEnd(s, i, j, g);
      }
    }
  }

  /** `re.search` for the birth-date pattern from position i on. */
  function SearchBirthDate(s: string, i: nat): (found: bool)
    requires i <= |s|
    ensures found <==> exists k :: i <= k < |s| && BirthDateAt(s, k)
    decreases |s| - i
  {
    if i == |s| then false else BirthDateAt(s, i) || SearchBirthDate(s, i + 1)
  }

  /** Factor 4 fires iff the text holds a star followed by a DD.MM.YYYY date. */
  lemma BirthDateFound(text: string)
    ensures SearchBirthDate(text, 0) <==> exists k :: 0 <= k < |text| && StarDateAt(text, k)
  {
    forall k | 0 <= k < |text|
      ensures BirthDateAt(text, k) <==> StarDateAt(text, k)
    {
      GreedyIsExact(text, k);
    }
  }

  // ---------------------------------------------------------- the factors

  /** The word whose presence in the lower-cased text is factor 5. */
  const ListTitle: string := "gesellschafterliste"

  predicate AnyTableSource(shs: seq<Shareholder>)
  {
    exists k :: 0 <= k < |shs| && shs[k].source == "table"
  }

  predicate AnyRegexSource(shs: seq<Shareholder>)
  {
    exists k :: 0 <= k < |shs| && Contains(shs[k].source, "regex")
  }

  predicate AnyShare(shs: seq<Shareholder>)
  {
    exists k :: 0 <= k < |shs| && shs[k].sharePercent.Some?
  }

  /** Factor 1: table beats regex; any other source adds nothing. */
  function SourceWeight(shs: seq<Shareholder>): (w: nat)
    ensures w == 30 <==> AnyTableSource(shs)
    ensures w == 15 <==> !AnyTableSource(shs) && AnyRegexSource(shs)
    ensures w == 0 || w == 15 || w == 30
  {
    if AnyTableSource(shs) then 30 else if AnyRegexSource(shs) then 15 else 0
  }

  /** Factor 2: some share was found. */
  function ShareWeight(shs: seq<Shareholder>): (w: nat)
    ensures w == 20 <==> AnyShare(shs)
    ensures w == 0 || w == 20
  {
    if AnyShare(shs) then 20 else 0
  }

  /** Factor 3: a plausible number of shareholders. */
  function CountWeight(n: nat): (w: nat)
    ensures w == 20 <==> 1 <= n <= 10
    ensures w == 10 <==> 10 < n <= 20 || n == 0
    ensures w == 0 <==> n > 20
  {
    if 1 <= n <= 10 then 20 else if n <= 20 then 10 else 0
  }

  /** Factor 4: a birth date in the text. */
  function DateWeight(text: string): (w: nat)
    ensures w == 15 <==> SearchBirthDate(text, 0)
    ensures w == 0 || w == 15
  {
    if SearchBirthDate(text, 0) then 15 else 0
  }

  /** Factor 5: "gesellschafterliste" in the text, in any case. */
  function TitleWeight(text: string): (w: nat)
    ensures w == 15 <==> Contains(Lower(text), ListTitle)
    ensures w == 0 || w == 15
  {
    if Contains(Lower(text), ListTitle) then 15 else 0
  }

  /** `_calculate_confidence` in hundredths. */
  function ConfidenceSpec(shs: seq<Shareholder>, text: string): (c: int)
  {
    if shs == [] then 0
    else
      Min(SourceWeight(shs) + ShareWeight(shs) + CountWeight(|shs|) + DateWeight(text) + TitleWeight(text), 100)
  }

  /** `_calculate_confidence`: accumulate the score factor by factor, then clamp. */
  method CalculateConfidence(shs: seq<Shareholder>, text: string) returns (score: int)
    ensures score == ConfidenceSpec(shs, text)
  {
    if |shs| == 0 {
      return 0;
    }
    score := 0;
    if AnyTableSource(shs) {
      score := score + 30;
    } else if AnyRegexSource(shs) {
      score := score + 15;
    }
    if AnyShare(shs) {
      score := score + 20;
    }
    if 1 <= |shs| <= 10 {
      score := score + 20;
    } else if |shs| <= 20 {
      score := score + 10;
    }
    if SearchBirthDate(text, 0) {
      score := score + 15;
    }
    if Contains(Lower(text), ListTitle) {
      score := score + 15;
    }
    score := Min(score, 100);
  }

  // ----------------------------------------------------------- properties

  /** The confidence always lies in [0, 1], and an empty list scores 0. */
  lemma ConfidenceRange(shs: seq<Shareholder>, text: string)
    ensures 0 <= ConfidenceSpec(shs, text) <= 100
    ensures shs == [] ==> ConfidenceSpec(shs, text) == 0
  {
  }

  /**
   * The weights add up to at most 1.0, so in exact arithmetic the clamp
   * never changes a non-empty list's score: it is the plain sum of the factors.
   */
  lemma ClampInert(shs: seq<Shareholder>, text: string)
    requires shs != []
    ensures ConfidenceSpec(shs, text)
            == SourceWeight(shs) + ShareWeight(shs) + CountWeight(|shs|) + DateWeight(text) + TitleWeight(text)
  {
  }

  /** A non-empty list with a table-sourced entry scores at least 0.3; one of 1 to 10 entries at least 0.2. */
  lemma ConfidenceLowerBounds(shs: seq<Shareholder>, text: string)
    ensures AnyTableSource(shs) ==> ConfidenceSpec(shs, text) >= 30
    ensures 1 <= |shs| <= 10 ==> ConfidenceSpec(shs, text) >= 20
  {
  }

  /**
   * Other things equal, better evidence never lowers the score: a table
   * source scores at least as high as a regex source, a regex source at
   * least as high as none, and shares present at least as high as absent.
   */
  lemma ConfidenceMonotone(a: seq<Shareholder>, b: seq<Shareholder>, text: string)
    requires |a| == |b|
    requires AnyTableSource(b) ==> AnyTableSource(a)
    requires AnyRegexSource(b) ==> AnyTableSource(a) || AnyRegexSource(a)
    requires AnyShare(b) ==> AnyShare(a)
    ensures ConfidenceSpec(a, text) >= ConfidenceSpec(b, text)
  {
    if b != [] {
      ClampInert(a, text);
      ClampInert(b, text);
    }
  }

  /** A table-sourced list scores strictly more than the same list with only regex sources. */
  lemma TableBeatsRegex(a: seq<Shareholder>, b: seq<Shareholder>, text: string)
    requires |a| == |b| && a != []
    requires AnyTableSource(a) && !AnyTableSource(b) && AnyRegexSource(b)
    requires AnyShare(a) == AnyShare(b)
    ensures ConfidenceSpec(a, text) == ConfidenceSpec(b, text) + 15
  {
    ClampInert(a, text);
    ClampInert(b, text);
  }

  /** All five factors present: the full score of 1.0. */
  lemma FullConfidence(shs: seq<Shareholder>, text: string)
    requires 1 <= |shs| <= 10 && AnyTableSource(shs) && AnyShare(shs)
    requires SearchBirthDate(text, 0) && Contains(Lower(text), ListTitle)
    ensures ConfidenceSpec(shs, text) == 100
  {
  }
}
