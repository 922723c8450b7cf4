/**
 * The register-number grammar the import pipeline and the register-portal
 * client share: `(HRB|HRA|GNR|VR|PR)\s*(\d+)\s*([A-Z])?`, decided at one
 * position with the regex engine's backtracking worked out.
 */
module RegisterNumbers {
  import opened Basics
  import opened Text

  /** The alternatives of `(HRB|HRA|GNR|VR|PR)`, in the order the engine tries them. */
  const RegisterTypes: seq<string> := ["HRB", "HRA", "GNR", "VR", "PR"]

  /** The groups of one match: register type, number, optional one-letter suffix. */
  datatype RegisterMatch = RegisterMatch(regType: string, number: string, suffix: Option<char>)

  /** What a match can hold: a listed type, a non-empty digit string, an ASCII capital as suffix. */
  predicate WellFormed(r: RegisterMatch)
  {
    r.regType in RegisterTypes && r.number != [] && AllDigits(r.number)
    && (r.suffix.Some? ==> IsAsciiUpper(r.suffix.value))
  }

  /** The register type spelled at i. No alternative is a prefix of another, so at most one fits. */
  function TypeAt(s: string, i: nat): (t: Option<string>)
    ensures t.Some? ==> t.value in RegisterTypes && OccursAt(s, t.value, i)
  {
    if i + 3 <= |s| && s[i] == 'H' && s[i + 1] == 'R' && s[i + 2] == 'B' then Some("HRB")
    else if i + 3 <= |s| && s[i] == 'H' && s[i + 1] == 'R' && s[i + 2] == 'A' then Some("HRA")
    else if i + 3 <= |s| && s[i] == 'G' && s[i + 1] == 'N' && s[i + 2] == 'R' then Some("GNR")
    else if i + 2 <= |s| && s[i] == 'V' && s[i + 1] == 'R' then Some("VR")
    else if i + 2 <= |s| && s[i] == 'P' && s[i + 1] == 'R' then Some("PR")
    else None
  }

  /** Whichever alternative is spelled at i is the one TypeAt reports. */
  lemma TypeAtUnique(s: string, i: nat, t: string)
    requires t in RegisterTypes && OccursAt(s, t, i)
    ensures TypeAt(s, i) == Some(t)
  {
    assert s[i..i + |t|][0] == s[i] && s[i..i + |t|][1] == s[i + 1];
    if |t| == 3 {
      assert s[i..i + |t|][2] == s[i + 2];
    }
  }

  /** No register type starts at i when the character there cannot begin one or nothing follows it. */
  lemma NoTypeAt(s: string, i: nat)
    requires i + 1 >= |s| || !(s[i] in "HGVP")
    ensures TypeAt(s, i).None?
  {
  }

  /** The slice a digit run spans is a digit string. */
  lemma DigitSlice(s: string, d: nat, e: nat)
    requires d <= e <= |s| && forall k :: d <= k < e ==> IsDigit(s[k])
    ensures AllDigits(s[d..e])
  {
    forall k | 0 <= k < e - d
      ensures IsDigit(s[d..e][k])
    {
      assert s[d..e][k] == s[d + k];
    }
  }

  /**
   * `(HRB|HRA|GNR|VR|PR)\s*(\d+)\s*([A-Z])?` anchored at i. Only the maximal
   * whitespace run can be followed by a digit, the maximal digit run is tried
   * first, and the rest always matches (if need be the empty string), so the
   * first match the engine finds is the greedy one computed here.
   */
  function RegisterAt(s: string, i: nat): (m: Option<RegisterMatch>)
    ensures m.Some? ==> WellFormed(m.value) && TypeAt(s, i) == Some(m.value.regType)
    ensures TypeAt(s, i).None? ==> m.None?
  {
    match TypeAt(s, i)
    case None => None
    case Some(t) =>
      var d := SkipSpaces(s, i + |t|);
      var e := SkipDigits(s, d);
      if e == d then None
      else
        var x := SkipSpaces(s, e);
        DigitSlice(s, d, e);
        Some(RegisterMatch(t, s[d..e], if x < |s| && IsAsciiUpper(s[x]) then Some(s[x]) else None))
  }

  /** The leftmost position k in [i, n] where `at` finds a match, and that match: how `re.search` scans. */
  function Leftmost<T>(i: nat, n: nat, at: nat -> Option<T>): (m: Option<T>)
    requires i <= n
    ensures m.None? <==> forall k :: i <= k <= n ==> at(k).None?
    ensures m.Some? ==> exists k :: i <= k <= n && m == at(k) && forall j :: i <= j < k ==> at(j).None?
    decreases n - i
  {
    if at(i).Some? then at(i)
    else if i >= n then None
    else Leftmost(i + 1, n, at)
  }

  /** The anchored register match, as a function of the position. */
  function RegisterAtPosition(s: string): nat -> Option<RegisterMatch>
  {
    (k: nat) => RegisterAt(s, k)
  }

  /** `re.search` for the register grammar. */
  function SearchRegister(s: string): (m: Option<RegisterMatch>)
    ensures m.None? <==> forall k :: 0 <= k <= |s| ==> RegisterAt(s, k).None?
    ensures m.Some? ==> exists k :: 0 <= k <= |s| && m == RegisterAt(s, k) && forall j :: 0 <= j < k ==> RegisterAt(s, j).None?
  {
    var at := RegisterAtPosition(s);
    assert forall k: nat :: at(k) == RegisterAt(s, k);
    Leftmost(0, |s|, at)
  }

  /** The suffix as the pipeline prints it after the number. */
  function SuffixText(suffix: Option<char>): (r: string)
    ensures suffix.None? ==> r == []
    ensures suffix.Some? ==> r == [' ', suffix.value]
  {
    if suffix.Some? then [' ', suffix.value] else []
  }

  /** The canonical spelling "HRB 12345" or "HRB 12345 B", as the pipeline stores it. */
  function Spelled(r: RegisterMatch): (s: string)
    ensures |s| == |r.regType| + 1 + |r.number| + |SuffixText(r.suffix)|
  {
    r.regType + " " + r.number + SuffixText(r.suffix)
  }

  /** Where the pieces of `p + Spelled(r)` sit. */
  lemma SpelledLayout(p: string, r: RegisterMatch)
    ensures var s := p + Spelled(r);
            var d := |p| + |r.regType| + 1;
            var e := d + |r.number|;
            s[..|p|] == p && s[|p|..|p| + |r.regType|] == r.regType && s[d - 1] == ' '
            && s[d..e] == r.number
            && (r.suffix.Some? ==> |s| == e + 2 && s[e] == ' ' && s[e + 1] == r.suffix.value)
            && (r.suffix.None? ==> |s| == e)
  {
    var s := p + Spelled(r);
    assert s == p + r.regType + " " + r.number + SuffixText(r.suffix);
  }

  /** A whitespace run that stops at a non-space (or at the end) is the one SkipSpaces finds. */
  lemma SkipSpacesIs(s: string, i: nat, j: nat)
    requires i <= j <= |s|
    requires forall k :: i <= k < j ==> IsSpace(s[k])
    requires j == |s| || !IsSpace(s[j])
    ensures SkipSpaces(s, i) == j
    decreases j - i
  {
  }

  /** RegisterAt once the type, both runs and the suffix are known. */
  lemma RegisterAtIs(s: string, i: nat, r: RegisterMatch, d: nat, e: nat)
    requires TypeAt(s, i) == Some(r.regType)
    requires i + |r.regType| <= d <= |s| && SkipSpaces(s, i + |r.regType|) == d
    requires d < e <= |s| && SkipDigits(s, d) == e && s[d..e] == r.number
    requires var x := SkipSpaces(s, e);
             r.suffix == if x < |s| && IsAsciiUpper(s[x]) then Some(s[x]) else None
    ensures RegisterAt(s, i) == Some(r)
  {
  }

  /** A digit string laid out at d and not followed by a digit is the digit run at d. */
  lemma DigitRunAt(s: string, d: nat, n: string)
    requires n != [] && AllDigits(n) && d + |n| <= |s| && s[d..d + |n|] == n
    requires d + |n| == |s| || !IsDigit(s[d + |n|])
    ensures !IsSpace(s[d]) && SkipDigits(s, d) == d + |n|
  {
    forall k | d <= k < d + |n|
      ensures IsDigit(s[k])
    {
      assert s[k] == s[d..d + |n|][k - d];
    }
    SkipDigitsIs(s, d, d + |n|);
  }

  /** What follows the number: nothing, or one space and the suffix letter. */
  lemma SuffixAt(s: string, e: nat, suffix: Option<char>)
    requires suffix.Some? ==> |s| == e + 2 && s[e] == ' ' && IsAsciiUpper(suffix.value) && s[e + 1] == suffix.value
    requires suffix.None? ==> |s| == e
    ensures e <= |s| && (e == |s| || !IsDigit(s[e]))
    ensures var x := SkipSpaces(s, e);
            suffix == if x < |s| && IsAsciiUpper(s[x]) then Some(s[x]) else None
  {
    var x := if suffix.Some? then e + 1 else e;
    SkipSpacesIs(s, e, x);
  }

  /** A single space before a non-space is the whole run. */
  lemma OneSpace(s: string, j: nat)
    requires j + 1 < |s| && s[j] == ' ' && !IsSpace(s[j + 1])
    ensures SkipSpaces(s, j) == j + 1
  {
    assert SkipSpaces(s, j + 1) == j + 1;
  }

  /** A well-formed register laid out at i, with one space before the number and one before the suffix, matches there. */
  lemma MatchesLaidOut(s: string, i: nat, r: RegisterMatch)
    requires r.number != [] && AllDigits(r.number) && (r.suffix.Some? ==> IsAsciiUpper(r.suffix.value))
    requires i + |r.regType| + 1 + |r.number| <= |s|
    requires TypeAt(s, i) == Some(r.regType) && s[i + |r.regType|] == ' '
    requires s[i + |r.regType| + 1..i + |r.regType| + 1 + |r.number|] == r.number
    requires var e := i + |r.regType| + 1 + |r.number|;
             (r.suffix.Some? ==> |s| == e + 2 && s[e] == ' ' && s[e + 1] == r.suffix.value)
             && (r.suffix.None? ==> |s| == e)
    ensures RegisterAt(s, i) == Some(r)
  {
    var d := i + |r.regType| + 1;
    var e := d + |r.number|;
    SuffixAt(s, e, r.suffix);
    DigitRunAt(s, d, r.number);
    OneSpace(s, i + |r.regType|);
    RegisterAtIs(s, i, r, d, e);
  }

  /** Matching reads back exactly the groups a well-formed register was spelled from, whatever precedes it. */
  lemma SpelledRoundTrip(p: string, r: RegisterMatch)
    requires WellFormed(r)
    ensures RegisterAt(p + Spelled(r), |p|) == Some(r)
  {
    SpelledLayout(p, r);
    TypeAtUnique(p + Spelled(r), |p|, r.regType);
    MatchesLaidOut(p + Spelled(r), |p|, r);
  }

  /** Every register type is spelled in ASCII capitals. */
  lemma TypesAreCapitals(t: string)
    requires t in RegisterTypes
    ensures t != [] && forall k :: 0 <= k < |t| ==> IsAsciiUpper(t[k])
  {
  }

  /** The canonical spelling is already stripped and upper-cased, so normalising it changes nothing. */
  lemma SpelledIsNormal(r: RegisterMatch)
    requires WellFormed(r)
    ensures Strip(Spelled(r)) == Spelled(r) && Upper(Spelled(r)) == Spelled(r)
  {
    var s := Spelled(r);
    var t := r.regType;
    TypesAreCapitals(t);
    assert s == t + " " + r.number + SuffixText(r.suffix);
    forall k | 0 <= k < |s|
      ensures IsAsciiUpper(s[k]) || IsDigit(s[k]) || s[k] == ' '
    {
      if k < |t| {
        assert s[k] == t[k];
      } else if |t| < k < |t| + 1 + |r.number| {
        assert s[k] == r.number[k - |t| - 1];
      }
    }
    assert Upper(s) == s;
    assert !IsSpace(s[|s| - 1]) by {
      if r.suffix.None? {
        assert s[|s| - 1] == r.number[|r.number| - 1];
      }
    }
    StripUnpadded(s);
  }
}
