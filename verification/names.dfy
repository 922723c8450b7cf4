/**
 * Name handling of the shareholder-list parser: `_clean_name`, the
 * non-person filter shared by both extraction paths, and the natural-person
 * classifier `_is_natural_person` with its marker table.
 */
module NameRules {
  import opened Text

  /** Substrings that mark a legal entity, compared upper-cased. */
  const LegalEntityMarkers: seq<string> := [
    "GmbH", "AG", "KG", "SE", "UG", "OHG", "e.V.", "e. V.",
    "Stiftung", "Ltd.", "B.V.", "S.A.", "S.L.", "Inc.", "Corp.",
    "Holding", "Beteiligungs", "Verwaltungs", "& Co.", "mbH",
    "Kommanditgesellschaft", "Aktiengesellschaft", "Genossenschaft",
    "GbR", "PartG", "EWIV", "KGaA", "VVaG"]

  /** Words that show a cell or line is not a person, compared lower-cased. */
  const NonPersonMarkers: seq<string> := [
    "Geschäftsanteil", "Stammkapital", "Nennbetrag", "laufende",
    "Nummer", "Betrag", "Liste", "Gesellschafter", "insgesamt",
    "Summe", "EUR", "Anteil", "Veränderung"]

  // ------------------------------------------------------------ _clean_name

  /** The characters of s that are not whitespace, in order. */
  function NonSpace(s: string): string
  {
    if s == [] then [] else (if IsSpace(s[0]) then [] else [s[0]]) + NonSpace(s[1..])
  }

  /** Single spaces are the only whitespace, and no two are adjacent. */
  predicate SingleSpaced(s: string)
  {
    (forall i :: 0 <= i < |s| && IsSpace(s[i]) ==> s[i] == ' ')
    && forall i :: 0 <= i < |s| - 1 && s[i] == ' ' ==> s[i + 1] != ' '
  }

  predicate IsNonSpace(c: char)
  {
    !IsSpace(c)
  }

  /** `re.sub(r'\s+', ' ', s)`: every maximal whitespace run becomes one space. */
  function CollapseSpaces(s: string): (r: string)
    ensures SingleSpaced(r)
    ensures r == [] <==> s == []
    ensures r != [] ==> (r[0] == ' ' <==> IsSpace(s[0]))
    decreases |s|
  {
    if s == [] then []
    else if IsSpace(s[0]) then " " + CollapseSpaces(s[SkipSpaces(s, 0)..])
    else [s[0]] + CollapseSpaces(s[1..])
  }

  lemma {:induction false} NonSpaceSkip(s: string, j: nat)
    requires j <= |s| && forall k :: 0 <= k < j ==> IsSpace(s[k])
    ensures NonSpace(s) == NonSpace(s[j..])
    decreases j
  {
    if j > 0 {
      NonSpaceSkip(s[1..], j - 1);
      assert s[1..][j - 1..] == s[j..];
    }
  }

  /** Collapsing whitespace keeps every other character, in order. */
  lemma {:induction false} CollapseKeepsText(s: string)
    ensures NonSpace(CollapseSpaces(s)) == NonSpace(s)
    decreases |s|
  {
    if s != [] {
      var r := CollapseSpaces(s);
      if IsSpace(s[0]) {
        var j := SkipSpaces(s, 0);
        CollapseKeepsText(s[j..]);
        assert r[1..] == CollapseSpaces(s[j..]);
        NonSpaceSkip(s, j);
      } else {
        CollapseKeepsText(s[1..]);
        assert r[1..] == CollapseSpaces(s[1..]);
      }
    }
  }

  /** Text that is already single-spaced is left as it is. */
  lemma {:induction false} CollapseFixpoint(s: string)
    requires SingleSpaced(s)
    ensures CollapseSpaces(s) == s
    decreases |s|
  {
    if s != [] {
      if IsSpace(s[0]) {
        assert SkipSpaces(s, 0) == 1;
      }
      assert SingleSpaced(s[1..]) by {
        forall i | 0 <= i < |s[1..]| - 1 && s[1..][i] == ' ' ensures s[1..][i + 1] != ' ' {
          assert s[i + 1] == ' ';
        }
      }
      CollapseFixpoint(s[1..]);
    }
  }

  /** `_clean_name`: collapse whitespace, strip both ends, then drop trailing commas. */
  function CleanName(name: string): (r: string)
    ensures |r| <= |name|
    ensures r == [] || r[|r| - 1] != ','
  {
    assert |CollapseSpaces(name)| <= |name| by { CollapseLength(name); }
    RStripChar(Strip(CollapseSpaces(name)), ',')
  }

  lemma {:induction false} CollapseLength(s: string)
    ensures |CollapseSpaces(s)| <= |s|
    decreases |s|
  {
    if s != [] {
      if IsSpace(s[0]) {
        CollapseLength(s[SkipSpaces(s, 0)..]);
      } else {
        CollapseLength(s[1..]);
      }
    }
  }

  /**
   * What a cleaned name looks like: it does not start with whitespace, its
   * only whitespace is single spaces, and it does not end with a comma.
   */
  lemma CleanNameShape(name: string)
    ensures var r := CleanName(name);
            (r == [] || !IsSpace(r[0])) && SingleSpaced(r) && (r == [] || r[|r| - 1] != ',')
  {
    var c := CollapseSpaces(name);
    var lo := StripSlice(c);
    var u := Strip(c);
    var r := RStripChar(u, ',');
    assert r == u[..|r|];
    forall i | 0 <= i < |r|
      ensures r[i] == c[lo + i]
    {
      assert r[i] == u[i];
    }
    assert SingleSpaced(r) by {
      forall i | 0 <= i < |r| - 1 && r[i] == ' '
        ensures r[i + 1] != ' '
      {
        assert c[lo + i] == ' ';
      }
    }
    if r != [] {
      assert r[0] == u[0];
    }
  }

  /** A name already in cleaned shape without a trailing space is its own clean form. */
  lemma CleanNameFixpoint(name: string)
    requires SingleSpaced(name)
    requires name != [] ==> !IsSpace(name[0]) && !IsSpace(name[|name| - 1]) && name[|name| - 1] != ','
    ensures CleanName(name) == name
  {
    CollapseFixpoint(name);
    if name != [] {
    }
    StripUnpadded(name);
  }

  /**
   * Cleaning twice changes a name exactly when the first cleaning left a
   * trailing space (the comma strip runs after the whitespace strip).
   */
  lemma CleanNameIdempotentIff(name: string)
    ensures var r := CleanName(name);
            CleanName(r) == r <==> r == [] || r[|r| - 1] != ' '
  {
    var r := CleanName(name);
    CleanNameShape(name);
    if r != [] && r[|r| - 1] == ' ' {
      CollapseFixpoint(r);
      var lo := StripSlice(r);
      assert |Strip(r)| < |r|;
    } else {
      CleanNameFixpoint(r);
    }
  }

  /** A word followed by " ," is cleaned to the word and a trailing space, which a second cleaning removes. */
  lemma CleanNameNotIdempotent(word: string)
    requires word != [] && forall k :: 0 <= k < |word| ==> !IsSpace(word[k]) && word[k] != ','
    ensures CleanName(word + " ,") == word + " "
    ensures CleanName(CleanName(word + " ,")) == word
  {
    CleanWordComma(word);
    CleanWordSpace(word);
  }

  lemma CleanWordComma(word: string)
    requires word != [] && forall k :: 0 <= k < |word| ==> !IsSpace(word[k]) && word[k] != ','
    ensures CleanName(word + " ,") == word + " "
  {
    var s := word + " ,";
    assert forall i | 0 <= i < |word| :: s[i] == word[i];
    assert s[|word|] == ' ' && s[|word| + 1] == ',';
    assert SingleSpaced(s);
    CollapseFixpoint(s);
    StripUnpadded(s);
    var t := word + " ";
    assert s[..|s| - 1] == t;
    assert RStripChar(t, ',') == t by { assert t[|t| - 1] == ' '; }
  }

  lemma CleanWordSpace(word: string)
    requires word != [] && forall k :: 0 <= k < |word| ==> !IsSpace(word[k]) && word[k] != ','
    ensures CleanName(word + " ") == word
  {
    var t := word + " ";
    assert forall i | 0 <= i < |word| :: t[i] == word[i];
    assert t[|word|] == ' ';
    assert SingleSpaced(t);
    CollapseFixpoint(t);
    assert SkipSpaces(t, 0) == 0;
    assert SkipSpacesBack(t, |t|) == |word|;
    assert t[..|word|] == word;
  }

  // --------------------------------------------------------- the filters

  /** `any(marker.lower() in name.lower() for marker in NON_PERSON_MARKERS)`. */
  predicate HasNonPersonMarker(name: string)
  {
    ContainsAny(Lower(name), LowerAll(NonPersonMarkers))
  }

  /** `marker.upper() in name.upper()` for some legal-entity marker. */
  predicate HasLegalMarker(name: string)
  {
    ContainsAny(Upper(name), UpperAll(LegalEntityMarkers))
  }

  /** `re.search(r'\d', name)`. */
  predicate HasDigit(s: string)
  {
    exists i :: 0 <= i < |s| && IsDigit(s[i])
  }

  /** `len(s.split())`: the number of maximal runs of non-whitespace characters. */
  function WordCount(s: string): nat
  {
    if s == [] then 0
    else WordCount(s[..|s| - 1]) + (if WordStartsAt(s, |s| - 1) then 1 else 0)
  }

  /** The character at i is the first of a word. */
  predicate WordStartsAt(s: string, i: nat)
    requires i < |s|
  {
    !IsSpace(s[i]) && (i == 0 || IsSpace(s[i - 1]))
  }

  /**
   * `_is_natural_person`: a legal-entity marker anywhere in the upper-cased
   * name (even inside a word) makes it a legal entity; so do more than five
   * words, or any digit. Every other name is a natural person.
   */
  function IsNaturalPerson(name: string): (natural: bool)
    ensures natural ==> !HasLegalMarker(name) && WordCount(name) <= 5 && !HasDigit(name)
    ensures HasLegalMarker(name) ==> !natural
  {
    if HasLegalMarker(name) then false
    else if WordCount(name) > 5 then false
    else if HasDigit(name) then false
    else true
  }

  // ------------------------------------------------ properties of the classifier

  /** Printable ASCII other than the space. */
  predicate Visible(c: char)
  {
    '!' <= c <= '~'
  }

  /** Every legal-entity marker starts and ends with a printable character. */
  lemma MarkerEndsVisible(k: nat)
    requires k < |LegalEntityMarkers|
    ensures var m := LegalEntityMarkers[k]; m != [] && Visible(m[0]) && Visible(m[|m| - 1])
  {
  }

  /** Every upper-cased legal-entity marker is non-empty and has non-whitespace ends. */
  lemma MarkersTrimmed()
    ensures forall k :: 0 <= k < |UpperAll(LegalEntityMarkers)| ==> Trimmed(UpperAll(LegalEntityMarkers)[k])
  {
    forall k | 0 <= k < |UpperAll(LegalEntityMarkers)|
      ensures Trimmed(UpperAll(LegalEntityMarkers)[k])
    {
      var m := LegalEntityMarkers[k];
      MarkerEndsVisible(k);
      CaseKeepsClasses(m[0]);
      CaseKeepsClasses(m[|m| - 1]);
    }
  }

  /** A legal-entity marker, in any letter case, anywhere in a name (even inside a word) makes it a legal entity. */
  lemma MarkerAnywhere(pre: string, w: string, post: string, k: nat)
    requires k < |LegalEntityMarkers| && Upper(w) == Upper(LegalEntityMarkers[k])
    ensures !IsNaturalPerson(pre + w + post)
  {
    var s := pre + w + post;
    assert s[|pre|..|pre| + |w|] == w;
    UpperSlice(s, |pre|, |pre| + |w|);
    ContainsAt(Upper(s), Upper(w), |pre|);
  }

  /** A digit anywhere in a name makes it a legal entity. */
  lemma DigitAnywhere(pre: string, d: char, post: string)
    requires IsDigit(d)
    ensures !IsNaturalPerson(pre + [d] + post)
  {
    assert (pre + [d] + post)[|pre|] == d;
  }

  /** "SE" inside "Sebastian" is enough for the marker test. */
  lemma SebastianIsLegal(name: string)
    requires name == "Sebastian Meier"
    ensures !IsNaturalPerson(name)
  {
    assert Upper("Se") == "SE" == UpperAll(LegalEntityMarkers)[3];
    assert name == "" + "Se" + "bastian Meier";
    MarkerAnywhere("", "Se", "bastian Meier", 3);
  }

  lemma {:induction false} WordCountSpaces(p: string)
    requires AllSpaces(p)
    ensures WordCount(p) == 0
    decreases |p|
  {
    if p != [] {
      WordCountSpaces(p[..|p| - 1]);
    }
  }

  lemma {:induction false} WordCountAppendSpaces(t: string, p: string)
    requires AllSpaces(p)
    ensures WordCount(t + p) == WordCount(t)
    decreases |p|
  {
    if p != [] {
      var q := p[..|p| - 1];
      assert (t + p)[..|t + p| - 1] == t + q;
      WordCountAppendSpaces(t, q);
    } else {
      assert t + p == t;
    }
  }

  lemma {:induction false} WordCountPrependSpaces(p: string, t: string)
    requires AllSpaces(p)
    ensures WordCount(p + t) == WordCount(t)
    decreases |t|
  {
    if t == [] {
      assert p + t == p;
      WordCountSpaces(p);
    } else {
      var u := t[..|t| - 1];
      assert (p + t)[..|p + t| - 1] == p + u;
      WordCountPrependSpaces(p, u);
      var n := |p + t| - 1;
      assert (p + t)[n] == t[|t| - 1];
      if u != [] {
        assert (p + t)[n - 1] == t[|t| - 2];
      } else if p != [] {
        assert (p + t)[n - 1] == p[|p| - 1];
      }
    }
  }

  /** Whitespace around a name does not change its number of words. */
  lemma WordCountStrip(s: string)
    ensures WordCount(Strip(s)) == WordCount(s)
  {
    var lo := StripSlice(s);
    var hi := lo + |Strip(s)|;
    assert s == s[..lo] + Strip(s) + s[hi..];
    assert AllSpaces(s[..lo]) by {
      forall k | 0 <= k < lo
        ensures IsSpace(s[..lo][k])
      {
        assert s[..lo][k] == s[k];
      }
    }
    assert AllSpaces(s[hi..]) by {
      forall k | 0 <= k < |s| - hi
        ensures IsSpace(s[hi..][k])
      {
        assert s[hi..][k] == s[hi + k];
      }
    }
    WordCountAppendSpaces(s[..lo] + Strip(s), s[hi..]);
    WordCountPrependSpaces(s[..lo], Strip(s));
  }

  /** Lower-casing a name does not change its number of words. */
  lemma {:induction false} WordCountLower(s: string)
    ensures WordCount(Lower(s)) == WordCount(s)
    decreases |s|
  {
    if s != [] {
      var n := |s| - 1;
      assert Lower(s)[..n] == Lower(s[..n]);
      WordCountLower(s[..n]);
      CaseKeepsClasses(s[n]);
      if n > 0 {
        CaseKeepsClasses(s[n - 1]);
      }
    }
  }

  /** Whitespace around a name does not change the marker test. */
  lemma LegalMarkerStrip(s: string)
    ensures HasLegalMarker(Strip(s)) == HasLegalMarker(s)
  {
    var lo := UpperStripSlice(s);
    MarkersTrimmed();
    ContainsAnyWithin(Upper(s), lo, lo + |Strip(s)|, Upper(Strip(s)), UpperAll(LegalEntityMarkers));
  }

  /** The upper-cased strip is the slice of the upper-cased name between whitespace. */
  lemma UpperStripSlice(s: string) returns (lo: nat)
    ensures lo + |Strip(s)| <= |s| && Upper(Strip(s)) == Upper(s)[lo..lo + |Strip(s)|]
    ensures SpacesOutside(Upper(s), lo, lo + |Strip(s)|)
  {
    lo := StripSlice(s);
    var hi := lo + |Strip(s)|;
    var u := Upper(s);
    UpperSlice(s, lo, hi);
    forall j | 0 <= j < |u| && !(lo <= j < hi)
      ensures IsSpace(u[j])
    {
      CaseKeepsClasses(s[j]);
    }
  }

  /** Whitespace around a name does not change the digit test. */
  lemma DigitStrip(s: string)
    ensures HasDigit(Strip(s)) == HasDigit(s)
  {
    var lo := StripSlice(s);
    var t := Strip(s);
    if HasDigit(s) {
      var i :| 0 <= i < |s| && IsDigit(s[i]);
      assert lo <= i < lo + |t|;
      assert t[i - lo] == s[i];
    }
    if HasDigit(t) {
      var j :| 0 <= j < |t| && IsDigit(t[j]);
      assert s[lo + j] == t[j];
    }
  }

  /** The classifier ignores letter case. */
  lemma ClassificationIgnoresCase(s: string)
    ensures IsNaturalPerson(Lower(s)) == IsNaturalPerson(s)
  {
    UpperLower(s);
    WordCountLower(s);
    forall i | 0 <= i < |s|
      ensures IsDigit(Lower(s)[i]) == IsDigit(s[i])
    {
      CaseKeepsClasses(s[i]);
    }
  }

  /** The classifier ignores whitespace around the name. */
  lemma ClassificationIgnoresPadding(s: string)
    ensures IsNaturalPerson(Strip(s)) == IsNaturalPerson(s)
  {
    LegalMarkerStrip(s);
    WordCountStrip(s);
    DigitStrip(s);
  }
}
