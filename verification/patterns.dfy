/**
 * `_parse_with_patterns`: the regular-expression fallback. The five
 * patterns run in their dictionary order; the regex engine itself is an
 * input (`found(p)` is what `findall` returns for pattern p on the text,
 * one tuple of groups per match, in match order), and what is verified is
 * the post-processing of every match.
 */
module PatternExtraction {
  import opened Basics
  import opened Text
  import opened Models
  import opened NameRules

  /** The keys of the PATTERNS dictionary. */
  datatype PatternName = StandardBirth | NameFirst | NumberedGeb | NameShare | NameOnly

  /** The dictionary order in which the patterns run. */
  const Patterns: seq<PatternName> := [StandardBirth, NameFirst, NumberedGeb, NameShare, NameOnly]

  /** The dictionary key of a pattern, as it appears in the source tag. */
  function Label(p: PatternName): string
  {
    match p
    case StandardBirth => "standard_birth"
    case NameFirst => "name_first"
    case NumberedGeb => "numbered_geb"
    case NameShare => "name_share"
    case NameOnly => "name_only"
  }

  /** The number of capturing groups, i.e. the size of each tuple `findall` returns. */
  function GroupCount(p: PatternName): nat
  {
    match p
    case StandardBirth => 4
    case NameFirst => 3
    case NumberedGeb => 2
    case NameShare => 3
    case NameOnly => 1
  }

  /** The groups of one match; a one-group pattern's match is a one-element tuple here. */
  type Match = seq<string>

  /** What `findall` guarantees: every tuple has one entry per group. */
  predicate WellFormed(found: PatternName -> seq<Match>)
  {
    forall p: PatternName, i :: 0 <= i < |found(p)| ==> |found(p)[i]| == GroupCount(p)
  }

  /** The name a match stands for: "<first name> <surname>" for standard_birth, group 1 otherwise. */
  function MatchName(p: PatternName, m: Match): string
    requires |m| == GroupCount(p)
  {
    if p == StandardBirth then m[1] + " " + m[0] else m[0]
  }

  /** The source tag of a pattern's shareholders. */
  function RegexSource(p: PatternName): (s: string)
    ensures |s| > 6 && s[..6] == "regex:"
  {
    "regex:" + Label(p)
  }

  /** The validation of a cleaned name: at least 3 characters and no non-person marker. */
  predicate NameValid(name: string)
  {
    |name| >= 3 && !HasNonPersonMarker(name)
  }

  /** The loop body for one match: clean the name, validate it, tag it with the pattern. */
  function MatchShareholder(p: PatternName, m: Match): (r: Option<Shareholder>)
    requires |m| == GroupCount(p)
    ensures r.Some? <==> NameValid(CleanName(MatchName(p, m)))
    ensures r.Some? ==> r.value == NewShareholder(CleanName(MatchName(p, m)), None, RegexSource(p))
  {
    var name := CleanName(MatchName(p, m));
    if NameValid(name) then Some(NewShareholder(name, None, RegexSource(p))) else None
  }

  /** The loop body of pattern p as a function of one match. */
  function Step(p: PatternName): Match --> Option<Shareholder>
  {
    m requires |m| == GroupCount(p) => MatchShareholder(p, m)
  }

  /** An optional shareholder as a list of zero or one. */
  function Listed(o: Option<Shareholder>): seq<Shareholder>
  {
    if o.Some? then [o.value] else []
  }

  /** Every shareholder the matches part under one loop body, in match order. */
  function FromMatches(ms: seq<Match>, keep: Match --> Option<Shareholder>): seq<Shareholder>
    requires forall i :: 0 <= i < |ms| ==> keep.requires(ms[i])
  {
    if ms == [] then [] else FromMatches(ms[..|ms| - 1], keep) + Listed(keep(ms[|ms| - 1]))
  }

  /** What pattern p contributes: the shareholders of its matches, in match order. */
  function Yield(p: PatternName, found: PatternName -> seq<Match>): seq<Shareholder>
    requires WellFormed(found)
  {
    FromMatches(found(p), Step(p))
  }

  /** The contributions of the given patterns, one after another. */
  function Concat(ps: seq<PatternName>, part: PatternName -> seq<Shareholder>): seq<Shareholder>
  {
    if ps == [] then [] else Concat(ps[..|ps| - 1], part) + part(ps[|ps| - 1])
  }

  /** `_parse_with_patterns` as a function of what the patterns find. */
  function PatternsSpec(found: PatternName -> seq<Match>): seq<Shareholder>
    requires WellFormed(found)
  {
    Concat(Patterns, p => Yield(p, found))
  }

  /** The inner loop of `_parse_with_patterns`: append what each match yields. */
  method CollectMatches(ms: seq<Match>, keep: Match --> Option<Shareholder>, init: seq<Shareholder>)
    returns (shareholders: seq<Shareholder>)
    requires forall i :: 0 <= i < |ms| ==> keep.requires(ms[i])
    ensures shareholders == init + FromMatches(ms, keep)
  {
    shareholders := init;
    for i := 0 to |ms|
      invariant shareholders == init + FromMatches(ms[..i], keep)
    {
      assert ms[..i + 1][..i] == ms[..i];
      var kept := keep(ms[i]);
      if kept.Some? {
        shareholders := shareholders + [kept.value];
      }
    }
    assert ms[..|ms|] == ms;
  }

  /** `_parse_with_patterns`: the patterns in dictionary order, each over all its matches. */
  method ParseWithPatterns(found: PatternName -> seq<Match>) returns (shareholders: seq<Shareholder>)
    requires WellFormed(found)
    ensures shareholders == PatternsSpec(found)
  {
    ghost var part := p => Yield(p, found);
    shareholders := [];
    for k := 0 to |Patterns|
      invariant shareholders == Concat(Patterns[..k], part)
    {
      var p := Patterns[k];
      assert Patterns[..k + 1][..k] == Patterns[..k];
      shareholders := CollectMatches(found(p), Step(p), shareholders);
    }
    assert Patterns[..|Patterns|] == Patterns;
  }

  // ------------------------------------------------------ properties

  /** What every shareholder of pattern p looks like. */
  predicate FromPattern(s: Shareholder, p: PatternName)
  {
    s.source == RegexSource(p) && NameValid(s.name) && s.sharePercent == None && s.isNaturalPerson
  }

  /** A shareholder as some pattern yields it. */
  predicate RegexShareholder(s: Shareholder)
  {
    exists p :: FromPattern(s, p)
  }

  /** One match yields at most one shareholder, and it looks like its pattern's. */
  lemma MatchShape(p: PatternName, m: Match)
    requires |m| == GroupCount(p)
    ensures Step(p).requires(m)
    ensures Step(p)(m).Some? ==> FromPattern(Step(p)(m).value, p)
  {
    assert Step(p)(m) == MatchShareholder(p, m);
  }

  /** Whatever holds of every kept match holds of every element of the result. */
  lemma {:induction false} FromMatchesAll(ms: seq<Match>, keep: Match --> Option<Shareholder>, ok: Shareholder -> bool)
    requires forall i :: 0 <= i < |ms| ==> keep.requires(ms[i])
    requires forall i :: 0 <= i < |ms| ==> keep(ms[i]).Some? ==> ok(keep(ms[i]).value)
    ensures |FromMatches(ms, keep)| <= |ms|
    ensures forall k :: 0 <= k < |FromMatches(ms, keep)| ==> ok(FromMatches(ms, keep)[k])
    decreases |ms|
  {
    if ms != [] {
      var init := ms[..|ms| - 1];
      assert forall i :: 0 <= i < |init| ==> init[i] == ms[i];
      FromMatchesAll(init, keep, ok);
    }
  }

  lemma FromMatchesShape(p: PatternName, ms: seq<Match>)
    requires forall i :: 0 <= i < |ms| ==> |ms[i]| == GroupCount(p)
    ensures |FromMatches(ms, Step(p))| <= |ms|
    ensures forall k :: 0 <= k < |FromMatches(ms, Step(p))| ==> RegexShareholder(FromMatches(ms, Step(p))[k])
  {
    forall i | 0 <= i < |ms|
      ensures Step(p).requires(ms[i])
      ensures Step(p)(ms[i]).Some? ==> RegexShareholder(Step(p)(ms[i]).value)
    {
      MatchShape(p, ms[i]);
    }
    FromMatchesAll(ms, Step(p), RegexShareholder);
  }

  /** Whatever holds of every element of every contribution holds of the concatenation. */
  lemma {:induction false} ConcatAll(ps: seq<PatternName>, part: PatternName -> seq<Shareholder>, ok: Shareholder -> bool)
    requires forall p, k :: 0 <= k < |part(p)| ==> ok(part(p)[k])
    ensures forall k :: 0 <= k < |Concat(ps, part)| ==> ok(Concat(ps, part)[k])
    decreases |ps|
  {
    if ps != [] {
      ConcatAll(ps[..|ps| - 1], part, ok);
    }
  }

  /**
   * Every regex shareholder carries the tag "regex:<pattern>" of one of the
   * five patterns, a cleaned name of at least 3 characters without a
   * non-person marker, no share and the default classification.
   */
  lemma PatternResultShape(found: PatternName -> seq<Match>)
    requires WellFormed(found)
    ensures forall k :: 0 <= k < |PatternsSpec(found)| ==> RegexShareholder(PatternsSpec(found)[k])
  {
    var part := p => Yield(p, found);
    forall p, k | 0 <= k < |part(p)|
      ensures RegexShareholder(part(p)[k])
    {
      FromMatchesShape(p, found(p));
    }
    ConcatAll(Patterns, part, RegexShareholder);
  }

  lemma {:induction false} ConcatEmpty(ps: seq<PatternName>, part: PatternName -> seq<Shareholder>)
    requires forall p :: part(p) == []
    ensures Concat(ps, part) == []
    decreases |ps|
  {
    if ps != [] {
      ConcatEmpty(ps[..|ps| - 1], part);
    }
  }

  /** When no pattern matches (as on an empty text) there are no shareholders. */
  lemma NoMatchesNoShareholders(found: PatternName -> seq<Match>)
    requires WellFormed(found) && forall p :: found(p) == []
    ensures PatternsSpec(found) == []
  {
    var part := p => Yield(p, found);
    forall p ensures part(p) == [] {
      assert found(p) == [];
    }
    ConcatEmpty(Patterns, part);
  }

  lemma ConcatTwo(q1: PatternName, q2: PatternName, part: PatternName -> seq<Shareholder>)
    ensures Concat([q1, q2], part) == part(q1) + part(q2)
  {
    assert [q1, q2][..1] == [q1];
    assert [q1][..0] == [];
    assert Concat([q1], part) == [] + part(q1) == part(q1);
  }

  lemma ConcatThree(q1: PatternName, q2: PatternName, q3: PatternName, part: PatternName -> seq<Shareholder>)
    ensures Concat([q1, q2, q3], part) == part(q1) + part(q2) + part(q3)
  {
    assert [q1, q2, q3][..2] == [q1, q2];
    ConcatTwo(q1, q2, part);
  }

  lemma ConcatFour(q1: PatternName, q2: PatternName, q3: PatternName, q4: PatternName,
                   part: PatternName -> seq<Shareholder>)
    ensures Concat([q1, q2, q3, q4], part) == part(q1) + part(q2) + part(q3) + part(q4)
  {
    assert [q1, q2, q3, q4][..3] == [q1, q2, q3];
    ConcatThree(q1, q2, q3, part);
  }

  lemma ConcatFive(q1: PatternName, q2: PatternName, q3: PatternName, q4: PatternName, q5: PatternName,
                   part: PatternName -> seq<Shareholder>)
    ensures Concat([q1, q2, q3, q4, q5], part) == part(q1) + part(q2) + part(q3) + part(q4) + part(q5)
  {
    assert [q1, q2, q3, q4, q5][..4] == [q1, q2, q3, q4];
    ConcatFour(q1, q2, q3, q4, part);
  }

  /** The results come pattern by pattern in dictionary order, each pattern's in match order. */
  lemma PatternOrder(found: PatternName -> seq<Match>)
    requires WellFormed(found)
    ensures PatternsSpec(found)
            == Yield(StandardBirth, found) + Yield(NameFirst, found) + Yield(NumberedGeb, found)
               + Yield(NameShare, found) + Yield(NameOnly, found)
  {
    ConcatFive(StandardBirth, NameFirst, NumberedGeb, NameShare, NameOnly, p => Yield(p, found));
  }

  /** Matches of one pattern are handled one after another and independently. */
  lemma {:induction false} FromMatchesAppend(a: seq<Match>, b: seq<Match>, keep: Match --> Option<Shareholder>)
    requires forall i :: 0 <= i < |a| ==> keep.requires(a[i])
    requires forall i :: 0 <= i < |b| ==> keep.requires(b[i])
    ensures FromMatches(a + b, keep) == FromMatches(a, keep) + FromMatches(b, keep)
    decreases |b|
  {
    if b == [] {
      assert a + b == a;
    } else {
      var b' := b[..|b| - 1];
      assert (a + b)[..|a + b| - 1] == a + b';
      assert (a + b)[|a + b| - 1] == b[|b| - 1];
      FromMatchesAppend(a, b', keep);
    }
  }

  /** A word: non-empty, no whitespace, no comma. */
  predicate PlainWord(w: string)
  {
    w != [] && forall i :: 0 <= i < |w| ==> !IsSpace(w[i]) && w[i] != ','
  }

  /**
   * standard_birth captures surname first ("Mustermann, Max, ..."); the
   * shareholder's name is "<first name> <surname>", unchanged by cleaning
   * when both are single words.
   */
  lemma StandardBirthSwapsNames(m: Match)
    requires |m| == 4 && PlainWord(m[0]) && PlainWord(m[1])
    ensures CleanName(MatchName(StandardBirth, m)) == m[1] + " " + m[0]
  {
    var name := m[1] + " " + m[0];
    assert forall i :: 0 <= i < |m[1]| ==> name[i] == m[1][i];
    assert forall i :: 0 <= i < |m[0]| ==> name[|m[1]| + 1 + i] == m[0][i];
    assert name[|m[1]|] == ' ';
    CleanNameFixpoint(name);
  }
}
