/**
 * The import pipeline's pure helpers: reading a company's register field,
 * deriving a register court from a city, picking a CSV column's value, the
 * delimiter guess, the stored register-number column, and the
 * qualification test applied to a parse.
 */
module Pipeline {
  import opened Basics
  import opened Text
  import opened Models
  import opened Lookup
  import opened RegisterNumbers
  import Downloader
  import NameRules
  import Parser
  import PatternExtraction

  // ------------------------------------------------------------- CSV input

  /** How many characters of the file the delimiter guess looks at. */
  const SampleSize: nat := 1024

  /** `f.read(1024)`: the first 1024 characters of the decoded file. */
  function Sample(content: string): (sample: string)
    ensures |sample| == Min(SampleSize, |content|) && sample == content[..|sample|]
  {
    content[..Min(SampleSize, |content|)]
  }

  /**
   * The delimiter guess: keep the requested delimiter if the sample holds it,
   * else ',' if the sample holds one, else a tab.
   */
  function ChooseDelimiter(sample: string, requested: char): (d: char)
    ensures requested in sample ==> d == requested
    ensures d in sample || (d == '\t' && requested !in sample && ',' !in sample)
    ensures d != requested ==> requested !in sample && (d == ',' <==> ',' in sample)
  {
    if requested !in sample then (if ',' in sample then ',' else '\t') else requested
  }

  /** A header as the column lookup keys it: lower-cased and stripped. */
  function Normalised(header: string): string
  {
    Strip(Lower(header))
  }

  /** Each header under its key, a later header replacing an earlier one with the same key. */
  function IndexBy<K>(headers: seq<string>, key: string -> K): (index: map<K, string>)
    ensures index.Keys == set k | 0 <= k < |headers| :: key(headers[k])
    decreases |headers|
  {
    if headers == [] then map[]
    else
      var init := headers[..|headers| - 1];
      assert forall k :: 0 <= k < |init| ==> init[k] == headers[k];
      IndexBy(init, key)[key(headers[|headers| - 1]) := headers[|headers| - 1]]
  }

  /** Of several headers with the same key, the last one is the one kept. */
  lemma {:induction false} IndexByLastWins<K>(headers: seq<string>, key: string -> K, k: nat)
    requires k < |headers| && forall j :: k < j < |headers| ==> key(headers[j]) != key(headers[k])
    ensures IndexBy(headers, key)[key(headers[k])] == headers[k]
    decreases |headers|
  {
    if k < |headers| - 1 {
      var init := headers[..|headers| - 1];
      assert forall j :: 0 <= j < |init| ==> init[j] == headers[j];
      IndexByLastWins(init, key, k);
    }
  }

  /** `{fn.lower().strip(): fn for fn in reader.fieldnames}`. */
  function FieldIndex(headers: seq<string>): map<string, string>
  {
    IndexBy(headers, Normalised)
  }

  /** The column lookup knows every header by its normalised name, the last such header winning. */
  lemma FieldIndexFinds(headers: seq<string>, k: nat)
    requires k < |headers| && forall j :: k < j < |headers| ==> Normalised(headers[j]) != Normalised(headers[k])
    ensures Normalised(headers[k]) in FieldIndex(headers) && FieldIndex(headers)[Normalised(headers[k])] == headers[k]
  {
    IndexByLastWins(headers, Normalised, k);
  }

  /** A CSV row as DictReader gives it: each header's value, None where the row ran short. */
  type CsvRow = map<string, Option<string>>

  /** `row.get(name, "")` as far as its truth matters: the text, or "" when missing or None. */
  function RawValue(row: CsvRow, name: string): string
  {
    if name in row && row[name].Some? then row[name].value else ""
  }

  /** The candidate names a known column whose value in this row is non-empty. */
  predicate Answers(row: CsvRow, fieldnames: map<string, string>, candidate: string)
  {
    candidate in fieldnames && RawValue(row, fieldnames[candidate]) != []
  }

  /** Candidate k is the first that answers. */
  predicate FirstAnswerAt(row: CsvRow, fieldnames: map<string, string>, candidates: seq<string>, k: int)
  {
    0 <= k < |candidates| && Answers(row, fieldnames, candidates[k])
    && forall j :: 0 <= j < k ==> !Answers(row, fieldnames, candidates[j])
  }

  /** The candidate loop from candidate i on. */
  function GetFieldFrom(row: CsvRow, fieldnames: map<string, string>, candidates: seq<string>, i: nat): (r: Option<string>)
    requires i <= |candidates| && forall j :: 0 <= j < i ==> !Answers(row, fieldnames, candidates[j])
    ensures r.None? <==> forall k :: 0 <= k < |candidates| ==> !Answers(row, fieldnames, candidates[k])
    ensures r.Some? ==> exists k :: FirstAnswerAt(row, fieldnames, candidates, k)
                                   && r.value == Strip(RawValue(row, fieldnames[candidates[k]]))
    decreases |candidates| - i
  {
    if i == |candidates| then None
    else if Answers(row, fieldnames, candidates[i]) then
      assert FirstAnswerAt(row, fieldnames, candidates, i);
      Some(Strip(RawValue(row, fieldnames[candidates[i]])))
    else GetFieldFrom(row, fieldnames, candidates, i + 1)
  }

  /** `_get_field`: the stripped value of the first candidate column with a non-empty value. */
  function GetField(row: CsvRow, fieldnames: map<string, string>, candidates: seq<string>): (r: Option<string>)
    ensures r.None? <==> forall k :: 0 <= k < |candidates| ==> !Answers(row, fieldnames, candidates[k])
    ensures r.Some? ==> exists k :: FirstAnswerAt(row, fieldnames, candidates, k)
                                   && r.value == Strip(RawValue(row, fieldnames[candidates[k]]))
  {
    GetFieldFrom(row, fieldnames, candidates, 0)
  }

  /** A value of whitespace only is found, and reads as the empty string. */
  lemma BlankValueReadsEmpty(row: CsvRow, fieldnames: map<string, string>, candidates: seq<string>)
    requires candidates != [] && Answers(row, fieldnames, candidates[0])
    requires AllSpaces(RawValue(row, fieldnames[candidates[0]]))
    ensures GetField(row, fieldnames, candidates) == Some([])
  {
    var v := RawValue(row, fieldnames[candidates[0]]);
    assert SkipSpaces(v, 0) == |v| by {
      SkipSpacesIs(v, 0, |v|);
    }
  }

  // ------------------------------------------------------------- `_city_to_court`

  /** The city-to-court table, in insertion order. */
  const CourtMap: seq<(string, string)> := [
      ("berlin", "Berlin (Charlottenburg)"), ("münchen", "München"), ("munich", "München"),
      ("hamburg", "Hamburg"), ("frankfurt", "Frankfurt am Main"), ("köln", "Köln"),
      ("cologne", "Köln"), ("düsseldorf", "Düsseldorf"), ("stuttgart", "Stuttgart"),
      ("dortmund", "Dortmund"), ("essen", "Essen"), ("bremen", "Bremen"),
      ("leipzig", "Leipzig"), ("dresden", "Dresden"), ("hannover", "Hannover"),
      ("nürnberg", "Nürnberg"), ("nuremberg", "Nürnberg")]

  /**
   * `_city_to_court`: "" for an empty city; the court of the first listed
   * city contained in the lower-cased city; otherwise the city itself.
   */
  function CityToCourt(city: string): (court: string)
    ensures city == [] ==> court == []
    ensures city != [] && (forall k :: 0 <= k < |CourtMap| ==> !Contains(Lower(city), CourtMap[k].0)) ==> court == city
    ensures city != [] && (exists k :: 0 <= k < |CourtMap| && Contains(Lower(city), CourtMap[k].0))
            ==> exists k :: FirstKeyAt(CourtMap, Lower(city), k) && court == CourtMap[k].1
  {
    if city == [] then []
    else
      match FirstContained(CourtMap, Lower(city))
      case Some(court) => court
      case None => city
  }

  /** A city whose lower-cased form finds a court in the table gets that court. */
  lemma CourtFound(city: string, court: string)
    requires city != [] && FirstContained(CourtMap, Lower(city)) == Some(court)
    ensures CityToCourt(city) == court
  {
  }

  /** "Berlin" finds the Charlottenburg court. */
  lemma BerlinCourt()
    ensures CityToCourt("Berlin") == "Berlin (Charlottenburg)"
  {
    assert Lower("Berlin") == "berlin";
    ListedKey(CourtMap, "berlin", 0, []);
    CourtFound("Berlin", "Berlin (Charlottenburg)");
  }

  /** "München" finds its court. */
  lemma MuenchenCourt()
    ensures CityToCourt("München") == "München"
  {
    assert Lower("München") == "münchen";
    ListedKey(CourtMap, "münchen", 1, "b");
    CourtFound("München", "München");
  }

  /** "Munich", the English spelling, finds the same court as "München". */
  lemma MunichCourt()
    ensures CityToCourt("Munich") == "München"
  {
    assert Lower("Munich") == "munich";
    ListedKey(CourtMap, "munich", 2, "bü");
    CourtFound("Munich", "München");
  }

  /** "Cologne" finds the court of Köln, listed before it. */
  lemma CologneCourt()
    ensures CityToCourt("Cologne") == "Köln"
  {
    assert Lower("Cologne") == "cologne";
    ListedKey(CourtMap, "cologne", 6, "bmmhfk");
    CourtFound("Cologne", "Köln");
  }

  // ------------------------------------------------------------- `_parse_register_field`

  /** The register field as the importer keeps it: type, number (with suffix), court. */
  datatype RegisterField = RegisterField(regType: string, regNum: string, court: string)

  const NoRegister: RegisterField := RegisterField([], [], [])

  /** `[\s,]`. */
  predicate IsSeparator(c: char)
  {
    IsSpace(c) || c == ','
  }

  /** End of the `\w` run that starts at i. */
  function SkipWord(s: string, i: nat): (j: nat)
    requires i <= |s|
    ensures i <= j <= |s| && (j == |s| || !IsWordChar(s[j]))
    ensures forall k :: i <= k < j ==> IsWordChar(s[k])
    decreases |s| - i
  {
    if i < |s| && IsWordChar(s[i]) then SkipWord(s, i + 1) else i
  }

  /** End of the `[\s,]` run that starts at i. */
  function SkipSeparators(s: string, i: nat): (j: nat)
    requires i <= |s|
    ensures i <= j <= |s| && (j == |s| || !IsSeparator(s[j]))
    ensures forall k :: i <= k < j ==> IsSeparator(s[k])
    decreases |s| - i
  {
    if i < |s| && IsSeparator(s[i]) then SkipSeparators(s, i + 1) else i
  }

  /** `AMTSGERICHT\s+` at i. */
  predicate CourtPrefixAt(s: string, i: nat)
  {
    i + 11 < |s| && s[i..i + 11] == "AMTSGERICHT" && IsSpace(s[i + 11])
  }

  /** Pattern 1's groups: the word before the register, and the register. */
  datatype CourtRegister = CourtRegister(court: string, register: RegisterMatch)

  /**
   * `(\w+)[\s,]+?` followed by the register grammar, from j. A shorter word
   * would be followed by a word character, not a separator, and no register
   * type starts with a separator, so the word and the separators are both
   * the maximal runs.
   */
  function WordThenRegister(s: string, j: nat): (m: Option<CourtRegister>)
    ensures m.Some? ==> WellFormed(m.value.register) && m.value.court != []
                        && forall k :: 0 <= k < |m.value.court| ==> IsWordChar(m.value.court[k])
  {
    if j > |s| then None
    else
      var w := SkipWord(s, j);
      var t := SkipSeparators(s, w);
      if w == j || t == w then None
      else
        match RegisterAt(s, t)
        case None => None
        case Some(r) => Some(CourtRegister(s[j..w], r))
  }

  /**
   * Pattern 1 anchored at i: the optional `AMTSGERICHT\s+` is tried first,
   * and when the rest fails after it, the same position without it.
   */
  function CourtRegisterAt(s: string, i: nat): (m: Option<CourtRegister>)
    ensures m.Some? ==> WellFormed(m.value.register) && m.value.court != []
                        && forall k :: 0 <= k < |m.value.court| ==> IsWordChar(m.value.court[k])
  {
    if CourtPrefixAt(s, i) && WordThenRegister(s, SkipSpaces(s, i + 11)).Some? then
      WordThenRegister(s, SkipSpaces(s, i + 11))
    else WordThenRegister(s, i)
  }

  /** Pattern 1 as a function of the position. */
  function CourtRegisterAtPosition(s: string): nat -> Option<CourtRegister>
  {
    (k: nat) => CourtRegisterAt(s, k)
  }

  /** `re.search` for pattern 1. */
  function SearchCourtRegister(s: string): (m: Option<CourtRegister>)
    ensures m.None? <==> forall k :: 0 <= k <= |s| ==> CourtRegisterAt(s, k).None?
    ensures m.Some? ==> exists k :: 0 <= k <= |s| && m == CourtRegisterAt(s, k)
                          && forall j :: 0 <= j < k ==> CourtRegisterAt(s, j).None?
  {
    var at := CourtRegisterAtPosition(s);
    assert forall k: nat :: at(k) == CourtRegisterAt(s, k);
    Leftmost(0, |s|, at)
  }

  /** `$`: the end of the string, or just before a final newline. */
  predicate AtEnd(s: string, k: nat)
  {
    k == |s| || (k + 1 == |s| && s[k] == '\n')
  }

  /** Pattern 3, `^(\d+)\s*([A-Z])?$`, read as an HRB number. */
  function BareNumber(s: string): (m: Option<RegisterMatch>)
    ensures m.Some? ==> WellFormed(m.value) && m.value.regType == "HRB"
  {
    var e := SkipDigits(s, 0);
    var x := SkipSpaces(s, e);
    DigitSlice(s, 0, e);
    if e == 0 then None
    else if x < |s| && IsAsciiUpper(s[x]) && AtEnd(s, x + 1) then Some(RegisterMatch("HRB", s[0..e], Some(s[x])))
    else if AtEnd(s, x) then Some(RegisterMatch("HRB", s[0..e], None))
    else None
  }

  /** The suffix group as text: empty when it did not take part. */
  function SuffixLetter(suffix: Option<char>): string
  {
    if suffix.Some? then [suffix.value] else []
  }

  /** `f"{reg_num} {suffix}".strip()`. */
  function NumberText(r: RegisterMatch): string
  {
    Strip(r.number + " " + SuffixLetter(r.suffix))
  }

  /**
   * `_parse_register_field`: nothing for an empty field; otherwise the
   * stripped, upper-cased field is tried against pattern 1 (court word and
   * register), pattern 2 (register alone, court from the city) and pattern 3
   * (bare number, type HRB, court from the city), in that order.
   */
  function ParseRegisterField(registerRaw: string, city: string): (f: RegisterField)
    ensures registerRaw == [] ==> f == NoRegister
  {
    if registerRaw == [] then NoRegister
    else
      var s := Upper(Strip(registerRaw));
      match SearchCourtRegister(s)
      case Some(cr) => RegisterField(cr.register.regType, NumberText(cr.register), cr.court)
      case None =>
        match SearchRegister(s)
        case Some(r) => RegisterField(r.regType, NumberText(r), CityToCourt(city))
        case None =>
          match BareNumber(s)
          case Some(r) => RegisterField("HRB", NumberText(r), CityToCourt(city))
          case None => NoRegister
  }

  // ---------------------------------------------------- register-field properties

  /** The number column: the digits, then a space and the suffix letter when there is one. */
  lemma NumberTextIs(r: RegisterMatch)
    requires WellFormed(r)
    ensures NumberText(r) == r.number + SuffixText(r.suffix)
  {
    var n := r.number;
    var s := n + " " + SuffixLetter(r.suffix);
    assert s[0] == n[0];
    if r.suffix.Some? {
      assert s == n + SuffixText(r.suffix);
      StripUnpadded(s);
    } else {
      assert s == n + " ";
      assert s[|n| - 1] == n[|n| - 1];
      assert SkipSpacesBack(s, |s|) == |n|;
      assert SkipSpaces(s, 0) == 0;
      assert s[0..|n|] == n;
    }
  }

  /**
   * What a read register field holds: nothing, or a listed type with the
   * number and suffix of one well-formed match, and as court either the word
   * before the register or the court derived from the city.
   */
  lemma RegisterFieldShape(registerRaw: string, city: string) returns (r: RegisterMatch)
    ensures var f := ParseRegisterField(registerRaw, city);
            f == NoRegister
            || (WellFormed(r) && f.regType == r.regType && f.regNum == r.number + SuffixText(r.suffix)
                && (f.court == CityToCourt(city)
                    || (f.court != [] && forall k :: 0 <= k < |f.court| ==> IsWordChar(f.court[k]))))
  {
    r := RegisterMatch("HRB", "0", None);
    if registerRaw != [] {
      var s := Upper(Strip(registerRaw));
      match SearchCourtRegister(s)
      case Some(cr) =>
        r := cr.register;
        NumberTextIs(r);
      case None =>
        match SearchRegister(s)
        case Some(m) =>
          r := m;
          NumberTextIs(r);
        case None =>
          match BareNumber(s)
          case Some(m) =>
            r := m;
            NumberTextIs(r);
          case None =>
    }
  }

  /** Upper-casing twice is upper-casing once. */
  lemma UpperCharFixed(c: char)
    ensures UpperChar(UpperChar(c)) == UpperChar(c)
  {
  }

  /** Stripping and upper-casing a field a second time changes nothing. */
  lemma NormalFormIsFixed(x: string)
    ensures Upper(Strip(Upper(Strip(x)))) == Upper(Strip(x))
  {
    var t := Strip(x);
    var s := Upper(t);
    if t != [] {
      CaseKeepsClasses(t[0]);
      CaseKeepsClasses(t[|t| - 1]);
    }
    StripUnpadded(s);
    forall i | 0 <= i < |s|
      ensures Upper(s)[i] == s[i]
    {
      UpperCharFixed(t[i]);
    }
  }

  /** The field is read only through its stripped, upper-cased form. */
  lemma OnlyNormalFormMatters(registerRaw: string, city: string)
    ensures ParseRegisterField(registerRaw, city) == ParseRegisterField(Upper(Strip(registerRaw)), city)
  {
    var s := Upper(Strip(registerRaw));
    if registerRaw != [] {
      if s == [] {
        assert CourtRegisterAt(s, 0).None?;
        assert RegisterAt(s, 0).None?;
      } else {
        NormalFormIsFixed(registerRaw);
      }
    }
  }

  /** Pattern 1 finds nothing in a text where no register type starts after the first character. */
  lemma NoCourtWord(s: string)
    requires forall t: nat :: 1 <= t ==> RegisterAt(s, t).None?
    ensures SearchCourtRegister(s).None?
  {
    forall j: nat
      ensures WordThenRegister(s, j).None?
    {
    }
    forall k: nat | k <= |s|
      ensures CourtRegisterAt(s, k).None?
    {
    }
  }

  /** Past their first letter, the register types hold none of the letters a type starts with. */
  lemma TypeTails(t: string, k: nat)
    requires t in RegisterTypes && 1 <= k < |t|
    ensures !(t[k] in "HGVP")
  {
  }

  /** In a canonical spelling, no character after the first but the last can begin a register type. */
  lemma SpelledInnerChar(r: RegisterMatch, t: nat)
    requires WellFormed(r) && 1 <= t && t + 1 < |Spelled(r)|
    ensures !(Spelled(r)[t] in "HGVP")
  {
    var s := Spelled(r);
    var d := |r.regType| + 1;
    var e := d + |r.number|;
    assert s == r.regType + [' '] + r.number + SuffixText(r.suffix);
    if t < |r.regType| {
      assert s[t] == r.regType[t];
      TypeTails(r.regType, t);
    } else if t == |r.regType| {
      assert s[t] == ' ';
    } else if t < e {
      assert s[t] == r.number[t - d];
    } else {
      assert s[t] == ' ';
    }
  }

  /** In a canonical spelling, no register type starts after the first character. */
  lemma SpelledTypeOnlyAtStart(r: RegisterMatch, t: nat)
    requires WellFormed(r) && 1 <= t
    ensures TypeAt(Spelled(r), t).None?
  {
    if t + 1 < |Spelled(r)| {
      SpelledInnerChar(r, t);
    }
    NoTypeAt(Spelled(r), t);
  }

  /** A register written the canonical way is read back as itself, its court derived from the city. */
  lemma PlainRegisterRoundTrip(r: RegisterMatch, city: string)
    requires WellFormed(r)
    ensures ParseRegisterField(Spelled(r), city)
            == RegisterField(r.regType, r.number + SuffixText(r.suffix), CityToCourt(city))
  {
    var s := Spelled(r);
    SpelledIsNormal(r);
    forall t: nat | 1 <= t
      ensures RegisterAt(s, t).None?
    {
      SpelledTypeOnlyAtStart(r, t);
    }
    NoCourtWord(s);
    assert [] + s == s;
    SpelledRoundTrip([], r);
    NumberTextIs(r);
  }

  /** The characters of a bare number: digits, then perhaps a space and a capital. */
  lemma BareNumberChars(n: string, suffix: Option<char>)
    requires n != [] && AllDigits(n) && (suffix.Some? ==> IsAsciiUpper(suffix.value))
    ensures var s := n + SuffixText(suffix);
            (forall t :: 0 <= t < |s| - 1 ==> IsDigit(s[t]) || s[t] == ' ')
            && Strip(s) == s && Upper(s) == s
  {
    var s := n + SuffixText(suffix);
    forall t | 0 <= t < |s|
      ensures IsDigit(s[t]) || s[t] == ' ' || (t == |s| - 1 && IsAsciiUpper(s[t]))
    {
      if t < |n| {
        assert s[t] == n[t];
      }
    }
    assert s[0] == n[0];
    if suffix.None? {
      assert s[|s| - 1] == n[|n| - 1];
    }
    StripUnpadded(s);
    assert Upper(s) == s;
  }

  /** Pattern 3 on a bare number reads its digits and its suffix letter. */
  lemma BareNumberIs(n: string, suffix: Option<char>)
    requires n != [] && AllDigits(n) && (suffix.Some? ==> IsAsciiUpper(suffix.value))
    ensures BareNumber(n + SuffixText(suffix)) == Some(RegisterMatch("HRB", n, suffix))
  {
    var s := n + SuffixText(suffix);
    assert s[0..|n|] == n;
    DigitRunAt(s, 0, n);
    if suffix.Some? {
      OneSpace(s, |n|);
    }
  }

  /** A bare number, with or without a suffix letter, is read as an HRB number, its court derived from the city. */
  lemma BareNumberRoundTrip(n: string, suffix: Option<char>, city: string)
    requires n != [] && AllDigits(n) && (suffix.Some? ==> IsAsciiUpper(suffix.value))
    ensures ParseRegisterField(n + SuffixText(suffix), city)
            == RegisterField("HRB", n + SuffixText(suffix), CityToCourt(city))
  {
    var s := n + SuffixText(suffix);
    BareNumberChars(n, suffix);
    forall t: nat
      ensures RegisterAt(s, t).None?
    {
      NoTypeAt(s, t);
    }
    NoCourtWord(s);
    BareNumberIs(n, suffix);
    NumberTextIs(RegisterMatch("HRB", n, suffix));
  }

  /** The literal court prefix consists of capitals and a final space. */
  lemma CourtPrefixChars(i: nat)
    requires i < 12
    ensures var c := "AMTSGERICHT "[i]; IsAsciiUpper(c) || c == ' '
  {
  }

  /** "AMTSGERICHT <court> <register>", court in capitals, is already in normal form. */
  lemma CourtPrefixedIsNormal(w: string, r: RegisterMatch)
    requires WellFormed(r) && w != []
    requires forall k :: 0 <= k < |w| ==> UpperChar(w[k]) == w[k]
    ensures var s := "AMTSGERICHT " + w + " " + Spelled(r);
            Upper(Strip(s)) == s
  {
    var p := "AMTSGERICHT " + w + " ";
    var s := p + Spelled(r);
    SpelledIsNormal(r);
    forall i | 0 <= i < |s|
      ensures UpperChar(s[i]) == s[i]
    {
      if i < 12 {
        assert s[i] == "AMTSGERICHT "[i];
        CourtPrefixChars(i);
      } else if i < 12 + |w| {
        assert s[i] == w[i - 12];
      } else if i >= |p| {
        assert s[i] == Spelled(r)[i - |p|];
        assert Upper(Spelled(r))[i - |p|] == UpperChar(Spelled(r)[i - |p|]);
      }
    }
    assert s[0] == 'A';
    assert s[|s| - 1] == Spelled(r)[|Spelled(r)| - 1];
    StripUnpadded(s);
    assert Upper(s) == s;
  }

  /** A word run that stops at a non-word character (or at the end) is the one SkipWord finds. */
  lemma SkipWordIs(s: string, i: nat, j: nat)
    requires i <= j <= |s|
    requires forall k :: i <= k < j ==> IsWordChar(s[k])
    requires j == |s| || !IsWordChar(s[j])
    ensures SkipWord(s, i) == j
    decreases j - i
  {
  }

  /** WordThenRegister once the word run, the separator run and the register are known. */
  lemma WordThenRegisterIs(s: string, j: nat, w: nat, t: nat, r: RegisterMatch)
    requires j < w <= |s| && SkipWord(s, j) == w
    requires w < t <= |s| && SkipSeparators(s, w) == t
    requires RegisterAt(s, t) == Some(r)
    ensures WordThenRegister(s, j) == Some(CourtRegister(s[j..w], r))
  {
  }

  /** Where the pieces of "AMTSGERICHT <court> <register>" sit. */
  lemma CourtPrefixedLayout(w: string, r: RegisterMatch)
    requires WellFormed(r) && w != []
    ensures var s := "AMTSGERICHT " + w + " " + Spelled(r);
            var e := 12 + |w|;
            e + 1 < |s| && s[..11] == "AMTSGERICHT" && s[11] == ' ' && s[12] == w[0]
            && s[12..e] == w && s[e] == ' ' && IsAsciiUpper(s[e + 1])
            && s == ("AMTSGERICHT " + w + " ") + Spelled(r)
  {
    var s := "AMTSGERICHT " + w + " " + Spelled(r);
    TypesAreCapitals(r.regType);
    assert s[12 + |w| + 1] == Spelled(r)[0] == r.regType[0];
  }

  /** Pattern 1 at the court prefix: the word after it and the register after that. */
  lemma CourtPrefixedMatch(w: string, r: RegisterMatch)
    requires WellFormed(r) && w != [] && forall k :: 0 <= k < |w| ==> IsWordChar(w[k])
    ensures CourtRegisterAt("AMTSGERICHT " + w + " " + Spelled(r), 0) == Some(CourtRegister(w, r))
  {
    var p := "AMTSGERICHT " + w + " ";
    var s := "AMTSGERICHT " + w + " " + Spelled(r);
    var e := 12 + |w|;
    CourtPrefixedLayout(w, r);
    assert CourtPrefixAt(s, 0);
    OneSpace(s, 11);
    forall k | 12 <= k < e
      ensures IsWordChar(s[k])
    {
      assert s[k] == s[12..e][k - 12];
    }
    SkipWordIs(s, 12, e);
    assert SkipSeparators(s, e + 1) == e + 1;
    SpelledRoundTrip(p, r);
    WordThenRegisterIs(s, 12, e, e + 1, r);
  }

  /**
   * "AMTSGERICHT <court> <register>" is read with the word after the prefix
   * as court, whatever the city says.
   */
  lemma CourtPrefixedRoundTrip(w: string, r: RegisterMatch, city: string)
    requires WellFormed(r) && w != []
    requires forall k :: 0 <= k < |w| ==> IsWordChar(w[k]) && UpperChar(w[k]) == w[k]
    ensures ParseRegisterField("AMTSGERICHT " + w + " " + Spelled(r), city)
            == RegisterField(r.regType, r.number + SuffixText(r.suffix), w)
  {
    var s := "AMTSGERICHT " + w + " " + Spelled(r);
    CourtPrefixedIsNormal(w, r);
    CourtPrefixedMatch(w, r);
    NumberTextIs(r);
  }

  /** A separator run that stops at a non-separator (or at the end) is the one SkipSeparators finds. */
  lemma SkipSeparatorsIs(s: string, i: nat, j: nat)
    requires i <= j <= |s|
    requires forall k :: i <= k < j ==> IsSeparator(s[k])
    requires j == |s| || !IsSeparator(s[j])
    ensures SkipSeparators(s, i) == j
    decreases j - i
  {
  }

  /** Where the pieces of "<court><separators><register>" sit. */
  lemma CourtWordLayout(w: string, sep: string, r: RegisterMatch)
    requires WellFormed(r) && w != [] && sep != []
    ensures var s := w + sep + Spelled(r);
            var e := |w| + |sep|;
            e < |s| && s[..|w|] == w && s[|w|..e] == sep && IsAsciiUpper(s[e])
            && s == (w + sep) + Spelled(r)
  {
    var s := w + sep + Spelled(r);
    TypesAreCapitals(r.regType);
    assert s[|w| + |sep|] == Spelled(r)[0] == r.regType[0];
  }

  /** "<court><separators><register>", court in capitals, is already in normal form. */
  lemma CourtWordIsNormal(w: string, sep: string, r: RegisterMatch)
    requires WellFormed(r) && w != [] && sep != []
    requires forall k :: 0 <= k < |w| ==> IsWordChar(w[k]) && UpperChar(w[k]) == w[k]
    requires forall k :: 0 <= k < |sep| ==> IsSeparator(sep[k])
    ensures var s := w + sep + Spelled(r);
            Upper(Strip(s)) == s
  {
    var p := w + sep;
    var s := p + Spelled(r);
    SpelledIsNormal(r);
    forall i | 0 <= i < |s|
      ensures UpperChar(s[i]) == s[i]
    {
      if i < |w| {
        assert s[i] == w[i];
      } else if i < |p| {
        assert s[i] == sep[i - |w|];
      } else {
        assert s[i] == Spelled(r)[i - |p|];
        assert Upper(Spelled(r))[i - |p|] == UpperChar(Spelled(r)[i - |p|]);
      }
    }
    assert s[0] == w[0];
    assert s[|s| - 1] == Spelled(r)[|Spelled(r)| - 1];
    StripUnpadded(s);
    assert Upper(s) == s;
  }

  /** A word other than the court prefix, followed by separators, does not start with `AMTSGERICHT\s`. */
  lemma NoCourtPrefix(s: string, w: string)
    requires w != [] && w != "AMTSGERICHT" && |w| < |s| && s[..|w|] == w
    requires forall k :: 0 <= k < |w| ==> IsWordChar(w[k])
    requires IsSeparator(s[|w|])
    ensures !CourtPrefixAt(s, 0)
  {
    if 11 < |s| {
      if |w| > 11 {
        assert s[11] == w[11];
      } else if |w| == 11 {
        assert s[..11] == w;
      } else {
        assert s[..11][|w|] == s[|w|] != "AMTSGERICHT"[|w|];
      }
    }
  }

  /** A copy of an all-word-character w at the start of s, ended by a non-word character, is the word run. */
  lemma WordRunIs(s: string, w: string)
    requires |w| < |s| && s[..|w|] == w && !IsWordChar(s[|w|])
    requires forall k :: 0 <= k < |w| ==> IsWordChar(w[k])
    ensures SkipWord(s, 0) == |w|
  {
    forall k | 0 <= k < |w|
      ensures IsWordChar(s[k])
    {
      assert s[k] == s[..|w|][k];
    }
    SkipWordIs(s, 0, |w|);
  }

  /** A copy of an all-separator sep at position i, ended by a non-separator, is the separator run. */
  lemma SeparatorRunIs(s: string, i: nat, sep: string)
    requires i + |sep| < |s| && s[i..i + |sep|] == sep && !IsSeparator(s[i + |sep|])
    requires forall k :: 0 <= k < |sep| ==> IsSeparator(sep[k])
    ensures SkipSeparators(s, i) == i + |sep|
  {
    forall k | i <= k < i + |sep|
      ensures IsSeparator(s[k])
    {
      assert s[k] == s[i..i + |sep|][k - i];
    }
    SkipSeparatorsIs(s, i, i + |sep|);
  }

  /** Pattern 1 at the start of "<court><separators><register>": the word, then the register. */
  lemma CourtWordMatch(w: string, sep: string, r: RegisterMatch)
    requires WellFormed(r) && w != [] && w != "AMTSGERICHT" && sep != []
    requires forall k :: 0 <= k < |w| ==> IsWordChar(w[k])
    requires forall k :: 0 <= k < |sep| ==> IsSeparator(sep[k])
    ensures CourtRegisterAt(w + sep + Spelled(r), 0) == Some(CourtRegister(w, r))
  {
    var s := w + sep + Spelled(r);
    var e := |w| + |sep|;
    CourtWordLayout(w, sep, r);
    assert s[|w|] == s[|w|..e][0] == sep[0];
    NoCourtPrefix(s, w);
    assert !IsWordChar(s[|w|]);
    WordRunIs(s, w);
    assert !IsSeparator(s[e]);
    SeparatorRunIs(s, |w|, sep);
    SpelledRoundTrip(w + sep, r);
    WordThenRegisterIs(s, 0, |w|, e, r);
    assert s[0..|w|] == w;
  }

  /**
   * "<court>, <register>" (any run of whitespace and commas between them) is
   * read with the word before the register as court, whatever the city says.
   */
  lemma CourtWordRoundTrip(w: string, sep: string, r: RegisterMatch, city: string)
    requires WellFormed(r) && w != [] && w != "AMTSGERICHT" && sep != []
    requires forall k :: 0 <= k < |w| ==> IsWordChar(w[k]) && UpperChar(w[k]) == w[k]
    requires forall k :: 0 <= k < |sep| ==> IsSeparator(sep[k])
    ensures ParseRegisterField(w + sep + Spelled(r), city)
            == RegisterField(r.regType, r.number + SuffixText(r.suffix), w)
  {
    CourtWordIsNormal(w, sep, r);
    CourtWordMatch(w, sep, r);
    NumberTextIs(r);
  }

  // ---------------------------------------------------------- one imported row

  /** `f"{reg_type} {reg_num}".strip() if reg_type and reg_num else ""`: the register number as stored. */
  function RegisterColumn(f: RegisterField): (stored: string)
    ensures f.regType == [] || f.regNum == [] ==> stored == []
  {
    if f.regType != [] && f.regNum != [] then Strip(f.regType + " " + f.regNum) else []
  }

  /** A field holding a well-formed match's groups is stored as that match's canonical spelling. */
  lemma ColumnReadsBack(f: RegisterField, r: RegisterMatch)
    requires WellFormed(r) && f.regType == r.regType && f.regNum == r.number + SuffixText(r.suffix)
    ensures RegisterColumn(f) == Spelled(r) && Downloader.ParseRegisterNum(RegisterColumn(f)) == Some(r)
  {
    assert f.regType + " " + f.regNum == Spelled(r);
    assert RegisterColumn(f) == Strip(Spelled(r));
    SpelledIsNormal(r);
    Downloader.ParseRegisterNumRoundTrip(r);
  }

  /**
   * The register number the importer stores is one the register-portal
   * client splits back into the same type, number and suffix; an
   * unreadable field stores nothing, which the client rejects.
   */
  lemma StoredRegisterReadsBack(registerRaw: string, city: string) returns (r: RegisterMatch)
    ensures var f := ParseRegisterField(registerRaw, city);
            (f == NoRegister && RegisterColumn(f) == [] && Downloader.ParseRegisterNum([]).None?)
            || (Downloader.ParseRegisterNum(RegisterColumn(f)) == Some(r)
                && r.regType == f.regType && f.regNum == r.number + SuffixText(r.suffix))
  {
    var f := ParseRegisterField(registerRaw, city);
    r := RegisterFieldShape(registerRaw, city);
    if f == NoRegister {
      Downloader.ParseRegisterNumRejects([]);
    } else {
      ColumnReadsBack(f, r);
    }
  }

  /** The column names tried for each field, in order. */
  const NameColumns: seq<string> := ["firma", "firmenname", "name", "company", "company name"]
  const CityColumns: seq<string> := ["ort", "stadt", "city", "location"]
  const CourtColumns: seq<string> := ["district court", "registergericht", "gericht", "court"]
  const RegisterNumberColumns: seq<string> := ["registernummer", "register number", "hrb", "hra"]
  const IdColumns: seq<string> := ["id", "dealfront_id", "company_id"]

  /** `_get_field(...) or ""`: the looked-up value, already stripped, or "" when no column answers. */
  function FieldText(row: CsvRow, fieldnames: map<string, string>, candidates: seq<string>): (v: string)
    ensures Strip(v) == v
  {
    var r := GetField(row, fieldnames, candidates);
    if r.Some? then StripUnpadded(r.value); r.value else []
  }

  /**
   * One CSV row as imported: None when it has no name (the row is skipped);
   * otherwise a new company whose court is the court column, or else the
   * court read from the register field, and whose id falls back to the name.
   */
  function ImportRow(row: CsvRow, fieldnames: map<string, string>): (c: Option<Company>)
    ensures c.None? <==> FieldText(row, fieldnames, NameColumns) == []
    ensures c.Some? ==>
              var f := ParseRegisterField(FieldText(row, fieldnames, RegisterNumberColumns),
                                          FieldText(row, fieldnames, CityColumns));
              var given := FieldText(row, fieldnames, CourtColumns);
              var id := FieldText(row, fieldnames, IdColumns);
              && c.value.name == FieldText(row, fieldnames, NameColumns)
              && c.value.city == FieldText(row, fieldnames, CityColumns)
              && c.value.dealfrontId == (if id != [] then id else c.value.name)
              && c.value.dealfrontId != []
              && c.value.court == (if given != [] then given else f.court)
              && c.value.registerType == f.regType && c.value.registerNum == RegisterColumn(f)
              && c.value.id.None? && !c.value.dkDownloaded && !c.value.pdfParsed && c.value.isQualified.None?
              && c.value.pdfPath.None? && c.value.naturalPersonsCount.None?
              && c.value.legalEntitiesCount.None? && c.value.parsingConfidence.None?
  {
    var name := FieldText(row, fieldnames, NameColumns);
    if name == [] then None
    else
      var city := FieldText(row, fieldnames, CityColumns);
      var court := FieldText(row, fieldnames, CourtColumns);
      var f := ParseRegisterField(FieldText(row, fieldnames, RegisterNumberColumns), city);
      var id := FieldText(row, fieldnames, IdColumns);
      Some(Company(None, if id != [] then id else name, Strip(name), Strip(city),
                   if court != [] then court else f.court, f.regType, RegisterColumn(f),
                   false, false, None, None, None, None, None))
  }

  /** Every imported company with a register number has one the register-portal client reads as its register type. */
  lemma ImportedRegisterReadsBack(row: CsvRow, fieldnames: map<string, string>)
    requires ImportRow(row, fieldnames).Some?
    ensures var c := ImportRow(row, fieldnames).value;
            c.registerNum != []
            ==> (Downloader.ParseRegisterNum(c.registerNum).Some?
                 && Downloader.ParseRegisterNum(c.registerNum).value.regType == c.registerType)
  {
    var r := StoredRegisterReadsBack(FieldText(row, fieldnames, RegisterNumberColumns),
                                     FieldText(row, fieldnames, CityColumns));
  }

  // -------------------------------------------------------- qualification

  /** The import's qualification test on a parse result: at most two natural persons, no legal entity. */
  function CountsAsQualified(r: Parser.ParsingResult): (q: bool)
    ensures q <==> IsQualified(r.naturalPersonsCount, r.legalEntitiesCount)
  {
    r.naturalPersonsCount <= 2 && r.legalEntitiesCount == 0
  }

  /** A parsed list counts as qualified exactly when it names at most two shareholders, all natural persons. */
  lemma QualifiedDocument(doc: Parser.Document, findall: string -> PatternExtraction.PatternName -> seq<PatternExtraction.Match>,
                          parse: Parser.TableParser)
    requires forall t :: PatternExtraction.WellFormed(findall(t))
    ensures var r := Parser.ParseSpec(doc, findall, parse);
            CountsAsQualified(r)
            <==> |r.shareholders| <= 2
                 && forall k :: 0 <= k < |r.shareholders| ==> NameRules.IsNaturalPerson(r.shareholders[k].name)
  {
    Parser.QualifiedParse(doc, findall, parse);
  }

  /** The compact spelling "HRB12345": type, number and suffix with no space after the type. */
  function Compact(r: RegisterMatch): string
  {
    r.regType + r.number + SuffixText(r.suffix)
  }

  /** In a compact spelling no character after the first but the last can begin a register type, and the spelling is normal. */
  lemma CompactChars(r: RegisterMatch)
    requires WellFormed(r)
    ensures var s := Compact(r);
            (forall t :: 1 <= t < |s| - 1 ==> !(s[t] in "HGVP"))
            && Strip(s) == s && Upper(s) == s
  {
    var s := Compact(r);
    var d := |r.regType|;
    var e := d + |r.number|;
    TypesAreCapitals(r.regType);
    forall t | 0 <= t < |s|
      ensures IsAsciiUpper(s[t]) || IsDigit(s[t]) || s[t] == ' '
      ensures 1 <= t < |s| - 1 ==> !(s[t] in "HGVP")
    {
      if t < d {
        assert s[t] == r.regType[t];
        if 1 <= t {
          TypeTails(r.regType, t);
        }
      } else if t < e {
        assert s[t] == r.number[t - d];
      } else if t == e {
        assert s[t] == ' ';
      }
    }
    assert s[0] == r.regType[0];
    if r.suffix.None? {
      assert s[|s| - 1] == r.number[|r.number| - 1];
    }
    StripUnpadded(s);
    assert Upper(s) == s;
  }

  /** The register grammar reads a compact spelling at its start. */
  lemma CompactMatch(r: RegisterMatch)
    requires WellFormed(r)
    ensures RegisterAt(Compact(r), 0) == Some(r)
  {
    var s := Compact(r);
    var d := |r.regType|;
    var e := d + |r.number|;
    assert s[0..d] == r.regType;
    TypeAtUnique(s, 0, r.regType);
    assert s[d..e] == r.number;
    SuffixAt(s, e, r.suffix);
    DigitRunAt(s, d, r.number);
    RegisterAtIs(s, 0, r, d, e);
  }

  /** A register written without the space after its type reads the same as the canonical spelling. */
  lemma CompactRegisterRoundTrip(r: RegisterMatch, city: string)
    requires WellFormed(r)
    ensures ParseRegisterField(Compact(r), city)
            == RegisterField(r.regType, r.number + SuffixText(r.suffix), CityToCourt(city))
  {
    var s := Compact(r);
    CompactChars(r);
    forall t: nat | 1 <= t
      ensures RegisterAt(s, t).None?
    {
      NoTypeAt(s, t);
    }
    NoCourtWord(s);
    CompactMatch(r);
    NumberTextIs(r);
  }
}
