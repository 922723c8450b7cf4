/**
 * The decisions the register-portal client takes without the browser:
 * splitting a register number, choosing the federal states to tick in the
 * search form, and choosing which result row to open.
 */
module Downloader {
  import opened Basics
  import opened Text
  import opened Lookup
  import opened RegisterNumbers

  // ------------------------------------------------- `_parse_register_num`

  /**
   * `_parse_register_num`: strip, upper-case, then the register grammar
   * anchored at the start. None stands for `(None, None, None)`.
   */
  function ParseRegisterNum(registerNum: string): (m: Option<RegisterMatch>)
    ensures m.Some? ==> WellFormed(m.value)
  {
    RegisterAt(Upper(Strip(registerNum)), 0)
  }

  /** A register number in its canonical spelling splits back into its type, number and suffix. */
  lemma ParseRegisterNumRoundTrip(r: RegisterMatch)
    requires WellFormed(r)
    ensures ParseRegisterNum(Spelled(r)) == Some(r)
  {
    SpelledIsNormal(r);
    SpelledRoundTrip([], r);
    assert [] + Spelled(r) == Spelled(r);
  }

  /**
   * Input whose first non-blank character cannot start a register type
   * (a bare number, an unknown word, the empty string) gives no match.
   */
  lemma ParseRegisterNumRejects(registerNum: string)
    requires var s := Strip(registerNum);
             s == [] || !(UpperChar(s[0]) in "HGVP")
    ensures ParseRegisterNum(registerNum).None?
  {
    NoTypeAt(Upper(Strip(registerNum)), 0);
  }

  // ------------------------------------------------- `_select_bundeslaender`

  /** The sixteen federal states the search form offers a checkbox for. */
  datatype State =
    | BadenWuerttemberg | Bayern | Berlin | Brandenburg | Bremen | Hamburg | Hessen
    | MecklenburgVorpommern | Niedersachsen | NordrheinWestfalen | RheinlandPfalz
    | Saarland | Sachsen | SachsenAnhalt | SchleswigHolstein | Thueringen

  /** The state's name as the form spells it. */
  function Name(st: State): string
  {
    match st
    case BadenWuerttemberg => "Baden-Württemberg"
    case Bayern => "Bayern"
    case Berlin => "Berlin"
    case Brandenburg => "Brandenburg"
    case Bremen => "Bremen"
    case Hamburg => "Hamburg"
    case Hessen => "Hessen"
    case MecklenburgVorpommern => "Mecklenburg-Vorpommern"
    case Niedersachsen => "Niedersachsen"
    case NordrheinWestfalen => "Nordrhein-Westfalen"
    case RheinlandPfalz => "Rheinland-Pfalz"
    case Saarland => "Saarland"
    case Sachsen => "Sachsen"
    case SachsenAnhalt => "Sachsen-Anhalt"
    case SchleswigHolstein => "Schleswig-Holstein"
    case Thueringen => "Thüringen"
  }

  /** The order of the checkbox table, in which state names are looked for in the court text. */
  const StateOrder: seq<State> := [
    BadenWuerttemberg, Bayern, Berlin, Brandenburg, Bremen, Hamburg, Hessen,
    MecklenburgVorpommern, Niedersachsen, NordrheinWestfalen, RheinlandPfalz,
    Saarland, Sachsen, SachsenAnhalt, SchleswigHolstein, Thueringen]

  /** The same order with Sachsen-Anhalt looked for before Sachsen, whose name it contains. */
  const CheckedStateOrder: seq<State> := [
    BadenWuerttemberg, Bayern, Berlin, Brandenburg, Bremen, Hamburg, Hessen,
    MecklenburgVorpommern, Niedersachsen, NordrheinWestfalen, RheinlandPfalz,
    Saarland, SachsenAnhalt, Sachsen, SchleswigHolstein, Thueringen]

  /** Court cities and their states, in the map's insertion order. */
  const CityStates: seq<(string, State)> := [
      ("münchen", Bayern), ("munich", Bayern), ("nürnberg", Bayern),
      ("augsburg", Bayern), ("würzburg", Bayern), ("regensburg", Bayern),
      ("passau", Bayern), ("bayreuth", Bayern), ("ingolstadt", Bayern),
      ("kempten", Bayern), ("landshut", Bayern), ("fürth", Bayern),
      ("berlin", Berlin), ("charlottenburg", Berlin), ("potsdam", Brandenburg),
      ("cottbus", Brandenburg), ("frankfurt (oder)", Brandenburg), ("bremen", Bremen),
      ("hamburg", Hamburg), ("frankfurt", Hessen), ("wiesbaden", Hessen),
      ("darmstadt", Hessen), ("kassel", Hessen), ("gießen", Hessen),
      ("offenbach", Hessen), ("fulda", Hessen), ("marburg", Hessen),
      ("limburg", Hessen), ("korbach", Hessen), ("bad homburg", Hessen),
      ("hanau", Hessen), ("rostock", MecklenburgVorpommern), ("schwerin", MecklenburgVorpommern),
      ("stralsund", MecklenburgVorpommern), ("neubrandenburg", MecklenburgVorpommern), ("hannover", Niedersachsen),
      ("braunschweig", Niedersachsen), ("osnabrück", Niedersachsen), ("oldenburg", Niedersachsen),
      ("göttingen", Niedersachsen), ("hildesheim", Niedersachsen), ("wolfsburg", Niedersachsen),
      ("lüneburg", Niedersachsen), ("aurich", Niedersachsen), ("tostedt", Niedersachsen),
      ("köln", NordrheinWestfalen), ("düsseldorf", NordrheinWestfalen), ("dortmund", NordrheinWestfalen),
      ("essen", NordrheinWestfalen), ("duisburg", NordrheinWestfalen), ("bochum", NordrheinWestfalen),
      ("wuppertal", NordrheinWestfalen), ("bonn", NordrheinWestfalen), ("bielefeld", NordrheinWestfalen),
      ("münster", NordrheinWestfalen), ("aachen", NordrheinWestfalen), ("siegen", NordrheinWestfalen),
      ("paderborn", NordrheinWestfalen), ("kleve", NordrheinWestfalen), ("arnsberg", NordrheinWestfalen),
      ("gütersloh", NordrheinWestfalen), ("siegburg", NordrheinWestfalen), ("hagen", NordrheinWestfalen),
      ("krefeld", NordrheinWestfalen), ("mainz", RheinlandPfalz), ("koblenz", RheinlandPfalz),
      ("trier", RheinlandPfalz), ("ludwigshafen", RheinlandPfalz), ("kaiserslautern", RheinlandPfalz),
      ("bad kreuznach", RheinlandPfalz), ("saarbrücken", Saarland), ("dresden", Sachsen),
      ("leipzig", Sachsen), ("chemnitz", Sachsen), ("magdeburg", SachsenAnhalt),
      ("halle", SachsenAnhalt), ("stendal", SachsenAnhalt), ("dessau", SachsenAnhalt),
      ("kiel", SchleswigHolstein), ("lübeck", SchleswigHolstein), ("flensburg", SchleswigHolstein),
      ("pinneberg", SchleswigHolstein), ("erfurt", Thueringen), ("jena", Thueringen),
      ("gera", Thueringen), ("stuttgart", BadenWuerttemberg), ("mannheim", BadenWuerttemberg),
      ("karlsruhe", BadenWuerttemberg), ("freiburg", BadenWuerttemberg), ("ulm", BadenWuerttemberg),
      ("heidelberg", BadenWuerttemberg), ("heilbronn", BadenWuerttemberg), ("konstanz", BadenWuerttemberg)]

  /** The fallback when neither a city nor a state name is recognised. */
  const FallbackStates: seq<State> := [Bayern, Niedersachsen]

  /** The form accepts at most this many ticked states. */
  const MaxStates: nat := 2

  /** Each state's lower-cased name as the key it is looked up by. */
  function StateNameKeys(order: seq<State>): (keys: seq<(string, State)>)
    ensures |keys| == |order|
    ensures forall k :: 0 <= k < |order| ==> keys[k] == (Lower(Name(order[k])), order[k])
  {
    seq(|order|, k requires 0 <= k < |order| => (Lower(Name(order[k])), order[k]))
  }

  /** The state recognised in a court name: first by city, then by the state's own name. */
  function RecognisedState(court: string, order: seq<State>): Option<State>
  {
    if court == [] then None
    else if FirstContained(CityStates, Lower(court)).Some? then FirstContained(CityStates, Lower(court))
    else FirstContained(StateNameKeys(order), Lower(court))
  }

  /** Python's `xs[:n]`. */
  function Take<T>(xs: seq<T>, n: nat): (r: seq<T>)
    ensures |r| == if |xs| < n then |xs| else n
    ensures r == xs[..|r|]
  {
    if |xs| < n then xs else xs[..n]
  }

  /** The states `_select_bundeslaender` ticks, looking state names up in the given order. */
  function SelectStatesIn(court: string, order: seq<State>): (r: seq<State>)
    ensures 1 <= |r| <= MaxStates
  {
    var recognised := RecognisedState(court, order);
    Take(if recognised.Some? then [recognised.value] else FallbackStates, MaxStates)
  }

  /** `_select_bundeslaender`, with the corrected lookup order (see SachsenAnhaltShadowed). */
  function SelectStates(court: string): (r: seq<State>)
    ensures 1 <= |r| <= MaxStates
  {
    SelectStatesIn(court, CheckedStateOrder)
  }

  /**
   * What gets ticked: the state of the first listed city the court names;
   * failing that, the first state whose name it contains; failing that (or
   * for an empty court), Bayern and Niedersachsen.
   */
  lemma StateSelection(court: string, order: seq<State>)
    ensures var r := SelectStatesIn(court, order);
            var text := Lower(court);
            (court != [] && (exists k :: FirstKeyAt(CityStates, text, k) && r == [CityStates[k].1]))
            || (court != [] && (forall k :: 0 <= k < |CityStates| ==> !Contains(text, CityStates[k].0))
                && exists k :: FirstKeyAt(StateNameKeys(order), text, k) && r == [order[k]])
            || (r == FallbackStates
                && (court == []
                    || ((forall k :: 0 <= k < |CityStates| ==> !Contains(text, CityStates[k].0))
                        && forall k :: 0 <= k < |order| ==> !Contains(text, Lower(Name(order[k]))))))
  {
    var text := Lower(court);
    if court != [] && FirstContained(CityStates, text).None? {
      var keys := StateNameKeys(order);
      if FirstContained(keys, text).None? {
        forall k | 0 <= k < |order|
          ensures !Contains(text, Lower(Name(order[k])))
        {
          assert keys[k].0 == Lower(Name(order[k]));
        }
      }
    }
  }

  /** A needle's prefix occurs wherever the needle does. */
  lemma ContainsPrefixOf(s: string, sub: string, n: nat)
    requires n <= |sub| && Contains(s, sub)
    ensures Contains(s, sub[..n])
  {
    var i := ContainsWitness(s, sub);
    assert s[i..i + n] == sub[..n];
    ContainsAt(s, sub[..n], i);
  }

  /** Every text naming Sachsen-Anhalt also names Sachsen. */
  lemma SachsenInSachsenAnhalt(text: string)
    requires Contains(text, Lower(Name(SachsenAnhalt)))
    ensures Contains(text, Lower(Name(Sachsen)))
  {
    var long := Lower(Name(SachsenAnhalt));
    assert long[..7] == Lower(Name(Sachsen));
    ContainsPrefixOf(text, long, 7);
  }

  /** Where Sachsen and Sachsen-Anhalt sit in the two lookup orders. */
  lemma SaxonyPositions(k: nat)
    requires k < 16
    ensures |StateOrder| == 16 && |CheckedStateOrder| == 16
    ensures StateOrder[12] == Sachsen && StateOrder[13] == SachsenAnhalt
    ensures CheckedStateOrder[12] == SachsenAnhalt && CheckedStateOrder[13] == Sachsen
    ensures k < 13 ==> StateOrder[k] != SachsenAnhalt && CheckedStateOrder[k] != Sachsen
  {
    assert k == 0 || k == 1 || k == 2 || k == 3 || k == 4 || k == 5 || k == 6 || k == 7
           || k == 8 || k == 9 || k == 10 || k == 11 || k == 12 || k >= 13;
  }

  /**
   * As written, Sachsen is looked for before Sachsen-Anhalt and its name is
   * a prefix of Sachsen-Anhalt's, so a court text that names Sachsen-Anhalt
   * (and no listed city) ticks Sachsen or a state listed before it, never
   * Sachsen-Anhalt.
   */
  lemma SachsenAnhaltShadowed(court: string)
    requires court != [] && FirstContained(CityStates, Lower(court)).None?
    requires Contains(Lower(court), Lower(Name(SachsenAnhalt)))
    ensures exists k :: 0 <= k <= 12 && SelectStatesIn(court, StateOrder) == [StateOrder[k]]
    ensures SelectStatesIn(court, StateOrder) != [SachsenAnhalt]
  {
    var text := Lower(court);
    var keys := StateNameKeys(StateOrder);
    SachsenInSachsenAnhalt(text);
    SaxonyPositions(0);
    assert keys[12].0 == Lower(Name(Sachsen));
    var r := FirstContained(keys, text);
    var k :| FirstKeyAt(keys, text, k) && r.value == keys[k].1;
    SaxonyPositions(k);
  }

  /**
   * With Sachsen-Anhalt looked for first, a court text naming it and no
   * listed city or earlier state ticks Sachsen-Anhalt, and one naming it
   * never ticks Sachsen.
   */
  lemma SachsenAnhaltRecognised(court: string)
    requires court != [] && FirstContained(CityStates, Lower(court)).None?
    requires Contains(Lower(court), Lower(Name(SachsenAnhalt)))
    ensures SelectStates(court) != [Sachsen]
    ensures (forall k :: 0 <= k < 12 ==> !Contains(Lower(court), Lower(Name(CheckedStateOrder[k]))))
            ==> SelectStates(court) == [SachsenAnhalt]
  {
    var text := Lower(court);
    var keys := StateNameKeys(CheckedStateOrder);
    SaxonyPositions(0);
    assert keys[12] == (Lower(Name(SachsenAnhalt)), SachsenAnhalt);
    var r := FirstContained(keys, text);
    var k :| FirstKeyAt(keys, text, k) && r.value == keys[k].1;
    SaxonyPositions(k);
    if forall j :: 0 <= j < 12 ==> !Contains(text, Lower(Name(CheckedStateOrder[j]))) {
      assert FirstKeyAt(keys, text, 12);
      FirstContainedIs(keys, text, 12);
    }
  }

  // ------------------------------------------------- `_click_correct_result`

  /** The substrings that mark a row as a VR, GnR or PR entry. */
  const WrongTypeMarkers: seq<string> := ["VR ", " VR", "GNR ", " GNR", "PR ", " PR"]

  /** An R right after a V, N or P: the pair every marker holds ("VR", "GNR", "PR"). */
  predicate MarkerPairAt(t: string, k: int)
  {
    0 < k < |t| && t[k] == 'R' && (t[k - 1] == 'V' || t[k - 1] == 'N' || t[k - 1] == 'P')
  }

  /** A needle holding a marker pair never occurs in a text without one. */
  lemma PairlessTextLacks(t: string, m: string, j: nat)
    requires MarkerPairAt(m, j)
    requires forall k :: 0 <= k < |t| ==> !MarkerPairAt(t, k)
    ensures !Contains(t, m)
  {
    forall i | 0 <= i && i + |m| <= |t|
      ensures !OccursAt(t, m, i)
    {
      assert !MarkerPairAt(t, i + j);
      assert t[i..i + |m|][j] == t[i + j] && t[i..i + |m|][j - 1] == t[i + j - 1];
    }
    ContainsIff(t, m);
  }

  /** Each marker holds a marker pair, so a flagged text holds one too. */
  lemma MarkersNeedPair(t: string)
    ensures ContainsAny(t, WrongTypeMarkers) ==> exists k :: 0 <= k < |t| && MarkerPairAt(t, k)
  {
    if forall k :: 0 <= k < |t| ==> !MarkerPairAt(t, k) {
      PairlessTextLacks(t, "VR ", 1);
      PairlessTextLacks(t, " VR", 2);
      PairlessTextLacks(t, "GNR ", 2);
      PairlessTextLacks(t, " GNR", 3);
      PairlessTextLacks(t, "PR ", 1);
      PairlessTextLacks(t, " PR", 2);
    }
  }

  /**
   * A row whose upper-cased text holds one of the markers is of a register
   * type the search does not want; such a text always holds an R right after
   * a V, N or P.
   */
  function IsWrongType(upperText: string): (wrong: bool)
    ensures wrong ==> exists k :: 0 <= k < |upperText| && MarkerPairAt(upperText, k)
  {
    MarkersNeedPair(upperText);
    ContainsAny(upperText, WrongTypeMarkers)
  }

  /** The four passes over the result rows, in the order they are tried. */
  datatype Pass = TypeAndCourt | TypeOnly | CourtOnly | NotWrongType

  function Rank(pass: Pass): nat
  {
    match pass
    case TypeAndCourt => 0
    case TypeOnly => 1
    case CourtOnly => 2
    case NotWrongType => 3
  }

  /** The row that was clicked and the pass that chose it. */
  datatype Choice = Choice(row: nat, pass: Pass)

  /** The register type looked for: the given one upper-cased, "HRB" when none is given. */
  function WantedType(registerType: string): (ty: string)
    ensures registerType == [] ==> ty == "HRB"
    ensures registerType != [] ==> ty == Upper(registerType)
  {
    if registerType == [] then "HRB" else Upper(registerType)
  }

  /**
   * Whether a row's text qualifies in a pass; court is the lower-cased
   * target court, and an empty one never matches.
   */
  predicate Fits(pass: Pass, text: string, ty: string, court: string)
  {
    match pass
    case TypeAndCourt =>
      Contains(Upper(text), ty) && court != [] && Contains(Lower(Upper(text)), court) && !IsWrongType(Upper(text))
    case TypeOnly => Contains(Upper(text), ty) && !IsWrongType(Upper(text))
    case CourtOnly => court != [] && Contains(Lower(text), court)
    case NotWrongType => !IsWrongType(Upper(text))
  }

  /** A row whose text can be read (None: the element went stale) and fits the pass. */
  predicate RowFits(row: Option<string>, pass: Pass, ty: string, court: string)
  {
    row.Some? && Fits(pass, row.value, ty, court)
  }

  /** The first row from i on that fits the pass. */
  function FirstRowFrom(rows: seq<Option<string>>, pass: Pass, ty: string, court: string, i: nat): (r: Option<nat>)
    requires i <= |rows|
    requires forall j :: 0 <= j < i ==> !RowFits(rows[j], pass, ty, court)
    ensures r.None? <==> forall j :: 0 <= j < |rows| ==> !RowFits(rows[j], pass, ty, court)
    ensures r.Some? ==> r.value < |rows| && RowFits(rows[r.value], pass, ty, court)
                        && forall j :: 0 <= j < r.value ==> !RowFits(rows[j], pass, ty, court)
    decreases |rows| - i
  {
    if i == |rows| then None
    else if RowFits(rows[i], pass, ty, court) then Some(i)
    else FirstRowFrom(rows, pass, ty, court, i + 1)
  }

  /** The first row that fits the pass. */
  function FirstRow(rows: seq<Option<string>>, pass: Pass, ty: string, court: string): (r: Option<nat>)
    ensures r.None? <==> forall j :: 0 <= j < |rows| ==> !RowFits(rows[j], pass, ty, court)
    ensures r.Some? ==> r.value < |rows| && RowFits(rows[r.value], pass, ty, court)
                        && forall j :: 0 <= j < r.value ==> !RowFits(rows[j], pass, ty, court)
  {
    FirstRowFrom(rows, pass, ty, court, 0)
  }

  /** The row `_click_correct_result` clicks, and the pass that found it; None when it reports failure. */
  function ChoiceSpec(rows: seq<Option<string>>, targetCourt: string, registerType: string): Option<Choice>
  {
    var ty := WantedType(registerType);
    var court := Lower(targetCourt);
    if rows == [] then None
    else if FirstRow(rows, TypeAndCourt, ty, court).Some? then Some(Choice(FirstRow(rows, TypeAndCourt, ty, court).value, TypeAndCourt))
    else if FirstRow(rows, TypeOnly, ty, court).Some? then Some(Choice(FirstRow(rows, TypeOnly, ty, court).value, TypeOnly))
    else if FirstRow(rows, CourtOnly, ty, court).Some? then Some(Choice(FirstRow(rows, CourtOnly, ty, court).value, CourtOnly))
    else if FirstRow(rows, NotWrongType, ty, court).Some? then Some(Choice(FirstRow(rows, NotWrongType, ty, court).value, NotWrongType))
    else None
  }

  /** The pass over the rows: the first readable row that fits, or None. */
  method ScanRows(rows: seq<Option<string>>, pass: Pass, ty: string, court: string) returns (found: Option<nat>)
    ensures found == FirstRow(rows, pass, ty, court)
  {
    for i := 0 to |rows|
      invariant forall j :: 0 <= j < i ==> !RowFits(rows[j], pass, ty, court)
    {
      if rows[i].Some? {
        var text := rows[i].value;
        var fits := false;
        match pass {
          case TypeAndCourt =>
            var upper := Upper(text);
            var hasCorrectType := Contains(upper, ty);
            var isWrongType := IsWrongType(upper);
            var hasCorrectCourt := court != [] && Contains(Lower(upper), court);
            fits := hasCorrectType && hasCorrectCourt && !isWrongType;
          case TypeOnly =>
            var upper := Upper(text);
            fits := Contains(upper, ty) && !IsWrongType(upper);
          case CourtOnly =>
            fits := court != [] && Contains(Lower(text), court);
          case NotWrongType =>
            fits := !IsWrongType(Upper(text));
        }
        if fits {
          return Some(i);
        }
      }
    }
    return None;
  }

  /** `_click_correct_result` over the rows' texts: four passes, the first hit wins. */
  method ChooseRow(rows: seq<Option<string>>, targetCourt: string, registerType: string) returns (choice: Option<Choice>)
    ensures choice == ChoiceSpec(rows, targetCourt, registerType)
  {
    if |rows| == 0 {
      return None;
    }
    var court := if targetCourt != [] then Lower(targetCourt) else [];
    var ty := if registerType != [] then Upper(registerType) else "HRB";
    var found := ScanRows(rows, TypeAndCourt, ty, court);
    if found.Some? {
      return Some(Choice(found.value, TypeAndCourt));
    }
    found := ScanRows(rows, TypeOnly, ty, court);
    if found.Some? {
      return Some(Choice(found.value, TypeOnly));
    }
    found := ScanRows(rows, CourtOnly, ty, court);
    if found.Some? {
      return Some(Choice(found.value, CourtOnly));
    }
    found := ScanRows(rows, NotWrongType, ty, court);
    if found.Some? {
      return Some(Choice(found.value, NotWrongType));
    }
    return None;
  }

  /**
   * The choice made: a readable row that fits its pass, no earlier row fits
   * that pass, and no row at all fits an earlier pass. Failure means there
   * are no rows or none fits any pass.
   */
  lemma ChoiceIsFirstFit(rows: seq<Option<string>>, targetCourt: string, registerType: string)
    ensures var c := ChoiceSpec(rows, targetCourt, registerType);
            var ty := WantedType(registerType);
            var court := Lower(targetCourt);
            (c.Some? ==>
              c.value.row < |rows| && RowFits(rows[c.value.row], c.value.pass, ty, court)
              && (forall j :: 0 <= j < c.value.row ==> !RowFits(rows[j], c.value.pass, ty, court))
              && forall p: Pass, j :: Rank(p) < Rank(c.value.pass) && 0 <= j < |rows| ==> !RowFits(rows[j], p, ty, court))
            && (c.None? <==> rows == [] || forall p: Pass, j :: 0 <= j < |rows| ==> !RowFits(rows[j], p, ty, court))
  {
  }

  /** With no target court the court passes never fire: the choice comes from the type pass or the fallback. */
  lemma EmptyCourtSkipsCourtPasses(rows: seq<Option<string>>, registerType: string)
    ensures var c := ChoiceSpec(rows, [], registerType);
            c.Some? ==> c.value.pass == TypeOnly || c.value.pass == NotWrongType
  {
    assert Lower([]) == [];
  }

  /** A row fitting the first pass also fits the second and the last, so passes 2 and 4 see at least the rows pass 1 sees. */
  lemma PassesNest(text: string, ty: string, court: string)
    ensures Fits(TypeAndCourt, text, ty, court) ==> Fits(TypeOnly, text, ty, court)
    ensures Fits(TypeOnly, text, ty, court) ==> Fits(NotWrongType, text, ty, court)
  {
  }

  /** A spelled-out VR, GnR or PR register anywhere in a row marks it as the wrong type. */
  lemma SpelledWrongTypeFlagged(before: string, r: RegisterMatch, after: string)
    requires r.regType == "VR" || r.regType == "GNR" || r.regType == "PR"
    ensures IsWrongType(before + Spelled(r) + after)
  {
    var m := r.regType + " ";
    var rest := r.number + SuffixText(r.suffix) + after;
    var t := before + Spelled(r) + after;
    assert t == before + m + rest;
    assert forall k :: 0 <= k < |m| ==> t[|before| + k] == m[k];
    assert t[|before|..|before| + |m|] == m;
    ContainsAt(t, m, |before|);
    assert m == WrongTypeMarkers[0] || m == WrongTypeMarkers[2] || m == WrongTypeMarkers[4];
  }

  /** The characters of the canonical spelling of a three-letter register type. */
  lemma SpelledChars(r: RegisterMatch)
    requires |r.regType| == 3
    ensures var s := Spelled(r);
            && s[..3] == r.regType && s[3] == ' '
            && (forall k :: 4 <= k < 4 + |r.number| ==> s[k] == r.number[k - 4])
            && (r.suffix.Some? ==> s[4 + |r.number|] == ' ')
  {
    var s := Spelled(r);
    assert s == r.regType + " " + r.number + SuffixText(r.suffix);
  }

  /** The canonical spelling of an HRB or HRA register holds no marker pair. */
  lemma WantedSpellingPairless(r: RegisterMatch)
    requires WellFormed(r) && (r.regType == "HRB" || r.regType == "HRA")
    ensures forall k :: 0 <= k < |Spelled(r)| ==> !MarkerPairAt(Spelled(r), k)
  {
    var s := Spelled(r);
    SpelledChars(r);
    assert s[0] == 'H' && s[1] == 'R' && s[2] != 'R' by {
      assert s[0] == s[..3][0] && s[1] == s[..3][1] && s[2] == s[..3][2];
    }
    forall k | 0 <= k < |s|
      ensures !MarkerPairAt(s, k)
    {
      if 4 <= k < 4 + |r.number| {
        assert IsDigit(r.number[k - 4]);
      }
    }
  }

  /** The canonical spelling of a register is flagged exactly when its type is VR, GnR or PR. */
  lemma SpelledFlaggedIff(r: RegisterMatch)
    requires WellFormed(r)
    ensures IsWrongType(Spelled(r)) <==> r.regType == "VR" || r.regType == "GNR" || r.regType == "PR"
  {
    if r.regType == "VR" || r.regType == "GNR" || r.regType == "PR" {
      SpelledWrongTypeFlagged([], r, []);
      assert [] + Spelled(r) + [] == Spelled(r);
    } else {
      WantedSpellingPairless(r);
    }
  }
}
