/**
 * `GesellschafterlisteParser.parse`: read the PDF, try every table, fall
 * back to the text patterns when the tables yield nobody, de-duplicate,
 * classify and score. The PDF reader is an input: a document is missing,
 * cannot be opened, or is a sequence of pages whose text and tables each
 * come back or raise.
 */
module Parser {
  import opened Basics
  import opened Text
  import opened Models
  import opened NameRules
  import opened TableExtraction
  import opened PatternExtraction
  import opened Dedup
  import opened Confidence

  /** What one reader call returns, or that it raised. */
  datatype Extract<T> = Got(value: T) | Raised

  /** One page: `extract_text()` (which may give None) and `extract_tables()`. */
  datatype Page = Page(text: Extract<Option<string>>, tables: Extract<seq<Table>>)

  /** The file at the given path, as the reader finds it. */
  datatype Document = Missing | Unopenable | Opened(pages: seq<Page>)

  /** The ParsingResult dataclass; the confidence is in hundredths. */
  datatype ParsingResult = ParsingResult(
    shareholders: seq<Shareholder>,
    naturalPersonsCount: nat,
    legalEntitiesCount: nat,
    confidence: int,
    rawText: string)

  /** The result of a missing or unreadable file. */
  function EmptyResult(rawText: string): ParsingResult
  {
    ParsingResult([], 0, 0, 0, rawText)
  }

  // ------------------------------------------------------------- the text

  /** `page.extract_text() or ""`. */
  function PageText(t: Option<string>): string
  {
    if t.Some? then t.value else ""
  }

  /** The texts of all pages, or Raised when one extraction raises. */
  function PageTexts(pages: seq<Page>): (r: Extract<seq<string>>)
    ensures r.Raised? <==> exists k :: 0 <= k < |pages| && pages[k].text.Raised?
    ensures r.Got? ==> |r.value| == |pages|
    ensures r.Got? ==> forall k :: 0 <= k < |pages| ==> r.value[k] == PageText(pages[k].text.value)
  {
    if pages == [] then Got([])
    else
      var init := pages[..|pages| - 1];
      var last := pages[|pages| - 1];
      assert forall k :: 0 <= k < |init| ==> init[k] == pages[k];
      match PageTexts(init)
      case Raised => Raised
      case Got(ts) => if last.text.Raised? then Raised else Got(ts + [PageText(last.text.value)])
  }

  /** `"\n".join(parts)`. */
  function JoinLines(parts: seq<string>): (r: string)
    ensures |parts| == 1 ==> r == parts[0]
  {
    if parts == [] then ""
    else if |parts| == 1 then parts[0]
    else JoinLines(parts[..|parts| - 1]) + "\n" + parts[|parts| - 1]
  }

  /** Joining n lines puts n - 1 separators between them. */
  lemma {:induction false} JoinLinesLength(parts: seq<string>)
    requires parts != []
    ensures |JoinLines(parts)| == |parts| - 1 + SumLengths(parts)
    decreases |parts|
  {
    if |parts| > 1 {
      var init := parts[..|parts| - 1];
      JoinLinesLength(init);
      assert init[..|init| - 1] == parts[..|parts| - 2];
    }
  }

  /** The total length of the parts. */
  function SumLengths(parts: seq<string>): nat
  {
    if parts == [] then 0 else SumLengths(parts[..|parts| - 1]) + |parts[|parts| - 1]|
  }

  /** `full_text`: the page texts joined by newlines. */
  function FullText(pages: seq<Page>): (r: Extract<string>)
    ensures r.Raised? <==> exists k :: 0 <= k < |pages| && pages[k].text.Raised?
  {
    match PageTexts(pages)
    case Raised => Raised
    case Got(ts) => Got(JoinLines(ts))
  }

  // ----------------------------------------------------------- the tables

  /** Concatenate what each item yields, in order; Raised as soon as one item raises. */
  function Gather<T>(items: seq<T>, f: T -> Extract<seq<Shareholder>>): (r: Extract<seq<Shareholder>>)
    ensures r.Raised? <==> exists k :: 0 <= k < |items| && f(items[k]).Raised?
  {
    if items == [] then Got([])
    else
      var init := items[..|items| - 1];
      assert forall k :: 0 <= k < |init| ==> init[k] == items[k];
      match Gather(init, f)
      case Raised => Raised
      case Got(xs) =>
        var y := f(items[|items| - 1]);
        if y.Raised? then Raised else Got(xs + y.value)
  }

  /** One more item that does not raise extends the gathered list by its yield. */
  lemma GatherStep<T>(items: seq<T>, j: nat, f: T -> Extract<seq<Shareholder>>)
    requires j < |items| && Gather(items[..j], f).Got? && f(items[j]).Got?
    ensures Gather(items[..j + 1], f) == Got(Gather(items[..j], f).value + f(items[j]).value)
  {
    assert items[..j + 1][..j] == items[..j];
  }

  /** `_parse_table`, or a stand-in for it: the specification below is stated for any table parser. */
  type TableParser = Table -> Result<seq<Shareholder>, TableError>

  /** One table of a page: skipped when empty, else parsed; a share error propagates. */
  function TableYield(parse: TableParser): Table -> Extract<seq<Shareholder>>
  {
    (t: Table) => if t == [] then Got([]) else if parse(t).Err? then Raised else Got(parse(t).value)
  }

  /** One page: its tables in order, or Raised when `extract_tables()` raises. */
  function PageYield(parse: TableParser): Page -> Extract<seq<Shareholder>>
  {
    (p: Page) => if p.tables.Raised? then Raised else Gather(p.tables.value, TableYield(parse))
  }

  /** The pooled table results of all pages. */
  function TablesFrom(pages: seq<Page>, parse: TableParser): Extract<seq<Shareholder>>
  {
    Gather(pages, PageYield(parse))
  }

  /** The inner loop of the table pass: what the page's non-empty tables yield, in order. */
  method CollectPageTables(tables: seq<Table>) returns (r: Extract<seq<Shareholder>>)
    ensures r == Gather(tables, TableYield(TableSpec))
  {
    var shareholders: seq<Shareholder> := [];
    for j := 0 to |tables|
      invariant Gather(tables[..j], TableYield(TableSpec)) == Got(shareholders)
    {
      var table := tables[j];
      if table != [] {
        var extracted := ParseTable(table);
        if extracted.Err? {
          assert TableYield(TableSpec)(tables[j]).Raised?;
          return Raised;
        }
        GatherStep(tables, j, TableYield(TableSpec));
        shareholders := shareholders + extracted.value;
      } else {
        GatherStep(tables, j, TableYield(TableSpec));
        assert shareholders + [] == shareholders;
      }
    }
    assert tables[..|tables|] == tables;
    return Got(shareholders);
  }

  /** The table pass of `parse`: every page, every non-empty table, extended in order. */
  method CollectTables(pages: seq<Page>) returns (r: Extract<seq<Shareholder>>)
    ensures r == TablesFrom(pages, TableSpec)
  {
    var shareholders: seq<Shareholder> := [];
    for i := 0 to |pages|
      invariant Gather(pages[..i], PageYield(TableSpec)) == Got(shareholders)
    {
      var page := pages[i];
      if page.tables.Raised? {
        assert PageYield(TableSpec)(pages[i]).Raised?;
        return Raised;
      }
      var extracted := CollectPageTables(page.tables.value);
      if extracted.Raised? {
        assert PageYield(TableSpec)(pages[i]).Raised?;
        return Raised;
      }
      GatherStep(pages, i, PageYield(TableSpec));
      shareholders := shareholders + extracted.value;
    }
    assert pages[..|pages|] == pages;
    return Got(shareholders);
  }

  // ----------------------------------------------- classification and counts

  /** The classifier's verdict written into one shareholder. */
  function Classify(s: Shareholder): Shareholder
  {
    s.(isNaturalPerson := IsNaturalPerson(s.name))
  }

  /** Every shareholder classified, in place. */
  function Classified(xs: seq<Shareholder>): (ys: seq<Shareholder>)
    ensures |ys| == |xs| && forall k :: 0 <= k < |xs| ==> ys[k] == Classify(xs[k])
  {
    seq(|xs|, k requires 0 <= k < |xs| => Classify(xs[k]))
  }

  /** The loop of `parse` that overwrites every `is_natural_person`. */
  method ClassifyAll(a: array<Shareholder>)
    modifies a
    ensures a[..] == Classified(old(a[..]))
  {
    for i := 0 to a.Length
      invariant forall k :: 0 <= k < i ==> a[k] == Classify(old(a[k]))
      invariant forall k :: i <= k < a.Length ==> a[k] == old(a[k])
    {
      a[i] := a[i].(isNaturalPerson := IsNaturalPerson(a[i].name));
    }
  }

  /** `len([s for s in shareholders if s.is_natural_person])`. */
  function CountNatural(xs: seq<Shareholder>): nat
  {
    if xs == [] then 0 else CountNatural(xs[..|xs| - 1]) + (if xs[|xs| - 1].isNaturalPerson then 1 else 0)
  }

  /** `len([s for s in shareholders if not s.is_natural_person])`. */
  function CountLegal(xs: seq<Shareholder>): nat
  {
    if xs == [] then 0 else CountLegal(xs[..|xs| - 1]) + (if xs[|xs| - 1].isNaturalPerson then 0 else 1)
  }

  /** Every shareholder is counted exactly once. */
  lemma {:induction false} CountsAddUp(xs: seq<Shareholder>)
    ensures CountNatural(xs) + CountLegal(xs) == |xs|
    decreases |xs|
  {
    if xs != [] {
      CountsAddUp(xs[..|xs| - 1]);
    }
  }

  /** No legal entity is counted iff every shareholder is a natural person. */
  lemma {:induction false} NoLegalIff(xs: seq<Shareholder>)
    ensures CountLegal(xs) == 0 <==> forall k :: 0 <= k < |xs| ==> xs[k].isNaturalPerson
    decreases |xs|
  {
    if xs != [] {
      var init := xs[..|xs| - 1];
      NoLegalIff(init);
      assert forall k :: 0 <= k < |init| ==> init[k] == xs[k];
    }
  }

  // ---------------------------------------------------------------- parse

  /** De-duplicate, classify, count and score the extracted shareholders. */
  function Finish(xs: seq<Shareholder>, text: string): ParsingResult
  {
    var c := Classified(Deduplicated(xs, NameKey));
    ParsingResult(c, CountNatural(c), CountLegal(c), ConfidenceSpec(c, text), text)
  }

  /**
   * `parse`, given the document, what the five patterns find in a text
   * (`findall(text)(p)`: the groups of every match of pattern p) and the
   * table parser (`_parse_table` is `TableSpec`).
   */
  function ParseSpec(doc: Document, findall: string -> PatternName -> seq<Match>, parse: TableParser): ParsingResult
    requires forall t :: WellFormed(findall(t))
  {
    match doc
    case Missing => EmptyResult("")
    case Unopenable => EmptyResult("")
    case Opened(pages) =>
      match FullText(pages)
      case Raised => EmptyResult("")
      case Got(text) =>
        match TablesFrom(pages, parse)
        case Raised => EmptyResult(text)
        case Got(xs) => Finish(if xs == [] then PatternsSpec(findall(text)) else xs, text)
  }

  /** The steps after extraction, as `parse` performs them. */
  method FinishParse(xs: seq<Shareholder>, text: string) returns (r: ParsingResult)
    ensures r == Finish(xs, text)
  {
    var unique := Deduplicate(xs);
    var a := new Shareholder[|unique|](i requires 0 <= i < |unique| => unique[i]);
    assert a[..] == unique;
    ClassifyAll(a);
    var shareholders := a[..];
    var confidence := CalculateConfidence(shareholders, text);
    r := ParsingResult(shareholders, CountNatural(shareholders), CountLegal(shareholders), confidence, text);
  }

  /** `GesellschafterlisteParser.parse`. */
  method Parse(doc: Document, findall: string -> PatternName -> seq<Match>) returns (r: ParsingResult)
    requires forall t :: WellFormed(findall(t))
    ensures r == ParseSpec(doc, findall, TableSpec)
  {
    if doc.Missing? || doc.Unopenable? {
      return EmptyResult("");
    }
    var fullText := FullText(doc.pages);
    if fullText.Raised? {
      return EmptyResult("");
    }
    var text := fullText.value;
    var tabled := CollectTables(doc.pages);
    if tabled.Raised? {
      return EmptyResult(text);
    }
    var shareholders := tabled.value;
    if shareholders == [] {
      shareholders := ParseWithPatterns(findall(text));
    }
    r := FinishParse(shareholders, text);
  }


  // ----------------------------------------------------------- properties

  /** After extraction: counts that add up, the classifier's verdict on every entry, distinct keys, a confidence in [0, 1]. */
  lemma FinishShape(xs: seq<Shareholder>, text: string)
    ensures var r := Finish(xs, text);
            r.naturalPersonsCount + r.legalEntitiesCount == |r.shareholders|
            && (forall k :: 0 <= k < |r.shareholders| ==> r.shareholders[k].isNaturalPerson == IsNaturalPerson(r.shareholders[k].name))
            && DistinctKeys(r.shareholders, NameKey)
            && 0 <= r.confidence <= 100
            && (r.shareholders == [] ==> r.confidence == 0)
            && r.rawText == text
  {
    var d := Deduplicated(xs, NameKey);
    var c := Classified(d);
    CountsAddUp(c);
    ConfidenceRange(c, text);
    DedupDistinct(xs, NameKey);
    ClassifyKeepsKeys(d);
  }

  /** Classification changes no name, so distinct keys stay distinct. */
  lemma ClassifyKeepsKeys(d: seq<Shareholder>)
    requires DistinctKeys(d, NameKey)
    ensures DistinctKeys(Classified(d), NameKey)
  {
    var c := Classified(d);
    forall i, j | 0 <= i < j < |c|
      ensures NameKey(c[i]) != NameKey(c[j])
    {
      assert c[i].name == d[i].name && c[j].name == d[j].name;
    }
  }

  /** When text and tables are read, `parse` finishes what the tables (or, failing them, the patterns) yield. */
  lemma ParseFinishes(pages: seq<Page>, findall: string -> PatternName -> seq<Match>, parse: TableParser)
    requires forall t :: WellFormed(findall(t))
    requires FullText(pages).Got? && TablesFrom(pages, parse).Got?
    ensures var text := FullText(pages).value;
            var xs := TablesFrom(pages, parse).value;
            ParseSpec(Opened(pages), findall, parse) == Finish(if xs == [] then PatternsSpec(findall(text)) else xs, text)
  {
  }

  /**
   * Whatever `parse` returns: both counts add up to the list, every entry
   * carries the classifier's verdict, the keys are distinct and the
   * confidence lies in [0, 1], 0 for an empty list.
   */
  lemma ParseResultShape(doc: Document, findall: string -> PatternName -> seq<Match>, parse: TableParser)
    requires forall t :: WellFormed(findall(t))
    ensures var r := ParseSpec(doc, findall, parse);
            r.naturalPersonsCount + r.legalEntitiesCount == |r.shareholders|
            && (forall k :: 0 <= k < |r.shareholders| ==> r.shareholders[k].isNaturalPerson == IsNaturalPerson(r.shareholders[k].name))
            && DistinctKeys(r.shareholders, NameKey)
            && 0 <= r.confidence <= 100
            && (r.shareholders == [] ==> r.confidence == 0)
  {
    if doc.Opened? && FullText(doc.pages).Got? && TablesFrom(doc.pages, parse).Got? {
      var text := FullText(doc.pages).value;
      var xs := TablesFrom(doc.pages, parse).value;
      ParseFinishes(doc.pages, findall, parse);
      FinishShape(if xs == [] then PatternsSpec(findall(text)) else xs, text);
    }
  }

  /**
   * A missing or unopenable file, or a page whose text extraction raises,
   * gives the empty result with no text; a raising table pass gives the
   * empty result that keeps the text.
   */
  lemma FailureResults(doc: Document, findall: string -> PatternName -> seq<Match>, parse: TableParser)
    requires forall t :: WellFormed(findall(t))
    ensures doc.Missing? || doc.Unopenable? ==> ParseSpec(doc, findall, parse) == EmptyResult("")
    ensures doc.Opened? && (exists k :: 0 <= k < |doc.pages| && doc.pages[k].text.Raised?)
            ==> ParseSpec(doc, findall, parse) == EmptyResult("")
    ensures doc.Opened? && FullText(doc.pages).Got? && TablesFrom(doc.pages, parse).Raised?
            ==> ParseSpec(doc, findall, parse) == EmptyResult(FullText(doc.pages).value)
  {
  }

  /** A non-empty table on which `_parse_table` raises makes the whole parse fail, keeping the text. */
  lemma ShareErrorFailsParse(pages: seq<Page>, i: nat, j: nat, findall: string -> PatternName -> seq<Match>, parse: TableParser)
    requires forall t :: WellFormed(findall(t))
    requires i < |pages| && pages[i].tables.Got? && j < |pages[i].tables.value|
    requires pages[i].tables.value[j] != [] && parse(pages[i].tables.value[j]).Err?
    requires FullText(pages).Got?
    ensures ParseSpec(Opened(pages), findall, parse) == EmptyResult(FullText(pages).value)
  {
    assert TableYield(parse)(pages[i].tables.value[j]).Raised?;
    assert PageYield(parse)(pages[i]).Raised?;
  }

  /** Every element of the list satisfies ok. */
  predicate AllOk(xs: seq<Shareholder>, ok: Shareholder -> bool)
  {
    forall m :: 0 <= m < |xs| ==> ok(xs[m])
  }

  /** What holds of everything each item yields holds of everything gathered. */
  lemma {:induction false} GatherAll<T>(items: seq<T>, f: T -> Extract<seq<Shareholder>>, ok: Shareholder -> bool)
    requires forall k :: 0 <= k < |items| && f(items[k]).Got? ==> AllOk(f(items[k]).value, ok)
    requires Gather(items, f).Got?
    ensures AllOk(Gather(items, f).value, ok)
    decreases |items|
  {
    if items != [] {
      var init := items[..|items| - 1];
      assert forall k :: 0 <= k < |init| ==> init[k] == items[k];
      GatherAll(init, f, ok);
      var a := Gather(init, f).value;
      var b := f(items[|items| - 1]).value;
      assert AllOk(b, ok);
      assert Gather(items, f).value == a + b;
    }
  }

  /** What holds of everything the table parser returns holds of the pooled table results. */
  lemma TablesFromAll(pages: seq<Page>, parse: TableParser, ok: Shareholder -> bool)
    requires forall t :: parse(t).Ok? ==> AllOk(parse(t).value, ok)
    requires TablesFrom(pages, parse).Got?
    ensures AllOk(TablesFrom(pages, parse).value, ok)
  {
    forall k | 0 <= k < |pages| && PageYield(parse)(pages[k]).Got?
      ensures AllOk(PageYield(parse)(pages[k]).value, ok)
    {
      GatherAll(pages[k].tables.value, TableYield(parse), ok);
    }
    GatherAll(pages, PageYield(parse), ok);
  }

  /** Every entry of the result is the classified form of an extracted one. */
  lemma FinishFromInput(xs: seq<Shareholder>, text: string)
    ensures forall k :: 0 <= k < |Finish(xs, text).shareholders| ==>
              exists i :: 0 <= i < |xs| && Finish(xs, text).shareholders[k] == Classify(xs[i])
  {
    var d := Deduplicated(xs, NameKey);
    var c := Finish(xs, text).shareholders;
    forall k | 0 <= k < |c|
      ensures exists i :: 0 <= i < |xs| && c[k] == Classify(xs[i])
    {
      assert d[k] in d;
      OnlyFirstOccurrencesKept(xs, d[k], NameKey);
    }
  }

  /** Source tags pass unchanged through de-duplication and classification. */
  lemma FinishKeepsSources(xs: seq<Shareholder>, text: string, ok: Shareholder -> bool)
    requires AllOk(xs, ok)
    requires forall s :: ok(s) ==> ok(Classify(s))
    ensures AllOk(Finish(xs, text).shareholders, ok)
  {
    FinishFromInput(xs, text);
    var c := Finish(xs, text).shareholders;
    forall k | 0 <= k < |c|
      ensures ok(c[k])
    {
      var i :| 0 <= i < |xs| && c[k] == Classify(xs[i]);
      assert ok(xs[i]);
    }
  }

  predicate FromTable(s: Shareholder)
  {
    s.source == "table"
  }

  predicate FromSomePattern(s: Shareholder)
  {
    exists p :: s.source == RegexSource(p)
  }

  /**
   * The patterns run only when the pooled table results are empty: the
   * result then holds pattern shareholders only; otherwise it holds table
   * shareholders only.
   */
  lemma RegexOnlyWithoutTables(pages: seq<Page>, findall: string -> PatternName -> seq<Match>)
    requires forall t :: WellFormed(findall(t))
    requires FullText(pages).Got? && TablesFrom(pages, TableSpec).Got?
    ensures TablesFrom(pages, TableSpec).value != [] ==>
              AllOk(ParseSpec(Opened(pages), findall, TableSpec).shareholders, FromTable)
    ensures TablesFrom(pages, TableSpec).value == [] ==>
              AllOk(ParseSpec(Opened(pages), findall, TableSpec).shareholders, FromSomePattern)
  {
    var text := FullText(pages).value;
    var xs := TablesFrom(pages, TableSpec).value;
    ParseFinishes(pages, findall, TableSpec);
    if xs != [] {
      forall t | TableSpec(t).Ok?
        ensures AllOk(TableSpec(t).value, FromTable)
      {
        TableShape(t);
      }
      TablesFromAll(pages, TableSpec, FromTable);
      FinishKeepsSources(xs, text, FromTable);
    } else {
      var ys := PatternsSpec(findall(text));
      PatternResultShape(findall(text));
      forall k | 0 <= k < |ys|
        ensures FromSomePattern(ys[k])
      {
        var p :| FromPattern(ys[k], p);
      }
      FinishKeepsSources(ys, text, FromSomePattern);
    }
  }

  /** The pipeline's qualification of a parse: at most two shareholders, all of them natural persons. */
  lemma QualifiedParse(doc: Document, findall: string -> PatternName -> seq<Match>, parse: TableParser)
    requires forall t :: WellFormed(findall(t))
    ensures var r := ParseSpec(doc, findall, parse);
            IsQualified(r.naturalPersonsCount, r.legalEntitiesCount)
            <==> |r.shareholders| <= 2 && forall k :: 0 <= k < |r.shareholders| ==> IsNaturalPerson(r.shareholders[k].name)
  {
    var r := ParseSpec(doc, findall, parse);
    ParseResultShape(doc, findall, parse);
    NoLegalIff(r.shareholders);
  }
}
