/**
 * The data layer: the Company and Shareholder records with their defaults,
 * the LIMIT validation used by the pending-work queries, the lead
 * qualification rule and the conversion of a stored row back into a Company.
 */
module Models {
  import opened Basics
  import opened Text

  /** A company as imported and tracked by the pipeline (timestamps omitted). */
  datatype Company = Company(
    id: Option<int>,
    dealfrontId: string,
    name: string,
    city: string,
    court: string,            // register court
    registerType: string,     // HRB, HRA, ...
    registerNum: string,      // full register number
    dkDownloaded: bool,
    pdfParsed: bool,
    pdfPath: Option<string>,
    naturalPersonsCount: Option<int>,
    legalEntitiesCount: Option<int>,
    parsingConfidence: Option<real>,
    isQualified: Option<bool>)

  /** A shareholder of a company (timestamp omitted). */
  datatype Shareholder = Shareholder(
    id: Option<int>,
    companyId: int,
    name: string,
    sharePercent: Option<real>,
    isNaturalPerson: bool,
    source: string)           // "table", "regex:<pattern>", ...

  /** The Shareholder dataclass constructor, with its keyword defaults. */
  function NewShareholder(name: string := "", sharePercent: Option<real> := None,
                          source: string := ""): (s: Shareholder)
    ensures s.name == name && s.sharePercent == sharePercent && s.source == source
    ensures s.id == None && s.companyId == 0 && s.isNaturalPerson
  {
    Shareholder(None, 0, name, sharePercent, true, source)
  }

  /** The Company dataclass constructor with every field left at its default. */
  function NewCompany(): (c: Company)
    ensures c.id == None && c.dealfrontId == "" && c.name == "" && c.city == ""
    ensures c.court == "" && c.registerType == "" && c.registerNum == ""
    ensures !c.dkDownloaded && !c.pdfParsed && c.pdfPath == None
    ensures c.naturalPersonsCount == None && c.legalEntitiesCount == None
    ensures c.parsingConfidence == None && c.isQualified == None
  {
    Company(None, "", "", "", "", "", "", false, false, None, None, None, None, None)
  }

  // ------------------------------------------------------------ LIMIT clause

  const MaxLimit: int := 10000

  /**
   * What the caller passes as `limit`: nothing, an int, a bool (which
   * Python's `isinstance(limit, int)` accepts as 0 or 1), or another value.
   */
  datatype LimitArg = NoLimit | IntLimit(n: int) | BoolLimit(b: bool) | OtherLimit(repr: string)

  /** The limit passes `isinstance(limit, int)`. */
  predicate IsInt(limit: LimitArg)
  {
    limit.IntLimit? || limit.BoolLimit?
  }

  /** The integer value of an int or bool limit. */
  function IntValue(limit: LimitArg): int
    requires IsInt(limit)
  {
    if limit.IntLimit? then limit.n else if limit.b then 1 else 0
  }

  /** A parameterised SQL statement. */
  datatype Query = Query(sql: string, params: seq<int>)

  /** The two ValueErrors `_execute_with_limit` raises. */
  datatype LimitError = InvalidLimit(shown: string) | LimitTooLarge(n: int)

  /** `str(n)` for any integer. */
  function IntToString(n: int): (r: string)
    ensures r != []
  {
    if n < 0 then "-" + Decimal(-n) else Decimal(n)
  }

  function Shown(limit: LimitArg): string
  {
    match limit
    case NoLimit => "None"
    case IntLimit(n) => IntToString(n)
    case BoolLimit(b) => if b then "True" else "False"
    case OtherLimit(repr) => repr
  }

  function ErrorMessage(e: LimitError): string
  {
    match e
    case InvalidLimit(shown) => "Invalid limit: " + shown + ". Must be positive integer."
    case LimitTooLarge(n) => "Limit " + IntToString(n) + " exceeds maximum of 10000."
  }

  function CountChar(s: string, c: char): nat
  {
    if s == [] then 0 else CountChar(s[..|s| - 1], c) + (if s[|s| - 1] == c then 1 else 0)
  }

  /** The statement `_execute_with_limit` hands to the database, or the error it raises. */
  function LimitedQuery(baseQuery: string, limit: LimitArg): (r: Result<Query, LimitError>)
    ensures limit.NoLimit? ==> r == Ok(Query(baseQuery, []))
    ensures r.Err? <==> limit.OtherLimit? || (IsInt(limit) && (IntValue(limit) < 1 || IntValue(limit) > MaxLimit))
    ensures r.Err? && r.error.LimitTooLarge? <==> IsInt(limit) && IntValue(limit) > MaxLimit
    ensures r.Err? && r.error.InvalidLimit? ==> r.error.shown == Shown(limit)
    ensures r.Ok? && IsInt(limit) ==> r.value == Query(baseQuery + " LIMIT ?", [IntValue(limit)])
  {
    if limit.NoLimit? then Ok(Query(baseQuery, []))
    else if !IsInt(limit) || IntValue(limit) < 1 then Err(InvalidLimit(Shown(limit)))
    else if IntValue(limit) > MaxLimit then Err(LimitTooLarge(IntValue(limit)))
    else Ok(Query(baseQuery + " LIMIT ?", [IntValue(limit)]))
  }

  /** A bool limit: `True` is the limit 1, `False` is rejected and shown as "False". */
  lemma BoolLimitsAsInt(baseQuery: string)
    ensures LimitedQuery(baseQuery, BoolLimit(true)) == Ok(Query(baseQuery + " LIMIT ?", [1]))
    ensures LimitedQuery(baseQuery, BoolLimit(false)) == Err(InvalidLimit("False"))
  {
  }

  /** The limit is bound as a parameter: every accepted statement has one `?` per parameter more than its base. */
  lemma {:induction false} LimitIsParameterised(baseQuery: string, limit: LimitArg)
    requires LimitedQuery(baseQuery, limit).Ok?
    ensures var q := LimitedQuery(baseQuery, limit).value;
            CountChar(q.sql, '?') == CountChar(baseQuery, '?') + |q.params|
            && forall k :: 0 <= k < |q.params| ==> 1 <= q.params[k] <= MaxLimit
  {
    if IsInt(limit) {
      CountCharAppend(baseQuery, " LIMIT ?", '?');
      assert CountChar(" LIMIT ?", '?') == 1 by {
        assert " LIMIT ?"[..7] == " LIMIT ";
        NoCharCount(" LIMIT ", '?');
      }
    }
  }

  lemma {:induction false} NoCharCount(s: string, c: char)
    requires c !in s
    ensures CountChar(s, c) == 0
  {
    if s != [] {
      assert c !in s[..|s| - 1] && s[|s| - 1] in s;
      NoCharCount(s[..|s| - 1], c);
    }
  }

  lemma {:induction false} CountCharAppend(a: string, b: string, c: char)
    ensures CountChar(a + b, c) == CountChar(a, c) + CountChar(b, c)
    decreases |b|
  {
    if b == [] {
      assert a + b == a;
    } else {
      assert (a + b)[..|a + b| - 1] == a + b[..|b| - 1];
      CountCharAppend(a, b[..|b| - 1], c);
    }
  }

  /**
   * `_execute_with_limit` up to the database call: builds the statement by
   * concatenation and the parameter list by appending.
   */
  method ExecuteWithLimit(baseQuery: string, limit: LimitArg) returns (r: Result<Query, LimitError>)
    ensures r == LimitedQuery(baseQuery, limit)
  {
    var params: seq<int> := [];
    var query := baseQuery;
    if !limit.NoLimit? {
      if !IsInt(limit) || IntValue(limit) < 1 {
        return Err(InvalidLimit(Shown(limit)));
      }
      if IntValue(limit) > MaxLimit {
        return Err(LimitTooLarge(IntValue(limit)));
      }
      query := query + " LIMIT ?";
      params := params + [IntValue(limit)];
      assert params == [IntValue(limit)];
    }
    return Ok(Query(query, params));
  }

  // ------------------------------------------------------------ qualification

  /** A company is a qualified lead when it has at most two natural persons and no legal entity as shareholders. */
  function IsQualified(naturalCount: int, legalCount: int): (q: bool)
    ensures q <==> naturalCount <= 2 && legalCount == 0
  {
    naturalCount <= 2 && legalCount == 0
  }

  // ------------------------------------------------------------ stored rows

  /** A `companies` row as the database returns it: NULL is None, booleans are 0/1 integers. */
  datatype CompanyRow = CompanyRow(
    id: int,
    dealfrontId: Option<string>,
    name: string,
    city: Option<string>,
    court: Option<string>,
    registerType: Option<string>,
    registerNum: Option<string>,
    dkDownloaded: Option<int>,
    pdfParsed: Option<int>,
    pdfPath: Option<string>,
    naturalPersonsCount: Option<int>,
    legalEntitiesCount: Option<int>,
    parsingConfidence: Option<real>,
    isQualified: Option<int>)

  /** `value or ""` for a text column. */
  function TextOrEmpty(v: Option<string>): string
  {
    if v.Some? then v.value else ""
  }

  /** Python's `bool(value)` for an integer column that may be NULL. */
  function Truth(v: Option<int>): bool
  {
    v.Some? && v.value != 0
  }

  /** `_row_to_company`: NULL text columns become "", NULL stays None only for is_qualified among the flags. */
  function RowToCompany(row: CompanyRow): (c: Company)
    ensures c.id == Some(row.id) && c.name == row.name
    ensures c.city == TextOrEmpty(row.city) && c.court == TextOrEmpty(row.court)
    ensures c.dealfrontId == TextOrEmpty(row.dealfrontId)
    ensures c.registerType == TextOrEmpty(row.registerType) && c.registerNum == TextOrEmpty(row.registerNum)
    ensures c.isQualified.None? <==> row.isQualified.None?
    ensures row.isQualified.Some? ==> c.isQualified == Some(row.isQualified.value != 0)
    ensures c.dkDownloaded == Truth(row.dkDownloaded) && c.pdfParsed == Truth(row.pdfParsed)
    ensures c.pdfPath == row.pdfPath && c.parsingConfidence == row.parsingConfidence
    ensures c.naturalPersonsCount == row.naturalPersonsCount && c.legalEntitiesCount == row.legalEntitiesCount
  {
    Company(
      Some(row.id), TextOrEmpty(row.dealfrontId), row.name, TextOrEmpty(row.city),
      TextOrEmpty(row.court), TextOrEmpty(row.registerType), TextOrEmpty(row.registerNum),
      Truth(row.dkDownloaded), Truth(row.pdfParsed), row.pdfPath,
      row.naturalPersonsCount, row.legalEntitiesCount, row.parsingConfidence,
      if row.isQualified.Some? then Some(row.isQualified.value != 0) else None)
  }

  function BoolColumn(b: bool): int
  {
    if b then 1 else 0
  }

  /** The row a stored company occupies: text as text, flags as 0/1, None as NULL. */
  function CompanyToRow(c: Company): CompanyRow
    requires c.id.Some?
  {
    CompanyRow(
      c.id.value, Some(c.dealfrontId), c.name, Some(c.city), Some(c.court),
      Some(c.registerType), Some(c.registerNum), Some(BoolColumn(c.dkDownloaded)),
      Some(BoolColumn(c.pdfParsed)), c.pdfPath, c.naturalPersonsCount, c.legalEntitiesCount,
      c.parsingConfidence,
      if c.isQualified.Some? then Some(BoolColumn(c.isQualified.value)) else None)
  }

  /** Reading back a stored company gives the same company. */
  lemma StoredCompanyRoundTrip(c: Company)
    requires c.id.Some?
    ensures RowToCompany(CompanyToRow(c)) == c
  {
  }
}
