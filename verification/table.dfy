/**
 * `_parse_table`: reads shareholders out of one table that the PDF reader
 * extracted. The header row picks the name column (and, optionally, the
 * share column); every data row whose raw name cell passes the length and
 * non-person checks yields one shareholder with source "table".
 */
module TableExtraction {
  import opened Basics
  import opened Text
  import opened Models
  import opened NameRules
  import opened ShareParsing

  /** A table cell as the reader returns it; None is an absent cell. */
  type Cell = Option<string>
  type Row = seq<Cell>
  type Table = seq<Row>

  /** The exception `_parse_table` lets through: `float("")` on a share cell. */
  datatype TableError = ShareNotANumber

  /** Header keywords of the name column. */
  const NameTerms: seq<string> := [
    "name", "gesellschafter", "vor- und nachname", "nachname", "inhaber", "anteilsinhaber"]

  /** Header keywords of the share column. */
  const ShareTerms: seq<string> := [
    "anteil", "%", "geschäftsanteil", "nennbetrag", "betrag", "prozent"]

  /** Header words that rule a column out as the fallback name column. */
  const NumberTerms: seq<string> := ["nr", "lfd", "nummer"]

  /** `str(cell)` for a present cell, "" for an absent one. */
  function CellText(c: Cell): string
  {
    if c.Some? then c.value else ""
  }

  /** `[str(h).lower() if h else "" for h in table[0]]`. */
  function Headers(header: Row): (hs: seq<string>)
    ensures |hs| == |header|
    ensures forall i :: 0 <= i < |header| ==> hs[i] == Lower(CellText(header[i]))
  {
    seq(|header|, i requires 0 <= i < |header| => Lower(CellText(header[i])))
  }

  // ------------------------------------------------------ column search

  /** The test of `_find_column_index`: a non-empty header containing one of the terms. */
  predicate HeaderMatches(header: string, terms: seq<string>)
  {
    header != [] && ContainsAny(header, terms)
  }

  /** `_find_column_index` from position i on: the first matching header. */
  function FindColumnFrom(headers: seq<string>, terms: seq<string>, i: nat): (r: Option<nat>)
    requires i <= |headers|
    ensures r.Some? ==> i <= r.value < |headers| && HeaderMatches(headers[r.value], terms)
    ensures forall j :: i <= j < |headers| && (r.None? || j < r.value) ==> !HeaderMatches(headers[j], terms)
    decreases |headers| - i
  {
    if i == |headers| then None
    else if HeaderMatches(headers[i], terms) then Some(i)
    else FindColumnFrom(headers, terms, i + 1)
  }

  /** `_find_column_index`: the smallest index whose header contains a term, if any. */
  function FindColumnIndex(headers: seq<string>, terms: seq<string>): (r: Option<nat>)
    ensures r.Some? ==> r.value < |headers| && HeaderMatches(headers[r.value], terms)
    ensures forall j :: 0 <= j < |headers| && (r.None? || j < r.value) ==> !HeaderMatches(headers[j], terms)
  {
    FindColumnFrom(headers, terms, 0)
  }

  /** A header cell the fallback accepts: present, non-empty and naming no number column. */
  predicate FallbackCandidate(c: Cell)
  {
    CellText(c) != [] && !ContainsAny(Lower(CellText(c)), NumberTerms)
  }

  /** The fallback loop from position i on: the first acceptable raw header cell. */
  function FallbackFrom(header: Row, i: nat): (r: Option<nat>)
    requires i <= |header|
    ensures r.Some? ==> i <= r.value < |header| && FallbackCandidate(header[r.value])
    ensures forall j :: i <= j < |header| && (r.None? || j < r.value) ==> !FallbackCandidate(header[j])
    decreases |header| - i
  {
    if i == |header| then None
    else if FallbackCandidate(header[i]) then Some(i)
    else FallbackFrom(header, i + 1)
  }

  /** The name column: by keyword, else the first non-empty header that is not a number column. */
  function NameColumn(header: Row): (r: Option<nat>)
    ensures r.Some? ==> r.value < |header|
    ensures var hs := Headers(header);
            (exists j :: 0 <= j < |hs| && HeaderMatches(hs[j], NameTerms))
            ==> r.Some? && HeaderMatches(hs[r.value], NameTerms)
                && forall j :: 0 <= j < r.value ==> !HeaderMatches(hs[j], NameTerms)
    ensures var hs := Headers(header);
            (forall j :: 0 <= j < |hs| ==> !HeaderMatches(hs[j], NameTerms))
            ==> (r.None? <==> forall j :: 0 <= j < |header| ==> !FallbackCandidate(header[j]))
                && (r.Some? ==> FallbackCandidate(header[r.value])
                                && forall j :: 0 <= j < r.value ==> !FallbackCandidate(header[j]))
  {
    var byKeyword := FindColumnIndex(Headers(header), NameTerms);
    if byKeyword.Some? then byKeyword else FallbackFrom(header, 0)
  }

  /** The share column, by keyword only. */
  function ShareColumn(header: Row): (r: Option<nat>)
    ensures r.Some? ==> r.value < |header|
  {
    FindColumnIndex(Headers(header), ShareTerms)
  }

  // ------------------------------------------------------ one data row

  /** What one data row contributes. */
  datatype RowOutcome = Skipped | Kept(holder: Shareholder) | ShareError

  /** The raw name of a row: the stripped cell, "" when the cell is absent. */
  function RawName(row: Row, nameCol: nat): string
    requires nameCol < |row|
  {
    Strip(CellText(row[nameCol]))
  }

  /** The two checks on the raw (stripped, not yet cleaned) name. */
  predicate NameAccepted(raw: string)
  {
    |raw| >= 3 && !HasNonPersonMarker(raw)
  }

  /** `_parse_share` of the share cell; an absent column or cell gives no share. */
  function ShareCell(row: Row, shareCol: Option<nat>): ShareValue
  {
    if shareCol.Some? && shareCol.value < |row| then ParseShare(CellText(row[shareCol.value]))
    else NoShare
  }

  /**
   * The body of the row loop: short rows and rejected names are skipped;
   * otherwise the share cell is parsed (its ValueError escapes) and the
   * cleaned name is kept with source "table".
   */
  function TableRow(row: Row, nameCol: nat, shareCol: Option<nat>): (o: RowOutcome)
    ensures o.Skipped? <==> nameCol >= |row| || !NameAccepted(RawName(row, nameCol))
    ensures o.ShareError? <==> !o.Skipped? && ShareCell(row, shareCol).Unparsable?
    ensures o.Kept? ==> o.holder.source == "table" && o.holder.name == CleanName(RawName(row, nameCol))
    ensures o.Kept? ==> o.holder.id == None && o.holder.companyId == 0 && o.holder.isNaturalPerson
    ensures o.Kept? ==> o.holder.sharePercent == (if ShareCell(row, shareCol).Share? then Some(ShareCell(row, shareCol).value) else None)
  {
    if nameCol >= |row| then Skipped
    else
      var raw := RawName(row, nameCol);
      if !NameAccepted(raw) then Skipped
      else
        match ShareCell(row, shareCol)
        case Unparsable => ShareError
        case NoShare => Kept(NewShareholder(CleanName(raw), None, "table"))
        case Share(v) => Kept(NewShareholder(CleanName(raw), Some(v), "table"))
  }

  // ------------------------------------------------------ the whole table

  /**
   * The shareholders the data rows yield, in row order, or the error of the
   * first failing row; `step` is the loop body for a fixed pair of columns.
   */
  function CollectRows(rows: seq<Row>, step: Row -> RowOutcome): (r: Result<seq<Shareholder>, TableError>)
    ensures r.Err? ==> r == Err(ShareNotANumber)
  {
    if rows == [] then Ok([])
    else
      match CollectRows(rows[..|rows| - 1], step)
      case Err(e) => Err(e)
      case Ok(done) =>
        match step(rows[|rows| - 1])
        case Skipped => Ok(done)
        case Kept(h) => Ok(done + [h])
        case ShareError => Err(ShareNotANumber)
  }

  /** The loop body of `_parse_table` for the given columns. */
  function RowStep(nameCol: nat, shareCol: Option<nat>): Row -> RowOutcome
  {
    row => TableRow(row, nameCol, shareCol)
  }

  /** `_parse_table` as a function of the table. */
  function TableSpec(table: Table): (r: Result<seq<Shareholder>, TableError>)
    ensures |table| < 2 ==> r == Ok([])
    ensures |table| >= 2 && NameColumn(table[0]).None? ==> r == Ok([])
  {
    if |table| < 2 then Ok([])
    else
      match NameColumn(table[0])
      case None => Ok([])
      case Some(nameCol) => CollectRows(table[1..], RowStep(nameCol, ShareColumn(table[0])))
  }

  /** Once a prefix of the rows fails, every longer prefix fails. */
  lemma {:induction false} ErrorPersists(rows: seq<Row>, i: nat, step: Row -> RowOutcome)
    requires i <= |rows| && CollectRows(rows[..i], step).Err?
    ensures CollectRows(rows, step).Err?
    decreases |rows| - i
  {
    if i < |rows| {
      assert rows[..i + 1][..i] == rows[..i];
      ErrorPersists(rows, i + 1, step);
    } else {
      assert rows[..i] == rows;
    }
  }

  /** The row loop of `_parse_table`: append what each row keeps; a failing row ends the loop with its error. */
  method CollectRowsLoop(rows: seq<Row>, step: Row -> RowOutcome) returns (r: Result<seq<Shareholder>, TableError>)
    ensures r == CollectRows(rows, step)
  {
    var shareholders: seq<Shareholder> := [];
    for i := 0 to |rows|
      invariant CollectRows(rows[..i], step) == Ok(shareholders)
    {
      assert rows[..i + 1][..i] == rows[..i];
      match step(rows[i])
      case Skipped =>
      case Kept(h) =>
        shareholders := shareholders + [h];
      case ShareError =>
        ErrorPersists(rows, i + 1, step);
        return Err(ShareNotANumber);
    }
    assert rows[..|rows|] == rows;
    return Ok(shareholders);
  }

  /** `_parse_table`: the header search, then one pass over the data rows. */
  method ParseTable(table: Table) returns (r: Result<seq<Shareholder>, TableError>)
    ensures r == TableSpec(table)
  {
    if |table| < 2 {
      return Ok([]);
    }
    var nameCol := NameColumn(table[0]);
    var shareCol := ShareColumn(table[0]);
    if nameCol.None? {
      return Ok([]);
    }
    r := CollectRowsLoop(table[1..], RowStep(nameCol.value, shareCol));
  }

  // ------------------------------------------------------ properties

  /**
   * Every shareholder comes from its own data row, for which the loop body
   * kept it; there is at most one per data row.
   */
  lemma {:induction false} CollectRowsShape(rows: seq<Row>, step: Row -> RowOutcome)
    requires CollectRows(rows, step).Ok?
    ensures var r := CollectRows(rows, step).value;
            |r| <= |rows|
            && forall k :: 0 <= k < |r| ==> exists j :: 0 <= j < |rows| && step(rows[j]) == Kept(r[k])
    decreases |rows|
  {
    if rows != [] {
      var prefix := rows[..|rows| - 1];
      CollectRowsShape(prefix, step);
      var done := CollectRows(prefix, step).value;
      var r := CollectRows(rows, step).value;
      forall k | 0 <= k < |r|
        ensures exists j :: 0 <= j < |rows| && step(rows[j]) == Kept(r[k])
      {
        if k < |done| {
          var j :| 0 <= j < |prefix| && step(prefix[j]) == Kept(done[k]);
          assert rows[j] == prefix[j];
        } else {
          assert step(rows[|rows| - 1]) == Kept(r[k]);
        }
      }
    }
  }

  /**
   * What a table yields: at most one shareholder per data row, each with
   * source "table" and the cleaned form of a raw name that passed both
   * checks (length at least 3, no non-person marker).
   */
  lemma TableShape(table: Table)
    requires TableSpec(table).Ok?
    ensures var r := TableSpec(table).value;
            |r| <= |table| - 1 || r == []
    ensures var r := TableSpec(table).value;
            forall k :: 0 <= k < |r| ==>
              r[k].source == "table" && exists raw :: NameAccepted(raw) && r[k].name == CleanName(raw)
  {
    if |table| >= 2 && NameColumn(table[0]).Some? {
      var nameCol := NameColumn(table[0]).value;
      var step := RowStep(nameCol, ShareColumn(table[0]));
      var rows := table[1..];
      CollectRowsShape(rows, step);
      var r := TableSpec(table).value;
      forall k | 0 <= k < |r|
        ensures r[k].source == "table" && exists raw :: NameAccepted(raw) && r[k].name == CleanName(raw)
      {
        var j :| 0 <= j < |rows| && step(rows[j]) == Kept(r[k]);
        assert TableRow(rows[j], nameCol, ShareColumn(table[0])) == Kept(r[k]);
        assert NameAccepted(RawName(rows[j], nameCol));
      }
    }
  }

  /** A table fails exactly when the loop body fails on some data row. */
  lemma {:induction false} CollectFailsIff(rows: seq<Row>, step: Row -> RowOutcome)
    ensures CollectRows(rows, step).Err? <==> exists j :: 0 <= j < |rows| && step(rows[j]).ShareError?
    decreases |rows|
  {
    if rows != [] {
      var prefix := rows[..|rows| - 1];
      CollectFailsIff(prefix, step);
      if exists j :: 0 <= j < |prefix| && step(prefix[j]).ShareError? {
        var j :| 0 <= j < |prefix| && step(prefix[j]).ShareError?;
        assert rows[j] == prefix[j];
      }
      if exists j :: 0 <= j < |rows| && step(rows[j]).ShareError? {
        var j :| 0 <= j < |rows| && step(rows[j]).ShareError?;
        if j < |prefix| {
          assert prefix[j] == rows[j];
        }
      }
    }
  }

  /** Rows are handled one after another and independently: rows split in two yield the two results joined. */
  lemma {:induction false} CollectRowsAppend(a: seq<Row>, b: seq<Row>, step: Row -> RowOutcome)
    requires CollectRows(a + b, step).Ok?
    ensures CollectRows(a, step).Ok? && CollectRows(b, step).Ok?
    ensures CollectRows(a + b, step).value == CollectRows(a, step).value + CollectRows(b, step).value
    decreases |b|
  {
    if b == [] {
      assert a + b == a;
    } else {
      var b' := b[..|b| - 1];
      assert (a + b)[..|a + b| - 1] == a + b';
      assert (a + b)[|a + b| - 1] == b[|b| - 1];
      CollectRowsAppend(a, b', step);
    }
  }

  // ------------------------------------------------------ examples

  /** No letter of the ASCII alphabet. */
  predicate NoAsciiLetter(t: string)
  {
    forall i :: 0 <= i < |t| ==> !('a' <= t[i] <= 'z') && !('A' <= t[i] <= 'Z')
  }

  /** Every non-person marker starts with an ASCII letter. */
  lemma NonPersonMarkerStart(k: nat)
    requires k < |NonPersonMarkers|
    ensures NonPersonMarkers[k] != [] && ('a' <= NonPersonMarkers[k][0] <= 'z' || 'A' <= NonPersonMarkers[k][0] <= 'Z')
  {
  }

  /** Text without ASCII letters contains no non-person marker. */
  lemma NoLetterNoMarker(t: string)
    requires NoAsciiLetter(t)
    ensures !HasNonPersonMarker(t)
  {
    var low := Lower(t);
    var ms := LowerAll(NonPersonMarkers);
    forall k | 0 <= k < |ms|
      ensures !Contains(low, ms[k])
    {
      NonPersonMarkerStart(k);
      var c := LowerChar(NonPersonMarkers[k][0]);
      assert ms[k][0] == c && c in ms[k];
      assert c !in low by {
        forall i | 0 <= i < |low|
          ensures low[i] != c
        {
        }
      }
      NotContainsMissingChar(low, ms[k], c);
    }
  }

  /** A string of commas only: no whitespace to strip, no letter, and nothing left after the trailing commas go. */
  lemma CommasOnly(c: string)
    requires forall i :: 0 <= i < |c| ==> c[i] == ','
    ensures Strip(c) == c && !HasNonPersonMarker(c) && CleanName(c) == ""
  {
    StripUnpadded(c);
    NoLetterNoMarker(c);
    assert SingleSpaced(c);
    CollapseFixpoint(c);
  }

  /**
   * The checks run on the raw cell and cleaning runs after them, so a cell
   * of three or more commas passes and is kept with an empty name.
   */
  lemma CommasKeptEmpty(row: Row, c: string)
    requires row == [Some(c)] && |c| >= 3 && forall i :: 0 <= i < |c| ==> c[i] == ','
    ensures RowStep(0, None)(row) == Kept(NewShareholder("", None, "table"))
  {
    CommasOnly(c);
    assert RawName(row, 0) == c;
  }
}
