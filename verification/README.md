# GF-Screening pipeline core, modelled in Dafny

The GF-Screening pipeline screens German companies as acquisition leads. It:

- imports a company list from CSV;
- downloads each company's shareholder list (Gesellschafterliste) from the
  common register portal;
- parses the PDF into shareholders and classifies each as a natural person
  or a legal entity;
- marks a company *qualified* when at most two natural persons and no legal
  entity hold it.

This project models the deterministic core of that pipeline and proves
properties of the model. Its parts:

- **The shareholder-list parser** (`GesellschafterlisteParser`):
  - table extraction with its header search and row filters;
  - the five-pattern regular-expression fallback, with what each pattern
    finds taken as input;
  - name cleaning;
  - German share and amount parsing;
  - the natural-person classifier;
  - case-insensitive de-duplication;
  - the confidence score;
  - the orchestrating `parse`, with the PDF reader as an abstract sequence
    of pages.
- **The import helpers:**
  - the register-field reader with its three patterns;
  - the city-to-court table;
  - CSV column lookup;
  - the delimiter guess;
  - the stored register-number column;
  - the qualification test applied to a parse.
- **The scraper's pure decision rules:**
  - the anchored register-number parse;
  - the choice of federal states to tick in the search form;
  - the four-pass choice of a result row, over the rows' texts.
- **The data-layer validators:**
  - the `LIMIT` validation;
  - the qualification rule;
  - row-to-company conversion;
  - the dataclass defaults.

Every module is a file: `basics.dfy` (Option, Result), `text.dfy` (the
Python string primitives the code relies on), `models.dfy`, `names.dfy`,
`share_parsing.dfy`, `table.dfy`, `patterns.dfy`, `dedup.dfy`,
`confidence.dfy`, `parser.dfy`, `lookup.dfy` (the ordered substring lookup
both fixed maps use), `register.dfy` (the register grammar shared by the
importer and the scraper), `downloader.dfy` and `pipeline.dfy`.

Conventions:

- Confidence is kept in exact hundredths (30 stands for 0.3).
- Shares are exact `real`s.
- Python exceptions that the code lets escape are error values.
- Regular expressions are decided by hand-written matchers. Each matcher
  comes with the argument that the engine's backtracking reaches the same
  groups.

Where the repository's documented behaviour and the code disagree, the
model follows the code. The documentation says extracted names are never
empty. But a table cell of three or more commas passes both row checks,
because they run on the raw cell, and is kept with an empty name
(`TableExtraction.CommasKeptEmpty`).

## Model

| member | source | states |
|---|---|---|
| Models.NewShareholder | src/models.py:42-51 | a default shareholder has no id, company 0, no share, source "" and counts as a natural person |
| Models.NewCompany | src/models.py:16-39 | a default company has no id, empty texts, both flags false, no PDF path, no counts, no confidence and no qualification |
| Models.LimitedQuery | src/models.py:153-164 | no limit leaves the base query unchanged and passes no parameters; a non-int or an int below 1 is "Invalid limit", its message showing the argument; an int above 10000 is "exceeds maximum"; 1..10000 appends " LIMIT ?" with exactly [limit] as parameters; a bool counts as the int 0 or 1 |
| Models.BoolLimitsAsInt | src/models.py:157-162 | a bool passes the int test: True is accepted as the limit 1, False is rejected as invalid and shown as "False" |
| Models.ExecuteWithLimit | src/models.py:153-164 | the imperative construction (concatenation, append) yields exactly LimitedQuery's statement or error |
| Models.LimitIsParameterised | src/models.py:156-162 | every accepted statement carries one `?` per bound parameter, and the bound limit is within 1..10000 |
| Models.IsQualified | src/models.py:202 | qualified iff at most two natural persons and no legal entity |
| Models.RowToCompany | src/models.py:305-322 | the id, name, PDF path, person and entity counts and parsing confidence are copied, NULL text columns become "", flags become booleans, is_qualified is None exactly when NULL and is otherwise `value != 0` |
| Models.StoredCompanyRoundTrip | src/models.py:305-322 | converting the row of a stored company gives back the same company |
| NameRules.CollapseSpaces | src/pdf_parser.py:300 | every maximal whitespace run becomes exactly one space |
| NameRules.CollapseKeepsText | src/pdf_parser.py:300 | collapsing whitespace keeps all other characters in order |
| NameRules.CollapseFixpoint | src/pdf_parser.py:300 | single-spaced text is left unchanged |
| NameRules.CleanName | src/pdf_parser.py:297-305 | the cleaned name is no longer than the raw one and never ends in a comma |
| NameRules.CleanNameShape | src/pdf_parser.py:297-305 | a cleaned name has no leading whitespace, no whitespace except single spaces, and no trailing comma |
| NameRules.CleanNameFixpoint | src/pdf_parser.py:297-305 | a name already in cleaned shape without a trailing space is its own clean form |
| NameRules.CleanNameIdempotentIff | src/pdf_parser.py:297-305 | cleaning twice differs from cleaning once exactly when the first result ends in a space |
| NameRules.CleanNameNotIdempotent | src/pdf_parser.py:297-305 | "<word> ," cleans to "<word> ", which a second cleaning changes |
| NameRules.IsNaturalPerson | src/pdf_parser.py:249-267 | a natural person's name contains no legal-entity marker (compared upper-cased), has at most five words and no digit; a marker alone makes it a legal entity |
| NameRules.MarkerAnywhere | src/pdf_parser.py:253-255 | a legal-entity marker in any letter case anywhere, even inside a word, makes the name a legal entity |
| NameRules.DigitAnywhere | src/pdf_parser.py:263-265 | a digit anywhere makes the name a legal entity |
| NameRules.SebastianIsLegal | src/pdf_parser.py:253-255 | "Sebastian ..." contains "SE" and is classified as a legal entity |
| NameRules.ClassificationIgnoresCase | src/pdf_parser.py:249-267 | the classifier gives the same verdict for a name and its lower-cased form |
| NameRules.ClassificationIgnoresPadding | src/pdf_parser.py:249-267 | the classifier gives the same verdict for a name and its stripped form |
| NameRules.WordCountStrip | src/pdf_parser.py:259 | surrounding whitespace does not change the word count |
| NameRules.WordCountLower | src/pdf_parser.py:259 | lower-casing does not change the word count |
| NameRules.MarkersTrimmed | src/pdf_parser.py:69-75 | every upper-cased legal-entity marker is non-empty with non-whitespace ends |
| ShareParsing.ParseShare | src/pdf_parser.py:269-288 | empty input gives no share, and any share read is non-negative |
| ShareParsing.PercentGroupAt | src/pdf_parser.py:275 | a group found at i is a non-empty slice of the input starting at i |
| ShareParsing.EurGroupAt | src/pdf_parser.py:280 | a group found at i is a non-empty slice of the input starting at i |
| ShareParsing.FloatOf | src/pdf_parser.py:277 | `float` of a digit-and-point group: any value read is non-negative |
| ShareParsing.NoNumberNoShare | src/pdf_parser.py:269-288 | text without digits or dots gives no share |
| ShareParsing.NoPercentSign | src/pdf_parser.py:275 | text without '%' has no percentage |
| ShareParsing.PercentRoundTrip | src/pdf_parser.py:275-277 | "<n>,<cc><spaces>%" reads back as n + cc/100 with no scaling |
| ShareParsing.EurRoundTripWhole | src/pdf_parser.py:280-286 | "<n grouped by dots><spaces>EUR" (or €) reads back as n: dots are thousands separators |
| ShareParsing.EurRoundTripCents | src/pdf_parser.py:280-286 | "<n grouped by dots>,<cc><spaces>EUR" reads back as n + cc/100 |
| ShareParsing.DotsOnlyUnparsable | src/pdf_parser.py:283-286 | a run of dots before the unit matches, leaves "" and raises |
| ShareParsing.PercentExample50 | src/pdf_parser.py:275-277 | "50,00 %" gives 50 |
| ShareParsing.PercentExample33 | src/pdf_parser.py:275-277 | "33,33%" gives 33.33 |
| ShareParsing.AmountExample12500 | src/pdf_parser.py:280-286 | "12.500 EUR" gives 12500 |
| ShareParsing.AmountExample25000 | src/pdf_parser.py:280-286 | "25.000,00 EUR" gives 25000 |
| ShareParsing.NoNumberExample | src/pdf_parser.py:288 | text without a number gives no share |
| ShareParsing.BareDotExample | src/pdf_parser.py:283-286 | ". EUR" is a parse error |
| TableExtraction.Headers | src/pdf_parser.py:167 | one lower-cased header per header cell, "" for an absent cell |
| TableExtraction.FindColumnIndex | src/pdf_parser.py:290-295 | the smallest index whose non-empty header contains a term, None iff there is none |
| TableExtraction.NameColumn | src/pdf_parser.py:170-187 | when some header contains a name keyword, the smallest such index; otherwise the first header cell that is present, non-empty and contains none of "nr", "lfd", "nummer", and none iff there is no such cell |
| TableExtraction.ShareColumn | src/pdf_parser.py:175-177 | the chosen share column is a column of the header row |
| TableExtraction.TableRow | src/pdf_parser.py:190-212 | a short row or a raw name under 3 characters or with a non-person marker is skipped; otherwise the cleaned name with source "table" and the parsed share, or the share's error |
| TableExtraction.TableSpec | src/pdf_parser.py:163-187 | a table with fewer than 2 rows, or without a name column, yields [] |
| TableExtraction.CollectRowsLoop | src/pdf_parser.py:190-214 | the append loop yields exactly CollectRows' list or first error |
| TableExtraction.ParseTable | src/pdf_parser.py:160-214 | the imperative `_parse_table` equals TableSpec |
| TableExtraction.TableShape | src/pdf_parser.py:190-212 | at most one shareholder per data row, each with source "table", whose name is the cleaned form of a raw cell that passed both checks |
| TableExtraction.CollectRowsShape | src/pdf_parser.py:190-212 | at most one shareholder per row, each one kept by the loop body from some data row |
| TableExtraction.CollectFailsIff | src/pdf_parser.py:205-206 | the table fails exactly when some data row's share raises |
| TableExtraction.CollectRowsAppend | src/pdf_parser.py:190-212 | rows split in two yield the two results joined, so shareholders come in row order |
| TableExtraction.CommasKeptEmpty | src/pdf_parser.py:194-212 | a cell of three or more commas passes both checks and yields an empty name |
| PatternExtraction.MatchShareholder | src/pdf_parser.py:223-245 | a match is kept iff its cleaned name passes the length and non-person checks, and then becomes a default shareholder with that name, no share and source "regex:<pattern>" |
| PatternExtraction.ParseWithPatterns | src/pdf_parser.py:216-247 | the nested append loops yield exactly the patterns' contributions in dictionary order |
| PatternExtraction.PatternResultShape | src/pdf_parser.py:216-247 | every regex shareholder has a five-pattern tag, a cleaned name of at least 3 characters without a non-person marker, no share and the default classification |
| PatternExtraction.PatternOrder | src/pdf_parser.py:220-223 | results come pattern by pattern in dictionary order, each pattern's in match order |
| PatternExtraction.NoMatchesNoShareholders | src/pdf_parser.py:216-247 | when no pattern matches, as on empty text, the result is [] |
| PatternExtraction.StandardBirthSwapsNames | src/pdf_parser.py:224-226 | standard_birth yields "<first name> <surname>" from its surname-first groups |
| PatternExtraction.MatchShape | src/pdf_parser.py:223-245 | one match yields at most one shareholder, shaped like its pattern's |
| Dedup.DeduplicateBy | src/pdf_parser.py:307-318 | the loop with its `seen` set yields the first shareholder of every key, in order |
| Dedup.Deduplicate | src/pdf_parser.py:307-318 | `_deduplicate` with the key `name.lower().strip()` |
| Dedup.DedupKeepsKeys | src/pdf_parser.py:307-318 | every input key appears in the output |
| Dedup.DedupDistinct | src/pdf_parser.py:307-318 | output keys are pairwise distinct |
| Dedup.DedupIsSubsequence | src/pdf_parser.py:307-318 | the output is a subsequence of the input |
| Dedup.FirstOccurrenceKept | src/pdf_parser.py:312-316 | the first shareholder of every key is kept |
| Dedup.OnlyFirstOccurrencesKept | src/pdf_parser.py:312-316 | every kept shareholder is the first of its key |
| Dedup.DistinctUnchanged | src/pdf_parser.py:307-318 | a list with distinct keys is unchanged |
| Dedup.DedupIdempotent | src/pdf_parser.py:307-318 | de-duplicating twice equals de-duplicating once |
| Dedup.SameKeySameClass | src/pdf_parser.py:136-140 | shareholders with the same key are classified alike, so keeping the first loses no verdict |
| Confidence.SearchBirthDate | src/pdf_parser.py:349 | true iff some position holds a star, whitespace and DD.MM.YYYY |
| Confidence.BirthDateFound | src/pdf_parser.py:348-350 | the date factor fires iff the text has `*`, optional whitespace and a DD.MM.YYYY date somewhere, as the regular expression means it |
| Confidence.SourceWeight | src/pdf_parser.py:330-335 | 0.3 iff some source is "table"; else 0.15 iff some source contains "regex"; else 0 |
| Confidence.ShareWeight | src/pdf_parser.py:337-340 | 0.2 iff some share is present |
| Confidence.CountWeight | src/pdf_parser.py:342-346 | 0.2 for 1-10 entries, 0.1 for 11-20 (and for 0, which the early return keeps from counting), 0 above 20 |
| Confidence.DateWeight | src/pdf_parser.py:348-350 | 0.15 iff a birth date is found |
| Confidence.TitleWeight | src/pdf_parser.py:352-354 | 0.15 iff the lower-cased text contains "gesellschafterliste" |
| Confidence.CalculateConfidence | src/pdf_parser.py:320-356 | the accumulating method returns exactly the sum of the five factors clamped at 1.0, and 0 for an empty list |
| Confidence.ConfidenceRange | src/pdf_parser.py:320-356 | the confidence lies in [0, 1] and is 0 for an empty list |
| Confidence.ClampInert | src/pdf_parser.py:356 | the factors never sum above 1.0, so the clamp never changes a score in exact arithmetic |
| Confidence.ConfidenceLowerBounds | src/pdf_parser.py:330-346 | a table-sourced entry gives at least 0.3; 1-10 entries give at least 0.2 |
| Confidence.ConfidenceMonotone | src/pdf_parser.py:330-340 | with the same number of entries and the same text, a table source scores at least as high as a regex source, a regex source at least as high as none, and shares present at least as high as absent |
| Confidence.TableBeatsRegex | src/pdf_parser.py:330-335 | a table-sourced list scores exactly 0.15 more than a regex-only list of the same size and share evidence |
| Confidence.FullConfidence | src/pdf_parser.py:320-356 | all five factors present give exactly 1.0 |
| Parser.PageTexts | src/pdf_parser.py:109-111 | every page's text, "" for a page without one, or the extraction error |
| Parser.JoinLines | src/pdf_parser.py:109-111 | joining a single part gives that part |
| Parser.JoinLinesLength | src/pdf_parser.py:109-111 | joining n parts adds n - 1 newlines |
| Parser.CollectPageTables | src/pdf_parser.py:115-119 | the inner loop extends by each non-empty table's rows in order, or stops at the first error |
| Parser.CollectTables | src/pdf_parser.py:114-119 | the table pass pools every page's tables in order, or stops at the first error |
| Parser.ClassifyAll | src/pdf_parser.py:139-140 | the in-place loop leaves each element with the classifier's verdict on its name and nothing else changed |
| Parser.Classified | src/pdf_parser.py:139-140 | names, shares and sources are unchanged; every is_natural_person is the classifier's verdict |
| Parser.CountsAddUp | src/pdf_parser.py:142-143 | natural count + legal count == number of shareholders |
| Parser.NoLegalIff | src/pdf_parser.py:142-143 | the legal count is 0 iff every shareholder is a natural person |
| Parser.FinishParse | src/pdf_parser.py:135-158 | dedupe, classify, count and score, done step by step, equal the function Finish |
| Parser.Parse | src/pdf_parser.py:84-158 | the imperative `parse` equals ParseSpec with `_parse_table` as TableSpec |
| Parser.FinishShape | src/pdf_parser.py:135-158 | counts add up, every entry carries the classifier's verdict, keys are distinct, confidence lies in [0, 1] |
| Parser.ParseFinishes | src/pdf_parser.py:106-123 | with text and tables read, parse finishes the table results, or the pattern results when those are empty |
| Parser.ParseResultShape | src/pdf_parser.py:84-158 | any parse result, failures included, has counts that add up, classified entries, distinct keys, and a confidence in [0, 1] that is 0 for an empty list |
| Parser.FailureResults | src/pdf_parser.py:94-101 | a missing or unopenable file, or a page whose text extraction raises, gives the empty result; a table error after the text was read keeps the text |
| Parser.ShareErrorFailsParse | src/pdf_parser.py:116-133 | a table whose share raises makes the parse fail, keeping the text |
| Parser.RegexOnlyWithoutTables | src/pdf_parser.py:121-123 | patterns run only when the pooled table results are empty; the result then holds only regex entries, otherwise only table entries |
| Parser.FinishFromInput | src/pdf_parser.py:135-140 | every result entry is the classified form of an extracted one |
| Parser.FinishKeepsSources | src/pdf_parser.py:135-140 | source tags pass through de-duplication and classification unchanged |
| Parser.TablesFromAll | src/pdf_parser.py:114-119 | what holds of every table result holds of the pooled results |
| Parser.QualifiedParse | src/models.py:202 | a parse is qualified iff it names at most two shareholders, all natural persons |
| Lookup.FirstContained | src/pipeline.py:332-334 | None iff no key occurs in the text; otherwise the value of the first key in order that occurs |
| Lookup.FirstContainedIs | src/pipeline.py:332-334 | the first occurring key determines the result |
| Lookup.ListedKey | src/pipeline.py:332-334 | a text spelled as a key, with no earlier key occurring in it, finds that key's value |
| RegisterNumbers.TypeAt | src/pipeline.py:285 | a found type is one of HRB, HRA, GNR, VR, PR and is spelled at the position |
| RegisterNumbers.TypeAtUnique | src/pipeline.py:285 | whichever type is spelled at a position is the one found |
| RegisterNumbers.RegisterAt | src/pipeline.py:285 | an anchored match has a listed type, a non-empty all-digit number and an optional capital suffix; no type, no match |
| RegisterNumbers.SearchRegister | src/pipeline.py:285 | the match at the leftmost position where one exists, None iff none exists |
| RegisterNumbers.SpelledRoundTrip | src/pipeline.py:285 | matching "<type> <number>[ <suffix>]" reads back exactly those groups, whatever precedes it |
| RegisterNumbers.SpelledIsNormal | src/pipeline.py:222 | the canonical spelling is unchanged by strip and upper-casing |
| Downloader.ParseRegisterNum | src/dk_downloader.py:259-279 | a parse has a listed type, a non-empty digit number and an optional capital suffix |
| Downloader.ParseRegisterNumRoundTrip | src/dk_downloader.py:259-277 | "HRB 12345" and "HRB 12345 B" split back into their type, number and suffix |
| Downloader.ParseRegisterNumRejects | src/dk_downloader.py:274-279 | input whose first non-blank character cannot start a type ("12345", "INVALID", "") gives (None, None, None) |
| Downloader.SelectStatesIn | src/dk_downloader.py:437-465 | the selection has 1 or 2 states |
| Downloader.StateSelection | src/dk_downloader.py:437-465 | the state of the first listed city in the court; else the first state whose name it contains; else Bayern and Niedersachsen |
| Downloader.SachsenAnhaltShadowed | src/dk_downloader.py:448-455 | as written, a court naming Sachsen-Anhalt (and no listed city) never ticks Sachsen-Anhalt |
| Downloader.SachsenAnhaltRecognised | src/dk_downloader.py:448-455 | with Sachsen-Anhalt tried first, a court naming it never ticks Sachsen, and ticks Sachsen-Anhalt when nothing earlier matches |
| Downloader.SelectStates | src/dk_downloader.py:437-465 | the corrected selection also has 1 or 2 states |
| Downloader.WantedType | src/dk_downloader.py:536 | the upper-cased register type, "HRB" when none is given |
| Downloader.FirstRow | src/dk_downloader.py:539-604 | the first readable row that fits the pass, None iff there is none |
| Downloader.ScanRows | src/dk_downloader.py:539-604 | one pass's loop returns exactly FirstRow |
| Downloader.ChooseRow | src/dk_downloader.py:528-607 | the four passes return exactly ChoiceSpec |
| Downloader.ChoiceIsFirstFit | src/dk_downloader.py:528-607 | the choice is a readable row that fits its pass, with no earlier row fitting that pass and no row fitting an earlier pass; failure means no rows or no fit |
| Downloader.EmptyCourtSkipsCourtPasses | src/dk_downloader.py:535-589 | with no target court only the type pass or the fallback can choose |
| Downloader.PassesNest | src/dk_downloader.py:539-604 | a row fitting pass 1 also fits passes 2 and 4 |
| Downloader.IsWrongType | src/dk_downloader.py:547 | a row flagged as the wrong type holds an R right after a V, N or P, the pair every marker contains |
| Downloader.SpelledFlaggedIff | src/dk_downloader.py:547 | the canonical spelling of a well-formed register is flagged exactly when its type is VR, GNR or PR, never for HRB or HRA |
| Downloader.SpelledWrongTypeFlagged | src/dk_downloader.py:547 | a spelled-out VR, GNR or PR register anywhere in a row marks it as the wrong type |
| Pipeline.Sample | src/pipeline.py:177 | the sample is the first min(1024, length) characters |
| Pipeline.ChooseDelimiter | src/pipeline.py:180-181 | the requested delimiter if the sample holds it; else ',' iff the sample holds one; else a tab |
| Pipeline.IndexBy | src/pipeline.py:184 | the lookup's keys are exactly the normalised headers |
| Pipeline.FieldIndexFinds | src/pipeline.py:184 | every header is found under its lower-cased, stripped name, the last of equal names winning |
| Pipeline.GetField | src/pipeline.py:246-254 | None iff no candidate is a known column with a non-empty value; otherwise the stripped value of the first such candidate |
| Pipeline.BlankValueReadsEmpty | src/pipeline.py:251-253 | a whitespace-only value is found and reads as "" |
| Pipeline.CityToCourt | src/pipeline.py:304-336 | "" for an empty city; the court of the first key occurring in the lower-cased city; the city itself when none occurs |
| Pipeline.BerlinCourt | src/pipeline.py:313 | "Berlin" gives "Berlin (Charlottenburg)" |
| Pipeline.MuenchenCourt | src/pipeline.py:314 | "München" gives "München" |
| Pipeline.MunichCourt | src/pipeline.py:315 | "Munich" gives "München" |
| Pipeline.CologneCourt | src/pipeline.py:319 | "Cologne" gives "Köln" |
| Pipeline.SearchCourtRegister | src/pipeline.py:273-276 | the pattern-1 match at the leftmost position where one exists, None iff none exists |
| Pipeline.CourtRegisterAt | src/pipeline.py:273-276 | a pattern-1 match has a non-empty word as court and a well-formed register |
| Pipeline.BareNumber | src/pipeline.py:295 | a pattern-3 match is an HRB register with a non-empty digit number |
| Pipeline.ParseRegisterField | src/pipeline.py:267-268 | an empty field gives three empty strings |
| Pipeline.RegisterFieldShape | src/pipeline.py:256-302 | the result is ("", "", "") or a listed type with a well-formed number and suffix, with as court the word before the register or the city's court |
| Pipeline.NumberTextIs | src/pipeline.py:272-302 | the number column is the digits, then a space and the suffix if there is one, with no padding |
| Pipeline.OnlyNormalFormMatters | src/pipeline.py:270 | the field is read only through its stripped, upper-cased form |
| Pipeline.PlainRegisterRoundTrip | src/pipeline.py:284-292 | "HRB 12345" and "HRB 175642 B" read back as type and number with suffix, court from the city |
| Pipeline.CompactRegisterRoundTrip | src/pipeline.py:284-292 | "HRB12345" reads the same as "HRB 12345" |
| Pipeline.BareNumberRoundTrip | src/pipeline.py:294-302 | a bare number with an optional letter reads back as an HRB number, court from the city |
| Pipeline.CourtPrefixedRoundTrip | src/pipeline.py:272-282 | "AMTSGERICHT <word> <register>" gives the register with the word as court, whatever the city |
| Pipeline.CourtWordRoundTrip | src/pipeline.py:272-282 | "<word><whitespace and commas><register>" with an upper-case word other than AMTSGERICHT gives the register with the word as court, whatever the city |
| Pipeline.RegisterColumn | src/pipeline.py:222 | nothing is stored unless both type and number are present |
| Pipeline.StoredRegisterReadsBack | src/pipeline.py:222 | the stored register number parses in the scraper to the same type, number and suffix; an unreadable field stores "", which the scraper rejects |
| Pipeline.FieldText | src/pipeline.py:187-214 | a looked-up value is already stripped |
| Pipeline.ImportRow | src/pipeline.py:186-223 | a row is skipped iff it has no name; otherwise the name and city are the stripped first answering columns, the court column wins over the parsed court, the id is the first answering id column or else the name, the register columns come from the register field, and the PDF and parse columns are left empty |
| Pipeline.ImportedRegisterReadsBack | src/pipeline.py:210-222 | an imported company's register number parses in the scraper to its register type |
| Pipeline.CountsAsQualified | src/pipeline.py:452 | the import's test agrees with the data layer's qualification rule |
| Pipeline.QualifiedDocument | src/pipeline.py:452 | a parsed document counts as qualified iff it names at most two shareholders, all natural persons |

## Left out

- Reading the PDF (pdfplumber) and the file-existence check. The document
  is an input: missing, unopenable, or a sequence of pages, each with
  optional text, tables whose cells may be absent, and flags for an
  extraction that raises.
- The regular-expression engine behind the five name patterns. What each
  pattern finds in a text is an input (`findall`); the post-processing is
  modelled. The share, birth-date and register patterns are decided by
  matchers in the model.
- The CSV reader itself (decoding, quoting, `DictReader`). A row is a map
  from header to optional value, and the header list is an input.
- Browser automation in the scraper: driver set-up, form filling, checkbox
  and row clicking, waits, sleeps, random delays, downloads and zip
  handling. The row choice works on the rows' texts. A row whose element
  went stale is an absent text, and it stays absent in all four passes.
- The pipeline's orchestration (`run_downloads`, the I/O of `run_parsing`,
  export, statistics, Excel import, `main`, progress bars and logging). Only
  the qualification test at src/pipeline.py:452 is modelled.
- SQLite access, the rate limiter, retention and the manual debug scripts:
  database engine, wall-clock time, randomness and file-system behaviour.
- Full Unicode case mapping (for example "ß" upper-cased to "SS") and
  Unicode `\d` and `\w`. Case mapping covers ASCII and Ä/Ö/Ü; digits are
  ASCII; word characters are ASCII letters, digits, `_` and the German
  letters.
- Floating point. Shares are exact decimals; confidence is in exact
  hundredths, so the `min(score, 1.0)` clamp never changes a score
  (`Confidence.ClampInert`).
- The `name_share` pattern's share group: `_parse_with_patterns` never
  reads it.
- The duplicate "wuppertal" key in the city-to-state table. A Python dict
  keeps the first position and the last value, and both occurrences map to
  the same state, so one entry is kept.
- Downloader.SelectStatesIn: states the 1-or-2 bound as its contract; the
  full characterisation is the lemma Downloader.StateSelection.
- Pipeline.ParseRegisterField: its contract states only the empty-input
  case; what it returns is stated by Pipeline.RegisterFieldShape and the
  round-trip lemmas for a spelled register, a compact one, a bare number,
  "AMTSGERICHT <court> <register>" and "<court>, <register>".
- ShareParsing.ParseShare: its contract states only the empty input and the
  sign of a share; the two formats are stated by the round-trip, example and
  error lemmas in the same module.
- ShareParsing.FloatOf: its contract states only the sign; the values it
  reads are stated through ParseShare's round-trip lemmas.
- NameRules.CleanName: its contract states the length bound and the
  missing trailing comma; the rest of the output shape is
  NameRules.CleanNameShape.
- NameRules.IsNaturalPerson: its contract states the chain in the direction
  "natural implies no marker, at most five words, no digit"; the converse is
  the definition itself, and its consequences are the lemmas
  MarkerAnywhere, DigitAnywhere and the two invariance lemmas.
- Parser.JoinLines: its contract states only the single-part case; the
  length of a join is Parser.JoinLinesLength.

## Findings

| source | as written | input that shows it | evidently intended | confidence | as-written member | corrected member |
|---|---|---|---|---|---|---|
| src/dk_downloader.py:418-455 | state names are tried in the order of the checkbox table, where "Sachsen" precedes "Sachsen-Anhalt"; "sachsen" occurs in "sachsen-anhalt", so Sachsen is ticked | court "Sachsen-Anhalt" (no listed city in it) ticks Sachsen | a court naming Sachsen-Anhalt ticks Sachsen-Anhalt | not executed | Downloader.SachsenAnhaltShadowed | Downloader.SachsenAnhaltRecognised |
