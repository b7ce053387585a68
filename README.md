# Bank-statement table parsers, modelled in Dafny

The repository turns bank-statement PDFs into tables of transactions with the
columns Date, Description, Debit Amt, Credit Amt and Balance. A PDF library
extracts each page's tables as rows of optional text cells. A parser per bank
then decides which cells are which columns, drops rows that are not
transactions, and cleans the texts into dates and numbers. This project models
that table-to-record engine for three parsers:

- **`SbiParser`** (`custom_parsers/sbi_parser.py`) scans every table for a
  header row. Logical columns claim physical columns through a keyword table,
  in a fixed order. A row is a header when Date and at least three columns are
  claimed. The rows below the header become transactions. Rows without a date
  or without any other field are filtered out, as are total, page and
  carried-balance rows. Amounts keep only digits, `.` and `-`; a blank amount
  is 0.0. Records whose description mentions `page` are already dropped by
  the filter at line 109, so the `(Page N of M)` removal at line 152 never
  changes a kept record. Rows whose date does not parse are dropped, and so
  are rows that end up blank.
- **`IciciParser`** (`custom_parsers/icici_parser.py`) treats the first row
  of every table with two or more rows as its header. Each logical column
  takes the first header cell containing one of its keywords. When no column
  is recognised, the first five cells of each row are read in order. Every
  non-empty data row yields a record, whatever it holds. The cleaning pass
  trims strings, treats `""`, `none` and `nan` as missing, removes `,` and
  `...` from amounts, and turns zero debits and credits into missing values.
- **`SbiParserBackup`** (`custom_parsers/sbi_parser_backup.py`) reads the
  single table of each page by position. It skips header and short rows and
  raises on an empty row, on a row missing its date or description, and on a
  statement without rows.

`Statement` holds the shared vocabulary: cells, rows, tables, pages, the five
columns, calendar dates, `Option` and `Result`. `Text` models the Python
string operations the parsers rely on: `str.strip` over the `isspace` set,
`str.lower`, the `in` test, `str.replace`, and text-to-number conversion
with exact decimals.

Each row, table and page loop of the source is a method proved against a
specification function; the list comprehension at `sbi_parser.py:52` and the
column loop at `icici_parser.py:156` are modelled as functions.
For example, `SbiParser.LocateHeader` is proved against `FindHeader`,
`IciciParser.FindColIndices` against `FindIndices`, and
`SbiParserBackup.ReadTable` against `TableRows`. The lemmas then state what
those functions guarantee.

## Model

| member | source | states |
|---|---|---|
| `SbiParser.CleanRowAt` | custom_parsers/sbi_parser.py:52 | cell i of the cleaned row is the lower-cased, trimmed, newline-replaced text of cell i, and `""` for a missing cell |
| `SbiParser.CleanHeaderCellCanonical` | custom_parsers/sbi_parser.py:50-52 | a cleaned header cell is lower-case, has no white-space margins and no line break, so keyword matching is case-insensitive |
| `SbiParser.FirstFreeHitIsLeftmost` | custom_parsers/sbi_parser.py:60-67 | the cell a keyword claims is the leftmost unclaimed cell containing it; every cell before it lacks the keyword or is taken; no claim means every cell with the keyword is taken |
| `SbiParser.ClaimCellFacts` | custom_parsers/sbi_parser.py:58-70 | a column's claimed cell is in range, was free, and contains one of the column's keywords; when the column claims nothing, every cell containing any of its keywords was already claimed; keywords go by priority: the claim is the hit of the first keyword in list order that hits a free cell, and with no claim no keyword hits one |
| `SbiParser.ClaimColumn` | custom_parsers/sbi_parser.py:58-70 | one column's turn through the keyword and cell loops, which the test at line 69 ends once the column has a cell, gives the claim `ClaimFor` describes, and the count stays the number of claimed cells |
| `SbiParser.MatchHeader` | custom_parsers/sbi_parser.py:54-70 | the loops build the row's column map `HeaderMap`, and `found_keys_count` is its size |
| `SbiParser.AssignColumnsHit` | custom_parsers/sbi_parser.py:58-67 | every physical column in the map lies within the row and contains a keyword of the logical column it feeds |
| `SbiParser.AssignColumnsInjective` | custom_parsers/sbi_parser.py:63-70 | no logical column is fed by two physical columns |
| `SbiParser.AssignColumnsMaximal` | custom_parsers/sbi_parser.py:58-70 | a logical column left out of the map found every cell carrying its keywords already taken |
| `SbiParser.AssignColumnsMonotone` | custom_parsers/sbi_parser.py:64-65 | a claim, once made, is never replaced |
| `SbiParser.HeaderMapFacts` | custom_parsers/sbi_parser.py:24-70 | the column map of any row is injective, in range, keyword-backed, and maximal |
| `SbiParser.HeaderMapInjective` | custom_parsers/sbi_parser.py:63-70 | the column map of any row is injective |
| `SbiParser.HeaderRuleCollapses` | custom_parsers/sbi_parser.py:75-76 | a row is a header exactly when Date is mapped and at least three columns are; the Date-Description-Balance alternative adds nothing |
| `SbiParser.EmptyRowNeverQualifies` | custom_parsers/sbi_parser.py:52-76 | a row without cells is never a header |
| `SbiParser.NoCellsNoClaims` | custom_parsers/sbi_parser.py:58-70 | a row without cells claims no column |
| `SbiParser.FirstQualifyingIsFirst` | custom_parsers/sbi_parser.py:49-81 | the search stops at a qualifying row with no qualifying row before it, and finds nothing only when no row qualifies |
| `SbiParser.FindHeaderIsFirst` | custom_parsers/sbi_parser.py:49-81 | the header found is the first qualifying row and carries that row's column map; no header means no row qualifies |
| `SbiParser.ExamineRow` | custom_parsers/sbi_parser.py:52-76 | one row's cleaning and matching yield its column map and whether the row is a header; a header's map is never empty |
| `SbiParser.LocateHeader` | custom_parsers/sbi_parser.py:49-85 | the search raises exactly when its first row is empty and `c_idx` is unbound; otherwise the mapping and index it keeps are those of the first header row, and the mapping is empty when there is none |
| `SbiParser.BuildTransaction` | custom_parsers/sbi_parser.py:90-96 | the cell loop builds the transaction `RowTransaction` specifies |
| `SbiParser.TransactionCopiesCells` | custom_parsers/sbi_parser.py:93-96 | the transaction holds exactly the mapped columns whose index lies within the row, each with its cell unchanged |
| `SbiParser.CollectDataRows` | custom_parsers/sbi_parser.py:88-110 | the data-row loop appends exactly the kept transactions of the rows, in row order |
| `SbiParser.DataRecordsMembership` | custom_parsers/sbi_parser.py:90-110 | a transaction is collected from the data rows exactly when some row yields it and it passes the filters of lines 100-109 |
| `SbiParser.TableRecordsProvenance` | custom_parsers/sbi_parser.py:49-110 | every record of a table comes from a row strictly below its first header row, through that header's map, and passed the filters |
| `SbiParser.TablesRecordsConcat` | custom_parsers/sbi_parser.py:41-110 | the records of consecutive tables follow each other in table order |
| `SbiParser.CrashPersists` | custom_parsers/sbi_parser.py:112-114 | once the scan has raised, no later table changes the outcome |
| `SbiParser.ScanTable` | custom_parsers/sbi_parser.py:41-110 | one table raises exactly when it is the first non-empty table and starts with an empty row; otherwise its records are its kept rows below the header |
| `SbiParser.ScanRows` | custom_parsers/sbi_parser.py:45-110 | a non-empty table raises exactly when it starts with an empty row before `c_idx` is bound; otherwise it yields its kept rows below the first header, or nothing without a header |
| `SbiParser.ScanPage` | custom_parsers/sbi_parser.py:39-110 | the scan has raised after this page exactly when the first non-empty table so far starts with an empty row; otherwise the page's records are those of its tables, in order |
| `SbiParser.CollectRecords` | custom_parsers/sbi_parser.py:34-114 | the page loop raises exactly when the first non-empty table starts with an empty row; otherwise it gathers the records of every table of every page, in order |
| `SbiParser.AmountCharsKeepsAmountChars` | custom_parsers/sbi_parser.py:135 | what survives is only digits, points and minus signs, and text made of those alone is left whole |
| `SbiParser.AmountCharsAppend` | custom_parsers/sbi_parser.py:135 | the filter works character by character: the pieces of a text are filtered separately and the survivors keep their order |
| `SbiParser.DigitlessAmountIsZero` | custom_parsers/sbi_parser.py:133-138 | an amount without a digit (blank, missing, `-`, words) becomes 0.0, never missing |
| `SbiParser.CleanAmountOfInteger` | custom_parsers/sbi_parser.py:133-138 | an integer written in decimal cleans to its value |
| `SbiParser.CleanAmountIgnoresOtherChars` | custom_parsers/sbi_parser.py:135-138 | a character other than a digit, `.` or `-` (comma, currency sign, space) is deleted wherever it stands and never changes the amount |
| `SbiParser.GroupedAmount` | custom_parsers/sbi_parser.py:135-138 | an integer with a thousands comma anywhere in it cleans to that integer |
| `SbiParser.CleanAmountIdempotent` | custom_parsers/sbi_parser.py:135-138 | cleaning the already-filtered text gives the same amount |
| `SbiParser.NoMarkerWithoutPage` | custom_parsers/sbi_parser.py:152 | the page-number pattern cannot match where `page` does not occur in any case |
| `SbiParser.RemoveFromWithoutPage` | custom_parsers/sbi_parser.py:152 | text that does not mention `page` passes the substitution unchanged |
| `SbiParser.RemoveFromUnmarked` | custom_parsers/sbi_parser.py:152 | where no match starts, the substitution copies the text unchanged up to the next possible match |
| `SbiParser.PageMarkerRecognised` | custom_parsers/sbi_parser.py:152 | a space followed by an artifact such as `(Page 2 of 10)` is one whole match of the pattern |
| `SbiParser.TrailingMarkerRemoved` | custom_parsers/sbi_parser.py:150-154 | a description ending in a page artifact is cleaned to the text before it |
| `SbiParser.KeptDescriptionsHaveNoPageMarkers` | custom_parsers/sbi_parser.py:108-152 | for a transaction that passed the filter of line 109, the artifact removal of line 152 changes nothing |
| `SbiParser.CleanTable` | custom_parsers/sbi_parser.py:119-163 | the cleaning pass yields the cleaned rows of the records, in record order |
| `SbiParser.FinalizeConcat` | custom_parsers/sbi_parser.py:119-163 | cleaning keeps record order and treats each record on its own |
| `SbiParser.FinalizeMembership` | custom_parsers/sbi_parser.py:140-163 | an output row is exactly the cleaned form of some record with a parsable date, and no output row is blank |
| `SbiParser.ParseStatement` | custom_parsers/sbi_parser.py:6-163 | the whole parse is the intended output, or empty when the header scan raises |
| `SbiParser.IntendedParseConcat` | custom_parsers/sbi_parser.py:35-110 | the rows of consecutive pages follow each other in page order |
| `SbiParser.HeaderAfterEmptyRow` | custom_parsers/sbi_parser.py:49-81 | with an empty row put in front, the header search finds the same row one position further down |
| `SbiParser.LeadingEmptyRowIgnored` | custom_parsers/sbi_parser.py:49-110 | an empty first row leaves a table's records unchanged |
| `SbiParser.EmptyFirstRowEmptiesStatement` | custom_parsers/sbi_parser.py:60-69 | as written, a statement whose first table starts with an empty row comes out empty, whatever its other tables and pages hold |
| `SbiParser.EmptyFirstRowIntended` | custom_parsers/sbi_parser.py:49-110 | as intended, the same statement yields the rows of the table without the empty row |
| `IciciParser.NormalizeHeader` | custom_parsers/icici_parser.py:6-13 | the loop produces the normalised header |
| `IciciParser.NormalizedHeaderAt` | custom_parsers/icici_parser.py:8-13 | the normalised header has one cell per header cell, each normalised on its own (`""` for a missing cell) |
| `IciciParser.NormalizedCellIsCanonical` | custom_parsers/icici_parser.py:10-11 | a normalised cell is already trimmed and lower-case |
| `IciciParser.FindColIndices` | custom_parsers/icici_parser.py:15-33 | the loop gives each column the index that `FindIndices` specifies |
| `IciciParser.FirstMatchIsFirst` | custom_parsers/icici_parser.py:19-31 | a column's index is the smallest non-empty header cell that matches it, and it has none exactly when no non-empty cell matches |
| `IciciParser.OneCellFeedsTwoColumns` | custom_parsers/icici_parser.py:26-29 | the map need not be injective: a `debit/credit` heading feeds both Debit and Credit |
| `IciciParser.MappedRecordCells` | custom_parsers/icici_parser.py:74-80 | a mapped field is the raw cell at its column's index when that index lies in the row, missing otherwise; columns sharing an index share the cell |
| `IciciParser.PadOrCapShape` | custom_parsers/icici_parser.py:86-93 | every padded row has five to seven cells, so the test at line 93 always holds; its first five cells are the row's or `""` |
| `IciciParser.FallbackTakesFirstFive` | custom_parsers/icici_parser.py:86-100 | the fallback reads the five columns from cells 0-4, `""` past the end of a short row |
| `IciciParser.FallbackIgnoresTail` | custom_parsers/icici_parser.py:89-100 | cells after the fifth never reach a fallback record |
| `IciciParser.DigitsAreNumericLike` | custom_parsers/icici_parser.py:108-111 | a plain run of digits is numeric-like exactly when it is not empty |
| `IciciParser.PositionsFacts` | custom_parsers/icici_parser.py:106-112 | the collected positions are exactly those of the cells that pass the test, strictly increasing |
| `IciciParser.CollectNumeric` | custom_parsers/icici_parser.py:106-112 | the loop collects the positions of the numeric-like cells, left to right |
| `IciciParser.HeuristicBalanceIsRightmost` | custom_parsers/icici_parser.py:113-149 | the Balance is the rightmost numeric cell; with no numeric cell, Debit, Credit and Balance are missing |
| `IciciParser.HeuristicDebitIsLeftmost` | custom_parsers/icici_parser.py:127-130 | with three or more numeric cells, Debit is the leftmost of them and Credit the next numeric cell to its right |
| `IciciParser.HeuristicSingleAmount` | custom_parsers/icici_parser.py:119-126 | with two numeric cells, the left one is Debit when its text starts with `-` and Credit otherwise, and the other field is missing |
| `IciciParser.IntendedFallbackOnShortRows` | custom_parsers/icici_parser.py:92-102 | rows of at most five cells are read the same way as written and as intended |
| `IciciParser.IntendedFallbackBalance` | custom_parsers/icici_parser.py:104-139 | as intended, a six- or seven-cell row takes its Balance from its rightmost numeric-like cell |
| `IciciParser.SixCellRowLosesBalance` | custom_parsers/icici_parser.py:93-102 | as written, a six-cell row with the balance in its last cell gets the blank fifth cell as Balance, which cleans to missing; as intended it gets the balance |
| `IciciParser.SixCellRowIntended` | custom_parsers/icici_parser.py:104-139 | the heuristic finds that row's balance in its sixth cell |
| `IciciParser.ReadTable` | custom_parsers/icici_parser.py:59-102 | a table's loop yields `TableRecords`: nothing for fewer than two rows, else one record per non-empty data row |
| `IciciParser.CollectRecords` | custom_parsers/icici_parser.py:55-102 | the page and table loops gather the records of every table, in order |
| `IciciParser.TableRecordCount` | custom_parsers/icici_parser.py:58-102 | a table yields exactly one record per non-empty data row; nothing is filtered on content |
| `IciciParser.RowsRecordCount` | custom_parsers/icici_parser.py:68-102 | the data rows yield as many records as there are non-empty rows |
| `IciciParser.RowsRecordsConcat` | custom_parsers/icici_parser.py:68-102 | the records of consecutive data rows follow each other in row order |
| `IciciParser.StatementRecordsConcat` | custom_parsers/icici_parser.py:56-58 | the records of consecutive pages follow each other in page order |
| `IciciParser.CleanStringFacts` | custom_parsers/icici_parser.py:35-38 | a value is missing exactly when its trimmed text is `""`, `none` or `nan`, and is otherwise kept as its trimmed text; cleaning a kept value again changes nothing |
| `IciciParser.MissingCellReadsNone` | custom_parsers/icici_parser.py:36-37 | a missing cell reads as the text `None`, which the case-sensitive test keeps |
| `IciciParser.CommaIgnored` | custom_parsers/icici_parser.py:40-50 | an extra comma anywhere leaves both the cleaned text and the number unchanged |
| `IciciParser.EllipsisDeleted` | custom_parsers/icici_parser.py:42-44 | after the commas are deleted, removing every `...` gives the same text with or without an ellipsis that follows a digit |
| `IciciParser.EllipsisIgnored` | custom_parsers/icici_parser.py:40-50 | an ellipsis after a digit leaves both the cleaned text and the number unchanged |
| `IciciParser.CleanNumericOfInteger` | custom_parsers/icici_parser.py:40-50 | an integer written in decimal cleans to that integer |
| `IciciParser.DigitlessIsMissing` | custom_parsers/icici_parser.py:40-50 | an amount without a digit cleans to missing, never to zero |
| `IciciParser.ZeroAsMissing` | custom_parsers/icici_parser.py:161-162 | a zero amount becomes missing, and every other value is kept |
| `IciciParser.CleanFrameRows` | custom_parsers/icici_parser.py:151-162 | the frame has one row per record, each cleaned on its own, and no Debit or Credit is zero |
| `IciciParser.ZeroBalanceKept` | custom_parsers/icici_parser.py:156-162 | any Balance that cleans to 0.0 stays 0.0, while a Debit or Credit that cleans to 0.0 becomes missing |
| `IciciParser.ZeroTextIsZero` | custom_parsers/icici_parser.py:40-50 | the text `0` cleans to 0.0 |
| `IciciParser.Parse` | custom_parsers/icici_parser.py:52-162 | the parse is the cleaned frame of all records in page, table and row order |
| `SbiParserBackup.SkipRule` | custom_parsers/sbi_parser_backup.py:15-20 | a row is skipped exactly when it has cells and starts with `Date` or has fewer than five; an empty row raises; a row of five or more cells not starting with `Date` raises exactly when its Date or Description cell is missing |
| `SbiParserBackup.KeptRowFields` | custom_parsers/sbi_parser_backup.py:15-24 | a kept row has at least five cells, does not start with `Date`, and has Date and Description cells; cell 0 becomes the trimmed date, cell 1 the trimmed description, and cells 2-4 the debit, credit and balance, each `""` when missing or empty and trimmed otherwise |
| `SbiParserBackup.KeptRowIsPositional` | custom_parsers/sbi_parser_backup.py:18-24 | a kept row is read from cells 0-4 by position; later cells play no part |
| `SbiParserBackup.KeptRowIsTrimmed` | custom_parsers/sbi_parser_backup.py:19-23 | every text of a kept row is trimmed |
| `SbiParserBackup.TableRowsConcat` | custom_parsers/sbi_parser_backup.py:13-24 | joining two tables joins their rows, and the first failure wins |
| `SbiParserBackup.StatementRowsConcat` | custom_parsers/sbi_parser_backup.py:8-24 | joining two runs of pages joins their rows, and the first failure wins |
| `SbiParserBackup.TableFailureStops` | custom_parsers/sbi_parser_backup.py:13-24 | a failure in a table's first rows is the failure of the whole table |
| `SbiParserBackup.StatementFailureStops` | custom_parsers/sbi_parser_backup.py:8-24 | a failure on the first pages is the failure of the whole statement |
| `SbiParserBackup.ReadTable` | custom_parsers/sbi_parser_backup.py:13-24 | the row loop yields the table's kept rows, or the exception the first bad row raises |
| `SbiParserBackup.CollectRows` | custom_parsers/sbi_parser_backup.py:7-24 | the page loop yields all kept rows in page order, or the first exception |
| `SbiParserBackup.Parse` | custom_parsers/sbi_parser_backup.py:4-34 | the parse is the converted frame, or the exception raised; no rows at all raises |
| `SbiParserBackup.RowsNeverDropped` | custom_parsers/sbi_parser_backup.py:26-29 | the frame has one row per kept row, in order; an unparsable date is missing rather than dropped |
| `SbiParserBackup.AmountIgnoresCommas` | custom_parsers/sbi_parser_backup.py:30-32 | commas never change an amount |
| `SbiParserBackup.AmountOfInteger` | custom_parsers/sbi_parser_backup.py:30-32 | an integer written in decimal converts to that integer |
| `SbiParserBackup.DigitlessAmountIsMissing` | custom_parsers/sbi_parser_backup.py:30-32 | an amount without a digit, a blank one included, is missing, not zero |
| `Text.StripFacts` | custom_parsers/icici_parser.py:11 | `strip` keeps a slice of the text that neither starts nor ends with white space, and drops only white space |
| `Text.StripIdempotent` | custom_parsers/icici_parser.py:36 | stripping twice is stripping once |
| `Text.LowerIdempotent` | custom_parsers/sbi_parser.py:52 | lower-casing twice is lower-casing once |
| `Text.LowerOfStripped` | custom_parsers/icici_parser.py:11 | lower-casing stripped text keeps it stripped |
| `Text.ReplaceAllDeletesChar` | custom_parsers/icici_parser.py:43 | deleting every occurrence of a character leaves none of it |
| `Text.ParseNumberRoundTrip` | custom_parsers/sbi_parser_backup.py:30 | converting the decimal rendering of an integer gives that integer back |
| `Text.NoDigitNoNumber` | custom_parsers/sbi_parser_backup.py:30 | text without a digit is not a number |

## Left out

- Opening the PDF and extracting tables (`pdfplumber`) is not modelled. The input is the extractor's output: pages of tables of rows of optional text cells. For the backup parser it is one optional table per page; how `extract_table` picks that table is not modelled.
- Date parsing (`pd.to_datetime` with `dayfirst=True`) is a parameter, `DateParser`, from one text to an optional calendar date. Dropping the time of day (`dt.normalize`) is built into the calendar date.
- `SbiParser.FinalizeMembership`: whether a row's date parses is decided by that row's text alone. `pd.to_datetime` on a whole column (custom_parsers/sbi_parser.py:143, custom_parsers/sbi_parser_backup.py:29) infers one format from the first non-missing date and applies it to every row. With `errors="coerce"`, a row written in another format (DD-MM-YYYY among DD/MM/YYYY) becomes missing. That row is then dropped at sbi_parser.py:145. This dependency between rows is not modelled.
- Floating point is not modelled. Amounts are exact decimals (`real`). Text-to-number conversion accepts an optional sign and a decimal with at least one digit. The exponent, `inf` and `nan` forms `pd.to_numeric` also accepts are not modelled.
- `str.lower` and the digit tests (`\d`, `str.isdigit`) are modelled on ASCII only. Unicode letters and digits outside ASCII are not modelled.
- `print` in the SBI error handler (line 113) is left out, as are exceptions the PDF library itself raises.
- An empty SBI result is the empty sequence of rows. Whether the frame still carries its five column names (lines 114 and 117) is not modelled.
- The SBI `dropna(how='all')` and `reset_index` steps (lines 161-163) change no row content. Every row reaching them has a date, so they are not separate steps.
- The ICICI alignment with `data/icici/expected.csv` (lines 164-174) is not modelled. It reads a file and changes column dtypes. The model ends with the cleaned frame of line 162.
- `IciciParser.CollectNumeric`: collects the positions of the numeric-like cells, not the (position, value) pairs of line 112. The values are read back from the row at those positions.
- `IciciParser.Parse` and `IciciParser.ReadTable` follow the code as written, so the numeric heuristic never runs there. The heuristic and the corrected fallback that uses it are modelled beside them (see Findings).
- `SbiParser.ParseStatement` follows the code as written, including the crash handled at lines 112-114. `IntendedParse` is the corrected whole parse beside it.

## Findings

| source | as written | input that shows it | evidently intended | confidence | as-written member | corrected member |
|---|---|---|---|---|---|---|
| custom_parsers/sbi_parser.py:69 | line 69 reads `c_idx`, the variable of the cell loop at line 60. That variable is unbound until some row has at least one cell, so an empty first row raises, and the handler at 112-114 returns an empty table for the whole statement | a statement whose first non-empty table starts with a row of no cells, followed by a header row and transactions | the empty row is one more non-header row, and the table's transactions are kept | not executed | `SbiParser.EmptyFirstRowEmptiesStatement` | `SbiParser.EmptyFirstRowIntended` |
| custom_parsers/icici_parser.py:93 | after lines 86-90 every row has five to seven cells, so `len(r) >= 5` always holds. The numeric heuristic of lines 104-149 is unreachable, and six- or seven-cell rows are read by position | a table without a recognised header whose data row is `01/08/2024, UPI payment, "", 250, "", 9750`: Balance becomes the blank fifth cell, which cleans to missing | the comment at line 92: exactly five cells are read directly, and six or seven go through the heuristic, which takes 9750 as the Balance | not executed | `IciciParser.SixCellRowLosesBalance` | `IciciParser.IntendedFallbackBalance` |
