/** The older SBI parser (custom_parsers/sbi_parser_backup.py). It takes the
    single table extracted from each page and reads cells by position, with no
    header detection. Only a row starting with the `Date` heading, or a row
    too short to hold five cells, is skipped. */
module SbiParserBackup {
  import opened Statement
  import opened Text

  // ---------------------------------------------------------------------------
  // One row (sbi_parser_backup.py:13-24)
  // ---------------------------------------------------------------------------

  /** A kept row as appended to `rows`: five texts, not yet converted. */
  datatype RawRow = RawRow(date: string, description: string, debit: string, credit: string, balance: string)

  /** The exceptions `parse` can raise; it catches none of them. */
  datatype Failure =
    | EmptyRow     // `row[0]` of a row without cells (line 15): IndexError
    | MissingText  // `.strip()` of a missing Date or Description cell (lines 19-20): AttributeError
    | NoRows       // `df["Date"]` of a frame without columns (line 29): KeyError

  /** Lines 21-23: a missing or empty amount cell reads `""`, any other is
      trimmed. */
  function AmountText(c: Cell): string {
    if c.None? || c.value == "" then "" else Strip(c.value)
  }

  /** What the loop body does with one row: the test at line 15 reads
      `row[0]` before it looks at the length. */
  function ReadRow(row: Row): Result<Option<RawRow>, Failure> {
    if row == [] then Err(EmptyRow)
    else if row[0] == Some("Date") || |row| < 5 then Ok(None)
    else if row[0].None? || row[1].None? then Err(MissingText)
    else Ok(Some(RawRow(Strip(row[0].value), Strip(row[1].value),
                        AmountText(row[2]), AmountText(row[3]), AmountText(row[4]))))
  }

  /** A row is skipped exactly when it has cells and either starts with the
      heading `Date` (exact text, case-sensitive) or has fewer than five
      cells; an empty row raises instead. */
  lemma SkipRule(row: Row)
    ensures ReadRow(row) == Ok(None) <==> row != [] && (row[0] == Some("Date") || |row| < 5)
    ensures ReadRow(row) == Err(EmptyRow) <==> row == []
    ensures ReadRow(row) == Err(MissingText) <==>
      row != [] && row[0] != Some("Date") && |row| >= 5 && (row[0].None? || row[1].None?)
  {
  }

  /** A kept row reads cell 0 as the date and cell 1 as the description,
      both trimmed, and cells 2-4 as debit, credit and balance, each `""`
      when missing or empty and trimmed otherwise. */
  lemma KeptRowFields(row: Row)
    requires ReadRow(row).Ok? && ReadRow(row).value.Some?
    ensures |row| >= 5 && row[0] != Some("Date") && row[0].Some? && row[1].Some?
    ensures var r := ReadRow(row).value.value;
      && r.date == Strip(row[0].value) && r.description == Strip(row[1].value)
      && r.debit == AmountText(row[2]) && r.credit == AmountText(row[3]) && r.balance == AmountText(row[4])
  {
  }

  /** A kept row takes cells 0-4 by position, trimmed; cells after the fifth
      play no part. */
  lemma KeptRowIsPositional(row: Row, tail: Row)
    requires |row| >= 5
    ensures ReadRow(row + tail) == ReadRow(row)
  {
    assert (row + tail)[..5] == row[..5];
  }

  /** Every text of a kept row is trimmed. */
  lemma KeptRowIsTrimmed(row: Row)
    requires ReadRow(row).Ok? && ReadRow(row).value.Some?
    ensures var r := ReadRow(row).value.value;
      && Strip(r.date) == r.date && Strip(r.description) == r.description
      && Strip(r.debit) == r.debit && Strip(r.credit) == r.credit && Strip(r.balance) == r.balance
  {
    StripIdempotent(row[0].value);
    StripIdempotent(row[1].value);
    forall k | 2 <= k < 5 ensures Strip(AmountText(row[k])) == AmountText(row[k]) {
      if row[k].None? || row[k].value == "" {
        StripUnpadded("");
      } else {
        StripIdempotent(row[k].value);
      }
    }
  }

  // ---------------------------------------------------------------------------
  // Tables and pages (sbi_parser_backup.py:7-24)
  // ---------------------------------------------------------------------------

  /** The rows a table contributes, in order, or the first failure. */
  function TableRows(table: Table): Result<seq<RawRow>, Failure> {
    if table == [] then Ok([])
    else
      match TableRows(table[..|table| - 1])
      case Err(e) => Err(e)
      case Ok(rows) =>
        match ReadRow(table[|table| - 1])
        case Err(e) => Err(e)
        case Ok(None) => Ok(rows)
        case Ok(Some(r)) => Ok(rows + [r])
  }

  /** The table of one page: nothing when there is none (lines 9-11). */
  function PageRows(table: Option<Table>): Result<seq<RawRow>, Failure> {
    match table
    case None => Ok([])
    case Some(t) => TableRows(t)
  }

  /** The rows of all pages, in page order, or the first failure. */
  function StatementRows(pages: seq<Option<Table>>): Result<seq<RawRow>, Failure> {
    if pages == [] then Ok([])
    else
      match StatementRows(pages[..|pages| - 1])
      case Err(e) => Err(e)
      case Ok(rows) =>
        match PageRows(pages[|pages| - 1])
        case Err(e) => Err(e)
        case Ok(more) => Ok(rows + more)
  }

  /** Joining two tables joins their rows, and the first failure wins. */
  lemma {:induction false} TableRowsConcat(a: Table, b: Table)
    ensures TableRows(a + b) ==
      match TableRows(a)
      case Err(e) => Err(e)
      case Ok(ra) =>
        match TableRows(b)
        case Err(e) => Err(e)
        case Ok(rb) => Ok(ra + rb)
    decreases |b|
  {
    if b == [] {
      assert a + b == a;
      if TableRows(a).Ok? {
        AppendEmpty(TableRows(a).value, []);
      }
    } else {
      InitOfAppend(a, b);
      TableRowsConcat(a, b[..|b| - 1]);
      if TableRows(a).Ok? && TableRows(b[..|b| - 1]).Ok? {
        var ra, rb := TableRows(a).value, TableRows(b[..|b| - 1]).value;
        if ReadRow(b[|b| - 1]).Ok? && ReadRow(b[|b| - 1]).value.Some? {
          AppendAssociative(ra, rb, [ReadRow(b[|b| - 1]).value.value]);
        }
      }
    }
  }

  /** Joining two page runs joins their rows, and the first failure wins. */
  lemma {:induction false} StatementRowsConcat(a: seq<Option<Table>>, b: seq<Option<Table>>)
    ensures StatementRows(a + b) ==
      match StatementRows(a)
      case Err(e) => Err(e)
      case Ok(ra) =>
        match StatementRows(b)
        case Err(e) => Err(e)
        case Ok(rb) => Ok(ra + rb)
    decreases |b|
  {
    if b == [] {
      assert a + b == a;
      if StatementRows(a).Ok? {
        AppendEmpty(StatementRows(a).value, []);
      }
    } else {
      InitOfAppend(a, b);
      StatementRowsConcat(a, b[..|b| - 1]);
      if StatementRows(a).Ok? && StatementRows(b[..|b| - 1]).Ok? && PageRows(b[|b| - 1]).Ok? {
        AppendAssociative(StatementRows(a).value, StatementRows(b[..|b| - 1]).value, PageRows(b[|b| - 1]).value);
      }
    }
  }

  /** A failure in the first `p` rows is the failure of the whole table. */
  lemma {:induction false} TableFailureStops(table: Table, p: nat)
    requires p <= |table| && TableRows(table[..p]).Err?
    ensures TableRows(table) == TableRows(table[..p])
    decreases |table|
  {
    if p == |table| {
      assert table[..p] == table;
    } else {
      TakeOfTake(table, p, |table| - 1);
      TableFailureStops(table[..|table| - 1], p);
    }
  }

  /** A failure on the first `p` pages is the failure of the whole statement. */
  lemma {:induction false} StatementFailureStops(pages: seq<Option<Table>>, p: nat)
    requires p <= |pages| && StatementRows(pages[..p]).Err?
    ensures StatementRows(pages) == StatementRows(pages[..p])
    decreases |pages|
  {
    if p == |pages| {
      assert pages[..p] == pages;
    } else {
      TakeOfTake(pages, p, |pages| - 1);
      StatementFailureStops(pages[..|pages| - 1], p);
    }
  }

  /** The row loop of lines 13-24 over one table. */
  method ReadTable(table: Table) returns (result: Result<seq<RawRow>, Failure>)
    ensures result == TableRows(table)
  {
    var rows: seq<RawRow> := [];
    for k := 0 to |table|
      invariant TableRows(table[..k]) == Ok(rows)
    {
      var row := table[k];
      assert table[..k + 1][..k] == table[..k];
      if row == [] {
        TableFailureStops(table, k + 1);
        return Err(EmptyRow);
      }
      if row[0] == Some("Date") || |row| < 5 {
        continue;
      }
      if row[0].None? || row[1].None? {
        TableFailureStops(table, k + 1);
        return Err(MissingText);
      }
      var debit := if row[2].Some? && row[2].value != "" then Strip(row[2].value) else "";
      var credit := if row[3].Some? && row[3].value != "" then Strip(row[3].value) else "";
      var balance := if row[4].Some? && row[4].value != "" then Strip(row[4].value) else "";
      rows := rows + [RawRow(Strip(row[0].value), Strip(row[1].value), debit, credit, balance)];
    }
    assert table[..|table|] == table;
    result := Ok(rows);
  }

  /** The page loop of lines 8-24. */
  method CollectRows(pages: seq<Option<Table>>) returns (result: Result<seq<RawRow>, Failure>)
    ensures result == StatementRows(pages)
  {
    var rows: seq<RawRow> := [];
    for p := 0 to |pages|
      invariant StatementRows(pages[..p]) == Ok(rows)
    {
      var table := pages[p];
      assert pages[..p + 1][..p] == pages[..p];
      if table.None? || table.value == [] {
        AppendEmpty(rows, []);
        continue;
      }
      var tableRows := ReadTable(table.value);
      if tableRows.Err? {
        StatementFailureStops(pages, p + 1);
        return tableRows;
      }
      rows := rows + tableRows.value;
    }
    assert pages[..|pages|] == pages;
    result := Ok(rows);
  }

  // ---------------------------------------------------------------------------
  // Type conversion (sbi_parser_backup.py:26-32)
  // ---------------------------------------------------------------------------

  /** One row of the returned frame. The Date is missing when its text does not
      parse; the amounts are missing when theirs do not. */
  datatype BackupRow = BackupRow(date: Option<CalendarDate>, description: string,
                                 debit: Option<real>, credit: Option<real>, balance: Option<real>)

  /** Lines 30-32 for one amount: every comma removed, then converted, and
      missing when it is not a number. */
  function Amount(text: string): Option<real> {
    ParseNumber(ReplaceAll(text, ",", ""))
  }

  function ConvertRow(r: RawRow, parseDate: DateParser): BackupRow {
    BackupRow(parseDate(r.date), r.description, Amount(r.debit), Amount(r.credit), Amount(r.balance))
  }

  /** The frame `parse` returns, or the exception it raises: a statement
      without a single kept row has no `Date` column to convert. */
  function BackupStatement(pages: seq<Option<Table>>, parseDate: DateParser): Result<seq<BackupRow>, Failure> {
    match StatementRows(pages)
    case Err(e) => Err(e)
    case Ok(rows) =>
      if rows == [] then Err(NoRows)
      else Ok(Map((r: RawRow) => ConvertRow(r, parseDate), rows))
  }

  /** `parse`, the PDF access aside. */
  method Parse(pages: seq<Option<Table>>, parseDate: DateParser) returns (df: Result<seq<BackupRow>, Failure>)
    ensures df == BackupStatement(pages, parseDate)
  {
    var rows := CollectRows(pages);
    if rows.Err? {
      return Err(rows.error);
    }
    if rows.value == [] {
      return Err(NoRows);
    }
    df := Ok(Map((r: RawRow) => ConvertRow(r, parseDate), rows.value));
  }

  /** No kept row is ever dropped, whether or not its Date parses: the frame
      has one row per kept row, in order, and an unparsable Date is missing. */
  lemma RowsNeverDropped(pages: seq<Option<Table>>, parseDate: DateParser)
    requires StatementRows(pages).Ok? && StatementRows(pages).value != []
    ensures var rows := StatementRows(pages).value;
      && BackupStatement(pages, parseDate).Ok?
      && |BackupStatement(pages, parseDate).value| == |rows|
      && forall i :: 0 <= i < |rows| ==>
           && BackupStatement(pages, parseDate).value[i].date == parseDate(rows[i].date)
           && BackupStatement(pages, parseDate).value[i].description == rows[i].description
  {
    MapAt((r: RawRow) => ConvertRow(r, parseDate), StatementRows(pages).value);
  }

  /** Commas never matter in an amount. */
  lemma AmountIgnoresCommas(a: string, b: string)
    ensures Amount(a + "," + b) == Amount(a + b)
  {
    DeleteCharAppend(a + [','], b, ',');
    DeleteCharAppend(a, [','], ',');
    DeleteCharAppend(a, b, ',');
    assert ReplaceAll([','], [','], "") == "";
    assert ReplaceAll(a + [','] + b, [','], "") == ReplaceAll(a, [','], "") + ReplaceAll(b, [','], "");
    assert a + "," + b == a + [','] + b;
  }

  /** An integer written out in decimal converts to that integer. */
  lemma AmountOfInteger(n: int)
    ensures Amount(FormatInteger(n)) == Some(n as real)
  {
    var s := FormatInteger(n);
    var m: nat := if n < 0 then -n else n;
    assert s == (if n < 0 then "-" + NatDigits(m) else NatDigits(m));
    assert forall i :: 0 <= i < |s| ==> s[i] == '-' || IsDigit(s[i]);
    ReplaceAllAbsent(s, ",", "");
    ParseNumberRoundTrip(n);
  }

  /** An amount without a digit (a blank cell included) is missing, not zero. */
  lemma DigitlessAmountIsMissing(text: string)
    requires forall i :: 0 <= i < |text| ==> !IsDigit(text[i])
    ensures Amount(text) == None
  {
    var s := ReplaceAll(text, ",", "");
    DigitlessAfterDeletion(text);
    NoDigitNoNumber(s);
  }

  lemma {:induction false} DigitlessAfterDeletion(text: string)
    requires forall i :: 0 <= i < |text| ==> !IsDigit(text[i])
    ensures forall i :: 0 <= i < |ReplaceAll(text, ",", "")| ==> !IsDigit(ReplaceAll(text, ",", "")[i])
    decreases |text|
  {
    if |text| >= 1 {
      DigitlessAfterDeletion(text[1..]);
    }
  }
}
