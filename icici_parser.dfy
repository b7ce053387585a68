/** The ICICI statement parser (custom_parsers/icici_parser.py). The first row
    of every table of two or more rows is its header. Keyword matching on that
    row decides which physical column feeds each logical column. When no
    heading is recognised at all, the first five cells of each row are taken
    in order. The collected cells are then cleaned column by column. */
module IciciParser {
  import opened Statement
  import opened Text

  // ---------------------------------------------------------------------------
  // Header normalisation (icici_parser.py:6-13)
  // ---------------------------------------------------------------------------

  /** One header cell as matching sees it: `""` for a missing cell, otherwise
      the text trimmed and then lower-cased. */
  function NormalizeCell(h: Cell): string {
    match h
    case None => ""
    case Some(s) => Lower(Strip(s))
  }

  /** The header row with every cell normalised. */
  function NormalizedHeader(header: seq<Cell>): seq<string> {
    if header == [] then []
    else NormalizedHeader(header[..|header| - 1]) + [NormalizeCell(header[|header| - 1])]
  }

  /** `_normalize_header`: one normalised cell per header cell, in order. */
  method NormalizeHeader(header: seq<Cell>) returns (norm: seq<string>)
    ensures norm == NormalizedHeader(header)
  {
    norm := [];
    for i := 0 to |header|
      invariant norm == NormalizedHeader(header[..i])
    {
      var s := if header[i].None? then "" else header[i].value;
      s := Lower(Strip(s));
      assert header[..i + 1][..i] == header[..i];
      norm := norm + [s];
    }
    assert header[..|header|] == header;
  }

  /** The normalised header has the header's length and normalises each cell
      on its own. */
  lemma {:induction false} NormalizedHeaderAt(header: seq<Cell>)
    ensures |NormalizedHeader(header)| == |header|
    ensures forall i :: 0 <= i < |header| ==> NormalizedHeader(header)[i] == NormalizeCell(header[i])
    decreases |header|
  {
    if header != [] {
      NormalizedHeaderAt(header[..|header| - 1]);
    }
  }

  /** A normalised cell is already trimmed and lower-case: normalising is
      idempotent. */
  lemma NormalizedCellIsCanonical(h: Cell)
    ensures var r := NormalizeCell(h); Strip(r) == r && Lower(r) == r
  {
    match h
    case None =>
      StripUnpadded("");
    case Some(s) =>
      LowerOfStripped(s);
      LowerIdempotent(Strip(s));
  }

  // ---------------------------------------------------------------------------
  // Column indices from the header (icici_parser.py:15-33)
  // ---------------------------------------------------------------------------

  /** The header keyword test of lines 22-31 for one logical column. */
  predicate Matches(h: string, c: Column) {
    match c
    case Date => Contains(h, "date")
    case Description => Contains(h, "description") || Contains(h, "narration")
    case Debit => Contains(h, "debit") || Contains(h, "withdrawal")
    case Credit => Contains(h, "credit") || Contains(h, "deposit")
    case Balance => Contains(h, "balance") || Contains(h, "closing balance")
  }

  /** The physical column found for each logical column, if any. */
  datatype ColumnIndices = ColumnIndices(date: Option<nat>, description: Option<nat>, debit: Option<nat>,
                                         credit: Option<nat>, balance: Option<nat>)
  {
    function Get(c: Column): Option<nat> {
      match c
      case Date => date
      case Description => description
      case Debit => debit
      case Credit => credit
      case Balance => balance
    }

    /** Line 67: not a single column was recognised. */
    predicate NoneFound() {
      date.None? && description.None? && debit.None? && credit.None? && balance.None?
    }
  }

  /** The index column `c` holds once the cells of `header` have been looked
      at in order: the first non-empty cell that matches keeps it. */
  function FirstMatch(header: seq<string>, c: Column): Option<nat> {
    if header == [] then None
    else
      match FirstMatch(header[..|header| - 1], c)
      case Some(i) => Some(i)
      case None =>
        var last := |header| - 1;
        if header[last] != "" && Matches(header[last], c) then Some(last) else None
  }

  function FindIndices(header: seq<string>): ColumnIndices {
    ColumnIndices(FirstMatch(header, Date), FirstMatch(header, Description), FirstMatch(header, Debit),
                  FirstMatch(header, Credit), FirstMatch(header, Balance))
  }

  /** One turn of the loop of lines 19-31 for the non-empty cell `h` at index
      `i`: every column still without an index and matched by `h` takes `i`. */
  function Visit(idx: ColumnIndices, h: string, i: nat): ColumnIndices {
    ColumnIndices(
      if Matches(h, Date) && idx.date.None? then Some(i) else idx.date,
      if Matches(h, Description) && idx.description.None? then Some(i) else idx.description,
      if Matches(h, Debit) && idx.debit.None? then Some(i) else idx.debit,
      if Matches(h, Credit) && idx.credit.None? then Some(i) else idx.credit,
      if Matches(h, Balance) && idx.balance.None? then Some(i) else idx.balance)
  }

  lemma FindIndicesStep(header: seq<string>, i: nat)
    requires i < |header|
    ensures FindIndices(header[..i + 1])
         == if header[i] == "" then FindIndices(header[..i]) else Visit(FindIndices(header[..i]), header[i], i)
  {
    assert header[..i + 1][..i] == header[..i];
  }

  /** `_find_col_indices`: every column keeps the first index that matches it. */
  method FindColIndices(headerNorm: seq<string>) returns (idx: ColumnIndices)
    ensures idx == FindIndices(headerNorm)
  {
    idx := ColumnIndices(None, None, None, None, None);
    for i := 0 to |headerNorm|
      invariant idx == FindIndices(headerNorm[..i])
    {
      var h := headerNorm[i];
      FindIndicesStep(headerNorm, i);
      if h == "" {
        continue;
      }
      if Contains(h, "date") && idx.date.None? {
        idx := idx.(date := Some(i));
      }
      if (Contains(h, "description") || Contains(h, "narration")) && idx.description.None? {
        idx := idx.(description := Some(i));
      }
      if (Contains(h, "debit") || Contains(h, "withdrawal")) && idx.debit.None? {
        idx := idx.(debit := Some(i));
      }
      if (Contains(h, "credit") || Contains(h, "deposit")) && idx.credit.None? {
        idx := idx.(credit := Some(i));
      }
      if (Contains(h, "balance") || Contains(h, "closing balance")) && idx.balance.None? {
        idx := idx.(balance := Some(i));
      }
    }
    assert headerNorm[..|headerNorm|] == headerNorm;
  }

  /** The index of a column is the smallest index of a non-empty header cell
      that matches it, and there is none exactly when no non-empty cell
      matches. */
  lemma {:induction false} FirstMatchIsFirst(header: seq<string>, c: Column)
    ensures var r := FirstMatch(header, c);
      && (r.Some? ==> r.value < |header| && header[r.value] != "" && Matches(header[r.value], c))
      && (r.Some? ==> forall j :: 0 <= j < r.value ==> header[j] == "" || !Matches(header[j], c))
      && (r.None? ==> forall j :: 0 <= j < |header| ==> header[j] == "" || !Matches(header[j], c))
    decreases |header|
  {
    if header != [] {
      var init := header[..|header| - 1];
      FirstMatchIsFirst(init, c);
      assert forall j :: 0 <= j < |init| ==> init[j] == header[j];
    }
  }

  /** The column map need not be injective: a single `debit/credit` heading
      feeds both Debit and Credit. */
  lemma OneCellFeedsTwoColumns()
    ensures var idx := FindIndices(["debit/credit"]);
      idx.debit == Some(0) && idx.credit == Some(0)
  {
    var h := "debit/credit";
    assert h[0..5] == "debit";
    assert h[6..12] == "credit";
    OccurrenceIsContained(h, "debit", 0);
    OccurrenceIsContained(h, "credit", 6);
    var header := [h];
    assert header[..0] == [];
  }

  // ---------------------------------------------------------------------------
  // One record per data row (icici_parser.py:68-102)
  // ---------------------------------------------------------------------------

  /** A record as appended to `records`: the five raw cells, uncleaned. */
  datatype RawRecord = RawRecord(date: Cell, description: Cell, debit: Cell, credit: Cell, balance: Cell)
  {
    function Get(c: Column): Cell {
      match c
      case Date => date
      case Description => description
      case Debit => debit
      case Credit => credit
      case Balance => balance
    }
  }

  /** `row[i]` when a column was found and the row reaches it, else missing. */
  function CellAt(row: Row, i: Option<nat>): Cell {
    if i.Some? && i.value < |row| then row[i.value] else None
  }

  /** The record of lines 74-80, when the header named at least one column. */
  function MappedRecord(row: Row, idx: ColumnIndices): RawRecord {
    RawRecord(CellAt(row, idx.date), CellAt(row, idx.description), CellAt(row, idx.debit),
              CellAt(row, idx.credit), CellAt(row, idx.balance))
  }

  /** A mapped field is the raw cell at its column's index, present only when
      the column was found inside the row; columns sharing an index share
      the cell. */
  lemma MappedRecordCells(row: Row, idx: ColumnIndices, c: Column, d: Column)
    ensures var rec := MappedRecord(row, idx);
      && (idx.Get(c).Some? && idx.Get(c).value < |row| ==> rec.Get(c) == row[idx.Get(c).value])
      && (idx.Get(c).None? || idx.Get(c).value >= |row| ==> rec.Get(c) == None)
      && (idx.Get(c) == idx.Get(d) ==> rec.Get(c) == rec.Get(d))
  {
  }

  /** `[""] * n`. */
  function Blanks(n: nat): (r: Row)
    ensures |r| == n
  {
    if n == 0 then [] else Blanks(n - 1) + [Some("")]
  }

  lemma {:induction false} BlanksAreEmptyText(n: nat)
    ensures forall k :: 0 <= k < n ==> Blanks(n)[k] == Some("")
  {
    if n > 0 {
      BlanksAreEmptyText(n - 1);
    }
  }

  /** Lines 86-90: a row shorter than five cells is padded with `""`, one
      longer than seven is cut to seven. */
  function PadOrCap(row: Row): Row {
    if |row| < 5 then row + Blanks(5 - |row|)
    else if |row| > 7 then row[..7]
    else row
  }

  /** The padded row always has five to seven cells, so the test at line 93
      always holds and lines 104-149 are never reached; its first five cells
      are the row's own, or `""` where the row is too short. */
  lemma PadOrCapShape(row: Row)
    ensures 5 <= |PadOrCap(row)| <= 7
    ensures forall k :: 0 <= k < 5 ==> PadOrCap(row)[k] == if k < |row| then row[k] else Some("")
  {
    if |row| < 5 {
      BlanksAreEmptyText(5 - |row|);
    }
  }

  /** Where the positional fallback takes each column from. */
  function Position(c: Column): nat {
    match c
    case Date => 0
    case Description => 1
    case Debit => 2
    case Credit => 3
    case Balance => 4
  }

  /** The record of lines 94-100, when the header named no column. */
  function FallbackRecord(row: Row): RawRecord {
    PadOrCapShape(row);
    var r := PadOrCap(row);
    RawRecord(r[0], r[1], r[2], r[3], r[4])
  }

  /** The fallback takes cell `Position(c)` for column `c`, `""` past the end
      of a short row. */
  lemma FallbackTakesFirstFive(row: Row, c: Column)
    ensures FallbackRecord(row).Get(c) == if Position(c) < |row| then row[Position(c)] else Some("")
  {
    PadOrCapShape(row);
  }

  /** Cells after the fifth never reach a fallback record. */
  lemma FallbackIgnoresTail(row: Row, tail: Row)
    requires |row| >= 5
    ensures FallbackRecord(row + tail) == FallbackRecord(row)
  {
    PadOrCapShape(row);
    PadOrCapShape(row + tail);
  }

  /** The record a non-empty data row yields. */
  function RowRecord(row: Row, idx: ColumnIndices): RawRecord {
    if idx.NoneFound() then FallbackRecord(row) else MappedRecord(row, idx)
  }

  // ---------------------------------------------------------------------------
  // The numeric heuristic of lines 104-149
  // ---------------------------------------------------------------------------

  // The padding above leaves every fallback row five to seven cells long, so
  // the parser never runs this code; it is modelled on its own.

  /** Line 111: trimmed, without commas, and with the first `.` and then the
      first `-` deleted, the text is a non-empty run of digits. */
  predicate NumericLike(val: Cell) {
    var valStr := if val.None? then "" else Strip(val.value);
    var valClean := ReplaceAll(valStr, ",", "");
    var rest := DeleteFirst(DeleteFirst(valClean, '.'), '-');
    rest != "" && AllDigits(rest)
  }

  /** The positions of the cells of `r` that satisfy `keep`, left to right. */
  function Positions(r: Row, keep: Cell -> bool): (ps: seq<nat>)
    ensures forall k :: 0 <= k < |ps| ==> ps[k] < |r|
  {
    if r == [] then []
    else Positions(r[..|r| - 1], keep) + (if keep(r[|r| - 1]) then [|r| - 1] else [])
  }

  /** The positions are exactly those of the cells that satisfy `keep`, in
      increasing order. */
  lemma {:induction false} PositionsFacts(r: Row, keep: Cell -> bool)
    ensures forall k {:trigger Positions(r, keep)[k]} :: 0 <= k < |Positions(r, keep)| ==> keep(r[Positions(r, keep)[k]])
    ensures forall i {:trigger r[i]} :: 0 <= i < |r| && keep(r[i]) ==> i in Positions(r, keep)
    ensures forall a, b :: 0 <= a < b < |Positions(r, keep)| ==> Positions(r, keep)[a] < Positions(r, keep)[b]
    decreases |r|
  {
    if r != [] {
      var init := r[..|r| - 1];
      PositionsFacts(init, keep);
      var ps, ps0 := Positions(r, keep), Positions(init, keep);
      forall k | 0 <= k < |ps| ensures keep(r[ps[k]]) {
        if k < |ps0| {
          assert ps[k] == ps0[k] && init[ps0[k]] == r[ps[k]];
        }
      }
      forall i | 0 <= i < |r| && keep(r[i]) ensures i in ps {
        if i < |init| {
          assert init[i] == r[i];
        }
      }
    }
  }

  /** The positions of the numeric-like cells, left to right. */
  function NumericPositions(r: Row): seq<nat> {
    Positions(r, NumericLike)
  }

  /** The loop of lines 106-112 (the cell values travel with their positions
      there; here the positions alone are kept). */
  method CollectNumeric(r: Row) returns (nums: seq<nat>)
    ensures nums == NumericPositions(r)
  {
    nums := [];
    for i := 0 to |r|
      invariant nums == Positions(r[..i], NumericLike)
    {
      assert r[..i + 1][..i] == r[..i];
      if NumericLike(r[i]) {
        nums := nums + [i];
      }
    }
    assert r[..|r|] == r;
  }

  /** A plain run of digits is numeric-like; a blank cell is not. */
  lemma DigitsAreNumericLike(s: string)
    requires AllDigits(s)
    ensures NumericLike(Some(s)) <==> s != ""
  {
    StripUnpadded(s);
    ReplaceAllAbsent(s, ",", "");
  }

  /** Lines 113-149, with `numeric` as the numeric-like test: the rightmost
      numeric cell is the Balance; of the others, a single one is Debit when
      its text starts with `-` and Credit otherwise, and with two or more the
      leftmost is Debit and the next is Credit. Date and Description are the
      first two cells. */
  function SplitAmounts(r: Row, numeric: Cell -> bool): RawRecord {
    var nums := Positions(r, numeric);
    var date := if |r| > 0 then r[0] else None;
    var description := if |r| > 1 then r[1] else None;
    if nums == [] then RawRecord(date, description, None, None, None)
    else
      var balance := r[nums[|nums| - 1]];
      var remaining := nums[..|nums| - 1];
      if |remaining| == 1 then
        var v := r[remaining[0]];
        if StartsWith(Strip(CellString(v)), "-") then RawRecord(date, description, v, None, balance)
        else RawRecord(date, description, None, v, balance)
      else if |remaining| >= 2 then RawRecord(date, description, r[remaining[0]], r[remaining[1]], balance)
      else RawRecord(date, description, None, None, balance)
  }

  /** The record lines 104-149 would build from a row. */
  function HeuristicRecord(r: Row): RawRecord {
    SplitAmounts(r, NumericLike)
  }

  /** The Balance is the rightmost numeric cell, and when no cell is numeric
      Debit, Credit and Balance are all missing. */
  lemma HeuristicBalanceIsRightmost(r: Row, numeric: Cell -> bool)
    ensures var rec := SplitAmounts(r, numeric);
      && ((forall i :: 0 <= i < |r| ==> !numeric(r[i])) ==> rec.debit == rec.credit == rec.balance == None)
      && ((exists i :: 0 <= i < |r| && numeric(r[i])) ==>
            exists p :: 0 <= p < |r| && numeric(r[p]) && rec.balance == r[p] &&
              forall q :: p < q < |r| ==> !numeric(r[q]))
  {
    var ps := Positions(r, numeric);
    PositionsFacts(r, numeric);
    if ps != [] {
      var p := ps[|ps| - 1];
      assert numeric(r[p]);
    }
  }

  /** With three or more numeric cells, Debit is the leftmost of them and
      Credit the next one. */
  lemma HeuristicDebitIsLeftmost(r: Row, numeric: Cell -> bool)
    requires |Positions(r, numeric)| >= 3
    ensures exists i, j :: 0 <= i < j < |r| && numeric(r[i]) && numeric(r[j]) &&
              SplitAmounts(r, numeric).debit == r[i] && SplitAmounts(r, numeric).credit == r[j] &&
              (forall k :: 0 <= k < i ==> !numeric(r[k])) && (forall k :: i < k < j ==> !numeric(r[k]))
  {
    var ps := Positions(r, numeric);
    PositionsFacts(r, numeric);
    var i, j := ps[0], ps[1];
    assert numeric(r[i]) && numeric(r[j]);
    forall k | 0 <= k < j && numeric(r[k]) ensures k == i {
      assert k in ps;
      var n :| 0 <= n < |ps| && ps[n] == k;
      assert n < 2;
    }
  }

  /** With exactly two numeric cells, the left one goes to Debit when its
      text starts with `-`, and to Credit otherwise. */
  lemma HeuristicSingleAmount(r: Row, numeric: Cell -> bool)
    requires |Positions(r, numeric)| == 2
    ensures var v, rec := r[Positions(r, numeric)[0]], SplitAmounts(r, numeric);
      && (StartsWith(Strip(CellString(v)), "-") ==> rec.debit == v && rec.credit == None)
      && (!StartsWith(Strip(CellString(v)), "-") ==> rec.debit == None && rec.credit == v)
  {
  }

  // ---------------------------------------------------------------------------
  // The fallback as its comments describe it
  // ---------------------------------------------------------------------------

  /** The fallback as evidently intended: a padded row of exactly five cells
      is taken in order, and a row of six or seven cells goes through the
      numeric heuristic. */
  function IntendedFallbackRecord(row: Row): RawRecord {
    var r := PadOrCap(row);
    if |r| == 5 then FallbackRecord(row) else HeuristicRecord(r)
  }

  /** Rows of at most five cells are read the same way as intended and as
      written. */
  lemma IntendedFallbackOnShortRows(row: Row)
    requires |row| <= 5
    ensures IntendedFallbackRecord(row) == FallbackRecord(row)
  {
    PadOrCapShape(row);
  }

  /** As intended, a six- or seven-cell row with a numeric-like cell takes its
      Balance from the rightmost such cell. */
  lemma IntendedFallbackBalance(row: Row)
    requires 5 < |row| <= 7 && exists i :: 0 <= i < |row| && NumericLike(row[i])
    ensures exists p :: 0 <= p < |row| && NumericLike(row[p]) && IntendedFallbackRecord(row).balance == row[p] &&
              forall q :: p < q < |row| ==> !NumericLike(row[q])
  {
    HeuristicBalanceIsRightmost(row, NumericLike);
  }

  /** A fallback row of six cells: date, description, a blank debit, a
      credit, a blank fifth cell, and the balance last. */
  function SixCellRow(): Row {
    [Some("01/08/2024"), Some("UPI payment"), Some(""), Some("250"), Some(""), Some("9750")]
  }

  /** As written, that row loses its balance: the fifth cell, blank, becomes
      the Balance and cleans to missing, while the sixth is numeric-like. */
  lemma SixCellRowLosesBalance()
    ensures NumericLike(SixCellRow()[5])
    ensures FallbackRecord(SixCellRow()).balance == Some("")
    ensures CleanNumeric(FallbackRecord(SixCellRow()).balance) == None
    ensures IntendedFallbackRecord(SixCellRow()).balance == Some("9750")
  {
    DigitsAreNumericLike("9750");
    SixCellRowIntended();
  }

  /** As intended, the heuristic finds the balance in the sixth cell. */
  lemma SixCellRowIntended()
    ensures IntendedFallbackRecord(SixCellRow()).balance == Some("9750")
  {
    var row := SixCellRow();
    DigitsAreNumericLike("9750");
    DigitsAreNumericLike("");
    HeuristicBalanceIsRightmost(row, NumericLike);
  }

  // ---------------------------------------------------------------------------
  // Tables, pages, statement (icici_parser.py:53-102)
  // ---------------------------------------------------------------------------

  /** The records of a table's data rows under the header's indices; empty
      rows are skipped (line 69). */
  function RowsRecords(rows: seq<Row>, idx: ColumnIndices): seq<RawRecord> {
    if rows == [] then []
    else
      var last := rows[|rows| - 1];
      RowsRecords(rows[..|rows| - 1], idx) + (if last == [] then [] else [RowRecord(last, idx)])
  }

  /** A table of fewer than two rows yields nothing (line 59); otherwise row 0
      is the header and every later row is data. */
  function TableRecords(table: Table): seq<RawRecord> {
    if |table| < 2 then []
    else RowsRecords(table[1..], FindIndices(NormalizedHeader(table[0])))
  }

  function PageRecords(tables: Page): seq<RawRecord> {
    if tables == [] then []
    else PageRecords(tables[..|tables| - 1]) + TableRecords(tables[|tables| - 1])
  }

  function StatementRecords(pages: seq<Page>): seq<RawRecord> {
    if pages == [] then []
    else StatementRecords(pages[..|pages| - 1]) + PageRecords(pages[|pages| - 1])
  }

  /** The body of the table loop (lines 59-102). */
  method ReadTable(table: Table) returns (records: seq<RawRecord>)
    ensures records == TableRecords(table)
  {
    records := [];
    if table == [] || |table| < 2 {
      return;
    }
    var header := table[0];
    var headerNorm := NormalizeHeader(header);
    var colIdx := FindColIndices(headerNorm);
    var fallback5Col := colIdx.NoneFound();
    var rows := table[1..];
    for k := 0 to |rows|
      invariant records == RowsRecords(rows[..k], colIdx)
    {
      var row := rows[k];
      assert rows[..k + 1][..k] == rows[..k];
      if row == [] {
        continue;
      }
      if !fallback5Col {
        records := records + [MappedRecord(row, colIdx)];
        continue;
      }
      var r := row;
      if |r| < 5 {
        r := r + Blanks(5 - |r|);
      } else if |r| > 7 {
        r := r[..7];
      }
      if |r| >= 5 {
        records := records + [RawRecord(r[0], r[1], r[2], r[3], r[4])];
      } else {
        assert false;
      }
    }
    assert rows[..|rows|] == rows;
  }

  /** The page and table loops (lines 56-58) collecting `records`. */
  method CollectRecords(pages: seq<Page>) returns (records: seq<RawRecord>)
    ensures records == StatementRecords(pages)
  {
    records := [];
    for p := 0 to |pages|
      invariant records == StatementRecords(pages[..p])
    {
      var tables := pages[p];
      assert pages[..p + 1][..p] == pages[..p];
      var before := records;
      for t := 0 to |tables|
        invariant records == before + PageRecords(tables[..t])
      {
        var tableRecords := ReadTable(tables[t]);
        assert tables[..t + 1][..t] == tables[..t];
        AppendAssociative(before, PageRecords(tables[..t]), tableRecords);
        records := records + tableRecords;
      }
      assert tables[..|tables|] == tables;
    }
    assert pages[..|pages|] == pages;
  }

  /** Number of non-empty rows. */
  function NonEmptyRows(rows: seq<Row>): nat {
    if rows == [] then 0
    else NonEmptyRows(rows[..|rows| - 1]) + (if rows[|rows| - 1] == [] then 0 else 1)
  }

  /** Every non-empty data row yields exactly one record, whatever it holds:
      nothing is filtered on content. */
  lemma {:induction false} TableRecordCount(table: Table)
    ensures |TableRecords(table)| == if |table| < 2 then 0 else NonEmptyRows(table[1..])
  {
    if |table| >= 2 {
      RowsRecordCount(table[1..], FindIndices(NormalizedHeader(table[0])));
    }
  }

  lemma {:induction false} RowsRecordCount(rows: seq<Row>, idx: ColumnIndices)
    ensures |RowsRecords(rows, idx)| == NonEmptyRows(rows)
    decreases |rows|
  {
    if rows != [] {
      RowsRecordCount(rows[..|rows| - 1], idx);
    }
  }

  /** Records of consecutive data rows follow each other in row order. */
  lemma {:induction false} RowsRecordsConcat(a: seq<Row>, b: seq<Row>, idx: ColumnIndices)
    ensures RowsRecords(a + b, idx) == RowsRecords(a, idx) + RowsRecords(b, idx)
    decreases |b|
  {
    if b == [] {
      assert a + b == a;
    } else {
      InitOfAppend(a, b);
      RowsRecordsConcat(a, b[..|b| - 1], idx);
      AppendAssociative(RowsRecords(a, idx), RowsRecords(b[..|b| - 1], idx),
        if b[|b| - 1] == [] then [] else [RowRecord(b[|b| - 1], idx)]);
    }
  }

  /** Records of consecutive pages follow each other in page order. */
  lemma {:induction false} StatementRecordsConcat(a: seq<Page>, b: seq<Page>)
    ensures StatementRecords(a + b) == StatementRecords(a) + StatementRecords(b)
    decreases |b|
  {
    if b == [] {
      assert a + b == a;
    } else {
      InitOfAppend(a, b);
      StatementRecordsConcat(a, b[..|b| - 1]);
      AppendAssociative(StatementRecords(a), StatementRecords(b[..|b| - 1]), PageRecords(b[|b| - 1]));
    }
  }

  // ---------------------------------------------------------------------------
  // Cleaning (icici_parser.py:35-50, 151-162)
  // ---------------------------------------------------------------------------

  /** `str(value)` of a collected cell: a missing cell prints as `None`. */
  function CellString(v: Cell): string {
    match v
    case None => "None"
    case Some(s) => s
  }

  /** `_clean_string_series` on one value: trimmed, and missing when it is
      exactly `""`, `"none"` or `"nan"`. */
  function CleanString(v: Cell): Option<string> {
    var s := Strip(CellString(v));
    if s == "" || s == "none" || s == "nan" then None else Some(s)
  }

  /** A value is missing exactly when its trimmed text is `""`, `"none"` or
      `"nan"`; any other value is kept as its trimmed text. A kept value is
      trimmed, is none of the three markers, and cleaning it again changes
      nothing. */
  lemma CleanStringFacts(v: Cell)
    ensures var t := Strip(CellString(v));
      CleanString(v).None? <==> (t == "" || t == "none" || t == "nan")
    ensures CleanString(v).Some? ==> CleanString(v).value == Strip(CellString(v))
    ensures var r := CleanString(v);
      && (r.Some? ==> Strip(r.value) == r.value && r.value != "" && r.value != "none" && r.value != "nan")
      && (r.Some? ==> CleanString(Some(r.value)) == r)
  {
    StripIdempotent(CellString(v));
  }

  /** The comparison is case-sensitive, so a missing cell, whose text is
      `None`, survives as that text. */
  lemma MissingCellReadsNone()
    ensures CleanString(None) == Some("None")
    ensures CleanString(Some("None")) == Some("None")
  {
    StripUnpadded("None");
  }

  /** Lines 42-46: every `,` and every `...` removed, then trimmed. */
  function NumericText(v: Cell): string {
    Strip(ReplaceAll(ReplaceAll(CellString(v), ",", ""), "...", ""))
  }

  /** `_clean_numeric_series` on one value: a lone `-` and an empty text are
      missing, and so is any text that is not a number. */
  function CleanNumeric(v: Cell): Option<real> {
    var s := NumericText(v);
    var s' := if s == "-" then "" else s;
    if s' == "" then None else ParseNumber(s')
  }

  /** Lines 161-162 for one amount: a zero becomes missing. */
  function ZeroAsMissing(x: Option<real>): (r: Option<real>)
    ensures r != Some(0.0)
    ensures x != Some(0.0) ==> r == x
  {
    if x == Some(0.0) then None else x
  }

  /** Commas never matter: one more comma anywhere in the text leaves the
      cleaned value alone. */
  lemma CommaIgnored(a: string, b: string)
    ensures NumericText(Some(a + "," + b)) == NumericText(Some(a + b))
    ensures CleanNumeric(Some(a + "," + b)) == CleanNumeric(Some(a + b))
  {
    DeleteCharAppend(a + [','], b, ',');
    DeleteCharAppend(a, [','], ',');
    DeleteCharAppend(a, b, ',');
    var x, y := ReplaceAll(a, [','], ""), ReplaceAll(b, [','], "");
    assert ReplaceAll([','], [','], "") == "";
    assert ReplaceAll(a + [','] + b, [','], "") == x + y;
    assert a + "," + b == a + [','] + b;
  }

  /** Deleting commas keeps the last character of a text that does not end
      in a comma. */
  lemma CommaFreeLast(a: string)
    requires a != [] && a[|a| - 1] != ','
    ensures var c := ReplaceAll(a, ",", ""); c != [] && c[|c| - 1] == a[|a| - 1]
  {
    var n := |a|;
    assert a == a[..n - 1] + [a[n - 1]];
    DeleteCharAppend(a[..n - 1], [a[n - 1]], ',');
    ReplaceAllAbsent([a[n - 1]], ",", "");
  }

  /** Deleting commas around a comma-free middle piece leaves that piece
      in place. */
  lemma CommasAround(a: string, m: string, b: string)
    requires ',' !in m
    ensures ReplaceAll(a + m + b, ",", "") == ReplaceAll(a, ",", "") + m + ReplaceAll(b, ",", "")
  {
    DeleteCharAppend(a + m, b, ',');
    DeleteCharAppend(a, m, ',');
    ReplaceAllAbsent(m, ",", "");
  }

  /** Lines 43-44 on an ellipsis after a digit: deleting the commas and then
      every `...` gives the same text with or without that ellipsis. */
  lemma EllipsisDeleted(a: string, b: string)
    requires a != "" && IsDigit(a[|a| - 1])
    ensures ReplaceAll(ReplaceAll(a + "..." + b, ",", ""), "...", "") == ReplaceAll(ReplaceAll(a + b, ",", ""), "...", "")
  {
    var dots := "...";
    CommasAround(a, dots, b);
    DeleteCharAppend(a, b, ',');
    CommaFreeLast(a);
    ReplaceAllDropsOccurrence(ReplaceAll(a, ",", ""), ReplaceAll(b, ",", ""), dots, '.');
  }

  /** Line 44: an ellipsis after a digit is ignored, in the cleaned text and
      in the number. */
  lemma EllipsisIgnored(a: string, b: string)
    requires a != "" && IsDigit(a[|a| - 1])
    ensures NumericText(Some(a + "..." + b)) == NumericText(Some(a + b))
    ensures CleanNumeric(Some(a + "..." + b)) == CleanNumeric(Some(a + b))
  {
    EllipsisDeleted(a, b);
  }

  /** An integer written out in decimal cleans to that integer. */
  lemma CleanNumericOfInteger(n: int)
    ensures CleanNumeric(Some(FormatInteger(n))) == Some(n as real)
  {
    var s := FormatInteger(n);
    var m: nat := if n < 0 then -n else n;
    var ds := NatDigits(m);
    assert s == (if n < 0 then "-" + ds else ds);
    assert forall i :: 0 <= i < |s| ==> s[i] == '-' || IsDigit(s[i]);
    ReplaceAllAbsent(s, ",", "");
    ReplaceAllAbsent(s, "...", "");
    StripUnpadded(s);
    assert s != "-" by {
      if n < 0 {
        assert |s| == 1 + |ds|;
      }
    }
    ParseNumberRoundTrip(n);
  }

  /** Text without a digit cleans to missing, never to zero. */
  lemma DigitlessIsMissing(v: Cell)
    requires forall i :: 0 <= i < |NumericText(v)| ==> !IsDigit(NumericText(v)[i])
    ensures CleanNumeric(v) == None
  {
    NoDigitNoNumber(NumericText(v));
  }

  /** One row of the cleaned frame, in the column order of line 151. */
  datatype IciciRow = IciciRow(date: Option<string>, description: Option<string>,
                               debit: Option<real>, credit: Option<real>, balance: Option<real>)

  function CleanRecord(rec: RawRecord): IciciRow {
    IciciRow(CleanString(rec.date), CleanString(rec.description),
             ZeroAsMissing(CleanNumeric(rec.debit)), ZeroAsMissing(CleanNumeric(rec.credit)),
             CleanNumeric(rec.balance))
  }

  /** The cleaned frame: one row per record, in record order. */
  function CleanFrame(records: seq<RawRecord>): seq<IciciRow> {
    Map(CleanRecord, records)
  }

  /** The frame has a row for each record, cleaned on its own, so no record
      is ever dropped; Debit and Credit are never zero. */
  lemma CleanFrameRows(records: seq<RawRecord>)
    ensures |CleanFrame(records)| == |records|
    ensures forall i :: 0 <= i < |records| ==> CleanFrame(records)[i] == CleanRecord(records[i])
    ensures forall row :: row in CleanFrame(records) ==> row.debit != Some(0.0) && row.credit != Some(0.0)
  {
    MapAt(CleanRecord, records);
  }

  /** A zero Balance is kept: lines 161-162 turn zero into missing for Debit
      and Credit only, so any Balance text that cleans to 0.0 (`"0"`,
      `"0.00"`, `" 0 "`) stays 0.0, while the same text as a Debit or Credit
      becomes missing. */
  lemma ZeroBalanceKept(rec: RawRecord)
    requires CleanNumeric(rec.balance) == Some(0.0)
    ensures CleanRecord(rec).balance == Some(0.0)
    ensures CleanNumeric(rec.debit) == Some(0.0) ==> CleanRecord(rec).debit == None
    ensures CleanNumeric(rec.credit) == Some(0.0) ==> CleanRecord(rec).credit == None
  {
  }

  /** The Balance text `"0"`, the way statements print a zero balance, is
      such a zero. */
  lemma ZeroTextIsZero()
    ensures CleanNumeric(Some("0")) == Some(0.0)
  {
    CleanNumericOfInteger(0);
    assert FormatInteger(0) == "0";
  }

  /** The whole parse, file access aside. */
  function IciciStatement(pages: seq<Page>): seq<IciciRow> {
    CleanFrame(StatementRecords(pages))
  }

  /** `parse`: the records in page, table and row order, then cleaned. */
  method Parse(pages: seq<Page>) returns (df: seq<IciciRow>)
    ensures df == IciciStatement(pages)
  {
    var records := CollectRecords(pages);
    df := CleanFrame(records);
  }
}
