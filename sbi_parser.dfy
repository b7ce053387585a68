/** The header-driven SBI statement parser (custom_parsers/sbi_parser.py).

    Every table the extractor found is scanned from the top for a header row;
    the physical columns of that header are claimed by logical columns through
    a keyword table; the rows below the header become transactions, junk rows
    are filtered out, and a final cleaning pass turns the raw cells into dates,
    descriptions and amounts. */
module SbiParser {
  import opened Statement
  import opened Text

  // ---------------------------------------------------------------------------
  // Header keywords and header-cell normalisation (sbi_parser.py:24-31, 52)
  // ---------------------------------------------------------------------------

  /** The logical columns in the order the keyword table lists them. */
  const LogicalColumns: seq<Column> := [Date, Description, Debit, Credit, Balance]

  /** Header fragments that identify each logical column, tried in this order. */
  function Keywords(c: Column): seq<string> {
    match c
    case Date => ["date", "txn date", "transaction date"]
    case Description => ["description", "particulars", "particular"]
    case Debit => ["debit", "withdrawal", "amount (dr)", "amt.dr", "amountdr"]
    case Credit => ["credit", "deposit", "amount (cr)", "amt.cr", "amountcr"]
    case Balance => ["balance", "closing balance", "cl bal", "closingbal", "available balance"]
  }

  /** `str(cell).lower().strip().replace('\n', ' ')`, and `""` for a missing cell. */
  function CleanHeaderCell(cell: Cell): string {
    match cell
    case None => ""
    case Some(s) => ReplaceAll(Strip(Lower(s)), "\n", " ")
  }

  /** The cleaned cells of a candidate header row (line 52). */
  function CleanRow(row: Row): (cells: seq<string>)
    ensures |cells| == |row|
  {
    if row == [] then [] else [CleanHeaderCell(row[0])] + CleanRow(row[1..])
  }

  /** Cell `i` of the cleaned row is the cleaned text of cell `i`. */
  lemma {:induction false} CleanRowAt(row: Row)
    ensures forall i :: 0 <= i < |row| ==> CleanRow(row)[i] == CleanHeaderCell(row[i])
  {
    if row != [] {
      CleanRowAt(row[1..]);
      assert forall i :: 0 < i < |row| ==> row[i] == row[1..][i - 1];
    }
  }

  /** A cleaned header cell is lower-case, has no white-space margins and no
      line break, so the keyword tests below are case-insensitive and see a
      wrapped header as one line. */
  lemma CleanHeaderCellCanonical(cell: Cell)
    ensures var r := CleanHeaderCell(cell); Lower(r) == r && Strip(r) == r && '\n' !in r
  {
    match cell
    case None =>
      StripUnpadded("");
    case Some(s) =>
      var x := Strip(Lower(s));
      var r := ReplaceAll(x, "\n", " ");
      assert "\n" == ['\n'] && " " == [' '];
      LowerIdempotent(s);
      LowerOfStrip(Lower(s));
      LowerOfReplaceChar(x, '\n', ' ');
      StripFacts(Lower(s));
      ReplaceCharAt(x, '\n', ' ');
      assert forall i :: 0 <= i < |r| ==> r[i] != '\n';
      StripUnpadded(r);
  }

  // ---------------------------------------------------------------------------
  // Claiming physical columns (sbi_parser.py:54-70)
  // ---------------------------------------------------------------------------

  /** Index -> logical column, as built for one candidate header row. */
  type ColumnMap = map<nat, Column>

  /** The leftmost cell at or after `from` that contains `keyword` and has not
      been claimed yet. */
  function FirstFreeHit(cells: seq<string>, keyword: string, claimed: set<nat>, from: nat): Option<nat>
    decreases |cells| - from
  {
    if from >= |cells| then None
    else if Contains(cells[from], keyword) && from !in claimed then Some(from)
    else FirstFreeHit(cells, keyword, claimed, from + 1)
  }

  lemma {:induction false} FirstFreeHitIsLeftmost(cells: seq<string>, keyword: string, claimed: set<nat>, from: nat)
    ensures var r := FirstFreeHit(cells, keyword, claimed, from);
      && (r.Some? ==> from <= r.value < |cells| && Contains(cells[r.value], keyword) && r.value !in claimed)
      && (r.Some? ==> forall i :: from <= i < r.value ==> !Contains(cells[i], keyword) || i in claimed)
      && (r.None? ==> forall i :: from <= i < |cells| ==> !Contains(cells[i], keyword) || i in claimed)
    decreases |cells| - from
  {
    if from < |cells| && !(Contains(cells[from], keyword) && from !in claimed) {
      FirstFreeHitIsLeftmost(cells, keyword, claimed, from + 1);
    }
  }

  /** The cell a logical column claims: the first keyword (in list order) that
      hits an unclaimed cell decides, and the leftmost such cell is taken. */
  function ClaimCell(cells: seq<string>, keywords: seq<string>, claimed: set<nat>): Option<nat>
  {
    if keywords == [] then None
    else match FirstFreeHit(cells, keywords[0], claimed, 0)
      case Some(i) => Some(i)
      case None => ClaimCell(cells, keywords[1..], claimed)
  }

  /** A claimed cell is in range, free, and carries one of the keywords; when
      nothing is claimed, every cell carrying a keyword was taken already.
      Keywords are tried by priority: the claim is the hit of the first
      keyword in list order that hits a free cell at all. */
  lemma {:induction false} ClaimCellFacts(cells: seq<string>, keywords: seq<string>, claimed: set<nat>)
    ensures var r := ClaimCell(cells, keywords, claimed);
      && (r.Some? ==> r.value < |cells| && r.value !in claimed)
      && (r.Some? ==> exists k :: k in keywords && Contains(cells[r.value], k))
      && (r.None? ==> forall k, i :: k in keywords && 0 <= i < |cells| && Contains(cells[i], k) ==> i in claimed)
      && (r.Some? ==>
            exists j :: 0 <= j < |keywords| && FirstFreeHit(cells, keywords[j], claimed, 0) == r &&
              forall j' :: 0 <= j' < j ==> FirstFreeHit(cells, keywords[j'], claimed, 0).None?)
      && (r.None? ==> forall j :: 0 <= j < |keywords| ==> FirstFreeHit(cells, keywords[j], claimed, 0).None?)
  {
    if keywords != [] {
      var tail := keywords[1..];
      FirstFreeHitIsLeftmost(cells, keywords[0], claimed, 0);
      ClaimCellFacts(cells, tail, claimed);
      assert forall k :: k in keywords ==> k == keywords[0] || k in tail;
      assert forall j :: 0 < j < |keywords| ==> keywords[j] == tail[j - 1];
      var r := ClaimCell(cells, keywords, claimed);
      if FirstFreeHit(cells, keywords[0], claimed, 0).None? && r.Some? {
        var j :| 0 <= j < |tail| && FirstFreeHit(cells, tail[j], claimed, 0) == r &&
          forall j' :: 0 <= j' < j ==> FirstFreeHit(cells, tail[j'], claimed, 0).None?;
        assert FirstFreeHit(cells, keywords[j + 1], claimed, 0) == r;
      }
    }
  }

  /** The column map after column `c` has had its turn. */
  function ClaimFor(cells: seq<string>, c: Column, m: ColumnMap): ColumnMap {
    match ClaimCell(cells, Keywords(c), m.Keys)
    case Some(i) => m[i := c]
    case None => m
  }

  /** The logical columns `cols`, in order, each claim a cell in `m`. */
  function AssignColumns(cells: seq<string>, cols: seq<Column>, m: ColumnMap): ColumnMap
    decreases |cols|
  {
    if cols == [] then m
    else
      AssignColumns(cells, cols[1..], ClaimFor(cells, cols[0], m))
  }

  /** The column map a (cleaned) row yields. */
  function HeaderMap(cells: seq<string>): ColumnMap {
    AssignColumns(cells, LogicalColumns, map[])
  }

  /** One turn of the loop at sbi_parser.py:58: the keyword loop (59) and the
      cell loop (60), which claims the first unclaimed cell containing the
      keyword and stops (67); the test at line 69 then ends the keyword loop,
      which is what `mapped` does here. */
  method ClaimColumn(cleanRow: seq<string>, colName: Column, tempMapping: ColumnMap, foundKeysCount: nat)
    returns (newMapping: ColumnMap, newCount: nat)
    requires foundKeysCount == |tempMapping|
    ensures newMapping == ClaimFor(cleanRow, colName, tempMapping)
    ensures newCount == |newMapping|
  {
    var keywords := Keywords(colName);
    newMapping, newCount := tempMapping, foundKeysCount;
    var mapped := false;
    var k := 0;
    while k < |keywords| && !mapped
      invariant 0 <= k <= |keywords|
      invariant !mapped ==> newMapping == tempMapping
      invariant !mapped ==> ClaimCell(cleanRow, keywords[k..], tempMapping.Keys) == ClaimCell(cleanRow, keywords, tempMapping.Keys)
      invariant mapped ==> newMapping == ClaimFor(cleanRow, colName, tempMapping)
      invariant newCount == |newMapping|
    {
      var keyword := keywords[k];
      ghost var hit := FirstFreeHit(cleanRow, keyword, tempMapping.Keys, 0);
      assert keywords[k..][0] == keyword && keywords[k..][1..] == keywords[k + 1..];
      assert hit.Some? ==> ClaimCell(cleanRow, keywords, tempMapping.Keys) == hit;
      var cIdx := 0;
      while cIdx < |cleanRow| && !mapped
        invariant 0 <= cIdx <= |cleanRow|
        invariant !mapped ==> newMapping == tempMapping
        invariant !mapped ==> FirstFreeHit(cleanRow, keyword, tempMapping.Keys, cIdx) == hit
        invariant mapped ==> hit.Some? && newMapping == tempMapping[hit.value := colName]
        invariant newCount == |newMapping|
      {
        if Contains(cleanRow[cIdx], keyword) && cIdx !in newMapping {
          newMapping := newMapping[cIdx := colName];
          newCount := newCount + 1;
          mapped := true;
        }
        cIdx := cIdx + 1;
      }
      k := k + 1;
    }
  }

  /** The column loop of sbi_parser.py:54-70: every logical column, in the
      keyword table's order, claims its cell of the cleaned row. */
  method MatchHeader(cleanRow: seq<string>) returns (tempMapping: ColumnMap, foundKeysCount: nat)
    ensures tempMapping == HeaderMap(cleanRow)
    ensures foundKeysCount == |tempMapping|
  {
    tempMapping := map[];
    foundKeysCount := 0;
    var c := 0;
    while c < |LogicalColumns|
      invariant 0 <= c <= |LogicalColumns|
      invariant AssignColumns(cleanRow, LogicalColumns[c..], tempMapping) == HeaderMap(cleanRow)
      invariant foundKeysCount == |tempMapping|
    {
      assert LogicalColumns[c..][1..] == LogicalColumns[c + 1..];
      tempMapping, foundKeysCount := ClaimColumn(cleanRow, LogicalColumns[c], tempMapping, foundKeysCount);
      c := c + 1;
    }
  }

  // ---------------------------------------------------------------------------
  // Properties of the column map
  // ---------------------------------------------------------------------------

  /** No logical column is claimed by two physical columns. (A map already
      gives each physical column at most one logical column.) */
  predicate Injective(m: ColumnMap) {
    forall i, j :: i in m && j in m && i != j ==> m[i] != m[j]
  }

  predicate Distinct(cols: seq<Column>) {
    forall a, b :: 0 <= a < b < |cols| ==> cols[a] != cols[b]
  }

  /** Some keyword of `c` occurs in `cell`. */
  predicate Hits(cell: string, c: Column) {
    exists k :: k in Keywords(c) && Contains(cell, k)
  }

  /** Every claim `AssignColumns` holds is a cell in range that carries a
      keyword of the column claiming it. */
  lemma {:induction false} AssignColumnsHit(cells: seq<string>, cols: seq<Column>, m: ColumnMap)
    requires forall i :: i in m ==> i < |cells| && Hits(cells[i], m[i])
    ensures var r := AssignColumns(cells, cols, m);
      forall i :: i in r ==> i < |cells| && Hits(cells[i], r[i])
    decreases |cols|
  {
    if cols != [] {
      var c := cols[0];
      var claim := ClaimCell(cells, Keywords(c), m.Keys);
      ClaimCellFacts(cells, Keywords(c), m.Keys);
      if claim.Some? {
        var k :| k in Keywords(c) && Contains(cells[claim.value], k);
        assert Hits(cells[claim.value], c);
      }
      AssignColumnsHit(cells, cols[1..], ClaimFor(cells, c, m));
    }
  }

  /** With distinct columns still to come, none of them already used, no
      logical column ends up claimed twice. */
  lemma {:induction false} AssignColumnsInjective(cells: seq<string>, cols: seq<Column>, m: ColumnMap)
    requires Distinct(cols) && Injective(m)
    requires forall i :: i in m ==> m[i] !in cols
    ensures Injective(AssignColumns(cells, cols, m))
    decreases |cols|
  {
    if cols != [] {
      var next := ClaimFor(cells, cols[0], m);
      assert Distinct(cols[1..]);
      forall i | i in next ensures next[i] !in cols[1..] {
        if i !in m {
          assert next[i] == cols[0];
        }
      }
      AssignColumnsInjective(cells, cols[1..], next);
    }
  }

  /** A column of `cols` that ends up unclaimed found every cell carrying one
      of its keywords claimed already. */
  lemma {:induction false} AssignColumnsMaximal(cells: seq<string>, cols: seq<Column>, m: ColumnMap)
    ensures var r := AssignColumns(cells, cols, m);
      forall c, k, i :: c in cols && c !in r.Values && k in Keywords(c) && 0 <= i < |cells| && Contains(cells[i], k) ==> i in r
    decreases |cols|
  {
    if cols != [] {
      var c := cols[0];
      var claim := ClaimCell(cells, Keywords(c), m.Keys);
      ClaimCellFacts(cells, Keywords(c), m.Keys);
      var next := ClaimFor(cells, c, m);
      AssignColumnsMaximal(cells, cols[1..], next);
      AssignColumnsMonotone(cells, cols[1..], next);
      var r := AssignColumns(cells, cols[1..], next);
      if claim.Some? {
        assert claim.value in r && r[claim.value] == c;
        assert c in r.Values;
      }
      forall c', k, i | c' in cols && c' !in r.Values && k in Keywords(c') && 0 <= i < |cells| && Contains(cells[i], k)
        ensures i in r
      {
        if c' != c {
          assert c' in cols[1..];
        } else if claim.None? {
          assert i in m;
        }
      }
    }
  }

  /** Claims are never undone. */
  lemma {:induction false} AssignColumnsMonotone(cells: seq<string>, cols: seq<Column>, m: ColumnMap)
    ensures var r := AssignColumns(cells, cols, m);
      forall i :: i in m ==> i in r && r[i] == m[i]
    decreases |cols|
  {
    if cols != [] {
      ClaimCellFacts(cells, Keywords(cols[0]), m.Keys);
      AssignColumnsMonotone(cells, cols[1..], ClaimFor(cells, cols[0], m));
    }
  }

  /** The column map of any row: injective both ways, its indices in range,
      every claimed cell carrying a keyword of its column, and every column
      left out having found all cells with its keywords taken. */
  lemma HeaderMapFacts(cells: seq<string>)
    ensures var m := HeaderMap(cells);
      && Injective(m)
      && (forall i :: i in m ==> i < |cells| && Hits(cells[i], m[i]))
      && (forall c, k, i :: c !in m.Values && k in Keywords(c) && 0 <= i < |cells| && Contains(cells[i], k) ==> i in m)
  {
    AssignColumnsHit(cells, LogicalColumns, map[]);
    HeaderMapInjective(cells);
    AssignColumnsMaximal(cells, LogicalColumns, map[]);
    var m := HeaderMap(cells);
    forall c, k, i | c !in m.Values && k in Keywords(c) && 0 <= i < |cells| && Contains(cells[i], k)
      ensures i in m
    {
      assert c in LogicalColumns by {
        match c
        case Date => assert LogicalColumns[0] == c;
        case Description => assert LogicalColumns[1] == c;
        case Debit => assert LogicalColumns[2] == c;
        case Credit => assert LogicalColumns[3] == c;
        case Balance => assert LogicalColumns[4] == c;
      }
    }
  }

  lemma {:induction false} SubsetCardinality(a: set<nat>, b: set<nat>)
    requires a <= b
    ensures |a| <= |b|
    decreases |a|
  {
    if a != {} {
      var x :| x in a;
      SubsetCardinality(a - {x}, b - {x});
    }
  }

  // ---------------------------------------------------------------------------
  // Which row is the header (sbi_parser.py:72-85)
  // ---------------------------------------------------------------------------

  /** The rule at sbi_parser.py:75-76, with the count kept by the matching loop. */
  predicate IsLikelyHeader(m: ColumnMap, foundKeysCount: nat) {
    || (Date in m.Values && foundKeysCount >= 3)
    || (Date in m.Values && Description in m.Values && Balance in m.Values)
  }

  predicate RowQualifies(row: Row) {
    var m := HeaderMap(CleanRow(row));
    IsLikelyHeader(m, |m|)
  }

  lemma HeaderMapInjective(cells: seq<string>)
    ensures Injective(HeaderMap(cells))
  {
    AssignColumnsInjective(cells, LogicalColumns, map[]);
  }

  /** Three distinct columns mapped by an injective map need three indices. */
  lemma ThreeColumnsNeedThreeIndices(m: ColumnMap, x: Column, y: Column, z: Column)
    requires Injective(m) && x != y && y != z && x != z
    requires x in m.Values && y in m.Values && z in m.Values
    ensures |m| >= 3
  {
    var i :| i in m && m[i] == x;
    var j :| j in m && m[j] == y;
    var k :| k in m && m[k] == z;
    assert |{i, j, k}| == 3;
    SubsetCardinality({i, j, k}, m.Keys);
  }

  /** The second alternative of the header rule adds nothing: a row is a
      header exactly when Date is mapped and at least three columns are. */
  lemma HeaderRuleCollapses(cells: seq<string>)
    ensures var m := HeaderMap(cells);
      IsLikelyHeader(m, |m|) <==> Date in m.Values && |m| >= 3
  {
    var m := HeaderMap(cells);
    if Date in m.Values && Description in m.Values && Balance in m.Values {
      HeaderMapInjective(cells);
      ThreeColumnsNeedThreeIndices(m, Date, Description, Balance);
    }
  }

  datatype Header = Header(index: nat, mapping: ColumnMap)

  /** The first position at or after `from` whose row satisfies `qualifies`. */
  function FirstQualifying(table: Table, qualifies: Row -> bool, from: nat): (r: Option<nat>)
    ensures r.Some? ==> from <= r.value < |table|
    decreases |table| - from
  {
    if from >= |table| then None
    else if qualifies(table[from]) then Some(from)
    else FirstQualifying(table, qualifies, from + 1)
  }

  /** The position found satisfies `qualifies` and no row before it does;
      when none is found, no row at all does. */
  lemma {:induction false} FirstQualifyingIsFirst(table: Table, qualifies: Row -> bool, from: nat)
    ensures var r := FirstQualifying(table, qualifies, from);
      && (r.Some? ==> qualifies(table[r.value]))
      && (r.Some? ==> forall i :: from <= i < r.value ==> !qualifies(table[i]))
      && (r.None? ==> forall i :: from <= i < |table| ==> !qualifies(table[i]))
    decreases |table| - from
  {
    if from < |table| && !qualifies(table[from]) {
      FirstQualifyingIsFirst(table, qualifies, from + 1);
    }
  }

  /** The first header row at or after `from`, with the column map it yields. */
  function FindHeader(table: Table, from: nat): Option<Header> {
    HeaderAt(table, FirstQualifying(table, RowQualifies, from), RowMap)
  }

  /** One row of the search: a qualifying row is the header, else the search moves on. */
  lemma FindHeaderStep(table: Table, r: nat)
    requires r < |table|
    ensures FindHeader(table, r) ==
      if RowQualifies(table[r]) then Some(Header(r, RowMap(table[r]))) else FindHeader(table, r + 1)
  {
  }

  /** The header at row `r`, if any, with the column map `mapOf` gives that row. */
  function HeaderAt(table: Table, r: Option<nat>, mapOf: Row -> ColumnMap): Option<Header>
    requires r.Some? ==> r.value < |table|
  {
    match r
    case Some(i) => Some(Header(i, mapOf(table[i])))
    case None => None
  }

  /** The column map a row yields once cleaned. */
  function RowMap(row: Row): ColumnMap {
    HeaderMap(CleanRow(row))
  }

  /** The header found is the first row at or after `from` that qualifies,
      and it carries that row's column map; when none is found, no row at or
      after `from` qualifies. */
  lemma FindHeaderIsFirst(table: Table, from: nat)
    ensures var h := FindHeader(table, from);
      && (h.Some? ==> from <= h.value.index < |table| && RowQualifies(table[h.value.index]))
      && (h.Some? ==> h.value.mapping == HeaderMap(CleanRow(table[h.value.index])))
      && (h.Some? ==> forall r :: from <= r < h.value.index ==> !RowQualifies(table[r]))
      && (h.None? ==> forall r :: from <= r < |table| ==> !RowQualifies(table[r]))
  {
    FirstQualifyingIsFirst(table, RowQualifies, from);
  }

  // ---------------------------------------------------------------------------
  // Transactions from the data rows (sbi_parser.py:87-110)
  // ---------------------------------------------------------------------------

  /** Logical column -> raw cell, for the columns a data row supplied. */
  type Transaction = map<Column, Cell>

  /** The transaction built from the first `n` cells of `row` (line 93). */
  function TransactionOf(row: Row, m: ColumnMap, n: nat): Transaction
    requires n <= |row|
  {
    if n == 0 then map[]
    else
      var t := TransactionOf(row, m, n - 1);
      if n - 1 in m then t[m[n - 1] := row[n - 1]] else t
  }

  function RowTransaction(row: Row, m: ColumnMap): Transaction {
    TransactionOf(row, m, |row|)
  }

  /** The cell loop of sbi_parser.py:91-96. */
  method BuildTransaction(row: Row, mapping: ColumnMap) returns (transaction: Transaction)
    ensures transaction == RowTransaction(row, mapping)
  {
    transaction := map[];
    var colIdx := 0;
    while colIdx < |row|
      invariant 0 <= colIdx <= |row|
      invariant transaction == TransactionOf(row, mapping, colIdx)
    {
      if colIdx in mapping {
        transaction := transaction[mapping[colIdx] := row[colIdx]];
      }
      colIdx := colIdx + 1;
    }
  }

  /** With an injective column map, the transaction holds exactly the mapped
      columns whose index lies within the row, each with its cell unchanged. */
  lemma {:induction false} TransactionCopiesCells(row: Row, m: ColumnMap, n: nat)
    requires Injective(m) && n <= |row|
    ensures forall c :: c in TransactionOf(row, m, n) ==> exists i :: i in m && i < n && m[i] == c
    ensures forall i :: i in m && i < n ==> m[i] in TransactionOf(row, m, n) && TransactionOf(row, m, n)[m[i]] == row[i]
  {
    if n > 0 {
      TransactionCopiesCells(row, m, n - 1);
      var t := TransactionOf(row, m, n);
      forall c | c in t
        ensures exists i :: i in m && i < n && m[i] == c
      {
        if n - 1 in m && c == m[n - 1] {
          assert n - 1 in m && n - 1 < n && m[n - 1] == c;
        } else {
          assert c in TransactionOf(row, m, n - 1);
        }
      }
    }
  }

  /** A cell counts as present when it is text other than `""` (Python truthiness). */
  predicate Truthy(t: Transaction, c: Column) {
    c in t && t[c].Some? && t[c].value != ""
  }

  /** Line 100: a Date and at least one other field. */
  predicate LooksLikeTransaction(t: Transaction) {
    Truthy(t, Date) && (Truthy(t, Description) || Truthy(t, Debit) || Truthy(t, Credit) || Truthy(t, Balance))
  }

  /** `str(transaction.get('Description', '')).lower()` (line 108). */
  function FilterDescription(t: Transaction): string {
    if Description !in t then ""
    else match t[Description]
      case None => "none"
      case Some(s) => Lower(s)
  }

  const FooterMarkers: seq<string> := ["total", "page", "balance brought forward", "balance carried forward"]

  /** Line 109: the description names a total, a page or a carried balance. */
  predicate IsFooter(t: Transaction) {
    exists marker :: marker in FooterMarkers && Contains(FilterDescription(t), marker)
  }

  predicate Keep(t: Transaction) {
    LooksLikeTransaction(t) && !IsFooter(t)
  }

  /** The kept transactions of the data rows, in row order. */
  function DataRecords(rows: seq<Row>, m: ColumnMap): seq<Transaction> {
    if rows == [] then []
    else
      var t := RowTransaction(rows[|rows| - 1], m);
      DataRecords(rows[..|rows| - 1], m) + (if Keep(t) then [t] else [])
  }

  /** The kept transactions of the rows below header `h`, none without one. */
  function RecordsBelow(table: Table, h: Option<Header>): seq<Transaction> {
    match h
    case None => []
    case Some(header) =>
      if header.index < |table| then DataRecords(table[header.index + 1..], header.mapping) else []
  }

  /** The transactions one table contributes: the kept ones among the rows
      below its first header. */
  function TableRecords(table: Table): seq<Transaction> {
    RecordsBelow(table, FindHeader(table, 0))
  }

  function TablesRecords(tables: seq<Table>): seq<Transaction> {
    if tables == [] then []
    else TablesRecords(tables[..|tables| - 1]) + TableRecords(tables[|tables| - 1])
  }

  /** All tables of all pages, in page order and then extraction order. */
  function Flatten(pages: seq<Page>): seq<Table> {
    if pages == [] then []
    else Flatten(pages[..|pages| - 1]) + pages[|pages| - 1]
  }

  /** The transactions gathered over the whole statement (the list at line 19
      as it stands after line 110 has run for every row). */
  function ExtractRecords(pages: seq<Page>): seq<Transaction> {
    TablesRecords(Flatten(pages))
  }

  // ---------------------------------------------------------------------------
  // The empty first row (sbi_parser.py:60, 69, 112-114)
  // ---------------------------------------------------------------------------

  /** The first non-empty table; its first row is the first row the header
      search ever looks at. */
  function FirstTable(tables: seq<Table>): (r: Option<Table>)
    ensures r.Some? ==> r.value != []
  {
    if tables == [] then None
    else if tables[0] != [] then Some(tables[0])
    else FirstTable(tables[1..])
  }

  /** The loop variable `c_idx` of line 60 is first assigned by the first
      non-empty row the header search meets. If the first row it looks at is
      empty, line 69 reads `c_idx` unassigned and raises. */
  predicate ScanCrashes(tables: seq<Table>) {
    match FirstTable(tables)
    case Some(t) => t[0] == []
    case None => false
  }

  predicate HeaderScanCrashes(pages: seq<Page>) {
    ScanCrashes(Flatten(pages))
  }

  lemma {:induction false} FirstTableConcat(a: seq<Table>, b: seq<Table>)
    ensures FirstTable(a + b) == if FirstTable(a).Some? then FirstTable(a) else FirstTable(b)
  {
    if a != [] {
      assert (a + b)[1..] == a[1..] + b;
      FirstTableConcat(a[1..], b);
    } else {
      assert a + b == b;
    }
  }

  lemma {:induction false} FlattenConcat(a: seq<Page>, b: seq<Page>)
    ensures Flatten(a + b) == Flatten(a) + Flatten(b)
    decreases |b|
  {
    if b == [] {
      assert a + b == a;
    } else {
      InitOfAppend(a, b);
      FlattenConcat(a, b[..|b| - 1]);
    }
  }

  lemma {:induction false} TablesRecordsConcat(a: seq<Table>, b: seq<Table>)
    ensures TablesRecords(a + b) == TablesRecords(a) + TablesRecords(b)
    decreases |b|
  {
    if b == [] {
      assert a + b == a;
    } else {
      var ab := a + b;
      var init := b[..|b| - 1];
      InitOfAppend(a, b);
      TablesRecordsConcat(a, init);
      AppendAssociative(TablesRecords(a), TablesRecords(init), TableRecords(b[|b| - 1]));
    }
  }

  /** Once the scan has crashed, later tables change nothing. */
  lemma CrashPersists(a: seq<Table>, b: seq<Table>)
    requires ScanCrashes(a)
    ensures ScanCrashes(a + b)
  {
    FirstTableConcat(a, b);
  }

  /** Lines 52-76 for one row: its cleaned cells, the column map they yield,
      and whether that makes the row a header. */
  method ExamineRow(row: Row) returns (cleanRow: seq<string>, tempMapping: ColumnMap, isLikelyHeader: bool)
    ensures |cleanRow| == |row|
    ensures tempMapping == RowMap(row)
    ensures isLikelyHeader == RowQualifies(row)
    ensures isLikelyHeader ==> tempMapping != map[]
  {
    cleanRow := CleanRow(row);
    var foundKeysCount;
    tempMapping, foundKeysCount := MatchHeader(cleanRow);
    isLikelyHeader := IsLikelyHeader(tempMapping, foundKeysCount);
  }

  /** The header search of sbi_parser.py:56-85 over one non-empty table.
      `cIdxBound` says whether `c_idx` has been assigned by an earlier row; the
      search raises (`crashed`) when it meets an empty row before that. */
  method LocateHeader(tableData: Table, cIdxBound: bool)
    returns (currentMapping: ColumnMap, headerRowIndex: int, crashed: bool, bound: bool)
    requires tableData != []
    ensures crashed == (!cIdxBound && tableData[0] == [])
    ensures !crashed ==> bound
    ensures !crashed ==> match FindHeader(tableData, 0)
      case None => currentMapping == map[]
      case Some(h) => currentMapping == h.mapping && headerRowIndex == h.index && currentMapping != map[]
    ensures !crashed && currentMapping != map[] ==> 0 <= headerRowIndex < |tableData|
  {
    bound := cIdxBound;
    crashed := false;
    currentMapping := map[];
    headerRowIndex := -1;
    var r := 0;
    while r < |tableData| && headerRowIndex < 0
      invariant 0 <= r <= |tableData|
      invariant headerRowIndex < r
      invariant bound == (cIdxBound || r > 0)
      invariant r > 0 ==> cIdxBound || tableData[0] != []
      invariant headerRowIndex < 0 ==> currentMapping == map[] && FindHeader(tableData, r) == FindHeader(tableData, 0)
      invariant headerRowIndex >= 0 ==> FindHeader(tableData, 0) == Some(Header(headerRowIndex, currentMapping))
      invariant headerRowIndex >= 0 ==> currentMapping != map[]
    {
      var cleanRow, tempMapping, isLikelyHeader := ExamineRow(tableData[r]);
      if cleanRow == [] && !bound {
        // `c_idx` was never assigned: line 69 raises.
        crashed := true;
        return;
      }
      FindHeaderStep(tableData, r);
      if cleanRow != [] {
        bound := true;
      }
      if isLikelyHeader {
        currentMapping := tempMapping;
        headerRowIndex := r;
      }
      r := r + 1;
    }
  }

  /** The data-row loop of sbi_parser.py:87-110. */
  method CollectDataRows(dataRows: seq<Row>, mapping: ColumnMap) returns (records: seq<Transaction>)
    ensures records == DataRecords(dataRows, mapping)
  {
    records := [];
    var i := 0;
    while i < |dataRows|
      invariant 0 <= i <= |dataRows|
      invariant records == DataRecords(dataRows[..i], mapping)
    {
      var transaction := BuildTransaction(dataRows[i], mapping);
      if LooksLikeTransaction(transaction) && !IsFooter(transaction) {
        records := records + [transaction];
      }
      TakeOfTake(dataRows, i, i + 1);
      i := i + 1;
    }
    TakeAll(dataRows);
  }

  lemma FirstTableSnoc(seen: seq<Table>, tableData: Table)
    ensures FirstTable(seen + [tableData]) ==
      if FirstTable(seen).Some? then FirstTable(seen) else if tableData != [] then Some(tableData) else None
  {
    FirstTableConcat(seen, [tableData]);
  }

  lemma TablesRecordsSnoc(seen: seq<Table>, tableData: Table)
    ensures TablesRecords(seen + [tableData]) == TablesRecords(seen) + TableRecords(tableData)
  {
    PrefixOfAppend(seen, [tableData]);
  }

  lemma AppendPage(pages: seq<Page>, p: nat)
    requires p < |pages|
    ensures Flatten(pages[..p + 1]) == Flatten(pages[..p]) + pages[p]
  {
    TakeOfTake(pages, p, p + 1);
  }

  /** One table of the loop at sbi_parser.py:52-110: skipped when empty,
      else the header search and the data rows below the header. `scanned`
      are the tables before it. */
  method ScanTable(tableData: Table, ghost scanned: seq<Table>, cIdxBound: bool)
    returns (records: seq<Transaction>, crashed: bool, bound: bool)
    requires cIdxBound == FirstTable(scanned).Some? && !ScanCrashes(scanned)
    ensures crashed == ScanCrashes(scanned + [tableData])
    ensures !crashed ==> bound == FirstTable(scanned + [tableData]).Some? && records == TableRecords(tableData)
  {
    FirstTableSnoc(scanned, tableData);
    if tableData == [] {
      TableRecordsOfHeader(tableData, None);
      return [], false, cIdxBound;
    }
    records, crashed, bound := ScanRows(tableData, cIdxBound);
  }

  /** Lines 45-110 for a non-empty table: the header search, then the data
      rows below the header. */
  method ScanRows(tableData: Table, cIdxBound: bool) returns (records: seq<Transaction>, crashed: bool, bound: bool)
    requires tableData != []
    ensures crashed == (!cIdxBound && tableData[0] == [])
    ensures !crashed ==> bound && records == TableRecords(tableData)
  {
    records := [];
    var currentMapping, headerRowIndex;
    currentMapping, headerRowIndex, crashed, bound := LocateHeader(tableData, cIdxBound);
    if crashed {
      return;
    }
    // `if not current_page_column_mapping: continue` (lines 83-85)
    if currentMapping != map[] {
      records := CollectDataRows(tableData[headerRowIndex + 1..], currentMapping);
      TableRecordsOfHeader(tableData, Some(Header(headerRowIndex, currentMapping)));
    } else {
      TableRecordsOfHeader(tableData, None);
    }
  }

  lemma TableRecordsOfHeader(table: Table, h: Option<Header>)
    requires FindHeader(table, 0) == h
    ensures TableRecords(table) == RecordsBelow(table, h)
  {
  }

  /** The table loop of sbi_parser.py:52-110 over one page. `seen` are the
      tables of the earlier pages, `cIdxBound` whether `c_idx` has been
      assigned; `records` are the page's own transactions. */
  method ScanPage(tables: Page, ghost seen: seq<Table>, cIdxBound: bool)
    returns (records: seq<Transaction>, crashed: bool, bound: bool)
    requires cIdxBound == FirstTable(seen).Some? && !ScanCrashes(seen)
    ensures crashed == ScanCrashes(seen + tables)
    ensures !crashed ==> bound == FirstTable(seen + tables).Some? && records == TablesRecords(tables)
  {
    records := [];
    crashed := false;
    bound := cIdxBound;
    ghost var scanned := seen;
    AppendEmpty(seen, tables[..0]);
    var t := 0;
    while t < |tables|
      invariant 0 <= t <= |tables|
      invariant scanned == seen + tables[..t]
      invariant bound == FirstTable(scanned).Some?
      invariant !ScanCrashes(scanned)
      invariant records == TablesRecords(tables[..t])
    {
      var tableData := tables[t];
      TakeSnoc(tables, t);
      AppendAssociative(seen, tables[..t], [tableData]);
      var tableRecords, tableCrashed, tableBound := ScanTable(tableData, scanned, bound);
      if tableCrashed {
        CrashPersists(scanned + [tableData], tables[t + 1..]);
        SplitAt(tables, t + 1);
        AppendAssociative(seen, tables[..t + 1], tables[t + 1..]);
        crashed := true;
        return;
      }
      TablesRecordsSnoc(tables[..t], tableData);
      bound := tableBound;
      records := records + tableRecords;
      scanned := scanned + [tableData];
      t := t + 1;
    }
    TakeAll(tables);
  }

  /** The page loop of sbi_parser.py:35-110. `crashed` reports the error
      raised at line 69 when the first row examined is empty; the handler at
      lines 112-114 then abandons the whole statement. */
  method CollectRecords(pages: seq<Page>) returns (allTransactionsData: seq<Transaction>, crashed: bool)
    ensures crashed == HeaderScanCrashes(pages)
    ensures !crashed ==> allTransactionsData == ExtractRecords(pages)
  {
    allTransactionsData := [];
    crashed := false;
    var cIdxBound := false;
    var p := 0;
    while p < |pages|
      invariant 0 <= p <= |pages|
      invariant cIdxBound == FirstTable(Flatten(pages[..p])).Some?
      invariant !ScanCrashes(Flatten(pages[..p]))
      invariant allTransactionsData == TablesRecords(Flatten(pages[..p]))
    {
      AppendPage(pages, p);
      TablesRecordsConcat(Flatten(pages[..p]), pages[p]);
      var records, pageCrashed, bound := ScanPage(pages[p], Flatten(pages[..p]), cIdxBound);
      if pageCrashed {
        SplitAt(pages, p + 1);
        FlattenConcat(pages[..p + 1], pages[p + 1..]);
        CrashPersists(Flatten(pages[..p + 1]), Flatten(pages[p + 1..]));
        crashed := true;
        return;
      }
      cIdxBound := bound;
      allTransactionsData := allTransactionsData + records;
      p := p + 1;
    }
    TakeAll(pages);
  }

  // ---------------------------------------------------------------------------
  // Cleaning the collected records (sbi_parser.py:116-163)
  // ---------------------------------------------------------------------------

  /** One row of the output table: the parsed date, the cleaned description and
      the three amounts, read as exact decimals. */
  datatype SbiRow = SbiRow(date: CalendarDate, description: string, debit: real, credit: real, balance: real)

  /** `astype(str)` of a record's entry in column `c`: a column the record did
      not supply holds NaN (`"nan"`), a missing cell holds `None` (`"None"`). */
  function CellText(t: Transaction, c: Column): string {
    if c !in t then "nan"
    else match t[c]
      case None => "None"
      case Some(s) => s
  }

  /** The characters the pattern `[^\d.-]` spares. */
  predicate IsAmountChar(ch: char) {
    IsDigit(ch) || ch == '.' || ch == '-'
  }

  /** Line 135: every character other than a digit, `.` or `-` is deleted. */
  function AmountChars(s: string): (r: string)
    ensures |r| <= |s|
  {
    if s == [] then []
    else (if IsAmountChar(s[0]) then [s[0]] else []) + AmountChars(s[1..])
  }

  /** Every character that survives line 135 is a digit, point or minus sign,
      and text made of those alone survives whole. */
  lemma {:induction false} AmountCharsKeepsAmountChars(s: string)
    ensures forall i :: 0 <= i < |AmountChars(s)| ==> IsAmountChar(AmountChars(s)[i])
    ensures (forall i :: 0 <= i < |s| ==> IsAmountChar(s[i])) ==> AmountChars(s) == s
  {
    if s != [] {
      AmountCharsKeepsAmountChars(s[1..]);
      var head: string := if IsAmountChar(s[0]) then [s[0]] else [];
      var r := AmountChars(s);
      assert r == head + AmountChars(s[1..]);
      forall i | 0 <= i < |r| ensures IsAmountChar(r[i]) {
        if i >= |head| {
          assert r[i] == AmountChars(s[1..])[i - |head|];
        }
      }
      if forall i :: 0 <= i < |s| ==> IsAmountChar(s[i]) {
        assert forall i :: 0 <= i < |s[1..]| ==> IsAmountChar(s[1..][i]);
        assert s == [s[0]] + s[1..];
      }
    }
  }

  /** Lines 133-138 for one cell: the text's digits, points and minus signs
      read as a number, and 0.0 when nothing readable is left. */
  function CleanAmount(text: string): real {
    ParseNumber(AmountChars(text)).GetOr(0.0)
  }

  /** Blank amounts are zero, never missing: a cell without any digit (an
      empty cell, a missing cell, `"-"`, text) cleans to 0.0. */
  lemma {:induction false} DigitlessAmountIsZero(text: string)
    requires forall i :: 0 <= i < |text| ==> !IsDigit(text[i])
    ensures CleanAmount(text) == 0.0
  {
    DigitlessAmountChars(text);
    NoDigitNoNumber(AmountChars(text));
  }

  lemma {:induction false} DigitlessAmountChars(s: string)
    requires forall i :: 0 <= i < |s| ==> !IsDigit(s[i])
    ensures forall i :: 0 <= i < |AmountChars(s)| ==> !IsDigit(AmountChars(s)[i])
  {
    if s != [] {
      assert forall i :: 0 <= i < |s[1..]| ==> !IsDigit(s[1..][i]);
      DigitlessAmountChars(s[1..]);
    }
  }

  /** An amount written as an integer, with or without a minus sign, cleans
      to its value. */
  lemma CleanAmountOfInteger(n: int)
    ensures CleanAmount(FormatInteger(n)) == n as real
  {
    var s := FormatInteger(n);
    var ds := NatDigits(if n < 0 then -n else n);
    assert forall i :: 0 <= i < |ds| ==> IsDigit(ds[i]);
    assert forall i :: 0 <= i < |s| ==> IsAmountChar(s[i]) by {
      if n < 0 {
        assert s == "-" + ds;
        forall i | 0 <= i < |s| ensures IsAmountChar(s[i]) {
          if i > 0 {
            assert s[i] == ds[i - 1];
          }
        }
      }
    }
    AmountCharsKeepsAmountChars(s);
    ParseNumberRoundTrip(n);
  }

  /** Line 135 works character by character: the text's pieces are filtered
      separately and the survivors keep their order. */
  lemma {:induction false} AmountCharsAppend(a: string, b: string)
    ensures AmountChars(a + b) == AmountChars(a) + AmountChars(b)
    decreases |a|
  {
    if a != [] {
      AmountCharsAppend(a[1..], b);
      assert (a + b)[1..] == a[1..] + b;
    } else {
      assert a + b == b;
    }
  }

  /** Any character other than a digit, `.` or `-` (a thousands comma, a
      currency sign, a space) is ignored wherever it stands. */
  lemma CleanAmountIgnoresOtherChars(a: string, c: char, b: string)
    requires !IsAmountChar(c)
    ensures AmountChars(a + [c] + b) == AmountChars(a + b)
    ensures CleanAmount(a + [c] + b) == CleanAmount(a + b)
  {
    AmountCharsAppend(a + [c], b);
    AmountCharsAppend(a, [c]);
    AmountCharsAppend(a, b);
    assert AmountChars([c]) == [] by { assert [c][1..] == []; }
  }

  /** A grouped amount reads as its value: an integer with a thousands
      comma anywhere in it (`"1,234"`, `"-12,000"`) cleans to that integer. */
  lemma GroupedAmount(n: int, k: nat)
    requires k <= |FormatInteger(n)|
    ensures var s := FormatInteger(n); CleanAmount(s[..k] + "," + s[k..]) == n as real
  {
    var s := FormatInteger(n);
    CleanAmountIgnoresOtherChars(s[..k], ',', s[k..]);
    assert s[..k] + s[k..] == s;
    assert s[..k] + "," + s[k..] == s[..k] + [','] + s[k..];
    CleanAmountOfInteger(n);
  }

  /** Cleaning is idempotent on what line 135 leaves: cleaning the cleaned
      text gives the same amount. */
  lemma CleanAmountIdempotent(text: string)
    ensures CleanAmount(AmountChars(text)) == CleanAmount(text)
  {
    AmountCharsKeepsAmountChars(text);
    AmountCharsKeepsAmountChars(AmountChars(text));
  }

  /** The first position at or after `i` that is not white space. */
  function SkipSpaces(s: string, i: nat): (j: nat)
    requires i <= |s|
    ensures i <= j <= |s|
    decreases |s| - i
  {
    if i < |s| && IsSpace(s[i]) then SkipSpaces(s, i + 1) else i
  }

  /** The first position at or after `i` that is not a decimal digit. */
  function SkipDigits(s: string, i: nat): (j: nat)
    requires i <= |s|
    ensures i <= j <= |s|
    decreases |s| - i
  {
    if i < |s| && IsDigit(s[i]) then SkipDigits(s, i + 1) else i
  }

  /** `Page` at position `i`, in any mix of cases. */
  predicate PageWordAt(s: string, i: nat) {
    i + 4 <= |s| && LowerChar(s[i]) == 'p' && LowerChar(s[i + 1]) == 'a'
    && LowerChar(s[i + 2]) == 'g' && LowerChar(s[i + 3]) == 'e'
  }

  /** `of` at position `i`, in any mix of cases. */
  predicate OfWordAt(s: string, i: nat) {
    i + 2 <= |s| && LowerChar(s[i]) == 'o' && LowerChar(s[i + 1]) == 'f'
  }

  /** Where a match of `\s*\(?Page\s*\d+\s*of\s*\d+\)?\s*` (ignoring case)
      that starts at position `i` ends, if there is one. Every repetition in
      the pattern is followed by something it cannot itself match, so the
      greedy match is the only one. */
  function PageMarkerEnd(s: string, i: nat): (r: Option<nat>)
    requires i <= |s|
    ensures r.Some? ==> i + 4 <= r.value <= |s|
  {
    var a := SkipSpaces(s, i);
    var b := if a < |s| && s[a] == '(' then a + 1 else a;
    if !PageWordAt(s, b) then None
    else
      var c := SkipSpaces(s, b + 4);
      var d := SkipDigits(s, c);
      var e := SkipSpaces(s, d);
      if d == c || !OfWordAt(s, e) then None
      else
        var f := SkipSpaces(s, e + 2);
        var g := SkipDigits(s, f);
        var h := if g < |s| && s[g] == ')' then g + 1 else g;
        if g == f then None else Some(SkipSpaces(s, h))
  }

  /** `re.sub` of the page-number pattern with `""` (line 152) on the text
      from position `i` on: matches are sought from left to right, and the
      scan resumes after each one. */
  function RemoveFrom(s: string, i: nat): (r: string)
    requires i <= |s|
    ensures |r| <= |s| - i
    decreases |s| - i
  {
    if i == |s| then []
    else match PageMarkerEnd(s, i)
      case Some(j) => RemoveFrom(s, j)
      case None => [s[i]] + RemoveFrom(s, i + 1)
  }

  function RemovePageMarkers(s: string): (r: string)
    ensures |r| <= |s|
  {
    RemoveFrom(s, 0)
  }

  /** Lines 150-154: trim, drop page-number artifacts, and turn the text of a
      missing description (`"nan"`) into `""`. */
  function CleanDescription(text: string): string {
    var r := RemovePageMarkers(Strip(text));
    if r == "nan" then "" else r
  }

  // Page-number artifacts and the footer filter

  /** Where no `page` occurs (ignoring case), no artifact can match. */
  lemma {:induction false} NoMarkerWithoutPage(s: string, i: nat)
    requires i <= |s| && !Contains(Lower(s), "page")
    ensures PageMarkerEnd(s, i) == None
  {
    var a := SkipSpaces(s, i);
    var b := if a < |s| && s[a] == '(' then a + 1 else a;
    if PageWordAt(s, b) {
      assert s[..|s|] == s;
      PageWordInText(s, s, b);
      assert false;
    }
  }

  /** Text in which `page` does not occur (ignoring case) loses nothing to
      line 152. */
  lemma {:induction false} RemoveFromWithoutPage(s: string, i: nat)
    requires i <= |s| && !Contains(Lower(s), "page")
    ensures RemoveFrom(s, i) == s[i..]
    decreases |s| - i
  {
    if i < |s| {
      NoMarkerWithoutPage(s, i);
      RemoveFromWithoutPage(s, i + 1);
      assert s[i..] == [s[i]] + s[i + 1..];
    }
  }

  /** The description filter at line 109 already drops every record whose
      description mentions `page`, so for the records that reach line 152
      removing page-number artifacts changes nothing. */
  lemma {:induction false} KeptDescriptionsHaveNoPageMarkers(t: Transaction)
    requires Keep(t)
    ensures var d := Strip(CellText(t, Description)); RemovePageMarkers(d) == d
  {
    var text := CellText(t, Description);
    assert FooterMarkers[1] == "page";
    assert !Contains(FilterDescription(t), "page");
    if Description !in t {
      if Contains(Lower(text), "page") {
        ContainsNeedsRoom(Lower(text), "page");
        assert false;
      }
    } else if t[Description].None? {
      forall i | 0 <= i < 4 ensures Lower(text)[i] == "none"[i] {
        LowerAt(text, i);
      }
      assert Lower(text) == FilterDescription(t);
    } else {
      assert Lower(text) == FilterDescription(t);
    }
    assert !Contains(Lower(text), "page");
    StripFacts(text);
    var a: int, b: int :| 0 <= a <= b <= |text| && Strip(text) == text[a..b];
    LowerSlice(text, a, b);
    if Contains(Lower(text)[a..b], "page") {
      ContainsInSlice(Lower(text), "page", a, b);
      assert false;
    }
    RemoveFromWithoutPage(Strip(text), 0);
  }

  /** A page-number artifact as statements print it, e.g. `(Page 2 of 10)`. */
  function PageMarker(page: nat, pages: nat): string {
    "(Page " + NatDigits(page) + " of " + NatDigits(pages) + ")"
  }

  lemma {:induction false} SkipDigitsOver(s: string, i: nat, n: nat)
    requires i + n <= |s|
    requires forall k :: i <= k < i + n ==> IsDigit(s[k])
    requires i + n == |s| || !IsDigit(s[i + n])
    ensures SkipDigits(s, i) == i + n
    decreases n
  {
    if n > 0 {
      SkipDigitsOver(s, i + 1, n - 1);
    }
  }

  /** The pattern of line 152 matches a space and a whole artifact. */
  lemma {:induction false} PageMarkerRecognised(s: string, i: nat, page: nat, pages: nat)
    requires i <= |s| && s[i..] == " " + PageMarker(page, pages)
    ensures PageMarkerEnd(s, i) == Some(|s|)
  {
    var n1, n2 := |NatDigits(page)|, |NatDigits(pages)|;
    MarkerLayout(s, i, page, pages);
    MarkerSkips(s, i, n1, n2);
  }

  /** Where the characters of an artifact sit. */
  lemma {:induction false} MarkerLayout(s: string, i: nat, page: nat, pages: nat)
    requires i <= |s| && s[i..] == " " + PageMarker(page, pages)
    ensures var n1, n2 := |NatDigits(page)|, |NatDigits(pages)|;
      && n1 > 0 && n2 > 0 && |s| == i + 12 + n1 + n2
      && s[i] == ' ' && s[i + 1] == '(' && PageWordAt(s, i + 2) && s[i + 6] == ' '
      && (forall k :: i + 7 <= k < i + 7 + n1 ==> IsDigit(s[k]))
      && s[i + 7 + n1] == ' ' && OfWordAt(s, i + 8 + n1) && s[i + 10 + n1] == ' '
      && (forall k :: i + 11 + n1 <= k < i + 11 + n1 + n2 ==> IsDigit(s[k]))
      && s[i + 11 + n1 + n2] == ')'
  {
    var d1, d2 := NatDigits(page), NatDigits(pages);
    var n1, n2 := |d1|, |d2|;
    var t := s[i..];
    assert t == " (Page " + d1 + " of " + d2 + ")";
    forall k | i + 7 <= k < i + 7 + n1 ensures IsDigit(s[k]) {
      assert s[k] == t[k - i] == d1[k - i - 7];
    }
    forall k | i + 11 + n1 <= k < i + 11 + n1 + n2 ensures IsDigit(s[k]) {
      assert s[k] == t[k - i] == d2[k - i - 11 - n1];
    }
    assert t[0] == ' ' && t[1] == '(' && t[2] == 'P' && t[3] == 'a' && t[4] == 'g' && t[5] == 'e' && t[6] == ' ';
    assert t[7 + n1] == ' ' && t[8 + n1] == 'o' && t[9 + n1] == 'f' && t[10 + n1] == ' ';
    assert t[11 + n1 + n2] == ')';
  }

  /** How the scans of `PageMarkerEnd` run over an artifact whose numbers have
      `n1` and `n2` digits. */
  lemma {:induction false} MarkerSkips(s: string, i: nat, n1: nat, n2: nat)
    requires n1 > 0 && n2 > 0 && |s| == i + 12 + n1 + n2
    requires s[i] == ' ' && s[i + 1] == '(' && PageWordAt(s, i + 2) && s[i + 6] == ' '
    requires forall k :: i + 7 <= k < i + 7 + n1 ==> IsDigit(s[k])
    requires s[i + 7 + n1] == ' ' && OfWordAt(s, i + 8 + n1) && s[i + 10 + n1] == ' '
    requires forall k :: i + 11 + n1 <= k < i + 11 + n1 + n2 ==> IsDigit(s[k])
    requires s[i + 11 + n1 + n2] == ')'
    ensures PageMarkerEnd(s, i) == Some(|s|)
  {
    OneSpace(s, i);
    OneSpace(s, i + 6);
    SkipDigitsOver(s, i + 7, n1);
    var d := i + 7 + n1;
    OneSpace(s, d);
    OneSpace(s, d + 3);
    SkipDigitsOver(s, d + 4, n2);
    MarkerEndAt(s, i, n1, n2);
  }

  /** A single white-space character is skipped, and the scan stops after it. */
  lemma OneSpace(s: string, j: nat)
    requires j + 1 < |s| && IsSpace(s[j]) && !IsSpace(s[j + 1])
    ensures SkipSpaces(s, j) == j + 1 && SkipSpaces(s, j + 1) == j + 1
  {
  }

  lemma MarkerEndAt(s: string, i: nat, n1: nat, n2: nat)
    requires i + 12 + n1 + n2 <= |s| && n1 > 0 && n2 > 0
    requires SkipSpaces(s, i) == i + 1 && s[i + 1] == '(' && PageWordAt(s, i + 2)
    requires SkipSpaces(s, i + 6) == i + 7 && SkipDigits(s, i + 7) == i + 7 + n1
    requires SkipSpaces(s, i + 7 + n1) == i + 8 + n1 && OfWordAt(s, i + 8 + n1)
    requires SkipSpaces(s, i + 10 + n1) == i + 11 + n1 && SkipDigits(s, i + 11 + n1) == i + 11 + n1 + n2
    requires s[i + 11 + n1 + n2] == ')' && SkipSpaces(s, i + 12 + n1 + n2) == i + 12 + n1 + n2
    ensures PageMarkerEnd(s, i) == Some(i + 12 + n1 + n2)
  {
  }

  lemma {:induction false} SkipSpacesStops(s: string, i: nat, j: nat)
    requires i <= j < |s| && !IsSpace(s[j])
    ensures SkipSpaces(s, i) <= j
    decreases j - i
  {
    if i < j && IsSpace(s[i]) {
      SkipSpacesStops(s, i + 1, j);
    }
  }

  /** No artifact starts inside text that does not mention `page` and does not
      end in white space, when a space follows it. */
  lemma {:induction false} NoMarkerInText(s: string, x: string, i: nat)
    requires |x| < |s| && s[..|x|] == x && s[|x|] == ' '
    requires i < |x| && !IsSpace(x[|x| - 1]) && !Contains(Lower(x), "page")
    ensures PageMarkerEnd(s, i) == None
  {
    var last := |x| - 1;
    assert s[last] == x[last];
    SkipSpacesStops(s, i, last);
    var a := SkipSpaces(s, i);
    var b := if a < |s| && s[a] == '(' then a + 1 else a;
    if PageWordAt(s, b) {
      if b + 4 <= |x| {
        PageWordInText(s, x, b);
      }
      assert false;
    }
  }

  lemma {:induction false} PageWordInText(s: string, x: string, b: nat)
    requires b + 4 <= |x| <= |s| && s[..|x|] == x && PageWordAt(s, b)
    ensures Contains(Lower(x), "page")
  {
    forall k | b <= k < b + 4 ensures Lower(x)[k] == LowerChar(s[k]) {
      LowerAt(x, k);
      assert s[k] == x[k];
    }
    assert Lower(x)[b..b + 4] == "page";
    OccurrenceIsContained(Lower(x), "page", b);
  }

  /** Up to an artifact that follows it, such text is copied unchanged. */
  lemma {:induction false} RemoveFromText(s: string, x: string, i: nat)
    requires |x| < |s| && s[..|x|] == x && s[|x|] == ' '
    requires 0 < |x| && i <= |x| && !IsSpace(x[|x| - 1]) && !Contains(Lower(x), "page")
    ensures RemoveFrom(s, i) == x[i..] + RemoveFrom(s, |x|)
  {
    forall k | i <= k < |x| ensures PageMarkerEnd(s, k) == None {
      NoMarkerInText(s, x, k);
    }
    RemoveFromUnmarked(s, i, |x|);
    assert s[i..|x|] == x[i..];
  }

  /** Where no marker starts, `re.sub` copies the text unchanged. */
  lemma {:induction false} RemoveFromUnmarked(s: string, i: nat, n: nat)
    requires i <= n <= |s|
    requires forall k :: i <= k < n ==> PageMarkerEnd(s, k) == None
    ensures RemoveFrom(s, i) == s[i..n] + RemoveFrom(s, n)
    decreases n - i
  {
    if i < n {
      RemoveFromUnmarked(s, i + 1, n);
      SliceCons(s, i, n);
      AppendAssociative([s[i]], s[i + 1..n], RemoveFrom(s, n));
    }
  }

  /** A trailing `(Page N of M)` artifact is removed from a description, and
      the text before it is kept. */
  lemma {:induction false} TrailingMarkerRemoved(x: string, page: nat, pages: nat)
    requires x != "" && !IsSpace(x[0]) && !IsSpace(x[|x| - 1])
    requires !Contains(Lower(x), "page") && x != "nan"
    ensures CleanDescription(x + " " + PageMarker(page, pages)) == x
  {
    var s := x + " " + PageMarker(page, pages);
    assert s[0] == x[0] && s[|s| - 1] == ')';
    StripUnpadded(s);
    MarkerAfterText(x, page, pages);
  }

  lemma MarkerAfterText(x: string, page: nat, pages: nat)
    requires x != "" && !IsSpace(x[|x| - 1]) && !Contains(Lower(x), "page")
    ensures RemovePageMarkers(x + " " + PageMarker(page, pages)) == x
  {
    var m := PageMarker(page, pages);
    var s := x + " " + m;
    AppendAssociative(x, " ", m);
    PrefixOfAppend(x, " " + m);
    SuffixOfAppend(x, " " + m);
    RemoveFromText(s, x, 0);
    PageMarkerRecognised(s, |x|, page, pages);
    assert x[0..] == x;
  }

  // ---------------------------------------------------------------------------
  // The output table (sbi_parser.py:116-163)
  // ---------------------------------------------------------------------------

  /** The date of a record (line 143): its Date text parsed day first. A
      record without Date text has none. */
  function RecordDate(t: Transaction, parseDate: DateParser): Option<CalendarDate> {
    if Date in t && t[Date].Some? then parseDate(t[Date].value) else None
  }

  /** Line 158: no description and all three amounts zero. */
  predicate IsBlankRow(row: SbiRow) {
    row.description == "" && row.debit == 0.0 && row.credit == 0.0 && row.balance == 0.0
  }

  /** What lines 129-158 make of one collected record: nothing when its date
      does not parse (145) or when it is blank once cleaned (158). */
  function CleanRecord(t: Transaction, parseDate: DateParser): Option<SbiRow> {
    match RecordDate(t, parseDate)
    case None => None
    case Some(date) =>
      var row := SbiRow(date, CleanDescription(CellText(t, Description)),
        CleanAmount(CellText(t, Debit)), CleanAmount(CellText(t, Credit)), CleanAmount(CellText(t, Balance)));
      if IsBlankRow(row) then None else Some(row)
  }

  /** The output rows of the collected records, in record order. */
  function Finalize(records: seq<Transaction>, parseDate: DateParser): seq<SbiRow> {
    FilterMap(Cleaner(parseDate), records)
  }

  /** `CleanRecord` with the date parser fixed. */
  function Cleaner(parseDate: DateParser): Transaction -> Option<SbiRow> {
    t => CleanRecord(t, parseDate)
  }

  /** The column cleaning and row dropping of lines 119-163. Every step there
      works row by row, so it is done here one record at a time. */
  method CleanTable(records: seq<Transaction>, parseDate: DateParser) returns (df: seq<SbiRow>)
    ensures df == Finalize(records, parseDate)
  {
    df := [];
    var i := 0;
    while i < |records|
      invariant 0 <= i <= |records|
      invariant df == Finalize(records[..i], parseDate)
    {
      var row := CleanRecord(records[i], parseDate);
      if row.Some? {
        df := df + [row.value];
      }
      FilterMapSnoc(Cleaner(parseDate), records, i);
      assert Cleaner(parseDate)(records[i]) == row;
      i := i + 1;
    }
    TakeAll(records);
  }

  /** Cleaning keeps the order of the records: the rows of two runs of
      records are the rows of the first followed by those of the second. */
  lemma FinalizeConcat(a: seq<Transaction>, b: seq<Transaction>, parseDate: DateParser)
    ensures Finalize(a + b, parseDate) == Finalize(a, parseDate) + Finalize(b, parseDate)
  {
    FilterMapConcat(Cleaner(parseDate), a, b);
  }

  /** A row is in the output exactly when some collected record cleans to
      it; so every output row has a parsed date and is not blank. */
  lemma FinalizeMembership(records: seq<Transaction>, parseDate: DateParser, row: SbiRow)
    ensures row in Finalize(records, parseDate) <==> exists t :: t in records && CleanRecord(t, parseDate) == Some(row)
    ensures row in Finalize(records, parseDate) ==> !IsBlankRow(row)
  {
    var clean := Cleaner(parseDate);
    FilterMapMembership(clean, records, row);
    assert forall t :: clean(t) == CleanRecord(t, parseDate);
  }

  // ---------------------------------------------------------------------------
  // The whole statement (sbi_parser.py:6-163)
  // ---------------------------------------------------------------------------

  /** The output table the parser is evidently meant to produce: the cleaned
      rows of every record gathered from every table of every page. */
  function IntendedParse(pages: seq<Page>, parseDate: DateParser): seq<SbiRow> {
    Finalize(ExtractRecords(pages), parseDate)
  }

  /** The output table as the code is written: when the first row the header
      search examines is empty, line 69 raises and the handler at 112-114
      returns an empty table. */
  function ParseAsWritten(pages: seq<Page>, parseDate: DateParser): seq<SbiRow> {
    if HeaderScanCrashes(pages) then [] else IntendedParse(pages, parseDate)
  }

  /** `parse` (sbi_parser.py:6-163), with the PDF already split into pages of
      tables and date parsing passed in. */
  method ParseStatement(pages: seq<Page>, parseDate: DateParser) returns (df: seq<SbiRow>)
    ensures df == ParseAsWritten(pages, parseDate)
  {
    var allTransactionsData, crashed := CollectRecords(pages);
    if crashed {
      return [];
    }
    if allTransactionsData == [] {
      return [];
    }
    df := CleanTable(allTransactionsData, parseDate);
  }

  /** Record order follows page order: the rows of two runs of pages are the
      rows of the first followed by those of the second. */
  lemma IntendedParseConcat(a: seq<Page>, b: seq<Page>, parseDate: DateParser)
    ensures IntendedParse(a + b, parseDate) == IntendedParse(a, parseDate) + IntendedParse(b, parseDate)
  {
    FlattenConcat(a, b);
    TablesRecordsConcat(Flatten(a), Flatten(b));
    FinalizeConcat(ExtractRecords(a), ExtractRecords(b), parseDate);
  }

  // ---------------------------------------------------------------------------
  // Where records come from, and the empty first row
  // ---------------------------------------------------------------------------

  /** A record is kept from the data rows exactly when some data row yields
      it and it passes the filters of lines 100-110. */
  lemma DataRecordsMembership(rows: seq<Row>, m: ColumnMap, x: Transaction)
    ensures x in DataRecords(rows, m) <==> Keep(x) && exists i :: 0 <= i < |rows| && x == RowTransaction(rows[i], m)
  {
    if x in DataRecords(rows, m) {
      DataRecordsFrom(rows, m, x);
    }
    if Keep(x) && exists i :: 0 <= i < |rows| && x == RowTransaction(rows[i], m) {
      var i :| 0 <= i < |rows| && x == RowTransaction(rows[i], m);
      DataRecordsInclude(rows, m, i);
    }
  }

  lemma {:induction false} DataRecordsFrom(rows: seq<Row>, m: ColumnMap, x: Transaction)
    requires x in DataRecords(rows, m)
    ensures Keep(x) && exists i :: 0 <= i < |rows| && x == RowTransaction(rows[i], m)
  {
    var init := rows[..|rows| - 1];
    if x in DataRecords(init, m) {
      DataRecordsFrom(init, m, x);
      var i :| 0 <= i < |init| && x == RowTransaction(init[i], m);
      assert rows[i] == init[i];
    } else {
      assert x == RowTransaction(rows[|rows| - 1], m);
    }
  }

  lemma {:induction false} DataRecordsInclude(rows: seq<Row>, m: ColumnMap, i: nat)
    requires i < |rows| && Keep(RowTransaction(rows[i], m))
    ensures RowTransaction(rows[i], m) in DataRecords(rows, m)
  {
    var init := rows[..|rows| - 1];
    if i < |init| {
      DataRecordsInclude(init, m, i);
      assert rows[i] == init[i];
    }
  }


  /** Every record of a table comes from a row strictly below the table's
      first header row, through that header's column map, and passed the
      filters; a table without a header row gives none. */
  lemma {:induction false} TableRecordsProvenance(table: Table, x: Transaction)
    requires x in TableRecords(table)
    ensures FindHeader(table, 0).Some?
    ensures var h := FindHeader(table, 0).value;
      Keep(x) && exists r :: h.index < r < |table| && x == RowTransaction(table[r], h.mapping)
  {
    var h := FindHeader(table, 0).value;
    var rows := table[h.index + 1..];
    DataRecordsMembership(rows, h.mapping, x);
    var i :| 0 <= i < |rows| && x == RowTransaction(rows[i], h.mapping);
    assert rows[i] == table[h.index + 1 + i];
  }

  /** A row with no cells claims no column. */
  lemma {:induction false} NoCellsNoClaims(cols: seq<Column>, m: ColumnMap)
    ensures AssignColumns([], cols, m) == m
    decreases |cols|
  {
    if cols != [] {
      ClaimCellFacts([], Keywords(cols[0]), m.Keys);
      NoCellsNoClaims(cols[1..], m);
    }
  }

  lemma EmptyRowNeverQualifies()
    ensures !RowQualifies([])
  {
    NoCellsNoClaims(LogicalColumns, map[]);
  }

  /** With a non-qualifying empty row put in front, the search finds the same
      row, one position further down. */
  lemma {:induction false} FirstQualifyingAfterEmptyRow(table: Table, qualifies: Row -> bool, from: nat)
    requires !qualifies([])
    ensures FirstQualifying([[]] + table, qualifies, from + 1) == match FirstQualifying(table, qualifies, from)
      case Some(i) => Some(i + 1)
      case None => None
    decreases |table| - from
  {
    var padded: Table := [[]] + table;
    if from < |table| {
      assert padded[from + 1] == table[from];
      FirstQualifyingAfterEmptyRow(table, qualifies, from + 1);
    }
  }

  /** The evidently intended behaviour: an empty row in front of a table is
      just one more row that is not a header, and the table's records stay
      the same. */
  lemma {:induction false} LeadingEmptyRowIgnored(table: Table)
    ensures TableRecords([[]] + table) == TableRecords(table)
  {
    HeaderAfterEmptyRow(table);
    RecordsBelowEmptyRow(table, FindHeader(table, 0));
  }

  /** The header of a table with an empty row in front is the table's own
      header, one row further down. */
  lemma {:induction false} HeaderAfterEmptyRow(table: Table)
    ensures FindHeader([[]] + table, 0) == ShiftHeader(FindHeader(table, 0))
  {
    EmptyRowNeverQualifies();
    HeaderAtAfterEmptyRow(table, RowQualifies, RowMap);
  }

  /** The same for any rule that rejects an empty row. */
  lemma {:induction false} HeaderAtAfterEmptyRow(table: Table, qualifies: Row -> bool, mapOf: Row -> ColumnMap)
    requires !qualifies([])
    ensures HeaderAt([[]] + table, FirstQualifying([[]] + table, qualifies, 0), mapOf)
         == ShiftHeader(HeaderAt(table, FirstQualifying(table, qualifies, 0), mapOf))
  {
    var padded: Table := [[]] + table;
    assert padded[0] == [];
    FirstQualifyingSkip(padded, qualifies, 0);
    FirstQualifyingAfterEmptyRow(table, qualifies, 0);
    match FirstQualifying(table, qualifies, 0)
    case Some(i) => HeaderAtShift(table, i, mapOf);
    case None =>
  }

  lemma FirstQualifyingSkip(table: Table, qualifies: Row -> bool, from: nat)
    requires from < |table| && !qualifies(table[from])
    ensures FirstQualifying(table, qualifies, from) == FirstQualifying(table, qualifies, from + 1)
  {
  }

  lemma HeaderAtShift(table: Table, i: nat, mapOf: Row -> ColumnMap)
    requires i < |table|
    ensures HeaderAt([[]] + table, Some(i + 1), mapOf) == ShiftHeader(HeaderAt(table, Some(i), mapOf))
  {
    assert ([[]] + table)[i + 1] == table[i];
  }

  function ShiftHeader(h: Option<Header>): Option<Header> {
    match h
    case Some(header) => Some(Header(header.index + 1, header.mapping))
    case None => None
  }

  lemma {:induction false} RecordsBelowEmptyRow(table: Table, h: Option<Header>)
    ensures RecordsBelow([[]] + table, ShiftHeader(h)) == RecordsBelow(table, h)
  {
    var padded: Table := [[]] + table;
    if h.Some? && h.value.index < |table| {
      assert padded[h.value.index + 2..] == table[h.value.index + 1..];
    }
  }

  /** As written, a statement whose first table starts with an empty row
      comes out empty, whatever the rest of it holds. */
  lemma {:induction false} EmptyFirstRowEmptiesStatement(table: Table, rest: Page, more: seq<Page>, parseDate: DateParser)
    ensures ParseAsWritten([[[[]] + table] + rest] + more, parseDate) == []
  {
    var first: Page := [[[]] + table] + rest;
    var none: seq<Table> := [];
    FlattenConcat([first], more);
    assert Flatten([first][..0]) == none;
    assert Flatten([first]) == none + first;
    assert ScanCrashes(first);
    CrashPersists(first, Flatten(more));
  }

  /** As intended, the same statement yields the rows of the table without
      the empty row. */
  lemma {:induction false} EmptyFirstRowIntended(table: Table, parseDate: DateParser)
    ensures IntendedParse([[[[]] + table]], parseDate) == IntendedParse([[table]], parseDate)
  {
    var none: seq<Table> := [];
    var a: seq<Page> := [[[[]] + table]];
    var b: seq<Page> := [[table]];
    assert Flatten(a[..0]) == none && Flatten(b[..0]) == none;
    assert Flatten(a) == [[[]] + table] && Flatten(b) == [table];
    assert TablesRecords([[[]] + table]) == TableRecords([[]] + table) by {
      assert [[[]] + table][..0] == none;
    }
    assert TablesRecords([table]) == TableRecords(table) by {
      assert [table][..0] == none;
    }
    LeadingEmptyRowIgnored(table);
  }
}
