/**
 * An abstract worksheet: the cells written so far, the row from which rows
 * are hidden, whether the file was marked failed, and the texts whose sizes
 * were reported to the progress bar. Also the header row, the layout of a
 * data row and the pivot-sheet decision, which all three revisions share.
 */
module Worksheet {
  import opened Text
  import opened LogConstants
  import Utility
  import SheetNames

  /** A cell value: text, an integer, or an A1 formula. */
  datatype Cell = TextValue(text: Str) | Number(value: int) | Formula(expr: Str)

  /** Cells keyed by (row, column), both 1-based. */
  type Cells = map<(int, int), Cell>

  datatype Sheet = Sheet(cells: Cells, hiddenFrom: Option<int>, failed: bool, progress: seq<Str>)

  /** The result of a sequence of cell writes: all of them done, or an exception after some. */
  datatype Write = Written(cells: Cells) | Threw(cells: Cells)

  /** A cell the spreadsheet counts as empty: an empty text. */
  predicate IsBlank(c: Cell)
  {
    c.TextValue? && |c.text| == 0
  }

  /** `RangeUsed()` is not null: some cell holds a value. */
  predicate HasUsedRange(cells: Cells)
  {
    exists key :: key in cells && !IsBlank(cells[key])
  }

  /** The text `$"{cell.Value}"` shows; a formula is shown as its own text, an absent cell as "". */
  function CellText(cells: Cells, row: int, col: int): Str
  {
    if (row, col) !in cells then []
    else match cells[(row, col)]
      case TextValue(t) => t
      case Number(n) => IntStr(n)
      case Formula(e) => e
  }

  /** Every written cell lies in a row before `row`. */
  predicate AllAbove(cells: Cells, row: int)
  {
    forall key :: key in cells ==> key.0 < row
  }

  /** `a` and `b` agree on every row before `row`. */
  predicate SameAbove(a: Cells, b: Cells, row: int)
  {
    && (forall key :: key in a && key.0 < row ==> key in b && b[key] == a[key])
    && (forall key :: key in b && key.0 < row ==> key in a)
  }

  /** `a` and `b` agree outside row `row`. */
  predicate SameOutsideRow(a: Cells, b: Cells, row: int)
  {
    && (forall key :: key in a && key.0 != row ==> key in b && b[key] == a[key])
    && (forall key :: key in b && key.0 != row ==> key in a)
  }

  /** Row 1 holds header `k` in column `k + 1`. */
  predicate HoldsHeaderRow(cells: Cells, headers: seq<Str>)
  {
    forall k :: 0 <= k < |headers| ==> (1, k + 1) in cells && cells[(1, k + 1)] == TextValue(headers[k])
  }

  /**
   * The shape of a log sheet built from a valid file: rows are hidden from
   * some row on, no cell lies in the hidden rows except column 1 of the first
   * of them after a failure, row 1 holds the headers, and the header line is
   * the first text reported as progress.
   */
  predicate LogSheetShape(r: Sheet, headers: seq<Str>, header: Str)
  {
    && r.hiddenFrom.Some?
    && (forall key :: key in r.cells ==> key.0 < r.hiddenFrom.value || (r.failed && key == (r.hiddenFrom.value, 1)))
    && HoldsHeaderRow(r.cells, headers)
    && |r.progress| >= 1 && r.progress[0] == header
  }

  // ---------------------------------------------------------------------------
  // Header row

  /** `headers.Insert(2, "hour")`; the list holds `date` and `time`, so it has two entries. */
  function InsertHour(fields: seq<Str>): (h: seq<Str>)
    requires |fields| >= 2
    ensures |h| == |fields| + 1
    ensures h[2] == Hour
  {
    fields[..2] + [Hour] + fields[2..]
  }

  /** The column a data token at index `i` is meant for: columns 1 and 2, then past the hour column. */
  function ColumnOf(i: nat): int
  {
    if i < 2 then i + 1 else i + 2
  }

  /** The field name at index `i` heads the column that receives data token `i`. */
  lemma InsertHourAlignsFields(fields: seq<Str>, i: nat)
    requires |fields| >= 2 && i < |fields|
    ensures 1 <= ColumnOf(i) <= |InsertHour(fields)|
    ensures ColumnOf(i) != 3
    ensures InsertHour(fields)[ColumnOf(i) - 1] == fields[i]
  {
  }

  /** Row 1: header `k` in column `k + 1`. */
  function HeaderRow(headers: seq<Str>): (cells: Cells)
    ensures forall k :: 0 <= k < |headers| ==> (1, k + 1) in cells && cells[(1, k + 1)] == TextValue(headers[k])
    ensures forall key :: key in cells ==> key.0 == 1 && 1 <= key.1 <= |headers|
  {
    map c | 1 <= c <= |headers| :: (1, c) := TextValue(headers[c - 1])
  }

  /** A header row with `hour` in it has a used range. */
  lemma HeaderRowIsUsed(headers: seq<Str>)
    requires |headers| >= 3 && headers[2] == Hour
    ensures HasUsedRange(HeaderRow(headers))
  {
    assert (1, 3) in HeaderRow(headers) && !IsBlank(HeaderRow(headers)[(1, 3)]);
  }

  // ---------------------------------------------------------------------------
  // Data rows

  /** The value a token gets in a numeric column or elsewhere. */
  function TokenCell(special: set<int>, index: int, token: Str): Cell
  {
    if index in special then Number(Utility.GetValidNumber(token)) else TextValue(token)
  }

  /**
   * The cell column `col` of row `row` receives when a line's tokens are laid
   * out without repair: tokens 0 and 1, the hour formula, then token `col - 2`
   * in column `col`, numeric when header index `col - 1` is a numeric column.
   */
  function LaidOutCell(special: set<int>, values: seq<Str>, row: int, col: int): Cell
    requires |values| >= 2 && 1 <= col <= |values| + 1
  {
    if col < 3 then TextValue(values[col - 1])
    else if col == 3 then Formula(HourFormula(row))
    else TokenCell(special, col - 1, values[col - 2])
  }

  /** Columns `from`..`|values| + 1` of row `row`, laid out without repair. */
  function LaidOutRange(special: set<int>, values: seq<Str>, row: int, from: int): (cells: Cells)
    requires |values| >= 2 && from >= 1
  {
    map c | from <= c <= |values| + 1 :: (row, c) := LaidOutCell(special, values, row, c)
  }

  /** A column of the range holds its laid-out cell. */
  lemma LaidOutRangeAt(special: set<int>, values: seq<Str>, row: int, from: int, col: int)
    requires |values| >= 2 && 1 <= from <= col <= |values| + 1
    ensures (row, col) in LaidOutRange(special, values, row, from)
    ensures LaidOutRange(special, values, row, from)[(row, col)] == LaidOutCell(special, values, row, col)
  {
  }

  /** The range holds nothing outside its row and columns. */
  lemma LaidOutRangeMisses(special: set<int>, values: seq<Str>, row: int, from: int, key: (int, int))
    requires |values| >= 2 && from >= 1
    requires key.0 != row || key.1 < from || key.1 > |values| + 1
    ensures key !in LaidOutRange(special, values, row, from)
  {
  }

  /** The range from `from` is the range from `from + 1` with column `from` added. */
  lemma LaidOutRangeStep(special: set<int>, values: seq<Str>, row: int, from: int)
    requires |values| >= 2 && 1 <= from <= |values| + 1
    ensures LaidOutRange(special, values, row, from)
      == LaidOutRange(special, values, row, from + 1)[(row, from) := LaidOutCell(special, values, row, from)]
  {
  }

  /** An empty range past the last column. */
  lemma LaidOutRangeEmpty(special: set<int>, values: seq<Str>, row: int, from: int)
    requires |values| >= 2 && from > |values| + 1
    ensures LaidOutRange(special, values, row, from) == map[]
  {
  }

  /** Writing a cell and then a range that misses it is writing the range with the cell added. */
  lemma WriteThenMerge(cells: Cells, key: (int, int), c: Cell, range: Cells)
    requires key !in range
    ensures cells[key := c] + range == cells + range[key := c]
  {
  }

  /** `AddRowData`: columns 1-2 raw, column 3 the hour formula, then the tokens from index 2 on. */
  function AddRowData(cells: Cells, special: set<int>, values: seq<Str>, row: int): Write
  {
    if |values| == 0 then Threw(cells)
    else if |values| == 1 then Threw(cells[(row, 1) := TextValue(values[0])])
    else Written(cells + LaidOutRange(special, values, row, 1))
  }

  /** The expected cell of token `i`: raw in columns 1-2, typed by its header index afterwards. */
  function TokenAt(special: set<int>, values: seq<Str>, i: nat): Cell
    requires i < |values|
  {
    if i < 2 then TextValue(values[i]) else TokenCell(special, i + 1, values[i])
  }

  lemma LaidOutToken(special: set<int>, values: seq<Str>, row: int, i: nat)
    requires |values| >= 2 && i < |values|
    ensures 1 <= ColumnOf(i) <= |values| + 1
    ensures LaidOutCell(special, values, row, ColumnOf(i)) == TokenAt(special, values, i)
  {
    if i >= 2 {
      var col := i + 2;
      assert ColumnOf(i) == col && col - 2 == i && col - 1 == i + 1;
    }
  }

  /**
   * Each token lands in the column of its header, numeric exactly where the
   * header index is a numeric column; column 3 reads cell B of the same row;
   * nothing else in the sheet changes.
   */
  lemma AddRowDataPlacesTokens(cells: Cells, special: set<int>, values: seq<Str>, row: int)
    requires |values| >= 2
    ensures AddRowData(cells, special, values, row).Written?
    ensures forall i :: 0 <= i < |values| ==>
      var w := AddRowData(cells, special, values, row).cells;
      (row, ColumnOf(i)) in w && w[(row, ColumnOf(i))] == TokenAt(special, values, i)
    ensures var w := AddRowData(cells, special, values, row).cells;
      (row, 3) in w && w[(row, 3)] == Formula(HourFormula(row))
    ensures var w := AddRowData(cells, special, values, row).cells;
      forall key: (int, int) :: key.0 != row || key.1 < 1 || key.1 > |values| + 1 ==>
        (key in w <==> key in cells) && (key in w ==> w[key] == cells[key])
  {
    var laid := LaidOutRange(special, values, row, 1);
    var w := AddRowData(cells, special, values, row).cells;
    assert w == cells + laid;
    forall i | 0 <= i < |values|
      ensures (row, ColumnOf(i)) in w && w[(row, ColumnOf(i))] == TokenAt(special, values, i)
    {
      LaidOutToken(special, values, row, i);
      assert (row, ColumnOf(i)) in laid;
    }
    assert (row, 3) in laid;
  }

  /** A row write, finished or not, touches only its own row. */
  lemma AddRowDataInRow(cells: Cells, special: set<int>, values: seq<Str>, row: int)
    ensures var w := AddRowData(cells, special, values, row).cells;
      && SameOutsideRow(cells, w, row)
      && (forall key :: key in w && key !in cells ==> key.0 == row)
      && (|values| < 2 ==> forall key :: key in w && key !in cells ==> key == (row, 1))
  {
    if |values| >= 2 {
      var laid := LaidOutRange(special, values, row, 1);
      assert forall key :: key in laid ==> key.0 == row;
    }
  }

  /** A line with fewer than two tokens throws at `values[1]`, after column 1 of a one-token line. */
  lemma AddRowDataThrowsOnShortLine(cells: Cells, special: set<int>, values: seq<Str>, row: int)
    requires |values| < 2
    ensures AddRowData(cells, special, values, row).Threw?
    ensures |values| == 1 ==> AddRowData(cells, special, values, row).cells == cells[(row, 1) := TextValue(values[0])]
    ensures |values| == 0 ==> AddRowData(cells, special, values, row).cells == cells
  {
  }

  // ---------------------------------------------------------------------------
  // Pivot sheet

  datatype Summary = Count | Average

  /** The pivot table: time as row label, hour as report filter, two summarised values. */
  datatype PivotTable = PivotTable(rowLabel: Str, filter: Str, values: seq<(Str, Str, Summary)>)

  const StandardPivot: PivotTable :=
    PivotTable(Time, Hour, [(UriStem, U("cs-uri-stem[count]"), Count), (TimeTaken, U("time-taken[avg]"), Average)])

  /** The fields the standard pivot table names: the row label, the filter and the two summarised fields. */
  const PivotFields: seq<Str> := [Time, Hour, UriStem, TimeTaken]

  /**
   * The outcome of `SetupPivotSheet`: the names of the workbook's sheets after
   * it, the pivot table made, and whether the file was marked failed.
   */
  datatype PivotOutcome = PivotOutcome(sheetNames: seq<Str>, table: Option<PivotTable>, failed: bool)

  /**
   * `SetupPivotSheet`, both guarded revisions. `fields` are the texts of the
   * used range's first row, the field names the pivot table can use. No used
   * range marks the file failed and adds nothing. Otherwise `Pivot_<name>` is
   * added; a name the workbook refuses throws before anything is added, and a
   * missing pivot field throws after the sheet was added. Both are caught and
   * mark the file failed.
   */
  function SetupPivotSheet(sheetNames: seq<Str>, cells: Cells, fields: seq<Str>, sheetName: Str): (r: PivotOutcome)
    ensures !HasUsedRange(cells) ==> r.sheetNames == sheetNames && r.failed
    ensures r.table.Some? <==>
      HasUsedRange(cells) && SheetNames.AddSheet(sheetNames, PivotName(sheetName)).Some?
      && forall f :: f in PivotFields ==> f in fields
    ensures r.table.Some? ==> r.table == Some(StandardPivot)
    ensures r.failed <==> r.table.None?
    ensures HasUsedRange(cells) && SheetNames.AddSheet(sheetNames, PivotName(sheetName)).Some? ==>
      r.sheetNames == sheetNames + [PivotName(sheetName)]
    ensures SheetNames.AddSheet(sheetNames, PivotName(sheetName)).None? ==> r.sheetNames == sheetNames
  {
    if !HasUsedRange(cells) then PivotOutcome(sheetNames, None, true)
    else
      match SheetNames.AddSheet(sheetNames, PivotName(sheetName))
      case None => PivotOutcome(sheetNames, None, true)
      case Some(withPivot) =>
        if forall f :: f in PivotFields ==> f in fields then PivotOutcome(withPivot, Some(StandardPivot), false)
        else PivotOutcome(withPivot, None, true)
  }

  /**
   * With a used range, the sheets after `SetupPivotSheet` are those of the
   * guarded pivot step of `CreateSingleFile`, whatever the fields: the
   * workbook grows by exactly `Pivot_<name>` when no sheet has that name
   * ignoring case, and is kept otherwise.
   */
  lemma PivotSheetIsGuardedStep(sheetNames: seq<Str>, cells: Cells, fields: seq<Str>, sheetName: Str)
    requires HasUsedRange(cells)
    ensures SheetNames.PivotStep(sheetNames, sheetName, true) == Some(SetupPivotSheet(sheetNames, cells, fields, sheetName).sheetNames)
    ensures SetupPivotSheet(sheetNames, cells, fields, sheetName).sheetNames == sheetNames + [PivotName(sheetName)] <==>
      forall j :: 0 <= j < |sheetNames| ==> !SheetNames.SameIgnoringCase(sheetNames[j], PivotName(sheetName))
  {
  }

  /** A log without one of the pivot fields leaves an empty `Pivot_<name>` sheet behind and the file marked failed. */
  lemma MissingFieldLeavesSheet(sheetNames: seq<Str>, cells: Cells, fields: seq<Str>, sheetName: Str)
    requires HasUsedRange(cells) && UriStem !in fields
    requires forall j :: 0 <= j < |sheetNames| ==> !SheetNames.SameIgnoringCase(sheetNames[j], PivotName(sheetName))
    ensures SetupPivotSheet(sheetNames, cells, fields, sheetName) == PivotOutcome(sheetNames + [PivotName(sheetName)], None, true)
  {
    assert UriStem in PivotFields;
  }
}
