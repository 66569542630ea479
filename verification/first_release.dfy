/**
 * The first release's `SetupLogData`: the header is taken as written, each
 * data line is laid out without repair, and the last token always goes to
 * the last header column. Nothing catches an exception, so a line without a
 * space ends the whole batch.
 */
module FirstRelease {
  import opened Text
  import opened LogConstants
  import Utility
  import LogSchema
  import opened Worksheet

  /** The header tokens: the header line split on ' ', neither cleaned nor lower-cased. */
  function RawFields(first: Str): (r: seq<Str>)
    ensures |r| == multiset(LogSchema.HeaderLine(first))[Space] + 1
  {
    SplitCount(LogSchema.HeaderLine(first), Space);
    Split(LogSchema.HeaderLine(first), Space)
  }

  /** The kept lines start with a header naming `date` and `time` verbatim. */
  predicate HasRawHeader(kept: seq<Str>)
  {
    |kept| > 0 && LogSchema.HasDateTime(RawFields(kept[0]))
  }

  /** Whether a line of two or more tokens writes column `col`: columns 1 to 3, 4 to |values|, and `width`. */
  predicate RowColumn(values: seq<Str>, width: int, col: int)
  {
    1 <= col && (col <= 3 || col <= |values| || col == width)
  }

  /**
   * The cell a line of two or more tokens leaves in column `col`, the writes
   * taken in `SetupLogData`'s order so that the last one wins: token 0 in
   * column 1, token 1 in column 2, the hour formula in column 3, token
   * `col - 2` in columns 4 to |values|, and last `timeTaken`, the final
   * token read as an integer, in column `width`.
   */
  function RowCell(values: seq<Str>, row: int, width: int, timeTaken: int, col: int): Cell
    requires |values| >= 2 && RowColumn(values, width, col)
  {
    if col == width then Number(timeTaken)
    else if col == 1 then TextValue(values[0])
    else if col == 2 then TextValue(values[1])
    else if col == 3 then Formula(HourFormula(row))
    else TextValue(values[col - 2])
  }

  /** The cells one data line writes into `row`; a one-token line gets only column 1 before it throws. */
  function RowCells(values: seq<Str>, row: int, width: int, timeTaken: int): (m: Cells)
    requires |values| >= 1
    ensures forall key :: key in m ==> key.0 == row
    ensures (row, 1) in m
  {
    if |values| < 2 then map[(row, 1) := TextValue(values[0])]
    else
      var last := if width > |values| then width else |values| + 3;
      var m := map c | 1 <= c <= last && RowColumn(values, width, c) :: (row, c) := RowCell(values, row, width, timeTaken, c);
      assert (row, 1) in m;
      m
  }

  /** Column `col` of a row with two or more tokens is written exactly when it is a row column. */
  lemma RowCellsAt(values: seq<Str>, row: int, width: int, timeTaken: int, col: int)
    requires |values| >= 2
    ensures (row, col) in RowCells(values, row, width, timeTaken) <==> RowColumn(values, width, col)
    ensures RowColumn(values, width, col) ==> RowCells(values, row, width, timeTaken)[(row, col)] == RowCell(values, row, width, timeTaken, col)
  {
  }

  /** `int.TryParse` of the last token, 0 when it does not parse. */
  function TimeTaken(values: seq<Str>): int
    requires |values| >= 1
  {
    Utility.GetValidNumber(values[|values| - 1])
  }

  /** Writes one line's cells; reading `values[1]` of a one-token line throws after column 1. */
  function WriteRow(cells: Cells, values: seq<Str>, row: int, width: int): (w: Write)
    requires |values| >= 1
    ensures w.Threw? <==> |values| < 2
    ensures SameOutsideRow(cells, w.cells, row)
  {
    var c := cells + RowCells(values, row, width, TimeTaken(values));
    MergeIntoRow(cells, RowCells(values, row, width, TimeTaken(values)), row);
    if |values| < 2 then Threw(c) else Written(c)
  }

  /** Cells merged into one row leave every other row as it was. */
  lemma MergeIntoRow(cells: Cells, m: Cells, row: int)
    requires forall key :: key in m ==> key.0 == row
    ensures SameOutsideRow(cells, cells + m, row)
  {
  }

  /**
   * A row's layout: columns 1 and 2 hold tokens 0 and 1 and column 3 the
   * formula on the row's own B cell, unless column `width` is one of them;
   * column `c` from 4 on holds token `c - 2`, again unless `c` is `width`;
   * column `width` holds `timeTaken`, which `WriteRow` takes from the last
   * token by `TimeTaken`; and no other column is written.
   */
  lemma RowLayout(values: seq<Str>, row: int, width: int, timeTaken: int)
    requires |values| >= 2 && width >= 3
    ensures var m := RowCells(values, row, width, timeTaken);
      && (row, width) in m && m[(row, width)] == Number(timeTaken)
      && (row, 1) in m && m[(row, 1)] == TextValue(values[0])
      && (row, 2) in m && m[(row, 2)] == TextValue(values[1])
      && (width != 3 ==> (row, 3) in m && m[(row, 3)] == Formula(HourFormula(row)))
    ensures var m := RowCells(values, row, width, timeTaken);
      forall c :: 4 <= c <= |values| && c != width ==> (row, c) in m && m[(row, c)] == TextValue(values[c - 2])
    ensures forall key :: key in RowCells(values, row, width, timeTaken) ==> key.0 == row && RowColumn(values, width, key.1)
  {
    RowLayoutFront(values, row, width, timeTaken);
    RowLayoutMiddle(values, row, width, timeTaken);
    RowColumnsOnly(values, row, width, timeTaken);
  }

  lemma RowLayoutFront(values: seq<Str>, row: int, width: int, timeTaken: int)
    requires |values| >= 2 && width >= 3
    ensures var m := RowCells(values, row, width, timeTaken);
      && (row, width) in m && m[(row, width)] == Number(timeTaken)
      && (row, 1) in m && m[(row, 1)] == TextValue(values[0])
      && (row, 2) in m && m[(row, 2)] == TextValue(values[1])
      && (width != 3 ==> (row, 3) in m && m[(row, 3)] == Formula(HourFormula(row)))
  {
    RowCellsAt(values, row, width, timeTaken, width);
    RowCellsAt(values, row, width, timeTaken, 1);
    RowCellsAt(values, row, width, timeTaken, 2);
    RowCellsAt(values, row, width, timeTaken, 3);
  }

  lemma RowLayoutMiddle(values: seq<Str>, row: int, width: int, timeTaken: int)
    requires |values| >= 2
    ensures var m := RowCells(values, row, width, timeTaken);
      forall c :: 4 <= c <= |values| && c != width ==> (row, c) in m && m[(row, c)] == TextValue(values[c - 2])
  {
    forall c | 4 <= c <= |values| && c != width
      ensures (row, c) in RowCells(values, row, width, timeTaken) && RowCells(values, row, width, timeTaken)[(row, c)] == TextValue(values[c - 2])
    {
      RowCellsAt(values, row, width, timeTaken, c);
    }
  }

  lemma RowColumnsOnly(values: seq<Str>, row: int, width: int, timeTaken: int)
    requires |values| >= 2
    ensures forall key :: key in RowCells(values, row, width, timeTaken) ==> key.0 == row && RowColumn(values, width, key.1)
  {
    forall key | key in RowCells(values, row, width, timeTaken)
      ensures key.0 == row && RowColumn(values, width, key.1)
    {
      RowCellsAt(values, row, width, timeTaken, key.1);
    }
  }

  /**
   * A line with one token per field lines up with the header: token `i`
   * lands in the column headed by field `i`, the hour formula under `hour`,
   * and the last token, read as a number, under the last field.
   */
  lemma MatchingLineAligns(fields: seq<Str>, values: seq<Str>, row: int, timeTaken: int)
    requires |fields| >= 3 && |values| == |fields|
    ensures var headers := InsertHour(fields);
      var m := RowCells(values, row, |headers|, timeTaken);
      headers[2] == Hour && (row, 3) in m && m[(row, 3)] == Formula(HourFormula(row))
    ensures var headers := InsertHour(fields);
      var m := RowCells(values, row, |headers|, timeTaken);
      forall i :: 0 <= i < |values| - 1 ==>
        (row, ColumnOf(i)) in m && m[(row, ColumnOf(i))] == TextValue(values[i]) && headers[ColumnOf(i) - 1] == fields[i]
    ensures ColumnOf(|fields| - 1) == |InsertHour(fields)| && InsertHour(fields)[|fields|] == fields[|fields| - 1]
    ensures var m := RowCells(values, row, |fields| + 1, timeTaken);
      (row, |fields| + 1) in m && m[(row, |fields| + 1)] == Number(timeTaken)
  {
    var headers := InsertHour(fields);
    RowLayoutFront(values, row, |headers|, timeTaken);
    forall i | 0 <= i < |values| - 1
      ensures var m := RowCells(values, row, |headers|, timeTaken);
        (row, ColumnOf(i)) in m && m[(row, ColumnOf(i))] == TextValue(values[i]) && headers[ColumnOf(i) - 1] == fields[i]
    {
      TokenAligns(fields, values, row, timeTaken, i);
    }
    LastFieldAligns(fields);
  }

  /** The last field heads the last column. */
  lemma LastFieldAligns(fields: seq<Str>)
    requires |fields| >= 3
    ensures ColumnOf(|fields| - 1) == |InsertHour(fields)| && InsertHour(fields)[|fields|] == fields[|fields| - 1]
  {
    InsertHourAlignsFields(fields, |fields| - 1);
  }

  /** One token of a matching line, in the column of its field. */
  lemma TokenAligns(fields: seq<Str>, values: seq<Str>, row: int, timeTaken: int, i: int)
    requires |fields| >= 3 && |values| == |fields| && 0 <= i < |values| - 1
    ensures var headers := InsertHour(fields);
      var m := RowCells(values, row, |headers|, timeTaken);
      (row, ColumnOf(i)) in m && m[(row, ColumnOf(i))] == TextValue(values[i]) && headers[ColumnOf(i) - 1] == fields[i]
  {
    var width := |fields| + 1;
    InsertHourAlignsFields(fields, i);
    RowCellsAt(values, row, width, timeTaken, ColumnOf(i));
  }

  /**
   * A line with more tokens than the header has columns writes past the
   * header: its second-to-last token lands in a column that has no header.
   */
  lemma LongLineSpillsPastHeader(fields: seq<Str>, values: seq<Str>, row: int, timeTaken: int)
    requires |fields| >= 2 && |values| > |fields| + 1
    ensures var width := |InsertHour(fields)|;
      && (row, |values|) in RowCells(values, row, width, timeTaken)
      && |values| > width
      && RowCells(values, row, width, timeTaken)[(row, |values|)] == TextValue(values[|values| - 2])
  {
    RowLayout(values, row, |InsertHour(fields)|, timeTaken);
  }

  // ---------------------------------------------------------------------------
  // The line loop

  /** The loop state: the current row, the cells, and whether an exception escaped. */
  datatype Pass = Pass(row: int, cells: Cells, crashed: bool)

  function ProcessLine(p: Pass, line: Str, width: int): (q: Pass)
    requires !p.crashed
    ensures q.crashed <==> Space !in line
    ensures q.row == if q.crashed then p.row else p.row + 1
  {
    SplitCount(line, Space);
    match WriteRow(p.cells, Split(line, Space), p.row, width)
    case Written(c) => Pass(p.row + 1, c, false)
    case Threw(c) => Pass(p.row, c, true)
  }

  /** The `foreach` over the data lines; an exception ends it. */
  function ProcessLines(p: Pass, lines: seq<Str>, width: int): (q: Pass)
    ensures p.crashed ==> q == p
    ensures p.row <= q.row <= p.row + |lines|
    decreases |lines|
  {
    if |lines| == 0 || p.crashed then p
    else ProcessLines(ProcessLine(p, lines[0], width), lines[1..], width)
  }

  /** What `SetupLogData` leaves: the sheet, and whether an exception escaped it. */
  datatype Outcome = Outcome(sheet: Sheet, crashed: bool)

  /** The header list with `hour` inserted, for kept lines whose header names `date` and `time`. */
  function RawHeaders(kept: seq<Str>): (h: seq<Str>)
    requires HasRawHeader(kept)
    ensures |h| == |RawFields(kept[0])| + 1 >= 3 && h[2] == Hour
  {
    LogSchema.DateTimeNeedTwo(RawFields(kept[0]));
    InsertHour(RawFields(kept[0]))
  }

  /**
   * `SetupLogData`: returns with nothing written when no line is kept or the
   * header lacks `date` or `time`; otherwise writes the header row and the
   * data rows from row 2 and hides the rows after them, unless an exception
   * escapes first. The file is never marked failed and nothing is reported.
   */
  function SetupLogData(lines: seq<Str>): (r: Outcome)
    ensures !r.sheet.failed && r.sheet.progress == []
    ensures !HasRawHeader(LogSchema.KeptLines(lines)) ==> r.sheet.cells == map[] && r.sheet.hiddenFrom.None? && !r.crashed
    ensures r.sheet.hiddenFrom.Some? <==> HasRawHeader(LogSchema.KeptLines(lines)) && !r.crashed
  {
    var kept := LogSchema.KeptLines(lines);
    if !HasRawHeader(kept) then Outcome(Sheet(map[], None, false, []), false)
    else
      var headers := RawHeaders(kept);
      var q := ProcessLines(Pass(2, HeaderRow(headers), false), kept[1..], |headers|);
      if q.crashed then Outcome(Sheet(q.cells, None, false, []), true)
      else Outcome(Sheet(q.cells, Some(q.row), false, []), false)
  }

  // ---------------------------------------------------------------------------
  // What the loop guarantees

  /** Every line holds a space, so each splits into at least two tokens. */
  predicate AllSpaced(lines: seq<Str>)
  {
    forall i :: 0 <= i < |lines| ==> Space in lines[i]
  }

  lemma AllSpacedStep(lines: seq<Str>)
    requires |lines| > 0
    ensures AllSpaced(lines) <==> Space in lines[0] && AllSpaced(lines[1..])
  {
    assert forall i :: 0 < i < |lines| ==> lines[i] == lines[1..][i - 1];
  }

  /** The loop ends in an exception exactly when some data line has no space; otherwise one row per line. */
  lemma {:induction false} ProcessLinesCrash(p: Pass, lines: seq<Str>, width: int)
    requires !p.crashed
    ensures var q := ProcessLines(p, lines, width);
      && (q.crashed <==> !AllSpaced(lines))
      && (!q.crashed ==> q.row == p.row + |lines|)
    decreases |lines|
  {
    if |lines| > 0 {
      AllSpacedStep(lines);
      var next := ProcessLine(p, lines[0], width);
      if !next.crashed {
        ProcessLinesCrash(next, lines[1..], width);
      }
    }
  }

  /** Row `row` of `cells` is exactly `expected`. */
  predicate RowIs(cells: Cells, row: int, expected: Cells)
  {
    && (forall key :: key in expected ==> key in cells && cells[key] == expected[key])
    && (forall key :: key in cells && key.0 == row ==> key in expected)
  }

  /** Every line the loop passed holds its row, one row per line from `from` on. */
  predicate RowsHold(cells: Cells, lines: seq<Str>, from: int, width: int)
  {
    forall j :: 0 <= j < |lines| ==> RowIs(cells, from + j, RowCells(Split(lines[j], Space), from + j, width, TimeTaken(Split(lines[j], Space))))
  }

  /**
   * Without an exception, the loop leaves the rows above untouched, writes
   * nothing below its last row, and fills row `p.row + j` with exactly the
   * layout of line `j`.
   */
  lemma {:induction false} ProcessLinesRows(p: Pass, lines: seq<Str>, width: int)
    requires !p.crashed && AllAbove(p.cells, p.row)
    ensures var q := ProcessLines(p, lines, width);
      && SameAbove(p.cells, q.cells, p.row)
      && (!q.crashed ==> AllAbove(q.cells, q.row) && RowsHold(q.cells, lines, p.row, width))
      && (q.crashed ==> forall key :: key in q.cells ==> key.0 < q.row || key == (q.row, 1))
    decreases |lines|
  {
    if |lines| > 0 {
      var values := Split(lines[0], Space);
      var next := ProcessLine(p, lines[0], width);
      assert next.cells == p.cells + RowCells(values, p.row, width, TimeTaken(values));
      if !next.crashed {
        ProcessLinesRows(next, lines[1..], width);
        var q := ProcessLines(next, lines[1..], width);
        if !q.crashed {
          FirstRowHolds(p.cells, next.cells, q.cells, values, p.row, width);
          RowsHoldShift(q.cells, lines, p.row, width);
        }
      }
    }
  }

  /** The row just written survives the later lines, which only touch rows below it. */
  lemma FirstRowHolds(before: Cells, written: Cells, after: Cells, values: seq<Str>, row: int, width: int)
    requires |values| >= 1 && AllAbove(before, row)
    requires written == before + RowCells(values, row, width, TimeTaken(values))
    requires SameAbove(written, after, row + 1)
    ensures RowIs(after, row, RowCells(values, row, width, TimeTaken(values)))
  {
  }

  lemma RowsHoldShift(cells: Cells, lines: seq<Str>, from: int, width: int)
    requires |lines| > 0
    requires RowIs(cells, from, RowCells(Split(lines[0], Space), from, width, TimeTaken(Split(lines[0], Space))))
    requires RowsHold(cells, lines[1..], from + 1, width)
    ensures RowsHold(cells, lines, from, width)
  {
    forall j | 1 <= j < |lines|
      ensures RowIs(cells, from + j, RowCells(Split(lines[j], Space), from + j, width, TimeTaken(Split(lines[j], Space))))
    {
      assert lines[1..][j - 1] == lines[j];
    }
  }

  /**
   * A file whose header names `date` and `time` and whose every data line
   * holds a space gives a sheet with the header row in row 1, data line `j`
   * laid out in row `j + 1`, nothing below, and rows hidden from the row
   * after the last line.
   */
  lemma SetupLogDataShape(lines: seq<Str>)
    requires HasRawHeader(LogSchema.KeptLines(lines))
    requires AllSpaced(LogSchema.KeptLines(lines)[1..])
    ensures var kept := LogSchema.KeptLines(lines);
      var r := SetupLogData(lines);
      && !r.crashed
      && r.sheet.hiddenFrom == Some(|kept| + 1)
      && AllAbove(r.sheet.cells, |kept| + 1)
      && HoldsHeaderRow(r.sheet.cells, RawHeaders(kept))
      && RowsHold(r.sheet.cells, kept[1..], 2, |RawHeaders(kept)|)
  {
    var kept := LogSchema.KeptLines(lines);
    var headers := RawHeaders(kept);
    var q := ProcessLines(Pass(2, HeaderRow(headers), false), kept[1..], |headers|);
    LoopRows(headers, kept[1..]);
    assert SetupLogData(lines) == Outcome(Sheet(q.cells, Some(q.row), false, []), false);
  }

  /** From the header row, a loop over lines that all hold a space ends with one row per line and the header row kept. */
  lemma LoopRows(headers: seq<Str>, rest: seq<Str>)
    requires AllSpaced(rest)
    ensures var q := ProcessLines(Pass(2, HeaderRow(headers), false), rest, |headers|);
      && !q.crashed
      && q.row == |rest| + 2
      && AllAbove(q.cells, q.row)
      && HoldsHeaderRow(q.cells, headers)
      && RowsHold(q.cells, rest, 2, |headers|)
  {
    var start := Pass(2, HeaderRow(headers), false);
    var q := ProcessLines(start, rest, |headers|);
    ProcessLinesCrash(start, rest, |headers|);
    ProcessLinesRows(start, rest, |headers|);
    HeaderRowKept(headers, q.cells);
  }

  /** Rows written after row 1 leave the header row as it was. */
  lemma HeaderRowKept(headers: seq<Str>, cells: Cells)
    requires SameAbove(HeaderRow(headers), cells, 2)
    ensures HoldsHeaderRow(cells, headers)
  {
  }

  /**
   * When line `k` is the first without a space, the loop throws on it: the
   * exception leaves the row at `p.row + k`, whose column 1 holds the whole
   * line.
   */
  lemma {:induction false} ProcessLinesCrashAt(p: Pass, lines: seq<Str>, width: int, k: int)
    requires !p.crashed && 0 <= k < |lines|
    requires AllSpaced(lines[..k]) && Space !in lines[k]
    ensures var q := ProcessLines(p, lines, width);
      && q.crashed && q.row == p.row + k
      && (q.row, 1) in q.cells && q.cells[(q.row, 1)] == TextValue(lines[k])
    decreases k
  {
    var next := ProcessLine(p, lines[0], width);
    if k == 0 {
      assert Split(lines[0], Space) == [lines[0]];
      assert next.cells == p.cells + RowCells([lines[0]], p.row, width, TimeTaken([lines[0]]));
    } else {
      assert Space in lines[0] by { assert lines[..k][0] == lines[0]; }
      var front := lines[1..][..k - 1];
      assert AllSpaced(front) by {
        forall j | 0 <= j < k - 1 ensures Space in front[j] {
          assert front[j] == lines[..k][j + 1];
        }
      }
      assert lines[1..][k - 1] == lines[k];
      ProcessLinesCrashAt(next, lines[1..], width, k - 1);
    }
  }

  /**
   * When kept line `i` is the first data line without a space, the batch
   * ends: the exception escapes, no rows are hidden, and row `i + 1`, the
   * failing row, holds only its first column, the whole line, with nothing
   * below it.
   */
  lemma SetupLogDataCrash(lines: seq<Str>, i: int)
    requires HasRawHeader(LogSchema.KeptLines(lines))
    requires 1 <= i < |LogSchema.KeptLines(lines)| && Space !in LogSchema.KeptLines(lines)[i]
    requires AllSpaced(LogSchema.KeptLines(lines)[1..i])
    ensures var r := SetupLogData(lines);
      && r.crashed && r.sheet.hiddenFrom.None?
      && (i + 1, 1) in r.sheet.cells && r.sheet.cells[(i + 1, 1)] == TextValue(LogSchema.KeptLines(lines)[i])
      && forall key :: key in r.sheet.cells ==> key.0 <= i || key == (i + 1, 1)
  {
    var kept := LogSchema.KeptLines(lines);
    assert kept[1..][i - 1] == kept[i];
    assert kept[1..][..i - 1] == kept[1..i];
    LoopCrash(RawHeaders(kept), kept[1..], i - 1);
  }

  /** From the header row, a loop whose line `k` is the first without a space throws in row `k + 2`, leaving nothing after its column 1. */
  lemma LoopCrash(headers: seq<Str>, rest: seq<Str>, k: int)
    requires 0 <= k < |rest| && AllSpaced(rest[..k]) && Space !in rest[k]
    ensures var q := ProcessLines(Pass(2, HeaderRow(headers), false), rest, |headers|);
      && q.crashed && q.row == k + 2
      && (k + 2, 1) in q.cells && q.cells[(k + 2, 1)] == TextValue(rest[k])
      && forall key :: key in q.cells ==> key.0 <= k + 1 || key == (k + 2, 1)
  {
    var start := Pass(2, HeaderRow(headers), false);
    ProcessLinesCrashAt(start, rest, |headers|, k);
    ProcessLinesRows(start, rest, |headers|);
  }
}
