/**
 * The older sheet builder: every line is written in its own row; a token
 * that is not numeric in a numeric column is taken to be the second half of
 * a field split by a space, merged into the column before, and the same
 * index is read again.
 */
module ClassicProcessor {
  import opened Text
  import opened LogConstants
  import opened Worksheet
  import LogSchema
  import Utility

  /** The loop state: the current row, the cells, the texts reported as progress, and whether an exception left the loop. */
  datatype Pass = Pass(row: int, cells: Cells, progress: seq<Str>, thrown: bool)

  /**
   * `UpdatePreviousCells`: the column before gets its own text and the text
   * of `col` joined by a space, and `col` gets `value`.
   */
  function UpdatePreviousCells(cells: Cells, row: int, col: int, value: Str): (r: Cells)
    ensures (row, col) in r && r[(row, col)] == TextValue(value)
    ensures (row, col - 1) in r && r[(row, col - 1)].TextValue?
    ensures forall key :: key in cells && key != (row, col - 1) && key != (row, col) ==> key in r && r[key] == cells[key]
    ensures forall key :: key in r ==> key in cells || key == (row, col - 1) || key == (row, col)
  {
    var merged := CellText(cells, row, col - 1) + [Space] + CellText(cells, row, col);
    cells[(row, col - 1) := TextValue(merged)][(row, col) := TextValue(value)]
  }

  /** The merged cell splits on ' ' into the pieces of the two cells it joined: no character is lost. */
  lemma MergeKeepsPieces(cells: Cells, row: int, col: int, value: Str)
    ensures var r := UpdatePreviousCells(cells, row, col, value);
      Split(r[(row, col - 1)].text, Space) == Split(CellText(cells, row, col - 1), Space) + Split(CellText(cells, row, col), Space)
  {
    SplitAround(CellText(cells, row, col - 1), Space, CellText(cells, row, col));
  }

  /** Whether the token read at header index `i` sits in a numeric column without being numeric. */
  predicate NeedsRepair(special: set<int>, values: seq<Str>, i: int)
    requires 1 <= i <= |values|
  {
    i in special && !Utility.IsNumeric(values[i - 1])
  }

  /** No token from index `i` on needs a repair. */
  predicate NoRepairFrom(special: set<int>, values: seq<Str>, i: int)
  {
    forall j :: 1 <= i <= j <= |values| ==> !NeedsRepair(special, values, j)
  }

  /** The tokens without the one at index `k`. */
  function RemoveAt(values: seq<Str>, k: int): (r: seq<Str>)
    requires 0 <= k < |values|
    ensures |r| == |values| - 1
    ensures forall j :: 0 <= j < k ==> r[j] == values[j]
    ensures forall j :: k <= j < |r| ==> r[j] == values[j + 1]
  {
    values[..k] + values[k + 1..]
  }

  /** `values.Where(x => x != value)`: every copy of `value` removed, the rest in order. */
  function WithoutAll(values: seq<Str>, value: Str): (r: seq<Str>)
    ensures value !in r
    ensures forall j :: 0 <= j < |values| && values[j] != value ==> values[j] in r
    ensures forall j :: 0 <= j < |r| ==> r[j] in values
    ensures value in values ==> |r| < |values|
  {
    var keep := (x: Str) => x != value;
    if value in values then
      FilterShrinks(values, keep, IndexOf(values, value));
      Filter(values, keep)
    else Filter(values, keep)
  }

  /**
   * The column loop of `SetupLogSheet` from header index `i` on: a repair
   * removes every copy of the misplaced token.
   */
  function FillRowAsWritten(cells: Cells, special: set<int>, row: int, values: seq<Str>, i: int): (r: Cells)
    requires i >= 3
    decreases |values|, |values| + 1 - i
  {
    if i > |values| then cells
    else if NeedsRepair(special, values, i) then
      FillRowAsWritten(UpdatePreviousCells(cells, row, i, values[i - 1]), special, row, WithoutAll(values, values[i - 1]), i)
    else
      FillRowAsWritten(cells[(row, i + 1) := TokenCell(special, i, values[i - 1])], special, row, values, i + 1)
  }

  /**
   * The column loop from header index `i` on, with the repair removing only
   * the misplaced token.
   */
  function FillRow(cells: Cells, special: set<int>, row: int, values: seq<Str>, i: int): (r: Cells)
    requires i >= 3
    decreases |values|, |values| + 1 - i
  {
    if i > |values| then cells
    else if NeedsRepair(special, values, i) then
      FillRow(UpdatePreviousCells(cells, row, i, values[i - 1]), special, row, RemoveAt(values, i - 1), i)
    else
      FillRow(cells[(row, i + 1) := TokenCell(special, i, values[i - 1])], special, row, values, i + 1)
  }

  /** The column loop writes only in row `row`, and there only from column `i - 1` to the last token's column. */
  lemma {:induction false} FillRowFrame(cells: Cells, special: set<int>, row: int, values: seq<Str>, i: int)
    requires i >= 3
    ensures var r := FillRowAsWritten(cells, special, row, values, i);
      && SameOutsideRow(cells, r, row)
      && (forall key :: key in cells && key.0 == row && key.1 < i - 1 ==> key in r && r[key] == cells[key])
      && (forall key :: key in r && key.0 == row ==> key in cells || i - 1 <= key.1 <= |values| + 1)
    decreases |values|, |values| + 1 - i
  {
    if i <= |values| {
      if NeedsRepair(special, values, i) {
        var reduced := WithoutAll(values, values[i - 1]);
        assert |reduced| < |values| by {
          assert values[i - 1] in values;
        }
        FillRowFrame(UpdatePreviousCells(cells, row, i, values[i - 1]), special, row, reduced, i);
      } else {
        FillRowFrame(cells[(row, i + 1) := TokenCell(special, i, values[i - 1])], special, row, values, i + 1);
      }
    }
  }

  /**
   * The `for` loop of `SetupLogSheet` with its `i--; continue`. It
   * terminates because every repair shortens the tokens and every other
   * step advances the index.
   */
  method RepairRow(cells: Cells, special: set<int>, row: int, values: seq<Str>) returns (r: Cells)
    ensures r == FillRowAsWritten(cells, special, row, values, 3)
  {
    r := cells;
    var tokens := values;
    var i := 3;
    while i <= |tokens|
      invariant i >= 3
      invariant FillRowAsWritten(r, special, row, tokens, i) == FillRowAsWritten(cells, special, row, values, 3)
      decreases |tokens|, |tokens| + 1 - i
    {
      var value := tokens[i - 1];
      if i in special && !Utility.IsNumeric(value) {
        r := UpdatePreviousCells(r, row, i, value);
        tokens := WithoutAll(tokens, value);
      } else {
        r := r[(row, i + 1) := TokenCell(special, i, value)];
        i := i + 1;
      }
    }
  }

  // ---------------------------------------------------------------------------
  // What the repair does

  /** A line needing no repair from index `i` on is laid out exactly as the current revision lays it out. */
  lemma {:induction false} FillRowClean(cells: Cells, special: set<int>, row: int, values: seq<Str>, i: int)
    requires 3 <= i && |values| >= 2 && NoRepairFrom(special, values, i)
    ensures FillRow(cells, special, row, values, i) == cells + LaidOutRange(special, values, row, i + 1)
    decreases |values| + 1 - i
  {
    if i <= |values| {
      var c := TokenCell(special, i, values[i - 1]);
      FillRowClean(cells[(row, i + 1) := c], special, row, values, i + 1);
      FillRowCleanStep(cells, special, row, values, i);
    } else {
      LaidOutRangeEmpty(special, values, row, i + 1);
      assert cells + map[] == cells;
    }
  }

  lemma FillRowCleanStep(cells: Cells, special: set<int>, row: int, values: seq<Str>, i: int)
    requires 3 <= i <= |values| && !NeedsRepair(special, values, i)
    requires var c := TokenCell(special, i, values[i - 1]);
      FillRow(cells[(row, i + 1) := c], special, row, values, i + 1) == cells[(row, i + 1) := c] + LaidOutRange(special, values, row, i + 2)
    ensures FillRow(cells, special, row, values, i) == cells + LaidOutRange(special, values, row, i + 1)
  {
    var c := TokenCell(special, i, values[i - 1]);
    assert LaidOutCell(special, values, row, i + 1) == c;
    LaidOutRangeStep(special, values, row, i + 1);
    WriteThenMerge(cells, (row, i + 1), c, LaidOutRange(special, values, row, i + 2));
  }

  /**
   * One repair at index `i` followed by no other: column `i - 1` holds the
   * two halves joined, column `i` the misplaced token, and every later token
   * `values[j]` lands in column `j + 1`, one column left of where its header
   * stands; nothing is written past the last of them.
   */
  lemma OneRepairShiftsLeft(cells: Cells, special: set<int>, row: int, values: seq<Str>, i: int)
    requires 3 <= i <= |values| && NeedsRepair(special, values, i)
    requires NoRepairFrom(special, RemoveAt(values, i - 1), i)
    requires (row, |values| + 2) !in cells
    ensures var r := FillRow(cells, special, row, values, i);
      && (row, i) in r && r[(row, i)] == TextValue(values[i - 1])
      && (row, i - 1) in r && r[(row, i - 1)] == TextValue(CellText(cells, row, i - 1) + [Space] + CellText(cells, row, i))
      && (forall j :: i <= j < |values| ==> (row, j + 1) in r && r[(row, j + 1)] == TokenCell(special, j, values[j]))
      && (row, |values| + 2) !in r
  {
    var reduced := RemoveAt(values, i - 1);
    var merged := UpdatePreviousCells(cells, row, i, values[i - 1]);
    var laid := LaidOutRange(special, reduced, row, i + 1);
    assert FillRow(cells, special, row, values, i) == FillRow(merged, special, row, reduced, i);
    assert |reduced| >= 2;
    FillRowClean(merged, special, row, reduced, i);
    forall j | i <= j < |values|
      ensures (row, j + 1) in merged + laid && (merged + laid)[(row, j + 1)] == TokenCell(special, j, values[j])
    {
      assert reduced[j - 1] == values[j];
      ShiftedToken(special, values, reduced, row, i, j);
    }
    LaidOutRangeMisses(special, reduced, row, i + 1, (row, |values| + 2));
    LaidOutRangeMisses(special, reduced, row, i + 1, (row, i));
    LaidOutRangeMisses(special, reduced, row, i + 1, (row, i - 1));
  }

  /**
   * One repair at index `i` in `SetupLogSheet`'s loop, followed by no other:
   * column `i - 1` holds the two halves joined, column `i` the misplaced
   * token, and the tokens left once every copy of it is removed are laid out
   * from column `i + 1` on. When the misplaced token occurs nowhere else in
   * the line, the row is the one the corrected loop writes.
   */
  lemma OneRepairAsWritten(cells: Cells, special: set<int>, row: int, values: seq<Str>, i: int)
    requires 3 <= i <= |values| && NeedsRepair(special, values, i)
    requires NoRepairFrom(special, WithoutAll(values, values[i - 1]), i)
    ensures var r := FillRowAsWritten(cells, special, row, values, i);
      var merged := UpdatePreviousCells(cells, row, i, values[i - 1]);
      var reduced := WithoutAll(values, values[i - 1]);
      && (|reduced| >= 2 ==> r == merged + LaidOutRange(special, reduced, row, i + 1))
      && (i > |reduced| ==> r == merged)
      && (row, i) in r && r[(row, i)] == TextValue(values[i - 1])
      && (row, i - 1) in r && r[(row, i - 1)] == TextValue(CellText(cells, row, i - 1) + [Space] + CellText(cells, row, i))
    ensures values[i - 1] !in RemoveAt(values, i - 1) ==>
      FillRowAsWritten(cells, special, row, values, i) == FillRow(cells, special, row, values, i)
  {
    var reduced := WithoutAll(values, values[i - 1]);
    var merged := UpdatePreviousCells(cells, row, i, values[i - 1]);
    AsWrittenRepairs(cells, special, row, values, i);
    AsWrittenAgreesWhenClean(merged, special, row, reduced, i);
    if |reduced| >= 2 {
      FillRowClean(merged, special, row, reduced, i);
      LaidOutRangeMisses(special, reduced, row, i + 1, (row, i));
      LaidOutRangeMisses(special, reduced, row, i + 1, (row, i - 1));
    }
    if values[i - 1] !in RemoveAt(values, i - 1) {
      RepairAgreesOnUniqueToken(values, i - 1);
    }
  }

  /** With the token at index `i - 1` removed, token `j` of the line is laid out in column `j + 1`. */
  lemma ShiftedToken(special: set<int>, values: seq<Str>, reduced: seq<Str>, row: int, i: int, j: int)
    requires 3 <= i <= j < |values| && |reduced| == |values| - 1 && reduced[j - 1] == values[j]
    ensures var laid := LaidOutRange(special, reduced, row, i + 1);
      (row, j + 1) in laid && laid[(row, j + 1)] == TokenCell(special, j, values[j])
  {
    LaidOutRangeAt(special, reduced, row, i + 1, j + 1);
  }

  /** Removing every copy works element by element. */
  lemma WithoutAllCons(x: Str, rest: seq<Str>, value: Str)
    ensures WithoutAll([x] + rest, value) == (if x == value then [] else [x]) + WithoutAll(rest, value)
  {
    var keep := (y: Str) => y != value;
    assert ([x] + rest)[1..] == rest;
    assert Filter([x] + rest, keep) == (if keep(x) then [x] else []) + Filter(rest, keep);
  }

  lemma WithoutAllConcat(a: seq<Str>, b: seq<Str>, value: Str)
    ensures WithoutAll(a + b, value) == WithoutAll(a, value) + WithoutAll(b, value)
  {
    FilterConcat(a, b, (y: Str) => y != value);
  }

  /** Removing a value that does not occur changes nothing. */
  lemma WithoutAllAbsent(values: seq<Str>, value: Str)
    requires value !in values
    ensures WithoutAll(values, value) == values
  {
    var keep := (y: Str) => y != value;
    assert forall j :: 0 <= j < |values| ==> keep(values[j]);
    FilterKeepsAll(values, keep);
  }

  /** Removing a value that occurs once, between `a` and `b`, leaves `a` followed by `b`. */
  lemma WithoutAllMiddle(a: seq<Str>, value: Str, b: seq<Str>)
    requires value !in a && value !in b
    ensures WithoutAll(a + ([value] + b), value) == a + b
  {
    assert WithoutAll([value] + b, value) == b by {
      WithoutAllCons(value, b, value);
      WithoutAllAbsent(b, value);
      assert [] + b == b;
    }
    WithoutAllConcat(a, [value] + b, value);
    WithoutAllAbsent(a, value);
  }

  /**
   * The removal of every copy agrees with the removal of the misplaced token
   * alone when the token occurs nowhere else in the line.
   */
  lemma RepairAgreesOnUniqueToken(values: seq<Str>, k: int)
    requires 0 <= k < |values| && values[k] !in RemoveAt(values, k)
    ensures WithoutAll(values, values[k]) == RemoveAt(values, k)
  {
    var v, a, b := values[k], values[..k], values[k + 1..];
    assert values == a + ([v] + b);
    WithoutAllMiddle(a, v, b);
  }

  // ---------------------------------------------------------------------------
  // A repeated token

  /**
   * A line whose token at index 4 is not numeric although header index 5 is
   * a numeric column, and whose token at index 6 repeats it: with `head`
   * holding tokens 0-3, `q` the repeated token, `port` a number and `c` the
   * last token. A URL stem holding a space, followed by query `-`, a port
   * and user name `-`, is such a line.
   */
  predicate RepeatedTokenLine(head: seq<Str>, q: Str, port: Str, c: Str)
  {
    |head| == 4 && q !in head && !Utility.IsNumeric(q) && Utility.IsNumeric(port) && c != q
  }

  /** Only `s-port` at header index 5 is numeric; -1 stands for the numeric names the header lacks. */
  const PortOnly: set<int> := {-1, 5}

  /** `SetupLogSheet`'s `Where` drops both copies of `q`. */
  lemma WithoutAllRepeated(head: seq<Str>, q: Str, port: Str, c: Str)
    requires RepeatedTokenLine(head, q, port, c)
    ensures WithoutAll(head + [q, port, q, c], q) == head + [port, c]
  {
    assert port != q;
    var tail := [q] + ([port] + ([q] + [c]));
    assert head + [q, port, q, c] == head + tail;
    assert WithoutAll(tail, q) == [port, c] by {
      WithoutAllCons(q, [port] + ([q] + [c]), q);
      WithoutAllCons(port, [q] + [c], q);
      WithoutAllCons(q, [c], q);
      WithoutAllCons(c, [], q);
      assert WithoutAll([], q) == [];
    }
    WithoutAllConcat(head, tail, q);
    WithoutAllAbsent(head, q);
  }

  /**
   * `SetupLogSheet`'s repair on such a line drops the second copy of `q`
   * together with the first, so the last token lands in column 7, under
   * the header of the dropped token, and column 8 stays empty.
   */
  lemma RepeatedTokenIsLost(cells: Cells, row: int, head: seq<Str>, q: Str, port: Str, c: Str)
    requires RepeatedTokenLine(head, q, port, c)
    requires forall key :: key in cells ==> key.0 != row
    ensures var r := FillRowAsWritten(cells, PortOnly, row, head + [q, port, q, c], 3);
      && (row, 7) in r && r[(row, 7)] == TextValue(c)
      && (row, 8) !in r
  {
    RepeatedLineShape(head, q, port, c);
    LostAfterRepair(cells, row, head + [q, port, q, c], head + [port, c], c);
  }

  /** A line repaired at index 5 whose tokens, less the repeated one, end in a number then `c`, writes `c` last, in column 7. */
  lemma LostAfterRepair(cells: Cells, row: int, s: seq<Str>, reduced: seq<Str>, c: Str)
    requires |s| == 8 && NeedsRepair(PortOnly, s, 5) && reduced == WithoutAll(s, s[4])
    requires |reduced| == 6 && Utility.IsNumeric(reduced[4]) && reduced[5] == c
    requires forall key :: key in cells ==> key.0 != row
    ensures var r := FillRowAsWritten(cells, PortOnly, row, s, 3);
      && (row, 7) in r && r[(row, 7)] == TextValue(c)
      && (row, 8) !in r
  {
    var m := UpdatePreviousCells(cells[(row, 4) := TextValue(s[2])][(row, 5) := TextValue(s[3])], row, 5, s[4]);
    RepairMissesColumn8(cells, row, s[2], s[3], s[4]);
    AsWrittenReachesRepair(cells, PortOnly, row, s, m, reduced);
    RepairedTail(m, PortOnly, row, reduced, c);
  }

  /** The line `head q port q c` needs a repair at index 5, and dropping `q` leaves `head port c`. */
  lemma RepeatedLineShape(head: seq<Str>, q: Str, port: Str, c: Str)
    requires RepeatedTokenLine(head, q, port, c)
    ensures var s := head + [q, port, q, c];
      |s| == 8 && s[4] == q && NeedsRepair(PortOnly, s, 5)
    ensures var reduced := head + [port, c];
      |reduced| == 6 && reduced[4] == port && reduced[5] == c && Utility.IsNumeric(reduced[4])
    ensures WithoutAll(head + [q, port, q, c], q) == head + [port, c]
  {
    var s := head + [q, port, q, c];
    assert s[4] == q && s[3] == head[3];
    WithoutAllRepeated(head, q, port, c);
  }

  /** Writing columns 4 and 5 and merging them leaves column 8 of a row that had no cells empty. */
  lemma RepairMissesColumn8(cells: Cells, row: int, a: Str, b: Str, q: Str)
    requires forall key :: key in cells ==> key.0 != row
    ensures (row, 8) !in UpdatePreviousCells(cells[(row, 4) := TextValue(a)][(row, 5) := TextValue(b)], row, 5, q)
  {
    assert (row, 8) !in cells;
  }

  /** A number at index 4 under the numeric header 5, then a token under header 6, which is not numeric: no repair. */
  lemma PortThenText(special: set<int>, reduced: seq<Str>)
    requires |reduced| == 6 && Utility.IsNumeric(reduced[4]) && 6 !in special
    ensures NoRepairFrom(special, reduced, 5)
  {
  }

  /** The two tokens left after the repair land in columns 6 and 7, and nothing reaches column 8. */
  lemma RepairedTail(m: Cells, special: set<int>, row: int, reduced: seq<Str>, c: Str)
    requires |reduced| == 6 && Utility.IsNumeric(reduced[4]) && reduced[5] == c && 6 !in special && (row, 8) !in m
    ensures var r := FillRowAsWritten(m, special, row, reduced, 5);
      (row, 7) in r && r[(row, 7)] == TextValue(c) && (row, 8) !in r
  {
    PortThenText(special, reduced);
    AsWrittenAgreesWhenClean(m, special, row, reduced, 5);
    FillRowClean(m, special, row, reduced, 5);
    LaidOutRangeAt(special, reduced, row, 6, 7);
    LaidOutRangeMisses(special, reduced, row, 6, (row, 8));
  }

  /** Two tokens that need no repair, then a misplaced one at index 4: the loop reaches its first repair. */
  lemma AsWrittenReachesRepair(cells: Cells, special: set<int>, row: int, values: seq<Str>, m: Cells, reduced: seq<Str>)
    requires |values| >= 5 && 3 !in special && 4 !in special && NeedsRepair(special, values, 5)
    requires m == UpdatePreviousCells(cells[(row, 4) := TextValue(values[2])][(row, 5) := TextValue(values[3])], row, 5, values[4])
    requires reduced == WithoutAll(values, values[4])
    ensures FillRowAsWritten(cells, special, row, values, 3) == FillRowAsWritten(m, special, row, reduced, 5)
  {
    var c4 := cells[(row, 4) := TextValue(values[2])];
    AsWrittenSkips(cells, special, row, values, 3);
    AsWrittenSkips(c4, special, row, values, 4);
    AsWrittenRepairs(c4[(row, 5) := TextValue(values[3])], special, row, values, 5);
  }

  /** A token that needs no repair is written in the column after its header index, and the loop moves on. */
  lemma AsWrittenSkips(cells: Cells, special: set<int>, row: int, values: seq<Str>, i: int)
    requires 3 <= i <= |values| && !NeedsRepair(special, values, i)
    ensures FillRowAsWritten(cells, special, row, values, i)
      == FillRowAsWritten(cells[(row, i + 1) := TokenCell(special, i, values[i - 1])], special, row, values, i + 1)
  {
  }

  /** A misplaced token is merged into the column before, every copy of it is removed, and the same index is read again. */
  lemma AsWrittenRepairs(cells: Cells, special: set<int>, row: int, values: seq<Str>, i: int)
    requires 3 <= i <= |values| && NeedsRepair(special, values, i)
    ensures FillRowAsWritten(cells, special, row, values, i)
      == FillRowAsWritten(UpdatePreviousCells(cells, row, i, values[i - 1]), special, row, WithoutAll(values, values[i - 1]), i)
  {
  }

  /** Where no token needs a repair, the two removals are never reached and the loops agree. */
  lemma {:induction false} AsWrittenAgreesWhenClean(cells: Cells, special: set<int>, row: int, values: seq<Str>, i: int)
    requires i >= 3 && NoRepairFrom(special, values, i)
    ensures FillRowAsWritten(cells, special, row, values, i) == FillRow(cells, special, row, values, i)
    decreases |values| + 1 - i
  {
    if i <= |values| {
      AsWrittenAgreesWhenClean(cells[(row, i + 1) := TokenCell(special, i, values[i - 1])], special, row, values, i + 1);
    }
  }

  /** With only the misplaced token removed, the second copy of `q` stays in column 7 and the last token reaches column 8. */
  lemma RepeatedTokenIsKept(cells: Cells, row: int, head: seq<Str>, q: Str, port: Str, c: Str)
    requires RepeatedTokenLine(head, q, port, c)
    requires forall key :: key in cells ==> key.0 != row
    ensures var r := FillRow(cells, PortOnly, row, head + [q, port, q, c], 3);
      && (row, 7) in r && r[(row, 7)] == TextValue(q)
      && (row, 8) in r && r[(row, 8)] == TextValue(c)
  {
    var s := head + [q, port, q, c];
    var m := UpdatePreviousCells(cells[(row, 4) := TextValue(s[2])][(row, 5) := TextValue(s[3])], row, 5, q);
    var reduced := head + [port, q, c];
    assert s[4] == q && RemoveAt(s, 4) == reduced;
    ReachesRepair(cells, PortOnly, row, s, m, reduced);
    KeptTail(m, PortOnly, row, reduced);
  }

  /** The corrected loop on the same line reaches the same first repair. */
  lemma ReachesRepair(cells: Cells, special: set<int>, row: int, values: seq<Str>, m: Cells, reduced: seq<Str>)
    requires |values| >= 5 && 3 !in special && 4 !in special && NeedsRepair(special, values, 5)
    requires m == UpdatePreviousCells(cells[(row, 4) := TextValue(values[2])][(row, 5) := TextValue(values[3])], row, 5, values[4])
    requires reduced == RemoveAt(values, 4)
    ensures FillRow(cells, special, row, values, 3) == FillRow(m, special, row, reduced, 5)
  {
    var c4 := cells[(row, 4) := TextValue(values[2])];
    assert FillRow(cells, special, row, values, 3) == FillRow(c4, special, row, values, 4);
  }

  /** After the corrected repair the three remaining tokens land in columns 6, 7 and 8. */
  lemma KeptTail(m: Cells, special: set<int>, row: int, reduced: seq<Str>)
    requires |reduced| == 7 && Utility.IsNumeric(reduced[4]) && 6 !in special && 7 !in special
    ensures var r := FillRow(m, special, row, reduced, 5);
      && (row, 7) in r && r[(row, 7)] == TextValue(reduced[5])
      && (row, 8) in r && r[(row, 8)] == TextValue(reduced[6])
  {
    assert NoRepairFrom(special, reduced, 5);
    FillRowClean(m, special, row, reduced, 5);
    LaidOutRangeAt(special, reduced, row, 6, 7);
    LaidOutRangeAt(special, reduced, row, 6, 8);
  }

  /** Tokens `d t /a b - 80 - ip`: a URL stem `/a b` split by its space, query and user name both `-`. */
  lemma SplitStemLineIsAnExample()
    ensures RepeatedTokenLine([[Unit('d')], [Unit('t')], [Unit('/'), Unit('a')], [Unit('b')]], [Dash], [Unit('8'), Unit('0')], [Unit('i'), Unit('p')])
  {
    var head: seq<Str> := [[Unit('d')], [Unit('t')], [Unit('/'), Unit('a')], [Unit('b')]];
    assert head[0][0] != Dash && head[1][0] != Dash && head[2][0] != Dash && head[3][0] != Dash;
    assert !IsAsciiDigit([Dash][0]);
  }

  // ---------------------------------------------------------------------------
  // The line loop

  /**
   * One data row: columns 1 and 2 take tokens 0 and 1, column 3 the hour
   * formula, then the repairing column loop. Fewer than two tokens throw at
   * token 1, after column 1 when there is a token 0.
   */
  function WriteLine(cells: Cells, special: set<int>, row: int, values: seq<Str>): Write
  {
    if |values| == 0 then Threw(cells)
    else if |values| == 1 then Threw(cells[(row, 1) := TextValue(values[0])])
    else
      var head := cells[(row, 1) := TextValue(values[0])][(row, 2) := TextValue(values[1])][(row, 3) := Formula(HourFormula(row))];
      Written(FillRowAsWritten(head, special, row, values, 3))
  }

  /** One line; an exception keeps the row. */
  function ProcessLine(special: set<int>, p: Pass, line: Str): (q: Pass)
    requires !p.thrown
    ensures q.row == if q.thrown then p.row else p.row + 1
    ensures q.progress == if q.thrown then p.progress else p.progress + [line]
    ensures q.thrown <==> multiset(line)[Space] == 0
  {
    match WriteLine(p.cells, special, p.row, LogSchema.LineTokens(line))
    case Written(c) => p.(cells := c, progress := p.progress + [line], row := p.row + 1)
    case Threw(c) => p.(cells := c, thrown := true)
  }

  /** The line loop; an exception ends it. */
  function ProcessLines(special: set<int>, p: Pass, lines: seq<Str>): (q: Pass)
    ensures p.thrown ==> q == p
    ensures p.row <= q.row <= p.row + |lines|
    ensures |p.progress| <= |q.progress| && q.progress[..|p.progress|] == p.progress
    decreases |lines|
  {
    if |lines| == 0 || p.thrown then p
    else
      var next := ProcessLine(special, p, lines[0]);
      var q := ProcessLines(special, next, lines[1..]);
      assert q.progress[..|p.progress|] == q.progress[..|next.progress|][..|p.progress|];
      q
  }

  /** The state before the first data line. */
  function StartPass(kept: seq<Str>): Pass
    requires LogSchema.HasValidHeader(kept)
  {
    Pass(2, HeaderRow(LogSchema.Headers(kept)), [LogSchema.HeaderLine(kept[0])], false)
  }

  /** The line loop over the data lines of a file with a valid header. */
  function Run(kept: seq<Str>): (p: Pass)
    requires LogSchema.HasValidHeader(kept)
    ensures 2 <= p.row <= |kept| + 1
  {
    ProcessLines(LogSchema.NumberColumnIndexes(LogSchema.Headers(kept)), StartPass(kept), kept[1..])
  }

  /**
   * `SetupLogSheet`: an empty file or one without `date`/`time` in its header
   * is marked failed with nothing written; otherwise rows are hidden from the
   * current row down, and the file is marked failed exactly when a line threw,
   * which `SetupLogSheetShape` proves happens exactly when a data line has no space.
   */
  function SetupLogSheet(lines: seq<Str>): (r: Sheet)
    ensures r.hiddenFrom.None? <==> !LogSchema.HasValidHeader(LogSchema.KeptLines(lines))
    ensures r.hiddenFrom.None? ==> r.cells == map[] && r.failed && r.progress == []
    ensures r.hiddenFrom.Some? ==> 2 <= r.hiddenFrom.value <= |LogSchema.KeptLines(lines)| + 1
  {
    var kept := LogSchema.KeptLines(lines);
    if !LogSchema.HasValidHeader(kept) then Sheet(map[], None, true, [])
    else
      var p := Run(kept);
      Sheet(p.cells, Some(p.row), p.thrown, p.progress)
  }

  // ---------------------------------------------------------------------------
  // Line-level properties

  /** Tokens that need no repair give the very row the current revision's `AddRowData` writes. */
  lemma CleanRowMatchesCurrentLayout(cells: Cells, special: set<int>, row: int, values: seq<Str>)
    requires |values| >= 2 && NoRepairFrom(special, values, 3)
    ensures WriteLine(cells, special, row, values) == AddRowData(cells, special, values, row)
  {
    var c1, c2, c3 := TextValue(values[0]), TextValue(values[1]), Formula(HourFormula(row));
    var head := cells[(row, 1) := c1][(row, 2) := c2][(row, 3) := c3];
    AsWrittenAgreesWhenClean(head, special, row, values, 3);
    FillRowClean(head, special, row, values, 3);
    LaidOutRangeStep(special, values, row, 1);
    LaidOutRangeStep(special, values, row, 2);
    LaidOutRangeStep(special, values, row, 3);
    WriteThenMerge(cells, (row, 1), c1, LaidOutRange(special, values, row, 2));
    WriteThenMerge(cells[(row, 1) := c1], (row, 2), c2, LaidOutRange(special, values, row, 3));
    WriteThenMerge(cells[(row, 1) := c1][(row, 2) := c2], (row, 3), c3, LaidOutRange(special, values, row, 4));
  }

  /** A line that needs no repair is written as the current revision writes it. */
  lemma CleanLineMatchesCurrentLayout(special: set<int>, p: Pass, line: Str)
    requires !p.thrown
    requires var values := LogSchema.LineTokens(line);
      |values| >= 2 && NoRepairFrom(special, values, 3)
    ensures var q := ProcessLine(special, p, line);
      !q.thrown && q.cells == AddRowData(p.cells, special, LogSchema.LineTokens(line), p.row).cells
  {
    CleanRowMatchesCurrentLayout(p.cells, special, p.row, LogSchema.LineTokens(line));
  }

  /** A line without a space throws after writing its one token in column 1; the row does not advance. */
  lemma OneTokenLineThrows(special: set<int>, p: Pass, line: Str)
    requires !p.thrown && multiset(line)[Space] == 0
    ensures var q := ProcessLine(special, p, line);
      && q.thrown && q.row == p.row
      && q.cells == p.cells[(p.row, 1) := TextValue(LogSchema.LineTokens(line)[0])]
  {
  }

  /** Between lines: every cell is above the current row and no exception escaped. */
  predicate Steady(p: Pass)
  {
    AllAbove(p.cells, p.row) && !p.thrown
  }

  /** After an exception: the partial row holds column 1 at most. */
  predicate Aborted(p: Pass)
  {
    p.thrown && forall key :: key in p.cells ==> key.0 < p.row || key == (p.row, 1)
  }

  /** A row write touches only its own row: on success every cell is above the next row, after an exception only column 1 is new. */
  lemma WriteLineFrame(cells: Cells, special: set<int>, row: int, values: seq<Str>)
    requires AllAbove(cells, row)
    ensures var w := WriteLine(cells, special, row, values);
      && SameAbove(cells, w.cells, row)
      && (w.Written? ==> AllAbove(w.cells, row + 1))
      && (w.Threw? ==> forall key :: key in w.cells ==> key.0 < row || key == (row, 1))
  {
    if |values| >= 2 {
      var head := cells[(row, 1) := TextValue(values[0])][(row, 2) := TextValue(values[1])][(row, 3) := Formula(HourFormula(row))];
      FillRowFrame(head, special, row, values, 3);
    }
  }

  lemma ProcessLineSteady(special: set<int>, p: Pass, line: Str)
    requires Steady(p)
    ensures var q := ProcessLine(special, p, line);
      && (if q.thrown then Aborted(q) else Steady(q))
      && SameAbove(p.cells, q.cells, p.row)
  {
    WriteLineFrame(p.cells, special, p.row, LogSchema.LineTokens(line));
  }

  lemma {:induction false} ProcessLinesSteady(special: set<int>, p: Pass, lines: seq<Str>)
    requires Steady(p)
    ensures var q := ProcessLines(special, p, lines);
      && (if q.thrown then Aborted(q) else Steady(q))
      && SameAbove(p.cells, q.cells, p.row)
    decreases |lines|
  {
    if |lines| > 0 {
      var next := ProcessLine(special, p, lines[0]);
      ProcessLineSteady(special, p, lines[0]);
      if !next.thrown {
        ProcessLinesSteady(special, next, lines[1..]);
      }
    }
  }

  /**
   * A valid file's sheet keeps its header row, has no cell in its hidden rows
   * except column 1 of the first after an exception, reports the header line
   * first, and is marked failed exactly when a data line has no space, the
   * line that throws.
   */
  lemma SetupLogSheetShape(lines: seq<Str>)
    requires LogSchema.HasValidHeader(LogSchema.KeptLines(lines))
    ensures var kept := LogSchema.KeptLines(lines);
      LogSheetShape(SetupLogSheet(lines), LogSchema.Headers(kept), LogSchema.HeaderLine(kept[0]))
    ensures var kept := LogSchema.KeptLines(lines);
      SetupLogSheet(lines).failed <==> exists j :: 1 <= j < |kept| && Space !in kept[j]
  {
    var kept := LogSchema.KeptLines(lines);
    var p := Run(kept);
    RunShape(kept);
    RunThrows(kept);
    assert SetupLogSheet(lines) == Sheet(p.cells, Some(p.row), p.thrown, p.progress);
  }

  /** Some line has no space. */
  predicate SomeUnspaced(lines: seq<Str>)
  {
    exists j :: 0 <= j < |lines| && Space !in lines[j]
  }

  /** The loop throws exactly when one of its lines has no space; it stops at the first such line. */
  lemma {:induction false} ProcessLinesThrows(special: set<int>, p: Pass, lines: seq<Str>)
    requires !p.thrown
    ensures ProcessLines(special, p, lines).thrown <==> SomeUnspaced(lines)
    decreases |lines|
  {
    if |lines| > 0 {
      var next := ProcessLine(special, p, lines[0]);
      if next.thrown {
        assert Space !in lines[0];
      } else {
        ProcessLinesThrows(special, next, lines[1..]);
        UnspacedTail(lines);
      }
    }
  }

  /** With a spaced first line, the lines hold an unspaced one exactly when the rest do. */
  lemma UnspacedTail(lines: seq<Str>)
    requires |lines| > 0 && Space in lines[0]
    ensures SomeUnspaced(lines) <==> SomeUnspaced(lines[1..])
  {
    var rest := lines[1..];
    if SomeUnspaced(lines) {
      var j :| 0 <= j < |lines| && Space !in lines[j];
      assert rest[j - 1] == lines[j];
    }
    if SomeUnspaced(rest) {
      var j :| 0 <= j < |rest| && Space !in rest[j];
      assert lines[j + 1] == rest[j];
    }
  }

  /** The data lines of `kept` are `kept[1..]`, shifted by one. */
  lemma UnspacedData(kept: seq<Str>)
    requires |kept| >= 1
    ensures SomeUnspaced(kept[1..]) <==> exists j :: 1 <= j < |kept| && Space !in kept[j]
  {
    var rest := kept[1..];
    if SomeUnspaced(rest) {
      var j :| 0 <= j < |rest| && Space !in rest[j];
      assert kept[j + 1] == rest[j];
    }
    if exists j :: 1 <= j < |kept| && Space !in kept[j] {
      var j :| 1 <= j < |kept| && Space !in kept[j];
      assert rest[j - 1] == kept[j];
    }
  }

  /** A valid file's line loop throws exactly when one of its data lines has no space. */
  lemma RunThrows(kept: seq<Str>)
    requires LogSchema.HasValidHeader(kept)
    ensures Run(kept).thrown <==> exists j :: 1 <= j < |kept| && Space !in kept[j]
  {
    ProcessLinesThrows(LogSchema.NumberColumnIndexes(LogSchema.Headers(kept)), StartPass(kept), kept[1..]);
    UnspacedData(kept);
  }

  lemma RunShape(kept: seq<Str>)
    requires LogSchema.HasValidHeader(kept)
    ensures var p := Run(kept);
      LogSheetShape(Sheet(p.cells, Some(p.row), p.thrown, p.progress), LogSchema.Headers(kept), LogSchema.HeaderLine(kept[0]))
  {
    var headers := LogSchema.Headers(kept);
    var special := LogSchema.NumberColumnIndexes(headers);
    LoopShape(special, headers, LogSchema.HeaderLine(kept[0]), kept[1..]);
  }

  /** From the header row alone, the loop ends in a sheet of the expected shape. */
  lemma LoopShape(special: set<int>, headers: seq<Str>, header: Str, rest: seq<Str>)
    ensures var q := ProcessLines(special, Pass(2, HeaderRow(headers), [header], false), rest);
      LogSheetShape(Sheet(q.cells, Some(q.row), q.thrown, q.progress), headers, header)
  {
    var start := Pass(2, HeaderRow(headers), [header], false);
    ProcessLinesSteady(special, start, rest);
    var q := ProcessLines(special, start, rest);
    KeepsHeaderRow(start.cells, q.cells, headers);
    assert q.progress[..1] == start.progress;
    EndShape(q, headers, header);
  }

  /** A loop that ended steady or aborted, with the header row and header line kept, leaves a sheet of the expected shape. */
  lemma EndShape(q: Pass, headers: seq<Str>, header: Str)
    requires if q.thrown then Aborted(q) else Steady(q)
    requires HoldsHeaderRow(q.cells, headers)
    requires |q.progress| >= 1 && q.progress[0] == header
    ensures LogSheetShape(Sheet(q.cells, Some(q.row), q.thrown, q.progress), headers, header)
  {
  }

  lemma KeepsHeaderRow(a: Cells, b: Cells, headers: seq<Str>)
    requires a == HeaderRow(headers) && SameAbove(a, b, 2)
    ensures HoldsHeaderRow(b, headers)
  {
    forall k | 0 <= k < |headers|
      ensures (1, k + 1) in b && b[(1, k + 1)] == TextValue(headers[k])
    {
      assert (1, k + 1) in a;
    }
  }
}
