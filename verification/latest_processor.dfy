/**
 * The current sheet builder: a fold over the kept lines of one log file that
 * repairs a line one field too long by gluing the two stem halves, skips a
 * line still too long, and joins lines too short into a fragment buffer
 * which is written as one row once it is long enough.
 */
module LatestProcessor {
  import opened Text
  import opened LogConstants
  import opened Worksheet
  import LogSchema
  import Utility

  /** What the line loop reads and never changes: the header width, the numeric indices, the port ids. */
  datatype Context = Context(width: int, special: set<int>, portIds: set<Str>)

  /**
   * The loop state: the current row, the pending fragment tokens, the cells,
   * the failure mark, the texts reported as progress, and whether an
   * exception left the loop.
   */
  datatype Pass = Pass(row: int, buffer: seq<Str>, cells: Cells, failed: bool, progress: seq<Str>, thrown: bool)

  /**
   * `GetFixedStemData`: unchanged when token 6 is a port id, else tokens 4
   * and 5 glued into one. Reading token 6 of a shorter list throws.
   */
  function GetFixedStemData(source: seq<Str>, portIds: set<Str>): (r: Option<seq<Str>>)
    ensures r.None? <==> |source| < 7
    ensures r.Some? && source[6] in portIds ==> r.value == source
    ensures r.Some? && source[6] !in portIds ==>
      && |r.value| == |source| - 1
      && r.value[4] == source[4] + source[5]
      && (forall k :: 0 <= k < 4 ==> r.value[k] == source[k])
      && (forall k :: 5 <= k < |r.value| ==> r.value[k] == source[k + 1])
  {
    if |source| < 7 then None
    else if source[6] in portIds then Some(source)
    else Some(source[..4] + [source[4] + source[5]] + source[6..])
  }

  /** The repair loses no character: only the separator between tokens 4 and 5 disappears. */
  lemma FixedStemKeepsText(source: seq<Str>, portIds: set<Str>)
    requires |source| >= 7
    ensures Utility.Concat(GetFixedStemData(source, portIds).value) == Utility.Concat(source)
  {
    if source[6] !in portIds {
      var head, x, y, tail := source[..4], source[4], source[5], source[6..];
      assert source == head + [x, y] + tail;
      assert GetFixedStemData(source, portIds).value == head + [x + y] + tail;
      Utility.ConcatAppend(head + [x, y], tail);
      Utility.ConcatAppend(head, [x, y]);
      Utility.ConcatAppend(head + [x + y], tail);
      Utility.ConcatAppend(head, [x + y]);
      ConcatPair(x, y);
    }
  }

  lemma ConcatPair(x: Str, y: Str)
    ensures Utility.Concat([x, y]) == Utility.Concat([x + y])
  {
    assert [x, y][1..] == [y];
    assert Utility.Concat([y]) == y + Utility.Concat([]);
    assert Utility.Concat([x + y]) == x + y + Utility.Concat([]);
  }

  /**
   * The fragment buffer after a short line: the line's tokens when the buffer
   * is empty, else its first token glued onto the last buffered one and the
   * rest appended.
   */
  function MergeFragment(buffer: seq<Str>, values: seq<Str>): (r: seq<Str>)
    requires |values| >= 1
    ensures |buffer| == 0 ==> r == values
    ensures |buffer| > 0 ==> |r| == |buffer| + |values| - 1
  {
    var n := |buffer|;
    if n == 0 then values
    else if |values| == 1 then buffer[..n - 1] + [buffer[n - 1] + values[0]]
    else buffer[..n - 1] + [buffer[n - 1] + values[0]] + values[1..]
  }

  /** Merging keeps every character of both in order: a line broken inside a field is rejoined. */
  lemma MergeFragmentKeepsText(buffer: seq<Str>, values: seq<Str>)
    requires |values| >= 1
    ensures Utility.Concat(MergeFragment(buffer, values)) == Utility.Concat(buffer) + Utility.Concat(values)
  {
    var n := |buffer|;
    if n == 0 {
      assert Utility.Concat(buffer) == [];
    } else {
      var front, x, y, rest := buffer[..n - 1], buffer[n - 1], values[0], values[1..];
      assert buffer == front + [x] + [];
      assert values == [] + [y] + rest;
      assert MergeFragment(buffer, values) == front + [x + y] + rest;
      ConcatAround(front, x + y, rest);
      ConcatAround(front, x, []);
      ConcatAround([], y, rest);
    }
  }

  /** The text of a list with `m` between `front` and `rest`. */
  lemma ConcatAround(front: seq<Str>, m: Str, rest: seq<Str>)
    ensures Utility.Concat(front + [m] + rest) == Utility.Concat(front) + m + Utility.Concat(rest)
  {
    Utility.ConcatAppend(front + [m], rest);
    Utility.ConcatAppend(front, [m]);
    assert Utility.Concat([m]) == m + Utility.Concat([]);
  }

  /** Writes one row and advances, or records the exception. */
  function WriteRow(ctx: Context, p: Pass, values: seq<Str>, text: Str): (q: Pass)
    requires !p.thrown
    ensures q.row == if q.thrown then p.row else p.row + 1
    ensures q.progress == if q.thrown then p.progress else p.progress + [text]
    ensures q.thrown <==> |values| < 2
  {
    match AddRowData(p.cells, ctx.special, values, p.row)
    case Written(c) => p.(cells := c, progress := p.progress + [text], row := p.row + 1)
    case Threw(c) => p.(cells := c, thrown := true)
  }

  /** The tokens after the stem repair of a line at least as wide as the header; None when the repair throws. */
  function Repaired(ctx: Context, raw: seq<Str>): Option<seq<Str>>
  {
    if |raw| >= ctx.width then GetFixedStemData(raw, ctx.portIds) else Some(raw)
  }

  /** One pass of the line loop. */
  function ProcessLine(ctx: Context, p: Pass, line: Str): (q: Pass)
    requires !p.thrown
    ensures p.row <= q.row <= p.row + 1
    ensures IsPrefix(p.progress, q.progress)
  {
    ProcessTokens(ctx, p, line, LogSchema.LineTokens(line))
  }

  /** One pass of the line loop on the line's cleaned tokens `raw`. */
  function ProcessTokens(ctx: Context, p: Pass, line: Str, raw: seq<Str>): (q: Pass)
    requires !p.thrown && |raw| >= 1
    ensures p.row <= q.row <= p.row + 1
    ensures IsPrefix(p.progress, q.progress)
  {
    var repaired := Repaired(ctx, raw);
    if repaired.None? then p.(thrown := true)
    else
      var values := repaired.value;
      if |values| >= ctx.width then p.(row := p.row + 1)
      else
        var buffer := if |values| < ctx.width - 1 then MergeFragment(p.buffer, values) else p.buffer;
        // A fragment is also filtered out of `lines` (tools/ExcelSheetProcessor.cs:174), but that
        // binds a new list while the loop still enumerates `Skip(1)` of the old one: no effect.
        if |values| < ctx.width - 1 && |buffer| < ctx.width - 1 then p.(buffer := buffer)
        else if |buffer| > 0 then WriteRow(ctx, p.(buffer := [], failed := true), buffer, Join(buffer, Space))
        else WriteRow(ctx, p, values, line)
  }

  predicate IsPrefix<T(==)>(a: seq<T>, b: seq<T>)
  {
    |a| <= |b| && b[..|a|] == a
  }

  /** The line loop; an exception ends it. */
  function ProcessLines(ctx: Context, p: Pass, lines: seq<Str>): (q: Pass)
    ensures p.thrown ==> q == p
    ensures p.row <= q.row <= p.row + |lines|
    ensures IsPrefix(p.progress, q.progress)
    decreases |lines|
  {
    if |lines| == 0 || p.thrown then p
    else
      var next := ProcessLine(ctx, p, lines[0]);
      var q := ProcessLines(ctx, next, lines[1..]);
      assert q.progress[..|p.progress|] == q.progress[..|next.progress|][..|p.progress|];
      q
  }

  /** The loop context of a header list that names `date` and `time`. */
  function ContextOf(fields: seq<Str>, portIds: set<Str>): (ctx: Context)
    requires |fields| >= 2
    ensures ctx.width == |fields| + 1 >= 3
  {
    var headers := InsertHour(fields);
    Context(|headers|, LogSchema.NumberColumnIndexes(headers), portIds)
  }

  /** The state before the first data line. */
  function StartPass(kept: seq<Str>): Pass
    requires LogSchema.HasValidHeader(kept)
  {
    var fields := LogSchema.HeaderFields(kept[0]);
    LogSchema.DateTimeNeedTwo(fields);
    Pass(2, [], HeaderRow(InsertHour(fields)), false, [LogSchema.HeaderLine(kept[0])], false)
  }

  /**
   * `SetupLogSheet`: an empty file or one without `date`/`time` in its header
   * is marked failed with nothing written and nothing hidden; otherwise rows
   * are hidden from the current row down, also after an exception, and the
   * sheet has at most one row per kept line.
   */
  function SetupLogSheet(lines: seq<Str>, portIds: set<Str>): (r: Sheet)
    ensures r.hiddenFrom.None? <==> !LogSchema.HasValidHeader(LogSchema.KeptLines(lines))
    ensures r.hiddenFrom.None? ==> r.cells == map[] && r.failed && r.progress == []
    ensures r.hiddenFrom.Some? ==> 2 <= r.hiddenFrom.value <= |LogSchema.KeptLines(lines)| + 1
  {
    var kept := LogSchema.KeptLines(lines);
    if !LogSchema.HasValidHeader(kept) then Sheet(map[], None, true, [])
    else
      var p := Run(kept, portIds);
      Sheet(p.cells, Some(p.row), p.failed || p.thrown, p.progress)
  }

  /** The line loop over the data lines of a file with a valid header. */
  function Run(kept: seq<Str>, portIds: set<Str>): (p: Pass)
    requires LogSchema.HasValidHeader(kept)
    ensures 2 <= p.row <= |kept| + 1
  {
    var fields := LogSchema.HeaderFields(kept[0]);
    LogSchema.DateTimeNeedTwo(fields);
    ProcessLines(ContextOf(fields, portIds), StartPass(kept), kept[1..])
  }

  // ---------------------------------------------------------------------------
  // The loop invariant

  /** Between lines: the buffer is short, every cell is above the current row, and no exception escaped. */
  predicate Steady(ctx: Context, p: Pass)
  {
    ctx.width >= 3 && |p.buffer| < ctx.width - 1 && AllAbove(p.cells, p.row) && !p.thrown
  }

  /** After an exception: the partial row holds column 1 at most, and the file is failed or about to be. */
  predicate Aborted(p: Pass)
  {
    p.thrown && forall key :: key in p.cells ==> key.0 < p.row || key == (p.row, 1)
  }

  /**
   * One line keeps the invariant or aborts; it never rewrites a row above
   * the current one.
   */
  lemma ProcessLineSteady(ctx: Context, p: Pass, line: Str)
    requires Steady(ctx, p)
    ensures var q := ProcessLine(ctx, p, line);
      && (if q.thrown then Aborted(q) else Steady(ctx, q))
      && SameAbove(p.cells, q.cells, p.row)
  {
    ProcessTokensSteady(ctx, p, line, LogSchema.LineTokens(line));
  }

  lemma ProcessTokensSteady(ctx: Context, p: Pass, line: Str, raw: seq<Str>)
    requires Steady(ctx, p) && |raw| >= 1
    ensures var q := ProcessTokens(ctx, p, line, raw);
      && (if q.thrown then Aborted(q) else Steady(ctx, q))
      && SameAbove(p.cells, q.cells, p.row)
  {
    var q := ProcessTokens(ctx, p, line, raw);
    var repaired := Repaired(ctx, raw);
    if repaired.Some? {
      var values := repaired.value;
      if |values| < ctx.width {
        var buffer := if |values| < ctx.width - 1 then MergeFragment(p.buffer, values) else p.buffer;
        if |values| < ctx.width - 1 && |buffer| < ctx.width - 1 {
          assert q == p.(buffer := buffer);
        } else if |buffer| > 0 {
          assert q == WriteRow(ctx, p.(buffer := [], failed := true), buffer, Join(buffer, Space));
          WriteRowSteady(ctx, p.(buffer := [], failed := true), buffer, Join(buffer, Space));
        } else {
          assert q == WriteRow(ctx, p, values, line);
          WriteRowSteady(ctx, p, values, line);
        }
      } else {
        assert q == p.(row := p.row + 1);
      }
    } else {
      assert q == p.(thrown := true);
    }
  }

  /** Writing a row keeps the rows above, and either moves past the row or leaves column 1 of it at most. */
  lemma WriteRowSteady(ctx: Context, p: Pass, values: seq<Str>, text: Str)
    requires Steady(ctx, p)
    ensures var q := WriteRow(ctx, p, values, text);
      && (if q.thrown then Aborted(q) else Steady(ctx, q))
      && SameAbove(p.cells, q.cells, p.row)
  {
    AddRowDataInRow(p.cells, ctx.special, values, p.row);
  }

  lemma {:induction false} ProcessLinesSteady(ctx: Context, p: Pass, lines: seq<Str>)
    requires Steady(ctx, p)
    ensures var q := ProcessLines(ctx, p, lines);
      && (if q.thrown then Aborted(q) else Steady(ctx, q))
      && SameAbove(p.cells, q.cells, p.row)
    decreases |lines|
  {
    if |lines| > 0 {
      var next := ProcessLine(ctx, p, lines[0]);
      ProcessLineSteady(ctx, p, lines[0]);
      if !next.thrown {
        ProcessLinesSteady(ctx, next, lines[1..]);
      }
    }
  }

  /**
   * A valid file's sheet has the header row in row 1, reports the header line
   * first, and has no cell in its hidden rows except, after an exception,
   * column 1 of the first hidden row.
   */
  lemma SetupLogSheetShape(lines: seq<Str>, portIds: set<Str>)
    requires LogSchema.HasValidHeader(LogSchema.KeptLines(lines))
    ensures var kept := LogSchema.KeptLines(lines);
      LogSheetShape(SetupLogSheet(lines, portIds), LogSchema.Headers(kept), LogSchema.HeaderLine(kept[0]))
  {
    var kept := LogSchema.KeptLines(lines);
    var p := Run(kept, portIds);
    RunShape(kept, portIds);
    FinishedIsShape(p, LogSchema.Headers(kept), LogSchema.HeaderLine(kept[0]));
    assert SetupLogSheet(lines, portIds) == Sheet(p.cells, Some(p.row), p.failed || p.thrown, p.progress);
  }

  lemma FinishedIsShape(q: Pass, headers: seq<Str>, header: Str)
    requires Finished(q, headers, header)
    ensures LogSheetShape(Sheet(q.cells, Some(q.row), q.failed || q.thrown, q.progress), headers, header)
  {
  }

  /**
   * The loop's end: cells only above the final row or in column 1 of it after
   * an exception, the header row intact, and the header line reported first.
   */
  predicate Finished(q: Pass, headers: seq<Str>, header: Str)
  {
    && (forall key :: key in q.cells ==> key.0 < q.row || (q.thrown && key == (q.row, 1)))
    && HoldsHeaderRow(q.cells, headers)
    && |q.progress| >= 1 && q.progress[0] == header
  }

  lemma RunShape(kept: seq<Str>, portIds: set<Str>)
    requires LogSchema.HasValidHeader(kept)
    ensures Finished(Run(kept, portIds), LogSchema.Headers(kept), LogSchema.HeaderLine(kept[0]))
  {
    var fields := LogSchema.HeaderFields(kept[0]);
    LogSchema.DateTimeNeedTwo(fields);
    var ctx := ContextOf(fields, portIds);
    var start := StartPass(kept);
    assert Run(kept, portIds) == ProcessLines(ctx, start, kept[1..]);
    StartSteady(kept, portIds);
    LoopShape(ctx, start, kept[1..], LogSchema.Headers(kept), LogSchema.HeaderLine(kept[0]));
  }

  /** The state before the first data line is steady and holds the header row. */
  lemma StartSteady(kept: seq<Str>, portIds: set<Str>)
    requires LogSchema.HasValidHeader(kept)
    ensures var fields := LogSchema.HeaderFields(kept[0]);
      && |fields| >= 2
      && Steady(ContextOf(fields, portIds), StartPass(kept))
      && StartPass(kept).cells == HeaderRow(LogSchema.Headers(kept))
      && StartPass(kept).progress == [LogSchema.HeaderLine(kept[0])]
      && StartPass(kept).row == 2
  {
    var fields := LogSchema.HeaderFields(kept[0]);
    LogSchema.DateTimeNeedTwo(fields);
    var headers := InsertHour(fields);
    assert LogSchema.Headers(kept) == headers;
    var p := StartPass(kept);
    assert p == Pass(2, [], HeaderRow(headers), false, [LogSchema.HeaderLine(kept[0])], false);
    assert ContextOf(fields, portIds).width == |headers|;
    assert AllAbove(p.cells, 2);
  }

  /** From the start state, the loop ends in a finished state. */
  lemma LoopShape(ctx: Context, start: Pass, rest: seq<Str>, headers: seq<Str>, header: Str)
    requires Steady(ctx, start) && start.row == 2
    requires start.cells == HeaderRow(headers) && start.progress == [header]
    ensures Finished(ProcessLines(ctx, start, rest), headers, header)
  {
    var q := ProcessLines(ctx, start, rest);
    ProcessLinesSteady(ctx, start, rest);
    LoopEndsBelow(ctx, q);
    KeepsHeaderRow(start.cells, q.cells, headers);
    KeepsFirst(start.progress, q.progress);
  }

  lemma LoopEndsBelow(ctx: Context, q: Pass)
    requires if q.thrown then Aborted(q) else Steady(ctx, q)
    ensures forall key :: key in q.cells ==> key.0 < q.row || (q.thrown && key == (q.row, 1))
  {
  }

  lemma KeepsHeaderRow(a: Cells, b: Cells, headers: seq<Str>)
    requires a == HeaderRow(headers) && SameAbove(a, b, 2)
    ensures HoldsHeaderRow(b, headers)
  {
    forall k | 0 <= k < |headers|
      ensures (1, k + 1) in b && b[(1, k + 1)] == TextValue(headers[k])
    {
      assert (1, k + 1) in a;
    }
  }

  lemma KeepsFirst(a: seq<Str>, b: seq<Str>)
    requires |a| == 1 && IsPrefix(a, b)
    ensures |b| >= 1 && b[0] == a[0]
  {
    assert b[..1][0] == b[0];
  }

  /**
   * The loop raises an exception in two cases only: the stem repair reads
   * token 6 of a line in a file of at most six fields, or a single pending
   * fragment is written in place of a complete line.
   */
  lemma WhenALineThrows(ctx: Context, p: Pass, line: Str)
    requires Steady(ctx, p)
    ensures var repaired := Repaired(ctx, LogSchema.LineTokens(line));
      ProcessLine(ctx, p, line).thrown <==>
        || ctx.width <= |LogSchema.LineTokens(line)| < 7
        || (repaired.Some? && |repaired.value| == ctx.width - 1 && |p.buffer| == 1)
  {
    var raw := LogSchema.LineTokens(line);
    var repaired := Repaired(ctx, raw);
    if repaired.Some? {
      var values := repaired.value;
      if |values| < ctx.width - 1 {
        var buffer := MergeFragment(p.buffer, values);
        assert |buffer| >= 2 || |buffer| < ctx.width - 1;
      }
    }
  }

  /** A line still too wide after the stem repair is dropped, but its row is left empty. */
  lemma WideLineSkipped(ctx: Context, p: Pass, line: Str)
    requires !p.thrown
    requires var raw := LogSchema.LineTokens(line);
      |raw| >= 7 && |raw| >= ctx.width && (raw[6] in ctx.portIds || |raw| > ctx.width)
    ensures ProcessLine(ctx, p, line) == p.(row := p.row + 1)
  {
  }

  /** A line one token too wide whose token 6 is no port id is written with the stem halves glued. */
  lemma WideLineRepaired(ctx: Context, p: Pass, line: Str)
    requires !p.thrown && |p.buffer| == 0 && ctx.width >= 3
    requires var raw := LogSchema.LineTokens(line);
      |raw| >= 7 && |raw| == ctx.width && raw[6] !in ctx.portIds
    ensures var fixedTokens := GetFixedStemData(LogSchema.LineTokens(line), ctx.portIds).value;
      ProcessLine(ctx, p, line) == p.(cells := AddRowData(p.cells, ctx.special, fixedTokens, p.row).cells,
                                      progress := p.progress + [line], row := p.row + 1)
  {
    var fixedTokens := GetFixedStemData(LogSchema.LineTokens(line), ctx.portIds).value;
    AddRowDataPlacesTokens(p.cells, ctx.special, fixedTokens, p.row);
  }

  /** A short line joins the buffer and nothing is written while the buffer stays short. */
  lemma FragmentHeld(ctx: Context, p: Pass, line: Str)
    requires !p.thrown
    requires var raw := LogSchema.LineTokens(line);
      |raw| < ctx.width - 1 && |MergeFragment(p.buffer, raw)| < ctx.width - 1
    ensures ProcessLine(ctx, p, line) == p.(buffer := MergeFragment(p.buffer, LogSchema.LineTokens(line)))
  {
  }

  /**
   * A complete line arriving while two or more fragment tokens are pending is
   * not written: the fragments are written as that row instead, and the file
   * is marked failed.
   */
  lemma PendingFragmentsReplaceLine(ctx: Context, p: Pass, line: Str)
    requires !p.thrown && ctx.width >= 3 && |p.buffer| >= 2
    requires |LogSchema.LineTokens(line)| == ctx.width - 1
    ensures var q := ProcessLine(ctx, p, line);
      && !q.thrown && q.failed && q.buffer == [] && q.row == p.row + 1
      && q.cells == AddRowData(p.cells, ctx.special, p.buffer, p.row).cells
      && q.progress == p.progress + [Join(p.buffer, Space)]
  {
    AddRowDataPlacesTokens(p.cells, ctx.special, p.buffer, p.row);
  }

  /** A complete line with nothing pending is written as `AddRowData` lays it out and reported with its own text. */
  lemma LatestNormalLine(ctx: Context, p: Pass, line: Str)
    requires !p.thrown && |p.buffer| == 0 && ctx.width >= 3
    requires |LogSchema.LineTokens(line)| == ctx.width - 1
    ensures ProcessLine(ctx, p, line)
      == p.(cells := AddRowData(p.cells, ctx.special, LogSchema.LineTokens(line), p.row).cells,
            progress := p.progress + [line], row := p.row + 1)
  {
    AddRowDataPlacesTokens(p.cells, ctx.special, LogSchema.LineTokens(line), p.row);
  }

  /**
   * A short line that makes the pending fragments long enough: the merged
   * tokens are written as one row and reported joined by spaces, the buffer
   * is emptied, and the file is marked failed.
   */
  lemma LatestShortLineCompletes(ctx: Context, p: Pass, line: Str)
    requires !p.thrown && ctx.width >= 3
    requires var raw := LogSchema.LineTokens(line);
      |raw| < ctx.width - 1 && |MergeFragment(p.buffer, raw)| >= ctx.width - 1
    ensures var merged := MergeFragment(p.buffer, LogSchema.LineTokens(line));
      ProcessLine(ctx, p, line)
        == p.(buffer := [], failed := true, cells := AddRowData(p.cells, ctx.special, merged, p.row).cells,
              progress := p.progress + [Join(merged, Space)], row := p.row + 1)
  {
    var merged := MergeFragment(p.buffer, LogSchema.LineTokens(line));
    AddRowDataPlacesTokens(p.cells, ctx.special, merged, p.row);
  }

  /** The fragment buffer after a run of short lines, each merged in turn. */
  function Fragments(buffer: seq<Str>, lines: seq<Str>): (r: seq<Str>)
    decreases |lines|
  {
    if |lines| == 0 then buffer
    else Fragments(MergeFragment(buffer, LogSchema.LineTokens(lines[0])), lines[1..])
  }

  /** Merging never shortens the buffer. */
  lemma {:induction false} FragmentsGrow(buffer: seq<Str>, lines: seq<Str>)
    ensures |Fragments(buffer, lines)| >= |buffer|
    decreases |lines|
  {
    if |lines| > 0 {
      FragmentsGrow(MergeFragment(buffer, LogSchema.LineTokens(lines[0])), lines[1..]);
    }
  }

  /**
   * Short lines whose fragments never grow long enough are only buffered:
   * nothing is written, reported or failed, and the buffer left when the
   * lines run out is never written.
   */
  lemma {:induction false} TrailingFragmentsDropped(ctx: Context, p: Pass, lines: seq<Str>)
    requires !p.thrown
    requires forall j :: 0 <= j < |lines| ==> |LogSchema.LineTokens(lines[j])| < ctx.width - 1
    requires |Fragments(p.buffer, lines)| < ctx.width - 1
    ensures ProcessLines(ctx, p, lines) == p.(buffer := Fragments(p.buffer, lines))
    decreases |lines|
  {
    if |lines| > 0 {
      var merged := MergeFragment(p.buffer, LogSchema.LineTokens(lines[0]));
      FragmentsGrow(merged, lines[1..]);
      FragmentHeld(ctx, p, lines[0]);
      var next := p.(buffer := merged);
      assert ProcessLine(ctx, p, lines[0]) == next;
      TrailingFragmentsDropped(ctx, next, lines[1..]);
    }
  }
}
