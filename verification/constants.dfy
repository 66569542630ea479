/**
 * The vocabulary the converter consumes: the W3C Extended Log Format field
 * directive, the header names the sheet logic looks for, the numeric column
 * names, the split markers, the hour formula and the status messages.
 */
module LogConstants {
  import opened Text

  /** `LogTokens.LineSplitMarker`, ' '. */
  const Space: CodeUnit := 0x20
  /** `LogTokens.PathSplitMarker`, '\'. */
  const Backslash: CodeUnit := 0x5C
  /** `LogTokens.FileSplitMarker`, '-'. */
  const Dash: CodeUnit := 0x2D
  /** `LogTokens.ExtensionSplitMarker`, '.'. */
  const Dot: CodeUnit := 0x2E
  /** `LogTokens.CommentMarker`, '#'. */
  const Hash: CodeUnit := 0x23
  const Colon: CodeUnit := 0x3A

  /** `LogTokens.LogMarker`: the `#Fields:` directive of the W3C Extended Log Format. */
  const LogMarker: Str := U("#Fields:")
  /** `LogTokens.PivotMarker`. */
  const PivotMarker: Str := U("Pivot_")

  const Date: Str := U("date")
  const Time: Str := U("time")
  const Hour: Str := U("hour")
  const UriStem: Str := U("cs-uri-stem")
  const TimeTaken: Str := U("time-taken")

  /** `Constants.NumberColumns`: the fields whose cells are written as integers. */
  const NumberColumns: seq<Str> := [
    U("s-port"), U("sc-status"), U("sc-substatus"), U("sc-win32-status"),
    U("sc-bytes"), U("cs-bytes"), U("time-taken")
  ]

  /** The fixed row count of a worksheet. */
  const MaxSheetRows: int := 1048576

  const FormulaHead: Str := U("=TEXT(B")
  const FormulaTail: Str := U(", \"hh:mm\")")

  /** `string.Format(LogTokens.HourFormulae, row)`: hour and minute of cell B`row`. */
  function HourFormula(row: int): Str
  {
    FormulaHead + IntStr(row) + FormulaTail
  }

  /** The name of the pivot sheet built for a log sheet. */
  function PivotName(sheet: Str): Str
  {
    PivotMarker + sheet
  }

  const DetailsHead: Str := U("Found ")
  const DetailsMiddle: Str := U(" log file")
  const DetailsFolder: Str := U(" in the folder '")
  const DetailsEnd: Str := U("'.")

  /** `Messages.GetLogDetails`. */
  function GetLogDetails(fileCount: int, folderName: Str): Str
  {
    DetailsHead + IntStr(fileCount) + DetailsMiddle + (if fileCount > 1 then U("s") else [])
      + DetailsFolder + folderName + DetailsEnd
  }

  /** The seven numeric names are distinct and none is a name the sheet logic treats specially. */
  lemma NumberColumnsAreDistinct()
    ensures |NumberColumns| == 7
    ensures forall i, j :: 0 <= i < j < |NumberColumns| ==> NumberColumns[i] != NumberColumns[j]
    ensures Date !in NumberColumns && Time !in NumberColumns && Hour !in NumberColumns
    ensures UriStem !in NumberColumns
  {
    var lengths := seq(|NumberColumns|, i requires 0 <= i < |NumberColumns| => |NumberColumns[i]|);
    assert lengths == [6, 9, 12, 15, 8, 8, 10];
    assert NumberColumns[4][0] != NumberColumns[5][0];
    forall i, j | 0 <= i < j < |NumberColumns| ensures NumberColumns[i] != NumberColumns[j] {
      if lengths[i] == lengths[j] {
        assert i == 4 && j == 5;
      }
    }
    assert |Date| == |Time| == |Hour| == 4 && |UriStem| == 11;
    assert forall i :: 0 <= i < |NumberColumns| ==> lengths[i] != 4 && lengths[i] != 11;
  }

  /** The directive starts with the comment marker, so the line classifier must keep it explicitly. */
  lemma LogMarkerIsComment()
    ensures |LogMarker| == 8 && LogMarker[0] == Hash
  {
  }

  lemma SplitMarkersDistinct()
    ensures Space != Backslash && Space != Dash && Space != Dot
    ensures Backslash != Dash && Backslash != Dot && Dash != Dot
  {
  }

  /** The pivot prefix is six units long, has no '-', and its second unit is not ':'. */
  lemma PivotMarkerShape()
    ensures |PivotMarker| == 6
    ensures Dash !in PivotMarker
    ensures PivotMarker[1] != Colon
  {
  }

  lemma {:induction false} IntStrInjective(a: int, b: int)
    ensures IntStr(a) == IntStr(b) ==> a == b
  {
    if IntStr(a) == IntStr(b) {
      if a < 0 && b < 0 {
        assert IntStr(a)[1..] == NatStr(-a);
        assert IntStr(b)[1..] == NatStr(-b);
        NatStrInjective(-a, -b);
      } else if a >= 0 && b >= 0 {
        NatStrInjective(a, b);
      }
    }
  }

  /** The formula of row `r` reads cell B`r` of the same row, so distinct rows get distinct formulas. */
  lemma HourFormulaReadsOwnRow(r: int, s: int)
    ensures StartsWith(HourFormula(r), FormulaHead + IntStr(r))
    ensures HourFormula(r) == HourFormula(s) ==> r == s
  {
    PrefixStarts(FormulaHead + IntStr(r), FormulaTail);
    if HourFormula(r) == HourFormula(s) {
      Cancel(FormulaHead, IntStr(r), IntStr(s), FormulaTail);
      IntStrInjective(r, s);
    }
  }

  lemma PrefixStarts(a: Str, b: Str)
    ensures StartsWith(a + b, a)
  {
    assert (a + b)[..|a|] == a;
  }

  /** The message says "files" exactly when more than one file was found. */
  lemma LogDetailsPlural(fileCount: int, folderName: Str)
    ensures var at := |DetailsHead + IntStr(fileCount) + DetailsMiddle|;
      && at < |GetLogDetails(fileCount, folderName)|
      && (GetLogDetails(fileCount, folderName)[at] == Unit('s') <==> fileCount > 1)
  {
    var head := DetailsHead + IntStr(fileCount) + DetailsMiddle;
    var rest := DetailsFolder + folderName + DetailsEnd;
    if fileCount > 1 {
      UnitAfter(head, U("s"), rest);
    } else {
      UnitAfter(head, [], rest);
      assert rest[0] == Unit(' ');
    }
  }

  lemma UnitAfter(head: Str, x: Str, rest: Str)
    requires |x| + |rest| > 0
    ensures |head| < |head + x + rest|
    ensures (head + x + rest)[|head|] == if |x| > 0 then x[0] else rest[0]
  {
  }
}
