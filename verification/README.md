# IISLogsToExcel in Dafny

IISLogsToExcel is a Windows desktop tool. It reads IIS access logs in the W3C
Extended Log Format and writes them into Excel workbooks. Each log gets one
worksheet. The sheet has a header row taken from the `#Fields:` directive, with
an `hour` column inserted after `date` and `time`. Every data line becomes one
row. Columns named in `Constants.NumberColumns` hold integers. The unused rows
below the data are hidden. An optional pivot sheet `Pivot_<name>` can be added
next to each log sheet.

This project models the core of that tool as pure Dafny functions and proves
what the code guarantees about it.

- **Log to worksheet, three revisions.**
  - The first release is `MainWindow.xaml.cs`, module `FirstRelease`.
  - The repairing column loop is `ExcelSheetProcessor.cs`, module `ClassicProcessor`.
  - The current fragment-buffer loop is `tools/ExcelSheetProcessor.cs`, module `LatestProcessor`.
  - All three share the line filter, the header handling and the numeric columns in `LogSchema`.
  - They also share the row layout and the pivot decision in `Worksheet`.
- **Sheet names.** `SheetNames` covers the path tail, the stem, the 6- and
  10-unit truncations, and the counter suffixes that keep one workbook's
  names distinct.
- **Progress arithmetic.** `Progress` models the byte counters and the
  integer percentage of `IISLogsToExcel.xaml.cs`.
- **The settings store.** `IniStore` models the INI file of `tools/IniFile.cs`.
  The older `IniFile.cs` has the same `GetValue`, `SetValue` and the same
  lines written by `Save`. Its `Load` is the same under ordinal comparison;
  it tests for `;`, `[` and `]` with the culture-sensitive string overloads
  (see "Left out").
- **Token helpers.** `Utility` models `tools/Utility.cs`. `LegacyUtility`
  models `Utility.cs` and `Extensons.cs`, which have identical bodies.
- **Shared vocabulary.** `LogConstants` models `Constants.cs`, and `Text`
  models the .NET string operations the code calls.

Strings are sequences of UTF-16 code units, matching what .NET `string`
operations see. A worksheet is a map from (row, column) to a cell. A cell is a
text, an integer or a formula. An exception inside a sheet builder becomes a
`Threw`/`thrown` result that carries the cells written before the throw.
A file the builder marks failed (`UpdateList(file, Brushes.Tomato)`) is a
`failed` flag. The texts whose sizes are reported to the progress bar are kept
in order. File reading, the UI, logging and message boxes are outside the
model. The file's lines and the port-id set are parameters.

## Model

| member | source | states |
|---|---|---|
| Text.Filter | tools/Utility.cs:33-37 | `Where` keeps exactly the elements that pass the test: every kept element passes and comes from the input, and every passing input element is kept |
| Text.FilterIsSubsequence | tools/Utility.cs:33-37 | the filtered sequence keeps the input's order |
| Text.FilterConcat | tools/Utility.cs:33-37 | filtering distributes over concatenation |
| Text.FilterKeepsAll | tools/Utility.cs:33-37 | filtering leaves a sequence unchanged exactly when every element passes |
| Text.FilterShrinks | tools/Utility.cs:33-37 | one failing element makes the result strictly shorter |
| Text.FilterIdempotent | tools/Utility.cs:33-37 | filtering twice is filtering once |
| Text.IndexOf | tools/ExcelSheetProcessor.cs:22 | `Array.IndexOf` is -1 exactly when the element is absent; otherwise it is the first index holding it |
| Text.IndexOfAppend | tools/IniFile.cs:56-59 | appending keeps the index of an element already present and gives a new element the last index; this is dictionary insertion order |
| Text.Split | tools/ExcelSheetProcessor.cs:149 | `Split(' ')` gives at least one piece, and no piece holds the separator |
| Text.SplitCount | tools/ExcelSheetProcessor.cs:149 | n separators give n + 1 pieces, with empty pieces kept |
| Text.JoinSplit | tools/ExcelSheetProcessor.cs:187 | joining the pieces of a split with the same separator gives the string back |
| Text.SplitJoin | tools/ExcelSheetProcessor.cs:187 | splitting a join of separator-free pieces gives the pieces back |
| Text.SplitAround | tools/ExcelSheetProcessor.cs:149 | a separator between two strings separates their pieces |
| Text.LastPieceAfterSeparator | tools/ExcelSheetProcessor.cs:38-39 | `LastOrDefault` of a split is the text after the last separator |
| Text.LastPieceExtends | tools/ExcelSheetProcessor.cs:38-39 | text without the separator appended to a string extends its last piece |
| Text.FirstPieceBeforeSeparator | tools/ExcelSheetProcessor.cs:47 | `FirstOrDefault` of a split is the text before the first separator |
| Text.SplitPiecesWithout | tools/ExcelSheetProcessor.cs:45-47 | a unit absent from the string is absent from every piece |
| Text.ReplaceAll | tools/ExcelSheetProcessor.cs:119 | `Replace` changes nothing when the pattern does not occur, and deleting a pattern never lengthens the string |
| Text.ReplaceAllLeading | tools/ExcelSheetProcessor.cs:119 | an occurrence at the front is replaced and the scan resumes after it |
| Text.TrimBy | tools/IniFile.cs:28 | the trimmed text has no white space at either end; it is empty exactly when the input is all white space; every non-white unit survives |
| Text.TrimByIdentity | tools/IniFile.cs:28 | text with no white space at its ends is its own trim |
| Text.TrimPadded | tools/IniFile.cs:28 | trimming removes exactly the white padding around a text with non-white ends |
| Text.ToLowerInvariant | tools/ExcelSheetProcessor.cs:121 | lower-casing keeps the length and maps each unit on its own |
| Text.ToLowerIdempotent | tools/ExcelSheetProcessor.cs:121 | lower-casing twice is lower-casing once |
| Text.NatStrValue | Constants.cs:31 | the decimal digits printed for a row number read back as that number |
| Text.NatStrInjective | Constants.cs:31 | distinct numbers print differently |
| Text.ParseInt32 | tools/Utility.cs:18-19 | `int.TryParse` reads only 32-bit values, reads a digit string that fits as its value, and reads nothing from "" |
| Text.ParseIntStr | tools/Utility.cs:18-19 | every printed 32-bit integer parses back to itself |
| LogConstants.NumberColumnsAreDistinct | Constants.cs:7 | the seven numeric names are distinct, and none of them is `date`, `time`, `hour` or `cs-uri-stem` |
| LogConstants.LogMarkerIsComment | Constants.cs:30 | `#Fields:` starts with the comment marker, so the line filter must keep it explicitly |
| LogConstants.SplitMarkersDistinct | Constants.cs:37-40 | the four split markers are pairwise distinct |
| LogConstants.PivotMarkerShape | Constants.cs:33 | `Pivot_` is six units long and holds no '-' |
| LogConstants.IntStrInjective | Constants.cs:31 | distinct integers print differently |
| LogConstants.HourFormulaReadsOwnRow | Constants.cs:31 | the hour formula of row r reads cell B r, and distinct rows get distinct formulas |
| LogConstants.LogDetailsPlural | Constants.cs:46-47 | the message says "files" exactly when more than one file was found |
| Utility.GetValidNumber | tools/Utility.cs:18-19 | the result is a 32-bit value; "" gives 0; a digit string that fits gives its value |
| Utility.GetValidNumberRejectsForeign | tools/Utility.cs:18-19 | any unit that is not a digit, sign or white space makes the result 0 |
| Utility.GetValidNumberOutOfRange | tools/Utility.cs:18-19 | a digit string beyond 32 bits gives 0 |
| Utility.GetValidNumberOfPrinted | tools/Utility.cs:18-19 | a printed 32-bit integer reads back as itself |
| Utility.NumericReadsAsDigits | tools/Utility.cs:22-23 | a numeric string reads as its digit value when that fits in 32 bits, and as 0 otherwise |
| Utility.IsNumericOfPrinted | tools/Utility.cs:22-23 | every printed natural number is numeric, and nothing that starts with a sign is |
| Utility.IsNumeric2Agrees | tools/Utility.cs:26-27 | the regex test accepts exactly what `IsNumeric` accepts, plus digits followed by one final line feed |
| Utility.SupplementaryBranchUnreachable | tools/Utility.cs:37 | the 0x10000-0x10FFFF branch can never hold for a 16-bit unit |
| Utility.RemoveInvalidXmlChars | tools/Utility.cs:30-37 | "" is returned as is; the result is an in-order subsequence of XML characters with no surrogate, and every XML character of the input is kept |
| Utility.RemoveInvalidXmlCharsPerUnit | tools/Utility.cs:30-37 | the filter distributes over concatenation and keeps a single unit exactly when it is an XML character |
| Utility.RemoveInvalidXmlCharsKeepsValid | tools/Utility.cs:30-37 | text passes unchanged exactly when it is made only of XML characters |
| Utility.RemoveInvalidXmlCharsIdempotent | tools/Utility.cs:30-37 | cleaning twice is cleaning once |
| Utility.XmlMatches | tools/Utility.cs:44 | every regex match is one XML character |
| Utility.ConcatMatchesIsFilter | tools/Utility.cs:44 | concatenating the matches is filtering by the predicate |
| Utility.RemoveInvalidXmlCharsAgree | tools/Utility.cs:40-44 | the regex version and the predicate version give the same text on every input |
| Utility.RootPrefix | tools/Utility.cs:85 | the prefix to strip ends in '\' and starts with the root |
| Utility.GetFileNameWithoutRoot | tools/Utility.cs:84-85 | the result is never longer than the file path, and is the path itself when the prefix does not occur |
| Utility.FileNameUnderRoot | tools/Utility.cs:84-85 | a file under the root loses exactly the root prefix when the rest does not repeat it |
| LegacyUtility.GetValidNumber | Utility.cs:11-17 | the statement form gives a 32-bit value |
| LegacyUtility.NonDigits | Utility.cs:25 | the `nonDigit` list holds exactly the input's non-digit units |
| LegacyUtility.IsNumericCases | Utility.cs:20-30 | the older test fails exactly when the input is empty or some unit is not a digit |
| LegacyUtility.AgreesWithCurrent | Extensons.cs:5-23 | both older helpers agree with the current ones on every input |
| LogSchema.KeptLines | tools/ExcelSheetProcessor.cs:109-110 | the kept lines are an in-order subsequence, each kept, and every keepable line is kept |
| LogSchema.KeptLinesExactly | tools/ExcelSheetProcessor.cs:109-110 | a line is kept if and only if it is an input line that is no comment or is the directive |
| LogSchema.DirectiveIsKept | tools/ExcelSheetProcessor.cs:110 | the directive starts with '#' and is still kept |
| LogSchema.HeaderLineOfDirective | tools/ExcelSheetProcessor.cs:118-119 | `#Fields:` followed by blanks and the field list gives the field list |
| LogSchema.NormalisedFields | tools/ExcelSheetProcessor.cs:121 | one header per piece of the split, each cleaned and lower-cased |
| LogSchema.NormaliseHeaderIdempotent | tools/ExcelSheetProcessor.cs:121 | normalising a header twice is normalising it once |
| LogSchema.CleanTokens | tools/ExcelSheetProcessor.cs:149 | each token is cleaned of non-XML characters, one to one |
| LogSchema.LineTokens | tools/ExcelSheetProcessor.cs:149 | a data line gives one token more than it has spaces |
| LogSchema.DateTimeNeedTwo | tools/ExcelSheetProcessor.cs:122 | a header that passes the `date`/`time` test has at least two fields, so inserting at index 2 is safe |
| LogSchema.NumberColumnIndexes | tools/ExcelSheetProcessor.cs:18-28 | -1 is in the set exactly when some numeric name is missing; the other members are exactly the first indices of numeric names |
| LogSchema.HourColumnNotNumeric | tools/ExcelSheetProcessor.cs:132-144 | index 2, the inserted `hour`, is never a numeric index |
| LogSchema.Headers | tools/ExcelSheetProcessor.cs:132 | the header row has one field more than the header line, with `hour` at index 2 |
| Worksheet.InsertHour | tools/ExcelSheetProcessor.cs:132 | `Insert(2, "hour")` adds one entry, `hour` at index 2 |
| Worksheet.InsertHourAlignsFields | tools/ExcelSheetProcessor.cs:74-88 | data token i lands under header field i, never in the hour column |
| Worksheet.HeaderRow | tools/ExcelSheetProcessor.cs:133-134 | row 1 holds header k in column k + 1 and nothing else |
| Worksheet.HeaderRowIsUsed | tools/ExcelSheetProcessor.cs:227-229 | a sheet with its header row always has a used range |
| Worksheet.AddRowDataPlacesTokens | tools/ExcelSheetProcessor.cs:74-88 | with two or more tokens: each token lands in its header's column, numeric exactly where its header index is numeric; column 3 holds the hour formula of the row; no other cell changes |
| Worksheet.AddRowDataInRow | tools/ExcelSheetProcessor.cs:74-88 | a row write, finished or not, changes only its own row, and a line of fewer than two tokens adds at most column 1 |
| Worksheet.AddRowDataThrowsOnShortLine | tools/ExcelSheetProcessor.cs:76-77 | fewer than two tokens throw at `values[1]`, after column 1 when there is a token 0 |
| Worksheet.SetupPivotSheet | tools/ExcelSheetProcessor.cs:219-257 | no used range marks the file failed and adds nothing; a pivot table is made exactly when there is a used range, the workbook accepts `Pivot_<name>`, and the used range's first row holds `time`, `hour`, `cs-uri-stem` and `time-taken`; the file is marked failed exactly when no table is made; an accepted name is added even when a field is missing |
| Worksheet.PivotSheetIsGuardedStep | tools/ExcelSheetProcessor.cs:228-255 | with a used range, the sheets after `SetupPivotSheet` are those of `CreateSingleFile`'s guarded pivot step, whatever the fields; the workbook grows by exactly `Pivot_<name>` when no sheet has that name ignoring case |
| Worksheet.MissingFieldLeavesSheet | tools/ExcelSheetProcessor.cs:236-255 | a used range without `cs-uri-stem` leaves an added `Pivot_<name>` sheet with no table and the file marked failed |
| LatestProcessor.GetFixedStemData | tools/ExcelSheetProcessor.cs:90-99 | a line of fewer than seven tokens throws; a port id at index 6 leaves the tokens alone; otherwise tokens 4 and 5 are glued |
| LatestProcessor.FixedStemKeepsText | tools/ExcelSheetProcessor.cs:95-98 | the stem repair loses no character |
| LatestProcessor.MergeFragment | tools/ExcelSheetProcessor.cs:163-172 | an empty buffer takes the tokens; otherwise the first token is glued on and the count grows by one less than the token count |
| LatestProcessor.MergeFragmentKeepsText | tools/ExcelSheetProcessor.cs:163-172 | merging keeps every character of the buffer and the line, in order |
| LatestProcessor.WriteRow | tools/ExcelSheetProcessor.cs:191-193 | a row write throws exactly when the tokens are fewer than two; otherwise the row advances and the text is reported |
| LatestProcessor.ProcessLine | tools/ExcelSheetProcessor.cs:147-194 | one line advances the row by at most one and only appends to the progress texts |
| LatestProcessor.ProcessLines | tools/ExcelSheetProcessor.cs:147-194 | an exception ends the loop; each line advances the row by at most one; progress only grows |
| LatestProcessor.ContextOf | tools/ExcelSheetProcessor.cs:132-144 | the header width is the field count plus the `hour` column |
| LatestProcessor.SetupLogSheet | tools/ExcelSheetProcessor.cs:102-213 | nothing is hidden exactly when the file has no valid header, and then the file is failed with nothing written; otherwise rows are hidden from a row between 2 and one past the last kept line |
| LatestProcessor.Run | tools/ExcelSheetProcessor.cs:147-194 | the loop ends between row 2 and one past the last kept line |
| LatestProcessor.ProcessLineSteady | tools/ExcelSheetProcessor.cs:147-194 | one line keeps the loop invariant (the buffer is shorter than a row, every cell is above the current row) or aborts with only column 1 of the current row new; rows above are never rewritten |
| LatestProcessor.WriteRowSteady | tools/ExcelSheetProcessor.cs:191-193 | a row write keeps the rows above, and either moves past the row or leaves at most column 1 of it |
| LatestProcessor.ProcessLinesSteady | tools/ExcelSheetProcessor.cs:147-194 | the whole loop keeps the invariant or ends aborted, with the rows above the start unchanged |
| LatestProcessor.SetupLogSheetShape | tools/ExcelSheetProcessor.cs:102-213 | a valid file's sheet keeps the header row, reports the header line first, and has no cell in its hidden rows except column 1 of the first one when the file is marked failed (after an exception or a fragment write) |
| LatestProcessor.RunShape | tools/ExcelSheetProcessor.cs:129-199 | the loop from the header row ends in that shape |
| LatestProcessor.WhenALineThrows | tools/ExcelSheetProcessor.cs:150-191 | a line throws in two cases only: the stem repair reads token 6 of a line of fewer than seven tokens, or a single pending fragment is written as a row |
| LatestProcessor.WideLineSkipped | tools/ExcelSheetProcessor.cs:153-158 | a line still too wide after the repair is dropped, but its row stays empty and the row count advances |
| LatestProcessor.WideLineRepaired | tools/ExcelSheetProcessor.cs:150-151 | a line one token too wide, with no port id at index 6, is written with the stem halves glued |
| LatestProcessor.FragmentHeld | tools/ExcelSheetProcessor.cs:161-176 | a short line joins the buffer, and nothing is written while the buffer stays short |
| LatestProcessor.LatestNormalLine | tools/ExcelSheetProcessor.cs:179-193 | a complete line with nothing pending is written as `AddRowData` of its tokens, reported with its own text, and the row advances |
| LatestProcessor.LatestShortLineCompletes | tools/ExcelSheetProcessor.cs:161-193 | a short line that makes the pending fragments long enough writes the merged tokens as one row, reports them joined by spaces, empties the buffer and marks the file failed |
| LatestProcessor.TrailingFragmentsDropped | tools/ExcelSheetProcessor.cs:161-176 | short lines whose fragments stay short are only buffered: nothing is written, reported or failed, and a buffer left when the lines run out is never written |
| LatestProcessor.PendingFragmentsReplaceLine | tools/ExcelSheetProcessor.cs:182-191 | a complete line that arrives while two or more fragment tokens are pending is lost; the fragments are written in its place and the file is marked failed |
| ClassicProcessor.UpdatePreviousCells | ExcelSheetProcessor.cs:65-71 | the column before gets its text and the text of `col` joined by a space, `col` gets the value, and nothing else changes |
| ClassicProcessor.MergeKeepsPieces | ExcelSheetProcessor.cs:69 | the merged cell splits on ' ' into the pieces of the two cells it joined |
| ClassicProcessor.RemoveAt | ExcelSheetProcessor.cs:144 | removing one index shifts every later token left by one |
| ClassicProcessor.WithoutAll | ExcelSheetProcessor.cs:144 | `Where(x => x != value)` removes every copy of the value and keeps every other token |
| ClassicProcessor.WithoutAllAbsent | ExcelSheetProcessor.cs:144 | removing a value that does not occur changes nothing |
| ClassicProcessor.WithoutAllMiddle | ExcelSheetProcessor.cs:144 | removing a value that occurs once is removing that one position |
| ClassicProcessor.RepairAgreesOnUniqueToken | ExcelSheetProcessor.cs:144 | `SetupLogSheet`'s removal of every copy equals the removal of the one misplaced token whenever the token is unique in the line |
| ClassicProcessor.FillRowFrame | ExcelSheetProcessor.cs:132-150 | the column loop as written, which removes every copy of a misplaced token, writes only in its row, from column i - 1 to the column of the last token |
| ClassicProcessor.RepairRow | ExcelSheetProcessor.cs:132-150 | the `for` loop with its `i--; continue` ends and computes the recursive model of the loop as written |
| ClassicProcessor.FillRowClean | ExcelSheetProcessor.cs:132-150 | a line that needs no repair is laid out exactly as the current `AddRowData` lays it out |
| ClassicProcessor.OneRepairShiftsLeft | ExcelSheetProcessor.cs:140-146 | in the corrected loop, one repair joins the two halves in the column before and shifts every later token one column left of its header; nothing is written past them |
| ClassicProcessor.OneRepairAsWritten | ExcelSheetProcessor.cs:140-146 | in the loop as written, one repair joins the two halves in the column before and keeps the misplaced token in its own column; what is left once every copy of it is removed is laid out from the next column on; when the token occurs once, the row is the corrected loop's |
| ClassicProcessor.WithoutAllRepeated | ExcelSheetProcessor.cs:144 | on a line that repeats the misplaced token, the removal drops both copies |
| ClassicProcessor.RepeatedTokenIsLost | ExcelSheetProcessor.cs:140-146 | the as-written repair loses the second copy of a repeated token: the last token lands in column 7 and column 8 stays empty |
| ClassicProcessor.LostAfterRepair | ExcelSheetProcessor.cs:140-146 | a line repaired at index 5 whose tokens, less the repeated one, end in a number and then `c` writes `c` in column 7 and nothing in column 8 |
| ClassicProcessor.RepeatedLineShape | ExcelSheetProcessor.cs:140-146 | the line `head q port q c` needs a repair at index 5, and dropping `q` leaves `head port c` |
| ClassicProcessor.RepairMissesColumn8 | ExcelSheetProcessor.cs:142-143 | merging columns 4 and 5 of a row with no cells leaves column 8 empty |
| ClassicProcessor.AsWrittenSkips | ExcelSheetProcessor.cs:149 | a token that needs no repair is written in the column after its header index |
| ClassicProcessor.AsWrittenRepairs | ExcelSheetProcessor.cs:140-146 | a misplaced token is merged into the column before, every copy is removed, and the same index is read again |
| ClassicProcessor.AsWrittenAgreesWhenClean | ExcelSheetProcessor.cs:132-150 | where no token needs a repair, the as-written and corrected loops agree |
| ClassicProcessor.RepeatedTokenIsKept | ExcelSheetProcessor.cs:140-146 | with only the misplaced token removed, the repeated token stays in column 7 and the last token reaches column 8 |
| ClassicProcessor.SplitStemLineIsAnExample | ExcelSheetProcessor.cs:138-139 | a URL stem holding a space, followed by query `-`, a port and user `-`, is such a line |
| ClassicProcessor.ProcessLine | ExcelSheetProcessor.cs:124-154 | a line throws exactly when it holds no space; otherwise the row advances and the line is reported |
| ClassicProcessor.ProcessLines | ExcelSheetProcessor.cs:124-154 | an exception ends the loop; each line advances the row by at most one; progress only grows |
| ClassicProcessor.Run | ExcelSheetProcessor.cs:108-154 | the loop ends between row 2 and one past the last kept line |
| ClassicProcessor.SetupLogSheet | ExcelSheetProcessor.cs:81-173 | nothing is hidden exactly when the file has no valid header, and then the file is failed with nothing written; otherwise rows are hidden from a row between 2 and one past the last kept line |
| ClassicProcessor.CleanRowMatchesCurrentLayout | ExcelSheetProcessor.cs:128-150 | a row needing no repair is the very row the current `AddRowData` writes |
| ClassicProcessor.CleanLineMatchesCurrentLayout | ExcelSheetProcessor.cs:124-154 | a line needing no repair is written and reported as the current revision writes it |
| ClassicProcessor.OneTokenLineThrows | ExcelSheetProcessor.cs:128-129 | a line without a space throws after column 1, and the row does not advance |
| ClassicProcessor.WriteLineFrame | ExcelSheetProcessor.cs:128-150 | a row write, with the column loop as written, touches only its own row; after an exception only column 1 is new |
| ClassicProcessor.ProcessLineSteady | ExcelSheetProcessor.cs:124-154 | one line keeps every cell above the current row, or aborts with only column 1 of it new |
| ClassicProcessor.ProcessLinesSteady | ExcelSheetProcessor.cs:124-154 | the whole loop keeps that invariant or ends aborted, with the rows above unchanged |
| ClassicProcessor.SetupLogSheetShape | ExcelSheetProcessor.cs:81-173 | a valid file's sheet keeps its header row, reports the header line first, has no cell in its hidden rows except column 1 of the first one after an exception, and is marked failed exactly when some data line has no space |
| ClassicProcessor.ProcessLinesThrows | ExcelSheetProcessor.cs:124-153 | the line loop throws exactly when one of its lines has no space |
| ClassicProcessor.RunThrows | ExcelSheetProcessor.cs:121-153 | a valid file's loop throws exactly when one of its data lines (kept lines 1 on) has no space |
| ClassicProcessor.RunShape | ExcelSheetProcessor.cs:108-154 | the loop from the header row ends in that shape |
| FirstRelease.RawFields | MainWindow.xaml.cs:116-119 | the header tokens are the pieces of the header line, neither cleaned nor lower-cased |
| FirstRelease.RowCells | MainWindow.xaml.cs:139-151 | a line writes only into its own row, and always column 1 |
| FirstRelease.WriteRow | MainWindow.xaml.cs:142-151 | a row write throws exactly when the line has fewer than two tokens, and changes only its own row |
| FirstRelease.RowLayout | MainWindow.xaml.cs:142-151 | tokens 0 and 1 and the hour formula fill columns 1 to 3, token c - 2 fills column c, and `timeTaken` as a number fills the header's last column; each gives way to that last column, and nothing else is written. `WriteRow` passes as `timeTaken` the last token read by `int.TryParse`, 0 when it does not parse (MainWindow.xaml.cs:149) |
| FirstRelease.MatchingLineAligns | MainWindow.xaml.cs:142-151 | a line with one token per field lines up with the header: the hour formula sits under `hour`, token i under field i, and `timeTaken`, as a number, under the last field |
| FirstRelease.TokenAligns | MainWindow.xaml.cs:147-148 | token i of a matching line lands under field i |
| FirstRelease.LongLineSpillsPastHeader | MainWindow.xaml.cs:147-151 | a line with more tokens than fields writes a token into a column with no header |
| FirstRelease.ProcessLine | MainWindow.xaml.cs:137-153 | a line throws exactly when it holds no space, and otherwise advances the row |
| FirstRelease.ProcessLines | MainWindow.xaml.cs:137-153 | an exception ends the loop, and each line advances the row by at most one |
| FirstRelease.RawHeaders | MainWindow.xaml.cs:119-128 | the header row has one field more than the header line, with `hour` at index 2 |
| FirstRelease.SetupLogData | MainWindow.xaml.cs:110-158 | never marks a file failed and reports nothing; an invalid header writes nothing; rows are hidden exactly when the header is valid and no exception escaped |
| FirstRelease.ProcessLinesCrash | MainWindow.xaml.cs:137-153 | the loop throws exactly when some data line has no space; otherwise it advances one row per line |
| FirstRelease.ProcessLinesRows | MainWindow.xaml.cs:137-153 | without an exception, rows above are untouched, row `p.row + j` holds exactly the layout of line j, and nothing is written below |
| FirstRelease.SetupLogDataShape | MainWindow.xaml.cs:110-158 | with a valid header and every line spaced, row 1 holds the header, line j is laid out in row j + 1, and rows are hidden after the last line |
| FirstRelease.HeaderRowKept | MainWindow.xaml.cs:127-128 | rows written after row 1 leave the header row as it was |
| FirstRelease.SetupLogDataCrash | MainWindow.xaml.cs:137-153 | when kept line i is the first data line without a space, the exception escapes: no rows are hidden, row i + 1 holds that whole line in column 1, and no other cell lies in row i + 1 or below |
| FirstRelease.ProcessLinesCrashAt | MainWindow.xaml.cs:137-153 | when line k is the first without a space, the loop throws k rows on, with that line in column 1 of the row it stopped at |
| FirstRelease.LoopCrash | MainWindow.xaml.cs:137-153 | from the header row, a first unspaced line k leaves row k + 2 holding it in column 1 and nothing else at or below that row |
| SheetNames.PathTail | tools/ExcelSheetProcessor.cs:45-46 | the tail after the last '\' and then the last '-' holds neither |
| SheetNames.PathTailOfSegment | tools/ExcelSheetProcessor.cs:45-46 | a last segment without '-' is the tail |
| SheetNames.PathTailAfterDash | tools/ExcelSheetProcessor.cs:45-46 | `dir\front-tail` has `tail` as its tail |
| SheetNames.KeepLast | tools/ExcelSheetProcessor.cs:52 | the slice is the last n units, or the whole text when it is shorter |
| SheetNames.FileLabel | tools/ExcelSheetProcessor.cs:31-43 | "" is returned as is; the label is at most ten units, free of '\' and '-', and is the tail or its last ten units |
| SheetNames.Stem | tools/ExcelSheetProcessor.cs:45-47 | the stem holds no '\', '-' or '.' |
| SheetNames.EmptyPathHasNoStem | tools/ExcelSheetProcessor.cs:33-34 | the empty path has an empty stem |
| SheetNames.StemOfTail | tools/ExcelSheetProcessor.cs:47 | a tail `name.ext` has `name` as its stem |
| SheetNames.SheetName | tools/ExcelSheetProcessor.cs:45-52 | an empty stem gives the whole path; otherwise one to six units, a suffix of the stem, free of the three markers |
| SheetNames.FirstSheetName | MainWindow.xaml.cs:211-221 | an empty stem gives the whole path; otherwise the whole non-empty stem |
| SheetNames.SheetNameTruncatesFirst | IISLogsToExcel.xaml.cs:277-282 | the later revisions keep the last six units of the first release's name |
| SheetNames.SheetNameOfLogFile | tools/ExcelSheetProcessor.cs:31-52 | `dir\name.ext` is named `name` in full by the first release, by its last six units since, and labelled by the last ten units of `name.ext` |
| SheetNames.SuffixedIsTagged | IISLogsToExcel.xaml.cs:343-344 | `base-k` ends in the counter k |
| SheetNames.SuffixedInjective | IISLogsToExcel.xaml.cs:343-344 | distinct counters give distinct names |
| SheetNames.TagIsUnique | IISLogsToExcel.xaml.cs:343-344 | a name ends in at most one counter |
| SheetNames.TaggedHasDash | IISLogsToExcel.xaml.cs:343-344 | a name ending in a counter holds a '-' |
| SheetNames.TaggedPathHasStem | IISLogsToExcel.xaml.cs:341 | a path ending in `-k` has `k` as its tail and a non-empty stem |
| SheetNames.SheetNamesAreUntagged | IISLogsToExcel.xaml.cs:341 | no sheet name that the naming rules start from ends in a counter |
| SheetNames.PivotNameTag | IISLogsToExcel.xaml.cs:352-353 | `Pivot_name` ends in a counter only when `name` does |
| SheetNames.SuffixedRangeSize | tools/ExcelSheetProcessor.cs:57-62 | a run of counters gives that many distinct names |
| SheetNames.DistinctElementsBound | tools/ExcelSheetProcessor.cs:57-62 | a list has no more distinct names than entries |
| SheetNames.TakenRunBound | tools/ExcelSheetProcessor.cs:57-62 | a run of taken counters is no longer than the sheet list, so the `while` loop ends |
| SheetNames.SheetNameAmong | tools/ExcelSheetProcessor.cs:31-66 | the result is free: the name itself when free, otherwise the first free `<name>-k` with k counting up from the number of sheets holding the name |
| SheetNames.NextName | IISLogsToExcel.xaml.cs:340-344 | the name is the base, or the base was taken and the name ends in the file's position |
| SheetNames.TaggedIsAbsent | IISLogsToExcel.xaml.cs:340-344 | a name ending in a counter no earlier name reached is not in the workbook |
| SheetNames.NextNameIsFresh | IISLogsToExcel.xaml.cs:340-346 | starting from an untagged name, the rule gives a name not yet in the workbook, and counters stay below the next position |
| SheetNames.PivotKeepsCounters | IISLogsToExcel.xaml.cs:352-353 | adding a pivot sheet keeps the counters below the same bound |
| SheetNames.AddSheet | IISLogsToExcel.xaml.cs:346 | `Worksheets.Add` succeeds exactly when no sheet has the name ignoring case, and then appends it; a name already there is always refused |
| SheetNames.LowerSuffixed | IISLogsToExcel.xaml.cs:343-344 | ignoring case, `base-k` is the lower-cased base with the counter kept |
| SheetNames.SameKeepsTag | IISLogsToExcel.xaml.cs:343-346 | a name equal, ignoring case, to one ending in `-k` ends in `-k` itself |
| SheetNames.NextNameIsFree | IISLogsToExcel.xaml.cs:340-346 | from an untagged name that equals, ignoring case, only itself among the sheets, the rule gives a name `Worksheets.Add` accepts |
| SheetNames.NoClashesNoDuplicates | IISLogsToExcel.xaml.cs:346 | names apart ignoring case are apart |
| SheetNames.AddKeepsNoClashes | IISLogsToExcel.xaml.cs:346 | adding an accepted name keeps the names apart ignoring case |
| SheetNames.PivotStep | tools/ExcelSheetProcessor.cs:236-255 | a guarded pivot step always goes on; the workbook after it is the one before, or that plus `Pivot_<name>` |
| SheetNames.BookNamesNoClashes | IISLogsToExcel.xaml.cs:336-354 | for any files, a batch that completes has sheet names pairwise apart, ignoring case and so also exactly |
| SheetNames.LogNameAgrees | IISLogsToExcel.xaml.cs:340-344 | the name given to a file equals, ignoring case, a later file's sheet name only when it is that name |
| SheetNames.PivotNameAgrees | IISLogsToExcel.xaml.cs:343-353 | so does its pivot sheet's name, when the files' names agree in case with the pivot sheets' names |
| SheetNames.BookNamesDistinct | IISLogsToExcel.xaml.cs:336-354 | when the files' sheet names equal ignoring case are equal, as are those equal to another's pivot sheet, the batch completes with a pivot clash caught, and also without pivot sheets |
| SheetNames.LatestBookNamesDistinct | IISLogsToExcel.xaml.cs:327-354 | under the same condition on the files, the current window's workbook completes with sheet names pairwise apart ignoring case |
| SheetNames.CaseClashEndsBatch | IISLogsToExcel.xaml.cs:340-346 | files `ex_ABC.log` and `ex_abc.log` in two folders end the current window's batch: the ordinal `Contains` lets the second name through and `Worksheets.Add` refuses it |
| SheetNames.ClashingBasesEndBatch | IISLogsToExcel.xaml.cs:340-346 | sheet names `ex_ABC` then `ex_abc` end the batch |
| SheetNames.SixUnitLogName | tools/ExcelSheetProcessor.cs:45-52 | `dir\name.log` with a six-unit name is named `name` |
| SheetNames.SuffixedAvoidsPrefix | IISLogsToExcel.xaml.cs:343-344 | a name not starting with a prefix free of '-' keeps not starting with it once `-k` is appended |
| SheetNames.SuffixedNotPivot | IISLogsToExcel.xaml.cs:343-344 | a name not starting with `Pivot_`, ignoring case, keeps not starting with it once `-k` is appended |
| SheetNames.ClashIsPivotLike | IISLogsToExcel.xaml.cs:352-353 | a name equal, ignoring case, to a pivot sheet's name starts with `Pivot_` ignoring case |
| SheetNames.PivotClashMember | IISLogsToExcel.xaml.cs:352-353 | `Pivot_m` equal, ignoring case, to `Pivot_name` has `m` equal to `name` ignoring case |
| SheetNames.NotPivotLikeAgrees | IISLogsToExcel.xaml.cs:352-353 | a name not starting with `Pivot_`, ignoring case, never equals a pivot sheet's name ignoring case |
| SheetNames.PivotIsFresh | IISLogsToExcel.xaml.cs:352-353 | the workbook accepts the pivot sheet of a new name not starting with `Pivot_`, when every name starting with it is the pivot of a member |
| SheetNames.NoPivotClash | IISLogsToExcel.xaml.cs:336-354 | when no file's sheet name starts with `Pivot_`, ignoring case, and the names equal ignoring case are equal, no pivot sheet ever clashes: the batch completes and a caught clash makes no difference |
| SheetNames.LatestBookGuardIdle | IISLogsToExcel.xaml.cs:327-354 | under the same condition, the current window adds every requested pivot sheet, exactly as with no guard |
| SheetNames.FirstBookNamesDistinct | MainWindow.xaml.cs:227-247 | under the same condition, the first release's unguarded workbook completes with names pairwise apart, pivot sheets included |
| SheetNames.FirstBookLogNamesDistinct | MainWindow.xaml.cs:227-247 | without pivot sheets, and with the names equal ignoring case equal, the first release's workbook completes with names pairwise apart |
| SheetNames.FirstBookPivotClash | MainWindow.xaml.cs:233-246 | files `Pivot_n.log` then `n.log` make the first release's second pivot sheet clash, which ends the batch |
| SheetNames.PivotFileNames | MainWindow.xaml.cs:211-221 | those two files are named `Pivot_n` and `n` |
| SheetNames.PivotNameClash | MainWindow.xaml.cs:170 | sheets `Pivot_n` then `n`, both with pivot sheets, clash at the second pivot sheet |
| Progress.Percentage | IISLogsToExcel.xaml.cs:69 | a zero total divides by zero; otherwise the percentage is 100 * processed / total rounded down |
| Progress.UpdateProgress | IISLogsToExcel.xaml.cs:62-73 | the total is kept, the size is added only when asked, and the percentage is shown of the new count |
| Progress.ChangeControlState | IISLogsToExcel.xaml.cs:39-49 | enabling the controls clears both counters; disabling them keeps both |
| Progress.StartBatch | IISLogsToExcel.xaml.cs:333-334 | nothing is done yet, and the total is 0 exactly when every file is empty |
| Progress.SumZero | IISLogsToExcel.xaml.cs:333 | the sum of file sizes is 0 exactly when every size is 0 |
| Progress.FinishBatch | IISLogsToExcel.xaml.cs:365-366 | the end sets the done count to the total and shows 100, or divides by zero when the total is 0 |
| Progress.PercentageOfWhole | IISLogsToExcel.xaml.cs:365-366 | a whole total shows exactly 100 |
| Progress.PercentageMonotonic | IISLogsToExcel.xaml.cs:69 | more bytes done never shows a smaller percentage |
| Progress.PercentageAtMostHundred | IISLogsToExcel.xaml.cs:69 | while the done count is within the total, the percentage is at most 100 |
| Progress.UpdatesCount | IISLogsToExcel.xaml.cs:62-65 | a run of updates counts exactly the bytes reported and keeps the total |
| Progress.UpdateNeverGoesBack | IISLogsToExcel.xaml.cs:62-73 | each update shows at least the percentage before it |
| Progress.ResetThenUpdateDividesByZero | IISLogsToExcel.xaml.cs:47-48 | after the controls are enabled again, an update divides by zero |
| Progress.EmptyFilesDivideByZero | IISLogsToExcel.xaml.cs:333-366 | a batch of empty files divides by zero at its end |
| IniStore.Find | tools/IniFile.cs:52 | `TryGetValue` finds a value exactly when the key is present |
| IniStore.Put | tools/IniFile.cs:59 | an existing key keeps its place, a new one goes last, and keys stay distinct |
| IniStore.FindAfterPut | tools/IniFile.cs:59 | after a put, the key reads the new value and every other key its old one |
| IniStore.GetValue | tools/IniFile.cs:51-52 | a missing section reads as null, and a value read is one stored under that section and key |
| IniStore.AddSection | tools/IniFile.cs:56-57 | a missing section is appended empty, an existing one is kept, and well-formedness is preserved |
| IniStore.GetAfterAddSection | tools/IniFile.cs:56-57 | adding a section changes no lookup |
| IniStore.SetValue | tools/IniFile.cs:54-60 | setting keeps the store well formed |
| IniStore.GetAfterSet | tools/IniFile.cs:54-60 | after `SetValue(s, k, v)`, `GetValue(s, k)` is v and every other lookup is unchanged |
| IniStore.ReadLine | tools/IniFile.cs:26-46 | one line keeps the store well formed: one section per name, one value per key |
| IniStore.ReadLines | tools/IniFile.cs:26-46 | the whole read keeps the store well formed |
| IniStore.Load | tools/IniFile.cs:20-49 | a loaded store is well formed |
| IniStore.SkipsBlankAndComment | tools/IniFile.cs:30-31 | blank and `;` lines change nothing |
| IniStore.RepeatedHeaderMerges | tools/IniFile.cs:33-38 | a header naming an existing section adds nothing, so keys under both headers merge |
| IniStore.PairBeforeHeaderIgnored | tools/IniFile.cs:39 | a pair before any header is dropped |
| IniStore.PairLineSetsValue | tools/IniFile.cs:39-45 | `key=value` sets the trimmed key to the trimmed value, which may hold '='; every other lookup is unchanged |
| IniStore.PairLines | tools/IniFile.cs:68-69 | one `key=value` line per pair |
| IniStore.SectionLines | tools/IniFile.cs:65-72 | a section is written as its `[name]` header, one line per pair, then an empty line |
| IniStore.Save | tools/IniFile.cs:62-75 | nothing is written exactly when the store has no section |
| IniStore.ReadHeader | tools/IniFile.cs:33-38 | a written header for a new section creates it, empty, and makes it current |
| IniStore.ReadPairLine | tools/IniFile.cs:39-45 | a written pair line under a current section sets exactly its key |
| IniStore.ReadPairs | tools/IniFile.cs:68-69 | the written pairs of a section read back as those pairs |
| IniStore.ReadSection | tools/IniFile.cs:65-72 | the lines of one new section read back as that section |
| IniStore.ReadSections | tools/IniFile.cs:65-72 | the written sections read back in order |
| IniStore.LoadSave | tools/IniFile.cs:20-75 | loading what `Save` writes gives the store back, when every name, key and value is trimmed, free of line breaks and of unpaired surrogates, and no key holds '=' or starts with ';' or '[' |

## Left out

- File reading, workbook saving, message boxes, logging, the status bar, the
  drag-and-drop handlers and the registry lookup. These are I/O or UI. The
  lines of a log or INI file are a parameter, and whatever a message reports
  is not modelled.
- `Constants.portIds`, which the stem repair of `tools/ExcelSheetProcessor.cs`
  reads, is not defined in `Constants.cs`. It is a parameter of
  `LatestProcessor`.
- The `Encoding.UTF8.GetByteCount` sizes given to `UpdateProgress`. The model
  keeps the reported texts, in order, instead of their byte counts.
- `worksheet.Rows(currentRow, MaxSheetRows).Hide()` is modelled as the row
  hiding starts from. A file of more than 1048576 rows, where ClosedXML would
  reject the range, is not modelled.
- ClosedXML's limit of 16384 columns is not modelled. The classic and
  first-release layouts write one column per token, so a data line of more
  tokens than that would throw there; the model writes every column.
- Freezing, bold fonts, colours, the auto filter and column widths are
  formatting only.
- ClosedXML evaluates the hour formula. The model keeps the formula text, and
  `UpdatePreviousCells` reads a formula cell as its text.
- `RangeUsed()` is taken to be non-null exactly when some cell holds a non-empty value.
- `SetupPivotData`, which `IISLogsToExcel.xaml.cs` calls, is not part of this
  model. Its workbook naming assumes that a clashing pivot name is caught and
  marks the file failed, as `SetupPivotSheet` does in both processors.
- The first release's `SetupPivotData` on a sheet with no used range passes a
  null range to ClosedXML. Only its name clash is modelled, in
  `SheetNames.FirstBookPivotClash`.
- `CreateSeperateFiles` gives each file its own workbook and saves it under a
  derived name. Only the sheet names it uses are modelled.
- Culture-sensitive comparison. The model compares ordinally, and folds
  ASCII letters only where `ToLowerInvariant` is called. The string overloads
  that compare by culture are:
  - `StartsWith("#Fields:")` at MainWindow.xaml.cs:113 and 116;
  - `StartsWith(LogTokens.LogMarker)` at tools/ExcelSheetProcessor.cs:110
    and 118, and at ExcelSheetProcessor.cs:89 and 97;
  - `StartsWith(";")`, `StartsWith("[")` and `EndsWith("]")` at
    IniFile.cs:29 and 32.
- `char.IsDigit` and the regular-expression class `\d` of `IsNumeric2`
  (tools/Utility.cs:27) are modelled on the ASCII digits. .NET matches every
  Unicode decimal digit with both; the model accepts no other digit, in
  `IsNumeric`, `IsNumeric2` and `int.TryParse`.
- `int.TryParse` accepting trailing NUL characters is not modelled.
- Worksheet-name rules of ClosedXML (31 units, forbidden characters) are not
  modelled. Its refusal of a name equal to an existing one ignoring case is
  modelled in `SheetNames.AddSheet`.
- SheetNames.AddSheet: ignores the case of ASCII letters only. ClosedXML
  ignores the case of every letter, so two names differing in a non-ASCII
  letter's case are accepted by the model and refused by the workbook.
- SheetNames.BookNamesDistinct, SheetNames.LatestBookNamesDistinct and
  SheetNames.FirstBookLogNamesDistinct promise completion only when the
  files' sheet names that are equal ignoring case are equal. `NextName`
  checks ordinally and `Worksheets.Add` ignores case, so other files end the
  batch, as `SheetNames.CaseClashEndsBatch` shows.
- SheetNames.NoPivotClash, SheetNames.LatestBookGuardIdle and
  SheetNames.FirstBookNamesDistinct need the same condition, and also that no
  sheet name starts with `Pivot_` ignoring case.
- Worksheet.SetupPivotSheet: the pivot fields are looked up by ordinal
  comparison in `fields`, the texts of the used range's first row, which the
  caller supplies. How ClosedXML reads field names from the range is not part
  of this model.
- `Dictionary` enumeration order is modelled as insertion order. .NET keeps
  that order while nothing is removed, and nothing is ever removed here.
- The exception path of `Save` and the catch-all in `Load` are not modelled,
  because the model does no I/O.
- `Progress.Percentage`: the `long` product `_processedSize * 100` is not
  bounded, because a byte count large enough to overflow it is out of reach.
- The division by a zero `_totalSize` raises `DivideByZeroException` on the
  UI thread. The model returns `DivideByZero` and leaves the handling to the
  caller.
- `Progress.ChangeControlState` models only the counters; the enabled state
  of the controls is UI.
- `FirstRelease.SetupLogData`: an escaping exception ends the whole batch in
  `ProcessButton_Click`. The model returns `crashed` and leaves the rest of
  the batch out.
- IniStore.Save: its own contract states only when nothing is written; what
  is written is stated by the round trip `IniStore.LoadSave`.
- FirstRelease.RowCells: its own contract states only where a line writes;
  the cells themselves are stated by `FirstRelease.RowLayout`.
- Text.ReplaceAll: its own contract states only the no-match case and the
  length bound; the result is characterised by the lemmas about it.
- `IniStore.ReadLine`: `File.ReadAllLines` splits the file into lines. The
  model starts from the lines.
- IniStore.LoadSave: `Save`'s lines are taken to be the lines `Load` reads
  back. The UTF-8 encoding by `StreamWriter.WriteLine` (tools/IniFile.cs:64-71)
  and the decoding by `File.ReadAllLines` are not modelled. The conditions
  `IniStore.Writable` puts on every name, key and value are needed for that:
  no line break, and no unpaired surrogate, which the encoder cannot write.
  That the encoding then round-trips is assumed, not proved.
- ClassicProcessor.OneRepairShiftsLeft: states the corrected loop `FillRow`,
  not the loop `SetupLogSheet` runs. `ClassicProcessor.OneRepairAsWritten`
  states the loop as written, and shows that the two agree when the
  misplaced token occurs once.

## Findings

| source | as written | input that shows it | evidently intended | confidence | as-written member | corrected member |
|---|---|---|---|---|---|---|
| ExcelSheetProcessor.cs:144 | the repair removes every token equal to the misplaced one (`values.Where(x => x != value)`) | the line `d t /a b - 80 - ip`: the URL stem `/a b` holds a space, so `-` lands in the numeric `s-port` column and the user name `-` repeats it | remove only the misplaced token, so each later token stays under its own header | high; not executed | ClassicProcessor.RepeatedTokenIsLost | ClassicProcessor.RepeatedTokenIsKept |

`ClassicProcessor.SetupLogSheet` runs the column loop as written
(`ClassicProcessor.FillRowAsWritten`). The corrected loop
`ClassicProcessor.FillRow` is used only by the corrected half of this finding
and by the lemmas that compare the two loops.
