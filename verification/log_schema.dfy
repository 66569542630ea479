/**
 * Reading the W3C Extended Log Format header: which lines are kept, how the
 * `#Fields:` directive becomes the header list, and which header indices are
 * numeric columns.
 */
module LogSchema {
  import opened Text
  import opened LogConstants
  import Utility
  import Worksheet

  /** A line is kept unless it is a `#` comment; the `#Fields:` directive is kept. */
  predicate IsKept(line: Str)
  {
    !(|line| > 0 && line[0] == Hash) || StartsWith(line, LogMarker)
  }

  /** The kept lines, in their original order. */
  function KeptLines(lines: seq<Str>): (r: seq<Str>)
    ensures IsSubsequence(r, lines)
    ensures forall i :: 0 <= i < |r| ==> IsKept(r[i])
    ensures forall i :: 0 <= i < |lines| && IsKept(lines[i]) ==> lines[i] in r
  {
    FilterIsSubsequence(lines, IsKept);
    Filter(lines, IsKept)
  }

  /** Every kept line is an input line that is either not a comment or the directive. */
  lemma KeptLinesExactly(lines: seq<Str>, line: Str)
    ensures line in KeptLines(lines) <==> line in lines && IsKept(line)
  {
    if line in lines && IsKept(line) {
      var i :| 0 <= i < |lines| && lines[i] == line;
    }
  }

  /** The directive itself is kept although it starts with the comment marker. */
  lemma DirectiveIsKept(rest: Str)
    ensures IsKept(LogMarker + rest)
    ensures |LogMarker + rest| > 0 && (LogMarker + rest)[0] == Hash
  {
    assert (LogMarker + rest)[..|LogMarker|] == LogMarker;
  }

  /** The first kept line with every `#Fields:` removed and trimmed, when it starts with the directive. */
  function HeaderLine(first: Str): Str
  {
    if StartsWith(first, LogMarker) then Trim(ReplaceAll(first, LogMarker, [])) else first
  }

  /** A directive followed by blanks and the field list gives the field list. */
  lemma HeaderLineOfDirective(pad: Str, fields: Str)
    requires forall k :: 0 <= k < |pad| ==> IsWhiteSpace(pad[k])
    requires |fields| > 0 && !IsWhiteSpace(fields[0]) && !IsWhiteSpace(fields[|fields| - 1])
    requires !HasInfix(pad + fields, LogMarker)
    ensures HeaderLine(LogMarker + (pad + fields)) == fields
  {
    var rest := pad + fields;
    var line := LogMarker + rest;
    assert StartsWith(line, LogMarker) by {
      assert line[..|LogMarker|] == LogMarker;
    }
    ReplaceAllLeading(LogMarker, rest, []);
    assert ReplaceAll(line, LogMarker, []) == rest;
    assert pad + fields + [] == rest;
    TrimPadded(pad, fields, [], IsWhiteSpace);
  }

  /** One header token as the two later revisions clean it. */
  function NormaliseHeader(token: Str): Str
  {
    ToLowerInvariant(Utility.RemoveInvalidXmlChars(token))
  }

  /** The header tokens of the later revisions: split on ' ', each cleaned and lower-cased. */
  function NormalisedFields(header: Str): (r: seq<Str>)
    ensures |r| == |Split(header, Space)|
    ensures forall i :: 0 <= i < |r| ==> r[i] == NormaliseHeader(Split(header, Space)[i])
  {
    var parts := Split(header, Space);
    seq(|parts|, i requires 0 <= i < |parts| => NormaliseHeader(parts[i]))
  }

  /** Normalising a token twice changes nothing more. */
  lemma NormaliseHeaderIdempotent(token: Str)
    ensures NormaliseHeader(NormaliseHeader(token)) == NormaliseHeader(token)
  {
    var clean := Utility.RemoveInvalidXmlChars(token);
    var lowered := ToLowerInvariant(clean);
    assert forall i :: 0 <= i < |lowered| ==> Utility.XmlUnit(lowered[i]) by {
      forall i | 0 <= i < |lowered| ensures Utility.XmlUnit(lowered[i]) {
        assert Utility.XmlUnit(clean[i]);
      }
    }
    Utility.RemoveInvalidXmlCharsKeepsValid(lowered);
    ToLowerIdempotent(clean);
  }

  /** Each data token cleaned of characters XML cannot hold. */
  function CleanTokens(parts: seq<Str>): (r: seq<Str>)
    ensures |r| == |parts|
    ensures forall i :: 0 <= i < |r| ==> r[i] == Utility.RemoveInvalidXmlChars(parts[i])
  {
    seq(|parts|, i requires 0 <= i < |parts| => Utility.RemoveInvalidXmlChars(parts[i]))
  }

  /** The tokens of a data line: split on ' ', each cleaned. */
  function LineTokens(line: Str): (r: seq<Str>)
    ensures |r| == multiset(line)[Space] + 1
  {
    SplitCount(line, Space);
    CleanTokens(Split(line, Space))
  }

  /** The header names both `date` and `time`. */
  predicate HasDateTime(fields: seq<Str>)
  {
    Date in fields && Time in fields
  }

  /** A header naming both `date` and `time` has at least two entries. */
  lemma DateTimeNeedTwo(fields: seq<Str>)
    requires HasDateTime(fields)
    ensures |fields| >= 2
  {
    assert Date[0] != Time[0];
    var i :| 0 <= i < |fields| && fields[i] == Date;
    var j :| 0 <= j < |fields| && fields[j] == Time;
    assert i != j;
  }

  /** `GetNumberColumnIndexes`: the first index of each numeric name in the header, -1 for a missing one. */
  function NumberColumnIndexes(headers: seq<Str>): (r: set<int>)
    ensures -1 in r <==> exists j :: 0 <= j < |NumberColumns| && NumberColumns[j] !in headers
    ensures forall i :: i in r && i != -1 ==> 0 <= i < |headers| && headers[i] in NumberColumns && headers[i] !in headers[..i]
    ensures forall i :: 0 <= i < |headers| && headers[i] in NumberColumns && headers[i] !in headers[..i] ==> i in r
  {
    var r := set j | 0 <= j < |NumberColumns| :: IndexOf(headers, NumberColumns[j]);
    assert forall i :: 0 <= i < |headers| && headers[i] in NumberColumns && headers[i] !in headers[..i] ==> i in r by {
      forall i | 0 <= i < |headers| && headers[i] in NumberColumns && headers[i] !in headers[..i]
        ensures i in r
      {
        var j :| 0 <= j < |NumberColumns| && NumberColumns[j] == headers[i];
        IndexOfFirst(headers, i);
        assert IndexOf(headers, NumberColumns[j]) == i;
      }
    }
    r
  }

  /** The hour column is never numeric, since `hour` is not a numeric name. */
  lemma HourColumnNotNumeric(fields: seq<Str>)
    requires |fields| >= 2
    ensures 2 !in NumberColumnIndexes(Worksheet.InsertHour(fields))
  {
    NumberColumnsAreDistinct();
  }

  /** The header list of a file whose first kept line is `first`. */
  function HeaderFields(first: Str): seq<Str>
  {
    NormalisedFields(HeaderLine(first))
  }

  /** Whether the kept lines start with a header that names `date` and `time`. */
  predicate HasValidHeader(kept: seq<Str>)
  {
    |kept| > 0 && HasDateTime(HeaderFields(kept[0]))
  }

  /** The header row of a file with a valid header: its fields with `hour` inserted at index 2. */
  function Headers(kept: seq<Str>): (h: seq<Str>)
    requires HasValidHeader(kept)
    ensures |h| == |HeaderFields(kept[0])| + 1 >= 3 && h[2] == Hour
  {
    DateTimeNeedTwo(HeaderFields(kept[0]));
    Worksheet.InsertHour(HeaderFields(kept[0]))
  }
}
