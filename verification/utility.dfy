/**
 * The string and number helpers of the current revision: lenient integer
 * reading, the two digit tests, the two XML-character filters and the
 * root-folder stripping of a file path.
 */
module Utility {
  import opened Text
  import opened LogConstants

  const LineFeed: CodeUnit := 0x0A

  // ---------------------------------------------------------------------------
  // Numbers

  /** `GetValidNumber`: the value `int.TryParse` reads, or 0 when it reads nothing. */
  function GetValidNumber(text: Str): (n: int)
    ensures Int32Min <= n <= Int32Max
    ensures |text| == 0 ==> n == 0
    ensures AllDigits(text) && |text| > 0 && DigitsValue(text) <= Int32Max ==> n == DigitsValue(text)
  {
    match ParseInt32(text)
    case Some(v) => v
    case None => 0
  }

  /** A unit that is neither a digit, a sign nor white space cannot occur in a readable number. */
  predicate IsForeignUnit(c: CodeUnit)
  {
    !IsAsciiDigit(c) && c != Minus && c != Plus && !IsParseWhite(c)
  }

  /** Any foreign unit (a letter, say) makes the number unreadable, so the result is 0. */
  lemma GetValidNumberRejectsForeign(text: Str, k: int)
    requires 0 <= k < |text| && IsForeignUnit(text[k])
    ensures GetValidNumber(text) == 0
  {
    var t := TrimBy(text, IsParseWhite);
    var c := text[k];
    assert c in t;
    var digits := if |t| > 0 && (t[0] == Minus || t[0] == Plus) then t[1..] else t;
    assert c in digits by {
      if |t| > 0 && (t[0] == Minus || t[0] == Plus) {
        var j :| 0 <= j < |t| && t[j] == c;
        assert j > 0 && t[1..][j - 1] == c;
      }
    }
    assert !AllDigits(digits);
    assert ParseSigned(t) == None;
  }

  /** A digit string too large for 32 bits reads as 0. */
  lemma GetValidNumberOutOfRange(text: Str)
    requires |text| > 0 && AllDigits(text) && DigitsValue(text) > Int32Max
    ensures GetValidNumber(text) == 0
  {
    TrimByIdentity(text, IsParseWhite);
    assert text[0] != Minus && text[0] != Plus;
  }

  /** Every 32-bit integer printed in decimal reads back as itself. */
  lemma GetValidNumberOfPrinted(n: int)
    requires Int32Min <= n <= Int32Max
    ensures GetValidNumber(IntStr(n)) == n
  {
    ParseIntStr(n);
  }

  /** `IsNumeric`: non-empty and no unit that is not a digit. */
  predicate IsNumeric(input: Str)
  {
    |input| > 0 && !(exists i :: 0 <= i < |input| && !IsAsciiDigit(input[i]))
  }

  /** A numeric string reads as its digit value when that fits 32 bits, and as 0 otherwise. */
  lemma NumericReadsAsDigits(input: Str)
    requires IsNumeric(input)
    ensures DigitsValue(input) <= Int32Max ==> GetValidNumber(input) == DigitsValue(input)
    ensures DigitsValue(input) > Int32Max ==> GetValidNumber(input) == 0
  {
    if DigitsValue(input) > Int32Max {
      GetValidNumberOutOfRange(input);
    }
  }

  /** The printed form of every natural number is numeric, and nothing with a sign is. */
  lemma IsNumericOfPrinted(n: nat, s: Str)
    ensures IsNumeric(NatStr(n))
    ensures |s| > 0 && (s[0] == Minus || s[0] == Plus) ==> !IsNumeric(s)
  {
  }

  // ---------------------------------------------------------------------------
  // `^\d+$`

  /** .NET's `$`: the end of the input, or just before a final line feed. */
  predicate DollarMatchesAt(s: Str, k: int)
  {
    k == |s| || (k == |s| - 1 && 0 <= k && s[k] == LineFeed)
  }

  /** `Regex.IsMatch(s, @"^\d+$")`: a run of one or more digits from the start up to a `$` position. */
  predicate MatchesDigitLine(s: Str)
  {
    exists k :: 1 <= k <= |s| && AllDigits(s[..k]) && DollarMatchesAt(s, k)
  }

  /** `IsNumeric2`. */
  predicate IsNumeric2(input: Str)
  {
    |input| > 0 && MatchesDigitLine(input)
  }

  /** The regex test agrees with `IsNumeric`, except that it also accepts one trailing line feed. */
  lemma IsNumeric2Agrees(s: Str)
    ensures IsNumeric2(s) <==> IsNumeric(s) || (|s| >= 2 && s[|s| - 1] == LineFeed && IsNumeric(s[..|s| - 1]))
  {
    if IsNumeric(s) {
      assert s[..|s|] == s;
      assert DollarMatchesAt(s, |s|);
    } else if |s| >= 2 && s[|s| - 1] == LineFeed && IsNumeric(s[..|s| - 1]) {
      assert DollarMatchesAt(s, |s| - 1);
    }
    if IsNumeric2(s) {
      var k :| 1 <= k <= |s| && AllDigits(s[..k]) && DollarMatchesAt(s, k);
      if k == |s| {
        assert s[..k] == s;
      }
    }
  }

  // ---------------------------------------------------------------------------
  // XML characters

  /** The test `RemoveInvalidXmlChars` applies to each unit, range by range. */
  predicate IsXmlChar(c: CodeUnit)
  {
    || c == 0x9 || c == 0xA || c == 0xD
    || (0x20 <= c <= 0xD7FF)
    || (0xE000 <= c <= 0xFFFD)
    || (0x10000 <= c <= 0x10FFFF)
  }

  /**
   * The `Char` production of section 2.2 of XML 1.0 restricted to one UTF-16
   * code unit: tab, line feed, carriage return, 0x20-0xD7FF and 0xE000-0xFFFD.
   * It is also the regex character class the slower filter matches.
   */
  predicate XmlUnit(c: CodeUnit)
  {
    c == 0x9 || c == 0xA || c == 0xD || (0x20 <= c <= 0xD7FF) || (0xE000 <= c <= 0xFFFD)
  }

  /** The supplementary range of the test can never hold for a 16-bit unit. */
  lemma SupplementaryBranchUnreachable(c: CodeUnit)
    ensures IsXmlChar(c) <==> XmlUnit(c)
    ensures !(0x10000 <= c <= 0x10FFFF)
  {
  }

  /** `RemoveInvalidXmlChars`. */
  function RemoveInvalidXmlChars(text: Str): (r: Str)
    ensures |text| == 0 ==> r == text
    ensures IsSubsequence(r, text)
    ensures forall i :: 0 <= i < |r| ==> XmlUnit(r[i])
    ensures forall i :: 0 <= i < |r| ==> !(0xD800 <= r[i] <= 0xDFFF)
    ensures forall i :: 0 <= i < |text| && XmlUnit(text[i]) ==> text[i] in r
  {
    if |text| == 0 then text
    else
      FilterIsSubsequence(text, IsXmlChar);
      Filter(text, IsXmlChar)
  }

  /** The filter works unit by unit: it distributes over concatenation and keeps or drops each unit. */
  lemma RemoveInvalidXmlCharsPerUnit(a: Str, b: Str, c: CodeUnit)
    ensures RemoveInvalidXmlChars(a + b) == RemoveInvalidXmlChars(a) + RemoveInvalidXmlChars(b)
    ensures RemoveInvalidXmlChars([c]) == if XmlUnit(c) then [c] else []
  {
    FilterConcat(a, b, IsXmlChar);
    if |a| == 0 {
      assert a + b == b;
    }
    if |b| == 0 {
      assert a + b == a;
    }
    assert Filter([c], IsXmlChar) == (if IsXmlChar(c) then [c] else []) + Filter([], IsXmlChar);
  }

  /** Text made only of XML units passes unchanged. */
  lemma RemoveInvalidXmlCharsKeepsValid(text: Str)
    ensures RemoveInvalidXmlChars(text) == text <==> forall i :: 0 <= i < |text| ==> XmlUnit(text[i])
  {
    if |text| > 0 {
      FilterKeepsAll(text, IsXmlChar);
    }
  }

  lemma RemoveInvalidXmlCharsIdempotent(text: Str)
    ensures RemoveInvalidXmlChars(RemoveInvalidXmlChars(text)) == RemoveInvalidXmlChars(text)
  {
    RemoveInvalidXmlCharsKeepsValid(RemoveInvalidXmlChars(text));
  }

  /** `Regex.Matches(text, class)`: every single-unit match of the class, left to right. */
  function XmlMatches(text: Str): (r: seq<Str>)
    ensures forall i :: 0 <= i < |r| ==> |r[i]| == 1 && XmlUnit(r[i][0])
    decreases |text|
  {
    if |text| == 0 then []
    else (if XmlUnit(text[0]) then [[text[0]]] else []) + XmlMatches(text[1..])
  }

  /** `string.Concat` of a sequence of strings. */
  function Concat(parts: seq<Str>): Str
    decreases |parts|
  {
    if |parts| == 0 then [] else parts[0] + Concat(parts[1..])
  }

  lemma {:induction false} ConcatAppend(a: seq<Str>, b: seq<Str>)
    ensures Concat(a + b) == Concat(a) + Concat(b)
    decreases |a|
  {
    if |a| == 0 {
      assert a + b == b;
    } else {
      assert (a + b)[1..] == a[1..] + b;
      ConcatAppend(a[1..], b);
    }
  }

  /** `RemoveInvalidXmlChars2`. */
  function RemoveInvalidXmlChars2(text: Str): Str
  {
    if |text| == 0 then text else Concat(XmlMatches(text))
  }

  lemma {:induction false} ConcatMatchesIsFilter(text: Str)
    ensures Concat(XmlMatches(text)) == Filter(text, IsXmlChar)
    decreases |text|
  {
    if |text| > 0 {
      ConcatMatchesIsFilter(text[1..]);
      var rest := XmlMatches(text[1..]);
      if XmlUnit(text[0]) {
        assert XmlMatches(text) == [[text[0]]] + rest;
        assert XmlMatches(text)[1..] == rest;
      } else {
        assert XmlMatches(text) == rest;
      }
    }
  }

  /** The regex version keeps exactly the units the predicate version keeps. */
  lemma RemoveInvalidXmlCharsAgree(text: Str)
    ensures RemoveInvalidXmlChars2(text) == RemoveInvalidXmlChars(text)
  {
    ConcatMatchesIsFilter(text);
  }

  // ---------------------------------------------------------------------------
  // Paths

  /** The root folder as the prefix to strip: `root` with a '\' appended unless it ends in one. */
  function RootPrefix(root: Str): (p: Str)
    ensures |p| > 0 && p[|p| - 1] == Backslash
    ensures StartsWith(p, root)
  {
    if !EndsWith(root, [Backslash]) then
      assert (root + [Backslash])[..|root|] == root;
      root + [Backslash]
    else
      assert root[..|root|] == root;
      root
  }

  /** `GetFileNameWithoutRoot`: every occurrence of the root prefix is removed. */
  function GetFileNameWithoutRoot(file: Str, root: Str): (r: Str)
    ensures |r| <= |file|
    ensures !HasInfix(file, RootPrefix(root)) ==> r == file
  {
    if !EndsWith(root, [Backslash]) then ReplaceAll(file, root + [Backslash], [])
    else ReplaceAll(file, root, [])
  }

  /** A file under the root loses exactly the root prefix when the rest does not repeat it. */
  lemma FileNameUnderRoot(root: Str, name: Str)
    requires !HasInfix(name, RootPrefix(root))
    ensures GetFileNameWithoutRoot(RootPrefix(root) + name, root) == name
  {
    ReplaceAllLeading(RootPrefix(root), name, []);
  }
}
