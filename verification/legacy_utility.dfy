/**
 * The number helpers of the older revisions. The static class `Utility` and
 * the earlier class `Extensons` carry identical bodies; both are modelled by
 * this one module.
 */
module LegacyUtility {
  import opened Text
  import Utility

  /** `GetValidNumber` in its statement form: the parsed value on success, else 0. */
  function GetValidNumber(text: Str): (n: int)
    ensures Int32Min <= n <= Int32Max
  {
    var parsed := ParseInt32(text);
    if parsed.Some? then parsed.value else 0
  }

  /** The units of `input` that are not digits, in order: the `nonDigit` list. */
  function NonDigits(input: Str): (r: Str)
    ensures forall i :: 0 <= i < |r| ==> !IsAsciiDigit(r[i]) && r[i] in input
    ensures forall i :: 0 <= i < |input| && !IsAsciiDigit(input[i]) ==> input[i] in r
  {
    Filter(input, (c: CodeUnit) => !IsAsciiDigit(c))
  }

  /** `IsNumeric`: false for empty input, false when the non-digit list is non-empty, true otherwise. */
  predicate IsNumeric(input: Str)
  {
    if |input| == 0 then false
    else if |NonDigits(input)| > 0 then false
    else true
  }

  /** The older test is false exactly when the input is empty or some unit is not a digit. */
  lemma IsNumericCases(input: Str)
    ensures !IsNumeric(input) <==> |input| == 0 || exists i :: 0 <= i < |input| && !IsAsciiDigit(input[i])
  {
    if exists i :: 0 <= i < |input| && !IsAsciiDigit(input[i]) {
      var i :| 0 <= i < |input| && !IsAsciiDigit(input[i]);
      assert input[i] in NonDigits(input);
    } else if |NonDigits(input)| > 0 {
      var r := NonDigits(input);
      assert r[0] in input;
    }
  }

  /** Both helpers agree with the current revision's on every input. */
  lemma AgreesWithCurrent(text: Str)
    ensures GetValidNumber(text) == Utility.GetValidNumber(text)
    ensures IsNumeric(text) == Utility.IsNumeric(text)
  {
    IsNumericCases(text);
  }
}
