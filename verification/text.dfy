/**
 * Text primitives over UTF-16 code units: the .NET `string` operations the
 * converter relies on (`Split`, `string.Join`, `Replace`, `Trim`,
 * `StartsWith`, `IndexOf`, `ToLowerInvariant`, `int.ToString`,
 * `int.TryParse`), each stated over the code-unit view of a string.
 */
module Text {

  /** One UTF-16 code unit: the range of a .NET `char`, surrogates included. */
  type CodeUnit = c: int | 0 <= c < 0x1_0000

  /** A .NET string as the sequence of its code units. */
  type Str = seq<CodeUnit>

  datatype Option<+T> = None | Some(value: T)

  const Minus: CodeUnit := 0x2D
  const Plus: CodeUnit := 0x2B

  /** The code unit of a character of a Dafny literal (every literal here is ASCII). */
  function Unit(c: char): CodeUnit
  {
    if c as int < 0x1_0000 then c as int else 0xFFFD
  }

  /** The code units of a Dafny string literal. */
  function U(s: string): (r: Str)
    ensures |r| == |s|
    ensures forall i :: 0 <= i < |s| ==> r[i] == Unit(s[i])
  {
    seq(|s|, i requires 0 <= i < |s| => Unit(s[i]))
  }

  // ---------------------------------------------------------------------------
  // Filtering (LINQ `Where`)

  /** The in-order subsequence of `s` whose elements satisfy `p`. */
  function Filter<T>(s: seq<T>, p: T -> bool): (r: seq<T>)
    ensures |r| <= |s|
    ensures forall i :: 0 <= i < |r| ==> p(r[i])
    ensures forall i :: 0 <= i < |r| ==> r[i] in s
    ensures forall i :: 0 <= i < |s| && p(s[i]) ==> s[i] in r
    decreases |s|
  {
    if |s| == 0 then [] else (if p(s[0]) then [s[0]] else []) + Filter(s[1..], p)
  }

  /** `a` is `b` with some elements left out, the rest in their order. */
  predicate IsSubsequence<T(==)>(a: seq<T>, b: seq<T>)
    decreases |b|
  {
    if |a| == 0 then true
    else if |b| == 0 then false
    else (a[0] == b[0] && IsSubsequence(a[1..], b[1..])) || IsSubsequence(a, b[1..])
  }

  lemma {:induction false} FilterIsSubsequence<T>(s: seq<T>, p: T -> bool)
    ensures IsSubsequence(Filter(s, p), s)
    decreases |s|
  {
    if |s| > 0 {
      FilterIsSubsequence(s[1..], p);
      var r := Filter(s[1..], p);
      if p(s[0]) {
        assert Filter(s, p) == [s[0]] + r;
        assert ([s[0]] + r)[1..] == r;
      } else {
        assert Filter(s, p) == r;
      }
    }
  }

  lemma {:induction false} FilterConcat<T>(a: seq<T>, b: seq<T>, p: T -> bool)
    ensures Filter(a + b, p) == Filter(a, p) + Filter(b, p)
    decreases |a|
  {
    if |a| == 0 {
      assert a + b == b;
    } else {
      assert (a + b)[1..] == a[1..] + b;
      FilterConcat(a[1..], b, p);
    }
  }

  /** Filtering keeps a sequence unchanged exactly when every element passes. */
  lemma {:induction false} FilterKeepsAll<T>(s: seq<T>, p: T -> bool)
    ensures Filter(s, p) == s <==> forall i :: 0 <= i < |s| ==> p(s[i])
    decreases |s|
  {
    if |s| > 0 {
      FilterKeepsAll(s[1..], p);
      if !p(s[0]) {
        assert |Filter(s, p)| <= |s[1..]| < |s|;
      } else if Filter(s, p) == s {
        assert Filter(s[1..], p) == s[1..];
      }
      if forall i :: 0 <= i < |s| ==> p(s[i]) {
        assert forall i :: 0 <= i < |s[1..]| ==> p(s[1..][i]) by {
          forall i | 0 <= i < |s[1..]| ensures p(s[1..][i]) { assert s[1..][i] == s[i + 1]; }
        }
      }
    }
  }

  /** An element that fails the test makes the filtered sequence strictly shorter. */
  lemma {:induction false} FilterShrinks<T>(s: seq<T>, p: T -> bool, k: int)
    requires 0 <= k < |s| && !p(s[k])
    ensures |Filter(s, p)| < |s|
    decreases |s|
  {
    if k > 0 {
      FilterShrinks(s[1..], p, k - 1);
    }
  }

  lemma FilterIdempotent<T>(s: seq<T>, p: T -> bool)
    ensures Filter(Filter(s, p), p) == Filter(s, p)
  {
    FilterKeepsAll(Filter(s, p), p);
  }

  // ---------------------------------------------------------------------------
  // Searching

  /** `Array.IndexOf` / `List.IndexOf`: the first index holding `x`, or -1. */
  function IndexOf<T(==)>(s: seq<T>, x: T): (i: int)
    ensures -1 <= i < |s|
    ensures i == -1 <==> x !in s
    ensures i >= 0 ==> s[i] == x && x !in s[..i]
    decreases |s|
  {
    if |s| == 0 then -1
    else if s[0] == x then 0
    else
      var j := IndexOf(s[1..], x);
      if j == -1 then -1
      else
        assert s[..j + 1] == [s[0]] + s[1..][..j];
        j + 1
  }

  /** An index whose element does not occur earlier is the element's first index. */
  lemma IndexOfFirst<T>(s: seq<T>, i: int)
    requires 0 <= i < |s| && s[i] !in s[..i]
    ensures IndexOf(s, s[i]) == i
  {
  }

  /** Appending keeps the first index of an element already present and gives the new one the last index. */
  lemma IndexOfAppend<T>(s: seq<T>, y: T, x: T)
    ensures IndexOf(s + [y], x) == if x in s then IndexOf(s, x) else if x == y then |s| else -1
  {
    var t := s + [y];
    if x in s {
      var i := IndexOf(s, x);
      assert t[..i] == s[..i];
      IndexOfFirst(t, i);
    } else if x == y {
      assert t[..|s|] == s;
      IndexOfFirst(t, |s|);
    }
  }

  /** Ordinal `StartsWith(string)`. */
  predicate StartsWith(s: Str, prefix: Str)
  {
    |prefix| <= |s| && s[..|prefix|] == prefix
  }

  /** Ordinal `EndsWith(string)`. */
  predicate EndsWith(s: Str, suffix: Str)
  {
    |suffix| <= |s| && s[|s| - |suffix|..] == suffix
  }

  /** Ordinal substring containment. */
  predicate HasInfix(s: Str, part: Str)
    decreases |s|
  {
    StartsWith(s, part) || (|s| > 0 && HasInfix(s[1..], part))
  }

  // ---------------------------------------------------------------------------
  // Split and Join on one separator

  /**
   * `s.Split(c)`: the pieces between separators, empty pieces kept; `n`
   * separators give `n + 1` pieces and `""` gives `[""]`.
   */
  function Split(s: Str, c: CodeUnit): (r: seq<Str>)
    ensures |r| >= 1
    ensures forall k :: 0 <= k < |r| ==> c !in r[k]
    decreases |s|
  {
    if c !in s then [s]
    else
      var i := IndexOf(s, c);
      [s[..i]] + Split(s[i + 1..], c)
  }

  /** `n` separators give `n + 1` pieces. */
  lemma {:induction false} SplitCount(s: Str, c: CodeUnit)
    ensures |Split(s, c)| == multiset(s)[c] + 1
    decreases |s|
  {
    if c in s {
      var i := IndexOf(s, c);
      assert s == s[..i] + [c] + s[i + 1..];
      assert multiset(s)[c] == multiset(s[..i])[c] + 1 + multiset(s[i + 1..])[c];
      SplitCount(s[i + 1..], c);
    } else {
      assert multiset(s)[c] == 0;
    }
  }

  /** `string.Join(c, parts)`. */
  function Join(parts: seq<Str>, c: CodeUnit): Str
    decreases |parts|
  {
    if |parts| == 0 then []
    else if |parts| == 1 then parts[0]
    else parts[0] + [c] + Join(parts[1..], c)
  }

  function Last<T>(s: seq<T>): T
    requires |s| > 0
  {
    s[|s| - 1]
  }

  lemma JoinCons(x: Str, rest: seq<Str>, c: CodeUnit)
    requires |rest| >= 1
    ensures Join([x] + rest, c) == x + [c] + Join(rest, c)
  {
    assert ([x] + rest)[1..] == rest;
  }

  /** Unfolds a split at its first separator. */
  lemma SplitAtFirst(s: Str, c: CodeUnit)
    requires c in s
    ensures var i := IndexOf(s, c);
      Split(s, c) == [s[..i]] + Split(s[i + 1..], c)
  {
  }

  /** Joining the pieces of a split with the same separator restores the string. */
  lemma {:induction false} JoinSplit(s: Str, c: CodeUnit)
    ensures Join(Split(s, c), c) == s
    decreases |s|
  {
    if c in s {
      var i := IndexOf(s, c);
      SplitAtFirst(s, c);
      assert s == s[..i] + [c] + s[i + 1..];
      JoinSplit(s[i + 1..], c);
      JoinCons(s[..i], Split(s[i + 1..], c), c);
    }
  }

  lemma {:induction false} IndexOfAfterPrefix(a: Str, c: CodeUnit, b: Str)
    requires c !in a
    ensures IndexOf(a + [c] + b, c) == |a|
    decreases |a|
  {
    if |a| > 0 {
      assert (a + [c] + b)[1..] == a[1..] + [c] + b;
      IndexOfAfterPrefix(a[1..], c, b);
    }
  }

  /** Unfolds a split whose first separator follows `a`. */
  lemma SplitAfterPrefix(a: Str, c: CodeUnit, b: Str)
    requires c !in a
    ensures Split(a + [c] + b, c) == [a] + Split(b, c)
  {
    var s := a + [c] + b;
    IndexOfAfterPrefix(a, c, b);
    assert s[..|a|] == a;
    assert s[|a| + 1..] == b;
  }

  /** Splitting a join of separator-free pieces gives the pieces back. */
  lemma {:induction false} SplitJoin(parts: seq<Str>, c: CodeUnit)
    requires |parts| >= 1
    requires forall k :: 0 <= k < |parts| ==> c !in parts[k]
    ensures Split(Join(parts, c), c) == parts
    decreases |parts|
  {
    if |parts| > 1 {
      var rest := Join(parts[1..], c);
      assert Join(parts, c) == parts[0] + [c] + rest;
      SplitAfterPrefix(parts[0], c, rest);
      SplitJoin(parts[1..], c);
      assert parts == [parts[0]] + parts[1..];
    }
  }

  /** A separator between two strings separates their pieces. */
  lemma {:induction false} SplitAround(a: Str, c: CodeUnit, b: Str)
    ensures Split(a + [c] + b, c) == Split(a, c) + Split(b, c)
    decreases |a|
  {
    if c !in a {
      SplitAfterPrefix(a, c, b);
    } else {
      var i := IndexOf(a, c);
      var a1 := a[..i];
      var a2 := a[i + 1..];
      calc {
        Split(a + [c] + b, c);
      == { SplitAroundFirst(a, c, b); }
        [a1] + Split(a2 + [c] + b, c);
      == { SplitAround(a2, c, b); }
        [a1] + (Split(a2, c) + Split(b, c));
      ==
        ([a1] + Split(a2, c)) + Split(b, c);
      == { SplitAtFirst(a, c); }
        Split(a, c) + Split(b, c);
      }
    }
  }

  /** The first piece of `a + [c] + b` is the first piece of `a` when `a` holds the separator. */
  lemma SplitAroundFirst(a: Str, c: CodeUnit, b: Str)
    requires c in a
    ensures var i := IndexOf(a, c);
      Split(a + [c] + b, c) == [a[..i]] + Split(a[i + 1..] + [c] + b, c)
  {
    var s := a + [c] + b;
    var i := IndexOf(a, c);
    assert s[..i] == a[..i];
    assert s[i] == c;
    IndexOfFirst(s, i);
    assert s[i + 1..] == a[i + 1..] + [c] + b;
  }

  /** The last piece of a split is the text after the last separator. */
  lemma LastPieceAfterSeparator(a: Str, c: CodeUnit, d: Str)
    requires c !in d
    ensures Last(Split(a + [c] + d, c)) == d
  {
    SplitAround(a, c, d);
  }

  /** Text without the separator extends the last piece. */
  lemma {:induction false} LastPieceExtends(a: Str, c: CodeUnit, b: Str)
    requires c !in b
    ensures Last(Split(a + b, c)) == Last(Split(a, c)) + b
    decreases |a|
  {
    if c !in a {
      assert c !in a + b;
    } else {
      var i := IndexOf(a, c);
      var a1, a2 := a[..i], a[i + 1..];
      SplitAtFirst(a, c);
      assert a == a1 + [c] + a2;
      assert a + b == a1 + [c] + (a2 + b);
      SplitAfterPrefix(a1, c, a2 + b);
      LastPieceExtends(a2, c, b);
      LastOfCons(a1, Split(a2 + b, c));
      LastOfCons(a1, Split(a2, c));
    }
  }

  lemma LastOfCons<T>(x: T, s: seq<T>)
    requires |s| > 0
    ensures Last([x] + s) == Last(s)
  {
  }

  /** A unit absent from the string is absent from every piece of its split. */
  lemma {:induction false} SplitPiecesWithout(s: Str, c: CodeUnit, x: CodeUnit, k: int)
    requires x !in s && 0 <= k < |Split(s, c)|
    ensures x !in Split(s, c)[k]
    decreases |s|
  {
    if c in s {
      var i := IndexOf(s, c);
      SplitAtFirst(s, c);
      if k > 0 {
        assert x !in s[i + 1..];
        SplitPiecesWithout(s[i + 1..], c, x, k - 1);
      } else {
        assert x !in s[..i];
      }
    }
  }

  /** The first piece of a split is the text before the first separator. */
  lemma FirstPieceBeforeSeparator(a: Str, c: CodeUnit, b: Str)
    requires c !in a
    ensures Split(a + [c] + b, c)[0] == a
  {
    SplitAround(a, c, b);
  }

  // ---------------------------------------------------------------------------
  // Replace

  /**
   * `s.Replace(pattern, replacement)`: a left-to-right scan replacing every
   * non-overlapping occurrence. .NET rejects an empty pattern.
   */
  function ReplaceAll(s: Str, pattern: Str, replacement: Str): (r: Str)
    requires |pattern| > 0
    ensures !HasInfix(s, pattern) ==> r == s
    ensures |replacement| == 0 ==> |r| <= |s|
    decreases |s|
  {
    if |s| < |pattern| then s
    else if s[..|pattern|] == pattern then replacement + ReplaceAll(s[|pattern|..], pattern, replacement)
    else [s[0]] + ReplaceAll(s[1..], pattern, replacement)
  }

  /** An occurrence at the front is replaced, and the scan resumes after it. */
  lemma ReplaceAllLeading(pattern: Str, rest: Str, replacement: Str)
    requires |pattern| > 0
    ensures ReplaceAll(pattern + rest, pattern, replacement) == replacement + ReplaceAll(rest, pattern, replacement)
  {
    assert (pattern + rest)[..|pattern|] == pattern;
    assert (pattern + rest)[|pattern|..] == rest;
  }

  // ---------------------------------------------------------------------------
  // Trim

  /** `char.IsWhiteSpace`: the Unicode White_Space code units of the BMP. */
  predicate IsWhiteSpace(c: CodeUnit)
  {
    || (0x09 <= c <= 0x0D) || c == 0x20 || c == 0x85 || c == 0xA0 || c == 0x1680
    || (0x2000 <= c <= 0x200A) || c == 0x2028 || c == 0x2029 || c == 0x202F
    || c == 0x205F || c == 0x3000
  }

  function TrimStartIndex(s: Str, white: CodeUnit -> bool): (i: nat)
    ensures i <= |s|
    ensures forall k :: 0 <= k < i ==> white(s[k])
    ensures i < |s| ==> !white(s[i])
    decreases |s|
  {
    if |s| == 0 || !white(s[0]) then 0 else 1 + TrimStartIndex(s[1..], white)
  }

  function TrimEndIndex(s: Str, white: CodeUnit -> bool): (j: nat)
    ensures j <= |s|
    ensures forall k :: j <= k < |s| ==> white(s[k])
    ensures j > 0 ==> !white(s[j - 1])
    decreases |s|
  {
    if |s| == 0 || !white(s[|s| - 1]) then |s| else TrimEndIndex(s[..|s| - 1], white)
  }

  /** Removes the leading and trailing code units that satisfy `white`. */
  function TrimBy(s: Str, white: CodeUnit -> bool): (r: Str)
    ensures |r| <= |s|
    ensures |r| > 0 ==> !white(r[0]) && !white(r[|r| - 1])
    ensures |r| == 0 <==> forall k :: 0 <= k < |s| ==> white(s[k])
    ensures forall k :: 0 <= k < |s| && !white(s[k]) ==> s[k] in r
  {
    var i := TrimStartIndex(s, white);
    var t := s[i..];
    var j := TrimEndIndex(t, white);
    assert |t| > 0 ==> !white(t[0]);
    assert j == 0 ==> |t| == 0;
    assert forall k :: 0 <= k < |s| && !white(s[k]) ==> i <= k && k - i < j && s[k] == t[..j][k - i];
    t[..j]
  }

  /** `string.Trim()`. */
  function Trim(s: Str): Str
  {
    TrimBy(s, IsWhiteSpace)
  }

  /** A string with no surrounding white space is its own trim. */
  lemma TrimByIdentity(s: Str, white: CodeUnit -> bool)
    requires |s| == 0 || (!white(s[0]) && !white(s[|s| - 1]))
    ensures TrimBy(s, white) == s
  {
    if |s| > 0 {
      assert TrimStartIndex(s, white) == 0;
      assert TrimEndIndex(s, white) == |s|;
    }
  }

  lemma {:induction false} TrimStartOfPadded(pad: Str, m: Str, white: CodeUnit -> bool)
    requires forall k :: 0 <= k < |pad| ==> white(pad[k])
    requires |m| > 0 && !white(m[0])
    ensures TrimStartIndex(pad + m, white) == |pad|
    decreases |pad|
  {
    if |pad| > 0 {
      assert (pad + m)[1..] == pad[1..] + m;
      TrimStartOfPadded(pad[1..], m, white);
    } else {
      assert pad + m == m;
    }
  }

  lemma {:induction false} TrimEndOfPadded(m: Str, pad: Str, white: CodeUnit -> bool)
    requires forall k :: 0 <= k < |pad| ==> white(pad[k])
    requires |m| > 0 && !white(m[|m| - 1])
    ensures TrimEndIndex(m + pad, white) == |m|
    decreases |pad|
  {
    if |pad| > 0 {
      assert (m + pad)[..|m + pad| - 1] == m + pad[..|pad| - 1];
      TrimEndOfPadded(m, pad[..|pad| - 1], white);
    } else {
      assert m + pad == m;
    }
  }

  /** Trimming strips exactly the white padding around a text with non-white ends. */
  lemma TrimPadded(before: Str, m: Str, after: Str, white: CodeUnit -> bool)
    requires forall k :: 0 <= k < |before| ==> white(before[k])
    requires forall k :: 0 <= k < |after| ==> white(after[k])
    requires |m| > 0 && !white(m[0]) && !white(m[|m| - 1])
    ensures TrimBy(before + m + after, white) == m
  {
    var s := before + m + after;
    assert s == before + (m + after);
    TrimStartOfPadded(before, m + after, white);
    assert s[|before|..] == m + after;
    TrimEndOfPadded(m, after, white);
  }

  // ---------------------------------------------------------------------------
  // Case mapping and digits (ASCII)

  /** `char.ToLowerInvariant` on ASCII letters; every other code unit is kept. */
  function LowerUnit(c: CodeUnit): CodeUnit
  {
    if 0x41 <= c <= 0x5A then c + 0x20 else c
  }

  /** `ToLowerInvariant()`, restricted to the ASCII letters. */
  function ToLowerInvariant(s: Str): (r: Str)
    ensures |r| == |s|
    ensures forall i :: 0 <= i < |s| ==> r[i] == LowerUnit(s[i])
  {
    seq(|s|, i requires 0 <= i < |s| => LowerUnit(s[i]))
  }

  lemma ToLowerIdempotent(s: Str)
    ensures ToLowerInvariant(ToLowerInvariant(s)) == ToLowerInvariant(s)
  {
  }

  /** `char.IsDigit`, restricted to the ASCII digits. */
  predicate IsAsciiDigit(c: int)
  {
    0x30 <= c <= 0x39
  }

  predicate AllDigits(s: Str)
  {
    forall i :: 0 <= i < |s| ==> IsAsciiDigit(s[i])
  }

  /** Decimal value of a digit string. */
  function DigitsValue(s: Str): nat
    requires AllDigits(s)
    decreases |s|
  {
    if |s| == 0 then 0 else DigitsValue(s[..|s| - 1]) * 10 + (s[|s| - 1] - 0x30)
  }

  /** `n.ToString()` for a non-negative `n`: its decimal digits, no leading zero. */
  function NatStr(n: nat): (r: Str)
    ensures |r| >= 1 && AllDigits(r)
    ensures Minus !in r
    decreases n
  {
    if n < 10 then [0x30 + n] else NatStr(n / 10) + [0x30 + n % 10]
  }

  /** `n.ToString()` with the invariant culture's minus sign. */
  function IntStr(n: int): (r: Str)
    ensures |r| >= 1
    ensures r[0] == Minus <==> n < 0
  {
    if n < 0 then [Minus] + NatStr(-n) else NatStr(n)
  }

  /** The digits of `n` read back give `n`. */
  lemma {:induction false} NatStrValue(n: nat)
    ensures DigitsValue(NatStr(n)) == n
    decreases n
  {
    if n >= 10 {
      NatStrValue(n / 10);
      var s := NatStr(n);
      assert s[..|s| - 1] == NatStr(n / 10);
    }
  }

  /** Equal outer parts cancel: `a + x + c == a + y + c` forces `x == y`. */
  lemma Cancel(a: Str, x: Str, y: Str, c: Str)
    requires a + x + c == a + y + c
    ensures x == y
  {
    assert |x| == |y|;
    forall i | 0 <= i < |x| ensures x[i] == y[i] {
      assert x[i] == (a + x + c)[|a| + i];
      assert y[i] == (a + y + c)[|a| + i];
    }
  }

  lemma NatStrInjective(a: nat, b: nat)
    ensures NatStr(a) == NatStr(b) ==> a == b
  {
    NatStrValue(a);
    NatStrValue(b);
  }

  function Pow10(m: nat): (r: nat)
    ensures r >= 1
  {
    if m == 0 then 1 else 10 * Pow10(m - 1)
  }

  /** A number of at least `10^m` has more than `m` digits. */
  lemma {:induction false} NatStrLength(n: nat, m: nat)
    requires n >= Pow10(m)
    ensures |NatStr(n)| > m
    decreases n
  {
    if m > 0 {
      assert n >= 10;
      assert n / 10 >= Pow10(m - 1);
      NatStrLength(n / 10, m - 1);
    }
  }

  // ---------------------------------------------------------------------------
  // int.TryParse

  const Int32Min: int := -0x8000_0000
  const Int32Max: int := 0x7FFF_FFFF

  /** The white space `NumberStyles.Integer` allows around a number. */
  predicate IsParseWhite(c: CodeUnit)
  {
    (0x09 <= c <= 0x0D) || c == 0x20
  }

  /** The value of an optional sign followed by ASCII digits, if it fits 32 bits. */
  function ParseSigned(t: Str): (r: Option<int>)
    ensures r.Some? ==> Int32Min <= r.value <= Int32Max
  {
    var negative := |t| > 0 && t[0] == Minus;
    var digits := if |t| > 0 && (t[0] == Minus || t[0] == Plus) then t[1..] else t;
    if |digits| == 0 || !AllDigits(digits) then None
    else
      var magnitude: int := DigitsValue(digits);
      var v := if negative then -magnitude else magnitude;
      if Int32Min <= v <= Int32Max then Some(v) else None
  }

  /**
   * `int.TryParse(s, out n)`: optional surrounding white space, an optional
   * sign, then one or more ASCII digits whose value fits 32 bits.
   */
  function ParseInt32(s: Str): (r: Option<int>)
    ensures r.Some? ==> Int32Min <= r.value <= Int32Max
    ensures AllDigits(s) && |s| > 0 && DigitsValue(s) <= Int32Max ==> r == Some(DigitsValue(s))
    ensures |s| == 0 ==> r.None?
  {
    var t := TrimBy(s, IsParseWhite);
    assert AllDigits(s) && |s| > 0 ==> t == s by {
      if AllDigits(s) && |s| > 0 { TrimByIdentity(s, IsParseWhite); }
    }
    ParseSigned(t)
  }

  /** Printing a 32-bit integer and parsing it back gives the integer. */
  lemma ParseIntStr(n: int)
    requires Int32Min <= n <= Int32Max
    ensures ParseInt32(IntStr(n)) == Some(n)
  {
    var s := IntStr(n);
    TrimByIdentity(s, IsParseWhite);
    ParseSignedIntStr(n);
  }

  lemma ParseSignedIntStr(n: int)
    requires Int32Min <= n <= Int32Max
    ensures ParseSigned(IntStr(n)) == Some(n)
  {
    var s := IntStr(n);
    if n < 0 {
      assert s[1..] == NatStr(-n);
      NatStrValue(-n);
    } else {
      NatStrValue(n);
      assert s[0] != Plus;
    }
  }
}
