/**
 * Sheet and file names taken from a log file's path, and the rules that keep
 * the sheet names of one workbook apart.
 */
module SheetNames {
  import opened Text
  import opened LogConstants

  // ---------------------------------------------------------------------------
  // Slicing a path

  /** The part of a path after its last '\', then after that part's last '-'. */
  function PathTail(file: Str): (r: Str)
    ensures Backslash !in r && Dash !in r
  {
    var segment := Last(Split(file, Backslash));
    var parts := Split(segment, Dash);
    SplitPiecesWithout(segment, Dash, Backslash, |parts| - 1);
    Last(parts)
  }

  /** A path whose last segment holds no '-' has that segment as its tail. */
  lemma PathTailOfSegment(dir: Str, segment: Str)
    requires Backslash !in segment && Dash !in segment
    ensures PathTail(dir + [Backslash] + segment) == segment
  {
    LastPieceAfterSeparator(dir, Backslash, segment);
  }

  /** A path `dir\front-tail` has `tail` as its tail. */
  lemma PathTailAfterDash(dir: Str, front: Str, tail: Str)
    requires Backslash !in front && Backslash !in tail && Dash !in tail
    ensures PathTail(dir + [Backslash] + (front + [Dash] + tail)) == tail
  {
    LastPieceAfterSeparator(dir, Backslash, front + [Dash] + tail);
    LastPieceAfterSeparator(front, Dash, tail);
  }

  /** The last `n` units of `s`, or all of `s` when it is shorter. */
  function KeepLast(s: Str, n: nat): (r: Str)
    ensures |r| == if |s| > n then n else |s|
    ensures EndsWith(s, r)
    ensures forall x :: x !in s ==> x !in r
  {
    if |s| > n then s[|s| - n..] else s
  }

  /** `GetSheetName(file, true)` of the three later revisions: the last ten units of the tail. */
  function FileLabel(file: Str): (r: Str)
    ensures |file| == 0 ==> r == file
    ensures |r| <= 10 && Backslash !in r && Dash !in r
    ensures |PathTail(file)| <= 10 ==> r == PathTail(file)
    ensures |PathTail(file)| > 10 ==> |r| == 10 && EndsWith(PathTail(file), r)
  {
    if |file| == 0 then file else KeepLast(PathTail(file), 10)
  }

  /** The part of the tail before its first '.'. */
  function Stem(file: Str): (r: Str)
    ensures Backslash !in r && Dash !in r && Dot !in r
  {
    var tail := PathTail(file);
    SplitPiecesWithout(tail, Dot, Backslash, 0);
    SplitPiecesWithout(tail, Dot, Dash, 0);
    Split(tail, Dot)[0]
  }

  lemma EmptyPathHasNoStem()
    ensures |Stem([])| == 0
  {
    assert Split([], Backslash) == [[]];
    assert Split([], Dash) == [[]];
    assert Split([], Dot) == [[]];
  }

  /** A tail `name.ext` has `name` as its stem. */
  lemma StemOfTail(file: Str, name: Str, ext: Str)
    requires PathTail(file) == name + [Dot] + ext && Dot !in name
    ensures Stem(file) == name
  {
    FirstPieceBeforeSeparator(name, Dot, ext);
  }

  /**
   * `GetSheetName(file)` of the later revisions: the last six units of the
   * stem, or the whole path when the stem is empty.
   */
  function SheetName(file: Str): (r: Str)
    ensures |Stem(file)| == 0 ==> r == file
    ensures |Stem(file)| > 0 ==> 1 <= |r| <= 6 && EndsWith(Stem(file), r)
    ensures |Stem(file)| > 0 ==> Backslash !in r && Dash !in r && Dot !in r
  {
    if |file| == 0 then file
    else
      var stem := Stem(file);
      if |stem| == 0 then file else KeepLast(stem, 6)
  }

  /** `GetSheetName` of the first release: the whole stem, or the whole path when the stem is empty. */
  function FirstSheetName(file: Str): (r: Str)
    ensures |Stem(file)| == 0 ==> r == file
    ensures |Stem(file)| > 0 ==> |r| > 0 && Backslash !in r && Dash !in r && Dot !in r
  {
    var stem := Stem(file);
    if |stem| == 0 then file else stem
  }

  /** The later revisions keep the last six units of the first release's name. */
  lemma SheetNameTruncatesFirst(file: Str)
    ensures |Stem(file)| > 0 ==> SheetName(file) == KeepLast(FirstSheetName(file), 6)
    ensures |Stem(file)| == 0 ==> SheetName(file) == FirstSheetName(file) == file
  {
  }

  /** A file `dir\name.ext` is named after `name`, in full by the first release and by its last six units since. */
  lemma SheetNameOfLogFile(dir: Str, name: Str, ext: Str)
    requires |name| > 0
    requires Backslash !in name && Dash !in name && Dot !in name
    requires Backslash !in ext && Dash !in ext
    ensures FirstSheetName(dir + [Backslash] + (name + [Dot] + ext)) == name
    ensures SheetName(dir + [Backslash] + (name + [Dot] + ext)) == KeepLast(name, 6)
    ensures FileLabel(dir + [Backslash] + (name + [Dot] + ext)) == KeepLast(name + [Dot] + ext, 10)
  {
    var file := dir + [Backslash] + (name + [Dot] + ext);
    PathTailOfSegment(dir, name + [Dot] + ext);
    StemOfTail(file, name, ext);
  }

  // ---------------------------------------------------------------------------
  // Counter suffixes

  /** `base-k`, the name a counter makes of a taken name. */
  function Suffixed(base: Str, k: nat): Str
  {
    base + [Dash] + NatStr(k)
  }

  /** `name` ends in `-k`. */
  predicate Tagged(name: Str, k: nat)
  {
    EndsWith(name, [Dash] + NatStr(k))
  }

  lemma SuffixedIsTagged(base: Str, k: nat)
    ensures Tagged(Suffixed(base, k), k)
  {
    assert Suffixed(base, k)[|base|..] == [Dash] + NatStr(k);
  }

  /** Different counters give different names. */
  lemma SuffixedInjective(base: Str, j: nat, k: nat)
    ensures Suffixed(base, j) == Suffixed(base, k) ==> j == k
  {
    if Suffixed(base, j) == Suffixed(base, k) {
      assert Suffixed(base, j)[|base| + 1..] == NatStr(j);
      assert Suffixed(base, k)[|base| + 1..] == NatStr(k);
      NatStrInjective(j, k);
    }
  }

  /** A name ends in at most one counter. */
  lemma TagIsUnique(name: Str, j: nat, k: nat)
    ensures Tagged(name, j) && Tagged(name, k) ==> j == k
  {
    if Tagged(name, j) && Tagged(name, k) {
      var tj := NatStr(j);
      var tk := NatStr(k);
      assert name[|name| - |tj| - 1] == Dash;
      assert name[|name| - |tk| - 1] == Dash;
      assert forall p :: |name| - |tj| <= p < |name| ==> name[p] == tj[p - (|name| - |tj|)];
      assert forall p :: |name| - |tk| <= p < |name| ==> name[p] == tk[p - (|name| - |tk|)];
      assert |tj| == |tk|;
      assert tj == name[|name| - |tj|..] == tk;
      NatStrInjective(j, k);
    }
  }

  /** A name ending in a counter contains a '-'. */
  lemma TaggedHasDash(name: Str, k: nat)
    ensures Tagged(name, k) ==> Dash in name
  {
    if Tagged(name, k) {
      assert name[|name| - |NatStr(k)| - 1] == Dash;
    }
  }

  /** A path ending in `-k` has `k` as its tail, so its stem is not empty. */
  lemma TaggedPathHasStem(file: Str, k: nat)
    ensures Tagged(file, k) ==> PathTail(file) == NatStr(k) && |Stem(file)| > 0
  {
    if Tagged(file, k) {
      var t := NatStr(k);
      var front := file[..|file| - |t| - 1];
      assert file == front + ([Dash] + t);
      assert Backslash !in t && Dot !in t;
      LastPieceExtends(front, Backslash, [Dash] + t);
      var segment := Last(Split(front, Backslash));
      assert Last(Split(file, Backslash)) == segment + [Dash] + t;
      LastPieceAfterSeparator(segment, Dash, t);
      assert Split(t, Dot) == [t];
    }
  }

  /** Every name the rules start from ends in no counter. */
  ghost predicate Untagged(name: Str)
  {
    forall k: nat :: !Tagged(name, k)
  }

  lemma SheetNamesAreUntagged(file: Str)
    ensures Untagged(SheetName(file)) && Untagged(FirstSheetName(file))
  {
    forall k: nat ensures !Tagged(SheetName(file), k) && !Tagged(FirstSheetName(file), k) {
      TaggedHasDash(SheetName(file), k);
      TaggedHasDash(FirstSheetName(file), k);
      TaggedPathHasStem(file, k);
    }
  }

  /** `Pivot_name` ends in a counter only when `name` does. */
  lemma PivotNameTag(name: Str, k: nat)
    ensures Tagged(PivotName(name), k) ==> Tagged(name, k)
  {
    if Tagged(PivotName(name), k) {
      var s := [Dash] + NatStr(k);
      var p := PivotName(name);
      PivotMarkerShape();
      assert p[|p| - |s|] == Dash;
      assert forall i :: 0 <= i < |PivotMarker| ==> p[i] == PivotMarker[i] != Dash;
      assert name[|name| - |s|..] == p[|p| - |s|..];
    }
  }

  // ---------------------------------------------------------------------------
  // `GetSheetName(file, false, sheets)`: counting up past taken names

  lemma {:induction false} SuffixedRangeSize(base: Str, lo: nat, hi: nat)
    requires lo <= hi
    ensures |set j: nat | lo <= j < hi :: Suffixed(base, j)| == hi - lo
    decreases hi - lo
  {
    if lo < hi {
      var smaller := set j: nat | lo <= j < hi - 1 :: Suffixed(base, j);
      SuffixedRangeSize(base, lo, hi - 1);
      assert (set j: nat | lo <= j < hi :: Suffixed(base, j)) == smaller + {Suffixed(base, hi - 1)};
      forall j: nat | lo <= j < hi - 1 ensures Suffixed(base, j) != Suffixed(base, hi - 1) {
        SuffixedInjective(base, j, hi - 1);
      }
    } else {
      assert (set j: nat | lo <= j < hi :: Suffixed(base, j)) == {};
    }
  }

  lemma {:induction false} DistinctElementsBound(s: seq<Str>)
    ensures |set x | x in s| <= |s|
    decreases |s|
  {
    if |s| > 0 {
      var front := s[..|s| - 1];
      DistinctElementsBound(front);
      assert (set x | x in s) == (set x | x in front) + {s[|s| - 1]};
    } else {
      assert (set x | x in s) == {};
    }
  }

  /** A run of counters all taken is no longer than the list of names. */
  lemma TakenRunBound(base: Str, sheets: seq<Str>, lo: nat, hi: nat)
    requires lo <= hi
    requires forall j: nat :: lo <= j < hi ==> Suffixed(base, j) in sheets
    ensures hi - lo <= |sheets|
  {
    var taken := set j: nat | lo <= j < hi :: Suffixed(base, j);
    var all := set x | x in sheets;
    SuffixedRangeSize(base, lo, hi);
    DistinctElementsBound(sheets);
    assert taken <= all;
    assert all == (all - taken) + taken;
    assert |all| == |all - taken| + |taken|;
  }

  /**
   * `GetSheetName(file, false, sheets)` of the current revision: the sheet
   * name; while it is taken, `<name>-k` with `k` counting up from the number of
   * sheets already holding the name. The result is free: the name itself when
   * that is, otherwise the first free `<name>-k` from that count on.
   */
  method SheetNameAmong(file: Str, sheets: seq<Str>) returns (sheet: Str)
    ensures |Stem(file)| == 0 ==> sheet == file
    ensures |Stem(file)| > 0 ==> sheet !in sheets
    ensures |Stem(file)| > 0 && SheetName(file) !in sheets ==> sheet == SheetName(file)
    ensures |Stem(file)| > 0 && SheetName(file) in sheets ==>
      exists k: nat :: k >= multiset(sheets)[SheetName(file)] && sheet == Suffixed(SheetName(file), k)
        && forall j: nat :: multiset(sheets)[SheetName(file)] <= j < k ==> Suffixed(SheetName(file), j) in sheets
  {
    if |file| == 0 {
      EmptyPathHasNoStem();
      return file;
    }
    var stem := Stem(file);
    if |stem| == 0 {
      return file;
    }
    var base := KeepLast(stem, 6);
    assert base == SheetName(file);
    sheet := base;
    if |sheets| > 0 {
      var existingCount := multiset(sheets)[sheet];
      ghost var first := existingCount;
      var sheetCount: nat := existingCount;
      while existingCount != 0
        invariant first <= sheetCount <= first + |sheets| + 1
        invariant sheetCount > first ==> first > 0
        invariant sheet == if sheetCount == first then base else Suffixed(base, sheetCount - 1)
        invariant existingCount == multiset(sheets)[sheet]
        invariant forall j: nat :: first <= j < sheetCount - 1 ==> Suffixed(base, j) in sheets
        decreases first + |sheets| + 1 - sheetCount
      {
        assert forall j: nat :: first <= j < sheetCount ==> Suffixed(base, j) in sheets;
        TakenRunBound(base, sheets, first, sheetCount);
        if sheetCount == first {
          assert Split(sheet, Dash) == [base];
        } else {
          FirstPieceBeforeSeparator(base, Dash, NatStr(sheetCount - 1));
        }
        sheet := Split(sheet, Dash)[0] + [Dash] + NatStr(sheetCount);
        existingCount := multiset(sheets)[sheet];
        sheetCount := sheetCount + 1;
      }
      if sheetCount > first {
        assert sheet == Suffixed(base, sheetCount - 1);
      }
    }
  }

  // ---------------------------------------------------------------------------
  // `CreateSingleFile`: one workbook for all files

  /** A name already in the workbook gets `-count` appended, `count` being the file's 1-based position. */
  function NextName(names: seq<Str>, base: Str, count: nat): (r: Str)
    ensures r == base || (base in names && Tagged(r, count))
  {
    if base in names then
      SuffixedIsTagged(base, count);
      Suffixed(base, count)
    else base
  }

  /** No name of the list ends in a counter at or above `count`. */
  ghost predicate CountersBelow(names: seq<Str>, count: nat)
  {
    forall i, k: nat :: 0 <= i < |names| && Tagged(names[i], k) ==> k < count
  }

  lemma TaggedIsAbsent(names: seq<Str>, count: nat, name: Str)
    requires CountersBelow(names, count) && Tagged(name, count)
    ensures name !in names
  {
    forall i | 0 <= i < |names| ensures names[i] != name {
    }
  }

  /**
   * Starting from a name with no counter, the rule gives a name not yet in
   * the workbook, and the counters stay below the next file's position.
   */
  lemma NextNameIsFresh(names: seq<Str>, base: Str, count: nat)
    requires CountersBelow(names, count) && Untagged(base)
    ensures NextName(names, base, count) !in names
    ensures CountersBelow(names + [NextName(names, base, count)], count + 1)
  {
    var r := NextName(names, base, count);
    if base in names {
      TaggedIsAbsent(names, count, r);
    }
    var extended := names + [r];
    forall i, k: nat | 0 <= i < |extended| && Tagged(extended[i], k) ensures k < count + 1 {
      if i == |names| {
        TagIsUnique(r, k, count);
      }
    }
  }

  /** Adding the pivot sheet of a name keeps the counters below the same bound. */
  lemma PivotKeepsCounters(names: seq<Str>, name: Str, count: nat)
    requires CountersBelow(names, count) && name in names
    ensures CountersBelow(names + [PivotName(name)], count)
  {
    var extended := names + [PivotName(name)];
    forall i, k: nat | 0 <= i < |extended| && Tagged(extended[i], k) ensures k < count {
      if i == |names| {
        PivotNameTag(name, k);
        var j :| 0 <= j < |names| && names[j] == name;
      }
    }
  }

  // ---------------------------------------------------------------------------
  // Names as the workbook compares them

  /** Two sheet names the workbook treats as one: equal once ASCII letters are lower-cased. */
  predicate SameIgnoringCase(a: Str, b: Str)
  {
    ToLowerInvariant(a) == ToLowerInvariant(b)
  }

  /** `name` equals, ignoring case, a name of the list. */
  predicate Taken(names: seq<Str>, name: Str)
  {
    exists j :: 0 <= j < |names| && SameIgnoringCase(names[j], name)
  }

  /**
   * `Worksheets.Add`: a name equal, ignoring case, to one already in the
   * workbook makes it throw; otherwise the name is appended.
   */
  function AddSheet(names: seq<Str>, name: Str): (r: Option<seq<Str>>)
    ensures r.Some? <==> forall j :: 0 <= j < |names| ==> ToLowerInvariant(names[j]) != ToLowerInvariant(name)
    ensures name in names ==> r.None?
    ensures r.Some? ==> |r.value| == |names| + 1 && r.value[..|names|] == names && Last(r.value) == name
  {
    if Taken(names, name) then None else Some(names + [name])
  }

  predicate NoDuplicates(names: seq<Str>)
  {
    forall i, j :: 0 <= i < j < |names| ==> names[i] != names[j]
  }

  /** No two names of the list are equal ignoring case. */
  predicate NoClashes(names: seq<Str>)
  {
    forall i, j :: 0 <= i < j < |names| ==> !SameIgnoringCase(names[i], names[j])
  }

  /** The counter `-k` holds no ASCII letter. */
  lemma CounterHasNoLetter(k: nat)
    ensures forall i :: 0 <= i < |[Dash] + NatStr(k)| ==> !(0x41 <= ([Dash] + NatStr(k))[i] <= 0x7A)
  {
    var t := NatStr(k);
    assert forall i :: 0 <= i < |t| ==> IsAsciiDigit(t[i]);
  }

  lemma LowerConcat(a: Str, b: Str)
    ensures ToLowerInvariant(a + b) == ToLowerInvariant(a) + ToLowerInvariant(b)
  {
    assert forall i :: 0 <= i < |a + b| ==> ToLowerInvariant(a + b)[i] == (ToLowerInvariant(a) + ToLowerInvariant(b))[i];
  }

  /** Lower-casing `base-k` lower-cases `base` and keeps the counter. */
  lemma LowerSuffixed(base: Str, k: nat)
    ensures ToLowerInvariant(Suffixed(base, k)) == Suffixed(ToLowerInvariant(base), k)
  {
    var t := [Dash] + NatStr(k);
    CounterHasNoLetter(k);
    LowerConcat(base, t);
    assert ToLowerInvariant(t) == t;
  }

  /** A name equal, ignoring case, to one ending in `-k` ends in `-k` itself. */
  lemma SameKeepsTag(a: Str, b: Str, k: nat)
    requires SameIgnoringCase(a, b) && Tagged(b, k)
    ensures Tagged(a, k)
  {
    var t := [Dash] + NatStr(k);
    CounterHasNoLetter(k);
    var la := ToLowerInvariant(a);
    assert |a| == |b| && |t| <= |a|;
    forall p | |a| - |t| <= p < |a| ensures a[p] == t[p - (|a| - |t|)] {
      assert b[p] == t[p - (|a| - |t|)];
      assert la[p] == LowerUnit(b[p]) == t[p - (|a| - |t|)];
    }
    assert a[|a| - |t|..] == t;
  }

  /** `Pivot_<name>`, ignoring case, is the lower-cased marker then the lower-cased name. */
  lemma LowerPivot(name: Str)
    ensures ToLowerInvariant(PivotName(name)) == ToLowerInvariant(PivotMarker) + ToLowerInvariant(name)
  {
    LowerConcat(PivotMarker, name);
  }

  /** The name starts with `Pivot_`, ignoring case. */
  predicate PivotLike(name: Str)
  {
    StartsWith(ToLowerInvariant(name), ToLowerInvariant(PivotMarker))
  }

  /** A name that does not start with a prefix free of '-' keeps not starting with it once a counter is appended. */
  lemma SuffixedAvoidsPrefix(base: Str, k: nat, prefix: Str)
    requires Dash !in prefix && !StartsWith(base, prefix)
    ensures !StartsWith(Suffixed(base, k), prefix)
  {
    var s := Suffixed(base, k);
    if |base| >= |prefix| {
      assert s[..|prefix|] == base[..|prefix|];
    } else if |prefix| <= |s| {
      assert s[|base|] == Dash && prefix[|base|] != Dash;
    }
  }

  /** A name that does not start with `Pivot_`, ignoring case, keeps not starting with it once a counter is appended. */
  lemma SuffixedNotPivot(base: Str, k: nat)
    requires !PivotLike(base)
    ensures !PivotLike(Suffixed(base, k))
  {
    PivotMarkerShape();
    var marker := ToLowerInvariant(PivotMarker);
    assert Dash !in marker by {
      forall i | 0 <= i < |marker| ensures marker[i] != Dash {
        assert PivotMarker[i] != Dash;
      }
    }
    LowerSuffixed(base, k);
    SuffixedAvoidsPrefix(ToLowerInvariant(base), k, marker);
  }

  /**
   * Starting from a name with no counter that equals, ignoring case, only
   * itself among the names so far, `NextName` gives a name the workbook
   * accepts.
   */
  lemma NextNameIsFree(names: seq<Str>, base: Str, count: nat)
    requires CountersBelow(names, count) && Untagged(base)
    requires forall j :: 0 <= j < |names| && SameIgnoringCase(base, names[j]) ==> base == names[j]
    ensures AddSheet(names, NextName(names, base, count)) == Some(names + [NextName(names, base, count)])
  {
    var r := NextName(names, base, count);
    forall j | 0 <= j < |names| ensures !SameIgnoringCase(names[j], r) {
      if SameIgnoringCase(names[j], r) && base in names {
        SuffixedIsTagged(base, count);
        SameKeepsTag(names[j], r, count);
      }
    }
  }

  /** Adding a name the workbook accepts keeps the names apart. */
  lemma AddKeepsNoClashes(names: seq<Str>, name: Str)
    requires NoClashes(names) && AddSheet(names, name).Some?
    ensures NoClashes(AddSheet(names, name).value)
  {
  }

  /** Names apart ignoring case are apart. */
  lemma NoClashesNoDuplicates(names: seq<Str>)
    requires NoClashes(names)
    ensures NoDuplicates(names)
  {
    forall i, j | 0 <= i < j < |names| ensures names[i] != names[j] {
      assert !SameIgnoringCase(names[i], names[j]);
    }
  }

  /**
   * The pivot sheet of `name` added to `withLog` by `SetupPivotSheet`: a name
   * the workbook refuses is either caught, keeping the workbook as it was
   * (`guarded`), or ends the batch (`None`).
   */
  function PivotStep(withLog: seq<Str>, name: Str, guarded: bool): (r: Option<seq<Str>>)
    ensures guarded ==> r.Some?
    ensures r.Some? ==> r.value == withLog || r.value == withLog + [PivotName(name)]
  {
    match AddSheet(withLog, PivotName(name))
    case Some(withPivot) => Some(withPivot)
    case None => if guarded then Some(withLog) else None
  }

  /**
   * The sheet names `CreateSingleFile` gives one workbook, file by file
   * (`bases` holds each file's sheet name, `count` the files done): the log
   * sheet named by `NextName`, then `Pivot_<name>` where `pivots` says a pivot
   * sheet is made. A log sheet the workbook refuses ends the batch; `guarded`
   * says whether a refused pivot sheet is caught and the file marked failed,
   * or ends the batch too. `None` is a batch that ended.
   */
  function BookNames(names: seq<Str>, count: nat, bases: seq<Str>, pivots: seq<bool>, guarded: bool): Option<seq<Str>>
    requires |pivots| == |bases|
    decreases |bases|
  {
    if |bases| == 0 then Some(names)
    else
      var name := NextName(names, bases[0], count + 1);
      match AddSheet(names, name)
      case None => None
      case Some(withLog) =>
        if !pivots[0] then BookNames(withLog, count + 1, bases[1..], pivots[1..], guarded)
        else
          match PivotStep(withLog, name, guarded)
          case None => None
          case Some(next) => BookNames(next, count + 1, bases[1..], pivots[1..], guarded)
  }

  /** Whatever the files, a batch that completes has names pairwise apart, ignoring case and so also exactly. */
  lemma {:induction false} BookNamesNoClashes(names: seq<Str>, count: nat, bases: seq<Str>, pivots: seq<bool>, guarded: bool)
    requires |pivots| == |bases| && NoClashes(names)
    ensures BookNames(names, count, bases, pivots, guarded).Some? ==>
      NoClashes(BookNames(names, count, bases, pivots, guarded).value) && NoDuplicates(BookNames(names, count, bases, pivots, guarded).value)
    decreases |bases|
  {
    if |bases| == 0 {
      NoClashesNoDuplicates(names);
    } else {
      var name := NextName(names, bases[0], count + 1);
      if AddSheet(names, name).Some? {
        var withLog := AddSheet(names, name).value;
        AddKeepsNoClashes(names, name);
        if !pivots[0] {
          BookNamesNoClashes(withLog, count + 1, bases[1..], pivots[1..], guarded);
        } else if PivotStep(withLog, name, guarded).Some? {
          var next := PivotStep(withLog, name, guarded).value;
          if AddSheet(withLog, PivotName(name)).Some? {
            AddKeepsNoClashes(withLog, PivotName(name));
          }
          BookNamesNoClashes(next, count + 1, bases[1..], pivots[1..], guarded);
        }
      }
    }
  }

  /** Every name of `bases` equal, ignoring case, to a name of `names` is that very name. */
  ghost predicate CaseAgrees(names: seq<Str>, bases: seq<Str>)
  {
    forall i, j :: 0 <= i < |bases| && 0 <= j < |names| && SameIgnoringCase(bases[i], names[j]) ==> bases[i] == names[j]
  }

  /** Two of the files' sheet names equal ignoring case are equal. */
  ghost predicate CaseConsistent(bases: seq<Str>)
  {
    forall i, j :: 0 <= i < |bases| && 0 <= j < |bases| && SameIgnoringCase(bases[i], bases[j]) ==> bases[i] == bases[j]
  }

  /** A file's sheet name equal, ignoring case, to another's pivot sheet is that pivot sheet's name. */
  ghost predicate PivotCaseConsistent(bases: seq<Str>)
  {
    forall i, j :: 0 <= i < |bases| && 0 <= j < |bases| && SameIgnoringCase(bases[i], PivotName(bases[j])) ==> bases[i] == PivotName(bases[j])
  }

  /** The name `NextName` gives the first file agrees in case with every later file's sheet name. */
  lemma LogNameAgrees(names: seq<Str>, count: nat, bases: seq<Str>)
    requires |bases| > 0 && CaseConsistent(bases)
    requires forall i :: 0 <= i < |bases| ==> Untagged(bases[i])
    ensures var name := NextName(names, bases[0], count);
      forall i :: 1 <= i < |bases| && SameIgnoringCase(bases[i], name) ==> bases[i] == name
  {
    var name := NextName(names, bases[0], count);
    forall i | 1 <= i < |bases| && SameIgnoringCase(bases[i], name) ensures bases[i] == name {
      if bases[0] in names {
        SuffixedIsTagged(bases[0], count);
        SameKeepsTag(bases[i], name, count);
      }
    }
  }

  /** So does its pivot sheet, when the names agree with the pivot sheets' names. */
  lemma PivotNameAgrees(names: seq<Str>, count: nat, bases: seq<Str>)
    requires |bases| > 0 && PivotCaseConsistent(bases)
    requires forall i :: 0 <= i < |bases| ==> Untagged(bases[i])
    ensures var pivot := PivotName(NextName(names, bases[0], count));
      forall i :: 1 <= i < |bases| && SameIgnoringCase(bases[i], pivot) ==> bases[i] == pivot
  {
    var pivot := PivotName(NextName(names, bases[0], count));
    forall i | 1 <= i < |bases| && SameIgnoringCase(bases[i], pivot) ensures bases[i] == pivot {
      if bases[0] in names {
        assert pivot == Suffixed(PivotName(bases[0]), count);
        SuffixedIsTagged(PivotName(bases[0]), count);
        SameKeepsTag(bases[i], pivot, count);
      }
    }
  }

  /** A name that does not start with `Pivot_`, ignoring case, is never equal, ignoring case, to a pivot sheet's name. */
  lemma NotPivotLikeAgrees(b: Str, name: Str)
    requires !PivotLike(b)
    ensures !SameIgnoringCase(b, PivotName(name))
  {
    ClashIsPivotLike(b, name);
  }

  /**
   * The batch completes when a pivot clash is caught, and without pivot
   * sheets, as long as the files' sheet names that are equal ignoring case
   * are equal, and so are those equal to another's pivot sheet.
   */
  lemma {:induction false} BookNamesDistinct(names: seq<Str>, count: nat, bases: seq<Str>, pivots: seq<bool>, guarded: bool)
    requires |pivots| == |bases|
    requires CountersBelow(names, count + 1)
    requires forall i :: 0 <= i < |bases| ==> Untagged(bases[i])
    requires CaseAgrees(names, bases) && CaseConsistent(bases) && PivotCaseConsistent(bases)
    ensures guarded ==> BookNames(names, count, bases, pivots, guarded).Some?
    ensures (forall i :: 0 <= i < |pivots| ==> !pivots[i]) ==> BookNames(names, count, bases, pivots, guarded).Some?
    decreases |bases|
  {
    if |bases| > 0 {
      var name := NextName(names, bases[0], count + 1);
      NextNameIsFresh(names, bases[0], count + 1);
      NextNameIsFree(names, bases[0], count + 1);
      var withLog := names + [name];
      var rest := bases[1..];
      LogNameAgrees(names, count + 1, bases);
      PivotNameAgrees(names, count + 1, bases);
      assert CaseAgrees(withLog, rest);
      if pivots[0] && AddSheet(withLog, PivotName(name)).Some? {
        PivotKeepsCounters(withLog, name, count + 2);
        assert CaseAgrees(withLog + [PivotName(name)], rest);
        BookNamesDistinct(withLog + [PivotName(name)], count + 1, rest, pivots[1..], guarded);
      } else {
        BookNamesDistinct(withLog, count + 1, rest, pivots[1..], guarded);
      }
    }
  }

  function Bases(files: seq<Str>, first: bool): (r: seq<Str>)
    ensures |r| == |files|
    ensures forall i :: 0 <= i < |r| ==> Untagged(r[i])
  {
    forall i | 0 <= i < |files| ensures Untagged(SheetName(files[i])) && Untagged(FirstSheetName(files[i])) {
      SheetNamesAreUntagged(files[i]);
    }
    seq(|files|, i requires 0 <= i < |files| =>
      if first then FirstSheetName(files[i]) else SheetName(files[i]))
  }

  /** `CreateSingleFile` of the current window: sheet names from `SheetName`, pivot clashes caught. */
  function LatestBookNames(files: seq<Str>, pivots: seq<bool>): Option<seq<Str>>
    requires |pivots| == |files|
  {
    BookNames([], 0, Bases(files, false), pivots, true)
  }

  /** `CreateSingleFile` of the first release: whole stems as names, and an unguarded pivot sheet. */
  function FirstBookNames(files: seq<Str>, pivots: seq<bool>): Option<seq<Str>>
    requires |pivots| == |files|
  {
    BookNames([], 0, Bases(files, true), pivots, false)
  }

  /**
   * The current window's workbook completes with sheet names pairwise apart
   * when the files' sheet names equal ignoring case are equal, and so are
   * those equal to another's pivot sheet.
   */
  lemma LatestBookNamesDistinct(files: seq<Str>, pivots: seq<bool>)
    requires |pivots| == |files|
    requires CaseConsistent(Bases(files, false)) && PivotCaseConsistent(Bases(files, false))
    ensures LatestBookNames(files, pivots).Some?
    ensures NoClashes(LatestBookNames(files, pivots).value) && NoDuplicates(LatestBookNames(files, pivots).value)
  {
    BookNamesDistinct([], 0, Bases(files, false), pivots, true);
    BookNamesNoClashes([], 0, Bases(files, false), pivots, true);
  }

  /** Without pivot sheets, the first release's workbook also completes with names pairwise apart. */
  lemma FirstBookLogNamesDistinct(files: seq<Str>, pivots: seq<bool>)
    requires |pivots| == |files|
    requires forall i :: 0 <= i < |pivots| ==> !pivots[i]
    requires CaseConsistent(Bases(files, true)) && PivotCaseConsistent(Bases(files, true))
    ensures FirstBookNames(files, pivots).Some?
    ensures NoClashes(FirstBookNames(files, pivots).value) && NoDuplicates(FirstBookNames(files, pivots).value)
  {
    BookNamesDistinct([], 0, Bases(files, true), pivots, false);
    BookNamesNoClashes([], 0, Bases(files, true), pivots, false);
  }

  /**
   * Two files whose names differ only in case, such as `s1\ex_ABC.log` and
   * `s2\ex_abc.log`, end the current window's batch: the ordinal `Contains`
   * lets the second name through and `Worksheets.Add` refuses it.
   */
  lemma CaseClashEndsBatch(dir1: Str, dir2: Str)
    ensures var files := [dir1 + [Backslash] + (U("ex_ABC") + [Dot] + U("log")), dir2 + [Backslash] + (U("ex_abc") + [Dot] + U("log"))];
      LatestBookNames(files, [false, false]).None?
  {
    var upper := U("ex_ABC");
    var lower := U("ex_abc");
    assert Backslash !in upper && Dash !in upper && Dot !in upper;
    assert Backslash !in lower && Dash !in lower && Dot !in lower;
    SixUnitLogName(dir1, upper);
    SixUnitLogName(dir2, lower);
    var files := [dir1 + [Backslash] + (upper + [Dot] + U("log")), dir2 + [Backslash] + (lower + [Dot] + U("log"))];
    var bases := Bases(files, false);
    assert bases[0] == upper && bases[1] == lower;
    assert bases == [upper, lower];
    ClashingBasesEndBatch(upper, lower);
  }

  /** A file `dir\name.log` with a six-unit name is named `name`. */
  lemma SixUnitLogName(dir: Str, name: Str)
    requires |name| == 6 && Backslash !in name && Dash !in name && Dot !in name
    ensures SheetName(dir + [Backslash] + (name + [Dot] + U("log"))) == name
  {
    var ext := U("log");
    assert Backslash !in ext && Dash !in ext;
    SheetNameOfLogFile(dir, name, ext);
  }

  /** A second sheet name differing from the first only in case ends the batch. */
  lemma ClashingBasesEndBatch(upper: Str, lower: Str)
    requires upper == U("ex_ABC") && lower == U("ex_abc")
    ensures BookNames([], 0, [upper, lower], [false, false], true).None?
  {
    assert ToLowerInvariant(upper) == ToLowerInvariant(lower);
    assert upper != lower by { assert upper[3] != lower[3]; }
    assert BookNames([], 0, [upper, lower], [false, false], true) == BookNames([upper], 1, [lower], [false], true);
    assert AddSheet([upper], NextName([upper], lower, 2)).None?;
  }

  /** Every name starting with `Pivot_`, ignoring case, is the pivot sheet of a name in the list. */
  predicate PivotsOfMembers(names: seq<Str>)
  {
    forall i :: 0 <= i < |names| && PivotLike(names[i]) ==>
      StartsWith(names[i], PivotMarker) && names[i][|PivotMarker|..] in names
  }

  /** A name equal, ignoring case, to a pivot sheet's name starts with `Pivot_`, ignoring case. */
  lemma ClashIsPivotLike(n: Str, name: Str)
    ensures SameIgnoringCase(n, PivotName(name)) ==> PivotLike(n)
  {
    LowerPivot(name);
    assert ToLowerInvariant(PivotName(name))[..|PivotMarker|] == ToLowerInvariant(PivotMarker);
  }

  /** A `Pivot_<m>` equal, ignoring case, to `Pivot_<name>` has `m` equal to `name` ignoring case. */
  lemma PivotClashMember(n: Str, name: Str)
    ensures StartsWith(n, PivotMarker) && SameIgnoringCase(n, PivotName(name)) ==> SameIgnoringCase(n[|PivotMarker|..], name)
  {
    if StartsWith(n, PivotMarker) && SameIgnoringCase(n, PivotName(name)) {
      var m := n[|PivotMarker|..];
      var marker := ToLowerInvariant(PivotMarker);
      assert n == PivotName(m);
      LowerPivot(m);
      LowerPivot(name);
      assert (marker + ToLowerInvariant(m))[|marker|..] == ToLowerInvariant(m);
      assert (marker + ToLowerInvariant(name))[|marker|..] == ToLowerInvariant(name);
    }
  }

  /** The pivot sheet of a name the workbook took, when that name does not start with `Pivot_` ignoring case, is accepted too. */
  lemma PivotIsFresh(names: seq<Str>, name: Str)
    requires PivotsOfMembers(names) && !Taken(names, name) && !PivotLike(name)
    ensures AddSheet(names + [name], PivotName(name)) == Some(names + [name] + [PivotName(name)])
  {
    var pivot := PivotName(name);
    forall j | 0 <= j < |names| ensures !SameIgnoringCase(names[j], pivot) {
      ClashIsPivotLike(names[j], name);
      PivotClashMember(names[j], name);
    }
    ClashIsPivotLike(name, name);
  }

  /**
   * When no file's sheet name starts with `Pivot_`, ignoring case, and the
   * sheet names equal ignoring case are equal, no pivot sheet ever clashes:
   * the batch completes whether or not a clash would be caught, and both give
   * the same names.
   */
  lemma {:induction false} NoPivotClash(names: seq<Str>, count: nat, bases: seq<Str>, pivots: seq<bool>)
    requires |pivots| == |bases|
    requires CountersBelow(names, count + 1) && PivotsOfMembers(names)
    requires CaseAgrees(names, bases) && CaseConsistent(bases)
    requires forall i :: 0 <= i < |bases| ==> Untagged(bases[i]) && !PivotLike(bases[i])
    ensures BookNames(names, count, bases, pivots, false).Some?
    ensures BookNames(names, count, bases, pivots, false) == BookNames(names, count, bases, pivots, true)
    decreases |bases|
  {
    if |bases| > 0 {
      var name := NextName(names, bases[0], count + 1);
      NextNameIsFresh(names, bases[0], count + 1);
      NextNameIsFree(names, bases[0], count + 1);
      if bases[0] in names {
        SuffixedNotPivot(bases[0], count + 1);
      }
      var withLog := names + [name];
      var rest := bases[1..];
      LogNameAgrees(names, count + 1, bases);
      assert CaseAgrees(withLog, rest);
      assert PivotsOfMembers(withLog);
      var pivot := PivotName(name);
      if pivots[0] {
        PivotIsFresh(names, name);
        PivotKeepsCounters(withLog, name, count + 2);
        forall i | 0 <= i < |rest| ensures !SameIgnoringCase(rest[i], pivot) {
          NotPivotLikeAgrees(rest[i], name);
        }
        assert CaseAgrees(withLog + [pivot], rest);
        PivotMarkerShape();
        assert pivot[..|PivotMarker|] == PivotMarker && pivot[|PivotMarker|..] == name;
        assert PivotsOfMembers(withLog + [pivot]);
        NoPivotClash(withLog + [pivot], count + 1, rest, pivots[1..]);
      } else {
        NoPivotClash(withLog, count + 1, rest, pivots[1..]);
      }
    }
  }

  /**
   * The first release's workbook completes with names pairwise apart, pivot
   * sheets included, when no file's sheet name starts with `Pivot_`, ignoring
   * case, and the sheet names equal ignoring case are equal.
   */
  lemma FirstBookNamesDistinct(files: seq<Str>, pivots: seq<bool>)
    requires |pivots| == |files|
    requires forall i :: 0 <= i < |files| ==> !PivotLike(FirstSheetName(files[i]))
    requires CaseConsistent(Bases(files, true))
    ensures FirstBookNames(files, pivots).Some?
    ensures NoClashes(FirstBookNames(files, pivots).value) && NoDuplicates(FirstBookNames(files, pivots).value)
  {
    NoPivotClash([], 0, Bases(files, true), pivots);
    BookNamesNoClashes([], 0, Bases(files, true), pivots, false);
  }

  /**
   * When no file's sheet name starts with `Pivot_`, ignoring case, and the
   * sheet names equal ignoring case are equal, the current window's guard
   * never fires: every requested pivot sheet is added, just as without the
   * guard.
   */
  lemma LatestBookGuardIdle(files: seq<Str>, pivots: seq<bool>)
    requires |pivots| == |files|
    requires forall i :: 0 <= i < |files| ==> !PivotLike(SheetName(files[i]))
    requires CaseConsistent(Bases(files, false))
    ensures LatestBookNames(files, pivots) == BookNames([], 0, Bases(files, false), pivots, false)
    ensures LatestBookNames(files, pivots).Some?
  {
    NoPivotClash([], 0, Bases(files, false), pivots);
  }

  /**
   * The first release names a file by its whole stem, so a file `Pivot_<n>.log`
   * followed by `<n>.log` gives the second file's pivot sheet the first file's
   * sheet name, and the unguarded add ends the batch.
   */
  lemma FirstBookPivotClash(dir: Str, n: Str)
    requires |n| > 0 && Backslash !in n && Dash !in n && Dot !in n
    ensures var files := [dir + [Backslash] + (PivotName(n) + [Dot] + U("log")), dir + [Backslash] + (n + [Dot] + U("log"))];
      FirstBookNames(files, [true, true]).None?
  {
    var ext := U("log");
    var files := [dir + [Backslash] + (PivotName(n) + [Dot] + ext), dir + [Backslash] + (n + [Dot] + ext)];
    PivotFileNames(dir, n, ext);
    assert Bases(files, true) == [PivotName(n), n];
    PivotNameClash(n);
  }

  lemma PivotFileNames(dir: Str, n: Str, ext: Str)
    requires |n| > 0 && Backslash !in n && Dash !in n && Dot !in n
    requires ext == U("log")
    ensures FirstSheetName(dir + [Backslash] + (PivotName(n) + [Dot] + ext)) == PivotName(n)
    ensures FirstSheetName(dir + [Backslash] + (n + [Dot] + ext)) == n
  {
    assert Backslash !in ext && Dash !in ext;
    assert Backslash !in PivotMarker && Dash !in PivotMarker && Dot !in PivotMarker;
    SheetNameOfLogFile(dir, PivotName(n), ext);
    SheetNameOfLogFile(dir, n, ext);
  }

  /** Sheet names `Pivot_<n>` then `<n>`, both with pivot sheets, clash at the second pivot sheet. */
  lemma PivotNameClash(n: Str)
    requires |n| > 0
    ensures BookNames([], 0, [PivotName(n), n], [true, true], false).None?
  {
    var first := [PivotName(n), PivotName(PivotName(n))];
    assert BookNames([], 0, [PivotName(n), n], [true, true], false) == BookNames(first, 1, [n], [true], false);
    assert n !in first;
    assert PivotName(n) in first + [n];
  }
}
