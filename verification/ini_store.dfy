/**
 * The settings file: an INI text read into sections of key/value pairs,
 * queried and updated by section and key, and written back section by
 * section. Both revisions of `IniFile` behave alike.
 */
module IniStore {
  import opened Text

  const Semicolon: CodeUnit := 0x3B
  const OpenBracket: CodeUnit := 0x5B
  const CloseBracket: CodeUnit := 0x5D
  const EqualsSign: CodeUnit := 0x3D
  const LineFeed: CodeUnit := 0x0A
  const CarriageReturn: CodeUnit := 0x0D

  /** The pairs of one section in insertion order, the order a `Dictionary` enumerates them in. */
  type Entries = seq<(Str, Str)>

  datatype Section = Section(name: Str, entries: Entries)

  /** `_data`: the sections in insertion order. */
  type Data = seq<Section>

  function Keys(e: Entries): (r: seq<Str>)
    ensures |r| == |e|
    ensures forall i :: 0 <= i < |e| ==> r[i] == e[i].0
  {
    seq(|e|, i requires 0 <= i < |e| => e[i].0)
  }

  function Names(d: Data): (r: seq<Str>)
    ensures |r| == |d|
    ensures forall i :: 0 <= i < |d| ==> r[i] == d[i].name
  {
    seq(|d|, i requires 0 <= i < |d| => d[i].name)
  }

  predicate NoDuplicates(s: seq<Str>)
  {
    forall i, j :: 0 <= i < j < |s| ==> s[i] != s[j]
  }

  /** What the dictionaries guarantee: one section per name and one value per key. */
  predicate WellFormed(d: Data)
  {
    && NoDuplicates(Names(d))
    && forall i :: 0 <= i < |d| ==> NoDuplicates(Keys(d[i].entries))
  }

  // ---------------------------------------------------------------------------
  // One section's pairs

  /** `TryGetValue` on one section. */
  function Find(e: Entries, key: Str): (r: Option<Str>)
    ensures r.Some? <==> key in Keys(e)
    ensures r.Some? ==> (key, r.value) in e
  {
    var i := IndexOf(Keys(e), key);
    if i < 0 then None else Some(e[i].1)
  }

  /** `section[key] = value`: an existing key keeps its place, a new one goes last. */
  function Put(e: Entries, key: Str, value: Str): (r: Entries)
    ensures Keys(r) == if key in Keys(e) then Keys(e) else Keys(e) + [key]
    ensures NoDuplicates(Keys(e)) ==> NoDuplicates(Keys(r))
  {
    var i := IndexOf(Keys(e), key);
    if i < 0 then e + [(key, value)]
    else
      assert Keys(e[i := (key, value)]) == Keys(e);
      e[i := (key, value)]
  }

  /** After a put, the key reads the new value and every other key its old one. */
  lemma FindAfterPut(e: Entries, key: Str, value: Str, other: Str)
    ensures Find(Put(e, key, value), other) == if other == key then Some(value) else Find(e, other)
  {
    var r := Put(e, key, value);
    IndexOfAppend(Keys(e), key, other);
  }

  // ---------------------------------------------------------------------------
  // Reading and writing values

  /** `GetValue`: the value under `section` and `key`, or null when either is missing. */
  function GetValue(d: Data, section: Str, key: Str): (r: Option<Str>)
    ensures section !in Names(d) ==> r.None?
    ensures r.Some? ==> exists i :: 0 <= i < |d| && d[i].name == section && (key, r.value) in d[i].entries
  {
    var i := IndexOf(Names(d), section);
    if i < 0 then None else Find(d[i].entries, key)
  }

  /** Creates an empty section unless one of that name exists. */
  function AddSection(d: Data, name: Str): (r: Data)
    ensures Names(r) == if name in Names(d) then Names(d) else Names(d) + [name]
    ensures WellFormed(d) ==> WellFormed(r)
  {
    if name in Names(d) then d
    else
      assert Names(d + [Section(name, [])]) == Names(d) + [name];
      d + [Section(name, [])]
  }

  /** An added section is empty, so every lookup reads as before. */
  lemma GetAfterAddSection(d: Data, name: Str, section: Str, key: Str)
    ensures GetValue(AddSection(d, name), section, key) == GetValue(d, section, key)
  {
    IndexOfAppend(Names(d), name, section);
  }

  /** Replacing a section by one of the same name and distinct keys keeps the names and the well-formedness. */
  lemma ReplaceSection(d: Data, i: int, s: Section)
    requires 0 <= i < |d| && s.name == d[i].name
    ensures Names(d[i := s]) == Names(d)
    ensures WellFormed(d) && NoDuplicates(Keys(s.entries)) ==> WellFormed(d[i := s])
  {
    assert forall j :: 0 <= j < |d| ==> Names(d[i := s])[j] == Names(d)[j];
  }

  /** `SetValue`: creates the section if needed, then puts the pair into it. */
  function SetValue(d: Data, section: Str, key: Str, value: Str): (r: Data)
    ensures Names(r) == Names(AddSection(d, section))
    ensures WellFormed(d) ==> WellFormed(r)
  {
    var d1 := AddSection(d, section);
    var i := IndexOf(Names(d1), section);
    var entries := Put(d1[i].entries, key, value);
    ReplaceSection(d1, i, Section(section, entries));
    d1[i := Section(section, entries)]
  }

  /** After `SetValue(s, k, v)`, `GetValue(s, k)` is `v` and every other lookup is unchanged. */
  lemma GetAfterSet(d: Data, section: Str, key: Str, value: Str, s: Str, k: Str)
    ensures GetValue(SetValue(d, section, key, value), s, k)
      == if s == section && k == key then Some(value) else GetValue(d, s, k)
  {
    var d1 := AddSection(d, section);
    GetAfterAddSection(d, section, s, k);
    var i := IndexOf(Names(d1), section);
    FindAfterPut(d1[i].entries, key, value, k);
  }

  // ---------------------------------------------------------------------------
  // `Load`

  /** The parser's state: the data so far and the current section, null before the first header. */
  datatype Reader = Reader(data: Data, current: Option<Str>)

  /** Whether a trimmed line is a `[section]` header. */
  predicate IsHeader(t: Str)
  {
    |t| >= 2 && t[0] == OpenBracket && t[|t| - 1] == CloseBracket
  }

  /**
   * One line of `Load`, trimmed: a blank or `;` line is skipped; `[name]`
   * makes the trimmed name current, creating the section if absent; a line
   * with '=' under a current section sets the trimmed text before the first
   * '=' to the trimmed rest; any other line is ignored.
   */
  function ReadLine(r: Reader, line: Str): (q: Reader)
    ensures WellFormed(r.data) ==> WellFormed(q.data)
  {
    var t := Trim(line);
    if |t| == 0 || t[0] == Semicolon then r
    else if IsHeader(t) then
      var name := Trim(t[1..|t| - 1]);
      Reader(AddSection(r.data, name), Some(name))
    else if EqualsSign in t && r.current.Some? then
      var i := IndexOf(t, EqualsSign);
      Reader(SetValue(r.data, r.current.value, Trim(t[..i]), Trim(t[i + 1..])), r.current)
    else r
  }

  function ReadLines(r: Reader, lines: seq<Str>): (q: Reader)
    ensures WellFormed(r.data) ==> WellFormed(q.data)
    decreases |lines|
  {
    if |lines| == 0 then r else ReadLines(ReadLine(r, lines[0]), lines[1..])
  }

  /** `Load` of the file's lines into an empty store. */
  function Load(lines: seq<Str>): (d: Data)
    ensures WellFormed(d)
  {
    ReadLines(Reader([], None), lines).data
  }

  /** Blank and comment lines change nothing. */
  lemma SkipsBlankAndComment(r: Reader, line: Str)
    requires |Trim(line)| == 0 || Trim(line)[0] == Semicolon
    ensures ReadLine(r, line) == r
  {
  }

  /** A header naming an existing section adds nothing, so the keys under both headers merge. */
  lemma RepeatedHeaderMerges(r: Reader, line: Str)
    requires IsHeader(Trim(line)) && Trim(line)[0] != Semicolon
    requires Trim(Trim(line)[1..|Trim(line)| - 1]) in Names(r.data)
    ensures ReadLine(r, line).data == r.data
    ensures ReadLine(r, line).current == Some(Trim(Trim(line)[1..|Trim(line)| - 1]))
  {
  }

  /** A pair before any header is dropped. */
  lemma PairBeforeHeaderIgnored(data: Data, line: Str)
    requires !IsHeader(Trim(line))
    ensures ReadLine(Reader(data, None), line) == Reader(data, None)
  {
  }

  /**
   * A line `key=value` (the key free of '=') under a current section sets the
   * trimmed key to the trimmed value, which may itself hold '='; every other
   * lookup is unchanged, so a later line with the same key overwrites.
   */
  lemma PairLineSetsValue(r: Reader, line: Str, key: Str, value: Str, s: Str, k: Str)
    requires r.current.Some?
    requires Trim(line) == key + [EqualsSign] + value && EqualsSign !in key
    requires !IsHeader(Trim(line)) && Trim(line)[0] != Semicolon
    ensures GetValue(ReadLine(r, line).data, s, k)
      == if s == r.current.value && k == Trim(key) then Some(Trim(value)) else GetValue(r.data, s, k)
  {
    var t := Trim(line);
    IndexOfAfterPrefix(key, EqualsSign, value);
    assert t[..|key|] == key && t[|key| + 1..] == value;
    GetAfterSet(r.data, r.current.value, Trim(key), Trim(value), s, k);
  }

  // ---------------------------------------------------------------------------
  // `Save`

  /** `key=value`. */
  function PairLine(key: Str, value: Str): Str
  {
    key + [EqualsSign] + value
  }

  function PairLines(e: Entries): (r: seq<Str>)
    ensures |r| == |e|
    ensures forall i :: 0 <= i < |e| ==> r[i] == PairLine(e[i].0, e[i].1)
  {
    seq(|e|, i requires 0 <= i < |e| => PairLine(e[i].0, e[i].1))
  }

  /** One section as written: `[name]`, its pairs, then an empty line. */
  function SectionLines(s: Section): (r: seq<Str>)
    ensures |r| == |s.entries| + 2
    ensures r[0] == [OpenBracket] + s.name + [CloseBracket] && r[|r| - 1] == []
  {
    [[OpenBracket] + s.name + [CloseBracket]] + PairLines(s.entries) + [[]]
  }

  /** `Save` / `UpdateSettings`: the lines written, section after section. */
  function Save(d: Data): (r: seq<Str>)
    ensures |d| == 0 <==> |r| == 0
    decreases |d|
  {
    if |d| == 0 then [] else SectionLines(d[0]) + Save(d[1..])
  }

  // ---------------------------------------------------------------------------
  // Round trip

  /** No white space at either end, so `Trim` keeps the text. */
  predicate Trimmed(s: Str)
  {
    |s| == 0 || (!IsWhiteSpace(s[0]) && !IsWhiteSpace(s[|s| - 1]))
  }

  /** No line break, so the text stays on the one line `File.ReadAllLines` gives back. */
  predicate SingleLine(s: Str)
  {
    LineFeed !in s && CarriageReturn !in s
  }

  predicate IsHighSurrogate(c: CodeUnit)
  {
    0xD800 <= c <= 0xDBFF
  }

  predicate IsLowSurrogate(c: CodeUnit)
  {
    0xDC00 <= c <= 0xDFFF
  }

  /**
   * Every surrogate has its partner: a high one is followed by a low one and
   * a low one follows a high one, so the UTF-8 encoder of `StreamWriter` can
   * write the text.
   */
  predicate PairedSurrogates(s: Str)
  {
    forall i :: 0 <= i < |s| ==>
      (IsHighSurrogate(s[i]) ==> i + 1 < |s| && IsLowSurrogate(s[i + 1]))
      && (IsLowSurrogate(s[i]) ==> i > 0 && IsHighSurrogate(s[i - 1]))
  }

  /** Text that is written and read back as the same one line. */
  predicate Writable(s: Str)
  {
    SingleLine(s) && PairedSurrogates(s)
  }

  /** A key that reads back as itself: trimmed, writable on one line, free of '=', and not read as a comment or header. */
  predicate StorableKey(k: Str)
  {
    Trimmed(k) && Writable(k) && EqualsSign !in k && (|k| == 0 || (k[0] != Semicolon && k[0] != OpenBracket))
  }

  predicate StorableSection(s: Section)
  {
    && Trimmed(s.name) && Writable(s.name)
    && forall i :: 0 <= i < |s.entries| ==> StorableKey(s.entries[i].0) && Trimmed(s.entries[i].1) && Writable(s.entries[i].1)
  }

  predicate Storable(d: Data)
  {
    forall i :: 0 <= i < |d| ==> StorableSection(d[i])
  }

  lemma {:induction false} ReadLinesAppend(r: Reader, a: seq<Str>, b: seq<Str>)
    ensures ReadLines(r, a + b) == ReadLines(ReadLines(r, a), b)
    decreases |a|
  {
    if |a| > 0 {
      assert (a + b)[1..] == a[1..] + b;
      ReadLinesAppend(ReadLine(r, a[0]), a[1..], b);
    } else {
      assert a + b == b;
    }
  }

  lemma TrimmedIsOwnTrim(s: Str)
    requires Trimmed(s)
    ensures Trim(s) == s
  {
    TrimByIdentity(s, IsWhiteSpace);
  }

  /** A header line written for a new section creates it, empty, and makes it current. */
  lemma ReadHeader(prefix: Data, current: Option<Str>, name: Str)
    requires Trimmed(name) && name !in Names(prefix)
    ensures ReadLine(Reader(prefix, current), [OpenBracket] + name + [CloseBracket])
      == Reader(prefix + [Section(name, [])], Some(name))
  {
    var line := [OpenBracket] + name + [CloseBracket];
    TrimmedIsOwnTrim(line);
    assert line[1..|line| - 1] == name;
    TrimmedIsOwnTrim(name);
  }

  /** How `ReadLine` sees a written pair line: as itself after trimming, split at the '=' after the key. */
  lemma PairLineShape(key: Str, value: Str)
    requires StorableKey(key) && Trimmed(value)
    ensures var line := PairLine(key, value);
      && Trim(line) == line && line[0] != Semicolon && !IsHeader(line) && EqualsSign in line
      && IndexOf(line, EqualsSign) == |key| && line[..|key|] == key && line[|key| + 1..] == value
  {
    var line := PairLine(key, value);
    TrimmedIsOwnTrim(line);
    IndexOfAfterPrefix(key, EqualsSign, value);
    assert line[..|key|] == key && line[|key| + 1..] == value;
  }

  /** A written pair line, under a current section, sets exactly its key to its value. */
  lemma ReadPairLine(r: Reader, key: Str, value: Str)
    requires r.current.Some? && StorableKey(key) && Trimmed(value)
    ensures ReadLine(r, PairLine(key, value)) == Reader(SetValue(r.data, r.current.value, key, value), r.current)
  {
    var line := PairLine(key, value);
    PairLineShape(key, value);
    TrimmedIsOwnTrim(key);
    TrimmedIsOwnTrim(value);
    ReadPairBranch(r, line, |key|);
  }

  /** The pair branch of `ReadLine`, for a line already trimmed. */
  lemma ReadPairBranch(r: Reader, line: Str, i: int)
    requires r.current.Some? && Trim(line) == line && |line| > 0 && line[0] != Semicolon && !IsHeader(line)
    requires EqualsSign in line && i == IndexOf(line, EqualsSign)
    ensures ReadLine(r, line) == Reader(SetValue(r.data, r.current.value, Trim(line[..i]), Trim(line[i + 1..])), r.current)
  {
  }

  /** Setting a new key of the last section appends the pair to that section. */
  lemma SetLastSection(prefix: Data, name: Str, e: Entries, key: Str, value: Str)
    requires name !in Names(prefix) && key !in Keys(e)
    ensures SetValue(prefix + [Section(name, e)], name, key, value) == prefix + [Section(name, e + [(key, value)])]
  {
    var d := prefix + [Section(name, e)];
    assert Names(d) == Names(prefix) + [name];
    IndexOfAppend(Names(prefix), name, name);
    assert AddSection(d, name) == d;
    assert Put(e, key, value) == e + [(key, value)];
  }

  /** A pair line written for a new key of the last section appends the pair to it. */
  lemma ReadPair(prefix: Data, name: Str, e: Entries, key: Str, value: Str)
    requires name !in Names(prefix) && key !in Keys(e)
    requires StorableKey(key) && Trimmed(value)
    ensures ReadLine(Reader(prefix + [Section(name, e)], Some(name)), PairLine(key, value))
      == Reader(prefix + [Section(name, e + [(key, value)])], Some(name))
  {
    ReadPairLine(Reader(prefix + [Section(name, e)], Some(name)), key, value);
    SetLastSection(prefix, name, e, key, value);
  }

  /** With no key repeated, the next key to read is not among those read. */
  lemma NextKeyIsNew(done: Entries, rest: Entries)
    requires NoDuplicates(Keys(done + rest)) && |rest| > 0
    ensures rest[0].0 !in Keys(done)
  {
    var all := Keys(done + rest);
    assert all[|done|] == rest[0].0;
    assert forall i :: 0 <= i < |done| ==> all[i] == Keys(done)[i];
  }

  lemma {:induction false} ReadPairs(prefix: Data, name: Str, done: Entries, rest: Entries)
    requires name !in Names(prefix) && NoDuplicates(Keys(done + rest))
    requires forall i :: 0 <= i < |rest| ==> StorableKey(rest[i].0) && Trimmed(rest[i].1)
    ensures ReadLines(Reader(prefix + [Section(name, done)], Some(name)), PairLines(rest))
      == Reader(prefix + [Section(name, done + rest)], Some(name))
    decreases |rest|
  {
    if |rest| > 0 {
      NextKeyIsNew(done, rest);
      var r := Reader(prefix + [Section(name, done)], Some(name));
      assert PairLines(rest) == [PairLine(rest[0].0, rest[0].1)] + PairLines(rest[1..]);
      ReadLinesCons(r, PairLine(rest[0].0, rest[0].1), PairLines(rest[1..]));
      ReadPair(prefix, name, done, rest[0].0, rest[0].1);
      assert done + rest == (done + [rest[0]]) + rest[1..];
      ReadPairs(prefix, name, done + [rest[0]], rest[1..]);
    } else {
      assert done + rest == done;
    }
  }

  /** The lines of one new section read back as that section. */
  lemma ReadSection(prefix: Data, current: Option<Str>, s: Section)
    requires s.name !in Names(prefix) && NoDuplicates(Keys(s.entries)) && StorableSection(s)
    ensures ReadLines(Reader(prefix, current), SectionLines(s)) == Reader(prefix + [s], Some(s.name))
  {
    var header := [OpenBracket] + s.name + [CloseBracket];
    var lines := PairLines(s.entries);
    assert SectionLines(s) == [header] + (lines + [[]]);
    ReadLinesCons(Reader(prefix, current), header, lines + [[]]);
    ReadHeader(prefix, current, s.name);
    var started := Reader(prefix + [Section(s.name, [])], Some(s.name));
    ReadLinesAppend(started, lines, [[]]);
    assert [] + s.entries == s.entries;
    ReadPairs(prefix, s.name, [], s.entries);
    ReadBlank(Reader(prefix + [s], Some(s.name)));
  }

  lemma ReadLinesCons(r: Reader, line: Str, rest: seq<Str>)
    ensures ReadLines(r, [line] + rest) == ReadLines(ReadLine(r, line), rest)
  {
    assert ([line] + rest)[1..] == rest;
  }

  /** The empty line after a section changes nothing. */
  lemma ReadBlank(r: Reader)
    ensures ReadLines(r, [[]]) == r
  {
    var blank: Str := [];
    var none: seq<Str> := [];
    ReadLinesCons(r, blank, none);
    assert [blank] + none == [blank];
    assert Trim(blank) == blank;
  }

  /** With no name repeated, the next section to read is new, and the rest stays well formed. */
  lemma NextSectionIsNew(prefix: Data, d: Data)
    requires WellFormed(prefix + d) && Storable(d) && |d| > 0
    ensures d[0].name !in Names(prefix) && NoDuplicates(Keys(d[0].entries)) && StorableSection(d[0])
    ensures (prefix + [d[0]]) + d[1..] == prefix + d && Storable(d[1..])
  {
    var all := prefix + d;
    assert Names(all)[|prefix|] == d[0].name;
    assert forall i :: 0 <= i < |prefix| ==> Names(all)[i] == Names(prefix)[i];
    assert all[|prefix|] == d[0];
    assert (prefix + [d[0]]) + d[1..] == all;
  }

  lemma {:induction false} ReadSections(prefix: Data, current: Option<Str>, d: Data)
    requires WellFormed(prefix + d) && Storable(d)
    ensures ReadLines(Reader(prefix, current), Save(d)).data == prefix + d
    decreases |d|
  {
    if |d| > 0 {
      NextSectionIsNew(prefix, d);
      ReadLinesAppend(Reader(prefix, current), SectionLines(d[0]), Save(d[1..]));
      ReadSection(prefix, current, d[0]);
      ReadSections(prefix + [d[0]], Some(d[0].name), d[1..]);
    } else {
      assert prefix + d == prefix;
    }
  }

  /**
   * Loading what `Save` writes gives the data back, when every name, key and
   * value is trimmed and free of line breaks, and no key holds '=' or starts
   * with ';' or '['.
   */
  lemma LoadSave(d: Data)
    requires WellFormed(d) && Storable(d)
    ensures Load(Save(d)) == d
  {
    assert [] + d == d;
    ReadSections([], None, d);
  }
}
