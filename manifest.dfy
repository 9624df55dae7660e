/**
 * The manifest reader of the io.github.hoijui.rezipdoc generation: raw
 * manifest lines are filtered, continuation lines are joined onto the
 * entry they continue, each entry is split at its first ": " into a key
 * and a value, and the version and licence are looked up with
 * "<unknown>" as the default.
 */
module Manifest {
  import opened Common

  /** BinaryUtil.UNKNOWN_VALUE. */
  const UNKNOWN_VALUE := "<unknown>"

  /** A line that is neither blank nor starts with the literal text "[#%]". */
  predicate IsContentManifestLine(line: string)
    ensures IsContentManifestLine(line) ==> line != []
  {
    Trim(line) != [] && !StartsWith(line, "[#%]")
  }

  /** A line that continues the previous entry: its first character is a space. */
  predicate IsContinuationManifestLine(line: string)
    requires line != []
  {
    line[0] == ' '
  }

  // -----------------------------------------------------------------------
  // Joining continuation lines

  /** The list of finished entries and the entry being built. */
  datatype Collected = Collected(props: seq<string>, current: string)

  /** One line of the forEach: skip it, extend the current entry, or close it and start the next. */
  function CollectStep(st: Collected, line: string): Collected {
    if !IsContentManifestLine(line) then st
    else if IsContinuationManifestLine(line) then st.(current := st.current + line[1..])
    else Collected(if |st.current| > 0 then st.props + [st.current] else st.props, line)
  }

  function CollectState(lines: seq<string>): Collected {
    if lines == [] then Collected([], []) else CollectStep(CollectState(Init(lines)), Last(lines))
  }

  /** collectKeyValueStrings: the entries, the pending one flushed at the end if non-empty. */
  function KeyValueStrings(lines: seq<string>): seq<string> {
    var st := CollectState(lines);
    if |st.current| > 0 then st.props + [st.current] else st.props
  }

  /** The characters a content line contributes: all of it, or what follows the space of a continuation. */
  function Piece(line: string): string {
    if !IsContentManifestLine(line) then []
    else if IsContinuationManifestLine(line) then line[1..]
    else line
  }

  /** The pieces of all lines, one after the other. */
  function Spelled(lines: seq<string>): string {
    if lines == [] then [] else Spelled(Init(lines)) + Piece(Last(lines))
  }

  function Concat(parts: seq<string>): string {
    if parts == [] then [] else Concat(Init(parts)) + Last(parts)
  }

  /** The imperative collector: a list of entries and a builder, updated line by line. */
  method CollectKeyValueStrings(lines: seq<string>) returns (props: seq<string>)
    ensures props == KeyValueStrings(lines)
  {
    props := [];
    var current: string := [];
    var i := 0;
    while i < |lines|
      invariant 0 <= i <= |lines|
      invariant CollectState(lines[..i]) == Collected(props, current)
    {
      assert Init(lines[..i + 1]) == lines[..i] && Last(lines[..i + 1]) == lines[i];
      var line := lines[i];
      if IsContentManifestLine(line) {
        if IsContinuationManifestLine(line) {
          current := current + line[1..];
        } else {
          if |current| > 0 {
            props := props + [current];
          }
          current := line;
        }
      }
      i := i + 1;
    }
    assert lines[..i] == lines;
    if |current| > 0 {
      props := props + [current];
    }
  }

  /** The state's entries, then the pending one, spell out the pieces of every line so far. */
  lemma {:induction false} CollectStateSpells(lines: seq<string>)
    ensures var st := CollectState(lines); Concat(st.props) + st.current == Spelled(lines)
  {
    if lines != [] {
      var before := CollectState(Init(lines));
      CollectStateSpells(Init(lines));
      var line := Last(lines);
      if IsContentManifestLine(line) && !IsContinuationManifestLine(line) && |before.current| > 0 {
        ConcatSnoc(before.props, before.current);
      }
    }
  }

  /** No part is empty. */
  predicate NoneEmpty(parts: seq<string>) {
    forall k :: 0 <= k < |parts| ==> parts[k] != []
  }

  /** No finished entry is empty. */
  lemma {:induction false} CollectStateNonEmpty(lines: seq<string>)
    ensures NoneEmpty(CollectState(lines).props)
  {
    if lines != [] {
      var before := CollectState(Init(lines));
      CollectStateNonEmpty(Init(lines));
      var line := Last(lines);
      if IsContentManifestLine(line) && !IsContinuationManifestLine(line) && |before.current| > 0 {
        assert CollectState(lines).props == before.props + [before.current];
      }
    }
  }

  lemma ConcatSnoc(parts: seq<string>, s: string)
    ensures Concat(parts + [s]) == Concat(parts) + s
  {
    assert Init(parts + [s]) == parts && Last(parts + [s]) == s;
  }

  /**
   * Joining keeps every character of every content line, in order, apart
   * from the leading space of each continuation; no entry is empty.
   */
  lemma KeyValueStringsSpell(lines: seq<string>)
    ensures Concat(KeyValueStrings(lines)) == Spelled(lines)
    ensures NoneEmpty(KeyValueStrings(lines))
  {
    var st := CollectState(lines);
    CollectStateSpells(lines);
    CollectStateNonEmpty(lines);
    if |st.current| > 0 {
      ConcatSnoc(st.props, st.current);
    }
  }

  /** Without continuation lines, every content line is an entry of its own, in order. */
  lemma {:induction false} NoContinuationOneEntryPerLine(lines: seq<string>)
    requires forall k :: 0 <= k < |lines| && IsContentManifestLine(lines[k]) ==> !IsContinuationManifestLine(lines[k])
    ensures KeyValueStrings(lines) == ContentLines(lines)
  {
    NoContinuationState(lines);
  }

  lemma {:induction false} NoContinuationState(lines: seq<string>)
    requires forall k :: 0 <= k < |lines| && IsContentManifestLine(lines[k]) ==> !IsContinuationManifestLine(lines[k])
    ensures var st := CollectState(lines);
      (if |st.current| > 0 then st.props + [st.current] else st.props) == ContentLines(lines)
      && (st.current == [] <==> ContentLines(lines) == [])
  {
    if lines != [] {
      NoContinuationState(Init(lines));
    }
  }

  /** The content lines, in order. */
  function ContentLines(lines: seq<string>): seq<string> {
    if lines == [] then []
    else ContentLines(Init(lines)) + (if IsContentManifestLine(Last(lines)) then [Last(lines)] else [])
  }

  // -----------------------------------------------------------------------
  // Splitting an entry

  /** The first index at or after `from` where `t` occurs in `s`, or -1. */
  function IndexOf(s: string, t: string, from: nat): (r: int)
    requires from <= |s|
    ensures r == -1 || from <= r <= |s|
    ensures r >= 0 ==> OccursAt(s, t, r)
    ensures forall i :: from <= i && (r == -1 || i < r) ==> !OccursAt(s, t, i)
    decreases |s| - from
  {
    if OccursAt(s, t, from) then from
    else if from == |s| then -1
    else IndexOf(s, t, from + 1)
  }

  /** split(": ", 2): the text before the first ": " and all after it; None where there is none. */
  function SplitPair(entry: string): Option<(string, string)> {
    var i := IndexOf(entry, ": ", 0);
    if i < 0 then None else Some((entry[..i], entry[i + 2..]))
  }

  /** A key without ": " joined to any value splits back into that key and value. */
  lemma SplitPairJoin(key: string, value: string)
    requires !Contains(key, ": ")
    ensures SplitPair(key + ": " + value) == Some((key, value))
  {
    var e := key + ": " + value;
    assert OccursAt(e, ": ", |key|) by {
      assert e[|key|..|key| + 2] == ": ";
    }
    forall j | 0 <= j < |key|
      ensures !OccursAt(e, ": ", j)
    {
      if j + 2 <= |key| {
        assert e[j..j + 2] == key[j..j + 2];
        assert !OccursAt(key, ": ", j);
      } else {
        assert e[j + 1] == ':';
      }
    }
    assert e[..|key|] == key && e[|key| + 2..] == value;
  }

  /** A successful split gives back the entry, with a key that holds no ": ". */
  lemma SplitPairParts(entry: string)
    requires SplitPair(entry).Some?
    ensures var (key, value) := SplitPair(entry).value;
      entry == key + ": " + value && !Contains(key, ": ")
  {
    var i := IndexOf(entry, ": ", 0);
    var (key, value) := SplitPair(entry).value;
    assert entry == entry[..i] + entry[i..i + 2] + entry[i + 2..];
    if Contains(key, ": ") {
      var j :| 0 <= j <= |key| && OccursAt(key, ": ", j);
      assert entry[j..j + 2] == key[j..j + 2];
      assert OccursAt(entry, ": ", j);
    }
  }

  // -----------------------------------------------------------------------
  // From entries to properties

  /** parseManifestLines as written: the first entry without ": " fails; otherwise only the last pair is kept. */
  function LastPair(entries: seq<string>): Result<Option<(string, string)>> {
    if entries == [] then Ok(None)
    else
      match LastPair(Init(entries))
      case Err(e) => Err(e)
      case Ok(_) =>
        match SplitPair(Last(entries))
        case None => Err(InvalidManifestEntry(Last(entries)))
        case Some(pair) => Ok(Some(pair))
  }

  function ParseAsWritten(entries: seq<string>): Result<map<string, string>> {
    match LastPair(entries)
    case Err(e) => Err(e)
    case Ok(None) => Ok(map[])
    case Ok(Some((key, value))) => Ok(map[key := value])
  }

  /** parseManifestLines with setProperty inside the loop: every pair, a later key overriding an earlier one. */
  function ParsePairs(entries: seq<string>): Result<map<string, string>> {
    if entries == [] then Ok(map[])
    else
      match ParsePairs(Init(entries))
      case Err(e) => Err(e)
      case Ok(props) =>
        match SplitPair(Last(entries))
        case None => Err(InvalidManifestEntry(Last(entries)))
        case Some((key, value)) => Ok(props[key := value])
  }

  /** The loop of parseManifestLines as written: key and value overwritten per entry, stored once at the end. */
  method ParseManifestLinesAsWritten(entries: seq<string>) returns (r: Result<map<string, string>>)
    ensures r == ParseAsWritten(entries)
  {
    var current: Option<(string, string)> := None;
    var i := 0;
    while i < |entries|
      invariant 0 <= i <= |entries|
      invariant LastPair(entries[..i]) == Ok(current)
    {
      assert Init(entries[..i + 1]) == entries[..i] && Last(entries[..i + 1]) == entries[i];
      var pair := SplitPair(entries[i]);
      if pair.None? {
        LastPairErrPropagates(entries[..i + 1], entries[i + 1..]);
        assert entries[..i + 1] + entries[i + 1..] == entries;
        return Err(InvalidManifestEntry(entries[i]));
      }
      current := pair;
      i := i + 1;
    }
    assert entries[..i] == entries;
    if current.Some? {
      r := Ok(map[current.value.0 := current.value.1]);
    } else {
      r := Ok(map[]);
    }
  }

  /** The loop with setProperty moved into it. */
  method ParseManifestLines(entries: seq<string>) returns (r: Result<map<string, string>>)
    ensures r == ParsePairs(entries)
  {
    var props: map<string, string> := map[];
    var i := 0;
    while i < |entries|
      invariant 0 <= i <= |entries|
      invariant ParsePairs(entries[..i]) == Ok(props)
    {
      assert Init(entries[..i + 1]) == entries[..i] && Last(entries[..i + 1]) == entries[i];
      var pair := SplitPair(entries[i]);
      if pair.None? {
        ParsePairsErrPropagates(entries[..i + 1], entries[i + 1..]);
        assert entries[..i + 1] + entries[i + 1..] == entries;
        return Err(InvalidManifestEntry(entries[i]));
      }
      props := props[pair.value.0 := pair.value.1];
      i := i + 1;
    }
    assert entries[..i] == entries;
    r := Ok(props);
  }

  /** parseManifestLines(Stream) as written: the lines joined into entries, then the loop that stores once. */
  method ParseManifestAsWritten(lines: seq<string>) returns (r: Result<map<string, string>>)
    ensures r == ParseAsWritten(KeyValueStrings(lines))
  {
    var entries := CollectKeyValueStrings(lines);
    r := ParseManifestLinesAsWritten(entries);
  }

  /** parseManifestLines(Stream) with setProperty inside the loop. */
  method ParseManifest(lines: seq<string>) returns (r: Result<map<string, string>>)
    ensures r == ParsePairs(KeyValueStrings(lines))
  {
    var entries := CollectKeyValueStrings(lines);
    r := ParseManifestLines(entries);
  }

  lemma {:induction false} LastPairErrPropagates(a: seq<string>, b: seq<string>)
    requires LastPair(a).Err?
    ensures LastPair(a + b) == LastPair(a)
    decreases |b|
  {
    if b == [] {
      assert a + b == a;
    } else {
      assert Init(a + b) == a + Init(b);
      LastPairErrPropagates(a, Init(b));
    }
  }

  lemma {:induction false} ParsePairsErrPropagates(a: seq<string>, b: seq<string>)
    requires ParsePairs(a).Err?
    ensures ParsePairs(a + b) == ParsePairs(a)
    decreases |b|
  {
    if b == [] {
      assert a + b == a;
    } else {
      assert Init(a + b) == a + Init(b);
      ParsePairsErrPropagates(a, Init(b));
    }
  }

  /** The first entry without ": " is the one reported. */
  predicate FirstInvalidAt(entries: seq<string>, k: int) {
    0 <= k < |entries| && SplitPair(entries[k]).None?
    && forall j :: 0 <= j < k ==> SplitPair(entries[j]).Some?
  }

  /** Parsing fails exactly when some entry has no ": ". */
  lemma {:induction false} ParsePairsFails(entries: seq<string>)
    ensures ParsePairs(entries).Err? <==> exists k :: 0 <= k < |entries| && SplitPair(entries[k]).None?
  {
    if entries != [] {
      var init := Init(entries);
      ParsePairsFails(init);
      if exists k :: 0 <= k < |init| && SplitPair(init[k]).None? {
        var k :| 0 <= k < |init| && SplitPair(init[k]).None?;
        assert entries[k] == init[k];
      }
      if exists k :: 0 <= k < |entries| && SplitPair(entries[k]).None? {
        var k :| 0 <= k < |entries| && SplitPair(entries[k]).None?;
        if k < |init| {
          assert entries[k] == init[k];
        }
      }
    }
  }

  /** The error names the first entry without ": ". */
  lemma ParsePairsFirstInvalid(entries: seq<string>, k: int)
    requires FirstInvalidAt(entries, k)
    ensures ParsePairs(entries) == Err(InvalidManifestEntry(entries[k]))
  {
    var prefix := entries[..k];
    ParsePairsFails(prefix);
    assert Init(entries[..k + 1]) == prefix && Last(entries[..k + 1]) == entries[k];
    ParsePairsErrPropagates(entries[..k + 1], entries[k + 1..]);
    assert entries[..k + 1] + entries[k + 1..] == entries;
  }

  /** Entry k splits into a pair whose key is `key`. */
  predicate Carries(entries: seq<string>, k: int, key: string) {
    0 <= k < |entries| && SplitPair(entries[k]).Some? && SplitPair(entries[k]).value.0 == key
  }

  /** A key is present exactly when some entry carries it. */
  lemma {:induction false} ParsePairsKeys(entries: seq<string>, key: string)
    requires ParsePairs(entries).Ok?
    ensures key in ParsePairs(entries).value <==> exists k :: Carries(entries, k, key)
  {
    if entries != [] {
      var init := Init(entries);
      ParsePairsKeys(init, key);
      var pair := SplitPair(Last(entries)).value;
      assert ParsePairs(entries).value == ParsePairs(init).value[pair.0 := pair.1];
      if key in ParsePairs(entries).value {
        if key == pair.0 {
          assert Carries(entries, |entries| - 1, key);
        } else {
          var k :| Carries(init, k, key);
          assert entries[k] == init[k];
          assert Carries(entries, k, key);
        }
      }
      if exists k :: Carries(entries, k, key) {
        var k :| Carries(entries, k, key);
        if k < |init| {
          assert entries[k] == init[k];
          assert Carries(init, k, key);
        }
      }
    }
  }

  /** A key maps to the value of the last entry that carries it. */
  lemma {:induction false} ParsePairsLastWins(entries: seq<string>, k: int, key: string, value: string)
    requires ParsePairs(entries).Ok? && 0 <= k < |entries| && SplitPair(entries[k]) == Some((key, value))
    requires forall j :: k < j < |entries| ==> SplitPair(entries[j]).None? || SplitPair(entries[j]).value.0 != key
    ensures key in ParsePairs(entries).value && ParsePairs(entries).value[key] == value
  {
    var init := Init(entries);
    if k < |init| {
      assert entries[k] == init[k];
      forall j | k < j < |init|
        ensures SplitPair(init[j]).None? || SplitPair(init[j]).value.0 != key
      {
        assert init[j] == entries[j];
      }
      ParsePairsLastWins(init, k, key, value);
    }
  }

  /** As written, the result holds at most one key, that of the last entry, and fails exactly when the full parse does. */
  lemma AsWrittenKeepsLastOnly(entries: seq<string>)
    ensures ParseAsWritten(entries).Err? <==> ParsePairs(entries).Err?
    ensures ParseAsWritten(entries).Ok? && entries != [] ==>
      ParseAsWritten(entries).value == map[SplitPair(Last(entries)).value.0 := SplitPair(Last(entries)).value.1]
    ensures ParseAsWritten(entries).Ok? && entries == [] ==> ParseAsWritten(entries).value == map[]
  {
    SameFailure(entries);
  }

  lemma {:induction false} SameFailure(entries: seq<string>)
    ensures LastPair(entries).Err? <==> ParsePairs(entries).Err?
    ensures LastPair(entries).Err? ==> LastPair(entries).error == ParsePairs(entries).error
    ensures LastPair(entries).Ok? ==> (LastPair(entries).value.None? <==> entries == [])
  {
    if entries != [] {
      SameFailure(Init(entries));
    }
  }

  // -----------------------------------------------------------------------
  // Lookups

  /** Properties.getProperty(key, "<unknown>"): the stored value, or the default when the key is absent. */
  function GetProperty(props: map<string, string>, key: string): (v: string)
    ensures key in props ==> v == props[key]
    ensures key !in props ==> v == UNKNOWN_VALUE
  {
    if key in props then props[key] else UNKNOWN_VALUE
  }

  /** getVersion(). */
  function GetVersion(props: map<string, string>): string {
    GetProperty(props, "Bundle-Version")
  }

  /** getLicense(). */
  function GetLicense(props: map<string, string>): string {
    GetProperty(props, "Bundle-License")
  }

  /** A lookup after the every-pair parse: the default when no entry carries the key, else the last such entry's value. */
  lemma ParsedLookup(entries: seq<string>, key: string, k: int)
    requires ParsePairs(entries).Ok?
    ensures (forall j :: !Carries(entries, j, key)) ==> GetProperty(ParsePairs(entries).value, key) == UNKNOWN_VALUE
    ensures Carries(entries, k, key) && (forall j :: k < j ==> !Carries(entries, j, key)) ==>
      GetProperty(ParsePairs(entries).value, key) == SplitPair(entries[k]).value.1
  {
    ParsePairsKeys(entries, key);
    if Carries(entries, k, key) && (forall j :: k < j ==> !Carries(entries, j, key)) {
      forall j | k < j < |entries|
        ensures SplitPair(entries[j]).None? || SplitPair(entries[j]).value.0 != key
      {
        assert !Carries(entries, j, key);
      }
      ParsePairsLastWins(entries, k, key, SplitPair(entries[k]).value.1);
    }
  }

  /** A manifest with a version followed by a licence. */
  const SAMPLE: seq<string> := ["Bundle-Version: 2.1", "Bundle-License: GPL-3.0"]

  /** The key/value pairs the sample's lines carry. */
  const SAMPLE_PAIRS: seq<(string, string)> := [("Bundle-Version", "2.1"), ("Bundle-License", "GPL-3.0")]

  lemma SampleSplits()
    ensures SplitPair(SAMPLE[0]) == Some(("Bundle-Version", "2.1"))
    ensures SplitPair(SAMPLE[1]) == Some(("Bundle-License", "GPL-3.0"))
  {
    SampleLineSplits(0);
    SampleLineSplits(1);
  }

  lemma SampleLineSplits(i: int)
    requires 0 <= i < 2
    ensures SplitPair(SAMPLE[i]) == Some(SAMPLE_PAIRS[i])
  {
    if i == 0 {
      NoSeparator("Bundle-Version");
      SplitPairJoin("Bundle-Version", "2.1");
      assert "Bundle-Version: 2.1" == "Bundle-Version" + ": " + "2.1";
    } else {
      NoSeparator("Bundle-License");
      SplitPairJoin("Bundle-License", "GPL-3.0");
      assert "Bundle-License: GPL-3.0" == "Bundle-License" + ": " + "GPL-3.0";
    }
  }

  lemma NoSeparator(key: string)
    requires forall i :: 0 <= i < |key| ==> key[i] != ':'
    ensures !Contains(key, ": ")
  {
    forall i | 0 <= i <= |key|
      ensures !OccursAt(key, ": ", i)
    {
      if i + 2 <= |key| {
        assert key[i..i + 2][0] == key[i];
      }
    }
  }

  /** As written, the version is lost behind the licence that follows it. */
  lemma AsWrittenLosesVersion()
    ensures ParseAsWritten(SAMPLE).Ok?
    ensures GetVersion(ParseAsWritten(SAMPLE).value) == UNKNOWN_VALUE
    ensures GetLicense(ParseAsWritten(SAMPLE).value) == "GPL-3.0"
  {
    SampleSplits();
    assert Init(SAMPLE) == [SAMPLE[0]] && Last(SAMPLE) == SAMPLE[1];
    assert Init([SAMPLE[0]]) == [] && Last([SAMPLE[0]]) == SAMPLE[0];
  }

  /** The sample as manifest lines: the licence value continued on a line of its own. */
  const RAW: seq<string> := ["Bundle-Version: 2.1", "Bundle-License: GPL-", " 3.0"]

  /** A line with a character that is not whitespace does not trim to nothing. */
  lemma TrimNotEmpty(s: string, k: int)
    requires 0 <= k < |s| && !IsTrimmed(s[k])
    ensures Trim(s) != []
  {
    var lo := TrimLow(s, 0);
    var hi := TrimHigh(s, |s|);
    assert lo <= k < hi;
  }

  lemma RawLines()
    ensures IsContentManifestLine(RAW[0]) && !IsContinuationManifestLine(RAW[0])
    ensures IsContentManifestLine(RAW[1]) && !IsContinuationManifestLine(RAW[1])
    ensures IsContentManifestLine(RAW[2]) && IsContinuationManifestLine(RAW[2]) && RAW[2][1..] == "3.0"
  {
    TrimNotEmpty(RAW[0], 0);
    TrimNotEmpty(RAW[1], 0);
    TrimNotEmpty(RAW[2], 1);
    assert RAW[0][0] != '[' && RAW[1][0] != '[' && RAW[2][0] != '[';
  }

  /** Joining the raw lines gives the two entries of the sample. */
  lemma RawJoins()
    ensures KeyValueStrings(RAW) == SAMPLE
  {
    RawLines();
    assert Init(RAW) == RAW[..2] && Last(RAW) == RAW[2];
    assert Init(RAW[..2]) == RAW[..1] && Last(RAW[..2]) == RAW[1];
    assert Init(RAW[..1]) == [] && Last(RAW[..1]) == RAW[0];
    assert CollectState(RAW[..1]) == Collected([], RAW[0]);
    assert CollectState(RAW[..2]) == Collected([RAW[0]], RAW[1]);
    assert RAW[1] + "3.0" == SAMPLE[1];
  }

  /** From the raw lines, the as-written reader loses the version; the corrected one finds it and the joined licence. */
  lemma RawLosesVersion()
    ensures ParseAsWritten(KeyValueStrings(RAW)).Ok?
    ensures GetVersion(ParseAsWritten(KeyValueStrings(RAW)).value) == UNKNOWN_VALUE
    ensures ParsePairs(KeyValueStrings(RAW)).Ok?
    ensures GetVersion(ParsePairs(KeyValueStrings(RAW)).value) == "2.1"
    ensures GetLicense(ParsePairs(KeyValueStrings(RAW)).value) == "GPL-3.0"
  {
    RawJoins();
    AsWrittenLosesVersion();
    ParsedKeepsVersion();
  }

  /** With every pair kept, both are found. */
  lemma ParsedKeepsVersion()
    ensures ParsePairs(SAMPLE).Ok?
    ensures GetVersion(ParsePairs(SAMPLE).value) == "2.1"
    ensures GetLicense(ParsePairs(SAMPLE).value) == "GPL-3.0"
  {
    SampleSplits();
    assert Init(SAMPLE) == [SAMPLE[0]] && Last(SAMPLE) == SAMPLE[1];
    assert Init([SAMPLE[0]]) == [] && Last([SAMPLE[0]]) == SAMPLE[0];
  }
}
