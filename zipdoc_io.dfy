/**
 * The report engine of the io.github.hoijui.rezipdoc generation: for every
 * entry of an archive, a header line, then the entry's content
 * pretty-printed (XML, when asked for), verbatim (text and XML), the
 * report of the archive nested in it (when recursive), or its size and
 * checksum; then an empty line. Each level of nesting has its own buffer
 * and checksum.
 */
module IoZipDoc {
  import opened Common
  import opened Buffers
  import opened Suffixes
  import IoUtils
  import opened ZipModel
  import opened RoughFormat

  /** The collaborators: the container codec, the JDK's MIME sniffer and the exact (DOM) XML printer. */
  datatype Env = Env(codec: Codec, jdk: IoUtils.Sniffer, exact: ExactPrinter)

  /** The formatter the report uses: indent width 2, indent "  ", exact mode. */
  const REPORT_FORMATTER := XmlFormatter(2, "  ", true)

  // -----------------------------------------------------------------------
  // What the report says

  predicate IsXml(env: Env, item: Item) {
    IoUtils.TypeMatches(env.jdk, item.entry.name, item.entry.size, item.data,
                        Some(IoUtils.XML_MAGIC), IoUtils.DEFAULT_SUFFIXES_XML, Some(IoUtils.MIME_XML))
  }

  predicate IsPlainText(item: Item) {
    SuffixMatches(item.entry.name, IoUtils.DEFAULT_SUFFIXES_TEXT)
  }

  predicate IsZip(env: Env, item: Item) {
    SuffixMatches(item.entry.name, IoUtils.DEFAULT_SUFFIXES_ARCHIVE)
    || IoUtils.GuessedType(env.jdk, item.data) == Some(IoUtils.MIME_ZIP)
  }

  /** The branch an entry takes, in the order the engine tests them. */
  datatype Branch = Prettified | Dumped | Nested | Summarised

  function BranchOf(env: Env, recursive: bool, formatXml: bool, item: Item): Branch {
    if formatXml && IsXml(env, item) then Prettified
    else if IsPlainText(item) || IsXml(env, item) then Dumped
    else if IsZip(env, item) && recursive then Nested
    else Summarised
  }

  function Header(name: string): string {
    "Sub-file:\t" + name + "\n"
  }

  /** The two lines for an entry of unknown type: decimal size and lower-case hex CRC-32. */
  function Summary(size: nat, crc: uint32): string {
    "File size:\t" + Decimal(size) + "\n" + "Checksum:\t" + Hex(crc) + "\n"
  }

  function NestedOpen(name: string): string {
    "Sub-ZIP start:\t" + name + "\n"
  }

  function NestedClose(name: string): string {
    "Sub-ZIP end:  \t" + name + "\n"
  }

  /**
   * The report of a sequence of entries at one level, or the error that
   * aborts it. `fuel` bounds the depth of nesting still allowed.
   */
  function Report(env: Env, recursive: bool, formatXml: bool, items: seq<Item>, fuel: nat): Result<string>
    decreases fuel, |items| + 2
  {
    if items == [] then Ok([])
    else Joined(Report(env, recursive, formatXml, Init(items), fuel), EntryReport(env, recursive, formatXml, Last(items), fuel))
  }

  /** The report of one entry: header, body, empty line. */
  function EntryReport(env: Env, recursive: bool, formatXml: bool, item: Item, fuel: nat): Result<string>
    decreases fuel, 2
  {
    match EntryBody(env, recursive, formatXml, item, fuel)
    case Err(e) => Err(e)
    case Ok(body) => Ok(Header(item.entry.name) + body + "\n")
  }

  function EntryBody(env: Env, recursive: bool, formatXml: bool, item: Item, fuel: nat): Result<string>
    decreases fuel, 1
  {
    match BranchOf(env, recursive, formatXml, item)
    case Prettified =>
      Ok(PrettifyOutput(REPORT_FORMATTER, env.exact, AsWritten, Io, Latin1(item.data), TRANSFER_BUFFER))
    case Dumped => Ok(Latin1(item.data))
    case Nested => NestedBody(env, recursive, formatXml, item, fuel)
    case Summarised => Ok(Summary(|item.data|, env.codec.crc32(item.data)))
  }

  /** The nested archive's report between its start and end lines. */
  function NestedBody(env: Env, recursive: bool, formatXml: bool, item: Item, fuel: nat): Result<string>
    decreases fuel, 0
  {
    if fuel == 0 then Err(NestingTooDeep)
    else
      match env.codec.read(item.data)
      case None => Err(MalformedArchive)
      case Some(nested) =>
        Bracketed(item.entry.name, Report(env, recursive, formatXml, nested, fuel - 1))
  }

  /** A nested archive's report between its start and end lines, or the error that aborted it. */
  function Bracketed(name: string, inner: Result<string>): Result<string> {
    match inner
    case Err(e) => Err(e)
    case Ok(text) => Ok(NestedOpen(name) + text + NestedClose(name))
  }

  // -----------------------------------------------------------------------
  // The engine

  class ZipDoc {
    const recursive: bool
    const formatXml: bool

    /** ZipDoc(recursive, formatXml). */
    constructor (recursive: bool, formatXml: bool)
      ensures this.recursive == recursive && this.formatXml == formatXml
    {
      this.recursive := recursive;
      this.formatXml := formatXml;
    }

    /** ZipDoc(): recursive, with XML pretty-printed. */
    constructor Default()
      ensures recursive && formatXml
    {
      recursive := true;
      formatXml := true;
    }

    /**
     * transform(zipIn, output): a buffer and checksum of its own, reset
     * for every entry; the entries' reports in order.
     */
    method Transform(env: Env, items: seq<Item>, fuel: nat) returns (r: Result<string>)
      ensures r == Report(env, recursive, formatXml, items, fuel)
      decreases fuel, 4
    {
      var raw := new BufferedOutputStream();
      var sum := new Crc32();
      var output: string := [];
      var i := 0;
      while i < |items|
        invariant 0 <= i <= |items|
        invariant raw.Valid() && fresh(raw) && fresh(raw.buf) && fresh(sum)
        invariant Report(env, recursive, formatXml, items[..i], fuel) == Ok(output)
      {
        var next := TransformTurn(env, items, i, raw, sum, fuel, output);
        if next.Err? {
          return next;
        }
        output := next.value;
        i := i + 1;
      }
      assert items[..i] == items;
      r := Ok(output);
    }

    /** One turn of the loop: the report so far grows by the next entry's, or the whole report fails. */
    method TransformTurn(env: Env, items: seq<Item>, i: nat, raw: BufferedOutputStream, sum: Crc32, fuel: nat, output: string)
      returns (r: Result<string>)
      requires i < |items| && raw.Valid()
      requires Report(env, recursive, formatXml, items[..i], fuel) == Ok(output)
      modifies raw, raw.buf, sum
      ensures raw.Valid() && (raw.buf == old(raw.buf) || fresh(raw.buf))
      ensures r.Err? ==> r == Report(env, recursive, formatXml, items, fuel)
      ensures r.Ok? ==> r == Report(env, recursive, formatXml, items[..i + 1], fuel)
      decreases fuel, 3
    {
      var entry := TransformEntry(env, items[i], raw, sum, fuel);
      if entry.Err? {
        ReportStopsAt(env, recursive, formatXml, items, i, fuel, entry.error);
        return Err(entry.error);
      }
      ReportSnoc(env, recursive, formatXml, items[..i], items[i], fuel);
      assert items[..i] + [items[i]] == items[..i + 1];
      r := Ok(output + entry.value);
    }

    /** The loop body for one entry, with the level's buffer and checksum. */
    method TransformEntry(env: Env, item: Item, raw: BufferedOutputStream, sum: Crc32, fuel: nat)
      returns (r: Result<string>)
      requires raw.Valid()
      modifies raw, raw.buf, sum
      ensures raw.Valid() && (raw.buf == old(raw.buf) || fresh(raw.buf))
      ensures r == EntryReport(env, recursive, formatXml, item, fuel)
      decreases fuel, 2
    {
      DrainFresh(item.data, raw, sum);
      var body := EntryContent(env, item, raw, sum, fuel);
      if body.Err? {
        return Err(body.error);
      }
      r := Ok(Header(item.entry.name) + body.value + "\n");
    }

    /** What follows the header: the branch taken on the buffered content. */
    method EntryContent(env: Env, item: Item, raw: BufferedOutputStream, sum: Crc32, fuel: nat)
      returns (r: Result<string>)
      requires raw.Valid() && raw.Contents() == item.data && sum.folded == item.data
      ensures r == EntryBody(env, recursive, formatXml, item, fuel)
      decreases fuel, 1
    {
      var branch := ChooseBranch(env, item, raw);
      match branch
      case Prettified =>
        var view := raw.CreateInputStream(false);
        r := PrettifyContent(env, view.Remaining());
      case Dumped =>
        r := Ok(Latin1(raw.Contents()));
      case Nested =>
        r := NestedContent(env, item, raw, fuel);
      case Summarised =>
        r := Ok(Summary(raw.Size(), sum.Value(env.codec.crc32)));
    }

    /** The type tests on the buffered content, in the engine's order: XML, text, archive. */
    method ChooseBranch(env: Env, item: Item, raw: BufferedOutputStream) returns (branch: Branch)
      requires raw.Valid() && raw.Contents() == item.data
      ensures branch == BranchOf(env, recursive, formatXml, item)
    {
      var name := item.entry.name;
      var size := item.entry.size;
      var isXml := IoUtils.IsXml(env.jdk, name, size, raw);
      if formatXml && isXml {
        return Prettified;
      }
      var isText := IoUtils.IsPlainText(env.jdk, name, size, raw);
      if isText || isXml {
        return Dumped;
      }
      var isZip := IoUtils.IsZip(env.jdk, name, size, raw);
      if isZip && recursive {
        return Nested;
      }
      return Summarised;
    }

    /** XmlFormatter.prettify with the report's formatter over the entry's bytes as characters. */
    static method PrettifyContent(env: Env, data: seq<byte>) returns (r: Result<string>)
      ensures r == Ok(PrettifyOutput(REPORT_FORMATTER, env.exact, AsWritten, Io, Latin1(data), TRANSFER_BUFFER))
    {
      var text := Prettify(REPORT_FORMATTER, env.exact, AsWritten, Io, Latin1(data), TRANSFER_BUFFER);
      r := Ok(text);
    }

    /** A nested archive, read from the buffered content and reported one level down. */
    method NestedContent(env: Env, item: Item, raw: BufferedOutputStream, fuel: nat)
      returns (r: Result<string>)
      requires raw.Valid() && raw.Contents() == item.data
      ensures r == NestedBody(env, recursive, formatXml, item, fuel)
      decreases fuel, 0
    {
      if fuel == 0 {
        return Err(NestingTooDeep);
      }
      var view := raw.CreateInputStream(false);
      var nested := env.codec.read(view.Remaining());
      if nested.None? {
        return Err(MalformedArchive);
      }
      var inner := Transform(env, nested.value, fuel - 1);
      NestedBodyFrom(env, recursive, formatXml, item, fuel, nested.value, inner);
      r := Bracketed(item.entry.name, inner);
    }
  }

  /** The nested body once the archive has been read and its report computed one level down. */
  lemma NestedBodyFrom(env: Env, recursive: bool, formatXml: bool, item: Item, fuel: nat, nested: seq<Item>, inner: Result<string>)
    requires fuel > 0 && env.codec.read(item.data) == Some(nested)
    requires inner == Report(env, recursive, formatXml, nested, fuel - 1)
    ensures NestedBody(env, recursive, formatXml, item, fuel) == Bracketed(item.entry.name, inner)
  {
  }

  // -----------------------------------------------------------------------
  // Properties of the report

  /** The report of two runs of entries is the report of the first followed by that of the second. */
  lemma ReportAppend(env: Env, recursive: bool, formatXml: bool, a: seq<Item>, b: seq<Item>, fuel: nat)
    requires Report(env, recursive, formatXml, a, fuel).Ok? && Report(env, recursive, formatXml, b, fuel).Ok?
    ensures Report(env, recursive, formatXml, a + b, fuel)
      == Ok(Report(env, recursive, formatXml, a, fuel).value + Report(env, recursive, formatXml, b, fuel).value)
  {
    ReportJoins(env, recursive, formatXml, fuel);
    JoinedAppend(ReportOf(env, recursive, formatXml, fuel), EntryOf(env, recursive, formatXml, fuel), a, b);
  }

  /** The report of a level as a function of its entries. */
  function ReportOf(env: Env, recursive: bool, formatXml: bool, fuel: nat): seq<Item> -> Result<string> {
    items => Report(env, recursive, formatXml, items, fuel)
  }

  /** The report of one entry as a function of the entry. */
  function EntryOf(env: Env, recursive: bool, formatXml: bool, fuel: nat): Item -> Result<string> {
    item => EntryReport(env, recursive, formatXml, item, fuel)
  }

  /** A level's report is built by appending each entry's report to the report of the entries before it. */
  lemma ReportJoins(env: Env, recursive: bool, formatXml: bool, fuel: nat)
    ensures BuiltByJoining(ReportOf(env, recursive, formatXml, fuel), EntryOf(env, recursive, formatXml, fuel))
  {
    var rep := ReportOf(env, recursive, formatXml, fuel);
    var one := EntryOf(env, recursive, formatXml, fuel);
    forall s: seq<Item>, x: Item
      ensures rep(s + [x]) == Joined(rep(s), one(x))
    {
      assert Init(s + [x]) == s && Last(s + [x]) == x;
    }
  }

  /** Every entry's report is its header, its body and an empty line, whatever the branch. */
  lemma EntryFramed(env: Env, recursive: bool, formatXml: bool, item: Item, fuel: nat)
    requires EntryReport(env, recursive, formatXml, item, fuel).Ok?
    ensures var t := EntryReport(env, recursive, formatXml, item, fuel).value;
      StartsWith(t, "Sub-file:\t" + item.entry.name + "\n") && EndsWith(t, "\n")
  {
  }

  /** An XML entry is pretty-printed when formatting is on and dumped verbatim when it is off, never recursed into. */
  lemma XmlNeverNested(env: Env, recursive: bool, formatXml: bool, item: Item, fuel: nat)
    requires IsXml(env, item)
    ensures EntryBody(env, recursive, formatXml, item, fuel)
      == if formatXml then Ok(PrettifyOutput(REPORT_FORMATTER, env.exact, AsWritten, Io, Latin1(item.data), TRANSFER_BUFFER))
         else Ok(Latin1(item.data))
  {
  }

  /** A text entry that is not XML is dumped verbatim whatever the settings. */
  lemma TextDumped(env: Env, recursive: bool, formatXml: bool, item: Item, fuel: nat)
    requires IsPlainText(item) && !IsXml(env, item)
    ensures EntryBody(env, recursive, formatXml, item, fuel) == Ok(Latin1(item.data))
  {
  }

  /** Without recursion an archive entry is summarised by its size and checksum alone. */
  lemma NonRecursiveSummarises(env: Env, formatXml: bool, item: Item, fuel: nat)
    requires !IsPlainText(item) && !IsXml(env, item)
    ensures EntryBody(env, false, formatXml, item, fuel) == Ok(Summary(|item.data|, env.codec.crc32(item.data)))
  {
  }

  /** With recursion, a nested archive's report is bracketed by its start line before and its end line after. */
  lemma NestedBracketed(env: Env, formatXml: bool, item: Item, nested: seq<Item>, fuel: nat)
    requires IsZip(env, item) && !IsPlainText(item) && !IsXml(env, item)
    requires fuel > 0 && env.codec.read(item.data) == Some(nested)
    requires Report(env, true, formatXml, nested, fuel - 1).Ok?
    ensures EntryBody(env, true, formatXml, item, fuel)
      == Ok(NestedOpen(item.entry.name) + Report(env, true, formatXml, nested, fuel - 1).value + NestedClose(item.entry.name))
  {
  }

  /** The summary lines tell different sizes apart and different checksums apart. */
  lemma SummaryDistinguishes(m: nat, n: nat, c: uint32, d: uint32)
    requires Summary(m, c) == Summary(n, d)
    ensures m == n && c == d
  {
    SummaryShape(m, c);
    SummaryShape(n, d);
    PrefixCancels("File size:\t", Decimal(m) + "\n" + ("Checksum:\t" + Hex(c) + "\n"),
                  Decimal(n) + "\n" + ("Checksum:\t" + Hex(d) + "\n"));
    BreakSplits(Decimal(m), "Checksum:\t" + Hex(c) + "\n", Decimal(n), "Checksum:\t" + Hex(d) + "\n");
    DecimalInjective(m, n);
    assert "Checksum:\t" + Hex(c) + "\n" == "Checksum:\t" + (Hex(c) + "\n" + []);
    assert "Checksum:\t" + Hex(d) + "\n" == "Checksum:\t" + (Hex(d) + "\n" + []);
    PrefixCancels("Checksum:\t", Hex(c) + "\n" + [], Hex(d) + "\n" + []);
    BreakSplits(Hex(c), [], Hex(d), []);
    HexInjective(c, d);
  }

  lemma SummaryShape(size: nat, crc: uint32)
    ensures Summary(size, crc) == "File size:\t" + (Decimal(size) + "\n" + ("Checksum:\t" + Hex(crc) + "\n"))
    ensures '\n' !in Decimal(size) && '\n' !in Hex(crc)
  {
    DigitsHaveNoBreak(size, 10);
    DigitsHaveNoBreak(crc, 16);
  }

  lemma PrefixCancels(p: string, s1: string, s2: string)
    requires p + s1 == p + s2
    ensures s1 == s2
  {
    assert s1 == (p + s1)[|p|..];
    assert s2 == (p + s2)[|p|..];
  }

  /** Text before the first line break is determined by the whole. */
  lemma BreakSplits(x: string, q: string, y: string, r: string)
    requires '\n' !in x && '\n' !in y && x + "\n" + q == y + "\n" + r
    ensures x == y && q == r
  {
    var s := x + "\n" + q;
    var t := y + "\n" + r;
    if |x| < |y| {
      FirstBreak(y, r, |x|);
      assert false;
    } else if |y| < |x| {
      FirstBreak(x, q, |y|);
      assert false;
    }
    assert s[..|x|] == x && t[..|y|] == y;
    assert s[|x| + 1..] == q && t[|y| + 1..] == r;
  }

  /** Before the break that follows it, text without breaks has none. */
  lemma FirstBreak(x: string, q: string, i: nat)
    requires '\n' !in x && i < |x|
    ensures (x + "\n" + q)[i] != '\n'
  {
    assert (x + "\n" + q)[i] == x[i];
  }

  lemma {:induction false} DigitsHaveNoBreak(n: nat, base: nat)
    requires 2 <= base <= 16
    ensures '\n' !in Digits(n, base)
    decreases n
  {
    if n >= base {
      DivStep(n, base);
      DigitsHaveNoBreak(n / base, base);
    }
  }

  // -----------------------------------------------------------------------
  // Contents reach the report

  /** A dumped top-level entry's content appears in the report of its archive. */
  lemma {:induction false} DumpedContentAppears(env: Env, recursive: bool, formatXml: bool, items: seq<Item>, k: nat, fuel: nat)
    requires k < |items| && BranchOf(env, recursive, formatXml, items[k]) == Dumped
    requires Report(env, recursive, formatXml, items, fuel).Ok?
    ensures Contains(Report(env, recursive, formatXml, items, fuel).value, Latin1(items[k].data))
  {
    var item := items[k];
    var text := Latin1(item.data);
    ContainsItself(text);
    ContainsWithin(Header(item.entry.name), text, "\n", text);
    EntryAppears(env, recursive, formatXml, items, k, fuel, text);
  }

  /** Whatever one entry's report contains, the report of its archive contains. */
  lemma EntryAppears(env: Env, recursive: bool, formatXml: bool, items: seq<Item>, k: nat, fuel: nat, t: string)
    requires k < |items| && Report(env, recursive, formatXml, items, fuel).Ok?
    requires EntryReport(env, recursive, formatXml, items[k], fuel).Ok?
    requires Contains(EntryReport(env, recursive, formatXml, items[k], fuel).value, t)
    ensures Contains(Report(env, recursive, formatXml, items, fuel).value, t)
  {
    ReportJoins(env, recursive, formatXml, fuel);
    JoinedContains(ReportOf(env, recursive, formatXml, fuel), EntryOf(env, recursive, formatXml, fuel), items, k, t);
  }

  /** Every entry of a report that succeeds has a report that succeeds. */
  lemma EntryOkWithin(env: Env, recursive: bool, formatXml: bool, items: seq<Item>, k: nat, fuel: nat)
    requires k < |items| && Report(env, recursive, formatXml, items, fuel).Ok?
    ensures EntryReport(env, recursive, formatXml, items[k], fuel).Ok?
  {
    ReportJoins(env, recursive, formatXml, fuel);
    JoinedEntryOk(ReportOf(env, recursive, formatXml, fuel), EntryOf(env, recursive, formatXml, fuel), items, k);
  }

  /** One more entry whose report succeeds extends a report that succeeds by that entry's report. */
  lemma ReportSnoc(env: Env, recursive: bool, formatXml: bool, a: seq<Item>, x: Item, fuel: nat)
    requires Report(env, recursive, formatXml, a, fuel).Ok? && EntryReport(env, recursive, formatXml, x, fuel).Ok?
    ensures Report(env, recursive, formatXml, a + [x], fuel)
      == Ok(Report(env, recursive, formatXml, a, fuel).value + EntryReport(env, recursive, formatXml, x, fuel).value)
  {
    assert Init(a + [x]) == a && Last(a + [x]) == x;
  }

  /** An entry whose report fails after the entries before it succeeded is where the whole report fails. */
  lemma ReportStopsAt(env: Env, recursive: bool, formatXml: bool, items: seq<Item>, i: nat, fuel: nat, e: Error)
    requires i < |items| && Report(env, recursive, formatXml, items[..i], fuel).Ok?
    requires EntryReport(env, recursive, formatXml, items[i], fuel) == Err(e)
    ensures Report(env, recursive, formatXml, items, fuel) == Err(e)
  {
    ReportJoins(env, recursive, formatXml, fuel);
    JoinedStopsAt(ReportOf(env, recursive, formatXml, fuel), EntryOf(env, recursive, formatXml, fuel), items, i, e);
  }

  /** An entry whose report fails makes the report of every run that starts with it fail the same way. */
  lemma ReportErrPropagates(env: Env, recursive: bool, formatXml: bool, a: seq<Item>, b: seq<Item>, fuel: nat)
    requires Report(env, recursive, formatXml, a, fuel).Err?
    ensures Report(env, recursive, formatXml, a + b, fuel) == Report(env, recursive, formatXml, a, fuel)
  {
    ReportJoins(env, recursive, formatXml, fuel);
    JoinedErrPropagates(ReportOf(env, recursive, formatXml, fuel), EntryOf(env, recursive, formatXml, fuel), a, b);
  }

  /**
   * With recursion, the content of a text entry inside an archive entry
   * appears in the report of the outer archive.
   */
  lemma NestedContentAppears(env: Env, formatXml: bool, items: seq<Item>, k: nat, nested: seq<Item>, j: nat, fuel: nat)
    requires k < |items| && fuel > 0
    requires BranchOf(env, true, formatXml, items[k]) == Nested && env.codec.read(items[k].data) == Some(nested)
    requires j < |nested| && BranchOf(env, true, formatXml, nested[j]) == Dumped
    requires Report(env, true, formatXml, items, fuel).Ok?
    ensures Contains(Report(env, true, formatXml, items, fuel).value, Latin1(nested[j].data))
  {
    EntryOkWithin(env, true, formatXml, items, k, fuel);
    NestedEntryContains(env, formatXml, items[k], nested, j, fuel);
    EntryAppears(env, true, formatXml, items, k, fuel, Latin1(nested[j].data));
  }

  /** The report of an archive entry, with recursion, contains the content of every text entry inside it. */
  lemma NestedEntryContains(env: Env, formatXml: bool, item: Item, nested: seq<Item>, j: nat, fuel: nat)
    requires fuel > 0
    requires BranchOf(env, true, formatXml, item) == Nested && env.codec.read(item.data) == Some(nested)
    requires j < |nested| && BranchOf(env, true, formatXml, nested[j]) == Dumped
    requires EntryReport(env, true, formatXml, item, fuel).Ok?
    ensures Contains(EntryReport(env, true, formatXml, item, fuel).value, Latin1(nested[j].data))
  {
    var text := Latin1(nested[j].data);
    var inner := Report(env, true, formatXml, nested, fuel - 1);
    assert EntryBody(env, true, formatXml, item, fuel) == NestedBody(env, true, formatXml, item, fuel)
      == Bracketed(item.entry.name, inner);
    assert inner.Ok?;
    DumpedContentAppears(env, true, formatXml, nested, j, fuel - 1);
    ContainsWithin(NestedOpen(item.entry.name), inner.value, NestedClose(item.entry.name), text);
    var body := NestedOpen(item.entry.name) + inner.value + NestedClose(item.entry.name);
    ContainsWithin(Header(item.entry.name), body, "\n", text);
  }

  // -----------------------------------------------------------------------
  // The depth bound

  /**
   * A report that did not run out of nesting depth comes out the same with
   * one more level allowed: its text, or an error other than the depth bound.
   */
  lemma {:induction false} ReportFuelStable(env: Env, recursive: bool, formatXml: bool, items: seq<Item>, fuel: nat)
    requires Report(env, recursive, formatXml, items, fuel) != Err(NestingTooDeep)
    ensures Report(env, recursive, formatXml, items, fuel + 1) == Report(env, recursive, formatXml, items, fuel)
    decreases fuel, |items| + 2
  {
    if items != [] {
      ReportFuelStable(env, recursive, formatXml, Init(items), fuel);
      if Report(env, recursive, formatXml, Init(items), fuel).Ok? {
        EntryFuelStable(env, recursive, formatXml, Last(items), fuel);
      }
    }
  }

  lemma {:induction false} EntryFuelStable(env: Env, recursive: bool, formatXml: bool, item: Item, fuel: nat)
    requires EntryReport(env, recursive, formatXml, item, fuel) != Err(NestingTooDeep)
    ensures EntryReport(env, recursive, formatXml, item, fuel + 1) == EntryReport(env, recursive, formatXml, item, fuel)
    decreases fuel, 1
  {
    if BranchOf(env, recursive, formatXml, item) == Nested {
      NestedFuelStable(env, recursive, formatXml, item, fuel);
    }
  }

  lemma {:induction false} NestedFuelStable(env: Env, recursive: bool, formatXml: bool, item: Item, fuel: nat)
    requires NestedBody(env, recursive, formatXml, item, fuel) != Err(NestingTooDeep)
    ensures NestedBody(env, recursive, formatXml, item, fuel + 1) == NestedBody(env, recursive, formatXml, item, fuel)
    decreases fuel, 0
  {
    var nested := env.codec.read(item.data);
    if nested.Some? {
      ReportFuelStable(env, recursive, formatXml, nested.value, fuel - 1);
    }
  }

  /** A report that succeeds with some depth bound succeeds, with the same text, with any larger one. */
  lemma {:induction false} ReportFuelMonotone(env: Env, recursive: bool, formatXml: bool, items: seq<Item>, fuel: nat, more: nat)
    requires Report(env, recursive, formatXml, items, fuel).Ok? && fuel <= more
    ensures Report(env, recursive, formatXml, items, more) == Report(env, recursive, formatXml, items, fuel)
    decreases more - fuel
  {
    if fuel < more {
      ReportFuelStable(env, recursive, formatXml, items, fuel);
      ReportFuelMonotone(env, recursive, formatXml, items, fuel + 1, more);
    }
  }
}
