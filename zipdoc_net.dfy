/**
 * The report engine of the net.rezipdoc generation: for every entry a
 * header line, then its content run through the XML serializer (XML), the
 * content verbatim (plain text) or its size and checksum; then an empty
 * line. There is no recursion into nested archives.
 *
 * The engine asks the older classifier whether an entry is XML before
 * anything else, and that classifier empties the buffer whenever it tests
 * the magic header. `Classifier` chooses between that classifier and one
 * that leaves the buffer alone.
 */
module NetZipDoc {
  import opened Common
  import opened Buffers
  import opened Suffixes
  import NetUtils
  import opened ZipModel
  import IoZipDoc

  /** The SAX identity transform with indentation: its output, or None where it throws. */
  type Serializer = string -> Option<string>

  /** The isXml the engine calls: the one that resets the buffer after a magic test, or one that does not. */
  datatype Classifier = Resetting | ReadOnly

  predicate IsXml(item: Item) {
    NetUtils.TypeMatches(item.entry.name, item.entry.size, item.data, Some(NetUtils.XML_MAGIC), NetUtils.SUFFIXES_XML)
  }

  predicate IsPlainText(item: Item) {
    SuffixMatches(item.entry.name, NetUtils.SUFFIXES_TEXT)
  }

  /** Whether isXml tests the magic header of this entry. */
  predicate XmlMagicTested(item: Item) {
    NetUtils.MagicTested(item.entry.name, item.entry.size, Some(NetUtils.XML_MAGIC), NetUtils.SUFFIXES_XML)
  }

  /** What the buffer holds once isXml has answered. */
  function Seen(classifier: Classifier, item: Item): seq<byte> {
    if classifier == Resetting && XmlMagicTested(item) then [] else item.data
  }

  /**
   * The text after the header: the serializer over the buffer (XML), the
   * buffer verbatim (text), or the buffer's size with the checksum of every
   * byte drained (anything else).
   */
  function EntryBody(ser: Serializer, crc32: seq<byte> -> uint32, classifier: Classifier, item: Item): Result<string> {
    var seen := Seen(classifier, item);
    if IsXml(item) then
      match ser(Latin1(seen))
      case None => Err(SerializerFailed)
      case Some(text) => Ok(text)
    else if IsPlainText(item) then Ok(Latin1(seen))
    else Ok(IoZipDoc.Summary(|seen|, crc32(item.data)))
  }

  function EntryReport(ser: Serializer, crc32: seq<byte> -> uint32, classifier: Classifier, item: Item): Result<string> {
    match EntryBody(ser, crc32, classifier, item)
    case Err(e) => Err(e)
    case Ok(body) => Ok(IoZipDoc.Header(item.entry.name) + body + "\n")
  }

  /** The report of a run of entries, or the first serializer failure, which aborts it. */
  function Report(ser: Serializer, crc32: seq<byte> -> uint32, classifier: Classifier, items: seq<Item>): Result<string> {
    if items == [] then Ok([])
    else Joined(Report(ser, crc32, classifier, Init(items)), EntryReport(ser, crc32, classifier, Last(items)))
  }

  // -----------------------------------------------------------------------
  // The engine

  /**
   * transform(zipIn, output): one buffer and checksum for the whole run,
   * both reset before each entry is drained into them.
   */
  method Transform(ser: Serializer, crc32: seq<byte> -> uint32, classifier: Classifier, items: seq<Item>)
    returns (r: Result<string>)
    ensures r == Report(ser, crc32, classifier, items)
  {
    var raw := new BufferedOutputStream();
    var sum := new Crc32();
    var output: string := [];
    var i := 0;
    while i < |items|
      invariant 0 <= i <= |items|
      invariant raw.Valid() && fresh(raw) && fresh(raw.buf) && fresh(sum)
      invariant Report(ser, crc32, classifier, items[..i]) == Ok(output)
    {
      var next := TransformTurn(ser, crc32, classifier, items, i, raw, sum, output);
      if next.Err? {
        return next;
      }
      output := next.value;
      i := i + 1;
    }
    assert items[..i] == items;
    r := Ok(output);
  }

  /** One turn of the loop: the report so far grows by the next entry's, or the whole report fails. */
  method TransformTurn(ser: Serializer, crc32: seq<byte> -> uint32, classifier: Classifier, items: seq<Item>, i: nat,
                       raw: BufferedOutputStream, sum: Crc32, output: string)
    returns (r: Result<string>)
    requires i < |items| && raw.Valid()
    requires Report(ser, crc32, classifier, items[..i]) == Ok(output)
    modifies raw, raw.buf, sum
    ensures raw.Valid() && (raw.buf == old(raw.buf) || fresh(raw.buf))
    ensures r.Err? ==> r == Report(ser, crc32, classifier, items)
    ensures r.Ok? ==> r == Report(ser, crc32, classifier, items[..i + 1])
  {
    DrainFresh(items[i].data, raw, sum);
    var body := EntryContent(ser, crc32, classifier, items[i], raw, sum);
    if body.Err? {
      ReportStopsAt(ser, crc32, classifier, items, i, body.error);
      return Err(body.error);
    }
    ReportGrows(ser, crc32, classifier, items, i, output, IoZipDoc.Header(items[i].entry.name) + body.value + "\n");
    r := Ok(output + (IoZipDoc.Header(items[i].entry.name) + body.value + "\n"));
  }

  /** The branches for one drained entry; isXml may empty the buffer the later branches read. */
  method EntryContent(ser: Serializer, crc32: seq<byte> -> uint32, classifier: Classifier, item: Item,
                      raw: BufferedOutputStream, sum: Crc32)
    returns (r: Result<string>)
    requires raw.Valid() && raw.Contents() == item.data && sum.folded == item.data
    modifies raw
    ensures raw.Valid() && raw.buf == old(raw.buf)
    ensures r == EntryBody(ser, crc32, classifier, item)
  {
    var isXml := AskIsXml(classifier, item, raw);
    if isXml {
      var view := raw.CreateInputStream(false);
      var text := ser(Latin1(view.Remaining()));
      if text.None? {
        return Err(SerializerFailed);
      }
      return Ok(text.value);
    }
    var isText := NetUtils.IsPlainText(item.entry.name, item.entry.size, raw);
    if isText {
      return Ok(Latin1(raw.Contents()));
    }
    return Ok(IoZipDoc.Summary(raw.Size(), sum.Value(crc32)));
  }

  /** The engine's first question, put to the chosen classifier; the buffer then holds what it saw. */
  method AskIsXml(classifier: Classifier, item: Item, raw: BufferedOutputStream) returns (isXml: bool)
    requires raw.Valid() && raw.Contents() == item.data
    modifies raw
    ensures raw.Valid() && raw.buf == old(raw.buf)
    ensures isXml == IsXml(item) && raw.Contents() == Seen(classifier, item)
  {
    if classifier == Resetting {
      isXml := NetUtils.IsXml(item.entry.name, item.entry.size, raw);
    } else {
      isXml := NetUtils.IsXmlKeepingContent(item.entry.name, item.entry.size, raw);
    }
  }

  // -----------------------------------------------------------------------
  // Properties of the report

  /** The report of the first i + 1 entries, from that of the first i. */
  lemma ReportGrows(ser: Serializer, crc32: seq<byte> -> uint32, classifier: Classifier, items: seq<Item>, i: nat,
                    output: string, text: string)
    requires i < |items| && Report(ser, crc32, classifier, items[..i]) == Ok(output)
    requires EntryReport(ser, crc32, classifier, items[i]) == Ok(text)
    ensures Report(ser, crc32, classifier, items[..i + 1]) == Ok(output + text)
  {
    assert Init(items[..i + 1]) == items[..i] && Last(items[..i + 1]) == items[i];
  }

  /** The first failing entry's error is the whole report's. */
  lemma ReportStopsAt(ser: Serializer, crc32: seq<byte> -> uint32, classifier: Classifier, items: seq<Item>, i: nat,
                      e: Error)
    requires i < |items| && Report(ser, crc32, classifier, items[..i]).Ok?
    requires EntryBody(ser, crc32, classifier, items[i]) == Err(e)
    ensures Report(ser, crc32, classifier, items) == Err(e)
  {
    assert EntryReport(ser, crc32, classifier, items[i]) == Err(e);
    ReportJoins(ser, crc32, classifier);
    JoinedStopsAt(ReportOf(ser, crc32, classifier), EntryOf(ser, crc32, classifier), items, i, e);
  }

  /** A failing entry makes every run that starts with it fail the same way. */
  lemma ReportErrPropagates(ser: Serializer, crc32: seq<byte> -> uint32, classifier: Classifier,
                            a: seq<Item>, b: seq<Item>)
    requires Report(ser, crc32, classifier, a).Err?
    ensures Report(ser, crc32, classifier, a + b) == Report(ser, crc32, classifier, a)
  {
    ReportJoins(ser, crc32, classifier);
    JoinedErrPropagates(ReportOf(ser, crc32, classifier), EntryOf(ser, crc32, classifier), a, b);
  }

  /** The report of a run as a function of its entries. */
  function ReportOf(ser: Serializer, crc32: seq<byte> -> uint32, classifier: Classifier): seq<Item> -> Result<string> {
    items => Report(ser, crc32, classifier, items)
  }

  /** The report of one entry as a function of the entry. */
  function EntryOf(ser: Serializer, crc32: seq<byte> -> uint32, classifier: Classifier): Item -> Result<string> {
    item => EntryReport(ser, crc32, classifier, item)
  }

  /** The report is built by appending each entry's report to the report of the entries before it. */
  lemma ReportJoins(ser: Serializer, crc32: seq<byte> -> uint32, classifier: Classifier)
    ensures BuiltByJoining(ReportOf(ser, crc32, classifier), EntryOf(ser, crc32, classifier))
  {
    var rep := ReportOf(ser, crc32, classifier);
    var one := EntryOf(ser, crc32, classifier);
    forall s: seq<Item>, x: Item
      ensures rep(s + [x]) == Joined(rep(s), one(x))
    {
      assert Init(s + [x]) == s && Last(s + [x]) == x;
    }
  }

  /** The report succeeds exactly when every entry's report does; its only failure is the serializer's. */
  lemma {:induction false} ReportOkIff(ser: Serializer, crc32: seq<byte> -> uint32, classifier: Classifier, items: seq<Item>)
    ensures Report(ser, crc32, classifier, items).Ok?
      <==> forall k :: 0 <= k < |items| ==> EntryReport(ser, crc32, classifier, items[k]).Ok?
    ensures Report(ser, crc32, classifier, items).Err? ==> Report(ser, crc32, classifier, items) == Err(SerializerFailed)
  {
    if items != [] {
      ReportOkIff(ser, crc32, classifier, Init(items));
      forall k | 0 <= k < |items| - 1
        ensures Init(items)[k] == items[k]
      {
      }
    }
  }

  /** Every entry's report is its header, its body and an empty line. */
  lemma EntryFramed(ser: Serializer, crc32: seq<byte> -> uint32, classifier: Classifier, item: Item)
    requires EntryReport(ser, crc32, classifier, item).Ok?
    ensures var t := EntryReport(ser, crc32, classifier, item).value;
      StartsWith(t, "Sub-file:\t" + item.entry.name + "\n") && EndsWith(t, "\n")
  {
  }

  /**
   * As written: for an entry whose name does not end in xml or svg and
   * whose declared size admits the header, isXml empties the buffer. A text
   * entry is then dumped as nothing, and any other entry that is not XML is
   * reported with size 0, while the checksum still covers all its bytes.
   */
  lemma ResettingLosesContent(ser: Serializer, crc32: seq<byte> -> uint32, item: Item)
    requires !SuffixMatches(item.entry.name, NetUtils.SUFFIXES_XML) && item.entry.size >= |NetUtils.XML_MAGIC|
    ensures IsXml(item) ==> EntryBody(ser, crc32, Resetting, item) == (if ser([]).Some? then Ok(ser([]).value) else Err(SerializerFailed))
    ensures !IsXml(item) && IsPlainText(item) ==> EntryBody(ser, crc32, Resetting, item) == Ok([])
    ensures !IsXml(item) && !IsPlainText(item) ==> EntryBody(ser, crc32, Resetting, item) == Ok(IoZipDoc.Summary(0, crc32(item.data)))
  {
    assert Latin1([]) == [];
  }

  /** "notes.txt", declared and actual size 6, holding "hello\n". */
  const NOTES := Item(ZipEntry("notes.txt", 6, -1, DEFLATED, -1, ZERO_TIMES), [104, 101, 108, 108, 111, 10])

  /** The as-written engine reports "notes.txt" as empty; the buffer-preserving one reports its text. */
  lemma NotesDumpedEmpty(ser: Serializer, crc32: seq<byte> -> uint32)
    ensures EntryBody(ser, crc32, Resetting, NOTES) == Ok([])
    ensures EntryBody(ser, crc32, ReadOnly, NOTES) == Ok("hello\n")
  {
    NotesIsText();
    NotesText();
    ResettingLosesContent(ser, crc32, NOTES);
  }

  lemma NotesIsText()
    ensures IsPlainText(NOTES) && !IsXml(NOTES) && XmlMagicTested(NOTES)
  {
    NotesSuffix();
    assert "txt" in NetUtils.SUFFIXES_TEXT && "txt" !in NetUtils.SUFFIXES_XML;
    assert NOTES.data[0] != NetUtils.XML_MAGIC[0];
  }

  lemma NotesSuffix()
    ensures SuffixOf(NOTES.entry.name) == Some("txt")
  {
    SuffixOfJoin("notes", "txt");
    assert NOTES.entry.name == "notes" + "." + "txt";
  }

  lemma NotesText()
    ensures Latin1(NOTES.data) == "hello\n"
  {
    var t := Latin1(NOTES.data);
    assert t[0] == 'h' && t[1] == 'e' && t[2] == 'l' && t[3] == 'l' && t[4] == 'o' && t[5] == '\n';
  }

  /**
   * With the buffer preserved: XML goes to the serializer, a text entry
   * is dumped whole, and the summary gives the entry's real size.
   */
  lemma ReadOnlyKeepsContent(ser: Serializer, crc32: seq<byte> -> uint32, item: Item)
    ensures IsXml(item) ==>
      EntryBody(ser, crc32, ReadOnly, item)
        == (if ser(Latin1(item.data)).Some? then Ok(ser(Latin1(item.data)).value) else Err(SerializerFailed))
    ensures !IsXml(item) && IsPlainText(item) ==> EntryBody(ser, crc32, ReadOnly, item) == Ok(Latin1(item.data))
    ensures !IsXml(item) && !IsPlainText(item)
      ==> EntryBody(ser, crc32, ReadOnly, item) == Ok(IoZipDoc.Summary(|item.data|, crc32(item.data)))
  {
  }

  /**
   * The two classifiers agree wherever the magic header is not tested: a
   * name ending in xml or svg, or a declared size below 6 (including an
   * unknown size, -1).
   */
  lemma ClassifiersAgree(ser: Serializer, crc32: seq<byte> -> uint32, item: Item)
    requires SuffixMatches(item.entry.name, NetUtils.SUFFIXES_XML) || item.entry.size < |NetUtils.XML_MAGIC|
    ensures EntryBody(ser, crc32, Resetting, item) == EntryBody(ser, crc32, ReadOnly, item)
  {
  }
}
