/**
 * File-type classification of archive entries, in the two generations of
 * the code base: by file-name suffix, by a magic header at the start of
 * the content and (newer generation only) by MIME-type sniffing; plus the
 * newer generation's suffix-file line filter and its stream copy helper.
 */
module Suffixes {
  import opened Common

  /**
   * The suffix a classifier compares: the lower-cased name after its last
   * '.', or nothing when the name has no '.'.
   */
  function SuffixOf(name: string): (r: Option<string>)
    ensures r.None? <==> '.' !in name
    ensures r.Some? ==> '.' !in r.value && EndsWith(ToLower(name), "." + r.value)
  {
    var lower := ToLower(name);
    if '.' in lower then
      var dot := LastIndexOf(lower, '.');
      var suffix := lower[dot + 1..];
      assert lower[|lower| - |"." + suffix|..] == "." + suffix;
      Some(suffix)
    else
      None
  }

  /** Whether the name's suffix is one of the given suffixes. */
  predicate SuffixMatches(name: string, suffixes: set<string>) {
    SuffixOf(name).Some? && SuffixOf(name).value in suffixes
  }

  /** Case does not matter: "REPORT.XML" and "report.xml" classify alike. */
  lemma SuffixIgnoresCase(name: string)
    ensures SuffixOf(ToLower(name)) == SuffixOf(name)
  {
    var lower := ToLower(name);
    assert ToLower(lower) == lower;
  }

  /** The suffix is exactly the text after the final dot: a name built as stem + "." + s has suffix s. */
  lemma {:induction false} SuffixOfJoin(stem: string, s: string)
    requires '.' !in s
    requires forall i :: 0 <= i < |s| ==> LowerChar(s[i]) == s[i]
    ensures SuffixOf(stem + "." + s) == Some(s)
  {
    var name := stem + "." + s;
    var lower := ToLower(name);
    assert lower[|stem|] == '.';
    var dot := LastIndexOf(lower, '.');
    assert dot >= |stem|;
    assert lower[dot + 1..] == s;
  }
}

/** The older generation's classifier, which clears the content buffer after a magic-header test. */
module NetUtils {
  import opened Common
  import opened Suffixes
  import opened Buffers

  const SUFFIXES_XML: set<string> := {"xml", "svg"}
  const SUFFIXES_TEXT: set<string> := SUFFIXES_XML + {"txt", "md", "markdown"}
  const SUFFIXES_ZIP: set<string> := {"zip", "jar"}

  /** The magic header of XML content, "<?xml ". */
  const XML_MAGIC: seq<byte> := [60, 63, 120, 109, 108, 32]

  /** Whether isType gets as far as the magic-header test (and hence resets the buffer). */
  predicate MagicTested(name: string, contentBytes: int, magic: Option<seq<byte>>, suffixes: set<string>) {
    !SuffixMatches(name, suffixes) && magic.Some? && contentBytes >= |magic.value|
  }

  /** isType's answer: a known suffix, or a magic header the declared size admits and the content starts with. */
  predicate TypeMatches(name: string, contentBytes: int, content: seq<byte>, magic: Option<seq<byte>>, suffixes: set<string>) {
    SuffixMatches(name, suffixes)
    || (magic.Some? && contentBytes >= |magic.value| && StartsWith(content, magic.value))
  }

  /**
   * isType: suffix test first; if it fails and there is a magic header the
   * declared size admits, a prefix test on the buffer followed, whatever
   * its outcome, by a reset of the buffer.
   */
  method IsType(name: string, contentBytes: int, content: BufferedOutputStream, magic: Option<seq<byte>>, suffixes: set<string>)
    returns (matches: bool)
    requires content.Valid()
    modifies content
    ensures content.Valid() && content.buf == old(content.buf)
    ensures matches == TypeMatches(name, contentBytes, old(content.Contents()), magic, suffixes)
    ensures content.Contents() == if MagicTested(name, contentBytes, magic, suffixes) then [] else old(content.Contents())
  {
    matches := false;
    var suffix := SuffixOf(name);
    if suffix.Some? {
      matches := suffix.value in suffixes;
    }
    if !matches && magic.Some? && contentBytes >= |magic.value| {
      var found := content.StartsWith(magic.value);
      if found {
        matches := true;
      }
      content.Reset();
    }
  }

  method IsXml(name: string, contentBytes: int, content: BufferedOutputStream) returns (matches: bool)
    requires content.Valid()
    modifies content
    ensures content.Valid() && content.buf == old(content.buf)
    ensures matches == TypeMatches(name, contentBytes, old(content.Contents()), Some(XML_MAGIC), SUFFIXES_XML)
    ensures content.Contents() == if MagicTested(name, contentBytes, Some(XML_MAGIC), SUFFIXES_XML) then [] else old(content.Contents())
  {
    matches := IsType(name, contentBytes, content, Some(XML_MAGIC), SUFFIXES_XML);
  }

  method IsPlainText(name: string, contentBytes: int, content: BufferedOutputStream) returns (matches: bool)
    requires content.Valid()
    modifies content
    ensures content.Valid() && content.buf == old(content.buf) && content.Contents() == old(content.Contents())
    ensures matches == SuffixMatches(name, SUFFIXES_TEXT)
  {
    matches := IsType(name, contentBytes, content, None, SUFFIXES_TEXT);
  }

  method IsZip(name: string, contentBytes: int, content: BufferedOutputStream) returns (matches: bool)
    requires content.Valid()
    modifies content
    ensures content.Valid() && content.buf == old(content.buf) && content.Contents() == old(content.Contents())
    ensures matches == SuffixMatches(name, SUFFIXES_ZIP)
  {
    matches := IsType(name, contentBytes, content, None, SUFFIXES_ZIP);
  }

  /**
   * isType as its callers evidently expect it: the same answer, with the
   * buffer left as it was.
   */
  method IsTypeKeepingContent(name: string, contentBytes: int, content: BufferedOutputStream,
                              magic: Option<seq<byte>>, suffixes: set<string>)
    returns (matches: bool)
    requires content.Valid()
    ensures matches == TypeMatches(name, contentBytes, content.Contents(), magic, suffixes)
  {
    matches := false;
    var suffix := SuffixOf(name);
    if suffix.Some? {
      matches := suffix.value in suffixes;
    }
    if !matches && magic.Some? && contentBytes >= |magic.value| {
      matches := content.StartsWith(magic.value);
    }
  }

  /** isXml over the buffer-preserving isType. */
  method IsXmlKeepingContent(name: string, contentBytes: int, content: BufferedOutputStream) returns (matches: bool)
    requires content.Valid()
    ensures matches == TypeMatches(name, contentBytes, content.Contents(), Some(XML_MAGIC), SUFFIXES_XML)
  {
    matches := IsTypeKeepingContent(name, contentBytes, content, Some(XML_MAGIC), SUFFIXES_XML);
  }

  /** Every suffix that marks XML also marks plain text, and no archive suffix marks either. */
  lemma SuffixSetsNest(name: string)
    ensures SuffixMatches(name, SUFFIXES_XML) ==> SuffixMatches(name, SUFFIXES_TEXT)
    ensures SuffixMatches(name, SUFFIXES_ZIP) ==> !SuffixMatches(name, SUFFIXES_TEXT)
  {
  }

  /** Without a magic header (plain text, archives) the classifier never touches the buffer. */
  lemma NoMagicNoReset(name: string, contentBytes: int, suffixes: set<string>)
    ensures !MagicTested(name, contentBytes, None, suffixes)
  {
  }

  /** A declared size shorter than the header rules the header out, whatever the content. */
  lemma ShortSizeNeedsSuffix(name: string, contentBytes: int, content: seq<byte>, magic: seq<byte>, suffixes: set<string>)
    requires contentBytes < |magic|
    ensures TypeMatches(name, contentBytes, content, Some(magic), suffixes) <==> SuffixMatches(name, suffixes)
  {
  }
}

/** The newer generation's classifier (read-only on the buffer, with MIME sniffing), suffix files and stream copy. */
module IoUtils {
  import opened Common
  import opened Suffixes
  import opened Buffers

  const DEFAULT_SUFFIXES_XML: set<string> := {"xml", "svg"}
  const DEFAULT_SUFFIXES_TEXT: set<string> := {"txt", "md", "markdown", "properties", "java", "kt",
    "c", "cxx", "cpp", "h", "hxx", "hpp", "js", "html"}
  const DEFAULT_SUFFIXES_ARCHIVE: set<string> := {"zip", "jar", "docx", "xlsx", "pptx", "odt", "ods", "odp", "fcstd"}

  const XML_MAGIC: seq<byte> := [60, 63, 120, 109, 108, 32]
  const MIME_XML: string := "application/xml"
  const MIME_ZIP: string := "application/zip"

  /** The JDK's content sniffer (URLConnection.guessContentTypeFromStream), as a function of the bytes it can see. */
  type Sniffer = seq<byte> -> Option<string>

  /** InputStream.read() at a position: the byte, or -1 past the end. */
  function ByteAt(content: seq<byte>, i: nat): int {
    if i < |content| then content[i] as int else -1
  }

  /** The local-header, empty-archive and spanned-archive signatures: "PK" followed by 3 4, 5 6 or 7 8. */
  predicate ZipSignature(content: seq<byte>) {
    ByteAt(content, 0) == 0x50 && ByteAt(content, 1) == 0x4B
    && ((ByteAt(content, 2) == 0x03 && ByteAt(content, 3) == 0x04)
      || (ByteAt(content, 2) == 0x05 && ByteAt(content, 3) == 0x06)
      || (ByteAt(content, 2) == 0x07 && ByteAt(content, 3) == 0x08))
  }

  /** guessContentTypeFromStream: the JDK's guess, else "application/zip" for a ZIP signature, else nothing. */
  function GuessedType(jdk: Sniffer, content: seq<byte>): Option<string> {
    var guess := jdk(content);
    if guess.None? && ZipSignature(content) then Some(MIME_ZIP) else guess
  }

  /** A ZIP signature needs four bytes; shorter content only gets the JDK's guess. */
  lemma ZipSignatureNeedsFourBytes(content: seq<byte>)
    ensures ZipSignature(content) ==> |content| >= 4 && content[..2] == [0x50, 0x4B]
  {
  }

  /** The fallback never overrides the JDK, and recognises exactly the three signatures. */
  lemma GuessedTypeFallback(jdk: Sniffer, content: seq<byte>)
    ensures jdk(content).Some? ==> GuessedType(jdk, content) == jdk(content)
    ensures jdk(content).None? ==> (GuessedType(jdk, content) == Some(MIME_ZIP) <==> ZipSignature(content))
    ensures jdk(content).None? && !ZipSignature(content) ==> GuessedType(jdk, content).None?
  {
  }

  /**
   * guessContentTypeFromStream on a markable stream: asks the JDK, then
   * reads four bytes after a mark and returns to it.
   */
  method GuessContentType(jdk: Sniffer, stream: ByteArrayInputStream) returns (mime: Option<string>)
    requires stream.Valid()
    modifies stream
    ensures stream.Valid() && stream.pos == old(stream.pos)
    ensures mime == GuessedType(jdk, old(stream.Remaining()))
  {
    ghost var seen := stream.Remaining();
    mime := jdk(stream.Remaining());
    if mime.None? {
      stream.Mark();
      var c1 := stream.Read();
      var c2 := stream.Read();
      var c3 := stream.Read();
      var c4 := stream.Read();
      stream.ResetToMark();
      assert c1 == ByteAt(seen, 0) && c2 == ByteAt(seen, 1) && c3 == ByteAt(seen, 2) && c4 == ByteAt(seen, 3);
      if c1 == 0x50 && c2 == 0x4B && ((c3 == 0x03 && c4 == 0x04) || (c3 == 0x05 && c4 == 0x06) || (c3 == 0x07 && c4 == 0x08)) {
        mime := Some(MIME_ZIP);
      }
    }
  }

  /** isType's answer: a known suffix, else a magic header, else a sniffed MIME type equal to the wanted one. */
  predicate TypeMatches(jdk: Sniffer, name: string, contentBytes: int, content: seq<byte>,
                        magic: Option<seq<byte>>, suffixes: set<string>, mimeType: Option<string>) {
    SuffixMatches(name, suffixes)
    || (magic.Some? && contentBytes >= |magic.value| && StartsWith(content, magic.value))
    || (mimeType.Some? && mimeType.value != [] && GuessedType(jdk, content) == mimeType)
  }

  /** isType: the three tests in order, each reached only when the earlier ones failed; the buffer is left alone. */
  method IsType(jdk: Sniffer, name: string, contentBytes: int, content: BufferedOutputStream,
                magic: Option<seq<byte>>, suffixes: set<string>, mimeType: Option<string>)
    returns (matches: bool)
    requires content.Valid()
    ensures matches == TypeMatches(jdk, name, contentBytes, content.Contents(), magic, suffixes, mimeType)
  {
    matches := false;
    var suffix := SuffixOf(name);
    if suffix.Some? {
      matches := suffix.value in suffixes;
    }
    if !matches && magic.Some? && contentBytes >= |magic.value| {
      var found := content.StartsWith(magic.value);
      if found {
        matches := true;
      }
    }
    if !matches && mimeType.Some? && mimeType.value != [] {
      var view := content.CreateInputStream(false);
      var found := GuessContentType(jdk, view);
      if found == mimeType {
        matches := true;
      }
    }
  }

  method IsXml(jdk: Sniffer, name: string, contentBytes: int, content: BufferedOutputStream) returns (matches: bool)
    requires content.Valid()
    ensures matches == TypeMatches(jdk, name, contentBytes, content.Contents(), Some(XML_MAGIC), DEFAULT_SUFFIXES_XML, Some(MIME_XML))
  {
    matches := IsType(jdk, name, contentBytes, content, Some(XML_MAGIC), DEFAULT_SUFFIXES_XML, Some(MIME_XML));
  }

  method IsPlainText(jdk: Sniffer, name: string, contentBytes: int, content: BufferedOutputStream) returns (matches: bool)
    requires content.Valid()
    ensures matches == SuffixMatches(name, DEFAULT_SUFFIXES_TEXT)
  {
    matches := IsType(jdk, name, contentBytes, content, None, DEFAULT_SUFFIXES_TEXT, None);
  }

  method IsZip(jdk: Sniffer, name: string, contentBytes: int, content: BufferedOutputStream) returns (matches: bool)
    requires content.Valid()
    ensures matches == (SuffixMatches(name, DEFAULT_SUFFIXES_ARCHIVE) || GuessedType(jdk, content.Contents()) == Some(MIME_ZIP))
  {
    matches := IsType(jdk, name, contentBytes, content, None, DEFAULT_SUFFIXES_ARCHIVE, Some(MIME_ZIP));
  }

  /** Any content carrying a ZIP signature that the JDK does not claim is taken for an archive, whatever its name. */
  lemma SignatureMakesArchive(jdk: Sniffer, name: string, content: seq<byte>)
    requires jdk(content).None? && ZipSignature(content)
    ensures TypeMatches(jdk, name, 0, content, None, DEFAULT_SUFFIXES_ARCHIVE, Some(MIME_ZIP))
  {
  }

  /** XML content announced by its header is XML even under an unknown name, provided the size admits the header. */
  lemma HeaderMakesXml(jdk: Sniffer, name: string, contentBytes: int, content: seq<byte>)
    requires contentBytes >= 6 && StartsWith(content, XML_MAGIC)
    ensures TypeMatches(jdk, name, contentBytes, content, Some(XML_MAGIC), DEFAULT_SUFFIXES_XML, Some(MIME_XML))
  {
  }

  // ---------------------------------------------------------------------
  // transferTo

  /**
   * transferTo: reads up to `bufferSize` bytes at a time and writes each
   * chunk, until a read reports the end. A zero-sized buffer would make
   * every read of non-empty input return 0 forever, so it is excluded.
   */
  method TransferTo(source: ByteArrayInputStream, target: BufferedOutputStream, bufferSize: nat)
    requires bufferSize > 0
    requires source.Valid() && target.Valid() && source.buf != target.buf
    modifies source, target, target.buf
    ensures source.Valid() && target.Valid() && source.Remaining() == []
    ensures target.Contents() == old(target.Contents()) + old(source.Remaining())
  {
    ghost var input := source.Remaining();
    ghost var before := target.Contents();
    ghost var copied: seq<byte> := [];
    var n, chunk := source.ReadChunk(bufferSize);
    while n >= 0
      invariant source.Valid() && target.Valid() && source.buf != target.buf
      invariant target.buf == old(target.buf) || fresh(target.buf)
      invariant n >= 0 ==> |chunk| == n > 0
      invariant target.Contents() == before + copied
      invariant n >= 0 ==> input == copied + chunk + source.Remaining()
      invariant n < 0 ==> input == copied && source.Remaining() == []
      decreases source.count - source.pos + (if n >= 0 then 1 else 0)
    {
      ghost var rest := source.Remaining();
      ghost var written := chunk;
      n, chunk := CopyTurn(source, target, chunk, bufferSize);
      assert input == (copied + written) + rest;
      copied := copied + written;
    }
  }

  /** One turn of transferTo's loop: the chunk written, the next one read. */
  method CopyTurn(source: ByteArrayInputStream, target: BufferedOutputStream, chunk: seq<byte>, bufferSize: nat)
    returns (n: int, next: seq<byte>)
    requires bufferSize > 0
    requires source.Valid() && target.Valid() && source.buf != target.buf
    modifies source`pos, target, target.buf
    ensures source.Valid() && target.Valid() && source.buf != target.buf
    ensures target.buf == old(target.buf) || fresh(target.buf)
    ensures target.Contents() == old(target.Contents()) + chunk
    ensures n >= 0 ==> |next| == n > 0 && source.pos == old(source.pos) + n
    ensures n < 0 ==> source.pos == old(source.pos) && source.Remaining() == [] && next == []
    ensures old(source.Remaining()) == next + source.Remaining()
  {
    WriteChunk(source, target, chunk);
    n, next := source.ReadChunk(bufferSize);
  }

  /** target.write(buffer, 0, n): the target grows by the chunk; the source, on another array, is untouched. */
  method WriteChunk(source: ByteArrayInputStream, target: BufferedOutputStream, chunk: seq<byte>)
    requires source.Valid() && target.Valid() && source.buf != target.buf
    modifies target, target.buf
    ensures target.Valid() && source.buf != target.buf && (target.buf == old(target.buf) || fresh(target.buf))
    ensures target.Contents() == old(target.Contents()) + chunk
    ensures source.Remaining() == old(source.Remaining())
  {
    target.Write(chunk);
  }
}

/** The newer generation's line reader for suffix files (readLines), without the file access. */
module SuffixFiles {
  import opened Common

  /** The filter of readLines: a trimmed line is kept unless it is empty or a '#' comment. */
  predicate Kept(line: string, filter: bool) {
    !filter || (line != [] && line[0] != '#')
  }

  /** readLines over the lines of a file: trims each line and, when filtering, drops blanks and comments. */
  function ReadLines(lines: seq<string>, filter: bool): (r: seq<string>)
    ensures |r| <= |lines|
    ensures forall k :: 0 <= k < |r| ==> Kept(r[k], filter)
    ensures !filter ==> |r| == |lines|
  {
    if lines == [] then []
    else
      var rest := ReadLines(lines[1..], filter);
      var t := Trim(lines[0]);
      if Kept(t, filter) then [t] + rest else rest
  }

  /** Without filtering, readLines is the trimmed lines, one for one. */
  lemma {:induction false} ReadLinesUnfiltered(lines: seq<string>)
    ensures forall k :: 0 <= k < |lines| ==> ReadLines(lines, false)[k] == Trim(lines[k])
  {
    if lines != [] {
      ReadLinesUnfiltered(lines[1..]);
      forall k | 0 < k < |lines|
        ensures ReadLines(lines, false)[k] == Trim(lines[k])
      {
        assert lines[1..][k - 1] == lines[k];
      }
    }
  }

  /** Line k of the file reads as t and passes the filter. */
  predicate Yields(lines: seq<string>, k: int, filter: bool, t: string) {
    0 <= k < |lines| && Trim(lines[k]) == t && Kept(t, filter)
  }

  /** A line survives readLines exactly when its trimmed form passes the filter. */
  lemma {:induction false} ReadLinesMembership(lines: seq<string>, filter: bool, t: string)
    ensures t in ReadLines(lines, filter) <==> exists k :: Yields(lines, k, filter, t)
  {
    if lines != [] {
      var tail := lines[1..];
      ReadLinesMembership(tail, filter, t);
      var head := Trim(lines[0]);
      var rest := ReadLines(tail, filter);
      assert ReadLines(lines, filter) == if Kept(head, filter) then [head] + rest else rest;
      if t in ReadLines(lines, filter) {
        if t in rest {
          var k :| Yields(tail, k, filter, t);
          assert tail[k] == lines[k + 1];
          assert Yields(lines, k + 1, filter, t);
        } else {
          assert Yields(lines, 0, filter, t);
        }
      }
      if exists k :: Yields(lines, k, filter, t) {
        var k :| Yields(lines, k, filter, t);
        if k > 0 {
          assert tail[k - 1] == lines[k];
          assert Yields(tail, k - 1, filter, t);
        }
      }
    }
  }

  /** readLines one line at a time. */
  lemma ReadLinesCons(line: string, lines: seq<string>, filter: bool)
    ensures ReadLines([line] + lines, filter)
      == if Kept(Trim(line), filter) then [Trim(line)] + ReadLines(lines, filter) else ReadLines(lines, filter)
  {
    assert ([line] + lines)[1..] == lines;
  }

  /** A line that neither starts nor ends with a blank, and is not a '#' comment. */
  predicate IsContentLine(s: string) {
    s != [] && s[0] != '#' && !IsTrimmed(s[0]) && !IsTrimmed(s[|s| - 1])
  }

  /**
   * The shape of the suffix-file round-trip test: a content line, a
   * comment, a blank line and another content line come back unchanged
   * when not filtered, and as the two content lines when filtered.
   */
  lemma ReadLinesScenario(first: string, comment: string, last: string)
    requires IsContentLine(first) && IsContentLine(last)
    requires comment != [] && comment[0] == '#' && !IsTrimmed(comment[|comment| - 1])
    ensures ReadLines([first, comment, "", last], false) == [first, comment, "", last]
    ensures ReadLines([first, comment, "", last], true) == [first, last]
  {
    var empty: seq<string> := [];
    TrimKeeps(first);
    TrimKeeps(comment);
    TrimKeeps("");
    TrimKeeps(last);
    var w := [first, comment, "", last];
    assert w[3..] == [last] + empty;
    assert w[2..] == [""] + w[3..];
    assert w[1..] == [comment] + w[2..];
    assert w == [first] + w[1..];
    ReadLinesCons(last, empty, false);
    ReadLinesCons(last, empty, true);
    ReadLinesCons("", w[3..], false);
    ReadLinesCons("", w[3..], true);
    ReadLinesCons(comment, w[2..], false);
    ReadLinesCons(comment, w[2..], true);
    ReadLinesCons(first, w[1..], false);
    ReadLinesCons(first, w[1..], true);
  }
}
