# ReZipDoc in Dafny

ReZipDoc makes ZIP-based documents friendly to version control. It has
two tools:

- **ReZip** re-packs an archive so that every entry is stored with a
  recomputed size and CRC-32 and, optionally, with zeroed times. Nested
  archives can be re-packed too.
- **ZipDoc** turns an archive into a plain-text report for diffing. Each
  entry gets a `Sub-file:` header. XML is then pretty-printed or dumped,
  text is dumped, nested archives are reported recursively, and anything
  else is summarised by its size and CRC-32.

The repository carries two generations of the code, and this model covers
both of them:

- the older `net.rezipdoc` package, with a minimal `hoijui.rezipdoc.ReZip`
  beside it;
- the newer `io.github.hoijui.rezipdoc` package.

Modules, one concept each:

| module | models |
|---|---|
| `Common` (common.dfy) | `Option`/`Result`, bytes and single-byte text, the Java string helpers the core uses (`trim`, `toLowerCase`, `lastIndexOf`, prefix and suffix tests), decimal and hex rendering, and a generic "report built by joining entry reports" principle |
| `Buffers` (buffer.dfy) | `BufferedOutputStream` as a class over an `array<byte>` and a `count`: `write`, `reset`, `startsWith`, `toByteArray`, and the copying or referencing input-stream views. Also the JDK `ByteArrayInputStream` those views return, the CRC-32 accumulator, and the buffer scenarios of the unit tests |
| `Suffixes`, `NetUtils`, `IoUtils`, `SuffixFiles` (classify.dfy) | file-type detection in both generations (suffix, magic header, MIME sniffing with the PK-signature extension), `transferTo`, and the `readLines` filter |
| `RoughFormat` (rough.dfy) | both `XmlFormatter`s: the chunked rough formatter (`prettifyRoughAndFast`, `handleRow`, `appendIndents`) and `prettify`'s fallback to a carbon copy |
| `ZipModel` (zipmodel.dfy) | archive entries, the codec boundary, and the drain of an entry into buffer and checksum |
| `IoZipDoc`, `NetZipDoc` | the two report engines |
| `NetReZip`, `FlatReZip` | the two re-packers |
| `Manifest` (manifest.dfy) | `BinaryUtil`'s manifest parsing and its getters |

Collaborators the code only calls are parameters of the model:

- the container codec, `ZipInputStream`/`ZipOutputStream` (`Codec.read`, `Codec.write`);
- the CRC-32 function (`Codec.crc32`);
- the JDK MIME sniffer (`IoUtils.Sniffer`);
- the DOM printer of `prettifyCorrect` (`RoughFormat.ExactPrinter`);
- the SAX serializer of the older report engine (`NetZipDoc.Serializer`).

Output streams are modelled as returned values: a `string` for a report
and a `seq<Item>` for a re-packed archive.

The report engines drain each entry with ZipModel.DrainFresh. In the newer
report engine this stands for the `Utils.transferTo` call over the codec's
chunks (ZipDoc.java:153), whose loop is modelled on its own as
IoUtils.TransferTo.

## Model

Source paths are relative to the repository root.

| member | source | states |
|---|---|---|
| Buffers.BufferedOutputStream.constructor | src/main/java/net/rezipdoc/BufferedOutputStream.java:37-39 | a new buffer is empty with a capacity of 256 bytes |
| Buffers.BufferedOutputStream.WithCapacity | src/main/java/net/rezipdoc/BufferedOutputStream.java:48-50 | a new buffer is empty with exactly the requested capacity |
| Buffers.BufferedOutputStream.Contents | src/main/java/net/rezipdoc/BufferedOutputStream.java:31 | the buffer's contents are the first `count` bytes of its array |
| Buffers.BufferedOutputStream.Size | src/main/java/net/rezipdoc/BufferedOutputStream.java:31 | `size()` is the number of bytes written since the last reset |
| Buffers.BufferedOutputStream.Write | src/main/java/net/rezipdoc/BufferedOutputStream.java:31 | writing appends the data to the contents. The array is kept when the data fits, and a larger fresh array holding the old bytes replaces it when not |
| Buffers.BufferedOutputStream.Reset | src/main/java/net/rezipdoc/BufferedOutputStream.java:31 | reset empties the contents but keeps the same array, so a referencing view sees later writes |
| Buffers.BufferedOutputStream.StartsWith | src/main/java/net/rezipdoc/BufferedOutputStream.java:63-75 | true exactly when the prefix is a prefix of the contents: the empty prefix always, a prefix longer than the contents never |
| Buffers.BufferedOutputStream.ToByteArray | src/main/java/net/rezipdoc/BufferedOutputStream.java:81 | a fresh array holding exactly the contents |
| Buffers.BufferedOutputStream.CreateInputStream | src/main/java/net/rezipdoc/BufferedOutputStream.java:77-87 | the view starts at position 0 and yields exactly the contents. The copying view owns a fresh array; the referencing view shares the array and the count |
| Buffers.BufferedOutputStream.CreateReferencingStream | src/main/java/net/rezipdoc/BufferedOutputStream.java:89-91 | the no-argument view is the referencing one |
| Buffers.ByteArrayInputStream.constructor | src/main/java/net/rezipdoc/BufferedOutputStream.java:81 | a view over the whole array, at position 0 with mark 0 |
| Buffers.ByteArrayInputStream.Prefix | src/main/java/net/rezipdoc/BufferedOutputStream.java:83 | a view over the first `min(length, array length)` bytes |
| Buffers.ByteArrayInputStream.Remaining | src/main/java/io/github/hoijui/rezipdoc/Utils.java:331 | the unread bytes number count minus position |
| Buffers.ByteArrayInputStream.Read | src/main/java/io/github/hoijui/rezipdoc/Utils.java:361-364 | `read()` returns the next byte and advances, or returns -1 at the end without moving |
| Buffers.ByteArrayInputStream.ReadChunk | src/main/java/io/github/hoijui/rezipdoc/Utils.java:331 | `read(buffer)` returns at most `len` bytes, or -1 at the end. What it returns followed by what is left equals what was left before |
| Buffers.ByteArrayInputStream.Mark | src/main/java/io/github/hoijui/rezipdoc/Utils.java:360 | mark records the current position |
| Buffers.ByteArrayInputStream.ResetToMark | src/main/java/io/github/hoijui/rezipdoc/Utils.java:365 | reset returns to the marked position |
| Buffers.Crc32.constructor | src/main/java/net/rezipdoc/ReZip.java:147 | a new checksum has folded in no bytes |
| Buffers.Crc32.Reset | src/main/java/net/rezipdoc/ReZip.java:164 | reset forgets every byte folded in |
| Buffers.Crc32.Update | src/main/java/net/rezipdoc/ReZip.java:168 | the checksum covers the old bytes followed by the new ones |
| Buffers.CheckedWrite | src/main/java/net/rezipdoc/ReZip.java:148 | a write through the checked stream reaches both the buffer and the checksum, in the same order |
| Buffers.StartsWithScenario | src/test/java/net/rezipdoc/BufferedOutputStreamTest.java:40-49 | a buffer holding "hello" starts with "hello", "hel" and "", and not with "hello world" |
| Buffers.HelloBuffer | src/test/java/net/rezipdoc/BufferedOutputStreamTest.java:54-55 | a fresh default buffer after writing "hello" holds exactly "hello" |
| Buffers.ViewAfterAppend | src/test/java/net/rezipdoc/BufferedOutputStreamTest.java:63-69 | appending after a view was taken is invisible to both kinds of view |
| Buffers.ViewAfterReset | src/test/java/net/rezipdoc/BufferedOutputStreamTest.java:71-77 | a reset after a view was taken is invisible to both kinds of view |
| Buffers.ViewAfterRefill | src/test/java/net/rezipdoc/BufferedOutputStreamTest.java:79-86 | after reset and a new write, a referencing view reads the new bytes ("world") and a copying view reads the old ("hello") |
| Buffers.ViewScenario | src/test/java/net/rezipdoc/BufferedOutputStreamTest.java:52-123 | all eight view cases of the two tests read what the tests assert |
| Suffixes.SuffixOf | src/main/java/net/rezipdoc/Utils.java:73-77 | a name without '.' has no suffix. Otherwise the suffix has no '.', and the lower-cased name ends in '.' followed by it |
| Suffixes.SuffixIgnoresCase | src/main/java/io/github/hoijui/rezipdoc/Utils.java:265-268 | lower-casing the name does not change its suffix |
| Suffixes.SuffixOfJoin | src/main/java/net/rezipdoc/Utils.java:74-76 | the suffix of `stem + "." + s` is `s`, for any lower-case `s` without '.' |
| NetUtils.IsType | src/main/java/net/rezipdoc/Utils.java:68-89 | the answer is "suffix matches, or magic tested and present". Whenever the magic header was tested, the buffer is left empty; otherwise it is untouched |
| NetUtils.IsXml | src/main/java/net/rezipdoc/Utils.java:99-101 | isType with the header `<?xml ` and the suffixes xml and svg, emptying the buffer as isType does |
| NetUtils.IsPlainText | src/main/java/net/rezipdoc/Utils.java:111-113 | suffix test only (xml, svg, txt, md, markdown); the buffer is untouched |
| NetUtils.IsZip | src/main/java/net/rezipdoc/Utils.java:115-117 | suffix test only (zip, jar); the buffer is untouched |
| NetUtils.IsTypeKeepingContent | src/main/java/net/rezipdoc/Utils.java:78-86 | the same answer as isType without the reset, so the contents survive |
| NetUtils.IsXmlKeepingContent | src/main/java/net/rezipdoc/Utils.java:99-101 | the same answer as isXml, with the contents kept |
| NetUtils.SuffixSetsNest | src/main/java/net/rezipdoc/Utils.java:37-53 | every XML suffix is a text suffix, and no archive suffix is one |
| NetUtils.NoMagicNoReset | src/main/java/net/rezipdoc/Utils.java:78 | without a magic header the buffer is never reset |
| NetUtils.ShortSizeNeedsSuffix | src/main/java/net/rezipdoc/Utils.java:78 | when the declared size is below the header's length, only the suffix can match |
| IoUtils.ZipSignatureNeedsFourBytes | src/main/java/io/github/hoijui/rezipdoc/Utils.java:361-370 | a PK signature needs four bytes, starting 0x50 0x4B |
| IoUtils.GuessedTypeFallback | src/main/java/io/github/hoijui/rezipdoc/Utils.java:355-373 | the JDK's guess wins when it has one. Otherwise the result is application/zip exactly when a PK signature is present, and none when not |
| IoUtils.GuessContentType | src/main/java/io/github/hoijui/rezipdoc/Utils.java:353-377 | the guessed type of the unread bytes, with the stream back at its starting position |
| IoUtils.IsType | src/main/java/io/github/hoijui/rezipdoc/Utils.java:260-284 | the answer is "suffix, or magic header with enough declared size, or MIME type as guessed". The buffer is only read |
| IoUtils.IsXml | src/main/java/io/github/hoijui/rezipdoc/Utils.java:297-299 | isType with the header `<?xml `, the XML suffixes and application/xml |
| IoUtils.IsPlainText | src/main/java/io/github/hoijui/rezipdoc/Utils.java:310-312 | a text suffix matches |
| IoUtils.IsZip | src/main/java/io/github/hoijui/rezipdoc/Utils.java:314-316 | an archive suffix matches, or the guessed type is application/zip |
| IoUtils.SignatureMakesArchive | src/main/java/io/github/hoijui/rezipdoc/Utils.java:276-281 | content with a PK signature that the JDK does not recognise is an archive, whatever its name |
| IoUtils.HeaderMakesXml | src/main/java/io/github/hoijui/rezipdoc/Utils.java:270-275 | content starting with `<?xml ` with declared size at least 6 is XML, whatever its name |
| IoUtils.TransferTo | src/main/java/io/github/hoijui/rezipdoc/Utils.java:328-334 | the target gains every unread byte of the source in order, and the source ends exhausted |
| SuffixFiles.ReadLines | src/main/java/io/github/hoijui/rezipdoc/Utils.java:149-159 | never more lines than read, and every line kept passes the filter. Unfiltered, there are exactly as many lines |
| SuffixFiles.ReadLinesUnfiltered | src/main/java/io/github/hoijui/rezipdoc/Utils.java:153-154 | unfiltered, line k is the trimmed line k |
| SuffixFiles.ReadLinesMembership | src/main/java/io/github/hoijui/rezipdoc/Utils.java:153-157 | a string is returned exactly when it is the trim of some input line that the filter keeps |
| SuffixFiles.ReadLinesScenario | src/test/java/io/github/hoijui/rezipdoc/UtilsTest.java:36-52 | the test's four lines come back unchanged unfiltered, and as first and last when filtered |
| Common.Latin1 | src/main/java/io/github/hoijui/rezipdoc/XmlFormatter.java:303 | bytes become characters one for one, with the same code |
| Common.Ascii | src/main/java/net/rezipdoc/Utils.java:80 | `getBytes()` of single-byte text: one byte per character, with the same code |
| Common.Latin1OfAscii | src/main/java/net/rezipdoc/Utils.java:80 | decoding the encoded header gives the header back |
| Common.Latin1Append | src/main/java/io/github/hoijui/rezipdoc/XmlFormatter.java:303 | decoding chunk by chunk gives the decoding of the whole |
| Common.TrimKeeps | src/main/java/io/github/hoijui/rezipdoc/XmlFormatter.java:314 | a string without leading or trailing blanks is its own trim |
| Common.TrimIsInfix | src/main/java/io/github/hoijui/rezipdoc/XmlFormatter.java:314 | the trim is a slice of the string with no blank at either end, and only blanks were cut |
| Common.TrimIdempotent | src/main/java/io/github/hoijui/rezipdoc/XmlFormatter.java:314 | trimming twice is trimming once |
| Common.ToLower | src/main/java/net/rezipdoc/Utils.java:73 | same length, and each character is lowered on its own |
| Common.LastIndexOf | src/main/java/net/rezipdoc/Utils.java:75 | the last occurrence of the character, or -1 exactly when it does not occur |
| Common.DigitsRoundTrip | src/main/java/io/github/hoijui/rezipdoc/ZipDoc.java:176-177 | the decimal or hex rendering parses back to the number |
| Common.HexInjective | src/main/java/io/github/hoijui/rezipdoc/ZipDoc.java:177 | different checksums print differently |
| Common.DecimalInjective | src/main/java/io/github/hoijui/rezipdoc/ZipDoc.java:176 | different sizes print differently |
| RoughFormat.ExpandAppend | src/main/java/io/github/hoijui/rezipdoc/XmlFormatter.java:306-308 | the two replaceAll calls distribute over concatenation |
| RoughFormat.ExpandBreaksAroundTags | src/main/java/io/github/hoijui/rezipdoc/XmlFormatter.java:306-308 | after the replacements every '>' is followed by a line break, and every '<' is preceded by one |
| RoughFormat.SplitAllNoBreak | src/main/java/io/github/hoijui/rezipdoc/XmlFormatter.java:309 | no row contains a line break |
| RoughFormat.SplitAllJoin | src/main/java/io/github/hoijui/rezipdoc/XmlFormatter.java:309 | joining the rows with line breaks gives the text back |
| RoughFormat.SplitAllOfRow | src/main/java/io/github/hoijui/rezipdoc/XmlFormatter.java:309 | text without a line break is a single row |
| RoughFormat.SplitAllAppend | src/main/java/io/github/hoijui/rezipdoc/XmlFormatter.java:309 | splitting a concatenation splits the first part, and its last piece continues into the second |
| RoughFormat.SplitAllLeadingBreak | src/main/java/io/github/hoijui/rezipdoc/XmlFormatter.java:309 | a leading line break yields a leading empty row |
| RoughFormat.DropTrailingEmptyMeaning | src/main/java/io/github/hoijui/rezipdoc/XmlFormatter.java:309 | Java's split drops exactly the trailing empty rows: the result is a prefix, ending in a non-empty row or empty |
| RoughFormat.JavaSplitDropsFinalBreak | src/main/java/io/github/hoijui/rezipdoc/XmlFormatter.java:309 | a single row followed by a line break splits into that row alone, and the break is lost |
| RoughFormat.Indentation | src/main/java/io/github/hoijui/rezipdoc/XmlFormatter.java:326-331 | a depth of 0 or less indents with nothing |
| RoughFormat.IndentationLength | src/main/java/io/github/hoijui/rezipdoc/XmlFormatter.java:326-331 | a positive depth indents with depth copies of the indent |
| RoughFormat.RowEffectShape | src/main/java/io/github/hoijui/rezipdoc/XmlFormatter.java:333-357 | the depth changes by the row kind's step (closing -1, opening +1 unless it ends in `]]>`). An empty row writes nothing; any other row is written once, after its indentation, with a line break |
| RoughFormat.TrimRowsAll | src/main/java/io/github/hoijui/rezipdoc/XmlFormatter.java:314 | every row is handled trimmed |
| RoughFormat.EmitRowsDepth | src/main/java/io/github/hoijui/rezipdoc/XmlFormatter.java:313-315 | the depth after a run of rows is the start plus the sum of the rows' steps |
| RoughFormat.GenerationsAgreeOnDepth | src/main/java/net/rezipdoc/XmlFormatter.java:228-250 | both generations end a run of rows at the same depth |
| RoughFormat.OpeningTagIndents | src/main/java/net/rezipdoc/XmlFormatter.java:236-242 | an opening tag is indented at the current depth by the newer generation and one level deeper by the older one |
| RoughFormat.OtherRowsAgree | src/main/java/net/rezipdoc/XmlFormatter.java:228-250 | on every row that is not an opening tag, the generations behave identically |
| RoughFormat.RemoveEmptyMeaning | src/main/java/io/github/hoijui/rezipdoc/XmlFormatter.java:336 | removing empty rows leaves only non-empty rows, and never more rows |
| RoughFormat.RemoveEmptyAppend | src/main/java/io/github/hoijui/rezipdoc/XmlFormatter.java:336 | removing empty rows distributes over concatenation |
| RoughFormat.EmitRowsSkipsEmpty | src/main/java/io/github/hoijui/rezipdoc/XmlFormatter.java:336 | empty rows change neither the text nor the depth |
| RoughFormat.RowsAlike | src/main/java/io/github/hoijui/rezipdoc/XmlFormatter.java:336 | two runs with the same non-empty rows give the same output |
| RoughFormat.EmitRowsAppend | src/main/java/io/github/hoijui/rezipdoc/XmlFormatter.java:313-315 | handling two runs in turn equals handling their concatenation, with the depth threaded through |
| RoughFormat.AppendIndents | src/main/java/io/github/hoijui/rezipdoc/XmlFormatter.java:326-331 | the loop appends exactly the indentation for the depth |
| RoughFormat.AppendIndentedRow | src/main/java/io/github/hoijui/rezipdoc/XmlFormatter.java:341-342 | indentation, then the row, then a line break |
| RoughFormat.HandleRow | src/main/java/io/github/hoijui/rezipdoc/XmlFormatter.java:333-357 | handleRow appends the row's effect for its generation and returns the new depth (net version: src/main/java/net/rezipdoc/XmlFormatter.java:228-250) |
| RoughFormat.HandleRows | src/main/java/io/github/hoijui/rezipdoc/XmlFormatter.java:313-315 | every row but the last, trimmed and in order, goes through handleRow |
| RoughFormat.HandleChunk | src/main/java/io/github/hoijui/rezipdoc/XmlFormatter.java:303-320 | carry plus chunk is expanded and split, all rows but the last are handled, and the last is carried. Java's split can yield no rows, and that case is reported |
| RoughFormat.ChunkLoop | src/main/java/io/github/hoijui/rezipdoc/XmlFormatter.java:300-321 | the read loop computes the rough formatter's specification |
| RoughFormat.FinishRough | src/main/java/io/github/hoijui/rezipdoc/XmlFormatter.java:323 | after the input ends, the carried row, trimmed, goes through handleRow |
| RoughFormat.PrettifyRoughAndFast | src/main/java/io/github/hoijui/rezipdoc/XmlFormatter.java:288-324 | the output is the rough formatter's specification for that generation, split and buffer size (net version: src/main/java/net/rezipdoc/XmlFormatter.java:183-219) |
| RoughFormat.CopyRest | src/main/java/io/github/hoijui/rezipdoc/XmlFormatter.java:226 | the carbon copy is exactly the unread rest of the input |
| RoughFormat.RoughFailsOnlyAfterReading | src/main/java/io/github/hoijui/rezipdoc/XmlFormatter.java:300-321 | the rough formatter only fails after reading at least one chunk, and never past the input |
| RoughFormat.Prettify | src/main/java/io/github/hoijui/rezipdoc/XmlFormatter.java:214-228 | the output is the chosen mode's output or, on failure, its partial output followed by the unread rest (net version: src/main/java/net/rezipdoc/XmlFormatter.java:130-144) |
| RoughFormat.PrettifyNothingEscapes | src/main/java/io/github/hoijui/rezipdoc/XmlFormatter.java:223-227 | after a failure, the output starts with what the failed mode wrote and ends with every byte it had not read. A failure before any reading or writing yields the input itself |
| RoughFormat.PrettifyText | src/main/java/io/github/hoijui/rezipdoc/XmlFormatter.java:240-251 | `prettify(String)` is `prettify` with the text itself as a one-chunk buffer |
| RoughFormat.RoughInOneChunk | src/main/java/io/github/hoijui/rezipdoc/XmlFormatter.java:300-323 | input read in one chunk is one loop turn followed by the final row |
| RoughFormat.EmptyElementTwoRows | src/main/java/io/github/hoijui/rezipdoc/XmlFormatter.java:300-357 | `<t></t>`, for a name t of letters, digits and '-', read in one chunk: the opening tag on one line and the closing tag unindented on the next. The newer generation writes the opening tag at depth 0 and the older one at depth 1 |
| RoughFormat.AsWrittenLosesBreakAtChunkEnd | src/main/java/io/github/hoijui/rezipdoc/XmlFormatter.java:300-323 | as written, "x\ny" with a 2-byte buffer comes out as "xy\n" |
| RoughFormat.AsWrittenKeepsBreakInsideChunk | src/main/java/io/github/hoijui/rezipdoc/XmlFormatter.java:300-323 | as written, the same input with a 3-byte buffer comes out as "x\ny\n" |
| RoughFormat.KeepTrailingIgnoresBufferSize | src/main/java/io/github/hoijui/rezipdoc/XmlFormatter.java:300-323 | with the trailing rows kept, the output for any positive buffer size is that of handling all rows of the whole input at once |
| RoughFormat.KeepTrailingSameForAnyBuffer | src/main/java/io/github/hoijui/rezipdoc/XmlFormatter.java:300-323 | with the trailing rows kept, any two positive buffer sizes give the same output |
| ZipModel.Drain | src/main/java/net/rezipdoc/ReZip.java:167-169 | the drain loop appends the entry's bytes to both buffer and checksum |
| ZipModel.DrainFresh | src/main/java/net/rezipdoc/ReZip.java:163-169 | after reset and drain, buffer and checksum hold exactly the entry's bytes |
| FlatReZip.Rezip | src/main/java/hoijui/rezipdoc/ReZip.java:83-111 | the loop computes the re-pack specification, one entry per input entry |
| FlatReZip.CompressionFromArgs | src/main/java/hoijui/rezipdoc/ReZip.java:44-56 | the argument loop picks the method the argument specification names |
| FlatReZip.RepackFaithful | src/main/java/hoijui/rezipdoc/ReZip.java:99-104 | with a valid method, every output entry has the input's content and name, size = length, CRC of the content, the method and compressed size -1 |
| FlatReZip.RepackFails | src/main/java/hoijui/rezipdoc/ReZip.java:102 | re-packing fails exactly when there is an entry and the method is neither STORED nor DEFLATED, and the error names the method |
| FlatReZip.RepackIdempotent | src/main/java/hoijui/rezipdoc/ReZip.java:89-110 | re-packing the output again gives the output |
| FlatReZip.ArgsChoice | src/main/java/hoijui/rezipdoc/ReZip.java:45-53 | no arguments choose DEFLATED, only `--store` arguments choose STORED, and any other argument is a usage error. Every choice is a valid method |
| NetReZip.ReZip.constructor | src/main/java/net/rezipdoc/ReZip.java:55-60 | the settings are stored as given |
| NetReZip.ReZip.Default | src/main/java/net/rezipdoc/ReZip.java:62-64 | the defaults are uncompressed, times kept, recursive |
| NetReZip.ReZip.Method | src/main/java/net/rezipdoc/ReZip.java:144 | the method is always valid, and DEFLATED exactly when compression is on |
| NetReZip.ReZip.Rezip | src/main/java/net/rezipdoc/ReZip.java:141-150 | the public entry point computes the recursive re-pack specification with the instance's settings |
| NetReZip.ReZip.RezipLevel | src/main/java/net/rezipdoc/ReZip.java:152-203 | one level's loop over a shared buffer and checksum computes the re-pack of that level's entries |
| NetReZip.ReZip.RezipEntry | src/main/java/net/rezipdoc/ReZip.java:163-201 | one entry: drained, possibly re-packed in place, then restamped from the buffer's final contents |
| NetReZip.ReZip.RezipNested | src/main/java/net/rezipdoc/ReZip.java:173-184 | a nested archive is read from a copying snapshot and re-packed by a level with a buffer of its own. The parent buffer and checksum end holding exactly the written nested archive |
| NetReZip.RezipErrPropagates | src/main/java/net/rezipdoc/ReZip.java:162 | an entry that fails aborts the level with the same error |
| NetReZip.OneToOne | src/main/java/net/rezipdoc/ReZip.java:162-202 | one output entry per input entry, in order, each the re-pack of its own entry |
| NetReZip.EntryDescribesPayload | src/main/java/net/rezipdoc/ReZip.java:186-197 | each header matches its payload: same name, size = payload length, CRC of the payload, the chosen method, compressed size -1. Times are zeroed exactly when asked |
| NetReZip.PassThrough | src/main/java/net/rezipdoc/ReZip.java:173 | an entry the re-packer does not descend into keeps its bytes |
| NetReZip.NestedRepacked | src/main/java/net/rezipdoc/ReZip.java:173-184 | a nested archive becomes the archive written from its re-packed entries, which use the same method |
| NetReZip.RezipIdempotent | src/main/java/net/rezipdoc/ReZip.java:141-203 | re-packing the output again gives the output, for any codec that reads back the entries it wrote with the same names and contents (and times, unless they are zeroed). Sizes, CRCs, methods and compressed sizes may come back different |
| NetReZip.AlikeRezipAlike | src/main/java/net/rezipdoc/ReZip.java:186-197 | the re-pack of a level depends only on each entry's name, content and (unless zeroed) times; every other header field is recomputed |
| NetReZip.RezipItemIdempotent | src/main/java/net/rezipdoc/ReZip.java:162-202 | the same, for one entry |
| NetReZip.RezipFuelStable | src/main/java/net/rezipdoc/ReZip.java:182 | a result other than running out of depth does not change with more depth |
| NetReZip.ItemFuelStable | src/main/java/net/rezipdoc/ReZip.java:182 | the same, for one entry |
| NetReZip.NestedFuelStable | src/main/java/net/rezipdoc/ReZip.java:182 | the same, for a nested archive |
| NetReZip.RezipFuelMonotone | src/main/java/net/rezipdoc/ReZip.java:182 | a successful re-pack stays the same for any larger depth bound |
| IoZipDoc.ZipDoc.constructor | src/main/java/io/github/hoijui/rezipdoc/ZipDoc.java:56-60 | the settings are stored as given |
| IoZipDoc.ZipDoc.Default | src/main/java/io/github/hoijui/rezipdoc/ZipDoc.java:65-67 | the defaults are recursive, with XML formatting |
| IoZipDoc.ZipDoc.Transform | src/main/java/io/github/hoijui/rezipdoc/ZipDoc.java:137-181 | the entry loop writes exactly the report of the entries |
| IoZipDoc.ZipDoc.TransformTurn | src/main/java/io/github/hoijui/rezipdoc/ZipDoc.java:146-180 | one more entry extends the report of the entries before it, or aborts the whole report |
| IoZipDoc.ZipDoc.TransformEntry | src/main/java/io/github/hoijui/rezipdoc/ZipDoc.java:147-179 | one entry: its header, its body and an empty line |
| IoZipDoc.ZipDoc.EntryContent | src/main/java/io/github/hoijui/rezipdoc/ZipDoc.java:156-178 | the body of the branch the entry's type selects |
| IoZipDoc.ZipDoc.ChooseBranch | src/main/java/io/github/hoijui/rezipdoc/ZipDoc.java:156-164 | the branch is chosen in the code's order: XML to format, text or XML to dump, archive to recurse into, otherwise summary |
| IoZipDoc.ZipDoc.PrettifyContent | src/main/java/io/github/hoijui/rezipdoc/ZipDoc.java:159 | XML is printed by the exact formatter with its fallback, using the 8192-byte transfer buffer |
| IoZipDoc.ZipDoc.NestedContent | src/main/java/io/github/hoijui/rezipdoc/ZipDoc.java:166-173 | a nested archive's report, between its start and end lines |
| IoZipDoc.ReportAppend | src/main/java/io/github/hoijui/rezipdoc/ZipDoc.java:146-180 | the report of two runs of entries is the concatenation of their reports |
| IoZipDoc.EntryFramed | src/main/java/io/github/hoijui/rezipdoc/ZipDoc.java:150 | every entry's report starts with its `Sub-file:` line and ends with a line break |
| IoZipDoc.XmlNeverNested | src/main/java/io/github/hoijui/rezipdoc/ZipDoc.java:157-162 | XML is formatted when asked and dumped otherwise, and never recursed into |
| IoZipDoc.TextDumped | src/main/java/io/github/hoijui/rezipdoc/ZipDoc.java:160-162 | non-XML text is dumped verbatim |
| IoZipDoc.NonRecursiveSummarises | src/main/java/io/github/hoijui/rezipdoc/ZipDoc.java:174-178 | without recursion, an entry that is neither text nor XML is summarised by its size and CRC |
| IoZipDoc.NestedBracketed | src/main/java/io/github/hoijui/rezipdoc/ZipDoc.java:163-173 | with recursion, an archive entry's body is its nested report between start and end lines |
| IoZipDoc.SummaryDistinguishes | src/main/java/io/github/hoijui/rezipdoc/ZipDoc.java:176-177 | two summaries are equal only for equal size and equal CRC |
| IoZipDoc.SummaryShape | src/main/java/io/github/hoijui/rezipdoc/ZipDoc.java:176-177 | a summary is the size line and then the checksum line, neither number containing a line break |
| IoZipDoc.DumpedContentAppears | src/main/java/io/github/hoijui/rezipdoc/ZipDoc.java:160-162 | a dumped entry's content appears in the report |
| IoZipDoc.EntryAppears | src/main/java/io/github/hoijui/rezipdoc/ZipDoc.java:146-180 | anything in an entry's report appears in the whole report |
| IoZipDoc.EntryOkWithin | src/main/java/io/github/hoijui/rezipdoc/ZipDoc.java:146-180 | a successful report means every entry's report succeeded |
| IoZipDoc.ReportSnoc | src/main/java/io/github/hoijui/rezipdoc/ZipDoc.java:146-180 | one more entry appends its report |
| IoZipDoc.ReportStopsAt | src/main/java/io/github/hoijui/rezipdoc/ZipDoc.java:146-180 | the first failing entry's error is the report's error |
| IoZipDoc.ReportErrPropagates | src/main/java/io/github/hoijui/rezipdoc/ZipDoc.java:146-180 | entries after a failure do not change the error |
| IoZipDoc.NestedContentAppears | src/main/java/io/github/hoijui/rezipdoc/ZipDoc.java:166-172 | a dumped entry of a nested archive appears in the outer report |
| IoZipDoc.NestedEntryContains | src/main/java/io/github/hoijui/rezipdoc/ZipDoc.java:166-173 | a dumped nested entry appears in its archive entry's report |
| IoZipDoc.ReportFuelStable | src/main/java/io/github/hoijui/rezipdoc/ZipDoc.java:171 | a report that did not run out of depth does not change with more depth |
| IoZipDoc.EntryFuelStable | src/main/java/io/github/hoijui/rezipdoc/ZipDoc.java:171 | the same, for one entry |
| IoZipDoc.NestedFuelStable | src/main/java/io/github/hoijui/rezipdoc/ZipDoc.java:171 | the same, for a nested archive |
| IoZipDoc.ReportFuelMonotone | src/main/java/io/github/hoijui/rezipdoc/ZipDoc.java:171 | a successful report stays the same for any larger depth bound |
| NetZipDoc.Transform | src/main/java/net/rezipdoc/ZipDoc.java:82-121 | the entry loop writes exactly the report of the entries, for the classifier it uses |
| NetZipDoc.TransformTurn | src/main/java/net/rezipdoc/ZipDoc.java:94-120 | one more entry extends the report or aborts it |
| NetZipDoc.EntryContent | src/main/java/net/rezipdoc/ZipDoc.java:107-118 | the body is the serializer's output (XML), the buffer (text) or the summary, over what the buffer holds after isXml |
| NetZipDoc.AskIsXml | src/main/java/net/rezipdoc/ZipDoc.java:107 | isXml answers the XML test, and leaves the buffer as the classifier leaves it |
| NetZipDoc.ReportGrows | src/main/java/net/rezipdoc/ZipDoc.java:94-120 | one more entry appends its report |
| NetZipDoc.ReportStopsAt | src/main/java/net/rezipdoc/ZipDoc.java:110 | the first failing entry's error is the report's error |
| NetZipDoc.ReportErrPropagates | src/main/java/net/rezipdoc/ZipDoc.java:94-120 | entries after a failure do not change the error |
| NetZipDoc.ReportOkIff | src/main/java/net/rezipdoc/ZipDoc.java:94-120 | the report succeeds exactly when every entry's report does, and its only failure is the serializer's |
| NetZipDoc.EntryFramed | src/main/java/net/rezipdoc/ZipDoc.java:98 | every entry's report starts with its `Sub-file:` line and ends with a line break |
| NetZipDoc.ResettingLosesContent | src/main/java/net/rezipdoc/Utils.java:78-86 | as written, once the magic is tested: text is dumped as nothing, unknown entries report size 0 (with the CRC of all bytes), and XML goes to the serializer empty |
| NetZipDoc.NotesDumpedEmpty | src/main/java/net/rezipdoc/ZipDoc.java:111-113 | "notes.txt" holding "hello\n" is dumped as nothing as written, and as "hello\n" when the buffer is kept |
| NetZipDoc.ReadOnlyKeepsContent | src/main/java/net/rezipdoc/ZipDoc.java:107-118 | with the buffer kept, XML is serialized from the whole content, text is dumped whole, and the summary gives the real size |
| NetZipDoc.ClassifiersAgree | src/main/java/net/rezipdoc/Utils.java:78 | with an XML suffix or a declared size below 6, the two classifiers give the same report |
| Manifest.IsContentManifestLine | src/main/java/io/github/hoijui/rezipdoc/BinaryUtil.java:67-69 | a content line is never empty |
| Manifest.CollectKeyValueStrings | src/main/java/io/github/hoijui/rezipdoc/BinaryUtil.java:85-117 | the forEach loop computes the key-value strings of the lines |
| Manifest.KeyValueStringsSpell | src/main/java/io/github/hoijui/rezipdoc/BinaryUtil.java:85-117 | the entries, concatenated, spell every content line's piece in order: whole lines, or the rest after a continuation's space. No entry is empty |
| Manifest.NoContinuationOneEntryPerLine | src/main/java/io/github/hoijui/rezipdoc/BinaryUtil.java:96-110 | without continuation lines, the entries are exactly the content lines |
| Manifest.IndexOf | src/main/java/io/github/hoijui/rezipdoc/BinaryUtil.java:134 | the first occurrence from a position, or -1 when there is none |
| Manifest.SplitPairJoin | src/main/java/io/github/hoijui/rezipdoc/BinaryUtil.java:134 | splitting `key: value` gives the key and value back, for a key without ": " |
| Manifest.SplitPairParts | src/main/java/io/github/hoijui/rezipdoc/BinaryUtil.java:134 | a split entry is key, ": ", value, and the key holds no ": " |
| Manifest.ParseManifestLinesAsWritten | src/main/java/io/github/hoijui/rezipdoc/BinaryUtil.java:126-147 | the loop as written computes the keep-last-pair parse |
| Manifest.ParseManifestLines | src/main/java/io/github/hoijui/rezipdoc/BinaryUtil.java:126-147 | the loop with setProperty inside it computes the parse of every pair |
| Manifest.ParseManifestAsWritten | src/main/java/io/github/hoijui/rezipdoc/BinaryUtil.java:126-147 | parseManifestLines as written: join the lines, then keep the last pair |
| Manifest.ParseManifest | src/main/java/io/github/hoijui/rezipdoc/BinaryUtil.java:126-147 | parseManifestLines as intended: join the lines, then parse every pair |
| Manifest.LastPairErrPropagates | src/main/java/io/github/hoijui/rezipdoc/BinaryUtil.java:135-137 | entries after an invalid one do not change the error, as written |
| Manifest.ParsePairsErrPropagates | src/main/java/io/github/hoijui/rezipdoc/BinaryUtil.java:135-137 | entries after an invalid one do not change the error |
| Manifest.ParsePairsFails | src/main/java/io/github/hoijui/rezipdoc/BinaryUtil.java:135-137 | parsing fails exactly when some entry has no ": " |
| Manifest.ParsePairsFirstInvalid | src/main/java/io/github/hoijui/rezipdoc/BinaryUtil.java:135-137 | the error names the first invalid entry |
| Manifest.ParsePairsKeys | src/main/java/io/github/hoijui/rezipdoc/BinaryUtil.java:138-143 | a key is in the result exactly when some entry carries it |
| Manifest.ParsePairsLastWins | src/main/java/io/github/hoijui/rezipdoc/BinaryUtil.java:138-143 | the value of a key is the one from its last entry |
| Manifest.AsWrittenKeepsLastOnly | src/main/java/io/github/hoijui/rezipdoc/BinaryUtil.java:138-144 | as written, it fails exactly when the intended parse fails. Otherwise it keeps only the last pair, or nothing for no entries |
| Manifest.SameFailure | src/main/java/io/github/hoijui/rezipdoc/BinaryUtil.java:132-137 | the as-written and intended parses fail on the same entry, and the as-written one finds a pair exactly when there are entries |
| Manifest.GetProperty | src/main/java/io/github/hoijui/rezipdoc/BinaryUtil.java:172-178 | `getVersion` and `getLicense` (the functions GetVersion and GetLicense) look their key up: the stored value when present, `<unknown>` otherwise |
| Manifest.ParsedLookup | src/main/java/io/github/hoijui/rezipdoc/BinaryUtil.java:138-143 | after the every-pair parse, a lookup gives `<unknown>` when no entry carries the key, and otherwise the value of the last entry that carries it |
| Manifest.AsWrittenLosesVersion | src/main/java/io/github/hoijui/rezipdoc/BinaryUtil.java:142-144 | as written, a manifest with Bundle-Version then Bundle-License reports the version as `<unknown>` |
| Manifest.RawJoins | src/main/java/io/github/hoijui/rezipdoc/BinaryUtil.java:96-114 | a license value continued on a second line is joined into one entry |
| Manifest.RawLosesVersion | src/main/java/io/github/hoijui/rezipdoc/BinaryUtil.java:132-144 | the same loss from raw lines with a continuation, and the intended parse keeps both values |
| Manifest.ParsedKeepsVersion | src/main/java/io/github/hoijui/rezipdoc/BinaryUtil.java:172-178 | the intended parse reports version 2.1 and license GPL-3.0 |

## Left out

- IoZipDoc.NestedBody: the model has a depth bound, `fuel`, that the Java recursion does not have. It fails with `NestingTooDeep` when the bound runs out. A successful report is the same for every larger bound (ReportFuelMonotone).
- NetReZip.NestedPayload: the same depth bound applies to nested re-packing. NetReZip.ReZip.RezipNested returns `NestingTooDeep` where the Java code would keep recursing. A successful re-pack is the same for every larger bound (RezipFuelMonotone).
- IoZipDoc.Report: a failing entry makes the whole report an error with no text. The Java code has already printed every earlier entry, and the failing entry's `Sub-file:` line, before the exception propagates.
- NetZipDoc.Report: the same all-or-nothing reading applies to the serializer's failures. The Java code has printed the earlier entries and the header first.
- Common.Latin1: content is decoded one byte to one character. The Java code decodes each chunk with the platform's default charset, which can split multi-byte characters at chunk ends. It also writes dumped text as raw bytes rather than as characters.
- RoughFormat.Expand: works on those one-byte-per-character strings, so the rough formatter's rows are Latin-1 text rather than the platform charset's decoding of each chunk.
- Common.ToLower: lower-cases ASCII letters only. Java's `toLowerCase` maps other characters too: in the name `a.mar\u212Adown`, U+212A KELVIN SIGN becomes `k`, so Java treats the name as markdown text and the model does not.
- ZipModel.Restamp: entry sizes are unbounded integers rather than Java `long`s, so no size wraps around. CRC values are the 32-bit range of `CRC32.getValue()`.
- IoZipDoc.Header: `println` is modelled with "\n" as the line separator, not the platform's separator.
- NetReZip.ReZip.Rezip: the codec's `write` is total. `ZipOutputStream`'s failure on a duplicate entry name, and any other write failure, is not modelled.
- The entry header prints `ZipEntry.toString()`, which is the entry name; the other entry fields are not printed.
- The ZIP codec (framing, deflate and inflate), the CRC-32 computation and the JDK's `URLConnection.guessContentTypeFromStream` are not modelled. They are parameters.
- `prettifyCorrect`, a DOM parse plus whitespace removal plus a Transformer, is not modelled; it is a parameter that may fail after consuming some input and writing some output. The SAX serializer of the older report engine is a parameter too.
- All `main` methods, argument parsing other than the flat re-packer's compression flag, usage text and exit codes are not modelled.
- Logging is not modelled: both `BasicLogFormatter`s and every log call.
- File-system and classpath input and output are not modelled. Only the trim and filter of `readLines` is kept, and the suffix sets are the built-in defaults rather than those loaded from files. Also out: `writeLines`, `writeSuffixesFiles`, `deleteSuffixesFiles`, `collectFileOrDefaults`, `readJarManifest`, `parseManifestFile`.
- `createManifestPropertiesString` and `createLibrarySummary` only format output and are not modelled.
- The older `XmlFormatter.prettify` calls `Utils.transferTo`, which the older `Utils` does not define. The model gives it the newer generation's `transferTo` (RoughFormat.CopyRest).
- The report engine passes the formatter the as-written split, as the code does. Its formatter is in exact mode, so the rough formatter's split never runs there.
- Rough mode does not collapse an empty element. `<my-tag></my-tag>` prints as two rows, `<my-tag>` and then `</my-tag>` (RoughFormat.EmptyElementTwoRows).
- When pretty-printing fails, the partial output is kept and only the unread rest is copied after it (RoughFormat.PrettifyNothingEscapes).
- The report tries its branches in the code's order: format XML, dump text or XML, recurse into an archive, summarise (IoZipDoc.ZipDoc.ChooseBranch).
- Buffers.BufferedOutputStream.WithCapacity: takes a `nat`. The Java constructor accepts any `int` and throws `IllegalArgumentException` on a negative size; that error path is not modelled.
- IoUtils.TransferTo: requires a buffer size above 0. With a zero-length buffer and input left, `read` returns 0 every time and the Java loop never ends. ZipDoc.java:153 passes its 8192-byte buffer. The fallback of `prettify` at XmlFormatter.java:226 passes its own caller's buffer; it is modelled as RoughFormat.CopyRest, under the condition on the next line.
- RoughFormat.CopyRest: requires a buffer size above 0 unless nothing is left to copy, because it is `transferTo` of the unread rest and would spin in the same way.
- RoughFormat.Prettify: requires `FallbackTerminates`, that is a buffer size above 0 whenever the exact formatter fails with input left unread, because only that fallback calls `transferTo`. The rough formatter's loop needs no such condition: it stops as soon as `read` returns 0 or less, so with a zero-length buffer it handles only an empty final row, in the model as in the code (XmlFormatter.java:300).

## Findings

| source | as written | input that shows it | evidently intended | confidence | as-written member | corrected member |
|---|---|---|---|---|---|---|
| src/main/java/io/github/hoijui/rezipdoc/BinaryUtil.java:132-144 | `setProperty` runs once, after the loop, so only the last key-value pair is stored | the lines "Bundle-Version: 2.1" and "Bundle-License: GPL-3.0": `getVersion` answers `<unknown>` | every pair is stored, and a later key overrides an earlier one | not executed | Manifest.AsWrittenLosesVersion | Manifest.ParsedKeepsVersion |
| src/main/java/net/rezipdoc/Utils.java:78-86 | the `finally` block resets the caller's buffer whenever the magic header is tested. The report engine then dumps or sizes the emptied buffer | "notes.txt", declared size 6, holding "hello\n": dumped as nothing | classification only reads the buffer | not executed | NetZipDoc.NotesDumpedEmpty | NetZipDoc.ReadOnlyKeepsContent |
| src/main/java/io/github/hoijui/rezipdoc/XmlFormatter.java:300-323 | `split("\n")` drops trailing empty strings, so a line break at the end of a chunk is lost. The carried row then merges with the next chunk | "x\ny" with a 2-byte buffer gives "xy\n", while a 3-byte buffer gives "x\ny\n" | the output does not depend on the buffer size | not executed | RoughFormat.AsWrittenLosesBreakAtChunkEnd | RoughFormat.KeepTrailingIgnoresBufferSize |
