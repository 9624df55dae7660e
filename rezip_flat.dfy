/**
 * The re-packer of the hoijui.rezipdoc generation: every entry is drained
 * into one buffer and checksum, reset before each entry, and written back
 * with its size and CRC recomputed, the given method and an unknown
 * compressed size. Names and times are left as read, and nested archives
 * are copied like any other content.
 */
module FlatReZip {
  import opened Common
  import opened Buffers
  import opened ZipModel

  /** One output entry: the same content under a restamped header, times as read. */
  function RepackItem(crc32: seq<byte> -> uint32, compression: int, item: Item): Item {
    Item(Restamp(item.entry, item.data, crc32(item.data), compression, false), item.data)
  }

  /**
   * The output entries, or the error setMethod raises on the first entry
   * when the method is neither STORED nor DEFLATED. An archive without
   * entries never reaches setMethod.
   */
  function Repack(crc32: seq<byte> -> uint32, compression: int, items: seq<Item>): Result<seq<Item>> {
    if items != [] && !ValidMethod(compression) then Err(InvalidMethod(compression))
    else Ok(seq(|items|, k requires 0 <= k < |items| => RepackItem(crc32, compression, items[k])))
  }

  /** reZip(zipIn, zipOut, compression). */
  method Rezip(crc32: seq<byte> -> uint32, items: seq<Item>, compression: int) returns (r: Result<seq<Item>>)
    ensures r == Repack(crc32, compression, items)
  {
    var raw := new BufferedOutputStream();
    var sum := new Crc32();
    var out: seq<Item> := [];
    var i := 0;
    while i < |items|
      invariant 0 <= i <= |items|
      invariant raw.Valid() && fresh(raw) && fresh(raw.buf) && fresh(sum)
      invariant i > 0 ==> ValidMethod(compression)
      invariant out == seq(i, k requires 0 <= k < i => RepackItem(crc32, compression, items[k]))
    {
      DrainFresh(items[i].data, raw, sum);
      if !ValidMethod(compression) {
        return Err(InvalidMethod(compression));
      }
      var payload := raw.Contents();
      var entry := Restamp(items[i].entry, payload, sum.Value(crc32), compression, false);
      out := out + [Item(entry, payload)];
      i := i + 1;
    }
    r := Ok(out);
  }

  /** The method main picks: DEFLATED by default, STORED for "--store"; any other argument is a usage error. */
  method CompressionFromArgs(argv: seq<string>) returns (r: Option<int>)
    ensures r == ArgsCompression(argv)
  {
    var compression := DEFLATED;
    var i := 0;
    while i < |argv|
      invariant 0 <= i <= |argv|
      invariant forall k :: 0 <= k < i ==> argv[k] == "--store"
      invariant compression == if i == 0 then DEFLATED else STORED
    {
      if argv[i] == "--store" {
        compression := STORED;
      } else {
        return None;
      }
      i := i + 1;
    }
    r := Some(compression);
  }

  function ArgsCompression(argv: seq<string>): Option<int> {
    if exists k :: 0 <= k < |argv| && argv[k] != "--store" then None
    else if argv == [] then Some(DEFLATED)
    else Some(STORED)
  }

  // -----------------------------------------------------------------------
  // Properties

  /**
   * With a valid method: one output entry per input entry, in order, with
   * the same name, times and content, and a header that describes that
   * content.
   */
  lemma RepackFaithful(crc32: seq<byte> -> uint32, compression: int, items: seq<Item>)
    requires ValidMethod(compression)
    ensures Repack(crc32, compression, items).Ok?
    ensures var out := Repack(crc32, compression, items).value;
      |out| == |items|
      && forall k :: 0 <= k < |items| ==>
           out[k].data == items[k].data
           && out[k].entry.name == items[k].entry.name && out[k].entry.times == items[k].entry.times
           && out[k].entry.size == |out[k].data| && out[k].entry.crc == crc32(out[k].data) as int
           && out[k].entry.compressionMethod == compression && out[k].entry.compressedSize == -1
  {
  }

  /** The re-pack fails exactly when there is an entry and the method is invalid. */
  lemma RepackFails(crc32: seq<byte> -> uint32, compression: int, items: seq<Item>)
    ensures Repack(crc32, compression, items).Err? <==> items != [] && !ValidMethod(compression)
    ensures Repack(crc32, compression, items).Err? ==> Repack(crc32, compression, items).error == InvalidMethod(compression)
  {
  }

  /** Re-packing the output with the same method reproduces it. */
  lemma RepackIdempotent(crc32: seq<byte> -> uint32, compression: int, items: seq<Item>)
    requires Repack(crc32, compression, items).Ok?
    ensures var out := Repack(crc32, compression, items).value;
      Repack(crc32, compression, out) == Ok(out)
  {
    var out := Repack(crc32, compression, items).value;
    if out != [] {
      assert ValidMethod(compression);
    }
    var again := Repack(crc32, compression, out).value;
    forall k | 0 <= k < |out|
      ensures again[k] == out[k]
    {
      assert out[k] == RepackItem(crc32, compression, items[k]);
      assert again[k] == RepackItem(crc32, compression, out[k]);
    }
    assert again == out;
  }

  /** No arguments: DEFLATED; only "--store" arguments: STORED; anything else: usage. */
  lemma ArgsChoice(argv: seq<string>)
    ensures argv == [] ==> ArgsCompression(argv) == Some(DEFLATED)
    ensures argv != [] && (forall k :: 0 <= k < |argv| ==> argv[k] == "--store") ==> ArgsCompression(argv) == Some(STORED)
    ensures (exists k :: 0 <= k < |argv| && argv[k] != "--store") ==> ArgsCompression(argv).None?
    ensures ArgsCompression(argv).Some? ==> ValidMethod(ArgsCompression(argv).value)
  {
  }
}
