/**
 * The archive vocabulary shared by the report and re-pack engines: ZIP
 * entries with the header fields the engines read and set, an archive as
 * the sequence of its entries with their decompressed content, the
 * container codec, and the loop that drains one entry into the
 * accumulation buffer and its checksum.
 */
module ZipModel {
  import opened Common
  import opened Buffers

  /** ZipEntry.STORED and ZipEntry.DEFLATED. */
  const STORED: int := 0
  const DEFLATED: int := 8

  /** Every engine transfers through a buffer of this size (new byte[8192]). */
  const TRANSFER_BUFFER: nat := 8192

  /** The times of an entry in milliseconds: the DOS time, and the optional creation, last-access and last-modified times. */
  datatype Times = Times(time: int, creation: Option<int>, lastAccess: Option<int>, lastModified: Option<int>)

  /** All four times set to 0, as the re-packer's nullifyTimes option leaves them. */
  const ZERO_TIMES := Times(0, Some(0), Some(0), Some(0))

  /** The header fields of an entry; -1 stands for an unknown size, checksum or compressed size. */
  datatype ZipEntry = ZipEntry(name: string, size: int, crc: int, compressionMethod: int, compressedSize: int, times: Times)

  /** An entry together with its decompressed content. */
  datatype Item = Item(entry: ZipEntry, data: seq<byte>)

  /**
   * The container codec: the items of an archive's bytes (None where
   * ZipInputStream throws), the bytes of an archive written from items,
   * and the CRC-32 of some bytes.
   */
  datatype Codec = Codec(read: seq<byte> -> Option<seq<Item>>, write: seq<Item> -> seq<byte>, crc32: seq<byte> -> uint32)

  /** The methods ZipEntry.setMethod accepts. */
  predicate ValidMethod(m: int) {
    m == STORED || m == DEFLATED
  }

  /** The header a re-packer gives an output entry: recomputed size and CRC, the method, an unknown compressed size, times as asked. */
  function Restamp(entry: ZipEntry, payload: seq<byte>, crc: uint32, compression: int, nullifyTimes: bool): ZipEntry {
    entry.(size := |payload|, crc := crc, compressionMethod := compression, compressedSize := -1,
           times := if nullifyTimes then ZERO_TIMES else entry.times)
  }

  function Min(a: int, b: int): int {
    if a < b then a else b
  }

  /**
   * The drain loop of every engine: the entry's content is read a transfer
   * buffer at a time, until a read reports the end, and each chunk goes
   * into the buffer and the checksum.
   */
  method Drain(data: seq<byte>, raw: BufferedOutputStream, sum: Crc32)
    requires raw.Valid()
    modifies raw, raw.buf, sum
    ensures raw.Valid() && (raw.buf == old(raw.buf) || fresh(raw.buf))
    ensures raw.Contents() == old(raw.Contents()) + data
    ensures sum.folded == old(sum.folded) + data
  {
    var pos := 0;
    while pos < |data|
      invariant 0 <= pos <= |data|
      invariant raw.Valid() && (raw.buf == old(raw.buf) || fresh(raw.buf))
      invariant raw.Contents() == old(raw.Contents()) + data[..pos]
      invariant sum.folded == old(sum.folded) + data[..pos]
    {
      var len := Min(TRANSFER_BUFFER, |data| - pos);
      CheckedWrite(raw, sum, data[pos..pos + len]);
      assert data[..pos + len] == data[..pos] + data[pos..pos + len];
      pos := pos + len;
    }
    assert data[..pos] == data;
  }

  /**
   * An entry drained into a buffer and checksum that were both reset just
   * before: the buffer holds the entry's content and the checksum covers
   * exactly that content.
   */
  method DrainFresh(data: seq<byte>, raw: BufferedOutputStream, sum: Crc32)
    requires raw.Valid()
    modifies raw, raw.buf, sum
    ensures raw.Valid() && (raw.buf == old(raw.buf) || fresh(raw.buf))
    ensures raw.Contents() == data && sum.folded == data
  {
    raw.Reset();
    sum.Reset();
    Drain(data, raw, sum);
  }
}
