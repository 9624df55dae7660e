/**
 * The accumulation buffer of the net generation (BufferedOutputStream, a
 * ByteArrayOutputStream with a prefix test and two read views), the
 * ByteArrayInputStream such a view is, the CRC-32 accumulator and the
 * CheckedOutputStream that feeds both at once.
 *
 * The buffer keeps ByteArrayOutputStream's representation: an array `buf`
 * whose first `count` bytes are the content. Growth replaces `buf` by a
 * fresh, larger array; reset only sets `count` back to 0. A referencing
 * view keeps the array it saw when it was created, so what it reads later
 * depends on whether the buffer grew or was refilled in between.
 */
module Buffers {
  import opened Common

  /** Capacity of a buffer made with the no-argument constructor. */
  const DEFAULT_CAPACITY: nat := 256

  function Max(a: int, b: int): int {
    if a < b then b else a
  }

  /** Arrays.copyOf(src, capacity) for a capacity no smaller than the source. */
  method CopyOf(src: array<byte>, capacity: nat) returns (dst: array<byte>)
    requires src.Length <= capacity
    ensures fresh(dst) && dst.Length == capacity && dst[..src.Length] == src[..]
  {
    dst := new byte[capacity];
    var k := 0;
    while k < src.Length
      modifies dst
      invariant 0 <= k <= src.Length
      invariant dst[..k] == src[..k]
    {
      dst[k] := src[k];
      k := k + 1;
    }
  }

  /** System.arraycopy(data, 0, target, at, |data|): only target[at..at+|data|) changes. */
  method Place(target: array<byte>, at: nat, data: seq<byte>)
    requires at + |data| <= target.Length
    modifies target
    ensures target[..at] == old(target[..at])
    ensures target[at..at + |data|] == data
    ensures target[at + |data|..] == old(target[at + |data|..])
  {
    var i := 0;
    while i < |data|
      invariant 0 <= i <= |data|
      invariant target[..at] == old(target[..at])
      invariant target[at..at + i] == data[..i]
      invariant target[at + |data|..] == old(target[at + |data|..])
    {
      target[at + i] := data[i];
      i := i + 1;
    }
  }

  class BufferedOutputStream {
    var buf: array<byte>
    var count: nat

    ghost predicate Valid()
      reads this
    {
      count <= buf.Length
    }

    /** The logical content: buf[0..count). */
    function Contents(): (s: seq<byte>)
      reads this, buf
      requires Valid()
      ensures |s| == count
    {
      buf[..count]
    }

    /** ByteArrayOutputStream(): capacity 256, empty. */
    constructor ()
      ensures Valid() && fresh(buf)
      ensures buf.Length == DEFAULT_CAPACITY && Contents() == []
    {
      buf := new byte[DEFAULT_CAPACITY];
      count := 0;
    }

    /** ByteArrayOutputStream(size): the given capacity, empty. */
    constructor WithCapacity(size: nat)
      ensures Valid() && fresh(buf)
      ensures buf.Length == size && Contents() == []
    {
      buf := new byte[size];
      count := 0;
    }

    /** size(): the number of bytes written since the last reset. */
    function Size(): (n: nat)
      reads this, buf
      requires Valid()
      ensures n == |Contents()|
    {
      count
    }

    /**
     * write(b, 0, b.length): appends. When the bytes do not fit, the array
     * is replaced by one of twice the capacity, or of exactly the needed
     * size if doubling is not enough; otherwise the same array is written
     * in place and the bytes beyond the new count are left as they were.
     */
    method Write(data: seq<byte>)
      requires Valid()
      modifies this, buf
      ensures Valid()
      ensures Contents() == old(Contents()) + data
      ensures old(count) + |data| <= old(buf.Length) ==>
        buf == old(buf) && buf[count..] == old(buf[..])[count..]
      ensures old(count) + |data| > old(buf.Length) ==>
        fresh(buf) && buf.Length == Max(2 * old(buf.Length), old(count) + |data|)
    {
      var start := count;
      var minCapacity := start + |data|;
      var target := buf;
      if minCapacity > buf.Length {
        var newCapacity := 2 * buf.Length;
        if newCapacity < minCapacity {
          newCapacity := minCapacity;
        }
        target := CopyOf(buf, newCapacity);
      }
      Place(target, start, data);
      assert target[..minCapacity] == target[..start] + target[start..minCapacity];
      buf := target;
      count := minCapacity;
    }

    /** reset(): forgets the content and keeps the array for reuse. */
    method Reset()
      requires Valid()
      modifies this
      ensures Valid() && buf == old(buf) && Contents() == []
    {
      count := 0;
    }

    /**
     * startsWith(prefix): false when the prefix is longer than the
     * content, otherwise compares from the last prefix index down to 0.
     */
    method StartsWith(prefix: seq<byte>) returns (r: bool)
      requires Valid()
      ensures r <==> Common.StartsWith(Contents(), prefix)
    {
      if |prefix| > count {
        return false;
      }
      var idx := |prefix|;
      while idx > 0
        invariant 0 <= idx <= |prefix|
        invariant forall j :: idx <= j < |prefix| ==> buf[j] == prefix[j]
      {
        idx := idx - 1;
        if buf[idx] != prefix[idx] {
          return false;
        }
      }
      return true;
    }

    /** toByteArray(): a fresh array holding a copy of the content. */
    method ToByteArray() returns (a: array<byte>)
      requires Valid()
      ensures fresh(a) && a[..] == Contents()
    {
      a := new byte[count];
      var k := 0;
      while k < count
        invariant 0 <= k <= count
        invariant a[..k] == buf[..k]
      {
        a[k] := buf[k];
        k := k + 1;
      }
    }

    /**
     * createInputStream(copyBytes): with copyBytes, a stream over a private
     * copy; without, a stream over `buf` itself, limited to the count at
     * the time of the call.
     */
    method CreateInputStream(copyBytes: bool) returns (v: ByteArrayInputStream)
      requires Valid()
      ensures fresh(v) && v.Valid() && v.pos == 0 && v.Remaining() == Contents()
      ensures copyBytes ==> fresh(v.buf)
      ensures !copyBytes ==> v.buf == buf && v.count == count
    {
      if copyBytes {
        var copy := ToByteArray();
        v := new ByteArrayInputStream(copy);
      } else {
        v := new ByteArrayInputStream.Prefix(buf, count);
      }
    }

    /** createInputStream(): the referencing view. */
    method CreateReferencingStream() returns (v: ByteArrayInputStream)
      requires Valid()
      ensures fresh(v) && v.Valid() && v.pos == 0 && v.Remaining() == Contents()
      ensures v.buf == buf && v.count == count
    {
      v := CreateInputStream(false);
    }
  }

  /** java.io.ByteArrayInputStream: reads buf[pos..count), with a mark to return to. */
  class ByteArrayInputStream {
    const buf: array<byte>
    const count: nat
    var pos: nat
    var mark: nat

    ghost predicate Valid()
      reads this
    {
      pos <= count <= buf.Length && mark <= count
    }

    /** What reading to the end would deliver. */
    function Remaining(): (s: seq<byte>)
      reads this, buf
      requires Valid()
      ensures |s| == count - pos
    {
      buf[pos..count]
    }

    /** ByteArrayInputStream(b): the whole array. */
    constructor (b: array<byte>)
      ensures Valid() && buf == b && count == b.Length && pos == 0 && mark == 0
    {
      buf := b;
      count := b.Length;
      pos := 0;
      mark := 0;
    }

    /** ByteArrayInputStream(b, 0, length): the first `length` bytes (fewer if the array is shorter). */
    constructor Prefix(b: array<byte>, length: nat)
      ensures Valid() && buf == b && count == Min(length, b.Length) && pos == 0 && mark == 0
    {
      buf := b;
      count := Min(length, b.Length);
      pos := 0;
      mark := 0;
    }

    static function Min(a: int, b: int): int {
      if a < b then a else b
    }

    /** read(): the next byte as 0..255, or -1 at the end. */
    method Read() returns (c: int)
      requires Valid()
      modifies this`pos
      ensures Valid()
      ensures old(pos) < count ==> c == buf[old(pos)] as int && pos == old(pos) + 1
      ensures old(pos) >= count ==> c == -1 && pos == old(pos)
    {
      if pos < count {
        c := buf[pos] as int;
        pos := pos + 1;
      } else {
        c := -1;
      }
    }

    /**
     * read(b, 0, len): -1 at the end of the data (even for len 0);
     * otherwise up to `len` bytes, as many as are left.
     */
    method ReadChunk(len: nat) returns (n: int, chunk: seq<byte>)
      requires Valid()
      modifies this`pos
      ensures Valid() && |chunk| == (if n < 0 then 0 else n)
      ensures old(pos) >= count ==> n == -1 && pos == old(pos)
      ensures old(pos) < count ==> n == Min(len, count - old(pos)) && pos == old(pos) + n
      ensures old(Remaining()) == chunk + Remaining()
    {
      if pos >= count {
        return -1, [];
      }
      n := Min(len, count - pos);
      chunk := buf[pos..pos + n];
      pos := pos + n;
    }

    /** mark(readAheadLimit): remembers the current position. */
    method Mark()
      requires Valid()
      modifies this`mark
      ensures Valid() && mark == pos
    {
      mark := pos;
    }

    /** reset(): returns to the marked position. */
    method ResetToMark()
      requires Valid()
      modifies this`pos
      ensures Valid() && pos == mark
    {
      pos := mark;
    }
  }

  /**
   * java.util.zip.CRC32 as an accumulator. Its state is abstracted to the
   * bytes folded in since the last reset; the checksum function itself is
   * supplied by the caller (see ZipModel.Codec).
   */
  class Crc32 {
    var folded: seq<byte>

    constructor ()
      ensures folded == []
    {
      folded := [];
    }

    method Reset()
      modifies this
      ensures folded == []
    {
      folded := [];
    }

    method Update(data: seq<byte>)
      modifies this
      ensures folded == old(folded) + data
    {
      folded := folded + data;
    }

    /** getValue(): the CRC-32 of everything folded in since the last reset. */
    function Value(crc32: seq<byte> -> uint32): uint32
      reads this
    {
      crc32(folded)
    }
  }

  /** CheckedOutputStream(raw, sum).write: the bytes go to the buffer and into the checksum. */
  method CheckedWrite(raw: BufferedOutputStream, sum: Crc32, data: seq<byte>)
    requires raw.Valid()
    modifies raw, raw.buf, sum
    ensures raw.Valid() && (raw.buf == old(raw.buf) || fresh(raw.buf))
    ensures raw.Contents() == old(raw.Contents()) + data
    ensures sum.folded == old(sum.folded) + data
  {
    raw.Write(data);
    sum.Update(data);
  }

  // -----------------------------------------------------------------------
  // The buffer's documented behaviour on the text "hello"

  const HELLO: seq<byte> := [104, 101, 108, 108, 111]
  const HEL: seq<byte> := [104, 101, 108]
  const WORLD: seq<byte> := [119, 111, 114, 108, 100]
  const SPACE_WORLD: seq<byte> := [32, 119, 111, 114, 108, 100]
  const HELLO_WORLD: seq<byte> := HELLO + SPACE_WORLD

  /** After writing "hello": "hello", "hel" and "" are prefixes, "hello world" is not. */
  method StartsWithScenario() returns (whole: bool, part: bool, empty: bool, longer: bool)
    ensures whole && part && empty && !longer
  {
    var b := new BufferedOutputStream();
    b.Write(HELLO);
    whole := b.StartsWith(HELLO);
    part := b.StartsWith(HEL);
    empty := b.StartsWith([]);
    longer := b.StartsWith(HELLO_WORLD);
  }

  /** What happens to a buffer holding "hello" after a view of it was made. */
  datatype Followup = Nothing | AppendWorld | ResetOnly | ResetAndWriteWorld

  /** What a view reads: a copy always "hello"; a referencing view sees a refill of the same array. */
  function ViewReads(copyBytes: bool, next: Followup): seq<byte> {
    if !copyBytes && next == ResetAndWriteWorld then WORLD else HELLO
  }

  /** A new default-capacity buffer holding "hello". */
  method HelloBuffer() returns (b: BufferedOutputStream)
    ensures fresh(b) && fresh(b.buf) && b.Valid()
    ensures b.buf.Length == DEFAULT_CAPACITY && b.Contents() == HELLO
  {
    b := new BufferedOutputStream();
    b.Write(HELLO);
  }

  /** A view of "hello" after " world" is appended: the array does not grow, so both views still read "hello". */
  method ViewAfterAppend(copyBytes: bool) returns (seen: seq<byte>)
    ensures seen == HELLO
  {
    var b := HelloBuffer();
    var v := b.CreateInputStream(copyBytes);
    b.Write(SPACE_WORLD);
    assert b.Contents()[..5] == HELLO;
    assert v.buf[..5] == HELLO by {
      if !copyBytes {
        assert v.buf[..5] == b.Contents()[..5];
      }
    }
    seen := v.Remaining();
  }

  /** A view of "hello" after a reset: the bytes stay in the array, so both views still read "hello". */
  method ViewAfterReset(copyBytes: bool) returns (seen: seq<byte>)
    ensures seen == HELLO
  {
    var b := HelloBuffer();
    var v := b.CreateInputStream(copyBytes);
    b.Reset();
    seen := v.Remaining();
  }

  /** A view of "hello" after a reset and "world": the referencing view reads the overwritten array. */
  method ViewAfterRefill(copyBytes: bool) returns (seen: seq<byte>)
    ensures seen == if copyBytes then HELLO else WORLD
  {
    var b := HelloBuffer();
    var v := b.CreateInputStream(copyBytes);
    b.Reset();
    b.Write(WORLD);
    seen := v.Remaining();
  }

  /**
   * Writes "hello" to a new buffer, makes a view, applies the follow-up
   * and reads the view to the end.
   */
  method ViewScenario(copyBytes: bool, next: Followup) returns (seen: seq<byte>)
    ensures seen == ViewReads(copyBytes, next)
  {
    match next {
      case Nothing =>
        var b := HelloBuffer();
        var v := b.CreateInputStream(copyBytes);
        seen := v.Remaining();
      case AppendWorld =>
        seen := ViewAfterAppend(copyBytes);
      case ResetOnly =>
        seen := ViewAfterReset(copyBytes);
      case ResetAndWriteWorld =>
        seen := ViewAfterRefill(copyBytes);
    }
  }
}
