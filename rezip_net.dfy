/**
 * The re-packer of the net.rezipdoc generation: every entry of an archive
 * is decompressed into the level's buffer and checksum and written to the
 * output archive with its size and CRC recomputed, the chosen method, an
 * unknown compressed size and, optionally, all times set to 0. With
 * recursion on, an entry whose name ends in zip or jar is itself re-packed
 * first, into the same buffer, by a level with a buffer of its own.
 */
module NetReZip {
  import opened Common
  import opened Buffers
  import opened Suffixes
  import NetUtils
  import opened ZipModel

  /** Whether the re-packer descends into an entry: recursion on and a zip or jar suffix. */
  predicate Descends(recursive: bool, item: Item) {
    recursive && SuffixMatches(item.entry.name, NetUtils.SUFFIXES_ZIP)
  }

  /** The output entries of one level, one per input entry, or the error that aborts the level. */
  function RezipItems(codec: Codec, compression: int, nullifyTimes: bool, recursive: bool, items: seq<Item>, fuel: nat)
    : Result<seq<Item>>
    decreases fuel, |items| + 2
  {
    if items == [] then Ok([])
    else
      match RezipItems(codec, compression, nullifyTimes, recursive, Init(items), fuel)
      case Err(e) => Err(e)
      case Ok(before) =>
        match RezipItem(codec, compression, nullifyTimes, recursive, Last(items), fuel)
        case Err(e) => Err(e)
        case Ok(out) => Ok(before + [out])
  }

  /** One output entry: its payload with the header restamped for it. */
  function RezipItem(codec: Codec, compression: int, nullifyTimes: bool, recursive: bool, item: Item, fuel: nat)
    : Result<Item>
    decreases fuel, 2
  {
    match Payload(codec, compression, nullifyTimes, recursive, item, fuel)
    case Err(e) => Err(e)
    case Ok(p) => Ok(Item(Restamp(item.entry, p, codec.crc32(p), compression, nullifyTimes), p))
  }

  /** What the buffer holds when the entry is written: its content, or the re-packed nested archive. */
  function Payload(codec: Codec, compression: int, nullifyTimes: bool, recursive: bool, item: Item, fuel: nat)
    : Result<seq<byte>>
    decreases fuel, 1
  {
    if Descends(recursive, item) then NestedPayload(codec, compression, nullifyTimes, recursive, item, fuel)
    else Ok(item.data)
  }

  function NestedPayload(codec: Codec, compression: int, nullifyTimes: bool, recursive: bool, item: Item, fuel: nat)
    : Result<seq<byte>>
    decreases fuel, 0
  {
    if fuel == 0 then Err(NestingTooDeep)
    else
      match codec.read(item.data)
      case None => Err(MalformedArchive)
      case Some(nested) =>
        match RezipItems(codec, compression, nullifyTimes, recursive, nested, fuel - 1)
        case Err(e) => Err(e)
        case Ok(out) => Ok(codec.write(out))
  }

  // -----------------------------------------------------------------------
  // The engine

  class ReZip {
    const compression: bool
    const nullifyTimes: bool
    const recursive: bool

    /** ReZip(compression, nullifyTimes, recursive). */
    constructor (compression: bool, nullifyTimes: bool, recursive: bool)
      ensures this.compression == compression && this.nullifyTimes == nullifyTimes && this.recursive == recursive
    {
      this.compression := compression;
      this.nullifyTimes := nullifyTimes;
      this.recursive := recursive;
    }

    /** ReZip(): stored, times kept, recursive. */
    constructor Default()
      ensures !compression && !nullifyTimes && recursive
    {
      compression := false;
      nullifyTimes := false;
      recursive := true;
    }

    /** The method every output entry gets. */
    function Method(): (m: int)
      ensures ValidMethod(m)
      ensures m == DEFLATED <==> compression
    {
      if compression then DEFLATED else STORED
    }

    /** reZip(zipIn, zipOut): the top level, with a buffer and checksum of its own. */
    method Rezip(codec: Codec, items: seq<Item>, fuel: nat) returns (r: Result<seq<Item>>)
      ensures r == RezipItems(codec, Method(), nullifyTimes, recursive, items, fuel)
      decreases fuel, 4
    {
      var raw := new BufferedOutputStream();
      var sum := new Crc32();
      r := RezipLevel(codec, Method(), items, raw, sum, fuel);
    }

    /**
     * The private reZip: for each entry, reset the buffer and checksum,
     * drain the entry into them, re-pack it when it is a nested archive,
     * and emit the restamped entry with the buffer as its payload.
     */
    method RezipLevel(codec: Codec, entryMethod: int, items: seq<Item>, raw: BufferedOutputStream, sum: Crc32, fuel: nat)
      returns (r: Result<seq<Item>>)
      requires raw.Valid()
      modifies raw, raw.buf, sum
      ensures raw.Valid() && (raw.buf == old(raw.buf) || fresh(raw.buf))
      ensures r == RezipItems(codec, entryMethod, nullifyTimes, recursive, items, fuel)
      decreases fuel, 3
    {
      var out: seq<Item> := [];
      var i := 0;
      while i < |items|
        invariant 0 <= i <= |items|
        invariant raw.Valid() && (raw.buf == old(raw.buf) || fresh(raw.buf))
        invariant RezipItems(codec, entryMethod, nullifyTimes, recursive, items[..i], fuel) == Ok(out)
      {
        assert Init(items[..i + 1]) == items[..i] && Last(items[..i + 1]) == items[i];
        var one := RezipEntry(codec, entryMethod, items[i], raw, sum, fuel);
        if one.Err? {
          assert RezipItems(codec, entryMethod, nullifyTimes, recursive, items[..i + 1], fuel) == Err(one.error);
          RezipErrPropagates(codec, entryMethod, nullifyTimes, recursive, items[..i + 1], items[i + 1..], fuel);
          assert items[..i + 1] + items[i + 1..] == items;
          return Err(one.error);
        }
        out := out + [one.value];
        i := i + 1;
      }
      assert items[..i] == items;
      r := Ok(out);
    }

    /** One entry of the loop. */
    method RezipEntry(codec: Codec, entryMethod: int, item: Item, raw: BufferedOutputStream, sum: Crc32, fuel: nat)
      returns (r: Result<Item>)
      requires raw.Valid()
      modifies raw, raw.buf, sum
      ensures raw.Valid() && (raw.buf == old(raw.buf) || fresh(raw.buf))
      ensures r == RezipItem(codec, entryMethod, nullifyTimes, recursive, item, fuel)
      decreases fuel, 2
    {
      DrainFresh(item.data, raw, sum);
      if recursive {
        var isZip := NetUtils.IsZip(item.entry.name, item.entry.size, raw);
        if isZip {
          var nested := RezipNested(codec, entryMethod, item, raw, sum, fuel);
          if nested.Err? {
            return Err(nested.error);
          }
        }
      }
      assert raw.Contents() == Payload(codec, entryMethod, nullifyTimes, recursive, item, fuel).value;
      var payload := raw.Contents();
      var entry := Restamp(item.entry, payload, sum.Value(codec.crc32), entryMethod, nullifyTimes);
      r := Ok(Item(entry, payload));
    }

    /**
     * The nested archive in the buffer, re-packed back into the buffer: a
     * copying snapshot feeds the nested reader while the buffer and
     * checksum are reset to receive the nested writer's output; the nested
     * level has a buffer and checksum of its own.
     */
    method RezipNested(codec: Codec, entryMethod: int, item: Item, raw: BufferedOutputStream, sum: Crc32, fuel: nat)
      returns (r: Result<()>)
      requires raw.Valid() && raw.Contents() == item.data
      modifies raw, raw.buf, sum
      ensures raw.Valid() && (raw.buf == old(raw.buf) || fresh(raw.buf))
      ensures var p := NestedPayload(codec, entryMethod, nullifyTimes, recursive, item, fuel);
        (p.Err? ==> r == Err(p.error)) && (p.Ok? ==> r.Ok? && raw.Contents() == p.value && sum.folded == p.value)
      decreases fuel, 1
    {
      var snapshot := raw.CreateInputStream(true);
      raw.Reset();
      sum.Reset();
      if fuel == 0 {
        return Err(NestingTooDeep);
      }
      var nested := codec.read(snapshot.Remaining());
      if nested.None? {
        return Err(MalformedArchive);
      }
      var subRaw := new BufferedOutputStream();
      var subSum := new Crc32();
      var inner := RezipLevel(codec, entryMethod, nested.value, subRaw, subSum, fuel - 1);
      if inner.Err? {
        return Err(inner.error);
      }
      CheckedWrite(raw, sum, codec.write(inner.value));
      r := Ok(());
    }
  }

  // -----------------------------------------------------------------------
  // Properties of the re-packed archive

  /** A failing entry makes every level that starts with it fail the same way. */
  lemma {:induction false} RezipErrPropagates(codec: Codec, compression: int, nullifyTimes: bool, recursive: bool,
                                              a: seq<Item>, b: seq<Item>, fuel: nat)
    requires RezipItems(codec, compression, nullifyTimes, recursive, a, fuel).Err?
    ensures RezipItems(codec, compression, nullifyTimes, recursive, a + b, fuel)
      == RezipItems(codec, compression, nullifyTimes, recursive, a, fuel)
    decreases |b|
  {
    if b == [] {
      assert a + b == a;
    } else {
      assert Init(a + b) == a + Init(b);
      RezipErrPropagates(codec, compression, nullifyTimes, recursive, a, Init(b), fuel);
    }
  }

  /** One output entry per input entry, in input order, each the entry's own re-pack. */
  lemma {:induction false} OneToOne(codec: Codec, compression: int, nullifyTimes: bool, recursive: bool,
                                    items: seq<Item>, fuel: nat)
    requires RezipItems(codec, compression, nullifyTimes, recursive, items, fuel).Ok?
    ensures var out := RezipItems(codec, compression, nullifyTimes, recursive, items, fuel).value;
      |out| == |items|
      && forall k :: 0 <= k < |items| ==>
           RezipItem(codec, compression, nullifyTimes, recursive, items[k], fuel) == Ok(out[k])
    decreases |items|
  {
    if items != [] {
      OneToOne(codec, compression, nullifyTimes, recursive, Init(items), fuel);
    }
  }

  /**
   * Every output entry describes its own payload: same name, size the
   * payload's length, CRC the payload's checksum, the level's method, an
   * unknown compressed size, and times zeroed exactly when asked.
   */
  lemma EntryDescribesPayload(codec: Codec, compression: int, nullifyTimes: bool, recursive: bool, item: Item, fuel: nat)
    requires RezipItem(codec, compression, nullifyTimes, recursive, item, fuel).Ok?
    ensures var o := RezipItem(codec, compression, nullifyTimes, recursive, item, fuel).value;
      o.entry.name == item.entry.name
      && o.entry.size == |o.data| && o.entry.crc == codec.crc32(o.data) as int
      && o.entry.compressionMethod == compression && o.entry.compressedSize == -1
      && o.entry.times == (if nullifyTimes then ZERO_TIMES else item.entry.times)
  {
  }

  /** An entry the re-packer does not descend into keeps its content byte for byte. */
  lemma PassThrough(codec: Codec, compression: int, nullifyTimes: bool, recursive: bool, item: Item, fuel: nat)
    requires !Descends(recursive, item)
    ensures RezipItem(codec, compression, nullifyTimes, recursive, item, fuel).Ok?
    ensures RezipItem(codec, compression, nullifyTimes, recursive, item, fuel).value.data == item.data
  {
  }

  /**
   * A nested archive is replaced by the archive written from its own
   * re-packed entries, which carry the same settings as the outer ones.
   */
  lemma NestedRepacked(codec: Codec, compression: int, nullifyTimes: bool, item: Item, nested: seq<Item>, fuel: nat)
    requires Descends(true, item) && fuel > 0 && codec.read(item.data) == Some(nested)
    requires RezipItems(codec, compression, nullifyTimes, true, nested, fuel - 1).Ok?
    ensures var inner := RezipItems(codec, compression, nullifyTimes, true, nested, fuel - 1).value;
      RezipItem(codec, compression, nullifyTimes, true, item, fuel).Ok?
      && RezipItem(codec, compression, nullifyTimes, true, item, fuel).value.data == codec.write(inner)
      && forall k :: 0 <= k < |inner| ==> inner[k].entry.compressionMethod == compression
  {
    var inner := RezipItems(codec, compression, nullifyTimes, true, nested, fuel - 1).value;
    assert NestedPayload(codec, compression, nullifyTimes, true, item, fuel) == Ok(codec.write(inner));
    OneToOne(codec, compression, nullifyTimes, true, nested, fuel - 1);
    forall k | 0 <= k < |inner|
      ensures inner[k].entry.compressionMethod == compression
    {
      EntryDescribesPayload(codec, compression, nullifyTimes, true, nested[k], fuel - 1);
    }
  }

  /**
   * What a re-pack keeps of an entry it reads: the name, the content and,
   * unless they are to be zeroed, the times. Size, CRC, method and
   * compressed size are recomputed, so a codec may read them back as it likes.
   */
  predicate Alike(nullifyTimes: bool, x: Item, y: Item) {
    x.entry.name == y.entry.name && x.data == y.data && (nullifyTimes || x.entry.times == y.entry.times)
  }

  predicate AllAlike(nullifyTimes: bool, xs: seq<Item>, ys: seq<Item>) {
    |xs| == |ys| && forall k :: 0 <= k < |xs| ==> Alike(nullifyTimes, xs[k], ys[k])
  }

  /**
   * A codec that reads back what it wrote up to what a re-pack recomputes:
   * the same entries in order, with the same names and contents, and the
   * same times unless they are zeroed anyway.
   */
  ghost predicate ReadsBack(codec: Codec, nullifyTimes: bool) {
    forall x :: codec.read(codec.write(x)).Some? && AllAlike(nullifyTimes, codec.read(codec.write(x)).value, x)
  }

  /** Entries alike in name, content and kept times re-pack to the same entry. */
  lemma AlikeItemsRezipAlike(codec: Codec, compression: int, nullifyTimes: bool, recursive: bool, x: Item, y: Item, fuel: nat)
    requires Alike(nullifyTimes, x, y)
    ensures RezipItem(codec, compression, nullifyTimes, recursive, x, fuel)
         == RezipItem(codec, compression, nullifyTimes, recursive, y, fuel)
  {
    assert Payload(codec, compression, nullifyTimes, recursive, x, fuel)
        == Payload(codec, compression, nullifyTimes, recursive, y, fuel);
  }

  /** Runs of entries alike one by one re-pack to the same level. */
  lemma {:induction false} AlikeRezipAlike(codec: Codec, compression: int, nullifyTimes: bool, recursive: bool,
                                           xs: seq<Item>, ys: seq<Item>, fuel: nat)
    requires AllAlike(nullifyTimes, xs, ys)
    ensures RezipItems(codec, compression, nullifyTimes, recursive, xs, fuel)
         == RezipItems(codec, compression, nullifyTimes, recursive, ys, fuel)
    decreases |xs|
  {
    if xs != [] {
      assert AllAlike(nullifyTimes, Init(xs), Init(ys));
      AlikeRezipAlike(codec, compression, nullifyTimes, recursive, Init(xs), Init(ys), fuel);
      AlikeItemsRezipAlike(codec, compression, nullifyTimes, recursive, Last(xs), Last(ys), fuel);
    }
  }

  /**
   * Re-packing is idempotent when the codec reads back what it writes, up to
   * the header fields a re-pack recomputes: re-packing the output with the
   * same settings reproduces it, which is what makes the output a normal form.
   */
  lemma {:induction false} RezipIdempotent(codec: Codec, compression: int, nullifyTimes: bool, recursive: bool,
                                           items: seq<Item>, fuel: nat)
    requires ReadsBack(codec, nullifyTimes)
    requires RezipItems(codec, compression, nullifyTimes, recursive, items, fuel).Ok?
    ensures var out := RezipItems(codec, compression, nullifyTimes, recursive, items, fuel).value;
      RezipItems(codec, compression, nullifyTimes, recursive, out, fuel) == Ok(out)
    decreases fuel, |items|
  {
    if items != [] {
      var out := RezipItems(codec, compression, nullifyTimes, recursive, items, fuel).value;
      var before := RezipItems(codec, compression, nullifyTimes, recursive, Init(items), fuel).value;
      var last := RezipItem(codec, compression, nullifyTimes, recursive, Last(items), fuel).value;
      assert out == before + [last];
      RezipIdempotent(codec, compression, nullifyTimes, recursive, Init(items), fuel);
      RezipItemIdempotent(codec, compression, nullifyTimes, recursive, Last(items), fuel);
      assert Init(out) == before && Last(out) == last;
    }
  }

  lemma {:induction false} RezipItemIdempotent(codec: Codec, compression: int, nullifyTimes: bool, recursive: bool,
                                               item: Item, fuel: nat)
    requires ReadsBack(codec, nullifyTimes)
    requires RezipItem(codec, compression, nullifyTimes, recursive, item, fuel).Ok?
    ensures var o := RezipItem(codec, compression, nullifyTimes, recursive, item, fuel).value;
      RezipItem(codec, compression, nullifyTimes, recursive, o, fuel) == Ok(o)
    decreases fuel, 0
  {
    var o := RezipItem(codec, compression, nullifyTimes, recursive, item, fuel).value;
    assert Descends(recursive, o) == Descends(recursive, item);
    if Descends(recursive, item) {
      assert NestedPayload(codec, compression, nullifyTimes, recursive, item, fuel).Ok?;
      assert fuel > 0 && codec.read(item.data).Some?;
      var nested := codec.read(item.data).value;
      assert RezipItems(codec, compression, nullifyTimes, recursive, nested, fuel - 1).Ok?;
      var inner := RezipItems(codec, compression, nullifyTimes, recursive, nested, fuel - 1).value;
      assert o.data == codec.write(inner);
      assert NestedPayload(codec, compression, nullifyTimes, recursive, o, fuel) == Ok(o.data) by {
        var again := codec.read(codec.write(inner)).value;
        assert codec.read(o.data) == Some(again);
        RezipIdempotent(codec, compression, nullifyTimes, recursive, nested, fuel - 1);
        AlikeRezipAlike(codec, compression, nullifyTimes, recursive, again, inner, fuel - 1);
      }
    }
  }

  // -----------------------------------------------------------------------
  // The depth bound

  /**
   * A level that did not run out of nesting depth comes out the same with
   * one more level allowed: its entries, or an error other than the depth bound.
   */
  lemma {:induction false} RezipFuelStable(codec: Codec, compression: int, nullifyTimes: bool, recursive: bool,
                                           items: seq<Item>, fuel: nat)
    requires RezipItems(codec, compression, nullifyTimes, recursive, items, fuel) != Err(NestingTooDeep)
    ensures RezipItems(codec, compression, nullifyTimes, recursive, items, fuel + 1)
      == RezipItems(codec, compression, nullifyTimes, recursive, items, fuel)
    decreases fuel, |items| + 2
  {
    if items != [] {
      RezipFuelStable(codec, compression, nullifyTimes, recursive, Init(items), fuel);
      if RezipItems(codec, compression, nullifyTimes, recursive, Init(items), fuel).Ok? {
        ItemFuelStable(codec, compression, nullifyTimes, recursive, Last(items), fuel);
      }
    }
  }

  lemma {:induction false} ItemFuelStable(codec: Codec, compression: int, nullifyTimes: bool, recursive: bool,
                                          item: Item, fuel: nat)
    requires RezipItem(codec, compression, nullifyTimes, recursive, item, fuel) != Err(NestingTooDeep)
    ensures RezipItem(codec, compression, nullifyTimes, recursive, item, fuel + 1)
      == RezipItem(codec, compression, nullifyTimes, recursive, item, fuel)
    decreases fuel, 1
  {
    if Descends(recursive, item) {
      NestedFuelStable(codec, compression, nullifyTimes, recursive, item, fuel);
    }
  }

  lemma {:induction false} NestedFuelStable(codec: Codec, compression: int, nullifyTimes: bool, recursive: bool,
                                            item: Item, fuel: nat)
    requires NestedPayload(codec, compression, nullifyTimes, recursive, item, fuel) != Err(NestingTooDeep)
    ensures NestedPayload(codec, compression, nullifyTimes, recursive, item, fuel + 1)
      == NestedPayload(codec, compression, nullifyTimes, recursive, item, fuel)
    decreases fuel, 0
  {
    var nested := codec.read(item.data);
    if nested.Some? {
      RezipFuelStable(codec, compression, nullifyTimes, recursive, nested.value, fuel - 1);
    }
  }

  /** A level that succeeds with some depth bound succeeds, with the same entries, with any larger one. */
  lemma {:induction false} RezipFuelMonotone(codec: Codec, compression: int, nullifyTimes: bool, recursive: bool,
                                             items: seq<Item>, fuel: nat, more: nat)
    requires RezipItems(codec, compression, nullifyTimes, recursive, items, fuel).Ok? && fuel <= more
    ensures RezipItems(codec, compression, nullifyTimes, recursive, items, more)
      == RezipItems(codec, compression, nullifyTimes, recursive, items, fuel)
    decreases more - fuel
  {
    if fuel < more {
      RezipFuelStable(codec, compression, nullifyTimes, recursive, items, fuel);
      RezipFuelMonotone(codec, compression, nullifyTimes, recursive, items, fuel + 1, more);
    }
  }
}
