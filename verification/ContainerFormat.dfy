/** Object container files: blocks of records, and what a whole file decodes to. */
module ContainerFormat {
  import opened Wire
  import opened Datums
  import opened Schemas
  import opened Values
  import opened Decoding

  /** A compression codec. */
  datatype Codec = Codec(pack: Bytes -> Bytes, unpack: Bytes -> Option<Bytes>)

  ghost predicate Lossless(codec: Codec) {
    forall b: Bytes :: codec.unpack(codec.pack(b)) == Some(b)
  }

  const SYNC_SIZE: nat := 16

  /** What the header of a file fixes, and the reader's limits: not positive means no limit. */
  datatype Format = Format(cfg: Config, g: Graph, depth: nat, s: Schema, sync: Bytes, codec: Codec, maxBytes: int, maxRecords: int)

  // --- reading ---

  datatype FileBlock = FileBlock(count: nat, data: Bytes)

  /** The record count and the packed size that open a block. */
  function ReadCounts(f: Format, b: Bytes): (r: Option<(nat, nat, Bytes)>)
    ensures r.Some? ==> |r.value.2| < |b|
  {
    match Wire.ReadLong(b)
    case Fail(_) => None
    case Ok(count, b1) =>
      if count < 0 || (f.maxRecords > 0 && count > f.maxRecords) then None
      else
        match Wire.ReadLong(b1)
        case Fail(_) => None
        case Ok(size, b2) => if size < 0 || (f.maxBytes > 0 && size > f.maxBytes) then None else Some((count, size, b2))
  }

  /** The packed bytes and the sync marker that close it, decompressed. */
  function Unpack(f: Format, size: nat, b: Bytes): (r: Option<(Bytes, Bytes)>)
    ensures r.Some? ==> |r.value.1| <= |b|
  {
    match ReadRaw(b, size)
    case Fail(_) => None
    case Ok(packed, b1) =>
      match ReadRaw(b1, SYNC_SIZE)
      case Fail(_) => None
      case Ok(sync, b2) =>
        if sync != f.sync then None
        else
          match f.codec.unpack(packed)
          case None => None
          case Some(data) => Some((data, b2))
  }

  /** One whole block. */
  function ReadFileBlock(f: Format, b: Bytes): (r: Option<(FileBlock, Bytes)>)
    ensures r.Some? ==> |r.value.1| < |b| && (r.value.0.count == 0 ==> r.value.0.data == [])
  {
    match ReadCounts(f, b)
    case None => None
    case Some((count, size, b1)) =>
      match Unpack(f, size, b1)
      case None => None
      case Some((data, b2)) => if count == 0 && data != [] then None else Some((FileBlock(count, data), b2))
  }

  /** Exactly `count` records, with no byte left over. */
  function ReadRecords(f: Format, data: Bytes, count: nat): (r: Option<seq<Value>>)
    ensures r.Some? ==> |r.value| == count
    decreases count
  {
    if count == 0 then if data == [] then Some([]) else None
    else
      match Read(f.cfg, f.g, f.depth, f.s, data)
      case Fail(_) => None
      case Ok(v, rest) =>
        match ReadRecords(f, rest, count - 1)
        case None => None
        case Some(vs) => Some([v] + vs)
  }

  /** The records of all blocks, or nothing unless the file is sound to its last byte. */
  function ReadFile(f: Format, b: Bytes): Option<seq<Value>>
    decreases |b|
  {
    if b == [] then Some([])
    else
      match ReadFileBlock(f, b)
      case None => None
      case Some((block, rest)) =>
        match ReadRecords(f, block.data, block.count)
        case None => None
        case Some(vs) =>
          match ReadFile(f, rest)
          case None => None
          case Some(ws) => Some(vs + ws)
  }

  function Follow(vs: Option<seq<Value>>, ws: Option<seq<Value>>): Option<seq<Value>> {
    if vs.Some? && ws.Some? then Some(vs.value + ws.value) else None
  }

  lemma FileStep(f: Format, b: Bytes)
    requires b != []
    ensures ReadFile(f, b)
         == match ReadFileBlock(f, b)
            case None => None
            case Some((block, rest)) => Follow(ReadRecords(f, block.data, block.count), ReadFile(f, rest))
  {
  }

  lemma EmptyBlockStep(f: Format, ws: Option<seq<Value>>)
    ensures Follow(ReadRecords(f, [], 0), ws) == ws
  {
    if ws.Some? {
      assert [] + ws.value == ws.value;
    }
  }

  /** The declared counts of a sound file. */
  function DeclaredCounts(f: Format, b: Bytes): seq<nat>
    decreases |b|
  {
    if b == [] then []
    else
      match ReadFileBlock(f, b)
      case None => []
      case Some((block, rest)) => [block.count] + DeclaredCounts(f, rest)
  }

  function Sum(counts: seq<nat>): nat {
    if counts == [] then 0 else counts[0] + Sum(counts[1..])
  }

  /** A sound file holds as many records as its blocks declare together. */
  lemma {:induction false} FileCounts(f: Format, b: Bytes)
    requires ReadFile(f, b).Some?
    ensures |ReadFile(f, b).value| == Sum(DeclaredCounts(f, b))
    decreases |b|
  {
    if b != [] {
      var (block, rest) := ReadFileBlock(f, b).value;
      FileCounts(f, rest);
      assert DeclaredCounts(f, b)[1..] == DeclaredCounts(f, rest);
    }
  }

  // --- writing ---

  function Concat(records: seq<Bytes>): Bytes {
    if records == [] then [] else Concat(records[..|records| - 1]) + records[|records| - 1]
  }

  function EncodeFileBlock(f: Format, records: seq<Bytes>): Bytes {
    EncodeLong(|records|) + (EncodeBytes(f.codec.pack(Concat(records))) + f.sync)
  }

  function EncodeFile(f: Format, blocks: seq<seq<Bytes>>): Bytes {
    if blocks == [] then [] else EncodeFile(f, blocks[..|blocks| - 1]) + EncodeFileBlock(f, blocks[|blocks| - 1])
  }

  function Flatten(blocks: seq<seq<Bytes>>): seq<Bytes> {
    if blocks == [] then [] else Flatten(blocks[..|blocks| - 1]) + blocks[|blocks| - 1]
  }

  // --- round trip ---

  /** `record` reads as `v`, whatever follows it. */
  ghost predicate Readable(f: Format, record: Bytes, v: Value) {
    forall suffix: Bytes :: Read(f.cfg, f.g, f.depth, f.s, record + suffix) == Ok(v, suffix)
  }

  ghost predicate AllReadable(f: Format, records: seq<Bytes>, vs: seq<Value>) {
    |records| == |vs| && forall k :: 0 <= k < |records| ==> Readable(f, records[k], vs[k])
  }

  /** The block respects the widths of the wire and the limits of the reader. */
  ghost predicate Acceptable(f: Format, records: seq<Bytes>) {
    var size := |f.codec.pack(Concat(records))|;
    && Int64(|records|) && Int64(size)
    && (f.maxRecords > 0 ==> |records| <= f.maxRecords)
    && (f.maxBytes > 0 ==> size <= f.maxBytes)
  }

  lemma {:induction false} ConcatFront(records: seq<Bytes>)
    requires records != []
    ensures Concat(records) == records[0] + Concat(records[1..])
  {
    var n := |records|;
    if n > 1 {
      ConcatFront(records[..n - 1]);
      assert records[..n - 1][1..] == records[1..][..n - 2];
      Regroup(records[0], Concat(records[1..][..n - 2]), records[n - 1]);
    }
  }

  lemma {:induction false} RecordsRoundTrip(f: Format, records: seq<Bytes>, vs: seq<Value>)
    requires AllReadable(f, records, vs)
    ensures ReadRecords(f, Concat(records), |records|) == Some(vs)
    decreases |records|
  {
    hide Read;
    if records != [] {
      ConcatFront(records);
      RecordsRoundTrip(f, records[1..], vs[1..]);
      assert vs == [vs[0]] + vs[1..];
      assert Readable(f, records[0], vs[0]);
    }
  }

  lemma BlockRoundTrip(f: Format, records: seq<Bytes>, suffix: Bytes)
    requires Lossless(f.codec) && |f.sync| == SYNC_SIZE && Acceptable(f, records)
    ensures ReadFileBlock(f, EncodeFileBlock(f, records) + suffix) == Some((FileBlock(|records|, Concat(records)), suffix))
  {
    hide Wire.ReadLong, Concat, ReadFileBlock, EncodeLong, Lossless;
    var data := Concat(records);
    var packed := f.codec.pack(data);
    Unpacks(f.codec, data);
    NoRecordsNoBytes(records);
    BlockParts(f, |records|, packed, data, suffix);
    Reassociate(EncodeLong(|records|), EncodeLong(|packed|), packed, f.sync, suffix);
  }

  lemma Reassociate(a: Bytes, b: Bytes, c: Bytes, d: Bytes, e: Bytes)
    ensures (a + ((b + c) + d)) + e == a + (b + (c + (d + e)))
  {
  }

  lemma Unpacks(codec: Codec, data: Bytes)
    requires Lossless(codec)
    ensures codec.unpack(codec.pack(data)) == Some(data)
  {
  }

  lemma BlockParts(f: Format, count: nat, packed: Bytes, data: Bytes, suffix: Bytes)
    requires |f.sync| == SYNC_SIZE && f.codec.unpack(packed) == Some(data) && (count == 0 ==> data == [])
    requires Int64(count) && Int64(|packed|)
    requires (f.maxRecords > 0 ==> count <= f.maxRecords) && (f.maxBytes > 0 ==> |packed| <= f.maxBytes)
    ensures ReadFileBlock(f, EncodeLong(count) + (EncodeLong(|packed|) + (packed + (f.sync + suffix))))
         == Some((FileBlock(count, data), suffix))
  {
    hide Wire.ReadLong, EncodeLong;
    LongRoundTrip(count, EncodeLong(|packed|) + (packed + (f.sync + suffix)));
    LongRoundTrip(|packed|, packed + (f.sync + suffix));
    RawRoundTrip(packed, f.sync + suffix);
    RawRoundTrip(f.sync, suffix);
  }

  lemma NoRecordsNoBytes(records: seq<Bytes>)
    ensures |records| == 0 ==> Concat(records) == []
  {
  }

  lemma {:induction false} FileFront(f: Format, blocks: seq<seq<Bytes>>)
    requires blocks != []
    ensures EncodeFile(f, blocks) == EncodeFileBlock(f, blocks[0]) + EncodeFile(f, blocks[1..])
  {
    hide EncodeFileBlock;
    var n := |blocks|;
    if n > 1 {
      FileFront(f, blocks[..n - 1]);
      assert blocks[..n - 1][1..] == blocks[1..][..n - 2];
      Regroup(EncodeFileBlock(f, blocks[0]), EncodeFile(f, blocks[1..][..n - 2]), EncodeFileBlock(f, blocks[n - 1]));
    }
  }

  lemma {:induction false} FlattenFront(blocks: seq<seq<Bytes>>)
    requires blocks != []
    ensures Flatten(blocks) == blocks[0] + Flatten(blocks[1..])
  {
    var n := |blocks|;
    if n > 1 {
      FlattenFront(blocks[..n - 1]);
      assert blocks[..n - 1][1..] == blocks[1..][..n - 2];
      Regroup(blocks[0], Flatten(blocks[1..][..n - 2]), blocks[n - 1]);
    }
  }

  /** A file of readable records decodes to exactly their values, in order. */
  lemma {:induction false} FileRoundTrip(f: Format, blocks: seq<seq<Bytes>>, vs: seq<Value>)
    requires Lossless(f.codec) && |f.sync| == SYNC_SIZE
    requires forall k :: 0 <= k < |blocks| ==> Acceptable(f, blocks[k])
    requires AllReadable(f, Flatten(blocks), vs)
    ensures ReadFile(f, EncodeFile(f, blocks)) == Some(vs)
    decreases |blocks|
  {
    hide Read, Lossless, EncodeFileBlock, Concat, Acceptable, Readable, ReadFileBlock, ReadRecords;
    if blocks != [] {
      FileFront(f, blocks);
      FlattenFront(blocks);
      var n := |blocks[0]|;
      assert Flatten(blocks)[..n] == blocks[0] && Flatten(blocks)[n..] == Flatten(blocks[1..]);
      assert AllReadable(f, blocks[0], vs[..n]) && AllReadable(f, Flatten(blocks[1..]), vs[n..]);
      BlockRoundTrip(f, blocks[0], EncodeFile(f, blocks[1..]));
      RecordsRoundTrip(f, blocks[0], vs[..n]);
      FileRoundTrip(f, blocks[1..], vs[n..]);
      assert vs == vs[..n] + vs[n..];
    }
  }
}
