/** Container files that are not sound: foreign sync markers, exceeded limits, missing and spare bytes. */
module ContainerRefusals {
  import opened Wire
  import opened Values
  import opened Decoding
  import opened ContainerFormat
  import opened Locality

  /** A block is accepted exactly if its parts are there: counts within the limits, the packed bytes, the file's marker. */
  lemma BlockExact(f: Format, count: int, size: int, packed: Bytes, sync: Bytes, rest: Bytes)
    requires Int64(count) && Int64(size) && |sync| == 16
    requires size >= 0 ==> |packed| == size
    ensures var b := EncodeLong(count) + (EncodeLong(size) + (packed + (sync + rest)));
            var data := f.codec.unpack(packed);
            var r := ReadFileBlock(f, b);
            r == if count >= 0 && (f.maxRecords > 0 ==> count <= f.maxRecords)
               && size >= 0 && (f.maxBytes > 0 ==> size <= f.maxBytes)
               && sync == f.sync && data.Some? && (count == 0 ==> data.value == [])
            then Some((FileBlock(count, data.value), rest))
            else None
  {
    hide Wire.ReadLong, EncodeLong;
    LongRoundTrip(count, EncodeLong(size) + (packed + (sync + rest)));
    LongRoundTrip(size, packed + (sync + rest));
    if size >= 0 {
      RawRoundTrip(packed, sync + rest);
      RawRoundTrip(sync, rest);
    }
  }

  /** Records followed by bytes that the count does not cover are refused. */
  lemma {:induction false} LeftoverRefused(f: Format, records: seq<Bytes>, vs: seq<Value>, extra: Bytes)
    requires AllReadable(f, records, vs) && extra != []
    ensures ReadRecords(f, Concat(records) + extra, |records|).None?
    decreases |records|
  {
    hide Read;
    if records != [] {
      ConcatFront(records);
      Regroup(records[0], Concat(records[1..]), extra);
      LeftoverRefused(f, records[1..], vs[1..], extra);
      assert Readable(f, records[0], vs[0]);
    } else {
      assert Concat(records) + extra == extra;
    }
  }

  /** What a block decodes to does not depend on what follows it. */
  lemma BlockIgnoresSuffix(f: Format, b: Bytes, suffix: Bytes)
    requires ReadFileBlock(f, b).Some?
    ensures var (block, rest) := ReadFileBlock(f, b).value;
            ReadFileBlock(f, b + suffix) == Some((block, rest + suffix))
  {
    hide Wire.ReadLong, Unpack;
    LongIgnoresSuffix(b, suffix);
    var n := Wire.ReadLong(b);
    LongIgnoresSuffix(n.rest, suffix);
    var m := Wire.ReadLong(n.rest);
    UnpackIgnoresSuffix(f, m.value, m.rest, suffix);
  }

  lemma LongIgnoresSuffix(b: Bytes, suffix: Bytes)
    requires Wire.ReadLong(b).Ok?
    ensures Wire.ReadLong(b + suffix) == Ok(Wire.ReadLong(b).value, Wire.ReadLong(b).rest + suffix)
  {
    hide Wire.ReadLong;
    NumbersLocal(b, b + suffix);
    var k := |b| - |Wire.ReadLong(b).rest|;
    assert (b + suffix)[..k] == b[..k] && (b + suffix)[k..] == b[k..] + suffix;
  }

  lemma UnpackIgnoresSuffix(f: Format, size: nat, b: Bytes, suffix: Bytes)
    requires Unpack(f, size, b).Some?
    ensures var (data, rest) := Unpack(f, size, b).value;
            Unpack(f, size, b + suffix) == Some((data, rest + suffix))
  {
    var c := b[size..];
    assert (b + suffix)[..size] == b[..size] && (b + suffix)[size..] == c + suffix;
    assert (c + suffix)[..SYNC_SIZE] == c[..SYNC_SIZE] && (c + suffix)[SYNC_SIZE..] == c[SYNC_SIZE..] + suffix;
  }

  /** A block cut short anywhere is refused. */
  lemma BlockTruncated(f: Format, records: seq<Bytes>, k: nat)
    requires Lossless(f.codec) && |f.sync| == SYNC_SIZE && Acceptable(f, records) && k < |EncodeFileBlock(f, records)|
    ensures ReadFileBlock(f, EncodeFileBlock(f, records)[..k]).None?
  {
    hide ReadFileBlock, Lossless, EncodeFileBlock, Acceptable;
    var b := EncodeFileBlock(f, records);
    assert b == b + [] && b == b[..k] + b[k..];
    BlockRoundTrip(f, records, []);
    if ReadFileBlock(f, b[..k]).Some? {
      BlockIgnoresSuffix(f, b[..k], b[k..]);
      assert false;
    }
  }

  /** A file that ends inside a block is refused, however many sound blocks come before. */
  lemma {:induction false} FileTruncated(f: Format, blocks: seq<seq<Bytes>>, records: seq<Bytes>, k: nat)
    requires Lossless(f.codec) && |f.sync| == SYNC_SIZE && Acceptable(f, records) && 0 < k < |EncodeFileBlock(f, records)|
    requires forall i :: 0 <= i < |blocks| ==> Acceptable(f, blocks[i])
    ensures ReadFile(f, EncodeFile(f, blocks) + EncodeFileBlock(f, records)[..k]).None?
    decreases |blocks|
  {
    hide Lossless, Acceptable, ReadFileBlock, ReadRecords, EncodeFileBlock;
    var end := EncodeFileBlock(f, records)[..k];
    if blocks == [] {
      assert EncodeFile(f, blocks) + end == end;
      BlockTruncated(f, records, k);
    } else {
      FileFront(f, blocks);
      Regroup(EncodeFileBlock(f, blocks[0]), EncodeFile(f, blocks[1..]), end);
      BlockRoundTrip(f, blocks[0], EncodeFile(f, blocks[1..]) + end);
      FileTruncated(f, blocks[1..], records, k);
    }
  }
}
