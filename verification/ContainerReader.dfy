/** Reading a container file record by record, from a source that delivers it in any chunks. */
module ContainerReader {
  import opened Wire
  import opened Values
  import opened Decoding
  import opened BufferedReader
  import opened GenericReader
  import opened ContainerFormat

  const CHUNK_SIZE: nat := 0x1_0000

  /** Reads the bytes of a block, in one piece when small and piecewise otherwise. */
  method ReadBlockData(r: Reader, size: nat) returns (data: Bytes)
    requires r.Valid()
    modifies r, r.buf
    ensures r.Valid() && (old(r.error).Some? ==> r.error.Some?)
    ensures old(r.error).None? ==> r.Agrees(ReadRaw(old(r.Remaining()), size), data, old(r.Ending()))
  {
    if size <= CHUNK_SIZE {
      var b := new byte[size](_ => 0);
      r.ReadInto(b);
      data := b[..];
    } else {
      data := ReadPieces(r, size);
    }
  }

  method ReadPieces(r: Reader, size: nat) returns (data: Bytes)
    requires r.Valid()
    modifies r, r.buf
    ensures r.Valid() && (old(r.error).Some? ==> r.error.Some?)
    ensures old(r.error).None? ==> r.Agrees(ReadRaw(old(r.Remaining()), size), data, old(r.Ending()))
  {
    hide Flow, FlowEnd, ReadRaw;
    data := [];
    ghost var whole := r.Remaining();
    while |data| < size
      invariant r.Valid() && |data| <= size && (old(r.error).Some? ==> r.error.Some?)
      invariant old(r.error).None? ==> r.error.None? && data + r.Remaining() == whole && r.Ending() == old(r.Ending())
    {
      var n := if size - |data| <= CHUNK_SIZE then size - |data| else CHUNK_SIZE;
      var piece := ReadPiece(r, n);
      if r.error.Some? {
        RawShort(whole, size);
        return;
      }
      Regroup(data, piece, r.Remaining());
      data := data + piece;
    }
    RawRoundTrip(data, r.Remaining());
  }

  lemma RawShort(b: Bytes, size: nat)
    ensures |b| < size ==> ReadRaw(b, size) == Fail(UnexpectedEof)
  {
  }

  /** A reader over bytes of its own. */
  method ReaderOver(cfg: Config, data: Bytes) returns (r: Reader)
    ensures fresh(r) && fresh(r.buf) && r.Valid() && r.error.None? && r.cfg == cfg && r.Remaining() == data
    ensures !r.attached
  {
    var b := new byte[|data|](i requires 0 <= i < |data| => data[i]);
    assert b[..] == data;
    r := new Reader.FromBytes(cfg, b);
  }

  /** One piece of a larger read. */
  method ReadPiece(r: Reader, n: nat) returns (piece: Bytes)
    requires r.Valid()
    modifies r, r.buf
    ensures r.Valid() && |piece| == n && (old(r.error).Some? ==> r.error.Some?)
    ensures old(r.error).None? && r.error.None? ==>
              && old(r.Remaining()) == piece + r.Remaining() && r.Ending() == old(r.Ending())
    ensures old(r.error).None? && r.error.Some? ==>
              |old(r.Remaining())| < n && r.error == Some(Blame(UnexpectedEof, old(r.Ending())))
  {
    var b := new byte[n](_ => 0);
    r.ReadInto(b);
    piece := b[..];
  }

  class Decoder {
    const f: Format
    const reader: Reader
    var records: Reader
    var count: int

    ghost predicate Valid()
      reads this, reader, records
    {
      && reader.Valid() && records.Valid()
      && records != reader && records.buf != reader.buf
      && records.cfg == f.cfg && !records.attached && (count > 0 && reader.error.None? ==> records.error.None?)
    }

    /** The values still to come; nothing unless the rest of the file is sound. */
    ghost function Outlook(): Option<seq<Value>>
      reads this, reader, reader.buf, records, records.buf
      requires Valid()
    {
      if reader.Ending() != Eof then None
      else if count <= 0 then ReadFile(f, reader.Remaining())
      else Follow(ReadRecords(f, records.Remaining(), count), ReadFile(f, reader.Remaining()))
    }

    /** Decodes what follows the header in `reader`. */
    constructor (f: Format, reader: Reader)
      requires reader.Valid()
      ensures this.f == f && this.reader == reader && fresh(records) && fresh(records.buf)
      ensures Valid() && count == 0
    {
      this.f, this.reader, count := f, reader, 0;
      var b := new byte[0];
      records := new Reader.FromBytes(f.cfg, b);
    }

    /** Reads the next block into `records`; only a clean end of input is a plain end of file. */
    method ReadBlock()
      requires Valid() && reader.error.None? && count <= 0
      modifies this, reader, reader.buf
      ensures Valid() && (records == old(records) || (fresh(records) && fresh(records.buf)))
      ensures reader.error.None? ==>
                && count >= 0 && old(reader.Remaining()) != [] && reader.Ending() == old(reader.Ending())
                && ReadFileBlock(f, old(reader.Remaining()))
                   == Some((FileBlock(count, records.Remaining()), reader.Remaining()))
      ensures reader.error == Some(Eof) ==> old(reader.Remaining()) == [] && old(reader.Ending()) == Eof
      ensures reader.error.Some? && reader.error != Some(Eof) ==>
                old(reader.Ending()) != Eof
                || (old(reader.Remaining()) != [] && ReadFileBlock(f, old(reader.Remaining())).None?)
    {
      hide ReadCounts, Unpack, ReadFile, ReadRecords, Read;
      var _ := reader.Peek();
      if reader.error == Some(Eof) {
        return;
      }
      var n, size, ok := ReadSizes();
      if !ok {
        return;
      }
      var data;
      data, ok := ReadPacked(size);
      if !ok || (n == 0 && data != []) {
        reader.error := Some(Invalid);
        return;
      }
      count := n;
      records := ReaderOver(f.cfg, data);
    }

    /** The counts that open a block. */
    method ReadSizes() returns (n: int, size: int, ok: bool)
      requires reader.Valid()
      modifies reader, reader.buf
      ensures reader.Valid() && (ok <==> reader.error.None?) && reader.error != Some(Eof)
      ensures old(reader.error).None? ==>
                match ReadCounts(f, old(reader.Remaining()))
                case None => !ok
                case Some((count, bytes, rest)) =>
                  ok && n == count && size == bytes && reader.Remaining() == rest && reader.Ending() == old(reader.Ending())
      ensures old(reader.error).Some? ==> !ok
      ensures ok ==> n >= 0 && size >= 0
    {
      hide Wire.ReadLong;
      ok := false;
      size := 0;
      n := reader.ReadLong();
      if reader.error.Some? {
        reader.error := Some(Invalid);
        return;
      }
      if n < 0 || (f.maxRecords > 0 && n > f.maxRecords) {
        reader.ReportError(Invalid);
        return;
      }
      size := reader.ReadLong();
      if reader.error.Some? {
        reader.error := Some(Invalid);
        return;
      }
      if size < 0 || (f.maxBytes > 0 && size > f.maxBytes) {
        reader.ReportError(Invalid);
        return;
      }
      ok := true;
    }

    /** The packed bytes of a block, its sync marker checked, decompressed. */
    method ReadPacked(size: nat) returns (data: Bytes, ok: bool)
      requires reader.Valid() && reader.error.None?
      modifies reader, reader.buf
      ensures reader.Valid()
      ensures match Unpack(f, size, old(reader.Remaining()))
              case None => !ok
              case Some((unpacked, rest)) =>
                && ok && data == unpacked && reader.error.None?
                && reader.Remaining() == rest && reader.Ending() == old(reader.Ending())
    {
      ok := false;
      data := ReadBlockData(reader, size);
      if reader.error.Some? {
        return;
      }
      var sync := new byte[SYNC_SIZE](_ => 0);
      reader.ReadInto(sync);
      if reader.error.Some? || sync[..] != f.sync {
        return;
      }
      var unpacked := f.codec.unpack(data);
      if unpacked.None? {
        return;
      }
      data, ok := unpacked.value, true;
    }

    /** Whether another record is there; empty blocks are passed over. */
    method HasNext() returns (more: bool)
      requires Valid()
      modifies this, reader, reader.buf
      ensures Valid() && (records == old(records) || (fresh(records) && fresh(records.buf)))
      ensures more ==> reader.error.None? && count > 0
      ensures more ==> reader.Ending() == old(reader.Ending()) || old(reader.error).Some?
      ensures more && old(reader.error).None? ==>
                |reader.Remaining()| < old(|reader.Remaining()|)
                || (reader.Remaining() == old(reader.Remaining()) && count == old(count))
      ensures more && old(reader.error).None? ==> Outlook() == old(Outlook())
      ensures !more ==> reader.error.Some? && (old(reader.error).Some? ==> reader.error == old(reader.error))
      ensures !more && old(reader.error).None? ==>
                if reader.error == Some(Eof) then old(Outlook()) == Some([]) else old(Outlook()) == None
    {
      hide ReadFileBlock, Wire.ReadLong, Read;
      ghost var outlook := Outlook();
      while count <= 0 && reader.error.None?
        invariant Valid() && (records == old(records) || (fresh(records) && fresh(records.buf)))
        invariant old(reader.error).Some? ==> reader.error == old(reader.error)
        invariant old(reader.error).None? && reader.error.None? ==>
                    && reader.Ending() == old(reader.Ending())
                    && (|reader.Remaining()| < old(|reader.Remaining()|)
                        || (reader.Remaining() == old(reader.Remaining()) && count == old(count)))
        invariant old(reader.error).None? ==>
                    if reader.error.None? then Outlook() == outlook
                    else if reader.error == Some(Eof) then outlook == Some([]) else outlook == None
        decreases if reader.error.Some? then 0 else 1 + |reader.Remaining()|, count <= 0
      {
        if reader.Remaining() != [] {
          FileStep(f, reader.Remaining());
        }
        ReadBlock();
        EmptyBlockStep(f, ReadFile(f, reader.Remaining()));
      }
      more := reader.error.None?;
    }

    /** The next value; the last record of a block must use up its bytes. */
    method Decode() returns (v: Value, ok: bool)
      requires Valid()
      modifies this`count, reader`error, records, records.buf
      ensures Valid()
      ensures old(reader.error).Some? ==> !ok && reader.error == old(reader.error)
      ensures old(reader.error).None? && old(count) <= 0 ==> !ok && reader.error.None?
      ensures old(reader.error).None? && old(count) > 0 ==>
                if ok then reader.error.None? && old(Outlook()) == Follow(Some([v]), Outlook()) && count == old(count) - 1
                else reader.error.Some? && reader.error != Some(Eof) && old(Outlook()) == None
    {
      hide Read, ReadFile;
      v, ok := VNull, false;
      if reader.error.Some? || count <= 0 {
        return;
      }
      ghost var data, n, rest := records.Remaining(), count, ReadFile(f, reader.Remaining());
      count := count - 1;
      v := ReadNext(records, f.g, f.depth, f.s);
      RecordsStep(f, data, n);
      assert records.Valid() ==> (Left() <==> records.Remaining() != []);
      if records.error.Some? {
        reader.error := Some(Invalid);
      } else if count == 0 && Left() {
        reader.error := Some(Invalid);
      }
      ok := reader.error.None?;
      if ok {
        FollowStep(v, ReadRecords(f, records.Remaining(), count), rest);
        if count == 0 {
          EmptyBlockStep(f, rest);
        }
      }
    }

    /** Whether the block still has bytes. */
    predicate Left()
      reads this, records
    {
      records.head != records.tail
    }

    /** What the stream failed with, a clean end of file being no failure. */
    function Error(): Option<Wire.Error>
      reads this, reader
    {
      if reader.error == Some(Eof) then None else reader.error
    }
  }

  lemma RecordsStep(f: Format, data: Bytes, n: nat)
    requires n > 0
    ensures ReadRecords(f, data, n)
         == match Read(f.cfg, f.g, f.depth, f.s, data)
            case Fail(_) => None
            case Ok(v, rest) => Follow(Some([v]), ReadRecords(f, rest, n - 1))
  {
    hide Read;
  }

  lemma FollowStep(v: Value, vs: Option<seq<Value>>, ws: Option<seq<Value>>)
    ensures Follow(Follow(Some([v]), vs), ws) == Follow(Some([v]), Follow(vs, ws))
  {
    if vs.Some? && ws.Some? {
      assert ([v] + vs.value) + ws.value == [v] + (vs.value + ws.value);
    }
  }

  /**
   * Reads to the end. It ends without an error exactly when the whole file is sound: every
   * block consumed to its last byte and as many values returned as the blocks declare.
   */
  method ReadAll(d: Decoder) returns (vs: seq<Value>)
    requires d.Valid() && d.reader.error.None?
    modifies d, d.reader, d.reader.buf, d.records, d.records.buf
    ensures d.Valid() && d.reader.error.Some?
    ensures match old(d.Outlook())
            case Some(all) => d.Error() == None && vs == all
            case None => d.Error().Some?
  {
    vs := [];
    ghost var outlook := d.Outlook();
    FollowNothing(outlook);
    var more := d.HasNext();
    while more
      invariant d.Valid() && (d.records == old(d.records) || (fresh(d.records) && fresh(d.records.buf)))
      invariant more ==> d.reader.error.None? && d.count > 0 && outlook == Follow(Some(vs), d.Outlook())
      invariant !more ==> d.reader.error.Some? && outlook == (if d.reader.error == Some(Eof) then Some(vs) else None)
      decreases more, |d.reader.Remaining()|, d.count
    {
      var v, ok := d.Decode();
      if !ok {
        return;
      }
      FollowMore(vs, v, d.Outlook());
      vs := vs + [v];
      more := d.HasNext();
      FollowEnd(vs);
    }
  }

  lemma FollowNothing(ws: Option<seq<Value>>)
    ensures Follow(Some([]), ws) == ws
  {
    if ws.Some? {
      assert [] + ws.value == ws.value;
    }
  }

  lemma FollowMore(vs: seq<Value>, v: Value, ws: Option<seq<Value>>)
    ensures Follow(Some(vs), Follow(Some([v]), ws)) == Follow(Some(vs + [v]), ws)
  {
    if ws.Some? {
      assert vs + ([v] + ws.value) == (vs + [v]) + ws.value;
    }
  }

  lemma FollowEnd(vs: seq<Value>)
    ensures Follow(Some(vs), Some([])) == Some(vs)
  {
    assert vs + [] == vs;
  }

  // --- finding the end of a file to append to ---

  /** One block jumped over: counts, as many bytes as announced, the sync marker. */
  function SkipFrame(sync: Bytes, b: Bytes): (r: Option<Bytes>)
    ensures r.Some? ==> |r.value| < |b|
  {
    match Wire.ReadLong(b)
    case Fail(_) => None
    case Ok(count, b1) =>
      if count < 0 then None
      else
        match Wire.ReadLong(b1)
        case Fail(_) => None
        case Ok(size, b2) =>
          if size < 0 || size > |b2| then None
          else
            match ReadRaw(b2[size..], SYNC_SIZE)
            case Fail(_) => None
            case Ok(mark, b3) => if mark == sync then Some(b3) else None
  }

  /** Whole blocks and nothing else. */
  predicate Framed(sync: Bytes, b: Bytes)
    decreases |b|
  {
    b == [] || (SkipFrame(sync, b).Some? && Framed(sync, SkipFrame(sync, b).value))
  }

  /** Moves to the end of a file; it fails unless whole blocks lead there. */
  method SkipToEnd(r: Reader, sync: Bytes) returns (ok: bool)
    requires r.Valid() && r.error.None? && |sync| == SYNC_SIZE
    modifies r, r.buf
    ensures r.Valid()
    ensures ok <==> old(r.Ending()) == Eof && Framed(sync, old(r.Remaining()))
  {
    hide SkipFrame;
    ok := false;
    while true
      invariant r.Valid()
      invariant r.error.None? ==> r.Ending() == old(r.Ending()) && (Framed(sync, r.Remaining()) <==> Framed(sync, old(r.Remaining())))
      invariant r.error.Some? ==> r.error != Some(Eof) && (old(r.Ending()) != Eof || !Framed(sync, old(r.Remaining())))
      decreases if r.error.Some? then 0 else 1 + |r.Remaining()|
    {
      if r.error.Some? {
        return;
      }
      var _ := r.Peek();
      if r.error == Some(Eof) {
        return true;
      }
      if r.error.Some? {
        return;
      }
      var framed := SkipOne(r, sync);
      if !framed {
        return;
      }
    }
  }

  method SkipOne(r: Reader, sync: Bytes) returns (framed: bool)
    requires r.Valid() && r.error.None? && |sync| == SYNC_SIZE
    modifies r, r.buf
    ensures r.Valid() && (framed ==> r.error.None?)
    ensures match SkipFrame(sync, old(r.Remaining()))
            case None => !framed
            case Some(rest) => framed && r.Remaining() == rest && r.Ending() == old(r.Ending())
  {
    hide Wire.ReadLong, Flow, FlowEnd;
    framed := false;
    var count := r.ReadLong();
    if r.error.Some? || count < 0 {
      return;
    }
    var size := r.ReadLong();
    if size < 0 {
      return;
    }
    r.SkipNBytesInt64(size);
    if r.error.Some? {
      return;
    }
    var mark := new byte[SYNC_SIZE](_ => 0);
    r.ReadInto(mark);
    if mark[..] != sync && r.error != Some(Eof) {
      r.error := Some(Invalid);
    }
    framed := r.error.None?;
  }
}
