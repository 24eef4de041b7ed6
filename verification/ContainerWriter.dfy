/** Writing a container file: records buffered into blocks, output failures that stop everything. */
module ContainerWriter {
  import opened Wire
  import opened Datums
  import opened Values
  import opened BufferedReader
  import opened ContainerFormat
  import opened ContainerReader

  /** An output; `faults` says how its coming writes fail, if they do, and after how many bytes. */
  class Sink {
    var data: Bytes
    var faults: seq<Option<nat>>

    constructor (faults: seq<Option<nat>>)
      ensures data == [] && this.faults == faults
    {
      data, this.faults := [], faults;
    }

    method Write(bs: Bytes) returns (ok: bool)
      modifies this
      ensures old(faults) == [] ==> ok && faults == []
      ensures ok ==> data == old(data) + bs
      ensures exists k :: 0 <= k <= |bs| && data == old(data) + bs[..k]
    {
      var fault := None;
      if faults != [] {
        fault, faults := faults[0], faults[1..];
      }
      var n := if fault.Some? && fault.value < |bs| then fault.value else |bs|;
      data := data + bs[..n];
      assert bs[..|bs|] == bs;
      ok := fault.None?;
    }
  }

  lemma BlockAppended(f: Format, base: Bytes, blocks: seq<seq<Bytes>>, records: seq<Bytes>)
    ensures base + EncodeFile(f, blocks + [records]) == (base + EncodeFile(f, blocks)) + EncodeFileBlock(f, records)
    ensures Flatten(blocks + [records]) + [] == Flatten(blocks) + records
    ensures Concat([]) == []
  {
    hide EncodeFileBlock;
    assert (blocks + [records])[..|blocks|] == blocks;
    Regroup(base, EncodeFile(f, blocks), EncodeFileBlock(f, records));
  }

  lemma EmptyFile(f: Format)
    ensures EncodeFile(f, []) == [] && Flatten([]) == [] && ContainerFormat.Concat([]) == []
  {
  }

  lemma RecordAppended(blocks: seq<seq<Bytes>>, pending: seq<Bytes>, record: Bytes)
    ensures Concat(pending + [record]) == Concat(pending) + record
    ensures Flatten(blocks) + (pending + [record]) == (Flatten(blocks) + pending) + [record]
  {
    assert (pending + [record])[..|pending|] == pending;
  }

  /** No limit cuts these records off yet: a limit of zero is none, and a negative one is always reached. */
  predicate Open(records: seq<Bytes>, blockLength: int, blockSize: int) {
    && (blockLength > 0 ==> |records| < blockLength)
    && (blockSize > 0 ==> records == [] || |Concat(records)| < blockSize)
    && (blockLength < 0 || blockSize < 0 ==> records == [])
  }

  /** No limit was reached before the last record. */
  predicate Minimal(block: seq<Bytes>, blockLength: int, blockSize: int) {
    block != [] && Open(block[..|block| - 1], blockLength, blockSize)
  }

  lemma OpenIsMinimal(records: seq<Bytes>, blockLength: int, blockSize: int)
    requires records != [] && Open(records, blockLength, blockSize)
    ensures Minimal(records, blockLength, blockSize)
  {
    assert |Concat(records)| == |Concat(records[..|records| - 1])| + |records[|records| - 1]|;
  }

  lemma AddedIsMinimal(records: seq<Bytes>, record: Bytes, blockLength: int, blockSize: int)
    requires Open(records, blockLength, blockSize)
    ensures Minimal(records + [record], blockLength, blockSize)
  {
    assert (records + [record])[..|records|] == records;
  }

  class Encoder {
    var f: Format
    const blockLength: int
    const blockSize: int
    var sink: Sink
    var out: Bytes
    var writerFailed: bool
    var buf: Bytes
    var count: nat
    var failed: bool
    var closed: bool

    ghost var base: Bytes
    ghost var blocks: seq<seq<Bytes>>
    ghost var pending: seq<Bytes>

    /**
     * Unless an output failure was reported, the output holds whole blocks, none of them closed
     * later than a limit was reached, and the buffer the rest.
     */
    ghost predicate Stored()
      reads this, sink
    {
      && failed == writerFailed
      && (!failed ==>
            && out == []
            && sink.data == base + EncodeFile(f, blocks)
            && buf == Concat(pending) && count == |pending|
            && forall k :: 0 <= k < |blocks| ==> Minimal(blocks[k], blockLength, blockSize))
    }

    /** What is buffered has reached no limit. */
    ghost predicate Sound()
      reads this, sink
    {
      && Stored()
      && (!failed ==>
            && (blockLength > 0 ==> count < blockLength)
            && (blockSize > 0 ==> count == 0 || |buf| < blockSize)
            && (blockLength < 0 || blockSize < 0 ==> count == 0))
    }

    /** A closed encoder has nothing left to write. */
    ghost predicate Valid()
      reads this, sink
    {
      Sound() && (closed && !failed ==> pending == [])
    }

    /** The records `p`, the last of them new, were buffered, or cut into a block if they reached a limit. */
    ghost predicate Took(before: seq<seq<Bytes>>, p: seq<Bytes>)
      reads this
    {
      if Open(p, blockLength, blockSize) then blocks == before && pending == p else blocks == before + [p] && pending == []
    }

    /** The records `p` were cut into a block, if there were any. */
    ghost predicate Drained(before: seq<seq<Bytes>>, p: seq<Bytes>)
      reads this
    {
      blocks == (if p == [] then before else before + [p]) && pending == []
    }

    /** Every block of the file was closed because it reached a limit, but for one that closing the file cut off. */
    ghost predicate Trim()
      reads this
    {
      forall k :: 0 <= k < |blocks| - (if closed then 1 else 0) ==> !Open(blocks[k], blockLength, blockSize)
    }

    /** Every record accepted since the output was opened, in order. */
    ghost function Accepted(): seq<Bytes>
      reads this
    {
      Flatten(blocks) + pending
    }

    /** Starts a file whose header is written to a new output. */
    constructor (f: Format, blockLength: int, blockSize: int, sink: Sink, header: Bytes)
      requires sink.data == header
      ensures this.f == f && this.sink == sink && base == header && !failed && !closed
      ensures this.blockLength == blockLength && this.blockSize == blockSize
      ensures Valid() && blocks == [] && pending == [] && Accepted() == []
    {
      this.f, this.blockLength, this.blockSize, this.sink := f, blockLength, blockSize, sink;
      out, writerFailed, buf, count, failed, closed := [], false, [], 0, false, false;
      base, blocks, pending := header, [], [];
    }

    predicate ShouldWriteDataBlock()
      reads this
    {
      (blockLength != 0 && count >= blockLength) || (blockSize != 0 && |buf| >= blockSize)
    }

    /** Sends the buffered output; a failure is remembered and nothing is sent after it. */
    method FlushOutput() returns (ok: bool)
      modifies this`out, this`writerFailed, sink
      ensures old(writerFailed) ==> !ok && writerFailed && sink.data == old(sink.data)
      ensures ok <==> !writerFailed
      ensures ok ==> out == [] && sink.data == old(sink.data) + old(out)
      ensures old(sink.faults) == [] ==> sink.faults == [] && writerFailed == old(writerFailed)
    {
      if writerFailed {
        return false;
      }
      ok := sink.Write(out);
      if ok {
        out := [];
      } else {
        writerFailed := true;
      }
    }

    /** Sends the buffered records as one block. */
    method WriterBlock() returns (ok: bool)
      requires Stored() && !failed && Minimal(pending, blockLength, blockSize)
      modifies this, sink
      ensures closed == old(closed) && sink == old(sink) && f == old(f) && base == old(base) && failed == old(failed)
      ensures ok <==> !writerFailed
      ensures ok ==> Valid() && pending == [] && blocks == old(blocks) + [old(pending)] && Accepted() == old(Accepted())
      ensures old(sink.faults) == [] ==> ok && sink.faults == []
    {
      hide EncodeFile, Flatten, Concat, Minimal;
      var packed := f.codec.pack(buf);
      out := out + (EncodeLong(count) + (EncodeBytes(packed) + f.sync));
      count, buf := 0, [];
      ok := FlushOutput();
      BlockAppended(f, base, blocks, pending);
      blocks, pending := blocks + [pending], [];
    }

    /** Counts a record already in the buffer and writes the block it completes, if it does. */
    method Count(ghost record: Bytes) returns (ok: bool)
      requires !failed && !writerFailed && out == [] && sink.data == base + EncodeFile(f, blocks)
      requires buf == Concat(pending) + record && count == |pending| && !closed
      requires Open(pending, blockLength, blockSize)
      requires forall k :: 0 <= k < |blocks| ==> Minimal(blocks[k], blockLength, blockSize)
      modifies this, sink
      ensures Valid() && closed == old(closed) && sink == old(sink) && f == old(f) && base == old(base)
      ensures ok <==> !failed
      ensures ok ==> Accepted() == old(Accepted()) + [record] && Took(old(blocks), old(pending) + [record])
      ensures old(sink.faults) == [] ==> ok && sink.faults == []
    {
      hide EncodeFile, Flatten, Concat, Minimal;
      RecordAppended(blocks, pending, record);
      AddedIsMinimal(pending, record, blockLength, blockSize);
      count := count + 1;
      pending := pending + [record];
      ok := true;
      if ShouldWriteDataBlock() {
        ok := WriterBlock();
        if !ok {
          failed := true;
          return;
        }
      }
      failed := writerFailed;
    }

    /** Accepts bytes the caller encoded. */
    method Write(record: Bytes) returns (ok: bool)
      requires Valid()
      modifies this, sink
      ensures Valid() && closed == old(closed) && sink == old(sink) && f == old(f) && base == old(base)
      ensures old(closed) || old(failed) ==> !ok && failed == old(failed) && Accepted() == old(Accepted()) && sink.data == old(sink.data)
      ensures old(closed) || old(failed) ==> blocks == old(blocks) && pending == old(pending)
      ensures !old(closed) && !old(failed) ==> (ok <==> !failed)
      ensures !old(closed) && ok ==> Accepted() == old(Accepted()) + [record] && Took(old(blocks), old(pending) + [record])
      ensures old(sink.faults) == [] ==> sink.faults == [] && failed == old(failed)
    {
      if closed || failed {
        return false;
      }
      buf := buf + record;
      ok := Count(record);
    }

    /**
     * Encodes a value. One that cannot be encoded may have left bytes in the buffer; they are
     * cut off again and the next attempt starts clean.
     */
    method Encode(record: Option<Bytes>, partial: Bytes) returns (ok: bool)
      requires Valid()
      modifies this, sink
      ensures Valid() && closed == old(closed) && sink == old(sink) && f == old(f) && base == old(base)
      ensures old(closed) || old(failed) || record.None? ==>
                !ok && failed == old(failed) && Accepted() == old(Accepted()) && sink.data == old(sink.data)
      ensures old(closed) || old(failed) || record.None? ==> blocks == old(blocks) && pending == old(pending)
      ensures !old(closed) && !old(failed) && record.Some? ==> (ok <==> !failed)
      ensures ok ==> record.Some? && Accepted() == old(Accepted()) + [record.value]
                     && Took(old(blocks), old(pending) + [record.value])
      ensures old(sink.faults) == [] ==> sink.faults == [] && failed == old(failed)
    {
      if closed || failed {
        return false;
      }
      var start := |buf|;
      if record.None? {
        buf := buf + partial;
        buf := buf[..start];
        return false;
      }
      buf := buf + record.value;
      ok := Count(record.value);
    }

    /** Writes what is buffered; an output failure already reported is not repeated. */
    method Flush() returns (ok: bool)
      requires Sound()
      modifies this, sink
      ensures Valid() && closed == old(closed) && sink == old(sink) && f == old(f) && base == old(base)
      ensures old(failed) ==> ok && failed && Accepted() == old(Accepted()) && sink.data == old(sink.data)
      ensures !old(failed) ==> (ok <==> !failed) && (ok ==> Accepted() == old(Accepted()) && Drained(old(blocks), old(pending)))
      ensures old(sink.faults) == [] ==> sink.faults == [] && failed == old(failed)
    {
      if failed {
        return true;
      }
      if count == 0 {
        failed := writerFailed;
        return !writerFailed;
      }
      OpenIsMinimal(pending, blockLength, blockSize);
      ok := WriterBlock();
      if !ok {
        failed := true;
        return;
      }
      failed := writerFailed;
    }

    /** Flushes once and takes no more records; `released` is whether the codec let go. */
    method Close(released: bool) returns (ok: bool)
      requires Valid()
      modifies this, sink
      ensures Valid() && closed && sink == old(sink) && f == old(f) && base == old(base)
      ensures old(closed) ==> ok && failed == old(failed) && Accepted() == old(Accepted()) && sink.data == old(sink.data)
      ensures old(failed) ==> failed && sink.data == old(sink.data)
      ensures !failed ==> Accepted() == old(Accepted())
      ensures !failed && !old(closed) ==> Drained(old(blocks), old(pending))
      ensures !failed && old(closed) ==> blocks == old(blocks) && pending == []
      ensures old(sink.faults) == [] ==> sink.faults == [] && failed == old(failed)
    {
      if closed {
        return true;
      }
      closed := true;
      ok := Flush();
      ok := ok && released;
    }

    /**
     * Starts a new file on a new output, with a sync marker of its own; only this ends the
     * silence after a failure.
     */
    method Reset(to: Sink, sync: Bytes, header: Bytes) returns (ok: bool)
      requires Valid() && to != sink && to.data == []
      modifies this, sink, to
      ensures Valid()
      ensures ok ==> sink == to && f == old(f).(sync := sync) && base == header && !failed && !closed && blocks == [] && Accepted() == []
      ensures old(failed) ==> old(sink).data == old(sink.data)
      ensures !ok ==> failed
      ensures old(sink.faults) == [] && old(to.faults) == [] && !old(failed) ==> ok && to.faults == []
    {
      hide Flatten, EncodeFile, ContainerFormat.Concat;
      if count > 0 {
        ok := Flush();
        if !ok {
          return;
        }
      }
      f := f.(sync := sync);
      ok := Reopen(to, header);
    }

    /** Writes a header to a new output and forgets the old one. */
    method Reopen(to: Sink, header: Bytes) returns (ok: bool)
      requires to.data == []
      modifies this, to
      ensures Valid() && sink == to && f == old(f)
      ensures if ok then base == header && !failed && !closed && blocks == [] && Accepted() == [] else failed
      ensures old(to.faults) == [] ==> ok && to.faults == []
    {
      hide Flatten, EncodeFile, ContainerFormat.Concat;
      EmptyFile(f);
      sink, out, writerFailed := to, header, false;
      ok := FlushOutput();
      if !ok {
        failed := true;
        return;
      }
      buf, count, failed, closed := [], 0, false, false;
      base, blocks, pending := header, [], [];
      assert [] + header == header && header + [] == header;
    }
  }

  // --- whole runs ---

  datatype Op =
    | EncodeOp(record: Option<Bytes>, partial: Bytes)
    | WriteOp(bytes: Bytes)
    | FlushOp
    | CloseOp(released: bool)

  /** The records a run takes in when no output fails: until it is closed, all that can be encoded. */
  function Taken(ops: seq<Op>, closed: bool): seq<Bytes> {
    if ops == [] then []
    else
      match ops[0]
      case EncodeOp(record, _) => (if closed || record.None? then [] else [record.value]) + Taken(ops[1..], closed)
      case WriteOp(bytes) => (if closed then [] else [bytes]) + Taken(ops[1..], closed)
      case FlushOp => Taken(ops[1..], closed)
      case CloseOp(_) => Taken(ops[1..], true)
  }

  predicate Unflushed(ops: seq<Op>) {
    forall k :: 0 <= k < |ops| ==> !ops[k].FlushOp?
  }

  /**
   * How the records of a file are divided when nobody flushed it. No block is empty or closed
   * later than a limit was reached, and every block but the last reached one.
   */
  ghost predicate Divided(blocks: seq<seq<Bytes>>, blockLength: int, blockSize: int) {
    forall k :: 0 <= k < |blocks| ==>
                  && Minimal(blocks[k], blockLength, blockSize)
                  && (k < |blocks| - 1 ==> !Open(blocks[k], blockLength, blockSize))
  }

  /** With a block length alone, all blocks but the last hold exactly so many records. */
  lemma DividedByLength(blocks: seq<seq<Bytes>>, blockLength: int)
    requires blockLength > 0 && Divided(blocks, blockLength, 0)
    ensures forall k :: 0 <= k < |blocks| - 1 ==> |blocks[k]| == blockLength
    ensures blocks != [] ==> 1 <= |blocks[|blocks| - 1]| <= blockLength
  {
    forall k | 0 <= k < |blocks|
      ensures |blocks[k]| >= 1 && |blocks[k]| <= blockLength && (k < |blocks| - 1 ==> |blocks[k]| == blockLength)
    {
      assert Minimal(blocks[k], blockLength, 0);
    }
  }

  /** With a block size alone, all blocks but the last hold at least so many bytes, and fewer without their last record. */
  lemma DividedBySize(blocks: seq<seq<Bytes>>, blockSize: int, k: nat)
    requires blockSize > 0 && Divided(blocks, 0, blockSize) && k < |blocks|
    ensures k < |blocks| - 1 ==> |Concat(blocks[k])| >= blockSize
    ensures |blocks[k]| > 1 ==> |Concat(blocks[k][..|blocks[k]| - 1])| < blockSize
  {
    assert Minimal(blocks[k], 0, blockSize);
  }

  method Step(e: Encoder, op: Op) returns (ok: bool)
    requires e.Valid()
    modifies e, e.sink
    ensures e.Valid() && e.sink == old(e.sink) && e.f == old(e.f) && e.base == old(e.base) && e.closed == (old(e.closed) || op.CloseOp?)
    ensures old(e.failed) ==> e.failed && e.sink.data == old(e.sink.data)
    ensures !e.failed ==> e.Accepted() == old(e.Accepted()) + Taken([op], old(e.closed))
    ensures !e.failed && !op.FlushOp? && old(e.Trim()) ==> e.Trim()
    ensures old(e.sink.faults) == [] ==> e.sink.faults == [] && e.failed == old(e.failed)
  {
    hide Flatten, EncodeFile;
    match op
    case EncodeOp(record, partial) => ok := e.Encode(record, partial);
    case WriteOp(bytes) => ok := e.Write(bytes);
    case FlushOp => ok := e.Flush();
    case CloseOp(released) => ok := e.Close(released);
  }

  lemma TakenStep(ops: seq<Op>, closed: bool)
    requires ops != []
    ensures Taken(ops, closed) == Taken([ops[0]], closed) + Taken(ops[1..], closed || ops[0].CloseOp?)
  {
    assert [ops[0]][1..] == [];
  }

  /** Any interleaving of operations: what was taken in, or an output failure and silence. */
  method RunAll(e: Encoder, ops: seq<Op>)
    requires e.Valid()
    modifies e, e.sink
    ensures e.Valid() && e.sink == old(e.sink) && e.f == old(e.f) && e.base == old(e.base)
    ensures old(e.failed) ==> e.failed && e.sink.data == old(e.sink.data)
    ensures !e.failed ==> e.Accepted() == old(e.Accepted()) + Taken(ops, old(e.closed))
    ensures !e.failed && Unflushed(ops) && old(e.Trim()) ==> e.Trim()
    ensures old(e.sink.faults) == [] ==> e.sink.faults == [] && e.failed == old(e.failed)
  {
    hide Taken, Flatten, EncodeFile, ContainerFormat.Concat;
    NoneTaken(e.closed);
    for i := 0 to |ops|
      invariant e.Valid() && e.sink == old(e.sink) && e.f == old(e.f) && e.base == old(e.base)
      invariant old(e.failed) ==> e.failed && e.sink.data == old(e.sink.data)
      invariant !e.failed ==>
                  e.Accepted() + Taken(ops[i..], e.closed) == old(e.Accepted()) + Taken(ops, old(e.closed))
      invariant !e.failed && Unflushed(ops) && old(e.Trim()) ==> e.Trim()
      invariant old(e.sink.faults) == [] ==> e.sink.faults == [] && e.failed == old(e.failed)
    {
      assert ops[i..][0] == ops[i] && ops[i..][1..] == ops[i + 1..];
      TakenStep(ops[i..], e.closed);
      Regroup(e.Accepted(), Taken([ops[i]], e.closed), Taken(ops[i + 1..], e.closed || ops[i].CloseOp?));
      var _ := Step(e, ops[i]);
    }
    NoneTaken(e.closed);
  }

  lemma NoneTaken(closed: bool)
    ensures Taken([], closed) == []
  {
  }

  /**
   * A whole file: after any run on a sound output and a final close, the file is the header
   * and blocks of exactly the records taken in, and reading it back returns their values in
   * order, whatever the block length and size and whatever buffer the reader uses.
   */
  method WriteThenRead(f: Format, blockLength: int, blockSize: int, header: Bytes, ops: seq<Op>, size: nat,
                       ghost vs: seq<Value>)
    returns (file: Bytes, err: bool, values: seq<Value>, ghost blocks: seq<seq<Bytes>>)
    requires size > 0 && Lossless(f.codec) && |f.sync| == SYNC_SIZE && AllReadable(f, Taken(ops, false), vs)
    ensures file == header + EncodeFile(f, blocks) && Flatten(blocks) == Taken(ops, false)
    ensures Unflushed(ops) ==> Divided(blocks, blockLength, blockSize)
    ensures (forall k :: 0 <= k < |blocks| ==> Acceptable(f, blocks[k])) ==> !err && values == vs
  {
    hide Taken, Flatten, EncodeFile, Lossless, AllReadable, Acceptable, ReadFile;
    file, blocks := WriteFile(f, blockLength, blockSize, header, ops);
    DropPrefix(header, EncodeFile(f, blocks));
    var rest := file[|header|..];
    if forall k :: 0 <= k < |blocks| ==> Acceptable(f, blocks[k]) {
      FileRoundTrip(f, blocks, vs);
    }
    err, values := ReadBack(f, rest, size);
  }

  /** Runs the operations on a sound output and closes it. */
  method WriteFile(f: Format, blockLength: int, blockSize: int, header: Bytes, ops: seq<Op>)
    returns (file: Bytes, ghost blocks: seq<seq<Bytes>>)
    ensures file == header + EncodeFile(f, blocks) && Flatten(blocks) == Taken(ops, false)
    ensures Unflushed(ops) ==> Divided(blocks, blockLength, blockSize)
  {
    hide Taken, Flatten, EncodeFile, ContainerFormat.Concat;
    var sink := new Sink([]);
    sink.data := header;
    var e := new Encoder(f, blockLength, blockSize, sink, header);
    RunAll(e, ops);
    var _ := e.Close(true);
    assert e.Accepted() == Flatten(e.blocks);
    blocks, file := e.blocks, sink.data;
  }

  /**
   * A second file from the same encoder, whatever became of the first: after a reset onto a
   * sound output it holds exactly the records taken in since, under the new sync marker.
   */
  method WriteAnotherFile(e: Encoder, to: Sink, sync: Bytes, header: Bytes, ops: seq<Op>)
    returns (ok: bool, ghost blocks: seq<seq<Bytes>>)
    requires e.Valid() && to != e.sink && to.data == [] && to.faults == []
    modifies e, e.sink, to
    ensures ok ==> to.data == header + EncodeFile(old(e.f).(sync := sync), blocks) && Flatten(blocks) == Taken(ops, false)
    ensures ok && Unflushed(ops) ==> Divided(blocks, e.blockLength, e.blockSize)
    ensures old(e.sink.faults) == [] && !old(e.failed) ==> ok
  {
    hide Taken, Flatten, EncodeFile, ContainerFormat.Concat;
    ghost var sound := e.sink.faults == [] && !e.failed;
    ok := e.Reset(to, sync, header);
    blocks := [];
    if ok {
      RunAll(e, ops);
      var _ := e.Close(true);
      ok := !e.failed;
      if ok {
        assert e.Accepted() == Flatten(e.blocks);
        blocks := e.blocks;
      }
    }
  }

  /** Reads all of a file after its header. */
  method ReadBack(f: Format, b: Bytes, size: nat) returns (err: bool, values: seq<Value>)
    requires size > 0
    ensures match ReadFile(f, b)
            case Some(all) => !err && values == all
            case None => err
  {
    hide ReadFile;
    OneChunk(b);
    var r := new Reader(f.cfg, [Chunk(b, None)], size);
    var d := new Decoder(f, r);
    assert d.Outlook() == ReadFile(f, b);
    values := ReadAll(d);
    err := d.Error().Some?;
  }

  lemma OneChunk(b: Bytes)
    ensures Flow([Chunk(b, None)], 0) == b && FlowEnd([Chunk(b, None)], 0) == Eof
  {
  }
}
