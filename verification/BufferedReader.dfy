/** The buffered reader: refills, fast and slow varint paths, skips, all independent of chunking. */
module BufferedReader {
  import opened Wire
  import opened Schemas
  import opened Values
  import opened Skipping
  import opened Decoding
  import Decimals

  const MAX_EMPTY_READS: nat := 100
  const MAX_INT: int := 0x7fff_ffff_ffff_ffff
  const SLAB_SIZE: nat := 1024

  /** What one underlying read may deliver: bytes, and the error that comes with them. */
  datatype Chunk = Chunk(bytes: Bytes, err: Option<Error>)

  // --- what a source will ever deliver ---

  /** All bytes up to the first error, the end, or too many empty reads in a row. */
  function Flow(script: seq<Chunk>, emptyReads: nat): Bytes
    decreases |script|
  {
    if script == [] then []
    else if script[0].bytes == [] then
      if script[0].err.Some? || emptyReads >= MAX_EMPTY_READS then [] else Flow(script[1..], emptyReads + 1)
    else script[0].bytes + if script[0].err.Some? then [] else Flow(script[1..], 0)
  }

  /** The error that follows those bytes. */
  function FlowEnd(script: seq<Chunk>, emptyReads: nat): Error
    decreases |script|
  {
    if script == [] then Eof
    else if script[0].err.Some? then script[0].err.value
    else if script[0].bytes != [] then FlowEnd(script[1..], 0)
    else if emptyReads >= MAX_EMPTY_READS then NoProgress
    else FlowEnd(script[1..], emptyReads + 1)
  }

  function Joined(parts: seq<Bytes>): Bytes {
    if parts == [] then [] else parts[0] + Joined(parts[1..])
  }

  /** A source that hands out the parts one by one, with up to `gap` empty reads before each. */
  function Handing(parts: seq<Bytes>, gap: nat, last: Option<Error>): seq<Chunk> {
    if parts == [] then []
    else
      seq(gap, _ => Chunk([], None)) + [Chunk(parts[0], if |parts| == 1 then last else None)]
      + Handing(parts[1..], gap, last)
  }

  /** However the input is cut, what flows is the whole of it and then the end. */
  lemma {:induction false} FlowOfParts(parts: seq<Bytes>, gap: nat, last: Option<Error>)
    requires forall k :: 0 <= k < |parts| ==> parts[k] != []
    requires gap <= 100
    ensures Flow(Handing(parts, gap, last), 0) == Joined(parts)
    ensures FlowEnd(Handing(parts, gap, last), 0) == if last.Some? && parts != [] then last.value else Eof
  {
    if parts != [] {
      FlowOfParts(parts[1..], gap, last);
      var c := Chunk(parts[0], if |parts| == 1 then last else None);
      var rest := Handing(parts[1..], gap, last);
      assert Handing(parts, gap, last) == seq(gap, _ => Chunk([], None)) + ([c] + rest);
      FlowPastGap(gap, [c] + rest, 0);
    }
  }

  lemma {:induction false} FlowPastGap(gap: nat, rest: seq<Chunk>, emptyReads: nat)
    requires gap + emptyReads <= MAX_EMPTY_READS
    ensures Flow(seq(gap, _ => Chunk([], None)) + rest, emptyReads) == Flow(rest, emptyReads + gap)
    ensures FlowEnd(seq(gap, _ => Chunk([], None)) + rest, emptyReads) == FlowEnd(rest, emptyReads + gap)
    decreases gap
  {
    var gaps := seq(gap, _ => Chunk([], None));
    if gap == 0 {
      assert gaps + rest == rest;
    } else {
      assert (gaps + rest)[1..] == seq(gap - 1, _ => Chunk([], None)) + rest;
      FlowPastGap(gap - 1, rest, emptyReads + 1);
    }
  }

  /** A source that goes on delivering nothing is given up, whatever it would have delivered later. */
  lemma FlowStops(gap: nat, rest: seq<Chunk>)
    requires gap > 100
    ensures Flow(seq(gap, _ => Chunk([], None)) + rest, 0) == []
    ensures FlowEnd(seq(gap, _ => Chunk([], None)) + rest, 0) == NoProgress
  {
    var more := seq(gap - 100, _ => Chunk([], None)) + rest;
    assert seq(gap, _ => Chunk([], None)) + rest == seq(100, _ => Chunk([], None)) + more;
    FlowPastGap(100, more, 0);
    assert more[0] == Chunk([], None);
  }

  /** How the reader reports a failure, given the error its source ends with. */
  function Blame(e: Error, ending: Error): Error {
    match e
    case Eof => ending
    case UnexpectedEof => if ending == Eof then UnexpectedEof else ending
    case _ => e
  }

  // --- resuming a varint ---

  /** What a varint decodes to when some low bits are already known. */
  function Resume(value: nat, scale: nat, o: Outcome<nat>): Outcome<nat> {
    match o
    case Ok(v, rest) => Ok(value + scale * v, rest)
    case Fail(e) => Fail(e)
  }

  /** The value once a group of seven bits at the given scale is known. */
  function Gain(value: nat, scale: nat, bits: nat): nat {
    value + scale * bits
  }

  lemma ResumeByte(b: Bytes, i: nat, size: nat, last: byte, value: nat, scale: nat)
    requires i < |b| && size > 0 && last < 0x80
    ensures b[i] >= 0x80 && size > 1 ==>
              Resume(value, scale, ReadVarint(b[i..], size, last))
              == Resume(Gain(value, scale, b[i] - 0x80), scale * 0x80, ReadVarint(b[i + 1..], size - 1, last))
    ensures b[i] < 0x80 && (size > 1 || b[i] <= last) ==>
              Resume(value, scale, ReadVarint(b[i..], size, last)) == Ok(Gain(value, scale, b[i]), b[i + 1..])
    ensures size == 1 && b[i] > last ==> Resume(value, scale, ReadVarint(b[i..], size, last)) == Fail(Invalid)
  {
    assert b[i..][0] == b[i] && b[i..][1..] == b[i + 1..];
    if b[i] >= 0x80 && size > 1 {
      match ReadVarint(b[i + 1..], size - 1, last)
      case Fail(_) =>
      case Ok(v, _) => assert scale * (b[i] - 0x80 + 0x80 * v) == scale * (b[i] - 0x80) + (scale * 0x80) * v;
    }
  }

  lemma EndOfVarint(value: nat, scale: nat, size: nat, last: byte)
    requires size > 0 && last < 0x80
    ensures Resume(value, scale, ReadVarint([], size, last)) == Fail(Eof)
  {
  }

  /** How far a sweep over a window of bytes brought a varint. */
  datatype Scan = Done(value: nat, used: nat) | Overflow | More(value: nat, scale: nat, used: nat)

  /** Sweeps over a window, the varint having used `consumed` bytes before it. */
  method ScanVarint(b: array<byte>, start: nat, end: nat, size: nat, last: byte, consumed: nat, value: nat, scale: nat,
                    ghost rest: Bytes, ghost o: Outcome<nat>) returns (scan: Scan)
    requires start <= end <= b.Length && consumed < size && end - start + consumed <= size && last < 0x80
    requires end - start <= |rest| && forall k :: 0 <= k < end - start ==> b[start + k] == rest[k]
    requires o == Resume(value, scale, ReadVarint(rest, size - consumed, last))
    ensures match scan
            case Done(v, used) => used <= end - start && o == Ok(v, rest[used..])
            case Overflow => o == Fail(Invalid)
            case More(v, s, used) =>
              && used == end - start && consumed + used < size
              && o == Resume(v, s, ReadVarint(rest[used..], size - consumed - used, last))
  {
    hide Gain, Resume, ReadVarint;
    var value', scale', index := value, scale, 0;
    while start + index < end
      invariant start + index <= end && consumed + index < size
      invariant o == Resume(value', scale', ReadVarint(rest[index..], size - consumed - index, last))
    {
      var byte := b[start + index];
      ResumeByte(rest, index, size - consumed - index, last, value', scale');
      if consumed + index == size - 1 && byte > last {
        return Overflow;
      }
      if byte < 0x80 {
        return Done(Gain(value', scale', byte), index + 1);
      }
      value', scale', index := Gain(value', scale', byte - 0x80), scale' * 0x80, index + 1;
    }
    scan := More(value', scale', index);
  }

  lemma ResumeStart(o: Outcome<nat>)
    ensures Resume(0, 1, o) == o
  {
  }

  lemma MoveSplit(a: Bytes, b: Bytes, n: nat)
    requires n <= |b|
    ensures (a + b[..n]) + b[n..] == a + b
  {
  }

  lemma SkipRawStep(b: Bytes, n: nat, k: nat)
    requires k <= n
    ensures match SkipRaw(b, k)
            case Ok(_, rest) => SkipRaw(b, n) == SkipRaw(rest, n - k)
            case Fail(e) => SkipRaw(b, n) == Fail(e)
  {
  }

  lemma SkipNegative(b: Bytes, n: int)
    ensures n < 0 ==> SkipRaw(b, n) == Fail(Invalid)
  {
  }

  lemma SkipTooFar(n: nat)
    ensures n > 0 ==> SkipRaw([], n) == Fail(UnexpectedEof)
  {
  }

  lemma SkipWithin(b: Bytes, n: nat)
    requires n <= |b|
    ensures SkipRaw(b, n) == Ok((), b[n..])
  {
  }

  lemma SkipNothing(b: Bytes)
    ensures SkipRaw(b, 0) == Ok((), b)
  {
  }

  class Reader {
    const cfg: Config
    const buf: array<byte>
    const attached: bool
    var script: seq<Chunk>
    var head: nat
    var tail: nat
    var pending: Option<Error>
    var error: Option<Error>

    ghost predicate Valid()
      reads this
    {
      head <= tail <= buf.Length && (attached ==> buf.Length > 0)
    }

    /** Every byte still to be read: buffered ones, then what the source delivers. */
    ghost function Remaining(): Bytes
      reads this, buf
      requires Valid()
    {
      buf[head..tail] + if pending.Some? || !attached then [] else Flow(script, 0)
    }

    /** The error met when they run out. */
    ghost function Ending(): Error
      reads this
    {
      if pending.Some? then pending.value else if attached then FlowEnd(script, 0) else Eof
    }

    /** The reader did what a pure decoder did with the remaining bytes. */
    ghost predicate Agrees<T>(o: Outcome<T>, v: T, ending: Error)
      reads this, buf
    {
      && Valid()
      && match o
         case Ok(value, rest) => error.None? && v == value && Remaining() == rest && Ending() == ending
         case Fail(e) => error == Some(Blame(e, ending))
    }

    ghost predicate Skipped(o: Outcome<()>, ending: Error)
      reads this, buf
    {
      && Valid()
      && match o
         case Ok(_, rest) => error.None? && Remaining() == rest && Ending() == ending
         case Fail(e) => error == Some(Blame(e, ending))
    }

    /** Reads from a source through a buffer. */
    constructor (cfg: Config, script: seq<Chunk>, size: nat)
      requires size > 0
      ensures Valid() && fresh(buf) && error.None? && this.cfg == cfg
      ensures Remaining() == Flow(script, 0) && Ending() == FlowEnd(script, 0)
    {
      this.cfg, attached, this.script := cfg, true, script;
      buf := new byte[size](_ => 0);
      head, tail, pending, error := 0, 0, None, None;
    }

    /** Reads the bytes of an array. */
    constructor FromBytes(cfg: Config, b: array<byte>)
      ensures Valid() && buf == b && error.None? && this.cfg == cfg
      ensures Remaining() == b[..] && Ending() == Eof && !attached
    {
      this.cfg, attached, script, buf := cfg, false, [], b;
      head, tail, pending, error := 0, b.Length, None, None;
    }

    /** Keeps the first error, except that the end of input gives way to a later one. */
    method ReportError(e: Error)
      requires Valid()
      modifies this`error
      ensures error == if old(error).Some? && old(error) != Some(Eof) then old(error) else Some(e)
    {
      if error.Some? && error != Some(Eof) {
        return;
      }
      error := Some(e);
    }

    method ReportUnexpectedEof()
      modifies this`error
      ensures error == if old(error).None? || old(error) == Some(Eof) then Some(UnexpectedEof) else old(error)
    {
      if error.None? || error == Some(Eof) {
        error := Some(UnexpectedEof);
      }
    }

    /** One read of the underlying source into the whole buffer. */
    method Fetch() returns (n: nat, err: Option<Error>)
      requires attached
      modifies this`script, buf
      ensures n <= buf.Length
      ensures if old(script) == [] then n == 0 && err == Some(Eof) && script == []
              else
                var c := old(script)[0];
                && n <= |c.bytes| && buf[..n] == c.bytes[..n]
                && (n == |c.bytes| || n == buf.Length)
                && (if n == |c.bytes| then script == old(script)[1..] && err == c.err
                    else script == [Chunk(c.bytes[n..], c.err)] + old(script)[1..] && err.None?)
    {
      if script == [] {
        return 0, Some(Eof);
      }
      var c := script[0];
      n := if |c.bytes| <= buf.Length then |c.bytes| else buf.Length;
      for i := 0 to n
        modifies buf
        invariant buf[..i] == c.bytes[..i]
      {
        buf[i] := c.bytes[i];
      }
      if n == |c.bytes| {
        script, err := script[1..], c.err;
      } else {
        script, err := [Chunk(c.bytes[n..], c.err)] + script[1..], None;
      }
    }

    /** Refills an empty buffer; no unread byte is lost and none is invented. */
    method LoadMore() returns (ok: bool)
      requires Valid() && head == tail
      modifies this, buf
      ensures Valid() && (ok ==> head < tail)
      ensures ok ==> error == old(error) && Remaining() == old(Remaining()) && Ending() == old(Ending())
      ensures !ok ==> old(Remaining()) == []
      ensures !ok ==> error == if old(error).Some? then old(error) else Some(old(Ending()))
    {
      if pending.Some? {
        if error.None? {
          error := pending;
        }
        pending := None;
        return false;
      }
      if !attached {
        if error.None? {
          head := tail;
          error := Some(Eof);
        }
        return false;
      }
      var emptyReads := 0;
      while true
        invariant Valid() && head == tail == old(tail) && pending.None? && error == old(error)
        invariant emptyReads <= MAX_EMPTY_READS
        invariant Flow(script, emptyReads) == old(Flow(script, 0))
        invariant FlowEnd(script, emptyReads) == old(FlowEnd(script, 0))
        decreases MAX_EMPTY_READS - emptyReads
      {
        ghost var before := script;
        var n, err := Fetch();
        if n == 0 {
          if err.Some? {
            if error.None? {
              error := err;
            }
            return false;
          }
          if emptyReads >= MAX_EMPTY_READS {
            if error.None? {
              error := Some(NoProgress);
            }
            return false;
          }
          emptyReads := emptyReads + 1;
          continue;
        }
        head, tail, pending := 0, n, err;
        FlowSplit(before, emptyReads, n);
        return true;
      }
    }

    /** The next byte, or zero at the end of input. */
    method ReadByte() returns (b: byte)
      requires Valid()
      modifies this, buf
      ensures Valid() && (old(error).Some? ==> error.Some?)
      ensures old(error).None? ==>
                if old(Remaining()) == [] then b == 0 && error == Some(Blame(UnexpectedEof, old(Ending())))
                else error.None? && b == old(Remaining())[0] && Remaining() == old(Remaining())[1..]
                     && Ending() == old(Ending())
    {
      if head != tail {
        b := buf[head];
        head := head + 1;
        return;
      }
      var ok := LoadMore();
      if !ok {
        ReportUnexpectedEof();
        return 0;
      }
      b := buf[head];
      head := head + 1;
    }

    /** The next byte without consuming it. */
    method Peek() returns (b: byte)
      requires Valid()
      modifies this, buf
      ensures Valid() && (old(error).Some? ==> error.Some?)
      ensures old(error).None? ==>
                if old(Remaining()) == [] then error == Some(old(Ending()))
                else error.None? && Remaining() == old(Remaining()) && b == Remaining()[0] && Ending() == old(Ending())
    {
      if head == tail {
        var ok := LoadMore();
        if !ok {
          return 0;
        }
      }
      b := buf[head];
    }

    /** Fills the destination from the buffer and as many refills as it takes. */
    method ReadInto(b: array<byte>)
      requires Valid() && b != buf
      modifies this, buf, b
      ensures Valid() && (old(error).Some? ==> error.Some?)
      ensures old(error).None? ==> Agrees(ReadRaw(old(Remaining()), b.Length), b[..], old(Ending()))
      ensures old(error).None? ==>
                if |old(Remaining())| >= b.Length then error.None? && b[..] == old(Remaining())[..b.Length]
                else error == Some(if old(Ending()) == Eof then UnexpectedEof else old(Ending()))
    {
      hide Flow, FlowEnd;
      var size, read := b.Length, 0;
      ghost var whole := Remaining();
      while read < size
        invariant Valid() && 0 <= read <= size && error == old(error)
        invariant b[..read] + Remaining() == whole && Ending() == old(Ending())
      {
        var n := FillSome(b, read);
        if n == 0 {
          return;
        }
        read := read + n;
      }
      assert b[..read] == b[..];
      DropPrefix(b[..], Remaining());
    }

    /** One step of filling: what is buffered, after a refill if nothing is. */
    method FillSome(b: array<byte>, at: nat) returns (n: nat)
      requires Valid() && b != buf && at < b.Length
      modifies this, buf, b
      ensures Valid() && n <= b.Length - at
      ensures n == 0 ==> old(Remaining()) == [] && error.Some?
      ensures n == 0 && old(error).None? ==> error == Some(Blame(UnexpectedEof, old(Ending())))
      ensures n > 0 ==> b[..at + n] + Remaining() == old(b[..at] + Remaining())
      ensures n > 0 ==> error == old(error) && Ending() == old(Ending())
    {
      hide Flow, FlowEnd;
      if head == tail {
        var ok := LoadMore();
        if !ok {
          ReportUnexpectedEof();
          return 0;
        }
      }
      n := CopyOut(b, at);
    }

    /** Moves buffered bytes to the destination, from position `at` on. */
    method CopyOut(b: array<byte>, at: nat) returns (n: nat)
      requires Valid() && b != buf && at < b.Length && head < tail
      modifies this`head, b
      ensures Valid() && 0 < n <= b.Length - at && b[..at] == old(b[..at])
      ensures b[..at + n] + Remaining() == old(b[..at] + Remaining())
    {
      hide Flow, FlowEnd;
      ghost var whole := Remaining();
      n := if tail - head <= b.Length - at then tail - head else b.Length - at;
      BufferedFirst();
      for i := 0 to n
        modifies b
        invariant b[..at] == old(b[..at])
        invariant forall k :: 0 <= k < i ==> b[at + k] == whole[k]
      {
        b[at + i] := buf[head + i];
      }
      forall k | 0 <= k < at + n ensures b[..at + n][k] == (b[..at] + whole[..n])[k] {
        if k >= at {
          assert b[at + (k - at)] == whole[k - at];
        }
      }
      assert b[..at + n] == b[..at] + whole[..n];
      Consume(n);
      MoveSplit(b[..at], whole, n);
    }

    /**
     * A varint of at most `size` bytes: in one sweep when that many are buffered, and byte
     * by byte across refills otherwise.
     */
    method Varint(size: nat, last: byte) returns (value: nat)
      requires Valid() && size > 0 && last < 0x80
      modifies this, buf
      ensures Valid()
      ensures old(error).Some? ==> value == 0 && error == old(error) && Remaining() == old(Remaining())
      ensures old(error).None? ==> error.Some? ==> value == 0
      ensures old(error).None? ==>
                Agrees(ReadVarint(old(Remaining()), size, last),
                       if error.None? then value else 0, old(Ending()))
    {
      if error.Some? {
        return 0;
      }
      if tail - head >= size {
        value := VarintFast(size, last);
      } else {
        value := VarintSlow(size, last);
      }
    }

    method VarintFast(size: nat, last: byte) returns (value: nat)
      requires Valid() && size > 0 && last < 0x80 && error.None? && tail - head >= size
      modifies this`head, this`error
      ensures error.Some? ==> value == 0
      ensures Agrees(ReadVarint(old(Remaining()), size, last), value, old(Ending()))
    {
      hide Flow, FlowEnd, ReadVarint;
      ghost var rest := Remaining();
      ghost var o := ReadVarint(rest, size, last);
      ResumeStart(o);
      var scan := ScanVarint(buf, head, head + size, size, last, 0, 0, 1, rest, o);
      if scan.Done? {
        Consume(scan.used);
        value := scan.value;
      } else {
        ReportError(Invalid);
        value := 0;
      }
    }

    method VarintSlow(size: nat, last: byte) returns (value: nat)
      requires Valid() && size > 0 && last < 0x80 && error.None?
      modifies this, buf
      ensures error.Some? ==> value == 0
      ensures Agrees(ReadVarint(old(Remaining()), size, last), value, old(Ending()))
    {
      hide Flow, FlowEnd, Resume, ReadVarint;
      ghost var o := ReadVarint(Remaining(), size, last);
      ResumeStart(o);
      var scale: nat, consumed: nat, done := 1, 0, false;
      value := 0;
      while !done
        invariant Valid() && (error.Some? ==> value == 0)
        invariant if done then Agrees(o, value, old(Ending()))
                  else
                    && consumed < size && error.None? && Ending() == old(Ending()) && (consumed == 0 || head < tail)
                    && o == Resume(value, scale, ReadVarint(Remaining(), size - consumed, last))
        decreases !done, size - consumed, head == tail
      {
        done, value, scale, consumed := SlowStep(size, last, value, scale, consumed, o);
      }
    }

    /** Consumes the buffered part of a varint and refills the buffer unless that was the end. */
    method SlowStep(size: nat, last: byte, value: nat, scale: nat, consumed: nat, ghost o: Outcome<nat>)
      returns (done: bool, value': nat, scale': nat, consumed': nat)
      requires Valid() && consumed < size && last < 0x80 && error.None?
      requires o == Resume(value, scale, ReadVarint(Remaining(), size - consumed, last))
      modifies this, buf
      ensures Valid() && (error.Some? ==> value' == 0)
      ensures done ==> Agrees(o, value', old(Ending()))
      ensures !done ==>
                && consumed' < size && consumed' == consumed + old(tail - head) && head < tail
                && error.None? && Ending() == old(Ending())
                && o == Resume(value', scale', ReadVarint(Remaining(), size - consumed', last))
    {
      hide Flow, FlowEnd, Resume, ReadVarint;
      var scan := ScanBuffered(size, last, value, scale, consumed, o);
      done, value', scale', consumed' := true, 0, 1, consumed;
      match scan
      case Done(v, used) =>
        EndVarint(v, used, o);
        value' := v;
      case Overflow => OverflowVarint(o);
      case More(v, s, used) =>
        var ok := MoreOfVarint(v, s, used, size - consumed - used, last, o);
        if ok {
          done, value', scale', consumed' := false, v, s, consumed + used;
        }
    }

    /** Sweeps over the buffered part of a varint. */
    method ScanBuffered(size: nat, last: byte, value: nat, scale: nat, consumed: nat, ghost o: Outcome<nat>) returns (scan: Scan)
      requires Valid() && consumed < size && last < 0x80
      requires o == Resume(value, scale, ReadVarint(Remaining(), size - consumed, last))
      ensures match scan
              case Done(v, used) => used <= tail - head && used <= |Remaining()| && o == Ok(v, Remaining()[used..])
              case Overflow => o == Fail(Invalid)
              case More(v, s, used) =>
                && used == tail - head <= |Remaining()| && consumed + used < size
                && o == Resume(v, s, ReadVarint(Remaining()[used..], size - consumed - used, last))
    {
      hide Flow, FlowEnd, Resume, ReadVarint;
      var end := if tail - head + consumed > size then head + size - consumed else tail;
      BufferedFirst();
      scan := ScanVarint(buf, head, end, size, last, consumed, value, scale, Remaining(), o);
    }

    method EndVarint(value: nat, used: nat, ghost o: Outcome<nat>)
      requires Valid() && error.None? && used <= tail - head && used <= |Remaining()| && o == Ok(value, Remaining()[used..])
      modifies this`head
      ensures Agrees(o, value, old(Ending()))
    {
      hide Flow, FlowEnd;
      Consume(used);
    }

    method OverflowVarint(ghost o: Outcome<nat>)
      requires Valid() && error.None? && o == Fail(Invalid)
      modifies this`error
      ensures error.Some? && Agrees(o, 0, old(Ending()))
    {
      ReportError(Invalid);
    }

    /** Takes the buffered bytes of an unfinished varint and refills the buffer, or fails at the end. */
    method MoreOfVarint(value: nat, scale: nat, used: nat, ghost left: nat, ghost last: byte, ghost o: Outcome<nat>) returns (ok: bool)
      requires Valid() && left > 0 && last < 0x80 && error.None? && used == tail - head && used <= |Remaining()|
      requires o == Resume(value, scale, ReadVarint(Remaining()[used..], left, last))
      modifies this, buf
      ensures Valid()
      ensures !ok ==> Agrees(o, 0, old(Ending()))
      ensures ok ==>
                && head < tail && error.None? && Ending() == old(Ending())
                && o == Resume(value, scale, ReadVarint(Remaining(), left, last))
    {
      hide Flow, FlowEnd, Resume, ReadVarint;
      Consume(used);
      EndOfVarint(value, scale, left, last);
      ok := LoadMore();
    }

    lemma BufferedFirst()
      requires Valid()
      ensures tail - head <= |Remaining()|
      ensures forall k :: 0 <= k < tail - head ==> buf[head + k] == Remaining()[k]
    {
    }

    /** Moves past buffered bytes. */
    method Consume(n: nat)
      requires Valid() && n <= tail - head
      modifies this`head
      ensures Valid() && head == old(head) + n
      ensures Remaining() == old(Remaining())[n..] && Ending() == old(Ending())
    {
      assert buf[head..tail][n..] == buf[head + n..tail];
      head := head + n;
    }

    lemma BufferedTake(n: nat)
      requires Valid() && head + n <= tail
      ensures n <= |Remaining()| && buf[head..head + n] == Remaining()[..n]
    {
    }

    method ReadInt() returns (i: int)
      requires Valid()
      modifies this, buf
      ensures Valid() && Int32(i) && (error.Some? ==> i == 0)
      ensures old(error).Some? ==> error == old(error) && Remaining() == old(Remaining())
      ensures old(error).None? ==> Agrees(Wire.ReadInt(old(Remaining())), i, old(Ending()))
    {
      CapacityValues();
      var value := Varint(INT_SIZE, INT_LAST);
      i := Zag(value);
    }

    method ReadLong() returns (i: int)
      requires Valid()
      modifies this, buf
      ensures Valid() && Int64(i) && (error.Some? ==> i == 0)
      ensures old(error).Some? ==> error == old(error) && Remaining() == old(Remaining())
      ensures old(error).None? ==> Agrees(Wire.ReadLong(old(Remaining())), i, old(Ending()))
    {
      CapacityValues();
      var value := Varint(LONG_SIZE, LONG_LAST);
      i := Zag(value);
    }

    method ReadBool() returns (v: bool)
      requires Valid()
      modifies this, buf
      ensures Valid() && (old(error).Some? ==> error.Some?)
      ensures old(error).None? ==> Agrees(Skipping.ReadBool(old(Remaining())), v, old(Ending()))
    {
      var b := ReadByte();
      if b != 0 && b != 1 {
        ReportError(Invalid);
      }
      v := b == 1;
    }

    /** Length-prefixed bytes: copied out of the buffer when small and wholly there. */
    method ReadBytes() returns (bs: Bytes)
      requires Valid()
      modifies this, buf
      ensures Valid() && (old(error).Some? ==> error.Some?)
      ensures old(error).None? ==> Agrees(Decoding.ReadBytes(cfg, old(Remaining())), bs, old(Ending()))
      ensures old(error).None? && error == Some(Eof) ==> bs == []
    {
      hide Flow, FlowEnd, Wire.ReadLong;
      var size := ReadLong();
      if size < 0 {
        ReportError(Invalid);
        return [];
      }
      if size == 0 {
        return [];
      }
      if cfg.maxBytes > 0 && size > cfg.maxBytes {
        ReportError(Limit);
        return [];
      }
      if size > Decimals.MAX_ALLOC {
        ReportError(Limit);
        return [];
      }
      if head + size <= tail && size <= SLAB_SIZE {
        BufferedTake(size);
        bs := buf[head..head + size];
        Consume(size);
      } else {
        var b := new byte[size](_ => 0);
        ReadInto(b);
        bs := b[..];
      }
    }

    method ReadString() returns (text: Text)
      requires Valid()
      modifies this, buf
      ensures Valid() && (old(error).Some? ==> error.Some?)
      ensures old(error).None? ==> Agrees(ReadText(cfg, old(Remaining())), text, old(Ending()))
    {
      hide Flow, FlowEnd, Decoding.ReadBytes;
      text := ReadBytes();
      if !ValidUtf8(text) {
        ReportError(Invalid);
        text := [];
      }
    }

    method ReadBlockHeader() returns (count: int, size: int)
      requires Valid()
      modifies this, buf
      ensures Valid() && (old(error).Some? ==> error.Some?) && count >= 0 && size >= 0
      ensures old(error).None? ==> Agrees(Skipping.ReadBlockHeader(old(Remaining())), Header(count, size), old(Ending()))
    {
      hide Flow, FlowEnd, Wire.ReadLong;
      count, size := 0, 0;
      var length := ReadLong();
      if error.Some? {
        return;
      }
      if length < 0 {
        if length == -0x8000_0000_0000_0000 {
          ReportError(Invalid);
          return;
        }
        var bytes := ReadLong();
        if error.Some? {
          return;
        }
        if bytes < 0 {
          ReportError(Invalid);
          return;
        }
        return -length, bytes;
      }
      count := length;
    }

    // --- skipping ---

    method SkipNBytesInt64(n: int)
      requires Valid()
      modifies this, buf
      ensures Valid() && (old(error).Some? ==> error.Some?)
      ensures old(error).None? ==> Skipped(SkipRaw(old(Remaining()), n), old(Ending()))
      ensures n == 0 ==> error == old(error)
    {
      if n < 0 {
        ReportError(Invalid);
        return;
      }
      hide Flow, FlowEnd, SkipRaw;
      var left := n;
      ghost var o := SkipRaw(Remaining(), n);
      while left > 0
        invariant Valid() && 0 <= left <= n && (old(error).Some? ==> error.Some?) && (n == 0 ==> error == old(error))
        invariant old(error).None? ==> error.None? && o == SkipRaw(Remaining(), left) && Ending() == old(Ending())
      {
        var chunk := if left <= MAX_INT then left else MAX_INT;
        SkipRawStep(Remaining(), left, chunk);
        SkipNBytes(chunk);
        if error.Some? {
          return;
        }
        left := left - chunk;
      }
      SkipNothing(Remaining());
    }

    method SkipNBytes(n: int)
      requires Valid()
      modifies this, buf
      ensures Valid() && (old(error).Some? ==> error.Some?)
      ensures old(error).None? ==> Skipped(SkipRaw(old(Remaining()), n), old(Ending()))
    {
      hide Flow, FlowEnd, SkipRaw;
      SkipNegative(Remaining(), n);
      if n < 0 {
        ReportError(Invalid);
        return;
      }
      var read := 0;
      ghost var o := SkipRaw(Remaining(), n);
      while read < n
        invariant Valid() && 0 <= read <= n && error == old(error)
        invariant o == SkipRaw(Remaining(), n - read) && Ending() == old(Ending())
        decreases n - read, head == tail
      {
        if head == tail {
          var ok := LoadMore();
          if !ok {
            SkipTooFar(n - read);
            ReportUnexpectedEof();
            return;
          }
        }
        var step := SkipSome(n - read);
        read := read + step;
      }
      SkipNothing(Remaining());
    }

    /** As much of a skip as the buffered bytes allow. */
    method SkipSome(n: nat) returns (step: nat)
      requires Valid() && n > 0 && head < tail
      modifies this`head
      ensures Valid() && 0 < step <= n && Ending() == old(Ending())
      ensures SkipRaw(Remaining(), n - step) == SkipRaw(old(Remaining()), n)
    {
      hide Flow, FlowEnd, SkipRaw;
      BufferedFirst();
      step := if tail - head < n then tail - head else n;
      SkipRawStep(Remaining(), n, step);
      SkipWithin(Remaining(), step);
      Consume(step);
    }

    method SkipVarint(size: nat, last: byte)
      requires Valid() && size > 0 && last < 0x80
      modifies this, buf
      ensures Valid() && (old(error).Some? ==> error.Some?)
      ensures old(error).None? ==> Skipped(Skipping.SkipVarint(old(Remaining()), size, last), old(Ending()))
    {
      var i := 0;
      ghost var o := Skipping.SkipVarint(Remaining(), size, last);
      while error.None? && i < size
        invariant Valid() && 0 <= i <= size && (old(error).Some? ==> error.Some?)
        invariant old(error).None? ==>
                    if error.None? then o == Skipping.SkipVarint(Remaining(), size - i, last) && Ending() == old(Ending())
                    else Skipped(o, old(Ending()))
        decreases size - i
      {
        var b := ReadByte();
        if i == size - 1 && b > last {
          ReportError(Invalid);
          return;
        }
        if b < 0x80 {
          return;
        }
        i := i + 1;
      }
    }

    /** Skips length-prefixed bytes. */
    method SkipBytes()
      requires Valid()
      modifies this, buf
      ensures Valid() && (old(error).Some? ==> error.Some?)
      ensures old(error).None? ==> Skipped(Skipping.SkipBytes(old(Remaining())), old(Ending()))
    {
      hide Flow, FlowEnd, Wire.ReadLong;
      var size := ReadLong();
      SkipNBytesInt64(size);
    }
  }

  lemma FlowSplit(script: seq<Chunk>, emptyReads: nat, n: nat)
    requires script != [] && 0 < n <= |script[0].bytes|
    ensures n < |script[0].bytes| ==>
              Flow(script, emptyReads)
              == script[0].bytes[..n] + Flow([Chunk(script[0].bytes[n..], script[0].err)] + script[1..], 0)
    ensures n < |script[0].bytes| ==>
              FlowEnd(script, emptyReads) == FlowEnd([Chunk(script[0].bytes[n..], script[0].err)] + script[1..], 0)
  {
    if n < |script[0].bytes| {
      var c := Chunk(script[0].bytes[n..], script[0].err);
      var rest := if c.err.Some? then [] else Flow(script[1..], 0);
      assert ([c] + script[1..])[1..] == script[1..];
      assert script[0].bytes + rest == script[0].bytes[..n] + (script[0].bytes[n..] + rest);
    }
  }
}
