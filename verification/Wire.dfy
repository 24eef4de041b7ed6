/** Bytes, zig-zag varints and UTF-8: the bottom of the Avro binary encoding. */
module Wire {
  type byte = b: int | 0 <= b < 256

  type Bytes = seq<byte>

  datatype Option<+T> = None | Some(value: T)

  /** Why a read stopped. `Depth` is the exhausted call stack of the interpreter. */
  datatype Error =
    | Eof
    | UnexpectedEof
    | Invalid
    | Limit
    | NoProgress
    | Depth

  /** A read returns a value and the bytes it did not consume, or fails. */
  datatype Outcome<+T> = Ok(value: T, rest: Bytes) | Fail(error: Error)

  const INT_SIZE: nat := 5
  const LONG_SIZE: nat := 10
  const INT_LAST: byte := 0x0f
  const LONG_LAST: byte := 0x01

  predicate Int32(i: int) {
    -0x8000_0000 <= i < 0x8000_0000
  }

  predicate Int64(i: int) {
    -0x8000_0000_0000_0000 <= i < 0x8000_0000_0000_0000
  }

  // --- zig-zag ---

  function Zig(i: int): nat {
    if i >= 0 then 2 * i else -2 * i - 1
  }

  function Zag(n: nat): int {
    if n % 2 == 0 then n / 2 else -(n / 2) - 1
  }

  lemma ZagZig(i: int)
    ensures Zag(Zig(i)) == i
  {
    if i < 0 {
      assert Zig(i) == 2 * (-i - 1) + 1;
    }
  }

  // --- varints ---

  /** Least significant seven bits first; a set high bit means more follow. */
  function Uvarint(n: nat): (bs: Bytes)
    ensures |bs| > 0
  {
    if n < 0x80 then [n] else [0x80 + n % 0x80] + Uvarint(n / 0x80)
  }

  /** How many values fit in `size` varint bytes whose last one is at most `last`. */
  function Capacity(size: nat, last: byte): nat {
    if size == 0 then 1
    else if size == 1 then last + 1
    else 0x80 * Capacity(size - 1, last)
  }

  /** Decodes a varint of at most `size` further bytes. */
  function ReadVarint(b: Bytes, size: nat, last: byte): (r: Outcome<nat>)
    requires size > 0 && last < 0x80
    ensures r.Ok? ==> |r.rest| < |b| && r.rest == b[|b| - |r.rest|..]
    ensures r.Ok? ==> r.value < Capacity(size, last)
    ensures r.Fail? ==> r.error == Eof || r.error == Invalid
    decreases b
  {
    if b == [] then Fail(Eof)
    else if size == 1 && b[0] > last then Fail(Invalid)
    else if b[0] < 0x80 then
      CapacityCovers(size, last);
      Ok(b[0], b[1..])
    else
      match ReadVarint(b[1..], size - 1, last)
      case Ok(v, rest) => Ok(b[0] - 0x80 + 0x80 * v, rest)
      case Fail(e) => Fail(e)
  }

  lemma CapacityCovers(size: nat, last: byte)
    requires size > 0
    ensures Capacity(size, last) >= 1
    ensures size > 1 ==> Capacity(size, last) >= 0x80
  {
    if size > 1 {
      CapacityCovers(size - 1, last);
    }
  }

  lemma {:induction false} VarintRoundTrip(n: nat, size: nat, last: byte, suffix: Bytes)
    requires size > 0 && last < 0x80 && n < Capacity(size, last)
    ensures ReadVarint(Uvarint(n) + suffix, size, last) == Ok(n, suffix)
    decreases size
  {
    var b := Uvarint(n) + suffix;
    if n < 0x80 {
      assert b[1..] == suffix;
    } else {
      assert b[1..] == Uvarint(n / 0x80) + suffix;
      VarintRoundTrip(n / 0x80, size - 1, last, suffix);
    }
  }

  lemma UvarintLast(left: nat)
    ensures left < 0x80 ==> Uvarint(left) == [left]
  {
  }

  lemma UvarintStep(done: Bytes, left: nat)
    requires left >= 0x80
    ensures done + Uvarint(left) == (done + [0x80 + left % 0x80]) + Uvarint(left / 0x80)
  {
  }

  lemma {:induction false} UvarintLength(n: nat, size: nat, last: byte)
    requires size > 0 && last < 0x80 && n < Capacity(size, last)
    ensures |Uvarint(n)| <= size
    decreases size
  {
    if n >= 0x80 {
      UvarintLength(n / 0x80, size - 1, last);
    }
  }

  lemma CapacityValues()
    ensures Capacity(INT_SIZE, INT_LAST) == 0x1_0000_0000
    ensures Capacity(LONG_SIZE, LONG_LAST) == 0x1_0000_0000_0000_0000
  {
    assert Capacity(1, LONG_LAST) == 2;
    assert Capacity(2, LONG_LAST) == 0x100;
    assert Capacity(3, LONG_LAST) == 0x8000;
    assert Capacity(4, LONG_LAST) == 0x40_0000;
    assert Capacity(5, LONG_LAST) == 0x2000_0000;
    assert Capacity(6, LONG_LAST) == 0x10_0000_0000;
    assert Capacity(7, LONG_LAST) == 0x800_0000_0000;
    assert Capacity(8, LONG_LAST) == 0x4_0000_0000_0000;
    assert Capacity(9, LONG_LAST) == 0x200_0000_0000_0000;
    assert Capacity(1, INT_LAST) == 0x10;
    assert Capacity(2, INT_LAST) == 0x800;
    assert Capacity(3, INT_LAST) == 0x4_0000;
  }

  function EncodeLong(i: int): Bytes {
    Uvarint(Zig(i))
  }

  function ReadInt(b: Bytes): (r: Outcome<int>)
    ensures r.Ok? ==> Int32(r.value) && |r.rest| < |b| && r.rest == b[|b| - |r.rest|..]
    ensures r.Fail? ==> r.error == Eof || r.error == Invalid
  {
    match ReadVarint(b, INT_SIZE, INT_LAST)
    case Ok(v, rest) => CapacityValues(); Ok(Zag(v), rest)
    case Fail(e) => Fail(e)
  }

  function ReadLong(b: Bytes): (r: Outcome<int>)
    ensures r.Ok? ==> Int64(r.value) && |r.rest| < |b| && r.rest == b[|b| - |r.rest|..]
    ensures r.Fail? ==> r.error == Eof || r.error == Invalid
  {
    match ReadVarint(b, LONG_SIZE, LONG_LAST)
    case Ok(v, rest) => CapacityValues(); Ok(Zag(v), rest)
    case Fail(e) => Fail(e)
  }

  lemma LongRoundTrip(i: int, suffix: Bytes)
    requires Int64(i)
    ensures ReadLong(EncodeLong(i) + suffix) == Ok(i, suffix)
  {
    CapacityValues();
    VarintRoundTrip(Zig(i), LONG_SIZE, LONG_LAST, suffix);
    ZagZig(i);
  }

  lemma IntRoundTrip(i: int, suffix: Bytes)
    requires Int32(i)
    ensures ReadInt(EncodeLong(i) + suffix) == Ok(i, suffix)
  {
    CapacityValues();
    VarintRoundTrip(Zig(i), INT_SIZE, INT_LAST, suffix);
    ZagZig(i);
  }

  // --- raw bytes ---

  lemma Regroup<T>(a: seq<T>, b: seq<T>, c: seq<T>)
    ensures (a + b) + c == a + (b + c)
  {
  }

  lemma Regroup4(a: Bytes, b: Bytes, c: Bytes, d: Bytes)
    ensures ((a + b) + c) + d == a + (b + (c + d))
  {
  }

  lemma DropPrefix(a: Bytes, b: Bytes)
    ensures (a + b)[..|a|] == a && (a + b)[|a|..] == b
  {
  }

  function ReadRaw(b: Bytes, n: nat): (r: Outcome<Bytes>)
    ensures r.Ok? <==> n <= |b|
    ensures r.Ok? ==> r.value + r.rest == b && |r.value| == n
  {
    if n <= |b| then Ok(b[..n], b[n..]) else Fail(UnexpectedEof)
  }

  lemma RawRoundTrip(bs: Bytes, suffix: Bytes)
    ensures ReadRaw(bs + suffix, |bs|) == Ok(bs, suffix)
  {
    assert (bs + suffix)[..|bs|] == bs;
    assert (bs + suffix)[|bs|..] == suffix;
  }

  // --- UTF-8 (RFC 3629, section 4) ---

  predicate Continuation(b: byte) {
    0x80 <= b <= 0xbf
  }

  function ScalarLength(b: Bytes): (n: nat)
    ensures n <= |b| && n <= 4
  {
    if |b| >= 1 && b[0] < 0x80 then 1
    else if |b| >= 2 && 0xc2 <= b[0] <= 0xdf && Continuation(b[1]) then 2
    else if |b| >= 3 && 0xe0 <= b[0] <= 0xef && Continuation(b[1]) && Continuation(b[2])
            && (b[0] == 0xe0 ==> b[1] >= 0xa0) && (b[0] == 0xed ==> b[1] <= 0x9f) then 3
    else if |b| >= 4 && 0xf0 <= b[0] <= 0xf4
            && Continuation(b[1]) && Continuation(b[2]) && Continuation(b[3])
            && (b[0] == 0xf0 ==> b[1] >= 0x90) && (b[0] == 0xf4 ==> b[1] <= 0x8f) then 4
    else 0
  }

  predicate ValidUtf8(b: Bytes) {
    b == [] || (ScalarLength(b) > 0 && ValidUtf8(b[ScalarLength(b)..]))
  }
}
