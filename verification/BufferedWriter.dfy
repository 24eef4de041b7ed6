/** The buffered writer: an append-only array, and block headers rewritten in place. */
module BufferedWriter {
  import opened Wire
  import opened Datums

  /** Bytes reserved for a block header before its size is known. */
  const RESERVED: nat := 18
  const HALF: nat := 0x4000_0000_0000_0000

  /** The header of a block: sized only when it has bytes and sizes are wanted. */
  function WrittenHeader(count: nat, size: nat, sizes: bool): Bytes {
    BlockHeader(count, size, sizes && size > 0)
  }

  /** A header of realistic counts and sizes fits the reserved bytes. */
  lemma HeaderFits(count: nat, size: nat, sizes: bool)
    requires count <= HALF && size < HALF
    ensures |WrittenHeader(count, size, sizes)| <= RESERVED
  {
    CapacityNine();
    UvarintLength(Zig(size), 9, 0x7f);
    if count > 0 {
      assert Zig(-(count as int)) == 2 * count - 1;
      UvarintLength(2 * count - 1, 9, 0x7f);
    }
    CapacityValues();
    UvarintLength(Zig(count), 10, LONG_LAST);
  }

  lemma CapacityNine()
    ensures Capacity(9, 0x7f) == 2 * HALF
  {
    assert Capacity(1, 0x7f) == 0x80;
    assert Capacity(2, 0x7f) == 0x4000;
    assert Capacity(3, 0x7f) == 0x20_0000;
    assert Capacity(4, 0x7f) == 0x1000_0000;
    assert Capacity(5, 0x7f) == 0x8_0000_0000;
    assert Capacity(6, 0x7f) == 0x400_0000_0000;
    assert Capacity(7, 0x7f) == 0x2_0000_0000_0000;
    assert Capacity(8, 0x7f) == 0x100_0000_0000_0000;
  }

  lemma TailFurther(a: Bytes, b: Bytes, i: nat)
    ensures i < |a| == |b| && a[i..] == b[i..] ==> a[i + 1..] == b[i + 1..]
  {
    if i < |a| == |b| && a[i..] == b[i..] {
      assert a[i + 1..] == a[i..][1..] && b[i + 1..] == b[i..][1..];
    }
  }

  class Writer {
    var data: array<byte>
    var len: nat
    var error: Option<Error>
    const sizes: bool

    ghost predicate Valid()
      reads this
    {
      len <= data.Length
    }

    ghost function Contents(): Bytes
      reads this, data
      requires Valid()
    {
      data[..len]
    }

    constructor (capacity: nat, sizes: bool)
      ensures Valid() && fresh(data) && Contents() == [] && error.None? && this.sizes == sizes
    {
      data := new byte[capacity](_ => 0);
      len, error, this.sizes := 0, None, sizes;
    }

    /** Appends, in place while the capacity lasts. */
    method Append(bs: Bytes)
      requires Valid()
      modifies this, data
      ensures Valid() && (data == old(data) || fresh(data)) && error == old(error)
      ensures Contents() == old(Contents()) + bs
      ensures old(len) + |bs| <= old(data.Length) ==>
                data == old(data) && data[len..] == old(data[..])[len..]
    {
      if len + |bs| > data.Length {
        Grow(len + |bs|);
      }
      label copying:
      for i := 0 to |bs|
        modifies data
        invariant data[..len] == old@copying(data[..len])
        invariant forall k :: 0 <= k < i ==> data[len + k] == bs[k]
        invariant forall k :: len + |bs| <= k < data.Length ==> data[k] == old@copying(data[k])
      {
        data[len + i] := bs[i];
      }
      assert data[..len + |bs|] == data[..len] + bs;
      len := len + |bs|;
    }

    /** Moves the contents to a larger array. */
    method Grow(need: nat)
      requires Valid() && need > data.Length
      modifies this`data
      ensures Valid() && fresh(data) && data.Length >= need && Contents() == old(Contents())
    {
      var size := if 2 * data.Length > need then 2 * data.Length else need;
      var bigger := new byte[size](i requires 0 <= i < size reads this, data => if i < data.Length then data[i] else 0);
      data := bigger;
    }

    method AppendUvarint(n: nat)
      requires Valid()
      modifies this, data
      ensures Valid() && (data == old(data) || fresh(data)) && error == old(error)
      ensures Contents() == old(Contents()) + Uvarint(n)
      ensures old(len) + |Uvarint(n)| <= old(data.Length) ==>
                data == old(data) && data[len..] == old(data[..])[len..]
    {
      if n < 0x80 {
        Append([n]);
      } else if n < 0x4000 {
        Append([0x80 + n % 0x80, n / 0x80]);
      } else {
        AppendGroups(n);
      }
    }

    /** The groups of seven bits, least significant first. */
    method AppendGroups(n: nat)
      requires Valid()
      modifies this, data
      ensures Valid() && (data == old(data) || fresh(data)) && error == old(error)
      ensures Contents() == old(Contents()) + Uvarint(n)
      ensures old(len) + |Uvarint(n)| <= old(data.Length) ==>
                data == old(data) && data[len..] == old(data[..])[len..]
    {
      hide Uvarint;
      var left := n;
      ghost var done: Bytes := [];
      while left >= 0x80
        invariant Valid() && (data == old(data) || fresh(data)) && error == old(error)
        invariant Uvarint(n) == done + Uvarint(left)
        invariant Contents() == old(Contents()) + done
        invariant old(len) + |done| <= old(data.Length) ==>
                    data == old(data) && data[len..] == old(data[..])[len..]
      {
        ghost var next: byte := 0x80 + left % 0x80;
        UvarintStep(done, left);
        Regroup(old(Contents()), done, [next]);
        TailFurther(data[..], old(data[..]), len);
        Append([0x80 + left % 0x80]);
        done := done + [next];
        left := left / 0x80;
      }
      UvarintLast(left);
      Regroup(old(Contents()), done, [left]);
      TailFurther(data[..], old(data[..]), len);
      Append([left]);
    }

    method WriteInt(i: int)
      requires Valid() && Int32(i)
      modifies this, data
      ensures Valid() && (data == old(data) || fresh(data)) && error == old(error)
      ensures Contents() == old(Contents()) + EncodeLong(i)
    {
      ZigzagWordExact(i, 0x8000_0000);
      AppendUvarint(ZigzagWord(i, 0x8000_0000));
    }

    method WriteLong(i: int)
      requires Valid() && Int64(i)
      modifies this, data
      ensures Valid() && (data == old(data) || fresh(data)) && error == old(error)
      ensures Contents() == old(Contents()) + EncodeLong(i)
      ensures old(len) + |EncodeLong(i)| <= old(data.Length) ==>
                data == old(data) && data[len..] == old(data[..])[len..]
    {
      ZigzagWordExact(i, 0x8000_0000_0000_0000);
      AppendUvarint(ZigzagWord(i, 0x8000_0000_0000_0000));
    }

    method WriteBytes(bs: Bytes)
      requires Valid() && Int64(|bs|)
      modifies this, data
      ensures Valid() && (data == old(data) || fresh(data)) && error == old(error)
      ensures Contents() == old(Contents()) + EncodeBytes(bs)
    {
      WriteLong(|bs|);
      Regroup(old(Contents()), EncodeLong(|bs|), bs);
      Append(bs);
    }

    /** Text must be UTF-8; otherwise nothing is written. */
    method WriteString(text: Bytes)
      requires Valid() && Int64(|text|)
      modifies this, data
      ensures Valid() && (data == old(data) || fresh(data)) && (old(error).Some? ==> error == old(error))
      ensures old(error).None? ==> (error.None? <==> ValidUtf8(text))
      ensures Contents() == if error.None? then old(Contents()) + EncodeBytes(text) else old(Contents())
    {
      if error.Some? {
        return;
      }
      if !ValidUtf8(text) {
        error := Some(Invalid);
        return;
      }
      WriteBytes(text);
    }

    method WriteBlockHeader(count: nat, size: nat)
      requires Valid() && count <= HALF && size < HALF
      modifies this, data
      ensures Valid() && (data == old(data) || fresh(data)) && error == old(error)
      ensures Contents() == old(Contents()) + WrittenHeader(count, size, sizes)
      ensures old(len) + |WrittenHeader(count, size, sizes)| <= old(data.Length) ==>
                data == old(data) && data[len..] == old(data[..])[len..]
    {
      if size > 0 && sizes {
        WriteLong(-(count as int));
        Regroup(old(Contents()), EncodeLong(-(count as int)), EncodeLong(size));
        WriteLong(size);
      } else {
        WriteLong(count);
      }
    }

    /** Reserves room for the header of a block about to be written. */
    method OpenBlock() returns (start: nat)
      requires Valid()
      modifies this, data
      ensures Valid() && (data == old(data) || fresh(data)) && error == old(error)
      ensures start == old(len) && start + RESERVED == len && Contents()[..start] == old(Contents())
    {
      start := len;
      Append(seq(RESERVED, _ => 0));
    }

    /**
     * Writes the header over the reserved bytes and moves the body down to it, in the same
     * array: what was before the block, then the header, then the body.
     */
    method CloseBlock(start: nat, count: nat)
      requires Valid() && start + RESERVED <= len && count <= HALF && len - start - RESERVED < HALF
      modifies this, data
      ensures Valid() && data == old(data) && error == old(error)
      ensures Contents() == old(Contents()[..start])
                          + WrittenHeader(count, old(len) - start - RESERVED, sizes)
                          + old(Contents()[start + RESERVED..])
    {
      var at := start + RESERVED;
      var size := len - at;
      ghost var body := Contents()[at..];
      HeaderFits(count, size, sizes);
      len := start;
      WriteBlockHeader(count, size);
      BodyIntact(old(data[..]), at, old(len), data[..], len);
      MoveDown(at, size, body);
    }

    /** Appends a stretch of the same array that starts at or after the end of the contents. */
    method MoveDown(at: nat, size: nat, ghost body: Bytes)
      requires Valid() && len <= at && at + size <= data.Length && data[at..at + size] == body
      modifies this`len, data
      ensures Valid() && Contents() == old(Contents()) + body
    {
      label moving:
      for i := 0 to size
        modifies data
        invariant data[..len] == old@moving(data[..len])
        invariant forall k :: 0 <= k < i ==> data[len + k] == body[k]
        invariant forall k :: i <= k < size ==> data[at + k] == body[k]
      {
        data[len + i] := data[at + i];
      }
      assert data[..len + size] == data[..len] + body;
      len := len + size;
    }
  }

  lemma BodyIntact(before: Bytes, at: nat, end: nat, after: Bytes, len: nat)
    requires len <= at <= end <= |before| == |after| && after[len..] == before[len..]
    ensures after[at..end] == before[..end][at..]
  {
    assert forall k :: at <= k < end ==> after[k] == after[len..][k - len] && before[k] == before[len..][k - len];
  }

  /** The machine's zig-zag word: a shift by one, all bits flipped for negative numbers. */
  function ZigzagWord(i: int, half: int): nat
    requires half > 0
  {
    var shifted := 2 * (i % (2 * half)) % (2 * half);
    if i < 0 then 2 * half - 1 - shifted else shifted
  }

  lemma ZigzagWordExact(i: int, half: int)
    requires half > 0 && -half <= i < half
    ensures ZigzagWord(i, half) == Zig(i)
  {
    var w := 2 * half;
    if i < 0 {
      ModIs(i, w, i + w, -1);
      ModIs(2 * (i + w), w, 2 * i + w, 1);
    } else {
      ModIs(i, w, i, 0);
      ModIs(2 * i, w, 2 * i, 0);
    }
  }

  lemma ModIs(x: int, w: int, r: int, q: int)
    requires w > 0 && 0 <= r < w && x == q * w + r
    ensures x % w == r
  {
    var d := x / w - q;
    assert x % w - r == -d * w by {
      assert x == (x / w) * w + x % w;
      assert (x / w) * w - q * w == (x / w - q) * w;
    }
    assert d >= 1 ==> d * w >= w;
    assert d <= -1 ==> d * w <= -w;
  }
}
