/** CRC-64-AVRO: the table-driven digest against its bit-serial definition. */
module Crc64 {
  import opened Powers
  import opened Wire

  /** A machine word as its bits, least significant first. */
  type Bits = seq<bool>

  const WIDTH: nat := 64

  ghost predicate Word(w: Bits) {
    |w| == WIDTH
  }

  function BitsOf(n: nat, len: nat): (b: Bits)
    ensures |b| == len
  {
    if len == 0 then [] else [n % 2 == 1] + BitsOf(n / 2, len - 1)
  }

  function ValueOf(b: Bits): (n: nat) {
    if b == [] then 0 else (if b[0] then 1 else 0) + 2 * ValueOf(b[1..])
  }

  lemma {:induction false} BitsOfValue(b: Bits)
    ensures BitsOf(ValueOf(b), |b|) == b
  {
    if b != [] {
      BitsOfValue(b[1..]);
      assert ValueOf(b) / 2 == ValueOf(b[1..]);
    }
  }

  lemma {:induction false} ValueBound(b: Bits)
    ensures ValueOf(b) < Pow(2, |b|)
  {
    if b != [] {
      ValueBound(b[1..]);
    }
  }

  lemma ByteRange()
    ensures Pow(2, 8) == 0x100
  {
    assert Pow(2, 4) == 16;
    PowAdds(2, 4, 4);
  }

  lemma {:induction false} BitsOfSmall(n: nat, len: nat, extra: nat)
    requires n < Pow(2, len)
    ensures BitsOf(n, len + extra) == BitsOf(n, len) + Zeros(extra)
    decreases len
  {
    if len == 0 {
      ZeroBits(extra);
    } else {
      BitsOfSmall(n / 2, len - 1, extra);
    }
  }

  lemma {:induction false} ZeroBits(len: nat)
    ensures BitsOf(0, len) == Zeros(len)
  {
    if len > 0 {
      ZeroBits(len - 1);
    }
  }

  function Zeros(n: nat): (b: Bits)
    ensures |b| == n
  {
    seq(n, _ => false)
  }

  function Xor(a: Bits, b: Bits): (r: Bits)
    requires |a| == |b|
    ensures |r| == |a|
  {
    seq(|a|, i requires 0 <= i < |a| => a[i] != b[i])
  }

  function And(a: Bits, b: Bits): (r: Bits)
    requires |a| == |b|
    ensures |r| == |a|
  {
    seq(|a|, i requires 0 <= i < |a| => a[i] && b[i])
  }

  function ShiftRight(a: Bits, n: nat): (r: Bits)
    requires n <= |a|
    ensures |r| == |a|
  {
    a[n..] + Zeros(n)
  }

  /** Two's-complement negation of a single low bit: all zeros or all ones. */
  function NegateBit(bit: bool, len: nat): (r: Bits)
    ensures |r| == len
  {
    seq(len, _ => bit)
  }

  const EMPTY: Bits := BitsOf(0xc15d213aa4d7a795, WIDTH)

  /** One shift of the register: fold the polynomial in when a one falls out. */
  function Shift(fp: Bits): (r: Bits)
    requires Word(fp)
    ensures Word(r)
  {
    if fp[0] then Xor(ShiftRight(fp, 1), EMPTY) else ShiftRight(fp, 1)
  }

  function Shifts(fp: Bits, n: nat): (r: Bits)
    requires Word(fp)
    ensures Word(r)
    decreases n
  {
    if n == 0 then fp else Shifts(Shift(fp), n - 1)
  }

  /** A byte widened to the register. */
  function Widen(b: byte): (r: Bits)
    ensures Word(r)
  {
    BitsOf(b, WIDTH)
  }

  /** The bit-serial definition: absorb a byte, then shift eight times. */
  function Serial(crc: Bits, data: Bytes): (r: Bits)
    requires Word(crc)
    ensures Word(r)
    decreases |data|
  {
    if data == [] then crc else Serial(Shifts(Xor(crc, Widen(data[0])), 8), data[1..])
  }

  lemma MaskedShift(fp: Bits)
    requires Word(fp)
    ensures Xor(ShiftRight(fp, 1), And(EMPTY, NegateBit(fp[0], WIDTH))) == Shift(fp)
  {
  }

  lemma MaskedStep(fp: Bits, n: nat)
    requires Word(fp) && n > 0
    ensures Shifts(fp, n)
         == Shifts(Xor(ShiftRight(fp, 1), And(EMPTY, NegateBit(fp[0], WIDTH))), n - 1)
  {
    MaskedShift(fp);
  }

  lemma ShiftLinear(x: Bits, y: Bits)
    requires Word(x) && Word(y)
    ensures Shift(Xor(x, y)) == Xor(Shift(x), Shift(y))
  {
    assert ShiftRight(Xor(x, y), 1) == Xor(ShiftRight(x, 1), ShiftRight(y, 1));
  }

  lemma {:induction false} ShiftsLinear(x: Bits, y: Bits, n: nat)
    requires Word(x) && Word(y)
    ensures Shifts(Xor(x, y), n) == Xor(Shifts(x, n), Shifts(y, n))
    decreases n
  {
    if n > 0 {
      ShiftLinear(x, y);
      ShiftsLinear(Shift(x), Shift(y), n - 1);
    }
  }

  /** A register whose low bits are clear shifts without feedback. */
  lemma {:induction false} ShiftsClear(x: Bits, n: nat)
    requires Word(x) && n <= WIDTH && forall i :: 0 <= i < n ==> !x[i]
    ensures Shifts(x, n) == ShiftRight(x, n)
    decreases n
  {
    if n > 0 {
      ShiftsClear(ShiftRight(x, 1), n - 1);
    }
  }

  /** Eight feedback shifts are one table lookup on the low byte. */
  lemma TableStep(x: Bits)
    requires Word(x)
    ensures ValueOf(x[..8]) < 0x100
    ensures Shifts(x, 8) == Xor(ShiftRight(x, 8), Shifts(BitsOf(ValueOf(x[..8]), WIDTH), 8))
  {
    var low := x[..8] + Zeros(56);
    var high := Zeros(8) + x[8..];
    SplitWord(x);
    ShiftsLinear(high, low, 8);
    ShiftsClear(high, 8);
    LowWord(x[..8]);
  }

  lemma SplitWord(x: Bits)
    requires Word(x)
    ensures x == Xor(Zeros(8) + x[8..], x[..8] + Zeros(56))
    ensures ShiftRight(Zeros(8) + x[8..], 8) == ShiftRight(x, 8)
  {
  }

  lemma LowWord(b: Bits)
    requires |b| == 8
    ensures ValueOf(b) < 0x100
    ensures BitsOf(ValueOf(b), WIDTH) == b + Zeros(56)
  {
    ByteRange();
    ValueBound(b);
    BitsOfValue(b);
    BitsOfSmall(ValueOf(b), 8, 56);
  }

  lemma {:induction false} SerialConcat(crc: Bits, a: Bytes, b: Bytes)
    requires Word(crc)
    ensures Serial(crc, a + b) == Serial(Serial(crc, a), b)
    decreases |a|
  {
    if a == [] {
      assert a + b == b;
    } else {
      assert (a + b)[1..] == a[1..] + b;
      SerialConcat(Shifts(Xor(crc, Widen(a[0])), 8), a[1..], b);
    }
  }

  /** Absorbing one byte: the register drops its low byte, the table restores the feedback. */
  lemma AbsorbByte(crc: Bits, b: byte)
    requires Word(crc)
    ensures var index := ValueOf(Xor(crc[..8], BitsOf(b, 8)));
            && index < 0x100
            && Serial(crc, [b]) == Xor(ShiftRight(crc, 8), Shifts(BitsOf(index, WIDTH), 8))
  {
    var x := Xor(crc, Widen(b));
    ByteRange();
    BitsOfSmall(b, 8, 56);
    assert x[..8] == Xor(crc[..8], BitsOf(b, 8));
    assert ShiftRight(x, 8) == ShiftRight(crc, 8);
    TableStep(x);
    assert Serial(Shifts(x, 8), [b][1..]) == Shifts(x, 8);
  }

  ghost predicate IsTable(t: array<Bits>)
    reads t
  {
    t.Length == 256 && forall i :: 0 <= i < 256 ==> t[i] == Shifts(BitsOf(i, WIDTH), 8)
  }

  method TableEntry(i: nat) returns (fp: Bits)
    ensures fp == Shifts(BitsOf(i, WIDTH), 8)
  {
    hide Shift;
    fp := BitsOf(i, WIDTH);
    ghost var entry := Shifts(fp, 8);
    for j := 0 to 8
      invariant Word(fp) && Shifts(fp, 8 - j) == entry
    {
      MaskedStep(fp, 8 - j);
      fp := Xor(ShiftRight(fp, 1), And(EMPTY, NegateBit(fp[0], WIDTH)));
    }
  }

  method MakeTable() returns (t: array<Bits>)
    ensures fresh(t) && IsTable(t)
  {
    hide Shifts, BitsOf;
    t := new Bits[256](_ => []);
    for i := 0 to 256
      invariant forall k :: 0 <= k < i ==> t[k] == Shifts(BitsOf(k, WIDTH), 8)
    {
      t[i] := TableEntry(i);
    }
  }

  datatype ByteOrder = LittleEndian | BigEndian

  class Digest {
    var crc: Bits
    const tab: array<Bits>
    const byteOrder: ByteOrder

    ghost predicate Valid()
      reads this, tab
    {
      Word(crc) && IsTable(tab)
    }

    constructor (tab: array<Bits>, byteOrder: ByteOrder)
      requires IsTable(tab)
      ensures Valid() && crc == EMPTY && this.tab == tab && this.byteOrder == byteOrder
    {
      this.crc := EMPTY;
      this.tab := tab;
      this.byteOrder := byteOrder;
    }

    method Reset()
      requires Valid()
      modifies this
      ensures Valid() && crc == EMPTY
    {
      crc := EMPTY;
    }

    /** Accumulates `p`; by `SerialConcat` the result does not depend on how data are split. */
    method Write(p: Bytes) returns (n: nat)
      requires Valid()
      modifies this
      ensures Valid() && n == |p|
      ensures crc == Serial(old(crc), p)
    {
      for i := 0 to |p|
        invariant Valid() && crc == Serial(old(crc), p[..i])
      {
        AbsorbByte(crc, p[i]);
        assert p[..i + 1] == p[..i] + [p[i]];
        SerialConcat(old(crc), p[..i], [p[i]]);
        crc := Xor(ShiftRight(crc, 8), tab[ValueOf(Xor(crc[..8], BitsOf(p[i], 8)))]);
      }
      assert p[..|p|] == p;
      n := |p|;
    }

    method SumBytes() returns (b: seq<Bits>)
      requires Valid()
      ensures b == SumOf(crc, byteOrder)
      ensures |b| == 8 && Places(b, byteOrder, 8) == ValueOf(crc)
    {
      SumBytesValue(crc, byteOrder);
      b := SumOf(crc, byteOrder);
    }
  }

  function Octet(s: Bits, k: nat): (b: Bits)
    requires Word(s) && k < 8
    ensures |b| == 8
  {
    s[8 * k..8 * k + 8]
  }

  function SumOf(s: Bits, order: ByteOrder): (b: seq<Bits>)
    requires Word(s)
    ensures |b| == 8
  {
    match order
    case LittleEndian => seq(8, k requires 0 <= k < 8 => Octet(s, k))
    case BigEndian => seq(8, k requires 0 <= k < 8 => Octet(s, 7 - k))
  }

  /** The checksum travels whole in either byte order, and the two orders mirror each other. */
  lemma SumBytesCarryChecksum(s: Bits, t: Bits, order: ByteOrder)
    requires Word(s) && Word(t)
    ensures SumOf(s, order) == SumOf(t, order) ==> s == t
    ensures forall k :: 0 <= k < 8 ==> SumOf(s, BigEndian)[k] == SumOf(s, LittleEndian)[7 - k]
  {
    if SumOf(s, order) == SumOf(t, order) {
      forall i | 0 <= i < WIDTH ensures s[i] == t[i] {
        var k := if order.LittleEndian? then i / 8 else 7 - i / 8;
        assert SumOf(s, order)[k] == Octet(s, i / 8);
        assert SumOf(t, order)[k] == Octet(t, i / 8);
        assert Octet(s, i / 8)[i % 8] == s[i];
        assert Octet(t, i / 8)[i % 8] == t[i];
      }
    }
  }

  lemma {:induction false} ValueOfBits(n: nat, len: nat)
    requires n < Pow(2, len)
    ensures ValueOf(BitsOf(n, len)) == n
    decreases len
  {
    if len > 0 {
      ValueOfBits(n / 2, len - 1);
    }
  }

  /** The register starts as the polynomial of the specification. */
  lemma EmptyValue()
    ensures ValueOf(EMPTY) == 0xc15d213aa4d7a795
  {
    PowAdds(2, 32, 32);
    PowAdds(2, 16, 16);
    PowAdds(2, 8, 8);
    ByteRange();
    ValueOfBits(0xc15d213aa4d7a795, WIDTH);
  }

  lemma {:induction false} ValueJoins(a: Bits, b: Bits)
    ensures ValueOf(a + b) == ValueOf(a) + Pow(2, |a|) * ValueOf(b)
    decreases |a|
  {
    if a == [] {
      assert a + b == b;
    } else {
      assert (a + b)[1..] == a[1..] + b;
      ValueJoins(a[1..], b);
      MulAssoc(2, Pow(2, |a| - 1), ValueOf(b));
    }
  }

  lemma {:induction false} ZerosValue(n: nat)
    ensures ValueOf(Zeros(n)) == 0
  {
    if n > 0 {
      assert Zeros(n)[1..] == Zeros(n - 1);
      ZerosValue(n - 1);
    }
  }

  /** Shifting to the right divides: what falls out is the remainder. */
  lemma ShiftDivides(s: Bits, n: nat)
    requires n <= |s|
    ensures ValueOf(s) == Pow(2, n) * ValueOf(ShiftRight(s, n)) + ValueOf(s[..n])
    ensures ValueOf(s[..n]) < Pow(2, n)
  {
    assert s == s[..n] + s[n..];
    ValueJoins(s[..n], s[n..]);
    ValueJoins(s[n..], Zeros(n));
    ZerosValue(n);
    ValueBound(s[..n]);
  }

  /** The number that the first `n` of eight bytes stand for, the first byte being the lowest or the highest. */
  function Places(b: seq<Bits>, order: ByteOrder, n: nat): nat
    requires n <= |b| == 8
  {
    if n == 0 then 0
    else Places(b, order, n - 1) + ValueOf(b[n - 1]) * Pow(0x100, if order.LittleEndian? then n - 1 else 8 - n)
  }

  lemma {:induction false} LowOctets(s: Bits, n: nat)
    requires Word(s) && n <= 8
    ensures ValueOf(s[..8 * n]) == Places(SumOf(s, LittleEndian), LittleEndian, n)
    decreases n
  {
    if n > 0 {
      LowOctets(s, n - 1);
      assert s[..8 * n] == s[..8 * (n - 1)] + Octet(s, n - 1);
      ValueJoins(s[..8 * (n - 1)], Octet(s, n - 1));
      PowByteIsPowTwo(n - 1);
    }
  }

  /** In either order the bytes stand for the checksum. */
  lemma SumBytesValue(s: Bits, order: ByteOrder)
    requires Word(s)
    ensures Places(SumOf(s, order), order, 8) == ValueOf(s)
    ensures forall k :: 0 <= k < 8 ==> |SumOf(s, order)[k]| == 8
  {
    LowOctets(s, 8);
    assert s[..8 * 8] == s;
    if order.BigEndian? {
      Mirrored(SumOf(s, LittleEndian), SumOf(s, BigEndian), 8);
    }
  }

  lemma {:induction false} Mirrored(low: seq<Bits>, high: seq<Bits>, n: nat)
    requires n <= |low| == |high| == 8 && forall k :: 0 <= k < 8 ==> high[k] == low[7 - k]
    ensures Places(high, BigEndian, n) + Places(low, LittleEndian, 8 - n) == Places(low, LittleEndian, 8)
    decreases n
  {
    if n > 0 {
      Mirrored(low, high, n - 1);
      assert high[n - 1] == low[8 - n];
    }
  }

  /**
   * The checksum of data, as bytes: eight of them, lowest or highest first, standing for the
   * register after the bit-serial definition has run over the data.
   */
  method SumWithByteOrder(tab: array<Bits>, data: Bytes, order: ByteOrder) returns (b: seq<Bits>)
    requires IsTable(tab)
    ensures b == SumOf(Serial(EMPTY, data), order)
    ensures |b| == 8 && forall k :: 0 <= k < 8 ==> |b[k]| == 8
    ensures ValueOf(Serial(EMPTY, data)) == Places(b, order, 8)
    ensures ValueOf(EMPTY) == 0xc15d213aa4d7a795
  {
    EmptyValue();
    SumBytesValue(Serial(EMPTY, data), order);
    var d := new Digest(tab, order);
    var _ := d.Write(data);
    b := d.SumBytes();
  }
}
