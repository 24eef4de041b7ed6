/** What the bottom of the encoding means, apart from its decoder: varints as sums, UTF-8 as code points. */
module WireLaws {
  import opened Powers
  import opened Wire

  // --- varints ---

  /** The number in the first `k` bytes: seven bits of each, the first the lowest. */
  function SevenBits(b: Bytes, k: nat): nat
    requires k <= |b|
  {
    if k == 0 then 0 else SevenBits(b, k - 1) + b[k - 1] % 0x80 * Pow(0x80, k - 1)
  }

  lemma {:induction false} SevenBitsFront(b: Bytes, k: nat)
    requires 0 < k <= |b|
    ensures SevenBits(b, k) == b[0] % 0x80 + 0x80 * SevenBits(b[1..], k - 1)
    decreases k
  {
    if k == 1 {
      assert SevenBits(b, 0) == 0 && Pow(0x80, 0) == 1;
    } else {
      SevenBitsFront(b, k - 1);
      assert b[1..][k - 2] == b[k - 1];
      var x := b[k - 1] % 0x80;
      MulAssoc(0x80, x, Pow(0x80, k - 2));
      MulAssoc(x, 0x80, Pow(0x80, k - 2));
    }
  }

  /** `k` bytes hold a varint of at most `size` bytes: all but the last are marked, and the last is not too large. */
  predicate IsVarint(b: Bytes, k: nat, size: nat, last: byte) {
    && 1 <= k <= |b| && k <= size
    && (forall i :: 0 <= i < k - 1 ==> b[i] >= 0x80)
    && b[k - 1] < 0x80
    && (k == size ==> b[k - 1] <= last)
  }

  /** Decoding succeeds exactly on such bytes, with their number. */
  lemma {:induction false} VarintExact(b: Bytes, k: nat, size: nat, last: byte)
    requires size > 0 && last < 0x80 && k <= |b|
    ensures var r := ReadVarint(b, size, last);
            && (r.Ok? && r.rest == b[k..] <==> IsVarint(b, k, size, last))
            && (r.Ok? && r.rest == b[k..] ==> r.value == SevenBits(b, k))
    decreases k
  {
    if k > 0 {
      assert b[k..] == b[1..][k - 1..];
      SevenBitsFront(b, k);
      if b[0] >= 0x80 && size > 1 {
        VarintExact(b[1..], k - 1, size - 1, last);
        if k > 1 {
          TailVarint(b, k, size, last);
        }
      }
    }
  }

  lemma TailVarint(b: Bytes, k: nat, size: nat, last: byte)
    requires 1 < k <= |b| && size > 1 && b[0] >= 0x80
    ensures IsVarint(b, k, size, last) <==> IsVarint(b[1..], k - 1, size - 1, last)
  {
    var t := b[1..];
    assert forall i :: 0 <= i < k - 1 ==> t[i] == b[i + 1];
    if IsVarint(t, k - 1, size - 1, last) {
      assert forall i :: 0 < i < k - 1 ==> b[i] == t[i - 1];
    }
  }

  // --- UTF-8 ---

  /** Code points that are no surrogates. */
  predicate Scalar(c: int) {
    0 <= c <= 0x10ffff && !(0xd800 <= c <= 0xdfff)
  }

  /** A code point in one to four bytes. */
  function Utf8(c: int): (b: Bytes)
    requires Scalar(c)
    ensures 1 <= |b| <= 4
  {
    if c < 0x80 then [c]
    else if c < 0x800 then [0xc0 + c / 0x40, 0x80 + c % 0x40]
    else if c < 0x1_0000 then [0xe0 + c / 0x1000, 0x80 + c / 0x40 % 0x40, 0x80 + c % 0x40]
    else [0xf0 + c / 0x4_0000, 0x80 + c / 0x1000 % 0x40, 0x80 + c / 0x40 % 0x40, 0x80 + c % 0x40]
  }

  function EncodeText(cs: seq<int>): Bytes
    requires forall c | c in cs :: Scalar(c)
  {
    if cs == [] then [] else Utf8(cs[0]) + EncodeText(cs[1..])
  }

  lemma ScalarEncoded(c: int, rest: Bytes)
    requires Scalar(c)
    ensures ScalarLength(Utf8(c) + rest) == |Utf8(c)|
  {
    var b := Utf8(c) + rest;
    assert forall i :: 0 <= i < |Utf8(c)| ==> b[i] == Utf8(c)[i];
  }

  /** Six bits behind what came before. */
  function Push(high: int, b: byte): int {
    0x40 * high + (b as int - 0x80)
  }

  lemma Pushed(high: int, b: byte)
    requires Continuation(b)
    ensures Push(high, b) / 0x40 == high && 0x80 + Push(high, b) % 0x40 == b
  {
  }

  lemma Thirds(c: int)
    ensures c / 0x1000 == c / 0x40 / 0x40 && c / 0x4_0000 == c / 0x40 / 0x40 / 0x40
  {
  }

  lemma ScalarDecoded(b: Bytes) returns (c: int)
    requires ScalarLength(b) > 0
    ensures Scalar(c) && Utf8(c) == b[..ScalarLength(b)]
  {
    var n := ScalarLength(b);
    if n == 1 {
      c := b[0] as int;
    } else if n == 2 {
      c := Push(b[0] as int - 0xc0, b[1]);
      Pushed(b[0] as int - 0xc0, b[1]);
    } else if n == 3 {
      c := ThreeBytes(b);
    } else {
      c := FourBytes(b);
    }
  }

  lemma ThreeBytes(b: Bytes) returns (c: int)
    requires ScalarLength(b) == 3
    ensures Scalar(c) && Utf8(c) == b[..3]
  {
    var high := Push(b[0] as int - 0xe0, b[1]);
    c := Push(high, b[2]);
    Pushed(b[0] as int - 0xe0, b[1]);
    Pushed(high, b[2]);
    Thirds(c);
  }

  lemma FourBytes(b: Bytes) returns (c: int)
    requires ScalarLength(b) == 4
    ensures Scalar(c) && Utf8(c) == b[..4]
  {
    var top := Push(b[0] as int - 0xf0, b[1]);
    var high := Push(top, b[2]);
    c := Push(high, b[3]);
    Pushed(b[0] as int - 0xf0, b[1]);
    Pushed(top, b[2]);
    Pushed(high, b[3]);
    Thirds(c);
  }

  lemma {:induction false} TextValid(cs: seq<int>)
    requires forall c | c in cs :: Scalar(c)
    ensures ValidUtf8(EncodeText(cs))
    decreases |cs|
  {
    if cs != [] {
      var b := EncodeText(cs);
      ScalarEncoded(cs[0], EncodeText(cs[1..]));
      assert b[|Utf8(cs[0])|..] == EncodeText(cs[1..]);
      TextValid(cs[1..]);
    }
  }

  lemma {:induction false} ValidText(b: Bytes) returns (cs: seq<int>)
    requires ValidUtf8(b)
    ensures (forall c | c in cs :: Scalar(c)) && EncodeText(cs) == b
    decreases |b|
  {
    if b == [] {
      cs := [];
    } else {
      var c := ScalarDecoded(b);
      var rest := ValidText(b[ScalarLength(b)..]);
      cs := [c] + rest;
      assert cs[1..] == rest && b == b[..ScalarLength(b)] + b[ScalarLength(b)..];
    }
  }

  /** Bytes are accepted as text exactly if they encode code points, each in its one shortest form. */
  lemma Utf8Exact(b: Bytes)
    ensures ValidUtf8(b) <==> exists cs: seq<int> :: (forall c | c in cs :: Scalar(c)) && EncodeText(cs) == b
  {
    if ValidUtf8(b) {
      var cs := ValidText(b);
    } else if exists cs: seq<int> :: (forall c | c in cs :: Scalar(c)) && EncodeText(cs) == b {
      var cs: seq<int> :| (forall c | c in cs :: Scalar(c)) && EncodeText(cs) == b;
      TextValid(cs);
    }
  }
}
