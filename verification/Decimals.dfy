/** Arbitrary-precision decimals: two's-complement bytes, scaling and resource limits. */
module Decimals {
  import opened Powers
  import opened Wire

  const MAX_ALLOC: int := 0x1_0000_0000_0000

  // --- magnitudes ---

  /** Number of bits of the shortest binary numeral (zero for zero). */
  function BitLen(n: nat): nat {
    if n == 0 then 0 else 1 + BitLen(n / 2)
  }

  lemma {:induction false} BitLenBounds(n: nat, bits: nat)
    ensures BitLen(n) <= bits <==> n < Pow(2, bits)
    decreases bits
  {
    if bits == 0 {
    } else if n > 0 {
      BitLenBounds(n / 2, bits - 1);
      assert n / 2 < Pow(2, bits - 1) <==> n < 2 * Pow(2, bits - 1);
    }
  }

  /** Big-endian value of a byte string. */
  function FromBytes(b: Bytes): nat {
    if b == [] then 0 else FromBytes(b[..|b| - 1]) * 0x100 + b[|b| - 1]
  }

  /** Shortest big-endian byte string: no leading zero byte, empty for zero. */
  function Magnitude(n: nat): (b: Bytes)
    ensures FromBytes(b) == n
    ensures n > 0 ==> b != [] && b[0] > 0
    ensures n == 0 ==> b == []
  {
    if n == 0 then []
    else
      var b := Magnitude(n / 0x100) + [n % 0x100];
      assert b[..|b| - 1] == Magnitude(n / 0x100);
      b
  }

  lemma {:induction false} FromBytesBound(b: Bytes)
    ensures FromBytes(b) < Pow(0x100, |b|)
  {
    if b != [] {
      FromBytesBound(b[..|b| - 1]);
    }
  }

  lemma {:induction false} FromBytesSplit(a: Bytes, b: Bytes)
    ensures FromBytes(a + b) == FromBytes(a) * Pow(0x100, |b|) + FromBytes(b)
    decreases |b|
  {
    if b == [] {
      assert a + b == a;
    } else {
      var init := b[..|b| - 1];
      assert (a + b)[..|a + b| - 1] == a + init;
      FromBytesSplit(a, init);
      ShiftSum(FromBytes(a), Pow(0x100, |init|), FromBytes(init));
    }
  }

  lemma ShiftSum(x: nat, p: nat, y: nat)
    ensures (x * p + y) * 0x100 == x * (0x100 * p) + y * 0x100
  {
  }

  lemma FromBytesHead(b: Bytes)
    requires b != []
    ensures FromBytes(b) == b[0] * Pow(0x100, |b| - 1) + FromBytes(b[1..])
  {
    assert b == [b[0]] + b[1..];
    FromBytesSplit([b[0]], b[1..]);
    assert FromBytes([b[0]]) == b[0] by { assert FromBytes([b[0]][..0]) == 0; }
  }

  lemma {:induction false} FromBytesInjective(a: Bytes, b: Bytes)
    requires |a| == |b| && FromBytes(a) == FromBytes(b)
    ensures a == b
  {
    if a != [] {
      var n := |a| - 1;
      FromBytesInjective(a[..n], b[..n]);
      assert a == a[..n] + [a[n]] && b == b[..n] + [b[n]];
    }
  }

  lemma MagnitudeSize(n: nat, size: nat)
    ensures |Magnitude(n)| <= size <==> n < Pow(0x100, size)
  {
    var b := Magnitude(n);
    FromBytesBound(b);
    if |b| <= size {
      PowMonotonic(0x100, |b|, size);
    } else {
      FromBytesHead(b);
      PowMonotonic(0x100, size, |b| - 1);
      MulMonotonic(1, b[0], Pow(0x100, |b| - 1));
    }
  }

  // --- two's complement ---

  function Signed(b: Bytes): int {
    if b != [] && b[0] >= 0x80 then FromBytes(b) - Pow(0x100, |b|) else FromBytes(b)
  }

  /** Half the range of a `size`-byte string. */
  function Half(size: nat): (h: int)
    requires size > 0
    ensures h > 0
  {
    0x80 * Pow(0x100, size - 1)
  }

  lemma SignedRange(b: Bytes)
    requires b != []
    ensures -Half(|b|) <= Signed(b) < Half(|b|)
    ensures Signed(b) < 0 <==> b[0] >= 0x80
    ensures Half(|b|) * 2 == Pow(0x100, |b|)
  {
    FromBytesHead(b);
    FromBytesBound(b[1..]);
    var p := Pow(0x100, |b| - 1);
    if b[0] >= 0x80 {
      MulMonotonic(0x80, b[0], p);
      MulMonotonic(b[0], 0xff, p);
    } else {
      MulMonotonic(0, b[0], p);
      MulMonotonic(b[0], 0x7f, p);
    }
  }

  lemma SignedInjective(a: Bytes, b: Bytes)
    requires |a| == |b| && Signed(a) == Signed(b)
    ensures a == b
  {
    if a != [] {
      SignedRange(a);
      SignedRange(b);
      FromBytesInjective(a, b);
    }
  }

  function DecimalBytes(value: int): (b: Bytes)
    ensures b != []
  {
    if value == 0 then [0]
    else if value > 0 then
      var b := Magnitude(value);
      if b[0] >= 0x80 then [0] + b else b
    else
      var bits := BitLen(-value - 1) + 1;
      var size := (bits + 7) / 8;
      NegativeFits(value, size);
      Magnitude(value + Pow(0x100, size))
  }

  lemma {:induction false} HalfIsPowTwo(size: nat)
    requires size > 0
    ensures Half(size) == Pow(2, 8 * size - 1)
    ensures 2 * Half(size) == Pow(0x100, size)
  {
    var bits := 8 * size - 1;
    PowByteIsPowTwo(size);
    PowUnfold(2, bits);
    PowUnfold(0x100, size - 1);
  }

  lemma NegativeFits(value: int, size: nat)
    requires value < 0 && size == (BitLen(-value - 1) + 8) / 8
    ensures size > 0 && -value <= Half(size)
    ensures size > 1 ==> -value > Half(size - 1)
    ensures value + Pow(0x100, size) >= Half(size)
  {
    var m := -value - 1;
    HalfIsPowTwo(size);
    BitLenBounds(m, 8 * size - 1);
    if size > 1 {
      HalfIsPowTwo(size - 1);
      BitLenBounds(m, 8 * size - 9);
    }
  }

  /** A value fits `size` two's-complement bytes. */
  predicate Fits(value: int, size: nat) {
    size > 0 && -Half(size) <= value < Half(size)
  }

  lemma DecimalBytesExact(value: int)
    ensures Signed(DecimalBytes(value)) == value
    ensures |DecimalBytes(value)| > 1 ==> !Fits(value, |DecimalBytes(value)| - 1)
  {
    if value == 0 {
      ZeroByte();
    } else if value > 0 {
      PositiveBytesExact(value);
    } else {
      NegativeBytesExact(value);
    }
  }

  lemma ZeroByte()
    ensures FromBytes([0]) == 0
  {
    assert FromBytes([0][..0]) == 0;
  }

  lemma PositiveBytesExact(value: int)
    requires value > 0
    ensures Signed(DecimalBytes(value)) == value
    ensures |DecimalBytes(value)| > 1 ==> !Fits(value, |DecimalBytes(value)| - 1)
  {
    var m := Magnitude(value);
    var p := Pow(0x100, |m| - 1);
    FromBytesHead(m);
    if m[0] >= 0x80 {
      FromBytesSplit([0], m);
      ZeroByte();
      MulMonotonic(0x80, m[0], p);
    } else if |m| > 1 {
      MulMonotonic(1, m[0], p);
    }
  }

  lemma NegativeBytesExact(value: int)
    requires value < 0
    ensures Signed(DecimalBytes(value)) == value
    ensures |DecimalBytes(value)| > 1 ==> !Fits(value, |DecimalBytes(value)| - 1)
  {
    var size := (BitLen(-value - 1) + 8) / 8;
    var b := DecimalBytes(value);
    NegativeFits(value, size);
    NegativeMagnitude(value, size);
    TopBit(b);
  }

  lemma TopBit(b: Bytes)
    requires b != []
    ensures FromBytes(b) >= Half(|b|) <==> b[0] >= 0x80
  {
    FromBytesHead(b);
    FromBytesBound(b[1..]);
    if b[0] < 0x80 {
      MulMonotonic(b[0], 0x7f, Pow(0x100, |b| - 1));
    } else {
      MulMonotonic(0x80, b[0], Pow(0x100, |b| - 1));
    }
  }

  lemma NegativeMagnitude(value: int, size: nat)
    requires value < 0 && size > 0 && -value <= Half(size)
    requires value + Pow(0x100, size) >= Half(size)
    ensures |Magnitude(value + Pow(0x100, size))| == size
  {
    var n := value + Pow(0x100, size);
    MagnitudeSize(n, size);
    MagnitudeSize(n, size - 1);
  }

  lemma {:induction false} HalfMonotonic(a: nat, b: nat)
    requires 0 < a <= b
    ensures Half(a) <= Half(b)
  {
    PowMonotonic(0x100, a - 1, b - 1);
  }

  /** Among all non-empty byte strings for a value, `DecimalBytes` is the one shortest. */
  lemma DecimalBytesShortest(value: int, b: Bytes)
    requires b != [] && Signed(b) == value
    ensures |DecimalBytes(value)| <= |b|
    ensures |DecimalBytes(value)| == |b| ==> b == DecimalBytes(value)
  {
    var d := DecimalBytes(value);
    DecimalBytesExact(value);
    SignedRange(b);
    if |b| < |d| {
      HalfMonotonic(|b|, |d| - 1);
      assert false;
    }
    if |d| == |b| {
      SignedInjective(b, d);
    }
  }

  /** The bytes fit in `size` exactly when the value does. */
  lemma DecimalBytesFit(value: int, size: nat)
    requires size > 0
    ensures |DecimalBytes(value)| <= size <==> Fits(value, size)
  {
    var d := DecimalBytes(value);
    DecimalBytesExact(value);
    SignedRange(d);
    if |d| <= size {
      HalfMonotonic(|d|, size);
    } else {
      HalfMonotonic(size, |d| - 1);
    }
  }

  // --- fixed-size padding ---

  function Repeat(b: byte, n: nat): (r: Bytes)
    ensures |r| == n && forall i :: 0 <= i < n ==> r[i] == b
  {
    seq(n, _ => b)
  }

  /** Sign extension to a fixed size. */
  function SignExtend(b: Bytes, negative: bool, size: nat): Bytes
    requires |b| <= size
  {
    Repeat(if negative then 0xff else 0, size - |b|) + b
  }

  lemma {:induction false} SignExtendKeepsValue(b: Bytes, size: nat)
    requires b != [] && |b| <= size
    ensures Signed(SignExtend(b, Signed(b) < 0, size)) == Signed(b)
    decreases size
  {
    SignedRange(b);
    var fill: byte := if Signed(b) < 0 then 0xff else 0;
    if |b| == size {
      assert SignExtend(b, Signed(b) < 0, size) == b;
    } else {
      var shorter := SignExtend(b, Signed(b) < 0, size - 1);
      SignExtendKeepsValue(b, size - 1);
      SignedRange(shorter);
      var padded := SignExtend(b, Signed(b) < 0, size);
      assert padded == [fill] + shorter;
      FromBytesHead(padded);
      assert padded[1..] == shorter;
    }
  }

  /** The fixed codec fills a buffer with the sign and copies the bytes to its end. */
  method PadFixed(b: Bytes, negative: bool, size: nat) returns (padded: array<byte>)
    requires |b| <= size
    ensures fresh(padded)
    ensures padded[..] == SignExtend(b, negative, size)
  {
    padded := new byte[size](_ => 0);
    if negative {
      for i := 0 to size
        invariant forall k :: 0 <= k < i ==> padded[k] == 0xff
      {
        padded[i] := 0xff;
      }
    }
    var start := size - |b|;
    for i := 0 to |b|
      invariant forall k :: 0 <= k < start ==> padded[k] == if negative then 0xff else 0
      invariant forall k :: 0 <= k < i ==> padded[start + k] == b[k]
    {
      padded[start + i] := b[i];
    }
    var want := SignExtend(b, negative, size);
    assert forall k :: 0 <= k < size ==> padded[k] == want[k];
  }

  // --- precision and scale ---

  function Digits(n: nat): nat {
    if n < 10 then 1 else 1 + Digits(n / 10)
  }

  lemma {:induction false} DigitsBound(n: nat, precision: nat)
    requires precision > 0
    ensures Digits(n) <= precision <==> n < Pow(10, precision)
    decreases precision
  {
    if n >= 10 && precision > 1 {
      DigitsBound(n / 10, precision - 1);
      assert n / 10 < Pow(10, precision - 1) <==> n < 10 * Pow(10, precision - 1);
    } else if n >= 10 {
      assert Pow(10, 1) == 10;
    } else {
      PowMonotonic(10, 1, precision);
      assert Pow(10, 1) == 10;
    }
  }

  predicate PrecisionOk(value: int, precision: int) {
    Digits(Abs(value)) <= precision
  }

  /** A value within a precision that the fixed size admits never overflows the fixed. */
  lemma FixedNeverOverflows(value: int, precision: nat, size: nat)
    requires precision > 0 && size > 0 && Pow(10, precision) <= Pow(2, 8 * size - 1)
    requires PrecisionOk(value, precision)
    ensures |DecimalBytes(value)| <= size
  {
    DigitsBound(Abs(value), precision);
    HalfIsPowTwo(size);
    DecimalBytesFit(value, size);
  }

  function BitLimit(limit: int): (bits: nat) {
    (if limit < 0 || limit > MAX_ALLOC then MAX_ALLOC else limit) * 8
  }

  function DecimalPower(scale: int, limit: int): (r: Option<nat>) {
    if scale < 0 || scale > BitLimit(limit) / 3 then None
    else
      var power := Pow(10, scale);
      if BitLen(power) > BitLimit(limit) then None else Some(power)
  }

  lemma {:induction false} TenDominatesEight(n: nat)
    ensures Pow(10, n) >= Pow(2, 3 * n)
  {
    if n > 0 {
      TenDominatesEight(n - 1);
      PowAdds(2, 3, 3 * n - 3);
      assert Pow(2, 3) == 8;
      assert 10 * Pow(10, n - 1) >= 8 * Pow(2, 3 * n - 3);
    }
  }

  /** The cheap exponent test agrees with the exact bit-length test. */
  lemma DecimalPowerExact(scale: int, limit: int)
    ensures DecimalPower(scale, limit)
         == if scale >= 0 && BitLen(Pow(10, scale)) <= BitLimit(limit) then Some(Pow(10, scale)) else None
  {
    if scale > BitLimit(limit) / 3 {
      var bits := BitLimit(limit);
      TenDominatesEight(scale);
      PowMonotonic(2, bits, 3 * scale);
      BitLenBounds(Pow(10, scale), bits);
    }
  }

  /** A rational as its numerator and positive denominator. */
  datatype Rat = Rat(num: int, den: nat) {
    predicate Valid() {
      den > 0
    }

    predicate Equals(other: Rat) {
      num * other.den == other.num * den
    }
  }

  datatype DecimalError = LimitExceeded | Inexact | PrecisionExceeded

  datatype DecimalResult = Exact(unscaled: int) | Refused(error: DecimalError)

  /** Division rounding toward zero. */
  function QuoRem(a: int, b: int): (r: (int, int))
    requires b > 0
    ensures a == r.0 * b + r.1
    ensures -b < r.1 < b
  {
    if a >= 0 then
      assert a == a / b * b + a % b;
      (a / b, a % b)
    else
      assert -a == (-a) / b * b + (-a) % b;
      (-((-a) / b), -((-a) % b))
  }

  function ScaledDecimal(value: Rat, precision: int, scale: int, limit: int): DecimalResult
    requires value.Valid()
  {
    if value.num == 0 then Exact(0)
    else
      var bits := BitLimit(limit);
      if BitLen(Abs(value.num)) > bits || BitLen(value.den) > bits then Refused(LimitExceeded)
      else
        match DecimalPower(scale, limit)
        case None => Refused(LimitExceeded)
        case Some(power) =>
          var (unscaled, remainder) := QuoRem(value.num * power, value.den);
          if remainder != 0 then Refused(Inexact)
          else if BitLen(Abs(unscaled)) > bits then Refused(LimitExceeded)
          else if !PrecisionOk(unscaled, precision) then Refused(PrecisionExceeded)
          else Exact(unscaled)
  }

  /** Everything `ScaledDecimal` demands of a candidate `u` for a non-zero value. */
  ghost predicate Representable(value: Rat, precision: int, scale: int, limit: int, u: int) {
    && scale >= 0
    && u * value.den == value.num * Pow(10, scale)
    && BitLen(Abs(value.num)) <= BitLimit(limit)
    && BitLen(value.den) <= BitLimit(limit)
    && BitLen(Pow(10, scale)) <= BitLimit(limit)
    && BitLen(Abs(u)) <= BitLimit(limit)
    && PrecisionOk(u, precision)
  }

  lemma ScaledDecimalExact(value: Rat, precision: int, scale: int, limit: int, u: int)
    requires value.Valid()
    ensures value.num != 0 ==>
              (ScaledDecimal(value, precision, scale, limit) == Exact(u)
               <==> Representable(value, precision, scale, limit, u))
    ensures value.num == 0 ==>
              (ScaledDecimal(value, precision, scale, limit) == Exact(u) <==> u == 0)
  {
    DecimalPowerExact(scale, limit);
    if value.num != 0 && scale >= 0 {
      var n := value.num * Pow(10, scale);
      var (q, r) := QuoRem(n, value.den);
      if u * value.den == n {
        QuotientUnique(value.den, u, q, r);
      }
    }
  }

  lemma NonZeroProduct(a: int, b: int)
    requires a != 0 && b >= 1
    ensures a * b != 0
  {
  }

  lemma QuotientUnique(d: int, u: int, q: int, r: int)
    requires d > 0 && u * d == q * d + r && -d < r < d
    ensures u == q && r == 0
  {
    var k := u - q;
    assert k * d == r;
    if k > 0 {
      MulMonotonic(1, k, d);
    } else if k < 0 {
      MulMonotonic(k, -1, d);
    }
  }

  function DecimalUnscaled(b: Bytes, precision: int, limit: int): DecimalResult {
    if |b| > BitLimit(limit) / 8 then Refused(LimitExceeded)
    else if !PrecisionOk(Signed(b), precision) then Refused(PrecisionExceeded)
    else Exact(Signed(b))
  }

  /** Reads the rational behind decimal bytes. */
  function ReadDecimal(b: Bytes, precision: int, scale: int, limit: int): Option<Rat> {
    match DecimalUnscaled(b, precision, limit)
    case Refused(_) => None
    case Exact(unscaled) =>
      if unscaled == 0 then Some(Rat(0, 1))
      else
        match DecimalPower(scale, limit)
        case None => None
        case Some(power) => Some(Rat(unscaled, power))
  }

  /** The length-prefixed payload of a decimal, when it can be written. */
  function WriteDecimal(value: Rat, precision: int, scale: int, limit: int): Option<Bytes>
    requires value.Valid()
  {
    match ScaledDecimal(value, precision, scale, limit)
    case Refused(_) => None
    case Exact(unscaled) =>
      var b := DecimalBytes(unscaled);
      if limit > 0 && |b| > limit then None else Some(b)
  }

  /**
   * What was written reads back as an equal rational, except when the limit is disabled
   * or lies beyond the platform limit and the payload outgrows the platform limit.
   */
  lemma DecimalRoundTrip(value: Rat, precision: int, scale: int, limit: int)
    requires value.Valid() && precision > 0
    requires WriteDecimal(value, precision, scale, limit).Some?
    ensures var b := WriteDecimal(value, precision, scale, limit).value;
            var back := ReadDecimal(b, precision, scale, limit);
            && (back.Some? <==> |b| <= BitLimit(limit) / 8)
            && (back.Some? ==> back.value.Valid() && back.value.Equals(value))
            && (0 < limit <= MAX_ALLOC ==> back.Some?)
  {
    var u := ScaledDecimal(value, precision, scale, limit).unscaled;
    DecimalBytesExact(u);
    UnscaledReadsBack(value, precision, scale, limit, u, DecimalBytes(u));
  }

  /** Any bytes for the unscaled integer read back as the value, if reading admits so many. */
  lemma UnscaledReadsBack(value: Rat, precision: int, scale: int, limit: int, u: int, b: Bytes)
    requires value.Valid() && precision > 0 && Signed(b) == u
    requires ScaledDecimal(value, precision, scale, limit) == Exact(u)
    ensures var back := ReadDecimal(b, precision, scale, limit);
            && (back.Some? <==> |b| <= BitLimit(limit) / 8)
            && (back.Some? ==> back.value.Valid() && back.value.Equals(value))
  {
    ScaledDecimalExact(value, precision, scale, limit, u);
    DecimalPowerExact(scale, limit);
    if value.num != 0 {
      NonZeroProduct(value.num, Pow(10, scale));
    }
  }

  // --- decimals of a fixed size ---

  /** The bytes of a fixed decimal, when it can be written. */
  function WriteFixedDecimal(value: Rat, precision: int, scale: int, size: nat, limit: int): Option<Bytes>
    requires value.Valid()
  {
    match ScaledDecimal(value, precision, scale, limit)
    case Refused(_) => None
    case Exact(unscaled) =>
      var b := DecimalBytes(unscaled);
      if |b| > size then None else Some(SignExtend(b, unscaled < 0, size))
  }

  lemma ExtendNothing(b: Bytes, negative: bool)
    ensures SignExtend(b, negative, |b|) == b
  {
  }

  method EncodeFixedDecimal(value: Rat, precision: int, scale: int, size: nat, limit: int) returns (written: Option<Bytes>)
    requires value.Valid()
    ensures written == WriteFixedDecimal(value, precision, scale, size, limit)
  {
    hide ScaledDecimal, DecimalBytes, SignExtend;
    match ScaledDecimal(value, precision, scale, limit)
    case Refused(_) => written := None;
    case Exact(unscaled) =>
      var b := DecimalBytes(unscaled);
      if |b| > size {
        return None;
      }
      ExtendNothing(b, unscaled < 0);
      if |b| < size {
        var padded := PadFixed(b, unscaled < 0, size);
        b := padded[..];
      }
      written := Some(b);
  }

  /**
   * What was written to a fixed fills it and reads back as an equal rational, if the fixed is
   * within the limit of reading.
   */
  lemma FixedRoundTrip(value: Rat, precision: int, scale: int, size: nat, limit: int)
    requires value.Valid() && precision > 0
    requires WriteFixedDecimal(value, precision, scale, size, limit).Some?
    ensures var b := WriteFixedDecimal(value, precision, scale, size, limit).value;
            var back := ReadDecimal(b, precision, scale, limit);
            && |b| == size
            && (back.Some? <==> size <= BitLimit(limit) / 8)
            && (back.Some? ==> back.value.Valid() && back.value.Equals(value))
  {
    var u := ScaledDecimal(value, precision, scale, limit).unscaled;
    DecimalBytesExact(u);
    SignExtendKeepsValue(DecimalBytes(u), size);
    UnscaledReadsBack(value, precision, scale, limit, u, SignExtend(DecimalBytes(u), u < 0, size));
  }

  /** When the size admits the precision, the size is never the reason for a failure. */
  lemma FixedSizeSuffices(value: Rat, precision: nat, scale: int, size: nat, limit: int)
    requires value.Valid() && precision > 0 && size > 0 && Pow(10, precision) <= Pow(2, 8 * size - 1)
    ensures WriteFixedDecimal(value, precision, scale, size, limit).Some? <==> ScaledDecimal(value, precision, scale, limit).Exact?
  {
    if ScaledDecimal(value, precision, scale, limit).Exact? {
      var u := ScaledDecimal(value, precision, scale, limit).unscaled;
      FixedNeverOverflows(u, precision, size);
    }
  }
}
