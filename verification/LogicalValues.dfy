/** Primitive and logical values: what the encoders write is what the generic reader returns. */
module LogicalValues {
  import opened Wire
  import opened Datums
  import opened Schemas
  import opened Values
  import opened Decoding
  import Decimals
  import Powers
  import Timestamps

  // --- plain and promoted primitives ---

  /** Without a logical type a primitive reads as what was written. */
  lemma PlainReads(cfg: Config, g: Graph, depth: nat, d: Datum, suffix: Bytes)
    requires Within(cfg, d)
    ensures d.DBool? ==> Read(cfg, g, depth, Primitive(Boolean, NoLogical, None), Encode(d) + suffix) == Ok(VBool(d.b), suffix)
    ensures d.DInt? ==> Read(cfg, g, depth, Primitive(Int, NoLogical, None), Encode(d) + suffix) == Ok(VInt(d.i), suffix)
    ensures d.DLong? ==> Read(cfg, g, depth, Primitive(Long, NoLogical, None), Encode(d) + suffix) == Ok(VLong(d.l), suffix)
    ensures d.DFloat? && |d.bits| == 4 ==>
              Read(cfg, g, depth, Primitive(Float, NoLogical, None), d.bits + suffix) == Ok(VFloat(Bits(d.bits)), suffix)
    ensures d.DDouble? && |d.bits| == 8 ==>
              Read(cfg, g, depth, Primitive(Double, NoLogical, None), d.bits + suffix) == Ok(VDouble(Bits(d.bits)), suffix)
    ensures d.DBytes? ==>
              Read(cfg, g, depth, Primitive(BytesKind, NoLogical, None), Encode(d) + suffix) == Ok(VBytes(d.bytes), suffix)
    ensures d.DBytes? && ValidUtf8(d.bytes) ==>
              Read(cfg, g, depth, Primitive(StringKind, NoLogical, None), Encode(d) + suffix) == Ok(VString(d.bytes), suffix)
    ensures d.DBytes? && !ValidUtf8(d.bytes) ==>
              Read(cfg, g, depth, Primitive(StringKind, NoLogical, None), Encode(d) + suffix) == Fail(Invalid)
  {
    hide ReadLong, Wire.ReadInt, Decoding.ReadBytes;
    match d
    case DBool(_) => DatumRoundTrip(cfg, Boolean, d, suffix);
    case DInt(_) => DatumRoundTrip(cfg, Int, d, suffix);
    case DLong(_) => DatumRoundTrip(cfg, Long, d, suffix);
    case DFloat(bits) => RawRoundTrip(bits, suffix);
    case DDouble(bits) => RawRoundTrip(bits, suffix);
    case DBytes(bytes) => BytesRoundTrip(cfg, bytes, suffix);
    case _ =>
  }

  /** The numeric promotions of "Schema Resolution": the writer's number in the reader's type. */
  lemma PromotedReads(cfg: Config, g: Graph, depth: nat, d: Datum, suffix: Bytes)
    requires Within(cfg, d)
    ensures d.DInt? ==>
              && Read(cfg, g, depth, Primitive(Long, NoLogical, Some(Int)), Encode(d) + suffix) == Ok(VLong(d.i), suffix)
              && Read(cfg, g, depth, Primitive(Float, NoLogical, Some(Int)), Encode(d) + suffix) == Ok(VFloat(FromInt(d.i)), suffix)
              && Read(cfg, g, depth, Primitive(Double, NoLogical, Some(Int)), Encode(d) + suffix) == Ok(VDouble(FromInt(d.i)), suffix)
    ensures d.DLong? ==>
              && Read(cfg, g, depth, Primitive(Float, NoLogical, Some(Long)), Encode(d) + suffix) == Ok(VFloat(FromLong(d.l)), suffix)
              && Read(cfg, g, depth, Primitive(Double, NoLogical, Some(Long)), Encode(d) + suffix) == Ok(VDouble(FromLong(d.l)), suffix)
    ensures d.DFloat? && |d.bits| == 4 ==>
              Read(cfg, g, depth, Primitive(Double, NoLogical, Some(Float)), d.bits + suffix) == Ok(VDouble(Widened(d.bits)), suffix)
  {
    hide ReadLong, Wire.ReadInt, Decoding.ReadBytes;
    match d
    case DInt(_) => DatumRoundTrip(cfg, Int, d, suffix);
    case DLong(_) => DatumRoundTrip(cfg, Long, d, suffix);
    case DFloat(bits) => RawRoundTrip(bits, suffix);
    case _ =>
  }

  /** Text and bytes stand for each other; bytes that are not text are refused as text. */
  lemma PromotedText(cfg: Config, g: Graph, depth: nat, bs: Bytes, suffix: Bytes)
    requires FitsBytes(cfg, |bs|)
    ensures Read(cfg, g, depth, Primitive(BytesKind, NoLogical, Some(StringKind)), EncodeBytes(bs) + suffix)
         == Ok(VBytes(bs), suffix)
    ensures Read(cfg, g, depth, Primitive(StringKind, NoLogical, Some(BytesKind)), EncodeBytes(bs) + suffix)
         == if ValidUtf8(bs) then Ok(VString(bs), suffix) else Fail(Invalid)
  {
    hide ReadLong, Wire.ReadInt, Decoding.ReadBytes;
    BytesRoundTrip(cfg, bs, suffix);
  }

  /** The logical types that change what a primitive kind reads as. */
  predicate Applies(kind: Kind, logical: Logical) {
    match logical
    case Date => kind.Int?
    case TimeMillis => kind.Int?
    case TimeMicros => kind.Long?
    case TimestampMillis => kind.Long?
    case TimestampMicros => kind.Long?
    case LocalTimestampMillis => kind.Long?
    case LocalTimestampMicros => kind.Long?
    case Decimal(precision, scale) => kind.BytesKind? && 0 < precision && 0 <= scale <= precision
    case _ => false
  }

  /** Any other annotation is ignored. */
  lemma IgnoredLogical(cfg: Config, g: Graph, depth: nat, kind: Kind, logical: Logical, encodedType: Option<Kind>, b: Bytes)
    requires !Applies(kind, logical)
    ensures Read(cfg, g, depth, Primitive(kind, logical, encodedType), b)
         == Read(cfg, g, depth, Primitive(kind, NoLogical, encodedType), b)
  {
    hide ReadLong, Wire.ReadInt;
    var r := ReadDatum(cfg, ReadKind(kind, encodedType), b);
    if r.Ok? && kind.Int? {
      assert r.value.DInt?;
    }
  }

  // --- dates ---

  /** The days to the midnight before a second of UTC, if an int counts so far. */
  function DateDays(sec: int): Option<int> {
    var midnight := sec - sec % 86_400;
    if Int32(midnight / 86_400) then Some(midnight / 86_400) else None
  }

  /** A date reads as the midnight it was written for; every int is one. */
  lemma DateReads(cfg: Config, g: Graph, depth: nat, sec: int, i: int, suffix: Bytes)
    requires Int32(i)
    ensures Read(cfg, g, depth, Primitive(Int, Date, None), EncodeLong(i) + suffix) == Ok(VInstant(86_400 * i, 0), suffix)
    ensures DateDays(86_400 * i) == Some(i)
    ensures DateDays(sec) == Some(i) <==> 86_400 * i <= sec < 86_400 * (i + 1)
  {
    hide Wire.ReadInt;
    IntRoundTrip(i, suffix);
  }

  // --- times of day ---

  /** Whole units of a duration in nanoseconds since midnight, if it is less than a day. */
  function TimeUnits(nanos: int, unit: int): Option<int>
    requires unit > 0
  {
    if nanos < 0 || nanos >= 24 * 3_600 * 1_000_000_000 then None else Some(nanos / unit)
  }

  const MILLISECOND: int := 1_000_000
  const MICROSECOND: int := 1_000

  /** What is read is the time written, to the millisecond; no other int is a time. */
  lemma TimeMillisReads(cfg: Config, g: Graph, depth: nat, nanos: int, i: int, suffix: Bytes)
    requires Int32(i)
    ensures Read(cfg, g, depth, Primitive(Int, TimeMillis, None), EncodeLong(i) + suffix)
         == if 0 <= i < 86_400_000 then Ok(VTime(1_000_000 * i), suffix) else Fail(Invalid)
    ensures 0 <= i < 86_400_000 ==> TimeUnits(1_000_000 * i, MILLISECOND) == Some(i)
    ensures TimeUnits(nanos, MILLISECOND) == Some(i) <==> 0 <= i < 86_400_000 && 1_000_000 * i <= nanos < 1_000_000 * (i + 1)
  {
    hide Wire.ReadInt;
    IntRoundTrip(i, suffix);
  }

  /** To the microsecond, from a long or from an int. */
  lemma TimeMicrosReads(cfg: Config, g: Graph, depth: nat, nanos: int, i: int, suffix: Bytes)
    requires Int64(i)
    ensures Read(cfg, g, depth, Primitive(Long, TimeMicros, None), EncodeLong(i) + suffix)
         == if 0 <= i < 86_400_000_000 then Ok(VTime(1_000 * i), suffix) else Fail(Invalid)
    ensures var r := Read(cfg, g, depth, Primitive(Long, TimeMicros, Some(Int)), EncodeLong(i) + suffix);
            Int32(i) ==> r == if 0 <= i then Ok(VTime(1_000 * i), suffix) else Fail(Invalid)
    ensures 0 <= i < 86_400_000_000 ==> TimeUnits(1_000 * i, MICROSECOND) == Some(i)
    ensures TimeUnits(nanos, MICROSECOND) == Some(i) <==> 0 <= i < 86_400_000_000 && 1_000 * i <= nanos < 1_000 * (i + 1)
  {
    hide Wire.ReadInt, ReadLong;
    LongRoundTrip(i, suffix);
    if Int32(i) {
      IntRoundTrip(i, suffix);
    }
  }

  // --- timestamps ---

  predicate CountsMillis(logical: Logical) {
    logical.TimestampMillis? || logical.LocalTimestampMillis?
  }

  predicate CountsMicros(logical: Logical) {
    logical.TimestampMicros? || logical.LocalTimestampMicros?
  }

  /** The instant `i` units after the epoch: its nanoseconds are counted from a second at or before it. */
  predicate InstantAt(v: Value, nanosSinceEpoch: int) {
    v.VInstant? && 0 <= v.nanos < 1_000_000_000 && 1_000_000_000 * v.sec + v.nanos == nanosSinceEpoch
  }

  /** Every long, or promoted int, is an instant that many milli- or microseconds after the epoch. */
  lemma TimestampReads(cfg: Config, g: Graph, depth: nat, logical: Logical, i: int, suffix: Bytes)
    requires Int64(i) && (CountsMillis(logical) || CountsMicros(logical))
    ensures var r := Read(cfg, g, depth, Primitive(Long, logical, None), EncodeLong(i) + suffix);
            && r.Ok? && r.rest == suffix
            && InstantAt(r.value, i * if CountsMillis(logical) then 1_000_000 else 1_000)
            && (Int32(i) ==> Read(cfg, g, depth, Primitive(Long, logical, Some(Int)), EncodeLong(i) + suffix) == r)
  {
    hide Wire.ReadInt, ReadLong;
    LongRoundTrip(i, suffix);
    if Int32(i) {
      IntRoundTrip(i, suffix);
    }
  }

  /** An instant the encoder accepts reads back as itself, rounded down to whole units. */
  lemma TimestampRoundTrip(cfg: Config, g: Graph, depth: nat, logical: Logical, t: Timestamps.Instant, suffix: Bytes)
    requires t.Valid() && (CountsMillis(logical) || CountsMicros(logical))
    ensures var unit := if CountsMillis(logical) then Timestamps.Millis else Timestamps.Micros;
            var size := if CountsMillis(logical) then 1_000_000 else 1_000;
            var i := Timestamps.TimestampValue(t, unit);
            var r := Read(cfg, g, depth, Primitive(Long, logical, None), EncodeLong(if i.Some? then i.value as int else 0) + suffix);
            i.Some? ==> r == Ok(VInstant(t.sec as int, t.nanos as int - t.nanos as int % size), suffix)
  {
    hide Read, Timestamps.TimestampValue, Timestamps.FloorUnits, EncodeLong;
    var unit := if CountsMillis(logical) then Timestamps.Millis else Timestamps.Micros;
    var i := Timestamps.TimestampValue(t, unit);
    if i.Some? {
      TimestampReads(cfg, g, depth, logical, i.value as int, suffix);
      var v := Read(cfg, g, depth, Primitive(Long, logical, None), EncodeLong(i.value as int) + suffix).value;
      Encodable(t, unit);
      if CountsMillis(logical) {
        RoundedMillis(t.sec as int, t.nanos as int, i.value as int, v);
      } else {
        RoundedMicros(t.sec as int, t.nanos as int, i.value as int, v);
      }
    }
  }

  lemma RoundedMillis(sec: int, nanos: int, i: int, v: Value)
    requires 0 <= nanos < 1_000_000_000 && i == (sec * 1_000_000_000 + nanos) / 1_000_000 && InstantAt(v, i * 1_000_000)
    ensures v == VInstant(sec, nanos - nanos % 1_000_000)
  {
    assert i == sec * 1_000 + nanos / 1_000_000;
  }

  lemma RoundedMicros(sec: int, nanos: int, i: int, v: Value)
    requires 0 <= nanos < 1_000_000_000 && i == (sec * 1_000_000_000 + nanos) / 1_000 && InstantAt(v, i * 1_000)
    ensures v == VInstant(sec, nanos - nanos % 1_000)
  {
    assert i == sec * 1_000_000 + nanos / 1_000;
  }

  lemma Encodable(t: Timestamps.Instant, unit: Timestamps.Unit)
    requires t.Valid() && Timestamps.TimestampValue(t, unit).Some?
    ensures Timestamps.TimestampValue(t, unit).value as int
         == (t.sec as int * 1_000_000_000 + t.nanos as int) / if unit.Millis? then 1_000_000 else 1_000
  {
    if !Timestamps.YearGuard(t) {
      assert false;
    }
    Timestamps.TimestampValueIsFloor(t, unit);
  }

  // --- durations ---

  function LittleEndian(n: nat): (b: Bytes)
    requires n < 0x1_0000_0000
    ensures |b| == 4
  {
    [n % 0x100, n / 0x100 % 0x100, n / 0x1_0000 % 0x100, n / 0x100_0000]
  }

  /** Months, days and milliseconds, four bytes each. */
  lemma DurationReads(cfg: Config, g: Graph, depth: nat, id: nat, months: nat, days: nat, millis: nat, suffix: Bytes)
    requires months < 0x1_0000_0000 && days < 0x1_0000_0000 && millis < 0x1_0000_0000
    requires id < |g| && g[id].Fixed? && g[id].size == 12 && g[id].logical.Duration? && FitsBytes(cfg, 12)
    ensures Read(cfg, g, depth, Named(id), LittleEndian(months) + LittleEndian(days) + LittleEndian(millis) + suffix)
         == Ok(VDuration(months, days, millis), suffix)
  {
    var b := LittleEndian(months) + LittleEndian(days) + LittleEndian(millis);
    RawRoundTrip(b, suffix);
    assert b[0..4] == LittleEndian(months) && b[4..8] == LittleEndian(days) && b[8..12] == LittleEndian(millis);
    LittleEndianReads(months);
    LittleEndianReads(days);
    LittleEndianReads(millis);
  }

  lemma LittleEndianReads(n: nat)
    requires n < 0x1_0000_0000
    ensures Uint32(LittleEndian(n)) == n
  {
  }

  // --- decimals ---

  /** The bytes that reading a decimal admits: the effective limit, or the platform's. */
  function DecimalLimit(cfg: Config): nat {
    if 0 <= cfg.maxBytes <= 0x1_0000_0000_0000 then cfg.maxBytes else 0x1_0000_0000_0000
  }

  /** What keeps bytes from being a decimal: more than the precision's digits, or a power of ten beyond the limits. */
  predicate DecimalAdmitted(cfg: Config, precision: nat, scale: nat, bs: Bytes) {
    && |bs| <= DecimalLimit(cfg)
    && Powers.Abs(Decimals.Signed(bs)) < Powers.Pow(10, precision)
    && (Decimals.Signed(bs) == 0 || Powers.Pow(10, scale) < Powers.Pow(2, 8 * DecimalLimit(cfg)))
  }

  lemma DecimalExact(cfg: Config, precision: nat, scale: nat, bs: Bytes)
    requires precision > 0
    ensures var rat := Decimals.ReadDecimal(bs, precision, scale, cfg.maxBytes);
            && (rat.Some? <==> DecimalAdmitted(cfg, precision, scale, bs))
            && (rat.Some? ==> rat.value.Valid() && rat.value.num * Powers.Pow(10, scale) == Decimals.Signed(bs) * rat.value.den)
  {
    Decimals.DecimalPowerExact(scale, cfg.maxBytes);
    Decimals.DigitsBound(Powers.Abs(Decimals.Signed(bs)), precision);
    Decimals.BitLenBounds(Powers.Pow(10, scale), 8 * DecimalLimit(cfg));
  }

  /** Bytes are delivered as their two's-complement number over ten to the scale, or refused for those reasons alone. */
  lemma DecimalReads(cfg: Config, g: Graph, depth: nat, precision: int, scale: int, bs: Bytes, suffix: Bytes)
    requires precision > 0 && 0 <= scale <= precision && FitsBytes(cfg, |bs|)
    ensures var r := Read(cfg, g, depth, Primitive(BytesKind, Decimal(precision, scale), None), EncodeBytes(bs) + suffix);
            match r
            case Fail(_) => !DecimalAdmitted(cfg, precision, scale, bs)
            case Ok(v, rest) =>
              && rest == suffix && v.VDecimal? && v.rat.Valid() && DecimalAdmitted(cfg, precision, scale, bs)
              && v.rat.num * Powers.Pow(10, scale) == Decimals.Signed(bs) * v.rat.den
  {
    hide ReadLong, Decimals.ReadDecimal;
    BytesRoundTrip(cfg, bs, suffix);
    DecimalExact(cfg, precision, scale, bs);
  }

  /** The same for a fixed whose size holds every number of that precision; one too small is read as it is. */
  lemma FixedDecimalReads(cfg: Config, g: Graph, depth: nat, id: nat, bs: Bytes, suffix: Bytes)
    requires id < |g| && g[id].Fixed? && g[id].size == |bs| && g[id].logical.Decimal? && FitsBytes(cfg, |bs|)
    ensures var (precision, scale) := (g[id].logical.precision, g[id].logical.scale);
            var r := Read(cfg, g, depth, Named(id), bs + suffix);
            if precision > 0 && 0 <= scale <= precision && bs != [] && Powers.Pow(10, precision) <= Powers.Pow(2, 8 * |bs| - 1) then
              match r
              case Fail(_) => !DecimalAdmitted(cfg, precision, scale, bs)
              case Ok(v, rest) =>
                && rest == suffix && v.VDecimal? && v.rat.Valid() && DecimalAdmitted(cfg, precision, scale, bs)
                && v.rat.num * Powers.Pow(10, scale) == Decimals.Signed(bs) * v.rat.den
            else r == Ok(VFixed(bs), suffix)
  {
    hide ReadLong, Decimals.ReadDecimal;
    RawRoundTrip(bs, suffix);
    var (precision, scale) := (g[id].logical.precision, g[id].logical.scale);
    if precision > 0 && 0 <= scale {
      DecimalExact(cfg, precision, scale, bs);
    }
  }

  /** A decimal that can be written reads back as an equal number; an effective limit is never zero. */
  lemma DecimalRoundTrip(cfg: Config, g: Graph, depth: nat, precision: int, scale: int, value: Decimals.Rat, suffix: Bytes)
    requires precision > 0 && 0 <= scale <= precision && value.Valid() && cfg.maxBytes != 0
    ensures var bs := Decimals.WriteDecimal(value, precision, scale, cfg.maxBytes);
            bs.Some? && FitsBytes(cfg, |bs.value|) ==>
              var r := Read(cfg, g, depth, Primitive(BytesKind, Decimal(precision, scale), None), EncodeBytes(bs.value) + suffix);
              r.Ok? && r.rest == suffix && r.value.VDecimal? && r.value.rat.Equals(value)
  {
    hide ReadLong, Decimals.WriteDecimal, Decimals.ReadDecimal;
    var bs := Decimals.WriteDecimal(value, precision, scale, cfg.maxBytes);
    if bs.Some? && FitsBytes(cfg, |bs.value|) {
      Decimals.DecimalRoundTrip(value, precision, scale, cfg.maxBytes);
      BytesRoundTrip(cfg, bs.value, suffix);
    }
  }
}
