/** The generic reader: it walks a schema or a decode plan and builds values as it goes. */
module GenericReader {
  import opened Wire
  import opened Datums
  import opened Schemas
  import opened Values
  import opened Skipping
  import opened Decoding
  import opened BufferedReader
  import opened SkipDecoders
  import Timestamps

  /** The reader delivered what a pure read of the remaining bytes would, and moved as far. */
  ghost predicate Delivers<T>(r: Reader, o: Outcome<T>, v: T)
    reads r, r.buf
  {
    && r.Valid()
    && match o
       case Ok(value, rest) => r.error.None? && v == value && r.Remaining() == rest
       case Fail(_) => r.error.Some?
  }

  // --- primitives ---

  method ReadTimeUnits(r: Reader, value: int, perDay: int) returns (ok: bool)
    requires r.Valid()
    modifies r`error
    ensures ok <==> r.error.None?
    ensures old(r.error).Some? ==> r.error == old(r.error)
    ensures old(r.error).None? ==> (ok <==> ValidTimeUnits(value, perDay))
  {
    if r.error.Some? {
      return false;
    }
    if !ValidTimeUnits(value, perDay) {
      r.error := Some(Invalid);
      return false;
    }
    ok := true;
  }

  method ReadIntValue(r: Reader, logical: Logical, ghost encodedType: Option<Kind>) returns (v: Value)
    requires r.Valid()
    modifies r, r.buf
    ensures r.Valid() && (old(r.error).Some? ==> r.error.Some?)
    ensures old(r.error).None? ==>
              Delivers(r, ReadPrimitive(r.cfg, Int, logical, encodedType, old(r.Remaining())), v)
  {
    hide Wire.ReadInt;
    var i := r.ReadInt();
    match logical
    case Date => v := VInstant(i * 86400, 0);
    case TimeMillis =>
      var ok := ReadTimeUnits(r, i, 86_400_000);
      v := if ok then VTime(i * 1_000_000) else VNull;
    case _ => v := VInt(i);
  }

  /** A long, or an int widened. */
  method ReadLongAs(r: Reader, encodedType: Option<Kind>) returns (l: int, ghost d: Datum)
    requires r.Valid()
    modifies r, r.buf
    ensures r.Valid() && (old(r.error).Some? ==> r.error.Some?)
    ensures old(r.error).None? ==> Delivers(r, ReadDatum(r.cfg, ReadKind(Long, encodedType), old(r.Remaining())), d)
    ensures Convert(Long, d) == Some(VLong(l)) && Int64(l)
  {
    hide Wire.ReadInt, Wire.ReadLong;
    if encodedType == Some(Int) {
      l := r.ReadInt();
      d := DInt(l);
    } else {
      l := r.ReadLong();
      d := DLong(l);
    }
  }

  method ReadLongValue(r: Reader, logical: Logical, encodedType: Option<Kind>) returns (v: Value)
    requires r.Valid()
    modifies r, r.buf
    ensures r.Valid() && (old(r.error).Some? ==> r.error.Some?)
    ensures old(r.error).None? ==>
              Delivers(r, ReadPrimitive(r.cfg, Long, logical, encodedType, old(r.Remaining())), v)
  {
    hide ReadDatum, InstantOf, Convert;
    var l, d := ReadLongAs(r, encodedType);
    match logical
    case TimeMicros =>
      var ok := ReadTimeUnits(r, l, 86_400_000_000);
      v := if ok then VTime(l * 1_000) else VNull;
    case TimestampMillis => v := if r.error.Some? then VNull else InstantOf(l, Timestamps.Millis);
    case LocalTimestampMillis => v := if r.error.Some? then VNull else InstantOf(l, Timestamps.Millis);
    case TimestampMicros => v := if r.error.Some? then VNull else InstantOf(l, Timestamps.Micros);
    case LocalTimestampMicros => v := if r.error.Some? then VNull else InstantOf(l, Timestamps.Micros);
    case _ => v := VLong(l);
  }

  method ReadExactly(r: Reader, n: nat) returns (bs: Bytes)
    requires r.Valid()
    modifies r, r.buf
    ensures |bs| == n
    ensures r.Valid() && (old(r.error).Some? ==> r.error.Some?)
    ensures old(r.error).None? ==> Delivers(r, ReadRaw(old(r.Remaining()), n), bs)
  {
    var b := new byte[n](_ => 0);
    r.ReadInto(b);
    bs := b[..];
  }

  method ReadFloatValue(r: Reader, logical: Logical, encodedType: Option<Kind>) returns (v: Value)
    requires r.Valid()
    modifies r, r.buf
    ensures r.Valid() && (old(r.error).Some? ==> r.error.Some?)
    ensures old(r.error).None? ==>
              Delivers(r, ReadPrimitive(r.cfg, Float, logical, encodedType, old(r.Remaining())), v)
  {
    hide Wire.ReadInt, Wire.ReadLong;
    if encodedType == Some(Int) {
      var i := r.ReadInt();
      v := VFloat(FromInt(i));
    } else if encodedType == Some(Long) {
      var l := r.ReadLong();
      v := VFloat(FromLong(l));
    } else {
      var bits := ReadExactly(r, 4);
      v := VFloat(Bits(bits));
    }
  }

  method ReadDoubleValue(r: Reader, logical: Logical, encodedType: Option<Kind>) returns (v: Value)
    requires r.Valid()
    modifies r, r.buf
    ensures r.Valid() && (old(r.error).Some? ==> r.error.Some?)
    ensures old(r.error).None? ==>
              Delivers(r, ReadPrimitive(r.cfg, Double, logical, encodedType, old(r.Remaining())), v)
  {
    hide Wire.ReadInt, Wire.ReadLong, PrimitiveValue, Flow, FlowEnd;
    ghost var d;
    if encodedType == Some(Int) {
      var i := r.ReadInt();
      v, d := VDouble(FromInt(i)), DInt(i);
    } else if encodedType == Some(Long) {
      var l := r.ReadLong();
      v, d := VDouble(FromLong(l)), DLong(l);
    } else if encodedType == Some(Float) {
      var bits := ReadExactly(r, 4);
      v, d := VDouble(Widened(bits)), DFloat(bits);
    } else {
      var bits := ReadExactly(r, 8);
      v, d := VDouble(Bits(bits)), DDouble(bits);
    }
    PlainDouble(r.cfg, logical, d);
  }

  /** No logical type changes a double. */
  lemma PlainDouble(cfg: Config, logical: Logical, d: Datum)
    requires Convert(Double, d).Some?
    ensures PrimitiveValue(cfg, Double, logical, d) == Convert(Double, d)
  {
  }

  /** Turns bytes into a decimal unless the read failed. */
  method ReadDecimal(r: Reader, bs: Bytes, logical: Logical) returns (v: Value)
    requires r.Valid() && logical.Decimal?
    modifies r`error
    ensures old(r.error).Some? ==> r.error == old(r.error)
    ensures old(r.error).None? ==>
              match DecimalValue(r.cfg, logical, bs)
              case Some(value) => r.error.None? && v == value
              case None => r.error.Some?
  {
    if r.error.Some? {
      return VNull;
    }
    var value := DecimalValue(r.cfg, logical, bs);
    if value.None? {
      r.error := Some(Invalid);
      return VNull;
    }
    v := value.value;
  }

  method ReadBytesValue(r: Reader, logical: Logical, ghost encodedType: Option<Kind>) returns (v: Value)
    requires r.Valid()
    modifies r, r.buf
    ensures r.Valid() && (old(r.error).Some? ==> r.error.Some?)
    ensures old(r.error).None? ==>
              Delivers(r, ReadPrimitive(r.cfg, BytesKind, logical, encodedType, old(r.Remaining())), v)
  {
    hide Decoding.ReadBytes, DecimalValue, ValidDecimal;
    var bs := r.ReadBytes();
    if PrimitiveDecimal(BytesKind, logical).Some? {
      v := ReadDecimal(r, bs, logical);
    } else {
      v := VBytes(bs);
    }
  }

  method ReadStringValue(r: Reader, logical: Logical, ghost encodedType: Option<Kind>) returns (v: Value)
    requires r.Valid()
    modifies r, r.buf
    ensures r.Valid() && (old(r.error).Some? ==> r.error.Some?)
    ensures old(r.error).None? ==>
              Delivers(r, ReadPrimitive(r.cfg, StringKind, logical, encodedType, old(r.Remaining())), v)
  {
    hide Decoding.ReadBytes;
    var text := r.ReadString();
    v := VString(text);
  }

  method ReadPrimitiveValue(r: Reader, kind: Kind, logical: Logical, encodedType: Option<Kind>) returns (v: Value)
    requires r.Valid()
    modifies r, r.buf
    ensures r.Valid() && (old(r.error).Some? ==> r.error.Some?)
    ensures old(r.error).None? ==>
              Delivers(r, ReadPrimitive(r.cfg, kind, logical, encodedType, old(r.Remaining())), v)
  {
    match kind
    case Boolean =>
      var b := r.ReadBool();
      v := VBool(b);
    case Int => v := ReadIntValue(r, logical, encodedType);
    case Long => v := ReadLongValue(r, logical, encodedType);
    case Float => v := ReadFloatValue(r, logical, encodedType);
    case Double => v := ReadDoubleValue(r, logical, encodedType);
    case BytesKind => v := ReadBytesValue(r, logical, encodedType);
    case StringKind => v := ReadStringValue(r, logical, encodedType);
  }

  // --- everything else ---

  method ReadNext(r: Reader, g: Graph, depth: nat, s: Schema) returns (v: Value)
    requires r.Valid()
    modifies r, r.buf
    ensures r.Valid() && (old(r.error).Some? ==> r.error.Some?)
    ensures old(r.error).None? ==> Delivers(r, Read(r.cfg, g, depth, s, old(r.Remaining())), v)
    decreases depth, 2, s, 1, 0
  {
    hide ReadPrimitive, ReadDef, ReadBlocks, Gather;
    match s
    case Null => v := VNull;
    case Primitive(kind, logical, encodedType) => v := ReadPrimitiveValue(r, kind, logical, encodedType);
    case Array(items) =>
      var pairs := ReadCollection(r, g, depth, items, false, r.cfg.maxItems);
      v := Gather(false, pairs);
    case Map(values) =>
      var pairs := ReadCollection(r, g, depth, values, true, r.cfg.maxEntries);
      v := Gather(true, pairs);
    case Union(_, _) => v := ReadUnion(r, g, depth, s);
    case Named(id) =>
      if id < |g| {
        v := ReadDefinition(r, g, depth, g[id]);
      } else {
        r.ReportError(Invalid);
        v := VNull;
      }
    case Ref(id) =>
      if id < |g| {
        v := ReadDefinition(r, g, depth, g[id]);
      } else {
        r.ReportError(Invalid);
        v := VNull;
      }
  }

  /** The branch comes from the plans of a resolved union, or from its types. */
  method ReadUnion(r: Reader, g: Graph, depth: nat, s: Schema) returns (v: Value)
    requires r.Valid() && s.Union?
    modifies r, r.buf
    ensures r.Valid() && (old(r.error).Some? ==> r.error.Some?)
    ensures old(r.error).None? ==> Delivers(r, Read(r.cfg, g, depth, s, old(r.Remaining())), v)
    decreases depth, 2, s, 0, 0
  {
    hide Wire.ReadLong;
    var types := DecodeTypes(s);
    var i := r.ReadLong();
    v := VNull;
    if r.error.Some? {
      return;
    }
    if i < 0 || i > |types| - 1 {
      r.ReportError(Invalid);
      return;
    }
    if types[i].Null? {
      return;
    }
    v := ReadNext(r, g, depth, types[i]);
    v := VTagged(TagOf(g, types[i]), v);
  }

  method ReadDefinition(r: Reader, g: Graph, depth: nat, def: Def) returns (v: Value)
    requires r.Valid()
    modifies r, r.buf
    ensures r.Valid() && (old(r.error).Some? ==> r.error.Some?)
    ensures old(r.error).None? ==> Delivers(r, ReadDef(r.cfg, g, depth, def, old(r.Remaining())), v)
    decreases depth, 1
  {
    hide Wire.ReadInt, FixedValue, Decoding.ReadFields;
    v := VNull;
    match def
    case Record(_, fields) =>
      if depth == 0 {
        r.ReportError(Depth);
      } else {
        var obj := ReadRecord(r, g, depth - 1, fields);
        v := VRecord(obj);
      }
    case Enum(_, _, _, _) =>
      var i := r.ReadInt();
      var symbol := Symbol(def, i);
      if symbol.None? {
        r.ReportError(Invalid);
      } else {
        v := VEnum(symbol.value);
      }
    case Fixed(_, size, logical) => v := ReadFixed(r, size, logical);
  }

  method ReadFixed(r: Reader, size: nat, logical: Logical) returns (v: Value)
    requires r.Valid()
    modifies r, r.buf
    ensures r.Valid() && (old(r.error).Some? ==> r.error.Some?)
    ensures old(r.error).None? ==>
              if !FitsBytes(r.cfg, size) then r.error.Some?
              else
                match ReadRaw(old(r.Remaining()), size)
                case Fail(_) => r.error.Some?
                case Ok(bs, rest) => Delivers(r, Deliver(FixedValue(r.cfg, size, logical, bs), rest), v)
  {
    v := VNull;
    if !FitsBytes(r.cfg, size) {
      r.ReportError(Limit);
      return;
    }
    var bs := ReadExactly(r, size);
    if FixedDecimal(size, logical).Some? {
      v := ReadDecimal(r, bs, logical);
    } else if logical.Duration? && size == 12 {
      v := VDuration(Uint32(bs[0..4]), Uint32(bs[4..8]), Uint32(bs[8..12]));
    } else {
      v := VFixed(bs);
    }
  }

  /** Ignored fields are skipped, absent ones take the reader's default. */
  method ReadRecord(r: Reader, g: Graph, depth: nat, fields: seq<Field>) returns (obj: map<Text, Value>)
    requires r.Valid()
    modifies r, r.buf
    ensures r.Valid() && (old(r.error).Some? ==> r.error.Some?)
    ensures old(r.error).None? ==> Delivers(r, ReadFields(r.cfg, g, depth, fields, map[], old(r.Remaining())), obj)
    decreases depth, 4
  {
    hide Read, Skip, ReadDefault;
    obj := map[];
    ghost var o := ReadFields(r.cfg, g, depth, fields, map[], r.Remaining());
    for i := 0 to |fields|
      invariant r.Valid() && (old(r.error).Some? ==> r.error.Some?)
      invariant old(r.error).None? ==>
                  r.error.None? && o == ReadFields(r.cfg, g, depth, fields[i..], obj, r.Remaining())
    {
      var f := fields[i];
      assert fields[i..][0] == f && fields[i..][1..] == fields[i + 1..];
      match f.action {
        case Ignore =>
          var d, slots, recs := CreateSkipDecoder(g, f.typ);
          Run(r, g, recs, slots, depth, f.typ, d);
        case SetDefault =>
          var v := ReadDefaultValue(r, g, depth, f);
          obj := obj[f.name := v];
        case Keep =>
          var v := ReadNext(r, g, depth, f.typ);
          obj := obj[f.name := v];
      }
      if r.error.Some? {
        return;
      }
    }
  }

  /** A default is read from its own bytes by a reader of its own. */
  method ReadDefaultValue(r: Reader, g: Graph, depth: nat, f: Field) returns (v: Value)
    requires r.Valid()
    modifies r
    ensures r.Valid() && (old(r.error).Some? ==> r.error.Some?) && r.Remaining() == old(r.Remaining())
    ensures old(r.error).None? ==>
              match ReadDefault(r.cfg, g, depth, f)
              case Ok(value, _) => r.error.None? && v == value
              case Fail(_) => r.error.Some?
    decreases depth, 3
  {
    hide Read;
    v := VNull;
    if f.def.None? {
      r.error := Some(Invalid);
      return;
    }
    var bytes := Encode(f.def.value);
    var b := new byte[|bytes|](i requires 0 <= i < |bytes| => bytes[i]);
    assert b[..] == bytes;
    var rr := new Reader.FromBytes(r.cfg, b);
    v := ReadNext(rr, g, depth, f.typ);
    if rr.error.Some? {
      r.error := rr.error;
    }
  }

  // --- arrays and maps ---

  function Prepend<T>(front: seq<T>, o: Outcome<seq<T>>): Outcome<seq<T>> {
    match o
    case Ok(v, rest) => Ok(front + v, rest)
    case Fail(e) => Fail(e)
  }

  lemma PrependNothing<T>(o: Outcome<seq<T>>)
    ensures Prepend([], o) == o
  {
    if o.Ok? {
      assert [] + o.value == o.value;
    }
  }

  lemma PrependTwice<T>(a: seq<T>, b: seq<T>, o: Outcome<seq<T>>)
    ensures Prepend(a, Prepend(b, o)) == Prepend(a + b, o)
  {
    if o.Ok? {
      assert a + (b + o.value) == (a + b) + o.value;
    }
  }

  method ReadBlock(r: Reader, g: Graph, depth: nat, s: Schema, keyed: bool, count: int) returns (pairs: seq<Entry>)
    requires r.Valid() && count >= 0
    modifies r, r.buf
    ensures r.Valid() && (old(r.error).Some? ==> r.error.Some?) && |pairs| <= count
    ensures old(r.error).None? ==>
              Delivers(r, ReadItems(r.cfg, g, depth, s, keyed, count, old(r.Remaining())), pairs)
    decreases depth, 2, s, 2, 0
  {
    hide Read, ReadText;
    pairs := [];
    ghost var o := ReadItems(r.cfg, g, depth, s, keyed, count, r.Remaining());
    PrependNothing(o);
    for i := 0 to count
      invariant r.Valid() && (old(r.error).Some? ==> r.error.Some?) && |pairs| == i
      invariant old(r.error).None? ==>
                  && r.error.None?
                  && o == Prepend(pairs, ReadItems(r.cfg, g, depth, s, keyed, count - i, r.Remaining()))
    {
      var key: Text := [];
      if keyed {
        key := r.ReadString();
        if r.error.Some? {
          return;
        }
      }
      var v := ReadNext(r, g, depth, s);
      if r.error.Some? {
        return;
      }
      PrependTwice(pairs, [Entry(key, v)], ReadItems(r.cfg, g, depth, s, keyed, count - i - 1, r.Remaining()));
      pairs := pairs + [Entry(key, v)];
    }
    assert pairs + [] == pairs;
  }

  /** One block of a collection. */
  lemma BlocksStep(cfg: Config, g: Graph, depth: nat, s: Schema, keyed: bool, remaining: nat, b: Bytes)
    ensures ReadBlocks(cfg, g, depth, s, keyed, remaining, b)
         == match Skipping.ReadBlockHeader(b)
            case Fail(e) => Fail(e)
            case Ok(header, rest) =>
              if header.count == 0 then Ok([], rest)
              else if header.count > remaining then Fail(Limit)
              else
                match ReadItems(cfg, g, depth, s, keyed, header.count, rest)
                case Fail(e) => Fail(e)
                case Ok(block, rest') =>
                  Prepend(block, ReadBlocks(cfg, g, depth, s, keyed, remaining - header.count, rest'))
  {
    hide ReadItems, Skipping.ReadBlockHeader;
  }

  /**
   * Blocks until an empty one; the limit counts the items of all blocks together, also of
   * those delivered before a failure.
   */
  method ReadCollection(r: Reader, g: Graph, depth: nat, s: Schema, keyed: bool, limit: nat) returns (pairs: seq<Entry>)
    requires r.Valid()
    modifies r, r.buf
    ensures r.Valid() && (old(r.error).Some? ==> r.error.Some?)
    ensures |pairs| <= limit
    ensures old(r.error).None? ==>
              Delivers(r, ReadBlocks(r.cfg, g, depth, s, keyed, limit, old(r.Remaining())), pairs)
    decreases depth, 2, s, 3, 0
  {
    hide ReadItems, ReadBlocks, Skipping.ReadBlockHeader;
    var remaining := limit;
    pairs := [];
    ghost var o := ReadBlocks(r.cfg, g, depth, s, keyed, limit, r.Remaining());
    PrependNothing(o);
    while true
      invariant r.Valid() && 0 <= remaining <= limit && (old(r.error).Some? ==> r.error.Some?)
      invariant |pairs| <= limit - remaining
      invariant old(r.error).None? ==>
                  && r.error.None?
                  && o == Prepend(pairs, ReadBlocks(r.cfg, g, depth, s, keyed, remaining, r.Remaining()))
      decreases remaining
    {
      BlocksStep(r.cfg, g, depth, s, keyed, remaining, r.Remaining());
      var count, _ := r.ReadBlockHeader();
      if count == 0 || r.error.Some? {
        assert pairs + [] == pairs;
        return;
      }
      if count > remaining {
        r.ReportError(Limit);
        return;
      }
      remaining := remaining - count;
      var block := ReadBlock(r, g, depth, s, keyed, count);
      PrependTwice(pairs, block, ReadBlocks(r.cfg, g, depth, s, keyed, remaining, r.Remaining()));
      pairs := pairs + block;
      if r.error.Some? {
        return;
      }
    }
  }
}
