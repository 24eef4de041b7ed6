/** Generic reading: the interpreter of schemas and decode plans, against their denotation. */
module Decoding {
  import opened Wire
  import opened Datums
  import opened Schemas
  import opened Values
  import opened Skipping

  // --- the interpreter, as a function of the remaining bytes ---

  /** Length-prefixed bytes within the configured and platform limits. */
  function ReadBytes(cfg: Config, b: Bytes): Outcome<Bytes> {
    match ReadLong(b)
    case Fail(e) => Fail(e)
    case Ok(size, rest) =>
      if size < 0 then Fail(Invalid)
      else if FitsBytes(cfg, size) || size == 0 then ReadRaw(rest, size)
      else Fail(Limit)
  }

  function ReadText(cfg: Config, b: Bytes): Outcome<Text> {
    match ReadBytes(cfg, b)
    case Fail(e) => Fail(e)
    case Ok(bs, rest) => if ValidUtf8(bs) then Ok(bs, rest) else Fail(Invalid)
  }

  /**
   * Which wire kind a value of a primitive plan is read as: conversions exist to long,
   * float and double; text and bytes are interchangeable.
   */
  function ReadKind(kind: Kind, encodedType: Option<Kind>): Kind {
    match (kind, encodedType)
    case (Long, Some(Int)) => Int
    case (Float, Some(Int)) => Int
    case (Float, Some(Long)) => Long
    case (Double, Some(Int)) => Int
    case (Double, Some(Long)) => Long
    case (Double, Some(Float)) => Float
    case _ => kind
  }

  /** Reads one datum of a wire kind. */
  function ReadDatum(cfg: Config, kind: Kind, b: Bytes): Outcome<Datum> {
    match kind
    case Boolean => (match ReadBool(b) case Ok(v, rest) => Ok(DBool(v), rest) case Fail(e) => Fail(e))
    case Int => (match ReadInt(b) case Ok(v, rest) => Ok(DInt(v), rest) case Fail(e) => Fail(e))
    case Long => (match ReadLong(b) case Ok(v, rest) => Ok(DLong(v), rest) case Fail(e) => Fail(e))
    case Float => (match ReadRaw(b, 4) case Ok(v, rest) => Ok(DFloat(v), rest) case Fail(e) => Fail(e))
    case Double => (match ReadRaw(b, 8) case Ok(v, rest) => Ok(DDouble(v), rest) case Fail(e) => Fail(e))
    case BytesKind => (match ReadBytes(cfg, b) case Ok(v, rest) => Ok(DBytes(v), rest) case Fail(e) => Fail(e))
    case StringKind => (match ReadText(cfg, b) case Ok(v, rest) => Ok(DBytes(v), rest) case Fail(e) => Fail(e))
  }

  function Deliver(v: Option<Value>, rest: Bytes): Outcome<Value> {
    match v
    case Some(value) => Ok(value, rest)
    case None => Fail(Invalid)
  }

  function ReadPrimitive(cfg: Config, kind: Kind, logical: Logical, encodedType: Option<Kind>, b: Bytes): Outcome<Value> {
    match ReadDatum(cfg, ReadKind(kind, encodedType), b)
    case Fail(e) => Fail(e)
    case Ok(d, rest) => Deliver(PrimitiveValue(cfg, kind, logical, d), rest)
  }

  function Read(cfg: Config, g: Graph, depth: nat, s: Schema, b: Bytes): Outcome<Value>
    decreases depth, 2, s, 0, 0
  {
    match s
    case Null => Ok(VNull, b)
    case Primitive(kind, logical, encodedType) => ReadPrimitive(cfg, kind, logical, encodedType, b)
    case Array(items) =>
      (match ReadBlocks(cfg, g, depth, items, false, cfg.maxItems, b)
       case Fail(e) => Fail(e)
       case Ok(pairs, rest) => Ok(Gather(false, pairs), rest))
    case Map(values) =>
      (match ReadBlocks(cfg, g, depth, values, true, cfg.maxEntries, b)
       case Fail(e) => Fail(e)
       case Ok(pairs, rest) => Ok(Gather(true, pairs), rest))
    case Union(_, _) =>
      (match ReadLong(b)
       case Fail(e) => Fail(e)
       case Ok(i, rest) =>
         if i < 0 || i >= |DecodeTypes(s)| then Fail(Invalid)
         else
           var t := DecodeTypes(s)[i];
           match Read(cfg, g, depth, t, rest)
           case Fail(e) => Fail(e)
           case Ok(v, rest') => Ok(TagUnlessNull(g, t, v), rest'))
    case Named(id) => if id < |g| then ReadDef(cfg, g, depth, g[id], b) else Fail(Invalid)
    case Ref(id) => if id < |g| then ReadDef(cfg, g, depth, g[id], b) else Fail(Invalid)
  }

  function ReadDef(cfg: Config, g: Graph, depth: nat, def: Def, b: Bytes): Outcome<Value>
    decreases depth, 1
  {
    match def
    case Record(_, fields) =>
      if depth == 0 then Fail(Depth)
      else
        (match ReadFields(cfg, g, depth - 1, fields, map[], b)
         case Fail(e) => Fail(e)
         case Ok(obj, rest) => Ok(VRecord(obj), rest))
    case Enum(_, _, _, _) =>
      (match ReadInt(b)
       case Fail(e) => Fail(e)
       case Ok(i, rest) =>
         match Symbol(def, i)
         case Some(text) => Ok(VEnum(text), rest)
         case None => Fail(Invalid))
    case Fixed(_, size, logical) =>
      if !FitsBytes(cfg, size) then Fail(Limit)
      else
        match ReadRaw(b, size)
        case Fail(e) => Fail(e)
        case Ok(bs, rest) => Deliver(FixedValue(cfg, size, logical, bs), rest)
  }

  function ReadFields(cfg: Config, g: Graph, depth: nat, fields: seq<Field>, obj: map<Text, Value>, b: Bytes)
    : Outcome<map<Text, Value>>
    decreases depth, 3, |fields|
  {
    if fields == [] then Ok(obj, b)
    else
      match fields[0].action
      case Ignore =>
        (match Skip(cfg, g, depth, fields[0].typ, b)
         case Fail(e) => Fail(e)
         case Ok(_, rest) => ReadFields(cfg, g, depth, fields[1..], obj, rest))
      case SetDefault =>
        (match ReadDefault(cfg, g, depth, fields[0])
         case Fail(e) => Fail(e)
         case Ok(v, _) => ReadFields(cfg, g, depth, fields[1..], obj[fields[0].name := v], b))
      case Keep =>
        (match Read(cfg, g, depth, fields[0].typ, b)
         case Fail(e) => Fail(e)
         case Ok(v, rest) => ReadFields(cfg, g, depth, fields[1..], obj[fields[0].name := v], rest))
  }

  /** A default is decoded from its own encoding, by a reader of its own. */
  function ReadDefault(cfg: Config, g: Graph, depth: nat, f: Field): Outcome<Value>
    decreases depth, 3, 0
  {
    match f.def
    case None => Fail(Invalid)
    case Some(d) => Read(cfg, g, depth, f.typ, Encode(d))
  }

  function ReadItems(cfg: Config, g: Graph, depth: nat, s: Schema, keyed: bool, count: nat, b: Bytes): (r: Outcome<seq<Entry>>)
    ensures r.Ok? ==> |r.value| == count
    decreases depth, 2, s, 1, count
  {
    if count == 0 then Ok([], b)
    else
      match (if keyed then ReadText(cfg, b) else Ok([], b))
      case Fail(e) => Fail(e)
      case Ok(key, rest) =>
        match Read(cfg, g, depth, s, rest)
        case Fail(e) => Fail(e)
        case Ok(v, rest') =>
          match ReadItems(cfg, g, depth, s, keyed, count - 1, rest')
          case Fail(e) => Fail(e)
          case Ok(pairs, rest'') => Ok([Entry(key, v)] + pairs, rest'')
  }

  /** Blocks until an empty one; `remaining` bounds the items of all blocks together. */
  function ReadBlocks(cfg: Config, g: Graph, depth: nat, s: Schema, keyed: bool, remaining: nat, b: Bytes): (r: Outcome<seq<Entry>>)
    ensures r.Ok? ==> |r.value| <= remaining
    decreases depth, 2, s, 2, remaining
  {
    match ReadBlockHeader(b)
    case Fail(e) => Fail(e)
    case Ok(header, rest) =>
      if header.count == 0 then Ok([], rest)
      else if header.count > remaining then Fail(Limit)
      else
        match ReadItems(cfg, g, depth, s, keyed, header.count, rest)
        case Fail(e) => Fail(e)
        case Ok(pairs, rest') =>
          match ReadBlocks(cfg, g, depth, s, keyed, remaining - header.count, rest')
          case Fail(e) => Fail(e)
          case Ok(more, rest'') => Ok(pairs + more, rest'')
  }

  // --- reading delivers the denotation ---

  /** A default that a plan may ask for: a sound datum of a declared schema. */
  predicate DefaultOk(cfg: Config, g: Graph, n: nat, h: nat, f: Field) {
    && f.def.Some?
    && Declared(f.typ, n)
    && Shape(g, f.typ, f.def.value)
    && Within(cfg, f.def.value)
    && Height(f.def.value) <= h
  }

  /** The first `n` nodes are declared and closed; every default in the graph is sound. */
  ghost predicate Sound(cfg: Config, g: Graph, n: nat, h: nat) {
    && n <= |g|
    && (forall i :: 0 <= i < n ==> DeclaredDef(g[i], n))
    && (forall i :: 0 <= i < |g| && g[i].Record? ==> SoundFields(cfg, g, n, h, g[i].fields))
  }

  ghost predicate SoundFields(cfg: Config, g: Graph, n: nat, h: nat, fields: seq<Field>) {
    forall f | f in fields && f.action.SetDefault? :: DefaultOk(cfg, g, n, h, f)
  }

  ghost predicate PlainFields(n: nat, fields: seq<Field>) {
    forall f | f in fields :: f.action.Keep? && Declared(f.typ, n)
  }

  /** What reading must yield, given the denotation. */
  ghost predicate Matches<T>(r: Outcome<T>, v: Option<T>, suffix: Bytes) {
    match v
    case Some(value) => r == Ok(value, suffix)
    case None => r.Fail?
  }

  /** The depth a datum needs, counting the defaults met on the way. */
  function Need(deep: bool, height: nat, h: nat): nat {
    if deep then height + h else height
  }

  lemma BytesRoundTrip(cfg: Config, bs: Bytes, suffix: Bytes)
    requires FitsBytes(cfg, |bs|)
    ensures ReadBytes(cfg, EncodeBytes(bs) + suffix) == Ok(bs, suffix)
  {
    Regroup(EncodeLong(|bs|), bs, suffix);
    LongRoundTrip(|bs|, bs + suffix);
    RawRoundTrip(bs, suffix);
  }

  lemma DatumRoundTrip(cfg: Config, kind: Kind, d: Datum, suffix: Bytes)
    requires OfKind(kind, d) && Within(cfg, d)
    ensures ReadDatum(cfg, kind, Encode(d) + suffix) == Ok(d, suffix)
  {
    match kind
    case Boolean => DropPrefix(Encode(d), suffix);
    case Int => IntRoundTrip(d.i, suffix);
    case Long => LongRoundTrip(d.l, suffix);
    case Float => RawRoundTrip(d.bits, suffix);
    case Double => RawRoundTrip(d.bits, suffix);
    case BytesKind => BytesRoundTrip(cfg, d.bytes, suffix);
    case StringKind => BytesRoundTrip(cfg, d.bytes, suffix);
  }

  /** A promoted primitive reads as the writer's datum converted. */
  lemma PrimitiveDenotes(cfg: Config, kind: Kind, logical: Logical, encodedType: Option<Kind>, d: Datum, suffix: Bytes)
    requires encodedType.Some? ==> Promotable(encodedType.value, kind)
    requires OfKind(if encodedType.Some? then encodedType.value else kind, d) && Within(cfg, d)
    ensures Matches(ReadPrimitive(cfg, kind, logical, encodedType, Encode(d) + suffix),
                    PrimitiveValue(cfg, kind, logical, d), suffix)
  {
    var wire := if encodedType.Some? then encodedType.value else kind;
    if ReadKind(kind, encodedType) == wire {
      DatumRoundTrip(cfg, wire, d, suffix);
    } else {
      BytesRoundTrip(cfg, d.bytes, suffix);
    }
  }

  lemma {:induction false} ReadDenotes(cfg: Config, g: Graph, n: nat, h: nat, deep: bool, depth: nat,
                                       s: Schema, d: Datum, suffix: Bytes)
    requires Sound(cfg, g, n, h) && (!deep ==> Declared(s, n))
    requires Shape(g, s, d) && Within(cfg, d) && Need(deep, Height(d), h) <= depth
    ensures Matches(Read(cfg, g, depth, s, Encode(d) + suffix), Denote(cfg, g, deep, s, d), suffix)
    decreases deep, d
  {
    match s
    case Null => assert Encode(d) + suffix == suffix;
    case Primitive(kind, logical, encodedType) =>
      PrimitiveDenotes(cfg, kind, logical, encodedType, d, suffix);
    case Array(items) =>
      Regroup(EncodeBlocks(false, d.blocks), EncodeLong(0), suffix);
      BlocksDenote(cfg, g, n, h, deep, depth, items, false, cfg.maxItems, d.blocks, suffix);
    case Map(values) =>
      Regroup(EncodeBlocks(true, d.blocks), EncodeLong(0), suffix);
      BlocksDenote(cfg, g, n, h, deep, depth, values, true, cfg.maxEntries, d.blocks, suffix);
    case Union(_, _) =>
      Regroup(EncodeLong(d.branch), Encode(d.datum), suffix);
      LongRoundTrip(d.branch, Encode(d.datum) + suffix);
      ReadDenotes(cfg, g, n, h, deep, depth, DecodeTypes(s)[d.branch], d.datum, suffix);
    case Named(id) => DefDenotes(cfg, g, n, h, deep, depth, id, d, suffix);
    case Ref(id) => DefDenotes(cfg, g, n, h, deep, depth, id, d, suffix);
  }

  lemma {:induction false} DefDenotes(cfg: Config, g: Graph, n: nat, h: nat, deep: bool, depth: nat,
                                      id: nat, d: Datum, suffix: Bytes)
    requires Sound(cfg, g, n, h) && id < |g| && (!deep ==> id < n)
    requires ShapeDef(g, g[id], d) && Within(cfg, d) && Need(deep, Height(d), h) <= depth
    ensures Matches(ReadDef(cfg, g, depth, g[id], Encode(d) + suffix), DenoteDef(cfg, g, deep, g[id], d), suffix)
    decreases deep, d, 0
  {
    match g[id]
    case Record(_, fields) =>
      FieldsDenote(cfg, g, n, h, deep, depth - 1, fields, d.fields, map[], suffix);
    case Enum(_, _, _, _) => IntRoundTrip(d.symbol, suffix);
    case Fixed(_, _, _) => RawRoundTrip(d.bytes, suffix);
  }

  lemma {:induction false} FieldsDenote(cfg: Config, g: Graph, n: nat, h: nat, deep: bool, depth: nat,
                                        fields: seq<Field>, ds: seq<Datum>, obj: map<Text, Value>, suffix: Bytes)
    requires Sound(cfg, g, n, h) && SoundFields(cfg, g, n, h, fields)
    requires !deep ==> PlainFields(n, fields)
    requires ShapeFields(g, fields, ds) && WithinFields(cfg, ds) && Need(deep, FieldsHeight(ds), h) <= depth
    ensures Matches(ReadFields(cfg, g, depth, fields, obj, EncodeFields(ds) + suffix),
                    DenoteFields(cfg, g, deep, fields, ds, obj), suffix)
    decreases deep, ds, |fields|
  {
    if fields == [] {
      assert EncodeFields(ds) + suffix == suffix;
      return;
    }
    var f := fields[0];
    if f.action.SetDefault? {
      assert DefaultOk(cfg, g, n, h, f);
      var d := f.def.value;
      assert Encode(d) + [] == Encode(d);
      ReadDenotes(cfg, g, n, h, false, depth, f.typ, d, []);
      var v := Denote(cfg, g, false, f.typ, d);
      if v.Some? {
        FieldsDenote(cfg, g, n, h, deep, depth, fields[1..], ds, obj[f.name := v.value], suffix);
      }
    } else {
      var rest := EncodeFields(ds[1..]) + suffix;
      Regroup(Encode(ds[0]), EncodeFields(ds[1..]), suffix);
      if f.action.Ignore? {
        SkipExact(cfg, g, depth, f.typ, ds[0], rest);
        FieldsDenote(cfg, g, n, h, deep, depth, fields[1..], ds[1..], obj, suffix);
      } else {
        ReadDenotes(cfg, g, n, h, deep, depth, f.typ, ds[0], rest);
        var v := Denote(cfg, g, deep, f.typ, ds[0]);
        if v.Some? {
          FieldsDenote(cfg, g, n, h, deep, depth, fields[1..], ds[1..], obj[f.name := v.value], suffix);
        }
      }
    }
  }

  lemma {:induction false} ItemsDenote(cfg: Config, g: Graph, n: nat, h: nat, deep: bool, depth: nat,
                                       s: Schema, keyed: bool, items: seq<Item>, suffix: Bytes)
    requires Sound(cfg, g, n, h) && (!deep ==> Declared(s, n))
    requires ShapeItems(g, s, keyed, items) && WithinItems(cfg, keyed, items)
    requires Need(deep, ItemsHeight(items), h) <= depth
    ensures Matches(ReadItems(cfg, g, depth, s, keyed, |items|, EncodeItems(keyed, items) + suffix),
                    DenoteItems(cfg, g, deep, s, keyed, items), suffix)
    decreases deep, items
  {
    if items == [] {
      assert EncodeItems(keyed, items) + suffix == suffix;
    } else {
      var key := if keyed then EncodeBytes(items[0].key) else [];
      var tail := EncodeItems(keyed, items[1..]) + suffix;
      var body := Encode(items[0].datum) + tail;
      Regroup4(key, Encode(items[0].datum), EncodeItems(keyed, items[1..]), suffix);
      if keyed {
        BytesRoundTrip(cfg, items[0].key, body);
      } else {
        assert key + body == body;
      }
      ReadDenotes(cfg, g, n, h, deep, depth, s, items[0].datum, tail);
      ItemsDenote(cfg, g, n, h, deep, depth, s, keyed, items[1..], suffix);
    }
  }

  lemma {:induction false} BlocksDenote(cfg: Config, g: Graph, n: nat, h: nat, deep: bool, depth: nat,
                                        s: Schema, keyed: bool, remaining: nat, blocks: seq<Block>, suffix: Bytes)
    requires Sound(cfg, g, n, h) && (!deep ==> Declared(s, n))
    requires ShapeBlocks(g, s, keyed, blocks) && WithinBlocks(cfg, keyed, blocks) && ItemCount(blocks) <= remaining
    requires Need(deep, BlocksHeight(blocks), h) <= depth
    ensures Matches(ReadBlocks(cfg, g, depth, s, keyed, remaining, EncodeBlocks(keyed, blocks) + (EncodeLong(0) + suffix)),
                    DenoteBlocks(cfg, g, deep, s, keyed, blocks), suffix)
    decreases deep, blocks
  {
    hide Read, ReadItems, ReadBlocks, Denote, DenoteItems, DenoteBlocks, Encode, EncodeItems, EncodeBlocks,
         Shape, ShapeItems, ShapeBlocks, Within, WithinItems, WithinBlocks, Height, ItemsHeight, BlocksHeight,
         ItemCount, Need, Sound, ReadBlockHeader, Matches;
    if blocks == [] {
      NoBlocksDenote(cfg, g, deep, depth, s, keyed, remaining, suffix);
    } else {
      FirstBlockParts(cfg, g, h, deep, depth, s, keyed, remaining, blocks);
      var items := blocks[0].items;
      var tail := EncodeBlocks(keyed, blocks[1..]) + (EncodeLong(0) + suffix);
      ItemsDenote(cfg, g, n, h, deep, depth, s, keyed, items, tail);
      BlocksDenote(cfg, g, n, h, deep, depth, s, keyed, remaining - |items|, blocks[1..], suffix);
      BlocksStep(cfg, g, deep, depth, s, keyed, remaining, blocks, suffix);
    }
  }

  lemma BlocksStep(cfg: Config, g: Graph, deep: bool, depth: nat, s: Schema, keyed: bool, remaining: nat,
                   blocks: seq<Block>, suffix: Bytes)
    requires blocks != [] && 0 < |blocks[0].items| <= remaining
    requires Int64(|blocks[0].items|) && Int64(|EncodeItems(keyed, blocks[0].items)|)
    requires var tail := EncodeBlocks(keyed, blocks[1..]) + (EncodeLong(0) + suffix);
             && Matches(ReadItems(cfg, g, depth, s, keyed, |blocks[0].items|, EncodeItems(keyed, blocks[0].items) + tail),
                        DenoteItems(cfg, g, deep, s, keyed, blocks[0].items), tail)
             && Matches(ReadBlocks(cfg, g, depth, s, keyed, remaining - |blocks[0].items|, tail),
                        DenoteBlocks(cfg, g, deep, s, keyed, blocks[1..]), suffix)
    ensures Matches(ReadBlocks(cfg, g, depth, s, keyed, remaining, EncodeBlocks(keyed, blocks) + (EncodeLong(0) + suffix)),
                    DenoteBlocks(cfg, g, deep, s, keyed, blocks), suffix)
  {
    hide ReadItems, ReadBlocks, DenoteItems, DenoteBlocks, EncodeItems, EncodeBlocks, ReadBlockHeader, Matches;
    var end := EncodeLong(0) + suffix;
    FirstHeader(keyed, blocks, end);
    JoinBlocks(cfg, g, deep, depth, s, keyed, remaining, blocks, EncodeBlocks(keyed, blocks) + end,
               EncodeBlocks(keyed, blocks[1..]) + end, suffix);
  }

  /** What is known of all blocks holds of the first and of the rest. */
  lemma FirstBlockParts(cfg: Config, g: Graph, h: nat, deep: bool, depth: nat, s: Schema, keyed: bool, remaining: nat,
                        blocks: seq<Block>)
    requires blocks != []
    requires ShapeBlocks(g, s, keyed, blocks) && WithinBlocks(cfg, keyed, blocks) && ItemCount(blocks) <= remaining
    requires Need(deep, BlocksHeight(blocks), h) <= depth
    ensures var items := blocks[0].items;
            && 0 < |items| <= remaining && Int64(|items|) && Int64(|EncodeItems(keyed, items)|)
            && ShapeItems(g, s, keyed, items) && WithinItems(cfg, keyed, items)
            && Need(deep, ItemsHeight(items), h) <= depth
            && ShapeBlocks(g, s, keyed, blocks[1..]) && WithinBlocks(cfg, keyed, blocks[1..])
            && ItemCount(blocks[1..]) <= remaining - |items|
            && Need(deep, BlocksHeight(blocks[1..]), h) <= depth
  {
    hide EncodeItems, ShapeItems, WithinItems, ItemsHeight;
  }

  lemma NoBlocksDenote(cfg: Config, g: Graph, deep: bool, depth: nat, s: Schema, keyed: bool, remaining: nat, suffix: Bytes)
    ensures Matches(ReadBlocks(cfg, g, depth, s, keyed, remaining, EncodeBlocks(keyed, []) + (EncodeLong(0) + suffix)),
                    DenoteBlocks(cfg, g, deep, s, keyed, []), suffix)
  {
    assert EncodeBlocks(keyed, []) + (EncodeLong(0) + suffix) == EncodeLong(0) + suffix;
    LongRoundTrip(0, suffix);
  }

  /** The bytes of a sequence of blocks start with the header of the first. */
  lemma FirstHeader(keyed: bool, blocks: seq<Block>, end: Bytes)
    requires blocks != [] && 0 < |blocks[0].items|
    requires Int64(|blocks[0].items|) && Int64(|EncodeItems(keyed, blocks[0].items)|)
    ensures var body := EncodeItems(keyed, blocks[0].items);
            var r := ReadBlockHeader(EncodeBlocks(keyed, blocks) + end);
            && r.Ok? && r.value.count == |blocks[0].items|
            && (blocks[0].sized ==> r.value.size == |body|) && (!blocks[0].sized ==> r.value.size == 0)
            && r.rest == body + (EncodeBlocks(keyed, blocks[1..]) + end)
  {
    var block := blocks[0];
    var body := EncodeItems(keyed, block.items);
    Regroup4(BlockHeader(|block.items|, |body|, block.sized), body, EncodeBlocks(keyed, blocks[1..]), end);
    HeaderRoundTrip(|block.items|, |body|, block.sized, body + (EncodeBlocks(keyed, blocks[1..]) + end));
  }

  lemma JoinBlocks(cfg: Config, g: Graph, deep: bool, depth: nat, s: Schema, keyed: bool, remaining: nat,
                   blocks: seq<Block>, b: Bytes, middle: Bytes, suffix: Bytes)
    requires blocks != [] && 0 < |blocks[0].items| <= remaining
    requires ReadBlockHeader(b).Ok? && ReadBlockHeader(b).value.count == |blocks[0].items|
    requires Matches(ReadItems(cfg, g, depth, s, keyed, |blocks[0].items|, ReadBlockHeader(b).rest),
                     DenoteItems(cfg, g, deep, s, keyed, blocks[0].items), middle)
    requires Matches(ReadBlocks(cfg, g, depth, s, keyed, remaining - |blocks[0].items|, middle),
                     DenoteBlocks(cfg, g, deep, s, keyed, blocks[1..]), suffix)
    ensures Matches(ReadBlocks(cfg, g, depth, s, keyed, remaining, b), DenoteBlocks(cfg, g, deep, s, keyed, blocks), suffix)
  {
  }

  /** Skipping and reading a plan leave the same bytes behind. */
  lemma SkipAgreesWithRead(cfg: Config, g: Graph, n: nat, h: nat, depth: nat, s: Schema, d: Datum, suffix: Bytes)
    requires Sound(cfg, g, n, h) && Shape(g, s, d) && Within(cfg, d) && Height(d) + h <= depth
    ensures Skip(cfg, g, depth, s, Encode(d) + suffix) == Ok((), suffix)
    ensures var r := Read(cfg, g, depth, s, Encode(d) + suffix);
            && (r.Ok? <==> Denote(cfg, g, true, s, d).Some?)
            && (r.Ok? ==> r.rest == suffix)
  {
    SkipExact(cfg, g, depth, s, d, suffix);
    ReadDenotes(cfg, g, n, h, true, depth, s, d, suffix);
  }
}
