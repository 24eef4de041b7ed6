/** Skipping: moving past a datum without building its value. */
module Skipping {
  import opened Wire
  import opened Datums
  import opened Schemas
  import opened Values
  import Decimals

  // --- primitive readers shared by reading and skipping ---

  function ReadBool(b: Bytes): (r: Outcome<bool>)
    ensures r.Ok? ==> |r.rest| < |b|
  {
    if b == [] then Fail(UnexpectedEof)
    else if b[0] > 1 then Fail(Invalid)
    else Ok(b[0] == 1, b[1..])
  }

  datatype Header = Header(count: int, size: int)

  /** A negative count announces the byte size of the block. */
  function ReadBlockHeader(b: Bytes): (r: Outcome<Header>)
    ensures r.Ok? ==> |r.rest| < |b| && r.value.count >= 0 && r.value.size >= 0
  {
    match ReadLong(b)
    case Fail(e) => Fail(e)
    case Ok(count, rest) =>
      if count >= 0 then Ok(Header(count, 0), rest)
      else if count == -0x8000_0000_0000_0000 then Fail(Invalid)
      else
        match ReadLong(rest)
        case Fail(e) => Fail(e)
        case Ok(size, rest') =>
          if size < 0 then Fail(Invalid) else Ok(Header(-count, size), rest')
  }

  lemma HeaderRoundTrip(count: nat, size: nat, sized: bool, suffix: Bytes)
    requires Int64(count) && Int64(size)
    ensures ReadBlockHeader(BlockHeader(count, size, sized) + suffix)
         == Ok(Header(count, if sized && count > 0 then size else 0),
               if sized && count == 0 then EncodeLong(size) + suffix else suffix)
  {
    if sized {
      assert BlockHeader(count, size, sized) + suffix == EncodeLong(-(count as int)) + (EncodeLong(size) + suffix);
      LongRoundTrip(-(count as int), EncodeLong(size) + suffix);
      LongRoundTrip(size, suffix);
    } else {
      LongRoundTrip(count, suffix);
    }
  }

  // --- skipping ---

  function SkipRaw(b: Bytes, n: int): (r: Outcome<()>)
    ensures r.Ok? ==> |r.rest| <= |b|
  {
    if n < 0 then Fail(Invalid)
    else if n <= |b| then Ok((), b[n..])
    else Fail(UnexpectedEof)
  }

  function SkipVarint(b: Bytes, size: nat, last: byte): (r: Outcome<()>)
    ensures r.Ok? ==> |r.rest| <= |b|
    decreases b
  {
    if size == 0 then Ok((), b)
    else if b == [] then Fail(UnexpectedEof)
    else if size == 1 && b[0] > last then Fail(Invalid)
    else if b[0] < 0x80 then Ok((), b[1..])
    else SkipVarint(b[1..], size - 1, last)
  }

  /** Skipping a varint is reading it and dropping the value. */
  lemma {:induction false} SkipVarintAgrees(b: Bytes, size: nat, last: byte)
    requires size > 0 && last < 0x80
    ensures match ReadVarint(b, size, last)
            case Ok(_, rest) => SkipVarint(b, size, last) == Ok((), rest)
            case Fail(_) => SkipVarint(b, size, last).Fail?
    decreases size
  {
    if size > 1 && b != [] && b[0] >= 0x80 {
      SkipVarintAgrees(b[1..], size - 1, last);
    }
  }

  function SkipBytes(b: Bytes): (r: Outcome<()>)
    ensures r.Ok? ==> |r.rest| <= |b|
  {
    match ReadLong(b)
    case Fail(e) => Fail(e)
    case Ok(size, rest) => SkipRaw(rest, size)
  }

  function SkipKey(keyed: bool, b: Bytes): (r: Outcome<()>)
    ensures r.Ok? ==> |r.rest| <= |b|
  {
    if keyed then SkipBytes(b) else Ok((), b)
  }

  function SkipPrimitive(kind: Kind, b: Bytes): (r: Outcome<()>)
    ensures r.Ok? ==> |r.rest| <= |b|
  {
    match kind
    case Boolean => (match ReadBool(b) case Ok(_, rest) => Ok((), rest) case Fail(e) => Fail(e))
    case Int => SkipVarint(b, INT_SIZE, INT_LAST)
    case Long => SkipVarint(b, LONG_SIZE, LONG_LAST)
    case Float => SkipRaw(b, 4)
    case Double => SkipRaw(b, 8)
    case BytesKind => SkipBytes(b)
    case StringKind => SkipBytes(b)
  }

  function Skip(cfg: Config, g: Graph, depth: nat, s: Schema, b: Bytes): (r: Outcome<()>)
    ensures r.Ok? ==> |r.rest| <= |b|
    decreases depth, 2, s, 0, 0
  {
    match s
    case Null => Ok((), b)
    case Primitive(_, _, _) => SkipPrimitive(WireKind(s), b)
    case Array(items) => SkipBlocks(cfg, g, depth, items, false, b)
    case Map(values) => SkipBlocks(cfg, g, depth, values, true, b)
    case Union(_, _) =>
      (match ReadLong(b)
       case Fail(e) => Fail(e)
       case Ok(i, rest) =>
         if i < 0 || i >= |DecodeTypes(s)| then Fail(Invalid)
         else Skip(cfg, g, depth, DecodeTypes(s)[i], rest))
    case Named(id) => if id < |g| then SkipDef(cfg, g, depth, g[id], b) else Fail(Invalid)
    case Ref(id) => if id < |g| then SkipDef(cfg, g, depth, g[id], b) else Fail(Invalid)
  }

  function SkipDef(cfg: Config, g: Graph, depth: nat, def: Def, b: Bytes): (r: Outcome<()>)
    ensures r.Ok? ==> |r.rest| <= |b|
    decreases depth, 1
  {
    match def
    case Record(_, fields) =>
      if depth == 0 then Fail(Depth) else SkipFields(cfg, g, depth - 1, fields, b)
    case Enum(_, _, _, _) =>
      (match ReadInt(b)
       case Fail(e) => Fail(e)
       case Ok(i, rest) => if i < 0 || i >= |WireSymbols(def)| then Fail(Invalid) else Ok((), rest))
    case Fixed(_, size, _) => if FitsBytes(cfg, size) then SkipRaw(b, size) else Fail(Limit)
  }

  /** Reader-only defaults occupy no bytes. */
  function SkipFields(cfg: Config, g: Graph, depth: nat, fields: seq<Field>, b: Bytes): (r: Outcome<()>)
    ensures r.Ok? ==> |r.rest| <= |b|
    decreases depth, 3, |fields|
  {
    if fields == [] then Ok((), b)
    else if fields[0].action.SetDefault? then SkipFields(cfg, g, depth, fields[1..], b)
    else
      match Skip(cfg, g, depth, fields[0].typ, b)
      case Fail(e) => Fail(e)
      case Ok(_, rest) => SkipFields(cfg, g, depth, fields[1..], rest)
  }

  function SkipItems(cfg: Config, g: Graph, depth: nat, s: Schema, keyed: bool, count: nat, b: Bytes): (r: Outcome<()>)
    ensures r.Ok? ==> |r.rest| <= |b|
    decreases depth, 2, s, 1, count
  {
    if count == 0 then Ok((), b)
    else
      match SkipKey(keyed, b)
      case Fail(e) => Fail(e)
      case Ok(_, rest) =>
        match Skip(cfg, g, depth, s, rest)
        case Fail(e) => Fail(e)
        case Ok(_, rest') => SkipItems(cfg, g, depth, s, keyed, count - 1, rest')
  }

  /** A block with a positive byte size is jumped over whole. */
  function SkipBlocks(cfg: Config, g: Graph, depth: nat, s: Schema, keyed: bool, b: Bytes): (r: Outcome<()>)
    ensures r.Ok? ==> |r.rest| <= |b|
    decreases depth, 2, s, 2, |b|
  {
    match ReadBlockHeader(b)
    case Fail(e) => Fail(e)
    case Ok(header, rest) =>
      if header.count == 0 then Ok((), rest)
      else
        match (if header.size > 0 then SkipRaw(rest, header.size)
               else SkipItems(cfg, g, depth, s, keyed, header.count, rest))
        case Fail(e) => Fail(e)
        case Ok(_, rest') => SkipBlocks(cfg, g, depth, s, keyed, rest')
  }

  // --- skipping consumes exactly the encoding ---

  lemma SkipPrimitiveExact(kind: Kind, cfg: Config, d: Datum, suffix: Bytes)
    requires OfKind(kind, d) && Within(cfg, d)
    ensures SkipPrimitive(kind, Encode(d) + suffix) == Ok((), suffix)
  {
    match kind
    case Boolean =>
      DropPrefix(Encode(d), suffix);
    case Int =>
      var b := EncodeLong(d.i) + suffix;
      IntRoundTrip(d.i, suffix);
      SkipVarintAgrees(b, INT_SIZE, INT_LAST);
    case Long =>
      var b := EncodeLong(d.l) + suffix;
      LongRoundTrip(d.l, suffix);
      SkipVarintAgrees(b, LONG_SIZE, LONG_LAST);
    case Float => DropPrefix(d.bits, suffix);
    case Double => DropPrefix(d.bits, suffix);
    case BytesKind => SkipBytesExact(d.bytes, suffix);
    case StringKind => SkipBytesExact(d.bytes, suffix);
  }

  lemma SkipBytesExact(bs: Bytes, suffix: Bytes)
    requires |bs| <= Decimals.MAX_ALLOC
    ensures SkipBytes(EncodeBytes(bs) + suffix) == Ok((), suffix)
  {
    Regroup(EncodeLong(|bs|), bs, suffix);
    LongRoundTrip(|bs|, bs + suffix);
    DropPrefix(bs, suffix);
  }

  lemma {:induction false} SkipExact(cfg: Config, g: Graph, depth: nat, s: Schema, d: Datum, suffix: Bytes)
    requires Shape(g, s, d) && Within(cfg, d) && Height(d) <= depth
    ensures Skip(cfg, g, depth, s, Encode(d) + suffix) == Ok((), suffix)
    decreases d
  {
    match s
    case Null =>
      assert Encode(d) + suffix == suffix;
    case Primitive(_, _, _) => SkipPrimitiveExact(WireKind(s), cfg, d, suffix);
    case Array(items) =>
      SkipBlocksExact(cfg, g, depth, items, false, d.blocks, suffix);
      Regroup(EncodeBlocks(false, d.blocks), EncodeLong(0), suffix);
    case Map(values) =>
      SkipBlocksExact(cfg, g, depth, values, true, d.blocks, suffix);
      Regroup(EncodeBlocks(true, d.blocks), EncodeLong(0), suffix);
    case Union(_, _) =>
      Regroup(EncodeLong(d.branch), Encode(d.datum), suffix);
      LongRoundTrip(d.branch, Encode(d.datum) + suffix);
      SkipExact(cfg, g, depth, DecodeTypes(s)[d.branch], d.datum, suffix);
    case Named(id) => SkipDefExact(cfg, g, depth, g[id], d, suffix);
    case Ref(id) => SkipDefExact(cfg, g, depth, g[id], d, suffix);
  }

  lemma {:induction false} SkipDefExact(cfg: Config, g: Graph, depth: nat, def: Def, d: Datum, suffix: Bytes)
    requires ShapeDef(g, def, d) && Within(cfg, d) && Height(d) <= depth
    ensures SkipDef(cfg, g, depth, def, Encode(d) + suffix) == Ok((), suffix)
    decreases d, 0
  {
    match def
    case Record(_, fields) => SkipFieldsExact(cfg, g, depth - 1, fields, d.fields, suffix);
    case Enum(_, _, _, _) => IntRoundTrip(d.symbol, suffix);
    case Fixed(_, _, _) => DropPrefix(d.bytes, suffix);
  }

  lemma {:induction false} SkipFieldsExact(cfg: Config, g: Graph, depth: nat, fields: seq<Field>, ds: seq<Datum>, suffix: Bytes)
    requires ShapeFields(g, fields, ds) && WithinFields(cfg, ds) && FieldsHeight(ds) <= depth
    ensures SkipFields(cfg, g, depth, fields, EncodeFields(ds) + suffix) == Ok((), suffix)
    decreases ds, |fields|
  {
    if fields == [] {
      assert EncodeFields(ds) + suffix == suffix;
    } else if fields[0].action.SetDefault? {
      SkipFieldsExact(cfg, g, depth, fields[1..], ds, suffix);
    } else {
      Regroup(Encode(ds[0]), EncodeFields(ds[1..]), suffix);
      SkipExact(cfg, g, depth, fields[0].typ, ds[0], EncodeFields(ds[1..]) + suffix);
      SkipFieldsExact(cfg, g, depth, fields[1..], ds[1..], suffix);
    }
  }

  lemma {:induction false} SkipItemsExact(cfg: Config, g: Graph, depth: nat, s: Schema, keyed: bool, items: seq<Item>, suffix: Bytes)
    requires ShapeItems(g, s, keyed, items) && WithinItems(cfg, keyed, items) && ItemsHeight(items) <= depth
    ensures SkipItems(cfg, g, depth, s, keyed, |items|, EncodeItems(keyed, items) + suffix) == Ok((), suffix)
    decreases items
  {
    if items == [] {
      assert EncodeItems(keyed, items) + suffix == suffix;
    } else {
      var key := if keyed then EncodeBytes(items[0].key) else [];
      var tail := EncodeItems(keyed, items[1..]) + suffix;
      var body := Encode(items[0].datum) + tail;
      Regroup4(key, Encode(items[0].datum), EncodeItems(keyed, items[1..]), suffix);
      if keyed {
        SkipBytesExact(items[0].key, body);
      } else {
        assert key + body == body;
      }
      SkipExact(cfg, g, depth, s, items[0].datum, tail);
      SkipItemsExact(cfg, g, depth, s, keyed, items[1..], suffix);
    }
  }

  lemma {:induction false} SkipBlocksExact(cfg: Config, g: Graph, depth: nat, s: Schema, keyed: bool, blocks: seq<Block>, suffix: Bytes)
    requires ShapeBlocks(g, s, keyed, blocks) && WithinBlocks(cfg, keyed, blocks) && BlocksHeight(blocks) <= depth
    ensures SkipBlocks(cfg, g, depth, s, keyed, EncodeBlocks(keyed, blocks) + (EncodeLong(0) + suffix)) == Ok((), suffix)
    decreases blocks
  {
    if blocks == [] {
      assert EncodeBlocks(keyed, blocks) + (EncodeLong(0) + suffix) == EncodeLong(0) + suffix;
      LongRoundTrip(0, suffix);
    } else {
      var block := blocks[0];
      var body := EncodeItems(keyed, block.items);
      var tail := EncodeBlocks(keyed, blocks[1..]) + (EncodeLong(0) + suffix);
      Regroup4(BlockHeader(|block.items|, |body|, block.sized), body,
               EncodeBlocks(keyed, blocks[1..]), EncodeLong(0) + suffix);
      HeaderRoundTrip(|block.items|, |body|, block.sized, body + tail);
      DropPrefix(body, tail);
      SkipItemsExact(cfg, g, depth, s, keyed, block.items, tail);
      SkipBlocksExact(cfg, g, depth, s, keyed, blocks[1..], suffix);
    }
  }
}
