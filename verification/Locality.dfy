/** Decoding looks at no byte beyond those it consumes, so that input cut short is always refused. */
module Locality {
  import opened Wire
  import opened Datums
  import opened Schemas
  import opened Values
  import opened Skipping
  import opened Decoding

  /** What follows in `c` the bytes that were consumed of `b`. */
  function Tail(b: Bytes, rest: Bytes, c: Bytes): Bytes
    requires |rest| <= |b|
  {
    if |b| - |rest| <= |c| then c[|b| - |rest|..] else []
  }

  /** `c` begins with the bytes that were consumed of `b`. */
  predicate Begins(b: Bytes, rest: Bytes, c: Bytes)
    requires |rest| <= |b|
  {
    |b| - |rest| <= |c| && c[..|b| - |rest|] == b[..|b| - |rest|]
  }

  predicate Consumes(b: Bytes, rest: Bytes) {
    |rest| <= |b| && rest == b[|b| - |rest|..]
  }

  /** If decoding `b` succeeds, it consumes a prefix, and any bytes with that prefix decode alike. */
  predicate Local<T(==)>(rb: Outcome<T>, rc: Outcome<T>, b: Bytes, c: Bytes) {
    rb.Ok? ==> Consumes(b, rb.rest) && (Begins(b, rb.rest, c) ==> rc == Ok(rb.value, Tail(b, rb.rest, c)))
  }

  /** Two steps, one behind the other. */
  lemma Then(b: Bytes, middle: Bytes, rest: Bytes, c: Bytes)
    requires Consumes(b, middle) && Consumes(middle, rest)
    ensures Consumes(b, rest)
    ensures Begins(b, rest, c) ==> Begins(b, middle, c) && Begins(middle, rest, Tail(b, middle, c))
    ensures Begins(b, rest, c) ==> Tail(middle, rest, Tail(b, middle, c)) == Tail(b, rest, c)
  {
    var k, m := |b| - |rest|, |b| - |middle|;
    if Begins(b, rest, c) {
      assert c[..m] == c[..k][..m] && b[..m] == b[..k][..m];
      assert c[m..][..k - m] == c[..k][m..] && middle[..k - m] == b[..k][m..];
    }
  }

  /** `Then`, if the second step succeeds. */
  lemma Behind<T>(b: Bytes, middle: Bytes, r: Outcome<T>, c: Bytes)
    requires Consumes(b, middle) && (r.Ok? ==> Consumes(middle, r.rest))
    ensures r.Ok? ==> Consumes(b, r.rest)
    ensures r.Ok? && Begins(b, r.rest, c) ==>
              && Begins(b, middle, c) && Begins(middle, r.rest, Tail(b, middle, c))
              && Tail(middle, r.rest, Tail(b, middle, c)) == Tail(b, r.rest, c)
  {
    if r.Ok? {
      Then(b, middle, r.rest, c);
    }
  }

  // --- leaves ---

  lemma VarintEnds(b: Bytes, c: Bytes, size: nat, last: byte)
    requires size > 0 && last < 0x80 && (b == [] || b[0] < 0x80 || size == 1)
    ensures Local(ReadVarint(b, size, last), ReadVarint(c, size, last), b, c)
  {
    hide Capacity;
  }

  lemma VarintGoesOn(b: Bytes, size: nat, last: byte)
    requires size > 1 && last < 0x80 && b != [] && b[0] >= 0x80
    ensures ReadVarint(b, size, last)
         == match ReadVarint(b[1..], size - 1, last)
            case Ok(v, rest) => Ok(b[0] - 0x80 + 0x80 * v, rest)
            case Fail(e) => Fail(e)
  {
    hide Capacity;
  }

  lemma {:induction false} VarintLocal(b: Bytes, c: Bytes, size: nat, last: byte)
    requires size > 0 && last < 0x80
    ensures Local(ReadVarint(b, size, last), ReadVarint(c, size, last), b, c)
    decreases size
  {
    hide ReadVarint, Capacity;
    if b == [] || b[0] < 0x80 || size == 1 {
      VarintEnds(b, c, size, last);
    } else {
      VarintGoesOn(b, size, last);
      if c != [] && c[0] >= 0x80 {
        VarintGoesOn(c, size, last);
      }
      VarintLocal(b[1..], if c == [] then [] else c[1..], size - 1, last);
      Behind(b, b[1..], ReadVarint(b, size, last), c);
    }
  }

  lemma {:induction false} SkipVarintLocal(b: Bytes, c: Bytes, size: nat, last: byte)
    requires size > 0 && last < 0x80
    ensures Local(SkipVarint(b, size, last), SkipVarint(c, size, last), b, c)
    decreases size
  {
    if b != [] && b[0] >= 0x80 && size > 1 {
      SkipVarintLocal(b[1..], if c == [] then [] else c[1..], size - 1, last);
      Behind(b, b[1..], SkipVarint(b, size, last), c);
    }
  }

  lemma NumbersLocal(b: Bytes, c: Bytes)
    ensures Local(Wire.ReadInt(b), Wire.ReadInt(c), b, c) && Local(ReadLong(b), ReadLong(c), b, c)
  {
    VarintLocal(b, c, INT_SIZE, INT_LAST);
    VarintLocal(b, c, LONG_SIZE, LONG_LAST);
  }

  lemma RawLocal(b: Bytes, c: Bytes, n: nat)
    ensures Local(ReadRaw(b, n), ReadRaw(c, n), b, c) && Local(SkipRaw(b, n), SkipRaw(c, n), b, c)
  {
  }

  lemma BytesLocal(cfg: Config, b: Bytes, c: Bytes)
    ensures Local(Decoding.ReadBytes(cfg, b), Decoding.ReadBytes(cfg, c), b, c)
    ensures Local(SkipBytes(b), SkipBytes(c), b, c)
  {
    hide ReadLong;
    NumbersLocal(b, c);
    var n := ReadLong(b);
    if n.Ok? && 0 <= n.value <= |n.rest| {
      RawLocal(n.rest, Tail(b, n.rest, c), n.value);
      Then(b, n.rest, n.rest[n.value..], c);
    }
  }

  lemma TextLocal(cfg: Config, b: Bytes, c: Bytes)
    ensures Local(ReadText(cfg, b), ReadText(cfg, c), b, c)
  {
    hide Decoding.ReadBytes;
    BytesLocal(cfg, b, c);
  }

  lemma DatumLocal(cfg: Config, kind: Kind, b: Bytes, c: Bytes)
    ensures Local(ReadDatum(cfg, kind, b), ReadDatum(cfg, kind, c), b, c)
  {
    hide ReadLong, Wire.ReadInt, Decoding.ReadBytes, ReadText;
    NumbersLocal(b, c);
    RawLocal(b, c, 4);
    RawLocal(b, c, 8);
    BytesLocal(cfg, b, c);
    TextLocal(cfg, b, c);
  }

  lemma PrimitiveLocal(cfg: Config, kind: Kind, logical: Logical, encodedType: Option<Kind>, b: Bytes, c: Bytes)
    ensures Local(ReadPrimitive(cfg, kind, logical, encodedType, b), ReadPrimitive(cfg, kind, logical, encodedType, c), b, c)
  {
    hide ReadDatum, PrimitiveValue;
    DatumLocal(cfg, ReadKind(kind, encodedType), b, c);
  }

  lemma SkipPrimitiveLocal(kind: Kind, b: Bytes, c: Bytes)
    ensures Local(SkipPrimitive(kind, b), SkipPrimitive(kind, c), b, c)
  {
    hide ReadLong, SkipVarint, SkipBytes;
    SkipVarintLocal(b, c, INT_SIZE, INT_LAST);
    SkipVarintLocal(b, c, LONG_SIZE, LONG_LAST);
    RawLocal(b, c, 4);
    RawLocal(b, c, 8);
    BytesLocal(Config(0, 0, 0), b, c);
  }

  lemma HeaderLocal(b: Bytes, c: Bytes)
    ensures Local(ReadBlockHeader(b), ReadBlockHeader(c), b, c)
  {
    hide ReadLong;
    NumbersLocal(b, c);
    var n := ReadLong(b);
    if n.Ok? {
      NumbersLocal(n.rest, Tail(b, n.rest, c));
      var m := ReadLong(n.rest);
      if m.Ok? {
        Then(b, n.rest, m.rest, c);
      }
    }
  }

  // --- skipping ---

  lemma {:induction false} SkipLocal(cfg: Config, g: Graph, depth: nat, s: Schema, b: Bytes, c: Bytes)
    ensures Local(Skip(cfg, g, depth, s, b), Skip(cfg, g, depth, s, c), b, c)
    decreases depth, 2, s, 0, 0
  {
    hide ReadLong, SkipPrimitive, SkipBlocks, SkipDef;
    match s
    case Null =>
    case Primitive(_, _, _) => SkipPrimitiveLocal(WireKind(s), b, c);
    case Array(items) => SkipBlocksLocal(cfg, g, depth, items, false, b, c);
    case Map(values) => SkipBlocksLocal(cfg, g, depth, values, true, b, c);
    case Union(_, _) =>
      NumbersLocal(b, c);
      var n := ReadLong(b);
      if n.Ok? && 0 <= n.value < |DecodeTypes(s)| {
        SkipLocal(cfg, g, depth, DecodeTypes(s)[n.value], n.rest, Tail(b, n.rest, c));
        Behind(b, n.rest, Skip(cfg, g, depth, s, b), c);
      }
    case Named(id) => if id < |g| { SkipDefLocal(cfg, g, depth, g[id], b, c); }
    case Ref(id) => if id < |g| { SkipDefLocal(cfg, g, depth, g[id], b, c); }
  }

  lemma {:induction false} SkipDefLocal(cfg: Config, g: Graph, depth: nat, def: Def, b: Bytes, c: Bytes)
    ensures Local(SkipDef(cfg, g, depth, def, b), SkipDef(cfg, g, depth, def, c), b, c)
    decreases depth, 1
  {
    hide Wire.ReadInt, SkipFields;
    match def
    case Record(_, fields) => if depth > 0 { SkipFieldsLocal(cfg, g, depth - 1, fields, b, c); }
    case Enum(_, _, _, _) => NumbersLocal(b, c);
    case Fixed(_, size, _) => RawLocal(b, c, size);
  }

  lemma {:induction false} SkipFieldsLocal(cfg: Config, g: Graph, depth: nat, fields: seq<Field>, b: Bytes, c: Bytes)
    ensures Local(SkipFields(cfg, g, depth, fields, b), SkipFields(cfg, g, depth, fields, c), b, c)
    decreases depth, 3, |fields|
  {
    hide Skip;
    if fields != [] {
      if fields[0].action.SetDefault? {
        SkipFieldsLocal(cfg, g, depth, fields[1..], b, c);
      } else {
        SkipLocal(cfg, g, depth, fields[0].typ, b, c);
        var first := Skip(cfg, g, depth, fields[0].typ, b);
        if first.Ok? {
          SkipFieldsLocal(cfg, g, depth, fields[1..], first.rest, Tail(b, first.rest, c));
          Behind(b, first.rest, SkipFields(cfg, g, depth, fields, b), c);
        }
      }
    }
  }

  lemma KeyLocal(keyed: bool, b: Bytes, c: Bytes)
    ensures Local(SkipKey(keyed, b), SkipKey(keyed, c), b, c)
  {
    hide SkipBytes;
    BytesLocal(Config(0, 0, 0), b, c);
  }

  /** An item: its key, then its datum. */
  function SkipItem(cfg: Config, g: Graph, depth: nat, s: Schema, keyed: bool, b: Bytes): Outcome<()> {
    match SkipKey(keyed, b)
    case Fail(e) => Fail(e)
    case Ok(_, rest) => Skip(cfg, g, depth, s, rest)
  }

  lemma {:induction false} SkipItemLocal(cfg: Config, g: Graph, depth: nat, s: Schema, keyed: bool, b: Bytes, c: Bytes)
    ensures Local(SkipItem(cfg, g, depth, s, keyed, b), SkipItem(cfg, g, depth, s, keyed, c), b, c)
    decreases depth, 2, s, 1, 0
  {
    hide Skip, SkipKey;
    KeyLocal(keyed, b, c);
    var key := SkipKey(keyed, b);
    if key.Ok? {
      SkipLocal(cfg, g, depth, s, key.rest, Tail(b, key.rest, c));
      Behind(b, key.rest, SkipItem(cfg, g, depth, s, keyed, b), c);
    }
  }

  lemma {:induction false} SkipItemsLocal(cfg: Config, g: Graph, depth: nat, s: Schema, keyed: bool, count: nat, b: Bytes, c: Bytes)
    ensures Local(SkipItems(cfg, g, depth, s, keyed, count, b), SkipItems(cfg, g, depth, s, keyed, count, c), b, c)
    decreases depth, 2, s, 1, count
  {
    hide Skip, SkipKey;
    if count > 0 {
      SkipItemLocal(cfg, g, depth, s, keyed, b, c);
      var first := SkipItem(cfg, g, depth, s, keyed, b);
      if first.Ok? {
        SkipItemsLocal(cfg, g, depth, s, keyed, count - 1, first.rest, Tail(b, first.rest, c));
        Behind(b, first.rest, SkipItems(cfg, g, depth, s, keyed, count, b), c);
      }
    }
  }

  lemma {:induction false} SkipBlocksLocal(cfg: Config, g: Graph, depth: nat, s: Schema, keyed: bool, b: Bytes, c: Bytes)
    ensures Local(SkipBlocks(cfg, g, depth, s, keyed, b), SkipBlocks(cfg, g, depth, s, keyed, c), b, c)
    decreases depth, 2, s, 2, |b|
  {
    hide ReadBlockHeader, SkipItems, SkipRaw, Begins, Consumes, Tail;
    HeaderLocal(b, c);
    var header := ReadBlockHeader(b);
    if header.Ok? && header.value.count > 0 {
      var c' := Tail(b, header.rest, c);
      RawLocal(header.rest, c', header.value.size);
      SkipItemsLocal(cfg, g, depth, s, keyed, header.value.count, header.rest, c');
      var body := if header.value.size > 0 then SkipRaw(header.rest, header.value.size)
      else SkipItems(cfg, g, depth, s, keyed, header.value.count, header.rest);
      if body.Ok? {
        SkipBlocksLocal(cfg, g, depth, s, keyed, body.rest, Tail(header.rest, body.rest, c'));
        Behind(header.rest, body.rest, SkipBlocks(cfg, g, depth, s, keyed, b), c');
        Behind(b, header.rest, SkipBlocks(cfg, g, depth, s, keyed, b), c);
      }
    }
  }

  // --- reading ---

  lemma {:induction false} ReadLocal(cfg: Config, g: Graph, depth: nat, s: Schema, b: Bytes, c: Bytes)
    ensures Local(Read(cfg, g, depth, s, b), Read(cfg, g, depth, s, c), b, c)
    decreases depth, 2, s, 0, 0
  {
    hide ReadLong, ReadPrimitive, ReadBlocks, ReadDef;
    match s
    case Null =>
    case Primitive(kind, logical, encodedType) => PrimitiveLocal(cfg, kind, logical, encodedType, b, c);
    case Array(items) => BlocksLocal(cfg, g, depth, items, false, cfg.maxItems, b, c);
    case Map(values) => BlocksLocal(cfg, g, depth, values, true, cfg.maxEntries, b, c);
    case Union(_, _) =>
      NumbersLocal(b, c);
      var n := ReadLong(b);
      if n.Ok? && 0 <= n.value < |DecodeTypes(s)| {
        ReadLocal(cfg, g, depth, DecodeTypes(s)[n.value], n.rest, Tail(b, n.rest, c));
        Behind(b, n.rest, Read(cfg, g, depth, s, b), c);
      }
    case Named(id) => if id < |g| { DefLocal(cfg, g, depth, g[id], b, c); }
    case Ref(id) => if id < |g| { DefLocal(cfg, g, depth, g[id], b, c); }
  }

  lemma {:induction false} DefLocal(cfg: Config, g: Graph, depth: nat, def: Def, b: Bytes, c: Bytes)
    ensures Local(ReadDef(cfg, g, depth, def, b), ReadDef(cfg, g, depth, def, c), b, c)
    decreases depth, 1
  {
    hide Wire.ReadInt, ReadFields, FixedValue;
    match def
    case Record(_, fields) => if depth > 0 { FieldsLocal(cfg, g, depth - 1, fields, map[], b, c); }
    case Enum(_, _, _, _) => NumbersLocal(b, c);
    case Fixed(_, size, _) => RawLocal(b, c, size);
  }

  lemma {:induction false} FieldsLocal(cfg: Config, g: Graph, depth: nat, fields: seq<Field>, obj: map<Text, Value>, b: Bytes, c: Bytes)
    ensures Local(ReadFields(cfg, g, depth, fields, obj, b), ReadFields(cfg, g, depth, fields, obj, c), b, c)
    decreases depth, 3, |fields|
  {
    hide Skip, Read, ReadDefault;
    if fields == [] {
      return;
    }
    var f := fields[0];
    var whole := ReadFields(cfg, g, depth, fields, obj, b);
    match f.action
    case Ignore =>
      SkipLocal(cfg, g, depth, f.typ, b, c);
      var r := Skip(cfg, g, depth, f.typ, b);
      if r.Ok? {
        FieldsLocal(cfg, g, depth, fields[1..], obj, r.rest, Tail(b, r.rest, c));
        Behind(b, r.rest, whole, c);
      }
    case SetDefault =>
      var r := ReadDefault(cfg, g, depth, f);
      if r.Ok? {
        FieldsLocal(cfg, g, depth, fields[1..], obj[f.name := r.value], b, c);
      }
    case Keep =>
      ReadLocal(cfg, g, depth, f.typ, b, c);
      var r := Read(cfg, g, depth, f.typ, b);
      if r.Ok? {
        FieldsLocal(cfg, g, depth, fields[1..], obj[f.name := r.value], r.rest, Tail(b, r.rest, c));
        Behind(b, r.rest, whole, c);
      }
  }

  function ReadKey(cfg: Config, keyed: bool, b: Bytes): Outcome<Text> {
    if keyed then ReadText(cfg, b) else Ok([], b)
  }

  lemma ReadKeyLocal(cfg: Config, keyed: bool, b: Bytes, c: Bytes)
    ensures Local(ReadKey(cfg, keyed, b), ReadKey(cfg, keyed, c), b, c)
  {
    hide ReadText;
    TextLocal(cfg, b, c);
  }

  function ReadItem(cfg: Config, g: Graph, depth: nat, s: Schema, keyed: bool, b: Bytes): Outcome<Entry> {
    match ReadKey(cfg, keyed, b)
    case Fail(e) => Fail(e)
    case Ok(key, rest) =>
      match Read(cfg, g, depth, s, rest)
      case Fail(e) => Fail(e)
      case Ok(v, rest') => Ok(Entry(key, v), rest')
  }

  lemma {:induction false} ItemLocal(cfg: Config, g: Graph, depth: nat, s: Schema, keyed: bool, b: Bytes, c: Bytes)
    ensures Local(ReadItem(cfg, g, depth, s, keyed, b), ReadItem(cfg, g, depth, s, keyed, c), b, c)
    decreases depth, 2, s, 1, 0
  {
    hide Read, ReadKey;
    ReadKeyLocal(cfg, keyed, b, c);
    var key := ReadKey(cfg, keyed, b);
    if key.Ok? {
      ReadLocal(cfg, g, depth, s, key.rest, Tail(b, key.rest, c));
      Behind(b, key.rest, ReadItem(cfg, g, depth, s, keyed, b), c);
    }
  }

  lemma ItemsByItem(cfg: Config, g: Graph, depth: nat, s: Schema, keyed: bool, count: nat, b: Bytes)
    requires count > 0
    ensures ReadItems(cfg, g, depth, s, keyed, count, b)
         == match ReadItem(cfg, g, depth, s, keyed, b)
            case Fail(e) => Fail(e)
            case Ok(entry, rest) =>
              match ReadItems(cfg, g, depth, s, keyed, count - 1, rest)
              case Fail(e) => Fail(e)
              case Ok(pairs, rest') => Ok([entry] + pairs, rest')
  {
    hide Read, ReadText;
  }

  lemma NoItems(cfg: Config, g: Graph, depth: nat, s: Schema, keyed: bool, b: Bytes, c: Bytes)
    ensures Local(ReadItems(cfg, g, depth, s, keyed, 0, b), ReadItems(cfg, g, depth, s, keyed, 0, c), b, c)
  {
  }

  lemma {:induction false} ItemsLocal(cfg: Config, g: Graph, depth: nat, s: Schema, keyed: bool, count: nat, b: Bytes, c: Bytes)
    ensures Local(ReadItems(cfg, g, depth, s, keyed, count, b), ReadItems(cfg, g, depth, s, keyed, count, c), b, c)
    decreases depth, 2, s, 1, count
  {
    hide ReadItem, ReadItems, Begins, Tail;
    if count == 0 {
      NoItems(cfg, g, depth, s, keyed, b, c);
    } else {
      ItemsByItem(cfg, g, depth, s, keyed, count, b);
      ItemsByItem(cfg, g, depth, s, keyed, count, c);
      ItemLocal(cfg, g, depth, s, keyed, b, c);
      var first := ReadItem(cfg, g, depth, s, keyed, b);
      if first.Ok? {
        ItemsLocal(cfg, g, depth, s, keyed, count - 1, first.rest, Tail(b, first.rest, c));
        Behind(b, first.rest, ReadItems(cfg, g, depth, s, keyed, count, b), c);
      }
    }
  }

  /** The first block, if it is not the empty one: its items, and where they end. */
  function FirstBlock(cfg: Config, g: Graph, depth: nat, s: Schema, keyed: bool, remaining: nat, b: Bytes): Outcome<Option<seq<Entry>>> {
    match ReadBlockHeader(b)
    case Fail(e) => Fail(e)
    case Ok(header, rest) =>
      if header.count == 0 then Ok(None, rest)
      else if header.count > remaining then Fail(Limit)
      else
        match ReadItems(cfg, g, depth, s, keyed, header.count, rest)
        case Fail(e) => Fail(e)
        case Ok(pairs, rest') => Ok(Some(pairs), rest')
  }

  lemma BlocksByBlock(cfg: Config, g: Graph, depth: nat, s: Schema, keyed: bool, remaining: nat, b: Bytes)
    ensures var first := FirstBlock(cfg, g, depth, s, keyed, remaining, b);
            first.Ok? && first.value.Some? ==> 0 < |first.value.value| <= remaining
    ensures ReadBlocks(cfg, g, depth, s, keyed, remaining, b)
         == match FirstBlock(cfg, g, depth, s, keyed, remaining, b)
            case Fail(e) => Fail(e)
            case Ok(None, rest) => Ok([], rest)
            case Ok(Some(pairs), rest) =>
              match ReadBlocks(cfg, g, depth, s, keyed, remaining - |pairs|, rest)
              case Fail(e) => Fail(e)
              case Ok(more, rest') => Ok(pairs + more, rest')
  {
    hide ReadBlockHeader, ReadItems;
  }

  lemma {:induction false} FirstBlockLocal(cfg: Config, g: Graph, depth: nat, s: Schema, keyed: bool, remaining: nat, b: Bytes, c: Bytes)
    ensures Local(FirstBlock(cfg, g, depth, s, keyed, remaining, b), FirstBlock(cfg, g, depth, s, keyed, remaining, c), b, c)
    decreases depth, 2, s, 2, remaining, 0
  {
    hide ReadBlockHeader, ReadItems, Begins, Tail;
    HeaderLocal(b, c);
    var header := ReadBlockHeader(b);
    if header.Ok? && 0 < header.value.count <= remaining {
      ItemsLocal(cfg, g, depth, s, keyed, header.value.count, header.rest, Tail(b, header.rest, c));
      Behind(b, header.rest, FirstBlock(cfg, g, depth, s, keyed, remaining, b), c);
    }
  }

  lemma {:induction false} BlocksLocal(cfg: Config, g: Graph, depth: nat, s: Schema, keyed: bool, remaining: nat, b: Bytes, c: Bytes)
    ensures Local(ReadBlocks(cfg, g, depth, s, keyed, remaining, b), ReadBlocks(cfg, g, depth, s, keyed, remaining, c), b, c)
    decreases depth, 2, s, 2, remaining, 1
  {
    hide ReadBlocks, FirstBlock, Begins, Tail;
    BlocksByBlock(cfg, g, depth, s, keyed, remaining, b);
    BlocksByBlock(cfg, g, depth, s, keyed, remaining, c);
    FirstBlockLocal(cfg, g, depth, s, keyed, remaining, b, c);
    var first := FirstBlock(cfg, g, depth, s, keyed, remaining, b);
    if first.Ok? && first.value.Some? {
      BlocksLocal(cfg, g, depth, s, keyed, remaining - |first.value.value|, first.rest, Tail(b, first.rest, c));
      Behind(b, first.rest, ReadBlocks(cfg, g, depth, s, keyed, remaining, b), c);
    }
  }

  // --- consequences ---

  /** What reading delivers does not depend on what follows. */
  lemma SuffixIgnored(cfg: Config, g: Graph, depth: nat, s: Schema, b: Bytes, suffix: Bytes)
    requires Read(cfg, g, depth, s, b).Ok?
    ensures var r := Read(cfg, g, depth, s, b);
            Read(cfg, g, depth, s, b + suffix) == Ok(r.value, r.rest + suffix)
  {
    hide Read;
    ReadLocal(cfg, g, depth, s, b, b + suffix);
    var rest := Read(cfg, g, depth, s, b).rest;
    var k := |b| - |rest|;
    assert (b + suffix)[..k] == b[..k] && (b + suffix)[k..] == b[k..] + suffix;
  }

  /** An encoding cut short anywhere is refused. */
  lemma TruncatedRefused(cfg: Config, g: Graph, n: nat, h: nat, depth: nat, s: Schema, d: Datum, k: nat)
    requires Sound(cfg, g, n, h) && Shape(g, s, d) && Within(cfg, d) && Height(d) + h <= depth
    requires k < |Encode(d)|
    ensures Read(cfg, g, depth, s, Encode(d)[..k]).Fail?
  {
    hide Read, Denote, Encode, Shape, Within, Sound;
    var b := Encode(d);
    assert b == b + [] && b == b[..k] + b[k..];
    ReadDenotes(cfg, g, n, h, true, depth, s, d, []);
    if Read(cfg, g, depth, s, b[..k]).Ok? {
      SuffixIgnored(cfg, g, depth, s, b[..k], b[k..]);
      assert false;
    }
  }
}
