/** Decoded values, reader limits, and what a decode plan makes of a datum. */
module Values {
  import opened Wire
  import opened Datums
  import opened Schemas
  import Decimals
  import Timestamps

  /** Effective limits: `maxBytes` is disabled when not positive. */
  datatype Config = Config(maxBytes: int, maxItems: nat, maxEntries: nat)

  /** Floating point numbers stay symbolic: the bits read, or the integer or float converted. */
  datatype Float = Bits(bits: Bytes) | FromInt(i: int) | FromLong(l: int) | Widened(bits: Bytes)

  /** The key of a union value: a full name, or a type name with its logical type. */
  datatype Tag = NameTag(full: Text) | KindTag(kind: Kind, logical: Logical) | ArrayTag | MapTag | OtherTag

  datatype Value =
    | VNull
    | VBool(b: bool)
    | VInt(i: int)
    | VLong(l: int)
    | VFloat(f: Float)
    | VDouble(f: Float)
    | VBytes(bytes: Bytes)
    | VString(text: Text)
    | VFixed(bytes: Bytes)
    | VEnum(symbol: Text)
    | VArray(elems: seq<Value>)
    | VMap(entries: map<Text, Value>)
    | VRecord(fields: map<Text, Value>)
    | VTagged(tag: Tag, value: Value)
    | VInstant(sec: int, nanos: int)
    | VTime(nanos: int)
    | VDecimal(rat: Decimals.Rat)
    | VDuration(months: nat, days: nat, millis: nat)

  datatype Entry = Entry(key: Text, value: Value)

  /** Forgets which union branch a value came from. */
  function Erase(v: Value): Value {
    match v
    case VArray(elems) => VArray(seq(|elems|, i requires 0 <= i < |elems| => Erase(elems[i])))
    case VMap(entries) => VMap(map k | k in entries :: Erase(entries[k]))
    case VRecord(fields) => VRecord(map k | k in fields :: Erase(fields[k]))
    case VTagged(_, value) => Erase(value)
    case _ => v
  }

  // --- promotion and logical types ---

  predicate Promotable(writer: Kind, reader: Kind) {
    match writer
    case Int => reader.Long? || reader.Float? || reader.Double?
    case Long => reader.Float? || reader.Double?
    case Float => reader.Double?
    case StringKind => reader.BytesKind?
    case BytesKind => reader.StringKind?
    case Boolean => false
    case Double => false
  }

  /** The kind actually on the wire. */
  function WireKind(s: Schema): Kind
    requires s.Primitive?
  {
    if s.encodedType.Some? then s.encodedType.value else s.kind
  }

  /** A well-typed datum of a primitive kind. */
  predicate OfKind(kind: Kind, d: Datum) {
    match kind
    case Boolean => d.DBool?
    case Int => d.DInt?
    case Long => d.DLong?
    case Float => d.DFloat? && |d.bits| == 4
    case Double => d.DDouble? && |d.bits| == 8
    case BytesKind => d.DBytes?
    case StringKind => d.DBytes? && ValidUtf8(d.bytes)
  }

  /** The value of kind `kind` behind a datum; only text may be refused. */
  function Convert(kind: Kind, d: Datum): Option<Value> {
    match (kind, d)
    case (Boolean, DBool(b)) => Some(VBool(b))
    case (Int, DInt(i)) => Some(VInt(i))
    case (Long, DInt(i)) => Some(VLong(i))
    case (Long, DLong(l)) => Some(VLong(l))
    case (Float, DInt(i)) => Some(VFloat(FromInt(i)))
    case (Float, DLong(l)) => Some(VFloat(FromLong(l)))
    case (Float, DFloat(bits)) => Some(VFloat(Bits(bits)))
    case (Double, DInt(i)) => Some(VDouble(FromInt(i)))
    case (Double, DLong(l)) => Some(VDouble(FromLong(l)))
    case (Double, DFloat(bits)) => Some(VDouble(Widened(bits)))
    case (Double, DDouble(bits)) => Some(VDouble(Bits(bits)))
    case (BytesKind, DBytes(bytes)) => Some(VBytes(bytes))
    case (StringKind, DBytes(bytes)) => if ValidUtf8(bytes) then Some(VString(bytes)) else None
    case _ => None
  }

  function InstantOf(units: int, unit: Timestamps.Unit): Value
  {
    if Int64(units) then
      var t := Timestamps.FromUnits(units as Timestamps.int64, unit);
      VInstant(t.sec as int, t.nanos as int)
    else VNull
  }

  predicate ValidTimeUnits(value: int, perDay: int) {
    0 <= value < perDay
  }

  function DecimalValue(cfg: Config, logical: Logical, bytes: Bytes): Option<Value>
    requires logical.Decimal?
  {
    match Decimals.ReadDecimal(bytes, logical.precision, logical.scale, cfg.maxBytes)
    case Some(rat) => Some(VDecimal(rat))
    case None => None
  }

  /** Dresses a raw primitive in its logical type. */
  function Logically(cfg: Config, kind: Kind, logical: Logical, raw: Value): Option<Value> {
    match (raw, logical)
    case (VInt(i), Date) => Some(VInstant(i * 86400, 0))
    case (VInt(i), TimeMillis) =>
      if ValidTimeUnits(i, 86_400_000) then Some(VTime(i * 1_000_000)) else None
    case (VLong(l), TimeMicros) =>
      if ValidTimeUnits(l, 86_400_000_000) then Some(VTime(l * 1_000)) else None
    case (VLong(l), TimestampMillis) => Some(InstantOf(l, Timestamps.Millis))
    case (VLong(l), LocalTimestampMillis) => Some(InstantOf(l, Timestamps.Millis))
    case (VLong(l), TimestampMicros) => Some(InstantOf(l, Timestamps.Micros))
    case (VLong(l), LocalTimestampMicros) => Some(InstantOf(l, Timestamps.Micros))
    case (VBytes(b), Decimal(_, _)) =>
      if PrimitiveDecimal(kind, logical).Some? then DecimalValue(cfg, logical, b) else Some(raw)
    case _ => Some(raw)
  }

  function PrimitiveValue(cfg: Config, kind: Kind, logical: Logical, d: Datum): Option<Value> {
    match Convert(kind, d)
    case Some(raw) => Logically(cfg, kind, logical, raw)
    case None => None
  }

  /** Four bytes, the lowest first. */
  function Uint32(b: Bytes): nat
    requires |b| == 4
  {
    b[0] as int + 0x100 * b[1] as int + 0x1_0000 * b[2] as int + 0x100_0000 * b[3] as int
  }

  function FixedValue(cfg: Config, size: nat, logical: Logical, bytes: Bytes): Option<Value>
    requires |bytes| == size
  {
    if FixedDecimal(size, logical).Some? then DecimalValue(cfg, logical, bytes)
    else if logical.Duration? && size == 12 then
      Some(VDuration(Uint32(bytes[0..4]), Uint32(bytes[4..8]), Uint32(bytes[8..12])))
    else Some(VFixed(bytes))
  }

  // --- enums, unions ---

  function WireSymbols(d: Def): seq<Text>
    requires d.Enum?
  {
    if |d.encodedSymbols| > 0 then d.encodedSymbols else d.symbols
  }

  /** The symbol for a wire index, the default standing in for symbols the reader lacks. */
  function Symbol(d: Def, i: int): Option<Text>
    requires d.Enum?
  {
    var symbols := WireSymbols(d);
    if i < 0 || i >= |symbols| then None
    else if |d.encodedSymbols| > 0 && symbols[i] !in d.symbols then d.def
    else Some(symbols[i])
  }

  function DecodeTypes(s: Schema): seq<Schema>
    requires s.Union?
  {
    if s.plans != [] then s.plans else s.types
  }

  function TagOf(g: Graph, s: Schema): Tag {
    match s
    case Named(id) => if id < |g| then NameTag(g[id].name.full) else OtherTag
    case Ref(id) => if id < |g| then NameTag(g[id].name.full) else OtherTag
    case Primitive(kind, logical, _) => KindTag(kind, logical)
    case Array(_) => ArrayTag
    case Map(_) => MapTag
    case _ => OtherTag
  }

  // --- data a plan can decode ---

  predicate Shape(g: Graph, s: Schema, d: Datum)
    decreases d
  {
    match s
    case Null => d.DNull?
    case Primitive(kind, _, encodedType) =>
      && (encodedType.Some? ==> Promotable(encodedType.value, kind))
      && OfKind(WireKind(s), d)
    case Array(items) => d.DBlocks? && !d.keyed && ShapeBlocks(g, items, false, d.blocks)
    case Map(values) => d.DBlocks? && d.keyed && ShapeBlocks(g, values, true, d.blocks)
    case Union(_, _) =>
      d.DUnion? && d.branch < |DecodeTypes(s)| && Shape(g, DecodeTypes(s)[d.branch], d.datum)
    case Named(id) => id < |g| && ShapeDef(g, g[id], d)
    case Ref(id) => id < |g| && ShapeDef(g, g[id], d)
  }

  predicate ShapeDef(g: Graph, def: Def, d: Datum)
    decreases d, 0
  {
    match def
    case Record(_, fields) => d.DRecord? && ShapeFields(g, fields, d.fields)
    case Enum(_, _, _, _) => d.DEnum? && d.symbol < |WireSymbols(def)|
    case Fixed(_, size, _) => d.DFixed? && |d.bytes| == size
  }

  /** One datum for every field that occupies bytes. */
  predicate ShapeFields(g: Graph, fields: seq<Field>, ds: seq<Datum>)
    decreases ds, |fields|
  {
    if fields == [] then ds == []
    else if fields[0].action.SetDefault? then ShapeFields(g, fields[1..], ds)
    else ds != [] && Shape(g, fields[0].typ, ds[0]) && ShapeFields(g, fields[1..], ds[1..])
  }

  predicate ShapeItems(g: Graph, s: Schema, keyed: bool, items: seq<Item>)
    decreases items
  {
    items == []
    || ((keyed ==> ValidUtf8(items[0].key)) && Shape(g, s, items[0].datum)
        && ShapeItems(g, s, keyed, items[1..]))
  }

  predicate ShapeBlocks(g: Graph, s: Schema, keyed: bool, blocks: seq<Block>)
    decreases blocks
  {
    blocks == []
    || (blocks[0].items != [] && ShapeItems(g, s, keyed, blocks[0].items)
        && ShapeBlocks(g, s, keyed, blocks[1..]))
  }

  // --- limits ---

  predicate FitsBytes(cfg: Config, n: nat) {
    (cfg.maxBytes > 0 ==> n <= cfg.maxBytes) && n <= Decimals.MAX_ALLOC
  }

  /** Every length, count and number is inside the configured limits and its wire width. */
  predicate Within(cfg: Config, d: Datum)
    decreases d
  {
    match d
    case DNull => true
    case DBool(_) => true
    case DInt(i) => Int32(i)
    case DLong(l) => Int64(l)
    case DFloat(_) => true
    case DDouble(_) => true
    case DBytes(bytes) => FitsBytes(cfg, |bytes|)
    case DFixed(bytes) => FitsBytes(cfg, |bytes|)
    case DEnum(symbol) => Int32(symbol)
    case DBlocks(keyed, blocks) =>
      ItemCount(blocks) <= (if keyed then cfg.maxEntries else cfg.maxItems) && WithinBlocks(cfg, keyed, blocks)
    case DUnion(branch, datum) => Int64(branch) && Within(cfg, datum)
    case DRecord(fields) => WithinFields(cfg, fields)
  }

  predicate WithinFields(cfg: Config, ds: seq<Datum>)
    decreases ds
  {
    ds == [] || (Within(cfg, ds[0]) && WithinFields(cfg, ds[1..]))
  }

  predicate WithinItems(cfg: Config, keyed: bool, items: seq<Item>)
    decreases items
  {
    items == []
    || ((keyed ==> FitsBytes(cfg, |items[0].key|)) && Within(cfg, items[0].datum)
        && WithinItems(cfg, keyed, items[1..]))
  }

  predicate WithinBlocks(cfg: Config, keyed: bool, blocks: seq<Block>)
    decreases blocks
  {
    blocks == []
    || (&& Int64(|blocks[0].items|)
        && Int64(|EncodeItems(keyed, blocks[0].items)|)
        && WithinItems(cfg, keyed, blocks[0].items)
        && WithinBlocks(cfg, keyed, blocks[1..]))
  }

  // --- denotation ---

  /** Later entries replace earlier ones with the same key. */
  function Collect(pairs: seq<Entry>): map<Text, Value> {
    if pairs == [] then map[]
    else Collect(pairs[..|pairs| - 1])[pairs[|pairs| - 1].key := pairs[|pairs| - 1].value]
  }

  function PairValues(pairs: seq<Entry>): (r: seq<Value>)
    ensures |r| == |pairs|
  {
    seq(|pairs|, i requires 0 <= i < |pairs| => pairs[i].value)
  }

  /** An array or a map of the decoded items. */
  function Gather(keyed: bool, pairs: seq<Entry>): Value {
    if keyed then VMap(Collect(pairs)) else VArray(PairValues(pairs))
  }

  function TagUnlessNull(g: Graph, s: Schema, v: Value): Value {
    if s.Null? then VNull else VTagged(TagOf(g, s), v)
  }

  /**
   * The value a plan gives to a datum. Defaults are data of declared schemas, where no
   * further default can occur: `deep` admits them once.
   */
  function Denote(cfg: Config, g: Graph, deep: bool, s: Schema, d: Datum): Option<Value>
    decreases deep, d
  {
    match s
    case Null => if d.DNull? then Some(VNull) else None
    case Primitive(kind, logical, _) => PrimitiveValue(cfg, kind, logical, d)
    case Array(items) =>
      if d.DBlocks? then
        match DenoteBlocks(cfg, g, deep, items, false, d.blocks)
        case Some(pairs) => Some(Gather(false, pairs))
        case None => None
      else None
    case Map(values) =>
      if d.DBlocks? then
        match DenoteBlocks(cfg, g, deep, values, true, d.blocks)
        case Some(pairs) => Some(Gather(true, pairs))
        case None => None
      else None
    case Union(_, _) =>
      if d.DUnion? && d.branch < |DecodeTypes(s)| then
        var t := DecodeTypes(s)[d.branch];
        match Denote(cfg, g, deep, t, d.datum)
        case Some(v) => Some(TagUnlessNull(g, t, v))
        case None => None
      else None
    case Named(id) => if id < |g| then DenoteDef(cfg, g, deep, g[id], d) else None
    case Ref(id) => if id < |g| then DenoteDef(cfg, g, deep, g[id], d) else None
  }

  function DenoteDef(cfg: Config, g: Graph, deep: bool, def: Def, d: Datum): Option<Value>
    decreases deep, d, 0
  {
    match (def, d)
    case (Record(_, fields), DRecord(ds)) =>
      (match DenoteFields(cfg, g, deep, fields, ds, map[])
       case Some(obj) => Some(VRecord(obj))
       case None => None)
    case (Enum(_, _, _, _), DEnum(symbol)) =>
      (match Symbol(def, symbol)
       case Some(text) => Some(VEnum(text))
       case None => None)
    case (Fixed(_, size, logical), DFixed(bytes)) => if |bytes| == size then FixedValue(cfg, size, logical, bytes) else None
    case _ => None
  }

  function DenoteFields(cfg: Config, g: Graph, deep: bool, fields: seq<Field>, ds: seq<Datum>,
                        obj: map<Text, Value>): Option<map<Text, Value>>
    decreases deep, ds, |fields|
  {
    if fields == [] then Some(obj)
    else if fields[0].action.SetDefault? then
      match (if deep && fields[0].def.Some?
             then Denote(cfg, g, false, fields[0].typ, fields[0].def.value) else None)
      case Some(v) => DenoteFields(cfg, g, deep, fields[1..], ds, obj[fields[0].name := v])
      case None => None
    else if ds == [] then None
    else if fields[0].action.Ignore? then DenoteFields(cfg, g, deep, fields[1..], ds[1..], obj)
    else
      match Denote(cfg, g, deep, fields[0].typ, ds[0])
      case Some(v) => DenoteFields(cfg, g, deep, fields[1..], ds[1..], obj[fields[0].name := v])
      case None => None
  }

  function DenoteItems(cfg: Config, g: Graph, deep: bool, s: Schema, keyed: bool, items: seq<Item>)
    : Option<seq<Entry>>
    decreases deep, items
  {
    if items == [] then Some([])
    else if keyed && !ValidUtf8(items[0].key) then None
    else
      match Denote(cfg, g, deep, s, items[0].datum)
      case None => None
      case Some(v) =>
        match DenoteItems(cfg, g, deep, s, keyed, items[1..])
        case None => None
        case Some(pairs) => Some([Entry(if keyed then items[0].key else [], v)] + pairs)
  }

  function DenoteBlocks(cfg: Config, g: Graph, deep: bool, s: Schema, keyed: bool, blocks: seq<Block>)
    : Option<seq<Entry>>
    decreases deep, blocks
  {
    if blocks == [] then Some([])
    else
      match DenoteItems(cfg, g, deep, s, keyed, blocks[0].items)
      case None => None
      case Some(first) =>
        match DenoteBlocks(cfg, g, deep, s, keyed, blocks[1..])
        case None => None
        case Some(rest) => Some(first + rest)
  }

  /** Two parts of a collection, if both have a value. */
  function Join(a: Option<seq<Entry>>, b: Option<seq<Entry>>): Option<seq<Entry>> {
    if a.Some? && b.Some? then Some(a.value + b.value) else None
  }

  function DenoteItem(cfg: Config, g: Graph, deep: bool, s: Schema, keyed: bool, item: Item): Option<seq<Entry>> {
    if keyed && !ValidUtf8(item.key) then None
    else
      match Denote(cfg, g, deep, s, item.datum)
      case None => None
      case Some(v) => Some([Entry(if keyed then item.key else [], v)])
  }

  lemma FirstItemDenotes(cfg: Config, g: Graph, deep: bool, s: Schema, keyed: bool, items: seq<Item>)
    requires items != []
    ensures DenoteItems(cfg, g, deep, s, keyed, items)
         == Join(DenoteItem(cfg, g, deep, s, keyed, items[0]), DenoteItems(cfg, g, deep, s, keyed, items[1..]))
  {
    hide Denote;
  }
}
