/** Data as they travel: a writer's datum together with how it is cut into blocks. */
module Datums {
  import opened Wire

  /**
   * Arrays and maps share a block structure; a map item carries its key. `blocks`
   * records the partition the encoder chose and which block headers carry a byte
   * size, so a statement about every Datum covers every legal encoding of a value.
   */
  datatype Datum =
    | DNull
    | DBool(b: bool)
    | DInt(i: int)
    | DLong(l: int)
    | DFloat(bits: Bytes)
    | DDouble(bits: Bytes)
    | DBytes(bytes: Bytes)
    | DFixed(bytes: Bytes)
    | DEnum(symbol: nat)
    | DBlocks(keyed: bool, blocks: seq<Block>)
    | DUnion(branch: nat, datum: Datum)
    | DRecord(fields: seq<Datum>)

  datatype Block = Block(items: seq<Item>, sized: bool)

  datatype Item = Item(key: Bytes, datum: Datum)

  // --- binary encoding (section "Binary Encoding" of the Avro specification) ---

  function EncodeBytes(bs: Bytes): Bytes {
    EncodeLong(|bs|) + bs
  }

  /** A sized block announces itself by a negated count. */
  function BlockHeader(count: int, size: nat, sized: bool): Bytes {
    if sized then EncodeLong(-count) + EncodeLong(size) else EncodeLong(count)
  }

  function Encode(d: Datum): Bytes
    decreases d
  {
    match d
    case DNull => []
    case DBool(b) => [if b then 1 else 0]
    case DInt(i) => EncodeLong(i)
    case DLong(l) => EncodeLong(l)
    case DFloat(bits) => bits
    case DDouble(bits) => bits
    case DBytes(bytes) => EncodeBytes(bytes)
    case DFixed(bytes) => bytes
    case DEnum(symbol) => EncodeLong(symbol)
    case DBlocks(keyed, blocks) => EncodeBlocks(keyed, blocks) + EncodeLong(0)
    case DUnion(branch, datum) => EncodeLong(branch) + Encode(datum)
    case DRecord(fields) => EncodeFields(fields)
  }

  function EncodeFields(fields: seq<Datum>): Bytes
    decreases fields
  {
    if fields == [] then [] else Encode(fields[0]) + EncodeFields(fields[1..])
  }

  function EncodeItems(keyed: bool, items: seq<Item>): Bytes
    decreases items
  {
    if items == [] then []
    else
      (if keyed then EncodeBytes(items[0].key) else [])
      + Encode(items[0].datum) + EncodeItems(keyed, items[1..])
  }

  function EncodeBlock(keyed: bool, block: Block): Bytes
    decreases block
  {
    var body := EncodeItems(keyed, block.items);
    BlockHeader(|block.items|, |body|, block.sized) + body
  }

  function EncodeBlocks(keyed: bool, blocks: seq<Block>): Bytes
    decreases blocks
  {
    if blocks == [] then []
    else EncodeBlock(keyed, blocks[0]) + EncodeBlocks(keyed, blocks[1..])
  }

  /** The number of items delivered across all blocks. */
  function ItemCount(blocks: seq<Block>): nat {
    if blocks == [] then 0 else |blocks[0].items| + ItemCount(blocks[1..])
  }

  /** All items in order, the partition forgotten. */
  function Items(blocks: seq<Block>): (r: seq<Item>)
    ensures |r| == ItemCount(blocks)
  {
    if blocks == [] then [] else blocks[0].items + Items(blocks[1..])
  }

  /** How deeply the datum nests: the calls a recursive decoder stacks up. */
  function Height(d: Datum): nat {
    match d
    case DBlocks(_, blocks) => BlocksHeight(blocks)
    case DUnion(_, datum) => Height(datum)
    case DRecord(fields) => 1 + FieldsHeight(fields)
    case _ => 0
  }

  function Max(a: nat, b: nat): nat {
    if a >= b then a else b
  }

  function FieldsHeight(fields: seq<Datum>): nat {
    if fields == [] then 0 else Max(Height(fields[0]), FieldsHeight(fields[1..]))
  }

  function ItemsHeight(items: seq<Item>): nat {
    if items == [] then 0 else Max(Height(items[0].datum), ItemsHeight(items[1..]))
  }

  function BlocksHeight(blocks: seq<Block>): nat {
    if blocks == [] then 0 else Max(ItemsHeight(blocks[0].items), BlocksHeight(blocks[1..]))
  }
}
