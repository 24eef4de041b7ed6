/** Encoding arrays and maps block by block, and why any blocking decodes to the same value. */
module Encoders {
  import opened Wire
  import opened Datums
  import opened Schemas
  import opened Values
  import opened Skipping
  import opened Decoding
  import opened BufferedWriter

  // --- the blocks an encoder chooses ---

  /** Items in blocks of `n`, the last one possibly shorter; empty bodies carry no size. */
  function Cut(n: nat, sizes: bool, keyed: bool, items: seq<Item>): seq<Block>
    requires n > 0
    decreases |items|
  {
    if items == [] then []
    else
      var m := if |items| <= n then |items| else n;
      [Block(items[..m], sizes && EncodeItems(keyed, items[..m]) != [])] + Cut(n, sizes, keyed, items[m..])
  }

  /** The same datum, every array and map in it cut into blocks of `n`. */
  function Reblock(n: nat, sizes: bool, d: Datum): Datum
    requires n > 0
    decreases d
  {
    match d
    case DBlocks(keyed, blocks) => DBlocks(keyed, Cut(n, sizes, keyed, ReblockBlocks(n, sizes, blocks)))
    case DUnion(branch, datum) => DUnion(branch, Reblock(n, sizes, datum))
    case DRecord(fields) => DRecord(ReblockFields(n, sizes, fields))
    case _ => d
  }

  function ReblockFields(n: nat, sizes: bool, ds: seq<Datum>): (r: seq<Datum>)
    requires n > 0
    ensures |r| == |ds|
    decreases ds
  {
    if ds == [] then [] else [Reblock(n, sizes, ds[0])] + ReblockFields(n, sizes, ds[1..])
  }

  function ReblockItems(n: nat, sizes: bool, items: seq<Item>): (r: seq<Item>)
    requires n > 0
    ensures |r| == |items|
    ensures forall k :: 0 <= k < |items| ==> r[k] == Item(items[k].key, Reblock(n, sizes, items[k].datum))
    decreases items
  {
    if items == [] then []
    else [Item(items[0].key, Reblock(n, sizes, items[0].datum))] + ReblockItems(n, sizes, items[1..])
  }

  /** All items of all blocks, each with its own datum cut anew. */
  function ReblockBlocks(n: nat, sizes: bool, blocks: seq<Block>): (r: seq<Item>)
    requires n > 0
    ensures |r| == ItemCount(blocks)
    decreases blocks
  {
    if blocks == [] then []
    else ReblockItems(n, sizes, blocks[0].items) + ReblockBlocks(n, sizes, blocks[1..])
  }

  lemma {:induction false} ReblockFlat(n: nat, sizes: bool, blocks: seq<Block>)
    requires n > 0
    ensures ReblockBlocks(n, sizes, blocks) == ReblockItems(n, sizes, Items(blocks))
  {
    if blocks != [] {
      ReblockFlat(n, sizes, blocks[1..]);
    }
  }

  lemma {:induction false} ItemsOfCut(n: nat, sizes: bool, keyed: bool, items: seq<Item>)
    requires n > 0
    ensures Items(Cut(n, sizes, keyed, items)) == items
    ensures ItemCount(Cut(n, sizes, keyed, items)) == |items|
    decreases |items|
  {
    if items != [] {
      var m := if |items| <= n then |items| else n;
      ItemsOfCut(n, sizes, keyed, items[m..]);
      assert items == items[..m] + items[m..];
      assert Cut(n, sizes, keyed, items)[1..] == Cut(n, sizes, keyed, items[m..]);
    }
  }

  /** All blocks but the last are full, none is empty, and those with bytes carry a size when it is wanted. */
  lemma {:induction false} CutSizes(n: nat, sizes: bool, keyed: bool, items: seq<Item>, k: nat)
    requires n > 0 && k < |Cut(n, sizes, keyed, items)|
    ensures var blocks := Cut(n, sizes, keyed, items);
            && 1 <= |blocks[k].items| <= n
            && (k < |blocks| - 1 ==> |blocks[k].items| == n)
            && (blocks[k].sized <==> sizes && EncodeItems(keyed, blocks[k].items) != [])
    decreases |items|
  {
    hide EncodeItems;
    if k > 0 {
      var m := if |items| <= n then |items| else n;
      assert Cut(n, sizes, keyed, items)[1..] == Cut(n, sizes, keyed, items[m..]);
      CutSizes(n, sizes, keyed, items[m..], k - 1);
    }
  }

  // --- blocking changes nothing a reader can see ---

  lemma JoinAssociates(a: Option<seq<Entry>>, b: Option<seq<Entry>>, c: Option<seq<Entry>>)
    ensures Join(Join(a, b), c) == Join(a, Join(b, c))
  {
    if a.Some? && b.Some? && c.Some? {
      assert (a.value + b.value) + c.value == a.value + (b.value + c.value);
    }
  }

  lemma JoinNothing(a: Option<seq<Entry>>)
    ensures Join(Some([]), a) == a
  {
    if a.Some? {
      assert [] + a.value == a.value;
    }
  }

  lemma {:induction false} ItemsDenoteConcat(cfg: Config, g: Graph, deep: bool, s: Schema, keyed: bool, a: seq<Item>, b: seq<Item>)
    ensures DenoteItems(cfg, g, deep, s, keyed, a + b)
         == Join(DenoteItems(cfg, g, deep, s, keyed, a), DenoteItems(cfg, g, deep, s, keyed, b))
    decreases |a|
  {
    hide Denote;
    if a == [] {
      assert a + b == b;
      JoinNothing(DenoteItems(cfg, g, deep, s, keyed, b));
    } else {
      assert (a + b)[1..] == a[1..] + b;
      ItemsDenoteConcat(cfg, g, deep, s, keyed, a[1..], b);
      FirstItemDenotes(cfg, g, deep, s, keyed, a + b);
      FirstItemDenotes(cfg, g, deep, s, keyed, a);
      JoinAssociates(DenoteItem(cfg, g, deep, s, keyed, a[0]), DenoteItems(cfg, g, deep, s, keyed, a[1..]),
                     DenoteItems(cfg, g, deep, s, keyed, b));
    }
  }

  /** Only the items matter, not how they are cut. */
  lemma {:induction false} BlocksDenoteItems(cfg: Config, g: Graph, deep: bool, s: Schema, keyed: bool, blocks: seq<Block>)
    ensures DenoteBlocks(cfg, g, deep, s, keyed, blocks) == DenoteItems(cfg, g, deep, s, keyed, Items(blocks))
  {
    hide Denote, DenoteItems;
    if blocks == [] {
      NoItems(cfg, g, deep, s, keyed);
    } else {
      BlocksDenoteItems(cfg, g, deep, s, keyed, blocks[1..]);
      ItemsDenoteConcat(cfg, g, deep, s, keyed, blocks[0].items, Items(blocks[1..]));
    }
  }

  lemma NoItems(cfg: Config, g: Graph, deep: bool, s: Schema, keyed: bool)
    ensures DenoteItems(cfg, g, deep, s, keyed, []) == Some([])
  {
  }

  lemma {:induction false} ReblockDenotes(cfg: Config, g: Graph, deep: bool, s: Schema, n: nat, sizes: bool, d: Datum)
    requires n > 0
    ensures Denote(cfg, g, deep, s, Reblock(n, sizes, d)) == Denote(cfg, g, deep, s, d)
    decreases d
  {
    match s
    case Array(items) =>
      if d.DBlocks? { CutDenotes(cfg, g, deep, items, false, n, sizes, d.keyed, d.blocks); }
    case Map(values) =>
      if d.DBlocks? { CutDenotes(cfg, g, deep, values, true, n, sizes, d.keyed, d.blocks); }
    case Union(_, _) =>
      if d.DUnion? && d.branch < |DecodeTypes(s)| {
        ReblockDenotes(cfg, g, deep, DecodeTypes(s)[d.branch], n, sizes, d.datum);
      }
    case Named(id) => if id < |g| { ReblockDefDenotes(cfg, g, deep, g[id], n, sizes, d); }
    case Ref(id) => if id < |g| { ReblockDefDenotes(cfg, g, deep, g[id], n, sizes, d); }
    case _ =>
  }

  lemma {:induction false} ReblockDefDenotes(cfg: Config, g: Graph, deep: bool, def: Def, n: nat, sizes: bool, d: Datum)
    requires n > 0
    ensures DenoteDef(cfg, g, deep, def, Reblock(n, sizes, d)) == DenoteDef(cfg, g, deep, def, d)
    decreases d, 0
  {
    if def.Record? && d.DRecord? {
      ReblockFieldsDenote(cfg, g, deep, def.fields, n, sizes, d.fields, map[]);
    }
  }

  lemma {:induction false} ReblockFieldsDenote(cfg: Config, g: Graph, deep: bool, fields: seq<Field>, n: nat, sizes: bool,
                                               ds: seq<Datum>, obj: map<Text, Value>)
    requires n > 0
    ensures DenoteFields(cfg, g, deep, fields, ReblockFields(n, sizes, ds), obj) == DenoteFields(cfg, g, deep, fields, ds, obj)
    decreases ds, |fields|
  {
    if fields != [] {
      var f := fields[0];
      if f.action.SetDefault? {
        if deep && f.def.Some? {
          var v := Denote(cfg, g, false, f.typ, f.def.value);
          if v.Some? { ReblockFieldsDenote(cfg, g, deep, fields[1..], n, sizes, ds, obj[f.name := v.value]); }
        }
      } else if ds != [] {
        assert ReblockFields(n, sizes, ds)[1..] == ReblockFields(n, sizes, ds[1..]);
        if f.action.Ignore? {
          ReblockFieldsDenote(cfg, g, deep, fields[1..], n, sizes, ds[1..], obj);
        } else {
          ReblockDenotes(cfg, g, deep, f.typ, n, sizes, ds[0]);
          var v := Denote(cfg, g, deep, f.typ, ds[0]);
          if v.Some? { ReblockFieldsDenote(cfg, g, deep, fields[1..], n, sizes, ds[1..], obj[f.name := v.value]); }
        }
      }
    }
  }

  lemma {:induction false} ReblockItemsDenote(cfg: Config, g: Graph, deep: bool, s: Schema, keyed: bool, n: nat, sizes: bool, items: seq<Item>)
    requires n > 0
    ensures DenoteItems(cfg, g, deep, s, keyed, ReblockItems(n, sizes, items)) == DenoteItems(cfg, g, deep, s, keyed, items)
    decreases items
  {
    if items != [] {
      assert ReblockItems(n, sizes, items)[1..] == ReblockItems(n, sizes, items[1..]);
      ReblockDenotes(cfg, g, deep, s, n, sizes, items[0].datum);
      ReblockItemsDenote(cfg, g, deep, s, keyed, n, sizes, items[1..]);
    }
  }

  lemma {:induction false} ReblockBlocksDenote(cfg: Config, g: Graph, deep: bool, s: Schema, keyed: bool, n: nat, sizes: bool, blocks: seq<Block>)
    requires n > 0
    ensures DenoteItems(cfg, g, deep, s, keyed, ReblockBlocks(n, sizes, blocks)) == DenoteBlocks(cfg, g, deep, s, keyed, blocks)
    decreases blocks, 0
  {
    if blocks != [] {
      ReblockItemsDenote(cfg, g, deep, s, keyed, n, sizes, blocks[0].items);
      ReblockBlocksDenote(cfg, g, deep, s, keyed, n, sizes, blocks[1..]);
      ItemsDenoteConcat(cfg, g, deep, s, keyed, ReblockItems(n, sizes, blocks[0].items), ReblockBlocks(n, sizes, blocks[1..]));
    }
  }

  lemma {:induction false} CutDenotes(cfg: Config, g: Graph, deep: bool, s: Schema, keyed: bool, n: nat, sizes: bool, cut: bool, blocks: seq<Block>)
    requires n > 0
    ensures DenoteBlocks(cfg, g, deep, s, keyed, Cut(n, sizes, cut, ReblockBlocks(n, sizes, blocks)))
         == DenoteBlocks(cfg, g, deep, s, keyed, blocks)
    decreases blocks, 1
  {
    var items := ReblockBlocks(n, sizes, blocks);
    BlocksDenoteItems(cfg, g, deep, s, keyed, Cut(n, sizes, cut, items));
    ItemsOfCut(n, sizes, cut, items);
    ReblockBlocksDenote(cfg, g, deep, s, keyed, n, sizes, blocks);
  }

  // --- blocking keeps the shape ---

  lemma {:induction false} ReblockShape(g: Graph, s: Schema, n: nat, sizes: bool, d: Datum)
    requires n > 0 && Shape(g, s, d)
    ensures Shape(g, s, Reblock(n, sizes, d))
    decreases d
  {
    match s
    case Array(items) => CutShape(g, items, false, n, sizes, d.blocks);
    case Map(values) => CutShape(g, values, true, n, sizes, d.blocks);
    case Union(_, _) => ReblockShape(g, DecodeTypes(s)[d.branch], n, sizes, d.datum);
    case Named(id) => if g[id].Record? { ReblockFieldsShape(g, g[id].fields, n, sizes, d.fields); }
    case Ref(id) => if g[id].Record? { ReblockFieldsShape(g, g[id].fields, n, sizes, d.fields); }
    case _ =>
  }

  lemma {:induction false} ReblockFieldsShape(g: Graph, fields: seq<Field>, n: nat, sizes: bool, ds: seq<Datum>)
    requires n > 0 && ShapeFields(g, fields, ds)
    ensures ShapeFields(g, fields, ReblockFields(n, sizes, ds))
    decreases ds, |fields|
  {
    if fields != [] {
      if fields[0].action.SetDefault? {
        ReblockFieldsShape(g, fields[1..], n, sizes, ds);
      } else {
        assert ReblockFields(n, sizes, ds)[1..] == ReblockFields(n, sizes, ds[1..]);
        ReblockShape(g, fields[0].typ, n, sizes, ds[0]);
        ReblockFieldsShape(g, fields[1..], n, sizes, ds[1..]);
      }
    }
  }

  lemma {:induction false} ReblockItemsShape(g: Graph, s: Schema, keyed: bool, n: nat, sizes: bool, items: seq<Item>)
    requires n > 0 && ShapeItems(g, s, keyed, items)
    ensures ShapeItems(g, s, keyed, ReblockItems(n, sizes, items))
    decreases items
  {
    if items != [] {
      assert ReblockItems(n, sizes, items)[1..] == ReblockItems(n, sizes, items[1..]);
      ReblockShape(g, s, n, sizes, items[0].datum);
      ReblockItemsShape(g, s, keyed, n, sizes, items[1..]);
    }
  }

  lemma {:induction false} ReblockBlocksShape(g: Graph, s: Schema, keyed: bool, n: nat, sizes: bool, blocks: seq<Block>)
    requires n > 0 && ShapeBlocks(g, s, keyed, blocks)
    ensures ShapeItems(g, s, keyed, ReblockBlocks(n, sizes, blocks))
    decreases blocks, 0
  {
    if blocks != [] {
      ReblockItemsShape(g, s, keyed, n, sizes, blocks[0].items);
      ReblockBlocksShape(g, s, keyed, n, sizes, blocks[1..]);
      ItemsShapeConcat(g, s, keyed, ReblockItems(n, sizes, blocks[0].items), ReblockBlocks(n, sizes, blocks[1..]));
    }
  }

  lemma {:induction false} ItemsShapeConcat(g: Graph, s: Schema, keyed: bool, a: seq<Item>, b: seq<Item>)
    ensures ShapeItems(g, s, keyed, a + b) <==> ShapeItems(g, s, keyed, a) && ShapeItems(g, s, keyed, b)
    decreases |a|
  {
    if a == [] {
      assert a + b == b;
    } else {
      assert (a + b)[1..] == a[1..] + b;
      ItemsShapeConcat(g, s, keyed, a[1..], b);
    }
  }

  lemma {:induction false} CutShape(g: Graph, s: Schema, keyed: bool, n: nat, sizes: bool, blocks: seq<Block>)
    requires n > 0 && ShapeBlocks(g, s, keyed, blocks)
    ensures ShapeBlocks(g, s, keyed, Cut(n, sizes, keyed, ReblockBlocks(n, sizes, blocks)))
    decreases blocks, 1
  {
    ReblockBlocksShape(g, s, keyed, n, sizes, blocks);
    CutItemsShape(g, s, keyed, n, sizes, ReblockBlocks(n, sizes, blocks));
  }

  lemma {:induction false} CutItemsShape(g: Graph, s: Schema, keyed: bool, n: nat, sizes: bool, items: seq<Item>)
    requires n > 0 && ShapeItems(g, s, keyed, items)
    ensures ShapeBlocks(g, s, keyed, Cut(n, sizes, keyed, items))
    decreases |items|
  {
    if items != [] {
      var m := if |items| <= n then |items| else n;
      assert items == items[..m] + items[m..];
      ItemsShapeConcat(g, s, keyed, items[..m], items[m..]);
      CutItemsShape(g, s, keyed, n, sizes, items[m..]);
    }
  }

  // --- blocking keeps the height ---

  lemma {:induction false} ReblockHeight(n: nat, sizes: bool, d: Datum)
    requires n > 0
    ensures Height(Reblock(n, sizes, d)) == Height(d)
    decreases d
  {
    match d
    case DBlocks(keyed, blocks) =>
      ReblockBlocksHeight(n, sizes, blocks);
      CutHeight(n, sizes, keyed, ReblockBlocks(n, sizes, blocks));
    case DUnion(_, datum) => ReblockHeight(n, sizes, datum);
    case DRecord(fields) => ReblockFieldsHeight(n, sizes, fields);
    case _ =>
  }

  lemma {:induction false} ReblockFieldsHeight(n: nat, sizes: bool, ds: seq<Datum>)
    requires n > 0
    ensures FieldsHeight(ReblockFields(n, sizes, ds)) == FieldsHeight(ds)
    decreases ds
  {
    if ds != [] {
      assert ReblockFields(n, sizes, ds)[1..] == ReblockFields(n, sizes, ds[1..]);
      ReblockHeight(n, sizes, ds[0]);
      ReblockFieldsHeight(n, sizes, ds[1..]);
    }
  }

  lemma {:induction false} ReblockItemsHeight(n: nat, sizes: bool, items: seq<Item>)
    requires n > 0
    ensures ItemsHeight(ReblockItems(n, sizes, items)) == ItemsHeight(items)
    decreases items
  {
    if items != [] {
      assert ReblockItems(n, sizes, items)[1..] == ReblockItems(n, sizes, items[1..]);
      ReblockHeight(n, sizes, items[0].datum);
      ReblockItemsHeight(n, sizes, items[1..]);
    }
  }

  lemma {:induction false} ReblockBlocksHeight(n: nat, sizes: bool, blocks: seq<Block>)
    requires n > 0
    ensures ItemsHeight(ReblockBlocks(n, sizes, blocks)) == BlocksHeight(blocks)
    decreases blocks
  {
    if blocks != [] {
      ReblockItemsHeight(n, sizes, blocks[0].items);
      ReblockBlocksHeight(n, sizes, blocks[1..]);
      ItemsHeightConcat(ReblockItems(n, sizes, blocks[0].items), ReblockBlocks(n, sizes, blocks[1..]));
    }
  }

  lemma {:induction false} ItemsHeightConcat(a: seq<Item>, b: seq<Item>)
    ensures ItemsHeight(a + b) == Max(ItemsHeight(a), ItemsHeight(b))
    decreases |a|
  {
    if a == [] {
      assert a + b == b;
    } else {
      assert (a + b)[1..] == a[1..] + b;
      ItemsHeightConcat(a[1..], b);
    }
  }

  lemma {:induction false} CutHeight(n: nat, sizes: bool, keyed: bool, items: seq<Item>)
    requires n > 0
    ensures BlocksHeight(Cut(n, sizes, keyed, items)) == ItemsHeight(items)
    decreases |items|
  {
    if items != [] {
      var m := if |items| <= n then |items| else n;
      assert items == items[..m] + items[m..];
      ItemsHeightConcat(items[..m], items[m..]);
      CutHeight(n, sizes, keyed, items[m..]);
      assert Cut(n, sizes, keyed, items)[1..] == Cut(n, sizes, keyed, items[m..]);
    }
  }

  // --- how much room an encoding may take ---

  /** An upper bound on the bytes written, with every header at its reserved size. */
  function Room(d: Datum): nat
    decreases d
  {
    match d
    case DNull => 0
    case DBool(_) => 1
    case DInt(_) => 10
    case DLong(_) => 10
    case DFloat(bits) => |bits|
    case DDouble(bits) => |bits|
    case DBytes(bytes) => 10 + |bytes|
    case DFixed(bytes) => |bytes|
    case DEnum(_) => 10
    case DBlocks(_, blocks) => RESERVED + RoomBlocks(blocks)
    case DUnion(_, datum) => 10 + Room(datum)
    case DRecord(fields) => 1 + RoomFields(fields)
  }

  function RoomFields(ds: seq<Datum>): nat
    decreases ds
  {
    if ds == [] then 0 else Room(ds[0]) + RoomFields(ds[1..])
  }

  function RoomItem(item: Item): nat
    decreases item
  {
    RESERVED + 10 + |item.key| + Room(item.datum)
  }

  function RoomItems(items: seq<Item>): nat
    decreases items
  {
    if items == [] then 0 else RoomItem(items[0]) + RoomItems(items[1..])
  }

  function RoomBlocks(blocks: seq<Block>): nat
    decreases blocks
  {
    if blocks == [] then 0 else RoomItems(blocks[0].items) + RoomBlocks(blocks[1..])
  }

  lemma {:induction false} RoomConcat(a: seq<Item>, b: seq<Item>)
    ensures RoomItems(a + b) == RoomItems(a) + RoomItems(b)
    decreases |a|
  {
    if a == [] {
      assert a + b == b;
    } else {
      assert (a + b)[1..] == a[1..] + b;
      RoomConcat(a[1..], b);
    }
  }

  lemma {:induction false} RoomFlat(blocks: seq<Block>)
    ensures RoomBlocks(blocks) == RoomItems(Items(blocks))
  {
    if blocks != [] {
      RoomFlat(blocks[1..]);
      RoomConcat(blocks[0].items, Items(blocks[1..]));
    }
  }

  lemma {:induction false} RoomCounts(items: seq<Item>)
    ensures |items| <= RoomItems(items)
    ensures forall k :: 0 <= k < |items| ==> RoomItem(items[k]) <= RoomItems(items)
  {
    if items != [] {
      RoomCounts(items[1..]);
    }
  }

  // --- writing ---

  /** Numbers fit their wire types. */
  predicate Widths(d: Datum)
    decreases d
  {
    match d
    case DInt(i) => Int32(i)
    case DLong(l) => Int64(l)
    case DEnum(symbol) => Int32(symbol)
    case DBlocks(_, blocks) => WidthsBlocks(blocks)
    case DUnion(branch, datum) => Int64(branch) && Widths(datum)
    case DRecord(fields) => WidthsFields(fields)
    case _ => true
  }

  predicate WidthsFields(ds: seq<Datum>)
    decreases ds
  {
    ds == [] || (Widths(ds[0]) && WidthsFields(ds[1..]))
  }

  predicate WidthsItems(items: seq<Item>)
    decreases items
  {
    items == [] || (Widths(items[0].datum) && WidthsItems(items[1..]))
  }

  predicate WidthsBlocks(blocks: seq<Block>)
    decreases blocks
  {
    blocks == [] || (WidthsItems(blocks[0].items) && WidthsBlocks(blocks[1..]))
  }

  lemma {:induction false} WidthsConcat(a: seq<Item>, b: seq<Item>)
    ensures WidthsItems(a + b) <==> WidthsItems(a) && WidthsItems(b)
    decreases |a|
  {
    if a == [] {
      assert a + b == b;
    } else {
      assert (a + b)[1..] == a[1..] + b;
      WidthsConcat(a[1..], b);
    }
  }

  lemma {:induction false} WidthsFlat(blocks: seq<Block>)
    ensures WidthsBlocks(blocks) <==> WidthsItems(Items(blocks))
  {
    if blocks != [] {
      WidthsFlat(blocks[1..]);
      WidthsConcat(blocks[0].items, Items(blocks[1..]));
    }
  }

  /** What an encoder can be given: machine-sized numbers, less than 2^62 bytes in all. */
  predicate Encodable(d: Datum) {
    Widths(d) && Room(d) < HALF
  }

  /** Every map key is text; nothing else makes an encoder fail. */
  predicate TextKeys(d: Datum)
    decreases d
  {
    match d
    case DBlocks(keyed, blocks) => TextBlocks(keyed, blocks)
    case DUnion(_, datum) => TextKeys(datum)
    case DRecord(fields) => TextFields(fields)
    case _ => true
  }

  predicate TextFields(ds: seq<Datum>)
    decreases ds
  {
    ds == [] || (TextKeys(ds[0]) && TextFields(ds[1..]))
  }

  predicate TextItem(keyed: bool, item: Item)
    decreases item
  {
    (keyed ==> ValidUtf8(item.key)) && TextKeys(item.datum)
  }

  predicate TextItems(keyed: bool, items: seq<Item>)
    decreases items
  {
    items == [] || (TextItem(keyed, items[0]) && TextItems(keyed, items[1..]))
  }

  predicate TextBlocks(keyed: bool, blocks: seq<Block>)
    decreases blocks
  {
    blocks == [] || (TextItems(keyed, blocks[0].items) && TextBlocks(keyed, blocks[1..]))
  }

  lemma {:induction false} TextConcat(keyed: bool, a: seq<Item>, b: seq<Item>)
    ensures TextItems(keyed, a + b) <==> TextItems(keyed, a) && TextItems(keyed, b)
    decreases |a|
  {
    if a == [] {
      assert a + b == b;
    } else {
      assert (a + b)[1..] == a[1..] + b;
      TextConcat(keyed, a[1..], b);
    }
  }

  lemma {:induction false} TextFlat(keyed: bool, blocks: seq<Block>)
    ensures TextBlocks(keyed, blocks) <==> TextItems(keyed, Items(blocks))
  {
    if blocks != [] {
      TextFlat(keyed, blocks[1..]);
      TextConcat(keyed, blocks[0].items, Items(blocks[1..]));
    }
  }

  /** The first `i` items, and `m` more. */
  lemma TextSplit(keyed: bool, items: seq<Item>, i: nat, m: nat)
    requires i + m <= |items|
    ensures TextItems(keyed, items[..i + m]) <==> TextItems(keyed, items[..i]) && TextItems(keyed, items[i..i + m])
    ensures TextItems(keyed, items) ==> TextItems(keyed, items[..i])
    ensures i == 0 ==> TextItems(keyed, items[..i])
    ensures i == |items| ==> items[..i] == items
  {
    assert items[..i + m] == items[..i] + items[i..i + m] && items == items[..i] + items[i..];
    TextConcat(keyed, items[..i], items[i..i + m]);
    TextConcat(keyed, items[..i], items[i..]);
  }

  lemma OneText(keyed: bool, items: seq<Item>, k: nat)
    requires k < |items|
    ensures TextItems(keyed, items[k..k + 1]) <==> TextItem(keyed, items[k])
  {
    assert items[k..k + 1] == [items[k]] && [items[k]][1..] == [];
  }

  lemma {:induction false} FieldText(ds: seq<Datum>, k: nat)
    requires k < |ds|
    ensures TextFields(ds[..k + 1]) <==> TextFields(ds[..k]) && TextKeys(ds[k])
    decreases k
  {
    if k > 0 {
      FieldText(ds[1..], k - 1);
      assert ds[..k][1..] == ds[1..][..k - 1] && ds[..k + 1][1..] == ds[1..][..k];
    } else {
      assert ds[..1][1..] == [];
    }
  }

  lemma {:induction false} EncodeItemsConcat(keyed: bool, a: seq<Item>, b: seq<Item>)
    ensures EncodeItems(keyed, a + b) == EncodeItems(keyed, a) + EncodeItems(keyed, b)
    decreases |a|
  {
    if a == [] {
      assert a + b == b;
    } else {
      assert (a + b)[1..] == a[1..] + b;
      EncodeItemsConcat(keyed, a[1..], b);
    }
  }

  lemma {:induction false} EncodeFieldsConcat(a: seq<Datum>, b: seq<Datum>)
    ensures EncodeFields(a + b) == EncodeFields(a) + EncodeFields(b)
    decreases |a|
  {
    if a == [] {
      assert a + b == b;
    } else {
      assert (a + b)[1..] == a[1..] + b;
      EncodeFieldsConcat(a[1..], b);
    }
  }

  /** Appends a datum, cutting every collection into blocks of `n` items. */
  method EncodeDatum(w: Writer, n: nat, d: Datum)
    requires w.Valid() && n > 0 && Encodable(d)
    modifies w, w.data
    ensures w.Valid() && (w.data == old(w.data) || fresh(w.data)) && (old(w.error).Some? ==> w.error.Some?)
    ensures old(w.len) <= w.len <= old(w.len) + Room(d)
    ensures w.error.None? ==> w.Contents() == old(w.Contents()) + Encode(Reblock(n, w.sizes, d))
    ensures old(w.error).None? ==> (w.error.None? <==> TextKeys(d))
    decreases Room(d), 4
  {
    match d
    case DBlocks(keyed, blocks) =>
      hide Encode, RoomItems, TextItems;
      TextFlat(keyed, blocks);
      CollectionRoom(n, w.sizes, keyed, blocks);
      if keyed {
        EncodeMap(w, n, Items(blocks));
      } else {
        EncodeArray(w, n, Items(blocks));
      }
    case DUnion(branch, datum) =>
      w.WriteLong(branch);
      LongRoom(branch);
      EncodeDatum(w, n, datum);
      Regroup(old(w.Contents()), EncodeLong(branch), Encode(Reblock(n, w.sizes, datum)));
    case DRecord(fields) => EncodeRecord(w, n, fields);
    case _ => EncodeScalar(w, d);
  }

  lemma CollectionRoom(n: nat, sizes: bool, keyed: bool, blocks: seq<Block>)
    requires n > 0
    ensures Room(DBlocks(keyed, blocks)) == RESERVED + RoomItems(Items(blocks))
    ensures Widths(DBlocks(keyed, blocks)) <==> WidthsItems(Items(blocks))
    ensures Encode(Reblock(n, sizes, DBlocks(keyed, blocks)))
         == EncodeBlocks(keyed, Cut(n, sizes, keyed, ReblockItems(n, sizes, Items(blocks)))) + EncodeLong(0)
  {
    RoomFlat(blocks);
    WidthsFlat(blocks);
    ReblockFlat(n, sizes, blocks);
  }

  method EncodeScalar(w: Writer, d: Datum)
    requires w.Valid() && Encodable(d) && !d.DBlocks? && !d.DUnion? && !d.DRecord?
    modifies w, w.data
    ensures w.Valid() && (w.data == old(w.data) || fresh(w.data)) && (old(w.error).Some? ==> w.error.Some?)
    ensures old(w.len) <= w.len <= old(w.len) + Room(d)
    ensures w.Contents() == old(w.Contents()) + Encode(d) && w.error == old(w.error)
  {
    match d
    case DNull => assert w.Contents() + [] == w.Contents();
    case DBool(b) => w.Append([if b then 1 else 0]);
    case DInt(i) =>
      w.WriteInt(i);
      LongRoom(i);
    case DLong(l) =>
      w.WriteLong(l);
      LongRoom(l);
    case DFloat(bits) => w.Append(bits);
    case DDouble(bits) => w.Append(bits);
    case DBytes(bytes) =>
      w.WriteBytes(bytes);
      LongRoom(|bytes|);
    case DFixed(bytes) => w.Append(bytes);
    case DEnum(symbol) =>
      w.WriteInt(symbol);
      LongRoom(symbol);
  }

  lemma LongRoom(i: int)
    requires Int64(i)
    ensures |EncodeLong(i)| <= 10
  {
    CapacityValues();
    UvarintLength(Zig(i), LONG_SIZE, LONG_LAST);
  }

  lemma {:induction false} FieldsRoom(ds: seq<Datum>, k: nat)
    requires k < |ds|
    ensures RoomFields(ds[..k]) + Room(ds[k]) == RoomFields(ds[..k + 1]) <= RoomFields(ds)
    ensures WidthsFields(ds) ==> Widths(ds[k])
    decreases k
  {
    if k > 0 {
      FieldsRoom(ds[1..], k - 1);
      assert ds[..k][1..] == ds[1..][..k - 1] && ds[..k + 1][1..] == ds[1..][..k];
    }
  }

  method EncodeRecord(w: Writer, n: nat, fields: seq<Datum>)
    requires w.Valid() && n > 0 && WidthsFields(fields) && RoomFields(fields) < HALF
    modifies w, w.data
    ensures w.Valid() && (w.data == old(w.data) || fresh(w.data)) && (old(w.error).Some? ==> w.error.Some?)
    ensures old(w.len) <= w.len <= old(w.len) + RoomFields(fields)
    ensures w.error.None? ==> w.Contents() == old(w.Contents()) + EncodeFields(ReblockFields(n, w.sizes, fields))
    ensures old(w.error).None? ==> (w.error.None? <==> TextFields(fields))
    decreases RoomFields(fields), 5
  {
    assert old(w.Contents()) + EncodeFields(ReblockFields(n, w.sizes, fields[..0])) == old(w.Contents());
    for k := 0 to |fields|
      invariant w.Valid() && (w.data == old(w.data) || fresh(w.data)) && (old(w.error).Some? ==> w.error.Some?)
      invariant old(w.len) <= w.len <= old(w.len) + RoomFields(fields[..k])
      invariant w.error.None? ==>
                  w.Contents() == old(w.Contents()) + EncodeFields(ReblockFields(n, w.sizes, fields[..k]))
      invariant old(w.error).None? ==> (w.error.None? <==> TextFields(fields[..k]))
    {
      FieldText(fields, k);
      FieldsRoom(fields, k);
      EncodeDatum(w, n, fields[k]);
      NextFieldWritten(n, w.sizes, fields, k, old(w.Contents()));
    }
    assert fields[..|fields|] == fields;
  }

  lemma NextFieldWritten(n: nat, sizes: bool, fields: seq<Datum>, k: nat, base: Bytes)
    requires n > 0 && k < |fields|
    ensures (base + EncodeFields(ReblockFields(n, sizes, fields[..k]))) + Encode(Reblock(n, sizes, fields[k]))
         == base + EncodeFields(ReblockFields(n, sizes, fields[..k + 1]))
  {
    var d := Reblock(n, sizes, fields[k]);
    ReblockFieldsSnoc(n, sizes, fields, k);
    EncodeFieldsConcat(ReblockFields(n, sizes, fields[..k]), [d]);
    assert EncodeFields([d]) == Encode(d) + EncodeFields([]);
    assert EncodeFields([d]) == Encode(d);
  }

  lemma {:induction false} ReblockFieldsSnoc(n: nat, sizes: bool, fields: seq<Datum>, k: nat)
    requires n > 0 && k < |fields|
    ensures ReblockFields(n, sizes, fields[..k + 1]) == ReblockFields(n, sizes, fields[..k]) + [Reblock(n, sizes, fields[k])]
    decreases k
  {
    if k > 0 {
      assert fields[..k + 1][1..] == fields[1..][..k] && fields[..k][1..] == fields[1..][..k - 1];
      ReblockFieldsSnoc(n, sizes, fields[1..], k - 1);
    }
  }

  // --- blocks ---

  lemma {:induction false} ItemsRoom(items: seq<Item>, k: nat)
    requires k < |items|
    ensures RoomItems(items[..k]) + RoomItem(items[k]) == RoomItems(items[..k + 1]) <= RoomItems(items)
    ensures RESERVED <= RoomItem(items[k])
    ensures WidthsItems(items) ==> Widths(items[k].datum)
    decreases k
  {
    if k > 0 {
      ItemsRoom(items[1..], k - 1);
      assert items[..k][1..] == items[1..][..k - 1] && items[..k + 1][1..] == items[1..][..k];
    }
  }

  lemma ReblockItemsSnoc(n: nat, sizes: bool, items: seq<Item>, k: nat)
    requires n > 0 && k < |items|
    ensures ReblockItems(n, sizes, items[..k + 1])
         == ReblockItems(n, sizes, items[..k]) + [Item(items[k].key, Reblock(n, sizes, items[k].datum))]
  {
    hide Reblock, ReblockItems;
  }

  lemma NextItemWritten(n: nat, sizes: bool, keyed: bool, items: seq<Item>, k: nat, base: Bytes)
    requires n > 0 && k < |items|
    ensures (base + EncodeItems(keyed, ReblockItems(n, sizes, items[..k])))
            + (if keyed then EncodeBytes(items[k].key) else []) + Encode(Reblock(n, sizes, items[k].datum))
         == base + EncodeItems(keyed, ReblockItems(n, sizes, items[..k + 1]))
  {
    hide Encode, EncodeItems, EncodeBytes, Reblock, ReblockItems;
    var item := Item(items[k].key, Reblock(n, sizes, items[k].datum));
    var front := ReblockItems(n, sizes, items[..k]);
    ReblockItemsSnoc(n, sizes, items, k);
    EncodeItemsConcat(keyed, front, [item]);
    OneItem(keyed, item);
    var key := if keyed then EncodeBytes(item.key) else [];
    Regroup4(base, EncodeItems(keyed, front), key, Encode(item.datum));
  }

  lemma OneItem(keyed: bool, item: Item)
    ensures EncodeItems(keyed, [item]) == (if keyed then EncodeBytes(item.key) else []) + Encode(item.datum)
  {
    hide Encode;
    assert EncodeItems(keyed, []) == [];
  }

  lemma NoItemWritten(n: nat, sizes: bool, keyed: bool, items: seq<Item>, base: Bytes)
    requires n > 0
    ensures base + EncodeItems(keyed, ReblockItems(n, sizes, items[..0])) == base
  {
  }

  /** The body of a block; it stops at the first item that fails. */
  method EncodeBody(w: Writer, n: nat, keyed: bool, items: seq<Item>) returns (count: nat)
    requires w.Valid() && n > 0 && WidthsItems(items) && RoomItems(items) < HALF
    modifies w, w.data
    ensures w.Valid() && (w.data == old(w.data) || fresh(w.data)) && (old(w.error).Some? ==> w.error.Some?)
    ensures old(w.len) <= w.len && count <= |items|
    ensures w.len <= old(w.len) + (if items == [] then 0 else RoomItems(items) - RESERVED)
    ensures w.error.None? ==> count == |items|
    ensures w.error.None? ==>
              w.Contents() == old(w.Contents()) + EncodeItems(keyed, ReblockItems(n, w.sizes, items))
    ensures old(w.error).None? ==> (w.error.None? <==> TextItems(keyed, items))
    decreases RoomItems(items), 1
  {
    hide TextItems, TextItem, EncodeItems, Encode, Reblock, WidthsItems, Widths, RoomItems, RoomItem, Room, ReblockItems, EncodeBytes;
    NoItemWritten(n, w.sizes, keyed, items, w.Contents());
    NoRoom(items);
    TextSplit(keyed, items, 0, 0);
    count := 0;
    while count < |items|
      invariant w.Valid() && (w.data == old(w.data) || fresh(w.data)) && (old(w.error).Some? ==> w.error.Some?)
      invariant count <= |items| && old(w.len) <= w.len
      invariant w.len <= old(w.len) + (if count == 0 then 0 else RoomItems(items[..count]) - RESERVED)
      invariant w.error.None? ==>
                  w.Contents() == old(w.Contents()) + EncodeItems(keyed, ReblockItems(n, w.sizes, items[..count]))
      invariant old(w.error).None? ==> (w.error.None? <==> TextItems(keyed, items[..count]))
    {
      ItemsRoom(items, count);
      OneText(keyed, items, count);
      TextSplit(keyed, items, count, 1);
      TextSplit(keyed, items, count + 1, 0);
      EncodeItem(w, n, keyed, items[count]);
      if w.error.Some? {
        return;
      }
      NextItemWritten(n, w.sizes, keyed, items, count, old(w.Contents()));
      count := count + 1;
    }
    assert items[..|items|] == items;
  }

  method EncodeItem(w: Writer, n: nat, keyed: bool, item: Item)
    requires w.Valid() && n > 0 && Widths(item.datum) && RoomItem(item) < HALF
    modifies w, w.data
    ensures w.Valid() && (w.data == old(w.data) || fresh(w.data)) && (old(w.error).Some? ==> w.error.Some?)
    ensures old(w.len) <= w.len <= old(w.len) + RoomItem(item) - RESERVED
    ensures w.error.None? ==>
              w.Contents() == old(w.Contents()) + (if keyed then EncodeBytes(item.key) else [])
                              + Encode(Reblock(n, w.sizes, item.datum))
    ensures old(w.error).None? ==> (w.error.None? <==> TextItem(keyed, item))
    decreases RoomItem(item), 0
  {
    if keyed {
      w.WriteString(item.key);
      LongRoom(|item.key|);
    }
    EncodeDatum(w, n, item.datum);
    assert old(w.Contents()) + [] == old(w.Contents());
  }

  /** The block holding these items; it carries a size when wanted and not empty. */
  function BlockOf(n: nat, sizes: bool, keyed: bool, items: seq<Item>): Block
    requires n > 0
  {
    var body := ReblockItems(n, sizes, items);
    Block(body, sizes && EncodeItems(keyed, body) != [])
  }

  /** One block through its reserved header. */
  method EncodeOneBlock(w: Writer, n: nat, keyed: bool, items: seq<Item>) returns (count: nat)
    requires w.Valid() && n > 0 && WidthsItems(items) && RoomItems(items) < HALF
    modifies w, w.data
    ensures w.Valid() && (w.data == old(w.data) || fresh(w.data)) && (old(w.error).Some? ==> w.error.Some?)
    ensures old(w.len) <= w.len <= old(w.len) + (if items == [] then RESERVED else RoomItems(items)) && count <= |items|
    ensures w.error.None? ==> count == |items|
    ensures w.error.None? ==>
              w.Contents() == old(w.Contents()) + EncodeBlock(keyed, BlockOf(n, w.sizes, keyed, items))
    ensures old(w.error).None? ==> (w.error.None? <==> TextItems(keyed, items))
    decreases RoomItems(items), 2
  {
    hide TextItems, EncodeItems, RoomItems, WidthsItems, EncodeBlock, BlockOf, WrittenHeader, ReblockItems;
    RoomCounts(items);
    var start := w.OpenBlock();
    ghost var before := w.Contents();
    count := EncodeBody(w, n, keyed, items);
    HeaderFits(count, w.len - start - RESERVED, w.sizes);
    ghost var body := EncodeItems(keyed, ReblockItems(n, w.sizes, items));
    assert w.error.None? ==> w.Contents()[..start] == old(w.Contents()) && w.Contents()[start + RESERVED..] == body;
    w.CloseBlock(start, count);
    OneBlockBytes(n, w.sizes, keyed, items);
    Regroup(old(w.Contents()), WrittenHeader(count, |body|, w.sizes), body);
  }

  lemma OneBlockBytes(n: nat, sizes: bool, keyed: bool, items: seq<Item>)
    requires n > 0
    ensures var body := EncodeItems(keyed, ReblockItems(n, sizes, items));
            EncodeBlock(keyed, BlockOf(n, sizes, keyed, items)) == WrittenHeader(|items|, |body|, sizes) + body
  {
    hide EncodeItems;
  }

  lemma {:induction false} ItemsSplit(items: seq<Item>, i: nat, m: nat)
    requires i + m <= |items|
    ensures RoomItems(items[..i]) + RoomItems(items[i..i + m]) == RoomItems(items[..i + m]) <= RoomItems(items)
    ensures WidthsItems(items) ==> WidthsItems(items[i..i + m])
  {
    assert items[..i + m] == items[..i] + items[i..i + m];
    assert items == items[..i + m] + items[i + m..];
    RoomConcat(items[..i], items[i..i + m]);
    RoomConcat(items[..i + m], items[i + m..]);
    WidthsConcat(items[..i], items[i..i + m]);
    WidthsConcat(items[..i + m], items[i + m..]);
  }

  lemma NextCut(n: nat, sizes: bool, keyed: bool, items: seq<Item>, i: nat, m: nat)
    requires n > 0 && i < |items| && m == (if |items| - i <= n then |items| - i else n)
    ensures Cut(n, sizes, keyed, ReblockItems(n, sizes, items)[i..])
         == [BlockOf(n, sizes, keyed, items[i..i + m])] + Cut(n, sizes, keyed, ReblockItems(n, sizes, items)[i + m..])
  {
    hide EncodeItems;
    var all := ReblockItems(n, sizes, items);
    var rest := all[i..];
    var block := BlockOf(n, sizes, keyed, items[i..i + m]);
    assert |rest| == |items| - i;
    assert rest[..m] == block.items && rest[m..] == all[i + m..];
    CutOnce(n, sizes, keyed, rest, m);
  }

  lemma CutOnce(n: nat, sizes: bool, keyed: bool, items: seq<Item>, m: nat)
    requires n > 0 && items != [] && m == (if |items| <= n then |items| else n)
    ensures Cut(n, sizes, keyed, items)
         == [Block(items[..m], sizes && EncodeItems(keyed, items[..m]) != [])] + Cut(n, sizes, keyed, items[m..])
  {
    hide EncodeItems;
  }

  lemma FirstBlockEncoded(keyed: bool, block: Block, rest: seq<Block>)
    ensures EncodeBlocks(keyed, [block] + rest) == EncodeBlock(keyed, block) + EncodeBlocks(keyed, rest)
  {
    hide EncodeBlock;
    assert ([block] + rest)[1..] == rest;
  }

  /** Writing the next block brings the contents one block closer to the whole. */
  lemma NextBlockWritten(n: nat, sizes: bool, keyed: bool, items: seq<Item>, i: nat, m: nat, contents: Bytes)
    requires n > 0 && i < |items| && m == (if |items| - i <= n then |items| - i else n)
    ensures contents + EncodeBlocks(keyed, Cut(n, sizes, keyed, ReblockItems(n, sizes, items)[i..]))
         == (contents + EncodeBlock(keyed, BlockOf(n, sizes, keyed, items[i..i + m])))
            + EncodeBlocks(keyed, Cut(n, sizes, keyed, ReblockItems(n, sizes, items)[i + m..]))
  {
    hide EncodeItems, EncodeBlock, EncodeBlocks, Cut, BlockOf, ReblockItems;
    var all := ReblockItems(n, sizes, items);
    var block := BlockOf(n, sizes, keyed, items[i..i + m]);
    NextCut(n, sizes, keyed, items, i, m);
    FirstBlockEncoded(keyed, block, Cut(n, sizes, keyed, all[i + m..]));
    Regroup(contents, EncodeBlock(keyed, block), EncodeBlocks(keyed, Cut(n, sizes, keyed, all[i + m..])));
  }

  lemma NoBlockLeft(n: nat, sizes: bool, keyed: bool, items: seq<Item>, contents: Bytes)
    requires n > 0
    ensures contents + EncodeBlocks(keyed, Cut(n, sizes, keyed, ReblockItems(n, sizes, items)[|items|..])) == contents
  {
  }

  /** An array: a loop over blocks of `n`, then an empty block header. */
  method EncodeArray(w: Writer, n: nat, items: seq<Item>)
    requires w.Valid() && n > 0 && WidthsItems(items) && RoomItems(items) < HALF
    modifies w, w.data
    ensures w.Valid() && (w.data == old(w.data) || fresh(w.data)) && (old(w.error).Some? ==> w.error.Some?)
    ensures old(w.len) <= w.len <= old(w.len) + RESERVED + RoomItems(items)
    ensures w.error.None? ==>
              w.Contents() == old(w.Contents())
                              + (EncodeBlocks(false, Cut(n, w.sizes, false, ReblockItems(n, w.sizes, items))) + EncodeLong(0))
    ensures old(w.error).None? ==> (w.error.None? <==> TextItems(false, items))
    decreases RoomItems(items), 3
  {
    hide TextItems, EncodeBlocks, EncodeBlock, Cut, RoomItems, WidthsItems, BlockOf, EncodeItems, ReblockItems, WrittenHeader;
    var i := 0;
    ghost var all := ReblockItems(n, w.sizes, items);
    ghost var whole := w.Contents() + EncodeBlocks(false, Cut(n, w.sizes, false, all));
    assert all[0..] == all;
    NoRoom(items);
    TextSplit(false, items, 0, 0);
    while i < |items|
      invariant w.Valid() && (w.data == old(w.data) || fresh(w.data)) && (old(w.error).Some? ==> w.error.Some?)
      invariant 0 <= i <= |items| && old(w.len) <= w.len <= old(w.len) + RoomItems(items[..i])
      invariant w.error.None? ==> whole == w.Contents() + EncodeBlocks(false, Cut(n, w.sizes, false, all[i..]))
      invariant old(w.error).None? ==> (w.error.None? <==> TextItems(false, items[..i]))
    {
      var m := if |items| - i <= n then |items| - i else n;
      ItemsSplit(items, i, m);
      TextSplit(false, items, i, m);
      NextBlockWritten(n, w.sizes, false, items, i, m, w.Contents());
      var _ := EncodeOneBlock(w, n, false, items[i..i + m]);
      i := i + m;
      if w.error.Some? {
        break;
      }
    }
    ItemsSplit(items, 0, i);
    TextSplit(false, items, i, 0);
    NoBlockLeft(n, w.sizes, false, items, w.Contents());
    Regroup(old(w.Contents()), EncodeBlocks(false, Cut(n, w.sizes, false, all)), EncodeLong(0));
    LongRoom(0);
    EmptyHeader(w.sizes);
    w.WriteBlockHeader(0, 0);
  }

  lemma EmptyHeader(sizes: bool)
    ensures WrittenHeader(0, 0, sizes) == EncodeLong(0)
  {
  }

  lemma NoRoom(items: seq<Item>)
    ensures items[..0] == [] && RoomItems(items[..0]) == 0
  {
  }

  /** A map: blocks are written until one comes out empty, which is the terminator. */
  method EncodeMap(w: Writer, n: nat, items: seq<Item>)
    requires w.Valid() && n > 0 && WidthsItems(items) && RoomItems(items) < HALF
    modifies w, w.data
    ensures w.Valid() && (w.data == old(w.data) || fresh(w.data)) && (old(w.error).Some? ==> w.error.Some?)
    ensures old(w.len) <= w.len <= old(w.len) + RESERVED + RoomItems(items)
    ensures w.error.None? ==>
              w.Contents() == old(w.Contents())
                              + (EncodeBlocks(true, Cut(n, w.sizes, true, ReblockItems(n, w.sizes, items))) + EncodeLong(0))
    ensures old(w.error).None? ==> (w.error.None? <==> TextItems(true, items))
    decreases RoomItems(items), 3
  {
    hide TextItems, EncodeBlocks, EncodeBlock, Cut, RoomItems, WidthsItems, BlockOf, EncodeItems;
    var i := 0;
    ghost var all := ReblockItems(n, w.sizes, items);
    ghost var whole := w.Contents() + EncodeBlocks(true, Cut(n, w.sizes, true, all));
    assert all[0..] == all;
    NoRoom(items);
    TextSplit(true, items, 0, 0);
    while true
      invariant w.Valid() && (w.data == old(w.data) || fresh(w.data)) && (old(w.error).Some? ==> w.error.Some?)
      invariant 0 <= i <= |items| && old(w.len) <= w.len <= old(w.len) + RoomItems(items[..i])
      invariant w.error.None? ==> whole == w.Contents() + EncodeBlocks(true, Cut(n, w.sizes, true, all[i..]))
      invariant old(w.error).None? ==> (w.error.None? <==> TextItems(true, items[..i]))
      decreases |items| - i
    {
      var m := if |items| - i <= n then |items| - i else n;
      ItemsSplit(items, i, m);
      ItemsSplit(items, 0, i);
      TextSplit(true, items, i, m);
      TextSplit(true, items, i + m, 0);
      if i < |items| {
        NextBlockWritten(n, w.sizes, true, items, i, m, w.Contents());
      } else {
        NoBlockLeft(n, w.sizes, true, items, w.Contents());
        EmptyBlock(n, w.sizes);
        Regroup(old(w.Contents()), EncodeBlocks(true, Cut(n, w.sizes, true, all)), EncodeLong(0));
      }
      var wrote := EncodeOneBlock(w, n, true, items[i..i + m]);
      if w.error.Some? || wrote == 0 {
        return;
      }
      i := i + m;
    }
  }

  lemma EmptyBlock(n: nat, sizes: bool)
    requires n > 0
    ensures EncodeBlock(true, BlockOf(n, sizes, true, [])) == EncodeLong(0)
  {
  }

  // --- the encoding stays within its room, and within the reader's limits ---

  lemma {:induction false} EncodedRoom(n: nat, sizes: bool, d: Datum)
    requires n > 0 && Widths(d) && Room(d) < HALF
    ensures |Encode(Reblock(n, sizes, d))| <= Room(d)
    decreases Room(d), 1
  {
    match d
    case DInt(i) => LongRoom(i);
    case DLong(l) => LongRoom(l);
    case DBytes(bytes) => LongRoom(|bytes|);
    case DEnum(symbol) => LongRoom(symbol);
    case DBlocks(keyed, blocks) =>
      CollectionRoom(n, sizes, keyed, blocks);
      LongRoom(0);
      CutRoom(n, sizes, keyed, Items(blocks));
    case DUnion(branch, datum) =>
      LongRoom(branch);
      EncodedRoom(n, sizes, datum);
    case DRecord(fields) => FieldsEncodedRoom(n, sizes, fields);
    case _ =>
  }

  lemma {:induction false} FieldsEncodedRoom(n: nat, sizes: bool, ds: seq<Datum>)
    requires n > 0 && WidthsFields(ds) && RoomFields(ds) < HALF
    ensures |EncodeFields(ReblockFields(n, sizes, ds))| <= RoomFields(ds)
    decreases RoomFields(ds), 2, |ds|
  {
    if ds != [] {
      EncodedRoom(n, sizes, ds[0]);
      FieldsEncodedRoom(n, sizes, ds[1..]);
      assert ReblockFields(n, sizes, ds)[1..] == ReblockFields(n, sizes, ds[1..]);
    }
  }

  lemma {:induction false} ItemsEncodedRoom(n: nat, sizes: bool, keyed: bool, items: seq<Item>)
    requires n > 0 && WidthsItems(items) && RoomItems(items) < HALF
    ensures |EncodeItems(keyed, ReblockItems(n, sizes, items))| + (if items == [] then 0 else RESERVED) <= RoomItems(items)
    decreases RoomItems(items), 0
  {
    if items != [] {
      LongRoom(|items[0].key|);
      EncodedRoom(n, sizes, items[0].datum);
      ItemsEncodedRoom(n, sizes, keyed, items[1..]);
      assert ReblockItems(n, sizes, items)[1..] == ReblockItems(n, sizes, items[1..]);
    }
  }

  lemma {:induction false} CutRoom(n: nat, sizes: bool, keyed: bool, items: seq<Item>)
    requires n > 0 && WidthsItems(items) && RoomItems(items) < HALF
    ensures |EncodeBlocks(keyed, Cut(n, sizes, keyed, ReblockItems(n, sizes, items)))| <= RoomItems(items)
    decreases RoomItems(items), 1
  {
    if items == [] {
      assert Cut(n, sizes, keyed, []) == [];
    } else {
      hide EncodeItems, Encode, RoomItems, WidthsItems, Cut;
      var m := if |items| <= n then |items| else n;
      FrontRoom(items, m);
      FirstCut(n, sizes, keyed, items, m);
      ItemsEncodedRoom(n, sizes, keyed, items[..m]);
      CutRoom(n, sizes, keyed, items[m..]);
      HeaderFits(m, |EncodeItems(keyed, ReblockItems(n, sizes, items[..m]))|, sizes);
    }
  }

  lemma FrontRoom(items: seq<Item>, m: nat)
    requires m <= |items|
    ensures RoomItems(items[..m]) + RoomItems(items[m..]) == RoomItems(items)
    ensures WidthsItems(items) ==> WidthsItems(items[..m]) && WidthsItems(items[m..])
    ensures m > 0 ==> RoomItems(items[..m]) >= RESERVED
    ensures m <= RoomItems(items[..m])
  {
    assert items == items[..m] + items[m..];
    RoomConcat(items[..m], items[m..]);
    WidthsConcat(items[..m], items[m..]);
    RoomCounts(items[..m]);
  }

  lemma FirstCut(n: nat, sizes: bool, keyed: bool, items: seq<Item>, m: nat)
    requires n > 0 && items != [] && m == if |items| <= n then |items| else n
    ensures Cut(n, sizes, keyed, ReblockItems(n, sizes, items))
         == [BlockOf(n, sizes, keyed, items[..m])] + Cut(n, sizes, keyed, ReblockItems(n, sizes, items[m..]))
  {
    var all := ReblockItems(n, sizes, items);
    assert all[..m] == ReblockItems(n, sizes, items[..m]) && all[m..] == ReblockItems(n, sizes, items[m..]);
  }

  lemma {:induction false} ReblockWithin(cfg: Config, n: nat, sizes: bool, d: Datum)
    requires n > 0 && Encodable(d) && Within(cfg, d)
    ensures Within(cfg, Reblock(n, sizes, d))
    decreases Room(d), 1
  {
    match d
    case DBlocks(keyed, blocks) =>
      CollectionRoom(n, sizes, keyed, blocks);
      ReblockFlat(n, sizes, blocks);
      ItemsOfCut(n, sizes, keyed, ReblockItems(n, sizes, Items(blocks)));
      WithinFlat(cfg, keyed, blocks);
      CutWithin(cfg, n, sizes, keyed, Items(blocks));
    case DUnion(_, datum) => ReblockWithin(cfg, n, sizes, datum);
    case DRecord(fields) => FieldsWithin(cfg, n, sizes, fields);
    case _ =>
  }

  lemma {:induction false} FieldsWithin(cfg: Config, n: nat, sizes: bool, ds: seq<Datum>)
    requires n > 0 && WidthsFields(ds) && RoomFields(ds) < HALF && WithinFields(cfg, ds)
    ensures WithinFields(cfg, ReblockFields(n, sizes, ds))
    decreases RoomFields(ds), 2, |ds|
  {
    if ds != [] {
      ReblockWithin(cfg, n, sizes, ds[0]);
      FieldsWithin(cfg, n, sizes, ds[1..]);
      assert ReblockFields(n, sizes, ds)[1..] == ReblockFields(n, sizes, ds[1..]);
    }
  }

  lemma {:induction false} WithinConcat(cfg: Config, keyed: bool, a: seq<Item>, b: seq<Item>)
    ensures WithinItems(cfg, keyed, a + b) <==> WithinItems(cfg, keyed, a) && WithinItems(cfg, keyed, b)
    decreases |a|
  {
    if a == [] {
      assert a + b == b;
    } else {
      assert (a + b)[1..] == a[1..] + b;
      WithinConcat(cfg, keyed, a[1..], b);
    }
  }

  lemma {:induction false} WithinFlat(cfg: Config, keyed: bool, blocks: seq<Block>)
    requires WithinBlocks(cfg, keyed, blocks)
    ensures WithinItems(cfg, keyed, Items(blocks))
  {
    if blocks != [] {
      WithinFlat(cfg, keyed, blocks[1..]);
      WithinConcat(cfg, keyed, blocks[0].items, Items(blocks[1..]));
    }
  }

  lemma {:induction false} ItemsReblockWithin(cfg: Config, n: nat, sizes: bool, keyed: bool, items: seq<Item>)
    requires n > 0 && WidthsItems(items) && RoomItems(items) < HALF && WithinItems(cfg, keyed, items)
    ensures WithinItems(cfg, keyed, ReblockItems(n, sizes, items))
    decreases RoomItems(items), 0
  {
    if items != [] {
      ReblockWithin(cfg, n, sizes, items[0].datum);
      ItemsReblockWithin(cfg, n, sizes, keyed, items[1..]);
      assert ReblockItems(n, sizes, items)[1..] == ReblockItems(n, sizes, items[1..]);
    }
  }

  lemma {:induction false} CutWithin(cfg: Config, n: nat, sizes: bool, keyed: bool, items: seq<Item>)
    requires n > 0 && WidthsItems(items) && RoomItems(items) < HALF && WithinItems(cfg, keyed, items)
    ensures WithinBlocks(cfg, keyed, Cut(n, sizes, keyed, ReblockItems(n, sizes, items)))
    decreases RoomItems(items), 1
  {
    if items == [] {
      assert Cut(n, sizes, keyed, []) == [];
      assert WithinBlocks(cfg, keyed, []);
    } else {
      hide EncodeItems, Within, RoomItems, WidthsItems, WithinItems, WithinBlocks, Cut;
      var m := if |items| <= n then |items| else n;
      FrontRoom(items, m);
      assert items == items[..m] + items[m..];
      WithinConcat(cfg, keyed, items[..m], items[m..]);
      FirstCut(n, sizes, keyed, items, m);
      ItemsEncodedRoom(n, sizes, keyed, items[..m]);
      ItemsReblockWithin(cfg, n, sizes, keyed, items[..m]);
      CutWithin(cfg, n, sizes, keyed, items[m..]);
      WithinCons(cfg, keyed, BlockOf(n, sizes, keyed, items[..m]), Cut(n, sizes, keyed, ReblockItems(n, sizes, items[m..])));
    }
  }

  lemma WithinCons(cfg: Config, keyed: bool, block: Block, rest: seq<Block>)
    requires Int64(|block.items|) && Int64(|EncodeItems(keyed, block.items)|)
    requires WithinItems(cfg, keyed, block.items) && WithinBlocks(cfg, keyed, rest)
    ensures WithinBlocks(cfg, keyed, [block] + rest)
  {
    assert ([block] + rest)[1..] == rest;
  }

  // --- round trip ---

  /**
   * Whatever block length and header setting a datum is written with, reading delivers the
   * same value and consumes the encoding exactly; skipping stops at the same place.
   */
  lemma BlockingRoundTrip(cfg: Config, g: Graph, m: nat, h: nat, depth: nat, s: Schema, d: Datum, n: nat, sizes: bool,
                          suffix: Bytes)
    requires Sound(cfg, g, m, h) && Shape(g, s, d) && Within(cfg, d) && Height(d) + h <= depth
    requires n > 0 && Encodable(d)
    ensures Matches(Read(cfg, g, depth, s, Encode(Reblock(n, sizes, d)) + suffix), Denote(cfg, g, true, s, d), suffix)
    ensures Skip(cfg, g, depth, s, Encode(Reblock(n, sizes, d)) + suffix) == Ok((), suffix)
  {
    ReblockShape(g, s, n, sizes, d);
    ReblockHeight(n, sizes, d);
    ReblockWithin(cfg, n, sizes, d);
    ReblockDenotes(cfg, g, true, s, n, sizes, d);
    ReadDenotes(cfg, g, m, h, true, depth, s, Reblock(n, sizes, d), suffix);
    SkipExact(cfg, g, depth, s, Reblock(n, sizes, d), suffix);
  }

  // --- what a collection decodes to, item by item ---

  lemma {:induction false} ItemValues(cfg: Config, g: Graph, deep: bool, s: Schema, keyed: bool, items: seq<Item>, vs: seq<Value>)
    requires |vs| == |items| && forall k :: 0 <= k < |items| ==> Denote(cfg, g, deep, s, items[k].datum) == Some(vs[k])
    requires keyed ==> forall k :: 0 <= k < |items| ==> ValidUtf8(items[k].key)
    ensures DenoteItems(cfg, g, deep, s, keyed, items)
         == Some(Entries(keyed, items, vs))
    decreases |items|
  {
    hide Denote;
    if items != [] {
      ItemValues(cfg, g, deep, s, keyed, items[1..], vs[1..]);
      assert Entries(keyed, items, vs)
          == [Entry(if keyed then items[0].key else [], vs[0])] + Entries(keyed, items[1..], vs[1..]);
    }
  }

  function Entries(keyed: bool, items: seq<Item>, vs: seq<Value>): (r: seq<Entry>)
    requires |vs| == |items|
    ensures |r| == |items|
    ensures forall k :: 0 <= k < |items| ==> r[k] == Entry(if keyed then items[k].key else [], vs[k])
  {
    seq(|items|, k requires 0 <= k < |items| => Entry(if keyed then items[k].key else [], vs[k]))
  }

  /** An array decodes to the values of its items in order, however they are cut. */
  lemma ArrayValue(cfg: Config, g: Graph, deep: bool, s: Schema, blocks: seq<Block>, vs: seq<Value>)
    requires |vs| == |Items(blocks)|
    requires forall k :: 0 <= k < |vs| ==> Denote(cfg, g, deep, s, Items(blocks)[k].datum) == Some(vs[k])
    ensures Denote(cfg, g, deep, Array(s), DBlocks(false, blocks)) == Some(VArray(vs))
  {
    hide DenoteItems, DenoteBlocks, Items;
    BlocksDenoteItems(cfg, g, deep, s, false, blocks);
    ItemValues(cfg, g, deep, s, false, Items(blocks), vs);
    assert PairValues(Entries(false, Items(blocks), vs)) == vs;
  }

  lemma {:induction false} CollectDistinct(pairs: seq<Entry>, m: map<Text, Value>)
    requires forall i, j :: 0 <= i < j < |pairs| ==> pairs[i].key != pairs[j].key
    requires forall k :: 0 <= k < |pairs| ==> pairs[k].key in m && m[pairs[k].key] == pairs[k].value
    requires forall key | key in m :: exists k :: 0 <= k < |pairs| && pairs[k].key == key
    ensures Collect(pairs) == m
    decreases |pairs|
  {
    if pairs == [] {
      assert m == map[];
    } else {
      var last := pairs[|pairs| - 1];
      var front := pairs[..|pairs| - 1];
      var m' := map key | key in m && key != last.key :: m[key];
      forall key | key in m'
        ensures exists k :: 0 <= k < |front| && front[k].key == key
      {
        var k :| 0 <= k < |pairs| && pairs[k].key == key;
        assert front[k].key == key;
      }
      CollectDistinct(front, m');
      assert m == m'[last.key := last.value];
    }
  }

  /** The items carry exactly the map's keys, once each, and data of its values. */
  ghost predicate Carry(cfg: Config, g: Graph, deep: bool, s: Schema, items: seq<Item>, m: map<Text, Value>) {
    && (forall i, j :: 0 <= i < j < |items| ==> items[i].key != items[j].key)
    && (forall k :: 0 <= k < |items| ==> ValidUtf8(items[k].key) && items[k].key in m)
    && (forall k :: 0 <= k < |items| ==> Denote(cfg, g, deep, s, items[k].datum) == Some(m[items[k].key]))
    && (forall key | key in m :: exists k :: 0 <= k < |items| && items[k].key == key)
  }

  function ValuesOf(items: seq<Item>, m: map<Text, Value>): (vs: seq<Value>)
    requires forall k :: 0 <= k < |items| ==> items[k].key in m
    ensures |vs| == |items| && forall k :: 0 <= k < |items| ==> vs[k] == m[items[k].key]
  {
    seq(|items|, k requires 0 <= k < |items| => m[items[k].key])
  }

  lemma EntriesCollect(items: seq<Item>, m: map<Text, Value>)
    requires forall i, j :: 0 <= i < j < |items| ==> items[i].key != items[j].key
    requires forall k :: 0 <= k < |items| ==> items[k].key in m
    requires forall key | key in m :: exists k :: 0 <= k < |items| && items[k].key == key
    ensures Collect(Entries(true, items, ValuesOf(items, m))) == m
  {
    var pairs := Entries(true, items, ValuesOf(items, m));
    forall key | key in m
      ensures exists k :: 0 <= k < |pairs| && pairs[k].key == key
    {
      var k :| 0 <= k < |items| && items[k].key == key;
      assert pairs[k].key == key;
    }
    CollectDistinct(pairs, m);
  }

  /** A map decodes to exactly its keys and their values. */
  lemma MapValue(cfg: Config, g: Graph, deep: bool, s: Schema, blocks: seq<Block>, m: map<Text, Value>)
    requires Carry(cfg, g, deep, s, Items(blocks), m)
    ensures Denote(cfg, g, deep, Map(s), DBlocks(true, blocks)) == Some(VMap(m))
  {
    hide DenoteItems, DenoteBlocks, Collect, Entries;
    BlocksDenoteItems(cfg, g, deep, s, true, blocks);
    CarryCollects(cfg, g, deep, s, Items(blocks), m);
  }

  lemma CarryCollects(cfg: Config, g: Graph, deep: bool, s: Schema, items: seq<Item>, m: map<Text, Value>)
    requires Carry(cfg, g, deep, s, items, m)
    ensures DenoteItems(cfg, g, deep, s, true, items).Some?
    ensures Collect(DenoteItems(cfg, g, deep, s, true, items).value) == m
  {
    hide Denote, DenoteItems, Collect, Entries;
    ItemValues(cfg, g, deep, s, true, items, ValuesOf(items, m));
    EntriesCollect(items, m);
  }
}
