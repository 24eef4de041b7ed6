/** "Schema Resolution" of the Avro specification: what a writer's datum means to a reader. */
module Meanings {
  import opened Wire
  import opened Datums
  import opened Schemas
  import opened Values
  import opened Compatibility
  import opened Checking

  /** The first branch of a reader union that matches the writer. */
  function FirstMatch(g: Graph, types: seq<Schema>, w: Schema): (k: Option<nat>)
    requires DeclaredGraph(g) && Declared(w, |g|) && forall t | t in types :: Declared(t, |g|)
    ensures k.Some? ==> k.value < |types|
  {
    if types == [] then None
    else if Check(g, types[0], w) then Some(0)
    else
      match FirstMatch(g, types[1..], w)
      case None => None
      case Some(i) => Some(i + 1)
  }

  lemma {:induction false} FirstMatchIsFirst(g: Graph, types: seq<Schema>, w: Schema, i: nat)
    requires DeclaredGraph(g) && Declared(w, |g|) && forall t | t in types :: Declared(t, |g|)
    requires i < |types|
    ensures var k := FirstMatch(g, types, w);
            && (k == Some(i) ==> Check(g, types[i], w))
            && (k.None? || i < k.value ==> !Check(g, types[i], w))
    decreases |types|
  {
    hide Check, Declared, DeclaredGraph;
    if i > 0 {
      FirstMatchIsFirst(g, types[1..], w, i - 1);
    }
  }

  /**
   * The value the reader sees: branches of unions are chosen by the writer's index and then
   * by the first match, fields are paired by name or alias, and what the writer lacks comes
   * from defaults. Union tags are not part of the meaning.
   */
  function Meaning(cfg: Config, g: Graph, r: Schema, w: Schema, d: Datum): Option<Value>
    requires DeclaredGraph(g) && Declared(r, |g|) && Declared(w, |g|)
    decreases d, Size(r) + Size(w)
  {
    var reader, writer := Deref(r), Deref(w);
    if writer.Union? then
      if d.DUnion? && d.branch < |writer.types| then Meaning(cfg, g, reader, writer.types[d.branch], d.datum) else None
    else if reader.Union? then
      match FirstMatch(g, reader.types, writer)
      case None => None
      case Some(k) =>
        SizeOfBranch(reader.types, k);
        Meaning(cfg, g, reader.types[k], writer, d)
    else
      match (reader, writer)
      case (Null, Null) => Some(VNull)
      case (Primitive(kind, logical, _), Primitive(wkind, _, _)) =>
        if kind == wkind || Promotable(wkind, kind) then PrimitiveValue(cfg, kind, logical, d) else None
      case (Array(items), Array(witems)) =>
        if d.DBlocks? then
          match MeaningBlocks(cfg, g, items, witems, false, d.blocks)
          case Some(entries) => Some(Gather(false, entries))
          case None => None
        else None
      case (Map(values), Map(wvalues)) =>
        if d.DBlocks? then
          match MeaningBlocks(cfg, g, values, wvalues, true, d.blocks)
          case Some(entries) => Some(Gather(true, entries))
          case None => None
        else None
      case (Named(i), Named(j)) => MeaningDef(cfg, g, g[i], g[j], d)
      case _ => None
  }

  function MeaningDef(cfg: Config, g: Graph, r: Def, w: Def, d: Datum): Option<Value>
    requires DeclaredGraph(g) && DeclaredDef(r, |g|) && DeclaredDef(w, |g|)
    decreases d, 0
  {
    match (r, w, d)
    case (Fixed(_, size, logical), Fixed(_, _, _), DFixed(bytes)) =>
      if |bytes| == size then FixedValue(cfg, size, logical, bytes) else None
    case (Enum(_, symbols, def, _), Enum(_, wsymbols, _, _), DEnum(i)) =>
      if i >= |wsymbols| then None
      else if wsymbols[i] in symbols then Some(VEnum(wsymbols[i]))
      else if def.Some? then Some(VEnum(def.value))
      else None
    case (Record(_, rs), Record(_, ws), DRecord(ds)) =>
      (match MatchFields(Labels(rs), Labels(ws), {})
       case None => None
       case Some(matched) =>
         if |ds| != |ws| then None
         else
           MatchFieldsBounds(Labels(rs), Labels(ws), {});
           match MeaningFields(cfg, g, rs, ws, matched, ds)
           case Some(obj) => Some(VRecord(obj))
           case None => None)
    case _ => None
  }

  /** Every reader field: the matching writer field, or the reader's default. */
  function MeaningFields(cfg: Config, g: Graph, rs: seq<Field>, ws: seq<Field>, matched: seq<Option<nat>>,
                         ds: seq<Datum>): Option<map<Text, Value>>
    requires DeclaredGraph(g)
    requires forall f | f in rs :: Declared(f.typ, |g|)
    requires forall f | f in ws :: Declared(f.typ, |g|)
    requires |matched| == |rs| && Bounded(matched, |ws|) && |ds| == |ws|
    decreases ds, |rs|
  {
    if rs == [] then Some(map[])
    else
      match FieldMeaning(cfg, g, rs[0], ws, matched[0], ds)
      case None => None
      case Some(v) =>
        match MeaningFields(cfg, g, rs[1..], ws, matched[1..], ds)
        case None => None
        case Some(obj) => Some(obj[rs[0].name := v])
  }

  function FieldMeaning(cfg: Config, g: Graph, f: Field, ws: seq<Field>, m: Option<nat>, ds: seq<Datum>): Option<Value>
    requires DeclaredGraph(g) && Declared(f.typ, |g|)
    requires forall f | f in ws :: Declared(f.typ, |g|)
    requires |ds| == |ws| && (m.Some? ==> m.value < |ws|)
    decreases ds, 0
  {
    match m
    case Some(k) => Meaning(cfg, g, f.typ, ws[k].typ, ds[k])
    case None => DefaultMeaning(cfg, g, f)
  }

  function DefaultMeaning(cfg: Config, g: Graph, f: Field): Option<Value> {
    if f.def.None? then None
    else
      match Denote(cfg, g, false, f.typ, f.def.value)
      case Some(v) => Some(Erase(v))
      case None => None
  }

  function MeaningItems(cfg: Config, g: Graph, r: Schema, w: Schema, keyed: bool, items: seq<Item>): Option<seq<Entry>>
    requires DeclaredGraph(g) && Declared(r, |g|) && Declared(w, |g|)
    decreases items, 0
  {
    if items == [] then Some([])
    else
      match Meaning(cfg, g, r, w, items[0].datum)
      case None => None
      case Some(v) =>
        match MeaningItems(cfg, g, r, w, keyed, items[1..])
        case None => None
        case Some(entries) => Some([Entry(if keyed then items[0].key else [], v)] + entries)
  }

  function MeaningBlocks(cfg: Config, g: Graph, r: Schema, w: Schema, keyed: bool, blocks: seq<Block>): Option<seq<Entry>>
    requires DeclaredGraph(g) && Declared(r, |g|) && Declared(w, |g|)
    decreases blocks, 0
  {
    if blocks == [] then Some([])
    else
      match MeaningItems(cfg, g, r, w, keyed, blocks[0].items)
      case None => None
      case Some(first) =>
        match MeaningBlocks(cfg, g, r, w, keyed, blocks[1..])
        case None => None
        case Some(rest) => Some(first + rest)
  }
}
