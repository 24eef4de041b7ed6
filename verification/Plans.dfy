/** What makes a schema a decode plan for a reader and a writer, and why plans keep the meaning. */
module Plans {
  import opened Wire
  import opened Datums
  import opened Schemas
  import opened Values
  import opened Compatibility
  import opened Meanings

  /** The plan record of each pair of reader and writer records. */
  type Records = map<(nat, nat), nat>

  // --- plans ---

  /**
   * `s`, a schema over the plan graph `h`, decodes data of `w` for the reader `r`. The first
   * |g| nodes of `h` are the declared graph `g`.
   */
  ghost predicate Plan(g: Graph, recs: Records, h: Graph, r: Schema, w: Schema, s: Schema)
    requires DeclaredGraph(g) && Declared(r, |g|) && Declared(w, |g|)
    decreases Size(r) + Size(w)
  {
    var reader, writer := Deref(r), Deref(w);
    if TypeOf(g, reader) != TypeOf(g, writer) then
      if reader.Union? then
        var k := FirstMatch(g, reader.types, writer);
        k.Some? && BranchPlan(g, recs, h, reader, k.value, writer, s)
      else if writer.Union? then UnionPlan(g, recs, h, reader, [reader], writer, s)
      else
        && reader.Primitive? && writer.Primitive? && Promotable(writer.kind, reader.kind)
        && s == Primitive(reader.kind, reader.logical, Some(writer.kind))
    else
      match (reader, writer)
      case (Array(items), Array(witems)) => s.Array? && Plan(g, recs, h, items, witems, s.items)
      case (Map(values), Map(wvalues)) => s.Map? && Plan(g, recs, h, values, wvalues, s.values)
      case (Union(types, _), Union(_, _)) => UnionPlan(g, recs, h, reader, types, writer, s)
      case (Named(i), Named(j)) => DefPlan(g, recs, h, i, j, s)
      case _ => s == reader
  }

  ghost predicate BranchPlan(g: Graph, recs: Records, h: Graph, r: Schema, k: nat, w: Schema, s: Schema)
    requires DeclaredGraph(g) && Declared(r, |g|) && Declared(w, |g|) && r.Union? && k < |r.types|
    decreases Size(r) + Size(w), 0
  {
    SizeOfBranch(r.types, k);
    Plan(g, recs, h, r.types[k], w, s)
  }

  /** One plan per writer branch; the declared types describe the reader. */
  ghost predicate UnionPlan(g: Graph, recs: Records, h: Graph, r: Schema, types: seq<Schema>, w: Schema, s: Schema)
    requires DeclaredGraph(g) && Declared(r, |g|) && Declared(w, |g|) && w.Union?
    decreases Size(r) + Size(w), 0
  {
    && s.Union? && s.types == types && |s.plans| == |w.types|
    && forall k :: 0 <= k < |w.types| ==>
         (SizeOfBranch(w.types, k); Plan(g, recs, h, r, w.types[k], s.plans[k]))
  }

  ghost predicate DefPlan(g: Graph, recs: Records, h: Graph, i: nat, j: nat, s: Schema)
    requires i < |g| && j < |g|
  {
    match (g[i], g[j])
    case (Fixed(_, size, _), Fixed(_, wsize, _)) => s == Named(i) && size == wsize
    case (Enum(name, symbols, def, _), Enum(_, wsymbols, _, _)) =>
      if symbols == wsymbols then s == Named(i)
      else
        && (SymbolsCovered(g[i], g[j]) || def.Some?)
        && s.Named? && s.id < |h| && h[s.id] == Enum(name, symbols, def, wsymbols)
    case (Record(_, _), Record(_, _)) =>
      (i, j) in recs && (s == Named(recs[(i, j)]) || s == Ref(recs[(i, j)]))
    case _ => false
  }

  /** The reader field matched to writer field `k`. */
  function ReaderOf(matched: seq<Option<nat>>, k: nat): (j: Option<nat>)
    ensures j.Some? ==> j.value < |matched| && matched[j.value] == Some(k)
    ensures j.None? ==> forall i :: 0 <= i < |matched| ==> matched[i] != Some(k)
  {
    if matched == [] then None
    else if matched[0] == Some(k) then Some(0)
    else
      match ReaderOf(matched[1..], k)
      case None => None
      case Some(i) => Some(i + 1)
  }

  function IgnoredField(w: Field): Field {
    Field(w.name, [], w.typ, w.def, Ignore)
  }

  function DefaultField(r: Field): Field {
    Field(r.name, r.aliases, r.typ, r.def, SetDefault)
  }

  /** Reader fields that no writer field feeds, in order. */
  function DefaultFields(rs: seq<Field>, matched: seq<Option<nat>>): seq<Field>
    requires |matched| == |rs|
  {
    if rs == [] then []
    else (if matched[0].None? then [DefaultField(rs[0])] else []) + DefaultFields(rs[1..], matched[1..])
  }

  /** The plan of writer field `k`: feed its reader field, or be skipped. */
  ghost predicate WriterFieldPlan(g: Graph, recs: Records, h: Graph, rs: seq<Field>, ws: seq<Field>,
                                  matched: seq<Option<nat>>, k: nat, f: Field)
    requires DeclaredGraph(g) && |matched| == |rs| && k < |ws|
    requires forall f | f in rs :: Declared(f.typ, |g|)
    requires forall f | f in ws :: Declared(f.typ, |g|)
  {
    match ReaderOf(matched, k)
    case None => f == IgnoredField(ws[k])
    case Some(j) =>
      && f.name == rs[j].name && f.aliases == rs[j].aliases && f.def == rs[j].def && f.action.Keep?
      && Plan(g, recs, h, rs[j].typ, ws[k].typ, f.typ)
  }

  ghost predicate FieldsPlan(g: Graph, recs: Records, h: Graph, rs: seq<Field>, ws: seq<Field>, fields: seq<Field>)
    requires DeclaredGraph(g)
    requires forall f | f in rs :: Declared(f.typ, |g|)
    requires forall f | f in ws :: Declared(f.typ, |g|)
  {
    var m := MatchFields(Labels(rs), Labels(ws), {});
    && m.Some?
    && |fields| == |ws| + |DefaultFields(rs, m.value)|
    && (forall k :: 0 <= k < |ws| ==> WriterFieldPlan(g, recs, h, rs, ws, m.value, k, fields[k]))
    && fields[|ws|..] == DefaultFields(rs, m.value)
    && forall j :: 0 <= j < |rs| && m.value[j].None? ==> rs[j].def.Some?
  }

  /** The plan record of a pair of records is filled in. */
  ghost predicate RecordPlan(g: Graph, recs: Records, h: Graph, i: nat, j: nat, id: nat)
    requires DeclaredGraph(g) && i < |g| && j < |g| && g[i].Record? && g[j].Record?
  {
    && |g| <= id < |h| && h[id].Record? && h[id].name == g[i].name
    && FieldsPlan(g, recs, h, g[i].fields, g[j].fields, h[id].fields)
  }

  ghost predicate Embeds(g: Graph, h: Graph) {
    |g| <= |h| && h[..|g|] == g
  }

  /** Every record from `n` on belongs to some pair. */
  ghost predicate Covered(recs: Records, h: Graph, n: nat) {
    forall id: nat | n <= id < |h| && h[id].Record? :: exists i: nat, j: nat :: (i, j) in recs && recs[(i, j)] == id
  }

  /** Every record pair met has its plan record filled in, and there are no other plan records. */
  ghost predicate Complete(g: Graph, recs: Records, h: Graph)
    requires DeclaredGraph(g)
  {
    && Embeds(g, h)
    && (forall i: nat, j: nat | (i, j) in recs ::
          i < |g| && j < |g| && g[i].Record? && g[j].Record? && RecordPlan(g, recs, h, i, j, recs[(i, j)]))
    && Covered(recs, h, |g|)
  }

  // --- declared schemas denote the same in the larger graph ---

  lemma {:induction false} ShapeKept(g: Graph, h: Graph, s: Schema, d: Datum)
    requires DeclaredGraph(g) && Embeds(g, h) && Declared(s, |g|)
    ensures Shape(h, s, d) <==> Shape(g, s, d)
    decreases d
  {
    match s
    case Array(items) => if d.DBlocks? { ShapeBlocksKept(g, h, items, false, d.blocks); }
    case Map(values) => if d.DBlocks? { ShapeBlocksKept(g, h, values, true, d.blocks); }
    case Union(types, _) =>
      if d.DUnion? && d.branch < |types| { ShapeKept(g, h, types[d.branch], d.datum); }
    case Named(id) => ShapeDefKept(g, h, id, d);
    case Ref(id) => ShapeDefKept(g, h, id, d);
    case _ =>
  }

  lemma {:induction false} ShapeDefKept(g: Graph, h: Graph, id: nat, d: Datum)
    requires DeclaredGraph(g) && Embeds(g, h) && id < |g|
    ensures h[id] == g[id]
    ensures ShapeDef(h, h[id], d) <==> ShapeDef(g, g[id], d)
    decreases d, 0
  {
    assert h[..|g|][id] == h[id];
    if g[id].Record? && d.DRecord? {
      ShapeFieldsKept(g, h, g[id].fields, d.fields);
    }
  }

  lemma {:induction false} ShapeFieldsKept(g: Graph, h: Graph, fields: seq<Field>, ds: seq<Datum>)
    requires DeclaredGraph(g) && Embeds(g, h) && forall f | f in fields :: Declared(f.typ, |g|)
    ensures ShapeFields(h, fields, ds) <==> ShapeFields(g, fields, ds)
    decreases ds, |fields|
  {
    if fields != [] {
      if fields[0].action.SetDefault? {
        ShapeFieldsKept(g, h, fields[1..], ds);
      } else if ds != [] {
        ShapeKept(g, h, fields[0].typ, ds[0]);
        ShapeFieldsKept(g, h, fields[1..], ds[1..]);
      }
    }
  }

  lemma {:induction false} ShapeItemsKept(g: Graph, h: Graph, s: Schema, keyed: bool, items: seq<Item>)
    requires DeclaredGraph(g) && Embeds(g, h) && Declared(s, |g|)
    ensures ShapeItems(h, s, keyed, items) <==> ShapeItems(g, s, keyed, items)
    decreases items
  {
    if items != [] {
      ShapeKept(g, h, s, items[0].datum);
      ShapeItemsKept(g, h, s, keyed, items[1..]);
    }
  }

  lemma {:induction false} ShapeBlocksKept(g: Graph, h: Graph, s: Schema, keyed: bool, blocks: seq<Block>)
    requires DeclaredGraph(g) && Embeds(g, h) && Declared(s, |g|)
    ensures ShapeBlocks(h, s, keyed, blocks) <==> ShapeBlocks(g, s, keyed, blocks)
    decreases blocks
  {
    if blocks != [] {
      ShapeItemsKept(g, h, s, keyed, blocks[0].items);
      ShapeBlocksKept(g, h, s, keyed, blocks[1..]);
    }
  }

  lemma {:induction false} DenoteKept(cfg: Config, g: Graph, h: Graph, s: Schema, d: Datum)
    requires DeclaredGraph(g) && Embeds(g, h) && Declared(s, |g|)
    ensures Denote(cfg, h, false, s, d) == Denote(cfg, g, false, s, d)
    decreases d
  {
    match s
    case Array(items) => if d.DBlocks? { DenoteBlocksKept(cfg, g, h, items, false, d.blocks); }
    case Map(values) => if d.DBlocks? { DenoteBlocksKept(cfg, g, h, values, true, d.blocks); }
    case Union(types, _) =>
      if d.DUnion? && d.branch < |types| {
        DenoteKept(cfg, g, h, types[d.branch], d.datum);
        TagKept(g, h, types[d.branch]);
      }
    case Named(id) => DenoteDefKept(cfg, g, h, id, d);
    case Ref(id) => DenoteDefKept(cfg, g, h, id, d);
    case _ =>
  }

  lemma TagKept(g: Graph, h: Graph, s: Schema)
    requires Embeds(g, h) && Declared(s, |g|)
    ensures TagOf(h, s) == TagOf(g, s)
  {
    if s.Named? || s.Ref? {
      assert h[..|g|][s.id] == h[s.id];
    }
  }

  lemma {:induction false} DenoteDefKept(cfg: Config, g: Graph, h: Graph, id: nat, d: Datum)
    requires DeclaredGraph(g) && Embeds(g, h) && id < |g|
    ensures h[id] == g[id]
    ensures DenoteDef(cfg, h, false, h[id], d) == DenoteDef(cfg, g, false, g[id], d)
    decreases d, 0
  {
    assert h[..|g|][id] == h[id];
    if g[id].Record? && d.DRecord? {
      DenoteFieldsKept(cfg, g, h, g[id].fields, d.fields, map[]);
    }
  }

  lemma {:induction false} DenoteFieldsKept(cfg: Config, g: Graph, h: Graph, fields: seq<Field>, ds: seq<Datum>, obj: map<Text, Value>)
    requires DeclaredGraph(g) && Embeds(g, h)
    requires forall f | f in fields :: f.action.Keep? && Declared(f.typ, |g|)
    ensures DenoteFields(cfg, h, false, fields, ds, obj) == DenoteFields(cfg, g, false, fields, ds, obj)
    decreases ds, |fields|
  {
    if fields != [] && ds != [] {
      DenoteKept(cfg, g, h, fields[0].typ, ds[0]);
      var v := Denote(cfg, g, false, fields[0].typ, ds[0]);
      if v.Some? {
        DenoteFieldsKept(cfg, g, h, fields[1..], ds[1..], obj[fields[0].name := v.value]);
      }
    }
  }

  lemma {:induction false} DenoteItemsKept(cfg: Config, g: Graph, h: Graph, s: Schema, keyed: bool, items: seq<Item>)
    requires DeclaredGraph(g) && Embeds(g, h) && Declared(s, |g|)
    ensures DenoteItems(cfg, h, false, s, keyed, items) == DenoteItems(cfg, g, false, s, keyed, items)
    decreases items
  {
    if items != [] {
      DenoteKept(cfg, g, h, s, items[0].datum);
      DenoteItemsKept(cfg, g, h, s, keyed, items[1..]);
    }
  }

  lemma {:induction false} DenoteBlocksKept(cfg: Config, g: Graph, h: Graph, s: Schema, keyed: bool, blocks: seq<Block>)
    requires DeclaredGraph(g) && Embeds(g, h) && Declared(s, |g|)
    ensures DenoteBlocks(cfg, h, false, s, keyed, blocks) == DenoteBlocks(cfg, g, false, s, keyed, blocks)
    decreases blocks
  {
    if blocks != [] {
      DenoteItemsKept(cfg, g, h, s, keyed, blocks[0].items);
      DenoteBlocksKept(cfg, g, h, s, keyed, blocks[1..]);
    }
  }
}
