/** Compiled skip decoders: built once per record, deferred through cycles, run on the reader. */
module SkipDecoders {
  import opened Wire
  import opened Schemas
  import opened Values
  import opened Skipping
  import opened BufferedReader
  import opened Finite

  datatype Decoder =
    | NullSkip
    | BoolSkip
    | IntSkip
    | LongSkip
    | FloatSkip
    | DoubleSkip
    | BytesSkip
    | EnumSkip(symbols: seq<Text>)
    | FixedSkip(size: nat)
    | SliceSkip(item: Decoder)
    | MapSkip(value: Decoder)
    | UnionSkip(types: seq<Schema>)
    | Deferred(slot: nat)
    | Unsupported

  /** The decoders of each record met; empty until they are all there. */
  type Slots = seq<Option<seq<Decoder>>>

  // --- what it means to be compiled ---

  /** `d` skips data of `s`, records by the slots of `recs`. */
  ghost predicate Compiled(g: Graph, recs: map<nat, nat>, s: Schema, d: Decoder) {
    match s
    case Null => d.NullSkip?
    case Primitive(_, _, _) => d == PrimitiveDecoder(WireKind(s))
    case Array(items) => d.SliceSkip? && Compiled(g, recs, items, d.item)
    case Map(values) => d.MapSkip? && Compiled(g, recs, values, d.value)
    case Union(_, _) => d == UnionSkip(DecodeTypes(s))
    case Named(id) => CompiledDef(g, recs, id, d)
    case Ref(id) => CompiledDef(g, recs, id, d)
  }

  ghost predicate CompiledDef(g: Graph, recs: map<nat, nat>, id: nat, d: Decoder) {
    if id >= |g| then d.Unsupported?
    else
      match g[id]
      case Record(_, _) => id in recs && d == Deferred(recs[id])
      case Enum(_, _, _, _) => d == EnumSkip(WireSymbols(g[id]))
      case Fixed(_, size, _) => d == FixedSkip(size)
  }

  function PrimitiveDecoder(kind: Kind): Decoder {
    match kind
    case Boolean => BoolSkip
    case Int => IntSkip
    case Long => LongSkip
    case Float => FloatSkip
    case Double => DoubleSkip
    case BytesKind => BytesSkip
    case StringKind => BytesSkip
  }

  /** Reader-only defaults have no decoder. */
  ghost predicate CompiledFields(g: Graph, recs: map<nat, nat>, fields: seq<Field>, ds: seq<Decoder>)
    decreases |fields|
  {
    if fields == [] then ds == []
    else if fields[0].action.SetDefault? then CompiledFields(g, recs, fields[1..], ds)
    else ds != [] && Compiled(g, recs, fields[0].typ, ds[0]) && CompiledFields(g, recs, fields[1..], ds[1..])
  }

  ghost predicate SlotFilled(g: Graph, recs: map<nat, nat>, slots: Slots, id: nat)
    requires id in recs
  {
    && id < |g| && g[id].Record? && recs[id] < |slots|
    && slots[recs[id]].Some? && CompiledFields(g, recs, g[id].fields, slots[recs[id]].value)
  }

  /** Every record met has its decoders. */
  ghost predicate AllFilled(g: Graph, recs: map<nat, nat>, slots: Slots) {
    forall id | id in recs :: SlotFilled(g, recs, slots, id)
  }

  // --- compiling ---

  ghost predicate MoreRecords(recs: map<nat, nat>, recs': map<nat, nat>) {
    forall id | id in recs :: id in recs' && recs'[id] == recs[id]
  }

  lemma {:induction false} CompiledGrows(g: Graph, recs: map<nat, nat>, recs': map<nat, nat>, s: Schema, d: Decoder)
    requires MoreRecords(recs, recs') && Compiled(g, recs, s, d)
    ensures Compiled(g, recs', s, d)
  {
    match s
    case Array(items) => CompiledGrows(g, recs, recs', items, d.item);
    case Map(values) => CompiledGrows(g, recs, recs', values, d.value);
    case _ =>
  }

  lemma {:induction false} CompiledFieldsGrow(g: Graph, recs: map<nat, nat>, recs': map<nat, nat>, fields: seq<Field>, ds: seq<Decoder>)
    requires MoreRecords(recs, recs') && CompiledFields(g, recs, fields, ds)
    ensures CompiledFields(g, recs', fields, ds)
    decreases |fields|
  {
    if fields != [] {
      if fields[0].action.SetDefault? {
        CompiledFieldsGrow(g, recs, recs', fields[1..], ds);
      } else {
        CompiledGrows(g, recs, recs', fields[0].typ, ds[0]);
        CompiledFieldsGrow(g, recs, recs', fields[1..], ds[1..]);
      }
    }
  }

  lemma {:induction false} CompiledFieldsAppend(g: Graph, recs: map<nat, nat>, front: seq<Field>, ds: seq<Decoder>, f: Field, d: Decoder)
    requires CompiledFields(g, recs, front, ds) && !f.action.SetDefault? && Compiled(g, recs, f.typ, d)
    ensures CompiledFields(g, recs, front + [f], ds + [d])
    decreases |front|
  {
    if front != [] {
      assert (front + [f])[1..] == front[1..] + [f];
      if front[0].action.SetDefault? {
        CompiledFieldsAppend(g, recs, front[1..], ds, f, d);
      } else {
        assert (ds + [d])[1..] == ds[1..] + [d];
        CompiledFieldsAppend(g, recs, front[1..], ds[1..], f, d);
      }
    }
  }

  lemma {:induction false} CompiledFieldsSkip(g: Graph, recs: map<nat, nat>, front: seq<Field>, ds: seq<Decoder>, f: Field)
    requires CompiledFields(g, recs, front, ds) && f.action.SetDefault?
    ensures CompiledFields(g, recs, front + [f], ds)
    decreases |front|
  {
    if front != [] {
      assert (front + [f])[1..] == front[1..] + [f];
      CompiledFieldsSkip(g, recs, front[1..], if front[0].action.SetDefault? then ds else ds[1..], f);
    }
  }

  /** Slots are assigned once each; only pending ones are empty. */
  ghost predicate Building(g: Graph, recs: map<nat, nat>, slots: Slots, pending: set<nat>) {
    && pending <= recs.Keys
    && (forall id | id in recs :: id < |g| && g[id].Record? && recs[id] < |slots|)
    && (forall a, b | a in recs && b in recs && recs[a] == recs[b] :: a == b)
    && forall id | id in recs && id !in pending :: SlotFilled(g, recs, slots, id)
  }

  lemma BuildingGrows(g: Graph, recs: map<nat, nat>, slots: Slots, pending: set<nat>, id: nat)
    requires Building(g, recs, slots, pending) && id < |g| && g[id].Record? && id !in recs
    ensures Building(g, recs[id := |slots|], slots + [None], pending + {id})
    ensures MoreRecords(recs, recs[id := |slots|])
  {
    var recs' := recs[id := |slots|];
    forall i | i in recs' && i !in pending + {id}
      ensures SlotFilled(g, recs', slots + [None], i)
    {
      assert SlotFilled(g, recs, slots, i);
      CompiledFieldsGrow(g, recs, recs', g[i].fields, slots[recs[i]].value);
    }
  }

  lemma BuildingFills(g: Graph, recs: map<nat, nat>, slots: Slots, pending: set<nat>, id: nat, ds: seq<Decoder>)
    requires Building(g, recs, slots, pending + {id}) && id < |g| && g[id].Record?
    requires CompiledFields(g, recs, g[id].fields, ds)
    ensures id in recs && recs[id] < |slots|
    ensures Building(g, recs, slots[recs[id] := Some(ds)], pending)
  {
    assert id in recs;
    var slots' := slots[recs[id] := Some(ds)];
    forall i | i in recs && i !in pending
      ensures SlotFilled(g, recs, slots', i)
    {
      if i != id {
        assert SlotFilled(g, recs, slots, i);
      }
    }
  }

  /** The ids not yet compiled. */
  function Unmet(g: Graph, recs: map<nat, nat>): nat {
    Left(|g|, recs.Keys)
  }

  /** The records compiled so far; a fresh one is made for each decoder asked for. */
  class SkipContext {
    const g: Graph
    var records: map<nat, nat>
    var slots: Slots

    constructor (g: Graph)
      ensures this.g == g && records == map[] && slots == []
    {
      this.g, records, slots := g, map[], [];
    }

    /** The decoder of a schema; it terminates on cyclic graphs because records are met once. */
    method Create(s: Schema, ghost pending: set<nat>) returns (d: Decoder)
      requires Building(g, records, slots, pending)
      modifies this
      ensures Building(g, records, slots, pending) && MoreRecords(old(records), records)
      ensures Compiled(g, records, s, d)
      decreases Unmet(g, records), 1, s
    {
      match s
      case Null => d := NullSkip;
      case Primitive(_, _, _) => d := PrimitiveDecoder(WireKind(s));
      case Array(items) =>
        d := Create(items, pending);
        d := SliceSkip(d);
      case Map(values) =>
        d := Create(values, pending);
        d := MapSkip(d);
      case Union(_, _) => d := UnionSkip(DecodeTypes(s));
      case Named(id) => d := CreateDef(id, pending);
      case Ref(id) => d := CreateDef(id, pending);
    }

    method CreateDef(id: nat, ghost pending: set<nat>) returns (d: Decoder)
      requires Building(g, records, slots, pending)
      modifies this
      ensures Building(g, records, slots, pending) && MoreRecords(old(records), records)
      ensures CompiledDef(g, records, id, d)
      decreases Unmet(g, records), 0
    {
      if id >= |g| {
        return Unsupported;
      }
      match g[id]
      case Record(_, _) => d := CreateRecord(id, pending);
      case Enum(_, _, _, _) => d := EnumSkip(WireSymbols(g[id]));
      case Fixed(_, size, _) => d := FixedSkip(size);
    }

    /** The slot is deferred first, so that a field leading back here finds it. */
    method CreateRecord(id: nat, ghost pending: set<nat>) returns (d: Decoder)
      requires Building(g, records, slots, pending) && id < |g| && g[id].Record?
      modifies this
      ensures Building(g, records, slots, pending) && MoreRecords(old(records), records)
      ensures id in records && d == Deferred(records[id])
      decreases Unmet(g, records), 0, 0
    {
      if id in records {
        return Deferred(records[id]);
      }
      BuildingGrows(g, records, slots, pending, id);
      var slot := |slots|;
      records, slots := records[id := slot], slots + [None];
      LeftShrinks(|g|, old(records).Keys, records.Keys);
      var decoders := CreateFields(g[id].fields, pending + {id});
      BuildingFills(g, records, slots, pending, id, decoders);
      slots := slots[slot := Some(decoders)];
      d := Deferred(slot);
    }

    method CreateFields(fields: seq<Field>, ghost pending: set<nat>) returns (ds: seq<Decoder>)
      requires Building(g, records, slots, pending)
      modifies this
      ensures Building(g, records, slots, pending) && MoreRecords(old(records), records)
      ensures CompiledFields(g, records, fields, ds)
      decreases Unmet(g, records), 2
    {
      hide Building, Compiled;
      ds := [];
      for i := 0 to |fields|
        invariant Building(g, records, slots, pending) && MoreRecords(old(records), records)
        invariant CompiledFields(g, records, fields[..i], ds)
      {
        assert fields[..i + 1] == fields[..i] + [fields[i]];
        if fields[i].action.SetDefault? {
          CompiledFieldsSkip(g, records, fields[..i], ds, fields[i]);
        } else {
          ghost var recs := records;
          LeftShrinks(|g|, old(records).Keys, records.Keys);
          var d := Create(fields[i].typ, pending);
          CompiledFieldsGrow(g, recs, records, fields[..i], ds);
          CompiledFieldsAppend(g, records, fields[..i], ds, fields[i], d);
          ds := ds + [d];
        }
      }
      assert fields[..|fields|] == fields;
    }
  }

  /** Builds the decoder of a schema in a context of its own. */
  method CreateSkipDecoder(g: Graph, s: Schema) returns (d: Decoder, slots: Slots, ghost recs: map<nat, nat>)
    ensures Compiled(g, recs, s, d) && AllFilled(g, recs, slots)
  {
    var c := new SkipContext(g);
    d := c.Create(s, {});
    slots, recs := c.slots, c.records;
  }

  // --- running ---

  /** The reader moved as a pure skip of the remaining bytes would. */
  ghost predicate Moved(r: Reader, o: Outcome<()>)
    reads r, r.buf
  {
    && r.Valid()
    && match o
       case Ok(_, rest) => r.error.None? && r.Remaining() == rest
       case Fail(_) => r.error.Some?
  }

  method RunPrimitive(r: Reader, kind: Kind)
    requires r.Valid()
    modifies r, r.buf
    ensures r.Valid() && (old(r.error).Some? ==> r.error.Some?)
    ensures old(r.error).None? ==> Moved(r, SkipPrimitive(kind, old(r.Remaining())))
  {
    match kind
    case Boolean => var _ := r.ReadBool();
    case Int => r.SkipVarint(INT_SIZE, INT_LAST);
    case Long => r.SkipVarint(LONG_SIZE, LONG_LAST);
    case Float => r.SkipNBytes(4);
    case Double => r.SkipNBytes(8);
    case BytesKind => r.SkipBytes();
    case StringKind => r.SkipBytes();
  }

  /** Runs a compiled decoder: the reader ends where skipping the schema would. */
  method Run(r: Reader, g: Graph, ghost recs: map<nat, nat>, slots: Slots, depth: nat, ghost s: Schema, d: Decoder)
    requires r.Valid() && AllFilled(g, recs, slots) && Compiled(g, recs, s, d)
    modifies r, r.buf
    ensures r.Valid() && (old(r.error).Some? ==> r.error.Some?)
    ensures old(r.error).None? ==> Moved(r, Skip(r.cfg, g, depth, s, old(r.Remaining())))
    decreases depth, 2, s, 1, 0
  {
    match d
    case NullSkip =>
    case BoolSkip => RunPrimitive(r, Boolean);
    case IntSkip => RunPrimitive(r, Int);
    case LongSkip => RunPrimitive(r, Long);
    case FloatSkip => RunPrimitive(r, Float);
    case DoubleSkip => RunPrimitive(r, Double);
    case BytesSkip => RunPrimitive(r, BytesKind);
    case EnumSkip(symbols) => RunEnum(r, symbols, g, depth, s.id);
    case FixedSkip(size) =>
      RunFixed(r, size, g, depth, s.id);
    case SliceSkip(item) => RunBlocks(r, g, recs, slots, depth, s.items, false, item);
    case MapSkip(value) => RunBlocks(r, g, recs, slots, depth, s.values, true, value);
    case UnionSkip(types) => RunUnion(r, g, depth, s, types);
    case Deferred(slot) => RunRecord(r, g, recs, slots, depth, s.id, slot);
    case Unsupported => r.ReportError(Invalid);
  }

  method RunEnum(r: Reader, symbols: seq<Text>, ghost g: Graph, ghost depth: nat, ghost id: nat)
    requires r.Valid() && id < |g| && g[id].Enum? && WireSymbols(g[id]) == symbols
    modifies r, r.buf
    ensures r.Valid() && (old(r.error).Some? ==> r.error.Some?)
    ensures old(r.error).None? ==> Moved(r, SkipDef(r.cfg, g, depth, g[id], old(r.Remaining())))
  {
    hide Wire.ReadInt;
    var i := r.ReadInt();
    if r.error.Some? {
      return;
    }
    if i < 0 || i >= |symbols| {
      r.ReportError(Invalid);
    }
  }

  method RunFixed(r: Reader, size: nat, ghost g: Graph, ghost depth: nat, ghost id: nat)
    requires r.Valid() && id < |g| && g[id].Fixed? && g[id].size == size
    modifies r, r.buf
    ensures r.Valid() && (old(r.error).Some? ==> r.error.Some?)
    ensures old(r.error).None? ==>
              Moved(r, SkipDef(r.cfg, g, depth, g[id], old(r.Remaining())))
  {
    if !FitsBytes(r.cfg, size) {
      r.ReportError(Limit);
      return;
    }
    r.SkipNBytes(size);
  }

  /** The branch's decoder is only made once its index is known. */
  method RunUnion(r: Reader, g: Graph, depth: nat, ghost s: Schema, types: seq<Schema>)
    requires r.Valid() && s.Union? && types == DecodeTypes(s)
    modifies r, r.buf
    ensures r.Valid() && (old(r.error).Some? ==> r.error.Some?)
    ensures old(r.error).None? ==> Moved(r, Skip(r.cfg, g, depth, s, old(r.Remaining())))
    decreases depth, 2, s, 0, 0
  {
    hide Wire.ReadLong;
    var i := r.ReadLong();
    if r.error.Some? {
      return;
    }
    if i < 0 || i >= |types| {
      r.ReportError(Invalid);
      return;
    }
    if types[i].Null? {
      return;
    }
    var d, slots, recs := CreateSkipDecoder(g, types[i]);
    Run(r, g, recs, slots, depth, types[i], d);
  }

  method RunRecord(r: Reader, g: Graph, ghost recs: map<nat, nat>, slots: Slots, depth: nat, ghost id: nat, slot: nat)
    requires r.Valid() && AllFilled(g, recs, slots) && id in recs && slot == recs[id]
    modifies r, r.buf
    ensures r.Valid() && (old(r.error).Some? ==> r.error.Some?)
    ensures id < |g| && (old(r.error).None? ==> Moved(r, SkipDef(r.cfg, g, depth, g[id], old(r.Remaining()))))
    decreases depth, 1
  {
    assert SlotFilled(g, recs, slots, id);
    if depth == 0 {
      r.ReportError(Depth);
      return;
    }
    RunFields(r, g, recs, slots, depth - 1, g[id].fields, slots[slot].value);
  }

  method RunFields(r: Reader, g: Graph, ghost recs: map<nat, nat>, slots: Slots, depth: nat, ghost fields: seq<Field>, ds: seq<Decoder>)
    requires r.Valid() && AllFilled(g, recs, slots) && CompiledFields(g, recs, fields, ds)
    modifies r, r.buf
    ensures r.Valid() && (old(r.error).Some? ==> r.error.Some?)
    ensures old(r.error).None? ==> Moved(r, SkipFields(r.cfg, g, depth, fields, old(r.Remaining())))
    decreases depth, 3
  {
    hide Skip, Compiled;
    ghost var left, o := fields, SkipFields(r.cfg, g, depth, fields, r.Remaining());
    for i := 0 to |ds|
      invariant r.Valid() && (old(r.error).Some? ==> r.error.Some?)
      invariant CompiledFields(g, recs, left, ds[i..])
      invariant old(r.error).None? ==>
                  if r.error.None? then o == SkipFields(r.cfg, g, depth, left, r.Remaining()) else o.Fail?
    {
      ghost var f, rest := NextField(r.cfg, g, recs, depth, left, ds[i..], r.Remaining());
      assert ds[i..][0] == ds[i] && ds[i..][1..] == ds[i + 1..];
      Run(r, g, recs, slots, depth, f.typ, ds[i]);
      left := rest;
    }
    NoFieldLeft(r.cfg, g, recs, depth, left, r.Remaining());
  }

  /** The first field with a decoder; the defaults before it occupy no bytes. */
  lemma {:induction false} NextField(cfg: Config, g: Graph, recs: map<nat, nat>, depth: nat, fields: seq<Field>, ds: seq<Decoder>, b: Bytes)
    returns (f: Field, rest: seq<Field>)
    requires CompiledFields(g, recs, fields, ds) && ds != []
    ensures Compiled(g, recs, f.typ, ds[0]) && CompiledFields(g, recs, rest, ds[1..])
    ensures match Skip(cfg, g, depth, f.typ, b)
            case Fail(_) => SkipFields(cfg, g, depth, fields, b).Fail?
            case Ok(_, b') => SkipFields(cfg, g, depth, fields, b) == SkipFields(cfg, g, depth, rest, b')
    decreases |fields|
  {
    if fields[0].action.SetDefault? {
      f, rest := NextField(cfg, g, recs, depth, fields[1..], ds, b);
    } else {
      f, rest := fields[0], fields[1..];
    }
  }

  lemma {:induction false} NoFieldLeft(cfg: Config, g: Graph, recs: map<nat, nat>, depth: nat, fields: seq<Field>, b: Bytes)
    requires CompiledFields(g, recs, fields, [])
    ensures SkipFields(cfg, g, depth, fields, b) == Ok((), b)
    decreases |fields|
  {
    if fields != [] {
      NoFieldLeft(cfg, g, recs, depth, fields[1..], b);
    }
  }

  method RunItems(r: Reader, g: Graph, ghost recs: map<nat, nat>, slots: Slots, depth: nat, ghost s: Schema,
                  keyed: bool, d: Decoder, count: int)
    requires r.Valid() && AllFilled(g, recs, slots) && Compiled(g, recs, s, d) && count >= 0
    modifies r, r.buf
    ensures r.Valid() && (old(r.error).Some? ==> r.error.Some?)
    ensures old(r.error).None? ==> Moved(r, SkipItems(r.cfg, g, depth, s, keyed, count, old(r.Remaining())))
    decreases depth, 2, s, 2, 0
  {
    hide Skip, Compiled, AllFilled;
    ghost var o := SkipItems(r.cfg, g, depth, s, keyed, count, r.Remaining());
    for i := 0 to count
      invariant r.Valid() && (old(r.error).Some? ==> r.error.Some?)
      invariant old(r.error).None? ==>
                  r.error.None? && o == SkipItems(r.cfg, g, depth, s, keyed, count - i, r.Remaining())
    {
      if keyed {
        r.SkipBytes();
        if r.error.Some? {
          return;
        }
      }
      Run(r, g, recs, slots, depth, s, d);
      if r.error.Some? {
        return;
      }
    }
  }

  /** Blocks until an empty one; a positive byte size is trusted. */
  method RunBlocks(r: Reader, g: Graph, ghost recs: map<nat, nat>, slots: Slots, depth: nat, ghost s: Schema,
                   keyed: bool, d: Decoder)
    requires r.Valid() && AllFilled(g, recs, slots) && Compiled(g, recs, s, d)
    modifies r, r.buf
    ensures r.Valid() && (old(r.error).Some? ==> r.error.Some?)
    ensures old(r.error).None? ==> Moved(r, SkipBlocks(r.cfg, g, depth, s, keyed, old(r.Remaining())))
    decreases depth, 2, s, 3, 0
  {
    hide Skip, Compiled, AllFilled, SkipItems, Skipping.ReadBlockHeader;
    ghost var o := SkipBlocks(r.cfg, g, depth, s, keyed, r.Remaining());
    while true
      invariant r.Valid() && (old(r.error).Some? ==> r.error.Some?)
      invariant old(r.error).None? ==>
                  if r.error.None? then o == SkipBlocks(r.cfg, g, depth, s, keyed, r.Remaining()) else o.Fail?
      decreases if r.error.Some? then 0 else 1 + |r.Remaining()|
    {
      var count, size := r.ReadBlockHeader();
      if count == 0 || r.error.Some? {
        return;
      }
      if size > 0 {
        r.SkipNBytesInt64(size);
        continue;
      }
      RunItems(r, g, recs, slots, depth, s, keyed, d, count);
      if r.error.Some? {
        return;
      }
    }
  }
}
