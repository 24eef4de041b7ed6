/** Nothing delivered exceeds the limits, whatever the input. */
module ReadingLimits {
  import opened Wire
  import opened Datums
  import opened Schemas
  import opened Values
  import opened Skipping
  import opened Decoding

  /** A length inside the configured limit, if there is one, and the platform's. */
  predicate Allowed(cfg: Config, n: nat) {
    (cfg.maxBytes > 0 ==> n <= cfg.maxBytes) && n <= 0x1_0000_0000_0000
  }

  /** Every string, array and map inside the value is within the limits. */
  predicate Limited(cfg: Config, v: Value) {
    match v
    case VBytes(bytes) => Allowed(cfg, |bytes|)
    case VString(text) => Allowed(cfg, |text|)
    case VFixed(bytes) => Allowed(cfg, |bytes|)
    case VArray(elems) => |elems| <= cfg.maxItems && forall e | e in elems :: Limited(cfg, e)
    case VMap(entries) =>
      |entries| <= cfg.maxEntries && forall k | k in entries :: Allowed(cfg, |k|) && Limited(cfg, entries[k])
    case VRecord(fields) => forall k | k in fields :: Limited(cfg, fields[k])
    case VTagged(_, value) => Limited(cfg, value)
    case _ => true
  }

  predicate EntryLimited(cfg: Config, e: Entry) {
    Allowed(cfg, |e.key|) && Limited(cfg, e.value)
  }

  /** The length is delivered only if it is allowed, and refused only if it is not or the bytes are not there. */
  lemma BytesExact(cfg: Config, b: Bytes)
    ensures var r := Decoding.ReadBytes(cfg, b);
            match ReadLong(b)
            case Fail(_) => r.Fail?
            case Ok(size, rest) =>
              && (r.Ok? <==> 0 <= size <= |rest| && Allowed(cfg, size))
              && (r.Ok? ==> r.value == rest[..size] && r.rest == rest[size..])
  {
    hide ReadLong;
  }

  lemma PrimitiveLimited(cfg: Config, kind: Kind, logical: Logical, encodedType: Option<Kind>, b: Bytes)
    ensures var r := ReadPrimitive(cfg, kind, logical, encodedType, b); r.Ok? ==> Limited(cfg, r.value)
  {
    hide ReadLong, Wire.ReadInt;
    BytesExact(cfg, b);
  }

  lemma {:induction false} CollectLimited(cfg: Config, pairs: seq<Entry>)
    requires forall e | e in pairs :: EntryLimited(cfg, e)
    ensures |Collect(pairs)| <= |pairs|
    ensures forall k | k in Collect(pairs) :: Allowed(cfg, |k|) && Limited(cfg, Collect(pairs)[k])
    decreases |pairs|
  {
    if pairs != [] {
      var init, last := pairs[..|pairs| - 1], pairs[|pairs| - 1];
      assert last in pairs;
      CollectLimited(cfg, init);
      assert Collect(pairs).Keys == Collect(init).Keys + {last.key};
    }
  }

  lemma GatherLimited(cfg: Config, keyed: bool, pairs: seq<Entry>)
    requires |pairs| <= (if keyed then cfg.maxEntries else cfg.maxItems) && forall e | e in pairs :: EntryLimited(cfg, e)
    ensures Limited(cfg, Gather(keyed, pairs))
  {
    CollectLimited(cfg, pairs);
    forall v | v in PairValues(pairs)
      ensures Limited(cfg, v)
    {
      var k :| 0 <= k < |pairs| && PairValues(pairs)[k] == v;
      assert pairs[k] in pairs;
    }
  }

  /** Whatever bytes are read with whatever plan: what is delivered is within the limits. */
  lemma {:induction false} ReadLimited(cfg: Config, g: Graph, depth: nat, s: Schema, b: Bytes)
    ensures var r := Read(cfg, g, depth, s, b); r.Ok? ==> Limited(cfg, r.value)
    decreases depth, 2, s, 0, 0
  {
    hide ReadLong, ReadPrimitive;
    match s
    case Null =>
    case Primitive(kind, logical, encodedType) => PrimitiveLimited(cfg, kind, logical, encodedType, b);
    case Array(items) =>
      BlocksLimited(cfg, g, depth, items, false, cfg.maxItems, b);
      var r := ReadBlocks(cfg, g, depth, items, false, cfg.maxItems, b);
      if r.Ok? {
        GatherLimited(cfg, false, r.value);
      }
    case Map(values) =>
      BlocksLimited(cfg, g, depth, values, true, cfg.maxEntries, b);
      var r := ReadBlocks(cfg, g, depth, values, true, cfg.maxEntries, b);
      if r.Ok? {
        GatherLimited(cfg, true, r.value);
      }
    case Union(_, _) =>
      var r := ReadLong(b);
      if r.Ok? && 0 <= r.value < |DecodeTypes(s)| {
        ReadLimited(cfg, g, depth, DecodeTypes(s)[r.value], r.rest);
      }
    case Named(id) => if id < |g| { DefLimited(cfg, g, depth, g[id], b); }
    case Ref(id) => if id < |g| { DefLimited(cfg, g, depth, g[id], b); }
  }

  lemma FixedLimited(cfg: Config, size: nat, logical: Logical, bytes: Bytes)
    requires |bytes| == size && FitsBytes(cfg, size)
    ensures var v := FixedValue(cfg, size, logical, bytes); v.Some? ==> Limited(cfg, v.value)
  {
  }

  lemma {:induction false} DefLimited(cfg: Config, g: Graph, depth: nat, def: Def, b: Bytes)
    ensures var r := ReadDef(cfg, g, depth, def, b); r.Ok? ==> Limited(cfg, r.value)
    decreases depth, 1
  {
    hide Wire.ReadInt, FixedValue, ReadFields;
    match def
    case Record(_, fields) =>
      if depth > 0 {
        FieldsLimited(cfg, g, depth - 1, fields, map[], b);
        var r := ReadFields(cfg, g, depth - 1, fields, map[], b);
        if r.Ok? {
          assert Limited(cfg, VRecord(r.value));
        }
      }
    case Enum(_, _, _, _) =>
    case Fixed(_, size, logical) =>
      if size <= |b| && FitsBytes(cfg, size) {
        FixedLimited(cfg, size, logical, b[..size]);
      }
  }

  lemma {:induction false} FieldsLimited(cfg: Config, g: Graph, depth: nat, fields: seq<Field>, obj: map<Text, Value>, b: Bytes)
    requires forall k | k in obj :: Limited(cfg, obj[k])
    ensures var r := ReadFields(cfg, g, depth, fields, obj, b); r.Ok? ==> forall k | k in r.value :: Limited(cfg, r.value[k])
    decreases depth, 3, |fields|
  {
    if fields == [] {
      return;
    }
    var f := fields[0];
    match f.action
    case Ignore =>
      var r := Skip(cfg, g, depth, f.typ, b);
      if r.Ok? {
        FieldsLimited(cfg, g, depth, fields[1..], obj, r.rest);
      }
    case SetDefault =>
      if f.def.Some? {
        ReadLimited(cfg, g, depth, f.typ, Encode(f.def.value));
      }
      var r := ReadDefault(cfg, g, depth, f);
      if r.Ok? {
        FieldsLimited(cfg, g, depth, fields[1..], obj[f.name := r.value], b);
      }
    case Keep =>
      ReadLimited(cfg, g, depth, f.typ, b);
      var r := Read(cfg, g, depth, f.typ, b);
      if r.Ok? {
        FieldsLimited(cfg, g, depth, fields[1..], obj[f.name := r.value], r.rest);
      }
  }

  lemma KeyLimited(cfg: Config, keyed: bool, b: Bytes)
    ensures var key := if keyed then ReadText(cfg, b) else Ok([], b); key.Ok? ==> Allowed(cfg, |key.value|)
  {
    hide ReadLong;
    BytesExact(cfg, b);
  }

  lemma {:induction false} ItemsLimited(cfg: Config, g: Graph, depth: nat, s: Schema, keyed: bool, count: nat, b: Bytes)
    ensures var r := ReadItems(cfg, g, depth, s, keyed, count, b); r.Ok? ==> forall e | e in r.value :: EntryLimited(cfg, e)
    decreases depth, 2, s, 1, count
  {
    hide ReadLong, ReadText, Limited, Allowed;
    if count > 0 {
      KeyLimited(cfg, keyed, b);
      var key := if keyed then ReadText(cfg, b) else Ok([], b);
      if key.Ok? {
        ReadLimited(cfg, g, depth, s, key.rest);
        var v := Read(cfg, g, depth, s, key.rest);
        if v.Ok? {
          ItemsLimited(cfg, g, depth, s, keyed, count - 1, v.rest);
        }
      }
    }
  }

  lemma {:induction false} BlocksLimited(cfg: Config, g: Graph, depth: nat, s: Schema, keyed: bool, remaining: nat, b: Bytes)
    ensures var r := ReadBlocks(cfg, g, depth, s, keyed, remaining, b); r.Ok? ==> forall e | e in r.value :: EntryLimited(cfg, e)
    decreases depth, 2, s, 2, remaining
  {
    hide ReadLong, ReadBlockHeader, EntryLimited, ReadItems;
    var header := ReadBlockHeader(b);
    if header.Ok? && 0 < header.value.count <= remaining {
      ItemsLimited(cfg, g, depth, s, keyed, header.value.count, header.rest);
      var items := ReadItems(cfg, g, depth, s, keyed, header.value.count, header.rest);
      if items.Ok? {
        BlocksLimited(cfg, g, depth, s, keyed, remaining - header.value.count, items.rest);
      }
    }
  }
}
