/** Input that no writer produces: what reading and skipping make of it. */
module Refusals {
  import opened Wire
  import opened Schemas
  import opened Values
  import opened Skipping
  import opened Decoding

  /** A boolean is one byte, zero or one. */
  lemma BoolStrict(cfg: Config, g: Graph, depth: nat, b: Bytes)
    ensures var r := Read(cfg, g, depth, Primitive(Boolean, NoLogical, None), b);
            && (r.Ok? <==> b != [] && (b[0] == 0 || b[0] == 1))
            && (r.Ok? ==> r == Ok(VBool(b[0] == 1), b[1..]))
            && (r.Ok? <==> Skip(cfg, g, depth, Primitive(Boolean, NoLogical, None), b) == Ok((), if b == [] then b else b[1..]))
  {
  }

  /** Text is delivered only if it is UTF-8. */
  lemma TextStrict(cfg: Config, g: Graph, depth: nat, logical: Logical, encodedType: Option<Kind>, b: Bytes)
    ensures var r := Read(cfg, g, depth, Primitive(StringKind, logical, encodedType), b);
            r.Ok? ==> r.value.VString? && ValidUtf8(r.value.text)
  {
    hide ReadLong, ValidUtf8;
  }

  /** The branches by which a union is read: the plans of a resolved one, or its types. */
  function Branches(types: seq<Schema>, plans: seq<Schema>): seq<Schema> {
    if plans == [] then types else plans
  }

  /** An index that names no branch is refused, by reading and by skipping. */
  lemma UnionStrict(cfg: Config, g: Graph, depth: nat, types: seq<Schema>, plans: seq<Schema>, i: int, rest: Bytes)
    requires Int64(i) && !(0 <= i < |Branches(types, plans)|)
    ensures Read(cfg, g, depth, Union(types, plans), EncodeLong(i) + rest) == Fail(Invalid)
    ensures Skip(cfg, g, depth, Union(types, plans), EncodeLong(i) + rest) == Fail(Invalid)
  {
    LongRoundTrip(i, rest);
  }

  /** The key a union value is delivered under. */
  ghost predicate KeyOfBranch(g: Graph, s: Schema, tag: Tag) {
    match s
    case Primitive(kind, logical, _) => tag == KindTag(kind, logical)
    case Array(_) => tag == ArrayTag
    case Map(_) => tag == MapTag
    case Named(id) => id < |g| ==> tag == NameTag(g[id].name.full)
    case Ref(id) => id < |g| ==> tag == NameTag(g[id].name.full)
    case _ => true
  }

  /** A branch is read as itself and delivered under the name of its type, null bare. */
  lemma UnionReads(cfg: Config, g: Graph, depth: nat, types: seq<Schema>, plans: seq<Schema>, i: nat, rest: Bytes)
    requires Int64(i) && i < |Branches(types, plans)|
    ensures var branch := Branches(types, plans)[i];
            var inner := Read(cfg, g, depth, branch, rest);
            var r := Read(cfg, g, depth, Union(types, plans), EncodeLong(i) + rest);
            && (inner.Fail? <==> r.Fail?)
            && (r.Ok? ==> r.rest == inner.rest)
            && (r.Ok? && branch.Null? ==> r.value == VNull)
            && (r.Ok? && !branch.Null? ==>
                  r.value.VTagged? && r.value.value == inner.value && KeyOfBranch(g, branch, r.value.tag))
  {
    hide EncodeLong;
    LongRoundTrip(i, rest);
  }

  /** An enum index outside the writer's symbols is refused; inside, a plain enum gives the symbol at it. */
  lemma EnumStrict(cfg: Config, g: Graph, depth: nat, id: nat, i: int, rest: Bytes)
    requires id < |g| && g[id].Enum? && Int32(i)
    ensures var symbols := if g[id].encodedSymbols == [] then g[id].symbols else g[id].encodedSymbols;
            var r := Read(cfg, g, depth, Named(id), EncodeLong(i) + rest);
            && (Skip(cfg, g, depth, Named(id), EncodeLong(i) + rest).Ok? <==> 0 <= i < |symbols|)
            && (!(0 <= i < |symbols|) ==> r == Fail(Invalid))
            && (g[id].encodedSymbols == [] && 0 <= i < |symbols| ==> r == Ok(VEnum(symbols[i]), rest))
  {
    IntRoundTrip(i, rest);
  }

  /** A fixed larger than the limits is refused before its bytes are looked at. */
  lemma FixedStrict(cfg: Config, g: Graph, depth: nat, id: nat, b: Bytes)
    requires id < |g| && g[id].Fixed?
    requires (cfg.maxBytes > 0 && g[id].size > cfg.maxBytes) || g[id].size > 0x1_0000_0000_0000
    ensures Read(cfg, g, depth, Named(id), b) == Fail(Limit)
    ensures Skip(cfg, g, depth, Named(id), b) == Fail(Limit)
  {
  }

  // --- blocks ---

  /** A count is given plainly, or negated with a size; the least int64 has no negation, and a size is not negative. */
  lemma HeaderStrict(count: int, size: int, rest: Bytes)
    requires Int64(count) && Int64(size)
    ensures count >= 0 ==> ReadBlockHeader(EncodeLong(count) + rest) == Ok(Header(count, 0), rest)
    ensures count < 0 ==>
              var r := ReadBlockHeader(EncodeLong(count) + (EncodeLong(size) + rest));
              r == if count == -0x8000_0000_0000_0000 || size < 0 then Fail(Invalid) else Ok(Header(-count, size), rest)
  {
    LongRoundTrip(count, rest);
    LongRoundTrip(count, EncodeLong(size) + rest);
    LongRoundTrip(size, rest);
  }

  /** A collection ends with an empty block, sized or not. */
  lemma EmptyCollection(cfg: Config, g: Graph, depth: nat, s: Schema, rest: Bytes)
    ensures Read(cfg, g, depth, Array(s), [0] + rest) == Ok(VArray([]), rest)
    ensures Read(cfg, g, depth, Map(s), [0] + rest) == Ok(VMap(map[]), rest)
    ensures Skip(cfg, g, depth, Array(s), [0] + rest) == Skip(cfg, g, depth, Map(s), [0] + rest) == Ok((), rest)
  {
    assert EncodeLong(0) == [0];
    HeaderStrict(0, 0, rest);
  }

  /** Skipping jumps over a block with a size, whatever is in it. */
  lemma SizedBlockSkipped(cfg: Config, g: Graph, depth: nat, s: Schema, keyed: bool, count: nat, body: Bytes, rest: Bytes)
    requires 0 < count < 0x8000_0000_0000_0000 && 0 < |body| < 0x8000_0000_0000_0000
    ensures var collection := if keyed then Map(s) else Array(s);
            var b := EncodeLong(-(count as int)) + (EncodeLong(|body|) + (body + rest));
            Skip(cfg, g, depth, collection, b) == Skip(cfg, g, depth, collection, rest)
  {
    hide ReadLong, EncodeLong, ReadBlockHeader;
    HeaderStrict(-(count as int), |body|, body + rest);
    DropPrefix(body, rest);
  }

  /** More items than the limit in the blocks of a collection are refused as soon as a header announces them. */
  lemma TooManyItems(cfg: Config, g: Graph, depth: nat, s: Schema, keyed: bool, count: nat, rest: Bytes)
    requires Int64(count) && count > (if keyed then cfg.maxEntries else cfg.maxItems)
    ensures Read(cfg, g, depth, if keyed then Map(s) else Array(s), EncodeLong(count) + rest) == Fail(Limit)
  {
    hide ReadLong, EncodeLong, ReadBlockHeader;
    HeaderStrict(count, 0, rest);
  }
}
