/** Avro schemas as graphs: trees whose leaves name or reference nodes of a table. */
module Schemas {
  import opened Powers
  import opened Wire
  import opened Datums

  type Text = Bytes

  datatype Kind = Boolean | Int | Long | Float | Double | BytesKind | StringKind

  datatype Logical =
    | NoLogical
    | UUID
    | Decimal(precision: int, scale: int)
    | Date
    | TimeMillis
    | TimeMicros
    | TimestampMillis
    | TimestampMicros
    | LocalTimestampMillis
    | LocalTimestampMicros
    | Duration

  /**
   * `Named` and `Ref` point into a graph: at the definition of a record, enum or fixed,
   * directly or through a reference node. `encodedType` and `plans` are empty in declared
   * schemas; resolution sets them to say how the writer encoded the value.
   */
  datatype Schema =
    | Null
    | Primitive(kind: Kind, logical: Logical, encodedType: Option<Kind>)
    | Array(items: Schema)
    | Map(values: Schema)
    | Union(types: seq<Schema>, plans: seq<Schema>)
    | Named(id: nat)
    | Ref(id: nat)

  /** A full name, dots included, and fully qualified aliases. */
  datatype Name = Name(full: Text, aliases: seq<Text>) {
    function Local(): Text {
      AfterLastDot(full)
    }
  }

  const DOT: byte := 46

  function AfterLastDot(full: Text): Text {
    if full == [] || full[|full| - 1] == DOT then []
    else AfterLastDot(full[..|full| - 1]) + [full[|full| - 1]]
  }

  datatype Action = Keep | Ignore | SetDefault

  datatype Field = Field(name: Text, aliases: seq<Text>, typ: Schema, def: Option<Datum>, action: Action)

  datatype Def =
    | Record(name: Name, fields: seq<Field>)
    | Enum(name: Name, symbols: seq<Text>, def: Option<Text>, encodedSymbols: seq<Text>)
    | Fixed(name: Name, size: nat, logical: Logical)

  type Graph = seq<Def>

  function Size(s: Schema): nat {
    match s
    case Array(items) => 1 + Size(items)
    case Map(values) => 1 + Size(values)
    case Union(types, _) => 1 + Sizes(types)
    case _ => 1
  }

  function Sizes(types: seq<Schema>): nat {
    if types == [] then 0 else Size(types[0]) + Sizes(types[1..])
  }

  lemma {:induction false} SizeOfBranch(types: seq<Schema>, i: nat)
    requires i < |types|
    ensures Size(types[i]) <= Sizes(types)
  {
    if i > 0 {
      SizeOfBranch(types[1..], i - 1);
    }
  }

  // --- declared schemas ---

  /** Only ids below `n` occur, and no decode-plan attribute is set. */
  predicate Declared(s: Schema, n: nat) {
    match s
    case Null => true
    case Primitive(_, logical, encodedType) => encodedType.None? && MachineLogical(logical)
    case Array(items) => Declared(items, n)
    case Map(values) => Declared(values, n)
    case Union(types, plans) =>
      plans == [] && types != [] && forall t | t in types :: Declared(t, n) && !t.Union?
    case Named(id) => id < n
    case Ref(id) => id < n
  }

  predicate Distinct<T(==)>(s: seq<T>) {
    forall i, j :: 0 <= i < j < |s| ==> s[i] != s[j]
  }

  predicate DeclaredDef(d: Def, n: nat) {
    match d
    case Record(_, fields) =>
      && ValidFields(fields)
      && forall f | f in fields :: f.action.Keep? && Declared(f.typ, n)
    case Enum(_, symbols, def, encodedSymbols) =>
      symbols != [] && Distinct(symbols) && encodedSymbols == [] && (def.Some? ==> def.value in symbols)
    case Fixed(_, _, logical) => MachineLogical(logical)
  }

  /** Precision and scale are machine integers. */
  predicate MachineLogical(logical: Logical) {
    logical.Decimal? ==> Int64(logical.precision) && Int64(logical.scale)
  }

  /** The field names and aliases of a record share one namespace without repetition. */
  predicate ValidFields(fields: seq<Field>) {
    && (forall i, j :: 0 <= i < j < |fields| ==> fields[i].name != fields[j].name)
    && (forall i, j :: 0 <= i < |fields| && 0 <= j < |fields| ==> fields[i].name !in fields[j].aliases)
    && (forall i :: 0 <= i < |fields| ==> Distinct(fields[i].aliases))
    && (forall i, j :: 0 <= i < j < |fields| ==> Apart(fields[i].aliases, fields[j].aliases))
  }

  predicate Apart(a: seq<Text>, b: seq<Text>) {
    forall x | x in a :: x !in b
  }

  /** A graph holding only declared schemas. */
  predicate DeclaredGraph(g: Graph) {
    forall i :: 0 <= i < |g| ==> DeclaredDef(g[i], |g|)
  }

  // --- logical types ---

  /** Precision and scale are sound, and a fixed of this size can hold every such value. */
  predicate ValidDecimal(size: Option<nat>, precision: int, scale: int) {
    && precision > 0
    && 0 <= scale <= precision
    && (size.Some? ==> size.value > 0 && Pow(10, precision) <= Pow(2, 8 * size.value - 1))
  }

  function PrimitiveDecimal(kind: Kind, logical: Logical): Option<Logical> {
    if kind.BytesKind? && logical.Decimal? && ValidDecimal(None, logical.precision, logical.scale)
    then Some(logical) else None
  }

  function FixedDecimal(size: nat, logical: Logical): Option<Logical> {
    if logical.Decimal? && ValidDecimal(Some(size), logical.precision, logical.scale)
    then Some(logical) else None
  }
}
