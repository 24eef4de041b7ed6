/** The byte string behind a compatibility fingerprint, and what equal strings mean. */
module Fingerprints {
  import opened Wire
  import opened Schemas
  import opened Finite

  // Tags, as ASCII: null, primitive, array, map, union, definition, reference, record, enum, fixed.
  const T_NULL: Text := [110, 117, 108, 108]
  const T_PRIMITIVE: Text := [112, 114, 105, 109, 105, 116, 105, 118, 101]
  const T_ARRAY: Text := [97, 114, 114, 97, 121]
  const T_MAP: Text := [109, 97, 112]
  const T_UNION: Text := [117, 110, 105, 111, 110]
  const T_DEFINITION: Text := [100, 101, 102, 105, 110, 105, 116, 105, 111, 110]
  const T_REFERENCE: Text := [114, 101, 102, 101, 114, 101, 110, 99, 101]
  const T_RECORD: Text := [114, 101, 99, 111, 114, 100]
  const T_ENUM: Text := [101, 110, 117, 109]
  const T_FIXED: Text := [102, 105, 120, 101, 100]

  /** The type name of a primitive kind, as ASCII. */
  function KindText(k: Kind): Text {
    match k
    case Boolean => [98, 111, 111, 108, 101, 97, 110]
    case Int => [105, 110, 116]
    case Long => [108, 111, 110, 103]
    case Float => [102, 108, 111, 97, 116]
    case Double => [100, 111, 117, 98, 108, 101]
    case BytesKind => [98, 121, 116, 101, 115]
    case StringKind => [115, 116, 114, 105, 110, 103]
  }

  /** The numbers given to the definitions met so far. */
  type Seen = map<nat, nat>

  datatype Printed = Printed(data: Bytes, seen: Seen)

  // --- leaves ---

  function PrintString(t: Text): Bytes {
    Uvarint(|t|) + t
  }

  function PrintStrings(ts: seq<Text>): Bytes {
    Uvarint(|ts|) + PrintAll(ts)
  }

  function PrintAll(ts: seq<Text>): Bytes {
    if ts == [] then [] else PrintString(ts[0]) + PrintAll(ts[1..])
  }

  /** A machine integer as an unsigned 64-bit number. */
  function Unsigned(x: int): nat
    requires Int64(x)
  {
    if x < 0 then x + 0x1_0000_0000_0000_0000 else x
  }

  function PrintDecimal(logical: Logical): Bytes
    requires MachineLogical(logical)
  {
    if logical.Decimal?
    then Uvarint(1) + Uvarint(Unsigned(logical.precision)) + Uvarint(Unsigned(logical.scale))
    else Uvarint(0)
  }

  function PrintFlag(b: bool): Bytes {
    Uvarint(if b then 1 else 0)
  }

  // --- schemas ---

  ghost function Unseen(g: Graph, seen: Seen): nat {
    |set i | 0 <= i < |g| && i !in seen|
  }

  lemma UnseenShrinks(g: Graph, seen: Seen, seen': Seen)
    requires seen.Keys <= seen'.Keys
    ensures Unseen(g, seen') <= Unseen(g, seen)
  {
    SubsetSize(set i | 0 <= i < |g| && i !in seen', set i | 0 <= i < |g| && i !in seen);
  }

  lemma UnseenNext(g: Graph, seen: Seen, id: nat, n: nat)
    requires id < |g| && id !in seen
    ensures Unseen(g, seen[id := n]) < Unseen(g, seen)
  {
    var seen' := seen[id := n];
    var a := set i | 0 <= i < |g| && i !in seen';
    var b := set i | 0 <= i < |g| && i !in seen;
    assert b == a + {id};
  }

  predicate Grows(seen: Seen, seen': Seen) {
    forall i :: i in seen ==> i in seen' && seen'[i] == seen[i]
  }

  /** Numbers run from 1 to the count, each used once. */
  ghost predicate Numbered(seen: Seen) {
    && (forall i :: i in seen ==> 1 <= seen[i] <= |seen|)
    && (forall i, j :: i in seen && j in seen && seen[i] == seen[j] ==> i == j)
  }

  /** Still numbered, and every new number is larger than the old ones. */
  ghost predicate Extends(seen: Seen, seen': Seen) {
    && Numbered(seen')
    && |seen| <= |seen'|
    && forall i :: i in seen' && i !in seen ==> seen'[i] > |seen|
  }

  function Print(g: Graph, s: Schema, seen: Seen): (r: Printed)
    requires DeclaredGraph(g) && Declared(s, |g|)
    ensures Grows(seen, r.seen) && (Numbered(seen) ==> Extends(seen, r.seen))
    decreases Unseen(g, seen), 2, s, 0
  {
    match s
    case Null => Printed(PrintString(T_NULL), seen)
    case Primitive(kind, logical, _) =>
      Printed(PrintString(T_PRIMITIVE) + (PrintString(KindText(kind)) + PrintDecimal(logical)), seen)
    case Array(items) =>
      var r := Print(g, items, seen);
      Printed(PrintString(T_ARRAY) + r.data, r.seen)
    case Map(values) =>
      var r := Print(g, values, seen);
      Printed(PrintString(T_MAP) + r.data, r.seen)
    case Union(types, _) =>
      var r := PrintTypes(g, types, seen);
      Printed(PrintString(T_UNION) + (Uvarint(|types|) + r.data), r.seen)
    case Named(id) => PrintNode(g, id, seen)
    case Ref(id) => PrintNode(g, id, seen)
  }

  function PrintTypes(g: Graph, types: seq<Schema>, seen: Seen): (r: Printed)
    requires DeclaredGraph(g) && forall t | t in types :: Declared(t, |g|)
    ensures Grows(seen, r.seen) && (Numbered(seen) ==> Extends(seen, r.seen))
    decreases Unseen(g, seen), 2, types, 1
  {
    if types == [] then Printed([], seen)
    else
      var first := Print(g, types[0], seen);
      UnseenShrinks(g, seen, first.seen);
      var rest := PrintTypes(g, types[1..], first.seen);
      Printed(first.data + rest.data, rest.seen)
  }

  /** The first meeting prints a numbered definition, later ones the number alone. */
  function PrintNode(g: Graph, id: nat, seen: Seen): (r: Printed)
    requires DeclaredGraph(g) && id < |g|
    ensures Grows(seen, r.seen) && id in r.seen && (Numbered(seen) ==> Extends(seen, r.seen))
    decreases Unseen(g, seen), 1
  {
    if id in seen then Printed(PrintString(T_REFERENCE) + Uvarint(seen[id]), seen)
    else
      var number := |seen| + 1;
      UnseenNext(g, seen, id, number);
      var r := PrintDef(g, g[id], seen[id := number]);
      Printed(PrintString(T_DEFINITION) + (Uvarint(number) + r.data), r.seen)
  }

  function PrintDef(g: Graph, def: Def, seen: Seen): (r: Printed)
    requires DeclaredGraph(g) && DeclaredDef(def, |g|)
    ensures Grows(seen, r.seen) && (Numbered(seen) ==> Extends(seen, r.seen))
    decreases Unseen(g, seen), 4
  {
    match def
    case Record(name, fields) =>
      var r := PrintFields(g, fields, seen);
      Printed(PrintString(T_RECORD) + (PrintString(name.full) + (PrintStrings(name.aliases)
              + (Uvarint(|fields|) + r.data))), r.seen)
    case Enum(name, symbols, def, _) =>
      Printed(PrintString(T_ENUM) + (PrintString(name.full) + (PrintStrings(name.aliases)
              + (PrintStrings(symbols) + PrintFlag(def.Some?)))), seen)
    case Fixed(name, size, logical) =>
      Printed(PrintString(T_FIXED) + (PrintString(name.full) + (PrintStrings(name.aliases)
              + (Uvarint(size) + PrintDecimal(logical)))), seen)
  }

  function PrintFields(g: Graph, fields: seq<Field>, seen: Seen): (r: Printed)
    requires DeclaredGraph(g) && forall f | f in fields :: Declared(f.typ, |g|)
    ensures Grows(seen, r.seen) && (Numbered(seen) ==> Extends(seen, r.seen))
    decreases Unseen(g, seen), 3, |fields|
  {
    if fields == [] then Printed([], seen)
    else
      var f := fields[0];
      var first := Print(g, f.typ, seen);
      UnseenShrinks(g, seen, first.seen);
      var rest := PrintFields(g, fields[1..], first.seen);
      Printed(PrintString(f.name) + (PrintStrings(f.aliases) + (PrintFlag(f.def.Some?)
              + (first.data + rest.data))), rest.seen)
  }

  /** The fingerprint data of a schema: its digest is the compatibility key. */
  function Fingerprint(g: Graph, s: Schema): Bytes
    requires DeclaredGraph(g) && Declared(s, |g|)
  {
    Print(g, s, map[]).data
  }

  // --- the leaves are prefix codes ---

  lemma {:induction false} UvarintPrefix(a: nat, b: nat, x: Bytes, y: Bytes)
    requires Uvarint(a) + x == Uvarint(b) + y
    ensures a == b && x == y
  {
    var u, v := Uvarint(a) + x, Uvarint(b) + y;
    assert u[0] == v[0];
    if a < 0x80 {
      assert u[1..] == x && v[1..] == y;
    } else {
      assert u[1..] == Uvarint(a / 0x80) + x && v[1..] == Uvarint(b / 0x80) + y;
      UvarintPrefix(a / 0x80, b / 0x80, x, y);
    }
  }

  lemma StringPrefix(a: Text, b: Text, x: Bytes, y: Bytes)
    requires PrintString(a) + x == PrintString(b) + y
    ensures a == b && x == y
  {
    Regroup(Uvarint(|a|), a, x);
    Regroup(Uvarint(|b|), b, y);
    UvarintPrefix(|a|, |b|, a + x, b + y);
    DropPrefix(a, x);
    DropPrefix(b, y);
  }

  lemma {:induction false} AllPrefix(a: seq<Text>, b: seq<Text>, x: Bytes, y: Bytes)
    requires |a| == |b| && PrintAll(a) + x == PrintAll(b) + y
    ensures a == b && x == y
  {
    if a == [] {
      assert [] + x == x && [] + y == y;
    } else {
      Regroup(PrintString(a[0]), PrintAll(a[1..]), x);
      Regroup(PrintString(b[0]), PrintAll(b[1..]), y);
      StringPrefix(a[0], b[0], PrintAll(a[1..]) + x, PrintAll(b[1..]) + y);
      AllPrefix(a[1..], b[1..], x, y);
    }
  }

  lemma StringsPrefix(a: seq<Text>, b: seq<Text>, x: Bytes, y: Bytes)
    requires PrintStrings(a) + x == PrintStrings(b) + y
    ensures a == b && x == y
  {
    Regroup(Uvarint(|a|), PrintAll(a), x);
    Regroup(Uvarint(|b|), PrintAll(b), y);
    UvarintPrefix(|a|, |b|, PrintAll(a) + x, PrintAll(b) + y);
    AllPrefix(a, b, x, y);
  }

  lemma DecimalPrefix(a: Logical, b: Logical, x: Bytes, y: Bytes)
    requires MachineLogical(a) && MachineLogical(b)
    requires PrintDecimal(a) + x == PrintDecimal(b) + y
    ensures SameDecimal(a, b) && x == y
  {
    if a.Decimal? {
      Regroup4(Uvarint(1), Uvarint(Unsigned(a.precision)), Uvarint(Unsigned(a.scale)), x);
    }
    if b.Decimal? {
      Regroup4(Uvarint(1), Uvarint(Unsigned(b.precision)), Uvarint(Unsigned(b.scale)), y);
    }
    var x' := if a.Decimal? then Uvarint(Unsigned(a.precision)) + (Uvarint(Unsigned(a.scale)) + x) else x;
    var y' := if b.Decimal? then Uvarint(Unsigned(b.precision)) + (Uvarint(Unsigned(b.scale)) + y) else y;
    UvarintPrefix(if a.Decimal? then 1 else 0, if b.Decimal? then 1 else 0, x', y');
    if a.Decimal? {
      UvarintPrefix(Unsigned(a.precision), Unsigned(b.precision),
                    Uvarint(Unsigned(a.scale)) + x, Uvarint(Unsigned(b.scale)) + y);
      UvarintPrefix(Unsigned(a.scale), Unsigned(b.scale), x, y);
    }
  }

  lemma FlagPrefix(a: bool, b: bool, x: Bytes, y: Bytes)
    requires PrintFlag(a) + x == PrintFlag(b) + y
    ensures a == b && x == y
  {
    UvarintPrefix(if a then 1 else 0, if b then 1 else 0, x, y);
  }

  // --- sameness up to the numbering of definitions ---

  /** Logical types are compared only as decimals. */
  predicate SameDecimal(a: Logical, b: Logical) {
    (a.Decimal? || b.Decimal?) ==> a == b
  }

  /** Two definitions bear the same number. */
  predicate Paired(m1: Seen, m2: Seen, i: nat, j: nat) {
    i in m1 && j in m2 && m1[i] == m2[j]
  }

  predicate Same(s1: Schema, s2: Schema, m1: Seen, m2: Seen) {
    match s1
    case Null => s2.Null?
    case Primitive(kind, logical, _) => s2.Primitive? && kind == s2.kind && SameDecimal(logical, s2.logical)
    case Array(items) => s2.Array? && Same(items, s2.items, m1, m2)
    case Map(values) => s2.Map? && Same(values, s2.values, m1, m2)
    case Union(types, _) =>
      s2.Union? && |types| == |s2.types|
      && forall k :: 0 <= k < |types| ==> Same(types[k], s2.types[k], m1, m2)
    case Named(id) => (s2.Named? || s2.Ref?) && Paired(m1, m2, id, s2.id)
    case Ref(id) => (s2.Named? || s2.Ref?) && Paired(m1, m2, id, s2.id)
  }

  predicate SameField(f1: Field, f2: Field, m1: Seen, m2: Seen) {
    && f1.name == f2.name && f1.aliases == f2.aliases
    && (f1.def.Some? <==> f2.def.Some?)
    && Same(f1.typ, f2.typ, m1, m2)
  }

  predicate SameFields(fs1: seq<Field>, fs2: seq<Field>, m1: Seen, m2: Seen) {
    |fs1| == |fs2| && forall k :: 0 <= k < |fs1| ==> SameField(fs1[k], fs2[k], m1, m2)
  }

  predicate SameDef(d1: Def, d2: Def, m1: Seen, m2: Seen) {
    && d1.name == d2.name
    && match d1
       case Record(_, fields) => d2.Record? && SameFields(fields, d2.fields, m1, m2)
       case Enum(_, symbols, def, _) =>
         d2.Enum? && symbols == d2.symbols && (def.Some? <==> d2.def.Some?)
       case Fixed(_, size, logical) =>
         d2.Fixed? && size == d2.size && SameDecimal(logical, d2.logical)
  }

  lemma {:induction false} SameGrows(s1: Schema, s2: Schema, m1: Seen, m2: Seen, n1: Seen, n2: Seen)
    requires Grows(m1, n1) && Grows(m2, n2) && Same(s1, s2, m1, m2)
    ensures Same(s1, s2, n1, n2)
    decreases s1
  {
    match s1
    case Array(items) => SameGrows(items, s2.items, m1, m2, n1, n2);
    case Map(values) => SameGrows(values, s2.values, m1, m2, n1, n2);
    case Union(types, _) =>
      forall k | 0 <= k < |types| ensures Same(types[k], s2.types[k], n1, n2) {
        SameGrows(types[k], s2.types[k], m1, m2, n1, n2);
      }
    case _ =>
  }

  lemma SameDefGrows(d1: Def, d2: Def, m1: Seen, m2: Seen, n1: Seen, n2: Seen)
    requires Grows(m1, n1) && Grows(m2, n2) && SameDef(d1, d2, m1, m2)
    ensures SameDef(d1, d2, n1, n2)
  {
    if d1.Record? {
      forall k | 0 <= k < |d1.fields| ensures SameField(d1.fields[k], d2.fields[k], n1, n2) {
        assert SameField(d1.fields[k], d2.fields[k], m1, m2);
        SameGrows(d1.fields[k].typ, d2.fields[k].typ, m1, m2, n1, n2);
      }
    }
  }

  /** Pairs met since `m1`, `m2` have the same definitions. */
  ghost predicate Bisimilar(g: Graph, m1: Seen, m2: Seen, n1: Seen, n2: Seen) {
    forall i: nat, j: nat | Paired(n1, n2, i, j) && !Paired(m1, m2, i, j) ::
      i < |g| && j < |g| && SameDef(g[i], g[j], n1, n2)
  }

  lemma BisimilarChain(g: Graph, m1: Seen, m2: Seen, n1: Seen, n2: Seen, p1: Seen, p2: Seen)
    requires Bisimilar(g, m1, m2, n1, n2) && Bisimilar(g, n1, n2, p1, p2)
    requires Grows(n1, p1) && Grows(n2, p2)
    ensures Bisimilar(g, m1, m2, p1, p2)
  {
    forall i: nat, j: nat | Paired(p1, p2, i, j) && !Paired(m1, m2, i, j)
      ensures i < |g| && j < |g| && SameDef(g[i], g[j], p1, p2)
    {
      if Paired(n1, n2, i, j) {
        SameDefGrows(g[i], g[j], n1, n2, p1, p2);
      }
    }
  }

  /** Both runs have met equally many definitions. */
  ghost predicate InStep(m1: Seen, m2: Seen) {
    Numbered(m1) && Numbered(m2) && |m1| == |m2|
  }

  /** What two runs that print the same have in common. */
  ghost predicate Agree(g: Graph, m1: Seen, m2: Seen, r1: Printed, r2: Printed, x1: Bytes, x2: Bytes) {
    && r1.data == r2.data && x1 == x2
    && InStep(r1.seen, r2.seen)
    && Bisimilar(g, m1, m2, r1.seen, r2.seen)
  }

  // --- decoding: equal output means equal structure ---

  function TagOfSchema(s: Schema, seen: Seen): Text {
    match s
    case Null => T_NULL
    case Primitive(_, _, _) => T_PRIMITIVE
    case Array(_) => T_ARRAY
    case Map(_) => T_MAP
    case Union(_, _) => T_UNION
    case Named(id) => if id in seen then T_REFERENCE else T_DEFINITION
    case Ref(id) => if id in seen then T_REFERENCE else T_DEFINITION
  }

  /** What follows the tag. */
  function Tail(g: Graph, s: Schema, seen: Seen): (r: Bytes)
    requires DeclaredGraph(g) && Declared(s, |g|)
    ensures Print(g, s, seen).data == PrintString(TagOfSchema(s, seen)) + r
  {
    match s
    case Null => []
    case Primitive(kind, logical, _) => PrintString(KindText(kind)) + PrintDecimal(logical)
    case Array(items) => Print(g, items, seen).data
    case Map(values) => Print(g, values, seen).data
    case Union(types, _) => Uvarint(|types|) + PrintTypes(g, types, seen).data
    case Named(id) => NodeTail(g, id, seen)
    case Ref(id) => NodeTail(g, id, seen)
  }

  function NodeTail(g: Graph, id: nat, seen: Seen): (r: Bytes)
    requires DeclaredGraph(g) && id < |g|
    ensures PrintNode(g, id, seen).data
         == PrintString(if id in seen then T_REFERENCE else T_DEFINITION) + r
  {
    if id in seen then Uvarint(seen[id])
    else Uvarint(|seen| + 1) + PrintDef(g, g[id], seen[id := |seen| + 1]).data
  }

  lemma {:induction false} PrintDecodes(g: Graph, s1: Schema, s2: Schema, m1: Seen, m2: Seen, x1: Bytes, x2: Bytes)
    requires DeclaredGraph(g) && Declared(s1, |g|) && Declared(s2, |g|) && InStep(m1, m2)
    requires Print(g, s1, m1).data + x1 == Print(g, s2, m2).data + x2
    ensures Agree(g, m1, m2, Print(g, s1, m1), Print(g, s2, m2), x1, x2)
    ensures Same(s1, s2, Print(g, s1, m1).seen, Print(g, s2, m2).seen)
    decreases Unseen(g, m1), 2, s1, 0
  {
    var t1, t2 := Tail(g, s1, m1), Tail(g, s2, m2);
    Regroup(PrintString(TagOfSchema(s1, m1)), t1, x1);
    Regroup(PrintString(TagOfSchema(s2, m2)), t2, x2);
    StringPrefix(TagOfSchema(s1, m1), TagOfSchema(s2, m2), t1 + x1, t2 + x2);
    match s1
    case Null =>
      assert [] + x1 == x1 && [] + x2 == x2;
    case Primitive(kind, logical, _) => PrimitiveDecodes(s1, s2, x1, x2);
    case Array(items) => PrintDecodes(g, items, s2.items, m1, m2, x1, x2);
    case Map(values) => PrintDecodes(g, values, s2.values, m1, m2, x1, x2);
    case Union(types, _) =>
      var r1, r2 := PrintTypes(g, types, m1).data, PrintTypes(g, s2.types, m2).data;
      Regroup(Uvarint(|types|), r1, x1);
      Regroup(Uvarint(|s2.types|), r2, x2);
      UvarintPrefix(|types|, |s2.types|, r1 + x1, r2 + x2);
      TypesDecode(g, types, s2.types, m1, m2, x1, x2);
    case Named(id) => NodeDecodes(g, id, s2.id, m1, m2, x1, x2);
    case Ref(id) => NodeDecodes(g, id, s2.id, m1, m2, x1, x2);
  }

  lemma PrimitiveDecodes(s1: Schema, s2: Schema, x1: Bytes, x2: Bytes)
    requires s1.Primitive? && s2.Primitive? && MachineLogical(s1.logical) && MachineLogical(s2.logical)
    requires (PrintString(KindText(s1.kind)) + PrintDecimal(s1.logical)) + x1
          == (PrintString(KindText(s2.kind)) + PrintDecimal(s2.logical)) + x2
    ensures s1.kind == s2.kind && SameDecimal(s1.logical, s2.logical) && x1 == x2
    ensures PrintDecimal(s1.logical) == PrintDecimal(s2.logical)
  {
    Regroup(PrintString(KindText(s1.kind)), PrintDecimal(s1.logical), x1);
    Regroup(PrintString(KindText(s2.kind)), PrintDecimal(s2.logical), x2);
    StringPrefix(KindText(s1.kind), KindText(s2.kind), PrintDecimal(s1.logical) + x1, PrintDecimal(s2.logical) + x2);
    DecimalPrefix(s1.logical, s2.logical, x1, x2);
  }

  lemma {:induction false} TypesDecode(g: Graph, ts1: seq<Schema>, ts2: seq<Schema>, m1: Seen, m2: Seen, x1: Bytes, x2: Bytes)
    requires DeclaredGraph(g) && InStep(m1, m2) && |ts1| == |ts2|
    requires (forall t | t in ts1 :: Declared(t, |g|)) && (forall t | t in ts2 :: Declared(t, |g|))
    requires PrintTypes(g, ts1, m1).data + x1 == PrintTypes(g, ts2, m2).data + x2
    ensures Agree(g, m1, m2, PrintTypes(g, ts1, m1), PrintTypes(g, ts2, m2), x1, x2)
    ensures forall k :: 0 <= k < |ts1| ==>
              Same(ts1[k], ts2[k], PrintTypes(g, ts1, m1).seen, PrintTypes(g, ts2, m2).seen)
    decreases Unseen(g, m1), 2, ts1, 1
  {
    if ts1 == [] {
      assert [] + x1 == x1 && [] + x2 == x2;
    } else {
      var f1, f2 := Print(g, ts1[0], m1), Print(g, ts2[0], m2);
      var r1, r2 := PrintTypes(g, ts1[1..], f1.seen), PrintTypes(g, ts2[1..], f2.seen);
      UnseenShrinks(g, m1, f1.seen);
      Regroup(f1.data, r1.data, x1);
      Regroup(f2.data, r2.data, x2);
      PrintDecodes(g, ts1[0], ts2[0], m1, m2, r1.data + x1, r2.data + x2);
      TypesDecode(g, ts1[1..], ts2[1..], f1.seen, f2.seen, x1, x2);
      BisimilarChain(g, m1, m2, f1.seen, f2.seen, r1.seen, r2.seen);
      SameGrows(ts1[0], ts2[0], f1.seen, f2.seen, r1.seen, r2.seen);
      ConsTypes(ts1, ts2, r1.seen, r2.seen);
    }
  }

  lemma ConsTypes(ts1: seq<Schema>, ts2: seq<Schema>, m1: Seen, m2: Seen)
    requires |ts1| == |ts2| && ts1 != [] && Same(ts1[0], ts2[0], m1, m2)
    requires forall k :: 0 <= k < |ts1[1..]| ==> Same(ts1[1..][k], ts2[1..][k], m1, m2)
    ensures forall k :: 0 <= k < |ts1| ==> Same(ts1[k], ts2[k], m1, m2)
  {
    forall k | 0 <= k < |ts1| ensures Same(ts1[k], ts2[k], m1, m2) {
      if k > 0 {
        assert ts1[1..][k - 1] == ts1[k] && ts2[1..][k - 1] == ts2[k];
      }
    }
  }

  lemma {:induction false} NodeDecodes(g: Graph, i: nat, j: nat, m1: Seen, m2: Seen, x1: Bytes, x2: Bytes)
    requires DeclaredGraph(g) && i < |g| && j < |g| && InStep(m1, m2)
    requires i in m1 <==> j in m2
    requires NodeTail(g, i, m1) + x1 == NodeTail(g, j, m2) + x2
    ensures Agree(g, m1, m2, PrintNode(g, i, m1), PrintNode(g, j, m2), x1, x2)
    ensures Paired(PrintNode(g, i, m1).seen, PrintNode(g, j, m2).seen, i, j)
    decreases Unseen(g, m1), 1
  {
    if i in m1 {
      UvarintPrefix(m1[i], m2[j], x1, x2);
    } else {
      var n := |m1| + 1;
      var n1, n2 := m1[i := n], m2[j := n];
      var d1, d2 := PrintDef(g, g[i], n1), PrintDef(g, g[j], n2);
      UnseenNext(g, m1, i, n);
      NumberNext(m1, i);
      NumberNext(m2, j);
      Regroup(Uvarint(n), d1.data, x1);
      Regroup(Uvarint(n), d2.data, x2);
      UvarintPrefix(n, n, d1.data + x1, d2.data + x2);
      DefDecodes(g, g[i], g[j], n1, n2, x1, x2);
      PairDefined(g, i, j, m1, m2, d1.seen, d2.seen);
    }
  }

  lemma NumberNext(m: Seen, i: nat)
    requires Numbered(m) && i !in m
    ensures Numbered(m[i := |m| + 1]) && |m[i := |m| + 1]| == |m| + 1
  {
  }

  lemma PairDefined(g: Graph, i: nat, j: nat, m1: Seen, m2: Seen, p1: Seen, p2: Seen)
    requires InStep(m1, m2) && i !in m1 && j !in m2 && i < |g| && j < |g|
    requires Bisimilar(g, m1[i := |m1| + 1], m2[j := |m2| + 1], p1, p2) && SameDef(g[i], g[j], p1, p2)
    ensures Bisimilar(g, m1, m2, p1, p2)
  {
    var n1, n2 := m1[i := |m1| + 1], m2[j := |m2| + 1];
    forall a: nat, b: nat | Paired(p1, p2, a, b) && !Paired(m1, m2, a, b)
      ensures a < |g| && b < |g| && SameDef(g[a], g[b], p1, p2)
    {
      if Paired(n1, n2, a, b) {
        assert a == i && b == j;
      }
    }
  }

  lemma {:induction false} DefDecodes(g: Graph, d1: Def, d2: Def, m1: Seen, m2: Seen, x1: Bytes, x2: Bytes)
    requires DeclaredGraph(g) && DeclaredDef(d1, |g|) && DeclaredDef(d2, |g|) && InStep(m1, m2)
    requires PrintDef(g, d1, m1).data + x1 == PrintDef(g, d2, m2).data + x2
    ensures Agree(g, m1, m2, PrintDef(g, d1, m1), PrintDef(g, d2, m2), x1, x2)
    ensures SameDef(d1, d2, PrintDef(g, d1, m1).seen, PrintDef(g, d2, m2).seen)
    decreases Unseen(g, m1), 4
  {
    var b1, b2 := DefBody(g, d1, m1), DefBody(g, d2, m2);
    HeaderDecodes(g, d1, d2, m1, m2, x1, x2);
    match d1
    case Record(_, fields) =>
      var r1, r2 := PrintFields(g, fields, m1).data, PrintFields(g, d2.fields, m2).data;
      Regroup(Uvarint(|fields|), r1, x1);
      Regroup(Uvarint(|d2.fields|), r2, x2);
      UvarintPrefix(|fields|, |d2.fields|, r1 + x1, r2 + x2);
      FieldsDecode(g, fields, d2.fields, m1, m2, x1, x2);
    case Enum(_, symbols, def, _) =>
      Regroup(PrintStrings(symbols), PrintFlag(def.Some?), x1);
      Regroup(PrintStrings(d2.symbols), PrintFlag(d2.def.Some?), x2);
      StringsPrefix(symbols, d2.symbols, PrintFlag(def.Some?) + x1, PrintFlag(d2.def.Some?) + x2);
      FlagPrefix(def.Some?, d2.def.Some?, x1, x2);
    case Fixed(_, size, logical) =>
      Regroup(Uvarint(size), PrintDecimal(logical), x1);
      Regroup(Uvarint(d2.size), PrintDecimal(d2.logical), x2);
      UvarintPrefix(size, d2.size, PrintDecimal(logical) + x1, PrintDecimal(d2.logical) + x2);
      DecimalPrefix(logical, d2.logical, x1, x2);
  }

  function TagOfDef(d: Def): Text {
    match d
    case Record(_, _) => T_RECORD
    case Enum(_, _, _, _) => T_ENUM
    case Fixed(_, _, _) => T_FIXED
  }

  /** What follows tag, name and aliases of a definition. */
  function DefBody(g: Graph, d: Def, seen: Seen): (r: Bytes)
    requires DeclaredGraph(g) && DeclaredDef(d, |g|)
    ensures PrintDef(g, d, seen).data
         == PrintString(TagOfDef(d)) + (PrintString(d.name.full) + (PrintStrings(d.name.aliases) + r))
  {
    match d
    case Record(_, fields) => Uvarint(|fields|) + PrintFields(g, fields, seen).data
    case Enum(_, symbols, def, _) => PrintStrings(symbols) + PrintFlag(def.Some?)
    case Fixed(_, size, logical) => Uvarint(size) + PrintDecimal(logical)
  }

  lemma HeaderDecodes(g: Graph, d1: Def, d2: Def, m1: Seen, m2: Seen, x1: Bytes, x2: Bytes)
    requires DeclaredGraph(g) && DeclaredDef(d1, |g|) && DeclaredDef(d2, |g|)
    requires PrintDef(g, d1, m1).data + x1 == PrintDef(g, d2, m2).data + x2
    ensures TagOfDef(d1) == TagOfDef(d2) && d1.name == d2.name
    ensures DefBody(g, d1, m1) + x1 == DefBody(g, d2, m2) + x2
  {
    var b1, b2 := DefBody(g, d1, m1), DefBody(g, d2, m2);
    var a1, a2 := PrintStrings(d1.name.aliases), PrintStrings(d2.name.aliases);
    var f1, f2 := PrintString(d1.name.full), PrintString(d2.name.full);
    Regroup(PrintString(TagOfDef(d1)), f1 + (a1 + b1), x1);
    Regroup(PrintString(TagOfDef(d2)), f2 + (a2 + b2), x2);
    StringPrefix(TagOfDef(d1), TagOfDef(d2), (f1 + (a1 + b1)) + x1, (f2 + (a2 + b2)) + x2);
    Regroup(f1, a1 + b1, x1);
    Regroup(f2, a2 + b2, x2);
    StringPrefix(d1.name.full, d2.name.full, (a1 + b1) + x1, (a2 + b2) + x2);
    Regroup(a1, b1, x1);
    Regroup(a2, b2, x2);
    StringsPrefix(d1.name.aliases, d2.name.aliases, b1 + x1, b2 + x2);
  }

  lemma {:induction false} FieldsDecode(g: Graph, fs1: seq<Field>, fs2: seq<Field>, m1: Seen, m2: Seen, x1: Bytes, x2: Bytes)
    requires DeclaredGraph(g) && InStep(m1, m2) && |fs1| == |fs2|
    requires (forall f | f in fs1 :: Declared(f.typ, |g|)) && (forall f | f in fs2 :: Declared(f.typ, |g|))
    requires PrintFields(g, fs1, m1).data + x1 == PrintFields(g, fs2, m2).data + x2
    ensures Agree(g, m1, m2, PrintFields(g, fs1, m1), PrintFields(g, fs2, m2), x1, x2)
    ensures SameFields(fs1, fs2, PrintFields(g, fs1, m1).seen, PrintFields(g, fs2, m2).seen)
    decreases Unseen(g, m1), 3, |fs1|
  {
    if fs1 == [] {
      assert [] + x1 == x1 && [] + x2 == x2;
    } else {
      var f1, f2 := fs1[0], fs2[0];
      var p1, p2 := Print(g, f1.typ, m1), Print(g, f2.typ, m2);
      var r1, r2 := PrintFields(g, fs1[1..], p1.seen), PrintFields(g, fs2[1..], p2.seen);
      UnseenShrinks(g, m1, p1.seen);
      FieldHeadDecodes(f1, f2, p1.data + r1.data, p2.data + r2.data, x1, x2);
      Regroup(p1.data, r1.data, x1);
      Regroup(p2.data, r2.data, x2);
      PrintDecodes(g, f1.typ, f2.typ, m1, m2, r1.data + x1, r2.data + x2);
      FieldsDecode(g, fs1[1..], fs2[1..], p1.seen, p2.seen, x1, x2);
      BisimilarChain(g, m1, m2, p1.seen, p2.seen, r1.seen, r2.seen);
      SameGrows(f1.typ, f2.typ, p1.seen, p2.seen, r1.seen, r2.seen);
      ConsFields(fs1, fs2, r1.seen, r2.seen);
    }
  }

  lemma ConsFields(fs1: seq<Field>, fs2: seq<Field>, m1: Seen, m2: Seen)
    requires |fs1| == |fs2| && fs1 != [] && SameField(fs1[0], fs2[0], m1, m2)
    requires SameFields(fs1[1..], fs2[1..], m1, m2)
    ensures SameFields(fs1, fs2, m1, m2)
  {
    forall k | 0 <= k < |fs1| ensures SameField(fs1[k], fs2[k], m1, m2) {
      if k > 0 {
        assert fs1[1..][k - 1] == fs1[k] && fs2[1..][k - 1] == fs2[k];
      }
    }
  }

  lemma FieldHeadDecodes(f1: Field, f2: Field, b1: Bytes, b2: Bytes, x1: Bytes, x2: Bytes)
    requires (PrintString(f1.name) + (PrintStrings(f1.aliases) + (PrintFlag(f1.def.Some?) + b1))) + x1
          == (PrintString(f2.name) + (PrintStrings(f2.aliases) + (PrintFlag(f2.def.Some?) + b2))) + x2
    ensures f1.name == f2.name && f1.aliases == f2.aliases && (f1.def.Some? <==> f2.def.Some?)
    ensures b1 + x1 == b2 + x2
  {
    var n1, n2 := PrintString(f1.name), PrintString(f2.name);
    var a1, a2 := PrintStrings(f1.aliases), PrintStrings(f2.aliases);
    var h1, h2 := PrintFlag(f1.def.Some?), PrintFlag(f2.def.Some?);
    Regroup(n1, a1 + (h1 + b1), x1);
    Regroup(n2, a2 + (h2 + b2), x2);
    StringPrefix(f1.name, f2.name, (a1 + (h1 + b1)) + x1, (a2 + (h2 + b2)) + x2);
    Regroup(a1, h1 + b1, x1);
    Regroup(a2, h2 + b2, x2);
    StringsPrefix(f1.aliases, f2.aliases, (h1 + b1) + x1, (h2 + b2) + x2);
    Regroup(h1, b1, x1);
    Regroup(h2, b2, x2);
    FlagPrefix(f1.def.Some?, f2.def.Some?, b1 + x1, b2 + x2);
  }

  // --- isomorphic graphs print the same ---

  /** A one-to-one pairing of definitions under which paired definitions agree. */
  ghost predicate Pairing(g: Graph, p1: Seen, p2: Seen) {
    && Numbered(p1) && Numbered(p2)
    && forall i: nat, j: nat | Paired(p1, p2, i, j) ::
         i < |g| && j < |g| && SameDef(g[i], g[j], p1, p2)
  }

  /** Two runs number paired definitions alike. */
  ghost predicate Alike(p1: Seen, p2: Seen, m1: Seen, m2: Seen) {
    && InStep(m1, m2)
    && forall i: nat, j: nat | Paired(p1, p2, i, j) ::
         (i in m1 <==> j in m2) && (i in m1 ==> m1[i] == m2[j])
  }

  /** The two schemas have isomorphic graphs. */
  ghost predicate Isomorphic(g: Graph, s1: Schema, s2: Schema) {
    exists p1: Seen, p2: Seen :: Pairing(g, p1, p2) && Same(s1, s2, p1, p2)
  }

  ghost predicate SamePrint(p1: Seen, p2: Seen, r1: Printed, r2: Printed) {
    r1.data == r2.data && Alike(p1, p2, r1.seen, r2.seen)
  }

  lemma {:induction false} PrintSame(g: Graph, s1: Schema, s2: Schema, p1: Seen, p2: Seen, m1: Seen, m2: Seen)
    requires DeclaredGraph(g) && Declared(s1, |g|) && Declared(s2, |g|)
    requires Pairing(g, p1, p2) && Alike(p1, p2, m1, m2) && Same(s1, s2, p1, p2)
    ensures SamePrint(p1, p2, Print(g, s1, m1), Print(g, s2, m2))
    decreases Unseen(g, m1), 2, s1, 0
  {
    match s1
    case Null =>
    case Primitive(_, _, _) =>
    case Array(items) => PrintSame(g, items, s2.items, p1, p2, m1, m2);
    case Map(values) => PrintSame(g, values, s2.values, p1, p2, m1, m2);
    case Union(types, _) => TypesSame(g, types, s2.types, p1, p2, m1, m2);
    case Named(id) => NodeSame(g, id, s2.id, p1, p2, m1, m2);
    case Ref(id) => NodeSame(g, id, s2.id, p1, p2, m1, m2);
  }

  lemma {:induction false} TypesSame(g: Graph, ts1: seq<Schema>, ts2: seq<Schema>, p1: Seen, p2: Seen, m1: Seen, m2: Seen)
    requires DeclaredGraph(g) && Pairing(g, p1, p2) && Alike(p1, p2, m1, m2) && |ts1| == |ts2|
    requires (forall t | t in ts1 :: Declared(t, |g|)) && (forall t | t in ts2 :: Declared(t, |g|))
    requires forall k :: 0 <= k < |ts1| ==> Same(ts1[k], ts2[k], p1, p2)
    ensures SamePrint(p1, p2, PrintTypes(g, ts1, m1), PrintTypes(g, ts2, m2))
    decreases Unseen(g, m1), 2, ts1, 1
  {
    if ts1 != [] {
      var f1, f2 := Print(g, ts1[0], m1), Print(g, ts2[0], m2);
      PrintSame(g, ts1[0], ts2[0], p1, p2, m1, m2);
      UnseenShrinks(g, m1, f1.seen);
      TypesSame(g, ts1[1..], ts2[1..], p1, p2, f1.seen, f2.seen);
    }
  }

  lemma {:induction false} NodeSame(g: Graph, i: nat, j: nat, p1: Seen, p2: Seen, m1: Seen, m2: Seen)
    requires DeclaredGraph(g) && i < |g| && j < |g|
    requires Pairing(g, p1, p2) && Alike(p1, p2, m1, m2) && Paired(p1, p2, i, j)
    ensures SamePrint(p1, p2, PrintNode(g, i, m1), PrintNode(g, j, m2))
    decreases Unseen(g, m1), 1
  {
    if i !in m1 {
      var n := |m1| + 1;
      UnseenNext(g, m1, i, n);
      NumberNext(m1, i);
      NumberNext(m2, j);
      assert Alike(p1, p2, m1[i := n], m2[j := n]);
      DefSame(g, g[i], g[j], p1, p2, m1[i := n], m2[j := n]);
    }
  }

  lemma {:induction false} DefSame(g: Graph, d1: Def, d2: Def, p1: Seen, p2: Seen, m1: Seen, m2: Seen)
    requires DeclaredGraph(g) && DeclaredDef(d1, |g|) && DeclaredDef(d2, |g|)
    requires Pairing(g, p1, p2) && Alike(p1, p2, m1, m2) && SameDef(d1, d2, p1, p2)
    ensures SamePrint(p1, p2, PrintDef(g, d1, m1), PrintDef(g, d2, m2))
    decreases Unseen(g, m1), 4
  {
    if d1.Record? {
      FieldsSame(g, d1.fields, d2.fields, p1, p2, m1, m2);
    }
  }

  lemma {:induction false} FieldsSame(g: Graph, fs1: seq<Field>, fs2: seq<Field>, p1: Seen, p2: Seen, m1: Seen, m2: Seen)
    requires DeclaredGraph(g) && Pairing(g, p1, p2) && Alike(p1, p2, m1, m2)
    requires (forall f | f in fs1 :: Declared(f.typ, |g|)) && (forall f | f in fs2 :: Declared(f.typ, |g|))
    requires SameFields(fs1, fs2, p1, p2)
    ensures SamePrint(p1, p2, PrintFields(g, fs1, m1), PrintFields(g, fs2, m2))
    decreases Unseen(g, m1), 3, |fs1|
  {
    if fs1 != [] {
      assert SameField(fs1[0], fs2[0], p1, p2);
      var f1, f2 := Print(g, fs1[0].typ, m1), Print(g, fs2[0].typ, m2);
      PrintSame(g, fs1[0].typ, fs2[0].typ, p1, p2, m1, m2);
      UnseenShrinks(g, m1, f1.seen);
      forall k | 0 <= k < |fs1[1..]| ensures SameField(fs1[1..][k], fs2[1..][k], p1, p2) {
        assert SameField(fs1[k + 1], fs2[k + 1], p1, p2);
      }
      FieldsSame(g, fs1[1..], fs2[1..], p1, p2, f1.seen, f2.seen);
    }
  }

  /** Two schemas have the same fingerprint data exactly when their graphs are isomorphic. */
  lemma FingerprintExact(g: Graph, s1: Schema, s2: Schema)
    requires DeclaredGraph(g) && Declared(s1, |g|) && Declared(s2, |g|)
    ensures Fingerprint(g, s1) == Fingerprint(g, s2) <==> Isomorphic(g, s1, s2)
  {
    if Fingerprint(g, s1) == Fingerprint(g, s2) {
      PrintDecodes(g, s1, s2, map[], map[], [], []);
      var p1, p2 := Print(g, s1, map[]).seen, Print(g, s2, map[]).seen;
      assert Pairing(g, p1, p2) && Same(s1, s2, p1, p2);
    }
    if Isomorphic(g, s1, s2) {
      var p1: Seen, p2: Seen :| Pairing(g, p1, p2) && Same(s1, s2, p1, p2);
      PrintSame(g, s1, s2, p1, p2, map[], map[]);
    }
  }
}
