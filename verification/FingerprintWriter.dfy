/** The fingerprint writer as the program runs it: bytes appended, definitions numbered as met. */
module FingerprintWriter {
  import opened Wire
  import opened Schemas
  import opened Fingerprints

  class Writer {
    const g: Graph
    var data: Bytes
    var seen: Seen

    constructor (g: Graph)
      ensures this.g == g && data == [] && seen == map[]
    {
      this.g, data, seen := g, [], map[];
    }

    method WriteUint(n: nat)
      modifies this`data
      ensures data == old(data) + Uvarint(n)
    {
      var left := n;
      while left >= 0x80
        invariant data + Uvarint(left) == old(data) + Uvarint(n)
      {
        UvarintStep(data, left);
        data := data + [0x80 + left % 0x80];
        left := left / 0x80;
      }
      data := data + [left];
    }

    method WriteString(t: Text)
      modifies this`data
      ensures data == old(data) + PrintString(t)
    {
      WriteUint(|t|);
      Regroup(old(data), Uvarint(|t|), t);
      data := data + t;
    }

    method WriteStrings(ts: seq<Text>)
      modifies this`data
      ensures data == old(data) + PrintStrings(ts)
    {
      hide PrintString;
      WriteUint(|ts|);
      Regroup(old(data), Uvarint(|ts|), PrintAll(ts));
      for i := 0 to |ts|
        invariant data + PrintAll(ts[i..]) == old(data) + PrintStrings(ts)
      {
        assert ts[i..][0] == ts[i] && ts[i..][1..] == ts[i + 1..];
        Regroup(data, PrintString(ts[i]), PrintAll(ts[i + 1..]));
        WriteString(ts[i]);
      }
    }

    method WriteFlag(b: bool)
      modifies this`data
      ensures data == old(data) + PrintFlag(b)
    {
      if b {
        WriteUint(1);
      } else {
        WriteUint(0);
      }
    }

    method WriteDecimal(logical: Logical)
      requires MachineLogical(logical)
      modifies this`data
      ensures data == old(data) + PrintDecimal(logical)
    {
      if !logical.Decimal? {
        WriteUint(0);
        return;
      }
      Regroup(old(data) + Uvarint(1), Uvarint(Unsigned(logical.precision)), Uvarint(Unsigned(logical.scale)));
      WriteUint(1);
      WriteUint(Unsigned(logical.precision));
      WriteUint(Unsigned(logical.scale));
    }

    /** Numbers a definition when it is first met; says whether its body is still to be written. */
    method WriteDefinition(id: nat) returns (first: bool)
      requires id < |g|
      modifies this
      ensures first <==> id !in old(seen)
      ensures first ==> seen == old(seen)[id := |old(seen)| + 1]
                        && data == old(data) + PrintString(T_DEFINITION) + Uvarint(|old(seen)| + 1)
      ensures !first ==> seen == old(seen) && data == old(data) + PrintString(T_REFERENCE) + Uvarint(seen[id])
    {
      hide PrintString;
      if id in seen {
        WriteString(T_REFERENCE);
        WriteUint(seen[id]);
        return false;
      }
      var number := |seen| + 1;
      seen := seen[id := number];
      WriteString(T_DEFINITION);
      WriteUint(number);
      first := true;
    }

    /** Appends exactly the print of the schema and numbers exactly its definitions. */
    method WriteSchema(s: Schema)
      requires DeclaredGraph(g) && Declared(s, |g|)
      modifies this
      ensures seen == Print(g, s, old(seen)).seen && data == old(data) + Print(g, s, old(seen)).data
      decreases Unseen(g, seen), 2, s, 0
    {
      hide PrintString, PrintDecimal, KindText, PrintNode, PrintTypes;
      match s
      case Null => WriteString(T_NULL);
      case Primitive(kind, logical, _) =>
        Regroup4(old(data), PrintString(T_PRIMITIVE), PrintString(KindText(kind)), PrintDecimal(logical));
        WriteString(T_PRIMITIVE);
        WriteString(KindText(kind));
        WriteDecimal(logical);
      case Array(items) =>
        Regroup(old(data), PrintString(T_ARRAY), Print(g, items, old(seen)).data);
        WriteString(T_ARRAY);
        WriteSchema(items);
      case Map(values) =>
        Regroup(old(data), PrintString(T_MAP), Print(g, values, old(seen)).data);
        WriteString(T_MAP);
        WriteSchema(values);
      case Union(types, _) =>
        Regroup4(old(data), PrintString(T_UNION), Uvarint(|types|), PrintTypes(g, types, old(seen)).data);
        WriteString(T_UNION);
        WriteUint(|types|);
        WriteTypes(types);
      case Named(id) => WriteNode(id);
      case Ref(id) => WriteNode(id);
    }

    method WriteTypes(types: seq<Schema>)
      requires DeclaredGraph(g) && forall t | t in types :: Declared(t, |g|)
      modifies this
      ensures seen == PrintTypes(g, types, old(seen)).seen && data == old(data) + PrintTypes(g, types, old(seen)).data
      decreases Unseen(g, seen), 2, types, 1
    {
      hide Print, DeclaredGraph, Declared, Unseen, Numbered, Extends;
      for i := 0 to |types|
        invariant old(seen).Keys <= seen.Keys
        invariant PrintTypes(g, types[i..], seen).seen == PrintTypes(g, types, old(seen)).seen
        invariant data + PrintTypes(g, types[i..], seen).data == old(data) + PrintTypes(g, types, old(seen)).data
      {
        assert types[i..][0] == types[i] && types[i..][1..] == types[i + 1..];
        UnseenShrinks(g, old(seen), seen);
        ghost var first := Print(g, types[i], seen);
        Regroup(data, first.data, PrintTypes(g, types[i + 1..], first.seen).data);
        WriteSchema(types[i]);
      }
      assert data + [] == data;
    }

    method WriteNode(id: nat)
      requires DeclaredGraph(g) && id < |g|
      modifies this
      ensures seen == PrintNode(g, id, old(seen)).seen && data == old(data) + PrintNode(g, id, old(seen)).data
      decreases Unseen(g, seen), 1
    {
      hide PrintString, PrintDef;
      var first := WriteDefinition(id);
      if !first {
        Regroup(old(data), PrintString(T_REFERENCE), Uvarint(seen[id]));
        return;
      }
      var number := |old(seen)| + 1;
      UnseenNext(g, old(seen), id, number);
      Regroup4(old(data), PrintString(T_DEFINITION), Uvarint(number), PrintDef(g, g[id], seen).data);
      WriteDef(g[id]);
    }

    method WriteDef(def: Def)
      requires DeclaredGraph(g) && DeclaredDef(def, |g|)
      modifies this
      ensures seen == PrintDef(g, def, old(seen)).seen && data == old(data) + PrintDef(g, def, old(seen)).data
      decreases Unseen(g, seen), 4
    {
      hide PrintString, PrintStrings, PrintFields, PrintDecimal;
      match def
      case Record(name, fields) =>
        WriteHead(T_RECORD, name);
        ghost var head := data;
        WriteUint(|fields|);
        WriteFields(fields);
        Regroup(head, Uvarint(|fields|), PrintFields(g, fields, old(seen)).data);
        HeadBody(old(data), T_RECORD, name, Uvarint(|fields|) + PrintFields(g, fields, old(seen)).data);
      case Enum(name, symbols, default, _) =>
        WriteHead(T_ENUM, name);
        ghost var head := data;
        WriteStrings(symbols);
        WriteFlag(default.Some?);
        Regroup(head, PrintStrings(symbols), PrintFlag(default.Some?));
        HeadBody(old(data), T_ENUM, name, PrintStrings(symbols) + PrintFlag(default.Some?));
      case Fixed(name, size, logical) =>
        WriteHead(T_FIXED, name);
        ghost var head := data;
        WriteUint(size);
        WriteDecimal(logical);
        Regroup(head, Uvarint(size), PrintDecimal(logical));
        HeadBody(old(data), T_FIXED, name, Uvarint(size) + PrintDecimal(logical));
    }

    method WriteHead(tag: Text, name: Name)
      modifies this`data
      ensures data == ((old(data) + PrintString(tag)) + PrintString(name.full)) + PrintStrings(name.aliases)
    {
      WriteString(tag);
      WriteString(name.full);
      WriteStrings(name.aliases);
    }

    method WriteFields(fields: seq<Field>)
      requires DeclaredGraph(g) && forall f | f in fields :: Declared(f.typ, |g|)
      modifies this
      ensures seen == PrintFields(g, fields, old(seen)).seen && data == old(data) + PrintFields(g, fields, old(seen)).data
      decreases Unseen(g, seen), 3
    {
      hide Print, PrintString, PrintStrings, PrintFlag, DeclaredGraph, Declared, Unseen, Numbered, Extends;
      for i := 0 to |fields|
        invariant old(seen).Keys <= seen.Keys
        invariant PrintFields(g, fields[i..], seen).seen == PrintFields(g, fields, old(seen)).seen
        invariant data + PrintFields(g, fields[i..], seen).data == old(data) + PrintFields(g, fields, old(seen)).data
      {
        var f := fields[i];
        assert fields[i..][0] == f && fields[i..][1..] == fields[i + 1..];
        UnseenShrinks(g, old(seen), seen);
        ghost var first := Print(g, f.typ, seen);
        FieldRegroup(data, f, first.data, PrintFields(g, fields[i + 1..], first.seen).data);
        WriteString(f.name);
        WriteStrings(f.aliases);
        WriteFlag(f.def.Some?);
        WriteSchema(f.typ);
      }
      assert data + [] == data;
    }
  }

  lemma HeadBody(base: Bytes, tag: Text, name: Name, body: Bytes)
    ensures (((base + PrintString(tag)) + PrintString(name.full)) + PrintStrings(name.aliases)) + body
         == base + (PrintString(tag) + (PrintString(name.full) + (PrintStrings(name.aliases) + body)))
  {
    hide PrintString, PrintStrings;
    Regroup4(base + PrintString(tag), PrintString(name.full), PrintStrings(name.aliases), body);
    Regroup(base, PrintString(tag), PrintString(name.full) + (PrintStrings(name.aliases) + body));
  }

  lemma FieldRegroup(base: Bytes, f: Field, first: Bytes, rest: Bytes)
    ensures base + (PrintString(f.name) + (PrintStrings(f.aliases) + (PrintFlag(f.def.Some?) + (first + rest))))
         == ((((base + PrintString(f.name)) + PrintStrings(f.aliases)) + PrintFlag(f.def.Some?)) + first) + rest
  {
    hide PrintString, PrintStrings, PrintFlag;
    Regroup4(base, PrintString(f.name), PrintStrings(f.aliases), PrintFlag(f.def.Some?) + (first + rest));
    Regroup4((base + PrintString(f.name)) + PrintStrings(f.aliases), PrintFlag(f.def.Some?), first, rest);
  }

  /** The data hashed into a compatibility key. */
  method FingerprintData(g: Graph, s: Schema) returns (data: Bytes)
    requires DeclaredGraph(g) && Declared(s, |g|)
    ensures data == Fingerprint(g, s)
  {
    var w := new Writer(g);
    w.WriteSchema(s);
    data := w.data;
  }
}
