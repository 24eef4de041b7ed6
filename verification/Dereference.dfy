/** Rewriting a schema so that each name is defined where it first occurs and referenced elsewhere. */
module Dereference {
  import opened Schemas
  import opened Finite

  // --- what a one-pass reader needs ---

  datatype Verdict = Verdict(ok: bool, seen: set<nat>)

  function Unseen(g: Graph, seen: set<nat>): nat {
    Left(|g|, seen)
  }

  /**
   * In pre-order a definition comes before every reference and never again: `ok` says so, and
   * `seen` collects the ids defined.
   */
  function Once(g: Graph, s: Schema, seen: set<nat>): (v: Verdict)
    ensures seen <= v.seen
    decreases Unseen(g, seen), 1, s
  {
    match s
    case Array(items) => Once(g, items, seen)
    case Map(values) => Once(g, values, seen)
    case Union(types, _) => OnceEach(g, types, seen)
    case Named(id) => if id >= |g| || id in seen then Verdict(false, seen) else OnceDef(g, id, seen)
    case Ref(id) => Verdict(id in seen, seen)
    case _ => Verdict(true, seen)
  }

  function OnceDef(g: Graph, id: nat, seen: set<nat>): (v: Verdict)
    requires id < |g| && id !in seen
    ensures seen + {id} <= v.seen
    decreases Unseen(g, seen), 0
  {
    LeftShrinks(|g|, seen, seen + {id});
    if g[id].Record? then OnceFields(g, g[id].fields, seen + {id}) else Verdict(true, seen + {id})
  }

  function OnceEach(g: Graph, types: seq<Schema>, seen: set<nat>): (v: Verdict)
    ensures seen <= v.seen
    decreases Unseen(g, seen), 1, types
  {
    if types == [] then Verdict(true, seen)
    else
      var first := Once(g, types[0], seen);
      LeftShrinks(|g|, seen, first.seen);
      var rest := OnceEach(g, types[1..], first.seen);
      Verdict(first.ok && rest.ok, rest.seen)
  }

  function OnceFields(g: Graph, fields: seq<Field>, seen: set<nat>): (v: Verdict)
    ensures seen <= v.seen
    decreases Unseen(g, seen), 2, |fields|
  {
    if fields == [] then Verdict(true, seen)
    else
      var first := Once(g, fields[0].typ, seen);
      LeftShrinks(|g|, seen, first.seen);
      var rest := OnceFields(g, fields[1..], first.seen);
      Verdict(first.ok && rest.ok, rest.seen)
  }

  // --- only records met on the way matter ---

  ghost predicate AgreeOn(g: Graph, h: Graph, ids: set<nat>) {
    |g| == |h| && forall id | id in ids && id < |g| :: g[id] == h[id]
  }

  lemma {:induction false} OnceFrame(g: Graph, h: Graph, s: Schema, seen: set<nat>)
    requires AgreeOn(g, h, Once(g, s, seen).seen - seen)
    ensures Once(h, s, seen) == Once(g, s, seen)
    decreases Unseen(g, seen), 1, s
  {
    match s
    case Array(items) => OnceFrame(g, h, items, seen);
    case Map(values) => OnceFrame(g, h, values, seen);
    case Union(types, _) => OnceEachFrame(g, h, types, seen);
    case Named(id) =>
      if id < |g| && id !in seen {
        assert id in OnceDef(g, id, seen).seen - seen;
        if g[id].Record? {
          LeftShrinks(|g|, seen, seen + {id});
          OnceFieldsFrame(g, h, g[id].fields, seen + {id});
        }
      }
    case _ =>
  }

  lemma {:induction false} OnceEachFrame(g: Graph, h: Graph, types: seq<Schema>, seen: set<nat>)
    requires AgreeOn(g, h, OnceEach(g, types, seen).seen - seen)
    ensures OnceEach(h, types, seen) == OnceEach(g, types, seen)
    decreases Unseen(g, seen), 1, types
  {
    if types != [] {
      var first := Once(g, types[0], seen);
      LeftShrinks(|g|, seen, first.seen);
      OnceFrame(g, h, types[0], seen);
      OnceEachFrame(g, h, types[1..], first.seen);
    }
  }

  lemma {:induction false} OnceFieldsFrame(g: Graph, h: Graph, fields: seq<Field>, seen: set<nat>)
    requires AgreeOn(g, h, OnceFields(g, fields, seen).seen - seen)
    ensures OnceFields(h, fields, seen) == OnceFields(g, fields, seen)
    decreases Unseen(g, seen), 2, |fields|
  {
    if fields != [] {
      var first := Once(g, fields[0].typ, seen);
      LeftShrinks(|g|, seen, first.seen);
      OnceFrame(g, h, fields[0].typ, seen);
      OnceFieldsFrame(g, h, fields[1..], first.seen);
    }
  }

  lemma {:induction false} OnceEachAppend(g: Graph, types: seq<Schema>, s: Schema, seen: set<nat>)
    ensures var first := OnceEach(g, types, seen);
            var last := Once(g, s, first.seen);
            OnceEach(g, types + [s], seen) == Verdict(first.ok && last.ok, last.seen)
    decreases |types|
  {
    if types == [] {
      assert types + [s] == [s] && [s][1..] == [];
    } else {
      assert (types + [s])[1..] == types[1..] + [s];
      OnceEachAppend(g, types[1..], s, Once(g, types[0], seen).seen);
    }
  }

  lemma {:induction false} OnceFieldsAppend(g: Graph, fields: seq<Field>, f: Field, seen: set<nat>)
    ensures var first := OnceFields(g, fields, seen);
            var last := Once(g, f.typ, first.seen);
            OnceFields(g, fields + [f], seen) == Verdict(first.ok && last.ok, last.seen)
    decreases |fields|
  {
    if fields == [] {
      assert fields + [f] == [f] && [f][1..] == [];
    } else {
      assert (fields + [f])[1..] == fields[1..] + [f];
      OnceFieldsAppend(g, fields[1..], f, Once(g, fields[0].typ, seen).seen);
    }
  }

  // --- nothing else changes ---

  /** A schema with references and definitions not told apart. */
  function Plain(s: Schema): Schema {
    match s
    case Array(items) => Array(Plain(items))
    case Map(values) => Map(Plain(values))
    case Union(types, plans) => Union(PlainEach(types), plans)
    case Ref(id) => Named(id)
    case _ => s
  }

  function PlainEach(types: seq<Schema>): (r: seq<Schema>)
    ensures |r| == |types| && forall i :: 0 <= i < |r| ==> r[i] == Plain(types[i])
  {
    if types == [] then [] else [Plain(types[0])] + PlainEach(types[1..])
  }

  function PlainField(f: Field): Field {
    f.(typ := Plain(f.typ))
  }

  ghost predicate SameDef(d: Def, e: Def) {
    if d.Record? && e.Record? then
      && d.name == e.name && |d.fields| == |e.fields|
      && forall k :: 0 <= k < |d.fields| ==> PlainField(d.fields[k]) == PlainField(e.fields[k])
    else d == e
  }

  ghost predicate SameGraph(g: Graph, h: Graph) {
    |g| == |h| && forall id :: 0 <= id < |g| ==> SameDef(g[id], h[id])
  }

  // --- the walk ---

  /** A full name denotes one node. */
  ghost predicate UniqueNames(g: Graph) {
    forall i, j :: 0 <= i < j < |g| ==> g[i].name.full != g[j].name.full
  }

  ghost predicate InGraph(s: Schema, n: nat) {
    match s
    case Array(items) => InGraph(items, n)
    case Map(values) => InGraph(values, n)
    case Union(types, _) => forall t | t in types :: InGraph(t, n)
    case Named(id) => id < n
    case Ref(id) => id < n
    case _ => true
  }

  ghost predicate ClosedDef(d: Def, n: nat) {
    d.Record? ==> forall k :: 0 <= k < |d.fields| ==> InGraph(d.fields[k].typ, n)
  }

  ghost predicate ClosedIds(g: Graph) {
    forall id :: 0 <= id < |g| ==> ClosedDef(g[id], |g|)
  }

  lemma {:induction false} PlainInGraph(s: Schema, t: Schema, n: nat)
    requires InGraph(s, n) && Plain(s) == Plain(t)
    ensures InGraph(t, n)
    decreases s
  {
    match s
    case Array(items) => PlainInGraph(items, t.items, n);
    case Map(values) => PlainInGraph(values, t.values, n);
    case Union(types, _) =>
      forall x | x in t.types
        ensures InGraph(x, n)
      {
        var i :| 0 <= i < |t.types| && t.types[i] == x;
        assert PlainEach(types)[i] == PlainEach(t.types)[i];
        PlainInGraph(types[i], x, n);
      }
    case _ =>
  }

  lemma SameGraphTrans(a: Graph, b: Graph, c: Graph)
    requires SameGraph(a, b) && SameGraph(b, c)
    ensures SameGraph(a, c)
  {
    forall id | 0 <= id < |a|
      ensures SameDef(a[id], c[id])
    {
      assert SameDef(a[id], b[id]) && SameDef(b[id], c[id]);
    }
  }

  lemma SameGraphSelf(g: Graph)
    ensures SameGraph(g, g)
  {
  }

  lemma AgreeOnTrans(a: Graph, b: Graph, c: Graph, ids: set<nat>, ids': set<nat>)
    requires AgreeOn(a, b, ids) && AgreeOn(b, c, ids') && ids <= ids'
    ensures AgreeOn(a, c, ids)
  {
  }

  /** One field retyped, the record otherwise as it was. */
  function Retyped(g: Graph, id: nat, k: nat, typ: Schema): Graph
    requires id < |g| && g[id].Record? && k < |g[id].fields|
  {
    var fields := g[id].fields;
    g[id := g[id].(fields := fields[k := fields[k].(typ := typ)])]
  }

  lemma RetypedSame(g: Graph, id: nat, k: nat, typ: Schema)
    requires id < |g| && g[id].Record? && k < |g[id].fields| && Plain(typ) == Plain(g[id].fields[k].typ)
    requires ClosedIds(g) && UniqueNames(g)
    ensures SameGraph(g, Retyped(g, id, k, typ)) && ClosedIds(Retyped(g, id, k, typ)) && UniqueNames(Retyped(g, id, k, typ))
  {
    var h := Retyped(g, id, k, typ);
    assert ClosedDef(g[id], |g|);
    PlainInGraph(g[id].fields[k].typ, typ, |g|);
    forall i | 0 <= i < |h|
      ensures SameDef(g[i], h[i]) && ClosedDef(h[i], |h|)
    {
      assert ClosedDef(g[i], |g|);
    }
  }

  lemma RecordFields(g: Graph, id: nat)
    requires ClosedIds(g) && id < |g| && g[id].Record?
    ensures forall k :: 0 <= k < |g[id].fields| ==> InGraph(g[id].fields[k].typ, |g|)
  {
    assert ClosedDef(g[id], |g|);
  }

  lemma StartWalk(g: Graph, ids: set<nat>)
    ensures SameGraph(g, g) && AgreeOn(g, g, ids)
  {
  }

  lemma UnseenStill(a: Graph, b: Graph, ids: set<nat>, ids': set<nat>)
    requires |a| == |b| && ids <= ids'
    ensures Unseen(b, ids') <= Unseen(a, ids)
  {
    LeftShrinks(|a|, ids, ids');
  }

  /** What was walked before stays walked when the walk goes on elsewhere. */
  lemma KeptEach(a: Graph, ids: set<nat>, b: Graph, ids': set<nat>, c: Graph, r: seq<Schema>)
    requires SameGraph(a, b) && AgreeOn(a, b, ids) && SameGraph(b, c) && AgreeOn(b, c, ids') && ids <= ids'
    requires OnceEach(b, r, ids) == Verdict(true, ids')
    ensures SameGraph(a, c) && AgreeOn(a, c, ids)
    ensures OnceEach(c, r, ids) == Verdict(true, ids')
  {
    SameGraphTrans(a, b, c);
    AgreeOnTrans(a, b, c, ids, ids');
    OnceEachFrame(b, c, r, ids);
  }

  lemma AgreeOnFewer(a: Graph, b: Graph, ids: set<nat>, id: nat)
    requires AgreeOn(a, b, (ids + {id}) - {id}) && id !in ids
    ensures AgreeOn(a, b, ids)
  {
    assert (ids + {id}) - {id} == ids;
  }

  lemma AgainOnce(g: Graph, id: nat, ids: set<nat>)
    requires id in ids
    ensures Once(g, Ref(id), ids) == Verdict(true, ids)
  {
  }

  lemma FirstOnce(g: Graph, id: nat, ids: set<nat>, ids': set<nat>)
    requires id < |g| && id !in ids
    requires if g[id].Record? then OnceFields(g, g[id].fields, ids + {id}) == Verdict(true, ids') else ids' == ids + {id}
    ensures Once(g, Named(id), ids) == Verdict(true, ids')
  {
    hide OnceFields;
  }

  lemma OtherNames(g: Graph, id: nat)
    requires UniqueNames(g) && id < |g|
    ensures forall i :: 0 <= i < |g| && i != id ==> g[i].name.full != g[id].name.full
  {
  }

  lemma NoField(g: Graph, ids: set<nat>, fields: seq<Field>)
    ensures OnceFields(g, fields[..0], ids) == Verdict(true, ids)
  {
  }

  /** Retyping field `k` of a record in progress to what walking it gave. */
  lemma FieldWalked(ids: set<nat>, b: Graph, ids': set<nat>, c: Graph, ids'': set<nat>, id: nat, k: nat, typ: Schema)
    requires id in ids && id < |b| && |b| == |c| && b[id].Record? && c[id] == b[id] && k < |b[id].fields|
    requires ids <= ids' <= ids'' && AgreeOn(b, c, ids')
    requires OnceFields(b, b[id].fields[..k], ids) == Verdict(true, ids')
    requires Once(c, typ, ids') == Verdict(true, ids'')
    ensures OnceFields(Retyped(c, id, k, typ), Retyped(c, id, k, typ)[id].fields[..k + 1], ids) == Verdict(true, ids'')
  {
    hide Once, OnceFields;
    var front := b[id].fields[..k];
    var f := b[id].fields[k].(typ := typ);
    var d := Retyped(c, id, k, typ);
    OnceFieldsFrame(b, c, front, ids);
    OnceFieldsAppend(c, front, f, ids);
    OnceFieldsFrame(c, d, front + [f], ids);
    assert d[id].fields[..k + 1] == front + [f];
  }

  class Dereferencer {
    var g: Graph
    var seen: set<Text>
    ghost var ids: set<nat>

    constructor (g: Graph)
      requires UniqueNames(g) && ClosedIds(g)
      ensures this.g == g && ids == {} && Valid()
    {
      this.g, seen, ids := g, {}, {};
    }

    /** The names seen are those of the nodes defined so far. */
    ghost predicate Valid()
      reads this
    {
      && UniqueNames(g) && ClosedIds(g)
      && forall id :: 0 <= id < |g| ==> (g[id].name.full in seen <==> id in ids)
    }

    /**
     * Rewrites a schema in pre-order: the first occurrence of a name becomes its definition,
     * the others references.
     */
    method Walk(s: Schema) returns (r: Schema)
      requires Valid() && InGraph(s, |g|)
      modifies this
      ensures Valid() && SameGraph(old(g), g) && AgreeOn(old(g), g, old(ids)) && old(ids) <= ids
      ensures Plain(r) == Plain(s) && Once(g, r, old(ids)) == Verdict(true, ids)
      decreases Unseen(g, ids), 1, s, 1
    {
      match s
      case Array(items) =>
        r := Walk(items);
        r := Array(r);
      case Map(values) =>
        r := Walk(values);
        r := Map(r);
      case Union(types, plans) =>
        var types' := WalkEach(types);
        r := Union(types', plans);
      case Named(id) => r := WalkNamed(id);
      case Ref(id) => r := WalkNamed(id);
      case _ =>
        SameGraphSelf(g);
        r := s;
    }

    method WalkNamed(id: nat) returns (r: Schema)
      requires Valid() && id < |g|
      modifies this
      ensures Valid() && SameGraph(old(g), g) && AgreeOn(old(g), g, old(ids)) && old(ids) <= ids
      ensures Plain(r) == Named(id) && Once(g, r, old(ids)) == Verdict(true, ids)
      decreases Unseen(g, ids), 0
    {
      hide Once, SameGraph, Valid, OnceFields, AgreeOn;
      StartWalk(g, ids);
      if Met(id) {
        AgainOnce(g, id, ids);
        return Ref(id);
      }
      ghost var before, first := g, ids;
      LeftShrinks(|g|, ids, ids + {id});
      Define(id);
      if g[id].Record? {
        WalkFields(id);
        AgreeOnFewer(before, g, first, id);
      }
      FirstOnce(g, id, first, ids);
      r := Named(id);
    }

    predicate Met(id: nat)
      requires Valid() && id < |g|
      reads this
      ensures Met(id) <==> id in ids
    {
      g[id].name.full in seen
    }

    method Define(id: nat)
      requires Valid() && id < |g| && id !in ids
      modifies this`seen, this`ids
      ensures Valid() && ids == old(ids) + {id}
    {
      OtherNames(g, id);
      seen, ids := seen + {g[id].name.full}, ids + {id};
    }

    /** The branches of a union, in order. */
    method WalkEach(types: seq<Schema>) returns (r: seq<Schema>)
      requires Valid() && forall t | t in types :: InGraph(t, |g|)
      modifies this
      ensures Valid() && SameGraph(old(g), g) && AgreeOn(old(g), g, old(ids)) && old(ids) <= ids
      ensures PlainEach(r) == PlainEach(types) && OnceEach(g, r, old(ids)) == Verdict(true, ids)
      decreases Unseen(g, ids), 1, types, 0
    {
      hide Once, SameGraph, AgreeOn, Valid, InGraph, Plain;
      r := [];
      StartWalk(g, ids);
      assert OnceEach(g, [], ids) == Verdict(true, ids);
      for k := 0 to |types|
        invariant Valid() && SameGraph(old(g), g) && AgreeOn(old(g), g, old(ids)) && old(ids) <= ids && |g| == |old(g)|
        invariant |r| == k && forall i :: 0 <= i < k ==> Plain(r[i]) == Plain(types[i])
        invariant OnceEach(g, r, old(ids)) == Verdict(true, ids)
      {
        ghost var before, defined := g, ids;
        UnseenStill(old(g), before, old(ids), ids);
        var t := Walk(types[k]);
        KeptEach(old(g), old(ids), before, defined, g, r);
        OnceEachAppend(g, r, t, old(ids));
        r := r + [t];
      }
      assert PlainEach(r) == PlainEach(types);
    }

    /** The fields of a record just defined, retyped in place. */
    method WalkFields(id: nat)
      requires Valid() && id < |g| && g[id].Record? && id in ids
      modifies this
      ensures Valid() && SameGraph(old(g), g) && AgreeOn(old(g), g, old(ids) - {id}) && old(ids) <= ids
      ensures |g| == |old(g)| && g[id].Record? && OnceFields(g, g[id].fields, old(ids)) == Verdict(true, ids)
      decreases Unseen(g, ids), 2
    {
      hide Once, OnceFields, SameGraph, SameDef, InGraph, Plain, ClosedIds, ClosedDef, UniqueNames;
      StartWalk(g, ids);
      NoField(g, ids, g[id].fields);
      ghost var start, first := g, ids;
      for k := 0 to |g[id].fields|
        invariant Valid() && SameGraph(start, g) && AgreeOn(start, g, first - {id}) && first <= ids && |g| == |start|
        invariant g[id].Record? && |g[id].fields| == |start[id].fields|
        invariant OnceFields(g, g[id].fields[..k], first) == Verdict(true, ids)
      {
        ghost var before, defined := g, ids;
        UnseenStill(start, before, first, ids);
        RecordFields(g, id);
        var typ := Walk(g[id].fields[k].typ);
        assert g[id] == before[id];
        FieldWalked(first, before, defined, g, ids, id, k, typ);
        RetypedSame(g, id, k, typ);
        SameGraphTrans(start, before, g);
        SameGraphTrans(start, g, Retyped(g, id, k, typ));
        g := Retyped(g, id, k, typ);
      }
      assert g[id].fields[..|g[id].fields|] == g[id].fields;
    }
  }

  /**
   * Dereferencing terminates on every cyclic graph whose full names denote one node each, and
   * leaves each name defined exactly once, where pre-order first meets it, with references
   * everywhere else and nothing else changed.
   */
  method DerefSchema(g: Graph, s: Schema) returns (g': Graph, s': Schema)
    requires UniqueNames(g) && ClosedIds(g) && InGraph(s, |g|)
    ensures SameGraph(g, g') && Plain(s') == Plain(s)
    ensures Once(g', s', {}).ok
  {
    var d := new Dereferencer(g);
    s' := d.Walk(s);
    g' := d.g;
  }
}
