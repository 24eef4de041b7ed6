/** How deep schemas unfold, and which unfold for ever: the recursive ones. */
module Unfoldings {
  import opened Schemas
  import opened Fingerprints
  import opened Compatibility
  import opened Checking
  import Sets = Finite

  /** Following parts and ids from `s` comes to an end within `k` steps. */
  predicate Shallow(g: Graph, s: Schema, k: nat)
    requires DeclaredGraph(g) && Declared(s, |g|)
    decreases k
  {
    match s
    case Array(items) => k > 0 && Shallow(g, items, k - 1)
    case Map(values) => k > 0 && Shallow(g, values, k - 1)
    case Union(types, _) => k > 0 && forall t | t in types :: Shallow(g, t, k - 1)
    case Named(id) => ShallowDef(g, g[id], k)
    case Ref(id) => ShallowDef(g, g[id], k)
    case _ => true
  }

  predicate ShallowDef(g: Graph, d: Def, k: nat)
    requires DeclaredGraph(g) && DeclaredDef(d, |g|)
    decreases k, 0
  {
    d.Record? ==> k > 0 && forall f | f in d.fields :: Shallow(g, f.typ, k - 1)
  }

  ghost predicate Finite(g: Graph, s: Schema)
    requires DeclaredGraph(g) && Declared(s, |g|)
  {
    exists k: nat :: Shallow(g, s, k)
  }

  lemma {:induction false} ShallowMore(g: Graph, s: Schema, k: nat, n: nat)
    requires DeclaredGraph(g) && Declared(s, |g|) && k <= n && Shallow(g, s, k)
    ensures Shallow(g, s, n)
    decreases k
  {
    match s
    case Array(items) => ShallowMore(g, items, k - 1, n - 1);
    case Map(values) => ShallowMore(g, values, k - 1, n - 1);
    case Union(types, _) =>
      forall t | t in types ensures Shallow(g, t, n - 1) { ShallowMore(g, t, k - 1, n - 1); }
    case Named(id) => ShallowDefMore(g, g[id], k, n);
    case Ref(id) => ShallowDefMore(g, g[id], k, n);
    case _ =>
  }

  lemma {:induction false} ShallowDefMore(g: Graph, d: Def, k: nat, n: nat)
    requires DeclaredGraph(g) && DeclaredDef(d, |g|) && k <= n && ShallowDef(g, d, k)
    ensures ShallowDef(g, d, n)
    decreases k, 0
  {
    if d.Record? {
      forall f | f in d.fields ensures Shallow(g, f.typ, n - 1) { ShallowMore(g, f.typ, k - 1, n - 1); }
    }
  }

  /** Schemas with one fingerprint unfold equally deep. */
  lemma {:induction false} ShallowTwin(g: Graph, s: Schema, t: Schema, k: nat)
    requires DeclaredGraph(g) && Twin(g, s, t) && Shallow(g, s, k)
    ensures Shallow(g, t, k)
    decreases k, 1
  {
    hide Fingerprint, TwinDef;
    TwinDeref(g, s, t);
    var r, q := Deref(s), Deref(t);
    TwinParts(g, r, q);
    match r
    case Array(items) => ShallowTwin(g, items, q.items, k - 1);
    case Map(values) => ShallowTwin(g, values, q.values, k - 1);
    case Union(types, _) => ShallowTwinTypes(g, types, q.types, k - 1);
    case Named(id) => ShallowTwinDef(g, g[id], g[q.id], k);
    case _ =>
  }

  lemma {:induction false} ShallowTwinTypes(g: Graph, types: seq<Schema>, types': seq<Schema>, k: nat)
    requires DeclaredGraph(g) && TwinTypes(g, types, types')
    requires forall t | t in types :: Declared(t, |g|) && Shallow(g, t, k)
    ensures forall t | t in types' :: Declared(t, |g|) && Shallow(g, t, k)
    decreases k, 2
  {
    forall x | x in types' ensures Declared(x, |g|) && Shallow(g, x, k) {
      var i :| 0 <= i < |types'| && types'[i] == x;
      assert Twin(g, types[i], x) && types[i] in types;
      ShallowTwin(g, types[i], x, k);
    }
  }

  lemma {:induction false} ShallowTwinDef(g: Graph, d: Def, e: Def, k: nat)
    requires DeclaredGraph(g) && DeclaredDef(d, |g|) && DeclaredDef(e, |g|) && TwinDef(g, d, e) && ShallowDef(g, d, k)
    ensures ShallowDef(g, e, k)
    decreases k, 0
  {
    hide Shallow, Fingerprint;
    if d.Record? {
      forall f | f in e.fields ensures Shallow(g, f.typ, k - 1) {
        var i :| 0 <= i < |e.fields| && e.fields[i] == f;
        assert TwinField(g, d.fields[i], f) && d.fields[i] in d.fields;
        ShallowTwin(g, d.fields[i].typ, f.typ, k - 1);
      }
    }
  }

  lemma FiniteTwin(g: Graph, s: Schema, t: Schema)
    requires DeclaredGraph(g) && Twin(g, s, t) && Finite(g, s)
    ensures Finite(g, t)
  {
    var k: nat :| Shallow(g, s, k);
    ShallowTwin(g, s, t, k);
  }

  // --- finite is the same as not recursive ---

  /** `t` is a part of `s`: an item, value or branch, or the type of a field. */
  predicate PartOf(g: Graph, s: Schema, t: Schema)
    requires Declared(s, |g|)
  {
    match s
    case Array(items) => t == items
    case Map(values) => t == values
    case Union(types, _) => t in types
    case Named(id) => FieldTypeOf(g[id], t)
    case Ref(id) => FieldTypeOf(g[id], t)
    case _ => false
  }

  predicate FieldTypeOf(d: Def, t: Schema) {
    d.Record? && exists k :: 0 <= k < |d.fields| && d.fields[k].typ == t
  }

  /** A chain of parts, one inside the other. */
  ghost predicate Chain(g: Graph, p: seq<Schema>) {
    && (forall i :: 0 <= i < |p| ==> Declared(p[i], |g|))
    && forall i :: 0 <= i < |p| - 1 ==> PartOf(g, p[i], p[i + 1])
  }

  /** The record `id` contains itself, however indirectly. */
  ghost predicate Recursive(g: Graph, id: nat) {
    exists p :: |p| >= 2 && Chain(g, p) && IdIs(p[0], id) && IdIs(p[|p| - 1], id)
  }

  predicate IdIs(s: Schema, id: nat) {
    s == Named(id) || s == Ref(id)
  }

  ghost predicate LeadsTo(g: Graph, s: Schema, id: nat) {
    exists p :: |p| >= 1 && Chain(g, p) && p[0] == s && IdIs(p[|p| - 1], id)
  }

  ghost predicate LeadsToRecursion(g: Graph, s: Schema) {
    exists id :: LeadsTo(g, s, id) && Recursive(g, id)
  }

  lemma PartShallow(g: Graph, s: Schema, t: Schema, k: nat)
    requires DeclaredGraph(g) && Declared(s, |g|) && PartOf(g, s, t) && Shallow(g, s, k)
    ensures Declared(t, |g|) && k > 0 && Shallow(g, t, k - 1)
  {
    if s.Named? || s.Ref? {
      var i :| 0 <= i < |g[s.id].fields| && g[s.id].fields[i].typ == t;
      assert g[s.id].fields[i] in g[s.id].fields;
    }
  }

  lemma {:induction false} ChainShallow(g: Graph, p: seq<Schema>, n: nat, k: nat)
    requires DeclaredGraph(g) && Chain(g, p) && n < |p| && Shallow(g, p[0], k)
    ensures n <= k && Shallow(g, p[n], k - n)
    decreases n
  {
    if n > 0 {
      ChainShallow(g, p, n - 1, k);
      PartShallow(g, p[n - 1], p[n], k - (n - 1));
    }
  }

  /** A record that contains itself has no depth at all. */
  lemma {:induction false} RecursiveDeep(g: Graph, p: seq<Schema>, id: nat, k: nat)
    requires DeclaredGraph(g) && |p| >= 2 && Chain(g, p) && IdIs(p[0], id) && IdIs(p[|p| - 1], id)
    ensures !Shallow(g, p[0], k)
    decreases k
  {
    if Shallow(g, p[0], k) {
      var n := |p| - 1;
      ChainShallow(g, p, n, k);
      assert Shallow(g, p[0], k - n);
      RecursiveDeep(g, p, id, k - n);
    }
  }

  /** The ids of a path, no two alike, each leading on to the next and the last to `s`. */
  ghost predicate Trail(g: Graph, s: Schema, seen: set<nat>) {
    forall id | id in seen :: id < |g| && LeadsOn(g, id, s)
  }

  /** `s` lies properly inside record `id`. */
  ghost predicate LeadsOn(g: Graph, id: nat, s: Schema) {
    exists p :: |p| >= 2 && Chain(g, p) && IdIs(p[0], id) && p[|p| - 1] == s
  }

  lemma OneMore(g: Graph, id: nat, s: Schema, t: Schema)
    requires DeclaredGraph(g) && Declared(s, |g|) && Declared(t, |g|) && PartOf(g, s, t)
    ensures LeadsOn(g, id, s) ==> LeadsOn(g, id, t)
    ensures IdIs(s, id) ==> LeadsOn(g, id, t)
  {
    if LeadsOn(g, id, s) {
      var p :| |p| >= 2 && Chain(g, p) && IdIs(p[0], id) && p[|p| - 1] == s;
      ChainMore(g, p, t);
    }
    if IdIs(s, id) {
      ChainMore(g, [s], t);
    }
  }

  lemma ChainMore(g: Graph, p: seq<Schema>, t: Schema)
    requires |p| >= 1 && Chain(g, p) && Declared(t, |g|) && PartOf(g, p[|p| - 1], t)
    ensures Chain(g, p + [t]) && (p + [t])[0] == p[0] && (p + [t])[|p + [t]| - 1] == t && |p + [t]| == |p| + 1
  {
    hide PartOf, Declared;
    var q := p + [t];
    forall i | 0 <= i < |q| - 1 ensures PartOf(g, q[i], q[i + 1]) {
      assert q[i] == p[i];
      assert i < |p| - 1 ==> q[i + 1] == p[i + 1];
    }
  }

  lemma ChainFront(g: Graph, s: Schema, p: seq<Schema>)
    requires |p| >= 1 && Chain(g, p) && Declared(s, |g|) && PartOf(g, s, p[0])
    ensures Chain(g, [s] + p)
  {
    var q := [s] + p;
    forall i | 0 <= i < |q| - 1 ensures PartOf(g, q[i], q[i + 1]) {
      assert i > 0 ==> q[i] == p[i - 1];
      assert q[i + 1] == p[i];
    }
  }

  lemma LeadsThrough(g: Graph, s: Schema, t: Schema, id: nat)
    requires Declared(s, |g|) && PartOf(g, s, t) && LeadsTo(g, t, id)
    ensures LeadsTo(g, s, id)
  {
    var p :| |p| >= 1 && Chain(g, p) && p[0] == t && IdIs(p[|p| - 1], id);
    ChainFront(g, s, p);
    var q := [s] + p;
    assert q[0] == s && q[|q| - 1] == p[|p| - 1];
  }

  lemma LeadsToItself(g: Graph, s: Schema, id: nat)
    requires Declared(s, |g|) && IdIs(s, id)
    ensures LeadsTo(g, s, id)
  {
    assert Chain(g, [s]) && [s][0] == s;
  }

  /** What leads to no recursion has parts that lead to none. */
  lemma PartLeads(g: Graph, s: Schema, t: Schema)
    requires DeclaredGraph(g) && Declared(s, |g|) && PartOf(g, s, t) && !LeadsToRecursion(g, s)
    ensures !LeadsToRecursion(g, t)
  {
    if LeadsToRecursion(g, t) {
      var id :| LeadsTo(g, t, id) && Recursive(g, id);
      LeadsThrough(g, s, t, id);
    }
  }

  lemma NotSeenAgain(g: Graph, s: Schema, id: nat, seen: set<nat>)
    requires DeclaredGraph(g) && Declared(s, |g|) && IdIs(s, id) && !LeadsToRecursion(g, s) && Trail(g, s, seen)
    ensures id !in seen
  {
    LeadsToItself(g, s, id);
    if id in seen {
      InsideItself(g, s, id);
    }
  }

  lemma InsideItself(g: Graph, s: Schema, id: nat)
    requires IdIs(s, id) && LeadsOn(g, id, s)
    ensures Recursive(g, id)
  {
    var p :| |p| >= 2 && Chain(g, p) && IdIs(p[0], id) && p[|p| - 1] == s;
  }

  lemma TrailOn(g: Graph, s: Schema, t: Schema, seen: set<nat>)
    requires DeclaredGraph(g) && Declared(s, |g|) && Declared(t, |g|) && PartOf(g, s, t) && Trail(g, s, seen)
    ensures Trail(g, t, seen)
    ensures s.Named? || s.Ref? ==> Trail(g, t, seen + {s.id})
  {
    forall id | id in seen ensures LeadsOn(g, id, t) {
      OneMore(g, id, s, t);
    }
    if s.Named? || s.Ref? {
      OneMore(g, s.id, s, t);
    }
  }

  /** Each step takes a part or enters a record not entered before, so the unfolding ends. */
  lemma {:induction false} Unfolds(g: Graph, s: Schema, seen: set<nat>) returns (k: nat)
    requires DeclaredGraph(g) && Declared(s, |g|) && !LeadsToRecursion(g, s) && Trail(g, s, seen)
    ensures Shallow(g, s, k)
    decreases Sets.Left(|g|, seen), 1, s
  {
    match s
    case Array(items) =>
      PartLeads(g, s, items);
      TrailOn(g, s, items, seen);
      var n := Unfolds(g, items, seen);
      k := n + 1;
    case Map(values) =>
      PartLeads(g, s, values);
      TrailOn(g, s, values, seen);
      var n := Unfolds(g, values, seen);
      k := n + 1;
    case Union(types, _) => k := UnfoldsEach(g, s, types, seen);
    case Named(id) => k := UnfoldsRecord(g, s, id, seen);
    case Ref(id) => k := UnfoldsRecord(g, s, id, seen);
    case _ => k := 0;
  }

  lemma {:induction false} UnfoldsEach(g: Graph, s: Schema, types: seq<Schema>, seen: set<nat>) returns (k: nat)
    requires DeclaredGraph(g) && Declared(s, |g|) && !LeadsToRecursion(g, s) && Trail(g, s, seen)
    requires s.Union? && types == s.types
    ensures Shallow(g, s, k)
    decreases Sets.Left(|g|, seen), 1, types
  {
    var n := 0;
    for i := 0 to |types|
      invariant forall j :: 0 <= j < i ==> Shallow(g, types[j], n)
    {
      PartLeads(g, s, types[i]);
      TrailOn(g, s, types[i], seen);
      var m := Unfolds(g, types[i], seen);
      forall j | 0 <= j < i ensures Shallow(g, types[j], n + m) { ShallowMore(g, types[j], n, n + m); }
      ShallowMore(g, types[i], m, n + m);
      n := n + m;
    }
    k := n + 1;
  }

  lemma {:induction false} UnfoldsRecord(g: Graph, s: Schema, id: nat, seen: set<nat>) returns (k: nat)
    requires DeclaredGraph(g) && Declared(s, |g|) && !LeadsToRecursion(g, s) && Trail(g, s, seen) && IdIs(s, id)
    ensures Shallow(g, s, k)
    decreases Sets.Left(|g|, seen), 0
  {
    NotSeenAgain(g, s, id, seen);
    Sets.LeftShrinks(|g|, seen, seen + {id});
    if g[id].Record? {
      k := UnfoldsFields(g, s, id, seen + {id});
    } else {
      k := 0;
    }
  }

  lemma {:induction false} UnfoldsFields(g: Graph, s: Schema, id: nat, seen: set<nat>) returns (k: nat)
    requires DeclaredGraph(g) && Declared(s, |g|) && !LeadsToRecursion(g, s) && IdIs(s, id) && g[id].Record?
    requires Trail(g, s, seen - {id}) && id in seen
    ensures Shallow(g, s, k)
    decreases Sets.Left(|g|, seen), 2
  {
    hide PartOf, LeadsToRecursion, LeadsOn, Shallow, DeclaredGraph;
    var fields := g[id].fields;
    var n := 0;
    FieldsAreParts(g, s, id);
    for i := 0 to |fields|
      invariant forall j :: 0 <= j < i ==> Shallow(g, fields[j].typ, n)
    {
      var t := fields[i].typ;
      PartLeads(g, s, t);
      TrailOn(g, s, t, seen - {id});
      assert seen - {id} + {id} == seen;
      var m := Unfolds(g, t, seen);
      forall j | 0 <= j < i ensures Shallow(g, fields[j].typ, n + m) { ShallowMore(g, fields[j].typ, n, n + m); }
      ShallowMore(g, t, m, n + m);
      n := n + m;
    }
    RecordShallow(g, s, id, n);
    k := n + 1;
  }

  lemma FieldsAreParts(g: Graph, s: Schema, id: nat)
    requires DeclaredGraph(g) && Declared(s, |g|) && IdIs(s, id) && g[id].Record?
    ensures forall j :: 0 <= j < |g[id].fields| ==>
              Declared(g[id].fields[j].typ, |g|) && PartOf(g, s, g[id].fields[j].typ)
  {
    forall j | 0 <= j < |g[id].fields| ensures Declared(g[id].fields[j].typ, |g|) {
      assert g[id].fields[j] in g[id].fields;
    }
  }

  lemma RecordShallow(g: Graph, s: Schema, id: nat, n: nat)
    requires DeclaredGraph(g) && Declared(s, |g|) && IdIs(s, id) && g[id].Record?
    requires forall j :: 0 <= j < |g[id].fields| ==> Declared(g[id].fields[j].typ, |g|) && Shallow(g, g[id].fields[j].typ, n)
    ensures Shallow(g, s, n + 1)
  {
  }

  lemma RecursionInfinite(g: Graph, s: Schema)
    requires DeclaredGraph(g) && Declared(s, |g|) && LeadsToRecursion(g, s)
    ensures !Finite(g, s)
  {
    var id :| LeadsTo(g, s, id) && Recursive(g, id);
    var p :| |p| >= 1 && Chain(g, p) && p[0] == s && IdIs(p[|p| - 1], id);
    var q :| |q| >= 2 && Chain(g, q) && IdIs(q[0], id) && IdIs(q[|q| - 1], id);
    forall k: nat ensures !Shallow(g, s, k) {
      ToRecursionDeep(g, p, q, id, k);
    }
  }

  lemma ToRecursionDeep(g: Graph, p: seq<Schema>, q: seq<Schema>, id: nat, k: nat)
    requires DeclaredGraph(g) && |p| >= 1 && Chain(g, p) && IdIs(p[|p| - 1], id)
    requires |q| >= 2 && Chain(g, q) && IdIs(q[0], id) && IdIs(q[|q| - 1], id)
    ensures !Shallow(g, p[0], k)
  {
    hide Shallow, PartOf;
    if Shallow(g, p[0], k) {
      ChainShallow(g, p, |p| - 1, k);
      SameIdShallow(g, p[|p| - 1], q[0], id, k - (|p| - 1));
      RecursiveDeep(g, q, id, k - (|p| - 1));
    }
  }

  lemma SameIdShallow(g: Graph, s: Schema, t: Schema, id: nat, k: nat)
    requires DeclaredGraph(g) && Declared(s, |g|) && Declared(t, |g|) && IdIs(s, id) && IdIs(t, id)
    ensures Shallow(g, s, k) <==> Shallow(g, t, k)
  {
  }

  /** A schema unfolds finitely exactly when it leads to no record that contains itself. */
  lemma FiniteExact(g: Graph, s: Schema)
    requires DeclaredGraph(g) && Declared(s, |g|)
    ensures Finite(g, s) <==> !LeadsToRecursion(g, s)
  {
    hide LeadsToRecursion, Shallow;
    if LeadsToRecursion(g, s) {
      RecursionInfinite(g, s);
    }
    if !LeadsToRecursion(g, s) {
      var k := Unfolds(g, s, {});
    }
  }
}
