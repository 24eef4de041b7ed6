/** The compatibility check: a recursion with an active set decides the greatest fixpoint. */
module Checking {
  import opened Wire
  import opened Schemas
  import opened Fingerprints
  import opened Compatibility

  // --- the finite universe of schemas a check can meet ---

  function Subs(s: Schema): set<Schema> {
    match s
    case Array(items) => {s} + Subs(items)
    case Map(values) => {s} + Subs(values)
    case Union(types, _) => {s} + AllSubs(types)
    case _ => {s}
  }

  function AllSubs(types: seq<Schema>): set<Schema> {
    if types == [] then {} else Subs(types[0]) + AllSubs(types[1..])
  }

  function FieldSubs(fields: seq<Field>): set<Schema> {
    if fields == [] then {} else Subs(fields[0].typ) + FieldSubs(fields[1..])
  }

  function GraphSubs(g: Graph, n: nat): set<Schema>
    requires n <= |g|
  {
    if n == 0 then {}
    else GraphSubs(g, n - 1) + {Named(n - 1)} + if g[n - 1].Record? then FieldSubs(g[n - 1].fields) else {}
  }

  function Universe(g: Graph, r: Schema, w: Schema): set<Schema> {
    Subs(r) + Subs(w) + GraphSubs(g, |g|)
  }

  ghost predicate ClosedUnder(u: set<Schema>, s: Schema) {
    match s
    case Array(items) => items in u
    case Map(values) => values in u
    case Union(types, _) => forall t | t in types :: t in u
    case _ => true
  }

  /** Declared schemas, closed under taking parts and under following ids. */
  ghost predicate Closed(g: Graph, u: set<Schema>) {
    && (forall s | s in u :: Declared(s, |g|) && ClosedUnder(u, s))
    && (forall id: nat | id < |g| :: Named(id) in u)
    && (forall id, f | 0 <= id < |g| && g[id].Record? && f in g[id].fields :: f.typ in u)
  }

  lemma {:induction false} SubsClosed(s: Schema, n: nat)
    requires Declared(s, n)
    ensures s in Subs(s)
    ensures forall t | t in Subs(s) :: Declared(t, n) && ClosedUnder(Subs(s), t)
    decreases s
  {
    match s
    case Array(items) => SubsClosed(items, n);
    case Map(values) => SubsClosed(values, n);
    case Union(types, _) => AllSubsClosed(types, n);
    case _ =>
  }

  lemma {:induction false} AllSubsClosed(types: seq<Schema>, n: nat)
    requires forall t | t in types :: Declared(t, n)
    ensures forall t | t in types :: t in AllSubs(types)
    ensures forall t | t in AllSubs(types) :: Declared(t, n) && ClosedUnder(AllSubs(types), t)
    decreases types
  {
    if types != [] {
      SubsClosed(types[0], n);
      AllSubsClosed(types[1..], n);
      assert types == [types[0]] + types[1..];
    }
  }

  lemma {:induction false} FieldSubsClosed(fields: seq<Field>, n: nat)
    requires forall f | f in fields :: Declared(f.typ, n)
    ensures forall f | f in fields :: f.typ in FieldSubs(fields)
    ensures forall t | t in FieldSubs(fields) :: Declared(t, n) && ClosedUnder(FieldSubs(fields), t)
    decreases |fields|
  {
    if fields != [] {
      SubsClosed(fields[0].typ, n);
      FieldSubsClosed(fields[1..], n);
      assert fields == [fields[0]] + fields[1..];
    }
  }

  lemma {:induction false} GraphSubsClosed(g: Graph, n: nat)
    requires DeclaredGraph(g) && n <= |g|
    ensures forall t | t in GraphSubs(g, n) :: Declared(t, |g|) && ClosedUnder(GraphSubs(g, n), t)
    ensures forall id: nat | id < n :: Named(id) in GraphSubs(g, n)
    ensures forall id, f | 0 <= id < n && g[id].Record? && f in g[id].fields :: f.typ in GraphSubs(g, n)
    decreases n
  {
    if n > 0 {
      GraphSubsClosed(g, n - 1);
      if g[n - 1].Record? {
        FieldSubsClosed(g[n - 1].fields, |g|);
      }
    }
  }

  lemma UniverseClosed(g: Graph, r: Schema, w: Schema)
    requires DeclaredGraph(g) && Declared(r, |g|) && Declared(w, |g|)
    ensures Closed(g, Universe(g, r, w))
    ensures r in Universe(g, r, w) && w in Universe(g, r, w)
  {
    SubsClosed(r, |g|);
    SubsClosed(w, |g|);
    GraphSubsClosed(g, |g|);
  }

  ghost predicate Inside(u: set<Schema>, p: Pair) {
    p.0 in u && p.1 in u
  }

  /** The rules lead only to pairs of the universe. */
  lemma MatchWithin(g: Graph, u: set<Schema>, p: Pair)
    requires DeclaredGraph(g) && Closed(g, u) && Inside(u, p)
    ensures forall q | q in Match(g, p).pairs :: Inside(u, q)
  {
    var r, w := Deref(p.0), Deref(p.1);
    assert r in u && w in u;
    assert ClosedUnder(u, r) && ClosedUnder(u, w);
    if r.Named? && w.Named? && g[r.id].Record? && g[w.id].Record? {
      RecordGoalWithin(g[r.id].fields, g[w.id].fields, u);
    }
  }

  lemma RecordGoalWithin(rs: seq<Field>, ws: seq<Field>, u: set<Schema>)
    requires forall f | f in rs :: f.typ in u
    requires forall f | f in ws :: f.typ in u
    ensures forall q | q in RecordGoal(rs, ws).pairs :: Inside(u, q)
  {
    var matched := MatchFields(Labels(rs), Labels(ws), {});
    if matched.Some? {
      MatchFieldsBounds(Labels(rs), Labels(ws), {});
      FieldGoalWithin(rs, ws, matched.value, u);
    }
  }

  lemma {:induction false} FieldGoalWithin(rs: seq<Field>, ws: seq<Field>, matched: seq<Option<nat>>, u: set<Schema>)
    requires |matched| == |rs|
    requires Bounded(matched, |ws|)
    requires forall f | f in rs :: f.typ in u
    requires forall f | f in ws :: f.typ in u
    ensures forall q | q in FieldGoal(rs, ws, matched).pairs :: Inside(u, q)
    decreases |rs|
  {
    if rs != [] && (matched[0].Some? || rs[0].def.Some?) {
      FieldGoalWithin(rs[1..], ws, matched[1..], u);
    }
  }

  // --- the recursion ---

  ghost function Keys(g: Graph, u: set<Schema>): set<Key>
    requires DeclaredGraph(g) && Closed(g, u)
  {
    set r, w | r in u && w in u :: KeyOf(g, (r, w))
  }

  ghost function Budget(g: Graph, u: set<Schema>, active: set<Key>): nat
    requires DeclaredGraph(g) && Closed(g, u)
  {
    |Keys(g, u) - active|
  }

  lemma BudgetDrops(g: Graph, u: set<Schema>, active: set<Key>, p: Pair)
    requires DeclaredGraph(g) && Closed(g, u) && Inside(u, p)
    requires DeclaredPair(g, p) && KeyOf(g, p) !in active
    ensures Budget(g, u, active + {KeyOf(g, p)}) < Budget(g, u, active)
  {
    var k := KeyOf(g, p);
    assert p == (p.0, p.1);
    assert k in Keys(g, u);
    assert Keys(g, u) - active == (Keys(g, u) - (active + {k})) + {k};
  }

  /** The check without its memo: a pair whose key is active is taken for granted. */
  function Accepts(g: Graph, ghost u: set<Schema>, active: set<Key>, p: Pair): bool
    requires DeclaredGraph(g) && Closed(g, u) && Inside(u, p)
    decreases Budget(g, u, active), 1, 0
  {
    var key := KeyOf(g, p);
    if key in active then true
    else
      BudgetDrops(g, u, active, p);
      MatchWithin(g, u, p);
      match Match(g, p)
      case All(pairs, last) => AcceptsAll(g, u, active + {key}, pairs) && last
      case Any(pairs) => AcceptsAny(g, u, active + {key}, pairs)
  }

  predicate AcceptsAll(g: Graph, ghost u: set<Schema>, active: set<Key>, pairs: seq<Pair>)
    requires DeclaredGraph(g) && Closed(g, u) && forall p | p in pairs :: Inside(u, p)
    decreases Budget(g, u, active), 2, |pairs|
  {
    pairs == [] || (Accepts(g, u, active, pairs[0]) && AcceptsAll(g, u, active, pairs[1..]))
  }

  predicate AcceptsAny(g: Graph, ghost u: set<Schema>, active: set<Key>, pairs: seq<Pair>)
    requires DeclaredGraph(g) && Closed(g, u) && forall p | p in pairs :: Inside(u, p)
    decreases Budget(g, u, active), 2, |pairs|
  {
    pairs != [] && (Accepts(g, u, active, pairs[0]) || AcceptsAny(g, u, active, pairs[1..]))
  }

  // --- equal keys, equal verdicts ---

  /** Two schemas with one fingerprint. */
  ghost predicate Twin(g: Graph, s: Schema, t: Schema)
    requires DeclaredGraph(g)
  {
    Declared(s, |g|) && Declared(t, |g|) && Fingerprint(g, s) == Fingerprint(g, t)
  }

  ghost predicate TwinField(g: Graph, f: Field, f': Field)
    requires DeclaredGraph(g)
  {
    && f.name == f'.name && f.aliases == f'.aliases
    && (f.def.Some? <==> f'.def.Some?)
    && Twin(g, f.typ, f'.typ)
  }

  ghost predicate TwinFields(g: Graph, fs: seq<Field>, fs': seq<Field>)
    requires DeclaredGraph(g)
  {
    |fs| == |fs'| && forall k :: 0 <= k < |fs| ==> TwinField(g, fs[k], fs'[k])
  }

  ghost predicate TwinTypes(g: Graph, ts: seq<Schema>, ts': seq<Schema>)
    requires DeclaredGraph(g)
  {
    |ts| == |ts'| && forall k :: 0 <= k < |ts| ==> Twin(g, ts[k], ts'[k])
  }

  ghost predicate TwinDef(g: Graph, d: Def, d': Def)
    requires DeclaredGraph(g)
  {
    && d.name == d'.name
    && match d
       case Record(_, fields) => d'.Record? && TwinFields(g, fields, d'.fields)
       case Enum(_, symbols, def, _) =>
         d'.Enum? && symbols == d'.symbols && (def.Some? <==> d'.def.Some?)
       case Fixed(_, size, logical) =>
         d'.Fixed? && size == d'.size && SameDecimal(logical, d'.logical)
  }

  /** A schema graph seen from a part of it is again isomorphic. */
  lemma IsoTwin(g: Graph, s: Schema, t: Schema, p1: Seen, p2: Seen)
    requires DeclaredGraph(g) && Declared(s, |g|) && Declared(t, |g|)
    requires Pairing(g, p1, p2) && Same(s, t, p1, p2)
    ensures Twin(g, s, t)
  {
    FingerprintExact(g, s, t);
  }

  lemma IsoTwinDef(g: Graph, i: nat, j: nat, p1: Seen, p2: Seen)
    requires DeclaredGraph(g) && i < |g| && j < |g|
    requires Pairing(g, p1, p2) && Paired(p1, p2, i, j)
    ensures TwinDef(g, g[i], g[j])
  {
    if g[i].Record? {
      var fs, fs' := g[i].fields, g[j].fields;
      forall k | 0 <= k < |fs| ensures TwinField(g, fs[k], fs'[k]) {
        assert SameField(fs[k], fs'[k], p1, p2);
        IsoTwin(g, fs[k].typ, fs'[k].typ, p1, p2);
      }
    }
  }

  /** Equal fingerprints see through references. */
  lemma TwinDeref(g: Graph, s: Schema, t: Schema)
    requires DeclaredGraph(g) && Twin(g, s, t)
    ensures TypeOf(g, s) == TypeOf(g, t) && DecimalOf(g, s) == DecimalOf(g, t)
    ensures Twin(g, Deref(s), Deref(t))
  {
    FingerprintExact(g, s, t);
    var p1: Seen, p2: Seen :| Pairing(g, p1, p2) && Same(s, t, p1, p2);
    IsoTwin(g, Deref(s), Deref(t), p1, p2);
    IsoKind(g, s, t, p1, p2);
  }

  lemma IsoKind(g: Graph, s: Schema, t: Schema, p1: Seen, p2: Seen)
    requires DeclaredGraph(g) && Declared(s, |g|) && Declared(t, |g|)
    requires Pairing(g, p1, p2) && Same(s, t, p1, p2)
    ensures TypeOf(g, s) == TypeOf(g, t) && DecimalOf(g, s) == DecimalOf(g, t)
  {
    hide SameFields, ValidDecimal;
    if s.Named? || s.Ref? {
      assert SameDef(g[s.id], g[t.id], p1, p2);
    }
  }

  /** Equal fingerprints are inherited by corresponding parts. */
  lemma TwinParts(g: Graph, s: Schema, t: Schema)
    requires DeclaredGraph(g) && Twin(g, s, t) && !s.Ref? && !t.Ref?
    ensures match s
            case Array(items) => t.Array? && Twin(g, items, t.items)
            case Map(values) => t.Map? && Twin(g, values, t.values)
            case Union(types, _) => t.Union? && TwinTypes(g, types, t.types)
            case Named(id) => t.Named? && TwinDef(g, g[id], g[t.id])
            case Primitive(kind, _, _) => t.Primitive? && t.kind == kind
            case _ => t == s
  {
    FingerprintExact(g, s, t);
    var p1: Seen, p2: Seen :| Pairing(g, p1, p2) && Same(s, t, p1, p2);
    match s
    case Array(items) => IsoTwin(g, items, t.items, p1, p2);
    case Map(values) => IsoTwin(g, values, t.values, p1, p2);
    case Union(types, _) =>
      forall k | 0 <= k < |types| ensures Twin(g, types[k], t.types[k]) {
        IsoTwin(g, types[k], t.types[k], p1, p2);
      }
    case Named(id) => IsoTwinDef(g, id, t.id, p1, p2);
    case _ =>
  }

  /** Goals that differ only in which of several schemas with one key they name. */
  ghost predicate SameGoal(g: Graph, a: Goal, b: Goal)
    requires DeclaredGraph(g)
  {
    && (a.All? <==> b.All?)
    && (a.All? ==> a.last == b.last)
    && |a.pairs| == |b.pairs|
    && forall i :: 0 <= i < |a.pairs| ==> SameKey(g, a.pairs[i], b.pairs[i])
  }

  ghost predicate SameKey(g: Graph, p: Pair, q: Pair)
    requires DeclaredGraph(g)
  {
    Twin(g, p.0, q.0) && Twin(g, p.1, q.1)
  }

  lemma {:induction false} FieldGoalSame(g: Graph, rs: seq<Field>, rs': seq<Field>, ws: seq<Field>, ws': seq<Field>,
                                         matched: seq<Option<nat>>)
    requires DeclaredGraph(g) && TwinFields(g, rs, rs') && TwinFields(g, ws, ws')
    requires |matched| == |rs| && Bounded(matched, |ws|)
    ensures SameGoal(g, FieldGoal(rs, ws, matched), FieldGoal(rs', ws', matched))
    decreases |rs|
  {
    if rs != [] {
      TwinTail(g, rs, rs');
      FieldGoalSame(g, rs[1..], rs'[1..], ws, ws', matched[1..]);
      assert TwinField(g, rs[0], rs'[0]);
      if matched[0].Some? {
        var i := matched[0].value;
        assert TwinField(g, ws[i], ws'[i]);
        SameGoalCons(g, (rs[0].typ, ws[i].typ), (rs'[0].typ, ws'[i].typ),
                     FieldGoal(rs[1..], ws, matched[1..]), FieldGoal(rs'[1..], ws', matched[1..]));
      }
    }
  }

  lemma TwinTail(g: Graph, fs: seq<Field>, fs': seq<Field>)
    requires DeclaredGraph(g) && TwinFields(g, fs, fs') && fs != []
    ensures TwinFields(g, fs[1..], fs'[1..])
  {
    forall k | 0 <= k < |fs[1..]| ensures TwinField(g, fs[1..][k], fs'[1..][k]) {
      assert TwinField(g, fs[k + 1], fs'[k + 1]);
    }
  }

  lemma SameGoalCons(g: Graph, p: Pair, q: Pair, a: Goal, b: Goal)
    requires DeclaredGraph(g) && SameKey(g, p, q) && SameGoal(g, a, b) && a.All?
    ensures SameGoal(g, All([p] + a.pairs, a.last), All([q] + b.pairs, b.last))
  {
    var ps, qs := [p] + a.pairs, [q] + b.pairs;
    forall i | 0 <= i < |ps| ensures SameKey(g, ps[i], qs[i]) {
      if i > 0 {
        assert SameKey(g, a.pairs[i - 1], b.pairs[i - 1]);
      }
    }
  }

  lemma LabelsSame(g: Graph, fs: seq<Field>, fs': seq<Field>)
    requires DeclaredGraph(g) && TwinFields(g, fs, fs')
    ensures Labels(fs) == Labels(fs')
  {
    forall i | 0 <= i < |fs| ensures Labels(fs)[i] == Labels(fs')[i] {
      assert TwinField(g, fs[i], fs'[i]);
    }
  }

  lemma DefGoalSame(g: Graph, r: Def, r': Def, w: Def, w': Def)
    requires DeclaredGraph(g) && TwinDef(g, r, r') && TwinDef(g, w, w')
    ensures SameGoal(g, DefGoal(r, w), DefGoal(r', w'))
  {
    if r.Record? && w.Record? {
      LabelsSame(g, r.fields, r'.fields);
      LabelsSame(g, w.fields, w'.fields);
      var matched := MatchFields(Labels(r.fields), Labels(w.fields), {});
      if matched.Some? {
        MatchFieldsBounds(Labels(r.fields), Labels(w.fields), {});
        FieldGoalSame(g, r.fields, r'.fields, w.fields, w'.fields, matched.value);
      }
    }
  }

  /** The rules treat pairs with equal keys alike. */
  lemma MatchSame(g: Graph, p: Pair, q: Pair)
    requires DeclaredGraph(g) && SameKey(g, p, q)
    ensures SameGoal(g, Match(g, p), Match(g, q))
  {
    TwinDeref(g, p.0, q.0);
    TwinDeref(g, p.1, q.1);
    DerefMatch(g, p);
    DerefMatch(g, q);
    var r, w, r', w' := Deref(p.0), Deref(p.1), Deref(q.0), Deref(q.1);
    TwinDeref(g, r, r');
    TwinDeref(g, w, w');
    if !DecimalsAgree(g, r, w) {
    } else if TypeOf(g, r) != TypeOf(g, w) {
      UnlikeSame(g, r, w, r', w');
    } else {
      LikeSame(g, r, w, r', w');
    }
  }

  lemma UnlikeSame(g: Graph, r: Schema, w: Schema, r': Schema, w': Schema)
    requires DeclaredGraph(g) && Twin(g, r, r') && Twin(g, w, w')
    requires !r.Ref? && !w.Ref? && !r'.Ref? && !w'.Ref?
    requires DecimalsAgree(g, r, w) && TypeOf(g, r) != TypeOf(g, w)
    requires DecimalsAgree(g, r', w') && TypeOf(g, r') != TypeOf(g, w')
    ensures SameGoal(g, Match(g, (r, w)), Match(g, (r', w')))
  {
    TwinParts(g, r, r');
    TwinParts(g, w, w');
  }

  lemma LikeSame(g: Graph, r: Schema, w: Schema, r': Schema, w': Schema)
    requires DeclaredGraph(g) && Twin(g, r, r') && Twin(g, w, w')
    requires !r.Ref? && !w.Ref? && !r'.Ref? && !w'.Ref?
    requires DecimalsAgree(g, r, w) && TypeOf(g, r) == TypeOf(g, w)
    requires DecimalsAgree(g, r', w') && TypeOf(g, r') == TypeOf(g, w')
    ensures SameGoal(g, Match(g, (r, w)), Match(g, (r', w')))
  {
    TwinParts(g, r, r');
    TwinParts(g, w, w');
    if r.Named? && w.Named? {
      DefGoalSame(g, g[r.id], g[r'.id], g[w.id], g[w'.id]);
    }
  }

  lemma DerefMatch(g: Graph, p: Pair)
    requires DeclaredPair(g, p)
    ensures Match(g, p) == Match(g, (Deref(p.0), Deref(p.1)))
  {
  }

  // --- the recursion decides the fixpoint ---

  ghost function Greatest(g: Graph, assumed: set<Key>): iset<Pair>
    requires DeclaredGraph(g)
  {
    iset p: Pair | Fixpoint(g, assumed, p)
  }

  lemma HoldsMonotone(goal: Goal, x: iset<Pair>, y: iset<Pair>)
    requires Holds(goal, x) && x <= y
    ensures Holds(goal, y)
  {
  }

  /** The fixpoint is itself consistent: it is the greatest such relation. */
  lemma FixpointConsistent(g: Graph, assumed: set<Key>)
    requires DeclaredGraph(g)
    ensures Consistent(g, Greatest(g, assumed), assumed)
  {
    var y := Greatest(g, assumed);
    forall p | p in y
      ensures DeclaredPair(g, p) && (KeyOf(g, p) in assumed || Holds(Match(g, p), y))
    {
      var x: iset<Pair> :| p in x && Consistent(g, x, assumed);
      assert x <= y;
      if KeyOf(g, p) !in assumed {
        HoldsMonotone(Match(g, p), x, y);
      }
    }
  }

  lemma FixpointGrows(g: Graph, a: set<Key>, b: set<Key>)
    requires DeclaredGraph(g) && a <= b
    ensures Greatest(g, a) <= Greatest(g, b)
  {
    forall p | p in Greatest(g, a) ensures p in Greatest(g, b) {
      var x: iset<Pair> :| p in x && Consistent(g, x, a);
      assert Consistent(g, x, b);
    }
  }

  ghost predicate KeyIn(g: Graph, x: iset<Pair>, b: Pair)
    requires DeclaredGraph(g)
  {
    exists a :: a in x && SameKey(g, a, b)
  }

  /** The fixpoint cannot tell apart pairs with equal keys. */
  lemma FixpointByKey(g: Graph, assumed: set<Key>, p: Pair, q: Pair)
    requires DeclaredGraph(g) && SameKey(g, p, q) && Fixpoint(g, assumed, p)
    ensures Fixpoint(g, assumed, q)
  {
    var x: iset<Pair> :| p in x && Consistent(g, x, assumed);
    var y: iset<Pair> := iset b: Pair | KeyIn(g, x, b);
    forall b | b in y
      ensures DeclaredPair(g, b) && (KeyOf(g, b) in assumed || Holds(Match(g, b), y))
    {
      var a :| a in x && SameKey(g, a, b);
      if KeyOf(g, a) !in assumed {
        MatchSame(g, a, b);
        HoldsSame(g, Match(g, a), Match(g, b), x, y);
      }
    }
    assert Consistent(g, y, assumed);
  }

  lemma HoldsSame(g: Graph, a: Goal, b: Goal, x: iset<Pair>, y: iset<Pair>)
    requires DeclaredGraph(g) && SameGoal(g, a, b) && Holds(a, x)
    requires forall p, q | p in x && SameKey(g, p, q) :: q in y
    ensures Holds(b, y)
  {
    match a
    case All(pairs, _) =>
      forall q | q in b.pairs ensures q in y {
        var i :| 0 <= i < |b.pairs| && b.pairs[i] == q;
        assert pairs[i] in x && SameKey(g, pairs[i], q);
      }
    case Any(pairs) =>
      var p :| p in pairs && p in x;
      var i :| 0 <= i < |pairs| && pairs[i] == p;
      assert SameKey(g, p, b.pairs[i]) && b.pairs[i] in b.pairs;
  }

  /** A pair whose goal holds in the greatest relation belongs to it. */
  lemma FixpointAdd(g: Graph, p: Pair)
    requires DeclaredGraph(g) && DeclaredPair(g, p) && Holds(Match(g, p), Greatest(g, {}))
    ensures Compatible(g, p)
  {
    var y := Greatest(g, {});
    FixpointConsistent(g, {});
    var x := y + iset{p};
    forall q | q in x
      ensures DeclaredPair(g, q) && Holds(Match(g, q), x)
    {
      HoldsMonotone(Match(g, q), y, x);
    }
    assert Consistent(g, x, {});
  }

  /** One step of the recursion: assuming the pair itself changes nothing. */
  lemma Accumulate(g: Graph, assumed: set<Key>, p: Pair)
    requires DeclaredGraph(g) && DeclaredPair(g, p) && KeyOf(g, p) !in assumed
    ensures Fixpoint(g, assumed, p) <==> Holds(Match(g, p), Greatest(g, assumed + {KeyOf(g, p)}))
  {
    var k := KeyOf(g, p);
    var y := Greatest(g, assumed + {k});
    if Fixpoint(g, assumed, p) {
      FixpointConsistent(g, assumed);
      FixpointGrows(g, assumed, assumed + {k});
      assert p in Greatest(g, assumed);
      HoldsMonotone(Match(g, p), Greatest(g, assumed), y);
    }
    if Holds(Match(g, p), y) {
      FixpointConsistent(g, assumed + {k});
      var x := y + iset{p};
      forall q | q in x
        ensures DeclaredPair(g, q) && (KeyOf(g, q) in assumed || Holds(Match(g, q), x))
      {
        if KeyOf(g, q) == k {
          MatchSame(g, p, q);
          forall a, b | a in y && SameKey(g, a, b) ensures b in y {
            FixpointByKey(g, assumed + {k}, a, b);
          }
          HoldsSame(g, Match(g, p), Match(g, q), y, y);
          HoldsMonotone(Match(g, q), y, x);
        } else if KeyOf(g, q) !in assumed {
          HoldsMonotone(Match(g, q), y, x);
        }
      }
      assert Consistent(g, x, assumed);
    }
  }

  lemma {:induction false} AcceptsExact(g: Graph, u: set<Schema>, active: set<Key>, p: Pair)
    requires DeclaredGraph(g) && Closed(g, u) && Inside(u, p)
    ensures Accepts(g, u, active, p) <==> Fixpoint(g, active, p)
    decreases Budget(g, u, active), 1, 0
  {
    var key := KeyOf(g, p);
    if key in active {
      assert Consistent(g, iset{p}, active);
    } else {
      BudgetDrops(g, u, active, p);
      MatchWithin(g, u, p);
      Accumulate(g, active, p);
      var pairs := Match(g, p).pairs;
      PairsExact(g, u, active + {key}, pairs);
    }
  }

  lemma {:induction false} PairsExact(g: Graph, u: set<Schema>, active: set<Key>, pairs: seq<Pair>)
    requires DeclaredGraph(g) && Closed(g, u) && forall p | p in pairs :: Inside(u, p)
    ensures AcceptsAll(g, u, active, pairs) <==> forall p | p in pairs :: Fixpoint(g, active, p)
    ensures AcceptsAny(g, u, active, pairs) <==> exists p | p in pairs :: Fixpoint(g, active, p)
    decreases Budget(g, u, active), 2, |pairs|
  {
    hide Fixpoint, Match, DeclaredGraph, Fingerprint;
    if pairs != [] {
      AcceptsExact(g, u, active, pairs[0]);
      PairsExact(g, u, active, pairs[1..]);
      assert pairs == [pairs[0]] + pairs[1..];
    }
  }

  /** The memo-free check of two schemas. */
  predicate Check(g: Graph, r: Schema, w: Schema)
    requires DeclaredGraph(g) && Declared(r, |g|) && Declared(w, |g|)
  {
    UniverseClosed(g, r, w);
    Accepts(g, Universe(g, r, w), {}, (r, w))
  }

  /** It terminates on every pair of cyclic schema graphs and decides compatibility. */
  lemma CheckExact(g: Graph, r: Schema, w: Schema)
    requires DeclaredGraph(g) && Declared(r, |g|) && Declared(w, |g|)
    ensures Check(g, r, w) <==> Compatible(g, (r, w))
  {
    UniverseClosed(g, r, w);
    AcceptsExact(g, Universe(g, r, w), {}, (r, w));
  }
}
