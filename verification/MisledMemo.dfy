/** The memo misled: wrong acceptances it stores, and the calls that then go wrong. */
module MisledMemo {
  import opened Wire
  import opened Schemas
  import opened Fingerprints
  import opened Compatibility
  import opened Checking
  import opened Memo
  import opened Meanings
  import opened BranchChoice

  // --- the pattern ---

  /**
   * `a` needs `b` and the impossible `s`, and `b` needs `a` again; `c` needs only `b`, and `d`
   * needs nothing. Primed pairs have the key of the unprimed ones.
   */
  datatype Pattern = Pattern(a: Pair, a': Pair, b: Pair, b': Pair, c: Pair, d: Pair, s: Pair)

  ghost predicate Misleading(g: Graph, m: Pattern)
    requires DeclaredGraph(g)
  {
    && DeclaredPair(g, m.a) && DeclaredPair(g, m.b) && DeclaredPair(g, m.c) && DeclaredPair(g, m.d) && DeclaredPair(g, m.s)
    && SameKey(g, m.a', m.a) && SameKey(g, m.b', m.b)
    && Match(g, m.a) == All([m.b, m.s], true)
    && Match(g, m.b) == All([m.a'], true)
    && Match(g, m.c) == All([m.b'], true)
    && Match(g, m.d) == YES
    && Match(g, m.s) == NO
  }

  ghost predicate DistinctKeys(g: Graph, m: Pattern)
    requires DeclaredGraph(g) && Misleading(g, m)
  {
    var x, y, z, w := KeyOf(g, m.a), KeyOf(g, m.b), KeyOf(g, m.c), KeyOf(g, m.s);
    x != y && x != z && x != w && y != z && y != w && z != w
  }

  /** A pair with a key of its own. */
  ghost predicate Apart(g: Graph, top: Pair, m: Pattern)
    requires DeclaredGraph(g) && Misleading(g, m) && DeclaredPair(g, top)
  {
    KeyOf(g, top) !in {KeyOf(g, m.a), KeyOf(g, m.b), KeyOf(g, m.c), KeyOf(g, m.s)}
  }

  ghost predicate AllInside(u: set<Schema>, m: Pattern) {
    && Inside(u, m.a) && Inside(u, m.a') && Inside(u, m.b) && Inside(u, m.b')
    && Inside(u, m.c) && Inside(u, m.d) && Inside(u, m.s)
  }

  /** Of all these only `d` is compatible. */
  lemma PatternTruth(g: Graph, m: Pattern)
    requires DeclaredGraph(g) && Misleading(g, m)
    ensures !Compatible(g, m.a) && !Compatible(g, m.b) && !Compatible(g, m.c) && Compatible(g, m.d)
  {
    assert m.s in Match(g, m.a).pairs && m.a' in Match(g, m.b).pairs && m.b' in Match(g, m.c).pairs;
    if Compatible(g, m.s) { CompatibleStep(g, m.s); }
    if Compatible(g, m.a) { CompatibleStep(g, m.a); }
    if Compatible(g, m.b) {
      CompatibleStep(g, m.b);
      FixpointByKey(g, {}, m.a', m.a);
    }
    if Compatible(g, m.c) {
      CompatibleStep(g, m.c);
      FixpointByKey(g, {}, m.b', m.b);
    }
    FixpointAdd(g, m.d);
  }

  lemma FirstOf(g: Graph, u: set<Schema>, cache: Cache, active: set<Key>, p: Pair, rest: seq<Pair>)
    requires DeclaredGraph(g) && Closed(g, u) && Inside(u, p) && forall q | q in rest :: Inside(u, q)
    ensures var v := Cached(g, u, cache, active, p);
            && CachedAll(g, u, cache, active, [p] + rest)
               == (if v.ok then CachedAll(g, u, v.cache, active, rest) else v)
            && CachedAny(g, u, cache, active, [p] + rest)
               == (if v.ok then v else CachedAny(g, u, v.cache, active, rest))
  {
    var pairs := [p] + rest;
    assert pairs[0] == p && pairs[1..] == rest;
  }

  /** A pair whose one requirement is active is accepted and stored. */
  lemma AcceptedOnTrust(g: Graph, u: set<Schema>, cache: Cache, active: set<Key>, p: Pair, q: Pair)
    requires DeclaredGraph(g) && Closed(g, u) && Inside(u, p) && Inside(u, q)
    requires Match(g, p) == All([q], true)
    requires KeyOf(g, p) !in cache && KeyOf(g, p) !in active
    requires KeyOf(g, q) in active && KeyOf(g, q) !in cache
    ensures Cached(g, u, cache, active, p) == Verdict(true, cache[KeyOf(g, p) := true])
  {
    assert [q] == [q] + [];
    FirstOf(g, u, cache, active + {KeyOf(g, p)}, q, []);
  }

  lemma RejectedAtOnce(g: Graph, u: set<Schema>, cache: Cache, active: set<Key>, p: Pair)
    requires DeclaredGraph(g) && Closed(g, u) && Inside(u, p) && Match(g, p) == NO
    requires KeyOf(g, p) !in cache && KeyOf(g, p) !in active
    ensures Cached(g, u, cache, active, p) == Verdict(false, cache[KeyOf(g, p) := false])
  {
    assert CachedAll(g, u, cache, active + {KeyOf(g, p)}, []) == Verdict(true, cache);
  }

  /** Two requirements, the first accepted: the verdict is that of the second. */
  lemma SecondDecides(g: Graph, u: set<Schema>, cache: Cache, active: set<Key>, p: Pair, q: Pair, r: Pair)
    requires DeclaredGraph(g) && Closed(g, u) && Inside(u, p) && Inside(u, q) && Inside(u, r)
    requires Match(g, p) == All([q, r], true)
    requires KeyOf(g, p) !in cache && KeyOf(g, p) !in active
    requires Cached(g, u, cache, active + {KeyOf(g, p)}, q).ok
    ensures var v := Cached(g, u, cache, active + {KeyOf(g, p)}, q);
            var w := Cached(g, u, v.cache, active + {KeyOf(g, p)}, r);
            Cached(g, u, cache, active, p) == Verdict(w.ok, w.cache[KeyOf(g, p) := w.ok])
  {
    hide Match;
    assert [q, r] == [q] + [r] && [r] == [r] + [];
    FirstOf(g, u, cache, active + {KeyOf(g, p)}, q, [r]);
    FirstOf(g, u, Cached(g, u, cache, active + {KeyOf(g, p)}, q).cache, active + {KeyOf(g, p)}, r, []);
  }

  /** The run on `a`: it is rejected, and `b` stays stored as accepted. */
  lemma RunOnA(g: Graph, u: set<Schema>, active: set<Key>, m: Pattern)
    requires DeclaredGraph(g) && Closed(g, u) && Misleading(g, m) && DistinctKeys(g, m) && AllInside(u, m)
    requires KeyOf(g, m.a) !in active && KeyOf(g, m.b) !in active && KeyOf(g, m.s) !in active
    ensures var v := Cached(g, u, map[], active, m.a);
            && !v.ok && v.cache.Keys == {KeyOf(g, m.a), KeyOf(g, m.b), KeyOf(g, m.s)}
            && !v.cache[KeyOf(g, m.a)] && v.cache[KeyOf(g, m.b)]
  {
    hide Match;
    var active' := active + {KeyOf(g, m.a)};
    AcceptedOnTrust(g, u, map[], active', m.b, m.a');
    RejectedAtOnce(g, u, map[KeyOf(g, m.b) := true], active', m.s);
    SecondDecides(g, u, map[], active, m.a, m.b, m.s);
  }

  /** A pair whose one requirement is already stored as accepted is accepted. */
  lemma AcceptedOnRecord(g: Graph, u: set<Schema>, cache: Cache, active: set<Key>, p: Pair, q: Pair)
    requires DeclaredGraph(g) && Closed(g, u) && Inside(u, p) && Inside(u, q)
    requires Match(g, p) == All([q], true)
    requires KeyOf(g, p) !in cache && KeyOf(g, p) !in active
    requires KeyOf(g, q) in cache && cache[KeyOf(g, q)]
    ensures Cached(g, u, cache, active, p) == Verdict(true, cache[KeyOf(g, p) := true])
  {
    hide Match;
    assert [q] == [q] + [];
    FirstOf(g, u, cache, active + {KeyOf(g, p)}, q, []);
  }

  /**
   * A choice that begins with `a` and `c` is accepted because of `c`, on a memo that rejects
   * `a` and accepts `c`, whatever further branches there are.
   */
  lemma RunOnChoice(g: Graph, u: set<Schema>, top: Pair, m: Pattern, more: seq<Pair>)
    requires DeclaredGraph(g) && Closed(g, u) && Misleading(g, m) && DistinctKeys(g, m) && AllInside(u, m)
    requires Inside(u, top) && Match(g, top) == Any([m.a] + ([m.c] + more)) && forall q | q in more :: Inside(u, q)
    requires Apart(g, top, m)
    ensures var v := Cached(g, u, map[], {}, top);
            && v.ok && KeyOf(g, m.a) in v.cache && !v.cache[KeyOf(g, m.a)]
            && KeyOf(g, m.c) in v.cache && v.cache[KeyOf(g, m.c)]
  {
    hide Match;
    var active := {} + {KeyOf(g, top)};
    RunOnA(g, u, active, m);
    var v := Cached(g, u, map[], active, m.a);
    AcceptedOnRecord(g, u, v.cache, active, m.c, m.b');
    FirstOf(g, u, map[], active, m.a, [m.c] + more);
    FirstOf(g, u, v.cache, active, m.c, more);
    StoredLast(g, u, map[], top);
  }

  lemma StoredLast(g: Graph, u: set<Schema>, cache: Cache, p: Pair)
    requires DeclaredGraph(g) && Closed(g, u) && Inside(u, p) && KeyOf(g, p) !in cache && Match(g, p).Any?
    requires forall q | q in Match(g, p).pairs :: Inside(u, q)
    ensures var v := CachedAny(g, u, cache, {} + {KeyOf(g, p)}, Match(g, p).pairs);
            Cached(g, u, cache, {}, p) == Verdict(v.ok, v.cache[KeyOf(g, p) := v.ok])
  {
  }

  /** A stored verdict is the answer. */
  lemma Recalled(g: Graph, u: set<Schema>, cache: Cache, p: Pair)
    requires DeclaredGraph(g) && Closed(g, u) && Inside(u, p) && KeyOf(g, p) in cache
    ensures Cached(g, u, cache, {}, p) == Verdict(cache[KeyOf(g, p)], cache)
  {
  }

  // --- such schemas exist ---

  const STRING: Schema := Primitive(StringKind, NoLogical, None)
  const INT: Schema := Primitive(Int, NoLogical, None)

  predicate IsRecord(d: Def, name: Text, names: seq<Text>, types: seq<Schema>)
    requires |names| == |types|
  {
    && d.Record? && d.name == Name(name, []) && |d.fields| == |names|
    && forall i :: 0 <= i < |names| ==> d.fields[i] == Field(names[i], [], types[i], None, Keep)
  }

  /**
   * Readers x.A {b: x.B, x: string}, x.B {a: x.A}, y.A {b: x.B} and z.A {}; writers
   * A {b: B, x: int} and B {a: A}.
   */
  predicate Namespaced(g: Graph) {
    && |g| == 6
    && IsRecord(g[0], [120, 46, 65], [[98], [120]], [Named(1), STRING])
    && IsRecord(g[1], [120, 46, 66], [[97]], [Ref(0)])
    && IsRecord(g[2], [65], [[98], [120]], [Named(3), INT])
    && IsRecord(g[3], [66], [[97]], [Ref(2)])
    && IsRecord(g[4], [121, 46, 65], [[98]], [Ref(1)])
    && IsRecord(g[5], [122, 46, 65], [], [])
  }

  const A: Pair := (Named(0), Named(2))
  const B: Pair := (Named(1), Named(3))
  const C: Pair := (Named(4), Named(2))
  const D: Pair := (Named(5), Named(2))
  const NAMESPACED: Pattern := Pattern(A, (Ref(0), Ref(2)), B, (Ref(1), Named(3)), C, D, (STRING, INT))

  /** The union of x.A and y.A, and of all three. */
  const TWO: Schema := Union([Named(0), Named(4)], [])
  const THREE: Schema := Union([Named(0), Named(4), Named(5)], [])

  lemma OneFieldMatched(rs: seq<Field>, ws: seq<Field>)
    requires |rs| == 1 && |ws| > 0 && rs[0].aliases == [] && rs[0].name == ws[0].name
    requires forall i :: 0 < i < |ws| ==> ws[i].name != rs[0].name
    ensures MatchFields(Labels(rs), Labels(ws), {}) == Some([Some(0)])
  {
    var ls, lw := Labels(rs), Labels(ws);
    FirstName(lw, rs[0].name);
    assert MatchField(lw, ls[0]) == Found(Some(0));
    var none: seq<Option<nat>> := [];
    var matched: seq<Option<nat>> := [Some(0)];
    assert MatchFields(ls[1..], lw, {} + {0}) == Some(none);
    assert [Some(0)] + none == matched;
  }

  lemma OneFieldGoal(rs: seq<Field>, ws: seq<Field>)
    requires |rs| == 1 && |ws| > 0 && rs[0].aliases == [] && rs[0].name == ws[0].name
    requires forall i :: 0 < i < |ws| ==> ws[i].name != rs[0].name
    ensures RecordGoal(rs, ws) == All([(rs[0].typ, ws[0].typ)], true)
  {
    OneFieldMatched(rs, ws);
    var matched: seq<Option<nat>> := [Some(0)];
    assert FieldGoal(rs[1..], ws, matched[1..]) == YES;
  }

  lemma {:induction false} FirstName(writers: seq<Label>, name: Text)
    requires |writers| > 0 && writers[0].name == name
    requires forall i :: 0 < i < |writers| ==> writers[i].name != name
    ensures Lookup(writers, name) == Some(0)
  {
    if |writers| > 1 {
      FirstName(writers[..|writers| - 1], name);
    }
  }

  lemma TwoFieldsMatched(rs: seq<Field>, ws: seq<Field>)
    requires |rs| == 2 && |ws| == 2 && rs[0].aliases == [] && rs[1].aliases == []
    requires rs[0].name == ws[0].name && rs[1].name == ws[1].name && rs[0].name != rs[1].name
    ensures MatchFields(Labels(rs), Labels(ws), {}) == Some([Some(0), Some(1)])
  {
    var ls, lw := Labels(rs), Labels(ws);
    FirstName(lw, rs[0].name);
    assert MatchField(lw, ls[0]) == Found(Some(0));
    assert MatchField(lw, ls[1]) == Found(Some(1));
    var none: seq<Option<nat>> := [];
    var tail: seq<Option<nat>> := [Some(1)];
    var used := {} + {0};
    assert ls[1..][0] == ls[1] && ls[1..][1..] == [];
    assert MatchFields(ls[1..][1..], lw, used + {1}) == Some(none);
    assert [Some(1)] + none == tail;
    assert MatchFields(ls[1..], lw, used) == Some(tail);
    assert [Some(0)] + tail == [Some(0), Some(1)];
  }

  lemma TwoFieldGoal(rs: seq<Field>, ws: seq<Field>)
    requires |rs| == 2 && |ws| == 2 && rs[0].aliases == [] && rs[1].aliases == []
    requires rs[0].name == ws[0].name && rs[1].name == ws[1].name && rs[0].name != rs[1].name
    ensures RecordGoal(rs, ws) == All([(rs[0].typ, ws[0].typ), (rs[1].typ, ws[1].typ)], true)
  {
    TwoFieldsMatched(rs, ws);
    var tail: seq<Option<nat>> := [Some(1)];
    var matched: seq<Option<nat>> := [Some(0), Some(1)];
    assert matched[1..] == tail && rs[1..][0] == rs[1];
    assert FieldGoal(rs[1..][1..], ws, tail[1..]) == YES;
    var last: seq<Pair> := [(rs[1].typ, ws[1].typ)];
    assert [(rs[1].typ, ws[1].typ)] + YES.pairs == last;
    assert FieldGoal(rs[1..], ws, tail) == All(last, true);
    assert [(rs[0].typ, ws[0].typ)] + last == [(rs[0].typ, ws[0].typ), (rs[1].typ, ws[1].typ)];
  }

  lemma NamespacedDeclared(g: Graph)
    requires Namespaced(g)
    ensures DeclaredGraph(g)
  {
    forall i | 0 <= i < |g| ensures DeclaredDef(g[i], |g|) {
      PlainRecord(g[i], |g|);
    }
  }

  lemma PlainRecord(d: Def, n: nat)
    requires d.Record?
    requires forall i :: 0 <= i < |d.fields| ==>
               d.fields[i].aliases == [] && d.fields[i].action.Keep? && Declared(d.fields[i].typ, n)
    requires forall i, j :: 0 <= i < j < |d.fields| ==> d.fields[i].name != d.fields[j].name
    ensures DeclaredDef(d, n)
  {
  }

  /** The local part of a name of one letter, alone or in a namespace of one letter. */
  lemma LocalName(c: byte, n: byte)
    requires c != DOT
    ensures AfterLastDot([c]) == [c] && AfterLastDot([n, DOT, c]) == [c]
  {
    assert [c][..0] == [] && AfterLastDot([]) == [];
    assert [n, DOT, c][..2] == [n, DOT] && AfterLastDot([n, DOT]) == [];
  }

  lemma RecordsMatch(g: Graph, p: Pair, i: nat, j: nat)
    requires DeclaredPair(g, p) && i < |g| && j < |g| && g[i].Record? && g[j].Record?
    requires Deref(p.0) == Named(i) && Deref(p.1) == Named(j) && NamesMatch(g[i].name, g[j].name)
    ensures Match(g, p) == RecordGoal(g[i].fields, g[j].fields)
  {
  }

  lemma GoalOfA(g: Graph)
    requires Namespaced(g) && DeclaredGraph(g)
    ensures Match(g, A) == All([B, (STRING, INT)], true)
  {
    LocalName(65, 120);
    TwoFieldGoal(g[0].fields, g[2].fields);
    RecordsMatch(g, A, 0, 2);
  }

  lemma GoalOfB(g: Graph)
    requires Namespaced(g) && DeclaredGraph(g)
    ensures Match(g, B) == All([(Ref(0), Ref(2))], true)
  {
    LocalName(66, 120);
    OneFieldGoal(g[1].fields, g[3].fields);
    RecordsMatch(g, B, 1, 3);
  }

  lemma GoalOfC(g: Graph)
    requires Namespaced(g) && DeclaredGraph(g)
    ensures Match(g, C) == All([(Ref(1), Named(3))], true)
  {
    LocalName(65, 121);
    OneFieldGoal(g[4].fields, g[2].fields);
    RecordsMatch(g, C, 4, 2);
  }

  lemma GoalOfD(g: Graph)
    requires Namespaced(g) && DeclaredGraph(g)
    ensures Match(g, D) == YES
  {
    LocalName(65, 122);
    var none: seq<Option<nat>> := [];
    assert MatchFields(Labels(g[5].fields), Labels(g[2].fields), {}) == Some(none);
    RecordsMatch(g, D, 5, 2);
  }

  lemma NamespacedMisleads(g: Graph)
    requires Namespaced(g) && DeclaredGraph(g)
    ensures Misleading(g, NAMESPACED) && DistinctKeys(g, NAMESPACED)
  {
    hide Match, SameKey;
    GoalOfA(g);
    GoalOfB(g);
    GoalOfC(g);
    GoalOfD(g);
    Leaves(g);
    KeysApart(g);
  }

  lemma Leaves(g: Graph)
    requires Namespaced(g) && DeclaredGraph(g)
    ensures Match(g, (STRING, INT)) == NO
    ensures SameKey(g, (Ref(0), Ref(2)), A) && SameKey(g, (Ref(1), Named(3)), B)
  {
    hide Fingerprint;
    RefTwin(g, 0);
    RefTwin(g, 1);
    RefTwin(g, 2);
  }

  lemma RefTwin(g: Graph, id: nat)
    requires DeclaredGraph(g) && id < |g|
    ensures Twin(g, Ref(id), Named(id)) && Twin(g, Named(id), Named(id))
  {
  }

  lemma KeysApart(g: Graph)
    requires Namespaced(g) && DeclaredGraph(g) && Misleading(g, NAMESPACED)
    ensures DistinctKeys(g, NAMESPACED)
  {
    hide Match;
    TypesApart(g, Named(0), STRING);
    TypesApart(g, Named(1), STRING);
    TypesApart(g, Named(4), STRING);
    NamesApart(g, Named(0), Named(1));
    NamesApart(g, Named(0), Named(4));
    NamesApart(g, Named(1), Named(4));
  }

  /** Schemas of different types, or records of different names, have different fingerprints. */
  lemma TypesApart(g: Graph, s: Schema, t: Schema)
    requires DeclaredGraph(g) && Declared(s, |g|) && Declared(t, |g|) && TypeOf(g, s) != TypeOf(g, t)
    ensures Fingerprint(g, s) != Fingerprint(g, t)
  {
    if Twin(g, s, t) { TwinDeref(g, s, t); }
  }

  lemma NamesApart(g: Graph, s: Schema, t: Schema)
    requires DeclaredGraph(g) && Declared(s, |g|) && Declared(t, |g|)
    requires (s.Named? || s.Ref?) && (t.Named? || t.Ref?) && g[s.id].name != g[t.id].name
    ensures Fingerprint(g, s) != Fingerprint(g, t)
  {
    if Twin(g, s, t) {
      TwinDeref(g, s, t);
      TwinParts(g, Deref(s), Deref(t));
    }
  }

  /** The pairs of the pattern lie in any closed set that holds all three reader branches. */
  lemma PatternInside(g: Graph, u: set<Schema>)
    requires Namespaced(g) && DeclaredGraph(g) && Closed(g, u)
    ensures AllInside(u, NAMESPACED)
  {
    assert g[0].fields[1] in g[0].fields && g[1].fields[0] in g[1].fields;
    assert g[2].fields[1] in g[2].fields && g[3].fields[0] in g[3].fields && g[4].fields[0] in g[4].fields;
  }

  lemma UnionApart(g: Graph, s: Schema)
    requires Namespaced(g) && DeclaredGraph(g) && s.Union? && Declared(s, |g|) && Misleading(g, NAMESPACED)
    ensures Apart(g, (s, Named(2)), NAMESPACED)
  {
    hide Fingerprint, Misleading;
    ReaderApart(g, s, A);
    ReaderApart(g, s, B);
    ReaderApart(g, s, C);
    ReaderApart(g, s, (STRING, INT));
  }

  lemma ReaderApart(g: Graph, s: Schema, p: Pair)
    requires DeclaredGraph(g) && Declared(s, |g|) && Declared(Named(2), |g|) && DeclaredPair(g, p)
    requires TypeOf(g, s) != TypeOf(g, p.0)
    ensures KeyOf(g, (s, Named(2))) != KeyOf(g, p)
  {
    hide Fingerprint;
    TypesApart(g, s, p.0);
  }

  lemma GoalOfTwo(g: Graph)
    requires Namespaced(g) && DeclaredGraph(g)
    ensures Declared(TWO, |g|) && Match(g, (TWO, Named(2))) == Any([A] + ([C] + []))
  {
    assert WithWriter(TWO.types, Named(2)) == [A] + ([C] + []);
  }

  lemma GoalOfThree(g: Graph)
    requires Namespaced(g) && DeclaredGraph(g)
    ensures Declared(THREE, |g|) && Match(g, (THREE, Named(2))) == Any([A] + ([C] + [D]))
  {
    assert WithWriter(THREE.types, Named(2)) == [A] + ([C] + [D]);
  }

  /**
   * A wrong acceptance on a fresh memo: x.B is accepted while x.A is assumed, x.A is rejected,
   * and y.A is then accepted because of x.B.
   */
  lemma UnionReaderMisled(g: Graph, u: set<Schema>)
    requires Namespaced(g) && Closed(g, u) && Inside(u, (TWO, Named(2)))
    ensures DeclaredGraph(g)
    ensures Cached(g, u, map[], {}, (TWO, Named(2))).ok && !Compatible(g, (TWO, Named(2)))
  {
    hide Match;
    NamespacedDeclared(g);
    NamespacedMisleads(g);
    PatternInside(g, u);
    GoalOfTwo(g);
    UnionApart(g, TWO);
    RunOnChoice(g, u, (TWO, Named(2)), NAMESPACED, []);
    PatternTruth(g, NAMESPACED);
    if Compatible(g, (TWO, Named(2))) {
      CompatibleStep(g, (TWO, Named(2)));
    }
  }

  /**
   * A wrong acceptance by a second call, without any union: after x.A has been rejected, the
   * same memo answers that x.B can read B.
   */
  lemma SecondCallMisled(g: Graph, u: set<Schema>)
    requires Namespaced(g) && Closed(g, u)
    ensures DeclaredGraph(g) && Inside(u, A) && Inside(u, B)
    ensures var v := Cached(g, u, map[], {}, A);
            !v.ok && Cached(g, u, v.cache, {}, B) == Verdict(true, v.cache) && !Compatible(g, B)
  {
    hide Match;
    NamespacedDeclared(g);
    NamespacedMisleads(g);
    PatternInside(g, u);
    RunOnA(g, u, {}, NAMESPACED);
    PatternTruth(g, NAMESPACED);
  }

  /**
   * A wrong branch for a compatible pair: z.A is the branch that matches, but after the check
   * the memo leads a resolution into y.A.
   */
  lemma WrongBranch(g: Graph, u: set<Schema>)
    requires Namespaced(g) && Closed(g, u) && Inside(u, (THREE, Named(2)))
    ensures DeclaredGraph(g) && Declared(THREE, |g|)
    ensures Compatible(g, (THREE, Named(2))) && FirstMatch(g, THREE.types, Named(2)) == Some(2)
    ensures var v := Cached(g, u, map[], {}, (THREE, Named(2)));
            v.ok && FirstCached(g, v.cache, THREE.types, Named(2)) == Choice(Some(1), v.cache)
  {
    hide Match;
    NamespacedDeclared(g);
    NamespacedMisleads(g);
    PatternInside(g, u);
    GoalOfThree(g);
    UnionApart(g, THREE);
    RunOnChoice(g, u, (THREE, Named(2)), NAMESPACED, [D]);
    PatternTruth(g, NAMESPACED);
    ThirdMatches(g);
    assert D in Match(g, (THREE, Named(2))).pairs;
    FixpointAdd(g, (THREE, Named(2)));
    SecondRecalled(g, Cached(g, u, map[], {}, (THREE, Named(2))).cache);
  }

  lemma ThirdMatches(g: Graph)
    requires Namespaced(g) && DeclaredGraph(g) && !Compatible(g, A) && !Compatible(g, C) && Compatible(g, D)
    ensures FirstMatch(g, THREE.types, Named(2)) == Some(2)
  {
    hide Match, Checking.Check, Compatible;
    var types := THREE.types;
    CheckExact(g, Named(0), Named(2));
    CheckExact(g, Named(4), Named(2));
    CheckExact(g, Named(5), Named(2));
    assert types[1..] == [Named(4), Named(5)] && types[1..][1..] == [Named(5)];
    assert FirstMatch(g, [Named(5)], Named(2)) == Some(0);
    assert FirstMatch(g, [Named(4), Named(5)], Named(2)) == Some(1);
  }

  lemma SecondRecalled(g: Graph, cache: Cache)
    requires Namespaced(g) && DeclaredGraph(g)
    requires KeyOf(g, A) in cache && !cache[KeyOf(g, A)] && KeyOf(g, C) in cache && cache[KeyOf(g, C)]
    ensures FirstCached(g, cache, THREE.types, Named(2)) == Choice(Some(1), cache)
  {
    hide Match, Cached, KeyOf;
    var types := THREE.types;
    assert types[1..] == [Named(4), Named(5)];
    UniverseClosed(g, Named(0), Named(2));
    UniverseClosed(g, Named(4), Named(2));
    Recalled(g, Universe(g, Named(0), Named(2)), cache, A);
    Recalled(g, Universe(g, Named(4), Named(2)), cache, C);
    assert FirstCached(g, cache, [Named(4), Named(5)], Named(2)) == Choice(Some(0), cache);
  }

  lemma NamespacedExists()
    ensures exists g: Graph :: Namespaced(g)
  {
    var f := (name: Text, typ: Schema) => Field(name, [], typ, None, Keep);
    var g: Graph := [ Record(Name([120, 46, 65], []), [f([98], Named(1)), f([120], STRING)]),
                      Record(Name([120, 46, 66], []), [f([97], Ref(0))]),
                      Record(Name([65], []), [f([98], Named(3)), f([120], INT)]),
                      Record(Name([66], []), [f([97], Ref(2))]),
                      Record(Name([121, 46, 65], []), [f([98], Ref(1))]),
                      Record(Name([122, 46, 65], []), []) ];
    assert Namespaced(g);
  }
}
