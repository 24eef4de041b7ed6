/** For which readers the memoised check is exact, and when it leaves its memo true. */
module MemoExactness {
  import opened Wire
  import opened Schemas
  import opened Compatibility
  import opened Checking
  import opened Memo
  import opened Unfoldings

  /** Every stored verdict is the true one. */
  ghost predicate Truthful(g: Graph, cache: Cache)
    requires DeclaredGraph(g)
  {
    RejectsRightly(g, cache) && AcceptsRightly(g, cache)
  }

  // --- readers that unfold finitely: no pair is met again inside itself ---

  /** Verdicts on readers that unfold finitely are true. */
  ghost predicate FinitelyTrue(g: Graph, cache: Cache)
    requires DeclaredGraph(g)
  {
    forall p: Pair | DeclaredPair(g, p) && Finite(g, p.0) && KeyOf(g, p) in cache :: cache[KeyOf(g, p)] <==> Compatible(g, p)
  }

  /** Every verdict added is on such a reader. */
  ghost predicate AddsFinite(g: Graph, cache: Cache, cache': Cache)
    requires DeclaredGraph(g)
  {
    forall p: Pair | DeclaredPair(g, p) && KeyOf(g, p) in cache' && KeyOf(g, p) !in cache :: Finite(g, p.0)
  }

  /** The reader of `q` lies inside the reader of `p`, or only the writer's union has been left. */
  ghost predicate Below(g: Graph, p: Pair, q: Pair)
    requires DeclaredGraph(g) && DeclaredPair(g, p) && DeclaredPair(g, q)
  {
    || Inner(g, p.0, q.0)
    || (TypeOf(g, p.1).TUnion? && !TypeOf(g, q.1).TUnion? && NoDeeper(g, p.0, q.0))
  }

  ghost predicate Inner(g: Graph, s: Schema, t: Schema)
    requires DeclaredGraph(g) && Declared(s, |g|) && Declared(t, |g|)
  {
    forall k: nat :: Shallow(g, s, k) ==> k > 0 && Shallow(g, t, k - 1)
  }

  ghost predicate NoDeeper(g: Graph, s: Schema, t: Schema)
    requires DeclaredGraph(g) && Declared(s, |g|) && Declared(t, |g|)
  {
    forall k: nat :: Shallow(g, s, k) ==> Shallow(g, t, k)
  }

  lemma BelowChain(g: Graph, a: Pair, p: Pair, q: Pair)
    requires DeclaredGraph(g) && DeclaredPair(g, a) && DeclaredPair(g, p) && DeclaredPair(g, q)
    requires Below(g, a, p) && Below(g, p, q)
    ensures Below(g, a, q)
  {
    hide Shallow;
    forall k: nat | Shallow(g, a.0, k)
      ensures Inner(g, a.0, p.0) || Inner(g, p.0, q.0) ==> k > 0 && Shallow(g, q.0, k - 1)
    {
      if Inner(g, a.0, p.0) && Inner(g, p.0, q.0) {
        ShallowMore(g, q.0, k - 2, k - 1);
      }
    }
  }

  /** A finite reader is never inside itself, so a pair below another has another key. */
  lemma {:induction false} BelowApart(g: Graph, p: Pair, q: Pair, k: nat)
    requires DeclaredGraph(g) && DeclaredPair(g, p) && DeclaredPair(g, q) && Below(g, p, q) && Shallow(g, q.0, k)
    ensures KeyOf(g, p) != KeyOf(g, q)
    decreases k
  {
    hide Shallow;
    if KeyOf(g, p) == KeyOf(g, q) {
      TwinDeref(g, p.1, q.1);
      ShallowTwin(g, q.0, p.0, k);
      BelowApart(g, p, q, k - 1);
    }
  }

  lemma BelowTwin(g: Graph, a: Pair, b: Pair, q: Pair)
    requires DeclaredGraph(g) && DeclaredPair(g, a) && DeclaredPair(g, b) && DeclaredPair(g, q)
    requires KeyOf(g, a) == KeyOf(g, b) && Below(g, b, q)
    ensures Below(g, a, q)
  {
    hide Shallow;
    TwinDeref(g, a.1, b.1);
    forall k: nat | Shallow(g, a.0, k) ensures Shallow(g, b.0, k) {
      ShallowTwin(g, a.0, b.0, k);
    }
  }

  /** What a pair needs lies below it. */
  lemma GoalBelow(g: Graph, p: Pair, q: Pair)
    requires DeclaredGraph(g) && DeclaredPair(g, p) && q in Match(g, p).pairs
    ensures DeclaredPair(g, q) && Below(g, p, q)
  {
    var r, w := Deref(p.0), Deref(p.1);
    if r.Named? && w.Named? && g[r.id].Record? && g[w.id].Record? {
      RecordGoalBelow(g, r.id, w.id, q);
      forall k: nat | Shallow(g, p.0, k) ensures k > 0 && Shallow(g, q.0, k - 1) {
        assert ShallowDef(g, g[r.id], k);
      }
    } else if w.Union? {
      assert q.0 == r && q.1 in w.types;
      assert NoDeeper(g, p.0, q.0);
    } else {
      assert PartOf(g, p.0, q.0);
      forall k: nat | Shallow(g, p.0, k) ensures k > 0 && Shallow(g, q.0, k - 1) {
        PartShallow(g, p.0, q.0, k);
      }
    }
  }

  lemma RecordGoalBelow(g: Graph, i: nat, j: nat, q: Pair)
    requires DeclaredGraph(g) && i < |g| && j < |g| && g[i].Record? && g[j].Record?
    requires q in RecordGoal(g[i].fields, g[j].fields).pairs
    ensures DeclaredPair(g, q)
    ensures forall k: nat | ShallowDef(g, g[i], k) :: k > 0 && Shallow(g, q.0, k - 1)
  {
    hide Shallow;
    var rs, ws := g[i].fields, g[j].fields;
    MatchFieldsBounds(Labels(rs), Labels(ws), {});
    FieldGoalMembers(rs, ws, MatchFields(Labels(rs), Labels(ws), {}).value, q);
  }

  lemma {:induction false} FieldGoalMembers(rs: seq<Field>, ws: seq<Field>, matched: seq<Option<nat>>, q: Pair)
    requires |matched| == |rs| && Bounded(matched, |ws|) && q in FieldGoal(rs, ws, matched).pairs
    ensures (exists f | f in rs :: f.typ == q.0) && exists f | f in ws :: f.typ == q.1
    decreases |rs|
  {
    if matched[0].Some? && q == (rs[0].typ, ws[matched[0].value].typ) {
      assert rs[0] in rs && ws[matched[0].value] in ws;
    } else {
      FieldGoalMembers(rs[1..], ws, matched[1..], q);
    }
  }

  lemma GoalFinite(g: Graph, p: Pair)
    requires DeclaredGraph(g) && DeclaredPair(g, p) && Finite(g, p.0)
    ensures forall q | q in Match(g, p).pairs :: DeclaredPair(g, q) && Finite(g, q.0)
  {
    hide Shallow, Match;
    var k: nat :| Shallow(g, p.0, k);
    forall q | q in Match(g, p).pairs ensures DeclaredPair(g, q) && Finite(g, q.0) {
      GoalBelow(g, p, q);
    }
  }

  /** The pair lies below every pair still being decided. */
  ghost predicate Clear(g: Graph, active: set<Key>, p: Pair)
    requires DeclaredGraph(g) && DeclaredPair(g, p)
  {
    forall a: Pair | DeclaredPair(g, a) && KeyOf(g, a) in active :: Below(g, a, p)
  }

  lemma ClearBelow(g: Graph, active: set<Key>, p: Pair, q: Pair)
    requires DeclaredGraph(g) && DeclaredPair(g, p) && Clear(g, active, p) && q in Match(g, p).pairs
    ensures DeclaredPair(g, q) && Clear(g, active + {KeyOf(g, p)}, q)
  {
    hide Below, Match;
    GoalBelow(g, p, q);
    forall a: Pair | DeclaredPair(g, a) && KeyOf(g, a) in active + {KeyOf(g, p)} ensures Below(g, a, q) {
      if KeyOf(g, a) in active {
        BelowChain(g, a, p, q);
      } else {
        BelowTwin(g, a, p, q);
      }
    }
  }

  /** For a reader that unfolds finitely the memoised check is exact, whatever else is going on. */
  lemma {:induction false} FiniteReaderExact(g: Graph, u: set<Schema>, cache: Cache, active: set<Key>, p: Pair)
    requires DeclaredGraph(g) && Closed(g, u) && Inside(u, p)
    requires Finite(g, p.0) && Clear(g, active, p) && FinitelyTrue(g, cache)
    ensures var v := Cached(g, u, cache, active, p);
            (v.ok <==> Compatible(g, p)) && FinitelyTrue(g, v.cache) && AddsFinite(g, cache, v.cache)
    decreases Budget(g, u, active), 1, 0
  {
    hide Match, Finite, Clear, Compatible;
    var key := KeyOf(g, p);
    NotActive(g, active, p);
    if key !in cache {
      BudgetDrops(g, u, active, p);
      MatchWithin(g, u, p);
      GoalFinite(g, p);
      var goal := Match(g, p);
      forall q | q in goal.pairs ensures Clear(g, active + {key}, q) {
        ClearBelow(g, active, p, q);
      }
      if goal.All? {
        FiniteAllExact(g, u, cache, active + {key}, goal.pairs);
      } else {
        FiniteAnyExact(g, u, cache, active + {key}, goal.pairs);
      }
      var v := CachedGoal(g, u, cache, active + {key}, goal);
      GoalTrue(g, p, v.ok);
      StoreFinite(g, cache, v.cache, p, v.ok);
    }
  }

  lemma NotActive(g: Graph, active: set<Key>, p: Pair)
    requires DeclaredGraph(g) && DeclaredPair(g, p) && Finite(g, p.0) && Clear(g, active, p)
    ensures KeyOf(g, p) !in active
  {
    hide Shallow, Below;
    if KeyOf(g, p) in active {
      var k: nat :| Shallow(g, p.0, k);
      BelowApart(g, p, p, k);
    }
  }

  /** A verdict that says whether the goal is met by compatible pairs is the true one. */
  lemma GoalTrue(g: Graph, p: Pair, ok: bool)
    requires DeclaredGraph(g) && DeclaredPair(g, p)
    requires match Match(g, p)
             case All(pairs, last) => ok <==> last && forall q | q in pairs :: Compatible(g, q)
             case Any(pairs) => ok <==> exists q | q in pairs :: Compatible(g, q)
    ensures ok <==> Compatible(g, p)
  {
    if ok {
      FixpointAdd(g, p);
    }
    if Compatible(g, p) {
      CompatibleStep(g, p);
    }
  }

  lemma StoreFinite(g: Graph, before: Cache, cache: Cache, p: Pair, ok: bool)
    requires DeclaredGraph(g) && DeclaredPair(g, p) && Finite(g, p.0) && (ok <==> Compatible(g, p))
    requires FinitelyTrue(g, cache) && AddsFinite(g, before, cache)
    ensures FinitelyTrue(g, cache[KeyOf(g, p) := ok]) && AddsFinite(g, before, cache[KeyOf(g, p) := ok])
  {
    hide Compatible, Finite, Shallow;
    forall q: Pair | DeclaredPair(g, q) && KeyOf(g, q) == KeyOf(g, p)
      ensures Finite(g, q.0) && (Compatible(g, q) <==> Compatible(g, p))
    {
      FiniteTwin(g, p.0, q.0);
      SameVerdict(g, p, q);
    }
  }

  lemma SameVerdict(g: Graph, p: Pair, q: Pair)
    requires DeclaredGraph(g) && DeclaredPair(g, p) && DeclaredPair(g, q) && KeyOf(g, p) == KeyOf(g, q)
    ensures Compatible(g, q) <==> Compatible(g, p)
  {
    if Compatible(g, p) {
      FixpointByKey(g, {}, p, q);
    }
    if Compatible(g, q) {
      FixpointByKey(g, {}, q, p);
    }
  }

  lemma AddsFiniteChain(g: Graph, a: Cache, b: Cache, c: Cache)
    requires DeclaredGraph(g) && AddsFinite(g, a, b) && AddsFinite(g, b, c)
    ensures AddsFinite(g, a, c)
  {
  }

  lemma {:induction false} FiniteAllExact(g: Graph, u: set<Schema>, cache: Cache, active: set<Key>, pairs: seq<Pair>)
    requires DeclaredGraph(g) && Closed(g, u) && FinitelyTrue(g, cache)
    requires forall p | p in pairs :: Inside(u, p) && Finite(g, p.0) && Clear(g, active, p)
    ensures var v := CachedAll(g, u, cache, active, pairs);
            && (v.ok <==> forall p | p in pairs :: Compatible(g, p))
            && FinitelyTrue(g, v.cache) && AddsFinite(g, cache, v.cache)
    decreases Budget(g, u, active), 2, |pairs|
  {
    hide Finite, Clear, Compatible;
    if pairs != [] {
      FiniteReaderExact(g, u, cache, active, pairs[0]);
      var v := Cached(g, u, cache, active, pairs[0]);
      assert pairs == [pairs[0]] + pairs[1..];
      if v.ok {
        FiniteAllExact(g, u, v.cache, active, pairs[1..]);
        AddsFiniteChain(g, cache, v.cache, CachedAll(g, u, v.cache, active, pairs[1..]).cache);
      }
    }
  }

  lemma {:induction false} FiniteAnyExact(g: Graph, u: set<Schema>, cache: Cache, active: set<Key>, pairs: seq<Pair>)
    requires DeclaredGraph(g) && Closed(g, u) && FinitelyTrue(g, cache)
    requires forall p | p in pairs :: Inside(u, p) && Finite(g, p.0) && Clear(g, active, p)
    ensures var v := CachedAny(g, u, cache, active, pairs);
            && (v.ok <==> exists p | p in pairs :: Compatible(g, p))
            && FinitelyTrue(g, v.cache) && AddsFinite(g, cache, v.cache)
    decreases Budget(g, u, active), 2, |pairs|
  {
    hide Finite, Clear, Compatible;
    if pairs != [] {
      FiniteReaderExact(g, u, cache, active, pairs[0]);
      var v := Cached(g, u, cache, active, pairs[0]);
      assert pairs == [pairs[0]] + pairs[1..];
      if !v.ok {
        FiniteAnyExact(g, u, v.cache, active, pairs[1..]);
        AddsFiniteChain(g, cache, v.cache, CachedAny(g, u, v.cache, active, pairs[1..]).cache);
      }
    }
  }

  // --- readers whose unions do not make recursive branches compete ---

  /** Two reader names that some writer name can match both. */
  predicate NamesMeet(a: Name, b: Name) {
    || a.Local() == b.Local()
    || (exists x | x in a.aliases :: x in b.aliases || AfterLastDot(x) == b.Local())
    || (exists x | x in b.aliases :: AfterLastDot(x) == a.Local())
  }

  /** They meet exactly when there is such a writer name. */
  lemma NamesMeetExact(a: Name, b: Name)
    ensures NamesMeet(a, b) <==> exists w: Name :: NamesMatch(a, w) && NamesMatch(b, w)
  {
    if NamesMeet(a, b) {
      if a.Local() == b.Local() {
        assert NamesMatch(a, b);
      } else if x :| x in a.aliases && (x in b.aliases || AfterLastDot(x) == b.Local()) {
        assert NamesMatch(a, Name(x, [])) && NamesMatch(b, Name(x, []));
      } else {
        var x :| x in b.aliases && AfterLastDot(x) == a.Local();
        assert NamesMatch(a, Name(x, [])) && NamesMatch(b, Name(x, []));
      }
    }
  }

  /** Two branches that one writer type can go into both. */
  predicate Rivals(g: Graph, s: Schema, t: Schema)
    requires Declared(s, |g|) && Declared(t, |g|)
  {
    match (Deref(s), Deref(t))
    case (Array(_), Array(_)) => true
    case (Map(_), Map(_)) => true
    case (Named(i), Named(j)) => g[i].Record? && g[j].Record? && NamesMeet(g[i].name, g[j].name)
    case _ => false
  }

  /** No branch that leads to recursion has a rival after it. */
  ghost predicate Settled(g: Graph, types: seq<Schema>)
    requires DeclaredGraph(g) && forall t | t in types :: Declared(t, |g|)
  {
    forall i, j :: 0 <= i < j < |types| && !Finite(g, types[i]) ==> !Rivals(g, types[i], types[j])
  }

  /** Schemas closed under parts and ids. */
  ghost predicate Part(g: Graph, part: set<Schema>) {
    && (forall s | s in part :: Declared(s, |g|) && ClosedUnder(part, s) && Deref(s) in part)
    && (forall id: nat, f | Named(id) in part && id < |g| && g[id].Record? && f in g[id].fields :: f.typ in part)
  }

  ghost predicate UncontestedPart(g: Graph, part: set<Schema>)
    requires DeclaredGraph(g)
  {
    Part(g, part) && forall s | s in part && s.Union? :: Settled(g, s.types)
  }

  /** Every union the reader leads to is settled. */
  ghost predicate Uncontested(g: Graph, r: Schema)
    requires DeclaredGraph(g)
  {
    exists part: set<Schema> :: r in part && UncontestedPart(g, part)
  }

  lemma PartGoal(g: Graph, part: set<Schema>, p: Pair)
    requires DeclaredGraph(g) && Part(g, part) && p.0 in part && DeclaredPair(g, p)
    ensures forall q | q in Match(g, p).pairs :: q.0 in part
  {
    var r, w := Deref(p.0), Deref(p.1);
    if r.Named? && w.Named? && g[r.id].Record? && g[w.id].Record? {
      PartRecordGoal(g[r.id].fields, g[w.id].fields, part);
    }
  }

  lemma PartRecordGoal(rs: seq<Field>, ws: seq<Field>, part: set<Schema>)
    requires forall f | f in rs :: f.typ in part
    ensures forall q | q in RecordGoal(rs, ws).pairs :: q.0 in part
  {
    if MatchFields(Labels(rs), Labels(ws), {}).Some? {
      MatchFieldsBounds(Labels(rs), Labels(ws), {});
    }
    forall q | q in RecordGoal(rs, ws).pairs ensures q.0 in part {
      FieldGoalMembers(rs, ws, MatchFields(Labels(rs), Labels(ws), {}).value, q);
    }
  }

  /** The readers of all pairs being decided lead to recursion. */
  ghost predicate Boundless(g: Graph, active: set<Key>)
    requires DeclaredGraph(g)
  {
    forall a: Pair | DeclaredPair(g, a) && KeyOf(g, a) in active :: !Finite(g, a.0) && Match(g, a) != NO
  }

  /** No pair refused at first sight is stored as accepted. */
  ghost predicate NothingAbsurd(g: Graph, cache: Cache)
    requires DeclaredGraph(g)
  {
    forall a: Pair | DeclaredPair(g, a) && KeyOf(g, a) in Accepted(cache) :: Match(g, a) != NO
  }

  /** Every acceptance added is true, or leans on acceptances and on pairs being decided. */
  ghost predicate Grounded(g: Graph, cache: Cache, cache': Cache, active: set<Key>)
    requires DeclaredGraph(g)
  {
    forall p: Pair | DeclaredPair(g, p) && KeyOf(g, p) in Accepted(cache') && KeyOf(g, p) !in cache :: Leans(g, p, cache', active)
  }

  ghost predicate Leans(g: Graph, p: Pair, cache: Cache, active: set<Key>)
    requires DeclaredGraph(g) && DeclaredPair(g, p)
  {
    Holds(Match(g, p), WithKeys(g, Accepted(cache) + active) + Greatest(g, {}))
  }

  lemma GroundedChain(g: Graph, a: Cache, b: Cache, c: Cache, active: set<Key>)
    requires DeclaredGraph(g) && Kept(a, b) && Kept(b, c)
    requires Grounded(g, a, b, active) && Grounded(g, b, c, active)
    ensures Grounded(g, a, c, active)
  {
    hide Match;
    forall p: Pair | DeclaredPair(g, p) && KeyOf(g, p) in Accepted(c) && KeyOf(g, p) !in a
      ensures Leans(g, p, c, active)
    {
      if KeyOf(g, p) in b {
        HoldsMonotone(Match(g, p), WithKeys(g, Accepted(b) + active) + Greatest(g, {}),
                      WithKeys(g, Accepted(c) + active) + Greatest(g, {}));
      }
    }
  }

  lemma NothingAdded(g: Graph, cache: Cache, active: set<Key>)
    requires DeclaredGraph(g)
    ensures Grounded(g, cache, cache, active)
  {
  }

  lemma TruthLeans(g: Graph, p: Pair, cache: Cache, active: set<Key>)
    requires DeclaredGraph(g) && Compatible(g, p)
    ensures DeclaredPair(g, p) && Leans(g, p, cache, active) && Match(g, p) != NO
  {
    hide Match;
    CompatibleStep(g, p);
    HoldsMonotone(Match(g, p), Greatest(g, {}), WithKeys(g, Accepted(cache) + active) + Greatest(g, {}));
  }

  /** Acceptances of finite readers are true and hence grounded. */
  lemma FiniteGrounded(g: Graph, cache: Cache, cache': Cache, active: set<Key>)
    requires DeclaredGraph(g) && FinitelyTrue(g, cache') && AddsFinite(g, cache, cache') && NothingAbsurd(g, cache)
    requires Kept(cache, cache')
    ensures Grounded(g, cache, cache', active) && NothingAbsurd(g, cache')
  {
    hide Match, Finite, Compatible, Leans;
    forall p: Pair | DeclaredPair(g, p) && KeyOf(g, p) in Accepted(cache')
      ensures KeyOf(g, p) !in cache ==> Leans(g, p, cache', active)
      ensures Match(g, p) != NO
    {
      if KeyOf(g, p) !in cache {
        TruthLeans(g, p, cache', active);
      }
    }
  }

  /** What holds of the memo throughout. */
  ghost predicate Sane(g: Graph, cache: Cache)
    requires DeclaredGraph(g)
  {
    FinitelyTrue(g, cache) && NothingAbsurd(g, cache)
  }

  /** An accepted run leaves only grounded acceptances. */
  lemma {:induction false} AcceptedSoundly(g: Graph, u: set<Schema>, part: set<Schema>, cache: Cache, active: set<Key>, p: Pair)
    requires DeclaredGraph(g) && Closed(g, u) && Inside(u, p) && UncontestedPart(g, part) && p.0 in part
    requires Boundless(g, active) && Sane(g, cache)
    ensures var v := Cached(g, u, cache, active, p);
            && Sane(g, v.cache)
            && (v.ok || Finite(g, p.0) || Match(g, p) == NO || KeyOf(g, p) in cache ==> Grounded(g, cache, v.cache, active))
    decreases Budget(g, u, active), 1, 1
  {
    hide Finite, Match, Compatible, Grounded, Leans, UncontestedPart;
    var v := Cached(g, u, cache, active, p);
    if Finite(g, p.0) {
      BoundlessClear(g, active, p);
      FiniteReaderExact(g, u, cache, active, p);
      FiniteGrounded(g, cache, v.cache, active);
    } else {
      NothingAdded(g, cache, active);
      if KeyOf(g, p) !in cache && KeyOf(g, p) !in active {
        InfiniteSoundly(g, u, part, cache, active, p);
      }
    }
  }

  lemma BoundlessClear(g: Graph, active: set<Key>, p: Pair)
    requires DeclaredGraph(g) && DeclaredPair(g, p) && Boundless(g, active)
    ensures Clear(g, active, p)
  {
    hide Match, Shallow;
    forall a: Pair | DeclaredPair(g, a) && KeyOf(g, a) in active ensures Below(g, a, p) {
      assert Inner(g, a.0, p.0);
    }
  }

  lemma {:induction false} InfiniteSoundly(g: Graph, u: set<Schema>, part: set<Schema>, cache: Cache, active: set<Key>, p: Pair)
    requires DeclaredGraph(g) && Closed(g, u) && Inside(u, p) && UncontestedPart(g, part) && p.0 in part
    requires Boundless(g, active) && Sane(g, cache) && !Finite(g, p.0)
    requires KeyOf(g, p) !in cache && KeyOf(g, p) !in active
    ensures var v := Cached(g, u, cache, active, p);
            && Sane(g, v.cache)
            && (v.ok || Match(g, p) == NO ==> Grounded(g, cache, v.cache, active))
    decreases Budget(g, u, active), 1, 0
  {
    hide Finite, Match, Compatible, Grounded, Leans, UncontestedPart, CachedGoal, Boundless, Sane;
    var key := KeyOf(g, p);
    BudgetDrops(g, u, active, p);
    MatchWithin(g, u, p);
    if Match(g, p) == NO {
      NothingAdded(g, cache, active + {key});
      RefusedAtOnce(g, u, cache, active + {key}, p);
    } else {
      BoundlessMore(g, active, p);
      GoalSoundly(g, u, part, cache, active + {key}, p);
    }
    GoalLeans(g, u, cache, active + {key}, p);
    StoreSoundly(g, cache, CachedGoal(g, u, cache, active + {key}, Match(g, p)), active, p);
  }

  lemma {:induction false} GoalSoundly(g: Graph, u: set<Schema>, part: set<Schema>, cache: Cache, active: set<Key>, p: Pair)
    requires DeclaredGraph(g) && Closed(g, u) && Inside(u, p) && UncontestedPart(g, part) && p.0 in part
    requires forall q | q in Match(g, p).pairs :: Inside(u, q)
    requires Boundless(g, active) && Sane(g, cache)
    ensures var v := CachedGoal(g, u, cache, active, Match(g, p));
            Sane(g, v.cache) && (v.ok ==> Grounded(g, cache, v.cache, active))
    decreases Budget(g, u, active), 3
  {
    hide Finite, Match, Compatible, Grounded, Leans, Boundless, Sane;
    PartGoal(g, part, p);
    if Match(g, p).All? {
      AllSoundly(g, u, part, cache, active, Match(g, p).pairs);
    } else {
      AnyGoal(g, part, p);
      WriterIn(u, Deref(p.0).types, Deref(p.1));
      AnySoundly(g, u, part, cache, active, Deref(p.0).types, Deref(p.1));
    }
  }

  lemma WriterIn(u: set<Schema>, types: seq<Schema>, w: Schema)
    requires forall q | q in WithWriter(types, w) :: Inside(u, q)
    ensures (forall t | t in types :: t in u) && (types != [] ==> w in u)
  {
    forall t | t in types ensures t in u {
      var i :| 0 <= i < |types| && types[i] == t;
      assert WithWriter(types, w)[i] in WithWriter(types, w);
    }
    if types != [] {
      assert WithWriter(types, w)[0] in WithWriter(types, w);
    }
  }

  lemma GoalLeans(g: Graph, u: set<Schema>, cache: Cache, active: set<Key>, p: Pair)
    requires DeclaredGraph(g) && Closed(g, u) && Inside(u, p) && forall q | q in Match(g, p).pairs :: Inside(u, q)
    ensures var v := CachedGoal(g, u, cache, active, Match(g, p));
            v.ok ==> Leans(g, p, v.cache, active)
  {
    hide Match, CachedGoal;
    var v := CachedGoal(g, u, cache, active, Match(g, p));
    GoalJustified(g, u, cache, active, Match(g, p));
    if v.ok {
      HoldsMonotone(Match(g, p), WithKeys(g, Accepted(v.cache) + active),
                    WithKeys(g, Accepted(v.cache) + active) + Greatest(g, {}));
    }
  }

  lemma RefusedAtOnce(g: Graph, u: set<Schema>, cache: Cache, active: set<Key>, p: Pair)
    requires DeclaredGraph(g) && Closed(g, u) && Inside(u, p) && Match(g, p) == NO
    ensures CachedGoal(g, u, cache, active, Match(g, p)) == Verdict(false, cache)
  {
    assert CachedAll(g, u, cache, active, []) == Verdict(true, cache);
  }

  lemma BoundlessMore(g: Graph, active: set<Key>, p: Pair)
    requires DeclaredGraph(g) && DeclaredPair(g, p) && Boundless(g, active) && !Finite(g, p.0) && Match(g, p) != NO
    ensures Boundless(g, active + {KeyOf(g, p)})
  {
    hide Finite, Match;
    forall a: Pair | DeclaredPair(g, a) && KeyOf(g, a) == KeyOf(g, p) ensures !Finite(g, a.0) && Match(g, a) != NO {
      MatchSame(g, a, p);
      if Finite(g, a.0) {
        FiniteTwin(g, a.0, p.0);
      }
    }
  }

  lemma AnyGoal(g: Graph, part: set<Schema>, p: Pair)
    requires DeclaredGraph(g) && DeclaredPair(g, p) && Match(g, p).Any? && p.0 in part && UncontestedPart(g, part)
    ensures Deref(p.0).Union? && Match(g, p) == Any(WithWriter(Deref(p.0).types, Deref(p.1)))
    ensures Settled(g, Deref(p.0).types) && !Deref(p.1).Union?
    ensures forall t | t in Deref(p.0).types :: Declared(t, |g|) && !t.Union? && t in part
  {
  }

  /** Storing a verdict moves the key from the pairs being decided to the stored ones. */
  lemma StoreSoundly(g: Graph, cache: Cache, v: Verdict, active: set<Key>, p: Pair)
    requires DeclaredGraph(g) && DeclaredPair(g, p) && KeyOf(g, p) !in cache && KeyOf(g, p) !in v.cache && Kept(cache, v.cache)
    requires Sane(g, v.cache) && !Finite(g, p.0)
    requires v.ok ==> Grounded(g, cache, v.cache, active + {KeyOf(g, p)}) && Leans(g, p, v.cache, active + {KeyOf(g, p)})
    requires !v.ok && Match(g, p) == NO ==> v.cache == cache
    ensures var stored := v.cache[KeyOf(g, p) := v.ok];
            && Sane(g, stored)
            && (v.ok || Match(g, p) == NO ==> Grounded(g, cache, stored, active))
  {
    hide Finite, Match, Compatible, Leans, FinitelyTrue;
    TwinsToo(g, v, active + {KeyOf(g, p)}, p);
    StoreFinitelyTrue(g, v.cache, p, v.ok);
    if v.ok {
      var stored := v.cache[KeyOf(g, p) := v.ok];
      assert Accepted(v.cache) + (active + {KeyOf(g, p)}) == Accepted(stored) + active;
      SameSupport(g, cache, v.cache, active + {KeyOf(g, p)}, stored, active);
    }
  }

  lemma TwinsToo(g: Graph, v: Verdict, active: set<Key>, p: Pair)
    requires DeclaredGraph(g) && DeclaredPair(g, p) && (v.ok ==> Leans(g, p, v.cache, active))
    ensures forall q: Pair | DeclaredPair(g, q) && KeyOf(g, q) == KeyOf(g, p) ::
              v.ok ==> Match(g, q) != NO && Leans(g, q, v.cache, active)
  {
    hide Match;
    forall q: Pair | DeclaredPair(g, q) && KeyOf(g, q) == KeyOf(g, p)
      ensures v.ok ==> Match(g, q) != NO && Leans(g, q, v.cache, active)
    {
      if v.ok {
        LeansTwin(g, p, q, v.cache, active);
      }
    }
  }

  lemma StoreFinitelyTrue(g: Graph, cache: Cache, p: Pair, ok: bool)
    requires DeclaredGraph(g) && DeclaredPair(g, p) && FinitelyTrue(g, cache) && !Finite(g, p.0)
    ensures FinitelyTrue(g, cache[KeyOf(g, p) := ok])
  {
    hide Finite, Compatible;
    forall q: Pair | DeclaredPair(g, q) && KeyOf(g, q) == KeyOf(g, p) ensures !Finite(g, q.0) {
      if Finite(g, q.0) {
        FiniteTwin(g, q.0, p.0);
      }
    }
  }

  /** Only the union of the accepted and the pairs being decided matters. */
  lemma SameSupport(g: Graph, cache: Cache, a: Cache, active: set<Key>, b: Cache, active': set<Key>)
    requires DeclaredGraph(g) && Accepted(a) + active == Accepted(b) + active' && Grounded(g, cache, a, active)
    requires forall q: Pair | DeclaredPair(g, q) && KeyOf(g, q) in Accepted(b) - Accepted(a) :: Leans(g, q, a, active)
    ensures Grounded(g, cache, b, active')
  {
    hide Match;
  }

  lemma LeansTwin(g: Graph, p: Pair, q: Pair, cache: Cache, active: set<Key>)
    requires DeclaredGraph(g) && DeclaredPair(g, p) && DeclaredPair(g, q) && KeyOf(g, p) == KeyOf(g, q)
    requires Leans(g, p, cache, active)
    ensures Leans(g, q, cache, active)
  {
    hide Match;
    MatchSame(g, p, q);
    var x := WithKeys(g, Accepted(cache) + active) + Greatest(g, {});
    forall a, b | a in x && SameKey(g, a, b) ensures b in x {
      if a in Greatest(g, {}) {
        FixpointByKey(g, {}, a, b);
      }
    }
    HoldsSame(g, Match(g, p), Match(g, q), x, x);
  }

  lemma {:induction false} AllSoundly(g: Graph, u: set<Schema>, part: set<Schema>, cache: Cache, active: set<Key>, pairs: seq<Pair>)
    requires DeclaredGraph(g) && Closed(g, u) && UncontestedPart(g, part)
    requires forall p | p in pairs :: Inside(u, p) && p.0 in part
    requires Boundless(g, active) && Sane(g, cache)
    ensures var v := CachedAll(g, u, cache, active, pairs);
            && Sane(g, v.cache)
            && (v.ok ==> Grounded(g, cache, v.cache, active))
    decreases Budget(g, u, active), 2, |pairs|
  {
    hide Finite, Match, Compatible, Grounded, Leans, UncontestedPart;
    if pairs == [] {
      NothingAdded(g, cache, active);
    } else {
      AcceptedSoundly(g, u, part, cache, active, pairs[0]);
      var v := Cached(g, u, cache, active, pairs[0]);
      if v.ok {
        AllSoundly(g, u, part, v.cache, active, pairs[1..]);
        var rest := CachedAll(g, u, v.cache, active, pairs[1..]);
        if rest.ok {
          GroundedChain(g, cache, v.cache, rest.cache, active);
        }
      }
    }
  }

  lemma {:induction false} AnySoundly(g: Graph, u: set<Schema>, part: set<Schema>, cache: Cache, active: set<Key>,
                                      types: seq<Schema>, w: Schema)
    requires DeclaredGraph(g) && Closed(g, u) && UncontestedPart(g, part)
    requires types != [] ==> w in u && !w.Union? && !w.Ref?
    requires forall t | t in types :: t in u && t in part && !t.Union?
    requires Settled(g, types) && Boundless(g, active) && Sane(g, cache)
    ensures var v := CachedAny(g, u, cache, active, WithWriter(types, w));
            && Sane(g, v.cache)
            && (v.ok ==> Grounded(g, cache, v.cache, active))
    decreases Budget(g, u, active), 2, |types|
  {
    hide Finite, Match, Compatible, Grounded, Leans, UncontestedPart;
    var pairs := WithWriter(types, w);
    if types != [] {
      var p := (types[0], w);
      assert pairs[0] == p && pairs[1..] == WithWriter(types[1..], w);
      AcceptedSoundly(g, u, part, cache, active, p);
      var v := Cached(g, u, cache, active, p);
      if !v.ok {
        SettledTail(g, types);
        AnySoundly(g, u, part, v.cache, active, types[1..], w);
        var rest := CachedAny(g, u, v.cache, active, pairs[1..]);
        if rest.ok {
          if !Finite(g, types[0]) && Match(g, p) != NO {
            OthersRefused(g, types, w);
            NoneAccepted(g, u, v.cache, active, pairs[1..]);
          }
          GroundedChain(g, cache, v.cache, rest.cache, active);
        }
      }
    }
  }

  lemma SettledTail(g: Graph, types: seq<Schema>)
    requires DeclaredGraph(g) && types != [] && (forall t | t in types :: Declared(t, |g|)) && Settled(g, types)
    ensures Settled(g, types[1..])
  {
  }

  /** When a branch that leads to recursion is looked into, its later fellows are refused at first sight. */
  lemma OthersRefused(g: Graph, types: seq<Schema>, w: Schema)
    requires DeclaredGraph(g) && types != [] && Declared(w, |g|) && !w.Union? && !w.Ref?
    requires forall t | t in types :: Declared(t, |g|) && !t.Union?
    requires Settled(g, types) && !Finite(g, types[0]) && Match(g, (types[0], w)) != NO
    ensures forall t | t in types[1..] :: Match(g, (t, w)) == NO
  {
    hide Match, Finite;
    forall t | t in types[1..] ensures Match(g, (t, w)) == NO {
      var j :| 0 <= j < |types[1..]| && types[1..][j] == t;
      assert types[j + 1] == t;
      assert !Rivals(g, types[0], types[j + 1]);
      RivalsOrRefused(g, types[0], t, w);
    }
  }

  lemma RivalsOrRefused(g: Graph, s: Schema, t: Schema, w: Schema)
    requires DeclaredGraph(g) && Declared(s, |g|) && Declared(t, |g|) && Declared(w, |g|)
    requires !s.Union? && !t.Union? && !w.Union? && !w.Ref? && !Finite(g, s)
    requires Match(g, (s, w)) != NO
    ensures Rivals(g, s, t) || Match(g, (t, w)) == NO
  {
    InfiniteKinds(g, s);
    if Deref(s).Named? && Deref(t).Named? && w.Named? {
      var a, b := g[Deref(s).id].name, g[Deref(t).id].name;
      NamesMeetExact(a, b);
    }
  }

  /** Only arrays, maps and records can lead to recursion, unions apart. */
  lemma InfiniteKinds(g: Graph, s: Schema)
    requires DeclaredGraph(g) && Declared(s, |g|) && !s.Union? && !Finite(g, s)
    ensures TypeOf(g, s) in {TArray, TMap, TRecord}
  {
    assert Shallow(g, s, 0) || TypeOf(g, s) in {TArray, TMap, TRecord};
  }

  lemma {:induction false} NoneAccepted(g: Graph, u: set<Schema>, cache: Cache, active: set<Key>, pairs: seq<Pair>)
    requires DeclaredGraph(g) && Closed(g, u) && Boundless(g, active) && NothingAbsurd(g, cache)
    requires forall p | p in pairs :: Inside(u, p) && Match(g, p) == NO
    ensures !CachedAny(g, u, cache, active, pairs).ok
    decreases |pairs|
  {
    hide Match, Finite;
    if pairs != [] {
      var p := pairs[0];
      assert p in pairs;
      if KeyOf(g, p) !in cache && KeyOf(g, p) !in active {
        BudgetDrops(g, u, active, p);
        MatchWithin(g, u, p);
        RefusedAtOnce(g, u, cache, active + {KeyOf(g, p)}, p);
        var v := Cached(g, u, cache, active, p);
        assert Accepted(v.cache) == Accepted(cache);
        NoneAccepted(g, u, v.cache, active, pairs[1..]);
      } else {
        NoneAccepted(g, u, cache, active, pairs[1..]);
      }
    }
  }

  lemma TruthfulSane(g: Graph, cache: Cache)
    requires DeclaredGraph(g) && Truthful(g, cache)
    ensures Sane(g, cache)
  {
    hide Match, Finite, Compatible;
    forall p: Pair | DeclaredPair(g, p) && KeyOf(g, p) in Accepted(cache) ensures Match(g, p) != NO {
      TruthLeans(g, p, cache, {});
    }
  }

  /**
   * With a truthful memo a call answers exactly if every union the reader leads to is settled.
   * Accepting leaves the memo truthful, and so does rejecting a reader that leads to no
   * recursion, or rejecting at first sight.
   */
  lemma MemoExact(g: Graph, u: set<Schema>, cache: Cache, p: Pair)
    requires DeclaredGraph(g) && Closed(g, u) && Inside(u, p) && Truthful(g, cache) && Uncontested(g, p.0)
    ensures var v := Cached(g, u, cache, {}, p);
            && (v.ok <==> Compatible(g, p))
            && RejectsRightly(g, v.cache)
            && (v.ok || Finite(g, p.0) || Match(g, p) == NO ==> Truthful(g, v.cache))
  {
    hide Match, Finite, Compatible, UncontestedPart;
    var v := Cached(g, u, cache, {}, p);
    var part: set<Schema> :| p.0 in part && UncontestedPart(g, part);
    TruthfulSane(g, cache);
    RejectionsTrue(g, u, cache, {}, p);
    AcceptedSoundly(g, u, part, cache, {}, p);
    AcceptancesJustified(g, u, cache, {}, p);
    if v.ok || Finite(g, p.0) || Match(g, p) == NO {
      assert forall keys: set<Key> :: keys + {} == keys;
      SelfSupporting(g, cache, v.cache);
    }
  }

  /** A reader that leads to no recursion needs nothing else: its unions are settled. */
  lemma FiniteUncontested(g: Graph, r: Schema)
    requires DeclaredGraph(g) && Declared(r, |g|) && Finite(g, r)
    ensures Uncontested(g, r)
  {
    var whole := Universe(g, r, r);
    UniverseClosed(g, r, r);
    var part := set s | s in whole && Finite(g, s);
    hide Shallow;
    forall s | s in part ensures ClosedUnder(part, s) && Deref(s) in part {
      FiniteParts(g, s);
    }
    forall id: nat, f | Named(id) in part && id < |g| && g[id].Record? && f in g[id].fields ensures f.typ in part {
      FiniteParts(g, Named(id));
    }
    forall s | s in part && s.Union? ensures Settled(g, s.types) {
      FiniteParts(g, s);
    }
    assert UncontestedPart(g, part);
  }

  lemma FiniteParts(g: Graph, s: Schema)
    requires DeclaredGraph(g) && Declared(s, |g|) && Finite(g, s)
    ensures Declared(Deref(s), |g|) && Finite(g, Deref(s))
    ensures s.Array? ==> Finite(g, s.items)
    ensures s.Map? ==> Finite(g, s.values)
    ensures s.Union? ==> forall t | t in s.types :: Finite(g, t)
    ensures s.Named? && g[s.id].Record? ==> forall f | f in g[s.id].fields :: Declared(f.typ, |g|) && Finite(g, f.typ)
  {
    hide Shallow;
    var k: nat :| Shallow(g, s, k);
    assert Shallow(g, Deref(s), k) by { DerefShallow(g, s, k); }
    forall t | PartOf(g, s, t) ensures Declared(t, |g|) && Finite(g, t) {
      PartShallow(g, s, t, k);
    }
    if s.Named? && g[s.id].Record? {
      FieldsAreParts(g, s, s.id);
      forall f | f in g[s.id].fields ensures PartOf(g, s, f.typ) {
        var j :| 0 <= j < |g[s.id].fields| && g[s.id].fields[j] == f;
      }
    }
  }

  lemma DerefShallow(g: Graph, s: Schema, k: nat)
    requires DeclaredGraph(g) && Declared(s, |g|) && Shallow(g, s, k)
    ensures Shallow(g, Deref(s), k)
  {
  }

  // --- calls one after another on one memo ---

  /** A truthful memo that a call on this reader keeps answering truly. */
  ghost predicate Reliable(g: Graph, cache: Cache, reader: Schema)
    requires DeclaredGraph(g)
  {
    Truthful(g, cache) && Uncontested(g, reader)
  }

  lemma CallExact(g: Graph, cache: Cache, reader: Schema, writer: Schema)
    requires DeclaredGraph(g) && Declared(reader, |g|) && Declared(writer, |g|) && Reliable(g, cache, reader)
    ensures var v := Call(g, cache, reader, writer);
            && (v.ok <==> Compatible(g, (reader, writer)))
            && RejectsRightly(g, v.cache)
            && (v.ok || Finite(g, reader) || Match(g, (reader, writer)) == NO ==> Truthful(g, v.cache))
  {
    hide Match, Compatible, Uncontested, Truthful, Finite;
    UniverseClosed(g, reader, writer);
    MemoExact(g, Universe(g, reader, writer), cache, (reader, writer));
  }

  /** A new memo answers truly for every reader that leads to no recursion. */
  lemma FreshReliable(g: Graph, r: Schema)
    requires DeclaredGraph(g) && Declared(r, |g|) && Finite(g, r)
    ensures Reliable(g, map[], r)
  {
    FiniteUncontested(g, r);
  }

  /** The memo after some calls. */
  function After(g: Graph, cache: Cache, calls: seq<Pair>): Cache
    requires DeclaredGraph(g) && forall p | p in calls :: DeclaredPair(g, p)
    decreases |calls|
  {
    if calls == [] then cache
    else
      var p := calls[0];
      assert DeclaredPair(g, p);
      After(g, Call(g, cache, p.0, p.1).cache, calls[1..])
  }

  /** A call that answers truly and leaves the memo true: only a recursive reader may be rejected late. */
  ghost predicate Harmless(g: Graph, p: Pair)
    requires DeclaredGraph(g) && DeclaredPair(g, p)
  {
    Uncontested(g, p.0) && (Finite(g, p.0) || Compatible(g, p) || Match(g, p) == NO)
  }

  /** After any run of such calls the memo is true, so that the next call is answered truly. */
  lemma {:induction false} HarmlessCalls(g: Graph, cache: Cache, calls: seq<Pair>)
    requires DeclaredGraph(g) && Truthful(g, cache) && forall p | p in calls :: DeclaredPair(g, p) && Harmless(g, p)
    ensures Truthful(g, After(g, cache, calls))
    decreases |calls|
  {
    hide Match, Compatible, Uncontested, Truthful, Finite, Call;
    if calls != [] {
      assert calls[0] in calls;
      CallExact(g, cache, calls[0].0, calls[0].1);
      HarmlessCalls(g, Call(g, cache, calls[0].0, calls[0].1).cache, calls[1..]);
    }
  }
}
