/** The memoised compatibility check: what its stored verdicts are worth. */
module Memo {
  import opened Schemas
  import opened Compatibility
  import opened Checking

  type Cache = map<Key, bool>

  datatype Verdict = Verdict(ok: bool, cache: Cache)

  // --- the check, threading the memo ---

  function Cached(g: Graph, ghost u: set<Schema>, cache: Cache, active: set<Key>, p: Pair): (v: Verdict)
    requires DeclaredGraph(g) && Closed(g, u) && Inside(u, p)
    ensures Kept(cache, v.cache) && Spares(active, cache, v.cache)
    decreases Budget(g, u, active), 1, 0
  {
    var key := KeyOf(g, p);
    if key in cache then Verdict(cache[key], cache)
    else if key in active then Verdict(true, cache)
    else
      BudgetDrops(g, u, active, p);
      MatchWithin(g, u, p);
      var v := CachedGoal(g, u, cache, active + {key}, Match(g, p));
      Verdict(v.ok, v.cache[key := v.ok])
  }

  function CachedGoal(g: Graph, ghost u: set<Schema>, cache: Cache, active: set<Key>, goal: Goal): (v: Verdict)
    requires DeclaredGraph(g) && Closed(g, u) && forall p | p in goal.pairs :: Inside(u, p)
    ensures Kept(cache, v.cache) && Spares(active, cache, v.cache)
    decreases Budget(g, u, active), 3, 0
  {
    match goal
    case All(pairs, last) =>
      var v := CachedAll(g, u, cache, active, pairs);
      Verdict(v.ok && last, v.cache)
    case Any(pairs) => CachedAny(g, u, cache, active, pairs)
  }

  function CachedAll(g: Graph, ghost u: set<Schema>, cache: Cache, active: set<Key>, pairs: seq<Pair>): (v: Verdict)
    requires DeclaredGraph(g) && Closed(g, u) && forall p | p in pairs :: Inside(u, p)
    ensures Kept(cache, v.cache) && Spares(active, cache, v.cache)
    decreases Budget(g, u, active), 2, |pairs|
  {
    if pairs == [] then Verdict(true, cache)
    else
      var v := Cached(g, u, cache, active, pairs[0]);
      if v.ok then CachedAll(g, u, v.cache, active, pairs[1..]) else v
  }

  function CachedAny(g: Graph, ghost u: set<Schema>, cache: Cache, active: set<Key>, pairs: seq<Pair>): (v: Verdict)
    requires DeclaredGraph(g) && Closed(g, u) && forall p | p in pairs :: Inside(u, p)
    ensures Kept(cache, v.cache) && Spares(active, cache, v.cache)
    decreases Budget(g, u, active), 2, |pairs|
  {
    if pairs == [] then Verdict(false, cache)
    else
      var v := Cached(g, u, cache, active, pairs[0]);
      if v.ok then v else CachedAny(g, u, v.cache, active, pairs[1..])
  }

  /** A call on behalf of a user: nothing is active yet. */
  function Call(g: Graph, cache: Cache, reader: Schema, writer: Schema): (v: Verdict)
    requires DeclaredGraph(g) && Declared(reader, |g|) && Declared(writer, |g|)
    ensures Kept(cache, v.cache)
  {
    UniverseClosed(g, reader, writer);
    Cached(g, Universe(g, reader, writer), cache, {}, (reader, writer))
  }

  /** No verdict is stored for a pair that is still active. */
  predicate Spares(active: set<Key>, cache: Cache, cache': Cache) {
    forall k | k in active && k !in cache :: k !in cache'
  }

  /** Stored verdicts are never replaced. */
  predicate Kept(cache: Cache, cache': Cache) {
    forall k :: k in cache ==> k in cache' && cache'[k] == cache[k]
  }

  function Accepted(cache: Cache): set<Key> {
    set k | k in cache && cache[k]
  }

  function Rejected(cache: Cache): set<Key> {
    set k | k in cache && !cache[k]
  }

  // --- rejections are always true ---

  ghost predicate RejectsRightly(g: Graph, cache: Cache)
    requires DeclaredGraph(g)
  {
    forall p: Pair | DeclaredPair(g, p) && KeyOf(g, p) in Rejected(cache) :: !Compatible(g, p)
  }

  ghost predicate AcceptsRightly(g: Graph, cache: Cache)
    requires DeclaredGraph(g)
  {
    forall p: Pair | DeclaredPair(g, p) && KeyOf(g, p) in Accepted(cache) :: Compatible(g, p)
  }

  lemma CompatibleStep(g: Graph, p: Pair)
    requires DeclaredGraph(g) && Compatible(g, p)
    ensures DeclaredPair(g, p) && Holds(Match(g, p), Greatest(g, {}))
  {
    FixpointConsistent(g, {});
    assert p in Greatest(g, {});
  }

  lemma {:induction false} RejectionsTrue(g: Graph, u: set<Schema>, cache: Cache, active: set<Key>, p: Pair)
    requires DeclaredGraph(g) && Closed(g, u) && Inside(u, p) && RejectsRightly(g, cache)
    ensures var v := Cached(g, u, cache, active, p);
            RejectsRightly(g, v.cache) && (!v.ok ==> !Compatible(g, p))
    decreases Budget(g, u, active), 1, 0
  {
    var key := KeyOf(g, p);
    if key !in cache && key !in active {
      BudgetDrops(g, u, active, p);
      MatchWithin(g, u, p);
      var goal := Match(g, p);
      if goal.All? {
        AllRejectionsTrue(g, u, cache, active + {key}, goal.pairs);
      } else {
        AnyRejectionsTrue(g, u, cache, active + {key}, goal.pairs);
      }
      StoreRejects(g, CachedGoal(g, u, cache, active + {key}, goal), p);
    }
  }

  lemma StoreRejects(g: Graph, v: Verdict, p: Pair)
    requires DeclaredGraph(g) && DeclaredPair(g, p) && RejectsRightly(g, v.cache)
    requires !v.ok ==> !Holds(Match(g, p), Greatest(g, {}))
    ensures RejectsRightly(g, v.cache[KeyOf(g, p) := v.ok]) && (!v.ok ==> !Compatible(g, p))
  {
    if Compatible(g, p) {
      CompatibleStep(g, p);
    }
    forall q: Pair | DeclaredPair(g, q) && KeyOf(g, q) in Rejected(v.cache[KeyOf(g, p) := v.ok])
      ensures !Compatible(g, q)
    {
      if KeyOf(g, q) == KeyOf(g, p) && Compatible(g, q) {
        FixpointByKey(g, {}, q, p);
      }
    }
  }

  lemma {:induction false} AllRejectionsTrue(g: Graph, u: set<Schema>, cache: Cache, active: set<Key>, pairs: seq<Pair>)
    requires DeclaredGraph(g) && Closed(g, u) && RejectsRightly(g, cache)
    requires forall p | p in pairs :: Inside(u, p)
    ensures var v := CachedAll(g, u, cache, active, pairs);
            RejectsRightly(g, v.cache) && (!v.ok ==> exists p | p in pairs :: !Compatible(g, p))
    decreases Budget(g, u, active), 2, |pairs|
  {
    if pairs != [] {
      RejectionsTrue(g, u, cache, active, pairs[0]);
      var v := Cached(g, u, cache, active, pairs[0]);
      if v.ok {
        AllRejectionsTrue(g, u, v.cache, active, pairs[1..]);
      } else {
        assert pairs[0] in pairs;
      }
    }
  }

  lemma {:induction false} AnyRejectionsTrue(g: Graph, u: set<Schema>, cache: Cache, active: set<Key>, pairs: seq<Pair>)
    requires DeclaredGraph(g) && Closed(g, u) && RejectsRightly(g, cache)
    requires forall p | p in pairs :: Inside(u, p)
    ensures var v := CachedAny(g, u, cache, active, pairs);
            RejectsRightly(g, v.cache) && (!v.ok ==> forall p | p in pairs :: !Compatible(g, p))
    decreases Budget(g, u, active), 2, |pairs|
  {
    if pairs != [] {
      RejectionsTrue(g, u, cache, active, pairs[0]);
      var v := Cached(g, u, cache, active, pairs[0]);
      if !v.ok {
        var rest := pairs[1..];
        AnyRejectionsTrue(g, u, v.cache, active, rest);
        forall p | p in pairs && !CachedAny(g, u, v.cache, active, rest).ok ensures !Compatible(g, p) {
          assert p == pairs[0] || p in rest;
        }
      }
    }
  }

  // --- acceptances are provisional ---

  /** What an acceptance stored during a call may lean on: other acceptances, the pairs
      assumed by the caller, and pairs that were assumed during the call and then rejected. */
  function Support(cache: Cache, cache': Cache, active: set<Key>): set<Key> {
    Accepted(cache') + active + (Rejected(cache') - Rejected(cache))
  }

  ghost function WithKeys(g: Graph, keys: set<Key>): iset<Pair>
    requires DeclaredGraph(g)
  {
    iset p: Pair | DeclaredPair(g, p) && KeyOf(g, p) in keys
  }

  ghost predicate Justified(g: Graph, cache: Cache, cache': Cache, active: set<Key>)
    requires DeclaredGraph(g)
  {
    forall p: Pair | DeclaredPair(g, p) && KeyOf(g, p) in Accepted(cache') && KeyOf(g, p) !in cache ::
      Holds(Match(g, p), WithKeys(g, Support(cache, cache', active)))
  }

  lemma JustifiedBy(g: Graph, a: Cache, b: Cache, active: set<Key>, c: Cache, d: Cache, active': set<Key>, p: Pair)
    requires DeclaredGraph(g) && Justified(g, a, b, active)
    requires DeclaredPair(g, p) && KeyOf(g, p) in Accepted(b) && KeyOf(g, p) !in a
    requires Support(a, b, active) <= Support(c, d, active')
    ensures Holds(Match(g, p), WithKeys(g, Support(c, d, active')))
  {
    HoldsMonotone(Match(g, p), WithKeys(g, Support(a, b, active)), WithKeys(g, Support(c, d, active')));
  }

  lemma JustifiedChain(g: Graph, a: Cache, b: Cache, c: Cache, active: set<Key>)
    requires DeclaredGraph(g) && Kept(a, b) && Kept(b, c)
    requires Justified(g, a, b, active) && Justified(g, b, c, active)
    ensures Justified(g, a, c, active)
  {
    forall p: Pair | DeclaredPair(g, p) && KeyOf(g, p) in Accepted(c) && KeyOf(g, p) !in a
      ensures Holds(Match(g, p), WithKeys(g, Support(a, c, active)))
    {
      if KeyOf(g, p) in b {
        JustifiedBy(g, a, b, active, a, c, active, p);
      } else {
        JustifiedBy(g, b, c, active, a, c, active, p);
      }
    }
  }

  /** The pairs of a goal that was found to hold lie among `keys`. */
  ghost predicate Covered(g: Graph, goal: Goal, keys: set<Key>)
    requires DeclaredGraph(g)
  {
    Holds(goal, WithKeys(g, keys))
  }

  lemma {:induction false} AcceptancesJustified(g: Graph, u: set<Schema>, cache: Cache, active: set<Key>, p: Pair)
    requires DeclaredGraph(g) && Closed(g, u) && Inside(u, p)
    ensures var v := Cached(g, u, cache, active, p);
            Justified(g, cache, v.cache, active) && (v.ok ==> KeyOf(g, p) in Accepted(v.cache) + active)
    decreases Budget(g, u, active), 1, 0
  {
    hide Match, CachedGoal, Justified, Compatible;
    JustifiedSame(g, cache, active);
    var key := KeyOf(g, p);
    if key !in cache && key !in active {
      BudgetDrops(g, u, active, p);
      MatchWithin(g, u, p);
      GoalJustified(g, u, cache, active + {key}, Match(g, p));
      var v := CachedGoal(g, u, cache, active + {key}, Match(g, p));
      StoreJustified(g, cache, v, active, p);
      StoredOrDecided(v, active, key);
    }
  }

  lemma StoredOrDecided(v: Verdict, active: set<Key>, key: Key)
    ensures v.ok ==> key in Accepted(v.cache[key := v.ok]) + active
  {
  }

  lemma JustifiedSame(g: Graph, cache: Cache, active: set<Key>)
    requires DeclaredGraph(g)
    ensures Justified(g, cache, cache, active)
  {
  }

  /** Storing the verdict of `p` moves its key from the assumed to the stored ones. */
  lemma StoreJustified(g: Graph, cache: Cache, v: Verdict, active: set<Key>, p: Pair)
    requires DeclaredGraph(g) && DeclaredPair(g, p) && KeyOf(g, p) !in cache && Kept(cache, v.cache)
    requires Spares(active + {KeyOf(g, p)}, cache, v.cache)
    requires Justified(g, cache, v.cache, active + {KeyOf(g, p)})
    requires v.ok ==> Covered(g, Match(g, p), Accepted(v.cache) + (active + {KeyOf(g, p)}))
    ensures Justified(g, cache, v.cache[KeyOf(g, p) := v.ok], active)
  {
    var key := KeyOf(g, p);
    var stored := v.cache[key := v.ok];
    assert Accepted(v.cache) <= Accepted(stored) && Rejected(v.cache) <= Rejected(stored);
    assert key in Accepted(stored) + Rejected(stored);
    assert Support(cache, v.cache, active + {key}) <= Support(cache, stored, active);
    forall q: Pair | DeclaredPair(g, q) && KeyOf(g, q) in Accepted(stored) && KeyOf(g, q) !in cache
      ensures Holds(Match(g, q), WithKeys(g, Support(cache, stored, active)))
    {
      if KeyOf(g, q) == key {
        MatchSame(g, p, q);
        HoldsSame(g, Match(g, p), Match(g, q), WithKeys(g, Accepted(v.cache) + (active + {key})),
                  WithKeys(g, Support(cache, stored, active)));
      } else {
        JustifiedBy(g, cache, v.cache, active + {key}, cache, stored, active, q);
      }
    }
  }

  lemma {:induction false} GoalJustified(g: Graph, u: set<Schema>, cache: Cache, active: set<Key>, goal: Goal)
    requires DeclaredGraph(g) && Closed(g, u) && forall p | p in goal.pairs :: Inside(u, p)
    ensures var v := CachedGoal(g, u, cache, active, goal);
            && Justified(g, cache, v.cache, active)
            && (v.ok ==> Covered(g, goal, Accepted(v.cache) + active))
    decreases Budget(g, u, active), 3, 0
  {
    match goal
    case All(pairs, _) => AllJustified(g, u, cache, active, pairs);
    case Any(pairs) => AnyJustified(g, u, cache, active, pairs);
  }

  lemma {:induction false} AllJustified(g: Graph, u: set<Schema>, cache: Cache, active: set<Key>, pairs: seq<Pair>)
    requires DeclaredGraph(g) && Closed(g, u) && forall p | p in pairs :: Inside(u, p)
    ensures var v := CachedAll(g, u, cache, active, pairs);
            && Justified(g, cache, v.cache, active)
            && (v.ok ==> forall p | p in pairs :: KeyOf(g, p) in Accepted(v.cache) + active)
    decreases Budget(g, u, active), 2, |pairs|
  {
    if pairs != [] {
      AcceptancesJustified(g, u, cache, active, pairs[0]);
      var v := Cached(g, u, cache, active, pairs[0]);
      if v.ok {
        AllJustified(g, u, v.cache, active, pairs[1..]);
        JustifiedChain(g, cache, v.cache, CachedAll(g, u, v.cache, active, pairs[1..]).cache, active);
        assert pairs == [pairs[0]] + pairs[1..];
      }
    }
  }

  lemma {:induction false} AnyJustified(g: Graph, u: set<Schema>, cache: Cache, active: set<Key>, pairs: seq<Pair>)
    requires DeclaredGraph(g) && Closed(g, u) && forall p | p in pairs :: Inside(u, p)
    ensures var v := CachedAny(g, u, cache, active, pairs);
            && Justified(g, cache, v.cache, active)
            && (v.ok ==> exists p | p in pairs :: KeyOf(g, p) in Accepted(v.cache) + active)
    decreases Budget(g, u, active), 2, |pairs|
  {
    if pairs != [] {
      AcceptancesJustified(g, u, cache, active, pairs[0]);
      var v := Cached(g, u, cache, active, pairs[0]);
      if v.ok {
        assert pairs[0] in pairs;
      } else {
        AnyJustified(g, u, v.cache, active, pairs[1..]);
        JustifiedChain(g, cache, v.cache, CachedAny(g, u, v.cache, active, pairs[1..]).cache, active);
      }
    }
  }

  /** A top-level call that stores no rejection keeps a truthful memo truthful. */
  lemma NoRejectionNoHarm(g: Graph, u: set<Schema>, cache: Cache, p: Pair)
    requires DeclaredGraph(g) && Closed(g, u) && Inside(u, p) && AcceptsRightly(g, cache)
    requires Rejected(Cached(g, u, cache, {}, p).cache) <= Rejected(cache)
    ensures AcceptsRightly(g, Cached(g, u, cache, {}, p).cache)
  {
    var c := Cached(g, u, cache, {}, p).cache;
    AcceptancesJustified(g, u, cache, {}, p);
    assert Support(cache, c, {}) == Accepted(c);
    forall p: Pair | DeclaredPair(g, p) && KeyOf(g, p) in Accepted(c) && KeyOf(g, p) !in cache
      ensures Holds(Match(g, p), WithKeys(g, Accepted(c)) + Greatest(g, {}))
    {
      HoldsMonotone(Match(g, p), WithKeys(g, Support(cache, c, {})), WithKeys(g, Accepted(c)) + Greatest(g, {}));
    }
    SelfSupporting(g, cache, c);
  }

  /** Acceptances that lean only on each other and on true ones are true. */
  lemma SelfSupporting(g: Graph, cache: Cache, c: Cache)
    requires DeclaredGraph(g) && AcceptsRightly(g, cache) && Kept(cache, c)
    requires forall p: Pair | DeclaredPair(g, p) && KeyOf(g, p) in Accepted(c) && KeyOf(g, p) !in cache ::
               Holds(Match(g, p), WithKeys(g, Accepted(c)) + Greatest(g, {}))
    ensures AcceptsRightly(g, c)
  {
    FixpointConsistent(g, {});
    var x := WithKeys(g, Accepted(c)) + Greatest(g, {});
    forall q | q in x ensures DeclaredPair(g, q) && Holds(Match(g, q), x) {
      if q in Greatest(g, {}) || KeyOf(g, q) in cache {
        assert Compatible(g, q);
        HoldsMonotone(Match(g, q), Greatest(g, {}), x);
      }
    }
    assert Consistent(g, x, {});
  }
}
