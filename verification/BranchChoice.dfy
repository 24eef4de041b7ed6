/** The branch of a reader union that a resolution takes, on the word of the memoised check. */
module BranchChoice {
  import opened Wire
  import opened Schemas
  import opened Compatibility
  import opened Checking
  import opened Unfoldings
  import opened Memo
  import opened MemoExactness
  import opened Meanings

  datatype Choice = Choice(branch: Option<nat>, cache: Cache) {
    /** Counted from `n` branches earlier. */
    function Behind(n: nat): Choice {
      Choice(if branch.Some? then Some(branch.value + n) else None, cache)
    }
  }

  /** The first branch accepted by one call after another on the same memo. */
  function FirstCached(g: Graph, cache: Cache, types: seq<Schema>, w: Schema): (c: Choice)
    requires DeclaredGraph(g) && Declared(w, |g|) && forall t | t in types :: Declared(t, |g|)
    ensures c.branch.Some? ==> c.branch.value < |types|
    decreases |types|
  {
    if types == [] then Choice(None, cache)
    else
      var v := Call(g, cache, types[0], w);
      if v.ok then Choice(Some(0), v.cache)
      else FirstCached(g, v.cache, types[1..], w).Behind(1)
  }

  /**
   * With a truthful memo and a settled reader union it is the first branch that truly matches,
   * and the memo stays truthful.
   */
  lemma {:induction false} FirstCachedExact(g: Graph, cache: Cache, types: seq<Schema>, w: Schema)
    requires DeclaredGraph(g) && Declared(w, |g|) && !w.Union? && !w.Ref? && Truthful(g, cache)
    requires forall t | t in types :: Declared(t, |g|) && !t.Union? && Uncontested(g, t)
    requires Settled(g, types) && FirstMatch(g, types, w).Some?
    ensures var r := FirstCached(g, cache, types, w);
            r.branch == FirstMatch(g, types, w) && Truthful(g, r.cache)
    decreases |types|
  {
    hide Match, Compatible, Uncontested, Check, Truthful, Finite, Call;
    var p := (types[0], w);
    CallExact(g, cache, types[0], w);
    CheckExact(g, types[0], w);
    var v := Call(g, cache, types[0], w);
    if !v.ok {
      SettledTail(g, types);
      if !Finite(g, types[0]) && Match(g, p) != NO {
        OthersRefused(g, types, w);
        NoneMatches(g, types[1..], w);
      }
      FirstCachedExact(g, v.cache, types[1..], w);
    }
  }

  lemma {:induction false} NoneMatches(g: Graph, types: seq<Schema>, w: Schema)
    requires DeclaredGraph(g) && Declared(w, |g|)
    requires forall t | t in types :: Declared(t, |g|) && Match(g, (t, w)) == NO
    ensures FirstMatch(g, types, w).None?
    decreases |types|
  {
    hide Match, Check;
    if types != [] {
      var p := (types[0], w);
      assert types[0] in types;
      CheckExact(g, types[0], w);
      if Compatible(g, p) {
        CompatibleStep(g, p);
      }
      NoneMatches(g, types[1..], w);
    }
  }
}
