/** A compatible pair that a resolution refuses because the memo misleads it. */
module MisledResolution {
  import opened Wire
  import opened Schemas
  import opened Compatibility
  import opened Checking
  import opened Plans
  import Meanings
  import opened Memo
  import MemoExactness
  import opened BranchChoice
  import opened MisledMemo
  import opened Fitting
  import opened SchemaCompatibility
  import opened SchemaResolution

  /** y.A cannot be resolved against A: in it x.A would read A, and a string an int. */
  lemma NoFit(g: Graph, recs: Records)
    requires Namespaced(g) && DeclaredGraph(g) && Fitted(g, recs, {})
    ensures !Fit(g, recs, Named(4), Named(2))
  {
    hide FieldsFit;
    if Fit(g, recs, Named(4), Named(2)) {
      assert PairFits(g, recs, 4, 2);
      FieldOfC(g, recs);
      assert PairFits(g, recs, 1, 3);
      FieldOfB(g, recs);
      assert PairFits(g, recs, 0, 2);
      FieldOfA(g, recs);
    }
  }

  lemma FieldOfC(g: Graph, recs: Records)
    requires Namespaced(g) && DeclaredGraph(g) && PairFits(g, recs, 4, 2)
    ensures (1, 3) in recs
  {
    OneFieldMatched(g[4].fields, g[2].fields);
    assert Fit(g, recs, Ref(1), Named(3));
  }

  lemma FieldOfB(g: Graph, recs: Records)
    requires Namespaced(g) && DeclaredGraph(g) && PairFits(g, recs, 1, 3)
    ensures (0, 2) in recs
  {
    OneFieldMatched(g[1].fields, g[3].fields);
    assert Fit(g, recs, Ref(0), Ref(2));
  }

  lemma FieldOfA(g: Graph, recs: Records)
    requires Namespaced(g) && DeclaredGraph(g)
    ensures !PairFits(g, recs, 0, 2)
  {
    TwoFieldsMatched(g[0].fields, g[2].fields);
    assert !Fit(g, recs, STRING, INT);
  }

  /**
   * The reader union of x.A, y.A and z.A can read the writer, by its third branch, but on a
   * fresh memo the resolution descends into the second and reports an error.
   */
  method CompatibleButRefused(checker: Checker, g: Graph) returns (ok: bool)
    requires Namespaced(g) && checker.cache == map[]
    modifies checker
    ensures DeclaredGraph(g) && Declared(THREE, |g|) && Compatible(g, (THREE, Named(2))) && !ok
  {
    hide Match, Cached, Fit, Fitted, Compatible, FirstCached, Meanings.FirstMatch, Complete, Plan, Namespaced, Call, MemoExactness.Reliable, ChoiceFits, DeclaredGraph;
    Wrong(g);
    var s, h;
    ghost var recs;
    ok, s, h, recs := Resolve(checker, g, THREE, Named(2));
    if ok {
      NoPlan(g, recs, Call(g, map[], THREE, Named(2)).cache);
    }
  }

  /** The memo names the second branch of a reader union. */
  ghost predicate TakesSecond(g: Graph, cache: Cache, r: Schema, w: Schema)
    requires DeclaredGraph(g) && Declared(r, |g|) && Declared(w, |g|) && r.Union?
  {
    FirstCached(g, cache, r.types, w).branch == Some(1)
  }

  lemma Wrong(g: Graph)
    requires Namespaced(g)
    ensures DeclaredGraph(g) && Declared(THREE, |g|) && Declared(Named(2), |g|) && Compatible(g, (THREE, Named(2)))
    ensures TakesSecond(g, Call(g, map[], THREE, Named(2)).cache, THREE, Named(2))
  {
    hide Match, Cached, Compatible, FirstCached;
    NamespacedDeclared(g);
    GoalOfThree(g);
    UniverseClosed(g, THREE, Named(2));
    WrongBranch(g, Universe(g, THREE, Named(2)));
  }

  /** A plan would have to fit the second branch. */
  lemma NoPlan(g: Graph, recs: Records, cache: Cache)
    requires Namespaced(g) && DeclaredGraph(g) && Declared(THREE, |g|) && Declared(Named(2), |g|)
    requires TakesSecond(g, cache, THREE, Named(2)) && Fitted(g, recs, {})
    ensures !ChoiceFits(g, recs, cache, THREE, Named(2))
  {
    hide Fit, Fitted, FirstCached;
    NoFit(g, recs);
  }
}
