/** Compiling a compatible pair of schemas into a decode plan, as the program runs it. */
module SchemaResolution {
  import opened Wire
  import opened Schemas
  import opened Values
  import opened Compatibility
  import opened Checking
  import opened Memo
  import opened MemoExactness
  import opened BranchChoice
  import opened Fitting
  import opened Meanings
  import opened Plans
  import opened Preservation
  import opened PlanGrowth
  import opened ResolvedFields
  import opened SchemaCompatibility

  /** What compatibility of two records gives their fields. */
  ghost predicate FieldsCompatible(g: Graph, rs: seq<Field>, ws: seq<Field>)
    requires DeclaredGraph(g)
    requires forall f | f in rs :: Declared(f.typ, |g|)
    requires forall f | f in ws :: Declared(f.typ, |g|)
  {
    var m := MatchFields(Labels(rs), Labels(ws), {});
    && m.Some? && Bounded(m.value, |ws|)
    && forall j :: 0 <= j < |rs| ==>
         && (m.value[j].None? ==> rs[j].def.Some?)
         && (m.value[j].Some? ==> Check(g, rs[j].typ, ws[m.value[j].value].typ))
  }

  lemma RecordsCompatible(g: Graph, i: nat, j: nat)
    requires DeclaredGraph(g) && i < |g| && j < |g| && g[i].Record? && g[j].Record?
    requires Check(g, Named(i), Named(j))
    ensures FieldsCompatible(g, g[i].fields, g[j].fields)
  {
    CheckStep(g, Named(i), Named(j));
    var rs, ws := g[i].fields, g[j].fields;
    MatchFieldsBounds(Labels(rs), Labels(ws), {});
    var m := MatchFields(Labels(rs), Labels(ws), {}).value;
    forall k | 0 <= k < |rs|
      ensures m[k].None? ==> rs[k].def.Some?
      ensures m[k].Some? ==> Check(g, rs[k].typ, ws[m[k].value].typ)
    {
      FieldGoalMeans(rs, ws, m, k);
    }
  }

  lemma UnionCompatible(g: Graph, r: Schema, w: Schema, k: nat)
    requires DeclaredGraph(g) && Declared(r, |g|) && Declared(w, |g|) && Check(g, r, w)
    requires w.Union? && !r.Ref? && k < |w.types|
    ensures Check(g, r, w.types[k])
  {
    hide Check, Match;
    CheckStep(g, r, w);
    UnionGoal(g, r, w);
    assert WithReader(r, w.types)[k] in WithReader(r, w.types);
  }

  lemma UnionGoal(g: Graph, r: Schema, w: Schema)
    requires DeclaredGraph(g) && Declared(r, |g|) && Declared(w, |g|) && w.Union? && !r.Ref?
    ensures Match(g, (r, w)) == All(WithReader(r, w.types), true)
  {
  }

  lemma BranchCompatible(g: Graph, r: Schema, w: Schema)
    requires DeclaredGraph(g) && Declared(r, |g|) && Declared(w, |g|) && Check(g, r, w)
    requires r.Union? && !w.Union?
    ensures FirstMatch(g, r.types, Deref(w)).Some?
  {
    hide Check;
    CheckStep(g, r, w);
    var ps := WithWriter(r.types, Deref(w));
    var p :| p in ps && Check(g, p.0, p.1);
    var k :| 0 <= k < |ps| && ps[k] == p;
    FirstMatchIsFirst(g, r.types, Deref(w), k);
  }

  lemma DerefCompatible(g: Graph, r: Schema, w: Schema)
    requires DeclaredGraph(g) && Declared(r, |g|) && Declared(w, |g|)
    ensures Check(g, r, w) <==> Check(g, Deref(r), Deref(w))
  {
    CheckExact(g, r, w);
    CheckExact(g, Deref(r), Deref(w));
    DerefMatch(g, (r, w));
    if Compatible(g, (r, w)) {
      FixpointConsistent(g, {});
      FixpointAdd(g, (Deref(r), Deref(w)));
    }
    if Compatible(g, (Deref(r), Deref(w))) {
      FixpointConsistent(g, {});
      FixpointAdd(g, (r, w));
    }
  }

  lemma ReaderIs(readers: seq<Label>, writers: seq<Label>, m: seq<Option<nat>>, j: nat, k: nat)
    requires MatchFields(readers, writers, {}) == Some(m) && j < |m| && m[j] == Some(k)
    ensures ReaderOf(m, k) == Some(j)
  {
    MatchedOnce(readers, writers, {}, ReaderOf(m, k).value, j);
  }

  /** Reader positions by writer position. */
  method WriterToReader(matched: map<nat, nat>, ghost m: seq<Option<nat>>, ghost readerLabels: seq<Label>, ghost writerLabels: seq<Label>, n: nat)
    returns (readers: map<nat, nat>)
    requires MatchFields(readerLabels, writerLabels, {}) == Some(m) && |m| == n && matched == AsMap(m, 0)
    ensures forall k: nat :: k in readers <==> ReaderOf(m, k).Some?
    ensures forall k: nat :: k in readers ==> Some(readers[k]) == ReaderOf(m, k)
  {
    hide MatchFields, ReaderOf;
    readers := map[];
    AsMapBounds(m, 0);
    for j := 0 to n
      invariant forall k: nat :: k in readers ==> readers[k] < j && m[readers[k]] == Some(k)
      invariant forall i :: 0 <= i < j && m[i].Some? ==> m[i].value in readers
    {
      if j in matched {
        readers := readers[matched[j] := j];
      }
    }
    forall k: nat
      ensures k in readers <==> ReaderOf(m, k).Some?
    {
      var j := ReaderOf(m, k);
      assert j.Some? ==> m[j.value] == Some(k);
    }
    forall k: nat | k in readers
      ensures Some(readers[k]) == ReaderOf(m, k)
    {
      ReaderIs(readerLabels, writerLabels, m, readers[k], k);
    }
  }

  /** The reader's defaults for what the writer lacks. */
  method ReaderOnlyFields(rs: seq<Field>, matched: map<nat, nat>, ghost m: seq<Option<nat>>) returns (fields: seq<Field>)
    requires |m| == |rs| && matched == AsMap(m, 0)
    ensures fields == DefaultFields(rs, m)
  {
    hide AsMap;
    fields := [];
    AsMapBounds(m, 0);
    for j := 0 to |rs|
      invariant fields + DefaultFields(rs[j..], m[j..]) == DefaultFields(rs, m)
    {
      assert rs[j..][1..] == rs[j + 1..] && m[j..][1..] == m[j + 1..];
      Regroup(fields, [DefaultField(rs[j])], DefaultFields(rs[j + 1..], m[j + 1..]));
      if j !in matched {
        fields := fields + [DefaultField(rs[j])];
      }
    }
  }

  /** The plans of the first writer fields. */
  ghost predicate FrontPlans(g: Graph, recs: Records, h: Graph, rs: seq<Field>, ws: seq<Field>, m: seq<Option<nat>>,
                             front: seq<Field>)
    requires DeclaredGraph(g) && |m| == |rs|
    requires forall f | f in rs :: Declared(f.typ, |g|)
    requires forall f | f in ws :: Declared(f.typ, |g|)
  {
    |front| <= |ws| && forall k :: 0 <= k < |front| ==> WriterFieldPlan(g, recs, h, rs, ws, m, k, front[k])
  }

  lemma NoFrontPlans(g: Graph, recs: Records, h: Graph, rs: seq<Field>, ws: seq<Field>, m: seq<Option<nat>>)
    requires DeclaredGraph(g) && |m| == |rs|
    requires forall f | f in rs :: Declared(f.typ, |g|)
    requires forall f | f in ws :: Declared(f.typ, |g|)
    ensures FrontPlans(g, recs, h, rs, ws, m, [])
  {
  }

  lemma FrontGrows(g: Graph, recs: Records, h: Graph, recs': Records, h': Graph, rs: seq<Field>, ws: seq<Field>,
                   m: seq<Option<nat>>, front: seq<Field>)
    requires DeclaredGraph(g) && |m| == |rs|
    requires forall f | f in rs :: Declared(f.typ, |g|)
    requires forall f | f in ws :: Declared(f.typ, |g|)
    requires Later(recs, h, recs', h') && FrontPlans(g, recs, h, rs, ws, m, front)
    ensures FrontPlans(g, recs', h', rs, ws, m, front)
  {
    forall k | 0 <= k < |front|
      ensures WriterFieldPlan(g, recs', h', rs, ws, m, k, front[k])
    {
      FieldPlanGrows(g, recs, h, recs', h', rs, ws, m, k, front[k]);
    }
  }

  lemma FrontNext(g: Graph, recs: Records, h: Graph, rs: seq<Field>, ws: seq<Field>, m: seq<Option<nat>>,
                  front: seq<Field>, f: Field)
    requires DeclaredGraph(g) && |m| == |rs| && |front| < |ws|
    requires forall f | f in rs :: Declared(f.typ, |g|)
    requires forall f | f in ws :: Declared(f.typ, |g|)
    requires FrontPlans(g, recs, h, rs, ws, m, front) && WriterFieldPlan(g, recs, h, rs, ws, m, |front|, f)
    ensures FrontPlans(g, recs, h, rs, ws, m, front + [f])
  {
    hide WriterFieldPlan, Declared, DeclaredGraph;
  }

  lemma IgnoredPlan(g: Graph, recs: Records, h: Graph, rs: seq<Field>, ws: seq<Field>, m: seq<Option<nat>>, k: nat)
    requires DeclaredGraph(g) && |m| == |rs| && k < |ws| && ReaderOf(m, k).None?
    requires forall f | f in rs :: Declared(f.typ, |g|)
    requires forall f | f in ws :: Declared(f.typ, |g|)
    ensures WriterFieldPlan(g, recs, h, rs, ws, m, k, IgnoredField(ws[k]))
  {
    hide Plan;
  }

  lemma KeptPlan(g: Graph, recs: Records, h: Graph, rs: seq<Field>, ws: seq<Field>, m: seq<Option<nat>>, k: nat,
                 j: nat, typ: Schema)
    requires DeclaredGraph(g) && |m| == |rs| && k < |ws| && ReaderOf(m, k) == Some(j)
    requires forall f | f in rs :: Declared(f.typ, |g|)
    requires forall f | f in ws :: Declared(f.typ, |g|)
    requires Plan(g, recs, h, rs[j].typ, ws[k].typ, typ)
    ensures WriterFieldPlan(g, recs, h, rs, ws, m, k, KeptField(rs[j], typ))
  {
    hide Plan;
  }

  function KeptField(r: Field, typ: Schema): Field {
    Field(r.name, r.aliases, typ, r.def, Keep)
  }

  /** Writer fields in order, then the defaults: a sound and valid list of plan fields. */
  lemma FieldsCompleted(g: Graph, recs: Records, h: Graph, rs: seq<Field>, ws: seq<Field>,
                        m: seq<Option<nat>>, front: seq<Field>)
    requires DeclaredGraph(g) && Embeds(g, h) && ValidFields(rs) && ValidFields(ws)
    requires forall f | f in rs :: Declared(f.typ, |g|)
    requires forall f | f in ws :: Declared(f.typ, |g|)
    requires FieldsCompatible(g, rs, ws) && MatchFields(Labels(rs), Labels(ws), {}) == Some(m)
    requires FrontPlans(g, recs, h, rs, ws, m, front) && |front| == |ws|
    ensures FieldsPlan(g, recs, h, rs, ws, front + DefaultFields(rs, m))
    ensures ValidFields(front + DefaultFields(rs, m))
  {
    hide Check, Plan, ValidFields, WriterFieldPlan, DefaultFields;
    var fields := front + DefaultFields(rs, m);
    assert fields[|ws|..] == DefaultFields(rs, m);
    PlanFieldsValid(g, recs, h, rs, ws, m, fields);
  }

  lemma FitDeref(g: Graph, recs: Records, r: Schema, w: Schema)
    requires DeclaredGraph(g) && Declared(r, |g|) && Declared(w, |g|)
    ensures Fit(g, recs, r, w) <==> Fit(g, recs, Deref(r), Deref(w))
  {
  }

  lemma UnlikeRefused(g: Graph, r: Schema, w: Schema)
    requires DeclaredGraph(g) && Declared(r, |g|) && Declared(w, |g|) && !r.Ref? && !w.Ref?
    requires TypeOf(g, r) != TypeOf(g, w) && !r.Union? && !w.Union?
    requires !(r.Primitive? && w.Primitive? && Promotable(w.kind, r.kind))
    ensures !Check(g, r, w)
  {
    hide Check;
    if Check(g, r, w) {
      CheckStep(g, r, w);
    }
  }

  /** The parts of a compatible pair of one type are compatible. */
  lemma LikeStep(g: Graph, r: Schema, w: Schema)
    requires DeclaredGraph(g) && Declared(r, |g|) && Declared(w, |g|) && !r.Ref? && !w.Ref?
    requires TypeOf(g, r) == TypeOf(g, w) && Check(g, r, w)
    ensures r.Array? ==> w.Array? && Check(g, r.items, w.items)
    ensures r.Map? ==> w.Map? && Check(g, r.values, w.values)
  {
    hide Check, Match, TypeOf;
    CheckStep(g, r, w);
    LikeGoal(g, r, w);
  }

  lemma LikeGoal(g: Graph, r: Schema, w: Schema)
    requires DeclaredGraph(g) && Declared(r, |g|) && Declared(w, |g|) && !r.Ref? && !w.Ref?
    requires TypeOf(g, r) == TypeOf(g, w)
    ensures r.Array? ==> w.Array? && Match(g, (r, w)).All? && (r.items, w.items) in Match(g, (r, w)).pairs
    ensures r.Map? ==> w.Map? && Match(g, (r, w)).All? && (r.values, w.values) in Match(g, (r, w)).pairs
  {
  }

  /** The plan of the first matching branch is the plan of the union. */
  lemma BranchPlanned(g: Graph, recs: Records, h: Graph, r: Schema, w: Schema, k: nat, s: Schema)
    requires DeclaredGraph(g) && Declared(r, |g|) && Declared(w, |g|) && r.Union? && !w.Union? && !w.Ref?
    requires k < |r.types| && FirstMatch(g, r.types, w) == Some(k) && Plan(g, recs, h, r.types[k], w, s)
    ensures Plan(g, recs, h, r, w, s)
  {
  }

  lemma CompatibleMatched(g: Graph, rs: seq<Field>, ws: seq<Field>)
    requires DeclaredGraph(g)
    requires forall f | f in rs :: Declared(f.typ, |g|)
    requires forall f | f in ws :: Declared(f.typ, |g|)
    requires FieldsCompatible(g, rs, ws)
    ensures MatchFields(Labels(rs), Labels(ws), {}).Some?
  {
  }

  lemma StillMet(recs: Records, h: Graph, recs': Records, h': Graph, p: (nat, nat))
    requires Later(recs, h, recs', h') && p in recs
    ensures p in recs' && recs'[p] == recs[p]
  {
  }

  lemma FirstCachedStep(g: Graph, cache: Cache, types: seq<Schema>, w: Schema, i: nat)
    requires DeclaredGraph(g) && Declared(w, |g|) && (forall t | t in types :: Declared(t, |g|)) && i < |types|
    ensures var v := Call(g, cache, types[i], w);
            FirstCached(g, cache, types[i..], w).Behind(i)
            == if v.ok then Choice(Some(i), v.cache) else FirstCached(g, v.cache, types[i + 1..], w).Behind(i + 1)
  {
    hide Call;
    assert types[i..][0] == types[i] && types[i..][1..] == types[i + 1..];
  }

  lemma FirstCachedEnd(g: Graph, cache: Cache, types: seq<Schema>, w: Schema)
    requires DeclaredGraph(g) && Declared(w, |g|) && forall t | t in types :: Declared(t, |g|)
    ensures FirstCached(g, cache, types[|types|..], w) == Choice(None, cache)
  {
  }

  /** A settled part holds what the parts and ids of its members lead to. */
  lemma PartMembers(g: Graph, part: set<Schema>, s: Schema)
    requires DeclaredGraph(g) && UncontestedPart(g, part) && s in part
    ensures var r := Deref(s);
            && r in part
            && (r.Array? ==> r.items in part) && (r.Map? ==> r.values in part)
  {
    assert ClosedUnder(part, Deref(s));
  }

  lemma FieldTypesIn(g: Graph, part: set<Schema>, i: nat)
    requires DeclaredGraph(g) && UncontestedPart(g, part) && Named(i) in part && i < |g| && g[i].Record?
    ensures forall f | f in g[i].fields :: f.typ in part
  {
  }

  /** The branch that a truthful memo names is the first that matches. */
  lemma BranchSettled(g: Graph, part: set<Schema>, r: Schema, w: Schema, cache: Cache)
    requires DeclaredGraph(g) && Declared(r, |g|) && Declared(w, |g|) && r.Union? && !w.Union? && !w.Ref?
    requires UncontestedPart(g, part) && r in part && Truthful(g, cache) && Check(g, r, w)
    ensures forall t | t in r.types :: t in part
    ensures FirstMatch(g, r.types, w).Some?
    ensures var c := FirstCached(g, cache, r.types, w);
            c.branch == FirstMatch(g, r.types, w) && Truthful(g, c.cache)
  {
    hide Check, Truthful, FirstMatch, FirstCached;
    BranchCompatible(g, r, w);
    assert ClosedUnder(part, r);
    forall t | t in r.types ensures Declared(t, |g|) && !t.Union? && Uncontested(g, t) {
      assert t in part;
    }
    FirstCachedExact(g, cache, r.types, w);
  }

  /** The first `n` branches of a writer union fit. */
  ghost predicate BranchesFit(g: Graph, recs: Records, r: Schema, types: seq<Schema>, n: nat)
    requires DeclaredGraph(g) && Declared(r, |g|) && forall t | t in types :: Declared(t, |g|)
  {
    n <= |types| && forall k :: 0 <= k < n ==> Fit(g, recs, r, types[k])
  }

  lemma BranchesFitNext(g: Graph, recs: Records, h: Graph, recs': Records, h': Graph, r: Schema, types: seq<Schema>, n: nat)
    requires DeclaredGraph(g) && Declared(r, |g|) && forall t | t in types :: Declared(t, |g|)
    requires Later(recs, h, recs', h') && BranchesFit(g, recs, r, types, n) && n < |types| && Fit(g, recs', r, types[n])
    ensures BranchesFit(g, recs', r, types, n + 1)
  {
    hide Fit;
    forall k | 0 <= k < n ensures Fit(g, recs', r, types[k]) {
      FitGrows(g, recs, recs', r, types[k]);
    }
  }

  lemma BranchesAllFit(g: Graph, recs: Records, r: Schema, w: Schema)
    requires DeclaredGraph(g) && Declared(r, |g|) && Declared(w, |g|) && w.Union?
    requires BranchesFit(g, recs, r, w.types, |w.types|)
    ensures AllFit(g, recs, r, w)
  {
    hide Fit;
  }

  /** The reader fields of the first `n` writer fields fit. */
  ghost predicate FrontFits(g: Graph, recs: Records, rs: seq<Field>, ws: seq<Field>, m: seq<Option<nat>>, n: nat)
    requires DeclaredGraph(g) && |m| == |rs|
    requires forall f | f in rs :: Declared(f.typ, |g|)
    requires forall f | f in ws :: Declared(f.typ, |g|)
  {
    n <= |ws| && forall j :: 0 <= j < |rs| && m[j].Some? && m[j].value < n ==> Fit(g, recs, rs[j].typ, ws[m[j].value].typ)
  }

  lemma NoFieldFits(g: Graph, recs: Records, rs: seq<Field>, ws: seq<Field>, m: seq<Option<nat>>)
    requires DeclaredGraph(g) && |m| == |rs|
    requires forall f | f in rs :: Declared(f.typ, |g|)
    requires forall f | f in ws :: Declared(f.typ, |g|)
    ensures FrontFits(g, recs, rs, ws, m, 0)
  {
  }

  lemma FrontFitsSkip(g: Graph, recs: Records, rs: seq<Field>, ws: seq<Field>, m: seq<Option<nat>>, n: nat)
    requires DeclaredGraph(g) && |m| == |rs|
    requires forall f | f in rs :: Declared(f.typ, |g|)
    requires forall f | f in ws :: Declared(f.typ, |g|)
    requires FrontFits(g, recs, rs, ws, m, n) && n < |ws| && ReaderOf(m, n).None?
    ensures FrontFits(g, recs, rs, ws, m, n + 1)
  {
    hide Fit;
  }

  lemma FrontFitsNext(g: Graph, recs: Records, h: Graph, recs': Records, h': Graph, rs: seq<Field>, ws: seq<Field>,
                      m: seq<Option<nat>>, n: nat, j: nat)
    requires DeclaredGraph(g) && |m| == |rs|
    requires forall f | f in rs :: Declared(f.typ, |g|)
    requires forall f | f in ws :: Declared(f.typ, |g|)
    requires MatchFields(Labels(rs), Labels(ws), {}) == Some(m)
    requires Later(recs, h, recs', h') && FrontFits(g, recs, rs, ws, m, n) && n < |ws|
    requires ReaderOf(m, n) == Some(j) && j < |rs| && Fit(g, recs', rs[j].typ, ws[n].typ)
    ensures FrontFits(g, recs', rs, ws, m, n + 1)
  {
    hide Fit, MatchFields, ReaderOf;
    forall k | 0 <= k < |rs| && m[k].Some? && m[k].value < n + 1 ensures Fit(g, recs', rs[k].typ, ws[m[k].value].typ) {
      if m[k].value < n {
        FitGrows(g, recs, recs', rs[k].typ, ws[m[k].value].typ);
      } else {
        ReaderIs(Labels(rs), Labels(ws), m, k, n);
      }
    }
  }

  lemma AllFieldsFit(g: Graph, recs: Records, rs: seq<Field>, ws: seq<Field>, m: seq<Option<nat>>)
    requires DeclaredGraph(g)
    requires forall f | f in rs :: Declared(f.typ, |g|)
    requires forall f | f in ws :: Declared(f.typ, |g|)
    requires MatchFields(Labels(rs), Labels(ws), {}) == Some(m) && FrontFits(g, recs, rs, ws, m, |ws|)
    ensures FieldsFit(g, recs, rs, ws)
  {
    hide Fit, MatchFields;
  }

  /** One resolution: the plan graph under construction, the record pairs met, the memoised check. */
  class Resolution {
    const g: Graph
    const checker: Checker
    var h: Graph
    var records: Records

    constructor (g: Graph, checker: Checker)
      requires DeclaredGraph(g)
      ensures this.g == g && this.checker == checker && h == g && records == map[]
      ensures State(g, records, h, {}) && Tidy(g, records, h) && Fitted(g, records, {})
    {
      this.g, this.checker, h, records := g, checker, g, map[];
    }

    /** The plan so far is sound, and the memo keeps telling the truth about this part. */
    ghost predicate Trusted(pending: set<(nat, nat)>, part: set<Schema>)
      requires DeclaredGraph(g)
      reads this, checker
    {
      State(g, records, h, pending) && UncontestedPart(g, part) && Truthful(g, checker.cache)
    }

    /**
     * The plan of a pair. Whatever the memo holds it terminates, because the record pairs met
     * strictly grow or the schemas shrink, and what it returns fits. With a truthful memo, a
     * settled reader and a compatible pair (`good`) it never fails and the plan is the right one.
     */
    method Resolve(reader: Schema, writer: Schema, ghost pending: set<(nat, nat)>, ghost part: set<Schema>, ghost good: bool)
      returns (ok: bool, s: Schema)
      requires DeclaredGraph(g) && Declared(reader, |g|) && Declared(writer, |g|)
      requires Tidy(g, records, h) && Fitted(g, records, pending)
      requires good ==> Trusted(pending, part) && Check(g, reader, writer) && reader in part
      modifies this, checker
      ensures Tidy(g, records, h) && Later(old(records), old(h), records, h) && old(h) <= h
      ensures ok ==> Fitted(g, records, pending) && Fit(g, records, reader, writer)
      ensures ok ==> ChoiceFits(g, records, old(checker.cache), reader, writer)
      ensures good ==> ok && Trusted(pending, part) && Plan(g, records, h, reader, writer, s)
      decreases Unvisited(g, records), 1, Size(reader) + Size(writer), 2
    {
      hide Check, Trusted, Fitted, Later, DeclaredGraph, Tidy, Fit, Plan, FirstCached;
      var r, w := Deref(reader), Deref(writer);
      if good {
        DerefCompatible(g, reader, writer);
        PartOfTrust(pending, part);
        PartMembers(g, part, reader);
      }
      if TypeOf(g, r) != TypeOf(g, w) {
        ok, s := ResolveUnlike(r, w, pending, part, good);
      } else {
        ok, s := ResolveLike(r, w, pending, part, good);
      }
      FitDeref(g, records, reader, writer);
      PlanDeref(g, records, h, reader, writer, s);
    }

    lemma PartOfTrust(pending: set<(nat, nat)>, part: set<Schema>)
      requires DeclaredGraph(g) && Trusted(pending, part)
      ensures State(g, records, h, pending) && UncontestedPart(g, part) && Truthful(g, checker.cache)
    {
    }

    lemma TrustAgain(pending: set<(nat, nat)>, part: set<Schema>)
      requires DeclaredGraph(g) && State(g, records, h, pending) && UncontestedPart(g, part) && Truthful(g, checker.cache)
      ensures Trusted(pending, part)
    {
    }

    /** Schemas of different types: a union on either side, or a promotion. */
    method ResolveUnlike(r: Schema, w: Schema, ghost pending: set<(nat, nat)>, ghost part: set<Schema>, ghost good: bool)
      returns (ok: bool, s: Schema)
      requires DeclaredGraph(g) && Declared(r, |g|) && Declared(w, |g|) && !r.Ref? && !w.Ref?
      requires TypeOf(g, r) != TypeOf(g, w)
      requires Tidy(g, records, h) && Fitted(g, records, pending)
      requires good ==> Trusted(pending, part) && Check(g, r, w) && r in part
      modifies this, checker
      ensures Tidy(g, records, h) && Later(old(records), old(h), records, h) && old(h) <= h
      ensures ok ==> Fitted(g, records, pending) && Fit(g, records, r, w)
      ensures ok ==> ChoiceFits(g, records, old(checker.cache), r, w)
      ensures good ==> ok && Trusted(pending, part) && Plan(g, records, h, r, w, s)
      decreases Unvisited(g, records), 1, Size(r) + Size(w), 1
    {
      hide Check, Trusted, Fitted, Later, DeclaredGraph, Tidy, FirstCached, Match;
      LaterSame(records, h);
      if good {
        CheckStep(g, r, w);
      }
      if r.Union? {
        ok, s := ResolveBranch(r, w, pending, part, good);
      } else if w.Union? {
        ok, s := ResolveUnion(r, [r], w, pending, part, good);
      } else if r.Primitive? && w.Primitive? && Promotable(w.kind, r.kind) {
        ok, s := true, Primitive(r.kind, r.logical, Some(w.kind));
      } else {
        if good {
          UnlikeRefused(g, r, w);
        }
        ok, s := false, Null;
      }
    }

    /** Schemas of one type: part by part. */
    method ResolveLike(r: Schema, w: Schema, ghost pending: set<(nat, nat)>, ghost part: set<Schema>, ghost good: bool)
      returns (ok: bool, s: Schema)
      requires DeclaredGraph(g) && Declared(r, |g|) && Declared(w, |g|) && !r.Ref? && !w.Ref?
      requires TypeOf(g, r) == TypeOf(g, w)
      requires Tidy(g, records, h) && Fitted(g, records, pending)
      requires good ==> Trusted(pending, part) && Check(g, r, w) && r in part
      modifies this, checker
      ensures Tidy(g, records, h) && Later(old(records), old(h), records, h) && old(h) <= h
      ensures ok ==> Fitted(g, records, pending) && Fit(g, records, r, w)
      ensures good ==> ok && Trusted(pending, part) && Plan(g, records, h, r, w, s)
      decreases Unvisited(g, records), 1, Size(r) + Size(w), 1
    {
      hide Check, Trusted, Fitted, Later, DeclaredGraph, Tidy, FirstCached, Match, DefPlan;
      LaterSame(records, h);
      if good {
        LikeStep(g, r, w);
        PartOfTrust(pending, part);
        PartMembers(g, part, r);
      }
      match w
      case Array(items) =>
        ok, s := Resolve(r.items, items, pending, part, good);
        s := Array(s);
      case Map(values) =>
        ok, s := Resolve(r.values, values, pending, part, good);
        s := Map(s);
      case Union(_, _) => ok, s := ResolveUnion(r, r.types, w, pending, part, good);
      case Named(j) => ok, s := ResolveDef(r.id, j, pending, part, good);
      case _ => ok, s := true, r;
    }

    /** Definitions of one type. */
    method ResolveDef(i: nat, j: nat, ghost pending: set<(nat, nat)>, ghost part: set<Schema>, ghost good: bool)
      returns (ok: bool, s: Schema)
      requires DeclaredGraph(g) && i < |g| && j < |g| && TypeOfDef(g[i]) == TypeOfDef(g[j])
      requires Tidy(g, records, h) && Fitted(g, records, pending)
      requires good ==> Trusted(pending, part) && Check(g, Named(i), Named(j)) && Named(i) in part
      modifies this, checker
      ensures Tidy(g, records, h) && Later(old(records), old(h), records, h) && old(h) <= h
      ensures ok ==> Fitted(g, records, pending) && (g[i].Record? ==> (i, j) in records)
      ensures good ==> ok && Trusted(pending, part) && DefPlan(g, records, h, i, j, s)
      decreases Unvisited(g, records), 1, 0
    {
      hide Check, Trusted, Fitted, Later, DeclaredGraph, Tidy, FirstCached;
      LaterSame(records, h);
      if g[j].Record? {
        if good {
          RecordsCompatible(g, i, j);
        }
        ok, s := ResolveRecord(i, j, pending, part, good);
      } else {
        if good {
          CheckStep(g, Named(i), Named(j));
        }
        if g[j].Enum? {
          ok, s := ResolveEnum(i, j, pending, part, good);
        } else {
          ok, s := true, Named(i);
        }
      }
    }

    /** The first reader branch that the memoised check accepts. */
    method ResolveBranch(r: Schema, w: Schema, ghost pending: set<(nat, nat)>, ghost part: set<Schema>, ghost good: bool)
      returns (ok: bool, s: Schema)
      requires DeclaredGraph(g) && Declared(r, |g|) && Declared(w, |g|) && r.Union? && !w.Union? && !w.Ref?
      requires Tidy(g, records, h) && Fitted(g, records, pending)
      requires good ==> Trusted(pending, part) && Check(g, r, w) && r in part
      modifies this, checker
      ensures Tidy(g, records, h) && Later(old(records), old(h), records, h) && old(h) <= h
      ensures ok ==> Fitted(g, records, pending) && BranchFits(g, records, old(checker.cache), r, w)
      ensures good ==> ok && Trusted(pending, part) && Plan(g, records, h, r, w, s)
      decreases Unvisited(g, records), 1, Size(r) + Size(w), 0
    {
      hide Check, Trusted, Fitted, Tidy, Later, Fit, Call, Plan, State, UncontestedPart, Truthful, FirstMatch, FirstCached;
      if good {
        PartOfTrust(pending, part);
        BranchSettled(g, part, r, w, checker.cache);
      }
      LaterSame(records, h);
      var k := ChooseBranch(r.types, w);
      if k.None? {
        return false, Null;
      }
      SizeOfBranch(r.types, k.value);
      if good {
        FirstMatchIsFirst(g, r.types, w, k.value);
        TrustAgain(pending, part);
      }
      ok, s := Resolve(r.types[k.value], w, pending, part, good);
      if good {
        BranchPlanned(g, records, h, r, w, k.value, s);
      }
    }

    /** The first branch the memo accepts, asked one after another. */
    method ChooseBranch(types: seq<Schema>, w: Schema) returns (k: Option<nat>)
      requires DeclaredGraph(g) && Declared(w, |g|) && forall t | t in types :: Declared(t, |g|)
      modifies checker
      ensures FirstCached(g, old(checker.cache), types, w) == Choice(k, checker.cache)
    {
      hide Call, FirstCached, DeclaredGraph;
      ghost var choice := FirstCached(g, checker.cache, types, w);
      assert types[0..] == types;
      for i := 0 to |types|
        invariant choice == FirstCached(g, checker.cache, types[i..], w).Behind(i)
      {
        FirstCachedStep(g, checker.cache, types, w, i);
        var accepted := checker.Compatible(g, types[i], w);
        if accepted {
          return Some(i);
        }
      }
      FirstCachedEnd(g, checker.cache, types, w);
      k := None;
    }

    /** One plan for every writer branch. */
    method ResolveUnion(r: Schema, types: seq<Schema>, w: Schema, ghost pending: set<(nat, nat)>, ghost part: set<Schema>, ghost good: bool)
      returns (ok: bool, s: Schema)
      requires DeclaredGraph(g) && Declared(r, |g|) && Declared(w, |g|) && w.Union? && !r.Ref?
      requires Tidy(g, records, h) && Fitted(g, records, pending)
      requires good ==> Trusted(pending, part) && Check(g, r, w) && r in part
      modifies this, checker
      ensures Tidy(g, records, h) && Later(old(records), old(h), records, h) && old(h) <= h
      ensures ok ==> Fitted(g, records, pending) && AllFit(g, records, r, w)
      ensures good ==> ok && Trusted(pending, part) && UnionPlan(g, records, h, r, types, w, s)
      decreases Unvisited(g, records), 1, Size(r) + Size(w), 0
    {
      hide Check, Trusted, Plan, UnionPlan, BranchPlans, Later, Fitted, Tidy, Fit;
      var plans := [];
      LaterSame(records, h);
      NoBranchPlans(g, records, h, r, w.types);
      for i := 0 to |w.types|
        invariant |plans| == i
        invariant Tidy(g, records, h) && Later(old(records), old(h), records, h) && old(h) <= h
        invariant Fitted(g, records, pending)
        invariant BranchesFit(g, records, r, w.types, i)
        invariant good ==> Trusted(pending, part) && BranchPlans(g, records, h, r, w.types, plans)
        invariant Unvisited(g, records) <= old(Unvisited(g, records))
      {
        ghost var recs, before := records, h;
        SizeOfBranch(w.types, i);
        if good {
          UnionCompatible(g, r, w, i);
        }
        var one, plan := Resolve(r, w.types[i], pending, part, good);
        LaterStill(old(records), old(h), recs, before, records, h);
        if !one {
          return false, Null;
        }
        LaterVisits(g, old(records), old(h), records, h);
        BranchesFitNext(g, recs, before, records, h, r, w.types, i);
        if good {
          PlansGrow(g, recs, before, records, h, r, w.types, plans);
          BranchPlansNext(g, records, h, r, w.types, plans, plan);
        }
        plans := plans + [plan];
      }
      BranchesAllFit(g, records, r, w);
      if good {
        BranchPlansAll(g, records, h, r, types, w, plans);
      }
      ok, s := true, Union(types, plans);
    }

    /** Enums with equal symbols stay; others remember the writer's symbols. */
    method ResolveEnum(i: nat, j: nat, ghost pending: set<(nat, nat)>, ghost part: set<Schema>, ghost good: bool)
      returns (ok: bool, s: Schema)
      requires DeclaredGraph(g) && i < |g| && j < |g| && g[i].Enum? && g[j].Enum?
      requires Tidy(g, records, h) && Fitted(g, records, pending)
      requires good ==> Trusted(pending, part) && (SymbolsCovered(g[i], g[j]) || g[i].def.Some?)
      modifies this`h
      ensures Tidy(g, records, h) && Later(records, old(h), records, h) && old(h) <= h
      ensures good ==> ok && Trusted(pending, part) && DefPlan(g, records, h, i, j, s)
    {
      var r, w := g[i], g[j];
      if !SymbolsCovered(r, w) {
        if r.def.None? {
          return false, Null;
        }
      } else if r.symbols == w.symbols {
        return true, Named(i);
      }
      var node := Enum(r.name, r.symbols, r.def, w.symbols);
      if good {
        AddNode(g, records, h, pending, node);
      }
      h := h + [node];
      ok, s := true, Named(|h| - 1);
    }

    /** The plan record of a pair, published before its fields so that cycles close on it. */
    method ResolveRecord(i: nat, j: nat, ghost pending: set<(nat, nat)>, ghost part: set<Schema>, ghost good: bool)
      returns (ok: bool, s: Schema)
      requires DeclaredGraph(g) && i < |g| && j < |g| && g[i].Record? && g[j].Record?
      requires Tidy(g, records, h) && Fitted(g, records, pending)
      requires good ==> Trusted(pending, part) && FieldsCompatible(g, g[i].fields, g[j].fields) && Named(i) in part
      modifies this, checker
      ensures Tidy(g, records, h) && Later(old(records), old(h), records, h) && old(h) <= h
      ensures ok ==> Fitted(g, records, pending) && (i, j) in records
      ensures good ==> ok && Trusted(pending, part) && DefPlan(g, records, h, i, j, s)
      decreases Unvisited(g, records), 0
    {
      hide Check, Trusted, Plan, FieldsPlan, FrontPlans, ValidFields, Fitted, FieldsFit, Later, FirstCached, FieldsCompatible, Tidy,
           MatchFields, ReaderOf, Unvisited, DefaultFields, DefPlan;
      LaterSame(records, h);
      if (i, j) in records {
        if good {
          RecordKnown(pending, part, i, j);
        }
        return true, Ref(records[(i, j)]);
      }
      var rs, ws := g[i].fields, g[j].fields;
      var sound, matched := MatchRecordFields(Labels(rs), Labels(ws));
      if !sound {
        if good {
          CompatibleMatched(g, rs, ws);
        }
        return false, Null;
      }
      ghost var m := MatchFields(Labels(rs), Labels(ws), {}).value;
      PublishPair(i, j, pending, part, good);
      ghost var recs, before := records, h;
      var readers := WriterToReader(matched, m, Labels(rs), Labels(ws), |rs|);
      if good {
        PartOfTrust(pending + {(i, j)}, part);
        FieldTypesIn(g, part, i);
      }
      var fields;
      ok, fields := ResolveFields(rs, ws, readers, m, pending + {(i, j)}, part, good);
      LaterStill(old(records), old(h), recs, before, records, h);
      if !ok {
        return false, Null;
      }
      var defaults := ReaderOnlyFields(rs, matched, m);
      if good {
        TrustedEmbeds(pending + {(i, j)}, part);
        FieldsCompleted(g, records, h, rs, ws, m, fields);
      }
      fields := fields + defaults;
      ok := ValidateRecordFields(fields);
      if !ok {
        return false, Null;
      }
      StillMet(recs, before, records, h, (i, j));
      recs, before := records, h;
      FillPair(i, j, fields, old(h), pending, part, good);
      LaterStill(old(records), old(h), recs, before, records, h);
      s := Named(records[(i, j)]);
    }

    lemma RecordKnown(pending: set<(nat, nat)>, part: set<Schema>, i: nat, j: nat)
      requires DeclaredGraph(g) && Trusted(pending, part) && (i, j) in records
      ensures i < |g| && j < |g| && DefPlan(g, records, h, i, j, Ref(records[(i, j)]))
    {
    }

    lemma TrustedEmbeds(pending: set<(nat, nat)>, part: set<Schema>)
      requires DeclaredGraph(g) && Trusted(pending, part)
      ensures Embeds(g, h)
    {
    }

    /** Names the plan record of a pair; its fields follow. */
    method PublishPair(i: nat, j: nat, ghost pending: set<(nat, nat)>, ghost part: set<Schema>, ghost good: bool)
      requires DeclaredGraph(g) && i < |g| && j < |g| && g[i].Record? && g[j].Record? && (i, j) !in records
      requires Tidy(g, records, h) && Fitted(g, records, pending)
      requires good ==> Trusted(pending, part)
      modifies this`h, this`records
      ensures Tidy(g, records, h) && Later(old(records), old(h), records, h) && old(h) <= h
      ensures (i, j) in records && records[(i, j)] == |old(h)| && Unvisited(g, records) < old(Unvisited(g, records))
      ensures Fitted(g, records, pending + {(i, j)})
      ensures good ==> Trusted(pending + {(i, j)}, part)
    {
      hide Fitted, State, Unvisited, Truthful, UncontestedPart, DeclaredGraph;
      if good {
        Publish(g, records, h, pending, i, j);
      }
      h := h + [Record(g[i].name, [])];
      records := records[(i, j) := |h| - 1];
      UnvisitedShrinks(g, old(records), records);
      FittedPublish(g, old(records), records, pending, (i, j));
    }

    /** Gives the plan record of a pair its fields. */
    method FillPair(i: nat, j: nat, fields: seq<Field>, ghost h0: Graph, ghost pending: set<(nat, nat)>, ghost part: set<Schema>,
                    ghost good: bool)
      requires DeclaredGraph(g) && i < |g| && j < |g| && g[i].Record? && g[j].Record?
      requires (i, j) in records && Tidy(g, records, h) && Fitted(g, records, pending + {(i, j)})
      requires FieldsFit(g, records, g[i].fields, g[j].fields)
      requires h0 <= h && |h0| <= records[(i, j)]
      requires good ==> Trusted(pending + {(i, j)}, part) && FieldsPlan(g, records, h, g[i].fields, g[j].fields, fields)
      modifies this`h
      ensures Tidy(g, records, h) && Later(records, old(h), records, h) && h0 <= h
      ensures Fitted(g, records, pending)
      ensures good ==> Trusted(pending, part) && DefPlan(g, records, h, i, j, Named(records[(i, j)]))
    {
      hide Fitted, State, Truthful, UncontestedPart, DeclaredGraph, FieldsPlan, FieldsFit;
      FittedFill(g, records, pending, i, j);
      if good {
        Fill(g, records, h, pending, i, j, fields);
      }
      var id := records[(i, j)];
      h := h[id := Record(g[i].name, fields)];
    }

    /** The fields the writer sends, in its order. */
    method ResolveFields(rs: seq<Field>, ws: seq<Field>, readers: map<nat, nat>, ghost m: seq<Option<nat>>,
                         ghost pending: set<(nat, nat)>, ghost part: set<Schema>, ghost good: bool)
      returns (ok: bool, fields: seq<Field>)
      requires DeclaredGraph(g)
      requires forall f | f in rs :: Declared(f.typ, |g|)
      requires forall f | f in ws :: Declared(f.typ, |g|)
      requires Tidy(g, records, h) && Fitted(g, records, pending)
      requires good ==> Trusted(pending, part) && FieldsCompatible(g, rs, ws) && forall f | f in rs :: f.typ in part
      requires MatchFields(Labels(rs), Labels(ws), {}) == Some(m)
      requires forall k: nat :: k in readers <==> ReaderOf(m, k).Some?
      requires forall k: nat :: k in readers ==> Some(readers[k]) == ReaderOf(m, k)
      modifies this, checker
      ensures Tidy(g, records, h) && Later(old(records), old(h), records, h) && old(h) <= h
      ensures ok ==> Fitted(g, records, pending) && FieldsFit(g, records, rs, ws)
      ensures good ==> ok && Trusted(pending, part) && |fields| == |ws| && FrontPlans(g, records, h, rs, ws, m, fields)
      decreases Unvisited(g, records), 2
    {
      hide Check, Trusted, Plan, Later, FrontPlans, WriterFieldPlan, Declared, DeclaredGraph, Fitted, Tidy, Fit, FieldsFit;
      fields := [];
      NoFrontPlans(g, records, h, rs, ws, m);
      LaterSame(records, h);
      NoFieldFits(g, records, rs, ws, m);
      for i := 0 to |ws|
        invariant |fields| == i
        invariant Tidy(g, records, h) && Later(old(records), old(h), records, h) && old(h) <= h
        invariant Fitted(g, records, pending) && FrontFits(g, records, rs, ws, m, i)
        invariant good ==> Trusted(pending, part) && FrontPlans(g, records, h, rs, ws, m, fields)
        invariant Unvisited(g, records) <= old(Unvisited(g, records))
      {
        if i !in readers {
          FrontFitsSkip(g, records, rs, ws, m, i);
          if good {
            IgnoredPlan(g, records, h, rs, ws, m, i);
            FrontNext(g, records, h, rs, ws, m, fields, IgnoredField(ws[i]));
          }
          fields := fields + [IgnoredField(ws[i])];
        } else {
          var rf := rs[readers[i]];
          ghost var recs, before := records, h;
          var one, typ := Resolve(rf.typ, ws[i].typ, pending, part, good);
          LaterStill(old(records), old(h), recs, before, records, h);
          if !one {
            return false, [];
          }
          LaterVisits(g, old(records), old(h), records, h);
          FrontFitsNext(g, recs, before, records, h, rs, ws, m, i, readers[i]);
          if good {
            FrontGrows(g, recs, before, records, h, rs, ws, m, fields);
            KeptPlan(g, records, h, rs, ws, m, i, readers[i], typ);
            FrontNext(g, records, h, rs, ws, m, fields, KeptField(rf, typ));
          }
          fields := fields + [KeptField(rf, typ)];
        }
      }
      AllFieldsFit(g, records, rs, ws, m);
      ok := true;
    }
  }

  /**
   * Resolves a reader and a writer schema, asking and filling one memo throughout. What it
   * returns fits. If the memo was truthful and the reader's unions are settled, it is an error
   * exactly when the schemas are incompatible, and otherwise a plan whose records are all
   * filled in; the memo is then still truthful.
   */
  method Resolve(checker: Checker, g: Graph, reader: Schema, writer: Schema)
    returns (ok: bool, s: Schema, h: Graph, ghost recs: Records)
    requires DeclaredGraph(g) && Declared(reader, |g|) && Declared(writer, |g|)
    modifies checker
    ensures ok ==> Call(g, old(checker.cache), reader, writer).ok && Fitted(g, recs, {}) && Fit(g, recs, reader, writer)
    ensures ok ==> ChoiceFits(g, recs, Call(g, old(checker.cache), reader, writer).cache, reader, writer)
    ensures Reliable(g, old(checker.cache), reader) ==> (ok <==> Compatible(g, (reader, writer)))
    ensures Reliable(g, old(checker.cache), reader) && ok ==>
              Complete(g, recs, h) && Plan(g, recs, h, reader, writer, s) && Truthful(g, checker.cache)
  {
    hide Check, Call, Compatible, Truthful, Plan, Complete, Fit, Fitted, UncontestedPart, State;
    ghost var reliable := Reliable(g, checker.cache, reader);
    ghost var part: set<Schema> := {};
    if reliable {
      CallExact(g, checker.cache, reader, writer);
      CheckExact(g, reader, writer);
      part :| reader in part && UncontestedPart(g, part);
    }
    s, h, recs := Null, g, map[];
    ok := checker.Compatible(g, reader, writer);
    if ok {
      var resolution := new Resolution(g, checker);
      ok, s := resolution.Resolve(reader, writer, {}, part, reliable);
      if reliable {
        StateComplete(g, resolution.records, resolution.h);
      }
      h, recs := resolution.h, resolution.records;
    }
  }
}
