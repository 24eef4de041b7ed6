/** What may be read by what: compatibility spelled out on schemas, and the laws of schema evolution. */
module Evolution {
  import opened Powers
  import opened Wire
  import opened Schemas
  import opened Compatibility
  import opened Checking
  import opened Memo
  import opened MemoExactness

  ghost function Fits(g: Graph): iset<Pair>
    requires DeclaredGraph(g)
  {
    iset p: Pair | Compatible(g, p)
  }

  /** A pair is compatible exactly if the rules lead to compatible pairs. */
  lemma CompatibleExact(g: Graph, p: Pair)
    requires DeclaredGraph(g) && DeclaredPair(g, p)
    ensures Compatible(g, p) <==> Holds(Match(g, p), Fits(g))
  {
    hide Match, KeyOf, DeclaredGraph, Declared;
    var x := Greatest(g, {});
    assert x == Fits(g);
    FixpointConsistent(g, {});
    if Holds(Match(g, p), x) {
      var y := x + iset{p};
      forall q | q in y
        ensures DeclaredPair(g, q) && Holds(Match(g, q), y)
      {
        HoldsMonotone(Match(g, q), x, y);
      }
      assert Consistent(g, y, {});
    }
  }

  // --- names ---

  /** The local part of a full name: what follows its last dot. */
  ghost predicate LocalPart(full: Text, local: Text) {
    46 !in local && (full == local || exists n: Text :: full == n + [46] + local)
  }

  lemma {:induction false} LocalExact(full: Text, local: Text)
    ensures AfterLastDot(full) == local <==> LocalPart(full, local)
    decreases full
  {
    if full != [] && full[|full| - 1] != DOT {
      var init, last := full[..|full| - 1], full[|full| - 1];
      if local != [] {
        LocalExact(init, local[..|local| - 1]);
        LocalInit(full, local);
      }
    } else if full != [] {
      assert full == full[..|full| - 1] + [46] + [];
    }
  }

  lemma LocalInit(full: Text, local: Text)
    requires full != [] && local != [] && full[|full| - 1] != 46
    ensures LocalPart(full, local) <==>
            local[|local| - 1] == full[|full| - 1] && LocalPart(full[..|full| - 1], local[..|local| - 1])
  {
    var init, linit, last := full[..|full| - 1], local[..|local| - 1], local[|local| - 1];
    assert local == linit + [last] && full == init + [full[|full| - 1]];
    if LocalPart(full, local) && full != local {
      var n: Text :| full == n + [46] + local;
      assert init == n + [46] + linit;
    }
    if last == full[|full| - 1] && LocalPart(init, linit) && init != linit {
      var n: Text :| init == n + [46] + linit;
      assert full == n + [46] + local;
    }
  }

  /** The same local part, or the writer's full name among the reader's aliases. */
  ghost predicate SameName(r: Name, w: Name) {
    w.full in r.aliases || exists local :: LocalPart(r.full, local) && LocalPart(w.full, local)
  }

  lemma SameNameExact(r: Name, w: Name)
    ensures NamesMatch(r, w) <==> SameName(r, w)
  {
    LocalExact(r.full, AfterLastDot(r.full));
    LocalExact(w.full, AfterLastDot(r.full));
    if SameName(r, w) && w.full !in r.aliases {
      var local :| LocalPart(r.full, local) && LocalPart(w.full, local);
      LocalExact(r.full, local);
      LocalExact(w.full, local);
    }
  }

  // --- fields ---

  /** The reader's field takes the writer's: under its name or under an alias. */
  predicate Takes(f: Label, w: Label) {
    w.name == f.name || w.name in f.aliases
  }

  predicate DistinctNames(ls: seq<Label>) {
    forall i, j :: 0 <= i < j < |ls| ==> ls[i].name != ls[j].name
  }

  /** As `ValidFields`, of labels. */
  predicate ValidLabels(ls: seq<Label>) {
    && DistinctNames(ls)
    && (forall i, j :: 0 <= i < |ls| && 0 <= j < |ls| ==> ls[i].name !in ls[j].aliases)
    && (forall i :: 0 <= i < |ls| ==> Distinct(ls[i].aliases))
    && (forall i, j :: 0 <= i < j < |ls| ==> Apart(ls[i].aliases, ls[j].aliases))
  }

  ghost predicate Two(writers: seq<Label>, f: Label) {
    exists i, j :: 0 <= i < j < |writers| && Takes(f, writers[i]) && Takes(f, writers[j])
  }

  /** Whether an alias search that starts with `found` hits a writer. */
  predicate Hit(writers: seq<Label>, aliases: seq<Text>, found: Option<nat>, k: nat)
    requires k < |writers|
  {
    found == Some(k) || writers[k].name in aliases
  }

  lemma {:induction false} AliasesExact(writers: seq<Label>, aliases: seq<Text>, found: Option<nat>)
    requires DistinctNames(writers) && Distinct(aliases)
    requires found.Some? ==> found.value < |writers| && writers[found.value].name !in aliases
    ensures match MatchAliases(writers, aliases, found)
            case Found(index) => forall k :: 0 <= k < |writers| ==> (Hit(writers, aliases, found, k) <==> index == Some(k))
            case Ambiguous =>
              exists i, j :: 0 <= i < j < |writers| && Hit(writers, aliases, found, i) && Hit(writers, aliases, found, j)
    decreases |aliases|
  {
    if aliases == [] {
      return;
    }
    var rest := aliases[1..];
    assert aliases == [aliases[0]] + rest;
    match Lookup(writers, aliases[0])
    case None =>
      AliasesExact(writers, rest, found);
      assert forall k :: 0 <= k < |writers| ==> (Hit(writers, aliases, found, k) <==> Hit(writers, rest, found, k));
    case Some(i) =>
      if found.Some? {
        var (a, b) := if found.value < i then (found.value, i) else (i, found.value);
        assert Hit(writers, aliases, found, a) && Hit(writers, aliases, found, b);
      } else {
        assert writers[i].name == aliases[0] && aliases[0] !in rest;
        AliasesExact(writers, rest, Some(i));
        assert forall k :: 0 <= k < |writers| ==> (Hit(writers, aliases, found, k) <==> Hit(writers, rest, Some(i), k));
      }
  }

  lemma FieldExact(writers: seq<Label>, f: Label)
    requires DistinctNames(writers) && Distinct(f.aliases) && f.name !in f.aliases
    ensures match MatchField(writers, f)
            case Found(index) => forall k :: 0 <= k < |writers| ==> (Takes(f, writers[k]) <==> index == Some(k))
            case Ambiguous => Two(writers, f)
  {
    var found := Lookup(writers, f.name);
    AliasesExact(writers, f.aliases, found);
    assert forall k :: 0 <= k < |writers| ==> (Takes(f, writers[k]) <==> Hit(writers, f.aliases, found, k));
  }

  /** At most one reader field takes a writer field. */
  lemma OneTaker(readers: seq<Label>, w: Label)
    requires ValidLabels(readers) && readers != [] && Takes(readers[0], w)
    ensures forall a :: 0 < a < |readers| ==> !Takes(readers[a], w)
  {
    forall a | 0 < a < |readers|
      ensures !Takes(readers[a], w)
    {
      assert Apart(readers[0].aliases, readers[a].aliases);
    }
  }

  lemma ValidTail(readers: seq<Label>)
    requires ValidLabels(readers) && readers != []
    ensures ValidLabels(readers[1..]) && Distinct(readers[0].aliases) && readers[0].name !in readers[0].aliases
  {
  }

  lemma FoundBounds(writers: seq<Label>, f: Label)
    ensures var found := MatchField(writers, f);
            found.Found? && found.index.Some? ==> found.index.value < |writers|
  {
    MatchAliasesBounds(writers, f.aliases, Lookup(writers, f.name));
  }

  /** The matching fails exactly if some reader field takes two writer fields; else it is the relation `Takes`. */
  lemma {:induction false} FieldsExact(readers: seq<Label>, writers: seq<Label>, used: set<nat>)
    requires ValidLabels(readers) && DistinctNames(writers)
    requires forall a, k :: 0 <= a < |readers| && 0 <= k < |writers| && k in used ==> !Takes(readers[a], writers[k])
    ensures match MatchFields(readers, writers, used)
            case None => exists a :: 0 <= a < |readers| && Two(writers, readers[a])
            case Some(m) =>
              forall a, k :: 0 <= a < |readers| && 0 <= k < |writers| ==> (Takes(readers[a], writers[k]) <==> m[a] == Some(k))
    decreases |readers|
  {
    hide Takes, ValidLabels, DistinctNames, Two, MatchField;
    if readers == [] {
      return;
    }
    ValidTail(readers);
    FieldExact(writers, readers[0]);
    match MatchField(writers, readers[0])
    case Ambiguous => assert Two(writers, readers[0]);
    case Found(index) =>
      FoundBounds(writers, readers[0]);
      if index.Some? {
        assert Takes(readers[0], writers[index.value]);
        OneTaker(readers, writers[index.value]);
      }
      var used' := if index.Some? then used + {index.value} else used;
      FieldsExact(readers[1..], writers, used');
      if MatchFields(readers[1..], writers, used').None? {
        var a :| 0 <= a < |readers[1..]| && Two(writers, readers[1..][a]);
        assert Two(writers, readers[a + 1]);
      }
  }

  lemma {:induction false} FieldGoalExact(rs: seq<Field>, ws: seq<Field>, matched: seq<Option<nat>>, x: iset<Pair>)
    requires |matched| == |rs| && Bounded(matched, |ws|)
    ensures Holds(FieldGoal(rs, ws, matched), x) <==>
            forall a :: 0 <= a < |rs| ==>
                          match matched[a]
                          case None => rs[a].def.Some?
                          case Some(k) => (rs[a].typ, ws[k].typ) in x
    decreases |rs|
  {
    if rs != [] {
      FieldGoalExact(rs[1..], ws, matched[1..], x);
      var goal, rest := FieldGoal(rs, ws, matched), FieldGoal(rs[1..], ws, matched[1..]);
      if matched[0].Some? {
        assert goal.pairs[0] == (rs[0].typ, ws[matched[0].value].typ) && goal.pairs[1..] == rest.pairs;
      }
    }
  }

  // --- the rules, spelled out ---

  predicate TakesField(f: Field, w: Field) {
    w.name == f.name || w.name in f.aliases
  }

  /** Between the fields of two records: no field is ambiguous, what is taken fits, and the rest has defaults. */
  ghost predicate FieldsFit(fits: iset<Pair>, rs: seq<Field>, ws: seq<Field>) {
    && (forall a, i, j :: 0 <= a < |rs| && 0 <= i < j < |ws| ==> !TakesField(rs[a], ws[i]) || !TakesField(rs[a], ws[j]))
    && (forall a, k :: 0 <= a < |rs| && 0 <= k < |ws| && TakesField(rs[a], ws[k]) ==> (rs[a].typ, ws[k].typ) in fits)
    && (forall a :: 0 <= a < |rs| && (forall k :: 0 <= k < |ws| ==> !TakesField(rs[a], ws[k])) ==> rs[a].def.Some?)
  }

  lemma RecordGoalExact(rs: seq<Field>, ws: seq<Field>, fits: iset<Pair>)
    requires ValidFields(rs) && ValidFields(ws)
    ensures Holds(RecordGoal(rs, ws), fits) <==> FieldsFit(fits, rs, ws)
  {
    hide MatchFields;
    var readers, writers := Labels(rs), Labels(ws);
    FieldsExact(readers, writers, {});
    assert forall a, k :: 0 <= a < |rs| && 0 <= k < |ws| ==> (TakesField(rs[a], ws[k]) <==> Takes(readers[a], writers[k]));
    match MatchFields(readers, writers, {})
    case None =>
      var a :| 0 <= a < |readers| && Two(writers, readers[a]);
      assert !FieldsFit(fits, rs, ws);
    case Some(m) =>
      MatchFieldsBounds(readers, writers, {});
      FieldGoalExact(rs, ws, m, fits);
      MatchedFit(rs, ws, m, fits);
  }

  lemma MatchedFit(rs: seq<Field>, ws: seq<Field>, m: seq<Option<nat>>, fits: iset<Pair>)
    requires |m| == |rs| && Bounded(m, |ws|)
    requires forall a, k :: 0 <= a < |rs| && 0 <= k < |ws| ==> (TakesField(rs[a], ws[k]) <==> m[a] == Some(k))
    ensures FieldsFit(fits, rs, ws) <==>
            forall a :: 0 <= a < |rs| ==>
                          match m[a]
                          case None => rs[a].def.Some?
                          case Some(k) => (rs[a].typ, ws[k].typ) in fits
  {
    hide TakesField;
    forall a | 0 <= a < |rs| && m[a].Some?
      ensures TakesField(rs[a], ws[m[a].value])
    {
    }
  }

  /** Two records: the names agree and the fields fit. */
  lemma RecordsExact(g: Graph, i: nat, j: nat)
    requires DeclaredGraph(g) && i < |g| && j < |g| && g[i].Record? && g[j].Record?
    ensures Compatible(g, (Named(i), Named(j))) <==> SameName(g[i].name, g[j].name) && FieldsFit(Fits(g), g[i].fields, g[j].fields)
  {
    hide Compatible, FieldsFit, RecordGoal, SameName, NamesMatch;
    CompatibleExact(g, (Named(i), Named(j)));
    SameNameExact(g[i].name, g[j].name);
    assert DeclaredDef(g[i], |g|) && DeclaredDef(g[j], |g|);
    RecordGoalExact(g[i].fields, g[j].fields, Fits(g));
  }

  /** Two enums: the names agree and the reader has every symbol of the writer, or a default. */
  lemma EnumsExact(g: Graph, i: nat, j: nat)
    requires DeclaredGraph(g) && i < |g| && j < |g| && g[i].Enum? && g[j].Enum?
    ensures Compatible(g, (Named(i), Named(j))) <==>
            SameName(g[i].name, g[j].name) && (g[i].def.Some? || forall s | s in g[j].symbols :: s in g[i].symbols)
  {
    hide Compatible, SameName, NamesMatch;
    CompatibleExact(g, (Named(i), Named(j)));
    SameNameExact(g[i].name, g[j].name);
  }

  /** The logical type is a decimal that a value of this many bytes, or of any number of bytes, can carry. */
  predicate IsDecimal(size: Option<nat>, logical: Logical) {
    && logical.Decimal? && 0 < logical.precision && 0 <= logical.scale <= logical.precision
    && (size.Some? ==> size.value > 0 && Pow(10, logical.precision) <= Pow(2, 8 * size.value - 1))
  }

  /** Two fixed types: names and sizes agree, and so do the decimals if both are decimals. */
  lemma FixedExact(g: Graph, i: nat, j: nat)
    requires DeclaredGraph(g) && i < |g| && j < |g| && g[i].Fixed? && g[j].Fixed?
    ensures Compatible(g, (Named(i), Named(j))) <==>
            && SameName(g[i].name, g[j].name)
            && g[i].size == g[j].size
            && (IsDecimal(Some(g[i].size), g[i].logical) && IsDecimal(Some(g[j].size), g[j].logical) ==> g[i].logical == g[j].logical)
  {
    hide Compatible, SameName, NamesMatch;
    CompatibleExact(g, (Named(i), Named(j)));
    SameNameExact(g[i].name, g[j].name);
  }

  /** Two primitives: the same kind or a promotion, and the same decimal if both are decimals. */
  lemma PrimitivesExact(g: Graph, r: Kind, rl: Logical, w: Kind, wl: Logical)
    requires DeclaredGraph(g) && MachineLogical(rl) && MachineLogical(wl)
    ensures Compatible(g, (Primitive(r, rl, None), Primitive(w, wl, None))) <==>
            && (r == w || (w, r) in {(Int, Long), (Int, Float), (Int, Double), (Long, Float), (Long, Double), (Float, Double),
                                     (StringKind, BytesKind), (BytesKind, StringKind)})
            && (r.BytesKind? && w.BytesKind? && IsDecimal(None, rl) && IsDecimal(None, wl) ==> rl == wl)
  {
    hide Compatible, DeclaredGraph;
    CompatibleExact(g, (Primitive(r, rl, None), Primitive(w, wl, None)));
  }

  /** Arrays and maps: their items and values. */
  lemma CollectionsExact(g: Graph, r: Schema, w: Schema)
    requires DeclaredGraph(g) && Declared(r, |g|) && Declared(w, |g|)
    ensures Compatible(g, (Array(r), Array(w))) <==> Compatible(g, (r, w))
    ensures Compatible(g, (Map(r), Map(w))) <==> Compatible(g, (r, w))
  {
    hide Compatible, DeclaredGraph;
    CompatibleExact(g, (Array(r), Array(w)));
    CompatibleExact(g, (Map(r), Map(w)));
    OneGoal((r, w), Fits(g));
  }

  lemma OneGoal(p: Pair, x: iset<Pair>)
    ensures Holds(All([p], true), x) <==> p in x
  {
    assert p in [p];
  }

  /** A writer's union: every branch. */
  lemma WriterUnionExact(g: Graph, r: Schema, types: seq<Schema>)
    requires DeclaredGraph(g) && Declared(r, |g|) && Declared(Union(types, []), |g|)
    ensures Compatible(g, (r, Union(types, []))) <==> forall t | t in types :: Compatible(g, (r, t))
  {
    hide Compatible, DeclaredGraph;
    var w := Union(types, []);
    CompatibleExact(g, (r, w));
    var goal := Match(g, (r, w));
    assert goal == All(WithReader(Deref(r), types), true);
    forall t | t in types
      ensures Compatible(g, (r, t)) <==> Compatible(g, (Deref(r), t))
      ensures (Deref(r), t) in goal.pairs
    {
      DerefExact(g, r, t);
      var k :| 0 <= k < |types| && types[k] == t;
      assert goal.pairs[k] == (Deref(r), t);
    }
  }

  /** A reader's union and another type: some branch. */
  lemma ReaderUnionExact(g: Graph, types: seq<Schema>, w: Schema)
    requires DeclaredGraph(g) && Declared(Union(types, []), |g|) && Declared(w, |g|) && !w.Union?
    ensures Compatible(g, (Union(types, []), w)) <==> exists t | t in types :: Compatible(g, (t, w))
  {
    hide Compatible, DeclaredGraph;
    var r := Union(types, []);
    CompatibleExact(g, (r, w));
    var goal := Match(g, (r, w));
    assert goal == Any(WithWriter(types, Deref(w)));
    forall t | t in types
      ensures Compatible(g, (t, w)) <==> Compatible(g, (t, Deref(w)))
      ensures (t, Deref(w)) in goal.pairs
    {
      DerefExact(g, t, w);
      var k :| 0 <= k < |types| && types[k] == t;
      assert goal.pairs[k] == (t, Deref(w));
    }
  }

  /** A reference is what it refers to. */
  lemma DerefExact(g: Graph, r: Schema, w: Schema)
    requires DeclaredGraph(g) && DeclaredPair(g, (r, w))
    ensures Compatible(g, (r, w)) <==> Compatible(g, (Deref(r), w))
    ensures Compatible(g, (r, w)) <==> Compatible(g, (r, Deref(w)))
  {
    hide Compatible, DeclaredGraph, Match;
    DerefMatch(g, (r, w));
    DerefMatch(g, (Deref(r), w));
    DerefMatch(g, (r, Deref(w)));
    CompatibleExact(g, (r, w));
    CompatibleExact(g, (Deref(r), w));
    CompatibleExact(g, (r, Deref(w)));
  }

  /** Types of a different sort never fit; null reads null. */
  lemma OthersExact(g: Graph, r: Schema, w: Schema)
    requires DeclaredGraph(g) && Declared(r, |g|) && Declared(w, |g|) && !r.Union? && !w.Union? && !r.Ref? && !w.Ref?
    ensures Compatible(g, (Null, Null))
    ensures Compatible(g, (r, w)) ==>
              || (r.Null? && w.Null?) || (r.Primitive? && w.Primitive?) || (r.Array? && w.Array?) || (r.Map? && w.Map?)
              || (r.Named? && w.Named? && g[r.id].Record? && g[w.id].Record?)
              || (r.Named? && w.Named? && g[r.id].Enum? && g[w.id].Enum?)
              || (r.Named? && w.Named? && g[r.id].Fixed? && g[w.id].Fixed?)
  {
    hide Compatible, DeclaredGraph;
    CompatibleExact(g, (r, w));
    CompatibleExact(g, (Null, Null));
  }

  // --- evolution ---

  /** Which definition of a reader takes the place of which one of the writer. */
  type Successors = iset<(nat, nat)>

  /** The same type, with definitions replaced by successors. */
  predicate Succeeds(e: Successors, r: Schema, w: Schema)
    decreases r
  {
    match (Deref(r), Deref(w))
    case (Null, Null) => true
    case (Primitive(kind, logical, _), Primitive(wkind, wlogical, _)) => kind == wkind && logical == wlogical
    case (Array(items), Array(witems)) => Succeeds(e, items, witems)
    case (Map(values), Map(wvalues)) => Succeeds(e, values, wvalues)
    case (Union(types, _), Union(wtypes, _)) =>
      |types| == |wtypes| && forall k :: 0 <= k < |types| ==> Succeeds(e, types[k], wtypes[k])
    case (Named(i), Named(j)) => (i, j) in e
    case _ => false
  }

  /**
   * A definition that grew: an enum by symbols; a record by fields with defaults under names the
   * old one did not use. What it kept it may have renamed, the old name being an alias now.
   */
  ghost predicate Grown(g: Graph, e: Successors, r: Def, w: Def) {
    && SameName(r.name, w.name)
    && match (r, w)
       case (Fixed(_, size, logical), Fixed(_, wsize, wlogical)) => size == wsize && logical == wlogical
       case (Enum(_, symbols, _, _), Enum(_, wsymbols, _, _)) => forall s | s in wsymbols :: s in symbols
       case (Record(_, rs), Record(_, ws)) =>
         forall a :: 0 <= a < |rs| ==> KeptField(e, rs[a], ws) || AddedField(rs[a], ws)
       case _ => false
  }

  /** It stands for one field of the old record. */
  predicate KeptField(e: Successors, f: Field, ws: seq<Field>) {
    exists k :: 0 <= k < |ws| && Succeeds(e, f.typ, ws[k].typ) && forall i :: 0 <= i < |ws| ==> (TakesField(f, ws[i]) <==> i == k)
  }

  predicate AddedField(f: Field, ws: seq<Field>) {
    f.def.Some? && forall i :: 0 <= i < |ws| ==> !TakesField(f, ws[i])
  }

  ghost predicate Growth(g: Graph, e: Successors) {
    forall q | q in e :: q.0 < |g| && q.1 < |g| && Grown(g, e, g[q.0], g[q.1])
  }

  /** What growth must leave compatible: successors, and a union of successors with a branch of the old one. */
  ghost predicate Evolved(g: Graph, e: Successors, p: Pair) {
    && DeclaredPair(g, p)
    && (Succeeds(e, p.0, p.1) || (p.0.Union? && !p.1.Union? && exists t | t in p.0.types :: Succeeds(e, t, p.1)))
  }

  /** A schema whose definitions only grew, everywhere and through all its cycles, reads what was written before. */
  lemma GrowthReads(g: Graph, e: Successors, r: Schema, w: Schema)
    requires DeclaredGraph(g) && Growth(g, e) && Declared(r, |g|) && Declared(w, |g|) && Succeeds(e, r, w)
    ensures Compatible(g, (r, w))
  {
    hide DeclaredGraph, Match, KeyOf, Declared, Succeeds, Growth, Holds;
    var x := iset p: Pair | Evolved(g, e, p);
    forall p | p in x
      ensures DeclaredPair(g, p) && Holds(Match(g, p), x)
    {
      EvolvedStep(g, e, p, x);
    }
    assert Consistent(g, x, {});
    assert (r, w) in x;
  }

  lemma EvolvedStep(g: Graph, e: Successors, p: Pair, x: iset<Pair>)
    requires DeclaredGraph(g) && Growth(g, e) && Evolved(g, e, p) && x == iset q: Pair | Evolved(g, e, q)
    ensures Holds(Match(g, p), x)
  {
    hide DeclaredGraph, Growth;
    var (r, w) := (p.0, p.1);
    if !Succeeds(e, r, w) {
      BranchStep(g, e, r, w, x);
    } else if r.Union? {
      UnionStep(g, e, r, w, x);
    } else if r.Named? || r.Ref? {
      NamedStep(g, e, r, w, x);
    } else if r.Array? {
      OneGoal((r.items, w.items), x);
    } else if r.Map? {
      OneGoal((r.values, w.values), x);
    }
  }

  lemma SucceedsDeref(e: Successors, r: Schema, w: Schema)
    ensures Succeeds(e, r, w) <==> Succeeds(e, Deref(r), Deref(w))
  {
  }

  lemma BranchStep(g: Graph, e: Successors, r: Schema, w: Schema, x: iset<Pair>)
    requires DeclaredPair(g, (r, w)) && r.Union? && !w.Union? && exists t | t in r.types :: Succeeds(e, t, w)
    requires x == iset q: Pair | Evolved(g, e, q)
    ensures Holds(Match(g, (r, w)), x)
  {
    hide Succeeds;
    var t :| t in r.types && Succeeds(e, t, w);
    var k :| 0 <= k < |r.types| && r.types[k] == t;
    SucceedsDeref(e, t, w);
    SucceedsDeref(e, t, Deref(w));
    var goal := Any(WithWriter(r.types, Deref(w)));
    assert Match(g, (r, w)) == goal;
    assert goal.pairs[k] == (t, Deref(w)) && Evolved(g, e, goal.pairs[k]);
    assert goal.pairs[k] in goal.pairs;
  }

  lemma UnionBranch(g: Graph, e: Successors, r: Schema, w: Schema, k: nat)
    requires DeclaredPair(g, (r, w)) && r.Union? && Succeeds(e, r, w)
    ensures w.Union? && (k < |w.types| ==> Evolved(g, e, (r, w.types[k])))
  {
    if k < |w.types| {
      assert r.types[k] in r.types && w.types[k] in w.types && Succeeds(e, r.types[k], w.types[k]);
    }
  }

  lemma UnionStep(g: Graph, e: Successors, r: Schema, w: Schema, x: iset<Pair>)
    requires DeclaredPair(g, (r, w)) && r.Union? && Succeeds(e, r, w) && x == iset q: Pair | Evolved(g, e, q)
    ensures Holds(Match(g, (r, w)), x)
  {
    hide Succeeds, Declared, Evolved;
    UnionBranch(g, e, r, w, 0);
    var goal := All(WithReader(r, w.types), true);
    assert Match(g, (r, w)) == goal;
    forall p | p in goal.pairs
      ensures p in x
    {
      var k :| 0 <= k < |goal.pairs| && goal.pairs[k] == p;
      UnionBranch(g, e, r, w, k);
    }
  }

  lemma NamedStep(g: Graph, e: Successors, r: Schema, w: Schema, x: iset<Pair>)
    requires DeclaredGraph(g) && Growth(g, e) && DeclaredPair(g, (r, w)) && (r.Named? || r.Ref?) && Succeeds(e, r, w)
    requires x == iset q: Pair | Evolved(g, e, q)
    ensures Holds(Match(g, (r, w)), x)
  {
    hide SameName, NamesMatch, RecordGoal, KeptField, AddedField, Evolved;
    var (i, j) := (Deref(r).id, Deref(w).id);
    assert (i, j) in e;
    assert DeclaredDef(g[i], |g|) && DeclaredDef(g[j], |g|) && Grown(g, e, g[i], g[j]);
    SameNameExact(g[i].name, g[j].name);
    if g[i].Record? {
      GrownFieldsFit(g, e, g[i].fields, g[j].fields, x);
      RecordGoalExact(g[i].fields, g[j].fields, x);
    }
  }

  lemma GrownFieldsFit(g: Graph, e: Successors, rs: seq<Field>, ws: seq<Field>, x: iset<Pair>)
    requires forall f | f in rs :: Declared(f.typ, |g|)
    requires forall f | f in ws :: Declared(f.typ, |g|)
    requires forall a :: 0 <= a < |rs| ==> KeptField(e, rs[a], ws) || AddedField(rs[a], ws)
    requires x == iset q: Pair | Evolved(g, e, q)
    ensures FieldsFit(x, rs, ws)
  {
    hide TakesField, Succeeds, Declared;
    forall a, k | 0 <= a < |rs| && 0 <= k < |ws| && TakesField(rs[a], ws[k])
      ensures (rs[a].typ, ws[k].typ) in x
    {
      assert KeptField(e, rs[a], ws);
    }
  }

  // --- corollaries ---

  lemma NameAgrees(n: Name)
    ensures SameName(n, n)
  {
    LocalExact(n.full, AfterLastDot(n.full));
  }

  lemma {:induction false} SucceedsItself(e: Successors, s: Schema, n: nat)
    requires Declared(s, n) && forall i: nat | i < n :: (i, i) in e
    ensures Succeeds(e, s, s)
    decreases s
  {
    match s
    case Array(items) => SucceedsItself(e, items, n);
    case Map(values) => SucceedsItself(e, values, n);
    case Union(types, _) =>
      forall k | 0 <= k < |types|
        ensures Succeeds(e, types[k], types[k])
      {
        SucceedsItself(e, types[k], n);
      }
    case _ =>
  }

  lemma GrownItself(g: Graph, e: Successors, i: nat)
    requires DeclaredGraph(g) && i < |g| && forall k: nat | k < |g| :: (k, k) in e
    ensures Grown(g, e, g[i], g[i])
  {
    hide Succeeds, Declared, SameName;
    NameAgrees(g[i].name);
    assert DeclaredDef(g[i], |g|);
    if g[i].Record? {
      var fs := g[i].fields;
      forall a | 0 <= a < |fs|
        ensures KeptField(e, fs[a], fs)
      {
        assert fs[a] in fs;
        SucceedsItself(e, fs[a].typ, |g|);
        assert forall k :: 0 <= k < |fs| ==> (TakesField(fs[a], fs[k]) <==> k == a);
      }
    }
  }

  /** Every declared schema reads what was written with it. */
  lemma ReadsItself(g: Graph, s: Schema)
    requires DeclaredGraph(g) && Declared(s, |g|)
    ensures Compatible(g, (s, s))
  {
    hide Compatible, DeclaredGraph, Declared, Grown, Succeeds;
    var e := iset q: (nat, nat) | q.0 < |g| && q.1 == q.0;
    forall q | q in e
      ensures Grown(g, e, g[q.0], g[q.1])
    {
      GrownItself(g, e, q.0);
    }
    SucceedsItself(e, s, |g|);
    GrowthReads(g, e, s, s);
  }

  /** A record that only adds fields with defaults reads the old one; without a default it does not. */
  lemma AddedFields(g: Graph, i: nat, j: nat)
    requires DeclaredGraph(g) && i < |g| && j < |g| && g[i].Record? && g[j].Record?
    requires SameName(g[i].name, g[j].name) && g[j].fields <= g[i].fields
    ensures Compatible(g, (Named(i), Named(j))) <==>
            forall a :: |g[j].fields| <= a < |g[i].fields| ==> g[i].fields[a].def.Some?
  {
    hide Compatible, SameName, Declared;
    var rs, ws := g[i].fields, g[j].fields;
    assert DeclaredDef(g[i], |g|) && DeclaredDef(g[j], |g|);
    assert forall a, k :: 0 <= a < |rs| && 0 <= k < |ws| ==> (TakesField(rs[a], ws[k]) <==> a == k) by {
      assert forall k :: 0 <= k < |ws| ==> ws[k] == rs[k];
    }
    forall k | 0 <= k < |ws|
      ensures rs[k] == ws[k] && Compatible(g, (rs[k].typ, ws[k].typ))
    {
      assert ws[k] in ws;
      ReadsItself(g, ws[k].typ);
    }
    RecordsExact(g, i, j);
  }

  /** A checker with a reliable memo accepts growth, and so does the check without a memo. */
  lemma GrowthAccepted(g: Graph, cache: Cache, e: Successors, r: Schema, w: Schema)
    requires DeclaredGraph(g) && Growth(g, e) && Declared(r, |g|) && Declared(w, |g|) && Succeeds(e, r, w)
    ensures Check(g, r, w)
    ensures Reliable(g, cache, r) ==> Call(g, cache, r, w).ok
  {
    hide Compatible, Declared, DeclaredGraph, Reliable, Growth, Succeeds, Check, Call;
    GrowthReads(g, e, r, w);
    CheckExact(g, r, w);
    if Reliable(g, cache, r) {
      CallExact(g, cache, r, w);
    }
  }
}
