/** Building a plan graph: what stays true while records are published, filled and added to. */
module PlanGrowth {
  import opened Wire
  import opened Schemas
  import opened Finite
  import opened Compatibility
  import opened Checking
  import opened Meanings
  import opened Plans

  // --- compatible pairs, one step down ---

  /** A compatible pair rests on compatible pairs. */
  lemma CheckStep(g: Graph, r: Schema, w: Schema)
    requires DeclaredGraph(g) && Declared(r, |g|) && Declared(w, |g|) && Check(g, r, w)
    ensures match Match(g, (Deref(r), Deref(w)))
            case All(pairs, last) => last && forall p | p in pairs :: DeclaredPair(g, p) && Check(g, p.0, p.1)
            case Any(pairs) => exists p | p in pairs :: DeclaredPair(g, p) && Check(g, p.0, p.1)
  {
    CheckExact(g, r, w);
    FixpointConsistent(g, {});
    DerefMatch(g, (r, w));
    assert (r, w) in Greatest(g, {});
    var goal := Match(g, (r, w));
    forall p | p in goal.pairs && p in Greatest(g, {})
      ensures DeclaredPair(g, p) && Check(g, p.0, p.1)
    {
      CheckExact(g, p.0, p.1);
    }
  }

  lemma {:induction false} FieldGoalMeans(rs: seq<Field>, ws: seq<Field>, m: seq<Option<nat>>, j: nat)
    requires |m| == |rs| && Bounded(m, |ws|) && j < |rs| && FieldGoal(rs, ws, m).last
    ensures m[j].None? ==> rs[j].def.Some?
    ensures m[j].Some? ==> (rs[j].typ, ws[m[j].value].typ) in FieldGoal(rs, ws, m).pairs
    decreases |rs|
  {
    if j > 0 {
      FieldGoalMeans(rs[1..], ws, m[1..], j - 1);
    }
  }

  // --- growth ---

  /** More record pairs, more nodes; what is not a record stays as it is. */
  ghost predicate Later(recs: Records, h: Graph, recs': Records, h': Graph) {
    && (forall p | p in recs :: p in recs' && recs'[p] == recs[p])
    && |h| <= |h'|
    && forall k :: 0 <= k < |h| && !h[k].Record? ==> h'[k] == h[k]
  }

  lemma LaterStill(recs: Records, h: Graph, recs': Records, h': Graph, recs'': Records, h'': Graph)
    requires Later(recs, h, recs', h') && Later(recs', h', recs'', h'')
    ensures Later(recs, h, recs'', h'')
  {
  }

  lemma LaterVisits(g: Graph, recs: Records, h: Graph, recs': Records, h': Graph)
    requires Later(recs, h, recs', h')
    ensures Unvisited(g, recs') <= Unvisited(g, recs)
  {
    UnvisitedShrinks(g, recs, recs');
  }

  lemma LaterSame(recs: Records, h: Graph)
    ensures Later(recs, h, recs, h)
  {
  }

  lemma {:induction false} PlanGrows(g: Graph, recs: Records, h: Graph, recs': Records, h': Graph,
                                     r: Schema, w: Schema, s: Schema)
    requires DeclaredGraph(g) && Declared(r, |g|) && Declared(w, |g|)
    requires Later(recs, h, recs', h') && Plan(g, recs, h, r, w, s)
    ensures Plan(g, recs', h', r, w, s)
    decreases Size(r) + Size(w)
  {
    var reader, writer := Deref(r), Deref(w);
    if TypeOf(g, reader) != TypeOf(g, writer) {
      if reader.Union? {
        var k := FirstMatch(g, reader.types, writer).value;
        SizeOfBranch(reader.types, k);
        PlanGrows(g, recs, h, recs', h', reader.types[k], writer, s);
      } else if writer.Union? {
        UnionGrows(g, recs, h, recs', h', reader, [reader], writer, s);
      }
    } else {
      match (reader, writer)
      case (Array(items), Array(witems)) => PlanGrows(g, recs, h, recs', h', items, witems, s.items);
      case (Map(values), Map(wvalues)) => PlanGrows(g, recs, h, recs', h', values, wvalues, s.values);
      case (Union(types, _), Union(_, _)) => UnionGrows(g, recs, h, recs', h', reader, types, writer, s);
      case _ =>
    }
  }

  lemma {:induction false} UnionGrows(g: Graph, recs: Records, h: Graph, recs': Records, h': Graph,
                                      r: Schema, types: seq<Schema>, w: Schema, s: Schema)
    requires DeclaredGraph(g) && Declared(r, |g|) && Declared(w, |g|) && w.Union?
    requires Later(recs, h, recs', h') && UnionPlan(g, recs, h, r, types, w, s)
    ensures UnionPlan(g, recs', h', r, types, w, s)
    decreases Size(r) + Size(w), 0
  {
    forall k | 0 <= k < |w.types|
      ensures Plan(g, recs', h', r, w.types[k], s.plans[k])
    {
      SizeOfBranch(w.types, k);
      PlanGrows(g, recs, h, recs', h', r, w.types[k], s.plans[k]);
    }
  }

  lemma PlansGrow(g: Graph, recs: Records, h: Graph, recs': Records, h': Graph,
                  r: Schema, types: seq<Schema>, plans: seq<Schema>)
    requires DeclaredGraph(g) && Declared(r, |g|) && forall t | t in types :: Declared(t, |g|)
    requires Later(recs, h, recs', h') && BranchPlans(g, recs, h, r, types, plans)
    ensures BranchPlans(g, recs', h', r, types, plans)
  {
    forall k | 0 <= k < |plans|
      ensures Plan(g, recs', h', r, types[k], plans[k])
    {
      PlanGrows(g, recs, h, recs', h', r, types[k], plans[k]);
    }
  }

  /** The plans of the first branches of a writer union. */
  ghost predicate BranchPlans(g: Graph, recs: Records, h: Graph, r: Schema, types: seq<Schema>, plans: seq<Schema>)
    requires DeclaredGraph(g) && Declared(r, |g|) && forall t | t in types :: Declared(t, |g|)
  {
    |plans| <= |types| && forall k :: 0 <= k < |plans| ==> Plan(g, recs, h, r, types[k], plans[k])
  }

  lemma NoBranchPlans(g: Graph, recs: Records, h: Graph, r: Schema, types: seq<Schema>)
    requires DeclaredGraph(g) && Declared(r, |g|) && forall t | t in types :: Declared(t, |g|)
    ensures BranchPlans(g, recs, h, r, types, [])
  {
  }

  lemma BranchPlansNext(g: Graph, recs: Records, h: Graph, r: Schema, types: seq<Schema>, plans: seq<Schema>, plan: Schema)
    requires DeclaredGraph(g) && Declared(r, |g|) && forall t | t in types :: Declared(t, |g|)
    requires BranchPlans(g, recs, h, r, types, plans) && |plans| < |types|
    requires Plan(g, recs, h, r, types[|plans|], plan)
    ensures BranchPlans(g, recs, h, r, types, plans + [plan])
  {
  }

  lemma BranchPlansAll(g: Graph, recs: Records, h: Graph, r: Schema, types: seq<Schema>, w: Schema, plans: seq<Schema>)
    requires DeclaredGraph(g) && Declared(r, |g|) && Declared(w, |g|) && w.Union?
    requires BranchPlans(g, recs, h, r, w.types, plans) && |plans| == |w.types|
    ensures UnionPlan(g, recs, h, r, types, w, Union(types, plans))
  {
  }

  lemma FieldPlanGrows(g: Graph, recs: Records, h: Graph, recs': Records, h': Graph, rs: seq<Field>, ws: seq<Field>,
                       matched: seq<Option<nat>>, k: nat, f: Field)
    requires DeclaredGraph(g) && |matched| == |rs| && k < |ws|
    requires forall f | f in rs :: Declared(f.typ, |g|)
    requires forall f | f in ws :: Declared(f.typ, |g|)
    requires Later(recs, h, recs', h') && WriterFieldPlan(g, recs, h, rs, ws, matched, k, f)
    ensures WriterFieldPlan(g, recs', h', rs, ws, matched, k, f)
  {
    var j := ReaderOf(matched, k);
    if j.Some? {
      PlanGrows(g, recs, h, recs', h', rs[j.value].typ, ws[k].typ, f.typ);
    }
  }

  lemma FieldsPlanGrows(g: Graph, recs: Records, h: Graph, recs': Records, h': Graph,
                        rs: seq<Field>, ws: seq<Field>, fields: seq<Field>)
    requires DeclaredGraph(g)
    requires forall f | f in rs :: Declared(f.typ, |g|)
    requires forall f | f in ws :: Declared(f.typ, |g|)
    requires Later(recs, h, recs', h') && FieldsPlan(g, recs, h, rs, ws, fields)
    ensures FieldsPlan(g, recs', h', rs, ws, fields)
  {
    var m := MatchFields(Labels(rs), Labels(ws), {}).value;
    forall k | 0 <= k < |ws|
      ensures WriterFieldPlan(g, recs', h', rs, ws, m, k, fields[k])
    {
      FieldPlanGrows(g, recs, h, recs', h', rs, ws, m, k, fields[k]);
    }
  }

  // --- the state of a resolution ---

  /** A published plan record; filled in unless its pair is pending. */
  ghost predicate Published(g: Graph, recs: Records, h: Graph, i: nat, j: nat, id: nat, pending: bool)
    requires DeclaredGraph(g)
  {
    && i < |g| && j < |g| && g[i].Record? && g[j].Record?
    && |g| <= id < |h| && h[id].Record? && h[id].name == g[i].name
    && (!pending ==> RecordPlan(g, recs, h, i, j, id))
  }

  ghost predicate Injective(recs: Records) {
    forall p, q | p in recs && q in recs && recs[p] == recs[q] :: p == q
  }

  ghost predicate State(g: Graph, recs: Records, h: Graph, pending: set<(nat, nat)>)
    requires DeclaredGraph(g)
  {
    && Embeds(g, h)
    && pending <= recs.Keys
    && (forall i: nat, j: nat | (i, j) in recs :: Published(g, recs, h, i, j, recs[(i, j)], (i, j) in pending))
    && Injective(recs)
    && Covered(recs, h, |g|)
  }

  lemma StateComplete(g: Graph, recs: Records, h: Graph)
    requires DeclaredGraph(g) && State(g, recs, h, {})
    ensures Complete(g, recs, h)
  {
    forall i: nat, j: nat | (i, j) in recs
      ensures i < |g| && j < |g| && g[i].Record? && g[j].Record? && RecordPlan(g, recs, h, i, j, recs[(i, j)])
    {
      assert Published(g, recs, h, i, j, recs[(i, j)], (i, j) in {});
    }
  }

  /** A filled record stays filled when the graph grows around it. */
  lemma PublishedGrows(g: Graph, recs: Records, h: Graph, recs': Records, h': Graph, i: nat, j: nat, id: nat, pending: bool)
    requires DeclaredGraph(g) && Later(recs, h, recs', h') && Published(g, recs, h, i, j, id, pending)
    requires h'[id] == h[id]
    ensures Published(g, recs', h', i, j, id, pending)
  {
    if !pending {
      FieldsPlanGrows(g, recs, h, recs', h', g[i].fields, g[j].fields, h[id].fields);
    }
  }

  /** Adding a node that is not a record. */
  lemma AddNode(g: Graph, recs: Records, h: Graph, pending: set<(nat, nat)>, node: Def)
    requires DeclaredGraph(g) && State(g, recs, h, pending) && !node.Record?
    ensures State(g, recs, h + [node], pending)
  {
    var h' := h + [node];
    assert h'[..|g|] == h[..|g|];
    forall i: nat, j: nat | (i, j) in recs
      ensures Published(g, recs, h', i, j, recs[(i, j)], (i, j) in pending)
    {
      PublishedGrows(g, recs, h, recs, h', i, j, recs[(i, j)], (i, j) in pending);
    }
  }

  /** Publishing the placeholder of a new pair. */
  lemma Publish(g: Graph, recs: Records, h: Graph, pending: set<(nat, nat)>, i: nat, j: nat)
    requires DeclaredGraph(g) && State(g, recs, h, pending)
    requires i < |g| && j < |g| && g[i].Record? && g[j].Record? && (i, j) !in recs
    ensures State(g, recs[(i, j) := |h|], h + [Record(g[i].name, [])], pending + {(i, j)})
    ensures Later(recs, h, recs[(i, j) := |h|], h + [Record(g[i].name, [])])
  {
    hide FieldsPlan, Injective, Covered;
    var h' := h + [Record(g[i].name, [])];
    var recs' := recs[(i, j) := |h|];
    assert h'[..|g|] == h[..|g|];
    forall x: nat, y: nat | (x, y) in recs'
      ensures Published(g, recs', h', x, y, recs'[(x, y)], (x, y) in pending + {(i, j)})
    {
      if (x, y) != (i, j) {
        PublishedGrows(g, recs, h, recs', h', x, y, recs[(x, y)], (x, y) in pending);
      }
    }
    PublishCovers(recs, h, |g|, i, j, Record(g[i].name, []));
    PublishInjective(g, recs, h, pending, i, j);
  }

  lemma PublishInjective(g: Graph, recs: Records, h: Graph, pending: set<(nat, nat)>, i: nat, j: nat)
    requires DeclaredGraph(g) && State(g, recs, h, pending) && (i, j) !in recs
    ensures Injective(recs[(i, j) := |h|])
  {
    forall p | p in recs
      ensures recs[p] < |h|
    {
      assert Published(g, recs, h, p.0, p.1, recs[p], p in pending);
    }
  }

  lemma PublishCovers(recs: Records, h: Graph, n: nat, i: nat, j: nat, node: Def)
    requires Covered(recs, h, n) && (i, j) !in recs
    ensures Covered(recs[(i, j) := |h|], h + [node], n)
  {
    var h', recs' := h + [node], recs[(i, j) := |h|];
    forall id: nat | n <= id < |h'| && h'[id].Record?
      ensures exists x: nat, y: nat :: (x, y) in recs' && recs'[(x, y)] == id
    {
      if id < |h| {
        var x: nat, y: nat :| (x, y) in recs && recs[(x, y)] == id;
        assert (x, y) in recs' && recs'[(x, y)] == id;
      } else {
        assert (i, j) in recs' && recs'[(i, j)] == id;
      }
    }
  }

  lemma PublishedRecord(g: Graph, recs: Records, h: Graph, i: nat, j: nat, id: nat, pending: bool)
    requires DeclaredGraph(g) && Published(g, recs, h, i, j, id, pending)
    ensures |g| <= id < |h| && h[id].Record?
  {
  }

  lemma PublishedFilled(g: Graph, recs: Records, h: Graph, i: nat, j: nat, id: nat, fields: seq<Field>, pending: bool)
    requires DeclaredGraph(g) && Published(g, recs, h, i, j, id, true)
    requires FieldsPlan(g, recs, h, g[i].fields, g[j].fields, fields)
    ensures id < |h| && Published(g, recs, h[id := Record(g[i].name, fields)], i, j, id, pending)
  {
    hide FieldsPlan;
    FieldsPlanGrows(g, recs, h, recs, h[id := Record(g[i].name, fields)], g[i].fields, g[j].fields, fields);
  }

  /** Filling in the placeholder of a pending pair. */
  lemma Fill(g: Graph, recs: Records, h: Graph, pending: set<(nat, nat)>, i: nat, j: nat, fields: seq<Field>)
    requires DeclaredGraph(g) && State(g, recs, h, pending + {(i, j)})
    requires i < |g| && j < |g| && g[i].Record? && g[j].Record?
    requires FieldsPlan(g, recs, h, g[i].fields, g[j].fields, fields)
    ensures (i, j) in recs && recs[(i, j)] < |h|
    ensures State(g, recs, h[recs[(i, j)] := Record(g[i].name, fields)], pending)
    ensures Later(recs, h, recs, h[recs[(i, j)] := Record(g[i].name, fields)])
  {
    hide FieldsPlan, Published, DeclaredGraph;
    assert (i, j) in recs;
    var id := recs[(i, j)];
    assert Published(g, recs, h, i, j, id, true);
    PublishedRecord(g, recs, h, i, j, id, true);
    var h' := h[id := Record(g[i].name, fields)];
    assert h'[..|g|] == h[..|g|];
    forall x: nat, y: nat | (x, y) in recs
      ensures Published(g, recs, h', x, y, recs[(x, y)], (x, y) in pending)
    {
      assert Published(g, recs, h, x, y, recs[(x, y)], (x, y) in pending + {(i, j)});
      PublishedRecord(g, recs, h, x, y, recs[(x, y)], (x, y) in pending + {(i, j)});
      if (x, y) == (i, j) {
        PublishedFilled(g, recs, h, i, j, id, fields, (x, y) in pending);
      } else {
        PublishedGrows(g, recs, h, recs, h', x, y, recs[(x, y)], (x, y) in pending);
      }
    }
  }

  // --- termination ---

  function RecordPairs(g: Graph): set<(nat, nat)> {
    set i, j | 0 <= i < |g| && 0 <= j < |g| :: (i, j)
  }

  /** The record pairs not yet met. */
  function Unvisited(g: Graph, recs: Records): nat {
    |RecordPairs(g) - recs.Keys|
  }

  lemma UnvisitedShrinks(g: Graph, recs: Records, recs': Records)
    requires recs.Keys <= recs'.Keys
    ensures Unvisited(g, recs') <= Unvisited(g, recs)
    ensures forall i: nat, j: nat | i < |g| && j < |g| && (i, j) !in recs && (i, j) in recs' ::
              Unvisited(g, recs') < Unvisited(g, recs)
  {
    var a, b := RecordPairs(g) - recs'.Keys, RecordPairs(g) - recs.Keys;
    SubsetSize(a, b);
    forall i: nat, j: nat | i < |g| && j < |g| && (i, j) !in recs && (i, j) in recs'
      ensures |a| < |b|
    {
      assert (i, j) in b && (i, j) !in a;
      SubsetSize(a, b - {(i, j)});
    }
  }
}
