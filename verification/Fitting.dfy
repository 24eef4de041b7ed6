/** What any finished resolution, right or wrong, says about the schemas it went through. */
module Fitting {
  import opened Schemas
  import opened Values
  import opened Compatibility
  import opened Plans
  import opened Memo
  import opened BranchChoice

  /** The two schemas agree in shape, as far as the record pairs that were met. */
  ghost predicate Fit(g: Graph, recs: Records, r: Schema, w: Schema)
    requires DeclaredGraph(g) && Declared(r, |g|) && Declared(w, |g|)
    decreases Size(r) + Size(w)
  {
    var reader, writer := Deref(r), Deref(w);
    if TypeOf(g, reader) != TypeOf(g, writer) then
      if reader.Union? then AnyFit(g, recs, reader, writer)
      else if writer.Union? then AllFit(g, recs, reader, writer)
      else reader.Primitive? && writer.Primitive? && Promotable(writer.kind, reader.kind)
    else
      match writer
      case Array(items) => Fit(g, recs, reader.items, items)
      case Map(values) => Fit(g, recs, reader.values, values)
      case Union(_, _) => AllFit(g, recs, reader, writer)
      case Named(j) => g[j].Record? ==> (reader.id, j) in recs
      case _ => true
  }

  ghost predicate AnyFit(g: Graph, recs: Records, r: Schema, w: Schema)
    requires DeclaredGraph(g) && Declared(r, |g|) && Declared(w, |g|) && r.Union?
    decreases Size(r) + Size(w), 0
  {
    exists k :: 0 <= k < |r.types| && (SizeOfBranch(r.types, k); Fit(g, recs, r.types[k], w))
  }

  ghost predicate AllFit(g: Graph, recs: Records, r: Schema, w: Schema)
    requires DeclaredGraph(g) && Declared(r, |g|) && Declared(w, |g|) && w.Union?
    decreases Size(r) + Size(w), 0
  {
    forall k :: 0 <= k < |w.types| ==> (SizeOfBranch(w.types, k); Fit(g, recs, r, w.types[k]))
  }

  /** The matched fields of two records fit. */
  ghost predicate FieldsFit(g: Graph, recs: Records, rs: seq<Field>, ws: seq<Field>)
    requires DeclaredGraph(g)
    requires forall f | f in rs :: Declared(f.typ, |g|)
    requires forall f | f in ws :: Declared(f.typ, |g|)
  {
    var m := MatchFields(Labels(rs), Labels(ws), {});
    && m.Some?
    && forall j :: 0 <= j < |rs| && m.value[j].Some? && m.value[j].value < |ws| ==> Fit(g, recs, rs[j].typ, ws[m.value[j].value].typ)
  }

  /** Record pairs point to records of the plan graph. */
  ghost predicate Tidy(g: Graph, recs: Records, h: Graph) {
    forall i: nat, j: nat | (i, j) in recs ::
      i < |g| && j < |g| && g[i].Record? && g[j].Record? && recs[(i, j)] < |h| && h[recs[(i, j)]].Record?
  }

  /** The fields of all record pairs fit, except of those still pending. */
  ghost predicate Fitted(g: Graph, recs: Records, pending: set<(nat, nat)>)
    requires DeclaredGraph(g)
  {
    forall i: nat, j: nat | (i, j) in recs && (i, j) !in pending :: PairFits(g, recs, i, j)
  }

  ghost predicate PairFits(g: Graph, recs: Records, i: nat, j: nat)
    requires DeclaredGraph(g)
  {
    i < |g| && j < |g| && g[i].Record? && g[j].Record? && FieldsFit(g, recs, g[i].fields, g[j].fields)
  }

  lemma {:induction false} FitGrows(g: Graph, recs: Records, recs': Records, r: Schema, w: Schema)
    requires DeclaredGraph(g) && Declared(r, |g|) && Declared(w, |g|)
    requires recs.Keys <= recs'.Keys && Fit(g, recs, r, w)
    ensures Fit(g, recs', r, w)
    decreases Size(r) + Size(w)
  {
    var reader, writer := Deref(r), Deref(w);
    if TypeOf(g, reader) != TypeOf(g, writer) {
      if reader.Union? {
        var k :| 0 <= k < |reader.types| && (SizeOfBranch(reader.types, k); Fit(g, recs, reader.types[k], writer));
        SizeOfBranch(reader.types, k);
        FitGrows(g, recs, recs', reader.types[k], writer);
      } else if writer.Union? {
        AllFitGrows(g, recs, recs', reader, writer);
      }
    } else {
      match writer
      case Array(items) => FitGrows(g, recs, recs', reader.items, items);
      case Map(values) => FitGrows(g, recs, recs', reader.values, values);
      case Union(_, _) => AllFitGrows(g, recs, recs', reader, writer);
      case _ =>
    }
  }

  lemma {:induction false} AllFitGrows(g: Graph, recs: Records, recs': Records, r: Schema, w: Schema)
    requires DeclaredGraph(g) && Declared(r, |g|) && Declared(w, |g|) && w.Union?
    requires recs.Keys <= recs'.Keys && AllFit(g, recs, r, w)
    ensures AllFit(g, recs', r, w)
    decreases Size(r) + Size(w), 0
  {
    forall k | 0 <= k < |w.types| ensures (SizeOfBranch(w.types, k); Fit(g, recs', r, w.types[k])) {
      SizeOfBranch(w.types, k);
      FitGrows(g, recs, recs', r, w.types[k]);
    }
  }

  lemma FieldsFitGrow(g: Graph, recs: Records, recs': Records, rs: seq<Field>, ws: seq<Field>)
    requires DeclaredGraph(g)
    requires forall f | f in rs :: Declared(f.typ, |g|)
    requires forall f | f in ws :: Declared(f.typ, |g|)
    requires recs.Keys <= recs'.Keys && FieldsFit(g, recs, rs, ws)
    ensures FieldsFit(g, recs', rs, ws)
  {
    var m := MatchFields(Labels(rs), Labels(ws), {}).value;
    forall j | 0 <= j < |rs| && m[j].Some? && m[j].value < |ws| ensures Fit(g, recs', rs[j].typ, ws[m[j].value].typ) {
      FitGrows(g, recs, recs', rs[j].typ, ws[m[j].value].typ);
    }
  }

  /** A record pair met anew is pending; the others still fit. */
  lemma FittedPublish(g: Graph, recs: Records, recs': Records, pending: set<(nat, nat)>, p: (nat, nat))
    requires DeclaredGraph(g) && Fitted(g, recs, pending) && recs'.Keys == recs.Keys + {p}
    ensures Fitted(g, recs', pending + {p})
  {
    forall i: nat, j: nat | (i, j) in recs' && (i, j) !in pending + {p} ensures PairFits(g, recs', i, j) {
      assert PairFits(g, recs, i, j);
      FieldsFitGrow(g, recs, recs', g[i].fields, g[j].fields);
    }
  }

  /** A pending pair whose fields fit is no longer pending. */
  lemma FittedFill(g: Graph, recs: Records, pending: set<(nat, nat)>, i: nat, j: nat)
    requires DeclaredGraph(g) && Fitted(g, recs, pending + {(i, j)}) && PairFits(g, recs, i, j)
    ensures Fitted(g, recs, pending)
  {
    hide PairFits;
  }

  /** The branch that the memo names fits the writer. */
  ghost predicate BranchFits(g: Graph, recs: Records, cache: Cache, r: Schema, w: Schema)
    requires DeclaredGraph(g) && Declared(r, |g|) && Declared(w, |g|) && r.Union?
  {
    var k := FirstCached(g, cache, r.types, w).branch;
    k.Some? && Fit(g, recs, r.types[k.value], w)
  }

  /** The same for any pair: it speaks of a reader union and a writer that is none. */
  ghost predicate ChoiceFits(g: Graph, recs: Records, cache: Cache, reader: Schema, writer: Schema)
    requires DeclaredGraph(g) && Declared(reader, |g|) && Declared(writer, |g|)
  {
    var r, w := Deref(reader), Deref(writer);
    r.Union? && !w.Union? ==> BranchFits(g, recs, cache, r, w)
  }
}
