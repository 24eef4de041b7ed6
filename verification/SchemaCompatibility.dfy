/** The compatibility checker as the program runs it: loops, a shared memo, an active set. */
module SchemaCompatibility {
  import opened Wire
  import opened Schemas
  import opened Values
  import opened Compatibility
  import opened Checking
  import opened Memo

  /** Writer fields by name; a later field hides an earlier one of the same name. */
  method IndexByName(ws: seq<Label>) returns (writers: map<Text, nat>)
    ensures forall name: Text :: name in writers <==> Lookup(ws, name).Some?
    ensures forall name: Text :: name in writers ==> writers[name] == Lookup(ws, name).value
  {
    writers := map[];
    for i := 0 to |ws|
      invariant forall name: Text :: name in writers <==> Lookup(ws[..i], name).Some?
      invariant forall name: Text :: name in writers ==> writers[name] == Lookup(ws[..i], name).value
    {
      assert ws[..i + 1][..i] == ws[..i];
      writers := writers[ws[i].name := i];
    }
    assert ws[..|ws|] == ws;
  }

  /** The one writer field that a reader field names, by its own name or an alias. */
  method MatchOne(f: Label, ghost ws: seq<Label>, writers: map<Text, nat>) returns (found: Found)
    requires forall name: Text :: name in writers <==> Lookup(ws, name).Some?
    requires forall name: Text :: name in writers ==> writers[name] == Lookup(ws, name).value
    ensures found == MatchField(ws, f)
  {
    var best: Option<nat> := if f.name in writers then Some(writers[f.name]) else None;
    var aliases := f.aliases;
    for k := 0 to |aliases|
      invariant MatchField(ws, f) == MatchAliases(ws, aliases[k..], best)
    {
      assert aliases[k..][0] == aliases[k] && aliases[k..][1..] == aliases[k + 1..];
      if aliases[k] in writers {
        if best.Some? {
          return Ambiguous;
        }
        best := Some(writers[aliases[k]]);
      }
    }
    found := Found(best);
  }

  /**
   * Matches each reader field to at most one writer field through its name or aliases;
   * no writer field may be taken twice.
   */
  method MatchRecordFields(rs: seq<Label>, ws: seq<Label>) returns (ok: bool, matched: map<nat, nat>)
    ensures ok <==> MatchFields(rs, ws, {}).Some?
    ensures ok ==> matched == AsMap(MatchFields(rs, ws, {}).value, 0)
  {
    var writers := IndexByName(ws);
    matched := map[];
    var used: set<nat> := {};
    for j := 0 to |rs|
      invariant Progress(MatchFields(rs, ws, {}), MatchFields(rs[j..], ws, used), matched, j)
    {
      assert rs[j..][0] == rs[j] && rs[j..][1..] == rs[j + 1..];
      var found := MatchOne(rs[j], ws, writers);
      if found.Ambiguous? || (found.index.Some? && found.index.value in used) {
        return false, map[];
      }
      ghost var rest := MatchFields(rs[j + 1..], ws, if found.index.Some? then used + {found.index.value} else used);
      Advance(MatchFields(rs, ws, {}), found.index, rest, matched, j);
      if found.index.Some? {
        matched := matched[j := found.index.value];
        used := used + {found.index.value};
      }
    }
    ok := true;
  }

  /** The whole result is what has been matched so far and what is still to come. */
  ghost predicate Progress(whole: Option<seq<Option<nat>>>, rest: Option<seq<Option<nat>>>, matched: map<nat, nat>, j: nat) {
    && (whole.Some? <==> rest.Some?)
    && (whole.Some? ==> AsMap(whole.value, 0) == matched + AsMap(rest.value, j))
  }

  lemma Advance(whole: Option<seq<Option<nat>>>, index: Option<nat>, rest: Option<seq<Option<nat>>>,
                matched: map<nat, nat>, j: nat)
    requires Progress(whole, if rest.Some? then Some([index] + rest.value) else None, matched, j)
    ensures Progress(whole, rest, if index.Some? then matched[j := index.value] else matched, j + 1)
  {
    if rest.Some? {
      assert ([index] + rest.value)[1..] == rest.value;
      AsMapBounds(rest.value, j + 1);
    }
  }

  /** The matches as a map from reader to writer position, counting from `j`. */
  function AsMap(matched: seq<Option<nat>>, j: nat): map<nat, nat>
    decreases |matched|
  {
    if matched == [] then map[]
    else
      var rest := AsMap(matched[1..], j + 1);
      if matched[0].Some? then map[j := matched[0].value] + rest else rest
  }

  lemma {:induction false} AsMapBounds(matched: seq<Option<nat>>, j: nat)
    ensures forall k :: k in AsMap(matched, j) <==> j <= k < j + |matched| && matched[k - j].Some?
    ensures forall k :: k in AsMap(matched, j) ==> AsMap(matched, j)[k] == matched[k - j].value
    decreases |matched|
  {
    if matched != [] {
      AsMapBounds(matched[1..], j + 1);
    }
  }

  /** The pairs whose verdict is pending, shared by all calls of one check. */
  class ActiveSet {
    var keys: set<Key>

    constructor ()
      ensures keys == {}
    {
      keys := {};
    }
  }

  class Checker {
    var cache: Cache

    constructor ()
      ensures cache == map[]
    {
      cache := map[];
    }

    /** Whether the reader can read what the writer wrote, on behalf of a caller. */
    method Compatible(g: Graph, reader: Schema, writer: Schema) returns (ok: bool)
      requires DeclaredGraph(g) && Declared(reader, |g|) && Declared(writer, |g|)
      modifies this
      ensures Verdict(ok, cache) == Call(g, old(cache), reader, writer)
    {
      UniverseClosed(g, reader, writer);
      var active := new ActiveSet();
      ok := Check(g, Universe(g, reader, writer), reader, writer, active);
    }

    method Check(g: Graph, ghost u: set<Schema>, reader: Schema, writer: Schema, active: ActiveSet) returns (ok: bool)
      requires DeclaredGraph(g) && Closed(g, u) && Inside(u, (reader, writer))
      modifies this, active
      ensures active.keys == old(active.keys)
      ensures Verdict(ok, cache) == Cached(g, u, old(cache), old(active.keys), (reader, writer))
      decreases Budget(g, u, active.keys), 1, 0
    {
      var key := KeyOf(g, (reader, writer));
      if key in cache {
        return cache[key];
      }
      if key in active.keys {
        return true;
      }
      BudgetDrops(g, u, active.keys, (reader, writer));
      MatchWithin(g, u, (reader, writer));
      active.keys := active.keys + {key};
      ok := MatchPair(g, u, reader, writer, active);
      active.keys := active.keys - {key};
      cache := cache[key := ok];
    }

    method MatchPair(g: Graph, ghost u: set<Schema>, reader: Schema, writer: Schema, active: ActiveSet) returns (ok: bool)
      requires DeclaredGraph(g) && Closed(g, u) && Inside(u, (reader, writer))
      requires forall p | p in Match(g, (reader, writer)).pairs :: Inside(u, p)
      modifies this, active
      ensures active.keys == old(active.keys)
      ensures Verdict(ok, cache) == CachedGoal(g, u, old(cache), old(active.keys), Match(g, (reader, writer)))
      decreases Budget(g, u, active.keys), 5, 0
    {
      var r, w := Deref(reader), Deref(writer);
      if !DecimalsAgree(g, r, w) {
        return false;
      }
      if TypeOf(g, r) != TypeOf(g, w) {
        if w.Union? {
          ok := MatchAll(g, u, WithReader(r, w.types), active);
        } else if r.Union? {
          ok := MatchAny(g, u, WithWriter(r.types, w), active);
        } else {
          ok := r.Primitive? && w.Primitive? && Promotable(w.kind, r.kind);
        }
        return;
      }
      match r
      case Array(items) => ok := MatchAll(g, u, [(items, w.items)], active);
      case Map(values) => ok := MatchAll(g, u, [(values, w.values)], active);
      case Union(_, _) => ok := MatchAll(g, u, WithReader(r, w.types), active);
      case Named(id) =>
        match g[id] {
        case Fixed(name, size, _) => ok := NamesMatch(name, g[w.id].name) && size == g[w.id].size;
        case Enum(name, _, def, _) =>
          ok := NamesMatch(name, g[w.id].name) && (SymbolsCovered(g[id], g[w.id]) || def.Some?);
        case Record(name, fields) =>
          if NamesMatch(name, g[w.id].name) {
            ok := CheckRecordFields(g, u, fields, g[w.id].fields, active);
          } else {
            ok := false;
          }
        }
      case _ => ok := true;
    }

    /** Every pair must be compatible; the first that is not decides. */
    method MatchAll(g: Graph, ghost u: set<Schema>, pairs: seq<Pair>, active: ActiveSet) returns (ok: bool)
      requires DeclaredGraph(g) && Closed(g, u) && forall p | p in pairs :: Inside(u, p)
      modifies this, active
      ensures active.keys == old(active.keys)
      ensures Verdict(ok, cache) == CachedAll(g, u, old(cache), old(active.keys), pairs)
      decreases Budget(g, u, active.keys), 4, 0
    {
      for i := 0 to |pairs|
        invariant active.keys == old(active.keys)
        invariant CachedAll(g, u, old(cache), active.keys, pairs) == CachedAll(g, u, cache, active.keys, pairs[i..])
      {
        assert pairs[i] in pairs && pairs[i..][0] == pairs[i] && pairs[i..][1..] == pairs[i + 1..];
        var one := Check(g, u, pairs[i].0, pairs[i].1, active);
        if !one {
          return false;
        }
      }
      ok := true;
    }

    /** One compatible pair suffices; the first that is decides. */
    method MatchAny(g: Graph, ghost u: set<Schema>, pairs: seq<Pair>, active: ActiveSet) returns (ok: bool)
      requires DeclaredGraph(g) && Closed(g, u) && forall p | p in pairs :: Inside(u, p)
      modifies this, active
      ensures active.keys == old(active.keys)
      ensures Verdict(ok, cache) == CachedAny(g, u, old(cache), old(active.keys), pairs)
      decreases Budget(g, u, active.keys), 4, 0
    {
      for i := 0 to |pairs|
        invariant active.keys == old(active.keys)
        invariant CachedAny(g, u, old(cache), active.keys, pairs) == CachedAny(g, u, cache, active.keys, pairs[i..])
      {
        assert pairs[i] in pairs && pairs[i..][0] == pairs[i] && pairs[i..][1..] == pairs[i + 1..];
        var one := Check(g, u, pairs[i].0, pairs[i].1, active);
        if one {
          return true;
        }
      }
      ok := false;
    }

    /** Matched fields must be compatible, unmatched reader fields must have defaults. */
    method CheckRecordFields(g: Graph, ghost u: set<Schema>, rs: seq<Field>, ws: seq<Field>, active: ActiveSet) returns (ok: bool)
      requires DeclaredGraph(g) && Closed(g, u)
      requires (forall f | f in rs :: f.typ in u) && (forall f | f in ws :: f.typ in u)
      modifies this, active
      ensures active.keys == old(active.keys)
      ensures forall p | p in RecordGoal(rs, ws).pairs :: Inside(u, p)
      ensures Verdict(ok, cache) == CachedGoal(g, u, old(cache), old(active.keys), RecordGoal(rs, ws))
      decreases Budget(g, u, active.keys), 4, 0
    {
      RecordGoalWithin(rs, ws, u);
      var sound, matched := MatchRecordFields(Labels(rs), Labels(ws));
      if !sound {
        return false;
      }
      MatchFieldsBounds(Labels(rs), Labels(ws), {});
      ghost var m := MatchFields(Labels(rs), Labels(ws), {}).value;
      AsMapBounds(m, 0);
      for i := 0 to |rs|
        invariant active.keys == old(active.keys)
        invariant forall p | p in FieldGoal(rs[i..], ws, m[i..]).pairs :: Inside(u, p)
        invariant CachedGoal(g, u, old(cache), active.keys, FieldGoal(rs, ws, m))
               == CachedGoal(g, u, cache, active.keys, FieldGoal(rs[i..], ws, m[i..]))
      {
        assert rs[i..][0] == rs[i] && rs[i..][1..] == rs[i + 1..];
        assert m[i..][0] == m[i] && m[i..][1..] == m[i + 1..];
        if i !in matched {
          if rs[i].def.None? {
            return false;
          }
        } else {
          var wf := ws[matched[i]];
          assert wf in ws;
          GoalHead(rs[i..], ws, m[i..]);
          var one := Check(g, u, rs[i].typ, wf.typ, active);
          if !one {
            return false;
          }
        }
      }
      ok := true;
    }
  }

  lemma GoalHead(rs: seq<Field>, ws: seq<Field>, m: seq<Option<nat>>)
    requires |m| == |rs| > 0 && Bounded(m, |ws|) && m[0].Some?
    ensures var rest := FieldGoal(rs[1..], ws, m[1..]);
            var goal := FieldGoal(rs, ws, m);
            && goal == All([(rs[0].typ, ws[m[0].value].typ)] + rest.pairs, rest.last)
            && goal.pairs[1..] == rest.pairs
  {
  }
}
