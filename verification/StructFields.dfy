/** Choosing struct fields by name: a breadth-first search against all embedding paths. */
module StructFields {
  import opened Wire
  import opened Finite

  type Text = Bytes

  /** A struct field; `target` is its struct type, seen through one pointer, if it has one. */
  datatype GoField = GoField(name: Text, tag: Text, anonymous: bool, exported: bool, target: Option<nat>)

  /** All struct types, by id. */
  type Types = seq<seq<GoField>>

  datatype Class = Skipped | Embeds(typ: nat) | Leaf(name: Text, tagged: bool)

  predicate WellTyped(types: Types) {
    forall t, i :: 0 <= t < |types| && 0 <= i < |types[t]| && types[t][i].target.Some? ==> types[t][i].target.value < |types|
  }

  // --- the naive rule: every embedding path counts ---

  /** The struct reached by embedded fields at these positions: anonymous ones of struct type that no tag names. */
  function Walk(types: Types, root: nat, w: seq<nat>): (t: Option<nat>)
    requires WellTyped(types) && root < |types|
    ensures t.Some? ==> t.value < |types|
  {
    if w == [] then Some(root)
    else
      match Walk(types, root, w[..|w| - 1])
      case None => None
      case Some(t) =>
        var i := w[|w| - 1];
        if i < |types[t]| && types[t][i].anonymous && types[t][i].tag == [] then types[t][i].target else None
  }

  /**
   * The leaf field at the end of a path, under the name in its tag or else its own, and whether
   * a tag names it. A dash hides a field; an unexported one takes part only as an anonymous struct.
   */
  function Candidate(types: Types, root: nat, c: seq<nat>): (k: Option<Class>)
    requires WellTyped(types) && root < |types|
    ensures k.Some? ==> k.value.Leaf? && c != []
  {
    if c == [] then None
    else
      match Walk(types, root, c[..|c| - 1])
      case None => None
      case Some(t) =>
        var i := c[|c| - 1];
        if i >= |types[t]| then None
        else
          var f := types[t][i];
          var embedded := f.anonymous && f.target.Some?;
          if f.tag == [] && f.exported && !embedded then Some(Leaf(f.name, false))
          else if f.tag != [] && f.tag != [45] && (f.exported || embedded) then Some(Leaf(f.tag, true))
          else None
  }

  /** A path to a field of that name: none is shorter, and none of its length is tagged unless it is. */
  ghost predicate Best(types: Types, root: nat, name: Text, c: seq<nat>)
    requires WellTyped(types) && root < |types|
  {
    && Candidate(types, root, c).Some? && Candidate(types, root, c).value.name == name
    && forall c' | Candidate(types, root, c').Some? && Candidate(types, root, c').value.name == name ::
         |c| <= |c'| && (|c| == |c'| && Candidate(types, root, c').value.tagged ==> Candidate(types, root, c).value.tagged)
  }

  /** The one path a name is bound to, if there is exactly one best. */
  ghost predicate BoundTo(types: Types, root: nat, name: Text, c: seq<nat>)
    requires WellTyped(types) && root < |types|
  {
    Best(types, root, name, c) && forall c' | Best(types, root, name, c') :: c' == c
  }

  // --- the table ---

  datatype StructField = StructField(chain: seq<nat>, tagged: bool, ambiguous: bool)

  type Table = map<Text, StructField>

  function Get(table: Table, name: Text): Option<seq<nat>> {
    if name in table && !table[name].ambiguous then Some(table[name].chain) else None
  }

  /** Shallower wins, then tagged. */
  predicate Better(f: StructField, prior: StructField) {
    |f.chain| < |prior.chain| || (|f.chain| == |prior.chain| && f.tagged && !prior.tagged)
  }

  /** Keeps the better field; equals become ambiguous. */
  function Add(table: Table, name: Text, f: StructField): Table {
    if name !in table || Better(f, table[name]) then table[name := f]
    else if |f.chain| == |table[name].chain| && f.tagged == table[name].tagged then
      table[name := table[name].(ambiguous := true)]
    else table
  }

  /** The entry is a best one among the candidates seen, ambiguous if it has an equal. */
  ghost predicate EntryOk(types: Types, root: nat, seen: iset<seq<nat>>, name: Text, e: StructField)
    requires WellTyped(types) && root < |types|
  {
    && e.chain in seen && Candidate(types, root, e.chain) == Some(Leaf(name, e.tagged))
    && (forall c | c in seen && Candidate(types, root, c).Some? && Candidate(types, root, c).value.name == name ::
          |e.chain| <= |c| && (|e.chain| == |c| && Candidate(types, root, c).value.tagged ==> e.tagged))
    && (e.ambiguous <==>
          exists c | c in seen :: c != e.chain && |c| == |e.chain| && Candidate(types, root, c) == Some(Leaf(name, e.tagged)))
  }

  ghost predicate TableOk(types: Types, root: nat, seen: iset<seq<nat>>, table: Table)
    requires WellTyped(types) && root < |types|
  {
    && (forall name | name in table :: EntryOk(types, root, seen, name, table[name]))
    && (forall c | c in seen :: Candidate(types, root, c).Some? && Candidate(types, root, c).value.name in table)
  }

  /** New candidates of one name and rank: `f` stands for all of them. */
  ghost predicate Batch(types: Types, root: nat, more: iset<seq<nat>>, name: Text, f: StructField)
    requires WellTyped(types) && root < |types|
  {
    && f.chain in more
    && (forall c | c in more :: |c| == |f.chain| && Candidate(types, root, c) == Some(Leaf(name, f.tagged)))
    && (f.ambiguous <==> exists c | c in more :: c != f.chain)
  }

  lemma AddEntry(types: Types, root: nat, seen: iset<seq<nat>>, more: iset<seq<nat>>, table: Table, name: Text, f: StructField)
    requires WellTyped(types) && root < |types| && TableOk(types, root, seen, table)
    requires Batch(types, root, more, name, f) && seen !! more
    ensures EntryOk(types, root, seen + more, name, Add(table, name, f)[name])
  {
    hide Candidate;
    if name in table {
      assert EntryOk(types, root, seen, name, table[name]);
      var prior := table[name];
      if Better(f, prior) {
        assert forall c | c in seen && Candidate(types, root, c) == Some(Leaf(name, f.tagged)) :: |c| != |f.chain|;
      } else if |f.chain| == |prior.chain| && f.tagged == prior.tagged {
        assert f.chain in seen + more && f.chain != prior.chain;
      }
    } else {
      assert forall c | c in seen :: Candidate(types, root, c).value.name != name;
    }
  }

  lemma AddStep(types: Types, root: nat, seen: iset<seq<nat>>, more: iset<seq<nat>>, table: Table, name: Text, f: StructField)
    requires WellTyped(types) && root < |types| && TableOk(types, root, seen, table)
    requires Batch(types, root, more, name, f) && seen !! more
    ensures TableOk(types, root, seen + more, Add(table, name, f))
  {
    hide Candidate;
    AddEntry(types, root, seen, more, table, name, f);
    var table' := Add(table, name, f);
    forall n | n in table'
      ensures EntryOk(types, root, seen + more, n, table'[n])
    {
      if n != name {
        assert table'[n] == table[n];
        assert EntryOk(types, root, seen, n, table[n]);
        assert forall c | c in more :: Candidate(types, root, c).value.name != n;
      }
    }
  }

  // --- depth ---

  ghost predicate Reach(types: Types, root: nat, t: nat, n: nat)
    requires WellTyped(types) && root < |types|
  {
    exists w :: |w| == n && Walk(types, root, w) == Some(t)
  }

  ghost predicate ReachBelow(types: Types, root: nat, t: nat, n: nat)
    requires WellTyped(types) && root < |types|
  {
    exists w :: |w| < n && Walk(types, root, w) == Some(t)
  }

  /** Candidates in structs at their least depth, below a level. */
  ghost function Minimal(types: Types, root: nat, n: nat): iset<seq<nat>>
    requires WellTyped(types) && root < |types|
  {
    iset c: seq<nat> | 0 < |c| <= n && Candidate(types, root, c).Some? && AtLeastDepth(types, root, c[..|c| - 1])
  }

  /** No shorter path leads where this one does. */
  ghost predicate AtLeastDepth(types: Types, root: nat, w: seq<nat>)
    requires WellTyped(types) && root < |types|
  {
    Walk(types, root, w).Some? && !ReachBelow(types, root, Walk(types, root, w).value, |w|)
  }

  // --- one level of the search ---

  /** A struct to scan: how it was first reached, and by how many paths, counted up to two. */
  datatype Scan = Scan(typ: nat, chain: seq<nat>, paths: nat)

  ghost predicate ScanOk(types: Types, root: nat, s: Scan, n: nat)
    requires WellTyped(types) && root < |types|
  {
    && |s.chain| == n && Walk(types, root, s.chain) == Some(s.typ) && !ReachBelow(types, root, s.typ, n)
    && 1 <= s.paths <= 2
    && (s.paths == 1 <==> forall u | |u| == n && Walk(types, root, u) == Some(s.typ) :: u == s.chain)
  }

  /** All ways into a struct at a level, followed by one of its fields. */
  ghost function Extended(types: Types, root: nat, t: nat, n: nat, i: nat): iset<seq<nat>>
    requires WellTyped(types) && root < |types|
  {
    iset w: seq<nat> | |w| == n + 1 && w[n] == i && Walk(types, root, w[..n]) == Some(t)
  }

  lemma ExtendedOnly(types: Types, root: nat, s: Scan, n: nat, i: nat)
    requires WellTyped(types) && root < |types| && ScanOk(types, root, s, n)
    ensures s.chain + [i] in Extended(types, root, s.typ, n, i)
    ensures s.paths > 1 <==> exists u | u in Extended(types, root, s.typ, n, i) :: u != s.chain + [i]
  {
    hide Walk, ReachBelow;
    var c := s.chain + [i];
    assert c[..n] == s.chain;
    if s.paths > 1 {
      var u :| |u| == n && Walk(types, root, u) == Some(s.typ) && u != s.chain;
      assert (u + [i])[..n] == u;
      assert u + [i] in Extended(types, root, s.typ, n, i) && (u + [i])[..n] != c[..n];
    } else {
      forall u | u in Extended(types, root, s.typ, n, i)
        ensures u == c
      {
        assert u == u[..n] + [i];
      }
    }
  }

  /** The steps from structs of this level taken so far: all fields of `done`, some of `t`. */
  ghost function Stepped(types: Types, root: nat, n: nat, done: set<nat>, t: nat, j: nat): iset<seq<nat>>
    requires WellTyped(types) && root < |types|
  {
    iset w: seq<nat> | |w| == n + 1 && Walk(types, root, w[..n]).Some? && Taken(types, done, t, j, Walk(types, root, w[..n]).value, w[n])
  }

  predicate Taken(types: Types, done: set<nat>, t: nat, j: nat, p: nat, i: nat) {
    p < |types| && ((p in done && i < |types[p]|) || (p == t && i < j))
  }

  lemma SteppedNext(types: Types, root: nat, n: nat, done: set<nat>, t: nat, j: nat)
    requires WellTyped(types) && root < |types| && t < |types| && t !in done && j < |types[t]|
    ensures Stepped(types, root, n, done, t, j + 1) == Stepped(types, root, n, done, t, j) + Extended(types, root, t, n, j)
    ensures Stepped(types, root, n, done, t, j) !! Extended(types, root, t, n, j)
  {
  }

  lemma SteppedDone(types: Types, root: nat, n: nat, done: set<nat>, t: nat)
    requires WellTyped(types) && root < |types| && t < |types|
    ensures Stepped(types, root, n, done, t, |types[t]|) == Stepped(types, root, n, done + {t}, 0, 0)
    ensures Stepped(types, root, n, done, t, 0) == Stepped(types, root, n, done, 0, 0)
  {
  }

  /** The candidates known when these steps have been taken. */
  ghost function SeenOf(types: Types, root: nat, n: nat, stepped: iset<seq<nat>>): iset<seq<nat>>
    requires WellTyped(types) && root < |types|
  {
    Minimal(types, root, n) + iset c | c in stepped && Candidate(types, root, c).Some?
  }

  ghost predicate QueuedOk(types: Types, root: nat, stepped: iset<seq<nat>>, s: Scan)
    requires WellTyped(types) && root < |types|
  {
    && s.chain in stepped && Walk(types, root, s.chain) == Some(s.typ) && 1 <= s.paths <= 2
    && (s.paths == 1 <==> forall u | u in stepped && Walk(types, root, u) == Some(s.typ) :: u == s.chain)
  }

  /** The queue of the next level: each struct once, exact for those not met before. */
  ghost predicate QueueOk(types: Types, root: nat, n: nat, stepped: iset<seq<nat>>, next: seq<Scan>, queued: map<nat, nat>)
    requires WellTyped(types) && root < |types|
  {
    && (forall k | k in queued :: queued[k] < |next| && next[queued[k]].typ == k && k < |types|)
    && (forall k :: 0 <= k < |next| ==> next[k].typ in queued && queued[next[k].typ] == k)
    && (forall u | u in stepped && Walk(types, root, u).Some? && !ReachBelow(types, root, Walk(types, root, u).value, n + 1) ::
          Walk(types, root, u).value in queued)
    && (forall k | k in queued && !ReachBelow(types, root, k, n + 1) :: QueuedOk(types, root, stepped, next[queued[k]]))
  }

  /** Steps that lead nowhere new leave the queue exact. */
  lemma QueueKeeps(types: Types, root: nat, n: nat, stepped: iset<seq<nat>>, more: iset<seq<nat>>, next: seq<Scan>, queued: map<nat, nat>)
    requires WellTyped(types) && root < |types| && QueueOk(types, root, n, stepped, next, queued)
    requires forall u | u in more && Walk(types, root, u).Some? :: ReachBelow(types, root, Walk(types, root, u).value, n + 1)
    ensures QueueOk(types, root, n, stepped + more, next, queued)
  {
    hide Walk, ReachBelow;
    forall k | k in queued && !ReachBelow(types, root, k, n + 1)
      ensures QueuedOk(types, root, stepped + more, next[queued[k]])
    {
      assert QueuedOk(types, root, stepped, next[queued[k]]);
    }
  }

  /** New steps into a struct: one more way in, or the first. */
  ghost predicate Entering(types: Types, root: nat, more: iset<seq<nat>>, t: nat, chain: seq<nat>, paths: nat)
    requires WellTyped(types) && root < |types|
  {
    && chain in more && 1 <= paths <= 2
    && (forall u | u in more :: Walk(types, root, u) == Some(t))
    && (paths > 1 <==> exists u | u in more :: u != chain)
  }

  lemma QueueFirst(types: Types, root: nat, n: nat, stepped: iset<seq<nat>>, more: iset<seq<nat>>, next: seq<Scan>,
                   queued: map<nat, nat>, t: nat, chain: seq<nat>, paths: nat)
    requires WellTyped(types) && root < |types| && t < |types| && QueueOk(types, root, n, stepped, next, queued)
    requires Entering(types, root, more, t, chain, paths) && t !in queued
    ensures QueueOk(types, root, n, stepped + more, next + [Scan(t, chain, paths)], queued[t := |next|])
  {
    hide Walk, ReachBelow;
    var next', queued' := next + [Scan(t, chain, paths)], queued[t := |next|];
    forall k | k in queued' && !ReachBelow(types, root, k, n + 1)
      ensures QueuedOk(types, root, stepped + more, next'[queued'[k]])
    {
      if k != t {
        assert QueuedOk(types, root, stepped, next[queued[k]]);
      } else {
        assert forall u | u in stepped :: Walk(types, root, u) != Some(t);
      }
    }
  }

  lemma QueueAgain(types: Types, root: nat, n: nat, stepped: iset<seq<nat>>, more: iset<seq<nat>>, next: seq<Scan>,
                   queued: map<nat, nat>, t: nat, chain: seq<nat>, paths: nat)
    requires WellTyped(types) && root < |types| && t < |types| && QueueOk(types, root, n, stepped, next, queued)
    requires Entering(types, root, more, t, chain, paths) && t in queued && stepped !! more
    ensures var s := next[queued[t]];
            QueueOk(types, root, n, stepped + more, next[queued[t] := s.(paths := if s.paths + paths < 2 then s.paths + paths else 2)], queued)
  {
    hide Walk, ReachBelow;
    var s := next[queued[t]];
    var next' := next[queued[t] := s.(paths := if s.paths + paths < 2 then s.paths + paths else 2)];
    forall k | k in queued && !ReachBelow(types, root, k, n + 1)
      ensures QueuedOk(types, root, stepped + more, next'[queued[k]])
    {
      assert QueuedOk(types, root, stepped, next[queued[k]]);
      if k == t {
        assert chain in stepped + more && chain != s.chain;
      }
    }
  }

  // --- what one field adds ---

  const DASH: Text := [45]

  /** How the search takes one field, its tests in the order of the source. */
  function Classify(f: GoField): Class {
    if !f.exported && (!f.anonymous || f.target.None?) then Skipped
    else if f.tag == DASH then Skipped
    else if f.anonymous && f.target.Some? && f.tag == [] then Embeds(f.target.value)
    else if f.tag == [] then Leaf(f.name, false)
    else Leaf(f.tag, true)
  }

  lemma FieldEnds(types: Types, root: nat, t: nat, n: nat, i: nat, u: seq<nat>)
    requires WellTyped(types) && root < |types| && t < |types| && i < |types[t]| && u in Extended(types, root, t, n, i)
    ensures Walk(types, root, u) == (match Classify(types[t][i]) case Embeds(k) => Some(k) case _ => None)
    ensures Candidate(types, root, u) == (if Classify(types[t][i]).Leaf? then Some(Classify(types[t][i])) else None)
  {
    assert u[..|u| - 1] == u[..n] && u[|u| - 1] == i;
  }

  lemma LeafStep(types: Types, root: nat, s: Scan, n: nat, i: nat, stepped: iset<seq<nat>>, table: Table)
    requires WellTyped(types) && root < |types| && s.typ < |types| && i < |types[s.typ]| && ScanOk(types, root, s, n)
    requires Classify(types[s.typ][i]).Leaf? && stepped !! Extended(types, root, s.typ, n, i)
    requires TableOk(types, root, SeenOf(types, root, n, stepped), table)
    ensures var leaf := Classify(types[s.typ][i]);
            TableOk(types, root, SeenOf(types, root, n, stepped + Extended(types, root, s.typ, n, i)),
                    Add(table, leaf.name, StructField(s.chain + [i], leaf.tagged, s.paths > 1)))
  {
    var more := Extended(types, root, s.typ, n, i);
    var leaf := Classify(types[s.typ][i]);
    ExtendedOnly(types, root, s, n, i);
    forall u | u in more
      ensures Candidate(types, root, u) == Some(leaf)
    {
      FieldEnds(types, root, s.typ, n, i, u);
    }
    SeenMore(types, root, n, stepped, more);
    BatchOf(types, root, more, n, leaf.name, StructField(s.chain + [i], leaf.tagged, s.paths > 1));
    AddStep(types, root, SeenOf(types, root, n, stepped), more, table, leaf.name,
            StructField(s.chain + [i], leaf.tagged, s.paths > 1));
  }

  lemma BatchOf(types: Types, root: nat, more: iset<seq<nat>>, n: nat, name: Text, f: StructField)
    requires WellTyped(types) && root < |types| && f.chain in more && |f.chain| == n + 1
    requires forall u | u in more :: |u| == n + 1 && Candidate(types, root, u) == Some(Leaf(name, f.tagged))
    requires f.ambiguous <==> exists u | u in more :: u != f.chain
    ensures Batch(types, root, more, name, f)
  {
  }

  lemma SeenMore(types: Types, root: nat, n: nat, stepped: iset<seq<nat>>, more: iset<seq<nat>>)
    requires WellTyped(types) && root < |types| && stepped !! more
    requires forall u | u in more :: |u| == n + 1 && Candidate(types, root, u).Some?
    ensures SeenOf(types, root, n, stepped + more) == SeenOf(types, root, n, stepped) + more
    ensures SeenOf(types, root, n, stepped) !! more
  {
    hide Candidate, AtLeastDepth;
  }

  lemma SeenSame(types: Types, root: nat, n: nat, stepped: iset<seq<nat>>, t: nat, i: nat)
    requires WellTyped(types) && root < |types| && t < |types| && i < |types[t]| && !Classify(types[t][i]).Leaf?
    ensures SeenOf(types, root, n, stepped + Extended(types, root, t, n, i)) == SeenOf(types, root, n, stepped)
  {
    hide Minimal;
    forall u | u in Extended(types, root, t, n, i)
      ensures Candidate(types, root, u).None?
    {
      FieldEnds(types, root, t, n, i, u);
    }
  }

  lemma EmbedStep(types: Types, root: nat, s: Scan, n: nat, i: nat)
    requires WellTyped(types) && root < |types| && s.typ < |types| && i < |types[s.typ]| && ScanOk(types, root, s, n)
    requires Classify(types[s.typ][i]).Embeds?
    ensures Entering(types, root, Extended(types, root, s.typ, n, i), Classify(types[s.typ][i]).typ, s.chain + [i], s.paths)
  {
    hide Walk;
    ExtendedOnly(types, root, s, n, i);
    forall u | u in Extended(types, root, s.typ, n, i)
      ensures Walk(types, root, u) == Some(Classify(types[s.typ][i]).typ)
    {
      FieldEnds(types, root, s.typ, n, i, u);
    }
  }

  lemma NowhereNew(types: Types, root: nat, n: nat, t: nat, i: nat)
    requires WellTyped(types) && root < |types| && t < |types| && i < |types[t]|
    requires Classify(types[t][i]).Embeds? ==> ReachBelow(types, root, Classify(types[t][i]).typ, n + 1)
    ensures forall u | u in Extended(types, root, t, n, i) && Walk(types, root, u).Some? ::
              ReachBelow(types, root, Walk(types, root, u).value, n + 1)
  {
    hide Walk, ReachBelow;
    forall u | u in Extended(types, root, t, n, i) && Walk(types, root, u).Some?
      ensures ReachBelow(types, root, Walk(types, root, u).value, n + 1)
    {
      FieldEnds(types, root, t, n, i, u);
    }
  }

  // --- the search ---

  /** The field table and the next level's queue, exact for the steps taken. */
  ghost predicate Exact(types: Types, root: nat, n: nat, stepped: iset<seq<nat>>, table: Table, next: seq<Scan>, queued: map<nat, nat>)
    requires WellTyped(types) && root < |types|
  {
    && TableOk(types, root, SeenOf(types, root, n, stepped), table)
    && QueueOk(types, root, n, stepped, next, queued)
  }

  /** One field of a struct: skipped, queued for the next level, or entered in the table. */
  method ScanField(types: Types, ghost root: nat, s: Scan, i: nat, visited: set<nat>, table: Table, next: seq<Scan>,
                   queued: map<nat, nat>, ghost n: nat, ghost stepped: iset<seq<nat>>)
    returns (table': Table, next': seq<Scan>, queued': map<nat, nat>)
    requires WellTyped(types) && root < |types| && s.typ < |types| && i < |types[s.typ]| && ScanOk(types, root, s, n)
    requires forall v | v in visited :: ReachBelow(types, root, v, n + 1)
    requires Exact(types, root, n, stepped, table, next, queued) && stepped !! Extended(types, root, s.typ, n, i)
    ensures Exact(types, root, n, stepped + Extended(types, root, s.typ, n, i), table', next', queued')
  {
    hide Walk, Candidate, ReachBelow, TableOk, SeenOf, ScanOk, Extended, QueueOk, Entering;
    table', next', queued' := table, next, queued;
    ghost var more := Extended(types, root, s.typ, n, i);
    match Classify(types[s.typ][i])
    case Skipped =>
      SeenSame(types, root, n, stepped, s.typ, i);
      NowhereNew(types, root, n, s.typ, i);
      QueueKeeps(types, root, n, stepped, more, next, queued);
    case Embeds(t) =>
      SeenSame(types, root, n, stepped, s.typ, i);
      if t in visited {
        NowhereNew(types, root, n, s.typ, i);
        QueueKeeps(types, root, n, stepped, more, next, queued);
        return;
      }
      EmbedStep(types, root, s, n, i);
      if t in queued {
        QueueAgain(types, root, n, stepped, more, next, queued, t, s.chain + [i], s.paths);
        QueueIndex(types, root, n, stepped, next, queued, t);
        var entry := next[queued[t]];
        next' := next[queued[t] := entry.(paths := if entry.paths + s.paths < 2 then entry.paths + s.paths else 2)];
      } else {
        QueueFirst(types, root, n, stepped, more, next, queued, t, s.chain + [i], s.paths);
        queued' := queued[t := |next|];
        next' := next + [Scan(t, s.chain + [i], s.paths)];
      }
    case Leaf(name, tagged) =>
      LeafStep(types, root, s, n, i, stepped, table);
      NowhereNew(types, root, n, s.typ, i);
      QueueKeeps(types, root, n, stepped, more, next, queued);
      table' := Add(table, name, StructField(s.chain + [i], tagged, s.paths > 1));
  }

  lemma QueueIndex(types: Types, root: nat, n: nat, stepped: iset<seq<nat>>, next: seq<Scan>, queued: map<nat, nat>, t: nat)
    requires WellTyped(types) && root < |types| && QueueOk(types, root, n, stepped, next, queued) && t in queued
    ensures queued[t] < |next|
  {
  }

  method ScanType(types: Types, ghost root: nat, s: Scan, visited: set<nat>, table: Table, next: seq<Scan>,
                  queued: map<nat, nat>, ghost n: nat, ghost done: set<nat>)
    returns (table': Table, next': seq<Scan>, queued': map<nat, nat>)
    requires WellTyped(types) && root < |types| && s.typ < |types| && ScanOk(types, root, s, n) && s.typ !in done
    requires forall v | v in visited :: ReachBelow(types, root, v, n + 1)
    requires Exact(types, root, n, Stepped(types, root, n, done, 0, 0), table, next, queued)
    ensures Exact(types, root, n, Stepped(types, root, n, done + {s.typ}, 0, 0), table', next', queued')
  {
    hide Exact, Stepped, ScanOk, ReachBelow, Extended;
    table', next', queued' := table, next, queued;
    SteppedDone(types, root, n, done, s.typ);
    for i := 0 to |types[s.typ]|
      invariant Exact(types, root, n, Stepped(types, root, n, done, s.typ, i), table', next', queued')
    {
      SteppedNext(types, root, n, done, s.typ, i);
      table', next', queued' :=
        ScanField(types, root, s, i, visited, table', next', queued', n, Stepped(types, root, n, done, s.typ, i));
    }
  }

  // --- levels ---

  /** Before level `n`: the structs met earlier, and exactly those first met now among the queue. */
  ghost predicate LevelOk(types: Types, root: nat, n: nat, next: seq<Scan>, visited: set<nat>)
    requires WellTyped(types) && root < |types|
  {
    && (forall t: nat :: t in visited <==> ReachBelow(types, root, t, n))
    && (forall k :: 0 <= k < |next| ==> next[k].typ < |types| && (next[k].typ !in visited ==> ScanOk(types, root, next[k], n)))
    && (forall i, j :: 0 <= i < j < |next| ==> next[i].typ != next[j].typ)
    && (forall t: nat | Reach(types, root, t, n) && t !in visited :: Queued(next, t))
  }

  ghost predicate Queued(next: seq<Scan>, t: nat) {
    exists k :: 0 <= k < |next| && next[k].typ == t
  }

  /** The structs of the first entries that were new at this level. */
  ghost predicate DoneOf(curr: seq<Scan>, i: nat, before: set<nat>, done: set<nat>)
    requires i <= |curr|
  {
    forall t :: t in done <==> t !in before && exists k :: 0 <= k < i && curr[k].typ == t
  }

  method ScanLevel(types: Types, ghost root: nat, curr: seq<Scan>, before: set<nat>, table: Table, ghost n: nat)
    returns (visited: set<nat>, table': Table, next: seq<Scan>)
    requires WellTyped(types) && root < |types| && LevelOk(types, root, n, curr, before)
    requires TableOk(types, root, Minimal(types, root, n), table)
    ensures LevelOk(types, root, n + 1, next, visited)
    ensures TableOk(types, root, Minimal(types, root, n + 1), table')
    ensures before <= visited && (visited == before ==> next == [])
  {
    hide TableOk, Minimal, ReachBelow, ScanOk, Exact, Stepped, Walk;
    visited, table', next := before, table, [];
    var queued: map<nat, nat> := map[];
    ghost var done: set<nat> := {};
    NothingStepped(types, root, n, table);
    MetBelow(types, root, n, curr, before);
    for i := 0 to |curr|
      invariant visited == before + done && DoneOf(curr, i, before, done)
      invariant forall v | v in visited :: ReachBelow(types, root, v, n + 1)
      invariant Exact(types, root, n, Stepped(types, root, n, done, 0, 0), table', next, queued)
      invariant done == {} ==> next == []
    {
      var s := curr[i];
      if s.typ !in visited {
        visited := visited + {s.typ};
        ReachedNow(types, root, s, n);
        table', next, queued := ScanType(types, root, s, visited, table', next, queued, n, done);
        done := done + {s.typ};
      }
    }
    EndLevel(types, root, n, curr, before, done, table', next, queued);
  }

  lemma ReachGrows(types: Types, root: nat, t: nat, n: nat)
    requires WellTyped(types) && root < |types|
    ensures ReachBelow(types, root, t, n + 1) <==> ReachBelow(types, root, t, n) || Reach(types, root, t, n)
  {
  }

  lemma MetBelow(types: Types, root: nat, n: nat, curr: seq<Scan>, before: set<nat>)
    requires WellTyped(types) && root < |types| && LevelOk(types, root, n, curr, before)
    ensures forall v | v in before :: ReachBelow(types, root, v, n + 1)
  {
    hide Walk;
    forall v | v in before
      ensures ReachBelow(types, root, v, n + 1)
    {
      ReachGrows(types, root, v, n);
    }
  }

  lemma ReachedNow(types: Types, root: nat, s: Scan, n: nat)
    requires WellTyped(types) && root < |types| && ScanOk(types, root, s, n)
    ensures ReachBelow(types, root, s.typ, n + 1)
  {
  }

  lemma NothingStepped(types: Types, root: nat, n: nat, table: Table)
    requires WellTyped(types) && root < |types| && TableOk(types, root, Minimal(types, root, n), table)
    ensures Exact(types, root, n, Stepped(types, root, n, {}, 0, 0), table, [], map[])
  {
    hide TableOk, Minimal;
    var stepped := Stepped(types, root, n, {}, 0, 0);
    assert stepped == iset{};
    assert SeenOf(types, root, n, stepped) == Minimal(types, root, n);
  }

  /** All structs first met at this level have been scanned. */
  ghost predicate AllDone(types: Types, root: nat, n: nat, done: set<nat>)
    requires WellTyped(types) && root < |types|
  {
    forall t: nat :: t in done <==> Reach(types, root, t, n) && !ReachBelow(types, root, t, n)
  }

  lemma LevelDone(types: Types, root: nat, n: nat, curr: seq<Scan>, before: set<nat>, done: set<nat>)
    requires WellTyped(types) && root < |types| && LevelOk(types, root, n, curr, before)
    requires DoneOf(curr, |curr|, before, done)
    ensures AllDone(types, root, n, done)
  {
    hide Walk, ReachBelow;
    forall t: nat
      ensures t in done <==> Reach(types, root, t, n) && !ReachBelow(types, root, t, n)
    {
      assert Reach(types, root, t, n) && t !in before ==> Queued(curr, t);
      if t in done {
        var k :| 0 <= k < |curr| && curr[k].typ == t;
        assert ScanOk(types, root, curr[k], n);
      }
    }
  }

  lemma SeenAll(types: Types, root: nat, n: nat, done: set<nat>)
    requires WellTyped(types) && root < |types| && AllDone(types, root, n, done)
    ensures SeenOf(types, root, n, Stepped(types, root, n, done, 0, 0)) == Minimal(types, root, n + 1)
  {
    hide ReachBelow;
    var seen := SeenOf(types, root, n, Stepped(types, root, n, done, 0, 0));
    forall c: seq<nat>
      ensures c in seen <==> c in Minimal(types, root, n + 1)
    {
      if |c| == n + 1 {
        assert c[..|c| - 1] == c[..n] && c[|c| - 1] == c[n];
        if Walk(types, root, c[..n]).Some? {
          assert Reach(types, root, Walk(types, root, c[..n]).value, n);
        }
      }
    }
  }

  lemma SteppedWalks(types: Types, root: nat, n: nat, done: set<nat>, u: seq<nat>)
    requires WellTyped(types) && root < |types| && AllDone(types, root, n, done)
    requires |u| == n + 1 && Walk(types, root, u).Some? && !ReachBelow(types, root, Walk(types, root, u).value, n + 1)
    ensures u in Stepped(types, root, n, done, 0, 0)
  {
    assert u[..|u| - 1] == u[..n] && u[|u| - 1] == u[n];
    var p := Walk(types, root, u[..n]).value;
    assert Reach(types, root, p, n);
    if ReachBelow(types, root, p, n) {
      var w :| |w| < n && Walk(types, root, w) == Some(p);
      var w' := w + [u[n]];
      assert w'[..|w'| - 1] == w;
      assert Walk(types, root, w') == Walk(types, root, u);
      assert false;
    }
  }

  lemma EndLevel(types: Types, root: nat, n: nat, curr: seq<Scan>, before: set<nat>, done: set<nat>,
                 table: Table, next: seq<Scan>, queued: map<nat, nat>)
    requires WellTyped(types) && root < |types| && LevelOk(types, root, n, curr, before)
    requires DoneOf(curr, |curr|, before, done)
    requires Exact(types, root, n, Stepped(types, root, n, done, 0, 0), table, next, queued)
    ensures LevelOk(types, root, n + 1, next, before + done)
    ensures TableOk(types, root, Minimal(types, root, n + 1), table)
  {
    hide TableOk, Minimal, Walk, ReachBelow, Reach, Stepped;
    LevelDone(types, root, n, curr, before, done);
    SeenAll(types, root, n, done);
    forall t: nat
      ensures t in before + done <==> ReachBelow(types, root, t, n + 1)
    {
      ReachGrows(types, root, t, n);
    }
    forall k | 0 <= k < |next|
      ensures next[k].typ < |types| && (next[k].typ !in before + done ==> ScanOk(types, root, next[k], n + 1))
    {
      if !ReachBelow(types, root, next[k].typ, n + 1) {
        NextScanOk(types, root, n, done, next, queued, k);
      }
    }
    forall t: nat | Reach(types, root, t, n + 1) && t !in before + done
      ensures Queued(next, t)
    {
      NextQueued(types, root, n, done, next, queued, t);
    }
  }

  lemma NextScanOk(types: Types, root: nat, n: nat, done: set<nat>, next: seq<Scan>, queued: map<nat, nat>, k: nat)
    requires WellTyped(types) && root < |types| && AllDone(types, root, n, done)
    requires QueueOk(types, root, n, Stepped(types, root, n, done, 0, 0), next, queued)
    requires k < |next| && !ReachBelow(types, root, next[k].typ, n + 1)
    ensures ScanOk(types, root, next[k], n + 1)
  {
    hide Walk, ReachBelow, AllDone;
    var stepped := Stepped(types, root, n, done, 0, 0);
    var s := next[k];
    assert QueuedOk(types, root, stepped, next[queued[s.typ]]);
    forall u | |u| == n + 1 && Walk(types, root, u) == Some(s.typ)
      ensures u in stepped
    {
      SteppedWalks(types, root, n, done, u);
    }
  }

  lemma NextQueued(types: Types, root: nat, n: nat, done: set<nat>, next: seq<Scan>, queued: map<nat, nat>, t: nat)
    requires WellTyped(types) && root < |types| && AllDone(types, root, n, done)
    requires QueueOk(types, root, n, Stepped(types, root, n, done, 0, 0), next, queued)
    requires Reach(types, root, t, n + 1) && !ReachBelow(types, root, t, n + 1)
    ensures Queued(next, t)
  {
    hide Walk, ReachBelow, AllDone;
    var u :| |u| == n + 1 && Walk(types, root, u) == Some(t);
    SteppedWalks(types, root, n, done, u);
    assert t in queued && next[queued[t]].typ == t;
  }

  // --- nothing is missed ---

  /** Equal ends can be swapped under a continuation. */
  lemma {:induction false} WalkSwap(types: Types, root: nat, a: seq<nat>, b: seq<nat>, rest: seq<nat>)
    requires WellTyped(types) && root < |types| && Walk(types, root, a) == Walk(types, root, b)
    ensures Walk(types, root, a + rest) == Walk(types, root, b + rest)
    decreases |rest|
  {
    if rest == [] {
      assert a + rest == a && b + rest == b;
    } else {
      var init, last := rest[..|rest| - 1], rest[|rest| - 1];
      WalkSwap(types, root, a, b, init);
      assert (a + rest)[..|a + rest| - 1] == a + init && (b + rest)[..|b + rest| - 1] == b + init;
    }
  }

  lemma {:induction false} WalkPrefix(types: Types, root: nat, w: seq<nat>, k: nat)
    requires WellTyped(types) && root < |types| && Walk(types, root, w).Some? && k <= |w|
    ensures Walk(types, root, w[..k]).Some?
    decreases |w|
  {
    if k < |w| {
      WalkPrefix(types, root, w[..|w| - 1], k);
      assert w[..|w| - 1][..k] == w[..k];
    } else {
      assert w[..k] == w;
    }
  }

  lemma LevelMet(types: Types, root: nat, n: nat, visited: set<nat>, t: nat)
    requires WellTyped(types) && root < |types| && LevelOk(types, root, n, [], visited) && Reach(types, root, t, n)
    ensures ReachBelow(types, root, t, n)
  {
    hide Reach;
    assert t in visited;
  }

  /** When a level finds nothing new, every struct has been met before it. */
  lemma {:induction false} AllMet(types: Types, root: nat, n: nat, visited: set<nat>, w: seq<nat>)
    requires WellTyped(types) && root < |types| && LevelOk(types, root, n, [], visited) && Walk(types, root, w).Some?
    ensures ReachBelow(types, root, Walk(types, root, w).value, n)
    decreases |w|
  {
    if |w| >= n {
      hide LevelOk, Walk;
      WalkPrefix(types, root, w, n);
      var t := Walk(types, root, w[..n]).value;
      assert Reach(types, root, t, n);
      LevelMet(types, root, n, visited, t);
      var u :| |u| < n && Walk(types, root, u) == Some(t);
      WalkSwap(types, root, u, w[..n], w[n..]);
      assert w == w[..n] + w[n..];
      AllMet(types, root, n, visited, u + w[n..]);
    }
  }

  /** Every candidate has a counterpart at its struct's least depth, not deeper. */
  lemma {:induction false} Minimize(types: Types, root: nat, n: nat, visited: set<nat>, c: seq<nat>) returns (m: seq<nat>)
    requires WellTyped(types) && root < |types| && LevelOk(types, root, n, [], visited)
    requires Candidate(types, root, c).Some?
    ensures m in Minimal(types, root, n) && Candidate(types, root, m) == Candidate(types, root, c)
    ensures m == c || |m| < |c|
    decreases |c|
  {
    hide LevelOk, Walk, Candidate, Minimal, ReachBelow;
    CandidateEnd(types, root, c);
    var w := c[..|c| - 1];
    var t := Walk(types, root, w).value;
    if ReachBelow(types, root, t, |w|) {
      var u := ShorterWalk(types, root, t, |w|);
      SameEnd(types, root, c, u);
      m := Minimize(types, root, n, visited, u + [c[|c| - 1]]);
    } else {
      AllMet(types, root, n, visited, w);
      LeastAbove(types, root, w, t, n);
      IsMinimal(types, root, c, n);
      m := c;
    }
  }

  lemma CandidateEnd(types: Types, root: nat, c: seq<nat>)
    requires WellTyped(types) && root < |types| && Candidate(types, root, c).Some?
    ensures c != [] && Walk(types, root, c[..|c| - 1]).Some?
  {
  }

  lemma ShorterWalk(types: Types, root: nat, t: nat, n: nat) returns (u: seq<nat>)
    requires WellTyped(types) && root < |types| && ReachBelow(types, root, t, n)
    ensures |u| < n && Walk(types, root, u) == Some(t)
  {
    u :| |u| < n && Walk(types, root, u) == Some(t);
  }

  lemma SameEnd(types: Types, root: nat, c: seq<nat>, u: seq<nat>)
    requires WellTyped(types) && root < |types| && c != [] && Walk(types, root, u) == Walk(types, root, c[..|c| - 1])
    ensures Candidate(types, root, u + [c[|c| - 1]]) == Candidate(types, root, c)
  {
    assert (u + [c[|c| - 1]])[..|u|] == u;
  }

  lemma IsMinimal(types: Types, root: nat, c: seq<nat>, n: nat)
    requires WellTyped(types) && root < |types| && Candidate(types, root, c).Some? && 0 < |c| <= n
    requires Walk(types, root, c[..|c| - 1]).Some?
    requires !ReachBelow(types, root, Walk(types, root, c[..|c| - 1]).value, |c| - 1)
    ensures c in Minimal(types, root, n)
  {
  }

  lemma LeastAbove(types: Types, root: nat, w: seq<nat>, t: nat, n: nat)
    requires WellTyped(types) && root < |types|
    requires ReachBelow(types, root, t, n) && !ReachBelow(types, root, t, |w|)
    ensures |w| < n
  {
  }

  /** The finished table binds a name exactly as the naive rule does. */
  lemma TableBinds(types: Types, root: nat, n: nat, visited: set<nat>, table: Table, name: Text, c: seq<nat>)
    requires WellTyped(types) && root < |types| && LevelOk(types, root, n, [], visited)
    requires TableOk(types, root, Minimal(types, root, n), table)
    ensures Get(table, name) == Some(c) <==> BoundTo(types, root, name, c)
  {
    hide Minimal, LevelOk, Walk, Candidate;
    if name in table {
      EntryBest(types, root, n, visited, table, name);
      var e := table[name];
      assert EntryOk(types, root, Minimal(types, root, n), name, e);
      if e.ambiguous {
        var c' :| c' in Minimal(types, root, n) && c' != e.chain && |c'| == |e.chain| && Candidate(types, root, c') == Some(Leaf(name, e.tagged));
        EqualBest(types, root, name, e.chain, c');
      } else {
        forall c' | Best(types, root, name, c')
          ensures c' == e.chain
        {
          BestIsMinimal(types, root, n, visited, name, c');
          assert c' in Minimal(types, root, n);
        }
      }
    } else if Best(types, root, name, c) {
      BestIsMinimal(types, root, n, visited, name, c);
    }
  }

  lemma EqualBest(types: Types, root: nat, name: Text, c: seq<nat>, c': seq<nat>)
    requires WellTyped(types) && root < |types| && Best(types, root, name, c)
    requires |c'| == |c| && Candidate(types, root, c') == Candidate(types, root, c)
    ensures Best(types, root, name, c')
  {
    hide Candidate;
  }

  lemma BestIsMinimal(types: Types, root: nat, n: nat, visited: set<nat>, name: Text, c: seq<nat>)
    requires WellTyped(types) && root < |types| && LevelOk(types, root, n, [], visited) && Best(types, root, name, c)
    ensures c in Minimal(types, root, n)
  {
    hide Minimal, LevelOk, Candidate;
    var m := Minimize(types, root, n, visited, c);
  }

  lemma EntryBest(types: Types, root: nat, n: nat, visited: set<nat>, table: Table, name: Text)
    requires WellTyped(types) && root < |types| && LevelOk(types, root, n, [], visited)
    requires TableOk(types, root, Minimal(types, root, n), table) && name in table
    ensures Best(types, root, name, table[name].chain)
  {
    hide Minimal, LevelOk, Candidate;
    var e := table[name];
    assert EntryOk(types, root, Minimal(types, root, n), name, e);
    forall c' | Candidate(types, root, c').Some? && Candidate(types, root, c').value.name == name
      ensures |e.chain| <= |c'| && (|e.chain| == |c'| && Candidate(types, root, c').value.tagged ==> e.tagged)
    {
      var m := Minimize(types, root, n, visited, c');
    }
  }

  /**
   * The search terminates on cyclic type graphs, and its table binds every name to the one
   * best embedding path, or to nothing when no path or several equal ones remain.
   */
  method DescribeStruct(types: Types, root: nat) returns (table: Table)
    requires WellTyped(types) && root < |types|
    ensures forall name, c :: Get(table, name) == Some(c) <==> BoundTo(types, root, name, c)
  {
    hide LevelOk, TableOk, Minimal, BoundTo, Walk, Candidate;
    table := map[];
    var next := [Scan(root, [], 1)];
    var visited: set<nat> := {};
    ghost var n := 0;
    FirstLevel(types, root);
    while next != []
      invariant LevelOk(types, root, n, next, visited) && TableOk(types, root, Minimal(types, root, n), table)
      decreases Unmet(types, visited), |next|
    {
      ghost var before := visited;
      visited, table, next := ScanLevel(types, root, next, visited, table, n);
      n := n + 1;
      MetGrows(types, root, n, next, before, visited);
    }
    forall name, c
      ensures Get(table, name) == Some(c) <==> BoundTo(types, root, name, c)
    {
      TableBinds(types, root, n, visited, table, name, c);
    }
  }

  function Unmet(types: Types, visited: set<nat>): nat {
    Left(|types|, visited)
  }

  lemma MetGrows(types: Types, root: nat, n: nat, next: seq<Scan>, before: set<nat>, visited: set<nat>)
    requires WellTyped(types) && root < |types| && before <= visited && LevelOk(types, root, n, next, visited)
    ensures visited != before ==> Unmet(types, visited) < Unmet(types, before)
  {
    if visited != before {
      var t :| t in visited && t !in before;
      assert ReachBelow(types, root, t, n);
      LeftShrinks(|types|, before, visited);
    }
  }

  lemma FirstLevel(types: Types, root: nat)
    requires WellTyped(types) && root < |types|
    ensures LevelOk(types, root, 0, [Scan(root, [], 1)], {})
    ensures TableOk(types, root, Minimal(types, root, 0), map[])
  {
    var s := Scan(root, [], 1);
    assert ScanOk(types, root, s, 0);
    forall t: nat | Reach(types, root, t, 0)
      ensures Queued([s], t)
    {
      var w: seq<nat> :| |w| == 0 && Walk(types, root, w) == Some(t);
      assert [s][0].typ == t;
    }
    assert Minimal(types, root, 0) == iset{};
  }
}
