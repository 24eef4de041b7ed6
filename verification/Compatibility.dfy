/** Reader/writer compatibility: the one-step rules, their greatest fixpoint, the recursion. */
module Compatibility {
  import opened Wire
  import opened Schemas
  import opened Values
  import opened Fingerprints

  type Pair = (Schema, Schema)

  /** What remains to be shown: all pairs in order, then a verdict; or one of the pairs. */
  datatype Goal = All(pairs: seq<Pair>, last: bool) | Any(pairs: seq<Pair>)

  const YES: Goal := All([], true)
  const NO: Goal := All([], false)

  // --- matching record fields by name ---

  datatype Label = Label(name: Text, aliases: seq<Text>)

  function Labels(fields: seq<Field>): (r: seq<Label>)
    ensures |r| == |fields|
    ensures forall i :: 0 <= i < |r| ==> r[i] == Label(fields[i].name, fields[i].aliases)
  {
    seq(|fields|, i requires 0 <= i < |fields| => Label(fields[i].name, fields[i].aliases))
  }

  /** The field of that name; a later one would hide an earlier one. */
  function Lookup(writers: seq<Label>, name: Text): (r: Option<nat>)
    ensures r.Some? ==> r.value < |writers| && writers[r.value].name == name
    ensures r.None? ==> forall i :: 0 <= i < |writers| ==> writers[i].name != name
  {
    if writers == [] then None
    else if writers[|writers| - 1].name == name then Some(|writers| - 1)
    else Lookup(writers[..|writers| - 1], name)
  }

  /** Outcome of matching one reader field: ambiguous, or a writer index if any. */
  datatype Found = Ambiguous | Found(index: Option<nat>)

  function MatchAliases(writers: seq<Label>, aliases: seq<Text>, found: Option<nat>): Found
    decreases |aliases|
  {
    if aliases == [] then Found(found)
    else
      match Lookup(writers, aliases[0])
      case None => MatchAliases(writers, aliases[1..], found)
      case Some(i) => if found.Some? then Ambiguous else MatchAliases(writers, aliases[1..], Some(i))
  }

  function MatchField(writers: seq<Label>, f: Label): Found {
    MatchAliases(writers, f.aliases, Lookup(writers, f.name))
  }

  /** For each reader field its writer field, or nothing if some match is ambiguous. */
  function MatchFields(readers: seq<Label>, writers: seq<Label>, used: set<nat>): (r: Option<seq<Option<nat>>>)
    ensures r.Some? ==> |r.value| == |readers|
    decreases |readers|
  {
    if readers == [] then Some([])
    else
      match MatchField(writers, readers[0])
      case Ambiguous => None
      case Found(index) =>
        if index.Some? && index.value in used then None
        else
          var used' := if index.Some? then used + {index.value} else used;
          match MatchFields(readers[1..], writers, used')
          case None => None
          case Some(rest) => Some([index] + rest)
  }

  // --- one step ---

  datatype Type = TNull | TPrimitive(kind: Kind) | TArray | TMap | TUnion | TRecord | TEnum | TFixed

  function Deref(s: Schema): Schema {
    if s.Ref? then Named(s.id) else s
  }

  function TypeOf(g: Graph, s: Schema): Type
    requires Declared(s, |g|)
  {
    match s
    case Null => TNull
    case Primitive(kind, _, _) => TPrimitive(kind)
    case Array(_) => TArray
    case Map(_) => TMap
    case Union(_, _) => TUnion
    case Named(id) => TypeOfDef(g[id])
    case Ref(id) => TypeOfDef(g[id])
  }

  function TypeOfDef(d: Def): Type {
    match d
    case Record(_, _) => TRecord
    case Enum(_, _, _, _) => TEnum
    case Fixed(_, _, _) => TFixed
  }

  function DecimalOf(g: Graph, s: Schema): Option<Logical>
    requires Declared(s, |g|)
  {
    match s
    case Primitive(kind, logical, _) => PrimitiveDecimal(kind, logical)
    case Named(id) => if g[id].Fixed? then FixedDecimal(g[id].size, g[id].logical) else None
    case Ref(id) => if g[id].Fixed? then FixedDecimal(g[id].size, g[id].logical) else None
    case _ => None
  }

  predicate DecimalsAgree(g: Graph, r: Schema, w: Schema)
    requires Declared(r, |g|) && Declared(w, |g|)
  {
    var dr, dw := DecimalOf(g, r), DecimalOf(g, w);
    dr.Some? && dw.Some? ==> dr == dw
  }

  predicate NamesMatch(r: Name, w: Name) {
    r.Local() == w.Local() || w.full in r.aliases
  }

  predicate SymbolsCovered(r: Def, w: Def)
    requires r.Enum? && w.Enum?
  {
    forall s | s in w.symbols :: s in r.symbols
  }

  function WithReader(r: Schema, ws: seq<Schema>): (ps: seq<Pair>)
    ensures |ps| == |ws| && forall i :: 0 <= i < |ps| ==> ps[i] == (r, ws[i])
  {
    seq(|ws|, i requires 0 <= i < |ws| => (r, ws[i]))
  }

  function WithWriter(rs: seq<Schema>, w: Schema): (ps: seq<Pair>)
    ensures |ps| == |rs| && forall i :: 0 <= i < |ps| ==> ps[i] == (rs[i], w)
  {
    seq(|rs|, i requires 0 <= i < |rs| => (rs[i], w))
  }

  ghost predicate Bounded(matched: seq<Option<nat>>, n: nat) {
    forall k :: 0 <= k < |matched| && matched[k].Some? ==> matched[k].value < n
  }

  /** Matched field types in reader order, up to a missing field without a default. */
  function FieldGoal(rs: seq<Field>, ws: seq<Field>, matched: seq<Option<nat>>): (goal: Goal)
    requires |matched| == |rs|
    requires Bounded(matched, |ws|)
    ensures goal.All?
    decreases |rs|
  {
    if rs == [] then YES
    else if matched[0].None? then
      if rs[0].def.Some? then FieldGoal(rs[1..], ws, matched[1..]) else NO
    else
      var rest := FieldGoal(rs[1..], ws, matched[1..]);
      All([(rs[0].typ, ws[matched[0].value].typ)] + rest.pairs, rest.last)
  }

  lemma {:induction false} MatchAliasesBounds(writers: seq<Label>, aliases: seq<Text>, found: Option<nat>)
    requires found.Some? ==> found.value < |writers|
    ensures var r := MatchAliases(writers, aliases, found);
            r.Found? && r.index.Some? ==> r.index.value < |writers|
    decreases |aliases|
  {
    if aliases != [] {
      var i := Lookup(writers, aliases[0]);
      if i.None? || found.None? {
        MatchAliasesBounds(writers, aliases[1..], if i.Some? then i else found);
      }
    }
  }

  lemma {:induction false} MatchFieldsBounds(readers: seq<Label>, writers: seq<Label>, used: set<nat>)
    requires MatchFields(readers, writers, used).Some?
    ensures Bounded(MatchFields(readers, writers, used).value, |writers|)
    decreases |readers|
  {
    if readers != [] {
      MatchAliasesBounds(writers, readers[0].aliases, Lookup(writers, readers[0].name));
      var index := MatchField(writers, readers[0]).index;
      MatchFieldsBounds(readers[1..], writers, if index.Some? then used + {index.value} else used);
    }
  }

  function RecordGoal(rs: seq<Field>, ws: seq<Field>): Goal {
    match MatchFields(Labels(rs), Labels(ws), {})
    case None => NO
    case Some(matched) => MatchFieldsBounds(Labels(rs), Labels(ws), {}); FieldGoal(rs, ws, matched)
  }

  function DefGoal(r: Def, w: Def): Goal {
    match (r, w)
    case (Fixed(rn, rsize, _), Fixed(wn, wsize, _)) =>
      if NamesMatch(rn, wn) && rsize == wsize then YES else NO
    case (Enum(rn, _, def, _), Enum(wn, _, _, _)) =>
      if NamesMatch(rn, wn) && (SymbolsCovered(r, w) || def.Some?) then YES else NO
    case (Record(rn, rs), Record(wn, ws)) => if NamesMatch(rn, wn) then RecordGoal(rs, ws) else NO
    case _ => NO
  }

  /** The rules for one pair: what it needs of other pairs. */
  function Match(g: Graph, p: Pair): Goal
    requires Declared(p.0, |g|) && Declared(p.1, |g|)
  {
    var r, w := Deref(p.0), Deref(p.1);
    if !DecimalsAgree(g, r, w) then NO
    else if TypeOf(g, r) != TypeOf(g, w) then
      if w.Union? then All(WithReader(r, w.types), true)
      else if r.Union? then Any(WithWriter(r.types, w))
      else if r.Primitive? && w.Primitive? && Promotable(w.kind, r.kind) then YES
      else NO
    else
      match (r, w)
      case (Array(ri), Array(wi)) => All([(ri, wi)], true)
      case (Map(rv), Map(wv)) => All([(rv, wv)], true)
      case (Named(i), Named(j)) => DefGoal(g[i], g[j])
      case (Union(_, _), Union(ws, _)) => All(WithReader(r, ws), true)
      case _ => YES
  }

  // --- greatest fixpoint, relative to assumed keys ---

  type Key = (Bytes, Bytes)

  predicate DeclaredPair(g: Graph, p: Pair) {
    Declared(p.0, |g|) && Declared(p.1, |g|)
  }

  function KeyOf(g: Graph, p: Pair): Key
    requires DeclaredGraph(g) && DeclaredPair(g, p)
  {
    (Fingerprint(g, p.0), Fingerprint(g, p.1))
  }

  ghost predicate Holds(goal: Goal, x: iset<Pair>) {
    match goal
    case All(pairs, last) => last && forall p | p in pairs :: p in x
    case Any(pairs) => exists p | p in pairs :: p in x
  }

  /** Every pair of `x` is assumed or follows in one step from pairs of `x`. */
  ghost predicate Consistent(g: Graph, x: iset<Pair>, assumed: set<Key>)
    requires DeclaredGraph(g)
  {
    forall p | p in x :: DeclaredPair(g, p) && (KeyOf(g, p) in assumed || Holds(Match(g, p), x))
  }

  ghost predicate Fixpoint(g: Graph, assumed: set<Key>, p: Pair)
    requires DeclaredGraph(g)
  {
    exists x: iset<Pair> :: p in x && Consistent(g, x, assumed)
  }

  /** Compatibility as the specification means it: the greatest relation the rules allow. */
  ghost predicate Compatible(g: Graph, p: Pair)
    requires DeclaredGraph(g)
  {
    Fixpoint(g, {}, p)
  }
}
