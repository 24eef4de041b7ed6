/** Recursive value types: a three-colour search finds a cycle if and only if there is one. */
module ValueCycles {
  import opened Wire
  import opened Finite

  type Text = Bytes

  /** A generated struct: its name and the type names of its fields. */
  datatype TypeDef = TypeDef(name: Text, fields: seq<Text>)

  type Definitions = map<Text, seq<Text>>

  // --- cycles among direct struct values ---

  /** A field of struct `a` holds a struct `b` by value. */
  predicate Edge(defs: Definitions, a: Text, b: Text) {
    a in defs && b in defs && b in defs[a]
  }

  ghost predicate IsPath(defs: Definitions, p: seq<Text>) {
    forall i :: 0 <= i < |p| - 1 ==> Edge(defs, p[i], p[i + 1])
  }

  ghost predicate IsCycle(defs: Definitions, p: seq<Text>) {
    |p| >= 2 && IsPath(defs, p) && p[0] == p[|p| - 1]
  }

  ghost predicate Cyclic(defs: Definitions) {
    exists p :: IsCycle(defs, p)
  }

  /** Later definitions of a name replace earlier ones. */
  function Define(typedefs: seq<TypeDef>): (defs: Definitions)
    ensures forall name: Text :: name in defs <==> exists k :: 0 <= k < |typedefs| && typedefs[k].name == name
  {
    if typedefs == [] then map[]
    else
      var last := typedefs[|typedefs| - 1];
      Define(typedefs[..|typedefs| - 1])[last.name := last.fields]
  }

  /** The last definition of a name counts. */
  lemma {:induction false} LastDefinition(typedefs: seq<TypeDef>, k: nat)
    requires k < |typedefs| && forall j :: k < j < |typedefs| ==> typedefs[j].name != typedefs[k].name
    ensures Define(typedefs)[typedefs[k].name] == typedefs[k].fields
    decreases |typedefs|
  {
    if k < |typedefs| - 1 {
      LastDefinition(typedefs[..|typedefs| - 1], k);
    }
  }

  // --- the search ---

  /** Finished names: each was left after everything it leads to. */
  ghost predicate Finished(defs: Definitions, order: map<Text, nat>) {
    forall a, b | a in order && Edge(defs, a, b) :: b in order && order[b] < order[a]
  }

  /** Along any path of finished names the finishing times fall. */
  lemma {:induction false} PathFalls(defs: Definitions, order: map<Text, nat>, p: seq<Text>, k: nat)
    requires Finished(defs, order) && IsPath(defs, p) && k < |p| && p[0] in order
    ensures p[k] in order && (k > 0 ==> order[p[k]] < order[p[0]])
  {
    if k > 0 {
      PathFalls(defs, order, p, k - 1);
      assert Edge(defs, p[k - 1], p[k - 1 + 1]);
    }
  }

  lemma FinishedAcyclic(defs: Definitions, order: map<Text, nat>)
    requires Finished(defs, order) && forall name | name in defs :: name in order
    ensures !Cyclic(defs)
  {
    forall p | IsCycle(defs, p)
      ensures false
    {
      assert Edge(defs, p[0], p[0 + 1]);
      PathFalls(defs, order, p, |p| - 1);
    }
  }

  datatype State = Visiting | Done

  /** Grey names are the stack, black ones are finished, and no others have been seen. */
  ghost predicate Coloured(states: map<Text, State>, stack: seq<Text>, order: map<Text, nat>) {
    && (forall name | name in states :: (states[name] == Visiting <==> name in stack) && (states[name] == Done <==> name in order))
    && (forall name | name in stack :: name in states)
    && (forall name | name in order :: name in states)
  }

  lemma ColourEnter(states: map<Text, State>, stack: seq<Text>, order: map<Text, nat>, name: Text)
    requires Coloured(states, stack, order) && name !in states
    ensures Coloured(states[name := Visiting], stack + [name], order)
  {
  }

  lemma ColourLeave(states: map<Text, State>, stack: seq<Text>, order: map<Text, nat>, name: Text, clock: nat)
    requires Coloured(states, stack + [name], order) && name !in stack
    ensures Coloured(states[name := Done], stack, order[name := clock]) && name in states && name !in order
  {
    assert forall x :: x in stack + [name] <==> x in stack || x == name;
    assert name in stack + [name];
  }

  class Search {
    const defs: Definitions
    var states: map<Text, State>
    ghost var order: map<Text, nat>
    ghost var clock: nat

    constructor (defs: Definitions)
      ensures this.defs == defs && states == map[] && order == map[]
      ensures Valid([])
    {
      this.defs, states, order, clock := defs, map[], map[], 0;
    }

    /** The names being visited are those on the stack, a path; the others seen are finished. */
    ghost predicate Valid(stack: seq<Text>)
      reads this
    {
      && IsPath(defs, stack)
      && (forall name | name in states :: name in defs)
      && Coloured(states, stack, order)
      && (forall name | name in order :: order[name] < clock)
      && Finished(defs, order)
    }

    /** Names not yet seen. */
    ghost function Fresh(): nat
      reads this
    {
      |defs.Keys - states.Keys|
    }

    /** Whether a cycle is met from `name` on. */
    method Visit(name: Text, ghost stack: seq<Text>) returns (err: bool)
      requires Valid(stack) && name in defs && (stack != [] ==> Edge(defs, stack[|stack| - 1], name))
      modifies this
      ensures err ==> Cyclic(defs)
      ensures !err ==> Valid(stack) && name in order && Fresh() <= old(Fresh())
      ensures !err ==> old(order).Keys <= order.Keys
      decreases Fresh()
    {
      hide Cyclic, Valid, Fresh;
      Known(name, stack);
      if name in states {
        if states[name] == Visiting {
          Closes(name, stack);
          return true;
        }
        return false;
      }
      ghost var path := stack + [name];
      Enter(name, stack);
      var fields := defs[name];
      for i := 0 to |fields|
        invariant Valid(path) && Fresh() < old(Fresh())
        invariant old(order).Keys <= order.Keys
        invariant forall k :: 0 <= k < i && fields[k] in defs ==> fields[k] in order
      {
        if fields[i] in defs {
          assert Edge(defs, name, fields[i]);
          err := Visit(fields[i], path);
          if err {
            return;
          }
        }
      }
      Leave(name, stack);
      err := false;
    }

    lemma Known(name: Text, stack: seq<Text>)
      requires Valid(stack)
      ensures name in states && states[name] == Done ==> name in order
      ensures name !in states ==> name !in stack
    {
    }

    /** A name met again while being visited closes a cycle. */
    lemma Closes(name: Text, stack: seq<Text>)
      requires Valid(stack) && name in defs && (stack != [] ==> Edge(defs, stack[|stack| - 1], name))
      requires name in states && states[name] == Visiting
      ensures Cyclic(defs)
    {
      var i :| 0 <= i < |stack| && stack[i] == name;
      assert IsCycle(defs, stack[i..] + [name]);
    }

    method Enter(name: Text, ghost stack: seq<Text>)
      requires Valid(stack) && name in defs && (stack != [] ==> Edge(defs, stack[|stack| - 1], name))
      requires name !in states
      modifies this`states
      ensures Valid(stack + [name]) && Fresh() < old(Fresh()) && order == old(order)
    {
      hide Finished, IsPath, Coloured;
      ColourEnter(states, stack, order, name);
      FreshShrinks(states, states[name := Visiting], name);
      PathExtends(defs, stack, name);
      states := states[name := Visiting];
    }

    /** A name whose fields are all finished is finished itself. */
    method Leave(name: Text, ghost stack: seq<Text>)
      requires Valid(stack + [name]) && name in defs && name !in stack
      requires forall b | b in defs[name] && b in defs :: b in order
      modifies this
      ensures Valid(stack) && order.Keys == old(order).Keys + {name} && Fresh() == old(Fresh())
    {
      hide Finished, IsPath, Coloured;
      ColourLeave(states, stack, order, name, clock);
      StackPath(defs, stack, name);
      LeaveFinished(defs, order, name, clock);
      assert states[name := Done].Keys == states.Keys;
      states, order, clock := states[name := Done], order[name := clock], clock + 1;
    }

    lemma FreshShrinks(before: map<Text, State>, after: map<Text, State>, name: Text)
      requires name in defs && name !in before && before.Keys + {name} <= after.Keys
      ensures |defs.Keys - after.Keys| < |defs.Keys - before.Keys|
    {
      var a, b := defs.Keys - after.Keys, defs.Keys - before.Keys;
      assert name in b && name !in a;
      SubsetSize(a, b);
    }
  }

  lemma PathExtends(defs: Definitions, stack: seq<Text>, name: Text)
    requires IsPath(defs, stack) && (stack != [] ==> Edge(defs, stack[|stack| - 1], name))
    ensures IsPath(defs, stack + [name])
  {
  }

  lemma StackPath(defs: Definitions, stack: seq<Text>, name: Text)
    requires IsPath(defs, stack + [name])
    ensures IsPath(defs, stack)
  {
    var path := stack + [name];
    forall i | 0 <= i < |stack| - 1
      ensures Edge(defs, stack[i], stack[i + 1])
    {
      assert Edge(defs, path[i], path[i + 1]);
    }
  }

  lemma LeaveFinished(defs: Definitions, order: map<Text, nat>, name: Text, clock: nat)
    requires Finished(defs, order) && name !in order && forall x | x in order :: order[x] < clock
    requires name in defs && forall b | b in defs[name] && b in defs :: b in order
    ensures Finished(defs, order[name := clock])
  {
  }

  /** Reports an error exactly when some struct contains itself by value, however indirectly. */
  method CheckValueCycles(typedefs: seq<TypeDef>) returns (err: bool)
    ensures err <==> Cyclic(Define(typedefs))
  {
    hide Cyclic, Define, Finished, IsPath;
    var defs := Define(typedefs);
    var search := new Search(defs);
    for i := 0 to |typedefs|
      invariant search.Valid([])
      invariant forall k :: 0 <= k < i ==> typedefs[k].name in search.order
    {
      assert typedefs[i].name in defs;
      err := VisitTop(search, typedefs[i].name);
      if err {
        return;
      }
    }
    AllFinished(search, typedefs);
    err := false;
  }

  method VisitTop(search: Search, name: Text) returns (err: bool)
    requires search.Valid([]) && name in search.defs
    modifies search
    ensures err ==> Cyclic(search.defs)
    ensures !err ==> search.Valid([]) && name in search.order && old(search.order).Keys <= search.order.Keys
  {
    err := search.Visit(name, []);
  }

  lemma AllFinished(search: Search, typedefs: seq<TypeDef>)
    requires search.Valid([]) && search.defs == Define(typedefs)
    requires forall k :: 0 <= k < |typedefs| ==> typedefs[k].name in search.order
    ensures !Cyclic(search.defs)
  {
    hide Cyclic, Finished;
    forall name | name in search.defs
      ensures name in search.order
    {
      var k :| 0 <= k < |typedefs| && typedefs[k].name == name;
    }
    FinishedAcyclic(search.defs, search.order);
  }
}
