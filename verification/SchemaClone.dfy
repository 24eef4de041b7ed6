/** Cloning a schema graph on the heap: cycles and sharing kept, no node shared with the original. */
module SchemaClone {
  import opened Wire
  import opened Schemas
  import opened Finite

  /** What a schema node says besides its children; `slots` are the labels of record fields. */
  datatype Attributes =
    | NullLabel
    | PrimitiveLabel(kind: Kind, logical: Logical)
    | RecordLabel(name: Name, slots: seq<Slot>)
    | EnumLabel(name: Name, symbols: seq<Text>, def: Option<Text>)
    | FixedLabel(name: Name, size: nat, logical: Logical)
    | ArrayLabel
    | MapLabel
    | UnionLabel
    | RefLabel

  datatype Slot = Slot(name: Text, aliases: seq<Text>, hasDef: bool)

  /** A schema object: its children are field types, items, values, branches or the referent. */
  class Node {
    var attributes: Attributes
    var children: seq<Node>

    constructor (attributes: Attributes, children: seq<Node>)
      ensures this.attributes == attributes && this.children == children
    {
      this.attributes, this.children := attributes, children;
    }
  }

  /** The graph from these nodes leads nowhere else. */
  ghost predicate ClosedGraph(u: set<Node>)
    reads u
  {
    forall n | n in u :: forall k :: 0 <= k < |n.children| ==> n.children[k] in u
  }

  /** A node and its clone agree, children included. */
  ghost predicate Copied(cloned: map<Node, Node>, n: Node)
    requires n in cloned
    reads n, cloned[n]
  {
    var c := cloned[n];
    && c.attributes == n.attributes && |c.children| == |n.children|
    && forall k :: 0 <= k < |n.children| ==> n.children[k] in cloned && c.children[k] == cloned[n.children[k]]
  }

  ghost predicate OneToOne(cloned: map<Node, Node>) {
    forall a, b | a in cloned && b in cloned && cloned[a] == cloned[b] :: a == b
  }

  ghost predicate MoreClones(a: map<Node, Node>, b: map<Node, Node>) {
    forall n | n in a :: n in b && b[n] == a[n]
  }

  class Cloner {
    var cloned: map<Node, Node>

    constructor ()
      ensures cloned == map[]
    {
      cloned := map[];
    }

    /** Clones made so far are one-to-one, apart from the originals, and finished unless pending. */
    ghost predicate Valid(u: set<Node>, pending: set<Node>)
      reads this, u, cloned.Values
    {
      && cloned.Keys <= u && pending <= cloned.Keys && OneToOne(cloned)
      && (forall n | n in cloned :: cloned[n] !in u)
      && forall n | n in cloned && n !in pending :: Copied(cloned, n)
    }

    /** The clone of a node, the same one each time. */
    method Clone(s: Node, ghost u: set<Node>, ghost pending: set<Node>) returns (c: Node)
      requires ClosedGraph(u) && s in u && Valid(u, pending)
      modifies this
      ensures Valid(u, pending) && s in cloned && c == cloned[s]
      ensures MoreClones(old(cloned), cloned)
      ensures forall n | n in cloned && n !in old(cloned) :: fresh(cloned[n])
      decreases |u - cloned.Keys|, 1
    {
      if s in cloned {
        MoreSame(cloned);
        return cloned[s];
      }
      PendingCloned(u, pending);
      hide Valid, MoreClones, Mapped, ClosedGraph;
      ghost var before := cloned;
      c := Begin(s, u, pending);
      ghost var prior := cloned;
      OneFewerLeft(u, before, s, c);
      CloneChildren(s, c, u, pending);
      Finish(s, c, u, pending);
      MoreByOne(before, s, c, cloned);
      forall n | n in cloned && n !in before
        ensures fresh(cloned[n])
      {
        StillCloned(prior, cloned, n);
      }
    }

    method CloneChildren(s: Node, c: Node, ghost u: set<Node>, ghost pending: set<Node>)
      requires ClosedGraph(u) && s in u && Valid(u, pending + {s})
      requires s in cloned && cloned[s] == c && c !in u && c.children == []
      modifies this, c`children
      ensures Valid(u, pending + {s}) && s in cloned && cloned[s] == c
      ensures |c.children| == |s.children| && Mapped(cloned, s.children, c.children)
      ensures MoreClones(old(cloned), cloned)
      ensures forall n | n in cloned && n !in old(cloned) :: fresh(cloned[n])
      decreases |u - cloned.Keys|, 2
    {
      hide Valid, ClosedGraph, Mapped, MoreClones;
      ghost var before := cloned;
      MoreSame(before);
      NoneMapped(cloned, s.children);
      for i := 0 to |s.children|
        invariant Valid(u, pending + {s}) && s in cloned && cloned[s] == c
        invariant |c.children| == i && Mapped(cloned, s.children, c.children)
        invariant MoreClones(old(cloned), cloned)
        invariant forall n | n in cloned && n !in old(cloned) :: fresh(cloned[n])
      {
        MoreLeft(u, before, cloned);
        ChildIn(u, s, i);
        ghost var prior := cloned;
        var child := Clone(s.children[i], u, pending + {s});
        MappedNext(prior, cloned, s.children, c.children);
        MoreStill(before, prior, cloned, s);
        forall n | n in cloned && n !in before
          ensures fresh(cloned[n])
        {
          StillCloned(prior, cloned, n);
        }
        Attach(s, c, child, u, pending + {s});
      }
    }

    lemma PendingCloned(u: set<Node>, pending: set<Node>)
      requires Valid(u, pending)
      ensures pending <= cloned.Keys
    {
    }

    /** Registers an empty clone before its children, so that cycles come back to it. */
    method Begin(s: Node, ghost u: set<Node>, ghost pending: set<Node>) returns (c: Node)
      requires s in u && s !in cloned && Valid(u, pending)
      modifies this
      ensures fresh(c) && c !in u && c.attributes == s.attributes && c.children == []
      ensures cloned == old(cloned)[s := c] && Valid(u, pending + {s})
    {
      c := new Node(s.attributes, []);
      cloned := cloned[s := c];
    }

    method Attach(s: Node, c: Node, child: Node, ghost u: set<Node>, ghost pending: set<Node>)
      requires Valid(u, pending) && s in pending && s in cloned && cloned[s] == c && c !in u
      modifies c`children
      ensures Valid(u, pending) && c.children == old(c.children) + [child]
    {
      c.children := c.children + [child];
    }

    lemma Finish(s: Node, c: Node, u: set<Node>, pending: set<Node>)
      requires Valid(u, pending + {s}) && s in cloned && cloned[s] == c && pending <= cloned.Keys
      requires c.attributes == s.attributes && |c.children| == |s.children| && Mapped(cloned, s.children, c.children)
      ensures Valid(u, pending)
    {
      assert Copied(cloned, s);
      assert forall n | n in cloned && n !in pending && n != s :: n !in pending + {s};
    }
  }

  /** These clones are those of the first kids, in order. */
  ghost predicate Mapped(cloned: map<Node, Node>, kids: seq<Node>, clones: seq<Node>) {
    |clones| <= |kids| && forall k :: 0 <= k < |clones| ==> kids[k] in cloned && clones[k] == cloned[kids[k]]
  }

  lemma MappedNext(a: map<Node, Node>, b: map<Node, Node>, kids: seq<Node>, clones: seq<Node>)
    requires MoreClones(a, b) && Mapped(a, kids, clones) && |clones| < |kids| && kids[|clones|] in b
    ensures Mapped(b, kids, clones + [b[kids[|clones|]]])
  {
  }

  lemma MoreStill(a: map<Node, Node>, b: map<Node, Node>, c: map<Node, Node>, s: Node)
    requires MoreClones(a, b) && MoreClones(b, c) && s in b
    ensures MoreClones(a, c) && s in c && c[s] == b[s]
  {
  }

  lemma StillCloned(a: map<Node, Node>, b: map<Node, Node>, n: Node)
    requires MoreClones(a, b)
    ensures n in a ==> n in b && b[n] == a[n]
  {
  }

  lemma MoreByOne(a: map<Node, Node>, s: Node, c: Node, b: map<Node, Node>)
    requires s !in a && MoreClones(a[s := c], b)
    ensures MoreClones(a, b)
  {
  }

  lemma NoneMapped(a: map<Node, Node>, kids: seq<Node>)
    ensures Mapped(a, kids, [])
  {
  }

  lemma MoreSame(a: map<Node, Node>)
    ensures MoreClones(a, a)
  {
  }

  lemma MoreLeft(u: set<Node>, a: map<Node, Node>, b: map<Node, Node>)
    requires MoreClones(a, b)
    ensures |u - b.Keys| <= |u - a.Keys|
  {
    SubsetSize(u - b.Keys, u - a.Keys);
  }

  lemma OneFewerLeft(u: set<Node>, before: map<Node, Node>, s: Node, c: Node)
    requires s in u && s !in before
    ensures |u - before[s := c].Keys| < |u - before.Keys|
  {
    assert u - before.Keys == (u - before[s := c].Keys) + {s};
  }

  lemma ChildIn(u: set<Node>, s: Node, i: nat)
    requires ClosedGraph(u) && s in u && i < |s.children|
    ensures s.children[i] in u
  {
  }

  /** `to` reaches exactly the images of what `from` reaches, arranged alike. */
  ghost predicate Isomorphic(iso: map<Node, Node>, from: Node, to: Node)
    reads iso.Keys, iso.Values
  {
    && from in iso && iso[from] == to && OneToOne(iso)
    && forall n | n in iso :: Copied(iso, n)
  }

  /**
   * Clones a whole graph: a one-to-one image of it, every node new. `u` is any set of nodes
   * that holds the root and is closed under children; it bounds the recursion.
   */
  method CloneSchemaGraph(s: Node, ghost u: set<Node>) returns (c: Node, ghost iso: map<Node, Node>)
    requires ClosedGraph(u) && s in u
    ensures Isomorphic(iso, s, c) && iso.Keys <= u
    ensures forall n | n in iso :: fresh(iso[n]) && iso[n] !in u
  {
    var cloner := new Cloner();
    c := cloner.Clone(s, u, {});
    iso := cloner.cloned;
  }

  // --- what an isomorphism preserves ---

  /** The node at the end of a path of child positions. */
  ghost function At(n: Node, path: seq<nat>, u: set<Node>): Option<Node>
    requires ClosedGraph(u) && n in u
    reads u
    decreases |path|
  {
    if path == [] then Some(n)
    else if path[0] < |n.children| then At(n.children[path[0]], path[1..], u)
    else None
  }

  lemma ImageClosed(iso: map<Node, Node>, from: Node, to: Node)
    requires Isomorphic(iso, from, to)
    ensures ClosedGraph(iso.Keys) && ClosedGraph(iso.Values)
  {
    forall n | n in iso.Keys
      ensures forall k :: 0 <= k < |n.children| ==> n.children[k] in iso.Keys
    {
      assert Copied(iso, n);
    }
    forall c | c in iso.Values
      ensures forall k :: 0 <= k < |c.children| ==> c.children[k] in iso.Values
    {
      var n :| n in iso && iso[n] == c;
      assert Copied(iso, n);
    }
  }

  /** Every path leads to the image of where it led before. */
  lemma {:induction false} PathsKept(iso: map<Node, Node>, from: Node, to: Node, n: Node, path: seq<nat>)
    requires Isomorphic(iso, from, to) && n in iso
    requires ClosedGraph(iso.Keys) && ClosedGraph(iso.Values)
    ensures match At(n, path, iso.Keys)
            case None => At(iso[n], path, iso.Values).None?
            case Some(m) => m in iso && At(iso[n], path, iso.Values) == Some(iso[m]) && iso[m].attributes == m.attributes
    decreases |path|
  {
    assert Copied(iso, n);
    if path != [] && path[0] < |n.children| {
      PathsKept(iso, from, to, n.children[path[0]], path[1..]);
    }
  }

  /** Sharing and cycles are kept: two paths meet in the clone if and only if they met before. */
  lemma CloneKeepsSharing(iso: map<Node, Node>, from: Node, to: Node, p: seq<nat>, q: seq<nat>)
    requires Isomorphic(iso, from, to)
    ensures ClosedGraph(iso.Keys) && ClosedGraph(iso.Values)
    ensures var a, b := At(from, p, iso.Keys), At(from, q, iso.Keys);
            var a', b' := At(to, p, iso.Values), At(to, q, iso.Values);
            && (a.Some? <==> a'.Some?) && (a.Some? ==> a'.value.attributes == a.value.attributes)
            && (a.Some? && b.Some? ==> (a == b <==> a' == b'))
  {
    ImageClosed(iso, from, to);
    PathsKept(iso, from, to, from, p);
    PathsKept(iso, from, to, from, q);
  }
}
