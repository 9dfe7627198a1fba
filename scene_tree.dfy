/**
 * The generic scene-tree node that an Asset is built on, reduced to what the
 * Asset's reference table and its clone rely on: node identity, the parent
 * back-reference, per-node field values, the ordered children, index paths,
 * the path search and the structural copy.
 *
 * A node is a value `Node(handle, parent, fields, children)`. Its identity --
 * the address of the C++ object -- is `handle`, an object allocated once per
 * node; two nodes are "the same instance" exactly when their handles are equal.
 */
module SceneTree {
  import opened Wrappers

  /** The dynamic type of a scene object, which is what `dynamic_cast` tests. */
  datatype NodeKind = PlainNode | ModelNode | AssetNode

  /** The identity of one scene-node object; its dynamic type is fixed when it is allocated. */
  class Handle {
    const kind: NodeKind

    constructor (kind: NodeKind)
      ensures this.kind == kind
    {
      this.kind := kind;
    }
  }

  /**
   * A scene node: its identity, its non-owning parent back-reference, the field
   * values that a structural copy duplicates (transform, meshes, ...; opaque
   * here) and the children it owns, in traversal order.
   */
  datatype Node = Node(handle: Handle, parent: Option<Handle>, fields: int, children: seq<Node>)

  /** A child-index path from a node to one of its descendants; `[]` denotes the node itself. */
  type Path = seq<nat>

  /** A node with its identities forgotten: what a structural copy must preserve. */
  datatype Shape = Shape(kind: NodeKind, fields: int, children: seq<Shape>)

  function ShapeOf(n: Node): Shape
  {
    Shape(n.handle.kind, n.fields,
          seq(|n.children|, i requires 0 <= i < |n.children| => ShapeOf(n.children[i])))
  }

  /** Every identity in the subtree rooted at `n`, `n`'s own included. */
  function Handles(n: Node): set<Handle>
  {
    {n.handle} + set i, h | 0 <= i < |n.children| && h in Handles(n.children[i]) :: h
  }

  /** Every child points back at its owner, all the way down. */
  ghost predicate Linked(n: Node)
  {
    forall i :: 0 <= i < |n.children| ==>
      n.children[i].parent == Some(n.handle) && Linked(n.children[i])
  }

  /** Each object occurs once in the subtree: the ownership tree is a tree. */
  ghost predicate Unique(n: Node)
  {
    && (forall i :: 0 <= i < |n.children| ==>
          Unique(n.children[i]) && n.handle !in Handles(n.children[i]))
    && (forall i, j :: 0 <= i < j < |n.children| ==>
          Handles(n.children[i]) !! Handles(n.children[j]))
  }

  /**
   * Node::getDescendentByIndices: walk from `n` child index by child index;
   * `None` when an index is out of range.
   */
  function At(n: Node, p: Path): Option<Node>
    decreases p
  {
    if p == [] then Some(n)
    else if p[0] < |n.children| then At(n.children[p[0]], p[1..])
    else None
  }

  /**
   * Node::breadthFirstSearch: the path from `n` to the node whose identity is
   * `h`, or `[]` when no descendant of `n` has it (`n` itself yields `[]` too).
   */
  function PathTo(n: Node, h: Handle): Path
  {
    SearchFrom(n, h, 0)
  }

  /** The search among the children of `n` from index `i` on. */
  function SearchFrom(n: Node, h: Handle, i: nat): Path
    decreases n, |n.children| - i
  {
    if i >= |n.children| then []
    else if n.children[i].handle == h then [i]
    else
      var below := SearchFrom(n.children[i], h, 0);
      if below != [] then [i] + below else SearchFrom(n, h, i + 1)
  }

  /** The node a path reaches belongs to the subtree, and a non-empty path stays under its first child. */
  lemma {:induction false} AtInHandles(n: Node, p: Path)
    requires At(n, p).Some?
    ensures At(n, p).value.handle in Handles(n)
    ensures p != [] ==> p[0] < |n.children| && At(n, p).value.handle in Handles(n.children[p[0]])
    decreases p
  {
    if p != [] {
      AtInHandles(n.children[p[0]], p[1..]);
    }
  }

  lemma {:induction false} SearchFromSound(n: Node, h: Handle, i: nat)
    ensures var p := SearchFrom(n, h, i);
      p != [] ==> i <= p[0] && At(n, p).Some? && At(n, p).value.handle == h
    decreases n, |n.children| - i
  {
    if i < |n.children| && n.children[i].handle != h {
      var below := SearchFrom(n.children[i], h, 0);
      SearchFromSound(n.children[i], h, 0);
      if below != [] {
        assert ([i] + below)[1..] == below;
      } else {
        SearchFromSound(n, h, i + 1);
      }
    }
  }

  /** A non-empty search result leads to the node that was searched for. */
  lemma PathToSound(n: Node, h: Handle)
    ensures PathTo(n, h) != [] ==> At(n, PathTo(n, h)).Some? && At(n, PathTo(n, h)).value.handle == h
  {
    SearchFromSound(n, h, 0);
  }

  /** A search from index `i` finds nothing in a subtree that does not hold `h`. */
  lemma {:induction false} SearchFromMissing(n: Node, h: Handle, i: nat)
    requires forall j :: i <= j < |n.children| ==> h !in Handles(n.children[j])
    ensures SearchFrom(n, h, i) == []
    decreases |n.children| - i
  {
    if i < |n.children| {
      var below := SearchFrom(n.children[i], h, 0);
      SearchFromSound(n.children[i], h, 0);
      if below != [] {
        AtInHandles(n.children[i], below);
      }
      SearchFromMissing(n, h, i + 1);
    }
  }

  lemma {:induction false} SearchFromFindsSome(n: Node, h: Handle, i: nat, j: nat)
    requires i <= j < |n.children| && h in Handles(n.children[j])
    ensures SearchFrom(n, h, i) != []
    decreases n, |n.children| - i
  {
    var child := n.children[i];
    if child.handle != h {
      if i < j {
        if SearchFrom(child, h, 0) == [] {
          SearchFromFindsSome(n, h, i + 1, j);
        }
      } else {
        var g :| 0 <= g < |child.children| && h in Handles(child.children[g]);
        SearchFromFindsSome(child, h, 0, g);
      }
    }
  }

  /** The search comes back empty exactly when no descendant of `n` is the node searched for. */
  lemma PathToEmptyIff(n: Node, h: Handle)
    ensures PathTo(n, h) == [] <==> forall i :: 0 <= i < |n.children| ==> h !in Handles(n.children[i])
  {
    if j :| 0 <= j < |n.children| && h in Handles(n.children[j]) {
      SearchFromFindsSome(n, h, 0, j);
    } else {
      SearchFromMissing(n, h, 0);
    }
  }

  lemma {:induction false} SearchFromFinds(n: Node, p: Path, i: nat)
    requires Unique(n)
    requires p != [] && i <= p[0] && At(n, p).Some?
    ensures SearchFrom(n, At(n, p).value.handle, i) == p
    decreases n, |n.children| - i
  {
    var h := At(n, p).value.handle;
    var j, q := p[0], p[1..];
    AtInHandles(n, p);
    var child := n.children[i];
    if i < j {
      // `h` lies under child `j`, so it is neither child `i` nor below it.
      assert Handles(n.children[i]) !! Handles(n.children[j]);
      assert child.handle in Handles(child);
      var below := SearchFrom(child, h, 0);
      SearchFromSound(child, h, 0);
      if below != [] {
        AtInHandles(child, below);
      }
      SearchFromFinds(n, p, i + 1);
    } else if q == [] {
      assert p == [i];
    } else {
      AtInHandles(child, q);
      assert child.handle != h by {
        assert q[0] < |child.children|;
        assert h in Handles(child.children[q[0]]);
      }
      SearchFromFinds(child, q, 0);
      assert p == [i] + q;
    }
  }

  /**
   * Where each object occurs once, the search returns exactly the path at which
   * the node sits: any search strategy, breadth-first included, agrees.
   */
  lemma PathToFinds(n: Node, p: Path)
    requires Unique(n)
    requires p != [] && At(n, p).Some?
    ensures PathTo(n, At(n, p).value.handle) == p
  {
    SearchFromFinds(n, p, 0);
  }

  /** Two trees of the same shape have nodes at the same paths, and those nodes have the same shape. */
  lemma {:induction false} ShapeAt(a: Node, b: Node, p: Path)
    requires ShapeOf(a) == ShapeOf(b)
    ensures At(a, p).Some? <==> At(b, p).Some?
    ensures At(a, p).Some? ==> ShapeOf(At(a, p).value) == ShapeOf(At(b, p).value)
    decreases p
  {
    if p != [] && p[0] < |a.children| {
      assert ShapeOf(a).children[p[0]] == ShapeOf(a.children[p[0]]);
      assert ShapeOf(b).children[p[0]] == ShapeOf(b.children[p[0]]);
      ShapeAt(a.children[p[0]], b.children[p[0]], p[1..]);
    }
  }

  /** Trees that each hold every object once, do not hold `owner`, and share no object with each other. */
  ghost predicate SeparateTrees(kids: seq<Node>, owner: Handle)
  {
    && (forall j :: 0 <= j < |kids| ==> Unique(kids[j]) && owner !in Handles(kids[j]))
    && (forall j1, j2 :: 0 <= j1 < j2 < |kids| ==> Handles(kids[j1]) !! Handles(kids[j2]))
  }

  /** A node is a tree exactly when its children are separate trees not holding it. */
  lemma UniqueFromChildren(h: Handle, parent: Option<Handle>, fields: int, kids: seq<Node>)
    ensures Unique(Node(h, parent, fields, kids)) <==> SeparateTrees(kids, h)
  {
  }

  /**
   * Appending a tree that does not hold `owner` and shares no object with
   * `pool`, which covers the trees already there, keeps them separate.
   */
  lemma SeparateTreesAppend(kids: seq<Node>, k: Node, owner: Handle, pool: set<Handle>)
    requires SeparateTrees(kids, owner)
    requires forall j :: 0 <= j < |kids| ==> Handles(kids[j]) <= pool
    requires Unique(k) && owner !in Handles(k) && Handles(k) !! pool
    ensures SeparateTrees(kids + [k], owner)
  {
    assert forall j :: 0 <= j < |kids| ==> (kids + [k])[j] == kids[j];
  }

  /** Every child's subtree is part of its parent's. */
  lemma ChildHandles(n: Node)
    ensures forall j :: 0 <= j < |n.children| ==> Handles(n.children[j]) <= Handles(n)
  {
  }

  /**
   * Taking ownership of an unowned tree `m` that shares no object with `n`, as
   * its last child, keeps `n` a linked tree.
   */
  lemma AdoptChild(n: Node, m: Node)
    requires Unique(n) && Linked(n) && Unique(m) && Linked(m) && Handles(m) !! Handles(n)
    ensures var adopted := n.(children := n.children + [m.(parent := Some(n.handle))]);
      Unique(adopted) && Linked(adopted)
  {
    var m' := m.(parent := Some(n.handle));
    var kids := n.children + [m'];
    assert Handles(m') == Handles(m) && Unique(m') && Linked(m');
    UniqueFromChildren(n.handle, n.parent, n.fields, n.children);
    ChildHandles(n);
    assert n.handle in Handles(n);
    SeparateTreesAppend(n.children, m', n.handle, Handles(n));
    UniqueFromChildren(n.handle, n.parent, n.fields, kids);
    assert forall j :: 0 <= j < |n.children| ==> kids[j] == n.children[j];
  }

  /**
   * Node::copyTo: fill the already allocated object `target` with a copy of
   * `n`'s fields and a freshly allocated copy of each child, owned by `target`.
   */
  method CopyTo(n: Node, target: Handle, parent: Option<Handle>) returns (c: Node)
    requires target.kind == n.handle.kind
    ensures c.handle == target && c.parent == parent
    ensures ShapeOf(c) == ShapeOf(n)
    ensures Linked(c) && Unique(c)
    ensures fresh(Handles(c) - {target})
    decreases n
  {
    var kids: seq<Node> := [];
    ghost var made: set<Handle> := {};
    var i := 0;
    while i < |n.children|
      invariant 0 <= i <= |n.children| && |kids| == i
      invariant forall j :: 0 <= j < i ==> ShapeOf(kids[j]) == ShapeOf(n.children[j])
      invariant forall j :: 0 <= j < i ==> kids[j].parent == Some(target) && Linked(kids[j])
      invariant SeparateTrees(kids, target)
      invariant forall j :: 0 <= j < i ==> Handles(kids[j]) <= made
      invariant forall o :: o in made ==> fresh(o)
      invariant target !in made
    {
      var child := n.children[i];
      label Step:
      var h := new Handle(child.handle.kind);
      label Called:
      var k := CopyTo(child, h, Some(target));
      // Everything in the new child was allocated in this step, after every earlier child.
      assert forall o :: o in Handles(k) - {h} ==> !old@Called(allocated(o));
      assert Handles(k) == (Handles(k) - {h}) + {h};
      assert forall o :: o in Handles(k) ==> !old@Step(allocated(o));
      assert Handles(k) !! made && target !in Handles(k);
      SeparateTreesAppend(kids, k, target, made);
      made := made + Handles(k);
      kids := kids + [k];
      i := i + 1;
    }
    UniqueFromChildren(target, parent, n.fields, kids);
    c := Node(target, parent, n.fields, kids);
  }

  /** Node::clone: a new, unparented object of the same dynamic type holding a copy of `n`. */
  method Clone(n: Node) returns (c: Node)
    ensures c.parent == None
    ensures ShapeOf(c) == ShapeOf(n)
    ensures Linked(c) && Unique(c)
    ensures fresh(Handles(c))
  {
    var h := new Handle(n.handle.kind);
    label Copying:
    c := CopyTo(n, h, None);
    assert forall o :: o in Handles(c) - {h} ==> !old@Copying(allocated(o));
    assert Handles(c) == (Handles(c) - {h}) + {h};
  }
}
