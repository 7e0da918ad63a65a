/// The arena tree of src/idtree.rs: a vector of nodes addressed by dense
/// integer ids, parent/children links stored as ids, and two stateful
/// iterators (ancestors, descendants).
module Idtree {

  datatype Option<T> = None | Some(value: T)

  /// Handle of a node: its position in the arena.
  datatype NodeId = NodeId(index: nat)

  datatype IdNode<T> = IdNode(parent: Option<NodeId>, children: seq<NodeId>, id: NodeId, data: T)

  /// Every node's id is its position, and every id stored as a parent or a
  /// child names an existing node.
  ghost predicate WellIndexed<T>(nodes: seq<IdNode<T>>) {
    forall i :: 0 <= i < |nodes| ==>
      && nodes[i].id == NodeId(i)
      && (nodes[i].parent.Some? ==> nodes[i].parent.value.index < |nodes|)
      && (forall j :: 0 <= j < |nodes[i].children| ==> nodes[i].children[j].index < |nodes|)
  }

  /// Ids 0 .. n-1 in creation order.
  function AllIds(n: nat): (ids: seq<NodeId>)
    ensures |ids| == n && forall i :: 0 <= i < n ==> ids[i] == NodeId(i)
  {
    seq(n, i requires 0 <= i < n => NodeId(i))
  }

  // ---------------------------------------------------------------------
  // Ancestors: the parent chain of a node.
  // ---------------------------------------------------------------------

  /// The parent chain starting at `id` reaches a parentless node after
  /// exactly `d` steps.
  ghost predicate HasDepth<T>(nodes: seq<IdNode<T>>, id: NodeId, d: nat)
    decreases d
  {
    id.index < |nodes| &&
    match nodes[id.index].parent
    case None => d == 0
    case Some(p) => d > 0 && HasDepth(nodes, p, d - 1)
  }

  ghost predicate Finite<T>(nodes: seq<IdNode<T>>, id: NodeId) {
    exists d :: HasDepth(nodes, id, d)
  }

  /// The depth of a node is unique.
  lemma {:induction false} DepthUnique<T>(nodes: seq<IdNode<T>>, id: NodeId, d1: nat, d2: nat)
    requires HasDepth(nodes, id, d1) && HasDepth(nodes, id, d2)
    ensures d1 == d2
    decreases d1
  {
    match nodes[id.index].parent
    case None =>
    case Some(p) => DepthUnique(nodes, p, d1 - 1, d2 - 1);
  }

  ghost function Depth<T>(nodes: seq<IdNode<T>>, id: NodeId): (d: nat)
    requires Finite(nodes, id)
    ensures HasDepth(nodes, id, d)
  {
    var d :| HasDepth(nodes, id, d); d
  }

  /// What `iter_ancestors(id)` yields, as ids: `id`, its parent, its
  /// parent's parent, ..., ending with the first parentless node.
  ghost function AncestorIds<T>(nodes: seq<IdNode<T>>, id: NodeId, d: nat): (r: seq<NodeId>)
    requires HasDepth(nodes, id, d)
    ensures |r| == d + 1 && r[0] == id
    ensures forall i :: 0 <= i <= d ==> r[i].index < |nodes|
    ensures forall i, j :: 0 <= i && j == i + 1 <= d ==> nodes[r[i].index].parent == Some(r[j])
    ensures nodes[r[d].index].parent.None?
    decreases d
  {
    match nodes[id.index].parent
    case None => [id]
    case Some(p) => [id] + AncestorIds(nodes, p, d - 1)
  }

  // ---------------------------------------------------------------------
  // Descendants: the stack-based pre-order walk over the children lists.
  // ---------------------------------------------------------------------

  /// The children lists of the arena, the only part the walk looks at.
  function Kids<T>(nodes: seq<IdNode<T>>): (kids: seq<seq<NodeId>>)
    ensures |kids| == |nodes| && forall i :: 0 <= i < |nodes| ==> kids[i] == nodes[i].children
  {
    seq(|nodes|, i requires 0 <= i < |nodes| => nodes[i].children)
  }

  lemma KidsOfSameShape<T>(a: seq<IdNode<T>>, b: seq<IdNode<T>>)
    requires |a| == |b| && forall i :: 0 <= i < |a| ==> a[i].children == b[i].children
    ensures Kids(a) == Kids(b)
  {
  }

  /// Following children lists from `id`, every path has fewer than `h`
  /// nodes (so the subtree is finite and the walk terminates).
  ghost predicate Bounded(kids: seq<seq<NodeId>>, id: NodeId, h: nat)
    decreases h
  {
    id.index < |kids| && h > 0 &&
    forall j :: 0 <= j < |kids[id.index]| ==> Bounded(kids, kids[id.index][j], h - 1)
  }

  ghost predicate AllBounded(kids: seq<seq<NodeId>>, stack: seq<NodeId>, h: nat) {
    forall j :: 0 <= j < |stack| ==> Bounded(kids, stack[j], h)
  }

  ghost predicate FiniteSubtree<T>(nodes: seq<IdNode<T>>, id: NodeId) {
    exists h :: Bounded(Kids(nodes), id, h)
  }

  /// Pre-order from `id`: the node itself, then the walks of its children,
  /// LAST child first.
  ghost function Walk(kids: seq<seq<NodeId>>, id: NodeId, h: nat): seq<NodeId>
    requires Bounded(kids, id, h)
    decreases h, 0
  {
    [id] + WalkStack(kids, kids[id.index], h - 1)
  }

  /// What a descendant iterator whose stack is `stack` still yields: the
  /// walk of the top of the stack, then of the rest.
  ghost function WalkStack(kids: seq<seq<NodeId>>, stack: seq<NodeId>, h: nat): seq<NodeId>
    requires AllBounded(kids, stack, h)
    decreases h, 1, |stack|
  {
    if stack == [] then []
    else Walk(kids, stack[|stack| - 1], h) + WalkStack(kids, stack[..|stack| - 1], h)
  }

  lemma {:induction false} BoundedRaise(kids: seq<seq<NodeId>>, id: NodeId, h: nat, h': nat)
    requires Bounded(kids, id, h) && h <= h'
    ensures Bounded(kids, id, h') && Walk(kids, id, h) == Walk(kids, id, h')
    decreases h, 0
  {
    WalkStackRaise(kids, kids[id.index], h - 1, h' - 1);
  }

  lemma {:induction false} WalkStackRaise(kids: seq<seq<NodeId>>, s: seq<NodeId>, h: nat, h': nat)
    requires AllBounded(kids, s, h) && h <= h'
    ensures AllBounded(kids, s, h') && WalkStack(kids, s, h) == WalkStack(kids, s, h')
    decreases h, 1, |s|
  {
    if s != [] {
      var init := s[..|s| - 1];
      BoundedRaise(kids, s[|s| - 1], h, h');
      WalkStackRaise(kids, init, h, h');
      forall j | 0 <= j < |s| ensures Bounded(kids, s[j], h') {
        if j < |s| - 1 { assert s[j] == init[j]; }
      }
    }
  }

  /// The walk does not depend on which height bound witnesses finiteness.
  lemma WalkHeightIrrelevant(kids: seq<seq<NodeId>>, id: NodeId)
    ensures forall h1, h2 :: Bounded(kids, id, h1) && Bounded(kids, id, h2) ==> Walk(kids, id, h1) == Walk(kids, id, h2)
  {
    forall h1, h2 | Bounded(kids, id, h1) && Bounded(kids, id, h2)
      ensures Walk(kids, id, h1) == Walk(kids, id, h2)
    {
      if h1 <= h2 { BoundedRaise(kids, id, h1, h2); } else { BoundedRaise(kids, id, h2, h1); }
    }
  }

  lemma {:induction false} WalkStackConcat(kids: seq<seq<NodeId>>, a: seq<NodeId>, b: seq<NodeId>, h: nat)
    requires AllBounded(kids, a + b, h)
    ensures AllBounded(kids, a, h) && AllBounded(kids, b, h)
    ensures WalkStack(kids, a + b, h) == WalkStack(kids, b, h) + WalkStack(kids, a, h)
    decreases |b|
  {
    forall j | 0 <= j < |a| ensures Bounded(kids, a[j], h) {
      assert (a + b)[j] == a[j];
    }
    forall j | 0 <= j < |b| ensures Bounded(kids, b[j], h) {
      assert (a + b)[|a| + j] == b[j];
    }
    if b == [] {
      assert a + b == a;
    } else {
      var b' := b[..|b| - 1];
      var x := b[|b| - 1];
      assert (a + b)[..|a + b| - 1] == a + b';
      assert (a + b)[|a + b| - 1] == x;
      assert AllBounded(kids, a + b', h) by {
        forall j | 0 <= j < |a + b'| ensures Bounded(kids, (a + b')[j], h) {
          assert (a + b')[j] == (a + b)[j];
        }
      }
      WalkStackConcat(kids, a, b', h);
      assert WalkStack(kids, a + b, h) == Walk(kids, x, h) + WalkStack(kids, a + b', h);
      assert WalkStack(kids, b, h) == Walk(kids, x, h) + WalkStack(kids, b', h);
    }
  }

  /// One `Descendants::next` step: popping `x` off the stack and pushing
  /// its children leaves exactly the rest of the walk after `x`.
  lemma WalkStackStep(kids: seq<seq<NodeId>>, s: seq<NodeId>, h: nat)
    requires s != [] && AllBounded(kids, s, h)
    ensures var x := s[|s| - 1];
            && AllBounded(kids, s[..|s| - 1] + kids[x.index], h)
            && WalkStack(kids, s, h) == [x] + WalkStack(kids, s[..|s| - 1] + kids[x.index], h)
  {
    var x := s[|s| - 1];
    var init := s[..|s| - 1];
    assert Bounded(kids, x, h);
    WalkStackRaise(kids, kids[x.index], h - 1, h);
    forall j | 0 <= j < |init + kids[x.index]| ensures Bounded(kids, (init + kids[x.index])[j], h) {
      if j < |init| { assert (init + kids[x.index])[j] == s[j]; }
    }
    WalkStackConcat(kids, init, kids[x.index], h);
  }

  /// What `iter_descendants(id)` yields, as ids.
  ghost function DescendantIds<T>(nodes: seq<IdNode<T>>, id: NodeId): seq<NodeId>
    requires FiniteSubtree(nodes, id)
  {
    var h :| Bounded(Kids(nodes), id, h); Walk(Kids(nodes), id, h)
  }

  // ---------------------------------------------------------------------
  // The arena.
  // ---------------------------------------------------------------------

  class IdTree<T> {
    var nodes: seq<IdNode<T>>

    ghost predicate Valid()
      reads this
    {
      WellIndexed(nodes)
    }

    /// `IdTree::new`: an empty arena.
    constructor ()
      ensures Valid() && nodes == []
    {
      nodes := [];
    }

    /// `create_node`: appends a fresh parentless, childless node whose id is
    /// the node count before the call (`IdNode::new`).
    method CreateNode(data: T) returns (id: NodeId)
      requires Valid()
      modifies this
      ensures Valid()
      ensures id == NodeId(|old(nodes)|)
      ensures nodes == old(nodes) + [IdNode(None, [], id, data)]
    {
      id := NodeId(|nodes|);
      nodes := nodes + [IdNode(None, [], id, data)];
    }

    /// `set_parent_child`: points the child at the parent and appends the
    /// child to the parent's children; nothing else changes (in particular a
    /// previous parent keeps the child in its list).
    method SetParentChild(parentId: NodeId, childId: NodeId)
      requires Valid() && parentId.index < |nodes| && childId.index < |nodes|
      modifies this
      ensures Valid() && |nodes| == |old(nodes)|
      ensures nodes[childId.index].parent == Some(parentId)
      ensures nodes[parentId.index].children == old(nodes[parentId.index].children) + [childId]
      ensures forall i :: 0 <= i < |nodes| ==> nodes[i].id == old(nodes[i].id) && nodes[i].data == old(nodes[i].data)
      ensures forall i :: 0 <= i < |nodes| && i != childId.index ==> nodes[i].parent == old(nodes[i].parent)
      ensures forall i :: 0 <= i < |nodes| && i != parentId.index ==> nodes[i].children == old(nodes[i].children)
    {
      var child := nodes[childId.index];
      nodes := nodes[childId.index := child.(parent := Some(parentId))];
      var parent := nodes[parentId.index];
      nodes := nodes[parentId.index := parent.(children := parent.children + [childId])];
    }

    /// `get`: the node stored under `id` carries that id.
    function Get(id: NodeId): (n: IdNode<T>)
      reads this
      requires Valid() && id.index < |nodes|
      ensures n.id == id
      ensures n.parent.Some? ==> n.parent.value.index < |nodes|
      ensures forall j :: 0 <= j < |n.children| ==> n.children[j].index < |nodes|
    {
      nodes[id.index]
    }

    /// `get_mut(id).data = data`: replaces one node's payload in place.
    method SetData(id: NodeId, data: T)
      requires Valid() && id.index < |nodes|
      modifies this
      ensures Valid()
      ensures nodes == old(nodes)[id.index := old(nodes)[id.index].(data := data)]
    {
      nodes := nodes[id.index := nodes[id.index].(data := data)];
    }

    /// `iter`: all nodes in creation order.
    function Iter(): (ns: seq<IdNode<T>>)
      reads this
      requires Valid()
      ensures |ns| == |nodes|
      ensures forall i :: 0 <= i < |ns| ==> ns[i].id == NodeId(i)
    {
      nodes
    }

    /// `for node in iter_mut() { node.data = f(node.data) }`: edits every
    /// payload in place, keeping order, count and links.
    method MapData(f: T -> T)
      requires Valid()
      modifies this
      ensures Valid() && |nodes| == |old(nodes)|
      ensures forall i :: 0 <= i < |nodes| ==> nodes[i] == old(nodes[i]).(data := f(old(nodes[i]).data))
    {
      var i := 0;
      while i < |nodes|
        invariant 0 <= i <= |nodes| == |old(nodes)|
        invariant forall j :: 0 <= j < i ==> nodes[j] == old(nodes[j]).(data := f(old(nodes[j]).data))
        invariant forall j :: i <= j < |nodes| ==> nodes[j] == old(nodes[j])
      {
        nodes := nodes[i := nodes[i].(data := f(nodes[i].data))];
        i := i + 1;
      }
    }

    /// `iter_ancestors`: an iterator positioned on `id`.
    method IterAncestors(id: NodeId) returns (it: Ancestors<T>)
      ensures fresh(it) && it.tree == this && it.parentId == Some(id)
    {
      it := new Ancestors(this, id);
    }

    /// `iter_descendants`: an iterator whose stack holds `id` alone.
    method IterDescendants(id: NodeId) returns (it: Descendants<T>)
      ensures fresh(it) && it.tree == this && it.stack == [id]
    {
      it := new Descendants(this, id);
    }

    /// `get_root_node_id`: the first parentless node in creation order; a
    /// tree without one is a programming error (the source panics).
    method GetRootNodeId() returns (id: NodeId)
      requires Valid()
      requires exists i :: 0 <= i < |nodes| && nodes[i].parent.None?
      ensures id.index < |nodes| && nodes[id.index].parent.None?
      ensures forall j :: 0 <= j < id.index ==> nodes[j].parent.Some?
    {
      var i := 0;
      while i < |nodes|
        invariant 0 <= i <= |nodes|
        invariant forall j :: 0 <= j < i ==> nodes[j].parent.Some?
      {
        if nodes[i].parent.None? {
          return nodes[i].id;
        }
        i := i + 1;
      }
      assert false;
    }

    /// `iter_ancestors(id).map(|node| node.id).collect()`: drives the
    /// ancestor iterator to its end.
    method AncestorIdList(id: NodeId) returns (ids: seq<NodeId>)
      requires Valid() && Finite(nodes, id)
      ensures ids == AncestorIds(nodes, id, Depth(nodes, id))
    {
      ghost var d := Depth(nodes, id);
      var it := IterAncestors(id);
      ghost var rest := d;
      ids := [];
      while true
        invariant it.tree == this
        invariant it.parentId.Some? ==>
          HasDepth(nodes, it.parentId.value, rest) &&
          ids + AncestorIds(nodes, it.parentId.value, rest) == AncestorIds(nodes, id, d)
        invariant it.parentId.None? ==> ids == AncestorIds(nodes, id, d)
        decreases if it.parentId.Some? then rest + 1 else 0
      {
        var r := it.Next();
        if r.None? {
          break;
        }
        ids := ids + [r.value.id];
        if it.parentId.Some? {
          rest := rest - 1;
        }
      }
    }

    /// `iter_descendants(id).map(|node| node.id).collect()`: drives the
    /// descendant iterator to its end.
    method DescendantIdList(id: NodeId) returns (ids: seq<NodeId>)
      requires Valid() && FiniteSubtree(nodes, id)
      ensures ids == DescendantIds(nodes, id)
    {
      ghost var kids := Kids(nodes);
      ghost var h :| Bounded(kids, id, h);
      WalkHeightIrrelevant(kids, id);
      var it := IterDescendants(id);
      ids := [];
      while it.stack != []
        invariant it.tree == this
        invariant AllBounded(kids, it.stack, h)
        invariant forall j :: 0 <= j < |it.stack| ==> it.stack[j].index < |nodes|
        invariant ids + WalkStack(kids, it.stack, h) == Walk(kids, id, h)
        decreases |WalkStack(kids, it.stack, h)|
      {
        WalkStackStep(kids, it.stack, h);
        var r := it.Next();
        ids := ids + [r.value.id];
      }
    }
  }

  /// `Ancestors`: walks from a node up to the root.
  class Ancestors<T> {
    const tree: IdTree<T>
    var parentId: Option<NodeId>

    constructor (tree: IdTree<T>, id: NodeId)
      ensures this.tree == tree && parentId == Some(id)
    {
      this.tree := tree;
      parentId := Some(id);
    }

    /// `Ancestors::next`: yields the current node and moves to its parent;
    /// after a parentless node it yields nothing more.
    method Next() returns (r: Option<IdNode<T>>)
      requires tree.Valid() && (parentId.Some? ==> parentId.value.index < |tree.nodes|)
      modifies this
      ensures old(parentId).None? ==> r == None && parentId == None
      ensures old(parentId).Some? ==>
        r == Some(tree.nodes[old(parentId).value.index]) &&
        parentId == tree.nodes[old(parentId).value.index].parent
    {
      if parentId.Some? {
        var next := tree.Get(parentId.value);
        match next.parent {
          case None => parentId := None;
          case Some(parent) => parentId := Some(parent);
        }
        r := Some(next);
      } else {
        r := None;
      }
    }
  }

  /// `Descendants`: a stack-based pre-order walk.
  class Descendants<T> {
    const tree: IdTree<T>
    var stack: seq<NodeId>

    constructor (tree: IdTree<T>, id: NodeId)
      ensures this.tree == tree && stack == [id]
    {
      this.tree := tree;
      stack := [id];
    }

    /// `Descendants::next`: pops the top of the stack, yields it, and pushes
    /// its children in insertion order (so the last child is popped next).
    method Next() returns (r: Option<IdNode<T>>)
      requires tree.Valid() && forall j :: 0 <= j < |stack| ==> stack[j].index < |tree.nodes|
      modifies this
      ensures old(stack) == [] ==> r == None && stack == []
      ensures old(stack) != [] ==>
        var x := old(stack)[|old(stack)| - 1];
        && r == Some(tree.nodes[x.index])
        && stack == old(stack)[..|old(stack)| - 1] + tree.nodes[x.index].children
    {
      if stack == [] {
        return None;
      }
      var retId := stack[|stack| - 1];
      stack := stack[..|stack| - 1];
      var node := tree.Get(retId);
      stack := stack + node.children;
      r := Some(node);
    }
  }
}
