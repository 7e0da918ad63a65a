/// Ordering facts about the two walks of the arena tree (src/idtree.rs):
/// the descendant walk emits a parent before its children, and from the
/// root of a well-formed tree it emits every node exactly once; the
/// ancestor walk, reversed, is a root-to-node path.
module IdtreeOrder {
  import opened Idtree

  /// Every child listed by a node points back to it.
  ghost predicate ChildrenPointBack<T>(nodes: seq<IdNode<T>>) {
    forall p, j :: 0 <= p < |nodes| && 0 <= j < |nodes[p].children| ==>
      nodes[p].children[j].index < |nodes| &&
      nodes[nodes[p].children[j].index].parent == Some(NodeId(p))
  }

  /// Every node's parent lists it as a child.
  ghost predicate ParentsListChildren<T>(nodes: seq<IdNode<T>>) {
    forall c :: 0 <= c < |nodes| && nodes[c].parent.Some? ==>
      nodes[c].parent.value.index < |nodes| &&
      NodeId(c) in nodes[nodes[c].parent.value.index].children
  }

  ghost predicate Distinct<X>(xs: seq<X>) {
    forall i, j :: 0 <= i < j < |xs| ==> xs[i] != xs[j]
  }

  /// A well-formed tree: consistent links both ways, no child listed twice,
  /// and every parent chain finite (no cycles).
  ghost predicate TreeShaped<T>(nodes: seq<IdNode<T>>) {
    && WellIndexed(nodes)
    && ChildrenPointBack(nodes)
    && ParentsListChildren(nodes)
    && (forall p :: 0 <= p < |nodes| ==> Distinct(nodes[p].children))
    && (forall i :: 0 <= i < |nodes| ==> Finite(nodes, NodeId(i)))
  }

  // ---------------------------------------------------------------------
  // Parents first.
  // ---------------------------------------------------------------------

  ghost predicate ParentEarlier<T>(nodes: seq<IdNode<T>>, w: seq<NodeId>, k: nat, seen: set<NodeId>)
    requires k < |w|
  {
    w[k].index < |nodes| &&
    nodes[w[k].index].parent.Some? &&
    (nodes[w[k].index].parent.value in seen || nodes[w[k].index].parent.value in w[..k])
  }

  lemma {:induction false} WalkStackParentsEarlier<T>(nodes: seq<IdNode<T>>, s: seq<NodeId>, h: nat, seen: set<NodeId>)
    requires WellIndexed(nodes) && ChildrenPointBack(nodes)
    requires AllBounded(Kids(nodes), s, h)
    requires forall j :: 0 <= j < |s| ==>
      s[j].index < |nodes| && nodes[s[j].index].parent.Some? && nodes[s[j].index].parent.value in seen
    ensures forall k :: 0 <= k < |WalkStack(Kids(nodes), s, h)| ==> ParentEarlier(nodes, WalkStack(Kids(nodes), s, h), k, seen)
    decreases h, |s|
  {
    if s != [] {
      var kids := Kids(nodes);
      var x := s[|s| - 1];
      var init := s[..|s| - 1];
      var a := WalkStack(kids, kids[x.index], h - 1);
      var b := WalkStack(kids, init, h);
      var w := WalkStack(kids, s, h);
      assert Bounded(kids, x, h);
      assert Walk(kids, x, h) == [x] + a;
      assert w == [x] + a + b;
      forall j | 0 <= j < |kids[x.index]|
        ensures kids[x.index][j].index < |nodes| && nodes[kids[x.index][j].index].parent == Some(x)
      {
        assert nodes[x.index].id == x;
      }
      WalkStackParentsEarlier(nodes, kids[x.index], h - 1, seen + {x});
      forall j | 0 <= j < |init|
        ensures init[j].index < |nodes| && nodes[init[j].index].parent.Some? && nodes[init[j].index].parent.value in seen
      {
        assert init[j] == s[j];
      }
      WalkStackParentsEarlier(nodes, init, h, seen);
      forall k | 0 <= k < |w| ensures ParentEarlier(nodes, w, k, seen) {
        if k == 0 {
          assert w[0] == x;
        } else if k <= |a| {
          assert w[k] == a[k - 1];
          assert ParentEarlier(nodes, a, k - 1, seen + {x});
          var p := nodes[w[k].index].parent.value;
          if p == x {
            assert w[..k][0] == x;
          } else if p !in seen {
            var i :| 0 <= i < k - 1 && a[..k - 1][i] == p;
            assert w[..k][i + 1] == p;
          }
        } else {
          var k' := k - 1 - |a|;
          assert w[k] == b[k'];
          assert ParentEarlier(nodes, b, k', seen);
          var p := nodes[w[k].index].parent.value;
          if p !in seen {
            var i :| 0 <= i < k' && b[..k'][i] == p;
            assert w[..k][i + 1 + |a|] == p;
          }
        }
      }
    }
  }

  /// The descendant walk from `id` starts at `id`, and every later node's
  /// parent was emitted before it. This is what makes the cached whole-tree
  /// forward kinematics coherent.
  lemma ParentsFirst<T>(nodes: seq<IdNode<T>>, id: NodeId, h: nat)
    requires WellIndexed(nodes) && ChildrenPointBack(nodes)
    requires Bounded(Kids(nodes), id, h)
    ensures Walk(Kids(nodes), id, h)[0] == id
    ensures forall k :: 0 < k < |Walk(Kids(nodes), id, h)| ==>
              Walk(Kids(nodes), id, h)[k].index < |nodes| &&
              nodes[Walk(Kids(nodes), id, h)[k].index].parent.Some? &&
              nodes[Walk(Kids(nodes), id, h)[k].index].parent.value in Walk(Kids(nodes), id, h)[..k]
  {
    var kids := Kids(nodes);
    var a := WalkStack(kids, kids[id.index], h - 1);
    var w := Walk(kids, id, h);
    assert w == [id] + a;
    forall j | 0 <= j < |kids[id.index]|
      ensures kids[id.index][j].index < |nodes| && nodes[kids[id.index][j].index].parent == Some(id)
    {
      assert nodes[id.index].id == id;
    }
    WalkStackParentsEarlier(nodes, kids[id.index], h - 1, {id});
    forall k | 0 < k < |w|
      ensures w[k].index < |nodes| && nodes[w[k].index].parent.Some? && nodes[w[k].index].parent.value in w[..k]
    {
      assert w[k] == a[k - 1];
      assert ParentEarlier(nodes, a, k - 1, {id});
      var p := nodes[w[k].index].parent.value;
      if p == id {
        assert w[..k][0] == id;
      } else {
        var i :| 0 <= i < k - 1 && a[..k - 1][i] == p;
        assert w[..k][i + 1] == p;
      }
    }
  }

  // ---------------------------------------------------------------------
  // Exactly once from the root.
  // ---------------------------------------------------------------------

  /// The n-th ancestor of `x` (the 0-th is `x` itself), if the parent
  /// chain is that long.
  ghost function AncestorAt<T>(nodes: seq<IdNode<T>>, x: NodeId, n: nat): Option<NodeId>
    decreases n
  {
    if x.index >= |nodes| then None
    else if n == 0 then Some(x)
    else match nodes[x.index].parent
      case None => None
      case Some(p) => AncestorAt(nodes, p, n - 1)
  }

  lemma {:induction false} AncestorAtNext<T>(nodes: seq<IdNode<T>>, x: NodeId, n: nat, a: NodeId, p: NodeId)
    requires AncestorAt(nodes, x, n) == Some(a)
    requires a.index < |nodes| && nodes[a.index].parent == Some(p) && p.index < |nodes|
    ensures AncestorAt(nodes, x, n + 1) == Some(p)
    decreases n
  {
    if n > 0 {
      AncestorAtNext(nodes, nodes[x.index].parent.value, n - 1, a, p);
    }
  }

  /// The n-th ancestor of a node of depth d has depth d - n.
  lemma {:induction false} AncestorAtDepth<T>(nodes: seq<IdNode<T>>, x: NodeId, n: nat, a: NodeId, d: nat)
    requires AncestorAt(nodes, x, n) == Some(a) && HasDepth(nodes, x, d)
    ensures n <= d && HasDepth(nodes, a, d - n)
    decreases n
  {
    if n > 0 {
      AncestorAtDepth(nodes, nodes[x.index].parent.value, n - 1, a, d - 1);
    }
  }

  /// The ancestor at a node's depth is parentless.
  lemma {:induction false} AncestorAtDepthIsParentless<T>(nodes: seq<IdNode<T>>, x: NodeId, d: nat)
    requires HasDepth(nodes, x, d)
    ensures AncestorAt(nodes, x, d).Some?
    ensures AncestorAt(nodes, x, d).value.index < |nodes|
    ensures nodes[AncestorAt(nodes, x, d).value.index].parent.None?
    decreases d
  {
    if d > 0 {
      AncestorAtDepthIsParentless(nodes, nodes[x.index].parent.value, d - 1);
    }
  }

  lemma {:induction false} InWalkIsDescendant<T>(nodes: seq<IdNode<T>>, v: NodeId, h: nat, y: NodeId) returns (n: nat)
    requires WellIndexed(nodes) && ChildrenPointBack(nodes)
    requires Bounded(Kids(nodes), v, h) && y in Walk(Kids(nodes), v, h)
    ensures AncestorAt(nodes, y, n) == Some(v)
    decreases h, 0
  {
    var kids := Kids(nodes);
    var cs := kids[v.index];
    assert Walk(kids, v, h) == [v] + WalkStack(kids, cs, h - 1);
    if y == v {
      n := 0;
    } else {
      var j, m := InWalkStackIsDescendant(nodes, cs, h - 1, y);
      assert nodes[cs[j].index].parent == Some(NodeId(v.index));
      AncestorAtNext(nodes, y, m, cs[j], v);
      n := m + 1;
    }
  }

  lemma {:induction false} InWalkStackIsDescendant<T>(nodes: seq<IdNode<T>>, s: seq<NodeId>, h: nat, y: NodeId)
    returns (j: nat, n: nat)
    requires WellIndexed(nodes) && ChildrenPointBack(nodes)
    requires AllBounded(Kids(nodes), s, h) && y in WalkStack(Kids(nodes), s, h)
    ensures j < |s| && AncestorAt(nodes, y, n) == Some(s[j])
    decreases h, 1, |s|
  {
    var kids := Kids(nodes);
    var x := s[|s| - 1];
    var init := s[..|s| - 1];
    if y in Walk(kids, x, h) {
      n := InWalkIsDescendant(nodes, x, h, y);
      j := |s| - 1;
    } else {
      assert AllBounded(kids, init, h) by {
        forall i | 0 <= i < |init| ensures Bounded(kids, init[i], h) { assert init[i] == s[i]; }
      }
      j, n := InWalkStackIsDescendant(nodes, init, h, y);
      assert init[j] == s[j];
    }
  }

  lemma {:induction false} StackMemberInWalkStack(kids: seq<seq<NodeId>>, s: seq<NodeId>, h: nat, c: NodeId)
    requires AllBounded(kids, s, h) && c in s
    ensures c in WalkStack(kids, s, h)
    decreases |s|
  {
    var x := s[|s| - 1];
    var init := s[..|s| - 1];
    assert Walk(kids, x, h)[0] == x;
    if c != x {
      assert c in init by {
        var i :| 0 <= i < |s| && s[i] == c;
        assert init[i] == c;
      }
      assert AllBounded(kids, init, h) by {
        forall i | 0 <= i < |init| ensures Bounded(kids, init[i], h) { assert init[i] == s[i]; }
      }
      StackMemberInWalkStack(kids, init, h, c);
    }
  }

  lemma {:induction false} ChildInWalk(kids: seq<seq<NodeId>>, v: NodeId, h: nat, p: NodeId, c: NodeId)
    requires Bounded(kids, v, h) && p in Walk(kids, v, h)
    requires p.index < |kids| && c in kids[p.index]
    ensures c in Walk(kids, v, h)
    decreases h, 0
  {
    assert Walk(kids, v, h) == [v] + WalkStack(kids, kids[v.index], h - 1);
    if p == v {
      StackMemberInWalkStack(kids, kids[v.index], h - 1, c);
    } else {
      ChildInWalkStack(kids, kids[v.index], h - 1, p, c);
    }
  }

  lemma {:induction false} ChildInWalkStack(kids: seq<seq<NodeId>>, s: seq<NodeId>, h: nat, p: NodeId, c: NodeId)
    requires AllBounded(kids, s, h) && p in WalkStack(kids, s, h)
    requires p.index < |kids| && c in kids[p.index]
    ensures c in WalkStack(kids, s, h)
    decreases h, 1, |s|
  {
    var x := s[|s| - 1];
    var init := s[..|s| - 1];
    if p in Walk(kids, x, h) {
      ChildInWalk(kids, x, h, p, c);
    } else {
      assert AllBounded(kids, init, h) by {
        forall i | 0 <= i < |init| ensures Bounded(kids, init[i], h) { assert init[i] == s[i]; }
      }
      ChildInWalkStack(kids, init, h, p, c);
    }
  }

  /// Every node that has `v` among its ancestors is reached by the walk
  /// from `v`.
  lemma {:induction false} DescendantInWalk<T>(nodes: seq<IdNode<T>>, v: NodeId, h: nat, y: NodeId, n: nat)
    requires WellIndexed(nodes) && ParentsListChildren(nodes)
    requires Bounded(Kids(nodes), v, h) && AncestorAt(nodes, y, n) == Some(v)
    ensures y in Walk(Kids(nodes), v, h)
    decreases n
  {
    if n == 0 {
      assert Walk(Kids(nodes), v, h)[0] == v;
    } else {
      var p := nodes[y.index].parent.value;
      DescendantInWalk(nodes, v, h, p, n - 1);
      assert NodeId(y.index) == y;
      ChildInWalk(Kids(nodes), v, h, p, y);
    }
  }

  lemma DistinctConcat<X>(a: seq<X>, b: seq<X>)
    requires Distinct(a) && Distinct(b) && forall y :: y in a ==> y !in b
    ensures Distinct(a + b)
  {
    forall i, j | 0 <= i < j < |a + b| ensures (a + b)[i] != (a + b)[j] {
      if i < |a| && j >= |a| {
        assert (a + b)[i] in a && (a + b)[j] in b;
      }
    }
  }

  /// Siblings have disjoint subtrees: a node below two children of the same
  /// parent forces the two children to be the same.
  lemma SiblingsShareNoDescendant<T>(nodes: seq<IdNode<T>>, v: NodeId, c1: NodeId, c2: NodeId, y: NodeId, n1: nat, n2: nat)
    requires TreeShaped(nodes) && v.index < |nodes|
    requires c1.index < |nodes| && nodes[c1.index].parent == Some(v)
    requires c2.index < |nodes| && nodes[c2.index].parent == Some(v)
    requires AncestorAt(nodes, y, n1) == Some(c1) && AncestorAt(nodes, y, n2) == Some(c2)
    ensures c1 == c2
  {
    assert Finite(nodes, NodeId(y.index)) && NodeId(y.index) == y;
    var dy := Depth(nodes, y);
    assert Finite(nodes, NodeId(v.index)) && NodeId(v.index) == v;
    var dv := Depth(nodes, v);
    AncestorAtDepth(nodes, y, n1, c1, dy);
    AncestorAtDepth(nodes, y, n2, c2, dy);
    assert HasDepth(nodes, c1, dv + 1) && HasDepth(nodes, c2, dv + 1);
    DepthUnique(nodes, c1, dy - n1, dv + 1);
    DepthUnique(nodes, c2, dy - n2, dv + 1);
  }

  lemma {:induction false} WalkDistinct<T>(nodes: seq<IdNode<T>>, v: NodeId, h: nat)
    requires TreeShaped(nodes) && Bounded(Kids(nodes), v, h)
    ensures Distinct(Walk(Kids(nodes), v, h))
    decreases h, 0
  {
    var kids := Kids(nodes);
    var cs := kids[v.index];
    forall j | 0 <= j < |cs| ensures cs[j].index < |nodes| && nodes[cs[j].index].parent == Some(v) {
      assert NodeId(v.index) == v;
    }
    WalkStackDistinct(nodes, cs, h - 1, v);
    var rest := WalkStack(kids, cs, h - 1);
    if v in rest {
      var j, n := InWalkStackIsDescendant(nodes, cs, h - 1, v);
      assert Finite(nodes, NodeId(v.index)) && NodeId(v.index) == v;
      var dv := Depth(nodes, v);
      AncestorAtDepth(nodes, v, n, cs[j], dv);
      assert HasDepth(nodes, cs[j], dv + 1);
      DepthUnique(nodes, cs[j], dv - n, dv + 1);
      assert false;
    }
    DistinctConcat([v], rest);
  }

  lemma {:induction false} WalkStackDistinct<T>(nodes: seq<IdNode<T>>, s: seq<NodeId>, h: nat, v: NodeId)
    requires TreeShaped(nodes) && AllBounded(Kids(nodes), s, h) && Distinct(s) && v.index < |nodes|
    requires forall j :: 0 <= j < |s| ==> s[j].index < |nodes| && nodes[s[j].index].parent == Some(v)
    ensures Distinct(WalkStack(Kids(nodes), s, h))
    decreases h, 1, |s|
  {
    if s != [] {
      var kids := Kids(nodes);
      var x := s[|s| - 1];
      var init := s[..|s| - 1];
      assert forall i :: 0 <= i < |init| ==> init[i] == s[i];
      WalkDistinct(nodes, x, h);
      WalkStackDistinct(nodes, init, h, v);
      forall y | y in Walk(kids, x, h) ensures y !in WalkStack(kids, init, h) {
        if y in WalkStack(kids, init, h) {
          var n1 := InWalkIsDescendant(nodes, x, h, y);
          var j, n2 := InWalkStackIsDescendant(nodes, init, h, y);
          SiblingsShareNoDescendant(nodes, v, x, init[j], y, n1, n2);
          assert false;
        }
      }
      DistinctConcat(Walk(kids, x, h), WalkStack(kids, init, h));
    }
  }

  /// In a well-formed tree, the descendant walk from the root emits every
  /// node, only nodes of the arena, and none twice.
  lemma RootWalkVisitsEveryNodeOnce<T>(nodes: seq<IdNode<T>>, root: NodeId, h: nat)
    requires TreeShaped(nodes)
    requires root.index < |nodes| && nodes[root.index].parent.None?
    requires forall i :: 0 <= i < |nodes| && nodes[i].parent.None? ==> i == root.index
    requires Bounded(Kids(nodes), root, h)
    ensures forall k :: 0 <= k < |Walk(Kids(nodes), root, h)| ==> Walk(Kids(nodes), root, h)[k].index < |nodes|
    ensures forall i :: 0 <= i < |nodes| ==> NodeId(i) in Walk(Kids(nodes), root, h)
    ensures Distinct(Walk(Kids(nodes), root, h))
  {
    var w := Walk(Kids(nodes), root, h);
    forall k | 0 <= k < |w| ensures w[k].index < |nodes| {
      var n := InWalkIsDescendant(nodes, root, h, w[k]);
    }
    forall i | 0 <= i < |nodes| ensures NodeId(i) in w {
      var d := Depth(nodes, NodeId(i));
      AncestorAtDepthIsParentless(nodes, NodeId(i), d);
      assert AncestorAt(nodes, NodeId(i), d) == Some(root);
      DescendantInWalk(nodes, root, h, NodeId(i), d);
    }
    WalkDistinct(nodes, root, h);
  }

  // ---------------------------------------------------------------------
  // In a well-formed tree every subtree is finite.
  // ---------------------------------------------------------------------

  /// The i-th entry of a node's ancestor chain has depth d - i.
  lemma {:induction false} AncestorIdsDepths<T>(nodes: seq<IdNode<T>>, id: NodeId, d: nat)
    requires HasDepth(nodes, id, d)
    ensures forall i :: 0 <= i <= d ==> HasDepth(nodes, AncestorIds(nodes, id, d)[i], d - i)
    decreases d
  {
    var r := AncestorIds(nodes, id, d);
    if d > 0 {
      var p := nodes[id.index].parent.value;
      AncestorIdsDepths(nodes, p, d - 1);
      assert r == [id] + AncestorIds(nodes, p, d - 1);
      forall i | 0 < i <= d ensures HasDepth(nodes, r[i], d - i) {
        assert r[i] == AncestorIds(nodes, p, d - 1)[i - 1];
      }
    }
  }

  /// Pigeonhole: distinct numbers below n are at most n.
  lemma {:induction false} DistinctBelow(xs: seq<nat>, n: nat)
    requires Distinct(xs) && forall i :: 0 <= i < |xs| ==> xs[i] < n
    ensures |xs| <= n
    decreases n
  {
    if xs != [] {
      assert xs[0] < n;
      if k :| 0 <= k < |xs| && xs[k] == n - 1 {
        var ys := xs[..k] + xs[k + 1..];
        assert forall i :: 0 <= i < |ys| ==> ys[i] == if i < k then xs[i] else xs[i + 1];
        DistinctBelow(ys, n - 1);
      } else {
        DistinctBelow(xs, n - 1);
      }
    }
  }

  /// A parent chain visits distinct nodes, so it is shorter than the arena.
  lemma DepthBelowCount<T>(nodes: seq<IdNode<T>>, id: NodeId, d: nat)
    requires HasDepth(nodes, id, d)
    ensures d < |nodes|
  {
    var r := AncestorIds(nodes, id, d);
    AncestorIdsDepths(nodes, id, d);
    var xs := seq(d + 1, i requires 0 <= i <= d => r[i].index);
    forall i, j | 0 <= i < j < |xs| ensures xs[i] != xs[j] {
      if xs[i] == xs[j] {
        assert r[i] == NodeId(xs[i]) == r[j];
        DepthUnique(nodes, r[i], d - i, d - j);
      }
    }
    DistinctBelow(xs, |nodes|);
  }

  lemma {:induction false} BoundedBelowDepth<T>(nodes: seq<IdNode<T>>, v: NodeId, dv: nat)
    requires WellIndexed(nodes) && ChildrenPointBack(nodes) && HasDepth(nodes, v, dv)
    ensures dv < |nodes| && Bounded(Kids(nodes), v, |nodes| - dv)
    decreases |nodes| - dv
  {
    DepthBelowCount(nodes, v, dv);
    var cs := Kids(nodes)[v.index];
    forall j | 0 <= j < |cs| ensures Bounded(Kids(nodes), cs[j], |nodes| - dv - 1) {
      assert NodeId(v.index) == v;
      assert HasDepth(nodes, cs[j], dv + 1);
      BoundedBelowDepth(nodes, cs[j], dv + 1);
    }
  }

  /// Links that agree both ways and finite parent chains make every
  /// subtree finite, so the descendant iterator always ends.
  lemma SubtreesFinite<T>(nodes: seq<IdNode<T>>, v: NodeId)
    requires TreeShaped(nodes) && v.index < |nodes|
    ensures FiniteSubtree(nodes, v)
  {
    assert Finite(nodes, NodeId(v.index)) && NodeId(v.index) == v;
    BoundedBelowDepth(nodes, v, Depth(nodes, v));
  }

  /// `iter_descendants` from the only root of a well-formed tree yields
  /// every node exactly once, and with it the parent before the child.
  lemma RootDescendantsEnumerateTree<T>(nodes: seq<IdNode<T>>, root: NodeId)
    requires TreeShaped(nodes)
    requires root.index < |nodes| && nodes[root.index].parent.None?
    requires forall i :: 0 <= i < |nodes| && nodes[i].parent.None? ==> i == root.index
    ensures FiniteSubtree(nodes, root)
    ensures |DescendantIds(nodes, root)| == |nodes|
    ensures DescendantIds(nodes, root)[0] == root
    ensures forall i :: 0 <= i < |nodes| ==> NodeId(i) in DescendantIds(nodes, root)
    ensures Distinct(DescendantIds(nodes, root))
    ensures forall k :: 0 < k < |nodes| ==>
              DescendantIds(nodes, root)[k].index < |nodes| &&
              nodes[DescendantIds(nodes, root)[k].index].parent.Some? &&
              nodes[DescendantIds(nodes, root)[k].index].parent.value in DescendantIds(nodes, root)[..k]
  {
    SubtreesFinite(nodes, root);
    var h :| Bounded(Kids(nodes), root, h);
    WalkHeightIrrelevant(Kids(nodes), root);
    var w := Walk(Kids(nodes), root, h);
    assert DescendantIds(nodes, root) == w;
    RootWalkVisitsEveryNodeOnce(nodes, root, h);
    ParentsFirst(nodes, root, h);
    var xs := seq(|w|, k requires 0 <= k < |w| => w[k].index);
    DistinctBelow(xs, |nodes|);
    var ys := seq(|nodes|, i requires 0 <= i < |nodes| => IndexIn(w, NodeId(i)));
    forall i, j | 0 <= i < j < |ys| ensures ys[i] != ys[j] {
      assert w[ys[i]] == NodeId(i) && w[ys[j]] == NodeId(j);
    }
    DistinctBelow(ys, |w|);
  }

  /// A position of `x` in `w`.
  function IndexIn<X(==)>(w: seq<X>, x: X): (k: nat)
    requires x in w
    ensures k < |w| && w[k] == x
  {
    if w[0] == x then 0 else 1 + IndexIn(w[1..], x)
  }

  // ---------------------------------------------------------------------
  // The ancestor chain, reversed, is a path from a root down to the node.
  // ---------------------------------------------------------------------

  function Reversed<X>(s: seq<X>): (r: seq<X>)
    ensures |r| == |s| && forall i :: 0 <= i < |s| ==> r[i] == s[|s| - 1 - i]
  {
    if s == [] then [] else Reversed(s[1..]) + [s[0]]
  }

  /// Each entry after the first is a child of the entry before it, by
  /// both links.
  ghost predicate PathDown<T>(nodes: seq<IdNode<T>>, r: seq<NodeId>) {
    forall i, j :: 0 <= i && j == i + 1 < |r| ==>
      && r[i].index < |nodes| && r[j].index < |nodes|
      && nodes[r[j].index].parent == Some(r[i])
      && r[j] in nodes[r[i].index].children
  }

  /// Read backwards, what `iter_ancestors(id)` yields starts at a
  /// parentless node, ends at `id`, and walks down parent-to-child: the
  /// root-to-tip order of a kinematic chain.
  lemma RootToNodePath<T>(nodes: seq<IdNode<T>>, id: NodeId, d: nat)
    requires HasDepth(nodes, id, d) && ParentsListChildren(nodes)
    ensures |Reversed(AncestorIds(nodes, id, d))| == d + 1
    ensures Reversed(AncestorIds(nodes, id, d))[0].index < |nodes|
    ensures nodes[Reversed(AncestorIds(nodes, id, d))[0].index].parent.None?
    ensures Reversed(AncestorIds(nodes, id, d))[d] == id
    ensures PathDown(nodes, Reversed(AncestorIds(nodes, id, d)))
  {
    var a := AncestorIds(nodes, id, d);
    assert Reversed(a)[0] == a[d] && Reversed(a)[d] == a[0];
    assert forall i, j :: 0 <= i && j == i + 1 < |a| ==> nodes[a[i].index].parent == Some(a[j]);
    ReversedPath(nodes, a);
  }

  /// Reversing a child-to-parent chain gives a parent-to-child path.
  lemma ReversedPath<T>(nodes: seq<IdNode<T>>, a: seq<NodeId>)
    requires ParentsListChildren(nodes)
    requires forall i :: 0 <= i < |a| ==> a[i].index < |nodes|
    requires forall i, j :: 0 <= i && j == i + 1 < |a| ==> nodes[a[i].index].parent == Some(a[j])
    ensures PathDown(nodes, Reversed(a))
  {
    forall k | 0 <= k < |a| - 1
      ensures a[k] in nodes[a[k + 1].index].children
    {
      ListedByParent(nodes, a[k]);
    }
  }

  lemma ListedByParent<T>(nodes: seq<IdNode<T>>, c: NodeId)
    requires ParentsListChildren(nodes) && c.index < |nodes| && nodes[c.index].parent.Some?
    ensures c in nodes[nodes[c.index].parent.value.index].children
  {
    assert NodeId(c.index) == c;
  }
}
