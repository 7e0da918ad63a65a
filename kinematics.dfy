/// Forward kinematics and joint bookkeeping over the link arena of
/// src/idtree_links.rs, stated as functions on values: the specifications
/// the chain and tree containers are proved against, and what they
/// guarantee.
///
/// Rigid transforms and the link/joint operations live in other files and
/// another library; the core only composes transforms, asks a link for its
/// local transform, and asks a joint to take an angle. Those operations are
/// the fields of a `PoseModel`, so every result here holds for any choice
/// of them.
module Kinematics {
  import opened Idtree
  import opened IdtreeOrder

  datatype Range = Range(min: real, max: real)

  /// A joint: its name, its angle (present exactly when the joint is not
  /// fixed) and its optional limits.
  datatype Joint = Joint(name: string, angle: Option<real>, limits: Option<Range>)

  /// A link: its name, its joint, its fixed transform and the cached world
  /// transform written by the whole-tree forward kinematics.
  datatype Link<P> = Link(name: string, joint: Joint, transform: P, cache: Option<P>)

  datatype JointError = SizeMisMatch | JointRejected

  datatype Outcome = Ok | Err(error: JointError)

  /// The operations the core uses but does not define: the identity
  /// transform and `*` of the transform library, the local transform of a
  /// link computed from its fixed transform and joint state, and whether a
  /// joint accepts an angle.
  datatype PoseModel<!P> = PoseModel(
    identity: P,
    compose: (P, P) -> P,
    local: (P, Joint) -> P,
    accepts: (Joint, real) -> bool)

  type Arena<P> = seq<IdNode<Link<P>>>

  function LocalOf<P>(m: PoseModel<P>, l: Link<P>): P {
    m.local(l.transform, l.joint)
  }

  predicate HasJointAngle<P>(l: Link<P>) {
    l.joint.angle.Some?
  }

  predicate InArena<T>(nodes: seq<IdNode<T>>, ids: seq<NodeId>) {
    forall i :: 0 <= i < |ids| ==> ids[i].index < |nodes|
  }

  predicate Increasing(ids: seq<NodeId>) {
    forall a, b :: 0 <= a < b < |ids| ==> ids[a].index < ids[b].index
  }

  // ---------------------------------------------------------------------
  // Composition along a chain.
  // ---------------------------------------------------------------------

  /// `base * ps[0] * ... * ps[n-1]`, grouped from the left as repeated
  /// `*=` groups it.
  function Product<P>(m: PoseModel<P>, base: P, ps: seq<P>): P
    decreases |ps|
  {
    if ps == [] then base else m.compose(Product(m, base, ps[..|ps| - 1]), ps[|ps| - 1])
  }

  /// The local transforms of the links `ids` names, in that order.
  function Locals<P>(m: PoseModel<P>, nodes: Arena<P>, ids: seq<NodeId>): (ps: seq<P>)
    requires InArena(nodes, ids)
    ensures |ps| == |ids| && forall i :: 0 <= i < |ids| ==> ps[i] == LocalOf(m, nodes[ids[i].index].data)
  {
    seq(|ids|, i requires 0 <= i < |ids| => LocalOf(m, nodes[ids[i].index].data))
  }

  /// `scan(base, |acc, p| { *acc *= p; Some(*acc) })`: the running value is
  /// updated front to back.
  function Scan<P>(m: PoseModel<P>, base: P, ps: seq<P>): (r: seq<P>)
    ensures |r| == |ps|
    decreases |ps|
  {
    if ps == [] then [] else [m.compose(base, ps[0])] + Scan(m, m.compose(base, ps[0]), ps[1..])
  }

  lemma {:induction false} ProductFront<P>(m: PoseModel<P>, base: P, p: P, qs: seq<P>)
    ensures Product(m, m.compose(base, p), qs) == Product(m, base, [p] + qs)
    decreases |qs|
  {
    if qs != [] {
      ProductFront(m, base, p, qs[..|qs| - 1]);
      assert ([p] + qs)[..|[p] + qs| - 1] == [p] + qs[..|qs| - 1];
    } else {
      assert ([p] + qs)[..0] == [];
    }
  }

  /// The k-th value of the scan is the product of the first k + 1 poses.
  lemma {:induction false} ScanProducts<P>(m: PoseModel<P>, base: P, ps: seq<P>)
    ensures |Scan(m, base, ps)| == |ps|
    ensures forall k :: 0 <= k < |ps| ==> Scan(m, base, ps)[k] == Product(m, base, ps[..k + 1])
    decreases |ps|
  {
    if ps != [] {
      var b := m.compose(base, ps[0]);
      ScanProducts(m, b, ps[1..]);
      forall k | 0 <= k < |ps| ensures Scan(m, base, ps)[k] == Product(m, base, ps[..k + 1]) {
        if k == 0 {
          assert ps[..1][..0] == [];
        } else {
          ProductFront(m, base, ps[0], ps[1..][..k]);
          assert [ps[0]] + ps[1..][..k] == ps[..k + 1];
        }
      }
    }
  }

  ghost predicate Associative<P(!new)>(m: PoseModel<P>) {
    forall a, b, c :: m.compose(m.compose(a, b), c) == m.compose(a, m.compose(b, c))
  }

  /// When `*` is associative, a chain with base transform `b` yields `b`
  /// times what the same chain yields from the identity, provided the
  /// identity is a left unit.
  lemma {:induction false} ProductRebase<P(!new)>(m: PoseModel<P>, b: P, ps: seq<P>)
    requires Associative(m) && forall x :: m.compose(m.identity, x) == x
    requires ps != []
    ensures Product(m, b, ps) == m.compose(b, Product(m, m.identity, ps))
    decreases |ps|
  {
    var init := ps[..|ps| - 1];
    var last := ps[|ps| - 1];
    if init == [] {
      assert Product(m, m.identity, init) == m.identity;
    } else {
      ProductRebase(m, b, init);
    }
  }

  // ---------------------------------------------------------------------
  // Joint bookkeeping: selection, alignment and assignment.
  // ---------------------------------------------------------------------

  /// The ids among `ids` whose link has a joint angle, in order (the
  /// `filter(has_joint_angle)` of both containers).
  function JointIds<P>(nodes: Arena<P>, ids: seq<NodeId>): (js: seq<NodeId>)
    requires InArena(nodes, ids)
    ensures InArena(nodes, js) && |js| <= |ids|
    decreases |ids|
  {
    if ids == [] then []
    else
      var init := JointIds(nodes, ids[..|ids| - 1]);
      var x := ids[|ids| - 1];
      if HasJointAngle(nodes[x.index].data) then init + [x] else init
  }

  /// The selection keeps exactly the listed links that have a joint angle.
  lemma {:induction false} JointIdsSelects<P>(nodes: Arena<P>, ids: seq<NodeId>)
    requires InArena(nodes, ids)
    ensures forall x :: x in JointIds(nodes, ids) <==> x in ids && HasJointAngle(nodes[x.index].data)
    decreases |ids|
  {
    if ids != [] {
      var init := ids[..|ids| - 1];
      JointIdsSelects(nodes, init);
      assert ids == init + [ids[|ids| - 1]];
    }
  }

  /// The selection keeps the order of the list it selects from.
  lemma {:induction false} JointIdsKeepOrder<P>(nodes: Arena<P>, ids: seq<NodeId>)
    requires InArena(nodes, ids) && Increasing(ids)
    ensures Increasing(JointIds(nodes, ids))
    decreases |ids|
  {
    if ids != [] {
      var init := ids[..|ids| - 1];
      JointIdsKeepOrder(nodes, init);
      JointIdsSelects(nodes, init);
      var js := JointIds(nodes, init);
      var x := ids[|ids| - 1];
      forall y | y in js ensures y.index < x.index {
        var k :| 0 <= k < |init| && init[k] == y;
      }
    }
  }

  /// Selecting joints from a list where every link has one keeps the list.
  lemma {:induction false} AllJointsSelected<P>(nodes: Arena<P>, ids: seq<NodeId>)
    requires InArena(nodes, ids)
    requires forall i :: 0 <= i < |ids| ==> HasJointAngle(nodes[ids[i].index].data)
    ensures JointIds(nodes, ids) == ids
    decreases |ids|
  {
    if ids != [] {
      var init := ids[..|ids| - 1];
      var x := ids[|ids| - 1];
      assert forall i :: 0 <= i < |init| ==> init[i] == ids[i];
      AllJointsSelected(nodes, init);
      assert HasJointAngle(nodes[x.index].data);
      assert JointIds(nodes, ids) == JointIds(nodes, init) + [x];
      assert ids == init + [x];
    }
  }

  /// The joint angles of the links `ids` names (`filter_map(get_joint_angle)`).
  function AnglesOf<P>(nodes: Arena<P>, ids: seq<NodeId>): (as_: seq<real>)
    requires InArena(nodes, ids)
    ensures |as_| == |JointIds(nodes, ids)|
    ensures forall i :: 0 <= i < |as_| ==>
      nodes[JointIds(nodes, ids)[i].index].data.joint.angle == Some(as_[i])
    decreases |ids|
  {
    if ids == [] then []
    else
      var x := ids[|ids| - 1];
      match nodes[x.index].data.joint.angle
      case Some(a) => AnglesOf(nodes, ids[..|ids| - 1]) + [a]
      case None => AnglesOf(nodes, ids[..|ids| - 1])
  }

  function SetAngle<P>(nodes: Arena<P>, id: NodeId, a: real): Arena<P>
    requires id.index < |nodes|
  {
    var l := nodes[id.index].data;
    nodes[id.index := nodes[id.index].(data := l.(joint := l.joint.(angle := Some(a))))]
  }

  datatype Assigned<P> = Assigned(nodes: Arena<P>, outcome: Outcome)

  /// Assigning `angles[i]` to the joint of `ids[i]`, front to back; the
  /// first joint that rejects its angle stops the assignment with an error,
  /// and the assignments before it stay applied.
  function AssignAngles<P>(m: PoseModel<P>, nodes: Arena<P>, ids: seq<NodeId>, angles: seq<real>): (r: Assigned<P>)
    requires InArena(nodes, ids) && |ids| == |angles|
    ensures |r.nodes| == |nodes|
    decreases |ids|
  {
    if ids == [] then Assigned(nodes, Ok)
    else if !m.accepts(nodes[ids[0].index].data.joint, angles[0]) then Assigned(nodes, Err(JointRejected))
    else AssignAngles(m, SetAngle(nodes, ids[0], angles[0]), ids[1..], angles[1..])
  }

  /// Two arenas that differ at most in joint angles.
  ghost predicate SameButAngles<P>(a: Arena<P>, b: Arena<P>) {
    |a| == |b| &&
    forall i :: 0 <= i < |a| ==>
      b[i] == a[i].(data := a[i].data.(joint := a[i].data.joint.(angle := b[i].data.joint.angle)))
  }

  /// Assignment changes joint angles only, only of the listed links, and
  /// only to present angles; it fails only with a rejection.
  lemma {:induction false} AssignChangesOnlyListedAngles<P>(m: PoseModel<P>, nodes: Arena<P>, ids: seq<NodeId>, angles: seq<real>)
    requires InArena(nodes, ids) && |ids| == |angles|
    ensures SameButAngles(nodes, AssignAngles(m, nodes, ids, angles).nodes)
    ensures forall i :: 0 <= i < |nodes| && NodeId(i) !in ids ==> AssignAngles(m, nodes, ids, angles).nodes[i] == nodes[i]
    ensures forall i :: 0 <= i < |nodes| && nodes[i].data.joint.angle.Some? ==>
              AssignAngles(m, nodes, ids, angles).nodes[i].data.joint.angle.Some?
    ensures AssignAngles(m, nodes, ids, angles).outcome != Err(SizeMisMatch)
    decreases |ids|
  {
    if ids != [] && m.accepts(nodes[ids[0].index].data.joint, angles[0]) {
      var next := SetAngle(nodes, ids[0], angles[0]);
      AssignChangesOnlyListedAngles(m, next, ids[1..], angles[1..]);
      var r := AssignAngles(m, nodes, ids, angles).nodes;
      forall i | 0 <= i < |nodes| && NodeId(i) !in ids ensures r[i] == nodes[i] {
        assert NodeId(i) !in ids[1..];
        assert ids[0] != NodeId(i);
      }
    }
  }

  /// The index of the first listed joint that rejects its angle, or the
  /// list's length when all accept.
  function FirstRejected<P>(m: PoseModel<P>, nodes: Arena<P>, ids: seq<NodeId>, angles: seq<real>): (k: nat)
    requires InArena(nodes, ids) && |ids| == |angles|
    ensures k <= |ids|
    ensures forall i :: 0 <= i < k ==> m.accepts(nodes[ids[i].index].data.joint, angles[i])
    ensures k < |ids| ==> !m.accepts(nodes[ids[k].index].data.joint, angles[k])
    decreases |ids|
  {
    if ids == [] then 0
    else if !m.accepts(nodes[ids[0].index].data.joint, angles[0]) then 0
    else 1 + FirstRejected(m, nodes, ids[1..], angles[1..])
  }

  /// With no link listed twice: the assignment fails exactly when some
  /// joint rejects its angle; every joint before the first rejection holds
  /// its new angle, and the rejecting joint and all after it are untouched.
  lemma {:induction false} AssignStopsAtFirstRejection<P>(m: PoseModel<P>, nodes: Arena<P>, ids: seq<NodeId>, angles: seq<real>)
    requires InArena(nodes, ids) && |ids| == |angles| && Distinct(ids)
    ensures AssignAngles(m, nodes, ids, angles).outcome ==
      (if FirstRejected(m, nodes, ids, angles) == |ids| then Ok else Err(JointRejected))
    ensures forall i :: 0 <= i < FirstRejected(m, nodes, ids, angles) ==>
      AssignAngles(m, nodes, ids, angles).nodes[ids[i].index].data.joint.angle == Some(angles[i])
    ensures forall i :: FirstRejected(m, nodes, ids, angles) <= i < |ids| ==>
      AssignAngles(m, nodes, ids, angles).nodes[ids[i].index] == nodes[ids[i].index]
    decreases |ids|
  {
    if ids != [] && m.accepts(nodes[ids[0].index].data.joint, angles[0]) {
      var x := ids[0];
      var next := SetAngle(nodes, x, angles[0]);
      var tail, tailAngles := ids[1..], angles[1..];
      var r := AssignAngles(m, nodes, ids, angles);
      assert r == AssignAngles(m, next, tail, tailAngles);
      forall i | 0 <= i < |tail| ensures next[tail[i].index] == nodes[tail[i].index] {
        assert tail[i] == ids[i + 1] && ids[i + 1] != ids[0];
        assert NodeId(tail[i].index) == tail[i] && NodeId(x.index) == x;
      }
      FirstRejectedOnUntouched(m, nodes, next, tail, tailAngles);
      var k := FirstRejected(m, nodes, tail, tailAngles);
      assert FirstRejected(m, nodes, ids, angles) == k + 1;
      assert Distinct(tail) by {
        forall a, b | 0 <= a < b < |tail| ensures tail[a] != tail[b] { assert tail[a] == ids[a + 1] && tail[b] == ids[b + 1]; }
      }
      AssignStopsAtFirstRejection(m, next, tail, tailAngles);
      AssignChangesOnlyListedAngles(m, next, tail, tailAngles);
      assert x !in tail by {
        forall a | 0 <= a < |tail| ensures tail[a] != x { assert tail[a] == ids[a + 1]; }
      }
      assert NodeId(x.index) == x;
      assert r.nodes[x.index] == next[x.index];
      forall i | 0 <= i < k + 1 ensures r.nodes[ids[i].index].data.joint.angle == Some(angles[i]) {
        if i > 0 { assert ids[i] == tail[i - 1] && angles[i] == tailAngles[i - 1]; }
      }
      forall i | k + 1 <= i < |ids| ensures r.nodes[ids[i].index] == nodes[ids[i].index] {
        assert ids[i] == tail[i - 1];
      }
    }
  }

  lemma {:induction false} FirstRejectedOnUntouched<P>(m: PoseModel<P>, a: Arena<P>, b: Arena<P>, ids: seq<NodeId>, angles: seq<real>)
    requires InArena(a, ids) && InArena(b, ids) && |ids| == |angles|
    requires forall i :: 0 <= i < |ids| ==> b[ids[i].index] == a[ids[i].index]
    ensures FirstRejected(m, b, ids, angles) == FirstRejected(m, a, ids, angles)
    decreases |ids|
  {
    if ids != [] {
      FirstRejectedOnUntouched(m, a, b, ids[1..], angles[1..]);
    }
  }

  /// Writing back the angles that are already there changes nothing, when
  /// every joint accepts its own angle.
  lemma {:induction false} AssignCurrentAnglesIsNoOp<P>(m: PoseModel<P>, nodes: Arena<P>, ids: seq<NodeId>, angles: seq<real>)
    requires InArena(nodes, ids) && |ids| == |angles|
    requires forall i :: 0 <= i < |ids| ==>
      nodes[ids[i].index].data.joint.angle == Some(angles[i]) && m.accepts(nodes[ids[i].index].data.joint, angles[i])
    ensures AssignAngles(m, nodes, ids, angles) == Assigned(nodes, Ok)
    decreases |ids|
  {
    if ids != [] {
      assert SetAngle(nodes, ids[0], angles[0]) == nodes;
      AssignCurrentAnglesIsNoOp(m, nodes, ids[1..], angles[1..]);
    }
  }

  /// `set_joint_angles(get_joint_angles())` succeeds and changes nothing
  /// when every joint accepts its current angle.
  lemma SetCurrentAnglesRoundTrip<P>(m: PoseModel<P>, nodes: Arena<P>, ids: seq<NodeId>)
    requires InArena(nodes, ids)
    requires forall x :: x in ids && HasJointAngle(nodes[x.index].data) ==>
      m.accepts(nodes[x.index].data.joint, nodes[x.index].data.joint.angle.value)
    ensures |AnglesOf(nodes, ids)| == |JointIds(nodes, ids)|
    ensures AssignAngles(m, nodes, JointIds(nodes, ids), AnglesOf(nodes, ids)) == Assigned(nodes, Ok)
  {
    var js := JointIds(nodes, ids);
    var angles := AnglesOf(nodes, ids);
    JointIdsSelects(nodes, ids);
    forall i | 0 <= i < |js|
      ensures nodes[js[i].index].data.joint.angle == Some(angles[i]) && m.accepts(nodes[js[i].index].data.joint, angles[i])
    {
      assert js[i] in js;
    }
    AssignCurrentAnglesIsNoOp(m, nodes, js, angles);
  }

  /// The number of listed-in-creation-order links that have a joint angle
  /// is the number of nodes whose joint has one.
  lemma {:induction false} JointCount<P>(nodes: Arena<P>, n: nat)
    requires n <= |nodes|
    ensures |JointIds(nodes, AllIds(n))| == |set i | 0 <= i < n && HasJointAngle(nodes[i].data)|
    decreases n
  {
    if n > 0 {
      JointCount(nodes, n - 1);
      assert AllIds(n)[..n - 1] == AllIds(n - 1);
      JointSetStep(nodes, n);
    }
  }

  /// The jointed positions below `n`, from those below `n - 1`.
  lemma JointSetStep<P>(nodes: Arena<P>, n: nat)
    requires 0 < n <= |nodes|
    ensures n - 1 !in set i | 0 <= i < n - 1 && HasJointAngle(nodes[i].data)
    ensures HasJointAngle(nodes[n - 1].data) ==>
      (set i | 0 <= i < n && HasJointAngle(nodes[i].data)) == (set i | 0 <= i < n - 1 && HasJointAngle(nodes[i].data)) + {n - 1}
    ensures !HasJointAngle(nodes[n - 1].data) ==>
      (set i | 0 <= i < n && HasJointAngle(nodes[i].data)) == (set i | 0 <= i < n - 1 && HasJointAngle(nodes[i].data))
  {
  }

  /// The names of the links `ids` names, in order.
  function NamesOf<P>(nodes: Arena<P>, ids: seq<NodeId>): (names: seq<string>)
    requires InArena(nodes, ids)
    ensures |names| == |ids| && forall i :: 0 <= i < |ids| ==> names[i] == nodes[ids[i].index].data.name
  {
    seq(|ids|, i requires 0 <= i < |ids| => nodes[ids[i].index].data.name)
  }

  /// The first position in `ids` whose link is called `name`, or `|ids|`.
  function FirstNamed<P>(nodes: Arena<P>, ids: seq<NodeId>, name: string): (k: nat)
    requires InArena(nodes, ids)
    ensures k <= |ids|
    ensures k < |ids| ==> nodes[ids[k].index].data.name == name
    ensures forall i :: 0 <= i < k ==> nodes[ids[i].index].data.name != name
    decreases |ids|
  {
    if ids == [] then 0
    else if nodes[ids[0].index].data.name == name then 0
    else 1 + FirstNamed(nodes, ids[1..], name)
  }

  /// How many links of the chain `calc_end_transform` composes: up to and
  /// including the first one called `endLinkName`, or all of them.
  function EndCount<P>(nodes: Arena<P>, ids: seq<NodeId>, endLinkName: Option<string>): (k: nat)
    requires InArena(nodes, ids)
    ensures k <= |ids|
  {
    match endLinkName
    case None => |ids|
    case Some(name) =>
      var j := FirstNamed(nodes, ids, name);
      if j < |ids| then j + 1 else |ids|
  }

  /// The chain stops right after the first link called `name`.
  lemma EndCountAtFirstMatch<P>(nodes: Arena<P>, ids: seq<NodeId>, name: string, i: nat)
    requires InArena(nodes, ids) && i < |ids| && nodes[ids[i].index].data.name == name
    requires forall j :: 0 <= j < i ==> nodes[ids[j].index].data.name != name
    ensures EndCount(nodes, ids, Some(name)) == i + 1
  {
    var k := FirstNamed(nodes, ids, name);
    assert !(k < i) && !(k > i);
  }

  /// Without a link of the end name, the chain runs to its last link.
  lemma EndCountWithoutMatch<P>(nodes: Arena<P>, ids: seq<NodeId>, endLinkName: Option<string>)
    requires InArena(nodes, ids)
    requires endLinkName.Some? ==> forall j :: 0 <= j < |ids| ==> nodes[ids[j].index].data.name != endLinkName.value
    ensures EndCount(nodes, ids, endLinkName) == |ids|
  {
  }

  /// The whole product is the last value of the scan.
  lemma LastScanIsProduct<P>(m: PoseModel<P>, base: P, ps: seq<P>)
    ensures ps[..|ps|] == ps
    ensures ps != [] ==> Scan(m, base, ps)[|ps| - 1] == Product(m, base, ps)
  {
    assert ps[..|ps|] == ps;
    if ps != [] {
      ScanProducts(m, base, ps);
      assert ps[..|ps| - 1 + 1] == ps;
    }
  }

  // ---------------------------------------------------------------------
  // Whole-tree forward kinematics.
  // ---------------------------------------------------------------------

  /// The world transform of a link of depth d: its parent's world
  /// transform times its local transform, the identity standing in for the
  /// parent of a root.
  ghost function WorldAt<P>(m: PoseModel<P>, nodes: Arena<P>, id: NodeId, d: nat): P
    requires HasDepth(nodes, id, d)
    decreases d
  {
    match nodes[id.index].parent
    case None => m.compose(m.identity, LocalOf(m, nodes[id.index].data))
    case Some(p) => m.compose(WorldAt(m, nodes, p, d - 1), LocalOf(m, nodes[id.index].data))
  }

  ghost function World<P>(m: PoseModel<P>, nodes: Arena<P>, id: NodeId): P
    requires Finite(nodes, id)
  {
    WorldAt(m, nodes, id, Depth(nodes, id))
  }

  lemma WorldStep<P>(m: PoseModel<P>, nodes: Arena<P>, id: NodeId)
    requires Finite(nodes, id)
    ensures nodes[id.index].parent.None? ==>
      World(m, nodes, id) == m.compose(m.identity, LocalOf(m, nodes[id.index].data))
    ensures nodes[id.index].parent.Some? ==>
      Finite(nodes, nodes[id.index].parent.value) &&
      World(m, nodes, id) == m.compose(World(m, nodes, nodes[id.index].parent.value), LocalOf(m, nodes[id.index].data))
  {
    var d := Depth(nodes, id);
    if nodes[id.index].parent.Some? {
      var p := nodes[id.index].parent.value;
      assert HasDepth(nodes, p, d - 1);
      DepthUnique(nodes, p, d - 1, Depth(nodes, p));
    }
  }

  /// The parent transform the sweep reads: the parent's cache, or the
  /// identity for a root or an uncached parent.
  function ParentPose<P>(m: PoseModel<P>, nodes: Arena<P>, id: NodeId): P
    requires WellIndexed(nodes) && id.index < |nodes|
  {
    match nodes[id.index].parent
    case None => m.identity
    case Some(p) =>
      match nodes[p.index].data.cache
      case Some(c) => c
      case None => m.identity
  }

  function SetCache<P>(nodes: Arena<P>, id: NodeId, t: P): Arena<P>
    requires id.index < |nodes|
  {
    nodes[id.index := nodes[id.index].(data := nodes[id.index].data.(cache := Some(t)))]
  }

  datatype Swept<P> = Swept(nodes: Arena<P>, poses: seq<P>)

  /// The sweep of `calc_link_transforms` over the visiting order `w`: each
  /// link gets parent pose times local transform, written to its cache and
  /// emitted.
  function Sweep<P>(m: PoseModel<P>, nodes: Arena<P>, w: seq<NodeId>): (r: Swept<P>)
    requires WellIndexed(nodes) && InArena(nodes, w)
    ensures |r.nodes| == |nodes| && |r.poses| == |w|
    decreases |w|
  {
    if w == [] then Swept(nodes, [])
    else
      var t := m.compose(ParentPose(m, nodes, w[0]), LocalOf(m, nodes[w[0].index].data));
      var next := SetCache(nodes, w[0], t);
      assert WellIndexed(next);
      var r := Sweep(m, next, w[1..]);
      Swept(r.nodes, [t] + r.poses)
  }

  /// Part way through the sweep over `w` from `nodes0`: `poses` have been
  /// emitted, the arena is `cur`, and the sweep over `rest` is still to do.
  ghost predicate SweepLeaves<P>(m: PoseModel<P>, nodes0: Arena<P>, w: seq<NodeId>, cur: Arena<P>, rest: seq<NodeId>, poses: seq<P>)
  {
    && WellIndexed(nodes0) && InArena(nodes0, w) && WellIndexed(cur) && InArena(cur, rest)
    && Sweep(m, nodes0, w) == Swept(Sweep(m, cur, rest).nodes, poses + Sweep(m, cur, rest).poses)
  }

  /// One step of the sweep: writing the first link's transform to its
  /// cache and emitting it leaves the sweep of the rest of the order to do.
  lemma SweepAdvance<P>(m: PoseModel<P>, nodes0: Arena<P>, w: seq<NodeId>, cur: Arena<P>, rest: seq<NodeId>, poses: seq<P>, t: P)
    requires SweepLeaves(m, nodes0, w, cur, rest, poses) && rest != []
    requires t == StepPose(m, cur, rest[0])
    ensures SweepLeaves(m, nodes0, w, SetCache(cur, rest[0], t), rest[1..], poses + [t])
  {
    var tail := Sweep(m, SetCache(cur, rest[0], t), rest[1..]);
    assert poses + ([t] + tail.poses) == (poses + [t]) + tail.poses;
  }

  /// The state of the sweep driven by a descendant iterator whose stack is
  /// `stack`: the arena `cur` has the shape of `nodes0`, and the sweep of
  /// what the iterator still yields is all that is left to do.
  ghost predicate SweepState<P>(m: PoseModel<P>, nodes0: Arena<P>, w: seq<NodeId>, h: nat, cur: Arena<P>, stack: seq<NodeId>, poses: seq<P>)
  {
    && WellIndexed(cur) && |cur| == |nodes0| && Kids(cur) == Kids(nodes0)
    && AllBounded(Kids(nodes0), stack, h)
    && (forall j :: 0 <= j < |stack| ==> stack[j].index < |cur|)
    && WellIndexed(nodes0) && InArena(nodes0, w) && InArena(cur, WalkStack(Kids(nodes0), stack, h))
    && SweepLeaves(m, nodes0, w, cur, WalkStack(Kids(nodes0), stack, h), poses)
  }

  /// Before the first round, the whole walk from `root` is left to do.
  lemma SweepStateStart<P>(m: PoseModel<P>, nodes0: Arena<P>, root: NodeId, h: nat)
    requires WellIndexed(nodes0) && Bounded(Kids(nodes0), root, h)
    ensures InArena(nodes0, Walk(Kids(nodes0), root, h))
    ensures SweepState(m, nodes0, Walk(Kids(nodes0), root, h), h, nodes0, [root], [])
  {
    var kids := Kids(nodes0);
    var w := Walk(kids, root, h);
    WalkInRange(kids, root, h);
    assert w == WalkStack(kids, [root], h) by {
      assert [root][..0] == [];
    }
    assert SweepLeaves(m, nodes0, w, nodes0, w, []) by {
      assert [] + Sweep(m, nodes0, w).poses == Sweep(m, nodes0, w).poses;
    }
  }

  /// One round: popping the top link, caching its transform and pushing its
  /// children leaves the rest of the walk to do, and that rest is shorter.
  lemma SweepStateStep<P>(m: PoseModel<P>, nodes0: Arena<P>, w: seq<NodeId>, h: nat, cur: Arena<P>, stack: seq<NodeId>, poses: seq<P>)
    requires SweepState(m, nodes0, w, h, cur, stack, poses) && stack != []
    ensures SweepState(m, nodes0, w, h,
      SetCache(cur, stack[|stack| - 1], StepPose(m, cur, stack[|stack| - 1])),
      stack[..|stack| - 1] + cur[stack[|stack| - 1].index].children,
      poses + [StepPose(m, cur, stack[|stack| - 1])])
    ensures |WalkStack(Kids(nodes0), stack[..|stack| - 1] + cur[stack[|stack| - 1].index].children, h)|
      < |WalkStack(Kids(nodes0), stack, h)|
  {
    var kids := Kids(nodes0);
    var x := stack[|stack| - 1];
    var stack' := stack[..|stack| - 1] + cur[x.index].children;
    assert stack' == stack[..|stack| - 1] + kids[x.index];
    WalkStackStep(kids, stack, h);
    var rest := WalkStack(kids, stack, h);
    var t := StepPose(m, cur, x);
    SweepAdvance(m, nodes0, w, cur, rest, poses, t);
    var next := SetCache(cur, x, t);
    KidsOfSameShape(cur, next);
    WalkStackInRange(kids, stack', h);
    assert rest[1..] == WalkStack(kids, stack', h);
  }

  /// Once the stack is empty, the arena and the emitted transforms are
  /// those of the sweep over `w`.
  lemma SweepStateDone<P>(m: PoseModel<P>, nodes0: Arena<P>, w: seq<NodeId>, h: nat, cur: Arena<P>, poses: seq<P>)
    requires SweepState(m, nodes0, w, h, cur, [], poses)
    ensures Swept(cur, poses) == Sweep(m, nodes0, w)
  {
    assert Sweep(m, cur, []) == Swept(cur, []);
    assert poses + [] == poses;
  }

  /// Two arenas that differ at most in cached world transforms.
  ghost predicate SameButCaches<P>(a: Arena<P>, b: Arena<P>) {
    |a| == |b| &&
    forall i :: 0 <= i < |a| ==> b[i] == a[i].(data := a[i].data.(cache := b[i].data.cache))
  }

  lemma SameButCachesWellIndexed<P>(a: Arena<P>, b: Arena<P>)
    requires WellIndexed(a) && SameButCaches(a, b)
    ensures WellIndexed(b) && Kids(b) == Kids(a)
  {
  }

  /// The sweep is correct for any visiting order in which every link comes
  /// once, after its parent (or with its parent already cached in `done`).
  lemma {:induction false} SweepComputesWorld<P>(m: PoseModel<P>, nodes0: Arena<P>, cur: Arena<P>, w: seq<NodeId>, done: set<NodeId>)
    requires WellIndexed(nodes0) && SameButCaches(nodes0, cur) && InArena(nodes0, w) && Distinct(w)
    requires forall k :: 0 <= k < |w| ==> w[k] !in done && Finite(nodes0, w[k])
    requires forall x :: x in done ==>
      x.index < |nodes0| && Finite(nodes0, x) && cur[x.index].data.cache == Some(World(m, nodes0, x))
    requires forall k :: 0 <= k < |w| && nodes0[w[k].index].parent.Some? ==>
      nodes0[w[k].index].parent.value in done || nodes0[w[k].index].parent.value in w[..k]
    ensures WellIndexed(cur) && SameButCaches(nodes0, Sweep(m, cur, w).nodes)
    ensures forall k :: 0 <= k < |w| ==> Sweep(m, cur, w).poses[k] == World(m, nodes0, w[k])
    ensures forall k :: 0 <= k < |w| ==> Sweep(m, cur, w).nodes[w[k].index].data.cache == Some(World(m, nodes0, w[k]))
    ensures forall i :: 0 <= i < |cur| && NodeId(i) !in w ==> Sweep(m, cur, w).nodes[i] == cur[i]
    decreases |w|
  {
    SameButCachesWellIndexed(nodes0, cur);
    if w != [] {
      SweepStepReady(m, nodes0, cur, w, done);
      SweepComputesWorld(m, nodes0, SetCache(cur, w[0], StepPose(m, cur, w[0])), w[1..], done + {w[0]});
      SweepStepResult(m, nodes0, cur, w, done);
    }
  }

  /// The transform the sweep writes for `id`: its parent's cached transform
  /// composed with its own local transform.
  function StepPose<P>(m: PoseModel<P>, nodes: Arena<P>, id: NodeId): P
    requires WellIndexed(nodes) && id.index < |nodes|
  {
    m.compose(ParentPose(m, nodes, id), LocalOf(m, nodes[id.index].data))
  }

  /// The preconditions of `SweepComputesWorld`, bundled.
  ghost predicate SweepReady<P>(m: PoseModel<P>, nodes0: Arena<P>, cur: Arena<P>, w: seq<NodeId>, done: set<NodeId>)
  {
    && WellIndexed(nodes0) && WellIndexed(cur) && SameButCaches(nodes0, cur) && InArena(nodes0, w) && Distinct(w)
    && (forall k :: 0 <= k < |w| ==> w[k] !in done && Finite(nodes0, w[k]))
    && (forall x :: x in done ==>
          x.index < |nodes0| && Finite(nodes0, x) && cur[x.index].data.cache == Some(World(m, nodes0, x)))
    && (forall k :: 0 <= k < |w| && nodes0[w[k].index].parent.Some? ==>
          nodes0[w[k].index].parent.value in done || nodes0[w[k].index].parent.value in w[..k])
  }

  /// The postconditions of `SweepComputesWorld`, bundled.
  ghost predicate SweepDone<P>(m: PoseModel<P>, nodes0: Arena<P>, cur: Arena<P>, w: seq<NodeId>)
    requires WellIndexed(nodes0)
  {
    && WellIndexed(cur) && InArena(cur, w) && InArena(nodes0, w)
    && (forall k :: 0 <= k < |w| ==> Finite(nodes0, w[k]))
    && SameButCaches(nodes0, Sweep(m, cur, w).nodes)
    && (forall k :: 0 <= k < |w| ==> Sweep(m, cur, w).poses[k] == World(m, nodes0, w[k]))
    && (forall k :: 0 <= k < |w| ==> Sweep(m, cur, w).nodes[w[k].index].data.cache == Some(World(m, nodes0, w[k])))
    && (forall i :: 0 <= i < |cur| && NodeId(i) !in w ==> Sweep(m, cur, w).nodes[i] == cur[i])
  }

  /// Caching the first link's world transform readies the sweep of the rest.
  lemma SweepStepReady<P>(m: PoseModel<P>, nodes0: Arena<P>, cur: Arena<P>, w: seq<NodeId>, done: set<NodeId>)
    requires SweepReady(m, nodes0, cur, w, done) && w != []
    ensures StepPose(m, cur, w[0]) == World(m, nodes0, w[0])
    ensures SweepReady(m, nodes0, SetCache(cur, w[0], StepPose(m, cur, w[0])), w[1..], done + {w[0]})
  {
    StepPoseIsWorld(m, nodes0, cur, w, done);
    var next := SetCache(cur, w[0], StepPose(m, cur, w[0]));
    SweepOrderShift(nodes0, w, done);
    DoneCachesStep(m, nodes0, cur, w, done);
    forall k | 0 <= k < |w[1..]| ensures w[1..][k] !in done + {w[0]} && Finite(nodes0, w[1..][k]) {
      assert w[1..][k] == w[k + 1] && w[k + 1] != w[0];
    }
  }

  /// The first link's parent is cached (or absent), so the sweep writes its
  /// world transform.
  lemma StepPoseIsWorld<P>(m: PoseModel<P>, nodes0: Arena<P>, cur: Arena<P>, w: seq<NodeId>, done: set<NodeId>)
    requires SweepReady(m, nodes0, cur, w, done) && w != []
    ensures StepPose(m, cur, w[0]) == World(m, nodes0, w[0])
  {
    var x := w[0];
    WorldStep(m, nodes0, x);
    assert LocalOf(m, cur[x.index].data) == LocalOf(m, nodes0[x.index].data);
  }

  /// After caching the first link, every link counted as done holds its
  /// world transform.
  lemma DoneCachesStep<P>(m: PoseModel<P>, nodes0: Arena<P>, cur: Arena<P>, w: seq<NodeId>, done: set<NodeId>)
    requires SweepReady(m, nodes0, cur, w, done) && w != []
    requires StepPose(m, cur, w[0]) == World(m, nodes0, w[0])
    ensures forall y :: y in done + {w[0]} ==>
      y.index < |nodes0| && Finite(nodes0, y) &&
      SetCache(cur, w[0], StepPose(m, cur, w[0]))[y.index].data.cache == Some(World(m, nodes0, y))
  {
    var x := w[0];
    var next := SetCache(cur, x, StepPose(m, cur, x));
    forall y | y in done + {x} ensures y.index < |nodes0| && Finite(nodes0, y) && next[y.index].data.cache == Some(World(m, nodes0, y)) {
      if y != x {
        assert NodeId(y.index) == y && NodeId(x.index) == x;
      }
    }
  }

  /// A correct sweep of the rest after the first link gives a correct sweep
  /// of the whole order.
  lemma SweepStepResult<P>(m: PoseModel<P>, nodes0: Arena<P>, cur: Arena<P>, w: seq<NodeId>, done: set<NodeId>)
    requires SweepReady(m, nodes0, cur, w, done) && w != []
    requires StepPose(m, cur, w[0]) == World(m, nodes0, w[0])
    requires SweepDone(m, nodes0, SetCache(cur, w[0], StepPose(m, cur, w[0])), w[1..])
    ensures SweepDone(m, nodes0, cur, w)
  {
    SweepStepOthers(m, nodes0, cur, w, done);
    assert w[0] !in w[1..];
    SweepStepPoses(m, nodes0, cur, w);
  }

  /// Links outside the order are untouched by the sweep.
  lemma SweepStepOthers<P>(m: PoseModel<P>, nodes0: Arena<P>, cur: Arena<P>, w: seq<NodeId>, done: set<NodeId>)
    requires SweepReady(m, nodes0, cur, w, done) && w != []
    requires StepPose(m, cur, w[0]) == World(m, nodes0, w[0])
    requires SweepDone(m, nodes0, SetCache(cur, w[0], StepPose(m, cur, w[0])), w[1..])
    ensures forall i :: 0 <= i < |cur| && NodeId(i) !in w ==> Sweep(m, cur, w).nodes[i] == cur[i]
  {
    var r := Sweep(m, cur, w);
    forall i | 0 <= i < |cur| && NodeId(i) !in w ensures r.nodes[i] == cur[i] {
      assert NodeId(i) !in w[1..] && NodeId(i) != w[0];
    }
  }

  /// Every link of the order gets its world transform, emitted and cached.
  lemma SweepStepPoses<P>(m: PoseModel<P>, nodes0: Arena<P>, cur: Arena<P>, w: seq<NodeId>)
    requires WellIndexed(nodes0) && WellIndexed(cur) && InArena(cur, w) && w != [] && w[0] !in w[1..]
    requires forall k :: 0 <= k < |w| ==> Finite(nodes0, w[k])
    requires StepPose(m, cur, w[0]) == World(m, nodes0, w[0])
    requires SweepDone(m, nodes0, SetCache(cur, w[0], StepPose(m, cur, w[0])), w[1..])
    ensures forall k :: 0 <= k < |w| ==> Sweep(m, cur, w).poses[k] == World(m, nodes0, w[k])
    ensures forall k :: 0 <= k < |w| ==> Sweep(m, cur, w).nodes[w[k].index].data.cache == Some(World(m, nodes0, w[k]))
  {
    var r := Sweep(m, cur, w);
    var next := SetCache(cur, w[0], StepPose(m, cur, w[0]));
    var r' := Sweep(m, next, w[1..]);
    assert r.poses == [StepPose(m, cur, w[0])] + r'.poses && r.nodes == r'.nodes;
    assert r.nodes[w[0].index] == next[w[0].index] by {
      assert NodeId(w[0].index) == w[0];
    }
    forall k | 0 <= k < |w| ensures r.poses[k] == World(m, nodes0, w[k]) && r.nodes[w[k].index].data.cache == Some(World(m, nodes0, w[k])) {
      if k > 0 {
        assert w[k] == w[1..][k - 1] && r.poses[k] == r'.poses[k - 1];
      }
    }
  }

  /// Dropping the first link of a parents-first order and counting it as
  /// done keeps the rest of the order parents-first.
  lemma SweepOrderShift<T>(nodes0: Arena<T>, w: seq<NodeId>, done: set<NodeId>)
    requires InArena(nodes0, w) && w != []
    requires forall k :: 0 <= k < |w| && nodes0[w[k].index].parent.Some? ==>
      nodes0[w[k].index].parent.value in done || nodes0[w[k].index].parent.value in w[..k]
    ensures forall k :: 0 <= k < |w[1..]| && nodes0[w[1..][k].index].parent.Some? ==>
      nodes0[w[1..][k].index].parent.value in done + {w[0]} || nodes0[w[1..][k].index].parent.value in w[1..][..k]
  {
    forall k | 0 <= k < |w[1..]| && nodes0[w[1..][k].index].parent.Some?
      ensures nodes0[w[1..][k].index].parent.value in done + {w[0]} || nodes0[w[1..][k].index].parent.value in w[1..][..k]
    {
      var p := nodes0[w[1..][k].index].parent.value;
      assert w[1..][k] == w[k + 1];
      if p !in done && p != w[0] {
        assert p in w[..k + 1];
        var i :| 0 <= i < k + 1 && w[..k + 1][i] == p;
        assert w[1..][..k][i - 1] == p;
      }
    }
  }

  /// Every id the walk from `id` emits names a node of the arena.
  lemma {:induction false} WalkInRange(kids: seq<seq<NodeId>>, id: NodeId, h: nat)
    requires Bounded(kids, id, h)
    ensures forall k :: 0 <= k < |Walk(kids, id, h)| ==> Walk(kids, id, h)[k].index < |kids|
    decreases h, 0
  {
    WalkStackInRange(kids, kids[id.index], h - 1);
  }

  lemma {:induction false} WalkStackInRange(kids: seq<seq<NodeId>>, s: seq<NodeId>, h: nat)
    requires AllBounded(kids, s, h)
    ensures forall k :: 0 <= k < |WalkStack(kids, s, h)| ==> WalkStack(kids, s, h)[k].index < |kids|
    decreases h, 1, |s|
  {
    if s != [] {
      var init := s[..|s| - 1];
      assert forall j :: 0 <= j < |init| ==> init[j] == s[j];
      WalkInRange(kids, s[|s| - 1], h);
      WalkStackInRange(kids, init, h);
    }
  }

  /// In a well-formed tree whose node 0 is a root, the whole-tree sweep
  /// from node 0 emits the world transform of every link it visits and
  /// leaves it in that link's cache; links outside node 0's subtree keep
  /// their cache.
  lemma SweepFromRootIsWorld<P>(m: PoseModel<P>, nodes: Arena<P>)
    requires TreeShaped(nodes) && |nodes| > 0 && nodes[0].parent.None?
    ensures FiniteSubtree(nodes, NodeId(0)) && InArena(nodes, DescendantIds(nodes, NodeId(0)))
    ensures forall k :: 0 <= k < |DescendantIds(nodes, NodeId(0))| ==>
      Finite(nodes, DescendantIds(nodes, NodeId(0))[k]) &&
      Sweep(m, nodes, DescendantIds(nodes, NodeId(0))).poses[k] == World(m, nodes, DescendantIds(nodes, NodeId(0))[k]) &&
      Sweep(m, nodes, DescendantIds(nodes, NodeId(0))).nodes[DescendantIds(nodes, NodeId(0))[k].index].data.cache ==
        Some(World(m, nodes, DescendantIds(nodes, NodeId(0))[k]))
    ensures forall i :: 0 <= i < |nodes| && NodeId(i) !in DescendantIds(nodes, NodeId(0)) ==>
      Sweep(m, nodes, DescendantIds(nodes, NodeId(0))).nodes[i] == nodes[i]
  {
    SubtreesFinite(nodes, NodeId(0));
    var kids := Kids(nodes);
    var h :| Bounded(kids, NodeId(0), h);
    WalkHeightIrrelevant(kids, NodeId(0));
    var w := Walk(kids, NodeId(0), h);
    assert DescendantIds(nodes, NodeId(0)) == w;
    WalkInRange(kids, NodeId(0), h);
    ParentsFirst(nodes, NodeId(0), h);
    WalkDistinct(nodes, NodeId(0), h);
    forall k | 0 <= k < |w| ensures Finite(nodes, w[k]) {
      assert Finite(nodes, NodeId(w[k].index)) && NodeId(w[k].index) == w[k];
    }
    assert nodes[w[0].index].parent.None?;
    SweepComputesWorld(m, nodes, nodes, w, {});
  }

  /// `r` runs from a root down parent links: the first id is parentless and
  /// each later id's parent is the id before it.
  ghost predicate PathFromRoot<P>(nodes: Arena<P>, r: seq<NodeId>) {
    && InArena(nodes, r) && |r| > 0
    && nodes[r[0].index].parent.None?
    && forall i, j :: 0 <= i && j == i + 1 < |r| ==> nodes[r[j].index].parent == Some(r[i])
  }

  /// Along a path from a root, the product of the local transforms of the
  /// first k + 1 links, composed from the identity, is the world transform
  /// of the k-th link, whose depth is k.
  lemma {:induction false} PathPrefixIsWorld<P>(m: PoseModel<P>, nodes: Arena<P>, r: seq<NodeId>, k: nat)
    requires PathFromRoot(nodes, r) && k < |r|
    ensures HasDepth(nodes, r[k], k)
    ensures Product(m, m.identity, Locals(m, nodes, r)[..k + 1]) == World(m, nodes, r[k])
    decreases k
  {
    var ls := Locals(m, nodes, r);
    assert ls[..k + 1][..k] == ls[..k];
    if k == 0 {
      assert HasDepth(nodes, r[0], 0);
      WorldStep(m, nodes, r[0]);
      assert ls[..0] == [];
    } else {
      PathPrefixIsWorld(m, nodes, r, k - 1);
      assert nodes[r[k].index].parent == Some(r[k - 1]);
      assert HasDepth(nodes, r[k], k);
      WorldStep(m, nodes, r[k]);
    }
  }

  /// The reversed ancestor walk is a path from a root.
  lemma ReversedAncestorsFromRoot<T>(nodes: Arena<T>, id: NodeId, d: nat)
    requires HasDepth(nodes, id, d)
    ensures PathFromRoot(nodes, Reversed(AncestorIds(nodes, id, d)))
  {
    var r := Reversed(AncestorIds(nodes, id, d));
    forall k | 0 <= k < |r| ensures r[k].index < |nodes| {
      ReversedAncestorLink(nodes, id, d, k);
    }
    ReversedAncestorLink(nodes, id, d, 0);
    forall i, j | 0 <= i && j == i + 1 < |r| ensures nodes[r[j].index].parent == Some(r[i]) {
      ReversedAncestorLink(nodes, id, d, j);
    }
  }

  /// The k-th id of the reversed ancestor walk names a node; its parent is
  /// the id before it, and the first one has none.
  lemma ReversedAncestorLink<T>(nodes: Arena<T>, id: NodeId, d: nat, k: nat)
    requires HasDepth(nodes, id, d) && k <= d
    ensures Reversed(AncestorIds(nodes, id, d))[k].index < |nodes|
    ensures k == 0 ==> nodes[Reversed(AncestorIds(nodes, id, d))[0].index].parent.None?
    ensures k > 0 ==> nodes[Reversed(AncestorIds(nodes, id, d))[k].index].parent == Some(Reversed(AncestorIds(nodes, id, d))[k - 1])
  {
    var a := AncestorIds(nodes, id, d);
    assert Reversed(a)[k] == a[d - k];
    if k > 0 {
      assert Reversed(a)[k - 1] == a[d - k + 1];
    }
  }

  /// A chain listing a root-to-link path, composed from the identity as
  /// `calc_link_transforms` does, yields each link's world transform: the
  /// chain and the whole-tree forward kinematics agree.
  lemma ChainPosesAreWorldPoses<P>(m: PoseModel<P>, nodes: Arena<P>, id: NodeId, d: nat)
    requires HasDepth(nodes, id, d)
    ensures InArena(nodes, Reversed(AncestorIds(nodes, id, d)))
    ensures forall k :: 0 <= k <= d ==>
      Finite(nodes, Reversed(AncestorIds(nodes, id, d))[k]) &&
      Scan(m, m.identity, Locals(m, nodes, Reversed(AncestorIds(nodes, id, d))))[k] ==
        World(m, nodes, Reversed(AncestorIds(nodes, id, d))[k])
  {
    var r := Reversed(AncestorIds(nodes, id, d));
    var ls := Locals(m, nodes, r);
    ReversedAncestorsFromRoot(nodes, id, d);
    ScanProducts(m, m.identity, ls);
    forall k | 0 <= k <= d ensures Finite(nodes, r[k]) && Scan(m, m.identity, ls)[k] == World(m, nodes, r[k]) {
      PathPrefixIsWorld(m, nodes, r, k);
    }
  }
}
