/// The two containers of src/idtree_links.rs over the link arena: a
/// kinematic chain (an id list into a shared arena, with a base transform)
/// and the kinematic tree (the whole arena).
module IdtreeLinks {
  import opened Idtree
  import opened IdtreeOrder
  import opened Kinematics

  /// Assigns `angles[i]` to the joint of `ids[i]`, front to back, and stops
  /// at the first joint that rejects its angle (the `?` of both
  /// `set_joint_angles` loops).
  method ApplyAngles<P>(tree: IdTree<Link<P>>, m: PoseModel<P>, ids: seq<NodeId>, angles: seq<real>) returns (res: Outcome)
    requires tree.Valid() && InArena(tree.nodes, ids) && |ids| == |angles|
    modifies tree
    ensures tree.Valid()
    ensures Assigned(tree.nodes, res) == AssignAngles(m, old(tree.nodes), ids, angles)
  {
    var i := 0;
    while i < |ids|
      invariant 0 <= i <= |ids|
      invariant tree.Valid() && |tree.nodes| == |old(tree.nodes)|
      invariant AssignAngles(m, tree.nodes, ids[i..], angles[i..]) == AssignAngles(m, old(tree.nodes), ids, angles)
    {
      var link := tree.Get(ids[i]).data;
      if !m.accepts(link.joint, angles[i]) {
        return Err(JointRejected);
      }
      tree.SetData(ids[i], link.(joint := link.joint.(angle := Some(angles[i]))));
      assert ids[i..][1..] == ids[i + 1..] && angles[i..][1..] == angles[i + 1..];
      i := i + 1;
    }
    assert ids[i..] == [];
    return Ok;
  }

  /// `IdKinematicChain`: a list of link ids into an arena it shares with
  /// the tree it was cut from, and a base transform.
  class IdKinematicChain<P> {
    var name: string
    var idList: seq<NodeId>
    var transform: P
    const tree: IdTree<Link<P>>
    var endLinkName: Option<string>
    const model: PoseModel<P>

    ghost predicate Valid()
      reads this, tree
    {
      tree.Valid() && InArena(tree.nodes, idList)
    }

    /// `IdKinematicChain::new`: a copy of the id list, the identity as base
    /// transform, and no end link name.
    constructor (name: string, tree: IdTree<Link<P>>, idList: seq<NodeId>, model: PoseModel<P>)
      ensures this.name == name && this.tree == tree && this.idList == idList && this.model == model
      ensures transform == model.identity && endLinkName == None
    {
      this.name := name;
      this.idList := idList;
      this.tree := tree;
      this.transform := model.identity;
      this.endLinkName := None;
      this.model := model;
    }

    /// `calc_end_transform`: the base transform times the local transforms
    /// of the links, up to and including the first link called
    /// `endLinkName`, or all of them when it is unset; then the last value
    /// of `calc_link_transforms`.
    method CalcEndTransform() returns (t: P)
      requires Valid()
      ensures t == Product(model, transform, Locals(model, tree.nodes, idList)[..EndCount(tree.nodes, idList, endLinkName)])
      ensures endLinkName.None? && idList != [] ==> t == Scan(model, transform, Locals(model, tree.nodes, idList))[|idList| - 1]
      ensures endLinkName.None? && idList == [] ==> t == transform
    {
      ghost var nodes := tree.nodes;
      ghost var ls := Locals(model, nodes, idList);
      t := transform;
      var i := 0;
      while i < |idList|
        invariant 0 <= i <= |idList|
        invariant t == Product(model, transform, ls[..i])
        invariant endLinkName.Some? ==> forall j :: 0 <= j < i ==> nodes[idList[j].index].data.name != endLinkName.value
      {
        var link := tree.Get(idList[i]).data;
        t := model.compose(t, LocalOf(model, link));
        assert ls[..i + 1][..i] == ls[..i];
        if endLinkName.Some? && endLinkName.value == link.name {
          EndCountAtFirstMatch(nodes, idList, endLinkName.value, i);
          return;
        }
        i := i + 1;
      }
      EndCountWithoutMatch(nodes, idList, endLinkName);
      LastScanIsProduct(model, transform, ls);
    }

    /// `calc_link_transforms`: one transform per link, the k-th being the
    /// base transform times the local transforms of links 0 through k.
    function CalcLinkTransforms(): (ts: seq<P>)
      reads this, tree
      requires Valid()
      ensures |ts| == |idList|
      ensures forall k :: 0 <= k < |idList| ==>
        ts[k] == Product(model, transform, Locals(model, tree.nodes, idList)[..k + 1])
    {
      ScanProducts(model, transform, Locals(model, tree.nodes, idList));
      Scan(model, transform, Locals(model, tree.nodes, idList))
    }

    /// `get_link_names`: the link names in chain order.
    function GetLinkNames(): (names: seq<string>)
      reads this, tree
      requires Valid()
      ensures |names| == |idList|
      ensures forall i :: 0 <= i < |idList| ==> names[i] == tree.nodes[idList[i].index].data.name
    {
      NamesOf(tree.nodes, idList)
    }

    /// `set_joint_angles`: a length mismatch with the chain's non-fixed
    /// joints fails before any change; otherwise the i-th non-fixed link in
    /// chain order is given `angles[i]`, stopping at the first rejection.
    method SetJointAngles(angles: seq<real>) returns (res: Outcome)
      requires Valid()
      modifies tree
      ensures Valid()
      ensures |angles| != |JointIds(old(tree.nodes), idList)| ==>
        res == Err(SizeMisMatch) && tree.nodes == old(tree.nodes)
      ensures |angles| == |JointIds(old(tree.nodes), idList)| ==>
        Assigned(tree.nodes, res) == AssignAngles(model, old(tree.nodes), JointIds(old(tree.nodes), idList), angles)
    {
      var withAngle := JointIds(tree.nodes, idList);
      if |withAngle| != |angles| {
        return Err(SizeMisMatch);
      }
      res := ApplyAngles(tree, model, withAngle, angles);
    }

    /// `get_joint_angles`: the angles of the non-fixed joints, in chain
    /// order.
    function GetJointAngles(): (angles: seq<real>)
      reads this, tree
      requires Valid()
      ensures |angles| == |JointIds(tree.nodes, idList)|
      ensures forall i :: 0 <= i < |angles| ==>
        tree.nodes[JointIds(tree.nodes, idList)[i].index].data.joint.angle == Some(angles[i])
    {
      AnglesOf(tree.nodes, idList)
    }

    /// `get_joint_limits`: the limits of the non-fixed joints, aligned with
    /// `get_joint_angles`.
    function GetJointLimits(): (limits: seq<Option<Range>>)
      reads this, tree
      requires Valid()
      ensures |limits| == |GetJointAngles()|
      ensures forall i :: 0 <= i < |limits| ==>
        limits[i] == tree.nodes[JointIds(tree.nodes, idList)[i].index].data.joint.limits
    {
      var nodes := tree.nodes;
      var js := JointIds(nodes, idList);
      seq(|js|, i requires 0 <= i < |js| => nodes[js[i].index].data.joint.limits)
    }

    /// `get_joint_names`: the names of the non-fixed joints, aligned with
    /// `get_joint_angles`.
    function GetJointNames(): (names: seq<string>)
      reads this, tree
      requires Valid()
      ensures |names| == |GetJointAngles()|
      ensures forall i :: 0 <= i < |names| ==>
        names[i] == tree.nodes[JointIds(tree.nodes, idList)[i].index].data.joint.name
    {
      var nodes := tree.nodes;
      var js := JointIds(nodes, idList);
      seq(|js|, i requires 0 <= i < |js| => nodes[js[i].index].data.joint.name)
    }
  }

  /// Every link with a joint angle is the id of some node listed in `ns`,
  /// when `ns` lists the nodes of the jointed ids `js` in order.
  lemma JointsFound<P>(nodes: Arena<P>, js: seq<NodeId>, ns: seq<IdNode<Link<P>>>)
    requires |ns| == |js| && forall i :: 0 <= i < |ns| ==> ns[i].id == js[i]
    requires forall x :: x in js <==> x.index < |nodes| && HasJointAngle(nodes[x.index].data)
    ensures forall i :: 0 <= i < |nodes| && HasJointAngle(nodes[i].data) ==>
      exists k :: 0 <= k < |ns| && ns[k].id == NodeId(i)
  {
    forall i | 0 <= i < |nodes| && HasJointAngle(nodes[i].data)
      ensures exists k :: 0 <= k < |ns| && ns[k].id == NodeId(i)
    {
      assert NodeId(i).index == i;
      var k := IndexIn(js, NodeId(i));
      assert ns[k].id == NodeId(i);
    }
  }

  /// `IdLinkTree`: a named arena of links.
  class IdLinkTree<P> {
    var name: string
    const tree: IdTree<Link<P>>
    const model: PoseModel<P>

    /// `IdLinkTree::new`.
    constructor (name: string, tree: IdTree<Link<P>>, model: PoseModel<P>)
      ensures this.name == name && this.tree == tree && this.model == model
    {
      this.name := name;
      this.tree := tree;
      this.model := model;
    }

    /// `get_root_node_id`: the first parentless link in creation order; a
    /// tree without one is a programming error (the source panics).
    method GetRootNodeId() returns (id: NodeId)
      requires tree.Valid()
      requires exists i :: 0 <= i < |tree.nodes| && tree.nodes[i].parent.None?
      ensures id.index < |tree.nodes| && tree.nodes[id.index].parent.None?
      ensures forall j :: 0 <= j < id.index ==> tree.nodes[j].parent.Some?
    {
      var links := tree.Iter();
      var i := 0;
      while i < |links|
        invariant 0 <= i <= |links|
        invariant forall j :: 0 <= j < i ==> links[j].parent.Some?
      {
        var node := links[i];
        if node.parent.None? {
          id := node.id;
          return;
        }
        i := i + 1;
      }
      assert false;
    }

    /// `set_root_transform`: replaces the fixed transform of link 0 and
    /// nothing else.
    method SetRootTransform(t: P)
      requires tree.Valid() && |tree.nodes| > 0
      modifies tree
      ensures tree.Valid()
      ensures tree.nodes == old(tree.nodes)[0 := old(tree.nodes)[0].(data := old(tree.nodes)[0].data.(transform := t))]
    {
      var link := tree.Get(NodeId(0)).data;
      tree.SetData(NodeId(0), link.(transform := t));
    }

    /// The ids `iter_joints` yields.
    function JointList(): (js: seq<NodeId>)
      reads this, tree
      requires tree.Valid()
      ensures InArena(tree.nodes, js) && Increasing(js)
      ensures forall x :: x in js <==> x.index < |tree.nodes| && HasJointAngle(tree.nodes[x.index].data)
    {
      var ids := AllIds(|tree.nodes|);
      JointIdsSelects(tree.nodes, ids);
      JointIdsKeepOrder(tree.nodes, ids);
      JointIds(tree.nodes, ids)
    }

    /// `iter_joints`: the links whose joint has an angle, in creation order,
    /// each once.
    function IterJoints(): (ns: seq<IdNode<Link<P>>>)
      reads this, tree
      requires tree.Valid()
      ensures |ns| == |JointList()| && forall i :: 0 <= i < |ns| ==> ns[i].id == JointList()[i]
      ensures forall i :: 0 <= i < |ns| ==> ns[i].id.index < |tree.nodes| && ns[i] == tree.nodes[ns[i].id.index]
      ensures forall i :: 0 <= i < |ns| ==> HasJointAngle(ns[i].data)
      ensures forall a, b :: 0 <= a < b < |ns| ==> ns[a].id.index < ns[b].id.index
      ensures forall i :: 0 <= i < |tree.nodes| && HasJointAngle(tree.nodes[i].data) ==>
        exists k :: 0 <= k < |ns| && ns[k].id == NodeId(i)
    {
      var nodes := tree.nodes;
      var js := JointList();
      var ns := seq(|js|, i requires 0 <= i < |js| => nodes[js[i].index]);
      JointsFound(nodes, js, ns);
      ns
    }

    /// `dof`: the number of links whose joint has an angle.
    function Dof(): (n: nat)
      reads this, tree
      requires tree.Valid()
      ensures n == |IterJoints()|
      ensures n == |set i | 0 <= i < |tree.nodes| && HasJointAngle(tree.nodes[i].data)|
    {
      JointCount(tree.nodes, |tree.nodes|);
      |JointList()|
    }

    /// `get_joint_angles`: one angle per `iter_joints` link, in the same
    /// order, so `dof()` of them.
    function GetJointAngles(): (angles: seq<real>)
      reads this, tree
      requires tree.Valid()
      ensures |angles| == Dof()
      ensures forall i :: 0 <= i < |angles| ==> IterJoints()[i].data.joint.angle == Some(angles[i])
    {
      AnglesOf(tree.nodes, AllIds(|tree.nodes|))
    }

    /// `set_joint_angles`: a length other than `dof()` fails with nothing
    /// changed; otherwise the joints of `iter_joints` take the angles in
    /// order, stopping at the first rejection.
    method SetJointAngles(angles: seq<real>) returns (res: Outcome)
      requires tree.Valid()
      modifies tree
      ensures tree.Valid()
      ensures |angles| != old(Dof()) ==> res == Err(SizeMisMatch) && tree.nodes == old(tree.nodes)
      ensures |angles| == old(Dof()) ==>
        Assigned(tree.nodes, res) == AssignAngles(model, old(tree.nodes), old(JointList()), angles)
    {
      if |angles| != Dof() {
        return Err(SizeMisMatch);
      }
      res := ApplyAngles(tree, model, JointList(), angles);
    }

    /// `get_joint_limits`: the limits of the `iter_joints` links, aligned
    /// with `get_joint_angles`.
    function GetJointLimits(): (limits: seq<Option<Range>>)
      reads this, tree
      requires tree.Valid()
      ensures |limits| == Dof()
      ensures forall i :: 0 <= i < |limits| ==> limits[i] == IterJoints()[i].data.joint.limits
    {
      var ns := IterJoints();
      seq(|ns|, i requires 0 <= i < |ns| => ns[i].data.joint.limits)
    }

    /// `get_joint_names`: the joint names of the `iter_joints` links,
    /// aligned with `get_joint_angles`.
    function GetJointNames(): (names: seq<string>)
      reads this, tree
      requires tree.Valid()
      ensures |names| == Dof()
      ensures forall i :: 0 <= i < |names| ==> names[i] == IterJoints()[i].data.joint.name
    {
      var ns := IterJoints();
      seq(|ns|, i requires 0 <= i < |ns| => ns[i].data.joint.name)
    }

    /// The parent transform `calc_link_transforms` reads for `node`: the
    /// parent's cached world transform, or the identity for a root or an
    /// uncached parent.
    method ParentTransform(node: IdNode<Link<P>>) returns (p: P)
      requires tree.Valid() && node.id.index < |tree.nodes| && node == tree.nodes[node.id.index]
      ensures p == ParentPose(model, tree.nodes, node.id)
    {
      p := model.identity;
      match node.parent {
        case None =>
        case Some(parent) =>
          match tree.Get(parent).data.cache {
            case Some(trans) => p := trans;
            case None =>
          }
      }
    }

    /// One round of the sweep: takes the next link from `it`, writes its
    /// parent's cached transform times its local transform to its cache,
    /// and returns that transform.
    method SweepNext(it: Descendants<Link<P>>) returns (t: P)
      requires it.tree == tree && tree.Valid() && it.stack != []
      requires forall j :: 0 <= j < |it.stack| ==> it.stack[j].index < |tree.nodes|
      modifies tree, it
      ensures tree.Valid()
      ensures it.stack == old(it.stack)[..|old(it.stack)| - 1] + old(tree.nodes)[old(it.stack)[|old(it.stack)| - 1].index].children
      ensures t == StepPose(model, old(tree.nodes), old(it.stack)[|old(it.stack)| - 1])
      ensures tree.nodes == SetCache(old(tree.nodes), old(it.stack)[|old(it.stack)| - 1], t)
    {
      var r := it.Next();
      var node := r.value;
      var parentPose := ParentTransform(node);
      t := model.compose(parentPose, LocalOf(model, node.data));
      tree.SetData(node.id, node.data.(cache := Some(t)));
    }

    /// `calc_link_transforms`: sweeps the descendants of link 0 in the
    /// descendant iterator's order; each link gets its parent's cached
    /// world transform (the identity for a root or an uncached parent)
    /// times its local transform, written to its cache and emitted.
    method CalcLinkTransforms() returns (poses: seq<P>)
      requires tree.Valid() && |tree.nodes| > 0 && FiniteSubtree(tree.nodes, NodeId(0))
      modifies tree
      ensures tree.Valid()
      ensures InArena(old(tree.nodes), DescendantIds(old(tree.nodes), NodeId(0)))
      ensures Swept(tree.nodes, poses) == Sweep(model, old(tree.nodes), DescendantIds(old(tree.nodes), NodeId(0)))
    {
      ghost var nodes0 := tree.nodes;
      ghost var h :| Bounded(Kids(nodes0), NodeId(0), h);
      WalkHeightIrrelevant(Kids(nodes0), NodeId(0));
      ghost var w := Walk(Kids(nodes0), NodeId(0), h);
      SweepStateStart(model, nodes0, NodeId(0), h);
      var it := tree.IterDescendants(NodeId(0));
      poses := [];
      while it.stack != []
        invariant it.tree == tree && tree.Valid()
        invariant SweepState(model, nodes0, w, h, tree.nodes, it.stack, poses)
        decreases |WalkStack(Kids(nodes0), it.stack, h)|
      {
        SweepStateStep(model, nodes0, w, h, tree.nodes, it.stack, poses);
        var t := SweepNext(it);
        poses := poses + [t];
      }
      SweepStateDone(model, nodes0, w, h, tree.nodes, poses);
    }

    /// `get_link_names`: every link's name in creation order.
    function GetLinkNames(): (names: seq<string>)
      reads this, tree
      requires tree.Valid()
      ensures |names| == |tree.nodes|
      ensures forall i :: 0 <= i < |tree.nodes| ==> names[i] == tree.nodes[i].data.name
    {
      NamesOf(tree.nodes, AllIds(|tree.nodes|))
    }

    /// `chain_from_end_link_name`: `None` when no link has the name;
    /// otherwise a chain named after it whose ids run from a root down to
    /// the first link (in creation order) with that name.
    method ChainFromEndLinkName(endLinkName: string) returns (chain: Option<IdKinematicChain<P>>)
      requires tree.Valid() && forall i :: 0 <= i < |tree.nodes| ==> Finite(tree.nodes, NodeId(i))
      ensures chain.None? <==> forall i :: 0 <= i < |tree.nodes| ==> tree.nodes[i].data.name != endLinkName
      ensures chain.Some? ==>
        && fresh(chain.value) && chain.value.Valid()
        && chain.value.tree == tree && chain.value.model == model
        && chain.value.name == endLinkName && chain.value.transform == model.identity
        && chain.value.endLinkName == None
        && |chain.value.idList| == Depth(tree.nodes, NodeId(FirstNamed(tree.nodes, AllIds(|tree.nodes|), endLinkName))) + 1
        && tree.nodes[chain.value.idList[0].index].parent.None?
        && chain.value.idList[|chain.value.idList| - 1] == NodeId(FirstNamed(tree.nodes, AllIds(|tree.nodes|), endLinkName))
        && tree.nodes[chain.value.idList[|chain.value.idList| - 1].index].data.name == endLinkName
        && (forall i, j :: 0 <= i && j == i + 1 < |chain.value.idList| ==>
              tree.nodes[chain.value.idList[j].index].parent == Some(chain.value.idList[i]))
    {
      var n := FirstNamed(tree.Iter(), AllIds(|tree.nodes|), endLinkName);
      if n == |tree.nodes| {
        return None;
      }
      var end := tree.Get(NodeId(n)).id;
      var up := tree.AncestorIdList(end);
      var ids := Reversed(up);
      var c := new IdKinematicChain(endLinkName, tree, ids, model);
      chain := Some(c);
    }
  }
}
