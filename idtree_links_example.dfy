/// The six-link robot of the unit test in src/idtree_links.rs, replayed on
/// the model: link0 -> link1 -> link2 -> link3 and link0 -> link4 -> link5,
/// every joint rotational.
module IdtreeLinksExample {
  import opened Idtree
  import opened Kinematics
  import opened IdtreeLinks

  /// A link with a rotational joint at angle zero and no limits.
  function Rotational<P>(name: string, jointName: string, t: P): Link<P> {
    Link(name, Joint(jointName, Some(0.0), None), t, None)
  }

  /// The links in creation order, with fixed transforms `ts`.
  function RobotLinks<P>(ts: seq<P>): seq<Link<P>>
    requires |ts| == 6
  {
    [ Rotational("link0", "j0", ts[0]), Rotational("link1", "j1", ts[1]),
      Rotational("link2", "j2", ts[2]), Rotational("link3", "j3", ts[3]),
      Rotational("link4", "j4", ts[4]), Rotational("link5", "j5", ts[5]) ]
  }

  /// The arena after the six `create_node` and five `set_parent_child`
  /// calls.
  function RobotNodes<P>(ts: seq<P>): seq<IdNode<Link<P>>>
    requires |ts| == 6
  {
    var ls := RobotLinks(ts);
    [ IdNode(None, [NodeId(1), NodeId(4)], NodeId(0), ls[0]),
      IdNode(Some(NodeId(0)), [NodeId(2)], NodeId(1), ls[1]),
      IdNode(Some(NodeId(1)), [NodeId(3)], NodeId(2), ls[2]),
      IdNode(Some(NodeId(2)), [], NodeId(3), ls[3]),
      IdNode(Some(NodeId(0)), [NodeId(5)], NodeId(4), ls[4]),
      IdNode(Some(NodeId(4)), [], NodeId(5), ls[5]) ]
  }

  /// The arena after the six `create_node` calls.
  function UnlinkedRobot<P>(ts: seq<P>): seq<IdNode<Link<P>>>
    requires |ts| == 6
  {
    var ls := RobotLinks(ts);
    [ IdNode(None, [], NodeId(0), ls[0]), IdNode(None, [], NodeId(1), ls[1]),
      IdNode(None, [], NodeId(2), ls[2]), IdNode(None, [], NodeId(3), ls[3]),
      IdNode(None, [], NodeId(4), ls[4]), IdNode(None, [], NodeId(5), ls[5]) ]
  }

  /// The arena once link0 -> link1 -> link2 -> link3 is connected.
  function ChainedRobot<P>(ts: seq<P>): seq<IdNode<Link<P>>>
    requires |ts| == 6
  {
    var ls := RobotLinks(ts);
    [ IdNode(None, [NodeId(1)], NodeId(0), ls[0]),
      IdNode(Some(NodeId(0)), [NodeId(2)], NodeId(1), ls[1]),
      IdNode(Some(NodeId(1)), [NodeId(3)], NodeId(2), ls[2]),
      IdNode(Some(NodeId(2)), [], NodeId(3), ls[3]),
      IdNode(None, [], NodeId(4), ls[4]), IdNode(None, [], NodeId(5), ls[5]) ]
  }

  /// Creates the six links, unconnected.
  method CreateRobotLinks<P>(ts: seq<P>) returns (tree: IdTree<Link<P>>)
    requires |ts| == 6
    ensures fresh(tree) && tree.Valid() && tree.nodes == UnlinkedRobot(ts)
  {
    var ls := RobotLinks(ts);
    tree := new IdTree<Link<P>>();
    var ljn0 := tree.CreateNode(ls[0]);
    var ljn1 := tree.CreateNode(ls[1]);
    var ljn2 := tree.CreateNode(ls[2]);
    var ljn3 := tree.CreateNode(ls[3]);
    var ljn4 := tree.CreateNode(ls[4]);
    var ljn5 := tree.CreateNode(ls[5]);
  }

  /// Connects link0 -> link1 -> link2 -> link3.
  method ConnectChain<P>(tree: IdTree<Link<P>>, ts: seq<P>)
    requires |ts| == 6 && tree.Valid() && tree.nodes == UnlinkedRobot(ts)
    modifies tree
    ensures tree.Valid() && tree.nodes == ChainedRobot(ts)
  {
    var ls := RobotLinks(ts);
    var ljn0, ljn1, ljn2, ljn3, ljn4, ljn5 := NodeId(0), NodeId(1), NodeId(2), NodeId(3), NodeId(4), NodeId(5);
    tree.SetParentChild(ljn0, ljn1);
    assert tree.nodes[0] == IdNode(None, [ljn1], ljn0, ls[0]);
    assert tree.nodes[1] == IdNode(Some(ljn0), [], ljn1, ls[1]);
    assert tree.nodes[2] == IdNode(None, [], ljn2, ls[2]);
    assert tree.nodes[3] == IdNode(None, [], ljn3, ls[3]);
    assert tree.nodes[4] == IdNode(None, [], ljn4, ls[4]);
    assert tree.nodes[5] == IdNode(None, [], ljn5, ls[5]);
    tree.SetParentChild(ljn1, ljn2);
    assert tree.nodes[0] == IdNode(None, [ljn1], ljn0, ls[0]);
    assert tree.nodes[1] == IdNode(Some(ljn0), [ljn2], ljn1, ls[1]);
    assert tree.nodes[2] == IdNode(Some(ljn1), [], ljn2, ls[2]);
    assert tree.nodes[3] == IdNode(None, [], ljn3, ls[3]);
    assert tree.nodes[4] == IdNode(None, [], ljn4, ls[4]);
    assert tree.nodes[5] == IdNode(None, [], ljn5, ls[5]);
    tree.SetParentChild(ljn2, ljn3);
    assert tree.nodes[0] == IdNode(None, [ljn1], ljn0, ls[0]);
    assert tree.nodes[1] == IdNode(Some(ljn0), [ljn2], ljn1, ls[1]);
    assert tree.nodes[2] == IdNode(Some(ljn1), [ljn3], ljn2, ls[2]);
    assert tree.nodes[3] == IdNode(Some(ljn2), [], ljn3, ls[3]);
    assert tree.nodes[4] == IdNode(None, [], ljn4, ls[4]);
    assert tree.nodes[5] == IdNode(None, [], ljn5, ls[5]);
    assert tree.nodes == ChainedRobot(ts);
  }

  /// Connects link0 -> link4 -> link5.
  method ConnectBranch<P>(tree: IdTree<Link<P>>, ts: seq<P>)
    requires |ts| == 6 && tree.Valid() && tree.nodes == ChainedRobot(ts)
    modifies tree
    ensures tree.Valid() && tree.nodes == RobotNodes(ts)
  {
    var ls := RobotLinks(ts);
    var ljn0, ljn1, ljn2, ljn3, ljn4, ljn5 := NodeId(0), NodeId(1), NodeId(2), NodeId(3), NodeId(4), NodeId(5);
    tree.SetParentChild(ljn0, ljn4);
    assert tree.nodes[0] == IdNode(None, [ljn1, ljn4], ljn0, ls[0]);
    assert tree.nodes[1] == IdNode(Some(ljn0), [ljn2], ljn1, ls[1]);
    assert tree.nodes[2] == IdNode(Some(ljn1), [ljn3], ljn2, ls[2]);
    assert tree.nodes[3] == IdNode(Some(ljn2), [], ljn3, ls[3]);
    assert tree.nodes[4] == IdNode(Some(ljn0), [], ljn4, ls[4]);
    assert tree.nodes[5] == IdNode(None, [], ljn5, ls[5]);
    tree.SetParentChild(ljn4, ljn5);
    assert tree.nodes[0] == IdNode(None, [ljn1, ljn4], ljn0, ls[0]);
    assert tree.nodes[1] == IdNode(Some(ljn0), [ljn2], ljn1, ls[1]);
    assert tree.nodes[2] == IdNode(Some(ljn1), [ljn3], ljn2, ls[2]);
    assert tree.nodes[3] == IdNode(Some(ljn2), [], ljn3, ls[3]);
    assert tree.nodes[4] == IdNode(Some(ljn0), [ljn5], ljn4, ls[4]);
    assert tree.nodes[5] == IdNode(Some(ljn4), [], ljn5, ls[5]);
    assert tree.nodes == RobotNodes(ts);
  }

  /// Creates the six links and connects them as the test does.
  method BuildRobot<P>(m: PoseModel<P>, ts: seq<P>) returns (robot: IdLinkTree<P>)
    requires |ts| == 6
    ensures fresh(robot) && fresh(robot.tree) && robot.tree.Valid() && robot.model == m
    ensures robot.tree.nodes == RobotNodes(ts)
  {
    var tree := CreateRobotLinks(ts);
    ConnectChain(tree, ts);
    ConnectBranch(tree, ts);
    robot := new IdLinkTree("robo1", tree, m);
  }

  /// Every link of the robot has a finite depth.
  lemma RobotFinite<P>(ts: seq<P>)
    requires |ts| == 6
    ensures forall i :: 0 <= i < 6 ==> Finite(RobotNodes(ts), NodeId(i))
  {
    var nodes := RobotNodes(ts);
    assert nodes[0].parent == None && nodes[1].parent == Some(NodeId(0)) && nodes[2].parent == Some(NodeId(1));
    assert nodes[3].parent == Some(NodeId(2)) && nodes[4].parent == Some(NodeId(0)) && nodes[5].parent == Some(NodeId(4));
    assert HasDepth(nodes, NodeId(0), 0);
    assert HasDepth(nodes, NodeId(1), 1);
    assert HasDepth(nodes, NodeId(2), 2);
    assert HasDepth(nodes, NodeId(3), 3);
    assert HasDepth(nodes, NodeId(4), 1);
    assert HasDepth(nodes, NodeId(5), 2);
    forall i | 0 <= i < 6 ensures Finite(nodes, NodeId(i)) {
      if i == 0 { assert HasDepth(nodes, NodeId(0), 0); }
      else if i == 1 { assert HasDepth(nodes, NodeId(1), 1); }
      else if i == 2 { assert HasDepth(nodes, NodeId(2), 2); }
      else if i == 3 { assert HasDepth(nodes, NodeId(3), 3); }
      else if i == 4 { assert HasDepth(nodes, NodeId(4), 1); }
      else { assert HasDepth(nodes, NodeId(5), 2); }
    }
  }

  /// link3 is the fourth link created.
  lemma RobotFindsLink3<P>(ts: seq<P>)
    requires |ts| == 6
    ensures InArena(RobotNodes(ts), AllIds(6)) && FirstNamed(RobotNodes(ts), AllIds(6), "link3") == 3
  {
    var nodes := RobotNodes(ts);
    assert nodes[0].data.name == "link0" && nodes[1].data.name == "link1";
    assert nodes[2].data.name == "link2" && nodes[3].data.name == "link3";
    assert "link0" != "link3" && "link1" != "link3" && "link2" != "link3";
    var k := FirstNamed(nodes, AllIds(6), "link3");
    assert !(k < 3) && !(k > 3);
  }

  /// The only parent-linked path from a root that ends at link3.
  lemma RobotPathToLink3<P>(ts: seq<P>, ids: seq<NodeId>)
    requires |ts| == 6 && |ids| == 4 && InArena(RobotNodes(ts), ids)
    requires RobotNodes(ts)[ids[0].index].parent.None? && ids[|ids| - 1] == NodeId(3)
    requires forall i, j :: 0 <= i && j == i + 1 < |ids| ==> RobotNodes(ts)[ids[j].index].parent == Some(ids[i])
    ensures ids == [NodeId(0), NodeId(1), NodeId(2), NodeId(3)]
  {
    var nodes := RobotNodes(ts);
    assert nodes[1].parent == Some(NodeId(0)) && nodes[2].parent == Some(NodeId(1)) && nodes[3].parent == Some(NodeId(2));
    assert ids[2] == NodeId(2);
    assert ids[1] == NodeId(1);
    assert ids[0] == NodeId(0);
  }

  /// `robot.dof()` is 6, as the source test asserts. Two further
  /// scenarios on the same robot are added here, beyond that test: a wrong
  /// number of angles is refused, and the chain ending at link3 runs
  /// link0, link1, link2, link3.
  method TestRobot<P>(m: PoseModel<P>, ts: seq<P>) returns (dof: nat, refused: Outcome, chainIds: Option<seq<NodeId>>)
    requires |ts| == 6
    ensures dof == 6
    ensures refused == Err(SizeMisMatch)
    ensures chainIds == Some([NodeId(0), NodeId(1), NodeId(2), NodeId(3)])
  {
    var robot := BuildRobot(m, ts);
    AllJointsSelected(robot.tree.nodes, AllIds(6));
    dof := robot.Dof();
    refused := robot.SetJointAngles([0.0]);

    RobotFinite(ts);
    RobotFindsLink3(ts);
    assert HasDepth(RobotNodes(ts), NodeId(3), 3);
    DepthUnique(RobotNodes(ts), NodeId(3), 3, Depth(RobotNodes(ts), NodeId(3)));
    var chain := robot.ChainFromEndLinkName("link3");
    var ids := chain.value.idList;
    RobotPathToLink3(ts, ids);
    chainIds := Some(ids);
  }
}
