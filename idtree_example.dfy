/// The scenario of the unit test in src/idtree.rs, replayed on the model:
/// a root with one child that has two children.
module IdtreeExample {
  import opened Idtree

  /// The payloads of the nodes `ids` names, in that order.
  function DataOf<T>(nodes: seq<IdNode<T>>, ids: seq<NodeId>): (ds: seq<T>)
    requires forall i :: 0 <= i < |ids| ==> ids[i].index < |nodes|
    ensures |ds| == |ids| && forall i :: 0 <= i < |ids| ==> ds[i] == nodes[ids[i].index].data
  {
    if ids == [] then [] else [nodes[ids[0].index].data] + DataOf(nodes, ids[1..])
  }

  /// The arena at the end of the scenario.
  function ScenarioNodes(): seq<IdNode<string>> {
    [ IdNode(None, [NodeId(1)], NodeId(0), "hoge0_"),
      IdNode(Some(NodeId(0)), [NodeId(2), NodeId(3)], NodeId(1), "aaa_"),
      IdNode(Some(NodeId(1)), [], NodeId(2), "hoge2_"),
      IdNode(Some(NodeId(1)), [], NodeId(3), "hoge3_") ]
  }

  /// The arena after the four `create_node` calls.
  function UnlinkedNodes(): seq<IdNode<string>> {
    [ IdNode(None, [], NodeId(0), "hoge0"), IdNode(None, [], NodeId(1), "hoge1"),
      IdNode(None, [], NodeId(2), "hoge2"), IdNode(None, [], NodeId(3), "hoge3") ]
  }

  /// The arena after the four `create_node` and three `set_parent_child`
  /// calls.
  function LinkedNodes(): seq<IdNode<string>> {
    [ IdNode(None, [NodeId(1)], NodeId(0), "hoge0"),
      IdNode(Some(NodeId(0)), [NodeId(2), NodeId(3)], NodeId(1), "hoge1"),
      IdNode(Some(NodeId(1)), [], NodeId(2), "hoge2"),
      IdNode(Some(NodeId(1)), [], NodeId(3), "hoge3") ]
  }

  /// The arena after hoge1 is renamed to "aaa".
  function RenamedNodes(): seq<IdNode<string>> {
    [ IdNode(None, [NodeId(1)], NodeId(0), "hoge0"),
      IdNode(Some(NodeId(0)), [NodeId(2), NodeId(3)], NodeId(1), "aaa"),
      IdNode(Some(NodeId(1)), [], NodeId(2), "hoge2"),
      IdNode(Some(NodeId(1)), [], NodeId(3), "hoge3") ]
  }

  /// Creates hoge0 to hoge3, unconnected.
  method CreateHoges() returns (tree: IdTree<string>)
    ensures fresh(tree) && tree.Valid() && tree.nodes == UnlinkedNodes()
  {
    tree := new IdTree<string>();
    var n0 := tree.CreateNode("hoge0");
    var n1 := tree.CreateNode("hoge1");
    var n2 := tree.CreateNode("hoge2");
    var n3 := tree.CreateNode("hoge3");
  }

  /// Connects hoge0 -> hoge1 -> {hoge2, hoge3}.
  method LinkHoges(tree: IdTree<string>)
    requires tree.Valid() && tree.nodes == UnlinkedNodes()
    modifies tree
    ensures tree.Valid() && tree.nodes == LinkedNodes()
  {
    var n0, n1, n2, n3 := NodeId(0), NodeId(1), NodeId(2), NodeId(3);
    tree.SetParentChild(n0, n1);
    assert tree.nodes[0] == IdNode(None, [n1], n0, "hoge0");
    assert tree.nodes[1] == IdNode(Some(n0), [], n1, "hoge1");
    assert tree.nodes[2] == IdNode(None, [], n2, "hoge2");
    assert tree.nodes[3] == IdNode(None, [], n3, "hoge3");
    tree.SetParentChild(n1, n2);
    assert tree.nodes[0] == IdNode(None, [n1], n0, "hoge0");
    assert tree.nodes[1] == IdNode(Some(n0), [n2], n1, "hoge1");
    assert tree.nodes[2] == IdNode(Some(n1), [], n2, "hoge2");
    assert tree.nodes[3] == IdNode(None, [], n3, "hoge3");
    tree.SetParentChild(n1, n3);
    assert tree.nodes[0] == IdNode(None, [n1], n0, "hoge0");
    assert tree.nodes[1] == IdNode(Some(n0), [n2, n3], n1, "hoge1");
    assert tree.nodes[2] == IdNode(Some(n1), [], n2, "hoge2");
    assert tree.nodes[3] == IdNode(Some(n1), [], n3, "hoge3");
    assert tree.nodes == LinkedNodes();
  }

  /// Builds hoge0 -> hoge1 -> {hoge2, hoge3}.
  method BuildLinked() returns (tree: IdTree<string>)
    ensures fresh(tree) && tree.Valid() && tree.nodes == LinkedNodes()
  {
    tree := CreateHoges();
    LinkHoges(tree);
  }

  /// Reads back what the test checks through `get`, renames hoge1 to "aaa"
  /// through `get_mut` and reads the payloads through `iter`.
  method RenameHoge1(tree: IdTree<string>) returns (renamed: seq<string>)
    requires tree.Valid() && tree.nodes == LinkedNodes()
    modifies tree
    ensures tree.Valid() && tree.nodes == RenamedNodes()
    ensures renamed == ["hoge0", "aaa", "hoge2", "hoge3"]
  {
    assert tree.Get(NodeId(0)).data == "hoge0" && tree.Get(NodeId(0)).parent.None?;
    assert |tree.Get(NodeId(1)).children| == 2 && tree.Get(NodeId(1)).parent.Some?;
    assert |tree.Get(NodeId(2)).children| == 0;
    tree.SetData(NodeId(1), "aaa");
    assert tree.nodes == RenamedNodes();
    renamed := DataOf(tree.Iter(), AllIds(4));
    assert renamed == [tree.nodes[0].data, tree.nodes[1].data, tree.nodes[2].data, tree.nodes[3].data];
  }

  /// Appends "_" to every payload through `iter_mut` and reads the payloads
  /// through `iter`.
  method SuffixAll(tree: IdTree<string>) returns (suffixed: seq<string>)
    requires tree.Valid() && tree.nodes == RenamedNodes()
    modifies tree
    ensures tree.Valid() && tree.nodes == ScenarioNodes()
    ensures suffixed == ["hoge0_", "aaa_", "hoge2_", "hoge3_"]
  {
    ghost var before := tree.nodes;
    tree.MapData(s => s + "_");
    assert tree.nodes[0] == before[0].(data := "hoge0" + "_");
    assert tree.nodes[1] == before[1].(data := "aaa" + "_");
    assert tree.nodes[2] == before[2].(data := "hoge2" + "_");
    assert tree.nodes[3] == before[3].(data := "hoge3" + "_");
    assert "hoge0" + "_" == "hoge0_" && "aaa" + "_" == "aaa_";
    assert "hoge2" + "_" == "hoge2_" && "hoge3" + "_" == "hoge3_";
    assert tree.nodes == ScenarioNodes();
    suffixed := DataOf(tree.Iter(), AllIds(4));
    assert suffixed == [tree.nodes[0].data, tree.nodes[1].data, tree.nodes[2].data, tree.nodes[3].data];
  }

  /// Builds the tree and applies both payload edits of the test.
  method BuildScenario() returns (tree: IdTree<string>, renamed: seq<string>, suffixed: seq<string>)
    ensures fresh(tree) && tree.Valid() && tree.nodes == ScenarioNodes()
    ensures renamed == ["hoge0", "aaa", "hoge2", "hoge3"]
    ensures suffixed == ["hoge0_", "aaa_", "hoge2_", "hoge3_"]
  {
    tree := BuildLinked();
    renamed := RenameHoge1(tree);
    suffixed := SuffixAll(tree);
  }

  /// The two descendant walks the test reads.
  lemma ScenarioWalks()
    ensures FiniteSubtree(ScenarioNodes(), NodeId(0)) && FiniteSubtree(ScenarioNodes(), NodeId(1))
    ensures DescendantIds(ScenarioNodes(), NodeId(0)) == [NodeId(0), NodeId(1), NodeId(3), NodeId(2)]
    ensures DescendantIds(ScenarioNodes(), NodeId(1)) == [NodeId(1), NodeId(3), NodeId(2)]
  {
    var n0, n1, n2, n3 := NodeId(0), NodeId(1), NodeId(2), NodeId(3);
    var kids := Kids(ScenarioNodes());
    assert kids == [[n1], [n2, n3], [], []];
    assert Bounded(kids, n2, 1) && Bounded(kids, n3, 1);
    assert Walk(kids, n2, 1) == [n2] && Walk(kids, n3, 1) == [n3];
    assert Bounded(kids, n1, 2);
    assert WalkStack(kids, [n2, n3], 1) == [n3, n2] by {
      assert [n2, n3][..1] == [n2];
      assert WalkStack(kids, [n2], 1) == [n2] by { assert [n2][..0] == []; }
    }
    assert Walk(kids, n1, 2) == [n1, n3, n2];
    assert Bounded(kids, n0, 3);
    assert WalkStack(kids, [n1], 2) == [n1, n3, n2] by { assert [n1][..0] == []; }
    assert Walk(kids, n0, 3) == [n0, n1, n3, n2];
    WalkHeightIrrelevant(kids, n0);
    WalkHeightIrrelevant(kids, n1);
  }

  /// The ancestor reads of the test: the root has only itself above it;
  /// above hoge2 are hoge2, aaa and hoge0.
  method AncestorReads(tree: IdTree<string>) returns (aboveRoot: nat, above2: seq<string>)
    requires tree.Valid() && tree.nodes == ScenarioNodes()
    ensures aboveRoot == 1
    ensures above2 == ["hoge2_", "aaa_", "hoge0_"]
  {
    ghost var nodes := tree.nodes;
    assert HasDepth(nodes, NodeId(0), 0);
    var up0 := tree.AncestorIdList(NodeId(0));
    DepthUnique(nodes, NodeId(0), 0, Depth(nodes, NodeId(0)));
    aboveRoot := |up0|;

    assert HasDepth(nodes, NodeId(1), 1) && HasDepth(nodes, NodeId(2), 2);
    var up2 := tree.AncestorIdList(NodeId(2));
    DepthUnique(nodes, NodeId(2), 2, Depth(nodes, NodeId(2)));
    assert up2 == [NodeId(2), NodeId(1), NodeId(0)];
    above2 := DataOf(tree.nodes, up2);
  }

  /// The descendant reads of the test: four nodes below the root; below
  /// aaa come aaa, hoge3, hoge2.
  method DescendantReads(tree: IdTree<string>) returns (below0: nat, below1: seq<string>)
    requires tree.Valid() && tree.nodes == ScenarioNodes()
    ensures below0 == 4
    ensures below1 == ["aaa_", "hoge3_", "hoge2_"]
  {
    ScenarioWalks();
    var down0 := tree.DescendantIdList(NodeId(0));
    below0 := |down0|;
    var down1 := tree.DescendantIdList(NodeId(1));
    below1 := DataOf(tree.nodes, down1);
  }

  /// The assertions of the test: payload edits, ancestor and descendant
  /// reads.
  method TestScenario() returns (renamed: seq<string>, suffixed: seq<string>, aboveRoot: nat,
                                 above2: seq<string>, below0: nat, below1: seq<string>)
    ensures renamed == ["hoge0", "aaa", "hoge2", "hoge3"]
    ensures suffixed == ["hoge0_", "aaa_", "hoge2_", "hoge3_"]
    ensures aboveRoot == 1
    ensures above2 == ["hoge2_", "aaa_", "hoge0_"]
    ensures below0 == 4
    ensures below1 == ["aaa_", "hoge3_", "hoge2_"]
  {
    var tree;
    tree, renamed, suffixed := BuildScenario();
    aboveRoot, above2 := AncestorReads(tree);
    below0, below1 := DescendantReads(tree);
  }
}
