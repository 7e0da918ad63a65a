# Arena kinematic tree, modelled in Dafny

This project models the arena-based kinematic tree of the `k` robotics crate in two layers.

- **The arena tree** (`src/idtree.rs`). Nodes live in a growable vector and are addressed by their position (`NodeId`). Each node holds an optional parent, an ordered list of children and a payload. `create_node` and `set_parent_child` build the tree in place. Two stateful iterators walk it:
  - `Ancestors` goes from a node up to a root;
  - `Descendants` is a stack-based pre-order walk that yields the last-inserted child first.
- **The kinematic containers over the arena** (`src/idtree_links.rs`).
  - `IdKinematicChain` is a list of link ids into a shared arena, plus a base transform.
  - `IdLinkTree` owns the whole arena.
  - Both keep the joint-space bookkeeping: the non-fixed joints, their angles, limits and names, and the all-or-error length check of `set_joint_angles`.
  - Both compute forward kinematics. The chain uses a running product along its ids. The tree sweeps the descendants of link 0 and caches each link's world transform as parent cache times local transform.

Files:

- `idtree.dfy` (module `Idtree`) holds the node datatypes and the class `IdTree`, whose `nodes` field is a `seq` that the methods reassign. It also holds the iterator classes `Ancestors` and `Descendants`, each with a `Next` method that updates its own fields. The specification functions here are:
  - `AncestorIds`, what the ancestor walk yields;
  - `Walk` and `WalkStack`, what the descendant walk yields from a given stack;
  - the collecting methods `AncestorIdList` and `DescendantIdList`, which drive the iterators and are proved equal to those functions.
- `idtree_order.dfy` (module `IdtreeOrder`) proves ordering facts about the two walks:
  - parents come first in the descendant walk;
  - from the unique root of a well-formed tree, every node is yielded exactly once;
  - the reversed ancestor walk is a root-to-node path.
- `kinematics.dfy` (module `Kinematics`) holds the link payload and the value-level specifications the containers are proved against:
  - joint selection, angle assignment, products and scans of transforms, and the whole-tree sweep;
  - the world transform of a link;
  - the lemmas that tie these together.
- `idtree_links.dfy` (module `IdtreeLinks`) holds the classes `IdKinematicChain` and `IdLinkTree`. Both share one `IdTree<Link<P>>` object.
- `idtree_example.dfy` and `idtree_links_example.dfy` replay the unit tests of the two source files on the model and prove the values those tests expect.

Transforms are an abstract type `P`. The operations the core uses but does not define are the fields of a `PoseModel` value, so every result holds for any choice of them:

- `Isometry3::identity()` and `*`;
- `Link::calc_transform`;
- whether `Joint::set_joint_angle` accepts an angle.

Associativity of `*` is a hypothesis only where a statement needs it (`Kinematics.ProductRebase`).

`set_joint_angles` does not roll back a partial assignment: it checks the length up front, but a per-joint rejection part way through leaves the earlier assignments applied. The model does the same (`Kinematics.AssignStopsAtFirstRejection`).

## Model

| member | source | states |
|---|---|---|
| Idtree.IdTree.constructor | src/idtree.rs:82-84 | a new arena is empty |
| Idtree.IdTree.CreateNode | src/idtree.rs:85-89 | the returned id is the old node count; exactly one node is appended, parentless and childless, carrying the returned id and the payload |
| Idtree.IdTree.SetParentChild | src/idtree.rs:90-93 | the child's parent becomes `p`; `c` is appended to `p`'s children; no payload, id or other node's links change, so a previous parent keeps `c` in its list |
| Idtree.IdTree.Get | src/idtree.rs:94-96 | for an id in range, the node stored there carries that id and links only to nodes in range |
| Idtree.IdTree.SetData | src/idtree.rs:97-99 | the payload replacement done through `get_mut` changes only that node's payload |
| Idtree.IdTree.Iter | src/idtree.rs:100-103 | yields every node in creation order, the i-th carrying `NodeId(i)` |
| Idtree.IdTree.MapData | src/idtree.rs:104-107 | an in-place edit of every payload keeps the count, the order and every node's links |
| Idtree.IdTree.IterAncestors | src/idtree.rs:108-114 | the new iterator starts at `id` and reads this arena |
| Idtree.IdTree.IterDescendants | src/idtree.rs:115-121 | the new iterator's stack is `[id]` and it reads this arena |
| Idtree.IdTree.GetRootNodeId | src/idtree.rs:122-129 | returns a parentless node with no parentless node before it in creation order; an arena without a root is a precondition violation (the source panics) |
| Idtree.Ancestors.constructor | src/idtree.rs:26-32 | the walk starts at the given id |
| Idtree.Ancestors.Next | src/idtree.rs:37-48 | yields the current node and moves to its parent; after a parentless node it yields nothing |
| Idtree.Descendants.constructor | src/idtree.rs:51-57 | the stack starts as the given id |
| Idtree.Descendants.Next | src/idtree.rs:62-72 | pops the top id, yields its node and pushes that node's children in insertion order; an empty stack yields nothing |
| Idtree.AncestorIds | src/idtree.rs:37-48 | the ancestor walk from a node of depth d has d + 1 entries; it starts at the node; each entry's parent is the next entry; the last entry is parentless |
| Idtree.IdTree.AncestorIdList | src/idtree.rs:163-168 | driving `Ancestors::next` to the end yields exactly `AncestorIds` for the node's depth |
| Idtree.DepthUnique | src/idtree.rs:37-48 | a node's distance to the root along parent links is unique, so the ancestor count is well defined |
| Idtree.WalkHeightIrrelevant | src/idtree.rs:62-72 | the pre-order walk does not depend on which height bound witnesses that the subtree is finite |
| Idtree.WalkStackStep | src/idtree.rs:62-72 | one pop-and-push step of `Descendants::next` yields the top id and leaves exactly the rest of the walk |
| Idtree.WalkStackConcat | src/idtree.rs:62-72 | the walk from a stack `a + b` yields everything below `b` (the top) before everything below `a` |
| Idtree.IdTree.DescendantIdList | src/idtree.rs:170-174 | driving `Descendants::next` to the end yields exactly the pre-order walk that visits the last-inserted child first |
| IdtreeOrder.ParentsFirst | src/idtree.rs:62-72 | the descendant walk starts at its start node, and every later node's parent was already yielded |
| IdtreeOrder.WalkDistinct | src/idtree.rs:62-72 | on a tree-shaped arena (`TreeShaped`: ids match positions and links stay in range, every listed child points back to its parent, every node with a parent is listed by it, no list repeats a child, every parent chain is finite) the descendant walk yields no node twice |
| IdtreeOrder.RootWalkVisitsEveryNodeOnce | src/idtree.rs:170 | from the unique root of a well-formed tree, the descendant walk yields every node, each exactly once |
| IdtreeOrder.RootDescendantsEnumerateTree | src/idtree.rs:170 | `iter_descendants(root)` over a well-formed tree with one root is finite and has as many entries as the arena; it starts at the root, contains every node once, and lists each parent before its child |
| IdtreeOrder.SubtreesFinite | src/idtree.rs:116-121 | in a well-formed tree (finite parent chains) every subtree is finite, so the descendant walk terminates |
| IdtreeOrder.AncestorIdsDepths | src/idtree.rs:37-48 | the i-th node the ancestor walk yields has depth d - i |
| IdtreeOrder.DepthBelowCount | src/idtree.rs:37-48 | a finite ancestor walk is shorter than the arena |
| IdtreeOrder.RootToNodePath | src/idtree_links.rs:276-280 | the reversed ancestor walk has depth + 1 entries; it starts at a parentless node and ends at the node; each step goes from a parent to a child it lists |
| IdtreeOrder.Reversed | src/idtree_links.rs:280 | `reverse` keeps the length and maps index i to index n - 1 - i |
| Kinematics.ScanProducts | src/idtree_links.rs:76-84 | the k-th value of the `scan` is the base times the local transforms of links 0 through k |
| Kinematics.ProductRebase | src/idtree_links.rs:58-61 | with an associative `*` whose identity is a left unit, composing from base `b` equals `b` times the product composed from the identity |
| Kinematics.JointIds | src/idtree_links.rs:99-102 | the ids it keeps name nodes of the arena and are no more than listed; which ones it keeps is stated by `Kinematics.JointIdsSelects`, their order by `Kinematics.JointIdsKeepOrder` |
| Kinematics.JointIdsSelects | src/idtree_links.rs:99-102 | an id is selected exactly when it is listed and its joint has an angle |
| Kinematics.JointIdsKeepOrder | src/idtree_links.rs:99-102 | the selection keeps the listed order: from ids in creation order it yields ids in creation order |
| Kinematics.AllJointsSelected | src/idtree_links.rs:181-183 | when every listed link is non-fixed, the selection keeps the whole list |
| Kinematics.AnglesOf | src/idtree_links.rs:112-117 | `filter_map(get_joint_angle)` has one entry per non-fixed id, each that joint's angle, index-aligned |
| Kinematics.AssignChangesOnlyListedAngles | src/idtree_links.rs:107-109 | assigning angles changes joint angles only, and only of the listed links; a present angle stays present; the error is never `SizeMisMatch` |
| Kinematics.FirstRejected | src/idtree_links.rs:107-109 | the position of the first joint that rejects its angle: all before it accept, and it rejects |
| Kinematics.AssignStopsAtFirstRejection | src/idtree_links.rs:107-110 | for distinct ids: the assignment fails exactly when some joint rejects; joints before the first rejection hold their new angles; the rejecting joint and all after it are untouched |
| Kinematics.AssignCurrentAnglesIsNoOp | src/idtree_links.rs:107-110 | writing back the angles already present, all accepted, succeeds and changes nothing |
| Kinematics.SetCurrentAnglesRoundTrip | src/idtree_links.rs:97-117 | `set_joint_angles(get_joint_angles())` passes the length check, succeeds and leaves the arena unchanged when every joint accepts its current angle |
| Kinematics.JointCount | src/idtree_links.rs:189-191 | the number of non-fixed links in creation order equals the number of nodes whose joint has an angle |
| Kinematics.FirstNamed | src/idtree_links.rs:271-273 | `find` by name: the returned position holds the name and no earlier one does; the list length means not found |
| Kinematics.NamesOf | src/idtree_links.rs:85-90 | one name per listed id, in order |
| Kinematics.WorldStep | src/idtree_links.rs:241-250 | a link's world transform is its parent's world transform times its local transform, or the identity times its local transform for a root |
| Kinematics.SweepAdvance | src/idtree_links.rs:240-252 | one step of the sweep writes the first link's cache, emits the same value, and leaves the sweep of the remaining order to do |
| Kinematics.SweepStateStep | src/idtree_links.rs:238-253 | one `map` round over the descendant iterator (pop, cache the transform, push the children) leaves exactly the sweep of the rest of the walk to do, and that rest is shorter |
| Kinematics.SweepComputesWorld | src/idtree_links.rs:237-255 | in any visiting order that lists each link once, after its parent or with the parent's world transform already cached, the sweep emits and caches each link's world transform and leaves every other link unchanged |
| Kinematics.SweepFromRootIsWorld | src/idtree_links.rs:237-255 | in a well-formed tree whose node 0 is a root, sweeping the descendants of node 0 emits and caches every visited link's world transform and leaves the other links unchanged |
| Kinematics.ReversedAncestorsFromRoot | src/idtree_links.rs:276-280 | the reversed ancestor walk starts at a parentless link and each next id is a child of the one before |
| Kinematics.PathPrefixIsWorld | src/idtree_links.rs:76-84 | along a path from a root, the k-th link has depth k and the identity times the first k + 1 local transforms is its world transform |
| Kinematics.ChainPosesAreWorldPoses | src/idtree_links.rs:76-84 | a chain along a root-to-link path, composed from the identity, yields each link's world transform, so chain and tree forward kinematics agree |
| IdtreeLinks.ApplyAngles | src/idtree_links.rs:107-110 | the assignment loop leaves the arena and outcome that `AssignAngles` specifies |
| IdtreeLinks.IdKinematicChain.constructor | src/idtree_links.rs:42-50 | stores the name, the arena and a copy of the id list, with an identity base transform and no end link name |
| IdtreeLinks.IdKinematicChain.CalcEndTransform | src/idtree_links.rs:57-69 | the base times the local transforms up to and including the first link named `end_link_name`, or of all links when it is unset; then it is the last value of `calc_link_transforms` (the base for an empty chain) |
| IdtreeLinks.IdKinematicChain.CalcLinkTransforms | src/idtree_links.rs:76-84 | one transform per id, the k-th being the base times the local transforms of links 0 through k |
| IdtreeLinks.IdKinematicChain.GetLinkNames | src/idtree_links.rs:85-90 | the chain's link names, in chain order, one per id |
| IdtreeLinks.IdKinematicChain.SetJointAngles | src/idtree_links.rs:97-111 | a length other than the chain's non-fixed joint count fails with `SizeMisMatch` and changes nothing; otherwise the result is `AssignAngles` over the chain's non-fixed ids in chain order |
| IdtreeLinks.IdKinematicChain.GetJointAngles | src/idtree_links.rs:112-117 | one angle per non-fixed link of the chain, in chain order |
| IdtreeLinks.IdKinematicChain.GetJointLimits | src/idtree_links.rs:118-127 | the limits of the chain's non-fixed joints, aligned with `get_joint_angles` |
| IdtreeLinks.IdKinematicChain.GetJointNames | src/idtree_links.rs:128-138 | the names of the chain's non-fixed joints, aligned with `get_joint_angles` |
| IdtreeLinks.IdLinkTree.constructor | src/idtree_links.rs:153-158 | stores the name and the arena |
| IdtreeLinks.IdLinkTree.GetRootNodeId | src/idtree_links.rs:159-167 | the first parentless link in creation order; an arena without a root is a precondition violation (the source asserts) |
| IdtreeLinks.IdLinkTree.SetRootTransform | src/idtree_links.rs:168-171 | only the fixed transform of link 0 changes |
| IdtreeLinks.IdLinkTree.JointList | src/idtree_links.rs:185-187 | the ids `iter_joints_mut` visits: exactly the links with a joint angle, in creation order |
| IdtreeLinks.IdLinkTree.IterJoints | src/idtree_links.rs:180-183 | every link with a joint angle, each once, in creation order, and no other link |
| IdtreeLinks.IdLinkTree.Dof | src/idtree_links.rs:188-191 | the number of links whose joint has an angle |
| IdtreeLinks.IdLinkTree.GetJointAngles | src/idtree_links.rs:199-206 | `dof()` angles, the i-th being the angle of the i-th link of `iter_joints` |
| IdtreeLinks.IdLinkTree.SetJointAngles | src/idtree_links.rs:208-219 | a length other than `dof()` fails with `SizeMisMatch` and changes nothing; otherwise the result is `AssignAngles` over the non-fixed links in creation order |
| IdtreeLinks.IdLinkTree.GetJointLimits | src/idtree_links.rs:221-225 | `dof()` limits, aligned with `iter_joints` |
| IdtreeLinks.IdLinkTree.GetJointNames | src/idtree_links.rs:226-230 | `dof()` joint names, aligned with `iter_joints` |
| IdtreeLinks.IdLinkTree.ParentTransform | src/idtree_links.rs:241-249 | the parent's cached world transform, or the identity for a root or an uncached parent |
| IdtreeLinks.IdLinkTree.SweepNext | src/idtree_links.rs:239-252 | one `map` step: the iterator pops its top link and pushes that link's children; the link's cache becomes its parent's cached transform (identity if none) times its local transform, which is returned; nothing else changes |
| IdtreeLinks.IdLinkTree.CalcLinkTransforms | src/idtree_links.rs:237-255 | the arena and emitted transforms are those of `Sweep` over the descendants of link 0, in the iterator's order; `SweepFromRootIsWorld` then makes them world transforms |
| IdtreeLinks.IdLinkTree.GetLinkNames | src/idtree_links.rs:256-258 | every link's name, in creation order |
| IdtreeLinks.IdLinkTree.ChainFromEndLinkName | src/idtree_links.rs:265-294 | `None` exactly when no link has the name; otherwise a new chain on the same arena, named after the link, whose ids are the reversed ancestor walk of the first link with that name: depth + 1 ids from a root down parent-to-child links to that link |
| IdtreeExample.TestScenario | src/idtree.rs:133-175 | the test's expected payload lists, ancestor count 1 and 3, ancestor payloads and descendant payloads `["aaa_", "hoge3_", "hoge2_"]` |
| IdtreeExample.ScenarioWalks | src/idtree.rs:170-174 | the descendant walks from nodes 0 and 1 of the test tree are `[0, 1, 3, 2]` and `[1, 3, 2]` |
| IdtreeLinksExample.TestRobot | src/idtree_links.rs:297-368 | the six-link robot of the source test has `dof() == 6`, as that test asserts; two added scenarios on the same robot: one angle is refused with `SizeMisMatch`, and the chain ending at link3 lists links 0, 1, 2, 3 |

## Left out

- `Isometry3` arithmetic, nalgebra and floating point: transforms are an abstract type `P`, and `identity`, `*` and `calc_transform` are parameters (`PoseModel`), because the maths is in a foreign library.
- `Link`, `Joint` and `LinkBuilder` internals (`links.rs`, `joints.rs`) are not part of this model. A link is modelled as its name, joint name, optional angle, optional limits, fixed transform and cache. A joint's `set_joint_angle` is an uninterpreted `accepts` test: on acceptance the angle is stored, and on rejection the joint is assumed unchanged and the error is named `JointRejected`.
- `get_mut` is modelled only as replacing a node's payload (`SetData`), the one use the core makes of it. `iter_mut` is modelled as applying one function to every payload (`MapData`).
- `iter_joints_mut` is modelled inside `SetJointAngles`, through `JointList` and the shared loop `ApplyAngles`. `IdLinkTree::iter` and `iter_mut` delegate to the arena and are the arena's `Iter` and `MapData`.
- Index-out-of-range panics of `get`/`get_mut` and the missing-root panic/assert are preconditions, since the source treats them as programming errors.
- A cyclic parent relation makes `iter_ancestors` loop forever, and a cyclic children relation does the same to `iter_descendants`. The collecting and sweeping methods therefore require a finite parent chain (`Finite`) or a finite subtree (`FiniteSubtree`).
- IdtreeLinks.IdLinkTree.CalcLinkTransforms: its contract ties the result to `Sweep` for any arena; that the values are world transforms is stated separately (`SweepFromRootIsWorld`) and only for a well-formed tree whose node 0 is a root, because the source reads NodeId(0) whatever the root is.
- IdtreeLinks.IdKinematicChain.SetJointAngles: the "stops at the first rejection" statement (`AssignStopsAtFirstRejection`) assumes the chain lists no link twice, which holds for chains built by `chain_from_end_link_name`.
- The `RefCell` around the world-transform cache is an ordinary field of the link payload, and the cache is never invalidated (neither is it in the source).
- Rust borrow exclusivity of a chain over its tree: the chain simply holds a reference to the one arena object.
- The `println!` of the size-mismatch path is output only and is not modelled.
- The Jacobian IK solver, `RcLinkTree`, URDF loading, and the test and benchmark drivers are outside this core.
