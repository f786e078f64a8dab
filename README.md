# forte_world scene graph in Dafny

This project models the scene graph of `forte_world`. That graph is the
`Node` tree that the `define_world!` macro generates, plus the
`Dimensions` bounding box.

A `Node` exclusively owns an ordered list of children. Each node carries:

- a local `transform`;
- a component, which is `Empty` or one of the application's variants;
- a local box `rel_min_dimensions`;
- a derived `global_transform`;
- a derived aggregate box `dimensions`.

The model has five modules:

- `Math` (math.dfy): the vector, quaternion and transform values the graph
  uses. Coordinates are exact reals.
- `Aabb` (dimensions.dfy): `Dimensions`, its default, and the strict
  `overlap` test with its algebra.
- `SceneTree` (scene_tree.dfy): the value of a subtree (`Tree`) and what
  one `update` pass makes of it.
  - Transforms are composed top-down. Positions are added: the parent's
    rotation and scale do not move the child.
  - Boxes are folded bottom-up, as a component-wise min/max over the
    node's seed box and the children's fresh boxes.
  - Lemmas show that the result is placed and aggregated everywhere, that
    it is the only such tree, that the pass is idempotent, and that every
    box covers its subtree.
- `Traversal` (traversal.dfy): the callback traces of the walks.
  - `added`, `removed` and `render` walk in pre-order.
  - `update` fires in post-order.
  - Lemmas prove that every walk fires exactly once for each non-`Empty`
    node and for nothing else, strictly in its order, with siblings in list
    order.
- `Scene` (node.dfy): `Node` as a class whose methods update its fields in
  place.
  - A ghost `model` holds the value of the subtree, and a ghost `Repr`
    holds its footprint.
  - `Update` keeps the loop of the source and is proved to produce
    `UpdateTree` of the old value.
  - `AddChild` and `RemoveChild` state their new child list, value and
    footprint.
  - Component callbacks are appended to a ghost trace of
    `Call(callback, variant, path)`. The path of child indices identifies
    the node, which is what makes "each node exactly once" expressible.

## Model

| member | source | states |
|---|---|---|
| Aabb.Default | src/dimensions.rs:14-21 | the default box has `from == to == (0,0,0)` and no positive extent |
| Aabb.OverlapSymmetric | src/dimensions.rs:31-35 | `overlap(a, b) == overlap(b, a)` for all boxes |
| Aabb.OverlapIffNotSeparated | src/dimensions.rs:32-34 | two boxes overlap exactly when they are not apart (end at or before the other's start) on any axis, in both directions |
| Aabb.SelfOverlapIffProper | src/dimensions.rs:31-35 | a box overlaps itself iff it has positive extent on all three axes; the default box does not overlap itself |
| Aabb.ContainedOverlaps | src/dimensions.rs:31-35 | a box overlaps every proper box it contains |
| Aabb.OverlapGrows | src/dimensions.rs:31-35 | a box overlaps everything that any box it contains overlaps |
| Aabb.TouchingBoxesDoNotOverlap | src/dimensions.rs:32-34 | the unit cube does not overlap the cube it touches at a corner or at a face, and does overlap the cube from (0.5,0.5,0.5) to (2,2,2) |
| SceneTree.DefaultNode | src/lib.rs:68-79 | the default node is `Empty`, has no children, identity local and global transforms and the default boxes |
| SceneTree.ComposeIdentity | src/lib.rs:102-106 | composing with the identity transform on either side changes nothing |
| SceneTree.GrowAllContains | src/lib.rs:127-132 | the folded box contains the seed box and every child box folded into it |
| SceneTree.GrowAllLeast | src/lib.rs:127-132 | every box that contains the seed and all child boxes contains the folded box, so each `from` is the minimum and each `to` the maximum |
| SceneTree.UpdateEstablishes | src/lib.rs:100-144 | `update` changes only derived fields, and afterwards every node's global transform is its local transform composed with its parent's and every node's box is the fold of its children's boxes into its seed |
| SceneTree.UpdateUnique | src/lib.rs:100-137 | a tree with the same inputs that is placed and aggregated is exactly the result of `update` |
| SceneTree.UpdateIdempotent | src/lib.rs:100-137 | running `update` twice with the same parent transform gives the same tree as running it once |
| SceneTree.PlacedPosition | src/lib.rs:102-106 | after `update`, every node's global position is the parent's position plus the local positions along its path, so rotations and scales never move a descendant |
| SceneTree.AggregatedContainsSubtree | src/lib.rs:127-132 | after `update`, every node's box contains the box and the seed box of every node below it |
| SceneTree.AggregatedCulls | src/lib.rs:127-132 | a box that does not overlap a node's aggregate box overlaps no box in its subtree |
| Traversal.AncestorFirst | src/lib.rs:147-154 | pre-order puts a node before its descendants; post-order puts it after them |
| Traversal.SiblingsInListOrder | src/lib.rs:153 | both orders put every node under an earlier sibling before every node under a later one |
| Traversal.WalkSound | src/lib.rs:147-154 | every call in a walk's trace is of the walk's callback, for a non-`Empty` node of the subtree, carrying that node's variant |
| Traversal.WalkComplete | src/lib.rs:147-154 | every non-`Empty` node of the subtree has its call in the walk's trace |
| Traversal.WalkSorted | src/lib.rs:147-154 | the calls of a walk's trace are strictly ordered by pre-order or post-order |
| Traversal.PreOrderWalk | src/lib.rs:147-154 | `added`, `removed` and `render` fire exactly for the non-`Empty` nodes, in strict pre-order with siblings in list order |
| Traversal.PostOrderWalk | src/lib.rs:122-143 | `update` fires exactly for the non-`Empty` nodes, in strict post-order: every child subtree before its parent, siblings in list order |
| Traversal.SortedDistinct | src/lib.rs:147-154 | a sorted trace names each node at most once, so no node's callback fires twice |
| Traversal.RenderAndUpdateOrderExample | src/lib.rs:183-188 | for `root -> [a -> [a1], b]`, rendering visits root, a, a1, b and updating visits a1, a, b, root |
| Scene.Node.Default | src/lib.rs:68-79 | a fresh valid node whose value is the default node |
| Scene.Node.Create | src/lib.rs:55-65 | a fresh valid node with the given public fields and everything else defaulted |
| Scene.Node.GlobalTransformAsWritten | src/lib.rs:84 | the accessor as written returns the local transform |
| Scene.Node.AccessorReturnsLocal | src/lib.rs:84 | once the node is placed under a parent away from the origin, the accessor as written differs from the global transform |
| Scene.Node.GlobalTransform | src/lib.rs:84 | the accessor as intended returns the global transform, which `Update` sets to the composition with the parent's |
| Scene.Node.RelMinDimensions | src/lib.rs:85 | returns the node's local box |
| Scene.Node.Dims | src/lib.rs:86 | returns the aggregate box that `Update` derived |
| Scene.Node.Children | src/lib.rs:87 | returns the child nodes, whose values are the model's children in order |
| Scene.Node.FirePreOrder | src/lib.rs:147-154 | a recursive walk that changes nothing, whose trace is the pre-order trace of the subtree's value |
| Scene.Node.CallAddRecr | src/lib.rs:147-154 | fires `added` in pre-order over the subtree |
| Scene.Node.CallRemoveRecr | src/lib.rs:157-164 | fires `removed` in pre-order over the subtree |
| Scene.Node.AddChild | src/lib.rs:90-93 | the children become the old children followed by `child`, the footprint grows by the child's, the value gains the child's value at the end, and `added` fires in pre-order over the child's subtree at the new index |
| Scene.Node.RemoveChild | src/lib.rs:95-98 | `removed` fires in pre-order over the subtree at `idx`, then the children become `old[..idx] + old[idx+1..]` and the footprint loses that subtree's |
| Scene.Node.Update | src/lib.rs:100-144 | the node stays valid with the same footprint and the same child objects, updated in place; its new value is `UpdateTree` of its old value, and `update` fires in post-order over the subtree |
| Scene.Node.UpdateChildren | src/lib.rs:122-133 | after the loop, the children's values are the old children updated under the fresh global transform, and the accumulator is their boxes folded into the seed in list order |
| Scene.HoldsStep | src/lib.rs:123-132 | one turn of the loop (update the next child, fold its fresh box in, append its trace) keeps the loop invariant |
| Scene.HoldsDone | src/lib.rs:122-137 | when the loop ends, the children's values and the accumulated box are those of `UpdateTree` |
| Scene.Expand | src/lib.rs:127-132 | the six conditional assignments compute one `Grow` step of the fold |
| Scene.DrawNode | src/lib.rs:177-190 | `render` fires for every non-`Empty` node in pre-order, and the tree is only read |

## Left out

- The macro machinery (src/lib.rs:26-45). One fixed `Component` datatype
  stands for the variants an application declares. Their payloads are
  abstract numbers.
- Callback bodies and the application context. Each callback is only an
  entry in a ghost trace.
- Callbacks are taken not to change the tree. The source hands them the node
  mutably, so a callback that edits the node would break `Valid` and the
  postconditions.
- The `wgpu::RenderPass` and its draw calls (src/lib.rs:177-190). Only the
  visit order is kept.
- f32 arithmetic. Coordinates are exact reals, so rounding and NaN
  comparisons are not modelled.
- The engine's `Transform` and `Transform::default()` are not part of this
  model. The default is taken to be the identity: origin, unit quaternion,
  unit scale.
- The rotation product is modelled as the Hamilton product on cgmath's
  layout. Only its unit law is used.
- Integer widths: `usize` indices and `Vec` lengths are unbounded.
- Direct writes to the public fields `transform`, `component` and
  `rel_min_dimensions` are not modelled as operations. A caller that assigns
  them must restore `model` before calling `Update`.
- Scene.Node.RemoveChild: requires `idx < |children|`, because the source
  panics on an index out of range. The panic path is not modelled.
- Scene.Node.AddChild: requires the child to be valid and disjoint from the
  parent's subtree. Rust's ownership of the moved-in `Node` guarantees both.
- src/utils.rs, src/nodes.rs and examples/basic.rs are not part of this
  model. They hold a winit event mapping, a superseded early `Node` with no
  behaviour, and host/GPU setup.

## Findings

| source | as written | input that shows it | evidently intended | confidence | as-written member | corrected member |
|---|---|---|---|---|---|---|
| src/lib.rs:84 | `global_transform()` returns `&self.transform`, the local transform | a node with local position (0,0,0), updated under a parent at (1,0,0), stores global position (1,0,0), but the accessor reports (0,0,0) | return `&self.global_transform`, the transform `update` derives | high; not executed | Scene.Node.AccessorReturnsLocal | Scene.Node.GlobalTransform |
