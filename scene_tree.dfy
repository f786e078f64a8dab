/** The value of a scene-graph subtree and what one `update` pass makes of
    it: global transforms composed top-down, bounding boxes folded
    bottom-up. */
module SceneTree {
  import opened Math
  import opened Aabb

  /** The closed set of component variants a node can carry. `Empty` is the
      default and has no callbacks; the other variants stand for the
      variants an application declares, each with its own payload. */
  datatype Component = Empty | CubeModel(mesh: nat) | Light(intensity: nat) | Script(state: int)

  /** A node and its subtree. `transform`, `component` and
      `relMinDimensions` are set by the application; `globalTransform` and
      `dimensions` are derived by `update`. */
  datatype Tree = Tree(
    transform: Transform,
    component: Component,
    relMinDimensions: Dimensions,
    globalTransform: Transform,
    dimensions: Dimensions,
    children: seq<Tree>)

  /** `Node::default()`. */
  function DefaultNode(): (t: Tree)
    ensures t.component == Empty && t.children == []
    ensures t.transform == t.globalTransform == Identity
    ensures t.relMinDimensions == t.dimensions == Aabb.Default()
  {
    Tree(Identity, Empty, Aabb.Default(), Identity, Aabb.Default(), [])
  }

  // ---------------------------------------------------------------------
  // Transforms

  /** The global transform of a node with local transform `local` under a
      parent whose global transform is `parent`. Positions are added: the
      parent's rotation and scale do not move the child. */
  function Compose(parent: Transform, local: Transform): Transform {
    Transform(
      Add(local.position, parent.position),
      QMul(parent.rotation, local.rotation),
      MulElementWise(local.scale, parent.scale))
  }

  /** The identity transform is a left and a right unit of composition. */
  lemma ComposeIdentity(t: Transform)
    ensures Compose(Identity, t) == t
    ensures Compose(t, Identity) == t
  {
    QMulIdentity(t.rotation);
  }

  // ---------------------------------------------------------------------
  // Bounding boxes

  /** The node's own box `rel` moved to the node's global position (no
      rotation or scale is applied to it). */
  function Seed(rel: Dimensions, position: Vector3): Dimensions {
    Dimensions(Add(position, rel.from), Add(position, rel.to))
  }

  function SeedOf(t: Tree): Dimensions {
    Seed(t.relMinDimensions, t.globalTransform.position)
  }

  /** One step of the fold over the children: lower each `from` coordinate
      and raise each `to` coordinate that the child's box exceeds. */
  function Grow(acc: Dimensions, child: Dimensions): Dimensions {
    Dimensions(
      Vector3(
        if child.from.x < acc.from.x then child.from.x else acc.from.x,
        if child.from.y < acc.from.y then child.from.y else acc.from.y,
        if child.from.z < acc.from.z then child.from.z else acc.from.z),
      Vector3(
        if child.to.x > acc.to.x then child.to.x else acc.to.x,
        if child.to.y > acc.to.y then child.to.y else acc.to.y,
        if child.to.z > acc.to.z then child.to.z else acc.to.z))
  }

  /** The fold of `Grow` over `boxes`, from left to right, starting at `seed`. */
  function GrowAll(seed: Dimensions, boxes: seq<Dimensions>): Dimensions
    decreases |boxes|
  {
    if |boxes| == 0 then seed
    else Grow(GrowAll(seed, boxes[..|boxes| - 1]), boxes[|boxes| - 1])
  }

  /** The boxes of a list of nodes. */
  function Boxes(cs: seq<Tree>): (bs: seq<Dimensions>)
    ensures |bs| == |cs|
    ensures forall i :: 0 <= i < |cs| ==> bs[i] == cs[i].dimensions
  {
    seq(|cs|, i requires 0 <= i < |cs| => cs[i].dimensions)
  }

  /** The folded box covers the seed and every box folded into it. */
  lemma {:induction false} GrowAllContains(seed: Dimensions, boxes: seq<Dimensions>)
    ensures Contains(GrowAll(seed, boxes), seed)
    ensures forall i :: 0 <= i < |boxes| ==> Contains(GrowAll(seed, boxes), boxes[i])
    decreases |boxes|
  {
    if |boxes| > 0 {
      var init := boxes[..|boxes| - 1];
      GrowAllContains(seed, init);
      var r := GrowAll(seed, boxes);
      assert Contains(r, GrowAll(seed, init));
      forall i | 0 <= i < |boxes|
        ensures Contains(r, boxes[i])
      {
        if i < |boxes| - 1 {
          assert boxes[i] == init[i];
          ContainsTransitive(r, GrowAll(seed, init), boxes[i]);
        }
      }
    }
  }

  /** ... and is the smallest box that does: every box covering the seed and
      all the folded boxes covers the result, so each `from` coordinate is
      the minimum and each `to` coordinate the maximum. */
  lemma {:induction false} GrowAllLeast(seed: Dimensions, boxes: seq<Dimensions>, bound: Dimensions)
    requires Contains(bound, seed)
    requires forall i :: 0 <= i < |boxes| ==> Contains(bound, boxes[i])
    ensures Contains(bound, GrowAll(seed, boxes))
    decreases |boxes|
  {
    if |boxes| > 0 {
      var init := boxes[..|boxes| - 1];
      forall i | 0 <= i < |init|
        ensures Contains(bound, init[i])
      {
        assert init[i] == boxes[i];
      }
      GrowAllLeast(seed, init, bound);
      assert Contains(bound, boxes[|boxes| - 1]);
    }
  }

  // ---------------------------------------------------------------------
  // The update pass

  /** `update(parent)`: compose the global transform, update every child
      under it in list order, and fold the children's fresh boxes into the
      node's own seed box. */
  function UpdateTree(t: Tree, parent: Transform): Tree
    decreases t
  {
    var g := Compose(parent, t.transform);
    var cs := UpdateAll(t.children, g);
    t.(globalTransform := g,
       dimensions := GrowAll(Seed(t.relMinDimensions, g.position), Boxes(cs)),
       children := cs)
  }

  /** Each of `ts` updated under the same parent transform `g`. */
  function UpdateAll(ts: seq<Tree>, g: Transform): (us: seq<Tree>)
    ensures |us| == |ts|
    ensures forall i :: 0 <= i < |ts| ==> us[i] == UpdateTree(ts[i], g)
    decreases ts
  {
    seq(|ts|, i requires 0 <= i < |ts| => UpdateTree(ts[i], g))
  }

  /** The inputs of a subtree: everything but the derived fields. */
  function Strip(t: Tree): Tree
    decreases t
  {
    Tree(t.transform, t.component, t.relMinDimensions, Identity, Aabb.Default(),
         seq(|t.children|, i requires 0 <= i < |t.children| => Strip(t.children[i])))
  }

  /** Every node's global transform is its local transform composed with its
      parent's global transform. */
  ghost predicate Placed(u: Tree, parent: Transform)
    decreases u
  {
    u.globalTransform == Compose(parent, u.transform) &&
    forall i :: 0 <= i < |u.children| ==> Placed(u.children[i], u.globalTransform)
  }

  /** Every node's box is the fold of its children's boxes into its seed. */
  ghost predicate Aggregated(u: Tree)
    decreases u
  {
    u.dimensions == GrowAll(SeedOf(u), Boxes(u.children)) &&
    forall i :: 0 <= i < |u.children| ==> Aggregated(u.children[i])
  }

  /** `update` changes only derived fields and leaves them placed and
      aggregated throughout the subtree. */
  lemma {:induction false} UpdateEstablishes(t: Tree, parent: Transform)
    ensures Strip(UpdateTree(t, parent)) == Strip(t)
    ensures Placed(UpdateTree(t, parent), parent)
    ensures Aggregated(UpdateTree(t, parent))
    decreases t
  {
    var u := UpdateTree(t, parent);
    forall i | 0 <= i < |t.children|
      ensures Strip(u.children[i]) == Strip(t.children[i])
      ensures Placed(u.children[i], u.globalTransform)
      ensures Aggregated(u.children[i])
    {
      UpdateEstablishes(t.children[i], u.globalTransform);
    }
    assert Strip(u).children == Strip(t).children;
  }

  /** Conversely, a tree with the same inputs as `t` that is placed under
      `parent` and aggregated is `UpdateTree(t, parent)`: the derived state
      is a function of the inputs alone. */
  lemma {:induction false} UpdateUnique(t: Tree, parent: Transform, u: Tree)
    requires Strip(u) == Strip(t) && Placed(u, parent) && Aggregated(u)
    ensures u == UpdateTree(t, parent)
    decreases t
  {
    var v := UpdateTree(t, parent);
    assert |u.children| == |Strip(u).children| == |t.children|;
    forall i | 0 <= i < |t.children|
      ensures u.children[i] == v.children[i]
    {
      assert Strip(u.children[i]) == Strip(u).children[i] == Strip(t).children[i] == Strip(t.children[i]);
      UpdateUnique(t.children[i], u.globalTransform, u.children[i]);
    }
    assert u.children == v.children;
  }

  /** Running `update` twice with the same parent transform gives the same
      tree as running it once. */
  lemma UpdateIdempotent(t: Tree, parent: Transform)
    ensures UpdateTree(UpdateTree(t, parent), parent) == UpdateTree(t, parent)
  {
    var u := UpdateTree(t, parent);
    UpdateEstablishes(t, parent);
    UpdateEstablishes(u, parent);
    UpdateUnique(u, parent, u);
  }

  // ---------------------------------------------------------------------
  // Paths: a node's position in a subtree, as child indices from its root

  predicate IsPath(t: Tree, p: seq<nat>)
    decreases |p|
  {
    p == [] || (p[0] < |t.children| && IsPath(t.children[p[0]], p[1..]))
  }

  function At(t: Tree, p: seq<nat>): Tree
    requires IsPath(t, p)
    decreases |p|
  {
    if p == [] then t else At(t.children[p[0]], p[1..])
  }

  /** Sum of the local positions from the root of `t` down to the node at `p`. */
  function PathOffset(t: Tree, p: seq<nat>): Vector3
    requires IsPath(t, p)
    decreases |p|
  {
    if p == [] then t.transform.position
    else Add(PathOffset(t.children[p[0]], p[1..]), t.transform.position)
  }

  /** In a placed tree the global position of every node is the parent's
      position plus the local positions along its path: rotations and scales
      never move a descendant. */
  lemma {:induction false} PlacedPosition(u: Tree, parent: Transform, p: seq<nat>)
    requires Placed(u, parent) && IsPath(u, p)
    ensures At(u, p).globalTransform.position == Add(PathOffset(u, p), parent.position)
    decreases |p|
  {
    if p != [] {
      PlacedPosition(u.children[p[0]], u.globalTransform, p[1..]);
    }
  }

  /** In an aggregated tree a node's box covers the box and the seed of every
      node below it. */
  lemma {:induction false} AggregatedContainsSubtree(u: Tree, p: seq<nat>)
    requires Aggregated(u) && IsPath(u, p)
    ensures Contains(u.dimensions, At(u, p).dimensions)
    ensures Contains(u.dimensions, SeedOf(At(u, p)))
    decreases |p|
  {
    GrowAllContains(SeedOf(u), Boxes(u.children));
    if p != [] {
      var c := u.children[p[0]];
      AggregatedContainsSubtree(c, p[1..]);
      assert Contains(u.dimensions, c.dimensions);
      ContainsTransitive(u.dimensions, c.dimensions, At(c, p[1..]).dimensions);
      ContainsTransitive(u.dimensions, c.dimensions, SeedOf(At(c, p[1..])));
    }
  }

  /** A box that misses a node's aggregate box misses the box of every node
      in its subtree. */
  lemma AggregatedCulls(u: Tree, p: seq<nat>, other: Dimensions)
    requires Aggregated(u) && IsPath(u, p) && !Overlap(u.dimensions, other)
    ensures !Overlap(At(u, p).dimensions, other)
  {
    AggregatedContainsSubtree(u, p);
    if Overlap(At(u, p).dimensions, other) {
      OverlapGrows(u.dimensions, At(u, p).dimensions, other);
    }
  }
}
