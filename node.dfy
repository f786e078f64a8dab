/** The scene-graph node: a tree node that owns its children outright and
    whose fields are updated in place by `add_child`, `remove_child` and
    `update`. Component callbacks are recorded as calls appended to a ghost
    trace; they are taken not to change the tree. */
module Scene {
  import opened Math
  import opened Aabb
  import opened SceneTree
  import opened Traversal

  class Node {
    // set by the application
    var transform: Transform
    var component: Component
    var relMinDimensions: Dimensions

    // derived by `Update`
    var globalTransform: Transform
    var dimensions: Dimensions

    // owned children, in order
    var children: seq<Node>

    /** The value of the subtree rooted here. */
    ghost var model: Tree
    /** This node and every node of its subtree. */
    ghost var Repr: set<object>

    /** The children own disjoint subtrees that do not contain this node,
        and `model` is the value of the fields of the subtree. */
    ghost predicate Valid()
      reads this, Repr
      ensures Valid() ==> this in Repr
      decreases Repr, 1
    {
      ChildrenValid() && ModelMatches()
    }

    ghost predicate ChildrenValid()
      reads this`children, this`Repr, Repr - {this}
      decreases Repr, 0
    {
      this in Repr &&
      (forall i :: 0 <= i < |children| ==>
        children[i] in Repr && children[i] != this && children[i].Repr <= Repr &&
        this !in children[i].Repr && children[i].Valid()) &&
      (forall i, j :: 0 <= i < j < |children| ==> children[i].Repr !! children[j].Repr)
    }

    ghost predicate ModelMatches()
      reads this, children
    {
      model.transform == transform && model.component == component &&
      model.relMinDimensions == relMinDimensions &&
      model.globalTransform == globalTransform && model.dimensions == dimensions &&
      |model.children| == |children| &&
      (forall i :: 0 <= i < |children| ==> model.children[i] == children[i].model)
    }

    /** What `Valid` says of one child. */
    lemma ChildValid(i: nat)
      requires Valid() && i < |children|
      ensures children[i] in Repr && children[i].Repr < Repr && children[i].Valid()
      ensures model.children[i] == children[i].model
    {
    }

    /** A valid subtree none of whose nodes changed is still valid and has
        the same value. */
    twostate lemma ValidFrame(n: Node)
      requires old(n.Valid()) && unchanged(old(n.Repr))
      ensures n.Valid() && n.Repr == old(n.Repr) && n.model == old(n.model)
    {
    }

    /** `Node::default()`. */
    constructor Default()
      ensures Valid() && fresh(Repr)
      ensures model == DefaultNode()
    {
      transform, component, relMinDimensions := Identity, Empty, Aabb.Default();
      globalTransform, dimensions := Identity, Aabb.Default();
      children := [];
      model := DefaultNode();
      Repr := {this};
    }

    /** A node built from its public fields, the rest defaulted
        (`Node { transform, component, rel_min_dimensions, ..Default::default() }`). */
    constructor Create(transform: Transform, component: Component, relMinDimensions: Dimensions)
      ensures Valid() && fresh(Repr)
      ensures model == DefaultNode().(transform := transform, component := component,
                                       relMinDimensions := relMinDimensions)
    {
      this.transform, this.component, this.relMinDimensions := transform, component, relMinDimensions;
      globalTransform, dimensions := Identity, Aabb.Default();
      children := [];
      model := DefaultNode().(transform := transform, component := component,
                              relMinDimensions := relMinDimensions);
      Repr := {this};
    }

    /** `global_transform()` as written: it hands back the LOCAL transform. */
    function GlobalTransformAsWritten(): (t: Transform)
      reads this, Repr
      requires Valid()
      ensures t == model.transform
    {
      transform
    }

    /** The accessor as intended: the global transform `Update` derived. */
    function GlobalTransform(): (t: Transform)
      reads this, Repr
      requires Valid()
      ensures t == model.globalTransform
    {
      globalTransform
    }

    /** Once `Update` has placed this node under a parent that is not at the
        origin, the accessor as written disagrees with the global transform. */
    lemma AccessorReturnsLocal(parent: Transform)
      requires Valid() && model.globalTransform == Compose(parent, model.transform)
      requires parent.position != Zero
      ensures GlobalTransformAsWritten() != GlobalTransform()
    {
      assert GlobalTransform().position == Add(GlobalTransformAsWritten().position, parent.position);
    }

    /** `rel_min_dimensions()`. */
    function RelMinDimensions(): (d: Dimensions)
      reads this, Repr
      requires Valid()
      ensures d == model.relMinDimensions
    {
      relMinDimensions
    }

    /** `dimensions()`: the aggregate box `Update` derived. */
    function Dims(): (d: Dimensions)
      reads this, Repr
      requires Valid()
      ensures d == model.dimensions
    {
      dimensions
    }

    /** `children()`: the child nodes, whose values are the model's children. */
    function Children(): (cs: seq<Node>)
      reads this, Repr
      requires Valid()
      ensures |cs| == |model.children|
      ensures forall i :: 0 <= i < |cs| ==> cs[i].model == model.children[i]
    {
      children
    }

    /** The shared shape of `call_add_recr`, `call_remove_recr` and
        `draw_node`: fire `cb` on this node unless it is `Empty`, then walk
        the children in list order. Nothing in the tree changes. */
    method FirePreOrder(cb: Callback, ghost at: seq<nat>) returns (ghost calls: seq<Call>)
      requires Valid()
      ensures calls == PreOrder(cb, model, at)
      decreases Repr
    {
      ghost var m := model;
      calls := [];
      if !component.Empty? {
        calls := [Call(cb, component, at)];
      }
      ghost var below: seq<Call> := [];
      var i: nat := 0;
      while i < |children|
        invariant i <= |children| == |m.children|
        invariant below == PreOrderChildren(cb, m, at, i)
      {
        ChildValid(i);
        ghost var sub := children[i].FirePreOrder(cb, at + [i]);
        below := below + sub;
        i := i + 1;
      }
      calls := calls + below;
    }

    /** `call_add_recr`: `added` for every non-`Empty` node of the subtree, in pre-order. */
    method CallAddRecr(ghost at: seq<nat>) returns (ghost calls: seq<Call>)
      requires Valid()
      ensures calls == PreOrder(Added, model, at)
    {
      calls := FirePreOrder(Added, at);
    }

    /** `call_remove_recr`: `removed` for every non-`Empty` node of the subtree, in pre-order. */
    method CallRemoveRecr(ghost at: seq<nat>) returns (ghost calls: seq<Call>)
      requires Valid()
      ensures calls == PreOrder(Removed, model, at)
    {
      calls := FirePreOrder(Removed, at);
    }

    /** `add_child`: append `child` (which the caller gives up) and run
        `added` over its subtree, which now sits at index `|old children|`. */
    method AddChild(child: Node) returns (ghost calls: seq<Call>)
      requires Valid() && child.Valid() && Repr !! child.Repr
      modifies this
      ensures Valid() && Repr == old(Repr) + child.Repr
      ensures children == old(children) + [child]
      ensures model == old(model).(children := old(model.children) + [old(child.model)])
      ensures calls == PreOrder(Added, old(child.model), [|old(children)|])
    {
      children := children + [child];
      Repr := Repr + child.Repr;
      model := model.(children := model.children + [child.model]);
      calls := children[|children| - 1].CallAddRecr([|children| - 1]);
    }

    /** `remove_child`: run `removed` over the subtree at `idx`, then drop
        it. An index out of range panics in the source, so it is excluded. */
    method RemoveChild(idx: nat) returns (ghost calls: seq<Call>)
      requires Valid() && idx < |children|
      modifies this
      ensures Valid() && Repr == old(Repr) - old(children[idx].Repr)
      ensures children == old(children[..idx] + children[idx + 1..])
      ensures model == old(model).(children := old(model.children[..idx] + model.children[idx + 1..]))
      ensures calls == PreOrder(Removed, old(model.children[idx]), [idx])
    {
      calls := children[idx].CallRemoveRecr([idx]);
      ghost var ms := model.children;
      assert ms == Models();
      label Kept:
      Repr := Repr - children[idx].Repr;
      children := children[..idx] + children[idx + 1..];
      model := model.(children := ms[..idx] + ms[idx + 1..]);
      DropChild@Kept(idx);
    }

    /** Dropping child `idx` together with its footprint keeps the ownership
        invariant for the children that stay, whose values keep their
        order. */
    twostate lemma DropChild(idx: nat)
      requires old(ChildrenValid()) && idx < |old(children)|
      requires children == old(children[..idx] + children[idx + 1..])
      requires Repr == old(Repr) - old(children[idx].Repr)
      requires unchanged(old(Repr) - {this})
      ensures ChildrenValid()
      ensures Models() == old(Models()[..idx] + Models()[idx + 1..])
    {
      ghost var before := old(children);
      forall k | 0 <= k < |children|
        ensures children[k] == before[if k < idx then k else k + 1]
      {
      }
      forall k | 0 <= k < |children|
        ensures children[k].Repr <= Repr && this !in children[k].Repr && children[k].Valid()
      {
        var j := if k < idx then k else k + 1;
        assert old(before[j].Repr !! before[idx].Repr && before[j].Valid());
        ValidFrame(before[j]);
      }
    }

    /** The values of the children, in order. */
    ghost function Models(): (ms: seq<Tree>)
      reads this, children
      ensures |ms| == |children|
      ensures forall j :: 0 <= j < |children| ==> ms[j] == children[j].model
    {
      seq(|children|, j requires 0 <= j < |children| reads this, children => children[j].model)
    }

    /** After child `i` changed only its own subtree and is still valid,
        the ownership invariant still holds and only the value of child `i`
        has changed. */
    twostate lemma ChildUpdated(i: nat)
      requires old(ChildrenValid()) && i < |old(children)|
      requires unchanged(this`children, this`Repr)
      requires unchanged(old(Repr) - old(children[i].Repr) - {this})
      requires children[i].Valid() && children[i].Repr == old(children[i].Repr)
      ensures ChildrenValid()
      ensures Models() == old(Models())[i := children[i].model]
      ensures children[i].dimensions == children[i].model.dimensions
    {
      forall j | 0 <= j < |children| && j != i
        ensures children[j].Valid() && children[j].Repr == old(children[j].Repr)
        ensures children[j].model == old(children[j].model)
      {
        assert old(children[i].Repr !! children[j].Repr);
        ValidFrame(children[j]);
      }
    }

    /** The ownership invariant does not depend on this node's other fields. */
    twostate lemma ChildrenFrame()
      requires old(ChildrenValid())
      requires unchanged(this`children, this`Repr) && unchanged(old(Repr) - {this})
      ensures ChildrenValid()
    {
    }

    /** `update(parent)`: derive the global transform, update the children
        under it while growing the seed box by each child's fresh box, store
        both, then fire this node's `update` callback. */
    method Update(parent: Transform, ghost at: seq<nat>) returns (ghost calls: seq<Call>)
      requires Valid()
      modifies Repr
      ensures Valid() && Repr == old(Repr) && children == old(children)
      ensures model == UpdateTree(old(model), parent)
      ensures calls == PostOrder(Updated, old(model), at)
      decreases Repr, 1
    {
      var global := Compose(parent, transform);
      var dims := Dimensions(
        Vector3(global.position.x + relMinDimensions.from.x,
                global.position.y + relMinDimensions.from.y,
                global.position.z + relMinDimensions.from.z),
        Vector3(global.position.x + relMinDimensions.to.x,
                global.position.y + relMinDimensions.to.y,
                global.position.z + relMinDimensions.to.z));
      ghost var m := model;
      assert global == UpdateTree(m, parent).globalTransform;
      assert dims == Seed(m.relMinDimensions, global.position);
      dims, calls := UpdateChildren(global, dims, at);
      assert dims == UpdateTree(m, parent).dimensions;
      label Done:
      globalTransform := global;
      dimensions := dims;
      model := UpdateTree(m, parent);
      ChildrenFrame@Done();
      if !component.Empty? {
        calls := calls + [Call(Updated, component, at)];
      }
    }

    /** The loop of `update`: each child, in list order, is updated under
        `global` and its fresh box is folded into `dims`, which starts as
        `seed`. This node's own fields are not touched. */
    method UpdateChildren(global: Transform, seed: Dimensions, ghost at: seq<nat>)
      returns (dims: Dimensions, ghost calls: seq<Call>)
      requires Valid()
      modifies Repr - {this}
      ensures ChildrenValid()
      ensures Models() == UpdateAll(model.children, global)
      ensures dims == GrowAll(seed, Boxes(Models()))
      ensures calls == PostOrderChildren(Updated, model, at, |children|)
      decreases Repr, 0
    {
      ghost var m := model;
      dims := seed;
      calls := [];
      var i: nat := 0;
      while i < |children|
        invariant i <= |children| && ChildrenValid()
        // the first `i` children are updated, the rest untouched, and `dims`
        // and `calls` cover exactly the updated ones
        invariant Holds(Pass(m, global, seed, at, i, dims, calls), Models()) == true
      {
        var child := children[i];
        ChildOwned(i);
        label Before:
        ghost var sub := child.Update(global, at + [i]);
        ChildUpdated@Before(i);
        ghost var before := old@Before(Models());
        ghost var u := UpdateTree(before[i], global);
        assert child.model == u && Models() == before[i := u];
        assert child.dimensions == u.dimensions;
        HoldsStep(Pass(m, global, seed, at, i, dims, calls), before);
        dims := Expand(dims, child.dimensions);
        calls := calls + sub;
        i := i + 1;
      }
      HoldsDone(Pass(m, global, seed, at, i, dims, calls), Models());
    }

    /** What the loop needs of child `i` before updating it. */
    lemma ChildOwned(i: nat)
      requires ChildrenValid() && i < |children|
      ensures children[i] in Repr - {this} && children[i].Repr <= Repr - {this}
      ensures children[i].Repr < Repr && children[i].Valid()
    {
    }
  }

  /** Where the loop of `update` stands: `m` is the node's value before the
      pass, `global` its fresh global transform, `seed` its own box placed
      there and `at` its path; `done` children have been updated so far,
      giving the box `dims` and the callback trace `calls`. */
  datatype Pass = Pass(m: Tree, global: Transform, seed: Dimensions, at: seq<nat>,
                       done: nat, dims: Dimensions, calls: seq<Call>)

  /** The invariant of the loop of `update`, over the children's values
      `models`: the first `done` children of `m` have been updated under
      `global` and the rest are untouched, `dims` is the seed grown by the
      fresh boxes in list order and `calls` is their post-order traces. */
  ghost predicate Holds(p: Pass, models: seq<Tree>) {
    |models| == |p.m.children| && p.done <= |models| &&
    models[..p.done] == UpdateAll(p.m.children, p.global)[..p.done] &&
    models[p.done..] == p.m.children[p.done..] &&
    p.dims == GrowAll(p.seed, Boxes(models[..p.done])) &&
    p.calls == PostOrderChildren(Updated, p.m, p.at, p.done)
  }

  /** When every child has been updated, the children's values are the
      updated children of `m` and `dims` is their fold into the seed. */
  lemma HoldsDone(p: Pass, models: seq<Tree>)
    requires Holds(p, models) && p.done == |models|
    ensures models == UpdateAll(p.m.children, p.global)
    ensures p.dims == GrowAll(p.seed, Boxes(models))
  {
    assert models[..p.done] == models;
    assert UpdateAll(p.m.children, p.global)[..p.done] == UpdateAll(p.m.children, p.global);
  }

  /** One turn of the loop keeps the invariant: updating the next child,
      folding its fresh box in and appending its trace. */
  lemma HoldsStep(p: Pass, models: seq<Tree>)
    requires Holds(p, models) && p.done < |models|
    ensures var u := UpdateTree(models[p.done], p.global);
      Holds(Pass(p.m, p.global, p.seed, p.at, p.done + 1, Grow(p.dims, u.dimensions),
                 p.calls + PostOrder(Updated, models[p.done], p.at + [p.done])),
            models[p.done := u])
  {
    var i := p.done;
    var u := UpdateTree(models[i], p.global);
    var next := models[i := u];
    assert models[i] == models[i..][0] == p.m.children[i];
    assert next[..i + 1] == models[..i] + [u];
    assert next[..i + 1] == UpdateAll(p.m.children, p.global)[..i + 1];
    assert next[i + 1..] == models[i + 1..] == p.m.children[i + 1..];
    GrowAllStep(p.seed, next, i);
    assert next[..i] == models[..i];
  }

  /** The body of the closure `update` runs after each child: lower each
      `from` coordinate of `acc` and raise each `to` coordinate that the
      child's box exceeds. */
  method Expand(acc: Dimensions, child: Dimensions) returns (r: Dimensions)
    ensures r == Grow(acc, child)
  {
    r := acc;
    if child.from.x < r.from.x { r := r.(from := r.from.(x := child.from.x)); }
    if child.from.y < r.from.y { r := r.(from := r.from.(y := child.from.y)); }
    if child.from.z < r.from.z { r := r.(from := r.from.(z := child.from.z)); }
    if child.to.x > r.to.x { r := r.(to := r.to.(x := child.to.x)); }
    if child.to.y > r.to.y { r := r.(to := r.to.(y := child.to.y)); }
    if child.to.z > r.to.z { r := r.(to := r.to.(z := child.to.z)); }
  }

  /** Folding one more child's box into the fold of the first `i`. */
  lemma GrowAllStep(seed: Dimensions, cs: seq<Tree>, i: nat)
    requires i < |cs|
    ensures GrowAll(seed, Boxes(cs[..i + 1])) == Grow(GrowAll(seed, Boxes(cs[..i])), cs[i].dimensions)
  {
    assert Boxes(cs[..i + 1])[..i] == Boxes(cs[..i]);
  }

  /** `draw_node`: `render` for every non-`Empty` node of the subtree, in
      pre-order; the tree is only read. */
  method DrawNode(node: Node, ghost at: seq<nat>) returns (ghost calls: seq<Call>)
    requires node.Valid()
    ensures calls == PreOrder(Rendered, node.model, at)
  {
    calls := node.FirePreOrder(Rendered, at);
  }
}
