/** The callback traces of the four tree walks. `added`, `removed` and
    `render` fire in pre-order, `update` in post-order; in every walk
    siblings are visited in list order and `Empty` nodes fire nothing. */
module Traversal {
  import opened SceneTree

  datatype Callback = Added | Updated | Removed | Rendered

  /** One callback invocation: which callback, on which variant, for the node
      at `path` (child indices from the node where the walk was started,
      prefixed by that node's own path). */
  datatype Call = Call(callback: Callback, component: Component, path: seq<nat>)

  /** The dispatch on the node's variant: nothing for `Empty`, the variant's
      callback otherwise. */
  function Fire(cb: Callback, c: Component, at: seq<nat>): seq<Call> {
    if c.Empty? then [] else [Call(cb, c, at)]
  }

  /** The trace of a pre-order walk (node, then its children in list order)
      of `t`, which sits at `at`. */
  function PreOrder(cb: Callback, t: Tree, at: seq<nat>): seq<Call>
    decreases t, |t.children| + 1
  {
    Fire(cb, t.component, at) + PreOrderChildren(cb, t, at, |t.children|)
  }

  /** The pre-order traces of the first `k` children of `t`, in list order. */
  function PreOrderChildren(cb: Callback, t: Tree, at: seq<nat>, k: nat): seq<Call>
    requires k <= |t.children|
    decreases t, k
  {
    if k == 0 then []
    else PreOrderChildren(cb, t, at, k - 1) + PreOrder(cb, t.children[k - 1], at + [k - 1])
  }

  /** The trace of a post-order walk (children in list order, then the node). */
  function PostOrder(cb: Callback, t: Tree, at: seq<nat>): seq<Call>
    decreases t, |t.children| + 1
  {
    PostOrderChildren(cb, t, at, |t.children|) + Fire(cb, t.component, at)
  }

  function PostOrderChildren(cb: Callback, t: Tree, at: seq<nat>, k: nat): seq<Call>
    requires k <= |t.children|
    decreases t, k
  {
    if k == 0 then []
    else PostOrderChildren(cb, t, at, k - 1) + PostOrder(cb, t.children[k - 1], at + [k - 1])
  }

  // ---------------------------------------------------------------------
  // Orders on paths

  datatype Order = Pre | Post

  /** `Before(Pre, p, q)`: the node at `p` comes before the node at `q` in
      pre-order; `Before(Post, p, q)` the same in post-order. They differ
      only on a node and its descendants. */
  predicate Before(o: Order, p: seq<nat>, q: seq<nat>)
    decreases |p|
  {
    if p == [] || q == [] then
      (o.Pre? && p == [] && q != []) || (o.Post? && p != [] && q == [])
    else
      p[0] < q[0] || (p[0] == q[0] && Before(o, p[1..], q[1..]))
  }

  /** Pre-order visits a node before its descendants; post-order after. */
  lemma {:induction false} AncestorFirst(p: seq<nat>, s: seq<nat>)
    requires s != []
    ensures Before(Pre, p, p + s)
    ensures Before(Post, p + s, p)
    decreases |p|
  {
    if p != [] {
      assert (p + s)[1..] == p[1..] + s;
      AncestorFirst(p[1..], s);
    }
  }

  /** Both orders visit the subtrees of two siblings in list order. */
  lemma {:induction false} SiblingsInListOrder(o: Order, p: seq<nat>, i: nat, j: nat, r: seq<nat>, s: seq<nat>)
    requires i < j
    ensures Before(o, p + [i] + r, p + [j] + s)
    decreases |p|
  {
    if p != [] {
      assert (p + [i] + r)[1..] == p[1..] + [i] + r;
      assert (p + [j] + s)[1..] == p[1..] + [j] + s;
      SiblingsInListOrder(o, p[1..], i, j, r, s);
    }
  }

  /** Both orders are strict: no node comes before itself. */
  lemma {:induction false} BeforeIrreflexive(o: Order, p: seq<nat>)
    ensures !Before(o, p, p)
    decreases |p|
  {
    if p != [] {
      BeforeIrreflexive(o, p[1..]);
    }
  }

  /** Paths below `at` that first diverge below `at` are ordered by the
      child index where they diverge. */
  lemma DivergingPaths(o: Order, at: seq<nat>, p: seq<nat>, q: seq<nat>)
    requires |p| > |at| && |q| > |at| && p[..|at|] == at && q[..|at|] == at
    requires p[|at|] < q[|at|]
    ensures Before(o, p, q)
  {
    var n := |at|;
    assert p == at + [p[n]] + p[n + 1..];
    assert q == at + [q[n]] + q[n + 1..];
    SiblingsInListOrder(o, at, p[n], q[n], p[n + 1..], q[n + 1..]);
  }

  // ---------------------------------------------------------------------
  // What the walks visit

  /** Either walk, chosen by `pre`, so that one proof covers both. */
  function Walk(pre: bool, cb: Callback, t: Tree, at: seq<nat>): seq<Call> {
    if pre then PreOrder(cb, t, at) else PostOrder(cb, t, at)
  }

  function WalkChildren(pre: bool, cb: Callback, t: Tree, at: seq<nat>, k: nat): seq<Call>
    requires k <= |t.children|
  {
    if pre then PreOrderChildren(cb, t, at, k) else PostOrderChildren(cb, t, at, k)
  }

  /** The calls of a trace are strictly ordered by their paths. */
  ghost predicate Sorted(o: Order, calls: seq<Call>) {
    forall i, j :: 0 <= i < j < |calls| ==> Before(o, calls[i].path, calls[j].path)
  }

  /** Every call of a trace is of callback `cb`, for a non-`Empty` node of `t`
      (which sits at `at`), and carries that node's variant. */
  ghost predicate Sound(cb: Callback, t: Tree, at: seq<nat>, calls: seq<Call>) {
    forall c :: c in calls ==>
      c.callback == cb && |at| <= |c.path| && c.path[..|at|] == at &&
      IsPath(t, c.path[|at|..]) && c.component == At(t, c.path[|at|..]).component &&
      !c.component.Empty?
  }

  /** Every non-`Empty` node of `t` has its call in the trace. */
  ghost predicate Complete(cb: Callback, t: Tree, at: seq<nat>, calls: seq<Call>) {
    forall p :: IsPath(t, p) && !At(t, p).component.Empty? ==>
      Call(cb, At(t, p).component, at + p) in calls
  }

  lemma SortedAppend(o: Order, xs: seq<Call>, ys: seq<Call>)
    requires Sorted(o, xs) && Sorted(o, ys)
    requires forall x, y :: x in xs && y in ys ==> Before(o, x.path, y.path)
    ensures Sorted(o, xs + ys)
  {
    var zs := xs + ys;
    forall i, j | 0 <= i < j < |zs|
      ensures Before(o, zs[i].path, zs[j].path)
    {
      if j < |xs| {
        assert zs[i] == xs[i] && zs[j] == xs[j];
      } else if i >= |xs| {
        assert zs[i] == ys[i - |xs|] && zs[j] == ys[j - |xs|];
      } else {
        assert zs[i] in xs && zs[j] in ys;
      }
    }
  }

  /** Every call in the trace of the first `k` children lies strictly below
      `at`, under a child with index below `k`, and in that child's trace. */
  lemma {:induction false} InChildren(pre: bool, cb: Callback, t: Tree, at: seq<nat>, k: nat, c: Call)
    requires k <= |t.children|
    requires c in WalkChildren(pre, cb, t, at, k)
    ensures |c.path| > |at| && c.path[..|at|] == at && c.path[|at|] < k
    ensures var j := c.path[|at|];
      c in Walk(pre, cb, t.children[j], at + [j])
    decreases t, k
  {
    var j := k - 1;
    var rest := WalkChildren(pre, cb, t, at, j);
    var last := Walk(pre, cb, t.children[j], at + [j]);
    assert c in rest + last;
    if c in rest {
      InChildren(pre, cb, t, at, j, c);
    } else {
      WalkSound(pre, cb, t.children[j], at + [j]);
      assert (at + [j])[..|at|] == at;
      assert c.path[..|at| + 1] == at + [j];
      assert c.path[|at|] == (at + [j])[|at|];
    }
  }

  /** Soundness of both walks. */
  lemma {:induction false} WalkSound(pre: bool, cb: Callback, t: Tree, at: seq<nat>)
    ensures Sound(cb, t, at, Walk(pre, cb, t, at))
    decreases t, |t.children| + 1
  {
    var calls := Walk(pre, cb, t, at);
    var n := |t.children|;
    forall c | c in calls
      ensures c.callback == cb && |at| <= |c.path| && c.path[..|at|] == at
      ensures IsPath(t, c.path[|at|..]) && c.component == At(t, c.path[|at|..]).component
      ensures !c.component.Empty?
    {
      if c in Fire(cb, t.component, at) {
        assert c.path[|at|..] == [];
      } else {
        assert c in WalkChildren(pre, cb, t, at, n);
        InChildren(pre, cb, t, at, n, c);
        var j := c.path[|at|];
        var child := t.children[j];
        WalkSound(pre, cb, child, at + [j]);
        var r := c.path[|at| + 1..];
        assert c.path[..|at| + 1] == at + [j];
        assert r == c.path[|at + [j]|..];
        assert c.path[|at|..] == [j] + r;
        assert ([j] + r)[1..] == r;
      }
    }
  }

  /** The trace of the first `k` children contains the trace of each of them. */
  lemma {:induction false} ChildrenIncluded(pre: bool, cb: Callback, t: Tree, at: seq<nat>, k: nat, j: nat)
    requires j < k <= |t.children|
    ensures forall c :: c in Walk(pre, cb, t.children[j], at + [j]) ==>
      c in WalkChildren(pre, cb, t, at, k)
    decreases k
  {
    if j < k - 1 {
      ChildrenIncluded(pre, cb, t, at, k - 1, j);
    }
  }

  /** Completeness of both walks. */
  lemma {:induction false} WalkComplete(pre: bool, cb: Callback, t: Tree, at: seq<nat>)
    ensures Complete(cb, t, at, Walk(pre, cb, t, at))
    decreases t
  {
    var calls := Walk(pre, cb, t, at);
    forall p | IsPath(t, p) && !At(t, p).component.Empty?
      ensures Call(cb, At(t, p).component, at + p) in calls
    {
      if p == [] {
        assert at + p == at;
      } else {
        var j := p[0];
        WalkComplete(pre, cb, t.children[j], at + [j]);
        assert at + [j] + p[1..] == at + p;
        ChildrenIncluded(pre, cb, t, at, |t.children|, j);
      }
    }
  }

  /** Every call in the trace of the first `j` children comes before every
      call in the trace of child `j`. */
  lemma EarlierSiblingsFirst(pre: bool, cb: Callback, t: Tree, at: seq<nat>, j: nat)
    requires j < |t.children|
    ensures forall x, y :: x in WalkChildren(pre, cb, t, at, j) && y in Walk(pre, cb, t.children[j], at + [j]) ==>
      Before(if pre then Pre else Post, x.path, y.path)
  {
    var o := if pre then Pre else Post;
    var last := Walk(pre, cb, t.children[j], at + [j]);
    WalkSound(pre, cb, t.children[j], at + [j]);
    forall x, y | x in WalkChildren(pre, cb, t, at, j) && y in last
      ensures Before(o, x.path, y.path)
    {
      InChildren(pre, cb, t, at, j, x);
      assert y.path[..|at| + 1] == at + [j];
      assert y.path[..|at|] == at && y.path[|at|] == j;
      DivergingPaths(o, at, x.path, y.path);
    }
  }

  /** The trace of the first `k` children is sorted. */
  lemma {:induction false} ChildrenSorted(pre: bool, cb: Callback, t: Tree, at: seq<nat>, k: nat)
    requires k <= |t.children|
    ensures Sorted(if pre then Pre else Post, WalkChildren(pre, cb, t, at, k))
    decreases t, k
  {
    if k > 0 {
      var o := if pre then Pre else Post;
      var j := k - 1;
      var rest := WalkChildren(pre, cb, t, at, j);
      var last := Walk(pre, cb, t.children[j], at + [j]);
      assert WalkChildren(pre, cb, t, at, k) == rest + last;
      ChildrenSorted(pre, cb, t, at, j);
      WalkSorted(pre, cb, t.children[j], at + [j]);
      EarlierSiblingsFirst(pre, cb, t, at, j);
      SortedAppend(o, rest, last);
    }
  }

  /** Both walks visit their nodes strictly in their order. */
  lemma {:induction false} WalkSorted(pre: bool, cb: Callback, t: Tree, at: seq<nat>)
    ensures Sorted(if pre then Pre else Post, Walk(pre, cb, t, at))
    decreases t, |t.children| + 1
  {
    var o := if pre then Pre else Post;
    var n := |t.children|;
    var own := Fire(cb, t.component, at);
    var kids := WalkChildren(pre, cb, t, at, n);
    ChildrenSorted(pre, cb, t, at, n);
    forall x, y | x in own && y in kids
      ensures if pre then Before(o, x.path, y.path) else Before(o, y.path, x.path)
    {
      InChildren(pre, cb, t, at, n, y);
      assert y.path == at + y.path[|at|..];
      AncestorFirst(at, y.path[|at|..]);
    }
    if pre {
      SortedAppend(o, own, kids);
    } else {
      SortedAppend(o, kids, own);
    }
  }

  // ---------------------------------------------------------------------
  // The walks of the source, summed up

  /** `call_add_recr`, `call_remove_recr` and `draw_node` fire their callback
      exactly for the non-`Empty` nodes of the subtree, each once, in
      pre-order with siblings in list order. */
  lemma PreOrderWalk(cb: Callback, t: Tree, at: seq<nat>)
    ensures Sound(cb, t, at, PreOrder(cb, t, at))
    ensures Complete(cb, t, at, PreOrder(cb, t, at))
    ensures Sorted(Pre, PreOrder(cb, t, at))
  {
    WalkSound(true, cb, t, at);
    WalkComplete(true, cb, t, at);
    WalkSorted(true, cb, t, at);
  }

  /** `update` fires its callback exactly for the non-`Empty` nodes, each
      once, in post-order: every child subtree before its parent, siblings
      in list order. */
  lemma PostOrderWalk(cb: Callback, t: Tree, at: seq<nat>)
    ensures Sound(cb, t, at, PostOrder(cb, t, at))
    ensures Complete(cb, t, at, PostOrder(cb, t, at))
    ensures Sorted(Post, PostOrder(cb, t, at))
  {
    WalkSound(false, cb, t, at);
    WalkComplete(false, cb, t, at);
    WalkSorted(false, cb, t, at);
  }

  /** Rendering `root -> [a -> [a1], b]` visits `root`, `a`, `a1`, `b`,
      while the update pass visits `a1`, `a`, `b`, `root`. */
  lemma RenderAndUpdateOrderExample()
    ensures var a1 := DefaultNode().(component := Script(3));
      var a := DefaultNode().(component := CubeModel(1), children := [a1]);
      var b := DefaultNode().(component := Light(2));
      var root := DefaultNode().(component := CubeModel(0), children := [a, b]);
      PreOrder(Rendered, root, []) ==
        [Call(Rendered, CubeModel(0), []), Call(Rendered, CubeModel(1), [0]),
         Call(Rendered, Script(3), [0, 0]), Call(Rendered, Light(2), [1])] &&
      PostOrder(Updated, root, []) ==
        [Call(Updated, Script(3), [0, 0]), Call(Updated, CubeModel(1), [0]),
         Call(Updated, Light(2), [1]), Call(Updated, CubeModel(0), [])]
  {
    var a1 := DefaultNode().(component := Script(3));
    var a := DefaultNode().(component := CubeModel(1), children := [a1]);
    var b := DefaultNode().(component := Light(2));
    var root := DefaultNode().(component := CubeModel(0), children := [a, b]);
    assert [0] + [0] == [0, 0] && [] + [0] == [0] && [] + [1] == [1];
    assert PreOrderChildren(Rendered, a, [0], 1) == PreOrder(Rendered, a1, [0, 0]);
    assert PreOrderChildren(Rendered, root, [], 1) == PreOrder(Rendered, a, [0]);
    assert PreOrderChildren(Rendered, root, [], 2) == PreOrder(Rendered, a, [0]) + PreOrder(Rendered, b, [1]);
    assert PostOrderChildren(Updated, a, [0], 1) == PostOrder(Updated, a1, [0, 0]);
    assert PostOrderChildren(Updated, root, [], 1) == PostOrder(Updated, a, [0]);
    assert PostOrderChildren(Updated, root, [], 2) == PostOrder(Updated, a, [0]) + PostOrder(Updated, b, [1]);
  }

  /** A sorted trace names each node at most once. */
  lemma SortedDistinct(o: Order, calls: seq<Call>)
    requires Sorted(o, calls)
    ensures forall i, j :: 0 <= i < j < |calls| ==> calls[i].path != calls[j].path
  {
    forall i, j | 0 <= i < j < |calls|
      ensures calls[i].path != calls[j].path
    {
      BeforeIrreflexive(o, calls[i].path);
    }
  }
}
