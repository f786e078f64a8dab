/** `Dimensions`: the axis-aligned bounding box a node carries, and its
    strict overlap test. */
module Aabb {
  import opened Math

  /** A box from the corner `from` to the corner `to`. The intended shape
      has `from <= to` on every axis, but nothing enforces it. */
  datatype Dimensions = Dimensions(from: Vector3, to: Vector3)

  /** `Dimensions::default()`: the degenerate box at the origin. */
  function Default(): (d: Dimensions)
    ensures d.from == d.to == Zero
    ensures !Proper(d)
  {
    Dimensions(Zero, Zero)
  }

  /** `overlap`: the boxes cross on all three axes, with strict comparisons
      so that boxes which only touch do not overlap. */
  predicate Overlap(a: Dimensions, b: Dimensions) {
    a.from.x < b.to.x && b.from.x < a.to.x &&
    a.from.y < b.to.y && b.from.y < a.to.y &&
    a.from.z < b.to.z && b.from.z < a.to.z
  }

  /** A box with positive extent on every axis. */
  predicate Proper(d: Dimensions) {
    d.from.x < d.to.x && d.from.y < d.to.y && d.from.z < d.to.z
  }

  /** `outer` contains `inner` corner by corner. */
  predicate Contains(outer: Dimensions, inner: Dimensions) {
    outer.from.x <= inner.from.x && outer.from.y <= inner.from.y && outer.from.z <= inner.from.z &&
    inner.to.x <= outer.to.x && inner.to.y <= outer.to.y && inner.to.z <= outer.to.z
  }

  /** The two boxes are apart on at least one axis: one ends where or before
      the other begins. */
  predicate SeparatedOnSomeAxis(a: Dimensions, b: Dimensions) {
    a.to.x <= b.from.x || b.to.x <= a.from.x ||
    a.to.y <= b.from.y || b.to.y <= a.from.y ||
    a.to.z <= b.from.z || b.to.z <= a.from.z
  }

  lemma OverlapSymmetric(a: Dimensions, b: Dimensions)
    ensures Overlap(a, b) == Overlap(b, a)
  {
  }

  /** Overlap fails exactly when the boxes are apart on some axis. */
  lemma OverlapIffNotSeparated(a: Dimensions, b: Dimensions)
    ensures Overlap(a, b) <==> !SeparatedOnSomeAxis(a, b)
  {
  }

  /** A box overlaps itself exactly when it has positive extent on all axes;
      the default box therefore does not overlap itself. */
  lemma SelfOverlapIffProper(a: Dimensions)
    ensures Overlap(a, a) <==> Proper(a)
    ensures !Overlap(Default(), Default())
  {
  }

  /** A proper box inside another overlaps it. */
  lemma ContainedOverlaps(a: Dimensions, b: Dimensions)
    requires Contains(a, b) && Proper(b)
    ensures Overlap(a, b)
  {
  }

  /** Growing a box keeps every overlap it had. */
  lemma OverlapGrows(big: Dimensions, small: Dimensions, other: Dimensions)
    requires Contains(big, small) && Overlap(small, other)
    ensures Overlap(big, other)
  {
  }

  lemma ContainsTransitive(a: Dimensions, b: Dimensions, c: Dimensions)
    requires Contains(a, b) && Contains(b, c)
    ensures Contains(a, c)
  {
  }

  /** Boxes that meet at a face or a corner do not overlap, while boxes that
      cross do: the unit cube against the cube from (1,1,1) to (2,2,2), and
      against the cube from (0.5,0.5,0.5) to (2,2,2). */
  lemma TouchingBoxesDoNotOverlap()
    ensures !Overlap(Dimensions(Zero, Ones), Dimensions(Ones, Vector3(2.0, 2.0, 2.0)))
    ensures !Overlap(Dimensions(Zero, Ones), Dimensions(Vector3(1.0, 0.0, 0.0), Vector3(2.0, 1.0, 1.0)))
    ensures Overlap(Dimensions(Zero, Ones), Dimensions(Vector3(0.5, 0.5, 0.5), Vector3(2.0, 2.0, 2.0)))
  {
  }
}
