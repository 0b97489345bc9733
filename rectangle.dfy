/** Rectangle geometry of the vpsc module: the `Rectangle` value queries,
    `Rectangle.empty()`, `union`, the in-place re-centring methods and
    `computeGroupBounds` over a group tree. */
module RectangleGeometry {
  import opened Wrappers

  /** A `vpsc.Variable`, identified by a number instead of an object reference. */
  type VarId = nat

  /** The corner coordinates of an axis-aligned rectangle [x, X] × [y, Y]. */
  datatype Rect = Rect(x: real, X: real, y: real, Y: real) {

    /** The source's invariant for a rectangle: its extents are not inverted. */
    predicate Valid() { x <= X && y <= Y }

    function Cx(): real { (x + X) / 2.0 }

    function Cy(): real { (y + Y) / 2.0 }

    function Width(): real { X - x }

    function Height(): real { Y - y }

    /** How far `r` must move along x, away from this rectangle's centre,
        to stop overlapping it: positive exactly when the open x-intervals
        intersect, and 0 otherwise. */
    function OverlapX(r: Rect): (o: real)
      ensures o >= 0.0
      ensures o > 0.0 <==> x < r.X && r.x < X
    {
      var ux, vx := Cx(), r.Cx();
      if ux <= vx && r.x < X then X - r.x
      else if vx <= ux && x < r.X then r.X - x
      else 0.0
    }

    /** The same on the y axis. */
    function OverlapY(r: Rect): (o: real)
      ensures o >= 0.0
      ensures o > 0.0 <==> y < r.Y && r.y < Y
    {
      var uy, vy := Cy(), r.Cy();
      if uy <= vy && r.y < Y then Y - r.y
      else if vy <= uy && y < r.Y then r.Y - y
      else 0.0
    }

    /** This rectangle lies inside `outer` (borders may touch). */
    predicate Within(outer: Rect) {
      outer.x <= x && X <= outer.X && outer.y <= y && Y <= outer.Y
    }
  }

  /** The overlap of a pair does not depend on which rectangle is asked. */
  lemma OverlapSymmetric(a: Rect, b: Rect)
    ensures a.OverlapX(b) == b.OverlapX(a)
    ensures a.OverlapY(b) == b.OverlapY(a)
  {
  }

  /** Both overlaps of the rectangles (0,2,0,1) and (1,3,0,1) are 1. */
  lemma OverlapExample()
    ensures Rect(0.0, 2.0, 0.0, 1.0).OverlapX(Rect(1.0, 3.0, 0.0, 1.0)) == 1.0
    ensures Rect(0.0, 2.0, 0.0, 1.0).OverlapY(Rect(1.0, 3.0, 0.0, 1.0)) == 1.0
  {
  }

  /** A bounding box that may be empty.  `Rectangle.empty()` is the rectangle
      (+∞, −∞, +∞, −∞); here it is the explicit value `Empty`. */
  datatype Bounds = Empty | Box(r: Rect) {
    /** Everything these bounds cover lies inside `outer`. */
    predicate InsideOf(outer: Rect) {
      Empty? || r.Within(outer)
    }
  }

  function Min(a: real, b: real): real { if a <= b then a else b }

  function Max(a: real, b: real): real { if a >= b then a else b }

  /** `Rectangle.union`: the componentwise min/max box.  It is the least box
      containing both arguments, and `Empty` is its identity. */
  function Union(a: Bounds, b: Bounds): (u: Bounds)
    ensures u.Box? <==> a.Box? || b.Box?
    ensures forall outer: Rect :: u.InsideOf(outer) <==> a.InsideOf(outer) && b.InsideOf(outer)
    ensures a == Empty ==> u == b
    ensures b == Empty ==> u == a
  {
    match (a, b)
    case (Empty, _) => b
    case (_, Empty) => a
    case (Box(p), Box(q)) =>
      Box(Rect(Min(p.x, q.x), Max(p.X, q.X), Min(p.y, q.y), Max(p.Y, q.Y)))
  }

  /** A `vpsc.Rectangle` object: its fields are updated in place by the
      re-centring methods. */
  class Rectangle {
    var x: real
    var X: real
    var y: real
    var Y: real

    constructor (x: real, X: real, y: real, Y: real)
      ensures Box() == Rect(x, X, y, Y)
    {
      this.x, this.X, this.y, this.Y := x, X, y, Y;
    }

    /** The current corner coordinates. */
    function Box(): Rect
      reads this
    {
      Rect(x, X, y, Y)
    }

    /** `setXCentre`: translate along x so that the centre is `cx`. */
    method SetXCentre(cx: real)
      modifies this
      ensures x == old(x) + (cx - old(Box().Cx())) && X == old(X) + (cx - old(Box().Cx()))
      ensures y == old(y) && Y == old(Y)
      ensures Box().Cx() == cx && Box().Width() == old(Box().Width())
    {
      var dx := cx - Box().Cx();
      x := x + dx;
      X := X + dx;
    }

    /** `setYCentre`: translate along y so that the centre is `cy`. */
    method SetYCentre(cy: real)
      modifies this
      ensures y == old(y) + (cy - old(Box().Cy())) && Y == old(Y) + (cy - old(Box().Cy()))
      ensures x == old(x) && X == old(X)
      ensures Box().Cy() == cy && Box().Height() == old(Box().Height())
    {
      var dy := cy - Box().Cy();
      y := y + dy;
      Y := Y + dy;
    }
  }

  /** A leaf of a group tree: a rectangle and its variable. */
  datatype Leaf = Leaf(bounds: Rect, variable: VarId)

  /** A `vpsc.Group`.  An absent `groups` array is the empty sequence; an
      absent `padding` is `None`.  `minRect` and `maxRect` are written by
      the group constraint generator. */
  datatype Group = Group(
    bounds: Bounds,
    padding: Option<real>,
    leaves: seq<Leaf>,
    groups: seq<Group>,
    minVar: VarId,
    maxVar: VarId,
    minRect: Option<Rect>,
    maxRect: Option<Rect>)

  /** Every leaf rectangle anywhere under `g` lies inside `outer`. */
  ghost predicate SubtreeWithin(g: Group, outer: Rect)
    decreases g
  {
    (forall i :: 0 <= i < |g.leaves| ==> g.leaves[i].bounds.Within(outer)) &&
    (forall j :: 0 <= j < |g.groups| ==> SubtreeWithin(g.groups[j], outer))
  }

  /** `leaves.reduce((r, c) => c.bounds.union(r), acc)`. */
  function FoldLeaves(leaves: seq<Leaf>, acc: Bounds): (r: Bounds)
    ensures forall outer: Rect :: r.InsideOf(outer) <==>
      acc.InsideOf(outer) && forall i :: 0 <= i < |leaves| ==> leaves[i].bounds.Within(outer)
    decreases |leaves|
  {
    if leaves == [] then acc
    else FoldLeaves(leaves[1..], Union(Box(leaves[0].bounds), acc))
  }

  /** `groups.reduce((r, c) => c.bounds.union(r), acc)` over groups whose
      bounds are already computed. */
  function FoldGroups(groups: seq<Group>, acc: Bounds): (r: Bounds)
    ensures forall outer: Rect :: r.InsideOf(outer) <==>
      acc.InsideOf(outer) && forall i :: 0 <= i < |groups| ==> groups[i].bounds.InsideOf(outer)
    decreases |groups|
  {
    if groups == [] then acc
    else FoldGroups(groups[1..], Union(groups[0].bounds, acc))
  }

  /** `computeGroupBounds`: the group with its bounds, and recursively those of
      all its subgroups, stored.  The bounds are the least box containing every
      leaf of the subtree (`Empty` when there is none). */
  function ComputeGroupBounds(g: Group): (r: Group)
    ensures r == g.(bounds := r.bounds, groups := r.groups)
    ensures |r.groups| == |g.groups|
    ensures forall j :: 0 <= j < |g.groups| ==> r.groups[j] == ComputeGroupBounds(g.groups[j])
    ensures forall outer: Rect :: r.bounds.InsideOf(outer) <==> SubtreeWithin(g, outer)
    decreases g
  {
    var groups := seq(|g.groups|, j requires 0 <= j < |g.groups| => ComputeGroupBounds(g.groups[j]));
    g.(bounds := FoldGroups(groups, FoldLeaves(g.leaves, Empty)), groups := groups)
  }
}
