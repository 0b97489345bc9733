/** Separation constraints for a tree of groups (`generateGroupConstraints`)
    and the two-pass overlap removal (`removeOverlaps`) of the vpsc module. */
module GroupSeparation {
  import opened Wrappers
  import opened RectangleGeometry
  import opened Separation

  /** How much a constraint touching subgroup `g`'s `minVar` has its gap
      widened by: `(padding - size(g.bounds)) / 2`. */
  function Widen(axis: Axis, padding: real, g: Group): real
    requires g.bounds.Box?
  {
    (padding - axis.Size(g.bounds.r)) / 2.0
  }

  /** Every group of `groups` has computed bounds. */
  predicate Boxed(groups: seq<Group>) {
    forall j :: 0 <= j < |groups| ==> groups[j].bounds.Box?
  }

  /** The total widening a constraint end at `v` receives from the groups
      whose `minVar` is `v`. */
  function Shift(axis: Axis, padding: real, groups: seq<Group>, v: VarId): real
    requires Boxed(groups)
  {
    if groups == [] then 0.0
    else
      var g := groups[|groups| - 1];
      Shift(axis, padding, groups[..|groups| - 1], v) + (if g.minVar == v then Widen(axis, padding, g) else 0.0)
  }

  /** Where a constraint leaving `v` ends up leaving from: the `maxVar` of the
      last group whose `minVar` is `v`, or `v` itself. */
  function Repoint(groups: seq<Group>, v: VarId): VarId {
    if groups == [] then v
    else if groups[|groups| - 1].minVar == v then groups[|groups| - 1].maxVar
    else Repoint(groups[..|groups| - 1], v)
  }

  /** Constraint `c` after every group of `groups` has adjusted the
      constraints into and out of its `minVar`. */
  function Adjusted(axis: Axis, padding: real, groups: seq<Group>, c: Constraint): Constraint
    requires Boxed(groups)
  {
    Constraint(Repoint(groups, c.left), c.right,
               c.gap + Shift(axis, padding, groups, c.right) + Shift(axis, padding, groups, c.left))
  }

  /** No two groups share a `minVar`. */
  predicate DistinctMinVars(groups: seq<Group>) {
    forall j, k :: 0 <= j < k < |groups| ==> groups[j].minVar != groups[k].minVar
  }

  /** The widening reaching `v` is that of the one group whose `minVar` is
      `v`, or nothing when there is none. */
  lemma {:induction false} ShiftExact(axis: Axis, padding: real, groups: seq<Group>, v: VarId)
    requires Boxed(groups) && DistinctMinVars(groups)
    ensures (forall j :: 0 <= j < |groups| ==> groups[j].minVar != v) ==> Shift(axis, padding, groups, v) == 0.0
    ensures forall j :: 0 <= j < |groups| && groups[j].minVar == v ==>
      Shift(axis, padding, groups, v) == Widen(axis, padding, groups[j])
    decreases |groups|
  {
    if groups != [] {
      var last := |groups| - 1;
      var init := groups[..last];
      assert forall j :: 0 <= j < last ==> init[j] == groups[j];
      ShiftExact(axis, padding, init, v);
    }
  }

  /** A constraint leaving the `minVar` of a group now leaves its `maxVar`;
      one leaving any other variable keeps its left end. */
  lemma {:induction false} RepointExact(groups: seq<Group>, v: VarId)
    requires DistinctMinVars(groups)
    ensures (forall j :: 0 <= j < |groups| ==> groups[j].minVar != v) ==> Repoint(groups, v) == v
    ensures forall j :: 0 <= j < |groups| && groups[j].minVar == v ==> Repoint(groups, v) == groups[j].maxVar
    decreases |groups|
  {
    if groups != [] {
      var last := |groups| - 1;
      var init := groups[..last];
      assert forall j :: 0 <= j < last ==> init[j] == groups[j];
      RepointExact(init, v);
    }
  }

  /** For subgroups with distinct `minVar`s: a constraint into subgroup `j`'s
      `minVar` (from a variable no subgroup owns) gains `Widen(j)` and keeps
      its ends; a constraint out of it is re-pointed to subgroup `j`'s
      `maxVar` and gains the same amount; a constraint touching no
      subgroup's `minVar` is unchanged. */
  lemma AdjustedGap(axis: Axis, padding: real, groups: seq<Group>, c: Constraint)
    requires Boxed(groups) && DistinctMinVars(groups)
    ensures forall j :: (0 <= j < |groups| && c.right == groups[j].minVar &&
                         forall k :: 0 <= k < |groups| ==> groups[k].minVar != c.left) ==>
      Adjusted(axis, padding, groups, c) == Constraint(c.left, c.right, c.gap + Widen(axis, padding, groups[j]))
    ensures forall j :: (0 <= j < |groups| && c.left == groups[j].minVar &&
                         forall k :: 0 <= k < |groups| ==> groups[k].minVar != c.right) ==>
      Adjusted(axis, padding, groups, c) == Constraint(groups[j].maxVar, c.right, c.gap + Widen(axis, padding, groups[j]))
    ensures (forall k :: 0 <= k < |groups| ==> groups[k].minVar != c.left && groups[k].minVar != c.right) ==>
      Adjusted(axis, padding, groups, c) == c
  {
    ShiftExact(axis, padding, groups, c.left);
    ShiftExact(axis, padding, groups, c.right);
    RepointExact(groups, c.left);
  }

  /** Every constraint of `cs` adjusted. */
  function AdjustAll(axis: Axis, padding: real, groups: seq<Group>, cs: seq<Constraint>): seq<Constraint>
    requires Boxed(groups)
  {
    seq(|cs|, i requires 0 <= i < |cs| => Adjusted(axis, padding, groups, cs[i]))
  }

  /** `AdjustAll` is the element-wise adjustment, and without groups it
      changes nothing. */
  lemma AdjustAllIs(axis: Axis, padding: real, groups: seq<Group>, cs: seq<Constraint>, cs2: seq<Constraint>)
    requires Boxed(groups)
    requires groups == [] ==> cs2 == cs
    requires groups != [] ==> |cs2| == |cs| && forall i :: 0 <= i < |cs| ==> cs2[i] == Adjusted(axis, padding, groups, cs[i])
    ensures cs2 == AdjustAll(axis, padding, groups, cs)
  {
  }

  /** The last part of `generateGroupConstraints` when the group has
      subgroups: index the constraints by their ends (`cIn`/`cOut`), then for
      each subgroup `g` widen the constraints into `g.minVar` and re-point the
      ones out of it to `g.maxVar`, widening them too.  The `cOut` lists are
      built before any re-pointing, so membership is by the original left end. */
  method AdjustGroupGaps(axis: Axis, padding: real, groups: seq<Group>, cs: seq<Constraint>)
    returns (cs2: seq<Constraint>)
    requires Boxed(groups)
    ensures |cs2| == |cs|
    ensures forall i :: 0 <= i < |cs| ==> cs2[i] == Adjusted(axis, padding, groups, cs[i])
  {
    cs2 := cs;
    for j := 0 to |groups|
      invariant |cs2| == |cs|
      invariant forall i :: 0 <= i < |cs| ==> cs2[i] == Adjusted(axis, padding, groups[..j], cs[i])
    {
      var g := groups[j];
      var d := Widen(axis, padding, g);
      assert groups[..j + 1][..j] == groups[..j];
      for i := 0 to |cs|
        invariant |cs2| == |cs|
        invariant forall i' :: 0 <= i' < i ==> cs2[i'] == Adjusted(axis, padding, groups[..j + 1], cs[i'])
        invariant forall i' :: i <= i' < |cs| ==> cs2[i'] == Adjusted(axis, padding, groups[..j], cs[i'])
      {
        var c := cs2[i];
        if cs[i].right == g.minVar {
          c := c.(gap := c.gap + d);
        }
        if cs[i].left == g.minVar {
          c := c.(left := g.maxVar, gap := c.gap + d);
        }
        cs2 := cs2[i := c];
      }
    }
    assert groups[..|groups|] == groups;
  }

  /** The padding of a group: `1` when it has none. */
  function Padding(g: Group): real {
    g.padding.GetOr(1.0)
  }

  /** `rect.makeRect(open, close, centre, size)` of a bounding box: the box
      rebuilt from its own accessors. */
  function FullRect(axis: Axis, b: Rect): (r: Rect)
    requires b.Valid()
    ensures r == b
  {
    axis.MakeRect(axis.Open(b), axis.Close(b), axis.Centre(b), axis.Size(b))
  }

  /** The lower edge of `b` along the separation axis. */
  function LowEdge(axis: Axis, b: Rect): real { if axis.XAxis? then b.x else b.y }

  /** The upper edge of `b` along the separation axis. */
  function HighEdge(axis: Axis, b: Rect): real { if axis.XAxis? then b.X else b.Y }

  /** `root.minRect` of a contained group: a rectangle `padding` wide centred
      on the lower edge of its bounds, spanning them across the axis. */
  function ContainerMin(axis: Axis, g: Group): (r: Rect)
    requires g.bounds.Box?
    ensures axis.Centre(r) == LowEdge(axis, g.bounds.r) && axis.Size(r) == Padding(g)
    ensures axis.Open(r) == axis.Open(g.bounds.r) && axis.Close(r) == axis.Close(g.bounds.r)
  {
    var b := g.bounds.r;
    var c, s := axis.Centre(b), axis.Size(b) / 2.0;
    axis.MakeRect(axis.Open(b), axis.Close(b), c - s, Padding(g))
  }

  /** `root.maxRect` of a contained group: the same on the upper edge. */
  function ContainerMax(axis: Axis, g: Group): (r: Rect)
    requires g.bounds.Box?
    ensures axis.Centre(r) == HighEdge(axis, g.bounds.r) && axis.Size(r) == Padding(g)
    ensures axis.Open(r) == axis.Open(g.bounds.r) && axis.Close(r) == axis.Close(g.bounds.r)
  {
    var b := g.bounds.r;
    var c, s := axis.Centre(b), axis.Size(b) / 2.0;
    axis.MakeRect(axis.Open(b), axis.Close(b), c + s, Padding(g))
  }

  /** `root.minVar.desiredPosition` set from `minRect`, then, on the next
      line, set again from `maxRect`: the `minVar` ends up wanting the upper
      edge and `maxVar` is never given a desired position. */
  method PlaceContainerVars(axis: Axis, g: Group, positions: map<VarId, real>) returns (positions2: map<VarId, real>)
    requires g.bounds.Box?
    ensures positions2.Keys == positions.Keys + {g.minVar}
    ensures positions2[g.minVar] == HighEdge(axis, g.bounds.r)
    ensures forall v :: v in positions && v != g.minVar ==> positions2[v] == positions[v]
  {
    positions2 := positions[g.minVar := axis.Centre(ContainerMin(axis, g))];
    positions2 := positions2[g.minVar := axis.Centre(ContainerMax(axis, g))];
  }

  /** The placement evidently intended: each container variable wants the
      centre of its own rectangle, `minVar` the lower edge and `maxVar` the
      upper one. */
  method PlaceContainerVarsIntended(axis: Axis, g: Group, positions: map<VarId, real>) returns (positions2: map<VarId, real>)
    requires g.bounds.Box? && g.minVar != g.maxVar
    ensures positions2.Keys == positions.Keys + {g.minVar, g.maxVar}
    ensures positions2[g.minVar] == axis.Centre(ContainerMin(axis, g)) == LowEdge(axis, g.bounds.r)
    ensures positions2[g.maxVar] == axis.Centre(ContainerMax(axis, g)) == HighEdge(axis, g.bounds.r)
    ensures forall v :: v in positions && v != g.minVar && v != g.maxVar ==> positions2[v] == positions[v]
  {
    positions2 := positions[g.minVar := axis.Centre(ContainerMin(axis, g))];
    positions2 := positions2[g.maxVar := axis.Centre(ContainerMax(axis, g))];
  }

  /** For a group with a non-empty extent along the axis, the written
      placement leaves `minVar` away from the centre of its own `minRect`. */
  lemma PlacementMisses(axis: Axis, g: Group)
    requires g.bounds.Box? && axis.Size(g.bounds.r) > 0.0
    ensures HighEdge(axis, g.bounds.r) != axis.Centre(ContainerMin(axis, g))
  {
  }

  /** What `generateGroupConstraints` needs of a group tree: contained groups
      have computed, well-formed bounds and a non-negative padding, and every
      leaf rectangle is well formed. */
  predicate GroupOk(g: Group, contained: bool)
    decreases g
  {
    (contained ==> g.bounds.Box? && g.bounds.r.Valid() && Padding(g) >= 0.0) &&
    (forall i :: 0 <= i < |g.leaves| ==> g.leaves[i].bounds.Valid()) &&
    (forall j :: 0 <= j < |g.groups| ==> GroupOk(g.groups[j], true)) &&
    SubgroupsBoxed(g)
  }

  /** The subgroups' bounds are computed and well formed (part of their own
      `GroupOk`, stated one level up). */
  predicate SubgroupsBoxed(g: Group) {
    forall j :: 0 <= j < |g.groups| ==> g.groups[j].bounds.Box? && g.groups[j].bounds.r.Valid()
  }

  /** The variables whose desired position the call on `g` writes: the
      `minVar` of every contained group of the tree. */
  ghost function ContainedMinVars(g: Group, contained: bool): set<VarId>
    decreases g
  {
    (if contained then {g.minVar} else {}) +
    (set k, v | 0 <= k < |g.groups| && v in ContainedMinVars(g.groups[k], true) :: v)
  }

  /** The same for the first `j` subgroups. */
  ghost function PrefixMinVars(groups: seq<Group>, j: nat): set<VarId> {
    set k, v | 0 <= k < j && k < |groups| && v in ContainedMinVars(groups[k], true) :: v
  }

  /** The constraint lists of the subgroups, one after another. */
  function Concat(css: seq<seq<Constraint>>): seq<Constraint> {
    if css == [] then [] else Concat(css[..|css| - 1]) + css[|css| - 1]
  }

  /** The rectangles the sweep of `generateGroupConstraints` is given once
      `i` leaves and `j` subgroups are listed: the two container rectangles
      when the group is contained, then the leaves, then each subgroup's
      bounds rebuilt by `makeRect`. */
  function NodeRects(axis: Axis, root: Group, isContained: bool, i: nat, j: nat): seq<Rect>
    requires GroupOk(root, isContained) && i <= |root.leaves| && j <= |root.groups|
  {
    (if isContained then [ContainerMin(axis, root), ContainerMax(axis, root)] else []) +
    seq(i, i' requires 0 <= i' < i => root.leaves[i'].bounds) +
    seq(j, k requires 0 <= k < j => FullRect(axis, root.groups[k].bounds.r))
  }

  /** The variables in the same order: `minVar` and `maxVar`, the leaves'
      variables and the subgroups' `minVar`s. */
  function NodeVars(root: Group, isContained: bool, i: nat, j: nat): seq<VarId>
    requires i <= |root.leaves| && j <= |root.groups|
  {
    (if isContained then [root.minVar, root.maxVar] else []) +
    seq(i, i' requires 0 <= i' < i => root.leaves[i'].variable) +
    seq(j, k requires 0 <= k < j => root.groups[k].minVar)
  }

  function GroupRects(axis: Axis, root: Group, isContained: bool): seq<Rect>
    requires GroupOk(root, isContained)
  {
    NodeRects(axis, root, isContained, |root.leaves|, |root.groups|)
  }

  function GroupVars(root: Group, isContained: bool): seq<VarId> {
    NodeVars(root, isContained, |root.leaves|, |root.groups|)
  }

  /** What one call of `generateGroupConstraints` produced, kept for the
      proof: the records of the calls on the subgroups, the event order of
      the group's own sweep, the constraints that sweep emitted and the
      rectangle pairs they separate. */
  datatype GroupTrace = GroupTrace(children: seq<GroupTrace>, order: seq<Event>,
                                   raw: seq<Constraint>, pairs: seq<(nat, nat)>)

  /** `t` records a call on `g`: each subgroup's record is that of a call on
      the subgroup as a contained group, and the group's own sweep emitted
      exactly what a sweep over its container rectangles, leaves and
      subgroup bounds emits. */
  ghost predicate TraceOk(axis: Axis, minSep: real, g: Group, contained: bool, t: GroupTrace)
    decreases g
  {
    GroupOk(g, contained) && |t.children| == |g.groups| &&
    (forall j :: 0 <= j < |g.groups| ==> TraceOk(axis, minSep, g.groups[j], true, t.children[j])) &&
    Generated(Sweep(GroupRects(axis, g, contained), GroupVars(g, contained), axis, minSep), t.order, t.raw, t.pairs)
  }

  /** The constraints the call recorded by `t` returns: the subgroups'
      constraints in subgroup order, then the group's own sweep adjusted
      around each subgroup. */
  ghost function TraceConstraints(axis: Axis, minSep: real, g: Group, contained: bool, t: GroupTrace): seq<Constraint>
    requires TraceOk(axis, minSep, g, contained, t)
    decreases g
  {
    Concat(seq(|g.groups|, j requires 0 <= j < |g.groups| =>
                 TraceConstraints(axis, minSep, g.groups[j], true, t.children[j]))) +
    AdjustAll(axis, Padding(g), g.groups, t.raw)
  }

  function SumNats(xs: seq<nat>): nat {
    if xs == [] then 0 else SumNats(xs[..|xs| - 1]) + xs[|xs| - 1]
  }

  /** Concatenation adds up the lengths. */
  lemma {:induction false} ConcatLength(css: seq<seq<Constraint>>, counts: seq<nat>)
    requires |counts| == |css| && forall j :: 0 <= j < |css| ==> |css[j]| == counts[j]
    ensures |Concat(css)| == SumNats(counts)
  {
    if css != [] {
      ConcatLength(css[..|css| - 1], counts[..|counts| - 1]);
    }
  }

  /** The number of pairs linked by the sweeps of all the groups of the tree
      of `g`, as the call recorded by `t` ran them. */
  ghost function LinkedCount(axis: Axis, minSep: real, g: Group, contained: bool, t: GroupTrace): nat
    requires TraceOk(axis, minSep, g, contained, t)
    decreases g
  {
    SumNats(seq(|g.groups|, j requires 0 <= j < |g.groups| =>
                  LinkedCount(axis, minSep, g.groups[j], true, t.children[j]))) +
    |SweepPairs(Sweep(GroupRects(axis, g, contained), GroupVars(g, contained), axis, minSep), t.order)|
  }

  /** The call on a group tree returns exactly one constraint per pair that
      the sweep of one of its groups links: the subgroups' constraints are
      kept and the group's own are only adjusted, never dropped or added. */
  lemma {:induction false} TraceCount(axis: Axis, minSep: real, g: Group, contained: bool, t: GroupTrace)
    requires TraceOk(axis, minSep, g, contained, t)
    ensures |TraceConstraints(axis, minSep, g, contained, t)| == LinkedCount(axis, minSep, g, contained, t)
    decreases g
  {
    var css := seq(|g.groups|, j requires 0 <= j < |g.groups| =>
                     TraceConstraints(axis, minSep, g.groups[j], true, t.children[j]));
    var counts := seq(|g.groups|, j requires 0 <= j < |g.groups| =>
                        LinkedCount(axis, minSep, g.groups[j], true, t.children[j]));
    forall j | 0 <= j < |g.groups| ensures |css[j]| == counts[j] {
      TraceCount(axis, minSep, g.groups[j], true, t.children[j]);
    }
    ConcatLength(css, counts);
    GeneratedCount(Sweep(GroupRects(axis, g, contained), GroupVars(g, contained), axis, minSep), t.order, t.raw, t.pairs);
  }

  /** A group without subgroups returns its sweep's constraints unchanged. */
  lemma LeafGroupConstraints(axis: Axis, minSep: real, g: Group, contained: bool, t: GroupTrace)
    requires TraceOk(axis, minSep, g, contained, t) && g.groups == []
    ensures TraceConstraints(axis, minSep, g, contained, t) == t.raw
  {
    assert Concat([]) == [];
  }

  /** The group `g` as the call leaves it: a contained group has its two
      container rectangles, every subgroup is left as its own call leaves
      it except that its `minRect` is then overwritten by its bounds, and
      nothing else changes. */
  function GroupAfter(axis: Axis, g: Group, contained: bool): Group
    requires GroupOk(g, contained)
    decreases g
  {
    g.(groups := seq(|g.groups|, j requires 0 <= j < |g.groups| =>
                       GroupAfter(axis, g.groups[j], true).(minRect := Some(g.groups[j].bounds.r))),
       minRect := if contained then Some(ContainerMin(axis, g)) else g.minRect,
       maxRect := if contained then Some(ContainerMax(axis, g)) else g.maxRect)
  }

  /** The call changes only the group's container rectangles and its
      subgroups, each of which it leaves as the call on it does, with the
      `minRect` then set to the subgroup's bounds. */
  lemma GroupAfterShape(axis: Axis, g: Group, contained: bool)
    requires GroupOk(g, contained)
    ensures |GroupAfter(axis, g, contained).groups| == |g.groups|
    ensures GroupAfter(axis, g, contained) ==
      g.(groups := GroupAfter(axis, g, contained).groups,
         minRect := if contained then Some(ContainerMin(axis, g)) else g.minRect,
         maxRect := if contained then Some(ContainerMax(axis, g)) else g.maxRect)
    ensures forall j :: 0 <= j < |g.groups| ==>
      GroupAfter(axis, g, contained).groups[j] ==
      GroupAfter(axis, g.groups[j], true).(minRect := Some(g.groups[j].bounds.r))
  {
  }

  /** The desired positions after the call on `g`: the subgroups' calls in
      order, then, for a contained group, its `minVar` set to the upper edge
      of its bounds (`PlaceContainerVars`). */
  function PlacedAfter(axis: Axis, g: Group, contained: bool, positions: map<VarId, real>): map<VarId, real>
    requires GroupOk(g, contained)
    decreases g, 1
  {
    var pos := PlacedPrefix(axis, g, |g.groups|, positions);
    if contained then pos[g.minVar := HighEdge(axis, g.bounds.r)] else pos
  }

  /** The desired positions after the calls on the first `j` subgroups of `g`. */
  function PlacedPrefix(axis: Axis, g: Group, j: nat, positions: map<VarId, real>): map<VarId, real>
    requires j <= |g.groups| && forall k :: 0 <= k < |g.groups| ==> GroupOk(g.groups[k], true)
    decreases g, 0, j
  {
    if j == 0 then positions
    else PlacedAfter(axis, g.groups[j - 1], true, PlacedPrefix(axis, g, j - 1, positions))
  }

  /** The call on `g` writes the desired position of exactly the `minVar`s
      of the contained groups of its tree, the group's own last, and leaves
      every other variable's alone. */
  lemma {:induction false} PlacedAfterFrame(axis: Axis, g: Group, contained: bool, positions: map<VarId, real>)
    requires GroupOk(g, contained)
    ensures PlacedAfter(axis, g, contained, positions).Keys == positions.Keys + ContainedMinVars(g, contained)
    ensures forall v :: v in positions && v !in ContainedMinVars(g, contained) ==>
      PlacedAfter(axis, g, contained, positions)[v] == positions[v]
    ensures contained ==> PlacedAfter(axis, g, contained, positions)[g.minVar] == HighEdge(axis, g.bounds.r)
    decreases g, 1
  {
    PlacedPrefixFrame(axis, g, |g.groups|, positions);
    ContainedMinVarsSplit(g, contained);
  }

  /** The same for the first `j` subgroups. */
  lemma {:induction false} PlacedPrefixFrame(axis: Axis, g: Group, j: nat, positions: map<VarId, real>)
    requires j <= |g.groups| && forall k :: 0 <= k < |g.groups| ==> GroupOk(g.groups[k], true)
    ensures PlacedPrefix(axis, g, j, positions).Keys == positions.Keys + PrefixMinVars(g.groups, j)
    ensures forall v :: v in positions && v !in PrefixMinVars(g.groups, j) ==>
      PlacedPrefix(axis, g, j, positions)[v] == positions[v]
    decreases g, 0, j
  {
    hide GroupOk;
    if j == 0 {
      assert PrefixMinVars(g.groups, 0) == {};
    } else {
      var before := PlacedPrefix(axis, g, j - 1, positions);
      assert PlacedPrefix(axis, g, j, positions) == PlacedAfter(axis, g.groups[j - 1], true, before);
      hide PlacedPrefix, PlacedAfter, ContainedMinVars, PrefixMinVars;
      PlacedPrefixFrame(axis, g, j - 1, positions);
      PlacedAfterFrame(axis, g.groups[j - 1], true, before);
      PrefixMinVarsNext(g.groups, j - 1);
      FrameStep(positions, before, PlacedAfter(axis, g.groups[j - 1], true, before),
                PrefixMinVars(g.groups, j - 1), ContainedMinVars(g.groups[j - 1], true), PrefixMinVars(g.groups, j));
    }
  }

  /** The positions after `j + 1` subgroups are those the call on subgroup
      `j` leaves, starting from the positions after `j`. */
  lemma PlacedPrefixNext(axis: Axis, g: Group, j: nat, positions: map<VarId, real>)
    requires j < |g.groups| && forall k :: 0 <= k < |g.groups| ==> GroupOk(g.groups[k], true)
    ensures PlacedPrefix(axis, g, j + 1, positions) ==
      PlacedAfter(axis, g.groups[j], true, PlacedPrefix(axis, g, j, positions))
  {
  }

  /** Two updates in a row, the first writing `earlier` and the second
      `own`, write `earlier + own` and leave every other entry alone. */
  lemma FrameStep(positions: map<VarId, real>, before: map<VarId, real>, after: map<VarId, real>,
                  earlier: set<VarId>, own: set<VarId>, all: set<VarId>)
    requires before.Keys == positions.Keys + earlier
    requires forall v :: v in positions && v !in earlier ==> before[v] == positions[v]
    requires after.Keys == before.Keys + own
    requires forall v :: v in before && v !in own ==> after[v] == before[v]
    requires all == earlier + own
    ensures after.Keys == positions.Keys + all
    ensures forall v :: v in positions && v !in all ==> after[v] == positions[v]
  {
  }

  /** Listing one more leaf appends its rectangle and variable. */
  lemma NodesNextLeaf(axis: Axis, root: Group, isContained: bool, i: nat)
    requires GroupOk(root, isContained) && i < |root.leaves|
    ensures NodeRects(axis, root, isContained, i + 1, 0) ==
      NodeRects(axis, root, isContained, i, 0) + [root.leaves[i].bounds]
    ensures NodeVars(root, isContained, i + 1, 0) == NodeVars(root, isContained, i, 0) + [root.leaves[i].variable]
  {
  }

  /** Listing one more subgroup appends its rebuilt bounds and its `minVar`. */
  lemma NodesNextGroup(axis: Axis, root: Group, isContained: bool, j: nat)
    requires GroupOk(root, isContained) && j < |root.groups|
    ensures NodeRects(axis, root, isContained, |root.leaves|, j + 1) ==
      NodeRects(axis, root, isContained, |root.leaves|, j) + [FullRect(axis, root.groups[j].bounds.r)]
    ensures NodeVars(root, isContained, |root.leaves|, j + 1) ==
      NodeVars(root, isContained, |root.leaves|, j) + [root.groups[j].minVar]
  {
  }

  /** The rectangles handed to the sweep are well formed and there is one
      variable per rectangle. */
  lemma GroupSweepValid(axis: Axis, root: Group, isContained: bool, minSep: real)
    requires GroupOk(root, isContained)
    ensures Sweep(GroupRects(axis, root, isContained), GroupVars(root, isContained), axis, minSep).Valid()
    ensures |GroupRects(axis, root, isContained)| == |GroupVars(root, isContained)|
  {
  }

  /** Adding the next subgroup adds the variables it writes. */
  lemma PrefixMinVarsNext(groups: seq<Group>, j: nat)
    requires j < |groups|
    ensures PrefixMinVars(groups, j + 1) == PrefixMinVars(groups, j) + ContainedMinVars(groups[j], true)
  {
    forall v | v in ContainedMinVars(groups[j], true) ensures v in PrefixMinVars(groups, j + 1) {
      assert 0 <= j < j + 1 && j < |groups| && v in ContainedMinVars(groups[j], true);
    }
  }

  /** The variables a call writes: its own `minVar` when contained, and those
      its subgroups write. */
  lemma ContainedMinVarsSplit(g: Group, contained: bool)
    ensures ContainedMinVars(g, contained) ==
      (if contained then {g.minVar} else {}) + PrefixMinVars(g.groups, |g.groups|)
  {
  }

  /** The first loop of `generateGroupConstraints`: each subgroup's
      constraints, generated as a contained group, concatenated in order.
      Each subgroup comes back as its own call leaves it. */
  method ChildGroupConstraints(root: Group, axis: Axis, minSep: real, positions: map<VarId, real>)
    returns (childConstraints: seq<Constraint>, groups: seq<Group>, positions2: map<VarId, real>,
             ghost children: seq<seq<Constraint>>, ghost traces: seq<GroupTrace>)
    requires SubgroupsBoxed(root) && forall j :: 0 <= j < |root.groups| ==> GroupOk(root.groups[j], true)
    ensures |children| == |root.groups| && |groups| == |root.groups| && |traces| == |root.groups|
    ensures childConstraints == Concat(children)
    ensures forall k :: 0 <= k < |root.groups| ==>
      TraceOk(axis, minSep, root.groups[k], true, traces[k]) &&
      children[k] == TraceConstraints(axis, minSep, root.groups[k], true, traces[k])
    ensures forall k :: 0 <= k < |root.groups| ==> groups[k] == GroupAfter(axis, root.groups[k], true)
    ensures positions2 == PlacedPrefix(axis, root, |root.groups|, positions)
    ensures forall k :: 0 <= k < |root.groups| ==>
      groups[k] == root.groups[k].(groups := groups[k].groups,
                                   minRect := Some(ContainerMin(axis, root.groups[k])),
                                   maxRect := Some(ContainerMax(axis, root.groups[k])))
    ensures positions2.Keys == positions.Keys + PrefixMinVars(root.groups, |root.groups|)
    ensures forall v :: v in positions && v !in PrefixMinVars(root.groups, |root.groups|) ==>
      positions2[v] == positions[v]
    decreases root, 0
  {
    assert PlacedPrefix(axis, root, 0, positions) == positions;
    hide *;
    childConstraints, groups, positions2, children, traces := [], root.groups, positions, [], [];
    ChildrenStart(axis, minSep, root);
    for j := 0 to |root.groups|
      invariant ChildrenDone(axis, minSep, root, j, children, traces, groups)
      invariant childConstraints == Concat(children)
      invariant positions2 == PlacedPrefix(axis, root, j, positions)
    {
      var gcs, g2, pos2, _, _, _, t := GenerateGroupConstraints(root.groups[j], axis, minSep, true, positions2);
      PlacedPrefixNext(axis, root, j, positions);
      ChildrenNext(axis, minSep, root, j, children, traces, groups, gcs, t, g2);
      ConcatNext(children, gcs);
      childConstraints := childConstraints + gcs;
      children := children + [gcs];
      traces := traces + [t];
      groups := groups[j := g2];
      positions2 := pos2;
    }
    PlacedPrefixFrame(axis, root, |root.groups|, positions);
    ChildrenAll(axis, minSep, root, children, traces, groups);
  }

  /** The state of `ChildGroupConstraints` after `j` subgroups: a record, a
      constraint list and a final state for each of them. */
  ghost predicate ChildrenDone(axis: Axis, minSep: real, root: Group, j: nat, children: seq<seq<Constraint>>,
                               traces: seq<GroupTrace>, groups: seq<Group>)
  {
    j <= |root.groups| && |groups| == |root.groups| && |children| == j && |traces| == j &&
    forall k :: 0 <= k < j ==>
      TraceOk(axis, minSep, root.groups[k], true, traces[k]) &&
      children[k] == TraceConstraints(axis, minSep, root.groups[k], true, traces[k]) &&
      groups[k] == GroupAfter(axis, root.groups[k], true)
  }

  /** Before the first subgroup nothing has been recorded. */
  lemma ChildrenStart(axis: Axis, minSep: real, root: Group)
    ensures ChildrenDone(axis, minSep, root, 0, [], [], root.groups)
  {
  }

  /** The call on subgroup `j` extends the records by one. */
  lemma ChildrenNext(axis: Axis, minSep: real, root: Group, j: nat, children: seq<seq<Constraint>>,
                     traces: seq<GroupTrace>, groups: seq<Group>, gcs: seq<Constraint>, t: GroupTrace, g2: Group)
    requires ChildrenDone(axis, minSep, root, j, children, traces, groups) && j < |root.groups|
    requires TraceOk(axis, minSep, root.groups[j], true, t)
    requires gcs == TraceConstraints(axis, minSep, root.groups[j], true, t)
    requires GroupOk(root.groups[j], true) && g2 == GroupAfter(axis, root.groups[j], true)
    ensures ChildrenDone(axis, minSep, root, j + 1, children + [gcs], traces + [t], groups[j := g2])
  {
    hide TraceOk, TraceConstraints, GroupAfter;
  }

  /** Appending one list to the lists appends it to their concatenation. */
  lemma ConcatNext(css: seq<seq<Constraint>>, cs: seq<Constraint>)
    ensures Concat(css + [cs]) == Concat(css) + cs
  {
    assert (css + [cs])[..|css|] == css;
  }

  /** After the last subgroup the records cover every subgroup. */
  lemma ChildrenAll(axis: Axis, minSep: real, root: Group, children: seq<seq<Constraint>>,
                    traces: seq<GroupTrace>, groups: seq<Group>)
    requires ChildrenDone(axis, minSep, root, |root.groups|, children, traces, groups)
    requires SubgroupsBoxed(root) && forall k :: 0 <= k < |root.groups| ==> GroupOk(root.groups[k], true)
    ensures |children| == |root.groups| && |groups| == |root.groups| && |traces| == |root.groups|
    ensures forall k :: 0 <= k < |root.groups| ==>
      TraceOk(axis, minSep, root.groups[k], true, traces[k]) &&
      children[k] == TraceConstraints(axis, minSep, root.groups[k], true, traces[k])
    ensures forall k :: 0 <= k < |root.groups| ==> groups[k] == GroupAfter(axis, root.groups[k], true)
    ensures forall k :: 0 <= k < |root.groups| ==>
      groups[k] == root.groups[k].(groups := groups[k].groups,
                                   minRect := Some(ContainerMin(axis, root.groups[k])),
                                   maxRect := Some(ContainerMax(axis, root.groups[k])))
  {
    hide TraceOk, TraceConstraints, GroupOk;
    forall k | 0 <= k < |root.groups| ensures
      groups[k] == root.groups[k].(groups := groups[k].groups,
                                   minRect := Some(ContainerMin(axis, root.groups[k])),
                                   maxRect := Some(ContainerMax(axis, root.groups[k])))
    {
      GroupAfterShape(axis, root.groups[k], true);
    }
  }

  /** The two listing loops of `generateGroupConstraints`: the container
      rectangles, the leaves and the subgroups, with each subgroup's
      `minRect` overwritten by its rebuilt bounds. */
  method SweepNodes(axis: Axis, root: Group, isContained: bool, groups: seq<Group>)
    returns (rs: seq<Rect>, vs: seq<VarId>, groups2: seq<Group>)
    requires GroupOk(root, isContained) && |groups| == |root.groups|
    requires forall k :: 0 <= k < |groups| ==> groups[k].bounds == root.groups[k].bounds
    requires forall k :: 0 <= k < |groups| ==> groups[k].minVar == root.groups[k].minVar
    ensures rs == GroupRects(axis, root, isContained) && vs == GroupVars(root, isContained)
    ensures |groups2| == |groups|
    ensures forall k :: 0 <= k < |groups| ==> groups2[k] == groups[k].(minRect := Some(root.groups[k].bounds.r))
  {
    rs, vs := [], [];
    if isContained {
      rs, vs := [ContainerMin(axis, root), ContainerMax(axis, root)], [root.minVar, root.maxVar];
    }
    for i := 0 to |root.leaves|
      invariant rs == NodeRects(axis, root, isContained, i, 0) && vs == NodeVars(root, isContained, i, 0)
    {
      NodesNextLeaf(axis, root, isContained, i);
      rs, vs := rs + [root.leaves[i].bounds], vs + [root.leaves[i].variable];
    }
    groups2 := groups;
    for j := 0 to |groups|
      invariant rs == NodeRects(axis, root, isContained, |root.leaves|, j)
      invariant vs == NodeVars(root, isContained, |root.leaves|, j)
      invariant |groups2| == |groups|
      invariant forall k :: 0 <= k < j ==> groups2[k] == groups[k].(minRect := Some(root.groups[k].bounds.r))
      invariant forall k :: j <= k < |groups| ==> groups2[k] == groups[k]
    {
      NodesNextGroup(axis, root, isContained, j);
      var g := groups2[j];
      var full := FullRect(axis, g.bounds.r);
      groups2 := groups2[j := g.(minRect := Some(full))];
      rs, vs := rs + [full], vs + [g.minVar];
    }
  }

  /** `generateGroupConstraints(root, rect, minSep, isContained)`.
      - The subgroups are handled first, recursively as contained groups.
        Their constraints come first in the result, in subgroup order.
      - A contained group then gets its two container rectangles, and its
        variables are placed by `PlaceContainerVars`.
      - One sweep runs over the container rectangles, the leaves and the
        subgroups' bounds. Each subgroup's `minRect` is overwritten with its
        full bounds.
      - The sweep's constraints are adjusted around each subgroup's `minVar`
        and `maxVar`. The padding defaults to 1.
      `positions` stands for the variables' `desiredPosition` fields;
      `trace` records the whole recursion (`TraceOk`), and the result is the
      constraints it determines. */
  method GenerateGroupConstraints(root: Group, axis: Axis, minSep: real, isContained: bool,
                                  positions: map<VarId, real>)
    returns (cs: seq<Constraint>, root2: Group, positions2: map<VarId, real>,
             ghost children: seq<seq<Constraint>>, ghost raw: seq<Constraint>, ghost pairs: seq<(nat, nat)>,
             ghost trace: GroupTrace)
    requires GroupOk(root, isContained)
    ensures TraceOk(axis, minSep, root, isContained, trace)
    ensures cs == TraceConstraints(axis, minSep, root, isContained, trace)
    ensures trace.raw == raw && trace.pairs == pairs && |children| == |root.groups|
    ensures forall j :: 0 <= j < |root.groups| ==>
      children[j] == TraceConstraints(axis, minSep, root.groups[j], true, trace.children[j])
    ensures root2 == GroupAfter(axis, root, isContained)
    ensures positions2 == PlacedAfter(axis, root, isContained, positions)
    ensures cs == Concat(children) + AdjustAll(axis, Padding(root), root.groups, raw)
    ensures Sweep(GroupRects(axis, root, isContained), GroupVars(root, isContained), axis, minSep).Valid()
    ensures |pairs| == |raw|
    ensures forall i :: 0 <= i < |raw| ==>
      Sweep(GroupRects(axis, root, isContained), GroupVars(root, isContained), axis, minSep).Constrains(pairs[i], raw[i])
    ensures forall i, j :: 0 <= i < j < |raw| ==> !SamePair(pairs[i], pairs[j])
    ensures |root2.groups| == |root.groups|
    ensures root2 == root.(groups := root2.groups,
                           minRect := if isContained then Some(ContainerMin(axis, root)) else root.minRect,
                           maxRect := if isContained then Some(ContainerMax(axis, root)) else root.maxRect)
    ensures forall j :: 0 <= j < |root.groups| ==>
      root2.groups[j] == root.groups[j].(groups := root2.groups[j].groups,
                                         minRect := Some(root.groups[j].bounds.r),
                                         maxRect := Some(ContainerMax(axis, root.groups[j])))
    ensures positions2.Keys == positions.Keys + ContainedMinVars(root, isContained)
    ensures forall v :: v in positions && v !in ContainedMinVars(root, isContained) ==> positions2[v] == positions[v]
    ensures isContained ==> positions2[root.minVar] == HighEdge(axis, root.bounds.r)
    decreases root, 1
  {
    GroupOkParts(root, isContained);
    hide *;
    var padding := Padding(root);
    var childConstraints, groups;
    ghost var traces;
    childConstraints, groups, positions2, children, traces := ChildGroupConstraints(root, axis, minSep, positions);
    ghost var afterChildren := positions2;
    var minRect, maxRect := root.minRect, root.maxRect;
    if isContained {
      minRect, maxRect := Some(ContainerMin(axis, root)), Some(ContainerMax(axis, root));
      positions2 := PlaceContainerVars(axis, root, positions2);
    }
    var rs, vs;
    ghost var groups1 := groups;
    rs, vs, groups := SweepNodes(axis, root, isContained, groups);
    GroupSweepValid(axis, root, isContained, minSep);
    var swept;
    ghost var order;
    swept, pairs, order := GenerateConstraints(rs, vs, axis, minSep);
    raw := swept;
    var own := swept;
    if |root.groups| > 0 {
      own := AdjustGroupGaps(axis, padding, root.groups, swept);
    }
    AdjustAllIs(axis, padding, root.groups, swept, own);
    cs := childConstraints + own;
    root2 := root.(groups := groups, minRect := minRect, maxRect := maxRect);
    trace := GroupTrace(traces, order, raw, pairs);
    TraceIntro(axis, minSep, root, isContained, trace, children);
    GroupAfterIntro(axis, root, isContained, groups1, groups);
    PlacedAfterIntro(axis, root, isContained, positions, afterChildren, positions2);
    PlacedAfterFrame(axis, root, isContained, positions);
    GroupAfterShape(axis, root, isContained);
    forall j | 0 <= j < |root.groups| ensures
      root2.groups[j] == root.groups[j].(groups := root2.groups[j].groups,
                                         minRect := Some(root.groups[j].bounds.r),
                                         maxRect := Some(ContainerMax(axis, root.groups[j])))
    {
      GroupAfterShape(axis, root.groups[j], true);
    }
  }

  /** What `GroupOk` gives the call on `g` directly. */
  lemma GroupOkParts(g: Group, contained: bool)
    requires GroupOk(g, contained)
    ensures contained ==> g.bounds.Box?
    ensures SubgroupsBoxed(g) && Boxed(g.groups)
    ensures forall j :: 0 <= j < |g.groups| ==> g.groups[j].bounds.Box? && GroupOk(g.groups[j], true)
  {
  }

  /** A record whose subgroup records are those of `ChildGroupConstraints`
      and whose own sweep is one `GenerateConstraints` ran is a record of a
      call on `g`, and determines the constraints that call returns. */
  lemma TraceIntro(axis: Axis, minSep: real, g: Group, contained: bool, t: GroupTrace,
                   children: seq<seq<Constraint>>)
    requires GroupOk(g, contained) && |t.children| == |g.groups| && |children| == |g.groups|
    requires forall k :: 0 <= k < |g.groups| ==>
      TraceOk(axis, minSep, g.groups[k], true, t.children[k]) &&
      children[k] == TraceConstraints(axis, minSep, g.groups[k], true, t.children[k])
    requires Sweep(GroupRects(axis, g, contained), GroupVars(g, contained), axis, minSep).Valid()
    requires EventsOk(Sweep(GroupRects(axis, g, contained), GroupVars(g, contained), axis, minSep), t.order)
    requires SortedEvents(t.order) && |t.pairs| == |t.raw|
    requires forall i :: 0 <= i < |t.raw| ==>
      Sweep(GroupRects(axis, g, contained), GroupVars(g, contained), axis, minSep).Constrains(t.pairs[i], t.raw[i])
    requires forall i, j :: 0 <= i < j < |t.raw| ==> !SamePair(t.pairs[i], t.pairs[j])
    requires forall lr :: lr in t.pairs <==>
      lr in SweepPairs(Sweep(GroupRects(axis, g, contained), GroupVars(g, contained), axis, minSep), t.order)
    ensures TraceOk(axis, minSep, g, contained, t)
    ensures TraceConstraints(axis, minSep, g, contained, t) ==
      Concat(children) + AdjustAll(axis, Padding(g), g.groups, t.raw)
  {
    hide GroupOk, GroupRects, GroupVars, SweepPairs, EventsOk;
    assert children == seq(|g.groups|, j requires 0 <= j < |g.groups| =>
                             TraceConstraints(axis, minSep, g.groups[j], true, t.children[j]));
  }

  /** The group the call rebuilds from the subgroups `ChildGroupConstraints`
      and `SweepNodes` leave is `GroupAfter`. */
  lemma GroupAfterIntro(axis: Axis, g: Group, contained: bool, groups: seq<Group>, groups2: seq<Group>)
    requires GroupOk(g, contained) && |groups| == |g.groups| && |groups2| == |g.groups|
    requires forall k :: 0 <= k < |g.groups| ==> groups[k] == GroupAfter(axis, g.groups[k], true)
    requires forall k :: 0 <= k < |g.groups| ==> groups2[k] == groups[k].(minRect := Some(g.groups[k].bounds.r))
    ensures g.(groups := groups2,
               minRect := if contained then Some(ContainerMin(axis, g)) else g.minRect,
               maxRect := if contained then Some(ContainerMax(axis, g)) else g.maxRect) ==
      GroupAfter(axis, g, contained)
  {
    hide GroupOk, ContainerMin, ContainerMax;
    GroupAfterShape(axis, g, contained);
  }

  /** The positions the call leaves are `PlacedAfter`. */
  lemma PlacedAfterIntro(axis: Axis, g: Group, contained: bool, positions: map<VarId, real>,
                         afterChildren: map<VarId, real>, positions2: map<VarId, real>)
    requires GroupOk(g, contained)
    requires afterChildren == PlacedPrefix(axis, g, |g.groups|, positions)
    requires !contained ==> positions2 == afterChildren
    requires contained ==>
      positions2.Keys == afterChildren.Keys + {g.minVar} &&
      positions2[g.minVar] == HighEdge(axis, g.bounds.r) &&
      forall v :: v in afterChildren && v != g.minVar ==> positions2[v] == afterChildren[v]
    ensures positions2 == PlacedAfter(axis, g, contained, positions)
  {
    hide PlacedPrefix;
    if contained {
      assert positions2 == afterChildren[g.minVar := HighEdge(axis, g.bounds.r)];
    }
  }

  /** `r` translated along x so that its centre is `c`. */
  function MoveX(r: Rect, c: real): (m: Rect)
    ensures m.Cx() == c && m.Width() == r.Width() && m.y == r.y && m.Y == r.Y
  {
    Rect(r.x + (c - r.Cx()), r.X + (c - r.Cx()), r.y, r.Y)
  }

  /** `r` translated along y so that its centre is `c`. */
  function MoveY(r: Rect, c: real): (m: Rect)
    ensures m.Cy() == c && m.Height() == r.Height() && m.x == r.x && m.X == r.X
  {
    Rect(r.x, r.X, r.y + (c - r.Cy()), r.Y + (c - r.Cy()))
  }

  /** The variables `0 .. n - 1`, one per rectangle. */
  function Indices(n: nat): (vs: seq<VarId>)
    ensures |vs| == n && forall i :: 0 <= i < n ==> vs[i] == i
  {
    seq(n, i => i)
  }

  /** The current corners of every rectangle of `rs`. */
  function Boxes(rs: seq<Rectangle>): (bs: seq<Rect>)
    reads set r | r in rs
    ensures |bs| == |rs| && forall i :: 0 <= i < |rs| ==> bs[i] == rs[i].Box()
  {
    if rs == [] then [] else Boxes(rs[..|rs| - 1]) + [rs[|rs| - 1].Box()]
  }

  /** A solver run: `solve(desired, cs)` is the position of each variable
      `i` after satisfying the constraints `cs`, starting from the desired
      positions.  It returns one position per variable. */
  ghost predicate SolverOk(solve: (seq<real>, seq<Constraint>) -> seq<real>) {
    forall d: seq<real>, cs: seq<Constraint> :: |solve(d, cs)| == |d|
  }

  /** One pass of `removeOverlaps` along x: one variable per rectangle
      wanting its current x-centre, the x-separation constraints, a solver
      run, then `setXCentre` of each rectangle to its variable's position. */
  method SeparateX(rs: seq<Rectangle>, solve: (seq<real>, seq<Constraint>) -> seq<real>)
    returns (ghost cs: seq<Constraint>, ghost pairs: seq<(nat, nat)>, ghost order: seq<Event>, ghost xs: seq<real>)
    requires SolverOk(solve)
    requires forall i, j :: 0 <= i < j < |rs| ==> rs[i] != rs[j]
    requires forall i :: 0 <= i < |rs| ==> rs[i].Box().Valid()
    modifies set r | r in rs
    ensures |pairs| == |cs| && |xs| == |rs|
    ensures Generated(Sweep(old(Boxes(rs)), Indices(|rs|), XAxis, MinSep), order, cs, pairs)
    ensures forall i :: 0 <= i < |cs| ==> Sweep(old(Boxes(rs)), Indices(|rs|), XAxis, MinSep).Constrains(pairs[i], cs[i])
    ensures forall i, j :: 0 <= i < j < |cs| ==> !SamePair(pairs[i], pairs[j])
    ensures xs == solve(seq(|rs|, i requires 0 <= i < |rs| => old(Boxes(rs))[i].Cx()), cs)
    ensures forall i :: 0 <= i < |rs| ==> rs[i].Box() == MoveX(old(rs[i].Box()), xs[i])
  {
    var n := |rs|;
    var boxes := Boxes(rs);
    var desired := seq(n, i requires 0 <= i < n => boxes[i].Cx());
    var cs0, pairs0, order0 := GenerateXConstraints(boxes, Indices(n));
    cs, pairs, order := cs0, pairs0, order0;
    var pos := solve(desired, cs0);
    xs := pos;
    for i := 0 to n
      invariant forall k :: 0 <= k < i ==> rs[k].Box() == MoveX(boxes[k], pos[k])
      invariant forall k :: i <= k < n ==> rs[k].Box() == boxes[k]
    {
      rs[i].SetXCentre(pos[i]);
    }
  }

  /** The same pass along y, with `setYCentre`. */
  method SeparateY(rs: seq<Rectangle>, solve: (seq<real>, seq<Constraint>) -> seq<real>)
    returns (ghost cs: seq<Constraint>, ghost pairs: seq<(nat, nat)>, ghost order: seq<Event>, ghost ys: seq<real>)
    requires SolverOk(solve)
    requires forall i, j :: 0 <= i < j < |rs| ==> rs[i] != rs[j]
    requires forall i :: 0 <= i < |rs| ==> rs[i].Box().Valid()
    modifies set r | r in rs
    ensures |pairs| == |cs| && |ys| == |rs|
    ensures Generated(Sweep(old(Boxes(rs)), Indices(|rs|), YAxis, MinSep), order, cs, pairs)
    ensures forall i :: 0 <= i < |cs| ==> Sweep(old(Boxes(rs)), Indices(|rs|), YAxis, MinSep).Constrains(pairs[i], cs[i])
    ensures forall i, j :: 0 <= i < j < |cs| ==> !SamePair(pairs[i], pairs[j])
    ensures ys == solve(seq(|rs|, i requires 0 <= i < |rs| => old(Boxes(rs))[i].Cy()), cs)
    ensures forall i :: 0 <= i < |rs| ==> rs[i].Box() == MoveY(old(rs[i].Box()), ys[i])
  {
    var n := |rs|;
    var boxes := Boxes(rs);
    var desired := seq(n, i requires 0 <= i < n => boxes[i].Cy());
    var cs0, pairs0, order0 := GenerateYConstraints(boxes, Indices(n));
    cs, pairs, order := cs0, pairs0, order0;
    var pos := solve(desired, cs0);
    ys := pos;
    for i := 0 to n
      invariant forall k :: 0 <= k < i ==> rs[k].Box() == MoveY(boxes[k], pos[k])
      invariant forall k :: i <= k < n ==> rs[k].Box() == boxes[k]
    {
      rs[i].SetYCentre(pos[i]);
    }
  }

  /** `removeOverlaps(rs)`: an x pass, then a y pass over the rectangles as
      the x pass left them.  Only centres move: every rectangle keeps its
      width and height, its x-centre is the x pass's solved position and its
      y-centre the y pass's.  The rectangles the y pass sees still have their
      original y-extents. */
  method RemoveOverlaps(rs: seq<Rectangle>, solve: (seq<real>, seq<Constraint>) -> seq<real>)
    returns (ghost mid: seq<Rect>, ghost xs: seq<real>, ghost ys: seq<real>,
             ghost csx: seq<Constraint>, ghost pairsx: seq<(nat, nat)>, ghost orderx: seq<Event>,
             ghost csy: seq<Constraint>, ghost pairsy: seq<(nat, nat)>, ghost ordery: seq<Event>)
    requires SolverOk(solve)
    requires forall i, j :: 0 <= i < j < |rs| ==> rs[i] != rs[j]
    requires forall i :: 0 <= i < |rs| ==> rs[i].Box().Valid()
    modifies set r | r in rs
    ensures |mid| == |xs| == |ys| == |rs|
    ensures |pairsx| == |csx| && |pairsy| == |csy|
    ensures forall i :: 0 <= i < |rs| ==> mid[i].Valid()
    ensures forall i :: 0 <= i < |csx| ==> Sweep(old(Boxes(rs)), Indices(|rs|), XAxis, MinSep).Constrains(pairsx[i], csx[i])
    ensures forall i :: 0 <= i < |csy| ==> Sweep(mid, Indices(|rs|), YAxis, MinSep).Constrains(pairsy[i], csy[i])
    ensures Generated(Sweep(old(Boxes(rs)), Indices(|rs|), XAxis, MinSep), orderx, csx, pairsx)
    ensures Generated(Sweep(mid, Indices(|rs|), YAxis, MinSep), ordery, csy, pairsy)
    ensures xs == solve(seq(|rs|, i requires 0 <= i < |rs| => old(Boxes(rs))[i].Cx()), csx)
    ensures ys == solve(seq(|rs|, i requires 0 <= i < |rs| => mid[i].Cy()), csy)
    ensures forall i :: 0 <= i < |rs| ==>
      mid[i] == MoveX(old(rs[i].Box()), xs[i]) &&
      rs[i].Box() == MoveY(mid[i], ys[i])
    ensures forall i :: 0 <= i < |rs| ==>
      rs[i].Box().Width() == old(rs[i].Box().Width()) && rs[i].Box().Height() == old(rs[i].Box().Height()) &&
      rs[i].Box().Cx() == xs[i] && rs[i].Box().Cy() == ys[i] &&
      mid[i].y == old(rs[i].y) && mid[i].Y == old(rs[i].Y)
  {
    csx, pairsx, orderx, xs := SeparateX(rs, solve);
    mid := Boxes(rs);
    forall i | 0 <= i < |rs| ensures rs[i].Box().Valid() {
      assert rs[i].Box() == MoveX(old(rs[i].Box()), xs[i]);
    }
    csy, pairsy, ordery, ys := SeparateY(rs, solve);
  }

  /** `generateXGroupConstraints(root)`: the top-level call along x, with
      the minimum separation `1e-6`. */
  method GenerateXGroupConstraints(root: Group, positions: map<VarId, real>)
    returns (cs: seq<Constraint>, root2: Group, positions2: map<VarId, real>,
             ghost children: seq<seq<Constraint>>, ghost raw: seq<Constraint>, ghost pairs: seq<(nat, nat)>,
             ghost trace: GroupTrace)
    requires GroupOk(root, false)
    ensures TraceOk(XAxis, MinSep, root, false, trace)
    ensures cs == TraceConstraints(XAxis, MinSep, root, false, trace)
    ensures root2 == GroupAfter(XAxis, root, false)
    ensures positions2 == PlacedAfter(XAxis, root, false, positions)
    ensures |children| == |root.groups|
    ensures cs == Concat(children) + AdjustAll(XAxis, Padding(root), root.groups, raw)
    ensures |pairs| == |raw|
    ensures forall i :: 0 <= i < |raw| ==>
      Sweep(GroupRects(XAxis, root, false), GroupVars(root, false), XAxis, MinSep).Constrains(pairs[i], raw[i])
    ensures forall i, j :: 0 <= i < j < |raw| ==> !SamePair(pairs[i], pairs[j])
    ensures positions2.Keys == positions.Keys + ContainedMinVars(root, false)
    ensures forall v :: v in positions && v !in ContainedMinVars(root, false) ==> positions2[v] == positions[v]
    ensures root2.minRect == root.minRect && root2.maxRect == root.maxRect
  {
    cs, root2, positions2, children, raw, pairs, trace := GenerateGroupConstraints(root, XAxis, MinSep, false, positions);
  }

  /** `generateYGroupConstraints(root)`: the same along y. */
  method GenerateYGroupConstraints(root: Group, positions: map<VarId, real>)
    returns (cs: seq<Constraint>, root2: Group, positions2: map<VarId, real>,
             ghost children: seq<seq<Constraint>>, ghost raw: seq<Constraint>, ghost pairs: seq<(nat, nat)>,
             ghost trace: GroupTrace)
    requires GroupOk(root, false)
    ensures TraceOk(YAxis, MinSep, root, false, trace)
    ensures cs == TraceConstraints(YAxis, MinSep, root, false, trace)
    ensures root2 == GroupAfter(YAxis, root, false)
    ensures positions2 == PlacedAfter(YAxis, root, false, positions)
    ensures |children| == |root.groups|
    ensures cs == Concat(children) + AdjustAll(YAxis, Padding(root), root.groups, raw)
    ensures |pairs| == |raw|
    ensures forall i :: 0 <= i < |raw| ==>
      Sweep(GroupRects(YAxis, root, false), GroupVars(root, false), YAxis, MinSep).Constrains(pairs[i], raw[i])
    ensures forall i, j :: 0 <= i < j < |raw| ==> !SamePair(pairs[i], pairs[j])
    ensures positions2.Keys == positions.Keys + ContainedMinVars(root, false)
    ensures forall v :: v in positions && v !in ContainedMinVars(root, false) ==> positions2[v] == positions[v]
    ensures root2.minRect == root.minRect && root2.maxRect == root.maxRect
  {
    cs, root2, positions2, children, raw, pairs, trace := GenerateGroupConstraints(root, YAxis, MinSep, false, positions);
  }
}

