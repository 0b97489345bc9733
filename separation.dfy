/** Separation-constraint generation of the vpsc module: the `RectAccessors`
    strategies, sweep-line events and their comparator, and the sweep itself. */
module Separation {
  import opened Wrappers
  import opened RectangleGeometry

  /** `vpsc.Constraint(left, right, gap)`: asks the solver for
      position(right) − position(left) ≥ gap. */
  datatype Constraint = Constraint(left: VarId, right: VarId, gap: real)

  /** The minimum separation both generators pass (`1e-6`). */
  const MinSep: real := 0.000001

  /** The two `RectAccessors` bundles.  `XAxis` is `xRect`: it separates along
      x, sweeping along y with a scanline ordered by x-centre.  `YAxis` is
      `yRect`, the converse. */
  datatype Axis = XAxis | YAxis {

    function Centre(r: Rect): real { if XAxis? then r.Cx() else r.Cy() }

    function Open(r: Rect): real { if XAxis? then r.y else r.x }

    function Close(r: Rect): real { if XAxis? then r.Y else r.X }

    function Size(r: Rect): real { if XAxis? then r.Width() else r.Height() }

    /** `makeRect(open, close, center, size)`: a rectangle whose accessors
        give back exactly these four values. */
    function MakeRect(open: real, close: real, centre: real, size: real): (r: Rect)
      ensures Open(r) == open && Close(r) == close
      ensures Centre(r) == centre && Size(r) == size
    {
      if XAxis? then Rect(centre - size / 2.0, centre + size / 2.0, open, close)
      else Rect(open, close, centre - size / 2.0, centre + size / 2.0)
    }

    /** The test under which `findNeighbours` records a scanline node `u` as a
        neighbour of the node `v` just opened: `findXNeighbours` keeps `u`
        when the pair does not overlap in x or overlaps in x no more than in
        y; `findYNeighbours` keeps `u` only when the x-extents strictly
        overlap. */
    predicate Neighbourly(u: Rect, v: Rect) {
      if XAxis? then u.OverlapX(v) <= 0.0 || u.OverlapX(v) <= u.OverlapY(v)
      else u.OverlapX(v) > 0.0
    }
  }

  lemma NeighbourlySymmetric(axis: Axis, a: Rect, b: Rect)
    ensures axis.Neighbourly(a, b) <==> axis.Neighbourly(b, a)
  {
    OverlapSymmetric(a, b);
  }

  /** A sweep event: node `v` enters (`isOpen`) or leaves the scanline at `pos`. */
  datatype Event = Event(isOpen: bool, v: nat, pos: real)

  /** `compareEvents`, as written: by position, and at equal positions −1
      whenever `a` is an open event, whatever `b` is. */
  function CompareEvents(a: Event, b: Event): (r: int)
    ensures r == -1 || r == 0 || r == 1
    ensures r > 0 <==> a.pos > b.pos
    ensures r < 0 <==> a.pos < b.pos || (a.pos == b.pos && a.isOpen)
  {
    if a.pos > b.pos then 1
    else if a.pos < b.pos then -1
    else if a.isOpen then -1
    else 0
  }

  /** As written, `compareEvents` is not antisymmetric: two open events at one
      position are each "less" than the other. */
  lemma CompareEventsNotAntisymmetric()
    ensures CompareEvents(Event(true, 0, 0.0), Event(true, 1, 0.0)) == -1
    ensures CompareEvents(Event(true, 1, 0.0), Event(true, 0, 0.0)) == -1
  {
  }

  /** The order the event sort is evidently meant to produce: by position,
      and at equal positions opens before closes. */
  predicate EventLe(a: Event, b: Event) {
    a.pos < b.pos || (a.pos == b.pos && (a.isOpen || !b.isOpen))
  }

  /** The comparator that states `EventLe`: opens before closes at equal
      positions, and 0 between two events of the same kind. */
  function CompareEventsIntended(a: Event, b: Event): (r: int)
    ensures r == -1 || r == 0 || r == 1
    ensures r <= 0 <==> EventLe(a, b)
    ensures r >= 0 <==> EventLe(b, a)
  {
    if a.pos > b.pos then 1
    else if a.pos < b.pos then -1
    else if a.isOpen && !b.isOpen then -1
    else if !a.isOpen && b.isOpen then 1
    else 0
  }

  /** The intended comparator is antisymmetric, and it agrees with the
      written one whenever the written one says "greater" or compares events
      at different positions. */
  lemma CompareEventsIntendedConsistent(a: Event, b: Event)
    ensures CompareEventsIntended(a, b) == -CompareEventsIntended(b, a)
    ensures a.pos != b.pos ==> CompareEventsIntended(a, b) == CompareEvents(a, b)
    ensures CompareEvents(a, b) > 0 ==> CompareEventsIntended(a, b) > 0
  {
  }

  predicate SortedEvents(s: seq<Event>) {
    forall i, j :: 0 <= i < j < |s| ==> EventLe(s[i], s[j])
  }

  /** Insert `e` into the sorted `s` before the first element it may precede. */
  function InsertEvent(e: Event, s: seq<Event>): (r: seq<Event>)
    requires SortedEvents(s)
    ensures SortedEvents(r)
    ensures multiset(r) == multiset(s) + multiset{e}
    ensures |r| == |s| + 1
    ensures forall x :: x in r ==> x == e || x in s
  {
    if s == [] || EventLe(e, s[0]) then [e] + s
    else
      var rest := InsertEvent(e, s[1..]);
      assert s == [s[0]] + s[1..];
      assert forall j :: 0 <= j < |rest| ==> EventLe(s[0], rest[j]) by {
        forall j | 0 <= j < |rest| ensures EventLe(s[0], rest[j]) {
          assert rest[j] in rest;
        }
      }
      [s[0]] + rest
  }

  /** `events.sort(compareEvents)`: a permutation of the events in `EventLe`
      order (the library sort itself is not part of this model). */
  function SortEvents(s: seq<Event>): (r: seq<Event>)
    ensures SortedEvents(r)
    ensures multiset(r) == multiset(s)
    ensures |r| == |s|
  {
    if s == [] then []
    else
      assert s == [s[0]] + s[1..];
      InsertEvent(s[0], SortEvents(s[1..]))
  }

  /** The inputs of one `generateConstraints(rs, vars, rect, minSep)` call.
      Node `u` of the sweep stands for `rs[u]` and `vars[u]`. */
  datatype Sweep = Sweep(rs: seq<Rect>, vars: seq<VarId>, axis: Axis, minSep: real) {

    /** `console.assert(vars.length >= n)`, and every rectangle well formed. */
    predicate Valid() {
      |vars| >= |rs| && forall i :: 0 <= i < |rs| ==> rs[i].Valid()
    }

    /** `Node.pos`: the centre the scanline is keyed on. */
    function Pos(u: nat): real
      requires u < |rs|
    {
      axis.Centre(rs[u])
    }

    /** The constraint `makeConstraint(l, r)` pushes. */
    function MakeConstraint(l: nat, r: nat): Constraint
      requires Valid() && l < |rs| && r < |rs|
    {
      Constraint(vars[l], vars[r], (axis.Size(rs[l]) + axis.Size(rs[r])) / 2.0 + minSep)
    }

    /** `c` is the constraint for the node pair `lr`: two different nodes, the
        left one centred no later than the right one, that passed the
        neighbour test. */
    predicate Constrains(lr: (nat, nat), c: Constraint)
      requires Valid()
    {
      lr.0 < |rs| && lr.1 < |rs| && lr.0 != lr.1 &&
      c == MakeConstraint(lr.0, lr.1) &&
      Pos(lr.0) <= Pos(lr.1) && axis.Neighbourly(rs[lr.0], rs[lr.1])
    }

    /** The scanline order: by centre, and among equal centres by the time the
        node was opened (`stamp`). */
    ghost predicate Before(stamp: seq<nat>, a: nat, b: nat)
      requires a < |rs| && b < |rs| && |stamp| == |rs|
    {
      Pos(a) < Pos(b) || (Pos(a) == Pos(b) && stamp[a] < stamp[b])
    }

    /** The scanline holds nodes of this sweep in strictly increasing order. */
    ghost predicate ScanlineOk(stamp: seq<nat>, scan: seq<nat>)
    {
      |stamp| == |rs| &&
      (forall a :: 0 <= a < |scan| ==> scan[a] < |rs|) &&
      (forall a, b :: 0 <= a < b < |scan| ==> Before(stamp, scan[a], scan[b]))
    }

    /** The neighbour sets of the nodes on the scanline: they only name nodes
        on the scanline, they are recorded symmetrically (`w` is in
        `next[u]` exactly when `u` is in `prev[w]`), a `next` neighbour comes
        later in scanline order, and every link passed the neighbour test. */
    ghost predicate Links(stamp: seq<nat>, scan: seq<nat>, prev: seq<set<nat>>, next: seq<set<nat>>)
    {
      ScanlineOk(stamp, scan) && |prev| == |rs| && |next| == |rs| &&
      (forall u, w :: u in scan && w in next[u] ==> w in scan) &&
      (forall u, w :: u in scan && w in prev[u] ==> w in scan) &&
      (forall u, w :: u in scan && w in scan ==> (w in next[u] <==> u in prev[w])) &&
      (forall u, w :: u in scan && w in scan && w in next[u] ==>
         Before(stamp, u, w) && axis.Neighbourly(rs[u], rs[w]))
    }

    /** `w` lies strictly between `u` and `v` in scanline order. */
    ghost predicate Between(stamp: seq<nat>, u: nat, w: nat, v: nat)
      requires u < |rs| && w < |rs| && v < |rs| && |stamp| == |rs|
    {
      (Before(stamp, u, w) && Before(stamp, w, v)) || (Before(stamp, v, w) && Before(stamp, w, u))
    }

    /** The walk of `findNeighbours` from the node `v` just inserted keeps
        the node `u`: `u` passes the neighbour test, and every node of `scan`
        strictly between them overlaps `v` in x, so that `findXNeighbours`
        walks on past it.  `findYNeighbours` only looks at the two adjacent
        nodes, so for it no node may lie in between. */
    ghost predicate Walked(stamp: seq<nat>, scan: seq<nat>, u: nat, v: nat)
      requires u < |rs| && v < |rs| && |stamp| == |rs|
    {
      axis.Neighbourly(rs[u], rs[v]) &&
      forall w :: w in scan && w < |rs| && Between(stamp, u, w, v) ==>
        axis == XAxis && rs[w].OverlapX(rs[v]) > 0.0
    }
  }

  /** The two node pairs are the same pair, in either order. */
  predicate SamePair(a: (nat, nat), b: (nat, nat)) {
    (a.0 == b.0 && a.1 == b.1) || (a.0 == b.1 && a.1 == b.0)
  }

  /** `generateConstraints`' first loop: event `i` opens node `i` at
      `getOpen`, event `i + n` closes it at `getClose`. */
  method MakeEvents(rs: seq<Rect>, axis: Axis) returns (events: seq<Event>)
    ensures |events| == 2 * |rs|
    ensures forall i :: 0 <= i < |rs| ==>
      events[i] == Event(true, i, axis.Open(rs[i])) &&
      events[i + |rs|] == Event(false, i, axis.Close(rs[i]))
  {
    var n := |rs|;
    var a := new Event[2 * n];
    for i := 0 to n
      invariant forall j :: 0 <= j < i ==>
        a[j] == Event(true, j, axis.Open(rs[j])) && a[j + n] == Event(false, j, axis.Close(rs[j]))
    {
      a[i] := Event(true, i, axis.Open(rs[i]));
      a[i + n] := Event(false, i, axis.Close(rs[i]));
    }
    events := a[..];
  }

  /** Where the scanline tree puts a node keyed `key`: after every node whose
      key is at most `key`. */
  function InsertionPoint(p: Sweep, scan: seq<nat>, key: real): (k: nat)
    requires forall a :: 0 <= a < |scan| ==> scan[a] < |p.rs|
    requires forall a, b :: 0 <= a < b < |scan| ==> p.Pos(scan[a]) <= p.Pos(scan[b])
    ensures k <= |scan|
    ensures forall a :: 0 <= a < k ==> p.Pos(scan[a]) <= key
    ensures forall a :: k <= a < |scan| ==> key < p.Pos(scan[a])
    decreases |scan|
  {
    if scan == [] || key < p.Pos(scan[0]) then 0
    else 1 + InsertionPoint(p, scan[1..], key)
  }

  /** `scanline.remove(v)`. */
  function RemoveNode(scan: seq<nat>, v: nat): (r: seq<nat>)
    ensures forall u :: u in r <==> u in scan && u != v
    ensures |r| <= |scan|
  {
    if scan == [] then []
    else if scan[0] == v then RemoveNode(scan[1..], v)
    else [scan[0]] + RemoveNode(scan[1..], v)
  }

  /** Removing a node keeps the scanline in order. */
  lemma {:induction false} RemoveNodeOk(p: Sweep, stamp: seq<nat>, scan: seq<nat>, v: nat)
    requires p.ScanlineOk(stamp, scan)
    ensures p.ScanlineOk(stamp, RemoveNode(scan, v))
  {
    if scan != [] {
      var rest := scan[1..];
      assert p.ScanlineOk(stamp, rest);
      RemoveNodeOk(p, stamp, rest, v);
      var r := RemoveNode(scan, v);
      if scan[0] != v {
        forall b | 0 < b < |r| ensures p.Before(stamp, r[0], r[b]) {
          assert r[b] in RemoveNode(rest, v);
          var t :| 0 <= t < |rest| && rest[t] == r[b];
          assert scan[t + 1] == r[b];
        }
      }
    }
  }

  /** A sequence in which every element occurs once holds each value at most once. */
  lemma {:induction false} DistinctCount<T>(s: seq<T>, x: T)
    requires forall i, j :: 0 <= i < j < |s| ==> s[i] != s[j]
    ensures multiset(s)[x] <= 1
  {
    if s != [] {
      assert s == [s[0]] + s[1..];
      DistinctCount(s[1..], x);
      if x == s[0] {
        assert x !in s[1..];
      }
    }
  }

  /** A value at two positions of a sequence occurs at least twice in it. */
  lemma TwiceCount<T>(s: seq<T>, i: nat, j: nat)
    requires i < j < |s| && s[i] == s[j]
    ensures multiset(s)[s[i]] >= 2
  {
    assert s == s[..j] + s[j..];
    assert s[i] in s[..j];
    assert s[j] in s[j..];
  }

  /** The open and close events built from distinct rectangles are pairwise distinct. */
  lemma EventsDistinct(p: Sweep, events: seq<Event>)
    requires |events| == 2 * |p.rs|
    requires forall i :: 0 <= i < |p.rs| ==>
      events[i] == Event(true, i, p.axis.Open(p.rs[i])) &&
      events[i + |p.rs|] == Event(false, i, p.axis.Close(p.rs[i]))
    ensures forall i, j :: 0 <= i < j < |events| ==> events[i] != events[j]
  {
    var rs, axis, n := p.rs, p.axis, |p.rs|;
    forall i, j | 0 <= i < j < |events| ensures events[i] != events[j] {
      if j < n {
        assert events[i] == Event(true, i, axis.Open(rs[i]));
        assert events[j] == Event(true, j, axis.Open(rs[j]));
      } else if i < n {
        assert events[i] == Event(true, i, axis.Open(rs[i]));
        assert events[(j - n) + n] == Event(false, j - n, axis.Close(rs[j - n]));
      } else {
        assert events[(i - n) + n] == Event(false, i - n, axis.Close(rs[i - n]));
        assert events[(j - n) + n] == Event(false, j - n, axis.Close(rs[j - n]));
      }
    }
  }

  /** After sorting, the events of the sweep are exactly those `MakeEvents`
      made, each once: every node's open event comes before its close event,
      and both are present. */
  lemma SweepOrder(p: Sweep, events: seq<Event>, sorted: seq<Event>)
    requires p.Valid()
    requires |events| == 2 * |p.rs|
    requires forall i :: 0 <= i < |p.rs| ==>
      events[i] == Event(true, i, p.axis.Open(p.rs[i])) &&
      events[i + |p.rs|] == Event(false, i, p.axis.Close(p.rs[i]))
    requires SortedEvents(sorted) && multiset(sorted) == multiset(events)
    ensures EventsOk(p, sorted)
  {
    var rs, axis := p.rs, p.axis;
    var n := |rs|;
    assert |sorted| == |multiset(sorted)| == |multiset(events)| == |events|;
    forall k | 0 <= k < |sorted|
      ensures sorted[k].v < n
      ensures sorted[k] == Event(sorted[k].isOpen, sorted[k].v,
        if sorted[k].isOpen then axis.Open(rs[sorted[k].v]) else axis.Close(rs[sorted[k].v]))
    {
      assert sorted[k] in multiset(events);
      var i :| 0 <= i < |events| && events[i] == sorted[k];
      if i < n {
        assert events[i] == Event(true, i, axis.Open(rs[i]));
      } else {
        assert events[(i - n) + n] == Event(false, i - n, axis.Close(rs[i - n]));
      }
    }
    forall u | 0 <= u < n
      ensures Event(true, u, axis.Open(rs[u])) in sorted && Event(false, u, axis.Close(rs[u])) in sorted
    {
      assert events[u] in multiset(sorted);
      assert events[u + n] in multiset(sorted);
    }
    EventsDistinct(p, events);
    forall k, k' | 0 <= k < k' < |sorted| && sorted[k].v == sorted[k'].v
      ensures sorted[k].isOpen && !sorted[k'].isOpen
    {
      DistinctCount(events, sorted[k]);
      if sorted[k] == sorted[k'] {
        TwiceCount(sorted, k, k');
      }
      assert EventLe(sorted[k], sorted[k']);
      assert rs[sorted[k].v].Valid();
    }
  }

  /** `prev2`/`next2` are `prev`/`next` with `v` linked forward to every node
      of `fwd` and backward to every node of `bwd`, and nothing else changed. */
  ghost predicate Linked(v: nat, fwd: set<nat>, bwd: set<nat>,
                         prev: seq<set<nat>>, next: seq<set<nat>>, prev2: seq<set<nat>>, next2: seq<set<nat>>)
  {
    v < |prev| && |prev2| == |prev| && |next| == |prev| && |next2| == |prev| &&
    next2[v] == next[v] + fwd && prev2[v] == prev[v] + bwd &&
    forall u :: 0 <= u < |prev| && u != v ==>
      next2[u] == (if u in bwd then next[u] + {v} else next[u]) &&
      prev2[u] == (if u in fwd then prev[u] + {v} else prev[u])
  }

  /** The forward walk of `findXNeighbours` keeps the node at index `t` after
      `idx`: it passes the x-neighbour test and no node between them ended
      the walk by not overlapping in x. */
  ghost predicate XKeepsAfter(p: Sweep, scan: seq<nat>, idx: nat, t: nat)
    requires forall a :: 0 <= a < |scan| ==> scan[a] < |p.rs|
    requires idx < t < |scan|
  {
    XAxis.Neighbourly(p.rs[scan[t]], p.rs[scan[idx]]) &&
    forall t' :: idx < t' < t ==> p.rs[scan[t']].OverlapX(p.rs[scan[idx]]) > 0.0
  }

  /** The same for the backward walk and a node at index `t` before `idx`. */
  ghost predicate XKeepsBefore(p: Sweep, scan: seq<nat>, idx: nat, t: nat)
    requires forall a :: 0 <= a < |scan| ==> scan[a] < |p.rs|
    requires t < idx < |scan|
  {
    XAxis.Neighbourly(p.rs[scan[t]], p.rs[scan[idx]]) &&
    forall t' :: t < t' < idx ==> p.rs[scan[t']].OverlapX(p.rs[scan[idx]]) > 0.0
  }

  /** `scan` holds distinct nodes of the sweep `p`. */
  predicate NodesOf(p: Sweep, scan: seq<nat>) {
    (forall a :: 0 <= a < |scan| ==> scan[a] < |p.rs|) &&
    (forall a, b :: 0 <= a < b < |scan| ==> scan[a] != scan[b])
  }

  lemma ScanlineNodes(p: Sweep, stamp: seq<nat>, scan: seq<nat>)
    requires p.ScanlineOk(stamp, scan)
    ensures NodesOf(p, scan)
    ensures forall u :: u in scan ==> u < |p.rs|
  {
    forall a, b | 0 <= a < b < |scan| ensures scan[a] != scan[b] {
      assert p.Before(stamp, scan[a], scan[b]);
    }
    forall u | u in scan ensures u < |p.rs| {
      var a :| 0 <= a < |scan| && scan[a] == u;
    }
  }

  /** Nodes after `scan[idx]` on the scanline come after it in `Before`
      order, and nodes before it come before it. */
  lemma LinkEnds(p: Sweep, stamp: seq<nat>, scan: seq<nat>, idx: nat, fwd: set<nat>, bwd: set<nat>)
    requires p.ScanlineOk(stamp, scan) && idx < |scan|
    requires forall u :: u in fwd ==> u in scan[idx + 1..] && p.axis.Neighbourly(p.rs[u], p.rs[scan[idx]])
    requires forall u :: u in bwd ==> u in scan[..idx] && p.axis.Neighbourly(p.rs[u], p.rs[scan[idx]])
    ensures forall u :: u in fwd ==>
      u in scan && p.Before(stamp, scan[idx], u) && p.axis.Neighbourly(p.rs[scan[idx]], p.rs[u])
    ensures forall u :: u in bwd ==>
      u in scan && p.Before(stamp, u, scan[idx]) && p.axis.Neighbourly(p.rs[u], p.rs[scan[idx]])
  {
    var v := scan[idx];
    ScanlineNodes(p, stamp, scan);
    forall u | u in fwd ensures u in scan && p.Before(stamp, v, u) && p.axis.Neighbourly(p.rs[v], p.rs[u]) {
      var t :| idx < t < |scan| && scan[t] == u;
      NeighbourlySymmetric(p.axis, p.rs[u], p.rs[v]);
    }
    forall u | u in bwd ensures u in scan && p.Before(stamp, u, v) && p.axis.Neighbourly(p.rs[u], p.rs[v]) {
      var t :| 0 <= t < idx && scan[t] == u;
    }
  }

  /** Linking a node on the scanline to neighbours after it and before it,
      each of which passed the test, keeps the neighbour sets well formed. */
  lemma LinkNode(p: Sweep, stamp: seq<nat>, scan: seq<nat>, idx: nat, fwd: set<nat>, bwd: set<nat>,
                 prev: seq<set<nat>>, next: seq<set<nat>>, prev2: seq<set<nat>>, next2: seq<set<nat>>)
    requires p.Links(stamp, scan, prev, next) && idx < |scan|
    requires forall u :: u in fwd ==> u in scan[idx + 1..] && p.axis.Neighbourly(p.rs[u], p.rs[scan[idx]])
    requires forall u :: u in bwd ==> u in scan[..idx] && p.axis.Neighbourly(p.rs[u], p.rs[scan[idx]])
    requires Linked(scan[idx], fwd, bwd, prev, next, prev2, next2)
    ensures p.Links(stamp, scan, prev2, next2)
  {
    LinkEnds(p, stamp, scan, idx, fwd, bwd);
    LinkClosed(p, stamp, scan, scan[idx], fwd, bwd, prev, next, prev2, next2);
    LinkOrdered(p, stamp, scan, scan[idx], fwd, bwd, prev, next, prev2, next2);
  }

  /** Linking `v` to nodes on the scanline keeps every neighbour on it. */
  lemma LinkClosed(p: Sweep, stamp: seq<nat>, scan: seq<nat>, v: nat, fwd: set<nat>, bwd: set<nat>,
                   prev: seq<set<nat>>, next: seq<set<nat>>, prev2: seq<set<nat>>, next2: seq<set<nat>>)
    requires p.Links(stamp, scan, prev, next) && v in scan
    requires forall u :: u in fwd ==> u in scan
    requires forall u :: u in bwd ==> u in scan
    requires Linked(v, fwd, bwd, prev, next, prev2, next2)
    ensures forall u, w :: u in scan && w in next2[u] ==> w in scan
    ensures forall u, w :: u in scan && w in prev2[u] ==> w in scan
  {
    ScanlineNodes(p, stamp, scan);
    forall u, w | u in scan && w in next2[u] ensures w in scan {
      assert w in next[u] || w in fwd || w == v;
    }
    forall u, w | u in scan && w in prev2[u] ensures w in scan {
      assert w in prev[u] || w in bwd || w == v;
    }
  }

  /** Linking `v` forward to later neighbours and backward to earlier ones
      keeps the neighbour sets symmetric and in `Before` order. */
  lemma LinkOrdered(p: Sweep, stamp: seq<nat>, scan: seq<nat>, v: nat, fwd: set<nat>, bwd: set<nat>,
                    prev: seq<set<nat>>, next: seq<set<nat>>, prev2: seq<set<nat>>, next2: seq<set<nat>>)
    requires p.Links(stamp, scan, prev, next) && v in scan
    requires forall u :: u in fwd ==>
      u in scan && p.Before(stamp, v, u) && p.axis.Neighbourly(p.rs[v], p.rs[u])
    requires forall u :: u in bwd ==>
      u in scan && p.Before(stamp, u, v) && p.axis.Neighbourly(p.rs[u], p.rs[v])
    requires Linked(v, fwd, bwd, prev, next, prev2, next2)
    ensures forall u, w :: u in scan && w in scan ==> (w in next2[u] <==> u in prev2[w])
    ensures forall u, w :: u in scan && w in scan && w in next2[u] ==>
      p.Before(stamp, u, w) && p.axis.Neighbourly(p.rs[u], p.rs[w])
  {
    ScanlineNodes(p, stamp, scan);
    forall u, w | u in scan && w in scan ensures w in next2[u] <==> u in prev2[w] {
      assert w in next[u] <==> u in prev[w];
    }
    forall u, w | u in scan && w in scan && w in next2[u]
      ensures p.Before(stamp, u, w) && p.axis.Neighbourly(p.rs[u], p.rs[w])
    {
      assert w in next[u] || (u == v && w in fwd) || (w == v && u in bwd);
    }
  }

  /** The nodes the forward walk of `findXNeighbours` links to `v` from
      index `j` on: a node is linked when it passes the x-neighbour test, and
      the walk ends after the first node that does not overlap `v` in x. */
  ghost function XKeptAfter(p: Sweep, scan: seq<nat>, v: nat, j: nat): set<nat>
    requires forall a :: 0 <= a < |scan| ==> scan[a] < |p.rs|
    requires v < |p.rs|
    decreases |scan| - j
  {
    if j >= |scan| then {}
    else
      var ox := p.rs[scan[j]].OverlapX(p.rs[v]);
      (if XAxis.Neighbourly(p.rs[scan[j]], p.rs[v]) then {scan[j]} else {}) +
      (if ox <= 0.0 then {} else XKeptAfter(p, scan, v, j + 1))
  }

  /** The backward walk from index `j - 1` down. */
  ghost function XKeptBefore(p: Sweep, scan: seq<nat>, v: nat, j: nat): set<nat>
    requires forall a :: 0 <= a < |scan| ==> scan[a] < |p.rs|
    requires v < |p.rs| && j <= |scan|
  {
    if j == 0 then {}
    else
      var ox := p.rs[scan[j - 1]].OverlapX(p.rs[v]);
      (if XAxis.Neighbourly(p.rs[scan[j - 1]], p.rs[v]) then {scan[j - 1]} else {}) +
      (if ox <= 0.0 then {} else XKeptBefore(p, scan, v, j - 1))
  }

  /** On a scanline without repeated nodes, the forward walk links exactly the
      later nodes that pass the test with no non-overlapping node in between. */
  lemma {:induction false} XKeptAfterExact(p: Sweep, scan: seq<nat>, idx: nat, j: nat)
    requires NodesOf(p, scan) && idx < j <= |scan|
    requires forall t :: idx < t < j ==> p.rs[scan[t]].OverlapX(p.rs[scan[idx]]) > 0.0
    ensures forall u :: u in XKeptAfter(p, scan, scan[idx], j) ==> u in scan[j..]
    ensures forall t :: j <= t < |scan| ==>
      (scan[t] in XKeptAfter(p, scan, scan[idx], j) <==> XKeepsAfter(p, scan, idx, t))
    decreases |scan| - j
  {
    var v := scan[idx];
    if j < |scan| {
      var ox := p.rs[scan[j]].OverlapX(p.rs[v]);
      if ox > 0.0 {
        XKeptAfterExact(p, scan, idx, j + 1);
      }
      forall t | j < t < |scan| ensures scan[t] != scan[j] {
      }
    }
  }

  /** The same for the backward walk. */
  lemma {:induction false} XKeptBeforeExact(p: Sweep, scan: seq<nat>, idx: nat, j: nat)
    requires NodesOf(p, scan) && j <= idx < |scan|
    requires forall t :: j <= t < idx ==> p.rs[scan[t]].OverlapX(p.rs[scan[idx]]) > 0.0
    ensures forall u :: u in XKeptBefore(p, scan, scan[idx], j) ==> u in scan[..j]
    ensures forall t :: 0 <= t < j ==>
      (scan[t] in XKeptBefore(p, scan, scan[idx], j) <==> XKeepsBefore(p, scan, idx, t))
  {
    var v := scan[idx];
    if j > 0 {
      var ox := p.rs[scan[j - 1]].OverlapX(p.rs[v]);
      if ox > 0.0 {
        XKeptBeforeExact(p, scan, idx, j - 1);
      }
      forall t | 0 <= t < j - 1 ensures scan[t] != scan[j - 1] {
      }
    }
  }

  /** `f("next", "prev")` inside `findXNeighbours`: walk from the node at
      `idx` towards larger centres, linking each node that passes the
      x-neighbour test, and stop after the first node that does not overlap
      the new one in x. */
  method XWalkNext(p: Sweep, scan: seq<nat>, idx: nat, prev: seq<set<nat>>, next: seq<set<nat>>)
    returns (prev2: seq<set<nat>>, next2: seq<set<nat>>, ghost found: set<nat>)
    requires NodesOf(p, scan) && idx < |scan| && |prev| == |p.rs| && |next| == |p.rs|
    ensures found == XKeptAfter(p, scan, scan[idx], idx + 1)
    ensures Linked(scan[idx], found, {}, prev, next, prev2, next2)
  {
    var v := scan[idx];
    prev2, next2, found := prev, next, {};
    assert next[v] + found == next[v];
    var j := idx + 1;
    while j < |scan|
      invariant idx < j <= |scan|
      invariant found + XKeptAfter(p, scan, v, j) == XKeptAfter(p, scan, v, idx + 1)
      invariant |next2| == |next| && next2[v] == next[v] + found
      invariant forall w :: 0 <= w < |next| && w != v ==> next2[w] == next[w]
      invariant |prev2| == |prev| && prev2[v] == prev[v]
      invariant forall w :: 0 <= w < |prev| && w != v ==>
        prev2[w] == (if w in found then prev[w] + {v} else prev[w])
    {
      var u := scan[j];
      var uovervX := p.rs[u].OverlapX(p.rs[v]);
      if uovervX <= 0.0 || uovervX <= p.rs[u].OverlapY(p.rs[v]) {
        next2 := next2[v := next2[v] + {u}];
        prev2 := prev2[u := prev2[u] + {v}];
        found := found + {u};
      }
      if uovervX <= 0.0 {
        break;
      }
      j := j + 1;
    }
  }

  /** `f("prev", "next")` inside `findXNeighbours`: the same walk towards
      smaller centres. */
  method XWalkPrev(p: Sweep, scan: seq<nat>, idx: nat, prev: seq<set<nat>>, next: seq<set<nat>>)
    returns (prev2: seq<set<nat>>, next2: seq<set<nat>>, ghost found: set<nat>)
    requires NodesOf(p, scan) && idx < |scan| && |prev| == |p.rs| && |next| == |p.rs|
    ensures found == XKeptBefore(p, scan, scan[idx], idx)
    ensures Linked(scan[idx], {}, found, prev, next, prev2, next2)
  {
    var v := scan[idx];
    prev2, next2, found := prev, next, {};
    assert prev[v] + found == prev[v];
    var j := idx;
    while j > 0
      invariant j <= idx
      invariant found + XKeptBefore(p, scan, v, j) == XKeptBefore(p, scan, v, idx)
      invariant |prev2| == |prev| && prev2[v] == prev[v] + found
      invariant forall w :: 0 <= w < |prev| && w != v ==> prev2[w] == prev[w]
      invariant |next2| == |next| && next2[v] == next[v]
      invariant forall w :: 0 <= w < |next| && w != v ==>
        next2[w] == (if w in found then next[w] + {v} else next[w])
    {
      var u := scan[j - 1];
      var uovervX := p.rs[u].OverlapX(p.rs[v]);
      if uovervX <= 0.0 || uovervX <= p.rs[u].OverlapY(p.rs[v]) {
        prev2 := prev2[v := prev2[v] + {u}];
        next2 := next2[u := next2[u] + {v}];
        found := found + {u};
      }
      if uovervX <= 0.0 {
        break;
      }
      j := j - 1;
    }
  }

  /** `findXNeighbours(v, scanline)` for the node at index `idx`: the
      forward and then the backward walk.  The linked nodes are exactly those
      that pass the x-neighbour test with no node between them and `v` that
      does not overlap `v` in x. */
  method FindXNeighbours(p: Sweep, ghost stamp: seq<nat>, scan: seq<nat>, idx: nat,
                         prev: seq<set<nat>>, next: seq<set<nat>>)
    returns (prev2: seq<set<nat>>, next2: seq<set<nat>>, ghost fwd: set<nat>, ghost bwd: set<nat>)
    requires p.axis == XAxis && p.Links(stamp, scan, prev, next) && idx < |scan|
    ensures p.Links(stamp, scan, prev2, next2)
    ensures forall u :: u in fwd ==> u in scan[idx + 1..]
    ensures forall u :: u in bwd ==> u in scan[..idx]
    ensures forall t :: idx < t < |scan| ==> (scan[t] in fwd <==> XKeepsAfter(p, scan, idx, t))
    ensures forall t :: 0 <= t < idx ==> (scan[t] in bwd <==> XKeepsBefore(p, scan, idx, t))
    ensures Linked(scan[idx], fwd, bwd, prev, next, prev2, next2)
  {
    ScanlineNodes(p, stamp, scan);
    var prev1, next1;
    prev1, next1, fwd := XWalkNext(p, scan, idx, prev, next);
    prev2, next2, bwd := XWalkPrev(p, scan, idx, prev1, next1);
    XKeptAfterExact(p, scan, idx, idx + 1);
    XKeptBeforeExact(p, scan, idx, idx);
    LinkNode(p, stamp, scan, idx, fwd, bwd, prev, next, prev2, next2);
  }

  /** `findYNeighbours(v, scanline)` for the node at index `idx`: only the
      immediate successor and predecessor on the scanline are candidates, and
      each is linked when it overlaps `v` in x. */
  method FindYNeighbours(p: Sweep, ghost stamp: seq<nat>, scan: seq<nat>, idx: nat,
                         prev: seq<set<nat>>, next: seq<set<nat>>)
    returns (prev2: seq<set<nat>>, next2: seq<set<nat>>, ghost fwd: set<nat>, ghost bwd: set<nat>)
    requires p.axis == YAxis && p.Links(stamp, scan, prev, next) && idx < |scan|
    ensures p.Links(stamp, scan, prev2, next2)
    ensures fwd == if idx + 1 < |scan| && p.rs[scan[idx + 1]].OverlapX(p.rs[scan[idx]]) > 0.0
                   then {scan[idx + 1]} else {}
    ensures bwd == if 0 < idx && p.rs[scan[idx - 1]].OverlapX(p.rs[scan[idx]]) > 0.0
                   then {scan[idx - 1]} else {}
    ensures Linked(scan[idx], fwd, bwd, prev, next, prev2, next2)
  {
    ScanlineNodes(p, stamp, scan);
    var v := scan[idx];
    prev2, next2, fwd, bwd := prev, next, {}, {};
    assert next[v] + {} == next[v] && prev[v] + {} == prev[v];
    if idx + 1 < |scan| {
      var u := scan[idx + 1];
      if p.rs[u].OverlapX(p.rs[v]) > 0.0 {
        next2 := next2[v := next2[v] + {u}];
        prev2 := prev2[u := prev2[u] + {v}];
        fwd := {u};
      }
    }
    if 0 < idx {
      var u := scan[idx - 1];
      if p.rs[u].OverlapX(p.rs[v]) > 0.0 {
        prev2 := prev2[v := prev2[v] + {u}];
        next2 := next2[u := next2[u] + {v}];
        bwd := {u};
      }
    }
    LinkNode(p, stamp, scan, idx, fwd, bwd, prev, next, prev2, next2);
  }

  /** Inserting a node stamped later than every node on the scanline at its
      insertion point keeps the scanline in order. */
  lemma InsertScanlineOk(p: Sweep, stamp: seq<nat>, scan: seq<nat>, v: nat, k: nat, idx: nat)
    requires p.ScanlineOk(stamp, scan)
    requires v < |p.rs| && v !in scan && forall u :: u in scan ==> stamp[u] < k
    requires idx <= |scan|
    requires forall a :: 0 <= a < idx ==> p.Pos(scan[a]) <= p.Pos(v)
    requires forall a :: idx <= a < |scan| ==> p.Pos(v) < p.Pos(scan[a])
    ensures p.ScanlineOk(stamp[v := k], scan[..idx] + [v] + scan[idx..])
  {
    var stamp2 := stamp[v := k];
    var scan2 := scan[..idx] + [v] + scan[idx..];
    forall a | 0 <= a < |scan2| ensures scan2[a] < |p.rs| {
      if a < idx {
        assert scan2[a] == scan[a];
      } else if a > idx {
        assert scan2[a] == scan[a - 1];
      }
    }
    forall a, b | 0 <= a < b < |scan2| ensures p.Before(stamp2, scan2[a], scan2[b]) {
      if b < idx {
        assert scan2[a] == scan[a] && scan2[b] == scan[b];
        assert p.Before(stamp, scan[a], scan[b]);
      } else if b == idx {
        assert scan2[a] == scan[a] && scan[a] in scan;
      } else if a < idx {
        assert scan2[a] == scan[a] && scan2[b] == scan[b - 1];
        assert p.Before(stamp, scan[a], scan[b - 1]);
        assert scan[a] in scan && scan[b - 1] in scan;
      } else if a == idx {
        assert scan2[b] == scan[b - 1];
      } else {
        assert scan2[a] == scan[a - 1] && scan2[b] == scan[b - 1];
        assert p.Before(stamp, scan[a - 1], scan[b - 1]);
        assert scan[a - 1] in scan && scan[b - 1] in scan;
      }
    }
  }

  /** Inserting a node that is not yet on the scanline and has no neighbours
      keeps the neighbour sets well formed. */
  lemma InsertOk(p: Sweep, stamp: seq<nat>, scan: seq<nat>, prev: seq<set<nat>>, next: seq<set<nat>>,
                 v: nat, k: nat, idx: nat)
    requires p.Links(stamp, scan, prev, next)
    requires v < |p.rs| && v !in scan && prev[v] == {} && next[v] == {}
    requires forall u :: u in scan ==> stamp[u] < k
    requires idx <= |scan|
    requires forall a :: 0 <= a < idx ==> p.Pos(scan[a]) <= p.Pos(v)
    requires forall a :: idx <= a < |scan| ==> p.Pos(v) < p.Pos(scan[a])
    ensures p.Links(stamp[v := k], scan[..idx] + [v] + scan[idx..], prev, next)
  {
    var stamp2 := stamp[v := k];
    var scan2 := scan[..idx] + [v] + scan[idx..];
    InsertScanlineOk(p, stamp, scan, v, k, idx);
    assert forall u :: u in scan2 <==> u in scan || u == v;
    forall u, w | u in scan && w in scan ensures p.Before(stamp2, u, w) == p.Before(stamp, u, w) {
    }
  }

  /** On an ordered scanline, `Before` between two of its nodes is the order
      of their indices. */
  lemma ScanOrder(p: Sweep, stamp: seq<nat>, scan: seq<nat>, a: nat, b: nat)
    requires p.ScanlineOk(stamp, scan) && a < |scan| && b < |scan|
    ensures p.Before(stamp, scan[a], scan[b]) <==> a < b
  {
    if b < a {
      assert p.Before(stamp, scan[b], scan[a]);
    }
  }

  /** For a node at index `t` after the new node at `idx`, the nodes of the
      old scanline strictly between the two are those at the indices in
      between; so the walk keeps it exactly when the axis' walk as written
      does. */
  lemma WalkedAfter(p: Sweep, stamp: seq<nat>, scan: seq<nat>, scan2: seq<nat>, idx: nat, t: nat)
    requires p.ScanlineOk(stamp, scan2) && idx < t < |scan2|
    requires forall w :: w in scan <==> w in scan2 && w != scan2[idx]
    ensures p.Walked(stamp, scan, scan2[t], scan2[idx]) <==>
      if p.axis == XAxis then XKeepsAfter(p, scan2, idx, t)
      else t == idx + 1 && p.rs[scan2[t]].OverlapX(p.rs[scan2[idx]]) > 0.0
  {
    var u, v := scan2[t], scan2[idx];
    ScanlineNodes(p, stamp, scan2);
    forall t' | idx < t' < t ensures scan2[t'] in scan && p.Between(stamp, u, scan2[t'], v) {
      ScanOrder(p, stamp, scan2, idx, t');
      ScanOrder(p, stamp, scan2, t', t);
    }
    forall w | w in scan && w < |p.rs| && p.Between(stamp, u, w, v)
      ensures exists t' :: idx < t' < t && scan2[t'] == w
    {
      var t' :| 0 <= t' < |scan2| && scan2[t'] == w;
      ScanOrder(p, stamp, scan2, idx, t');
      ScanOrder(p, stamp, scan2, t', idx);
      ScanOrder(p, stamp, scan2, t, t');
      ScanOrder(p, stamp, scan2, t', t);
    }
    if p.axis == XAxis {
      if XKeepsAfter(p, scan2, idx, t) {
        assert p.Walked(stamp, scan, u, v);
      }
    } else if t > idx + 1 {
      assert scan2[idx + 1] in scan && p.Between(stamp, u, scan2[idx + 1], v);
    }
  }

  /** The same for a node at index `t` before the new node. */
  lemma WalkedBefore(p: Sweep, stamp: seq<nat>, scan: seq<nat>, scan2: seq<nat>, idx: nat, t: nat)
    requires p.ScanlineOk(stamp, scan2) && t < idx < |scan2|
    requires forall w :: w in scan <==> w in scan2 && w != scan2[idx]
    ensures p.Walked(stamp, scan, scan2[t], scan2[idx]) <==>
      if p.axis == XAxis then XKeepsBefore(p, scan2, idx, t)
      else t + 1 == idx && p.rs[scan2[t]].OverlapX(p.rs[scan2[idx]]) > 0.0
  {
    var u, v := scan2[t], scan2[idx];
    ScanlineNodes(p, stamp, scan2);
    forall t' | t < t' < idx ensures scan2[t'] in scan && p.Between(stamp, u, scan2[t'], v) {
      ScanOrder(p, stamp, scan2, t, t');
      ScanOrder(p, stamp, scan2, t', idx);
    }
    forall w | w in scan && w < |p.rs| && p.Between(stamp, u, w, v)
      ensures exists t' :: t < t' < idx && scan2[t'] == w
    {
      var t' :| 0 <= t' < |scan2| && scan2[t'] == w;
      ScanOrder(p, stamp, scan2, idx, t');
      ScanOrder(p, stamp, scan2, t', idx);
      ScanOrder(p, stamp, scan2, t, t');
      ScanOrder(p, stamp, scan2, t', t);
    }
    if p.axis == XAxis {
      if XKeepsBefore(p, scan2, idx, t) {
        assert p.Walked(stamp, scan, u, v);
      }
    } else if t + 1 < idx {
      assert scan2[t + 1] in scan && p.Between(stamp, u, scan2[t + 1], v);
    }
  }

  /** An open event: `scanline.insert(v)` followed by `findNeighbours(v,
      scanline)`.  The node joins the scanline after every node centred no
      later than it, and is linked to the neighbours the axis' walk finds. */
  method OpenNode(p: Sweep, ghost stamp: seq<nat>, scan: seq<nat>, prev: seq<set<nat>>, next: seq<set<nat>>,
                  v: nat, ghost k: nat)
    returns (ghost stamp2: seq<nat>, scan2: seq<nat>, prev2: seq<set<nat>>, next2: seq<set<nat>>)
    requires p.Links(stamp, scan, prev, next)
    requires v < |p.rs| && v !in scan && prev[v] == {} && next[v] == {}
    requires forall u :: u in scan ==> stamp[u] < k
    ensures stamp2 == stamp[v := k]
    ensures p.Links(stamp2, scan2, prev2, next2)
    ensures |scan2| == |scan| + 1
    ensures forall u :: u in scan2 <==> u in scan || u == v
    ensures forall u :: 0 <= u < |p.rs| && u !in scan2 ==> prev2[u] == prev[u] && next2[u] == next[u]
    ensures forall u :: u in scan ==>
      (u in next2[v] <==> p.Before(stamp2, v, u) && p.Walked(stamp2, scan, u, v)) &&
      (u in prev2[v] <==> p.Before(stamp2, u, v) && p.Walked(stamp2, scan, u, v))
    ensures forall u :: u in scan ==>
      next2[u] == (if u in prev2[v] then next[u] + {v} else next[u]) &&
      prev2[u] == (if u in next2[v] then prev[u] + {v} else prev[u])
  {
    var idx := InsertionPoint(p, scan, p.Pos(v)) by {
      ScanlineNodes(p, stamp, scan);
      forall a, b | 0 <= a < b < |scan| ensures p.Pos(scan[a]) <= p.Pos(scan[b]) {
        assert p.Before(stamp, scan[a], scan[b]);
      }
    }
    scan2 := scan[..idx] + [v] + scan[idx..];
    stamp2 := stamp[v := k];
    InsertOk(p, stamp, scan, prev, next, v, k, idx);
    assert scan2[idx] == v;
    ghost var fwd, bwd;
    if p.axis == XAxis {
      prev2, next2, fwd, bwd := FindXNeighbours(p, stamp2, scan2, idx, prev, next);
    } else {
      prev2, next2, fwd, bwd := FindYNeighbours(p, stamp2, scan2, idx, prev, next);
    }
    forall u | u in fwd || u in bwd ensures u in scan2 {
    }
    WalkFound(p, stamp2, scan, scan2, idx, fwd, bwd);
  }

  /** The nodes the axis' walk linked forward (`fwd`) and backward (`bwd`)
      from the new node at `idx` are exactly the nodes of the old scanline
      after it, respectively before it, that `Walked` keeps. */
  lemma WalkFound(p: Sweep, stamp: seq<nat>, scan: seq<nat>, scan2: seq<nat>, idx: nat, fwd: set<nat>, bwd: set<nat>)
    requires p.ScanlineOk(stamp, scan2) && idx < |scan2|
    requires forall w :: w in scan <==> w in scan2 && w != scan2[idx]
    requires forall u :: u in fwd ==> u in scan2[idx + 1..]
    requires forall u :: u in bwd ==> u in scan2[..idx]
    requires p.axis == XAxis ==>
      (forall t :: idx < t < |scan2| ==> (scan2[t] in fwd <==> XKeepsAfter(p, scan2, idx, t))) &&
      (forall t :: 0 <= t < idx ==> (scan2[t] in bwd <==> XKeepsBefore(p, scan2, idx, t)))
    requires p.axis == YAxis ==>
      fwd == (if idx + 1 < |scan2| && p.rs[scan2[idx + 1]].OverlapX(p.rs[scan2[idx]]) > 0.0
              then {scan2[idx + 1]} else {}) &&
      bwd == (if 0 < idx && p.rs[scan2[idx - 1]].OverlapX(p.rs[scan2[idx]]) > 0.0
              then {scan2[idx - 1]} else {})
    ensures forall u :: u in scan ==>
      (u in fwd <==> p.Before(stamp, scan2[idx], u) && p.Walked(stamp, scan, u, scan2[idx])) &&
      (u in bwd <==> p.Before(stamp, u, scan2[idx]) && p.Walked(stamp, scan, u, scan2[idx]))
  {
    var v := scan2[idx];
    ScanlineNodes(p, stamp, scan2);
    forall u | u in scan
      ensures (u in fwd <==> p.Before(stamp, v, u) && p.Walked(stamp, scan, u, v))
      ensures (u in bwd <==> p.Before(stamp, u, v) && p.Walked(stamp, scan, u, v))
    {
      var t :| 0 <= t < |scan2| && scan2[t] == u;
      ScanOrder(p, stamp, scan2, idx, t);
      ScanOrder(p, stamp, scan2, t, idx);
      if t > idx {
        WalkedAfter(p, stamp, scan, scan2, idx, t);
        assert u !in scan2[..idx];
      } else {
        WalkedBefore(p, stamp, scan, scan2, idx, t);
        assert u !in scan2[idx + 1..];
      }
    }
  }

  /** The pair a close event emits for `v` and its neighbour `u`: `u` on the
      left when it came from `v`'s `prev` set. */
  function Oriented(asLeft: bool, u: nat, v: nat): (nat, nat) {
    if asLeft then (u, v) else (v, u)
  }

  /** The pairs emitted for the neighbours `order`, in that order. */
  function Orient(asLeft: bool, order: seq<nat>, v: nat): seq<(nat, nat)> {
    seq(|order|, i requires 0 <= i < |order| => Oriented(asLeft, order[i], v))
  }

  /** The constraints `makeConstraint` builds for the pairs `prs`. */
  function Cons(p: Sweep, prs: seq<(nat, nat)>): seq<Constraint>
    requires p.Valid() && forall i :: 0 <= i < |prs| ==> prs[i].0 < |p.rs| && prs[i].1 < |p.rs|
  {
    seq(|prs|, i requires 0 <= i < |prs| => p.MakeConstraint(prs[i].0, prs[i].1))
  }

  /** Visiting one more neighbour appends one pair. */
  lemma OrientSnoc(asLeft: bool, order: seq<nat>, u: nat, v: nat)
    ensures Orient(asLeft, order + [u], v) == Orient(asLeft, order, v) + [Oriented(asLeft, u, v)]
  {
  }

  /** One more pair appends one constraint. */
  lemma ConsSnoc(p: Sweep, prs: seq<(nat, nat)>, lr: (nat, nat))
    requires p.Valid() && forall i :: 0 <= i < |prs| ==> prs[i].0 < |p.rs| && prs[i].1 < |p.rs|
    requires lr.0 < |p.rs| && lr.1 < |p.rs|
    ensures Cons(p, prs + [lr]) == Cons(p, prs) + [p.MakeConstraint(lr.0, lr.1)]
  {
  }

  /** `visitNeighbours(forward, reverse, mkcon)` while closing `v`: for every
      node `u` of `nbrs`, in the set's iteration order `order`, push the
      constraint between `u` and `v` (`u` on the left when `asLeft`) and
      remove `v` from `u`'s reverse set in `back`.  Each neighbour is
      visited exactly once. */
  method VisitNeighbours(p: Sweep, v: nat, nbrs: set<nat>, asLeft: bool, back: seq<set<nat>>,
                         cs: seq<Constraint>, ghost pairs: seq<(nat, nat)>)
    returns (back2: seq<set<nat>>, cs2: seq<Constraint>, ghost pairs2: seq<(nat, nat)>, ghost order: seq<nat>)
    requires p.Valid() && v < |p.rs| && |back| == |p.rs|
    requires forall u :: u in nbrs ==> u < |p.rs|
    ensures |back2| == |back|
    ensures forall u :: 0 <= u < |back| ==> back2[u] == if u in nbrs then back[u] - {v} else back[u]
    ensures forall u :: u in order <==> u in nbrs
    ensures forall i, j :: 0 <= i < j < |order| ==> order[i] != order[j]
    ensures forall i :: 0 <= i < |order| ==> order[i] < |p.rs|
    ensures pairs2 == pairs + Orient(asLeft, order, v)
    ensures cs2 == cs + Cons(p, Orient(asLeft, order, v))
  {
    back2, cs2, pairs2, order := back, cs, pairs, [];
    var todo := nbrs;
    while todo != {}
      decreases |todo|
      invariant VisitInv(p, v, nbrs, asLeft, back, cs, pairs, todo, back2, cs2, pairs2, order)
    {
      var u :| u in todo;
      var lr := Oriented(asLeft, u, v);
      VisitStep(p, v, nbrs, asLeft, back, cs, pairs, todo, back2, cs2, pairs2, order, u);
      cs2 := cs2 + [p.MakeConstraint(lr.0, lr.1)];
      pairs2 := pairs2 + [lr];
      back2 := back2[u := back2[u] - {v}];
      todo := todo - {u};
      order := order + [u];
    }
  }

  /** The loop invariant of `VisitNeighbours`: the neighbours visited so far,
      in order, have had `v` dropped and their pairs and constraints pushed. */
  ghost predicate VisitInv(p: Sweep, v: nat, nbrs: set<nat>, asLeft: bool, back: seq<set<nat>>,
                           cs: seq<Constraint>, pairs: seq<(nat, nat)>, todo: set<nat>,
                           back2: seq<set<nat>>, cs2: seq<Constraint>, pairs2: seq<(nat, nat)>, order: seq<nat>)
    requires p.Valid() && v < |p.rs|
  {
    (forall u :: u in nbrs <==> u in todo || u in order) &&
    (forall u :: u in order ==> u !in todo) &&
    (forall i, j :: 0 <= i < j < |order| ==> order[i] != order[j]) &&
    (forall i :: 0 <= i < |order| ==> order[i] < |p.rs|) &&
    |back2| == |back| &&
    (forall u :: 0 <= u < |back| ==> back2[u] == if u in order then back[u] - {v} else back[u]) &&
    pairs2 == pairs + Orient(asLeft, order, v) &&
    cs2 == cs + Cons(p, Orient(asLeft, order, v))
  }

  /** Visiting one more neighbour `u` keeps `VisitInv`. */
  lemma VisitStep(p: Sweep, v: nat, nbrs: set<nat>, asLeft: bool, back: seq<set<nat>>,
                  cs: seq<Constraint>, pairs: seq<(nat, nat)>, todo: set<nat>,
                  back2: seq<set<nat>>, cs2: seq<Constraint>, pairs2: seq<(nat, nat)>, order: seq<nat>, u: nat)
    requires p.Valid() && v < |p.rs| && |back| == |p.rs|
    requires forall w :: w in nbrs ==> w < |p.rs|
    requires VisitInv(p, v, nbrs, asLeft, back, cs, pairs, todo, back2, cs2, pairs2, order)
    requires u in todo
    ensures u < |back2|
    ensures VisitInv(p, v, nbrs, asLeft, back, cs, pairs, todo - {u}, back2[u := back2[u] - {v}],
                     cs2 + [p.MakeConstraint(Oriented(asLeft, u, v).0, Oriented(asLeft, u, v).1)],
                     pairs2 + [Oriented(asLeft, u, v)], order + [u])
  {
    var lr := Oriented(asLeft, u, v);
    OrientSnoc(asLeft, order, u, v);
    ConsSnoc(p, Orient(asLeft, order, v), lr);
  }

  /** Taking a node off the scanline and dropping it from the sets of its
      neighbours keeps the scanline and the neighbour sets well formed. */
  lemma CloseOk(p: Sweep, stamp: seq<nat>, scan: seq<nat>, prev: seq<set<nat>>, next: seq<set<nat>>,
                v: nat, prev2: seq<set<nat>>, next2: seq<set<nat>>)
    requires p.Links(stamp, scan, prev, next) && v in scan && v < |p.rs|
    requires |prev2| == |prev| && |next2| == |next|
    requires forall u :: 0 <= u < |next| ==> next2[u] == if u in prev[v] then next[u] - {v} else next[u]
    requires forall u :: 0 <= u < |prev| ==> prev2[u] == if u in next[v] then prev[u] - {v} else prev[u]
    ensures p.Links(stamp, RemoveNode(scan, v), prev2, next2)
  {
    RemoveNodeOk(p, stamp, scan, v);
    ScanlineNodes(p, stamp, scan);
    var scan2 := RemoveNode(scan, v);
    forall u, w | u in scan2 && w in next2[u] ensures w in scan2 {
      assert w in next[u] && w in scan;
      assert v in next[u] ==> u in prev[v];
    }
    forall u, w | u in scan2 && w in prev2[u] ensures w in scan2 {
      assert w in prev[u] && w in scan;
      assert v in prev[u] ==> u in next[v];
    }
    forall u, w | u in scan2 && w in scan2 ensures w in next2[u] <==> u in prev2[w] {
      assert w in next[u] <==> u in prev[w];
    }
    forall u, w | u in scan2 && w in scan2 && w in next2[u]
      ensures p.Before(stamp, u, w) && p.axis.Neighbourly(p.rs[u], p.rs[w])
    {
      assert w in next[u];
    }
  }

  /** The pairs a close event emits for `v` are all constrained, include `v`
      and a node still on the scanline, and no pair is emitted twice in
      either order. */
  lemma CloseEmitsOk(p: Sweep, stamp: seq<nat>, scan: seq<nat>, prev: seq<set<nat>>, next: seq<set<nat>>,
                     v: nat, before: seq<nat>, after: seq<nat>, prs: seq<(nat, nat)>)
    requires p.Valid() && p.Links(stamp, scan, prev, next) && v in scan
    requires forall u :: u in before ==> u in prev[v]
    requires forall u :: u in after ==> u in next[v]
    requires forall i, j :: 0 <= i < j < |before| ==> before[i] != before[j]
    requires forall i, j :: 0 <= i < j < |after| ==> after[i] != after[j]
    requires prs == Orient(true, before, v) + Orient(false, after, v)
    ensures forall i :: 0 <= i < |prs| ==> prs[i].0 < |p.rs| && prs[i].1 < |p.rs|
    ensures forall i :: 0 <= i < |prs| ==>
      prs[i].0 in scan && prs[i].1 in scan && (prs[i].0 == v || prs[i].1 == v) &&
      p.Constrains(prs[i], Cons(p, prs)[i])
    ensures forall i, j :: 0 <= i < j < |prs| ==> !SamePair(prs[i], prs[j])
  {
    ScanlineNodes(p, stamp, scan);
    var nb := |before|;
    forall i | 0 <= i < nb
      ensures prs[i] == (before[i], v)
      ensures before[i] in scan && before[i] != v && p.Before(stamp, before[i], v)
      ensures p.axis.Neighbourly(p.rs[before[i]], p.rs[v])
    {
      assert before[i] in prev[v];
    }
    forall i | 0 <= i < |after|
      ensures prs[nb + i] == (v, after[i])
      ensures after[i] in scan && after[i] != v && p.Before(stamp, v, after[i])
      ensures p.axis.Neighbourly(p.rs[v], p.rs[after[i]])
    {
      assert after[i] in next[v];
    }
    forall i, j | 0 <= i < j < |prs| ensures !SamePair(prs[i], prs[j]) {
      if j < nb {
        assert before[i] != before[j];
      } else if i < nb {
        assert p.Before(stamp, before[i], v) && p.Before(stamp, v, after[j - nb]);
      } else {
        assert after[i - nb] != after[j - nb];
      }
    }
  }

  /** `Cons` distributes over concatenation. */
  lemma ConsAppend(p: Sweep, a: seq<(nat, nat)>, b: seq<(nat, nat)>)
    requires p.Valid()
    requires forall i :: 0 <= i < |a| ==> a[i].0 < |p.rs| && a[i].1 < |p.rs|
    requires forall i :: 0 <= i < |b| ==> b[i].0 < |p.rs| && b[i].1 < |p.rs|
    ensures Cons(p, a) + Cons(p, b) == Cons(p, a + b)
  {
  }

  /** The neighbours of a node on the scanline are other nodes on it. */
  lemma NeighboursOnScanline(p: Sweep, stamp: seq<nat>, scan: seq<nat>, prev: seq<set<nat>>, next: seq<set<nat>>, v: nat)
    requires p.Links(stamp, scan, prev, next) && v in scan
    ensures v < |p.rs| && v !in prev[v] && v !in next[v]
    ensures forall u :: u in prev[v] ==> u in scan && u < |p.rs|
    ensures forall u :: u in next[v] ==> u in scan && u < |p.rs|
  {
    ScanlineNodes(p, stamp, scan);
    assert !p.Before(stamp, v, v);
    forall u | u in prev[v] ensures u in scan {
      assert v in scan && u in prev[v];
    }
    forall u | u in next[v] ensures u in scan {
      assert v in scan && u in next[v];
    }
  }

  /** A close event: `scanline.remove(v)` and the two `visitNeighbours`
      passes.  A constraint is emitted between `v` and each of its
      neighbours, the neighbour on the left when it precedes `v`, and `v`
      disappears from every neighbour set on the scanline.  `before` and
      `after` are the orders in which the `prev` and `next` sets were
      visited. */
  method CloseNode(p: Sweep, ghost stamp: seq<nat>, scan: seq<nat>, prev: seq<set<nat>>, next: seq<set<nat>>,
                   v: nat, cs: seq<Constraint>, ghost pairs: seq<(nat, nat)>)
    returns (scan2: seq<nat>, prev2: seq<set<nat>>, next2: seq<set<nat>>, cs2: seq<Constraint>,
             ghost pairs2: seq<(nat, nat)>, ghost before: seq<nat>, ghost after: seq<nat>)
    requires p.Valid() && p.Links(stamp, scan, prev, next) && v in scan
    ensures scan2 == RemoveNode(scan, v)
    ensures p.Links(stamp, scan2, prev2, next2)
    ensures forall u :: 0 <= u < |p.rs| && u !in scan ==> prev2[u] == prev[u] && next2[u] == next[u]
    ensures forall w :: w in scan2 ==> prev2[w] == prev[w] - {v} && next2[w] == next[w] - {v}
    ensures forall u :: u in before <==> u in prev[v]
    ensures forall u :: u in after <==> u in next[v]
    ensures forall i, j :: 0 <= i < j < |before| ==> before[i] != before[j]
    ensures forall i, j :: 0 <= i < j < |after| ==> after[i] != after[j]
    ensures v < |p.rs| && (forall i :: 0 <= i < |before| ==> before[i] < |p.rs|) &&
      (forall i :: 0 <= i < |after| ==> after[i] < |p.rs|)
    ensures pairs2 == pairs + Orient(true, before, v) + Orient(false, after, v)
    ensures cs2 == cs + Cons(p, Orient(true, before, v)) + Cons(p, Orient(false, after, v))
  {
    ScanlineNodes(p, stamp, scan);
    scan2 := RemoveNode(scan, v);
    NeighboursOnScanline(p, stamp, scan, prev, next, v);
    var cs1;
    ghost var pairs1;
    next2, cs1, pairs1, before := VisitNeighbours(p, v, prev[v], true, next, cs, pairs);
    assert next2[v] == next[v];
    prev2, cs2, pairs2, after := VisitNeighbours(p, v, next2[v], false, prev, cs1, pairs1);
    CloseOk(p, stamp, scan, prev, next, v, prev2, next2);
    forall w | w in scan2 ensures prev2[w] == prev[w] - {v} && next2[w] == next[w] - {v} {
      assert v in next[w] <==> w in prev[v];
      assert v in prev[w] <==> w in next[v];
    }
  }

  /** What the sweep has emitted so far: one constraint per pair, each pair
      constrained and touching a node already closed, and no pair twice in
      either order. */
  ghost predicate Emitted(p: Sweep, cs: seq<Constraint>, pairs: seq<(nat, nat)>, closed: set<nat>)
    requires p.Valid()
  {
    |cs| == |pairs| &&
    (forall i :: 0 <= i < |cs| ==> p.Constrains(pairs[i], cs[i])) &&
    (forall i :: 0 <= i < |pairs| ==> pairs[i].0 in closed || pairs[i].1 in closed) &&
    (forall i, j :: 0 <= i < j < |pairs| ==> !SamePair(pairs[i], pairs[j]))
  }

  /** Appending the pairs `prs` a close event of `v` emits, with their
      constraints `ncs`, keeps `Emitted`, with `v` now closed. */
  lemma EmitCloseOk(p: Sweep, scan: seq<nat>, v: nat, prs: seq<(nat, nat)>, ncs: seq<Constraint>,
                    cs: seq<Constraint>, pairs: seq<(nat, nat)>, removed: set<nat>)
    requires p.Valid()
    requires forall u :: u in scan ==> u !in removed
    requires Emitted(p, cs, pairs, removed)
    requires |ncs| == |prs|
    requires forall i :: 0 <= i < |prs| ==>
      prs[i].0 in scan && prs[i].1 in scan && (prs[i].0 == v || prs[i].1 == v) && p.Constrains(prs[i], ncs[i])
    requires forall i, j :: 0 <= i < j < |prs| ==> !SamePair(prs[i], prs[j])
    ensures Emitted(p, cs + ncs, pairs + prs, removed + {v})
  {
    var cs2, pairs2 := cs + ncs, pairs + prs;
    var m := |cs|;
    forall i | 0 <= i < |cs2| ensures p.Constrains(pairs2[i], cs2[i]) {
      if i < m {
        assert p.Constrains(pairs[i], cs[i]);
      } else {
        assert p.Constrains(prs[i - m], ncs[i - m]);
      }
    }
    forall i | 0 <= i < |pairs2| ensures pairs2[i].0 in removed + {v} || pairs2[i].1 in removed + {v} {
      if i >= m {
        assert pairs2[i] == prs[i - m];
      }
    }
    forall i, j | 0 <= i < j < |pairs2| ensures !SamePair(pairs2[i], pairs2[j]) {
      if j < m {
        assert !SamePair(pairs[i], pairs[j]);
      } else if i < m {
        assert pairs2[j] == prs[j - m] && prs[j - m].0 in scan && prs[j - m].1 in scan;
        assert pairs[i].0 in removed || pairs[i].1 in removed;
      } else {
        assert !SamePair(prs[i - m], prs[j - m]);
      }
    }
  }

  /** The sorted events of the sweep `p`: each is an open or close event of a
      node at the right position, a node's open event precedes its close
      event, and every node has both. */
  ghost predicate EventsOk(p: Sweep, sorted: seq<Event>) {
    |sorted| == 2 * |p.rs| &&
    (forall k :: 0 <= k < |sorted| ==>
      sorted[k].v < |p.rs| &&
      sorted[k] == Event(sorted[k].isOpen, sorted[k].v,
        if sorted[k].isOpen then p.axis.Open(p.rs[sorted[k].v]) else p.axis.Close(p.rs[sorted[k].v]))) &&
    (forall k, k' :: 0 <= k < k' < |sorted| && sorted[k].v == sorted[k'].v ==>
      sorted[k].isOpen && !sorted[k'].isOpen) &&
    (forall u :: 0 <= u < |p.rs| ==>
      Event(true, u, p.axis.Open(p.rs[u])) in sorted && Event(false, u, p.axis.Close(p.rs[u])) in sorted)
  }

  /** After the first `k` events: the scanline holds the nodes inserted and
      not yet removed, and a node is inserted (removed) exactly when its open
      (close) event is among the first `k`. */
  ghost predicate Progress(p: Sweep, sorted: seq<Event>, k: nat, scan: seq<nat>,
                           inserted: set<nat>, removed: set<nat>)
  {
    k <= |sorted| &&
    (forall u :: u in scan <==> u in inserted && u !in removed) &&
    removed <= inserted &&
    (forall j :: 0 <= j < k && sorted[j].isOpen ==> sorted[j].v in inserted) &&
    (forall j :: 0 <= j < k && !sorted[j].isOpen ==> sorted[j].v in removed) &&
    (forall u :: u in inserted ==> u < |p.rs| && SeenBefore(sorted, k, Event(true, u, p.axis.Open(p.rs[u])))) &&
    (forall u :: u in removed ==> u < |p.rs| && SeenBefore(sorted, k, Event(false, u, p.axis.Close(p.rs[u]))))
  }

  /** Event `e` is among the first `k` of `sorted`. */
  ghost predicate SeenBefore(sorted: seq<Event>, k: nat, e: Event) {
    exists j :: 0 <= j < k && j < |sorted| && sorted[j] == e
  }

  /** An event seen among the first `k` is seen among the first `k + 1`. */
  lemma SeenGrows(sorted: seq<Event>, k: nat, e: Event)
    requires SeenBefore(sorted, k, e)
    ensures SeenBefore(sorted, k + 1, e)
  {
    var j :| 0 <= j < k && j < |sorted| && sorted[j] == e;
    assert 0 <= j < k + 1;
  }

  /** Where `u`'s open event sits in the event order.  The scanline orders
      nodes with equal centres by it. */
  ghost function OpenIndex(p: Sweep, sorted: seq<Event>, u: nat): (j: nat)
    requires EventsOk(p, sorted) && u < |p.rs|
    ensures j < |sorted| && sorted[j] == Event(true, u, p.axis.Open(p.rs[u]))
  {
    var e := Event(true, u, p.axis.Open(p.rs[u]));
    assert e in sorted;
    var j :| 0 <= j < |sorted| && sorted[j] == e;
    j
  }

  /** The open index of every node. */
  ghost function Stamps(p: Sweep, sorted: seq<Event>): (stamp: seq<nat>)
    requires EventsOk(p, sorted)
    ensures |stamp| == |p.rs| && forall u :: 0 <= u < |p.rs| ==> stamp[u] == OpenIndex(p, sorted, u)
  {
    seq(|p.rs|, u requires 0 <= u < |p.rs| => OpenIndex(p, sorted, u))
  }

  /** Node `u` is on the scanline when the event at index `k` is handled:
      its open event has been handled, its close event not yet. */
  ghost predicate Live(p: Sweep, sorted: seq<Event>, k: nat, u: nat) {
    u < |p.rs| &&
    SeenBefore(sorted, k, Event(true, u, p.axis.Open(p.rs[u]))) &&
    !SeenBefore(sorted, k, Event(false, u, p.axis.Close(p.rs[u])))
  }

  /** Opening `v` links `u`.  `u` is on the scanline at that moment, it
      passes the neighbour test, and every node then on the scanline strictly
      between `u` and `v` overlaps `v` in x.  (That last condition is what
      lets the x walk go on past such a node; the y walk never goes past
      the adjacent node.) */
  ghost predicate Finds(p: Sweep, sorted: seq<Event>, u: nat, v: nat)
    requires EventsOk(p, sorted) && u < |p.rs| && v < |p.rs|
  {
    var k, stamp := OpenIndex(p, sorted, v), Stamps(p, sorted);
    Live(p, sorted, k, u) && p.axis.Neighbourly(p.rs[u], p.rs[v]) &&
    forall w: nat :: Live(p, sorted, k, w) && p.Between(stamp, u, w, v) ==>
      p.axis == XAxis && p.rs[w].OverlapX(p.rs[v]) > 0.0
  }

  /** The node pairs a sweep over the event order `sorted` links, each
      written in scanline order. */
  ghost function SweepPairs(p: Sweep, sorted: seq<Event>): set<(nat, nat)>
    requires EventsOk(p, sorted)
  {
    var stamp := Stamps(p, sorted);
    set a: nat, b: nat | a < |p.rs| && b < |p.rs| && p.Before(stamp, a, b) &&
                         (Finds(p, sorted, a, b) || Finds(p, sorted, b, a)) :: (a, b)
  }

  /** The pair `(a, b)`, in scanline order, was linked by one of the first
      `k` events. */
  ghost predicate FoundBy(p: Sweep, sorted: seq<Event>, k: nat, a: nat, b: nat)
    requires EventsOk(p, sorted) && a < |p.rs| && b < |p.rs|
  {
    p.Before(Stamps(p, sorted), a, b) &&
    ((Finds(p, sorted, a, b) && OpenIndex(p, sorted, b) < k) ||
     (Finds(p, sorted, b, a) && OpenIndex(p, sorted, a) < k))
  }

  /** After `k` events every pair linked so far is accounted for exactly
      once.  A pair of nodes still on the scanline is a `next` link.  A pair
      with a closed end has been emitted.  Nothing else is either. */
  ghost predicate Complete(p: Sweep, sorted: seq<Event>, k: nat, scan: seq<nat>, next: seq<set<nat>>,
                           removed: set<nat>, pairs: seq<(nat, nat)>)
    requires EventsOk(p, sorted)
  {
    |next| == |p.rs| &&
    (forall a, b :: a in scan && b in scan && a < |p.rs| && b < |p.rs| ==>
      (b in next[a] <==> FoundBy(p, sorted, k, a, b))) &&
    (forall lr :: lr in pairs ==> lr.0 < |p.rs| && lr.1 < |p.rs| && FoundBy(p, sorted, k, lr.0, lr.1)) &&
    (forall a, b ::
       0 <= a < |p.rs| && 0 <= b < |p.rs| && FoundBy(p, sorted, k, a, b) && (a in removed || b in removed)
       ==> (a, b) in pairs)
  }

  /** The open event at index `k` is the open event of `sorted[k].v`, and of
      no other node. */
  lemma OpenIndexAt(p: Sweep, sorted: seq<Event>, k: nat)
    requires EventsOk(p, sorted) && k < |sorted| && sorted[k].isOpen
    ensures OpenIndex(p, sorted, sorted[k].v) == k
    ensures forall u :: 0 <= u < |p.rs| && u != sorted[k].v ==> OpenIndex(p, sorted, u) != k
  {
  }

  /** A node's open event is among the first `j` exactly when its open
      index is below `j`. */
  lemma SeenOpen(p: Sweep, sorted: seq<Event>, j: nat, u: nat)
    requires EventsOk(p, sorted) && u < |p.rs|
    ensures SeenBefore(sorted, j, Event(true, u, p.axis.Open(p.rs[u]))) <==> OpenIndex(p, sorted, u) < j
  {
    var o := OpenIndex(p, sorted, u);
    if o < j {
      assert 0 <= o < j && o < |sorted| && sorted[o] == Event(true, u, p.axis.Open(p.rs[u]));
    }
    if SeenBefore(sorted, j, Event(true, u, p.axis.Open(p.rs[u]))) {
      var i :| 0 <= i < j && i < |sorted| && sorted[i] == Event(true, u, p.axis.Open(p.rs[u]));
      assert i == o by {
        assert sorted[i].v == sorted[o].v && sorted[i].isOpen && sorted[o].isOpen;
      }
    }
  }

  /** The nodes on the scanline after `k` events are the live ones. */
  lemma LiveScan(p: Sweep, sorted: seq<Event>, k: nat, scan: seq<nat>, inserted: set<nat>, removed: set<nat>)
    requires EventsOk(p, sorted) && Progress(p, sorted, k, scan, inserted, removed)
    ensures forall w :: w in scan <==> Live(p, sorted, k, w)
  {
    forall w: nat | Live(p, sorted, k, w) ensures w in scan {
      var i :| 0 <= i < k && i < |sorted| && sorted[i] == Event(true, w, p.axis.Open(p.rs[w]));
      assert sorted[i].isOpen;
    }
    forall w | w in scan ensures Live(p, sorted, k, w) {
    }
  }

  /** When `scan` holds the live nodes at `v`'s open index, `v` links `u`
      exactly when `u` is on `scan` and the walk over `scan` keeps it. */
  lemma FindsWalked(p: Sweep, sorted: seq<Event>, scan: seq<nat>, u: nat, v: nat)
    requires EventsOk(p, sorted) && u < |p.rs| && v < |p.rs|
    requires forall w :: w in scan <==> Live(p, sorted, OpenIndex(p, sorted, v), w)
    ensures Finds(p, sorted, u, v) <==> u in scan && p.Walked(Stamps(p, sorted), scan, u, v)
  {
  }

  /** A close event emits the pair of its node with each neighbour it visits. */
  lemma OrientHas(asLeft: bool, order: seq<nat>, v: nat, u: nat)
    requires u in order
    ensures Oriented(asLeft, u, v) in Orient(asLeft, order, v)
  {
    var i :| 0 <= i < |order| && order[i] == u;
    assert Orient(asLeft, order, v)[i] == Oriented(asLeft, u, v);
  }

  /** How the open event at index `k` changes `FoundBy`: it adds exactly the
      pairs of its node with the nodes that node finds. */
  lemma OpenFoundBy(p: Sweep, sorted: seq<Event>, k: nat, a: nat, b: nat)
    requires EventsOk(p, sorted) && k < |sorted| && sorted[k].isOpen && a < |p.rs| && b < |p.rs|
    ensures FoundBy(p, sorted, k, a, b) ==> FoundBy(p, sorted, k + 1, a, b)
    ensures a != sorted[k].v && b != sorted[k].v ==>
      (FoundBy(p, sorted, k + 1, a, b) <==> FoundBy(p, sorted, k, a, b))
    ensures a == sorted[k].v && b != a ==>
      (FoundBy(p, sorted, k + 1, a, b) <==> p.Before(Stamps(p, sorted), a, b) && Finds(p, sorted, b, a))
    ensures b == sorted[k].v && a != b ==>
      (FoundBy(p, sorted, k + 1, a, b) <==> p.Before(Stamps(p, sorted), a, b) && Finds(p, sorted, a, b))
    ensures !FoundBy(p, sorted, k + 1, a, a)
  {
    OpenIndexAt(p, sorted, k);
    var v := sorted[k].v;
    SeenOpen(p, sorted, OpenIndex(p, sorted, b), v);
    SeenOpen(p, sorted, OpenIndex(p, sorted, a), v);
  }

  /** A close event changes no `FoundBy`. */
  lemma CloseFoundBy(p: Sweep, sorted: seq<Event>, k: nat, a: nat, b: nat)
    requires EventsOk(p, sorted) && k < |sorted| && !sorted[k].isOpen && a < |p.rs| && b < |p.rs|
    ensures FoundBy(p, sorted, k + 1, a, b) <==> FoundBy(p, sorted, k, a, b)
  {
  }

  /** Both ends of a pair found by the first `k` events were opened by them. */
  lemma FoundOpened(p: Sweep, sorted: seq<Event>, k: nat, a: nat, b: nat)
    requires EventsOk(p, sorted) && a < |p.rs| && b < |p.rs| && FoundBy(p, sorted, k, a, b)
    ensures OpenIndex(p, sorted, a) < k && OpenIndex(p, sorted, b) < k
  {
    SeenOpen(p, sorted, OpenIndex(p, sorted, b), a);
    SeenOpen(p, sorted, OpenIndex(p, sorted, a), b);
  }

  /** An open event keeps `Complete`: the links it adds to the scanline are
      exactly the pairs it finds. */
  lemma OpenComplete(p: Sweep, sorted: seq<Event>, k: nat, scan: seq<nat>,
                     next: seq<set<nat>>, inserted: set<nat>, removed: set<nat>, pairs: seq<(nat, nat)>,
                     scan2: seq<nat>, prev2: seq<set<nat>>, next2: seq<set<nat>>)
    requires EventsOk(p, sorted) && Progress(p, sorted, k, scan, inserted, removed)
    requires k < |sorted| && sorted[k].isOpen && sorted[k].v !in inserted
    requires Complete(p, sorted, k, scan, next, removed, pairs)
    requires forall u, w :: u in scan && w in next[u] ==> w in scan
    requires p.Links(Stamps(p, sorted), scan2, prev2, next2)
    requires forall u :: u in scan2 <==> u in scan || u == sorted[k].v
    requires forall u :: u in scan ==>
      (u in next2[sorted[k].v] <==>
         p.Before(Stamps(p, sorted), sorted[k].v, u) && p.Walked(Stamps(p, sorted), scan, u, sorted[k].v)) &&
      (u in prev2[sorted[k].v] <==>
         p.Before(Stamps(p, sorted), u, sorted[k].v) && p.Walked(Stamps(p, sorted), scan, u, sorted[k].v))
    requires forall u :: u in scan ==>
      next2[u] == (if u in prev2[sorted[k].v] then next[u] + {sorted[k].v} else next[u])
    ensures Complete(p, sorted, k + 1, scan2, next2, removed, pairs)
  {
    var v, n, stamp := sorted[k].v, |p.rs|, Stamps(p, sorted);
    OpenIndexAt(p, sorted, k);
    LiveScan(p, sorted, k, scan, inserted, removed);
    ScanlineNodes(p, stamp, scan2);
    hide FoundBy;
    hide Finds;
    forall a, b | a in scan2 && b in scan2 && a < n && b < n
      ensures b in next2[a] <==> FoundBy(p, sorted, k + 1, a, b)
    {
      OpenFoundBy(p, sorted, k, a, b);
      if a == v && b == v {
      } else if a == v {
        FindsWalked(p, sorted, scan, b, v);
        assert b in scan;
      } else if b == v {
        FindsWalked(p, sorted, scan, a, v);
        assert a in scan && v !in scan;
        assert v in next2[a] <==> a in prev2[v];
      } else {
        assert a in scan && b in scan;
        assert b in next2[a] <==> b in next[a];
      }
    }
    forall lr | lr in pairs ensures lr.0 < n && lr.1 < n && FoundBy(p, sorted, k + 1, lr.0, lr.1) {
      OpenFoundBy(p, sorted, k, lr.0, lr.1);
    }
    forall a, b | 0 <= a < n && 0 <= b < n && FoundBy(p, sorted, k + 1, a, b) && (a in removed || b in removed)
      ensures (a, b) in pairs
    {
      OpenFoundBy(p, sorted, k, a, b);
      FindsWalked(p, sorted, scan, a, v);
      FindsWalked(p, sorted, scan, b, v);
    }
  }

  /** The pairs a close event emits were found: each joins its node to a
      node linked to it on the scanline. */
  lemma CloseEmitsFound(p: Sweep, sorted: seq<Event>, k: nat, scan: seq<nat>, prev: seq<set<nat>>,
                        next: seq<set<nat>>, removed: set<nat>, pairs: seq<(nat, nat)>,
                        v: nat, before: seq<nat>, after: seq<nat>)
    requires EventsOk(p, sorted) && v in scan
    requires Complete(p, sorted, k, scan, next, removed, pairs)
    requires p.Links(Stamps(p, sorted), scan, prev, next)
    requires forall u :: u in before ==> u in prev[v]
    requires forall u :: u in after ==> u in next[v]
    ensures forall lr :: lr in Orient(true, before, v) + Orient(false, after, v) ==>
      lr.0 < |p.rs| && lr.1 < |p.rs| && FoundBy(p, sorted, k, lr.0, lr.1)
  {
    ScanlineNodes(p, Stamps(p, sorted), scan);
    hide FoundBy;
    forall lr | lr in Orient(true, before, v) + Orient(false, after, v)
      ensures lr.0 < |p.rs| && lr.1 < |p.rs| && FoundBy(p, sorted, k, lr.0, lr.1)
    {
      if lr in Orient(true, before, v) {
        var i :| 0 <= i < |before| && Orient(true, before, v)[i] == lr;
        assert lr == (before[i], v) && before[i] in scan && v in next[before[i]];
      } else {
        assert lr in Orient(false, after, v);
        var i :| 0 <= i < |after| && Orient(false, after, v)[i] == lr;
        assert lr == (v, after[i]) && after[i] in scan && after[i] in next[v];
      }
    }
  }

  /** A pair found by the first `k` events whose end `v` closes at event `k`
      is among the pairs the close event emits. */
  lemma CloseEmitsAll(p: Sweep, sorted: seq<Event>, k: nat, scan: seq<nat>, next: seq<set<nat>>,
                      inserted: set<nat>, removed: set<nat>, pairs: seq<(nat, nat)>,
                      v: nat, before: seq<nat>, after: seq<nat>, a: nat, b: nat)
    requires EventsOk(p, sorted) && Progress(p, sorted, k, scan, inserted, removed) && v in scan
    requires Complete(p, sorted, k, scan, next, removed, pairs)
    requires forall u :: u in scan && v in next[u] ==> u in before
    requires forall u :: u in next[v] ==> u in after
    requires a < |p.rs| && b < |p.rs| && FoundBy(p, sorted, k, a, b)
    requires a !in removed && b !in removed && (a == v || b == v)
    ensures (a, b) in Orient(true, before, v) + Orient(false, after, v)
  {
    FoundOpened(p, sorted, k, a, b);
    hide FoundBy;
    if a == v {
      assert b in scan;
      OrientHas(false, after, v, b);
    } else {
      assert a in scan;
      OrientHas(true, before, v, a);
    }
  }

  /** A close event keeps `Complete`: the links of its node leave the
      scanline and are emitted instead. */
  lemma CloseComplete(p: Sweep, sorted: seq<Event>, k: nat, scan: seq<nat>, prev: seq<set<nat>>,
                      next: seq<set<nat>>, inserted: set<nat>, removed: set<nat>, pairs: seq<(nat, nat)>,
                      scan2: seq<nat>, next2: seq<set<nat>>, before: seq<nat>, after: seq<nat>)
    requires EventsOk(p, sorted) && Progress(p, sorted, k, scan, inserted, removed)
    requires k < |sorted| && !sorted[k].isOpen && sorted[k].v in scan
    requires Complete(p, sorted, k, scan, next, removed, pairs)
    requires p.Links(Stamps(p, sorted), scan, prev, next)
    requires scan2 == RemoveNode(scan, sorted[k].v)
    requires |next2| == |next| && forall w :: w in scan2 ==> w < |next| && next2[w] == next[w] - {sorted[k].v}
    requires forall u :: u in before <==> u in prev[sorted[k].v]
    requires forall u :: u in after <==> u in next[sorted[k].v]
    ensures Complete(p, sorted, k + 1, scan2, next2, removed + {sorted[k].v},
                     pairs + Orient(true, before, sorted[k].v) + Orient(false, after, sorted[k].v))
  {
    var v := sorted[k].v;
    ScanlineNodes(p, Stamps(p, sorted), scan);
    hide FoundBy;
    hide Finds;
    CloseEmitsFound(p, sorted, k, scan, prev, next, removed, pairs, v, before, after);
    CloseKeepsLinks(p, sorted, k, scan, next, removed, pairs, scan2, next2);
    CloseKeepsPairs(p, sorted, k, scan, next, inserted, removed, pairs, v, before, after);
  }

  /** After a close event the links left on the scanline are still exactly
      the pairs found among its nodes. */
  lemma CloseKeepsLinks(p: Sweep, sorted: seq<Event>, k: nat, scan: seq<nat>, next: seq<set<nat>>,
                        removed: set<nat>, pairs: seq<(nat, nat)>, scan2: seq<nat>, next2: seq<set<nat>>)
    requires EventsOk(p, sorted) && k < |sorted| && !sorted[k].isOpen
    requires Complete(p, sorted, k, scan, next, removed, pairs)
    requires scan2 == RemoveNode(scan, sorted[k].v)
    requires |next2| == |next| && forall w :: w in scan2 ==> w < |next| && next2[w] == next[w] - {sorted[k].v}
    ensures forall a, b :: a in scan2 && b in scan2 && a < |p.rs| && b < |p.rs| ==>
      (b in next2[a] <==> FoundBy(p, sorted, k + 1, a, b))
  {
    hide FoundBy;
    forall a, b | a in scan2 && b in scan2 && a < |p.rs| && b < |p.rs|
      ensures b in next2[a] <==> FoundBy(p, sorted, k + 1, a, b)
    {
      CloseFoundBy(p, sorted, k, a, b);
    }
  }

  /** After the close event of `v` the pairs emitted so far are found pairs,
      and every found pair with a closed end has been emitted. */
  lemma CloseKeepsPairs(p: Sweep, sorted: seq<Event>, k: nat, scan: seq<nat>, next: seq<set<nat>>,
                        inserted: set<nat>, removed: set<nat>, pairs: seq<(nat, nat)>,
                        v: nat, before: seq<nat>, after: seq<nat>)
    requires EventsOk(p, sorted) && Progress(p, sorted, k, scan, inserted, removed)
    requires k < |sorted| && !sorted[k].isOpen && v in scan
    requires Complete(p, sorted, k, scan, next, removed, pairs)
    requires forall u :: u in scan && v in next[u] ==> u in before
    requires forall u :: u in next[v] ==> u in after
    requires forall lr :: lr in Orient(true, before, v) + Orient(false, after, v) ==>
      lr.0 < |p.rs| && lr.1 < |p.rs| && FoundBy(p, sorted, k, lr.0, lr.1)
    ensures forall lr :: lr in pairs + Orient(true, before, v) + Orient(false, after, v) ==>
      lr.0 < |p.rs| && lr.1 < |p.rs| && FoundBy(p, sorted, k + 1, lr.0, lr.1)
    ensures forall a, b ::
      0 <= a < |p.rs| && 0 <= b < |p.rs| && FoundBy(p, sorted, k + 1, a, b) && (a in removed + {v} || b in removed + {v})
      ==> (a, b) in pairs + Orient(true, before, v) + Orient(false, after, v)
  {
    var emitted := Orient(true, before, v) + Orient(false, after, v);
    assert pairs + Orient(true, before, v) + Orient(false, after, v) == pairs + emitted;
    hide FoundBy;
    hide Orient;
    forall lr | lr in pairs + emitted ensures lr.0 < |p.rs| && lr.1 < |p.rs| && FoundBy(p, sorted, k + 1, lr.0, lr.1) {
      CloseFoundBy(p, sorted, k, lr.0, lr.1);
    }
    forall a, b | 0 <= a < |p.rs| && 0 <= b < |p.rs| && FoundBy(p, sorted, k + 1, a, b) && (a in removed + {v} || b in removed + {v})
      ensures (a, b) in pairs + emitted
    {
      CloseFoundBy(p, sorted, k, a, b);
      if a in removed || b in removed {
        assert (a, b) in pairs;
      } else {
        CloseEmitsAll(p, sorted, k, scan, next, inserted, removed, pairs, v, before, after, a, b);
      }
    }
  }

  /** The loop invariant of the sweep after `k` events. */
  ghost predicate SweepInv(p: Sweep, sorted: seq<Event>, k: nat, stamp: seq<nat>, scan: seq<nat>,
                           prev: seq<set<nat>>, next: seq<set<nat>>, inserted: set<nat>, removed: set<nat>,
                           cs: seq<Constraint>, pairs: seq<(nat, nat)>)
  {
    p.Valid() && EventsOk(p, sorted) && Progress(p, sorted, k, scan, inserted, removed) &&
    stamp == Stamps(p, sorted) && p.Links(stamp, scan, prev, next) &&
    (forall u :: u in scan ==> stamp[u] < k) &&
    (forall u :: 0 <= u < |p.rs| && u !in inserted ==> prev[u] == {} && next[u] == {}) &&
    Emitted(p, cs, pairs, removed) && Complete(p, sorted, k, scan, next, removed, pairs)
  }

  /** The `k`th event opens a node not yet inserted, or closes a node that is
      on the scanline. */
  lemma EventStatus(p: Sweep, sorted: seq<Event>, k: nat, scan: seq<nat>, inserted: set<nat>, removed: set<nat>)
    requires EventsOk(p, sorted) && Progress(p, sorted, k, scan, inserted, removed) && k < |sorted|
    ensures sorted[k].isOpen ==> sorted[k].v !in inserted
    ensures !sorted[k].isOpen ==> sorted[k].v in scan
  {
    var e := sorted[k];
    var v := e.v;
    if e.isOpen {
      forall j | 0 <= j < k ensures sorted[j] != Event(true, v, p.axis.Open(p.rs[v])) {
        assert sorted[j].v != v;
      }
    } else {
      var j :| 0 <= j < |sorted| && sorted[j] == Event(true, v, p.axis.Open(p.rs[v]));
      assert j < k;
      forall j' | 0 <= j' < k ensures sorted[j'] != Event(false, v, p.axis.Close(p.rs[v])) {
        assert sorted[j'].v == v ==> sorted[j'].isOpen;
      }
    }
  }

  /** One open event of the sweep. */
  method OpenStep(p: Sweep, sorted: seq<Event>, k: nat, ghost stamp: seq<nat>, scan: seq<nat>,
                  prev: seq<set<nat>>, next: seq<set<nat>>, ghost inserted: set<nat>, ghost removed: set<nat>,
                  ghost cs: seq<Constraint>, ghost pairs: seq<(nat, nat)>)
    returns (ghost stamp2: seq<nat>, scan2: seq<nat>, prev2: seq<set<nat>>, next2: seq<set<nat>>,
             ghost inserted2: set<nat>)
    requires SweepInv(p, sorted, k, stamp, scan, prev, next, inserted, removed, cs, pairs)
    requires k < |sorted| && sorted[k].isOpen
    ensures SweepInv(p, sorted, k + 1, stamp2, scan2, prev2, next2, inserted2, removed, cs, pairs)
  {
    var v := sorted[k].v;
    EventStatus(p, sorted, k, scan, inserted, removed);
    OpenIndexAt(p, sorted, k);
    stamp2, scan2, prev2, next2 := OpenNode(p, stamp, scan, prev, next, v, k);
    assert stamp2 == stamp;
    inserted2 := inserted + {v};
    ProgressOpen(p, sorted, k, scan, scan2, inserted, removed);
    OpenComplete(p, sorted, k, scan, next, inserted, removed, pairs, scan2, prev2, next2);
  }

  /** One close event of the sweep. */
  method CloseStep(p: Sweep, sorted: seq<Event>, k: nat, ghost stamp: seq<nat>, scan: seq<nat>,
                   prev: seq<set<nat>>, next: seq<set<nat>>, ghost inserted: set<nat>, ghost removed: set<nat>,
                   cs: seq<Constraint>, ghost pairs: seq<(nat, nat)>)
    returns (scan2: seq<nat>, prev2: seq<set<nat>>, next2: seq<set<nat>>,
             cs2: seq<Constraint>, ghost pairs2: seq<(nat, nat)>, ghost removed2: set<nat>)
    requires SweepInv(p, sorted, k, stamp, scan, prev, next, inserted, removed, cs, pairs)
    requires k < |sorted| && !sorted[k].isOpen
    ensures SweepInv(p, sorted, k + 1, stamp, scan2, prev2, next2, inserted, removed2, cs2, pairs2)
  {
    var v := sorted[k].v;
    EventStatus(p, sorted, k, scan, inserted, removed);
    ghost var before, after;
    scan2, prev2, next2, cs2, pairs2, before, after := CloseNode(p, stamp, scan, prev, next, v, cs, pairs);
    CloseEmitted(p, stamp, scan, prev, next, v, before, after, cs, pairs, removed);
    removed2 := removed + {v};
    ProgressClose(p, sorted, k, scan, inserted, removed);
    CloseFrame(p, sorted, k, stamp, scan, prev, next, inserted, removed, scan2, prev2, next2);
    CloseComplete(p, sorted, k, scan, prev, next, inserted, removed, pairs, scan2, next2, before, after);
  }

  /** What a close event emits extends `Emitted`, with its node now closed. */
  lemma CloseEmitted(p: Sweep, stamp: seq<nat>, scan: seq<nat>, prev: seq<set<nat>>, next: seq<set<nat>>,
                     v: nat, before: seq<nat>, after: seq<nat>,
                     cs: seq<Constraint>, pairs: seq<(nat, nat)>, removed: set<nat>)
    requires p.Valid() && p.Links(stamp, scan, prev, next) && v in scan
    requires forall u :: u in scan ==> u !in removed
    requires Emitted(p, cs, pairs, removed)
    requires forall u :: u in before ==> u in prev[v]
    requires forall u :: u in after ==> u in next[v]
    requires forall i, j :: 0 <= i < j < |before| ==> before[i] != before[j]
    requires forall i, j :: 0 <= i < j < |after| ==> after[i] != after[j]
    requires v < |p.rs| && (forall i :: 0 <= i < |before| ==> before[i] < |p.rs|) &&
      (forall i :: 0 <= i < |after| ==> after[i] < |p.rs|)
    ensures Emitted(p, cs + Cons(p, Orient(true, before, v)) + Cons(p, Orient(false, after, v)),
                    pairs + Orient(true, before, v) + Orient(false, after, v), removed + {v})
  {
    var a, b := Orient(true, before, v), Orient(false, after, v);
    CloseEmitsOk(p, stamp, scan, prev, next, v, before, after, a + b);
    ConsAppend(p, a, b);
    assert cs + Cons(p, a) + Cons(p, b) == cs + Cons(p, a + b);
    assert pairs + a + b == pairs + (a + b);
    EmitCloseOk(p, scan, v, a + b, Cons(p, a + b), cs, pairs, removed);
  }

  /** After a close event the scanline still holds only nodes stamped before
      it, and nodes never inserted still have no neighbours. */
  lemma CloseFrame(p: Sweep, sorted: seq<Event>, k: nat, stamp: seq<nat>, scan: seq<nat>,
                   prev: seq<set<nat>>, next: seq<set<nat>>, inserted: set<nat>, removed: set<nat>,
                   scan2: seq<nat>, prev2: seq<set<nat>>, next2: seq<set<nat>>)
    requires Progress(p, sorted, k, scan, inserted, removed)
    requires |stamp| == |prev2| == |prev| == |p.rs| && |next2| == |next| == |p.rs|
    requires forall u :: u in scan ==> stamp[u] < k
    requires forall u :: 0 <= u < |p.rs| && u !in inserted ==> prev[u] == {} && next[u] == {}
    requires forall u :: u in scan2 ==> u in scan
    requires forall u :: 0 <= u < |p.rs| && u !in scan ==> prev2[u] == prev[u] && next2[u] == next[u]
    ensures forall u :: u in scan2 ==> stamp[u] < k + 1
    ensures forall u :: 0 <= u < |p.rs| && u !in inserted ==> prev2[u] == {} && next2[u] == {}
  {
  }

  /** A close event advances `Progress` by removing its node. */
  lemma ProgressClose(p: Sweep, sorted: seq<Event>, k: nat, scan: seq<nat>, inserted: set<nat>, removed: set<nat>)
    requires Progress(p, sorted, k, scan, inserted, removed)
    requires k < |sorted| && sorted[k].v < |p.rs| && sorted[k].v in scan
    requires sorted[k] == Event(false, sorted[k].v, p.axis.Close(p.rs[sorted[k].v]))
    ensures Progress(p, sorted, k + 1, RemoveNode(scan, sorted[k].v), inserted, removed + {sorted[k].v})
  {
    var v := sorted[k].v;
    forall u | u in inserted ensures SeenBefore(sorted, k + 1, Event(true, u, p.axis.Open(p.rs[u]))) {
      SeenGrows(sorted, k, Event(true, u, p.axis.Open(p.rs[u])));
    }
    forall u | u in removed ensures SeenBefore(sorted, k + 1, Event(false, u, p.axis.Close(p.rs[u]))) {
      SeenGrows(sorted, k, Event(false, u, p.axis.Close(p.rs[u])));
    }
    assert SeenBefore(sorted, k + 1, sorted[k]);
  }

  /** An open event advances `Progress` by inserting its node. */
  lemma ProgressOpen(p: Sweep, sorted: seq<Event>, k: nat, scan: seq<nat>, scan2: seq<nat>,
                     inserted: set<nat>, removed: set<nat>)
    requires Progress(p, sorted, k, scan, inserted, removed)
    requires k < |sorted| && sorted[k].v < |p.rs| && sorted[k].v !in inserted
    requires sorted[k] == Event(true, sorted[k].v, p.axis.Open(p.rs[sorted[k].v]))
    requires forall u :: u in scan2 <==> u in scan || u == sorted[k].v
    ensures Progress(p, sorted, k + 1, scan2, inserted + {sorted[k].v}, removed)
  {
    var v := sorted[k].v;
    forall u | u in inserted ensures SeenBefore(sorted, k + 1, Event(true, u, p.axis.Open(p.rs[u]))) {
      SeenGrows(sorted, k, Event(true, u, p.axis.Open(p.rs[u])));
    }
    forall u | u in removed ensures SeenBefore(sorted, k + 1, Event(false, u, p.axis.Close(p.rs[u]))) {
      SeenGrows(sorted, k, Event(false, u, p.axis.Close(p.rs[u])));
    }
    assert SeenBefore(sorted, k + 1, sorted[k]);
  }

  /** `cs` and `pairs` are what a sweep over the event order `order` emits:
      one constraint per pair, each justified, no pair twice in either
      order, and the pairs exactly the pairs that sweep links. */
  ghost predicate Generated(p: Sweep, order: seq<Event>, cs: seq<Constraint>, pairs: seq<(nat, nat)>) {
    p.Valid() && EventsOk(p, order) && SortedEvents(order) &&
    |pairs| == |cs| &&
    (forall i :: 0 <= i < |cs| ==> p.Constrains(pairs[i], cs[i])) &&
    (forall i, j :: 0 <= i < j < |cs| ==> !SamePair(pairs[i], pairs[j])) &&
    (forall lr :: lr in pairs <==> lr in SweepPairs(p, order))
  }

  /** `generateConstraints(rs, vars, rect, minSep)`: sweep the rectangles'
      open and close events in order, keeping the open nodes on a scanline
      ordered by centre; a node opening is linked to the neighbours the
      axis' `findNeighbours` picks, and a node closing emits one separation
      constraint to each neighbour still linked to it.  Every emitted
      constraint separates two different rectangles by half their summed
      sizes plus `minSep`, the left one centred no later than the right one,
      the pair passed the axis' neighbour test, no pair is constrained twice,
      and the scanline is empty at the end.  `pairs` names the rectangles of
      each constraint, and they are exactly the pairs the sweep links over
      the sorted event order `order` (`SweepPairs`). */
  method GenerateConstraints(rs: seq<Rect>, vars: seq<VarId>, axis: Axis, minSep: real)
    returns (cs: seq<Constraint>, ghost pairs: seq<(nat, nat)>, ghost order: seq<Event>)
    requires Sweep(rs, vars, axis, minSep).Valid()
    ensures |pairs| == |cs|
    ensures forall i :: 0 <= i < |cs| ==> Sweep(rs, vars, axis, minSep).Constrains(pairs[i], cs[i])
    ensures forall i, j :: 0 <= i < j < |cs| ==> !SamePair(pairs[i], pairs[j])
    ensures EventsOk(Sweep(rs, vars, axis, minSep), order) && SortedEvents(order)
    ensures forall lr :: lr in pairs <==> lr in SweepPairs(Sweep(rs, vars, axis, minSep), order)
  {
    hide SweepInv;
    var p := Sweep(rs, vars, axis, minSep);
    var n := |rs|;
    var events := MakeEvents(rs, axis);
    var sorted := SortEvents(events);
    SweepOrder(p, events, sorted);
    order := sorted;
    cs, pairs := [], [];
    var scan: seq<nat> := [];
    var prev: seq<set<nat>> := seq(n, _ => {});
    var next: seq<set<nat>> := seq(n, _ => {});
    ghost var stamp: seq<nat> := Stamps(p, sorted);
    ghost var inserted: set<nat> := {};
    ghost var removed: set<nat> := {};
    SweepStart(p, sorted);
    for k := 0 to 2 * n
      invariant SweepInv(p, sorted, k, stamp, scan, prev, next, inserted, removed, cs, pairs)
    {
      if sorted[k].isOpen {
        stamp, scan, prev, next, inserted := OpenStep(p, sorted, k, stamp, scan, prev, next, inserted, removed, cs, pairs);
      } else {
        scan, prev, next, cs, pairs, removed := CloseStep(p, sorted, k, stamp, scan, prev, next, inserted, removed, cs, pairs);
      }
    }
    SweepEnd(p, sorted, stamp, scan, prev, next, inserted, removed, cs, pairs);
  }

  /** After the last event the sweep has emitted what `GenerateConstraints`
      promises, and the scanline is empty again. */
  lemma SweepEnd(p: Sweep, sorted: seq<Event>, stamp: seq<nat>, scan: seq<nat>,
                 prev: seq<set<nat>>, next: seq<set<nat>>, inserted: set<nat>, removed: set<nat>,
                 cs: seq<Constraint>, pairs: seq<(nat, nat)>)
    requires SweepInv(p, sorted, |sorted|, stamp, scan, prev, next, inserted, removed, cs, pairs)
    ensures scan == []
    ensures |pairs| == |cs|
    ensures forall i :: 0 <= i < |cs| ==> p.Constrains(pairs[i], cs[i])
    ensures forall i, j :: 0 <= i < j < |cs| ==> !SamePair(pairs[i], pairs[j])
    ensures forall lr :: lr in pairs <==> lr in SweepPairs(p, sorted)
  {
    SweepDone(p, sorted, scan, inserted, removed);
    forall lr | lr in SweepPairs(p, sorted) ensures lr in pairs {
      assert FoundBy(p, sorted, |sorted|, lr.0, lr.1);
    }
  }

  /** Before the first event the scanline is empty, no node has neighbours
      and nothing has been emitted. */
  lemma SweepStart(p: Sweep, sorted: seq<Event>)
    requires p.Valid() && EventsOk(p, sorted)
    ensures SweepInv(p, sorted, 0, Stamps(p, sorted), [], seq(|p.rs|, _ => {}), seq(|p.rs|, _ => {}),
                     {}, {}, [], [])
  {
  }

  /** `console.assert(scanline.size === 0)`: after the last event every node
      has been removed again. */
  lemma SweepDone(p: Sweep, sorted: seq<Event>, scan: seq<nat>,
                  inserted: set<nat>, removed: set<nat>)
    requires EventsOk(p, sorted) && Progress(p, sorted, |sorted|, scan, inserted, removed)
    ensures scan == []
    ensures forall u :: 0 <= u < |p.rs| ==> u in removed
  {
    forall u | 0 <= u < |p.rs| ensures u in removed {
      assert Event(false, u, p.axis.Close(p.rs[u])) in sorted;
    }
    ghost var first := if scan == [] then 0 else scan[0];
    assert scan != [] ==> first in scan;
  }

  /** Where the close event of `u` sits in the event order. */
  ghost function CloseIndex(p: Sweep, sorted: seq<Event>, u: nat): (j: nat)
    requires EventsOk(p, sorted) && u < |p.rs|
    ensures j < |sorted| && sorted[j] == Event(false, u, p.axis.Close(p.rs[u]))
  {
    var e := Event(false, u, p.axis.Close(p.rs[u]));
    assert e in sorted;
    var j :| 0 <= j < |sorted| && sorted[j] == e;
    j
  }

  /** A node's close event is among the first `j` exactly when its close
      index is below `j`. */
  lemma SeenClose(p: Sweep, sorted: seq<Event>, j: nat, u: nat)
    requires EventsOk(p, sorted) && u < |p.rs|
    ensures SeenBefore(sorted, j, Event(false, u, p.axis.Close(p.rs[u]))) <==> CloseIndex(p, sorted, u) < j
  {
    var c := CloseIndex(p, sorted, u);
    if c < j {
      assert 0 <= c < j && c < |sorted| && sorted[c] == Event(false, u, p.axis.Close(p.rs[u]));
    }
    if SeenBefore(sorted, j, Event(false, u, p.axis.Close(p.rs[u]))) {
      var i :| 0 <= i < j && i < |sorted| && sorted[i] == Event(false, u, p.axis.Close(p.rs[u]));
      assert i == c by {
        assert sorted[i].v == sorted[c].v && !sorted[i].isOpen && !sorted[c].isOpen;
      }
    }
  }

  /** In sorted events, a node opened earlier than `v` is still on the
      scanline when `v` opens exactly when it does not close before `v`
      opens: opens come before closes at equal positions. */
  lemma LiveAtOpen(p: Sweep, sorted: seq<Event>, u: nat, v: nat)
    requires EventsOk(p, sorted) && SortedEvents(sorted) && u < |p.rs| && v < |p.rs|
    requires OpenIndex(p, sorted, u) < OpenIndex(p, sorted, v)
    ensures Live(p, sorted, OpenIndex(p, sorted, v), u) <==> p.axis.Open(p.rs[v]) <= p.axis.Close(p.rs[u])
  {
    var c, o := CloseIndex(p, sorted, u), OpenIndex(p, sorted, v);
    SeenOpen(p, sorted, o, u);
    SeenClose(p, sorted, o, u);
    if c < o {
      assert EventLe(sorted[c], sorted[o]);
    }
    if o < c {
      assert EventLe(sorted[o], sorted[c]);
    }
  }

  /** Every node opens no later than it closes, and the node opened first
      opens at a position no later than the other's. */
  lemma OpenBeforeClose(p: Sweep, sorted: seq<Event>, u: nat, v: nat)
    requires EventsOk(p, sorted) && SortedEvents(sorted) && u < |p.rs| && v < |p.rs|
    requires OpenIndex(p, sorted, u) < OpenIndex(p, sorted, v)
    ensures p.axis.Open(p.rs[u]) <= p.axis.Open(p.rs[v]) <= p.axis.Close(p.rs[v])
  {
    var o, c := OpenIndex(p, sorted, v), CloseIndex(p, sorted, v);
    assert EventLe(sorted[OpenIndex(p, sorted, u)], sorted[o]);
    assert o < c by {
      assert sorted[o].v == sorted[c].v && sorted[o].isOpen && !sorted[c].isOpen;
    }
    assert EventLe(sorted[o], sorted[c]);
  }

  /** Of two nodes, the one opened second finds the first exactly when the
      two pass the neighbour test and the first has not closed before the
      second opens; the first finds nothing. */
  lemma TwoFinds(p: Sweep, sorted: seq<Event>, u: nat, v: nat)
    requires EventsOk(p, sorted) && SortedEvents(sorted) && |p.rs| == 2 && u < 2 && v < 2 && u != v
    requires OpenIndex(p, sorted, u) < OpenIndex(p, sorted, v)
    ensures Finds(p, sorted, u, v) <==>
      p.axis.Neighbourly(p.rs[u], p.rs[v]) && p.axis.Open(p.rs[v]) <= p.axis.Close(p.rs[u])
    ensures !Finds(p, sorted, v, u)
  {
    var stamp, o := Stamps(p, sorted), OpenIndex(p, sorted, v);
    LiveAtOpen(p, sorted, u, v);
    SeenOpen(p, sorted, OpenIndex(p, sorted, u), v);
    forall w: nat | Live(p, sorted, o, w) ensures !p.Between(stamp, u, w, v) {
      assert w == u || w == v;
    }
  }

  /** With two nodes, `u` opened first: every linked pair is `u` and `v`
      in one order or the other, and only when they pass the neighbour test
      and `u` has not closed before `v` opens. */
  lemma PairsOfTwo(p: Sweep, order: seq<Event>, u: nat, v: nat)
    requires EventsOk(p, order) && SortedEvents(order) && |p.rs| == 2 && u < 2 && v < 2 && u != v
    requires OpenIndex(p, order, u) < OpenIndex(p, order, v)
    ensures forall x :: x in SweepPairs(p, order) ==>
      (x == (u, v) || x == (v, u)) && p.axis.Neighbourly(p.rs[u], p.rs[v]) && p.axis.Open(p.rs[v]) <= p.axis.Close(p.rs[u])
  {
    var stamp := Stamps(p, order);
    TwoFinds(p, order, u, v);
    hide Finds, Stamps, OpenIndex;
    forall x | x in SweepPairs(p, order)
      ensures (x == (u, v) || x == (v, u)) && p.axis.Neighbourly(p.rs[u], p.rs[v]) && p.axis.Open(p.rs[v]) <= p.axis.Close(p.rs[u])
    {
      var a: nat, b: nat :| a < 2 && b < 2 && p.Before(stamp, a, b) &&
        (Finds(p, order, a, b) || Finds(p, order, b, a)) && x == (a, b);
      assert (a == u && b == v) || (a == v && b == u);
    }
  }

  /** The converse: such a pair is linked. */
  lemma TwoLinked(p: Sweep, order: seq<Event>, u: nat, v: nat)
    requires EventsOk(p, order) && SortedEvents(order) && |p.rs| == 2 && u < 2 && v < 2 && u != v
    requires OpenIndex(p, order, u) < OpenIndex(p, order, v)
    ensures p.axis.Neighbourly(p.rs[u], p.rs[v]) && p.axis.Open(p.rs[v]) <= p.axis.Close(p.rs[u]) ==>
      (u, v) in SweepPairs(p, order) || (v, u) in SweepPairs(p, order)
  {
    var stamp := Stamps(p, order);
    TwoFinds(p, order, u, v);
    assert stamp[u] < stamp[v];
    hide Finds, Stamps, OpenIndex;
    assert p.Before(stamp, u, v) || p.Before(stamp, v, u);
  }

  /** Two rectangles are linked, as one pair, exactly when they pass the
      neighbour test and their extents along the sweep direction meet
      (touching counts). */
  lemma TwoSweepPairs(p: Sweep, order: seq<Event>)
    requires |p.rs| == 2 && EventsOk(p, order) && SortedEvents(order)
    ensures |SweepPairs(p, order)| == if p.axis.Neighbourly(p.rs[0], p.rs[1]) &&
                                         p.axis.Open(p.rs[0]) <= p.axis.Close(p.rs[1]) &&
                                         p.axis.Open(p.rs[1]) <= p.axis.Close(p.rs[0]) then 1 else 0
  {
    var u: nat, v: nat := if OpenIndex(p, order, 0) < OpenIndex(p, order, 1) then 0 else 1,
                          if OpenIndex(p, order, 0) < OpenIndex(p, order, 1) then 1 else 0;
    assert OpenIndex(p, order, u) < OpenIndex(p, order, v) by {
      assert order[OpenIndex(p, order, 0)].v != order[OpenIndex(p, order, 1)].v;
    }
    PairsOfTwo(p, order, u, v);
    TwoLinked(p, order, u, v);
    OpenBeforeClose(p, order, u, v);
    NeighbourlySymmetric(p.axis, p.rs[0], p.rs[1]);
    hide SweepPairs;
    if p.axis.Neighbourly(p.rs[u], p.rs[v]) && p.axis.Open(p.rs[v]) <= p.axis.Close(p.rs[u]) {
      var lr := if (u, v) in SweepPairs(p, order) then (u, v) else (v, u);
      assert SweepPairs(p, order) == {lr};
    } else {
      assert SweepPairs(p, order) == {};
    }
  }

  /** A sequence without repeats has as many elements as its set. */
  lemma {:induction false} DistinctCard<T>(xs: seq<T>)
    requires forall i, j :: 0 <= i < j < |xs| ==> xs[i] != xs[j]
    ensures |set x | x in xs| == |xs|
  {
    if |xs| > 0 {
      var t := xs[..|xs| - 1];
      DistinctCard(t);
      assert (set x | x in xs) == (set x | x in t) + {xs[|xs| - 1]};
      assert xs[|xs| - 1] !in (set x | x in t);
    }
  }

  /** A sweep emits one constraint per linked pair. */
  lemma GeneratedCount(p: Sweep, order: seq<Event>, cs: seq<Constraint>, pairs: seq<(nat, nat)>)
    requires Generated(p, order, cs, pairs)
    ensures |cs| == |SweepPairs(p, order)|
  {
    DistinctCard(pairs);
    assert (set x | x in pairs) == SweepPairs(p, order);
  }

  /** Two rectangles get exactly one constraint when they pass the neighbour
      test and their extents along the sweep direction meet (touching
      counts), and none otherwise. */
  lemma TwoRectangleConstraints(p: Sweep, order: seq<Event>, cs: seq<Constraint>, pairs: seq<(nat, nat)>)
    requires |p.rs| == 2 && Generated(p, order, cs, pairs)
    ensures |cs| == if p.axis.Neighbourly(p.rs[0], p.rs[1]) &&
                       p.axis.Open(p.rs[0]) <= p.axis.Close(p.rs[1]) &&
                       p.axis.Open(p.rs[1]) <= p.axis.Close(p.rs[0]) then 1 else 0
  {
    GeneratedCount(p, order, cs, pairs);
    TwoSweepPairs(p, order);
  }

  /** The two rectangles of the overlap-removal test, (0,2,0,1) and
      (1,3,0,1), get exactly one x constraint. */
  lemma OverlapRemovalOneConstraint(vars: seq<VarId>, order: seq<Event>, cs: seq<Constraint>, pairs: seq<(nat, nat)>)
    requires Generated(Sweep([Rect(0.0, 2.0, 0.0, 1.0), Rect(1.0, 3.0, 0.0, 1.0)], vars, XAxis, MinSep), order, cs, pairs)
    ensures |cs| == 1
  {
    OverlapExample();
    TwoRectangleConstraints(Sweep([Rect(0.0, 2.0, 0.0, 1.0), Rect(1.0, 3.0, 0.0, 1.0)], vars, XAxis, MinSep),
                            order, cs, pairs);
  }

  /** A y sweep over rectangles whose x-extents do not overlap pairwise
      emits no constraint: `findYNeighbours` links only nodes that overlap
      in x. */
  lemma NoYConstraintsWhenXSeparated(p: Sweep, cs: seq<Constraint>, pairs: seq<(nat, nat)>)
    requires p.Valid() && p.axis == YAxis
    requires forall i, j :: 0 <= i < |p.rs| && 0 <= j < |p.rs| && i != j ==> p.rs[i].OverlapX(p.rs[j]) == 0.0
    requires |pairs| == |cs| && forall i :: 0 <= i < |cs| ==> p.Constrains(pairs[i], cs[i])
    ensures cs == []
  {
    assert |cs| > 0 ==> p.Constrains(pairs[0], cs[0]);
  }

  /** `generateXConstraints(rs, vars)`: the sweep along y that separates the
      rectangles in x, with the minimum separation `1e-6`. */
  method GenerateXConstraints(rs: seq<Rect>, vars: seq<VarId>)
    returns (cs: seq<Constraint>, ghost pairs: seq<(nat, nat)>, ghost order: seq<Event>)
    requires Sweep(rs, vars, XAxis, MinSep).Valid()
    ensures |pairs| == |cs|
    ensures forall i :: 0 <= i < |cs| ==> Sweep(rs, vars, XAxis, MinSep).Constrains(pairs[i], cs[i])
    ensures forall i, j :: 0 <= i < j < |cs| ==> !SamePair(pairs[i], pairs[j])
    ensures Generated(Sweep(rs, vars, XAxis, MinSep), order, cs, pairs)
  {
    cs, pairs, order := GenerateConstraints(rs, vars, XAxis, MinSep);
  }

  /** `generateYConstraints(rs, vars)`: the sweep along x that separates the
      rectangles in y, with the minimum separation `1e-6`. */
  method GenerateYConstraints(rs: seq<Rect>, vars: seq<VarId>)
    returns (cs: seq<Constraint>, ghost pairs: seq<(nat, nat)>, ghost order: seq<Event>)
    requires Sweep(rs, vars, YAxis, MinSep).Valid()
    ensures |pairs| == |cs|
    ensures forall i :: 0 <= i < |cs| ==> Sweep(rs, vars, YAxis, MinSep).Constrains(pairs[i], cs[i])
    ensures forall i, j :: 0 <= i < j < |cs| ==> !SamePair(pairs[i], pairs[j])
    ensures Generated(Sweep(rs, vars, YAxis, MinSep), order, cs, pairs)
  {
    cs, pairs, order := GenerateConstraints(rs, vars, YAxis, MinSep);
  }
}
