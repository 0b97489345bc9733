/**
  The d3 layout adaptor of WebCola: neighbour-set link lengths, the `alpha`
  cooling state, the node `fixed` bit flags, and the target distances
  `start` hands to the descent.
*/
module Cola {
  import opened Wrappers
  import StressDescent

  // ---------------------------------------------------------------------
  // Key sets

  /** `unionCount(a, b)`: collects the keys of `a` and then of `b` into one
      object and counts its keys. */
  method UnionCount(a: set<nat>, b: set<nat>) returns (c: nat)
    ensures c == |a + b|
  {
    var u: set<nat> := {};
    var rest := a;
    while rest != {}
      invariant rest <= a && u == a - rest
      decreases |rest|
    {
      var i :| i in rest;
      u := u + {i};
      rest := rest - {i};
    }
    rest := b;
    while rest != {}
      invariant rest <= b && u == a + (b - rest)
      decreases |rest|
    {
      var i :| i in rest;
      u := u + {i};
      rest := rest - {i};
    }
    c := |u|;
  }

  /** `intersectionCount(a, b)`: counts the keys of `a` that `b` also has. */
  method IntersectionCount(a: set<nat>, b: set<nat>) returns (n: nat)
    ensures n == |a * b|
  {
    n := 0;
    var rest := a;
    ghost var seen: set<nat> := {};
    while rest != {}
      invariant rest <= a && seen == (a - rest) * b && n == |seen|
      decreases |rest|
    {
      var i :| i in rest;
      if i in b {
        assert i !in seen;
        n := n + 1;
        seen := seen + {i};
      }
      rest := rest - {i};
    }
  }

  /** Both counts are symmetric, and the intersection is never larger than
      the union; the two add up to the two sizes. */
  lemma CountsSymmetric(a: set<nat>, b: set<nat>)
    ensures |a + b| == |b + a| && |a * b| == |b * a|
    ensures |a * b| <= |a + b| && |a + b| + |a * b| == |a| + |b|
  {
    assert a + b == b + a && a * b == b * a;
    assert a + b == (a - b) + b && (a - b) * b == {};
    assert a == (a - b) + a * b && (a - b) * (a * b) == {};
  }

  /** A subset as large as its superset is the superset. */
  lemma {:induction false} SubsetSameSize(s: set<nat>, t: set<nat>)
    requires s <= t && |s| == |t|
    ensures s == t
    decreases |t|
  {
    if s != {} {
      var x :| x in s;
      SubsetSameSize(s - {x}, t - {x});
      assert s == (s - {x}) + {x} && t == (t - {x}) + {x};
    }
  }

  /** The Jaccard rule of `jaccardLinkLengths`: 0 when either set has at most
      one key, otherwise the shared keys over all keys. */
  function Jaccard(a: set<nat>, b: set<nat>): (r: real)
    ensures 0.0 <= r <= 1.0
    ensures (|a| < 2 || |b| < 2) ==> r == 0.0
  {
    var least := if |a| < |b| then |a| else |b|;
    if least as real < 1.1 then 0.0
    else
      CountsSymmetric(a, b);
      var i, u := |a * b| as real, |a + b| as real;
      DivAtMostOne(i, u);
      i / u
  }

  /** A ratio of a non-negative value over a larger positive one lies in
      [0, 1]. */
  lemma DivAtMostOne(i: real, u: real)
    requires 0.0 <= i <= u && u > 0.0
    ensures 0.0 <= i / u <= 1.0
  {
    var q := i / u;
    assert q * u == i;
  }

  /** The rule is symmetric, and between sets of two or more keys it is 1
      exactly when the sets are equal. */
  lemma JaccardSymmetricOne(a: set<nat>, b: set<nat>)
    ensures Jaccard(a, b) == Jaccard(b, a)
    ensures |a| >= 2 && |b| >= 2 ==> (Jaccard(a, b) == 1.0 <==> a == b)
  {
    assert a + b == b + a && a * b == b * a;
    if |a| >= 2 && |b| >= 2 {
      CountsSymmetric(a, b);
      var i, u := |a * b| as real, |a + b| as real;
      if Jaccard(a, b) == 1.0 {
        assert i / u == 1.0;
        assert i == u by {
          assert i == i / u * u;
        }
        SubsetSameSize(a * b, a + b);
        assert a == b by {
          assert forall x :: x in a ==> x in a * b;
          assert forall x :: x in b ==> x in a * b;
        }
      } else {
        assert a * a == a + a;
      }
    }
  }

  /** With a non-negative weight, a link length `1 + w * f` over a value
      of `f` in [0, 1] lies in [1, 1 + w]. */
  lemma LinkLengthBounds(w: real, j: real)
    requires w >= 0.0 && 0.0 <= j <= 1.0
    ensures 1.0 <= 1.0 + w * j <= 1.0 + w
  {
    assert w * j <= w * 1.0 by {
      assert w * (1.0 - j) >= 0.0;
    }
  }

  // ---------------------------------------------------------------------
  // Neighbour sets and link lengths

  /** A link between two node indices whose `length` the adaptor sets. */
  class Link {
    const source: nat
    const target: nat
    var length: real

    constructor (source: nat, target: nat)
      ensures this.source == source && this.target == target && length == 0.0
    {
      this.source := source;
      this.target := target;
      length := 0.0;
    }
  }

  /** The keys of `neighbours[v]` once every link has been entered in both
      directions. */
  function NeighbourSet(links: seq<Link>, v: nat): set<nat> {
    (set k | 0 <= k < |links| && links[k].source == v :: links[k].target) +
    (set k | 0 <= k < |links| && links[k].target == v :: links[k].source)
  }

  /** Neighbourhood is symmetric, and each link joins its two ends. */
  lemma NeighboursSymmetric(links: seq<Link>, u: nat, v: nat)
    ensures u in NeighbourSet(links, v) <==> v in NeighbourSet(links, u)
    ensures forall k :: 0 <= k < |links| ==>
              links[k].target in NeighbourSet(links, links[k].source) &&
              links[k].source in NeighbourSet(links, links[k].target)
  {
    if u in NeighbourSet(links, v) {
      var k :| 0 <= k < |links| && ((links[k].source == v && links[k].target == u) ||
                                    (links[k].target == v && links[k].source == u));
      assert v in NeighbourSet(links, u);
    }
    if v in NeighbourSet(links, u) {
      var k :| 0 <= k < |links| && ((links[k].source == u && links[k].target == v) ||
                                    (links[k].target == u && links[k].source == v));
      assert u in NeighbourSet(links, v);
    }
  }

  /** One more link adds each end to the other's set and nothing else. */
  lemma NeighbourSetSnoc(links: seq<Link>, e: Link, v: nat)
    ensures NeighbourSet(links + [e], v) ==
            NeighbourSet(links, v) + (if e.source == v then {e.target} else {}) +
            (if e.target == v then {e.source} else {})
  {
    var L := links + [e];
    forall x | x in NeighbourSet(L, v)
      ensures x in NeighbourSet(links, v) + (if e.source == v then {e.target} else {}) +
                   (if e.target == v then {e.source} else {})
    {
      var k :| 0 <= k < |L| && ((L[k].source == v && L[k].target == x) ||
                                (L[k].target == v && L[k].source == x));
      if k < |links| {
        assert L[k] == links[k];
      }
    }
    forall x | x in NeighbourSet(links, v) ensures x in NeighbourSet(L, v) {
      var k :| 0 <= k < |links| && ((links[k].source == v && links[k].target == x) ||
                                    (links[k].target == v && links[k].source == x));
      assert L[k] == links[k];
    }
    assert L[|links|] == e;
  }

  /** The first half of `computeLinkLengths`: an empty key set per node, then
      each link entered in both directions. */
  method BuildNeighbours(n: nat, links: seq<Link>) returns (nb: seq<set<nat>>)
    requires forall k :: 0 <= k < |links| ==> links[k].source < n && links[k].target < n
    ensures |nb| == n && forall v :: 0 <= v < n ==> nb[v] == NeighbourSet(links, v)
  {
    nb := [];
    var i := 0;
    while i < n
      invariant 0 <= i <= n && |nb| == i && forall v :: 0 <= v < i ==> nb[v] == {}
    {
      nb := nb + [{}];
      i := i + 1;
    }
    var k := 0;
    while k < |links|
      invariant 0 <= k <= |links| && |nb| == n
      invariant forall v :: 0 <= v < n ==> nb[v] == NeighbourSet(links[..k], v)
    {
      var e := links[k];
      nb := nb[e.source := nb[e.source] + {e.target}];
      nb := nb[e.target := nb[e.target] + {e.source}];
      forall v | 0 <= v < n ensures nb[v] == NeighbourSet(links[..k + 1], v) {
        assert links[..k + 1] == links[..k] + [e];
        NeighbourSetSnoc(links[..k], e, v);
      }
      k := k + 1;
    }
    assert links[..k] == links;
  }

  // ---------------------------------------------------------------------
  // Nodes and their `fixed` bits

  /** A layout node. `fixed` is a 32-bit flag word (a JavaScript `true` reads
      as 1): bit value 1 pins the node from outside, 2 marks a drag in
      progress and 4 marks the mouse hovering over it. */
  class Node {
    var x: real
    var y: real
    var px: real
    var py: real
    var fixed: bv32
    var index: nat
    var weight: int

    constructor (x: real, y: real)
      ensures this.x == x && this.y == y && px == 0.0 && py == 0.0 && fixed == 0
      ensures index == 0 && weight == 0
    {
      this.x, this.y := x, y;
      px, py, fixed := 0.0, 0.0, 0;
      index, weight := 0, 0;
    }

    /** `d3_layout_forceDragstart`: sets the drag bit, keeps the others. */
    method DragStart()
      modifies this
      ensures fixed & 2 == 2 && fixed & !2 == old(fixed) & !2 && fixed != 0
      ensures x == old(x) && y == old(y) && px == old(px) && py == old(py)
      ensures index == old(index) && weight == old(weight)
    {
      fixed := fixed | 2;
    }

    /** `d3_layout_forceDragend`: clears the drag and the hover bits, keeps
        the others (in particular the pin bit 1). */
    method DragEnd()
      modifies this
      ensures fixed & 6 == 0 && fixed & !6 == old(fixed) & !6
      ensures fixed & 1 == old(fixed) & 1
      ensures x == old(x) && y == old(y) && px == old(px) && py == old(py)
      ensures index == old(index) && weight == old(weight)
    {
      fixed := fixed & !6;
    }

    /** `d3_layout_forceMouseover`: sets the hover bit, keeps the others, and
        copies the position into the previous position. */
    method MouseOver()
      modifies this
      ensures fixed & 4 == 4 && fixed & !4 == old(fixed) & !4 && fixed != 0
      ensures px == x && py == y && x == old(x) && y == old(y)
      ensures index == old(index) && weight == old(weight)
    {
      fixed := fixed | 4;
      px, py := x, y;
    }

    /** `d3_layout_forceMouseout`: clears the hover bit, keeps the others. */
    method MouseOut()
      modifies this
      ensures fixed & 4 == 0 && fixed & !4 == old(fixed) & !4
      ensures x == old(x) && y == old(y) && px == old(px) && py == old(py)
      ensures index == old(index) && weight == old(weight)
    {
      fixed := fixed & !4;
    }
  }

  /** A drag that starts while hovering and then ends leaves only the bits
      the node had besides drag and hover: a pinned node stays pinned, an
      unpinned one is released. */
  lemma HoverDragRelease(f: bv32)
    ensures ((f | 4) | 2) & !6 == f & !6
    ensures (((f | 4) | 2) & !6 == 0) <==> f & !6 == 0
  {
  }

  /** The next `alpha` after a tick in which the stress fell from `last` to
      `s1`: positive. */
  lemma CoolingPositive(last: real, s1: real)
    requires last > s1 > 0.0
    ensures last / s1 - 1.0 > 0.0
  {
    assert last / s1 * s1 == last;
  }

  /** Every row of `M` up to `n` has at least `n` entries. */
  predicate Covers(M: seq<seq<StressDescent.Dist>>, n: nat) {
    |M| >= n && forall i :: 0 <= i < n ==> |M[i]| >= n
  }

  /** The first loop of `start`: node i gets index i and weight 0. */
  method IndexNodes(nodes: seq<Node>)
    requires forall i, j :: 0 <= i < j < |nodes| ==> nodes[i] != nodes[j]
    modifies nodes
    ensures forall i :: 0 <= i < |nodes| ==>
              nodes[i].index == i && nodes[i].weight == 0 &&
              nodes[i].x == old(nodes[i].x) && nodes[i].y == old(nodes[i].y) &&
              nodes[i].px == old(nodes[i].px) && nodes[i].py == old(nodes[i].py) &&
              nodes[i].fixed == old(nodes[i].fixed)
  {
    var n := |nodes|;
    var i := 0;
    while i < n
      invariant 0 <= i <= n
      invariant forall j :: 0 <= j < n ==>
                  nodes[j].x == old(nodes[j].x) && nodes[j].y == old(nodes[j].y) &&
                  nodes[j].px == old(nodes[j].px) && nodes[j].py == old(nodes[j].py) &&
                  nodes[j].fixed == old(nodes[j].fixed)
      invariant forall j :: 0 <= j < i ==> nodes[j].index == j && nodes[j].weight == 0
    {
      var o := nodes[i];
      o.index := i;
      o.weight := 0;
      i := i + 1;
    }
  }

  /** One entry of `distanceMatrix[i][j] * linkDistance`. An infinite
      entry (johnsons' `Infinity` for a pair with no path) stays one that
      `isFinite` rejects: `Infinity` times a positive factor is `Infinity`,
      times a negative one `-Infinity`, and times 0 `NaN`. */
  function Scale(d: StressDescent.Dist, k: real): StressDescent.Dist {
    match d
    case Finite(v) => StressDescent.Finite(v * k)
    case Infinite => StressDescent.Infinite
  }

  /** The matrix loop of `start`: entry (i, j) is the graph distance times
      the link distance; a pair with no path stays infinite. */
  method ScaledDistances(M: seq<seq<StressDescent.Dist>>, linkDistance: real, n: nat)
    returns (D: seq<seq<StressDescent.Dist>>)
    requires Covers(M, n)
    ensures |D| == n && forall i :: 0 <= i < n ==> |D[i]| == n
    ensures forall i, j :: 0 <= i < n && 0 <= j < n ==> (D[i][j].Infinite? <==> M[i][j].Infinite?)
    ensures forall i, j :: 0 <= i < n && 0 <= j < n && M[i][j].Finite? ==>
              D[i][j].value == M[i][j].value * linkDistance
  {
    D := [];
    var i := 0;
    while i < n
      invariant 0 <= i <= n && |D| == i
      invariant forall r :: 0 <= r < i ==> |D[r]| == n
      invariant forall r, c :: 0 <= r < i && 0 <= c < n ==> D[r][c] == Scale(M[r][c], linkDistance)
    {
      var row := [];
      var j := 0;
      while j < n
        invariant 0 <= j <= n && |row| == j
        invariant forall c :: 0 <= c < j ==> row[c] == Scale(M[i][c], linkDistance)
      {
        row := row + [Scale(M[i][j], linkDistance)];
        j := j + 1;
      }
      D := D + [row];
      i := i + 1;
    }
  }

  /** A node with no path to any other node (johnsons' `Infinity` in the
      rest of its row) keeps an infinite target distance to each of them
      after scaling, so the descent that `start` builds gives it a zero
      gradient: the stress does not pull on it. */
  lemma IsolatedNodeGradient(M: seq<seq<StressDescent.Dist>>, D: seq<seq<StressDescent.Dist>>,
                             pos: seq<seq<real>>, n: nat, sqrt: real -> real, u: nat)
    requires Covers(M, n) && u < n
    requires forall v :: 0 <= v < n && v != u ==> M[u][v].Infinite?
    requires |D| == n && forall i :: 0 <= i < n ==> |D[i]| == n
    requires forall i, j :: 0 <= i < n && 0 <= j < n ==> (D[i][j].Infinite? <==> M[i][j].Infinite?)
    requires StressDescent.Ready(pos, n, D, sqrt)
    ensures StressDescent.Gradient(pos, n, D, sqrt)[0][u] == 0.0
    ensures StressDescent.Gradient(pos, n, D, sqrt)[1][u] == 0.0
  {
    StressDescent.DisconnectedIgnored(pos, n, D, sqrt, 0, u, n);
    StressDescent.DisconnectedIgnored(pos, n, D, sqrt, 1, u, n);
  }

  /** The position loop of `start`: node i is placed at
      (w/2 + 10 rx[i], h/2 + 10 ry[i]), where rx[i] and ry[i] are the two
      `Math.random()` draws for it, and the same coordinates are collected
      in `xs` and `ys` for the descent. */
  method PlaceNodes(nodes: seq<Node>, w: real, h: real, rx: seq<real>, ry: seq<real>)
    returns (xs: seq<real>, ys: seq<real>)
    requires forall i, j :: 0 <= i < j < |nodes| ==> nodes[i] != nodes[j]
    requires |rx| == |nodes| && |ry| == |nodes|
    requires forall i :: 0 <= i < |nodes| ==> 0.0 <= rx[i] < 1.0 && 0.0 <= ry[i] < 1.0
    modifies nodes
    ensures |xs| == |nodes| && |ys| == |nodes|
    ensures forall i :: 0 <= i < |nodes| ==>
              nodes[i].x == xs[i] == w / 2.0 + 10.0 * rx[i] && nodes[i].y == ys[i] == h / 2.0 + 10.0 * ry[i]
    ensures forall i :: 0 <= i < |nodes| ==>
              w / 2.0 <= xs[i] < w / 2.0 + 10.0 && h / 2.0 <= ys[i] < h / 2.0 + 10.0
    ensures forall i :: 0 <= i < |nodes| ==>
              nodes[i].px == old(nodes[i].px) && nodes[i].py == old(nodes[i].py) &&
              nodes[i].fixed == old(nodes[i].fixed) && nodes[i].index == old(nodes[i].index) &&
              nodes[i].weight == old(nodes[i].weight)
  {
    xs, ys := [], [];
    var i := 0;
    while i < |nodes|
      invariant 0 <= i <= |nodes| && |xs| == i && |ys| == i
      invariant forall j :: 0 <= j < i ==>
                  nodes[j].x == xs[j] == w / 2.0 + 10.0 * rx[j] && nodes[j].y == ys[j] == h / 2.0 + 10.0 * ry[j]
      invariant forall j :: 0 <= j < |nodes| ==>
                  nodes[j].px == old(nodes[j].px) && nodes[j].py == old(nodes[j].py) &&
                  nodes[j].fixed == old(nodes[j].fixed) && nodes[j].index == old(nodes[j].index) &&
                  nodes[j].weight == old(nodes[j].weight)
    {
      var v := nodes[i];
      v.x := w / 2.0 + 10.0 * rx[i];
      v.y := h / 2.0 + 10.0 * ry[i];
      xs, ys := xs + [v.x], ys + [v.y];
      i := i + 1;
    }
  }

  /** The position loop of `tick`: a node with any `fixed` bit set goes back
      to its previous position, which the descent also takes; any other node
      takes the descent's position. */
  method SyncPositions(nodes: seq<Node>, xs: array<real>, ys: array<real>)
    requires xs != ys && xs.Length == |nodes| && ys.Length == |nodes|
    requires forall i, j :: 0 <= i < j < |nodes| ==> nodes[i] != nodes[j]
    modifies xs, ys, nodes
    ensures forall i :: 0 <= i < |nodes| ==>
              nodes[i].px == old(nodes[i].px) && nodes[i].py == old(nodes[i].py) &&
              nodes[i].fixed == old(nodes[i].fixed) && nodes[i].index == old(nodes[i].index) &&
              nodes[i].weight == old(nodes[i].weight)
    ensures forall i :: 0 <= i < |nodes| && nodes[i].fixed != 0 ==>
              xs[i] == nodes[i].x == nodes[i].px && ys[i] == nodes[i].y == nodes[i].py
    ensures forall i :: 0 <= i < |nodes| && nodes[i].fixed == 0 ==>
              nodes[i].x == xs[i] == old(xs[i]) && nodes[i].y == ys[i] == old(ys[i])
  {
      var n := |nodes|;
      var i := 0;
      while i < n
        invariant 0 <= i <= n
        invariant forall j :: 0 <= j < n ==>
                    nodes[j].px == old(nodes[j].px) && nodes[j].py == old(nodes[j].py) &&
                    nodes[j].fixed == old(nodes[j].fixed) && nodes[j].index == old(nodes[j].index) &&
                    nodes[j].weight == old(nodes[j].weight)
        invariant forall j :: 0 <= j < i && nodes[j].fixed != 0 ==>
                    xs[j] == nodes[j].x == nodes[j].px && ys[j] == nodes[j].y == nodes[j].py
        invariant forall j :: 0 <= j < i && nodes[j].fixed == 0 ==>
                    nodes[j].x == xs[j] == old(xs[j]) && nodes[j].y == ys[j] == old(ys[j])
        invariant forall j :: i <= j < n ==> xs[j] == old(xs[j]) && ys[j] == old(ys[j])
      {
        var o := nodes[i];
        if o.fixed != 0 {
          o.x := o.px;
          xs[i] := o.x;
          o.y := o.py;
          ys[i] := o.y;
        } else {
          o.x := xs[i];
          o.y := ys[i];
        }
        i := i + 1;
      }
  }

  /** The JavaScript values the position loop of `tick` touches. */
  datatype JsValue = Undefined | Num(num: real) | Arr(elems: seq<JsValue>) | Obj(props: map<string, JsValue>)

  /** `v[key]` for a property name: reading from `undefined` throws a
      TypeError (`None`); a missing property reads as `undefined`. */
  function GetProp(v: JsValue, key: string): Option<JsValue> {
    match v
    case Undefined => None
    case Obj(props) => Some(if key in props then props[key] else Undefined)
    case _ => Some(Undefined)
  }

  /** `v[i]` for an array index, with the same rules. */
  function GetIndex(v: JsValue, i: nat): Option<JsValue> {
    match v
    case Undefined => None
    case Arr(elems) => Some(if i < |elems| then elems[i] else Undefined)
    case _ => Some(Undefined)
  }

  function Nums(xs: seq<real>): seq<JsValue> {
    seq(|xs|, i requires 0 <= i < |xs| => Num(xs[i]))
  }

  /** The `Descent` object as its constructor leaves it
      (WebCola/descent.ts:27-29): both coordinate rows live in the property
      `x`, as `[x, y]`, and there is no property `y`. */
  function DescentObject(xs: seq<real>, ys: seq<real>): JsValue {
    Obj(map["x" := Arr([Arr(Nums(xs)), Arr(Nums(ys))])])
  }

  /** One iteration of `tick`'s position loop on node `i`, as written: the
      new `o.x` and `o.y`, or `None` when it throws.  A pinned node runs
      `descent.x[i] = o.x = o.px; descent.y[i] = o.y = o.py`, any other node
      `o.x = descent.x[i]; o.y = descent.y[i]`; writing an index of
      `undefined` throws like reading one. */
  function SyncNodeAsWritten(descent: JsValue, i: nat, fixed: bool, px: real, py: real): Option<(JsValue, JsValue)> {
    var dx := GetProp(descent, "x");
    if dx.None? || (fixed && dx.value.Undefined?) then None
    else
      var dy := GetProp(descent, "y");
      if dy.None? || (fixed && dy.value.Undefined?) then None
      else if fixed then Some((Num(px), Num(py)))
      else
        var ox, oy := GetIndex(dx.value, i), GetIndex(dy.value, i);
        if ox.None? || oy.None? then None else Some((ox.value, oy.value))
  }

  /** On the descent object the constructor builds, the loop as written
      throws at its first node, pinned or not: `descent.y` is `undefined`.
      Before it throws, an unpinned node 0 has had `o.x` set to the whole x
      row rather than to a number. */
  lemma SyncNodeThrows(xs: seq<real>, ys: seq<real>, i: nat, fixed: bool, px: real, py: real)
    ensures SyncNodeAsWritten(DescentObject(xs, ys), i, fixed, px, py) == None
    ensures GetIndex(GetProp(DescentObject(xs, ys), "x").value, 0) == Some(Arr(Nums(xs)))
  {
  }

  /** The evident intent: `descent.x[0][i]` and `descent.x[1][i]`. */
  function SyncNodeIntended(descent: JsValue, i: nat, fixed: bool, px: real, py: real): Option<(JsValue, JsValue)> {
    var dx := GetProp(descent, "x");
    if dx.None? then None
    else
      var rx, ry := GetIndex(dx.value, 0), GetIndex(dx.value, 1);
      if rx.None? || ry.None? || rx.value.Undefined? || ry.value.Undefined? then None
      else if fixed then Some((Num(px), Num(py)))
      else
        var ox, oy := GetIndex(rx.value, i), GetIndex(ry.value, i);
        if ox.None? || oy.None? then None else Some((ox.value, oy.value))
  }

  /** The intended loop never throws on a node of the descent: a pinned node
      keeps its previous position and any other node takes the descent's
      coordinates, as `SyncPositions` does on the two rows. */
  lemma SyncNodeIntendedReads(xs: seq<real>, ys: seq<real>, i: nat, fixed: bool, px: real, py: real)
    requires i < |xs| && i < |ys|
    ensures SyncNodeIntended(DescentObject(xs, ys), i, fixed, px, py) ==
            Some(if fixed then (Num(px), Num(py)) else (Num(xs[i]), Num(ys[i])))
  {
  }

  // ---------------------------------------------------------------------
  // The adaptor

  /** The closure state of `d3adaptor`. `alpha` is 0 where JavaScript has it
      undefined; `timers` counts the `d3.timer` callbacks still running. */
  class Layout {
    var nodes: seq<Node>
    var links: seq<Link>
    var alpha: real
    var lastStress: Option<real>
    var timers: nat
    var distanceMatrix: seq<seq<StressDescent.Dist>>
    var linkDistance: real
    var size: (real, real)
    var descent: StressDescent.Descent?

    /** The state the adaptor keeps: a non-negative `alpha`, some timer
        running whenever it is non-zero, and distinct node objects. */
    ghost predicate Valid()
      reads this
    {
      alpha >= 0.0 && (alpha != 0.0 ==> timers > 0) &&
      forall i, j :: 0 <= i < j < |nodes| ==> nodes[i] != nodes[j]
    }

    constructor ()
      ensures Valid() && nodes == [] && links == [] && distanceMatrix == []
      ensures alpha == 0.0 && lastStress == None && timers == 0 && linkDistance == 20.0
      ensures size == (1.0, 1.0) && descent == null
    {
      nodes, links, distanceMatrix := [], [], [];
      alpha, lastStress, timers, linkDistance := 0.0, None, 0, 20.0;
      size, descent := (1.0, 1.0), null;
    }

    /** The link ends are node indices, as `computeLinkLengths` needs. */
    predicate LinksInRange()
      reads this
    {
      forall k :: 0 <= k < |links| ==> links[k].source < |nodes| && links[k].target < |nodes|
    }

    /** The `alpha(x)` setter: while running, a positive `x` keeps it hot and
        anything else sets 0 (the next tick then stops); while idle, a
        positive `x` starts a new timer and anything else does nothing. */
    method SetAlpha(x: real)
      requires Valid()
      modifies this
      ensures Valid()
      ensures old(alpha) != 0.0 ==> alpha == (if x > 0.0 then x else 0.0) && timers == old(timers)
      ensures old(alpha) == 0.0 ==> alpha == (if x > 0.0 then x else 0.0)
      ensures old(alpha) == 0.0 ==> timers == if x > 0.0 then old(timers) + 1 else old(timers)
      ensures nodes == old(nodes) && links == old(links) && lastStress == old(lastStress)
      ensures distanceMatrix == old(distanceMatrix) && linkDistance == old(linkDistance)
      ensures size == old(size) && descent == old(descent)
    {
      if alpha != 0.0 {
        if x > 0.0 {
          alpha := x;
        } else {
          alpha := 0.0;
        }
      } else if x > 0.0 {
        alpha := x;
        timers := timers + 1;
      }
    }

    /** `tick()`, given the stress `s1` that `descent.rungeKutta()` returned
        and the descent's coordinate arrays. Below 1e-5 it stops: alpha
        becomes 0 and the timer ends (`delete lastStress` leaves a `var` as
        it is). Otherwise alpha becomes lastStress / s1 - 1 when the stress
        fell, lastStress becomes s1, and each node either is pinned back to
        its previous position (when any `fixed` bit is set) or takes the
        descent's position. */
    method Tick(s1: real, xs: array<real>, ys: array<real>) returns (done: bool)
      requires Valid() && xs != ys && xs.Length == |nodes| && ys.Length == |nodes|
      requires s1 >= 0.0 && (lastStress.Some? && lastStress.value > s1 ==> s1 > 0.0)
      modifies this, xs, ys, nodes
      ensures Valid() && nodes == old(nodes) && links == old(links)
      ensures distanceMatrix == old(distanceMatrix) && linkDistance == old(linkDistance)
      ensures size == old(size) && descent == old(descent)
      ensures done <==> old(alpha) < 0.00001
      ensures done ==> alpha == 0.0 && lastStress == old(lastStress) &&
                       timers == (if old(timers) > 0 then old(timers) - 1 else 0) &&
                       xs[..] == old(xs[..]) && ys[..] == old(ys[..])
      ensures !done ==> lastStress == Some(s1) && timers == old(timers)
      ensures !done ==> alpha == if old(lastStress).Some? && old(lastStress).value > s1
                                 then old(lastStress).value / s1 - 1.0 else old(alpha)
      ensures forall i :: 0 <= i < |nodes| ==>
                nodes[i].px == old(nodes[i].px) && nodes[i].py == old(nodes[i].py) &&
                nodes[i].fixed == old(nodes[i].fixed) && nodes[i].index == old(nodes[i].index) &&
                nodes[i].weight == old(nodes[i].weight)
      ensures forall i :: 0 <= i < |nodes| && done ==>
                nodes[i].x == old(nodes[i].x) && nodes[i].y == old(nodes[i].y)
      ensures forall i :: 0 <= i < |nodes| && !done && nodes[i].fixed != 0 ==>
                xs[i] == nodes[i].x == nodes[i].px && ys[i] == nodes[i].y == nodes[i].py
      ensures forall i :: 0 <= i < |nodes| && !done && nodes[i].fixed == 0 ==>
                nodes[i].x == xs[i] == old(xs[i]) && nodes[i].y == ys[i] == old(ys[i])
    {
      if alpha < 0.00001 {
        alpha := 0.0;
        timers := if timers > 0 then timers - 1 else 0;
        return true;
      }
      if lastStress.Some? && lastStress.value > s1 {
        CoolingPositive(lastStress.value, s1);
        alpha := lastStress.value / s1 - 1.0;
      }
      lastStress := Some(s1);
      SyncPositions(nodes, xs, ys);
      done := false;
    }

    /** `resume()`: `alpha(.1)`. */
    method Resume()
      requires Valid()
      modifies this
      ensures Valid() && alpha == 0.1
      ensures timers == if old(alpha) == 0.0 then old(timers) + 1 else old(timers)
      ensures nodes == old(nodes) && links == old(links) && lastStress == old(lastStress)
      ensures distanceMatrix == old(distanceMatrix) && linkDistance == old(linkDistance)
      ensures size == old(size) && descent == old(descent)
    {
      SetAlpha(0.1);
    }

    /** `stop()`: `alpha(0)`; the running timer sees it on its next tick. */
    method Stop()
      requires Valid()
      modifies this
      ensures Valid() && alpha == 0.0 && timers == old(timers)
      ensures nodes == old(nodes) && links == old(links) && lastStress == old(lastStress)
      ensures distanceMatrix == old(distanceMatrix) && linkDistance == old(linkDistance)
      ensures size == old(size) && descent == old(descent)
    {
      SetAlpha(0.0);
    }

    /** `computeLinkLengths(w, f)`: every link gets length
        1 + w * f(neighbours of its source, neighbours of its target). */
    method ComputeLinkLengths(w: real, f: (set<nat>, set<nat>) -> real)
      requires LinksInRange()
      modifies links
      ensures forall k :: 0 <= k < |links| ==>
                links[k].length == 1.0 + w * f(NeighbourSet(links, links[k].source), NeighbourSet(links, links[k].target))
    {
      hide NeighbourSet;
      var nb := BuildNeighbours(|nodes|, links);
      var ls := links;
      ghost var want := seq(|ls|, j requires 0 <= j < |ls| =>
        1.0 + w * f(NeighbourSet(ls, ls[j].source), NeighbourSet(ls, ls[j].target)));
      var k := 0;
      while k < |links|
        invariant 0 <= k <= |links|
        invariant forall j :: 0 <= j < k ==> links[j].length == want[j]
      {
        var l := links[k];
        var a := nb[l.source];
        var b := nb[l.target];
        assert want[k] == 1.0 + w * f(a, b);
        l.length := 1.0 + w * f(a, b);
        k := k + 1;
      }
    }

    /** `jaccardLinkLengths(w)`: link lengths by the Jaccard rule, with `w`
        defaulting to 1; for a non-negative `w` every length lies in
        [1, 1 + w]. */
    method JaccardLinkLengths(w: Option<real>)
      requires LinksInRange()
      modifies links
      ensures forall k :: 0 <= k < |links| ==>
                links[k].length == 1.0 + w.GetOr(1.0) * Jaccard(NeighbourSet(links, links[k].source), NeighbourSet(links, links[k].target))
      ensures w.GetOr(1.0) >= 0.0 ==> forall k :: 0 <= k < |links| ==> 1.0 <= links[k].length <= 1.0 + w.GetOr(1.0)
    {
      hide NeighbourSet, Jaccard;
      var weight := w.GetOr(1.0);
      ComputeLinkLengths(weight, Jaccard);
      if weight >= 0.0 {
        forall k | 0 <= k < |links| ensures 1.0 <= links[k].length <= 1.0 + weight {
          var j := Jaccard(NeighbourSet(links, links[k].source), NeighbourSet(links, links[k].target));
          assert links[k].length == 1.0 + weight * j;
          LinkLengthBounds(weight, j);
        }
      }
    }

    /** `start()`: node i gets index i and weight 0, the distance matrix is
        replaced by `johnsons` (the shortest paths over the links) unless it
        has one row per node, the target distances `D` are its entries times
        `linkDistance` (pairs with no path stay infinite), every node is
        placed at random near the middle of `size`, a new descent starts from
        those positions and `D`, and the layout resumes. `rx` and `ry` are
        the `Math.random()` draws. */
    method Start(johnsons: seq<seq<StressDescent.Dist>>, rx: seq<real>, ry: seq<real>)
      returns (D: seq<seq<StressDescent.Dist>>)
      requires Valid()
      requires Covers(if |distanceMatrix| == |nodes| then distanceMatrix else johnsons, |nodes|)
      requires |rx| == |nodes| && |ry| == |nodes|
      requires forall i :: 0 <= i < |nodes| ==> 0.0 <= rx[i] < 1.0 && 0.0 <= ry[i] < 1.0
      modifies this, nodes
      ensures Valid() && nodes == old(nodes) && links == old(links)
      ensures linkDistance == old(linkDistance) && size == old(size) && lastStress == old(lastStress)
      ensures distanceMatrix == if |old(distanceMatrix)| == |nodes| then old(distanceMatrix) else johnsons
      ensures |D| == |nodes| && forall i :: 0 <= i < |nodes| ==> |D[i]| == |nodes|
      ensures forall i, j :: 0 <= i < |nodes| && 0 <= j < |nodes| ==>
                (D[i][j].Infinite? <==> distanceMatrix[i][j].Infinite?)
      ensures forall i, j :: 0 <= i < |nodes| && 0 <= j < |nodes| && distanceMatrix[i][j].Finite? ==>
                D[i][j].value == distanceMatrix[i][j].value * linkDistance
      ensures forall i :: 0 <= i < |nodes| ==>
                nodes[i].index == i && nodes[i].weight == 0 &&
                nodes[i].x == size.0 / 2.0 + 10.0 * rx[i] && nodes[i].y == size.1 / 2.0 + 10.0 * ry[i] &&
                nodes[i].px == old(nodes[i].px) && nodes[i].py == old(nodes[i].py) &&
                nodes[i].fixed == old(nodes[i].fixed)
      ensures descent != null && fresh(descent) && descent.Valid()
      ensures descent.n == |nodes| && descent.D == D
      ensures forall i :: 0 <= i < |nodes| ==>
                descent.x[0, i] == nodes[i].x && descent.x[1, i] == nodes[i].y
      ensures alpha == 0.1 && timers == if old(alpha) == 0.0 then old(timers) + 1 else old(timers)
    {
      IndexNodes(nodes);
      if |distanceMatrix| != |nodes| {
        distanceMatrix := johnsons;
      }
      D := ScaledDistances(distanceMatrix, linkDistance, |nodes|);
      var xs, ys := PlaceNodes(nodes, size.0, size.1, rx, ry);
      descent := new StressDescent.Descent(xs, ys, D);
      Resume();
    }
  }
}
