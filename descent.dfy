/**
 * The stress-majorisation descent engine of WebCola (class Descent).
 *
 * Positions are two coordinate rows [x, y] of n reals each. Ideal distances
 * D[u][v] are either finite or Infinity (disconnected nodes). The engine
 * computes the gradient g and the Hessian H of the layout stress
 *     sum over u < v with finite D[u][v] of (D[u][v] - |p_u - p_v|)^2 / D[u][v]^2,
 * a step size along a direction, and descent or fourth-order Runge-Kutta moves.
 *
 * Math.sqrt is a parameter `sqrt` that satisfies IsSqrt. The numbers are reals,
 * so IEEE infinities and NaN do not arise. Two cases in which the JavaScript
 * code would produce them (a zero ideal distance, coinciding points) are
 * excluded by preconditions. A third is not: with a single node,
 * computeDerivatives returns at once and leaves g and H unfilled, so the
 * JavaScript step makes every coordinate NaN. Here g and H hold unspecified
 * reals in that case instead.
 */
module StressDescent {

  /** One entry of the ideal-distance matrix: a finite number, or a value isFinite rejects. */
  datatype Dist = Finite(value: real) | Infinite

  /** Squared distances at or below this bound count as coinciding points. */
  const MinSqDist: real := 0.000000001

  /** `sqrt` behaves as Math.sqrt on the non-negative reals. */
  ghost predicate IsSqrt(sqrt: real -> real) {
    forall r: real :: r >= 0.0 ==> IsRoot(sqrt, r)
  }

  /** sqrt(r) is the non-negative square root of r. */
  ghost predicate IsRoot(sqrt: real -> real, r: real) {
    sqrt(r) >= 0.0 && sqrt(r) * sqrt(r) == r
  }

  /** D is n by n, and no two different nodes have a finite ideal distance of 0. */
  predicate DistancesOk(D: seq<seq<Dist>>, n: nat) {
    |D| == n && (forall u :: 0 <= u < n ==> |D[u]| == n) &&
    forall u, v :: 0 <= u < n && 0 <= v < n && u != v ==> D[u][v] != Finite(0.0)
  }

  /** Two coordinate rows of length n. */
  predicate Shape(pos: seq<seq<real>>, n: nat) {
    |pos| == 2 && |pos[0]| == n && |pos[1]| == n
  }

  /** The squared Euclidean distance between nodes u and v. */
  function SqDist(pos: seq<seq<real>>, n: nat, u: nat, v: nat): (r: real)
    requires Shape(pos, n) && u < n && v < n
    ensures r >= 0.0
    ensures u == v ==> r == 0.0
  {
    (pos[0][u] - pos[0][v]) * (pos[0][u] - pos[0][v]) + (pos[1][u] - pos[1][v]) * (pos[1][u] - pos[1][v])
  }

  /** No two different nodes are closer than the coincidence bound. */
  ghost predicate Apart(pos: seq<seq<real>>, n: nat) {
    Shape(pos, n) &&
    forall u, v :: 0 <= u < n && 0 <= v < n && u != v ==> SqDist(pos, n, u, v) > MinSqDist
  }

  /** Everything the derivative formulas need to be defined. */
  ghost predicate Ready(pos: seq<seq<real>>, n: nat, D: seq<seq<Dist>>, sqrt: real -> real) {
    Apart(pos, n) && DistancesOk(D, n) && IsSqrt(sqrt)
  }

  lemma SqrtPositive(sqrt: real -> real, s: real)
    requires IsSqrt(sqrt) && s > 0.0
    ensures sqrt(s) > 0.0
  {
    assert IsRoot(sqrt, s);
  }

  /** x squared. */
  function Sq(x: real): (r: real)
    ensures r >= 0.0
  {
    x * x
  }

  lemma SqPositive(x: real)
    requires x != 0.0
    ensures Sq(x) > 0.0
  {
    var z := 1.0 / x;
    assert Sq(x) * Sq(z) == (x * z) * (x * z);
  }

  lemma DivNonNegative(a: real, b: real)
    requires a >= 0.0 && b > 0.0
    ensures a / b >= 0.0
  {
  }

  lemma PositiveDenominators(dv: real, l: real)
    requires dv != 0.0 && l > 0.0
    ensures dv * dv > 0.0 && dv * dv * l > 0.0 && dv * dv * l * l * l > 0.0
  {
    assert dv * dv > 0.0;
    assert dv * dv * l > 0.0;
    assert dv * dv * l * l > 0.0;
  }

  /** The contribution of node v to the gradient entry g[i][u]. */
  ghost function GEntry(pos: seq<seq<real>>, n: nat, D: seq<seq<Dist>>, sqrt: real -> real,
                        i: nat, u: nat, v: nat): (r: real)
    requires Ready(pos, n, D, sqrt) && i < 2 && u < n && v < n && u != v
    ensures D[u][v] == Infinite ==> r == 0.0
  {
    match D[u][v]
    case Infinite => 0.0
    case Finite(dv) =>
      var sd2 := SqDist(pos, n, u, v);
      SqrtPositive(sqrt, sd2);
      var l := sqrt(sd2);
      PositiveDenominators(dv, l);
      (pos[i][u] - pos[i][v]) * ((l - dv) / (dv * dv * l))
  }

  /** The off-diagonal Hessian entry H[i][u][v]. */
  ghost function HEntry(pos: seq<seq<real>>, n: nat, D: seq<seq<Dist>>, sqrt: real -> real,
                        i: nat, u: nat, v: nat): (r: real)
    requires Ready(pos, n, D, sqrt) && i < 2 && u < n && v < n && u != v
    ensures D[u][v] == Infinite ==> r == 0.0
  {
    match D[u][v]
    case Infinite => 0.0
    case Finite(dv) =>
      var sd2 := SqDist(pos, n, u, v);
      SqrtPositive(sqrt, sd2);
      var l := sqrt(sd2);
      PositiveDenominators(dv, l);
      var di := pos[i][u] - pos[i][v];
      (-1.0 / (dv * dv * l * l * l)) * (dv * (di * di - sd2) + l * sd2)
  }

  /**
   * The entries of a connected pair, given the coordinate difference di, its
   * square d2i, the squared distance sd2, the distance l and the two scale
   * factors gs and hs as computeDerivatives forms them.
   */
  lemma PairEntries(pos: seq<seq<real>>, n: nat, D: seq<seq<Dist>>, sqrt: real -> real,
                    i: nat, u: nat, v: nat, dist: real, di: real, d2i: real, sd2: real, l: real, gs: real, hs: real)
    requires Ready(pos, n, D, sqrt) && i < 2 && u < n && v < n && u != v && D[u][v] == Finite(dist)
    requires di == pos[i][u] - pos[i][v] && d2i == di * di && sd2 == SqDist(pos, n, u, v) && l == sqrt(sd2)
    requires dist * dist * l != 0.0 && gs == (l - dist) / (dist * dist * l)
    requires dist * dist * l * l * l != 0.0 && hs == -1.0 / (dist * dist * l * l * l)
    ensures GEntry(pos, n, D, sqrt, i, u, v) == di * gs
    ensures HEntry(pos, n, D, sqrt, i, u, v) == hs * (dist * (d2i - sd2) + l * sd2)
  {
  }

  /** The sum of the gradient contributions of the nodes v < m other than u. */
  ghost function GradSum(pos: seq<seq<real>>, n: nat, D: seq<seq<Dist>>, sqrt: real -> real,
                         i: nat, u: nat, m: nat): real
    requires Ready(pos, n, D, sqrt) && i < 2 && u < n && m <= n
  {
    if m == 0 then 0.0
    else GradSum(pos, n, D, sqrt, i, u, m - 1) + (if m - 1 == u then 0.0 else GEntry(pos, n, D, sqrt, i, u, m - 1))
  }

  /** The sum of the off-diagonal Hessian entries H[i][u][v] over v < m. */
  ghost function RowSum(pos: seq<seq<real>>, n: nat, D: seq<seq<Dist>>, sqrt: real -> real,
                        i: nat, u: nat, m: nat): real
    requires Ready(pos, n, D, sqrt) && i < 2 && u < n && m <= n
  {
    if m == 0 then 0.0
    else RowSum(pos, n, D, sqrt, i, u, m - 1) + (if m - 1 == u then 0.0 else HEntry(pos, n, D, sqrt, i, u, m - 1))
  }

  /** The Hessian entry H[i][u][v]; the diagonal balances its row. */
  ghost function HFull(pos: seq<seq<real>>, n: nat, D: seq<seq<Dist>>, sqrt: real -> real,
                       i: nat, u: nat, v: nat): real
    requires Ready(pos, n, D, sqrt) && i < 2 && u < n && v < n
  {
    if u == v then -RowSum(pos, n, D, sqrt, i, u, n) else HEntry(pos, n, D, sqrt, i, u, v)
  }

  /** The sum of H[i][u][v] over all v < m, diagonal included. */
  ghost function RowTotal(pos: seq<seq<real>>, n: nat, D: seq<seq<Dist>>, sqrt: real -> real,
                          i: nat, u: nat, m: nat): real
    requires Ready(pos, n, D, sqrt) && i < 2 && u < n && m <= n
  {
    if m == 0 then 0.0 else RowTotal(pos, n, D, sqrt, i, u, m - 1) + HFull(pos, n, D, sqrt, i, u, m - 1)
  }

  lemma {:induction false} RowTotalPrefix(pos: seq<seq<real>>, n: nat, D: seq<seq<Dist>>, sqrt: real -> real,
                                          i: nat, u: nat, m: nat)
    requires Ready(pos, n, D, sqrt) && i < 2 && u < n && m <= n
    ensures RowTotal(pos, n, D, sqrt, i, u, m) ==
            RowSum(pos, n, D, sqrt, i, u, m) - (if u < m then RowSum(pos, n, D, sqrt, i, u, n) else 0.0)
  {
    if m > 0 {
      RowTotalPrefix(pos, n, D, sqrt, i, u, m - 1);
    }
  }

  /** Every row of the Hessian sums to zero (it is a graph Laplacian). */
  lemma LaplacianRows(pos: seq<seq<real>>, n: nat, D: seq<seq<Dist>>, sqrt: real -> real, i: nat, u: nat)
    requires Ready(pos, n, D, sqrt) && i < 2 && u < n
    ensures RowTotal(pos, n, D, sqrt, i, u, n) == 0.0
  {
    RowTotalPrefix(pos, n, D, sqrt, i, u, n);
  }

  /** A disconnected pair changes neither the gradient nor the Hessian row sums. */
  lemma {:induction false} DisconnectedIgnored(pos: seq<seq<real>>, n: nat, D: seq<seq<Dist>>, sqrt: real -> real,
                                               i: nat, u: nat, m: nat)
    requires Ready(pos, n, D, sqrt) && i < 2 && u < n && m <= n
    requires forall v :: 0 <= v < m && v != u ==> D[u][v] == Infinite
    ensures GradSum(pos, n, D, sqrt, i, u, m) == 0.0 && RowSum(pos, n, D, sqrt, i, u, m) == 0.0
  {
    if m > 0 {
      DisconnectedIgnored(pos, n, D, sqrt, i, u, m - 1);
    }
  }

  /** The gradient, as two rows. */
  ghost function Gradient(pos: seq<seq<real>>, n: nat, D: seq<seq<Dist>>, sqrt: real -> real): (G: seq<seq<real>>)
    requires Ready(pos, n, D, sqrt)
    ensures Shape(G, n)
  {
    seq(2, i requires 0 <= i < 2 => seq(n, u requires 0 <= u < n => GradSum(pos, n, D, sqrt, i, u, n)))
  }

  /** The Hessian, as two n by n matrices. */
  ghost function Hessian(pos: seq<seq<real>>, n: nat, D: seq<seq<Dist>>, sqrt: real -> real): (Hm: seq<seq<seq<real>>>)
    requires Ready(pos, n, D, sqrt)
    ensures Cubic(Hm, n)
  {
    seq(2, i requires 0 <= i < 2 =>
      seq(n, u requires 0 <= u < n => seq(n, v requires 0 <= v < n => HFull(pos, n, D, sqrt, i, u, v))))
  }

  /** Two n by n matrices. */
  predicate Cubic(Hm: seq<seq<seq<real>>>, n: nat) {
    |Hm| == 2 && |Hm[0]| == n && |Hm[1]| == n &&
    forall i, u :: 0 <= i < 2 && 0 <= u < n ==> |Hm[i][u]| == n
  }

  /** The dot product of a with the first |a| entries of b, summed from the last index down. */
  function Dot(a: seq<real>, b: seq<real>): real
    requires |a| <= |b|
  {
    if |a| == 0 then 0.0 else a[0] * b[0] + Dot(a[1..], b[1..])
  }

  /** The matrix-vector product M v. */
  function MatVec(M: seq<seq<real>>, v: seq<real>): (r: seq<real>)
    requires forall u :: 0 <= u < |M| ==> |M[u]| <= |v|
    ensures |r| == |M|
  {
    seq(|M|, u requires 0 <= u < |M| => Dot(M[u], v))
  }

  /** The sum over the dimensions j < i of g_j . d_j. */
  function Slope(G: seq<seq<real>>, d: seq<seq<real>>, n: nat, i: nat): real
    requires Shape(G, n) && Shape(d, n) && i <= 2
  {
    if i == 0 then 0.0 else Slope(G, d, n, i - 1) + Dot(G[i - 1], d[i - 1])
  }

  /** The sum over the dimensions j < i of d_j^T H_j d_j. */
  function CurvatureUpTo(Hm: seq<seq<seq<real>>>, d: seq<seq<real>>, n: nat, i: nat): real
    requires Cubic(Hm, n) && Shape(d, n) && i <= 2
  {
    if i == 0 then 0.0 else CurvatureUpTo(Hm, d, n, i - 1) + Dot(d[i - 1], MatVec(Hm[i - 1], d[i - 1]))
  }

  /** The optimal step along d: g.d / d^T H d, or 0 when the curvature is 0. */
  function StepSize(G: seq<seq<real>>, Hm: seq<seq<seq<real>>>, d: seq<seq<real>>, n: nat): real
    requires Shape(G, n) && Cubic(Hm, n) && Shape(d, n)
  {
    var denominator := CurvatureUpTo(Hm, d, n, 2);
    if denominator == 0.0 then 0.0 else Slope(G, d, n, 2) / denominator
  }

  /**
   * The step size solves the one-dimensional Newton equation along d: alpha
   * times the curvature d^T H d equals g.d, and it is 0 when the curvature is 0.
   */
  lemma StepSizeSolves(G: seq<seq<real>>, Hm: seq<seq<seq<real>>>, d: seq<seq<real>>, n: nat)
    requires Shape(G, n) && Cubic(Hm, n) && Shape(d, n)
    ensures var curvature := Dot(d[0], MatVec(Hm[0], d[0])) + Dot(d[1], MatVec(Hm[1], d[1]));
            (curvature == 0.0 ==> StepSize(G, Hm, d, n) == 0.0) &&
            (curvature != 0.0 ==> StepSize(G, Hm, d, n) * curvature == Dot(G[0], d[0]) + Dot(G[1], d[1]))
  {
    assert CurvatureUpTo(Hm, d, n, 1) == Dot(d[0], MatVec(Hm[0], d[0]));
    assert Slope(G, d, n, 1) == Dot(G[0], d[0]);
  }

  /** The coordinates xs each moved by -alpha times the matching entry of dir. */
  function Step(xs: seq<real>, dir: seq<real>, alpha: real): (r: seq<real>)
    requires |xs| <= |dir|
    ensures |r| == |xs|
  {
    seq(|xs|, u requires 0 <= u < |xs| => xs[u] - alpha * dir[u])
  }

  /** Every coordinate moved by -alpha times the matching entry of d. */
  function Descended(pos: seq<seq<real>>, d: seq<seq<real>>, alpha: real, n: nat): (r: seq<seq<real>>)
    requires Shape(pos, n) && Shape(d, n)
    ensures Shape(r, n)
  {
    [Step(pos[0], d[0], alpha), Step(pos[1], d[1], alpha)]
  }

  /** The positions after one descent step along the gradient. */
  ghost function NextPos(pos: seq<seq<real>>, n: nat, D: seq<seq<Dist>>, sqrt: real -> real): (r: seq<seq<real>>)
    requires Ready(pos, n, D, sqrt)
    ensures Shape(r, n)
  {
    var G := Gradient(pos, n, D, sqrt);
    Descended(pos, G, StepSize(G, Hessian(pos, n, D, sqrt), G, n), n)
  }

  /** The layout of a stage buffer: the x row followed by the y row. */
  function Joined(pos: seq<seq<real>>): (r: seq<real>)
    requires |pos| == 2
    ensures |r| == |pos[0]| + |pos[1]|
  {
    pos[0] + pos[1]
  }

  /** The two rows stored in the first 2n entries of a stage buffer. */
  function Halves(r: seq<real>, n: nat): (pos: seq<seq<real>>)
    requires 2 * n <= |r|
    ensures Shape(pos, n)
  {
    [r[..n], r[n..2 * n]]
  }

  /** Unsplitting and splitting are inverse to each other. */
  lemma SplitUnsplit(pos: seq<seq<real>>, r: seq<real>, n: nat)
    requires Shape(pos, n) && |r| == 2 * n
    ensures Halves(Joined(pos), n) == pos
    ensures Joined(Halves(r, n)) == r
  {
    assert Joined(pos)[..n] == pos[0];
    assert Joined(pos)[n..2 * n] == pos[1];
  }

  /** A stage buffer after one descent step. */
  ghost function NextFlat(r: seq<real>, n: nat, D: seq<seq<Dist>>, sqrt: real -> real): (r': seq<real>)
    requires |r| == 2 * n && Ready(Halves(r, n), n, D, sqrt)
    ensures |r'| == 2 * n
  {
    Joined(NextPos(Halves(r, n), n, D, sqrt))
  }

  /** The midpoints a[i] + (b[i] - a[i]) / 2. */
  function MidSeq(a: seq<real>, b: seq<real>): (m: seq<real>)
    requires |a| <= |b|
    ensures |m| == |a|
    ensures forall i :: 0 <= i < |a| ==> m[i] + m[i] == a[i] + b[i]
  {
    seq(|a|, i requires 0 <= i < |a| => a[i] + (b[i] - a[i]) / 2.0)
  }

  /** A midpoint lies between its two ends. */
  lemma MidBetween(a: seq<real>, b: seq<real>, i: nat)
    requires |a| <= |b| && i < |a|
    ensures a[i] <= b[i] ==> a[i] <= MidSeq(a, b)[i] <= b[i]
    ensures b[i] <= a[i] ==> b[i] <= MidSeq(a, b)[i] <= a[i]
  {
  }

  /**
   * The four Runge-Kutta stages from x0: a = next(x0), b = next(mid(x0, a)),
   * c = next(mid(x0, b)), d = next(c). Each stage's positions must be apart.
   */
  ghost predicate StagesApart(x0: seq<real>, n: nat, D: seq<seq<Dist>>, sqrt: real -> real) {
    |x0| == 2 * n && DistancesOk(D, n) && IsSqrt(sqrt) && Apart(Halves(x0, n), n) &&
    var a := NextFlat(x0, n, D, sqrt);
    var ia := MidSeq(x0, a);
    Apart(Halves(ia, n), n) &&
    var b := NextFlat(ia, n, D, sqrt);
    var ib := MidSeq(x0, b);
    Apart(Halves(ib, n), n) &&
    Apart(Halves(NextFlat(ib, n, D, sqrt), n), n)
  }

  /** The stress contribution of the pair u < v. */
  ghost function PairStress(pos: seq<seq<real>>, n: nat, D: seq<seq<Dist>>, sqrt: real -> real,
                            u: nat, v: nat): (r: real)
    requires Shape(pos, n) && DistancesOk(D, n) && u < v < n
    ensures D[u][v] == Infinite ==> r == 0.0
  {
    var l := sqrt(SqDist(pos, n, u, v));
    match D[u][v]
    case Infinite => 0.0
    case Finite(d) =>
      SqPositive(d);
      Sq(d - l) / Sq(d)
  }

  /** The stress of the pairs (u, v) with u < v < m. */
  ghost function RowStress(pos: seq<seq<real>>, n: nat, D: seq<seq<Dist>>, sqrt: real -> real,
                           u: nat, m: nat): real
    requires Shape(pos, n) && DistancesOk(D, n) && u < n && m <= n
  {
    if m <= u + 1 then 0.0 else RowStress(pos, n, D, sqrt, u, m - 1) + PairStress(pos, n, D, sqrt, u, m - 1)
  }

  /** The stress of the pairs (u, v) with u < m and u < v < n. */
  ghost function StressUpTo(pos: seq<seq<real>>, n: nat, D: seq<seq<Dist>>, sqrt: real -> real, m: nat): real
    requires Shape(pos, n) && DistancesOk(D, n) && m <= n
  {
    if m == 0 then 0.0 else StressUpTo(pos, n, D, sqrt, m - 1) + RowStress(pos, n, D, sqrt, m - 1, n)
  }

  /** The layout stress: every pair u < v with a finite ideal distance. */
  ghost function Stress(pos: seq<seq<real>>, n: nat, D: seq<seq<Dist>>, sqrt: real -> real): real
    requires Shape(pos, n) && DistancesOk(D, n)
  {
    StressUpTo(pos, n, D, sqrt, if n == 0 then 0 else n - 1)
  }

  /** Each pair's contribution is a square divided by a positive square. */
  lemma PairStressNonNegative(pos: seq<seq<real>>, n: nat, D: seq<seq<Dist>>, sqrt: real -> real, u: nat, v: nat)
    requires Shape(pos, n) && DistancesOk(D, n) && u < v < n
    ensures PairStress(pos, n, D, sqrt, u, v) >= 0.0
  {
    match D[u][v]
    case Infinite =>
    case Finite(d) =>
      var l := sqrt(SqDist(pos, n, u, v));
      SqPositive(d);
      DivNonNegative(Sq(d - l), Sq(d));
  }

  lemma {:induction false} RowStressNonNegative(pos: seq<seq<real>>, n: nat, D: seq<seq<Dist>>, sqrt: real -> real,
                                                u: nat, m: nat)
    requires Shape(pos, n) && DistancesOk(D, n) && u < n && m <= n
    ensures RowStress(pos, n, D, sqrt, u, m) >= 0.0
  {
    if m > u + 1 {
      RowStressNonNegative(pos, n, D, sqrt, u, m - 1);
      PairStressNonNegative(pos, n, D, sqrt, u, m - 1);
    }
  }

  /** The stress is never negative, whatever the positions. */
  lemma {:induction false} StressNonNegative(pos: seq<seq<real>>, n: nat, D: seq<seq<Dist>>, sqrt: real -> real, m: nat)
    requires Shape(pos, n) && DistancesOk(D, n) && m <= n
    ensures StressUpTo(pos, n, D, sqrt, m) >= 0.0
  {
    if m > 0 {
      StressNonNegative(pos, n, D, sqrt, m - 1);
      RowStressNonNegative(pos, n, D, sqrt, m - 1, n);
    }
  }

  /** A graph with no finite ideal distance has zero stress. */
  lemma {:induction false} DisconnectedStress(pos: seq<seq<real>>, n: nat, D: seq<seq<Dist>>, sqrt: real -> real, m: nat)
    requires Shape(pos, n) && DistancesOk(D, n) && m <= n
    requires forall u, v :: 0 <= u < v < n ==> D[u][v] == Infinite
    ensures StressUpTo(pos, n, D, sqrt, m) == 0.0
  {
    if m > 0 {
      DisconnectedStress(pos, n, D, sqrt, m - 1);
      DisconnectedRow(pos, n, D, sqrt, m - 1, n);
    }
  }

  lemma {:induction false} DisconnectedRow(pos: seq<seq<real>>, n: nat, D: seq<seq<Dist>>, sqrt: real -> real, u: nat, m: nat)
    requires Shape(pos, n) && DistancesOk(D, n) && u < n && m <= n
    requires forall v :: u < v < n ==> D[u][v] == Infinite
    ensures RowStress(pos, n, D, sqrt, u, m) == 0.0
  {
    if m > u + 1 {
      DisconnectedRow(pos, n, D, sqrt, u, m - 1);
    }
  }

  /** The sum of a sequence, from the first entry to the last. */
  function Sum(s: seq<real>): real {
    if |s| == 0 then 0.0 else Sum(s[..|s| - 1]) + s[|s| - 1]
  }

  lemma {:induction false} HessianRowPrefix(pos: seq<seq<real>>, n: nat, D: seq<seq<Dist>>, sqrt: real -> real,
                                            i: nat, u: nat, m: nat)
    requires Ready(pos, n, D, sqrt) && i < 2 && u < n && m <= n
    ensures Sum(Hessian(pos, n, D, sqrt)[i][u][..m]) == RowTotal(pos, n, D, sqrt, i, u, m)
  {
    var row := Hessian(pos, n, D, sqrt)[i][u];
    if m > 0 {
      HessianRowPrefix(pos, n, D, sqrt, i, u, m - 1);
      assert row[..m][..m - 1] == row[..m - 1];
    }
  }

  /** Each row of the Hessian, diagonal included, sums to zero. */
  lemma HessianRowsSumToZero(pos: seq<seq<real>>, n: nat, D: seq<seq<Dist>>, sqrt: real -> real, i: nat, u: nat)
    requires Ready(pos, n, D, sqrt) && i < 2 && u < n
    ensures Sum(Hessian(pos, n, D, sqrt)[i][u]) == 0.0
  {
    var row := Hessian(pos, n, D, sqrt)[i][u];
    HessianRowPrefix(pos, n, D, sqrt, i, u, n);
    assert row[..n] == row;
    LaplacianRows(pos, n, D, sqrt, i, u);
  }

  /** Row i of a two-dimensional array. */
  function Row(m: array2<real>, i: nat): (r: seq<real>)
    reads m
    requires i < m.Length0
    ensures |r| == m.Length1
  {
    seq(m.Length1, j requires 0 <= j < m.Length1 reads m => m[i, j])
  }

  /** The two rows of a 2 by n array. */
  function Rows(m: array2<real>): (pos: seq<seq<real>>)
    reads m
    requires m.Length0 == 2
    ensures Shape(pos, m.Length1)
  {
    [Row(m, 0), Row(m, 1)]
  }

  /** Row u of matrix i of a three-dimensional array. */
  function HRow(H: array3<real>, i: nat, u: nat): (r: seq<real>)
    reads H
    requires i < H.Length0 && u < H.Length1
    ensures |r| == H.Length2
  {
    seq(H.Length2, v requires 0 <= v < H.Length2 reads H => H[i, u, v])
  }

  /** Matrix i of a three-dimensional array. */
  function Mat(H: array3<real>, i: nat): (M: seq<seq<real>>)
    reads H
    requires i < H.Length0
    ensures |M| == H.Length1 && forall u :: 0 <= u < H.Length1 ==> |M[u]| == H.Length2
  {
    seq(H.Length1, u requires 0 <= u < H.Length1 reads H => HRow(H, i, u))
  }

  /** The two n by n matrices of a 2 by n by n array. */
  function Cube(H: array3<real>): (Hm: seq<seq<seq<real>>>)
    reads H
    requires H.Length0 == 2 && H.Length1 == H.Length2
    ensures Cubic(Hm, H.Length1)
  {
    [Mat(H, 0), Mat(H, 1)]
  }

  lemma RowsEqual(m: array2<real>, pos: seq<seq<real>>)
    requires m.Length0 == 2 && Shape(pos, m.Length1)
    requires forall i, u :: 0 <= i < 2 && 0 <= u < m.Length1 ==> m[i, u] == pos[i][u]
    ensures Rows(m) == pos
  {
    assert Rows(m)[0] == pos[0];
    assert Rows(m)[1] == pos[1];
  }

  lemma CubeEqual(H: array3<real>, Hm: seq<seq<seq<real>>>)
    requires H.Length0 == 2 && H.Length1 == H.Length2 && Cubic(Hm, H.Length1)
    requires forall i, u, v :: 0 <= i < 2 && 0 <= u < H.Length1 && 0 <= v < H.Length1 ==> H[i, u, v] == Hm[i][u][v]
    ensures Cube(H) == Hm
  {
    var C := Cube(H);
    forall i | 0 <= i < 2
      ensures C[i] == Hm[i]
    {
      forall u | 0 <= u < H.Length1
        ensures C[i][u] == Hm[i][u]
      {
        assert forall v :: 0 <= v < H.Length1 ==> C[i][u][v] == Hm[i][u][v];
      }
    }
  }

  /**
   * The descent engine. Every array is allocated once by the constructor and
   * overwritten by the operations: x holds the positions (row 0 is x, row 1 is
   * y), H and g the Hessian and gradient, Hd a matrix-vector product, x0, a, b,
   * c, d, ia and ib the Runge-Kutta stages (x row followed by y row), and tmp
   * the working positions xtmp (row 0) and ytmp (row 1).
   */
  class Descent {
    const D: seq<seq<Dist>>
    const n: nat
    const k: nat
    const x: array2<real>
    const H: array3<real>
    const g: array2<real>
    const Hd: array2<real>
    const x0: array<real>
    const a: array<real>
    const b: array<real>
    const c: array<real>
    const d: array<real>
    const ia: array<real>
    const ib: array<real>
    const tmp: array2<real>

    /** Every array has the dimensions its role needs. */
    ghost predicate Shaped() {
      k == 2 &&
      x.Length0 == k && x.Length1 == n && g.Length0 == k && g.Length1 == n &&
      Hd.Length0 == k && Hd.Length1 == n && tmp.Length0 == k && tmp.Length1 == n &&
      H.Length0 == k && H.Length1 == n && H.Length2 == n &&
      x0.Length == k * n && a.Length == k * n && b.Length == k * n && c.Length == k * n &&
      d.Length == k * n && ia.Length == k * n && ib.Length == k * n
    }

    /** The dimensions, and no two of the buffers are the same array. */
    ghost predicate Valid() {
      Shaped() &&
      x != g && x != Hd && x != tmp && g != Hd && g != tmp && Hd != tmp &&
      x0 != a && x0 != b && x0 != c && x0 != d && x0 != ia && x0 != ib &&
      a != b && a != c && a != d && a != ia && a != ib &&
      b != c && b != d && b != ia && b != ib &&
      c != d && c != ia && c != ib &&
      d != ia && d != ib && ia != ib
    }

    constructor(xs: seq<real>, ys: seq<real>, D: seq<seq<Dist>>)
      requires |ys| == |xs|
      ensures Valid() && n == |xs| && this.D == D
      ensures Rows(x) == [xs, ys]
    {
      var N := |xs|;
      var pos := new real[2, N];
      for i := 0 to N
        invariant forall j :: 0 <= j < i ==> pos[0, j] == xs[j] && pos[1, j] == ys[j]
      {
        pos[0, i] := xs[i];
        pos[1, i] := ys[i];
      }
      this.D := D;
      x := pos;
      k := 2;
      n := N;
      H := new real[2, N, N];
      g := new real[2, N];
      Hd := new real[2, N];
      x0 := new real[2 * N];
      a := new real[2 * N];
      b := new real[2 * N];
      c := new real[2 * N];
      d := new real[2 * N];
      ia := new real[2 * N];
      ib := new real[2 * N];
      tmp := new real[2, N];
      new;
      RowsEqual(pos, [xs, ys]);
    }

    /**
     * Fills g with the gradient and H with the Hessian of the stress at the
     * positions p. Nothing changes when there are fewer than two nodes.
     */
    method ComputeDerivatives(p: array2<real>, sqrt: real -> real)
      requires Shaped() && p.Length0 == 2 && p.Length1 == n && p != g
      requires Ready(Rows(p), n, D, sqrt)
      modifies H, g
      ensures n <= 1 ==> unchanged(H) && unchanged(g)
      ensures n > 1 ==> Rows(g) == Gradient(Rows(p), n, D, sqrt)
      ensures n > 1 ==> Cube(H) == Hessian(Rows(p), n, D, sqrt)
    {
      if n <= 1 {
        return;
      }
      ghost var pos := Rows(p);
      for u := 0 to n
        invariant forall i, w, v :: 0 <= i < 2 && 0 <= w < u && 0 <= v < n ==>
                    H[i, w, v] == HFull(pos, n, D, sqrt, i, w, v)
        invariant forall i, w :: 0 <= i < 2 && 0 <= w < u ==> g[i, w] == GradSum(pos, n, D, sqrt, i, w, n)
      {
        ComputeRow(p, pos, u, sqrt);
      }
      RowsEqual(g, Gradient(pos, n, D, sqrt));
      CubeEqual(H, Hessian(pos, n, D, sqrt));
    }

    /** Fills row u of g and of both Hessian matrices; the other rows stay as they are. */
    method ComputeRow(p: array2<real>, ghost pos: seq<seq<real>>, u: nat, sqrt: real -> real)
      requires Shaped() && p.Length0 == 2 && p.Length1 == n && p != g && pos == Rows(p)
      requires Ready(pos, n, D, sqrt) && u < n
      modifies H, g
      ensures forall i :: 0 <= i < 2 ==> g[i, u] == GradSum(pos, n, D, sqrt, i, u, n)
      ensures forall i, v :: 0 <= i < 2 && 0 <= v < n ==> H[i, u, v] == HFull(pos, n, D, sqrt, i, u, v)
      ensures forall i, w :: 0 <= i < 2 && 0 <= w < n && w != u ==> g[i, w] == old(g[i, w])
      ensures forall i, w, v :: 0 <= i < 2 && 0 <= w < n && w != u && 0 <= v < n ==> H[i, w, v] == old(H[i, w, v])
    {
      hide GEntry, HEntry;
      var huu0, huu1 := 0.0, 0.0;
      g[0, u] := 0.0;
      g[1, u] := 0.0;
      for v := 0 to n
        invariant forall i, w :: 0 <= i < 2 && 0 <= w < n && w != u ==> g[i, w] == old(g[i, w])
        invariant forall i, w, v' :: 0 <= i < 2 && 0 <= w < n && w != u && 0 <= v' < n ==> H[i, w, v'] == old(H[i, w, v'])
        invariant RowState(pos, sqrt, u, v, huu0, huu1)
      {
        huu0, huu1 := VisitPair(p, pos, u, v, sqrt, huu0, huu1);
      }
      H[0, u, u] := huu0;
      H[1, u, u] := huu1;
    }

    /** Entries v' < v of row u of both Hessian matrices are filled in (the diagonal aside). */
    ghost predicate RowFilled(pos: seq<seq<real>>, sqrt: real -> real, u: nat, v: nat)
      reads H
      requires Shaped() && Ready(pos, n, D, sqrt) && u < n && v <= n
    {
      forall w :: 0 <= w < v && w != u ==>
        H[0, u, w] == HEntry(pos, n, D, sqrt, 0, u, w) && H[1, u, w] == HEntry(pos, n, D, sqrt, 1, u, w)
    }

    /**
     * Row u filled up to column v: the gradient entries and the running
     * diagonal entries hold the sums over the columns before v.
     */
    ghost predicate RowState(pos: seq<seq<real>>, sqrt: real -> real, u: nat, v: nat, huu0: real, huu1: real)
      reads H, g
      requires Shaped() && Ready(pos, n, D, sqrt) && u < n && v <= n
    {
      g[0, u] == GradSum(pos, n, D, sqrt, 0, u, v) && g[1, u] == GradSum(pos, n, D, sqrt, 1, u, v) &&
      huu0 == -RowSum(pos, n, D, sqrt, 0, u, v) && huu1 == -RowSum(pos, n, D, sqrt, 1, u, v) &&
      RowFilled(pos, sqrt, u, v)
    }

    /**
     * Visits node v while filling row u: a connected pair goes through
     * AccumulatePair, a disconnected one gets zero Hessian entries, and u itself
     * is skipped. huu0 and huu1 are the running diagonal entries.
     */
    method VisitPair(p: array2<real>, ghost pos: seq<seq<real>>, u: nat, v: nat, sqrt: real -> real,
                     huu0: real, huu1: real) returns (huu0': real, huu1': real)
      requires Shaped() && p.Length0 == 2 && p.Length1 == n && p != g && pos == Rows(p)
      requires Ready(pos, n, D, sqrt) && u < n && v < n && RowState(pos, sqrt, u, v, huu0, huu1)
      modifies H, g
      ensures RowState(pos, sqrt, u, v + 1, huu0', huu1')
      ensures forall i, w :: 0 <= i < 2 && 0 <= w < n && w != u ==> g[i, w] == old(g[i, w])
      ensures forall i, w, w' :: 0 <= i < 2 && 0 <= w < n && w != u && 0 <= w' < n ==> H[i, w, w'] == old(H[i, w, w'])
    {
      hide GEntry, HEntry;
      huu0', huu1' := huu0, huu1;
      if u != v {
        match D[u][v] {
          case Infinite =>
            H[0, u, v] := 0.0;
            H[1, u, v] := 0.0;
          case Finite(dist) =>
            var h0, h1 := AccumulatePair(p, pos, u, v, dist, sqrt);
            huu0' := huu0 - h0;
            huu1' := huu1 - h1;
        }
      }
    }

    /**
     * The contribution of a connected pair (u, v) to row u: adds to g[0][u] and
     * g[1][u], sets H[0][u][v] and H[1][u][v] and returns those two entries.
     */
    method AccumulatePair(p: array2<real>, ghost pos: seq<seq<real>>, u: nat, v: nat, dist: real, sqrt: real -> real)
      returns (h0: real, h1: real)
      requires Shaped() && p.Length0 == 2 && p.Length1 == n && p != g && pos == Rows(p)
      requires Ready(pos, n, D, sqrt) && u < n && v < n && u != v && D[u][v] == Finite(dist)
      modifies H, g
      ensures g[0, u] == old(g[0, u]) + GEntry(pos, n, D, sqrt, 0, u, v)
      ensures g[1, u] == old(g[1, u]) + GEntry(pos, n, D, sqrt, 1, u, v)
      ensures h0 == HEntry(pos, n, D, sqrt, 0, u, v) && H[0, u, v] == h0
      ensures h1 == HEntry(pos, n, D, sqrt, 1, u, v) && H[1, u, v] == h1
      ensures forall i, w :: 0 <= i < 2 && 0 <= w < n && w != u ==> g[i, w] == old(g[i, w])
      ensures forall i, w, w' :: 0 <= i < 2 && 0 <= w < n && w != u && 0 <= w' < n ==> H[i, w, w'] == old(H[i, w, w'])
      ensures forall i, w' :: 0 <= i < 2 && 0 <= w' < n && w' != v ==> H[i, u, w'] == old(H[i, u, w'])
    {
      hide GEntry, HEntry;
      var dx := p[0, u] - p[0, v];
      var dy := p[1, u] - p[1, v];
      var d2x := dx * dx;
      var d2y := dy * dy;
      var sd2 := d2x + d2y;
      // The points are apart, so the perturbation loop of the source ends at once.
      assert sd2 == SqDist(pos, n, u, v);
      var l := sqrt(sd2);
      SqrtPositive(sqrt, sd2);
      PositiveDenominators(dist, l);
      var gs := (l - dist) / (dist * dist * l);
      var hs := -1.0 / (dist * dist * l * l * l);
      h0 := hs * (dist * (d2x - sd2) + l * sd2);
      h1 := hs * (dist * (d2y - sd2) + l * sd2);
      PairEntries(pos, n, D, sqrt, 0, u, v, dist, dx, d2x, sd2, l, gs, hs);
      PairEntries(pos, n, D, sqrt, 1, u, v, dist, dy, d2y, sd2, l, gs, hs);
      g[0, u] := g[0, u] + dx * gs;
      H[0, u, v] := h0;
      g[1, u] := g[1, u] + dy * gs;
      H[1, u, v] := h1;
    }

    /** The dot product of p and q, accumulated from the last index down. */
    static method DotProd(p: seq<real>, q: seq<real>) returns (s: real)
      requires |p| <= |q|
      ensures s == Dot(p, q)
    {
      s := 0.0;
      var i := |p|;
      while i > 0
        invariant 0 <= i <= |p|
        invariant s == Dot(p[i..], q[i..])
      {
        i := i - 1;
        assert p[i..][1..] == p[i + 1..] && q[i..][1..] == q[i + 1..];
        s := s + p[i] * q[i];
      }
      assert p[0..] == p && q[0..] == q;
    }

    /** Sets row i of Hd to H[i] v, filling the entries from the last down. */
    method RightMultiply(i: nat, v: seq<real>)
      requires Shaped() && i < 2 && |v| == n
      modifies Hd
      ensures Row(Hd, i) == MatVec(Mat(H, i), v)
      ensures Row(Hd, 1 - i) == old(Row(Hd, 1 - i))
    {
      ghost var other := 1 - i;
      var r := n;
      while r > 0
        invariant 0 <= r <= n
        invariant forall u :: r <= u < n ==> Hd[i, u] == Dot(HRow(H, i, u), v)
        invariant forall u :: 0 <= u < n ==> Hd[other, u] == old(Hd[other, u])
      {
        r := r - 1;
        var s := DotProd(HRow(H, i, r), v);
        Hd[i, r] := s;
      }
      assert forall u :: 0 <= u < n ==> Row(Hd, i)[u] == MatVec(Mat(H, i), v)[u];
      assert forall u :: 0 <= u < n ==> Row(Hd, other)[u] == old(Row(Hd, other))[u];
    }

    /**
     * The step size along dir: g.dir / dir^T H dir, or 0 when the curvature
     * term is 0. Leaves H[i] dir[i] in row i of Hd.
     */
    method ComputeStepSize(dir: array2<real>) returns (step: real)
      requires Shaped() && dir.Length0 == 2 && dir.Length1 == n && dir != Hd && g != Hd
      modifies Hd
      ensures forall i :: 0 <= i < 2 ==> Row(Hd, i) == MatVec(Mat(H, i), Row(dir, i))
      ensures step == StepSize(Rows(g), Cube(H), Rows(dir), n)
    {
      hide Dot, MatVec, HRow;
      var numerator, denominator := 0.0, 0.0;
      ghost var G, Hm, dd := Rows(g), Cube(H), Rows(dir);
      for i := 0 to 2
        invariant forall j :: 0 <= j < i ==> Row(Hd, j) == MatVec(Hm[j], dd[j])
        invariant numerator == Slope(G, dd, n, i)
        invariant denominator == CurvatureUpTo(Hm, dd, n, i)
      {
        var gd := DotProd(Row(g, i), Row(dir, i));
        numerator := numerator + gd;
        RightMultiply(i, Row(dir, i));
        var dHd := DotProd(Row(dir, i), Row(Hd, i));
        denominator := denominator + dHd;
      }
      if denominator == 0.0 {
        return 0.0;
      }
      return numerator / denominator;
    }

    /** Moves row `row` of xs by -stepSize times dir; the other rows stay as they are. */
    method TakeDescentStep(xs: array2<real>, row: nat, dir: seq<real>, stepSize: real)
      requires row < xs.Length0 && xs.Length1 == n && |dir| == n
      modifies xs
      ensures Row(xs, row) == Step(old(Row(xs, row)), dir, stepSize)
      ensures forall j :: 0 <= j < xs.Length0 && j != row ==> Row(xs, j) == old(Row(xs, j))
    {
      ghost var before := Row(xs, row);
      for u := 0 to n
        invariant forall w :: 0 <= w < u ==> xs[row, w] == before[w] - stepSize * dir[w]
        invariant forall w :: u <= w < n ==> xs[row, w] == before[w]
        invariant forall j, w :: 0 <= j < xs.Length0 && j != row && 0 <= w < n ==> xs[j, w] == old(xs[j, w])
      {
        xs[row, u] := xs[row, u] - stepSize * dir[u];
      }
      assert forall w :: 0 <= w < n ==> Row(xs, row)[w] == Step(before, dir, stepSize)[w];
      forall j | 0 <= j < xs.Length0 && j != row
        ensures Row(xs, j) == old(Row(xs, j))
      {
        assert forall w :: 0 <= w < n ==> Row(xs, j)[w] == old(Row(xs, j))[w];
      }
    }

    /** Copies the first half of src into row 0 of dst and the second half into row 1. */
    static method Split(src: array<real>, dst: array2<real>)
      requires dst.Length0 == 2 && 2 * dst.Length1 <= src.Length
      modifies dst
      ensures Rows(dst) == Halves(src[..], dst.Length1)
    {
      var n := dst.Length1;
      for i := 0 to n
        invariant forall j :: 0 <= j < i ==> dst[0, j] == src[j] && dst[1, j] == src[j + n]
      {
        dst[0, i] := src[i];
        dst[1, i] := src[i + n];
      }
      RowsEqual(dst, Halves(src[..], n));
    }

    /** Copies row 0 of src into the first n entries of r and row 1 into the next n. */
    static method Unsplit(src: array2<real>, r: array<real>)
      requires src.Length0 == 2 && 2 * src.Length1 <= r.Length
      modifies r
      ensures r[..2 * src.Length1] == Joined(Rows(src))
      ensures r[2 * src.Length1..] == old(r[2 * src.Length1..])
    {
      var n := src.Length1;
      for i := 0 to n
        invariant forall j :: 0 <= j < i ==> r[j] == src[0, j] && r[j + n] == src[1, j]
        invariant forall j :: 2 * n <= j < r.Length ==> r[j] == old(r[j])
      {
        r[i] := src[0, i];
        r[i + n] := src[1, i];
      }
    }

    /** m[i] := p[i] + (q[i] - p[i]) / 2 for every index of p. */
    static method Mid(p: array<real>, q: array<real>, m: array<real>)
      requires p.Length <= q.Length && p.Length <= m.Length
      modifies m
      ensures m[..p.Length] == MidSeq(old(p[..]), old(q[..]))
      ensures m[p.Length..] == old(m[p.Length..])
    {
      var n := p.Length;
      for i := 0 to n
        invariant forall j :: 0 <= j < i ==> m[j] == old(p[j]) + (old(q[j]) - old(p[j])) / 2.0
        invariant forall j :: i <= j < p.Length ==> p[j] == old(p[j])
        invariant forall j :: i <= j < q.Length ==> q[j] == old(q[j])
        invariant forall j :: i <= j < m.Length ==> m[j] == old(m[j])
      {
        m[i] := p[i] + (q[i] - p[i]) / 2.0;
      }
    }

    /**
     * One descent step on the positions p: the gradient and the Hessian are
     * taken at p and every row moves by -alpha times its gradient row, alpha
     * being the step size along the gradient.
     */
    method DescentStep(p: array2<real>, sqrt: real -> real) returns (ghost alpha: real)
      requires Shaped() && p.Length0 == 2 && p.Length1 == n && p != g && p != Hd && g != Hd
      requires Ready(Rows(p), n, D, sqrt)
      modifies p, H, g, Hd
      ensures alpha == StepSize(Rows(g), Cube(H), Rows(g), n)
      ensures Rows(p) == Descended(old(Rows(p)), Rows(g), alpha, n)
      ensures n > 1 ==> Rows(g) == Gradient(old(Rows(p)), n, D, sqrt)
      ensures n > 1 ==> Cube(H) == Hessian(old(Rows(p)), n, D, sqrt)
    {
      ComputeDerivatives(p, sqrt);
      var step := ComputeStepSize(g);
      alpha := step;
      MoveRows(p, step);
    }

    /** Moves every row of p by -step times the matching gradient row. */
    method MoveRows(p: array2<real>, step: real)
      requires Shaped() && p.Length0 == 2 && p.Length1 == n && p != g
      modifies p
      ensures Rows(p) == Descended(old(Rows(p)), Rows(g), step, n)
    {
      ghost var start, G := Rows(p), Rows(g);
      for i := 0 to k
        invariant forall j :: 0 <= j < i ==> Row(p, j) == Step(start[j], G[j], step)
        invariant forall j :: i <= j < 2 ==> Row(p, j) == start[j]
      {
        TakeDescentStep(p, i, Row(g, i), step);
      }
      assert Rows(p) == Descended(start, G, step, n);
    }

    /** One descent step from the stage buffer src into the stage buffer r. */
    method ComputeNextPosition(src: array<real>, r: array<real>, sqrt: real -> real) returns (ghost alpha: real)
      requires Shaped() && tmp != g && tmp != Hd && g != Hd
      requires src.Length == 2 * n && r.Length == 2 * n && src != r
      requires Ready(Halves(src[..], n), n, D, sqrt)
      modifies tmp, H, g, Hd, r
      ensures alpha == StepSize(Rows(g), Cube(H), Rows(g), n)
      ensures r[..] == Joined(Descended(Halves(src[..], n), Rows(g), alpha, n))
      ensures n > 1 ==> r[..] == NextFlat(src[..], n, D, sqrt)
    {
      Split(src, tmp);
      alpha := DescentStep(tmp, sqrt);
      Unsplit(tmp, r);
      assert r[..] == r[..2 * n];
    }

    /**
     * The four Runge-Kutta stages from x0: a, then ia midway between x0 and a,
     * b from ia, ib midway between x0 and b, c from ib and d from c.
     */
    method ComputeStages(sqrt: real -> real)
      requires Valid() && DistancesOk(D, n) && IsSqrt(sqrt)
      requires n > 1 ==> StagesApart(x0[..], n, D, sqrt)
      modifies a, b, c, d, ia, ib, tmp, H, g, Hd
      ensures ia[..] == MidSeq(x0[..], a[..]) && ib[..] == MidSeq(x0[..], b[..])
      ensures n > 1 ==> a[..] == NextFlat(x0[..], n, D, sqrt) && b[..] == NextFlat(ia[..], n, D, sqrt) &&
                        c[..] == NextFlat(ib[..], n, D, sqrt) && d[..] == NextFlat(c[..], n, D, sqrt)
    {
      hide NextFlat;
      FirstStages(sqrt);
      SecondStages(sqrt);
    }

    /** The stages a and b, with the midpoints ia and ib they start from. */
    method FirstStages(sqrt: real -> real)
      requires Valid() && DistancesOk(D, n) && IsSqrt(sqrt)
      requires n > 1 ==> StagesApart(x0[..], n, D, sqrt)
      modifies a, b, ia, ib, tmp, H, g, Hd
      ensures ia[..] == MidSeq(x0[..], a[..]) && ib[..] == MidSeq(x0[..], b[..])
      ensures n > 1 ==> a[..] == NextFlat(x0[..], n, D, sqrt) && b[..] == NextFlat(ia[..], n, D, sqrt)
    {
      hide NextFlat;
      ghost var _ := ComputeNextPosition(x0, a, sqrt);
      Mid(x0, a, ia);
      assert ia[..] == ia[..x0.Length];
      ghost var _ := ComputeNextPosition(ia, b, sqrt);
      Mid(x0, b, ib);
      assert ib[..] == ib[..x0.Length];
    }

    /** The stages c, taken from ib, and d, taken from c. */
    method SecondStages(sqrt: real -> real)
      requires Valid() && DistancesOk(D, n) && IsSqrt(sqrt)
      requires n > 1 ==> Apart(Halves(ib[..], n), n) && Apart(Halves(NextFlat(ib[..], n, D, sqrt), n), n)
      modifies c, d, tmp, H, g, Hd
      ensures n > 1 ==> c[..] == NextFlat(ib[..], n, D, sqrt) && d[..] == NextFlat(c[..], n, D, sqrt)
    {
      hide NextFlat;
      ghost var _ := ComputeNextPosition(ib, c, sqrt);
      ghost var _ := ComputeNextPosition(c, d, sqrt);
    }

    /**
     * One fourth-order Runge-Kutta step: each coordinate becomes
     * (a + 2b + 2c + d) / 6 of the four stages; returns the new stress.
     */
    method RungeKutta(sqrt: real -> real) returns (stress: real)
      requires Valid() && DistancesOk(D, n) && IsSqrt(sqrt)
      requires n > 1 ==> StagesApart(Joined(Rows(x)), n, D, sqrt)
      modifies x, x0, a, b, c, d, ia, ib, tmp, H, g, Hd
      ensures x0[..] == Joined(old(Rows(x)))
      ensures ia[..] == MidSeq(x0[..], a[..]) && ib[..] == MidSeq(x0[..], b[..])
      ensures n > 1 ==> a[..] == NextFlat(x0[..], n, D, sqrt) && b[..] == NextFlat(ia[..], n, D, sqrt) &&
                        c[..] == NextFlat(ib[..], n, D, sqrt) && d[..] == NextFlat(c[..], n, D, sqrt)
      ensures forall i :: 0 <= i < n ==>
                x[0, i] == (a[i] + 2.0 * b[i] + 2.0 * c[i] + d[i]) / 6.0 &&
                x[1, i] == (a[i + n] + 2.0 * b[i + n] + 2.0 * c[i + n] + d[i + n]) / 6.0
      ensures stress == Stress(Rows(x), n, D, sqrt)
    {
      Unsplit(x, x0);
      assert x0[..] == x0[..2 * n];
      ComputeStages(sqrt);
      CombineStages();
      stress := ComputeStress(sqrt);
    }

    /** Sets every coordinate to (a + 2b + 2c + d) / 6 of the four stages. */
    method CombineStages()
      requires Shaped()
      modifies x
      ensures forall i :: 0 <= i < n ==>
                x[0, i] == (a[i] + 2.0 * b[i] + 2.0 * c[i] + d[i]) / 6.0 &&
                x[1, i] == (a[i + n] + 2.0 * b[i + n] + 2.0 * c[i + n] + d[i + n]) / 6.0
    {
      for i := 0 to n
        invariant forall w :: 0 <= w < i ==>
                    x[0, w] == (a[w] + 2.0 * b[w] + 2.0 * c[w] + d[w]) / 6.0 &&
                    x[1, w] == (a[w + n] + 2.0 * b[w + n] + 2.0 * c[w + n] + d[w + n]) / 6.0
      {
        x[0, i] := (a[i] + 2.0 * b[i] + 2.0 * c[i] + d[i]) / 6.0;
        var j := i + n;
        x[1, i] := (a[j] + 2.0 * b[j] + 2.0 * c[j] + d[j]) / 6.0;
      }
    }

    /** One gradient-descent step on the positions; returns the new stress. */
    method ReduceStress(sqrt: real -> real) returns (stress: real, ghost alpha: real)
      requires Valid() && Ready(Rows(x), n, D, sqrt)
      modifies x, H, g, Hd
      ensures alpha == StepSize(Rows(g), Cube(H), Rows(g), n)
      ensures Rows(x) == Descended(old(Rows(x)), Rows(g), alpha, n)
      ensures n > 1 ==> Rows(g) == Gradient(old(Rows(x)), n, D, sqrt)
      ensures n > 1 ==> Cube(H) == Hessian(old(Rows(x)), n, D, sqrt)
      ensures stress == Stress(Rows(x), n, D, sqrt)
    {
      alpha := DescentStep(x, sqrt);
      stress := ComputeStress(sqrt);
    }

    /** The stress of the current positions: pairs u < v with a finite ideal distance. */
    method ComputeStress(sqrt: real -> real) returns (stress: real)
      requires x.Length0 == 2 && x.Length1 == n && DistancesOk(D, n)
      ensures stress == Stress(Rows(x), n, D, sqrt)
    {
      hide PairStress;
      ghost var pos := Rows(x);
      stress := 0.0;
      var nMinus1: int := n - 1;
      var u := 0;
      while u < nMinus1
        invariant 0 <= u && (u <= nMinus1 || u == 0)
        invariant stress == StressUpTo(pos, n, D, sqrt, u)
      {
        var row := RowTerms(pos, u, sqrt);
        stress := stress + row;
        u := u + 1;
      }
    }

    /** The stress of the pairs (u, v) with u < v < n, summed in increasing order of v. */
    method RowTerms(ghost pos: seq<seq<real>>, u: nat, sqrt: real -> real) returns (row: real)
      requires x.Length0 == 2 && x.Length1 == n && DistancesOk(D, n)
      requires pos == Rows(x) && u < n
      ensures row == RowStress(pos, n, D, sqrt, u, n)
    {
      hide PairStress;
      row := 0.0;
      var v := u + 1;
      while v < n
        invariant u + 1 <= v <= n
        invariant row == RowStress(pos, n, D, sqrt, u, v)
      {
        var term := PairTerm(pos, u, v, sqrt);
        row := row + term;
        v := v + 1;
      }
    }

    /** The stress of the pair u < v at the current positions; 0 when D[u][v] is infinite. */
    method PairTerm(ghost pos: seq<seq<real>>, u: nat, v: nat, sqrt: real -> real) returns (term: real)
      requires x.Length0 == 2 && x.Length1 == n && DistancesOk(D, n)
      requires pos == Rows(x) && u < v < n
      ensures term == PairStress(pos, n, D, sqrt, u, v)
    {
      var dx, dy := x[0, u] - x[0, v], x[1, u] - x[1, v];
      assert dx * dx + dy * dy == SqDist(pos, n, u, v);
      var l := sqrt(dx * dx + dy * dy);
      term := 0.0;
      match D[u][v] {
        case Infinite =>
        case Finite(dist) =>
          var d2 := dist * dist;
          var rl := dist - l;
          SqPositive(dist);
          term := rl * rl / d2;
      }
    }
  }
}
