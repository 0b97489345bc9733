/** The planar helpers of the geom module: the orientation test `isLeft`,
    Andrew's monotone-chain convex hull, cyclic stepping round a polygon and
    the brute-force bitangent classification of two polygons. */
module Geom {
  import opened Wrappers

  /** `geom.Point`; coordinates are exact reals. */
  datatype Point = Point(x: real, y: real)

  /** `isLeft(P0, P1, P2)`: twice the signed area of the triangle P0 P1 P2,
      positive when P2 lies left of the line through P0 and P1, 0 when on it. */
  function IsLeft(p0: Point, p1: Point, p2: Point): real {
    (p1.x - p0.x) * (p2.y - p0.y) - (p2.x - p0.x) * (p1.y - p0.y)
  }

  /** Swapping the last two points flips the sign. */
  lemma IsLeftSwap(p0: Point, p1: Point, p2: Point)
    ensures IsLeft(p0, p2, p1) == -IsLeft(p0, p1, p2)
  {
  }

  /** A point that is one of the two defining points of the line lies on it. */
  lemma IsLeftOnLine(p0: Point, p1: Point)
    ensures IsLeft(p0, p1, p0) == 0.0 && IsLeft(p0, p1, p1) == 0.0
  {
  }

  /** `above(p, vi, vj)`: vj lies strictly left of the line p vi. */
  predicate Above(p: Point, vi: Point, vj: Point) {
    IsLeft(p, vi, vj) > 0.0
  }

  /** `below(p, vi, vj)`: vj lies strictly right of the line p vi. */
  predicate Below(p: Point, vi: Point, vj: Point) {
    IsLeft(p, vi, vj) < 0.0
  }

  /** `above` and `below` are the same test with the last two points swapped,
      and no triple is both. */
  lemma AboveBelowSwap(p: Point, vi: Point, vj: Point)
    ensures Above(p, vi, vj) <==> Below(p, vj, vi)
    ensures !(Above(p, vi, vj) && Below(p, vi, vj))
  {
    IsLeftSwap(p, vi, vj);
  }

  // ---------------------------------------------------------------------
  // The sort that starts `ConvexHull`

  /** The order of `ConvexHull`'s comparator: descending x, then descending y. */
  predicate Before(a: Point, b: Point) {
    a.x > b.x || (a.x == b.x && a.y >= b.y)
  }

  predicate SortedPoints(s: seq<Point>) {
    forall i, j :: 0 <= i < j < |s| ==> Before(s[i], s[j])
  }

  /** Insert `p` into the sorted `s` before the first point it may precede. */
  function InsertPoint(p: Point, s: seq<Point>): (r: seq<Point>)
    requires SortedPoints(s)
    ensures SortedPoints(r)
    ensures multiset(r) == multiset(s) + multiset{p}
    ensures |r| == |s| + 1
    ensures forall q :: q in r ==> q == p || q in s
  {
    if s == [] || Before(p, s[0]) then [p] + s
    else
      var rest := InsertPoint(p, s[1..]);
      assert s == [s[0]] + s[1..];
      assert forall j :: 0 <= j < |rest| ==> Before(s[0], rest[j]) by {
        forall j | 0 <= j < |rest| ensures Before(s[0], rest[j]) {
          assert rest[j] in rest;
        }
      }
      [s[0]] + rest
  }

  /** `S.slice(0).sort(…)`: a sorted permutation of the points (the library
      sort itself is not part of this model). */
  function SortPoints(s: seq<Point>): (r: seq<Point>)
    ensures SortedPoints(r)
    ensures multiset(r) == multiset(s)
    ensures |r| == |s|
  {
    if s == [] then []
    else
      assert s == [s[0]] + s[1..];
      InsertPoint(s[0], SortPoints(s[1..]))
  }

  /** The first sorted point comes before every input point, and every sorted
      point is an input point. */
  lemma SortedFirst(S: seq<Point>)
    requires |S| > 0
    ensures forall s :: s in S ==> Before(SortPoints(S)[0], s)
    ensures forall k :: 0 <= k < |S| ==> SortPoints(S)[k] in S
  {
    var P := SortPoints(S);
    forall s | s in S ensures Before(P[0], s) {
      assert s in multiset(S);
      assert s in multiset(P);
      var j :| 0 <= j < |P| && P[j] == s;
    }
    forall k | 0 <= k < |S| ensures P[k] in S {
      assert P[k] in multiset(P);
    }
  }

  // ---------------------------------------------------------------------
  // ConvexHull

  /** The stack `H` holds the sorted points at the (ghost) indices `idx`. */
  ghost predicate Stacked(P: seq<Point>, H: seq<Point>, idx: seq<nat>) {
    |idx| == |H| && forall k :: 0 <= k < |H| ==> idx[k] < |P| && H[k] == P[idx[k]]
  }

  /** Every point of `H` from index `from` on makes a strict left turn with
      the two points below it on the stack. */
  ghost predicate LeftTurns(H: seq<Point>, from: nat) {
    forall k :: from <= k < |H| && 2 <= k ==> IsLeft(H[k - 2], H[k - 1], H[k]) > 0.0
  }

  /** Cutting the stack down to its first `m` entries keeps both properties. */
  lemma StackPrefix(P: seq<Point>, H: seq<Point>, idx: seq<nat>, m: nat, from: nat)
    requires Stacked(P, H, idx) && LeftTurns(H, from) && m <= |H|
    ensures Stacked(P, H[..m], idx[..m]) && LeftTurns(H[..m], from)
  {
  }

  /** Pushing `P[i]` keeps the stack over `P`, and keeps the left turns when
      the new top sits below `from` or turns left. */
  lemma StackPush(P: seq<Point>, H: seq<Point>, idx: seq<nat>, i: nat, from: nat)
    requires Stacked(P, H, idx) && LeftTurns(H, from) && i < |P|
    requires |H| < from || |H| < 2 || IsLeft(H[|H| - 2], H[|H| - 1], P[i]) > 0.0
    ensures Stacked(P, H + [P[i]], idx + [i]) && LeftTurns(H + [P[i]], from)
  {
  }

  /** The inner `while` of both hull loops: pops the top of the stack, never
      below `bot`, until `p` lies strictly left of the top two points.  Every
      point popped was the top of a pair that `p` does not lie strictly left
      of. */
  method PopRightTurns(H: seq<Point>, ghost idx: seq<nat>, bot: nat, p: Point)
    returns (H': seq<Point>, ghost idx': seq<nat>)
    requires 1 <= bot <= |H| && |idx| == |H|
    ensures bot <= |H'| <= |H| && H' == H[..|H'|] && idx' == idx[..|H'|]
    ensures |H'| == bot || IsLeft(H'[|H'| - 2], H'[|H'| - 1], p) > 0.0
    ensures forall m :: |H'| <= m < |H| ==> IsLeft(H[m - 1], H[m], p) <= 0.0
  {
    H', idx' := H, idx;
    while |H'| > bot
      invariant bot <= |H'| <= |H| && H' == H[..|H'|] && idx' == idx[..|H'|]
      invariant forall m :: |H'| <= m < |H| ==> IsLeft(H[m - 1], H[m], p) <= 0.0
    {
      if IsLeft(H'[|H'| - 2], H'[|H'| - 1], p) > 0.0 {
        break;
      }
      H', idx' := H'[..|H'| - 1], idx'[..|H'| - 1];
    }
  }

  /** The lower chain before the point `hi`: `P[0]` at the bottom, then
      increasing indices in `minmax + 1 .. hi - 1`, each either `maxmin` or
      strictly right of the line from `P[0]` to `P[maxmin]`, turning left. */
  ghost predicate LowerStack(P: seq<Point>, H: seq<Point>, idx: seq<nat>, minmax: nat, maxmin: nat, hi: nat) {
    minmax < maxmin < |P| && Stacked(P, H, idx) && 1 <= |H| && idx[0] == 0 &&
    (forall k :: 1 <= k < |H| ==> minmax < idx[k] < hi) &&
    (forall k :: 1 <= k < |H| ==> idx[k] == maxmin || IsLeft(P[0], P[maxmin], H[k]) < 0.0) &&
    (forall a, b :: 0 <= a < b < |H| ==> idx[a] < idx[b]) &&
    LeftTurns(H, 2)
  }

  lemma LowerStart(P: seq<Point>, minmax: nat, maxmin: nat)
    requires minmax < maxmin < |P|
    ensures LowerStack(P, [P[0]], [0], minmax, maxmin, minmax + 1)
  {
  }

  lemma LowerPop(P: seq<Point>, H: seq<Point>, idx: seq<nat>, minmax: nat, maxmin: nat, hi: nat, m: nat)
    requires LowerStack(P, H, idx, minmax, maxmin, hi) && 1 <= m <= |H|
    ensures LowerStack(P, H[..m], idx[..m], minmax, maxmin, hi)
  {
    hide LeftTurns, IsLeft;
    StackPrefix(P, H, idx, m, 2);
  }

  lemma LowerPush(P: seq<Point>, H: seq<Point>, idx: seq<nat>, minmax: nat, maxmin: nat, i: nat)
    requires LowerStack(P, H, idx, minmax, maxmin, i) && minmax < i <= maxmin
    requires i == maxmin || IsLeft(P[0], P[maxmin], P[i]) < 0.0
    requires |H| < 2 || IsLeft(H[|H| - 2], H[|H| - 1], P[i]) > 0.0
    ensures LowerStack(P, H + [P[i]], idx + [i], minmax, maxmin, i + 1)
  {
    hide Stacked, LeftTurns, IsLeft;
    StackPush(P, H, idx, i, 2);
  }

  lemma LowerStacked(P: seq<Point>, H: seq<Point>, idx: seq<nat>, minmax: nat, maxmin: nat, hi: nat)
    requires LowerStack(P, H, idx, minmax, maxmin, hi)
    ensures Stacked(P, H, idx) && 1 <= |H| && idx[0] == 0
  {
  }

  lemma LowerSkip(P: seq<Point>, H: seq<Point>, idx: seq<nat>, minmax: nat, maxmin: nat, i: nat)
    requires LowerStack(P, H, idx, minmax, maxmin, i)
    ensures LowerStack(P, H, idx, minmax, maxmin, i + 1)
  {
  }

  /** The lower-hull loop: from `P[minmin]` (index 0) through the points
      `minmax + 1 .. maxmin`, skipping those on or left of the line from
      `P[minmin]` to `P[maxmin]`, and ending with `P[maxmin]`. */
  method LowerChain(P: seq<Point>, minmax: nat, maxmin: nat) returns (H: seq<Point>, ghost idx: seq<nat>)
    requires minmax < maxmin < |P|
    ensures LowerStack(P, H, idx, minmax, maxmin, maxmin + 1) && idx[|H| - 1] == maxmin
  {
    hide IsLeft, LowerStack;
    var minmin := 0;
    H, idx := [P[minmin]], [minmin];
    LowerStart(P, minmax, maxmin);
    var i := minmax + 1;
    while i <= maxmin
      invariant minmax + 1 <= i <= maxmin + 1 && 1 <= |H| == |idx|
      invariant LowerStack(P, H, idx, minmax, maxmin, i)
      invariant i == maxmin + 1 ==> idx[|H| - 1] == maxmin
    {
      if !(IsLeft(P[minmin], P[maxmin], P[i]) >= 0.0 && i < maxmin) {
        ghost var H1, idx1 := H, idx;
        H, idx := PopRightTurns(H, idx, 1, P[i]);
        LowerPop(P, H1, idx1, minmax, maxmin, i, |H|);
        if i != minmin {
          LowerPush(P, H, idx, minmax, maxmin, i);
          H, idx := H + [P[i]], idx + [i];
        }
      } else {
        LowerSkip(P, H, idx, minmax, maxmin, i);
      }
      i := i + 1;
    }
  }

  /** The upper chain above `bot` after the point `lo`: decreasing indices in
      `lo + 1 .. maxmin - 1`, never 0, each either `minmax` or strictly right
      of the line from `P[|P| - 1]` to `P[minmax]`, turning left. */
  ghost predicate UpperStack(P: seq<Point>, H: seq<Point>, idx: seq<nat>, bot: nat, minmax: nat, maxmin: nat, lo: int) {
    minmax < maxmin < |P| && Stacked(P, H, idx) && 1 <= bot <= |H| &&
    (forall k :: bot <= k < |H| ==> lo < idx[k] < maxmin && idx[k] != 0) &&
    (forall k :: bot <= k < |H| ==> idx[k] == minmax || IsLeft(P[|P| - 1], P[minmax], H[k]) < 0.0) &&
    (forall a, b :: bot <= a < b < |H| ==> idx[a] > idx[b]) &&
    LeftTurns(H, bot + 1)
  }

  lemma UpperStart(P: seq<Point>, H: seq<Point>, idx: seq<nat>, minmax: nat, maxmin: nat)
    requires minmax < maxmin < |P| && Stacked(P, H, idx) && 1 <= |H|
    ensures UpperStack(P, H, idx, |H|, minmax, maxmin, maxmin as int - 1)
  {
  }

  lemma UpperPop(P: seq<Point>, H: seq<Point>, idx: seq<nat>, bot: nat, minmax: nat, maxmin: nat, lo: int, m: nat)
    requires UpperStack(P, H, idx, bot, minmax, maxmin, lo) && bot <= m <= |H|
    ensures UpperStack(P, H[..m], idx[..m], bot, minmax, maxmin, lo)
    ensures H[..m][..bot] == H[..bot] && idx[..m][..bot] == idx[..bot]
  {
    hide LeftTurns, IsLeft;
    StackPrefix(P, H, idx, m, bot + 1);
  }

  lemma UpperPush(P: seq<Point>, H: seq<Point>, idx: seq<nat>, bot: nat, minmax: nat, maxmin: nat, i: nat)
    requires UpperStack(P, H, idx, bot, minmax, maxmin, i) && minmax <= i < maxmin && i != 0
    requires i == minmax || IsLeft(P[|P| - 1], P[minmax], P[i]) < 0.0
    requires |H| == bot || IsLeft(H[|H| - 2], H[|H| - 1], P[i]) > 0.0
    ensures UpperStack(P, H + [P[i]], idx + [i], bot, minmax, maxmin, i - 1)
    ensures (H + [P[i]])[..bot] == H[..bot] && (idx + [i])[..bot] == idx[..bot]
  {
    hide Stacked, LeftTurns, IsLeft;
    StackPush(P, H, idx, i, bot + 1);
  }

  lemma UpperStacked(P: seq<Point>, H: seq<Point>, idx: seq<nat>, bot: nat, minmax: nat, maxmin: nat, lo: int)
    requires UpperStack(P, H, idx, bot, minmax, maxmin, lo)
    ensures Stacked(P, H, idx)
  {
  }

  lemma UpperSkip(P: seq<Point>, H: seq<Point>, idx: seq<nat>, bot: nat, minmax: nat, maxmin: nat, i: int)
    requires UpperStack(P, H, idx, bot, minmax, maxmin, i)
    ensures UpperStack(P, H, idx, bot, minmax, maxmin, i - 1)
  {
  }

  /** The upper-hull loop: pushed above the stack `H0` (which it never pops),
      through the points `maxmin - 1` down to `minmax`, skipping those on or
      left of the line from `P[maxmax]` to `P[minmax]` and never pushing
      `P[minmin]`. */
  method UpperChain(P: seq<Point>, H0: seq<Point>, ghost idx0: seq<nat>, minmax: nat, maxmin: nat)
    returns (H: seq<Point>, ghost idx: seq<nat>)
    requires minmax < maxmin < |P| && Stacked(P, H0, idx0) && 1 <= |H0|
    ensures UpperStack(P, H, idx, |H0|, minmax, maxmin, minmax as int - 1)
    ensures |H0| <= |H| == |idx| && H[..|H0|] == H0 && idx[..|H0|] == idx0
    ensures minmax != 0 ==> |H0| < |H| && idx[|H| - 1] == minmax
  {
    hide IsLeft, UpperStack;
    var minmin, maxmax := 0, |P| - 1;
    var bot := |H0|;
    H, idx := H0, idx0;
    var i: int := maxmin - 1;
    UpperStart(P, H, idx, minmax, maxmin);
    while i >= minmax
      invariant minmax - 1 <= i < maxmin && bot <= |H| == |idx|
      invariant UpperStack(P, H, idx, bot, minmax, maxmin, i)
      invariant H[..bot] == H0 && idx[..bot] == idx0
      invariant i < minmax && minmax != 0 ==> bot < |H| && idx[|H| - 1] == minmax
    {
      if !(IsLeft(P[maxmax], P[minmax], P[i]) >= 0.0 && i > minmax) {
        ghost var H1, idx1 := H, idx;
        H, idx := PopRightTurns(H, idx, bot, P[i]);
        UpperPop(P, H1, idx1, bot, minmax, maxmin, i, |H|);
        if i != minmin {
          UpperPush(P, H, idx, bot, minmax, maxmin, i);
          H, idx := H + [P[i]], idx + [i];
        } else {
          UpperSkip(P, H, idx, bot, minmax, maxmin, i);
        }
      } else {
        UpperSkip(P, H, idx, bot, minmax, maxmin, i);
      }
      i := i - 1;
    }
  }

  /** Between the two vertical runs, no point is strictly right of both the
      line from the top of the right run to the top of the left run and the
      line from the bottom of the left run to the bottom of the right run:
      the two cross products sum to a non-negative value. */
  lemma ChainsApart(A: Point, B: Point, C: Point, D: Point, Q: Point)
    requires A.x == D.x && B.x == C.x && B.x < Q.x < A.x
    requires D.y <= A.y && C.y <= B.y
    ensures IsLeft(A, B, Q) + IsLeft(C, D, Q) >= 0.0
  {
    assert IsLeft(A, B, Q) + IsLeft(C, D, Q) == (Q.x - B.x) * (A.y - D.y) + (A.x - Q.x) * (B.y - C.y);
    NonNegProduct(Q.x - B.x, A.y - D.y);
    NonNegProduct(A.x - Q.x, B.y - C.y);
  }

  lemma NonNegProduct(a: real, b: real)
    requires a >= 0.0 && b >= 0.0
    ensures a * b >= 0.0
  {
  }

  /** Going down a vertical run after any point on or right of it turns left
      or goes straight. */
  lemma VerticalTurn(Q: Point, B: Point, C: Point)
    requires B.x == C.x && Q.x >= B.x && C.y <= B.y
    ensures IsLeft(Q, B, C) >= 0.0
  {
    assert IsLeft(Q, B, C) == (Q.x - B.x) * (B.y - C.y);
    NonNegProduct(Q.x - B.x, B.y - C.y);
  }

  /** A sequence of distinct naturals below `n` has at most `n` elements. */
  lemma {:induction false} DistinctBelow(s: seq<nat>, n: nat)
    requires forall k :: 0 <= k < |s| ==> s[k] < n
    requires forall a, b :: 0 <= a < b < |s| ==> s[a] != s[b]
    ensures |s| <= n
    decreases |s|
  {
    if |s| > 0 {
      var m := s[|s| - 1];
      var t := seq(|s| - 1, k requires 0 <= k < |s| - 1 => if s[k] == n - 1 then m else s[k]);
      forall a, b | 0 <= a < b < |t| ensures t[a] != t[b] {
        assert s[a] != s[b] && s[a] != m && s[b] != m;
      }
      DistinctBelow(t, n - 1);
    }
  }

  /** The sorted points split into a vertical run `0 .. minmax` at the
      largest x, a vertical run `maxmin .. |P| - 1` at the smallest x, and
      the points strictly between. */
  ghost predicate Runs(P: seq<Point>, minmax: nat, maxmin: nat) {
    SortedPoints(P) && minmax < maxmin < |P| &&
    (forall j :: 0 <= j <= minmax ==> P[j].x == P[0].x) && P[minmax + 1].x < P[0].x &&
    (forall j :: maxmin <= j < |P| ==> P[j].x == P[|P| - 1].x) && P[maxmin - 1].x != P[|P| - 1].x
  }

  /** The stack `ConvexHull` builds from its two chains: the lower chain
      `H[..L]`, then `P[|P| - 1]` when it differs from `P[maxmin]`, then the
      upper chain from `bot` on. */
  ghost predicate Chains(P: seq<Point>, H: seq<Point>, idx: seq<nat>, L: nat, bot: nat, minmax: nat, maxmin: nat) {
    Runs(P, minmax, maxmin) && L <= bot <= |H| && |idx| == |H| &&
    LowerStack(P, H[..L], idx[..L], minmax, maxmin, maxmin + 1) && idx[L - 1] == maxmin &&
    ((bot == L && maxmin == |P| - 1) || (bot == L + 1 && maxmin < |P| - 1 && idx[L] == |P| - 1)) &&
    UpperStack(P, H, idx, bot, minmax, maxmin, minmax as int - 1)
  }

  /** The two chains share no index: the lower chain increases, the upper
      decreases, `P[|P| - 1]` sits between them, and a point strictly
      between the runs cannot be right of both hull lines. */
  lemma HullDistinct(P: seq<Point>, H: seq<Point>, idx: seq<nat>, L: nat, bot: nat, minmax: nat, maxmin: nat)
    requires Chains(P, H, idx, L, bot, minmax, maxmin)
    ensures forall a, b :: 0 <= a < b < |H| ==> idx[a] != idx[b]
  {
    var HL, idxL := H[..L], idx[..L];
    forall a, b | 0 <= a < b < |H| ensures idx[a] != idx[b] {
      if a < L && bot <= b && idx[b] == idx[a] {
        assert idxL[a] == idx[a] && HL[a] == H[a];
        var j := idx[a];
        assert a > 0 && j != maxmin;
        assert Before(P[minmax + 1], P[j]) || j == minmax + 1;
        assert Before(P[j], P[maxmin - 1]) || j == maxmin - 1;
        assert Before(P[maxmin - 1], P[|P| - 1]);
        assert Before(P[0], P[minmax]) || minmax == 0;
        assert Before(P[maxmin], P[|P| - 1]) || maxmin == |P| - 1;
        ChainsApart(P[0], P[maxmin], P[|P| - 1], P[minmax], P[j]);
        assert false;
      } else if a < L && b < L {
        assert idxL[a] < idxL[b];
      }
    }
  }

  /** The orientation test is invariant under rotating its three points. */
  lemma IsLeftRotate(p0: Point, p1: Point, p2: Point)
    ensures IsLeft(p1, p2, p0) == IsLeft(p0, p1, p2)
  {
  }

  lemma MulLe(a: real, b: real, c: real)
    requires a <= b && c >= 0.0
    ensures c * a <= c * b
  {
  }

  /** The turn at the point `m` of smallest x where the two chains meet.
      `a` is on or right of the line from `p0` to `m`, `q` on or right of
      the line from `m` to `pmm`, and `p0` lies straight above `pmm` at a
      larger x than every other point: then `a`, `m`, `q` turn left or go
      straight (the slope from `m` to `a` is at least that to `p0`, which is
      at least that to `pmm`, which is at least that to `q`). */
  lemma MeetingTurn(a: Point, m: Point, p0: Point, pmm: Point, q: Point)
    requires a.x > m.x && q.x > m.x && p0.x == pmm.x && p0.x > m.x && pmm.y <= p0.y
    requires IsLeft(p0, m, a) <= 0.0 && IsLeft(m, pmm, q) <= 0.0
    ensures IsLeft(a, m, q) >= 0.0
  {
    var ax, ay, qx, qy := a.x - m.x, a.y - m.y, q.x - m.x, q.y - m.y;
    var X, py, ry := p0.x - m.x, p0.y - m.y, pmm.y - m.y;
    assert IsLeft(p0, m, a) == ax * py - X * ay;
    assert IsLeft(m, pmm, q) == X * qy - qx * ry;
    assert IsLeft(a, m, q) == qx * ay - ax * qy;
    MulLe(ax * py, X * ay, qx);
    MulLe(ry, py, qx * ax);
    MulLe(X * qy, qx * ry, ax);
    assert X * (qx * ay - ax * qy) >= 0.0 by {
      assert qx * (ax * py) <= qx * (X * ay);
      assert (qx * ax) * ry <= (qx * ax) * py;
      assert ax * (X * qy) <= ax * (qx * ry);
    }
  }

  /** The turn at `bot`, where the upper chain starts, goes left or
      straight: after the vertical step down to `P[|P| - 1]`, or at
      `P[maxmin]` when that is the last point. */
  lemma BotTurn(P: seq<Point>, H: seq<Point>, idx: seq<nat>, L: nat, bot: nat, minmax: nat, maxmin: nat)
    requires Chains(P, H, idx, L, bot, minmax, maxmin) && 2 <= bot < |H|
    ensures IsLeft(H[bot - 2], H[bot - 1], H[bot]) >= 0.0
  {
    hide IsLeft;
    var HL, idxL := H[..L], idx[..L];
    var n := |P|;
    var j := idx[bot];
    assert H[bot] == P[j] && j < maxmin;
    assert P[j].x > P[n - 1].x by {
      assert Before(P[j], P[maxmin - 1]) || j == maxmin - 1;
    }
    assert H[L - 1] == P[maxmin] by {
      assert HL[L - 1] == H[L - 1];
    }
    if bot == L + 1 {
      assert Before(P[maxmin], P[n - 1]) || maxmin == n - 1;
      VerticalTurn(H[bot], H[bot - 2], H[bot - 1]);
      IsLeftRotate(H[bot], H[bot - 2], H[bot - 1]);
    } else {
      var i := idxL[L - 2];
      assert H[L - 2] == HL[L - 2] == P[i] && i < maxmin;
      assert P[i].x > P[n - 1].x by {
        assert Before(P[i], P[maxmin - 1]) || i == maxmin - 1;
      }
      IsLeftOnLine(P[0], P[maxmin]);
      IsLeftOnLine(P[maxmin], P[minmax]);
      assert IsLeft(P[0], P[maxmin], P[i]) <= 0.0 by {
        assert L - 2 == 0 ==> i == 0;
      }
      assert IsLeft(P[maxmin], P[minmax], P[j]) <= 0.0;
      assert Before(P[0], P[minmax]) || minmax == 0;
      MeetingTurn(P[i], P[maxmin], P[0], P[minmax], P[j]);
    }
  }

  /** Every turn of the stack goes left or straight. */
  lemma HullTurns(P: seq<Point>, H: seq<Point>, idx: seq<nat>, L: nat, bot: nat, minmax: nat, maxmin: nat)
    requires Chains(P, H, idx, L, bot, minmax, maxmin)
    ensures forall k :: 2 <= k < |H| ==> IsLeft(H[k - 2], H[k - 1], H[k]) >= 0.0
  {
    var HL, idxL := H[..L], idx[..L];
    if bot == L + 1 {
      var q := idxL[L - 2];
      assert Before(P[q], P[maxmin]);
      assert Before(P[maxmin], P[|P| - 1]);
      VerticalTurn(H[L - 2], H[L - 1], H[L]);
    }
    if 2 <= bot < |H| {
      BotTurn(P, H, idx, L, bot, minmax, maxmin);
    }
    forall k | 2 <= k < |H| && k != bot ensures IsLeft(H[k - 2], H[k - 1], H[k]) >= 0.0 {
      if k < L {
        assert HL[k - 2] == H[k - 2] && HL[k - 1] == H[k - 1] && HL[k] == H[k];
      }
    }
  }

  /** What `ConvexHull` promises about its stack over the sorted points `P`:
      distinct sorted points starting at `P[0]`, not closing back on it, and
      turning left or straight everywhere. */
  ghost predicate HullStack(P: seq<Point>, H: seq<Point>, idx: seq<nat>, bot: nat) {
    Stacked(P, H, idx) && 1 <= |H| <= |P| && 1 <= bot <= |H| && idx[0] == 0 &&
    (forall a, b :: 0 <= a < b < |H| ==> idx[a] != idx[b]) &&
    (|H| > 1 ==> idx[|H| - 1] != 0) &&
    (forall k :: 2 <= k < |H| ==> IsLeft(H[k - 2], H[k - 1], H[k]) >= 0.0)
  }

  /** The two chains together form a hull stack. */
  lemma ChainsHull(P: seq<Point>, H: seq<Point>, idx: seq<nat>, L: nat, bot: nat, minmax: nat, maxmin: nat)
    requires Chains(P, H, idx, L, bot, minmax, maxmin)
    ensures HullStack(P, H, idx, bot)
  {
    HullDistinct(P, H, idx, L, bot, minmax, maxmin);
    HullTurns(P, H, idx, L, bot, minmax, maxmin);
    DistinctBelow(idx, |P|);
    assert idx[..L][0] == idx[0];
  }

  /** With one x for all points, the stack is `P[0]`, then `P[|P| - 1]` when
      it lies lower. */
  lemma SameXStack(P: seq<Point>, H: seq<Point>, idx: seq<nat>)
    requires |P| > 0 && SortedPoints(P)
    requires H == [P[0]] + (if P[|P| - 1].y != P[0].y then [P[|P| - 1]] else [])
    requires idx == [0] + (if P[|P| - 1].y != P[0].y then [|P| - 1] else [])
    ensures HullStack(P, H, idx, |H|)
  {
  }

  /** `ConvexHull(S)`: the points of the hull as a stack `H` of sorted input
      points (at the ghost indices `idx` of the sorted copy), the lower chain
      below `bot` and the upper chain from `bot` on.  The input must not be
      empty (`P[0].x` would throw). */
  method ConvexHull(S: seq<Point>) returns (H: seq<Point>, ghost idx: seq<nat>, ghost bot: nat)
    requires |S| > 0
    ensures HullStack(SortPoints(S), H, idx, bot)
    ensures forall k :: 0 <= k < |H| ==> H[k] in S
    ensures forall s :: s in S ==> Before(H[0], s)
    ensures (forall s :: s in S ==> s.x == S[0].x) ==>
              |H| <= 2 && (|H| == 1 <==> forall s :: s in S ==> s.y == S[0].y)
    ensures forall j :: Corner(SortPoints(S), j) ==> SortPoints(S)[j] in H
  {
    var P := SortPoints(S);
    hide IsLeft, SortPoints, LowerStack, UpperStack, HullStack;
    var n := |S|;
    var i: int;
    var minmin := 0;
    var xmin := P[0].x;
    i := 1;
    while i < n
      invariant 1 <= i <= n
      invariant forall j :: 0 <= j < i ==> P[j].x == xmin
    {
      if P[i].x != xmin {
        break;
      }
      i := i + 1;
    }
    var minmax := i - 1;
    if minmax == n - 1 {
      H, idx := [P[minmin]], [minmin];
      if P[minmax].y != P[minmin].y {
        H, idx := H + [P[minmax]], idx + [minmax];
      }
      bot := |H|;
      SameXStack(P, H, idx);
      SameXHull(S, P, H);
      assert P[n - 1] in H;
      SameXCorners(P);
    } else {
      H, idx, bot := TwoChains(P, minmax);
      SameXNotHere(S, P, minmax);
    }
    HullInput(S, P, H, idx, bot);
  }

  /** `P[j]` ends a run of equal x at the largest or the smallest x: these
      are the points of extreme x with the largest or the smallest y. */
  ghost predicate Corner(P: seq<Point>, j: int) {
    0 <= j < |P| && (P[j].x == P[0].x || P[j].x == P[|P| - 1].x) &&
    (j == 0 || j == |P| - 1 || P[j - 1].x != P[j].x || P[j + 1].x != P[j].x)
  }

  /** With one x for all points, the corners are the first and the last. */
  lemma SameXCorners(P: seq<Point>)
    requires |P| > 0 && forall j :: 0 <= j < |P| ==> P[j].x == P[0].x
    ensures forall j :: Corner(P, j) ==> j == 0 || j == |P| - 1
  {
  }

  /** With two runs of extreme x, the corners are the ends of the runs. */
  lemma RunCorners(P: seq<Point>, minmax: nat, maxmin: nat, j: int)
    requires Runs(P, minmax, maxmin) && Corner(P, j)
    ensures j == 0 || j == minmax || j == maxmin || j == |P| - 1
  {
    assert P[|P| - 1].x < P[0].x by {
      assert Before(P[minmax + 1], P[|P| - 1]) || minmax + 1 == |P| - 1;
    }
    assert minmax < j ==> Before(P[minmax + 1], P[j]) || j == minmax + 1;
    assert j < maxmin ==> Before(P[j], P[maxmin - 1]) || j == maxmin - 1;
  }

  /** The general case of `ConvexHull`, once the run of points at the
      largest x ends at `minmax`: the run at the smallest x, then the lower
      chain, `P[maxmax]` when it is not `P[maxmin]`, and the upper chain. */
  method TwoChains(P: seq<Point>, minmax: nat) returns (H: seq<Point>, ghost idx: seq<nat>, ghost bot: nat)
    requires SortedPoints(P) && minmax + 1 < |P|
    requires forall j :: 0 <= j <= minmax ==> P[j].x == P[0].x
    requires P[minmax + 1].x != P[0].x
    ensures HullStack(P, H, idx, bot)
    ensures forall j :: Corner(P, j) ==> P[j] in H
  {
    hide IsLeft, LowerStack, UpperStack, HullStack;
    var n := |P|;
    var i: int;
    var xmin := P[0].x;
    var maxmin, maxmax := 0, n - 1;
    var xmax := P[n - 1].x;
    i := n - 2;
    while i >= 0
      invariant minmax <= i <= n - 2
      invariant forall j :: i < j < n ==> P[j].x == xmax
    {
      if P[i].x != xmax {
        break;
      }
      i := i - 1;
    }
    maxmin := i + 1;
    assert Runs(P, minmax, maxmin) by {
      assert P[minmax + 1].x < xmin by {
        assert Before(P[minmax], P[minmax + 1]);
      }
    }
    var HL;
    ghost var idxL;
    HL, idxL := LowerChain(P, minmax, maxmin);
    LowerStacked(P, HL, idxL, minmax, maxmin, maxmin + 1);
    H, idx := HL, idxL;
    ghost var L: nat := |H|;
    if maxmax != maxmin {
      H, idx := H + [P[maxmax]], idx + [maxmax];
    }
    bot := |H|;
    ghost var H0, idx0 := H, idx;
    H, idx := UpperChain(P, H, idx, minmax, maxmin);
    assert H0[..L] == HL && idx0[..L] == idxL;
    assert H[..L] == HL && idx[..L] == idxL;
    assert Chains(P, H, idx, L, bot, minmax, maxmin);
    ChainsHull(P, H, idx, L, bot, minmax, maxmin);
    assert H[0] == P[0] && H[L - 1] == P[maxmin] by {
      assert HL[0] == H[0] && HL[L - 1] == H[L - 1];
    }
    if maxmax != maxmin {
      assert H0[L] == H[L];
    }
    UpperStacked(P, H, idx, bot, minmax, maxmin, minmax as int - 1);
    forall j | Corner(P, j) ensures P[j] in H {
      RunCorners(P, minmax, maxmin, j);
    }
  }

  /** The hull stack read back on the input: its points are input points and
      the first comes before every input point. */
  lemma HullInput(S: seq<Point>, P: seq<Point>, H: seq<Point>, idx: seq<nat>, bot: nat)
    requires |S| > 0 && P == SortPoints(S) && HullStack(P, H, idx, bot)
    ensures forall k :: 0 <= k < |H| ==> H[k] in S
    ensures forall s :: s in S ==> Before(H[0], s)
  {
    SortedFirst(S);
  }

  /** The degenerate hull: when all points share one x, `ConvexHull` keeps
      the first sorted point, and the last one only when their y differ. */
  lemma SameXHull(S: seq<Point>, P: seq<Point>, H: seq<Point>)
    requires |S| > 0 && P == SortPoints(S)
    requires forall j :: 0 <= j < |P| ==> P[j].x == P[0].x
    requires H == [P[0]] + (if P[|P| - 1].y != P[0].y then [P[|P| - 1]] else [])
    ensures (forall s :: s in S ==> s.x == S[0].x) ==>
              |H| <= 2 && (|H| == 1 <==> forall s :: s in S ==> s.y == S[0].y)
  {
    SortedFirst(S);
    if P[|P| - 1].y == P[0].y {
      forall s | s in S ensures s.y == P[0].y {
        var j := SortedIndex(S, s);
        assert Before(P[j], P[|P| - 1]) || j == |P| - 1;
      }
    } else {
      assert P[|P| - 1] in S && P[0] in S;
    }
  }

  /** Where an input point sits in the sorted copy. */
  ghost function SortedIndex(S: seq<Point>, s: Point): (j: nat)
    requires s in S
    ensures j < |SortPoints(S)| && SortPoints(S)[j] == s
  {
    var P := SortPoints(S);
    assert s in multiset(S);
    assert s in multiset(P);
    var j :| 0 <= j < |P| && P[j] == s;
    j
  }

  /** When some sorted point has another x, so does some input point. */
  lemma SameXNotHere(S: seq<Point>, P: seq<Point>, minmax: nat)
    requires |S| > 0 && P == SortPoints(S) && minmax + 1 < |P| && P[minmax + 1].x != P[0].x
    ensures !(forall s :: s in S ==> s.x == S[0].x)
  {
    SortedFirst(S);
  }

  // ---------------------------------------------------------------------
  // Cyclic polygon stepping

  /** `geom.PolyPoint`: a point that knows its index in its polygon. */
  datatype PolyPoint = PolyPoint(p: Point, polyIndex: nat)

  /** `nextPolyPoint(p, ps)`: the point after `p`, wrapping from the last
      index to 0; `None` where JavaScript would read past the array. */
  function NextPolyPoint(p: PolyPoint, ps: seq<PolyPoint>): (r: Option<PolyPoint>)
    ensures r.Some? <==> p.polyIndex < |ps|
  {
    if p.polyIndex == |ps| - 1 then Some(ps[0])
    else if p.polyIndex + 1 < |ps| then Some(ps[p.polyIndex + 1])
    else None
  }

  /** `prevPolyPoint(p, ps)`: the point before `p`, wrapping from 0 to the
      last index; `None` where JavaScript would read past the array. */
  function PrevPolyPoint(p: PolyPoint, ps: seq<PolyPoint>): (r: Option<PolyPoint>)
    ensures r.Some? <==> p.polyIndex <= |ps| && |ps| > 0
  {
    if p.polyIndex == 0 then (if |ps| == 0 then None else Some(ps[|ps| - 1]))
    else if p.polyIndex - 1 < |ps| then Some(ps[p.polyIndex - 1])
    else None
  }

  /** On a point of the polygon, both step cyclically: index i goes to
      (i + 1) mod |ps| and to (i - 1) mod |ps|. */
  lemma PolyPointsCyclic(p: PolyPoint, ps: seq<PolyPoint>)
    requires p.polyIndex < |ps|
    ensures NextPolyPoint(p, ps) == Some(ps[(p.polyIndex + 1) % |ps|])
    ensures PrevPolyPoint(p, ps) == Some(ps[(p.polyIndex + |ps| - 1) % |ps|])
  {
    var i, n := p.polyIndex, |ps|;
    ModStep(i + 1, n);
    ModStep(i + n - 1, n);
  }

  /** Reducing a value below twice the modulus subtracts it at most once. */
  lemma ModStep(a: int, n: int)
    requires 0 < n && 0 <= a < 2 * n
    ensures a % n == if a < n then a else a - n
  {
    if a >= n {
      assert a == n * 1 + (a - n);
    }
  }

  /** Every point of `ps` carries its own index. */
  predicate Indexed(ps: seq<PolyPoint>) {
    forall i :: 0 <= i < |ps| ==> ps[i].polyIndex == i
  }

  /** In a polygon whose points carry their indices, stepping forward and
      then back (or back and then forward) returns to the same point. */
  lemma NextPrevInverse(ps: seq<PolyPoint>, i: nat)
    requires Indexed(ps) && i < |ps|
    ensures NextPolyPoint(ps[i], ps).Some? && PrevPolyPoint(NextPolyPoint(ps[i], ps).value, ps) == Some(ps[i])
    ensures PrevPolyPoint(ps[i], ps).Some? && NextPolyPoint(PrevPolyPoint(ps[i], ps).value, ps) == Some(ps[i])
  {
  }

  // ---------------------------------------------------------------------
  // Bitangents

  /** `geom.BiTangent(t1, t2)`: vertex t1 of the first polygon and t2 of the second. */
  datatype BiTangent = BiTangent(t1: int, t2: int)

  /** `geom.BiTangents`: the four kinds of bitangent, each unset (`undefined`)
      until `tangents` finds one. */
  datatype BiTangents = BiTangents(rl: Option<BiTangent>, lr: Option<BiTangent>,
                                   ll: Option<BiTangent>, rr: Option<BiTangent>)

  /** Which of the four `tangents` tests the pair (i, j) passes first. */
  datatype Kind = LL | RR | RL | LR | Neither

  /** The six orientations `tangents` computes for vertex i of V (a closed
      polygon, V[m] = V[0]) and vertex j of W, and the first test they pass. */
  function Classify(V: seq<Point>, W: seq<Point>, i: nat, j: nat): Kind
    requires i + 1 < |V| && j + 1 < |W|
  {
    var m, n := |V| - 1, |W| - 1;
    var v1, v2, v3 := V[if i == 0 then m - 1 else i - 1], V[i], V[i + 1];
    var w1, w2, w3 := W[if j == 0 then n - 1 else j - 1], W[j], W[j + 1];
    var v1v2w2, v2w1w2, v2w2w3 := IsLeft(v1, v2, w2), IsLeft(v2, w1, w2), IsLeft(v2, w2, w3);
    var w1w2v2, w2v1v2, w2v2v3 := IsLeft(w1, w2, v2), IsLeft(w2, v1, v2), IsLeft(w2, v2, v3);
    if v1v2w2 >= 0.0 && v2w1w2 >= 0.0 && v2w2w3 < 0.0 && w1w2v2 >= 0.0 && w2v1v2 >= 0.0 && w2v2v3 < 0.0 then LL
    else if v1v2w2 <= 0.0 && v2w1w2 <= 0.0 && v2w2w3 > 0.0 && w1w2v2 <= 0.0 && w2v1v2 <= 0.0 && w2v2v3 > 0.0 then RR
    else if v1v2w2 <= 0.0 && v2w1w2 > 0.0 && v2w2w3 <= 0.0 && w1w2v2 >= 0.0 && w2v1v2 < 0.0 && w2v2v3 >= 0.0 then RL
    else if v1v2w2 >= 0.0 && v2w1w2 < 0.0 && v2w2w3 >= 0.0 && w1w2v2 <= 0.0 && w2v1v2 > 0.0 && w2v2v3 <= 0.0 then LR
    else Neither
  }

  /** `bt` after the assignment the loop body makes for a pair of this kind. */
  function Record(bt: BiTangents, k: Kind, i: nat, j: nat): BiTangents {
    match k
    case LL => bt.(ll := Some(BiTangent(i, j)))
    case RR => bt.(rr := Some(BiTangent(i, j)))
    case RL => bt.(rl := Some(BiTangent(i, j)))
    case LR => bt.(lr := Some(BiTangent(i, j)))
    case Neither => bt
  }

  /** The bitangents after the pairs (i, 0) .. (i, j - 1) of row i, from `bt`. */
  function RowTangents(V: seq<Point>, W: seq<Point>, bt: BiTangents, i: nat, j: nat): BiTangents
    requires i + 1 < |V| && j < |W|
  {
    if j == 0 then bt
    else Record(RowTangents(V, W, bt, i, j - 1), Classify(V, W, i, j - 1), i, j - 1)
  }

  /** The bitangents after rows 0 .. i - 1, from none. */
  function TangentsUpTo(V: seq<Point>, W: seq<Point>, i: nat): BiTangents
    requires i < |V| && |W| > 0
  {
    if i == 0 then BiTangents(None, None, None, None)
    else RowTangents(V, W, TangentsUpTo(V, W, i - 1), i - 1, |W| - 1)
  }

  /** What `tangents(V, W)` returns. */
  function Tangents(V: seq<Point>, W: seq<Point>): BiTangents {
    if |V| == 0 || |W| == 0 then BiTangents(None, None, None, None)
    else TangentsUpTo(V, W, |V| - 1)
  }

  /** The field of `bt` that records kind `k`. */
  function Slot(bt: BiTangents, k: Kind): Option<BiTangent> {
    match k
    case LL => bt.ll
    case RR => bt.rr
    case RL => bt.rl
    case LR => bt.lr
    case Neither => None
  }

  /** (i, j) is visited no later than (i', j') by the nested loops. */
  predicate NoLater(i: int, j: int, i': int, j': int) {
    i < i' || (i == i' && j <= j')
  }

  /** What a slot holds before row `i` ends at column `j`: a pair in range of
      this kind, visited before (i, j); and when some pair of this kind was
      visited, the slot holds one visited no earlier. */
  ghost predicate SlotOk(V: seq<Point>, W: seq<Point>, s: Option<BiTangent>, k: Kind, i: nat, j: nat)
    requires i + 1 < |V| || (i + 1 == |V| && j == 0)
    requires j < |W|
  {
    (s.Some? ==>
       0 <= s.value.t1 < |V| - 1 && 0 <= s.value.t2 < |W| - 1 &&
       NoLater(s.value.t1, s.value.t2, i, j - 1) &&
       Classify(V, W, s.value.t1, s.value.t2) == k) &&
    (forall i', j' ::
       (0 <= i' < |V| - 1 && 0 <= j' < |W| - 1 && NoLater(i', j', i, j - 1) && Classify(V, W, i', j') == k) ==>
       s.Some? && NoLater(i', j', s.value.t1, s.value.t2))
  }

  ghost predicate AllSlotsOk(V: seq<Point>, W: seq<Point>, bt: BiTangents, i: nat, j: nat)
    requires i + 1 < |V| || (i + 1 == |V| && j == 0)
    requires j < |W|
  {
    SlotOk(V, W, bt.ll, LL, i, j) && SlotOk(V, W, bt.rr, RR, i, j) &&
    SlotOk(V, W, bt.rl, RL, i, j) && SlotOk(V, W, bt.lr, LR, i, j)
  }

  /** One pair more keeps every slot right. */
  lemma RecordOk(V: seq<Point>, W: seq<Point>, bt: BiTangents, i: nat, j: nat)
    requires i + 1 < |V| && j + 1 < |W| && AllSlotsOk(V, W, bt, i, j)
    ensures AllSlotsOk(V, W, Record(bt, Classify(V, W, i, j), i, j), i, j + 1)
  {
    hide Classify, IsLeft;
    var c := Classify(V, W, i, j);
    var bt' := Record(bt, c, i, j);
    SlotRecord(V, W, bt.ll, LL, c, i, j);
    SlotRecord(V, W, bt.rr, RR, c, i, j);
    SlotRecord(V, W, bt.rl, RL, c, i, j);
    SlotRecord(V, W, bt.lr, LR, c, i, j);
  }

  /** Visiting (i, j), of kind `c`, keeps the slot of kind `k` right: it is
      overwritten exactly when `c == k`. */
  lemma SlotRecord(V: seq<Point>, W: seq<Point>, s: Option<BiTangent>, k: Kind, c: Kind, i: nat, j: nat)
    requires i + 1 < |V| && j + 1 < |W| && SlotOk(V, W, s, k, i, j) && c == Classify(V, W, i, j)
    ensures SlotOk(V, W, if c == k then Some(BiTangent(i, j)) else s, k, i, j + 1)
  {
    hide Classify, IsLeft;
  }

  /** The row fold keeps every slot right. */
  lemma {:induction false} RowTangentsOk(V: seq<Point>, W: seq<Point>, bt: BiTangents, i: nat, j: nat)
    requires i + 1 < |V| && j < |W| && AllSlotsOk(V, W, bt, i, 0)
    ensures AllSlotsOk(V, W, RowTangents(V, W, bt, i, j), i, j)
  {
    hide Classify, IsLeft, AllSlotsOk, SlotOk;
    if j > 0 {
      RowTangentsOk(V, W, bt, i, j - 1);
      RecordOk(V, W, RowTangents(V, W, bt, i, j - 1), i, j - 1);
    }
  }

  /** Finishing row i - 1 at its last column is starting row i at column 0. */
  lemma RowBoundary(V: seq<Point>, W: seq<Point>, bt: BiTangents, i: nat)
    requires 0 < i < |V| && |W| > 0 && AllSlotsOk(V, W, bt, i - 1, |W| - 1)
    ensures AllSlotsOk(V, W, bt, i, 0)
  {
  }

  /** The whole fold keeps every slot right. */
  lemma {:induction false} TangentsUpToOk(V: seq<Point>, W: seq<Point>, i: nat)
    requires i < |V| && |W| > 0
    ensures AllSlotsOk(V, W, TangentsUpTo(V, W, i), i, 0)
  {
    if i > 0 {
      TangentsUpToOk(V, W, i - 1);
      RowTangentsOk(V, W, TangentsUpTo(V, W, i - 1), i - 1, |W| - 1);
      RowBoundary(V, W, TangentsUpTo(V, W, i), i);
    }
  }

  /** Every bitangent `tangents` records has t1 < |V| - 1 and t2 < |W| - 1
      and passed the test of its kind; a kind stays unset only when no pair
      passes its test, and otherwise holds the last pair that does. */
  lemma TangentsSound(V: seq<Point>, W: seq<Point>, k: Kind)
    requires k != Neither
    ensures var s := Slot(Tangents(V, W), k);
      (s.Some? ==> 0 <= s.value.t1 < |V| - 1 && 0 <= s.value.t2 < |W| - 1 &&
                   Classify(V, W, s.value.t1, s.value.t2) == k) &&
      (forall i, j :: 0 <= i < |V| - 1 && 0 <= j < |W| - 1 && Classify(V, W, i, j) == k ==>
         s.Some? && NoLater(i, j, s.value.t1, s.value.t2))
  {
    if |V| > 0 && |W| > 0 {
      TangentsUpToOk(V, W, |V| - 1);
    }
  }

  /** `tangents(V, W)`: the nested loops over i < |V| - 1 and j < |W| - 1,
      each pair overwriting the slot of the first test it passes. */
  method ComputeTangents(V: seq<Point>, W: seq<Point>) returns (bt: BiTangents)
    ensures bt == Tangents(V, W)
  {
    var m, n := |V| - 1, |W| - 1;
    bt := BiTangents(None, None, None, None);
    var i := 0;
    while i < m
      invariant 0 <= i && (i <= m || i == 0)
      invariant m >= 0 && n >= 0 ==> bt == TangentsUpTo(V, W, i)
      invariant m < 0 || n < 0 ==> bt == BiTangents(None, None, None, None)
    {
      var j := 0;
      while j < n
        invariant 0 <= j && (j <= n || j == 0)
        invariant n >= 0 ==> bt == RowTangents(V, W, TangentsUpTo(V, W, i), i, j)
        invariant n < 0 ==> bt == BiTangents(None, None, None, None)
      {
        var v1 := V[if i == 0 then m - 1 else i - 1];
        var v2 := V[i];
        var v3 := V[i + 1];
        var w1 := W[if j == 0 then n - 1 else j - 1];
        var w2 := W[j];
        var w3 := W[j + 1];
        var v1v2w2 := IsLeft(v1, v2, w2);
        var v2w1w2 := IsLeft(v2, w1, w2);
        var v2w2w3 := IsLeft(v2, w2, w3);
        var w1w2v2 := IsLeft(w1, w2, v2);
        var w2v1v2 := IsLeft(w2, v1, v2);
        var w2v2v3 := IsLeft(w2, v2, v3);
        if v1v2w2 >= 0.0 && v2w1w2 >= 0.0 && v2w2w3 < 0.0 && w1w2v2 >= 0.0 && w2v1v2 >= 0.0 && w2v2v3 < 0.0 {
          bt := bt.(ll := Some(BiTangent(i, j)));
        } else if v1v2w2 <= 0.0 && v2w1w2 <= 0.0 && v2w2w3 > 0.0 && w1w2v2 <= 0.0 && w2v1v2 <= 0.0 && w2v2v3 > 0.0 {
          bt := bt.(rr := Some(BiTangent(i, j)));
        } else if v1v2w2 <= 0.0 && v2w1w2 > 0.0 && v2w2w3 <= 0.0 && w1w2v2 >= 0.0 && w2v1v2 < 0.0 && w2v2v3 >= 0.0 {
          bt := bt.(rl := Some(BiTangent(i, j)));
        } else if v1v2w2 >= 0.0 && v2w1w2 < 0.0 && v2w2w3 >= 0.0 && w1w2v2 <= 0.0 && w2v1v2 > 0.0 && w2v2v3 <= 0.0 {
          bt := bt.(lr := Some(BiTangent(i, j)));
        }
        j := j + 1;
      }
      i := i + 1;
    }
  }
}
