/**
 The open-path travelling-salesperson heuristic of the backend optimizer
 (`distance_matrix` and `tsp_route`): a symmetric distance matrix, a
 nearest-neighbour construction from a given start index, then first-improvement
 2-opt that keeps both endpoints of the path fixed.
 */
module Tsp {
  import opened Common

  /** Pairwise distances between the points of one cluster, `M[i][j]`. */
  type Matrix = seq<seq<real>>

  /** A route is a sequence of point indices. */
  type Route = seq<nat>

  /** Improvement threshold of 2-opt: a move must beat the current length by more than this. */
  const Eps: real := 0.000000001

  predicate IsSquare(M: Matrix) {
    forall i :: 0 <= i < |M| ==> |M[i]| == |M|
  }

  predicate NonNegative(M: Matrix)
    requires IsSquare(M)
  {
    forall i, j :: 0 <= i < |M| && 0 <= j < |M| ==> M[i][j] >= 0.0
  }

  /**
   `distance_matrix`: a zero matrix in which every pair `i < j` receives the
   distance from point `i` to point `j`, written into both `M[i][j]` and `M[j][i]`.
   */
  function DistanceMatrix<P(!new)>(points: seq<P>, d: (P, P) -> real): (M: Matrix)
    ensures |M| == |points| && IsSquare(M)
    ensures forall i :: 0 <= i < |M| ==> M[i][i] == 0.0
    ensures forall i, j :: 0 <= i < |M| && 0 <= j < |M| ==> M[i][j] == M[j][i]
    ensures (forall a, b :: d(a, b) >= 0.0) ==> NonNegative(M)
    ensures IsGeoDistance(d) ==>
      forall i, j :: 0 <= i < |M| && 0 <= j < |M| ==> M[i][j] == d(points[i], points[j])
  {
    var n := |points|;
    seq(n, i requires 0 <= i < n =>
      seq(n, j requires 0 <= j < n =>
        if i < j then d(points[i], points[j])
        else if j < i then d(points[j], points[i])
        else 0.0))
  }

  predicate InRange(M: Matrix, rt: Route) {
    forall k :: 0 <= k < |rt| ==> rt[k] < |M|
  }

  /** `total_len`: the sum of `M[rt[i]][rt[i+1]]` over consecutive positions. */
  function PathLen(M: Matrix, rt: Route): real
    requires IsSquare(M) && InRange(M, rt)
    decreases |rt|
  {
    if |rt| <= 1 then 0.0
    else PathLen(M, rt[..|rt| - 1]) + M[rt[|rt| - 2]][rt[|rt| - 1]]
  }

  lemma {:induction false} PathLenNonNegative(M: Matrix, rt: Route)
    requires IsSquare(M) && NonNegative(M) && InRange(M, rt)
    ensures PathLen(M, rt) >= 0.0
    decreases |rt|
  {
    if |rt| > 1 {
      PathLenNonNegative(M, rt[..|rt| - 1]);
    }
  }

  /** `list(range(n))`. */
  function Iota(n: nat): (r: Route)
    ensures |r| == n && forall i :: 0 <= i < n ==> r[i] == i
  {
    if n == 0 then [] else Iota(n - 1) + [n - 1]
  }

  /** The indices `0..n-1`, as `set(range(n))`. */
  function IndexSet(n: nat): (r: set<nat>)
    ensures forall x: int :: x in r <==> 0 <= x < n
    ensures |r| == n
  {
    if n == 0 then {} else IndexSet(n - 1) + {n - 1}
  }

  /** `rt` lists every index `0..n-1` exactly once. */
  predicate IsPermutation(rt: Route, n: nat) {
    && |rt| == n
    && Distinct(rt)
    && (forall k :: 0 <= k < |rt| ==> rt[k] < n)
    && (forall x: nat :: x < n ==> x in rt)
  }

  /**
   `rt` is a nearest-neighbour construction from `start`: every step goes to an
   index of minimum distance among those not yet visited.
   */
  ghost predicate IsNearestNeighbourOrder(M: Matrix, rt: Route, start: nat)
    requires IsSquare(M) && InRange(M, rt)
  {
    && |rt| > 0
    && rt[0] == start
    && forall k, x :: 1 <= k < |rt| && 0 <= x < |M| && x !in rt[..k] ==>
         M[rt[k - 1]][rt[k]] <= M[rt[k - 1]][x]
  }

  /**
   `min(unvisited, key=lambda j: M[last, j])`: the set is scanned in an
   unspecified order and the first strictly smaller key wins.
   */
  method ClosestUnvisited(M: Matrix, last: nat, unvisited: set<nat>) returns (next: nat)
    requires IsSquare(M) && last < |M|
    requires unvisited != {} && forall x :: x in unvisited ==> x < |M|
    ensures next in unvisited
    ensures forall x :: x in unvisited ==> M[last][next] <= M[last][x]
  {
    next :| next in unvisited;
    var todo := unvisited - {next};
    while todo != {}
      invariant next in unvisited && todo <= unvisited
      invariant forall x :: x in unvisited && x !in todo ==> M[last][next] <= M[last][x]
      decreases |todo|
    {
      var y :| y in todo;
      if M[last][y] < M[last][next] {
        next := y;
      }
      todo := todo - {y};
    }
  }

  /** Appending a closest index not yet in the route keeps the construction greedy. */
  lemma NearestNeighbourStep(M: Matrix, rt: Route, start: nat, next: nat)
    requires IsSquare(M) && InRange(M, rt) && next < |M|
    requires IsNearestNeighbourOrder(M, rt, start)
    requires forall x :: 0 <= x < |M| && x !in rt ==> M[Last(rt)][next] <= M[Last(rt)][x]
    ensures IsNearestNeighbourOrder(M, rt + [next], start)
  {
    var rt' := rt + [next];
    forall k, x | 1 <= k < |rt'| && 0 <= x < |M| && x !in rt'[..k]
      ensures M[rt'[k - 1]][rt'[k]] <= M[rt'[k - 1]][x]
    {
      if k < |rt| {
        assert rt'[..k] == rt[..k];
      } else {
        assert rt'[..k] == rt;
      }
    }
  }

  /** Visiting `next` moves it from the unvisited set into the route. */
  /** One iteration of `nearest_neighbor`'s loop keeps its invariants. */
  lemma NearestNeighbourLoopStep(M: Matrix, rt: Route, start: nat, unvisited: set<nat>, next: nat)
    requires IsSquare(M) && InRange(M, rt) && Distinct(rt) && |rt| > 0
    requires unvisited == IndexSet(|M|) - Elements(rt) && IsNearestNeighbourOrder(M, rt, start)
    requires next in unvisited && forall x :: x in unvisited ==> M[rt[|rt| - 1]][next] <= M[rt[|rt| - 1]][x]
    ensures InRange(M, rt + [next]) && Distinct(rt + [next])
    ensures unvisited - {next} == IndexSet(|M|) - Elements(rt + [next])
    ensures IsNearestNeighbourOrder(M, rt + [next], start)
  {
    VisitStep(rt, |M|, unvisited, next);
    NearestNeighbourStep(M, rt, start, next);
  }

  lemma VisitStep(rt: Route, n: nat, unvisited: set<nat>, next: nat)
    requires Distinct(rt) && unvisited == IndexSet(n) - Elements(rt) && next in unvisited
    ensures Distinct(rt + [next])
    ensures unvisited - {next} == IndexSet(n) - Elements(rt + [next])
    ensures forall x :: 0 <= x < n && x !in rt ==> x in unvisited
  {
    ElementsSnoc(rt, next);
    DistinctSnoc(rt, next);
  }

  lemma CoveringIsPermutation(rt: Route, n: nat)
    requires Distinct(rt) && IndexSet(n) - Elements(rt) == {}
    requires forall k :: 0 <= k < |rt| ==> rt[k] < n
    ensures IsPermutation(rt, n)
  {
    assert Elements(rt) == IndexSet(n);
    DistinctCardinality(rt);
    forall x: nat | x < n
      ensures x in rt
    {
      assert x in IndexSet(n);
    }
  }

  /** The nearest-neighbour phase of `tsp_route`. */
  method NearestNeighbour(M: Matrix, start: nat) returns (rt: Route)
    requires IsSquare(M) && start < |M|
    ensures IsPermutation(rt, |M|)
    ensures IsNearestNeighbourOrder(M, rt, start)
  {
    var n := |M|;
    var unvisited := IndexSet(n) - {start};
    rt := [start];
    while unvisited != {}
      invariant InRange(M, rt) && Distinct(rt)
      invariant unvisited == IndexSet(n) - Elements(rt)
      invariant IsNearestNeighbourOrder(M, rt, start)
      decreases |unvisited|
    {
      var last := rt[|rt| - 1];
      var next := ClosestUnvisited(M, last, unvisited);
      NearestNeighbourLoopStep(M, rt, start, unvisited, next);
      rt := rt + [next];
      unvisited := unvisited - {next};
    }
    assert InRange(M, rt);
    CoveringIsPermutation(rt, n);
  }

  /**
   The 2-opt move `route[:i] + route[i:j+1][::-1] + route[j+1:]`: positions
   outside `i..j` keep their index, and position `k` inside receives the index
   that stood at `i + j - k`.
   */
  function TwoOptMove(rt: Route, i: nat, j: nat): (r: Route)
    requires i <= j < |rt|
    ensures |r| == |rt|
    ensures forall k :: 0 <= k < |rt| && (k < i || j < k) ==> r[k] == rt[k]
    ensures forall k :: i <= k <= j ==> r[k] == rt[i + j - k]
  {
    rt[..i] + Rev(rt[i..j + 1]) + rt[j + 1..]
  }

  lemma TwoOptMoveKeepsPermutation(rt: Route, n: nat, i: nat, j: nat)
    requires IsPermutation(rt, n) && i <= j < |rt|
    ensures IsPermutation(TwoOptMove(rt, i, j), n)
  {
    var r := TwoOptMove(rt, i, j);
    forall a, b | 0 <= a < b < |r|
      ensures r[a] != r[b]
    {
      var a' := if i <= a <= j then i + j - a else a;
      var b' := if i <= b <= j then i + j - b else b;
      assert r[a] == rt[a'] && r[b] == rt[b'];
      assert a' != b';
    }
    forall x: nat | x < n
      ensures x in r
    {
      assert x in rt;
      var p :| 0 <= p < |rt| && rt[p] == x;
      var p' := if i <= p <= j then i + j - p else p;
      assert r[p'] == x;
    }
  }

  /** The reversal of `i..j` shortens the route by more than `Eps`. */
  predicate Improves(M: Matrix, rt: Route, i: nat, j: nat)
    requires IsSquare(M) && InRange(M, rt) && i <= j < |rt|
  {
    PathLen(M, TwoOptMove(rt, i, j)) + Eps < PathLen(M, rt)
  }

  /** No move with `1 <= i < j <= n-2` improves the route: a 2-opt local optimum. */
  ghost predicate IsLocalOptimum(M: Matrix, rt: Route)
    requires IsSquare(M) && InRange(M, rt)
  {
    forall i: nat, j: nat :: 1 <= i < j <= |rt| - 2 ==> !Improves(M, rt, i, j)
  }

  /** `(a, b)` comes before `(i, j)` in the scan order of the two nested loops. */
  predicate ScannedBefore(a: nat, b: nat, i: nat, j: nat) {
    a < i || (a == i && b < j)
  }

  /**
   One pass of the nested `for i … for j …` loops of 2-opt, stopped at the
   first improving move.
   */
  method FirstImprovingMove(M: Matrix, rt: Route) returns (mv: Option<(nat, nat)>)
    requires IsSquare(M) && InRange(M, rt)
    ensures mv.None? ==> IsLocalOptimum(M, rt)
    ensures mv.Some? ==>
      var (i, j) := mv.value;
      && 1 <= i < j <= |rt| - 2
      && Improves(M, rt, i, j)
      && forall a: nat, b: nat :: 1 <= a < b <= |rt| - 2 && ScannedBefore(a, b, i, j) ==> !Improves(M, rt, a, b)
  {
    var n := |rt|;
    var i := 1;
    while i < n - 2
      invariant 1 <= i
      invariant forall a: nat, b: nat :: 1 <= a < i && a < b <= n - 2 ==> !Improves(M, rt, a, b)
    {
      var j := FirstImprovingPartner(M, rt, i);
      if j.Some? {
        return Some((i, j.value));
      }
      i := i + 1;
    }
    return None;
  }

  /** The inner `for j in range(i + 1, n - 1)` loop of one 2-opt scan. */
  method FirstImprovingPartner(M: Matrix, rt: Route, i: nat) returns (j: Option<nat>)
    requires IsSquare(M) && InRange(M, rt) && 1 <= i < |rt| - 2
    ensures j.None? ==> forall b: nat :: i < b <= |rt| - 2 ==> !Improves(M, rt, i, b)
    ensures j.Some? ==> i < j.value <= |rt| - 2 && Improves(M, rt, i, j.value)
    ensures j.Some? ==> forall b: nat :: i < b < j.value ==> !Improves(M, rt, i, b)
  {
    var b := i + 1;
    while b < |rt| - 1
      invariant i + 1 <= b <= |rt| - 1
      invariant forall b': nat :: i < b' < b ==> !Improves(M, rt, i, b')
    {
      if Improves(M, rt, i, b) {
        return Some(b);
      }
      b := b + 1;
    }
    return None;
  }

  /**
   The 2-opt phase of `tsp_route`: apply the first improving move and rescan
   until a full scan finds none. The route stays a permutation with both
   endpoints fixed, its length only goes down, and the result is a local
   optimum whose reported length is its path length.
   */
  method TwoOpt(M: Matrix, init: Route) returns (rt: Route, best: real)
    requires IsSquare(M) && NonNegative(M) && IsPermutation(init, |M|)
    ensures IsPermutation(rt, |M|)
    ensures |rt| > 0 ==> rt[0] == init[0] && Last(rt) == Last(init)
    ensures |rt| <= 3 ==> rt == init
    ensures best == PathLen(M, rt) && best <= PathLen(M, init)
    ensures IsLocalOptimum(M, rt)
  {
    rt := init;
    best := PathLen(M, rt);
    PathLenNonNegative(M, rt);
    var improved := true;
    while improved
      invariant IsPermutation(rt, |M|)
      invariant |rt| > 0 ==> rt[0] == init[0] && Last(rt) == Last(init)
      invariant |rt| <= 3 ==> rt == init
      invariant best == PathLen(M, rt) && best <= PathLen(M, init) && best >= 0.0
      invariant !improved ==> IsLocalOptimum(M, rt)
      decreases (best * 1000000000.0).Floor + (if improved then 1 else 0)
    {
      improved := false;
      var mv := FirstImprovingMove(M, rt);
      if mv.Some? {
        var (i, j) := mv.value;
        var next := TwoOptMove(rt, i, j);
        TwoOptMoveKeepsPermutation(rt, |M|, i, j);
        PathLenNonNegative(M, next);
        assert PathLen(M, next) + Eps < best;
        rt := next;
        best := PathLen(M, rt);
        improved := true;
      }
    }
  }

  /**
   `tsp_route`: at most one point gives `list(range(n))` and length 0; otherwise
   a permutation starting at `start` that is a 2-opt local optimum, no longer
   than some nearest-neighbour order from `start` with the same last index
   (identical to it when `n <= 3`), whose length is the reported one.
   */
  method TspRoute<P(!new)>(points: seq<P>, d: (P, P) -> real, start: nat) returns (rt: Route, len: real)
    requires |points| <= 1 || start < |points|
    requires forall a, b :: d(a, b) >= 0.0
    ensures |points| <= 1 ==> rt == Iota(|points|) && len == 0.0
    ensures |points| >= 2 ==>
      var M := DistanceMatrix(points, d);
      && IsPermutation(rt, |points|)
      && rt[0] == start
      && len == PathLen(M, rt)
      && IsLocalOptimum(M, rt)
      && exists nn: Route :: IsPermutation(nn, |points|) && IsNearestNeighbourOrder(M, nn, start)
           && len <= PathLen(M, nn) && Last(rt) == Last(nn) && (|points| <= 3 ==> rt == nn)
  {
    var n := |points|;
    if n <= 1 {
      return Iota(n), 0.0;
    }
    var M := DistanceMatrix(points, d);
    var nn := NearestNeighbour(M, start);
    rt, len := TwoOpt(M, nn);
    assert IsPermutation(nn, n) && IsNearestNeighbourOrder(M, nn, start)
      && len <= PathLen(M, nn) && Last(rt) == Last(nn) && (n <= 3 ==> rt == nn);
  }
}
