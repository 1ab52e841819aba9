/**
 The backend optimizer's aggregation (`estimate_eta_km` and `optimize`):
 cluster the points, order each cluster with the TSP heuristic, convert its
 length to an ETA, and total lengths and ETAs over clusters. Totals are the
 values before the final rounding.
 */
module Backend {
  import opened Common
  import opened Clustering
  import opened Tsp

  /** A delivery point: an identifier and its coordinates. */
  datatype Point = Point(id: string, lat: real, lon: real)

  /** Default average speed of `estimate_eta_km`, km/h. */
  const DefaultSpeedKmh: real := 25.0

  /** Floor applied to the speed before dividing by it. */
  const MinSpeedKmh: real := 0.000001

  /**
   `estimate_eta_km`: minutes needed to cover `distanceKm` at `avgSpeedKmh`,
   the speed floored at `MinSpeedKmh`.
   */
  function EstimateEta(distanceKm: real, avgSpeedKmh: real): (r: real)
    ensures distanceKm >= 0.0 ==> r >= 0.0
    ensures distanceKm == 0.0 ==> r == 0.0
    ensures avgSpeedKmh >= MinSpeedKmh ==> r * avgSpeedKmh == distanceKm * 60.0
    ensures avgSpeedKmh < MinSpeedKmh ==> r * MinSpeedKmh == distanceKm * 60.0
  {
    distanceKm / Max(MinSpeedKmh, avgSpeedKmh) * 60.0
  }

  /** ETA is linear in distance: the ETA of a sum is the sum of the ETAs. */
  lemma EstimateEtaAdditive(a: real, b: real, speed: real)
    ensures EstimateEta(a + b, speed) == EstimateEta(a, speed) + EstimateEta(b, speed)
  {
    var s := Max(MinSpeedKmh, speed);
    assert (a + b) / s == a / s + b / s;
  }

  lemma EstimateEtaMonotone(a: real, b: real, speed: real)
    requires a <= b
    ensures EstimateEta(a, speed) <= EstimateEta(b, speed)
  {
    var s := Max(MinSpeedKmh, speed);
    assert a / s <= b / s;
  }

  /** `[pts[i] for i in order_idx]`. */
  function Pick<T>(xs: seq<T>, idx: Route): (r: seq<T>)
    requires forall k :: 0 <= k < |idx| ==> idx[k] < |xs|
    ensures |r| == |idx| && forall k :: 0 <= k < |idx| ==> r[k] == xs[idx[k]]
  {
    seq(|idx|, k requires 0 <= k < |idx| => xs[idx[k]])
  }

  /** Removing the position of the largest index leaves a permutation of the smaller ones. */
  lemma RemoveLargest(rt: Route, n: nat, m: nat)
    requires n > 0 && IsPermutation(rt, n) && m < |rt| && rt[m] == n - 1
    ensures IsPermutation(RemoveAt(rt, m), n - 1)
  {
    var rt' := RemoveAt(rt, m);
    forall a, b | 0 <= a < b < |rt'|
      ensures rt'[a] != rt'[b]
    {
      var a' := if a < m then a else a + 1;
      var b' := if b < m then b else b + 1;
      assert rt'[a] == rt[a'] && rt'[b] == rt[b'];
    }
    forall k | 0 <= k < |rt'|
      ensures rt'[k] < n - 1
    {
      var k' := if k < m then k else k + 1;
      assert rt'[k] == rt[k'];
    }
    forall x: nat | x < n - 1
      ensures x in rt'
    {
      assert x in rt;
      var p :| 0 <= p < |rt| && rt[p] == x;
      if p < m {
        assert rt'[p] == x;
      } else {
        assert rt'[p - 1] == x;
      }
    }
  }

  /** Picking through a route with one position set apart. */
  lemma PickSplit<T>(xs: seq<T>, rt: Route, m: nat)
    requires forall k :: 0 <= k < |rt| ==> rt[k] < |xs|
    requires m < |rt|
    ensures multiset(Pick(xs, rt)) == multiset(Pick(xs, RemoveAt(rt, m))) + multiset{xs[rt[m]]}
  {
    var a, b := Pick(xs, rt[..m]), Pick(xs, rt[m + 1..]);
    var whole, rest := Pick(xs, rt), Pick(xs, RemoveAt(rt, m));
    forall k | 0 <= k < |whole|
      ensures whole[k] == (a + [xs[rt[m]]] + b)[k]
    {
      if k < m {
        assert rt[..m][k] == rt[k];
      } else if k > m {
        assert rt[m + 1..][k - m - 1] == rt[k];
      }
    }
    forall k | 0 <= k < |rest|
      ensures rest[k] == (a + b)[k]
    {
      if k < m {
        assert rt[..m][k] == rt[k];
      } else {
        assert rt[m + 1..][k - m] == rt[k + 1];
      }
    }
    assert whole == a + [xs[rt[m]]] + b;
    assert rest == a + b;
    MultisetSplit(a, xs[rt[m]], b);
  }

  /** Picking only indices below `|ys|` reads the same entries from any extension of `ys`. */
  lemma PickPrefix<T>(ys: seq<T>, xs: seq<T>, rt: Route)
    requires |ys| <= |xs| && ys == xs[..|ys|]
    requires forall k :: 0 <= k < |rt| ==> rt[k] < |ys|
    ensures Pick(ys, rt) == Pick(xs, rt)
  {
  }

  lemma MultisetSplit<T>(a: seq<T>, x: T, b: seq<T>)
    ensures multiset(a + [x] + b) == multiset(a + b) + multiset{x}
  {
    calc {
      multiset(a + [x] + b);
      multiset(a) + multiset([x]) + multiset(b);
      multiset(a + b) + multiset{x};
    }
  }

  /** Reading a sequence through a permutation of its indices reorders it. */
  lemma {:induction false} PickPermutation<T>(xs: seq<T>, rt: Route)
    requires IsPermutation(rt, |xs|)
    ensures multiset(Pick(xs, rt)) == multiset(xs)
    decreases |xs|
  {
    var n := |xs|;
    if n > 0 {
      assert n - 1 in rt;
      var m :| 0 <= m < |rt| && rt[m] == n - 1;
      var rt' := RemoveAt(rt, m);
      RemoveLargest(rt, n, m);
      PickPermutation(xs[..n - 1], rt');
      PickSplit(xs, rt, m);
      PickPrefix(xs[..n - 1], xs, rt');
      assert xs == xs[..n - 1] + [xs[n - 1]];
    }
  }

  /** `[p.id for p in ordered]`. */
  function Ids(pts: seq<Point>): (r: seq<string>)
    ensures |r| == |pts| && forall k :: 0 <= k < |pts| ==> r[k] == pts[k].id
  {
    seq(|pts|, k requires 0 <= k < |pts| => pts[k].id)
  }

  /** Length of the open path through `pts` in order, measured with `geo`. */
  function PointPathLen(geo: (Point, Point) -> real, pts: seq<Point>): real
    decreases |pts|
  {
    if |pts| <= 1 then 0.0
    else PointPathLen(geo, pts[..|pts| - 1]) + geo(pts[|pts| - 2], pts[|pts| - 1])
  }

  /** The matrix length of an index route is the geodesic length of the points it picks. */
  lemma PathLenOfPick(geo: (Point, Point) -> real, pts: seq<Point>, rt: Route)
    requires IsGeoDistance(geo)
    requires forall k :: 0 <= k < |rt| ==> rt[k] < |pts|
    ensures PathLen(DistanceMatrix(pts, geo), rt) == PointPathLen(geo, Pick(pts, rt))
  {
    var M, ps := DistanceMatrix(pts, geo), Pick(pts, rt);
    forall k | 0 <= k < |rt|
      ensures StepMatches(M, geo, rt, ps, k)
    {
      if k + 1 < |rt| {
        assert M[rt[k]][rt[k + 1]] == geo(pts[rt[k]], pts[rt[k + 1]]);
      }
    }
    PathLenOfEntries(M, geo, rt, ps);
  }

  /** The matrix entry for the step after position `k` of `rt` is the distance between the points `ps` holds there. */
  ghost predicate StepMatches(M: Matrix, geo: (Point, Point) -> real, rt: Route, ps: seq<Point>, k: nat)
    requires IsSquare(M) && InRange(M, rt) && |ps| == |rt|
  {
    k + 1 < |rt| ==> M[rt[k]][rt[k + 1]] == geo(ps[k], ps[k + 1])
  }

  /** The matrix length of a route is the geodesic length of the points along it when every step matches. */
  lemma {:induction false} PathLenOfEntries(M: Matrix, geo: (Point, Point) -> real, rt: Route, ps: seq<Point>)
    requires IsSquare(M) && InRange(M, rt) && |ps| == |rt|
    requires forall k :: 0 <= k < |rt| ==> StepMatches(M, geo, rt, ps, k)
    ensures PathLen(M, rt) == PointPathLen(geo, ps)
    decreases |rt|
  {
    var n := |rt|;
    if n > 1 {
      var rt', ps' := rt[..n - 1], ps[..n - 1];
      forall k | 0 <= k < n - 1
        ensures StepMatches(M, geo, rt', ps', k)
      {
        assert StepMatches(M, geo, rt, ps, k);
      }
      PathLenOfEntries(M, geo, rt', ps');
      assert StepMatches(M, geo, rt, ps, n - 2);
    }
  }

  /** One entry of `result["clusters"]`, before rounding. */
  datatype ClusterRoute = ClusterRoute(
    zone: int, order: seq<string>, points: seq<Point>, distanceKm: real, etaMin: real)

  /** The dictionary `optimize` returns, before rounding. */
  datatype Summary = Summary(clusters: seq<ClusterRoute>, totalKm: real, totalEtaMin: real)

  /** KMeans cannot be fitted on an empty point list. */
  datatype OptimizeError = NoPoints

  function TotalKm(cs: seq<ClusterRoute>): real
    decreases |cs|
  {
    if |cs| == 0 then 0.0 else TotalKm(cs[..|cs| - 1]) + cs[|cs| - 1].distanceKm
  }

  function TotalEta(cs: seq<ClusterRoute>): real
    decreases |cs|
  {
    if |cs| == 0 then 0.0 else TotalEta(cs[..|cs| - 1]) + cs[|cs| - 1].etaMin
  }

  /** Python's `<` on `(lat, lon)` tuples: `a` is south of `b`, or level with it and west of it. */
  predicate SouthWestOf(a: Point, b: Point) {
    a.lat < b.lat || (a.lat == b.lat && a.lon < b.lon)
  }

  /**
   The start a zone's tour is meant to take, "the most south-west" point: the
   first position whose `(lat, lon)` is least in tuple order, so no point
   lies south-west of it and every earlier point lies north-east of it.
   */
  function SouthWestIndex(pts: seq<Point>): (r: nat)
    requires |pts| > 0
    ensures r < |pts|
    ensures forall k :: 0 <= k < |pts| ==> !SouthWestOf(pts[k], pts[r])
    ensures forall k :: 0 <= k < r ==> SouthWestOf(pts[r], pts[k])
    decreases |pts|
  {
    if |pts| == 1 then 0
    else
      var init := pts[..|pts| - 1];
      assert forall k :: 0 <= k < |init| ==> init[k] == pts[k];
      var m := SouthWestIndex(init);
      if SouthWestOf(pts[|pts| - 1], pts[m]) then |pts| - 1 else m
  }

  /**
   The array `np.argmin` scans when handed the list of `(lat, lon)` pairs:
   numpy turns it into an `n` by 2 array and searches it flattened, so entry
   `2 * i` is the latitude of point `i` and entry `2 * i + 1` its longitude.
   */
  function FlatCoordinates(pts: seq<Point>): (r: seq<real>)
    ensures |r| == 2 * |pts|
    ensures forall i :: 0 <= i < |pts| ==> r[2 * i] == pts[i].lat && r[2 * i + 1] == pts[i].lon
    decreases |pts|
  {
    if |pts| == 0 then [] else [pts[0].lat, pts[0].lon] + FlatCoordinates(pts[1..])
  }

  /** `np.argmin`: the first position of a least entry. */
  function ArgMin(xs: seq<real>): (r: nat)
    requires |xs| > 0
    ensures r < |xs|
    ensures forall k :: 0 <= k < |xs| ==> xs[r] <= xs[k]
    ensures forall k :: 0 <= k < r ==> xs[r] < xs[k]
    decreases |xs|
  {
    if |xs| == 1 then 0
    else
      var init := xs[..|xs| - 1];
      assert forall k :: 0 <= k < |init| ==> init[k] == xs[k];
      var m := ArgMin(init);
      if xs[|xs| - 1] < xs[m] then |xs| - 1 else m
  }

  /**
   `start_idx` as line 87 computes it: a position in the flattened array of
   coordinates, which may be as large as `2 * n - 1`, and which `tsp_route`
   then uses as a point index (`unvisited.remove(start_idx)` raises
   `KeyError` when it is `n` or more and the zone has two or more points).
   */
  function StartIndexAsWritten(pts: seq<Point>): (r: nat)
    requires |pts| > 0
    ensures r < 2 * |pts|
    ensures forall i :: 0 <= i < |pts| ==>
      FlatCoordinates(pts)[r] <= pts[i].lat && FlatCoordinates(pts)[r] <= pts[i].lon
    ensures forall k :: 0 <= k < r ==> FlatCoordinates(pts)[r] < FlatCoordinates(pts)[k]
  {
    var xs := FlatCoordinates(pts);
    var r := ArgMin(xs);
    assert forall i :: 0 <= i < |pts| ==> xs[r] <= xs[2 * i] && xs[r] <= xs[2 * i + 1];
    r
  }

  /**
   Two points of a zone in Sao Paulo: the smallest coordinate is the second
   point's longitude, at flattened position 3, which is no index of a point,
   so `tsp_route` raises `KeyError`; the south-west point is the second one.
   */
  lemma AsWrittenStartOutOfRange()
    ensures var pts := [Point("a", -23.5, -46.6), Point("b", -23.6, -46.7)];
      && StartIndexAsWritten(pts) == 3
      && StartIndexAsWritten(pts) >= |pts|
      && SouthWestIndex(pts) == 1
  {
    var pts := [Point("a", -23.5, -46.6), Point("b", -23.6, -46.7)];
    var xs := FlatCoordinates(pts);
    assert xs[0] == -23.5 && xs[1] == -46.6 && xs[2] == -23.6 && xs[3] == -46.7;
  }

  /**
   Three points whose westernmost is the first: the flattened argmin is
   position 1, the first point's longitude, and the tour silently starts at
   point 1, which is not the south-west point 0.
   */
  lemma AsWrittenStartWrongPoint()
    ensures var pts := [Point("a", -23.6, -46.8), Point("b", -23.5, -46.6), Point("c", -23.4, -46.7)];
      && StartIndexAsWritten(pts) == 1
      && SouthWestIndex(pts) == 0
  {
    var pts := [Point("a", -23.6, -46.8), Point("b", -23.5, -46.6), Point("c", -23.4, -46.7)];
    var xs := FlatCoordinates(pts);
    assert xs[0] == -23.6 && xs[1] == -46.8 && xs[2] == -23.5 && xs[3] == -46.6 && xs[4] == -23.4 && xs[5] == -46.7;
  }

  /**
   What `tsp_route` guarantees of a tour beyond being a permutation: no
   2-opt move improves it, and it is no longer than the nearest-neighbour
   tour 2-opt started from (at the same start).
   */
  ghost predicate IsHeuristicTour(M: Matrix, rt: Route)
    requires IsSquare(M) && IsPermutation(rt, |M|)
  {
    && IsLocalOptimum(M, rt)
    && (|rt| >= 2 ==>
          exists nn: Route :: IsPermutation(nn, |M|) && IsNearestNeighbourOrder(M, nn, rt[0])
            && PathLen(M, rt) <= PathLen(M, nn))
  }

  /**
   What `optimize` promises of the route of one cluster with the given
   members: its points are the members reordered along a heuristic tour
   (a 2-opt local optimum no longer than its nearest-neighbour start),
   starting at the zone's south-westernmost point; its order lists their ids; its length is the geodesic length
   of that path; its ETA is the default-speed ETA of that length.
   */
  ghost predicate RoutesCluster(c: ClusterRoute, members: seq<Point>, geo: (Point, Point) -> real)
  {
    && multiset(c.points) == multiset(members)
    && (exists rt: Route :: IsPermutation(rt, |members|) && c.points == Pick(members, rt)
          && IsHeuristicTour(DistanceMatrix(members, geo), rt))
    && c.order == Ids(c.points)
    && (|members| >= 2 ==> c.points[0] == members[SouthWestIndex(members)])
    && c.distanceKm == PointPathLen(geo, c.points)
    && c.etaMin == EstimateEta(c.distanceKm, DefaultSpeedKmh)
  }

  /** Per-cluster ETAs at the default speed total to the ETA of the total length. */
  lemma {:induction false} TotalEtaOfTotalKm(cs: seq<ClusterRoute>)
    requires forall i :: 0 <= i < |cs| ==> cs[i].etaMin == EstimateEta(cs[i].distanceKm, DefaultSpeedKmh)
    ensures TotalEta(cs) == EstimateEta(TotalKm(cs), DefaultSpeedKmh)
    decreases |cs|
  {
    if |cs| > 0 {
      TotalEtaOfTotalKm(cs[..|cs| - 1]);
      EstimateEtaAdditive(TotalKm(cs[..|cs| - 1]), cs[|cs| - 1].distanceKm, DefaultSpeedKmh);
    }
  }

  /** The TSP tour of one cluster: an ordering of its points from `start`, and the tour's length. */
  method ClusterTour(pts: seq<Point>, geo: (Point, Point) -> real, start: nat) returns (rt: Route, len: real)
    requires IsGeoDistance(geo)
    requires |pts| <= 1 || start < |pts|
    ensures IsPermutation(rt, |pts|) && len == PathLen(DistanceMatrix(pts, geo), rt)
    ensures |pts| >= 2 ==> rt[0] == start
    ensures IsHeuristicTour(DistanceMatrix(pts, geo), rt)
  {
    rt, len := TspRoute(pts, geo, start);
    if |pts| <= 1 {
      assert forall x: nat :: x < |pts| ==> rt[x] == x;
    }
  }

  /** Routes one cluster: TSP order, the points in that order, length and ETA. */
  method RouteCluster(zone: int, pts: seq<Point>, geo: (Point, Point) -> real)
    returns (c: ClusterRoute)
    requires IsGeoDistance(geo)
    ensures c.zone == zone
    ensures RoutesCluster(c, pts, geo)
  {
    var rt, len := ClusterTour(pts, geo, if |pts| == 0 then 0 else SouthWestIndex(pts));
    ClusterRouteOfTour(zone, pts, geo, rt, len);
    var ordered := Pick(pts, rt);
    c := ClusterRoute(zone, Ids(ordered), ordered, len, EstimateEta(len, DefaultSpeedKmh));
  }

  /** The cluster route built from a tour of the cluster's points is what `optimize` promises. */
  lemma ClusterRouteOfTour(zone: int, pts: seq<Point>, geo: (Point, Point) -> real, rt: Route, len: real)
    requires IsGeoDistance(geo)
    requires IsPermutation(rt, |pts|) && len == PathLen(DistanceMatrix(pts, geo), rt)
    requires |pts| >= 2 ==> rt[0] == SouthWestIndex(pts)
    requires IsHeuristicTour(DistanceMatrix(pts, geo), rt)
    ensures var ordered := Pick(pts, rt);
      RoutesCluster(ClusterRoute(zone, Ids(ordered), ordered, len, EstimateEta(len, DefaultSpeedKmh)), pts, geo)
  {
    PickPermutation(pts, rt);
    PathLenOfPick(geo, pts, rt);
  }

  /**
   `optimize`: the empty list fails (KMeans cannot fit it); otherwise one
   route per distinct label, in order of first appearance, each routing
   exactly the points with that label, and totals that are the sums over the
   routes, the total ETA being the ETA of the total length.
   */
  method Optimize(points: seq<Point>, kClusters: Option<int>,
                  kmeans: (seq<Point>, int) -> seq<int>,
                  geo: (Point, Point) -> real)
    returns (r: Result<Summary, OptimizeError>)
    requires IsGeoDistance(geo)
    requires forall pts, k :: |kmeans(pts, k)| == |pts|
    ensures r.Err? <==> |points| == 0
    ensures r.Ok? ==>
      var labels := kmeans(points, ClampK(kClusters.GetOr(0), |points|));
      var s := r.value;
      && |s.clusters| == |Elements(labels)|
      && Elements(ZonesOf(s.clusters)) == Elements(labels)
      && Distinct(ZonesOf(s.clusters))
      && FirstAppearanceOrder(ZonesOf(s.clusters), labels)
      && (forall i :: 0 <= i < |s.clusters| ==>
            RoutesCluster(s.clusters[i], Select(labels, points, s.clusters[i].zone), geo))
      && s.totalKm == TotalKm(s.clusters)
      && s.totalEtaMin == TotalEta(s.clusters)
      && s.totalEtaMin == EstimateEta(s.totalKm, DefaultSpeedKmh)
  {
    if |points| == 0 {
      return Err(NoPoints);
    }
    var k := ClampK(kClusters.GetOr(0), |points|);
    var labels := kmeans(points, k);
    var groups := GroupByLabel(labels, points);
    var out, totalKm, totalEta := RouteGroups(groups, geo);
    OptimizeSummary(labels, points, out, geo);
    return Ok(Summary(out, totalKm, totalEta));
  }

  /** The loop of `optimize` over the clusters: route each, accumulating the totals. */
  method RouteGroups(groups: seq<Cluster<Point>>, geo: (Point, Point) -> real)
    returns (out: seq<ClusterRoute>, totalKm: real, totalEta: real)
    requires IsGeoDistance(geo)
    ensures RoutesGroups(out, groups, geo)
    ensures totalKm == TotalKm(out) && totalEta == TotalEta(out)
  {
    out, totalKm, totalEta := [], 0.0, 0.0;
    for g := 0 to |groups|
      invariant RoutesGroups(out, groups[..g], geo)
      invariant totalKm == TotalKm(out) && totalEta == TotalEta(out)
    {
      var c := RouteCluster(groups[g].zone, groups[g].members, geo);
      RouteGroupsStep(out, groups, g, c, geo);
      out := out + [c];
      totalKm := totalKm + c.distanceKm;
      totalEta := totalEta + c.etaMin;
    }
    assert groups[..|groups|] == groups;
  }

  /** `out[i]` is the route of `groups[i]`, for every `i`. */
  ghost predicate RoutesGroups(out: seq<ClusterRoute>, groups: seq<Cluster<Point>>,
                               geo: (Point, Point) -> real)
  {
    && |out| == |groups|
    && forall i :: 0 <= i < |out| ==>
         out[i].zone == groups[i].zone && RoutesCluster(out[i], groups[i].members, geo)
  }

  /** One iteration of the loop of `RouteGroups` keeps its invariants. */
  lemma RouteGroupsStep(out: seq<ClusterRoute>, groups: seq<Cluster<Point>>, g: nat, c: ClusterRoute,
                        geo: (Point, Point) -> real)
    requires g < |groups| && RoutesGroups(out, groups[..g], geo)
    requires c.zone == groups[g].zone && RoutesCluster(c, groups[g].members, geo)
    ensures RoutesGroups(out + [c], groups[..g + 1], geo)
    ensures TotalKm(out + [c]) == TotalKm(out) + c.distanceKm
    ensures TotalEta(out + [c]) == TotalEta(out) + c.etaMin
  {
    RoutesGroupsSnoc(out, groups[..g], c, groups[g], geo);
    assert groups[..g] + [groups[g]] == groups[..g + 1];
    assert (out + [c])[..|out|] == out;
  }

  lemma RoutesGroupsSnoc(out: seq<ClusterRoute>, groups: seq<Cluster<Point>>, c: ClusterRoute,
                         g: Cluster<Point>, geo: (Point, Point) -> real)
    requires RoutesGroups(out, groups, geo)
    requires c.zone == g.zone && RoutesCluster(c, g.members, geo)
    ensures RoutesGroups(out + [c], groups + [g], geo)
  {
  }

  /** The routes of all groups of `labels` satisfy what `Optimize` promises. */
  lemma OptimizeSummary(labels: seq<int>, points: seq<Point>, out: seq<ClusterRoute>,
                        geo: (Point, Point) -> real)
    requires |labels| == |points|
    requires RoutesGroups(out, GroupByLabel(labels, points), geo)
    ensures |out| == |Elements(labels)|
    ensures Elements(ZonesOf(out)) == Elements(labels)
    ensures Distinct(ZonesOf(out))
    ensures FirstAppearanceOrder(ZonesOf(out), labels)
    ensures forall i :: 0 <= i < |out| ==>
              RoutesCluster(out[i], Select(labels, points, out[i].zone), geo)
    ensures TotalEta(out) == EstimateEta(TotalKm(out), DefaultSpeedKmh)
  {
    var groups := GroupByLabel(labels, points);
    GroupByLabelPartitions(labels, points);
    ClusterCount(labels, points);
    assert ZonesOf(out) == Labels(groups);
    TotalEtaOfTotalKm(out);
  }

  function ZonesOf(cs: seq<ClusterRoute>): seq<int> {
    seq(|cs|, i requires 0 <= i < |cs| => cs[i].zone)
  }
}
