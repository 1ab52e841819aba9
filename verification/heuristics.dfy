/**
 The A* heuristics of the road-network modules.

 `_heuristica` (`src/routing.py`) and `h_func` (`src/route.py`) estimate the
 remaining cost on an OSM road graph from the great-circle distance in
 metres: the distance itself when the weight is `"length"`, otherwise the
 distance divided by 13.9 m/s (about 50 km/h) as seconds of travel time.
 `_heuristica_factory` (`src/otimiza_rota.py`) works on the CSV graph: the
 haversine distance in kilometres, turned into minutes at 40 km/h when the
 weight is `"tempo_min"`, and 0 when a node lacks a coordinate.

 The geodesic distances are parameters; trigonometry is not modelled.
 */
module Heuristics {
  import opened Common

  /** The speed in metres per second that turns metres into seconds (about 50 km/h). */
  const AssumedSpeedMps: real := 13.9

  /** `vel_padrao_kmh`, the speed at which the CSV heuristic turns kilometres into minutes. */
  const FactorySpeedKmh: real := 40.0

  /**
   `_heuristica` / `h_func`: the estimate from `u` to `target` for the edge
   weight `weight`. For `"length"` it is the great-circle distance; for any
   other weight it is that distance covered at 13.9 m/s, so a non-negative
   distance gives an estimate between 0 and the distance, and 0 at the target.
   */
  function RoadHeuristic<P>(gc: (P, P) -> real, u: P, target: P, weight: string): (r: real)
    ensures weight == "length" ==> r == gc(u, target)
    ensures weight != "length" ==> r * AssumedSpeedMps == gc(u, target)
    ensures gc(u, target) >= 0.0 ==> 0.0 <= r <= gc(u, target)
    ensures gc(u, target) == 0.0 ==> r == 0.0
  {
    if weight == "length" then gc(u, target) else gc(u, target) / AssumedSpeedMps
  }

  /**
   The road heuristic is consistent across an edge `u`–`v` of weight `w`
   when the great-circle distance obeys the triangle inequality and the edge
   is no shorter than the straight line (for `"length"`) or is not travelled
   faster than 13.9 m/s (for travel time).
   */
  lemma RoadHeuristicConsistent<P(!new)>(gc: (P, P) -> real, u: P, v: P, target: P, weight: string, w: real)
    requires IsGeoDistance(gc)
    requires forall a, b, c :: gc(a, c) <= gc(a, b) + gc(b, c)
    requires weight == "length" ==> w >= gc(u, v)
    requires weight != "length" ==> w * AssumedSpeedMps >= gc(u, v)
    ensures RoadHeuristic(gc, u, target, weight) <= w + RoadHeuristic(gc, v, target, weight)
  {
    assert gc(u, target) <= gc(u, v) + gc(v, target);
    if weight != "length" {
      assert gc(u, target) / AssumedSpeedMps <= gc(u, v) / AssumedSpeedMps + gc(v, target) / AssumedSpeedMps;
    }
  }

  /** A node's coordinate as the CSV graph stores it: latitude and longitude. */
  type LatLon = (real, real)

  /**
   `_heuristica_factory`'s `h(u, _)`: the haversine kilometres from `u` to
   `target`, as minutes at 40 km/h when the weight is `"tempo_min"`; 0 when
   either coordinate is missing (the `KeyError` it catches). A non-negative
   distance gives a non-negative estimate, and a zero distance gives 0.
   */
  function FactoryHeuristic<N>(loc: N -> Option<LatLon>, hav: (LatLon, LatLon) -> real, u: N, target: N,
                               weight: string): (r: real)
    ensures loc(u).None? || loc(target).None? ==> r == 0.0
    ensures loc(u).Some? && loc(target).Some? ==>
      var dist := hav(loc(u).value, loc(target).value);
      && (weight == "tempo_min" ==> r * FactorySpeedKmh == dist * 60.0)
      && (weight != "tempo_min" ==> r == dist)
      && (dist >= 0.0 ==> r >= 0.0)
      && (dist == 0.0 ==> r == 0.0)
  {
    if loc(u).None? || loc(target).None? then 0.0
    else
      var dist := hav(loc(u).value, loc(target).value);
      if weight == "tempo_min" then dist / FactorySpeedKmh * 60.0 else dist
  }

  /**
   The CSV heuristic is consistent across an edge `u`–`v` of weight `w`
   when all three coordinates are known, the haversine distance obeys the
   triangle inequality, and the edge is no shorter than the straight line
   (for kilometres) or is not travelled faster than 40 km/h (for minutes).
   */
  lemma FactoryHeuristicConsistent<N(!new)>(loc: N -> Option<LatLon>, hav: (LatLon, LatLon) -> real,
                                            u: N, v: N, target: N, weight: string, w: real)
    requires IsGeoDistance(hav)
    requires forall a, b, c :: hav(a, c) <= hav(a, b) + hav(b, c)
    requires loc(u).Some? && loc(v).Some? && loc(target).Some?
    requires weight == "tempo_min" ==> w * FactorySpeedKmh >= hav(loc(u).value, loc(v).value) * 60.0
    requires weight != "tempo_min" ==> w >= hav(loc(u).value, loc(v).value)
    ensures FactoryHeuristic(loc, hav, u, target, weight) <= w + FactoryHeuristic(loc, hav, v, target, weight)
  {
    var a, b, c := loc(u).value, loc(v).value, loc(target).value;
    assert hav(a, c) <= hav(a, b) + hav(b, c);
    if weight == "tempo_min" {
      assert hav(a, c) / FactorySpeedKmh * 60.0 <= hav(a, b) / FactorySpeedKmh * 60.0 + hav(b, c) / FactorySpeedKmh * 60.0;
    }
  }
}
