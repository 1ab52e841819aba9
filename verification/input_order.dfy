/**
 `optimize_routes` (`optimizer.py`): the points are visited in the order
 given, and the road coordinates of each leg between consecutive points are
 appended to one list. A leg without a path is skipped silently. The map
 download, the snapping of a point to its nearest road node and the A*
 search with its coordinate lookup are one oracle `legCoords(from, to)`:
 the coordinates of the leg's node path, or `None` for `NetworkXNoPath`.
 */
module InputOrder {
  import opened Common
  import opened Stitching

  /** The concatenation of segments, in order. */
  function Flatten<C>(segs: seq<seq<C>>): seq<C>
    decreases |segs|
  {
    if |segs| == 0 then [] else segs[0] + Flatten(segs[1..])
  }

  /** The segments that were found, in order; the missing ones dropped. */
  function Found<C>(opts: seq<Option<seq<C>>>): (r: seq<seq<C>>)
    ensures |r| <= |opts|
    decreases |opts|
  {
    if |opts| == 0 then []
    else (if opts[0].Some? then [opts[0].value] else []) + Found(opts[1..])
  }

  /** The leg between each pair of consecutive points: one per pair. */
  function LegOptions<P, C>(legCoords: (P, P) -> Option<seq<C>>, points: seq<P>): (r: seq<Option<seq<C>>>)
    ensures |r| == if |points| == 0 then 0 else |points| - 1
    ensures forall i :: 0 <= i < |r| ==> r[i] == legCoords(points[i], points[i + 1])
  {
    if |points| == 0 then [] else seq(|points| - 1, i requires 0 <= i < |points| - 1 => legCoords(points[i], points[i + 1]))
  }

  /**
   The loop `for next_point in points[1:]`: the leg from the current point to
   the next is appended when it exists, and the next point becomes current.
   */
  function RouteCoords<P, C>(legCoords: (P, P) -> Option<seq<C>>, points: seq<P>): seq<C>
    decreases |points|
  {
    if |points| < 2 then []
    else RouteCoords(legCoords, points[..|points| - 1]) + legCoords(points[|points| - 2], points[|points| - 1]).GetOr([])
  }

  /** `optimize_routes`: the route coordinates and the points in visiting order. */
  function OptimizeRoutes<P, C>(legCoords: (P, P) -> Option<seq<C>>, points: seq<P>): (r: (seq<C>, seq<P>))
    ensures r.1 == points
    ensures |points| < 2 ==> r.0 == []
  {
    if |points| < 2 then ([], points) else (RouteCoords(legCoords, points), points)
  }

  lemma {:induction false} FlattenAppend<C>(a: seq<seq<C>>, b: seq<seq<C>>)
    ensures Flatten(a + b) == Flatten(a) + Flatten(b)
    decreases |a|
  {
    if |a| > 0 {
      assert (a + b)[0] == a[0];
      assert (a + b)[1..] == a[1..] + b;
      FlattenAppend(a[1..], b);
      calc {
        Flatten(a + b);
        a[0] + Flatten(a[1..] + b);
        a[0] + (Flatten(a[1..]) + Flatten(b));
        (a[0] + Flatten(a[1..])) + Flatten(b);
      }
    } else {
      assert a + b == b;
    }
  }

  lemma {:induction false} FoundSnoc<C>(opts: seq<Option<seq<C>>>, o: Option<seq<C>>)
    ensures Found(opts + [o]) == Found(opts) + (if o.Some? then [o.value] else [])
    decreases |opts|
  {
    if |opts| == 0 {
      assert Found([o]) == (if o.Some? then [o.value] else []) + Found([]);
    } else {
      assert (opts + [o])[1..] == opts[1..] + [o];
      FoundSnoc(opts[1..], o);
    }
  }

  /**
   The route is the concatenation of the legs that were found, in the order
   of the points; each leg's coordinates appear whole.
   */
  lemma {:induction false} OptimizeRoutesConcatenates<P, C>(legCoords: (P, P) -> Option<seq<C>>, points: seq<P>)
    ensures OptimizeRoutes(legCoords, points).0 == Flatten(Found(LegOptions(legCoords, points)))
    decreases |points|
  {
    var n := |points|;
    if n >= 2 {
      var init := points[..n - 1];
      OptimizeRoutesConcatenates(legCoords, init);
      assert OptimizeRoutes(legCoords, init).0 == RouteCoords(legCoords, init);
      var o := legCoords(points[n - 2], points[n - 1]);
      LegOptionsSnoc(legCoords, points);
      FoundSnoc(LegOptions(legCoords, init), o);
      var tail := if o.Some? then [o.value] else [];
      FlattenAppend(Found(LegOptions(legCoords, init)), tail);
      assert Flatten(tail) == o.GetOr([]) by {
        if o.Some? {
          assert Flatten(tail) == o.value + Flatten([]);
        }
      }
      assert RouteCoords(legCoords, points) == RouteCoords(legCoords, init) + o.GetOr([]);
    }
  }

  lemma LegOptionsSnoc<P, C>(legCoords: (P, P) -> Option<seq<C>>, points: seq<P>)
    requires |points| >= 2
    ensures LegOptions(legCoords, points)
      == LegOptions(legCoords, points[..|points| - 1]) + [legCoords(points[|points| - 2], points[|points| - 1])]
  {
    var n := |points|;
    var init := points[..n - 1];
    assert forall i :: 0 <= i < n - 1 ==> init[i] == points[i];
  }

  /** When every leg is found there is one segment per pair of consecutive points. */
  lemma {:induction false} FoundAll<C>(opts: seq<Option<seq<C>>>)
    requires forall i :: 0 <= i < |opts| ==> opts[i].Some?
    ensures |Found(opts)| == |opts|
    ensures forall i :: 0 <= i < |opts| ==> Found(opts)[i] == opts[i].value
    decreases |opts|
  {
    if |opts| > 0 {
      FoundAll(opts[1..]);
    }
  }

  /**
   Unlike the stitched route of `route_with_stops`, the concatenation keeps
   both copies of each junction node: with all of `k` legs non-empty it is
   `k - 1` entries longer than the stitched path.
   */
  lemma {:induction false} FlattenKeepsJunctions<C>(segs: seq<seq<C>>)
    requires |segs| > 0 && forall i :: 0 <= i < |segs| ==> |segs[i]| > 0
    ensures |Flatten(segs)| == |Stitch(segs)| + |segs| - 1
    decreases |segs|
  {
    var n := |segs|;
    if n == 1 {
      assert Flatten(segs) == segs[0] + Flatten([]);
    } else {
      var init := segs[..n - 1];
      FlattenKeepsJunctions(init);
      assert segs == init + [segs[n - 1]];
      FlattenAppend(init, [segs[n - 1]]);
      assert Flatten([segs[n - 1]]) == segs[n - 1] + Flatten([]);
    }
  }
}
