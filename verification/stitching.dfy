/**
 Stitching A* segments into one road path through a sequence of stops.

 Two loops do this in the program. `route_with_stops` (`src/routing.py`,
 `src/route.py`) walks the consecutive pairs of `[origin] + stops +
 [destination]`, keeps the first segment whole and drops the first node of
 every later one. `rota_com_paradas` (`src/otimiza_rota.py`) starts from
 `[origin]` and appends every segment without its first node. Each leg's
 A* search and `path_weight` are one oracle `leg(from, to)`, returning the
 node path and its weight, or `None` for `NetworkXNoPath`.
 */
module Stitching {
  import opened Common
  import opened StopOrder

  /** One A* segment: its node path and its weight. */
  datatype Leg<N> = Leg(path: seq<N>, cost: real)

  /** Why a route could not be built: a leg without a path, or a stop order that got stuck. */
  datatype RouteError<N> = NoPath(from: N, to: N) | NoReachableStop(stuck: Stuck<N>)

  /** The leg oracle returns, for each pair it finds a path for, a path from the first node to the second. */
  ghost predicate RunsBetween<N(!new)>(leg: (N, N) -> Option<Leg<N>>) {
    forall a, b :: LegRuns(leg, a, b)
  }

  /** The leg from `a` to `b`, when there is one, starts at `a` and ends at `b`. */
  ghost predicate LegRuns<N>(leg: (N, N) -> Option<Leg<N>>, a: N, b: N) {
    leg(a, b).Some? ==>
      |leg(a, b).value.path| > 0 && leg(a, b).value.path[0] == a && Last(leg(a, b).value.path) == b
  }

  /** The stitching rule: the first segment whole, then each later segment without its first node. */
  function Stitch<N>(segs: seq<seq<N>>): seq<N>
    decreases |segs|
  {
    if |segs| == 0 then []
    else if |segs| == 1 then segs[0]
    else Stitch(segs[..|segs| - 1]) + DropFirst(segs[|segs| - 1])
  }

  /** Every consecutive pair of `vs` has a leg. */
  predicate AllLegs<N>(leg: (N, N) -> Option<Leg<N>>, vs: seq<N>) {
    forall i :: 0 <= i < |vs| - 1 ==> leg(vs[i], vs[i + 1]).Some?
  }

  function LegPaths<N>(leg: (N, N) -> Option<Leg<N>>, vs: seq<N>): (r: seq<seq<N>>)
    requires AllLegs(leg, vs)
    ensures |vs| > 0 ==> |r| == |vs| - 1
  {
    if |vs| == 0 then [] else seq(|vs| - 1, i requires 0 <= i < |vs| - 1 => leg(vs[i], vs[i + 1]).value.path)
  }

  function LegCosts<N>(leg: (N, N) -> Option<Leg<N>>, vs: seq<N>): (r: seq<real>)
    requires AllLegs(leg, vs)
    ensures |vs| > 0 ==> |r| == |vs| - 1
  {
    if |vs| == 0 then [] else seq(|vs| - 1, i requires 0 <= i < |vs| - 1 => leg(vs[i], vs[i + 1]).value.cost)
  }

  /**
   The loop `for i in range(len(seq)-1)` of `route_with_stops`: the leg of
   each consecutive pair, its first node dropped when `i > 0`, appended to
   the path and its weight added to the cost. The first pair without a
   path raises.
   */
  function StitchAlong<N>(leg: (N, N) -> Option<Leg<N>>, vs: seq<N>): Result<(seq<N>, real), RouteError<N>>
    decreases |vs|
  {
    if |vs| <= 1 then Ok(([], 0.0))
    else
      match StitchAlong(leg, vs[..|vs| - 1])
      case Err(e) => Err(e)
      case Ok((path, cost)) =>
        var i := |vs| - 2;
        match leg(vs[i], vs[i + 1])
        case None => Err(NoPath(vs[i], vs[i + 1]))
        case Some(l) => Ok((path + (if i > 0 then DropFirst(l.path) else l.path), cost + l.cost))
  }

  /**
   The loop succeeds exactly when every consecutive pair has a leg; its path
   is then the stitched leg paths and its cost the sum of the leg weights.
   */
  lemma {:induction false} StitchAlongLegs<N>(leg: (N, N) -> Option<Leg<N>>, vs: seq<N>)
    ensures StitchAlong(leg, vs).Ok? <==> AllLegs(leg, vs)
    ensures StitchAlong(leg, vs).Ok? ==>
      StitchAlong(leg, vs).value.0 == Stitch(LegPaths(leg, vs))
      && StitchAlong(leg, vs).value.1 == Sum(LegCosts(leg, vs))
    decreases |vs|
  {
    if |vs| > 1 {
      var n := |vs|;
      var init := vs[..n - 1];
      StitchAlongLegs(leg, init);
      assert forall i :: 0 <= i < n - 1 ==> init[i] == vs[i];
      if AllLegs(leg, vs) {
        assert AllLegs(leg, init);
        assert LegPaths(leg, vs)[..n - 2] == LegPaths(leg, init);
        assert LegCosts(leg, vs)[..n - 2] == LegCosts(leg, init);
      } else if AllLegs(leg, init) {
        assert leg(vs[n - 2], vs[n - 1]).None?;
      }
    }
  }

  /** A path whose consecutive nodes are related by `adj` (an edge of the road graph). */
  predicate IsChain<N>(adj: (N, N) -> bool, p: seq<N>) {
    forall i :: 0 <= i < |p| - 1 ==> adj(p[i], p[i + 1])
  }

  /** Consecutive segments meet: each ends where the next begins. */
  ghost predicate Joined<N>(segs: seq<seq<N>>) {
    && (forall i :: 0 <= i < |segs| ==> |segs[i]| > 0)
    && (forall i :: 0 <= i < |segs| - 1 ==> Last(segs[i]) == segs[i + 1][0])
  }

  /**
   Stitching joined segments keeps the first node of the first segment and
   the last node of the last, and a chain of edges stays a chain.
   */
  lemma {:induction false} StitchJoined<N>(adj: (N, N) -> bool, segs: seq<seq<N>>)
    requires |segs| > 0 && Joined(segs)
    ensures |Stitch(segs)| > 0
    ensures Stitch(segs)[0] == segs[0][0]
    ensures Last(Stitch(segs)) == Last(segs[|segs| - 1])
    ensures (forall i :: 0 <= i < |segs| ==> IsChain(adj, segs[i])) ==> IsChain(adj, Stitch(segs))
    decreases |segs|
  {
    if |segs| > 1 {
      var n := |segs|;
      var init := segs[..n - 1];
      assert forall i :: 0 <= i < n - 1 ==> init[i] == segs[i];
      assert Joined(init);
      StitchJoined(adj, init);
      var a, b := Stitch(init), DropFirst(segs[n - 1]);
      assert Stitch(segs) == a + b;
      if |b| > 0 {
        assert b[|b| - 1] == Last(segs[n - 1]);
      } else {
        assert |segs[n - 1]| == 1;
        assert Last(segs[n - 1]) == segs[n - 1][0] == Last(init[n - 2]);
      }
      if forall i :: 0 <= i < |segs| ==> IsChain(adj, segs[i]) {
        ChainAppend(adj, a, segs[n - 1]);
      }
    }
  }

  /** Appending a chain without its first node to a chain ending at that node gives a chain. */
  lemma ChainAppend<N>(adj: (N, N) -> bool, a: seq<N>, s: seq<N>)
    requires |a| > 0 && |s| > 0 && Last(a) == s[0]
    requires IsChain(adj, a) && IsChain(adj, s)
    ensures IsChain(adj, a + DropFirst(s))
  {
    var p := a + DropFirst(s);
    forall i | 0 <= i < |p| - 1
      ensures adj(p[i], p[i + 1])
    {
      if i >= |a| - 1 {
        assert p[i] == s[i - |a| + 1] && p[i + 1] == s[i - |a| + 2];
      }
    }
  }

  /** The legs a path-respecting oracle returns along `vs` are joined. */
  lemma LegPathsJoined<N(!new)>(leg: (N, N) -> Option<Leg<N>>, vs: seq<N>)
    requires RunsBetween(leg) && AllLegs(leg, vs)
    ensures Joined(LegPaths(leg, vs))
    ensures forall i :: 0 <= i < |vs| - 1 ==>
      LegPaths(leg, vs)[i][0] == vs[i] && Last(LegPaths(leg, vs)[i]) == vs[i + 1]
  {
    var segs := LegPaths(leg, vs);
    forall i | 0 <= i < |segs|
      ensures |segs[i]| > 0 && segs[i][0] == vs[i] && Last(segs[i]) == vs[i + 1]
    {
      LegPathAt(leg, vs, i);
    }
    forall i | 0 <= i < |segs| - 1
      ensures Last(segs[i]) == segs[i + 1][0]
    {
      assert Last(segs[i]) == vs[i + 1];
    }
  }

  /** The `i`-th leg path runs from `vs[i]` to `vs[i + 1]`. */
  lemma LegPathAt<N(!new)>(leg: (N, N) -> Option<Leg<N>>, vs: seq<N>, i: nat)
    requires RunsBetween(leg) && AllLegs(leg, vs) && i < |vs| - 1
    ensures var p := LegPaths(leg, vs)[i]; |p| > 0 && p[0] == vs[i] && Last(p) == vs[i + 1]
  {
    assert LegRuns(leg, vs[i], vs[i + 1]);
    assert LegPaths(leg, vs)[i] == leg(vs[i], vs[i + 1]).value.path;
  }

  /**
   What `route_with_stops` visits: the origin, the stops (reordered by
   nearest neighbour only when asked to and when there are stops), and the
   destination.
   */
  function VisitingSequence<N(==)>(cost: (N, N) -> Cost, origin: N, stops: seq<N>, destination: N,
                                   reorder: bool): (r: Result<seq<N>, RouteError<N>>)
    ensures r.Ok? ==> |r.value| == |stops| + 2 && r.value[0] == origin && Last(r.value) == destination
    ensures r.Ok? ==> multiset(r.value[1..|r.value| - 1]) == multiset(stops)
    ensures r.Ok? && !(reorder && |stops| > 0) ==> r.value == [origin] + stops + [destination]
    ensures r.Err? ==> reorder && |stops| > 0 && OrderStops(cost, origin, stops).Err?
  {
    var ordered := if reorder && |stops| > 0 then OrderStops(cost, origin, stops) else Ok(stops);
    if ordered.Err? then Err(NoReachableStop(ordered.error))
    else
      var vs := [origin] + ordered.value + [destination];
      assert vs[1..|vs| - 1] == ordered.value;
      Ok(vs)
  }

  /** `route_with_stops`: the stitched path, its cost, and the visiting sequence. */
  function RouteWithStops<N(==)>(cost: (N, N) -> Cost, leg: (N, N) -> Option<Leg<N>>, origin: N,
                                 stops: seq<N>, destination: N, reorder: bool)
    : Result<(seq<N>, real, seq<N>), RouteError<N>>
  {
    match VisitingSequence(cost, origin, stops, destination, reorder)
    case Err(e) => Err(e)
    case Ok(vs) =>
      match StitchAlong(leg, vs)
      case Err(e) => Err(e)
      case Ok((path, total)) => Ok((path, total, vs))
  }

  /**
   A successful `route_with_stops` path runs from the origin to the
   destination along the legs' edges, and its cost is the sum of the legs'
   weights; it fails on a leg only when some consecutive pair has no path.
   */
  lemma RouteWithStopsSpec<N(!new)>(cost: (N, N) -> Cost, leg: (N, N) -> Option<Leg<N>>, adj: (N, N) -> bool,
                                    origin: N, stops: seq<N>, destination: N, reorder: bool)
    requires RunsBetween(leg)
    ensures var r := RouteWithStops(cost, leg, origin, stops, destination, reorder);
      r.Ok? ==>
        var (path, total, vs) := r.value;
        && AllLegs(leg, vs)
        && |path| > 0 && path[0] == origin && Last(path) == destination
        && total == Sum(LegCosts(leg, vs))
        && ((forall a, b :: leg(a, b).Some? ==> IsChain(adj, leg(a, b).value.path)) ==> IsChain(adj, path))
    ensures var r := RouteWithStops(cost, leg, origin, stops, destination, reorder);
      r.Err? && r.error.NoPath? ==>
        var vs := VisitingSequence(cost, origin, stops, destination, reorder).value;
        !AllLegs(leg, vs)
  {
    var v := VisitingSequence(cost, origin, stops, destination, reorder);
    if v.Ok? {
      var vs := v.value;
      StitchAlongLegs(leg, vs);
      if AllLegs(leg, vs) {
        StitchedLegs(leg, adj, vs);
      }
    }
  }

  /** Stitching the legs along `vs` gives a path from its first node to its last along the legs' edges. */
  lemma StitchedLegs<N(!new)>(leg: (N, N) -> Option<Leg<N>>, adj: (N, N) -> bool, vs: seq<N>)
    requires RunsBetween(leg) && |vs| >= 2 && AllLegs(leg, vs)
    ensures var path := Stitch(LegPaths(leg, vs));
      && |path| > 0 && path[0] == vs[0] && Last(path) == Last(vs)
      && ((forall a, b :: leg(a, b).Some? ==> IsChain(adj, leg(a, b).value.path)) ==> IsChain(adj, path))
  {
    LegPathsJoined(leg, vs);
    var segs := LegPaths(leg, vs);
    StitchJoined(adj, segs);
    if forall a, b :: leg(a, b).Some? ==> IsChain(adj, leg(a, b).value.path) {
      assert forall i :: 0 <= i < |segs| ==> segs[i] == leg(vs[i], vs[i + 1]).value.path;
    }
  }

  /**
   The loop `for alvo in list(paradas) + [destino]` of `rota_com_paradas`,
   from `cur`: each target's segment without its first node, and the sum of
   the segment weights. The first target without a path raises.
   */
  function FollowTargets<N>(leg: (N, N) -> Option<Leg<N>>, cur: N, targets: seq<N>)
    : Result<(seq<N>, real), RouteError<N>>
    decreases |targets|
  {
    if |targets| == 0 then Ok(([], 0.0))
    else
      match leg(cur, targets[0])
      case None => Err(NoPath(cur, targets[0]))
      case Some(l) =>
        match FollowTargets(leg, targets[0], targets[1..])
        case Err(e) => Err(e)
        case Ok((rest, total)) => Ok((DropFirst(l.path) + rest, l.cost + total))
  }

  /**
   `rota_com_paradas`: the stops put in nearest-neighbour order over their
   set when asked to and when there are any, then the path `[origin]`
   followed by every segment without its first node, and the total weight.
   */
  function RotaComParadas<N(!new)>(cost: (N, N) -> Cost, order: set<N> -> seq<N>, leg: (N, N) -> Option<Leg<N>>,
                                   origin: N, stops: seq<N>, destination: N, reorder: bool)
    : (r: Result<(seq<N>, real), RouteError<N>>)
    requires IsEnumeration(order)
    ensures r.Ok? ==> |r.value.0| > 0 && r.value.0[0] == origin
  {
    var ordered := if reorder && |stops| > 0 then OrderDistinctStops(cost, order, origin, stops) else Ok(stops);
    if ordered.Err? then Err(NoReachableStop(ordered.error))
    else
      match FollowTargets(leg, origin, ordered.value + [destination])
      case Err(e) => Err(e)
      case Ok((rest, total)) => Ok(([origin] + rest, total))
  }

  /** A successful `rota_com_paradas` path runs from the origin to the destination. */
  lemma RotaComParadasEnds<N(!new)>(cost: (N, N) -> Cost, order: set<N> -> seq<N>, leg: (N, N) -> Option<Leg<N>>,
                                    origin: N, stops: seq<N>, destination: N, reorder: bool)
    requires IsEnumeration(order) && RunsBetween(leg)
    ensures var r := RotaComParadas(cost, order, leg, origin, stops, destination, reorder);
      r.Ok? ==> r.value.0[0] == origin && Last(r.value.0) == destination
  {
    var ordered := if reorder && |stops| > 0 then OrderDistinctStops(cost, order, origin, stops) else Ok(stops);
    if ordered.Ok? {
      var targets := ordered.value + [destination];
      FollowTargetsIsStitch(leg, origin, targets);
      StitchAlongEnds(leg, [origin] + targets);
    }
  }

  /**
   Without reordering, `rota_com_paradas` builds exactly the path and cost
   `route_with_stops` builds for the same stops, and fails exactly when it
   does.
   */
  lemma RotaComParadasAgrees<N(!new)>(cost: (N, N) -> Cost, order: set<N> -> seq<N>, leg: (N, N) -> Option<Leg<N>>,
                                      origin: N, stops: seq<N>, destination: N)
    requires IsEnumeration(order) && RunsBetween(leg)
    ensures var r := RotaComParadas(cost, order, leg, origin, stops, destination, false);
      var s := StitchAlong(leg, [origin] + stops + [destination]);
      (r.Ok? <==> s.Ok?) && (r.Ok? ==> r.value == s.value)
  {
    var targets := stops + [destination];
    assert [origin] + targets == [origin] + stops + [destination];
    FollowTargetsIsStitch(leg, origin, targets);
  }

  /** A successful stitch along `vs` runs from its first node to its last. */
  lemma StitchAlongEnds<N(!new)>(leg: (N, N) -> Option<Leg<N>>, vs: seq<N>)
    requires RunsBetween(leg) && |vs| >= 2
    ensures var s := StitchAlong(leg, vs);
      s.Ok? ==> |s.value.0| > 0 && s.value.0[0] == vs[0] && Last(s.value.0) == Last(vs)
  {
    StitchAlongLegs(leg, vs);
    if AllLegs(leg, vs) {
      StitchedLegs(leg, (a, b) => true, vs);
    }
  }

  /**
   The two stitching loops agree: starting from `[origin]` and appending
   every segment without its first node gives what `route_with_stops` gives
   for the visiting sequence `[origin] + targets`, with the same cost.
   */
  lemma {:induction false} FollowTargetsIsStitch<N(!new)>(leg: (N, N) -> Option<Leg<N>>, origin: N, targets: seq<N>)
    requires RunsBetween(leg) && |targets| > 0
    ensures var f := FollowTargets(leg, origin, targets);
      var s := StitchAlong(leg, [origin] + targets);
      && (f.Ok? <==> s.Ok?)
      && (f.Ok? ==> [origin] + f.value.0 == s.value.0 && f.value.1 == s.value.1)
    decreases |targets|
  {
    var vs := [origin] + targets;
    StitchAlongLegs(leg, vs);
    FollowTargetsLegs(leg, origin, targets);
    if AllLegs(leg, vs) {
      var segs := LegPaths(leg, vs);
      assert LegRuns(leg, origin, targets[0]);
      assert segs[0] == leg(origin, targets[0]).value.path;
      StitchFromStart(segs, origin);
    }
  }

  /** Stitching segments whose first one starts at `origin` is `[origin]` followed by every segment's tail. */
  lemma StitchFromStart<N>(segs: seq<seq<N>>, origin: N)
    requires |segs| > 0 && |segs[0]| > 0 && segs[0][0] == origin
    ensures Stitch(segs) == [origin] + FlattenTails(segs)
  {
    StitchDropFirst(segs);
    var head, tails := segs[0], FlattenTails(segs[1..]);
    assert FlattenTails(segs) == DropFirst(head) + tails;
    assert [origin] + DropFirst(head) == head;
    AppendAssoc([origin], DropFirst(head), tails);
  }

  lemma AppendAssoc<T>(a: seq<T>, b: seq<T>, c: seq<T>)
    ensures (a + b) + c == a + (b + c)
  {
  }

  /** The sum of the segments without their first node, in order. */
  function FlattenTails<N>(segs: seq<seq<N>>): seq<N>
    decreases |segs|
  {
    if |segs| == 0 then [] else DropFirst(segs[0]) + FlattenTails(segs[1..])
  }

  lemma {:induction false} StitchDropFirst<N>(segs: seq<seq<N>>)
    requires |segs| > 0
    ensures Stitch(segs) == segs[0] + FlattenTails(segs[1..])
    decreases |segs|
  {
    if |segs| > 1 {
      var n := |segs|;
      var init := segs[..n - 1];
      StitchDropFirst(init);
      assert init[1..] == segs[1..n - 1];
      FlattenTailsSnoc(segs[1..n - 1], segs[n - 1]);
      assert segs[1..] == segs[1..n - 1] + [segs[n - 1]];
    }
  }

  lemma {:induction false} FlattenTailsSnoc<N>(segs: seq<seq<N>>, s: seq<N>)
    ensures FlattenTails(segs + [s]) == FlattenTails(segs) + DropFirst(s)
    decreases |segs|
  {
    if |segs| == 0 {
      assert FlattenTails([s]) == DropFirst(s) + FlattenTails([]);
    } else {
      assert (segs + [s])[1..] == segs[1..] + [s];
      FlattenTailsSnoc(segs[1..], s);
    }
  }

  /** The legs along `[cur] + targets`: the leg out of `cur`, then the legs along `targets`. */
  lemma LegsCons<N>(leg: (N, N) -> Option<Leg<N>>, cur: N, targets: seq<N>)
    requires |targets| > 0
    ensures AllLegs(leg, [cur] + targets) <==> leg(cur, targets[0]).Some? && AllLegs(leg, targets)
    ensures AllLegs(leg, [cur] + targets) ==>
      && LegPaths(leg, [cur] + targets) == [leg(cur, targets[0]).value.path] + LegPaths(leg, targets)
      && LegCosts(leg, [cur] + targets) == [leg(cur, targets[0]).value.cost] + LegCosts(leg, targets)
  {
    var vs := [cur] + targets;
    LegsConsAll(leg, cur, targets);
    if AllLegs(leg, vs) {
      LegPathsCons(leg, cur, targets);
      LegCostsCons(leg, cur, targets);
    }
  }

  lemma LegPathsCons<N>(leg: (N, N) -> Option<Leg<N>>, cur: N, targets: seq<N>)
    requires |targets| > 0 && leg(cur, targets[0]).Some? && AllLegs(leg, targets)
    ensures LegPaths(leg, [cur] + targets) == [leg(cur, targets[0]).value.path] + LegPaths(leg, targets)
  {
    var vs := [cur] + targets;
    var ps, ps' := LegPaths(leg, vs), LegPaths(leg, targets);
    forall i | 0 <= i < |ps'|
      ensures ps[i + 1] == ps'[i]
    {
      assert vs[i + 1] == targets[i] && vs[i + 2] == targets[i + 1];
    }
  }

  lemma LegCostsCons<N>(leg: (N, N) -> Option<Leg<N>>, cur: N, targets: seq<N>)
    requires |targets| > 0 && leg(cur, targets[0]).Some? && AllLegs(leg, targets)
    ensures LegCosts(leg, [cur] + targets) == [leg(cur, targets[0]).value.cost] + LegCosts(leg, targets)
  {
    var vs := [cur] + targets;
    var cs, cs' := LegCosts(leg, vs), LegCosts(leg, targets);
    forall i | 0 <= i < |cs'|
      ensures cs[i + 1] == cs'[i]
    {
      assert vs[i + 1] == targets[i] && vs[i + 2] == targets[i + 1];
    }
  }

  lemma LegsConsAll<N>(leg: (N, N) -> Option<Leg<N>>, cur: N, targets: seq<N>)
    requires |targets| > 0
    ensures AllLegs(leg, [cur] + targets) <==> leg(cur, targets[0]).Some? && AllLegs(leg, targets)
  {
    var vs := [cur] + targets;
    assert forall i :: 0 <= i < |targets| ==> vs[i + 1] == targets[i];
    if AllLegs(leg, vs) {
      assert leg(vs[0], vs[1]).Some?;
      forall i | 0 <= i < |targets| - 1
        ensures leg(targets[i], targets[i + 1]).Some?
      {
        assert leg(vs[i + 1], vs[i + 2]).Some?;
      }
    } else if leg(cur, targets[0]).Some? {
      var i :| 0 <= i < |vs| - 1 && leg(vs[i], vs[i + 1]).None?;
      assert leg(targets[i - 1], targets[i]).None?;
    }
  }

  lemma SumCons(x: real, xs: seq<real>)
    ensures Sum([x] + xs) == x + Sum(xs)
  {
    SumAppend([x], xs);
    assert [x][..0] == [];
  }

  /**
   `FollowTargets` succeeds exactly when every leg along `[cur] + targets`
   exists; its path is then the legs without their first nodes and its cost
   the sum of the leg weights.
   */
  lemma {:induction false} FollowTargetsLegs<N>(leg: (N, N) -> Option<Leg<N>>, cur: N, targets: seq<N>)
    ensures var vs := [cur] + targets;
      var f := FollowTargets(leg, cur, targets);
      && (f.Ok? <==> AllLegs(leg, vs))
      && (f.Ok? ==> f.value.0 == FlattenTails(LegPaths(leg, vs)) && f.value.1 == Sum(LegCosts(leg, vs)))
    decreases |targets|
  {
    if |targets| > 0 {
      FollowTargetsLegs(leg, targets[0], targets[1..]);
      assert [targets[0]] + targets[1..] == targets;
      LegsCons(leg, cur, targets);
      if AllLegs(leg, [cur] + targets) {
        var l := leg(cur, targets[0]).value;
        var ps := LegPaths(leg, [cur] + targets);
        assert ps[1..] == LegPaths(leg, targets);
        SumCons(l.cost, LegCosts(leg, targets));
      }
    }
  }
}
