/**
 `route_summary` (`src/routing.py`): the total minutes and kilometres of a
 road path, and one row per leg.

 The totals come from `get_route_edge_attributes`, a parameter here
 (`attr(u, v, name)`: the chosen edge's attribute, or `None` when the edge
 or the attribute is missing). The leg rows read `G[u][v]`, also a
 parameter (`view(u, v)`).

 The leg rows are modelled twice. `Leg` is the selection as the code
 evaluates it. `G[u][v]` of an OSM multigraph is a read-only mapping from
 edge key to attributes, not a `dict`, so the code takes it whole and
 `.get("travel_time", 0)` finds no such key. Every leg then reads 0 minutes
 and 0 km. For a simple graph `G[u][v]` is the attribute `dict`, and
 `G[u][v][0]` raises. `IntendedLeg` takes edge 0 of a multigraph and the
 attributes of a simple graph.
 */
module RouteSummary {
  import opened Common

  /** An edge's attributes by name. */
  type Attrs = map<string, real>

  /** What `G[u][v]` is: the parallel edges by key (a multigraph), or the edge's attributes (a simple graph). */
  datatype EdgeView = Parallel(byKey: map<nat, Attrs>) | Single(attrs: Attrs)

  datatype SummaryError<N> =
    | MissingAttribute(from: N, to: N, name: string)  // `get_route_edge_attributes` on a missing edge or attribute
    | NoEdge(from: N, to: N)                          // `G[u][v]` on a missing edge
    | NoEdgeZero(from: N, to: N)                      // `[0]` on a mapping without that key

  /** One row of the legs table: its ends, kilometres and minutes (display rounding not modelled). */
  datatype LegRow<N> = LegRow(from: N, to: N, km: real, minutes: real)

  datatype Summary<N> = Summary(minutes: real, km: real, legs: seq<LegRow<N>>)

  /** `attrs.get(name, 0)`. */
  function GetOrZero(a: Attrs, name: string): real {
    if name in a then a[name] else 0.0
  }

  /** `get_route_edge_attributes(G, path, name)`: the attribute of each consecutive pair, failing on the first missing one. */
  function RouteAttributes<N>(attr: (N, N, string) -> Option<real>, path: seq<N>, name: string)
    : (r: Result<seq<real>, SummaryError<N>>)
    ensures r.Ok? ==> |r.value| == if |path| == 0 then 0 else |path| - 1
    ensures r.Ok? ==> forall i :: 0 <= i < |r.value| ==> attr(path[i], path[i + 1], name) == Some(r.value[i])
    ensures r.Err? ==> exists i :: 0 <= i < |path| - 1 && attr(path[i], path[i + 1], name).None?
    decreases |path|
  {
    if |path| < 2 then Ok([])
    else
      var n := |path|;
      var init := path[..n - 1];
      assert forall i :: 0 <= i < n - 1 ==> init[i] == path[i];
      match RouteAttributes(attr, init, name)
      case Err(e) => Err(e)
      case Ok(xs) =>
        match attr(path[n - 2], path[n - 1], name)
        case None => Err(MissingAttribute(path[n - 2], path[n - 1], name))
        case Some(x) => Ok(xs + [x])
  }

  /**
   The leg row as the code computes it: a multigraph's mapping is taken
   whole and has no attribute keys, so both values read 0; a simple graph's
   attributes are indexed by 0, which fails.
   */
  function Leg<N>(u: N, v: N, e: EdgeView): (r: Result<LegRow<N>, SummaryError<N>>)
    ensures e.Parallel? ==> r == Ok(LegRow(u, v, 0.0, 0.0))
    ensures e.Single? ==> r.Err?
  {
    match e
    case Single(_) => Err(NoEdgeZero(u, v))
    case Parallel(_) => Ok(LegRow(u, v, 0.0 / 1000.0, 0.0 / 60.0))
  }

  /**
   The leg row as intended: edge 0 of a multigraph, or a simple graph's
   edge, read with `.get(name, 0)` and converted to kilometres and minutes.
   */
  function IntendedLeg<N>(u: N, v: N, e: EdgeView): (r: Result<LegRow<N>, SummaryError<N>>)
    ensures e.Single? ==> r.Ok?
    ensures e.Parallel? ==> (r.Ok? <==> 0 in e.byKey)
    ensures r.Ok? ==>
      var a := if e.Single? then e.attrs else e.byKey[0];
      r.value == LegRow(u, v, GetOrZero(a, "length") / 1000.0, GetOrZero(a, "travel_time") / 60.0)
  {
    match e
    case Parallel(byKey) =>
      if 0 in byKey then Ok(LegRow(u, v, GetOrZero(byKey[0], "length") / 1000.0, GetOrZero(byKey[0], "travel_time") / 60.0))
      else Err(NoEdgeZero(u, v))
    case Single(a) => Ok(LegRow(u, v, GetOrZero(a, "length") / 1000.0, GetOrZero(a, "travel_time") / 60.0))
  }

  /** The legs loop, with the leg rule `leg`; the first failing pair stops it. */
  function Legs<N>(view: (N, N) -> Option<EdgeView>, leg: (N, N, EdgeView) -> Result<LegRow<N>, SummaryError<N>>,
                   path: seq<N>): (r: Result<seq<LegRow<N>>, SummaryError<N>>)
    ensures r.Ok? ==> |r.value| == if |path| == 0 then 0 else |path| - 1
    ensures r.Ok? ==> forall i :: 0 <= i < |r.value| ==>
      view(path[i], path[i + 1]).Some? && leg(path[i], path[i + 1], view(path[i], path[i + 1]).value) == Ok(r.value[i])
    decreases |path|
  {
    if |path| < 2 then Ok([])
    else
      var n := |path|;
      var init := path[..n - 1];
      assert forall i :: 0 <= i < n - 1 ==> init[i] == path[i];
      match Legs(view, leg, init)
      case Err(e) => Err(e)
      case Ok(rows) =>
        match view(path[n - 2], path[n - 1])
        case None => Err(NoEdge(path[n - 2], path[n - 1]))
        case Some(e) =>
          match leg(path[n - 2], path[n - 1], e)
          case Err(err) => Err(err)
          case Ok(row) => Ok(rows + [row])
  }

  /**
   `route_summary` with the leg rule `leg`: the travel times in minutes and
   the lengths in kilometres summed over the path, then the legs.
   */
  function Summarize<N>(attr: (N, N, string) -> Option<real>, view: (N, N) -> Option<EdgeView>,
                        leg: (N, N, EdgeView) -> Result<LegRow<N>, SummaryError<N>>, path: seq<N>)
    : (r: Result<Summary<N>, SummaryError<N>>)
    ensures r.Ok? ==> |r.value.legs| == if |path| == 0 then 0 else |path| - 1
    ensures r.Ok? ==> RouteAttributes(attr, path, "travel_time").Ok? && RouteAttributes(attr, path, "length").Ok?
    ensures r.Ok? ==> r.value.minutes == Sum(RouteAttributes(attr, path, "travel_time").value) / 60.0
    ensures r.Ok? ==> r.value.km == Sum(RouteAttributes(attr, path, "length").value) / 1000.0
    ensures r.Ok? ==> Legs(view, leg, path) == Ok(r.value.legs)
  {
    match RouteAttributes(attr, path, "travel_time")
    case Err(e) => Err(e)
    case Ok(times) =>
      match RouteAttributes(attr, path, "length")
      case Err(e) => Err(e)
      case Ok(lengths) =>
        var minutes := if |times| > 0 then Sum(times) / 60.0 else 0.0;
        var km := if |lengths| > 0 then Sum(lengths) / 1000.0 else 0.0;
        match Legs(view, leg, path)
        case Err(e) => Err(e)
        case Ok(rows) => Ok(Summary(minutes, km, rows))
  }

  /** `route_summary` as written. */
  function RouteSummaryAsWritten<N>(attr: (N, N, string) -> Option<real>, view: (N, N) -> Option<EdgeView>,
                                    path: seq<N>): Result<Summary<N>, SummaryError<N>>
  {
    Summarize(attr, view, Leg, path)
  }

  /** `route_summary` with the intended leg selection. */
  function RouteSummaryCorrected<N>(attr: (N, N, string) -> Option<real>, view: (N, N) -> Option<EdgeView>,
                                    path: seq<N>): Result<Summary<N>, SummaryError<N>>
  {
    Summarize(attr, view, IntendedLeg, path)
  }

  /** The minutes of the leg rows, added up. */
  function LegMinutes<N>(rows: seq<LegRow<N>>): real
    decreases |rows|
  {
    if |rows| == 0 then 0.0 else LegMinutes(rows[..|rows| - 1]) + rows[|rows| - 1].minutes
  }

  /** The kilometres of the leg rows, added up. */
  function LegKm<N>(rows: seq<LegRow<N>>): real
    decreases |rows|
  {
    if |rows| == 0 then 0.0 else LegKm(rows[..|rows| - 1]) + rows[|rows| - 1].km
  }

  /** The attributes the intended leg rule reads: edge 0 of a multigraph pair, or a simple graph's edge. */
  function Chosen(e: EdgeView): Attrs {
    if e.Single? then e.attrs else if 0 in e.byKey then e.byKey[0] else map[]
  }

  /** `attrs[name]`, or `None` when the attribute is missing. */
  function Lookup(a: Attrs, name: string): Option<real> {
    if name in a then Some(a[name]) else None
  }

  /** The route attributes read the same edge as the intended leg rule. */
  ghost predicate SameEdge<N(!new)>(attr: (N, N, string) -> Option<real>, view: (N, N) -> Option<EdgeView>) {
    forall u, v, name :: view(u, v).Some? ==> attr(u, v, name) == Lookup(Chosen(view(u, v).value), name)
  }

  /**
   With the intended selection, and the totals reading the same edges as the
   legs, the legs add up to the totals.
   */
  lemma CorrectedLegsAddUp<N(!new)>(attr: (N, N, string) -> Option<real>, view: (N, N) -> Option<EdgeView>,
                                    path: seq<N>)
    requires SameEdge(attr, view)
    requires RouteSummaryCorrected(attr, view, path).Ok?
    ensures var s := RouteSummaryCorrected(attr, view, path).value;
      LegMinutes(s.legs) == s.minutes && LegKm(s.legs) == s.km
  {
    var s := RouteSummaryCorrected(attr, view, path).value;
    var times := RouteAttributes(attr, path, "travel_time").value;
    var lengths := RouteAttributes(attr, path, "length").value;
    assert |times| == |lengths| == |s.legs|;
    forall i | 0 <= i < |s.legs|
      ensures s.legs[i].minutes == times[i] / 60.0 && s.legs[i].km == lengths[i] / 1000.0
    {
      IntendedLegReads(attr, view, path[i], path[i + 1], s.legs[i], times[i], lengths[i]);
    }
    LegSums(s.legs, times, lengths);
  }

  lemma {:induction false} LegSums<N>(rows: seq<LegRow<N>>, times: seq<real>, lengths: seq<real>)
    requires |rows| == |times| == |lengths|
    requires forall i :: 0 <= i < |rows| ==> rows[i].minutes == times[i] / 60.0 && rows[i].km == lengths[i] / 1000.0
    ensures LegMinutes(rows) == Sum(times) / 60.0 && LegKm(rows) == Sum(lengths) / 1000.0
    decreases |rows|
  {
    if |rows| > 0 {
      var n := |rows|;
      LegSums(rows[..n - 1], times[..n - 1], lengths[..n - 1]);
    }
  }

  lemma IntendedLegReads<N(!new)>(attr: (N, N, string) -> Option<real>, view: (N, N) -> Option<EdgeView>,
                                  u: N, v: N, row: LegRow<N>, t: real, l: real)
    requires SameEdge(attr, view)
    requires view(u, v).Some? && IntendedLeg(u, v, view(u, v).value) == Ok(row)
    requires attr(u, v, "travel_time") == Some(t) && attr(u, v, "length") == Some(l)
    ensures row.minutes == t / 60.0 && row.km == l / 1000.0
  {
    var a := Chosen(view(u, v).value);
    assert Lookup(a, "travel_time") == Some(t) && Lookup(a, "length") == Some(l);
  }

  /** As written, every leg of a multigraph path reads 0 minutes and 0 km. */
  lemma AsWrittenLegsAreZero<N>(attr: (N, N, string) -> Option<real>, view: (N, N) -> Option<EdgeView>,
                                path: seq<N>)
    requires RouteSummaryAsWritten(attr, view, path).Ok?
    ensures var s := RouteSummaryAsWritten(attr, view, path).value;
      forall i :: 0 <= i < |s.legs| ==> s.legs[i].km == 0.0 && s.legs[i].minutes == 0.0
  {
    var s := RouteSummaryAsWritten(attr, view, path).value;
    forall i | 0 <= i < |s.legs|
      ensures s.legs[i].km == 0.0 && s.legs[i].minutes == 0.0
    {
      var e := view(path[i], path[i + 1]).value;
      assert Leg(path[i], path[i + 1], e) == Ok(s.legs[i]);
    }
  }

  /**
   A one-edge multigraph path of 1000 m and 60 s: the totals are 1 km and
   1 minute, the single leg as written reads 0 km and 0 minutes, and the
   intended leg reads 1 km and 1 minute.
   */
  lemma AsWrittenLegsMissTheTotals()
    ensures var w := RouteSummaryAsWritten(OneEdgeAttr, OneEdgeView, [0, 1]);
      w.Ok? && w.value.km == 1.0 && w.value.minutes == 1.0 && w.value.legs == [LegRow(0, 1, 0.0, 0.0)]
    ensures var c := RouteSummaryCorrected(OneEdgeAttr, OneEdgeView, [0, 1]);
      c.Ok? && c.value.km == 1.0 && c.value.minutes == 1.0 && c.value.legs == [LegRow(0, 1, 1.0, 1.0)]
  {
    OneEdgeTotals();
    OneEdgeLegs();
  }

  lemma OneEdgeTotals()
    ensures RouteAttributes(OneEdgeAttr, [0, 1], "travel_time") == Ok([60.0])
    ensures RouteAttributes(OneEdgeAttr, [0, 1], "length") == Ok([1000.0])
    ensures Sum([60.0]) == 60.0 && Sum([1000.0]) == 1000.0
  {
    var path := [0, 1];
    assert path[..1] == [0];
    assert RouteAttributes(OneEdgeAttr, [0], "travel_time") == Ok([]);
    assert RouteAttributes(OneEdgeAttr, [0], "length") == Ok([]);
    assert OneEdgeAttr(0, 1, "travel_time") == Some(60.0);
    assert OneEdgeAttr(0, 1, "length") == Some(1000.0);
    assert [] + [60.0] == [60.0] && [] + [1000.0] == [1000.0];
    assert [60.0][..0] == [] && [1000.0][..0] == [];
  }

  lemma OneEdgeLegs()
    ensures Legs(OneEdgeView, Leg, [0, 1]) == Ok([LegRow(0, 1, 0.0, 0.0)])
    ensures Legs(OneEdgeView, IntendedLeg, [0, 1]) == Ok([LegRow(0, 1, 1.0, 1.0)])
  {
    var path := [0, 1];
    assert path[..1] == [0];
    assert Legs(OneEdgeView, Leg, [0]) == Ok([]);
    assert Legs(OneEdgeView, IntendedLeg, [0]) == Ok([]);
    var e := Parallel(map[0 := OneEdge()]);
    assert OneEdgeView(0, 1) == Some(e);
    assert Leg(0, 1, e) == Ok(LegRow(0, 1, 0.0, 0.0));
    assert [] + [LegRow(0, 1, 0.0, 0.0)] == [LegRow(0, 1, 0.0, 0.0)];
    assert GetOrZero(OneEdge(), "length") == 1000.0;
    assert GetOrZero(OneEdge(), "travel_time") == 60.0;
    assert IntendedLeg(0, 1, e) == Ok(LegRow(0, 1, 1.0, 1.0));
    assert [] + [LegRow(0, 1, 1.0, 1.0)] == [LegRow(0, 1, 1.0, 1.0)];
  }

  /** An edge 1000 m long taking 60 s. */
  function OneEdge(): Attrs {
    map["length" := 1000.0, "travel_time" := 60.0]
  }

  /** The totals of a graph whose only edge is `OneEdge`. */
  function OneEdgeAttr(u: int, v: int, name: string): Option<real> {
    if name == "length" then Some(1000.0) else if name == "travel_time" then Some(60.0) else None
  }

  /** `G[u][v]` of a multigraph whose only edge, key 0, is `OneEdge`. */
  function OneEdgeView(u: int, v: int): Option<EdgeView> {
    Some(Parallel(map[0 := OneEdge()]))
  }
}
