/**
 The CSV road graph of `src/utils.py`.

 `construir_grafo` adds one node per row of the places file and one
 undirected edge per row of the edges file. An edge's length is the
 `dist_km` column, or the haversine distance between its end points when
 that is missing or zero; its time is the length at the row's speed
 (the caller's `velocidade_padrao_kmh`, 35 km/h by default, when the file has
 no speed column), in minutes; its weight is the time or the length. A later
 row for the same pair of places replaces the earlier edge's attributes.
 `imprimir_resumo_rota` adds up one attribute along a path.

 Reading the CSV files and printing are not modelled; the haversine
 distance is a parameter.
 */
module RoadGraph {
  import opened Common
  import opened Heuristics

  /**
   The default value of `construir_grafo`'s `velocidade_padrao_kmh`; the
   functions below take that speed as the parameter `defaultSpeedKmh`.
   */
  const DefaultSpeedKmh: real := 35.0

  /** One row of the places file. */
  datatype PlaceRow<Id> = PlaceRow(id: Id, lat: real, lon: real)

  /**
   One row of the edges file. A missing or empty distance is `None`;
   `speedKmh` is `None` when the file has no speed column.
   */
  datatype EdgeRow<Id> = EdgeRow(from: Id, to: Id, via: string, distKm: Option<real>, speedKmh: Option<real>)

  /** The attributes an edge carries. */
  datatype EdgeData = EdgeData(via: string, distKm: real, tempoMin: real, weight: real)

  /**
   The graph: the coordinates of the places (only places from the places
   file have them) and the edges, keyed by their unordered pair of ends.
   */
  datatype Graph<Id> = Graph(places: map<Id, LatLon>, edges: map<set<Id>, EdgeData>)

  datatype BuildError<Id> =
    | NoCoordinates(from: Id, to: Id)  // the haversine fallback met a place without coordinates
    | ZeroSpeed(from: Id, to: Id)      // `dist / vel` with `vel == 0.0`

  /** The places loop: each row sets its place's coordinates, a later row for the same id winning. */
  function Places<Id>(rows: seq<PlaceRow<Id>>): (r: map<Id, LatLon>)
    ensures r.Keys == set i | 0 <= i < |rows| :: rows[i].id
    decreases |rows|
  {
    if |rows| == 0 then map[]
    else
      var last := rows[|rows| - 1];
      Places(rows[..|rows| - 1])[last.id := (last.lat, last.lon)]
  }

  /** A place's coordinates come from the last row with its id. */
  lemma {:induction false} PlacesLastRowWins<Id>(rows: seq<PlaceRow<Id>>, i: nat)
    requires i < |rows|
    requires forall j :: i < j < |rows| ==> rows[j].id != rows[i].id
    ensures Places(rows)[rows[i].id] == (rows[i].lat, rows[i].lon)
    decreases |rows|
  {
    if i < |rows| - 1 {
      PlacesLastRowWins(rows[..|rows| - 1], i);
    }
  }

  /**
   The attributes one edge row produces: the length, falling back to the
   haversine distance between the ends when the row has none or zero; the
   minutes at the row's speed; the weight by `useTime`.
   */
  function EdgeOf<Id>(places: map<Id, LatLon>, hav: (LatLon, LatLon) -> real, defaultSpeedKmh: real, useTime: bool,
                      row: EdgeRow<Id>)
    : (r: Result<EdgeData, BuildError<Id>>)
    ensures r.Ok? ==> r.value.via == row.via
    ensures r.Ok? && row.distKm.Some? && row.distKm.value != 0.0 ==> r.value.distKm == row.distKm.value
    ensures r.Ok? && (row.distKm.None? || row.distKm.value == 0.0) ==>
      row.from in places && row.to in places && r.value.distKm == hav(places[row.from], places[row.to])
    ensures r.Ok? ==> r.value.tempoMin * row.speedKmh.GetOr(defaultSpeedKmh) == r.value.distKm * 60.0
    ensures r.Ok? ==> r.value.weight == if useTime then r.value.tempoMin else r.value.distKm
    ensures r.Err? <==>
      row.speedKmh.GetOr(defaultSpeedKmh) == 0.0
      || ((row.distKm.None? || row.distKm.value == 0.0) && (row.from !in places || row.to !in places))
  {
    var vel := row.speedKmh.GetOr(defaultSpeedKmh);
    var fallback := row.distKm.None? || row.distKm.value == 0.0;
    if fallback && (row.from !in places || row.to !in places) then Err(NoCoordinates(row.from, row.to))
    else
      var dist := if fallback then hav(places[row.from], places[row.to]) else row.distKm.value;
      if vel == 0.0 then Err(ZeroSpeed(row.from, row.to))
      else
        var tempo := dist / vel * 60.0;
        Ok(EdgeData(row.via, dist, tempo, if useTime then tempo else dist))
  }

  /**
   The edges loop: each row adds or replaces the edge between its ends; the
   first row that fails stops the construction.
   */
  function Edges<Id>(places: map<Id, LatLon>, hav: (LatLon, LatLon) -> real, defaultSpeedKmh: real, useTime: bool,
                     rows: seq<EdgeRow<Id>>)
    : (r: Result<map<set<Id>, EdgeData>, BuildError<Id>>)
    ensures r.Ok? ==> r.value.Keys == set i | 0 <= i < |rows| :: {rows[i].from, rows[i].to}
    decreases |rows|
  {
    if |rows| == 0 then Ok(map[])
    else
      var last := rows[|rows| - 1];
      match Edges(places, hav, defaultSpeedKmh, useTime, rows[..|rows| - 1])
      case Err(e) => Err(e)
      case Ok(es) =>
        match EdgeOf(places, hav, defaultSpeedKmh, useTime, last)
        case Err(e) => Err(e)
        case Ok(d) =>
          assert forall i :: 0 <= i < |rows| - 1 ==> rows[..|rows| - 1][i] == rows[i];
          Ok(es[{last.from, last.to} := d])
  }

  /** `construir_grafo`. */
  function BuildGraph<Id>(placeRows: seq<PlaceRow<Id>>, edgeRows: seq<EdgeRow<Id>>, hav: (LatLon, LatLon) -> real,
                          defaultSpeedKmh: real, useTime: bool): Result<Graph<Id>, BuildError<Id>>
  {
    var places := Places(placeRows);
    match Edges(places, hav, defaultSpeedKmh, useTime, edgeRows)
    case Err(e) => Err(e)
    case Ok(es) => Ok(Graph(places, es))
  }

  /**
   The construction fails exactly when some edge row fails, and then with
   the error of the first such row.
   */
  lemma {:induction false} EdgesFailOnFirstBadRow<Id>(places: map<Id, LatLon>, hav: (LatLon, LatLon) -> real,
                                                      defaultSpeedKmh: real, useTime: bool, rows: seq<EdgeRow<Id>>)
    ensures Edges(places, hav, defaultSpeedKmh, useTime, rows).Err? <==>
      exists i :: 0 <= i < |rows| && EdgeOf(places, hav, defaultSpeedKmh, useTime, rows[i]).Err?
    ensures Edges(places, hav, defaultSpeedKmh, useTime, rows).Err? ==>
      exists i :: 0 <= i < |rows| && EdgeOf(places, hav, defaultSpeedKmh, useTime, rows[i]).Err?
        && (forall j :: 0 <= j < i ==> EdgeOf(places, hav, defaultSpeedKmh, useTime, rows[j]).Ok?)
        && Edges(places, hav, defaultSpeedKmh, useTime, rows).error == EdgeOf(places, hav, defaultSpeedKmh, useTime, rows[i]).error
    decreases |rows|
  {
    if |rows| > 0 {
      var n := |rows|;
      var init := rows[..n - 1];
      EdgesFailOnFirstBadRow(places, hav, defaultSpeedKmh, useTime, init);
      assert forall i :: 0 <= i < n - 1 ==> init[i] == rows[i];
      if Edges(places, hav, defaultSpeedKmh, useTime, init).Ok? && EdgeOf(places, hav, defaultSpeedKmh, useTime, rows[n - 1]).Err? {
        assert forall j :: 0 <= j < n - 1 ==> EdgeOf(places, hav, defaultSpeedKmh, useTime, rows[j]).Ok?;
      }
    }
  }

  /**
   Each edge carries the attributes of the last row between its ends, in
   either direction.
   */
  lemma {:induction false} EdgesLastRowWins<Id>(places: map<Id, LatLon>, hav: (LatLon, LatLon) -> real,
                                                defaultSpeedKmh: real, useTime: bool, rows: seq<EdgeRow<Id>>, i: nat)
    requires i < |rows| && Edges(places, hav, defaultSpeedKmh, useTime, rows).Ok?
    requires forall j :: i < j < |rows| ==> {rows[j].from, rows[j].to} != {rows[i].from, rows[i].to}
    ensures EdgeOf(places, hav, defaultSpeedKmh, useTime, rows[i]).Ok?
    ensures Edges(places, hav, defaultSpeedKmh, useTime, rows).value[{rows[i].from, rows[i].to}]
      == EdgeOf(places, hav, defaultSpeedKmh, useTime, rows[i]).value
    decreases |rows|
  {
    var n := |rows|;
    var init := rows[..n - 1];
    if i < n - 1 {
      assert init[i] == rows[i];
      assert forall j :: i < j < n - 1 ==> init[j] == rows[j];
      EdgesLastRowWins(places, hav, defaultSpeedKmh, useTime, init, i);
    }
  }

  /** The edge between `u` and `v`, the same in both directions. */
  function EdgeBetween<Id>(g: Graph<Id>, u: Id, v: Id): Option<EdgeData> {
    if {u, v} in g.edges then Some(g.edges[{u, v}]) else None
  }

  lemma EdgeBetweenSymmetric<Id>(g: Graph<Id>, u: Id, v: Id)
    ensures EdgeBetween(g, u, v) == EdgeBetween(g, v, u)
  {
    assert {u, v} == {v, u};
  }

  /**
   An edge built from a row without a usable distance, at no more than
   40 km/h, is never faster than the CSV heuristic assumes: its minutes cover
   the heuristic's estimate of the straight line between its ends.
   */
  lemma FallbackEdgeKeepsHeuristicConsistent<Id>(places: map<Id, LatLon>, hav: (LatLon, LatLon) -> real,
                                                 defaultSpeedKmh: real, row: EdgeRow<Id>)
    requires EdgeOf(places, hav, defaultSpeedKmh, true, row).Ok?
    requires row.distKm.None? || row.distKm.value == 0.0
    requires 0.0 < row.speedKmh.GetOr(defaultSpeedKmh) <= FactorySpeedKmh
    requires hav(places[row.from], places[row.to]) >= 0.0
    ensures var d := EdgeOf(places, hav, defaultSpeedKmh, true, row).value;
      d.weight * FactorySpeedKmh >= hav(places[row.from], places[row.to]) * 60.0
  {
    var d := EdgeOf(places, hav, defaultSpeedKmh, true, row).value;
    var h := hav(places[row.from], places[row.to]);
    assert d.distKm == h;
    SlowerTakesLonger(d.weight, row.speedKmh.GetOr(defaultSpeedKmh), FactorySpeedKmh, h);
  }

  /**
   Minutes `w` spent covering `h` km at `vel` km/h: at the higher speed `cap`
   the same minutes cover at least `h` km.
   */
  lemma SlowerTakesLonger(w: real, vel: real, cap: real, h: real)
    requires 0.0 < vel <= cap && h >= 0.0 && w * vel == h * 60.0
    ensures w * cap >= h * 60.0
  {
    assert w == h * 60.0 / vel;
    assert w >= 0.0;
    assert w * cap - w * vel == w * (cap - vel);
  }

  /** The attributes a path summary can add up. */
  function Attribute(d: EdgeData, name: string): Option<real> {
    if name == "tempo_min" then Some(d.tempoMin)
    else if name == "dist_km" then Some(d.distKm)
    else if name == "weight" then Some(d.weight)
    else None
  }

  datatype SummaryError<Id> =
    | NoEdge(from: Id, to: Id)   // `G[u][v]` on a missing edge
    | NoAttribute(name: string)  // `dados[peso]` on an attribute the edge lacks
    | NoName(id: Id)             // the printed name of a place created only by an edge row

  /**
   One step of `imprimir_resumo_rota`: the edge's attribute, after which
   both ends' names are printed (places created only by an edge row have
   none).
   */
  function StepCost<Id>(g: Graph<Id>, u: Id, v: Id, name: string): Result<real, SummaryError<Id>> {
    match EdgeBetween(g, u, v)
    case None => Err(NoEdge(u, v))
    case Some(d) =>
      match Attribute(d, name)
      case None => Err(NoAttribute(name))
      case Some(c) =>
        if u !in g.places then Err(NoName(u))
        else if v !in g.places then Err(NoName(v))
        else Ok(c)
  }

  /** `imprimir_resumo_rota`: the loop over consecutive pairs of the path, adding each step's cost. */
  function RouteTotal<Id>(g: Graph<Id>, path: seq<Id>, name: string): Result<real, SummaryError<Id>>
    decreases |path|
  {
    if |path| < 2 then Ok(0.0)
    else
      match RouteTotal(g, path[..|path| - 1], name)
      case Err(e) => Err(e)
      case Ok(t) =>
        match StepCost(g, path[|path| - 2], path[|path| - 1], name)
        case Err(e) => Err(e)
        case Ok(c) => Ok(t + c)
  }

  predicate AllSteps<Id>(g: Graph<Id>, path: seq<Id>, name: string) {
    forall i :: 0 <= i < |path| - 1 ==> StepCost(g, path[i], path[i + 1], name).Ok?
  }

  function StepCosts<Id>(g: Graph<Id>, path: seq<Id>, name: string): (r: seq<real>)
    requires AllSteps(g, path, name)
    ensures |path| > 0 ==> |r| == |path| - 1
  {
    if |path| == 0 then [] else seq(|path| - 1, i requires 0 <= i < |path| - 1 => StepCost(g, path[i], path[i + 1], name).value)
  }

  /** The total exists exactly when every step does, and is then the sum of the step costs. */
  lemma {:induction false} RouteTotalIsSum<Id>(g: Graph<Id>, path: seq<Id>, name: string)
    ensures RouteTotal(g, path, name).Ok? <==> AllSteps(g, path, name)
    ensures RouteTotal(g, path, name).Ok? ==> RouteTotal(g, path, name).value == Sum(StepCosts(g, path, name))
    decreases |path|
  {
    if |path| >= 2 {
      var n := |path|;
      var init := path[..n - 1];
      RouteTotalIsSum(g, init, name);
      assert forall i :: 0 <= i < n - 1 ==> init[i] == path[i];
      if AllSteps(g, path, name) {
        assert AllSteps(g, init, name);
        assert StepCosts(g, path, name)[..n - 2] == StepCosts(g, init, name);
      } else if AllSteps(g, init, name) {
        assert StepCost(g, path[n - 2], path[n - 1], name).Err?;
      }
    } else {
      assert StepCosts(g, path, name) == [];
    }
  }

  /**
   Totals add up along joined paths: the total of `p` followed by `q`
   without its first node (where `q` starts at the end of `p`) is the sum of
   the two totals.
   */
  lemma RouteTotalAdditive<Id>(g: Graph<Id>, p: seq<Id>, q: seq<Id>, name: string)
    requires |p| > 0 && |q| > 0 && Last(p) == q[0]
    requires RouteTotal(g, p, name).Ok? && RouteTotal(g, q, name).Ok?
    ensures RouteTotal(g, p + q[1..], name).Ok?
    ensures RouteTotal(g, p + q[1..], name).value == RouteTotal(g, p, name).value + RouteTotal(g, q, name).value
  {
    var pq := p + q[1..];
    RouteTotalIsSum(g, p, name);
    RouteTotalIsSum(g, q, name);
    JoinedSteps(g, p, q, name);
    RouteTotalIsSum(g, pq, name);
    SumAppend(StepCosts(g, p, name), StepCosts(g, q, name));
  }

  lemma JoinedSteps<Id>(g: Graph<Id>, p: seq<Id>, q: seq<Id>, name: string)
    requires |p| > 0 && |q| > 0 && Last(p) == q[0]
    requires AllSteps(g, p, name) && AllSteps(g, q, name)
    ensures AllSteps(g, p + q[1..], name)
    ensures StepCosts(g, p + q[1..], name) == StepCosts(g, p, name) + StepCosts(g, q, name)
  {
    var pq := p + q[1..];
    assert forall i :: 0 <= i < |p| ==> pq[i] == p[i];
    assert forall k :: 0 <= k < |q| ==> pq[|p| - 1 + k] == q[k];
    forall i | 0 <= i < |pq| - 1
      ensures StepCost(g, pq[i], pq[i + 1], name).Ok?
    {
      if i >= |p| - 1 {
        var k := i - (|p| - 1);
        assert pq[i] == q[k] && pq[i + 1] == q[k + 1];
      }
    }
    var a, b, c := StepCosts(g, p, name), StepCosts(g, q, name), StepCosts(g, pq, name);
    forall i | 0 <= i < |c|
      ensures c[i] == (a + b)[i]
    {
      if i >= |a| {
        var k := i - |a|;
        assert pq[i] == q[k] && pq[i + 1] == q[k + 1];
      }
    }
  }
}
