/**
 Nearest-neighbour ordering of delivery stops over a road graph, in the two
 variants the program carries: the list-based one of `src/routing.py` and
 `src/route.py` (identical code), where ties go to the earliest remaining
 stop, and the set-based one of `src/otimiza_rota.py`, where duplicate stops
 collapse and ties follow the set's iteration order.

 The road-graph shortest-path length is an oracle `cost(from, to)` returning
 a `Cost`; `Infinite` stands for the `NetworkXNoPath` the code turns into
 `float("inf")`.
 */
module StopOrder {
  import opened Common

  /**
   The scan `for p in restantes: ... if c < best: melhor, best = p, c`:
   the position of the first stop of least finite cost from `cur`, or `None`
   when every stop is unreachable (so `melhor` stays `None`).
   */
  function Nearest<N>(cost: (N, N) -> Cost, cur: N, rs: seq<N>): (r: Option<nat>)
    ensures r.None? <==> forall i :: 0 <= i < |rs| ==> cost(cur, rs[i]).Infinite?
    ensures r.Some? ==> r.value < |rs| && cost(cur, rs[r.value]).Finite?
    ensures r.Some? ==> forall i :: 0 <= i < |rs| ==> LessEq(cost(cur, rs[r.value]), cost(cur, rs[i]))
    ensures r.Some? ==> forall i :: 0 <= i < r.value ==> Less(cost(cur, rs[r.value]), cost(cur, rs[i]))
    decreases |rs|
  {
    if |rs| == 0 then None
    else
      var init := rs[..|rs| - 1];
      assert forall i :: 0 <= i < |init| ==> init[i] == rs[i];
      var m := Nearest(cost, cur, init);
      var best := if m.Some? then cost(cur, rs[m.value]) else Infinite;
      if Less(cost(cur, rs[|rs| - 1]), best) then Some(|rs| - 1) else m
  }

  /**
   `list.remove(x)`: drops the first occurrence of `x`, keeping the other
   entries in their order.
   */
  function RemoveFirst<T(==)>(s: seq<T>, x: T): (r: seq<T>)
    requires x in s
    ensures |r| == |s| - 1
    ensures forall k :: 0 <= k < FirstIndex(s, x) ==> r[k] == s[k]
    ensures forall k :: FirstIndex(s, x) <= k < |r| ==> r[k] == s[k + 1]
    ensures multiset(r) == multiset(s) - multiset{x}
  {
    assert s == [s[0]] + s[1..];
    if s[0] == x then s[1..] else [s[0]] + RemoveFirst(s[1..], x)
  }

  /**
   The `ValueError` raised by `restantes.remove(None)` when no remaining stop
   is reachable: the node the search was at, and the stops left.
   */
  datatype Stuck<N> = Stuck(at: N, remaining: seq<N>)

  /**
   `order_stops_nearest_neighbor`: from `cur`, repeatedly take the nearest
   remaining stop (the first one on ties), remove its first occurrence from
   the remaining list and continue from it. The result lists the stops
   reordered, each occurrence once; or the search gets stuck at a node from
   which every remaining stop is unreachable.
   */
  function OrderStops<N(==)>(cost: (N, N) -> Cost, cur: N, rs: seq<N>): (r: Result<seq<N>, Stuck<N>>)
    ensures r.Ok? ==> multiset(r.value) == multiset(rs)
    ensures r.Err? ==> |r.error.remaining| > 0 && multiset(r.error.remaining) <= multiset(rs)
    ensures r.Err? ==>
      forall i :: 0 <= i < |r.error.remaining| ==> cost(r.error.at, r.error.remaining[i]).Infinite?
    decreases |rs|
  {
    if |rs| == 0 then Ok([])
    else
      match Nearest(cost, cur, rs)
      case None => Err(Stuck(cur, rs))
      case Some(i) =>
        var p := rs[i];
        var rest := OrderStops(cost, p, RemoveFirst(rs, p));
        if rest.Err? then rest else Ok([p] + rest.value)
  }

  /** The node a greedy walk through `out`, started at `cur`, stands on before step `k`. */
  function Before<N>(cur: N, out: seq<N>, k: nat): N
    requires k <= |out|
  {
    if k == 0 then cur else out[k - 1]
  }

  /**
   Step `k` of `out` is a nearest-neighbour step: it goes to a reachable stop
   no farther than any stop still remaining, the stops of `rs` not yet taken.
   */
  ghost predicate GreedyStep<N>(cost: (N, N) -> Cost, cur: N, rs: seq<N>, out: seq<N>, k: nat)
    requires k < |out|
  {
    && cost(Before(cur, out, k), out[k]).Finite?
    && forall x :: x in multiset(rs) - multiset(out[..k]) ==>
         LessEq(cost(Before(cur, out, k), out[k]), cost(Before(cur, out, k), x))
  }

  /** Steps after the first of `[p] + rest` are the steps of `rest`, started at `p`. */
  lemma GreedyStepShift<N>(cost: (N, N) -> Cost, cur: N, rs: seq<N>, p: N, rest: seq<N>, k: nat)
    requires p in rs && 0 < k <= |rest|
    requires GreedyStep(cost, p, RemoveFirst(rs, p), rest, k - 1)
    ensures GreedyStep(cost, cur, rs, [p] + rest, k)
  {
    var out := [p] + rest;
    assert out[..k] == [p] + rest[..k - 1];
    assert multiset(out[..k]) == multiset{p} + multiset(rest[..k - 1]);
    assert multiset(rs) - multiset(out[..k]) == multiset(RemoveFirst(rs, p)) - multiset(rest[..k - 1]);
    assert Before(cur, out, k) == Before(p, rest, k - 1);
    assert out[k] == rest[k - 1];
  }

  /** The first step goes to the stop `Nearest` picks. */
  lemma GreedyFirstStep<N>(cost: (N, N) -> Cost, cur: N, rs: seq<N>, i: nat, rest: seq<N>)
    requires Nearest(cost, cur, rs) == Some(i)
    ensures GreedyStep(cost, cur, rs, [rs[i]] + rest, 0)
  {
    var out := [rs[i]] + rest;
    forall x | x in multiset(rs) - multiset(out[..0])
      ensures LessEq(cost(cur, out[0]), cost(cur, x))
    {
      var j :| 0 <= j < |rs| && rs[j] == x;
    }
  }

  /** Every step of a successful ordering is a nearest-neighbour step. */
  lemma {:induction false} OrderStopsGreedy<N>(cost: (N, N) -> Cost, cur: N, rs: seq<N>)
    requires OrderStops(cost, cur, rs).Ok?
    ensures var out := OrderStops(cost, cur, rs).value;
      forall k :: 0 <= k < |out| ==> GreedyStep(cost, cur, rs, out, k)
    decreases |rs|
  {
    var out := OrderStops(cost, cur, rs).value;
    if |rs| > 0 {
      var i := Nearest(cost, cur, rs).value;
      var p := rs[i];
      var rest := OrderStops(cost, p, RemoveFirst(rs, p)).value;
      assert out == [p] + rest;
      OrderStopsGreedy(cost, p, RemoveFirst(rs, p));
      GreedyCons(cost, cur, rs, i, rest);
    }
  }

  /** Greedy steps of `rest` from the nearest stop make greedy steps of the whole ordering. */
  lemma GreedyCons<N>(cost: (N, N) -> Cost, cur: N, rs: seq<N>, i: nat, rest: seq<N>)
    requires Nearest(cost, cur, rs) == Some(i)
    requires forall k :: 0 <= k < |rest| ==> GreedyStep(cost, rs[i], RemoveFirst(rs, rs[i]), rest, k)
    ensures forall k :: 0 <= k < |rest| + 1 ==> GreedyStep(cost, cur, rs, [rs[i]] + rest, k)
  {
    GreedyFirstStep(cost, cur, rs, i, rest);
    forall k | 0 < k < |rest| + 1
      ensures GreedyStep(cost, cur, rs, [rs[i]] + rest, k)
    {
      GreedyStepShift(cost, cur, rs, rs[i], rest, k);
    }
  }

  /**
   The list `restantes` after the stops of `taken` were removed in turn,
   each by its first occurrence; a stop no longer listed is passed over.
   */
  function Remaining<N(==)>(rs: seq<N>, taken: seq<N>): seq<N>
    decreases |taken|
  {
    if |taken| == 0 then rs
    else if taken[0] in rs then Remaining(RemoveFirst(rs, taken[0]), taken[1..])
    else Remaining(rs, taken[1..])
  }

  /**
   Step `k` of `out` breaks ties towards the front of the remaining list:
   the stop taken is still listed, and every stop listed before its first
   occurrence is strictly farther (the strict `<` of the scan).
   */
  ghost predicate FirstOnTies<N>(cost: (N, N) -> Cost, cur: N, rs: seq<N>, out: seq<N>, k: nat)
    requires k < |out|
  {
    var rem, at := Remaining(rs, out[..k]), Before(cur, out, k);
    && out[k] in rem
    && forall j :: 0 <= j < FirstIndex(rem, out[k]) ==> Less(cost(at, out[k]), cost(at, rem[j]))
  }

  lemma FirstOnTiesShift<N>(cost: (N, N) -> Cost, cur: N, rs: seq<N>, p: N, rest: seq<N>, k: nat)
    requires p in rs && 0 < k <= |rest|
    requires FirstOnTies(cost, p, RemoveFirst(rs, p), rest, k - 1)
    ensures FirstOnTies(cost, cur, rs, [p] + rest, k)
  {
    var out := [p] + rest;
    assert out[..k][0] == p && out[..k][1..] == rest[..k - 1];
    assert Remaining(rs, out[..k]) == Remaining(RemoveFirst(rs, p), rest[..k - 1]);
    assert Before(cur, out, k) == Before(p, rest, k - 1);
    assert out[k] == rest[k - 1];
  }

  /** The stop `Nearest` picks is the first occurrence of that stop, and no earlier one is as close. */
  lemma FirstOnTiesFirstStep<N>(cost: (N, N) -> Cost, cur: N, rs: seq<N>, i: nat, rest: seq<N>)
    requires Nearest(cost, cur, rs) == Some(i)
    ensures FirstOnTies(cost, cur, rs, [rs[i]] + rest, 0)
  {
    var p, out := rs[i], [rs[i]] + rest;
    assert forall j :: 0 <= j < i ==> rs[j] != p by {
      assert !Less(cost(cur, p), cost(cur, p));
    }
    FirstIndexAt(rs, p, i);
    assert out[..0] == [];
    assert Remaining(rs, out[..0]) == rs;
  }

  /**
   A successful ordering takes, at every step, the earliest listed of the
   nearest remaining stops: the list keeps the stops' original order, and
   only a strictly closer stop displaces an earlier one.
   */
  lemma {:induction false} OrderStopsFirstOnTies<N>(cost: (N, N) -> Cost, cur: N, rs: seq<N>)
    requires OrderStops(cost, cur, rs).Ok?
    ensures var out := OrderStops(cost, cur, rs).value;
      forall k :: 0 <= k < |out| ==> FirstOnTies(cost, cur, rs, out, k)
    decreases |rs|
  {
    var out := OrderStops(cost, cur, rs).value;
    if |rs| > 0 {
      var i := Nearest(cost, cur, rs).value;
      var p := rs[i];
      var rest := OrderStops(cost, p, RemoveFirst(rs, p)).value;
      assert out == [p] + rest;
      OrderStopsFirstOnTies(cost, p, RemoveFirst(rs, p));
      FirstOnTiesCons(cost, cur, rs, i, rest);
    }
  }

  /** Tie-breaking steps of `rest` from the nearest stop make tie-breaking steps of the whole ordering. */
  lemma FirstOnTiesCons<N>(cost: (N, N) -> Cost, cur: N, rs: seq<N>, i: nat, rest: seq<N>)
    requires Nearest(cost, cur, rs) == Some(i)
    requires forall k :: 0 <= k < |rest| ==> FirstOnTies(cost, rs[i], RemoveFirst(rs, rs[i]), rest, k)
    ensures forall k :: 0 <= k < |rest| + 1 ==> FirstOnTies(cost, cur, rs, [rs[i]] + rest, k)
  {
    FirstOnTiesFirstStep(cost, cur, rs, i, rest);
    forall k | 0 < k < |rest| + 1
      ensures FirstOnTies(cost, cur, rs, [rs[i]] + rest, k)
    {
      FirstOnTiesShift(cost, cur, rs, rs[i], rest, k);
    }
  }

  /** When every stop is reachable from every node, the ordering never gets stuck. */
  lemma {:induction false} OrderStopsSucceeds<N(!new)>(cost: (N, N) -> Cost, cur: N, rs: seq<N>)
    requires forall a, b :: cost(a, b).Finite?
    ensures OrderStops(cost, cur, rs).Ok?
    decreases |rs|
  {
    if |rs| > 0 {
      assert cost(cur, rs[0]).Finite?;
      var p := rs[Nearest(cost, cur, rs).value];
      OrderStopsSucceeds(cost, p, RemoveFirst(rs, p));
    }
  }

  /**
   An enumeration of sets: the order in which `for p in list(restantes)`
   visits a set, listing each element once.
   */
  ghost predicate IsEnumeration<N(!new)>(order: set<N> -> seq<N>) {
    forall s: set<N> :: Distinct(order(s)) && Elements(order(s)) == s
  }

  /**
   `ordenar_paradas_vizinho_mais_proximo` on the set of remaining stops: the
   same greedy walk, scanning the set in the order `order` gives and
   removing the chosen stop from the set.
   */
  function OrderStopsSet<N(!new)>(cost: (N, N) -> Cost, order: set<N> -> seq<N>, cur: N, rest: set<N>)
    : (r: Result<seq<N>, Stuck<N>>)
    requires IsEnumeration(order)
    ensures r.Ok? ==> Distinct(r.value) && Elements(r.value) == rest && |r.value| == |rest|
    ensures r.Err? ==> |r.error.remaining| > 0 && Elements(r.error.remaining) <= rest
    ensures r.Err? ==>
      forall i :: 0 <= i < |r.error.remaining| ==> cost(r.error.at, r.error.remaining[i]).Infinite?
    decreases |rest|
  {
    if rest == {} then Ok([])
    else
      var es := order(rest);
      assert Elements(es) == rest;
      match Nearest(cost, cur, es)
      case None =>
        assert es[0] in Elements(es);
        Err(Stuck(cur, es))
      case Some(i) =>
        var p := es[i];
        assert p in Elements(es);
        var tail := OrderStopsSet(cost, order, p, rest - {p});
        if tail.Err? then tail
        else
          var out := [p] + tail.value;
          assert Elements(out) == {p} + Elements(tail.value);
          DistinctCardinality(out);
          Ok(out)
  }

  /**
   Step `k` of `out` is a nearest-neighbour step among the stops of `rest`
   not yet taken.
   */
  ghost predicate GreedySetStep<N>(cost: (N, N) -> Cost, cur: N, rest: set<N>, out: seq<N>, k: nat)
    requires k < |out|
  {
    && cost(Before(cur, out, k), out[k]).Finite?
    && forall x :: x in rest - Elements(out[..k]) ==>
         LessEq(cost(Before(cur, out, k), out[k]), cost(Before(cur, out, k), x))
  }

  lemma GreedySetStepShift<N>(cost: (N, N) -> Cost, cur: N, rest: set<N>, p: N, tail: seq<N>, k: nat)
    requires 0 < k <= |tail|
    requires GreedySetStep(cost, p, rest - {p}, tail, k - 1)
    ensures GreedySetStep(cost, cur, rest, [p] + tail, k)
  {
    var out := [p] + tail;
    assert out[..k] == [p] + tail[..k - 1];
    assert Elements(out[..k]) == {p} + Elements(tail[..k - 1]);
    assert rest - Elements(out[..k]) == (rest - {p}) - Elements(tail[..k - 1]);
    assert Before(cur, out, k) == Before(p, tail, k - 1);
    assert out[k] == tail[k - 1];
  }

  lemma GreedySetFirstStep<N>(cost: (N, N) -> Cost, cur: N, rest: set<N>, es: seq<N>, i: nat, tail: seq<N>)
    requires Elements(es) == rest
    requires Nearest(cost, cur, es) == Some(i)
    ensures GreedySetStep(cost, cur, rest, [es[i]] + tail, 0)
  {
    var out := [es[i]] + tail;
    forall x | x in rest - Elements(out[..0])
      ensures LessEq(cost(cur, out[0]), cost(cur, x))
    {
      assert x in Elements(es);
      var j :| 0 <= j < |es| && es[j] == x;
    }
  }

  /** Every step of a successful set-based ordering is a nearest-neighbour step. */
  lemma {:induction false} OrderStopsSetGreedy<N(!new)>(cost: (N, N) -> Cost, order: set<N> -> seq<N>,
                                                       cur: N, rest: set<N>)
    requires IsEnumeration(order)
    requires OrderStopsSet(cost, order, cur, rest).Ok?
    ensures var out := OrderStopsSet(cost, order, cur, rest).value;
      forall k :: 0 <= k < |out| ==> GreedySetStep(cost, cur, rest, out, k)
    decreases |rest|
  {
    var out := OrderStopsSet(cost, order, cur, rest).value;
    if rest != {} {
      var es := order(rest);
      var i := Nearest(cost, cur, es).value;
      var p := es[i];
      assert p in Elements(es);
      var tail := OrderStopsSet(cost, order, p, rest - {p}).value;
      assert out == [p] + tail;
      OrderStopsSetGreedy(cost, order, p, rest - {p});
      GreedySetFirstStep(cost, cur, rest, es, i, tail);
      forall k | 0 < k < |out|
        ensures GreedySetStep(cost, cur, rest, out, k)
      {
        GreedySetStepShift(cost, cur, rest, p, tail, k);
      }
    }
  }

  /**
   The stops as `ordenar_paradas_vizinho_mais_proximo` returns them: each
   distinct stop exactly once, so repeated stops collapse.
   */
  function OrderDistinctStops<N(!new)>(cost: (N, N) -> Cost, order: set<N> -> seq<N>, origin: N,
                                       stops: seq<N>): (r: Result<seq<N>, Stuck<N>>)
    requires IsEnumeration(order)
    ensures r.Ok? ==> Distinct(r.value) && Elements(r.value) == Elements(stops)
    ensures r.Ok? ==> |r.value| <= |stops|
    ensures r.Ok? && Distinct(stops) ==> |r.value| == |stops|
  {
    var r := OrderStopsSet(cost, order, origin, Elements(stops));
    if r.Ok? then
      ElementsBound(stops);
      if Distinct(stops) then DistinctCardinality(stops); r else r
    else r
  }

  lemma {:induction false} ElementsBound<T>(s: seq<T>)
    ensures |Elements(s)| <= |s|
    decreases |s|
  {
    if |s| > 0 {
      ElementsBound(s[1..]);
      assert Elements(s) == Elements(s[1..]) + {s[0]};
    }
  }
}
