/**
 Zone clustering of the backend optimizer (`kmeans_clusters`): the rule that
 clamps and defaults the requested cluster count, and the grouping of points
 by the labels the KMeans fit assigns. The fit itself is outside the model;
 its labels arrive as a sequence, one per point.
 */
module Clustering {
  import opened Common

  /** `int(np.sqrt(n))`: the integer square root, rounded down. */
  function ISqrt(n: nat): (r: nat)
    ensures r * r <= n < (r + 1) * (r + 1)
  {
    if n == 0 then 0
    else
      var s := ISqrt(n - 1);
      if (s + 1) * (s + 1) <= n then s + 1 else s
  }

  /**
   The cluster count actually used for `n` points when `k` was requested:
   a request outside `1..n` falls back to `max(1, floor(sqrt n))`.
   */
  function ClampK(k: int, n: nat): (r: int)
    ensures n >= 1 ==> 1 <= r <= n
    ensures 1 <= k <= n ==> r == k
    ensures !(1 <= k <= n) && n >= 1 ==> r * r <= n < (r + 1) * (r + 1)
    ensures n == 0 ==> r == 1
  {
    if k <= 0 || k > n then
      var s := ISqrt(n);
      if s < 1 then 1 else s
    else k
  }

  /** One entry of the `clusters` dictionary: a label and its points in input order. */
  datatype Cluster<P> = Cluster(zone: int, members: seq<P>)

  /**
   `clusters.setdefault(label, []).append(p)`: extends the cluster of `label`,
   or adds a new cluster at the end (dictionaries keep insertion order).
   */
  function AddToCluster<P>(cs: seq<Cluster<P>>, lab: int, p: P): seq<Cluster<P>>
    decreases |cs|
  {
    if |cs| == 0 then [Cluster(lab, [p])]
    else if cs[0].zone == lab then [Cluster(lab, cs[0].members + [p])] + cs[1..]
    else [cs[0]] + AddToCluster(cs[1..], lab, p)
  }

  /** The loop over `zip(labels, points)`, one `setdefault`/`append` per point. */
  function GroupByLabel<P>(labels: seq<int>, points: seq<P>): seq<Cluster<P>>
    requires |labels| == |points|
    decreases |labels|
  {
    if |labels| == 0 then []
    else
      AddToCluster(GroupByLabel(labels[..|labels| - 1], points[..|points| - 1]),
                   labels[|labels| - 1], points[|points| - 1])
  }

  /** Reference definition: the points carrying `label`, in input order. */
  function Select<P>(labels: seq<int>, points: seq<P>, lab: int): seq<P>
    requires |labels| == |points|
    decreases |labels|
  {
    if |labels| == 0 then []
    else
      var rest := Select(labels[..|labels| - 1], points[..|points| - 1], lab);
      if labels[|labels| - 1] == lab then rest + [points[|points| - 1]] else rest
  }

  function Labels<P>(cs: seq<Cluster<P>>): seq<int> {
    seq(|cs|, i requires 0 <= i < |cs| => cs[i].zone)
  }

  /** The points of all clusters, cluster after cluster. */
  function AllMembers<P>(cs: seq<Cluster<P>>): seq<P>
    decreases |cs|
  {
    if |cs| == 0 then [] else cs[0].members + AllMembers(cs[1..])
  }

  lemma {:induction false} AddToClusterLabels<P>(cs: seq<Cluster<P>>, lab: int, p: P)
    ensures Elements(Labels(AddToCluster(cs, lab, p))) == Elements(Labels(cs)) + {lab}
    decreases |cs|
  {
    var r := AddToCluster(cs, lab, p);
    if |cs| == 0 {
      assert Labels(r) == [lab];
    } else if cs[0].zone == lab {
      assert Labels(r) == Labels(cs);
      assert Labels(cs)[0] == lab;
    } else {
      var tail := AddToCluster(cs[1..], lab, p);
      AddToClusterLabels(cs[1..], lab, p);
      assert Labels(r) == [cs[0].zone] + Labels(tail);
      assert Labels(cs) == [cs[0].zone] + Labels(cs[1..]);
      assert Elements(Labels(r)) == {cs[0].zone} + Elements(Labels(tail));
      assert Elements(Labels(cs)) == {cs[0].zone} + Elements(Labels(cs[1..]));
    }
  }

  lemma {:induction false} AddToClusterDistinct<P>(cs: seq<Cluster<P>>, lab: int, p: P)
    requires Distinct(Labels(cs))
    ensures Distinct(Labels(AddToCluster(cs, lab, p)))
    decreases |cs|
  {
    var r := AddToCluster(cs, lab, p);
    if |cs| == 0 {
      assert Labels(r) == [lab];
    } else if cs[0].zone == lab {
      assert Labels(r) == Labels(cs);
    } else {
      var tail := AddToCluster(cs[1..], lab, p);
      assert Labels(cs[1..]) == Labels(cs)[1..];
      DistinctTail(Labels(cs));
      AddToClusterDistinct(cs[1..], lab, p);
      AddToClusterLabels(cs[1..], lab, p);
      assert Labels(r) == [cs[0].zone] + Labels(tail);
      assert cs[0].zone !in Elements(Labels(tail));
      forall a, b | 0 <= a < b < |Labels(r)|
        ensures Labels(r)[a] != Labels(r)[b]
      {
        assert Labels(r)[b] == Labels(tail)[b - 1];
        if a == 0 {
          assert Labels(r)[b] in Elements(Labels(tail));
        } else {
          assert Labels(r)[a] == Labels(tail)[a - 1];
        }
      }
    }
  }

  lemma {:induction false} AddToClusterMembers<P>(cs: seq<Cluster<P>>, lab: int, p: P)
    ensures multiset(AllMembers(AddToCluster(cs, lab, p))) == multiset(AllMembers(cs)) + multiset{p}
    decreases |cs|
  {
    if |cs| == 0 {
    } else if cs[0].zone == lab {
      var r := AddToCluster(cs, lab, p);
      assert r[1..] == cs[1..];
      assert AllMembers(r) == cs[0].members + [p] + AllMembers(cs[1..]);
    } else {
      AddToClusterMembers(cs[1..], lab, p);
      var r := AddToCluster(cs, lab, p);
      assert r[1..] == AddToCluster(cs[1..], lab, p);
    }
  }

  lemma SelectSnoc<P>(labels: seq<int>, points: seq<P>, l: int, p: P, x: int)
    requires |labels| == |points|
    ensures Select(labels + [l], points + [p], x)
            == Select(labels, points, x) + (if x == l then [p] else [])
  {
    assert (labels + [l])[..|labels|] == labels;
    assert (points + [p])[..|points|] == points;
  }

  lemma {:induction false} SelectAbsent<P>(labels: seq<int>, points: seq<P>, x: int)
    requires |labels| == |points|
    requires x !in labels
    ensures Select(labels, points, x) == []
    decreases |labels|
  {
    if |labels| > 0 {
      assert x !in labels[..|labels| - 1];
      SelectAbsent(labels[..|labels| - 1], points[..|points| - 1], x);
    }
  }

  /** Clusters whose members are exactly the points selected by their label. */
  ghost predicate MembersSelected<P>(cs: seq<Cluster<P>>, labels: seq<int>, points: seq<P>)
    requires |labels| == |points|
  {
    forall i :: 0 <= i < |cs| ==> cs[i].members == Select(labels, points, cs[i].zone)
  }

  lemma {:induction false} AddToClusterSelect<P>(cs: seq<Cluster<P>>, labels: seq<int>, points: seq<P>, l: int, p: P)
    requires |labels| == |points|
    requires Distinct(Labels(cs))
    requires MembersSelected(cs, labels, points)
    requires l !in Labels(cs) ==> l !in labels
    ensures MembersSelected(AddToCluster(cs, l, p), labels + [l], points + [p])
    decreases |cs|
  {
    var r := AddToCluster(cs, l, p);
    forall x {
      SelectSnoc(labels, points, l, p, x);
    }
    if |cs| == 0 {
      SelectAbsent(labels, points, l);
    } else if cs[0].zone == l {
      forall i | 0 <= i < |r|
        ensures r[i].members == Select(labels + [l], points + [p], r[i].zone)
      {
        if i > 0 {
          assert r[i] == cs[i];
          assert cs[i].zone != l by {
            assert Labels(cs)[0] != Labels(cs)[i];
          }
        }
      }
    } else {
      assert Labels(cs) == [cs[0].zone] + Labels(cs[1..]);
      assert Labels(cs[1..]) == Labels(cs)[1..];
      DistinctTail(Labels(cs));
      assert MembersSelected(cs[1..], labels, points) by {
        forall i | 0 <= i < |cs[1..]|
          ensures cs[1..][i].members == Select(labels, points, cs[1..][i].zone)
        {
          assert cs[1..][i] == cs[i + 1];
        }
      }
      AddToClusterSelect(cs[1..], labels, points, l, p);
      assert r == [cs[0]] + AddToCluster(cs[1..], l, p);
    }
  }

  lemma {:induction false} GroupByLabelLabels<P>(labels: seq<int>, points: seq<P>)
    requires |labels| == |points|
    ensures Distinct(Labels(GroupByLabel(labels, points)))
    ensures Elements(Labels(GroupByLabel(labels, points))) == Elements(labels)
    decreases |labels|
  {
    if |labels| > 0 {
      var n := |labels| - 1;
      GroupByLabelLabels(labels[..n], points[..n]);
      var g0 := GroupByLabel(labels[..n], points[..n]);
      AddToClusterLabels(g0, labels[n], points[n]);
      AddToClusterDistinct(g0, labels[n], points[n]);
      assert labels == labels[..n] + [labels[n]];
      ElementsSnoc(labels[..n], labels[n]);
    }
  }

  lemma {:induction false} GroupByLabelMembers<P>(labels: seq<int>, points: seq<P>)
    requires |labels| == |points|
    ensures multiset(AllMembers(GroupByLabel(labels, points))) == multiset(points)
    decreases |labels|
  {
    if |labels| > 0 {
      var n := |labels| - 1;
      var ps := points[..n];
      var g0 := GroupByLabel(labels[..n], ps);
      assert GroupByLabel(labels, points) == AddToCluster(g0, labels[n], points[n]);
      assert points == ps + [points[n]];
      GroupByLabelMembers(labels[..n], ps);
      AddToClusterKeepsMembers(g0, labels[n], points[n], ps);
    }
  }

  /** The inductive step of `GroupByLabelMembers`, apart from the slicing. */
  lemma AddToClusterKeepsMembers<P>(g0: seq<Cluster<P>>, lab: int, p: P, ps: seq<P>)
    requires multiset(AllMembers(g0)) == multiset(ps)
    ensures multiset(AllMembers(AddToCluster(g0, lab, p))) == multiset(ps + [p])
  {
    AddToClusterMembers(g0, lab, p);
  }

  lemma {:induction false} GroupByLabelSelects<P>(labels: seq<int>, points: seq<P>)
    requires |labels| == |points|
    ensures MembersSelected(GroupByLabel(labels, points), labels, points)
    decreases |labels|
  {
    if |labels| > 0 {
      var n := |labels| - 1;
      var ls, ps := labels[..n], points[..n];
      GroupByLabelSelects(ls, ps);
      GroupByLabelLabels(ls, ps);
      var g0 := GroupByLabel(ls, ps);
      assert labels[n] !in Labels(g0) ==> labels[n] !in ls by {
        assert labels[n] in Labels(g0) <==> labels[n] in Elements(Labels(g0));
      }
      AddToClusterSelect(g0, ls, ps, labels[n], points[n]);
      assert ls + [labels[n]] == labels;
      assert ps + [points[n]] == points;
    }
  }

  /**
   `zones` lists labels in the order in which they first appear in `labels`:
   wherever a later zone occurs in `labels`, every earlier zone has already
   occurred before it.
   */
  ghost predicate FirstAppearanceOrder(zones: seq<int>, labels: seq<int>) {
    forall i, j, m :: 0 <= i < j < |zones| && 0 <= m < |labels| && labels[m] == zones[j] ==>
      zones[i] in labels[..m]
  }

  /** Adding to a cluster keeps the labels in place, and a new label goes last. */
  lemma {:induction false} AddToClusterLabelSeq<P>(cs: seq<Cluster<P>>, lab: int, p: P)
    ensures Labels(AddToCluster(cs, lab, p)) == if lab in Labels(cs) then Labels(cs) else Labels(cs) + [lab]
    decreases |cs|
  {
    var r := AddToCluster(cs, lab, p);
    if |cs| == 0 {
      assert Labels(r) == [lab];
    } else if cs[0].zone == lab {
      assert Labels(r) == Labels(cs);
      assert Labels(cs)[0] == lab;
    } else {
      AddToClusterLabelSeq(cs[1..], lab, p);
      assert Labels(cs) == [cs[0].zone] + Labels(cs[1..]);
      assert Labels(r) == [cs[0].zone] + Labels(AddToCluster(cs[1..], lab, p));
    }
  }

  /**
   One more label keeps the order of first appearance: a label seen before
   changes nothing, and a new one comes after all the others.
   */
  lemma FirstAppearanceOrderSnoc(z0: seq<int>, ls: seq<int>, l: int)
    requires FirstAppearanceOrder(z0, ls)
    requires forall x :: x in z0 <==> x in ls
    ensures FirstAppearanceOrder(if l in z0 then z0 else z0 + [l], ls + [l])
  {
    var z, labels, n := if l in z0 then z0 else z0 + [l], ls + [l], |ls|;
    forall i, j, m | 0 <= i < j < |z| && 0 <= m < |labels| && labels[m] == z[j]
      ensures z[i] in labels[..m]
    {
      if l in z0 {
        if m < n {
          assert ls[m] == z0[j];
          assert z0[i] in ls[..m];
          assert ls[..m] == labels[..m];
        } else {
          var m' :| 0 <= m' < n && ls[m'] == l;
          assert z0[i] in ls[..m'];
          assert ls[..m'] == labels[..m'];
          assert labels[..m'] <= labels[..m];
        }
      } else if j < |z0| {
        assert z0[j] != l;
        assert ls[m] == z0[j];
        assert z0[i] in ls[..m];
        assert ls[..m] == labels[..m];
      } else {
        assert l !in ls;
        assert m == n;
        assert z[i] == z0[i] && z0[i] in z0;
        assert labels[..m] == ls;
      }
    }
  }

  /** The clusters come in the order in which their labels first appear. */
  lemma {:induction false} GroupByLabelOrder<P>(labels: seq<int>, points: seq<P>)
    requires |labels| == |points|
    ensures FirstAppearanceOrder(Labels(GroupByLabel(labels, points)), labels)
    decreases |labels|
  {
    if |labels| > 0 {
      var n := |labels| - 1;
      var ls, ps, l := labels[..n], points[..n], labels[n];
      var g0 := GroupByLabel(ls, ps);
      assert GroupByLabel(labels, points) == AddToCluster(g0, l, points[n]);
      assert ls + [l] == labels;
      GroupByLabelOrder(ls, ps);
      GroupByLabelLabels(ls, ps);
      AddToClusterKeepsOrder(g0, l, points[n], ls);
    }
  }

  /** The inductive step of `GroupByLabelOrder`, apart from the slicing. */
  lemma AddToClusterKeepsOrder<P>(g0: seq<Cluster<P>>, l: int, p: P, ls: seq<int>)
    requires FirstAppearanceOrder(Labels(g0), ls)
    requires Elements(Labels(g0)) == Elements(ls)
    ensures FirstAppearanceOrder(Labels(AddToCluster(g0, l, p)), ls + [l])
  {
    AddToClusterLabelSeq(g0, l, p);
    var z0 := Labels(g0);
    assert forall x :: x in z0 <==> x in ls by {
      assert forall x :: x in z0 <==> x in Elements(z0);
      assert forall x :: x in ls <==> x in Elements(ls);
    }
    FirstAppearanceOrderSnoc(z0, ls, l);
  }

  /**
   Grouping by label partitions the points: one cluster per distinct label, in
   order of first appearance; each cluster holds exactly the points with its
   label, in input order; together the clusters hold every point exactly once.
   */
  lemma GroupByLabelPartitions<P>(labels: seq<int>, points: seq<P>)
    requires |labels| == |points|
    ensures var g := GroupByLabel(labels, points);
      && Distinct(Labels(g))
      && Elements(Labels(g)) == Elements(labels)
      && MembersSelected(g, labels, points)
      && multiset(AllMembers(g)) == multiset(points)
      && FirstAppearanceOrder(Labels(g), labels)
  {
    GroupByLabelOrder(labels, points);
    GroupByLabelLabels(labels, points);
    GroupByLabelMembers(labels, points);
    GroupByLabelSelects(labels, points);
  }

  /**
   There are exactly as many clusters as distinct labels, so a fit whose
   labels use `k` distinct values yields `k` clusters.
   */
  lemma ClusterCount<P>(labels: seq<int>, points: seq<P>)
    requires |labels| == |points|
    ensures |GroupByLabel(labels, points)| == |Elements(labels)|
  {
    GroupByLabelLabels(labels, points);
    DistinctCardinality(Labels(GroupByLabel(labels, points)));
  }
}
