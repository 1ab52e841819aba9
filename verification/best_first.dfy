/**
 The API's path search (`heuristic` and `shortest_path`): a best-first search
 over an adjacency-list graph whose nodes are coordinate pairs, driven by a
 binary heap of `(priority, node)` entries, with a `came_from` map from which
 the path is read back once the goal is taken off the heap.

 The search is complete: it returns a walk from the start to the goal exactly
 when one exists, and the empty list otherwise. It is not claimed to return a
 shortest walk (see the README).
 */
module BestFirst {
  import opened Common

  /** A node: a coordinate pair, hashed and ordered as a Python tuple. */
  type Node = (real, real)

  /** Adjacency lists: each entry is a neighbour and the weight of the edge to it. */
  type Graph = map<Node, seq<(Node, real)>>

  /** A heap entry `(priority, node)`. */
  type Entry = (real, Node)

  /** `heuristic`: the Manhattan distance between two coordinate pairs. */
  function Heuristic(a: Node, b: Node): (r: real)
    ensures r >= 0.0
    ensures r == 0.0 <==> a == b
  {
    Abs(a.0 - b.0) + Abs(a.1 - b.1)
  }

  lemma HeuristicSymmetric(a: Node, b: Node)
    ensures Heuristic(a, b) == Heuristic(b, a)
  {
  }

  lemma HeuristicTriangle(a: Node, b: Node, c: Node)
    ensures Heuristic(a, c) <= Heuristic(a, b) + Heuristic(b, c)
  {
  }

  /** `graph.get(node, [])`: the adjacency list of `n`, empty for a node without one. */
  function Neighbours(g: Graph, n: Node): seq<(Node, real)> {
    if n in g then g[n] else []
  }

  /** `b` appears in the adjacency list of `a`. */
  predicate Edge(g: Graph, a: Node, b: Node) {
    exists k :: 0 <= k < |Neighbours(g, a)| && Neighbours(g, a)[k].0 == b
  }

  /** A non-empty node sequence whose consecutive nodes are joined by edges. */
  predicate IsWalk(g: Graph, w: seq<Node>) {
    |w| > 0 && forall i :: 0 <= i < |w| - 1 ==> Edge(g, w[i], w[i + 1])
  }

  ghost predicate Reachable(g: Graph, a: Node, b: Node) {
    exists w :: IsWalk(g, w) && w[0] == a && w[|w| - 1] == b
  }

  /** Python's tuple order on heap entries: by priority, then by the node's coordinates. */
  predicate EntryLe(a: Entry, b: Entry) {
    || a.0 < b.0
    || (a.0 == b.0 && (a.1.0 < b.1.0 || (a.1.0 == b.1.0 && a.1.1 <= b.1.1)))
  }

  /** The position of the entry `heapq.heappop` removes: a least entry in tuple order. */
  function MinIndex(q: seq<Entry>): (m: nat)
    requires |q| > 0
    ensures m < |q| && forall i :: 0 <= i < |q| ==> EntryLe(q[m], q[i])
    decreases |q|
  {
    if |q| == 1 then 0
    else
      var m := MinIndex(q[..|q| - 1]);
      assert forall i :: 0 <= i < |q| - 1 ==> q[..|q| - 1][i] == q[i];
      if EntryLe(q[m], q[|q| - 1]) then m else |q| - 1
  }

  /** The nodes currently on the heap. */
  function QueueNodes(q: seq<Entry>): set<Node> {
    set i | 0 <= i < |q| :: q[i].1
  }

  /** Every node the search can ever put on the heap: the start and every edge target. */
  function Universe(g: Graph, start: Node): set<Node> {
    {start} + set a, k | a in g && 0 <= k < |g[a]| :: g[a][k].0
  }

  lemma EdgeInUniverse(g: Graph, start: Node, a: Node, b: Node)
    requires Edge(g, a, b)
    ensures b in Universe(g, start)
  {
    var k :| 0 <= k < |Neighbours(g, a)| && Neighbours(g, a)[k].0 == b;
    assert a in g && g[a][k].0 == b;
  }

  /**
   The search tree recorded in `came_from`: the start has no parent; every
   parent is visited and has an edge to its child; a visited child was
   visited after its parent (`pos` numbers the visits); and every visited
   node other than the start has a parent.
   */
  ghost predicate Tree(g: Graph, start: Node, cameFrom: map<Node, Node>, visited: set<Node>,
                       pos: map<Node, nat>)
  {
    && visited == pos.Keys
    && start !in cameFrom
    && (forall k :: k in cameFrom ==> cameFrom[k] in visited && Edge(g, cameFrom[k], k))
    && (forall k :: k in cameFrom && k in visited ==> pos[cameFrom[k]] < pos[k])
    && (forall v :: v in visited ==> v == start || v in cameFrom)
  }

  /** Every edge out of a visited node leads to a visited node or to a node on the heap. */
  ghost predicate Frontier(g: Graph, visited: set<Node>, q: seq<Entry>) {
    forall v, k :: v in visited && 0 <= k < |Neighbours(g, v)| ==>
      Neighbours(g, v)[k].0 in visited || Neighbours(g, v)[k].0 in QueueNodes(q)
  }

  /** Every visit number is below `count`. */
  ghost predicate Numbered(pos: map<Node, nat>, count: nat) {
    forall v :: v in pos ==> pos[v] < count
  }

  /** What holds each time the main loop of `shortest_path` tests its condition. */
  ghost predicate Searching(g: Graph, start: Node, end: Node, q: seq<Entry>, visited: set<Node>,
                            cameFrom: map<Node, Node>, pos: map<Node, nat>, count: nat)
  {
    && Tree(g, start, cameFrom, visited, pos)
    && Numbered(pos, count)
    && (forall i :: 0 <= i < |q| ==> q[i].1 == start || q[i].1 in cameFrom)
    && (visited == {} ==> q == [(0.0, start)] && cameFrom == map[])
    && (visited != {} ==> start in visited)
    && end !in visited
    && Frontier(g, visited, q)
    && visited <= Universe(g, start)
    && QueueNodes(q) <= Universe(g, start)
  }

  /**
   Taking entry `m` off the heap and then appending entries: every node that
   was on the heap still is, unless it was the node taken off; the old entries
   keep their order.
   */
  lemma PopPush(q: seq<Entry>, m: nat, q'': seq<Entry>)
    requires m < |q|
    requires |q''| >= |q| - 1 && q''[..|q| - 1] == RemoveAt(q, m)
    ensures QueueNodes(q) <= QueueNodes(q'') + {q[m].1}
    ensures forall i :: 0 <= i < |q| - 1 ==> q''[i] == q[if i < m then i else i + 1]
  {
    var q' := RemoveAt(q, m);
    forall i | 0 <= i < |q| - 1
      ensures q''[i] == q[if i < m then i else i + 1]
    {
      assert q''[i] == q'[i];
    }
    forall i | 0 <= i < |q|
      ensures q[i].1 in QueueNodes(q'') + {q[m].1}
    {
      if i < m {
        assert q''[i] == q[i];
      } else if i > m {
        assert q''[i - 1] == q[i];
      }
    }
  }

  /** Popping an entry whose node was already visited keeps the loop invariant. */
  lemma PopVisited(g: Graph, start: Node, end: Node, q: seq<Entry>, visited: set<Node>,
                   cameFrom: map<Node, Node>, pos: map<Node, nat>, count: nat, m: nat)
    requires Searching(g, start, end, q, visited, cameFrom, pos, count)
    requires m < |q| && q[m].1 in visited
    ensures Searching(g, start, end, RemoveAt(q, m), visited, cameFrom, pos, count)
  {
    var q' := RemoveAt(q, m);
    assert q'[..|q| - 1] == q';
    PopPush(q, m, q');
    assert QueueNodes(q') <= QueueNodes(q) by {
      forall i | 0 <= i < |q'|
        ensures q'[i].1 in QueueNodes(q)
      {
        var i' := if i < m then i else i + 1;
        assert q'[i] == q[i'];
      }
    }
  }

  /**
   The inner loop of `shortest_path`: every neighbour of `node` that is not
   yet visited is pushed with priority `cost + weight + heuristic(neighbour,
   end)`, and `came_from` records `node` as its parent.
   */
  method Expand(g: Graph, end: Node, node: Node, cost: real, visited: set<Node>,
                q: seq<Entry>, cameFrom: map<Node, Node>)
    returns (q': seq<Entry>, cameFrom': map<Node, Node>)
    requires node in visited
    ensures |q'| >= |q| && q'[..|q|] == q
    ensures forall k :: 0 <= k < |Neighbours(g, node)| ==>
              Neighbours(g, node)[k].0 in visited || Neighbours(g, node)[k].0 in QueueNodes(q')
    ensures forall i :: |q| <= i < |q'| ==>
              q'[i].1 in cameFrom' && q'[i].1 !in visited && Edge(g, node, q'[i].1)
    ensures forall k :: k in cameFrom' ==>
              (k in cameFrom && cameFrom'[k] == cameFrom[k]) || (k !in visited && cameFrom'[k] == node && Edge(g, node, k))
    ensures cameFrom.Keys <= cameFrom'.Keys
  {
    var nbrs := Neighbours(g, node);
    q', cameFrom' := q, cameFrom;
    for i := 0 to |nbrs|
      invariant |q'| >= |q| && q'[..|q|] == q
      invariant forall k :: 0 <= k < i ==> nbrs[k].0 in visited || nbrs[k].0 in QueueNodes(q')
      invariant forall j :: |q| <= j < |q'| ==>
                  q'[j].1 in cameFrom' && q'[j].1 !in visited && Edge(g, node, q'[j].1)
      invariant forall k :: k in cameFrom' ==>
                  (k in cameFrom && cameFrom'[k] == cameFrom[k]) || (k !in visited && cameFrom'[k] == node && Edge(g, node, k))
      invariant cameFrom.Keys <= cameFrom'.Keys
    {
      var (neighbour, weight) := nbrs[i];
      if neighbour !in visited {
        assert Edge(g, node, neighbour) by {
          assert nbrs[i].0 == neighbour;
        }
        var priority := cost + weight + Heuristic(neighbour, end);
        QueueNodesSnoc(q', (priority, neighbour));
        q' := q' + [(priority, neighbour)];
        cameFrom' := cameFrom'[neighbour := node];
      }
    }
  }

  lemma QueueNodesSnoc(q: seq<Entry>, e: Entry)
    ensures QueueNodes(q + [e]) == QueueNodes(q) + {e.1}
  {
    var q' := q + [e];
    assert forall i :: 0 <= i < |q| ==> q'[i] == q[i];
    assert q'[|q|] == e;
  }

  /** Visiting `node` (not yet visited, taken from the heap) keeps the search tree. */
  lemma VisitTree(g: Graph, start: Node, end: Node, q: seq<Entry>, visited: set<Node>,
                  cameFrom: map<Node, Node>, pos: map<Node, nat>, count: nat, m: nat)
    requires Searching(g, start, end, q, visited, cameFrom, pos, count)
    requires m < |q| && q[m].1 !in visited
    ensures var node := q[m].1;
      && Tree(g, start, cameFrom, visited + {node}, pos[node := count])
      && Numbered(pos[node := count], count + 1)
      && start in visited + {node}
  {
  }

  /** Visiting `node` and expanding it keeps the loop invariant. */
  lemma VisitExpand(g: Graph, start: Node, end: Node, q: seq<Entry>, visited: set<Node>,
                    cameFrom: map<Node, Node>, pos: map<Node, nat>, count: nat, m: nat,
                    q'': seq<Entry>, cameFrom': map<Node, Node>)
    requires Searching(g, start, end, q, visited, cameFrom, pos, count)
    requires m < |q| && q[m].1 !in visited && q[m].1 != end
    requires var node := q[m].1;
      && |q''| >= |q| - 1 && q''[..|q| - 1] == RemoveAt(q, m)
      && (forall k :: 0 <= k < |Neighbours(g, node)| ==>
            Neighbours(g, node)[k].0 in visited + {node} || Neighbours(g, node)[k].0 in QueueNodes(q''))
      && (forall i :: |q| - 1 <= i < |q''| ==>
            q''[i].1 in cameFrom' && q''[i].1 !in visited + {node} && Edge(g, node, q''[i].1))
      && (forall k :: k in cameFrom' ==>
            (k in cameFrom && cameFrom'[k] == cameFrom[k]) || (k !in visited + {node} && cameFrom'[k] == node && Edge(g, node, k)))
      && cameFrom.Keys <= cameFrom'.Keys
    ensures var node := q[m].1;
      Searching(g, start, end, q'', visited + {node}, cameFrom', pos[node := count], count + 1)
  {
    var node := q[m].1;
    var visited', pos' := visited + {node}, pos[node := count];
    VisitTree(g, start, end, q, visited, cameFrom, pos, count, m);
    PopPush(q, m, q'');
    ExpandedQueue(g, start, q, m, q'', cameFrom, cameFrom');
    ExpandedTree(g, start, cameFrom, visited, pos, count, node, cameFrom');
    ExpandedFrontier(g, visited, q, m, q'');
    assert q[m].1 in QueueNodes(q);
  }

  /** The edges of the node just visited lead to visited or queued nodes, so the frontier still holds. */
  lemma ExpandedFrontier(g: Graph, visited: set<Node>, q: seq<Entry>, m: nat, q'': seq<Entry>)
    requires Frontier(g, visited, q) && m < |q|
    requires QueueNodes(q) <= QueueNodes(q'') + {q[m].1}
    requires var node := q[m].1;
      forall k :: 0 <= k < |Neighbours(g, node)| ==>
        Neighbours(g, node)[k].0 in visited + {node} || Neighbours(g, node)[k].0 in QueueNodes(q'')
    ensures Frontier(g, visited + {q[m].1}, q'')
  {
    var node := q[m].1;
    forall v, k | v in visited + {node} && 0 <= k < |Neighbours(g, v)|
      ensures Neighbours(g, v)[k].0 in visited + {node} || Neighbours(g, v)[k].0 in QueueNodes(q'')
    {
      if v != node {
        var w := Neighbours(g, v)[k].0;
        assert w in visited || w in QueueNodes(q);
      }
    }
  }

  lemma ExpandedQueue(g: Graph, start: Node, q: seq<Entry>, m: nat, q'': seq<Entry>,
                      cameFrom: map<Node, Node>, cameFrom': map<Node, Node>)
    requires m < |q| && |q''| >= |q| - 1
    requires forall i :: 0 <= i < |q| - 1 ==> q''[i] == q[if i < m then i else i + 1]
    requires forall i :: 0 <= i < |q| ==> q[i].1 == start || q[i].1 in cameFrom
    requires QueueNodes(q) <= Universe(g, start)
    requires forall i :: |q| - 1 <= i < |q''| ==> q''[i].1 in cameFrom' && Edge(g, q[m].1, q''[i].1)
    requires cameFrom.Keys <= cameFrom'.Keys
    ensures forall i :: 0 <= i < |q''| ==> q''[i].1 == start || q''[i].1 in cameFrom'
    ensures QueueNodes(q'') <= Universe(g, start)
  {
    forall i | 0 <= i < |q''|
      ensures q''[i].1 == start || q''[i].1 in cameFrom'
      ensures q''[i].1 in Universe(g, start)
    {
      if i < |q| - 1 {
        var i' := if i < m then i else i + 1;
        assert q''[i] == q[i'];
        assert q[i'].1 in QueueNodes(q);
      } else {
        EdgeInUniverse(g, start, q[m].1, q''[i].1);
      }
    }
  }

  lemma ExpandedTree(g: Graph, start: Node, cameFrom: map<Node, Node>, visited: set<Node>,
                     pos: map<Node, nat>, count: nat, node: Node, cameFrom': map<Node, Node>)
    requires Tree(g, start, cameFrom, visited + {node}, pos[node := count])
    requires Numbered(pos, count) && node !in visited && start in visited + {node}
    requires forall k :: k in cameFrom' ==>
      (k in cameFrom && cameFrom'[k] == cameFrom[k]) || (k !in visited + {node} && cameFrom'[k] == node && Edge(g, node, k))
    requires cameFrom.Keys <= cameFrom'.Keys
    ensures Tree(g, start, cameFrom', visited + {node}, pos[node := count])
  {
    var visited', pos' := visited + {node}, pos[node := count];
    assert start !in cameFrom';
    assert forall k :: k in cameFrom' ==> cameFrom'[k] in visited' && Edge(g, cameFrom'[k], k);
    forall k | k in cameFrom' && k in visited'
      ensures pos'[cameFrom'[k]] < pos'[k]
    {
      assert k in cameFrom && cameFrom'[k] == cameFrom[k];
    }
    assert forall v :: v in visited' ==> v == start || v in cameFrom';
  }

  /** When the heap runs empty, no walk leads from the start to the goal. */
  lemma ExhaustedUnreachable(g: Graph, start: Node, end: Node, visited: set<Node>,
                             cameFrom: map<Node, Node>, pos: map<Node, nat>, count: nat)
    requires Searching(g, start, end, [], visited, cameFrom, pos, count)
    ensures !Reachable(g, start, end)
  {
    assert Frontier(g, visited, []);
    if w :| IsWalk(g, w) && w[0] == start && w[|w| - 1] == end {
      WalkStaysInside(g, visited, w);
    }
  }

  /** A walk that starts inside a set closed under edges never leaves it. */
  lemma {:induction false} WalkStaysInside(g: Graph, inside: set<Node>, w: seq<Node>)
    requires IsWalk(g, w) && w[0] in inside
    requires forall v, k :: v in inside && 0 <= k < |Neighbours(g, v)| ==> Neighbours(g, v)[k].0 in inside
    ensures forall i :: 0 <= i < |w| ==> w[i] in inside
    decreases |w|
  {
    if |w| > 1 {
      var w' := w[..|w| - 1];
      assert forall i :: 0 <= i < |w'| ==> w'[i] == w[i];
      WalkStaysInside(g, inside, w');
      assert Edge(g, w[|w| - 2], w[|w| - 1]);
      var k :| 0 <= k < |Neighbours(g, w[|w| - 2])| && Neighbours(g, w[|w| - 2])[k].0 == w[|w| - 1];
    }
  }

  /**
   Reads the path back from `came_from`, from the goal to the start, and
   reverses it: a walk from the start to the goal without repeated nodes.
   */
  method Reconstruct(g: Graph, start: Node, end: Node, cameFrom: map<Node, Node>,
                     visited: set<Node>, ghost pos: map<Node, nat>)
    returns (path: seq<Node>)
    requires Tree(g, start, cameFrom, visited, pos)
    requires end in visited
    ensures IsWalk(g, path) && path[0] == start && path[|path| - 1] == end
    ensures Distinct(path)
    ensures end == start ==> path == [start]
  {
    var back := TraceBack(g, start, end, cameFrom, visited, pos);
    path := Rev(back);
    ReversedChain(g, back, pos);
  }

  /**
   `back` lists the nodes already appended, from the goal backwards, and
   `node` is the next one: every step goes from a node to its predecessor
   along an edge, to a node visited earlier.
   */
  ghost predicate Chain(g: Graph, end: Node, back: seq<Node>, node: Node, pos: map<Node, nat>) {
    && node in pos
    && (back == [] ==> node == end)
    && (back != [] ==> back[0] == end && Edge(g, node, back[|back| - 1]))
    && (forall i :: 0 <= i < |back| ==> back[i] in pos && pos[back[i]] > pos[node])
    && (forall i, j :: 0 <= i < j < |back| ==> pos[back[i]] > pos[back[j]])
    && (forall i :: 0 <= i < |back| - 1 ==> Edge(g, back[i + 1], back[i]))
  }

  lemma ChainStep(g: Graph, end: Node, back: seq<Node>, node: Node, parent: Node, pos: map<Node, nat>)
    requires Chain(g, end, back, node, pos)
    requires parent in pos && pos[parent] < pos[node] && Edge(g, parent, node)
    ensures Chain(g, end, back + [node], parent, pos)
  {
    var back' := back + [node];
    assert forall i :: 0 <= i < |back| ==> back'[i] == back[i];
  }

  /** Appending the last node closes the chain. */
  lemma ChainClose(g: Graph, end: Node, back: seq<Node>, node: Node, pos: map<Node, nat>)
    requires Chain(g, end, back, node, pos)
    ensures var back' := back + [node];
      && back'[0] == end && back'[|back'| - 1] == node
      && (forall i :: 0 <= i < |back'| ==> back'[i] in pos)
      && (forall i, j :: 0 <= i < j < |back'| ==> pos[back'[i]] > pos[back'[j]])
      && (forall i :: 0 <= i < |back'| - 1 ==> Edge(g, back'[i + 1], back'[i]))
      && (back == [] ==> back' == [end])
  {
    var back' := back + [node];
    assert forall i :: 0 <= i < |back| ==> back'[i] == back[i];
  }

  /**
   The `while node in came_from` loop and the final `path.append(start)`:
   the chain of parents from the goal back to the start.
   */
  method TraceBack(g: Graph, start: Node, end: Node, cameFrom: map<Node, Node>,
                   visited: set<Node>, ghost pos: map<Node, nat>)
    returns (back: seq<Node>)
    requires Tree(g, start, cameFrom, visited, pos)
    requires end in visited
    ensures |back| > 0 && back[0] == end && back[|back| - 1] == start
    ensures forall i :: 0 <= i < |back| ==> back[i] in pos
    ensures forall i, j :: 0 <= i < j < |back| ==> pos[back[i]] > pos[back[j]]
    ensures forall i :: 0 <= i < |back| - 1 ==> Edge(g, back[i + 1], back[i])
    ensures end == start ==> back == [start]
  {
    back := [];
    var node := end;
    while node in cameFrom
      invariant Chain(g, end, back, node, pos)
      decreases pos[node]
    {
      ChainStep(g, end, back, node, cameFrom[node], pos);
      back := back + [node];
      node := cameFrom[node];
    }
    assert node == start;
    ChainClose(g, end, back, node, pos);
    back := back + [start];
  }

  /** A back-chain with strictly decreasing visit numbers reads forward as a walk without repeats. */
  lemma ReversedChain(g: Graph, back: seq<Node>, pos: map<Node, nat>)
    requires |back| > 0
    requires forall i :: 0 <= i < |back| ==> back[i] in pos
    requires forall i, j :: 0 <= i < j < |back| ==> pos[back[i]] > pos[back[j]]
    requires forall i :: 0 <= i < |back| - 1 ==> Edge(g, back[i + 1], back[i])
    ensures IsWalk(g, Rev(back)) && Distinct(Rev(back))
  {
    var path := Rev(back);
    forall a, b | 0 <= a < b < |path|
      ensures path[a] != path[b]
    {
      assert pos[back[|back| - 1 - b]] > pos[back[|back| - 1 - a]];
    }
    forall i | 0 <= i < |path| - 1
      ensures Edge(g, path[i], path[i + 1])
    {
      assert path[i] == back[|back| - 1 - i] && path[i + 1] == back[|back| - 2 - i];
    }
  }

  /** Visits the node of entry `m` (not the goal) and pushes its unvisited neighbours. */
  method Visit(g: Graph, start: Node, end: Node, q: seq<Entry>, visited: set<Node>,
               cameFrom: map<Node, Node>, ghost pos: map<Node, nat>, ghost count: nat, m: nat)
    returns (q': seq<Entry>, cameFrom': map<Node, Node>)
    requires Searching(g, start, end, q, visited, cameFrom, pos, count)
    requires m < |q| && q[m].1 !in visited && q[m].1 != end
    ensures Searching(g, start, end, q', visited + {q[m].1}, cameFrom', pos[q[m].1 := count], count + 1)
  {
    var (cost, node) := q[m];
    q', cameFrom' := Expand(g, end, node, cost, visited + {node}, RemoveAt(q, m), cameFrom);
    VisitExpand(g, start, end, q, visited, cameFrom, pos, count, m, q', cameFrom');
  }

  lemma Shrinks(u: set<Node>, visited: set<Node>, node: Node)
    requires node in u && node !in visited
    ensures |u - (visited + {node})| < |u - visited|
  {
    var rest := u - (visited + {node});
    assert u - visited == rest + {node} && node !in rest;
  }

  /**
   `shortest_path`: searches from the start; on reaching the goal reads the
   path back from `came_from`; returns `[]` when the heap runs empty.
   */
  method ShortestPath(g: Graph, start: Node, end: Node) returns (path: seq<Node>)
    ensures |path| > 0 ==> IsWalk(g, path) && path[0] == start && path[|path| - 1] == end
    ensures |path| > 0 ==> Distinct(path)
    ensures |path| == 0 <==> !Reachable(g, start, end)
    ensures start == end ==> path == [start]
  {
    var found, cameFrom, visited, pos := Search(g, start, end);
    if found {
      path := Reconstruct(g, start, end, cameFrom, visited, pos);
      assert IsWalk(g, path) && path[0] == start && path[|path| - 1] == end;
    } else {
      path := [];
    }
  }

  /**
   The main loop of `shortest_path`: pops the least entry, skips it if its
   node was visited, otherwise visits it; stops on visiting the goal, else
   pushes the unvisited neighbours. Reports whether the goal was visited.
   */
  method Search(g: Graph, start: Node, end: Node)
    returns (found: bool, cameFrom: map<Node, Node>, visited: set<Node>, ghost pos: map<Node, nat>)
    ensures found ==> Tree(g, start, cameFrom, visited, pos) && end in visited
    ensures !found ==> !Reachable(g, start, end) && start != end
  {
    var q: seq<Entry> := [(0.0, start)];
    visited, cameFrom, pos := {}, map[], map[];
    ghost var count: nat := 0;
    assert QueueNodes(q) == {start} by {
      assert q[0].1 == start;
    }
    while |q| > 0
      invariant Searching(g, start, end, q, visited, cameFrom, pos, count)
      decreases |Universe(g, start) - visited|, |q|
    {
      var m := MinIndex(q);
      var (cost, node) := q[m];
      assert node in QueueNodes(q);
      if node in visited {
        PopVisited(g, start, end, q, visited, cameFrom, pos, count, m);
        q := RemoveAt(q, m);
        continue;
      }
      if node == end {
        VisitTree(g, start, end, q, visited, cameFrom, pos, count, m);
        return true, cameFrom, visited + {node}, pos[node := count];
      }
      var q', cameFrom' := Visit(g, start, end, q, visited, cameFrom, pos, count, m);
      Shrinks(Universe(g, start), visited, node);
      q, visited, cameFrom := q', visited + {node}, cameFrom';
      pos, count := pos[node := count], count + 1;
    }
    ExhaustedUnreachable(g, start, end, visited, cameFrom, pos, count);
    assert start != end by {
      assert IsWalk(g, [start]);
    }
    found := false;
  }
}
