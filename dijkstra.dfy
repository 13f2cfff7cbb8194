/** `dijkstra` of src/aoc/tools.py over a weighted adjacency map.  The
    priority queue is a sequence of `(distance, node, path)` entries from
    which an entry of least distance is popped; the result `(inf, [])` for
    "no path" is `None`.  The returned path is always a path of the graph
    of the returned weight; when every weight is non-negative it is also a
    shortest one. */
module ShortestPath {
  import opened Wrappers
  import GraphSearch

  type WGraph<N(==)> = map<N, seq<(N, int)>>

  /** `graph.get(node, [])`: the `(neighbour, weight)` edges out of `n`. */
  function Edges<N(==)>(g: WGraph<N>, n: N): seq<(N, int)> {
    if n in g then g[n] else []
  }

  function Targets<N>(es: seq<(N, int)>): (ts: seq<N>)
    ensures |ts| == |es| && forall k :: 0 <= k < |es| ==> ts[k] == es[k].0
  {
    seq(|es|, k requires 0 <= k < |es| => es[k].0)
  }

  /** The graph with its weights dropped. */
  function Plain<N(==,!new)>(g: WGraph<N>): (p: GraphSearch.Graph<N>)
    ensures forall n :: GraphSearch.Succ(p, n) == Targets(Edges(g, n))
  {
    map n | n in g :: Targets(g[n])
  }

  /** Every node the search can meet: the start, the keys, and every
      edge's target. */
  ghost function Universe<N>(g: WGraph<N>, start: N): set<N> {
    g.Keys + (set u, e | u in g && e in g[u] :: e.0) + {start}
  }

  /** `p` runs from `p[0]` along edges of `g` whose weights add up to `d`. */
  ghost predicate WeightedPath<N(!new)>(g: WGraph<N>, p: seq<N>, d: int)
    decreases |p|
  {
    |p| >= 1 &&
    if |p| == 1 then d == 0
    else exists e :: e in Edges(g, p[|p| - 2]) && e.0 == p[|p| - 1] && WeightedPath(g, p[..|p| - 1], d - e.1)
  }

  /** A weighted path is a path of the plain graph. */
  lemma {:induction false} WeightedPathIsPath<N(!new)>(g: WGraph<N>, p: seq<N>, d: int)
    requires WeightedPath(g, p, d)
    ensures GraphSearch.IsPath(Plain(g), p)
    decreases |p|
  {
    if |p| > 1 {
      var d2 := WeightedPathLast(g, p, d);
      WeightedPathIsPath(g, p[..|p| - 1], d2);
      IsPathExtend(Plain(g), p);
    }
  }

  /** The last step of a weighted path is an edge of the plain graph. */
  lemma WeightedPathLast<N(!new)>(g: WGraph<N>, p: seq<N>, d: int) returns (d2: int)
    requires WeightedPath(g, p, d) && |p| > 1
    ensures WeightedPath(g, p[..|p| - 1], d2)
    ensures p[|p| - 1] in GraphSearch.Succ(Plain(g), p[|p| - 2])
  {
    var e :| e in Edges(g, p[|p| - 2]) && e.0 == p[|p| - 1] && WeightedPath(g, p[..|p| - 1], d - e.1);
    d2 := d - e.1;
    var es := Edges(g, p[|p| - 2]);
    var i :| 0 <= i < |es| && es[i] == e;
    assert Targets(es)[i] == e.0;
  }

  /** A path followed by one more edge is a path. */
  lemma IsPathExtend<N>(g: GraphSearch.Graph<N>, p: seq<N>)
    requires |p| > 1 && GraphSearch.IsPath(g, p[..|p| - 1])
    requires p[|p| - 1] in GraphSearch.Succ(g, p[|p| - 2])
    ensures GraphSearch.IsPath(g, p)
  {
    var q := p[..|p| - 1];
    forall k | 0 < k < |p| ensures p[k] in GraphSearch.Succ(g, p[k - 1]) {
      if k < |q| {
        assert p[k] == q[k] && p[k - 1] == q[k - 1];
      }
    }
  }

  /** Extending a weighted path by one edge adds its weight. */
  lemma WeightedPathSnoc<N(!new)>(g: WGraph<N>, p: seq<N>, d: int, e: (N, int))
    requires WeightedPath(g, p, d)
    requires e in Edges(g, p[|p| - 1])
    ensures WeightedPath(g, p + [e.0], d + e.1)
  {
    var q := p + [e.0];
    assert q[..|q| - 1] == p;
    assert q[|q| - 2] == p[|p| - 1];
  }

  type Entry<N> = (int, N, seq<N>)

  /** The nodes that have an entry in the queue. */
  ghost function Queued<N>(pq: seq<Entry<N>>): set<N> {
    set e | e in pq :: e.1
  }

  /** An entry of least distance, as `heapq.heappop` takes. */
  function MinIndex<N>(pq: seq<Entry<N>>): (k: nat)
    requires pq != []
    ensures k < |pq| && forall j :: 0 <= j < |pq| ==> pq[k].0 <= pq[j].0
  {
    if |pq| == 1 then 0
    else
      var k := MinIndex(pq[..|pq| - 1]);
      assert forall j :: 0 <= j < |pq| - 1 ==> pq[..|pq| - 1][j] == pq[j];
      if pq[|pq| - 1].0 < pq[k].0 then |pq| - 1 else k
  }

  /** The entries the inner loop pushes: one per edge to a node not yet
      visited, in the order of the edges. */
  function Pushed<N(==)>(edges: seq<(N, int)>, visited: set<N>, dist: int, path: seq<N>): seq<Entry<N>> {
    if edges == [] then []
    else
      var front := Pushed(edges[..|edges| - 1], visited, dist, path);
      var (nb, w) := edges[|edges| - 1];
      if nb !in visited then front + [(dist + w, nb, path)] else front
  }

  /** An entry is pushed exactly for an edge to an unvisited node, and
      carries the path so far and the distance through that edge. */
  lemma {:induction false} PushedIff<N>(edges: seq<(N, int)>, visited: set<N>, dist: int, path: seq<N>, x: Entry<N>)
    ensures x in Pushed(edges, visited, dist, path)
      <==> x.2 == path && x.1 !in visited && (x.1, x.0 - dist) in edges
  {
    if edges != [] {
      var front := edges[..|edges| - 1];
      var (nb, w) := edges[|edges| - 1];
      PushedIff(front, visited, dist, path, x);
      assert edges == front + [(nb, w)];
      assert x == (dist + w, nb, path) <==> x.2 == path && (x.1, x.0 - dist) == (nb, w);
    }
  }

  /** The inner loop of `dijkstra`: push an entry for every edge out of the
      popped node whose target is not yet visited. */
  method PushNeighbours<N(==)>(edges: seq<(N, int)>, visited: set<N>, dist: int, path: seq<N>, pq: seq<Entry<N>>)
    returns (pq2: seq<Entry<N>>)
    ensures pq2 == pq + Pushed(edges, visited, dist, path)
  {
    pq2 := pq;
    for k := 0 to |edges|
      invariant pq2 == pq + Pushed(edges[..k], visited, dist, path)
    {
      assert edges[..k + 1][..k] == edges[..k];
      var (neighbour, weight) := edges[k];
      if neighbour !in visited {
        pq2 := pq2 + [(dist + weight, neighbour, path)];
      }
    }
    assert edges[..|edges|] == edges;
  }

  /** What `dijkstra` keeps true between iterations: every queued entry
      holds a weighted path from the start to its node, of its distance;
      the end is not yet visited; each neighbour of a visited node is
      visited or queued; the first iteration pops the start. */
  ghost predicate DijkstraInv<N(!new)>(g: WGraph<N>, start: N, end: N, universe: set<N>,
                                       visited: set<N>, pq: seq<Entry<N>>)
  {
    visited <= universe
    && end !in visited
    && EntriesOk(g, start, universe, pq)
    && (forall u, e :: u in visited && e in Edges(g, u) ==> e.0 in visited || e.0 in Queued(pq))
    && (visited == {} ==> pq == [(0, start, [])])
    && (visited != {} ==> start in visited)
  }

  lemma QueuedRemove<N>(pq: seq<Entry<N>>, k: nat)
    requires k < |pq|
    ensures Queued(pq) == Queued(pq[..k] + pq[k + 1..]) + {pq[k].1}
    ensures forall e :: e in pq[..k] + pq[k + 1..] ==> e in pq
  {
    assert pq == pq[..k] + [pq[k]] + pq[k + 1..];
  }

  /** Every entry holds a weighted path from the start to its node. */
  ghost predicate EntriesOk<N(!new)>(g: WGraph<N>, start: N, universe: set<N>, pq: seq<Entry<N>>) {
    forall e :: e in pq ==> e.1 in universe && (e.2 + [e.1])[0] == start && WeightedPath(g, e.2 + [e.1], e.0)
  }

  lemma EntriesAppend<N(!new)>(g: WGraph<N>, start: N, universe: set<N>, a: seq<Entry<N>>, b: seq<Entry<N>>)
    requires EntriesOk(g, start, universe, a) && EntriesOk(g, start, universe, b)
    ensures EntriesOk(g, start, universe, a + b)
  {
    forall e | e in a + b ensures e in a || e in b {
    }
  }

  /** Popping an entry of a node already visited keeps the invariant. */
  lemma DijkstraSkip<N(!new)>(g: WGraph<N>, start: N, end: N, universe: set<N>,
                              visited: set<N>, pq: seq<Entry<N>>, k: nat)
    requires DijkstraInv(g, start, end, universe, visited, pq)
    requires k < |pq| && pq[k].1 in visited
    ensures DijkstraInv(g, start, end, universe, visited, pq[..k] + pq[k + 1..])
  {
    QueuedRemove(pq, k);
  }

  /** Popping an entry of a new node other than the end: the node is
      visited and its pushed neighbours keep the invariant. */
  lemma DijkstraVisit<N(!new)>(g: WGraph<N>, start: N, end: N, universe: set<N>,
                               visited: set<N>, pq: seq<Entry<N>>, k: nat)
    requires universe == Universe(g, start)
    requires DijkstraInv(g, start, end, universe, visited, pq)
    requires k < |pq| && pq[k].1 !in visited && pq[k].1 != end
    ensures var (dist, node, path) := pq[k];
      var visited2 := visited + {node};
      DijkstraInv(g, start, end, universe, visited2,
                  pq[..k] + pq[k + 1..] + Pushed(Edges(g, node), visited2, dist, path + [node]))
    ensures |universe - (visited + {pq[k].1})| < |universe - visited|
  {
    var (dist, node, path) := pq[k];
    var visited2 := visited + {node};
    var rest := pq[..k] + pq[k + 1..];
    var added := Pushed(Edges(g, node), visited2, dist, path + [node]);
    QueuedRemove(pq, k);
    assert pq[k] in pq;
    DijkstraVisitPushed(g, start, universe, visited2, dist, node, path);
    DijkstraVisitClosed(g, visited, node, rest, added, dist, path + [node]);
    EntriesAppend(g, start, universe, rest, added);
    if visited == {} {
      assert pq[k] == (0, start, []);
    }
    assert node in universe - visited && node !in universe - visited2;
    GraphSearch.SubsetCard(universe - visited2, universe - visited);
  }

  /** The pushed entries hold weighted paths from the start. */
  lemma DijkstraVisitPushed<N(!new)>(g: WGraph<N>, start: N, universe: set<N>, visited2: set<N>,
                                     dist: int, node: N, path: seq<N>)
    requires universe == Universe(g, start)
    requires (path + [node])[0] == start && WeightedPath(g, path + [node], dist)
    ensures EntriesOk(g, start, universe, Pushed(Edges(g, node), visited2, dist, path + [node]))
  {
    forall e | e in Pushed(Edges(g, node), visited2, dist, path + [node])
      ensures e.1 in universe && (e.2 + [e.1])[0] == start && WeightedPath(g, e.2 + [e.1], e.0)
    {
      PushedEntry(g, start, universe, visited2, dist, node, path, e);
    }
  }

  /** One pushed entry: its node is an edge's target, and its path is the
      popped one extended by that edge. */
  lemma PushedEntry<N(!new)>(g: WGraph<N>, start: N, universe: set<N>, visited2: set<N>,
                             dist: int, node: N, path: seq<N>, e: Entry<N>)
    requires universe == Universe(g, start)
    requires (path + [node])[0] == start && WeightedPath(g, path + [node], dist)
    requires e in Pushed(Edges(g, node), visited2, dist, path + [node])
    ensures e.1 in universe && (e.2 + [e.1])[0] == start && WeightedPath(g, e.2 + [e.1], e.0)
  {
    var p := path + [node];
    PushedIff(Edges(g, node), visited2, dist, p, e);
    var edge := (e.1, e.0 - dist);
    TargetInUniverse(g, start, node, edge);
    assert p[|p| - 1] == node;
    WeightedPathSnoc(g, p, dist, edge);
  }

  lemma TargetInUniverse<N>(g: WGraph<N>, start: N, u: N, edge: (N, int))
    requires edge in Edges(g, u)
    ensures edge.0 in Universe(g, start)
  {
    assert u in g && edge in g[u];
  }

  /** After visiting `node`, its neighbours are visited or queued. */
  lemma DijkstraVisitClosed<N>(g: WGraph<N>, visited: set<N>, node: N, rest: seq<Entry<N>>,
                               added: seq<Entry<N>>, dist: int, path: seq<N>)
    requires forall u, e :: u in visited && e in Edges(g, u) ==> e.0 in visited || e.0 in Queued(rest) + {node}
    requires added == Pushed(Edges(g, node), visited + {node}, dist, path)
    ensures forall u, e :: u in visited + {node} && e in Edges(g, u) ==>
      e.0 in visited + {node} || e.0 in Queued(rest + added)
  {
    forall u, e | u in visited + {node} && e in Edges(g, u) && e.0 !in visited + {node}
      ensures e.0 in Queued(rest + added)
    {
      if u == node {
        var x := (dist + e.1, e.0, path);
        PushedIff(Edges(g, node), visited + {node}, dist, path, x);
        assert x in rest + added;
      } else {
        var x :| x in rest && x.1 == e.0;
        assert x in rest + added;
      }
    }
  }

  /** With the queue empty, the visited nodes hold the start and are closed
      under neighbours, and the end is not among them. */
  lemma DijkstraDone<N(!new)>(g: WGraph<N>, start: N, end: N, universe: set<N>, visited: set<N>)
    requires DijkstraInv(g, start, end, universe, visited, [])
    ensures !GraphSearch.Reachable(Plain(g), start, end)
  {
    assert start in visited;
    forall u, v | u in visited && v in GraphSearch.Succ(Plain(g), u) ensures v in visited {
      var es := Edges(g, u);
      var i :| 0 <= i < |es| && Targets(es)[i] == v;
      assert es[i] in es;
    }
    if GraphSearch.Reachable(Plain(g), start, end) {
      GraphSearch.ClosedHoldsReachable(Plain(g), start, visited, end);
    }
  }

  /** `p` leads from `start` to `end` and its weights add up to `d`. */
  ghost predicate Found<N(!new)>(g: WGraph<N>, start: N, end: N, d: int, p: seq<N>) {
    |p| >= 1 && p[0] == start && p[|p| - 1] == end && WeightedPath(g, p, d)
  }

  /** A queued entry for the end holds a path to it. */
  lemma FoundEnd<N(!new)>(g: WGraph<N>, start: N, end: N, universe: set<N>, pq: seq<Entry<N>>, k: nat)
    requires EntriesOk(g, start, universe, pq)
    requires k < |pq| && pq[k].1 == end
    ensures GraphSearch.Reachable(Plain(g), start, end)
    ensures Found(g, start, end, pq[k].0, pq[k].2 + [pq[k].1])
  {
    var p := pq[k].2 + [pq[k].1];
    assert pq[k] in pq;
    WeightedPathIsPath(g, p, pq[k].0);
    assert p[|p| - 1] == end;
  }

  // ---- shortest distances ----------------------------------------------------

  /** No edge has a negative weight. */
  ghost predicate NonNegative<N(!new)>(g: WGraph<N>) {
    forall u, e :: e in Edges(g, u) ==> e.1 >= 0
  }

  /** What the search knows about the nodes it has visited: `dist` holds the
      distance each was popped with, and every edge from a visited node to
      an unvisited one has a queued entry no farther than that distance plus
      the edge's weight. */
  ghost predicate PushedFrom<N(!new)>(g: WGraph<N>, visited: set<N>, dist: map<N, int>, pq: seq<Entry<N>>) {
    dist.Keys == visited
    && forall u, e :: u in visited && e in Edges(g, u) && e.0 !in visited ==>
         exists x :: x in pq && x.1 == e.0 && x.0 <= dist[u] + e.1
  }

  /** Every visited node was popped with a distance no greater than the
      weight of any path to it. */
  ghost predicate Settled<N(!new)>(g: WGraph<N>, start: N, dist: map<N, int>) {
    forall u, w, p :: u in dist && Found(g, start, u, w, p) ==> dist[u] <= w
  }

  /** The last edge of a weighted path of more than one node. */
  lemma LastEdge<N(!new)>(g: WGraph<N>, p: seq<N>, w: int) returns (e: (N, int))
    requires WeightedPath(g, p, w) && |p| > 1
    ensures e in Edges(g, p[|p| - 2]) && e.0 == p[|p| - 1]
    ensures WeightedPath(g, p[..|p| - 1], w - e.1)
  {
    e :| e in Edges(g, p[|p| - 2]) && e.0 == p[|p| - 1] && WeightedPath(g, p[..|p| - 1], w - e.1);
  }

  /** With non-negative weights, every path from the start to a node not
      yet visited is at least as heavy as some queued entry. */
  lemma {:induction false} Frontier<N(!new)>(g: WGraph<N>, start: N, visited: set<N>, pq: seq<Entry<N>>,
                                            dist: map<N, int>, p: seq<N>, w: int)
    requires NonNegative(g)
    requires visited == {} ==> (0, start, []) in pq
    requires visited != {} ==> start in visited
    requires PushedFrom(g, visited, dist, pq) && Settled(g, start, dist)
    requires |p| >= 1 && p[0] == start && WeightedPath(g, p, w) && p[|p| - 1] !in visited
    ensures exists x :: x in pq && x.0 <= w
    decreases |p|
  {
    if |p| == 1 {
      assert visited == {};
    } else {
      var q := p[..|p| - 1];
      var e := LastEdge(g, p, w);
      var y := q[|q| - 1];
      assert y == p[|p| - 2] && q[0] == start;
      if y in visited {
        assert Found(g, start, y, w - e.1, q);
        var x :| x in pq && x.1 == e.0 && x.0 <= dist[y] + e.1;
      } else {
        Frontier(g, start, visited, pq, dist, q, w - e.1);
        var x :| x in pq && x.0 <= w - e.1;
        assert e.1 >= 0;
      }
    }
  }

  /** With non-negative weights, an entry of least distance for a node not
      yet visited carries that node's shortest distance. */
  lemma PoppedIsShortest<N(!new)>(g: WGraph<N>, start: N, end: N, universe: set<N>,
                                  visited: set<N>, pq: seq<Entry<N>>, dist: map<N, int>, k: nat)
    requires NonNegative(g)
    requires DijkstraInv(g, start, end, universe, visited, pq)
    requires PushedFrom(g, visited, dist, pq) && Settled(g, start, dist)
    requires k < |pq| && pq[k].1 !in visited
    requires forall j :: 0 <= j < |pq| ==> pq[k].0 <= pq[j].0
    ensures forall w, p :: Found(g, start, pq[k].1, w, p) ==> pq[k].0 <= w
  {
    if visited == {} {
      assert pq[0] in pq;
    }
    forall w, p | Found(g, start, pq[k].1, w, p) ensures pq[k].0 <= w {
      Frontier(g, start, visited, pq, dist, p, w);
      var x :| x in pq && x.0 <= w;
      var j :| 0 <= j < |pq| && pq[j] == x;
    }
  }

  /** Recording a node's shortest distance keeps every recorded distance
      shortest. */
  lemma SettleNode<N(!new)>(g: WGraph<N>, start: N, dist: map<N, int>, node: N, d: int)
    requires Settled(g, start, dist)
    requires forall w, p :: Found(g, start, node, w, p) ==> d <= w
    ensures Settled(g, start, dist[node := d])
  {
  }

  /** An entry for another node than the popped one stays in the queue. */
  lemma KeptEntry<N>(pq: seq<Entry<N>>, k: nat, x: Entry<N>)
    requires k < |pq| && x in pq && x.1 != pq[k].1
    ensures x in pq[..k] + pq[k + 1..]
  {
    var i :| 0 <= i < |pq| && pq[i] == x;
    if i < k {
      assert (pq[..k] + pq[k + 1..])[i] == x;
    } else {
      assert (pq[..k] + pq[k + 1..])[i - 1] == x;
    }
  }

  /** Popping an entry of a visited node keeps the entries pushed for
      unvisited ones. */
  lemma SkipPushedFrom<N(!new)>(g: WGraph<N>, visited: set<N>, dist: map<N, int>, pq: seq<Entry<N>>, k: nat)
    requires k < |pq| && pq[k].1 in visited
    requires PushedFrom(g, visited, dist, pq)
    ensures PushedFrom(g, visited, dist, pq[..k] + pq[k + 1..])
  {
    forall u, e | u in visited && e in Edges(g, u) && e.0 !in visited
      ensures exists x: Entry<N> :: x in pq[..k] + pq[k + 1..] && x.1 == e.0 && x.0 <= dist[u] + e.1
    {
      var x :| x in pq && x.1 == e.0 && x.0 <= dist[u] + e.1;
      KeptEntry(pq, k, x);
    }
  }

  /** Visiting the popped node records its distance, and its pushed
      entries cover its edges to unvisited nodes. */
  lemma VisitPushedFrom<N(!new)>(g: WGraph<N>, visited: set<N>, dist: map<N, int>, pq: seq<Entry<N>>, k: nat)
    requires k < |pq| && pq[k].1 !in visited
    requires PushedFrom(g, visited, dist, pq)
    ensures var (d, node, path) := pq[k];
      var visited2 := visited + {node};
      PushedFrom(g, visited2, dist[node := d],
                 pq[..k] + pq[k + 1..] + Pushed(Edges(g, node), visited2, d, path + [node]))
  {
    var (d, node, path) := pq[k];
    var visited2 := visited + {node};
    var dist2 := dist[node := d];
    var rest := pq[..k] + pq[k + 1..];
    var added := Pushed(Edges(g, node), visited2, d, path + [node]);
    forall u, e | u in visited2 && e in Edges(g, u) && e.0 !in visited2
      ensures exists x: Entry<N> :: x in rest + added && x.1 == e.0 && x.0 <= dist2[u] + e.1
    {
      if u == node {
        var x := (d + e.1, e.0, path + [node]);
        PushedIff(Edges(g, node), visited2, d, path + [node], x);
        assert x in rest + added;
      } else {
        var x :| x in pq && x.1 == e.0 && x.0 <= dist[u] + e.1;
        KeptEntry(pq, k, x);
        assert x in rest + added;
      }
    }
  }

  /** `dijkstra(graph, start, end)`: a path from `start` to `end` with the
      distance its weights add up to, found exactly when `end` is
      reachable from `start`; when no edge weight is negative, no path
      from `start` to `end` is lighter. */
  method Dijkstra<N(==,!new)>(g: WGraph<N>, start: N, end: N) returns (r: Option<(int, seq<N>)>)
    ensures r.Some? <==> GraphSearch.Reachable(Plain(g), start, end)
    ensures r.Some? ==> Found(g, start, end, r.value.0, r.value.1)
    ensures r.Some? && NonNegative(g) ==> forall w, p :: Found(g, start, end, w, p) ==> r.value.0 <= w
  {
    ghost var universe := Universe(g, start);
    var pq: seq<Entry<N>> := [(0, start, [])];
    var visited: set<N> := {};
    ghost var dist: map<N, int> := map[];
    assert WeightedPath(g, [] + [start], 0);
    while pq != []
      invariant DijkstraInv(g, start, end, universe, visited, pq)
      invariant PushedFrom(g, visited, dist, pq)
      invariant NonNegative(g) ==> Settled(g, start, dist)
      decreases |universe - visited|, |pq|
    {
      var found;
      found, visited, pq, dist := DijkstraStep(g, start, end, universe, visited, pq, dist);
      if found.Some? {
        return found;
      }
    }
    DijkstraDone(g, start, end, universe, visited);
    return None;
  }

  /** One iteration of `dijkstra`: pop an entry of least distance; skip it
      if its node is visited, return its path if the node is the end, and
      otherwise visit the node and push its unvisited neighbours. */
  method DijkstraStep<N(==,!new)>(g: WGraph<N>, ghost start: N, end: N, ghost universe: set<N>,
                                  visited: set<N>, pq: seq<Entry<N>>, ghost dist: map<N, int>)
    returns (found: Option<(int, seq<N>)>, visited2: set<N>, pq2: seq<Entry<N>>, ghost dist2: map<N, int>)
    requires universe == Universe(g, start)
    requires DijkstraInv(g, start, end, universe, visited, pq) && pq != []
    requires PushedFrom(g, visited, dist, pq)
    requires NonNegative(g) ==> Settled(g, start, dist)
    ensures found.Some? ==> GraphSearch.Reachable(Plain(g), start, end)
    ensures found.Some? ==> Found(g, start, end, found.value.0, found.value.1)
    ensures found.Some? && NonNegative(g) ==> forall w, p :: Found(g, start, end, w, p) ==> found.value.0 <= w
    ensures found.None? ==> DijkstraInv(g, start, end, universe, visited2, pq2)
    ensures found.None? ==> PushedFrom(g, visited2, dist2, pq2)
    ensures found.None? && NonNegative(g) ==> Settled(g, start, dist2)
    ensures found.None? ==>
      (|universe - visited2| < |universe - visited| || (visited2 == visited && |pq2| < |pq|))
  {
    var k := MinIndex(pq);
    var (d, node, path) := pq[k];
    if node in visited {
      DijkstraSkip(g, start, end, universe, visited, pq, k);
      SkipPushedFrom(g, visited, dist, pq, k);
      return None, visited, pq[..k] + pq[k + 1..], dist;
    }
    assert pq[k] in pq;
    if NonNegative(g) {
      PoppedIsShortest(g, start, end, universe, visited, pq, dist, k);
    }
    if node == end {
      FoundEnd(g, start, end, universe, pq, k);
      return Some((d, path + [node])), visited, pq, dist;
    }
    DijkstraVisit(g, start, end, universe, visited, pq, k);
    VisitPushedFrom(g, visited, dist, pq, k);
    if NonNegative(g) {
      SettleNode(g, start, dist, node, d);
    }
    visited2 := visited + {node};
    dist2 := dist[node := d];
    pq2 := PushNeighbours(Edges(g, node), visited2, d, path + [node], pq[..k] + pq[k + 1..]);
    found := None;
  }

  // ---- the graph of tests/test_tools.py ----------------------------------------

  /** `pot` never drops along an edge by more than the edge's weight. */
  ghost predicate Feasible<N(!new)>(g: WGraph<N>, pot: N -> int) {
    forall u, e :: e in Edges(g, u) ==> pot(e.0) <= pot(u) + e.1
  }

  /** Along a weighted path, a feasible potential grows by at most the
      path's weight: a lower bound on every path's weight. */
  lemma {:induction false} PotentialBound<N(!new)>(g: WGraph<N>, pot: N -> int, p: seq<N>, w: int)
    requires Feasible(g, pot) && WeightedPath(g, p, w)
    ensures pot(p[|p| - 1]) - pot(p[0]) <= w
    decreases |p|
  {
    if |p| > 1 {
      var e := LastEdge(g, p, w);
      var q := p[..|p| - 1];
      PotentialBound(g, pot, q, w - e.1);
      assert q[0] == p[0] && q[|q| - 1] == p[|p| - 2];
    }
  }

  const TestGraph: WGraph<string> := map[
    "A" := [("B", 1), ("C", 4)],
    "B" := [("A", 1), ("C", 2), ("D", 5)],
    "C" := [("A", 4), ("B", 2), ("D", 1)],
    "D" := [("B", 5), ("C", 1)]]

  /** The shortest distance from A to each node of the test graph. */
  function TestDistance(n: string): int {
    if |n| != 1 then 0
    else if n[0] == 'B' then 1 else if n[0] == 'C' then 3 else if n[0] == 'D' then 4 else 0
  }

  /** Every edge weight of the test graph is positive. */
  lemma TestGraphNonNegative()
    ensures NonNegative(TestGraph)
  {
    forall u, e | e in Edges(TestGraph, u) ensures e.1 >= 0 {
      TestEdge(u, e);
    }
  }

  /** The distances from A are a feasible potential of the test graph. */
  lemma TestGraphFeasible()
    ensures Feasible(TestGraph, TestDistance)
  {
    forall u, e | e in Edges(TestGraph, u) ensures TestDistance(e.0) <= TestDistance(u) + e.1 {
      TestEdge(u, e);
    }
  }

  /** The edges of the test graph, one by one. */
  lemma TestEdge(u: string, e: (string, int))
    requires e in Edges(TestGraph, u)
    ensures u == "A" ==> e == ("B", 1) || e == ("C", 4)
    ensures u == "B" ==> e == ("A", 1) || e == ("C", 2) || e == ("D", 5)
    ensures u == "C" ==> e == ("A", 4) || e == ("B", 2) || e == ("D", 1)
    ensures u == "D" ==> e == ("B", 5) || e == ("C", 1)
    ensures u == "A" || u == "B" || u == "C" || u == "D"
  {
  }

  /** `dijkstra(graph, "A", "D")` on the graph of tests/test_tools.py finds
      a path of distance 4. */
  method DijkstraTest() returns (r: Option<(int, seq<string>)>)
    ensures r.Some? && r.value.0 == 4 && Found(TestGraph, "A", "D", r.value.0, r.value.1)
  {
    TestPath();
    TestGraphNonNegative();
    r := Dijkstra(TestGraph, "A", "D");
    TestLowerBound(r.value.1, r.value.0);
  }

  /** Every path from A to D in the test graph weighs at least 4. */
  lemma TestLowerBound(p: seq<string>, d: int)
    requires Found(TestGraph, "A", "D", d, p)
    ensures d >= 4
  {
    TestGraphFeasible();
    PotentialBound(TestGraph, TestDistance, p, d);
    assert TestDistance(p[|p| - 1]) == 4 && TestDistance(p[0]) == 0;
  }

  /** A, B, C, D is a path of weight 4 in the test graph. */
  lemma TestPath()
    ensures Found(TestGraph, "A", "D", 4, ["A", "B", "C", "D"])
    ensures GraphSearch.Reachable(Plain(TestGraph), "A", "D")
  {
    var g := TestGraph;
    var p := ["A", "B", "C", "D"];
    assert WeightedPath(g, ["A"], 0);
    assert ["A"] + ["B"] == p[..2];
    WeightedPathSnoc(g, ["A"], 0, ("B", 1));
    assert p[..2] + ["C"] == p[..3];
    WeightedPathSnoc(g, p[..2], 1, ("C", 2));
    assert p[..3] + ["D"] == p;
    WeightedPathSnoc(g, p[..3], 3, ("D", 1));
    WeightedPathIsPath(g, p, 4);
    assert GraphSearch.IsPath(Plain(g), p) && p[0] == "A" && p[|p| - 1] == "D";
  }
}
