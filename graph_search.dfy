/** `bfs` and `dfs` of src/aoc/tools.py over an adjacency map.  The
    generators are modelled as methods returning the full order in which
    they yield nodes. */
module GraphSearch {

  type Graph<N(==)> = map<N, seq<N>>

  /** `graph.get(node, [])`. */
  function Succ<N(==)>(g: Graph<N>, n: N): seq<N> {
    if n in g then g[n] else []
  }

  /** A walk along edges, of at least one node. */
  predicate IsPath<N(==)>(g: Graph<N>, p: seq<N>) {
    |p| >= 1 && forall k :: 0 < k < |p| ==> p[k] in Succ(g, p[k - 1])
  }

  ghost predicate Reachable<N(!new)>(g: Graph<N>, s: N, t: N) {
    exists p :: IsPath(g, p) && p[0] == s && p[|p| - 1] == t
  }

  /** The neighbours of a set of nodes. */
  ghost function Next<N>(g: Graph<N>, b: set<N>): set<N> {
    set u, v | u in b && v in Succ(g, u) :: v
  }

  /** The nodes at most k edges away from s. */
  ghost function Ball<N>(g: Graph<N>, s: N, k: nat): set<N>
    decreases k
  {
    if k == 0 then {s} else Ball(g, s, k - 1) + Next(g, Ball(g, s, k - 1))
  }

  lemma ReachableInBall<N(!new)>(g: Graph<N>, s: N, t: N)
    requires Reachable(g, s, t)
    ensures exists k: nat :: t in Ball(g, s, k)
  {
    var p :| IsPath(g, p) && p[0] == s && p[|p| - 1] == t;
    var k := 0;
    while k < |p| - 1
      invariant 0 <= k < |p| && p[k] in Ball(g, s, k)
    {
      assert p[k + 1] in Succ(g, p[k]);
      assert p[k + 1] in Next(g, Ball(g, s, k));
      k := k + 1;
    }
  }

  /** The least radius below b whose ball still holds t. */
  ghost function Least<N>(g: Graph<N>, s: N, t: N, b: nat): (d: nat)
    requires t in Ball(g, s, b)
    ensures d <= b && t in Ball(g, s, d)
    ensures forall k: nat :: k < d ==> t !in Ball(g, s, k)
    decreases b
  {
    if b == 0 then 0
    else if t in Ball(g, s, b - 1) then Least(g, s, t, b - 1)
    else OutsideSmallerBalls(g, s, t, b - 1); b
  }

  lemma {:induction false} OutsideSmallerBalls<N>(g: Graph<N>, s: N, t: N, b: nat)
    requires t !in Ball(g, s, b)
    ensures forall k: nat :: k <= b ==> t !in Ball(g, s, k)
    decreases b
  {
    if b > 0 {
      OutsideSmallerBalls(g, s, t, b - 1);
    }
  }

  /** The number of edges on a shortest path from s to t. */
  ghost function Dist<N(!new)>(g: Graph<N>, s: N, t: N): (d: nat)
    requires Reachable(g, s, t)
    ensures t in Ball(g, s, d)
    ensures forall k: nat :: k < d ==> t !in Ball(g, s, k)
  {
    ReachableInBall(g, s, t);
    var b: nat :| t in Ball(g, s, b);
    Least(g, s, t, b)
  }

  predicate NoDup<N(==)>(s: seq<N>) {
    forall i, j :: 0 <= i < j < |s| ==> s[i] != s[j]
  }

  /** Every node the search can meet: the start, the keys, and every listed
      neighbour. */
  ghost function Universe<N>(g: Graph<N>, start: N): set<N> {
    g.Keys + (set u, v | u in g && v in g[u] :: v) + {start}
  }

  lemma SuccInUniverse<N>(g: Graph<N>, start: N, u: N, v: N)
    requires v in Succ(g, u)
    ensures v in Universe(g, start)
  {
  }

  lemma ReachableStart<N(!new)>(g: Graph<N>, s: N)
    ensures Reachable(g, s, s)
  {
    assert IsPath(g, [s]);
  }

  lemma ReachableStep<N(!new)>(g: Graph<N>, s: N, u: N, v: N)
    requires Reachable(g, s, u) && v in Succ(g, u)
    ensures Reachable(g, s, v)
  {
    var p :| IsPath(g, p) && p[0] == s && p[|p| - 1] == u;
    assert IsPath(g, p + [v]);
  }

  /** A set that holds the start and every neighbour of its members holds
      every node reachable from the start. */
  lemma ClosedHoldsReachable<N(!new)>(g: Graph<N>, s: N, closed: set<N>, t: N)
    requires s in closed
    requires forall u, v :: u in closed && v in Succ(g, u) ==> v in closed
    requires Reachable(g, s, t)
    ensures t in closed
  {
    var p :| IsPath(g, p) && p[0] == s && p[|p| - 1] == t;
    var k := 0;
    while k < |p| - 1
      invariant 0 <= k < |p| && p[k] in closed
    {
      assert p[k + 1] in Succ(g, p[k]);
      k := k + 1;
    }
  }

  /** A proper subset is smaller. */
  lemma {:induction false} SubsetCard<T>(a: set<T>, b: set<T>)
    requires a <= b
    ensures |a| <= |b|
    ensures a < b ==> |a| < |b|
    decreases |a|
  {
    if a != {} {
      var x :| x in a;
      SubsetCard(a - {x}, b - {x});
      if a < b {
        var y :| y in b && y !in a;
        assert y in b - {x} && y !in a - {x};
        assert a - {x} < b - {x};
      }
    } else if a < b {
      var x :| x in b;
      assert |b| >= 1;
    }
  }

  lemma NoDupAppend<N>(a: seq<N>, b: seq<N>)
    requires NoDup(a) && NoDup(b)
    requires forall v :: v in b ==> v !in a
    ensures NoDup(a + b)
  {
    forall i, j | 0 <= i < j < |a + b| ensures (a + b)[i] != (a + b)[j] {
      if i < |a| && j >= |a| {
        assert (a + b)[i] == a[i] && a[i] in a;
        assert (a + b)[j] == b[j - |a|] && b[j - |a|] in b;
      } else if i >= |a| {
        assert (a + b)[i] == b[i - |a|] && (a + b)[j] == b[j - |a|];
      }
    }
  }

  /** The inner loop of `bfs`: mark and enqueue, in order, each neighbour
      not yet visited. */
  method EnqueueUnvisited<N(==)>(succ: seq<N>, visited: set<N>, queue: seq<N>)
    returns (visited2: set<N>, queue2: seq<N>)
    ensures visited2 == visited + set v | v in succ
    ensures |queue2| >= |queue| && queue2[..|queue|] == queue
    ensures forall v :: v in queue2[|queue|..] <==> v in succ && v !in visited
    ensures NoDup(queue2[|queue|..])
  {
    visited2, queue2 := visited, queue;
    for k := 0 to |succ|
      invariant visited2 == visited + set v | v in succ[..k]
      invariant |queue2| >= |queue| && queue2[..|queue|] == queue
      invariant forall v :: v in queue2[|queue|..] <==> v in succ[..k] && v !in visited
      invariant NoDup(queue2[|queue|..])
    {
      assert succ[..k + 1] == succ[..k] + [succ[k]];
      if succ[k] !in visited2 {
        assert queue2[|queue|..] + [succ[k]] == (queue2 + [succ[k]])[|queue|..];
        NoDupAppend(queue2[|queue|..], [succ[k]]);
        visited2 := visited2 + {succ[k]};
        queue2 := queue2 + [succ[k]];
      }
    }
    assert succ[..|succ|] == succ;
  }

  /** What `bfs` keeps true between iterations: every visited node is
      yielded or queued, once; all of them are reachable; the neighbours of
      every yielded node are visited. */
  ghost predicate BfsInv<N(!new)>(g: Graph<N>, start: N, universe: set<N>,
                                  visited: set<N>, order: seq<N>, queue: seq<N>)
  {
    (forall v :: v in visited <==> v in order + queue)
    && NoDup(order + queue)
    && visited <= universe
    && (forall v :: v in visited ==> Reachable(g, start, v))
    && (forall u, v :: u in order && v in Succ(g, u) ==> v in visited)
    && (order == [] ==> queue == [start])
    && (order != [] ==> order[0] == start)
  }

  /** One iteration of `bfs` keeps the invariant, and either visits a new
      node or shortens the queue. */
  lemma BfsStep<N(!new)>(g: Graph<N>, start: N, universe: set<N>, visited: set<N>, order: seq<N>,
                         queue: seq<N>, visited2: set<N>, queue2: seq<N>)
    requires universe == Universe(g, start)
    requires BfsInv(g, start, universe, visited, order, queue) && queue != []
    requires visited2 == visited + set v | v in Succ(g, queue[0])
    requires |queue2| >= |queue| - 1 && queue2[..|queue| - 1] == queue[1..]
    requires forall v :: v in queue2[|queue| - 1..] <==> v in Succ(g, queue[0]) && v !in visited
    requires NoDup(queue2[|queue| - 1..])
    requires Levelled(g, start, order, queue)
    ensures BfsInv(g, start, universe, visited2, order + [queue[0]], queue2)
    ensures Levelled(g, start, order + [queue[0]], queue2)
    ensures visited <= visited2
    ensures |universe - visited2| < |universe - visited| || (visited2 == visited && |queue2| < |queue|)
  {
    var node := queue[0];
    var added := queue2[|queue| - 1..];
    assert queue2 == queue[1..] + added;
    assert node in visited;
    BfsMembers(visited, order, queue, Succ(g, node), visited2, added);
    BfsReach(g, start, universe, visited, node, visited2);
    BfsClosed(g, visited, order, node, visited2);
    BfsMeasure(universe, visited, visited2, queue[1..], added);
    assert start in visited;
    BfsLevelStep(g, start, order, queue, added);
  }

  /** Newly visited nodes are neighbours of a reachable node. */
  lemma BfsReach<N(!new)>(g: Graph<N>, start: N, universe: set<N>, visited: set<N>, node: N, visited2: set<N>)
    requires universe == Universe(g, start)
    requires visited <= universe && forall v :: v in visited ==> Reachable(g, start, v)
    requires node in visited
    requires visited2 == visited + set v | v in Succ(g, node)
    ensures visited2 <= universe && forall v :: v in visited2 ==> Reachable(g, start, v)
  {
    forall v | v in Succ(g, node) ensures v in universe && Reachable(g, start, v) {
      SuccInUniverse(g, start, node, v);
      ReachableStep(g, start, node, v);
    }
  }

  /** After the iteration the yielded node's neighbours are visited too. */
  lemma BfsClosed<N>(g: Graph<N>, visited: set<N>, order: seq<N>, node: N, visited2: set<N>)
    requires forall u, v :: u in order && v in Succ(g, u) ==> v in visited
    requires visited2 == visited + set v | v in Succ(g, node)
    ensures forall u, v :: u in order + [node] && v in Succ(g, u) ==> v in visited2
  {
  }

  /** Either a node was newly visited, or nothing was queued. */
  lemma BfsMeasure<N>(universe: set<N>, visited: set<N>, visited2: set<N>, rest: seq<N>, added: seq<N>)
    requires visited <= visited2 <= universe
    requires forall v :: v in added <==> v in visited2 && v !in visited
    ensures |universe - visited2| < |universe - visited| || (visited2 == visited && |rest + added| == |rest|)
  {
    if added != [] {
      var w := added[0];
      assert w in universe - visited && w !in universe - visited2;
      SubsetCard(universe - visited2, universe - visited);
    }
  }

  /** The yielded-or-queued bookkeeping of one `bfs` iteration. */
  lemma BfsMembers<N>(visited: set<N>, order: seq<N>, queue: seq<N>, succ: seq<N>,
                      visited2: set<N>, added: seq<N>)
    requires forall v :: v in visited <==> v in order + queue
    requires NoDup(order + queue) && queue != []
    requires visited2 == visited + set v | v in succ
    requires forall v :: v in added <==> v in succ && v !in visited
    requires NoDup(added)
    ensures forall v :: v in visited2 <==> v in (order + [queue[0]]) + (queue[1..] + added)
    ensures NoDup((order + [queue[0]]) + (queue[1..] + added))
  {
    var s := (order + [queue[0]]) + (queue[1..] + added);
    assert s == (order + queue) + added;
    NoDupAppend(order + queue, added);
  }

  /** The level structure `bfs` keeps over the yielded-then-queued nodes:
      their distances from the start never decrease, the queue spans at most
      two neighbouring levels, and every node nearer than the queue's head
      has already been yielded. */
  ghost predicate Levelled<N(!new)>(g: Graph<N>, start: N, order: seq<N>, queue: seq<N>)
    requires forall v :: v in order + queue ==> Reachable(g, start, v)
  {
    (forall i, j :: 0 <= i < j < |order + queue| ==>
       Dist(g, start, (order + queue)[i]) <= Dist(g, start, (order + queue)[j]))
    && (forall i :: 0 <= i < |queue| ==> Dist(g, start, queue[i]) <= Dist(g, start, queue[0]) + 1)
    && (queue != [] ==>
          forall k: nat, w :: k < Dist(g, start, queue[0]) && w in Ball(g, start, k) ==> w in order)
  }

  /** What one `bfs` iteration may rely on for the level argument. */
  ghost predicate LevelCtx<N(!new)>(g: Graph<N>, start: N, order: seq<N>, queue: seq<N>) {
    (forall v :: v in order + queue ==> Reachable(g, start, v))
    && start in order + queue && queue != []
    && (forall u, v :: u in order && v in Succ(g, u) ==> v in order + queue)
    && Levelled(g, start, order, queue)
  }

  /** A node no farther than the queue's head has been yielded or queued. */
  lemma NearIsSeen<N(!new)>(g: Graph<N>, start: N, order: seq<N>, queue: seq<N>, k: nat, w: N)
    requires LevelCtx(g, start, order, queue)
    requires k <= Dist(g, start, queue[0]) && w in Ball(g, start, k)
    ensures w in order + queue
  {
    assert queue[0] in order + queue;
    if k < Dist(g, start, queue[0]) {
    } else if k == 0 {
    } else if w !in Ball(g, start, k - 1) {
      assert w in Next(g, Ball(g, start, k - 1));
      var x :| x in Ball(g, start, k - 1) && w in Succ(g, x);
      assert x in order;
    }
  }

  /** A neighbour of the head seen for the first time is one level below it. */
  lemma DiscoveredLevel<N(!new)>(g: Graph<N>, start: N, order: seq<N>, queue: seq<N>, v: N)
    requires LevelCtx(g, start, order, queue)
    requires v in Succ(g, queue[0]) && v !in order + queue
    ensures Reachable(g, start, v) && Dist(g, start, v) == Dist(g, start, queue[0]) + 1
  {
    var node := queue[0];
    assert node in order + queue;
    var d := Dist(g, start, node);
    ReachableStep(g, start, node, v);
    assert v in Next(g, Ball(g, start, d));
    assert v in Ball(g, start, d + 1);
    var e := Dist(g, start, v);
    if e <= d {
      NearIsSeen(g, start, order, queue, e, v);
    }
  }

  /** One `bfs` iteration keeps the level structure. */
  lemma BfsLevelStep<N(!new)>(g: Graph<N>, start: N, order: seq<N>, queue: seq<N>, added: seq<N>)
    requires LevelCtx(g, start, order, queue)
    requires forall v :: v in added <==> v in Succ(g, queue[0]) && v !in order + queue
    ensures forall v :: v in (order + [queue[0]]) + (queue[1..] + added) ==> Reachable(g, start, v)
    ensures Levelled(g, start, order + [queue[0]], queue[1..] + added)
  {
    var node := queue[0];
    assert node in order + queue;
    var d := Dist(g, start, node);
    AddedLevels(g, start, order, queue, added);
    LevelBound(g, start, order, queue, d);
    LevelMonotone(g, start, order + queue, added, d + 1);
    LevelTail(g, start, order, queue, added, d);
    ShiftHead(order, queue, added);
    LevelledIntro(g, start, order + [node], queue[1..] + added, (order + queue) + added);
  }

  /** Moving the queue's head to the yielded nodes keeps their sequence. */
  lemma ShiftHead<N>(order: seq<N>, queue: seq<N>, added: seq<N>)
    requires queue != []
    ensures (order + [queue[0]]) + (queue[1..] + added) == (order + queue) + added
  {
    assert queue == [queue[0]] + queue[1..];
  }

  /** Every node the iteration discovers is one level below the head. */
  lemma AddedLevels<N(!new)>(g: Graph<N>, start: N, order: seq<N>, queue: seq<N>, added: seq<N>)
    requires LevelCtx(g, start, order, queue)
    requires forall v :: v in added ==> v in Succ(g, queue[0]) && v !in order + queue
    ensures forall v :: v in added ==> Reachable(g, start, v) && Dist(g, start, v) == Dist(g, start, queue[0]) + 1
  {
    forall v | v in added ensures Reachable(g, start, v) && Dist(g, start, v) == Dist(g, start, queue[0]) + 1 {
      DiscoveredLevel(g, start, order, queue, v);
    }
  }

  /** The queue part of the level structure after one iteration. */
  lemma LevelTail<N(!new)>(g: Graph<N>, start: N, order: seq<N>, queue: seq<N>, added: seq<N>, d: nat)
    requires LevelCtx(g, start, order, queue)
    requires d == Dist(g, start, queue[0])
    requires forall v :: v in added ==> Reachable(g, start, v) && Dist(g, start, v) == d + 1
    ensures forall v :: v in queue[1..] + added ==> Reachable(g, start, v)
    ensures queue[1..] + added != [] ==>
      (forall i :: 0 <= i < |queue[1..] + added| ==>
         Dist(g, start, (queue[1..] + added)[i]) <= Dist(g, start, (queue[1..] + added)[0]) + 1)
      && (forall k: nat, w :: k < Dist(g, start, (queue[1..] + added)[0]) && w in Ball(g, start, k) ==>
            w in order + [queue[0]])
  {
    var q := queue[1..] + added;
    forall v | v in q ensures Reachable(g, start, v) {
      if v in queue[1..] {
        assert v in order + queue;
      }
    }
    if q != [] {
      LevelSpan(g, start, order, queue, added, d);
      var e := Dist(g, start, q[0]);
      if |queue| > 1 {
        assert q[0] == queue[1];
      }
      forall k: nat, w | k < e && w in Ball(g, start, k) ensures w in order + [queue[0]] {
        LevelNear(g, start, order, queue, d, e, k, w);
      }
    }
  }

  /** The three parts of the level structure make it up; `all` is the
      yielded nodes followed by the queued ones. */
  lemma LevelledIntro<N(!new)>(g: Graph<N>, start: N, order: seq<N>, queue: seq<N>, all: seq<N>)
    requires all == order + queue
    requires forall v :: v in all ==> Reachable(g, start, v)
    requires forall i, j :: 0 <= i < j < |all| ==> Dist(g, start, all[i]) <= Dist(g, start, all[j])
    requires forall v :: v in queue ==> Reachable(g, start, v)
    requires queue != [] ==>
      (forall i :: 0 <= i < |queue| ==> Dist(g, start, queue[i]) <= Dist(g, start, queue[0]) + 1)
      && (forall k: nat, w :: k < Dist(g, start, queue[0]) && w in Ball(g, start, k) ==> w in order)
    ensures forall v :: v in order + queue ==> Reachable(g, start, v)
    ensures Levelled(g, start, order, queue)
  {
  }

  /** No yielded or queued node is more than one level below the head. */
  lemma LevelBound<N(!new)>(g: Graph<N>, start: N, order: seq<N>, queue: seq<N>, d: nat)
    requires LevelCtx(g, start, order, queue)
    requires d == Dist(g, start, queue[0])
    ensures forall i :: 0 <= i < |order + queue| ==> Dist(g, start, (order + queue)[i]) <= d + 1
  {
    var oq := order + queue;
    assert oq[|order|] == queue[0];
    forall i | 0 <= i < |oq| ensures Dist(g, start, oq[i]) <= d + 1 {
      if i < |order| {
        assert Dist(g, start, oq[i]) <= Dist(g, start, oq[|order|]);
      } else {
        assert oq[i] == queue[i - |order|];
      }
    }
  }

  /** Appending nodes of one level past every earlier one keeps the
      distances sorted. */
  lemma LevelMonotone<N(!new)>(g: Graph<N>, start: N, oq: seq<N>, added: seq<N>, d: nat)
    requires forall v :: v in oq ==> Reachable(g, start, v)
    requires forall i, j :: 0 <= i < j < |oq| ==> Dist(g, start, oq[i]) <= Dist(g, start, oq[j])
    requires forall i :: 0 <= i < |oq| ==> Dist(g, start, oq[i]) <= d
    requires forall v :: v in added ==> Reachable(g, start, v) && Dist(g, start, v) == d
    ensures forall i, j :: 0 <= i < j < |oq + added| ==>
              Dist(g, start, (oq + added)[i]) <= Dist(g, start, (oq + added)[j])
  {
    var s := oq + added;
    forall i, j | 0 <= i < j < |s| ensures Dist(g, start, s[i]) <= Dist(g, start, s[j]) {
      if j < |oq| {
        assert s[i] == oq[i] && s[j] == oq[j];
      } else {
        assert s[j] == added[j - |oq|] && s[j] in added;
        if i < |oq| {
          assert s[i] == oq[i];
        } else {
          assert s[i] == added[i - |oq|] && s[i] in added;
        }
      }
    }
  }

  /** The new queue still spans at most two neighbouring levels, and its head
      is at the old head's level or one below. */
  lemma LevelSpan<N(!new)>(g: Graph<N>, start: N, order: seq<N>, queue: seq<N>, added: seq<N>, d: nat)
    requires LevelCtx(g, start, order, queue)
    requires d == Dist(g, start, queue[0])
    requires forall v :: v in added ==> Reachable(g, start, v) && Dist(g, start, v) == d + 1
    requires queue[1..] + added != []
    ensures forall v :: v in queue[1..] + added ==> Reachable(g, start, v)
    ensures d <= Dist(g, start, (queue[1..] + added)[0]) <= d + 1
    ensures forall i :: 0 <= i < |queue[1..] + added| ==>
              Dist(g, start, (queue[1..] + added)[i]) <= Dist(g, start, (queue[1..] + added)[0]) + 1
  {
    var q := queue[1..] + added;
    var oq := order + queue;
    assert oq[|order|] == queue[0];
    forall v | v in q ensures Reachable(g, start, v) {
      if v in queue[1..] {
        assert v in oq;
      }
    }
    if |queue| > 1 {
      assert q[0] == queue[1] == oq[|order| + 1];
    } else {
      assert q[0] == added[0] && q[0] in added;
    }
    forall i | 0 <= i < |q| ensures Dist(g, start, q[i]) <= d + 1 {
      if i < |queue| - 1 {
        assert q[i] == queue[i + 1];
      } else {
        assert q[i] == added[i - (|queue| - 1)] && q[i] in added;
      }
    }
  }

  /** After the iteration, every node nearer than the new head is yielded;
      `e` is the new head's level. */
  lemma LevelNear<N(!new)>(g: Graph<N>, start: N, order: seq<N>, queue: seq<N>, d: nat, e: nat,
                           k: nat, w: N)
    requires LevelCtx(g, start, order, queue)
    requires d == Dist(g, start, queue[0]) && d <= e <= d + 1
    requires |queue| > 1 ==> e == Dist(g, start, queue[1])
    requires k < e && w in Ball(g, start, k)
    ensures w in order + [queue[0]]
  {
    if k == d {
      NearIsSeen(g, start, order, queue, k, w);
      var oq := order + queue;
      forall m | 1 <= m < |queue| ensures queue[m] != w {
        assert oq[|order| + 1] == queue[1];
        assert oq[|order| + m] == queue[m];
        assert Dist(g, start, oq[|order| + 1]) <= Dist(g, start, oq[|order| + m]);
      }
      YieldedOrHead(order, queue, w);
    }
  }

  /** A node of `order + queue` that is not behind the head is yielded or the head. */
  lemma YieldedOrHead<N>(order: seq<N>, queue: seq<N>, w: N)
    requires queue != [] && w in order + queue
    requires forall m :: 1 <= m < |queue| ==> queue[m] != w
    ensures w in order + [queue[0]]
  {
    if w !in order {
      assert w in queue;
      var m :| 0 <= m < |queue| && queue[m] == w;
      assert m == 0;
    }
  }

  /** `list(bfs(graph, start))`: the start first, then every node reachable
      from it exactly once, in order of distance from the start. */
  method Bfs<N(==,!new)>(g: Graph<N>, start: N) returns (order: seq<N>)
    ensures |order| >= 1 && order[0] == start
    ensures NoDup(order)
    ensures forall v :: v in order <==> Reachable(g, start, v)
    ensures forall i, j :: 0 <= i < j < |order| ==> Dist(g, start, order[i]) <= Dist(g, start, order[j])
  {
    ghost var universe := Universe(g, start);
    var visited := {start};
    var queue := [start];
    order := [];
    ReachableStart(g, start);
    StartLevelled(g, start);
    while queue != []
      invariant BfsInv(g, start, universe, visited, order, queue)
      invariant Levelled(g, start, order, queue)
      decreases |universe - visited|, |queue|
    {
      var node := queue[0];
      var visited2, queue2 := EnqueueUnvisited(Succ(g, node), visited, queue[1..]);
      BfsStep(g, start, universe, visited, order, queue, visited2, queue2);
      order := order + [node];
      visited, queue := visited2, queue2;
    }
    assert order + queue == order;
    BfsDone(g, start, universe, visited, order);
  }

  /** Before the first iteration only the start, at distance 0, is queued. */
  lemma StartLevelled<N(!new)>(g: Graph<N>, start: N)
    requires Reachable(g, start, start)
    ensures Levelled(g, start, [], [start])
  {
    assert [] + [start] == [start];
    assert start in Ball(g, start, 0);
  }

  /** With the queue empty, the visited nodes are the yielded ones and are
      closed under neighbours, so they are all the reachable ones. */
  lemma BfsDone<N(!new)>(g: Graph<N>, start: N, universe: set<N>, visited: set<N>, order: seq<N>)
    requires BfsInv(g, start, universe, visited, order, [])
    ensures |order| >= 1 && order[0] == start
    ensures forall v :: v in order <==> Reachable(g, start, v)
  {
    assert order + [] == order;
    assert start in visited;
    forall v | Reachable(g, start, v) ensures v in order {
      ClosedHoldsReachable(g, start, visited, v);
    }
  }

  /** The inner loop of `dfs`: push, last neighbour first, each neighbour
      not yet visited. */
  method PushUnvisited<N(==)>(succ: seq<N>, visited: set<N>, stack: seq<N>) returns (stack2: seq<N>)
    ensures |stack2| >= |stack| && stack2 == stack + stack2[|stack|..]
    ensures forall v :: v in stack2[|stack|..] <==> v in succ && v !in visited
  {
    stack2 := stack;
    var k := |succ|;
    while k > 0
      invariant 0 <= k <= |succ|
      invariant |stack2| >= |stack| && stack2[..|stack|] == stack
      invariant forall v :: v in stack2[|stack|..] <==> v in succ[k..] && v !in visited
    {
      k := k - 1;
      assert succ[k..] == [succ[k]] + succ[k + 1..];
      if succ[k] !in visited {
        assert (stack2 + [succ[k]])[|stack|..] == stack2[|stack|..] + [succ[k]];
        stack2 := stack2 + [succ[k]];
      }
    }
    assert stack2 == stack2[..|stack|] + stack2[|stack|..];
  }

  /** What `dfs` keeps true between iterations: the visited nodes are the
      yielded ones, each once; visited and stacked nodes are reachable; each
      neighbour of a visited node is visited or still on the stack. */
  ghost predicate DfsInv<N(!new)>(g: Graph<N>, start: N, universe: set<N>,
                                  visited: set<N>, order: seq<N>, stack: seq<N>)
  {
    (forall v :: v in visited <==> v in order)
    && NoDup(order)
    && visited <= universe
    && (forall v :: v in stack ==> v in universe && Reachable(g, start, v))
    && (forall v :: v in visited ==> Reachable(g, start, v))
    && (forall u, v :: u in visited && v in Succ(g, u) ==> v in visited || v in stack)
    && (order == [] ==> stack == [start])
    && (order != [] ==> order[0] == start)
  }

  /** Popping a node already visited keeps the invariant. */
  lemma DfsSkip<N(!new)>(g: Graph<N>, start: N, universe: set<N>, visited: set<N>, order: seq<N>, stack: seq<N>)
    requires DfsInv(g, start, universe, visited, order, stack) && stack != []
    requires stack[|stack| - 1] in visited
    ensures DfsInv(g, start, universe, visited, order, stack[..|stack| - 1])
  {
    var rest := stack[..|stack| - 1];
    assert stack == rest + [stack[|stack| - 1]];
  }

  /** Popping a new node: it is yielded, and its unvisited neighbours are
      pushed; the invariant holds again and one more node is visited. */
  lemma DfsVisit<N(!new)>(g: Graph<N>, start: N, universe: set<N>, visited: set<N>, order: seq<N>,
                          rest: seq<N>, node: N, added: seq<N>)
    requires universe == Universe(g, start)
    requires DfsInv(g, start, universe, visited, order, rest + [node])
    requires node !in visited
    requires forall v :: v in added <==> v in Succ(g, node) && v !in visited + {node}
    ensures DfsInv(g, start, universe, visited + {node}, order + [node], rest + added)
    ensures |universe - (visited + {node})| < |universe - visited|
  {
    DfsVisitReach(g, start, universe, rest, node, added);
    DfsVisitClosed(g, visited, rest, node, added);
    DfsVisitMembers(start, visited, order, rest, node);
    assert node in rest + [node];
    assert node in universe - visited && node !in universe - (visited + {node});
    SubsetCard(universe - (visited + {node}), universe - visited);
  }

  lemma DfsVisitMembers<N>(start: N, visited: set<N>, order: seq<N>, rest: seq<N>, node: N)
    requires forall v :: v in visited <==> v in order
    requires NoDup(order) && node !in visited
    requires order == [] ==> rest + [node] == [start]
    requires order != [] ==> order[0] == start
    ensures forall v :: v in visited + {node} <==> v in order + [node]
    ensures NoDup(order + [node]) && (order + [node])[0] == start
  {
    NoDupAppend(order, [node]);
    if order == [] {
      assert (rest + [node])[|rest|] == node;
    }
  }

  lemma DfsVisitReach<N(!new)>(g: Graph<N>, start: N, universe: set<N>, rest: seq<N>, node: N, added: seq<N>)
    requires universe == Universe(g, start)
    requires forall v :: v in rest + [node] ==> v in universe && Reachable(g, start, v)
    requires forall v :: v in added ==> v in Succ(g, node)
    ensures forall v :: v in rest + added ==> v in universe && Reachable(g, start, v)
  {
    assert node in rest + [node];
    forall v | v in Succ(g, node) ensures v in universe && Reachable(g, start, v) {
      SuccInUniverse(g, start, node, v);
      ReachableStep(g, start, node, v);
    }
    forall v | v in rest ensures v in rest + [node] {
    }
  }

  lemma DfsVisitClosed<N>(g: Graph<N>, visited: set<N>, rest: seq<N>, node: N, added: seq<N>)
    requires forall u, v :: u in visited && v in Succ(g, u) ==> v in visited || v in rest + [node]
    requires forall v :: v in Succ(g, node) && v !in visited + {node} ==> v in added
    ensures forall u, v :: u in visited + {node} && v in Succ(g, u) ==> v in visited + {node} || v in rest + added
  {
  }

  /** `list(dfs(graph, start))`: the start first, each node at most once,
      and every node reachable from the start. */
  method Dfs<N(==,!new)>(g: Graph<N>, start: N) returns (order: seq<N>)
    ensures |order| >= 1 && order[0] == start
    ensures NoDup(order)
    ensures forall v :: v in order <==> Reachable(g, start, v)
  {
    ghost var universe := Universe(g, start);
    var visited: set<N> := {};
    var stack := [start];
    order := [];
    ReachableStart(g, start);
    while stack != []
      invariant DfsInv(g, start, universe, visited, order, stack)
      decreases |universe - visited|, |stack|
    {
      ghost var before, height := visited, |stack|;
      visited, order, stack := DfsStep(g, start, universe, visited, order, stack);
      assert |universe - visited| < |universe - before| || (visited == before && |stack| < height);
    }
    DfsDone(g, start, universe, visited, order);
  }

  /** One iteration of `dfs`: pop a node; if it is new, yield it and push
      its unvisited neighbours, last one first. */
  method DfsStep<N(==,!new)>(g: Graph<N>, ghost start: N, ghost universe: set<N>,
                             visited: set<N>, order: seq<N>, stack: seq<N>)
    returns (visited2: set<N>, order2: seq<N>, stack2: seq<N>)
    requires universe == Universe(g, start)
    requires DfsInv(g, start, universe, visited, order, stack) && stack != []
    ensures DfsInv(g, start, universe, visited2, order2, stack2)
    ensures |universe - visited2| < |universe - visited| || (visited2 == visited && |stack2| < |stack|)
  {
    var node := stack[|stack| - 1];
    var rest := stack[..|stack| - 1];
    if node in visited {
      DfsSkip(g, start, universe, visited, order, stack);
      return visited, order, rest;
    }
    stack2 := PushUnvisited(Succ(g, node), visited + {node}, rest);
    assert stack == rest + [node];
    DfsVisit(g, start, universe, visited, order, rest, node, stack2[|rest|..]);
    visited2 := visited + {node};
    order2 := order + [node];
  }

  /** With the stack empty, the visited nodes are closed under neighbours,
      so they are all the reachable ones. */
  lemma DfsDone<N(!new)>(g: Graph<N>, start: N, universe: set<N>, visited: set<N>, order: seq<N>)
    requires DfsInv(g, start, universe, visited, order, [])
    ensures |order| >= 1 && order[0] == start
    ensures forall v :: v in order <==> Reachable(g, start, v)
  {
    assert start in visited;
    forall v | Reachable(g, start, v) ensures v in order {
      ClosedHoldsReachable(g, start, visited, v);
    }
  }
}
