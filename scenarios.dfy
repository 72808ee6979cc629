/** Three small graphs built through the class, with what the traversals and
    the shortest-distance computation return on them. */
module Scenarios {
  import opened Adjacency
  import opened Walks
  import opened Seqs
  import opened Graphs

  /** The neighbours in the path graph 0 – 1 – 2 – 3. */
  function PathNeighbours(u: nat): set<nat>
  {
    if u == 0 then {1}
    else if u == 1 then {0, 2}
    else if u == 2 then {1, 3}
    else if u == 3 then {2}
    else {}
  }

  /** An adjacency shaped like the path graph. */
  ghost predicate IsPath(adj: AdjacencyMap)
  {
    forall u :: Neighbours(adj, u) == PathNeighbours(u)
  }

  /** On the path graph, a walk of `k` edges from 0 ends no further than vertex `k`. */
  lemma {:induction false} PathWalkBound(adj: AdjacencyMap, v: nat, k: nat)
    requires IsPath(adj)
    requires HasWalk(adj, 0, v, k)
    ensures v <= k
    decreases k
  {
    if k == 0 {
      WalkZero(adj, 0, v);
    } else {
      var u := WalkLast(adj, 0, v, k - 1);
      PathWalkBound(adj, u, k - 1);
      assert v in PathNeighbours(u);
    }
  }

  /** On the path graph, vertex `v` is `v` edges away from 0. */
  lemma {:induction false} PathDistance(adj: AdjacencyMap, v: nat)
    requires IsPath(adj) && v <= 3
    ensures IsDistance(adj, 0, v, Finite(v))
  {
    var p := seq(v + 1, i => i);
    forall i | 0 <= i < |p| - 1 ensures p[i + 1] in Neighbours(adj, p[i]) {
      assert p[i] == i && p[i + 1] == i + 1;
      assert i + 1 in PathNeighbours(i);
    }
    assert IsWalk(adj, p) && |p| == v + 1 && p[0] == 0 && p[v] == v;
    forall j | 0 <= j < v ensures !HasWalk(adj, 0, v, j) {
      if HasWalk(adj, 0, v, j) {
        PathWalkBound(adj, v, j);
      }
    }
  }

  /** On the path graph, every vertex reachable from 0 is one of 0 to 3, at
      its own number of edges. */
  lemma {:induction false} PathHops(adj: AdjacencyMap, v: nat)
    requires IsPath(adj) && Reaches(adj, 0, v)
    ensures v <= 3 && Hops(adj, 0, v) == v
  {
    ClosedContainsReachable(adj, {0, 1, 2, 3}, 0, v);
    HopsCorrect(adj, 0, v);
    PathDistance(adj, v);
    DistanceUnique(adj, 0, v, Finite(Hops(adj, 0, v)), Finite(v));
  }

  /** The only duplicate-free nondecreasing sequence of the elements 0 to 3 is 0, 1, 2, 3. */
  lemma {:induction false} SortedFourIsIdentity(order: seq<nat>)
    requires Distinct(order)
    requires forall v: nat :: v in order <==> v <= 3
    requires forall i, j :: 0 <= i < j < |order| ==> order[i] <= order[j]
    ensures order == [0, 1, 2, 3]
  {
    assert Elements(order) == {0, 1, 2, 3};
    DistinctCardinality(order);
    assert order[0] < order[1] < order[2] < order[3];
  }

  /** On the path graph, the only sequence of the reachable vertices, once each,
      in nondecreasing distance from 0, is 0, 1, 2, 3. */
  lemma {:induction false} PathLevelOrder(adj: AdjacencyMap, order: seq<nat>)
    requires IsPath(adj)
    requires Distinct(order)
    requires forall v :: v in order <==> Reaches(adj, 0, v)
    requires forall i, j :: 0 <= i < j < |order| ==> Hops(adj, 0, order[i]) <= Hops(adj, 0, order[j])
    ensures order == [0, 1, 2, 3]
  {
    forall v | v in order ensures v <= 3 && Hops(adj, 0, v) == v {
      PathHops(adj, v);
    }
    forall v | v <= 3 ensures v in order {
      PathDistance(adj, v);
    }
    forall i, j | 0 <= i < j < |order| ensures order[i] <= order[j] {
      assert order[i] in order && order[j] in order;
    }
    SortedFourIsIdentity(order);
  }

  /** Adding the edges 0 – 1, 1 – 2, 2 – 3 to a graph without edges gives the path graph. */
  lemma {:induction false} PathBuilt(adj: AdjacencyMap)
    requires forall u :: Neighbours(adj, u) == {}
    ensures IsPath(Link(Link(Link(adj, 0, 1), 1, 2), 2, 3))
  {
    var a1 := Link(adj, 0, 1);
    LinkExact(adj, 0, 1);
    var a2 := Link(a1, 1, 2);
    LinkExact(a1, 1, 2);
    var a3 := Link(a2, 2, 3);
    LinkExact(a2, 2, 3);
  }

  /** In the triangle 0 – 1 – 2 – 0, vertex 2 is one edge from 0. */
  lemma {:induction false} TriangleDistance(adj: AdjacencyMap)
    requires Neighbours(adj, 0) == {1, 2}
    ensures IsDistance(adj, 0, 2, Finite(1))
  {
    assert IsWalk(adj, [0, 2]);
    WalkZero(adj, 0, 2);
  }

  /** A vertex without edges is unreachable from every other vertex. */
  lemma {:induction false} IsolatedUnreachable(adj: AdjacencyMap, s: nat, e: nat)
    requires s != e
    requires Neighbours(adj, e) == {}
    requires forall u :: e !in Neighbours(adj, u)
    ensures IsDistance(adj, s, e, Infinity)
  {
    forall k: nat ensures !HasWalk(adj, s, e, k) {
      if HasWalk(adj, s, e, k) {
        if k == 0 {
          WalkZero(adj, s, e);
        } else {
          var u := WalkLast(adj, s, e, k - 1);
        }
      }
    }
  }

  /** The path graph A – B – C – D as 0 – 1 – 2 – 3: breadth-first search
      from 0 emits 0, 1, 2, 3 and vertex 3 is three edges from 0. */
  method PathScenario() returns (order: seq<nat>, d: Distance)
    ensures order == [0, 1, 2, 3]
    ensures d == Finite(3)
  {
    var g := new Graph();
    g.AddVertices([0, 1, 2, 3]);
    ghost var a0 := g.adjacent;
    g.AddEdge(0, 1);
    g.AddEdge(1, 2);
    g.AddEdge(2, 3);
    PathBuilt(a0);
    order := g.BreadthFirstSearch(0);
    PathLevelOrder(g.adjacent, order);
    d := g.DistanceOfShortestPath(0, 3);
    PathDistance(g.adjacent, 3);
    DistanceUnique(g.adjacent, 0, 3, d, Finite(3));
  }

  /** The triangle A – B, B – C, C – A as 0, 1, 2: vertex 2 is one edge
      from 0, not two. */
  method TriangleScenario() returns (d: Distance)
    ensures d == Finite(1)
  {
    var g := new Graph();
    g.AddVertices([0, 1, 2]);
    g.AddEdge(0, 1);
    g.AddEdge(1, 2);
    g.AddEdge(2, 0);
    d := g.DistanceOfShortestPath(0, 2);
    TriangleDistance(g.adjacent);
    DistanceUnique(g.adjacent, 0, 2, d, Finite(1));
  }

  /** The path graph with an isolated vertex 4 added by `addVertex`: there is
      no path from 0 to 4. */
  method IsolatedScenario() returns (d: Distance)
    ensures d == Infinity
  {
    var g := new Graph();
    g.AddVertices([0, 1, 2, 3]);
    g.AddEdge(0, 1);
    g.AddEdge(1, 2);
    g.AddEdge(2, 3);
    g.AddVertex(4);
    d := g.DistanceOfShortestPath(0, 4);
    IsolatedUnreachable(g.adjacent, 0, 4);
    DistanceUnique(g.adjacent, 0, 4, d, Infinity);
  }
}
