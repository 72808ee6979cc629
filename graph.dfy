/** The graph: a set of registered vertices and each vertex's adjacent set,
    updated in place, with the three traversals over it. */
module Graphs {
  import opened Adjacency
  import opened Walks
  import opened Seqs
  import opened Relaxation

  class Graph {
    /** The registered vertices (`this.nodes`). */
    var nodes: set<nat>
    /** `adjacent[u]` is `u.adjacent`. */
    var adjacent: AdjacencyMap

    /** Every adjacency entry belongs to a registered vertex, lies in `nodes`,
        and the relation is symmetric. */
    ghost predicate Valid()
      reads this
    {
      WellFormed(nodes, adjacent)
    }

    /** `new Graph()`: no vertices. */
    constructor ()
      ensures Valid()
      ensures nodes == {} && adjacent == map[]
    {
      nodes := {};
      adjacent := map[];
    }

    /** `addVertex(v)`: registers `v`; no adjacent set changes. */
    method AddVertex(v: nat)
      requires Valid()
      modifies this
      ensures Valid()
      ensures nodes == old(nodes) + {v}
      ensures adjacent == Register(old(adjacent), v)
    {
      RegisterWellFormed(nodes, adjacent, v);
      nodes := nodes + {v};
      if v !in adjacent {
        adjacent := adjacent[v := {}];
      }
    }

    /** `addVertices(vertexArray)`: registers every element, in order. */
    method AddVertices(vertexArray: seq<nat>)
      requires Valid()
      modifies this
      ensures Valid()
      ensures nodes == old(nodes) + Elements(vertexArray)
      ensures forall u :: Neighbours(adjacent, u) == Neighbours(old(adjacent), u)
    {
      for i := 0 to |vertexArray|
        invariant Valid()
        invariant nodes == old(nodes) + Elements(vertexArray[..i])
        invariant forall u :: Neighbours(adjacent, u) == Neighbours(old(adjacent), u)
      {
        AddVertex(vertexArray[i]);
        assert vertexArray[..i + 1] == vertexArray[..i] + [vertexArray[i]];
      }
      assert vertexArray[..|vertexArray|] == vertexArray;
    }

    /** `addEdge(v1, v2)`: `v2` joins `v1`'s adjacent set and `v1` joins `v2`'s.
        Nothing checks that both are registered: the graph stays well formed
        exactly when they are. */
    method AddEdge(v1: nat, v2: nat)
      requires Valid()
      modifies this
      ensures nodes == old(nodes)
      ensures adjacent == Link(old(adjacent), v1, v2)
      ensures Valid() <==> v1 in nodes && v2 in nodes
    {
      if v1 in nodes && v2 in nodes {
        LinkWellFormed(nodes, adjacent, v1, v2);
      }
      adjacent := Insert(adjacent, v1, v2);
      adjacent := Insert(adjacent, v2, v1);
    }

    /** `removeEdge(v1, v2)`: `v2` leaves `v1`'s adjacent set and `v1` leaves
        `v2`'s; nothing happens to a pair that is not an edge. */
    method RemoveEdge(v1: nat, v2: nat)
      requires Valid()
      modifies this
      ensures Valid()
      ensures nodes == old(nodes)
      ensures adjacent == Unlink(old(adjacent), v1, v2)
    {
      UnlinkWellFormed(nodes, adjacent, v1, v2);
      adjacent := Delete(adjacent, v1, v2);
      adjacent := Delete(adjacent, v2, v1);
    }

    /** `removeVertex(vertex)`: removes every edge at `vertex`, one neighbour
        at a time, then unregisters it. */
    method RemoveVertex(vertex: nat)
      requires Valid()
      modifies this
      ensures Valid()
      ensures nodes == old(nodes) - {vertex}
      ensures adjacent == Detach(old(adjacent), vertex)
    {
      var pending := Neighbours(adjacent, vertex);
      ghost var around := pending;
      while pending != {}
        invariant Valid()
        invariant nodes == old(nodes)
        invariant adjacent.Keys == old(adjacent).Keys
        invariant pending <= around
        invariant Neighbours(adjacent, vertex) == pending
        invariant forall x :: x != vertex && x in around && x !in pending ==>
                    Neighbours(adjacent, x) == Neighbours(old(adjacent), x) - {vertex}
        invariant forall x :: x != vertex && (x !in around || x in pending) ==>
                    Neighbours(adjacent, x) == Neighbours(old(adjacent), x)
        decreases pending
      {
        var node :| node in pending;
        RemoveEdge(node, vertex);
        pending := pending - {node};
      }
      nodes := nodes - {vertex};
      adjacent := adjacent - {vertex};
      var detached := Detach(old(adjacent), vertex);
      forall x ensures Neighbours(adjacent, x) == Neighbours(detached, x) {
        if x != vertex && x !in around {
          assert vertex !in Neighbours(old(adjacent), x);
        }
      }
      SameNeighboursEqual(adjacent, detached);
    }

    /** The worklist discipline shared by both traversals: `visited` is what
        has been emitted plus what waits in the worklist, neither holds a
        duplicate nor shares an element with the other, everything visited is
        reachable from `start`, and every neighbour of an emitted vertex has
        been visited. */
    ghost predicate Explored(start: nat, order: seq<nat>, willVisit: seq<nat>, visited: set<nat>)
      reads this
    {
      && visited <= nodes + {start} && start in visited
      && (forall v :: v in visited <==> v in order || v in willVisit)
      && Distinct(order) && Distinct(willVisit)
      && (forall v :: v in order ==> v !in willVisit)
      && (forall v :: v in visited ==> Reaches(adjacent, start, v))
      && (forall u, w :: u in order && w in Neighbours(adjacent, u) ==> w in visited)
    }

    /** A FIFO worklist is sorted by hop distance and spans at most two levels. */
    ghost predicate WorklistLevelled(start: nat, willVisit: seq<nat>)
      reads this
    {
      && (forall v :: v in willVisit ==> Reaches(adjacent, start, v))
      && (forall i, j :: 0 <= i < j < |willVisit| ==>
            Hops(adjacent, start, willVisit[i]) <= Hops(adjacent, start, willVisit[j]))
      && (|willVisit| > 0 ==>
            Hops(adjacent, start, willVisit[|willVisit| - 1]) <= Hops(adjacent, start, willVisit[0]) + 1)
    }

    /** The output is sorted by hop distance and no deeper than the head of the worklist. */
    ghost predicate OutputLevelled(start: nat, order: seq<nat>, willVisit: seq<nat>)
      reads this
    {
      && (forall v :: v in order ==> Reaches(adjacent, start, v))
      && (forall v :: v in willVisit ==> Reaches(adjacent, start, v))
      && (forall i, j :: 0 <= i < j < |order| ==>
            Hops(adjacent, start, order[i]) <= Hops(adjacent, start, order[j]))
      && (|order| > 0 && |willVisit| > 0 ==>
            Hops(adjacent, start, order[|order| - 1]) <= Hops(adjacent, start, willVisit[0]))
    }

    /** Every vertex closer to `start` than the head of the worklist has been emitted. */
    ghost predicate CloserEmitted(start: nat, order: seq<nat>, willVisit: seq<nat>)
      reads this
    {
      && (forall v :: v in willVisit ==> Reaches(adjacent, start, v))
      && (|willVisit| > 0 ==>
            forall x: nat, k: nat :: HasWalk(adjacent, start, x, k) && k < Hops(adjacent, start, willVisit[0]) ==>
              x in order)
    }

    /** The inner loop of both traversals (`for (let neighbor of node.adjacent)`):
        every neighbour of `node` that is not yet visited is pushed (`added`, in
        push order, once each) and marked visited. */
    method MarkNeighbours(node: nat, visited: set<nat>) returns (added: seq<nat>, visited': set<nat>)
      ensures visited' == visited + Neighbours(adjacent, node)
      ensures Distinct(added)
      ensures Elements(added) == Neighbours(adjacent, node) - visited
    {
      added, visited' := [], visited;
      var pending := Neighbours(adjacent, node);
      while pending != {}
        invariant pending <= Neighbours(adjacent, node)
        invariant visited' == visited + (Neighbours(adjacent, node) - pending)
        invariant Distinct(added)
        invariant Elements(added) == (Neighbours(adjacent, node) - pending) - visited
        decreases pending
      {
        var neighbor :| neighbor in pending;
        if neighbor !in visited' {
          DistinctConcat(added, [neighbor]);
          added := added + [neighbor];
          visited' := visited' + {neighbor};
        }
        pending := pending - {neighbor};
      }
    }

    /** One round of either traversal keeps the worklist discipline: `node`
        left the worklist (leaving `rest`), was emitted, and its unvisited
        neighbours `added` were pushed. */
    lemma {:induction false} ExploredAfterRound(start: nat, prior: seq<nat>, node: nat, rest: seq<nat>,
                                                added: seq<nat>, visited: set<nat>)
      requires Valid()
      requires visited <= nodes + {start} && start in visited
      requires forall v :: v in visited <==> v in prior || v in rest || v == node
      requires Distinct(prior) && Distinct(rest) && node !in prior && node !in rest
      requires forall v :: v in prior ==> v !in rest
      requires forall v :: v in visited ==> Reaches(adjacent, start, v)
      requires forall u, w :: u in prior && w in Neighbours(adjacent, u) ==> w in visited
      requires Distinct(added) && Elements(added) == Neighbours(adjacent, node) - visited
      ensures Explored(start, prior + [node], rest + added, visited + Neighbours(adjacent, node))
    {
      DistinctConcat(prior, [node]);
      DistinctConcat(rest, added);
      forall w | w in Neighbours(adjacent, node) ensures w in nodes && Reaches(adjacent, start, w) {
        ReachesStep(adjacent, start, node, w);
      }
    }

    /** `depthFirstSearch(start)`: a stack worklist, each vertex marked visited
        when pushed. Emits `start` first, then every vertex reachable from
        `start` exactly once, and nothing else. */
    method DepthFirstSearch(start: nat) returns (order: seq<nat>)
      requires Valid()
      ensures |order| > 0 && order[0] == start
      ensures Distinct(order)
      ensures forall v :: v in order <==> Reaches(adjacent, start, v)
      ensures |order| == |ReachableSet(nodes, adjacent, start)|
    {
      order := [];
      var willVisit := [start];
      var visited := {start};
      WalkZero(adjacent, start, start);
      while |willVisit| > 0
        invariant Explored(start, order, willVisit, visited)
        invariant |order| > 0 ==> order[0] == start
        invariant |order| == 0 ==> willVisit == [start]
        decreases (nodes + {start}) - Elements(order)
      {
        var node := willVisit[|willVisit| - 1];
        var rest := willVisit[..|willVisit| - 1];
        assert willVisit == rest + [node];
        DistinctConcat(rest, [node]);
        ghost var prior, visited0 := order, visited;
        order := order + [node];
        assert Elements(order) == Elements(prior) + {node};
        var added;
        added, visited := MarkNeighbours(node, visited);
        willVisit := rest + added;
        ExploredAfterRound(start, prior, node, rest, added, visited0);
      }
      TraversalComplete(start, order, visited);
    }

    /** `breadthFirstSearch(start)`: the same marking discipline with a FIFO
        worklist (`shift`). Besides the guarantees of DepthFirstSearch, the
        vertices come out in nondecreasing hop distance from `start`. */
    method BreadthFirstSearch(start: nat) returns (order: seq<nat>)
      requires Valid()
      ensures |order| > 0 && order[0] == start
      ensures Distinct(order)
      ensures forall v :: v in order <==> Reaches(adjacent, start, v)
      ensures |order| == |ReachableSet(nodes, adjacent, start)|
      ensures forall i, j :: 0 <= i < j < |order| ==>
                Hops(adjacent, start, order[i]) <= Hops(adjacent, start, order[j])
    {
      order := [];
      var willVisit := [start];
      var visited := {start};
      FifoStart(start);
      while |willVisit| > 0
        invariant FifoState(start, order, willVisit, visited)
        decreases (nodes + {start}) - Elements(order)
      {
        ghost var prior, before, visited0 := order, willVisit, visited;
        var node := willVisit[0];
        var rest := willVisit[1..];
        order := order + [node];
        var added;
        added, visited := MarkNeighbours(node, visited);
        willVisit := rest + added;
        FifoRound(start, prior, before, node, rest, added, visited0);
      }
      TraversalComplete(start, order, visited);
    }

    /** Everything the FIFO loop keeps: the worklist discipline, the level
        structure, and `start` first. */
    ghost predicate FifoState(start: nat, order: seq<nat>, willVisit: seq<nat>, visited: set<nat>)
      reads this
    {
      && Explored(start, order, willVisit, visited)
      && WorklistLevelled(start, willVisit)
      && OutputLevelled(start, order, willVisit)
      && CloserEmitted(start, order, willVisit)
      && (|order| > 0 ==> order[0] == start)
      && (|order| == 0 ==> willVisit == [start])
    }

    /** The FIFO loop starts in its invariant. */
    lemma {:induction false} FifoStart(start: nat)
      requires Valid()
      ensures FifoState(start, [], [start], {start})
    {
      WalkZero(adjacent, start, start);
    }

    /** One FIFO round keeps the loop invariant and leaves fewer vertices to emit. */
    lemma {:induction false} FifoRound(start: nat, prior: seq<nat>, willVisit: seq<nat>, node: nat, rest: seq<nat>,
                                       added: seq<nat>, visited: set<nat>)
      requires Valid()
      requires FifoState(start, prior, willVisit, visited)
      requires |willVisit| > 0 && node == willVisit[0] && rest == willVisit[1..]
      requires Distinct(added) && Elements(added) == Neighbours(adjacent, node) - visited
      ensures FifoState(start, prior + [node], rest + added, visited + Neighbours(adjacent, node))
      ensures (nodes + {start}) - Elements(prior + [node]) < (nodes + {start}) - Elements(prior)
    {
      assert willVisit == [node] + rest;
      assert Elements(prior + [node]) == Elements(prior) + {node};
      DistinctConcat([node], rest);
      assert node in [node] + rest;
      forall v | v in rest ensures v in [node] + rest {
      }
      ExploredAfterRound(start, prior, node, rest, added, visited);
      AddedAtNextLevel(start, prior, visited, node, added);
      WorklistAfterRound(start, node, rest, added);
      OutputAfterRound(start, prior, node, rest, added);
      CloserAfterRound(start, prior, node, rest, added, visited + Neighbours(adjacent, node));
    }

    /** After a FIFO round, the worklist `rest + added` is still in level order
        and every entry is at least as deep as the vertex just taken. */
    lemma {:induction false} WorklistAfterRound(start: nat, node: nat, rest: seq<nat>, added: seq<nat>)
      requires WorklistLevelled(start, [node] + rest)
      requires forall i :: 0 <= i < |added| ==>
                 Reaches(adjacent, start, added[i]) &&
                 Hops(adjacent, start, added[i]) == Hops(adjacent, start, node) + 1
      ensures WorklistLevelled(start, rest + added)
      ensures forall i :: 0 <= i < |rest + added| ==>
                Hops(adjacent, start, node) <= Hops(adjacent, start, (rest + added)[i]) <= Hops(adjacent, start, node) + 1
    {
      var before := [node] + rest;
      var after := rest + added;
      assert node == before[0];
      var d := Hops(adjacent, start, node);
      forall i | 0 <= i < |rest|
        ensures Reaches(adjacent, start, rest[i]) && d <= Hops(adjacent, start, rest[i]) <= d + 1
      {
        assert rest[i] == before[i + 1];
      }
      forall v | v in after ensures Reaches(adjacent, start, v) {
        var i :| 0 <= i < |after| && after[i] == v;
        if i >= |rest| {
          assert v == added[i - |rest|];
        }
      }
      forall i | 0 <= i < |after|
        ensures d <= Hops(adjacent, start, after[i]) <= d + 1
      {
        if i < |rest| {
          assert after[i] == rest[i];
        } else {
          assert after[i] == added[i - |rest|];
        }
      }
      forall i, j | 0 <= i < j < |after|
        ensures Hops(adjacent, start, after[i]) <= Hops(adjacent, start, after[j])
      {
        if j < |rest| {
          assert after[i] == before[i + 1] && after[j] == before[j + 1];
        } else {
          assert after[j] == added[j - |rest|];
        }
      }
    }

    /** After a FIFO round, the output with `node` appended is still in level
        order and no deeper than the new head of the worklist. */
    lemma {:induction false} OutputAfterRound(start: nat, prior: seq<nat>, node: nat, rest: seq<nat>, added: seq<nat>)
      requires OutputLevelled(start, prior, [node] + rest)
      requires WorklistLevelled(start, rest + added)
      requires forall i :: 0 <= i < |rest + added| ==>
                 Hops(adjacent, start, node) <= Hops(adjacent, start, (rest + added)[i])
      ensures OutputLevelled(start, prior + [node], rest + added)
    {
      var before := [node] + rest;
      var order := prior + [node];
      assert node == before[0];
      forall v | v in order ensures Reaches(adjacent, start, v) {
        if v != node {
          assert v in prior;
        }
      }
      forall i, j | 0 <= i < j < |order|
        ensures Hops(adjacent, start, order[i]) <= Hops(adjacent, start, order[j])
      {
        assert order[i] == prior[i];
        if j < |prior| {
          assert order[j] == prior[j];
        } else {
          assert Hops(adjacent, start, prior[i]) <= Hops(adjacent, start, prior[|prior| - 1]);
        }
      }
    }

    /** After a FIFO round, every vertex closer than the new head of the
        worklist has been emitted: if the head moved one level deeper, the
        level of `node` has been emitted completely. */
    lemma {:induction false} CloserAfterRound(start: nat, prior: seq<nat>, node: nat, rest: seq<nat>,
                                              added: seq<nat>, visited: set<nat>)
      requires Valid()
      requires CloserEmitted(start, prior, [node] + rest)
      requires Explored(start, prior + [node], rest + added, visited)
      requires WorklistLevelled(start, rest + added)
      requires forall i :: 0 <= i < |rest + added| ==>
                 Hops(adjacent, start, node) <= Hops(adjacent, start, (rest + added)[i]) <= Hops(adjacent, start, node) + 1
      ensures CloserEmitted(start, prior + [node], rest + added)
    {
      var before := [node] + rest;
      var after := rest + added;
      var order := prior + [node];
      assert node == before[0];
      var d := Hops(adjacent, start, node);
      if |after| > 0 {
        if Hops(adjacent, start, after[0]) == d {
          forall x: nat, k: nat | HasWalk(adjacent, start, x, k) && k < d ensures x in order {
            assert x in prior;
          }
        } else {
          forall x | x in after ensures d < Hops(adjacent, start, x) {
            var i :| 0 <= i < |after| && after[i] == x;
            if i > 0 {
              assert Hops(adjacent, start, after[0]) <= Hops(adjacent, start, after[i]);
            }
          }
          forall x: nat, k: nat | HasWalk(adjacent, start, x, k) && k < d + 1 ensures x in order {
            LevelComplete(start, order, after, visited, d, x, k);
          }
        }
      }
    }

    /** An unvisited neighbour of a vertex at level `d`, found while every
        vertex closer than `d` has been emitted with its neighbours visited,
        is at level `d + 1`. */
    lemma {:induction false} NextLevel(start: nat, prior: seq<nat>, visited: set<nat>, node: nat, neighbor: nat)
      requires Valid()
      requires start in visited
      requires Reaches(adjacent, start, node)
      requires neighbor in Neighbours(adjacent, node) && neighbor !in visited
      requires forall u, w :: u in prior && w in Neighbours(adjacent, u) ==> w in visited
      requires forall x: nat, k: nat :: HasWalk(adjacent, start, x, k) && k < Hops(adjacent, start, node) ==> x in prior
      ensures Reaches(adjacent, start, neighbor)
      ensures Hops(adjacent, start, neighbor) == Hops(adjacent, start, node) + 1
    {
      var d := Hops(adjacent, start, node);
      ReachesStep(adjacent, start, node, neighbor);
      var m := Hops(adjacent, start, neighbor);
      DistanceStep(adjacent, start, node, neighbor, d, Finite(m));
      forall j | j <= d ensures !HasWalk(adjacent, start, neighbor, j) {
        if HasWalk(adjacent, start, neighbor, j) {
          if j == 0 {
            WalkZero(adjacent, start, neighbor);
          } else {
            var u := WalkLast(adjacent, start, neighbor, j - 1);
          }
        }
      }
    }

    /** Every neighbour pushed in a FIFO round is one level below `node`. */
    lemma {:induction false} AddedAtNextLevel(start: nat, prior: seq<nat>, visited: set<nat>, node: nat, added: seq<nat>)
      requires Valid()
      requires start in visited
      requires Reaches(adjacent, start, node)
      requires Elements(added) == Neighbours(adjacent, node) - visited
      requires forall u, w :: u in prior && w in Neighbours(adjacent, u) ==> w in visited
      requires forall x: nat, k: nat :: HasWalk(adjacent, start, x, k) && k < Hops(adjacent, start, node) ==> x in prior
      ensures forall i :: 0 <= i < |added| ==>
                Reaches(adjacent, start, added[i]) &&
                Hops(adjacent, start, added[i]) == Hops(adjacent, start, node) + 1
    {
      forall i | 0 <= i < |added|
        ensures Reaches(adjacent, start, added[i])
        ensures Hops(adjacent, start, added[i]) == Hops(adjacent, start, node) + 1
      {
        assert added[i] in Elements(added);
        NextLevel(start, prior, visited, node, added[i]);
      }
    }

    /** When the head of the worklist is at level `d + 1`, every vertex within
        `d` edges of `start` has been emitted. */
    lemma {:induction false} LevelComplete(start: nat, order: seq<nat>, willVisit: seq<nat>, visited: set<nat>,
                                           d: nat, v: nat, k: nat)
      requires Valid()
      requires start in visited
      requires forall x :: x in visited <==> x in order || x in willVisit
      requires forall x :: x in visited ==> Reaches(adjacent, start, x)
      requires forall u, w :: u in order && w in Neighbours(adjacent, u) ==> w in visited
      requires forall x :: x in willVisit ==> d < Hops(adjacent, start, x)
      requires forall x: nat, j: nat :: HasWalk(adjacent, start, x, j) && j < d ==> x in order
      requires HasWalk(adjacent, start, v, k) && k <= d
      ensures v in order
    {
      var m := LeastWalk(adjacent, start, v, k);
      if m < d {
      } else if v !in visited {
        if m == 0 {
          WalkZero(adjacent, start, v);
        } else {
          var u := WalkLast(adjacent, start, v, m - 1);
        }
      } else {
        DistanceUnique(adjacent, start, v, Finite(m), Finite(Hops(adjacent, start, v)));
      }
    }

    /** When the worklist runs empty, the output holds exactly the vertices
        reachable from `start`, once each. */
    lemma {:induction false} TraversalComplete(start: nat, order: seq<nat>, visited: set<nat>)
      requires Valid()
      requires Explored(start, order, [], visited)
      ensures forall v :: v in order <==> Reaches(adjacent, start, v)
      ensures |order| == |ReachableSet(nodes, adjacent, start)|
    {
      forall v | Reaches(adjacent, start, v) ensures v in order {
        ClosedContainsReachable(adjacent, visited, start, v);
      }
      ReachableIsElements(order, start);
    }

    /** A traversal result that holds exactly the reachable vertices, once
        each, is as long as the reachable set is large. */
    lemma {:induction false} ReachableIsElements(order: seq<nat>, start: nat)
      requires Valid()
      requires Distinct(order)
      requires forall v :: v in order <==> Reaches(adjacent, start, v)
      ensures |order| == |ReachableSet(nodes, adjacent, start)|
    {
      forall v | Reaches(adjacent, start, v) ensures v in nodes + {start} {
        ReachesStaysInside(nodes, adjacent, start, v);
      }
      assert ReachableSet(nodes, adjacent, start) == Elements(order);
      DistinctCardinality(order);
    }

    /** `for (let neighbor of currNode.adjacent)`: relaxes every edge leaving
        `curr`. A neighbour whose distance drops to `dist[curr] + 1` records
        `curr` as its last hop; no distance ever increases. */
    method RelaxNeighbours(curr: nat, dist: DistanceMap, ghost previous: map<nat, nat>)
      returns (dist': DistanceMap, ghost previous': map<nat, nat>)
      ensures forall v :: DistOf(dist', v) == Relaxed(adjacent, dist, curr, v)
      ensures forall v :: AtMost(DistOf(dist', v), DistOf(dist, v))
      ensures forall v :: v in previous' <==> v in previous || Improves(adjacent, dist, curr, v)
      ensures forall v :: v in previous' ==>
                previous'[v] == if Improves(adjacent, dist, curr, v) then curr else previous[v]
    {
      dist', previous' := dist, previous;
      var pending := Neighbours(adjacent, curr);
      while pending != {}
        invariant pending <= Neighbours(adjacent, curr)
        invariant forall v :: DistOf(dist', v) ==
                    if v in pending then DistOf(dist, v) else Relaxed(adjacent, dist, curr, v)
        invariant forall v :: v in previous' <==>
                    v in previous || (v !in pending && Improves(adjacent, dist, curr, v))
        invariant forall v :: v in previous' ==>
                    previous'[v] == if v !in pending && Improves(adjacent, dist, curr, v) then curr else previous[v]
        decreases pending
      {
        var neighbor :| neighbor in pending;
        assert DistOf(dist', curr) == DistOf(dist, curr);
        var alternateDistance := Succ(DistOf(dist', curr));
        if Less(alternateDistance, DistOf(dist', neighbor)) {
          dist' := dist'[neighbor := alternateDistance];
          previous' := previous'[neighbor := curr];
        }
        pending := pending - {neighbor};
      }
    }

    /** `distanceOfShortestPath(start, end)`, as intended: every registered
        vertex starts at `Infinity` and `start` at 0; each round removes a
        first queued vertex with the least distance and relaxes its edges. The
        result is the least number of edges on a walk from `start` to `end`,
        and `Infinity` exactly when `end` is unreachable. */
    method DistanceOfShortestPath(start: nat, end: nat) returns (d: Distance)
      requires Valid()
      ensures IsDistance(adjacent, start, end, d)
      ensures d == ShortestDistance(adjacent, start, end)
      ensures d.Finite? <==> Reaches(adjacent, start, end)
      ensures start == end ==> d == Finite(0)
    {
      var dist: DistanceMap := map[];
      var pending := nodes;
      while pending != {}
        invariant pending <= nodes
        invariant dist.Keys == nodes - pending
        invariant forall v :: v in dist ==> dist[v] == Infinity
        decreases pending
      {
        var node :| node in pending;
        dist := dist[node := Infinity];
        pending := pending - {node};
      }
      dist := dist[start := Finite(0)];
      ghost var previous: map<nat, nat> := map[];

      var nodeQueue: seq<nat> := [];
      pending := nodes;
      while pending != {}
        invariant pending <= nodes
        invariant Distinct(nodeQueue)
        invariant forall v :: v in nodeQueue <==> v in nodes - pending
        decreases pending
      {
        var node :| node in pending;
        DistinctConcat(nodeQueue, [node]);
        nodeQueue := nodeQueue + [node];
        pending := pending - {node};
      }
      DijkstraStart(nodes, adjacent, start, dist, nodeQueue);

      while |nodeQueue| > 0
        invariant DijkstraState(adjacent, start, dist, nodeQueue, previous)
        decreases |nodeQueue|
      {
        var currNode := Closest(nodeQueue, dist);
        var currNodeIdx := IndexOf(nodeQueue, currNode);
        ghost var queue0, dist0, previous0 := nodeQueue, dist, previous;
        RemoveAtDistinct(nodeQueue, currNodeIdx);
        nodeQueue := RemoveAt(nodeQueue, currNodeIdx);
        dist, previous := RelaxNeighbours(currNode, dist, previous);
        DijkstraRound(adjacent, start, dist0, queue0, previous0, currNode, dist, nodeQueue, previous);
      }
      d := DistOf(dist, end);
      DijkstraDone(adjacent, start, dist, previous, end);
    }
  }
}
