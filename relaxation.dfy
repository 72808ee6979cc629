/** The shortest-distance computation: tentative distances, the queue of
    vertices not yet settled, and the invariant that relaxing the neighbours
    of the closest queued vertex keeps. */
module Relaxation {
  import opened Adjacency
  import opened Walks
  import opened Seqs

  /** The `dist` map, keyed by vertex. */
  type DistanceMap = map<nat, Distance>

  /** `dist[v]`; a vertex without an entry reads as `Infinity`. */
  function DistOf(dist: DistanceMap, v: nat): (r: Distance)
    ensures v in dist ==> r == dist[v]
    ensures v !in dist ==> r == Infinity
  {
    if v in dist then dist[v] else Infinity
  }

  /** The lesser of two distances in JavaScript's order. */
  function Min(a: Distance, b: Distance): (r: Distance)
    ensures AtMost(r, a) && AtMost(r, b)
    ensures r == a || r == b
  {
    if Less(b, a) then b else a
  }

  /** Relaxing the edge from `curr` to `v` lowers `dist[v]`
      (`dist[curr] + 1 < dist[v]`). */
  predicate Improves(adj: AdjacencyMap, dist: DistanceMap, curr: nat, v: nat)
  {
    v in Neighbours(adj, curr) && Less(Succ(DistOf(dist, curr)), DistOf(dist, v))
  }

  /** The distance of `v` once every edge leaving `curr` has been relaxed. */
  function Relaxed(adj: AdjacencyMap, dist: DistanceMap, curr: nat, v: nat): (r: Distance)
    ensures AtMost(r, DistOf(dist, v))
    ensures r != DistOf(dist, v) <==> Improves(adj, dist, curr, v)
    ensures v in Neighbours(adj, curr) ==> AtMost(r, Succ(DistOf(dist, curr)))
  {
    if v in Neighbours(adj, curr) then Min(DistOf(dist, v), Succ(DistOf(dist, curr))) else DistOf(dist, v)
  }

  /** Every finite tentative distance other than that of `s` was set from a
      settled vertex `previous[v]`, one edge before `v` and one step closer. */
  ghost predicate LastHops(adj: AdjacencyMap, s: nat, dist: DistanceMap, queue: seq<nat>, previous: map<nat, nat>)
  {
    forall v :: v != s && DistOf(dist, v).Finite? ==>
      && v in previous
      && previous[v] !in queue
      && v in Neighbours(adj, previous[v])
      && DistOf(dist, previous[v]).Finite?
      && DistOf(dist, previous[v]).hops + 1 == DistOf(dist, v).hops
  }

  /** Every settled vertex (no longer queued) has its exact distance. */
  ghost predicate SettledExact(adj: AdjacencyMap, s: nat, dist: DistanceMap, queue: seq<nat>)
  {
    forall v :: v !in queue ==> IsDistance(adj, s, v, DistOf(dist, v))
  }

  /** Every edge leaving a settled vertex has been relaxed. */
  ghost predicate SettledRelaxed(adj: AdjacencyMap, dist: DistanceMap, queue: seq<nat>)
  {
    forall u, w :: u !in queue && w in Neighbours(adj, u) ==> AtMost(DistOf(dist, w), Succ(DistOf(dist, u)))
  }

  /** The invariant of the main loop of the shortest-distance computation. */
  ghost predicate DijkstraState(adj: AdjacencyMap, s: nat, dist: DistanceMap, queue: seq<nat>, previous: map<nat, nat>)
  {
    && Distinct(queue)
    && DistOf(dist, s) == Finite(0)
    && LastHops(adj, s, dist, queue, previous)
    && SettledExact(adj, s, dist, queue)
    && SettledRelaxed(adj, dist, queue)
  }

  /** Following `previous` back from `v` gives a walk from `s` whose length is
      the tentative distance of `v`. */
  lemma {:induction false} EstimateIsWalk(adj: AdjacencyMap, s: nat, dist: DistanceMap, queue: seq<nat>,
                                          previous: map<nat, nat>, v: nat, k: nat)
    requires DistOf(dist, s) == Finite(0)
    requires LastHops(adj, s, dist, queue, previous)
    requires DistOf(dist, v) == Finite(k)
    ensures HasWalk(adj, s, v, k)
    decreases k
  {
    if v == s {
      WalkZero(adj, s, v);
    } else {
      var u := previous[v];
      EstimateIsWalk(adj, s, dist, queue, previous, u, k - 1);
      WalkExtend(adj, s, u, v, k - 1);
    }
  }

  /** A queued vertex `k` edges away from `s` is preceded, along that walk, by
      a queued vertex whose tentative distance is at most `k`. */
  lemma {:induction false} Frontier(adj: AdjacencyMap, s: nat, dist: DistanceMap, queue: seq<nat>,
                                    y: nat, k: nat) returns (z: nat)
    requires DistOf(dist, s) == Finite(0)
    requires SettledExact(adj, s, dist, queue)
    requires SettledRelaxed(adj, dist, queue)
    requires HasWalk(adj, s, y, k) && y in queue
    ensures z in queue && AtMost(DistOf(dist, z), Finite(k))
    decreases k
  {
    if k == 0 {
      WalkZero(adj, s, y);
      z := y;
    } else {
      var u := WalkLast(adj, s, y, k - 1);
      if u in queue {
        z := Frontier(adj, s, dist, queue, u, k - 1);
      } else {
        assert IsDistance(adj, s, u, DistOf(dist, u));
        assert AtMost(DistOf(dist, y), Succ(DistOf(dist, u)));
        z := y;
      }
    }
  }

  /** The queued vertex with the least tentative distance has its exact distance. */
  lemma {:induction false} SettleClosest(adj: AdjacencyMap, s: nat, dist: DistanceMap, queue: seq<nat>,
                                         previous: map<nat, nat>, curr: nat)
    requires DijkstraState(adj, s, dist, queue, previous)
    requires curr in queue
    requires forall v :: v in queue ==> AtMost(DistOf(dist, curr), DistOf(dist, v))
    ensures IsDistance(adj, s, curr, DistOf(dist, curr))
  {
    if DistOf(dist, curr).Finite? {
      var c := DistOf(dist, curr).hops;
      EstimateIsWalk(adj, s, dist, queue, previous, curr, c);
      var m := LeastWalk(adj, s, curr, c);
      var z := Frontier(adj, s, dist, queue, curr, m);
      assert AtMost(DistOf(dist, curr), DistOf(dist, z));
    } else {
      forall k: nat ensures !HasWalk(adj, s, curr, k) {
        if HasWalk(adj, s, curr, k) {
          var z := Frontier(adj, s, dist, queue, curr, k);
        }
      }
    }
  }

  /** Relaxing the edges of a vertex with its exact distance lowers no settled
      vertex, the vertex itself included. */
  lemma {:induction false} SettledUnchanged(adj: AdjacencyMap, s: nat, dist: DistanceMap, queue: seq<nat>,
                                            curr: nat, v: nat)
    requires SettledExact(adj, s, dist, queue)
    requires IsDistance(adj, s, curr, DistOf(dist, curr))
    requires v !in queue || v == curr
    ensures Relaxed(adj, dist, curr, v) == DistOf(dist, v)
  {
    if v != curr && v in Neighbours(adj, curr) && DistOf(dist, curr).Finite? {
      DistanceStep(adj, s, curr, v, DistOf(dist, curr).hops, DistOf(dist, v));
    }
  }

  /** One round of the main loop keeps the invariant: `curr`, a queued vertex
      with the least tentative distance, leaves the queue, and the edges
      leaving it are relaxed (`dist'`, with `previous'` recording the new last
      hops). */
  lemma {:induction false} DijkstraRound(adj: AdjacencyMap, s: nat, dist: DistanceMap, queue: seq<nat>,
                                         previous: map<nat, nat>, curr: nat,
                                         dist': DistanceMap, queue': seq<nat>, previous': map<nat, nat>)
    requires DijkstraState(adj, s, dist, queue, previous)
    requires curr in queue
    requires forall v :: v in queue ==> AtMost(DistOf(dist, curr), DistOf(dist, v))
    requires Distinct(queue') && forall v :: v in queue' <==> v in queue && v != curr
    requires forall v :: DistOf(dist', v) == Relaxed(adj, dist, curr, v)
    requires forall v :: v in previous' <==> v in previous || Improves(adj, dist, curr, v)
    requires forall v :: v in previous' ==>
               previous'[v] == if Improves(adj, dist, curr, v) then curr else previous[v]
    ensures DijkstraState(adj, s, dist', queue', previous')
  {
    SettleClosest(adj, s, dist, queue, previous, curr);
    forall v | v !in queue' ensures DistOf(dist', v) == DistOf(dist, v) {
      SettledUnchanged(adj, s, dist, queue, curr, v);
    }
    assert DistOf(dist', s) == Finite(0);
    forall v | v !in queue' ensures IsDistance(adj, s, v, DistOf(dist', v)) {
    }
    forall u, w | u !in queue' && w in Neighbours(adj, u)
      ensures AtMost(DistOf(dist', w), Succ(DistOf(dist', u)))
    {
      assert AtMost(DistOf(dist', w), DistOf(dist, w));
    }
    forall v | v != s && DistOf(dist', v).Finite?
      ensures v in previous' && previous'[v] !in queue' && v in Neighbours(adj, previous'[v])
      ensures DistOf(dist', previous'[v]).Finite?
      ensures DistOf(dist', previous'[v]).hops + 1 == DistOf(dist', v).hops
    {
      if !Improves(adj, dist, curr, v) {
        assert DistOf(dist, v).Finite?;
        assert previous[v] !in queue;
      }
    }
  }

  /** The loop starts in its invariant: `s` at distance 0, every other vertex
      at `Infinity`, every registered vertex queued. */
  lemma {:induction false} DijkstraStart(nodes: set<nat>, adj: AdjacencyMap, s: nat, dist: DistanceMap, queue: seq<nat>)
    requires WellFormed(nodes, adj)
    requires forall v :: DistOf(dist, v) == if v == s then Finite(0) else Infinity
    requires Distinct(queue) && forall v :: v in queue <==> v in nodes
    ensures DijkstraState(adj, s, dist, queue, map[])
  {
    forall v | v !in queue ensures IsDistance(adj, s, v, DistOf(dist, v)) {
      if v == s {
        DistanceToSelf(adj, s);
      } else if Reaches(adj, s, v) {
        ReachesStaysInside(nodes, adj, s, v);
      }
    }
  }

  /** When the queue is empty, every tentative distance is exact. */
  lemma {:induction false} DijkstraDone(adj: AdjacencyMap, s: nat, dist: DistanceMap, previous: map<nat, nat>, v: nat)
    requires DijkstraState(adj, s, dist, [], previous)
    ensures IsDistance(adj, s, v, DistOf(dist, v))
    ensures DistOf(dist, v) == ShortestDistance(adj, s, v)
  {
    assert v !in [];
    ShortestDistanceCorrect(adj, s, v);
    DistanceUnique(adj, s, v, DistOf(dist, v), ShortestDistance(adj, s, v));
  }

  /** `for (let node of nodeQueue)`: a first queued vertex with the least
      tentative distance (a later vertex replaces the current choice only when
      strictly closer). */
  method Closest(queue: seq<nat>, dist: DistanceMap) returns (curr: nat)
    requires |queue| > 0
    ensures curr in queue
    ensures forall v :: v in queue ==> AtMost(DistOf(dist, curr), DistOf(dist, v))
    ensures forall j :: 0 <= j < |queue| && DistOf(dist, queue[j]) == DistOf(dist, curr) ==>
              IndexOf(queue, curr) <= j
  {
    curr := queue[0];
    ghost var at := 0;
    for i := 1 to |queue|
      invariant at < i && queue[at] == curr
      invariant forall j :: 0 <= j < i ==> AtMost(DistOf(dist, curr), DistOf(dist, queue[j]))
      invariant forall j :: 0 <= j < at ==> Less(DistOf(dist, curr), DistOf(dist, queue[j]))
    {
      if Less(DistOf(dist, queue[i]), DistOf(dist, curr)) {
        curr := queue[i];
        at := i;
      }
    }
    forall v | v in queue ensures AtMost(DistOf(dist, curr), DistOf(dist, v)) {
      var j :| 0 <= j < |queue| && queue[j] == v;
    }
    assert !Less(DistOf(dist, curr), DistOf(dist, curr));
  }
}
