/** Walks, reachability and hop distance: the reference definitions the
    traversals and the shortest-path computation are proved against. */
module Walks {
  import opened Adjacency

  /** A walk: a non-empty vertex sequence whose consecutive entries are adjacent. */
  ghost predicate IsWalk(adj: AdjacencyMap, p: seq<nat>)
  {
    |p| > 0 && forall i :: 0 <= i < |p| - 1 ==> p[i + 1] in Neighbours(adj, p[i])
  }

  /** There is a walk of exactly `k` edges from `s` to `v`. */
  ghost predicate HasWalk(adj: AdjacencyMap, s: nat, v: nat, k: nat)
  {
    exists p :: IsWalk(adj, p) && |p| == k + 1 && p[0] == s && p[k] == v
  }

  /** `v` is reachable from `s`. */
  ghost predicate Reaches(adj: AdjacencyMap, s: nat, v: nat)
  {
    exists k :: HasWalk(adj, s, v, k)
  }

  /** The vertices reachable from `s` (those outside `nodes + {s}` are never
      reachable in a well-formed graph, see ReachesStaysInside). */
  ghost function ReachableSet(nodes: set<nat>, adj: AdjacencyMap, s: nat): set<nat>
  {
    set v | v in nodes + {s} && Reaches(adj, s, v)
  }

  /** A distance as the source computes it: a hop count or `Infinity`. */
  datatype Distance = Finite(hops: nat) | Infinity

  /** JavaScript's `<` on these values: `Infinity` is above every hop count and
      not below itself. */
  predicate Less(a: Distance, b: Distance)
    ensures Less(a, b) ==> a.Finite?
    ensures a == b ==> !Less(a, b)
    ensures a.Finite? && b.Infinity? ==> Less(a, b)
    ensures a.Finite? && b.Finite? ==> (Less(a, b) <==> a.hops < b.hops)
  {
    a.Finite? && (b.Infinity? || a.hops < b.hops)
  }

  /** `a <= b` in the same order. */
  predicate AtMost(a: Distance, b: Distance)
  {
    !Less(b, a)
  }

  /** JavaScript's `d + 1`, with `Infinity + 1 == Infinity`. */
  function Succ(d: Distance): (r: Distance)
    ensures r.Finite? <==> d.Finite?
    ensures r.Finite? ==> r.hops == d.hops + 1
  {
    match d
    case Finite(k) => Finite(k + 1)
    case Infinity => Infinity
  }

  /** `d` is the least number of edges over all walks from `s` to `v`, or
      `Infinity` when there is no such walk. */
  ghost predicate IsDistance(adj: AdjacencyMap, s: nat, v: nat, d: Distance)
  {
    match d
    case Finite(k) => HasWalk(adj, s, v, k) && forall j :: 0 <= j < k ==> !HasWalk(adj, s, v, j)
    case Infinity => !Reaches(adj, s, v)
  }

  /** The only walks of no edges are the one-vertex walks. */
  lemma {:induction false} WalkZero(adj: AdjacencyMap, s: nat, v: nat)
    ensures HasWalk(adj, s, v, 0) <==> v == s
  {
    if v == s {
      assert IsWalk(adj, [s]);
    }
  }

  /** A walk extends by one edge. */
  lemma {:induction false} WalkExtend(adj: AdjacencyMap, s: nat, u: nat, w: nat, k: nat)
    requires HasWalk(adj, s, u, k) && w in Neighbours(adj, u)
    ensures HasWalk(adj, s, w, k + 1)
  {
    var p :| IsWalk(adj, p) && |p| == k + 1 && p[0] == s && p[k] == u;
    var q := p + [w];
    forall i | 0 <= i < |q| - 1 ensures q[i + 1] in Neighbours(adj, q[i]) {
      if i < k {
        assert q[i] == p[i] && q[i + 1] == p[i + 1];
      }
    }
    assert IsWalk(adj, q) && |q| == k + 2 && q[0] == s && q[k + 1] == w;
  }

  /** A walk of `k + 1` edges ends with an edge from a vertex that is `k` edges away. */
  lemma {:induction false} WalkLast(adj: AdjacencyMap, s: nat, w: nat, k: nat) returns (u: nat)
    requires HasWalk(adj, s, w, k + 1)
    ensures HasWalk(adj, s, u, k) && w in Neighbours(adj, u)
  {
    var p :| IsWalk(adj, p) && |p| == k + 2 && p[0] == s && p[k + 1] == w;
    var q := p[..k + 1];
    forall i | 0 <= i < |q| - 1 ensures q[i + 1] in Neighbours(adj, q[i]) {
      assert q[i] == p[i] && q[i + 1] == p[i + 1];
    }
    assert IsWalk(adj, q) && q[0] == s && q[k] == p[k];
    u := p[k];
    assert w in Neighbours(adj, p[k]);
  }

  /** Reachability extends along an edge. */
  lemma {:induction false} ReachesStep(adj: AdjacencyMap, s: nat, u: nat, w: nat)
    requires Reaches(adj, s, u) && w in Neighbours(adj, u)
    ensures Reaches(adj, s, w)
  {
    var k :| HasWalk(adj, s, u, k);
    WalkExtend(adj, s, u, w, k);
  }

  /** A set that contains `s` and is closed under adjacency contains every
      vertex reachable from `s`. */
  lemma {:induction false} ClosedContainsWalks(adj: AdjacencyMap, closed: set<nat>, s: nat, v: nat, k: nat)
    requires s in closed
    requires forall u :: u in closed ==> Neighbours(adj, u) <= closed
    requires HasWalk(adj, s, v, k)
    ensures v in closed
    decreases k
  {
    if k == 0 {
      WalkZero(adj, s, v);
    } else {
      var u := WalkLast(adj, s, v, k - 1);
      ClosedContainsWalks(adj, closed, s, u, k - 1);
    }
  }

  /** Reachability stays inside the closed set. */
  lemma {:induction false} ClosedContainsReachable(adj: AdjacencyMap, closed: set<nat>, s: nat, v: nat)
    requires s in closed
    requires forall u :: u in closed ==> Neighbours(adj, u) <= closed
    requires Reaches(adj, s, v)
    ensures v in closed
  {
    var k :| HasWalk(adj, s, v, k);
    ClosedContainsWalks(adj, closed, s, v, k);
  }

  /** In a well-formed graph only registered vertices and `s` itself are reachable from `s`. */
  lemma {:induction false} ReachesStaysInside(nodes: set<nat>, adj: AdjacencyMap, s: nat, v: nat)
    requires WellFormed(nodes, adj)
    requires Reaches(adj, s, v)
    ensures v in nodes + {s}
  {
    forall u | u in nodes + {s} ensures Neighbours(adj, u) <= nodes + {s} {
    }
    ClosedContainsReachable(adj, nodes + {s}, s, v);
  }

  /** Every walk bounds a least walk length from above. */
  lemma {:induction false} LeastWalk(adj: AdjacencyMap, s: nat, v: nat, k: nat) returns (m: nat)
    requires HasWalk(adj, s, v, k)
    ensures m <= k && IsDistance(adj, s, v, Finite(m))
  {
    if forall j :: 0 <= j < k ==> !HasWalk(adj, s, v, j) {
      m := k;
    } else {
      var j :| 0 <= j < k && HasWalk(adj, s, v, j);
      m := LeastWalk(adj, s, v, j);
    }
  }

  /** Every pair of vertices has a distance (finite exactly when reachable). */
  lemma {:induction false} DistanceExists(adj: AdjacencyMap, s: nat, v: nat)
    ensures exists d :: IsDistance(adj, s, v, d) && (d.Finite? <==> Reaches(adj, s, v))
  {
    if Reaches(adj, s, v) {
      var k :| HasWalk(adj, s, v, k);
      var m := LeastWalk(adj, s, v, k);
      assert IsDistance(adj, s, v, Finite(m));
    } else {
      assert IsDistance(adj, s, v, Infinity);
    }
  }

  /** The distance is unique. */
  lemma {:induction false} DistanceUnique(adj: AdjacencyMap, s: nat, v: nat, d1: Distance, d2: Distance)
    requires IsDistance(adj, s, v, d1) && IsDistance(adj, s, v, d2)
    ensures d1 == d2
  {
    if d1.Finite? {
      assert HasWalk(adj, s, v, d1.hops);
    }
    if d2.Finite? {
      assert HasWalk(adj, s, v, d2.hops);
    }
  }

  /** The hop distance from `s` to `v` (its properties are stated by
      ShortestDistanceCorrect, so that they are only unfolded where needed). */
  ghost function ShortestDistance(adj: AdjacencyMap, s: nat, v: nat): Distance
  {
    DistanceExists(adj, s, v);
    var d :| IsDistance(adj, s, v, d) && (d.Finite? <==> Reaches(adj, s, v));
    d
  }

  /** ShortestDistance is the distance, finite exactly for reachable vertices. */
  lemma {:induction false} ShortestDistanceCorrect(adj: AdjacencyMap, s: nat, v: nat)
    ensures IsDistance(adj, s, v, ShortestDistance(adj, s, v))
    ensures ShortestDistance(adj, s, v).Finite? <==> Reaches(adj, s, v)
  {
    DistanceExists(adj, s, v);
  }

  /** The hop distance of a reachable vertex, as a number. */
  ghost function Hops(adj: AdjacencyMap, s: nat, v: nat): nat
    requires Reaches(adj, s, v)
  {
    ShortestDistanceCorrect(adj, s, v);
    ShortestDistance(adj, s, v).hops
  }

  /** Hops is the least number of edges of a walk from `s` to `v`. */
  lemma {:induction false} HopsCorrect(adj: AdjacencyMap, s: nat, v: nat)
    requires Reaches(adj, s, v)
    ensures IsDistance(adj, s, v, Finite(Hops(adj, s, v)))
  {
    ShortestDistanceCorrect(adj, s, v);
  }

  /** Every vertex is at distance 0 from itself. */
  lemma {:induction false} DistanceToSelf(adj: AdjacencyMap, s: nat)
    ensures IsDistance(adj, s, s, Finite(0))
  {
    WalkZero(adj, s, s);
  }

  /** The distance of a neighbour exceeds the distance of a vertex by at most one. */
  lemma {:induction false} DistanceStep(adj: AdjacencyMap, s: nat, u: nat, w: nat, k: nat, dw: Distance)
    requires IsDistance(adj, s, u, Finite(k)) && w in Neighbours(adj, u)
    requires IsDistance(adj, s, w, dw)
    ensures dw.Finite? && dw.hops <= k + 1
  {
    WalkExtend(adj, s, u, w, k);
    if dw.Infinity? {
      assert HasWalk(adj, s, w, k + 1);
    }
  }
}
