/** Undirected adjacency over integer vertex handles.
    `adj[u]` is the `adjacent` set of the node with handle `u`. A handle without
    an entry has no neighbours: a node that was never registered (or has been
    removed) has an empty adjacency in a well-formed graph. */
module Adjacency {

  type AdjacencyMap = map<nat, set<nat>>

  /** The adjacent set of `u` (empty when `u` has no entry). */
  function Neighbours(adj: AdjacencyMap, u: nat): set<nat>
  {
    if u in adj then adj[u] else {}
  }

  /** The graph invariant: one adjacency entry per registered vertex, no edge
      leaves the vertex set, and the relation is symmetric. */
  ghost predicate WellFormed(nodes: set<nat>, adj: AdjacencyMap)
  {
    && adj.Keys == nodes
    && (forall u, w :: u in adj && w in adj[u] ==> w in nodes)
    && (forall u, w :: u in adj && w in adj[u] ==> u in Neighbours(adj, w))
  }

  /** The adjacency after `addVertex(v)`: a vertex that has no entry gets an
      empty one; an entry that exists is kept. */
  function Register(adj: AdjacencyMap, v: nat): (r: AdjacencyMap)
    ensures r.Keys == adj.Keys + {v}
    ensures forall u :: Neighbours(r, u) == Neighbours(adj, u)
    ensures v in adj ==> r == adj
  {
    if v in adj then adj else adj[v := {}]
  }

  /** Registering a vertex keeps the graph well formed. */
  lemma {:induction false} RegisterWellFormed(nodes: set<nat>, adj: AdjacencyMap, v: nat)
    requires WellFormed(nodes, adj)
    ensures WellFormed(nodes + {v}, Register(adj, v))
  {
    var r := Register(adj, v);
    forall u, w | u in r && w in r[u] ensures w in nodes + {v} && u in Neighbours(r, w) {
      assert w in Neighbours(r, u) && w in Neighbours(adj, u);
      assert u in Neighbours(adj, w);
    }
  }

  /** `addVertex` is idempotent. */
  lemma {:induction false} RegisterIdempotent(adj: AdjacencyMap, v: nat)
    ensures Register(Register(adj, v), v) == Register(adj, v)
  {
    assert v in Register(adj, v);
  }

  /** The effect of `u.adjacent.add(w)`: only entry `u` gains `w`. */
  function Insert(adj: AdjacencyMap, u: nat, w: nat): (r: AdjacencyMap)
    ensures r.Keys == adj.Keys + {u}
    ensures Neighbours(r, u) == Neighbours(adj, u) + {w}
    ensures forall x :: x != u ==> Neighbours(r, x) == Neighbours(adj, x)
  {
    adj[u := Neighbours(adj, u) + {w}]
  }

  /** The effect of `u.adjacent.delete(w)`: only entry `u` loses `w`; no entry
      is created. */
  function Delete(adj: AdjacencyMap, u: nat, w: nat): (r: AdjacencyMap)
    ensures r.Keys == adj.Keys
    ensures Neighbours(r, u) == Neighbours(adj, u) - {w}
    ensures forall x :: x != u ==> Neighbours(r, x) == Neighbours(adj, x)
  {
    if u in adj then adj[u := adj[u] - {w}] else adj
  }

  /** `addEdge(a, b)`: `a.adjacent.add(b)` then `b.adjacent.add(a)`. */
  function Link(adj: AdjacencyMap, a: nat, b: nat): (r: AdjacencyMap)
    ensures r.Keys == adj.Keys + {a, b}
    ensures b in Neighbours(r, a) && a in Neighbours(r, b)
    ensures forall x :: x != a && x != b ==> Neighbours(r, x) == Neighbours(adj, x)
    ensures forall x :: Neighbours(adj, x) <= Neighbours(r, x)
    ensures forall x, y :: y in Neighbours(r, x) && y !in Neighbours(adj, x) ==>
                           (x == a && y == b) || (x == b && y == a)
  {
    Insert(Insert(adj, a, b), b, a)
  }

  /** The adjacent sets after `addEdge(a, b)`, vertex by vertex. */
  lemma {:induction false} LinkExact(adj: AdjacencyMap, a: nat, b: nat)
    ensures forall x :: Neighbours(Link(adj, a, b), x) ==
              Neighbours(adj, x) + (if x == a then {b} else {}) + (if x == b then {a} else {})
  {
    var r := Link(adj, a, b);
    forall x ensures Neighbours(r, x) == Neighbours(adj, x) + (if x == a then {b} else {}) + (if x == b then {a} else {}) {
      if x == a || x == b {
        assert Neighbours(r, x) == Neighbours(Insert(adj, a, b), x) + (if x == b then {a} else {});
      }
    }
  }

  /** `removeEdge(a, b)`: `a.adjacent.delete(b)` then `b.adjacent.delete(a)`. */
  function Unlink(adj: AdjacencyMap, a: nat, b: nat): (r: AdjacencyMap)
    ensures r.Keys == adj.Keys
    ensures b !in Neighbours(r, a) && a !in Neighbours(r, b)
    ensures forall x :: x != a && x != b ==> Neighbours(r, x) == Neighbours(adj, x)
    ensures forall x :: Neighbours(r, x) <= Neighbours(adj, x)
    ensures forall x, y :: y in Neighbours(adj, x) && y !in Neighbours(r, x) ==>
                           (x == a && y == b) || (x == b && y == a)
  {
    Delete(Delete(adj, a, b), b, a)
  }

  /** The adjacency left by `removeVertex(v)`: `v` loses its entry and no other
      entry mentions it. */
  function Detach(adj: AdjacencyMap, v: nat): (r: AdjacencyMap)
    ensures r.Keys == adj.Keys - {v}
    ensures Neighbours(r, v) == {}
    ensures forall x :: x != v ==> Neighbours(r, x) == Neighbours(adj, x) - {v}
  {
    map x | x in adj && x != v :: adj[x] - {v}
  }

  /** Two adjacency maps with the same entries and the same neighbour sets are equal. */
  lemma {:induction false} SameNeighboursEqual(adj1: AdjacencyMap, adj2: AdjacencyMap)
    requires adj1.Keys == adj2.Keys
    requires forall x :: Neighbours(adj1, x) == Neighbours(adj2, x)
    ensures adj1 == adj2
  {
    forall x | x in adj1 ensures adj1[x] == adj2[x] {
      assert Neighbours(adj1, x) == Neighbours(adj2, x);
    }
  }

  /** Adding an edge keeps the graph well formed. */
  lemma {:induction false} LinkWellFormed(nodes: set<nat>, adj: AdjacencyMap, a: nat, b: nat)
    requires WellFormed(nodes, adj) && a in nodes && b in nodes
    ensures WellFormed(nodes, Link(adj, a, b))
  {
    var r := Link(adj, a, b);
    forall u, w | u in r && w in r[u] ensures w in nodes && u in Neighbours(r, w) {
      assert w in Neighbours(r, u);
      if w !in Neighbours(adj, u) {
        assert (u == a && w == b) || (u == b && w == a);
      } else {
        assert u in adj && w in adj[u];
        assert u in Neighbours(adj, w);
      }
    }
  }

  /** Removing an edge keeps the graph well formed. */
  lemma {:induction false} UnlinkWellFormed(nodes: set<nat>, adj: AdjacencyMap, a: nat, b: nat)
    requires WellFormed(nodes, adj)
    ensures WellFormed(nodes, Unlink(adj, a, b))
  {
    var r := Unlink(adj, a, b);
    forall u, w | u in r && w in r[u] ensures w in nodes && u in Neighbours(r, w) {
      assert w in Neighbours(r, u) && w in Neighbours(adj, u);
      assert u in Neighbours(adj, w);
    }
  }

  /** `addEdge` is idempotent. */
  lemma {:induction false} LinkIdempotent(adj: AdjacencyMap, a: nat, b: nat)
    ensures Link(Link(adj, a, b), a, b) == Link(adj, a, b)
  {
    var once := Link(adj, a, b);
    var twice := Link(once, a, b);
    forall x ensures Neighbours(twice, x) == Neighbours(once, x) {
      if x == a || x == b {
        assert Neighbours(once, x) <= Neighbours(twice, x);
      }
    }
    SameNeighboursEqual(twice, once);
  }

  /** `removeEdge` on a pair that is not an edge changes nothing. */
  lemma {:induction false} UnlinkAbsent(nodes: set<nat>, adj: AdjacencyMap, a: nat, b: nat)
    requires WellFormed(nodes, adj)
    requires b !in Neighbours(adj, a)
    ensures Unlink(adj, a, b) == adj
  {
    var r := Unlink(adj, a, b);
    forall x ensures Neighbours(r, x) == Neighbours(adj, x) {
    }
    SameNeighboursEqual(r, adj);
  }

  /** On two registered vertices that were not adjacent, `removeEdge` after
      `addEdge` restores both adjacency sets, and so the whole graph. */
  lemma {:induction false} UnlinkUndoesLink(nodes: set<nat>, adj: AdjacencyMap, a: nat, b: nat)
    requires WellFormed(nodes, adj) && a in nodes && b in nodes
    requires b !in Neighbours(adj, a)
    ensures Unlink(Link(adj, a, b), a, b) == adj
  {
    var r := Unlink(Link(adj, a, b), a, b);
    forall x ensures Neighbours(r, x) == Neighbours(adj, x) {
    }
    SameNeighboursEqual(r, adj);
  }

  /** Detaching a vertex keeps the graph well formed on the remaining vertices. */
  lemma {:induction false} DetachWellFormed(nodes: set<nat>, adj: AdjacencyMap, v: nat)
    requires WellFormed(nodes, adj)
    ensures WellFormed(nodes - {v}, Detach(adj, v))
  {
    var r := Detach(adj, v);
    forall u, w | u in r && w in r[u] ensures w in nodes - {v} && u in Neighbours(r, w) {
      assert w in Neighbours(r, u) && w != v && w in adj[u];
      assert u in Neighbours(adj, w);
    }
  }
}
