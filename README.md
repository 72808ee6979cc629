# dsagraph: a verified model of the undirected graph

This project models `graph.js`, a small undirected graph. The graph keeps a
set of vertex objects (`nodes`). Each vertex carries its own `adjacent` set.
On top of that it offers vertex and edge mutation, depth-first and
breadth-first traversal, and an unweighted shortest-distance query.

The model is a Dafny class `Graphs.Graph` with two fields:

- `nodes: set<nat>`: the registered vertices, each identified by an integer handle;
- `adjacent: map<nat, set<nat>>`: each vertex's `adjacent` set.

A handle without an entry has no neighbours. `Valid()` is the graph
invariant: every registered vertex has an entry, no edge leaves the vertex
set, and the relation is symmetric. The mutators update both fields in place.
The traversals and the distance query are methods with loops that change nothing.

Every method is proved against a pure specification:

- `Adjacency`: the effect of each mutation on the adjacency map (`Register`,
  `Link`, `Unlink`, `Detach`), with the lemmas that relate them.
- `Walks`: walks, reachability and hop distance. `Distance` is `Finite(hops)`
  or `Infinity`, and `Less` and `Succ` follow JavaScript's `<` and `+ 1` on
  such values. `IsDistance` says a value is the least number of edges of a walk.
- `Seqs`: duplicate-free sequences, `indexOf`, and the two readings of `splice`.
- `Relaxation`: the invariant of the shortest-distance loop and the lemmas
  that it holds from start to end.
- `Scenarios`: three small graphs built through the class: a path, a
  triangle, and a path with an isolated vertex.

`distanceOfShortestPath` does not work as written (see "## Findings" and
"## Left out"). The model is its evidently intended algorithm:

1. Every registered vertex starts at `Infinity` and `start` at 0.
2. Every registered vertex is queued.
3. Each round takes the first queued vertex with the least distance.
4. That vertex leaves the queue, and each neighbour drops to
   `dist[curr] + 1` when that is strictly smaller.

The result is proved to be the least number of edges on a walk from `start`
to `end`, and `Infinity` exactly when `end` is unreachable.

Two behaviours a reader might expect are absent from the code; the model
follows the code in both cases:

- Traversals from an unregistered start vertex might be expected to fail.
  The code has no such check. In a graph whose edges join registered
  vertices, a traversal from an unregistered `start` returns `[start]`, and
  its distance to `start` itself is 0.
- The distance might be expected to come from walking the `previous` links
  back from `end`. The code returns `dist[end]`, and `previous` is kept only
  as ghost state.

## Model

| member | source | states |
|---|---|---|
| Graphs.Graph.constructor | graph.js:14-16 | A new graph has no vertices and no adjacency entries, and satisfies the graph invariant. |
| Adjacency.Register | graph.js:19-21 | Registering a vertex adds its entry and changes no vertex's neighbours; an existing entry is kept as it is. |
| Adjacency.RegisterWellFormed | graph.js:19-21 | Registering a vertex keeps the graph invariant, with the vertex added to `nodes`. |
| Adjacency.RegisterIdempotent | graph.js:19-21 | Registering the same vertex twice has the effect of registering it once. |
| Graphs.Graph.AddVertex | graph.js:19-21 | `nodes` gains `v`; the adjacency is `Register(old, v)`, so no adjacent set changes; the invariant is kept. |
| Graphs.Graph.AddVertices | graph.js:24-28 | `nodes` gains exactly the elements of the array; no adjacent set changes; the invariant is kept. |
| Adjacency.Insert | graph.js:32 | `u.adjacent.add(w)`: `u`'s neighbours gain `w`; no other vertex's neighbours change. |
| Adjacency.Link | graph.js:31-34 | After `addEdge(a, b)`: `b` is adjacent to `a` and `a` to `b`; other vertices are unchanged; nothing is lost; the only new pairs are `(a, b)` and `(b, a)`. |
| Adjacency.LinkExact | graph.js:31-34 | Each vertex's neighbours after `addEdge(a, b)` are its old neighbours, plus `b` for `a` and `a` for `b`. |
| Adjacency.LinkWellFormed | graph.js:31-34 | An edge between two registered vertices keeps the graph invariant, symmetry included. |
| Adjacency.LinkIdempotent | graph.js:31-34 | Adding the same edge twice has the effect of adding it once. |
| Graphs.Graph.AddEdge | graph.js:31-34 | The adjacency becomes `Link(old, v1, v2)` and `nodes` is unchanged; the graph stays well formed exactly when both endpoints are registered. |
| Adjacency.Delete | graph.js:38 | `u.adjacent.delete(w)`: `u`'s neighbours lose `w`; no entry is created and no other vertex changes. |
| Adjacency.Unlink | graph.js:37-40 | After `removeEdge(a, b)`: neither endpoint lists the other; other vertices are unchanged; the only lost pairs are `(a, b)` and `(b, a)`. |
| Adjacency.UnlinkWellFormed | graph.js:37-40 | Removing an edge keeps the graph invariant. |
| Adjacency.UnlinkAbsent | graph.js:37-40 | Removing an edge that does not exist changes nothing. |
| Adjacency.UnlinkUndoesLink | graph.js:31-40 | For two registered vertices that were not adjacent, `removeEdge` after `addEdge` gives back the original adjacency. |
| Graphs.Graph.RemoveEdge | graph.js:37-40 | The adjacency becomes `Unlink(old, v1, v2)`; `nodes` is unchanged; the invariant is kept, also for unregistered or non-adjacent vertices. |
| Adjacency.Detach | graph.js:47-52 | After `removeVertex(v)`: `v` has no entry and no neighbours; every other vertex keeps its neighbours except `v`. |
| Adjacency.DetachWellFormed | graph.js:47-52 | Detaching a vertex keeps the graph invariant on the remaining vertices. |
| Graphs.Graph.RemoveVertex | graph.js:47-52 | The per-neighbour `removeEdge` loop leaves exactly `Detach(old, vertex)`: `vertex` leaves `nodes`; no remaining vertex lists it; every other edge is untouched. |
| Graphs.Graph.MarkNeighbours | graph.js:67-72 | The inner loop of both traversals pushes each unvisited neighbour exactly once and marks all neighbours visited. |
| Graphs.Graph.ExploredAfterRound | graph.js:61-75 | One round keeps the traversal invariant. Visited is emitted plus waiting; neither holds a duplicate, so the worklist never does. Everything visited is reachable, and every neighbour of an emitted vertex is visited. |
| Graphs.Graph.TraversalComplete | graph.js:61-77 | With an empty worklist, the output holds exactly the vertices reachable from `start`, and is as long as the reachable set is large. |
| Graphs.Graph.DepthFirstSearch | graph.js:55-78 | The result starts with `start`, has no duplicate, holds exactly the vertices reachable from `start`, and has the size of the reachable set. |
| Graphs.Graph.FifoStart | graph.js:84-85 | The FIFO loop starts in its invariant with `[start]` waiting and `{start}` visited. |
| Graphs.Graph.FifoRound | graph.js:87-101 | A `shift` round keeps the traversal invariant and the level structure, and leaves fewer vertices to emit. |
| Graphs.Graph.NextLevel | graph.js:93-98 | An unvisited neighbour of a vertex at distance `d` is at distance `d + 1`, once everything closer than `d` has been emitted. |
| Graphs.Graph.AddedAtNextLevel | graph.js:93-98 | Every vertex pushed in a round is one level below the vertex just taken. |
| Graphs.Graph.WorklistAfterRound | graph.js:88-98 | After a round the queue is still sorted by distance and spans at most two adjacent levels. |
| Graphs.Graph.OutputAfterRound | graph.js:88-90 | After a round the output is still sorted by distance and no deeper than the head of the queue. |
| Graphs.Graph.CloserAfterRound | graph.js:87-101 | After a round every vertex closer than the head of the queue has been emitted. |
| Graphs.Graph.LevelComplete | graph.js:87-101 | When the queue's head is at level `d + 1`, every vertex within `d` edges has been emitted. |
| Graphs.Graph.BreadthFirstSearch | graph.js:81-104 | The guarantees of DepthFirstSearch hold, and the vertices come out in nondecreasing hop distance from `start`. |
| Walks.DistanceExists | graph.js:106-107 | Every pair of vertices has a distance, finite exactly when the target is reachable. |
| Walks.DistanceUnique | graph.js:106-107 | The distance of a pair is unique. |
| Walks.ShortestDistanceCorrect | graph.js:106-107 | `ShortestDistance` is the least number of edges of a walk, finite exactly for reachable vertices. |
| Walks.ReachesStaysInside | graph.js:111-120 | In a well-formed graph, only registered vertices and `start` itself are reachable from `start`. |
| Walks.Less | graph.js:129 | JavaScript `<` on hop counts and `Infinity`: only a number is below anything, every number is below `Infinity`, and `Infinity < Infinity` is false. The same comparison is used at graph.js:145. |
| Walks.Succ | graph.js:143 | `dist[currNode] + 1`: a number grows by one and `Infinity + 1` stays `Infinity`. |
| Relaxation.DistOf | graph.js:152 | The read `dist[v]` (also at graph.js:129 and 143): the stored value for a vertex with an entry, `Infinity` for one without. |
| Relaxation.DijkstraStart | graph.js:111-120 | With `start` at 0, all else at `Infinity` and every registered vertex queued, the loop invariant holds. |
| Relaxation.Closest | graph.js:124-132 | The linear scan returns a queued vertex whose distance is no larger than any in the queue. It is the first such vertex, because a later one replaces the choice only when strictly closer. |
| Seqs.IndexOf | graph.js:136 | `indexOf` returns the first position of the element, or -1 exactly when it does not occur. |
| Seqs.RemoveAt | graph.js:139 | Removing one position shortens the queue by one and keeps every other element in order. |
| Seqs.RemoveAtDistinct | graph.js:139 | On a duplicate-free queue, removing the selected position removes exactly the selected vertex. |
| Seqs.SpliceFrom | graph.js:139 | `splice(i)` as written keeps only the first `i` elements. |
| Seqs.SpliceFromDropsRest | graph.js:139 | Unless the selected vertex is last, `splice(i)` also drops the vertex after it, which removing one position keeps. |
| Relaxation.Relaxed | graph.js:142-149 | Relaxing the edges of `curr` never raises a distance. A distance changes exactly when the edge from `curr` improves it, and every neighbour ends at most `dist[curr] + 1`. |
| Graphs.Graph.RelaxNeighbours | graph.js:142-149 | The neighbour loop leaves every distance at `Relaxed`, so no distance increases. `previous` records `curr` exactly for the improved neighbours and is unchanged elsewhere. |
| Relaxation.EstimateIsWalk | graph.js:142-149 | Every finite tentative distance is the length of an actual walk from `start`, whose last hop is the one `previous` records. |
| Relaxation.Frontier | graph.js:123-132 | A queued vertex `k` edges from `start` has a queued vertex with tentative distance at most `k` along its walk. |
| Relaxation.SettleClosest | graph.js:124-139 | The queued vertex with the least tentative distance already has its exact distance when it leaves the queue. |
| Relaxation.SettledUnchanged | graph.js:142-149 | Relaxing the edges of a settled vertex lowers no settled vertex. |
| Relaxation.DijkstraRound | graph.js:123-150 | One round keeps the invariant. Settled vertices have exact distances and relaxed edges, `start` stays at 0, and every finite distance has a settled last hop one step closer. |
| Relaxation.DijkstraDone | graph.js:152 | With the queue empty, `dist[end]` is the exact distance of `end`. |
| Graphs.Graph.DistanceOfShortestPath | graph.js:107-153 | The result is the least number of edges of a walk from `start` to `end`, equal to `ShortestDistance`. It is `Infinity` exactly when `end` is unreachable and 0 when `start == end`. |
| Scenarios.PathLevelOrder | graph.js:81-104 | On the path graph, the only output BreadthFirstSearch's guarantees allow is 0, 1, 2, 3. |
| Scenarios.PathScenario | graph.js:81-153 | On a path graph built with `addVertices` and `addEdge`, breadth-first search from 0 returns `[0, 1, 2, 3]` and the distance from 0 to 3 is 3. |
| Scenarios.TriangleScenario | graph.js:107-153 | On a triangle built through the class, the distance from 0 to 2 is 1, not 2. |
| Scenarios.IsolatedScenario | graph.js:107-153 | For a vertex added by `addVertex` with no edges, the distance is `Infinity`. |

## Left out

- Node values: a vertex is its handle. The traversals emit handles where the source pushes `node.value`. Two distinct vertex objects with equal values are not modelled.
- The `adjacent` argument of the `Node` constructor (graph.js:4): adjacency sets are created empty by `addVertex` and filled only through `addEdge`. A vertex created with a set shared with another vertex is not modelled.
- Edges to unregistered vertices, such as `addEdge` before `addVertex`: `AddEdge` states that the graph is then no longer well formed, and every operation requires a well-formed graph. So no later operation on such a graph is modelled, although the source accepts them (a traversal would then also follow edges through unregistered vertices).
- Object identity and aliasing of JavaScript references, and `module.exports` (graph.js:157).
- The iteration order of JavaScript `Set`s: a neighbour or vertex is chosen with `:|`, so only order-independent facts are proved.
- Graphs.Graph.DepthFirstSearch: states no output order beyond `start` first, so the depth-first scenario output `[A, B, C, D]` on a path graph is not proved.
- Floating-point `Infinity` (graph.js:112): a hop count or `Infinity` is the datatype `Distance`.
- `for...in` over a `Set` at graph.js:111 visits no element, so the initialisation loop never runs. That is why the undefined `v` at graph.js:113 never throws. The model loops over the vertices, as `for...of` would.
- Indexing a `Map` with `[]` (graph.js:112, 116, 129, 143-146) turns every vertex object into the same property name. So as written every distance is one shared property, and the function returns 0 for every input. The model keys `dist` by vertex.
- `previous` (graph.js:109, 147) is never read by the source, so it is ghost state that carries the last-hop invariant.
- Graphs.Graph.DistanceOfShortestPath: for an `end` that is neither registered nor `start`, the intended code reads a missing `dist` entry (`undefined`). The model reads a missing entry as `Infinity`, which is also the exact distance there.
- The calls on `this.nodes`, `Set` and arrays are modelled by their effect on sets and sequences, not as library calls.

## Findings

| source | as written | input that shows it | evidently intended | confidence | as-written member | corrected member |
|---|---|---|---|---|---|---|
| graph.js:139 | `nodeQueue.splice(currNodeIdx)` with no delete count removes the selected vertex and every vertex queued after it | queue `[0, 1, 2]` with vertex 0 selected at index 0: `splice(0)` leaves `[]`, so 1 and 2 are never settled or relaxed from | `splice(currNodeIdx, 1)`, removing only the selected vertex | not executed | Seqs.SpliceFrom, Seqs.SpliceFromDropsRest | Seqs.RemoveAt, Seqs.RemoveAtDistinct |
