# Maze search with an MST heuristic, in Dafny

This project models the search code of a course repository. The code finds paths through mazes. There are two files:

- `Search/search.py` searches a 2-D grid maze. It has:
  - `bfs`, breadth-first search to the first waypoint;
  - `astar_single`, A* to the first waypoint under the Manhattan distance;
  - `astar_or_fast`, a best-first search over (cell, remaining waypoints) states that collects every waypoint. `astar_multiple` runs it at weight 1 and `fast` at weight 10.
- `Robotics/search.py` runs a breadth-first search through the configuration space of a robot arm. Its `search` function dispatches on the method's name.

`astar_or_fast` pushes each state at its distance plus `weight` times a heuristic. The heuristic is the Manhattan distance to the nearest remaining waypoint plus the weight of a minimum spanning tree over the remaining waypoints. The class `MST` computes that weight with Kruskal's algorithm. It keeps a union-find in a dictionary, with path compression in `resolve` and linking in `unify`. A dictionary keyed by the waypoint tuple caches the weights. The model proves that weight is a minimum spanning tree's: Kruskal's accepted edges are table edges that connect the waypoints, and no list of table edges that connects them weighs less. The proof counts, for each weight w, the edges of weight at least w on both sides.

## Modules

| module | file | contents |
|---|---|---|
| `Wrappers`, `Errors`, `Collections` | wrappers.dfy, errors.dfy, collections.dfy | `Option`/`Result`; the Python exceptions the code can raise; `Distinct` and cardinality facts |
| `Grid` | grid.dfy | `Coord`, `manhattan_distance`, Python's `<` on coordinates and on tuples of coordinates |
| `Mst` | mst.dfy | the class `MST`, in place over maps, proved against a pure Kruskal specification, and the proof that Kruskal's weight is minimal |
| `Heuristic` | heuristic.dfy | `heuristic` and its cache, as a class `WeightCache` |
| `PriorityQueue` | heap.dfy | `heapq.heappop`: an unordered sequence whose pop takes out a smallest entry |
| `Graph` | graph.dfy | walks and reachability, the `route` tree and its backtracking, breadth-first search invariants |
| `BestFirst` | bestfirst.dfy | the invariants of the heap-driven searches |
| `GridSearch` | gridsearch.dfy | `bfs` and `astar_single` |
| `Waypoints` | waypoints.dfy | the states of `astar_or_fast`, `neighbor_visited`, and the link between state walks and maze walks |
| `MultiSearch` | multisearch.dfy | `astar_or_fast`, `astar_multiple`, `fast` |
| `Robotics` | robotics.dfy | `search` and `bfs` of `Robotics/search.py` |

Behaviours of the code that a reader might not expect, which the model keeps:

- **No waypoints.** `heuristic` takes `min` of an empty list and raises `ValueError`. It does not return 0, and `astar_or_fast` does not return `[start]`.
- **No route.** When no route exists, the searches pop from an empty deque or heap and raise `IndexError`. They do not return "not found". Only the robotics `bfs` returns `None`.
- **Tie-breaking.** Ties in the heap are broken by Python's tuple order on `(priority, state)`, not by insertion order.
- **The final test.** A popped state is final when its cell is its only remaining waypoint (`len(node_visited) == 1 and node in node_visited`). It is not final when its waypoint set is empty.
- **Duplicate waypoints.** The remaining waypoints are a tuple, not a set. Leaving a cell drops its first occurrence only, so a waypoint listed twice must be visited twice.

Each of these error outcomes is a `Result` value of the model, not a precondition.

## Model

| member | source | states |
|---|---|---|
| Grid.ManhattanDistance | Search/search.py:109-110 | the distance is zero exactly when the two cells are equal, and it is at least the row difference and at least the column difference |
| Grid.ManhattanSymmetric | Search/search.py:109-110 | the distance from a to b equals the distance from b to a |
| Grid.ManhattanTriangle | Search/search.py:109-110 | the distance obeys the triangle inequality |
| Grid.LessTrichotomy | Search/search.py:160 | Python's `<` on two coordinates is a strict total order: exactly one of a<b, a==b, b<a holds |
| Grid.LessTransitive | Search/search.py:160 | Python's `<` on coordinates is transitive |
| Grid.SeqLessIrreflexive | Search/search.py:160 | Python's `<` on tuples of coordinates is irreflexive |
| Grid.SeqLessTransitive | Search/search.py:160 | Python's `<` on tuples of coordinates is transitive |
| PriorityQueue.MinIndex | Search/search.py:160 | for a strict order, the popped entry is one that no entry of the heap is smaller than |
| PriorityQueue.Remove | Search/search.py:160 | popping removes exactly that entry: the rest keep their order, and the multiset loses one copy of it |
| Mst.Cross | Search/search.py:73-74 | `cross(keys)` yields exactly the pairs (i, j) of keys with i < j |
| Mst.CrossPairsOnce | Search/search.py:73-74 | for distinct keys, every unordered pair of different keys appears exactly once, in one orientation |
| Mst.DistanceTableSize | Search/search.py:37-40 | `self.distances` has one entry per unordered pair of distinct waypoints: k(k−1)/2 entries for k distinct waypoints |
| Mst.Entries | Search/search.py:45 | the triples handed to `sorted` are exactly the pairs of `self.distances`, each with its distance |
| Mst.MST.constructor | Search/search.py:32-40 | every waypoint is a root; the partition is all singletons; the table is the distance table |
| Mst.MST.Resolve | Search/search.py:51-59 | returns the root of `key`'s class; after the call every element passed on the way points straight at it, the rest are unchanged, and the partition is the same |
| Mst.MST.PointAt | Search/search.py:57-58 | each element of `path` now points at `root`, and every other element keeps its parent |
| Mst.MST.Unify | Search/search.py:63-70 | returns true exactly when `a` and `b` were in different classes; then those two classes are merged and `rb` hangs under `ra`; otherwise the partition is unchanged |
| Mst.MST.Link | Search/search.py:69 | hanging root `rb` under root `ra` merges class `rb` into class `ra` and keeps the union-find valid |
| Mst.CompressKeepsRep | Search/search.py:57-58 | path compression does not change the partition the union-find represents |
| Mst.LinkMergesRep | Search/search.py:69 | linking two roots represents the merged partition |
| Mst.MergeDropsClass | Search/search.py:69 | merging two different classes removes exactly one class |
| Mst.SortEntries | Search/search.py:45 | returns the `(distance, i, j)` entries of the table in sorted order |
| Mst.SortSetSorts | Search/search.py:45 | the sorted list holds exactly the entries, in strictly increasing tuple order |
| Mst.MstWeight | Search/search.py:43-48 | the weight `compute_mst_weight` returns on a fresh `MST` is a minimum spanning tree's: some list of table edges whose walks join every two waypoints (Kruskal's own) weighs exactly this, and no such list weighs less |
| Mst.MST.ComputeMstWeight | Search/search.py:43-48 | the weight is the total distance of the edges Kruskal's algorithm accepts in sorted order, and the final partition is Kruskal's |
| Mst.AcceptedCount | Search/search.py:43-48 | each accepted edge merges two classes: the accepted edges plus the classes left equal the classes at the start |
| Mst.AcceptedFrom | Search/search.py:43-48 | every accepted edge is one of the offered edges |
| Mst.FinalJoinsEdge | Search/search.py:43-48 | after all edges are offered, the two ends of every edge are in one class |
| Mst.KruskalConnects | Search/search.py:43-48 | over all waypoint pairs, every two waypoints end up in one class of the final partition |
| Mst.KruskalSpans | Search/search.py:43-48 | the accepted edges are table edges, and a walk along them joins every two waypoints: they span the waypoints |
| Mst.MstEdgeCount | Search/search.py:43-48 | one edge fewer than there are distinct waypoints is accepted; with `KruskalSpans`, these edges form a spanning tree |
| Mst.MstWeightZero | Search/search.py:43-48 | the MST weight is zero exactly when there is at most one distinct waypoint |
| Heuristic.Min | Search/search.py:203 | `min` of a non-empty list is an element of it and no larger than any element |
| Heuristic.DistanceList | Search/search.py:200-202 | the loop builds the list of Manhattan distances from the position to each waypoint, in order |
| Heuristic.MstWeightOf | Search/search.py:207-208 | `MST(waypoints).compute_mst_weight()` is the MST weight of the waypoints |
| Heuristic.Estimate | Search/search.py:199-209 | the value of `heuristic` is some waypoint's distance plus the MST weight, and no more than any waypoint's distance plus it; so it is never below the MST weight, which is at least 0 |
| Heuristic.EstimateZero | Search/search.py:199-209 | the heuristic is zero exactly when every remaining waypoint is the current cell |
| Heuristic.WeightCache.constructor | Search/search.py:148 | the cache starts empty |
| Heuristic.Heuristic | Search/search.py:199-209 | `ValueError` exactly when no waypoint remains, with the cache unchanged; otherwise nearest distance plus MST weight, the same whether the weight was cached or not; the cache then maps the tuple to its MST weight and stays correct |
| Graph.Backtrack | Search/search.py:164-170 | the path rebuilt from `route` is a walk from the start to the goal, one state per depth, each entry routed from the one before it, with no state twice |
| Graph.BacktrackDistinct | Search/search.py:100-104 | a route path visits each state once |
| Graph.SearchExhausted | Search/search.py:91-92 | once the frontier is empty, every state reachable from the start has been discovered |
| Graph.BfsBeyond | Search/search.py:94-98 | while a cell at depth `level` is expanded, every walk to an undiscovered cell has more than `level` steps, so a cell discovered now is at the end of a shortest walk |
| BestFirst.PqNext | Search/search.py:129-130 | popping a heap entry and marking it visited starts its expansion with the search invariant intact |
| BestFirst.PqVisit | Search/search.py:132-136 | discovering an unvisited neighbour, with its distance, route and heap entry, keeps the search invariant |
| BestFirst.PqDone | Search/search.py:131-143 | after all neighbours are examined, the popped state is expanded and the invariant holds before the next pop |
| BestFirst.PqDryFinal | Search/search.py:160 | when the heap runs dry, no state reachable from the start passes the final test |
| BestFirst.PqDryFound | Search/search.py:129 | when the heap runs dry with nothing found, no reachable state other than the start is the goal |
| GridSearch.GoalPath | Search/search.py:100-104 | the route path to the waypoint is a shortest walk to it, with no cell twice |
| GridSearch.Bfs | Search/search.py:77-106 | `IndexError` exactly when there is no waypoint, the first waypoint is the start, or it cannot be reached; otherwise a shortest walk from the start to the first waypoint, with no cell twice |
| GridSearch.EntryOrder | Search/search.py:129 | Python's order on `(priority, cell)` heap entries is a strict order |
| GridSearch.Smallest | Search/search.py:129 | `heappop` takes an entry that no entry is smaller than |
| GridSearch.RoutePath | Search/search.py:137-142 | the route path to the goal is a walk from the start to it, with no cell twice |
| GridSearch.VisitSingle | Search/search.py:132-143 | a newly discovered cell gets one more than the distance of the cell it was found from, joins the visited set and is routed through that cell; no other entry of the distance, route or visited maps changes; the loop flag is cleared when the cell is the goal and otherwise kept, and then the path built is a walk from the start to it with no cell twice; the search invariant is kept |
| GridSearch.ExpandSingle | Search/search.py:131-143 | the loop over neighbours keeps the search invariant, and a stop is backed by such a path |
| GridSearch.AstarSingle | Search/search.py:113-144 | `IndexError` exactly when there is no waypoint, the first waypoint is the start, or it cannot be reached; otherwise a walk from the start to the first waypoint, with no cell twice |
| Waypoints.Final | Search/search.py:164 | a state is final exactly when its remaining waypoints are the one-element tuple of its cell |
| Waypoints.MovesFrom | Search/search.py:171-183 | a move from a state goes to a neighbour of its cell with the waypoints left once the cell is left, and every such state is a move |
| Waypoints.FirstIndex | Search/search.py:172 | `w.index(c)` is the position of the first occurrence of `c` |
| Waypoints.Shrink | Search/search.py:171-174 | `neighbor_visited` loses exactly one copy of the cell if present, and is the same tuple otherwise |
| Waypoints.ShrinkMultiset | Search/search.py:171-174 | as multisets, `neighbor_visited` is the remaining waypoints minus one copy of the cell |
| Waypoints.ShrinkNonEmpty | Search/search.py:164-174 | leaving a cell that is not the last remaining waypoint leaves a waypoint to collect |
| Waypoints.SubseqsShrink | Search/search.py:171-174 | the remaining waypoints stay a subsequence of the original waypoints |
| Waypoints.UniverseClosed | Search/search.py:175-183 | from a non-final state the search only reaches states whose cell is open and whose remaining waypoints are a non-empty subsequence: finitely many, so the search ends |
| Waypoints.WalkConsumes | Search/search.py:171-174 | along a walk of states, each state's remaining waypoints are the previous state's less one copy of the cell it left |
| Waypoints.Remaining | Search/search.py:171-174 | along states that consume their cells that way, the last state's remaining waypoints are the original ones minus the cells left so far, counted with multiplicity |
| Waypoints.Toured | Search/search.py:164-170 | the cells of a state walk ending in a final state form a maze walk that ends on a waypoint and passes every waypoint as often as it is listed |
| Waypoints.AlongWalk | Search/search.py:175-183 | the states along a maze walk form a walk of the state graph |
| Waypoints.CoveringReachesFinal | Search/search.py:164 | a maze walk that passes every waypoint as often as it is listed leads the state graph to a final state |
| MultiSearch.Uncompletable | Search/search.py:160 | if no reachable state is final, no maze walk collects every waypoint |
| MultiSearch.StateEntryOrder | Search/search.py:160 | Python's order on `(priority, (cell, waypoints))` heap entries is a strict order |
| MultiSearch.SmallestState | Search/search.py:160 | `heappop` takes an entry that no entry is smaller than |
| MultiSearch.Priority | Search/search.py:182 | the priority of a state is its distance at a goal, where the heuristic is 0, and never below its distance when the heuristic and the weight are not negative |
| MultiSearch.PricedStart | Search/search.py:150-154 | the first entry is pushed at distance 0 plus `weight` times the heuristic of the start state |
| MultiSearch.PricedRemove | Search/search.py:160 | popping keeps every other entry at its state's distance plus `weight` times its heuristic |
| MultiSearch.PricedPush | Search/search.py:178-182 | pushing an undiscovered state at its distance plus `weight` times its heuristic keeps the heap priced |
| MultiSearch.PoppedFirst | Search/search.py:160 | on a priced heap the popped state has the smallest distance plus `weight` times heuristic: the search is best-first |
| MultiSearch.VisitState | Search/search.py:177-183 | an undiscovered neighbour is visited, given its distance, routed through the popped state and pushed at distance plus `weight` times its heuristic; the cache gains its remaining waypoints with their MST weight; the search invariant holds |
| MultiSearch.ExpandState | Search/search.py:175-183 | the loop over neighbours keeps the search invariant and keeps every heap entry priced; the cache is unchanged or gains the remaining waypoints of the neighbours with their MST weight |
| MultiSearch.TourPath | Search/search.py:164-170 | the cells of the route to a final state form a walk from the start that passes every waypoint as often as listed and ends on one |
| MultiSearch.AstarOrFast | Search/search.py:147-184 | the result is an error exactly when there is no waypoint or no maze walk collects them all: `ValueError` in the first case, `IndexError` in the second; otherwise a walk from the start that passes every waypoint as often as listed and ends on one |
| MultiSearch.AstarMultiple | Search/search.py:187-196 | the same outcome as `astar_or_fast`, at weight 1 |
| MultiSearch.Fast | Search/search.py:212-220 | the same outcome as `astar_or_fast`, at weight 10 |
| Robotics.ObjectivePath | Robotics/search.py:54-60 | the route path to the objective found is a shortest walk to an objective, with no configuration twice |
| Robotics.ExpandConfig | Robotics/search.py:49-60 | the loop over neighbours keeps the breadth-first invariant, or stops with a shortest path to an objective |
| Robotics.Bfs | Robotics/search.py:31-61 | `None` exactly when no objective other than the start can be reached; otherwise a shortest walk from the start to an objective, with no configuration twice |
| Robotics.Search | Robotics/search.py:25-28 | `TypeError` exactly when the method name is not `"bfs"`; otherwise `None` exactly when no objective other than the start can be reached, and else a shortest walk to an objective with no configuration twice, as `bfs` promises |

## Left out

- Maze input and the `Maze` class are not part of this model. A maze is a value: its open cells, the start, the waypoints and a `neighbors` function. `neighbors` must stay inside the open cells.
- The robot arm's geometry, transforms and configuration-space construction are not part of this model. An arm maze is a set of configurations, a start, `getNeighbors` and `isObjective`, with `ispart1` fixed at its default.
- Python's `heapq` layout is not modelled. The heap is a sequence, and popping removes a smallest entry under Python's tuple order. This is what `heappop` returns, whatever the heap's internal arrangement.
- `deque` path building is modelled as prepending along `route`, which gives the same sequence.
- Optimality of `astar_or_fast` and `astar_single` is not claimed. The model does not prove the heuristic admissible or consistent, so it does not claim that the tour or the path found is shortest. `fast` weights the heuristic by 10 and gives up shortness on purpose.
- GridSearch.VisitSingle: does not state the heap after the push: the new entry and its priority (distance plus Manhattan distance to the goal). The body pushes it as the source does, but an equality on the new heap made the proof too costly for the solver. The invariant it keeps still says that every cell on the heap has been discovered, and every discovered cell is on the heap, expanded, or being expanded.
- Robotics.Search: states every guarantee of `Robotics.Bfs` (`None` exactly when unreachable, otherwise a shortest walk with no configuration twice) rather than equality with its result, because `Robotics.Bfs` is a method.
- The `(result, weight_dictionary)` pair that `heuristic` returns is the return value plus the cache object, which the method changes in place. The source computes the MST twice on a cache miss; the model does too, and proves both values equal.
- Running time, memory, and the number of states explored are not modelled.
