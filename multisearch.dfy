/** `astar_or_fast` of Search/search.py and its two entry points,
    `astar_multiple` (weight 1) and `fast` (weight 10): best-first search
    over (cell, remaining waypoints) states, each pushed at its distance
    plus `weight` times the MST heuristic, until a popped state stands on
    its last remaining waypoint. */
module MultiSearch {
  import opened Wrappers
  import opened Grid
  import opened Collections
  import opened Errors
  import opened Graph
  import opened PriorityQueue
  import opened BestFirst
  import opened Waypoints
  import opened GridSearch
  import H = Heuristic
  import Mst

  /** `path` is a walk through the maze from the start that passes every
      waypoint, as often as it occurs in the list. */
  ghost predicate Collects(maze: Maze, path: seq<Coord>)
  {
    IsWalk(maze.neighbors, path) && path[0] == maze.start && multiset(maze.waypoints) <= multiset(path)
  }

  /** Some walk through the maze collects every waypoint. */
  ghost predicate Completable(maze: Maze)
  {
    exists path {:trigger Collects(maze, path)} :: Collects(maze, path)
  }

  /** A walk that collects every waypoint and ends on one. */
  ghost predicate Tour(maze: Maze, path: seq<Coord>)
  {
    Collects(maze, path) && path[|path| - 1] in maze.waypoints
  }

  /** When no state reachable from the start state is final, no walk
      through the maze collects every waypoint. */
  lemma Uncompletable(maze: Maze)
    requires |maze.waypoints| > 0
    requires forall s {:trigger Reachable(Moves(maze.neighbors), (maze.start, maze.waypoints), s)} ::
               Reachable(Moves(maze.neighbors), (maze.start, maze.waypoints), s) ==> !Final(s)
    ensures !Completable(maze)
  {
    forall path | Collects(maze, path) ensures false {
      CoveringReachesFinal(maze.neighbors, maze.waypoints, path);
    }
  }

  /** Python's `<` on the heap entries of `astar_or_fast`: by priority,
      then by cell, then by the tuple of remaining waypoints. */
  predicate StateEntryLess(a: (int, State), b: (int, State))
  {
    || a.0 < b.0
    || (a.0 == b.0 && Less(a.1.0, b.1.0))
    || (a.0 == b.0 && a.1.0 == b.1.0 && SeqLess(a.1.1, b.1.1))
  }

  lemma StateEntryOrder()
    ensures StrictOrder(StateEntryLess)
  {
    forall a: (int, State) ensures !StateEntryLess(a, a) {
      LessTrichotomy(a.1.0, a.1.0);
      SeqLessIrreflexive(a.1.1);
    }
    forall a: (int, State), b: (int, State), c: (int, State) | StateEntryLess(a, b) && StateEntryLess(b, c)
      ensures StateEntryLess(a, c)
    {
      if a.0 == b.0 == c.0 {
        LessTrichotomy(a.1.0, b.1.0);
        LessTrichotomy(b.1.0, c.1.0);
        if Less(a.1.0, b.1.0) && Less(b.1.0, c.1.0) {
          LessTransitive(a.1.0, b.1.0, c.1.0);
        } else if a.1.0 == b.1.0 == c.1.0 {
          SeqLessTransitive(a.1.1, b.1.1, c.1.1);
        }
      }
    }
  }

  /** The index of the entry `heappop` takes from the heap of
      `astar_or_fast`: no entry is smaller. */
  function SmallestState(deck: seq<(int, State)>): (idx: nat)
    requires |deck| > 0
    ensures idx < |deck|
    ensures forall e :: e in deck ==> !StateEntryLess(e, deck[idx])
  {
    StateEntryOrder();
    MinIndex(deck, StateEntryLess)
  }

  /** The priority of a state at distance `g` with heuristic `h`: the
      distance itself at a goal, and never below it when the heuristic and
      the weight are not negative. */
  function Priority(g: int, h: int, weight: int): (p: int)
    ensures h == 0 ==> p == g
    ensures 0 <= h && 0 <= weight ==> g <= p
  {
    g + h * weight
  }

  /** `est` gives the heuristic of every state whose waypoints are not
      exhausted. */
  ghost predicate Estimates(est: State -> int)
  {
    forall s: State {:trigger est(s)} :: |s.1| > 0 ==> est(s) == H.Estimate(s.0, s.1)
  }

  /** Every entry of the heap was pushed at its state's distance plus
      `weight` times the heuristic `est` of the state. */
  ghost predicate Priced(deck: seq<(int, State)>, distance: map<State, int>, weight: int, est: State -> int)
  {
    forall k :: 0 <= k < |deck| ==>
      && deck[k].1 in distance && |deck[k].1.1| > 0
      && deck[k].0 == Priority(distance[deck[k].1], est(deck[k].1), weight)
  }

  /** The heap `astar_or_fast` starts from, holding the start state at
      distance 0, is priced. */
  lemma PricedStart(state: State, weight: int, est: State -> int, h: int)
    requires |state.1| > 0 && h == est(state)
    ensures Priced([(Priority(0, h, weight), state)], map[state := 0], weight, est)
  {
    var deck := [(Priority(0, h, weight), state)];
    assert deck[0].1 == state;
  }

  /** On a priced heap the entry `heappop` takes is one whose state has the
      smallest distance plus `weight` times heuristic: the search is best
      first in that sum. */
  lemma {:induction false} PoppedFirst(deck: seq<(int, State)>, distance: map<State, int>, weight: int,
                                       est: State -> int)
    requires Priced(deck, distance, weight, est) && |deck| > 0
    ensures var e := deck[SmallestState(deck)].1;
            forall k :: 0 <= k < |deck| ==>
              Priority(distance[e], est(e), weight) <= Priority(distance[deck[k].1], est(deck[k].1), weight)
  {
    var idx := SmallestState(deck);
    forall k | 0 <= k < |deck|
      ensures deck[idx].0 <= deck[k].0
    {
      assert deck[k] in deck;
    }
  }

  /** Popping an entry keeps the others priced. */
  lemma PricedRemove(deck: seq<(int, State)>, distance: map<State, int>, weight: int, est: State -> int, idx: nat)
    requires Priced(deck, distance, weight, est) && idx < |deck|
    ensures Priced(Remove(deck, idx), distance, weight, est)
  {
    var rest := Remove(deck, idx);
    forall k | 0 <= k < |rest|
      ensures && rest[k].1 in distance && |rest[k].1.1| > 0
              && rest[k].0 == Priority(distance[rest[k].1], est(rest[k].1), weight)
    {
      if k < idx {
        assert rest[k] == deck[k];
      } else {
        assert rest[k] == deck[k + 1];
      }
    }
  }

  /** Pushing a newly discovered state at its distance plus `weight` times
      its heuristic keeps the heap priced. */
  lemma PricedPush(deck: seq<(int, State)>, distance: map<State, int>, weight: int, est: State -> int, y: State,
                    d: int)
    requires Priced(deck, distance, weight, est) && y !in distance && |y.1| > 0
    ensures Priced(deck + [(Priority(d, est(y), weight), y)], distance[y := d], weight, est)
  {
    var deck' := deck + [(Priority(d, est(y), weight), y)];
    forall k | 0 <= k < |deck'|
      ensures && deck'[k].1 in distance[y := d] && |deck'[k].1.1| > 0
              && deck'[k].0 == Priority(distance[y := d][deck'[k].1], est(deck'[k].1), weight)
    {
      if k < |deck| {
        assert deck'[k] == deck[k];
      }
    }
  }

  /** Pushing a state not visited yet at its priority keeps the heap
      priced. */
  lemma PricedDiscover(succ: State -> seq<State>, universe: set<State>, start: State, weight: int, est: State -> int,
                       node: State,
                       i: nat, neighbor: State, neighborDistance: int, priority: int,
                       deck0: seq<(int, State)>, visited0: set<State>, route0: map<State, Option<State>>,
                       distance0: map<State, int>,
                       expanded: set<State>, size: int, found: State -> bool, final: State -> bool)
    requires PqExpanding(succ, start, universe, found, final, node, i, deck0, visited0, route0, distance0, expanded,
                         true, size)
    requires neighbor !in visited0 && |neighbor.1| > 0
    requires priority == Priority(neighborDistance, est(neighbor), weight)
    requires Priced(deck0, distance0, weight, est)
    ensures Priced(deck0 + [(priority, neighbor)], distance0[neighbor := neighborDistance], weight, est)
  {
    PqUnseen(succ, start, universe, found, final, node, i, deck0, visited0, route0, distance0, expanded, true, size,
             neighbor);
    PricedPush(deck0, distance0, weight, est, neighbor, neighborDistance);
  }

  /** One state of the inner loop of `astar_or_fast` that has not been
      visited: it is visited, given the distance `neighborDistance`, pushed
      at that distance plus `weight` times its heuristic, and routed through
      `node`. Its waypoints are not exhausted, so the heuristic exists. */
  method VisitState(ghost succ: State -> seq<State>, ghost universe: set<State>, ghost start: State,
                    weight: int, ghost est: State -> int, cache: H.WeightCache, node: State, i: nat, neighbor: State,
                    neighborDistance: int,
                    deck0: seq<(int, State)>, visited0: set<State>, route0: map<State, Option<State>>,
                    distance0: map<State, int>,
                    ghost expanded: set<State>, ghost size: int, ghost found: State -> bool, ghost final: State -> bool)
    returns (deck: seq<(int, State)>, visited: set<State>, route: map<State, Option<State>>, distance: map<State, int>)
    requires cache.Valid()
    modifies cache
    requires ClosedBeyond(succ, universe, final)
    requires forall s :: !found(s)
    requires PqExpanding(succ, start, universe, found, final, node, i, deck0, visited0, route0, distance0, expanded,
                         true, size)
    requires i < |succ(node)| && neighbor == succ(node)[i] && neighbor !in visited0 && |neighbor.1| > 0
    requires neighborDistance == distance0[node] + 1
    requires est(neighbor) == H.Estimate(neighbor.0, neighbor.1)
    ensures cache.Valid() && cache.weights == old(cache.weights)[neighbor.1 := Mst.MstWeight(neighbor.1)]
    ensures PqExpanding(succ, start, universe, found, final, node, i + 1, deck, visited, route, distance, expanded,
                        true, size)
    ensures deck == deck0 + [(Priority(neighborDistance, est(neighbor), weight), neighbor)]
    ensures visited == visited0 + {neighbor} && route == route0[neighbor := Some(node)]
    ensures distance == distance0[neighbor := neighborDistance]
  {
    var h := H.Heuristic(neighbor.0, neighbor.1, cache);
    assert h.Ok? && h.value == est(neighbor);
    var priority := Priority(neighborDistance, h.value, weight);
    PqVisit(succ, start, universe, found, final, node, i, deck0, visited0, route0, distance0, expanded, true, size,
            priority, neighbor);
    deck := deck0 + [(priority, neighbor)];
    visited := visited0 + {neighbor};
    route := route0[neighbor := Some(node)];
    distance := distance0[neighbor := neighborDistance];
  }

  /** Storing the same weight again leaves the cache as after the first
      store. */
  lemma CacheStored(start: map<seq<Coord>, int>, before: map<seq<Coord>, int>, after: map<seq<Coord>, int>,
                    key: seq<Coord>, weight: int)
    requires before == start || before == start[key := weight]
    requires after == before[key := weight]
    ensures after == start[key := weight]
  {
  }

  /** The inner loop of `astar_or_fast`, over `maze.neighbors` of the cell
      of the popped state `node`, each paired with `neighborVisited`. */
  method ExpandState(maze: Maze, weight: int, ghost est: State -> int, cache: H.WeightCache, node: State, neighborVisited: seq<Coord>,
                     deck0: seq<(int, State)>, visited0: set<State>, route0: map<State, Option<State>>,
                     distance0: map<State, int>,
                     ghost succ: State -> seq<State>, ghost universe: set<State>, ghost expanded: set<State>,
                     ghost size: int, ghost found: State -> bool, ghost final: State -> bool)
    returns (deck: seq<(int, State)>, visited: set<State>, route: map<State, Option<State>>, distance: map<State, int>)
    requires cache.Valid()
    modifies cache
    requires succ == Moves(maze.neighbors)
    requires ClosedBeyond(succ, universe, final)
    requires forall s :: !found(s)
    requires neighborVisited == Shrink(node.1, node.0) && |neighborVisited| > 0
    requires PqExpanding(succ, (maze.start, maze.waypoints), universe, found, final, node, 0, deck0, visited0, route0,
                         distance0, expanded, true, size)
    requires Estimates(est) && Priced(deck0, distance0, weight, est)
    ensures cache.Valid()
    ensures cache.weights == old(cache.weights)
         || cache.weights == old(cache.weights)[neighborVisited := Mst.MstWeight(neighborVisited)]
    ensures PqExpanding(succ, (maze.start, maze.waypoints), universe, found, final, node, |succ(node)|,
                        deck, visited, route, distance, expanded, true, size)
    ensures Priced(deck, distance, weight, est)
  {
    deck, visited, route, distance := deck0, visited0, route0, distance0;
    var neighbors := maze.neighbors(node.0);
    assert |succ(node)| == |neighbors|;
    var i := 0;
    while i < |neighbors|
      invariant cache.Valid()
      invariant cache.weights == old(cache.weights)
             || cache.weights == old(cache.weights)[neighborVisited := Mst.MstWeight(neighborVisited)]
      invariant PqExpanding(succ, (maze.start, maze.waypoints), universe, found, final, node, i,
                            deck, visited, route, distance, expanded, true, size)
      invariant Priced(deck, distance, weight, est)
    {
      var neighborDistance := distance[node] + 1;
      var neighbor := (neighbors[i], neighborVisited);
      assert neighbor == succ(node)[i];
      if neighbor !in visited {
        ghost var before := cache.weights;
        PricedDiscover(succ, universe, (maze.start, maze.waypoints), weight, est, node, i, neighbor, neighborDistance,
                       Priority(neighborDistance, est(neighbor), weight), deck, visited, route, distance, expanded, size,
                       found, final);
        deck, visited, route, distance :=
          VisitState(succ, universe, (maze.start, maze.waypoints), weight, est, cache, node, i, neighbor, neighborDistance,
                     deck, visited, route, distance, expanded, size, found, final);
        CacheStored(old(cache.weights), before, cache.weights, neighborVisited, Mst.MstWeight(neighborVisited));
      } else {
        PqSkip(succ, (maze.start, maze.waypoints), universe, found, final, node, i, deck, visited, route, distance,
               expanded, true, size);
      }
      i := i + 1;
    }
  }

  /** The backtracking at the end of `astar_or_fast`: the cells of the
      route from the start state to a final state make a tour of the maze. */
  method TourPath(maze: Maze, route: map<State, Option<State>>, ghost distance: map<State, int>, goal: State)
    returns (path: seq<Coord>)
    requires RouteTree(Moves(maze.neighbors), route, distance, (maze.start, maze.waypoints))
    requires goal in route && Final(goal)
    ensures Tour(maze, path)
  {
    ghost var states;
    path, states := Backtrack(Moves(maze.neighbors), route, distance, (maze.start, maze.waypoints), goal,
                              (s: State) => s.0);
    Toured(maze.neighbors, maze.waypoints, states, path);
  }

  /** `astar_or_fast(maze, weight)`. With no waypoints the first heuristic
      raises `ValueError`; when no walk through the maze collects every
      waypoint, each as often as it is listed, the heap runs dry, an
      `IndexError`; otherwise the path it returns is such a walk, and it
      ends on a waypoint. */
  method AstarOrFast(maze: Maze, weight: int) returns (r: Result<seq<Coord>, Error>)
    requires ValidMaze(maze)
    ensures r.Err? <==> |maze.waypoints| == 0 || !Completable(maze)
    ensures r.Err? ==> (r.error == ValueError <==> |maze.waypoints| == 0)
    ensures r.Err? ==> r.error == ValueError || r.error == IndexError
    ensures r.Ok? ==> Tour(maze, r.value)
  {
    var cache := new H.WeightCache();
    var state := (maze.start, maze.waypoints);
    var h := H.Heuristic(state.0, state.1, cache);
    if h.Err? {
      return Err(h.error);
    }
    var distance: map<State, int> := map[state := 0];
    var deck := [(Priority(0, h.value, weight), state)];
    var visited: set<State> := {};
    var route: map<State, Option<State>> := map[state := None];
    ghost var succ := Moves(maze.neighbors);
    ghost var universe := Universe(maze.cells, maze.waypoints);
    ghost var found, final := (s: State) => false, Final;
    ghost var expanded: set<State> := {};
    ghost var est := (s: State) => if |s.1| > 0 then H.Estimate(s.0, s.1) else 0;
    StartInUniverse(maze.cells, maze.start, maze.waypoints);
    UniverseClosed(maze.neighbors, maze.cells, maze.waypoints);
    PqBegin(succ, state, universe, found, final, deck[0].0);
    assert h.value == est(state);
    PricedStart(state, weight, est, h.value);
    while true
      invariant fresh(cache) && cache.Valid()
      invariant PqWaiting(succ, state, universe, found, final, deck, visited, route, distance, expanded, true)
      invariant Priced(deck, distance, weight, est)
      decreases |deck| + |universe| - |route|
    {
      if |deck| == 0 {
        // `heappop` on an empty heap
        PqDryFinal(succ, state, universe, found, final, visited, route, distance, expanded, true);
        Uncompletable(maze);
        return Err(IndexError);
      }
      var idx := SmallestState(deck);
      var nodeState := deck[idx].1;
      ghost var deck0, visited0 := deck, visited;
      PricedRemove(deck, distance, weight, est, idx);
      deck := Remove(deck, idx);
      var node, nodeVisited := nodeState.0, nodeState.1;
      visited := visited + {nodeState};
      if |nodeVisited| == 1 && node in nodeVisited {
        PqFinal(succ, state, universe, found, final, deck0, visited0, route, distance, expanded, true, idx);
        var path := TourPath(maze, route, distance, nodeState);
        return Ok(path);
      }
      PqNext(succ, state, universe, found, final, deck0, visited0, route, distance, expanded, true, idx);
      assert |nodeVisited| > 0;
      var neighborVisited := Shrink(nodeVisited, node);
      ShrinkNonEmpty(nodeVisited, node);
      ghost var size := |deck| + |universe| - |route|;
      deck, visited, route, distance :=
        ExpandState(maze, weight, est, cache, nodeState, neighborVisited, deck, visited, route, distance,
                    succ, universe, expanded, size, found, final);
      PqDone(succ, state, universe, found, final, nodeState, deck, visited, route, distance, expanded, true, size);
      expanded := expanded + {nodeState};
    }
  }

  /** `astar_multiple(maze)`: A* over the states, the heuristic at weight 1. */
  method AstarMultiple(maze: Maze) returns (r: Result<seq<Coord>, Error>)
    requires ValidMaze(maze)
    ensures r.Err? <==> |maze.waypoints| == 0 || !Completable(maze)
    ensures r.Err? ==> (r.error == ValueError <==> |maze.waypoints| == 0)
    ensures r.Err? ==> r.error == ValueError || r.error == IndexError
    ensures r.Ok? ==> Tour(maze, r.value)
  {
    r := AstarOrFast(maze, 1);
  }

  /** `fast(maze)`: the same search with the heuristic weighted by 10,
      which gives up optimality for speed. */
  method Fast(maze: Maze) returns (r: Result<seq<Coord>, Error>)
    requires ValidMaze(maze)
    ensures r.Err? <==> |maze.waypoints| == 0 || !Completable(maze)
    ensures r.Err? ==> (r.error == ValueError <==> |maze.waypoints| == 0)
    ensures r.Err? ==> r.error == ValueError || r.error == IndexError
    ensures r.Ok? ==> Tour(maze, r.value)
  {
    r := AstarOrFast(maze, 10);
  }
}
