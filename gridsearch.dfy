/** The searches of Search/search.py over a 2-D maze that stop at the first
    waypoint: breadth-first search and A*. */
module GridSearch {
  import opened Wrappers
  import opened Grid
  import opened Collections
  import opened Errors
  import opened Graph
  import opened PriorityQueue
  import opened BestFirst

  /** What the searches use of a `Maze` object: its open cells, the start,
      the waypoints and `neighbors(row, col)`. */
  datatype Maze = Maze(cells: set<Coord>, start: Coord, waypoints: seq<Coord>, neighbors: Coord -> seq<Coord>)

  /** The start is an open cell, and so is every neighbour of an open cell. */
  ghost predicate ValidMaze(maze: Maze)
  {
    maze.start in maze.cells && ClosedInto(maze.neighbors, maze.cells, maze.cells)
  }

  // ---------------------------------------------------------------------
  // `bfs(maze)`
  // ---------------------------------------------------------------------

  /** The backtracking at the end of `bfs`: the route path to `goal`, found
      while it was still searched for, is a shortest walk to it. */
  method GoalPath(ghost succ: Coord -> seq<Coord>, route: map<Coord, Option<Coord>>, ghost depth: map<Coord, int>,
                  ghost start: Coord, goal: Coord, ghost level: int)
    returns (path: seq<Coord>)
    requires RouteTree(succ, route, depth, start) && goal in route && goal != start && depth[goal] == level + 1
    requires forall w {:trigger IsWalk(succ, w)} :: IsWalk(succ, w) && w[0] == start && w[|w| - 1] != start && w[|w| - 1] == goal
                                                   ==> |w| >= level + 2
    ensures ShortestWalk(succ, path, start, goal) && Distinct(path)
  {
    ghost var states;
    path, states := Backtrack(succ, route, depth, start, goal, c => c);
    assert path == states;
  }

  /** The backtracking at the end of `astar_single`: the route path to
      `goal` is a walk to it from the start that visits no cell twice. */
  method RoutePath(ghost succ: Coord -> seq<Coord>, route: map<Coord, Option<Coord>>, ghost depth: map<Coord, int>,
                   ghost start: Coord, goal: Coord)
    returns (path: seq<Coord>)
    requires RouteTree(succ, route, depth, start) && goal in route
    ensures IsWalk(succ, path) && path[0] == start && path[|path| - 1] == goal && Distinct(path)
  {
    ghost var states;
    path, states := Backtrack(succ, route, depth, start, goal, c => c);
    assert path == states;
  }

  /** `bfs(maze)`: breadth-first search from the start to the first
      waypoint, which is looked for among newly discovered cells. The
      source pops from an empty deque, an `IndexError`, when that waypoint
      is the start or cannot be reached; otherwise the path it returns is a
      shortest walk through the maze, visiting no cell twice. */
  method Bfs(maze: Maze) returns (r: Result<seq<Coord>, Error>)
    requires ValidMaze(maze)
    ensures r.Err? <==> || |maze.waypoints| == 0 || maze.waypoints[0] == maze.start
                        || !Reachable(maze.neighbors, maze.start, maze.waypoints[0])
    ensures r.Err? ==> r.error == IndexError
    ensures r.Ok? ==> ShortestWalk(maze.neighbors, r.value, maze.start, maze.waypoints[0]) && Distinct(r.value)
  {
    if |maze.waypoints| == 0 {
      return Err(IndexError);
    }
    var goal := maze.waypoints[0];
    ghost var succ := maze.neighbors;
    ghost var target := (c: Coord) => c == goal;
    var deck := [maze.start];
    var visited: set<Coord> := {};
    var route: map<Coord, Option<Coord>> := map[maze.start := None];
    var path: seq<Coord> := [];
    var loop := true;
    ghost var depth: map<Coord, int> := map[maze.start := 0];
    ghost var expanded: set<Coord> := {};
    ghost var level := 0;
    BfsBegin(succ, maze.start, maze.cells, target);
    while loop
      invariant BfsWaiting(succ, maze.start, maze.cells, target, deck, visited, route, depth, expanded, level, loop)
      invariant !loop ==> goal in visited && goal != maze.start && ShortestWalk(succ, path, maze.start, goal) && Distinct(path)
      decreases loop, |deck| + |maze.cells| - |route|
    {
      if |deck| == 0 {
        // `deck.popleft()` on an empty deque
        BfsDry(succ, maze.start, maze.cells, target, visited, route, depth, expanded, level);
        return Err(IndexError);
      }
      var node := deck[0];
      BfsNext(succ, maze.start, maze.cells, target, deck, visited, route, depth, expanded, level, loop);
      ghost var size := |deck| - 1 + |maze.cells| - |route|;
      level := depth[node];
      deck := deck[1..];
      visited := visited + {node};
      var neighbors := maze.neighbors(node);
      var i := 0;
      while i < |neighbors|
        invariant BfsExpanding(succ, maze.start, maze.cells, target, node, i, deck, visited, route, depth, expanded,
                               level, loop, size)
        invariant !loop ==> goal in visited && goal != maze.start && ShortestWalk(succ, path, maze.start, goal) && Distinct(path)
      {
        var neighbor := neighbors[i];
        if neighbor !in visited {
          BfsVisit(succ, maze.start, maze.cells, target, node, i, deck, visited, route, depth, expanded, level, loop, size);
          if neighbor == goal {
            BfsHit(succ, maze.start, maze.cells, target, node, i, deck, visited, route, depth, expanded, level, size);
          }
          deck := deck + [neighbor];
          visited := visited + {neighbor};
          route := route[neighbor := Some(node)];
          depth := depth[neighbor := level + 1];
          if neighbor == goal {
            path := GoalPath(succ, route, depth, maze.start, neighbor, level);
            loop := false;
          }
        } else {
          BfsSkip(succ, maze.start, maze.cells, target, node, i, deck, visited, route, depth, expanded, level, loop, size);
        }
        i := i + 1;
      }
      BfsDone(succ, maze.start, maze.cells, target, node, deck, visited, route, depth, expanded, level, loop, size);
      expanded := expanded + {node};
    }
    r := Ok(path);
  }
  // ---------------------------------------------------------------------
  // `astar_single(maze)`
  // ---------------------------------------------------------------------

  /** Python's `<` on the heap entries of `astar_single`: by priority,
      then by coordinate. */
  predicate EntryLess(a: (int, Coord), b: (int, Coord))
  {
    a.0 < b.0 || (a.0 == b.0 && Less(a.1, b.1))
  }

  lemma EntryOrder()
    ensures StrictOrder(EntryLess)
  {
    forall a: (int, Coord), b: (int, Coord), c: (int, Coord) | EntryLess(a, b) && EntryLess(b, c)
      ensures EntryLess(a, c)
    {
      if a.0 == b.0 == c.0 {
        LessTransitive(a.1, b.1, c.1);
      }
    }
  }

  /** The index of the entry `heappop` takes from the heap of
      `astar_single`: no entry is smaller. */
  function Smallest(deck: seq<(int, Coord)>): (idx: nat)
    requires |deck| > 0
    ensures idx < |deck|
    ensures forall e :: e in deck ==> !EntryLess(e, deck[idx])
  {
    EntryOrder();
    MinIndex(deck, EntryLess)
  }

  /** One cell of the inner loop of `astar_single` that has not been
      visited: it is given one more than the distance of `node`, visited,
      routed through `node` and pushed at its distance plus `estimate`, its
      Manhattan distance to the goal; when it is the goal, its route path
      is built and the search stops. Nothing else changes. */
  method VisitSingle(maze: Maze, goal: Coord, node: Coord, i: nat, neighbor: Coord, estimate: int,
                     deck0: seq<(int, Coord)>, visited0: set<Coord>, route0: map<Coord, Option<Coord>>,
                     distance0: map<Coord, int>, path0: seq<Coord>, loop0: bool,
                     ghost expanded: set<Coord>, ghost size: int, ghost found: Coord -> bool, ghost final: Coord -> bool)
    returns (deck: seq<(int, Coord)>, visited: set<Coord>, route: map<Coord, Option<Coord>>,
             distance: map<Coord, int>, path: seq<Coord>, loop: bool)
    requires ClosedBeyond(maze.neighbors, maze.cells, final)
    requires forall c :: found(c) <==> c == goal
    requires PqExpanding(maze.neighbors, maze.start, maze.cells, found, final, node, i, deck0,
                         visited0, route0, distance0, expanded, loop0, size)
    requires i < |maze.neighbors(node)| && neighbor == maze.neighbors(node)[i] && neighbor !in visited0
    requires !loop0 ==> && goal != maze.start && IsWalk(maze.neighbors, path0) && path0[0] == maze.start
                        && path0[|path0| - 1] == goal && Distinct(path0)
    ensures PqExpanding(maze.neighbors, maze.start, maze.cells, found, final, node, i + 1,
                        deck, visited, route, distance, expanded, loop, size)
    ensures !loop ==> && goal != maze.start && IsWalk(maze.neighbors, path) && path[0] == maze.start
                      && path[|path| - 1] == goal && Distinct(path)
    ensures distance == distance0[neighbor := distance0[node] + 1]
    ensures visited == visited0 + {neighbor} && route == route0[neighbor := Some(node)]
    ensures loop == (loop0 && neighbor != goal)
  {
    deck, visited, route, path, loop := deck0, visited0, route0, path0, loop0;
    distance := distance0[neighbor := distance0[node] + 1];
    var priority := distance[neighbor] + estimate;
    PqVisit(maze.neighbors, maze.start, maze.cells, found, final, node, i, deck, visited, route, distance0, expanded,
            loop, size, priority, neighbor);
    visited := visited + {neighbor};
    route := route[neighbor := Some(node)];
    deck := deck + [(priority, neighbor)];
    if neighbor == goal {
      path := RoutePath(maze.neighbors, route, distance, maze.start, neighbor);
      loop := false;
    }
  }

  /** The inner loop of `astar_single`, over `maze.neighbors` of the popped
      cell `node`. */
  method ExpandSingle(maze: Maze, goal: Coord, node: Coord, deck0: seq<(int, Coord)>, visited0: set<Coord>,
                      route0: map<Coord, Option<Coord>>, distance0: map<Coord, int>,
                      ghost expanded: set<Coord>, ghost size: int, ghost found: Coord -> bool, ghost final: Coord -> bool)
    returns (deck: seq<(int, Coord)>, visited: set<Coord>, route: map<Coord, Option<Coord>>,
             distance: map<Coord, int>, path: seq<Coord>, loop: bool)
    requires ClosedBeyond(maze.neighbors, maze.cells, final)
    requires forall c :: found(c) <==> c == goal
    requires PqExpanding(maze.neighbors, maze.start, maze.cells, found, final, node, 0, deck0,
                         visited0, route0, distance0, expanded, true, size)
    ensures PqExpanding(maze.neighbors, maze.start, maze.cells, found, final, node,
                        |maze.neighbors(node)|, deck, visited, route, distance, expanded, loop, size)
    ensures !loop ==> && goal != maze.start && IsWalk(maze.neighbors, path) && path[0] == maze.start
                      && path[|path| - 1] == goal && Distinct(path)
  {
    deck, visited, route, distance, path, loop := deck0, visited0, route0, distance0, [], true;
    var neighbors := maze.neighbors(node);
    var i := 0;
    while i < |neighbors|
      invariant PqExpanding(maze.neighbors, maze.start, maze.cells, found, final, node, i, deck, visited, route, distance,
                            expanded, loop, size)
      invariant !loop ==> && goal != maze.start && IsWalk(maze.neighbors, path) && path[0] == maze.start
                          && path[|path| - 1] == goal && Distinct(path)
    {
      var neighbor := neighbors[i];
      if neighbor !in visited {
        deck, visited, route, distance, path, loop :=
          VisitSingle(maze, goal, node, i, neighbor, ManhattanDistance(neighbor, goal), deck, visited, route, distance,
                      path, loop, expanded, size, found, final);
      } else {
        PqSkip(maze.neighbors, maze.start, maze.cells, found, final, node, i, deck, visited, route, distance, expanded,
               loop, size);
      }
      i := i + 1;
    }
  }

  /** `astar_single(maze)`: A* search from the start to the first waypoint
      under the Manhattan distance, which is looked for among newly
      discovered cells. The source pops from an empty heap, an
      `IndexError`, when that waypoint is the start or cannot be reached,
      and evaluates `maze.waypoints[0]`, also an `IndexError`, before
      anything else; otherwise it returns a walk through the maze from the
      start to the waypoint, visiting no cell twice. */
  method AstarSingle(maze: Maze) returns (r: Result<seq<Coord>, Error>)
    requires ValidMaze(maze)
    ensures r.Err? <==> || |maze.waypoints| == 0 || maze.waypoints[0] == maze.start
                        || !Reachable(maze.neighbors, maze.start, maze.waypoints[0])
    ensures r.Err? ==> r.error == IndexError
    ensures r.Ok? ==> && IsWalk(maze.neighbors, r.value) && r.value[0] == maze.start
                      && r.value[|r.value| - 1] == maze.waypoints[0] && Distinct(r.value)
  {
    if |maze.waypoints| == 0 {
      return Err(IndexError);
    }
    var goal := maze.waypoints[0];
    ghost var succ := maze.neighbors;
    ghost var found, final := (c: Coord) => c == goal, (c: Coord) => false;
    var distance: map<Coord, int> := map[maze.start := 0];
    var deck := [(distance[maze.start] + ManhattanDistance(maze.start, goal), maze.start)];
    var visited: set<Coord> := {};
    var route: map<Coord, Option<Coord>> := map[maze.start := None];
    var path: seq<Coord> := [];
    var loop := true;
    ghost var expanded: set<Coord> := {};
    PqBegin(succ, maze.start, maze.cells, found, final, deck[0].0);
    assert ClosedBeyond(succ, maze.cells, final);
    while loop
      invariant PqWaiting(succ, maze.start, maze.cells, found, final, deck, visited, route, distance, expanded, loop)
      invariant !loop ==> && goal != maze.start && IsWalk(succ, path) && path[0] == maze.start
                          && path[|path| - 1] == goal && Distinct(path)
      decreases loop, |deck| + |maze.cells| - |route|
    {
      if |deck| == 0 {
        // `heappop` on an empty heap
        PqDryFound(succ, maze.start, maze.cells, found, final, visited, route, distance, expanded);
        return Err(IndexError);
      }
      var idx := Smallest(deck);
      var node := deck[idx].1;
      PqNext(succ, maze.start, maze.cells, found, final, deck, visited, route, distance, expanded, loop, idx);
      ghost var size := |deck| - 1 + |maze.cells| - |route|;
      deck, visited, route, distance, path, loop :=
        ExpandSingle(maze, goal, node, Remove(deck, idx), visited + {node}, route, distance, expanded, size, found, final);
      PqDone(succ, maze.start, maze.cells, found, final, node, deck, visited, route, distance, expanded, loop, size);
      expanded := expanded + {node};
    }
    r := Ok(path);
  }
}
