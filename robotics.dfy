/** The search of Robotics/search.py: breadth-first search through the
    configuration space of a robot arm, a maze whose cells are
    `(alpha, beta, gamma)` joint configurations, to the nearest
    configuration that `isObjective` accepts. */
module Robotics {
  import opened Wrappers
  import opened Collections
  import opened Errors
  import opened Graph

  /** `(alpha, beta, gamma)` */
  type Config = (int, int, int)

  /** What the search uses of the arm's `Maze` object: its free
      configurations, `getStart()`, and `getNeighbors` and `isObjective`
      with `ispart1` left at its default. */
  datatype ArmMaze = ArmMaze(cells: set<Config>, start: Config, neighbors: Config -> seq<Config>,
                             isObjective: Config -> bool)

  /** The start is free, and so is every neighbour of a free configuration. */
  ghost predicate ValidArmMaze(maze: ArmMaze)
  {
    maze.start in maze.cells && ClosedInto(maze.neighbors, maze.cells, maze.cells)
  }

  /** Some configuration other than the start that `isObjective` accepts
      can be reached from the start. */
  ghost predicate ObjectiveReachable(maze: ArmMaze)
  {
    exists x {:trigger Reachable(maze.neighbors, maze.start, x)} ::
      Reachable(maze.neighbors, maze.start, x) && x != maze.start && maze.isObjective(x)
  }

  /** The backtracking at the end of `bfs`: the route path to an objective
      found while none had been is a shortest walk to an objective other
      than the start. */
  method ObjectivePath(ghost succ: Config -> seq<Config>, route: map<Config, Option<Config>>,
                       ghost depth: map<Config, int>, ghost start: Config, goal: Config,
                       ghost target: Config -> bool, ghost level: int)
    returns (path: seq<Config>)
    requires RouteTree(succ, route, depth, start) && goal in route && goal != start && target(goal)
    requires depth[goal] == level + 1
    requires forall w {:trigger IsWalk(succ, w)} ::
               IsWalk(succ, w) && w[0] == start && w[|w| - 1] != start && target(w[|w| - 1]) ==> |w| >= level + 2
    ensures ShortestTo(succ, path, start, target) && Distinct(path)
  {
    ghost var states;
    path, states := Backtrack(succ, route, depth, start, goal, c => c);
    assert path == states;
    BfsHitPath(succ, start, target, level, states);
  }

  /** The inner loop of `bfs`, over `maze.getNeighbors` of the popped
      configuration `node`: it stops at the first objective it discovers
      and returns the route path to it. */
  method ExpandConfig(maze: ArmMaze, node: Config, deck0: seq<Config>, visited0: set<Config>,
                      route0: map<Config, Option<Config>>, ghost depth0: map<Config, int>,
                      ghost expanded: set<Config>, ghost level: int, ghost size: int)
    returns (deck: seq<Config>, visited: set<Config>, route: map<Config, Option<Config>>, ghost depth: map<Config, int>,
             found: Option<seq<Config>>)
    requires ValidArmMaze(maze)
    requires BfsExpanding(maze.neighbors, maze.start, maze.cells, maze.isObjective, node, 0, deck0, visited0, route0,
                          depth0, expanded, level, true, size)
    ensures found.None? ==> BfsExpanding(maze.neighbors, maze.start, maze.cells, maze.isObjective, node,
                                         |maze.neighbors(node)|, deck, visited, route, depth, expanded, level, true, size)
    ensures found.Some? ==> && ShortestTo(maze.neighbors, found.value, maze.start, maze.isObjective)
                            && Distinct(found.value)
  {
    ghost var succ, target := maze.neighbors, maze.isObjective;
    deck, visited, route, depth := deck0, visited0, route0, depth0;
    var neighbors := maze.neighbors(node);
    var i := 0;
    while i < |neighbors|
      invariant BfsExpanding(succ, maze.start, maze.cells, target, node, i, deck, visited, route, depth, expanded,
                             level, true, size)
    {
      var neighbor := neighbors[i];
      if neighbor !in visited {
        BfsVisit(succ, maze.start, maze.cells, target, node, i, deck, visited, route, depth, expanded, level, true,
                 size);
        if maze.isObjective(neighbor) {
          BfsHit(succ, maze.start, maze.cells, target, node, i, deck, visited, route, depth, expanded, level, size);
        }
        deck := deck + [neighbor];
        visited := visited + {neighbor};
        route := route[neighbor := Some(node)];
        depth := depth[neighbor := level + 1];
        if maze.isObjective(neighbor) {
          var path := ObjectivePath(succ, route, depth, maze.start, neighbor, target, level);
          return deck, visited, route, depth, Some(path);
        }
      } else {
        BfsSkip(succ, maze.start, maze.cells, target, node, i, deck, visited, route, depth, expanded, level, true,
                size);
      }
      i := i + 1;
    }
    found := None;
  }

  /** `bfs(maze)`: the objective is looked for among newly discovered
      configurations, so the start itself never counts. The path returned
      is a shortest walk from the start to an objective, visiting no
      configuration twice; `None` exactly when no objective other than the
      start can be reached. */
  method Bfs(maze: ArmMaze) returns (r: Option<seq<Config>>)
    requires ValidArmMaze(maze)
    ensures r.None? <==> !ObjectiveReachable(maze)
    ensures r.Some? ==> ShortestTo(maze.neighbors, r.value, maze.start, maze.isObjective) && Distinct(r.value)
  {
    ghost var succ, target := maze.neighbors, maze.isObjective;
    var deck := [maze.start];
    var visited: set<Config> := {};
    var route: map<Config, Option<Config>> := map[maze.start := None];
    ghost var depth: map<Config, int> := map[maze.start := 0];
    ghost var expanded: set<Config> := {};
    ghost var level := 0;
    BfsBegin(succ, maze.start, maze.cells, target);
    while |deck| > 0
      invariant BfsWaiting(succ, maze.start, maze.cells, target, deck, visited, route, depth, expanded, level, true)
      decreases |deck| + |maze.cells| - |route|
    {
      var node := deck[0];
      BfsNext(succ, maze.start, maze.cells, target, deck, visited, route, depth, expanded, level, true);
      ghost var size := |deck| - 1 + |maze.cells| - |route|;
      level := depth[node];
      var found;
      deck, visited, route, depth, found :=
        ExpandConfig(maze, node, deck[1..], visited + {node}, route, depth, expanded, level, size);
      if found.Some? {
        assert Reachable(succ, maze.start, found.value[|found.value| - 1]) by {
          assert IsWalk(succ, found.value);
        }
        return found;
      }
      BfsDone(succ, maze.start, maze.cells, target, node, deck, visited, route, depth, expanded, level, true, size);
      expanded := expanded + {node};
    }
    BfsDry(succ, maze.start, maze.cells, target, visited, route, depth, expanded, level);
    return None;
  }

  /** `search(maze, searchMethod)`: looks the method up by name; only
      `"bfs"` is known, and for any other name the default `[]` is called,
      which raises `TypeError`. */
  method Search(maze: ArmMaze, searchMethod: string) returns (r: Result<Option<seq<Config>>, Error>)
    requires ValidArmMaze(maze)
    ensures r.Err? <==> searchMethod != "bfs"
    ensures r.Err? ==> r.error == TypeError
    ensures r.Ok? ==> (r.value.None? <==> !ObjectiveReachable(maze))
    ensures r.Ok? && r.value.Some? ==>
              ShortestTo(maze.neighbors, r.value.value, maze.start, maze.isObjective) && Distinct(r.value.value)
  {
    if searchMethod == "bfs" {
      var path := Bfs(maze);
      r := Ok(path);
    } else {
      r := Err(TypeError);
    }
  }
}
