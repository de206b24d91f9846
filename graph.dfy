/** Walks in a graph given by a successor function, the `route` parent maps
    the searches of Search/search.py and Robotics/search.py build, and the
    frontier invariants their loops keep. Generic in the state type `S`: the
    searches use it with maze cells and with (cell, waypoints) states. */
module Graph {
  import opened Wrappers
  import opened Collections

  // ---------------------------------------------------------------------
  // Walks and reachability.
  // ---------------------------------------------------------------------

  /** `w` is a non-empty walk: each state is a successor of the one before. */
  ghost predicate IsWalk<S(!new)>(succ: S -> seq<S>, w: seq<S>)
  {
    && |w| > 0
    && forall i :: 0 <= i < |w| - 1 ==> w[i + 1] in succ(w[i])
  }

  /** Some walk leads from `a` to `b`. */
  ghost predicate Reachable<S(!new)>(succ: S -> seq<S>, a: S, b: S)
  {
    exists w {:trigger IsWalk(succ, w)} :: IsWalk(succ, w) && w[0] == a && w[|w| - 1] == b
  }

  /** Every successor of a state in `inner` is in `outer`. */
  ghost predicate ClosedInto<S(!new)>(succ: S -> seq<S>, inner: set<S>, outer: set<S>)
  {
    forall x, y {:trigger y in succ(x), x in inner} :: x in inner && y in succ(x) ==> y in outer
  }

  /** A walk that starts in `outer` and does not end in `inner`, where
      `inner` only leads into `outer`, leaves `inner` for the first time at a
      state of `outer`. */
  lemma FirstExit<S(!new)>(succ: S -> seq<S>, w: seq<S>, inner: set<S>, outer: set<S>) returns (j: nat)
    requires IsWalk(succ, w) && w[0] in outer && w[|w| - 1] !in inner
    requires ClosedInto(succ, inner, outer)
    ensures j < |w| && w[j] in outer && w[j] !in inner
    ensures forall i :: 0 <= i < j ==> w[i] in inner
  {
    j := 0;
    while w[j] in inner
      invariant j < |w| && w[j] in outer
      invariant forall i :: 0 <= i < j ==> w[i] in inner
      decreases |w| - j
    {
      assert w[j + 1] in succ(w[j]);
      j := j + 1;
    }
  }

  // ---------------------------------------------------------------------
  // The `route` map: each discovered state's parent, `None` at the start.
  // ---------------------------------------------------------------------

  /** `route` is a tree rooted at `root`: every other discovered state was
      discovered as a successor of its parent, one step deeper. */
  ghost predicate RouteTree<S(!new)>(succ: S -> seq<S>, route: map<S, Option<S>>, depth: map<S, int>, root: S)
  {
    && root in route && route[root] == None
    && route.Keys == depth.Keys
    && depth[root] == 0
    && forall x {:trigger route[x]} :: x in route ==>
         && depth[x] >= 0
         && (x != root ==>
               && route[x].Some? && route[x].value in route
               && x in succ(route[x].value)
               && depth[x] == depth[route[x].value] + 1)
  }

  /** Discovering a successor of a discovered state extends the tree. */
  lemma RouteTreeExtend<S(!new)>(succ: S -> seq<S>, route: map<S, Option<S>>, depth: map<S, int>, root: S, n: S, y: S)
    requires RouteTree(succ, route, depth, root)
    requires n in route && y !in route && y in succ(n)
    ensures RouteTree(succ, route[y := Some(n)], depth[y := depth[n] + 1], root)
  {
    var route', depth' := route[y := Some(n)], depth[y := depth[n] + 1];
    forall x | x in route'
      ensures depth'[x] >= 0
      ensures x != root ==> route'[x].Some? && route'[x].value in route' && x in succ(route'[x].value)
                            && depth'[x] == depth'[route'[x].value] + 1
    {
      if x != y {
        assert route'[x] == route[x];
      }
    }
  }

  /** The path rebuilt from `route`, the way every search of the source does
      it: prepend the goal, then each parent in turn, until the parent is
      `None` (the start). `proj` picks what the path records of a state. */
  method Backtrack<S(!new), C>(ghost succ: S -> seq<S>, route: map<S, Option<S>>, ghost depth: map<S, int>,
                         ghost root: S, goal: S, proj: S -> C)
    returns (path: seq<C>, ghost states: seq<S>)
    requires RouteTree(succ, route, depth, root) && goal in route
    ensures |path| == |states| == depth[goal] + 1
    ensures states[0] == root && states[|states| - 1] == goal
    ensures IsWalk(succ, states)
    ensures forall i :: 0 <= i < |states| ==> states[i] in route && depth[states[i]] == i && path[i] == proj(states[i])
    ensures forall i :: 0 < i < |states| ==> route[states[i]] == Some(states[i - 1])
    ensures Distinct(states)
  {
    path := [proj(goal)];
    states := [goal];
    var backtracking := route[goal];
    while backtracking.Some? && backtracking.value in route
      invariant |path| == |states| > 0 && states[|states| - 1] == goal
      invariant states[0] in route && backtracking == route[states[0]]
      invariant depth[states[0]] + |states| == depth[goal] + 1
      invariant forall i :: 0 <= i < |states| ==> states[i] in route && path[i] == proj(states[i])
      invariant forall i :: 0 <= i < |states| ==> depth[states[i]] == depth[states[0]] + i
      invariant forall i :: 0 < i < |states| ==> route[states[i]] == Some(states[i - 1])
      invariant IsWalk(succ, states)
      decreases depth[states[0]]
    {
      var parent := backtracking.value;
      assert states[0] != root;
      path := [proj(parent)] + path;
      states := [parent] + states;
      backtracking := route[parent];
    }
    BacktrackDistinct(route, depth, states);
  }

  /** A route path visits each state once. */
  lemma BacktrackDistinct<S(!new)>(route: map<S, Option<S>>, depth: map<S, int>, states: seq<S>)
    requires forall i :: 0 <= i < |states| ==> states[i] in route && states[i] in depth && depth[states[i]] == i
    ensures Distinct(states)
  {
  }

  /** `p` is a walk from `a` to `b`, and no walk from `a` to `b` is shorter. */
  ghost predicate ShortestWalk<S(!new)>(succ: S -> seq<S>, p: seq<S>, a: S, b: S)
  {
    && IsWalk(succ, p) && p[0] == a && p[|p| - 1] == b
    && forall w {:trigger IsWalk(succ, w)} :: IsWalk(succ, w) && w[0] == a && w[|w| - 1] == b ==> |p| <= |w|
  }

  // ---------------------------------------------------------------------
  // The frontier invariant shared by every search loop: each discovered
  // state is expanded, being expanded (`cur`), or waiting in the frontier,
  // and expanded states only lead to discovered ones.
  // ---------------------------------------------------------------------

  /** Every discovered state is expanded, being expanded, or in the
      frontier, and each of those is discovered. */
  ghost predicate Covered<S(!new)>(route: map<S, Option<S>>, frontier: seq<S>, expanded: set<S>, cur: set<S>)
  {
    && expanded <= route.Keys && cur <= route.Keys
    && (forall i :: 0 <= i < |frontier| ==> frontier[i] in route)
    && (forall x {:trigger x in route} :: x in route ==> x in expanded || x in cur || x in frontier)
  }

  ghost predicate SearchInv<S(!new)>(succ: S -> seq<S>, start: S, route: map<S, Option<S>>, depth: map<S, int>,
                                     frontier: seq<S>, expanded: set<S>, cur: set<S>)
  {
    && RouteTree(succ, route, depth, start)
    && Covered(route, frontier, expanded, cur)
    && ClosedInto(succ, expanded, route.Keys)
  }

  lemma CoveredPop<S(!new)>(route: map<S, Option<S>>, frontier: seq<S>, expanded: set<S>, node: S, rest: seq<S>)
    requires Covered(route, frontier, expanded, {}) && node in frontier
    requires forall x :: x in frontier ==> x == node || x in rest
    requires forall x :: x in rest ==> x in frontier
    ensures Covered(route, rest, expanded, {node})
  {
    forall i | 0 <= i < |rest| ensures rest[i] in route {
      assert rest[i] in frontier;
    }
  }

  /** Taking `node` out of the frontier, leaving `rest`, to expand it. */
  lemma SearchPop<S(!new)>(succ: S -> seq<S>, start: S, route: map<S, Option<S>>, depth: map<S, int>,
                           frontier: seq<S>, expanded: set<S>, node: S, rest: seq<S>)
    requires SearchInv(succ, start, route, depth, frontier, expanded, {}) && node in frontier
    requires forall x :: x in frontier ==> x == node || x in rest
    requires forall x :: x in rest ==> x in frontier
    ensures SearchInv(succ, start, route, depth, rest, expanded, {node})
  {
    CoveredPop(route, frontier, expanded, node, rest);
  }

  lemma CoveredDiscover<S(!new)>(route: map<S, Option<S>>, frontier: seq<S>, expanded: set<S>, n: S, y: S, v: Option<S>)
    requires Covered(route, frontier, expanded, {n})
    ensures Covered(route[y := v], frontier + [y], expanded, {n})
  {
    var f := frontier + [y];
    forall i | 0 <= i < |f| ensures f[i] in route[y := v] {
      if i < |frontier| { assert f[i] == frontier[i]; }
    }
  }

  lemma ClosedIntoGrow<S(!new)>(succ: S -> seq<S>, inner: set<S>, route: map<S, Option<S>>, y: S, v: Option<S>)
    requires ClosedInto(succ, inner, route.Keys)
    ensures ClosedInto(succ, inner, route[y := v].Keys)
  {
  }

  /** Discovering `y`, a successor of the state being expanded. */
  lemma SearchDiscover<S(!new)>(succ: S -> seq<S>, start: S, route: map<S, Option<S>>, depth: map<S, int>,
                                frontier: seq<S>, expanded: set<S>, n: S, y: S)
    requires SearchInv(succ, start, route, depth, frontier, expanded, {n})
    requires y in succ(n) && y !in route
    ensures SearchInv(succ, start, route[y := Some(n)], depth[y := depth[n] + 1], frontier + [y], expanded, {n})
  {
    RouteTreeExtend(succ, route, depth, start, n, y);
    CoveredDiscover(route, frontier, expanded, n, y, Some(n));
    ClosedIntoGrow(succ, expanded, route, y, Some(n));
  }

  lemma ClosedIntoAdd<S(!new)>(succ: S -> seq<S>, inner: set<S>, outer: set<S>, n: S)
    requires ClosedInto(succ, inner, outer)
    requires forall y :: y in succ(n) ==> y in outer
    ensures ClosedInto(succ, inner + {n}, outer)
  {
  }

  /** Once every successor of `n` has been discovered, `n` is expanded. */
  lemma SearchClose<S(!new)>(succ: S -> seq<S>, start: S, route: map<S, Option<S>>, depth: map<S, int>,
                             frontier: seq<S>, expanded: set<S>, n: S)
    requires SearchInv(succ, start, route, depth, frontier, expanded, {n})
    requires forall y :: y in succ(n) ==> y in route
    ensures SearchInv(succ, start, route, depth, frontier, expanded + {n}, {})
  {
    ClosedIntoAdd(succ, expanded, route.Keys, n);
  }

  /** When the frontier is empty, every state reachable from the start has
      been discovered. */
  lemma SearchExhausted<S(!new)>(succ: S -> seq<S>, start: S, route: map<S, Option<S>>, depth: map<S, int>,
                                 expanded: set<S>, x: S)
    requires SearchInv(succ, start, route, depth, [], expanded, {})
    ensures Reachable(succ, start, x) ==> x in route
  {
    if Reachable(succ, start, x) && x !in route {
      var w :| IsWalk(succ, w) && w[0] == start && w[|w| - 1] == x;
      var j := FirstExit(succ, w, expanded, route.Keys);
    }
  }

  // ---------------------------------------------------------------------
  // Breadth-first layers: with a FIFO frontier, the states are expanded
  // level by level, which makes every route path a shortest walk.
  // ---------------------------------------------------------------------

  /** The frontier holds states of depth `level` then `level + 1`, in that
      order; expanded states are no deeper than `level`, and the state being
      expanded is at `level`. */
  ghost predicate Layered<S(!new)>(depth: map<S, int>, frontier: seq<S>, expanded: set<S>, cur: set<S>, level: int)
  {
    && (forall x {:trigger x in expanded} :: x in expanded ==> x in depth && depth[x] <= level)
    && (forall x {:trigger x in cur} :: x in cur ==> x in depth && depth[x] == level)
    && (forall i :: 0 <= i < |frontier| ==> frontier[i] in depth && level <= depth[frontier[i]] <= level + 1)
    && (forall i, k :: 0 <= i < k < |frontier| ==> depth[frontier[i]] <= depth[frontier[k]])
  }

  /** The successors of an expanded state are at most one level deeper. */
  ghost predicate Shallow<S(!new)>(succ: S -> seq<S>, depth: map<S, int>, expanded: set<S>)
  {
    forall x, y {:trigger y in succ(x), x in expanded} :: x in expanded && y in succ(x) ==> x in depth && y in depth && depth[y] <= depth[x] + 1
  }

  /** The invariant of a breadth-first search: a search whose frontier is a
      first-in first-out queue visits the states level by level. */
  ghost predicate BfsInv<S(!new)>(succ: S -> seq<S>, start: S, route: map<S, Option<S>>, depth: map<S, int>,
                                  frontier: seq<S>, expanded: set<S>, cur: set<S>, level: int)
  {
    && SearchInv(succ, start, route, depth, frontier, expanded, cur)
    && Layered(depth, frontier, expanded, cur, level)
    && Shallow(succ, depth, expanded)
  }

  lemma BfsStart<S(!new)>(succ: S -> seq<S>, start: S)
    ensures BfsInv(succ, start, map[start := None], map[start := 0], [start], {}, {}, 0)
  {
  }

  lemma LayeredPop<S(!new)>(depth: map<S, int>, frontier: seq<S>, expanded: set<S>, level: int)
    requires Layered(depth, frontier, expanded, {}, level) && |frontier| > 0
    ensures Layered(depth, frontier[1..], expanded, {frontier[0]}, depth[frontier[0]])
  {
    forall i | 0 <= i < |frontier[1..]|
      ensures frontier[1..][i] in depth && depth[frontier[0]] <= depth[frontier[1..][i]] <= depth[frontier[0]] + 1
    {
      assert frontier[1..][i] == frontier[i + 1];
    }
  }

  /** `popleft`: the head of the frontier is expanded next. */
  lemma BfsPop<S(!new)>(succ: S -> seq<S>, start: S, route: map<S, Option<S>>, depth: map<S, int>,
                        frontier: seq<S>, expanded: set<S>, level: int)
    requires BfsInv(succ, start, route, depth, frontier, expanded, {}, level) && |frontier| > 0
    ensures BfsInv(succ, start, route, depth, frontier[1..], expanded, {frontier[0]}, depth[frontier[0]])
  {
    assert frontier == [frontier[0]] + frontier[1..];
    SearchPop(succ, start, route, depth, frontier, expanded, frontier[0], frontier[1..]);
    LayeredPop(depth, frontier, expanded, level);
  }

  lemma LayeredDiscover<S(!new)>(depth: map<S, int>, frontier: seq<S>, expanded: set<S>, n: S, level: int, y: S)
    requires Layered(depth, frontier, expanded, {n}, level) && y !in depth
    ensures Layered(depth[y := level + 1], frontier + [y], expanded, {n}, level)
  {
    var depth' := depth[y := level + 1];
    var f := frontier + [y];
    forall i | 0 <= i < |f| ensures f[i] in depth' && level <= depth'[f[i]] <= level + 1 {
      if i < |frontier| { assert f[i] == frontier[i] && f[i] != y; }
    }
    forall i, k | 0 <= i < k < |f| ensures depth'[f[i]] <= depth'[f[k]] {
      assert f[i] == frontier[i] && f[i] != y;
      if k < |frontier| { assert f[k] == frontier[k] && f[k] != y; }
    }
  }

  lemma ShallowDiscover<S(!new)>(succ: S -> seq<S>, depth: map<S, int>, expanded: set<S>, y: S, d: int)
    requires Shallow(succ, depth, expanded) && y !in depth
    ensures Shallow(succ, depth[y := d], expanded)
  {
    forall x, z | x in expanded && z in succ(x)
      ensures x in depth[y := d] && z in depth[y := d] && depth[y := d][z] <= depth[y := d][x] + 1
    {
      assert x in depth && z in depth;
    }
  }

  /** `deck.append(neighbor)`: a newly discovered successor of the state
      being expanded joins the back of the frontier, one level deeper. */
  lemma BfsDiscover<S(!new)>(succ: S -> seq<S>, start: S, route: map<S, Option<S>>, depth: map<S, int>,
                             frontier: seq<S>, expanded: set<S>, n: S, level: int, y: S)
    requires BfsInv(succ, start, route, depth, frontier, expanded, {n}, level)
    requires y in succ(n) && y !in route
    ensures BfsInv(succ, start, route[y := Some(n)], depth[y := level + 1], frontier + [y], expanded, {n}, level)
  {
    assert depth[n] == level;
    SearchDiscover(succ, start, route, depth, frontier, expanded, n, y);
    LayeredDiscover(depth, frontier, expanded, n, level, y);
    ShallowDiscover(succ, depth, expanded, y, level + 1);
  }

  lemma ShallowClose<S(!new)>(succ: S -> seq<S>, depth: map<S, int>, expanded: set<S>, n: S)
    requires Shallow(succ, depth, expanded) && n in depth
    requires forall y {:trigger y in succ(n)} :: y in succ(n) ==> y in depth && depth[y] <= depth[n] + 1
    ensures Shallow(succ, depth, expanded + {n})
  {
    forall x, z | x in expanded + {n} && z in succ(x) ensures x in depth && z in depth && depth[z] <= depth[x] + 1 {
      if x != n { assert x in expanded; }
    }
  }

  /** After the last successor, the expanded state joins `expanded`. */
  lemma BfsClose<S(!new)>(succ: S -> seq<S>, start: S, route: map<S, Option<S>>, depth: map<S, int>,
                          frontier: seq<S>, expanded: set<S>, n: S, level: int)
    requires BfsInv(succ, start, route, depth, frontier, expanded, {n}, level)
    requires forall y :: y in succ(n) ==> y in route
    ensures BfsInv(succ, start, route, depth, frontier, expanded + {n}, {}, level)
  {
    SearchClose(succ, start, route, depth, frontier, expanded, n);
    forall y | y in succ(n) ensures y in depth && depth[y] <= depth[n] + 1 {
      if y in frontier {
        var i :| 0 <= i < |frontier| && frontier[i] == y;
      }
    }
    ShallowClose(succ, depth, expanded, n);
  }

  /** Along a walk from the start through expanded states, depth grows by
      at most one a step. */
  lemma {:induction false} PrefixDepth<S(!new)>(succ: S -> seq<S>, start: S, route: map<S, Option<S>>, depth: map<S, int>,
                                          frontier: seq<S>, expanded: set<S>, cur: set<S>, level: int,
                                          w: seq<S>, j: nat)
    requires BfsInv(succ, start, route, depth, frontier, expanded, cur, level)
    requires IsWalk(succ, w) && w[0] == start && j < |w|
    requires forall i :: 0 <= i < j ==> w[i] in expanded
    ensures w[j] in route && depth[w[j]] <= j
  {
    if j > 0 {
      PrefixDepth(succ, start, route, depth, frontier, expanded, cur, level, w, j - 1);
      assert w[j] in succ(w[j - 1]);
    }
  }

  /** Any walk from the start to a state that is neither expanded nor being
      expanded takes more than `level` steps, or it ends at a frontier state
      no shallower than that state's depth. */
  lemma BfsLowerBound<S(!new)>(succ: S -> seq<S>, start: S, route: map<S, Option<S>>, depth: map<S, int>,
                         frontier: seq<S>, expanded: set<S>, n: S, level: int, w: seq<S>)
    requires BfsInv(succ, start, route, depth, frontier, expanded, {n}, level)
    requires IsWalk(succ, w) && w[0] == start
    requires w[|w| - 1] !in expanded && w[|w| - 1] != n
    ensures |w| - 1 >= level + 1 || (w[|w| - 1] in frontier && |w| - 1 >= depth[w[|w| - 1]])
  {
    var j := FirstExit(succ, w, expanded, route.Keys);
    PrefixDepth(succ, start, route, depth, frontier, expanded, {n}, level, w, j);
    if w[j] in frontier {
      var i :| 0 <= i < |frontier| && frontier[i] == w[j];
    }
  }

  /** While a state of depth `level` is being expanded, every walk from the
      start to an undiscovered state has at least `level + 1` steps: a state
      discovered now, at depth `level + 1`, is at the end of a shortest walk. */
  lemma BfsBeyond<S(!new)>(succ: S -> seq<S>, start: S, route: map<S, Option<S>>, depth: map<S, int>,
                           frontier: seq<S>, expanded: set<S>, n: S, level: int)
    requires BfsInv(succ, start, route, depth, frontier, expanded, {n}, level)
    ensures forall w {:trigger IsWalk(succ, w)} :: IsWalk(succ, w) && w[0] == start && w[|w| - 1] !in route ==> |w| >= level + 2
  {
    forall w | IsWalk(succ, w) && w[0] == start && w[|w| - 1] !in route ensures |w| >= level + 2 {
      BfsLowerBound(succ, start, route, depth, frontier, expanded, n, level, w);
    }
  }

  /** The shortest walks from `start` to a state other than `start` that
      passes `target`: `p` is one of them. */
  ghost predicate ShortestTo<S(!new)>(succ: S -> seq<S>, p: seq<S>, start: S, target: S -> bool)
  {
    && IsWalk(succ, p) && p[0] == start && p[|p| - 1] != start && target(p[|p| - 1])
    && forall w {:trigger IsWalk(succ, w)} :: IsWalk(succ, w) && w[0] == start && w[|w| - 1] != start && target(w[|w| - 1]) ==> |p| <= |w|
  }

  // ---------------------------------------------------------------------
  // The loop of a breadth-first search, one step at a time. Each newly
  // discovered state is tested with `target`; while `searching`, no
  // discovered state other than the start has passed that test.
  // ---------------------------------------------------------------------

  /** No discovered state other than `start` passes `target`. */
  ghost predicate Unfound<S(!new)>(route: map<S, Option<S>>, start: S, target: S -> bool)
  {
    forall x {:trigger x in route} :: x in route && x != start ==> !target(x)
  }

  /** The state of the search before each pop. Until the first pop nothing
      has been visited, not even the start. */
  ghost predicate BfsWaiting<S(!new)>(succ: S -> seq<S>, start: S, cells: set<S>, target: S -> bool,
                                      deck: seq<S>, visited: set<S>, route: map<S, Option<S>>, depth: map<S, int>,
                                      expanded: set<S>, level: int, searching: bool)
  {
    && route.Keys <= cells && |route| <= |cells|
    && BfsInv(succ, start, route, depth, deck, expanded, {}, level)
    && (visited == route.Keys || (visited == {} && deck == [start] && route.Keys == {start}))
    && (searching ==> Unfound(route, start, target))
  }

  /** The state of the search while the successors of `node` are examined:
      the first `i` of them have been discovered, and `size` is the number
      of pops and discoveries still possible. */
  ghost predicate BfsExpanding<S(!new)>(succ: S -> seq<S>, start: S, cells: set<S>, target: S -> bool,
                                        node: S, i: int, deck: seq<S>, visited: set<S>,
                                        route: map<S, Option<S>>, depth: map<S, int>,
                                        expanded: set<S>, level: int, searching: bool, size: int)
  {
    && 0 <= i <= |succ(node)|
    && route.Keys <= cells && |route| <= |cells| && visited == route.Keys
    && |deck| + |cells| - |route| == size
    && (forall k :: 0 <= k < i ==> succ(node)[k] in route)
    && BfsInv(succ, start, route, depth, deck, expanded, {node}, level)
    && (searching ==> Unfound(route, start, target))
  }

  /** The deque holds the start, which is its own route. */
  lemma BfsBegin<S(!new)>(succ: S -> seq<S>, start: S, cells: set<S>, target: S -> bool)
    requires start in cells
    ensures BfsWaiting(succ, start, cells, target, [start], {}, map[start := None], map[start := 0], {}, 0, true)
  {
    BfsStart(succ, start);
    var route: map<S, Option<S>> := map[start := None];
    SubsetCard(route.Keys, cells);
  }

  /** `node = deck.popleft()` and `visited.add(node)`. */
  lemma BfsNext<S(!new)>(succ: S -> seq<S>, start: S, cells: set<S>, target: S -> bool,
                         deck: seq<S>, visited: set<S>, route: map<S, Option<S>>, depth: map<S, int>,
                         expanded: set<S>, level: int, searching: bool)
    requires BfsWaiting(succ, start, cells, target, deck, visited, route, depth, expanded, level, searching)
    requires |deck| > 0
    ensures deck[0] in route && deck[0] in depth
    ensures BfsExpanding(succ, start, cells, target, deck[0], 0, deck[1..], visited + {deck[0]}, route, depth,
                         expanded, depth[deck[0]], searching, |deck| - 1 + |cells| - |route|)
  {
    BfsPop(succ, start, route, depth, deck, expanded, level);
  }

  /** A successor that has been visited already is passed over. */
  lemma BfsSkip<S(!new)>(succ: S -> seq<S>, start: S, cells: set<S>, target: S -> bool,
                         node: S, i: int, deck: seq<S>, visited: set<S>,
                         route: map<S, Option<S>>, depth: map<S, int>,
                         expanded: set<S>, level: int, searching: bool, size: int)
    requires BfsExpanding(succ, start, cells, target, node, i, deck, visited, route, depth, expanded, level, searching, size)
    requires i < |succ(node)| && succ(node)[i] in visited
    ensures BfsExpanding(succ, start, cells, target, node, i + 1, deck, visited, route, depth, expanded, level, searching, size)
  {
  }

  /** A visit grows `visited` and `route` by `y`, which leaves the size of
      the deque plus the undiscovered cells unchanged. */
  lemma VisitCount<S(!new)>(cells: set<S>, y: S, n: S, deck: seq<S>, visited: set<S>,
                            route: map<S, Option<S>>, size: int)
    requires route.Keys <= cells && visited == route.Keys && |deck| + |cells| - |route| == size
    requires y in cells && y !in route
    ensures route[y := Some(n)].Keys <= cells && |route[y := Some(n)]| <= |cells|
    ensures visited + {y} == route[y := Some(n)].Keys
    ensures |deck + [y]| + |cells| - |route[y := Some(n)]| == size
  {
    SubsetCard(route[y := Some(n)].Keys, cells);
  }

  /** A visit keeps the first successors discovered, and keeps the search
      going unless `y` passes `target`. */
  lemma VisitKeeps<S(!new)>(start: S, target: S -> bool, nbrs: seq<S>, i: int, n: S,
                            route: map<S, Option<S>>, searching: bool)
    requires 0 <= i < |nbrs|
    requires forall k :: 0 <= k < i ==> nbrs[k] in route
    requires searching ==> Unfound(route, start, target)
    ensures forall k :: 0 <= k < i + 1 ==> nbrs[k] in route[nbrs[i] := Some(n)]
    ensures searching && !target(nbrs[i]) ==> Unfound(route[nbrs[i] := Some(n)], start, target)
  {
  }

  /** A successor not visited yet is appended to the deque, visited, and
      routed through `node`; the search goes on unless it passes `target`. */
  lemma BfsVisit<S(!new)>(succ: S -> seq<S>, start: S, cells: set<S>, target: S -> bool,
                          node: S, i: int, deck: seq<S>, visited: set<S>,
                          route: map<S, Option<S>>, depth: map<S, int>,
                          expanded: set<S>, level: int, searching: bool, size: int)
    requires BfsExpanding(succ, start, cells, target, node, i, deck, visited, route, depth, expanded, level, searching, size)
    requires ClosedInto(succ, cells, cells)
    requires i < |succ(node)| && succ(node)[i] !in visited
    ensures var y := succ(node)[i];
            BfsExpanding(succ, start, cells, target, node, i + 1, deck + [y], visited + {y}, route[y := Some(node)],
                         depth[y := level + 1], expanded, level, searching && !target(y), size)
  {
    BfsDiscover(succ, start, route, depth, deck, expanded, node, level, succ(node)[i]);
    VisitCount(cells, succ(node)[i], node, deck, visited, route, size);
    VisitKeeps(start, target, succ(node), i, node, route, searching);
  }

  /** A successor that passes `target` while none had: it is routed through
      `node`, one level deeper than `node`, and no walk from the start to a
      state other than the start that passes `target` is shorter. */
  lemma BfsHit<S(!new)>(succ: S -> seq<S>, start: S, cells: set<S>, target: S -> bool,
                        node: S, i: int, deck: seq<S>, visited: set<S>,
                        route: map<S, Option<S>>, depth: map<S, int>,
                        expanded: set<S>, level: int, size: int)
    requires BfsExpanding(succ, start, cells, target, node, i, deck, visited, route, depth, expanded, level, true, size)
    requires i < |succ(node)| && succ(node)[i] !in visited
    ensures var y := succ(node)[i];
            && RouteTree(succ, route[y := Some(node)], depth[y := level + 1], start)
            && y in route[y := Some(node)] && y != start
    ensures forall w {:trigger IsWalk(succ, w)} :: IsWalk(succ, w) && w[0] == start && w[|w| - 1] != start && target(w[|w| - 1]) ==> |w| >= level + 2
  {
    var y := succ(node)[i];
    assert depth[node] == level;
    RouteTreeExtend(succ, route, depth, start, node, y);
    BfsBeyond(succ, start, route, depth, deck, expanded, node, level);
  }

  /** The route path to a state found as in `BfsHit` is a shortest walk to
      a state that passes `target`. */
  lemma BfsHitPath<S(!new)>(succ: S -> seq<S>, start: S, target: S -> bool, level: int, states: seq<S>)
    requires IsWalk(succ, states) && |states| == level + 2
    requires states[0] == start && states[|states| - 1] != start && target(states[|states| - 1])
    requires forall w {:trigger IsWalk(succ, w)} :: IsWalk(succ, w) && w[0] == start && w[|w| - 1] != start && target(w[|w| - 1]) ==> |w| >= level + 2
    ensures ShortestTo(succ, states, start, target)
  {
  }

  /** Once every successor of `node` has been examined, `node` is expanded. */
  lemma BfsDone<S(!new)>(succ: S -> seq<S>, start: S, cells: set<S>, target: S -> bool,
                         node: S, deck: seq<S>, visited: set<S>,
                         route: map<S, Option<S>>, depth: map<S, int>,
                         expanded: set<S>, level: int, searching: bool, size: int)
    requires BfsExpanding(succ, start, cells, target, node, |succ(node)|, deck, visited, route, depth, expanded, level, searching, size)
    ensures BfsWaiting(succ, start, cells, target, deck, visited, route, depth, expanded + {node}, level, searching)
  {
    forall y | y in succ(node) ensures y in route {
      var k :| 0 <= k < |succ(node)| && succ(node)[k] == y;
    }
    BfsClose(succ, start, route, depth, deck, expanded, node, level);
  }

  /** When the deque runs dry with nothing found, no state other than the
      start that passes `target` is reachable from the start. */
  lemma BfsDry<S(!new)>(succ: S -> seq<S>, start: S, cells: set<S>, target: S -> bool,
                        visited: set<S>, route: map<S, Option<S>>, depth: map<S, int>,
                        expanded: set<S>, level: int)
    requires BfsWaiting(succ, start, cells, target, [], visited, route, depth, expanded, level, true)
    ensures forall x {:trigger Reachable(succ, start, x)} :: Reachable(succ, start, x) && x != start ==> !target(x)
  {
    forall x | Reachable(succ, start, x) && x != start ensures !target(x) {
      SearchExhausted(succ, start, route, depth, expanded, x);
    }
  }
}
