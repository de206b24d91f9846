/** The loop shared by the best-first searches of Search/search.py,
    `astar_single` and `astar_or_fast`: a heap of (priority, state) entries
    popped smallest first. Two goal tests appear:
    `found`, applied to each newly discovered state, and `final`, applied to
    each popped state. */
module BestFirst {
  import opened Wrappers
  import opened Collections
  import opened Graph
  import opened PriorityQueue

  /** The states of the heap's entries, in the order of the entries. */
  function States<S>(deck: seq<(int, S)>): seq<S>
  {
    seq(|deck|, k requires 0 <= k < |deck| => deck[k].1)
  }

  /** Popping the entry at `idx` takes its state out of the states and
      leaves the others. */
  lemma StatesRemove<S>(deck: seq<(int, S)>, idx: nat)
    requires idx < |deck|
    ensures deck[idx].1 in States(deck)
    ensures forall x :: x in States(deck) ==> x == deck[idx].1 || x in States(Remove(deck, idx))
    ensures forall x :: x in States(Remove(deck, idx)) ==> x in States(deck)
  {
    var s, r := States(deck), States(Remove(deck, idx));
    assert s[idx] == deck[idx].1;
    forall x | x in s ensures x == deck[idx].1 || x in r {
      var k :| 0 <= k < |s| && s[k] == x;
      if k < idx {
        assert r[k] == x;
      } else if k > idx {
        assert r[k - 1] == x;
      }
    }
    forall x | x in r ensures x in s {
      var k :| 0 <= k < |r| && r[k] == x;
      if k < idx {
        assert s[k] == x;
      } else {
        assert s[k + 1] == x;
      }
    }
  }

  /** Pushing an entry appends its state. */
  lemma StatesPush<S>(deck: seq<(int, S)>, p: int, y: S)
    ensures States(deck + [(p, y)]) == States(deck) + [y]
  {
    var s, t := States(deck + [(p, y)]), States(deck) + [y];
    assert forall k :: 0 <= k < |s| ==> s[k] == t[k];
  }

  /** No expanded state passes `final`. */
  ghost predicate NoneFinal<S(!new)>(expanded: set<S>, final: S -> bool)
  {
    forall x {:trigger x in expanded} :: x in expanded ==> !final(x)
  }

  /** Every successor of a state in `cells` that does not pass `final` is in
      `cells`: the states the search can discover. */
  ghost predicate ClosedBeyond<S(!new)>(succ: S -> seq<S>, cells: set<S>, final: S -> bool)
  {
    forall x, y {:trigger y in succ(x), x in cells} :: x in cells && !final(x) && y in succ(x) ==> y in cells
  }

  /** The state of the search before each pop. Until the first pop nothing
      has been visited, not even the start. */
  ghost predicate PqWaiting<S(!new)>(succ: S -> seq<S>, start: S, cells: set<S>,
                                     found: S -> bool, final: S -> bool,
                                     deck: seq<(int, S)>, visited: set<S>, route: map<S, Option<S>>,
                                     depth: map<S, int>, expanded: set<S>, searching: bool)
  {
    && route.Keys <= cells && |route| <= |cells|
    && SearchInv(succ, start, route, depth, States(deck), expanded, {})
    && (visited == route.Keys || (visited == {} && States(deck) == [start] && route.Keys == {start}))
    && NoneFinal(expanded, final)
    && (searching ==> Unfound(route, start, found))
  }

  /** The state of the search while the successors of `node` are examined:
      the first `i` of them have been discovered, and `size` is the number
      of pops and discoveries still possible. */
  ghost predicate PqExpanding<S(!new)>(succ: S -> seq<S>, start: S, cells: set<S>,
                                       found: S -> bool, final: S -> bool,
                                       node: S, i: int, deck: seq<(int, S)>, visited: set<S>,
                                       route: map<S, Option<S>>, depth: map<S, int>,
                                       expanded: set<S>, searching: bool, size: int)
  {
    && 0 <= i <= |succ(node)|
    && route.Keys <= cells && |route| <= |cells| && visited == route.Keys
    && |deck| + |cells| - |route| == size
    && (forall k :: 0 <= k < i ==> succ(node)[k] in route)
    && SearchInv(succ, start, route, depth, States(deck), expanded, {node})
    && NoneFinal(expanded, final) && !final(node)
    && (searching ==> Unfound(route, start, found))
  }

  /** The heap holds the start, at priority `p`. */
  lemma PqBegin<S(!new)>(succ: S -> seq<S>, start: S, cells: set<S>,
                         found: S -> bool, final: S -> bool, p: int)
    requires start in cells
    ensures PqWaiting(succ, start, cells, found, final, [(p, start)], {}, map[start := None], map[start := 0], {}, true)
  {
    var route: map<S, Option<S>> := map[start := None];
    SubsetCard(route.Keys, cells);
    assert States([(p, start)]) == [start];
  }

  /** A popped state is a discovered one, reached along its route. */
  lemma PqFinal<S(!new)>(succ: S -> seq<S>, start: S, cells: set<S>,
                         found: S -> bool, final: S -> bool,
                         deck: seq<(int, S)>, visited: set<S>, route: map<S, Option<S>>,
                         depth: map<S, int>, expanded: set<S>, searching: bool, idx: nat)
    requires PqWaiting(succ, start, cells, found, final, deck, visited, route, depth, expanded, searching)
    requires idx < |deck|
    ensures RouteTree(succ, route, depth, start) && deck[idx].1 in route
  {
    assert States(deck)[idx] == deck[idx].1;
  }

  /** `heappop(deck)` takes out the entry at `idx`, and `visited.add` marks
      its state, which `final` rejects, for expansion. */
  lemma PqNext<S(!new)>(succ: S -> seq<S>, start: S, cells: set<S>,
                        found: S -> bool, final: S -> bool,
                        deck: seq<(int, S)>, visited: set<S>, route: map<S, Option<S>>,
                        depth: map<S, int>, expanded: set<S>, searching: bool, idx: nat)
    requires PqWaiting(succ, start, cells, found, final, deck, visited, route, depth, expanded, searching)
    requires idx < |deck| && !final(deck[idx].1)
    ensures deck[idx].1 in route
    ensures PqExpanding(succ, start, cells, found, final, deck[idx].1, 0, Remove(deck, idx),
                        visited + {deck[idx].1}, route, depth, expanded, searching, |deck| - 1 + |cells| - |route|)
  {
    StatesRemove(deck, idx);
    SearchPop(succ, start, route, depth, States(deck), expanded, deck[idx].1, States(Remove(deck, idx)));
  }

  /** A successor that has been visited already is passed over. */
  lemma PqSkip<S(!new)>(succ: S -> seq<S>, start: S, cells: set<S>,
                        found: S -> bool, final: S -> bool,
                        node: S, i: int, deck: seq<(int, S)>, visited: set<S>,
                        route: map<S, Option<S>>, depth: map<S, int>,
                        expanded: set<S>, searching: bool, size: int)
    requires PqExpanding(succ, start, cells, found, final, node, i, deck, visited, route, depth, expanded, searching, size)
    requires i < |succ(node)| && succ(node)[i] in visited
    ensures PqExpanding(succ, start, cells, found, final, node, i + 1, deck, visited, route, depth, expanded, searching, size)
  {
  }

  /** While `node` is expanded, the visited states are exactly those with a
      distance, so a successor not visited yet has none. */
  lemma PqUnseen<S(!new)>(succ: S -> seq<S>, start: S, cells: set<S>,
                          found: S -> bool, final: S -> bool,
                          node: S, i: int, deck: seq<(int, S)>, visited: set<S>,
                          route: map<S, Option<S>>, depth: map<S, int>,
                          expanded: set<S>, searching: bool, size: int, y: S)
    requires PqExpanding(succ, start, cells, found, final, node, i, deck, visited, route, depth, expanded, searching, size)
    requires y !in visited
    ensures y !in depth
  {
  }

  /** A successor `y` not visited yet is given its distance, visited,
      routed through `node` and pushed at priority `p`; the search goes on
      unless it passes `found`. */
  lemma PqVisit<S(!new)>(succ: S -> seq<S>, start: S, cells: set<S>,
                         found: S -> bool, final: S -> bool,
                         node: S, i: int, deck: seq<(int, S)>, visited: set<S>,
                         route: map<S, Option<S>>, depth: map<S, int>,
                         expanded: set<S>, searching: bool, size: int, p: int, y: S)
    requires PqExpanding(succ, start, cells, found, final, node, i, deck, visited, route, depth, expanded, searching, size)
    requires ClosedBeyond(succ, cells, final)
    requires i < |succ(node)| && y == succ(node)[i] && y !in visited
    ensures PqExpanding(succ, start, cells, found, final, node, i + 1, deck + [(p, y)], visited + {y},
                        route[y := Some(node)], depth[y := depth[node] + 1], expanded,
                        searching && !found(y), size)
  {
    SearchDiscover(succ, start, route, depth, States(deck), expanded, node, y);
    StatesPush(deck, p, y);
    VisitCount(cells, y, node, States(deck), visited, route, size);
    VisitKeeps(start, found, succ(node), i, node, route, searching);
  }

  /** Once every successor of `node` has been examined, `node` is expanded. */
  lemma PqDone<S(!new)>(succ: S -> seq<S>, start: S, cells: set<S>,
                        found: S -> bool, final: S -> bool,
                        node: S, deck: seq<(int, S)>, visited: set<S>,
                        route: map<S, Option<S>>, depth: map<S, int>,
                        expanded: set<S>, searching: bool, size: int)
    requires PqExpanding(succ, start, cells, found, final, node, |succ(node)|, deck, visited, route, depth,
                         expanded, searching, size)
    ensures PqWaiting(succ, start, cells, found, final, deck, visited, route, depth, expanded + {node}, searching)
  {
    forall y | y in succ(node) ensures y in route {
      var k :| 0 <= k < |succ(node)| && succ(node)[k] == y;
    }
    SearchClose(succ, start, route, depth, States(deck), expanded, node);
  }

  /** When the heap runs dry, no state reachable from the start passes
      `final`. */
  lemma PqDryFinal<S(!new)>(succ: S -> seq<S>, start: S, cells: set<S>,
                            found: S -> bool, final: S -> bool,
                            visited: set<S>, route: map<S, Option<S>>, depth: map<S, int>,
                            expanded: set<S>, searching: bool)
    requires PqWaiting(succ, start, cells, found, final, [], visited, route, depth, expanded, searching)
    ensures forall x {:trigger Reachable(succ, start, x)} :: Reachable(succ, start, x) ==> !final(x)
  {
    forall x | Reachable(succ, start, x) ensures !final(x) {
      SearchExhausted(succ, start, route, depth, expanded, x);
      assert x in expanded;
    }
  }

  /** When the heap runs dry with nothing found, no state other than the
      start that passes `found` is reachable from the start. */
  lemma PqDryFound<S(!new)>(succ: S -> seq<S>, start: S, cells: set<S>,
                            found: S -> bool, final: S -> bool,
                            visited: set<S>, route: map<S, Option<S>>, depth: map<S, int>,
                            expanded: set<S>)
    requires PqWaiting(succ, start, cells, found, final, [], visited, route, depth, expanded, true)
    ensures forall x {:trigger Reachable(succ, start, x)} :: Reachable(succ, start, x) && x != start ==> !found(x)
  {
    forall x | Reachable(succ, start, x) && x != start ensures !found(x) {
      SearchExhausted(succ, start, route, depth, expanded, x);
    }
  }
}
