/** The search states of `astar_or_fast` in Search/search.py: a cell and
    the waypoints still to be collected, in their original order. Moving
    on from a cell collects the first occurrence of that cell among the
    remaining waypoints. */
module Waypoints {
  import opened Grid
  import opened Collections
  import opened Graph
  import opened BestFirst

  /** `(cell, remaining waypoints)` */
  type State = (Coord, seq<Coord>)

  /** `w.index(c)`: the position of the first occurrence of `c`. */
  function FirstIndex(w: seq<Coord>, c: Coord): (i: nat)
    requires c in w
    ensures i < |w| && w[i] == c
    ensures forall k :: 0 <= k < i ==> w[k] != c
  {
    if w[0] == c then 0 else 1 + FirstIndex(w[1..], c)
  }

  /** `neighbor_visited`: the remaining waypoints once the cell `c` has been
      left, which drops the first occurrence of `c`, if any, and keeps the
      order of the rest. */
  function Shrink(w: seq<Coord>, c: Coord): (r: seq<Coord>)
    ensures c in w ==> |r| == |w| - 1 && multiset(r) + multiset{c} == multiset(w)
    ensures c !in w ==> r == w
  {
    if c in w then
      var i := FirstIndex(w, c);
      assert w == w[..i] + [w[i]] + w[i + 1..];
      w[..i] + w[i + 1..]
    else w
  }

  /** Leaving `c` takes one copy of `c`, if any, out of the remaining
      waypoints. */
  lemma ShrinkMultiset(w: seq<Coord>, c: Coord)
    ensures multiset(Shrink(w, c)) == multiset(w) - multiset{c}
  {
    if c !in w {
      assert multiset(w)[c] == 0;
      assert multiset(w) - multiset{c} == multiset(w);
    }
  }

  /** Leaving a cell that is not the last remaining waypoint leaves some
      waypoint to collect. */
  lemma ShrinkNonEmpty(w: seq<Coord>, c: Coord)
    requires |w| > 0 && !(|w| == 1 && c in w)
    ensures |Shrink(w, c)| > 0
  {
  }

  /** Dropping the first occurrence of `c` after a head that is not `c`. */
  lemma ShrinkCons(x: Coord, s: seq<Coord>, c: Coord)
    requires x != c
    ensures Shrink([x] + s, c) == [x] + Shrink(s, c)
  {
    if c in s {
      var w := [x] + s;
      assert w[1..] == s;
      var i := FirstIndex(s, c);
      assert FirstIndex(w, c) == 1 + i;
      assert w[..1 + i] == [x] + s[..i];
      assert w[1 + i + 1..] == s[i + 1..];
    }
  }

  /** Every sequence obtained from `w` by deleting some of its elements. */
  ghost function Subseqs(w: seq<Coord>): (r: set<seq<Coord>>)
    ensures [] in r
  {
    if |w| == 0 then {[]}
    else
      var rest := Subseqs(w[1..]);
      rest + set s | s in rest :: [w[0]] + s
  }

  lemma {:induction false} SubseqsSelf(w: seq<Coord>)
    ensures w in Subseqs(w)
  {
    if |w| > 0 {
      SubseqsSelf(w[1..]);
      assert w == [w[0]] + w[1..];
    }
  }

  /** Leaving a cell keeps the remaining waypoints a subsequence of the
      original ones. */
  lemma {:induction false} SubseqsShrink(w: seq<Coord>, s: seq<Coord>, c: Coord)
    requires s in Subseqs(w)
    ensures Shrink(s, c) in Subseqs(w)
  {
    if |w| > 0 {
      var rest := Subseqs(w[1..]);
      if s in rest {
        SubseqsShrink(w[1..], s, c);
      } else {
        var t :| t in rest && s == [w[0]] + t;
        if w[0] == c {
          assert Shrink(s, c) == t by {
            assert FirstIndex(s, c) == 0;
            assert s[1..] == t;
          }
        } else {
          ShrinkCons(w[0], t, c);
          SubseqsShrink(w[1..], t, c);
        }
      }
    }
  }

  /** The states `astar_or_fast` can reach: an open cell and a non-empty
      subsequence of the waypoints. A finite set, which bounds the search. */
  ghost function Universe(cells: set<Coord>, waypoints: seq<Coord>): set<State>
  {
    set c, w | c in cells && w in Subseqs(waypoints) && |w| > 0 :: (c, w)
  }

  /** A state is final when its cell is its only remaining waypoint:
      `len(node_visited) == 1 and node in node_visited`. */
  predicate Final(s: State)
    ensures Final(s) <==> s.1 == [s.0]
  {
    |s.1| == 1 && s.0 in s.1
  }

  /** The successors of a state: each neighbour of its cell, with the
      waypoints that remain after leaving the cell. */
  function Successors(neighbors: seq<Coord>, rest: seq<Coord>): seq<State>
  {
    seq(|neighbors|, k requires 0 <= k < |neighbors| => (neighbors[k], rest))
  }

  /** The state graph of `astar_or_fast` over a maze's `neighbors`. */
  ghost function Moves(neighbors: Coord -> seq<Coord>): State -> seq<State>
  {
    (s: State) => Successors(neighbors(s.0), Shrink(s.1, s.0))
  }

  /** A move from `s` goes to a neighbour of its cell, carrying the
      waypoints that remain once the cell is left, and every such state is
      a move. */
  lemma MovesFrom(neighbors: Coord -> seq<Coord>, s: State, y: State)
    ensures y in Moves(neighbors)(s) <==> y.0 in neighbors(s.0) && y.1 == Shrink(s.1, s.0)
  {
    var next := Successors(neighbors(s.0), Shrink(s.1, s.0));
    if y.0 in neighbors(s.0) && y.1 == Shrink(s.1, s.0) {
      var k :| 0 <= k < |neighbors(s.0)| && neighbors(s.0)[k] == y.0;
      assert next[k] == y;
    }
  }

  /** The start state lies in the universe. */
  lemma StartInUniverse(cells: set<Coord>, start: Coord, waypoints: seq<Coord>)
    requires start in cells && |waypoints| > 0
    ensures (start, waypoints) in Universe(cells, waypoints)
  {
    SubseqsSelf(waypoints);
  }

  /** The search never leaves the universe: a state that is not final has
      a cell with a neighbour and a waypoint left over. */
  lemma UniverseClosed(neighbors: Coord -> seq<Coord>, cells: set<Coord>, waypoints: seq<Coord>)
    requires ClosedInto(neighbors, cells, cells)
    ensures ClosedBeyond(Moves(neighbors), Universe(cells, waypoints), Final)
  {
    var succ, u := Moves(neighbors), Universe(cells, waypoints);
    forall x, y | x in u && !Final(x) && y in succ(x) ensures y in u {
      var next := Successors(neighbors(x.0), Shrink(x.1, x.0));
      var k :| 0 <= k < |next| && next[k] == y;
      assert y.0 in neighbors(x.0);
      SubseqsShrink(waypoints, x.1, x.0);
      ShrinkNonEmpty(x.1, x.0);
    }
  }

  /** A walk of states walks its cells through the maze. */
  lemma CellWalk(neighbors: Coord -> seq<Coord>, states: seq<State>, path: seq<Coord>)
    requires IsWalk(Moves(neighbors), states)
    requires |path| == |states| && forall i :: 0 <= i < |path| ==> path[i] == states[i].0
    ensures IsWalk(neighbors, path)
  {
    forall i | 0 <= i < |path| - 1 ensures path[i + 1] in neighbors(path[i]) {
      var next := Successors(neighbors(states[i].0), Shrink(states[i].1, states[i].0));
      assert states[i + 1] in next;
      var k :| 0 <= k < |next| && next[k] == states[i + 1];
    }
  }

  /** Taking away `b` and then one `c` takes away `b` plus `c`. */
  lemma LessOne(a: multiset<Coord>, b: multiset<Coord>, c: Coord)
    ensures (a - b) - multiset{c} == a - (b + multiset{c})
  {
    forall x ensures ((a - b) - multiset{c})[x] == (a - (b + multiset{c}))[x] {
    }
  }

  /** The cells of a path up to and including `k`. */
  lemma PrefixCount(path: seq<Coord>, k: nat)
    requires k < |path|
    ensures multiset(path[..k + 1]) == multiset(path[..k]) + multiset{path[k]}
    ensures path[..k + 1][..k] == path[..k]
  {
    assert path[..k + 1] == path[..k] + [path[k]];
  }

  /** One step of a walk of states: the next state stands on a successor
      cell with the waypoints left after leaving this one. */
  lemma MoveStep(neighbors: Coord -> seq<Coord>, s: State, t: State)
    requires t in Moves(neighbors)(s)
    ensures t.0 in neighbors(s.0) && t.1 == Shrink(s.1, s.0)
  {
    var next := Successors(neighbors(s.0), Shrink(s.1, s.0));
    var k :| 0 <= k < |next| && next[k] == t;
  }

  /** Each state's remaining waypoints are those of the state before it,
      less one copy of that state's cell, as a move leaves them. */
  ghost predicate Consumes(states: seq<State>)
  {
    forall i :: 0 <= i < |states| - 1 ==> states[i + 1].1 == Shrink(states[i].1, states[i].0)
  }

  /** Every walk of the state graph consumes its cells. */
  lemma WalkConsumes(neighbors: Coord -> seq<Coord>, states: seq<State>)
    requires IsWalk(Moves(neighbors), states)
    ensures Consumes(states)
  {
    forall i | 0 <= i < |states| - 1 ensures states[i + 1].1 == Shrink(states[i].1, states[i].0) {
      MoveStep(neighbors, states[i], states[i + 1]);
    }
  }

  /** Along states that consume their cells, the waypoints remaining at
      the last state are those of the first state less the cells of the
      states before the last, counted with multiplicity. */
  lemma {:induction false} Remaining(states: seq<State>, path: seq<Coord>)
    requires |states| > 0 && Consumes(states)
    requires |path| == |states| && forall i :: 0 <= i < |path| ==> path[i] == states[i].0
    ensures multiset(states[|states| - 1].1) == multiset(states[0].1) - multiset(path[..|path| - 1])
  {
    var n := |states|;
    if n == 1 {
      assert path[..0] == [];
    } else {
      var front, prefix := states[..n - 1], path[..n - 1];
      assert Consumes(front) by {
        forall i | 0 <= i < |front| - 1 ensures front[i + 1].1 == Shrink(front[i].1, front[i].0) {
          assert front[i] == states[i] && front[i + 1] == states[i + 1];
        }
      }
      Remaining(front, prefix);
      assert prefix[..n - 2] == path[..n - 2];
      LeaveCell(states[0].1, path, n - 2, states[n - 2].1);
    }
  }

  /** Leaving the cell `path[k]` takes one more copy of it away from the
      waypoints that remain. */
  lemma LeaveCell(waypoints: seq<Coord>, path: seq<Coord>, k: nat, rest: seq<Coord>)
    requires k < |path|
    requires multiset(rest) == multiset(waypoints) - multiset(path[..k])
    ensures multiset(Shrink(rest, path[k])) == multiset(waypoints) - multiset(path[..k + 1])
  {
    ShrinkMultiset(rest, path[k]);
    LessOne(multiset(waypoints), multiset(path[..k]), path[k]);
    PrefixCount(path, k);
  }

  /** A walk of states from the state `(start, waypoints)` to a final
      state walks its cells through the maze from the
      start, ends on a waypoint and passes every waypoint as often as it
      occurs. */
  lemma Toured(neighbors: Coord -> seq<Coord>, waypoints: seq<Coord>, states: seq<State>, path: seq<Coord>)
    requires IsWalk(Moves(neighbors), states) && states[0].1 == waypoints
    requires |path| == |states| && forall i :: 0 <= i < |path| ==> path[i] == states[i].0
    requires Final(states[|states| - 1])
    ensures IsWalk(neighbors, path)
    ensures path[|path| - 1] in waypoints
    ensures multiset(waypoints) <= multiset(path)
  {
    CellWalk(neighbors, states, path);
    WalkConsumes(neighbors, states);
    Remaining(states, path);
    FinalCover(waypoints, path, states[|states| - 1].1);
  }

  /** When the waypoints left after the cells before the last one are just
      the last cell, the path ends on a waypoint and covers them all. */
  lemma FinalCover(waypoints: seq<Coord>, path: seq<Coord>, rest: seq<Coord>)
    requires |path| > 0 && multiset(rest) == multiset(waypoints) - multiset(path[..|path| - 1])
    requires |rest| == 1 && path[|path| - 1] in rest
    ensures path[|path| - 1] in waypoints
    ensures multiset(waypoints) <= multiset(path)
  {
    var n := |path|;
    assert rest == [path[n - 1]];
    Restored(multiset(waypoints), multiset(path[..n - 1]), path[n - 1]);
    PrefixCount(path, n - 1);
    assert path[..n] == path;
  }

  /** The states a walk through the maze passes: each cell with the
      waypoints that remain once the cells before it have been left. */
  ghost function Along(waypoints: seq<Coord>, path: seq<Coord>): (r: seq<State>)
    requires |path| > 0
    ensures |r| == |path| && r[0] == (path[0], waypoints)
    ensures forall k :: 0 <= k < |r| ==> r[k].0 == path[k]
    ensures forall k :: 0 <= k < |r| - 1 ==> r[k + 1].1 == Shrink(r[k].1, path[k])
  {
    if |path| == 1 then [(path[0], waypoints)]
    else
      var front := Along(waypoints, path[..|path| - 1]);
      front + [(path[|path| - 1], Shrink(front[|front| - 1].1, path[|path| - 2]))]
  }

  /** The states along a walk through the maze walk the state graph. */
  lemma AlongWalk(neighbors: Coord -> seq<Coord>, waypoints: seq<Coord>, path: seq<Coord>)
    requires IsWalk(neighbors, path)
    ensures IsWalk(Moves(neighbors), Along(waypoints, path))
  {
    var states := Along(waypoints, path);
    forall i | 0 <= i < |path| - 1 ensures states[i + 1] in Moves(neighbors)(states[i]) {
      var next := Successors(neighbors(path[i]), Shrink(states[i].1, path[i]));
      var j :| 0 <= j < |neighbors(path[i])| && neighbors(path[i])[j] == path[i + 1];
      assert next[j] == states[i + 1];
    }
  }

  /** A walk without its last step is a walk. */
  lemma WalkFront<S(!new)>(succ: S -> seq<S>, w: seq<S>)
    requires IsWalk(succ, w) && |w| > 1
    ensures IsWalk(succ, w[..|w| - 1])
  {
    var front := w[..|w| - 1];
    forall i | 0 <= i < |front| - 1 ensures front[i + 1] in succ(front[i]) {
      assert front[i] == w[i] && front[i + 1] == w[i + 1];
    }
  }

  /** What `before` leaves of `m` is one `c`, so `before` and `c` cover
      `m`. */
  lemma Restored(m: multiset<Coord>, before: multiset<Coord>, c: Coord)
    requires m - before == multiset{c}
    ensures c in m && m <= before + multiset{c}
  {
    assert (m - before)[c] == 1;
    forall x ensures m[x] <= (before + multiset{c})[x] {
      assert (m - before)[x] == multiset{c}[x];
    }
  }

  /** When `m` is covered once `c` is added to `before` but not without
      it, exactly one `c` of `m` is left uncovered by `before`. */
  lemma LastOne(m: multiset<Coord>, before: multiset<Coord>, c: Coord)
    requires m <= before + multiset{c} && !(m <= before)
    ensures m - before == multiset{c}
  {
    forall x ensures (m - before)[x] == multiset{c}[x] {
      assert m[x] <= before[x] + multiset{c}[x];
    }
  }

  /** A walk through the maze that passes every waypoint, as often as it
      occurs, leads the state graph to a final state: the first state
      along it whose cell completes the cover. */
  lemma {:induction false} CoveringReachesFinal(neighbors: Coord -> seq<Coord>, waypoints: seq<Coord>, path: seq<Coord>)
    requires IsWalk(neighbors, path) && |waypoints| > 0
    requires multiset(waypoints) <= multiset(path)
    ensures exists s {:trigger Reachable(Moves(neighbors), (path[0], waypoints), s)} ::
              Reachable(Moves(neighbors), (path[0], waypoints), s) && Final(s)
  {
    var n := |path|;
    var m := multiset(waypoints);
    if n > 1 && m <= multiset(path[..n - 1]) {
      WalkFront(neighbors, path);
      CoveringReachesFinal(neighbors, waypoints, path[..n - 1]);
    } else {
      var states := Along(waypoints, path);
      AlongWalk(neighbors, waypoints, path);
      Remaining(states, path);
      var last := states[n - 1];
      PrefixCount(path, n - 1);
      assert path[..n] == path;
      if n == 1 {
        assert waypoints[0] in m;
      }
      LastOne(m, multiset(path[..n - 1]), path[n - 1]);
      assert last.0 in multiset(last.1);
      assert Final(last);
      assert Reachable(Moves(neighbors), (path[0], waypoints), last) by {
        assert IsWalk(Moves(neighbors), states);
      }
    }
  }
}
