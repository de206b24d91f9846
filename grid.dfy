/** Grid coordinates and the Manhattan distance between them
    (`manhattan_distance` in Search/search.py). */
module Grid {

  /** A maze cell `(row, col)`, as the source's 2-tuples. */
  type Coord = (int, int)

  function Abs(x: int): (r: nat)
    ensures r == x || r == -x
  {
    if x < 0 then -x else x
  }

  /** `manhattan_distance(a, b)`: column difference plus row difference. */
  function ManhattanDistance(a: Coord, b: Coord): (d: nat)
    ensures d == 0 <==> a == b
    ensures d >= Abs(a.0 - b.0) && d >= Abs(a.1 - b.1)
  {
    Abs(a.1 - b.1) + Abs(a.0 - b.0)
  }

  lemma ManhattanSymmetric(a: Coord, b: Coord)
    ensures ManhattanDistance(a, b) == ManhattanDistance(b, a)
  {
  }

  lemma ManhattanTriangle(a: Coord, b: Coord, c: Coord)
    ensures ManhattanDistance(a, c) <= ManhattanDistance(a, b) + ManhattanDistance(b, c)
  {
  }

  /** Python's `<` on 2-tuples: lexicographic. */
  predicate Less(a: Coord, b: Coord)
  {
    a.0 < b.0 || (a.0 == b.0 && a.1 < b.1)
  }

  lemma LessTrichotomy(a: Coord, b: Coord)
    ensures Less(a, b) || a == b || Less(b, a)
    ensures !(Less(a, b) && Less(b, a))
    ensures !Less(a, a)
  {
  }

  lemma LessTransitive(a: Coord, b: Coord, c: Coord)
    requires Less(a, b) && Less(b, c)
    ensures Less(a, c)
  {
  }

  /** Python's `<` on tuples of coordinates: the first differing element
      decides, and a proper prefix is smaller. */
  predicate SeqLess(a: seq<Coord>, b: seq<Coord>)
  {
    if |a| == 0 then |b| > 0
    else if |b| == 0 then false
    else Less(a[0], b[0]) || (a[0] == b[0] && SeqLess(a[1..], b[1..]))
  }

  lemma {:induction false} SeqLessIrreflexive(a: seq<Coord>)
    ensures !SeqLess(a, a)
  {
    if |a| > 0 {
      SeqLessIrreflexive(a[1..]);
    }
  }

  lemma {:induction false} SeqLessTransitive(a: seq<Coord>, b: seq<Coord>, c: seq<Coord>)
    requires SeqLess(a, b) && SeqLess(b, c)
    ensures SeqLess(a, c)
  {
    if |a| > 0 && |b| > 0 && |c| > 0 && a[0] == b[0] && b[0] == c[0] {
      SeqLessTransitive(a[1..], b[1..], c[1..]);
    }
  }
}
