/** The `MST` helper class of Search/search.py: a union-find over the
    waypoints (`resolve`, `unify`) and Kruskal's algorithm over every pair of
    waypoints (`compute_mst_weight`), with the pure specification it is
    proved against. */
module Mst {
  import opened Wrappers
  import opened Grid
  import opened Collections

  // ---------------------------------------------------------------------
  // The union-find forest, as a parent map (`None` marks a root).
  // ---------------------------------------------------------------------

  /** A parent map is a forest when every parent is an element and sits
      strictly higher than its child; the ghost heights are what makes
      walking to a root terminate. */
  ghost predicate Forest(parent: map<Coord, Option<Coord>>, height: map<Coord, int>)
  {
    && height.Keys == parent.Keys
    && forall x {:trigger parent[x]} :: x in parent && parent[x].Some? ==>
         parent[x].value in parent && height[x] < height[parent[x].value]
  }

  /** The elements strictly higher than `x`. */
  ghost function Above(height: map<Coord, int>, x: Coord): set<Coord>
    requires x in height
  {
    set y | y in height && height[y] > height[x]
  }

  lemma AboveShrinks(height: map<Coord, int>, x: Coord, p: Coord)
    requires x in height && p in height && height[x] < height[p]
    ensures |Above(height, p)| < |Above(height, x)|
  {
    assert Above(height, p) < Above(height, x) by {
      assert p in Above(height, x) && p !in Above(height, p);
    }
    StrictSubsetCard(Above(height, p), Above(height, x));
  }

  /** The root reached by following parents from `x`. */
  ghost function RootOf(parent: map<Coord, Option<Coord>>, height: map<Coord, int>, x: Coord): (r: Coord)
    requires Forest(parent, height) && x in parent
    ensures r in parent && parent[r] == None
    decreases |Above(height, x)|
  {
    match parent[x]
    case None => x
    case Some(p) =>
      AboveShrinks(height, x, p);
      RootOf(parent, height, p)
  }

  /** The non-root elements visited when walking from `x` to its root. */
  ghost function Chain(parent: map<Coord, Option<Coord>>, height: map<Coord, int>, x: Coord): seq<Coord>
    requires Forest(parent, height) && x in parent
    decreases |Above(height, x)|
  {
    match parent[x]
    case None => []
    case Some(p) =>
      AboveShrinks(height, x, p);
      [x] + Chain(parent, height, p)
  }

  /** `rep` is the partition the forest stands for: a root is its own
      representative and every other element shares its parent's. */
  ghost predicate Represents(parent: map<Coord, Option<Coord>>, height: map<Coord, int>, rep: map<Coord, Coord>)
  {
    && Forest(parent, height)
    && rep.Keys == parent.Keys
    && forall x {:trigger parent[x]} :: x in parent ==>
         rep[x] == (if parent[x].None? then x else rep[parent[x].value])
  }

  /** The representative of `x` is the root reached from `x`. */
  lemma {:induction false} RepIsRoot(
    parent: map<Coord, Option<Coord>>, height: map<Coord, int>, rep: map<Coord, Coord>, x: Coord)
    requires Represents(parent, height, rep) && x in parent
    ensures rep[x] == RootOf(parent, height, x)
    decreases |Above(height, x)|
  {
    match parent[x]
    case None =>
    case Some(p) =>
      AboveShrinks(height, x, p);
      RepIsRoot(parent, height, rep, p);
  }

  /** An element is a root exactly when it is its own representative. */
  lemma RootsAreOwnClass(parent: map<Coord, Option<Coord>>, height: map<Coord, int>, rep: map<Coord, Coord>, x: Coord)
    requires Represents(parent, height, rep) && x in parent
    ensures parent[x] == None <==> rep[x] == x
  {
    RepIsRoot(parent, height, rep, x);
    if parent[x].Some? {
      assert parent[RootOf(parent, height, x)] == None;
    }
  }

  /** Every element of the chain from `x` is below the root of `x`, is not a
      root, and has that same root. */
  lemma {:induction false} ChainFacts(parent: map<Coord, Option<Coord>>, height: map<Coord, int>, x: Coord)
    requires Forest(parent, height) && x in parent
    ensures forall y :: y in Chain(parent, height, x) ==>
      && y in parent && parent[y].Some?
      && height[y] < height[RootOf(parent, height, x)]
      && RootOf(parent, height, y) == RootOf(parent, height, x)
    decreases |Above(height, x)|
  {
    match parent[x]
    case None =>
    case Some(p) =>
      AboveShrinks(height, x, p);
      ChainFacts(parent, height, p);
  }

  /** `parent'` is `parent` after `resolve(key)`: every element of the
      chain from `key` points straight at its root, nothing else changed. */
  ghost predicate CompressedFrom(
    parent: map<Coord, Option<Coord>>, parent': map<Coord, Option<Coord>>, height: map<Coord, int>, key: Coord)
    requires Forest(parent, height) && key in parent
  {
    && parent'.Keys == parent.Keys
    && forall y {:trigger parent'[y]} :: y in parent ==>
         parent'[y] == (if y in Chain(parent, height, key) then Some(RootOf(parent, height, key)) else parent[y])
  }

  /** Path compression leaves the forest a forest over the same partition. */
  lemma CompressKeepsRep(
    parent: map<Coord, Option<Coord>>, parent': map<Coord, Option<Coord>>,
    height: map<Coord, int>, rep: map<Coord, Coord>, key: Coord)
    requires Represents(parent, height, rep) && key in parent
    requires CompressedFrom(parent, parent', height, key)
    ensures Represents(parent', height, rep)
  {
    ChainFacts(parent, height, key);
    var root := RootOf(parent, height, key);
    RepIsRoot(parent, height, rep, key);
    RootsAreOwnClass(parent, height, rep, root);
    forall y | y in Chain(parent, height, key) ensures rep[y] == root {
      RepIsRoot(parent, height, rep, y);
    }
  }

  /** `parent'` and `height'` are `parent` and `height` after root `rb` is
      hung under root `ra`. */
  ghost predicate LinkedFrom(
    parent: map<Coord, Option<Coord>>, parent': map<Coord, Option<Coord>>,
    height: map<Coord, int>, height': map<Coord, int>, ra: Coord, rb: Coord)
    requires ra in height && rb in height
  {
    && parent'.Keys == parent.Keys && height'.Keys == height.Keys
    && (forall x {:trigger parent'[x]} :: x in parent ==> parent'[x] == (if x == rb then Some(ra) else parent[x]))
    && (forall x {:trigger height'[x]} :: x in height ==>
          height'[x] == (if x == ra then Max(height[ra], height[rb] + 1) else height[x]))
  }

  /** `rep'` is partition `rep` with class `rb` merged into class `ra`. */
  ghost predicate MergedFrom(rep: map<Coord, Coord>, rep': map<Coord, Coord>, ra: Coord, rb: Coord)
  {
    && rep'.Keys == rep.Keys
    && forall x {:trigger rep'[x]} :: x in rep ==> rep'[x] == (if rep[x] == rb then ra else rep[x])
  }

  /** Linking root `rb` under root `ra` merges class `rb` into class `ra`. */
  lemma LinkMergesRep(
    parent: map<Coord, Option<Coord>>, parent': map<Coord, Option<Coord>>,
    height: map<Coord, int>, height': map<Coord, int>,
    rep: map<Coord, Coord>, rep': map<Coord, Coord>, ra: Coord, rb: Coord)
    requires Represents(parent, height, rep)
    requires ra in parent && rb in parent && ra != rb
    requires parent[ra] == None && parent[rb] == None
    requires LinkedFrom(parent, parent', height, height', ra, rb) && MergedFrom(rep, rep', ra, rb)
    ensures Represents(parent', height', rep')
  {
    assert rep[ra] == ra && rep[rb] == rb;
  }

  /** Hanging root `rb` under root `ra`, as `unify` does, links the
      forest, merges the classes and keeps the partition represented. */
  lemma LinkStep(parent: map<Coord, Option<Coord>>, height: map<Coord, int>, rep: map<Coord, Coord>,
                 ra: Coord, rb: Coord)
    requires Represents(parent, height, rep)
    requires ra in parent && rb in parent && ra != rb
    requires parent[ra] == None && parent[rb] == None
    ensures ra in height && rb in height
    ensures var parent', height' := parent[rb := Some(ra)], height[ra := Max(height[ra], height[rb] + 1)];
            && LinkedFrom(parent, parent', height, height', ra, rb)
            && MergedFrom(rep, Merge(rep, ra, rb), ra, rb)
            && Represents(parent', height', Merge(rep, ra, rb))
  {
    var parent', height' := parent[rb := Some(ra)], height[ra := Max(height[ra], height[rb] + 1)];
    LinkMergesRep(parent, parent', height, height', rep, Merge(rep, ra, rb), ra, rb);
  }

  /** `MergedFrom` pins down the merged partition. */
  lemma MergedIsMerge(rep: map<Coord, Coord>, rep': map<Coord, Coord>, ra: Coord, rb: Coord)
    requires MergedFrom(rep, rep', ra, rb)
    ensures rep' == Merge(rep, ra, rb)
  {
  }

  /** Both ends of every pair in `distances` are in `keys`. */
  ghost predicate PairsOver(distances: map<(Coord, Coord), nat>, keys: set<Coord>)
  {
    forall p :: p in distances ==> p.0 in keys && p.1 in keys
  }

  function Max(a: int, b: int): int
  {
    if a < b then b else a
  }

  // ---------------------------------------------------------------------
  // The abstract partition and the operation `unify` performs on it.
  // ---------------------------------------------------------------------

  /** Every member of class `rb` moves to class `ra`. */
  function Merge(rep: map<Coord, Coord>, ra: Coord, rb: Coord): map<Coord, Coord>
  {
    map x | x in rep :: if rep[x] == rb then ra else rep[x]
  }

  /** The classes of a partition, named by their representatives. */
  function Classes(rep: map<Coord, Coord>): set<Coord>
  {
    set x | x in rep :: rep[x]
  }

  /** Merging two different classes leaves one class fewer. */
  lemma MergeDropsClass(rep: map<Coord, Coord>, a: Coord, b: Coord)
    requires a in rep && b in rep && rep[a] != rep[b]
    ensures Classes(Merge(rep, rep[a], rep[b])) == Classes(rep) - {rep[b]}
    ensures |Classes(Merge(rep, rep[a], rep[b]))| == |Classes(rep)| - 1
  {
    var rep' := Merge(rep, rep[a], rep[b]);
    forall v | v in Classes(rep) - {rep[b]} ensures v in Classes(rep') {
      var x :| x in rep && rep[x] == v;
      assert rep'[x] == v;
    }
    assert rep'[a] == rep[a];
  }

  // ---------------------------------------------------------------------
  // `cross`: the pairs (i, j) with i < j, in the source's iteration order.
  // ---------------------------------------------------------------------

  /** `(i, j) for j in keys if i < j` */
  function Partners(i: Coord, keys: seq<Coord>): (r: seq<(Coord, Coord)>)
    ensures forall p :: p in r <==> p.0 == i && p.1 in keys && Less(i, p.1)
  {
    if keys == [] then []
    else (if Less(i, keys[0]) then [(i, keys[0])] else []) + Partners(i, keys[1..])
  }

  function CrossRows(rows: seq<Coord>, keys: seq<Coord>): (r: seq<(Coord, Coord)>)
    ensures forall p :: p in r <==> p.0 in rows && p.1 in keys && Less(p.0, p.1)
  {
    if rows == [] then [] else Partners(rows[0], keys) + CrossRows(rows[1..], keys)
  }

  /** `MST.cross(keys)`: every pair of keys in increasing order. */
  function Cross(keys: seq<Coord>): (r: seq<(Coord, Coord)>)
    ensures forall p :: p in r <==> p.0 in keys && p.1 in keys && Less(p.0, p.1)
  {
    CrossRows(keys, keys)
  }

  lemma DistinctConcat<T>(a: seq<T>, b: seq<T>)
    requires Distinct(a) && Distinct(b)
    requires forall x :: x in a ==> x !in b
    ensures Distinct(a + b)
  {
    forall i, j | 0 <= i < j < |a + b| ensures (a + b)[i] != (a + b)[j] {
      if i < |a| && j >= |a| {
        assert (a + b)[i] in a && (a + b)[j] in b;
      }
    }
  }

  lemma {:induction false} PartnersDistinct(i: Coord, keys: seq<Coord>)
    requires Distinct(keys)
    ensures Distinct(Partners(i, keys))
  {
    if keys != [] {
      PartnersDistinct(i, keys[1..]);
      DistinctConcat(if Less(i, keys[0]) then [(i, keys[0])] else [], Partners(i, keys[1..]));
    }
  }

  lemma {:induction false} CrossRowsDistinct(rows: seq<Coord>, keys: seq<Coord>)
    requires Distinct(rows) && Distinct(keys)
    ensures Distinct(CrossRows(rows, keys))
  {
    if rows != [] {
      PartnersDistinct(rows[0], keys);
      CrossRowsDistinct(rows[1..], keys);
      assert rows[0] !in rows[1..];
      DistinctConcat(Partners(rows[0], keys), CrossRows(rows[1..], keys));
    }
  }

  /** For distinct keys, `cross` yields every unordered pair exactly once:
      the pair appears (in increasing order) and never twice. */
  lemma CrossPairsOnce(keys: seq<Coord>)
    requires Distinct(keys)
    ensures Distinct(Cross(keys))
    ensures forall a, b :: a in keys && b in keys && a != b ==>
      ((a, b) in Cross(keys) || (b, a) in Cross(keys)) && !((a, b) in Cross(keys) && (b, a) in Cross(keys))
  {
    CrossRowsDistinct(keys, keys);
    forall a, b | a in keys && b in keys && a != b
      ensures ((a, b) in Cross(keys) || (b, a) in Cross(keys)) && !((a, b) in Cross(keys) && (b, a) in Cross(keys))
    {
      LessTrichotomy(a, b);
    }
  }

  // ---------------------------------------------------------------------
  // The `distances` table and its sorted entries.
  // ---------------------------------------------------------------------

  /** A sort key `(distance, i, j)` from `compute_mst_weight`. */
  type Edge = (nat, Coord, Coord)

  /** Python's `<` on `(distance, i, j)` triples. */
  predicate EdgeLess(a: Edge, b: Edge)
  {
    a.0 < b.0 || (a.0 == b.0 && (Less(a.1, b.1) || (a.1 == b.1 && Less(a.2, b.2))))
  }

  lemma EdgeTrichotomy(a: Edge, b: Edge)
    ensures EdgeLess(a, b) || a == b || EdgeLess(b, a)
    ensures !(EdgeLess(a, b) && EdgeLess(b, a))
  {
    LessTrichotomy(a.1, b.1);
    LessTrichotomy(a.2, b.2);
  }

  lemma EdgeTransitive(a: Edge, b: Edge, c: Edge)
    requires EdgeLess(a, b) && EdgeLess(b, c)
    ensures EdgeLess(a, c)
  {
  }

  /** The dict comprehension in `MST.__init__`. */
  function DistanceTable(objectives: seq<Coord>): map<(Coord, Coord), nat>
  {
    map p | p in Cross(objectives) :: ManhattanDistance(p.0, p.1)
  }

  /** The pairs of `keys` in increasing order. */
  ghost function Pairs(keys: set<Coord>): set<(Coord, Coord)>
  {
    set a, b | a in keys && b in keys && Less(a, b) :: (a, b)
  }

  /** Pairing `x` with each key of `s` gives as many pairs as keys. */
  lemma {:induction false} PairsFromCard(x: Coord, s: set<Coord>)
    ensures |set b | b in s :: (x, b)| == |s|
    decreases s
  {
    if s != {} {
      var y :| y in s;
      PairsFromCard(x, s - {y});
      assert (set b | b in s :: (x, b)) == (set b | b in s - {y} :: (x, b)) + {(x, y)};
    }
  }

  /** Pairing each key of `s` with `x` gives as many pairs as keys. */
  lemma {:induction false} PairsToCard(x: Coord, s: set<Coord>)
    ensures |set a | a in s :: (a, x)| == |s|
    decreases s
  {
    if s != {} {
      var y :| y in s;
      PairsToCard(x, s - {y});
      assert (set a | a in s :: (a, x)) == (set a | a in s - {y} :: (a, x)) + {(y, x)};
    }
  }

  /** The keys of `rest` above `x`. */
  ghost function Greater(x: Coord, rest: set<Coord>): set<Coord>
  {
    set b | b in rest && Less(x, b)
  }

  /** The keys of `rest` below `x`. */
  ghost function Smaller(x: Coord, rest: set<Coord>): set<Coord>
  {
    set a | a in rest && Less(a, x)
  }

  /** The pairs that adding `x` to `rest` contributes: `x` with each key
      above it and each key below it. */
  ghost function PairsWith(x: Coord, rest: set<Coord>): set<(Coord, Coord)>
  {
    (set b | b in Greater(x, rest) :: (x, b)) + (set a | a in Smaller(x, rest) :: (a, x))
  }

  /** Every key other than `x` is above it or below it, not both. */
  lemma SidesCount(x: Coord, rest: set<Coord>)
    requires x !in rest
    ensures |Greater(x, rest)| + |Smaller(x, rest)| == |rest|
  {
    var above, below := Greater(x, rest), Smaller(x, rest);
    forall y | y in rest ensures y in above <==> y !in below {
      LessTrichotomy(x, y);
    }
    assert above + below == rest && above * below == {};
  }

  /** A key not in `rest` pairs once with each key of `rest`. */
  lemma PairsWithCount(x: Coord, rest: set<Coord>)
    requires x !in rest
    ensures |PairsWith(x, rest)| == |rest|
  {
    var up := set b | b in Greater(x, rest) :: (x, b);
    var down := set a | a in Smaller(x, rest) :: (a, x);
    PairsFromCard(x, Greater(x, rest));
    PairsToCard(x, Smaller(x, rest));
    assert up * down == {} by {
      forall p | p in up && p in down ensures false {
        LessTrichotomy(x, p.1);
      }
    }
    SidesCount(x, rest);
  }

  /** Adding `x` to `rest` adds exactly the pairs with `x`. */
  lemma PairsAdd(x: Coord, rest: set<Coord>)
    requires x !in rest
    ensures Pairs(rest + {x}) == Pairs(rest) + PairsWith(x, rest)
    ensures Pairs(rest) !! PairsWith(x, rest)
  {
    forall p | p in Pairs(rest + {x}) ensures p in Pairs(rest) + PairsWith(x, rest) {
      LessTrichotomy(p.0, p.1);
    }
  }

  /** There are k(k-1)/2 increasing pairs of k keys. */
  lemma {:induction false} PairsCount(keys: set<Coord>)
    ensures 2 * |Pairs(keys)| == |keys| * (|keys| - 1)
    decreases keys
  {
    if keys != {} {
      var x :| x in keys;
      var rest := keys - {x};
      assert keys == rest + {x};
      PairsCount(rest);
      PairsAdd(x, rest);
      PairsWithCount(x, rest);
      assert |Pairs(keys)| == |Pairs(rest)| + |rest|;
      assert |keys| == |rest| + 1;
      PairsArithmetic(|rest|, |Pairs(rest)|);
    }
  }

  lemma PairsArithmetic(n: nat, p: nat)
    requires 2 * p == n * (n - 1)
    ensures 2 * (p + n) == (n + 1) * n
  {
  }

  /** `self.distances` holds one entry for each unordered pair of distinct
      waypoints: k(k-1)/2 entries for k distinct waypoints. */
  lemma DistanceTableSize(objectives: seq<Coord>)
    ensures var k := |set x | x in objectives|;
            |DistanceTable(objectives)| == k * (k - 1) / 2
  {
    var keys := set x | x in objectives;
    assert DistanceTable(objectives).Keys == Pairs(keys);
    PairsCount(keys);
  }

  /** The triples `(self.distances[(i, j)], i, j)` that `sorted` receives. */
  function Entries(distances: map<(Coord, Coord), nat>): (r: set<Edge>)
    ensures forall e :: e in r <==> (e.1, e.2) in distances && e.0 == distances[(e.1, e.2)]
  {
    set p | p in distances :: (distances[p], p.0, p.1)
  }

  ghost predicate StrictlySorted(s: seq<Edge>)
  {
    forall i, j :: 0 <= i < j < |s| ==> EdgeLess(s[i], s[j])
  }

  predicate IsLeast(e: Edge, s: set<Edge>)
  {
    e in s && forall x :: x in s && x != e ==> EdgeLess(e, x)
  }

  lemma {:induction false} LeastExists(s: set<Edge>)
    requires s != {}
    ensures exists e :: IsLeast(e, s)
    decreases |s|
  {
    var x :| x in s;
    if s == {x} {
      assert IsLeast(x, s);
    } else {
      LeastExists(s - {x});
      var e :| IsLeast(e, s - {x});
      EdgeTrichotomy(e, x);
      if EdgeLess(e, x) {
        assert IsLeast(e, s);
      } else {
        forall y | y in s && y != x ensures EdgeLess(x, y) {
          if y != e { EdgeTransitive(x, e, y); }
        }
        assert IsLeast(x, s);
      }
    }
  }

  lemma LeastUnique(e: Edge, f: Edge, s: set<Edge>)
    requires IsLeast(e, s) && IsLeast(f, s)
    ensures e == f
  {
    if e != f { EdgeTrichotomy(e, f); }
  }

  /** The entries of `s` in increasing order: what `sorted` returns. */
  ghost function SortSet(s: set<Edge>): seq<Edge>
    decreases |s|
  {
    if s == {} then [] else [Least(s)] + SortSet(s - {Least(s)})
  }

  /** The least element of a non-empty set of entries. */
  ghost function Least(s: set<Edge>): (e: Edge)
    requires s != {}
    ensures IsLeast(e, s)
  {
    LeastExists(s);
    var e :| IsLeast(e, s);
    e
  }

  /** `SortSet(s)` lists exactly the elements of `s`, in strictly increasing
      order. */
  lemma {:induction false} SortSetSorts(s: set<Edge>)
    ensures forall e :: e in SortSet(s) <==> e in s
    ensures StrictlySorted(SortSet(s))
    decreases |s|
  {
    if s != {} {
      var e := Least(s);
      SortSetSorts(s - {e});
      var rest := SortSet(s - {e});
      forall i, j | 0 <= i < j < |SortSet(s)| ensures EdgeLess(SortSet(s)[i], SortSet(s)[j]) {
        if i == 0 {
          assert SortSet(s)[j] == rest[j - 1] && rest[j - 1] in s - {e};
        } else {
          assert SortSet(s)[i] == rest[i - 1] && SortSet(s)[j] == rest[j - 1];
        }
      }
    }
  }

  /** The head of a sorted enumeration of `s` is its least element. */
  lemma SortSetHead(s: set<Edge>, e: Edge)
    requires IsLeast(e, s)
    ensures SortSet(s) == [e] + SortSet(s - {e})
  {
    LeastUnique(e, Least(s), s);
  }

  /** `sorted(...)` over the entries of `distances`: a selection of the
      least remaining entry, one at a time. */
  method SortEntries(distances: map<(Coord, Coord), nat>) returns (sorted: seq<Edge>)
    ensures sorted == SortSet(Entries(distances))
  {
    var rest := Entries(distances);
    sorted := [];
    while rest != {}
      invariant sorted + SortSet(rest) == SortSet(Entries(distances))
      decreases |rest|
    {
      LeastExists(rest);
      var e :| IsLeast(e, rest);
      SortSetHead(rest, e);
      sorted := sorted + [e];
      rest := rest - {e};
    }
  }

  // ---------------------------------------------------------------------
  // Kruskal's algorithm as a function of the partition and the edge order.
  // ---------------------------------------------------------------------

  ghost predicate EdgesIn(rep: map<Coord, Coord>, edges: seq<Edge>)
  {
    forall e :: e in edges ==> e.1 in rep && e.2 in rep
  }

  /** The edges `unify` accepts: those whose ends are in different classes
      when the edge comes up. */
  function Accepted(rep: map<Coord, Coord>, edges: seq<Edge>): seq<Edge>
    requires EdgesIn(rep, edges)
  {
    if edges == [] then []
    else
      var e := edges[0];
      if rep[e.1] == rep[e.2] then Accepted(rep, edges[1..])
      else [e] + Accepted(Merge(rep, rep[e.1], rep[e.2]), edges[1..])
  }

  /** The partition after all edges have been offered. */
  function FinalRep(rep: map<Coord, Coord>, edges: seq<Edge>): (rep': map<Coord, Coord>)
    requires EdgesIn(rep, edges)
    ensures rep'.Keys == rep.Keys
  {
    if edges == [] then rep
    else
      var e := edges[0];
      if rep[e.1] == rep[e.2] then FinalRep(rep, edges[1..])
      else FinalRep(Merge(rep, rep[e.1], rep[e.2]), edges[1..])
  }

  /** Total distance of a list of edges. */
  function Weight(edges: seq<Edge>): nat
  {
    if edges == [] then 0 else edges[0].0 + Weight(edges[1..])
  }

  lemma WeightAppend(a: seq<Edge>, b: seq<Edge>)
    ensures Weight(a + b) == Weight(a) + Weight(b)
  {
    if a == [] {
      assert a + b == b;
    } else {
      assert (a + b)[0] == a[0] && (a + b)[1..] == a[1..] + b;
      calc {
        Weight(a + b);
        a[0].0 + Weight(a[1..] + b);
        { WeightAppend(a[1..], b); }
        a[0].0 + Weight(a[1..]) + Weight(b);
      }
    }
  }

  /** Every element its own class: a fresh union-find. */
  function Singletons(objectives: seq<Coord>): (rep: map<Coord, Coord>)
    ensures Classes(rep) == set x | x in objectives
  {
    var rep := map x | x in objectives :: x;
    assert forall x :: x in objectives ==> rep[x] == x;
    rep
  }

  /** The edges Kruskal's algorithm considers for `objectives`, in order. */
  ghost function SortedEdges(objectives: seq<Coord>): (edges: seq<Edge>)
    ensures EdgesIn(Singletons(objectives), edges)
  {
    SortedEdgesIn(objectives);
    SortSet(Entries(DistanceTable(objectives)))
  }

  /** The sorted entries of a table whose pairs are all elements of `rep`
      only join elements of `rep`. */
  lemma EntriesIn(distances: map<(Coord, Coord), nat>, rep: map<Coord, Coord>)
    requires forall p :: p in distances ==> p.0 in rep && p.1 in rep
    ensures EdgesIn(rep, SortSet(Entries(distances)))
  {
    SortSetSorts(Entries(distances));
    forall e | e in SortSet(Entries(distances)) ensures e.1 in rep && e.2 in rep {
      assert e in Entries(distances);
      var p :| p in distances && e == (distances[p], p.0, p.1);
    }
  }

  lemma SortedEdgesIn(objectives: seq<Coord>)
    ensures EdgesIn(Singletons(objectives), SortSet(Entries(DistanceTable(objectives))))
  {
    var table := DistanceTable(objectives);
    SortSetSorts(Entries(table));
    forall e | e in SortSet(Entries(table)) ensures e.1 in objectives && e.2 in objectives {
      assert e in Entries(table);
      var p :| p in table && e == (table[p], p.0, p.1);
      assert p in Cross(objectives);
    }
  }

  /** `MST(objectives).compute_mst_weight()`: the weight of a minimum
      spanning tree. Some list of table edges that connects the waypoints
      (Kruskal's own) weighs exactly this, and none weighs less. */
  ghost function MstWeight(objectives: seq<Coord>): (w: nat)
    ensures forall t {:trigger Connects(objectives, t)} ::
              TableEdges(objectives, t) && Connects(objectives, t) ==> w <= Weight(t)
    ensures exists t {:trigger Connects(objectives, t)} ::
              TableEdges(objectives, t) && Connects(objectives, t) && w == Weight(t)
  {
    forall t | TableEdges(objectives, t) && Connects(objectives, t)
      ensures Weight(MstEdges(objectives)) <= Weight(t)
    {
      KruskalMinimal(objectives, t);
    }
    KruskalSpans(objectives);
    Weight(MstEdges(objectives))
  }

  /** Each accepted edge merges two classes: the accepted edges and the
      classes left at the end account for every class at the start. */
  lemma {:induction false} AcceptedCount(rep: map<Coord, Coord>, edges: seq<Edge>)
    requires EdgesIn(rep, edges)
    ensures |Accepted(rep, edges)| + |Classes(FinalRep(rep, edges))| == |Classes(rep)|
    decreases |edges|
  {
    if edges != [] {
      var e := edges[0];
      assert EdgesIn(rep, edges[1..]);
      if rep[e.1] == rep[e.2] {
        AcceptedCount(rep, edges[1..]);
      } else {
        MergeDropsClass(rep, e.1, e.2);
        AcceptedCount(Merge(rep, rep[e.1], rep[e.2]), edges[1..]);
      }
    }
  }

  /** Two elements in one class stay in one class. */
  lemma {:induction false} FinalKeepsJoined(rep: map<Coord, Coord>, edges: seq<Edge>, x: Coord, y: Coord)
    requires EdgesIn(rep, edges) && x in rep && y in rep && rep[x] == rep[y]
    ensures FinalRep(rep, edges)[x] == FinalRep(rep, edges)[y]
    decreases |edges|
  {
    if edges != [] {
      var e := edges[0];
      assert EdgesIn(rep, edges[1..]);
      if rep[e.1] == rep[e.2] {
        FinalKeepsJoined(rep, edges[1..], x, y);
      } else {
        FinalKeepsJoined(Merge(rep, rep[e.1], rep[e.2]), edges[1..], x, y);
      }
    }
  }

  /** After every edge has been offered, the two ends of each edge are in
      one class. */
  lemma {:induction false} FinalJoinsEdge(rep: map<Coord, Coord>, edges: seq<Edge>, i: nat)
    requires EdgesIn(rep, edges) && i < |edges|
    ensures FinalRep(rep, edges)[edges[i].1] == FinalRep(rep, edges)[edges[i].2]
    decreases |edges|
  {
    var e := edges[0];
    assert EdgesIn(rep, edges[1..]);
    var rep' := if rep[e.1] == rep[e.2] then rep else Merge(rep, rep[e.1], rep[e.2]);
    assert FinalRep(rep, edges) == FinalRep(rep', edges[1..]);
    if i == 0 {
      assert e.1 in rep && e.2 in rep;
      FinalKeepsJoined(rep', edges[1..], e.1, e.2);
    } else {
      assert edges[1..][i - 1] == edges[i];
      FinalJoinsEdge(rep', edges[1..], i - 1);
    }
  }

  /** Every pair of distinct waypoints is an edge of the sorted table, in
      one orientation or the other. */
  lemma PairIsEdge(objectives: seq<Coord>, x: Coord, y: Coord) returns (i: nat)
    requires x in objectives && y in objectives && x != y
    ensures i < |SortedEdges(objectives)|
    ensures var e := SortedEdges(objectives)[i]; (e.1, e.2) == (x, y) || (e.1, e.2) == (y, x)
  {
    var table := DistanceTable(objectives);
    LessTrichotomy(x, y);
    var p := if Less(x, y) then (x, y) else (y, x);
    assert p in Cross(objectives);
    assert (table[p], p.0, p.1) in Entries(table);
    SortSetSorts(Entries(table));
    var edges := SortedEdges(objectives);
    assert (table[p], p.0, p.1) in edges;
    i :| i < |edges| && edges[i] == (table[p], p.0, p.1);
  }

  /** Kruskal's algorithm over every pair of waypoints ends with a single
      class: the accepted edges connect all waypoints. */
  lemma KruskalConnects(objectives: seq<Coord>, x: Coord, y: Coord)
    requires x in objectives && y in objectives
    ensures FinalRep(Singletons(objectives), SortedEdges(objectives))[x]
      == FinalRep(Singletons(objectives), SortedEdges(objectives))[y]
  {
    if x != y {
      var i := PairIsEdge(objectives, x, y);
      FinalJoinsEdge(Singletons(objectives), SortedEdges(objectives), i);
    }
  }

  /** Kruskal's algorithm accepts one edge fewer than there are distinct
      waypoints: the accepted edges form a spanning tree. */
  lemma MstEdgeCount(objectives: seq<Coord>)
    requires objectives != []
    ensures |Accepted(Singletons(objectives), SortedEdges(objectives))| == |set x | x in objectives| - 1
  {
    var rep := Singletons(objectives);
    var final := FinalRep(rep, SortedEdges(objectives));
    var c := final[objectives[0]];
    forall v | v in Classes(final) ensures v == c {
      var x :| x in final && final[x] == v;
      KruskalConnects(objectives, x, objectives[0]);
    }
    assert c in Classes(final);
    assert Classes(final) == {c};
    AcceptedCount(rep, SortedEdges(objectives));
  }

  /** Every accepted edge is one of the offered edges. */
  lemma {:induction false} AcceptedFrom(rep: map<Coord, Coord>, edges: seq<Edge>)
    requires EdgesIn(rep, edges)
    ensures forall e :: e in Accepted(rep, edges) ==> e in edges
    decreases |edges|
  {
    if edges != [] {
      var e := edges[0];
      if rep[e.1] == rep[e.2] {
        AcceptedFrom(rep, edges[1..]);
      } else {
        AcceptedFrom(Merge(rep, rep[e.1], rep[e.2]), edges[1..]);
      }
    }
  }

  /** The MST weight is zero exactly when there is at most one distinct
      waypoint: any two distinct waypoints are joined by an edge of positive
      Manhattan distance. */
  lemma MstWeightZero(objectives: seq<Coord>)
    ensures MstWeight(objectives) == 0 <==> |set x | x in objectives| <= 1
  {
    var rep := Singletons(objectives);
    var edges := SortedEdges(objectives);
    var final := FinalRep(rep, edges);
    AcceptedCount(rep, edges);
    if objectives != [] {
      assert final[objectives[0]] in Classes(final);
      MstEdgeCount(objectives);
    }
    var accepted := Accepted(rep, edges);
    if |accepted| > 0 {
      AcceptedFrom(rep, edges);
      SortSetSorts(Entries(DistanceTable(objectives)));
      var table := DistanceTable(objectives);
      assert accepted[0] in Entries(table);
      var p :| p in table && accepted[0] == (table[p], p.0, p.1);
      assert p in Cross(objectives);
      assert accepted[0].0 > 0;
    }
  }

  // ---------------------------------------------------------------------
  // Minimality: no list of table edges that connects the waypoints weighs
  // less than the edges Kruskal's algorithm accepts.
  // ---------------------------------------------------------------------

  /** Every edge of `t` is an entry `(distance, i, j)` of the distance table
      of `objectives`. */
  ghost predicate TableEdges(objectives: seq<Coord>, t: seq<Edge>)
  {
    forall e :: e in t ==> e in Entries(DistanceTable(objectives))
  }

  /** Some edge of `t` joins `x` and `y`, in either orientation. */
  ghost predicate HasEdge(t: seq<Edge>, x: Coord, y: Coord)
  {
    exists k :: 0 <= k < |t| && ((t[k].1 == x && t[k].2 == y) || (t[k].1 == y && t[k].2 == x))
  }

  /** `p` is a walk along the edges of `t`. */
  ghost predicate EdgeWalk(t: seq<Edge>, p: seq<Coord>)
  {
    |p| > 0 && forall i :: 0 <= i < |p| - 1 ==> HasEdge(t, p[i], p[i + 1])
  }

  /** The edges of `t` connect the waypoints: a walk along them joins any
      two waypoints. */
  ghost predicate Connects(objectives: seq<Coord>, t: seq<Edge>)
  {
    forall x, y :: x in objectives && y in objectives ==> Linked(t, x, y)
  }

  /** A walk along the edges of `t` leads from `x` to `y`. */
  ghost predicate Linked(t: seq<Edge>, x: Coord, y: Coord)
  {
    exists p :: EdgeWalk(t, p) && p[0] == x && p[|p| - 1] == y
  }

  /** The edges Kruskal's algorithm accepts for `objectives`. */
  ghost function MstEdges(objectives: seq<Coord>): seq<Edge>
  {
    Accepted(Singletons(objectives), SortedEdges(objectives))
  }

  /** Every two elements in one class of `rep` are in one class of `rep'`. */
  ghost predicate Coarser(rep: map<Coord, Coord>, rep': map<Coord, Coord>)
  {
    && rep'.Keys == rep.Keys
    && forall x, y :: x in rep && y in rep && rep[x] == rep[y] ==> rep'[x] == rep'[y]
  }

  /** Every element is in one class. */
  ghost predicate OneClass(rep: map<Coord, Coord>)
  {
    forall x, y :: x in rep && y in rep ==> rep[x] == rep[y]
  }

  /** The partition after offering one edge to `unify`. */
  function Offer(rep: map<Coord, Coord>, e: Edge): (rep': map<Coord, Coord>)
    requires e.1 in rep && e.2 in rep
    ensures rep'.Keys == rep.Keys
  {
    if rep[e.1] == rep[e.2] then rep else Merge(rep, rep[e.1], rep[e.2])
  }

  /** Offering an edge joins its ends with each other and with their old
      classes. */
  lemma OfferJoins(rep: map<Coord, Coord>, e: Edge, z: Coord)
    requires e.1 in rep && e.2 in rep && z in rep
    requires rep[z] == rep[e.1] || rep[z] == rep[e.2]
    ensures Offer(rep, e)[z] == Offer(rep, e)[e.1]
  {
  }

  /** Offering the same edge to a finer and a coarser partition keeps them
      so ordered. */
  lemma OfferCoarser(rep: map<Coord, Coord>, rep': map<Coord, Coord>, e: Edge)
    requires Coarser(rep, rep') && e.1 in rep && e.2 in rep
    ensures Coarser(Offer(rep, e), Offer(rep', e))
  {
    var s, s' := Offer(rep, e), Offer(rep', e);
    forall x, y | x in s && y in s && s[x] == s[y] ensures s'[x] == s'[y] {
      if rep[x] == rep[y] {
        assert rep'[x] == rep'[y];
      } else {
        assert rep[x] in {rep[e.1], rep[e.2]} && rep[y] in {rep[e.1], rep[e.2]};
        assert rep'[x] in {rep'[e.1], rep'[e.2]} by {
          if rep[x] == rep[e.1] { assert rep'[x] == rep'[e.1]; } else { assert rep'[x] == rep'[e.2]; }
        }
        assert rep'[y] in {rep'[e.1], rep'[e.2]} by {
          if rep[y] == rep[e.1] { assert rep'[y] == rep'[e.1]; } else { assert rep'[y] == rep'[e.2]; }
        }
        OfferJoins(rep', e, x);
        OfferJoins(rep', e, y);
      }
    }
  }

  lemma FinalRepCons(rep: map<Coord, Coord>, e: Edge, rest: seq<Edge>)
    requires EdgesIn(rep, [e] + rest)
    ensures EdgesIn(Offer(rep, e), rest)
    ensures FinalRep(rep, [e] + rest) == FinalRep(Offer(rep, e), rest)
  {
    assert ([e] + rest)[0] == e && ([e] + rest)[1..] == rest;
  }

  /** Offering the same edges to a finer and a coarser partition keeps them
      so ordered. */
  lemma {:induction false} CoarserFinal(rep: map<Coord, Coord>, rep': map<Coord, Coord>, s: seq<Edge>)
    requires Coarser(rep, rep') && EdgesIn(rep, s)
    ensures EdgesIn(rep', s)
    ensures Coarser(FinalRep(rep, s), FinalRep(rep', s))
    decreases |s|
  {
    if s != [] {
      assert s == [s[0]] + s[1..];
      FinalRepCons(rep, s[0], s[1..]);
      FinalRepCons(rep', s[0], s[1..]);
      OfferCoarser(rep, rep', s[0]);
      CoarserFinal(Offer(rep, s[0]), Offer(rep', s[0]), s[1..]);
    }
  }

  /** Offering edges only ever joins classes. */
  lemma CoarserToFinal(rep: map<Coord, Coord>, s: seq<Edge>)
    requires EdgesIn(rep, s)
    ensures Coarser(rep, FinalRep(rep, s))
  {
    forall x, y | x in rep && y in rep && rep[x] == rep[y]
      ensures FinalRep(rep, s)[x] == FinalRep(rep, s)[y]
    {
      FinalKeepsJoined(rep, s, x, y);
    }
  }

  /** A partition with a single class has exactly one class. */
  lemma OneClassCount(rep: map<Coord, Coord>, x: Coord)
    requires OneClass(rep) && x in rep
    ensures |Classes(rep)| == 1
  {
    assert Classes(rep) == {rep[x]};
  }

  /** The ends of a walk along offered edges end up in one class. */
  lemma {:induction false} WalkJoined(rep: map<Coord, Coord>, t: seq<Edge>, p: seq<Coord>)
    requires EdgesIn(rep, t) && EdgeWalk(t, p) && p[0] in rep
    ensures p[|p| - 1] in rep
    ensures FinalRep(rep, t)[p[0]] == FinalRep(rep, t)[p[|p| - 1]]
    decreases |p|
  {
    if |p| > 1 {
      var q := p[..|p| - 1];
      assert EdgeWalk(t, q) by {
        forall i | 0 <= i < |q| - 1 ensures HasEdge(t, q[i], q[i + 1]) {
          assert q[i] == p[i] && q[i + 1] == p[i + 1];
        }
      }
      WalkJoined(rep, t, q);
      assert HasEdge(t, p[|p| - 2], p[|p| - 1]);
      var k :| 0 <= k < |t| && ((t[k].1 == p[|p| - 2] && t[k].2 == p[|p| - 1])
                              || (t[k].1 == p[|p| - 1] && t[k].2 == p[|p| - 2]));
      assert t[k] in t;
      FinalJoinsEdge(rep, t, k);
    }
  }

  /** Edges that connect the waypoints leave a single class, whatever
      partition of the waypoints they are offered to. */
  lemma ConnectsOneClass(objectives: seq<Coord>, t: seq<Edge>)
    requires Connects(objectives, t) && EdgesIn(Singletons(objectives), t)
    ensures OneClass(FinalRep(Singletons(objectives), t))
  {
    var rep := Singletons(objectives);
    forall x, y | x in rep && y in rep ensures FinalRep(rep, t)[x] == FinalRep(rep, t)[y] {
      assert Linked(t, x, y);
      var p :| EdgeWalk(t, p) && p[0] == x && p[|p| - 1] == y;
      WalkJoined(rep, t, p);
    }
  }

  /** Table edges join waypoints. */
  lemma TableEdgesIn(objectives: seq<Coord>, t: seq<Edge>)
    requires TableEdges(objectives, t)
    ensures EdgesIn(Singletons(objectives), t)
  {
    var table := DistanceTable(objectives);
    forall e | e in t ensures e.1 in objectives && e.2 in objectives {
      var p :| p in table && e == (table[p], p.0, p.1);
      assert p in Cross(objectives);
    }
  }

  /** How many edges of `s` weigh at least `w`. */
  function Heavy(s: seq<Edge>, w: nat): (n: nat)
    ensures n <= |s|
  {
    if s == [] then 0 else (if s[0].0 >= w then 1 else 0) + Heavy(s[1..], w)
  }

  /** The edges of `s` lighter than `w`, in order. */
  function Light(s: seq<Edge>, w: nat): (r: seq<Edge>)
    ensures forall e :: e in r <==> e in s && e.0 < w
  {
    if s == [] then [] else (if s[0].0 < w then [s[0]] else []) + Light(s[1..], w)
  }

  lemma HeavyCons(e: Edge, s: seq<Edge>, w: nat)
    ensures Heavy([e] + s, w) == (if e.0 >= w then 1 else 0) + Heavy(s, w)
  {
    assert ([e] + s)[0] == e && ([e] + s)[1..] == s;
  }

  /** When every edge weighs at least `w`, all of them count. */
  lemma {:induction false} HeavyAll(s: seq<Edge>, w: nat)
    requires forall e :: e in s ==> e.0 >= w
    ensures Heavy(s, w) == |s|
  {
    if s != [] {
      assert s[0] in s;
      assert forall e :: e in s[1..] ==> e in s;
      HeavyAll(s[1..], w);
    }
  }

  /** When every edge weighs at least `w`, none is lighter. */
  lemma {:induction false} LightNone(s: seq<Edge>, w: nat)
    requires forall e :: e in s ==> e.0 >= w
    ensures Light(s, w) == []
  {
    if s != [] {
      assert s[0] in s;
      assert forall e :: e in s[1..] ==> e in s;
      LightNone(s[1..], w);
    }
  }

  /** The edges are offered in order of weight. */
  ghost predicate WeightSorted(edges: seq<Edge>)
  {
    forall i, j :: 0 <= i < j < |edges| ==> edges[i].0 <= edges[j].0
  }

  /** Kruskal's algorithm accepts as many edges of weight at least `w` as
      there are classes left once every lighter edge has been offered,
      less the classes left at the end. */
  lemma {:induction false} AcceptedHeavy(rep: map<Coord, Coord>, edges: seq<Edge>, w: nat)
    requires EdgesIn(rep, edges) && WeightSorted(edges)
    ensures EdgesIn(rep, Light(edges, w))
    ensures Heavy(Accepted(rep, edges), w) + |Classes(FinalRep(rep, edges))|
         == |Classes(FinalRep(rep, Light(edges, w)))|
    decreases |edges|
  {
    if edges != [] {
      var e, rest := edges[0], edges[1..];
      assert edges == [e] + rest;
      FinalRepCons(rep, e, rest);
      var rep' := Offer(rep, e);
      if e.0 < w {
        assert WeightSorted(rest) by {
          forall i, j | 0 <= i < j < |rest| ensures rest[i].0 <= rest[j].0 {
            assert rest[i] == edges[i + 1] && rest[j] == edges[j + 1];
          }
        }
        AcceptedHeavy(rep', rest, w);
        assert Light(edges, w) == [e] + Light(rest, w);
        FinalRepCons(rep, e, Light(rest, w));
        if rep[e.1] != rep[e.2] {
          assert Accepted(rep, edges) == [e] + Accepted(rep', rest);
          HeavyCons(e, Accepted(rep', rest), w);
        }
      } else {
        assert forall x :: x in edges ==> x.0 >= w by {
          forall x | x in edges ensures x.0 >= w {
            var j :| 0 <= j < |edges| && edges[j] == x;
            if j > 0 { assert edges[0].0 <= edges[j].0; }
          }
        }
        LightNone(edges, w);
        AcceptedFrom(rep, edges);
        HeavyAll(Accepted(rep, edges), w);
        AcceptedCount(rep, edges);
      }
    }
  }

  /** When every edge lighter than `w` already joins one class, `unify`
      accepts no more edges than there are edges of weight at least `w`. */
  lemma {:induction false} AcceptedLight(rep: map<Coord, Coord>, t: seq<Edge>, w: nat)
    requires EdgesIn(rep, t)
    requires forall e :: e in t && e.0 < w ==> rep[e.1] == rep[e.2]
    ensures |Accepted(rep, t)| <= Heavy(t, w)
    decreases |t|
  {
    if t != [] {
      var e, rest := t[0], t[1..];
      assert t == [e] + rest;
      HeavyCons(e, rest, w);
      assert forall x :: x in rest ==> x in t;
      if rep[e.1] == rep[e.2] {
        AcceptedLight(rep, rest, w);
      } else {
        var rep' := Merge(rep, rep[e.1], rep[e.2]);
        forall x | x in rest && x.0 < w ensures rep'[x.1] == rep'[x.2] {
          assert rep[x.1] == rep[x.2];
        }
        AcceptedLight(rep', rest, w);
      }
    }
  }

  /** The sorted table edges are in order of weight. */
  lemma SortedEdgesByWeight(objectives: seq<Coord>)
    ensures WeightSorted(SortedEdges(objectives))
    ensures forall e :: e in SortedEdges(objectives) <==> e in Entries(DistanceTable(objectives))
  {
    SortSetSorts(Entries(DistanceTable(objectives)));
  }

  /** Kruskal's algorithm over all waypoint pairs leaves one class. */
  lemma KruskalOneClass(objectives: seq<Coord>)
    ensures OneClass(FinalRep(Singletons(objectives), SortedEdges(objectives)))
  {
    forall x, y | x in Singletons(objectives) && y in Singletons(objectives)
      ensures FinalRep(Singletons(objectives), SortedEdges(objectives))[x]
           == FinalRep(Singletons(objectives), SortedEdges(objectives))[y]
    {
      KruskalConnects(objectives, x, y);
    }
  }

  /** For every threshold `w`, Kruskal's edges include no more edges of weight
      at least `w` than any list of table edges that connects the waypoints. */
  lemma HeavyBound(objectives: seq<Coord>, t: seq<Edge>, w: nat)
    requires objectives != [] && TableEdges(objectives, t) && Connects(objectives, t)
    ensures Heavy(MstEdges(objectives), w) <= Heavy(t, w)
  {
    var rep, edges := Singletons(objectives), SortedEdges(objectives);
    var x0 := objectives[0];
    SortedEdgesByWeight(objectives);
    AcceptedHeavy(rep, edges, w);
    KruskalOneClass(objectives);
    OneClassCount(FinalRep(rep, edges), x0);
    var light := Light(edges, w);
    var f := FinalRep(rep, light);
    TableEdgesIn(objectives, t);
    CoarserToFinal(rep, light);
    CoarserFinal(rep, f, t);
    ConnectsOneClass(objectives, t);
    assert OneClass(FinalRep(f, t));
    OneClassCount(FinalRep(f, t), x0);
    forall e | e in t && e.0 < w ensures f[e.1] == f[e.2] {
      assert e in light;
      var j :| 0 <= j < |light| && light[j] == e;
      FinalJoinsEdge(rep, light, j);
    }
    AcceptedLight(f, t, w);
    AcceptedCount(f, t);
  }

  // The weight of a list of edges, one unit of weight at a time.

  /** `Heavy(s, 1) + ... + Heavy(s, m)`. */
  function Layers(s: seq<Edge>, m: nat): nat
  {
    if m == 0 then 0 else Heavy(s, m) + Layers(s, m - 1)
  }

  /** The total weight of `s` with every edge capped at `m`. */
  function Capped(s: seq<Edge>, m: nat): nat
  {
    if s == [] then 0 else Max(0, if s[0].0 < m then s[0].0 else m) + Capped(s[1..], m)
  }

  lemma {:induction false} CappedStep(s: seq<Edge>, m: nat)
    requires m > 0
    ensures Capped(s, m) == Heavy(s, m) + Capped(s, m - 1)
    decreases |s|
  {
    if s != [] {
      CappedStep(s[1..], m);
    }
  }

  lemma {:induction false} LayersCapped(s: seq<Edge>, m: nat)
    ensures Layers(s, m) == Capped(s, m)
  {
    if m == 0 {
      CappedZero(s);
    } else {
      LayersCapped(s, m - 1);
      CappedStep(s, m);
    }
  }

  lemma {:induction false} CappedZero(s: seq<Edge>)
    ensures Capped(s, 0) == 0
  {
    if s != [] {
      CappedZero(s[1..]);
    }
  }

  lemma {:induction false} CappedWeight(s: seq<Edge>, m: nat)
    requires forall e :: e in s ==> e.0 <= m
    ensures Capped(s, m) == Weight(s)
  {
    if s != [] {
      assert forall e :: e in s[1..] ==> e in s;
      assert s[0] in s;
      CappedWeight(s[1..], m);
    }
  }

  lemma {:induction false} LayersMonotone(a: seq<Edge>, b: seq<Edge>, m: nat)
    requires forall w: nat :: 1 <= w <= m ==> Heavy(a, w) <= Heavy(b, w)
    ensures Layers(a, m) <= Layers(b, m)
  {
    if m > 0 {
      LayersMonotone(a, b, m - 1);
    }
  }

  /** No edge weighs more than the list it is in. */
  lemma {:induction false} EdgeBelowWeight(s: seq<Edge>)
    ensures forall e :: e in s ==> e.0 <= Weight(s)
  {
    if s != [] {
      EdgeBelowWeight(s[1..]);
      assert forall e :: e in s ==> e == s[0] || e in s[1..];
    }
  }

  /** Kruskal's edges weigh no more than any list of table edges that
      connects the waypoints. */
  lemma KruskalMinimal(objectives: seq<Coord>, t: seq<Edge>)
    requires TableEdges(objectives, t) && Connects(objectives, t)
    ensures Weight(MstEdges(objectives)) <= Weight(t)
  {
    if objectives == [] {
      AcceptedCount(Singletons(objectives), SortedEdges(objectives));
      assert Classes(Singletons(objectives)) == {};
    } else {
      var a := MstEdges(objectives);
      var m := Weight(a) + Weight(t);
      EdgeBelowWeight(a);
      EdgeBelowWeight(t);
      forall w: nat | 1 <= w <= m ensures Heavy(a, w) <= Heavy(t, w) {
        HeavyBound(objectives, t, w);
      }
      LayersMonotone(a, t, m);
      LayersCapped(a, m);
      LayersCapped(t, m);
      CappedWeight(a, m);
      CappedWeight(t, m);
    }
  }

  // Kruskal's edges themselves connect the waypoints.

  /** Every walk stays a walk when an edge is added. */
  lemma LinkedGrow(t: seq<Edge>, e: Edge, x: Coord, y: Coord)
    requires Linked(t, x, y)
    ensures Linked(t + [e], x, y)
  {
    var p :| EdgeWalk(t, p) && p[0] == x && p[|p| - 1] == y;
    forall i | 0 <= i < |p| - 1 ensures HasEdge(t + [e], p[i], p[i + 1]) {
      var k :| 0 <= k < |t| && ((t[k].1 == p[i] && t[k].2 == p[i + 1]) || (t[k].1 == p[i + 1] && t[k].2 == p[i]));
      assert (t + [e])[k] == t[k];
    }
    assert EdgeWalk(t + [e], p);
  }

  /** A walk to `y` followed by a walk from `y` is a walk. */
  lemma LinkedJoin(t: seq<Edge>, x: Coord, y: Coord, z: Coord)
    requires Linked(t, x, y) && Linked(t, y, z)
    ensures Linked(t, x, z)
  {
    var p :| EdgeWalk(t, p) && p[0] == x && p[|p| - 1] == y;
    var q :| EdgeWalk(t, q) && q[0] == y && q[|q| - 1] == z;
    var r := p + q[1..];
    forall i | 0 <= i < |r| - 1 ensures HasEdge(t, r[i], r[i + 1]) {
      if i < |p| - 1 {
        assert r[i] == p[i] && r[i + 1] == p[i + 1];
      } else {
        assert r[i] == q[i - |p| + 1] && r[i + 1] == q[i - |p| + 2];
      }
    }
    assert EdgeWalk(t, r) && r[0] == x && r[|r| - 1] == z;
  }

  /** The edge just added joins its two ends, both ways. */
  lemma LinkedEdge(t: seq<Edge>, e: Edge)
    ensures Linked(t + [e], e.1, e.2) && Linked(t + [e], e.2, e.1)
  {
    var t' := t + [e];
    assert t'[|t|] == e;
    assert HasEdge(t', e.1, e.2) && HasEdge(t', e.2, e.1);
    assert EdgeWalk(t', [e.1, e.2]) && EdgeWalk(t', [e.2, e.1]);
  }

  /** Every two elements of one class of `rep` are joined by a walk along `t`. */
  ghost predicate Walks(rep: map<Coord, Coord>, t: seq<Edge>)
  {
    forall x, y :: x in rep && y in rep && rep[x] == rep[y] ==> Linked(t, x, y)
  }

  /** Accepting an edge between two classes merges them, and the edge with
      the walks inside each class joins every two elements of the merged
      class. */
  lemma WalksMerge(rep: map<Coord, Coord>, t: seq<Edge>, e: Edge)
    requires Walks(rep, t) && e.1 in rep && e.2 in rep && rep[e.1] != rep[e.2]
    ensures Walks(Merge(rep, rep[e.1], rep[e.2]), t + [e])
  {
    var a, b := rep[e.1], rep[e.2];
    var rep' := Merge(rep, a, b);
    var t' := t + [e];
    LinkedEdge(t, e);
    forall x, y | x in rep' && y in rep' && rep'[x] == rep'[y] ensures Linked(t', x, y) {
      if rep[x] == rep[y] {
        LinkedGrow(t, e, x, y);
      } else if rep[x] == a {
        assert rep[y] == b;
        LinkedGrow(t, e, x, e.1);
        LinkedGrow(t, e, e.2, y);
        LinkedJoin(t', x, e.1, e.2);
        LinkedJoin(t', x, e.2, y);
      } else {
        assert rep[x] == b && rep[y] == a;
        LinkedGrow(t, e, x, e.2);
        LinkedGrow(t, e, e.1, y);
        LinkedJoin(t', x, e.2, e.1);
        LinkedJoin(t', x, e.1, y);
      }
    }
  }

  /** The edges accepted while offering `edges` join, with those accepted
      before, every two elements of each final class. */
  lemma {:induction false} AcceptedWalks(rep: map<Coord, Coord>, edges: seq<Edge>, t: seq<Edge>)
    requires EdgesIn(rep, edges) && Walks(rep, t)
    ensures Walks(FinalRep(rep, edges), t + Accepted(rep, edges))
    decreases |edges|
  {
    if edges == [] {
      assert t + [] == t;
    } else {
      var e := edges[0];
      assert EdgesIn(rep, edges[1..]);
      if rep[e.1] == rep[e.2] {
        AcceptedWalks(rep, edges[1..], t);
      } else {
        var rep' := Merge(rep, rep[e.1], rep[e.2]);
        WalksMerge(rep, t, e);
        AcceptedWalks(rep', edges[1..], t + [e]);
        assert t + Accepted(rep, edges) == (t + [e]) + Accepted(rep', edges[1..]);
      }
    }
  }

  /** Kruskal's accepted edges are table edges that connect the waypoints:
      they form a spanning tree, whose weight is the MST weight. */
  lemma KruskalSpans(objectives: seq<Coord>)
    ensures TableEdges(objectives, MstEdges(objectives))
    ensures Connects(objectives, MstEdges(objectives))
  {
    var rep, edges := Singletons(objectives), SortedEdges(objectives);
    AcceptedFrom(rep, edges);
    SortedEdgesByWeight(objectives);
    forall x, y | x in rep && y in rep && rep[x] == rep[y] ensures Linked([], x, y) {
      assert EdgeWalk([], [x]);
    }
    AcceptedWalks(rep, edges, []);
    assert [] + MstEdges(objectives) == MstEdges(objectives);
    KruskalOneClass(objectives);
  }

  // ---------------------------------------------------------------------
  // The class itself.
  // ---------------------------------------------------------------------

  class MST {
    /** `self.elements`: each waypoint's parent, `None` for a root. */
    var elements: map<Coord, Option<Coord>>
    /** `self.distances`: the Manhattan distance of each pair from `cross`. */
    const distances: map<(Coord, Coord), nat>
    /** The waypoints the structure was built over. */
    ghost const keys: set<Coord>
    /** The partition the union-find stands for: each element's root. */
    ghost var rep: map<Coord, Coord>
    ghost var height: map<Coord, int>

    ghost predicate Valid()
      reads this
    {
      && Represents(elements, height, rep)
      && elements.Keys == keys
      && PairsOver(distances, keys)
    }

    /** `MST(objectives)`: every waypoint a singleton root. */
    constructor (objectives: seq<Coord>)
      ensures Valid()
      ensures elements == map k | k in objectives :: None
      ensures distances == DistanceTable(objectives)
      ensures rep == Singletons(objectives)
      ensures keys == set k | k in objectives
    {
      keys := set k | k in objectives;
      elements := map k | k in objectives :: None;
      distances := DistanceTable(objectives);
      height := map k | k in objectives :: 0;
      rep := Singletons(objectives);
    }

    /** `resolve(key)`: walk to the root, then point every element passed on
        the way straight at it. */
    method Resolve(key: Coord) returns (root: Coord)
      requires Valid() && key in elements
      modifies this`elements
      ensures Valid()
      ensures root in elements && elements[root] == None && root == rep[key]
      ensures CompressedFrom(old(elements), elements, height, key)
    {
      ghost var parent, h := elements, height;
      ChainFacts(parent, h, key);
      var path: seq<Coord> := [];
      root := key;
      while elements[root].Some?
        invariant elements == parent && root in parent
        invariant path + Chain(parent, h, root) == Chain(parent, h, key)
        invariant RootOf(parent, h, root) == RootOf(parent, h, key)
        decreases |Above(h, root)|
      {
        AboveShrinks(h, root, parent[root].value);
        path := path + [root];
        root := elements[root].value;
      }
      PointAt(path, root);
      CompressKeepsRep(parent, elements, h, rep, key);
    }

    /** The second loop of `resolve`: `for key in path: self.elements[key] = root`. */
    method PointAt(path: seq<Coord>, root: Coord)
      requires forall y :: y in path ==> y in elements
      modifies this`elements
      ensures elements.Keys == old(elements).Keys
      ensures forall x :: x in elements ==> elements[x] == (if x in path then Some(root) else old(elements)[x])
    {
      var i := 0;
      while i < |path|
        invariant 0 <= i <= |path|
        invariant elements.Keys == old(elements).Keys
        invariant forall x :: x in elements ==> elements[x] == (if x in path[..i] then Some(root) else old(elements)[x])
      {
        assert path[..i + 1] == path[..i] + [path[i]];
        elements := elements[path[i] := Some(root)];
        i := i + 1;
      }
      assert path[..i] == path;
    }

    /** `unify(a, b)`: join the classes of `a` and `b`; false when they were
        already one class. */
    method Unify(a: Coord, b: Coord) returns (merged: bool)
      requires Valid() && a in elements && b in elements
      modifies this`elements, this`height, this`rep
      ensures Valid()
      ensures elements.Keys == old(elements).Keys
      ensures merged <==> old(rep)[a] != old(rep)[b]
      ensures if merged then MergedFrom(old(rep), rep, old(rep)[a], old(rep)[b]) else rep == old(rep)
      ensures merged ==> old(rep)[b] in elements && elements[old(rep)[b]] == Some(old(rep)[a])
    {
      var ra := Resolve(a);
      var rb := Resolve(b);
      RootsAreOwnClass(elements, height, rep, ra);
      if ra == rb {
        merged := false;
      } else {
        Link(ra, rb);
        merged := true;
      }
    }

    /** The linking step of `unify`: root `rb` is hung under root `ra`. */
    method Link(ra: Coord, rb: Coord)
      requires Valid() && ra in elements && rb in elements && ra != rb
      requires elements[ra] == None && elements[rb] == None
      modifies this`elements, this`height, this`rep
      ensures Valid()
      ensures LinkedFrom(old(elements), elements, old(height), height, ra, rb)
      ensures MergedFrom(old(rep), rep, ra, rb)
    {
      LinkStep(elements, height, rep, ra, rb);
      elements := elements[rb := Some(ra)];
      height := height[ra := Max(height[ra], height[rb] + 1)];
      rep := Merge(rep, ra, rb);
    }

    /** `compute_mst_weight()`: offer the edges in sorted order and add up the
        distances of those `unify` accepts. */
    method ComputeMstWeight() returns (weight: nat)
      requires Valid()
      modifies this`elements, this`height, this`rep
      ensures Valid()
      ensures EdgesIn(old(rep), SortSet(Entries(distances)))
      ensures weight == Weight(Accepted(old(rep), SortSet(Entries(distances))))
      ensures rep == FinalRep(old(rep), SortSet(Entries(distances)))
    {
      var edges := SortEntries(distances);
      EntriesIn(distances, rep);
      weight := 0;
      var k := 0;
      while k < |edges|
        invariant 0 <= k <= |edges|
        invariant Valid() && elements.Keys == old(elements).Keys
        invariant EdgesIn(rep, edges[k..])
        invariant weight + Weight(Accepted(rep, edges[k..])) == Weight(Accepted(old(rep), edges))
        invariant FinalRep(rep, edges[k..]) == FinalRep(old(rep), edges)
      {
        var e := edges[k];
        assert e in edges[k..];
        ghost var r := rep;
        var merged := Unify(e.1, e.2);
        assert edges[k..][1..] == edges[k + 1..];
        if merged {
          MergedIsMerge(r, rep, r[e.1], r[e.2]);
          WeightAppend([e], Accepted(rep, edges[k + 1..]));
          weight := weight + e.0;
        }
        k := k + 1;
      }
    }
  }
}
