/** `heuristic` of Search/search.py and the `weight_dictionary` cache it
    fills: the distance to the nearest remaining waypoint plus the weight of
    a minimum spanning tree over the remaining waypoints. */
module Heuristic {
  import opened Wrappers
  import opened Grid
  import opened Errors
  import opened Collections
  import Mst

  /** Python's `min` on a non-empty list. */
  function Min(s: seq<int>): (m: int)
    requires |s| > 0
    ensures forall i :: 0 <= i < |s| ==> m <= s[i]
    ensures exists i :: 0 <= i < |s| && m == s[i]
  {
    if |s| == 1 then s[0]
    else
      var rest := Min(s[1..]);
      assert forall i :: 1 <= i < |s| ==> s[i] == s[1..][i - 1];
      if s[0] <= rest then s[0] else rest
  }

  /** The Manhattan distance from `position` to each waypoint, in order. */
  function Distances(position: Coord, waypoints: seq<Coord>): seq<int>
  {
    seq(|waypoints|, i requires 0 <= i < |waypoints| => ManhattanDistance(position, waypoints[i]))
  }

  /** The value `heuristic` computes for a search state: the smallest
      distance to a remaining waypoint plus the spanning-tree weight, so never
      below that weight and never above any waypoint's distance plus it. */
  ghost function Estimate(position: Coord, waypoints: seq<Coord>): (e: int)
    requires |waypoints| > 0
    ensures e >= Mst.MstWeight(waypoints) >= 0
    ensures exists i :: 0 <= i < |waypoints| && e == ManhattanDistance(position, waypoints[i]) + Mst.MstWeight(waypoints)
    ensures forall i :: 0 <= i < |waypoints| ==> e <= ManhattanDistance(position, waypoints[i]) + Mst.MstWeight(waypoints)
  {
    var d := Distances(position, waypoints);
    assert |d| == |waypoints| && forall i :: 0 <= i < |d| ==> d[i] == ManhattanDistance(position, waypoints[i]);
    Min(d) + Mst.MstWeight(waypoints)
  }

  /** The estimate is zero exactly at a goal: when every remaining waypoint
      is the current position. */
  lemma EstimateZero(position: Coord, waypoints: seq<Coord>)
    requires |waypoints| > 0
    ensures Estimate(position, waypoints) == 0 <==> forall x :: x in waypoints ==> x == position
  {
    if Estimate(position, waypoints) == 0 {
      ZeroOnlyAtGoal(position, waypoints);
    } else if forall x :: x in waypoints ==> x == position {
      ZeroAtGoal(position, waypoints);
    }
  }

  lemma ZeroOnlyAtGoal(position: Coord, waypoints: seq<Coord>)
    requires |waypoints| > 0 && Estimate(position, waypoints) == 0
    ensures forall x :: x in waypoints ==> x == position
  {
    var d := Distances(position, waypoints);
    var i :| 0 <= i < |d| && Min(d) == d[i];
    Mst.MstWeightZero(waypoints);
    var all := set y | y in waypoints;
    assert waypoints[i] == position && |all| <= 1;
    assert position in all;
    assert |all - {position}| == 0;
    forall x | x in waypoints ensures x == position {
      assert x in all;
    }
  }

  lemma ZeroAtGoal(position: Coord, waypoints: seq<Coord>)
    requires |waypoints| > 0 && forall x :: x in waypoints ==> x == position
    ensures Estimate(position, waypoints) == 0
  {
    var d := Distances(position, waypoints);
    assert waypoints[0] in waypoints;
    SubsetCard(set y | y in waypoints, {position});
    Mst.MstWeightZero(waypoints);
    assert d[0] == 0;
  }

  /** `weight_dictionary`: the MST weight of each waypoint tuple seen so far. */
  class WeightCache {
    var weights: map<seq<Coord>, int>

    /** Every cached weight is the MST weight of its key. */
    ghost predicate Valid()
      reads this
    {
      forall w :: w in weights ==> weights[w] == Mst.MstWeight(w)
    }

    /** `weight_dictionary = {}` */
    constructor ()
      ensures Valid() && weights == map[]
    {
      weights := map[];
    }
  }

  /** `MST(waypoints).compute_mst_weight()`: a fresh tree over the
      waypoints, whose Kruskal weight is the MST weight. */
  method MstWeightOf(waypoints: seq<Coord>) returns (weight: nat)
    ensures weight == Mst.MstWeight(waypoints)
  {
    var tree := new Mst.MST(waypoints);
    weight := tree.ComputeMstWeight();
  }

  /** The loop of `heuristic` that lists the Manhattan distance from
      `position` to each waypoint. */
  method DistanceList(position: Coord, waypoints: seq<Coord>) returns (distance: seq<int>)
    ensures distance == Distances(position, waypoints)
  {
    distance := [];
    for i := 0 to |waypoints|
      invariant distance == Distances(position, waypoints[..i])
    {
      assert waypoints[..i + 1] == waypoints[..i] + [waypoints[i]];
      distance := distance + [ManhattanDistance(position, waypoints[i])];
    }
    assert waypoints[..|waypoints|] == waypoints;
  }

  /** `heuristic(current_position, waypoints, weight_dictionary)`: the
      nearest waypoint's distance plus the MST weight, taken from the cache
      or computed (twice, as the source does) and stored. The cached and
      the computed weight agree, so the value does not depend on the cache. */
  method Heuristic(position: Coord, waypoints: seq<Coord>, cache: WeightCache) returns (r: Result<int, Error>)
    requires cache.Valid()
    modifies cache
    ensures cache.Valid()
    ensures r.Err? <==> |waypoints| == 0
    ensures r.Err? ==> r.error == ValueError && cache.weights == old(cache.weights)
    ensures r.Ok? ==> r.value == Estimate(position, waypoints)
    ensures r.Ok? ==> cache.weights == old(cache.weights)[waypoints := Mst.MstWeight(waypoints)]
  {
    var distance := DistanceList(position, waypoints);
    if |distance| == 0 {
      return Err(ValueError);
    }
    var nearest := Min(distance);
    if waypoints in cache.weights {
      assert cache.weights[waypoints := Mst.MstWeight(waypoints)] == cache.weights;
      r := Ok(nearest + cache.weights[waypoints]);
    } else {
      var weight := MstWeightOf(waypoints);
      var stored := MstWeightOf(waypoints);
      cache.weights := cache.weights[waypoints := stored];
      r := Ok(nearest + weight);
    }
  }
}
