/** `heapq.heappop` on the searches' priority queues. The queue is kept as
    an unordered sequence of entries; popping takes out the smallest entry
    under Python's tuple order, which is what the heap returns. */
module PriorityQueue {

  /** `less` is a strict order: irreflexive and transitive. */
  ghost predicate StrictOrder<E(!new)>(less: (E, E) -> bool)
  {
    && (forall a :: !less(a, a))
    && (forall a, b, c :: less(a, b) && less(b, c) ==> less(a, c))
  }

  /** The index of an entry no other entry is smaller than: the last
      entry if it is smaller than the smallest of the others, else that. */
  function MinIndex<E(!new)>(deck: seq<E>, less: (E, E) -> bool): (i: nat)
    requires |deck| > 0 && StrictOrder(less)
    ensures i < |deck|
    ensures forall e :: e in deck ==> !less(e, deck[i])
  {
    if |deck| == 1 then 0
    else
      var front := deck[..|deck| - 1];
      var j := MinIndex(front, less);
      assert forall e :: e in deck ==> e in front || e == deck[|deck| - 1];
      if less(deck[|deck| - 1], deck[j]) then |deck| - 1 else j
  }

  /** `deck` without its entry at index `i`. */
  function Remove<E>(deck: seq<E>, i: nat): (rest: seq<E>)
    requires i < |deck|
    ensures |rest| == |deck| - 1
    ensures forall k {:trigger rest[k]} :: 0 <= k < i ==> rest[k] == deck[k]
    ensures forall k {:trigger rest[k]} :: i <= k < |rest| ==> rest[k] == deck[k + 1]
    ensures multiset(rest) + multiset{deck[i]} == multiset(deck)
  {
    assert deck == deck[..i] + [deck[i]] + deck[i + 1..];
    deck[..i] + deck[i + 1..]
  }
}
