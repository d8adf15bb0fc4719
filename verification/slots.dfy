/** Counting positions of the password buffer: the generator records the
    positions it has written in a `map[int]bool`, modelled as the set of
    positions mapped to true. */
module Slots {

  function Min(a: int, b: int): int {
    if a <= b then a else b
  }

  /** The positions 0, ..., n - 1 of a buffer of length n. */
  function Positions(n: nat): (r: set<int>)
    ensures forall p :: p in r <==> 0 <= p < n
  {
    if n == 0 then {} else Positions(n - 1) + {n - 1}
  }

  /** Every position in `used` is a position of a buffer of length n. */
  predicate WithinBuffer(used: set<int>, n: nat) {
    forall p :: p in used ==> 0 <= p < n
  }

  /** A buffer of length n has exactly n positions. */
  lemma {:induction false} PositionsCount(n: nat)
    ensures |Positions(n)| == n
  {
    if n != 0 {
      PositionsCount(n - 1);
    }
  }

  /** While fewer than n positions are used, some position is still free:
      the linear probe always has a slot to stop at. */
  lemma FreeSlotExists(used: set<int>, n: nat)
    requires WithinBuffer(used, n)
    requires |used| < n
    ensures exists p :: 0 <= p < n && p !in used
  {
    PositionsCount(n);
    var missing := Positions(n) - used;
    assert Positions(n) == missing + used;
    assert |missing| > 0;
    var p :| p in missing;
  }

  /** If `free` holds exactly the positions not in `used`, the two together
      account for all n positions. */
  lemma PartitionCount(free: set<int>, used: set<int>, n: nat)
    requires WithinBuffer(used, n)
    requires forall p :: p in free <==> 0 <= p < n && p !in used
    ensures |free| + |used| == n
  {
    assert free + used == Positions(n);
    assert free * used == {};
    PositionsCount(n);
  }

  /** Two disjoint sets of positions of a buffer of length n hold at most n
      positions between them. */
  lemma DisjointWithin(a: set<int>, b: set<int>, n: nat)
    requires WithinBuffer(a, n) && WithinBuffer(b, n)
    requires a * b == {}
    ensures |a| + |b| <= n
  {
    PositionsCount(n);
    assert Positions(n) == (a + b) + (Positions(n) - (a + b));
  }

  /** The position `k` steps after `from` in a buffer of length n, wrapping
      from the last position back to 0. */
  function StepsAfter(from: int, k: int, n: int): int
    requires 0 <= from < n && 0 <= k < n
  {
    if from + k < n then from + k else from + k - n
  }

  /** How many single steps, wrapping at n, lead from `from` to `to`. */
  function Distance(from: int, to: int, n: int): int
    requires 0 <= from < n && 0 <= to < n
  {
    if from <= to then to - from else to + n - from
  }

  /** `(pos + 1) % n`, the probe step, moves to the next position and wraps
      from n - 1 to 0. */
  lemma NextPosition(pos: int, n: int)
    requires 0 <= pos < n
    ensures (pos + 1) % n == if pos + 1 < n then pos + 1 else 0
  {
  }

  /** While scanning position i of a buffer of length n, where `free` holds
      the unused positions below i and i itself is unused, the free positions
      found so far, i, and the used positions fit in the buffer. */
  lemma RoomForNext(free: set<int>, used: set<int>, i: int, n: nat)
    requires WithinBuffer(used, n) && 0 <= i < n && i !in used
    requires forall p :: p in free <==> 0 <= p < i && p !in used
    ensures |free| + 1 + |used| <= n
  {
    var more := free + {i};
    assert forall p :: p in more ==> p !in used;
    assert more * used == {};
    DisjointWithin(more, used, n);
  }
}
