/** Which buffered events a late subscriber gets, although event ids wrap at 2^32.

    The server compares 32-bit ids, shifted past the wrap when the buffer lies near it. The
    reference is an unbounded position: event number p has id p mod 2^32. */
module Replay {
  import opened SseTypes

  /** The id issued `k` events after id `first`. */
  function IdAt(first: Id, k: nat): Id {
    (first + k) % ID_COUNT
  }

  /** The ids of `n` consecutive events. */
  function ConsecutiveIds(first: Id, n: nat): seq<Id> {
    seq(n, (k: nat) => IdAt(first, k))
  }

  function WrappingAdd(id: Id, capacity: nat): Id {
    (id + capacity) % ID_COUNT
  }

  /** Whether the oldest buffered id lies within one buffer length of the wrap, on either side. */
  predicate InWraparoundZone(first: Id, capacity: Id) {
    first > ID_COUNT - 1 - capacity || first < capacity
  }

  /** The comparison that decides whether a buffered event is older than the requested one. */
  predicate IsSkipped(inZone: bool, capacity: Id, id: Id, start: Id) {
    if inZone then WrappingAdd(id, capacity) < WrappingAdd(start, capacity) else id < start
  }

  /** How many leading ids are skipped. */
  function SkipCount(ids: seq<Id>, inZone: bool, capacity: Id, start: Id): (k: nat)
    ensures k <= |ids|
    ensures forall j | 0 <= j < k :: IsSkipped(inZone, capacity, ids[j], start)
    ensures k < |ids| ==> !IsSkipped(inZone, capacity, ids[k], start)
  {
    if ids == [] || !IsSkipped(inZone, capacity, ids[0], start) then 0
    else 1 + SkipCount(ids[1..], inZone, capacity, start)
  }

  /** The index of the first buffered event that is replayed for `start`. */
  function ReplayIndex(ids: seq<Id>, capacity: Id, start: Id): (k: nat)
    ensures k <= |ids|
  {
    SkipCount(ids, ids != [] && InWraparoundZone(ids[0], capacity), capacity, start)
  }

  /** How far behind the oldest buffered event the comparison still recognises an id as older. */
  function Lookback(first: Id, capacity: Id): int {
    if InWraparoundZone(first, capacity) then WrappingAdd(first, capacity) else first
  }

  /** A remainder by 2^32 within one turn of the range. */
  lemma {:induction false} ReduceOnce(x: int)
    requires -ID_COUNT <= x < 2 * ID_COUNT
    ensures x % ID_COUNT == if x < 0 then x + ID_COUNT else if x < ID_COUNT then x else x - ID_COUNT
  {
  }

  /** Between consecutive events the compared ids agree with the positions. */
  lemma {:induction false} SkippedIffBefore(first: Id, capacity: Id, j: nat, start: Id, r: int)
    requires 3 * capacity <= ID_COUNT
    requires j < capacity
    requires -Lookback(first, capacity) <= r < ID_COUNT - Lookback(first, capacity)
    requires (first + r) % ID_COUNT == start
    ensures IsSkipped(InWraparoundZone(first, capacity), capacity, IdAt(first, j), start) <==> j < r
  {
    var w := Lookback(first, capacity);
    ReduceOnce(first + j);
    ReduceOnce(first + r);
    if InWraparoundZone(first, capacity) {
      ReduceOnce(first + capacity);
      ReduceOnce(IdAt(first, j) + capacity);
      ReduceOnce(start + capacity);
    }
  }

  /** Full account of a replay, for every requested id: `start` is read as the position r inside
      the window the comparison can see, and the events from position r on are replayed. */
  lemma {:induction false} ReplayFollowsPositions(first: Id, n: nat, capacity: Id, start: Id, r: int)
    requires 1 <= n <= capacity && 3 * capacity <= ID_COUNT
    requires -Lookback(first, capacity) <= r < ID_COUNT - Lookback(first, capacity)
    requires (first + r) % ID_COUNT == start
    ensures ReplayIndex(ConsecutiveIds(first, n), capacity, start) ==
            if r < 0 then 0 else if r > n then n else r
  {
    var ids := ConsecutiveIds(first, n);
    var zone := InWraparoundZone(first, capacity);
    assert SkipsBelow(ids, zone, capacity, start, r) by {
      forall j: nat | j < n
        ensures IsSkipped(zone, capacity, ids[j], start) <==> j < r
      {
        SkippedIffBefore(first, capacity, j, start, r);
      }
    }
    assert ids[0] == first;
    SkipCountBelow(ids, zone, capacity, start, r);
  }

  /** The ids that compare as older are those at positions below r. */
  ghost predicate SkipsBelow(ids: seq<Id>, inZone: bool, capacity: Id, start: Id, r: int) {
    forall j | 0 <= j < |ids| :: IsSkipped(inZone, capacity, ids[j], start) <==> j < r
  }

  lemma {:induction false} SkipCountBelow(ids: seq<Id>, inZone: bool, capacity: Id, start: Id, r: int)
    requires SkipsBelow(ids, inZone, capacity, start, r)
    ensures SkipCount(ids, inZone, capacity, start) == if r < 0 then 0 else if r > |ids| then |ids| else r
  {
    var k := SkipCount(ids, inZone, capacity, start);
    assert 0 < k ==> IsSkipped(inZone, capacity, ids[k - 1], start);
  }

  /** A client that names a buffered event gets that event and everything after it. */
  lemma {:induction false} BufferedStartReplaysSuffix(first: Id, n: nat, capacity: Id, k: nat)
    requires k < n <= capacity && 3 * capacity <= ID_COUNT
    ensures ReplayIndex(ConsecutiveIds(first, n), capacity, IdAt(first, k)) == k
  {
    ReplayFollowsPositions(first, n, capacity, IdAt(first, k), k);
  }

  /** A client that names an event evicted d positions ago gets the whole buffer if and only if d
      is within the lookback; otherwise it gets nothing at all. */
  lemma {:induction false} EvictedStart(first: Id, n: nat, capacity: Id, d: nat, start: Id)
    requires 1 <= n <= capacity && 3 * capacity <= ID_COUNT
    requires 1 <= d <= ID_COUNT - n
    requires (first - d) % ID_COUNT == start
    ensures ReplayIndex(ConsecutiveIds(first, n), capacity, start) ==
            if d <= Lookback(first, capacity) then 0 else n
  {
    ReplayFollowsPositions(first, n, capacity, start,
                           if d <= Lookback(first, capacity) then 0 - d else ID_COUNT - d);
  }

  /** The lookback in numbers: from the id range's middle it reaches back to id 0, and near the wrap one buffer
      length across it. */
  lemma {:induction false} LookbackInNumbers(first: Id, capacity: Id)
    ensures Lookback(first, capacity) ==
            if first + capacity >= ID_COUNT then first + capacity - ID_COUNT
            else if first < capacity then first + capacity
            else first
  {
    ReduceOnce(first + capacity);
  }

  /** The promise that a request for more than is buffered yields the whole buffer fails: here the
      requested event is the one evicted last, and nothing is replayed. */
  lemma {:induction false} JustEvictedStartCanReplayNothing()
    ensures ReplayIndex(ConsecutiveIds(0xFFFF_FFFE, 2), 2, 0xFFFF_FFFD) == 2
  {
    EvictedStart(0xFFFF_FFFE, 2, 2, 1, 0xFFFF_FFFD);
  }

  /** Every full or partial buffer of this capacity replays exactly the suffix a client names. */
  ghost predicate ReplaysEverySuffix(capacity: Id) {
    forall first: Id, n: nat, k: nat | k < n <= capacity ::
      ReplayIndex(ConsecutiveIds(first, n), capacity, IdAt(first, k)) == k
  }

  /** The capacities for which wraparound replay is right are exactly those with 3 * capacity <= 2^32. */
  lemma {:induction false} ReplayExactness(capacity: Id)
    requires 1 <= capacity
    ensures ReplaysEverySuffix(capacity) <==> 3 * capacity <= ID_COUNT
  {
    if 3 * capacity <= ID_COUNT {
      forall first: Id, n: nat, k: nat | k < n <= capacity
        ensures ReplayIndex(ConsecutiveIds(first, n), capacity, IdAt(first, k)) == k
      {
        BufferedStartReplaysSuffix(first, n, capacity, k);
      }
    } else {
      var first, k := OversizedBufferWitness(capacity);
      assert ReplayIndex(ConsecutiveIds(first, capacity), capacity, IdAt(first, k)) == 0;
    }
  }

  /** In an oversized buffer some event's shifted id is 0 although it is not the oldest. */
  lemma {:induction false} OversizedBufferWitness(capacity: Id) returns (first: Id, k: nat)
    requires 3 * capacity > ID_COUNT
    ensures 0 < k < capacity
    ensures ReplayIndex(ConsecutiveIds(first, capacity), capacity, IdAt(first, k)) == 0
  {
    if 2 * capacity <= ID_COUNT {
      first, k := capacity - 1, ID_COUNT - 2 * capacity + 1;
    } else {
      first, k := ID_COUNT - 1 - capacity, 1;
    }
    var ids := ConsecutiveIds(first, capacity);
    assert ids[0] == first && InWraparoundZone(first, capacity);
    assert WrappingAdd(IdAt(first, k), capacity) == 0;
  }
}
