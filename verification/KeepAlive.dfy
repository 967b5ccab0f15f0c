/** The keep-alive monitor, in discrete time: ticks record when data was last seen, and a checker
    that wakes now and then cancels the connection once the last record is older than `timeout`. */
module KeepAlive {
  import opened SseTypes

  /** The newest recorded tick up to a time. */
  function LastTick(ticks: seq<nat>, now: nat): Option<nat> {
    if ticks == [] then None
    else
      var last, older := ticks[|ticks| - 1], LastTick(ticks[..|ticks| - 1], now);
      if last <= now && (older.None? || older.value <= last) then Some(last) else older
  }

  lemma {:induction false} LastTickIsNewest(ticks: seq<nat>, now: nat)
    ensures var newest := LastTick(ticks, now);
            && (newest.Some? ==> newest.value in ticks && newest.value <= now)
            && (forall t | t in ticks && t <= now :: newest.Some? && t <= newest.value)
  {
    if ticks != [] {
      var before, last := ticks[..|ticks| - 1], ticks[|ticks| - 1];
      LastTickIsNewest(before, now);
      assert ticks == before + [last];
    }
  }

  /** What the shared cell holds at a check: the newest tick, or else the time of the first check. */
  function LastSeen(ticks: seq<nat>, first: nat, now: nat): nat {
    var newest := LastTick(ticks, now);
    if newest.Some? then newest.value else first
  }

  predicate NonDecreasing(times: seq<nat>) {
    forall i, j | 0 <= i <= j < |times| :: times[i] <= times[j]
  }

  /** Whether check number n leaves the connection alone. */
  predicate Passes(ticks: seq<nat>, wakes: seq<nat>, timeout: nat, n: nat)
    requires n < |wakes|
  {
    wakes[n] <= LastSeen(ticks, wakes[0], wakes[n]) + timeout
  }

  /** A check leaves the connection alone if and only if some tick lies at most `timeout` back, or there has
      been no tick yet and the first check lies at most `timeout` back. */
  lemma {:induction false} PassesExactly(ticks: seq<nat>, wakes: seq<nat>, timeout: nat, n: nat)
    requires n < |wakes|
    ensures var now := wakes[n];
            Passes(ticks, wakes, timeout, n) <==>
            || (exists t | t in ticks :: t <= now <= t + timeout)
            || ((forall t | t in ticks :: now < t) && now <= wakes[0] + timeout)
  {
    var now := wakes[n];
    LastTickIsNewest(ticks, now);
    var newest := LastTick(ticks, now);
    if newest.Some? {
      assert newest.value in ticks;
    }
  }

  /** A later check sees the same record or a newer one. */
  lemma {:induction false} SeesLater(ticks: seq<nat>, first: nat, earlier: nat, later: nat)
    requires first <= earlier <= later
    ensures LastSeen(ticks, first, earlier) <= LastSeen(ticks, first, later) || LastTick(ticks, earlier).None?
    ensures LastTick(ticks, earlier).None? && LastTick(ticks, later).Some? ==> earlier < LastTick(ticks, later).value
  {
    LastTickIsNewest(ticks, earlier);
    LastTickIsNewest(ticks, later);
  }

  /** Runs the checker, which wakes at the given times, however long it slept in between. It cancels with
      the first check that comes more than `timeout` after the last record, never within `timeout` of a
      recorded tick. */
  method RunChecker(ticks: seq<nat>, wakes: seq<nat>, timeout: nat) returns (cancelled: Option<nat>)
    requires NonDecreasing(wakes)
    ensures cancelled.None? <==> forall n: nat | n < |wakes| :: Passes(ticks, wakes, timeout, n)
    ensures cancelled.Some? ==>
              var n := cancelled.value;
              && n < |wakes| && !Passes(ticks, wakes, timeout, n)
              && (forall m: nat | m < n :: Passes(ticks, wakes, timeout, m))
              && (forall t | t in ticks && t <= wakes[n] :: t + timeout < wakes[n])
              && ((forall t | t in ticks :: wakes[n] < t) ==> wakes[0] + timeout < wakes[n])
  {
    var seen: Option<nat> := None;
    for n := 0 to |wakes|
      invariant n == 0 ==> seen.None?
      invariant n > 0 ==> seen == Some(LastSeen(ticks, wakes[0], wakes[n - 1]))
      invariant forall m: nat | m < n :: Passes(ticks, wakes, timeout, m)
    {
      var now := wakes[n];
      LastTickIsNewest(ticks, now);
      if n > 0 {
        LastTickIsNewest(ticks, wakes[n - 1]);
      }
      // The observing task has stored the newest tick since the previous check.
      var tick := LastTick(ticks, now);
      if tick.Some? {
        seen := tick;
      }
      if seen.None? {
        seen := Some(now);
      } else if now - seen.value > timeout {
        assert !Passes(ticks, wakes, timeout, n);
        return Some(n);
      }
    }
    cancelled := None;
  }

  /** If no sleep lasts longer than `longest`, the checker cancels at most timeout + longest after the last
      record, or timeout + 2 * longest after the start if there was none. */
  lemma {:induction false} CancelsInTime(ticks: seq<nat>, wakes: seq<nat>, timeout: nat, longest: nat, n: nat)
    requires NonDecreasing(wakes) && n < |wakes| && wakes[0] <= longest
    requires forall i | 0 < i < |wakes| :: wakes[i] <= wakes[i - 1] + longest
    requires forall m: nat | m < n :: Passes(ticks, wakes, timeout, m)
    ensures wakes[n] <= LastSeen(ticks, wakes[0], wakes[n]) + timeout + longest
    ensures LastTick(ticks, wakes[n]).None? ==> wakes[n] <= timeout + 2 * longest
  {
    if n > 0 {
      assert Passes(ticks, wakes, timeout, n - 1);
      SeesLater(ticks, wakes[0], wakes[n - 1], wakes[n]);
    }
  }
}
