/** Connecting to the node's binary port with exponential backoff, on 64-bit milliseconds. */
module Backoff {

  const U64_COUNT: nat := 0x1_0000_0000_0000_0000

  type U64 = n: nat | n < 0x1_0000_0000_0000_0000

  datatype Config = Config(initialDelay: U64, maxDelay: U64, coefficient: U64, maxAttempts: nat)

  function Min(a: nat, b: nat): nat {
    if a <= b then a else b
  }

  /** The delay after one more failed attempt. */
  function NextDelay(c: Config, wait: U64): U64 {
    Min(wait * c.coefficient % U64_COUNT, c.maxDelay)
  }

  /** The delay before retry number k. */
  function Delay(c: Config, k: nat): U64 {
    if k == 0 then c.initialDelay else NextDelay(c, Delay(c, k - 1))
  }

  function Power(b: nat, k: nat): nat {
    if k == 0 then 1 else Power(b, k - 1) * b
  }

  function Total(delays: seq<U64>): nat {
    if delays == [] then 0 else Total(delays[..|delays| - 1]) + delays[|delays| - 1] as nat
  }

  /** Capping before multiplying makes no difference to the capped product. */
  lemma {:induction false} CapCommutes(x: nat, cap: nat, factor: nat)
    ensures Min(Min(x, cap) * factor, cap) == Min(x * factor, cap)
  {
    if x > cap && factor > 0 {
      Monotone(1, factor, x);
      Monotone(1, factor, cap);
    }
  }

  lemma {:induction false} Monotone(a: nat, b: nat, factor: nat)
    requires a <= b
    ensures a * factor <= b * factor
  {
  }

  lemma {:induction false} DelayIsCapped(c: Config, k: nat)
    ensures k > 0 ==> Delay(c, k) <= c.maxDelay
  {
  }

  lemma {:induction false} NextDelayExact(c: Config, wait: U64)
    requires wait * c.coefficient < U64_COUNT
    ensures NextDelay(c, wait) == Min(wait * c.coefficient, c.maxDelay)
  {
  }

  /** The delays grow geometrically up to the maximum; only the first one is not capped. */
  lemma {:induction false} DelayClosedForm(c: Config, k: nat)
    requires c.initialDelay * c.coefficient < U64_COUNT && c.maxDelay * c.coefficient < U64_COUNT
    ensures Delay(c, 0) == c.initialDelay
    ensures Delay(c, k + 1) == Min(c.initialDelay * Power(c.coefficient, k + 1), c.maxDelay)
  {
    var wait := Delay(c, k);
    if k == 0 {
      NextDelayExact(c, wait);
      assert Power(c.coefficient, 0) == 1;
    } else {
      DelayClosedForm(c, k - 1);
      DelayIsCapped(c, k);
      Monotone(wait, c.maxDelay, c.coefficient);
      NextDelayExact(c, wait);
      CapCommutes(c.initialDelay * Power(c.coefficient, k), c.maxDelay, c.coefficient);
      Associative(c.initialDelay, Power(c.coefficient, k), c.coefficient);
    }
  }

  /** The delays as they would be on unbounded integers. */
  function Ideal(c: Config, k: nat): nat {
    if k == 0 then c.initialDelay else Min(c.initialDelay * Power(c.coefficient, k), c.maxDelay)
  }

  /** The product overflows, and what is left of it is below the maximum. */
  predicate WrapsShort(c: Config, wait: nat) {
    wait * c.coefficient >= U64_COUNT && wait * c.coefficient % U64_COUNT < c.maxDelay
  }

  lemma {:induction false} NextDelayExactly(c: Config, wait: U64)
    ensures NextDelay(c, wait) == Min(wait * c.coefficient, c.maxDelay) <==> !WrapsShort(c, wait)
  {
    if wait * c.coefficient < U64_COUNT {
      NextDelayExact(c, wait);
    }
  }

  lemma {:induction false} IdealOne(c: Config, k: nat)
    ensures Ideal(c, k + 1) == Min(Ideal(c, k) * c.coefficient, c.maxDelay)
  {
    if k == 0 {
      assert Power(c.coefficient, 0) == 1;
    } else {
      CapCommutes(c.initialDelay * Power(c.coefficient, k), c.maxDelay, c.coefficient);
      Associative(c.initialDelay, Power(c.coefficient, k), c.coefficient);
    }
  }

  lemma {:induction false} DelaysUpTo(c: Config, n: nat)
    requires forall k: nat | k < n :: !WrapsShort(c, Ideal(c, k))
    ensures Delay(c, n) == Ideal(c, n)
  {
    if n > 0 {
      DelaysUpTo(c, n - 1);
      NextDelayExactly(c, Delay(c, n - 1));
      IdealOne(c, n - 1);
    }
  }

  /** The first delays are the ideal ones if and only if no product on the way wraps around to something
      shorter than the maximum. */
  lemma {:induction false} IdealExactly(c: Config, n: nat)
    ensures (forall k: nat | k <= n :: Delay(c, k) == Ideal(c, k)) <==>
            (forall k: nat | k < n :: !WrapsShort(c, Ideal(c, k)))
  {
    if forall k: nat | k < n :: !WrapsShort(c, Ideal(c, k)) {
      forall k: nat | k <= n
        ensures Delay(c, k) == Ideal(c, k)
      {
        DelaysUpTo(c, k);
      }
    }
    if forall k: nat | k <= n :: Delay(c, k) == Ideal(c, k) {
      forall k: nat | k < n
        ensures !WrapsShort(c, Ideal(c, k))
      {
        assert Delay(c, k) == Ideal(c, k) && Delay(c, k + 1) == Ideal(c, k + 1);
        NextDelayExactly(c, Delay(c, k));
        IdealOne(c, k);
      }
    }
  }

  /** It does happen: from a delay of 2^63 doubling leads to no delay at all, for good. */
  lemma {:induction false} WrapsToNoDelay(maxDelay: U64, maxAttempts: nat, k: nat)
    ensures Delay(Config(0x8000_0000_0000_0000, maxDelay, 2, maxAttempts), k + 1) == 0
  {
    if k > 0 {
      WrapsToNoDelay(maxDelay, maxAttempts, k - 1);
    }
  }

  lemma {:induction false} Associative(a: nat, b: nat, c: nat)
    ensures a * b * c == a * (b * c)
  {
  }

  /** Tries to connect; `accepts(n)` says whether attempt n succeeds. Exactly max(1, maxAttempts)
      attempts are made before giving up, with one delay between any two. */
  method ConnectWithRetries(c: Config, accepts: nat -> bool)
    returns (connected: bool, attempts: nat, delays: seq<U64>)
    ensures attempts >= 1 && |delays| == attempts - 1
    ensures forall k | 0 <= k < |delays| :: delays[k] == Delay(c, k)
    ensures forall n | 1 <= n < attempts :: !accepts(n)
    ensures connected == accepts(attempts)
    ensures !connected ==> attempts == if c.maxAttempts == 0 then 1 else c.maxAttempts
    ensures attempts <= if c.maxAttempts == 0 then 1 else c.maxAttempts
  {
    var wait := c.initialDelay;
    delays := [];
    attempts := 1;
    while !accepts(attempts)
      invariant 1 <= attempts && (attempts <= c.maxAttempts || attempts == 1)
      invariant |delays| == attempts - 1 && wait == Delay(c, attempts - 1)
      invariant forall k | 0 <= k < |delays| :: delays[k] == Delay(c, k)
      invariant forall n | 1 <= n < attempts :: !accepts(n)
      decreases c.maxAttempts - attempts
    {
      if c.maxAttempts < attempts + 1 {
        return false, attempts, delays;
      }
      delays := delays + [wait];
      wait := NextDelay(c, wait);
      attempts := attempts + 1;
    }
    connected := true;
  }

  lemma {:induction false} TotalBounded(delays: seq<U64>, first: nat, cap: nat)
    requires delays != [] && delays[0] <= first && forall k | 1 <= k < |delays| :: delays[k] <= cap
    ensures Total(delays) <= first + (|delays| - 1) * cap
  {
    var n := |delays| - 1;
    if n == 0 {
      assert delays[..0] == [];
    } else {
      TotalBounded(delays[..n], first, cap);
      assert n * cap == (n - 1) * cap + cap;
    }
  }

  /** All delays but the first are capped, so the total wait is bounded. */
  lemma {:induction false} TotalWaitBounded(c: Config, delays: seq<U64>)
    requires forall k | 0 <= k < |delays| :: delays[k] == Delay(c, k)
    ensures Total(delays) <= if delays == [] then 0 else c.initialDelay + (|delays| - 1) * c.maxDelay
  {
    forall k | 1 <= k < |delays|
      ensures delays[k] <= c.maxDelay
    {
      DelayIsCapped(c, k);
    }
    if delays != [] {
      TotalBounded(delays, c.initialDelay, c.maxDelay);
    }
  }
}
