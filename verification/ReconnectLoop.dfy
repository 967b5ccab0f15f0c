/** The attempt counter of an event listener: it gives up after a number of attempts, and starts
    counting afresh whenever the node's metadata changed. */
module ReconnectLoop {

  type Metadata = nat

  /** What asking the node for its metadata gives. `Rejected` stands for an unacceptable version or
      a different network name. */
  datatype Fetch = Fetched(metadata: Metadata) | Unreachable | Rejected

  /** What comes of connecting: the connections cannot be built, one of them ends with an error, or
      one of them asks for a reconnect. */
  datatype Connecting = BuildFailed | ConnectionLost | SystemReconnect

  datatype Outcome = StillRunning | AttemptsExhausted | FailedFast

  /** The metadata the listener holds after some fetches. */
  function Held(initial: Metadata, fetches: seq<Fetch>): Metadata {
    if fetches == [] then initial
    else
      var last := fetches[|fetches| - 1];
      if last.Fetched? then last.metadata else Held(initial, fetches[..|fetches| - 1])
  }

  /** How often a fetch brought metadata different from what was held. */
  function Changes(initial: Metadata, fetches: seq<Fetch>): nat {
    if fetches == [] then 0
    else
      var before, last := fetches[..|fetches| - 1], fetches[|fetches| - 1];
      Changes(initial, before) + if last.Fetched? && last.metadata != Held(initial, before) then 1 else 0
  }

  /** No fetch in i..j brought metadata. */
  predicate NoneFetched(fetches: seq<Fetch>, i: nat, j: nat)
    requires j <= |fetches|
  {
    forall k | i <= k < j :: !fetches[k].Fetched?
  }

  /** Fetch number j brought metadata different from what the fetch before it that brought any did, or from
      the initial metadata if none did. */
  predicate ChangedAt(initial: Metadata, fetches: seq<Fetch>, j: nat)
    requires j < |fetches|
  {
    && fetches[j].Fetched?
    && (NoneFetched(fetches, 0, j) ==> fetches[j].metadata != initial)
    && forall i | 0 <= i < j && fetches[i].Fetched? && NoneFetched(fetches, i + 1, j) ::
         fetches[i].metadata != fetches[j].metadata
  }

  /** The metadata held is what was fetched last. */
  lemma {:induction false} HeldIsNewest(initial: Metadata, fetches: seq<Fetch>, j: nat)
    requires j <= |fetches|
    ensures NoneFetched(fetches, 0, j) ==> Held(initial, fetches[..j]) == initial
    ensures forall i | 0 <= i < j && fetches[i].Fetched? && NoneFetched(fetches, i + 1, j) ::
              Held(initial, fetches[..j]) == fetches[i].metadata
    ensures NoneFetched(fetches, 0, j) || exists i | 0 <= i < j :: fetches[i].Fetched? && NoneFetched(fetches, i + 1, j)
  {
    if j > 0 {
      HeldIsNewest(initial, fetches, j - 1);
      assert fetches[..j][..j - 1] == fetches[..j - 1];
      if fetches[j - 1].Fetched? {
        assert NoneFetched(fetches, j - 1 + 1, j);
      } else if !NoneFetched(fetches, 0, j - 1) {
        var i :| 0 <= i < j - 1 && fetches[i].Fetched? && NoneFetched(fetches, i + 1, j - 1);
        assert NoneFetched(fetches, i + 1, j);
      }
    }
  }

  /** Changes counts the fetches that brought a change. */
  lemma {:induction false} ChangesOne(initial: Metadata, fetches: seq<Fetch>, j: nat)
    requires j < |fetches|
    ensures Changes(initial, fetches[..j + 1]) ==
            Changes(initial, fetches[..j]) + if ChangedAt(initial, fetches, j) then 1 else 0
  {
    assert fetches[..j + 1][..j] == fetches[..j];
    HeldIsNewest(initial, fetches, j);
  }

  /** How many of the first i iterations came after the last one that brought a change, that one included; all
      of them if none did. */
  function SinceChange(initial: Metadata, fetches: seq<Fetch>, i: nat): (c: nat)
    requires i <= |fetches|
    ensures c <= i
  {
    if i == 0 then 0
    else if ChangedAt(initial, fetches, i - 1) then 1
    else SinceChange(initial, fetches, i - 1) + 1
  }

  lemma {:induction false} SinceChangeExactly(initial: Metadata, fetches: seq<Fetch>, i: nat)
    requires i <= |fetches|
    ensures var c := SinceChange(initial, fetches, i);
            && (forall j | i - c < j < i :: !ChangedAt(initial, fetches, j))
            && (c == i || (0 < c && ChangedAt(initial, fetches, i - c)))
  {
    if i > 0 && !ChangedAt(initial, fetches, i - 1) {
      SinceChangeExactly(initial, fetches, i - 1);
    }
  }

  /** How the loop ends and after how many iterations, in terms of the fetches alone: from iteration i
      on, with the counter at `attempt`. */
  function LoopEnd(held: Metadata, attempt: nat, maxAttempts: nat, fetches: seq<Fetch>, i: nat): (Outcome, nat)
    requires i <= |fetches|
    decreases |fetches| - i
  {
    if attempt > maxAttempts then (AttemptsExhausted, i)
    else if i == |fetches| then (StillRunning, i)
    else
      match fetches[i]
      case Rejected => (FailedFast, i + 1)
      case Unreachable => LoopEnd(held, attempt + 1, maxAttempts, fetches, i + 1)
      case Fetched(metadata) =>
        LoopEnd(metadata, if metadata == held then attempt + 1 else 2, maxAttempts, fetches, i + 1)
  }

  /** One iteration of the loop, told by whether it brings a change. */
  lemma {:induction false} IterationOne(initial: Metadata, held: Metadata, attempt: nat, maxAttempts: nat,
                                        fetches: seq<Fetch>, i: nat)
    requires i < |fetches| && !fetches[i].Rejected? && attempt <= maxAttempts
    requires held == Held(initial, fetches[..i])
    ensures LoopEnd(held, attempt, maxAttempts, fetches, i) ==
            LoopEnd(Held(initial, fetches[..i + 1]), if ChangedAt(initial, fetches, i) then 2 else attempt + 1,
                    maxAttempts, fetches, i + 1)
  {
    assert fetches[..i + 1][..i] == fetches[..i];
    HeldIsNewest(initial, fetches, i);
  }

  /** From iteration i on, the loop gives up as soon as maxAttempts iterations brought no change, and not before. */
  ghost predicate EndsWhenStalled(initial: Metadata, maxAttempts: nat, fetches: seq<Fetch>, i: nat,
                                  end: (Outcome, nat)) {
    && i <= end.1 <= |fetches|
    && (end.0.AttemptsExhausted? ==> SinceChange(initial, fetches, end.1) == maxAttempts)
    && (end.0.StillRunning? ==> SinceChange(initial, fetches, end.1) < maxAttempts)
    && forall j | i <= j < end.1 :: SinceChange(initial, fetches, j) < maxAttempts
  }

  lemma {:induction false} LoopEndsWhenStalled(initial: Metadata, held: Metadata, maxAttempts: nat,
                                               fetches: seq<Fetch>, i: nat)
    requires i <= |fetches| && held == Held(initial, fetches[..i])
    requires SinceChange(initial, fetches, i) <= maxAttempts
    ensures var attempt := SinceChange(initial, fetches, i) + 1;
            EndsWhenStalled(initial, maxAttempts, fetches, i, LoopEnd(held, attempt, maxAttempts, fetches, i))
    decreases |fetches| - i
  {
    var attempt := SinceChange(initial, fetches, i) + 1;
    if attempt <= maxAttempts && i < |fetches| && !fetches[i].Rejected? {
      IterationOne(initial, held, attempt, maxAttempts, fetches, i);
      LoopEndsWhenStalled(initial, Held(initial, fetches[..i + 1]), maxAttempts, fetches, i + 1);
    }
  }

  /** The loop fails fast on the first rejection it gets to, and stops running only for a reason. */
  lemma {:induction false} FailsFast(held: Metadata, attempt: nat, maxAttempts: nat, fetches: seq<Fetch>, i: nat)
    requires i <= |fetches|
    ensures var end := LoopEnd(held, attempt, maxAttempts, fetches, i);
            && i <= end.1 <= |fetches|
            && (end.0.StillRunning? ==> end.1 == |fetches|)
            && (end.0.FailedFast? <==> end.1 > i && fetches[end.1 - 1].Rejected?)
            && forall j | i <= j < end.1 - 1 :: !fetches[j].Rejected?
    decreases |fetches| - i
  {
    if attempt <= maxAttempts && i < |fetches| && !fetches[i].Rejected? {
      match fetches[i]
      case Unreachable => FailsFast(held, attempt + 1, maxAttempts, fetches, i + 1);
      case Fetched(metadata) =>
        FailsFast(metadata, if metadata == held then attempt + 1 else 2, maxAttempts, fetches, i + 1);
    }
  }

  /** As long as the loop has not stalled, its iterations are bounded by the changes seen. */
  lemma {:induction false} ChangesBoundIterations(initial: Metadata, maxAttempts: nat, fetches: seq<Fetch>, i: nat)
    requires i <= |fetches| && forall j | 0 <= j < i :: SinceChange(initial, fetches, j) < maxAttempts
    ensures i <= Changes(initial, fetches[..i]) * (maxAttempts - 1) + SinceChange(initial, fetches, i)
  {
    if i > 0 {
      ChangesBoundIterations(initial, maxAttempts, fetches, i - 1);
      ChangesOne(initial, fetches, i - 1);
      BoundStep(i, Changes(initial, fetches[..i - 1]), maxAttempts, SinceChange(initial, fetches, i - 1));
    }
  }

  lemma {:induction false} BoundStep(i: nat, k: nat, maxAttempts: nat, c: nat)
    requires i - 1 <= k * (maxAttempts - 1) + c && c < maxAttempts
    ensures i <= (k + 1) * (maxAttempts - 1) + 1
  {
    assert (k + 1) * (maxAttempts - 1) == k * (maxAttempts - 1) + maxAttempts - 1;
  }

  /** With k metadata changes the loop takes at most (k + 1) * maxAttempts - k iterations. */
  lemma {:induction false} IterationsBounded(initial: Metadata, maxAttempts: nat, fetches: seq<Fetch>,
                                             end: (Outcome, nat))
    requires maxAttempts > 0 && EndsWhenStalled(initial, maxAttempts, fetches, 0, end)
    ensures var k := Changes(initial, fetches[..end.1]);
            end.1 <= (k + 1) * maxAttempts - k
  {
    var i := end.1;
    ChangesBoundIterations(initial, maxAttempts, fetches, i);
    BoundRearranged(Changes(initial, fetches[..i]), maxAttempts);
    if i > 0 {
      assert SinceChange(initial, fetches, i - 1) < maxAttempts;
    }
  }

  lemma {:induction false} LoopEndFacts(initial: Metadata, maxAttempts: nat, fetches: seq<Fetch>)
    ensures var end := LoopEnd(initial, 1, maxAttempts, fetches, 0);
            var k := if end.1 <= |fetches| then Changes(initial, fetches[..end.1]) else 0;
            && EndsWhenStalled(initial, maxAttempts, fetches, 0, end)
            && (maxAttempts > 0 ==> end.1 <= (k + 1) * maxAttempts - k)
            && (end.0.StillRunning? ==> end.1 == |fetches|)
            && (end.0.FailedFast? <==> end.1 > 0 && fetches[end.1 - 1].Rejected?)
            && forall j | 0 <= j < end.1 - 1 :: !fetches[j].Rejected?
  {
    LoopEndsWhenStalled(initial, initial, maxAttempts, fetches, 0);
    FailsFast(initial, 1, maxAttempts, fetches, 0);
    if maxAttempts > 0 {
      IterationsBounded(initial, maxAttempts, fetches, LoopEnd(initial, 1, maxAttempts, fetches, 0));
    }
  }

  /** Runs the loop against the node's successive answers; connects(i) is what comes of connecting in
      iteration i. A lost connection is warned about, but how the loop ends does not depend on what
      connecting leads to. It gives up exactly when maxAttempts iterations brought no change, so with k
      metadata changes it takes at most (k + 1) * maxAttempts - k iterations, and it only ever ends in an
      error. */
  method StreamAggregatedEvents(initial: Metadata, maxAttempts: nat, fetches: seq<Fetch>, connects: nat -> Connecting)
    returns (outcome: Outcome, iterations: nat, warnings: set<nat>)
    ensures iterations <= |fetches|
    ensures (outcome, iterations) == LoopEnd(initial, 1, maxAttempts, fetches, 0)
    ensures EndsWhenStalled(initial, maxAttempts, fetches, 0, (outcome, iterations))
    ensures forall i :: i in warnings <==> 0 <= i < iterations && fetches[i].Fetched? && connects(i).ConnectionLost?
    ensures var k := Changes(initial, fetches[..iterations]);
            maxAttempts > 0 ==> iterations <= (k + 1) * maxAttempts - k
    ensures outcome.StillRunning? ==> iterations == |fetches|
    ensures outcome.AttemptsExhausted? ==> iterations >= maxAttempts
    ensures outcome.FailedFast? <==> iterations > 0 && fetches[iterations - 1].Rejected?
    ensures forall i | 0 <= i < iterations - 1 :: !fetches[i].Rejected?
  {
    var held := initial;
    var currentAttempt := 1;
    iterations, warnings := 0, {};
    LoopEndFacts(initial, maxAttempts, fetches);
    while currentAttempt <= maxAttempts && iterations < |fetches|
      invariant iterations <= |fetches|
      invariant LoopEnd(held, currentAttempt, maxAttempts, fetches, iterations) ==
                LoopEnd(initial, 1, maxAttempts, fetches, 0)
      invariant forall i :: i in warnings <==> 0 <= i < iterations && fetches[i].Fetched? && connects(i).ConnectionLost?
      decreases |fetches| - iterations
    {
      var fetch := fetches[iterations];
      iterations := iterations + 1;
      match fetch {
        case Fetched(metadata) =>
          if metadata != held {
            held := metadata;
            currentAttempt := 1;
          }
          if connects(iterations - 1).ConnectionLost? {
            warnings := warnings + {iterations - 1};
          }
        case Unreachable =>
        case Rejected =>
          return FailedFast, iterations, warnings;
      }
      currentAttempt := currentAttempt + 1;
    }
    outcome := if currentAttempt > maxAttempts then AttemptsExhausted else StillRunning;
  }

  lemma {:induction false} BoundRearranged(k: nat, maxAttempts: nat)
    ensures k * (maxAttempts - 1) + maxAttempts == (k + 1) * maxAttempts - k
  {
  }
}
