/** Draining one connection, as the connection manager does it, is a sequence of steps of the listener's
    state machine. */
module ListenerStream {
  import opened SseTypes
  import opened ListenerResume
  import opened ListenerRepeats

  /** The stream carries the events the node has emitted from position `next` on. */
  predicate Streams(s: State, next: nat, stream: seq<Item>) {
    && next + |ItemIds(stream)| <= |s.ids|
    && forall i | 0 <= i < |ItemIds(stream)| :: s.ids[next + i] == ItemIds(stream)[i]
  }

  /** Steps of the connection and of the registry. */
  predicate IsStreaming(a: Action) {
    a.Report? || a.Forward? || a.Drop? || a.Receive? || a.Store?
  }

  predicate OnlyStreams(actions: seq<Action>, more: seq<Action>) {
    && actions <= more
    && forall i | |actions| <= i < |more| :: IsStreaming(more[i])
  }

  lemma {:induction false} Step(actions: seq<Action>, a: Action) returns (more: seq<Action>)
    requires IsStreaming(a)
    ensures OnlyStreams(actions, more) && Exec(more) == Do(Exec(actions), a)
  {
    more := actions + [a];
    ExecOne(actions, a);
  }

  /** Some steps lead from one run to another, whose connection has reported up to `reached`. */
  ghost predicate Reaches(actions: seq<Action>, more: seq<Action>, connection: Connection, reached: nat, forwarded: set<nat>) {
    var s, t := Exec(actions), Exec(more);
    && OnlyStreams(actions, more) && t.ids == s.ids
    && t.connection == connection && t.reached == reached && t.forwarded == forwarded
  }

  /** The registry takes a report off the channel if that is full. */
  lemma {:induction false} MakeRoom(actions: seq<Action>) returns (more: seq<Action>)
    ensures var s := Exec(actions); Reaches(actions, more, s.connection, s.reached, s.forwarded)
    ensures |Exec(more).channel| < CHANNEL_SIZE
  {
    LagReachable(actions);
    more := Step(actions, Store);
    more := Step(more, Receive);
  }

  lemma {:induction false} ReportNow(actions: seq<Action>, next: nat) returns (more: seq<Action>)
    requires Exec(actions).connection == Online(next, false) && next < |Exec(actions).ids|
    ensures Reaches(actions, more, Online(next, true), next + 1, Exec(actions).forwarded)
  {
    more := MakeRoom(actions);
    more := Step(more, Report);
  }

  /** The positions lo, lo + 1, ..., hi - 1. */
  function Positions(lo: nat, hi: nat): (r: set<nat>)
    ensures forall j :: j in r <==> lo <= j < hi
  {
    if hi <= lo then {} else Positions(lo, hi - 1) + {hi - 1}
  }

  lemma {:induction false} PassOne(actions: seq<Action>, next: nat) returns (more: seq<Action>)
    requires Exec(actions).connection == Online(next, false) && next < |Exec(actions).ids|
    ensures Reaches(actions, more, Online(next + 1, false), next + 1, Exec(actions).forwarded + {next})
  {
    more := ReportNow(actions, next);
    more := Step(more, Forward(true));
  }

  /** The next n events are reported and forwarded. */
  lemma {:induction false} PassMany(actions: seq<Action>, next: nat, n: nat) returns (more: seq<Action>)
    requires Exec(actions).connection == Online(next, false) && next + n <= |Exec(actions).ids|
    ensures Reaches(actions, more, Online(next + n, false), next + n, Exec(actions).forwarded + Positions(next, next + n))
  {
    LagReachable(actions);
    more := actions;
    for i := 0 to n
      invariant Reaches(actions, more, Online(next + i, false), next + i, Exec(actions).forwarded + Positions(next, next + i))
    {
      var before := more;
      more := PassOne(before, next + i);
      assert Positions(next, next + i + 1) == Positions(next, next + i) + {next + i};
      Chain(actions, before, more);
    }
  }

  lemma {:induction false} Chain(a: seq<Action>, b: seq<Action>, c: seq<Action>)
    requires OnlyStreams(a, b) && OnlyStreams(b, c)
    ensures OnlyStreams(a, c)
  {
    assert forall i | |a| <= i < |b| :: c[i] == b[i];
  }

  lemma {:induction false} IdsOfPrefix(stream: seq<Item>, n: nat)
    requires n <= |stream|
    ensures ItemIds(stream[..n]) <= ItemIds(stream)
  {
    if n < |stream| {
      IdsOfPrefix(stream[..|stream| - 1], n);
      assert stream[..|stream| - 1][..n] == stream[..n];
    } else {
      assert stream[..n] == stream;
    }
  }

  /** The event on which handling fails is still reported if it has an id. */
  lemma {:induction false} FailOne(actions: seq<Action>, next: nat, hasId: bool) returns (more: seq<Action>)
    requires Exec(actions).connection == Online(next, false) && (hasId ==> next < |Exec(actions).ids|)
    ensures Reaches(actions, more, Offline, if hasId then next + 1 else next, Exec(actions).forwarded)
  {
    LagReachable(actions);
    if hasId {
      more := ReportNow(actions, next);
      more := Step(more, Forward(false));
    } else {
      more := Step(actions, Drop);
    }
  }

  /** However draining a stream ends, the listener's state machine can take the connection's part in it step
      by step: it reports exactly the ids that were reported, forwards exactly the events with an id that
      were forwarded, and ends without a connection. */
  lemma {:induction false} DrainingIsARun(actions: seq<Action>, next: nat, stream: seq<Item>, reported: seq<Id>,
                                          forwarded: seq<Item>, error: ManagerError)
    returns (more: seq<Action>)
    requires Exec(actions).connection == Online(next, false) && Streams(Exec(actions), next, stream)
    requires Drained(stream, reported, forwarded, error)
    ensures Reaches(actions, more, Offline, next + |reported|,
                  Exec(actions).forwarded + Positions(next, next + |ItemIds(forwarded)|))
    ensures next + |reported| <= |Exec(more).ids|
    ensures forall i | 0 <= i < |reported| :: Exec(more).ids[next + i] == reported[i]
  {
    var n := |ItemIds(forwarded)|;
    assert stream[..|forwarded|] == forwarded;
    IdsOfPrefix(stream, |forwarded|);
    more := PassMany(actions, next, n);
    var fails := false;
    if error.HandlingFailed? {
      IdsOneMore(stream, |forwarded|);
      IdsOfPrefix(stream, |forwarded| + 1);
      fails := stream[|forwarded|].id.Some?;
    }
    more := FailOne(more, next + n, fails);
  }
}
