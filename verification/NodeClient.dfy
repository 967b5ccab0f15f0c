/** The binary-port client: one request at a time on a connection that answers in order, but may
    still owe answers to earlier, abandoned requests. Request ids are 16 bits and wrap. */
module NodeClient {
  import opened SseTypes

  const REQUEST_ID_COUNT: int := 0x1_0000

  type RequestId = n: nat | n < 0x1_0000

  /** How many responses are read in search of the right one. */
  const MAX_MISMATCHED_ID_RETRIES: nat := 100

  /** A response: the id it echoes, if that can be parsed, and the call it really answers. */
  datatype Response = Response(echo: Option<RequestId>, call: nat)

  datatype Read = Received(response: Response) | TimedOut | StreamClosed | ReadFailed | Undecodable

  datatype Error =
    | RequestFailed
    | ConnectionLost
    | EnvelopeDeserialization
    | IdMismatch(expected: RequestId, got: RequestId)
    | TooManyMismatchedResponses

  datatype Result = Ok(response: Response) | Err(error: Error)

  // ----- Reading the response ----------------------------------------------------------------

  /** The id of a response; an unparsable echo counts as 0. */
  function ResponseId(response: Response): RequestId {
    if response.echo.Some? then response.echo.value else 0
  }

  function ValidateResponse(response: Response, expected: RequestId): Result {
    var got := ResponseId(response);
    if got != expected then Err(IdMismatch(expected, got)) else Ok(response)
  }

  /** A response to an earlier request, which is dropped. */
  predicate IsOutdated(read: Read, expected: RequestId) {
    read.Received? && ResponseId(read.response) < expected
  }

  /** What a read that is not outdated leads to. */
  function Judge(read: Read, expected: RequestId): Result {
    match read
    case Received(response) => ValidateResponse(response, expected)
    case TimedOut => Err(ConnectionLost)
    case StreamClosed => Err(ConnectionLost)
    case ReadFailed => Err(RequestFailed)
    case Undecodable => Err(EnvelopeDeserialization)
  }

  /** The number of outdated responses at the head of the stream. */
  function Outdated(stream: seq<Read>, expected: RequestId): (k: nat)
    ensures k <= |stream|
    ensures forall j | 0 <= j < k :: IsOutdated(stream[j], expected)
    ensures k < |stream| ==> !IsOutdated(stream[k], expected)
  {
    if stream == [] || !IsOutdated(stream[0], expected) then 0 else 1 + Outdated(stream[1..], expected)
  }

  /** The result of waiting for a response, and the number of reads it takes. Nothing more arrives
      after the given reads. */
  function AwaitOutcome(stream: seq<Read>, expected: RequestId): (Result, nat) {
    var k := Outdated(stream, expected);
    if k >= MAX_MISMATCHED_ID_RETRIES then (Err(TooManyMismatchedResponses), MAX_MISMATCHED_ID_RETRIES)
    else (Judge(if k < |stream| then stream[k] else TimedOut, expected), k + 1)
  }

  /** Reads until the response arrives, up to the limit. An answer always carries the expected id,
      even from a node that answers out of order or makes ids up; only for id 0 it may be one
      whose echo cannot be parsed. */
  method AwaitResponse(stream: seq<Read>, expected: RequestId) returns (result: Result, consumed: nat)
    ensures (result, consumed) == AwaitOutcome(stream, expected)
    ensures result.Ok? ==>
              && Received(result.response) in stream
              && (result.response.echo == Some(expected) || (expected == 0 && result.response.echo.None?))
  {
    ghost var k := Outdated(stream, expected);
    for i := 0 to MAX_MISMATCHED_ID_RETRIES
      invariant i <= k
    {
      var read := if i < |stream| then stream[i] else TimedOut;
      match read {
        case Received(response) =>
          match ValidateResponse(response, expected) {
            case Ok(valid) => return Ok(valid), i + 1;
            case Err(error) =>
              if !(error.IdMismatch? && error.expected > error.got) {
                return Err(error), i + 1;
              }
          }
        case _ => return Judge(read, expected), i + 1;
      }
    }
    return Err(TooManyMismatchedResponses), MAX_MISMATCHED_ID_RETRIES;
  }

  // ----- A connection that answers in order --------------------------------------------------

  /** A transmitted request; `serial` counts the ids issued before it, without wrapping. */
  datatype Sent = Sent(call: nat, id: RequestId, serial: nat)

  /** The client: the id counter, the number of ids issued, whether the connection is usable, the
      requests transmitted on it whose answers are still to be read, and everything ever transmitted. */
  datatype Client = Client(nextId: RequestId, issued: nat, open: bool, pending: seq<Sent>, transmitted: seq<Sent>)

  datatype Sending = Transmitted | Refused | SendTimedOut(transmitted: bool)

  /** How the world treats one attempt: how sending goes, how many of the answers owed arrive, and
      what ends the wait after that. */
  datatype Attempt = Attempt(sending: Sending, answers: nat, ending: Read) {
    predicate Valid() {
      !ending.Received?
    }
  }

  datatype Reconnect = Reconnected | ReconnectFailed | ReconnectTimedOut

  /** How the world treats a call: whether it gets hold of the client in time, its attempts, and the
      reconnect in between. */
  datatype World = World(acquired: bool, first: Attempt, reconnect: Reconnect, second: Attempt) {
    predicate Valid() {
      first.Valid() && second.Valid()
    }
  }

  function NextId(id: RequestId): RequestId {
    (id + 1) % REQUEST_ID_COUNT
  }

  function CountId(c: Client): Client {
    c.(nextId := NextId(c.nextId), issued := c.issued + 1)
  }

  function Transmit(c: Client, sent: Sent): Client {
    c.(pending := c.pending + [sent], transmitted := c.transmitted + [sent])
  }

  function Answers(pending: seq<Sent>): seq<Read> {
    seq(|pending|, i requires 0 <= i < |pending| => Received(Response(Some(pending[i].id), pending[i].call)))
  }

  /** What the client reads: the answers that arrive, in order, then the ending. */
  function Stream(pending: seq<Sent>, w: Attempt): seq<Read> {
    Answers(pending[..Arriving(pending, w)]) + [w.ending]
  }

  function Arriving(pending: seq<Sent>, w: Attempt): nat {
    if w.answers <= |pending| then w.answers else |pending|
  }

  /** How many answers the reads took off the connection; an undecodable message is one too. */
  function Taken(pending: seq<Sent>, w: Attempt, consumed: nat): (n: nat)
    ensures n <= |pending|
  {
    var arriving := Arriving(pending, w);
    if consumed <= arriving then consumed
    else if w.ending.Undecodable? && arriving < |pending| then arriving + 1
    else arriving
  }

  /** One attempt to get a request answered. */
  function SendInternal(c: Client, call: nat, w: Attempt): (Client, Result) {
    var request := Sent(call, c.nextId, c.issued);
    var counted := CountId(c);
    if !c.open || w.sending.Refused? then (counted, Err(RequestFailed))
    else if w.sending.SendTimedOut? then
      (if w.sending.transmitted then Transmit(counted, request) else counted, Err(RequestFailed))
    else
      var sent := Transmit(counted, request);
      var (result, consumed) := AwaitOutcome(Stream(sent.pending, w), request.id);
      (sent.(pending := sent.pending[Taken(sent.pending, w, consumed)..]), result)
  }

  function Fresh(c: Client): Client {
    c.(open := true, pending := [])
  }

  /** A call: once it has the client, one attempt and, if it fails, one more on a fresh connection. */
  function SendRequest(c: Client, call: nat, w: World): (Client, Result) {
    var (c1, r1) := SendInternal(c, call, w.first);
    if !w.acquired then (c, Err(ConnectionLost))
    else if r1.Ok? then (c1, r1)
    else if w.reconnect.Reconnected? then SendInternal(Fresh(c1), call, w.second)
    else (c1.(open := false), Err(ConnectionLost))
  }

  /** The client as the source has it, with the world's behaviour passed in. */
  class FramedNodeClient {
    var client: Client

    constructor ()
      ensures client == Client(0, 0, true, [], [])
    {
      client := Client(0, 0, true, [], []);
    }

    method SendRequestInternal(call: nat, w: Attempt) returns (result: Result)
      requires w.Valid()
      modifies this
      ensures (client, result) == SendInternal(old(client), call, w)
    {
      var request := Sent(call, client.nextId, client.issued);
      client := CountId(client);
      if !client.open || w.sending.Refused? {
        return Err(RequestFailed);
      }
      if w.sending.SendTimedOut? {
        if w.sending.transmitted {
          client := Transmit(client, request);
        }
        return Err(RequestFailed);
      }
      client := Transmit(client, request);
      var consumed;
      result, consumed := AwaitResponse(Stream(client.pending, w), request.id);
      client := client.(pending := client.pending[Taken(client.pending, w, consumed)..]);
    }

    method Request(call: nat, w: World) returns (result: Result)
      requires w.Valid()
      modifies this
      ensures (client, result) == SendRequest(old(client), call, w)
    {
      if !w.acquired {
        return Err(ConnectionLost);
      }
      result := SendRequestInternal(call, w.first);
      if result.Err? {
        match w.reconnect {
          case Reconnected =>
            client := Fresh(client);
            result := SendRequestInternal(call, w.second);
          case _ =>
            client := client.(open := false);
            result := Err(ConnectionLost);
        }
      }
    }
  }

  /** Each call transmits its command at most twice, under different ids. */
  lemma {:induction false} TransmitsAtMostTwice(c: Client, call: nat, w: World)
    ensures var before, after := c.transmitted, SendRequest(c, call, w).0.transmitted;
            && before <= after && |after| <= |before| + 2
            && (forall i | |before| <= i < |after| :: after[i].call == call)
            && (|after| == |before| + 2 ==> after[|before|].id != after[|before| + 1].id)
  {
    var c1 := SendInternal(c, call, w.first).0;
    assert c1.nextId == NextId(c.nextId) != c.nextId;
  }

  // ----- What a call returns -----------------------------------------------------------------

  /** Why an attempt fails that is transmitted and gets no answer. */
  function NoAnswer(ending: Read): Error
    requires !ending.Received?
  {
    match ending
    case TimedOut => ConnectionLost
    case StreamClosed => ConnectionLost
    case ReadFailed => RequestFailed
    case Undecodable => EnvelopeDeserialization
  }

  /** An attempt on a connection that owes nothing. */
  lemma {:induction false} CleanAttempt(c: Client, call: nat, w: Attempt)
    requires w.Valid() && c.open && c.pending == []
    ensures var (after, result) := SendInternal(c, call, w);
            match w.sending
            case Refused => result == Err(RequestFailed) && after.pending == []
            case SendTimedOut(transmitted) =>
              result == Err(RequestFailed) && |after.pending| == if transmitted then 1 else 0
            case Transmitted =>
              if w.answers >= 1 then result == Ok(Response(Some(c.nextId), call)) && after.pending == []
              else result == Err(NoAnswer(w.ending))
  {
    if w.sending.Transmitted? {
      var sent := [Sent(call, c.nextId, c.issued)];
      assert c.pending + sent == sent;
      var stream := Stream(sent, w);
      if w.answers >= 1 {
        assert stream[0] == Received(Response(Some(c.nextId), call));
        assert Outdated(stream, c.nextId) == 0;
      } else {
        assert stream == [w.ending];
        assert Outdated(stream, c.nextId) == 0;
      }
    }
  }

  /** An attempt that is not transmitted in time, or finds the connection closed, fails; it uses up an id all the
      same, and leaves a request behind only if it was transmitted after all. */
  lemma {:induction false} UnsentAttempt(c: Client, call: nat, w: Attempt)
    requires !c.open || !w.sending.Transmitted?
    ensures var (after, result) := SendInternal(c, call, w);
            var late := c.open && w.sending.SendTimedOut? && w.sending.transmitted;
            var left := if late then [Sent(call, c.nextId, c.issued)] else [];
            && result == Err(RequestFailed) && after.nextId == NextId(c.nextId) && after.open == c.open
            && after.pending == c.pending + left && after.transmitted == c.transmitted + left
  {
    assert c.pending + [] == c.pending && c.transmitted + [] == c.transmitted;
  }

  /** What a transmitted attempt returns and what it leaves unread, for any answers owed. Of the answers that
      arrive, let k be the number before the first whose id is not smaller than the request's. If that one is
      reached within the limit and has the same id, it is taken for the answer, whichever call it belongs to. */
  lemma {:induction false} AttemptExactly(c: Client, call: nat, w: Attempt, k: nat)
    requires c.open && w.sending.Transmitted? && w.Valid()
    requires var sent := c.pending + [Sent(call, c.nextId, c.issued)];
             && k <= Arriving(sent, w)
             && (forall j | 0 <= j < k :: sent[j].id < c.nextId)
             && (k < Arriving(sent, w) ==> sent[k].id >= c.nextId)
    ensures var sent := c.pending + [Sent(call, c.nextId, c.issued)];
            var (after, result) := SendInternal(c, call, w);
            && after.transmitted == c.transmitted + [Sent(call, c.nextId, c.issued)]
            && if k >= MAX_MISMATCHED_ID_RETRIES then
                 result == Err(TooManyMismatchedResponses) && after.pending == sent[MAX_MISMATCHED_ID_RETRIES..]
               else if k < Arriving(sent, w) then
                 && after.pending == sent[k + 1..]
                 && result == if sent[k].id == c.nextId then Ok(Response(Some(c.nextId), sent[k].call))
                              else Err(IdMismatch(c.nextId, sent[k].id))
               else
                 && result == Err(NoAnswer(w.ending))
                 && after.pending == sent[if w.ending.Undecodable? && k < |sent| then k + 1 else k..]
  {
    var sent := c.pending + [Sent(call, c.nextId, c.issued)];
    var stream := Stream(sent, w);
    assert forall j | 0 <= j < Arriving(sent, w) :: stream[j] == Received(Response(Some(sent[j].id), sent[j].call));
    assert !IsOutdated(stream[k], c.nextId);
    assert Outdated(stream, c.nextId) == k;
  }

  /** What a call returns, whatever happens: nothing is sent without the client; the first attempt's answer
      counts if there is one; otherwise the call needs a new connection, on which the second attempt decides
      alone. In particular a retry that is answered succeeds with its own answer. */
  lemma {:induction false} CallResult(c: Client, call: nat, w: World)
    requires w.Valid()
    ensures var (after, result) := SendRequest(c, call, w);
            var first := SendInternal(c, call, w.first).1;
            if !w.acquired then after == c && result == Err(ConnectionLost)
            else if first.Ok? then result == first && after.open == c.open && after.nextId == NextId(c.nextId)
            else if !w.reconnect.Reconnected? then result == Err(ConnectionLost) && !after.open
            else
              && after.open && after.nextId == NextId(NextId(c.nextId))
              && match w.second.sending
                 case Refused => result == Err(RequestFailed) && after.pending == []
                 case SendTimedOut(transmitted) =>
                   result == Err(RequestFailed) && |after.pending| == if transmitted then 1 else 0
                 case Transmitted =>
                   if w.second.answers >= 1
                   then result == Ok(Response(Some(NextId(c.nextId)), call)) && after.pending == []
                   else result == Err(NoAnswer(w.second.ending))
  {
    var c1 := SendInternal(c, call, w.first).0;
    CleanAttempt(Fresh(c1), call, w.second);
  }

  /** A response whose echo cannot be parsed counts as one to request 0: it answers request 0, and any other
      request skips it as outdated. */
  lemma {:induction false} UnparsableCountsAsZero(call: nat, expected: RequestId, rest: seq<Read>)
    ensures var response := Response(None, call);
            if expected == 0 then AwaitOutcome([Received(response)] + rest, expected) == (Ok(response), 1)
            else Outdated([Received(response)] + rest, expected) == 1 + Outdated(rest, expected)
  {
    var stream := [Received(Response(None, call))] + rest;
    assert stream[1..] == rest;
  }

  // ----- The answers owed --------------------------------------------------------------------

  /** The unanswered requests are in the order they were issued, their ids are their serial numbers
      mod 2^16, and fewer than 2^16 ids were issued since the oldest. */
  ghost predicate Owed(pending: seq<Sent>, issued: nat) {
    && (forall j | 0 <= j < |pending| :: pending[j].id == pending[j].serial % REQUEST_ID_COUNT)
    && (forall i, j | 0 <= i < j < |pending| :: pending[i].serial < pending[j].serial)
    && (forall j | 0 <= j < |pending| :: pending[j].serial < issued < pending[j].serial + REQUEST_ID_COUNT)
  }

  ghost predicate Counted(c: Client) {
    c.nextId == c.issued % REQUEST_ID_COUNT
  }

  /** Of two requests issued less than 2^16 apart, the older one's id is smaller unless ids wrapped
      in between, and then it is greater. */
  lemma {:induction false} OlderId(older: nat, newer: nat)
    requires older < newer < older + REQUEST_ID_COUNT
    ensures older % REQUEST_ID_COUNT != newer % REQUEST_ID_COUNT
    ensures older % REQUEST_ID_COUNT < newer % REQUEST_ID_COUNT <==>
            newer % REQUEST_ID_COUNT == older % REQUEST_ID_COUNT + (newer - older)
  {
    var o := older % REQUEST_ID_COUNT;
    var x := o + newer - older;
    assert newer % REQUEST_ID_COUNT == x % REQUEST_ID_COUNT;
    assert x % REQUEST_ID_COUNT == if x < REQUEST_ID_COUNT then x else x - REQUEST_ID_COUNT;
  }

  /** Never a wrong answer: a successful attempt returns the answer to the request it sent, and
      nothing is owed afterwards. */
  lemma {:induction false} AnswerIsOwn(c: Client, call: nat, w: Attempt)
    requires w.Valid() && Counted(c) && Owed(c.pending, c.issued)
    ensures var (after, result) := SendInternal(c, call, w);
            result.Ok? ==> result.response == Response(Some(c.nextId), call) && after.pending == []
  {
    var (after, result) := SendInternal(c, call, w);
    if result.Ok? {
      var sent := c.pending + [Sent(call, c.nextId, c.issued)];
      var stream := Stream(sent, w);
      var k := Outdated(stream, c.nextId);
      assert stream[k] == Received(result.response);
      assert k < Arriving(sent, w);
      if k < |c.pending| {
        OlderId(c.pending[k].serial, c.issued);
      }
    }
  }

  /** What an attempt returns when every answer owed arrives, for any answers owed. Let k be the
      first whose id is not smaller than the request's: if it exists and has the same id, it is
      taken for the answer, whichever call it belongs to. */
  lemma {:induction false} AttemptResult(c: Client, call: nat, w: Attempt, k: nat)
    requires c.open && w.sending.Transmitted? && w.answers > |c.pending| && k <= |c.pending|
    requires forall j | 0 <= j < k :: c.pending[j].id < c.nextId
    requires k < |c.pending| ==> c.pending[k].id >= c.nextId
    ensures SendInternal(c, call, w).1 ==
            if k >= MAX_MISMATCHED_ID_RETRIES then Err(TooManyMismatchedResponses)
            else if k == |c.pending| then Ok(Response(Some(c.nextId), call))
            else if c.pending[k].id == c.nextId then Ok(Response(Some(c.nextId), c.pending[k].call))
            else Err(IdMismatch(c.nextId, c.pending[k].id))
  {
    var sent := c.pending + [Sent(call, c.nextId, c.issued)];
    var stream := Stream(sent, w);
    assert forall j | 0 <= j < |sent| :: stream[j] == Received(Response(Some(sent[j].id), sent[j].call));
    assert !IsOutdated(stream[k], c.nextId);
    assert Outdated(stream, c.nextId) == k;
  }

  /** The read limit, exactly. Behind s stale answers that all arrive, a request is answered if
      s <= 99 and fails with TooManyMismatchedResponses if s >= 100, provided ids did not wrap since
      the oldest of them; if they did, that oldest answer is rejected at once. */
  lemma {:induction false} StaleAnswerBudget(c: Client, call: nat, w: Attempt)
    requires c.open && w.sending.Transmitted? && w.answers > |c.pending|
    requires Counted(c) && Owed(c.pending, c.issued)
    ensures var s, result := |c.pending|, SendInternal(c, call, w).1;
            if s > 0 && c.pending[0].id > c.nextId then result == Err(IdMismatch(c.nextId, c.pending[0].id))
            else if s <= 99 then result == Ok(Response(Some(c.nextId), call))
            else result == Err(TooManyMismatchedResponses)
  {
    if c.pending == [] {
      AttemptResult(c, call, w, 0);
    } else {
      OlderId(c.pending[0].serial, c.issued);
      if c.pending[0].id > c.nextId {
        AttemptResult(c, call, w, 0);
      } else {
        forall j: nat | j < |c.pending|
          ensures c.pending[j].id < c.nextId
        {
          NoWrapSince(c.pending[0].serial, c.pending[j].serial, c.issued);
        }
        AttemptResult(c, call, w, |c.pending|);
      }
    }
  }

  /** If ids did not wrap since the oldest request, they did not wrap since a later one. */
  lemma {:induction false} NoWrapSince(oldest: nat, older: nat, newer: nat)
    requires oldest <= older < newer < oldest + REQUEST_ID_COUNT
    requires oldest % REQUEST_ID_COUNT < newer % REQUEST_ID_COUNT
    ensures older % REQUEST_ID_COUNT < newer % REQUEST_ID_COUNT
  {
    var o := oldest % REQUEST_ID_COUNT;
    var x, y := o + older - oldest, o + newer - oldest;
    OlderId(oldest, newer);
    assert older % REQUEST_ID_COUNT == x % REQUEST_ID_COUNT;
    assert newer % REQUEST_ID_COUNT == y;
  }

  /** With fewer than 100 answers owed the read limit is not reached, whatever happens. */
  lemma {:induction false} BudgetSuffices(c: Client, call: nat, w: Attempt)
    requires w.Valid() && |c.pending| < MAX_MISMATCHED_ID_RETRIES
    ensures SendInternal(c, call, w).1 != Err(TooManyMismatchedResponses)
  {
    var sent := c.pending + [Sent(call, c.nextId, c.issued)];
    var stream := Stream(sent, w);
    var k := Outdated(stream, c.nextId);
    var own := |c.pending|;
    assert own < |stream| ==> !IsOutdated(stream[own], c.nextId);
  }

  // ----- Whole runs --------------------------------------------------------------------------

  /** What happens to the client: a call, a call dropped during the first attempt, while
      reconnecting or during the second attempt, or the reconnect task replacing the connection. */
  datatype Action =
    | Request(w: World)
    | DropInFirst(w: World)
    | DropInReconnect(w: World)
    | DropInSecond(w: World)
    | Replace

  predicate ValidAction(a: Action) {
    a.Replace? || a.w.Valid()
  }

  function Do(c: Client, call: nat, a: Action): (Client, Option<Result>) {
    match a
    case Request(w) => var (after, result) := SendRequest(c, call, w); (after, Some(result))
    case DropInFirst(w) => (SendInternal(c, call, w.first).0, None)
    case DropInReconnect(w) => (SendInternal(c, call, w.first).0.(open := false), None)
    case DropInSecond(w) => (SendInternal(Fresh(SendInternal(c, call, w.first).0), call, w.second).0, None)
    case Replace => (Fresh(c), None)
  }

  /** The client after a sequence of actions; call numbers are positions in the sequence. */
  function Exec(actions: seq<Action>): Client {
    if actions == [] then Client(0, 0, true, [], [])
    else Do(Exec(actions[..|actions| - 1]), |actions| - 1, actions[|actions| - 1]).0
  }

  /** The result of the last call of a sequence. */
  function LastResult(actions: seq<Action>): Option<Result>
    requires actions != []
  {
    Do(Exec(actions[..|actions| - 1]), |actions| - 1, actions[|actions| - 1]).1
  }

  /** How many calls in a row, up to now, were dropped during their first attempt. Calls that never
      got hold of the client do not interrupt the row. */
  function Drops(actions: seq<Action>): nat {
    if actions == [] then 0
    else NextDrops(actions[|actions| - 1], Drops(actions[..|actions| - 1]))
  }

  function NextDrops(a: Action, drops: nat): nat {
    if a.DropInFirst? then drops + 1
    else if a.Request? && !a.w.acquired then drops
    else 0
  }

  /** Never are more than `limit` calls in a row dropped. */
  ghost predicate IsRun(actions: seq<Action>, limit: nat) {
    && (forall i | 0 <= i < |actions| :: ValidAction(actions[i]))
    && (forall n: nat | n <= |actions| :: Drops(actions[..n]) <= limit)
  }

  /** The largest number of calls dropped in a row after which no id can have come round. */
  const SAFE_DROPS: nat := 65534

  /** A usable connection owes the answers to the calls dropped on it and to at most one other. */
  ghost predicate Inv(c: Client, drops: nat) {
    && Counted(c)
    && (c.open ==> Owes(c.pending, c.issued, drops))
  }

  ghost predicate Owes(pending: seq<Sent>, issued: nat, drops: nat) {
    && Owed(pending, issued)
    && |pending| <= drops + 1
    && (pending != [] ==> issued <= pending[0].serial + drops + 1)
  }

  lemma {:induction false} AttemptKeepsCount(c: Client, call: nat, w: Attempt)
    requires Counted(c)
    ensures var after := SendInternal(c, call, w).0;
            Counted(after) && after.issued == c.issued + 1 && after.open == c.open
  {
    assert c.issued % REQUEST_ID_COUNT == c.nextId;
    assert (c.issued + 1) % REQUEST_ID_COUNT == (c.nextId + 1) % REQUEST_ID_COUNT;
  }

  /** An attempt transmits its request or not, and takes some of the oldest answers off. */
  lemma {:induction false} AttemptPending(c: Client, call: nat, w: Attempt) returns (all: seq<Sent>, n: nat)
    requires c.open
    ensures all == c.pending || all == c.pending + [Sent(call, c.nextId, c.issued)]
    ensures n <= |all| && SendInternal(c, call, w).0.pending == all[n..]
  {
    all, n := c.pending, 0;
    if w.sending.Transmitted? || w.sending == SendTimedOut(true) {
      all := c.pending + [Sent(call, c.nextId, c.issued)];
    }
    if w.sending.Transmitted? {
      n := Taken(all, w, AwaitOutcome(Stream(all, w), c.nextId).1);
    }
  }

  /** After an attempt the connection owes at most one answer more, and its oldest is no older. */
  lemma {:induction false} AttemptOwes(c: Client, call: nat, w: Attempt, drops: nat)
    requires c.open && Inv(c, drops) && drops + 2 < REQUEST_ID_COUNT
    ensures Inv(SendInternal(c, call, w).0, drops + 1)
    ensures c.pending == [] ==> Inv(SendInternal(c, call, w).0, 0)
  {
    AttemptKeepsCount(c, call, w);
    var all, n := AttemptPending(c, call, w);
    OwesAfter(c.pending, c.issued, Sent(call, c.nextId, c.issued), drops, all, n);
  }

  lemma {:induction false} OwesAfter(pending: seq<Sent>, issued: nat, sent: Sent, drops: nat, all: seq<Sent>, n: nat)
    requires Owes(pending, issued, drops) && drops + 2 < REQUEST_ID_COUNT
    requires sent.serial == issued && sent.id == issued % REQUEST_ID_COUNT
    requires (all == pending || all == pending + [sent]) && n <= |all|
    ensures Owes(all[n..], issued + 1, drops + 1)
    ensures pending == [] ==> Owes(all[n..], issued + 1, 0)
  {
    OwedLater(pending, issued, drops);
    if all != pending {
      OwedMore(pending, issued, sent);
    }
    OwedTail(all, issued + 1, n);
  }

  /** One more id is issued, and there is room for it before the oldest one's comes round. */
  lemma {:induction false} OwedLater(pending: seq<Sent>, issued: nat, drops: nat)
    requires Owes(pending, issued, drops) && drops + 2 < REQUEST_ID_COUNT
    ensures Owed(pending, issued + 1)
  {
    assert forall j | 0 <= j < |pending| :: pending[0].serial <= pending[j].serial;
  }

  lemma {:induction false} OwedMore(pending: seq<Sent>, issued: nat, sent: Sent)
    requires Owed(pending, issued + 1) && (forall j | 0 <= j < |pending| :: pending[j].serial < issued)
    requires sent.serial == issued && sent.id == issued % REQUEST_ID_COUNT
    ensures Owed(pending + [sent], issued + 1)
  {
  }

  lemma {:induction false} OwedTail(all: seq<Sent>, issued: nat, n: nat)
    requires Owed(all, issued) && n <= |all|
    ensures Owed(all[n..], issued)
    ensures n < |all| ==> all[0].serial <= all[n..][0].serial
  {
  }

  /** A call returns no answer but its own, reads within its budget, and leaves a connection that
      owes one answer at most; its second attempt runs on one that owes nothing. */
  lemma {:induction false} RequestKeepsInv(c: Client, call: nat, w: World, drops: nat)
    requires w.Valid() && Inv(c, drops)
    ensures var (after, result) := SendRequest(c, call, w);
            && Inv(after, if w.acquired then 0 else drops)
            && (result.Ok? ==> result.response.call == call && result.response.echo.Some?)
            && result != Err(TooManyMismatchedResponses)
            && (drops + 1 < MAX_MISMATCHED_ID_RETRIES ==>
                  SendInternal(c, call, w.first).1 != Err(TooManyMismatchedResponses))
  {
    if c.open && drops + 1 < MAX_MISMATCHED_ID_RETRIES {
      BudgetSuffices(c, call, w.first);
    }
    var (c1, r1) := SendInternal(c, call, w.first);
    AttemptKeepsCount(c, call, w.first);
    if r1.Ok? {
      AnswerIsOwn(c, call, w.first);
    } else if w.reconnect.Reconnected? {
      var renewed := Fresh(c1);
      AttemptOwes(renewed, call, w.second, 0);
      AnswerIsOwn(renewed, call, w.second);
      BudgetSuffices(renewed, call, w.second);
    }
  }

  lemma {:induction false} StepKeepsInv(c: Client, call: nat, a: Action, drops: nat)
    requires ValidAction(a) && Inv(c, drops) && NextDrops(a, drops) <= SAFE_DROPS
    ensures Inv(Do(c, call, a).0, NextDrops(a, drops))
  {
    match a {
      case Request(w) => RequestKeepsInv(c, call, w, drops);
      case DropInFirst(w) =>
        AttemptKeepsCount(c, call, w.first);
        if c.open {
          AttemptOwes(c, call, w.first, drops);
        }
      case DropInReconnect(w) => AttemptKeepsCount(c, call, w.first);
      case DropInSecond(w) =>
        AttemptKeepsCount(c, call, w.first);
        var renewed := Fresh(SendInternal(c, call, w.first).0);
        AttemptOwes(renewed, call, w.second, 0);
      case Replace =>
    }
  }

  lemma {:induction false} RunPrefix(actions: seq<Action>, limit: nat)
    requires IsRun(actions, limit) && actions != []
    ensures IsRun(actions[..|actions| - 1], limit) && Drops(actions) <= limit
  {
    var before := actions[..|actions| - 1];
    forall n: nat | n <= |before|
      ensures Drops(before[..n]) <= limit
    {
      assert before[..n] == actions[..n];
    }
    assert actions[..|actions|] == actions;
  }

  lemma {:induction false} Reachable(actions: seq<Action>)
    requires IsRun(actions, SAFE_DROPS)
    ensures Inv(Exec(actions), Drops(actions))
  {
    if actions != [] {
      var before := actions[..|actions| - 1];
      RunPrefix(actions, SAFE_DROPS);
      Reachable(before);
      StepKeepsInv(Exec(before), |actions| - 1, actions[|actions| - 1], Drops(before));
    }
  }

  /** If the last call of a sequence succeeded, it got the answer to its own request. */
  predicate GotOwnAnswer(actions: seq<Action>)
    requires actions != []
  {
    var result := LastResult(actions);
    result.Some? && result.value.Ok? ==> result.value.response.call == |actions| - 1
  }

  /** Over every run, of any length, in which no more than 65534 calls in a row are dropped, across id
      wrap, lost connections and reconnects: a call that succeeds got the answer to its own request,
      and none fails for too many mismatched responses. Not even a first attempt does, unless at
      least 99 calls were dropped just before. */
  lemma {:induction false} ResponseMatching(actions: seq<Action>)
    requires actions != [] && IsRun(actions, SAFE_DROPS)
    ensures var before, result := actions[..|actions| - 1], LastResult(actions);
            && GotOwnAnswer(actions)
            && (result.Some? && result.value.Ok? ==> result.value.response.echo.Some?)
            && result != Some(Err(TooManyMismatchedResponses))
            && (result.Some? && Drops(before) + 1 < MAX_MISMATCHED_ID_RETRIES ==>
                  var first := SendInternal(Exec(before), |actions| - 1, actions[|actions| - 1].w.first);
                  first.1 != Err(TooManyMismatchedResponses))
  {
    var before, a := actions[..|actions| - 1], actions[|actions| - 1];
    RunPrefix(actions, SAFE_DROPS);
    Reachable(before);
    if a.Request? {
      RequestKeepsInv(Exec(before), |actions| - 1, a.w, Drops(before));
    }
  }

  // ----- How many dropped calls it takes -----------------------------------------------------

  /** A call that leaves one answer owed on a fresh connection: its first attempt is refused, it
      reconnects, and the answer to its second attempt does not arrive in time. */
  const UNANSWERED: Action :=
    Request(World(true, Attempt(Refused, 0, TimedOut), Reconnected, Attempt(Transmitted, 0, TimedOut)))

  /** A call dropped while it waits for its answer. */
  const DROPPED: Action :=
    DropInFirst(World(true, Attempt(Transmitted, 0, TimedOut), ReconnectFailed, Attempt(Refused, 0, TimedOut)))

  /** A call for which all answers owed arrive, if there are at most n, and its own. */
  function Answered(n: nat): Action {
    Request(World(true, Attempt(Transmitted, n + 1, TimedOut), ReconnectFailed, Attempt(Refused, 0, TimedOut)))
  }

  /** A run followed by n times the same action. */
  function Repeated(start: seq<Action>, a: Action, n: nat): seq<Action> {
    if n == 0 then start else Repeated(start, a, n - 1) + [a]
  }

  lemma {:induction false} ExecOne(actions: seq<Action>, a: Action)
    ensures Exec(actions + [a]) == Do(Exec(actions), |actions|, a).0
    ensures LastResult(actions + [a]) == Do(Exec(actions), |actions|, a).1
  {
    assert (actions + [a])[..|actions|] == actions;
  }

  lemma {:induction false} DropsOne(actions: seq<Action>, a: Action)
    ensures Drops(actions + [a]) == NextDrops(a, Drops(actions))
  {
    assert (actions + [a])[..|actions|] == actions;
  }

  /** The answers to call 0 and to n later calls are owed, that to call 0 first. */
  ghost predicate OwesFirst(c: Client, n: nat) {
    c.open && |c.pending| == n + 1 && c.pending[0] == Sent(0, 1, 1) && c.issued == n + 2 && Counted(c)
  }

  lemma {:induction false} UnansweredOwes()
    ensures Drops([UNANSWERED]) == 0 && OwesFirst(Exec([UNANSWERED]), 0)
  {
    var start, w := Client(0, 0, true, [], []), UNANSWERED.w;
    var renewed := Fresh(SendInternal(start, 0, w.first).0);
    assert renewed == Client(1, 1, true, [], []);
    var sent := Transmit(CountId(renewed), Sent(0, 1, 1));
    assert Stream(sent.pending, w.second) == [TimedOut];
    assert Outdated([TimedOut], 1) == 0;
    ExecOne([], UNANSWERED);
    DropsOne([], UNANSWERED);
    assert [] + [UNANSWERED] == [UNANSWERED];
  }

  lemma {:induction false} DroppedOwesMore(c: Client, call: nat, n: nat)
    requires OwesFirst(c, n)
    ensures OwesFirst(Do(c, call, DROPPED).0, n + 1)
  {
    AttemptKeepsCount(c, call, DROPPED.w.first);
  }

  lemma {:induction false} RowOwesMore(row: seq<Action>, n: nat)
    requires OwesFirst(Exec(row), n)
    ensures OwesFirst(Exec(row + [DROPPED]), n + 1)
  {
    ExecOne(row, DROPPED);
    DroppedOwesMore(Exec(row), |row|, n);
  }

  /** The dropped calls use up ids while the answer to the first call stays first in line. */
  lemma {:induction false} RepeatedOwes(start: seq<Action>, n: nat) returns (row: seq<Action>)
    requires OwesFirst(Exec(start), 0)
    ensures row == Repeated(start, DROPPED, n) && OwesFirst(Exec(row), n)
  {
    row := start;
    for i := 0 to n
      invariant row == Repeated(start, DROPPED, i) && OwesFirst(Exec(row), i)
    {
      RowOwesMore(row, i);
      row := row + [DROPPED];
    }
  }

  lemma {:induction false} RepeatedDrops(start: seq<Action>, a: Action, n: nat)
    requires Drops(start) == 0 && a.DropInFirst?
    ensures |Repeated(start, a, n)| == |start| + n && Drops(Repeated(start, a, n)) == n
  {
    if n > 0 {
      RepeatedDrops(start, a, n - 1);
      DropsOne(Repeated(start, a, n - 1), a);
    }
  }

  lemma {:induction false} RunExtends(actions: seq<Action>, a: Action, limit: nat)
    requires IsRun(actions, limit) && ValidAction(a) && Drops(actions + [a]) <= limit
    ensures IsRun(actions + [a], limit)
  {
    var all := actions + [a];
    forall k: nat | k <= |all|
      ensures Drops(all[..k]) <= limit
    {
      assert all[..k] == if k == |all| then all else actions[..k];
    }
  }

  lemma {:induction false} RunLoosens(actions: seq<Action>, limit: nat, more: nat)
    requires IsRun(actions, limit) && limit <= more
    ensures IsRun(actions, more)
  {
  }

  lemma {:induction false} RepeatedIsRun(start: seq<Action>, a: Action, n: nat)
    requires IsRun(start, 0) && Drops(start) == 0 && a.DropInFirst? && ValidAction(a)
    ensures IsRun(Repeated(start, a, n), n)
  {
    if n > 0 {
      var before := Repeated(start, a, n - 1);
      RepeatedIsRun(start, a, n - 1);
      RunLoosens(before, n - 1, n);
      RepeatedDrops(start, a, n);
      RunExtends(before, a, n);
    }
  }

  /** Once the id of the oldest answer owed has come round, that answer is taken for the next call's. */
  lemma {:induction false} IdComesRound(row: seq<Action>, n: nat)
    requires OwesFirst(Exec(row), n) && (n + 2) % REQUEST_ID_COUNT == 1
    ensures LastResult(row + [Answered(n + 1)]) == Some(Ok(Response(Some(1), 0)))
  {
    var last := Answered(n + 1);
    AttemptResult(Exec(row), |row|, last.w.first, 0);
    ExecOne(row, last);
  }

  /** One unanswered call, 65535 calls dropped while they wait for their answers, and one call more. */
  function WrapRun(): seq<Action> {
    Repeated([UNANSWERED], DROPPED, SAFE_DROPS + 1) + [Answered(SAFE_DROPS + 2)]
  }

  /** After 65535 dropped calls the id has come round, and the next call is given the answer to the
      first one. */
  lemma {:induction false} WrongAnswer()
    ensures IsRun(WrapRun(), SAFE_DROPS + 1)
    ensures LastResult(WrapRun()) == Some(Ok(Response(Some(1), 0))) && !GotOwnAnswer(WrapRun())
  {
    var n := SAFE_DROPS + 1;
    UnansweredOwes();
    var row := RepeatedOwes([UNANSWERED], n);
    RepeatedDrops([UNANSWERED], DROPPED, n);
    IdComesRound(row, n);
    assert [UNANSWERED][..0] == [] && [UNANSWERED][..1] == [UNANSWERED];
    RepeatedIsRun([UNANSWERED], DROPPED, n);
    WrapIsRun(row, n);
  }

  lemma {:induction false} WrapIsRun(row: seq<Action>, n: nat)
    requires IsRun(row, n)
    ensures IsRun(row + [Answered(n + 1)], n)
  {
    DropsOne(row, Answered(n + 1));
    RunExtends(row, Answered(n + 1), n);
  }

  /** Whether no call is ever given another call's answer if at most `limit` calls in a row are dropped. */
  ghost predicate AnswersAreOwn(limit: nat) {
    forall actions: seq<Action> | actions != [] && IsRun(actions, limit) :: GotOwnAnswer(actions)
  }

  /** The limit is 65534, exactly. */
  lemma {:induction false} MatchingExactness(limit: nat)
    ensures AnswersAreOwn(limit) <==> limit <= SAFE_DROPS
  {
    if limit <= SAFE_DROPS {
      forall actions: seq<Action> | actions != [] && IsRun(actions, limit)
        ensures GotOwnAnswer(actions)
      {
        RunLoosens(actions, limit, SAFE_DROPS);
        ResponseMatching(actions);
      }
    } else {
      WrongAnswer();
      RunLoosens(WrapRun(), SAFE_DROPS + 1, limit);
    }
  }

  /** Unless the call before was dropped, a usable connection owes at most one answer when a call starts. */
  lemma {:induction false} AtMostOneStaleAnswer(actions: seq<Action>)
    requires IsRun(actions, SAFE_DROPS)
    ensures Exec(actions).open ==> |Exec(actions).pending| <= Drops(actions) + 1
  {
    Reachable(actions);
  }
}
