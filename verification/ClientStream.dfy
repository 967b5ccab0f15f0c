/** One client's stream: replayed events chained to the live broadcast, duplicates removed by id.

    The handler sends the subscriber info and then subscribes to the broadcast; the server task
    publishes and registers in between as it pleases. Every sequence of actions is one
    interleaving; an action that is not enabled changes nothing. */
module ClientStream {
  import opened SseTypes
  import opened Replay
  import opened EventIndexing
  import opened HttpServers

  datatype Config = Config(capacity: Id, first: Id, start: Option<Id>, legacy: bool) {
    predicate Valid() {
      1 <= capacity && 3 * capacity <= ID_COUNT
    }
  }

  datatype State = State(
    index: Id,
    latest: Option<ProtocolVersion>,
    buffer: seq<Entry>,
    history: seq<ServerSentEvent>,     // everything broadcast so far
    infoSent: bool,
    registeredAt: Option<nat>,         // length of the history when the server registered the client
    subscribedAt: Option<nat>,         // length of the history when the client subscribed
    initial: seq<ServerSentEvent>,     // initial events sent to the client and not yet read
    cursor: nat,                       // next broadcast message the client reads
    initialIds: set<Id>,
    delivered: seq<ServerSentEvent>)

  datatype Action =
    | Publish(data: SseData, inboundFilter: Option<Filter>)
    | SendInfo
    | Register
    | Subscribe
    | DeliverInitial
    | DeliverLive

  function Init(c: Config): State {
    State(c.first, None, [], [], false, None, None, [], 0, {}, [])
  }

  function Do(c: Config, s: State, a: Action): (t: State)
    requires c.Valid() && Numbered(s.buffer)
    ensures Numbered(t.buffer)
  {
    match a
    case Publish(data, inboundFilter) =>
      var id := if data.ApiVersion? then None else Some(s.index);
      var event := ServerSentEvent(id, Some(data), false, inboundFilter);
      s.(index := if data.ApiVersion? then s.index else WrappingAdd(s.index, 1),
         latest := if data.ApiVersion? then Some(data.version) else s.latest,
         buffer := if data.ApiVersion? || s.latest.None? then s.buffer
                   else PushEntry(s.buffer, c.capacity, Entry(s.latest.value, event)),
         history := s.history + [event])
    case SendInfo => s.(infoSent := true)
    case Register =>
      if !s.infoSent || s.registeredAt.Some? then s
      else s.(registeredAt := Some(|s.history|),
              initial := InitialEvents(s.buffer, c.capacity, s.latest, c.start, c.legacy))
    case Subscribe =>
      if !s.infoSent || s.subscribedAt.Some? then s
      else s.(subscribedAt := Some(|s.history|), cursor := |s.history|)
    case DeliverInitial =>
      if s.subscribedAt.None? || s.initial == [] then s
      else
        var event := s.initial[0];
        s.(initial := s.initial[1..],
           initialIds := s.initialIds + IdSet([event]),
           delivered := s.delivered + [event])
    case DeliverLive =>
      // The chained live stream is polled once the initial events are exhausted and their sender,
      // owned by the server, is gone.
      if s.subscribedAt.None? || s.registeredAt.None? || s.initial != [] || s.cursor >= |s.history| then s
      else
        var event := s.history[s.cursor];
        s.(cursor := s.cursor + 1,
           delivered := s.delivered + if IsDuplicate(event, s.initialIds) then [] else [event])
  }

  /** The state after a sequence of actions. */
  function Exec(c: Config, actions: seq<Action>): (s: State)
    requires c.Valid()
    ensures Numbered(s.buffer)
  {
    if actions == [] then Init(c)
    else Do(c, Exec(c, actions[..|actions| - 1]), actions[|actions| - 1])
  }

  function IdSet(stream: seq<ServerSentEvent>): set<Id> {
    set event | event in stream && event.id.Some? :: event.id.value
  }

  predicate IsDuplicate(event: ServerSentEvent, ids: set<Id>) {
    event.id.Some? && event.id.value in ids
  }

  /** A broadcast segment without the events whose ids are in `ids`. */
  function Dedup(messages: seq<ServerSentEvent>, ids: set<Id>): seq<ServerSentEvent> {
    if messages == [] then []
    else
      var last := messages[|messages| - 1];
      Dedup(messages[..|messages| - 1], ids) + if IsDuplicate(last, ids) then [] else [last]
  }

  // ----- What every step keeps ---------------------------------------------------------------

  ghost predicate ServerInv(c: Config, s: State) {
    && WellNumbered(c.first, s.history)
    && s.index == IdAt(c.first, |Payloads(s.history)|)
    && s.latest == LatestVersion(s.history)
    && s.buffer == Wheel(Tagged(s.history), c.capacity)
  }

  /** The initial events of a client registered after `history`. */
  ghost function InitialAfter(c: Config, history: seq<ServerSentEvent>): seq<ServerSentEvent> {
    var buffer := Wheel(Tagged(history), c.capacity);
    if Numbered(buffer) then InitialEvents(buffer, c.capacity, LatestVersion(history), c.start, c.legacy) else []
  }

  /** The delivered stream in closed form. */
  ghost predicate ClientInv(c: Config, s: State) {
    && (s.registeredAt.Some? ==> s.infoSent && s.registeredAt.value <= |s.history|)
    && (s.subscribedAt.Some? ==> s.infoSent && s.subscribedAt.value <= s.cursor <= |s.history|)
    && (s.registeredAt.None? ==> s.initial == [])
    && (s.registeredAt.None? || s.subscribedAt.None? ==> s.delivered == [] && s.initialIds == {})
    && (s.registeredAt.None? && s.subscribedAt.Some? ==> s.cursor == s.subscribedAt.value)
    && (s.registeredAt.Some? ==>
          var all := InitialAfter(c, s.history[..s.registeredAt.value]);
          && (s.subscribedAt.None? ==> s.initial == all)
          && (s.subscribedAt.Some? ==> DeliveredFrom(s, all)))
  }

  ghost predicate DeliveredFrom(s: State, all: seq<ServerSentEvent>)
    requires s.subscribedAt.Some? && s.subscribedAt.value <= s.cursor <= |s.history|
  {
    if s.initial != [] then
      && s.cursor == s.subscribedAt.value
      && s.delivered + s.initial == all
      && s.initialIds == IdSet(s.delivered)
    else
      && s.initialIds == IdSet(all)
      && s.delivered == all + Dedup(s.history[s.subscribedAt.value..s.cursor], IdSet(all))
  }

  lemma {:induction false} PublishKeepsServerInv(c: Config, s: State, data: SseData, inboundFilter: Option<Filter>)
    requires c.Valid() && ServerInv(c, s) && Numbered(s.buffer)
    ensures ServerInv(c, Do(c, s, Publish(data, inboundFilter)))
  {
    var t := Do(c, s, Publish(data, inboundFilter));
    var event := t.history[|s.history|];
    HistoryOne(c.first, s.history, event);
    PayloadsOne(s.history, event);
    if !data.ApiVersion? {
      IdAtCompose(c.first, |Payloads(s.history)|, 1);
      if s.latest.Some? {
        PushRefinesWheel(Tagged(s.history), c.capacity, Entry(s.latest.value, event));
      }
    }
  }

  lemma {:induction false} PublishKeepsClientInv(c: Config, s: State, data: SseData, inboundFilter: Option<Filter>)
    requires c.Valid() && ClientInv(c, s) && Numbered(s.buffer)
    ensures ClientInv(c, Do(c, s, Publish(data, inboundFilter)))
  {
    var t := Do(c, s, Publish(data, inboundFilter));
    if s.registeredAt.Some? {
      assert t.history[..s.registeredAt.value] == s.history[..s.registeredAt.value];
    }
    if s.subscribedAt.Some? {
      assert t.history[s.subscribedAt.value..s.cursor] == s.history[s.subscribedAt.value..s.cursor];
    }
  }

  lemma {:induction false} DeliverOneInitial(s: State, t: State, all: seq<ServerSentEvent>)
    requires s.subscribedAt.Some? && s.subscribedAt.value <= s.cursor <= |s.history| && s.initial != []
    requires DeliveredFrom(s, all)
    requires t == s.(initial := s.initial[1..],
                     initialIds := s.initialIds + IdSet([s.initial[0]]),
                     delivered := s.delivered + [s.initial[0]])
    ensures DeliveredFrom(t, all)
  {
    assert IdSet(s.delivered + [s.initial[0]]) == IdSet(s.delivered) + IdSet([s.initial[0]]);
    assert t.delivered + t.initial == s.delivered + s.initial;
    if t.initial == [] {
      assert t.delivered == all;
      assert t.history[s.cursor..s.cursor] == [];
      assert all + [] == all;
    }
  }

  lemma {:induction false} DeliverInitialKeepsClientInv(c: Config, s: State)
    requires c.Valid() && ClientInv(c, s) && Numbered(s.buffer)
    ensures ClientInv(c, Do(c, s, DeliverInitial))
  {
    var t := Do(c, s, DeliverInitial);
    if t != s {
      DeliverOneInitial(s, t, InitialAfter(c, s.history[..s.registeredAt.value]));
    }
  }

  lemma {:induction false} DeliverOneLive(s: State, t: State, all: seq<ServerSentEvent>)
    requires s.subscribedAt.Some? && s.subscribedAt.value <= s.cursor < |s.history| && s.initial == []
    requires DeliveredFrom(s, all)
    requires var event := s.history[s.cursor];
             t == s.(cursor := s.cursor + 1,
                     delivered := s.delivered + if IsDuplicate(event, s.initialIds) then [] else [event])
    ensures DeliveredFrom(t, all)
  {
    var event, read := s.history[s.cursor], s.history[s.subscribedAt.value..t.cursor];
    assert read[..|read| - 1] == s.history[s.subscribedAt.value..s.cursor];
    assert read[|read| - 1] == event;
    if IsDuplicate(event, s.initialIds) {
      assert t.delivered == s.delivered;
    } else {
      assert t.delivered == all + (Dedup(read[..|read| - 1], IdSet(all)) + [event]);
    }
  }

  lemma {:induction false} DeliverLiveKeepsClientInv(c: Config, s: State)
    requires c.Valid() && ClientInv(c, s) && Numbered(s.buffer)
    ensures ClientInv(c, Do(c, s, DeliverLive))
  {
    var t := Do(c, s, DeliverLive);
    if t != s {
      DeliverOneLive(s, t, InitialAfter(c, s.history[..s.registeredAt.value]));
    }
  }

  lemma {:induction false} RegisterKeepsClientInv(c: Config, s: State)
    requires c.Valid() && ServerInv(c, s) && ClientInv(c, s) && Numbered(s.buffer)
    ensures ClientInv(c, Do(c, s, Register))
  {
    var t := Do(c, s, Register);
    if t != s {
      assert t.history[..|s.history|] == s.history;
      assert t.initial == InitialAfter(c, s.history);
      if s.subscribedAt.Some? {
        FirstDelivery(t, t.initial);
      }
    }
  }

  lemma {:induction false} SubscribeKeepsClientInv(c: Config, s: State)
    requires c.Valid() && ClientInv(c, s) && Numbered(s.buffer)
    ensures ClientInv(c, Do(c, s, Subscribe))
  {
    var t := Do(c, s, Subscribe);
    if t != s && s.registeredAt.Some? {
      FirstDelivery(t, InitialAfter(c, s.history[..s.registeredAt.value]));
    }
  }

  /** A client that is both registered and subscribed and has read nothing yet. */
  lemma {:induction false} FirstDelivery(s: State, all: seq<ServerSentEvent>)
    requires s.subscribedAt.Some? && s.subscribedAt.value == s.cursor <= |s.history|
    requires s.initial == all && s.delivered == [] && s.initialIds == {}
    ensures DeliveredFrom(s, all)
  {
    assert s.history[s.cursor..s.cursor] == [];
    assert s.delivered + s.initial == all;
  }

  /** The invariants hold after every interleaving. */
  lemma {:induction false} Reachable(c: Config, actions: seq<Action>)
    requires c.Valid()
    ensures ServerInv(c, Exec(c, actions)) && ClientInv(c, Exec(c, actions))
  {
    if actions != [] {
      var before, a := actions[..|actions| - 1], actions[|actions| - 1];
      Reachable(c, before);
      var s := Exec(c, before);
      match a {
        case Publish(data, inboundFilter) =>
          PublishKeepsServerInv(c, s, data, inboundFilter);
          PublishKeepsClientInv(c, s, data, inboundFilter);
        case SendInfo =>
        case Register => RegisterKeepsClientInv(c, s);
        case Subscribe => SubscribeKeepsClientInv(c, s);
        case DeliverInitial => DeliverInitialKeepsClientInv(c, s);
        case DeliverLive => DeliverLiveKeepsClientInv(c, s);
      }
    }
  }

  /** What was published in a run, in order. */
  function Published(actions: seq<Action>): seq<(SseData, Option<Filter>)> {
    if actions == [] then []
    else
      var last := actions[|actions| - 1];
      Published(actions[..|actions| - 1]) + if last.Publish? then [(last.data, last.inboundFilter)] else []
  }

  /** An event that says what was published, and nothing else. */
  predicate Says(event: ServerSentEvent, published: (SseData, Option<Filter>)) {
    event.data == Some(published.0) && event.inboundFilter == published.1 && !event.comment
  }

  ghost predicate SaysAll(history: seq<ServerSentEvent>, published: seq<(SseData, Option<Filter>)>) {
    |history| == |published| && forall i | 0 <= i < |history| :: Says(history[i], published[i])
  }

  lemma {:induction false} SaysOne(history: seq<ServerSentEvent>, published: seq<(SseData, Option<Filter>)>,
                                   event: ServerSentEvent, one: (SseData, Option<Filter>))
    requires SaysAll(history, published) && Says(event, one)
    ensures SaysAll(history + [event], published + [one])
  {
  }

  lemma {:induction false} BroadcastOne(c: Config, s: State, a: Action)
    requires c.Valid() && Numbered(s.buffer)
    ensures if a.Publish?
            then |Do(c, s, a).history| == |s.history| + 1 && s.history == Do(c, s, a).history[..|s.history|] &&
                 Says(Do(c, s, a).history[|s.history|], (a.data, a.inboundFilter))
            else Do(c, s, a).history == s.history
  {
  }

  /** Everything published is broadcast once, in order and unaltered. */
  lemma {:induction false} PublishedIsBroadcast(c: Config, actions: seq<Action>)
    requires c.Valid()
    ensures SaysAll(Exec(c, actions).history, Published(actions))
  {
    if actions != [] {
      var before, a := actions[..|actions| - 1], actions[|actions| - 1];
      PublishedIsBroadcast(c, before);
      var s := Exec(c, before);
      BroadcastOne(c, s, a);
      if a.Publish? {
        var event := Exec(c, actions).history[|s.history|];
        SaysOne(s.history, Published(before), event, (a.data, a.inboundFilter));
        assert Exec(c, actions).history == s.history + [event];
      }
    }
  }

  /** A run and one action more. */
  lemma {:induction false} Then(c: Config, actions: seq<Action>, a: Action) returns (more: seq<Action>)
    requires c.Valid()
    ensures more == actions + [a] && Exec(c, more) == Do(c, Exec(c, actions), a)
  {
    more := actions + [a];
    assert more[..|actions|] == actions;
  }
}
