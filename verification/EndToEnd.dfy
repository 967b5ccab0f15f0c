/** From the nodes to one client: the outbound channel of the intake feeds the event stream server
    in order, and the server feeds its clients. */
module EndToEnd {
  import opened SseTypes
  import opened HttpServers
  import opened ClientStream
  import Delivery
  import EventStore
  import Intake

  // ----- Versions from node to client --------------------------------------------------------

  /** The server has published the first part of what the intake sent, in the same order. */
  predicate IsFed(history: seq<ServerSentEvent>, outbound: seq<Intake.Outbound>) {
    && |history| <= |outbound|
    && forall i | 0 <= i < |history| :: history[i].data == Some(outbound[i].data)
  }

  lemma {:induction false} PublishedVersions(history: seq<ServerSentEvent>, outbound: seq<Intake.Outbound>)
    requires IsFed(history, outbound)
    ensures Versions(history) == Intake.SentVersions(outbound[..|history|])
  {
    if history != [] {
      var n := |history| - 1;
      PublishedVersions(history[..n], outbound);
      assert outbound[..n + 1][..n] == outbound[..n];
    }
  }

  lemma {:induction false} SentVersionsPrefix(outbound: seq<Intake.Outbound>, n: nat)
    requires n <= |outbound|
    ensures Intake.SentVersions(outbound[..n]) <= Intake.SentVersions(outbound)
  {
    if n < |outbound| {
      var before := outbound[..|outbound| - 1];
      SentVersionsPrefix(before, n);
      assert before[..n] == outbound[..n];
    } else {
      assert outbound[..n] == outbound;
    }
  }

  lemma {:induction false} LatestIsLast(stream: seq<ServerSentEvent>)
    ensures var versions := Versions(stream);
            LatestVersion(stream) == if versions == [] then None else Some(versions[|versions| - 1])
  {
    if stream != [] {
      LatestIsLast(stream[..|stream| - 1]);
    }
  }

  predicate NoneAbove(entries: seq<Entry>, latest: Option<ProtocolVersion>) {
    forall i | 0 <= i < |entries| :: latest.Some? && !latest.value.Less(entries[i].version)
  }

  lemma {:induction false} NotLessChains(a: ProtocolVersion, b: ProtocolVersion, c: ProtocolVersion)
    requires !b.Less(a) && !c.Less(b)
    ensures !c.Less(a)
  {
  }

  /** A higher latest version keeps all tags at or below it. */
  lemma {:induction false} RaiseLatest(entries: seq<Entry>, latest: Option<ProtocolVersion>, version: ProtocolVersion)
    requires NoneAbove(entries, latest) && (latest.Some? ==> latest.value.Less(version))
    ensures NoneAbove(entries, Some(version))
  {
    forall i | 0 <= i < |entries|
      ensures !version.Less(entries[i].version)
    {
      NotLessChains(entries[i].version, latest.value, version);
    }
  }

  /** An entry tagged with the latest version can be appended. */
  lemma {:induction false} AppendLatest(entries: seq<Entry>, latest: ProtocolVersion, event: ServerSentEvent)
    requires NonDecreasing(entries) && NoneAbove(entries, Some(latest))
    ensures var more := entries + [Entry(latest, event)]; NonDecreasing(more) && NoneAbove(more, Some(latest))
  {
  }

  /** If the versions published ascend, a version published last is above the latest before it. */
  lemma {:induction false} LatestAscends(history: seq<ServerSentEvent>)
    requires history != [] && StrictlyIncreasing(Versions(history))
    ensures var before, last := history[..|history| - 1], history[|history| - 1];
            && StrictlyIncreasing(Versions(before))
            && (IsVersionEvent(last) && LatestVersion(before).Some? ==>
                  LatestVersion(before).value.Less(last.data.value.version))
  {
    var before, last := history[..|history| - 1], history[|history| - 1];
    LatestIsLast(before);
    if IsVersionEvent(last) {
      assert Versions(history) == Versions(before) + [last.data.value.version];
      IncreasingJoin(Versions(before), [last.data.value.version]);
    } else {
      assert Versions(history) == Versions(before);
    }
  }

  /** If the published versions ascend, buffered events are tagged in order, none above the latest. */
  lemma {:induction false} TagsNeverDecrease(history: seq<ServerSentEvent>)
    requires StrictlyIncreasing(Versions(history))
    ensures NonDecreasing(Tagged(history)) && NoneAbove(Tagged(history), LatestVersion(history))
  {
    if history == [] {
      assert Tagged(history) == [];
    } else {
      var before, last := history[..|history| - 1], history[|history| - 1];
      LatestAscends(history);
      TagsNeverDecrease(before);
      var tags, latest := Tagged(before), LatestVersion(before);
      if last.id.Some? && latest.Some? {
        assert Tagged(history) == tags + [Entry(latest.value, last)];
        AppendLatest(tags, latest.value, last);
      } else {
        assert Tagged(history) == tags;
      }
      if IsVersionEvent(last) {
        RaiseLatest(Tagged(history), latest, last.data.value.version);
      }
    }
  }

  /** Whatever the nodes announce and however their events interleave, the versions published strictly
      increase, and so do those among the initial events of any new subscriber. */
  lemma {:induction false} PublishedVersionsIncrease(count: nat, intake: seq<Intake.Action>, c: Config, actions: seq<Action>,
                                                     start: Option<Id>, legacy: bool)
    requires c.Valid()
    requires IsFed(Exec(c, actions).history, Intake.Exec(count, intake).outbound)
    ensures var s := Exec(c, actions);
            && StrictlyIncreasing(Versions(s.history))
            && StrictlyIncreasing(Versions(InitialEvents(s.buffer, c.capacity, s.latest, start, legacy)))
  {
    var s, outbound := Exec(c, actions), Intake.Exec(count, intake).outbound;
    ClientStream.Reachable(c, actions);
    Intake.VersionsAscend(count, intake);
    PublishedVersions(s.history, outbound);
    SentVersionsPrefix(outbound, |s.history|);
    TagsNeverDecrease(s.history);
    InitialVersionsIncrease(s.buffer, c.capacity, s.latest, start, legacy);
  }

  // ----- Which version a client attributes to live events ------------------------------------

  lemma {:induction false} LatestOfConcat(a: seq<ServerSentEvent>, b: seq<ServerSentEvent>)
    ensures LatestVersion(a + b) == if LatestVersion(b).Some? then LatestVersion(b) else LatestVersion(a)
  {
    if b == [] {
      assert a + b == a;
    } else {
      LatestOfConcat(a, b[..|b| - 1]);
      assert (a + b)[..|a + b| - 1] == a + b[..|b| - 1];
    }
  }

  predicate VersionsUnnumbered(stream: seq<ServerSentEvent>) {
    forall i | 0 <= i < |stream| :: IsVersionEvent(stream[i]) ==> stream[i].id.None?
  }

  lemma {:induction false} HistoryUnnumbered(first: Id, history: seq<ServerSentEvent>)
    requires WellNumbered(first, history)
    ensures VersionsUnnumbered(history)
  {
    if history != [] {
      HistoryUnnumbered(first, history[..|history| - 1]);
    }
  }

  /** Removing duplicates removes no ApiVersion. */
  lemma {:induction false} DedupKeepsVersions(messages: seq<ServerSentEvent>, ids: set<Id>)
    requires VersionsUnnumbered(messages)
    ensures LatestVersion(Dedup(messages, ids)) == LatestVersion(messages)
  {
    if messages != [] {
      var before, last := messages[..|messages| - 1], messages[|messages| - 1];
      DedupKeepsVersions(before, ids);
      if IsDuplicate(last, ids) {
        assert Dedup(messages, ids) == Dedup(before, ids);
      } else {
        assert Dedup(messages, ids) == Dedup(before, ids) + [last];
        DecodeOne(Dedup(before, ids), last);
      }
    }
  }

  /** The version a client goes by after its initial events and a segment of the broadcast. */
  lemma {:induction false} LiveVersion(history: seq<ServerSentEvent>, all: seq<ServerSentEvent>, subscribed: nat, cursor: nat,
                                       ids: set<Id>)
    requires VersionsUnnumbered(history) && subscribed <= cursor <= |history|
    ensures LatestVersion(all + Dedup(history[subscribed..cursor], ids)) == LatestVersion(history[..cursor]) <==>
            || LatestVersion(history[subscribed..cursor]).Some?
            || LatestVersion(all) == LatestVersion(history[..subscribed])
  {
    var live := history[subscribed..cursor];
    DedupKeepsVersions(live, ids);
    LatestOfConcat(all, Dedup(live, ids));
    LatestOfConcat(history[..subscribed], live);
    assert history[..subscribed] + live == history[..cursor];
  }

  /** The version the initial events leave a client with: that of the newest buffered event if
      anything is replayed, else the server's. */
  function VersionFromInitial(c: Config, history: seq<ServerSentEvent>): Option<ProtocolVersion>
    requires Numbered(Wheel(Tagged(history), c.capacity))
  {
    var buffer := Wheel(Tagged(history), c.capacity);
    if Replayed(buffer, c.capacity, c.start) == [] then LatestVersion(history)
    else Some(buffer[|buffer| - 1].version)
  }

  lemma {:induction false} InitialLeavesVersion(c: Config, history: seq<ServerSentEvent>)
    requires WellNumbered(c.first, history)
    ensures Numbered(Wheel(Tagged(history), c.capacity))
    ensures LatestVersion(InitialAfter(c, history)) == VersionFromInitial(c, history)
  {
    BufferIsNewestPayloads(c.first, history, c.capacity);
    InitialEventsVersion(Wheel(Tagged(history), c.capacity), c.capacity, LatestVersion(history), c.start, c.legacy);
  }

  /** In every reachable state in which a client reads live events, the version it goes by is the
      one the next event was published under if and only if an ApiVersion was published since it
      subscribed, or the initial events left it with the version current when it subscribed. */
  lemma {:induction false} AttributionExact(c: Config, actions: seq<Action>)
    requires c.Valid()
    requires var s := Exec(c, actions); s.registeredAt.Some? && s.subscribedAt.Some? && s.initial == []
    ensures var s := Exec(c, actions);
            && s.registeredAt.value <= |s.history| && s.subscribedAt.value <= s.cursor <= |s.history|
            && Numbered(Wheel(Tagged(s.history[..s.registeredAt.value]), c.capacity))
            && (LatestVersion(s.delivered) == LatestVersion(s.history[..s.cursor]) <==>
                || LatestVersion(s.history[s.subscribedAt.value..s.cursor]).Some?
                || VersionFromInitial(c, s.history[..s.registeredAt.value]) ==
                   LatestVersion(s.history[..s.subscribedAt.value]))
  {
    ClientStream.Reachable(c, actions);
    var s := Exec(c, actions);
    var registered := s.registeredAt.value;
    var all := InitialAfter(c, s.history[..registered]);
    Delivery.WellNumberedPrefix(c.first, s.history, registered);
    InitialLeavesVersion(c, s.history[..registered]);
    HistoryUnnumbered(c.first, s.history);
    LiveVersion(s.history, all, s.subscribedAt.value, s.cursor, IdSet(all));
  }

  // ----- The versions in the stream a client reads -------------------------------------------

  lemma {:induction false} VersionsConcat(a: seq<ServerSentEvent>, b: seq<ServerSentEvent>)
    ensures Versions(a + b) == Versions(a) + Versions(b)
  {
    if b == [] {
      assert a + b == a;
    } else {
      VersionsConcat(a, b[..|b| - 1]);
      assert (a + b)[..|a + b| - 1] == a + b[..|b| - 1];
    }
  }

  lemma {:induction false} DedupVersions(messages: seq<ServerSentEvent>, ids: set<Id>)
    requires VersionsUnnumbered(messages)
    ensures Versions(Dedup(messages, ids)) == Versions(messages)
  {
    if messages != [] {
      var before, last := messages[..|messages| - 1], messages[|messages| - 1];
      DedupVersions(before, ids);
      if IsDuplicate(last, ids) {
        assert Dedup(messages, ids) == Dedup(before, ids);
      } else {
        assert Dedup(messages, ids) == Dedup(before, ids) + [last];
        DecodeOne(Dedup(before, ids), last);
      }
    }
  }

  /** The versions in a part of a history of increasing versions increase, and so do those in two parts
      that follow one another, even with a gap between them. */
  lemma {:induction false} PartsIncrease(history: seq<ServerSentEvent>, a: nat, b: nat, c: nat)
    requires a <= b <= c <= |history| && StrictlyIncreasing(Versions(history))
    ensures StrictlyIncreasing(Versions(history[..a]) + Versions(history[b..c]))
  {
    VersionsSplit(history, c);
    VersionsSplit(history[..c], b);
    VersionsSplit(history[..b], a);
    assert history[..c][..b] == history[..b] && history[..c][b..] == history[b..c];
    assert history[..b][..a] == history[..a] && history[..b][a..] == history[a..b];
    PartsOfIncreasing(Versions(history[..a]), Versions(history[a..b]), Versions(history[b..c]), Versions(history[c..]));
  }

  lemma {:induction false} VersionsSplit(history: seq<ServerSentEvent>, n: nat)
    requires n <= |history|
    ensures Versions(history) == Versions(history[..n]) + Versions(history[n..])
  {
    VersionsConcat(history[..n], history[n..]);
    assert history[..n] + history[n..] == history;
  }

  lemma {:induction false} PartsOfIncreasing(a: seq<ProtocolVersion>, b: seq<ProtocolVersion>,
                                             c: seq<ProtocolVersion>, d: seq<ProtocolVersion>)
    requires StrictlyIncreasing(a + b + c + d)
    ensures StrictlyIncreasing(a + c)
  {
    var all, parts := a + b + c + d, a + c;
    forall i, j | 0 <= i < j < |parts|
      ensures parts[i].Less(parts[j])
    {
      var x, y := if i < |a| then i else i + |b|, if j < |a| then j else j + |b|;
      assert all[x] == parts[i] && all[y] == parts[j];
    }
  }

  /** The client holds a version to begin with that is not above what the server had then. */
  lemma {:induction false} InitialNotAbove(c: Config, history: seq<ServerSentEvent>)
    requires WellNumbered(c.first, history) && StrictlyIncreasing(Versions(history))
    ensures Numbered(Wheel(Tagged(history), c.capacity))
    ensures var version, latest := VersionFromInitial(c, history), LatestVersion(history);
            version.Some? ==> latest.Some? && !latest.value.Less(version.value)
  {
    BufferNumbered(c.first, history, c.capacity);
    TagsNeverDecrease(history);
  }

  /** The versions a client has read are those of its initial events, then those published since it
      subscribed. */
  lemma {:induction false} DeliveredVersions(c: Config, s: State)
    requires ServerInv(c, s) && ClientInv(c, s) && Delivery.Live(s)
    ensures Versions(s.delivered) == Versions(InitialAfter(c, s.history[..s.registeredAt.value])) +
                                     Versions(s.history[s.subscribedAt.value..s.cursor])
  {
    var all, live := InitialAfter(c, s.history[..s.registeredAt.value]), s.history[s.subscribedAt.value..s.cursor];
    HistoryUnnumbered(c.first, s.history);
    DedupVersions(live, IdSet(all));
    VersionsConcat(all, Dedup(live, IdSet(all)));
  }

  lemma {:induction false} InitialAfterIncreases(c: Config, history: seq<ServerSentEvent>)
    requires WellNumbered(c.first, history) && StrictlyIncreasing(Versions(history))
    ensures Numbered(Wheel(Tagged(history), c.capacity))
    ensures var versions := Versions(InitialAfter(c, history));
            && StrictlyIncreasing(versions)
            && VersionFromInitial(c, history) == if versions == [] then None else Some(versions[|versions| - 1])
  {
    BufferNumbered(c.first, history, c.capacity);
    TagsNeverDecrease(history);
    InitialVersionsIncrease(Wheel(Tagged(history), c.capacity), c.capacity, LatestVersion(history), c.start, c.legacy);
    InitialLeavesVersion(c, history);
    LatestIsLast(InitialAfter(c, history));
  }

  /** A part of a history of increasing versions. */
  lemma {:induction false} PartIncreases(history: seq<ServerSentEvent>, b: nat, c: nat)
    requires b <= c <= |history| && StrictlyIncreasing(Versions(history))
    ensures StrictlyIncreasing(Versions(history[..b])) && StrictlyIncreasing(Versions(history[b..c]))
  {
    PartsIncrease(history, b, b, c);
    IncreasingJoin(Versions(history[..b]), Versions(history[b..c]));
  }

  /** If the published versions increase, those a live client reads increase if and only if its initial
      events announced none, none was published since it subscribed, or the first published since
      then is above the one its initial events left it with. */
  lemma {:induction false} DeliveredVersionsExact(c: Config, s: State)
    requires ServerInv(c, s) && ClientInv(c, s) && Delivery.Live(s) && StrictlyIncreasing(Versions(s.history))
    ensures var past := s.history[..s.registeredAt.value];
            && Numbered(Wheel(Tagged(past), c.capacity))
            && var version, live := VersionFromInitial(c, past), Versions(s.history[s.subscribedAt.value..s.cursor]);
               StrictlyIncreasing(Versions(s.delivered)) <==>
               version.None? || live == [] || version.value.Less(live[0])
  {
    var past := s.history[..s.registeredAt.value];
    Delivery.WellNumberedPrefix(c.first, s.history, s.registeredAt.value);
    PartIncreases(s.history, s.registeredAt.value, s.registeredAt.value);
    PartIncreases(s.history, s.subscribedAt.value, s.cursor);
    InitialAfterIncreases(c, past);
    DeliveredVersions(c, s);
    IncreasingJoin(Versions(InitialAfter(c, past)), Versions(s.history[s.subscribedAt.value..s.cursor]));
  }

  /** No ApiVersion was published between the client's subscription and a later registration. */
  predicate NoVersionBetween(history: seq<ServerSentEvent>, subscribed: nat, registered: nat)
    requires registered <= |history|
  {
    subscribed < registered ==> Versions(history[subscribed..registered]) == []
  }

  /** In that case the first version read live is above all that were known at registration. */
  lemma {:induction false} LiveVersionsAbove(history: seq<ServerSentEvent>, subscribed: nat, registered: nat, cursor: nat)
    requires subscribed <= cursor <= |history| && registered <= |history| && StrictlyIncreasing(Versions(history))
    requires NoVersionBetween(history, subscribed, registered)
    ensures StrictlyIncreasing(Versions(history[..registered]) + Versions(history[subscribed..cursor]))
  {
    if registered <= subscribed {
      PartsIncrease(history, registered, subscribed, cursor);
    } else if cursor <= registered {
      VersionsConcat(history[subscribed..cursor], history[cursor..registered]);
      assert history[subscribed..cursor] + history[cursor..registered] == history[subscribed..registered];
      PartIncreases(history, registered, registered);
      var known := Versions(history[..registered]);
      assert known + [] == known;
    } else {
      VersionsConcat(history[subscribed..registered], history[registered..cursor]);
      assert history[subscribed..registered] + history[registered..cursor] == history[subscribed..cursor];
      var live := Versions(history[registered..cursor]);
      assert [] + live == live;
      PartsIncrease(history, registered, registered, cursor);
    }
  }

  lemma {:induction false} DeliveredVersionsIncrease(c: Config, s: State)
    requires ServerInv(c, s) && ClientInv(c, s) && Delivery.Live(s) && StrictlyIncreasing(Versions(s.history))
    requires NoVersionBetween(s.history, s.subscribedAt.value, s.registeredAt.value)
    ensures StrictlyIncreasing(Versions(s.delivered))
  {
    DeliveredVersionsExact(c, s);
    InitialBelowLive(c, s.history, s.subscribedAt.value, s.registeredAt.value, s.cursor);
  }

  lemma {:induction false} InitialBelowLive(c: Config, history: seq<ServerSentEvent>, subscribed: nat, registered: nat, cursor: nat)
    requires WellNumbered(c.first, history) && StrictlyIncreasing(Versions(history))
    requires subscribed <= cursor <= |history| && registered <= |history| && NoVersionBetween(history, subscribed, registered)
    requires Numbered(Wheel(Tagged(history[..registered]), c.capacity))
    ensures var version, live := VersionFromInitial(c, history[..registered]), Versions(history[subscribed..cursor]);
            version.None? || live == [] || version.value.Less(live[0])
  {
    var past, live := history[..registered], Versions(history[subscribed..cursor]);
    Delivery.WellNumberedPrefix(c.first, history, registered);
    LiveVersionsAbove(history, subscribed, registered, cursor);
    FirstAbove(past, live);
    InitialNotAbove(c, past);
    var version, latest := VersionFromInitial(c, past), LatestVersion(past);
    if version.Some? && live != [] {
      BelowChains(version.value, latest.value, live[0]);
    }
  }

  lemma {:induction false} FirstAbove(past: seq<ServerSentEvent>, live: seq<ProtocolVersion>)
    requires StrictlyIncreasing(Versions(past) + live)
    ensures StrictlyIncreasing(Versions(past))
    ensures live != [] && LatestVersion(past).Some? ==> LatestVersion(past).value.Less(live[0])
  {
    IncreasingJoin(Versions(past), live);
    LatestIsLast(past);
  }

  lemma {:induction false} BelowChains(a: ProtocolVersion, b: ProtocolVersion, c: ProtocolVersion)
    requires !b.Less(a) && b.Less(c)
    ensures a.Less(c)
  {
  }

  /** Before a client is live it has read a first part of its initial events, whose versions increase. */
  lemma {:induction false} UnfinishedVersionsIncrease(c: Config, s: State)
    requires ServerInv(c, s) && ClientInv(c, s) && !Delivery.Live(s) && StrictlyIncreasing(Versions(s.history))
    ensures StrictlyIncreasing(Versions(s.delivered))
  {
    if s.registeredAt.Some? && s.subscribedAt.Some? {
      var past := s.history[..s.registeredAt.value];
      Delivery.WellNumberedPrefix(c.first, s.history, s.registeredAt.value);
      PartIncreases(s.history, s.registeredAt.value, s.registeredAt.value);
      InitialAfterIncreases(c, past);
      VersionsConcat(s.delivered, s.initial);
      IncreasingJoin(Versions(s.delivered), Versions(s.initial));
    }
  }

  /** The versions in the stream a client reads, whatever the nodes announce and however everything
      interleaves: they strictly increase while it reads its initial events; after that if and only
      if the first version published since it subscribed is above the one its initial events left it
      with; and always if no ApiVersion was published between its subscription and a later
      registration. */
  lemma {:induction false} ClientVersionsIncrease(count: nat, intake: seq<Intake.Action>, c: Config, actions: seq<Action>)
    requires c.Valid()
    requires IsFed(Exec(c, actions).history, Intake.Exec(count, intake).outbound)
    ensures var s := Exec(c, actions);
            && (!Delivery.Live(s) ==> StrictlyIncreasing(Versions(s.delivered)))
            && (Delivery.Live(s) ==>
                  var past := s.history[..s.registeredAt.value];
                  && Numbered(Wheel(Tagged(past), c.capacity))
                  && var version, live := VersionFromInitial(c, past), Versions(s.history[s.subscribedAt.value..s.cursor]);
                     && (StrictlyIncreasing(Versions(s.delivered)) <==>
                         version.None? || live == [] || version.value.Less(live[0]))
                     && (NoVersionBetween(s.history, s.subscribedAt.value, s.registeredAt.value) ==>
                         StrictlyIncreasing(Versions(s.delivered))))
  {
    var s := Exec(c, actions);
    ClientStream.Reachable(c, actions);
    PublishedVersionsIncrease(count, intake, c, actions, None, false);
    if Delivery.Live(s) {
      DeliveredVersionsExact(c, s);
      if NoVersionBetween(s.history, s.subscribedAt.value, s.registeredAt.value) {
        DeliveredVersionsIncrease(c, s);
      }
    } else {
      UnfinishedVersionsIncrease(c, s);
    }
  }

  /** Two versions are announced to a client that has subscribed and is not registered yet. */
  lemma {:induction false} AnnouncedTwice(c: Config, older: ProtocolVersion, newer: ProtocolVersion) returns (actions: seq<Action>)
    requires c.Valid()
    ensures actions == [SendInfo, Subscribe, Publish(ApiVersion(older), None), Publish(ApiVersion(newer), None)]
    ensures Exec(c, actions) == Init(c).(infoSent := true, subscribedAt := Some(0), latest := Some(newer),
                                         history := [Delivery.Announced(older), Delivery.Announced(newer)])
  {
    actions := Delivery.TwoMore(c, [], SendInfo, Subscribe);
    assert Exec(c, actions) == Init(c).(infoSent := true, subscribedAt := Some(0));
    actions := Delivery.TwoMore(c, actions, Publish(ApiVersion(older), None), Publish(ApiVersion(newer), None));
  }

  lemma {:induction false} ReadBack(c: Config, s: State, older: ProtocolVersion, newer: ProtocolVersion)
    requires c.Valid() && c.start.None? && !c.legacy && s.buffer == [] && s.infoSent && s.registeredAt.None?
    requires s.subscribedAt.Some? && s.cursor == 0 && s.delivered == [] && s.latest == Some(newer) && s.initialIds == {}
    requires s.history == [Delivery.Announced(older), Delivery.Announced(newer)]
    ensures Do(c, Do(c, Do(c, s, Register), DeliverInitial), DeliverLive).delivered ==
            [VersionEvent(newer), Delivery.Announced(older)]
  {
    assert InitialEvents(s.buffer, c.capacity, s.latest, c.start, c.legacy) == [VersionEvent(newer)];
    assert [VersionEvent(newer)][1..] == [];
  }

  /** A client that subscribes before the server registers it can read a version after a newer one. */
  lemma {:induction false} VersionsCanGoBack(c: Config, older: ProtocolVersion, newer: ProtocolVersion) returns (actions: seq<Action>)
    requires c.Valid() && c.start.None? && !c.legacy
    ensures actions == [SendInfo, Subscribe, Publish(ApiVersion(older), None), Publish(ApiVersion(newer), None),
                        Register, DeliverInitial, DeliverLive]
    ensures Versions(Exec(c, actions).delivered) == [newer, older]
  {
    actions := AnnouncedTwice(c, older, newer);
    ReadBack(c, Exec(c, actions), older, newer);
    actions := Delivery.TwoMore(c, actions, Register, DeliverInitial);
    actions := Then(c, actions, DeliverLive);
    VersionsOfTwo(older, newer);
  }

  lemma {:induction false} VersionsOfTwo(older: ProtocolVersion, newer: ProtocolVersion)
    ensures Versions([VersionEvent(newer), Delivery.Announced(older)]) == [newer, older]
  {
    VersionEventAlone(newer);
    DecodeOne([VersionEvent(newer)], Delivery.Announced(older));
    assert [VersionEvent(newer)] + [Delivery.Announced(older)] == [VersionEvent(newer), Delivery.Announced(older)];
  }

  // ----- Events from node to client ----------------------------------------------------------

  predicate Carries(event: ServerSentEvent, key: EventStore.RowKey) {
    event.data.Some? && Intake.IsEntity(event.data.value, key)
  }

  /** How often an entity occurs in a stream. */
  function Occurrences(stream: seq<ServerSentEvent>, key: EventStore.RowKey): nat {
    if stream == [] then 0
    else Occurrences(stream[..|stream| - 1], key) + if Carries(stream[|stream| - 1], key) then 1 else 0
  }

  lemma {:induction false} OccursOne(stream: seq<ServerSentEvent>, event: ServerSentEvent, key: EventStore.RowKey)
    ensures Occurrences(stream + [event], key) == Occurrences(stream, key) + if Carries(event, key) then 1 else 0
  {
    assert (stream + [event])[..|stream|] == stream;
  }

  /** Two occurrences are at two positions, and the other way round. */
  lemma {:induction false} OccursTwice(stream: seq<ServerSentEvent>, key: EventStore.RowKey, i: nat, j: nat)
    requires i < j < |stream| && Carries(stream[i], key) && Carries(stream[j], key)
    ensures Occurrences(stream, key) >= 2
  {
    var before := stream[..|stream| - 1];
    if j < |stream| - 1 {
      OccursTwice(before, key, i, j);
    } else {
      OccursAt(before, key, i);
    }
  }

  lemma {:induction false} OccursAt(stream: seq<ServerSentEvent>, key: EventStore.RowKey, i: nat)
    requires i < |stream| && Carries(stream[i], key)
    ensures Occurrences(stream, key) >= 1
  {
    if i < |stream| - 1 {
      OccursAt(stream[..|stream| - 1], key, i);
    }
  }

  lemma {:induction false} FindOccurrence(stream: seq<ServerSentEvent>, key: EventStore.RowKey) returns (i: nat)
    requires Occurrences(stream, key) >= 1
    ensures i < |stream| && Carries(stream[i], key)
  {
    if Carries(stream[|stream| - 1], key) {
      i := |stream| - 1;
    } else {
      i := FindOccurrence(stream[..|stream| - 1], key);
    }
  }

  lemma {:induction false} FindTwo(stream: seq<ServerSentEvent>, key: EventStore.RowKey) returns (i: nat, j: nat)
    requires Occurrences(stream, key) >= 2
    ensures i < j < |stream| && Carries(stream[i], key) && Carries(stream[j], key)
  {
    var before := stream[..|stream| - 1];
    if Carries(stream[|stream| - 1], key) {
      i := FindOccurrence(before, key);
      j := |stream| - 1;
    } else {
      i, j := FindTwo(before, key);
    }
  }

  /** Versions are no entities, and everything else published has an id. */
  lemma {:induction false} PayloadOccurrences(first: Id, history: seq<ServerSentEvent>, key: EventStore.RowKey)
    requires WellNumbered(first, history)
    ensures Occurrences(Payloads(history), key) == Occurrences(history, key)
  {
    if history != [] {
      var before, last := history[..|history| - 1], history[|history| - 1];
      PayloadOccurrences(first, before, key);
      OccursOne(Payloads(before), last, key);
      if last.id.None? {
        assert Payloads(history) == Payloads(before);
      }
    }
  }

  lemma {:induction false} FedOccurrences(history: seq<ServerSentEvent>, outbound: seq<Intake.Outbound>, key: EventStore.RowKey)
    requires IsFed(history, outbound)
    ensures Occurrences(history, key) == Intake.SentCount(outbound[..|history|], key)
  {
    if history != [] {
      var n := |history| - 1;
      FedOccurrences(history[..n], outbound, key);
      assert outbound[..n + 1][..n] == outbound[..n];
    }
  }

  lemma {:induction false} SentCountGrows(outbound: seq<Intake.Outbound>, n: nat, key: EventStore.RowKey)
    requires n <= |outbound|
    ensures Intake.SentCount(outbound[..n], key) <= Intake.SentCount(outbound, key)
  {
    if n < |outbound| {
      var before := outbound[..|outbound| - 1];
      SentCountGrows(before, n, key);
      assert before[..n] == outbound[..n];
    } else {
      assert outbound[..n] == outbound;
    }
  }

  /** Whatever several nodes deliver, an entity is published at most once. */
  lemma {:induction false} PublishedAtMostOnce(count: nat, intake: seq<Intake.Action>, first: Id, history: seq<ServerSentEvent>,
                                               key: EventStore.RowKey)
    requires WellNumbered(first, history) && !key.ShutdownRow? && IsFed(history, Intake.Exec(count, intake).outbound)
    ensures Occurrences(Payloads(history), key) <= 1
  {
    var outbound := Intake.Exec(count, intake).outbound;
    Intake.ExactlyOnceAcrossNodes(count, intake, key);
    PayloadOccurrences(first, history, key);
    FedOccurrences(history, outbound, key);
    SentCountGrows(outbound, |history|, key);
  }

  /** Every event with an id that a client has read was published. */
  lemma {:induction false} DeliveredWerePublished(c: Config, s: State)
    requires c.Valid() && ServerInv(c, s) && ClientInv(c, s)
    ensures forall e | e in Payloads(s.delivered) :: e in Payloads(s.history)
  {
    if Delivery.Live(s) {
      var k := Delivery.DeliveredIsMerge(c, s);
    } else if s.registeredAt.Some? && s.subscribedAt.Some? {
      var past := s.history[..s.registeredAt.value];
      Delivery.WellNumberedPrefix(c.first, s.history, s.registeredAt.value);
      var k := Delivery.InitialPositions(c, past);
      Delivery.PayloadsConcat(s.delivered, s.initial);
      Delivery.CountSplits(s.history, s.registeredAt.value);
      assert forall e | e in Payloads(s.delivered) :: e in Payloads(past)[k..];
    }
  }

  /** A stream of published events with distinct ids repeats no entity that was published at most once. */
  lemma {:induction false} DistinctOccursOnce(seen: seq<ServerSentEvent>, events: seq<ServerSentEvent>, key: EventStore.RowKey)
    requires Delivery.DistinctIds(seen) && (forall e | e in seen :: e in events) && Occurrences(events, key) <= 1
    ensures Occurrences(seen, key) <= 1
  {
    if Occurrences(seen, key) >= 2 {
      var i, j := FindTwo(seen, key);
      assert seen[i] in seen && seen[j] in seen && seen[i].id != seen[j].id;
      var p: nat :| p < |events| && events[p] == seen[i];
      var q: nat :| q < |events| && events[q] == seen[j];
      OccursTwice(events, key, if p < q then p else q, if p < q then q else p);
    }
  }

  /** From the nodes to a client, at most once: however many nodes deliver an entity, whatever the database
      fails, and however everything interleaves, a client is delivered it at most once, from whatever start
      and in every state, until 2^32 events were read since it subscribed. */
  lemma {:induction false} AtMostOncePerClient(count: nat, intake: seq<Intake.Action>, c: Config, actions: seq<Action>,
                                               key: EventStore.RowKey)
    requires c.Valid() && !key.ShutdownRow?
    requires IsFed(Exec(c, actions).history, Intake.Exec(count, intake).outbound)
    requires var s := Exec(c, actions); Delivery.Live(s) ==> Delivery.T(s) <= Delivery.S(s) + ID_COUNT
    ensures Occurrences(Payloads(Exec(c, actions).delivered), key) <= 1
  {
    var s := Exec(c, actions);
    ClientStream.Reachable(c, actions);
    PublishedAtMostOnce(count, intake, c.first, s.history, key);
    DeliveredWerePublished(c, s);
    Delivery.NoDuplicateDelivery(c, actions);
    DistinctOccursOnce(Payloads(s.delivered), Payloads(s.history), key);
  }

  /** The client has read everything, the server has published everything, and no worker is busy. */
  ghost predicate Settled(s: State, i: Intake.State) {
    && Delivery.Live(s) && s.cursor == |s.history| && IsFed(s.history, i.outbound) && |s.history| == |i.outbound|
    && forall n | 0 <= n < |i.nodes| :: i.nodes[n].worker.Idle?
  }

  /** From the nodes to a client, exactly once: a client that resumed from event number k while that was
      buffered, subscribed no later than it was registered and not before k, and has read everything, has
      each entity published from k on exactly once; from k = 0 on these are the entities stored. */
  lemma {:induction false} ExactlyOncePerClient(count: nat, intake: seq<Intake.Action>, c: Config, actions: seq<Action>,
                                                k: nat, key: EventStore.RowKey)
    requires c.Valid() && !key.ShutdownRow? && Settled(Exec(c, actions), Intake.Exec(count, intake))
    requires var s := Exec(c, actions);
             && Delivery.StillBuffered(c, s, k)
             && k <= Delivery.S(s) <= Delivery.R(s) && Delivery.T(s) <= k + ID_COUNT
    ensures var s, stored := Exec(c, actions), Intake.Exec(count, intake).tables.rows;
            && k <= |Payloads(s.history)| && Payloads(s.delivered) == Payloads(s.history)[k..]
            && Occurrences(Payloads(s.history), key) == (if key in stored then 1 else 0)
            && (k == 0 ==> Occurrences(Payloads(s.delivered), key) == if key in stored then 1 else 0)
  {
    ReadsAllFrom(c, actions, k);
    StoredWerePublished(count, intake, c, actions, key);
    if k == 0 {
      var events := Payloads(Exec(c, actions).history);
      assert events[0..] == events;
    }
  }

  lemma {:induction false} ReadsAllFrom(c: Config, actions: seq<Action>, k: nat)
    requires c.Valid() && Delivery.Live(Exec(c, actions)) && Delivery.StillBuffered(c, Exec(c, actions), k)
    requires var s := Exec(c, actions);
             s.cursor == |s.history| && k <= Delivery.S(s) <= Delivery.R(s) && Delivery.T(s) <= k + ID_COUNT
    ensures var s := Exec(c, actions);
            k <= |Payloads(s.history)| && Payloads(s.delivered) == Payloads(s.history)[k..]
  {
    Delivery.ExactlyOnceMerge(c, actions, k);
    AllRead(Exec(c, actions));
  }

  lemma {:induction false} StoredWerePublished(count: nat, intake: seq<Intake.Action>, c: Config, actions: seq<Action>,
                                               key: EventStore.RowKey)
    requires c.Valid() && !key.ShutdownRow? && Settled(Exec(c, actions), Intake.Exec(count, intake))
    ensures Occurrences(Payloads(Exec(c, actions).history), key) ==
            if key in Intake.Exec(count, intake).tables.rows then 1 else 0
  {
    var history, outbound := Exec(c, actions).history, Intake.Exec(count, intake).outbound;
    ClientStream.Reachable(c, actions);
    Intake.ExactlyOnceAcrossNodes(count, intake, key);
    PayloadOccurrences(c.first, history, key);
    FedOccurrences(history, outbound, key);
    assert outbound[..|history|] == outbound;
  }

  lemma {:induction false} AllRead(s: State)
    requires Delivery.Live(s) && s.cursor == |s.history|
    ensures Delivery.T(s) == |Payloads(s.history)| && Delivery.R(s) <= Delivery.T(s)
  {
    assert s.history[..s.cursor] == s.history;
    Delivery.CountSplits(s.history, s.registeredAt.value);
  }
}
