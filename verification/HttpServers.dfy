/** The server task: it numbers nothing itself, but keeps the last events in a wheel buffer, tagged
    with the API version they were published under, and composes the initial events of a new
    subscriber. */
module HttpServers {
  import opened SseTypes
  import opened Replay
  import opened EventIndexing

  // ----- Message histories -------------------------------------------------------------------

  /** The newest API version announced in a stream of events. */
  function LatestVersion(stream: seq<ServerSentEvent>): Option<ProtocolVersion> {
    if stream == [] then None
    else
      var last := stream[|stream| - 1];
      if IsVersionEvent(last) then Some(last.data.value.version)
      else LatestVersion(stream[..|stream| - 1])
  }

  /** The events of a stream that carry an id. */
  function Payloads(stream: seq<ServerSentEvent>): seq<ServerSentEvent> {
    if stream == [] then []
    else
      var last := stream[|stream| - 1];
      Payloads(stream[..|stream| - 1]) + if last.id.Some? then [last] else []
  }

  /** The history of a server whose first id was `first`: ApiVersion events have no id, all others
      have the next one. */
  ghost predicate WellNumbered(first: Id, history: seq<ServerSentEvent>) {
    history != [] ==>
      var before, last := history[..|history| - 1], history[|history| - 1];
      && WellNumbered(first, before)
      && last.data.Some?
      && last.id == if IsVersionEvent(last) then None else Some(IdAt(first, |Payloads(before)|))
  }

  /** The events a server may buffer: those published since the first ApiVersion, each with the
      version announced last before it. */
  function Tagged(history: seq<ServerSentEvent>): seq<Entry> {
    if history == [] then []
    else
      var before, last := history[..|history| - 1], history[|history| - 1];
      Tagged(before) +
      if last.id.Some? && LatestVersion(before).Some?
      then [Entry(LatestVersion(before).value, last)] else []
  }

  /** The last `capacity` entries. */
  function Wheel(entries: seq<Entry>, capacity: nat): seq<Entry> {
    if |entries| <= capacity then entries else entries[|entries| - capacity..]
  }

  /** Pushing onto a wheel buffer overwrites the oldest entry when the buffer is full. */
  function PushEntry(buffer: seq<Entry>, capacity: nat, entry: Entry): seq<Entry>
    requires 1 <= capacity
  {
    (if |buffer| >= capacity then buffer[1..] else buffer) + [entry]
  }

  lemma {:induction false} PushRefinesWheel(entries: seq<Entry>, capacity: nat, entry: Entry)
    requires 1 <= capacity
    ensures PushEntry(Wheel(entries, capacity), capacity, entry) == Wheel(entries + [entry], capacity)
  {
  }

  /** What one more message adds to a history. */
  lemma {:induction false} HistoryOne(first: Id, history: seq<ServerSentEvent>, message: ServerSentEvent)
    requires WellNumbered(first, history) && message.data.Some?
    requires message.id == if IsVersionEvent(message) then None else Some(IdAt(first, |Payloads(history)|))
    ensures WellNumbered(first, history + [message])
    ensures LatestVersion(history + [message]) ==
            if IsVersionEvent(message) then Some(message.data.value.version) else LatestVersion(history)
    ensures Tagged(history + [message]) == Tagged(history) +
            if message.id.Some? && LatestVersion(history).Some?
            then [Entry(LatestVersion(history).value, message)] else []
  {
    assert (history + [message])[..|history|] == history;
  }

  predicate Numbered(entries: seq<Entry>) {
    forall i | 0 <= i < |entries| :: entries[i].event.id.Some? && !IsVersionEvent(entries[i].event)
  }

  function EntryIds(entries: seq<Entry>): seq<Id>
    requires Numbered(entries)
  {
    seq(|entries|, i requires 0 <= i < |entries| => entries[i].event.id.value)
  }

  lemma {:induction false} PayloadIds(first: Id, history: seq<ServerSentEvent>)
    requires WellNumbered(first, history)
    ensures forall j | 0 <= j < |Payloads(history)| ::
              Payloads(history)[j].id == Some(IdAt(first, j)) && !IsVersionEvent(Payloads(history)[j])
  {
    if history != [] {
      PayloadIds(first, history[..|history| - 1]);
    }
  }

  /** Buffering drops no event once a version is known. */
  lemma {:induction false} TaggedArePayloads(first: Id, history: seq<ServerSentEvent>)
    requires WellNumbered(first, history)
    ensures |Tagged(history)| <= |Payloads(history)|
    ensures LatestVersion(history).None? ==> Tagged(history) == []
    ensures forall j | 0 <= j < |Tagged(history)| ::
              Tagged(history)[j].event == Payloads(history)[|Payloads(history)| - |Tagged(history)| + j]
  {
    if history != [] {
      TaggedArePayloads(first, history[..|history| - 1]);
    }
  }

  /** The history from the first ApiVersion on. */
  function SinceVersion(history: seq<ServerSentEvent>): seq<ServerSentEvent> {
    if history == [] then []
    else
      var since, last := SinceVersion(history[..|history| - 1]), history[|history| - 1];
      if since != [] || IsVersionEvent(last) then since + [last] else []
  }

  lemma {:induction false} SinceVersionIsSuffix(history: seq<ServerSentEvent>)
    ensures var n := |history| - |SinceVersion(history)|;
            && 0 <= n && SinceVersion(history) == history[n..]
            && (forall i | 0 <= i < n :: !IsVersionEvent(history[i]))
            && (n < |history| ==> IsVersionEvent(history[n]))
  {
    if history != [] {
      SinceVersionIsSuffix(history[..|history| - 1]);
    }
  }

  /** Buffering starts with the first ApiVersion and then drops nothing. */
  lemma {:induction false} TaggedSinceVersion(first: Id, history: seq<ServerSentEvent>)
    requires WellNumbered(first, history)
    ensures |Tagged(history)| == |Payloads(SinceVersion(history))|
    ensures SinceVersion(history) == [] <==> LatestVersion(history).None?
  {
    if history != [] {
      var before, last := history[..|history| - 1], history[|history| - 1];
      TaggedSinceVersion(first, before);
      PayloadsOne(SinceVersion(before), last);
    }
  }

  lemma {:induction false} PayloadsOne(stream: seq<ServerSentEvent>, event: ServerSentEvent)
    ensures Payloads(stream + [event]) == Payloads(stream) + if event.id.Some? then [event] else []
  {
    assert (stream + [event])[..|stream|] == stream;
  }

  /** The buffer of a server is as long as its capacity and the events since the first ApiVersion
      allow, it holds the newest events, and their ids are consecutive. */
  lemma {:induction false} BufferIsNewestPayloads(first: Id, history: seq<ServerSentEvent>, capacity: nat)
    requires WellNumbered(first, history)
    ensures var buffer := Wheel(Tagged(history), capacity);
            var start, published := |Payloads(history)| - |buffer|, |Payloads(SinceVersion(history))|;
            && |buffer| == (if published <= capacity then published else capacity)
            && 0 <= start && Numbered(buffer)
            && (forall j | 0 <= j < |buffer| :: buffer[j].event == Payloads(history)[start + j])
            && EntryIds(buffer) == ConsecutiveIds(IdAt(first, start), |buffer|)
  {
    PayloadIds(first, history);
    TaggedArePayloads(first, history);
    TaggedSinceVersion(first, history);
    var buffer := Wheel(Tagged(history), capacity);
    var start := |Payloads(history)| - |buffer|;
    forall j | 0 <= j < |buffer|
      ensures buffer[j].event == Payloads(history)[start + j]
      ensures buffer[j].event.id == Some(IdAt(IdAt(first, start), j))
    {
      IdAtCompose(first, start, j);
    }
  }

  // ----- Version framing ---------------------------------------------------------------------

  /** The replayed entries, with an ApiVersion event wherever the version changes. */
  function Framed(entries: seq<Entry>): seq<ServerSentEvent> {
    if entries == [] then []
    else
      var before, last := entries[..|entries| - 1], entries[|entries| - 1];
      Framed(before) +
      if before != [] && before[|before| - 1].version == last.version
      then [last.event] else [VersionEvent(last.version), last.event]
  }

  /** What a client makes of a stream: each event with the nearest ApiVersion before it. */
  function Decode(stream: seq<ServerSentEvent>): seq<(Option<ProtocolVersion>, ServerSentEvent)> {
    if stream == [] then []
    else
      var before, last := stream[..|stream| - 1], stream[|stream| - 1];
      Decode(before) + if last.id.Some? then [(LatestVersion(before), last)] else []
  }

  function Untag(entries: seq<Entry>): seq<(Option<ProtocolVersion>, ServerSentEvent)> {
    seq(|entries|, i requires 0 <= i < |entries| => (Some(entries[i].version), entries[i].event))
  }

  function EventsOf(entries: seq<Entry>): seq<ServerSentEvent> {
    seq(|entries|, i requires 0 <= i < |entries| => entries[i].event)
  }

  /** The versions announced in a stream, in order. */
  function Versions(stream: seq<ServerSentEvent>): seq<ProtocolVersion> {
    if stream == [] then []
    else
      var last := stream[|stream| - 1];
      Versions(stream[..|stream| - 1]) + if IsVersionEvent(last) then [last.data.value.version] else []
  }

  /** No entry is older than an entry before it. */
  predicate NonDecreasing(entries: seq<Entry>) {
    forall i, j | 0 <= i < j < |entries| :: !entries[j].version.Less(entries[i].version)
  }

  lemma {:induction false} DecodeOne(stream: seq<ServerSentEvent>, event: ServerSentEvent)
    ensures Decode(stream + [event]) ==
            Decode(stream) + if event.id.Some? then [(LatestVersion(stream), event)] else []
    ensures Payloads(stream + [event]) == Payloads(stream) + if event.id.Some? then [event] else []
    ensures Versions(stream + [event]) ==
            Versions(stream) + if IsVersionEvent(event) then [event.data.value.version] else []
    ensures LatestVersion(stream + [event]) ==
            if IsVersionEvent(event) then Some(event.data.value.version) else LatestVersion(stream)
  {
    assert (stream + [event])[..|stream|] == stream;
  }

  /** An event behind its own ApiVersion. */
  lemma {:induction false} DecodeFramed(stream: seq<ServerSentEvent>, entry: Entry)
    requires entry.event.id.Some? && !IsVersionEvent(entry.event)
    ensures var all := stream + [VersionEvent(entry.version), entry.event];
            && Decode(all) == Decode(stream) + [(Some(entry.version), entry.event)]
            && Payloads(all) == Payloads(stream) + [entry.event]
            && LatestVersion(all) == Some(entry.version)
            && Versions(all) == Versions(stream) + [entry.version]
  {
    var middle := stream + [VersionEvent(entry.version)];
    DecodeOne(stream, VersionEvent(entry.version));
    DecodeOne(middle, entry.event);
    assert middle + [entry.event] == stream + [VersionEvent(entry.version), entry.event];
  }

  lemma {:induction false} FramedSnoc(before: seq<Entry>, last: Entry)
    ensures Framed(before + [last]) ==
            Framed(before) +
            if before != [] && before[|before| - 1].version == last.version
            then [last.event] else [VersionEvent(last.version), last.event]
  {
    assert (before + [last])[..|before|] == before;
  }

  /** What one more framed entry adds. */
  lemma {:induction false} FrameOne(before: seq<Entry>, last: Entry)
    requires last.event.id.Some? && !IsVersionEvent(last.event)
    requires LatestVersion(Framed(before)) ==
             if before == [] then None else Some(before[|before| - 1].version)
    ensures var head, all := Framed(before), Framed(before + [last]);
            && Decode(all) == Decode(head) + [(Some(last.version), last.event)]
            && Payloads(all) == Payloads(head) + [last.event]
            && LatestVersion(all) == Some(last.version)
            && Versions(all) == Versions(head) +
               if LatestVersion(head) == Some(last.version) then [] else [last.version]
  {
    FramedSnoc(before, last);
    DecodeOne(Framed(before), last.event);
    DecodeFramed(Framed(before), last);
  }

  /** Framing loses nothing: a client recovers every replayed event with the version it was
      published under. */
  lemma {:induction false} FramingRoundTrip(entries: seq<Entry>)
    requires Numbered(entries)
    ensures Decode(Framed(entries)) == Untag(entries)
    ensures Payloads(Framed(entries)) == EventsOf(entries)
    ensures LatestVersion(Framed(entries)) ==
            if entries == [] then None else Some(entries[|entries| - 1].version)
  {
    if entries == [] {
      assert Framed(entries) == [] && Untag(entries) == [] && EventsOf(entries) == [];
    } else {
      var before, last := entries[..|entries| - 1], entries[|entries| - 1];
      assert entries == before + [last];
      FramingRoundTrip(before);
      FrameOne(before, last);
      UntagOne(before, last);
    }
  }

  lemma {:induction false} UntagOne(before: seq<Entry>, last: Entry)
    ensures Untag(before + [last]) == Untag(before) + [(Some(last.version), last.event)]
    ensures EventsOf(before + [last]) == EventsOf(before) + [last.event]
  {
  }

  /** A buffer whose versions never decrease is framed by strictly increasing ApiVersions. */
  lemma {:induction false} FramingIncreases(entries: seq<Entry>)
    requires Numbered(entries) && NonDecreasing(entries)
    ensures FramedWell(entries)
  {
    if entries == [] {
      assert Framed(entries) == [];
    } else {
      var before, last := entries[..|entries| - 1], entries[|entries| - 1];
      assert entries == before + [last];
      FramingIncreases(before);
      FramingIncreasesOne(before, last);
    }
  }

  /** The ApiVersions in a framed replay strictly increase up to the version of its last entry. */
  ghost predicate FramedWell(entries: seq<Entry>) {
    var versions := Versions(Framed(entries));
    && StrictlyIncreasing(versions)
    && (entries == [] <==> versions == [])
    && (entries != [] ==> versions[|versions| - 1] == entries[|entries| - 1].version)
  }

  lemma {:induction false} FramingIncreasesOne(before: seq<Entry>, last: Entry)
    requires FramedWell(before) && Numbered(before) && last.event.id.Some? && !IsVersionEvent(last.event)
    requires before != [] ==> !last.version.Less(before[|before| - 1].version)
    ensures FramedWell(before + [last])
  {
    FramedVersionsOne(before, last);
    ExtendIncreasing(Versions(Framed(before)), last.version);
  }

  lemma {:induction false} ExtendIncreasing(versions: seq<ProtocolVersion>, last: ProtocolVersion)
    requires StrictlyIncreasing(versions) && (versions != [] ==> !last.Less(versions[|versions| - 1]))
    ensures var more := if versions != [] && versions[|versions| - 1] == last then versions else versions + [last];
            StrictlyIncreasing(more) && more[|more| - 1] == last
  {
    IncreasingJoin(versions, [last]);
  }

  lemma {:induction false} FramedVersionsOne(before: seq<Entry>, last: Entry)
    requires Numbered(before) && last.event.id.Some? && !IsVersionEvent(last.event)
    ensures Versions(Framed(before + [last])) ==
            if before != [] && before[|before| - 1].version == last.version then Versions(Framed(before))
            else Versions(Framed(before)) + [last.version]
    ensures before == [] ==> Framed(before) == [] && Versions(Framed(before)) == []
  {
    FramingRoundTrip(before);
    FrameOne(before, last);
  }

  // ----- Initial events of a subscriber ------------------------------------------------------

  /** The buffered entries replayed to a subscriber. */
  function Replayed(buffer: seq<Entry>, capacity: Id, start: Option<Id>): seq<Entry>
    requires Numbered(buffer)
  {
    if start.None? then [] else buffer[ReplayIndex(EntryIds(buffer), capacity, start.value)..]
  }

  /** Everything sent on a subscriber's initial-events channel. */
  function InitialEvents(buffer: seq<Entry>, capacity: Id, latest: Option<ProtocolVersion>,
                         start: Option<Id>, legacy: bool): seq<ServerSentEvent>
    requires Numbered(buffer)
  {
    var body := InitialBody(Replayed(buffer, capacity, start), latest);
    if legacy then [LegacyComment()] + body else body
  }

  /** The replayed events, or the server's version if nothing is replayed. */
  function InitialBody(replayed: seq<Entry>, latest: Option<ProtocolVersion>): seq<ServerSentEvent> {
    if replayed == [] && latest.Some? then [VersionEvent(latest.value)] else Framed(replayed)
  }

  /** A client that names no start is sent the server's version, if it has one, and no event. */
  lemma {:induction false} NoStartNoReplay(buffer: seq<Entry>, capacity: Id, latest: Option<ProtocolVersion>, legacy: bool)
    requires Numbered(buffer)
    ensures InitialEvents(buffer, capacity, latest, None, legacy) ==
            (if legacy then [LegacyComment()] else []) + (if latest.Some? then [VersionEvent(latest.value)] else [])
  {
    assert Framed([]) == [];
  }

  lemma {:induction false} CommentIsTransparent(stream: seq<ServerSentEvent>)
    ensures Decode([LegacyComment()] + stream) == Decode(stream)
    ensures Payloads([LegacyComment()] + stream) == Payloads(stream)
    ensures Versions([LegacyComment()] + stream) == Versions(stream)
    ensures LatestVersion([LegacyComment()] + stream) == LatestVersion(stream)
  {
    var all := [LegacyComment()] + stream;
    if stream == [] {
      assert all == [] + [LegacyComment()];
      DecodeOne([], LegacyComment());
    } else {
      CommentIsTransparent(stream[..|stream| - 1]);
      assert all[..|all| - 1] == [LegacyComment()] + stream[..|stream| - 1];
    }
  }

  lemma {:induction false} VersionEventAlone(version: ProtocolVersion)
    ensures Decode([VersionEvent(version)]) == []
    ensures Payloads([VersionEvent(version)]) == []
    ensures Versions([VersionEvent(version)]) == [version]
    ensures LatestVersion([VersionEvent(version)]) == Some(version)
  {
    assert [VersionEvent(version)] == [] + [VersionEvent(version)];
    DecodeOne([], VersionEvent(version));
  }

  /** A client recovers the replayed events, each with its own version as the nearest ApiVersion
      before it; once the server knows a version, an ApiVersion comes first (after the comment). */
  lemma {:induction false} InitialEventsAreFramed(buffer: seq<Entry>, capacity: Id, latest: Option<ProtocolVersion>,
                               start: Option<Id>, legacy: bool)
    requires Numbered(buffer)
    requires latest.None? ==> buffer == []
    ensures var initial := InitialEvents(buffer, capacity, latest, start, legacy);
            var replayed := Replayed(buffer, capacity, start);
            && Decode(initial) == Untag(replayed)
            && Payloads(initial) == EventsOf(replayed)
            && (latest.Some? ==> var body := if legacy then initial[1..] else initial;
                                 body != [] && IsVersionEvent(body[0]))
            && (latest.None? ==> initial == if legacy then [LegacyComment()] else [])
  {
    var replayed := Replayed(buffer, capacity, start);
    var body := InitialBody(replayed, latest);
    assert ([LegacyComment()] + body)[1..] == body;
    FramingRoundTrip(replayed);
    CommentIsTransparent(body);
    if replayed == [] && latest.Some? {
      VersionEventAlone(latest.value);
    } else if latest.Some? {
      FramedStartsWithVersion(replayed);
    }
  }

  /** The tags are what a client that listened from the start would have gone by. */
  lemma {:induction false} TagsAreDecoded(history: seq<ServerSentEvent>)
    ensures |Tagged(history)| <= |Decode(history)|
    ensures Untag(Tagged(history)) == Decode(history)[|Decode(history)| - |Tagged(history)|..]
    ensures LatestVersion(history).None? ==> Tagged(history) == []
  {
    if history != [] {
      var before, last := history[..|history| - 1], history[|history| - 1];
      TagsAreDecoded(before);
      if last.id.Some? && LatestVersion(before).Some? {
        assert Tagged(history) == Tagged(before) + [Entry(LatestVersion(before).value, last)];
        assert Decode(history) == Decode(before) + [(LatestVersion(before), last)];
        UntagOne(Tagged(before), Entry(LatestVersion(before).value, last));
      } else {
        assert Tagged(history) == Tagged(before);
      }
    }
  }

  lemma {:induction false} UntagSuffix(entries: seq<Entry>, n: nat)
    requires n <= |entries|
    ensures Untag(entries[n..]) == Untag(entries)[n..]
  {
  }

  /** A late subscriber decodes its initial events into exactly the last part of what a client that
      listened from the start decoded: the same events under the same versions. */
  lemma {:induction false} ReplayDecodesHistory(first: Id, history: seq<ServerSentEvent>, capacity: Id, start: Option<Id>, legacy: bool)
    requires WellNumbered(first, history)
    ensures var buffer, all := Wheel(Tagged(history), capacity), Decode(history);
            && Numbered(buffer)
            && var replayed := Decode(InitialEvents(buffer, capacity, LatestVersion(history), start, legacy));
               |replayed| <= |all| && replayed == all[|all| - |replayed|..]
  {
    var buffer := Wheel(Tagged(history), capacity);
    BufferNumbered(first, history, capacity);
    TagsAreDecoded(history);
    var skipped := ReplayedIsSuffix(buffer, capacity, start);
    DecodedSuffix(Tagged(history), capacity, skipped, Decode(history));
    InitialEventsAreFramed(buffer, capacity, LatestVersion(history), start, legacy);
  }

  lemma {:induction false} BufferNumbered(first: Id, history: seq<ServerSentEvent>, capacity: nat)
    requires WellNumbered(first, history)
    ensures Numbered(Wheel(Tagged(history), capacity))
  {
    BufferIsNewestPayloads(first, history, capacity);
  }

  lemma {:induction false} ReplayedIsSuffix(buffer: seq<Entry>, capacity: Id, start: Option<Id>) returns (skipped: nat)
    requires Numbered(buffer)
    ensures skipped <= |buffer| && Replayed(buffer, capacity, start) == buffer[skipped..]
  {
    skipped := if start.None? then |buffer| else ReplayIndex(EntryIds(buffer), capacity, start.value);
  }

  lemma {:induction false} DecodedSuffix(tagged: seq<Entry>, capacity: nat, skipped: nat,
                                         all: seq<(Option<ProtocolVersion>, ServerSentEvent)>)
    requires |tagged| <= |all| && Untag(tagged) == all[|all| - |tagged|..] && skipped <= |Wheel(tagged, capacity)|
    ensures var rest := Untag(Wheel(tagged, capacity)[skipped..]);
            |rest| <= |all| && rest == all[|all| - |rest|..]
  {
    var n := |tagged| - |Wheel(tagged, capacity)| + skipped;
    assert Wheel(tagged, capacity)[skipped..] == tagged[n..];
    UntagSuffix(tagged, n);
  }

  lemma {:induction false} FramedStartsWithVersion(entries: seq<Entry>)
    requires entries != []
    ensures Framed(entries) != [] && Framed(entries)[0] == VersionEvent(entries[0].version)
  {
    if |entries| > 1 {
      FramedStartsWithVersion(entries[..|entries| - 1]);
    }
  }

  /** The ApiVersions a subscriber is sent initially strictly increase. */
  lemma {:induction false} InitialVersionsIncrease(buffer: seq<Entry>, capacity: Id, latest: Option<ProtocolVersion>,
                                start: Option<Id>, legacy: bool)
    requires Numbered(buffer) && NonDecreasing(buffer)
    ensures StrictlyIncreasing(Versions(InitialEvents(buffer, capacity, latest, start, legacy)))
  {
    var replayed := Replayed(buffer, capacity, start);
    CommentIsTransparent(InitialBody(replayed, latest));
    if replayed == [] && latest.Some? {
      VersionEventAlone(latest.value);
    } else {
      FramingIncreases(replayed);
    }
  }

  /** The version the initial events leave a client with: that of the newest buffered event if
      anything is replayed, else the server's. */
  lemma {:induction false} InitialEventsVersion(buffer: seq<Entry>, capacity: Id, latest: Option<ProtocolVersion>,
                             start: Option<Id>, legacy: bool)
    requires Numbered(buffer)
    ensures LatestVersion(InitialEvents(buffer, capacity, latest, start, legacy)) ==
            if Replayed(buffer, capacity, start) == [] then latest else Some(buffer[|buffer| - 1].version)
  {
    var replayed := Replayed(buffer, capacity, start);
    CommentIsTransparent(InitialBody(replayed, latest));
    InitialBodyVersion(replayed, latest);
    if start.Some? {
      LastOfSuffix(buffer, ReplayIndex(EntryIds(buffer), capacity, start.value));
    }
  }

  lemma {:induction false} InitialBodyVersion(replayed: seq<Entry>, latest: Option<ProtocolVersion>)
    requires Numbered(replayed)
    ensures LatestVersion(InitialBody(replayed, latest)) ==
            if replayed == [] then latest else Some(replayed[|replayed| - 1].version)
  {
    if replayed == [] && latest.Some? {
      VersionEventAlone(latest.value);
    } else {
      FramingRoundTrip(replayed);
    }
  }

  lemma {:induction false} LastOfSuffix(buffer: seq<Entry>, skipped: nat)
    requires skipped <= |buffer|
    ensures Numbered(buffer) ==> Numbered(buffer[skipped..])
    ensures buffer[skipped..] != [] ==> buffer[skipped..][|buffer| - skipped - 1] == buffer[|buffer| - 1]
  {
  }

  /** The client's idea of the current version after its initial events. It is the server's if and
      only if nothing was replayed or the newest buffered event was published under it. */
  lemma {:induction false} ClientVersionAfterInitialEvents(buffer: seq<Entry>, capacity: Id, latest: ProtocolVersion,
                                        start: Option<Id>, legacy: bool)
    requires Numbered(buffer)
    ensures var initial := InitialEvents(buffer, capacity, Some(latest), start, legacy);
            LatestVersion(initial) == Some(latest) <==>
            || Replayed(buffer, capacity, start) == []
            || buffer[|buffer| - 1].version == latest
  {
    InitialEventsVersion(buffer, capacity, Some(latest), start, legacy);
  }

  /** The version a client attributes to the first live event after a replay, when that event was
      published under the server's current version and no ApiVersion came in between. */
  lemma {:induction false} FirstLiveEventVersion(buffer: seq<Entry>, capacity: Id, latest: ProtocolVersion,
                              start: Option<Id>, legacy: bool, event: ServerSentEvent)
    requires Numbered(buffer) && event.id.Some? && !IsVersionEvent(event)
    ensures var stream := InitialEvents(buffer, capacity, Some(latest), start, legacy) + [event];
            Decode(stream)[|Decode(stream)| - 1 ..] == [(Some(latest), event)] <==>
            || Replayed(buffer, capacity, start) == []
            || buffer[|buffer| - 1].version == latest
  {
    ClientVersionAfterInitialEvents(buffer, capacity, latest, start, legacy);
    DecodeOne(InitialEvents(buffer, capacity, Some(latest), start, legacy), event);
  }

  /** A version announced after the newest buffered event is not replayed: the client is left with
      the version of that event. */
  lemma {:induction false} ReplayCanHideNewVersion(capacity: Id, entry: Entry, latest: ProtocolVersion, legacy: bool)
    requires 1 <= capacity && Numbered([entry]) && entry.version != latest
    ensures var initial := InitialEvents([entry], capacity, Some(latest), entry.event.id, legacy);
            LatestVersion(initial) != Some(latest)
  {
    assert [entry][0].event.id.Some?;
    assert ReplayIndex(EntryIds([entry]), capacity, entry.event.id.value) == 0;
    ClientVersionAfterInitialEvents([entry], capacity, latest, entry.event.id, legacy);
  }

  // ----- The server task ---------------------------------------------------------------------

  class HttpServer {
    const capacity: Id
    ghost const first: Id
    var buffer: seq<Entry>
    var latest: Option<ProtocolVersion>
    /** Everything handed to the broadcaster so far. */
    ghost var history: seq<ServerSentEvent>

    /** The wheel buffer refines the history: it is the last events since the first ApiVersion. */
    ghost predicate Valid()
      reads this
    {
      && 1 <= capacity
      && WellNumbered(first, history)
      && latest == LatestVersion(history)
      && buffer == Wheel(Tagged(history), capacity)
    }

    constructor (capacity: Id, ghost first: Id)
      requires 1 <= capacity
      ensures Valid() && history == [] && this.capacity == capacity && this.first == first
    {
      this.capacity := capacity;
      this.first := first;
      buffer, latest, history := [], None, [];
    }

    /** Buffers and broadcasts one numbered event. The broadcast server numbers events with
        consecutive ids and leaves only ApiVersion events without one. */
    method HandleIncomingData(id: Option<Id>, data: SseData, inboundFilter: Option<Filter>)
      returns (message: ServerSentEvent)
      requires Valid()
      requires id == if data.ApiVersion? then None else Some(IdAt(first, |Payloads(history)|))
      modifies this
      ensures Valid()
      ensures message == ServerSentEvent(id, Some(data), false, inboundFilter)
      ensures history == old(history) + [message]
    {
      message := ServerSentEvent(id, Some(data), false, inboundFilter);
      match data {
        case ApiVersion(v) => latest := Some(v);
        case _ =>
          if latest.Some? {
            PushRefinesWheel(Tagged(history), capacity, Entry(latest.value, message));
            buffer := PushEntry(buffer, capacity, Entry(latest.value, message));
          }
      }
      HistoryOne(first, history, message);
      history := history + [message];
    }

    /** Skips the buffered events older than the requested one. */
    method FirstReplayed(start: Id) returns (i: nat)
      requires Numbered(buffer)
      ensures i == ReplayIndex(EntryIds(buffer), capacity, start)
    {
      var inZone := |buffer| > 0 && InWraparoundZone(buffer[0].event.id.value, capacity);
      ghost var ids := EntryIds(buffer);
      ghost var k := ReplayIndex(ids, capacity, start);
      assert forall j | 0 <= j < |ids| :: ids[j] == buffer[j].event.id.value;
      i := 0;
      while i < |buffer| && IsSkipped(inZone, capacity, buffer[i].event.id.value, start)
        invariant 0 <= i <= k
      {
        i := i + 1;
      }
    }

    /** Sends the entries that remain, with an ApiVersion wherever the version changes. */
    method SendReplayed(entries: seq<Entry>) returns (sent: seq<ServerSentEvent>, observedEvents: bool)
      ensures sent == Framed(entries)
      ensures observedEvents <==> entries != []
    {
      sent, observedEvents := [], false;
      var observedVersion: Option<ProtocolVersion> := None;
      for i := 0 to |entries|
        invariant sent == Framed(entries[..i])
        invariant observedEvents <==> 0 < i
        invariant observedVersion == if 0 < i then Some(entries[i - 1].version) else None
      {
        var entry := entries[i];
        FramedSnoc(entries[..i], entry);
        assert entries[..i] + [entry] == entries[..i + 1];
        if observedVersion.None? || observedVersion.value != entry.version {
          sent := sent + [VersionEvent(entry.version)];
          observedVersion := Some(entry.version);
        }
        sent := sent + [entry.event];
        observedEvents := true;
      }
      assert entries[..|entries|] == entries;
    }

    /** Composes a new subscriber's initial events. */
    method RegisterNewSubscriber(start: Option<Id>, legacy: bool) returns (sent: seq<ServerSentEvent>)
      requires Valid()
      ensures Numbered(buffer)
      ensures sent == InitialEvents(buffer, capacity, latest, start, legacy)
      ensures start.None? ==> sent == (if legacy then [LegacyComment()] else []) +
                                      (if latest.Some? then [VersionEvent(latest.value)] else [])
    {
      assert Numbered(buffer) by { BufferIsNewestPayloads(first, history, capacity); }
      sent := [];
      if legacy {
        sent := sent + [LegacyComment()];
      }
      var replayed, observedEvents := [], false;
      if start.Some? {
        var k := FirstReplayed(start.value);
        replayed, observedEvents := SendReplayed(buffer[k..]);
      }
      sent := sent + replayed;
      if !observedEvents && latest.Some? {
        assert replayed == [];
        sent := sent + [VersionEvent(latest.value)];
      }
    }
  }
}
