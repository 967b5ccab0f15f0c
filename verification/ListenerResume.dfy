/** Intake from one node across reconnects. Each event's id is reported to a registry through a
    bounded channel and the event is then forwarded; a new connection resumes from the registry's
    id, inclusively. The registry lags behind the reports, and ids do not wrap here. */
module ListenerResume {
  import opened SseTypes

  const CHANNEL_SIZE: nat := 10

  datatype Connection = Offline | Online(next: nat, reported: bool)

  datatype State = State(
    ids: seq<nat>,            // ids of the events the node has emitted
    oldest: nat,              // how many of them the node no longer retains
    registry: Option<nat>,
    inHand: Option<nat>,      // received by the registry task and not stored yet
    channel: seq<nat>,
    connection: Connection,
    far: nat,                 // how far the connections before the latest one had reported
    began: nat,               // where the latest connection started
    reached: nat,             // how far the latest connection has reported
    forwarded: set<nat>,      // positions of the events sent downstream
    skipped: set<nat>)        // positions the node had already dropped when a connection was made

  datatype Action =
    | Emit(id: nat)
    | Evict
    | Connect
    | Report
    | Forward(ok: bool)
    | Drop
    | Receive
    | Store

  const INITIAL: State := State([], 0, None, None, [], Offline, 0, 0, 0, {}, {})

  /** The position of the first event with an id of at least `start`. */
  function FirstAtLeast(ids: seq<nat>, start: nat): (p: nat)
    ensures p <= |ids|
    ensures forall j | 0 <= j < p :: ids[j] < start
    ensures p < |ids| ==> ids[p] >= start
  {
    if ids == [] || ids[0] >= start then 0 else 1 + FirstAtLeast(ids[1..], start)
  }

  /** Where the node starts a stream requested from `start`: at the first retained event that is not older. */
  function StreamStart(ids: seq<nat>, oldest: nat, start: nat): nat {
    var p := FirstAtLeast(ids, start);
    if p < oldest then oldest else p
  }

  /** Where a connection resumes when the registry holds `registered`. */
  function ResumesAt(ids: seq<nat>, oldest: nat, registered: Option<nat>): nat {
    StreamStart(ids, oldest, if registered.Some? then registered.value else 0)
  }

  /** An action that is not enabled changes nothing. */
  function Do(s: State, a: Action): State {
    match a
    case Emit(id) =>
      if s.ids != [] && id <= s.ids[|s.ids| - 1] then s else s.(ids := s.ids + [id])
    case Evict => if s.oldest < |s.ids| then s.(oldest := s.oldest + 1) else s
    case Connect =>
      if s.connection.Online? then s
      else
        var next := ResumesAt(s.ids, s.oldest, s.registry);
        s.(connection := Online(next, false), began := next, reached := next,
           far := if s.far <= s.reached then s.reached else s.far,
           skipped := s.skipped + set j | 0 <= j < s.oldest && j < next && j !in s.forwarded)
    case Report =>
      if s.connection.Online? && !s.connection.reported && s.connection.next < |s.ids| && |s.channel| < CHANNEL_SIZE
      then s.(channel := s.channel + [s.ids[s.connection.next]], reached := s.connection.next + 1,
              connection := s.connection.(reported := true))
      else s
    case Forward(ok) =>
      if !s.connection.Online? || !s.connection.reported then s
      else if ok then
        s.(forwarded := s.forwarded + {s.connection.next}, connection := Online(s.connection.next + 1, false))
      else s.(connection := Offline)
    case Drop => s.(connection := Offline)
    case Receive =>
      if s.channel == [] || s.inHand.Some? then s
      else s.(inHand := Some(s.channel[0]), channel := s.channel[1..])
    case Store => if s.inHand.None? then s else s.(registry := s.inHand, inHand := None)
  }

  function Exec(actions: seq<Action>): State {
    if actions == [] then INITIAL else Do(Exec(actions[..|actions| - 1]), actions[|actions| - 1])
  }

  ghost predicate Increasing(ids: seq<nat>) {
    forall i, j | 0 <= i < j < |ids| :: ids[i] < ids[j]
  }

  ghost predicate Handled(s: State, j: nat) {
    j in s.forwarded || j in s.skipped
  }

  /** Every event with an id below v was forwarded, or the node had dropped it. */
  ghost predicate Covered(s: State, v: nat) {
    forall j: nat | j < |s.ids| && s.ids[j] < v :: Handled(s, j)
  }

  /** An id the node has issued that is safe to resume from. */
  ghost predicate Safe(s: State, v: nat) {
    s.ids != [] && v <= s.ids[|s.ids| - 1] && Covered(s, v)
  }

  /** Every id on its way to the registry is safe to resume from, however late it is stored. */
  ghost predicate Inv(s: State) {
    && Increasing(s.ids)
    && s.oldest <= |s.ids|
    && (s.registry.Some? ==> Safe(s, s.registry.value))
    && (s.inHand.Some? ==> Safe(s, s.inHand.value))
    && (forall i | 0 <= i < |s.channel| :: Safe(s, s.channel[i]))
    && (forall j | j in s.skipped :: j < s.oldest)
    && (s.connection.Online? ==>
          && s.connection.next <= |s.ids|
          && (s.connection.reported ==> s.connection.next < |s.ids|)
          && forall j: nat | j < s.connection.next :: Handled(s, j))
  }

  /** Neither new events nor more handled ones make a safe id unsafe. */
  lemma {:induction false} SafetyGrows(s: State, t: State)
    requires Increasing(t.ids) && s.ids <= t.ids && s.forwarded <= t.forwarded && s.skipped <= t.skipped
    ensures forall v :: Safe(s, v) ==> Safe(t, v)
    ensures forall j: nat :: Handled(s, j) ==> Handled(t, j)
  {
    forall v | Safe(s, v)
      ensures Safe(t, v)
    {
      forall j: nat | j < |t.ids| && t.ids[j] < v
        ensures Handled(t, j)
      {
        assert j < |s.ids| && s.ids[j] < v && Handled(s, j);
      }
      assert t.ids[|s.ids| - 1] <= t.ids[|t.ids| - 1];
    }
  }

  lemma {:induction false} ConnectHandles(s: State)
    requires Inv(s) && s.connection.Offline?
    ensures var t := Do(s, Connect); forall j: nat | j < t.connection.next :: Handled(t, j)
  {
    var t := Do(s, Connect);
    var start := if s.registry.Some? then s.registry.value else 0;
    forall j: nat | j < t.connection.next
      ensures Handled(t, j)
    {
      assert j < FirstAtLeast(s.ids, start) ==> Handled(s, j);
    }
  }

  lemma {:induction false} ConnectKeepsInv(s: State)
    requires Inv(s)
    ensures Inv(Do(s, Connect))
  {
    if s.connection.Offline? {
      SafetyGrows(s, Do(s, Connect));
      ConnectHandles(s);
    }
  }

  lemma {:induction false} ReportKeepsInv(s: State)
    requires Inv(s)
    ensures Inv(Do(s, Report))
  {
    var t := Do(s, Report);
    SafetyGrows(s, t);
    if t != s {
      assert Safe(t, s.ids[s.connection.next]);
    }
  }

  lemma {:induction false} ForwardKeepsInv(s: State, ok: bool)
    requires Inv(s)
    ensures Inv(Do(s, Forward(ok)))
  {
    SafetyGrows(s, Do(s, Forward(ok)));
  }

  lemma {:induction false} StreamKeepsInv(s: State, a: Action)
    requires Inv(s) && (a.Report? || a.Forward? || a.Drop?)
    ensures Inv(Do(s, a))
  {
    match a
    case Report => ReportKeepsInv(s);
    case Forward(ok) => ForwardKeepsInv(s, ok);
    case _ => SafetyGrows(s, Do(s, a));
  }

  lemma {:induction false} NodeKeepsInv(s: State, a: Action)
    requires Inv(s) && (a.Emit? || a.Evict?)
    ensures Inv(Do(s, a))
  {
    SafetyGrows(s, Do(s, a));
  }

  lemma {:induction false} RegistryKeepsInv(s: State, a: Action)
    requires Inv(s) && (a.Receive? || a.Store?)
    ensures Inv(Do(s, a))
  {
    var t := Do(s, a);
    SafetyGrows(s, t);
    assert a.Receive? && t != s ==> forall i | 0 <= i < |t.channel| :: t.channel[i] == s.channel[i + 1];
  }

  lemma {:induction false} Reachable(actions: seq<Action>)
    ensures Inv(Exec(actions))
  {
    if actions != [] {
      var before, a := actions[..|actions| - 1], actions[|actions| - 1];
      Reachable(before);
      match a {
        case Connect => ConnectKeepsInv(Exec(before));
        case Emit(_) => NodeKeepsInv(Exec(before), a);
        case Evict => NodeKeepsInv(Exec(before), a);
        case Receive => RegistryKeepsInv(Exec(before), a);
        case Store => RegistryKeepsInv(Exec(before), a);
        case _ => StreamKeepsInv(Exec(before), a);
      }
    }
  }

  /** Over any number of reconnects, with updates lagging in the channel and with events whose
      handling failed after their id was reported: every event older than the stream's next one
      that the node still retains was forwarded, and the same holds wherever a new connection made
      now would resume. */
  lemma {:induction false} GapFreeIntake(actions: seq<Action>)
    ensures var s := Exec(actions);
            && (s.connection.Online? ==> forall j: nat | s.oldest <= j < s.connection.next :: j in s.forwarded)
            && (s.registry.Some? ==>
                  forall j: nat | s.oldest <= j < |s.ids| && s.ids[j] < s.registry.value :: j in s.forwarded)
            && var t := Exec(actions + [Drop] + [Connect]);
               && t.connection.Online?
               && (forall j: nat | s.oldest <= j < t.connection.next :: j in s.forwarded)
               && (forall j | j in t.skipped && j !in s.skipped :: j < s.oldest)
  {
    Reachable(actions);
    var s := Exec(actions);
    ExecOne(actions, Drop);
    ExecOne(actions + [Drop], Connect);
    Reachable(actions + [Drop] + [Connect]);
    var t := Exec(actions + [Drop] + [Connect]);
    forall j: nat | s.oldest <= j < t.connection.next
      ensures j in s.forwarded
    {
      assert Handled(t, j);
    }
    forall j: nat | s.oldest <= j < |s.ids| && Handled(s, j)
      ensures j in s.forwarded
    {
    }
  }

  lemma {:induction false} ExecOne(actions: seq<Action>, a: Action)
    ensures Exec(actions + [a]) == Do(Exec(actions), a)
  {
    assert (actions + [a])[..|actions|] == actions;
  }

  // ----- One connection ----------------------------------------------------------------------

  /** What a stream yields: an event with its id, whether its text mentions ApiVersion, and its
      data if that can be decoded; or an error. */
  datatype Item = Event(id: Option<Id>, mentionsVersion: bool, data: Option<SseData>) | StreamError

  datatype ConnectError = NoFirstEvent | FirstEventFailed | VersionExpected | VersionUndecodable | VersionNotSent

  datatype ConnectResult = Connected | NotConnected(error: ConnectError)

  datatype ManagerError = StreamClosed | StreamFailed | ReportFailed | HandlingFailed

  predicate IsVersionItem(item: Item) {
    item.Event? && item.mentionsVersion && item.data.Some? && item.data.value.ApiVersion?
  }

  /** The ids among the items of a stream; an ApiVersion has none. */
  function ItemIds(items: seq<Item>): seq<Id> {
    if items == [] then []
    else
      var last := items[|items| - 1];
      ItemIds(items[..|items| - 1]) + if last.Event? && last.id.Some? then [last.id.value] else []
  }

  lemma {:induction false} IdsOneMore(stream: seq<Item>, n: nat)
    requires n < |stream|
    ensures ItemIds(stream[..n + 1]) ==
            ItemIds(stream[..n]) + if stream[n].Event? && stream[n].id.Some? then [stream[n].id.value] else []
  {
    assert stream[..n + 1][..n] == stream[..n];
  }

  function LastId(before: Option<Id>, ids: seq<Id>): Option<Id> {
    if ids == [] then before else Some(ids[|ids| - 1])
  }

  /** How draining a stream can end, and what was reported and forwarded by then: a first part of the
      stream is forwarded; its ids are reported, and so is the id of an event whose handling failed. */
  predicate Drained(stream: seq<Item>, reported: seq<Id>, forwarded: seq<Item>, error: ManagerError) {
    && forwarded <= stream
    && var n := |forwarded|;
       match error
       case StreamClosed => forwarded == stream && reported == ItemIds(forwarded)
       case StreamFailed => n < |stream| && stream[n].StreamError? && reported == ItemIds(forwarded)
       case ReportFailed =>
         n < |stream| && stream[n].Event? && stream[n].id.Some? && reported == ItemIds(forwarded)
       case HandlingFailed => n < |stream| && stream[n].Event? && reported == ItemIds(stream[..n + 1])
  }

  /** An item that is forwarded: an event with data, under a known version, that can be reported, if it has an
      id, and sent on. */
  predicate Passes(item: Item, version: Option<ProtocolVersion>, reports: bool, sends: bool) {
    item.Event? && item.data.Some? && version.Some? && sends && (item.id.Some? ==> reports)
  }

  class ConnectionManager {
    var currentEventId: Option<Id>
    var apiVersion: Option<ProtocolVersion>

    /** A connection asks for the events from the registered id on, or from 0. */
    constructor (registered: Option<Id>)
      ensures currentEventId == Some(if registered.Some? then registered.value else 0)
      ensures apiVersion == None
    {
      currentEventId := if registered.Some? then registered else Some(0);
      apiVersion := None;
    }

    /** Takes the first item off a new stream. The connection counts as made if and only if that is a
        decodable ApiVersion and can be sent on; no id is reported. */
    method ConsumeApiVersion(stream: seq<Item>, sends: bool) returns (result: ConnectResult)
      modifies this
      ensures result.Connected? <==> stream != [] && IsVersionItem(stream[0]) && sends
      ensures apiVersion == if stream != [] && IsVersionItem(stream[0]) then Some(stream[0].data.value.version)
                            else old(apiVersion)
      ensures currentEventId == old(currentEventId)
      ensures result == NotConnected(NoFirstEvent) <==> stream == []
    {
      if stream == [] {
        return NotConnected(NoFirstEvent);
      }
      match stream[0] {
        case StreamError => result := NotConnected(FirstEventFailed);
        case Event(_, mentionsVersion, data) =>
          if !mentionsVersion {
            return NotConnected(VersionExpected);
          }
          if data.None? {
            return NotConnected(VersionUndecodable);
          }
          match data.value {
            case ApiVersion(version) =>
              apiVersion := Some(version);
              result := if sends then Connected else NotConnected(VersionNotSent);
            case _ => result := NotConnected(VersionExpected);
          }
      }
    }

    /** Drains a connection until it closes or fails; reports(i) and sends(i) say whether item i can be
        reported and sent on. Every event is reported before it is forwarded, so the reported ids
        are those of the forwarded events and, when handling an event fails, that event's id as well. */
    method HandleStream(stream: seq<Item>, reports: nat -> bool, sends: nat -> bool)
      returns (reported: seq<Id>, forwarded: seq<Item>, error: ManagerError)
      modifies this
      ensures forall i | 0 <= i < |forwarded| :: Passes(forwarded[i], apiVersion, reports(i), sends(i))
      ensures Drained(stream, reported, forwarded, error)
      ensures error.ReportFailed? ==> !reports(|forwarded|)
      ensures error.HandlingFailed? ==>
                var n := |forwarded|;
                (stream[n].id.Some? ==> reports(n)) && (stream[n].data.None? || apiVersion.None? || !sends(n))
      ensures currentEventId ==
              LastId(old(currentEventId), if error.ReportFailed? then ItemIds(stream[..|forwarded| + 1]) else reported)
      ensures apiVersion == old(apiVersion)
    {
      reported, forwarded := [], [];
      for i := 0 to |stream|
        invariant forwarded == stream[..i]
        invariant forall j | 0 <= j < i :: Passes(stream[j], apiVersion, reports(j), sends(j))
        invariant reported == ItemIds(stream[..i]) && currentEventId == LastId(old(currentEventId), reported)
        invariant apiVersion == old(apiVersion)
      {
        IdsOneMore(stream, i);
        match stream[i] {
          case StreamError => return reported, forwarded, StreamFailed;
          case Event(id, _, data) =>
            if id.Some? {
              currentEventId := id;
              if !reports(i) {
                return reported, forwarded, ReportFailed;
              }
              reported := reported + [id.value];
            }
            if data.None? || apiVersion.None? || !sends(i) {
              return reported, forwarded, HandlingFailed;
            }
            forwarded := forwarded + [stream[i]];
        }
      }
      assert stream[..|stream|] == stream;
      error := StreamClosed;
    }
  }
}
