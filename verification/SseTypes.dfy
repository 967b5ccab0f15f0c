/** The vocabulary shared by the event stream: versions, event data and server-sent events. */
module SseTypes {

  datatype Option<+T> = None | Some(value: T)

  /** Number of distinct event ids: the `id` field is an unsigned 32-bit integer. */
  const ID_COUNT: int := 0x1_0000_0000

  type Id = n: nat | n < 0x1_0000_0000

  datatype ProtocolVersion = ProtocolVersion(major: nat, minor: nat, patch: nat) {
    predicate Less(other: ProtocolVersion) {
      || major < other.major
      || (major == other.major && minor < other.minor)
      || (major == other.major && minor == other.minor && patch < other.patch)
    }
  }

  /** Versions are ordered by the first of major, minor and patch in which they differ; two that differ are
      ordered one way only. */
  lemma {:induction false} VersionOrder(a: ProtocolVersion, b: ProtocolVersion)
    ensures a.major != b.major ==> (a.Less(b) <==> a.major < b.major)
    ensures a.major == b.major && a.minor != b.minor ==> (a.Less(b) <==> a.minor < b.minor)
    ensures a.major == b.major && a.minor == b.minor ==> (a.Less(b) <==> a.patch < b.patch)
    ensures a != b ==> (a.Less(b) <==> !b.Less(a))
    ensures !a.Less(a)
  {
    assert a != b <==> a.major != b.major || a.minor != b.minor || a.patch != b.patch;
  }

  predicate StrictlyIncreasing(versions: seq<ProtocolVersion>) {
    forall i, j | 0 <= i < j < |versions| :: versions[i].Less(versions[j])
  }

  /** Increasing sequences of versions can be joined if and only if the second goes on above the first. */
  lemma {:induction false} IncreasingJoin(a: seq<ProtocolVersion>, b: seq<ProtocolVersion>)
    ensures StrictlyIncreasing(a + b) <==>
            && StrictlyIncreasing(a) && StrictlyIncreasing(b)
            && (a != [] && b != [] ==> a[|a| - 1].Less(b[0]))
  {
    var all := a + b;
    assert forall i | 0 <= i < |a| :: all[i] == a[i];
    assert forall j | 0 <= j < |b| :: all[|a| + j] == b[j];
    if StrictlyIncreasing(a) && StrictlyIncreasing(b) && (a != [] && b != [] ==> a[|a| - 1].Less(b[0])) {
      forall i, j | 0 <= i < j < |all|
        ensures all[i].Less(all[j])
      {
        if i < |a| <= j {
          LessChains(a[i], a[|a| - 1], b[0], b[j - |a|]);
        }
      }
    }
  }

  lemma {:induction false} LessChains(a: ProtocolVersion, b: ProtocolVersion, c: ProtocolVersion, d: ProtocolVersion)
    requires (a == b || a.Less(b)) && b.Less(c) && (c == d || c.Less(d))
    ensures a.Less(d)
  {
  }

  /** The node endpoint an event came from; a 2.x node exposes a single one. */
  datatype Filter = Events

  /** Event data. Hashes and keys are kept because the database is keyed by them; the rest of a
      payload is the opaque `body`. */
  datatype SseData =
    | ApiVersion(version: ProtocolVersion)
    | BlockAdded(blockHash: string, height: nat, body: nat)
    | TransactionAccepted(transactionType: nat, transactionHash: string, body: nat)
    | TransactionProcessed(transactionType: nat, transactionHash: string, body: nat)
    | TransactionExpired(transactionType: nat, transactionHash: string)
    | Fault(era: nat, publicKey: string, body: nat)
    | FinalitySignature(blockHash: string, publicKey: string, body: nat)
    | Step(era: nat, body: nat)
    | Shutdown

  datatype ServerSentEvent = ServerSentEvent(
    id: Option<Id>, data: Option<SseData>, comment: bool, inboundFilter: Option<Filter>)

  /** The ApiVersion event the server inserts into a client's initial events. */
  function VersionEvent(version: ProtocolVersion): ServerSentEvent {
    ServerSentEvent(None, Some(ApiVersion(version)), false, None)
  }

  function LegacyComment(): ServerSentEvent {
    ServerSentEvent(None, None, true, None)
  }

  predicate IsVersionEvent(event: ServerSentEvent) {
    event.data.Some? && event.data.value.ApiVersion?
  }

  /** A buffered event together with the API version it was published under. */
  datatype Entry = Entry(version: ProtocolVersion, event: ServerSentEvent)
}
