/** Intake from several nodes into one outbound channel. Each node has a worker that handles its
    events in order: it saves an event and, if the save committed, forwards it. API versions pass a
    gate that lets only newer versions through and stays locked until the version is sent. */
module Intake {
  import opened SseTypes
  import opened EventStore

  datatype Worker = Idle | Forwarding(data: SseData) | Announcing(version: ProtocolVersion)

  /** A node: everything it has delivered, how much of it was taken up, and its worker. */
  datatype Node = Node(arrived: seq<SseEvent>, taken: nat, worker: Worker)

  datatype Outbound = Outbound(node: nat, data: SseData)

  datatype State = State(
    tables: Tables,
    newest: Option<ProtocolVersion>,
    lock: Option<nat>,
    nodes: seq<Node>,
    outbound: seq<Outbound>)

  datatype Action =
    | Arrive(n: nat, event: SseEvent)
    | Handle(n: nat, now: nat, logId: nat, failure: Failure)
    | Send(n: nat)

  function Init(count: nat): State {
    State(Tables(map[], map[], {}), None, None, seq(count, _ => Node([], 0, Idle)), [])
  }

  /** Stores a version if it is newer than all before; says whether it was. */
  class ApiVersionManager {
    var newest: Option<ProtocolVersion>

    constructor ()
      ensures newest == None
    {
      newest := None;
    }

    method StoreVersion(version: ProtocolVersion) returns (changed: bool)
      modifies this
      ensures changed == IsNewer(old(newest), version)
      ensures newest == if changed then Some(version) else old(newest)
    {
      if newest.Some? {
        if newest.value.Less(version) {
          newest := Some(version);
          return true;
        }
        return false;
      }
      newest := Some(version);
      changed := true;
    }
  }

  predicate IsNewer(newest: Option<ProtocolVersion>, version: ProtocolVersion) {
    newest.None? || newest.value.Less(version)
  }

  /** What the worker does with the result of a save. A shutdown is passed on even if it is already stored. */
  function AfterSave(data: SseData, result: SaveResult): Worker {
    match result
    case Saved => Forwarding(data)
    case UniqueViolation => if data.Shutdown? then Forwarding(data) else Idle
    case WriteFailed => Idle
  }

  function SetNode(s: State, n: nat, node: Node): State
    requires n < |s.nodes|
  {
    s.(nodes := s.nodes[n := node])
  }

  /** One step of one worker, or an arrival. An action that is not enabled changes nothing. */
  function Do(s: State, a: Action): State {
    if a.n >= |s.nodes| then s else
    var node := s.nodes[a.n];
    match a
    case Arrive(n, event) => SetNode(s, n, node.(arrived := node.arrived + [event]))
    case Handle(n, now, logId, failure) =>
      if !node.worker.Idle? || node.taken >= |node.arrived| then s
      else
        var event := node.arrived[node.taken];
        if event.data.ApiVersion? then
          if s.lock.Some? then s else PassGate(s, n, event.data.version)
        else
          if logId in s.tables.log then s else SaveEvent(s, n, event, now, logId, failure)
    case Send(n) =>
      match node.worker
      case Idle => s
      case Forwarding(data) =>
        SetNode(s, n, node.(worker := Idle)).(outbound := s.outbound + [Outbound(n, data)])
      case Announcing(version) =>
        SetNode(s, n, node.(worker := Idle)).(lock := None, outbound := s.outbound + [Outbound(n, ApiVersion(version))])
  }

  /** Under the lock: store the version, and keep the lock for sending it if it is the newest. */
  function PassGate(s: State, n: nat, version: ProtocolVersion): State
    requires n < |s.nodes|
  {
    var node := s.nodes[n].(taken := s.nodes[n].taken + 1);
    if IsNewer(s.newest, version)
    then SetNode(s, n, node.(worker := Announcing(version))).(newest := Some(version), lock := Some(n))
    else SetNode(s, n, node)
  }

  function SaveEvent(s: State, n: nat, event: SseEvent, now: nat, logId: nat, failure: Failure): State
    requires n < |s.nodes| && IsStored(event.data)
  {
    var result := SaveOutcome(s.tables, event, now, failure);
    var node := s.nodes[n].(taken := s.nodes[n].taken + 1, worker := AfterSave(event.data, result));
    SetNode(s, n, node).(tables := if result.Saved? then InsertAll(s.tables, event, now, logId) else s.tables)
  }

  function Exec(count: nat, actions: seq<Action>): State {
    if actions == [] then Init(count)
    else Do(Exec(count, actions[..|actions| - 1]), actions[|actions| - 1])
  }

  // ----- Exactly once ------------------------------------------------------------------------

  /** Whether data is the entity stored under a key; shutdowns and versions are no entities. */
  predicate IsEntity(data: SseData, key: RowKey) {
    !data.ApiVersion? && !data.Shutdown? && KeyOf(data, "", 0) == key
  }

  /** How often the entity was sent. */
  function SentCount(outbound: seq<Outbound>, key: RowKey): nat {
    if outbound == [] then 0
    else SentCount(outbound[..|outbound| - 1], key) + if IsEntity(outbound[|outbound| - 1].data, key) then 1 else 0
  }

  /** 1 if the worker is about to send the entity, else 0. */
  function Pending(worker: Worker, key: RowKey): nat {
    if worker.Forwarding? && IsEntity(worker.data, key) then 1 else 0
  }

  /** How many workers are about to send the entity. */
  function PendingCount(nodes: seq<Node>, key: RowKey): nat {
    if nodes == [] then 0
    else PendingCount(nodes[..|nodes| - 1], key) + Pending(nodes[|nodes| - 1].worker, key)
  }

  /** Every stored entity was sent once or is about to be, and no other entity ever was. */
  ghost predicate OnceInv(s: State) {
    && Linked(s.tables)
    && forall key: RowKey | !key.ShutdownRow? :: Accounted(s, key)
  }

  ghost predicate Accounted(s: State, key: RowKey) {
    SentCount(s.outbound, key) + PendingCount(s.nodes, key) == if key in s.tables.rows then 1 else 0
  }

  lemma {:induction false} PendingUpdate(nodes: seq<Node>, n: nat, node: Node, key: RowKey)
    requires n < |nodes|
    ensures PendingCount(nodes[n := node], key) ==
            PendingCount(nodes, key) + Pending(node.worker, key) - Pending(nodes[n].worker, key)
  {
    var last := |nodes| - 1;
    if n < last {
      PendingUpdate(nodes[..last], n, node, key);
      assert nodes[n := node][..last] == nodes[..last][n := node];
    } else {
      assert nodes[n := node][..last] == nodes[..last];
    }
  }

  lemma {:induction false} SentOne(outbound: seq<Outbound>, out: Outbound, key: RowKey)
    ensures SentCount(outbound + [out], key) == SentCount(outbound, key) + if IsEntity(out.data, key) then 1 else 0
  {
    assert (outbound + [out])[..|outbound|] == outbound;
  }

  lemma {:induction false} StepKeepsOnce(s: State, a: Action)
    requires OnceInv(s)
    ensures OnceInv(Do(s, a))
  {
    var t := Do(s, a);
    if t != s {
      var node := s.nodes[a.n];
      if a.Send? {
        SendKeepsOnce(s, a.n);
      } else if a.Handle? && IsStored(node.arrived[node.taken].data) {
        SaveKeepsOnce(s, a.n, node.arrived[node.taken], a.now, a.logId, a.failure);
      } else {
        forall key: RowKey | !key.ShutdownRow?
          ensures Accounted(t, key)
        {
          assert Accounted(s, key);
          PendingUpdate(s.nodes, a.n, t.nodes[a.n], key);
        }
      }
    }
  }

  lemma {:induction false} SaveKeepsOnce(s: State, n: nat, event: SseEvent, now: nat, logId: nat, failure: Failure)
    requires OnceInv(s) && n < |s.nodes| && s.nodes[n].worker.Idle?
    requires IsStored(event.data) && logId !in s.tables.log
    ensures OnceInv(SaveEvent(s, n, event, now, logId, failure))
  {
    var t := SaveEvent(s, n, event, now, logId, failure);
    assert Linked(t.tables) by {
      if SaveOutcome(s.tables, event, now, failure).Saved? {
        SaveKeepsLogLinked(s.tables, event, now, logId);
        SaveKeepsTransactionsLinked(s.tables, event, now, logId);
      }
    }
    forall key: RowKey | !key.ShutdownRow?
      ensures Accounted(t, key)
    {
      assert Accounted(s, key);
      SaveAccounts(s, n, event, now, logId, failure, key);
    }
  }

  lemma {:induction false} SaveAccounts(s: State, n: nat, event: SseEvent, now: nat, logId: nat, failure: Failure, key: RowKey)
    requires n < |s.nodes| && s.nodes[n].worker.Idle? && IsStored(event.data)
    requires !key.ShutdownRow? && Accounted(s, key)
    ensures Accounted(SaveEvent(s, n, event, now, logId, failure), key)
  {
    var t := SaveEvent(s, n, event, now, logId, failure);
    PendingUpdate(s.nodes, n, t.nodes[n], key);
    if event.data.Shutdown? {
      assert key in t.tables.rows <==> key in s.tables.rows;
    } else {
      assert KeyOf(event.data, event.source, now) == KeyOf(event.data, "", 0);
    }
  }

  lemma {:induction false} SendKeepsOnce(s: State, n: nat)
    requires OnceInv(s) && n < |s.nodes|
    ensures OnceInv(Do(s, Send(n)))
  {
    var t := Do(s, Send(n));
    if t != s {
      forall key: RowKey | !key.ShutdownRow?
        ensures Accounted(t, key)
      {
        assert Accounted(s, key);
        PendingUpdate(s.nodes, n, t.nodes[n], key);
        SentOne(s.outbound, t.outbound[|s.outbound|], key);
      }
    }
  }

  // ----- Order -------------------------------------------------------------------------------

  /** Whether a is b with some elements left out. */
  ghost predicate IsSubsequence(a: seq<SseData>, b: seq<SseData>) {
    || a == []
    || (b != [] &&
        (|| IsSubsequence(a, b[..|b| - 1])
         || (a[|a| - 1] == b[|b| - 1] && IsSubsequence(a[..|a| - 1], b[..|b| - 1]))))
  }

  lemma {:induction false} SubsequenceSkip(a: seq<SseData>, b: seq<SseData>, x: SseData)
    requires IsSubsequence(a, b)
    ensures IsSubsequence(a, b + [x])
  {
    assert (b + [x])[..|b|] == b;
  }

  lemma {:induction false} SubsequenceTake(a: seq<SseData>, b: seq<SseData>, x: SseData)
    requires IsSubsequence(a, b)
    ensures IsSubsequence(a + [x], b + [x])
  {
    assert (b + [x])[..|b|] == b && (a + [x])[..|a|] == a;
  }

  /** What was sent on behalf of a node. */
  function SentBy(outbound: seq<Outbound>, n: nat): seq<SseData> {
    if outbound == [] then []
    else
      var last := outbound[|outbound| - 1];
      SentBy(outbound[..|outbound| - 1], n) + if last.node == n then [last.data] else []
  }

  lemma {:induction false} SentByOne(outbound: seq<Outbound>, out: Outbound, n: nat)
    ensures SentBy(outbound + [out], n) == SentBy(outbound, n) + if out.node == n then [out.data] else []
  {
    assert (outbound + [out])[..|outbound|] == outbound;
  }

  function Held(worker: Worker): seq<SseData> {
    match worker
    case Idle => []
    case Forwarding(data) => [data]
    case Announcing(version) => [ApiVersion(version)]
  }

  function Taken(node: Node): seq<SseData> {
    seq(if node.taken <= |node.arrived| then node.taken else |node.arrived|,
        i requires 0 <= i < |node.arrived| => node.arrived[i].data)
  }

  /** What a node's worker sent or holds is in the order the node delivered it. */
  ghost predicate NodeInOrder(s: State, n: nat)
    requires n < |s.nodes|
  {
    && s.nodes[n].taken <= |s.nodes[n].arrived|
    && IsSubsequence(SentBy(s.outbound, n) + Held(s.nodes[n].worker), Taken(s.nodes[n]))
  }

  ghost predicate OrderInv(s: State) {
    forall n: nat | n < |s.nodes| :: NodeInOrder(s, n)
  }

  /** Sending moves the held data to the output. */
  lemma {:induction false} SendMovesData(s: State, sender: nat, n: nat)
    requires sender < |s.nodes| && n < |s.nodes|
    ensures var t := Do(s, Send(sender));
            && SentBy(t.outbound, n) + Held(t.nodes[n].worker) == SentBy(s.outbound, n) + Held(s.nodes[n].worker)
            && t.nodes[n].arrived == s.nodes[n].arrived && t.nodes[n].taken == s.nodes[n].taken
  {
    var worker := s.nodes[sender].worker;
    if !worker.Idle? {
      var data := if worker.Forwarding? then worker.data else ApiVersion(worker.version);
      SentByOne(s.outbound, Outbound(sender, data), n);
      assert Held(worker) == [data];
    }
  }

  lemma {:induction false} SendKeepsOrder(s: State, sender: nat, n: nat)
    requires sender < |s.nodes| && n < |s.nodes| && NodeInOrder(s, n)
    ensures NodeInOrder(Do(s, Send(sender)), n)
  {
    SendMovesData(s, sender, n);
    assert Taken(Do(s, Send(sender)).nodes[n]) == Taken(s.nodes[n]);
  }

  lemma {:induction false} ArriveKeepsOrder(s: State, a: Action, n: nat)
    requires a.Arrive? && n < |s.nodes| && NodeInOrder(s, n)
    ensures NodeInOrder(Do(s, a), n)
  {
    assert Taken(Do(s, a).nodes[n]) == Taken(s.nodes[n]);
  }

  /** In t the worker of node n has taken one event more than in s, and holds it or nothing. */
  predicate TookOne(s: State, t: State, n: nat)
    requires n < |s.nodes| && s.nodes[n].taken < |s.nodes[n].arrived|
  {
    && |t.nodes| == |s.nodes| && t.outbound == s.outbound
    && t.nodes[n].arrived == s.nodes[n].arrived && t.nodes[n].taken == s.nodes[n].taken + 1
    && (|| Held(t.nodes[n].worker) == []
        || Held(t.nodes[n].worker) == [s.nodes[n].arrived[s.nodes[n].taken].data])
    && forall m | 0 <= m < |s.nodes| && m != n :: t.nodes[m] == s.nodes[m]
  }

  lemma {:induction false} HandleTakesOne(s: State, a: Action)
    requires a.Handle? && a.n < |s.nodes| && Do(s, a) != s
    ensures s.nodes[a.n].worker.Idle? && s.nodes[a.n].taken < |s.nodes[a.n].arrived|
    ensures TookOne(s, Do(s, a), a.n)
  {
    var event := s.nodes[a.n].arrived[s.nodes[a.n].taken];
    if event.data.ApiVersion? {
      assert Do(s, a) == PassGate(s, a.n, event.data.version);
    } else {
      assert Do(s, a) == SaveEvent(s, a.n, event, a.now, a.logId, a.failure);
    }
  }

  lemma {:induction false} HandleKeepsOrder(s: State, a: Action, n: nat)
    requires a.Handle? && a.n < |s.nodes| && n < |s.nodes| && NodeInOrder(s, n)
    ensures NodeInOrder(Do(s, a), n)
  {
    var t := Do(s, a);
    if t != s {
      HandleTakesOne(s, a);
      if n == a.n {
        TakeKeepsOrder(s, t, n);
      } else {
        assert t.nodes[n] == s.nodes[n];
      }
    }
  }

  lemma {:induction false} StepKeepsOrder(s: State, a: Action)
    requires OrderInv(s)
    ensures OrderInv(Do(s, a))
  {
    if a.n < |s.nodes| {
      forall n: nat | n < |s.nodes|
        ensures NodeInOrder(Do(s, a), n)
      {
        match a {
          case Send(sender) => SendKeepsOrder(s, sender, n);
          case Arrive(_, _) => ArriveKeepsOrder(s, a, n);
          case Handle(_, _, _, _) => HandleKeepsOrder(s, a, n);
        }
      }
    }
  }

  lemma {:induction false} TakeKeepsOrder(s: State, t: State, n: nat)
    requires n < |s.nodes| && NodeInOrder(s, n) && s.nodes[n].worker.Idle?
    requires s.nodes[n].taken < |s.nodes[n].arrived| && TookOne(s, t, n)
    ensures NodeInOrder(t, n)
  {
    var data := s.nodes[n].arrived[s.nodes[n].taken].data;
    var sent := SentBy(s.outbound, n);
    assert sent + [] == sent;
    assert Taken(t.nodes[n]) == Taken(s.nodes[n]) + [data];
    SubsequenceSkip(sent, Taken(s.nodes[n]), data);
    SubsequenceTake(sent, Taken(s.nodes[n]), data);
  }

  // ----- Versions ----------------------------------------------------------------------------

  function SentVersions(outbound: seq<Outbound>): seq<ProtocolVersion> {
    if outbound == [] then []
    else
      var last := outbound[|outbound| - 1];
      SentVersions(outbound[..|outbound| - 1]) + if last.data.ApiVersion? then [last.data.version] else []
  }

  /** The versions sent so far ascend; the newest is the last one sent, unless the worker that
      holds the lock is about to send it. */
  ghost predicate VersionInv(s: State) {
    WorkersFit(s) && GateFits(s, SentVersions(s.outbound))
  }

  /** Exactly the worker that holds the lock is announcing; what is forwarded is no version. */
  ghost predicate WorkersFit(s: State) {
    && (forall n: nat | n < |s.nodes| :: s.nodes[n].worker.Announcing? <==> s.lock == Some(n))
    && (forall n: nat | n < |s.nodes| :: s.nodes[n].worker.Forwarding? ==> IsStored(s.nodes[n].worker.data))
  }

  ghost predicate GateFits(s: State, versions: seq<ProtocolVersion>) {
    && StrictlyIncreasing(versions)
    && match s.lock
       case None => s.newest == if versions == [] then None else Some(versions[|versions| - 1])
       case Some(n) =>
         && n < |s.nodes|
         && s.nodes[n].worker.Announcing?
         && s.newest == Some(s.nodes[n].worker.version)
         && StrictlyIncreasing(versions + [s.nodes[n].worker.version])
  }

  lemma {:induction false} SentVersionsOne(outbound: seq<Outbound>, out: Outbound)
    ensures SentVersions(outbound + [out]) ==
            SentVersions(outbound) + if out.data.ApiVersion? then [out.data.version] else []
  {
    assert (outbound + [out])[..|outbound|] == outbound;
  }

  lemma {:induction false} SendKeepsWorkers(s: State, n: nat)
    requires WorkersFit(s) && n < |s.nodes|
    ensures WorkersFit(Do(s, Send(n)))
  {
  }

  lemma {:induction false} SendKeepsVersions(s: State, n: nat)
    requires VersionInv(s) && n < |s.nodes|
    ensures VersionInv(Do(s, Send(n)))
  {
    var t, versions := Do(s, Send(n)), SentVersions(s.outbound);
    SendKeepsWorkers(s, n);
    match s.nodes[n].worker {
      case Idle =>
      case Forwarding(data) =>
        SentVersionsOne(s.outbound, Outbound(n, data));
        assert SentVersions(t.outbound) == versions;
      case Announcing(version) =>
        SentVersionsOne(s.outbound, Outbound(n, ApiVersion(version)));
        assert SentVersions(t.outbound) == versions + [version];
    }
  }

  lemma {:induction false} GateKeepsVersions(s: State, n: nat, version: ProtocolVersion)
    requires VersionInv(s) && n < |s.nodes| && s.lock.None?
    ensures VersionInv(PassGate(s, n, version))
  {
    var t, versions := PassGate(s, n, version), SentVersions(s.outbound);
    assert WorkersFit(t);
    if IsNewer(s.newest, version) {
      IncreasingJoin(versions, [version]);
    }
    assert GateFits(t, versions);
  }

  lemma {:induction false} StepKeepsVersions(s: State, a: Action)
    requires VersionInv(s)
    ensures VersionInv(Do(s, a))
  {
    if a.n < |s.nodes| {
      var node := s.nodes[a.n];
      if a.Send? {
        SendKeepsVersions(s, a.n);
      } else if a.Handle? && Do(s, a) != s && node.arrived[node.taken].data.ApiVersion? {
        GateKeepsVersions(s, a.n, node.arrived[node.taken].data.version);
      }
    }
  }

  // ----- Main results ------------------------------------------------------------------------

  lemma {:induction false} NothingPending(nodes: seq<Node>, key: RowKey)
    requires forall n | 0 <= n < |nodes| :: nodes[n].worker.Idle?
    ensures PendingCount(nodes, key) == 0
  {
    if nodes != [] {
      NothingPending(nodes[..|nodes| - 1], key);
    }
  }

  lemma {:induction false} InitKeeps(count: nat)
    ensures OnceInv(Init(count)) && OrderInv(Init(count)) && VersionInv(Init(count))
  {
    forall key: RowKey
      ensures Accounted(Init(count), key)
    {
      NothingPending(Init(count).nodes, key);
    }
  }

  lemma {:induction false} Reachable(count: nat, actions: seq<Action>)
    ensures var s := Exec(count, actions);
            |s.nodes| == count && OnceInv(s) && OrderInv(s) && VersionInv(s)
  {
    if actions == [] {
      InitKeeps(count);
    } else {
      var before, a := actions[..|actions| - 1], actions[|actions| - 1];
      Reachable(count, before);
      var s := Exec(count, before);
      StepKeepsOnce(s, a);
      StepKeepsOrder(s, a);
      StepKeepsVersions(s, a);
    }
  }

  /** Under any interleaving of the nodes' events and any database failures: an entity is sent at
      most once, never unless one of its saves committed, and once no worker is busy exactly once
      if one did; and every log row keeps exactly one event row. */
  lemma {:induction false} ExactlyOnceAcrossNodes(count: nat, actions: seq<Action>, key: RowKey)
    requires !key.ShutdownRow?
    ensures var s := Exec(count, actions);
            && Linked(s.tables)
            && SentCount(s.outbound, key) <= 1
            && (key !in s.tables.rows ==> SentCount(s.outbound, key) == 0)
            && ((forall n | 0 <= n < |s.nodes| :: s.nodes[n].worker.Idle?) ==>
                  (SentCount(s.outbound, key) == 1 <==> key in s.tables.rows))
  {
    Reachable(count, actions);
    var s := Exec(count, actions);
    assert Accounted(s, key);
    if forall n | 0 <= n < |s.nodes| :: s.nodes[n].worker.Idle? {
      NothingPending(s.nodes, key);
    }
  }

  /** What is sent on behalf of a node is in the order that node delivered it. */
  lemma {:induction false} NodeOrderKept(count: nat, actions: seq<Action>, n: nat)
    requires n < count
    ensures var s := Exec(count, actions);
            |s.nodes| == count && IsSubsequence(SentBy(s.outbound, n), Taken(s.nodes[n]))
  {
    Reachable(count, actions);
    var s := Exec(count, actions);
    assert NodeInOrder(s, n);
    var sent, held := SentBy(s.outbound, n), Held(s.nodes[n].worker);
    if held == [] {
      assert sent + held == sent;
    } else {
      assert (sent + held)[..|sent + held| - 1] == sent;
      SubsequencePrefix(sent + held, Taken(s.nodes[n]));
    }
  }

  lemma {:induction false} SubsequencePrefix(a: seq<SseData>, b: seq<SseData>)
    requires a != [] && IsSubsequence(a, b)
    ensures IsSubsequence(a[..|a| - 1], b)
  {
    var before := b[..|b| - 1];
    assert b == before + [b[|b| - 1]];
    if IsSubsequence(a, before) {
      SubsequencePrefix(a, before);
    }
    SubsequenceSkip(a[..|a| - 1], before, b[|b| - 1]);
  }

  /** The API versions sent, from whichever nodes, strictly ascend. */
  lemma {:induction false} VersionsAscend(count: nat, actions: seq<Action>)
    ensures StrictlyIncreasing(SentVersions(Exec(count, actions).outbound))
  {
    Reachable(count, actions);
  }
}
