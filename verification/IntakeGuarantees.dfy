/** What the intake sends, in terms of the events the workers handled and of their fields alone. */
module IntakeGuarantees {
  import opened SseTypes
  import opened EventStore
  import opened Intake

  // ----- The saves of a run ------------------------------------------------------------------

  /** A worker is free to handle its next event. */
  predicate IsReady(s: State, a: Action) {
    && a.Handle? && a.n < |s.nodes|
    && s.nodes[a.n].worker.Idle? && s.nodes[a.n].taken < |s.nodes[a.n].arrived|
  }

  function NextEvent(s: State, a: Action): SseEvent
    requires IsReady(s, a)
  {
    s.nodes[a.n].arrived[s.nodes[a.n].taken]
  }

  /** The step saves an event. */
  predicate IsSave(s: State, a: Action) {
    IsReady(s, a) && IsStored(NextEvent(s, a).data) && a.logId !in s.tables.log
  }

  /** The saves made in a run, in order, from whichever nodes. */
  function SavesOf(count: nat, actions: seq<Action>): (calls: seq<SaveCall>)
    ensures Storable(calls)
  {
    if actions == [] then []
    else
      var before, a := actions[..|actions| - 1], actions[|actions| - 1];
      var s := Exec(count, before);
      SavesOf(count, before) + if IsSave(s, a) then [SaveCall(NextEvent(s, a), a.now, a.logId, a.failure)] else []
  }

  lemma {:induction false} TablesOne(calls: seq<SaveCall>, call: SaveCall)
    requires Storable(calls) && IsStored(call.event.data)
    ensures Storable(calls + [call])
    ensures var t := TablesAfter(calls);
            TablesAfter(calls + [call]) ==
            if call.logId !in t.log && SaveOutcome(t, call.event, call.now, call.failure).Saved?
            then InsertAll(t, call.event, call.now, call.logId) else t
  {
    assert (calls + [call])[..|calls|] == calls;
  }

  lemma {:induction false} StepTables(s: State, a: Action)
    ensures Do(s, a).tables ==
            if IsSave(s, a) && SaveOutcome(s.tables, NextEvent(s, a), a.now, a.failure).Saved?
            then InsertAll(s.tables, NextEvent(s, a), a.now, a.logId) else s.tables
  {
  }

  /** The tables are those of the saves made. */
  lemma {:induction false} TablesAreSaves(count: nat, actions: seq<Action>)
    ensures Exec(count, actions).tables == TablesAfter(SavesOf(count, actions))
  {
    if actions != [] {
      var before, a := actions[..|actions| - 1], actions[|actions| - 1];
      TablesAreSaves(count, before);
      var s := Exec(count, before);
      StepTables(s, a);
      if IsSave(s, a) {
        var call := SaveCall(NextEvent(s, a), a.now, a.logId, a.failure);
        assert SavesOf(count, actions) == SavesOf(count, before) + [call];
        TablesOne(SavesOf(count, before), call);
      } else {
        assert SavesOf(count, actions) == SavesOf(count, before);
      }
    }
  }

  // ----- Every event is taken up once --------------------------------------------------------

  /** The step takes up the node's next event: a version only if nobody holds the lock. */
  predicate TakesUp(s: State, a: Action, n: nat) {
    && IsReady(s, a) && a.n == n
    && if NextEvent(s, a).data.ApiVersion? then s.lock.None? else a.logId !in s.tables.log
  }

  /** The events that a node delivered in a run. */
  function ArrivedAt(actions: seq<Action>, n: nat): seq<SseEvent> {
    if actions == [] then []
    else
      var last := actions[|actions| - 1];
      ArrivedAt(actions[..|actions| - 1], n) + if last.Arrive? && last.n == n then [last.event] else []
  }

  /** The events of a node that were taken up in a run, in the order of the steps. */
  function TakenUp(count: nat, actions: seq<Action>, n: nat): seq<SseEvent> {
    if actions == [] then []
    else
      var before, a := actions[..|actions| - 1], actions[|actions| - 1];
      var s := Exec(count, before);
      TakenUp(count, before, n) + if TakesUp(s, a, n) then [NextEvent(s, a)] else []
  }

  lemma {:induction false} StepTakes(s: State, a: Action, n: nat)
    requires n < |s.nodes|
    ensures |Do(s, a).nodes| == |s.nodes|
    ensures var before, after := s.nodes[n], Do(s, a).nodes[n];
            && after.taken == before.taken + (if TakesUp(s, a, n) then 1 else 0)
            && after.arrived == before.arrived + (if a.Arrive? && a.n == n then [a.event] else [])
  {
  }

  lemma {:induction false} PrefixOne(before: seq<SseEvent>, after: seq<SseEvent>, n: nat)
    requires before <= after && n <= |before|
    ensures after[..n] == before[..n]
    ensures n < |before| ==> after[..n + 1] == before[..n] + [before[n]]
  {
  }

  /** In every run a node's worker takes up the node's events one after the other, none twice and none left
      out, whatever becomes of them. */
  lemma {:induction false} TakenUpInOrder(count: nat, actions: seq<Action>, n: nat)
    requires n < count
    ensures var nodes, arrived := Exec(count, actions).nodes, ArrivedAt(actions, n);
            && |nodes| == count && nodes[n].arrived == arrived
            && nodes[n].taken <= |arrived| && TakenUp(count, actions, n) == arrived[..nodes[n].taken]
  {
    if actions != [] {
      var before, a := actions[..|actions| - 1], actions[|actions| - 1];
      TakenUpInOrder(count, before, n);
      var s := Exec(count, before);
      StepTakes(s, a, n);
      PrefixOne(ArrivedAt(before, n), ArrivedAt(actions, n), s.nodes[n].taken);
    }
  }

  // ----- Entities ----------------------------------------------------------------------------

  predicate IsEntityData(data: SseData) {
    !data.ApiVersion? && !data.Shutdown?
  }

  /** How often an event about the same entity was sent. */
  function SameSent(outbound: seq<Outbound>, data: SseData): nat {
    if outbound == [] then 0
    else SameSent(outbound[..|outbound| - 1], data) + if SameEntity(outbound[|outbound| - 1].data, data) then 1 else 0
  }

  lemma {:induction false} SameIsKey(data: SseData, other: SseData)
    requires IsEntityData(data)
    ensures IsEntity(other, KeyOf(data, "", 0)) <==> SameEntity(other, data)
    ensures !KeyOf(data, "", 0).ShutdownRow?
  {
    if IsStored(other) {
      KeysIdentify(other, "", 0, data, "", 0);
    }
  }

  lemma {:induction false} SameSentIsSentCount(outbound: seq<Outbound>, data: SseData)
    requires IsEntityData(data)
    ensures SameSent(outbound, data) == SentCount(outbound, KeyOf(data, "", 0))
  {
    if outbound != [] {
      SameSentIsSentCount(outbound[..|outbound| - 1], data);
      SameIsKey(data, outbound[|outbound| - 1].data);
    }
  }

  /** A save of the same entity committed. */
  ghost predicate WasSaved(calls: seq<SaveCall>, data: SseData)
    requires Storable(calls)
  {
    exists i | 0 <= i < |calls| :: IsSaved(calls, i) && SameEntity(calls[i].event.data, data)
  }

  lemma {:induction false} StoredIsSaved(calls: seq<SaveCall>, data: SseData)
    requires Storable(calls) && IsEntityData(data)
    ensures KeyOf(data, "", 0) in TablesAfter(calls).rows <==> WasSaved(calls, data)
  {
    var key := KeyOf(data, "", 0);
    RowsHoldSaved(calls, key);
    if i: nat :| i < |calls| && SavedAs(calls, i, key) {
      KeysIdentify(calls[i].event.data, calls[i].event.source, calls[i].now, data, "", 0);
      assert IsSaved(calls, i) && SameEntity(calls[i].event.data, data);
    }
    if i: nat :| i < |calls| && IsSaved(calls, i) && SameEntity(calls[i].event.data, data) {
      KeysIdentify(calls[i].event.data, calls[i].event.source, calls[i].now, data, "", 0);
      assert SavedAs(calls, i, key);
    }
  }

  predicate AllIdle(s: State) {
    forall n | 0 <= n < |s.nodes| :: s.nodes[n].worker.Idle?
  }

  /** Under any interleaving and any database failures, of all events about an entity at most one is sent, none
      unless a save of one committed, and once no worker is busy exactly one if one did. Which saves commit
      is said by EventStore.SavedExactly. */
  lemma {:induction false} EntitySentOnce(count: nat, actions: seq<Action>, data: SseData)
    requires IsEntityData(data)
    ensures var s, calls := Exec(count, actions), SavesOf(count, actions);
            && SameSent(s.outbound, data) <= 1
            && (!WasSaved(calls, data) ==> SameSent(s.outbound, data) == 0)
            && (AllIdle(s) ==> (SameSent(s.outbound, data) == 1 <==> WasSaved(calls, data)))
  {
    var s, key := Exec(count, actions), KeyOf(data, "", 0);
    SameIsKey(data, data);
    ExactlyOnceAcrossNodes(count, actions, key);
    SameSentIsSentCount(s.outbound, data);
    TablesAreSaves(count, actions);
    StoredIsSaved(SavesOf(count, actions), data);
  }

  // ----- Shutdowns ---------------------------------------------------------------------------

  function ShutdownsSent(outbound: seq<Outbound>): nat {
    if outbound == [] then 0
    else ShutdownsSent(outbound[..|outbound| - 1]) + if outbound[|outbound| - 1].data.Shutdown? then 1 else 0
  }

  function HoldsShutdown(worker: Worker): nat {
    if worker.Forwarding? && worker.data.Shutdown? then 1 else 0
  }

  function ShutdownsPending(nodes: seq<Node>): nat {
    if nodes == [] then 0
    else ShutdownsPending(nodes[..|nodes| - 1]) + HoldsShutdown(nodes[|nodes| - 1].worker)
  }

  /** Shutdowns are passed on unless the database fails; one that is stored already is passed on as well. */
  predicate PassesShutdown(s: State, a: Action) {
    && IsSave(s, a) && NextEvent(s, a).data.Shutdown?
    && !SaveOutcome(s.tables, NextEvent(s, a), a.now, a.failure).WriteFailed?
  }

  function ShutdownsDue(count: nat, actions: seq<Action>): nat {
    if actions == [] then 0
    else
      var before, a := actions[..|actions| - 1], actions[|actions| - 1];
      ShutdownsDue(count, before) + if PassesShutdown(Exec(count, before), a) then 1 else 0
  }

  lemma {:induction false} ShutdownsUpdate(nodes: seq<Node>, n: nat, node: Node)
    requires n < |nodes|
    ensures ShutdownsPending(nodes[n := node]) ==
            ShutdownsPending(nodes) + HoldsShutdown(node.worker) - HoldsShutdown(nodes[n].worker)
  {
    var last := |nodes| - 1;
    if n < last {
      ShutdownsUpdate(nodes[..last], n, node);
      assert nodes[n := node][..last] == nodes[..last][n := node];
    } else {
      assert nodes[n := node][..last] == nodes[..last];
    }
  }

  lemma {:induction false} ShutdownsSentOne(outbound: seq<Outbound>, sent: Outbound)
    ensures ShutdownsSent(outbound + [sent]) == ShutdownsSent(outbound) + if sent.data.Shutdown? then 1 else 0
  {
    assert (outbound + [sent])[..|outbound|] == outbound;
  }

  lemma {:induction false} SendShutdowns(s: State, n: nat)
    requires n < |s.nodes|
    ensures var t := Do(s, Send(n));
            ShutdownsSent(t.outbound) + ShutdownsPending(t.nodes) == ShutdownsSent(s.outbound) + ShutdownsPending(s.nodes)
  {
    var node := s.nodes[n].(worker := Idle);
    match s.nodes[n].worker
    case Idle =>
    case Forwarding(data) =>
      ShutdownsUpdate(s.nodes, n, node);
      ShutdownsSentOne(s.outbound, Outbound(n, data));
    case Announcing(version) =>
      ShutdownsUpdate(s.nodes, n, node);
      ShutdownsSentOne(s.outbound, Outbound(n, ApiVersion(version)));
  }

  lemma {:induction false} StepShutdowns(s: State, a: Action)
    ensures var t := Do(s, a);
            ShutdownsSent(t.outbound) + ShutdownsPending(t.nodes) ==
            ShutdownsSent(s.outbound) + ShutdownsPending(s.nodes) + if PassesShutdown(s, a) then 1 else 0
  {
    if a.n < |s.nodes| {
      if a.Send? {
        SendShutdowns(s, a.n);
      } else {
        var t := Do(s, a);
        ShutdownsUpdate(s.nodes, a.n, t.nodes[a.n]);
        assert t.nodes == s.nodes[a.n := t.nodes[a.n]] && t.outbound == s.outbound;
      }
    }
  }

  lemma {:induction false} NoShutdownsPending(nodes: seq<Node>)
    requires forall n | 0 <= n < |nodes| :: nodes[n].worker.Idle?
    ensures ShutdownsPending(nodes) == 0
  {
    if nodes != [] {
      NoShutdownsPending(nodes[..|nodes| - 1]);
    }
  }

  /** Once no worker is busy, as many shutdowns were sent as were handled without a database failure. */
  lemma {:induction false} ShutdownsAllPassed(count: nat, actions: seq<Action>)
    ensures var s := Exec(count, actions);
            && ShutdownsSent(s.outbound) + ShutdownsPending(s.nodes) == ShutdownsDue(count, actions)
            && (AllIdle(s) ==> ShutdownsSent(s.outbound) == ShutdownsDue(count, actions))
  {
    if actions == [] {
      NoShutdownsPending(Init(count).nodes);
    } else {
      var before := actions[..|actions| - 1];
      ShutdownsAllPassed(count, before);
      StepShutdowns(Exec(count, before), actions[|actions| - 1]);
    }
    if AllIdle(Exec(count, actions)) {
      NoShutdownsPending(Exec(count, actions).nodes);
    }
  }

  // ----- Versions ----------------------------------------------------------------------------

  /** The step takes a version through the gate. */
  predicate IsVersionStep(s: State, a: Action) {
    IsReady(s, a) && NextEvent(s, a).data.ApiVersion? && s.lock.None?
  }

  /** The versions handled in a run, in order, from whichever nodes. */
  function VersionsOf(count: nat, actions: seq<Action>): seq<ProtocolVersion> {
    if actions == [] then []
    else
      var before, a := actions[..|actions| - 1], actions[|actions| - 1];
      var s := Exec(count, before);
      VersionsOf(count, before) + if IsVersionStep(s, a) then [NextEvent(s, a).data.version] else []
  }

  /** `newest` is the greatest of the versions, if there are any. */
  ghost predicate IsGreatest(newest: Option<ProtocolVersion>, versions: seq<ProtocolVersion>) {
    && (newest.None? <==> versions == [])
    && (newest.Some? ==> newest.value in versions && forall v | v in versions :: !newest.value.Less(v))
  }

  lemma {:induction false} GreatestOne(newest: Option<ProtocolVersion>, versions: seq<ProtocolVersion>, v: ProtocolVersion)
    requires IsGreatest(newest, versions)
    ensures IsGreatest(if newest.None? || newest.value.Less(v) then Some(v) else newest, versions + [v])
  {
    if newest.Some? && newest.value.Less(v) {
      forall w | w in versions
        ensures !v.Less(w)
      {
        NotAbove(w, newest.value, v);
      }
    }
  }

  lemma {:induction false} NotAbove(a: ProtocolVersion, b: ProtocolVersion, c: ProtocolVersion)
    requires !b.Less(a) && b.Less(c)
    ensures !c.Less(a)
  {
  }

  lemma {:induction false} StepNewest(s: State, a: Action)
    ensures Do(s, a).newest ==
            if IsVersionStep(s, a) && (s.newest.None? || s.newest.value.Less(NextEvent(s, a).data.version))
            then Some(NextEvent(s, a).data.version) else s.newest
  {
  }

  lemma {:induction false} NewestIsGreatest(count: nat, actions: seq<Action>)
    ensures IsGreatest(Exec(count, actions).newest, VersionsOf(count, actions))
  {
    if actions != [] {
      var before, a := actions[..|actions| - 1], actions[|actions| - 1];
      NewestIsGreatest(count, before);
      var s := Exec(count, before);
      StepNewest(s, a);
      if IsVersionStep(s, a) {
        var v := NextEvent(s, a).data.version;
        assert VersionsOf(count, actions) == VersionsOf(count, before) + [v];
        GreatestOne(s.newest, VersionsOf(count, before), v);
      } else {
        assert VersionsOf(count, actions) == VersionsOf(count, before);
      }
    }
  }

  lemma {:induction false} LastSentIsNewest(s: State)
    requires VersionInv(s)
    ensures var sent := SentVersions(s.outbound);
            AllIdle(s) ==> s.newest == if sent == [] then None else Some(sent[|sent| - 1])
  {
  }

  /** Once no worker is busy, the version sent last is the greatest of all versions handled: no version that
      was new is held back. */
  lemma {:induction false} GreatestVersionSent(count: nat, actions: seq<Action>)
    ensures var s, sent := Exec(count, actions), SentVersions(Exec(count, actions).outbound);
            && StrictlyIncreasing(sent)
            && (AllIdle(s) ==>
                  IsGreatest(if sent == [] then None else Some(sent[|sent| - 1]), VersionsOf(count, actions)))
  {
    NewestIsGreatest(count, actions);
    Reachable(count, actions);
    LastSentIsNewest(Exec(count, actions));
  }
}
