/** How many events a reconnecting listener forwards again. The channel of reports outlives the
    connections, so the registry may trail several of them. */
module ListenerRepeats {
  import opened SseTypes
  import opened ListenerResume

  /** The reports that have not reached the registry yet, oldest first. */
  function InTransit(s: State): seq<nat> {
    (if s.inHand.Some? then [s.inHand.value] else []) + s.channel
  }

  /** Either all reports of a run are still in transit, or the reports in transit are the last of them
      and the registry holds the one before. */
  ghost predicate Trails(run: seq<nat>, transit: seq<nat>, registry: Option<nat>) {
    if |run| <= |transit| then transit[|transit| - |run|..] == run
    else transit == run[|run| - |transit|..] && registry == Some(run[|run| - |transit| - 1])
  }

  lemma {:induction false} TrailsReport(run: seq<nat>, transit: seq<nat>, registry: Option<nat>, v: nat)
    requires Trails(run, transit, registry)
    ensures Trails(run + [v], transit + [v], registry)
  {
  }

  lemma {:induction false} TrailsStore(run: seq<nat>, transit: seq<nat>, registry: Option<nat>)
    requires Trails(run, transit, registry) && transit != []
    ensures Trails(run, transit[1..], Some(transit[0]))
  {
  }

  ghost predicate Bounds(s: State) {
    && s.began <= s.reached <= |s.ids|
    && |s.channel| <= CHANNEL_SIZE
    && (s.connection.Online? ==>
          s.reached == if s.connection.reported then s.connection.next + 1 else s.connection.next)
  }

  /** The latest connection reported began..reached without a break, and the registry trails it. */
  ghost predicate LagInv(s: State) {
    Bounds(s) && Trails(s.ids[s.began..s.reached], InTransit(s), s.registry)
  }

  lemma {:induction false} ReportKeepsLag(s: State)
    requires LagInv(s)
    ensures LagInv(Do(s, Report))
  {
    var t := Do(s, Report);
    if t != s {
      assert t.ids[t.began..t.reached] == s.ids[s.began..s.reached] + [s.ids[s.reached]];
      assert InTransit(t) == InTransit(s) + [s.ids[s.reached]];
      TrailsReport(s.ids[s.began..s.reached], InTransit(s), s.registry, s.ids[s.reached]);
    }
  }

  lemma {:induction false} StoreKeepsLag(s: State)
    requires LagInv(s)
    ensures LagInv(Do(s, Store))
  {
    var t := Do(s, Store);
    if t != s {
      assert InTransit(t) == InTransit(s)[1..] && InTransit(s)[0] == s.inHand.value;
      TrailsStore(s.ids[s.began..s.reached], InTransit(s), s.registry);
    }
  }

  lemma {:induction false} ReceiveKeepsLag(s: State)
    requires LagInv(s)
    ensures LagInv(Do(s, Receive))
  {
    assert InTransit(Do(s, Receive)) == InTransit(s);
  }

  lemma {:induction false} ConnectKeepsLag(s: State)
    requires s.oldest <= |s.ids| && LagInv(s)
    ensures LagInv(Do(s, Connect))
  {
    var t := Do(s, Connect);
    if t != s {
      assert t.ids[t.began..t.reached] == [];
    }
  }

  lemma {:induction false} EmitKeepsLag(s: State, id: nat)
    requires LagInv(s)
    ensures LagInv(Do(s, Emit(id)))
  {
    assert Do(s, Emit(id)).ids[s.began..s.reached] == s.ids[s.began..s.reached];
  }

  lemma {:induction false} StepKeepsLag(s: State, a: Action)
    requires s.oldest <= |s.ids| && LagInv(s)
    ensures LagInv(Do(s, a))
  {
    match a {
      case Report => ReportKeepsLag(s);
      case Receive => ReceiveKeepsLag(s);
      case Store => StoreKeepsLag(s);
      case Connect => ConnectKeepsLag(s);
      case Emit(id) => EmitKeepsLag(s, id);
      case _ =>
    }
  }

  lemma {:induction false} LagReachable(actions: seq<Action>)
    ensures LagInv(Exec(actions))
  {
    if actions != [] {
      var before := actions[..|actions| - 1];
      LagReachable(before);
      Reachable(before);
      StepKeepsLag(Exec(before), actions[|actions| - 1]);
    }
  }

  lemma {:induction false} AtOrBehind(ids: seq<nat>, p: nat)
    requires Increasing(ids) && p < |ids|
    ensures FirstAtLeast(ids, ids[p]) == p
  {
  }

  /** Where a connection made now resumes. */
  function Resume(s: State): nat {
    ResumesAt(s.ids, s.oldest, s.registry)
  }

  // ----- Events of the latest connection -----------------------------------------------------

  /** Where a connection made now would start to repeat what the latest one reported. */
  function RepeatsFrom(s: State): nat {
    var start := Resume(s);
    if start <= s.began then s.began else start
  }

  /** Once the registry holds a report of the latest connection, it is as far behind as reports are in transit. */
  lemma {:induction false} RegistryInRun(s: State)
    requires LagInv(s) && Increasing(s.ids) && s.reached - s.began > |InTransit(s)|
    ensures Resume(s) >= s.reached - |InTransit(s)| - 1 >= s.began
  {
    var run, transit := s.ids[s.began..s.reached], InTransit(s);
    var p := s.reached - |transit| - 1;
    assert run[|run| - |transit| - 1] == s.ids[p];
    AtOrBehind(s.ids, p);
  }

  lemma {:induction false} TransitBound(s: State)
    requires Bounds(s)
    ensures |InTransit(s)| <= CHANNEL_SIZE + 1
  {
  }

  /** Of the events the latest connection reported or forwarded, a connection made now reports and forwards
      at most 12 again: the ten whose reports wait in the channel, the one in hand, and the one registered. */
  lemma {:induction false} RepeatsOfLatestBounded(actions: seq<Action>)
    ensures var s := Exec(actions); s.reached <= RepeatsFrom(s) + 12
  {
    LagReachable(actions);
    Reachable(actions);
    var s := Exec(actions);
    TransitBound(s);
    if s.reached - s.began > |InTransit(s)| {
      RegistryInRun(s);
    }
  }

  // ----- Events of all connections -----------------------------------------------------------

  /** One past the furthest position reported so far. */
  function Furthest(s: State): nat {
    if s.far <= s.reached then s.reached else s.far
  }

  /** A connection is only made with at most `limit` reports in transit. */
  predicate MayDo(s: State, a: Action, limit: nat) {
    a.Connect? && s.connection.Offline? ==> |InTransit(s)| <= limit
  }

  ghost predicate ConnectsWithin(actions: seq<Action>, limit: nat) {
    actions != [] ==>
      var before := actions[..|actions| - 1];
      ConnectsWithin(before, limit) && MayDo(Exec(before), actions[|actions| - 1], limit)
  }

  /** Where the reports in transit would resume. */
  function Points(s: State): seq<nat> {
    PointsOf(s.ids, s.oldest, InTransit(s))
  }

  function PointsOf(ids: seq<nat>, oldest: nat, transit: seq<nat>): seq<nat> {
    seq(|transit|, i requires 0 <= i < |transit| => ResumesAt(ids, oldest, Some(transit[i])))
  }

  lemma {:induction false} PointsOne(ids: seq<nat>, oldest: nat, transit: seq<nat>, v: nat)
    ensures PointsOf(ids, oldest, transit + [v]) == PointsOf(ids, oldest, transit) + [ResumesAt(ids, oldest, Some(v))]
  {
  }

  lemma {:induction false} PointsRest(ids: seq<nat>, oldest: nat, transit: seq<nat>)
    requires transit != []
    ensures PointsOf(ids, oldest, transit[1..]) == PointsOf(ids, oldest, transit)[1..]
    ensures PointsOf(ids, oldest, transit)[0] == ResumesAt(ids, oldest, Some(transit[0]))
  {
  }

  /** While the `run` reports of the latest connection are all in transit, at most one older report is, and
      neither that one nor the registry would resume more than two positions before `far`. */
  ghost predicate Near(far: nat, began: nat, run: int, registered: nat, points: seq<nat>, oldest: nat) {
    && began + 2 >= far
    && (began < far || began <= oldest)
    && (run <= |points| ==>
          && |points| - run <= 1
          && registered + 2 >= far
          && (|points| - run == 1 ==> 0 < |points| && points[0] + 2 >= far))
  }

  ghost predicate NearInv(s: State) {
    Near(s.far, s.began, s.reached - s.began, Resume(s), Points(s), s.oldest)
  }

  lemma {:induction false} NearReport(far: nat, began: nat, run: nat, registered: nat, points: seq<nat>, oldest: nat, p: nat)
    requires Near(far, began, run, registered, points, oldest)
    ensures Near(far, began, run + 1, registered, points + [p], oldest)
  {
  }

  lemma {:induction false} NearStore(far: nat, began: nat, run: nat, registered: nat, points: seq<nat>, oldest: nat)
    requires Near(far, began, run, registered, points, oldest) && points != []
    ensures Near(far, began, run, points[0], points[1..], oldest)
  {
  }

  lemma {:induction false} NearGrows(far: nat, began: nat, run: nat, registered: nat, points: seq<nat>, oldest: nat,
                                     registered': nat, points': seq<nat>, oldest': nat)
    requires Near(far, began, run, registered, points, oldest)
    requires registered <= registered' && oldest <= oldest' && |points| == |points'|
    requires forall i | 0 <= i < |points| :: points[i] <= points'[i]
    ensures Near(far, began, run, registered', points', oldest')
  {
  }

  /** Later events and evictions never move a resume point back. */
  lemma {:induction false} ResumesLater(ids: seq<nat>, oldest: nat, ids': seq<nat>, oldest': nat, v: Option<nat>)
    requires ids <= ids' && oldest <= oldest'
    ensures ResumesAt(ids, oldest, v) <= ResumesAt(ids', oldest', v)
  {
    FirstMovesOn(ids, ids', if v.Some? then v.value else 0);
  }

  lemma {:induction false} PointsLater(ids: seq<nat>, oldest: nat, ids': seq<nat>, oldest': nat, transit: seq<nat>)
    requires ids <= ids' && oldest <= oldest'
    ensures forall i | 0 <= i < |transit| :: PointsOf(ids, oldest, transit)[i] <= PointsOf(ids', oldest', transit)[i]
  {
    forall i | 0 <= i < |transit|
      ensures PointsOf(ids, oldest, transit)[i] <= PointsOf(ids', oldest', transit)[i]
    {
      ResumesLater(ids, oldest, ids', oldest', Some(transit[i]));
    }
  }

  lemma {:induction false} FirstMovesOn(ids: seq<nat>, more: seq<nat>, start: nat)
    requires ids <= more
    ensures FirstAtLeast(ids, start) <= FirstAtLeast(more, start)
    ensures FirstAtLeast(ids, start) < |ids| ==> FirstAtLeast(ids, start) == FirstAtLeast(more, start)
  {
    assert forall i | 0 <= i < |ids| :: more[i] == ids[i];
  }

  /** Steps other than reports, stores and connects only let the node move on. */
  ghost predicate OnlyLater(s: State, t: State) {
    && t.far == s.far && t.began == s.began && t.reached == s.reached && t.registry == s.registry
    && InTransit(t) == InTransit(s) && s.ids <= t.ids && s.oldest <= t.oldest
  }

  lemma {:induction false} OthersOnlyLater(s: State, a: Action)
    requires !a.Report? && !a.Store? && !a.Connect?
    ensures OnlyLater(s, Do(s, a))
  {
  }

  lemma {:induction false} NearLater(s: State, t: State)
    requires Bounds(s) && NearInv(s) && OnlyLater(s, t)
    ensures NearInv(t)
  {
    ResumesLater(s.ids, s.oldest, t.ids, t.oldest, s.registry);
    PointsLater(s.ids, s.oldest, t.ids, t.oldest, InTransit(s));
    NearGrows(s.far, s.began, s.reached - s.began, Resume(s), Points(s), s.oldest, Resume(t), Points(t), t.oldest);
  }

  lemma {:induction false} ReportKeepsNear(s: State)
    requires Bounds(s) && NearInv(s)
    ensures NearInv(Do(s, Report))
  {
    var t := Do(s, Report);
    if t != s {
      var v := s.ids[s.reached];
      assert InTransit(t) == InTransit(s) + [v];
      PointsOne(s.ids, s.oldest, InTransit(s), v);
      NearReport(s.far, s.began, s.reached - s.began, Resume(s), Points(s), s.oldest, ResumesAt(s.ids, s.oldest, Some(v)));
    }
  }

  lemma {:induction false} StoreTakesFirst(s: State)
    requires s.inHand.Some?
    ensures InTransit(s) != [] && Do(s, Store).registry == Some(InTransit(s)[0])
    ensures InTransit(Do(s, Store)) == InTransit(s)[1..]
  {
  }

  lemma {:induction false} StoreKeepsNear(s: State)
    requires Bounds(s) && NearInv(s)
    ensures NearInv(Do(s, Store))
  {
    if s.inHand.Some? {
      StoreTakesFirst(s);
      PointsRest(s.ids, s.oldest, InTransit(s));
      NearStore(s.far, s.began, s.reached - s.began, Resume(s), Points(s), s.oldest);
    }
  }

  /** With at most one report in transit, neither it nor the registry would resume more than two positions
      before the furthest one. */
  ghost predicate NearFurthest(s: State) {
    && Resume(s) + 2 >= Furthest(s)
    && (Points(s) != [] ==> Points(s)[0] + 2 >= Furthest(s))
  }

  lemma {:induction false} LastInTransit(s: State)
    requires Increasing(s.ids) && LagInv(s) && |InTransit(s)| == 1 && s.began < s.reached
    ensures Points(s)[0] >= s.reached - 1
  {
    var run, transit := s.ids[s.began..s.reached], InTransit(s);
    assert transit[0] == run[|run| - 1] == s.ids[s.reached - 1];
    AtOrBehind(s.ids, s.reached - 1);
  }

  lemma {:induction false} NearWhenFew(s: State)
    requires Increasing(s.ids) && LagInv(s) && NearInv(s) && |InTransit(s)| <= 1
    ensures NearFurthest(s)
  {
    if s.began < s.reached && InTransit(s) != [] {
      LastInTransit(s);
    }
    if s.reached - s.began > |InTransit(s)| {
      RegistryInRun(s);
    }
    AtLeastOldest(s);
  }

  lemma {:induction false} AtLeastOldest(s: State)
    ensures Resume(s) >= s.oldest
    ensures forall i | 0 <= i < |Points(s)| :: Points(s)[i] >= s.oldest
  {
  }

  /** The registered report and those in transit. */
  function Reports(s: State): seq<nat> {
    (if s.registry.Some? then [s.registry.value] else []) + InTransit(s)
  }

  /** Reports lie before the furthest position. */
  ghost predicate AllBehind(ids: seq<nat>, reports: seq<nat>, furthest: nat) {
    forall i | 0 <= i < |reports| :: FirstAtLeast(ids, reports[i]) < furthest
  }

  ghost predicate BehindInv(s: State) {
    && AllBehind(s.ids, Reports(s), Furthest(s))
    && (forall j | j in s.forwarded :: j < Furthest(s))
    && s.far <= |s.ids|
  }

  /** What a new connection begins with. */
  lemma {:induction false} ConnectBegins(s: State)
    requires s.connection.Offline? && BehindInv(s)
    ensures var t := Do(s, Connect);
            && t.began == t.reached == Resume(s) && t.far == Furthest(s)
            && t.ids == s.ids && t.oldest == s.oldest && t.registry == s.registry
            && InTransit(t) == InTransit(s) && Points(t) == Points(s)
            && (t.began < t.far || t.began <= t.oldest)
  {
    assert s.registry.Some? ==> Reports(s)[0] == s.registry.value;
  }

  lemma {:induction false} ConnectKeepsNear(s: State)
    requires Increasing(s.ids) && LagInv(s) && NearInv(s) && BehindInv(s) && MayDo(s, Connect, 1)
    ensures NearInv(Do(s, Connect))
  {
    if s.connection.Offline? {
      NearWhenFew(s);
      ConnectBegins(s);
    }
  }

  lemma {:induction false} StepKeepsNear(s: State, a: Action)
    requires Increasing(s.ids) && LagInv(s) && NearInv(s) && BehindInv(s) && MayDo(s, a, 1)
    ensures NearInv(Do(s, a))
  {
    match a {
      case Report => ReportKeepsNear(s);
      case Store => StoreKeepsNear(s);
      case Connect => ConnectKeepsNear(s);
      case _ => OthersOnlyLater(s, a); NearLater(s, Do(s, a));
    }
  }

  /** Reports stay behind the furthest position while that moves on. */
  lemma {:induction false} BehindKept(ids: seq<nat>, furthest: nat, ids': seq<nat>, furthest': nat, reports: seq<nat>)
    requires AllBehind(ids, reports, furthest) && ids <= ids' && furthest <= |ids| && furthest <= furthest'
    ensures AllBehind(ids', reports, furthest')
  {
    forall i | 0 <= i < |reports|
      ensures FirstAtLeast(ids', reports[i]) < furthest'
    {
      FirstMovesOn(ids, ids', reports[i]);
    }
  }

  lemma {:induction false} BehindOne(ids: seq<nat>, reports: seq<nat>, v: nat, furthest: nat)
    requires AllBehind(ids, reports, furthest) && FirstAtLeast(ids, v) < furthest
    ensures AllBehind(ids, reports + [v], furthest)
  {
  }

  lemma {:induction false} BehindRest(ids: seq<nat>, reports: seq<nat>, n: nat, furthest: nat)
    requires AllBehind(ids, reports, furthest) && n <= |reports|
    ensures AllBehind(ids, reports[n..], furthest)
  {
  }

  lemma {:induction false} StoreKeepsBehind(s: State)
    requires BehindInv(s)
    ensures BehindInv(Do(s, Store))
  {
    if s.inHand.Some? {
      var t, n := Do(s, Store), if s.registry.Some? then 1 else 0;
      assert Reports(t) == Reports(s)[n..];
      BehindRest(s.ids, Reports(s), n, Furthest(s));
    }
  }

  lemma {:induction false} ReportKeepsBehind(s: State)
    requires Increasing(s.ids) && Bounds(s) && BehindInv(s)
    ensures BehindInv(Do(s, Report))
  {
    var t := Do(s, Report);
    if t != s {
      var next := s.connection.next;
      assert Reports(t) == Reports(s) + [s.ids[next]];
      AtOrBehind(s.ids, next);
      BehindKept(s.ids, Furthest(s), t.ids, Furthest(t), Reports(s));
      BehindOne(t.ids, Reports(s), s.ids[next], Furthest(t));
    }
  }

  lemma {:induction false} OtherKeepsBehind(s: State, a: Action)
    requires s.oldest <= |s.ids| && Bounds(s) && BehindInv(s) && !a.Report? && !a.Store?
    ensures BehindInv(Do(s, a))
  {
    var t := Do(s, a);
    assert Reports(t) == Reports(s);
    MovesOn(s, a);
    BehindKept(s.ids, Furthest(s), t.ids, Furthest(t), Reports(s));
  }

  lemma {:induction false} MovesOn(s: State, a: Action)
    requires s.oldest <= |s.ids| && Bounds(s) && s.far <= |s.ids| && !a.Report?
    ensures var t := Do(s, a);
            && s.ids <= t.ids && Furthest(s) <= Furthest(t) && t.far <= |t.ids|
            && forall j | j in t.forwarded && j !in s.forwarded :: j < Furthest(t)
  {
  }

  lemma {:induction false} BehindReachable(actions: seq<Action>)
    ensures BehindInv(Exec(actions))
  {
    if actions != [] {
      var before, a := actions[..|actions| - 1], actions[|actions| - 1];
      BehindReachable(before);
      Reachable(before);
      LagReachable(before);
      if a.Report? {
        ReportKeepsBehind(Exec(before));
      } else if a.Store? {
        StoreKeepsBehind(Exec(before));
      } else {
        OtherKeepsBehind(Exec(before), a);
      }
    }
  }

  lemma {:induction false} NearReachable(actions: seq<Action>)
    requires ConnectsWithin(actions, 1)
    ensures NearInv(Exec(actions))
  {
    if actions != [] {
      var before := actions[..|actions| - 1];
      NearReachable(before);
      Reachable(before);
      LagReachable(before);
      BehindReachable(before);
      StepKeepsNear(Exec(before), actions[|actions| - 1]);
    }
  }

  /** A connection made now forwards at most `bound` of all the events forwarded so far again. */
  ghost predicate RepeatsAtMost(s: State, bound: nat) {
    forall j | j in s.forwarded :: j < Resume(s) + bound
  }

  lemma {:induction false} AllRepeatsBounded(actions: seq<Action>)
    requires ConnectsWithin(actions, 1)
    ensures RepeatsAtMost(Exec(actions), 12)
  {
    Reachable(actions);
    LagReachable(actions);
    BehindReachable(actions);
    NearReachable(actions);
    FurthestBound(Exec(actions));
  }

  lemma {:induction false} FurthestBound(s: State)
    requires Increasing(s.ids) && LagInv(s) && NearInv(s)
    ensures Furthest(s) <= Resume(s) + 12
  {
    TransitBound(s);
    AtLeastOldest(s);
    if s.reached - s.began > |InTransit(s)| {
      RegistryInRun(s);
    }
  }

  // ----- Runs that repeat much ---------------------------------------------------------------

  /** The node has emitted the ids below m, those below f were forwarded, and the registry is idle. */
  ghost predicate Stand(s: State, m: nat, f: nat, registry: Option<nat>, channel: seq<nat>) {
    && s.ids == seq(m, (i: nat) => i) && s.oldest == 0
    && s.inHand.None? && s.registry == registry && s.channel == channel
    && forall j: nat | j < f :: j in s.forwarded
  }

  /** A run that leads there. */
  ghost predicate Leads(actions: seq<Action>, limit: nat, m: nat, f: nat, registry: Option<nat>, channel: seq<nat>) {
    ConnectsWithin(actions, limit) && Stand(Exec(actions), m, f, registry, channel)
  }

  lemma {:induction false} Then(actions: seq<Action>, a: Action, limit: nat) returns (more: seq<Action>)
    requires ConnectsWithin(actions, limit) && MayDo(Exec(actions), a, limit)
    ensures ConnectsWithin(more, limit) && Exec(more) == Do(Exec(actions), a)
  {
    more := actions + [a];
    ExecOne(actions, a);
    assert more[..|actions|] == actions;
  }

  lemma {:induction false} FirstIsSelf(m: nat, v: nat)
    requires v < m
    ensures FirstAtLeast(seq(m, (i: nat) => i), v) == v
  {
    var ids := seq(m, (i: nat) => i);
    assert ids[v] == v && forall i | 0 <= i < m :: ids[i] == i;
  }

  /** The registry takes in the next report. */
  lemma {:induction false} TakeIn(actions: seq<Action>, limit: nat, m: nat, f: nat, registry: Option<nat>, channel: seq<nat>)
    returns (more: seq<Action>)
    requires channel != [] && Leads(actions, limit, m, f, registry, channel)
    ensures Leads(more, limit, m, f, Some(channel[0]), channel[1..])
    ensures Exec(more).connection == Exec(actions).connection
  {
    more := Then(actions, Receive, limit);
    more := Then(more, Store, limit);
  }

  lemma {:induction false} ConnectNow(actions: seq<Action>, limit: nat, m: nat, f: nat, registry: Option<nat>, channel: seq<nat>)
    returns (more: seq<Action>)
    requires Leads(actions, limit, m, f, registry, channel) && Exec(actions).connection.Offline?
    requires |channel| <= limit && m > 0 && (registry.Some? ==> registry.value < m)
    ensures Leads(more, limit, m, f, registry, channel)
    ensures Exec(more).connection == Online(if registry.Some? then registry.value else 0, false)
  {
    FirstIsSelf(m, if registry.Some? then registry.value else 0);
    more := Then(actions, Connect, limit);
  }

  lemma {:induction false} ReportStands(s: State, m: nat, f: nat, registry: Option<nat>, channel: seq<nat>, next: nat)
    requires next < m && |channel| < CHANNEL_SIZE && Stand(s, m, f, registry, channel) && s.connection == Online(next, false)
    ensures var t := Do(s, Report); Stand(t, m, f, registry, channel + [next]) && t.connection == Online(next, true)
  {
    assert s.ids[next] == next;
  }

  lemma {:induction false} ForwardStands(s: State, m: nat, f: nat, registry: Option<nat>, channel: seq<nat>, next: nat)
    requires next <= f && Stand(s, m, f, registry, channel) && s.connection == Online(next, true)
    ensures var t := Do(s, Forward(true));
            Stand(t, m, if f == next then f + 1 else f, registry, channel) && t.connection == Online(next + 1, false)
  {
  }

  lemma {:induction false} PassOn(actions: seq<Action>, limit: nat, m: nat, f: nat, registry: Option<nat>, channel: seq<nat>, next: nat)
    returns (more: seq<Action>)
    requires next < m && next <= f && |channel| < CHANNEL_SIZE && Leads(actions, limit, m, f, registry, channel)
    requires Exec(actions).connection == Online(next, false)
    ensures Leads(more, limit, m, if f == next then f + 1 else f, registry, channel + [next])
    ensures Exec(more).connection == Online(next + 1, false)
  {
    ReportStands(Exec(actions), m, f, registry, channel, next);
    more := Then(actions, Report, limit);
    ForwardStands(Exec(more), m, f, registry, channel + [next], next);
    more := Then(more, Forward(true), limit);
  }

  lemma {:induction false} HangUp(actions: seq<Action>, limit: nat, m: nat, f: nat, registry: Option<nat>, channel: seq<nat>)
    returns (more: seq<Action>)
    requires Leads(actions, limit, m, f, registry, channel)
    ensures Leads(more, limit, m, f, registry, channel) && Exec(more).connection.Offline?
  {
    more := Then(actions, Drop, limit);
  }

  lemma {:induction false} EmitStands(s: State, m: nat, f: nat, registry: Option<nat>, channel: seq<nat>)
    requires Stand(s, m, f, registry, channel)
    ensures var t := Do(s, Emit(m)); Stand(t, m + 1, f, registry, channel) && t.connection == s.connection
  {
    assert s.ids + [m] == seq(m + 1, (i: nat) => i);
  }

  lemma {:induction false} EmitNext(actions: seq<Action>, limit: nat, m: nat, f: nat, registry: Option<nat>, channel: seq<nat>)
    returns (more: seq<Action>)
    requires Leads(actions, limit, m, f, registry, channel)
    ensures Leads(more, limit, m + 1, f, registry, channel) && Exec(more).connection == Exec(actions).connection
  {
    EmitStands(Exec(actions), m, f, registry, channel);
    more := Then(actions, Emit(m), limit);
  }

  /** A connection that forwards only the event it resumed from. */
  lemma {:induction false} Flicker(actions: seq<Action>, limit: nat, m: nat, registered: nat, channel: seq<nat>)
    returns (more: seq<Action>)
    requires registered < m && |channel| < CHANNEL_SIZE && |channel| <= limit
    requires Leads(actions, limit, m, m, Some(registered), channel) && Exec(actions).connection.Offline?
    ensures Leads(more, limit, m, m, Some(registered), channel + [registered]) && Exec(more).connection.Offline?
  {
    more := ConnectNow(actions, limit, m, m, Some(registered), channel);
    more := PassOn(more, limit, m, m, Some(registered), channel, registered);
    more := HangUp(more, limit, m, m, Some(registered), channel + [registered]);
  }

  /** A connection that resumes from the newest event, n, and forwards one more. */
  lemma {:induction false} Advance(actions: seq<Action>, n: nat) returns (more: seq<Action>)
    requires Leads(actions, 2, n + 1, n + 1, Some(n), [0]) && Exec(actions).connection.Offline?
    ensures Leads(more, 2, n + 2, n + 2, Some(n), [0, n, n + 1]) && Exec(more).connection.Offline?
  {
    more := EmitNext(actions, 2, n + 1, n + 1, Some(n), [0]);
    more := ConnectNow(more, 2, n + 2, n + 1, Some(n), [0]);
    more := PassOn(more, 2, n + 2, n + 1, Some(n), [0], n);
    assert [0] + [n] == [0, n] && [0, n] + [n + 1] == [0, n, n + 1];
    more := PassOn(more, 2, n + 2, n + 1, Some(n), [0, n], n + 1);
    more := HangUp(more, 2, n + 2, n + 2, Some(n), [0, n, n + 1]);
  }

  /** The node has emitted n events and nothing else has happened. */
  lemma {:induction false} EmitMany(n: nat, limit: nat) returns (actions: seq<Action>)
    ensures Leads(actions, limit, n, 0, None, []) && Exec(actions).connection.Offline?
  {
    if n == 0 {
      actions := [];
      assert INITIAL.ids == seq(0, (i: nat) => i);
    } else {
      actions := EmitMany(n - 1, limit);
      actions := EmitNext(actions, limit, n - 1, 0, None, []);
    }
  }

  /** The first of n events is forwarded and registered. */
  lemma {:induction false} FirstOf(n: nat, limit: nat) returns (actions: seq<Action>)
    requires n > 0
    ensures Leads(actions, limit, n, 1, Some(0), []) && Exec(actions).connection == Online(1, false)
  {
    actions := EmitMany(n, limit);
    actions := ConnectNow(actions, limit, n, 0, None, []);
    actions := PassOn(actions, limit, n, 0, None, [], 0);
    assert [] + [0] == [0] && [0][1..] == [];
    actions := TakeIn(actions, limit, n, 1, None, [0]);
  }

  /** The report of event 0 can be kept in the channel for ever while newer events are forwarded, by
      connections made with at most two reports in transit. */
  lemma {:induction false} KeepOldReport(n: nat) returns (actions: seq<Action>)
    ensures Leads(actions, 2, n + 1, n + 1, Some(n), [0]) && Exec(actions).connection.Offline?
  {
    if n == 0 {
      actions := FirstOf(1, 2);
      actions := HangUp(actions, 2, 1, 1, Some(0), []);
      actions := Flicker(actions, 2, 1, 0, []);
      assert [] + [0] == [0];
    } else {
      actions := KeepOldReport(n - 1);
      actions := Advance(actions, n - 1);
      actions := TakeIn(actions, 2, n + 1, n + 1, Some(n - 1), [0, n - 1, n]);
      assert [0, n - 1, n][1..] == [n - 1, n] && [n - 1, n] + [0] == [n - 1, n, 0];
      actions := Flicker(actions, 2, n + 1, 0, [n - 1, n]);
      actions := TakeIn(actions, 2, n + 1, n + 1, Some(0), [n - 1, n, 0]);
      assert [n - 1, n, 0][1..] == [n, 0] && [n, 0][1..] == [0];
      actions := TakeIn(actions, 2, n + 1, n + 1, Some(n - 1), [n, 0]);
    }
  }

  /** With connections made while two reports are in transit there is no bound: for every n there is such a
      run after which n + 1 events were forwarded and a connection made now forwards them all again. */
  lemma {:induction false} RepeatsUnbounded(n: nat) returns (actions: seq<Action>)
    ensures ConnectsWithin(actions, 2)
    ensures var s := Exec(actions);
            && |s.ids| == n + 1 && (forall j: nat | j <= n :: j in s.forwarded)
            && s.connection.Offline? && Do(s, Connect).connection == Online(0, false)
  {
    actions := KeepOldReport(n);
    actions := TakeIn(actions, 2, n + 1, n + 1, Some(n), [0]);
    FirstIsSelf(n + 1, 0);
  }

  function OneTo(k: nat): (ids: seq<nat>)
    ensures |ids| == k
  {
    if k == 0 then [] else OneTo(k - 1) + [k]
  }

  /** The reports of events 1 to k wait in the channel, that of event 0 is registered. */
  lemma {:induction false} FillChannel(n: nat, k: nat, limit: nat) returns (actions: seq<Action>)
    requires k < n && k <= CHANNEL_SIZE
    ensures Leads(actions, limit, n, k + 1, Some(0), OneTo(k))
    ensures Exec(actions).connection == Online(k + 1, false)
  {
    if k == 0 {
      actions := FirstOf(n, limit);
    } else {
      actions := FillChannel(n, k - 1, limit);
      actions := PassOn(actions, limit, n, k, Some(0), OneTo(k - 1), k);
    }
  }

  lemma {:induction false} OneInHand(s: State, channel: seq<nat>)
    requires Stand(s, 12, 11, Some(0), channel) && |channel| == CHANNEL_SIZE && s.connection == Online(11, false)
    ensures var t := Do(Do(Do(s, Receive), Report), Forward(true));
            t.ids == s.ids && t.oldest == 0 && t.registry == Some(0) && 11 in t.forwarded
  {
  }

  /** A single connection is enough for 12 repeats: ten reports in the channel, one in hand, one registered. */
  lemma {:induction false} RepeatsTwelve(limit: nat) returns (actions: seq<Action>)
    ensures ConnectsWithin(actions, limit)
    ensures Resume(Exec(actions)) == 0 && 11 in Exec(actions).forwarded
  {
    actions := FillChannel(12, 10, limit);
    OneInHand(Exec(actions), OneTo(10));
    FirstIsSelf(12, 0);
    actions := Then(actions, Receive, limit);
    actions := Then(actions, Report, limit);
    actions := Then(actions, Forward(true), limit);
  }

  // ----- The exact condition -----------------------------------------------------------------

  /** Whether a connection made now forwards at most `bound` events again after every run whose connections
      were made with at most `limit` reports in transit. */
  ghost predicate RepeatsWithin(limit: nat, bound: nat) {
    forall actions: seq<Action> | ConnectsWithin(actions, limit) :: RepeatsAtMost(Exec(actions), bound)
  }

  lemma {:induction false} LimitLoosens(actions: seq<Action>, limit: nat, more: nat)
    requires ConnectsWithin(actions, limit) && limit <= more
    ensures ConnectsWithin(actions, more)
  {
    if actions != [] {
      LimitLoosens(actions[..|actions| - 1], limit, more);
    }
  }

  /** Repeats are bounded if and only if connections are made with at most one report in transit, and then
      the least bound is 12. */
  lemma {:induction false} RepeatsExactness(limit: nat, bound: nat)
    ensures RepeatsWithin(limit, bound) <==> limit <= 1 && bound >= 12
  {
    if limit <= 1 && bound >= 12 {
      forall actions: seq<Action> | ConnectsWithin(actions, limit)
        ensures RepeatsAtMost(Exec(actions), bound)
      {
        LimitLoosens(actions, limit, 1);
        AllRepeatsBounded(actions);
      }
    } else if bound < 12 {
      var actions := RepeatsTwelve(limit);
      assert !RepeatsAtMost(Exec(actions), bound);
    } else {
      var actions := RepeatsUnbounded(bound);
      LimitLoosens(actions, 2, limit);
      assert bound in Exec(actions).forwarded;
      assert !RepeatsAtMost(Exec(actions), bound);
    }
  }
}
