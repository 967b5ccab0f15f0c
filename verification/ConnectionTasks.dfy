/** The start barrier of a listener's connection tasks: all of them start handling events, or none.

    Each transition is one atomic access of `register_success`, `register_failure` or `wait`: an
    operation on one of the two atomics or on the one-permit notifier. Tasks interleave freely. */
module ConnectionTasks {
  import opened SseTypes

  /** The next atomic access of a task. */
  datatype Location =
    | Connecting          // has not registered yet
    | CheckFailure        // register_success: counted, result not reached, loads `failure`
    | NotifySuccess       // register_success: about to notify
    | NotifyFailure       // register_failure: flag stored, about to notify
    | LoadFailure         // wait: loads `failure`
    | LoadSuccesses       // wait: loads `successes`
    | Await               // wait: polls the notifier
    | Parked              // wait: asleep until notified
    | Renotify            // wait: woken, about to pass the notification on
    | Returned(result: bool)
    | Gone                // failed to connect and does not wait

  datatype Outcome = Undecided | Succeeded | Failed

  /** A task and the outcome it registered. */
  datatype Task = Task(at: Location, outcome: Outcome)

  datatype State = State(successes: nat, failure: bool, permit: bool, tasks: seq<Task>)

  /** Task i takes its next step. `connected` resolves a connection attempt, `waits` says whether a
      task that failed to connect goes on to wait, `wakes` is the sleeper a notification picks. */
  datatype Action = Action(i: nat, connected: bool, waits: bool, wakes: nat)

  function Init(total: nat): State {
    State(0, false, false, seq(total, _ => Task(Connecting, Undecided)))
  }

  predicate HasParked(s: State) {
    exists j | 0 <= j < |s.tasks| :: s.tasks[j].at == Parked
  }

  predicate IsNotifying(at: Location) {
    at.NotifySuccess? || at.NotifyFailure? || at.Renotify?
  }

  predicate Enabled(s: State, a: Action) {
    && a.i < |s.tasks|
    && var at := s.tasks[a.i].at;
       && !at.Returned? && !at.Gone? && !at.Parked?
       && (IsNotifying(at) && HasParked(s) ==> a.wakes < |s.tasks| && s.tasks[a.wakes].at == Parked)
  }

  function Move(s: State, i: nat, at: Location): State
    requires i < |s.tasks|
  {
    s.(tasks := s.tasks[i := s.tasks[i].(at := at)])
  }

  /** notify_one: wakes one sleeper, or stores the permit if nobody sleeps. */
  function NotifyOne(s: State, wakes: nat): State
    requires HasParked(s) ==> wakes < |s.tasks|
  {
    if HasParked(s) then Move(s, wakes, Renotify) else s.(permit := true)
  }

  function Next(s: State, a: Action): (t: State)
    requires Enabled(s, a)
    ensures |t.tasks| == |s.tasks|
  {
    var total := |s.tasks|;
    match s.tasks[a.i].at
    case Connecting =>
      if a.connected then
        var t := s.(successes := s.successes + 1);
        t.(tasks := s.tasks[a.i := Task(if t.successes >= total then NotifySuccess else CheckFailure, Succeeded)])
      else
        s.(failure := true, tasks := s.tasks[a.i := Task(NotifyFailure, Failed)])
    case CheckFailure => Move(s, a.i, if s.failure then NotifySuccess else LoadFailure)
    case NotifySuccess => Move(NotifyOne(s, a.wakes), a.i, LoadFailure)
    case NotifyFailure => Move(NotifyOne(s, a.wakes), a.i, if a.waits then LoadFailure else Gone)
    case LoadFailure => Move(s, a.i, if s.failure then Returned(false) else LoadSuccesses)
    case LoadSuccesses => Move(s, a.i, if s.successes >= total then Returned(true) else Await)
    case Await => if s.permit then Move(s.(permit := false), a.i, Renotify) else Move(s, a.i, Parked)
    case Renotify => Move(NotifyOne(s, a.wakes), a.i, LoadFailure)
    case _ => s
  }

  /** The states reached by a sequence of enabled actions. */
  ghost predicate IsRun(total: nat, actions: seq<Action>)
    decreases |actions|, 0
  {
    actions != [] ==>
      var before := actions[..|actions| - 1];
      IsRun(total, before) && Enabled(Exec(total, before), actions[|actions| - 1])
  }

  ghost function Exec(total: nat, actions: seq<Action>): (s: State)
    requires IsRun(total, actions)
    ensures |s.tasks| == total
    decreases |actions|, 1
  {
    if actions == [] then Init(total)
    else Next(Exec(total, actions[..|actions| - 1]), actions[|actions| - 1])
  }

  // ----- What every step keeps ---------------------------------------------------------------

  /** How many tasks satisfy `Succeeded`. */
  function CountSucceeded(tasks: seq<Task>): nat {
    if tasks == [] then 0
    else CountSucceeded(tasks[..|tasks| - 1]) + if tasks[|tasks| - 1].outcome.Succeeded? then 1 else 0
  }

  predicate Decided(s: State) {
    s.failure || s.successes >= |s.tasks|
  }

  /** Some task will still notify. */
  ghost predicate SomeToken(s: State) {
    exists j | 0 <= j < |s.tasks| :: IsNotifying(s.tasks[j].at)
  }

  /** Each task registered at most once, and its location fits what it registered. */
  predicate TaskOk(task: Task) {
    match task.at
    case Connecting => task.outcome.Undecided?
    case CheckFailure => task.outcome.Succeeded?
    case NotifySuccess => task.outcome.Succeeded?
    case NotifyFailure => task.outcome.Failed?
    case Gone => task.outcome.Failed?
    case _ => !task.outcome.Undecided?
  }

  /** The counter and the flag record what the tasks registered, and results follow them. */
  ghost predicate OutcomeInv(s: State) {
    && (forall j | 0 <= j < |s.tasks| :: TaskOk(s.tasks[j]))
    && s.successes == CountSucceeded(s.tasks)
    && (s.failure <==> exists j | 0 <= j < |s.tasks| :: s.tasks[j].outcome.Failed?)
    && (forall j | 0 <= j < |s.tasks| :: s.tasks[j].at == Returned(false) ==> s.failure)
    && (forall j | 0 <= j < |s.tasks| :: s.tasks[j].at == Returned(true) ==> s.successes >= |s.tasks|)
  }

  /** A permit is only stored while nobody sleeps, and there is a permit or a pending notification
      exactly when the outcome is decided: no wakeup is lost. */
  ghost predicate TokenInv(s: State) {
    && (s.permit ==> !HasParked(s))
    && (Decided(s) ==> |s.tasks| == 0 || s.permit || SomeToken(s))
    && (!Decided(s) ==> !s.permit && !SomeToken(s))
  }

  ghost predicate Inv(s: State) {
    OutcomeInv(s) && TokenInv(s)
  }

  lemma {:induction false} CountBound(tasks: seq<Task>)
    ensures CountSucceeded(tasks) <= |tasks|
    ensures CountSucceeded(tasks) == |tasks| <==> forall j | 0 <= j < |tasks| :: tasks[j].outcome.Succeeded?
  {
    if tasks != [] {
      var before := tasks[..|tasks| - 1];
      CountBound(before);
      assert forall j | 0 <= j < |before| :: before[j] == tasks[j];
      assert tasks[|tasks| - 1].outcome.Succeeded? <==> CountSucceeded(tasks) == CountSucceeded(before) + 1;
    }
  }

  lemma {:induction false} CountUpdate(tasks: seq<Task>, i: nat, task: Task)
    requires i < |tasks|
    ensures CountSucceeded(tasks[i := task]) ==
            CountSucceeded(tasks) + (if task.outcome.Succeeded? then 1 else 0)
                                  - (if tasks[i].outcome.Succeeded? then 1 else 0)
  {
    var last := |tasks| - 1;
    if i < last {
      CountUpdate(tasks[..last], i, task);
      assert tasks[i := task][..last] == tasks[..last][i := task];
    } else {
      assert tasks[i := task][..last] == tasks[..last];
    }
  }

  lemma {:induction false} InitInv(total: nat)
    ensures Inv(Init(total))
  {
    CountNone(Init(total).tasks);
  }

  lemma {:induction false} CountNone(tasks: seq<Task>)
    requires forall j | 0 <= j < |tasks| :: tasks[j].outcome.Undecided?
    ensures CountSucceeded(tasks) == 0
  {
    if tasks != [] {
      CountNone(tasks[..|tasks| - 1]);
    }
  }

  lemma {:induction false} RegisterKeepsOutcomes(s: State, a: Action)
    requires OutcomeInv(s) && Enabled(s, a) && s.tasks[a.i].at.Connecting?
    ensures OutcomeInv(Next(s, a))
  {
    var t := Next(s, a);
    CountUpdate(s.tasks, a.i, t.tasks[a.i]);
    if a.connected {
      if j :| 0 <= j < |s.tasks| && s.tasks[j].outcome.Failed? {
        assert t.tasks[j].outcome.Failed?;
      }
    } else {
      assert t.tasks[a.i].outcome.Failed?;
    }
  }

  lemma {:induction false} RegisterKeepsTokens(s: State, a: Action)
    requires TokenInv(s) && Enabled(s, a) && s.tasks[a.i].at.Connecting?
    ensures TokenInv(Next(s, a))
  {
    var t := Next(s, a);
    NobodyParks(s, t);
    if a.connected && t.successes < |t.tasks| {
      TokenSurvives(s, t, a.i);
    } else {
      assert IsNotifying(t.tasks[a.i].at);
    }
  }

  lemma {:induction false} NobodyParks(s: State, t: State)
    requires |s.tasks| == |t.tasks|
    requires forall j | 0 <= j < |s.tasks| :: t.tasks[j].at == Parked ==> s.tasks[j].at == Parked
    ensures HasParked(t) ==> HasParked(s)
  {
  }

  /** A step of task i that neither takes nor gives a token leaves the others' tokens alone. */
  lemma {:induction false} TokenSurvives(s: State, t: State, i: nat)
    requires i < |s.tasks| == |t.tasks|
    requires forall j | 0 <= j < |s.tasks| && j != i :: t.tasks[j] == s.tasks[j]
    requires !IsNotifying(s.tasks[i].at) && !IsNotifying(t.tasks[i].at)
    ensures SomeToken(s) <==> SomeToken(t)
  {
    if SomeToken(s) {
      var j :| 0 <= j < |s.tasks| && IsNotifying(s.tasks[j].at);
      assert IsNotifying(t.tasks[j].at);
    }
    if SomeToken(t) {
      var j :| 0 <= j < |t.tasks| && IsNotifying(t.tasks[j].at);
      assert IsNotifying(s.tasks[j].at);
    }
  }

  /** Steps that change locations only keep the outcomes, hence the counter and the flag. */
  lemma {:induction false} OutcomesKept(s: State, t: State)
    requires OutcomeInv(s)
    requires |s.tasks| == |t.tasks| && s.successes == t.successes && s.failure == t.failure
    requires forall j | 0 <= j < |s.tasks| :: t.tasks[j].outcome == s.tasks[j].outcome
    requires forall j | 0 <= j < |s.tasks| :: TaskOk(t.tasks[j])
    requires forall j | 0 <= j < |s.tasks| :: t.tasks[j].at.Returned? ==>
               t.tasks[j] == s.tasks[j] || t.tasks[j].at.result == !s.failure == (s.successes >= |s.tasks|)
    ensures OutcomeInv(t)
  {
    CountSame(s.tasks, t.tasks);
    if j :| 0 <= j < |s.tasks| && s.tasks[j].outcome.Failed? {
      assert t.tasks[j].outcome.Failed?;
    }
  }

  lemma {:induction false} CountSame(a: seq<Task>, b: seq<Task>)
    requires |a| == |b| && forall j | 0 <= j < |a| :: a[j].outcome == b[j].outcome
    ensures CountSucceeded(a) == CountSucceeded(b)
  {
    if a != [] {
      CountSame(a[..|a| - 1], b[..|b| - 1]);
    }
  }

  lemma {:induction false} MoveKeepsOutcomes(s: State, i: nat, at: Location)
    requires OutcomeInv(s) && i < |s.tasks| && TaskOk(s.tasks[i].(at := at))
    requires at.Returned? ==> at.result == !s.failure == (s.successes >= |s.tasks|)
    ensures OutcomeInv(Move(s, i, at))
  {
    OutcomesKept(s, Move(s, i, at));
  }

  lemma {:induction false} NotifyKeepsOutcomes(s: State, a: Action)
    requires OutcomeInv(s) && Enabled(s, a) && IsNotifying(s.tasks[a.i].at)
    ensures OutcomeInv(Next(s, a))
  {
    var notified := NotifyOne(s, a.wakes);
    assert OutcomeInv(notified) by {
      if HasParked(s) {
        assert TaskOk(s.tasks[a.wakes]);
        MoveKeepsOutcomes(s, a.wakes, Renotify);
      }
    }
    assert TaskOk(s.tasks[a.i]) && notified.tasks[a.i].outcome == s.tasks[a.i].outcome;
    MoveKeepsOutcomes(notified, a.i, Next(s, a).tasks[a.i].at);
  }

  lemma {:induction false} NotifyKeepsTokens(s: State, a: Action)
    requires TokenInv(s) && Enabled(s, a) && IsNotifying(s.tasks[a.i].at)
    ensures TokenInv(Next(s, a))
  {
    var t := Next(s, a);
    assert IsNotifying(s.tasks[a.i].at) && SomeToken(s);
    if HasParked(s) {
      assert IsNotifying(t.tasks[a.wakes].at);
    } else {
      NobodyParks(s, t);
    }
  }

  lemma {:induction false} AwaitKeepsInv(s: State, a: Action)
    requires Inv(s) && Enabled(s, a) && s.tasks[a.i].at.Await?
    ensures Inv(Next(s, a))
  {
    var t := Next(s, a);
    assert OutcomeInv(t) by { OutcomesKept(s, t); }
    if s.permit {
      assert IsNotifying(t.tasks[a.i].at);
    } else {
      TokenSurvives(s, t, a.i);
    }
  }

  predicate IsCheck(at: Location) {
    at.CheckFailure? || at.LoadFailure? || at.LoadSuccesses?
  }

  lemma {:induction false} CheckKeepsOutcomes(s: State, a: Action)
    requires OutcomeInv(s) && Enabled(s, a) && IsCheck(s.tasks[a.i].at)
    ensures OutcomeInv(Next(s, a))
  {
    CountBound(s.tasks);
    assert TaskOk(s.tasks[a.i]);
    MoveKeepsOutcomes(s, a.i, Next(s, a).tasks[a.i].at);
  }

  lemma {:induction false} CheckKeepsTokens(s: State, a: Action)
    requires TokenInv(s) && Enabled(s, a) && IsCheck(s.tasks[a.i].at)
    ensures TokenInv(Next(s, a))
  {
    var t := Next(s, a);
    NobodyParks(s, t);
    if IsNotifying(t.tasks[a.i].at) {
      assert SomeToken(t);
    } else {
      TokenSurvives(s, t, a.i);
    }
  }

  /** The invariant holds after every interleaving. */
  lemma {:induction false} Reachable(total: nat, actions: seq<Action>)
    requires IsRun(total, actions)
    ensures Inv(Exec(total, actions))
    decreases |actions|
  {
    if actions == [] {
      InitInv(total);
    } else {
      var before, a := actions[..|actions| - 1], actions[|actions| - 1];
      Reachable(total, before);
      var s := Exec(total, before);
      match s.tasks[a.i].at {
        case Connecting => RegisterKeepsOutcomes(s, a); RegisterKeepsTokens(s, a);
        case NotifySuccess => NotifyKeepsOutcomes(s, a); NotifyKeepsTokens(s, a);
        case NotifyFailure => NotifyKeepsOutcomes(s, a); NotifyKeepsTokens(s, a);
        case Renotify => NotifyKeepsOutcomes(s, a); NotifyKeepsTokens(s, a);
        case Await => AwaitKeepsInv(s, a);
        case _ => CheckKeepsOutcomes(s, a); CheckKeepsTokens(s, a);
      }
    }
  }

  // ----- Main results ------------------------------------------------------------------------

  predicate IsDone(task: Task) {
    task.at.Returned? || task.at.Gone?
  }

  /** How a task's connection attempt went: its first step says so; None if it has taken no step. */
  function Attempt(actions: seq<Action>, j: nat): Option<bool> {
    if actions == [] then None
    else
      var earlier, last := Attempt(actions[..|actions| - 1], j), actions[|actions| - 1];
      if earlier.None? && last.i == j then Some(last.connected) else earlier
  }

  /** The attempt is the first action of a task, whatever comes later. */
  lemma {:induction false} AttemptIsFirst(actions: seq<Action>, j: nat)
    ensures match Attempt(actions, j)
            case None => forall k | 0 <= k < |actions| :: actions[k].i != j
            case Some(connected) =>
              exists k | 0 <= k < |actions| ::
                actions[k].i == j && actions[k].connected == connected && forall m | 0 <= m < k :: actions[m].i != j
  {
    if actions != [] {
      var before := actions[..|actions| - 1];
      AttemptIsFirst(before, j);
      assert forall k | 0 <= k < |before| :: before[k] == actions[k];
    }
  }

  /** What a task registers for an attempt. */
  predicate Registers(task: Task, attempt: Option<bool>) {
    match attempt
    case None => task == Task(Connecting, Undecided)
    case Some(connected) => !task.at.Connecting? && task.outcome == if connected then Succeeded else Failed
  }

  lemma {:induction false} StepRegisters(s: State, a: Action, j: nat, attempt: Option<bool>)
    requires Enabled(s, a) && j < |s.tasks| && Registers(s.tasks[j], attempt)
    ensures Registers(Next(s, a).tasks[j], if attempt.None? && a.i == j then Some(a.connected) else attempt)
  {
  }

  /** In every run a task that connected has registered success and one that failed to connect has registered
      failure; a task that has not tried has registered nothing. */
  lemma {:induction false} OutcomesFollowAttempts(total: nat, actions: seq<Action>, j: nat)
    requires IsRun(total, actions) && j < total
    ensures Registers(Exec(total, actions).tasks[j], Attempt(actions, j))
    decreases |actions|
  {
    if actions != [] {
      var before := actions[..|actions| - 1];
      OutcomesFollowAttempts(total, before, j);
      StepRegisters(Exec(total, before), actions[|actions| - 1], j, Attempt(before, j));
    }
  }

  /** With step k, which ends its registration of a failure, task j goes away instead of waiting. */
  ghost predicate LeavesAt(total: nat, actions: seq<Action>, j: nat, k: nat)
    requires IsRun(total, actions) && j < total && k < |actions|
  {
    && actions[k].i == j && !actions[k].waits
    && IsRun(total, actions[..k]) && Exec(total, actions[..k]).tasks[j].at.NotifyFailure?
  }

  lemma {:induction false} StepLeaves(s: State, a: Action, j: nat)
    requires Enabled(s, a) && j < |s.tasks|
    ensures Next(s, a).tasks[j].at.Gone? <==>
            s.tasks[j].at.Gone? || (a.i == j && s.tasks[j].at.NotifyFailure? && !a.waits)
  {
  }

  /** A task is gone if and only if it chose not to wait after its failure was registered. */
  lemma {:induction false} GoneExactly(total: nat, actions: seq<Action>, j: nat)
    requires IsRun(total, actions) && j < total
    ensures Exec(total, actions).tasks[j].at.Gone? <==>
            exists k | 0 <= k < |actions| :: LeavesAt(total, actions, j, k)
    decreases |actions|
  {
    if actions != [] {
      var last := |actions| - 1;
      var before := actions[..last];
      GoneExactly(total, before, j);
      StepLeaves(Exec(total, before), actions[last], j);
      forall k: nat | k < last
        ensures LeavesAt(total, actions, j, k) <==> LeavesAt(total, before, j, k)
      {
        assert before[..k] == actions[..k];
      }
      assert LeavesAt(total, actions, j, last) <==>
             actions[last].i == j && !actions[last].waits && Exec(total, before).tasks[j].at.NotifyFailure?;
    }
  }

  /** A task that registers notifies if it is the last to succeed, if it fails, or if it sees that another one
      failed; otherwise it goes on to wait without a notification. */
  lemma {:induction false} RegistrationNotifies(s: State, a: Action)
    requires Enabled(s, a)
    requires s.tasks[a.i].at.Connecting? || s.tasks[a.i].at.CheckFailure?
    ensures var at, to := s.tasks[a.i].at, Next(s, a).tasks[a.i].at;
            && (IsNotifying(to) <==>
                  || (at.Connecting? && (!a.connected || s.successes + 1 >= |s.tasks|))
                  || (at.CheckFailure? && s.failure))
            && (!IsNotifying(to) ==> to == if at.Connecting? then CheckFailure else LoadFailure)
  {
  }

  /** Between two states some task was woken. */
  predicate Wakes(s: State, t: State) {
    exists j | 0 <= j < |s.tasks| && j < |t.tasks| :: t.tasks[j].at.Renotify? && !s.tasks[j].at.Renotify?
  }

  /** How often a task was woken in a run. */
  ghost function Woken(total: nat, actions: seq<Action>): nat
    requires IsRun(total, actions)
  {
    if actions == [] then 0
    else
      var before := actions[..|actions| - 1];
      Woken(total, before) + if Wakes(Exec(total, before), Exec(total, actions)) then 1 else 0
  }

  /** How often `notify_one` was called in a run. */
  ghost function Notified(total: nat, actions: seq<Action>): nat
    requires IsRun(total, actions)
  {
    if actions == [] then 0
    else
      var before, a := actions[..|actions| - 1], actions[|actions| - 1];
      Notified(total, before) + if IsNotifying(Exec(total, before).tasks[a.i].at) then 1 else 0
  }

  lemma {:induction false} StepWakes(s: State, a: Action)
    requires Enabled(s, a)
    ensures var t := Next(s, a);
            (if Wakes(s, t) then 1 else 0) + (if t.permit then 1 else 0) <=
            (if IsNotifying(s.tasks[a.i].at) then 1 else 0) + (if s.permit then 1 else 0)
  {
  }

  /** Every notification wakes at most one task, at once or by the one permit it leaves behind. */
  lemma {:induction false} WokenByNotifications(total: nat, actions: seq<Action>)
    requires IsRun(total, actions)
    ensures Woken(total, actions) + (if Exec(total, actions).permit then 1 else 0) <= Notified(total, actions)
    decreases |actions|
  {
    if actions != [] {
      var before := actions[..|actions| - 1];
      WokenByNotifications(total, before);
      StepWakes(Exec(total, before), actions[|actions| - 1]);
    }
  }

  predicate HasConnected(actions: seq<Action>, j: nat) {
    Attempt(actions, j) == Some(true)
  }

  predicate HasFailed(actions: seq<Action>, j: nat) {
    Attempt(actions, j) == Some(false)
  }

  /** Every task has tried to connect, and succeeded. */
  predicate AllConnected(total: nat, actions: seq<Action>) {
    forall j | 0 <= j < total :: HasConnected(actions, j)
  }

  predicate SomeFailed(total: nat, actions: seq<Action>) {
    exists j | 0 <= j < total :: HasFailed(actions, j)
  }

  lemma {:induction false} AttemptDecides(total: nat, actions: seq<Action>, j: nat)
    requires IsRun(total, actions) && j < total
    ensures var task := Exec(total, actions).tasks[j];
            && (task.outcome.Succeeded? <==> HasConnected(actions, j))
            && (task.outcome.Failed? <==> HasFailed(actions, j))
  {
    OutcomesFollowAttempts(total, actions, j);
  }

  predicate AllSucceeded(s: State) {
    forall j | 0 <= j < |s.tasks| :: s.tasks[j].outcome.Succeeded?
  }

  predicate AnyFailed(s: State) {
    exists j | 0 <= j < |s.tasks| :: s.tasks[j].outcome.Failed?
  }

  lemma {:induction false} DecidedBy(s: State, actions: seq<Action>)
    requires forall j: nat | j < |s.tasks| :: s.tasks[j].outcome.Succeeded? <==> HasConnected(actions, j)
    requires forall j: nat | j < |s.tasks| :: s.tasks[j].outcome.Failed? <==> HasFailed(actions, j)
    ensures AllConnected(|s.tasks|, actions) <==> AllSucceeded(s)
    ensures SomeFailed(|s.tasks|, actions) <==> AnyFailed(s)
  {
    if j: nat :| j < |s.tasks| && HasFailed(actions, j) {
      assert s.tasks[j].outcome.Failed?;
    }
    if AllConnected(|s.tasks|, actions) {
      forall j: nat | j < |s.tasks|
        ensures s.tasks[j].outcome.Succeeded?
      {
        assert HasConnected(actions, j);
      }
    }
  }

  lemma {:induction false} AttemptsDecide(total: nat, actions: seq<Action>)
    requires IsRun(total, actions)
    ensures AllConnected(total, actions) <==> AllSucceeded(Exec(total, actions))
    ensures SomeFailed(total, actions) <==> AnyFailed(Exec(total, actions))
  {
    var s := Exec(total, actions);
    forall j: nat | j < |s.tasks|
      ensures s.tasks[j].outcome.Succeeded? <==> HasConnected(actions, j)
      ensures s.tasks[j].outcome.Failed? <==> HasFailed(actions, j)
    {
      AttemptDecides(total, actions, j);
    }
    DecidedBy(s, actions);
  }

  /** What has returned so far, in terms of what was registered. */
  lemma {:induction false} ResultsFit(s: State)
    requires Inv(s)
    ensures (exists j | 0 <= j < |s.tasks| :: s.tasks[j].at == Returned(true)) ==> AllSucceeded(s)
    ensures (exists j | 0 <= j < |s.tasks| :: s.tasks[j].at == Returned(false)) ==> AnyFailed(s)
    ensures !(AllSucceeded(s) && AnyFailed(s))
  {
    CountBound(s.tasks);
  }

  /** In every run `wait` returns true to a task only if every task connected, and false only if some task
      failed to connect. */
  lemma {:induction false} Agreement(total: nat, actions: seq<Action>)
    requires IsRun(total, actions)
    ensures var s := Exec(total, actions);
            && ((exists j | 0 <= j < total :: s.tasks[j].at == Returned(true)) ==> AllConnected(total, actions))
            && ((exists j | 0 <= j < total :: s.tasks[j].at == Returned(false)) ==> SomeFailed(total, actions))
            && !(AllConnected(total, actions) && SomeFailed(total, actions))
  {
    Reachable(total, actions);
    ResultsFit(Exec(total, actions));
    AttemptsDecide(total, actions);
  }

  /** No lost wakeup: once the outcome is decided, a task that waits can move or another task that
      has already registered will move it; nobody has to register for a sleeper to be woken. */
  lemma {:induction false} NoLostWakeup(total: nat, actions: seq<Action>, i: nat)
    requires IsRun(total, actions)
    requires var s := Exec(total, actions);
             i < total && Decided(s) && !IsDone(s.tasks[i]) && !s.tasks[i].at.Connecting?
    ensures var s := Exec(total, actions);
            exists a :: Enabled(s, a) && !s.tasks[a.i].at.Connecting?
  {
    Reachable(total, actions);
    var s := Exec(total, actions);
    var mover := i;
    if s.tasks[i].at.Parked? {
      mover :| 0 <= mover < |s.tasks| && IsNotifying(s.tasks[mover].at);
    }
    var a := SomeAction(s, mover);
  }

  lemma {:induction false} SomeAction(s: State, i: nat) returns (a: Action)
    requires i < |s.tasks| && !IsDone(s.tasks[i]) && !s.tasks[i].at.Parked?
    ensures Enabled(s, a) && a.i == i
  {
    var j := if HasParked(s) then var j :| 0 <= j < |s.tasks| && s.tasks[j].at == Parked; j else 0;
    a := Action(i, true, true, j);
  }

  /** A bound on the steps a task has left, which depends on how the barrier was decided. */
  function Rank(at: Location, failure: bool, decided: bool): nat {
    match at
    case Connecting => 10
    case CheckFailure => 9
    case NotifySuccess => 8
    case NotifyFailure => 8
    case LoadFailure => if !decided then 8 else if failure then 1 else 3
    case LoadSuccesses => if decided && !failure then 2 else 7
    case Await => 6
    case Parked => 5
    case Renotify => 4
    case Returned(_) => 0
    case Gone => 0
  }

  function TaskRank(s: State, j: nat): nat
    requires j < |s.tasks|
  {
    Rank(s.tasks[j].at, s.failure, Decided(s))
  }

  function RankSum(s: State, n: nat): nat
    requires n <= |s.tasks|
  {
    if n == 0 then 0 else RankSum(s, n - 1) + TaskRank(s, n - 1)
  }

  lemma {:induction false} RankSumDrops(s: State, t: State, i: nat, n: nat)
    requires n <= |s.tasks| == |t.tasks| && i < |s.tasks|
    requires forall j: nat | j < |s.tasks| :: TaskRank(t, j) <= TaskRank(s, j)
    requires TaskRank(t, i) < TaskRank(s, i)
    ensures RankSum(t, n) <= RankSum(s, n)
    ensures i < n ==> RankSum(t, n) < RankSum(s, n)
  {
    if n > 0 {
      RankSumDrops(s, t, i, n - 1);
    }
  }

  lemma {:induction false} RankSumBound(s: State, n: nat)
    requires n <= |s.tasks|
    ensures RankSum(s, n) <= 10 * n
  {
    if n > 0 {
      RankSumBound(s, n - 1);
    }
  }

  /** Deciding the barrier lowers no rank's bound, and a decision is final. */
  lemma {:induction false} DecisionIsFinal(s: State, a: Action)
    requires Inv(s) && Enabled(s, a) && Inv(Next(s, a))
    ensures Decided(s) ==> Decided(Next(s, a)) && s.failure == Next(s, a).failure
    ensures s.failure ==> s.successes < |s.tasks|
  {
    CountBound(s.tasks);
    CountBound(Next(s, a).tasks);
  }

  /** The facts the ranks depend on: only a decided barrier notifies, and its decision is final. */
  ghost predicate RanksFit(s: State, a: Action)
    requires Enabled(s, a)
  {
    && (IsNotifying(s.tasks[a.i].at) ==> Decided(s))
    && (Decided(s) ==> Decided(Next(s, a)) && s.failure == Next(s, a).failure)
    && (s.failure ==> s.successes < |s.tasks|)
  }

  lemma {:induction false} OwnRankDrops(s: State, a: Action)
    requires Enabled(s, a) && RanksFit(s, a)
    ensures TaskRank(Next(s, a), a.i) < TaskRank(s, a.i)
  {
  }

  lemma {:induction false} OtherRanksDoNotRise(s: State, a: Action, j: nat)
    requires Enabled(s, a) && RanksFit(s, a) && j < |s.tasks| && j != a.i
    ensures TaskRank(Next(s, a), j) <= TaskRank(s, j)
  {
    var t := Next(s, a);
    assert t.tasks[j] == s.tasks[j] || (s.tasks[j].at.Parked? && t.tasks[j].at.Renotify?);
  }

  /** Every step strictly decreases the total rank. */
  lemma {:induction false} StepDecreases(s: State, a: Action)
    requires Inv(s) && Enabled(s, a) && Inv(Next(s, a))
    ensures RankSum(Next(s, a), |s.tasks|) < RankSum(s, |s.tasks|)
  {
    assert RanksFit(s, a) by {
      DecisionIsFinal(s, a);
      assert IsNotifying(s.tasks[a.i].at) ==> SomeToken(s);
    }
    OwnRankDrops(s, a);
    forall j: nat | j < |s.tasks| && j != a.i
      ensures TaskRank(Next(s, a), j) <= TaskRank(s, j)
    {
      OtherRanksDoNotRise(s, a, j);
    }
    RankSumDrops(s, Next(s, a), a.i, |s.tasks|);
  }

  /** Every run has at most 10 steps per task, and in a run that cannot go on every task has tried to connect
      and every `wait` has returned: true to all tasks if all of them connected, otherwise false. */
  lemma {:induction false} EveryRunEnds(total: nat, actions: seq<Action>)
    requires IsRun(total, actions)
    ensures |actions| <= 10 * total
    ensures var s, all := Exec(total, actions), AllConnected(total, actions);
            (forall a :: !Enabled(s, a)) ==>
              && (all || SomeFailed(total, actions))
              && forall j | 0 <= j < total ::
                   || s.tasks[j].at == Returned(all)
                   || (s.tasks[j].at.Gone? && HasFailed(actions, j))
  {
    RunBound(total, actions);
    if forall a :: !Enabled(Exec(total, actions), a) {
      Reachable(total, actions);
      AttemptsDecide(total, actions);
      StuckResults(Exec(total, actions));
      forall j | 0 <= j < total
        ensures Exec(total, actions).tasks[j].at.Gone? ==> HasFailed(actions, j)
      {
        AttemptDecides(total, actions, j);
        assert TaskOk(Exec(total, actions).tasks[j]);
      }
    }
  }

  /** In a state that cannot go on every task has registered and has its result. */
  lemma {:induction false} StuckResults(s: State)
    requires Inv(s) && forall a :: !Enabled(s, a)
    ensures AllSucceeded(s) || AnyFailed(s)
    ensures forall j | 0 <= j < |s.tasks| :: s.tasks[j].at == Returned(AllSucceeded(s)) || s.tasks[j].at.Gone?
  {
    StuckMeansDone(s);
    CountBound(s.tasks);
    forall j | 0 <= j < |s.tasks|
      ensures !s.tasks[j].outcome.Undecided?
    {
      assert TaskOk(s.tasks[j]);
    }
  }

  lemma {:induction false} StuckMeansDone(s: State)
    requires Inv(s) && forall a :: !Enabled(s, a)
    ensures forall j | 0 <= j < |s.tasks| :: IsDone(s.tasks[j])
  {
    StuckTaskParked(s);
    CountBound(s.tasks);
    assert !SomeToken(s);
  }

  lemma {:induction false} StuckTaskParked(s: State)
    requires forall a :: !Enabled(s, a)
    ensures forall j | 0 <= j < |s.tasks| :: IsDone(s.tasks[j]) || s.tasks[j].at.Parked?
  {
    forall j: nat | j < |s.tasks|
      ensures IsDone(s.tasks[j]) || s.tasks[j].at.Parked?
    {
      if !IsDone(s.tasks[j]) && !s.tasks[j].at.Parked? {
        var a := SomeAction(s, j);
      }
    }
  }

  lemma {:induction false} RunBound(total: nat, actions: seq<Action>)
    requires IsRun(total, actions)
    ensures |actions| + RankSum(Exec(total, actions), total) <= 10 * total
    decreases |actions|
  {
    if actions == [] {
      RankSumBound(Init(total), total);
    } else {
      var before := actions[..|actions| - 1];
      RunBound(total, before);
      Reachable(total, before);
      Reachable(total, actions);
      StepDecreases(Exec(total, before), actions[|actions| - 1]);
    }
  }
}
