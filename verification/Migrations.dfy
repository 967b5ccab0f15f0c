/** Database migrations. Each versioned migration runs in a transaction of its own, and its version
    and success are recorded afterwards, in a separate statement. */
module Migrations {
  import opened SseTypes

  /** A migration; only its version matters here, its statements are opaque. */
  datatype Migration = Migration(version: Option<nat>)

  datatype Record = Record(version: nat, success: bool)

  /** How executing one versioned migration goes: whether its transaction commits, and whether the
      statement recording the result does. A transaction that cannot be opened, committed or
      rolled back is not committed and not recorded. */
  datatype Outcome = Outcome(committed: bool, recorded: bool)

  /** A call of `migrate`: its argument and what the database does. */
  datatype Call = Call(migrations: seq<Migration>, initialOk: bool, readOk: bool, outcomes: seq<Outcome>)

  /** The migration table in insertion order, and the versions whose transactions committed. */
  datatype Db = Db(records: seq<Record>, committed: seq<nat>)

  function OutcomeAt(outcomes: seq<Outcome>, i: nat): Outcome {
    if i < |outcomes| then outcomes[i] else Outcome(true, true)
  }

  // ----- Selecting migrations ----------------------------------------------------------------

  predicate AllVersioned(migrations: seq<Migration>) {
    forall i | 0 <= i < |migrations| :: migrations[i].version.Some?
  }

  predicate UniqueVersions(migrations: seq<Migration>) {
    forall i, j | 0 <= i < j < |migrations| ::
      migrations[i].version.Some? ==> migrations[i].version != migrations[j].version
  }

  /** Looks for a version that occurs twice. */
  method ValidateUniqueness(migrations: seq<Migration>) returns (ok: bool)
    ensures ok <==> UniqueVersions(migrations)
  {
    var versions: set<nat> := {};
    for i := 0 to |migrations|
      invariant UniqueVersions(migrations[..i])
      invariant forall v :: v in versions <==> exists j | 0 <= j < i :: migrations[j].version == Some(v)
    {
      var version := migrations[i].version;
      if version.Some? {
        if version.value in versions {
          assert !UniqueVersions(migrations);
          return false;
        }
        versions := versions + {version.value};
      }
    }
    assert migrations[..|migrations|] == migrations;
    ok := true;
  }

  function Insert(version: nat, sorted: seq<nat>): seq<nat> {
    if sorted == [] || version <= sorted[0] then [version] + sorted
    else [sorted[0]] + Insert(version, sorted[1..])
  }

  /** The versions above the newest recorded one, sorted. */
  function Selected(migrations: seq<Migration>, newest: Option<Record>): seq<nat>
    requires AllVersioned(migrations)
  {
    if migrations == [] then []
    else
      var rest, version := Selected(migrations[1..], newest), migrations[0].version.value;
      if newest.Some? && version <= newest.value.version then rest else Insert(version, rest)
  }

  predicate Ascending(versions: seq<nat>) {
    forall i, j | 0 <= i < j < |versions| :: versions[i] < versions[j]
  }

  lemma {:induction false} InsertAscends(version: nat, sorted: seq<nat>)
    requires Ascending(sorted) && version !in sorted
    ensures Ascending(Insert(version, sorted))
    ensures forall v :: v in Insert(version, sorted) <==> v == version || v in sorted
  {
    if sorted != [] && version > sorted[0] {
      InsertAscends(version, sorted[1..]);
      var tail := Insert(version, sorted[1..]);
      assert sorted == [sorted[0]] + sorted[1..];
      forall i | 0 <= i < |tail|
        ensures sorted[0] < tail[i]
      {
        assert tail[i] in tail;
      }
    }
  }

  /** Selection keeps exactly the newer versions and puts them in strictly ascending order. */
  lemma {:induction false} SelectionAscends(migrations: seq<Migration>, newest: Option<Record>)
    requires AllVersioned(migrations) && UniqueVersions(migrations)
    ensures Ascending(Selected(migrations, newest))
    ensures forall v :: v in Selected(migrations, newest) <==>
              (newest.None? || v > newest.value.version) && exists i | 0 <= i < |migrations| :: migrations[i].version == Some(v)
  {
    if migrations != [] {
      var rest := migrations[1..];
      SelectionAscends(rest, newest);
      var version := migrations[0].version.value;
      var tail := Selected(rest, newest);
      assert version !in tail by {
        assert forall i | 0 <= i < |rest| :: rest[i] == migrations[i + 1];
      }
      InsertAscends(version, tail);
      forall v
        ensures (exists i | 0 <= i < |migrations| :: migrations[i].version == Some(v)) <==>
                v == version || exists i | 0 <= i < |rest| :: rest[i].version == Some(v)
      {
        if i :| 0 <= i < |rest| && rest[i].version == Some(v) {
          assert migrations[i + 1].version == Some(v);
        }
        if i :| 0 <= i < |migrations| && migrations[i].version == Some(v) {
          assert i > 0 ==> rest[i - 1].version == Some(v);
        }
      }
    }
  }

  // ----- Running migrations ------------------------------------------------------------------

  /** The recorded migration with the greatest version. */
  function Newest(records: seq<Record>): Option<Record> {
    if records == [] then None
    else
      var last, older := records[|records| - 1], Newest(records[..|records| - 1]);
      if older.None? || older.value.version <= last.version then Some(last) else older
  }

  function RunOne(db: Db, version: nat, outcome: Outcome): Db {
    Db(if outcome.recorded then db.records + [Record(version, outcome.committed)] else db.records,
       if outcome.committed then db.committed + [version] else db.committed)
  }

  /** Runs versions in order until one fails or cannot be recorded. */
  function RunAll(db: Db, versions: seq<nat>, outcomes: seq<Outcome>, i: nat): (Db, bool)
    requires i <= |versions|
    decreases |versions| - i
  {
    if i == |versions| then (db, true)
    else
      var outcome := OutcomeAt(outcomes, i);
      var after := RunOne(db, versions[i], outcome);
      if outcome.committed && outcome.recorded then RunAll(after, versions, outcomes, i + 1) else (after, false)
  }

  predicate Accepted(call: Call) {
    call.initialOk && AllVersioned(call.migrations) && UniqueVersions(call.migrations) && call.readOk
  }

  /** A call of `migrate`; the initial script, which only creates the migration table, leaves no
      trace in the model. */
  function Migrate(db: Db, call: Call): (Db, bool) {
    if !Accepted(call) then (db, false)
    else if call.migrations == [] then (db, true)
    else
      var newest := Newest(db.records);
      if newest.Some? && !newest.value.success then (db, false)
      else RunAll(db, Selected(call.migrations, newest), call.outcomes, 0)
  }

  class MigrationManager {
    var db: Db

    constructor ()
      ensures db == Db([], [])
    {
      db := Db([], []);
    }

    method ExecuteMigration(version: nat, outcome: Outcome) returns (ok: bool)
      modifies this
      ensures db == RunOne(old(db), version, outcome)
      ensures outcome.recorded ==> EndsWith(db.records, Record(version, outcome.committed))
      ensures ok <==> outcome.committed && outcome.recorded
    {
      if outcome.committed {
        db := db.(committed := db.committed + [version]);
      }
      if outcome.recorded {
        db := db.(records := db.records + [Record(version, outcome.committed)]);
      }
      ok := outcome.committed && outcome.recorded;
    }

    method DoMigrate(call: Call) returns (ok: bool)
      requires Accepted(call)
      modifies this
      ensures (db, ok) == Migrate(old(db), call)
    {
      if call.migrations == [] {
        return true;
      }
      var newest := Newest(db.records);
      if newest.Some? && !newest.value.success {
        return false;
      }
      var versions := Selected(call.migrations, newest);
      for i := 0 to |versions|
        invariant RunAll(db, versions, call.outcomes, i) == RunAll(old(db), versions, call.outcomes, 0)
      {
        ok := ExecuteMigration(versions[i], OutcomeAt(call.outcomes, i));
        if !ok {
          return false;
        }
      }
      ok := true;
    }

    method Run(call: Call) returns (ok: bool)
      modifies this
      ensures (db, ok) == Migrate(old(db), call)
    {
      if !call.initialOk {
        return false;
      }
      for i := 0 to |call.migrations|
        invariant AllVersioned(call.migrations[..i])
      {
        if call.migrations[i].version.None? {
          return false;
        }
      }
      assert call.migrations[..|call.migrations|] == call.migrations;
      var unique := ValidateUniqueness(call.migrations);
      if !unique || !call.readOk {
        return false;
      }
      ok := DoMigrate(call);
    }
  }

  // ----- What every call keeps ---------------------------------------------------------------

  /** Recorded versions ascend strictly, and only the last one may have failed. */
  predicate Inv(records: seq<Record>) {
    && (forall i, j | 0 <= i < j < |records| :: records[i].version < records[j].version)
    && (forall i | 0 <= i < |records| - 1 :: records[i].success)
  }

  lemma {:induction false} NewestIsLast(records: seq<Record>)
    requires Inv(records)
    ensures Newest(records) == if records == [] then None else Some(records[|records| - 1])
  {
    if |records| > 1 {
      NewestIsLast(records[..|records| - 1]);
    }
  }

  /** The versions recorded as successful. */
  function Succeeded(records: seq<Record>): seq<nat> {
    if records == [] then []
    else
      var last := records[|records| - 1];
      Succeeded(records[..|records| - 1]) + if last.success then [last.version] else []
  }

  lemma {:induction false} SucceededOne(records: seq<Record>, record: Record)
    ensures Succeeded(records + [record]) == Succeeded(records) + if record.success then [record.version] else []
  {
    assert (records + [record])[..|records|] == records;
  }

  lemma {:induction false} SucceededAscends(records: seq<Record>)
    requires Inv(records)
    ensures Ascending(Succeeded(records))
    ensures forall v | v in Succeeded(records) :: exists i | 0 <= i < |records| :: records[i].version == v
  {
    if records != [] {
      var before, last := records[..|records| - 1], records[|records| - 1];
      SucceededAscends(before);
      var older := Succeeded(before);
      forall i | 0 <= i < |older|
        ensures older[i] < last.version
      {
        assert older[i] in older;
        var j :| 0 <= j < |before| && before[j].version == older[i];
        assert records[j] == before[j];
      }
      forall v | v in Succeeded(records)
        ensures exists i | 0 <= i < |records| :: records[i].version == v
      {
        if v in older {
          var j :| 0 <= j < |before| && before[j].version == v;
          assert records[j].version == v;
        } else {
          assert records[|records| - 1].version == v;
        }
      }
    }
  }

  /** Whether `versions` may be run next: all are above the newest recorded one, which succeeded. */
  predicate Runnable(records: seq<Record>, versions: seq<nat>, i: nat) {
    && Ascending(versions)
    && Inv(records)
    && (records != [] ==> records[|records| - 1].success)
    && (forall k, j | 0 <= k < |records| && i <= j < |versions| :: records[k].version < versions[j])
  }

  predicate AlwaysRecorded(outcomes: seq<Outcome>) {
    forall i | 0 <= i < |outcomes| :: outcomes[i].committed ==> outcomes[i].recorded
  }

  lemma {:induction false} RunnableOne(records: seq<Record>, versions: seq<nat>, i: nat, success: bool)
    requires i < |versions| && Runnable(records, versions, i)
    ensures Inv(records + [Record(versions[i], success)])
    ensures success ==> Runnable(records + [Record(versions[i], success)], versions, i + 1)
  {
    var more := records + [Record(versions[i], success)];
    forall k, j | 0 <= k < |more| && i + 1 <= j < |versions|
      ensures more[k].version < versions[j]
    {
      assert k < |records| ==> more[k] == records[k];
    }
  }

  lemma {:induction false} RunAllKeepsInv(db: Db, versions: seq<nat>, outcomes: seq<Outcome>, i: nat)
    requires i <= |versions| && Runnable(db.records, versions, i)
    ensures Inv(RunAll(db, versions, outcomes, i).0.records)
    decreases |versions| - i
  {
    if i < |versions| {
      var outcome := OutcomeAt(outcomes, i);
      var after := RunOne(db, versions[i], outcome);
      RunnableAfter(db, versions, i, outcome);
      if outcome.committed && outcome.recorded {
        assert RunAll(db, versions, outcomes, i) == RunAll(after, versions, outcomes, i + 1);
        RunAllKeepsInv(after, versions, outcomes, i + 1);
      } else {
        assert RunAll(db, versions, outcomes, i) == (after, false);
      }
    }
  }

  lemma {:induction false} RunnableAfter(db: Db, versions: seq<nat>, i: nat, outcome: Outcome)
    requires i < |versions| && Runnable(db.records, versions, i)
    ensures Inv(RunOne(db, versions[i], outcome).records)
    ensures outcome.committed && outcome.recorded ==> Runnable(RunOne(db, versions[i], outcome).records, versions, i + 1)
  {
    RunnableOne(db.records, versions, i, outcome.committed);
  }

  lemma {:induction false} RunAllKeepsTable(db: Db, versions: seq<nat>, outcomes: seq<Outcome>, i: nat)
    requires i <= |versions| && AlwaysRecorded(outcomes) && db.committed == Succeeded(db.records)
    ensures var after := RunAll(db, versions, outcomes, i).0; after.committed == Succeeded(after.records)
    decreases |versions| - i
  {
    if i < |versions| {
      var outcome := OutcomeAt(outcomes, i);
      SucceededOne(db.records, Record(versions[i], outcome.committed));
      if outcome.committed && outcome.recorded {
        RunAllKeepsTable(RunOne(db, versions[i], outcome), versions, outcomes, i + 1);
      }
    }
  }

  lemma {:induction false} SelectedRunnable(db: Db, call: Call)
    requires Inv(db.records) && Accepted(call)
    requires db.records != [] ==> db.records[|db.records| - 1].success
    ensures Runnable(db.records, Selected(call.migrations, Newest(db.records)), 0)
  {
    var versions := Selected(call.migrations, Newest(db.records));
    NewestIsLast(db.records);
    SelectionAscends(call.migrations, Newest(db.records));
    forall k, j | 0 <= k < |db.records| && 0 <= j < |versions|
      ensures db.records[k].version < versions[j]
    {
      assert versions[j] in versions;
      assert db.records[k].version <= db.records[|db.records| - 1].version;
    }
  }

  lemma {:induction false} MigrateKeepsInv(db: Db, call: Call)
    requires Inv(db.records)
    ensures Inv(Migrate(db, call).0.records)
    ensures AlwaysRecorded(call.outcomes) && db.committed == Succeeded(db.records) ==>
              var after := Migrate(db, call).0; after.committed == Succeeded(after.records)
  {
    NewestIsLast(db.records);
    if Accepted(call) && (db.records != [] ==> db.records[|db.records| - 1].success) {
      SelectedRunnable(db, call);
      RunAllKeepsInv(db, Selected(call.migrations, Newest(db.records)), call.outcomes, 0);
      if AlwaysRecorded(call.outcomes) && db.committed == Succeeded(db.records) {
        RunAllKeepsTable(db, Selected(call.migrations, Newest(db.records)), call.outcomes, 0);
      }
    }
  }

  /** The database after any sequence of calls. */
  function Exec(db: Db, calls: seq<Call>): Db {
    if calls == [] then db
    else Migrate(Exec(db, calls[..|calls| - 1]), calls[|calls| - 1]).0
  }

  /** After any sequence of calls, the recorded versions ascend strictly and all but the last
      succeeded; if no commit ever went unrecorded, each version was applied at most once, in
      ascending order, and the table says exactly which were. */
  lemma {:induction false} Reachable(calls: seq<Call>)
    ensures var db := Exec(Db([], []), calls);
            && Inv(db.records)
            && ((forall i | 0 <= i < |calls| :: AlwaysRecorded(calls[i].outcomes)) ==>
                  db.committed == Succeeded(db.records) && Ascending(db.committed))
  {
    if calls != [] {
      var before := calls[..|calls| - 1];
      Reachable(before);
      var db := Exec(Db([], []), before);
      MigrateKeepsInv(db, calls[|calls| - 1]);
    }
    SucceededAscends(Exec(Db([], []), calls).records);
  }

  // ----- Repeated calls ----------------------------------------------------------------------

  /** Where a run over n versions stops committing: behind the first one that is not recorded, or
      before the first one that is not even committed. */
  function CommitEnd(n: nat, outcomes: seq<Outcome>, i: nat): (m: nat)
    requires i <= n
    ensures i <= m <= n
    decreases n - i
  {
    if i == n then n
    else
      var outcome := OutcomeAt(outcomes, i);
      if !outcome.committed then i else if !outcome.recorded then i + 1 else CommitEnd(n, outcomes, i + 1)
  }

  /** A run commits a first part of its versions, all of them if it succeeds. */
  lemma {:induction false} RunAllCommits(db: Db, versions: seq<nat>, outcomes: seq<Outcome>, i: nat)
    requires i <= |versions|
    ensures var m := CommitEnd(|versions|, outcomes, i);
            && RunAll(db, versions, outcomes, i).0.committed == db.committed + versions[i..m]
            && (RunAll(db, versions, outcomes, i).1 ==> m == |versions|)
    decreases |versions| - i
  {
    if i == |versions| {
      assert versions[i..i] == [];
    } else {
      var outcome := OutcomeAt(outcomes, i);
      var after := RunOne(db, versions[i], outcome);
      if outcome.committed && outcome.recorded {
        var m := CommitEnd(|versions|, outcomes, i + 1);
        assert RunAll(db, versions, outcomes, i) == RunAll(after, versions, outcomes, i + 1);
        RunAllCommits(after, versions, outcomes, i + 1);
        CommitsOneMore(db.committed, versions, i, m);
      } else {
        assert RunAll(db, versions, outcomes, i) == (after, false);
        assert versions[i..i] == [] && versions[i..i + 1] == [versions[i]];
      }
    }
  }

  lemma {:induction false} CommitsOneMore(committed: seq<nat>, versions: seq<nat>, i: nat, m: nat)
    requires i < m <= |versions|
    ensures committed + [versions[i]] + versions[i + 1..m] == committed + versions[i..m]
  {
    assert versions[i..m] == [versions[i]] + versions[i + 1..m];
  }

  /** Whether a run gets to its version number j and commits it. */
  predicate CommitsAt(outcomes: seq<Outcome>, j: nat) {
    && OutcomeAt(outcomes, j).committed
    && forall k: nat | k < j :: OutcomeAt(outcomes, k).committed && OutcomeAt(outcomes, k).recorded
  }

  lemma {:induction false} CommitEndExact(n: nat, outcomes: seq<Outcome>, i: nat, j: nat)
    requires i <= j < n && forall k: nat | k < i :: OutcomeAt(outcomes, k).committed && OutcomeAt(outcomes, k).recorded
    ensures j < CommitEnd(n, outcomes, i) <==> CommitsAt(outcomes, j)
    decreases n - i
  {
    var outcome := OutcomeAt(outcomes, i);
    if i < j && outcome.committed && outcome.recorded {
      CommitEndExact(n, outcomes, i + 1, j);
    }
  }

  predicate EndsWith(records: seq<Record>, record: Record) {
    records != [] && records[|records| - 1] == record
  }

  lemma {:induction false} RunAllRecords(db: Db, versions: seq<nat>, outcomes: seq<Outcome>, i: nat)
    requires i < |versions| && RunAll(db, versions, outcomes, i).1
    ensures EndsWith(RunAll(db, versions, outcomes, i).0.records, Record(versions[|versions| - 1], true))
    decreases |versions| - i
  {
    if i + 1 < |versions| {
      RunAllRecords(RunOne(db, versions[i], OutcomeAt(outcomes, i)), versions, outcomes, i + 1);
    }
  }

  /** The records of versions that succeeded. */
  function Successes(versions: seq<nat>): seq<Record> {
    if versions == [] then []
    else Successes(versions[..|versions| - 1]) + [Record(versions[|versions| - 1], true)]
  }

  predicate Succeeds(outcomes: seq<Outcome>, j: nat) {
    OutcomeAt(outcomes, j).committed && OutcomeAt(outcomes, j).recorded
  }

  lemma {:induction false} OneMoreSuccess(db: Db, versions: seq<nat>, k: nat)
    requires k < |versions|
    ensures RunOne(Db(db.records + Successes(versions[..k]), db.committed + versions[..k]),
                   versions[k], Outcome(true, true)) ==
            Db(db.records + Successes(versions[..k + 1]), db.committed + versions[..k + 1])
  {
    assert versions[..k + 1][..k] == versions[..k];
    assert versions[..k + 1] == versions[..k] + [versions[k]];
  }

  /** A run that carries out its first versions is at the next one, with these recorded as successful. */
  lemma {:induction false} RunAllUntil(db: Db, versions: seq<nat>, outcomes: seq<Outcome>, k: nat)
    requires k <= |versions| && forall j: nat | j < k :: Succeeds(outcomes, j)
    ensures RunAll(db, versions, outcomes, 0) ==
            RunAll(Db(db.records + Successes(versions[..k]), db.committed + versions[..k]), versions, outcomes, k)
  {
    if k == 0 {
      assert db.records + [] == db.records && db.committed + [] == db.committed;
      assert versions[..0] == [];
    } else {
      RunAllUntil(db, versions, outcomes, k - 1);
      assert Succeeds(outcomes, k - 1);
      OneMoreSuccess(db, versions, k - 1);
    }
  }

  /** What a run leaves behind if its versions go well up to number k: that is where it ends. Those before k
      are recorded as successful, and number k, if there is one and its result is recorded at all, as failed. */
  lemma {:induction false} RunRecordsExactly(db: Db, versions: seq<nat>, outcomes: seq<Outcome>, k: nat)
    requires k <= |versions| && forall j: nat | j < k :: Succeeds(outcomes, j)
    requires k < |versions| ==> !Succeeds(outcomes, k)
    ensures var (after, ok) := RunAll(db, versions, outcomes, 0);
            && (ok <==> k == |versions|)
            && after.records == db.records + Successes(versions[..k]) +
                 (if k < |versions| && OutcomeAt(outcomes, k).recorded then [Record(versions[k], false)] else [])
            && after.committed == db.committed + versions[..k] +
                 (if k < |versions| && OutcomeAt(outcomes, k).committed then [versions[k]] else [])
  {
    RunAllUntil(db, versions, outcomes, k);
  }

  /** A call succeeds if and only if it is accepted and, unless no migrations are passed, the newest record is
      no failure and every migration selected is committed and recorded. */
  lemma {:induction false} SucceedsExactly(db: Db, call: Call)
    ensures Migrate(db, call).1 <==>
            && call.initialOk && AllVersioned(call.migrations) && UniqueVersions(call.migrations) && call.readOk
            && (call.migrations == [] ||
                (&& Proceeds(db, call)
                 && forall j: nat | j < |Selected(call.migrations, Newest(db.records))| :: Succeeds(call.outcomes, j)))
    ensures !Proceeds(db, call) || call.migrations == [] ==> Migrate(db, call).0 == db
  {
    if Proceeds(db, call) && call.migrations != [] {
      var versions := Selected(call.migrations, Newest(db.records));
      var k: nat := 0;
      while k < |versions| && Succeeds(call.outcomes, k)
        invariant k <= |versions| && forall j: nat | j < k :: Succeeds(call.outcomes, j)
      {
        k := k + 1;
      }
      RunRecordsExactly(db, versions, call.outcomes, k);
    }
  }

  /** A migration that is not committed but recorded leaves its failure as the last record, and this is the
      newest one. */
  lemma {:induction false} FailureIsRecorded(db: Db, call: Call, k: nat)
    requires Inv(db.records) && Proceeds(db, call) && call.migrations != []
    requires k < |Selected(call.migrations, Newest(db.records))|
    requires forall j: nat | j < k :: Succeeds(call.outcomes, j)
    requires OutcomeAt(call.outcomes, k) == Outcome(false, true)
    ensures var failed := Record(Selected(call.migrations, Newest(db.records))[k], false);
            var after := Migrate(db, call).0.records;
            EndsWith(after, failed) && Newest(after) == Some(failed)
  {
    RunRecordsExactly(db, Selected(call.migrations, Newest(db.records)), call.outcomes, k);
    MigrateKeepsInv(db, call);
    NewestIsLast(Migrate(db, call).0.records);
  }

  /** Nothing is left to select once the highest selected version is recorded. */
  lemma {:induction false} NothingLeft(migrations: seq<Migration>, newest: Option<Record>)
    requires AllVersioned(migrations) && UniqueVersions(migrations)
    ensures var versions := Selected(migrations, newest);
            versions != [] ==> Selected(migrations, Some(Record(versions[|versions| - 1], true))) == []
  {
    var versions := Selected(migrations, newest);
    if versions != [] {
      var last := versions[|versions| - 1];
      var again := Selected(migrations, Some(Record(last, true)));
      var v := if again == [] then last else again[0];
      SelectionAscends(migrations, newest);
      SelectionAscends(migrations, Some(Record(last, true)));
      assert last in versions;
      assert v in versions ==> v <= last;
    }
  }

  /** A call that succeeds applies exactly the newer versions. */
  lemma {:induction false} SuccessAppliesNewer(db: Db, call: Call)
    requires Migrate(db, call).1
    ensures Accepted(call)
    ensures Migrate(db, call).0.committed == db.committed + Selected(call.migrations, Newest(db.records))
  {
    var versions := Selected(call.migrations, Newest(db.records));
    if call.migrations != [] {
      RunAllCommits(db, versions, call.outcomes, 0);
      assert versions[0..|versions|] == versions;
    }
  }

  /** After a call that succeeds, the same migrations leave nothing to run. */
  lemma {:induction false} SuccessLeavesNothing(db: Db, call: Call)
    requires Inv(db.records) && Migrate(db, call).1 && call.migrations != []
    ensures var newest := Newest(Migrate(db, call).0.records);
            Selected(call.migrations, newest) == [] && (newest.Some? ==> newest.value.success)
  {
    var newest := Newest(db.records);
    var versions := Selected(call.migrations, newest);
    if versions != [] {
      RunAllRecords(db, versions, call.outcomes, 0);
      MigrateKeepsInv(db, call);
      NewestIsLast(Migrate(db, call).0.records);
      NothingLeft(call.migrations, newest);
    }
  }

  /** Calling again with the same migrations after a success changes nothing, whatever the database
      would then do. */
  lemma {:induction false} SecondCallChangesNothing(db: Db, call: Call, again: Call)
    requires Inv(db.records) && Migrate(db, call).1
    requires again.migrations == call.migrations && again.initialOk && again.readOk
    ensures Migrate(Migrate(db, call).0, again) == (Migrate(db, call).0, true)
  {
    if call.migrations != [] {
      SuccessLeavesNothing(db, call);
    }
  }

  /** Once a failure is recorded, no later call changes the database, and none that has any
      migration to run succeeds. */
  lemma {:induction false} FailureIsFinal(db: Db, calls: seq<Call>)
    requires Inv(db.records) && db.records != [] && !db.records[|db.records| - 1].success
    ensures Exec(db, calls) == db
    ensures forall call: Call | call.migrations != [] :: !Migrate(db, call).1
  {
    NewestIsLast(db.records);
    if calls != [] {
      FailureIsFinal(db, calls[..|calls| - 1]);
    }
  }

  /** Whether a call gets as far as running migrations. */
  predicate Proceeds(db: Db, call: Call) {
    var newest := Newest(db.records);
    Accepted(call) && (newest.Some? ==> newest.value.success)
  }

  /** What a call applies: a first part of the selection. */
  lemma {:induction false} CallCommits(db: Db, call: Call)
    ensures var versions := if Proceeds(db, call) then Selected(call.migrations, Newest(db.records)) else [];
            Migrate(db, call).0.committed == db.committed + versions[..CommitEnd(|versions|, call.outcomes, 0)]
  {
    if Proceeds(db, call) {
      var versions := Selected(call.migrations, Newest(db.records));
      if call.migrations == [] {
        assert versions == [];
      } else {
        RunAllCommits(db, versions, call.outcomes, 0);
      }
    }
  }

  /** The versions a call applies. */
  function Applied(db: Db, call: Call): seq<nat> {
    var after := Migrate(db, call).0.committed;
    if |db.committed| <= |after| then after[|db.committed|..] else []
  }

  /** A version is applied by a call if and only if the call proceeds, selects it, gets to it and
      commits it. */
  lemma {:induction false} AppliedExactly(db: Db, call: Call, v: nat)
    ensures db.committed + Applied(db, call) == Migrate(db, call).0.committed
    ensures v in Applied(db, call) <==>
            Proceeds(db, call) &&
            var versions := Selected(call.migrations, Newest(db.records));
            exists j: nat | j < |versions| :: versions[j] == v && CommitsAt(call.outcomes, j)
  {
    CallCommits(db, call);
    if Proceeds(db, call) {
      var versions := Selected(call.migrations, Newest(db.records));
      var m := CommitEnd(|versions|, call.outcomes, 0);
      assert Applied(db, call) == versions[..m];
      forall j: nat | j < |versions|
        ensures j < m <==> CommitsAt(call.outcomes, j)
      {
        CommitEndExact(|versions|, call.outcomes, 0, j);
      }
      if v in versions[..m] {
        var j: nat :| j < m && versions[j] == v;
        assert CommitsAt(call.outcomes, j);
      }
    }
  }

  predicate NoRecordFrom(records: seq<Record>, v: nat) {
    forall i | 0 <= i < |records| :: records[i].version < v
  }

  lemma {:induction false} SelectedExactly(db: Db, call: Call, v: nat)
    requires Inv(db.records) && Accepted(call)
    ensures v in Selected(call.migrations, Newest(db.records)) <==>
            Migration(Some(v)) in call.migrations && NoRecordFrom(db.records, v)
  {
    SelectionAscends(call.migrations, Newest(db.records));
    NewestIsLast(db.records);
    if i :| 0 <= i < |call.migrations| && call.migrations[i].version == Some(v) {
      assert call.migrations[i] == Migration(Some(v));
    }
  }

  /** When a version that was applied before is applied again, for every call, also one that fails
      later on: only if the version is passed again and no record at or above it exists; and then if
      and only if the call proceeds, all outcomes before its own are committed and recorded, and
      its own is committed. A call that succeeds meets the latter by itself. */
  lemma {:induction false} ReappliedExactlyIfUnrecorded(db: Db, call: Call, v: nat)
    requires Inv(db.records) && v in db.committed
    ensures v in Applied(db, call) ==> Migration(Some(v)) in call.migrations && NoRecordFrom(db.records, v)
    ensures Migration(Some(v)) in call.migrations && NoRecordFrom(db.records, v) && Proceeds(db, call) ==>
              var versions := Selected(call.migrations, Newest(db.records));
              exists j: nat | j < |versions| ::
                versions[j] == v && (v in Applied(db, call) <==> CommitsAt(call.outcomes, j))
    ensures Migrate(db, call).1 ==>
              (v in Applied(db, call) <==> Migration(Some(v)) in call.migrations && NoRecordFrom(db.records, v))
  {
    AppliedExactly(db, call, v);
    if Proceeds(db, call) {
      var versions := Selected(call.migrations, Newest(db.records));
      SelectedExactly(db, call, v);
      SelectionAscends(call.migrations, Newest(db.records));
      if v in versions {
        var j: nat :| j < |versions| && versions[j] == v;
        assert forall i: nat | i < |versions| && versions[i] == v :: i == j;
        assert v in Applied(db, call) <==> CommitsAt(call.outcomes, j);
      }
      if Migrate(db, call).1 {
        SuccessAppliesNewer(db, call);
        assert Applied(db, call) == versions;
      }
    }
  }

  /** The table alone does not prevent it: a commit whose record is lost is applied again. */
  lemma {:induction false} LostRecordAppliesTwice(v: nat)
    ensures var migrations := [Migration(Some(v))];
            var lost := Call(migrations, true, true, [Outcome(true, false)]);
            var retry := Call(migrations, true, true, [Outcome(true, true)]);
            Exec(Db([], []), [lost, retry]).committed == [v, v]
  {
    var migrations := [Migration(Some(v))];
    var lost := Call(migrations, true, true, [Outcome(true, false)]);
    var retry := Call(migrations, true, true, [Outcome(true, true)]);
    var empty := Db([], []);
    assert migrations[1..] == [];
    assert Selected(migrations, None) == [v];
    assert RunOne(empty, v, OutcomeAt(lost.outcomes, 0)) == Db([], [v]);
    assert RunAll(empty, [v], lost.outcomes, 0) == (Db([], [v]), false);
    assert Migrate(empty, lost) == (Db([], [v]), false);
    assert [lost, retry][..1] == [lost] && [lost][..0] == [];
    assert Exec(empty, [lost]) == Db([], [v]);
    var after := RunOne(Db([], [v]), v, Outcome(true, true));
    assert RunAll(after, [v], retry.outcomes, 1) == (after, true);
  }
}
