/** The event database as keyed tables: an event log, one table per event kind, and the table that
    ties transactions to their events. Every save is one transaction. */
module EventStore {
  import opened SseTypes

  /** The columns that identify a row of an event table. A block row is unique by height alone, and
      an expired transaction by its hash alone. */
  datatype RowKey =
    | BlockRow(height: nat)
    | AcceptedRow(transactionType: nat, transactionHash: string)
    | ProcessedRow(transactionType: nat, transactionHash: string)
    | ExpiredRow(transactionHash: string)
    | FaultRow(era: nat, publicKey: string)
    | SignatureRow(blockHash: string, publicKey: string)
    | StepRow(era: nat)
    | ShutdownRow(source: string, timestamp: nat)

  /** The event key column of the log; the formats used for it keep its parts apart. */
  datatype EventKey = ByHash(hash: string) | ByEraAndKey(era: nat, key: string) | ByHashAndKey(hash: string, key: string)
                    | ByEra(era: nat) | BySourceAndTime(source: string, time: nat)

  /** An event as received from a node. */
  datatype SseEvent = SseEvent(id: Id, data: SseData, source: string, apiVersion: string, networkName: string)

  datatype LogRow = LogRow(eventType: nat, source: string, eventId: Id, eventKey: EventKey,
                           apiVersion: string, networkName: string)

  datatype TransactionEvent = TransactionEvent(logId: nat, transactionType: nat, transactionHash: string)

  /** A row of an event table: the log row it refers to and, for a transaction, its type. */
  datatype Row = Row(logId: nat, transactionType: nat)

  datatype Tables = Tables(log: map<nat, LogRow>, rows: map<RowKey, Row>, transactionEvents: set<TransactionEvent>)

  datatype SaveResult = Saved | UniqueViolation | WriteFailed

  /** Where the database fails a save, if it does. */
  datatype Failure = NoFailure | AtLogInsert | AtRowInsert | AtCommit

  predicate IsStored(data: SseData) {
    !data.ApiVersion?
  }

  function KeyOf(data: SseData, source: string, now: nat): RowKey
    requires IsStored(data)
  {
    match data
    case BlockAdded(_, height, _) => BlockRow(height)
    case TransactionAccepted(t, hash, _) => AcceptedRow(t, hash)
    case TransactionProcessed(t, hash, _) => ProcessedRow(t, hash)
    case TransactionExpired(_, hash) => ExpiredRow(hash)
    case Fault(era, key, _) => FaultRow(era, key)
    case FinalitySignature(hash, key, _) => SignatureRow(hash, key)
    case Step(era, _) => StepRow(era)
    case Shutdown => ShutdownRow(source, now)
  }

  /** The type number and event key under which an event is logged. */
  function LogKeyOf(data: SseData, source: string, now: nat): (nat, EventKey)
    requires IsStored(data)
  {
    match data
    case BlockAdded(hash, _, _) => (1, ByHash(hash))
    case TransactionAccepted(_, hash, _) => (2, ByHash(hash))
    case TransactionExpired(_, hash) => (3, ByHash(hash))
    case TransactionProcessed(_, hash, _) => (4, ByHash(hash))
    case Fault(era, key, _) => (5, ByEraAndKey(era, key))
    case FinalitySignature(hash, key, _) => (6, ByHashAndKey(hash, key))
    case Step(era, _) => (7, ByEra(era))
    case Shutdown => (8, BySourceAndTime(source, now))
  }

  function LogRowOf(event: SseEvent, now: nat): LogRow
    requires IsStored(event.data)
  {
    var (eventType, eventKey) := LogKeyOf(event.data, event.source, now);
    LogRow(eventType, event.source, event.id, eventKey, event.apiVersion, event.networkName)
  }

  /** The unique index of the event log. */
  predicate SameLogEntry(a: LogRow, b: LogRow) {
    a.source == b.source && a.eventId == b.eventId && a.eventType == b.eventType && a.eventKey == b.eventKey
  }

  predicate IsLogged(t: Tables, row: LogRow) {
    exists id | id in t.log :: SameLogEntry(t.log[id], row)
  }

  /** The row a transaction adds to the table tying transactions to their events. */
  function TransactionEvents(key: RowKey, row: Row): set<TransactionEvent> {
    if key.AcceptedRow? || key.ProcessedRow? || key.ExpiredRow?
    then {TransactionEvent(row.logId, row.transactionType, key.transactionHash)} else {}
  }

  function RowOf(data: SseData, logId: nat): Row {
    match data
    case TransactionAccepted(t, _, _) => Row(logId, t)
    case TransactionProcessed(t, _, _) => Row(logId, t)
    case TransactionExpired(t, _) => Row(logId, t)
    case _ => Row(logId, 0)
  }

  function InsertAll(t: Tables, event: SseEvent, now: nat, logId: nat): Tables
    requires IsStored(event.data)
  {
    var key := KeyOf(event.data, event.source, now);
    var row := RowOf(event.data, logId);
    Tables(t.log[logId := LogRowOf(event, now)], t.rows[key := row],
           t.transactionEvents + TransactionEvents(key, row))
  }

  /** The outcome of a save. */
  function SaveOutcome(t: Tables, event: SseEvent, now: nat, failure: Failure): SaveResult
    requires IsStored(event.data)
  {
    if failure.AtLogInsert? then WriteFailed
    else if IsLogged(t, LogRowOf(event, now)) then UniqueViolation
    else if failure.AtRowInsert? then WriteFailed
    else if KeyOf(event.data, event.source, now) in t.rows then UniqueViolation
    else if failure.AtCommit? then WriteFailed
    else Saved
  }

  class Database {
    var tables: Tables

    constructor ()
      ensures tables == Tables(map[], map[], {})
    {
      tables := Tables(map[], map[], {});
    }

    /** Saves an event: a log row, its event row and, for a transaction, its transaction row. Unless
        all of it is committed the tables stay as they were. `logId` is the id the log assigns. */
    method Save(event: SseEvent, now: nat, logId: nat, failure: Failure) returns (result: SaveResult)
      requires IsStored(event.data) && logId !in tables.log
      modifies this
      ensures result == SaveOutcome(old(tables), event, now, failure)
      ensures result.Saved? ==> tables == InsertAll(old(tables), event, now, logId)
      ensures !result.Saved? ==> tables == old(tables)
    {
      var transaction := tables;
      if failure.AtLogInsert? {
        return WriteFailed;
      }
      var row := LogRowOf(event, now);
      if IsLogged(transaction, row) {
        return UniqueViolation;
      }
      transaction := transaction.(log := transaction.log[logId := row]);
      if failure.AtRowInsert? {
        return WriteFailed;
      }
      var key := KeyOf(event.data, event.source, now);
      if key in transaction.rows {
        return UniqueViolation;
      }
      transaction := transaction.(rows := transaction.rows[key := RowOf(event.data, logId)]);
      transaction := transaction.(transactionEvents :=
        transaction.transactionEvents + TransactionEvents(key, RowOf(event.data, logId)));
      if failure.AtCommit? {
        return WriteFailed;
      }
      tables := transaction;
      result := Saved;
    }
  }

  /** Log rows and event rows belong together one to one, and the log has no entry twice. */
  ghost predicate LogLinked(t: Tables) {
    RowsMatchLog(t) && LogDistinct(t)
  }

  ghost predicate RowsMatchLog(t: Tables) {
    && (forall key | key in t.rows :: t.rows[key].logId in t.log)
    && (forall k1, k2 | k1 in t.rows && k2 in t.rows && t.rows[k1].logId == t.rows[k2].logId :: k1 == k2)
    && (forall id | id in t.log :: exists key | key in t.rows :: t.rows[key].logId == id)
  }

  ghost predicate LogDistinct(t: Tables) {
    forall i, j | i in t.log && j in t.log && SameLogEntry(t.log[i], t.log[j]) :: i == j
  }

  /** The transaction rows are those of the transactions stored. */
  ghost predicate TransactionsLinked(t: Tables) {
    && (forall e | e in t.transactionEvents ::
          exists key | key in t.rows :: e in TransactionEvents(key, t.rows[key]))
    && (forall key | key in t.rows :: TransactionEvents(key, t.rows[key]) <= t.transactionEvents)
  }

  ghost predicate Linked(t: Tables) {
    LogLinked(t) && TransactionsLinked(t)
  }

  lemma {:induction false} SaveKeepsRowsMatched(t: Tables, event: SseEvent, now: nat, logId: nat)
    requires RowsMatchLog(t) && IsStored(event.data) && logId !in t.log
    requires KeyOf(event.data, event.source, now) !in t.rows
    ensures RowsMatchLog(InsertAll(t, event, now, logId))
  {
    var u := InsertAll(t, event, now, logId);
    var key := KeyOf(event.data, event.source, now);
    assert u.rows[key].logId == logId;
    forall id | id in u.log
      ensures exists k | k in u.rows :: u.rows[k].logId == id
    {
      if id != logId {
        var k :| k in t.rows && t.rows[k].logId == id;
        assert u.rows[k].logId == id;
      }
    }
  }

  lemma {:induction false} SaveKeepsLogDistinct(t: Tables, event: SseEvent, now: nat, logId: nat)
    requires LogDistinct(t) && IsStored(event.data) && logId !in t.log && !IsLogged(t, LogRowOf(event, now))
    ensures LogDistinct(InsertAll(t, event, now, logId))
  {
  }

  lemma {:induction false} SaveKeepsLogLinked(t: Tables, event: SseEvent, now: nat, logId: nat)
    requires LogLinked(t) && IsStored(event.data) && logId !in t.log
    requires SaveOutcome(t, event, now, NoFailure).Saved?
    ensures LogLinked(InsertAll(t, event, now, logId))
  {
    SaveKeepsRowsMatched(t, event, now, logId);
    SaveKeepsLogDistinct(t, event, now, logId);
  }

  lemma {:induction false} SaveKeepsTransactionsLinked(t: Tables, event: SseEvent, now: nat, logId: nat)
    requires TransactionsLinked(t) && IsStored(event.data)
    requires KeyOf(event.data, event.source, now) !in t.rows
    ensures TransactionsLinked(InsertAll(t, event, now, logId))
  {
    var u := InsertAll(t, event, now, logId);
    var key := KeyOf(event.data, event.source, now);
    forall e | e in u.transactionEvents
      ensures exists k | k in u.rows :: e in TransactionEvents(k, u.rows[k])
    {
      if e in t.transactionEvents {
        var k :| k in t.rows && e in TransactionEvents(k, t.rows[k]);
        assert e in TransactionEvents(k, u.rows[k]);
      } else {
        assert e in TransactionEvents(key, u.rows[key]);
      }
    }
  }

  // ----- Which events collide ----------------------------------------------------------------

  /** Two events are about the same entity: the columns that identify a row agree. */
  predicate SameEntity(a: SseData, b: SseData) {
    match (a, b)
    case (BlockAdded(_, height, _), BlockAdded(_, other, _)) => height == other
    case (TransactionAccepted(t, hash, _), TransactionAccepted(u, other, _)) => t == u && hash == other
    case (TransactionProcessed(t, hash, _), TransactionProcessed(u, other, _)) => t == u && hash == other
    case (TransactionExpired(_, hash), TransactionExpired(_, other)) => hash == other
    case (Fault(era, key, _), Fault(otherEra, otherKey, _)) => era == otherEra && key == otherKey
    case (FinalitySignature(hash, key, _), FinalitySignature(otherHash, otherKey, _)) => hash == otherHash && key == otherKey
    case (Step(era, _), Step(other, _)) => era == other
    case (Shutdown, Shutdown) => true
    case _ => false
  }

  /** Row keys identify entities, and shutdowns by their source and time as well. */
  lemma {:induction false} KeysIdentify(a: SseData, source: string, now: nat, b: SseData, otherSource: string, later: nat)
    requires IsStored(a) && IsStored(b)
    ensures KeyOf(a, source, now) == KeyOf(b, otherSource, later) <==>
            SameEntity(a, b) && (a.Shutdown? ==> source == otherSource && now == later)
    ensures KeyOf(a, source, now).ShutdownRow? <==> a.Shutdown?
  {
  }

  /** Two events are logged under the same key: the columns of the log's unique index agree. */
  predicate SameEntry(a: SseEvent, now: nat, b: SseEvent, later: nat) {
    && a.source == b.source && a.id == b.id
    && match (a.data, b.data)
       case (BlockAdded(hash, _, _), BlockAdded(other, _, _)) => hash == other
       case (TransactionAccepted(_, hash, _), TransactionAccepted(_, other, _)) => hash == other
       case (TransactionProcessed(_, hash, _), TransactionProcessed(_, other, _)) => hash == other
       case (TransactionExpired(_, hash), TransactionExpired(_, other)) => hash == other
       case (Fault(era, key, _), Fault(otherEra, otherKey, _)) => era == otherEra && key == otherKey
       case (FinalitySignature(hash, key, _), FinalitySignature(otherHash, otherKey, _)) => hash == otherHash && key == otherKey
       case (Step(era, _), Step(other, _)) => era == other
       case (Shutdown, Shutdown) => now == later
       case _ => false
  }

  lemma {:induction false} EntriesIdentify(a: SseEvent, now: nat, b: SseEvent, later: nat)
    requires IsStored(a.data) && IsStored(b.data)
    ensures SameLogEntry(LogRowOf(a, now), LogRowOf(b, later)) <==> SameEntry(a, now, b, later)
  {
  }

  /** What a log row says of its event. */
  lemma {:induction false} LogRowSays(event: SseEvent, now: nat)
    requires IsStored(event.data)
    ensures var row := LogRowOf(event, now);
            && row.source == event.source && row.eventId == event.id
            && row.apiVersion == event.apiVersion && row.networkName == event.networkName
            && match event.data
               case BlockAdded(hash, _, _) => row.eventType == 1 && row.eventKey == ByHash(hash)
               case TransactionAccepted(_, hash, _) => row.eventType == 2 && row.eventKey == ByHash(hash)
               case TransactionExpired(_, hash) => row.eventType == 3 && row.eventKey == ByHash(hash)
               case TransactionProcessed(_, hash, _) => row.eventType == 4 && row.eventKey == ByHash(hash)
               case Fault(era, key, _) => row.eventType == 5 && row.eventKey == ByEraAndKey(era, key)
               case FinalitySignature(hash, key, _) => row.eventType == 6 && row.eventKey == ByHashAndKey(hash, key)
               case Step(era, _) => row.eventType == 7 && row.eventKey == ByEra(era)
               case Shutdown => row.eventType == 8 && row.eventKey == BySourceAndTime(event.source, now)
  {
  }

  // ----- Any sequence of saves ---------------------------------------------------------------

  /** A call of one of the save operations, the id the log would assign, and where the database fails it. */
  datatype SaveCall = SaveCall(event: SseEvent, now: nat, logId: nat, failure: Failure)

  predicate Storable(calls: seq<SaveCall>) {
    forall i | 0 <= i < |calls| :: IsStored(calls[i].event.data)
  }

  /** The tables after some saves; the log assigns fresh ids only. */
  function TablesAfter(calls: seq<SaveCall>): Tables
    requires Storable(calls)
  {
    if calls == [] then Tables(map[], map[], {})
    else
      var before, last := calls[..|calls| - 1], calls[|calls| - 1];
      var t := TablesAfter(before);
      if last.logId !in t.log && SaveOutcome(t, last.event, last.now, last.failure).Saved?
      then InsertAll(t, last.event, last.now, last.logId) else t
  }

  /** What call number i returns. */
  function ResultAt(calls: seq<SaveCall>, i: nat): SaveResult
    requires i < |calls| && Storable(calls)
  {
    SaveOutcome(TablesAfter(calls[..i]), calls[i].event, calls[i].now, calls[i].failure)
  }

  predicate IsSaved(calls: seq<SaveCall>, i: nat)
    requires Storable(calls)
  {
    i < |calls| && calls[i].logId !in TablesAfter(calls[..i]).log && ResultAt(calls, i).Saved?
  }

  lemma {:induction false} EarlierResult(calls: seq<SaveCall>, i: nat)
    requires Storable(calls) && calls != [] && i < |calls| - 1
    ensures IsSaved(calls, i) <==> IsSaved(calls[..|calls| - 1], i)
  {
    assert calls[..|calls| - 1][..i] == calls[..i];
  }

  predicate SavedAs(calls: seq<SaveCall>, i: nat, key: RowKey)
    requires Storable(calls)
  {
    IsSaved(calls, i) && KeyOf(calls[i].event.data, calls[i].event.source, calls[i].now) == key
  }

  ghost predicate KeyStored(calls: seq<SaveCall>, key: RowKey)
    requires Storable(calls)
  {
    exists i | 0 <= i < |calls| :: SavedAs(calls, i, key)
  }

  predicate LoggedAs(calls: seq<SaveCall>, i: nat, id: nat)
    requires Storable(calls)
  {
    IsSaved(calls, i) && calls[i].logId == id
  }

  /** Every log row is the entry of a save that committed. */
  lemma {:induction false} LogHoldsOnlySaved(calls: seq<SaveCall>, id: nat) returns (i: nat)
    requires Storable(calls) && id in TablesAfter(calls).log
    ensures i < |calls| && LoggedAs(calls, i, id)
    ensures TablesAfter(calls).log[id] == LogRowOf(calls[i].event, calls[i].now)
  {
    var n := |calls| - 1;
    if LoggedAs(calls, n, id) {
      i := n;
    } else {
      i := LogHoldsOnlySaved(calls[..n], id);
      EarlierResult(calls, i);
    }
  }

  /** Every save that committed keeps its log row. */
  lemma {:induction false} LogHoldsSaved(calls: seq<SaveCall>, i: nat)
    requires Storable(calls) && i < |calls| && IsSaved(calls, i)
    ensures var t, call := TablesAfter(calls), calls[i];
            call.logId in t.log && t.log[call.logId] == LogRowOf(call.event, call.now)
  {
    var n := |calls| - 1;
    if i < n {
      EarlierResult(calls, i);
      LogHoldsSaved(calls[..n], i);
    } else {
      assert calls[..i] == calls[..n];
    }
  }

  /** The event tables hold exactly the keys of what was saved. */
  lemma {:induction false} RowsHoldSaved(calls: seq<SaveCall>, key: RowKey)
    requires Storable(calls)
    ensures key in TablesAfter(calls).rows <==> KeyStored(calls, key)
  {
    if calls != [] {
      var n := |calls| - 1;
      var before := calls[..n];
      RowsHoldSaved(before, key);
      EarlierKeys(calls, key);
      assert key in TablesAfter(calls).rows <==> key in TablesAfter(before).rows || SavedAs(calls, n, key);
    }
  }

  lemma {:induction false} EarlierKeys(calls: seq<SaveCall>, key: RowKey)
    requires Storable(calls) && calls != []
    ensures var n := |calls| - 1;
            KeyStored(calls, key) <==> KeyStored(calls[..n], key) || SavedAs(calls, n, key)
  {
    if KeyStored(calls[..|calls| - 1], key) {
      KeyStaysStored(calls, key);
    } else if KeyStored(calls, key) {
      NewKeyIsLast(calls, key);
    }
  }

  lemma {:induction false} KeyStaysStored(calls: seq<SaveCall>, key: RowKey)
    requires Storable(calls) && calls != [] && KeyStored(calls[..|calls| - 1], key)
    ensures KeyStored(calls, key)
  {
    var i: nat :| i < |calls| - 1 && SavedAs(calls[..|calls| - 1], i, key);
    EarlierSavedAs(calls, i, key);
  }

  lemma {:induction false} NewKeyIsLast(calls: seq<SaveCall>, key: RowKey)
    requires Storable(calls) && calls != [] && KeyStored(calls, key) && !KeyStored(calls[..|calls| - 1], key)
    ensures SavedAs(calls, |calls| - 1, key)
  {
    var i: nat :| i < |calls| && SavedAs(calls, i, key);
    if i < |calls| - 1 {
      EarlierSavedAs(calls, i, key);
    }
  }

  lemma {:induction false} EarlierSavedAs(calls: seq<SaveCall>, i: nat, key: RowKey)
    requires Storable(calls) && calls != [] && i < |calls| - 1
    ensures SavedAs(calls, i, key) <==> SavedAs(calls[..|calls| - 1], i, key)
  {
    EarlierResult(calls, i);
  }

  /** An event saved before has the same log entry. */
  ghost predicate EntryTaken(calls: seq<SaveCall>, event: SseEvent, now: nat)
    requires Storable(calls)
  {
    exists i | 0 <= i < |calls| :: IsSaved(calls, i) && SameEntry(calls[i].event, calls[i].now, event, now)
  }

  /** An event saved before is about the same entity; shutdowns are told apart by source and time. */
  ghost predicate EntityTaken(calls: seq<SaveCall>, event: SseEvent, now: nat)
    requires Storable(calls)
  {
    exists i | 0 <= i < |calls| :: AboutSame(calls, i, event, now)
  }

  predicate AboutSame(calls: seq<SaveCall>, i: nat, event: SseEvent, now: nat)
    requires Storable(calls)
  {
    && IsSaved(calls, i) && SameEntity(calls[i].event.data, event.data)
    && (event.data.Shutdown? ==> calls[i].event.source == event.source && calls[i].now == now)
  }

  lemma {:induction false} LoggedExactly(calls: seq<SaveCall>, event: SseEvent, now: nat)
    requires Storable(calls) && IsStored(event.data)
    ensures IsLogged(TablesAfter(calls), LogRowOf(event, now)) <==> EntryTaken(calls, event, now)
  {
    var t, row := TablesAfter(calls), LogRowOf(event, now);
    if IsLogged(t, row) {
      var id :| id in t.log && SameLogEntry(t.log[id], row);
      var i := LogHoldsOnlySaved(calls, id);
      EntriesIdentify(calls[i].event, calls[i].now, event, now);
    }
    if i: nat :| i < |calls| && IsSaved(calls, i) && SameEntry(calls[i].event, calls[i].now, event, now) {
      LogHoldsSaved(calls, i);
      EntriesIdentify(calls[i].event, calls[i].now, event, now);
      assert calls[i].logId in t.log && SameLogEntry(t.log[calls[i].logId], row);
    }
  }

  lemma {:induction false} StoredExactly(calls: seq<SaveCall>, event: SseEvent, now: nat)
    requires Storable(calls) && IsStored(event.data)
    ensures KeyOf(event.data, event.source, now) in TablesAfter(calls).rows <==> EntityTaken(calls, event, now)
  {
    var key := KeyOf(event.data, event.source, now);
    RowsHoldSaved(calls, key);
    if i: nat :| i < |calls| && SavedAs(calls, i, key) {
      KeysIdentify(calls[i].event.data, calls[i].event.source, calls[i].now, event.data, event.source, now);
      assert AboutSame(calls, i, event, now);
    }
    if i: nat :| i < |calls| && AboutSame(calls, i, event, now) {
      KeysIdentify(calls[i].event.data, calls[i].event.source, calls[i].now, event.data, event.source, now);
      assert SavedAs(calls, i, key);
    }
  }

  /** After any saves, an event is saved if and only if the database does not fail and no event saved before
      is the same log entry or the same entity. Otherwise the first obstacle decides: the log insert comes
      before the row insert, and that before the commit. */
  lemma {:induction false} SavedExactly(calls: seq<SaveCall>, event: SseEvent, now: nat, failure: Failure)
    requires Storable(calls) && IsStored(event.data)
    ensures var result := SaveOutcome(TablesAfter(calls), event, now, failure);
            && (result.Saved? <==>
                failure.NoFailure? && !EntryTaken(calls, event, now) && !EntityTaken(calls, event, now))
            && (result.UniqueViolation? <==>
                || (EntryTaken(calls, event, now) && !failure.AtLogInsert?)
                || (EntityTaken(calls, event, now) && (failure.NoFailure? || failure.AtCommit?)))
  {
    LoggedExactly(calls, event, now);
    StoredExactly(calls, event, now);
  }

  /** A saved transaction is tied to its log row under its own type and hash, and nothing else is tied to that. */
  lemma {:induction false} SavedTransactionIsTied(t: Tables, event: SseEvent, now: nat, logId: nat, e: TransactionEvent)
    requires TransactionsLinked(t) && IsStored(event.data) && KeyOf(event.data, event.source, now) !in t.rows
    requires forall key | key in t.rows :: t.rows[key].logId != logId
    ensures e.logId == logId ==>
              (e in InsertAll(t, event, now, logId).transactionEvents <==>
               match event.data
               case TransactionAccepted(type_, hash, _) => e == TransactionEvent(logId, type_, hash)
               case TransactionProcessed(type_, hash, _) => e == TransactionEvent(logId, type_, hash)
               case TransactionExpired(type_, hash) => e == TransactionEvent(logId, type_, hash)
               case _ => false)
  {
  }
}
