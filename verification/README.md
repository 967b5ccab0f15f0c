# A verified model of the Casper Sidecar

The Casper Sidecar listens to the event streams of one or more nodes, stores their events, publishes
them again on an event stream of its own, and passes requests to a node's binary port. This project
models the parts of it whose correctness depends on order, interleaving or wrap-around, and proves
what they guarantee over every input and every run.

`dafny verify dfyconfig.toml` checks everything. One module per component:

| module | what it models |
|---|---|
| `SseTypes` | versions, event data, server-sent events |
| `EventIndexing` | the persistent, wrapping 32-bit event counter |
| `Replay` | which buffered events a late subscriber gets, although ids wrap |
| `HttpServers` | the server task: wheel buffer, version tags, the initial events of a subscriber |
| `ClientStream` | one client: initial events chained to the live broadcast, as a state machine over every interleaving |
| `Delivery` | what that client sees, in unbounded publish positions |
| `ConnectionTasks` | the all-or-nothing start barrier of a listener's connections, at the level of single atomic accesses |
| `ListenerResume` | intake from one node across reconnects, with the lagging last-event-id registry |
| `ListenerRepeats` | how many events a reconnecting listener forwards again |
| `ListenerStream` | draining one connection, step by step |
| `ReconnectLoop`, `KeepAlive` | the listener's attempt counter and keep-alive monitor |
| `EventStore` | saving an event in one transaction |
| `Intake` | several nodes feeding one outbound channel through the database and the API version gate |
| `IntakeGuarantees` | what that sends, told by the fields of the events handled |
| `EndToEnd` | versions and events, from the nodes to a client's stream |
| `NodeClient`, `Backoff` | the binary-port client: matching responses, retrying, reconnecting |
| `BlockCache` | the prefetch cache for the latest block |
| `Migrations` | database migrations over any sequence of start-ups |

## How the model is built

Objects the source updates in place are classes (`EventIndexer`, `HttpServer`, `ConnectionManager`,
`Database`, `ApiVersionManager`, `FramedNodeClient`, `CachingNodeClient`, `MigrationManager`). Their
methods are proved equal to specification functions, and the lemmas are about those functions.

Concurrent parts are state machines: a total function `Do` (or `Next`, guarded by `Enabled`) gives
the effect of one action, `Exec` folds it over a sequence of actions, and a lemma `Reachable` proves
an invariant for every sequence. An action that is not enabled changes nothing, so "every sequence
of actions" means every interleaving.

What the outside world does is a parameter: database failures, the node's answers, connection
attempts, the schedule, and the clock.

## What the proofs found

- **Replay works for every suffix if and only if three buffers fit in the id range**
  (`Replay.ReplayExactness`). A comment at event_sidecar/src/event_stream_server/http_server.rs:149-150
  promises the whole buffer to a client that asks for more than is buffered. The code keeps that
  promise if and only if the event was evicted within a lookback distance that shrinks to nothing near
  the wrap; beyond it the client gets nothing (`Replay.EvictedStart`,
  `Replay.JustEvictedStartCanReplayNothing`).
- **A client that has read past its registration (R <= T) has seen every event once, in order, if and
  only if k <= S <= R and T <= k + 2^32**, where k is the event it named and R, S, T are the numbers of
  events published when it was registered, when it subscribed, and when it last read
  (`Delivery.MergeExact`, `Delivery.ExactlyOnceMerge`). The handler sends the registration before it
  subscribes (event_sidecar/src/event_stream_server/sse_server.rs:427 and 435), so S > R is possible;
  `Delivery.LateSubscriptionSkips` is a run in which the second of three events never arrives.
- **A version announced after the newest buffered event is not replayed.** A resuming client then
  attributes live events to the older version until the next announcement
  (`Delivery.HiddenVersionMisattributes` is a run, and exactly when: `HttpServers.FirstLiveEventVersion`,
  `EndToEnd.AttributionExact`). A doc comment on the subscriber info says an ApiVersion always comes
  first; the code sends none while it knows no version.
- **The versions in a client's stream can go back** if versions are announced between its subscription
  and a later registration (`EndToEnd.VersionsCanGoBack`, and exactly when:
  `EndToEnd.ClientVersionsIncrease`).
- **A reconnecting listener repeats boundedly many events if and only if connections are made with at
  most one report in transit to the registry; the least bound is then 12**
  (`ListenerRepeats.RepeatsExactness`). The channel of reports outlives connections, and with two
  reports in transit an old one can be kept in it for ever (`ListenerRepeats.RepeatsUnbounded`).
- **A call never gets another call's answer if and only if at most 65534 calls in a row are dropped**
  by their callers (`NodeClient.MatchingExactness`). After 65535 the 16-bit id has come round, and
  `NodeClient.WrongAnswer` is a run in which calls are dropped while they wait for their answers and the
  next one is given the answer to another.
- **Delays grow as configured if and only if no product wraps around to less than the maximum**
  (`Backoff.IdealExactly`). Doubling 2^63 milliseconds leads to retries without any delay
  (`Backoff.WrapsToNoDelay`).
- **A migration is applied twice if its commit succeeded and its record was lost**
  (`Migrations.LostRecordAppliesTwice`, and exactly when: `Migrations.ReappliedExactlyIfUnrecorded`).

## Model

| member | source | states |
|---|---|---|
| Replay.ReplayFollowsPositions | event_sidecar/src/event_stream_server/http_server.rs:151-172 | For every requested id, read as position r relative to the oldest buffered event, the shifted 32-bit comparison replays exactly the events from r on: the whole buffer if r is negative, nothing if r is past the end |
| Replay.BufferedStartReplaysSuffix | event_sidecar/src/event_stream_server/http_server.rs:151-172 | A client that names a buffered event gets that event and all after it, on either side of the id wrap |
| Replay.EvictedStart | event_sidecar/src/event_stream_server/http_server.rs:149-172 | A client that names an event evicted d positions ago gets the whole buffer if and only if d is within the lookback, otherwise nothing |
| Replay.JustEvictedStartCanReplayNothing | event_sidecar/src/event_stream_server/http_server.rs:149-172 | A concrete buffer near the wrap where naming the event evicted last replays nothing |
| Replay.LookbackInNumbers | event_sidecar/src/event_stream_server/http_server.rs:151-172 | The lookback in numbers, for every capacity: the oldest id itself away from the wrap, one buffer length more just behind it, and only what the buffer reaches across it just before it |
| Replay.ReplayExactness | event_sidecar/src/event_stream_server/http_server.rs:151-172 | A buffer capacity replays every named suffix of every buffer if and only if three times the capacity fits in the id range |
| EventIndexing.IndexRoundTrip | event_sidecar/src/event_stream_server/event_indexer.rs:20-85 | The index saved as four little-endian bytes is read back unchanged |
| EventIndexing.EventIndexer.constructor | event_sidecar/src/event_stream_server/event_indexer.rs:20-55 | A new indexer continues from the cache file, and from 0 if that is absent, unreadable or of the wrong length |
| EventIndexing.RestoredExactly | event_sidecar/src/event_stream_server/event_indexer.rs:20-55 | A cache file of four bytes is read as the number whose least byte comes first, and anything else as 0 |
| EventIndexing.EventIndexer.NextIndex | event_sidecar/src/event_stream_server/event_indexer.rs:57-61 | Returns the current id and moves on by one, wrapping at 2^32 |
| EventIndexing.EventIndexer.Close | event_sidecar/src/event_stream_server/event_indexer.rs:69-85 | A closing indexer saves four bytes, the least one first, that restore its index |
| EventIndexing.RunSessions | event_sidecar/src/event_stream_server/event_indexer.rs:20-85 | Over any number of cleanly closed sessions the ids issued form one unbroken run, across restarts and the wrap |
| HttpServers.PushRefinesWheel | event_sidecar/src/event_stream_server/http_server.rs:99-138 | Pushing onto the wheel buffer keeps it equal to the last entries of the unbounded list |
| HttpServers.BufferIsNewestPayloads | event_sidecar/src/event_stream_server/http_server.rs:71-138 | The buffer is exactly as long as the capacity and the events since the first ApiVersion allow, and holds the newest published events with consecutive ids |
| HttpServers.SinceVersionIsSuffix | event_sidecar/src/event_stream_server/http_server.rs:99-138 | The events that count are those from the first ApiVersion on, and no ApiVersion comes before it |
| HttpServers.FramingRoundTrip | event_sidecar/src/event_stream_server/http_server.rs:159-205 | A client that decodes the replayed stream recovers every event with the version it was published under |
| HttpServers.FramingIncreases | event_sidecar/src/event_stream_server/http_server.rs:159-205 | If buffered versions never decrease, the ApiVersions inserted into a replay strictly increase |
| HttpServers.InitialEventsAreFramed | event_sidecar/src/event_stream_server/http_server.rs:140-190 | The initial events decode to the replayed entries with their versions, and start with an ApiVersion once the server knows one |
| HttpServers.ReplayDecodesHistory | event_sidecar/src/event_stream_server/http_server.rs:99-190 | A late subscriber decodes its initial events into exactly the last part of what a client that listened from the start decoded, the same events under the same versions |
| HttpServers.InitialVersionsIncrease | event_sidecar/src/event_stream_server/http_server.rs:140-190 | The ApiVersions among the initial events strictly increase |
| HttpServers.InitialEventsVersion | event_sidecar/src/event_stream_server/http_server.rs:140-190 | The initial events leave the client with the newest buffered event's version if anything was replayed, else with the server's |
| HttpServers.ClientVersionAfterInitialEvents | event_sidecar/src/event_stream_server/http_server.rs:140-190 | The client is left with the server's version if and only if nothing was replayed or the newest buffered event carries it |
| HttpServers.FirstLiveEventVersion | event_sidecar/src/event_stream_server/http_server.rs:99-190 | The exact condition under which the first live event is attributed to the version it was published under |
| HttpServers.ReplayCanHideNewVersion | event_sidecar/src/event_stream_server/http_server.rs:140-190 | A version announced after the newest buffered event is hidden from a resuming client |
| HttpServers.NoStartNoReplay | event_sidecar/src/event_stream_server/http_server.rs:140-190 | A client that names no event is sent the comment, if it is a legacy one, and the server's version, if it has one, and nothing else |
| HttpServers.HttpServer.HandleIncomingData | event_sidecar/src/event_stream_server/http_server.rs:99-138 | Publishing keeps the buffer and the latest version equal to functions of the whole history |
| HttpServers.HttpServer.FirstReplayed | event_sidecar/src/event_stream_server/http_server.rs:151-172 | The skip loop stops at the replay index |
| HttpServers.HttpServer.SendReplayed | event_sidecar/src/event_stream_server/http_server.rs:173-205 | The sending loop produces the framed entries |
| HttpServers.HttpServer.RegisterNewSubscriber | event_sidecar/src/event_stream_server/http_server.rs:140-190 | Registration sends exactly the initial events of the current buffer, no event at all to a client that names none, and leaves the server unchanged |
| ClientStream.Reachable | event_sidecar/src/event_stream_server/sse_server.rs:399-447 | After every interleaving of publishing, registering, subscribing and reading, the server state is a function of the history and the client has been sent the initial events followed by the live messages without duplicates |
| ClientStream.PublishedIsBroadcast | event_sidecar/src/event_stream_server/http_server.rs:99-138 | In every interleaving the broadcast history holds exactly what was published, in order, with its data and filter |
| Delivery.DedupKeepsPositions | event_sidecar/src/event_stream_server/sse_server.rs:591-653 | Filtering the live stream by the initial ids keeps exactly the positions whose ids were not replayed, in order |
| Delivery.MergeExact | event_sidecar/src/event_stream_server/sse_server.rs:591-653 | Replay of k..R merged with live S..T is k..T without gap or repeat if and only if k <= S <= R and T <= k + 2^32 |
| Delivery.InitialPositions | event_sidecar/src/event_stream_server/http_server.rs:140-190 | The initial events of any subscriber are the newest events from position k on: none if the client named no event or none is buffered, otherwise from the position its id is taken for, the oldest buffered one if that was evicted, and none if it is not yet published |
| Delivery.AlwaysTaken | event_sidecar/src/event_stream_server/http_server.rs:151-172 | Every id a client can name is taken for a position |
| Delivery.DeliveredIsMerge | event_sidecar/src/event_stream_server/sse_server.rs:549-609 | In every reachable state a live client has seen exactly the merge of its replay with its live positions |
| Delivery.ExactlyOnceMerge | event_sidecar/src/event_stream_server/sse_server.rs:399-447 | In every interleaving, a client that names a buffered event sees it and all its successors once each and in order, under a condition that is also necessary once it has read past its registration |
| Delivery.LateSubscriptionMissesEvent | event_sidecar/src/event_stream_server/sse_server.rs:418-447 | A run in which an event published between registration and subscription is never delivered: the whole history and the whole delivered stream |
| Delivery.LateSubscriptionSkips | event_sidecar/src/event_stream_server/sse_server.rs:418-447 | Of three published events the client receives the first, which it named, and the third |
| Delivery.HiddenVersionMisattributes | event_sidecar/src/event_stream_server/http_server.rs:140-190 | A run in which a resuming client reads an event behind an older version than the one it was published under: the whole history and the whole delivered stream |
| Delivery.NoDuplicateDelivery | event_sidecar/src/event_stream_server/sse_server.rs:591-653 | No id is delivered twice to a client, in any interleaving, until 2^32 events were read since it subscribed |
| Delivery.DuplicatesExactly | event_sidecar/src/event_stream_server/sse_server.rs:591-653 | A live client is delivered some id twice if and only if it read live, and did not drop, an event that was followed by another 2^32 events it read live |
| ConnectionTasks.Reachable | listener/src/connection_tasks.rs:38-69 | After every interleaving of single atomic accesses, counter and flag record what the tasks registered, and a permit or a pending notification exists exactly when the outcome is decided |
| ConnectionTasks.OutcomesFollowAttempts | listener/src/connection_manager.rs:155-183 | In every run a task that connected has registered success, one that did not has registered failure, and one that has not tried has registered nothing |
| ConnectionTasks.RegistrationNotifies | listener/src/connection_tasks.rs:38-50 | A task that registers notifies exactly if it is the last to succeed, fails, or sees that another one failed |
| ConnectionTasks.WokenByNotifications | listener/src/connection_tasks.rs:38-69 | In every run tasks are woken at most as often as somebody notified, the stored permit included |
| ConnectionTasks.GoneExactly | listener/src/connection_manager.rs:155-183 | In every run a task is gone without waiting if and only if its failure was registered and it chose not to wait |
| ConnectionTasks.Agreement | listener/src/connection_tasks.rs:53-69 | In every run a task's wait returns true only if every task's connection attempt succeeded, and false only if some task's attempt failed, which exclude each other |
| ConnectionTasks.NoLostWakeup | listener/src/connection_tasks.rs:38-69 | Once the outcome is decided, a waiting task can always be moved on by tasks that have already registered |
| ConnectionTasks.StepDecreases | listener/src/connection_tasks.rs:38-69 | Every atomic step lowers a rank, so re-notification cannot go on for ever |
| ConnectionTasks.EveryRunEnds | listener/src/connection_manager.rs:155-183 | Every run takes at most ten steps per task, and in one that cannot go on every wait has returned: true if the connection attempts of all tasks succeeded, otherwise false; only tasks whose attempt failed may be gone without a wait |
| ListenerResume.Reachable | listener/src/connection_manager.rs:185-258 | After every interleaving of node, connection and registry steps, resuming from the registry or from any id still in the channel is safe |
| ListenerResume.GapFreeIntake | listener/src/lib.rs:287-305 | Over any number of reconnects, every event before the stream position that the node still retains was forwarded, also for a connection made now |
| ListenerRepeats.RepeatsOfLatestBounded | listener/src/lib.rs:287-305 | After every run, a connection made now repeats at most 12 of the events the latest connection reported: those whose reports are in the channel or in hand, and the registered one |
| ListenerRepeats.AllRepeatsBounded | listener/src/lib.rs:287-305 | After every run whose connections were made with at most one report in transit, a connection made now repeats at most 12 of all the events forwarded so far |
| ListenerRepeats.RepeatsUnbounded | listener/src/lib.rs:287-305 | For every n there is a run, with at most two reports in transit at every connection, after which a connection made now forwards n + 1 events again, all of which were forwarded before |
| ListenerRepeats.RepeatsExactness | listener/src/lib.rs:287-305 | Over all runs whose connections are made with at most m reports in transit, a connection made now repeats at most b events in all if and only if m <= 1 and b >= 12 |
| ListenerResume.ConnectionManager.constructor | listener/src/connections_builder.rs:49-61 | A connection asks for the events from the registered id on, or from 0 if none is registered |
| ListenerResume.ConnectionManager.ConsumeApiVersion | listener/src/connection_manager.rs:260-321 | A connection counts as made if and only if its first message is a decodable ApiVersion that can be sent on; that sets the version events are handled under |
| ListenerResume.ConnectionManager.HandleStream | listener/src/connection_manager.rs:185-258 | Draining a stream forwards a prefix, reports every forwarded id and also the id of an event whose handling failed, and says why it stopped: closed, stream error, failed report, or failed handling or sending |
| ListenerStream.DrainingIsARun | listener/src/connection_manager.rs:185-258 | However draining a stream ends, some steps of connection and registry in the state machine report exactly the reported ids, forward exactly the forwarded events, and end without a connection |
| ReconnectLoop.StreamAggregatedEvents | listener/src/lib.rs:109-146 | The loop gives up at the first point where max iterations in a row, counted from the last one that brought different metadata, are over, and not before; so with k such changes it runs at most (k+1)*max - k iterations. It fails fast exactly on a rejected version or network; how it ends is a function of the fetches alone, whatever connecting leads to, and it warns exactly about the lost connections |
| ReconnectLoop.HeldIsNewest | listener/src/lib.rs:109-146 | The metadata held is what was fetched last, or the initial metadata if nothing was |
| ReconnectLoop.ChangesOne | listener/src/lib.rs:109-146 | A change is a fetch that brings other metadata than the fetch before it that brought any |
| ReconnectLoop.SinceChangeExactly | listener/src/lib.rs:109-146 | The attempts counted are those since the last change, that one included, or all if there was none |
| KeepAlive.PassesExactly | listener/src/keep_alive_monitor.rs:75-116 | A check leaves the connection alone if and only if some tick lies at most the timeout back, or there was none yet and the first check lies at most the timeout back |
| KeepAlive.LastTickIsNewest | listener/src/keep_alive_monitor.rs:75-116 | The recorded tick is the newest one up to now |
| KeepAlive.RunChecker | listener/src/keep_alive_monitor.rs:75-116 | However long the checker sleeps between checks, it cancels at the first check that comes more than the timeout after the last record, and never within the timeout of a recorded tick |
| KeepAlive.CancelsInTime | listener/src/keep_alive_monitor.rs:90-116 | If no sleep lasts longer than l, it cancels at most timeout + l after the last record, or timeout + 2 l after the start if there was none |
| EventStore.Database.Save | event_sidecar/src/database/writer_generator.rs:50-90 | A save inserts the log row, the event row and the transaction row together, or leaves the tables unchanged, for every point of failure |
| EventStore.SavedExactly | event_sidecar/src/database/writer_generator.rs:50-90 | After any saves, an event is saved if and only if the database does not fail and no event saved before is the same log entry or is about the same entity, told by the events' own fields; the result otherwise is that of the first obstacle |
| EventStore.KeysIdentify | event_sidecar/src/sql/tables/finality_signature.rs:40-46 | Two events have the same row key if and only if they are about the same entity: blocks by height, transactions by kind, type and hash, expired ones by hash, faults by era and key, signatures by block and key, steps by era, shutdowns by source and time |
| EventStore.EntriesIdentify | event_sidecar/src/sql/tables/event_log.rs:73-81 | Two events are one log entry if and only if they come from the same source with the same id and are of the same kind about the same thing |
| EventStore.LogRowSays | event_sidecar/src/sql/tables/event_type.rs:14-23 | A log row carries its event's type number, source, id, version and network |
| EventStore.SavedTransactionIsTied | event_sidecar/src/database/writer_generator.rs:92-135 | A saved transaction is tied to its log row under its own type and hash, and nothing else is |
| EventStore.SaveKeepsLogLinked | event_sidecar/src/database/writer_generator.rs:442-467 | A committed save keeps log rows and event rows one to one and the log free of duplicate entries |
| EventStore.SaveKeepsTransactionsLinked | event_sidecar/src/database/writer_generator.rs:92-135 | A committed save keeps the transaction table equal to the transactions stored, with their types and hashes |
| Intake.ApiVersionManager.StoreVersion | event_sidecar/src/api_version_manager.rs:23-34 | A version is stored, and reported as changed, exactly if it is newer than the stored one |
| Intake.Reachable | event_sidecar/src/lib.rs:452-530 | The once, order and version invariants hold after every interleaving of the nodes' workers |
| Intake.ExactlyOnceAcrossNodes | event_sidecar/src/event_handling_service.rs:69-98 | However many nodes deliver an entity and whatever the database fails, it is sent at most once, never unless a save of it committed, and exactly once when the workers are idle if one did |
| Intake.NodeOrderKept | event_sidecar/src/lib.rs:452-530 | What is sent on behalf of a node is a subsequence of what that node delivered, in its order |
| Intake.VersionsAscend | event_sidecar/src/event_handling_service/db_saving_event_handling_service.rs:36-50 | The API versions sent, from whichever nodes, strictly ascend |
| IntakeGuarantees.TablesAreSaves | event_sidecar/src/event_handling_service.rs:69-98 | After every interleaving the tables are those of the saves made, in their order |
| IntakeGuarantees.TakenUpInOrder | event_sidecar/src/lib.rs:452-530 | In every run a node's worker takes up the node's events one after the other, none twice and none left out, whatever becomes of them |
| IntakeGuarantees.EntitySentOnce | event_sidecar/src/event_handling_service.rs:69-98 | Of all events about an entity, told by their fields, at most one is sent, none unless a save of one committed, and once the workers are idle exactly one if one did |
| IntakeGuarantees.ShutdownsAllPassed | event_sidecar/src/event_handling_service/db_saving_event_handling_service.rs:304-333 | Once the workers are idle, as many shutdowns were sent as were handled without a database failure, also those stored before |
| IntakeGuarantees.GreatestVersionSent | event_sidecar/src/api_version_manager.rs:23-34 | Once the workers are idle, the version sent last is the greatest one handled, from whichever node, and no version handled is above it |
| SseTypes.VersionOrder | event_sidecar/src/api_version_manager.rs:23-34 | Versions are ordered by the first of major, minor and patch in which they differ, and any two that differ one way only |
| EndToEnd.PublishedVersionsIncrease | event_sidecar/src/lib.rs:101-127 | Whatever the nodes announce and however everything interleaves, the versions published strictly increase, and so do those among the initial events of any subscriber |
| EndToEnd.ClientVersionsIncrease | event_sidecar/src/event_stream_server/sse_server.rs:591-609 | The versions in the stream a client reads strictly increase while it reads its initial events, after that if and only if the first version published since it subscribed is above the one its initial events left it with, and always if none was published between subscription and a later registration |
| EndToEnd.VersionsCanGoBack | event_sidecar/src/event_stream_server/sse_server.rs:418-447 | A run in which a client reads a version after a newer one |
| EndToEnd.AttributionExact | event_sidecar/src/event_stream_server/sse_server.rs:399-447 | In every reachable state of a live client, the exact condition under which its version is the one the next event was published under |
| EndToEnd.AtMostOncePerClient | event_sidecar/src/lib.rs:101-127 | However many nodes deliver an entity, whatever the database fails and however everything interleaves, a client is delivered it at most once, from whatever start and in every state, until 2^32 events were read since it subscribed |
| EndToEnd.ExactlyOncePerClient | event_sidecar/src/lib.rs:101-127 | Once everything is handled, published and read, a client that resumed from buffered event k under the exact delivery condition has exactly the events from k on; each entity was published exactly once if stored and not at all otherwise, and for k = 0 the same holds of the client |
| NodeClient.AwaitResponse | rpc_sidecar/src/node_client.rs:1086-1132 | The read loop skips outdated responses up to the limit; an accepted response carries the expected id, or an unparsable one if that id is 0 |
| NodeClient.FramedNodeClient.SendRequestInternal | rpc_sidecar/src/node_client.rs:1067-1132 | One attempt, for every way sending and receiving can go |
| NodeClient.FramedNodeClient.Request | rpc_sidecar/src/node_client.rs:1205-1265 | A call: it fails at once if it does not get hold of the client in time; otherwise one attempt, then one reconnect and one more attempt |
| NodeClient.CallResult | rpc_sidecar/src/node_client.rs:1205-1265 | What a call returns in every case: the first attempt's answer if there is one; otherwise an error unless it reconnects, and then exactly the second attempt's own answer or the reason it has none |
| NodeClient.CleanAttempt | rpc_sidecar/src/node_client.rs:1067-1132 | An attempt on a connection that owes nothing returns its own answer if that arrives, and otherwise the error of what came instead |
| NodeClient.AttemptExactly | rpc_sidecar/src/node_client.rs:1067-1132 | What a transmitted attempt returns, and which answers it leaves unread, behind any answers owed and however many of them arrive |
| NodeClient.UnsentAttempt | rpc_sidecar/src/node_client.rs:1067-1132 | An attempt that is not sent in time fails, uses up an id, and leaves a request behind only if it was transmitted after all |
| NodeClient.UnparsableCountsAsZero | rpc_sidecar/src/node_client.rs:1281-1299 | A response whose id cannot be parsed answers request 0 and is skipped by every other request |
| NodeClient.TransmitsAtMostTwice | rpc_sidecar/src/node_client.rs:1205-1265 | A call transmits its command at most twice, under different ids |
| NodeClient.AnswerIsOwn | rpc_sidecar/src/node_client.rs:1281-1299 | A successful attempt returns the answer to its own request and leaves nothing owed, across the 16-bit id wrap |
| NodeClient.AttemptResult | rpc_sidecar/src/node_client.rs:1086-1132 | The result of an attempt behind arbitrary stale answers, including the stale answer that is mistaken for the right one |
| NodeClient.StaleAnswerBudget | rpc_sidecar/src/node_client.rs:1086-1132 | Behind s stale answers a request succeeds if s <= 99 and fails with too many mismatches if s >= 100, unless ids wrapped, in which case the oldest is rejected at once |
| NodeClient.BudgetSuffices | rpc_sidecar/src/node_client.rs:1086-1132 | With fewer than 100 answers owed the read limit is never reached |
| NodeClient.Reachable | rpc_sidecar/src/node_client.rs:1033-1047 | After every sequence of calls, dropped calls and reconnects, a usable connection owes at most one answer more than calls were dropped just before |
| NodeClient.ResponseMatching | rpc_sidecar/src/node_client.rs:1205-1265 | Over every sequence with at most 65534 dropped calls in a row, a call that succeeds got its own answer, and no call fails for too many mismatched responses |
| NodeClient.WrongAnswer | rpc_sidecar/src/node_client.rs:1029-1132 | A run with 65535 calls in a row dropped while they wait for their answers, after which a call is given the answer to the first call |
| NodeClient.MatchingExactness | rpc_sidecar/src/node_client.rs:1205-1265 | All answers are own answers in every run with at most N dropped calls in a row if and only if N <= 65534 |
| NodeClient.AtMostOneStaleAnswer | rpc_sidecar/src/node_client.rs:1205-1265 | When a call starts, a usable connection owes at most one answer, plus one for each call dropped just before |
| Backoff.DelayClosedForm | rpc_sidecar/src/node_client.rs:1144-1176 | Delays after the first are min(initial * coefficient^k, max); the first is not capped |
| Backoff.IdealExactly | rpc_sidecar/src/node_client.rs:1144-1176 | The first n delays are min(initial * coefficient^k, max) if and only if no product on the way wraps around 64 bits to less than the maximum |
| Backoff.WrapsToNoDelay | rpc_sidecar/src/node_client.rs:1144-1176 | From 2^63 doubling leads to delays of 0 for good |
| Backoff.ConnectWithRetries | rpc_sidecar/src/node_client.rs:1144-1176 | Stops at the first accepted attempt, gives up after exactly max(1, maxAttempts) attempts, and waits the k-th delay between any two |
| Backoff.TotalWaitBounded | rpc_sidecar/src/node_client.rs:1144-1176 | The total wait is at most the first delay plus the maximum for each further one |
| BlockCache.CachingNodeClient.CacheUpdateLoop | rpc_sidecar/src/caching_node_client.rs:66-132 | The loop handles messages up to and including the closing of the channel and leaves the cache the fold of them |
| BlockCache.ReadsNeverGoBack | rpc_sidecar/src/caching_node_client.rs:66-132 | Whatever the node answers, a later cached read gives the same block or one of strictly greater height, unless the cache was cleared in between |
| BlockCache.KeptUntilDisplaced | rpc_sidecar/src/caching_node_client.rs:66-132 | Whatever the node answers, a cached block stays until the channel lags or closes or a higher block is announced and the node gives a higher one or none; then what the node gave takes its place |
| BlockCache.CacheIsGreatestAnnounced | rpc_sidecar/src/caching_node_client.rs:66-132 | If the node returns the heights asked for, the cache is empty or holds a block of the greatest height announced since the last lag, closing or unanswered announcement |
| Migrations.ValidateUniqueness | event_sidecar/src/database/migration_manager.rs:126-147 | The scan rejects a list exactly if some version occurs twice |
| Migrations.SelectionAscends | event_sidecar/src/database/migration_manager.rs:63-79 | The migrations selected are exactly those newer than the newest recorded one, in strictly ascending order |
| Migrations.NewestIsLast | event_sidecar/src/sql/tables/migration.rs:30-38 | In a table filled by migrations the greatest version is the one inserted last |
| Migrations.MigrationManager.ExecuteMigration | event_sidecar/src/database/writer_generator.rs:385-418 | A migration is committed or not and recorded or not, separately, and succeeds if both; what is recorded is the version with whether it was committed |
| Migrations.MigrationManager.DoMigrate | event_sidecar/src/database/migration_manager.rs:55-89 | Runs the selected migrations until one fails |
| Migrations.MigrationManager.Run | event_sidecar/src/database/migration_manager.rs:28-48 | A whole call, with its checks in order |
| Migrations.Reachable | event_sidecar/src/database/migration_manager.rs:28-89 | After any sequence of calls, recorded versions strictly ascend and all but the last succeeded; if no commit went unrecorded, each version was applied at most once and the table says which were |
| Migrations.RunRecordsExactly | event_sidecar/src/database/sqlite_database.rs:68-92 | A run records the versions before the first that is not carried out as successful, and that one, if its result is recorded, as failed |
| Migrations.FailureIsRecorded | event_sidecar/src/database/sqlite_database.rs:84-89 | A migration that is not committed but recorded leaves its failure as the last and newest record |
| Migrations.SucceedsExactly | event_sidecar/src/database/migration_manager.rs:28-89 | A call succeeds if and only if its checks pass and, unless no migrations are passed, the newest record is no failure and every migration selected is committed and recorded; a call that does not get to run any changes nothing |
| Migrations.SuccessAppliesNewer | event_sidecar/src/database/migration_manager.rs:55-89 | A successful call applies exactly the newer versions |
| Migrations.AppliedExactly | event_sidecar/src/database/migration_manager.rs:55-89 | Any call, also one that fails, applies a version if and only if it gets to run migrations, selects the version, commits and records all before it, and commits it |
| Migrations.SecondCallChangesNothing | event_sidecar/src/database/migration_manager.rs:28-89 | Calling again with the same migrations after a success succeeds and changes nothing |
| Migrations.FailureIsFinal | event_sidecar/src/database/migration_manager.rs:64-67 | Once a failure is recorded no later call changes the database or succeeds with anything to run |
| Migrations.ReappliedExactlyIfUnrecorded | event_sidecar/src/database/sqlite_database.rs:68-92 | For every call, an applied version is applied again only if it is passed again and no record at or above it exists, and then if and only if the outcomes before its own are committed and recorded and its own is committed |
| Migrations.LostRecordAppliesTwice | event_sidecar/src/database/sqlite_database.rs:68-92 | A concrete run in which a lost record makes a migration apply twice |

## Left out

- ListenerResume.GapFreeIntake: node event ids do not wrap here, because a node resumes by comparing ids itself and its code is not part of the repository.
- NodeClient.MatchingExactness: the node answers in order, as the protocol promises.
- BlockCache.CacheIsGreatestAnnounced: says nothing about the height if the node returns another height than asked for; `BlockCache.ReadsNeverGoBack` and `BlockCache.KeptUntilDisplaced` cover that case.
- Backoff.DelayClosedForm: needs products that fit 64 bits; `Backoff.NextDelay` wraps them as a release build does, and `Backoff.IdealExactly` has the exact condition.
- EventStore.Database.Save: one method for the eight save operations, which differ in their keys; the log assigns fresh row ids, and a commit that reports an error is taken not to have committed.
- HttpServers.HttpServer.constructor: a buffer of capacity 0 is not modelled, because what pushing to it does is up to the wheel buffer crate, which is not part of the repository.
- Clients that lag behind the broadcast channel, the limit on subscribers, and the disconnection of clients at shutdown.
- Filtering of events by endpoint and translation into the legacy format; a client here takes all events.
- Tokio, the wheel buffer crate, SQL text, JSON and the binary encoding: they appear only through what they promise.
- Partial connection mode, in which a listener goes on with some of its endpoints.
- The event handling service that passes events on without storing them is not modelled.
- Reading the latest block through the cache, which asks the node if the cache is empty or busy, is not modelled.
- REST and JSON-RPC handlers, speculative execution, metrics, rate limits, and configuration.
