# Radix Relay: a verified model

Radix Relay is a messenger that carries Signal Protocol ciphertexts over Nostr relays. This project
models its five stateful components in Dafny and proves what their operations keep over whole runs.

- **Requests.** `Requests` is the request tracker together with the send, publish, unpublish and
  subscribe coroutines, as a step relation in which starts, relay replies, elapsing timers, resumptions
  and cancel-all interleave freely. `RequestRuns` proves the outcome of every request over every
  interleaving, `Orchestrator` is the mutable form, `Bundles` the list of discovered prekey bundles.
- **Keys.** `KeyStores` holds rotation, expiry and the guarded delete loop for one store of signed or
  Kyber pre-keys on either back end, `KeyRuns` its runs, `PreKeyPool` the one-time pre-keys, and
  `KeyMaintenance` the whole pass, bundle generation, start-up and reset; `BridgeRuns` has runs of the
  whole bridge.
- **History.** `History` is the conversations table, with its denormalised unread counter, and the
  messages table; `HistoryRuns` proves isolation of conversations, `UnreadCounter` relates the counter
  to a count, `HistoryPages` covers newest-first pages and the race of opening a chat.
- **Chat mode.** `Commands` is the command parser, `Display` the display filter, and `ChatMode` the two
  of them with the command handler and the queue between them.
- **Wire form.** `Hex` codes ciphertexts, `Wire` codes events as JSON values and dispatches frames.

Values that the program passes around are datatypes. Objects that it updates in place are classes, whose
methods are proved to compute the functions that the run theorems speak of. `Options` holds the option
type. `dafny verify dfyconfig.toml` checks everything.

## Where the code does less than one would expect

Each of these is a lemma, with the exact condition under which the code does meet the expectation.

- Two overlapping requests under one id: the second overwrites the first in the tracker and the first
  one's end erases the second. A start is safe exactly if no unfinished coroutine holds the id
  (`StartIsSafeExactly`, `HeldIdLosesReply`, `SharedIdLosesReply`).
- In memory, where the older-than query returns keys in no particular order, cleanup can delete the
  newest key (`ArbitraryScanKeepsNewestExactly`), and then a second pass rotates again at once
  (`MemorySweepSettlesExactly`, `MaintenanceIsIdempotentExactly`). On SQLite neither happens. In memory
  it takes bare rotations (`NewestCanBeLost`, `SecondPassCanRotate`): passes, restarts and resets alone
  never get there (`EveryPassIsIdempotent`).
- The grace period grants nothing: it equals the rotation interval, so the pass that rotates a key also
  deletes the superseded one, which bundles may just have published (`LiveKeyIsCounted`,
  `KeyLivesUntilRotation`, `RotatingPassReplacesExactly`).
- One-time pre-key ids are given out again after the highest one was used
  (`ConsumedIdReissuedExactly`, `PublishedIdComesBack`), and start-up with fewer than five keys left
  overwrites live keys (`StartupKeepsKeysExactly`, `StartupReplacesLiveKey`). Decryption takes keys
  without replenishing, so both are reachable.
- The unread counter is not lowered by deleting a single unread message, and counts a message stamped at
  or below what was read (`CounterIsExactlyUndisturbed`, `DeletedStaysCounted`, `SameStampIsCounted`).
- Opening a chat does not count messages that arrive meanwhile in the same millisecond as the newest one
  loaded, and none at all if the history was empty (`OpeningCountsArrivalsExactly`).
- `/chat` looks the contact up twice; if an alias changes hands in between, what is typed goes to another
  contact than the one shown (`ReplicasAgreeExactly`, `AliasChangesHands`).
- A fingerprint with a space would split chat text in the wrong place (`ChatTextIsSentExactly`).
- An EVENT frame of the wrong length is accepted as an empty event (`LengthDecidesExactly`), and the
  hex decoder tolerates characters that are not digits (`JunkIsAccepted`, `DecodesExactly`).

## Model

| member | source | states |
|---|---|---|
| `Requests.ApplyKeepsValid` | lib/nostr/include/nostr/request_tracker.hpp:86-134 | Every step keeps: each pending entry belongs to a coroutine still suspended on its timer, answers fit their requests, one frame per coroutine, one notice per ended coroutine in order of ending, and the published metadata is that of the last accepted publication |
| `Requests.RunIsValid` | lib/nostr/include/nostr/request_tracker.hpp:106-134 | The same in every reachable state, whatever the ids |
| `RequestRuns.ExactlyOnce` | lib/nostr/include/nostr/session_orchestrator.hpp:170-256 | In every interleaving each coroutine has put out one frame, exactly one notice if it ended and none otherwise, and there are no other notices |
| `RequestRuns.AcceptanceNeedsTimelyReply` | lib/nostr/include/nostr/request_tracker.hpp:86-134 | A positive notice implies that a reply of the right type, with the request's own id and accepting if it is an OK, was resolved while the timer was still running |
| `RequestRuns.MetadataChangesOnlyOnAcceptance` | lib/nostr/include/nostr/session_orchestrator.hpp:211-223 | Published-bundle metadata changes only in the resumption of a publish whose accepting OK came in time, to that bundle's keys, with the accepting notice |
| `RequestRuns.MetadataIsLastAccepted` | lib/nostr/include/nostr/session_orchestrator.hpp:199-226 | After every run the metadata is that of the publication accepted last, and absent exactly if none was |
| `RequestRuns.RunRefinesFates` | lib/nostr/include/nostr/request_tracker.hpp:86-134 | With distinct ids the shared map refines independent requests: each coroutine is where the first of its reply, its timer and a cancel-all puts it |
| `RequestRuns.ReportedOutcomeIsFate` | lib/nostr/include/nostr/session_orchestrator.hpp:170-322 | With distinct ids the notice of every ended request is that of its own first fitting reply, or that of a timeout |
| `RequestRuns.NoticeSaysWhatDecided` | lib/nostr/include/nostr/session_orchestrator.hpp:182-189 | With distinct ids, field by field: a send's notice names its own peer, its own event id and the deciding reply's verdict, or no id and no success if no reply decided; publish and unpublish give their own event id likewise, except for an acceptance that could not be recorded; a subscription gives its own id or none |
| `RequestRuns.EveryNoticeNamesItsRequest` | lib/nostr/include/nostr/session_orchestrator.hpp:170-322 | Whatever the ids, every notice is of its request's kind and names its own peer, and its own id or none |
| `RequestRuns.AcceptedExactlyWhenOkCameFirst` | lib/nostr/include/nostr/session_orchestrator.hpp:170-322 | With distinct ids success is reported if and only if the fitting reply decided first and said so: an accepting OK, for a publish with its metadata stored, or an EOSE with a non-empty id |
| `RequestRuns.StartIsSafeExactly` | lib/nostr/include/nostr/request_tracker.hpp:106-134 | After a run with distinct ids a request can be started under an id, so that in every continuation with fresh starts all requests report their own fates, if and only if no unfinished coroutine holds that id: waiting, answered or expired |
| `RequestRuns.HeldIdLosesReply` | lib/nostr/include/nostr/request_tracker.hpp:116-133 | Whoever still holds the id, there is a continuation in which the new request gets its fitting reply in time and reports a timeout |
| `RequestRuns.SharedIdLosesReply` | lib/nostr/include/nostr/request_tracker.hpp:116-133 | A run with a shared id in which a request whose accepting OK came in time reports failure |
| `RequestRuns.EverythingSettles` | lib/nostr/include/nostr/request_tracker.hpp:123-134 | Every run can be continued by timers and resumptions alone until all coroutines have ended; then nothing is pending and every request has had its notice |
| `RequestRuns.AllEndedIsClean` | lib/nostr/include/nostr/request_tracker.hpp:129-129 | Once all coroutines have ended no pending entry is left and each has had exactly one notice |
| `Orchestrator.SessionOrchestrator.Begin` | lib/nostr/include/nostr/session_orchestrator.hpp:170-184 | Takes the start step: a frame and a pending entry, or nothing if building the frame threw |
| `Orchestrator.SessionOrchestrator.Resolve` | lib/nostr/include/nostr/request_tracker.hpp:86-94 | Takes the receive step, including unknown ids and replies of the wrong type |
| `Orchestrator.SessionOrchestrator.Elapse` | lib/nostr/include/nostr/request_tracker.hpp:123-127 | Takes the expire step: the wait is over but the entry stays until the coroutine resumes |
| `Orchestrator.SessionOrchestrator.Continue` | lib/nostr/include/nostr/session_orchestrator.hpp:182-223 | Takes the resume step: erases the entry, records metadata on acceptance and emits the notice |
| `Orchestrator.SessionOrchestrator.CancelAllPending` | lib/nostr/include/nostr/request_tracker.hpp:73-77 | Takes the cancel-all step |
| `Orchestrator.SessionOrchestrator.HasPending` | lib/nostr/include/nostr/request_tracker.hpp:68-68 | True exactly for pending ids, each of which belongs to a suspended coroutine |
| `Orchestrator.SessionOrchestrator.Perform` | lib/nostr/include/nostr/session_orchestrator.hpp:170-322 | Every step changes the mutable state as the step relation says |
| `Orchestrator.Drive` | lib/nostr/include/nostr/session_orchestrator.hpp:99-114 | Every schedule drives the object through exactly the run that the theorems speak of |
| `Bundles.ListIsLastWriterMap` | lib/nostr/include/nostr/session_orchestrator.hpp:346-373 | After any announcements the list has at most one entry per Nostr key, and each key's entry is what its latest effective announcement says; a failed extraction or an old version changes nothing |
| `Bundles.UpsertIsUpdate` | lib/nostr/include/nostr/session_orchestrator.hpp:350-362 | A received bundle changes the entry of its own key and no other |
| `Bundles.WithoutIsUpdate` | lib/nostr/include/nostr/session_orchestrator.hpp:370-373 | A removal removes the entry of its own key and no other |
| `Bundles.BundleDirectory.Received` | lib/nostr/include/nostr/session_orchestrator.hpp:346-363 | The search and update in place computes the update of the list |
| `Bundles.BundleDirectory.Removed` | lib/nostr/include/nostr/session_orchestrator.hpp:370-373 | The erase in place removes exactly the entries of the key, keeping the order of the others |
| `Bundles.BundleDirectory.Handle` | lib/nostr/include/nostr/message_handler.hpp:97-114 | Announcements of old versions are ignored, empty content removes, other content updates |
| `KeyStores.BackendsAgreeUpToOneSecond` | rust/signal_bridge/src/memory_storage.rs:370-384 | SQLite's older-than set is contained in memory's, and they differ exactly on keys created before the cutoff in the cutoff's own second |
| `KeyStores.ExpiredWrittenOut` | rust/signal_bridge/src/key_rotation.rs:87-96 | A key is expired exactly if it is more than 604800000 milliseconds old, in memory, or 604800 seconds by whole seconds, on SQLite |
| `KeyStores.RotationImpliesExpiry` | rust/signal_bridge/src/key_rotation.rs:76-96 | A key whose floored age triggers rotation is past the grace cutoff under both age tests |
| `KeyStores.SweepMeaning` | rust/signal_bridge/src/key_rotation.rs:98-110 | The loop leaves the unscanned keys, or the key scanned last if all were scanned, unchanged |
| `KeyStores.CleanupIsSafe` | rust/signal_bridge/src/key_rotation.rs:84-113 | On either back end and in any order cleanup keeps every unexpired key, removes every expired key if some key is unexpired, leaves one otherwise, and never empties a store |
| `KeyStores.AscendingScanKeepsNewest` | rust/signal_bridge/src/sqlite_storage.rs:1078-1092 | With ascending scans and times monotone in id cleanup never removes the newest key |
| `KeyStores.ArbitraryScanKeepsNewestExactly` | rust/signal_bridge/src/memory_storage.rs:370-384 | With arbitrary scan order the newest key survives every order if and only if it is unexpired or alone |
| `KeyRuns.ActionProgresses` | rust/signal_bridge/src/key_rotation.rs:27-113 | Every legal rotation, cleanup, pass, start-up and reset on SQLite keeps the store well kept; without a reset the newest key is kept or superseded and new ids exceed all earlier ones |
| `KeyRuns.EveryRunIsWellKept` | rust/signal_bridge/src/key_rotation.rs:27-113 | In every run under a non-decreasing clock times stay non-decreasing in id and the last id issued is still stored |
| `KeyRuns.EveryIssueIsNew` | rust/signal_bridge/src/key_rotation.rs:166-264 | In every run each issued id exceeds all ids issued since the last identity reset and the newest key is never removed |
| `KeyRuns.PassLeavesOneKey` | rust/signal_bridge/src/lib.rs:898-939 | A pass over a store of at most one key leaves exactly one, on either back end and for any order: the same key if no rotation is due, and otherwise, if the cleanup is prompt, only the new one |
| `KeyRuns.RotatingPassReplacesExactly` | rust/signal_bridge/src/key_rotation.rs:17-113 | On a due store of one key the pass deletes the superseded key, whatever the scan, if and only if the back end is SQLite or the cleanup comes within the grace period after the rotation |
| `KeyRuns.SingleKeyAtRest` | rust/signal_bridge/src/lib.rs:141-173 | In every run made of start-ups, passes and resets exactly one key is stored after each action |
| `KeyRuns.SweepTwice` | rust/signal_bridge/src/key_rotation.rs:84-113 | Cleanup at a fixed cutoff is idempotent whatever the two scan orders |
| `KeyRuns.SecondPassIsIdle` | rust/signal_bridge/src/lib.rs:898-939 | At a fixed clock value one pass over a store that cleanup settles leaves it not due for rotation, and no cleanup changes it further |
| `KeyRuns.MemorySweepSettlesExactly` | rust/signal_bridge/src/memory_storage.rs:370-384 | With arbitrary order a monotone store that is not due for rotation stays so in every order if and only if its newest key is within the grace period or all keys are within the rotation interval |
| `KeyRuns.NewestCanBeLost` | rust/signal_bridge/src/memory_storage.rs:370-384 | A run in memory, of two rotations and a cleanup, that deletes the newest key and keeps the older one |
| `KeyRuns.SecondPassCanRotate` | rust/signal_bridge/src/memory_storage.rs:370-384 | A run in memory in which a pass that rotates nothing is followed at the same clock value by one that rotates, under an id issued before |
| `PreKeyPool.SaveAllMeaning` | rust/signal_bridge/src/keys.rs:33-37 | The batch loop stores exactly the consecutive ids, each with fresh material, and leaves the other keys |
| `PreKeyPool.ReplenishmentAddsHundred` | rust/signal_bridge/src/key_rotation.rs:138-159 | Replenishment adds exactly 100 ids, all above the live ones, and changes no live key |
| `PreKeyPool.ConsumedKeyIsGone` | rust/signal_bridge/src/key_rotation.rs:120-132 | Consuming takes exactly the one key away; below 50 the others stay and 100 newer ones join them, and the consumed id can only be there again with new material |
| `PreKeyPool.MaintenanceExtends` | rust/signal_bridge/src/lib.rs:898-939 | Maintenance leaves 50 keys or more as they are; fewer stay too, if the batch fits, and 100 newer ones join them |
| `PreKeyPool.StartupFills` | rust/signal_bridge/src/lib.rs:128-139 | Start-up leaves five keys or more as they are; otherwise the ids 1 to 100 are live afterwards, all of them new |
| `PreKeyPool.BatchFitsExactly` | rust/signal_bridge/src/key_rotation.rs:141-148 | The new ids all exceed the live ones if and only if the maximum is at most 2^32 - 101 |
| `PreKeyPool.PoolStaysBounded` | rust/signal_bridge/src/key_rotation.rs:120-159 | In every run of consumption, removal by decryption, passes and restarts, wrapping ids included, the pool holds at most 149 keys and at least 50 right after each consumption and pass; a removal takes at most one key, a restart leaves at least five, and without removals there are always at least 50 |
| `PreKeyPool.BatchGrowth` | rust/signal_bridge/src/key_rotation.rs:138-159 | A batch of 100, wrapping past 2^32 or not, leaves at least 100 keys and adds at most 100 |
| `PreKeyPool.ConsumedIdReissuedExactly` | rust/signal_bridge/src/key_rotation.rs:138-148 | Replenishment issues a consumed id again if and only if it lies in the batch, wrapping or not, and then for another key; without wrapping that batch lies above all remaining ids and the id was the highest |
| `PreKeyPool.PublishedIdComesBack` | rust/signal_bridge/src/sqlite_storage.rs:892-902 | There is a run in which the highest id, which bundles publish, is removed by decryption and the next pass issues it again for another key |
| `PreKeyPool.StartupKeepsKeysExactly` | rust/signal_bridge/src/lib.rs:99-173 | Start-up keeps every live one-time key if and only if at least five are live or none has an id up to 100 |
| `PreKeyPool.StartupReplacesLiveKey` | rust/signal_bridge/src/lib.rs:128-139 | There is a run at the end of which a restart replaces a live key |
| `KeyMaintenance.MaintenanceIsIdempotent` | rust/signal_bridge/src/lib.rs:898-939 | At a fixed clock value, after a pass from stores that cleanup settles (always so on SQLite), every further pass changes nothing and reports all flags false, and a bundle can be generated with keys whose whole-second age is within the rotation interval |
| `KeyMaintenance.MaintenanceIsIdempotentExactly` | rust/signal_bridge/src/lib.rs:898-939 | Whatever scans a back end returns, every pass from here leaves nothing to do for a second one if and only if cleanup settles both stores |
| `KeyMaintenance.BundleNamesNewest` | rust/signal_bridge/src/lib.rs:426-455 | A bundle names a stored key of each store that no other key of it is newer than, and fails exactly if a store is empty |
| `KeyMaintenance.KeyStore.MaxId` | rust/signal_bridge/src/sqlite_storage.rs:1062-1067 | The largest id, or none if the store is empty |
| `KeyMaintenance.KeyStore.DueForRotation` | rust/signal_bridge/src/key_rotation.rs:54-78 | True exactly if the store is empty or the newest key's floored age exceeds the interval |
| `KeyMaintenance.KeyStore.Rotate` | rust/signal_bridge/src/key_rotation.rs:27-45 | Adds one key under the next id with the current time and changes no other |
| `KeyMaintenance.KeyStore.OlderThan` | rust/signal_bridge/src/sqlite_storage.rs:1078-1092 | Returns each older key once, in ascending order on SQLite, by the back end's own age test |
| `KeyMaintenance.KeyStore.CleanupExpired` | rust/signal_bridge/src/key_rotation.rs:84-113 | The query and the guarded loop leave exactly the survivors of the scan |
| `KeyMaintenance.SignalBridge.EnsureKeysExist` | rust/signal_bridge/src/lib.rs:99-173 | Keeps an existing identity or makes a new one with its registration id, fills empty stores with key 1, and a pool of fewer than five keys with ids 1 to 100 |
| `KeyMaintenance.SignalBridge.ResetIdentity` | rust/signal_bridge/src/lib.rs:570-595 | Clears sessions and peers and leaves the stores of a new bridge, with fresh material and an identity key never used before |
| `KeyMaintenance.SignalBridge.ReplenishPreKeys` | rust/signal_bridge/src/key_rotation.rs:138-159 | Adds the batch above the largest id |
| `KeyMaintenance.SignalBridge.ConsumePreKey` | rust/signal_bridge/src/key_rotation.rs:120-132 | Removes the key and replenishes if fewer than 50 are left |
| `KeyMaintenance.SignalBridge.GenerateBundle` | rust/signal_bridge/src/lib.rs:412-510 | Publishes the identity with its registration id and of each store the highest id with its key, and fails exactly if the identity is missing or a store is empty |
| `KeyMaintenance.SignalBridge.ClearPeer` | rust/signal_bridge/src/lib.rs:521-552 | Forgets one peer's session and identity and no other's; fails exactly for the empty name |
| `KeyMaintenance.SignalBridge.PerformKeyMaintenance` | rust/signal_bridge/src/lib.rs:898-939 | One call is one pass over all three stores, with the flags it reports |
| `BridgeRuns.OneKeyEachAtRest` | rust/signal_bridge/src/lib.rs:141-173 | In every run of the bridge under a clock that does not run backwards, on either back end and for any scan orders, exactly one signed and one Kyber key are stored after every action, the pool holds at most 149 keys, and after every pass at least 50, so that a bundle can be generated |
| `BridgeRuns.StepRests` | rust/signal_bridge/src/lib.rs:898-939 | Each restart, reset, pass, consumption and removal keeps this |
| `BridgeRuns.EveryPassIsIdempotent` | rust/signal_bridge/src/lib.rs:898-939 | In every run of the bridge, on either back end, every pass at a clock value leaves nothing to do for further passes at that value, and a bundle can be generated with keys young enough |
| `BridgeRuns.LiveKeyIsCounted` | rust/signal_bridge/src/lib.rs:898-939 | In every run whose passes are prompt the only key of each store has the id one above the number of passes that rotated it since the first start or the last reset |
| `BridgeRuns.LiveKeyIsStamped` | rust/signal_bridge/src/lib.rs:141-173 | In every run whose passes are prompt the live key was created at the stamp of the last pass that rotated its store, or else at the first start or the last reset |
| `BridgeRuns.RotatesExactlyWhenOld` | rust/signal_bridge/src/key_rotation.rs:72-77 | So a pass rotates a store if and only if more than 604800 whole seconds have gone by since then |
| `BridgeRuns.FlagsTellWhatChanged` | rust/signal_bridge/src/lib.rs:898-939 | The three flags of a prompt pass tell exactly which of the three stores have changed |
| `BridgeRuns.KeyLivesUntilRotation` | rust/signal_bridge/src/key_rotation.rs:84-113 | A key that is live before a prompt pass is live after it if and only if the pass does not rotate that store |
| `BridgeRuns.Drive` | rust/signal_bridge/src/lib.rs:99-939 | Every schedule of fewer than 2^32 - 2 actions drives the mutable bridge through a run of the theorem |
| `HistoryRuns.ExecuteKeepsValid` | rust/signal_bridge/src/message_history.rs:121-469 | Every operation keeps conversation ids distinct, every message attached to a stored conversation and message ids issued once, in order |
| `HistoryRuns.EveryRunIsValid` | rust/signal_bridge/src/sqlite_storage.rs:144-184 | The same in every reachable state |
| `HistoryRuns.StoreEffect` | rust/signal_bridge/src/message_history.rs:185-250 | Storing appends to one contact's list, raises its counter exactly if incoming, and touches no other contact |
| `HistoryRuns.ReceivedIsStored` | rust/signal_bridge/src/message_history.rs:185-218 | Receiving appends one row that is incoming and holds the time, text and flags received, and sets the conversation's time |
| `HistoryRuns.SentIsStored` | rust/signal_bridge/src/message_history.rs:221-250 | Sending appends one pending outgoing row with the time and text sent, and sets the conversation's time |
| `HistoryRuns.DeletionIsolated` | rust/signal_bridge/src/message_history.rs:454-469 | Deleting a conversation empties its list and leaves all others' lists and counters |
| `HistoryRuns.ConversationIsItsOwnLog` | rust/signal_bridge/src/message_history.rs:121-154 | In every run a contact's messages are exactly its own log since its conversation was last deleted |
| `HistoryRuns.EntryCameFrom` | rust/signal_bridge/src/message_history.rs:185-264 | In every run each entry of a contact's log holds the direction, time, content and flags with which one operation stored it, the id of that store, and the status set last |
| `HistoryRuns.StoredIsInLogExactly` | rust/signal_bridge/src/message_history.rs:447-469 | What an operation stored for a contact is in its log if and only if it was not deleted since, singly or with the conversation |
| `HistoryRuns.LastTimeIsLastStore` | rust/signal_bridge/src/message_history.rs:157-182 | In every run a contact has a conversation exactly if something was stored since it was last deleted, and the row carries the time of the last store |
| `UnreadCounter.CounterIsCountPlusDrift` | rust/signal_bridge/src/message_history.rs:157-218 | In every run the counter equals the number of stored incoming messages above the read frontier plus the drift since the last mark |
| `UnreadCounter.CounterIsExactSinceMark` | rust/signal_bridge/src/message_history.rs:402-451 | The counter is never below that number, and equals it if and only if since the last mark nothing was stored at or below the frontier and no unread message was deleted singly |
| `UnreadCounter.LastResetExists` | rust/signal_bridge/src/message_history.rs:402-469 | The last mark or deletion that this speaks of always exists and is unique, 0 standing for none |
| `UnreadCounter.CounterIsExactlyUndisturbed` | rust/signal_bridge/src/message_history.rs:402-469 | So in every run the counter is exact if and only if nothing disturbed it since then |
| `UnreadCounter.DeletedStaysCounted` | rust/signal_bridge/src/message_history.rs:447-451 | A run in which a message that was deleted singly stays counted |
| `UnreadCounter.SameStampIsCounted` | rust/signal_bridge/src/message_history.rs:402-409 | A run in which a message with the stamp of one already read is counted |
| `UnreadCounter.ArrivalsAddUp` | rust/signal_bridge/src/message_history.rs:185-218 | Messages stored with any stamps raise the count above a time by the number of the contact's arrivals stamped above it |
| `UnreadCounter.OpenChatRace` | rust/signal_bridge/src/message_history.rs:416-444 | Marking read up to the newest loaded time, with any arrivals in between, leaves exactly those unread that are stamped above it |
| `HistoryPages.PaginationPartitions` | rust/signal_bridge/src/message_history.rs:300-347 | For every limit of at least one, enough pages contain each message of the conversation exactly once, newest first |
| `HistoryPages.FirstOfPageIsNewest` | lib/core/include/core/command_handler.hpp:227-228 | The first message of a first page carries the newest stored time |
| `HistoryPages.NoLostUnread` | lib/core/include/core/command_handler.hpp:194-228 | Load a page, let any messages arrive, mark read up to the page's first: exactly the arrivals stamped above it are unread |
| `HistoryPages.MessageHistory.GetOrCreateConversation` | rust/signal_bridge/src/message_history.rs:121-154 | Returns the contact's conversation id, creating a row with a never-used id if there is none |
| `HistoryPages.MessageHistory.StoreIncoming` | rust/signal_bridge/src/message_history.rs:185-218 | Executes the receive operation on the tables |
| `HistoryPages.MessageHistory.StoreOutgoing` | rust/signal_bridge/src/message_history.rs:221-250 | Executes the send operation on the tables and returns the new id |
| `HistoryPages.MessageHistory.GetUnreadCount` | rust/signal_bridge/src/message_history.rs:385-399 | The stored counter as a 32-bit number, 0 for an unknown contact |
| `HistoryPages.MessageHistory.MarkConversationReadUpTo` | rust/signal_bridge/src/message_history.rs:416-444 | Recounts the incoming messages above the time; fails exactly for an unknown contact and then changes nothing |
| `HistoryPages.MessageHistory.DeleteThread` | rust/signal_bridge/src/message_history.rs:454-469 | Deletes the conversation and its messages |
| `HistoryPages.MessageHistory.Perform` | rust/signal_bridge/src/message_history.rs:185-469 | Every operation changes the mutable tables as the run theorems say |
| `HistoryPages.Drive` | rust/signal_bridge/src/message_history.rs:116-469 | Every sequence of operations takes the mutable tables through the run that the theorems speak of |
| `Commands.AtMostOneHandler` | lib/core/include/core/command_parser.hpp:104-195 | At most one handler matches any input |
| `Commands.WrittenIsUnderstood` | lib/core/include/core/command_parser.hpp:124-194 | Every command, written out in its own syntax, is understood as that command, in and out of chat mode |
| `Commands.OrderIsIrrelevant` | lib/core/include/core/command_parser.hpp:69-72 | Any two chains of the same handlers, in whatever order, parse every input alike |
| `Commands.ParseSideBySide` | lib/core/include/core/command_parser.hpp:61-75 | Two parsers with the same handlers in whatever order, fed the same inputs, return the same commands and stay in the same chat |
| `Commands.ParseUndoesPrint` | lib/core/include/core/command_parser.hpp:61-75 | Every canonical command parses back from its printed form, in and out of chat mode |
| `Commands.ParsedIsCanonical` | lib/core/include/core/command_parser.hpp:61-75 | Whatever the parser returns is canonical, and printing and parsing it again gives the same |
| `Commands.ChatTextIsSentExactly` | lib/core/include/core/command_parser.hpp:65-67 | In chat mode every text without a leading slash is a send to exactly the active contact with exactly that text, if and only if the fingerprint has no space |
| `Commands.CommandParser.Try` | lib/core/include/core/command_parser.hpp:138-161 | A handler answers exactly if it matches; only a match can switch the chat, and failed lookups and empty names do not |
| `Commands.CommandParser.ParseInput` | lib/core/include/core/command_parser.hpp:61-75 | The loop over the chain computes the parse and switches the chat as the command says |
| `Display.FilterShowsExactly` | lib/core/include/core/display_filter.hpp:47-91 | The shown stream is the subsequence of the input at exactly the positions that enter or leave a chat, hold a message of the source system or command feedback, lie outside chat mode, or belong to the contact entered last |
| `Display.ShownInChatExactly` | lib/core/include/core/display_filter.hpp:93-95 | Behind the entry into a chat, a message of any of the other four sources is shown if and only if its contact is that of the chat |
| `Display.ShownAnyway` | lib/core/include/core/display_filter.hpp:81-91 | Control events, system messages and command feedback are shown whatever the active chat, and everything is shown after a chat was left or before the first was entered |
| `Display.ShownIsPassed` | lib/core/include/core/display_filter.hpp:79-91 | The filter's state decides as the last control event before the position does |
| `Display.FilterIsClean` | lib/core/include/core/display_filter.hpp:57-91 | A second filter would drop nothing of the shown stream and would have the same active contact |
| `Display.FilterFixesExactlyClean` | lib/core/include/core/display_filter.hpp:79-91 | Filtering changes nothing if and only if every event passes where it stands |
| `Display.FilterTwice` | lib/core/include/core/display_filter.hpp:47-91 | Filtering is idempotent |
| `Display.ShownStreamIsSafe` | lib/core/include/core/display_filter.hpp:47-91 | In what is shown, between entering a chat with a contact and the next control event every message is of the source system or command feedback or belongs to that contact |
| `Display.DisplayFilter.HandleMessage` | lib/core/include/core/display_filter.hpp:79-92 | Passes a message on exactly if it is a system or feedback message, no chat is active, or it belongs to the active contact |
| `Display.DisplayFilter.Process` | lib/core/include/core/display_filter.hpp:47-92 | Handling a queue appends its filtered stream and leaves the context of its last control event |
| `ChatMode.HandlerSwitchesAlike` | lib/core/include/core/command_handler.hpp:181-242 | Whatever is active, the events pushed for a command switch the filter exactly as the command switches the parser, and the filter drops none of them |
| `ChatMode.OpeningWrittenOut` | lib/core/include/core/command_handler.hpp:187-237 | Opening a chat enters it under its alias or fingerprint first, then shows the page between header and footer, marks it read up to its first message, or outright if it is empty, and gives feedback |
| `ChatMode.HistoryIsShownOldestFirst` | lib/core/include/core/command_handler.hpp:203-219 | The five newest messages are shown from oldest to newest |
| `ChatMode.HistoryShownIsHistoryStored` | lib/core/include/core/command_handler.hpp:194-219 | Each line shown has the content, time, direction and sender with which some operation of the run stored a message for that contact |
| `ChatMode.ForwardedExactly` | lib/core/include/core/command_handler.hpp:110-179 | Exactly the complete commands are forwarded, each to its own queue |
| `ChatMode.RawKeepsAgreementExactly` | lib/core/include/core/command_parser.hpp:138-161 | A command keeps parser and filter in agreement if and only if its two lookups of its own name lead to the same contact |
| `ChatMode.ReplicasAgreeExactly` | lib/core/include/core/display_filter.hpp:57-72 | For every interleaving: parser and filter agree after every step if and only if, at every command taken by an idle handler, the two lookups of its name lead to the same contact |
| `ChatMode.ReplicasAgree` | lib/core/include/core/display_filter.hpp:57-72 | If the lookups of every command taken meet, applying the events under way to the filter's contact gives the parser's contact; with empty queues the two are equal |
| `ChatMode.AliasChangesHands` | lib/core/include/core/command_handler.hpp:187-192 | If the two lookups differ the parser ends up with one contact and the filter with the other |
| `ChatMode.HandlerEventsArriveInOrder` | lib/core/include/core/command_handler.hpp:181-242 | In every run, whatever other components push in between, shown plus under way is all that the handler issued, once each and in order |
| `ChatMode.RunIsFiltered` | lib/core/include/core/display_filter.hpp:47-92 | In every run the shown stream is the filtered stream of all that the filter took, and determines the filter's contact |
| `ChatMode.TextGoesToTheContactShown` | lib/core/include/core/command_parser.hpp:61-67 | In a drained run whose lookups met, text without a leading slash is a send to exactly the contact last entered on the screen and is what the session queue gets, and nothing is sent if the screen shows no chat |
| `ChatMode.OpeningCountsArrivalsExactly` | lib/core/include/core/command_handler.hpp:194-232 | All messages that arrive while a chat is opened stay unread if and only if they are stamped above the page's first message, or, for an empty page, if there are none |
| `ChatMode.CommandHandler.ShowHistory` | lib/core/include/core/command_handler.hpp:197-227 | The loop pushes a header, the page from oldest to newest and a footer, or nothing for an empty page |
| `ChatMode.CommandHandler.HandleChat` | lib/core/include/core/command_handler.hpp:181-237 | Empty names and unknown contacts give feedback only; otherwise the chat is entered before the history is loaded |
| `ChatMode.CommandHandler.HandleOther` | lib/core/include/core/command_handler.hpp:87-179 | Forwards exactly the complete commands to the session, transport and monitor queues, and pushes feedback only |
| `ChatMode.EventHandler.Handle` | lib/core/include/core/event_handler.hpp:52-56 | One raw command changes parser, display queue, other queues and requested markings as the raw step of the runs says |
| `ChatMode.Drive` | lib/core/include/core/event_handler.hpp:52-56 | Every schedule drives parser, handler, queue and filter objects together through the run that the theorems speak of |
| `Hex.DecodeUndoesEncode` | lib/nostr/include/nostr/message_handler.hpp:63-69 | Decoding gives back every ciphertext |
| `Hex.EncodedWrittenOut` | lib/nostr/include/nostr/message_handler.hpp:127-128 | Each byte is written as two digits of 0123456789abcdef, the higher one first |
| `Hex.ReadOfOne` | lib/nostr/include/nostr/message_handler.hpp:66-67 | A single digit, also behind a space or plus sign, reads as its value, and behind a minus sign as its negation modulo 256 |
| `Hex.EncodeIsCanonical` | lib/nostr/include/nostr/message_handler.hpp:127-128 | The sender writes two lower-case digits for each byte |
| `Hex.EncodeUndoesDecodeExactly` | lib/nostr/include/nostr/message_handler.hpp:63-69 | Encoding gives back a decoded text if and only if it is an even number of lower-case digits |
| `Hex.DecodesExactly` | lib/nostr/include/nostr/message_handler.hpp:65-68 | Decoding throws if and only if some chunk has no digit in front or behind one space or sign |
| `Hex.DecodedByChunks` | lib/nostr/include/nostr/message_handler.hpp:65-69 | Each chunk of two characters, and an odd one at the end, gives one byte, in order |
| `Hex.JunkIsAccepted` | lib/nostr/include/nostr/message_handler.hpp:66-68 | A digit followed by another character decodes to the digit alone |
| `Hex.EncodeContent` | lib/nostr/include/nostr/message_handler.hpp:127-128 | The loop computes the encoding |
| `Hex.DecodeContent` | lib/nostr/include/nostr/message_handler.hpp:63-69 | The loop computes the decoding, including the chunk that throws |
| `Wire.TagsRoundTrip` | lib/nostr/src/protocol.cpp:44-55 | Any tags survive serializing and deserializing |
| `Wire.DataRoundTrip` | lib/nostr/src/protocol.cpp:19-86 | Event data survives, through either of the two decoders |
| `Wire.FieldsAreRead` | lib/nostr/src/protocol.cpp:25-43 | Whatever is read comes from the field of its name; numbers wrap to 64 and 16 bits |
| `Wire.FrameRoundTrip` | lib/nostr/src/protocol.cpp:256-312 | Deserializing inverts serializing for every event, with and without subscription id |
| `Wire.LengthDecidesExactly` | lib/nostr/src/protocol.cpp:280-312 | For every length n: all accepted EVENT frames of n items carry the event in their last item if and only if n is 2 or 3; of any other length every frame is accepted as the empty event |
| `Wire.BlankIsAccepted` | lib/nostr/src/protocol.cpp:280-312 | For every other length a frame of nulls is accepted although its last item is no event |
| `Wire.RelayedEventArrives` | lib/nostr/include/nostr/session_orchestrator.hpp:448-535 | Any published event, re-framed by a relay with a subscription id, is dispatched unchanged under its own kind |
| `Wire.RelayedKindsWrittenOut` | lib/nostr/include/nostr/session_orchestrator.hpp:452-533 | Relayed events of the kinds 40001, 30078, 40002, 40003 and 40004 reach their five handlers, and every other kind reaches none of them |
| `Wire.RelayedBundleIsDiscovered` | lib/nostr/include/nostr/session_orchestrator.hpp:468-484 | A relayed event of kind 30078, and no other, updates the discovered bundle of its author to its own content and event id, or removes it if empty, leaving other authors' entries |
| `Wire.Hear` | lib/nostr/include/nostr/session_orchestrator.hpp:468-484 | The list object is changed by exactly the frames that announce a bundle |
| `Wire.CiphertextSurvives` | lib/nostr/include/nostr/message_handler.hpp:121-156 | For every ciphertext, what the receiver decodes from the relayed event is that ciphertext |
| `Wire.DecodersAgreeExactly` | lib/nostr/include/nostr/session_orchestrator.hpp:448-460 | On a frame of three items dispatch and deserialization give the same event, except that dispatch insists on tags |
| `Wire.ReplyArrives` | lib/nostr/src/protocol.cpp:186-223 | OK and EOSE frames of NIP-01 are dispatched as the reply they state |
| `Wire.ShortOkArrives` | lib/nostr/src/protocol.cpp:199-199 | An OK without a message counts as one with an empty message |
| `Wire.AcceptanceNeedsFrame` | lib/nostr/include/nostr/session_orchestrator.hpp:411-447 | A send, publish or unpublish reports acceptance only if a frame stating OK, its own id and true came in while its timer was running |
| `Wire.DeserializeTags` | lib/nostr/src/protocol.cpp:44-55 | The outer loop reads all tags, and fails exactly if one of them fails |
| `Wire.Serialize` | lib/nostr/src/protocol.cpp:256-278 | The loops and pushes build the frame of the event |
| `Wire.DeserializeData` | lib/nostr/src/protocol.cpp:19-61 | The tests and loops read event data, and fail exactly where the value has no such data |
| `Wire.SendAndReceive` | lib/nostr/src/protocol.cpp:256-312 | What the loops of one side write, those of the other side read back |

## Left out

- The callback form of request tracking (`track`, `handle_timeout`): the program has no caller of it.
- Cryptography, signatures, Nostr signing and key derivation: key material and identities are counters of fresh tokens, signed and Kyber keys are known by id and creation time, fingerprints and event ids are strings, and the bridge's failures are inputs of the steps.
- The SQL engine: locking, foreign-key cascades, schema migration and encryption at rest. The schema's unique fingerprint makes the conversations table a map; messages with equal times are paged in the order in which they were stored, and the older-than query, which names no order, walks the primary key upwards.
- Widths: times stay below 2^63 and offsets below 2^32; signed and Kyber ids are assumed to stay below 2^32, while the one-time batch wraps there, as an unchecked build does.
- Clock: it does not run backwards and is at least the grace period after the epoch; during one command it has one value.
- Contact lookup: a map from names to contacts at the moment of each lookup; alias rules, trust and session establishment are not part of this model.
- Queues never refuse a push, and coroutines of the orchestrator run one at a time between their suspension points.
- The version check of bundle announcements is one truth value, and the bundle's own encoding and import are not modelled.
- JSON text and floating-point numbers: the model starts from JSON values with whole numbers, and a character of a string stands for one byte.
- Message texts shown to the user are kept as what they say, not as formatted strings; commands other than `/chat` and `/leave` push any list of feedback messages.
- Listing conversations, single-message lookup and the listing of identities: single queries without further laws.
- Contents of the discovered-bundle presentation events, the connection monitor, transports, and the graphical and text interfaces.
- KeyRuns.EveryIssueIsNew: stated for SQLite's ascending scans, because with memory's arbitrary order it is false in the cases that KeyStores.ArbitraryScanKeepsNewestExactly characterises.
