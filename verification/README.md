# A model of fcore in Dafny

fcore is the control plane of a VPN service.  This project models the parts of
it that are small state machines with promises over whole runs, and proves
those promises.  Code that changes state step by step is modelled as a class
whose methods are proved against functions on values; the promises are lemmas
about those functions and about every run of them.

- **Mesh relay** (`MeshTables`, `MeshStore`, `MeshRelay`, `MeshDelivery`,
  `MeshAnswers`, `MeshWakeup`, `MeshSignals`).  Identities, devices and message slots behind one mutex, and
  the long poll that sleeps on a `Notify`.  `MeshStore.Store` is the object;
  `MeshRelay` interleaves its calls with the steps of any number of polls, any
  number of them on one device.  A `send` is not atomic: each envelope's insert
  and its wake are separate steps.
- **Request limiter** (`RateLimiter`).
- **Metric store** (`MetricSeries`, `MetricStore`, `MetricHistory`,
  `MetricOrder`, `MetricStorage`, `MetricSnapshot`).  The inverted tag index, retention,
  garbage collection, bucket compaction, subscription reset, the order of the
  points, and the multi-part snapshot.
- **Traffic accounting** (`Calendar`, `Traffic`).  Clamped monthly
  anniversaries, the segments a time range is cut into, and what they add up to.
- **Full sync and prune** (`FullSync`, `NodePeers`, `NodeOutcomes`, `NodeSync`).  The race
  between the listed count and the listed messages, the peers on kernel
  interfaces, whose calls may fail before or after taking effect, and runs that
  mix message batches with arming, cancelling and finishing syncs.
- **Alert engine** (`AlertRules`, `AlertRuns`, `AlertEpisodes`, `AlertHistory`,
  `AlertFleet`, `AlertEngine`).  The rules for one node, what every run of its readings shows,
  and the engine that mixes the operations of many nodes.
- **Activation codes** (`Base32`, `ActivationCode`).
- **Peer addresses** (`PeerAddresses`).
- **Node scores** (`Score`).

`Collections` holds filters, finite sums and an option type, `Numbers` the
maximum, the saturating difference and division toward zero.  Clocks, random
draws, signature checks, message authentication codes, `exp` and the outcome of
calls into the kernel or into Xray are parameters of the model.

Some promises turned out to hold only under a condition.  Each has a concrete
counterexample or an if-and-only-if lemma:

- A segment that ends on a midnight or an anniversary is filed in the bucket
  that starts there, not in the one it measured (`DayBucketIff`,
  `MonthBucketIff`, `MidnightSegmentFiledLater`,
  `AnniversarySegmentFiledLater`).
- Closed windows count a counter's step twice if two samples share the cut's
  timestamp and disagree (`DeltaSplit`, `DuplicateTimestampCountsTwice`).
- Compaction keeps a series' last point last unless that point is old and a
  recent one stands before it, as after a late arrival
  (`CompactOldKeepsLastIff`, `LateArrivalLosesLast`).
- A change message for an unlisted connection that arrives during a full sync
  is counted as a listed one (`KeepIsListIff`, `StrayIdReleasesWrongSet`).
- A prune leaves an unlisted connection in memory exactly if its interface or
  the Xray client is missing, its key does not decode, its protocol is not
  supported or its call fails (`PruneMeaning`, `FullyPrunedIff`).
- A delete whose tag is not the connection's own, or an update with a new key,
  leaves a peer without an owner (`MistaggedDeleteOrphansPeer`,
  `RekeyedUpdateOrphansPeer`); `OwnedIff` says exactly which messages do.
- Restoring a series breaks the index exactly when its hash already has
  metadata with a tag the restored one lacks (`RestoreKeepsInvIff`,
  `CollidingRestoreBreaksIndex`).
- In a small network the first address offered to a user lies in the reserved
  prefix (`FirstAllocatableMeaning`, `SmallNetworkOffersReserved`).
- The search for a free address leaves the network exactly if that is the first
  or the last address of the address space alone (`SearchIsInside`).
- The flapping rule returns before the offline rule, so an offline reading that
  fires a flapping alert does not end the recovery grace period
  (`OfflineEndsGraceIff`, `RecoveredMeaning`, `FlappingHidesOffline`).
- The service seeds every node with a known heartbeat before each reading, which
  takes a new node's grace away (`GraceIff`, `NewIffGrace`, `ReseedEndsGrace`).
- A node seeded at startup with an open alert can recover while its own grace is
  in force (`QuietWhileNew`, `RecoveryWithinGrace`).
- An empty tag filter selects no series rather than all of them
  (`IndexLookupIsScan`).

## Model

| member | source | states |
|---|---|---|
| MeshTables.DecimalLength | src/bin/mesh/store.rs:488-493 | a positive number has w digits exactly if it lies between 10^(w-1) and 10^w - 1, the range a UIN of width w is drawn from |
| MeshTables.DecimalReads | src/bin/mesh/store.rs:491-495 | the text of a drawn number is its decimal digits |
| MeshTables.WidthIsLeastUncrowded | src/bin/mesh/store.rs:453-487 | the issued width is the least one from 5 whose numbers are at most 80% taken, with 10 as the cap; every narrower one is above 80% |
| MeshTables.FirstFreeMeaning | src/bin/mesh/store.rs:491-506 | the attempts return the first drawn number not in use, of the chosen width, or fail only if every drawn number is taken |
| MeshTables.IssuedUin | src/bin/mesh/store.rs:465-507 | an issued UIN is unused and has the least uncrowded width; issuing fails only when all 64 draws hit taken numbers |
| MeshStore.Store.constructor | src/bin/mesh/store.rs:107-114 | a new store is empty |
| MeshStore.Store.IssueUin | src/bin/mesh/store.rs:465-507 | the widening loop and the 64 attempts compute the specified UIN or error |
| MeshStore.Store.Register | src/bin/mesh/store.rs:116-186 | all error paths in order, re-registration of a known key, a new device of a known subscription, and a new UIN; rows stay in rowid order |
| MeshStore.Store.MatchDevice | src/bin/mesh/store.rs:566-577 | returns a device of the UIN whose signing key verifies the request, and fails only if none does |
| MeshStore.Store.SelectLive | src/bin/mesh/store.rs:586-610 | lists exactly the unexpired rows of one device, in rowid order |
| MeshStore.Store.DeleteRows | src/bin/mesh/store.rs:612-615 | deleting rowid by rowid removes exactly the listed rows |
| MeshStore.Store.TakeSlots | src/bin/mesh/store.rs:579-618 | selecting and then deleting by rowid removes exactly what it returns and nothing else |
| MeshStore.Store.StoreEnvelope | src/bin/mesh/store.rs:248-270 | one envelope is refused with the first failing check's error, or inserted last with a fresh rowid |
| MeshStore.Store.StoreEnvelopes | src/bin/mesh/store.rs:248-273 | the loop stores envelope by envelope, stops at the first refused one and keeps what it stored |
| MeshStore.Store.Send | src/bin/mesh/store.rs:226-281 | the checks in order, the loop, and the sender's last-seen time, touched only on success |
| MeshStore.Store.Pull | src/bin/mesh/store.rs:283-296 | the call is the specified pull, whose answer and effect the `PullMeaning` and `PullIsStep` rows state |
| MeshAnswers.NormalizeIff | src/mesh/mod.rs:300-310 | a text is a key exactly if, up to white space around it, it spells 64 hex digits in any case; the key is their lower-case spelling |
| MeshAnswers.RequestErrors | src/bin/mesh/store.rs:124-134 | which register requests are refused before the tables are read, by which error |
| MeshAnswers.SendErrors | src/bin/mesh/store.rs:226-281 | which sends are refused before the first envelope, by which error and without effect; otherwise the outcome is that of the envelopes, and the sender is marked seen on success only |
| MeshAnswers.AdmitIff | src/bin/mesh/store.rs:248-262 | an envelope is stored exactly if its key is a device of the recipient, its text is not empty and the inbox holds fewer than 100 unexpired slots, and which error refuses it otherwise |
| MeshAnswers.PullMeaning | src/bin/mesh/store.rs:283-296 | errors in order and without effect; else the answer is the sender and text of each unexpired row of the device, in rowid order, exactly those rows leave the table, and the device is marked seen |
| MeshAnswers.PullIsStep | src/bin/mesh/store.rs:283-296 | the pull step of the relay is that call, and its answer has one view for each slot delivered, of its sender and text; a refused one delivers nothing |
| MeshAnswers.PollTakesInbox | src/bin/mesh/store.rs:320-334 | a poll that finds messages, or is signalled, answers with the sender and text of every unexpired row of its device, in rowid order; one that finds none sleeps |
| MeshAnswers.AnswerKept | src/bin/mesh/store.rs:298-336 | a poll keeps its answer until it ends |
| MeshAnswers.AnswersAreDeliveries | src/bin/mesh/store.rs:283-336 | over every run, all answers handed out by pulls and polls, one after the other, are exactly the messages delivered |
| MeshAnswers.EnterMeaning | src/bin/mesh/store.rs:303-316 | a poll marks its device seen, and only it, and joins the polls in flight |
| MeshAnswers.GcMeaning | src/bin/mesh/store.rs:361-369 | a collection leaves exactly the unexpired rows, in their order |
| MeshStore.Store.Gc | src/bin/mesh/store.rs:361-369 | removes exactly the expired rows |
| MeshDelivery.StoredPrefix | src/bin/mesh/store.rs:248-273 | a send stores the longest acceptable prefix of its envelopes, in order, each for the device and with the expiry it names; it fails exactly when the next envelope is refused, with that error |
| MeshDelivery.SendIsSteps | src/bin/mesh/store.rs:226-281 | a whole send, failing or not, is a run of insert and wake steps and, on success, the touch of the sender, so run properties hold around it |
| MeshDelivery.ApplyKeepsInv | src/bin/mesh/store.rs:116-369 | every enabled call or poll step keeps conservation, numbering, addressing, order, the inbox cap and the table constraints |
| MeshDelivery.RunKeepsInv | src/bin/mesh/store.rs:116-369 | those hold after every run of calls and poll steps with a nondecreasing clock |
| MeshDelivery.SlotAccountedOnce | src/bin/mesh/store.rs:226-369 | at every point of every run, each slot ever inserted is exactly once in: delivered, still stored, dropped by gc |
| MeshDelivery.DeliveredAtMostOnce | src/bin/mesh/store.rs:283-336 | no slot is delivered twice, by pull or poll or both |
| MeshDelivery.DeliveredInOrder | src/bin/mesh/store.rs:283-336 | each delivery goes to the addressed device, before expiry, and per device in the order sent |
| MeshDelivery.ReachableTables | src/bin/mesh/store.rs:116-281 | in every reachable state subscriptions and UINs correspond one to one, each slot targets a device of its UIN, and no inbox holds more than 100 unexpired slots even if gc has not run |
| MeshDelivery.OwnersNeverChange | src/bin/mesh/store.rs:116-186 | however a run continues, no noise key changes UIN and no UIN changes subscription |
| MeshDelivery.RegisterMeaning | src/bin/mesh/store.rs:135-186 | the answered UIN belongs to the subscription and owns the key; a subscription keeps its UIN; device and name are as requested and every other row as before; conflict exactly for a key bound to another subscription; errors change nothing |
| MeshDelivery.BindKeepsTables | src/bin/mesh/store.rs:135-186 | registration keeps the unique indexes and every existing binding |
| MeshDelivery.GcConserves | src/bin/mesh/store.rs:361-369 | what gc removes is exactly what it drops |
| MeshWakeup.NotifyOnePends | src/bin/mesh/store.rs:382-387 | a notification reaches a poller whenever one is in line and loses no pending one |
| MeshWakeup.ExitKeepsInv | src/bin/mesh/store.rs:298-336 | a poll that ends by timeout, cancellation or with an answer hands an unused grant on, so no other poller loses its wake-up |
| MeshWakeup.RunKeepsInv | src/bin/mesh/store.rs:298-387 | over every interleaving, a poller asleep implies an empty inbox, a wake about to happen, or another poller of the device already signalled |
| MeshWakeup.SleeperHasEmptyInbox | src/bin/mesh/store.rs:298-336 | no lost wake-up: a sole unsignalled sleeper implies no live slot for its device, but between an insert and its wake |
| MeshWakeup.WakeReachesSleeper | src/bin/mesh/store.rs:266-272 | and that instant ends with a poller of the device signalled |
| MeshWakeup.RunCountsPolls | src/bin/mesh/store.rs:390-414 | the guard map lists exactly the devices with a poll in flight, each with their number |
| MeshSignals.SignalsAreMessages | src/bin/mesh/store.rs:266-387 | over every run the signals that polls have used and those still unused are at most one for each envelope stored |
| RateLimiter.Limiter.Check | src/bin/mesh/http.rs:34-44 | drops the entries outside the window, refuses at the limit, else records the request |
| RateLimiter.EntriesRecallAccepted | src/bin/mesh/http.rs:34-44 | what is stored of an address is all of its accepted requests that can still matter |
| RateLimiter.RefusedIff | src/bin/mesh/http.rs:34-44 | a request is refused exactly when the limit was already accepted in the half-open window of the configured length that ends at it |
| RateLimiter.WindowLimit | src/bin/mesh/http.rs:34-44 | every half-open window of the configured length holds at most `limit` accepted requests of an address |
| RateLimiter.OtherAddressesIrrelevant | src/bin/mesh/http.rs:34-44 | requests of other addresses never change what is accepted |
| FullSync.FullSyncTracker.Arm | src/bin/node/snapshot_sync.rs:26-28 | starts an empty sync of the tag, forgetting an open one |
| FullSync.FullSyncTracker.Cancel | src/bin/node/snapshot_sync.rs:31-33 | forgets the tag's sync |
| FullSync.FullSyncTracker.Record | src/bin/node/snapshot_sync.rs:41-45 | adds the id to an open sync only |
| FullSync.FullSyncTracker.Finish | src/bin/node/snapshot_sync.rs:49-56 | releases the keep-set and closes the sync if the count is reached, else remembers the count |
| FullSync.FullSyncTracker.TakeReady | src/bin/node/snapshot_sync.rs:59-75 | releases and closes exactly the syncs whose count is reached |
| FullSync.StateIsHistory | src/bin/node/snapshot_sync.rs:24-75 | after every run the state of an open tag is what was recorded and promised since it was last armed |
| FullSync.ReleaseMeaning | src/bin/node/snapshot_sync.rs:49-75 | a released keep-set belongs to one arm, holds exactly the ids recorded since it, and reaches a count promised since it |
| FullSync.ReleaseIff | src/bin/node/snapshot_sync.rs:49-75 | a keep-set is released exactly when a full sync is open and its promised count is reached |
| FullSync.OneReleasePerArm | src/bin/node/snapshot_sync.rs:24-75 | between two releases of a tag there is a new arm |
| FullSync.KeepIsListIff | src/bin/node/snapshot_sync.rs:49-75 | with the list's size promised, the keep-set is the api's list exactly when only listed ids were recorded |
| FullSync.StrayIdReleasesWrongSet | src/bin/node/snapshot_sync.rs:41-56 | an unlisted id recorded in between makes the sync of two ids release a different pair |
| NodePeers.Worker.AddConnection | src/memory/storage/connection.rs:62-70 | an id already present keeps its connection |
| NodePeers.Worker.HandleCreate | src/bin/node/tasks.rs:247-372 | memory first, then the interface, with every failing branch of both protocols; when it reports success and what that means is in the `AppliedIff` and `CreatedMeaning` rows |
| NodePeers.Worker.HandleDelete | src/bin/node/tasks.rs:459-501 | the peer first, then memory; a failed removal keeps the connection |
| NodePeers.Worker.HandleMessage | src/bin/node/tasks.rs:239-546 | the dispatch by action and tag, with the Xray paths |
| NodeOutcomes.AppliedIff | src/bin/node/tasks.rs:239-546 | a message is reported applied if and only if its guards hold: for a peer, keys and interface are there and the key is new and its call answered, or the key does not decode and the tag is Wireguard; for Xray, client and password are there and the call is answered |
| NodeOutcomes.CreatedMeaning | src/bin/node/tasks.rs:247-372 | after a successful create the connection is in memory, as first created, and a decodable key is on its interface |
| NodeOutcomes.CreatedInMemoryIff | src/bin/node/tasks.rs:247-452 | under a peer tag a create with keys is in memory whatever fails after, under an Xray tag only on success |
| NodeOutcomes.PeersAfterDelete | src/bin/node/tasks.rs:459-501 | a delete takes its key off its interface unless the call fails before taking effect, and no other key |
| NodePeers.OwnedIff | src/bin/node/tasks.rs:239-546 | starting with every peer owned, a message keeps it so, whatever fails, if and only if it adds no key for a known connection that nobody owns and forgets no connection whose installed peer stays and has no other owner |
| NodePeers.HandleKeepsOwners | src/bin/node/tasks.rs:239-546 | messages that give each connection id one tag and one key are of that kind |
| NodePeers.RekeyedUpdateOrphansPeer | src/bin/node/tasks.rs:241-372 | an update with a new key installs it while memory keeps the old connection |
| NodePeers.MistaggedDeleteOrphansPeer | src/bin/node/tasks.rs:453-501 | a delete that names another WireGuard tag than the connection's removes the owner and leaves the peer |
| NodePeers.Worker.StaleMessages | src/bin/node/tasks.rs:199-227 | one delete for each connection of the tag that is not kept, and for no other |
| NodePeers.Worker.PruneTag | src/bin/node/tasks.rs:199-237 | handles every stale connection and counts the successes |
| NodePeers.DeletesFrame | src/bin/node/tasks.rs:199-237 | a run of deletes touches no other id and no other tag's interface, takes out exactly the connections whose guards hold and whose calls are answered, and memory shrinks by exactly the successes |
| NodePeers.PruneMeaning | src/bin/node/tasks.rs:199-237 | a prune keeps every listed connection and every other tag; an unlisted connection leaves memory if and only if its delete's guards hold and its call is answered; the number reported is the number gone |
| NodePeers.FullyPrunedIff | src/bin/node/tasks.rs:199-237 | a released tag is left with nothing but listed connections if and only if none of its deletes is refused |
| NodePeers.AnsweredPruneIsFull | src/bin/node/tasks.rs:199-237 | if all guards hold and all calls are answered, that is every released tag |
| NodePeers.DeletesKeepOwners | src/bin/node/tasks.rs:199-237 | a prune keeps every peer owned however many deletes fail, because its deletes are built from memory |
| NodePeers.Worker.ApplyMessages | src/bin/node/tasks.rs:151-156 | applies any messages in order up to the first failure |
| NodeOutcomes.BatchAppliedIff | src/bin/node/tasks.rs:151-164 | a batch is reported applied if and only if each message succeeds when its turn comes |
| NodeOutcomes.BatchInstalls | src/bin/node/tasks.rs:118-164 | after an applied batch every connection it creates or updates is in memory and its decodable key on its interface, unless only listed again or deleted by the batch |
| NodeOutcomes.RelistingApplies | src/bin/node/tasks.rs:121-146 | listing again what is there succeeds without a call and changes nothing |
| NodeOutcomes.AllOthersApplied | src/bin/node/tasks.rs:136-149 | a full sync skips exactly the creates of what memory holds under the armed tag; all other messages are applied, in order |
| NodeOutcomes.BatchCounts | src/bin/node/tasks.rs:137-171 | a batch counts for an open sync exactly its creates and updates, skipped or not, and a failed one disarms exactly their tags |
| NodePeers.BatchOwnedIff | src/bin/node/tasks.rs:151-164 | peers stay owned throughout a batch, failed or not, exactly if each message reached is safe at its turn |
| NodePeers.BookedRunSafe | src/bin/node/tasks.rs:151-164 | a batch with one tag and one key per connection id is such a batch |
| NodePeers.Worker.CancelAll | src/bin/node/tasks.rs:157-164 | a failed batch disarms every tag it carried |
| NodePeers.Worker.RecordBatch | src/bin/node/tasks.rs:166-171 | a successful batch records every create and update, skipped ones too |
| NodePeers.Worker.PruneReady | src/bin/node/tasks.rs:173-187 | tag by tag, the delete of every unlisted connection of every released tag is handled, and of nothing else |
| NodePeers.Worker.HandleMessagesBatch | src/bin/node/tasks.rs:118-193 | a failed batch prunes nothing and disarms its tags; a successful one prunes exactly the tags whose count is now reached, with the answers that follow those to its messages |
| NodePeers.Worker.FinishSync | src/bin/node/node.rs:638-664 | the api's count releases the tag if it is reached, and then the delete of every unlisted connection of it is handled |
| NodeSync.BatchPresent | src/bin/node/tasks.rs:118-171 | after an applied batch, what its syncs have counted is in memory under its tag, skipped creates too, but for ids deleted since |
| NodeSync.RejectedPresent | src/bin/node/tasks.rs:151-164 | after a failed batch the same holds of the syncs it left open |
| NodeSync.UnlistedGoesIff | src/bin/node/node.rs:628-676 | at every batch or finish an unlisted connection of a released tag goes if and only if its guards hold and its call is answered, and the prune costs nothing else |
| NodeSync.SyncedTagIsList | src/bin/node/node.rs:628-676 | over every run of batches, applied or failed, arms, cancels and finishes: what an open sync has counted and what is released is in memory but for ids deleted since the arm, and a released tag has nothing but its keep-set if and only if no delete of its prune is refused |
| NodeSync.PrunedTagIsList | src/bin/node/node.rs:628-676 | so of the ids not deleted since the arm a fully pruned tag has exactly those of its keep-set |
| NodeSync.AnsweredSyncIsList | src/bin/node/node.rs:628-676 | and so has every released tag if all unlisted connections can be removed and every call is answered |
| NodeSync.RunOwnedIff | src/bin/node/node.rs:628-676 | over every such run peers are owned throughout the batches exactly if each message reached is safe, and then at every moment |
| NodeSync.BookedRunOwned | src/bin/node/node.rs:628-676 | messages with one tag and one key per connection id make every run such a run |
| NodeSync.PrunedPeersAreListed | src/bin/node/node.rs:628-676 | and then every peer on the interface of a fully pruned tag is that of a listed connection |
| MetricSeries.CompactSeries | src/metrics/snapshot.rs:74-114 | keeps exactly the last point of each maximal run of equal buckets |
| MetricSeries.CompactIdempotent | src/metrics/snapshot.rs:74-114 | compacting twice is compacting once |
| MetricSeries.CompactEnds | src/metrics/snapshot.rs:74-114 | the first point kept ends the first run and the last point kept is the last point |
| MetricSeries.DropOldIsFilter | src/metrics/snapshot.rs:40-56 | on a time-ordered series popping old points from the front drops exactly the old points |
| MetricSeries.CompactOldKeepsLastIff | src/metrics/snapshot.rs:116-148 | compaction empties no series, and keeps its last point last if and only if the series is short, that point is recent, or no point is |
| MetricSeries.LateArrivalLosesLast | src/metrics/snapshot.rs:116-148 | a hundredth point with an old time stamp is last before compaction and not after |
| MetricSeries.CompactOldGrowth | src/metrics/snapshot.rs:116-148 | on a time-ordered counter compaction lowers the growth by exactly the growth inside the first compacted run |
| MetricStore.AppendedMeaning | src/metrics/storage.rs:259-275 | an insertion leaves a suffix of the series with the new point; only what exceeds the length limit or is too old is missing |
| MetricHistory.InsertMeaning | src/metrics/storage.rs:240-276 | an insertion leaves the slot with a suffix of its old series and the new point, missing only what exceeds the limit or is too old; every other slot and all other metadata are as before, and a hash keeps its first metadata |
| MetricHistory.StoredIsInserted | src/metrics/storage.rs:259-275 | over every run of insertions a stored series is the end of the points inserted for it, in order |
| MetricHistory.StoredIsWindow | src/metrics/storage.rs:259-275 | with times that never run backwards it is exactly the last points within the length limit, from the first one young enough |
| MetricHistory.LatestIsNewest | src/metrics/storage.rs:337-355 | over every run the latest value of a stored series is that of the last point inserted or restored for it, unless a compaction met an old last point behind a recent one |
| MetricHistory.NewestIsStored | src/metrics/storage.rs:337-355 | and that point is stored until a collection finds it too old |
| MetricHistory.RestoreMeaning | src/metrics/snapshot.rs:166-190 | a restore writes its slot and its metadata and changes no other |
| MetricHistory.GcMeaning | src/metrics/snapshot.rs:36-72 | a slot goes exactly if all its points are old, else it loses only old points from its front; metadata goes with the last slot of its hash |
| MetricHistory.ResetMeaning | src/metrics/storage.rs:779-803 | a reset leaves the last point of each series tagged with the subscription and changes nothing else |
| MetricHistory.CompactMeaning | src/metrics/snapshot.rs:74-148 | on a long time-ordered series exactly the recent points and the last old point of each bucket survive, in order |
| MetricHistory.CompactKeepsRecent | src/metrics/snapshot.rs:116-148 | in any order every recent point survives and none is invented; short series stay as they are |
| MetricHistory.DeltaReads | src/metrics/storage.rs:357-390 | a range query reads the growth, never negative, between the first and the last sample in the closed range, and nothing without a sample |
| MetricStore.InsertKeepsInv | src/metrics/storage.rs:240-276 | insertion keeps the index exact, free of empty entries, and metadata keys equal to stored series keys |
| MetricStore.GcKeepsInv | src/metrics/snapshot.rs:36-72 | so does garbage collection |
| MetricStore.CompactKeepsInv | src/metrics/snapshot.rs:116-148 | so does compaction |
| MetricStore.RestoreKeepsInvIff | src/metrics/snapshot.rs:166-190 | restoring one series keeps it if and only if no tag of metadata already stored under its hash is lost |
| MetricStore.CollidingRestoreBreaksIndex | src/metrics/snapshot.rs:166-190 | two metadata entries with one hash leave a stale index entry |
| MetricStore.CollisionFreeRestoreSafe | src/metrics/snapshot.rs:166-190 | with a collision-free key every restore meets that condition |
| MetricStore.IndexDetermined | src/metrics/storage.rs:240-276 | an exact index without empty entries is determined by the metadata alone |
| MetricStore.RunKeepsInv | src/metrics/storage.rs:240-276 | over every sequence of insert, gc, compaction, reset and restore the index is exact, for collision-free keys, and for any keys if nothing is restored |
| MetricOrder.RunKeepsCounters | src/metrics/storage.rs:240-276 | over every run whose insertions are not before or below their series' last point, all series are time-ordered and nondecreasing, strictly ordered if the inserted times increase |
| MetricStorage.Storage.constructor | src/metrics/storage.rs:225-238 | a new store is empty and its index exact |
| MetricStorage.Storage.FileTags | src/metrics/storage.rs:248-257 | filing tag by tag files the hash under exactly the given tags |
| MetricStorage.Storage.InsertEnvelope | src/metrics/storage.rs:240-276 | metadata and index are written once per hash, the point is appended and the series trimmed |
| MetricStorage.Storage.TrimmedAppend | src/metrics/storage.rs:259-275 | pops while too long, then while the first point is too old |
| MetricStorage.Storage.SeriesFor | src/metrics/storage.rs:299-331 | the intersection of index entries, filtered by name, is the result of a full metadata scan; nothing for an empty filter |
| MetricStorage.IndexLookupIsScan | src/metrics/storage.rs:299-331 | a series is in every tag's index entry exactly when it carries all tags, and the lookup is the full scan if and only if there is a tag to look up or nothing of that name |
| MetricStorage.Storage.SumSeries | src/metrics/storage.rs:337-390 | the loops of `latest_sum`, `delta_sum` and `sum_metric` add up the selected series of all nodes |
| MetricStorage.Storage.SumHashes | src/metrics/storage.rs:699-726 | visiting the nodes in any order adds up the query over the given series of every node |
| MetricStorage.Storage.GetLastHeartbeat | src/metrics/storage.rs:467-490 | the latest time stamp over all heartbeat series of the node, none exactly if there is none |
| MetricStorage.Storage.ResetSubscriptionSeries | src/metrics/storage.rs:779-803 | every series of the subscription keeps only its last point, all others are unchanged |
| MetricStorage.ResetKeepsLatest | src/metrics/storage.rs:779-803 | a reset changes no latest value |
| MetricStorage.ResetClearsGrowth | src/metrics/storage.rs:779-803 | after a reset the subscription's series contribute nothing to any growth query |
| MetricStorage.Storage.RestoreSeries | src/metrics/snapshot.rs:166-190 | writes series, metadata and index; keeps the invariant exactly when the restore is safe |
| MetricStorage.Storage.PerformGc | src/metrics/snapshot.rs:36-72 | trims old points, drops empty series and nodes, then metadata and index entries no series uses |
| MetricStorage.Storage.CompactOldPoints | src/metrics/snapshot.rs:116-148 | every series of at least 100 points has its old part compacted, with any interval unless it is zero and some old part would be divided by it |
| MetricStorage.CompactKeepsLatest | src/metrics/storage.rs:337-355 | compaction leaves `latest_sum` unchanged if each selected series keeps its last point |
| MetricStorage.CompactKeepsHeartbeats | src/metrics/storage.rs:467-490 | compaction leaves the last heartbeats of a node unchanged if its heartbeat series keep their last points |
| MetricStorage.CompactLowersTotals | src/metrics/storage.rs:699-726 | if the selected series are time-ordered and nondecreasing, compaction lowers `sum_metric` by exactly the growth inside the first compacted runs, summed over series and nodes |
| MetricSnapshot.SplitParts | src/metrics/snapshot.rs:236-296 | the parts concatenate to the list, none is empty, each is below the limit before its last member, and all but the last reach it |
| MetricSnapshot.ListSeries | src/metrics/snapshot.rs:236-275 | lists every persisted series exactly once |
| MetricSnapshot.RestoreListing | src/metrics/snapshot.rs:166-190 | restoring a listing in any order rebuilds exactly the listed series with an exact index |
| MetricSnapshot.RoundTrip | src/metrics/snapshot.rs:214-361 | restoring a complete listing yields the store restricted to persisted metrics, index included |
| MetricSnapshot.BeforeSaveInv | src/metrics/snapshot.rs:214-222 | the gc and compaction before a save keep the invariant |
| MetricSnapshot.SaveMetrics | src/metrics/snapshot.rs:214-315 | collects and compacts the store, then puts every persisted series into exactly one well-sized part |
| MetricSnapshot.SaveSnapshot | src/metrics/snapshot.rs:149-315 | the same for the metrics the service persists |
| MetricSnapshot.RestorePart | src/metrics/snapshot.rs:317-361 | restores one part's series in order |
| MetricSnapshot.LoadSnapshot | src/metrics/snapshot.rs:317-361 | restores the readable parts into an empty store, then collects |
| MetricSnapshot.SaveThenLoad | src/metrics/snapshot.rs:214-361 | loading all saved parts gives the persisted part of the saved store after load-time gc, with the invariant |
| MetricSnapshot.LoadWithLostParts | src/metrics/snapshot.rs:317-361 | whatever saved parts cannot be read, the loaded store is the saved one restricted to the slots of the others after load-time gc, with the invariant |
| Calendar.MonthUnique | src/bin/api/traffic.rs:17-25 | a day lies in one month only |
| Calendar.JanuaryFirst | src/bin/api/traffic.rs:17-25 | the month table adds up to the Gregorian leap-year rule in every year, before and after 1970 |
| Calendar.DaysBeforeClosed | src/bin/api/traffic.rs:17-25 | the month table agrees with a closed form of the days before each month |
| Traffic.DaysInMonthIsLength | src/bin/api/traffic.rs:17-25 | the day before the next month's first is the month's length |
| Traffic.AnchorIsGreatest | src/bin/api/traffic.rs:39-53 | the monthly anchor is the greatest clamped anniversary not after `now`, and the next one is after it |
| Traffic.AnniversaryMeaning | src/bin/api/traffic.rs:28-53 | the anniversary of a month lies in it, at the same time of day, on the same day or the last of a shorter month |
| Traffic.DayInMillis | src/bin/api/traffic.rs:176-178 | times are passed to the metric store in whole milliseconds |
| Traffic.PrevAnchorIsPrevious | src/bin/api/traffic.rs:56-66 | the previous anchor of an anniversary is the anniversary before it |
| Traffic.Midnights | src/bin/api/traffic.rs:150-155 | terminates and lists exactly the midnights in (from, to] |
| Traffic.Anniversaries | src/bin/api/traffic.rs:157-162 | terminates and lists exactly the anniversaries in (from, to] |
| Traffic.SplitPoints | src/bin/api/traffic.rs:148-172 | the points ascend from `from` to `to` and are exactly the ends and the boundaries, so the segments tile the range |
| Traffic.NoBoundaryInside | src/bin/api/traffic.rs:148-175 | no midnight and no anniversary lies strictly inside a segment |
| Traffic.DayBucketIff | src/bin/api/traffic.rs:183-183 | a returned segment's day had begun when its window did exactly if the window does not end on a midnight |
| Traffic.MonthBucketIff | src/bin/api/traffic.rs:184-184 | and its subscription month exactly if the window does not end on an anniversary |
| Traffic.MidnightSegmentFiledLater | src/bin/api/traffic.rs:183-183 | the last returned segment of a range that ends on a midnight is filed under the day that begins there |
| Traffic.AnniversarySegmentFiledLater | src/bin/api/traffic.rs:184-184 | the last returned segment of a range that ends on an anniversary is filed under the month that begins there |
| Traffic.MeasureSegment | src/bin/api/traffic.rs:176-189 | a segment carries both directions' growth between its ends, in milliseconds, and its end's buckets, as the `SegmentsMeaning` row tells them |
| Traffic.MeasureSegments | src/bin/api/traffic.rs:174-190 | one segment per pair of neighbouring points, without the empty ones |
| Traffic.ConnectionDeltasBetween | src/bin/api/traffic.rs:137-191 | nothing for an empty range, else the segments of a tiling of it |
| Traffic.SegmentsMeaning | src/bin/api/traffic.rs:174-190 | the result has one segment for each window in which something flowed, in order, with what flowed in each direction, filed under the latest midnight and the latest anniversary not after the end of the window |
| Traffic.RangeSplit | src/metrics/storage.rs:357-390 | a time-ordered series cut at a time splits into its samples up to it and after it |
| Traffic.DeltaBalance | src/metrics/storage.rs:357-390 | two closed windows of a counter count the whole, plus the step between samples at the cut, minus the step across a cut without samples |
| Traffic.DeltaSplit | src/metrics/storage.rs:357-390 | so they stay within the whole if and only if the samples at the cut agree, and are exact if there is one there |
| Traffic.StrictIsSettled | src/metrics/storage.rs:357-390 | strictly increasing timestamps meet that condition at every cut |
| Traffic.StoreDeltaSplit | src/metrics/storage.rs:357-390 | the same balance, summed over all selected series of all nodes |
| Traffic.SegmentTotals | src/bin/api/traffic.rs:174-190 | dropping the empty segments changes no total |
| Traffic.CountedExactly | src/bin/api/traffic.rs:174-190 | in either direction the segments add up to the growth over the whole range, plus what the cuts count twice, minus what they lose |
| Traffic.NeverOverCounted | src/bin/api/traffic.rs:174-190 | so with agreeing samples at the cuts they add up to at most the whole, and to exactly that if every inner boundary carries a sample |
| Traffic.ConnNeverOverCounted | src/bin/api/traffic.rs:137-191 | that holds for the segments returned for a connection, in both directions |
| Traffic.DuplicateTimestampCountsTwice | src/metrics/storage.rs:357-390 | with two samples at the cut the windows exceed the whole |
| Traffic.OrderlyStoreCounts | src/metrics/storage.rs:240-390 | a store reached with increasing times and nondecreasing values meets the conditions of the rows above, wherever it is cut |
| AlertEngine.Engine.Observe | src/bin/api/alerts.rs:320-451 | one observation changes one node's track as the rules say, creating it if missing, and nothing else |
| AlertEngine.Engine.PopStale | src/bin/api/alerts.rs:358-364 | pops the episodes that began before the window |
| AlertEngine.Engine.ObserveOffline | src/bin/api/alerts.rs:385-426 | the offline branch: escalation, then suppression by state, age or throttle, then the alert; when each fires is in the `OfflineFiresIff` and `EscalationFiresIff` rows |
| AlertEngine.Engine.ObserveOnline | src/bin/api/alerts.rs:428-450 | the recovery branch: a grace period, then the alert |
| AlertEngine.Engine.ObserveCpu | src/bin/api/alerts.rs:467-508 | one CPU reading changes one node's CPU track only |
| AlertEngine.Engine.Seed | src/bin/api/alerts.rs:640-653 | seeding changes one track and keeps its other memory |
| AlertEngine.Engine.Reseed | src/bin/api/tasks.rs:1050-1052 | the per-tick seed passes a known node its own alert state back |
| AlertEngine.Engine.RetainNodes | src/bin/api/alerts.rs:661-663 | removing gone nodes one by one leaves exactly the live nodes' tracks, and every CPU track |
| AlertFleet.NodeFollowsOwnEvents | src/bin/api/alerts.rs:320-663 | over any interleaving of observations, seeds and retains of many nodes, a node's track and the alerts sent for it are those of its own events since it was last absent |
| AlertFleet.NodeAlternates | src/bin/api/alerts.rs:320-663 | so while a node is retained its alerts alternate as expected, whatever happens to the others |
| AlertFleet.NodeThrottled | src/bin/api/alerts.rs:229-235 | and its offline alerts are at least the throttle apart |
| AlertFleet.ObserveDecides | src/bin/api/alerts.rs:320-451 | what the engine decides on an observation is what the rules decide on that node's own events, so the exact conditions below hold for it |
| AlertFleet.CpuFollowsOwnReadings | src/bin/api/alerts.rs:467-508 | a node's CPU track is that of its own readings, which a retain does not forget |
| AlertFleet.NodeQuietWhileNew | src/bin/api/alerts.rs:335-451 | and while its grace is in force nothing fires for it but the recovery from an alert it was seeded with |
| AlertFleet.CpuDecidesOnOwnReadings | src/bin/api/alerts.rs:467-508 | what the engine decides on a CPU reading is what that node's own readings demand |
| AlertFleet.NodeCpuHighMeaning | src/bin/api/alerts.rs:467-508 | so a CPU alert of the engine comes at least max(60, hold) seconds after a high reading of the same node with no low one of it since |
| AlertFleet.NodeCpuHighOnce | src/bin/api/alerts.rs:467-508 | and two CPU alerts of a node have a low reading of it between them |
| AlertRuns.FreshTracksAreInitial | src/bin/api/alerts.rs:640-653 | a new or freshly seeded track starts the runs below |
| AlertRuns.AlertsAlternate | src/bin/api/alerts.rs:320-451 | over every run, re-seeding included, offline, escalation and recovery alerts follow the expected alternation and the track's flags are where it stands |
| AlertRuns.OfflinesSeparated | src/bin/api/alerts.rs:385-450 | two offline alerts have a recovery between them |
| AlertRuns.RecoveryAnswersOffline | src/bin/api/alerts.rs:428-450 | a recovery answers an offline alert, fired or seeded, not yet answered |
| AlertRuns.EscalatedOnce | src/bin/api/alerts.rs:385-426 | an escalation happens while an alert is open, once per alert |
| AlertRuns.ThrottleInvariant | src/bin/api/alerts.rs:229-235 | the remembered time is that of the latest offline alert, and offline alerts are spaced |
| AlertRuns.OfflinesThrottled | src/bin/api/alerts.rs:229-235 | two offline alerts are at least the throttle apart |
| AlertEpisodes.EpisodesInvariant | src/bin/api/alerts.rs:352-383 | over every run the remembered episodes began with silent readings, each separated from the next by a reading under half the gap |
| AlertEpisodes.FlappingMeaning | src/bin/api/alerts.rs:352-383 | a flapping alert means that at least max(2, threshold) such episodes began within the window; its duration is their number |
| AlertEpisodes.RecoveredMeaning | src/bin/api/alerts.rs:428-450 | a recovery comes at least the grace period after the fresh reading that began it; none since was offline if and only if no offline one fired a flapping alert |
| AlertEpisodes.OfflineEndsGraceIff | src/bin/api/alerts.rs:352-386 | an offline reading ends the grace period if and only if it fires no flapping alert |
| AlertEpisodes.FlappingHidesOffline | src/bin/api/alerts.rs:352-450 | a run that reports a recovery 50 s after an offline reading, with a grace of 120 s |
| AlertEpisodes.FireReasons | src/bin/api/alerts.rs:320-451 | only a reading fires: offline and escalation past the offline threshold, flapping past the flap gap, recovery on a fresh heartbeat, with durations at least what the rule demands, and none but recovery while the node is new |
| AlertHistory.OfflineFiresIff | src/bin/api/alerts.rs:385-426 | over every run an offline alert fires if and only if the reading is down and fires no flapping alert, no alert is open, the grace is over, and every offline alert so far is at least the throttle old; it tells the seconds the node has been down |
| AlertHistory.EscalationFiresIff | src/bin/api/alerts.rs:385-411 | an escalation fires if and only if the reading is down and fires no flapping alert, an alert is open and not escalated, the grace is over, and the node has been down for the long threshold and ten minutes |
| AlertHistory.RecoveryFiresIff | src/bin/api/alerts.rs:428-450 | a recovery fires if and only if the reading is fresh and fires no flapping alert, an alert is open, and the node has been fresh for the recovery grace |
| AlertHistory.FlappingFiresIff | src/bin/api/alerts.rs:352-383 | a flapping alert fires if and only if an episode begins, the threshold of them lies in the window, the grace is over and no flapping alert stands; it tells their number |
| AlertHistory.NothingElseFires | src/bin/api/alerts.rs:320-451 | no other alert comes from a reading, and none without a heartbeat |
| AlertEpisodes.NewIffGrace | src/bin/api/alerts.rs:335-343 | over every run of a node met or seeded, re-seeding included, it is treated as new exactly while its grace is in force |
| AlertEpisodes.QuietWhileNew | src/bin/api/alerts.rs:335-451 | while the grace is in force nothing fires but a recovery, and that only from an alert the node was seeded with, if the clock starts at an origin |
| AlertEpisodes.RecoveryWithinGrace | src/bin/api/tasks.rs:976-981 | seeded as alerted at boot, a node is reported recovered at 130 s, with a grace of 600 s |
| AlertEpisodes.GraceIff | src/bin/api/alerts.rs:640-653 | the grace is in force exactly when no seed could yet subtract it and the start, or the last seed, is less than the grace ago |
| AlertEpisodes.ReseedEndsGrace | src/bin/api/tasks.rs:1050-1059 | as the service drives it, a node met at time 0 is reported offline at time 0 despite a grace of 600 s |
| AlertEpisodes.CpuHighMeaning | src/bin/api/alerts.rs:467-508 | a CPU alert comes at least max(60, hold) seconds after a reading at threshold with no reading below the reset level since |
| AlertEpisodes.CpuHighOnce | src/bin/api/alerts.rs:467-508 | two CPU alerts have a reading below the reset level between them |
| AlertHistory.CpuFiresIff | src/bin/api/alerts.rs:467-508 | a CPU alert fires if and only if the load is high, was high at a reading at least 60 s and the hold time ago with no low one since, and no alert was sent since the last low one; it tells the seconds since the first high one |
| Base32.BytesRoundTrip | src/memory/key.rs:229-230 | fewer than eight padding bits are dropped and the bytes come back |
| Base32.EncodeDecode | src/memory/key.rs:229-230 | unpadded base32 (section 6 of RFC 4648) decodes to what was encoded, for every byte string |
| Base32.EncodeIsNumber | src/memory/key.rs:229-230 | the code is the bytes as one number, shifted to whole symbols, in base 32 |
| Base32.SymbolsAreAlphabet | src/memory/key.rs:229-230 | with the letters A to Z and then the digits 2 to 7 |
| ActivationCode.NewDays | src/memory/key.rs:215-235 | builds the days payload by pushes: data, three signature bytes, checksum, base32, groups of five |
| ActivationCode.NewLite | src/memory/key.rs:240-261 | the same for traffic payloads |
| ActivationCode.CodeLayout | src/memory/key.rs:215-261 | where each field stands, big-endian and signed as in the source, that the signature is over all before it, and that the last byte is the sum of the others modulo 256 |
| ActivationCode.HyphenPositions | src/memory/key.rs:339-346 | a printed code has a hyphen after every fifth character but the last |
| ActivationCode.ParseUndoesPrint | src/memory/key.rs:263-327 | every spelling with the same letters parses to the payload printed; the days-only parser rejects lite codes |
| ActivationCode.CommonSpellings | src/memory/key.rs:188-206 | in particular the printed, the lower-case and the hyphen-free spelling |
| ActivationCode.ParseIffPrintable | src/memory/key.rs:271-327 | a text parses to a payload exactly when it spells a code for it |
| ActivationCode.OneByteBreaksChecksum | src/memory/key.rs:335-337 | any change of one byte breaks the checksum |
| ActivationCode.CorruptedByteRejected | src/memory/key.rs:271-327 | a code with any one byte changed is rejected |
| PeerAddresses.MasksAgree | src/proto/wireguard.rs:120-122 | the two mask formulas agree for prefix lengths 1 to 32 |
| PeerAddresses.ModelNetworkIsBlock | src/memory/connection/wireguard.rs:138-176 | for prefix lengths 0 to 32 `contains` holds exactly between the first and the broadcast address |
| PeerAddresses.NetworkIsBlock | src/memory/connection/wireguard.rs:138-176 | for prefix lengths 1 to 32 both files' network and broadcast addresses agree, and `contains` holds exactly between network and broadcast address |
| PeerAddresses.SearchIsInside | src/proto/wireguard.rs:119-142 | with 32-bit ends that wrap around the search goes over network+1 to broadcast-2, exactly if the network is not 0.0.0.0/32 or 255.255.255.255/32 |
| PeerAddresses.NextAvailable | src/proto/wireguard.rs:106-152 | the least searched address that is neither used nor the interface's own, inside the network but for those two, and a failure only if there is none |
| PeerAddresses.FirstAllocatableMeaning | src/memory/connection/wireguard.rs:102-122 | only addresses of the network, none exactly if it or the address space ends too early, and past the reserved prefix exactly if the network reaches past it or the configured address does |
| PeerAddresses.SmallNetworkOffersReserved | src/memory/connection/wireguard.rs:102-122 | in 10.0.0.0/27 the address offered is 10.0.0.2 |
| Score.Formula | src/score/mod.rs:196-225 | the score lies in [0, 100] for every input and weighting |
| Score.MoreUsersNeverHelp | src/score/mod.rs:196-225 | with nonnegative weights and traffic, more users never raise it |
| Score.HealthNeverHurts | src/score/mod.rs:196-225 | with nonnegative weights less load, more heartbeats and more uptime never lower it |
| Score.TrafficTrades | src/score/mod.rs:196-225 | more traffic lowers the capacity part, raises the per-user part and changes no other |
| Score.SpareMeaning | src/score/mod.rs:197-203 | load, users and capacity parts are the free share of the cores, the user cap and the link |
| Score.ServiceMeaning | src/score/mod.rs:204-209 | the others are the rate per user against its target, heartbeats against those due in a day, uptime against thirty days |
| Score.WeightsMeaning | src/score/mod.rs:218-224 | each weight is what its part counts for, of a hundred |
| Score.ScoreIsMean | src/score/mod.rs:196-225 | with weights that sum to one the score is the weighted mean, a hundred at the best of everything and zero at the worst |
| Score.StepBetween | src/score/mod.rs:188-194 | a smoothing step moves toward the sample and not past it |
| Score.AdvanceMeaning | src/score/mod.rs:251-275 | a stale observation zeroes the averages, the first sets them, a later one shrinks each distance to it by its decay over the seconds since; the published values are the three averages |
| Score.AveragesInHull | src/score/mod.rs:251-275 | over every run each average stays in the hull of the samples since the last stale reset |
| Score.PublishedInRange | src/score/mod.rs:341-384 | so averages and published scores of one node stay in [0, 100] |
| Score.AdvanceKeepsOrder | src/score/mod.rs:251-275 | one tick under a constant sample keeps the faster average nearer |
| Score.FastAveragesLead | src/score/mod.rs:251-275 | from a common start under a constant sample the 5-minute average is always at least as near as the hourly one, and that as the daily one |
| Score.NewNodeLeads | src/score/mod.rs:251-384 | and so for what is published of a node from its first observation on |
| Score.Scorer.Tick | src/score/mod.rs:386-399 | advances and publishes node by node |
| Score.NodesIndependent | src/score/mod.rs:386-399 | however ticks mix the nodes, each node's averages are those of its own samples |
| Score.EveryScoreInRange | src/score/mod.rs:386-399 | over every run of ticks everything published stays in [0, 100] |

## Left out

- HTTP routes, Telegram, ZeroMQ, PostgreSQL and logging: I/O without state of interest.
- SQL and file errors, SQLite, rkyv and serde: the tables and the saved values are modelled directly and their operations succeed; a part that cannot be read is modelled.
- The mesh store's `lookup` and `set_name`, which touch no slot, and `src/mesh/mod.rs`, a simpler single-device store.
- The clock of a mesh call is read before the mutex is taken; the model takes the steps' clocks as nondecreasing.
- The order in which SQLite returns a UIN's devices: the model allows any device that verifies the request.
- Ed25519, HMAC-SHA256 and key decoding: a request verifies under a given set of keys, and a message authentication code is any function with at least three bytes of output.
- White space and letter case outside ASCII in keys and codes.
- Padding in codes: the base32 crate may accept `=`, which the model's decoder rejects; the crate is not part of this model.
- Integer overflow of counters and sizes, and rounding, infinities and NaN of floating point: metric values are integers and scores are reals.
- Concurrent access to the metric maps: each operation is one step.
- `try_join_all` in a message batch: messages are taken one at a time, in order, up to the first failure.
- Xray's own user list, and the reset of statistics beyond success or failure.
- `observe_disk_at` and `observe_restarts_at`, which would add easier copies of the flapping and CPU rules; the alert texts.
- Leap seconds, and the year range of chrono.
- Prefix length 0 in the interface client, on which its shift overflows, and IPv6.
- Overflow checks: `SearchFrom` and `SearchTo` wrap around, as in a release build; a debug build panics on the two networks named.
- Reading a node's inputs from the metric store in `score::observe`; `exp` is any strictly increasing function with values in (0, 1) below zero.
- Client links, configuration files, products, plans and entitlements: long but shallow.
- PeerAddresses.NextAvailable: does not cover prefix length 0, for the shift's sake.
- MetricSeries.CompactSeries: does not cover a zero interval on two or more points, where the original divides by zero.
- MetricStorage.Storage.CompactOldPoints: does not cover a zero interval with two old points in a series of 100, for the same reason.
