# TelemetryForge in Dafny

TelemetryForge takes telemetry at the edge, appends it to a local log, copies it to peers,
acknowledges it, and delivers it downstream. This project models the parts of the system
that carry its guarantees and proves those guarantees for every input, every run and every
interleaving. `dafny verify dfyconfig.toml` checks all of it.

## How the model reads

| part | modules | main results |
|---|---|---|
| Lock-free ring | `Ring`, `RingInvariant`, `RingSafety`, `RingStall`, `RingRefusals`, `RingClears`, `RingSequential`, `Arith` | every interleaving of any number of threads keeps each value under its own ticket; safe exactly from two slots |
| Replica store | `ReplicaLog`, `ReplicaFrames`, `ReplicaSpec`, `ReplicaRoom`, `ReplicaStore`, `ReplicaRecovery`, `ReplicaRuns`, `ReplicaPeer`, `ReplicaLimits` | durability over every run of puts, releases, compactions and crashes at any byte; a put is refused exactly when the live bytes leave no room |
| Replication quorum | `Quorum` | the policy is monotone in the set of acknowledgements; startup rejects exactly the hopeless topologies |
| Durable edge | `EdgeProtocol`, `EdgeRuns`, `EdgeBatches`, `Delivery` | acknowledged means held by a quorum, committed means delivered, released means committed, and all of it does happen |
| Model explorer | `Explore`, `Explorer` | exact verdict, exact counts, nearest violation |
| Merkle seal | `Merkle` | equal roots of different lists give a computed hash collision between the two trees |
| Autonomy | `Forecast`, `Autonomy`, `AutonomyStarts`, `AutonomyController` | the forecast leaves the last reading along the least-squares line; every run of ticks is safe, and an action starts exactly when it is due |
| Cardinality | `Cardinality` | the estimate depends on the set of values only, locally and in the shared row |
| Edge mesh | `MeshRoute`, `Delivery` | the owner is the nearest usable node; one ranking whatever the iteration order; membership changes move only the keys they must |
| Remote write | `Wire`, `RemoteWrite` | a decoder recovers labels, value bits and timestamp from the compressed request |
| Multi-cloud fabric | `FabricPlacement`, `FabricSpec`, `Fabric` | conservation and recovery over every schedule and topology |
| Routing fallback | `Fallback` | accepted exactly without a cycle; no run of failures repeats a destination |
| Shaping | `Shaping` | the rate in the configured numbers; sampling is nested |

Code that updates fields is a class or a method with its loop, and each such member is
proved against a function on values. Concurrency is a step system: one action is one atomic
step of one thread, and a run is any list of actions. Hashes, record codecs, checksums, glob
matches, tag sanitizing, the downstream's answers, map iteration orders and the clock are
parameters, so what is proved holds for all of them. Where a Go loop ranges over a map, the
model takes the keys in an arbitrary order and proves that the order does not matter.

## Where the code does not do what one would expect

For each of these the model has the exact condition and an input or run that shows it.

- A ring can refuse a push while it is empty: a pop that has claimed the last lap's value and not yet freed its slot holds the push up (`RingSafety.PushRefusalIsTruthful`, `RingStall.EmptyRingRefuses`).
- The replica log is called crash-safe in the project's documentation. A crash inside the eight header bytes of a brand-new log makes the whole directory fail to open, and so does a crash inside the append of a record longer than 16 MiB once the length of its payload is written; after every other crash it opens (`ReplicaSpec.OpensUnlessFatal`, `ReplicaLimits.HeaderTears`, `ReplicaLimits.OversizeCrashIsFatal`).
- A record whose encoding is longer than 16 MiB is accepted and acknowledged by `Put`, and afterwards the directory does not open (`ReplicaSpec.AcceptedPutOpensIffFits`, `ReplicaLimits.OversizeIsAccepted`). The replication handler caps a request body at 4 MiB, so this concerns what `Put` itself accepts.
- A put at or below the release mark is acknowledged without a look at its content, so once an origin and sequence is released, any second content is acknowledged for it (`ReplicaRuns.SecondContentIff`, `ReplicaRuns.ReleasedSlotTakesAnything`). The disk never holds both (`ReplicaRuns.OneContentOnDisk`).
- `Release` trims the origin's name and `Put` does not, so in no run is a record of an origin whose name has surrounding space ever released (`ReplicaRuns.UntrimmedNeverReleased`).
- In local mode `Replicate` reports success without applying the policy; that is honest exactly when the quorum is one (`Quorum.LocalModeHonestIffQuorumOne`, `Quorum.LocalQuorumOfTwo`).
- The one-by-one path of the edge's `publishBatch` leaves nil results for items it never tried. A nil slot alone proves nothing unless nothing failed before the last item; a prefix of nil slots always does (`Delivery.PublishBatch`, `Delivery.NilWithoutAttempt`).
- A Merkle root fixes the number of leaves only for a single leaf that is not itself the hash of two digests. Leaves and inner nodes are hashed alike, so every higher level of the tree is a shorter list of leaves with the same root, and the count of a list longer than one is never fixed (`Merkle.CountFixedIff`, `Merkle.LevelSharesRoot`; `Merkle.OddTailRepeats` is one instance). Leaves that differ in the case of their digits share a root too (`Merkle.RootBindsLeaves`, `Merkle.CaseSharesRoot`).
- A configured cooldown of zero lets one tick end an action and start the next; the run that shows it is a saturated queue up to the expiry of the first action (`Autonomy.RestIffCooldown`).
- The shared cardinality row dates the first sighting by the smallest timestamp, the local tracker by the first arrival; they agree exactly when the first arrival was the earliest. It dates the last sighting by the greatest timestamp, the tracker by the last arrival; they agree exactly when the last arrival was the latest (`Cardinality.FirstSeenAgrees`, `Cardinality.LastSeenAgrees`, `Cardinality.LateArrivalDisagrees`).
- Validation looks a failure fallback up under the trimmed name of its destination and the dispatcher under the name as written, so a fallback to a destination whose name has surrounding space is accepted and then dropped (`Fallback.HandoffIff`).
- The compressed body is a valid block exactly below 2^32 bytes, which the encoder does not check (`Wire.SnappyRoundTripExact`).
- Two allowed tags that sanitize to one label name make the request depend on map iteration order (`RemoteWrite.OrderFreeIffNoClash`, `RemoteWrite.ClashingTags`).
- An allowed tag can replace the metric name, the source or the tenant of an event: such a label keeps its own value in every order exactly when no allowed tag sanitizes to its name with another value (`RemoteWrite.BaseLabelKeptIff`).

Two checks of the code are shown to be needed: without the presence check on fallbacks an
endless run of failures would pass validation (`Fallback.CycleCheckAloneIsNotEnough`), and
without the order of the pressure factors sampling would not be nested
(`Shaping.UnvalidatedIsNotNested`).

## Model

| member | source | states |
|---|---|---|
| Arith.MaskIsModulo | internal/fastpath/ring.go:56 | masking a ticket with capacity minus one is reduction modulo the power-of-two capacity, for every ticket |
| RingSafety.ReachableInv | internal/fastpath/ring.go:53-97 | every interleaving of any number of producers and consumers, attempt limits included, keeps the slot, ticket, owner and receipt invariant |
| RingSafety.InvMeansFaithful | internal/fastpath/ring.go:53-97 | in such a state each popped value is the one pushed under the same ticket, no ticket is popped twice, and a pushed value not yet claimed is still in its slot |
| RingSafety.WriteNeverOverwrites | internal/fastpath/ring.go:61-63 | a thread about to store its value finds the previous lap's value already returned |
| RingInvariant.PushWinsFreeSlot | internal/fastpath/ring.go:55-63 | a winning enqueue compare-and-swap still sees its slot free, although the sequence was read earlier |
| RingInvariant.PopWinsFullSlot | internal/fastpath/ring.go:78-88 | a winning dequeue compare-and-swap still sees its ticket's value in the slot |
| RingSafety.PushRefusalIsTruthful | internal/fastpath/ring.go:66-67 | a push that sees a lagging slot found the value one lap back not returned: either the counters are a full lap apart, or the pop that claimed it is unfinished, and never both |
| RingStall.EmptyRingRefuses | internal/fastpath/ring.go:66-67 | a schedule on two slots after which a push sees a lagging slot although as many values were claimed as pushed |
| RingSafety.PopRefusalIsTruthful | internal/fastpath/ring.go:90-91 | a pop that sees a lagging slot found its ticket not pushed, or its push unfinished |
| RingSafety.QuiescentConservation | internal/fastpath/ring.go:53-97 | with no thread inside an operation, every pushed ticket was returned exactly once or sits in its slot |
| RingInvariant.FreeIsNotFull | internal/fastpath/ring.go:24-26 | with at least two slots a sequence number cannot mean free and full at once |
| RingSafety.OneSlotOverwrites | internal/fastpath/ring.go:24-26 | on a single slot a second push destroys the first value |
| RingSafety.SafeExactlyFromTwoSlots | internal/fastpath/ring.go:23-36 | rings of two to the k slots are faithful over all interleavings if and only if there are at least two slots |
| RingRefusals.AttemptsAreLosses | internal/fastpath/ring.go:54-97 | in every execution a thread still searching has lost exactly as many races as its attempt counter says, and fewer than thirty-two |
| RingRefusals.GivesUpIff | internal/fastpath/ring.go:59-97 | a decision ends a push or pop without success if and only if the slot lags or the race lost is the thirty-second |
| RingClears.ReachableClear | internal/fastpath/ring.go:84-87 | in every interleaving a slot that waits for an unclaimed push holds the zero value |
| RingClears.QuiescentRingKeepsNothing | internal/fastpath/ring.go:84-87 | with no thread inside an operation each slot holds a value still to be popped or the zero value: nothing popped is kept alive |
| RingSequential.RoundCapacity | internal/fastpath/ring.go:24-30 | the rounded capacity is the least power of two that is at least two and at least the request |
| RingSequential.LengthFrom | internal/fastpath/ring.go:40-51 | the reported length never exceeds the capacity and is exact on a consistent pair of counters |
| RingSequential.SequentialRing.constructor | internal/fastpath/ring.go:23-36 | a new ring is empty and large enough |
| RingSequential.SequentialRing.Len | internal/fastpath/ring.go:40-51 | the number of queued items |
| RingSequential.SequentialRing.TryPush | internal/fastpath/ring.go:53-73 | succeeds exactly when the queue is not full, and then appends the item |
| RingSequential.SequentialRing.TryPop | internal/fastpath/ring.go:75-97 | succeeds exactly when the queue is not empty, and then returns and removes the oldest item; otherwise the zero value and no change |
| Explorer.CheckState | internal/formal/model.go:67-73 | a state passes exactly when every invariant holds; otherwise the first broken one is named |
| Explorer.Expand | internal/formal/model.go:75-82 | one round marks every successor as seen and keeps the frontier in at most two levels |
| Explorer.Search | internal/formal/model.go:53-85 | the search ends on any finite graph; it passes exactly when all reachable states satisfy all invariants, then counts exactly the reachable states and the sum of their out-degrees; a failure is a reachable violation with its first broken invariant, as near as any |
| Explore.ShortWalksSeen | internal/formal/model.go:60-82 | every walk no longer than the current level ends in a seen state recorded no deeper than the walk is long |
| Explore.HeadIsNearest | internal/formal/model.go:62-73 | nothing nearer than the head of the queue violates an invariant |
| Explore.DoneIsReachable | internal/formal/model.go:60-84 | when the queue is empty the processed states are exactly the reachable ones |
| Merkle.MerkleRoot | internal/lineage/lineage.go:227-256 | fails exactly on an empty list or a leaf that is not a 32-byte hexadecimal hash; otherwise the encoded root of the decoded leaves |
| Merkle.FindCollision | internal/lineage/lineage.go:239-254 | from two different leaf lists of one length with one root, two different 64-byte inputs with one hash, which the two trees hash into the same node |
| Merkle.DifferingPair | internal/lineage/lineage.go:241-252 | levels that differ below equal levels collide at the pair that differs |
| Merkle.RootBinds | internal/lineage/lineage.go:239-255 | lists of one length with one root are equal, or their trees hash two different inputs into the same node; level, place and inputs are given |
| Merkle.RootBindsLeaves | internal/lineage/lineage.go:227-256 | the same for hexadecimal leaves: equal roots whenever the leaves agree up to the case of digits, and otherwise different roots or such a collision between the two trees |
| Merkle.CaseSharesRoot | internal/lineage/lineage.go:233 | two different lists of leaves, equal up to case, with one root |
| Merkle.CountFixedIff | internal/lineage/lineage.go:239-255 | all lists of digests with the root of a given one have its length if and only if it is a single digest that is not the hash of two digests |
| Merkle.LevelSharesRoot | internal/lineage/lineage.go:239-254 | every level of a tree up to its root is, as a list of leaves, a list with the same root, and every higher one is shorter |
| Merkle.OddTailRepeats | internal/lineage/lineage.go:242-246 | one instance: repeating an odd last leaf leaves the root unchanged |
| Merkle.EncodeDecoded | internal/lineage/lineage.go:233 | decoding a hexadecimal leaf forgets the case of its digits and nothing else |
| Merkle.DecodeEncoded | internal/lineage/lineage.go:255 | the printed root decodes to the root |
| Merkle.PrintedDigits | internal/lineage/lineage.go:255 | the printed root has two lower-case digits for each byte, the high one first |
| Forecast.Accumulate | internal/autonomy/predictor.go:21-30 | one pass over the window gives its sums |
| Forecast.ForecastPressure | internal/autonomy/predictor.go:10-49 | the forecast of a window of any length, empty and one-element windows included; confidence is high from eight samples, medium from four, and insufficient exactly without a trend |
| Forecast.NumeratorIsPairSum | internal/autonomy/predictor.go:22-36 | the regression numerator is the sum over all pairs of time gap times pressure gap |
| Forecast.DenominatorNonNegative | internal/autonomy/predictor.go:22-36 | the regression denominator is never negative, for windows of every length |
| Forecast.ForecastFollowsTrend | internal/autonomy/predictor.go:10-49 | with ordered times a window that never falls is never forecast below the current pressure, one that never rises never above it, and the forecast stays between zero and one |
| Forecast.ErrorIsQuadratic | internal/autonomy/predictor.go:22-36 | the squared error of a line is a quadratic form of the sums the code keeps |
| Forecast.SlopeIsLeastSquares | internal/autonomy/predictor.go:31-37 | no line fits the window better than the computed slope with its intercept |
| Forecast.PredictionFollowsBestLine | internal/autonomy/predictor.go:10-49 | whenever a line fits the window best, the prediction is the last pressure moved along it for the length of the horizon, clipped to the unit interval |
| Forecast.LineIsContinued | internal/autonomy/predictor.go:31-40 | a pressure that moves along a line is predicted to go on along it |
| Forecast.SteadyStays | internal/autonomy/predictor.go:10-49 | a steady pressure is predicted to stay |
| Quorum.Tally | internal/replication/policy.go:12-41 | the sets of counted nodes, clouds, regions and zones of the acknowledgements |
| Quorum.Evaluate | internal/replication/policy.go:10-82 | satisfied exactly when the set of acknowledging nodes has a quorum of counted nodes and, outside local mode, two of them apart in the mode's failure domain |
| Quorum.SatisfiedMeans | internal/replication/policy.go:10-82 | the policy of each mode in the nodes' fields: a quorum of named nodes, of the origin's region in regional mode, and two of them with different known zones, regions or clouds |
| Quorum.PlacesMeanApart | internal/replication/policy.go:59-80 | counting distinct domains finds exactly the pairs of nodes no single failure takes together |
| Quorum.SatisfiedMonotone | internal/replication/policy.go:10-82 | more acknowledgements never make a satisfied policy unsatisfied |
| Quorum.OriginAloneNeverSatisfies | internal/replication/policy.go:59-80 | outside local mode the origin alone is never enough, whatever the quorum |
| Quorum.NewManager | internal/replication/manager.go:22-43 | startup accepts exactly the valid configurations that some subset of the peers can satisfy; an unset mode becomes local, an unset quorum one or two; peers are then named, distinct and not the origin |
| Quorum.Replicate | internal/replication/manager.go:45-96 | outside local mode success means exactly that the origin and the peers heard in time satisfy the policy |
| Quorum.LocalModeHonestIffQuorumOne | internal/replication/manager.go:47-51 | local mode's unconditional success meets the policy exactly for a quorum of one |
| Quorum.LocalQuorumOfTwo | internal/replication/manager.go:47-51 | a local configuration with a quorum of two passes startup, and a record is then reported durable on the origin alone |
| ReplicaLog.ScanReplicaFile | internal/replication/store.go:313-365 | the frame loop computes the recursive scan: records, clean length and torn tail, or corruption |
| ReplicaLog.ScanWholeLog | internal/replication/store.go:172-185 | reading back a log gives exactly the records written |
| ReplicaLog.ScanTornLog | internal/replication/store.go:329-351 | a frame cut at any byte is seen as torn: nothing of it is read, nothing before it is lost |
| ReplicaLog.CutLogReadableIff | internal/replication/store.go:329-351 | after an append of any length cut at any byte, the log is readable if and only if the payload is within the scan's limit or its length field is not yet complete |
| ReplicaLog.ShortHeaderIsCorrupt | internal/replication/store.go:320-326 | a file cut inside its header is corrupt |
| ReplicaLog.LogReadableIffAllFit | internal/replication/store.go:340-344 | a log is readable exactly when every payload is within the scan's limit |
| ReplicaLog.WordMeaning | internal/replication/store.go:177-179 | a word is written most significant byte first |
| ReplicaLog.FrameLayout | internal/replication/store.go:177-185 | a frame is the length of its payload, the checksum and the payload |
| ReplicaFrames.ReadableIff | internal/replication/store.go:313-365 | the scan accepts a file and reports these records if and only if it consists of undamaged frames of acceptable length whose payloads decode to just these valid records, and then nothing or one unfinished frame |
| ReplicaFrames.DamageIsCorrupt | internal/replication/store.go:352-355 | a frame whose checksum does not match its payload makes the log corrupt |
| ReplicaSpec.CompactKeepsUnreleased | internal/replication/store.go:407-485 | compaction keeps every unreleased record as it is |
| ReplicaSpec.CompactKeepsIndex | internal/replication/store.go:407-485 | the index over compacted logs is the index over the logs before |
| ReplicaSpec.CompactShrinks | internal/replication/store.go:407-485 | compaction never grows the bytes on disk |
| ReplicaSpec.CompactKeepsInv | internal/replication/store.go:396-485 | compaction of any set of origins keeps the store invariant, fingerprints included; compacted never passes released |
| ReplicaSpec.PutKeepsInv | internal/replication/store.go:108-197 | a put keeps the index equal to what a rescan would build exactly unless it accepts a record beyond the scan's limit, and a store within its byte budget stays within it |
| ReplicaSpec.AcceptedPutOpensIffFits | internal/replication/store.go:108-197 | after an accepted put the directory opens again exactly when the record is within the scan's limit |
| ReplicaLimits.OversizeIsAccepted | internal/replication/store.go:143-197 | an empty store accepts a record of 17 MiB, and its directory does not open again |
| ReplicaSpec.ReleaseKeepsInv | internal/replication/store.go:201-231 | a release keeps the invariant and never grows the disk |
| ReplicaSpec.MarkedIndex | internal/replication/store.go:217-224 | raising a release mark takes the covered slots out of the index and nothing else |
| ReplicaSpec.OpensUnlessFatal | internal/replication/store.go:69-106 | after any crash the store opens again if and only if no new log's header was torn and no length of a payload beyond the scan's limit was left, and then every file yields the surviving records |
| ReplicaLimits.HeaderTears | internal/replication/store.go:167-176 | for each cut inside the header, a crash of an empty store's first put that leaves a directory which does not open |
| ReplicaLimits.OversizeCrashIsFatal | internal/replication/store.go:340-344 | for each cut of an empty store's first put of 17 MiB from the end of the frame header on, a crash that leaves the log's header whole and a directory which does not open |
| ReplicaSpec.CrashInAppendLosesNothing | internal/replication/store.go:143-197 | a crash at any byte of an append after which the directory opens, records beyond the scan's limit included, keeps the marks and the index; the record in flight is indexed exactly when its frame is complete |
| ReplicaSpec.CrashElsewhereLosesNothing | internal/replication/store.go:201-231 | a crash between operations, inside a compaction or inside a release leaves the store of the last completed disk operation |
| ReplicaRuns.RunKeeps | internal/replication/store.go:69-231 | over every run with crashes, from a store in or over its byte budget, the index equals a rescan, marks never move back, every acknowledged unreleased record keeps its fingerprint, and a store within its budget stays within it |
| ReplicaRuns.LegalIffOpens | internal/replication/store.go:69-231 | the steps such runs are made of are exactly those after which the directory can be opened |
| ReplicaRuns.EmptyStoreSane | internal/replication/store.go:69-106 | an empty directory starts such a run, within its budget |
| ReplicaRuns.AckedIsOnDisk | internal/replication/store.go:108-197 | an acknowledged unreleased record is on disk, short of a digest collision |
| ReplicaRuns.NoTwoContents | internal/replication/store.go:121-134 | an origin and sequence acknowledged with two contents is released, short of a digest collision |
| ReplicaRuns.SecondContentIff | internal/replication/store.go:121-134 | after one content is acknowledged, a put of another is acknowledged if and only if the slot is released or the fingerprints agree |
| ReplicaRuns.ReleasedSlotTakesAnything | internal/replication/store.go:121-123 | a run of a release and a put that leaves any two contents of one slot acknowledged |
| ReplicaRuns.OneContentOnDisk | internal/replication/store.go:143-197 | in every reachable state a slot is on disk at most once, and an unreleased one is indexed under the fingerprint of what is there |
| Text.TrimMeaning | internal/replication/store.go:202 | trimming a name cuts the space off both ends and nothing else |
| ReplicaRuns.UntrimmedNeverReleased | internal/replication/store.go:201-206 | no run moves the release mark of an origin whose name has surrounding space, which a put accepts (internal/wal/model.go:57 refuses only a blank one) |
| ReplicaStore.WriteLog | internal/replication/store.go:443-464 | the rewritten file is the header and one frame per record |
| ReplicaStore.Retain | internal/replication/store.go:421-426 | the rewrite keeps the records above the mark, in order |
| ReplicaRecovery.RecoverFile | internal/replication/store.go:282-311 | a file is recovered exactly when it scans and none of its unreleased records conflicts with those before; it is truncated to its complete records, and these are indexed |
| ReplicaRecovery.RecoverAll | internal/replication/store.go:95-104 | recovering the files in any order succeeds exactly when every file scans and no two unreleased records conflict, and gives their index, the truncated files and the byte count |
| ReplicaRecovery.Open | internal/replication/store.go:69-106 | opening succeeds exactly on those directories; on logs with torn tails it gives the store of exactly those logs |
| ReplicaRecovery.Restart | internal/replication/store.go:69-106 | the files a crash leaves open exactly when the crash was not fatal: no new log's header torn, no length of a payload beyond the scan's limit left; and then as the store the crash left behind |
| ReplicaStore.Store.Put | internal/replication/store.go:108-197 | the put of the specification, with files and byte count kept exact; each of invalid, duplicate, conflict, pressure and accepted exactly under its condition on the fields of the store; the store stays valid exactly unless it accepts a record beyond the scan's limit |
| ReplicaRoom.PutAnswers | internal/replication/store.go:108-165 | the five answers as conditions on logs, marks, fingerprints and budget: a new record is refused for pressure if and only if the bytes left once every released record of a log that is due is dropped, the frame, and a header if the log is then gone, exceed the budget |
| ReplicaRoom.PutLeaves | internal/replication/store.go:143-197 | a put leaves every record in its log and adds its own if accepted; released records of logs that are due go exactly when the record did not fit beside them |
| ReplicaRoom.CompactionHelps | internal/replication/store.go:147-165 | compaction never makes a record need more room, even when its log has to be begun again |
| ReplicaRoom.OpenedIsDue | internal/replication/store.go:81-87 | after opening, the log of every origin with a release mark is due |
| ReplicaLimits.CompactionMakesRoom | internal/replication/store.go:147-165 | a run of put, release and put in which the second record fits only after compaction, and is accepted |
| ReplicaStore.Store.Release | internal/replication/store.go:201-231 | fails exactly on a blank origin; otherwise the release of the specification |
| ReplicaRoom.ReleaseLeaves | internal/replication/store.go:201-231 | a release changes one mark and drops the fingerprints it covers; it drops their records exactly when 256 sequences have been released since the last compaction or three quarters of the budget are used |
| ReplicaStore.Store.CompactEdge | internal/replication/store.go:407-485 | rewrites or deletes one log file and keeps the byte count exact |
| ReplicaStore.Store.CompactReleased | internal/replication/store.go:396-405 | compacts every origin whose mark moved since its last compaction, in any order |
| ReplicaPeer.PutIsPeerPut | internal/replication/http.go:62-91 | an acknowledged put of the store is the put of the edge protocol for its origin, and nothing for any other |
| ReplicaPeer.RefusedPutIsInvisible | internal/replication/http.go:76-86 | a put that is not acknowledged changes nothing a client could see |
| ReplicaPeer.ReleaseIsPeerRelease | internal/replication/http.go:98-117 | a release of the store is the release of the edge protocol for the trimmed name of its origin, and nothing for any other; records put under an untrimmed name are not reached by it |
| ReplicaPeer.CrashIsPeerStep | internal/replication/store.go:69-231 | a peer that crashes at any point and can be opened again has taken the put in flight, the release in flight, or no step of the edge protocol |
| EdgeProtocol.RunKeepsInv | internal/edge/publisher.go:96-288 | every run of clients, replay loop, peers, network and origin crashes keeps the protocol invariant |
| EdgeProtocol.AcknowledgedIsHeld | internal/edge/publisher.go:96-124 | in every run outside local mode, an acknowledged uncommitted event is in the origin's log and held by peers that satisfy the policy with the origin |
| EdgeProtocol.CommittedWasDelivered | internal/edge/publisher.go:216-259 | every sequence up to the checkpoint had its quorum and was taken downstream; none was skipped |
| EdgeProtocol.ReleasedWasCommitted | internal/edge/publisher.go:166-186 | no peer is ever told to forget an uncommitted record |
| EdgeRuns.SuccessIsPublished | internal/edge/publisher.go:96-124 | a call that succeeds has its sequence published, with the nodes it heard from as evidence |
| EdgeRuns.AcknowledgementHappens | internal/edge/publisher.go:96-124 | for every configuration whose policy some of its peers satisfy, some run acknowledges an event and has not committed it |
| EdgeRuns.CommitHappens | internal/edge/publisher.go:194-259 | some run has the downstream take it and commits it |
| EdgeRuns.ReleaseHappens | internal/edge/publisher.go:166-186 | and some run lets any one of the peers forget it |
| EdgeBatches.BatchCommits | internal/edge/publisher.go:216-259 | from every state in which the next records are acknowledged, a batch of exactly these, however many, reaches delivery and can be committed to its end |
| EdgeBatches.PrefixCommits | internal/edge/publisher.go:216-259 | when the loop gives up in the middle of a batch, the records before can still be committed, and exactly these |
| Delivery.PublishBatch | internal/edge/publisher.go:290-309 | whatever the downstream answers, a prefix of nil results names items it took; one by one, the first failure is the only slot that is not nil, and every nil slot is an item taken exactly when nothing failed before the last one |
| Delivery.NilWithoutAttempt | internal/edge/publisher.go:300-308 | when the second of three items fails, the third has a nil result and was never tried |
| Delivery.ResultsLicenseCommit | internal/edge/publisher.go:232-259 | such results license the commits of the batch they answer |
| Delivery.MeshPublish | internal/mesh/publisher.go:70-100 | candidates are tried in order until one takes the event; it fails exactly when none does, and exactly the remote nodes tried in vain are reported |
| Delivery.MeshPublishBatch | internal/mesh/publisher.go:38-68 | the batch goes to the local publisher exactly when it owns every item; otherwise an item succeeds exactly when it was routed and some candidate took it |
| MeshRoute.Collect | internal/mesh/manager.go:164-181 | the candidate list is the eligible origin and every healthy eligible peer, each once, in any iteration order |
| MeshRoute.Route | internal/mesh/manager.go:157-196 | fails exactly when no node is ready, not draining, under the pressure limit and, if a peer, healthy and freshly probed; otherwise lists exactly those nodes, each with its own score, pressure and latency, the nearer first, then by higher score, then by smaller ID |
| MeshRoute.OwnerIsNearest | internal/mesh/manager.go:152-195 | under the locality policy the owner shares the origin's whole domain, or its region, or its cloud whenever some usable node does; among nodes that share the same, and under the global policy among all, none has a higher score or an equal one with a smaller ID |
| MeshRoute.OriginBeatsFarPeer | internal/mesh/manager.go:187-188 | a usable origin owns every key when its only peer is in another cloud |
| Sorting.LexMeaning | internal/mesh/manager.go:193 | strings are compared by their first difference, a proper prefix first |
| MeshRoute.RankingUnique | internal/mesh/manager.go:186-195 | two routes over one view agree, whatever order the map was iterated in |
| MeshRoute.SameEligiblesSameRoute | internal/mesh/manager.go:157-216 | two views with the same eligible nodes route every key alike, whatever pressures, latencies and times they show |
| MeshRoute.JoinTakesOnlyForItself | internal/mesh/manager.go:157-229 | when one node becomes eligible, origin or peer and for whatever reason, it only takes keys for itself |
| MeshRoute.LossMovesOnlyItsKeys | internal/mesh/manager.go:157-229 | when one node stops being eligible, its keys go to the next in rank and every other key keeps its owner |
| MeshRoute.PeerFails | internal/mesh/manager.go:176-206 | that is so for a peer that becomes unready, draining, over pressure, stale or unhealthy, or is removed |
| MeshRoute.OriginFails | internal/mesh/manager.go:172-206 | and for the origin, when it becomes unready, draining or over pressure |
| MeshRoute.PeerExpires | internal/mesh/manager.go:198-206 | and for a peer whose last probe becomes too old as time passes |
| MeshRoute.PeerJoins | internal/mesh/manager.go:176-181 | a peer that is new or recovers takes keys for itself only |
| MeshRoute.OriginReturns | internal/mesh/manager.go:172-174 | an origin that becomes eligible again takes keys for itself only |
| MeshRoute.UnhealthyIsGone | internal/mesh/manager.go:176-181 | an unhealthy peer routes like an absent one |
| Autonomy.RunIsSafe | internal/autonomy/controller.go:77-188 | over every run of ticks the multiplier is one unless one applied, audited action in auto mode is active, and then lies between the configured minimum and one; the active action is unexpired after each tick; starts are a cooldown apart; history and recent actions stay bounded |
| Autonomy.RestIffCooldown | internal/autonomy/controller.go:99-104 | in every run a tick that ends an action leaves the controller at rest, exactly when the cooldown is positive or the mode is off; otherwise some run of ticks ends one action and starts the next in one tick |
| AutonomyController.Ending | internal/autonomy/controller.go:137-150 | an action ends as expired exactly when its time is up, and stays exactly when it has time left, pressure still calls for it, and errors and latency are within the guardrails |
| AutonomyController.EndActive | internal/autonomy/controller.go:133-164 | an action that stays has time left and nothing changes; one that ends restores multiplier one, sets the cooldown and is the last of at most sixteen recent actions; the safety invariant is kept |
| AutonomyController.EndedIsFiled | internal/autonomy/controller.go:151-164 | an action that ends follows the last fifteen in the recent actions, and is on the audit trail exactly if it could be stored |
| AutonomyController.Start | internal/autonomy/controller.go:108-131 | the multiplier changes only under an applied action, an action is applied exactly in auto mode and when audited, and it is then on the audit trail; the safety invariant is kept and the action has time left |
| AutonomyController.Controller.QueueDepth | internal/autonomy/controller.go:51-58 | the pressure reading stays between zero and one |
| AutonomyController.Controller.JobCompleted | internal/autonomy/controller.go:60-71 | the counters are the totals of the jobs completed so far, this one last |
| AutonomyController.Controller.TakeWindow | internal/autonomy/controller.go:81-92 | the observation of a tick is that of exactly the jobs no earlier tick observed, so each job counts in one window |
| AutonomyController.Controller.Tick | internal/autonomy/controller.go:77-106 | one tick is the specification's tick on the jobs since the last one; it keeps the safety invariant, leaves no expired action, and starts an action exactly when one is due, with what the tick leaves spelled in the configured thresholds |
| AutonomyController.WindowMeaning | internal/autonomy/controller.go:81-92 | the observation sums up its jobs: how many, how many failed, how often they were repeated, how long they took |
| AutonomyController.SummarizeMeaning | internal/autonomy/controller.go:87-92 | its rates times the number of jobs are these sums, and zero without a job |
| AutonomyStarts.TickSpelled | internal/autonomy/controller.go:77-164 | what one tick leaves, in the configured thresholds: the window, the action it starts with its multiplier, expiry and baselines, or the old one kept or ended |
| AutonomyStarts.TickStartsIff | internal/autonomy/controller.go:99-104 | a tick ends with an action of its own if and only if none stays active, the mode is not off, the cooldown is over, enough observations are remembered and the prediction reaches the trigger |
| AutonomyStarts.RunStartsIff | internal/autonomy/controller.go:93-131 | the same for the last tick of every run, over the last observations of the run, with the action that is then started |
| AutonomyStarts.HistoryIsWindow | internal/autonomy/controller.go:93-96 | after every run the controller remembers the last observations, as many as the window holds |
| AutonomyStarts.SteadyPressureStartsNothing | internal/autonomy/controller.go:102 | a steady pressure below the trigger never starts an action, in any run |
| AutonomyStarts.SteadyPressureStarts | internal/autonomy/controller.go:99-131 | one at or above it starts an action on the first tick with enough observations, with the multiplier of its band |
| Cardinality.HLLRegister | internal/policy/cardinality.go:236-245 | the register is the six low bits of the hash, and the rank one more than the zero bits that follow them, at most 59 |
| Cardinality.RankCountsTrailingZeros | internal/policy/cardinality.go:236-245 | the rank is one more than the trailing zero bits above the index, up to the cap |
| Cardinality.ObserveExactScan | internal/policy/cardinality.go:197-212 | the scan of the exact window |
| Cardinality.ObserveDescribes | internal/policy/cardinality.go:171-174 | one observation keeps the sketch equal to what the set of hashes determines |
| Cardinality.DescriptionDecides | internal/policy/cardinality.go:248-258 | the set of hashes decides registers, overflow and estimate; up to sixteen distinct hashes the estimate is exact |
| Cardinality.UpsertObserves | internal/storage/cardinality.go:46-101 | the insert and the conflict update are one observation on an empty and on the stored sketch |
| Cardinality.RunsDescribe | internal/policy/cardinality.go:145-195 | after any arrivals the local state and the shared row both describe the set of hashes |
| Cardinality.EstimateDependsOnSetOnly | internal/policy/cardinality.go:145-258 | the estimate depends only on the set of hashes, agrees between tracker and shared row, is exact up to sixteen, and overflow holds exactly above sixteen |
| Cardinality.FirstSeenAgrees | internal/storage/cardinality.go:46-101 | tracker and row date the first sighting alike exactly when the first arrival was the earliest |
| Cardinality.LastSeenAgrees | internal/storage/cardinality.go:46-101 | the tracker keeps the last arrival's timestamp and the row the greatest; they date the last sighting alike exactly when the last arrival was the latest |
| Cardinality.LateArrivalDisagrees | internal/storage/cardinality.go:46-101 | an event that arrives late with an earlier timestamp makes both dates differ |
| Cardinality.Oldest | internal/policy/cardinality.go:214-229 | eviction picks a key seen longest ago |
| Cardinality.Tracker.Observe | internal/policy/cardinality.go:145-195 | the observed key answers for the set of its hashes; at most one other key is evicted and every other keeps its state |
| Wire.AppendUvarint | internal/connectors/prometheus.go:126-132 | the loop appends the variable-length encoding |
| Wire.UvarintRoundTrip | internal/connectors/prometheus.go:126-132 | a variable-length number is read back, with the rest untouched |
| Wire.UvarintMeaning | internal/connectors/prometheus.go:126-132 | groups of seven bits, the least significant first, every byte but the last marked, and no group more than needed |
| Wire.LittleEndianRoundTrip | internal/connectors/prometheus.go:120-125 | a word is the sum of its bytes, the least significant first |
| Wire.FieldRoundTrip | internal/connectors/prometheus.go:110-125 | every protobuf field is read back, with the rest untouched |
| Wire.MessageRoundTrip | internal/connectors/prometheus.go:110-125 | a message parses back to exactly its fields |
| Wire.AppendProtoBytes | internal/connectors/prometheus.go:111-115 | appends one length-delimited field |
| Wire.AppendProtoVarint | internal/connectors/prometheus.go:116-119 | appends one varint field |
| Wire.AppendProtoFixed64 | internal/connectors/prometheus.go:120-125 | appends one fixed 64-bit field |
| Wire.SnappyLiteralBlock | internal/connectors/prometheus.go:90-109 | the length, one literal tag of the right width, and the bytes |
| Wire.SnappyRoundTripExact | internal/connectors/prometheus.go:90-109 | a block decodes back to its payload exactly when the payload has fewer than 2^32 bytes, the format's limit |
| Wire.LiteralTagExamples | internal/connectors/prometheus.go:96-107 | the tag bytes at the boundary of each width |
| RemoteWrite.BuildLabels | internal/connectors/prometheus.go:62-71 | the label map after visiting the tags in a given order |
| RemoteWrite.OrderFreeIffNoClash | internal/connectors/prometheus.go:62-71 | the labels are the same for every iteration order exactly when no two allowed tags with different values sanitize to one name |
| RemoteWrite.ClashingTags | internal/connectors/prometheus.go:67-71 | for every sanitizer that maps `a.b` and `a_b` to one name, two tags for which the labels depend on the iteration order |
| RemoteWrite.BaseLabelKeptIff | internal/connectors/prometheus.go:62-71 | a label the event itself sets keeps its value in every iteration order if and only if no allowed tag sanitizes to its name with another value |
| RemoteWrite.EncodeWriteRequest | internal/connectors/prometheus.go:72-88 | the request of the sorted label names, each label once, and the sample |
| RemoteWrite.RequestLayout | internal/connectors/prometheus.go:76-88 | the request byte for byte: one series, in it each label with name and value, then the sample with its value bits and its timestamp as unsigned 64-bit varint, each under its tag |
| RemoteWrite.RequestRoundTrip | internal/connectors/prometheus.go:76-88 | a decoder recovers exactly the label pairs in order, the value bits and the signed timestamp |
| RemoteWrite.CompressedRoundTrip | internal/connectors/prometheus.go:61-109 | the same through the compressed body, for every request of fewer than 2^32 bytes |
| RemoteWrite.PairsAreLabels | internal/connectors/prometheus.go:72-82 | the recovered pairs are the label map: every label once under its own value, nothing else |
| FabricPlacement.LeadersCountClouds | internal/multicloudproof/model.go:153-182 | each writable cloud has exactly one preferred node |
| FabricPlacement.StoppedIsPlacement | internal/multicloudproof/model.go:133-142 | stopping the scan at the target or at the end leaves exactly the preferred node of the most preferred clouds |
| FabricPlacement.PlacementCount | internal/multicloudproof/model.go:133-142 | an event gets as many copies as there are writable clouds, up to the target |
| FabricSpec.AcceptedExactlyAtQuorum | internal/multicloudproof/model.go:127-151 | an offered event is accepted if and only if at least a quorum of clouds has a node that is healthy, writable and not partitioned; it then gets one copy on as many of those clouds as the target allows, on such nodes only, by preference |
| FabricSpec.PlacementByPreference | internal/multicloudproof/model.go:160-180 | no chosen cloud comes after a writable one passed over in the order aws, gcp, azure, bare-metal, others; within a cloud, and among the others, the smaller node ID is chosen |
| FabricSpec.ClosedCloudGetsNothing | internal/multicloudproof/model.go:127-216 | over every schedule, while no node of a cloud is writable no later event gets a copy on it until some operation makes a node of it writable |
| FabricSpec.SetCloudShutsOut | internal/multicloudproof/model.go:127-216 | in particular after the cloud is flagged unwritable, whatever its other flags |
| FabricSpec.CapacityExhausted | internal/multicloudproof/model.go:342-351 | on the default topology with one cloud left to write to, the next event is refused |
| FabricSpec.RunKeeps | internal/multicloudproof/model.go:127-248 | every schedule of offers, faults, healings and deliveries on any topology keeps the invariant: copies on distinct clouds, between quorum and target, one delivery per event |
| FabricSpec.RunExtends | internal/multicloudproof/model.go:127-248 | acceptance, copies and delivery are never taken back |
| FabricSpec.RunConserves | internal/multicloudproof/model.go:250-282 | in every schedule offered equals rejected plus delivered plus retained, with nothing lost or corrupted |
| FabricSpec.HealThenDeliverDrains | internal/multicloudproof/model.go:210-248 | after any schedule, healing and delivering delivers everything accepted |
| FabricSpec.SurvivesFewerClouds | internal/multicloudproof/model.go:221-236 | with fewer clouds down than an event has copies, some copy is reachable |
| FabricSpec.AllItsCloudsDown | internal/multicloudproof/model.go:184-236 | that bound is tight: healing and then one cloud fault for each copy keep the next delivery from the event |
| FabricSpec.DeliveredDespiteFaults | internal/multicloudproof/model.go:221-248 | over any schedule, such an event is delivered by the next delivery |
| FabricSpec.QuorumSurvives | internal/multicloudproof/model.go:221-248 | fewer clouds down than the quorum never stop a delivery |
| Fabric.Index | internal/multicloudproof/model.go:105-125 | construction succeeds exactly for a positive quorum, a target at least the quorum, named nodes and distinct IDs; the table then holds exactly the nodes |
| Fabric.WritableCandidates | internal/multicloudproof/model.go:153-182 | exactly the nodes that are healthy, writable and not partitioned, by cloud preference and then by ID, whatever order the table is iterated in |
| Fabric.Place | internal/multicloudproof/model.go:131-142 | the copies are the reference placement, on as many clouds as the target and the writable clouds allow, on writable nodes of distinct clouds, by preference |
| Fabric.FlagWhere | internal/multicloudproof/model.go:184-216 | sets the flags of exactly the matching nodes |
| Fabric.DeliverEvent | internal/multicloudproof/model.go:222-247 | an accepted event with a copy on a healthy node that is not partitioned is delivered once, with one attempt and one more, counted as duplicate, for each ambiguous retry; any other is left as it is |
| Fabric.Account | internal/multicloudproof/model.go:250-282 | each counter is the number of events that met that fate, and none is unaccounted |
| Fabric.NewFabric | internal/multicloudproof/model.go:105-125 | a new fabric is empty and satisfies the invariant |
| Fabric.Fabric.Offer | internal/multicloudproof/model.go:127-151 | appends one event for each offered one and changes nothing else; each is accepted or refused, and placed, by the flags of the nodes |
| Fabric.Fabric.SetCloud | internal/multicloudproof/model.go:184-192 | flags exactly the nodes of a cloud and nothing else |
| Fabric.Fabric.SetRegion | internal/multicloudproof/model.go:194-202 | flags exactly the nodes of a region and nothing else |
| Fabric.Fabric.SetNodeWritable | internal/multicloudproof/model.go:204-208 | changes one node's write flag, and nothing when the node is unknown |
| Fabric.Fabric.Heal | internal/multicloudproof/model.go:210-216 | every node healthy, writable and reachable; events unchanged |
| Fabric.Fabric.DeliverAvailable | internal/multicloudproof/model.go:221-248 | delivers exactly the accepted undelivered events with a copy on a healthy node that is not partitioned |
| Fabric.Fabric.Accounts | internal/multicloudproof/model.go:250-282 | a reachable fabric reports nothing lost, corrupted or unaccounted, and accepted equals delivered plus retained |
| Fallback.FollowChain | internal/router/model.go:357-368 | the walk ends; it reports a name exactly on a cycle, and silence means the start is not on one |
| Fallback.ValidateFallbackCycles | internal/router/model.go:356-370 | accepts exactly the graphs without a cycle; a refusal names a destination on one |
| Fallback.Tabulate | internal/router/model.go:156-166 | the table succeeds exactly for distinct non-empty trimmed names and holds each destination under its own |
| Fallback.Validate | internal/router/model.go:269-284 | accepts exactly when names are distinct, every fallback is another enabled destination, and there is no cycle |
| Fallback.HandoffIsEdge | internal/router/dispatcher.go:204-215 | a terminal failure follows an edge of the validated graph, also for names written with surrounding space |
| Fallback.HandoffIff | internal/router/dispatcher.go:204-215 | a failed delivery is handed on if and only if its fallback is set and the destination it names is written exactly so; it then goes to that destination, which is enabled |
| Fallback.ChainsEnd | internal/router/dispatcher.go:204-223 | with an accepted configuration no run of terminal failures visits a destination twice or is longer than the configuration |
| Fallback.CycleCheckAloneIsNotEnough | internal/router/model.go:273-276 | without the presence check, a graph that has no cycle allows runs of failures of every length |
| Shaping.Scan | internal/shaping/engine.go:80-141 | the last applying rule with a rate up to the first matching stop decides rate and floor, whether or not the event is protected |
| Shaping.RulesAfterStop | internal/shaping/engine.go:88-141 | cutting the rules off behind a matching one that stops changes neither rate nor event |
| Shaping.LastRuleDecides | internal/shaping/engine.go:88-97 | with nothing to stop the scan before it, a last rule that matches and has a rate decides rate and floor, and any other last rule changes neither |
| Shaping.LastRuleShapes | internal/shaping/engine.go:98-141 | and it transforms the event exactly when it matches and the event is unprotected or the rule may shape protected ones |
| Shaping.ProtectedUnchanged | internal/shaping/engine.go:98-103 | a protected event is not transformed unless an applying rule asks for it |
| Shaping.EffectiveRate | internal/shaping/engine.go:170-186 | the rate stays in the unit interval; for a validated rule it is the base below the high watermark, and from there the larger of the floor and the base times the factor of its band |
| Shaping.FinalRateBounds | internal/shaping/engine.go:143-150 | pressure and multiplier together keep the rate between the deciding rule's floor and base |
| Shaping.FinalRateFalls | internal/shaping/engine.go:143-150 | more pressure and a lower multiplier never raise the rate |
| Shaping.SamplingIsNested | internal/shaping/engine.go:78-203 | for a validated configuration an event kept at some pressure and multiplier is kept at any lower pressure and higher multiplier |
| Shaping.UnvalidatedIsNotNested | internal/shaping/model.go:292-294 | without validation of the factors more pressure can keep an event that less pressure drops |
| Shaping.Evaluate | internal/shaping/engine.go:78-167 | the whole evaluation: deciding rule, transformed event, and the effective rate as the larger of the floor and the rate pressure leaves times the clipped multiplier, which a protected event ignores; kept exactly when protected, at a rate of one, or with a hash below the rate's share of the range |

## Left out

- HTTP handlers and clients, bearer tokens, JSON, SQL text, file names and directory syncs. A peer acknowledges after its put succeeded, and that is all the model uses.
- The edge's write-ahead log (internal/wal is not part of this model). Append, pending and commit are used by contract: appends get consecutive sequences and survive a crash, pending returns the records after the checkpoint in order, commit moves the checkpoint.
- I/O errors after which the same process goes on using the store: an error is treated as a crash.
- Wrap-around of 64-bit tickets, sequences and counters.
- Floating-point rounding: rates, pressures, times and regressions are real numbers.
- SHA-256, CRC32, Ed25519 signatures, glob matching and name sanitizing are parameters; results that need a hash name the collision instead.
- The HyperLogLog count formula and the one-hour projection: the estimate is any function of the registers.
- Liveness: the ring's attempt limit, delivery backoff and probe timing are modelled as steps that may happen, not as promises that they do.
- Probing, status snapshots, dashboards, configuration defaults, retry delays, incident and cost modules: they would add only easy members.
- Explorer.Search: the sorted list of invariant names and the rendered error text are not part of the report; the name and the state are.
- ReplicaSpec.OpensUnlessFatal: release checkpoints and log rewrites are taken to appear atomically, because the source renames a synced temporary file.
- ReplicaRuns.RunKeeps: a run ends at the first step after which the directory cannot be opened again; ReplicaRuns.LegalIffOpens says that nothing else is excluded but payloads of 4 GiB and more.
- ReplicaSpec.AcceptedPutOpensIffFits: payloads of 4 GiB and more, whose length field wraps, are outside it, as they are outside the results on crashes and runs.
- ReplicaStore.Store.Put: the nested per-origin fingerprint map is one map keyed by origin and sequence, and the closed flag is not modelled.
- EdgeProtocol.AcknowledgedIsHeld: stated for replicated modes; without a replicator there are no peers to hold anything. An acknowledgement counts for the peer as it is configured, whereas internal/replication/http.go:160 checks only the peer's ID and keeps the failure domain the peer reports.
- Cardinality.Tracker.Observe: nothing is promised about a key that was evicted in between, since it starts over.
- Fallback.Validate: only the name, fallback and cycle checks; the per-type connector checks are left out. Deliveries are taken to use the configuration they were planned under.
- Fabric.Fabric.Offer: the refusal reason is not stored, since there is only one.
- Shaping.Scan: tag and payload transforms are an arbitrary function of the rule and the event.
