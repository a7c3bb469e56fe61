# Verified model of weaverssh

This project models the parts of weaverssh whose correctness depends on more than one function: the evidence store
(Merkle tree, ledger, journal, remote anchoring), the map/reduce engine and coordinator, the hop chain, mesh
forwarding, replay protection, the file service's durable core, the MQTT codec, packet padding and the JSON comment
stripper. Each module models one component and proves what holds for every input, every run or every interleaving.

`dafny verify dfyconfig.toml` checks the whole project.

## How it is modelled

- Objects that update their fields are classes; loops are methods with invariants. Each is proved equal to a
  specification function, and the theorems are about that function over whole runs.
- Concurrent code (the worker pool, the anchor queue between its lock sections, concurrent file operations) is a step
  system; theorems quantify over every run of steps.
- SHA-256 digests are values of a free datatype with one constructor for each hashed domain, so injectivity and domain
  separation come from the type. So are the signatures of statements, grants and node contexts; hop verifiers and
  external providers are arbitrary predicates.
- What an operation accepts is characterised field by field, both ways, apart from the function that decides it
  (the members named `...Exactly`).
- Clocks, random nonces, store and network failures, and what remote nodes answer are parameters.
- `uint64`, `uint32` and `int64` arithmetic wraps where the source's does.

## What turned out to need a condition

| Claim | Exact condition | Members |
|---|---|---|
| A journal's file opens again | no line was written after an unsynced one, and every line is shorter than the 4 MiB scanner buffer; it then holds the journal's own records exactly when nothing was left unsynced since the last opening | `Journal.ReopensExactly`, `Journal.ReloadRebuilds`, `Journal.ReloadCanFail` |
| An accepted Merkle proof is for the leaf at its index | the index is below the list's length, whatever leaf count is claimed; above it, it is for the leaf that an odd level copied there | `Merkle.ProofExact`, `Merkle.IndexBound`, `Merkle.CopiesAccepted`, `Merkle.ThirdLeafAcceptedAsFourth` |
| A new receipt that its provider verifies counts | its provider text is the least of the texts that trim to the provider's name: receipts are filed under the text as it is but counted under the trimmed one | `AnchorPolicy.MergedCounts`, `AnchorPolicy.RetainedHidesNew` |
| An accepted hop chain is not accepted again | there is a cache and some two of its records' expiries lie at least the skew apart; with no skew this always holds, with any skew never for a single record | `HopProof.ReplayExactly`, `HopProof.NoChainAcceptedTwice`, `HopProof.SkewAllowsReplay` |
| A used nonce is refused until it expires | no check in between saw a clock at or past the expiry; so always under a clock that never goes back | `Replay.RefusedEveryClock`, `Replay.RefusedExactly`, `Replay.BackwardClockAcceptsAgain` |
| A distributed job succeeds | every node maps its part within its limits, no key gets too many values, and the reducer admits and reduces the groups, of which there must be at least one | `Coordinator.JobReturnsExactly`, `Coordinator.EmptyMappingDiffers` |
| Cleaning a topic part twice is cleaning it once | trimming slashes uncovered no white space | `Topics.CleanAgain`, `Topics.CleanNotIdempotent` |
| Mesh rules allow exactly the chain's links | cleaning changes none of the node names again; otherwise an event can skip a node | `Mesh.StabilityExact`, `Mesh.DecideEveryName`, `Mesh.UnstableNameSkipsNode` |
| A chain's filter matches only the chain's events, where chain names are single levels | the name is not the wildcard + | `Topics.FilterSeparatesChains` |
| A signed node context passes only as it was signed | up to normalising twice: an audience of mere white space is as good as the default one | `AuthProof.AlteredContextExactly`, `AuthProof.NormalContextAgain` |
| A packet stream reads back | every payload is below 2^28 bytes | `Mqtt.StreamRoundTrip` |
| A packet arrives as it was sent | it was padded, or does not look padded | `Padding.TransitExact`, `Padding.PaddedAgainIsCut` |
| A core's memory is what a restart would load | the last stored write of each key was confirmed, and the store was not erased since it was last written (or the memory is empty) | `FileCore.MemoryIsDurable`, `FileCore.UnconfirmedParts` |
| Operation IDs increase across restarts | no restart finds the store erased after an ID was handed out; after one that does the next ID is 1 | `FileCore.IDsIncrease`, `FileCore.ErasedStartsOver` |
| An accepted proof or hop record lives at most the configured limit | its lifetime is at most 9,223,372,036 seconds, so that its nanoseconds do not wrap | `AuthProof.GrantLifetimeExact`, `AuthProof.ContextLifetimeExact`, `HopProof.HopLifetimeExact`, `AuthProof.OverlongLifetimePasses` |
| Recording an observed path raises its reported version | its stored version is not below the observed one and is below 2^32 - 1; until a version wraps, the latter alone | `FileCore.RecordRaisesVersion`, `FileCore.RisesUntilWrap`, `FileCore.WrappedVersionStands` |

## Model

| member | source | states |
|---|---|---|
| `Merkle.LeafLevel` | evidencebinding/nonrepudiation.go:197-213 | hashes every leaf, or reports the first invalid or repeated one |
| `Merkle.ParentLevel` | evidencebinding/nonrepudiation.go:214-226 | pairs a level upwards, repeating an odd tail |
| `Merkle.MerkleLevels` | evidencebinding/nonrepudiation.go:197-228 | all levels of an accepted list; succeeds exactly on non-empty lists of valid leaves with distinct identifiers |
| `Merkle.BuildMerkleRoot` | evidencebinding/nonrepudiation.go:125-132 | the root of exactly the accepted lists |
| `Merkle.AcceptsExactly` | evidencebinding/nonrepudiation.go:68-79 | accepted are exactly the non-empty lists without a repeated identifier whose leaves have every field |
| `Merkle.BuildMerkleProof` | evidencebinding/nonrepudiation.go:134-157 | the sibling path of every valid index of an accepted list |
| `Merkle.VerifyMerkleProof` | evidencebinding/nonrepudiation.go:159-195 | accepts exactly the proofs whose siblings climb, with the expected sides and widths, to the given root |
| `Merkle.RootInjective` | evidencebinding/nonrepudiation.go:125-132 | two accepted leaf lists of any lengths have one root exactly when they are the same list |
| `Merkle.OddTailRepeats` | evidencebinding/nonrepudiation.go:214-226 | two levels of different widths under one parent level: the longer one repeats its tail |
| `Merkle.TailDuplicationCollides` | evidencebinding/nonrepudiation.go:201-223 | without the duplicate check every odd list of three or more leaves collides with itself plus its tail |
| `Merkle.BuiltStepsClimb` | evidencebinding/nonrepudiation.go:134-195 | built siblings match the verifier's expected side through every odd-width level |
| `Merkle.BuiltProofVerifies` | evidencebinding/nonrepudiation.go:134-195 | every built proof is accepted against the list's own root |
| `Merkle.ClimbDepth` | evidencebinding/nonrepudiation.go:159-195 | a climb from a leaf to the root of a tree has the tree's depth, whatever width it claims |
| `Merkle.ProofSound` | evidencebinding/nonrepudiation.go:159-195 | an accepted proof, whatever index, count and siblings it claims, is for a leaf of the list |
| `Merkle.SlotWithin` | evidencebinding/nonrepudiation.go:134-157 | within the list the tree's slots hold the list itself, with the built siblings |
| `Merkle.ClimbFromSlot` | evidencebinding/nonrepudiation.go:159-195 | whatever width is claimed, a climb to the root starts at the digest in the claimed slot and passes that slot's siblings |
| `Merkle.SlotClimbs` | evidencebinding/nonrepudiation.go:159-195 | from every slot below a width no deeper than the tree that climb reaches the root |
| `Merkle.ProofExact` | evidencebinding/nonrepudiation.go:159-195 | for every claimed index and count: accepted exactly with a count no deeper than the tree, for the leaf in the index's slot with that slot's siblings |
| `Merkle.TrueCountExact` | evidencebinding/nonrepudiation.go:159-195 | with the list's leaf count, accepted exactly for the leaf at the index with the built siblings |
| `Merkle.IndexBound` | evidencebinding/nonrepudiation.go:159-195 | an accepted index within the list is the leaf's own, whatever count is claimed |
| `Merkle.CopiesAccepted` | evidencebinding/nonrepudiation.go:159-228 | every further slot is accepted for the leaf copied there; a slot is the leaf's own exactly below the list's length |
| `Merkle.CasingIrrelevant` | evidencebinding/nonrepudiation.go:159-195 | acceptance does not depend on how sibling digests are written |
| `Merkle.ThirdLeafAcceptedAsFourth` | evidencebinding/nonrepudiation.go:159-195 | the third of three leaves is accepted at index 3 of 4 |
| `Ledger.VerifyLedger` | evidencebinding/nonrepudiation.go:417-451 | succeeds exactly on accepted ledgers; the report, or the first faulty entry's error, or a head mismatch |
| `Ledger.TrustedExactly` | evidencebinding/nonrepudiation.go:265-379 | a statement is trusted exactly when it is well formed and signed with the key the policy holds for the signer it names; an unknown signer is reported as untrusted, a bad signature of a known one as invalid |
| `Ledger.SignedIsTrusted` | evidencebinding/nonrepudiation.go:319-379 | a key signs exactly the well-formed statements that name it, and what it signs is trusted wherever the key is |
| `Ledger.AcceptedExactly` | evidencebinding/nonrepudiation.go:355-451 | a ledger is accepted exactly when it is not empty, every entry is authentic, well formed, numbered and linked to the one before, all are of one stream, the expected one if any, and a witnessed head names that stream, its length and its last statement |
| `Ledger.SignatureFitsOneStatement` | evidencebinding/nonrepudiation.go:355-451 | a signature from one accepted ledger makes no other statement acceptable in any ledger under any policy |
| `Ledger.AlteredStatementRefused` | evidencebinding/nonrepudiation.go:355-451 | an accepted ledger with one statement changed and its signature kept is refused under every policy and all options |
| `Ledger.ChainBackwards` | evidencebinding/nonrepudiation.go:417-451 | equal last digests force equal statements back to the first |
| `Ledger.HeadDeterminesLedger` | evidencebinding/nonrepudiation.go:417-451 | two accepted ledgers have one head exactly when they hold the same statements in the same order |
| `Ledger.WitnessedHeadPinsLedger` | evidencebinding/nonrepudiation.go:417-451 | against the head of an accepted ledger, for any expected stream, a ledger is accepted exactly when it holds the same statements, each authentic, and the stream is blank or theirs |
| `Ledger.WitnessKeyInjective` | evidencebinding/nonrepudiation.go:475 | the witness key of a stream and sequence determines both |
| `Ledger.Witness.constructor` | evidencebinding/nonrepudiation.go:460-463 | a new witness has seen nothing |
| `Ledger.Witness.Observe` | evidencebinding/nonrepudiation.go:464-483 | stores the first digest of a stream and sequence, repeats it, and reports another as equivocation |
| `Ledger.ReturnedWasSigned` | evidencebinding/nonrepudiation.go:464-483 | over every run each head a witness returns is that of an authentic, well-formed statement it was shown |
| `Ledger.WitnessNeverEquivocates` | evidencebinding/nonrepudiation.go:464-483 | over every run no two digests are returned for one stream and sequence |
| `Ledger.EquivocationExact` | evidencebinding/nonrepudiation.go:464-483 | equivocation is reported exactly when the run returned another digest before |
| `Ledger.WitnessAnswersExactly` | evidencebinding/nonrepudiation.go:464-483 | over every run a witness returns one more head exactly for an authentic, well-formed statement of whose position it returned no other digest |
| `Journal.VerifyRecords` | evidencebinding/agent_journal.go:419-432 | succeeds exactly when the records stand and their statements form an accepted ledger ending at the last head; the report, or the first faulty record's or the ledger's error |
| `Journal.AgentEvidenceJournal.constructor` | evidencebinding/agent_journal.go:350-386 | an empty journal over an existing file |
| `Journal.AgentEvidenceJournal.Append` | evidencebinding/agent_journal.go:189-268 | the new records, identifiers, file lines and answer, for success, every rejection, a failed write and a failed sync |
| `Journal.AgentEvidenceJournal.Close` | evidencebinding/agent_journal.go:332-348 | closes and changes nothing else |
| `Journal.AgentEvidenceJournal.LoadAndVerify` | evidencebinding/agent_journal.go:350-386 | loads exactly the files whose lines fit, stand, are distinct and chained; reports the first faulty line's error, or else the chain's |
| `Journal.NewRecordStands` | evidencebinding/agent_journal.go:388-417 | a fresh record passes its own check exactly when its texts were trimmed and the receipt verifies |
| `Journal.PrepareExact` | evidencebinding/agent_journal.go:189-257 | on a reachable journal an append passes every check before the write exactly when the event is appendable |
| `Journal.PreparedExtends` | evidencebinding/agent_journal.go:189-257 | a prepared record extends a verified journal to a verified journal |
| `Journal.LoadedKeeps` | evidencebinding/agent_journal.go:350-386 | a file opens exactly when its lines fit and its records are what every call keeps |
| `Journal.RunInvariant` | evidencebinding/agent_journal.go:189-386 | every run of appends, closings and reopenings over any file that opened keeps the chain verified and the identifiers exact and distinct |
| `Journal.ReachableVerifies` | evidencebinding/agent_journal.go:189-432 | every reachable journal passes verification with its last head as witness |
| `Journal.AcknowledgedExactly` | evidencebinding/agent_journal.go:189-268 | an append is acknowledged exactly when journal and file took the record in; a refused one leaves records and identifiers alone, and a closed journal refuses all |
| `Journal.ClosedStays` | evidencebinding/agent_journal.go:189-348 | until it is reopened a closed journal stays as it is through every run |
| `Journal.RecordStandsExactly` | evidencebinding/agent_journal.go:388-417 | a record stands exactly when its leaf is that of its event, its statement is authentic, of this stream and over one leaf, its proof verifies, its head is the statement's and the provider verifies the receipt |
| `Journal.LastHeadPinsJournal` | evidencebinding/agent_journal.go:388-432 | two verified journals, of any streams and keys, end with the same head exactly when they hold the same events, leaves, proofs, statements and heads in the same order |
| `Journal.HeadPinsHistory` | evidencebinding/agent_journal.go:189-432 | whatever file is presented with the last head of a journal written by appending, through failures and reopenings, holds exactly its evidence |
| `Journal.AlteredLineRefused` | evidencebinding/agent_journal.go:350-417 | a line whose event, leaf, proof, statement, key or head was changed under a kept signature is refused on opening under every configuration |
| `Journal.FileTracksRecords` | evidencebinding/agent_journal.go:258-266 | the file holds the records, one valid unsynced record more, or two lines with one sequence number, as the run's writes and syncs say |
| `Journal.ClashNeverLoads` | evidencebinding/agent_journal.go:350-432 | a file that repeats a sequence number never opens again, whatever is appended |
| `Journal.ReopensExactly` | evidencebinding/agent_journal.go:258-386 | the file of a reachable journal opens exactly when nothing was written after an unsynced line and every line fits |
| `Journal.ReloadRebuilds` | evidencebinding/agent_journal.go:258-386 | it rebuilds exactly the records and identifiers when, and only when, moreover nothing was left unsynced since the last opening |
| `Journal.ReloadCanFail` | evidencebinding/agent_journal.go:258-386 | both failures are reached, by one call and by two |
| `AnchorPolicy.NewAnchorThresholdPolicy` | evidencebinding/anchor_threshold.go:25-44 | succeeds exactly for a threshold in range over named, distinct providers, and files each under its name |
| `AnchorPolicy.Anchor` | evidencebinding/anchor_threshold.go:46-69 | one receipt for each provider with a usable answer, in name order; fails exactly below the threshold |
| `AnchorPolicy.Verify` | evidencebinding/anchor_threshold.go:71-108 | counts exactly the distinct configured providers whose first receipt verifies, and lists them sorted |
| `AnchorPolicy.ReceiptStandsExactly` | evidencebinding/anchor.go:31-91 | a receipt stands for a provider and head exactly when it is committed, names both in their trimmed form, and carries an identifier and a proof |
| `AnchorPolicy.ReceiptFitsOneHead` | evidencebinding/anchor.go:76-91 | no receipt stands for two heads or two providers |
| `AnchorPolicy.ThresholdNeedsDistinctProviders` | evidencebinding/anchor_threshold.go:71-108 | meeting the threshold needs that many configured providers, each verifying a receipt in the list |
| `AnchorPolicy.MergeAnchorReceipts` | evidencebinding/agent_remote_queue.go:424-442 | the newest receipt of each provider, sorted by provider, and nothing else |
| `AnchorPolicy.MergeSources` | evidencebinding/agent_remote_queue.go:424-442 | every merged receipt was retained or is new |
| `AnchorPolicy.MergedCounts` | evidencebinding/agent_remote_queue.go:424-442 | after a merge a provider counts exactly when it verifies the newest receipt under the least text that trims to its name |
| `AnchorPolicy.FreshReceiptsMeetThreshold` | evidencebinding/agent_remote_queue.go:191-206 | enough providers that verify the new receipt under their least text meet the threshold |
| `AnchorPolicy.TrimmedTextsCount` | evidencebinding/agent_remote_queue.go:424-442 | where all texts are trimmed any new receipt its provider verifies is such a one |
| `AnchorPolicy.RetainedHidesNew` | evidencebinding/agent_remote_queue.go:424-442 | a retained receipt under a lesser text, which validation lets in, hides a verified new one and the threshold is missed |
| `AnchorPolicy.BlankBeforeName` | evidencebinding/anchor.go:78-91 | a blank before the name makes such a text |
| `RemoteQueue.RemoteHeadKeyInjective` | evidencebinding/agent_remote_queue.go:444-446 | accepted heads have distinct keys, whatever colons their streams hold |
| `RemoteQueue.Backoff` | evidencebinding/agent_remote_queue.go:324-336 | the doubling loop computes min(MaxBackoff, MinBackoff * 2^(attempt-1)) for every attempt, never passing the cap on the way |
| `RemoteQueue.RetryDelayMonotone` | evidencebinding/agent_remote_queue.go:324-336 | delays never shrink with the attempt and never pass the cap |
| `RemoteQueue.RetryDelayDoubles` | evidencebinding/agent_remote_queue.go:324-336 | each delay is twice the one before, up to the cap |
| `RemoteQueue.AgentRemoteAnchorQueue.constructor` | evidencebinding/agent_remote_queue.go:84-127 | opens over loaded items; unset delays get their defaults |
| `RemoteQueue.AgentRemoteAnchorQueue.Enqueue` | evidencebinding/agent_remote_queue.go:129-157 | appends an unknown, anchorable head and persists it, or leaves the items unchanged |
| `RemoteQueue.AgentRemoteAnchorQueue.NextDue` | evidencebinding/agent_remote_queue.go:304-322 | the first pending, due, untried item, or none exactly when there is none |
| `RemoteQueue.AgentRemoteAnchorQueue.Settle` | evidencebinding/agent_remote_queue.go:186-208 | finds the item again and marks it delivered exactly when the merged receipts meet the policy, else defers it |
| `RemoteQueue.AgentRemoteAnchorQueue.Flush` | evidencebinding/agent_remote_queue.go:163-218 | terminates, tries each head at most once, and if undisturbed leaves no pending head untried that was due at its last look, and none at all when forced |
| `RemoteQueue.RunKeepsQueue` | evidencebinding/agent_remote_queue.go:129-218 | in every interleaving heads stay distinct, items are never removed or reordered, and each flush tries a head at most once |
| `RemoteQueue.RecheckNeverFails` | evidencebinding/agent_remote_queue.go:186-190 | the re-check after anchoring never fails, whatever was enqueued meanwhile |
| `RemoteQueue.EnqueuedExactly` | evidencebinding/agent_remote_queue.go:129-157 | a head is added exactly when it is anchorable, unknown, the queue is open and the file could be written; it is then due at once |
| `RemoteQueue.SettledExactly` | evidencebinding/agent_remote_queue.go:186-208 | an attempt delivers exactly when the merged receipts meet the policy, and otherwise puts the item off by its delay |
| `RemoteQueue.MetIsDelivered` | evidencebinding/agent_remote_queue.go:186-208 | over every run an item whose receipts met the policy is delivered and stays so |
| `RemoteQueue.DeferredWaits` | evidencebinding/agent_remote_queue.go:186-336 | over every run the next unforced try of a deferred item comes no earlier than its delay allows |
| `RemoteQueue.ClosedRests` | evidencebinding/agent_remote_queue.go:129-322 | after closing no item is added and no flush takes up another |
| `RemoteQueue.DeliveredMeetsThreshold` | evidencebinding/agent_remote_queue.go:191-206 | an item becomes delivered only with receipts that enough distinct configured providers verify |
| `RemoteQueue.Load` | evidencebinding/agent_remote_queue.go:338-377 | accepts exactly the files whose items are well formed with distinct heads |
| `RemoteQueue.ReachedReloads` | evidencebinding/agent_remote_queue.go:338-385 | whatever a queue reaches from any file that opens, the file it persists opens again |
| `WorkerPool.StepKeeps` | mapreduce/engine.go:208-284 | every send, receive, finish, failure and cancellation keeps the pool's invariant |
| `WorkerPool.RunKeeps` | mapreduce/engine.go:208-284 | so does every run |
| `WorkerPool.SuccessIsComplete` | mapreduce/engine.go:208-284 | a run that ends without error has every job's own result, each job done exactly once |
| `WorkerPool.SuccessIffUndisturbed` | mapreduce/engine.go:208-284 | a finished run succeeds exactly when no job failed and the caller did not cancel |
| `WorkerPool.RunsAreBounded` | mapreduce/engine.go:208-284 | a run takes at most three steps per job, one per worker and one to close |
| `WorkerPool.NeverStuck` | mapreduce/engine.go:208-284 | until every worker returned, some step of the pool itself is possible |
| `WorkerPool.CanFinish` | mapreduce/engine.go:208-284 | every undisturbed state can run on to success if no remaining job has to fail |
| `MapReduce.ValidateOutput` | mapreduce/engine.go:376-385 | accepts exactly outputs within the record and byte limits |
| `MapReduce.OutputBytesConcat` | mapreduce/engine.go:376-385 | a record takes the bytes of its key and value, and those of lists add up |
| `MapReduce.CollectOutputs` | mapreduce/engine.go:285-292 | checking the limits after each output is the same as checking the whole |
| `MapReduce.ConcatSplits` | mapreduce/engine.go:285-292 | each output stands whole in the result, between those before and after it |
| `MapReduce.GroupRecords` | mapreduce/types.go:289-311 | sorted groups holding each key's values in record order; fails exactly past the value cap |
| `MapReduce.GroupsInRecordOrder` | mapreduce/types.go:289-311 | groups are a grouping exactly when their keys rise strictly and are the records', and each holds the values at all the positions of its key, in rising order of position |
| `MapReduce.CapExactly` | mapreduce/types.go:289-300 | the value cap holds exactly when no key is that of more records |
| `MapReduce.GroupingOrderFree` | mapreduce/types.go:289-311 | grouping depends only on which records there are, up to the order of values |
| `MapReduce.SortGroupsSpec` | mapreduce/engine.go:296-297 | the sort is ordered, stable and a permutation |
| `Engine.MapRefinesFlatMap` | mapreduce/engine.go:208-293 | for every worker count and interleaving a successful map stage is the sequential flat-map, and one exists whenever all records map and fit |
| `Engine.ReduceRefinesReduceAll` | mapreduce/engine.go:295-374 | likewise the reduce stage: one record for each key-sorted group, in order |
| `Engine.MapStageExactly` | mapreduce/engine.go:208-293 | the map stage can return exactly the plugin's own answers joined in input order, when it answers every record with valid records and they fit |
| `Engine.ReduceStageExactly` | mapreduce/engine.go:295-374 | the reduce stage can return exactly the plugin's answers to the sorted groups, when no group is too long and they are valid and fit |
| `Engine.RunRefinesSequential` | mapreduce/engine.go:162-175 | a successful single-node run is the grouped and reduced sequential flat-map |
| `Engine.RequestLimits` | mapreduce/types.go:180-246 | the requests in order: between 1 and 4096 records or groups of bounded keys and values |
| `Engine.RunExactly` | mapreduce/engine.go:110-188 | exactly when a single node answers a run, and with what |
| `Coordinator.DealtInTurn` | mapreduce/coordinator.go:127-131 | target j receives records j, j+m, j+2m, ... in order |
| `Coordinator.DealtLength` | mapreduce/coordinator.go:127-131 | and how many that are |
| `Coordinator.DealConserves` | mapreduce/coordinator.go:127-131 | dealing conserves the records |
| `Coordinator.CleanTargets` | mapreduce/coordinator.go:109-123 | the distinct trimmed names in order, or a refusal exactly when a non-blank one is invalid |
| `Coordinator.NodeNameExactly` | mapreduce/types.go:325-336 | a node name has 1 to 256 characters once trimmed, none of them a control character |
| `Coordinator.CompactTargets` | mapreduce/coordinator.go:132-140 | keeps exactly the non-empty parts, each with its own target |
| `Coordinator.PartitionTargets` | mapreduce/coordinator.go:108-142 | who is sent what: a partition of the records without empty parts; refuses exactly bad target lists |
| `Coordinator.SentExactly` | mapreduce/coordinator.go:108-142 | as many of the first targets as there are records are sent something, each every m-th record |
| `Coordinator.GatherMapped` | mapreduce/coordinator.go:56-92 | whatever the order in which calls end: the answers joined in target order, or the error of the first call to fail |
| `Coordinator.Run` | mapreduce/coordinator.go:19-106 | each refusal by its check, a failing map call's error, the caller's cancellation, the value cap, or the reducer's answer to the grouping of all answers, each in exactly its case |
| `Coordinator.RefusalExactly` | mapreduce/coordinator.go:19-51 | exactly which jobs are sent at all: sizes, names, and at most 64 nodes with the reducer |
| `Coordinator.SentSplits` | mapreduce/coordinator.go:108-142 | what is sent for any raw target list is a partition of the records into nonempty parts |
| `Coordinator.RunMatchesSingleNode` | mapreduce/coordinator.go:19-142 | every successful Run, for any raw targets, returns exactly what a successful single-node run returns, when the calls it makes are answered by engines of the same plugin, whatever their policies and limits for each call |
| `Coordinator.FlatMapBag` | mapreduce/coordinator.go:89-96 | what records map to depends, as a bag, only on the bag of records |
| `Coordinator.JobMatchesSingleNode` | mapreduce/coordinator.go:19-142 | the same for any split of the records: equal records in equal order, for an order-insensitive reducer |
| `Coordinator.MapCallExact` | mapreduce/engine.go:208-293 | a map call returns exactly the flat-map of its part, exactly when its request, policy, plugin and limits allow |
| `Coordinator.ReduceCallExact` | mapreduce/engine.go:295-374 | likewise a reduce call on grouped records |
| `Coordinator.JobReturnsExactly` | mapreduce/coordinator.go:19-106 | exactly when a job can return a result, and which |
| `Coordinator.EmptyMappingDiffers` | mapreduce/coordinator.go:93-105 | when nothing is mapped every job fails while the single node answers with no records |
| `HopProof.NormalHopIdempotent` | hopproof/hop.go:370-383 | normalising a hop twice is normalising it once |
| `HopProof.CurrentIndexSpec` | hopproof/hop.go:88-99 | the current index is the one position of the current node in the normalised topology, if the context is valid |
| `HopProof.VerifyChain` | hopproof/hop.go:215-300 | the loop with the cache updated in place computes the verdict and cache of the record-by-record specification |
| `HopProof.AcceptedIsSound` | hopproof/hop.go:215-300 | an accepted chain has no faulty record |
| `HopProof.AcceptedExactly` | hopproof/hop.go:215-300 | a chain is accepted exactly when it has a record for each node before the holder, each signed for its node as the verifier says, sent to the next, of this chain, numbered, linked, with a parent session unless first, and in its time, and no nonce is spent |
| `HopProof.HopLifetimeExact` | hopproof/hop.go:215-300 | a record without fault lives at most the limit exactly when its lifetime in nanoseconds fits 63 bits |
| `HopProof.LastDigestFixesChain` | hopproof/hop.go:215-368 | two chains accepted under any contexts agree on the last digest exactly when they have equal length and equal normalised records |
| `HopProof.AppendExactly` | hopproof/hop.go:128-212 | a node appends exactly when it has a next node, all records before its own, a parent session unless first, a nonce and a signature; which record it adds |
| `HopProof.AppendSucceeds` | hopproof/hop.go:128-212 | an honest append to a sound chain succeeds |
| `HopProof.AppendKeepsSound` | hopproof/hop.go:128-212 | and leaves a chain that is sound for the recipient |
| `HopProof.HonestChainVerifies` | hopproof/hop.go:128-300 | nodes appending in turn are accepted at every successive node while the windows hold |
| `HopProof.AcceptedAgainOnlyTolerated` | hopproof/hop.go:244-290 | in any run on one cache a record accepted before is accepted again only while it is expired and tolerated |
| `HopProof.NoChainAcceptedTwice` | hopproof/hop.go:265-290 | so where no skew is allowed no record, let alone a chain, is accepted twice |
| `HopProof.AcceptedAgainExactly` | hopproof/hop.go:244-290 | an accepted chain is accepted again at a later time exactly when all its records are then expired and tolerated |
| `HopProof.ReplayExactly` | hopproof/hop.go:244-290 | such a time exists exactly when there is no cache or the records' expiries lie less than the skew apart |
| `HopProof.SkewAllowsReplay` | hopproof/hop.go:244-290 | for chains of one record: exactly when there is no cache or any skew is allowed |
| `Topics.SplitTopicLoop` | pubsub/bus.go:120-133 | the scan computes the split at slashes |
| `Topics.LevelsJoin` | pubsub/bus.go:120-133 | the levels of joined texts are the levels of each in turn |
| `Topics.LevelsInjective` | pubsub/bus.go:120-133 | a text is determined by its levels |
| `Topics.TopicMatches` | pubsub/bus.go:100-118 | the loop decides the level-wise match with both wildcards |
| `Topics.MatchesByLevel` | pubsub/bus.go:100-118 | matching level by level: a final # takes what is left, + or an equal level takes one |
| `Topics.EmptyTopicExactly` | pubsub/bus.go:100-133 | the empty topic is matched by the empty filter and # only |
| `Topics.PublishTopicIsExact` | pubsub/event.go:165-202 | a topic that may be published to is a valid filter that matches itself and nothing else |
| `Topics.SubscribeExactly` | pubsub/event.go:184-202 | a filter is valid exactly when it is not blank or too long and every wildcard stands alone between slashes, # at the end only |
| `Topics.PrefixMatches` | pubsub/bus.go:100-118 | a filter ending in # matches every topic that begins with its other levels |
| `Topics.CleanFixpointExact` | pubsub/event.go:204-209 | cleaning leaves exactly the texts without outer white space or slashes and without blanks |
| `Topics.CleanAgain` | pubsub/event.go:204-209 | cleaning again changes a cleaned part exactly when trimming slashes uncovered white space |
| `Topics.CleanNotIdempotent` | pubsub/event.go:204-209 | such a part exists |
| `Topics.FilterMatchesEvents` | pubsub/mesh.go:240-267 | the chain's filter matches the topic of every event of the chain |
| `Topics.FilterSeparatesChains` | pubsub/mesh.go:240-267 | for chain names of one level, a chain's filter matches an event exactly when it is of that chain, or the name is + |
| `Topics.SimpleTopics` | pubsub/mesh.go:240-267 | for simple names the topic and the filter are the names between fixed levels, up to 65535 characters |
| `Mesh.RuleMatchesNow` | pubsub/mesh.go:377-392 | exactly the endpoint, origin and topic conditions of a rule |
| `Mesh.DecideRoute` | pubsub/mesh.go:207-238 | invalid envelopes and an empty next node are denied, then the first matching rule decides; no rule denies |
| `Mesh.RouteExactly` | pubsub/mesh.go:207-238 | a forward is allowed exactly when the first matching rule allows it or rewrites it to a topic that is not blank; only such a rewrite changes the topic |
| `Mesh.ForwardExactly` | pubsub/mesh.go:129-184 | one hop is made exactly when the envelope is valid, has a hop left, and the next node is named, new and has a topic; what it changes |
| `Mesh.ForwardWithRulesExactly` | pubsub/mesh.go:186-205 | with rules, exactly when they allow it as well and a rewritten topic may be published |
| `Mesh.ForwardedIsSendable` | pubsub/mesh.go:129-205 | validation never refuses a forwarded envelope |
| `Mesh.NewIsSendable` | pubsub/mesh.go:97-158 | nor a new one |
| `Mesh.CleanNodeList` | pubsub/mesh.go:357-375 | the cleaned names in order, or a refusal exactly of fewer than two, empty or repeated ones |
| `Mesh.ChainRulesForScheme` | pubsub/mesh.go:307-355 | the loop makes exactly the scheme's rules, or refuses exactly unusable node lists and chains without a filter |
| `Mesh.RulesAreLinks` | pubsub/mesh.go:307-355 | every rule is a link of the chain in an allowed direction |
| `Mesh.LinksAreRules` | pubsub/mesh.go:307-355 | and every such link has its rule |
| `Mesh.DecideExact` | pubsub/mesh.go:207-392 | under a scheme's rules a forward is allowed exactly over a link of the chain whose topic the filter matches |
| `Mesh.RouteIsSegment` | pubsub/mesh.go:160-238 | every run of forwards visits a contiguous, never-reversing segment with exact hop count; a prefix under the directed schemes |
| `Mesh.NewEnvelopeStarts` | pubsub/mesh.go:97-127 | an envelope is made exactly when its event is complete and chain and node have a topic; it has visited its origin only, with 16 hops unless another limit is given |
| `Mesh.NextNodeReached` | pubsub/mesh.go:160-205 | from any start and in either direction, the next node is reached exactly when the scheme grants the journey, the hop limit allows it and its topic is publishable |
| `Mesh.EventReachesChain` | pubsub/mesh.go:97-205 | an event reaches every node up to either end of the chain or the hop limit: from the first node under every scheme, from every node both ways under many-to-many |
| `Mesh.DecideEveryName` | pubsub/mesh.go:207-392 | for any names a forward is allowed exactly over a link of the chain of names cleaned once more, a blank name matching anything |
| `Mesh.StabilityExact` | pubsub/mesh.go:307-392 | the rules allow exactly the links of the chain, for every envelope, exactly when cleaning changes none of the names again |
| `Mesh.UnstableNameSkipsNode` | pubsub/mesh.go:97-238 | with a name that cleaning changes an event is forwarded past a node: the route is no segment |
| `Replay.NonceCache.constructor` | authproof/proof.go:83-91 | a new cache holds nothing |
| `Replay.NonceCache.CheckAndStore` | authproof/proof.go:92-110 | purges what expired, then refuses a stored nonce or stores a new one |
| `Replay.HoldsExactly` | authproof/proof.go:92-110 | under every clock the cache holds a nonce and expiry exactly when a use with both was accepted and no later check saw a clock at or past the expiry |
| `Replay.RefusedEveryClock` | authproof/proof.go:92-110 | under every clock a nonce is refused exactly when such a use has not expired |
| `Replay.RunTracks` | authproof/proof.go:92-110 | over any run under a clock that never goes back the cache holds exactly the live accepted uses |
| `Replay.RefusedExactly` | authproof/proof.go:92-110 | a nonce is refused exactly when an accepted use of it has not expired |
| `Replay.AcceptedAgainOnlyAfterExpiry` | authproof/proof.go:92-110 | a nonce comes back only after the earlier use expired |
| `Replay.BackwardClockAcceptsAgain` | authproof/proof.go:92-110 | with a clock that goes back it can come back earlier |
| `AuthProof.VerifySignedGrant` | authproof/proof.go:222-284 | the first failing check's error, and the cache is consulted only without one |
| `AuthProof.CapabilitiesExact` | authproof/proof.go:323-339 | the normal capability list is strictly sorted and holds exactly the non-empty trimmed entries |
| `AuthProof.NormalGrantIdempotent` | authproof/proof.go:135-156 | normalising a grant twice is normalising it once |
| `AuthProof.LevelNames` | authproof/authority.go:52-67 | the five security levels and their other names |
| `AuthProof.GrantPassesExactly` | authproof/proof.go:158-279 | a grant passes exactly when it carries the key's signature over its normal form, is complete and current, lists every required capability and meets every option that is set |
| `AuthProof.AlteredGrantExactly` | authproof/proof.go:222-279 | under the signature of a grant that passed, another text passes anywhere only with the same key and normal form, and with these wherever the first did |
| `AuthProof.DurationExact` | authproof/proof.go:253 | a lifetime that passes a limit is within it exactly when its nanoseconds fit 63 bits |
| `AuthProof.OverlongLifetimePasses` | authproof/proof.go:246-255 | one second longer passes every limit |
| `AuthProof.GrantLifetimeExact` | authproof/proof.go:222-284 | a grant that passes lives at most its limit exactly when its lifetime fits |
| `AuthProof.ContextLifetimeExact` | authproof/node_context.go:163-213 | likewise a node context |
| `AuthProof.NormalizeNodes` | authproof/node_context.go:215-227 | the distinct trimmed nodes in order |
| `Text.DistinctTrimmedMembers` | authproof/node_context.go:215-227 | the list holds exactly the non-empty texts that entries trim to |
| `Text.DistinctTrimmedOrder` | authproof/node_context.go:215-227 | in the order in which they first come up |
| `AuthProof.VerifySignedNodeContext` | authproof/node_context.go:163-213 | the first failing check's error, and the cache is consulted only without one |
| `AuthProof.NormalContextAgain` | authproof/node_context.go:57-88 | normalising a context again changes only an audience of mere white space, which becomes the default |
| `AuthProof.ContextPassesExactly` | authproof/node_context.go:90-207 | a context passes exactly when it carries the key's signature over its normal form, is complete and current and meets every option that is set |
| `AuthProof.AlteredContextExactly` | authproof/node_context.go:163-207 | under the signature of a context that passed, another text passes anywhere only with the same key and signed form |
| `AuthProof.NoProofAcceptedTwice` | authproof/proof.go:242-283 | over every run on one cache no signed grant or node context is accepted twice |
| `AuthProof.RefusedExactlyWhileLive` | authproof/proof.go:242-283 | a faultless proof is refused exactly while an accepted proof with its nonce is live |
| `FileCore.NewCore` | filebackend/core.go:110-133 | loads exactly the well-formed stores, to exactly what they hold |
| `FileCore.Core.constructor` | filebackend/core.go:110-133 | a core that holds what it loaded |
| `FileCore.Core.Write` | storageadapter/file.go:93-227 | a write is stored, refused, stored although a failure is reported, or erases what a restart would read |
| `FileCore.Core.NextID` | filebackend/core.go:142-155 | writes the next sequence and advances memory exactly if the write was confirmed |
| `FileCore.Core.ObserveQID` | filebackend/core.go:157-193 | writes the observed identity, and the stored version raised to the observed one and at least to 1; every outcome of the write |
| `FileCore.Core.QID` | filebackend/core.go:195-234 | reports a version never below the stored one and writes a first sight |
| `FileCore.ObservedIsReported` | filebackend/core.go:157-234 | an observed identity is what is reported, with the higher of the observed and the stored version |
| `FileCore.FirstSight` | filebackend/core.go:195-234 | a path not seen before is reported by its own identity and modification time, at least 1, which is stored and bounds later reports from below |
| `FileCore.PlainKey` | filebackend/core.go:311-339 | a plain path is its own key, whatever white space and one slash stand around it; a dot and a slash are the root |
| `FileCore.BackslashKey` | filebackend/core.go:332-339 | backslashes count as slashes |
| `FileCore.OtherFilesStand` | filebackend/core.go:157-339 | identity and version reported for a file stand through every further run that names no spelling of it, unless a restart finds the store erased |
| `FileCore.PlainPathsApart` | filebackend/core.go:157-339 | no call for one plain path changes what is reported for another |
| `FileCore.Core.Record` | filebackend/core.go:236-289 | one batch raises counters, errors and versions; memory follows exactly if the write was confirmed |
| `FileCore.BumpedVersions` | filebackend/core.go:260-280 | each mutated path raised once, by one from its stored version, the largest wrapping to 1 |
| `FileCore.RecordTracks` | filebackend/core.go:236-289 | whatever becomes of the write, the store stays equal to memory or one step further at known keys |
| `FileCore.MemoryIsDurable` | filebackend/core.go:110-289 | over any loadable store and through every kind of store failure and restart: memory equals what a restart would load exactly when the last stored write of each key was confirmed and the store was not erased since |
| `FileCore.TruthfulIsDurable` | filebackend/core.go:110-289 | so always when writes reported as failed changed nothing |
| `FileCore.UnconfirmedParts` | filebackend/core.go:236-289 | a record stored but reported as failed parts memory and store |
| `FileCore.IDsIncrease` | filebackend/core.go:142-155 | operation IDs strictly increase through every kind of store failure and restart, until they wrap, as long as no restart finds the store erased after an ID was handed out |
| `FileCore.ErasedStartsOver` | filebackend/core.go:110-155 | after such a restart the next ID is 1, and one failing write can lead there |
| `FileCore.IDsConsecutive` | filebackend/core.go:142-155 | they are consecutive, modulo 2^64, when writes reported as failed changed nothing |
| `FileCore.RecordRaisesVersion` | filebackend/core.go:157-289 | a record naming an observed path raises its reported version exactly when the stored one is not below the observed one and below the largest, whatever happened before |
| `FileCore.RisesUntilWrap` | filebackend/core.go:157-289 | in runs where the version never wrapped, exactly when it is below the largest |
| `FileCore.WrappedVersionStands` | filebackend/core.go:157-289 | a run in which the version wraps and a further record raises the stored but not the reported version |
| `FileCore.ObservedHasVersion` | filebackend/core.go:157-289 | in every run an observed path has a stored version |
| `FileService.CompleteCounts` | filebackend/service.go:156-175 | completing adds at most one to the counters, in memory and after a restart, and errors stay below them |
| `FileService.CrashBrackets` | filebackend/core.go:110-133 | what a crash and reload leave of the counters |
| `FileService.CountersWithinSequence` | filebackend/service.go:122-189 | in every run of concurrent executions with every kind of store failure, crashes and reloads, the counters, in memory and after a restart, with the operations still running, sum to at most the sequence, and errors to at most the counters |
| `FileService.CountersFromEmpty` | filebackend/service.go:122-189 | so in every run from an empty store |
| `FileService.BeginExactly` | filebackend/service.go:122-205 | an operation is started exactly when it has an ID, a well-formed event and the hooks' consent, and the service is not read-only or it only looks at files; a refused one that is recorded counts as failed |
| `FileService.IDsAccounted` | filebackend/service.go:122-189 | over every run without a crash the sequence is the counters, the operations running, and exactly the operations that left no record |
| `FileService.ReadOnlyNeverMutates` | filebackend/service.go:148-205 | in every run of a read-only service only operations that look at files are running: attach, walk, read, clunk, stat, directory reads, and opens for reading without truncation |
| `FileService.ReadOnlyKeepsVersions` | filebackend/service.go:122-205 | and no stored identity or version of a path changes in any of its runs, unless all are lost with an erased store, when completions name changed paths only for operations that may change files |
| `Mqtt.EncodeRemainingLength` | pubsub/mqtt.go:347-361 | the loop computes the base-128 digits |
| `Mqtt.LengthSize` | pubsub/mqtt.go:347-361 | a length takes at most k bytes exactly when it is below 128^k |
| `Mqtt.LengthLayout` | pubsub/mqtt.go:347-361 | the bytes hold seven bits each, least first, the high bit set on all but the last |
| `Mqtt.LengthRoundTrip` | pubsub/mqtt.go:347-378 | an encoded length reads back with the rest of the input exactly when it fits, and is malformed otherwise |
| `Mqtt.TooManyDigits` | pubsub/mqtt.go:363-378 | four digits that ask for more are malformed whatever follows |
| `Mqtt.Stream.constructor` | pubsub/broker.go:312-340 | a stream with given input and nothing written |
| `Mqtt.Stream.ReadByte` | pubsub/mqtt.go:363-378 | takes one byte, or reports the end |
| `Mqtt.Stream.ReadRemainingLength` | pubsub/mqtt.go:363-378 | the multiplier loop reads what the recursive reader reads; what is left to read on success and on each error |
| `Mqtt.Stream.ReadMQTTPacket` | pubsub/broker.go:312-326 | reads one packet and leaves the rest; what is left to read on each error |
| `Mqtt.Stream.WriteMQTTPacket` | pubsub/broker.go:328-340 | appends one encoded packet |
| `Mqtt.PacketLayout` | pubsub/broker.go:328-340 | type in the high half of the first byte, flags in the low half, then length and payload |
| `Mqtt.PacketRoundTrip` | pubsub/broker.go:312-340 | a packet followed by anything reads back exactly when its payload is below 2^28 bytes |
| `Mqtt.StreamRoundTrip` | pubsub/broker.go:312-340 | any concatenated packets read back, consuming every byte, exactly when every payload is below 2^28 bytes |
| `Mqtt.TextRoundTrip` | pubsub/mqtt.go:327-345 | a string reads back whole exactly when it has at most 65535 bytes |
| `Mqtt.TextLayout` | pubsub/mqtt.go:327-333 | length high byte first, then the text |
| `Mqtt.PublishRoundTrip` | pubsub/mqtt.go:276-286 | a published message without quality of service arrives as sent |
| `Mqtt.ParseSubscribe` | pubsub/broker.go:251-274 | the loop parses the filter list that the specification reads, error by error |
| `Mqtt.FiltersRoundTrip` | pubsub/broker.go:251-274 | every list of valid filters is read back from its encoding |
| `Padding.Classifier.constructor` | padding/padding.go:46-51 | counters start at zero |
| `Padding.Classifier.ClassifyAndPad` | padding/padding.go:60-168 | pads exactly the packets whose class asks for it, into a fresh buffer of 768 bytes; counts the class; otherwise returns the buffer itself |
| `Padding.Classifier.Count` | padding/padding.go:104-154 | the protocol switch agrees with the classification, for both IP versions |
| `Padding.CountedExactly` | padding/padding.go:60-154 | which packets are counted, and in which class, by their bytes |
| `Padding.PadsExactly` | padding/padding.go:60-158 | a packet is padded exactly when it is whole, of a known protocol, and below 256 bytes, or belongs to DNS and leaves room |
| `Padding.Classifier.PadTo` | padding/padding.go:160-165 | packet, big-endian length, marker, zeros |
| `Padding.Classifier.Unpad` | padding/padding.go:172-218 | the inner length exactly when the buffer looks padded, else the whole length |
| `Padding.CutExactly` | padding/padding.go:172-218 | a buffer is cut to d bytes exactly when it has 768 bytes and these are a whole packet with its length and the marker behind it |
| `Padding.UnpadUndoesPad` | padding/padding.go:60-218 | a padded packet is restored to its exact length and bytes |
| `Padding.TransitExact` | padding/padding.go:60-218 | any packet arrives as it was sent exactly when it was padded or does not look padded |
| `Padding.HonestPacketArrives` | padding/padding.go:60-218 | a packet of another size, or that declares its own size, always arrives whole |
| `Padding.PaddedAgainIsCut` | padding/padding.go:60-218 | a padded packet sent again is cut to the inner packet |
| `Padding.PaddedWithinTotal` | padding/padding.go:36-161 | over any run of fewer than 2^64 packets the padded count is at most the sum of the class counters, which is the number of classified packets |
| `Padding.CountersExact` | padding/padding.go:36-161 | below the wrap each counter is the number of packets of its class, and the padded count that of padded packets |
| `JsonComments.StripJSONComments` | connectionscan/putty.go:456-509 | the four-flag loop writes exactly the tokens that are not comments |
| `JsonComments.RestStep` | connectionscan/putty.go:462-507 | each turn of the loop writes the first part of what was left to write |
| `JsonComments.TokensCover` | connectionscan/putty.go:456-509 | the tokens partition the text |
| `JsonComments.StrippedTokens` | connectionscan/putty.go:456-509 | the stripped text has exactly the text's tokens that are not comments: joining them creates no comment and moves no boundary |
| `JsonComments.StripIdempotent` | connectionscan/putty.go:456-509 | stripping twice is stripping once |
| `JsonComments.UnchangedExact` | connectionscan/putty.go:456-509 | a text is unchanged exactly when it has no comment outside its strings |
| `JsonComments.LiteralsKept` | connectionscan/putty.go:456-509 | every string literal is copied byte for byte, and none appears or is lost |
| `JsonComments.QuotedKept` | connectionscan/putty.go:456-509 | any text, quoted and escaped, is copied whole, whatever follows |
| `JsonComments.LineCommentCut` | connectionscan/putty.go:456-509 | a line comment is cut up to its line break or the end |
| `JsonComments.BlockCommentCut` | connectionscan/putty.go:456-509 | a block comment is cut up to its first closer |
| `JsonComments.PlainKept` | connectionscan/putty.go:456-509 | every other byte stays |

## Left out

- SHA-256, Ed25519, RSA, ECDSA, base64, hex and JSON are idealised: injective constructors and arbitrary verification predicates.
- Text lengths count characters, not UTF-8 bytes, and lower-casing covers ASCII letters only, outside the MQTT, padding and JSON modules, which work on bytes.
- `Journal.AgentEvidenceJournal.Append`: a failed write is taken to write nothing and a failed sync to leave the whole line; a partly written line is not modelled.
- `Mesh.EventReachesChain`: asks for node names, a chain identifier and a prefix that cleaning leaves alone.
- `Mesh.NextNodeReached`: asks the same.
- `Mesh.DecideExact`: asks for node names that cleaning leaves alone; `Mesh.DecideEveryName` covers all names, and `Mesh.StabilityExact` shows that the chain is decided for no others.
- `Mesh.RouteIsSegment`: asks for node names that cleaning leaves alone; `Mesh.UnstableNameSkipsNode` is a run that breaks it otherwise.
- `Coordinator.RunMatchesSingleNode`: for runs where both succeed; `Coordinator.JobReturnsExactly` says when a job succeeds, and `Coordinator.EmptyMappingDiffers` gives the systematic difference.
- `Coordinator.Run`: the validity of the plugin name and labels is one flag; a context cancelled while calls are running is seen through their failing, and one cancelled later through a flag.
- `FileCore.Core.Write`: a batch is written as a whole or not at all, for every operation of the core; a batch stored in part is not modelled.
- `FileService.CountersWithinSequence`: begin, complete and crash are steps on the core's state rather than methods of an object, because executions run concurrently; hooks are not modelled.
- `Topics.TopicMatches`: follows the code, which lets a leading wildcard match topics that begin with $, unlike section 4.7.2 of MQTT 3.1.1.
- Lists are shorter than 2^63, as Go slices are (`Ledger.VerifyLedger`, the journal's members).
- The texts of error messages and diagnostics; errors are told apart by kind.
- HTTP, immudb, Fabric and embedded-store providers: an anchor and a verify function.
- Policy evaluation in the map/reduce engine: whether a call is admitted, and with which limits, is given for each call.
- MQTT CONNECT parsing, the subscription table and the sockets of the broker.
- Files, permissions, temporary files and renames; exported snapshots and status reports.
- Session multiplexing and relays, the flow-control optimiser, display and connectivity probing, hook registries, command plugins and version comparison: plumbing or without a clean specification.
