# Layer node, light client and relay: a Dafny model

This project models the consensus-facing half of the `slay3rd` node and the components that
must agree with it, and proves what they promise over all inputs, all runs and all
interleavings.

- **Node** (`Chain`, `Node`, `NodeSafety`, `NodeTheorems`, `NodeStaging`, `NodeCertify`,
  `NodeBuffers`, `NodeEffects`, `NodeExamples`, `NodeRuns`, `NodeClass`): the machine around
  `finalize`, `verify`, `propose`, `certify`, peer payloads and backfill. A step is what one
  lock section changes, the steps of all tasks interleave, and a call that reads under several
  locks is told by the points of the run at which it read. A digest is symbolic: genesis, the
  digest of a payload, or an unknown one. The app is a deterministic transition with a root
  function.
  `NodeClass` holds the methods with their loops; wherever the source holds no lock, other
  tasks take any steps.
- **Buffers** (`PayloadStore`, `Backfill`): the payload files with their two indexes, with
  crashes between file operations, and the height requests.
- **State root and proofs** (`Merkle`, `StateRoot`, `Block`): the trees, the incremental
  state root, and the payload encoding. Nothing is assumed about the hash function: where a
  claim about a root could fail, two distinct strings with one hash are returned.
- **Light client** (`Varint`, `Proposal`, `WasmStore`, `Hex`, `LightClient`,
  `LightClientBytes`, `Evidence`): codecs, host storage, the contract as a transition system,
  its runs over the stored bytes, and what a frozen client proves.
- **Signature memo** (`SigLog`): the FIFO cache, its append-only log, torn writes,
  compaction and crashes.
- **Mempool** (`Batch`, `Queues`, `Mempool`): four mirrored maps proved to be one list, and
  the per-sender merge proved against a reference order.
- **Relay and checkpoints** (`Events`, `RelayStore`, `Window`, `Package`, `Checkpoint`): the
  channel index, backward paging, anchor packages, and the cursor.

`Common` and `Ordering` hold shared types and the byte order. `dafny verify dfyconfig.toml`
checks everything.

## Where the code and its documentation part

In each case the code is modelled, a lemma gives an input, and another says exactly when the
documented property holds.

- The mempool says a sender's transactions come out contiguously. They do iff nothing else
  falls due between them (`Batch.InterleavingHappens`, `Batch.BatchesContiguousIff`).
- A proposer stages its parent under a tip read before the lock is released, and may cache
  the result. Fresh or cached, it is the real post-state iff the parent claims the height just
  above that tip (`NodeExamples.StaleStageHappens`, `NodeStaging.StagedSoundIffHeightFits`).
- `certify` is to refuse rivals of executed blocks. It reads the tip well before it puts, and
  backs a rival iff that height was still open at the read or its walk gave up
  (`NodeExamples.RivalCertified`, `NodeCertify.RivalCertifiedIff`).
- Section 7 of the light client specification says that two headers that freeze the client
  are only possible if f+1 shares signed both. The height of a header is not signed, so the
  certificates of two honest rounds, labelled with one height, freeze it too. A freezing pair
  is such evidence, as section 3 has it, iff the signed rounds are equal
  (`Evidence.HonestRoundsFreeze`, `Evidence.EvidenceIffSameRound`).
- After the payload store is reopened, a height serves its file listed last, which is the
  executed one in every listing iff it has no rival on disk (`PayloadStore.LastListedWins`,
  `PayloadStore.ServedAfterReopenIffAlone`).
- A membership proof commits to key and value joined, not to where one ends. A key binds iff
  the remainder of every entry that begins with it is stored under it
  (`LightClient.BoundaryIsNotCommitted`, `LightClient.BindsIffRemaindersStored`).
- The relay's range scan excludes its upper bound and sees an event under its first channel
  only; the full scan does neither (`RelayStore.TopEventIsMissed`,
  `RelayStore.SecondChannelIsMissed`, `RelayStore.IndexEqualsScanIff`).
- The window fetch is to collect the whole window. It does iff no page cut splits a second
  and the pages suffice (`Window.EventIsLost`, `Window.CompleteIffClean`).
- The signature log writes messages of any length and reads back only up to 4,096 bytes
  (`SigLog.RecordIsLost`, `SigLog.RecoversIffLoggable`).

## Model

| member | source | states |
|---|---|---|
| `Chain.ExecutedShape` | app/slay3rd/src/node.rs:1269-1354 | an executed chain starts at genesis, has contiguous heights, each block carries the root of the state before it, and the app records exactly that chain |
| `Chain.OneBlockPerHeight` | app/slay3rd/src/node.rs:1269-1354 | two ancestors of one executed digest with the same height are the same block |
| `Chain.ExecutedIff` | app/slay3rd/src/node.rs:1269-1354 | a digest executes iff its links end at genesis and its blocks run one after the other, each next in height, on the root it declares and not back in time; the state is then the fold of the app over their own transactions, heights, times and proposers |
| `NodeSafety.StepKeepsInv` | app/slay3rd/src/node.rs:934-1720 | every step of the node, at lock granularity and in any order, keeps the invariant that its state is the execution of its tip, its task is on a path to its target, and its staged roots and payload buffers are sound |
| `NodeSafety.RunKeepsInv` | app/slay3rd/src/node.rs:934-1720 | the same for every run from genesis |
| `NodeSafety.ResumeIsTip` | app/slay3rd/src/node.rs:429-440 | a restarted node resumes at exactly the tip it had executed |
| `NodeTheorems.HistoryIsOneChain` | app/slay3rd/src/node.rs:1269-1354 | in every run the executed payloads are one parent-linked, height-contiguous chain from genesis to the tip, each with the root of the state just before it |
| `NodeTheorems.SameTipSameState` | app/slay3rd/src/node.rs:1269-1354 | agreement: nodes of one genesis with the same tip digest have the same state, history and height |
| `NodeTheorems.StateIsReplay` | app/slay3rd/src/node.rs:1269-1354 | in every run from genesis the node's entries are the fold of the app over the blocks of the chain of its tip |
| `NodeTheorems.BlockExecutesIff` | app/slay3rd/src/node.rs:1269-1354 | one step of the execution loop runs the app on the payload's own transactions, next height, time and proposer, and moves the tip iff the height is next, the declared root is that of the entries, time does not go back and the app does not refuse |
| `NodeTheorems.OnlyExecutionMovesTip` | app/slay3rd/src/node.rs:1310-1354 | only the execution step of `finalize` moves the tip, and only to the next block on the path to its target |
| `NodeTheorems.ExecutedWasFinalized` | app/slay3rd/src/node.rs:934-1031 | every block ever executed is, or is an ancestor of, a digest `finalize` was called with |
| `NodeTheorems.HistoriesComparable` | app/slay3rd/src/node.rs:934-1031 | if all finalized digests of two nodes lie on one chain, one history is a prefix of the other |
| `NodeTheorems.TipOnlyGrows` | app/slay3rd/src/node.rs:1269-1354 | an earlier tip of a run is an ancestor of every later tip |
| `NodeTheorems.FinalizeExecutesPrefix` | app/slay3rd/src/node.rs:934-1031 | whatever runs in between, one call of `finalize(d)` executes a prefix of the path from its tip to `d`, oldest first and each once, and nothing off that path |
| `NodeTheorems.ReturnsIffArrived` | app/slay3rd/src/node.rs:934-1031 | `finalize(d)` returns a value iff it moved the tip to `d`, and then the height and timestamp of `d` |
| `NodeTheorems.ExecutableNeverHalts` | app/slay3rd/src/node.rs:934-1031 | for an executable descendant of the tip, a call stops early only when a payload on the path is still missing at the deadline |
| `NodeTheorems.ReplayNeverExecutes` | app/slay3rd/src/node.rs:934-1031 | a call for an already executed block never reaches the execution loop |
| `NodeStaging.StagedIsExecution` | app/slay3rd/src/node.rs:1210-1264 | a staging under a tip that stays, as `verify` has it, cached or fresh and whatever other tasks do between its reads, answers what really executing that parent on the tip leads to; the cache is never stale |
| `NodeStaging.StagedRootIsRun` | app/slay3rd/src/node.rs:1210-1264 | the root it answers is the root of the entries that running the parent's own transactions on the tip gives |
| `NodeStaging.SimulationSoundIff` | app/slay3rd/src/node.rs:1210-1264 | a finished simulation, on whatever executed state it ran, is the real post-state iff its payload claims the height just above its own parent |
| `NodeStaging.StagedSoundIffHeightFits` | app/slay3rd/src/node.rs:1409-1514 | a proposer's staging, hit or fresh, whatever ran between its four lock sections, answers the real post-state iff the parent claims the height just above the tip that was read |
| `NodeExamples.StaleStageHappens` | app/slay3rd/src/node.rs:1409-1514 | a run from genesis in which a stale staging answers a wrong root, afresh and then from the cache |
| `NodeStaging.StagedCommitsIffRootMatches` | app/slay3rd/src/node.rs:1210-1264 | a staged parent can be committed iff it also declares the state root of the tip, which staging does not look at |
| `NodeStaging.VerdictIsStable` | app/slay3rd/src/node.rs:1516-1616 | the verdict on a child is one and the same at every poll of a run that has a state to judge by: before its parent commits and after, from the cache or afresh |
| `NodeStaging.VerifyAcceptsIff` | app/slay3rd/src/node.rs:1516-1616 | a poll, its payload found before the tip is taken, accepts iff the parent is the tip, or held, next in height and executable, and the payload has the parent, height, root, time, proposer and size that the real state after that parent calls for |
| `NodeStaging.VerifiedWouldExecute` | app/slay3rd/src/node.rs:1516-1616 | what `verify` accepts passes the fail-stop checks of `finalize`: next height, and the root of the state its parent leads to |
| `NodeStaging.VerifyWaitsOnlyAbove` | app/slay3rd/src/node.rs:1516-1616 | `verify` goes on waiting with a payload it found only if that is above the tip |
| `NodeStaging.StaleVerdictIsFinal` | app/slay3rd/src/node.rs:1516-1616 | a payload refused as stale, unless executed already, is executed in no continuation of the run |
| `NodeStaging.OwnProposalVerifiesIffTimely` | app/slay3rd/src/node.rs:1409-1514 | a block built on the state after its parent passes every poll of `verify` that has that parent iff the block time is after the parent time and within the clock drift |
| `NodeStaging.OwnProposalExecutesIff` | app/slay3rd/src/node.rs:1409-1514 | a block built on the state its parent leads to executes iff the app runs the transactions it was given at the next height, and leads to what they make of that state |
| `NodeStaging.SizeIsSum` | app/slay3rd/src/node.rs:200-205 | the capped size of a block is the sum over its transactions |
| `NodeCertify.WalkStays` | app/slay3rd/src/node.rs:874-894 | whenever each block of the walk is looked up, the walk stays on the chain whose tip it read, one height per hop |
| `NodeCertify.GuardIsExact` | app/slay3rd/src/node.rs:874-894 | `Some(b)`, with any steps of other tasks between the tip read and each hop: b is whether the candidate is the executed block at its height, then and at every later point of the run |
| `NodeCertify.GuardSilentIff` | app/slay3rd/src/node.rs:874-894 | the guard gives no answer iff the candidate is above the tip it read, more than 8,192 below it, or a block of the walk was held neither in memory nor on disk |
| `NodeCertify.GuardAnswers` | app/slay3rd/src/node.rs:874-894 | on a disk whose writes succeed no block is missing to candidates within 8,192 of the tip, as long as no hop is made 65,536 blocks above the candidate |
| `NodeCertify.RivalCertifiedIff` | app/slay3rd/src/node.rs:1624-1720 | a rival of an executed block is certified iff its put succeeds and its height was still above the tip the guard read, or too deep below it, or a block of the walk was missing |
| `NodeCertify.CertifiesIff` | app/slay3rd/src/node.rs:1624-1720 | a call that found its payload answers true iff the payload is on disk already, there is no disk or the write succeeds, and it is the executed block of its height, or its height was still above the tip the guard read, or too deep below it, or a block of the walk was missing |
| `NodeCertify.HeldIsCertified` | app/slay3rd/src/node.rs:1624-1720 | liveness: a payload that reads back from disk and is no rival of an executed block is certified at every later call, whatever other tasks do |
| `NodeCertify.CertifyNeverBacksARival` | app/slay3rd/src/node.rs:1624-1720 | a rival of a block executed when the guard read the tip is certified only where the guard gives up, and never inside the windows of `NodeCertify.GuardAnswers` |
| `NodeExamples.RivalCertified` | app/slay3rd/src/node.rs:1624-1720 | a run from genesis in which a block executed between the tip read and the put makes the certified one a rival |
| `NodeCertify.CertifiedIsDurable` | app/slay3rd/src/node.rs:1640-1670 | true means on disk: the payload reads back right after the put |
| `NodeBuffers.AdmissionBounds` | app/slay3rd/src/node.rs:777-843 | one peer payload: it is inserted iff it is new, within limits, above the tip and asked for or within the unsolicited share; the buffer stays within max(old size, 16,384), an unsolicited insert keeps it within 15,360, only new unsolicited payloads are relayed, and at most one entry, of maximal height, is displaced |
| `NodeBuffers.ArrivalUsesMark` | app/slay3rd/src/node.rs:777-843 | an arrival raises the height hint and uses up its digest mark, or else its height mark, other tasks running between its lock sections |
| `NodeBuffers.EachReplyHasItsRequest` | app/slay3rd/src/node.rs:777-843 | two arrivals of one payload that both found its digest asked for had a request each |
| `NodeBuffers.SolicitedIsAdmitted` | app/slay3rd/src/node.rs:777-843 | a payload within limits and above the tip that was asked for is held once its arrival is through |
| `NodeBuffers.AdmissionsStayBounded` | app/slay3rd/src/node.rs:777-843 | over any run between restarts the buffer stays within max(old size, 16,384), not counting the payloads the node inserts itself |
| `NodeBuffers.RunKeepsBounded` | app/slay3rd/src/node.rs:1210-1264 | in every run the staged cache and the digest requests stay within their caps |
| `NodeEffects.ExecutedIsStored` | app/slay3rd/src/node.rs:1310-1354 | an executed block leaves the pending buffer and, its write succeeding, is what the disk serves for its digest and its height |
| `NodeEffects.FinalizeEndDrops` | app/slay3rd/src/node.rs:1019-1031 | a call that arrived drops from the buffer exactly what is at or below the tip, and from the disk exactly what is below the retention window |
| `NodeEffects.RestartRecovers` | app/slay3rd/src/node.rs:369-440 | after a restart a payload is pending iff it reads back from disk and is above the tip; marks and staged roots are forgotten |
| `NodeEffects.RequestIsRemembered` | app/slay3rd/src/node.rs:461-473 | a request is remembered, and forgets the others only at capacity |
| `NodeBuffers.MarksFollowBackfill` | app/slay3rd/src/node.rs:638-732 | between restarts the request marks of the node change only by a check, a request or a processed payload of that height, as the backfill model has it |
| `NodeBuffers.NodeRequestsArePaced` | app/slay3rd/src/node.rs:628-732 | in every node run, between restarts, from the stamp of a request for a height to the check of a tick that asks for it again at least 2 s pass, unless a payload of that height was processed in between |
| `NodeClass.LayerNode.constructor` | app/slay3rd/src/node.rs:369-440 | a fresh node is in the initial state of the machine |
| `NodeClass.LayerNode.AcceptPeerRelay` | app/slay3rd/src/node.rs:777-843 | the method, other tasks running between its five lock sections, performs the arrival the theorems speak of, with the furthest pending entry as the one displaced |
| `NodeClass.LayerNode.StagedParent` | app/slay3rd/src/node.rs:1210-1264 | payload, cache, app and cache again each under their own lock, other tasks running in between: the answer is that of the staging the theorems speak of |
| `NodeClass.LayerNode.StageForProposal` | app/slay3rd/src/node.rs:1409-1514 | the same for a proposer, which releases the tip before it stages |
| `NodeClass.LayerNode.Yield` | app/slay3rd/src/node.rs:934-1720 | what other tasks may do while a method holds no lock: any run of machine steps |
| `NodeClass.LayerNode.VerifyOnce` | app/slay3rd/src/node.rs:1516-1616 | one poll of `verify`, other tasks running before it takes the tip and, leaving the tip alone, after: its verdict is that of the poll the theorems speak of |
| `NodeClass.LayerNode.ConsistentWithExecutedChain` | app/slay3rd/src/node.rs:874-894 | the loop, other tasks running between its hops, computes the guard the theorems speak of |
| `NodeClass.LayerNode.CertifyOnce` | app/slay3rd/src/node.rs:1624-1720 | one poll of `certify` that finds its payload, other tasks running between lookup, guard and put, answers as the theorems have it |
| `NodeClass.LayerNode.BackfillTick` | app/slay3rd/src/node.rs:582-732 | the height half of a tick, other tasks running between its reads and marks: it marks, and if connected sends in ranges of at most 64, exactly what the theorems have it ask for |
| `NodeClass.LayerNode.ExecuteOne` | app/slay3rd/src/node.rs:1269-1354 | commit on top of the tip and advance it, or leave the node unchanged |
| `NodeClass.LayerNode.Walk` | app/slay3rd/src/node.rs:945-984 | the walk follows parent links to the tip while other tasks run between its polls |
| `NodeClass.LayerNode.ExecuteChain` | app/slay3rd/src/node.rs:985-1018 | the execution loop applies the collected blocks oldest first, re-checking height and state root |
| `NodeClass.LayerNode.Finalize` | app/slay3rd/src/node.rs:934-1031 | `finalize` with arbitrary interference: executed blocks are a prefix of the path, the result is present iff the tip became `d`, replays change nothing, and an executable descendant is reached unless a payload stays missing |
| `Backfill.MissingIsExact` | app/slay3rd/src/node.rs:638-687 | the strictly ascending list of exactly the heights in the look-ahead that are neither held nor in flight |
| `Backfill.CollectRuns` | app/slay3rd/src/node.rs:659-687 | the run-length loop yields that list as maximal runs: not empty, and a height that is not needed between any two |
| `Backfill.SplitRange` | app/slay3rd/src/node.rs:705-732 | a range becomes consecutive requests of at most 64 heights |
| `Backfill.SpendBudget` | app/slay3rd/src/node.rs:688-700 | the runs are cut to the budget of 128, lowest heights first |
| `Backfill.RequestsAreExact` | app/slay3rd/src/node.rs:628-732 | a tick asks, ascending and each once, for exactly the first min(128, n) of the n needed heights, in ranges of at most 64 |
| `Backfill.RequestsArePaced` | app/slay3rd/src/node.rs:628-732 | over any run of checks, requests and processed payloads, from a request for a height to the next check that finds none in flight 2 s pass, unless a payload of that height was processed in between |
| `Backfill.CheckExpires` | app/slay3rd/src/node.rs:654-664 | a check forgets exactly the marks that are 30 s old |
| `PayloadStore.GetReadsBack` | app/slay3rd/src/payload_store.rs:65-90 | a valid store returns a payload iff its digest is indexed, and then that payload |
| `PayloadStore.RunKeepsValid` | app/slay3rd/src/payload_store.rs:93-154 | in every run of put, put_executed and prune the digest index, the height index and the directory stay consistent |
| `PayloadStore.PutIsExact` | app/slay3rd/src/payload_store.rs:93-127 | a put succeeds iff the payload is indexed already, there is no disk or the write succeeds; on disk it makes exactly that payload readable, and a failure leaves both indexes as they were |
| `PayloadStore.PruneIsExact` | app/slay3rd/src/payload_store.rs:129-145 | payloads below the bound are gone and all others read back as before |
| `PayloadStore.AboveIsExact` | app/slay3rd/src/payload_store.rs:147-154 | a payload is listed iff it reads back and is above the height |
| `PayloadStore.ExecutedPayloadIsServed` | app/slay3rd/src/payload_store.rs:93-127 | the most recently executed payload of a height is what `get_by_height` returns until pruned, however many rivals are put |
| `PayloadStore.ReopenReadsBack` | app/slay3rd/src/payload_store.rs:45-63 | opening a sound directory gives a valid store in which every entry reads back whole |
| `PayloadStore.CrashDuringPutIsSafe` | app/slay3rd/src/payload_store.rs:109-127 | a crash between any two file operations of a put loses no stored payload and adds at most the new one |
| `PayloadStore.CrashDuringPruneIsSafe` | app/slay3rd/src/payload_store.rs:129-145 | a crash inside a prune keeps everything at or above the bound |
| `PayloadStore.LastListedWins` | app/slay3rd/src/payload_store.rs:45-63 | after reopening each height serves, of the files of that height, the one listed last |
| `PayloadStore.ServedAfterReopenIffAlone` | app/slay3rd/src/payload_store.rs:45-63 | the executed payload is served after every reopening iff no rival of its height is on disk |
| `PayloadStore.FileStore.Open` | app/slay3rd/src/payload_store.rs:45-63 | the indexing loop computes the indexes of the listing |
| `PayloadStore.FileStore.Store` | app/slay3rd/src/payload_store.rs:109-127 | `put_with`: known payloads are not rewritten, a failed write indexes nothing, an executed payload takes its height |
| `PayloadStore.FileStore.Prune` | app/slay3rd/src/payload_store.rs:129-145 | the loop removes exactly the payloads below the bound |
| `PayloadStore.FileStore.Above` | app/slay3rd/src/payload_store.rs:147-154 | exactly the stored payloads above a height, as a set |
| `Block.PayloadRoundTrip` | app/slay3rd/src/block.rs:14-54 | decoding inverts encoding, whatever bytes follow |
| `Block.PayloadInjective` | app/slay3rd/src/block.rs:43-62 | the encoded bytes determine the payload |
| `Block.StateRootIsLast` | app/slay3rd/src/block.rs:14-48 | the last 32 bytes of every encoded payload are its state root |
| `Merkle.PairUpKeepsTreeHash` | packages/app/src/app.rs:1572-1600 | pairing a level, odd node promoted, keeps the root of the recursive tree of section 2.1 of RFC 6962 |
| `Merkle.SmallTrees` | packages/app/src/app.rs:1572-1600 | the roots of no, one, two and three leaves, spelled out: prefixes 0 and 1, and the odd node promoted |
| `Merkle.BuildRoot` | packages/app/src/app.rs:1572-1600 | the level-by-level loop computes that root |
| `Merkle.AnchorRoot` | app/claw-core/src/anchor.rs:31-49 | so does the loop of the transcript anchor |
| `Merkle.BuildPath` | packages/app/src/app.rs:1603-1636 | the loop collects the sibling path, promotions marked |
| `Merkle.ComputeRoot` | contracts/light-client/src/merkle.rs:30-50 | the proof walk of the light client |
| `Merkle.PathProvesLeaf` | contracts/light-client/src/merkle.rs:30-143 | for every leaf the walk over the built path reaches the built root |
| `Merkle.Explain` | contracts/light-client/src/merkle.rs:30-50 | soundness: data whose walk reaches the root of a list is in the list, or two distinct strings with one hash are returned |
| `Merkle.Compare` | app/claw-core/src/anchor.rs:21-49 | equal anchor roots: equal ordered id lists, or a collision is returned |
| `StateRoot.MergeIsScan` | packages/app/src/app.rs:1375-1412 | merging the committed scan with a block's writes is the scan of the written store |
| `StateRoot.ScanExists` | packages/app/src/app.rs:1357-1374 | every store has one scan and only one |
| `StateRoot.PendingExists` | packages/app/src/app.rs:1375-1412 | the final operations of every block have an ascending list |
| `StateRoot.RootWithPending` | packages/app/src/app.rs:1375-1412 | the two-cursor loop computes the root of the merged leaves |
| `StateRoot.IncrementalRootIsScanRoot` | packages/app/src/app.rs:1357-1412 | for every store and every sequence of writes the incremental root equals the full-scan root |
| `StateRoot.SidecarsDoNotCount` | packages/app/src/app.rs:1357-1374 | writes to the sidecar tables never change the root |
| `StateRoot.SameStateRoot` | packages/app/src/app.rs:1357-1374 | equal roots of two scans: the same entries' bytes in the same order, or a collision is returned |
| `StateRoot.FoldIntoIndex` | packages/app/src/app.rs:756-775 | the commit branch folds the writes into the leaf index |
| `StateRoot.IndexStaysWarm` | packages/app/src/app.rs:756-775 | after a commit the index is the index of the new store |
| `Varint.WriteUvarint` | contracts/light-client/src/verify.rs:57-69 | the loop writes the minimal LEB128 form |
| `Varint.ReadUvarint` | contracts/light-client/src/verify.rs:72-88 | the loop reads as the recursive decoder does, at most ten bytes |
| `Varint.PutVarint` | contracts/light-client/src/wasmstore.rs:39-50 | the second writer emits the same bytes |
| `Varint.ReadVarint` | contracts/light-client/src/wasmstore.rs:66-82 | the second reader accepts the same bytes |
| `Varint.DecodeEncode` | contracts/light-client/src/verify.rs:57-88 | reading inverts writing on every u64 and consumes exactly what was written |
| `Varint.DecodeCut` | contracts/light-client/src/verify.rs:72-88 | a varint cut short never reads |
| `Proposal.ParseProposal` | contracts/light-client/src/verify.rs:94-115 | the parser computes the decoder |
| `Proposal.DecodeInvertsEncode` | contracts/light-client/src/verify.rs:94-115 | an encoded proposal followed by extra bytes is accepted iff there are none, and decodes to itself |
| `Proposal.DecodeRejectsPrefixes` | contracts/light-client/src/verify.rs:94-115 | every strict prefix is rejected |
| `Proposal.UnionUniqueInjective` | contracts/light-client/src/verify.rs:48-54 | the signed bytes determine namespace and message |
| `Hex.RoundTrip` | contracts/light-client/src/contract.rs:195-205 | hexadecimal text decodes to the bytes it was made from |
| `WasmStore.GetLenField` | contracts/light-client/src/wasmstore.rs:85-121 | the scan loop computes the field lookup, unknown fields of wire types 0, 1, 2 and 5 skipped |
| `WasmStore.GetWritten` | contracts/light-client/src/wasmstore.rs:52-121 | a written field is found by its number and skipped whole under any other |
| `WasmStore.GetSkipsNumber` | contracts/light-client/src/wasmstore.rs:85-121 | a number field is skipped whole |
| `WasmStore.GetSkipsFixed` | contracts/light-client/src/wasmstore.rs:85-121 | so are eight bytes of wire type 1 and four of wire type 5, and fewer end the search |
| `WasmStore.ChainReadsClientState` | contracts/light-client/src/wasmstore.rs:123-139 | from a stored client state the chain reads the data, the checksum and both numbers of the latest height, a number left out being zero |
| `WasmStore.ConsensusKeyInjective` | contracts/light-client/src/wasmstore.rs:31-36 | heights have distinct storage keys, none the client-state key |
| `WasmStore.HostStorage.SaveClientState` | contracts/light-client/src/wasmstore.rs:162-173 | the stored bytes are the two nested wrappers |
| `WasmStore.HostStorage.LoadClientState` | contracts/light-client/src/wasmstore.rs:175-190 | loading reads both layers, and tells a missing key from a missing layer |
| `WasmStore.HostStorage.SaveConsensusState` | contracts/light-client/src/wasmstore.rs:192-205 | one key is written |
| `WasmStore.HostStorage.MayLoadConsensusState` | contracts/light-client/src/wasmstore.rs:207-221 | an absent key is no state, an entry that does not parse an error |
| `WasmStore.LoadAfterSaveClient` | contracts/light-client/src/wasmstore.rs:132-190 | load after save returns the same state and checksum, empty or not, and no consensus state changes |
| `WasmStore.LoadAfterSaveConsensus` | contracts/light-client/src/wasmstore.rs:141-221 | load after save returns the same state; no other height and no client state changes |
| `LightClient.SudoKeepsInv` | contracts/light-client/src/contract.rs:139-260 | every sudo call keeps: no consensus state above the latest height, the latest one present, and extends what was stored |
| `LightClient.VerifiesIff` | contracts/light-client/src/verify.rs:117-159 | a header verifies iff key and certificate have their lengths and lie on their curves, the proposal decodes and the pairing holds over the finalize namespace, spelled out, and the proposal |
| `LightClient.InstantiatesIff` | contracts/light-client/src/contract.rs:24-57 | `instantiate` succeeds iff the key is hexadecimal for 96 bytes, and stores what it was given |
| `LightClient.SudoIsExact` | contracts/light-client/src/contract.rs:139-260 | every message, answer and write, field by field: what an update stores and when the latest height moves, the height a freeze records, the two messages that only ever fail, and that an error writes nothing |
| `LightClient.ResentIsAccepted` | contracts/light-client/src/contract.rs:80-161 | a header that was accepted is accepted again and changes nothing |
| `LightClient.OkMeans` | contracts/light-client/src/contract.rs:139-260 | at every point of every run after `instantiate` an `Ok` is a header certified under the initial key, a conflict that freezes, an accepted proof whose bytes are an entry or show a collision, or a migration; never non-membership or an upgrade |
| `LightClient.RunExtends` | contracts/light-client/src/contract.rs:139-260 | between any two points of any run: the latest height never decreases, stored digests never change, the key is fixed, and once frozen nothing is written |
| `LightClient.EquivocationGuardIsDead` | contracts/light-client/src/contract.rs:80-117 | in every reachable storage the equivocation guard cannot fire |
| `LightClient.DigestsAreCertified` | contracts/light-client/src/contract.rs:139-161 | every stored digest is the initial one or was certified under the trusted key by a header that its submitter labelled with that height |
| `LightClient.StorableAtAnyHeightIff` | contracts/light-client/src/contract.rs:60-161 | the label is not signed: one certificate can be stored at every height of the revision above the latest, iff it verifies |
| `LightClient.ClientHistory` | contracts/light-client/src/contract.rs:24-260 | at every point of every run after `instantiate` the storage is sound and extends every earlier one, each digest is the initial one or certified, and the client is frozen only from the start or by two conflicting headers |
| `LightClient.KeyIsFixed` | contracts/light-client/src/contract.rs:139-260 | the trusted key never changes |
| `LightClient.MembershipIff` | contracts/light-client/src/contract.rs:179-245 | a proof is accepted iff there is a state for the height, the payload bytes have its digest, every given sibling is 32 bytes, and the walk up from the leaf of the joined key path and value ends in the last 32 bytes of the payload |
| `LightClient.ConcatJoins` | contracts/light-client/src/contract.rs:218-226 | a key path is its parts joined in order |
| `LightClient.ExplainMembership` | contracts/light-client/src/contract.rs:179-245 | soundness end to end: an accepted proof against a digest of a payload with the root of a scan yields an entry with exactly those bytes, or two strings with one hash |
| `LightClient.HonestProofAccepted` | contracts/light-client/src/contract.rs:179-245 | completeness: the served proof of an entry is accepted for every key and value that together spell its bytes |
| `LightClient.BoundaryIsNotCommitted` | contracts/light-client/src/merkle.rs:16-22 | the split between key and value is not committed: a concrete pair that is accepted and not stored |
| `LightClient.BindsIffRemaindersStored` | contracts/light-client/src/contract.rs:179-245 | exactly when a key binds: every pair an accepted proof establishes for it is a stored entry, or else a collision is at hand, iff every entry whose bytes begin with the key has its remainder stored under it |
| `LightClient.PrefixFreeBinds` | contracts/light-client/src/merkle.rs:16-22 | in particular when no other entry begins with the key |
| `LightClient.FrozenOnlyByConflict` | contracts/light-client/src/contract.rs:118-178 | a client freezes only on two headers certified under its key for different payloads that agree in their signed round or in the height they are labelled with |
| `LightClient.FreezesIff` | contracts/light-client/src/contract.rs:118-178 | a pair of headers leaves the client frozen iff it was, or they are such a pair, labelled with its revision |
| `LightClient.SomeLabelsFreezeIff` | contracts/light-client/src/contract.rs:118-178 | two certificates can be labelled so as to freeze an unfrozen client iff both verify and their payloads differ, whatever their rounds |
| `LightClient.AnyLabelsFreezeIff` | contracts/light-client/src/contract.rs:118-178 | they do so under every two labels of the revision iff their signed rounds are equal too |
| `Evidence.EvidenceIffSameRound` | contracts/light-client/src/contract.rs:118-137 | two conflicting certificates prove, whoever cast the votes behind them, that more than f of n shares voted twice in a round iff the rounds they sign are equal |
| `Evidence.FrozenOnOneRoundConvicts` | contracts/light-client/src/contract.rs:118-178 | with certificates that verify only for a quorum, a client frozen on one signed round convicts more than f shares |
| `Evidence.HonestRoundsFreeze` | contracts/light-client/src/contract.rs:118-178 | an instantiated client frozen by the certificates of two honest rounds, in which no share voted twice |
| `LightClient.Contract.Instantiate` | contracts/light-client/src/contract.rs:24-57 | storage after instantiation, or an error and no change |
| `LightClient.Contract.CheckMembership` | contracts/light-client/src/contract.rs:179-245 | the membership check with its loops computes the specified verdict |
| `LightClient.Contract.Handle` | contracts/light-client/src/contract.rs:139-260 | the handler refines the sudo transition |
| `LightClientBytes.SudoBytesRefines` | contracts/light-client/src/wasmstore.rs:132-221 | one sudo call on the raw host bytes, with an invertible JSON layer, answers and writes as the call on the states they represent |
| `LightClientBytes.RunBytesRefines` | contracts/light-client/src/wasmstore.rs:132-221 | so does every run, so the results above hold of what the host stores |
| `LightClientBytes.InstantiateRepresents` | contracts/light-client/src/wasmstore.rs:132-205 | instantiation writes bytes that represent the state it specifies |
| `SigLog.RecoversIffLoggable` | app/slay3rd/src/hybrid_scheme.rs:243-262 | the log recovers everything written iff no message exceeds 4,096 bytes |
| `SigLog.LongMessageHidesRest` | app/slay3rd/src/hybrid_scheme.rs:243-262 | a record of a longer message hides itself and every record after it from the reader |
| `SigLog.RecordIsLost` | app/slay3rd/src/hybrid_scheme.rs:243-262 | a log of a 4,097-byte message and a short one recovers nothing |
| `SigLog.ParseTorn` | app/slay3rd/src/hybrid_scheme.rs:243-262 | a record cut short anywhere is not read |
| `SigLog.SnapshotReplays` | app/slay3rd/src/hybrid_scheme.rs:298-323 | compaction changes nothing that is recovered |
| `SigLog.NextKeepsInv` | app/slay3rd/src/hybrid_scheme.rs:272-338 | signing, failed appends, compactions and crashes keep the file in step with the cache |
| `SigLog.OpenEstablishesInv` | app/slay3rd/src/hybrid_scheme.rs:243-262 | whatever bytes the file holds, `open` starts with cache and file in step |
| `SigLog.CrashSafe` | app/slay3rd/src/hybrid_scheme.rs:243-338 | after any run reopening rebuilds exactly the cache, or the cache and the one record in flight |
| `SigLog.ReleasedIsRecorded` | app/slay3rd/src/hybrid_scheme.rs:492-512 | a signature newly released is in the file, and so is a cached one while no append has failed |
| `SigLog.SignReleasesIff` | app/slay3rd/src/hybrid_scheme.rs:492-512 | a recorded message gets its recorded signature; else what was drawn is released iff no write failed before, the append succeeds, and so does a compaction when one is due |
| `SigLog.LogStaysBounded` | app/slay3rd/src/hybrid_scheme.rs:272-283 | while no rewrite fails the file never holds more than twice `cap` records |
| `SigLog.RememberAges` | app/slay3rd/src/hybrid_scheme.rs:285-294 | a new record evicts an entry iff that makes it `cap` records old |
| `SigLog.SignatureIsStable` | app/slay3rd/src/hybrid_scheme.rs:272-338 | a recorded message keeps its signature across any events until `cap` newer messages are recorded |
| `SigLog.ResignReturnsSameBytes` | app/slay3rd/src/hybrid_scheme.rs:492-512 | so re-signing it returns the same bytes, whatever the signer would draw |
| `SigLog.EncodeEntries` | app/slay3rd/src/hybrid_scheme.rs:298-306 | the rewrite loop writes the retained entries, oldest first |
| `SigLog.SigCache.Open` | app/slay3rd/src/hybrid_scheme.rs:243-262 | `open` rebuilds the cache from the file, missing or not, and rewrites it; it fails iff the file cannot be read or rewritten |
| `SigLog.SigCache.ReadRecords` | app/slay3rd/src/hybrid_scheme.rs:251-260 | the loop replays whole records until one is torn or too long |
| `SigLog.SigCache.RememberEntry` | app/slay3rd/src/hybrid_scheme.rs:285-294 | the loop trims to `cap`, oldest first |
| `SigLog.SigCache.InsertEntry` | app/slay3rd/src/hybrid_scheme.rs:272-283 | append, remember, compact past twice the cap; a failed write poisons the log |
| `SigLog.SigCache.SignOnce` | app/slay3rd/src/hybrid_scheme.rs:492-512 | cached, or drawn, recorded and then released |
| `Mempool.RunKeepsCaps` | app/slay3rd/src/mempool.rs:113-151 | in every reachable pool arrivals ascend, hashes are distinct and all four caps hold |
| `Mempool.AcceptedIffFits` | app/slay3rd/src/mempool.rs:113-151 | a submission is accepted iff the pool with it has distinct hashes and keeps every cap |
| `Mempool.RefusedIff` | app/slay3rd/src/mempool.rs:113-151 | the refusal given is the first that applies: too large, 8 MiB for stored code and the cap for others; known; as many pending of the sender as allowed; or one of the pool caps |
| `Mempool.PendingIsAcceptedNotRemoved` | app/slay3rd/src/mempool.rs:113-238 | pending is exactly what was accepted and not removed since |
| `Mempool.SizeIsAcceptedLessRemoved` | app/slay3rd/src/mempool.rs:113-238 | its size is the number accepted less the number removed |
| `Mempool.IndexInvertsOrder` | app/slay3rd/src/mempool.rs:62-79 | `index` and `order` are inverse |
| `Mempool.WithoutTotals` | app/slay3rd/src/mempool.rs:215-233 | a removal lowers count, bytes and its sender's count by exactly its share |
| `Mempool.Mempool.constructor` | app/slay3rd/src/mempool.rs:82-100 | an empty pool |
| `Mempool.Mempool.SubmitChecked` | app/slay3rd/src/mempool.rs:113-151 | the four refusals in order; the four maps and counters stay mirrors of one list, with true sums and per-sender counts and no zero entries |
| `Mempool.Mempool.Remove` | app/slay3rd/src/mempool.rs:215-233 | the same for a removal |
| `Mempool.Mempool.RemoveCommitted` | app/slay3rd/src/mempool.rs:236-238 | removes every listed hash and counts those that were pending |
| `Mempool.Mempool.PeekBatch` | app/slay3rd/src/mempool.rs:167-212 | queues, head set and budgets emit exactly the specified batch, and nothing changes |
| `Queues.Build` | app/slay3rd/src/mempool.rs:172-181 | every pending transaction is queued once, under its sender or its hash |
| `Queues.SortAll` | app/slay3rd/src/mempool.rs:182-186 | each queue is put in (sequence, arrival) order |
| `Queues.HeadIsNext` | app/slay3rd/src/mempool.rs:188-204 | the smallest queue head is the transaction the reference order emits next |
| `Queues.Merge` | app/slay3rd/src/mempool.rs:188-212 | the merge loop terminates and refines the reference order under both budgets |
| `Batch.DrainIsWhole` | app/slay3rd/src/mempool.rs:188-204 | the order emits every pending transaction, none twice |
| `Batch.DrainIsByDue` | app/slay3rd/src/mempool.rs:188-204 | merging by head arrival is sorting by due time, the latest arrival up to there in the queue |
| `Batch.DrainKeepsQueueOrder` | app/slay3rd/src/mempool.rs:188-204 | a queue is emitted in ascending (sequence, arrival) |
| `Batch.PeekIsMaximal` | app/slay3rd/src/mempool.rs:167-212 | distinct pending transactions within both budgets; when fewer than `max_txs`, none left out still fits |
| `Batch.PeekFollowsDrain` | app/slay3rd/src/mempool.rs:167-212 | the batch is a subsequence of the order of emission |
| `Batch.TakenIffFits` | app/slay3rd/src/mempool.rs:188-212 | a pending transaction is in the batch iff, next to those taken before it in the order of emission, both budgets still have room for it |
| `Batch.PeekKeepsSenderOrder` | app/slay3rd/src/mempool.rs:167-212 | a sender's transactions stand in ascending (sequence, arrival) |
| `Batch.PeekKeepsArrivalOrder` | app/slay3rd/src/mempool.rs:167-212 | transactions without metadata stand in arrival order, when no sender is named like a pending hash |
| `Batch.ContiguousIff` | app/slay3rd/src/mempool.rs:157-166 | senders come out contiguously, as documented, iff no other transaction falls due between two of theirs |
| `Batch.BatchesContiguousIff` | app/slay3rd/src/mempool.rs:157-212 | the same of what `peek_batch` returns, over all budgets |
| `Batch.InterleavingHappens` | app/slay3rd/src/mempool.rs:157-212 | three concrete transactions whose batch is not contiguous |
| `Events.MatchNamesChannel` | app/claw-core/src/filter.rs:49-90 | an event with one `h` value that matches a one-channel filter is indexed under that channel |
| `Events.TagValueIsATag` | app/claw-core/src/event.rs:113-121 | `tag_value` is the value of a tag of that name, and absent iff there is none |
| `RelayStore.RangeHoldsChannel` | app/claw-relay/src/store.rs:15-22 | the scanned range holds every key of the channel, NUL bytes or not, but the very last one |
| `RelayStore.PutKeepsValid` | app/claw-relay/src/store.rs:79-100 | events sit under their ids and the index holds exactly the keys of events that name a channel |
| `RelayStore.PutAllValid` | app/claw-relay/src/store.rs:79-100 | the same for every store built by puts |
| `RelayStore.FirstPutStays` | app/claw-relay/src/store.rs:79-100 | the store holds, of all events put, exactly the first with each id that parses |
| `RelayStore.PutIsExact` | app/claw-relay/src/store.rs:79-100 | a put is refused iff the id does not parse, new iff no event with that id was put before, and adds that event or nothing |
| `RelayStore.SortByTimeSorts` | app/claw-relay/src/store.rs:129-146 | the stable sort by time of a list whose ties stand in id order sorts by (time, id) |
| `RelayStore.AnsweredIffDue` | app/claw-relay/src/store.rs:104-147 | the full scan answers exactly the stored matching events with fewer than the limit newer ones |
| `RelayStore.QueryIsExact` | app/claw-relay/src/store.rs:104-147 | the full scan answers an event iff it is stored, has a wanted id prefix, author, kind and channel and lies within the times of the filter, and fewer than the limit of those are newer |
| `RelayStore.IndexEqualsScanIff` | app/claw-relay/src/store.rs:104-147 | for every store, filter and channel both paths answer the same list iff the range comes by every event that is due, and none of its second with a smaller id has a key past it |
| `RelayStore.PathsAgreeIff` | app/claw-relay/src/store.rs:104-147 | among names none of which goes on after another with a NUL byte: iff every event that is due is indexed under the channel and is not at the very top |
| `RelayStore.StrayNeedsNul` | app/claw-relay/src/store.rs:15-22 | a key of another channel falls into the range only if one name continues the other with a NUL byte |
| `RelayStore.IndexEqualsScan` | app/claw-relay/src/store.rs:104-147 | so with one `h` value per event they agree iff the limit is 0 or no matching event sits at the last instant under the last id |
| `RelayStore.TopEventIsMissed` | app/claw-relay/src/store.rs:104-147 | a relay that took one such event: the two answers differ |
| `RelayStore.SecondChannelIsMissed` | app/claw-relay/src/store.rs:79-147 | a relay that took one event of two channels: the answers for the second differ |
| `RelayStore.AnswerIsNewestMatching` | app/claw-relay/src/store.rs:104-147 | stored matching events, newest first; one is omitted only past the limit and is then older than all answered |
| `RelayStore.Relay.PutEvent` | app/claw-relay/src/store.rs:79-100 | bad id refused, known id ignored, else stored and indexed |
| `RelayStore.Relay.Query` | app/claw-relay/src/store.rs:104-147 | both paths with their loops compute the specified answers |
| `Window.FetchWindow` | app/claw-checkpoint/src/window.rs:39-65 | the paging loop computes the backward walk, or fails iff a request it makes fails |
| `Window.WalkHolds` | app/claw-checkpoint/src/window.rs:39-65 | everything fetched is in the channel and in the window |
| `Window.RequestsCount` | app/claw-checkpoint/src/window.rs:39-65 | the walk makes no request for an empty window, as many as its full pages need, and never more than allowed |
| `Window.CompleteIffClean` | app/claw-checkpoint/src/window.rs:39-65 | the whole window is fetched iff no page cut splits a second and the pages suffice |
| `Window.SplitSecondLosesEvent` | app/claw-checkpoint/src/window.rs:39-65 | with more events in one second than a page holds, every page source that keeps its promise leaves one unfetched |
| `Window.EventIsLost` | app/claw-checkpoint/src/window.rs:39-65 | for instance 201 events put into a relay: at the page size of the source, one never comes out of its own pages |
| `Window.RelayServes` | app/claw-relay/src/store.rs:104-147 | the answers of the relay keep the promise the walk relies on |
| `Package.GoodIdDecodes` | app/claw-checkpoint/src/package.rs:64-68 | an id passes the check iff it decodes to 32 bytes |
| `Package.OrderedHolds` | app/claw-checkpoint/src/package.rs:69-76 | deduplication keeps the last event seen with each id |
| `Package.DedupeAndSort` | app/claw-checkpoint/src/package.rs:69-76 | map and sort compute the ordered list |
| `Package.FindCut` | app/claw-checkpoint/src/package.rs:78-92 | the loop finds the largest whole-second prefix that fits |
| `Package.LargestIsLargest` | app/claw-checkpoint/src/package.rs:78-92 | it ends a second and fits, and no longer one does |
| `Package.RefusedIffFirstSecondTooLarge` | app/claw-checkpoint/src/package.rs:93-98 | nothing can be anchored iff the first second alone exceeds the cap |
| `Package.CutEndsAtNext` | app/claw-checkpoint/src/package.rs:102-112 | a cut package ends at the time of the first event left out |
| `Package.PackageCovers` | app/claw-checkpoint/src/package.rs:55-142 | a package holds, in order, exactly the events before its end; they fit, and no longer run of whole seconds does |
| `Package.PackageEnd` | app/claw-checkpoint/src/package.rs:102-117 | an uncut package ends at the requested end; a cut one earlier, at an event left out |
| `Package.PackageIsExact` | app/claw-checkpoint/src/package.rs:99-142 | a package is a run of the window from its earliest event on, starts at that event's time, counts the bytes of its contents, is marked cut iff events were left out, and if not ends after the last event or at the requested end |
| `Package.RefusedIff` | app/claw-checkpoint/src/package.rs:55-98 | refused iff the window is empty, or some id is bad, and then the first of them is named, or the first second alone exceeds the cap |
| `Package.SameRoot` | app/claw-checkpoint/src/package.rs:119-129 | two packages, of any windows, caps and ends, with one root hold the same ids in the same order, or a collision is returned |
| `Package.BuildPackage` | app/claw-checkpoint/src/package.rs:55-142 | the whole computation, errors included |
| `Checkpoint.Daemon.RunChannel` | app/claw-checkpoint/src/main.rs:201-296 | one pass: quiet windows advance to `to`, a verified package moves the cursor to its end, and a failed request, refused or unverified package, or failed save leaves it |
| `Checkpoint.PassCovers` | app/claw-checkpoint/src/main.rs:201-296 | a pass that moves the cursor moves it strictly forward, not past `to`, over a window whose package is exactly its events |
| `Checkpoint.PassMovesIff` | app/claw-checkpoint/src/main.rs:201-296 | a pass moves the cursor iff the window is due, no request failed and the state was saved, and there was nothing to anchor or the package was built and its anchor read back |
| `Checkpoint.WindowsAreAnchored` | app/claw-checkpoint/src/main.rs:201-296 | over any run every window is that of a pass that saved its state and, if it has a package, saw the anchor read back |
| `Checkpoint.UncoveredStays` | app/claw-checkpoint/src/main.rs:201-296 | every other pass leaves cursor and windows as they were |
| `Checkpoint.WindowsTile` | app/claw-checkpoint/src/main.rs:201-296 | over any run the windows are adjacent, half-open, not empty and exact, up to the cursor |
| `Checkpoint.EveryEventOnce` | app/claw-checkpoint/src/main.rs:201-296 | every event between the start and the cursor is in exactly one package, and no other event is in any |
| `Checkpoint.RelayAnchoredOnce` | app/claw-checkpoint/src/main.rs:201-296 | the same from relay to anchors: over any valid relay store, with ids determining events by construction |

## Left out

- BLS pairings, MAYO, Schnorr and SHA-256 are uninterpreted functions and predicates. Shares and
  votes appear in `Evidence` only, where a certificate stands for a quorum of votes.
- The wasm app, bank, auth and transaction parsing are one deterministic transition that
  fails unless the height is the next one, with a root that is a function of the state.
- The consensus engine: that finalized digests lie on one chain is a stated hypothesis of
  `NodeTheorems.HistoriesComparable`; which digests are finalized is arbitrary elsewhere.
- Networking, gRPC, HTTP, logging, configuration, boot guards, state sync, finality records
  and the transaction index.
- JSON and serde are not modelled; `LightClientBytes` takes any JSON layer whose reading
  inverts its writing.
- In the node: the throttle of `ensure_executed`, the mempool, index and pruning side effects
  of executing a block, fault injection, the restart anchor, and the waiting loops of `verify`
  and `certify`, which are one step per poll.
- Heights, arrival numbers, timestamps and counters are unbounded naturals, so a wrap of a
  64-bit counter is not modelled. Sums that the source saturates are saturated.
- NodeTheorems.HistoryIsOneChain: the app's record of payloads is never pruned, as on an
  archive node; the claim about the chain of the tip does not depend on that record.
- NodeSafety.StepKeepsInv: moving the tip, storing the executed payload and dropping it from
  the pending buffer are one step, and so are the two reads of a payload lookup and the
  clean-up that ends `finalize`.
- NodeCertify.GuardAnswers: for candidates and hops within the two windows it names, and for
  disks on which storing an executed payload succeeds; `NodeCertify.GuardSilentIff` covers the
  rest.
- NodeClass.LayerNode.BackfillTick: the height half of the tick; the queue of certified
  digests and its requests are not modelled. The heights held on disk are read at one instant,
  and one clock reading serves a whole check.
- PayloadStore.FileStore.Open: files whose names do not parse, and ignored file-removal
  errors, are not modelled.
- PayloadStore.FileStore.Above: digests are symbolic, so the digest order in which the source
  lists the payloads is not modelled.
- WasmStore.GetLenField: on the 32-bit target the sum of an index and a length near 4 GiB
  wraps; here it is refused. No writer of the contract produces such a length.
- WasmStore.LoadAfterSaveClient: for contents below 4 GiB, the range in which lengths are
  the same on 32-bit and 64-bit hosts.
- LightClientBytes.RunBytesRefines: for states whose encodings stay below that size.
- SigLog.CrashSafe: for messages of at most 4,096 bytes, as `SigLog.RecoversIffLoggable`
  shows it must be.
- SigLog.SigCache.InsertEntry: a rewrite that fails after its rename is not modelled.
- Batch.PeekKeepsArrivalOrder: for pools in which no sender is named like the hexadecimal
  hash of a transaction pending without metadata; such a sender would share its queue.
- `channel_window` of the relay store, which nothing calls.
- Window.CompleteIffClean: the channel's events do not change between two pages.
- Checkpoint.WindowsTile: a fixed channel in which an id determines its event; an event that
  arrives behind the cursor is not anchored, as in the source.
- Checkpoint.EveryEventOnce: counts the packages of windows the cursor moved over; an anchor
  that is posted but not read back, or whose state is not saved, is posted again.
- Checkpoint.Daemon.RunChannel: posting and the paged read-back are one flag per pass, and
  checkpoint signatures and receipts, written after the cursor moves, are not modelled, nor
  is the reference of an anchor to the one before it.
