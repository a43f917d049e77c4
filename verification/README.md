# PiEngine in Dafny

A model of the engine that computes π by Chudnovsky binary splitting: the arithmetic, the staged parallel
splitter, crash-safe checkpoints, out-of-core spilling, the concurrent queue, pool and writer, and the
integrity layer. `dafny verify dfyconfig.toml` checks all of it.

The parts meet in one statement. `Recovery.RunUntilDone` starts from any checkpoint directory without wrong
blocks, runs the engine with any executor, task order, memory budget and checkpoint interval, cuts runs short
by a crash at any system call or by a failure, damages or loses files in between, and restarts through the
resume planner. The first run that finishes returns exactly the node that plain recursion computes for
[0, termCount), and a run in which no call fails does finish (`Recovery.RunOnce`). What that node means is proved below it: T/Q is the Chudnovsky partial sum, a planned term
count truncates far below the last kept digit, and the final integer lies within half a unit of its last digit,
and a slack of at most a hundred-millionth of that, of the value that the partial sum of any greater number of
terms gives (`FixedPoint.SeriesDigits`). What "a block file" is there, `BlockFiles` says in bytes.

How the model is laid out:

- Arithmetic: `Chudnovsky`, `ChudnovskySeries`, `Powers`, `PrecisionPolicy`, `FixedPoint`, `BinaryNodes`.
  GMP integers are `int`.
- Splitter: `Schedule`, `SplitLayout`, `BinarySplitter`. An executor is an arbitrary order of the staged tasks.
- Checkpoints: `Disk` is a directory that can lose power, with one state per system call; `AtomicFileCommit`,
  `FrontierWriter`, `ManifestValidator`, `ResumePlanner`, `CheckpointSafety`, `Recovery` and `CrashLoss` are built
  on it.
- Storage: `StorageManager`, `NodeLifecycle`, `Eviction`, `StorageMergeCoordinator`.
- Concurrency: `LockFreeQueue`, `ThreadPool`, `AsyncWriter`. Every atomic operation and every critical section
  is one step; the state is a value (`View`), the invariant is proved step by step on it, and a class carries
  out the steps in place.
- Integrity: `Crc32c`, `ByteFields`, `BlockFormat`, `BlockCodec`, `BlockValidator`, `BlockIntegrity`,
  `GmpSerialization`, `BlockPath`, `ModularVerifier`, `Sha256Words`, `Sha256`. `BlockFiles` joins it to the
  checkpoints.

Where the code and its promises part:

- `LockFreeQueue::push` may return false although the queue is not full. `BehindPush` says exactly when a push is
  refused, `RefusedAndNotFull` that there is room then if and only if a pop has claimed the cell and not yet given
  it back, and `RefusePushWithRoom` gets there: two pushes, half a pop, and a refused push at capacity two. With
  nothing in flight it means full (`QuietPush`). `position % capacity` is continuous only while tickets do not
  wrap, so the model carries the limit tickets + capacity < 2^63.
- The block encoder does not check the tree level, the validator does: `EncodingIsAcceptable` is the exact
  condition.
- An index entry survives `observeResidentNodes` if and only if it is not that of a tracked node whose file is
  still there (`Observe`). So what the index file listed when the process began survives with its file
  (`ObserveBesideLeftover`), and so does an entry whose file had vanished (`ObserveAfterLoss`). Storing on a newly
  observed level then fails, if nothing else interrupts it, if and only if a chosen location is already indexed
  or overlaps an indexed one of its level (`Spill`).
- A crash can cost finished work, never correctness: if the manifest was renamed into place, the directory sync
  failed and the process was started again, a power failure takes the manifest back (`UnsettledLosesWork`). From a
  directory without wrong blocks, whichever way a crash decides and however what it leaves is planned, a term stays
  covered if and only if every manifest that may come up lists a durable block for it; no two entries may share a file
  name for that term (`LostExactlyWhen`). Throughout a run that found the manifest and the accepted blocks durable,
  and no manifest naming the manifest file itself as a block, no crash loses a term (`CrashLosesNoTerm`). Every crash
  and every published commit leave such a start, whatever temporary files and deletions are pending
  (`CrashIsSettled`, `PublishedIsSettled`), and so, for the blocks published before, does a process that ends while
  new ones are being written (`WritingIsSettled`).
- `multiplyDivideCeil` would return too small a value for a divisor and multiplier so large that the product of
  the remainder wraps (`WrappedProductIsTooSmall`); `MultiplyDivideCeilExact` has the exact condition, which both
  callers meet.

## Model

| member | source | states |
|---|---|---|
| `Chudnovsky.JoinAssociative` | src/binary/BinarySplitter.cpp:264-331 | merging P/Q/T is associative, so the shape of the merge tree does not matter |
| `Chudnovsky.HalvingIsSplit` | src/binary/BinarySplitter.cpp:107-142 | recursion by halving gives the same P, Q, T as taking the terms one by one |
| `Chudnovsky.SplitAppend` | src/binary/BinarySplitter.cpp:107-142 | the split of a range is the merge of the splits of any two adjacent parts |
| `Chudnovsky.SplitPositive` | src/binary/BinarySplitter.cpp:29-142 | P and Q of every non-empty range are positive, so no finished node is taken for a spilled one and Q can be divided by |
| `ChudnovskySeries.TermIdentity` | README.md:54-60 | P(0,k+1) (3k)! (k!)^3 640320^(3k) = Q(0,k+1) (6k)! for every k: the split products are the factorial quotient of the series |
| `ChudnovskySeries.SplitIsPartialSum` | README.md:54-60 | T(0,N)/Q(0,N) is the N-term Chudnovsky sum, as a real number |
| `ChudnovskySeries.TailBound` | src/binary/BinarySplitter.cpp:29-91 | the alternating tail over any range has the sign of its first term and is bounded by it |
| `ChudnovskySeries.TAgainstQ` | src/chudnovsky/ChudnovskyCalculator.cpp:65-101 | 13591408 Q <= T <= 13591409 Q for every N >= 1 |
| `ChudnovskySeries.LeafConvergence` | src/chudnovsky/PrecisionPolicy.cpp:57-127 | each term shrinks by at least 151931373056000 |
| `ChudnovskySeries.PrefixConvergence` | src/chudnovsky/PrecisionPolicy.cpp:57-127 | Q(0,n) >= 151931373056000^n P(0,n) up to the first term |
| `ChudnovskySeries.TruncationBound` | src/chudnovsky/PrecisionPolicy.cpp:57-127 | if Q(0,n) outgrows P(0,n) by a scale, the sums of n and of any more terms differ by less than the first omitted coefficient over that scale |
| `PrecisionPolicy.MultiplyDivideCeilExact` | src/chudnovsky/PrecisionPolicy.cpp:29-52 | for all 64-bit arguments: a value is the exact ceiling of value * multiplier / divisor if and only if the remainder's product does not wrap, and too small otherwise; a reported overflow is one |
| `PrecisionPolicy.QuotientFits` | src/chudnovsky/PrecisionPolicy.cpp:29-52 | the division test for overflow is exact |
| `PrecisionPolicy.CreateExact` | src/chudnovsky/PrecisionPolicy.cpp:57-127 | a request is accepted exactly when digits are positive, guards at least 16 and the bit estimate fits; the plan holds the exact ceilings |
| `PrecisionPolicy.MillionTerms` | src/chudnovsky/PrecisionPolicy.cpp:57-127 | 151931373056000^1000000 >= 10^14181647 by chained squarings |
| `PrecisionPolicy.PlanConverges` | src/chudnovsky/PrecisionPolicy.cpp:57-127 | every accepted plan has Q(0,termCount) >= 10^workingDigits P(0,termCount) |
| `PrecisionPolicy.PlanTruncation` | src/chudnovsky/PrecisionPolicy.cpp:57-127 | adding any number of terms to an accepted plan changes the sum by less than the working precision |
| `FixedPoint.FinalizeFixedPoint` | src/chudnovsky/ChudnovskyCalculator.cpp:65-101 | the in-place integer steps compute the rounded quotient, and report a zero divisor and an exponent overflow |
| `FixedPoint.RootBracket` | src/chudnovsky/ChudnovskyCalculator.cpp:65-101 | what flooring the root costs, times q |
| `FixedPoint.NodeError` | src/chudnovsky/ChudnovskyCalculator.cpp:65-101 | for T large against Q, the final integer times 10^g differs from 10^W 426880 sqrt(10005) Q/T by at most 5 * 10^(g-1) and one, stated with squares |
| `FixedPoint.FinalDigitsError` | src/chudnovsky/ChudnovskyCalculator.cpp:65-101 | the same for the node of every accepted plan, with no condition left |
| `FixedPoint.SeriesDigits` | src/chudnovsky/ChudnovskyCalculator.cpp:65-101 | and the same against the partial sum of every number of terms from the planned one on, with a slack of at most a hundred-millionth of half a unit: truncation and rounding together |
| `FixedPoint.PlanFinalizes` | src/chudnovsky/ChudnovskyCalculator.cpp:65-101 | finalising the node of an accepted plan never divides by zero |
| `ComputationIdentity.ValidIsPlanned` | src/checkpoint/CheckpointTypes.cpp:10-89 | an identity is valid exactly when it is the identity of the plan of its own digits |
| `CheckpointTypes.ComputeMaximumTreeLevel` | src/checkpoint/CheckpointBlockValidator.cpp:78-92 | the doubling loop with its overflow guard returns the least level whose power of two reaches the term count |
| `BinaryNodes.MakeChudnovskyLeaf` | src/binary/BinarySplitter.cpp:29-91 | the in-place products are the leaf formula, with the sign of odd terms |
| `BinaryNodes.Merge` | src/binary/BinarySplitter.cpp:264-331 | refuses ranges that do not meet, otherwise the P/Q/T merge computed with one temporary |
| `BinaryNodes.MergeOfSplits` | src/binary/BinarySplitter.cpp:264-331 | merging two nodes of plain recursion gives a node of plain recursion |
| `BinaryNodes.SplitSequential` | src/binary/BinarySplitter.cpp:344-359 | refuses an empty range, otherwise returns the split of it |
| `BinaryNodes.SplitSequentialValidated` | src/binary/BinarySplitter.cpp:107-142 | the recursion on halves computes the split of the range |
| `SplitLayout.SortAndValidateFrontier` | src/binary/BinarySplitter.cpp:210-260 | accepts a seed frontier in any order exactly when its nodes have values and lie disjoint inside the range |
| `SplitLayout.BlockCountBounds` | src/binary/BinarySplitter.cpp:162-181 | the number of blocks is at least one and at most the terms |
| `SplitLayout.AppendGap` | src/binary/BinarySplitter.cpp:453-481 | a gap is cut into non-empty blocks that cover it exactly, in order |
| `SplitLayout.LayOutFrontier` | src/binary/BinarySplitter.cpp:440-500 | seeds and gap blocks tile the whole range, and the pending blocks hold exactly the uncovered terms |
| `Schedule.StageOrder` | src/binary/BinarySplitter.cpp:506-535 | accepted, refused and drained tasks together run each task of a stage once, in some order |
| `BinarySplitter.CreditIsOrderFree` | src/binary/BinarySplitter.cpp:506-535 | any order of the blocks credits the observer with the same number of terms |
| `BinarySplitter.ComputeBlocks` | src/binary/BinarySplitter.cpp:506-547 | whatever the order of the tasks, every slot ends with the split of its block |
| `BinarySplitter.NextLevelIsFrontier` | src/binary/BinarySplitter.cpp:571-655 | merging pairs, an odd last node carried over, keeps a complete frontier of split nodes |
| `BinarySplitter.MergeLevel` | src/binary/BinarySplitter.cpp:571-655 | one merge level in any task order, with its tree levels never above the maximum |
| `BinarySplitter.FrontierIsResumable` | src/checkpoint/CheckpointFrontierWriter.cpp:69-222 | every frontier the splitter hands over passes all checks of the writer |
| `BinarySplitter.CommitStage` | src/binary/BinarySplitter.cpp:549-569 | a commit inside a run keeps the directory true at every state, and recoverable if the run began so |
| `BinarySplitter.CompleteStage` | src/binary/BinarySplitter.cpp:549-569 | observe, commit and spill after a level leave the frontier to be merged next intact or report which step failed; none fails as long as no call fails, no chunk is lost and the store has room, except a commit that is refused |
| `BinarySplitter.SplitParallel` | src/binary/BinarySplitter.cpp:380-655 | for every range, options, executor, order, seed frontier, spilling and checkpointing: the node of plain recursion, credit for exactly the uncovered terms, rejection exactly of invalid arguments, safe directory states throughout; every valid call returns the node as long as no call to disk or chunk store fails, no chunk is lost, the store has room and the writer is for this computation |
| `ManifestValidator.Sweep` | src/checkpoint/CheckpointManifestValidator.cpp:100-193 | the one-pass sweep that remembers the furthest end rejects exactly the entries that intersect another eligible entry |
| `ManifestValidator.Validate` | src/checkpoint/CheckpointManifestValidator.cpp:59-212 | accepts exactly the isolated eligible entries in order; no diagnostics if and only if the list is an exact frontier of the expected computation |
| `ManifestValidator.AcceptedAndMissingPartition` | src/checkpoint/CheckpointManifestValidator.cpp:100-193 | accepted and missing ranges tile [0, termCount) in order |
| `ManifestValidator.TilesCoverOnce` | src/checkpoint/CheckpointManifestValidator.cpp:100-193 | in such a tiling every term is in exactly one accepted or missing range |
| `Disk.CrashPicks` | src/checkpoint/AtomicFileCommit.cpp:154-226 | a crash leaves one of the possible states of each name, and then only that one |
| `AtomicFileCommit.CreateTempPath` | src/checkpoint/AtomicFileCommit.cpp:78-116 | a fresh temporary name within 128 attempts, no final name touched |
| `AtomicFileCommit.WriteAll` | src/checkpoint/AtomicFileCommit.cpp:119-149 | short writes are continued until every byte is there, or it fails |
| `AtomicFileCommit.Write` | src/checkpoint/AtomicFileCommit.cpp:154-226 | at every system call the destination is untouched or completely new and no other final name changes; success means durable, and failure that a call failed |
| `AtomicFileCommit.AtomicAfterCrash` | src/checkpoint/AtomicFileCommit.cpp:154-226 | after a crash in the middle the destination is what it could have been before, or the whole new file |
| `FrontierWriter.CheckEntries` | src/checkpoint/CheckpointFrontierWriter.cpp:26-66 | the constructor accepts exactly ordered, disjoint, acceptable entries |
| `FrontierWriter.Open` | src/checkpoint/CheckpointFrontierWriter.cpp:26-66 | a writer is opened if and only if the identity is valid and the entries, in any order, are acceptable, listed once and apart |
| `FrontierWriter.BuildCandidate` | src/checkpoint/CheckpointFrontierWriter.cpp:69-222 | the reuse walk finds every block that is already published, and no other |
| `FrontierWriter.WalkFinds` | src/checkpoint/CheckpointFrontierWriter.cpp:69-222 | moving only forward from the last hit loses no match |
| `FrontierWriter.FrontierWriter.Examine` | src/checkpoint/CheckpointFrontierWriter.cpp:69-222 | refused only if the frontier cannot be resumed from, skipped only by the interval and never for the last node, already published only if every block is |
| `FrontierWriter.FrontierWriter.SaveBlocks` | src/checkpoint/CheckpointFrontierWriter.cpp:69-222 | new blocks go to new names one by one; the old manifest and the files of its blocks are not touched |
| `FrontierWriter.FrontierWriter.SaveManifest` | src/checkpoint/CheckpointFrontierWriter.cpp:69-222 | while the manifest is replaced the files of the published blocks are not touched, so those that were durable stay so; the new blocks are durable |
| `FrontierWriter.FrontierWriter.RemoveSuperseded` | src/checkpoint/CheckpointFrontierWriter.cpp:69-222 | only blocks the new manifest does not name are deleted |
| `FrontierWriter.FrontierWriter.CommitFrontier` | src/checkpoint/CheckpointFrontierWriter.cpp:69-222 | every directory state of a commit is safe: no published block's file is touched until the new manifest is durable, so what was durable stays so; new blocks are held as soon as it may come up; no other file is touched; fields change only on success, and an I/O failure means that a call failed |
| `ResumePlanner.Inspect` | src/checkpoint/CheckpointFileInspector.cpp:36-122 | an entry is accepted exactly when its file is a block of its place, the entry describes it and its residues are right |
| `ResumePlanner.Complement` | src/checkpoint/CheckpointResumePlanner.cpp:33-56 | for blocks in any order, overlapping or not: separate ranges that hold exactly the terms no block covers |
| `ResumePlanner.Create` | src/checkpoint/CheckpointResumePlanner.cpp:86-240 | everything accepted is sound, isolated and stays in place; every sound isolated block is accepted if no other entry has its file name; only rejected files ever leave the directory; exactly the terms no accepted block covers are to be recalculated |
| `CheckpointSafety.CommitKeepsTruth` | src/checkpoint/CheckpointFrontierWriter.cpp:85-221 | no state of a commit holds a wrong block |
| `CheckpointSafety.CommitIsRecoverable` | src/checkpoint/CheckpointFrontierWriter.cpp:85-221 | at every state of a commit of a writer whose published blocks were durable, whichever manifest comes up has all its blocks |
| `CheckpointSafety.CrashKeepsTruth` | src/checkpoint/AtomicFileCommit.cpp:154-226 | a crash cannot create a wrong block |
| `Recovery.Resume` | src/main.cpp:85-175 | the planned frontier is a valid seed frontier of true nodes and the writer opens on it; with the manifest and the accepted blocks durable every state of the planning is recoverable |
| `Recovery.RunOnce` | src/main.cpp:85-260 | one process from any directory without wrong blocks: a returned node is plain recursion over [0, termCount), the writer never refuses, no state holds a wrong block; and the node is returned as long as no call fails and the chunk store, if there is one, is empty and has room |
| `Recovery.CrashLosesNoTerm` | src/checkpoint/CheckpointResumePlanner.cpp:86-240 | at any moment of a run that found its manifest and accepted blocks durable, whatever a crash leaves: a term covered when the run began is covered by the next plan, if no two entries of the manifest share a file name for it |
| `CrashLoss.CrashIsSettled` | src/checkpoint/AtomicFileCommit.cpp:154-226 | a crash leaves such a start to the next run |
| `CrashLoss.PublishedIsSettled` | src/checkpoint/CheckpointFrontierWriter.cpp:69-222 | so does every state after a published commit |
| `CrashLoss.WritingIsSettled` | src/checkpoint/CheckpointFrontierWriter.cpp:69-222 | and, for the blocks published before, every state while new blocks are written |
| `CrashLoss.CoveredIsCoverable` | src/checkpoint/CheckpointResumePlanner.cpp:86-240 | a plan covers a term if and only if the directory holds a sound block for it that its manifest lists alone under its name |
| `CrashLoss.PlanExists` | src/checkpoint/CheckpointResumePlanner.cpp:86-240 | every directory has a plan |
| `CrashLoss.UnsettledLosesWork` | src/checkpoint/AtomicFileCommit.cpp:154-226 | a start, after a failed directory sync, from which a crash loses everything |
| `CrashLoss.LostExactlyWhen` | src/checkpoint/CheckpointResumePlanner.cpp:86-240 | for every directory without wrong blocks and every term that no manifest lists twice under one file name: every plan after every crash covers the term if and only if every manifest that may come up lists a durable block for it |
| `Recovery.RunUntilDone` | src/checkpoint/CheckpointResumePlanner.cpp:86-240 | any number of crashed, failed, damaged and resumed runs: the first answer is plain recursion |
| `StorageManager.StorageManager.Store` | src/storage/StorageManager.cpp:32-83 | stored exactly if a file and an index entry result; what was readable stays readable |
| `StorageManager.StorageManager.Load` | src/storage/StorageManager.cpp:85-101 | a load returns exactly the values of the indexed chunk, and does return them if no indexed chunk has been lost and the file can be read |
| `StorageManager.StorageManager.PublishStore` | src/storage/StorageManager.cpp:26-83 | an index entry appears only for a file that is there, and the in-flight mark goes |
| `StorageMergeCoordinator.RunWrites` | src/storage/StorageMergeCoordinator.cpp:238-397 | writes interleaved step by step in any order: each ends, a stored one is readable with its own values, nothing else is lost or added |
| `StorageMergeCoordinator.StorageMergeCoordinator.Observe` | src/storage/StorageMergeCoordinator.cpp:30-82 | every node of a valid level becomes resident; an index entry stays if and only if it is not that of a tracked node whose file is still there, and the files of the others stay |
| `StorageMergeCoordinator.ObserveBesideLeftover` | src/storage/StorageMergeCoordinator.cpp:30-82 | an entry the index listed when the process began survives the observation of every valid level with its file, and its location cannot be stored again |
| `StorageMergeCoordinator.ObserveAfterLoss` | src/storage/StorageMergeCoordinator.cpp:30-82 | so does an entry whose file has vanished |
| `StorageMergeCoordinator.StorageMergeCoordinator.Spill` | src/storage/StorageMergeCoordinator.cpp:238-397 | a node is cleared only once its values are indexed; on a freshly observed level the plan succeeds, the budget is met and no choice of fewer nodes would do; uninterrupted, it fails if and only if the index refuses a chosen location |
| `StorageMergeCoordinator.StorageMergeCoordinator.Prepare` | src/storage/StorageMergeCoordinator.cpp:104-236 | after a successful reload every node equals the node observed before the spill; it succeeds unless a chunk was lost or a read failed |
| `StorageMergeCoordinator.FreshPlan` | src/storage/ChunkStore.cpp:321-397 | on a fresh level the plan frees enough, with the fewest nodes |
| `Eviction.EvictUntilBudgetSatisfied` | src/storage/ChunkStore.cpp:321-397 | the shortest prefix of the ordered candidates that frees the needed bytes, or all |
| `Eviction.FreshPlanSucceeds` | src/storage/ChunkStore.cpp:321-397 | when all distances are equal and bytes suffice, the greedy plan satisfies the budget |
| `Eviction.FreshPlanIsSmallest` | src/storage/ChunkStore.cpp:321-397 | then no smaller choice of nodes frees the needed bytes |
| `LockFreeQueue.CompareSequenceIsOrder` | src/scheduler/LockFreeQueue.cpp:21-48 | the wrapping difference orders sequence numbers while they are less than 2^63 apart |
| `LockFreeQueue.LockFreeQueue.Step` | src/scheduler/LockFreeQueue.cpp:88-247 | every atomic step of any thread keeps the invariant: one ticket per claim, positions at most a capacity apart, one owner per claimed cell |
| `LockFreeQueue.LockFreeQueue.Run` | src/scheduler/LockFreeQueue.cpp:88-247 | in every interleaving the pop of ticket k returns the task pushed with ticket k, once |
| `LockFreeQueue.BehindPush` | src/scheduler/LockFreeQueue.cpp:88-164 | a push finds its cell behind if and only if its position is current and the ticket one lap earlier is not fully removed |
| `LockFreeQueue.RefusedAndNotFull` | src/scheduler/LockFreeQueue.cpp:88-164 | at a refusal there is room if and only if a pop has claimed that ticket |
| `LockFreeQueue.RefusePushWithRoom` | src/scheduler/LockFreeQueue.cpp:88-164 | steps from an empty queue of two to a push refused with room |
| `LockFreeQueue.BehindPop` | src/scheduler/LockFreeQueue.cpp:167-247 | a pop finds its cell behind if and only if its position is current and the queue is empty or the next push is unfinished |
| `LockFreeQueue.CheckEmptyOk` | src/scheduler/LockFreeQueue.cpp:249-295 | `empty` answers yes if and only if there is nothing a pop could take; if no, the task it saw is queued or just being taken |
| `LockFreeQueue.QuietPush` | src/scheduler/LockFreeQueue.cpp:88-164 | with nothing in flight, refused if and only if full |
| `LockFreeQueue.QuietPop` | src/scheduler/LockFreeQueue.cpp:167-247 | with nothing in flight, nothing found if and only if empty |
| `LockFreeQueue.LockFreeQueue.Push` | src/scheduler/LockFreeQueue.cpp:88-164 | alone, a push appends unless full |
| `LockFreeQueue.LockFreeQueue.Pop` | src/scheduler/LockFreeQueue.cpp:167-247 | alone, a pop takes the oldest unless empty |
| `LockFreeQueue.Create` | src/scheduler/LockFreeQueue.cpp:53-85 | a queue exists exactly for capacities from 2 to the largest difference |
| `LockFreeQueue.RunAlone` | src/scheduler/ReferenceQueue.cpp:14-61 | on every sequence of operations that do not overlap, the ticket queue answers as the bounded reference queue |
| `ThreadPool.Conservation` | src/scheduler/ThreadPool.cpp:179-256 | outstanding = queued globally + queued in the deques + in workers' hands + mid-submit, in every reachable state |
| `ThreadPool.CountedKeeps` | src/scheduler/ThreadPool.cpp:179-256 | counting a submission keeps the invariant that accounts for every outstanding task by one place |
| `ThreadPool.TakenLocalKeeps` | src/scheduler/Worker.cpp:115-228 | taking the newest own or stealing the oldest of another deque moves one task into one pair of hands |
| `ThreadPool.StartedKeeps` | src/scheduler/Task.cpp:40-96 | the compare-and-swap runs a task at most once |
| `ThreadPool.ThreadPool.PushSubmitted` | src/scheduler/ThreadPool.cpp:179-256 | a counted task ends in a queue and is accepted, or is refused and will be uncounted |
| `ThreadPool.ThreadPool.StopStep` | src/scheduler/ThreadPool.cpp:102-176 | when the last worker has been joined nothing is outstanding and the pool is drained |
| `ThreadPool.StoppedIsDrained` | src/scheduler/ThreadPool.cpp:301-319 | a stopped pool has empty queues, idle workers and executed every accepted task exactly once |
| `ThreadPool.ThreadPool.Run` | src/scheduler/ThreadPool.cpp:102-319 | so in every interleaving of submits, local pushes, steals, executions and stop |
| `AsyncWriter.Conservation` | src/storage/AsyncWriter.cpp:68-375 | accepted = queued + in hand + stored + failed + cancelled |
| `AsyncWriter.AllLeft` | src/storage/AsyncWriter.cpp:171-375 | when every worker has left, every accepted request is terminal and the counters are exact |
| `AsyncWriter.AsyncChunkWriter.Submit` | src/storage/AsyncWriter.cpp:171-254 | refused when stopped or full, else queued under the next number |
| `AsyncWriter.AsyncChunkWriter.CancelRequest` | src/storage/AsyncWriter.cpp:171-254 | exactly a request still queued is cancelled |
| `AsyncWriter.AsyncChunkWriter.BeginShutdown` | src/storage/AsyncWriter.cpp:171-254 | draining keeps the queue, otherwise exactly the queued requests are cancelled |
| `AsyncWriter.AsyncChunkWriter.Run` | src/storage/AsyncWriter.cpp:171-375 | in every interleaving the queue is bounded, nothing accepted is lost, and all-workers-gone means all terminal |
| `Crc32c.CreateTable` | src/checkpoint/CRC32C.cpp:23-43 | each entry is eight division steps on its index |
| `Crc32c.ByteByTable` | src/checkpoint/CRC32C.cpp:98-116 | one table look-up over the shifted register is eight message bits |
| `Crc32c.CalculateByTable` | src/checkpoint/CRC32C.cpp:98-116 | the table loop computes the bit-serial checksum |
| `Crc32c.WordBits` | src/checkpoint/CRC32C.cpp:49-86 | the bits of a little-endian word are the message bits of its bytes |
| `Crc32c.CalculateByWords` | src/checkpoint/CRC32C.cpp:49-86 | so do the loops over words of 8, 4, 2 and 1 bytes |
| `Crc32c.ChecksumOfParts` | src/checkpoint/CRC32C.cpp:98-116 | continuing from a previous checksum gives the checksum of the whole, for every cut |
| `Crc32c.BurstChangesChecksum` | src/checkpoint/CRC32C.cpp:23-116 | any change within 32 consecutive message bits changes the checksum |
| `Crc32c.FourBytesChangeChecksum` | src/checkpoint/CRC32C.cpp:23-116 | in particular within four consecutive bytes |
| `GmpSerialization.ExportMagnitude` | src/checkpoint/GMPSerialization.cpp:42-63 | the buffer is filled with the minimal big-endian bytes |
| `GmpSerialization.SizeIsMinimal` | src/checkpoint/GMPSerialization.cpp:30-39 | the bit count gives the minimal byte count |
| `GmpSerialization.DecodeEncode` | src/checkpoint/GMPSerialization.cpp:12-125 | decoding an encoded integer gives it back |
| `GmpSerialization.EncodeDecode` | src/checkpoint/GMPSerialization.cpp:66-125 | only canonical signs and magnitudes are accepted |
| `BlockFormat.EncodingIsAccepted` | src/checkpoint/CheckpointBlockCodec.cpp:224-403 | the bytes of every valid block are accepted and say that block |
| `BlockFormat.AcceptedIsEncoding` | src/checkpoint/CheckpointBlockCodec.cpp:224-403 | accepted bytes are the one encoding of the valid block they say |
| `BlockCodec.BlockChecksum` | src/checkpoint/CheckpointBlockCodec.cpp:29-51 | three calculations in a row are the checksum of the block with its slot cleared, on any processor |
| `BlockCodec.CheckedPayloadSize` | src/checkpoint/CheckpointBlockCodec.cpp:98-118 | the sum, refused exactly when header and payload exceed 64 bits |
| `BlockCodec.Encode` | src/checkpoint/CheckpointBlockCodec.cpp:224-290 | refuses exactly invalid or oversized blocks; appending field after field and storing the checksum last gives the canonical bytes |
| `BlockCodec.Decode` | src/checkpoint/CheckpointBlockCodec.cpp:293-403 | the sequential reader accepts exactly the byte strings of the format and returns their block; an error names a defect they have |
| `BlockCodec.DecodeEncoded` | src/checkpoint/CheckpointBlockCodec.cpp:224-403 | encode, then decode: the block comes back |
| `BlockCodec.EncodeDecoded` | src/checkpoint/CheckpointBlockCodec.cpp:224-403 | decode, then encode: the bytes come back |
| `BlockValidator.CheckIntegers` | src/checkpoint/CheckpointBlockValidator.cpp:97-213 | the loop over signs and lengths finds exactly the canonical magnitudes |
| `BlockValidator.Validate` | src/checkpoint/CheckpointBlockValidator.cpp:97-213 | the offset-based parser accepts exactly what the decoder accepts with the expected identity and a tree level within the maximum; a rejection reason is true of the bytes |
| `BlockValidator.EncodingIsAcceptable` | src/checkpoint/CheckpointBlockValidator.cpp:97-213 | an encoded valid block passes if and only if its tree level is possible |
| `BlockIntegrity.AlteredIsRejected` | src/checkpoint/CheckpointBlockCodec.cpp:352-363 | an accepted block altered in up to four neighbouring bytes, on one side of the end of the checksum slot, is not accepted |
| `BlockIntegrity.AlteredByteIsRejected` | src/checkpoint/CheckpointBlockCodec.cpp:352-363 | every single altered byte is noticed |
| `BlockFiles.WrittenReadsBack` | src/checkpoint/CheckpointFileInspector.cpp:36-122 | the encoding of a node's block reads back as that block, with the size and checksum its entry records |
| `BlockFiles.SoundIsOfBytes` | src/checkpoint/ManifestEntryValidator.cpp:33-133 | an entry is sound if and only if the bytes of its file pass the validator, it describes them, and P, Q and T have the right residues |
| `BlockFiles.AlteredIsUnsound` | src/checkpoint/CheckpointFileInspector.cpp:36-122 | with one byte altered nothing is sound there |
| `BlockFiles.AlterationKeepsTruth` | src/checkpoint/CheckpointFileInspector.cpp:36-122 | so altering bytes of a block file leaves a directory without wrong blocks, from which recovery starts |
| `BlockPath.BlockNameOneToOne` | src/checkpoint/CheckpointStore.cpp:26-49 | a block name determines identity and location |
| `BlockPath.ManifestNameOneToOne` | src/checkpoint/CheckpointStore.cpp:133-150 | a manifest name determines the identity |
| `BlockPath.TempNameOneToOne` | src/checkpoint/AtomicFileCommit.cpp:78-116 | different sequence numbers give different temporary names |
| `BlockPath.KindsOfNamesDiffer` | src/checkpoint/CheckpointStore.cpp:26-150 | block, manifest and temporary names never meet |
| `ModularVerifier.NoOverflow` | src/checkpoint/ModularPQTVerifier.cpp:28-35 | products of residues fit 64 bits |
| `ModularVerifier.CalculateIsSplit` | src/checkpoint/ModularPQTVerifier.cpp:48-120 | the residue recursion computes the residues of the true split values, no intermediate wrapping |
| `ModularVerifier.AllPrimesIsProduct` | src/checkpoint/ModularPQTVerifier.cpp:28-181 | congruent for all three primes is congruent for their product |
| `ModularVerifier.Validate` | src/checkpoint/ModularPQTVerifier.cpp:134-181 | accepts a block of valid identity and range if and only if P, Q, T are congruent to the true values modulo the product of the primes |
| `Sha256Words.FillFromItself` | src/verification/SHA256.cpp:211-228 | the schedule filled in place, added in the order of the source, is the recurrence of section 6.2.2 |
| `Sha256Words.Transform` | src/verification/SHA256.cpp:211-269 | the loop on eight working variables is the compression of section 6.2.2 |
| `Sha256.PaddedOneToOne` | src/verification/SHA256.cpp:112-148 | different messages are padded differently |
| `Sha256.Context.Update` | src/verification/SHA256.cpp:56-100 | absorbs the bytes, or refuses after finalization or beyond the length limit and changes nothing |
| `Sha256.Context.Finalize` | src/verification/SHA256.cpp:112-148 | the digest of everything fed, padded as in section 5.1.1, in one or two last blocks; the same on every call |
| `Sha256.HashParts` | src/verification/SHA256.cpp:56-148 | every way of cutting a message into updates gives the digest of the whole message |

## Left out

- GMP, LZ4, POSIX beyond the directory steps, and the SSE4.2 instructions themselves: integers are `int`, compression only contributes a stored size, the CRC instruction is the bit-serial step over its word.
- The C++ memory model: each atomic operation and each critical section is one step. Liveness and fairness are not stated.
- FrontierWriter.FrontierWriter.CommitFrontier: the checksum is any function of the block, of which `BlockFiles.ChecksumOf` is one; a file is a block, a manifest or damage the validators detect; reading an intact file does not fail. That old blocks are durable is stated for a writer that found them so; that they are not touched, for every writer.
- FrontierWriter.FrontierWriter.SaveManifest, CheckpointSafety.CommitIsRecoverable, BinarySplitter.CommitStage: likewise only if the published blocks were durable when the writer was opened.
- BlockFiles.WrittenReadsBack: blocks of 2^64 bytes and more, which the encoder refuses, are not told apart in the directory model.
- ResumePlanner.Create: a sound isolated block that shares its file name with another entry may be quarantined with it, as in the source; nothing is stated about it.
- ResumePlanner.Complement: blocks lie within the computation, as the inspection before has made sure.
- Recovery.CrashLosesNoTerm: speaks of runs that found the manifest and the accepted blocks durable; for any other directory, and so for any moment of a run, `CrashLoss.LostExactlyWhen` is exact.
- CrashLoss.LostExactlyWhen: manifests with two entries of one file name for the term are not covered; there the plan depends on which of the two is rejected and whether its file can be moved away.
- Recovery.RunOnce: recoverability of every state is stated for starts whose manifest does not list the manifest file itself as a block.
- LockFreeQueue.LockFreeQueue.Run: tickets plus capacity stay below 2^63.
- LockFreeQueue.LockFreeQueue.Push: alone, the compare-exchange does not fail spuriously; in `Step` it may.
- LockFreeQueue.LockFreeQueue.Pop: as for the push.
- Eviction.EvictUntilBudgetSatisfied: distances are real numbers, so NaN and infinities do not occur, and the order of equal candidates is left open instead of being fixed by the chunk id.
- StorageManager.StorageManager.Store: one computation identity, compressed sizes as an arbitrary function, and the index file is not persisted.
- BinarySplitter.SplitParallel: that it returns with a chunk store is stated for stores that list nothing of the range from before and take every node of it as a chunk. Observer callbacks other than the credit and cancellation are not modelled.
- ThreadPool.ThreadPool.Run: thread creation does not fail, and waiting for capacity is a refused step that is tried again.
- BlockIntegrity.AlteredIsRejected: alterations that reach from the checksum slot into the signs are not covered.
- Sha256: reading a file prefix in pieces and the hexadecimal form.
- NodeLifecycle and the write lifecycle are modelled on values, without the error texts.
- The manifest and verification-manifest codecs and the chunk codec, which repeat the shape of the block codec; the versioned chunk index.
- Quarantine file names and clocks, progress and timing counters, command line, configuration, reports, benchmarks and the floating-point BBP check.
