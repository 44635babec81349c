# Verified models of the debugger bridge's cores

Dafny models of the parts of this repository whose correctness is hardest to see, with the properties their
documentation and tests promise. `dafny verify dfyconfig.toml` checks the whole project.

| files | what they model |
|---|---|
| `MutationState`, `MutationCoordinator`, `MutationInvariant`, `MutationProgress`, `MutationProtocol`, `MutationGuarantees` | the mutation lease and permit coordinator |
| `ByteRing`, `CommandLine`, `Base64`, `EnvironmentBlock` | the launch core |
| `StdinPump` | the protocol between writers, the stdin worker, close and stop |
| `CoverageBlocks`, `CoverageGraph`, `CoverageLaws`, `CoverageInterleaving`, `CoverageFlags`, `CoverageSchedules`, `Folds` | coverage reconstruction from instruction tapes |
| `AdmissionQueue` | the fair admission queue of the request dispatcher |
| `LittleEndian`, `Relocations`, `ImageLayout` | undoing base relocations in a dumped image |
| `HttpText`, `HttpParser`, `HttpFraming`, `HttpGuarantees` | the HTTP request parser |
| `ExceptionPolicy`, `PolicyMerge`, `PolicySelection` | the exception policy |
| `Topology` | the order of the fixture corpus |
| `Options`, `Sequences`, `Text` | what several of these use |

## How the models are built

Where the program changes objects or buffers in place, the model is a class or a method over an array. Each such method
is proved equal to a function of the old state (`View()`, a ghost stream, `a[..]`), and the properties are proved of that
function: invariants of every operation, and lemmas about whole histories, which are sequences of states and calls.
Loops keep their shape, with the invariants that connect them to the functions.

**Mutation coordinator.** Every public call is one atomic step whose clock reading is an input: a failed reading, a
regressing one or any later tick. A history mixes all calls on the coordinator with begins, commits, abandons,
destructions and moves of any number of handles. The main results: in every reachable state a permit in flight is
unleased with no lease active or pins the active lease; a handle is open exactly when the slot holds its number; a commit
that succeeds excludes every other commit, emergency and session change since its begin; commits are numbered without a
gap; and a lease revision below the last one pins the lease and the tombstone. The conditions for success of acquire,
renew, release, begin and commit are stated as equivalences.

**Launch core.** The ring is compared with the unbounded stream of what was appended, also while it is driven by appends
and by a reader that follows its cursor, the command line with the rules of
Microsoft's "Parsing C command-line arguments", Base64 with its own injective encoding, and the environment block with
the loop that captures an environment.

**Stdin pump.** The locked regions are atomic steps. `WriteFile` is a step that may write any part, fail with or without
effect, or be cancelled; a stop can come at any time and the worker may see it early or late.

**Coverage.** The blocks of a thread are specified twice: by the rule that extends the last block, and as the only way to
cut the thread's events into maximal straight runs. Interleavings are compared through the bag of block executions and
the bag of transitions. What depends on the order of the threads is compared over the orders that interleavings reach,
which are all orders.

**HTTP.** A grammar of requests is given apart from the parser, and the parser accepts exactly its texts.

## Findings

- `MutationGuarantees.RestoredSessionReportsEmergency`: the comment at `src/mutation_transaction_core.hpp:246-249` says
  that a permit's commit after a session replacement fails with `SessionChanged`. If the old session was restored
  meanwhile, the code answers `EmergencyInvalidated`. The model follows the code.
- `MutationProtocol.RevisionPinsExactlyWhen`: a lease revision does not always pin the lease. At revision 2^64-1 a lease
  that comes to its deadline ends without a new revision, and the coordinator then reports exhaustion to everyone
  (`LastRevisionDoesNotPin`). A revision pins the lease in every run from here on exactly when it is below 2^64-1, which
  a snapshot shows, or there is no lease, or the coordinator is already exhausted and no permit is in flight.
- `CommandLine.LineRoundTrip`: the program name is read without escapes, so a name that contains a quote, or that must be
  quoted and ends in a backslash, is not read back. Arguments are free of any condition.
- `CoverageSchedules.FlagIgnoresInterleavingExactlyWhen`: an edge's `indirect` flag is that of its first transition, and
  depends on the interleaving exactly when two threads that have the edge disagree about it, each by its own first
  transition over the edge. Later transitions of a thread do not matter.
- `CoverageInterleaving.StableKeysTellApart`: versions of a block whose digests share 16 hexadecimal digits share a key,
  and their edges are then counted together.
- Dead code: "data appears after padding" in the Base64 decoder, "request line missing" and the search for a NUL in the
  HTTP parser, the clamp of the stdin byte counter, and the stale-lease and stale-sequence refusals of a commit.

## Model

| member | source | states |
|---|---|---|
| `MutationCoordinator.MutationCoordinator.Construct` | src/mutation_transaction_core.cpp:395-404 | a coordinator is made exactly for a valid session and a clock; it has that session, no lease, no permit and all counters at zero |
| `MutationCoordinator.MutationCoordinator.TakeSnapshot` | src/mutation_transaction_core.cpp:406-421 | answer and new state of a snapshot: an overdue lease is dealt with first; the invariant is kept |
| `MutationCoordinator.MutationCoordinator.AcquireLease` | src/mutation_transaction_core.cpp:423-514 | answer and whole new state of an acquire, for every clock reading and request, equal the specified effect |
| `MutationCoordinator.MutationCoordinator.RenewLease` | src/mutation_transaction_core.cpp:516-568 | the same for a renewal |
| `MutationCoordinator.MutationCoordinator.ReleaseLease` | src/mutation_transaction_core.cpp:570-636 | the same for a release |
| `MutationCoordinator.MutationCoordinator.BeginMutation` | src/mutation_transaction_core.cpp:638-750 | the same for a begin; the handle given out is open exactly on success |
| `MutationCoordinator.MutationCoordinator.EmergencyInvalidateAll` | src/mutation_transaction_core.cpp:752-768 | the same for an emergency invalidation |
| `MutationCoordinator.MutationCoordinator.ReplaceCurrentSession` | src/mutation_transaction_core.cpp:770-821 | the same for a session replacement |
| `MutationCoordinator.SharedState.RefreshExpiryLocked` | src/mutation_transaction_core.cpp:221-237 | an overdue lease becomes pending while it is pinned and is ended otherwise |
| `MutationCoordinator.SharedState.FinalizePendingLeaseLocked` | src/mutation_transaction_core.cpp:280-291 | what was pending or fell due under a permit takes effect with the strongest reason |
| `MutationCoordinator.SharedState.ClosePermitLocked` | src/mutation_transaction_core.cpp:293-302 | the slot is freed only for its own permit, and then the lease is finalised |
| `MutationCoordinator.MutationPermit.CommitPermit` | src/mutation_transaction_core.cpp:864-953 | answer, handle and coordinator after a commit equal the specified effect |
| `MutationCoordinator.MutationPermit.AbandonPermit` | src/mutation_transaction_core.cpp:955-979 | the handle is detached and the slot is freed, whatever the clock does |
| `MutationCoordinator.MutationPermit.MovedFrom` | src/mutation_transaction_core.cpp:836-843 | move construction hands over the permit and empties the source |
| `MutationCoordinator.MutationPermit.MoveAssign` | src/mutation_transaction_core.cpp:845-856 | move assignment abandons the old permit first and leaves self-assignment alone |
| `MutationInvariant.AcquireKeepsInv` | src/mutation_transaction_core.cpp:423-514 | an acquire keeps: a permit in flight is unleased with no lease active or pins the active lease; at most one pending flag, and only while pinned |
| `MutationInvariant.RenewKeepsInv` | src/mutation_transaction_core.cpp:516-568 | a renewal keeps the same invariant |
| `MutationInvariant.ReleaseKeepsInv` | src/mutation_transaction_core.cpp:570-636 | a release keeps the same invariant |
| `MutationInvariant.BeginKeepsInv` | src/mutation_transaction_core.cpp:638-750 | a begin keeps the same invariant |
| `MutationInvariant.EmergencyKeepsInv` | src/mutation_transaction_core.cpp:752-768 | an emergency keeps the same invariant |
| `MutationInvariant.ReplaceKeepsInv` | src/mutation_transaction_core.cpp:770-821 | a session replacement keeps the same invariant |
| `MutationInvariant.CommitKeepsInv` | src/mutation_transaction_core.cpp:864-953 | a commit keeps the same invariant |
| `MutationInvariant.AbandonKeepsInv` | src/mutation_transaction_core.cpp:955-979 | an abandon keeps the same invariant |
| `MutationProtocol.HistoryKeepsInv` | src/mutation_transaction_core.cpp:423-979 | over every history of calls on a coordinator and its handles the invariant holds, and a handle is open exactly when the slot has its number |
| `MutationProtocol.StepKeepsLinear` | src/mutation_transaction_core.cpp:823-979 | begins, commits, abandons, destructions and moves keep handles linear |
| `MutationProtocol.MutationSeqCountsCommits` | src/mutation_transaction_core.cpp:910-952 | in every history the mutation sequence is the number of successful commits |
| `MutationProtocol.CommitsAreNumberedInOrder` | src/mutation_transaction_core.cpp:910-952 | successful commits report 1, 2, 3, … without a gap |
| `MutationProtocol.CommitIsExclusive` | src/mutation_transaction_core.cpp:725-952 | between the begin and the successful commit of a permit lie no other commit, no emergency and no change of session, not even one that was undone |
| `MutationProtocol.RevisionPinsLease` | src/mutation_transaction_core.cpp:473-507 | in every history equal lease revisions below 2^64-1 mean equal lease records and tombstones, whatever the other counters did |
| `MutationProtocol.RevisionPinsExactlyWhen` | src/mutation_transaction_core.cpp:190-302 | over every run from any reachable state: the revision pins lease and tombstone exactly when it is below 2^64-1, or there is no lease, or the coordinator is exhausted and the slot vacant |
| `MutationProtocol.LastRevisionDoesNotPin` | src/mutation_transaction_core.cpp:190-302 | in every other state one call ends the lease without a new revision, by its deadline or with the permit that pins it, and puts the coordinator out of service |
| `MutationProtocol.IncarnationNamesOneGrant` | src/mutation_transaction_core.cpp:473-507 | an incarnation number stands for one grant over the whole history |
| `MutationGuarantees.PreparedState` | src/mutation_transaction_core.cpp:221-247 | what the checks before every call refuse and leave behind |
| `MutationGuarantees.AcquireGranted` | src/mutation_transaction_core.cpp:423-514 | a lease is granted or replayed exactly under the listed conditions, and what the answer then says |
| `MutationGuarantees.RenewGranted` | src/mutation_transaction_core.cpp:516-568 | a lease is prolonged exactly for its holder, unless it was released, invalidated or ended |
| `MutationGuarantees.ReleaseGranted` | src/mutation_transaction_core.cpp:570-636 | a lease is given back exactly by its holder; it stays pending exactly while a permit pins it |
| `MutationGuarantees.BeginGranted` | src/mutation_transaction_core.cpp:638-750 | a permit is given out exactly when session and all counters match, the slot is vacant, and the lease is shown, or no credential at all when there is none |
| `MutationGuarantees.EndedTokenIsRefused` | src/mutation_transaction_core.cpp:200-211 | a token that ended is told apart from one that never was, and begins nothing |
| `MutationGuarantees.CommitSucceeds` | src/mutation_transaction_core.cpp:864-953 | exactly when a commit succeeds; the refusals StaleLeaseToken and StaleMutationSequence cannot come up |
| `MutationGuarantees.InvalidatedCommit` | src/mutation_transaction_core.cpp:890-909 | which refusal an invalidated permit gets |
| `MutationGuarantees.RestoredSessionReportsEmergency` | src/mutation_transaction_core.hpp:246-249 | a concrete run in which the header comment is wrong: after a session is replaced and restored the refusal is EmergencyInvalidated |
| `MutationGuarantees.SessionReplaced` | src/mutation_transaction_core.cpp:770-821 | exactly when a session is replaced, and that no lease of the old one stays usable and no older permit can commit |
| `MutationGuarantees.EmergencyStopsPermit` | src/mutation_transaction_core.cpp:752-768 | after an emergency no permit begun before can be committed; lease, session and commits stay |
| `MutationGuarantees.CommitSettles` | src/mutation_transaction_core.cpp:280-302 | whatever a commit answers, the slot is free, the handle used up, and a pending or overdue lease ended for the right reason |
| `MutationGuarantees.AbandonSettles` | src/mutation_transaction_core.cpp:955-979 | the same for an abandon, which moves no counter |
| `ByteRing.BoundedByteRing.constructor` | src/launch_core.cpp:573 | a new ring of any capacity, zero included, holds the empty stream |
| `ByteRing.BoundedByteRing.Append` | src/launch_core.cpp:575-625 | an append is rejected for the listed reasons only and then changes nothing; otherwise the ring is the window of the longer stream |
| `ByteRing.BoundedByteRing.AppendReplacing` | src/launch_core.cpp:596-605 | an input that fills the ring leaves its own end |
| `ByteRing.BoundedByteRing.AppendWrapping` | src/launch_core.cpp:607-624 | a shorter input drops the oldest bytes and wraps around |
| `ByteRing.BoundedByteRing.Close` | src/launch_core.cpp:632-636 | closing changes nothing else |
| `ByteRing.BoundedByteRing.Read` | src/launch_core.cpp:638-683 | a read returns the slice of the unbounded stream from the effective cursor, and all reported positions, gaps and flags are those of that stream |
| `ByteRing.WindowGrows` | src/launch_core.cpp:614-624 | writing behind a window in one piece or two extends it by the input |
| `ByteRing.ReaderMissesOnlyReportedGaps` | src/launch_core.cpp:638-683 | over every mix of appends and reads, a reader that follows nextCursor has the whole stream but for gaps of exactly the reported sizes |
| `ByteRing.FollowRing` | src/launch_core.cpp:575-683 | the ring itself, driven by appends and such reads: its log accounts for the stream up to the cursor, with gaps as the reads reported them, as on the unbounded stream |
| `ByteRing.NoGapNoLoss` | src/launch_core.cpp:638-683 | a reader that was told of no gap has the whole stream |
| `CommandLine.QuoteWindowsCrtArgument` | src/launch_core.cpp:156-190 | the loop writes the quoted form of an argument |
| `CommandLine.BuildWindowsCommandLine` | src/launch_core.cpp:206-264 | a line is built exactly for a non-empty program and texts without NUL whose line with its NUL fits into 32767 units; a refusal names the first argument at fault; no subtraction goes below zero |
| `CommandLine.BuildWindowsCommandLineRaw` | src/launch_core.cpp:266-312 | the same for a raw tail |
| `CommandLine.ArgumentRoundTrip` | src/launch_core.cpp:156-190 | the C runtime reads a quoted argument back as it was, whatever follows it |
| `CommandLine.LineRoundTrip` | src/launch_core.cpp:206-264 | the C runtime takes a built line apart into the program and the arguments it was built from, exactly when the program name has no quote and no trailing backslash where it must be quoted |
| `CommandLine.RawLineKeepsTail` | src/launch_core.cpp:266-312 | a raw tail is read as it would be on its own |
| `Base64.EncodeBase64` | src/launch_core.cpp:548-571 | the answer is the encoding of section 4 of RFC 4648, or nothing for a null pointer |
| `Base64.EncodeLoop` | src/launch_core.cpp:558-569 | the loop writes that encoding |
| `Base64.DecodeBase64Strict` | src/launch_core.cpp:439-546 | a text is accepted exactly if it is the encoding of bytes within the limit, and then these bytes are returned |
| `Base64.DecodeGroup` | src/launch_core.cpp:477-544 | one group is accepted exactly if some bytes encode to it; the report of data after padding is dead code |
| `Base64.DecodeGroups` | src/launch_core.cpp:475-546 | a text is refused in a group exactly if nothing encodes to it |
| `Base64.GroupIsInjective` | src/launch_core.cpp:556-569 | different bytes never share a group |
| `Base64.EncodingIsInjective` | src/launch_core.cpp:548-571 | no two byte strings have the same encoding |
| `EnvironmentBlock.CompareOrdinalLoop` | src/launch_core.cpp:29-66 | the comparison is the sign of the lexicographic order of the folded names |
| `EnvironmentBlock.FindProblem` | src/launch_core.cpp:330-369 | the first entry that is malformed or a duplicate under folding is reported, and none is missed |
| `EnvironmentBlock.MergeLoop` | src/launch_core.cpp:371-387 | the loop over the overrides gives the merged list |
| `EnvironmentBlock.MergeMeaning` | src/launch_core.cpp:371-387 | an entry is in the merge exactly if it is set by the overrides, or inherited under a name that no override mentions |
| `EnvironmentBlock.SortSorts` | src/launch_core.cpp:389-396 | sorting sorts and keeps the entries |
| `EnvironmentBlock.SortedIsUnique` | src/launch_core.cpp:389-396 | entries with distinct folded names have one sorted order |
| `EnvironmentBlock.CheckSize` | src/launch_core.cpp:398-417 | the size counted beforehand is the size of the rendering; the check is exact and no subtraction goes below zero |
| `EnvironmentBlock.RenderLoop` | src/launch_core.cpp:419-431 | the loop writes the rendering |
| `EnvironmentBlock.BuildUnicodeEnvironmentBlock` | src/launch_core.cpp:324-437 | a block is built exactly for acceptable lists whose rendering fits into 32767 units |
| `EnvironmentBlock.AcceptanceIgnoresOrder` | src/launch_core.cpp:330-369 | a list in another order is accepted if the list is |
| `EnvironmentBlock.BlockIgnoresOrder` | src/launch_core.cpp:324-437 | whether a block is built, and from which entries, does not depend on the order of either list |
| `EnvironmentBlock.CaptureCurrentEnvironment` | src/launch_runtime.cpp:150-183 | a failing system call and a malformed entry are reported; otherwise the entries are those of the block |
| `EnvironmentBlock.CaptureLoop` | src/launch_runtime.cpp:165-181 | the loop reads a block entry by entry, with hidden names such as =C: |
| `EnvironmentBlock.BlockRoundTrip` | src/launch_runtime.cpp:165-181 | capturing a built block gives back exactly the merged entries |
| `EnvironmentBlock.RebuildIsIdempotent` | src/launch_core.cpp:324-437 | building again from what was captured gives the same block |
| `StdinPump.IoState.constructor` | src/launch_runtime.cpp:1689-1711 | an interactive pipe, or one that has all its bytes and a close request from the start |
| `StdinPump.IoState.WriteInput` | src/launch_runtime.cpp:2019-2076 | the locked region of a write is one step of the protocol |
| `StdinPump.IoState.RequestClose` | src/launch_runtime.cpp:2135-2139 | the locked region of a close request is one step |
| `StdinPump.IoState.RequestStop` | src/launch_runtime.cpp:1453-1455 | raising the stop flag is one step |
| `StdinPump.IoState.TakeChunk` | src/launch_runtime.cpp:1037-1054 | the worker takes the first chunk, or leaves on a stop or a drained close |
| `StdinPump.IoState.WriteSome` | src/launch_runtime.cpp:1065-1092 | a call of WriteFile that passes any part of the rest on is one step |
| `StdinPump.IoState.FailWrite` | src/launch_runtime.cpp:1071-1091 | a failing call, with or without effect, is one step |
| `StdinPump.IoState.StopWriting` | src/launch_runtime.cpp:1060-1064 | giving up a chunk on a stop is one step |
| `StdinPump.IoState.CloseParentHandle` | src/launch_runtime.cpp:1111 | closing the pipe is one step |
| `StdinPump.IoState.FinishLoop` | src/launch_runtime.cpp:1112-1120 | the last locked region is one step |
| `StdinPump.IoState.SettleChunk` | src/launch_runtime.cpp:1095-1108 | the locked region after a chunk is one step |
| `StdinPump.HistoryKeepsInv` | src/launch_runtime.cpp:1032-1122 | in every interleaving the counter is the bytes in hand and in the queue, never above capacity, and the pipe has got a prefix of the accepted bytes |
| `StdinPump.ClampIsNeverUsed` | src/launch_runtime.cpp:1097-1098 | the subtraction of a finished chunk never needs its clamp |
| `StdinPump.ClosedAcceptsNothing` | src/launch_runtime.cpp:2048-2076 | after a close request nothing is accepted any more |
| `StdinPump.PipeClosesAfterEverything` | src/launch_runtime.cpp:1032-1122 | without failure or stop, the pipe is closed only after all accepted bytes went into it |
| `StdinPump.UnrequestedPipeStaysOpen` | src/launch_runtime.cpp:1039-1053 | the pipe is not closed unless a close or a stop was asked for |
| `StdinPump.WorkerMakesProgress` | src/launch_runtime.cpp:1032-1122 | every step of the worker reduces what it has to do, so it comes to rest between calls |
| `StdinPump.WorkerWaitsOnlyForInput` | src/launch_runtime.cpp:1039-1053 | the worker is at rest only when there is nothing to take, to close or to stop |
| `StdinPump.WriteIsAcceptedExactly` | src/launch_runtime.cpp:2019-2076 | exactly when a write is accepted; backpressure is reported only for lack of room |
| `CoverageBlocks.NormalizeEvents` | src/coverage_core.py:76-158 | the loop keeps what lies in the module, carries an announced exception to the next instruction of its thread, and sorts by sequence number and position |
| `CoverageBlocks.PendingStep` | src/coverage_core.py:98-106 | how one record changes for which threads an exception is pending |
| `CoverageBlocks.StableSortSorts` | src/coverage_core.py:157 | the sort orders the events and keeps them all |
| `CoverageBlocks.Segment` | src/coverage_core.py:223-277 | the loop closes the specified blocks in the specified order, which are, for every thread, the partition of its own events |
| `CoverageBlocks.ExecutedBlocks` | src/coverage_core.py:223-277 | the blocks closed on the way and at the end are, thread by thread, the partition of the thread's own events |
| `CoverageBlocks.FinishAll` | src/coverage_core.py:276-277 | the last block of every thread is closed, in the order of the threads |
| `CoverageBlocks.PartitionIsMaximal` | src/coverage_core.py:244-274 | the blocks are the events again, cut into straight runs that cannot be joined |
| `CoverageBlocks.MaximalBlocksAreUnique` | src/coverage_core.py:244-274 | there is no other way to cut them so |
| `CoverageGraph.CollectVersions` | src/coverage_core.py:302-309 | the code versions recorded at an address are the digests seen there |
| `CoverageGraph.AddInstance` | src/coverage_core.py:326-359 | one execution joins its group, or starts one |
| `CoverageGraph.BuildGroups` | src/coverage_core.py:311-359 | every group has its counts, name, version and first and last sequence numbers |
| `CoverageGraph.GatherThreads` | src/coverage_core.py:282-284 | the blocks of each thread; the threads in the order in which their first blocks were closed, none twice |
| `CoverageGraph.AddTransitions` | src/coverage_core.py:287-299 | consecutive blocks of a thread become edges with counts and targets |
| `CoverageGraph.BuildEdges` | src/coverage_core.py:361-379 | the edges are those of all transitions of all threads |
| `CoverageLaws.Reconstruct` | src/coverage_core.py:202-400 | the whole reconstruction describes the normalised tape, block by block and thread by thread in the order of execution |
| `CoverageLaws.ResortChangesNothing` | src/coverage_core.py:285-286 | the sort of a thread's blocks by first event changes nothing |
| `CoverageLaws.FallthroughIsDeclared` | src/coverage_core.py:183-203 | an edge is a plain fall-through only where the tape declares a block start |
| `CoverageLaws.NothingIsLost` | src/coverage_core.py:439-445 | executed instruction hits are the events, executed block hits the blocks, and executed edge hits the blocks less one for each thread |
| `CoverageInterleaving.InterleavingDoesNotShow` | src/coverage_core.py:244-379 | two tapes with the same threads, differently interleaved and numbered, give the same groups but for sequence numbers and the same edges but for the indirect flag, and the same flags too if the threads come in the same order |
| `CoverageFlags.FlagIsFirst` | src/coverage_core.py:366-379 | an edge has the indirect flag of its first transition |
| `CoverageFlags.FlagIsSettledExactlyWhen` | src/coverage_core.py:282-379 | that flag is the same for every order of the threads exactly when the threads that have the edge agree, each by its own first transition over it |
| `CoverageSchedules.EveryOrderIsReached` | src/coverage_core.py:223-299 | for every order of its threads a tape has an interleaving whose transitions come in that order: the threads one after another |
| `CoverageSchedules.FlagIgnoresInterleavingExactlyWhen` | src/coverage_core.py:223-379 | the flag is the same on every interleaving of the same threads exactly when the threads that have the edge agree on it |
| `CoverageInterleaving.StableKeysTellApart` | src/coverage_core.py:318-324 | two blocks share a stable key exactly when they start at one address and their digests share the first 16 digits |
| `CoverageInterleaving.VersionsAreNumbered` | src/coverage_core.py:316-317 | versions at an address are numbered from one in the order of their digests |
| `AdmissionQueue.FairAdmissionQueue.constructor` | src/request_dispatcher_core.cpp:10-14 | limits below one, or an admission limit below the running limit, are raised |
| `AdmissionQueue.FairAdmissionQueue.TryAdmit` | src/request_dispatcher_core.cpp:16-36 | an admission fails exactly when the queue is full; otherwise the ticket is the first candidate, cyclic and never zero, that is not live |
| `AdmissionQueue.FairAdmissionQueue.TryStart` | src/request_dispatcher_core.cpp:45-56 | exactly the head of the line starts, and only while a slot is free |
| `AdmissionQueue.FairAdmissionQueue.CancelTicket` | src/request_dispatcher_core.cpp:58-67 | exactly a live ticket is removed, from the line or from the running set |
| `AdmissionQueue.FairAdmissionQueue.FinishTicket` | src/request_dispatcher_core.cpp:69-72 | exactly a running ticket is removed |
| `AdmissionQueue.FairAdmissionQueue.Reset` | src/request_dispatcher_core.cpp:91-96 | everything is forgotten |
| `AdmissionQueue.NextKeepsInv` | src/request_dispatcher_core.cpp:16-72 | every operation keeps both limits, and queued and running tickets disjoint, distinct and not zero |
| `AdmissionQueue.ExactlyOneCanStart` | src/request_dispatcher_core.cpp:38-43 | whenever a slot is free and the line is not empty exactly one ticket can start |
| `AdmissionQueue.StartsFollowAdmissions` | src/request_dispatcher_core.cpp:16-56 | over every run the started tickets are a subsequence of the admitted ones in their order |
| `AdmissionQueue.RunKeepsInv` | src/request_dispatcher_core.cpp:16-72 | over every run the limits and the disjointness hold |
| `AdmissionQueue.BoundedWaiting` | src/request_dispatcher_core.cpp:38-56 | a ticket that waits behind n others waits until it is started or cancelled, and at most n others are started meanwhile |
| `AdmissionQueue.LiveCandidatesAreFew` | src/request_dispatcher_core.cpp:20-34 | the pigeonhole behind fresh tickets: among more consecutive candidates than there are live tickets one is free, also where the counter wraps |
| `Relocations.ReverseBaseRelocations` | src/ext_tools.py:4851-4923 | the loop in place equals the specified walk: bytes and report, for every directory, malformed ones included |
| `Relocations.PatchEntry` | src/ext_tools.py:4891-4915 | one relocation, with its width taken modulo 2^64 or 2^32, and how it is counted |
| `Relocations.WalkIsBatch` | src/ext_tools.py:4885-4916 | when patches miss the directory, walking it while patching is patching all that it listed at the start |
| `Relocations.ReversalUndoesLoader` | src/ext_tools.py:4851-4923 | reversing what the loader added restores the image byte for byte |
| `Relocations.ReversalTouchesOnlyPlaces` | src/ext_tools.py:4902-4915 | when patches miss the directory, no byte outside the listed places is changed |
| `Relocations.TallyPartitions` | src/ext_tools.py:4891-4922 | every listed relocation is counted once, as patched, left to the template or unsupported |
| `LittleEndian.AddAllCancels` | src/ext_tools.py:4906-4913 | adding and taking away the same delta at places that do not partly overlap restores the bytes |
| `LittleEndian.AddsCommute` | src/ext_tools.py:4906-4913 | patches at places apart from each other can be swapped |
| `ImageLayout.AlignUp` | src/ext_tools.py:4573-4575 | the next multiple of the alignment, less than one alignment away |
| `ImageLayout.FileAlignment` | src/ext_tools.py:5253-5255 | a declared alignment that is no power of two up to 65536 is replaced |
| `ImageLayout.PlaceSections` | src/ext_tools.py:5274-5332 | sections are put behind each other and the headers, each aligned, in the file and with as many bytes as the image has |
| `ImageLayout.RvaToOffsetLoop` | src/ext_tools.py:5337-5343 | the lookup finds the first span that has the address |
| `ImageLayout.OffsetsStayApart` | src/ext_tools.py:5337-5343 | ranges of addresses that do not meet do not meet in the file |
| `ImageLayout.LaidOutImageIsRestored` | src/ext_tools.py:5346-5360 | in an image laid out here, relocated addresses that do not partly overlap or meet the directory suffice for the reversal |
| `Text.Find` | src/http_parser_core.cpp:88-93 | a search finds the first occurrence, or there is none |
| `HttpText.TrimOws` | src/http_parser_core.cpp:50-57 | blanks are taken off both ends |
| `HttpText.TrimCuts` | src/http_parser_core.cpp:50-57 | only blanks are cut, and none is left at the ends |
| `HttpText.EqualsInsensitive` | src/http_parser_core.cpp:59-68 | names are compared without regard to the case of ASCII letters |
| `HttpText.ParseUnsignedDecimal` | src/http_parser_core.cpp:70-83 | exactly the non-empty digit strings of value at most 2^64-1 are accepted, with their value |
| `HttpText.DecimalReadsBack` | src/http_parser_core.cpp:70-83 | a number written in decimal is read back |
| `HttpParser.ParseRequestLine` | src/http_parser_core.cpp:85-106 | the scan of a request line, check by check |
| `HttpParser.IsTarget` | src/http_parser_core.cpp:100-102 | the checks of a request target |
| `HttpParser.RequestLineReadsBack` | src/http_parser_core.cpp:85-106 | every well-formed request line is accepted and read back |
| `HttpParser.AcceptedRequestLine` | src/http_parser_core.cpp:85-106 | every accepted line is well-formed |
| `HttpParser.NulIsControl` | src/http_parser_core.cpp:102 | the separate search for a NUL never finds one |
| `HttpParser.CheckHeaderLine` | src/http_parser_core.cpp:157-199 | one header line, check by check |
| `HttpParser.ParseHeaders` | src/http_parser_core.cpp:110-205 | the loop over the header lines returns the specified result or error |
| `HttpParser.ParseRequest` | src/http_parser_core.cpp:207-280 | the request parser returns the specified result or error |
| `HttpFraming.FieldReadsBack` | src/http_parser_core.cpp:157-199 | a well-formed field is judged by its name and trimmed value alone |
| `HttpFraming.AcceptedLines` | src/http_parser_core.cpp:149-201 | accepted header lines are well-formed fields |
| `HttpFraming.MarkerEndsFields` | src/http_parser_core.cpp:115 | the first empty line is the end of the fields, whatever the body |
| `HttpGuarantees.HeadReadsBack` | src/http_parser_core.cpp:110-205 | a well-formed head is found whole and judged by its size and its fields |
| `HttpGuarantees.TargetRejoins` | src/http_parser_core.cpp:238-245 | path and query are what the first question mark separates |
| `HttpGuarantees.AcceptedHead` | src/http_parser_core.cpp:110-205 | an accepted head is well-formed, within both limits, with clear framing |
| `HttpGuarantees.RequestLineIsNeverMissing` | src/http_parser_core.cpp:135-140 | the report of a missing request line is dead code |
| `HttpGuarantees.FramingMeans` | src/http_parser_core.cpp:179-198 | the length is announced by no Content-Length field, or by exactly one with a 64-bit decimal number, and Transfer-Encoding is never accepted |
| `HttpGuarantees.RequestReadsBack` | src/http_parser_core.cpp:207-280 | every well-formed request within the limits is accepted and read back |
| `HttpGuarantees.AcceptedRequest` | src/http_parser_core.cpp:207-280 | every accepted request is well-formed and within the limits |
| `HttpGuarantees.AcceptedExactlyWhen` | src/http_parser_core.cpp:207-280 | the accepted texts are exactly the well-formed requests within the limits |
| `HttpGuarantees.NoRequestBeginsAnother` | src/http_parser_core.cpp:207-280 | no accepted request is a proper prefix of another (sections 3 and 6.3 of RFC 9112) |
| `HttpGuarantees.WrittenRequestReadsBack` | src/http_parser_core.cpp:207-280 | a request written with a Content-Length equal to its body's length is read back as it was meant |
| `ExceptionPolicy.Popcount` | src/exception_policy_core.cpp:115-120 | the loop counts the set bits |
| `ExceptionPolicy.LowestBitCleared` | src/exception_policy_core.cpp:118-118 | v & (v-1) has one set bit less |
| `ExceptionPolicy.ReadSelector` | src/exception_policy_core.cpp:140-166 | one selector, with its masked value and its number of mask bits |
| `ExceptionPolicy.ParseSelectors` | src/exception_policy_core.cpp:129-174 | a list is read exactly when every item is a selector and there are at most 32 |
| `ExceptionPolicy.ReadSelectorIsValid` | src/exception_policy_core.cpp:140-166 | every selector that is read is well-formed |
| `PolicyMerge.CheckExisting` | src/exception_policy_core.cpp:234-245 | the rules already there are accepted exactly when few, well-formed and distinct under folding |
| `PolicyMerge.AppendRules` | src/exception_policy_core.cpp:246-256 | new rules are appended and numbered exactly when no id is taken and no limit exceeded |
| `PolicyMerge.MergePolicy` | src/exception_policy_core.cpp:228-261 | an update is merged whole or not at all, exactly when it can be |
| `PolicyMerge.MergeKeepsInv` | src/exception_policy_core.cpp:228-261 | a successful merge keeps ids distinct under folding, the caps, and insertion orders 1, 2, 3, … |
| `PolicyMerge.MergeFailsOnlyForNewRules` | src/exception_policy_core.cpp:233-252 | under that invariant a merge fails only for an id that is taken or a limit that is exceeded |
| `PolicyMerge.ChainKeepsInv` | src/exception_policy_core.cpp:228-261 | the invariant holds after every chain of updates, and the version counts the successful merges modulo 2^64 |
| `PolicySelection.SelectPolicy` | src/exception_policy_core.cpp:270-305 | the loop returns the decision of the best match, or the default |
| `PolicySelection.BestIsLexicographic` | src/exception_policy_core.cpp:276-291 | the chosen match is best by kind, then mask bits, then priority, then insertion, and the first selector of its rank in its rule |
| `PolicySelection.BestIsUnique` | src/exception_policy_core.cpp:276-291 | there is one best match |
| `PolicySelection.MoreBitsWin` | src/exception_policy_core.cpp:284-286 | of two masks the one with more set bits wins |
| `PolicySelection.OrderOfRulesDoesNotMatter` | src/exception_policy_core.cpp:270-305 | the decision does not depend on the order of the rules when insertion orders differ |
| `PolicySelection.MergedPoliciesAreInOrder` | src/exception_policy_core.cpp:228-261 | and they differ in every policy that merges produce |
| `Topology.Search.Visit` | tools/corpus.py:266-279 | a visit keeps what is marked, listed and on the path consistent; an error names an edge to nowhere or a cycle |
| `Topology.TopologicalIds` | tools/corpus.py:261-284 | a list is returned exactly for a closed graph without cycles; it has every id once, dependencies first |
| `Topology.OrderedMeansGood` | tools/corpus.py:261-284 | such a list exists for no other graph |
| `Topology.BackEdge` | tools/corpus.py:268-269 | an id met again on the path closes a cycle |

## Left out

Conventions of the models:

- Mutexes, condition variables and C++ exceptions: every locked region is one atomic step. A failing allocation is not
  modelled.
- Constant-time comparison of secrets: plain equality.
- Bit operations on integers: divisions and remainders, except for the masks of exception selectors, which are bit
  vectors.
- Message texts, and HTTP status codes, each of which is fixed by its error code. Fields that a result still carries
  after a failure are left out as well.
- Handles and a coordinator are those of one process; a handle never outlives the coordinator's shared state, which
  shared ownership guarantees.

Weaker than the source, member by member:

- EnvironmentBlock.CompareOrdinalLoop: upper-casing of one code unit is a parameter, any function from units to units;
  `CompareStringOrdinal` is taken to compare so folded names, as the portable branch does.
- EnvironmentBlock.SortSorts: `std::sort` is modelled as an insertion sort; `SortedIsUnique` says why that does not
  matter.
- StdinPump.IoState.WriteInput: starts at the lock; the refusals before it (null pointer, no pipe, more bytes than the
  capacity, resources closing) are left out. Whether a wait times out is an input.
- StdinPump.IoState.RequestClose: the refusals before the lock are left out.
- CoverageBlocks.NormalizeEvents: records come with their loosely typed fields already read: numbers, the recognition of
  return and indirect instructions from their text, and the bytes or text that go into the fingerprint. Records that are
  not dictionaries are left out.
- CoverageGraph.BuildGroups: the digest of a block's code is a parameter, any function of addresses, sizes and materials.
- CoverageLaws.Reconstruct: blocks and edges are maps by key. The sorted lists cut off at `limit`, and the tallies that
  only count list members, are left out; the sums of hits are in `NothingIsLost`.
- CoverageInterleaving.InterleavingDoesNotShow: first and last sequence numbers are left aside, for two interleavings
  number the same events differently.
- Relocations.ReverseBaseRelocations: the lookup of directory 5 and of the preferred base in the layout, and the template
  spans, come as parameters.
- ImageLayout.PlaceSections: places of sections only; copying, header patches and the template modes are left out.
- Text.Find: a function for `std::string_view::find`, which the source does not define.
- ExceptionPolicy.ReadSelector: reading a 32-bit number and writing the canonical form are parameters.
- ExceptionPolicy.ParseSelectors: trimming is a parameter as well.
- Topology.TopologicalIds: Python's recursion limit, which makes the source raise on a deep acyclic chain, is not
  modelled.
- PolicyMerge.MergeKeepsInv: that an update's rules have valid ids and selectors is a condition; the reading of update
  parameters, `parsePolicyUpdate`, is left out.

Not modelled:

- The Win32 side of launching: handles, process creation, thread cancellation, debugger ownership and teardown order.
- Parsing and verification of PE headers, and reading process memory.
- The route table, the tool profiles, the child broker, the bridge, history pages and continuation records: small tables,
  counters and records.
- Manifest validation apart from the order of fixtures.
- MCP tool wrappers, live test runners, loaders and plan builders.
