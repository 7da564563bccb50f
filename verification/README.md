# SwarmX Core: a Dafny model

SwarmX Core splits a workload into chunks, leases each chunk to a worker, reclaims or steals it when the
worker fails, and puts the results back together. This project models the parts of it whose correctness is not
visible in any single function, and proves what they promise.

| files | what they model |
|---|---|
| `BoxBlur`, `BlurSamples`, `ImageChunks`, `ImageTheorems`, `RowBands`, `NodeBuffer`, `Sorting` | the sliding-window blur, sample by sample, halo bands, and why banding is byte-exact |
| `MatrixProduct`, `ProductCells`, `Gemm`, `MatrixChunks`, `MatrixTheorems` | the product, cell by cell, the unrolled matrix kernel, row bands, strict reassembly |
| `VideoChunks`, `VideoTheorems`, `VideoPool`, `VideoExecution` | frame chunks, the concurrent consumer pool, reassembly of metrics that come as text or as bytes |
| `ReassemblyErrors` | which error each of the three reassemblies raises, and what a successful analysis holds |
| `Graph`, `DagEngine`, `DagValidation`, `DagRuns`, `DagHistory`, `DagArtifacts`, `DagCompletion` | cycle search, which DAGs are rejected and why, the stage state machine, reference-counted artifacts and what they hold, whole runs, what they leave on record and what they can do |
| `TaskStore`, `WorkloadPipeline`, `Fencing`, `RowHistory`, `WorkloadBooks` | the task table as a lease protocol, result handling, whole runs, what they leave on a task's row, progress counters |
| `ChunkDispatch` | the retry loop around one chunk's task |
| `BinaryFraming`, `FrameReassembler`, `FrameOutcomes`, `FrameStreams` | the binary frame, the chunk-list receive loop, what either decoder makes of any bytes, every fragmentation and interleaving |
| `Scheduler` | proportional allocation and the choice of a worker |
| `Requests` | parameter defaults and replies of the three chunked executions |
| `Prelude` | options, results, bytes, facts of nonlinear arithmetic |

Code that updates things in place is written that way: kernels on arrays, the engine, store, pipeline, connection
and pool as classes. Each such method is tied to a function of its inputs or of the old state, and the theorems are
about those functions. Concurrency is modelled by runs: sequences of events, in any order the program allows, from
the initial state; a `Perform` method beside each kind of run shows that its events are what the methods do.

`dafny verify dfyconfig.toml` checks everything.

## Where the code does less than one might expect

Each of these is a theorem here, with the exact condition or a failing input.

- `assembleImageChunks` checks neither `outRowCount` nor `topHalo`; a result can pass every check and leave bytes of
  the uninitialised output buffer in place (`AssembledImageDeterminedIff`, `ShortBandLeavesScratch`).
- `assembleMatrixChunks` looks at `totalChunks` of the first arrival only, so whether it succeeds can depend on the order
  of arrival (`SuccessOrderFreeIff`, `FirstTotalDecides`). `assembleVideoAnalysis` does not look at it at all.
- Video metrics that come as bytes are read as none, and bytes are what the simulation worker answers with: every chunk it
  computes, without any failure, makes the whole analysis FAILED or LOCAL_FALLBACK (`ExecuteChunkedVideoAnalysis`,
  `AnalysisCompleteIff`, `SimulatedChunkIsLost`).
- The dispatchers number every try by the row they read before the first one, so no remote worker's result is heard on a
  retry (`KeptNumberCompletesIff`, `UsedNumberNeverCompletes`, `RemoteDeliversFirst`, `DeliveredIff`). With the point
  above, a video analysis is complete exactly if remote workers answer for all chunks on the first try
  (`FirstTriesDecide`).
- `failStage` looks neither at the stage's status nor at the attempt; `completeStage` does not look at the status
  (`FailureSafeIff`, `UnstartedFailure`, `CompletionSafeIff`, `UnassignedCompletion`). Once a failure has reset a stage,
  anyone who quotes the attempt number is accepted (`AcceptedFromAssigneeIff`).
- An artifact's count holds one per consumer but drops once per reference, nothing makes a reader wait for the producer,
  and two stages may produce the same artifact (`LifetimesExactIff`, `CountsExactIff`, `RepeatFreesEarly`,
  `InputsAvailableIff`, `ReaderBeforeProducer`, `SharedOutputBreaks`).
- A declared output that some stage reads is freed when its last reader completes, so a finished DAG has lost it
  (`OutputsKeptIff`, `FinishedOutputIff`).
- `recordTaskFailure` has no status guard, so it takes back even finished tasks (`TerminalKeptIff`, `CompletedKeptIff`,
  `CompletedTakenBack`), and most reasons it is called with exclude nobody (`RecordedFailureExcludesIff`).
- `handleTaskResult` does not look at its fences again after awaiting the validator (`FencedAcrossAwaitIff`,
  `StolenWhileValidating`, `CompletedWhileValidating`).
- `cancelWorkload` forgets the chunks in flight without counting them (`BooksCompleteIff`). A comment in it says in-flight
  tasks are abandoned; the code only notifies their listeners and leaves the task table alone, and the model follows
  the code.
- `areDependenciesSatisfied` counts rows, so a task naming a dependency twice never starts (`DependencyCountIff`).
- The receive loop throws on a first chunk shorter than the magic. Deliveries of seven bytes are enough to rule
  that out, deliveries of six are not (`NoShortHeadIff`). A frame whose declared size is negative enough makes the loop
  handle it forever (`ProgressIff`, `SpinsForever`, `NegativeSizeSpins`).
- `allocateMultiChunkWorkload` can give the last worker a negative count, as soon as there are four candidates and two
  items (`SharesAreCountsIff`, `OversharedIsNegative`, `LastShareCanBeNegative`).

## Model

| member | source | states |
|---|---|---|
| BoxBlur.WindowSum | core/src/simulation_worker.ts:574-578 | a sum of clamped samples is at most 255 times their number, so the running sum never leaves 0..255·(2r+1) |
| BoxBlur.WindowSlides | core/src/simulation_worker.ts:580-583 | dropping the left end of a clamped window subtracts exactly the clamped sample there, for every line and any bounds, windows wider than the line included |
| BoxBlur.MeanSlides | core/src/simulation_worker.ts:580-585 | the sum updated by the entering minus the leaving sample is the next position's window sum, and its quotient is a byte: the next mean |
| BoxBlur.MeanFitsByte | worker-macos/Sources/SwarmXWorker/Execution/ImageProcessingKernel.swift:291-298 | the quotient of any running sum within its bound by the window's size fits an unsigned byte, so the conversion never traps |
| BoxBlur.SlideLine | core/src/simulation_worker.ts:574-585 | the sliding sum leaves, at each position of a strided line, the mean over the 2r+1 clamped neighbours, and touches no other byte |
| BoxBlur.HorizontalPass | core/src/simulation_worker.ts:571-587 | the whole temp buffer equals the row-wise blur of the input |
| BoxBlur.VerticalPass | core/src/simulation_worker.ts:589-605 | the whole output buffer equals the column-wise blur of temp |
| BoxBlur.ComputeBoxBlur | core/src/simulation_worker.ts:565-608 | the kernel refines the windowed definition of the two-pass blur, within bounds and without byte overflow |
| BoxBlur.ApplyBoxBlur | worker-macos/Sources/SwarmXWorker/Execution/ImageProcessingKernel.swift:256-330 | the macOS kernel returns the same blur, or its input on arguments it refuses; the radius-0 shortcut agrees with the blur exactly when the input has no surplus bytes |
| BoxBlur.BlurAt | core/src/simulation_worker.ts:589-605 | each sample is the floored mean of its column of horizontally blurred samples |
| BoxBlur.BlurColumnAt | core/src/simulation_worker.ts:571-587 | each of those is the floored mean of the clamped neighbours in its row |
| BoxBlur.BlurRadiusZero | worker-macos/Sources/SwarmXWorker/Execution/ImageProcessingKernel.swift:267-269 | radius 0 is the identity on the image's samples |
| BoxBlur.BlurBounds | core/src/simulation_worker.ts:571-605 | no blurred sample leaves the range of the input samples |
| BlurSamples.BlurSample | core/src/simulation_worker.ts:565-608 | every sample of the blur is the floored mean, over the 2r+1 rows around it, of the floored means of the 2r+1 samples around it in those rows, the nearest edge sample standing in beyond an edge, all as integer sums over the input's bytes |
| RowBands.BandsCover | core/src/chunk_engine.ts:306-317 | bands laid end to end finish exactly at the last row |
| RowBands.BandsBalanced | core/src/chunk_engine.ts:48-52 | no band is empty, earlier bands are never shorter, and no two differ by more than one row |
| NodeBuffer.PlaceAllDeterminedIff | core/src/chunk_engine.ts:225-233 | a sequence of copies into an uninitialised buffer determines its contents exactly when every byte is covered |
| NodeBuffer.BackToBackCoversOnce | core/src/chunk_engine.ts:228-231 | copies that follow each other back to back write every byte exactly once |
| Sorting.SortRestores | core/src/chunk_engine.ts:371 | sorting by index undoes any order of arrival |
| Sorting.SortIndexedIff | core/src/chunk_engine.ts:385-387 | after sorting, position i holds index i for all i exactly when the indices are distinct and drawn from 0..n-1 |
| ImageChunks.PartitionImageFilter | core/src/chunk_engine.ts:287-354 | which error is raised when, and that chunk i carries exactly its band's rows; bands follow each other from the first row to the last, each with exactly the halo the radius calls for, clipped to the image; a chunk count below 1 yields none |
| ImageChunks.AssembleImageChunks | core/src/chunk_engine.ts:360-416 | the loop with its early exits equals the reassembly function on the arrived results and the allocated buffer's prior contents |
| ImageTheorems.AssembleImageSucceedsIff | core/src/chunk_engine.ts:367-413 | reassembly succeeds exactly on a checklist of the results that mentions no order of arrival |
| ImageTheorems.AssembledImageDeterminedIff | core/src/chunk_engine.ts:373-406 | a success is independent of the uninitialised buffer exactly when the stripped bands cover every byte |
| ImageTheorems.ShortBandLeavesScratch | core/src/chunk_engine.ts:400-408 | a concrete result that passes every check and writes nothing |
| ReassemblyErrors.ImageRefusedIff | core/src/chunk_engine.ts:367-413 | which error a set of bands is refused with: what is wrong with the first band in index order, or else missing rows |
| ImageTheorems.WindowOfSubline | core/src/chunk_engine.ts:283-286 | a window sum taken inside a halo-extended sub-line equals the one taken in the whole line, clamping included |
| ImageTheorems.BandBlurAgrees | core/src/chunk_engine.ts:283-286 | at every valid row, blurring a band with its halo gives the sample the whole image's blur gives |
| ImageTheorems.StrippedBand | core/src/chunk_engine.ts:400-403 | what is left of a blurred band after its halos are stripped is the same rows of the blurred image |
| ImageTheorems.BandedBlurIsExact | core/src/chunk_engine.ts:283-416 | for every image, radius and chunk count of at least 1, separately blurred bands reassembled in any order of arrival give the blur of the whole image byte for byte |
| ImageTheorems.ExecuteChunkedImage | core/src/ipc_server.ts:1277-1443 | from request to reply: the two errors that escape, the blur of the whole image exactly when every chunk's dispatch succeeds, and otherwise FAILED or LOCAL_FALLBACK; for every requested chunk count and number of workers |
| Requests.ChannelsOf | core/src/ipc_server.ts:1290-1290 | three bytes a pixel for "RGB", one for "L", four for anything else |
| Requests.ChunkTarget | core/src/ipc_server.ts:1300-1301 | the requested number of chunks if it is positive and fits, the rows if it does not fit, otherwise one for each worker and at least two |
| Requests.Failure | core/src/ipc_server.ts:1430-1438 | FAILED exactly if the workload must not run locally, LOCAL_FALLBACK otherwise |
| Gemm.AccumulateRow | core/src/simulation_worker.ts:545-558 | the 8-way unrolled loop and its tail update every column of one row exactly once and nothing else |
| Gemm.MultiplyRow | core/src/simulation_worker.ts:539-560 | each cell of an output row ends a chain of steps from four zero bytes, one for each of the k elements in order, with the elements of its row of A and its column of B; other rows are untouched |
| Gemm.ComputeMatrixMultiply | core/src/simulation_worker.ts:520-563 | for any multiply-add operation, so bit for bit with floats, every cell (i, j) of the output ends a chain of k steps from zero, step t being the operation on the sum so far, A[i·k+t] and B[t·n+j]; on any input: dimensions that are not positive are replaced by a guessed square, reads past the end are NaN |
| MatrixProduct.HalfRoot | core/src/simulation_worker.ts:521-523 | the guessed side is the greatest whose two squares fit the floats there are |
| ProductCells.ProductBytesCell | core/src/simulation_worker.ts:520-563 | the product the theorems speak of has those cells, read from the input's bytes |
| ProductCells.RowProductCell | core/src/simulation_worker.ts:539-560 | and so has each row of it |
| ProductCells.ShortInputIsNaN | core/src/simulation_worker.ts:521-559 | an input of no floats gives one step on two NaN operands |
| MatrixProduct.ProductOfRows | core/src/chunk_engine.ts:48-52 | rows from..to of the product are the product of rows from..to |
| MatrixChunks.PartitionMatrixMultiply | core/src/chunk_engine.ts:54-131 | which error is raised when, and that chunk i carries exactly its rows of A, from where the chunk before it ends, followed by all of B, with their sizes |
| MatrixChunks.AssembleMatrixChunks | core/src/chunk_engine.ts:142-234 | the validating loop and the copy loop equal the reassembly function on the arrived results and the buffer's prior contents |
| MatrixTheorems.AssembleMatrixSucceedsIff | core/src/chunk_engine.ts:149-222 | reassembly succeeds exactly when the first arrival announces the number of results and the results carry matching ids and dimensions, are indexed 0..n-1 and tile the rows with correct lengths |
| MatrixTheorems.AssembledMatrixIsJoined | core/src/chunk_engine.ts:224-233 | a success is the chunks' bytes end to end in index order, every byte of the uninitialised buffer written exactly once |
| ReassemblyErrors.MatrixRefusedIff | core/src/chunk_engine.ts:149-222 | which error a set of results is refused with: the wrong number, then what is wrong with the first result in index order, or else missing rows |
| MatrixTheorems.ArrivalOrderIrrelevant | core/src/chunk_engine.ts:160-161 | two orders of arrival that both succeed give the same bytes, whatever either buffer held |
| MatrixTheorems.SuccessOrderFreeIff | core/src/chunk_engine.ts:153-158 | every order of arrival succeeds exactly when every result announces the right total |
| MatrixTheorems.FirstTotalDecides | core/src/chunk_engine.ts:153-158 | two concrete results that reassemble in one order and are refused in the other |
| MatrixTheorems.PartitionedProductIsExact | core/src/chunk_engine.ts:43-234 | for any multiply-add, any M, K, N > 0 and any chunk count of at least 1, the row bands' products reassembled in any order are the single-call product |
| MatrixTheorems.ExecuteChunkedMatrix | core/src/ipc_server.ts:932-1129 | from request to reply: the errors that escape, the kernel's answer to the whole payload exactly when its size is right and every chunk's dispatch succeeds, and otherwise FAILED or LOCAL_FALLBACK |
| VideoChunks.PartitionVideoFrames | core/src/chunk_engine.ts:451-498 | which error is raised when, and that chunk i carries exactly frames i·c and on, c of them or as many as there are left, as a slice of the video; chunk sizes below 1 count as 1 |
| VideoChunks.AnalyzeFrames | core/src/simulation_worker.ts:100-171 | one entry for every frame the input holds, numbered from the start index: the measures of exactly that frame's slice of the input, and its motion against exactly the slice before it, 0 for the first |
| VideoChunks.AnalyzeVideoFrames | worker-macos/Sources/SwarmXWorker/Execution/ImageProcessingKernel.swift:336-462 | the macOS kernel, which keeps the previous frame, measures the same slices, or nothing on arguments it refuses |
| VideoChunks.SinglePassMeasures | core/src/simulation_worker.ts:100-171 | the pass the theorems speak of measures every whole frame of the input, by slices |
| VideoChunks.AssembleVideoAnalysis | core/src/chunk_engine.ts:503-543 | the loop with its early exits equals the reassembly function |
| VideoChunks.AssembleVideoSucceedsIff | core/src/chunk_engine.ts:507-521 | reassembly succeeds exactly on one result for each of 0..n-1, in any order, all of the right workload, whatever total they announce |
| ReassemblyErrors.VideoRefusedIff | core/src/chunk_engine.ts:507-521 | which error a set of results is refused with: what is wrong with the first result in index order |
| ReassemblyErrors.VideoJoined | core/src/chunk_engine.ts:523-540 | a success is, in index order, the metrics of each result's JSON text or array, none of bytes, and nothing more |
| VideoChunks.ChunkBounds | core/src/chunk_engine.ts:471-477 | chunks start inside the video and are non-empty exactly for the indices used, and reach its end |
| VideoTheorems.ChunkedAnalysisAssembles | core/src/chunk_engine.ts:500-543 | chunk answers in any order of arrival assemble to the frames, in order, of the chunks computed remotely, with motion zero at each chunk's first frame; chunks answered in bytes leave a gap |
| VideoTheorems.AnalysisCompleteIff | core/src/chunk_engine.ts:523-540 | what is assembled has the length of the video exactly when every chunk was computed remotely, and then it is the whole chunked pass |
| VideoTheorems.SimulatedChunkIsLost | core/src/simulation_worker.ts:488-498 | one chunk, computed by the simulation worker without any failure, assembles to nothing |
| VideoTheorems.ChunkingHarmlessIff | core/src/simulation_worker.ts:143-171 | chunking equals a single pass exactly when no frame at a chunk boundary moves; otherwise it differs in nothing but those frames' motion |
| VideoPool.PoolPartitions | core/src/ipc_server.ts:1666-1678 | under every interleaving of the consumers, queued, held and finished specifications partition the original ones, and the queue keeps its order |
| VideoPool.StoppedIsComplete | core/src/ipc_server.ts:1680-1682 | once every consumer has stopped, each specification was finished exactly once |
| VideoPool.RunsAreShort | core/src/ipc_server.ts:1671-1678 | no run has more than two events per specification and one per consumer |
| VideoPool.PoolResultIsExact | core/src/ipc_server.ts:1666-1695 | however the consumers interleave and whoever computes which chunk, the assembled analysis is the same: the frames of the chunks computed remotely |
| VideoExecution.ConsumerPool.Shift | core/src/ipc_server.ts:1672-1674 | the head of a consumer's loop takes the front of the queue, or stops on an empty one |
| VideoExecution.ConsumerPool.Finish | core/src/ipc_server.ts:1675-1676 | a returned dispatch adds its result and frees its consumer, nothing else |
| VideoExecution.ConsumerPool.Crash | core/src/ipc_server.ts:1671-1678 | a dispatch that throws ends its consumer and keeps its specification from the others |
| VideoExecution.RunPool | core/src/ipc_server.ts:1666-1688 | with consumers chosen arbitrarily, all results come back exactly when every chunk's dispatch succeeds, and then assemble to the frames computed remotely |
| VideoExecution.ExecuteChunkedVideoAnalysis | core/src/ipc_server.ts:1596-1774 | from request to reply: the errors that escape, the chunked pass exactly when every chunk's dispatch comes back from a remote worker, and otherwise FAILED or LOCAL_FALLBACK |
| VideoExecution.FirstTriesDecide | core/src/ipc_server.ts:1817-1937 | with the retries of each dispatch, every chunk comes back from a remote worker exactly if every first try is answered remotely with a valid result |
| ChunkDispatch.DispatchWithRetry | core/src/ipc_server.ts:1140-1275 | the loop on the shared task table comes to the outcome that the row and the tries determine, and leaves exactly their failures on record, each with its worker, its reason and one retry; it completes the task if it delivers, otherwise leaves its row free or, if no try was made, as it was, and touches no other task |
| ChunkDispatch.TryEffects | core/src/ipc_server.ts:1199-1271 | a delivered try completes the task; any other one uses up one retry, or two if its result was heard and invalid or the simulation failed, and leaves the row with no worker and no lease |
| ChunkDispatch.RetriesNeverHeard | core/src/transport_server.ts:185-192 | once the retry count has passed the number sent, only the simulation worker can deliver |
| ChunkDispatch.RemoteDeliversFirst | core/src/ipc_server.ts:1171-1274 | what a remote worker delivers was delivered on the first try |
| ChunkDispatch.DeliveredIff | core/src/ipc_server.ts:1171-1274 | for a new chunk, exactly which three tries deliver: a valid first answer, or the simulation worker second, or third after two tries charged once each |
| ChunkDispatch.OnlyInvalidExcludes | core/src/ipc_server.ts:1230-1270 | of the failures a dispatch leaves on record, only those of invalid results rule their workers out for the task |
| Graph.CycleSearch.CheckCycle | core/src/dag_engine.ts:114-128 | the recursive search terminates; if it reports a cycle its path is a walk that revisits a node, otherwise everything in reach is visited and off every cycle |
| Graph.EndlessDescentIsCycle | core/src/dag_engine.ts:105-137 | a non-empty finite set in which every node has a parent contains a cycle |
| DagEngine.DetectCycles | core/src/dag_engine.ts:105-137 | reports a cycle exactly when the dependency graph has one |
| DagEngine.Engine.ValidateDag | core/src/dag_engine.ts:46-103 | accepts exactly the structurally sound acyclic DAGs that produce their declared outputs, and otherwise raises the first of the nine errors in the order of the checks |
| DagValidation.RejectedWithIff | core/src/dag_engine.ts:46-103 | when a DAG is rejected with which of the nine errors: the first complaint of the first loop about ids and kernels, then of the second about dependencies and inputs, then cycles, then outputs |
| DagEngine.Engine.RegisterDag | core/src/dag_engine.ts:142-198 | on acceptance installs the initial state, with input artifacts counted by reference, and otherwise changes nothing |
| DagValidation.StageRegistered | core/src/dag_engine.ts:177-187 | a registered stage waits exactly if it has dependencies, unassigned, at attempt 0 |
| DagValidation.InputRegistered | core/src/dag_engine.ts:149-175 | each input becomes an artifact with the last buffer given under its name, counted once for each time a stage names it |
| DagEngine.Engine.AssignStage | core/src/dag_engine.ts:213-229 | hands out exactly ready stages of uncancelled DAGs, one attempt further; all four refusals |
| DagEngine.Engine.CompleteStage | core/src/dag_engine.ts:235-323 | the five refusals in order, or the full new state: artifact stored and counted, inputs released, every enabled pending stage promoted; the list returned holds exactly the stages that were pending before and are ready after, each once |
| DagEngine.Engine.FailStage | core/src/dag_engine.ts:329-352 | back to ready below three attempts, failed for good at three, and what is reported |
| DagEngine.Engine.CancelDag | core/src/dag_engine.ts:357-375 | exactly pending, ready and running stages are cancelled and every buffer is dropped |
| DagRuns.RunKeepsSafe | core/src/dag_engine.ts:213-375 | the stage invariant survives every run in which workers report only on attempts handed out |
| DagRuns.DependencySafety | core/src/dag_engine.ts:300-314 | in every run, stages that are ready, running, complete or were ever handed out have all dependencies complete, and no attempt number exceeds 3 |
| DagRuns.CompletedIsFinal | core/src/dag_engine.ts:249-252 | COMPLETED is never left, whatever is reported |
| DagRuns.RunCounts | core/src/dag_engine.ts:224-258 | the attempt number counts the assignments of a run, and at most one result is accepted |
| DagRuns.BoundedAttempts | core/src/dag_engine.ts:342-351 | a stage is handed out at most 3 times and completes at most once in any run |
| DagRuns.FailureSafeIff | core/src/dag_engine.ts:339-347 | a failure report keeps the invariant exactly when the stage's dependencies are complete, cancelled DAGs included |
| DagRuns.UnstartedFailure | core/src/dag_engine.ts:339-347 | a failure report makes a concrete stage ready that still waits for its dependency |
| DagRuns.CompletionSafeIff | core/src/dag_engine.ts:249-258 | a completion keeps the invariant exactly when the stage was handed out at least once |
| DagRuns.UnassignedCompletion | core/src/dag_engine.ts:249-258 | a report of attempt 0 completes a concrete stage that still waits for its dependency |
| DagRuns.AcceptedFromAssigneeIff | core/src/dag_engine.ts:253-258 | in every run, results for the current attempt are accepted from nobody but the worker it was handed to exactly while the stage remembers that worker: in a DAG not cancelled, until a failure report makes it ready again |
| DagRuns.Perform | core/src/dag_engine.ts:213-375 | each event of a run is what the engine's method does to the DAG's state |
| DagRuns.DeadlockFreedom | core/src/dag_engine.ts:300-320 | in every reachable uncancelled state, if no stage is ready, running or failed then all are complete |
| DagHistory.StageStep | core/src/dag_engine.ts:213-375 | what each event does to each stage's status, worker, attempt and error, in terms of the event and the state alone |
| DagHistory.RejectionIs | core/src/dag_engine.ts:243-258 | which of the four reasons a completion report on a DAG is ignored for |
| DagHistory.StageRemembers | core/src/dag_engine.ts:339-351 | in every run, a stage's error is that of the last failure reported before it was complete, and its worker the last it was handed to, unless a failure made it ready again |
| DagHistory.DagTellsRun | core/src/dag_engine.ts:316-320 | in every run, a DAG is marked as cancelled exactly if it was, and carries the time its last stage completed exactly if all are complete |
| DagHistory.CompletionStores | core/src/dag_engine.ts:260-298 | for any wiring, an accepted completion stores the output it brings, counted once per reading stage, over what was there, and then counts down what the stage names as input |
| DagHistory.OtherEventsKeepArtifacts | core/src/dag_engine.ts:357-375 | cancelling empties every artifact; all other events leave artifacts alone |
| DagArtifacts.AncestorsCompleted | core/src/dag_engine.ts:303-307 | a stage that has started has every stage upstream of it complete, at any distance |
| DagArtifacts.ReleaseCounts | core/src/dag_engine.ts:288-298 | an artifact is counted down once per reference, repetitions included, and freed exactly when that uses up the count |
| DagArtifacts.ArtifactLifetime | core/src/dag_engine.ts:265-298 | in every uncancelled run of a well-wired DAG, an intermediate exists once its producer is complete, its count is the consumers not yet complete, and its buffer is freed exactly when the last one completes |
| DagArtifacts.ArtifactHoldsOutput | core/src/dag_engine.ts:260-298 | in every uncancelled run of a well-wired DAG, the artifact of a completed stage holds exactly the output in the result that was accepted for it, as the events give it, until its last reader completes, and nothing from then on |
| DagArtifacts.ReaderFindsOutput | core/src/dag_engine.ts:260-298 | a ready or running stage finds exactly those bytes under each name it reads that a stage produces |
| DagArtifacts.InputsAvailable | core/src/dag_engine.ts:265-298 | no ready or running stage, retries included, finds an input without its buffer |
| DagCompletion.ClosedSetCompletes | core/src/dag_engine.ts:213-323 | every set of stages closed under dependencies can be completed by a legal run that leaves all other stages untouched |
| DagCompletion.EveryDagCompletes | core/src/dag_engine.ts:316-320 | every registered DAG can be completed |
| DagCompletion.CountsExactIff | core/src/dag_engine.ts:265-298 | with one producer per artifact, upstream of its readers, reference counts equal the waiting consumers in every run exactly when a stage that names an artifact more than once is the last to read it |
| DagCompletion.RepeatBreaksCount | core/src/dag_engine.ts:288-298 | any stage that repeats a reference, with another reader not upstream of it, breaks the count in some legal run |
| DagCompletion.InputsAvailableIff | core/src/dag_engine.ts:265-298 | with one producer per artifact and repeated readers last, ready and running stages find their inputs in every run exactly when every producer is upstream of its readers |
| DagCompletion.ReaderBeforeProducer | core/src/dag_engine.ts:87-91 | a reader that does not depend on the producer can be made ready by a legal run before the artifact exists |
| DagCompletion.LifetimesExactIff | core/src/dag_engine.ts:265-298 | for every registrable DAG in which no stage reads its own output or is named `__INPUT__`, artifact lifetimes are exact in every run exactly when each artifact has one producer, upstream of all readers, and repeated readers come last |
| DagCompletion.SharedOutputBreaks | core/src/dag_engine.ts:265-276 | two stages with the same output: in some legal run the artifact exists while one of them is not complete |
| DagCompletion.EarlyReaderBreaks | core/src/dag_engine.ts:265-276 | a reader that does not depend on the producer can complete first, and the new artifact counts it all the same |
| DagCompletion.FinishedOutputIff | core/src/dag_engine.ts:288-298 | after a complete run, a stage's artifact still has its buffer exactly if no stage reads it |
| DagCompletion.OutputsKeptIff | core/src/dag_engine.ts:93-102 | every complete run of a well-wired DAG keeps its declared outputs exactly if no stage reads any of them, DAG inputs aside |
| DagCompletion.RepeatFreesEarly | core/src/dag_engine.ts:288-298 | a concrete DAG that registers and a legal run after which a ready stage's input is gone |
| TaskStore.Store.ValidateDagCycle | core/src/db/task_store.ts:18-61 | rejects exactly the dependency lists that put a cycle within reach of the new task, with a walk that shows it |
| TaskStore.Store.CreateTask | core/src/db/task_store.ts:63-112 | inserts a pending row exactly when no cycle is in reach and the id is fresh, and otherwise changes nothing; which of the three refusals it is |
| TaskStore.Store.AssignTask | core/src/db/task_store.ts:149-175 | leases exactly pending tasks with satisfied dependencies; the three refusals |
| TaskStore.Store.StartTask | core/src/db/task_store.ts:177-200 | moves exactly assigned tasks to running under a new lease |
| TaskStore.Store.StealTask | core/src/db/task_store.ts:202-253 | moves exactly in-flight tasks to the thief as a new attempt, the loser on record |
| TaskStore.Store.RenewLease | core/src/db/task_store.ts:255-265 | renews exactly in-flight leases |
| TaskStore.Store.RenewWorkerLeases | core/src/db/task_store.ts:267-276 | each in-flight row of the worker gets the new expiry and update time, every other row is as it was, and the count returned is the number of rows renewed |
| TaskStore.Store.CompleteTask | core/src/db/task_store.ts:278-300 | completes exactly in-flight tasks and drops their lease |
| TaskStore.Store.EndTask | core/src/db/task_store.ts:302-354 | fails or abandons exactly tasks that are not terminal, leaving exactly the given status and the retry count as it was |
| TaskStore.Store.Recover | core/src/db/task_store.ts:356-535 | each of the three sweeps reclaims exactly its matching in-flight rows and no other; the two lists hold exactly the rows that changed, as they now are, sorted into recovered and failed |
| TaskStore.Store.RecordTaskFailure | core/src/db/task_store.ts:569-602 | takes back the task whatever its status, charging the reporting worker |
| TaskStore.Store.GetExcludedWorkerIds | core/src/db/task_store.ts:548-563 | exactly the workers charged with one of the three excluding reasons on the task's record |
| WorkloadPipeline.Pipeline.CheckFences | core/src/workload_pipeline.ts:158-195 | duplicate, worker and attempt fences before the await: which of the four rejections exactly when, in terms of the row |
| WorkloadPipeline.Pipeline.ResumeResult | core/src/workload_pipeline.ts:197-281 | after the await, on whatever state it then finds: exactly the store transition, bookkeeping and notification the verdict calls for, without a second look at the fences |
| WorkloadPipeline.Pipeline.HandleTaskResult | core/src/workload_pipeline.ts:158-281 | both halves with nothing in between |
| WorkloadPipeline.Pipeline.CancelWorkload | core/src/workload_pipeline.ts:89-114 | forgets the in-flight set and settles exactly the listeners of unfinished tasks; the task table is not touched |
| WorkloadPipeline.SettlingConserves | core/src/workload_pipeline.ts:224-230 | settling moves a chunk between in-flight, completed and failed and leaves their sum; it changes the books exactly for a tracked chunk and a settling outcome |
| WorkloadBooks.BooksBalance | core/src/workload_pipeline.ts:82-114 | in every run of tracking, results, cancellations and store transactions, completed, failed and in-flight chunks are the chunks tracked less those in flight when the workload was cancelled |
| WorkloadBooks.BooksCompleteIff | core/src/workload_pipeline.ts:89-114 | no tracked chunk is lost from the books exactly when every cancellation finds nothing in flight |
| WorkloadBooks.ColumnsCount | core/src/workload_pipeline.ts:224-262 | in every run, completedChunks counts the valid results on chunks in flight and failedChunks the invalid ones, and the workload is marked as cancelled exactly if it was |
| WorkloadBooks.Perform | core/src/workload_pipeline.ts:82-281 | each event of such a run is what the pipeline's method does to table and books |
| Fencing.LeaseInvariant | core/src/db/task_store.ts:149-602 | in every run, in-flight tasks have a worker and a lease, all others no lease, and pending ones no worker and a retry count below 3 |
| Fencing.WorkerLossIsExact | core/src/db/task_store.ts:362-415 | after a worker's loss a row differs exactly if it was in flight at that worker, and is then taken back with one retry used up; nothing stays in flight there |
| Fencing.ExpiryIsExact | core/src/db/task_store.ts:422-474 | after an expiry sweep a row differs exactly if it was in flight under a lease that ended before now, and is then taken back |
| Fencing.CrashIsExact | core/src/db/task_store.ts:483-535 | after crash recovery a row differs exactly if it was in flight, and is then taken back |
| Fencing.CrashSweepEmptiesFlight | core/src/db/task_store.ts:476-535 | after crash recovery nothing is in flight |
| Fencing.RenewalShieldsFromSweep | core/src/db/task_store.ts:267-276 | renewing a worker's leases keeps its tasks from an expiry sweep for exactly the lease time, and touches no other task |
| Fencing.LeaseLastsExactly | core/src/db/task_store.ts:149-265 | a task just assigned, started, stolen or renewed survives an expiry sweep exactly until the lease time is over |
| Fencing.EndingsDiffer | core/src/db/task_store.ts:302-354 | failTask leaves FAILED and abandonTask ABANDONED, worker and retries as they were |
| Fencing.OneHolderPerAttempt | core/src/workload_pipeline.ts:184-195 | over whole runs, one task and attempt number have at most one lease holder |
| Fencing.FencedCompletion | core/src/workload_pipeline.ts:164-216 | a numbered result completes a task exactly when it is valid and its worker and attempt are the current holder's |
| Fencing.UnnumberedCompletion | core/src/workload_pipeline.ts:184-195 | without a number only the worker is fenced |
| Fencing.LostAttemptNeverCompletes | core/src/workload_pipeline.ts:174-195 | an attempt lost to expiry, theft, disconnection, crash or failure never passes the fences to complete the task later, whoever reports it |
| Fencing.KeptNumberCompletesIff | core/src/transport_server.ts:185-192 | a result numbered by a row read earlier completes the task exactly while no retry has been used up since, under any other events |
| Fencing.UsedNumberIgnored | core/src/workload_pipeline.ts:184-195 | once it has, such results change nothing in any later state |
| Fencing.UsedNumberNeverCompletes | core/src/workload_pipeline.ts:184-195 | if all of a task's results carry the number of an attempt that is over, no run completes it |
| Fencing.OnlyResultsComplete | core/src/workload_pipeline.ts:200-216 | in every run, a task becomes completed only through a valid result, past the fences or resumed after its await |
| Fencing.FencedAcrossAwaitIff | core/src/workload_pipeline.ts:197-253 | with other events during validation, a result that passed the fences acts on its own attempt, whichever the verdict, exactly when the task is still in flight with the same retry count |
| Fencing.ResumeEffects | core/src/workload_pipeline.ts:197-253 | a valid verdict changes the task exactly if it is in flight; an invalid one takes it back whatever its status |
| Fencing.StolenWhileValidating | core/src/workload_pipeline.ts:197-253 | a steal during validation: the old holder's result completes the thief's attempt if valid and takes the task from the thief if not |
| Fencing.CompletedWhileValidating | core/src/workload_pipeline.ts:197-253 | of two results of one holder, both past the fences, the invalid one takes back what the valid one completed |
| Fencing.TerminalKeptIff | core/src/db/task_store.ts:302-354 | terminal tasks keep their status under every event exactly unless it charges them a failure; a charged one stays failed only if the retries are used up |
| Fencing.CompletedKeptIff | core/src/db/task_store.ts:576-602 | a completed task stays completed under every event except a failure recorded against it or an invalid result resumed after its await |
| Fencing.CompletedTakenBack | core/src/db/task_store.ts:576-602 | a recorded failure puts a concrete completed task back into the queue |
| Fencing.ExhaustedIsFinal | core/src/db/task_store.ts:591-591 | a task that has failed with its retries used up stays failed in every run |
| Fencing.CompletedIsFinal | core/src/db/task_store.ts:278-300 | completion is final in every run without such a failure |
| Fencing.RetryBudget | core/src/db/task_store.ts:383-411 | in every run from an empty table, assignTask succeeds at most 3 times per task |
| Fencing.HistoryCountsRetries | core/src/db/task_store.ts:302-354 | history entries exceed the retry count by exactly the entries of failTask and abandonTask |
| Fencing.FailedWorkerStaysExcluded | core/src/db/task_store.ts:545-563 | a worker whose result failed validation is excluded from the task in every later state |
| Fencing.RecordedFailureExcludesIff | core/src/db/task_store.ts:552-561 | a recorded failure excludes its worker, and nobody else, exactly when its reason is one of the three |
| Fencing.DispatchFailuresExcludeNobody | core/src/ipc_server.ts:1232-1267 | the reasons the chunk dispatchers record exclude nobody |
| Fencing.DependencyCountIff | core/src/db/task_store.ts:132-144 | counting completed rows means all dependencies are complete exactly when none is named twice |
| Fencing.NewTaskSearchSuffices | core/src/db/task_store.ts:33-60 | searching from the new task alone finds every cycle it could have closed, dangling references included |
| Fencing.DependenciesStayAcyclic | core/src/db/task_store.ts:18-112 | every reachable table has an acyclic dependency graph, also when tasks name dependencies created only later |
| Fencing.AcceptedIffAcyclic | core/src/db/task_store.ts:63-65 | in every reachable table, a fresh id is accepted exactly when the extended graph has no cycle |
| Fencing.Perform | core/src/db/task_store.ts:149-602 | each event of a run is what the store's and the pipeline's methods do to the table |
| RowHistory.RowStep | core/src/db/task_store.ts:149-602 | what each event does to each row, column by column, in terms of the event and the row alone, with the worker and the reason each entry of the history names |
| RowHistory.RowCreated | core/src/db/task_store.ts:63-112 | only its creation makes a row: pending, no retry used, no worker, empty history |
| RowHistory.RowTellsRun | core/src/db/task_store.ts:149-602 | in every run that creates the task, its worker is the last it was handed to unless it was charged since, its lease the last put on it unless ended, and its history one entry per theft, charge and ending, in order |
| RowHistory.ExcludedIff | core/src/db/task_store.ts:552-561 | exactly the three reasons rule a worker out |
| BinaryFraming.EncodeBinaryFrame | core/src/binary_framing.ts:20-43 | the stamped metadata, the two size errors exactly, and every byte of the frame |
| BinaryFraming.StampDeclares | core/src/binary_framing.ts:21-26 | the stamped size is the declaration a reader finds first, whatever else the metadata declares |
| BinaryFraming.StampWrites | core/src/binary_framing.ts:20-27 | the size is written at the top and inside a `result` object, and nothing else changes |
| BinaryFraming.FirstPlaceDecides | core/src/binary_framing.ts:77-84 | a payload size is declared by the first of seven named places that holds something other than null |
| BinaryFraming.DecodeInvertsEncode | core/src/binary_framing.ts:50-113 | decoding a frame followed by any bytes returns exactly that frame and its length |
| BinaryFraming.PrefixIsNotYet | core/src/binary_framing.ts:50-101 | every strict prefix of a frame decodes to "not yet", never to an error |
| BinaryFraming.SelfDelimitingIff | core/src/binary_framing.ts:90-92 | decoding is independent of what follows exactly when the metadata is an object |
| FrameOutcomes.DecodeOutcome | core/src/binary_framing.ts:50-113 | every case of decodeBinaryFrame: not yet, each of its errors, or exactly which frame |
| FrameReassembler.NextStableIff | core/src/ipc_server.ts:163-262 | a complete first message is independent of what follows exactly unless it is a frame whose required size is negative or NaN |
| FrameReassembler.ProgressIff | core/src/ipc_server.ts:190-205 | a turn takes bytes off the front exactly unless the required size it computes is 0 or reaches back to the start of the buffer |
| FrameReassembler.SpinsForever | core/src/ipc_server.ts:190-205 | a turn that takes no bytes repeats itself: the same message again and again |
| FrameReassembler.NegativeSizeSpins | core/src/ipc_server.ts:179-205 | a declared size of minus the header makes a frame do that |
| FrameOutcomes.FrameOutcome | core/src/ipc_server.ts:163-205 | every case of a turn on bytes that start with the magic: waiting, malformed, or what the frame is given and takes for every required size, negative ones and NaN included |
| FrameOutcomes.LineOutcome | core/src/ipc_server.ts:240-262 | every case of a turn on other bytes: everything up to the first newline, or waiting |
| FrameReassembler.Connection.TakeTurn | core/src/ipc_server.ts:153-262 | one turn on any chunk list and any bytes waits, emits or throws exactly as front-to-back decoding of the concatenation does, except that it throws on a head too short for the magic read; `FrameOutcome` and `LineOutcome` spell that decoding out |
| FrameReassembler.Connection.ProcessBuffer | core/src/ipc_server.ts:148-283 | on every stream on which the loop ends, it emits exactly the messages of the concatenation and keeps exactly the rest, dropping the buffer exactly on an unusable header or a short head |
| FrameReassembler.Connection.OnData | core/src/ipc_server.ts:285-292 | the same for one delivery on top of what was buffered |
| FrameStreams.SevenBytesSuffice | core/src/ipc_server.ts:157-163 | in every interleaving, deliveries of at least seven bytes never leave a head too short to read |
| FrameStreams.NoShortHeadIff | core/src/ipc_server.ts:157-163 | seven is the least such size, for every codec |
| FrameStreams.RunRefines | core/src/ipc_server.ts:148-283 | every interleaving of deliveries and turns refines decoding the delivered bytes followed by anything: what was emitted is final |
| FrameStreams.QuiescentRunIsDecoded | core/src/ipc_server.ts:148-283 | a run with nothing left to do has emitted exactly the messages of its bytes and holds exactly their rest |
| FrameStreams.DroppedIsMalformed | core/src/ipc_server.ts:274-283 | bytes are dropped only on a malformed header, after everything before it was emitted |
| FrameStreams.FragmentationIrrelevant | core/src/ipc_server.ts:143-292 | how bytes were cut into deliveries, and when the loop ran, makes no difference |
| FrameStreams.DecodersAgreeIff | core/src/ipc_server.ts:179-194 | on a frame the loop takes, decodeBinaryFrame agrees exactly within its own limits, or without a declaration when the frame ends the buffer |
| FrameStreams.LoopTakesFrames | core/src/binary_framing.ts:77-112 | the loop takes every frame decodeBinaryFrame takes that declares its size |
| FrameStreams.MessagesArrive | core/src/ipc_server.ts:143-292 | frames and text lines sent one after the other, in any mix, arrive whole and in order, for every fragmentation and timing: what was emitted is always a prefix of what was sent, and all of it once the loop waits |
| Scheduler.AllocateMultiChunkWorkload | core/src/scheduler.ts:93-120 | the loop's map is each eligible worker's share, and empty without eligible workers or items |
| Scheduler.SharingInOrder | core/src/scheduler.ts:98-98 | the filter keeps every eligible candidate with a positive score that is not excluded, as often as it is listed and in order |
| Scheduler.AllocationHolds | core/src/scheduler.ts:107-117 | distinct workers all keep their share and nobody else gets one |
| Scheduler.SharesSumToTotal | core/src/scheduler.ts:109-111 | the shares add up to exactly the items there are |
| Scheduler.ShareWithinHalf | core/src/scheduler.ts:112-115 | every share but the last is within one half of its proportional value and never negative |
| Scheduler.LastShareDrift | core/src/scheduler.ts:109-111 | the last share is within (n-1)/2 of its proportional value |
| Scheduler.SharesAreCountsIff | core/src/scheduler.ts:107-117 | for distinct workers, whatever their scores, no share is negative exactly for at most three candidates or at most one item |
| Scheduler.OversharedIsNegative | core/src/scheduler.ts:93-120 | for every other number of candidates and items, distinct eligible workers of whom the last is allocated -1 |
| Scheduler.LargeLastShare | core/src/scheduler.ts:107-117 | a last proportional share of (n-1)/2 leaves no share negative |
| Scheduler.LastShareCanBeNegative | core/src/scheduler.ts:107-117 | a family of inputs in which the last worker gets 1 - items, as far off as the bound allows |
| Scheduler.CheckEligibility | core/src/scheduler.ts:136-186 | the chained tests of a worker are the conjunction of health, capability and kernel support |
| Scheduler.FilterBoundaries | core/src/scheduler.ts:136-186 | the thresholds of the filter at the values where they turn |
| Scheduler.ScoreMonotone | core/src/scheduler.ts:188-223 | with weights that are not negative, a worker no worse in throughput, load, memory, tasks in flight and failures never scores lower, and no score is negative |
| Scheduler.ScorePenalties | core/src/scheduler.ts:204-216 | a task in flight costs at least 0.5 before rounding, a failure exactly 0.3 of its weight up to the third and nothing from the fifth on |
| Scheduler.ScoreIsRounded | core/src/scheduler.ts:212-223 | a score is the weighted sum to within half of its fourth place, or 0 if the sum is not positive |
| Scheduler.ScoreExamples | core/src/scheduler.ts:188-223 | two scores worked out |
| Scheduler.ScheduleTask | core/src/scheduler.ts:122-271 | assigns exactly when some worker passes the filter and is not excluded, to the first worker under the name of the first one of the highest score; the two other statuses exactly; one candidate entry for each worker that passes, in order |

## Left out

- BoxBlur.SlideLine: the inner loop that both passes of the source spell out is written once, over a base and a stride; long source methods are likewise split into methods called in the source's order.
- BoxBlur.ComputeBoxBlur: the radius is natural, dimensions are positive and the input is large enough; on short input the source reads undefined samples.
- Gemm.ComputeMatrixMultiply: a float is an opaque 4-byte word and multiply-add any function of three words; the square root is exact.
- ImageChunks.PartitionImageFilter: the radius is natural, and rows and indices in results are naturals, as the partitioner produces them.
- ImageTheorems.ExecuteChunkedImage: whether a chunk's dispatch succeeds in the end is a parameter, in all three executions; `ChunkDispatch` says when it does. Event records and timings are not modelled, and request parameters are integers.
- ChunkDispatch.DispatchWithRetry: tries are parameters, and nothing else touches the task meanwhile; answers that come after their timeout are covered by `KeptNumberCompletesIff` if they are numbered, and left out if they are not.
- VideoChunks.AnalyzeFrames: the arithmetic on the pixels of a frame, or of two frames, is an arbitrary function into the reals; output text is a list of metrics or unreadable. The macOS kernel computes other values than the simulation worker; one kernel stands for both.
- DagRuns.RunKeepsSafe: workers are assumed to report only on attempts that were handed out; `FailureSafeIff` and `CompletionSafeIff` say what other reports do.
- DagArtifacts.ArtifactLifetime: holds in uncancelled runs of DAGs with one producer per artifact, producers upstream of their readers and repeated readers last, none of which registration checks; `LifetimesExactIff`, `CountsExactIff` and `InputsAvailableIff` say that they are needed. Inputs of the DAG are counted but never released by the source.
- DagEngine.Engine.RegisterDag: checksums, formats, sizes, timings and progress reports of stages and artifacts are not represented.
- Graph.CycleSearch.CheckCycle: one search serves both cycle checks; the path it keeps is the task store's, the DAG engine's search has none.
- TaskStore.Store.CreateTask: tasks are created pending and without a worker, and columns no transition looks at are not represented.
- TaskStore.Store.AssignTask: worker ids are non-empty, and the coercion of a lease time of 0 to "none" on reading is not modelled.
- TaskStore.Store.Recover: the three recovery methods are one method parametrised by the rows they select; the check for a closed database is left out.
- WorkloadPipeline.Pipeline.HandleTaskResult: throughput and instability updates of the scheduler are left out, and the validator's verdict is a parameter.
- BinaryFraming.DecodeInvertsEncode: JSON is an abstract pair of inverse functions on values with integer numbers; in decodeBinaryFrame, declared sizes that are no numbers are errors, where JavaScript would coerce them.
- FrameReassembler.Connection.TakeTurn: what `+` makes of a declared size that is no number is a parameter, taken as a whole number or NaN; text lines are bytes up to the newline, not trimmed, and assumed to be valid UTF-8.
- FrameReassembler.Connection.ProcessBuffer: streams on which the source's loop never ends are excluded; `ProgressIff` and `SpinsForever` say which those are.
- FrameReassembler.Connection.OnData: the same.
- FrameStreams.RunRefines: a run ends at its first throw and meets no frame whose required size is 0, negative or NaN, which `ProgressIff` and `NextStableIff` show to be the exceptions; what handlers do with messages, and the replies, are not part of the model.
- Scheduler.ScheduleTask: memory sizes are positive, scores are exact reals, and of a candidate's entry only the final score is kept.
- Scheduler.SharesSumToTotal: scores are positive reals and division is exact; floating-point rounding is not modelled.
- `Array.prototype.sort` is taken to be a stable sort, and `Buffer.allocUnsafe` to return arbitrary contents.
- Cryptography, pairing, hashing, base64, sockets, mDNS, SQLite, timers and logging: I/O and foreign libraries.
- Distribution decisions, throughput averages, straggler medians: single formulas.
- Remaining workers and kernels, the extension, the dashboard, the Python SDK, demos and benchmarks: thin wrappers or user interface.
