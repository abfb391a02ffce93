# Distributed perfect-number search: master bookkeeping, aggregator and worker test

This project models, in Dafny, the sequential logic at the heart of a Java/ICE
master–worker system that searches an integer range for perfect numbers.

- The **master service** keeps a registry of worker proxies. Registration is
  idempotent by identity and gated by a ping. Liveness sweeps drop the workers
  whose ping fails.
- For a job, the master picks a prefix of the live workers, cuts the range into
  ceiling-sized contiguous sub-ranges with a cursor, and hands them out.
- Every selected worker that receives no sub-range, or whose send fails, is
  counted down on the **aggregator**'s latch. The aggregator (the
  `MasterController` servant) records each worker's partial result under its
  task id, counts the latch down, waits for it to reach zero or a timeout, and
  merges the results by concatenating and sorting them.
- Each **worker** scans its sub-range with a perfect-number test that walks the
  divisor pairs up to √n.

Modules, one per component:

- `Common`: nullable references as `Option`, `Math.min` / `Math.max`, the decimal rendering of a count, and whole-number division facts.
- `Sorting`: ascending order, the merge's sort, and the uniqueness of a sorted arrangement.
- `WorkerUtils`: the divisor-sum definition of a perfect number, the √n test, and the range scan.
- `Partition`: `Range`, the chunk size, the pieces the dispatch cursor produces, and the tiling lemmas.
- `MasterController`: the aggregator as an immutable value (`latch: Option<nat>` plus `map<string, WorkerResult>`), and event traces.
- `WorkerRegistry`: worker handles, registration, the liveness sweep, and worker selection.
- `MasterService`: the dispatch loop, the status rule, and the job entry point.
- `JobResults`: what the merged answer is when every piece is answered correctly.

Outside effects become parameters:

- A ping is an oracle `alive: Handle -> bool`.
- A dispatch send is an oracle `sendOk: Handle -> bool`.
- A null client notifier is the flag `hasNotifier`.
- The wait's timeout is the sequence `arrivals`: the aggregator calls that come
  in after the dispatch loop and before the waiting thread gives up.

Every state-changing operation returns the new state. So `getJobCompletionLatchCount`
and `getAllFoundPerfectNumbers`, which take the state and return only a value,
cannot change it.

Points of behaviour worth knowing, all stated as the code does them:

- Workers are selected and the latch is armed *before* the range is checked.
  An empty range (`end - start + 1 <= 0`) is only detected after that: the
  client gets "Rango inválido." and the latch is reset to 0. When no worker
  is live, that answer comes first and the latch is untouched.
- The chunk is `max(1, ceil(T/k))` for T numbers over k workers, and every
  piece but the last holds exactly one chunk; the last is clamped to the end
  of the range. So `[1,100000]` over 3 workers gives pieces of 33334, 33334
  and 33332 numbers (`Partition.ThreeWorkerSplit`): the remainder is not
  spread over the workers.
- The number of pieces is `ceil(T/chunk)` (`Partition.Pieces`), which can be
  fewer than the selected workers even when T ≥ k: 9 numbers over 4 workers
  give 3 pieces of 3, and the fourth worker gets no task
  (`Partition.NineOverFour`).
- A failed send leaves the worker in the registry; its piece is dropped, not
  reassigned, and the latch is counted down for it.
- Status texts are the code's own Spanish strings (`MasterService.StatusMessage`).

## Model

| member | source | states |
|---|---|---|
| `WorkerUtils.IsPerfect` | worker/src/main/java/com/example/worker/WorkerUtils.java:38-55 | The √n divisor-pair loop returns true exactly when n ≥ 1 and the sum of the divisors d of n with 1 ≤ d < n equals n; it is false for every n < 6. The loop invariant says `sum` = the divisors below i plus their partners n/d (the root counted once). |
| `WorkerUtils.SmallNotPerfect` | worker/src/main/java/com/example/worker/WorkerUtils.java:39-41 | No number below 6 is perfect by the divisor-sum definition, so the early `n < 6` exit loses nothing. |
| `WorkerUtils.PairStep` | worker/src/main/java/com/example/worker/WorkerUtils.java:44-50 | One iteration at candidate i (with i·i ≤ n) adds exactly i and, unless i·i = n, n/i when i divides n, and this moves the invariant from i to i+1. |
| `WorkerUtils.CofactorShift` | worker/src/main/java/com/example/worker/WorkerUtils.java:47-49 | Raising the threshold from i to i+1 admits exactly one new large divisor, n/i, and only when i divides n. |
| `WorkerUtils.CofactorAboveRoot` | worker/src/main/java/com/example/worker/WorkerUtils.java:44 | Once i·i > n, every divisor from i up to n has already been added as a partner, so the loop can stop. |
| `WorkerUtils.GetPerfectNumbersInRange` | worker/src/main/java/com/example/worker/WorkerUtils.java:18-30 | The result lies in [max(start,2), end]. It holds exactly the perfect numbers of [start, end] and is strictly ascending. It is empty when end < max(start,2). |
| `WorkerUtils.SixIsPerfect` | worker/src/main/java/com/example/worker/WorkerUtils.java:33-35 | 6 is perfect and 12 is not, by the divisor-sum definition. |
| `Partition.ChunkSize` | master/src/main/java/com/example/master/MasterServiceI.java:137 | The chunk is at least 1 and is the least size whose k copies cover the T numbers: chunk·k ≥ T > (chunk−1)·k. |
| `Partition.Pieces` | master/src/main/java/com/example/master/MasterServiceI.java:138-175 | The cursor walk from `cursor` to `end` yields no piece exactly when the cursor is already past the end, which is the loop's test for "range fully assigned" (line 144). |
| `Partition.PiecesCount` | master/src/main/java/com/example/master/MasterServiceI.java:143-175 | A non-empty walk makes ceil((end − cursor + 1)/chunk) pieces, one per loop iteration that finds work. |
| `Partition.PiecesTile` | master/src/main/java/com/example/master/MasterServiceI.java:138-175 | The cursor walk produces non-empty pieces inside [start,end]. The first starts at start, each next one starts at the previous end + 1, and the last ends at end. Every piece but the last has exactly chunk numbers; the last has between 1 and chunk. |
| `Partition.PiecesFitWorkers` | master/src/main/java/com/example/master/MasterServiceI.java:143-150 | When chunk·k ≥ T, there are at most k pieces, so the loop never runs out of workers before the range is used up. |
| `Partition.TilesDisjoint` | master/src/main/java/com/example/master/MasterServiceI.java:153-175 | In a tiling, a later piece starts after an earlier one ends: the pieces are pairwise disjoint and ascending. |
| `Partition.TilesCover` | master/src/main/java/com/example/master/MasterServiceI.java:138-175 | Every number of [start,end] lies in some piece. |
| `Partition.TilesUnique` | master/src/main/java/com/example/master/MasterServiceI.java:137-175 | Any tiling of [start,end] with a given chunk is exactly the cursor walk's pieces. |
| `Partition.ThreeWorkerSplit` | master/src/main/java/com/example/master/MasterServiceI.java:137-153 | [1,100000] over 3 workers: chunk 33334 and pieces [1,33334], [33335,66668], [66669,100000]. |
| `Partition.NineOverFour` | master/src/main/java/com/example/master/MasterServiceI.java:144-150 | [1,9] over 4 workers: chunk 3 and only three pieces, so one selected worker gets no task. |
| `MasterController.GetJobCompletionLatchCount` | master/src/main/java/com/example/master/MasterControllerI.java:66-68 | The remaining count of the latch, or 0 when there is no latch yet. |
| `MasterController.ResetForNewJob` | master/src/main/java/com/example/master/MasterControllerI.java:42-51 | Empties the partial results and arms a latch of n when n > 0, and of 0 otherwise. |
| `MasterController.HandleWorkerFailureOrNoTask` | master/src/main/java/com/example/master/MasterControllerI.java:53-64 | Counts the latch down by exactly 1 when it is above 0, and otherwise changes nothing. It never touches the partial results and never creates or removes the latch. |
| `MasterController.SubmitWorkerResults` | master/src/main/java/com/example/master/MasterControllerI.java:70-106 | Stores the result under the worker id and overwrites an earlier entry for that id. Other entries are unchanged and the key set gains only that id. It counts down exactly when the latch is above 0, so the count never goes negative. A late submission (count already 0, `IsLateSubmission`) is still recorded and leaves the latch as it was. |
| `MasterController.RunCountsDown` | master/src/main/java/com/example/master/MasterControllerI.java:53-56 | After any sequence of failure reports and submissions, the count is max(0, count − number of events), and whether a latch exists is unchanged. |
| `MasterController.CountNonIncreasing` | master/src/main/java/com/example/master/MasterControllerI.java:98-99 | Between resets the latch count never increases: the count after a trace is at most the count after any prefix of it. |
| `MasterController.InitialHasNoLatch` | master/src/main/java/com/example/master/MasterControllerI.java:29-30 | Before the first reset the latch is null: its count reads 0, no sequence of failure reports and submissions creates a latch, and a wait returns true at once (lines 54, 98 and 109-111). |
| `MasterController.AwaitJobCompletion` | master/src/main/java/com/example/master/MasterControllerI.java:108-133 | True at once when there is no latch or the count is 0. Otherwise it is true exactly when the calls arriving before the deadline bring the count to 0, that is, when there are at least as many arrivals as the count. |
| `MasterController.GetAllFoundPerfectNumbers` | master/src/main/java/com/example/master/MasterControllerI.java:135-147 | The merge is ascending and holds, with multiplicity, every number of every stored result. Nothing is deduplicated, so its length is the total count of stored numbers. |
| `Sorting.Sort` | master/src/main/java/com/example/master/MasterControllerI.java:142 | The sort returns an ascending permutation of its input. |
| `Sorting.SortedPermutationUnique` | master/src/main/java/com/example/master/MasterControllerI.java:137-143 | Two ascending sequences with the same multiset are equal, so the merged result does not depend on the order in which the map's entries are visited. |
| `WorkerRegistry.RegisterWorker` | master/src/main/java/com/example/master/MasterServiceI.java:43-70 | The list is unchanged for a null proxy, for an identity that is already registered, or when the ping fails. Otherwise the proxy is appended at the end. Registration keeps identities unique. |
| `WorkerRegistry.PruneDead` | master/src/main/java/com/example/master/MasterServiceI.java:223-238 | The sweep keeps exactly the workers whose ping succeeds, as a subsequence of the registry in registration order. |
| `WorkerRegistry.PruneDeadCounts` | master/src/main/java/com/example/master/MasterServiceI.java:236-238 | Each live worker keeps as many copies as the registry holds and a dead one keeps none, as `removeAll` does. |
| `WorkerRegistry.PruneKeepsUnique` | master/src/main/java/com/example/master/MasterServiceI.java:87-89 | Removing dead workers keeps identities unique. |
| `WorkerRegistry.PruneAllAlive` | master/src/main/java/com/example/master/MasterServiceI.java:87-88 | When every ping succeeds, the sweep leaves the registry as it was. |
| `WorkerRegistry.GetActiveWorkerCount` | master/src/main/java/com/example/master/MasterServiceI.java:73-93 | Returns the registry after the sweep and its length, which is the number of workers that answered. |
| `WorkerRegistry.WorkersToEngage` | master/src/main/java/com/example/master/MasterServiceI.java:246-248 | With live workers, the count is in [1, min(live, 10)]. It equals the request when the request is in range, is 1 for a non-positive request, equals the live count when the request exceeds it and at most 10 are live, and is the cap 10 when both the request and the live count reach 10. |
| `WorkerRegistry.SelectWorkersForTask` | master/src/main/java/com/example/master/MasterServiceI.java:218-256 | The selection is empty exactly when no worker answers the ping. Otherwise it is the first min(max(1,req), live, 10) live workers in registration order, at most 10 of them. The registry is left swept. |
| `MasterService.DispatchSubRanges` | master/src/main/java/com/example/master/MasterServiceI.java:137-176 | The i-th selected worker gets the i-th piece of the cursor walk while pieces remain, and gets nothing afterwards. A failed send still consumes its piece, so the cursor moves on. Every worker that is not dispatched counts the latch down once and results are untouched. Starting from a count of k, the count after the loop is the number dispatched. |
| `MasterService.MarkRemainingNoTask` | master/src/main/java/com/example/master/MasterServiceI.java:144-149 | Once the range is used up, every remaining selected worker is recorded as having no task and counts the latch down once. |
| `MasterService.PlannedHoldsPiece` | master/src/main/java/com/example/master/MasterServiceI.java:143-175 | What the loop does for the i-th selected worker: it holds a piece exactly when i is below the number of pieces, and then it is the i-th piece; it is dispatched exactly when it holds a piece and the send succeeds. |
| `MasterService.AllSentDispatchesEveryPiece` | master/src/main/java/com/example/master/MasterServiceI.java:166-168 | When every send succeeds, the number dispatched equals the number of pieces. |
| `MasterService.ChooseStatus` | master/src/main/java/com/example/master/MasterServiceI.java:190-200 | With selected workers, the status is "nothing dispatched" exactly when none was dispatched. Otherwise it is "completed by N workers" exactly when the wait succeeded and "timed out" exactly when it did not. The "no live workers" text is chosen only when nothing was selected. |
| `MasterService.StatusMessage` | master/src/main/java/com/example/master/MasterServiceI.java:192-199 | The completion text carries the number of participating workers in decimal between its fixed prefix and suffix (line 198). The other texts, and those at lines 115 and 129, are fixed strings. |
| `MasterService.StatusMessagesDistinct` | master/src/main/java/com/example/master/MasterServiceI.java:190-200 | Different statuses give different texts, so the requester can tell every outcome, and the participant count, from the message alone. |
| `Common.NatToString` | master/src/main/java/com/example/master/MasterServiceI.java:198 | The decimal rendering of a count, as string concatenation with an `int` does it, is non-empty and made only of the digits 0-9. |
| `Common.NatToStringValue` | master/src/main/java/com/example/master/MasterServiceI.java:198 | The rendering denotes the count: read back as decimal digits it gives n, and it has no leading zero. |
| `Common.NatToStringInjective` | master/src/main/java/com/example/master/MasterServiceI.java:198 | Different counts render differently. |
| `MasterService.DispatchAndCollect` | master/src/main/java/com/example/master/MasterServiceI.java:137-215 | After both early exits, the pieces go out as planned and the background thread waits on one count per dispatched worker (the latch is reset to 0 when none was). The requester gets the ascending union of the stored results, and the status is completed exactly when at least that many calls arrived. |
| `MasterService.FindPerfectNumbersInRange` | master/src/main/java/com/example/master/MasterServiceI.java:96-216 | A null notifier changes nothing. With no live worker, the answer is an empty result and "no workers", the aggregator is untouched, and the registry is swept. An empty range gives an empty result, "Rango inválido." and a latch of 0. Otherwise the job runs over the selected workers as `DispatchAndCollect` states. |
| `MasterService.CorrectAnswersReportAllPerfects` | master/src/main/java/com/example/master/MasterServiceI.java:143-200 | If every send succeeds and every piece is answered once with its correct scan, under distinct task ids and in any order, the requester gets exactly the perfect numbers of the job range, strictly ascending, with status "completed" by one worker per piece. |
| `JobResults.WorkerAnswer` | worker/src/main/java/com/example/worker/WorkerServiceI.java:28-43 | The worker scans its piece and submits the result under the task id it was given; the submitted numbers are exactly the perfect numbers of the piece, each once, ascending, which is the correct answer the end-to-end lemma assumes. |
| `JobResults.FreshSubmissionsCollected` | master/src/main/java/com/example/master/MasterControllerI.java:83 | Submissions under pairwise distinct ids into empty results leave exactly those ids as keys, and their numbers as the collection. |
| `JobResults.SubmittedOnce` | master/src/main/java/com/example/master/MasterControllerI.java:135-143 | When every submission is the strictly ascending scan of a different piece of a tiling, no number is collected twice. |
| `JobResults.MergeOfCorrectAnswers` | master/src/main/java/com/example/master/MasterControllerI.java:135-143 | The sorted merge of correct answers for every piece holds exactly the perfect numbers of the job range, each once, in ascending order. |

## Left out

- ICE plumbing is not modelled: proxies, `ice_ping`, `processSubRangeAsync`, `notifyJobCompletionAsync`, `checkedCast`, and exceptions across the RPC boundary. Ping and send results are the oracles `alive` and `sendOk`, and the notifier call is the returned `Notification`.
- Concurrency is not modelled: `CompletableFuture` background execution, the real blocking of `CountDownLatch.await`, and the thread safety of `CopyOnWriteArrayList` / `ConcurrentHashMap`. No submission arrives during the dispatch loop. The calls that arrive afterwards are the sequence `arrivals`.
- MasterController.AwaitJobCompletion: does not model the `InterruptedException` path, which returns false whatever the count. A wait that ends early is instead a shorter `arrivals`.
- Clocks are left out: `System.currentTimeMillis`, the elapsed time sent to the client, and the workers' processing times (stored but never read).
- Random and derived identifiers are left out: `UUID`-based job and log ids, and the construction of the per-worker task id string. Task ids are given as inputs.
- `getProxyStringRepresentation` is not modelled. `MasterService.ProxyString` stands in for it, and the id it gives is only ever logged.
- Output is left out: all console output and the appends to `tiempos_ejecucion.txt`.
- The `processedSubRange` argument of `submitWorkerResultsAsync` and the `jobLogId` argument of `resetForNewJob` are only logged, so they are dropped.
- Java `long` overflow is not modelled; integers are unbounded. The overflows this leaves out include: `end - start + 1` at the extremes of `long` (MasterServiceI.java:125); `totalNumbersToProcess + workersForThisJob.size() - 1` (line 137) wrapping negative when T is near `Long.MAX_VALUE`, as in `[1, MAX]` over 3 workers, where the chunk becomes 1, the pieces are `[1,1]`, `[2,2]`, `[3,3]`, the numbers 4..MAX are never sent and the status still reads completed by 3 workers; `currentSubRangeStart + numbersPerWorker - 1` (line 153) wrapping negative near `Long.MAX_VALUE`, as in `[MAX-9, MAX]` over 3 workers, where the third piece's end wraps, lines 155-159 run and the last two numbers are never sent; `currentSubRangeEnd + 1` (line 175) wrapping to `Long.MIN_VALUE` after a piece ending at `Long.MAX_VALUE`, as in `[MAX-8, MAX]` over 4 workers, so the exhaustion test at line 144 never fires and a spare worker is sent `[MIN, MIN+chunk-1]`; `i++` in the worker's scan (WorkerUtils.java:24) wrapping from `Long.MAX_VALUE` to `Long.MIN_VALUE` when `end == Long.MAX_VALUE`, so `i <= end` stays true and the scan never returns; and `i * i` and `sum` in the worker's test for huge n.
- The branch `currentSubRangeStart > currentSubRangeEnd` (MasterServiceI.java:155-159) has no counterpart in the model. Without `long` overflow it cannot run: the cursor is at most `end` there and the chunk is at least 1, so every piece is non-empty (`Partition.PiecesTile`). With overflow it can (previous line).
- The fixed 600000 ms timeout value is not modelled; only its effect through `arrivals` is.
- The worker side's asynchronous wrapper, its thread pool, its timing and its callback proxy (`WorkerServiceI`) are not modelled. Their effect is the `Event.Submitted` that `JobResults.WorkerAnswer` builds, whose numbers satisfy the contract of `WorkerUtils.GetPerfectNumbersInRange`.
- Bootstrap and UI are not modelled: `MasterApp`, `WorkerApp`, `ClientApp`, `ClientAppLauncher`, `ClientViewController` and `ClientNotifierI` hold no modellable logic.
