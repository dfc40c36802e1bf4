# Verification of the workflow engine, caches, limiters and small state machines

These Dafny modules model the parts of the repository whose behaviour is hardest to see from one
function body, and prove what those parts are meant to guarantee. Code that changes state in place is
modelled by classes and methods with loops, each proved against a function of the old state; the results
about whole runs are lemmas about those functions.

| file | models |
|---|---|
| `Optional.dfy`, `Sequences.dfy`, `Decimals.dfy` | optional values; repetition-free sequences, positions, pigeonhole; decimal numerals |
| `Workflows.dfy` | workflow definitions; walks, cycles, readiness and longest-path depth |
| `CycleSearch.dfy` | the three-colour search for a cycle, and what exactly it reports |
| `DagGraph.dfy` | the DAG: building it, Kahn's sort, roots, predecessors, ready nodes |
| `Scheduler.dfy` | executing a DAG: launcher and goroutines as a state machine, and the invariants every step keeps |
| `Guarantees.dfy` | order, parallelism and failure containment in every run, that is in every interleaving |
| `Histories.dfy` | whole histories of an execution: how often nodes run, termination, completion, pausing and resuming, skipping |
| `TaskRecords.dfy` | what the stored tasks say about the history of an execution |
| `Environments.dfy` | executors that fail and pauses that are asked for, and how they alone decide a run's end |
| `Engine.dfy` | `executeDAG` as a loop over that graph whose behaviour is a run of the machine, true to those surroundings |
| `LruCache.dfy`, `LruTheory.dfy`, `ExpiryTheory.dfy` | the LRU cache with expiry; whole runs of it: what stays, and what its entries hold and when they expire |
| `TokenBucket.dfy` | the lazily refilled bucket |
| `BucketStore.dfy`, `SweepTheory.dfy`, `KeyLimits.dfy` | one bucket per key with idle cleanup; whole runs of it, with requests and cleanup interleaved; keys do not affect each other |
| `CacheLimiter.dfy`, `IntervalTheory.dfy` | the counting and the interval limiter that live in the cache; interval attempts that overlap |
| `CircuitBreaker.dfy`, `BreakerHistory.dfy` | the circuit breaker and its in-place pruned failure window; its answers told from the calls alone |
| `MemoryLock.dfy` | the in-memory lock with tokens, expiry and renewal |
| `Tenants.dfy` | materialised tenant paths, the prefix query and the tree built from it |
| `Migrations.dfy` | the migration runner |
| `Tags.dfy` | the struct-tag parser and printer |

The execution model. A group is the set of roots or one batch of ready nodes. The launcher takes a free
slot for every queued node in turn; each node's goroutine starts, executes, records the outcome in the
task, marks the node completed or sends an error, and gives its slot back. Every one of these is an event
of its own, so `Runs` ranges over all interleavings; accesses to the shared maps are single events. Which
executors fail, and when a pause is asked for, is arbitrary; the events of a run leave both open, and an
`Environment` fixes them. Pausing happens at batch boundaries, and resuming starts again from
the stored tasks.

Time is a parameter of every call that reads the clock: integers where instants are only compared or
added to, reals where tokens accrue. Token amounts are reals, integers are unbounded.

## What the proofs brought out

- The DFS reports a walk whose last node occurs earlier on it. It starts at the first listed node from
  which a cycle can be reached, and each step takes the first target, in edge order, that leads to a
  cycle; this determines the report (`CycleSearch.ReportUnique`). The first node need not be on the
  cycle, where `workflow/README.md:670` shows a path that starts and ends at the same node:
  `CycleSearch.ReportTheorem` says that it does so if and only if following first targets comes back to
  that node, and `CycleSearch.LeadIn` gives a workflow for which it cannot.
- Nothing reads the error channel between the root phase and the first batch. A failed root is not lost
  in a run that goes on: it is dispatched again with the next batch, counts as completed because its task
  is final, and the batch end then reads the error. But pausing at that boundary drops the error, and the
  resumed run takes the failed task for final. `Histories.NilTheorem` says exactly what a nil return is
  worth then, in any history: nothing has failed if and only if the execution was never resumed while a
  stored task had failed. `Histories.PauseHidesFailure` drives an execution to such a nil return after
  executing a successor of the failed node.
- A node without an executor fails even when it is marked to be skipped on failure, because the check
  at `workflow/pkg/engine/engine.go:741-747` comes before the skip at `804-824`. `Histories.SkipTheorem`
  says that these are the only nodes so marked that fail, and `Histories.SkipWithoutExecutor` reaches
  such a failure.
- A request looks its bucket up under the store's lock and takes from it under the bucket's own
  (`frame/pkg/middleware/ratelimit.go:79-96` and `41-58`), and a sweep can delete the bucket in between.
  Then others get a full new one while the request still takes from the old, and for every burst of at
  least 1 there is such a run with different answers (`SweepTheory.TornTheorem`). Over all other runs,
  idle buckets may be forgotten without effect exactly when 600 seconds refill a whole burst
  (`SweepTheory.SweepTheorem`).
- The interval limiter checks and marks in two calls of the cache with no lock around them
  (`tools/ratelimit/cache_limiter.go:31-43`). Any number of attempts can get through at one instant
  (`IntervalTheory.CrowdTheorem`); two that get through lie within one interval exactly when the later
  one checked before the earlier one marked (`IntervalTheory.RaceTheorem`). The counting limiter makes a
  single call and has no such gap.
- The mark or the count can be pushed out of a bounded cache. It is not if, between two steps of the
  limiter, the others use fewer different keys than the capacity (`CacheLimiter.SpaciousTheorem`,
  `IntervalTheory.SpaciousTheorem`). Counting only the keys they insert would not do, because a Get that
  hits moves its key ahead as well.
- A counting limiter refreshes the expiry on refused attempts as well, so a caller who keeps retrying
  within the window stays refused. A window or interval of zero or less never ends.
- `UpTo` with a version that is unknown or applied already applies everything pending.
- A tag named `-` without a value drops its options when it is parsed back.

## Model

| member | source | states |
|---|---|---|
| DagGraph.NewDAGGraph | workflow/pkg/engine/dag.go:30-64 | A workflow is rejected exactly when its non-internal edges contain a cycle, with the one report that the workflow determines; otherwise the graph returned agrees with the workflow. |
| DagGraph.NodeMaps | workflow/pkg/engine/dag.go:38-42 | Every node ID, and nothing else, gets its node, an in-degree of 0 and no outgoing edges. |
| DagGraph.EdgeMaps | workflow/pkg/engine/dag.go:44-56 | Adjacency lists are the targets of the non-internal edges in order, and in-degrees their number, parallel edges counted each; an end that is no node of the workflow gets a key of its own. |
| DagGraph.DAGGraph.DetectCycle | workflow/pkg/engine/dag.go:199-241 | A cycle is reported if and only if there is one. The report is a walk that starts at the first listed node leading to a cycle, takes at every step the first target, in edge order, that leads to one, and stops at the first node it meets again. |
| CycleSearch.CycleDetector.Dfs | workflow/pkg/engine/dag.go:212-230 | Terminates because white nodes run out; a path found takes the first targets that lead to a cycle, repeats only its last node and keeps its first; without a cycle it restores the grey path, keeps black nodes black and leaves its start black. |
| CycleSearch.FinishedLeadsNowhere | workflow/pkg/engine/dag.go:212-230 | From a node that has finished no cycle can be reached. |
| CycleSearch.ReportUnique | workflow/pkg/engine/dag.go:199-241 | No workflow allows two different reports. |
| CycleSearch.ReportTheorem | workflow/pkg/engine/dag.go:199-241 | The report comes back to its first node if and only if taking first targets that lead to a cycle goes round a cycle through that node. |
| CycleSearch.LeadIn | workflow/pkg/engine/dag.go:210-240 | A workflow with a cycle for which every possible report starts at a node that it never returns to. |
| CycleSearch.FinishedAllIsAcyclic | workflow/pkg/engine/dag.go:199-241 | If every node has finished, each after all its successors, there is no cycle. |
| CycleSearch.ClosingPathHasCycle | workflow/pkg/engine/dag.go:216-220 | A reported path really contains a cycle. |
| DagGraph.DAGGraph.BuildRootNodes | workflow/pkg/engine/dag.go:66-75 | The roots are exactly the nodes without predecessors, each once, in ascending order number. |
| DagGraph.SortByOrderNo | workflow/pkg/engine/dag.go:72-74 | Sorting by order number keeps exactly the same nodes. |
| DagGraph.DAGGraph.GetDepNodes | workflow/pkg/engine/dag.go:131-139 | Lists the sources of the non-internal edges into a node in edge order, parallel edges repeated: exactly its predecessors. |
| DagGraph.SourcesInOrder | workflow/pkg/engine/dag.go:131-139 | That list has one source for each such edge, in the order of the edges. |
| DagGraph.DAGGraph.RemainingDeps | workflow/pkg/engine/engine.go:601-611 | The open dependencies that a pause records for a node are counted by edges, parallel ones each, and none are left exactly when all its predecessors are completed. |
| DagGraph.DAGGraph.GetReadyNodes | workflow/pkg/engine/dag.go:142-164 | Exactly the nodes that are not completed while all their predecessors are, each once, in launch order. |
| DagGraph.DAGGraph.TopologicalSort | workflow/pkg/engine/dag.go:167-196 | Succeeds exactly on acyclic workflows, so its error branch is unreachable on an accepted graph, and lists every node once with every edge pointing forward. |
| DagGraph.DrainQueue | workflow/pkg/engine/dag.go:173-190 | Kahn's loop ends with a repetition-free list in which predecessors come first, and every node outside it still has an unlisted predecessor. |
| DagGraph.PopKeeps | workflow/pkg/engine/dag.go:180-189 | Popping a node keeps the count: remaining in-degrees are the edges from unpopped nodes, and queued nodes are those at 0. |
| DagGraph.CountingDone | workflow/pkg/engine/dag.go:192-195 | With the queue empty, all nodes are listed if and only if the workflow is acyclic. |
| Workflows.TopologicalOrderIsAcyclic | workflow/pkg/engine/dag.go:167-196 | A workflow with a topological order has no cycle. |
| Workflows.NoSourceMeansCycle | workflow/pkg/engine/dag.go:192-195 | A non-empty set of nodes each with a predecessor in the set contains a cycle. |
| Workflows.ReadyExists | workflow/pkg/engine/engine.go:634-637 | In an acyclic workflow some node is ready until all are done, so an empty ready set means completion. |
| Workflows.DepthStep | workflow/pkg/engine/dag.go:142-164 | The nodes ready once depth k is done are exactly those of longest-path depth k + 1. |
| Workflows.DepthBound | workflow/pkg/engine/dag.go:58-60 | In an acyclic workflow every depth is below the number of nodes. |
| Workflows.AncestorsIn | workflow/pkg/engine/engine.go:634-637 | Whatever lies upstream of a node whose predecessors are in a predecessor-closed set is in it. |
| Scheduler.StepOrderly | workflow/pkg/engine/engine.go:532-669 | Every step of every goroutine keeps the completed set predecessor-closed, the in-flight nodes sourced from it and within the slots. |
| Guarantees.OrderTheorem | workflow/pkg/engine/engine.go:535-668 | In every interleaving: completed nodes are predecessor-closed, a node is queued or in flight only after all its predecessors completed, no more than the allowed number are in flight, and none between groups. |
| Scheduler.StepTracked | workflow/pkg/engine/engine.go:672-876 | Task status follows the goroutine's stage, and errors waiting in the channel come from distinct failed nodes. |
| Scheduler.SendNeverBlocks | workflow/pkg/engine/engine.go:537-568 | The error channel, one slot per node, always has room for a goroutine about to send. |
| Guarantees.ContainmentTheorem | workflow/pkg/engine/engine.go:570-665 | No node downstream of a failed one is ever started; a nil return without a pause means that every node ended well and no error was sent; an error return means that one failed; no send blocks. |
| Guarantees.RunEndsComplete | workflow/pkg/engine/engine.go:507-524 | When a run returns nil without a pause, every node of the workflow is completed. |
| Histories.AtMostOnceTheorem | workflow/pkg/engine/engine.go:486-735 | Over any history of an execution, with failures, pauses and resumptions anywhere, no node is executed twice, and between groups the executed nodes are exactly those with a final task. |
| Histories.ExactlyOnceTheorem | workflow/pkg/engine/engine.go:486-668 | In an error-free history, paused and resumed any number of times, no error is returned and no node executed twice, the k-th group is exactly the nodes of depth k, the stored tasks reseed exactly the completed nodes, and a nil return without a pause means that every node ran exactly once. |
| Histories.DepthLayering | workflow/pkg/engine/engine.go:634-657 | The sets of nodes by depth are what the batch loop goes through. |
| Histories.CanStep | workflow/pkg/engine/engine.go:570-657 | A run that has not returned can always take a step other than pausing: no deadlock. |
| Histories.StepDecreases | workflow/pkg/engine/engine.go:570-668 | Every step brings a run closer to its return. |
| Histories.TerminationTheorem | workflow/pkg/engine/engine.go:532-669 | Every run, failing or not, takes a bounded number of steps, and it has returned when nothing but a pause or a resumption can still happen. |
| Histories.CompletionTheorem | workflow/pkg/engine/engine.go:507-668 | A first run without errors that is not paused takes a bounded number of steps, and when nothing but a pause can still happen it has returned nil with every node of the workflow executed exactly once. |
| Histories.ResumedCompletionTheorem | workflow/pkg/engine/engine.go:486-668 | The same after any number of pauses: an error-free history that is resumed once more and then not paused takes a bounded number of further steps and ends with a nil return and every node executed exactly once over the whole history. |
| Histories.PauseTheorem | workflow/pkg/engine/engine.go:486-699 | Once a resumed run is through its roots, the nodes it counts as completed all ended well if and only if no task had failed at the pause. |
| Histories.NilTheorem | workflow/pkg/engine/engine.go:486-699 | In any history, a nil return without a pause means that nothing has failed if and only if the execution was never resumed while a stored task had failed. |
| Histories.PausedNilTheorem | workflow/pkg/engine/engine.go:486-699 | For one pause and the whole run resumed from it: on a nil return without another pause nothing has failed if and only if nothing had failed at the pause. |
| Histories.FailedForGood | workflow/pkg/engine/engine.go:699-707 | A task that has failed stays failed in every later state, across pauses and resumptions. |
| Histories.SkipTheorem | workflow/pkg/engine/engine.go:741-828 | A node marked to be skipped on failure fails, once executed, if and only if it has no executor; otherwise it ends well. |
| Histories.SkipWithoutExecutor | workflow/pkg/engine/engine.go:741-747 | A reachable state in which a node so marked has failed and its error waits in the channel. |
| Histories.PauseHidesFailure | workflow/pkg/engine/engine.go:570-665 | A concrete failed, paused and resumed execution that returns nil with a failed task and an executed successor. |
| TaskRecords.RecordTheorem | workflow/pkg/engine/engine.go:672-876 | From any stored tasks, over any history: a task is Completed exactly if it was or its executor succeeded, Skipped exactly if it was or its executor failed and the node is marked to be skipped, Failed exactly if it was or a failure was recorded, and nothing else makes a task final or changes a final one. |
| TaskRecords.FirstRecordTheorem | workflow/pkg/engine/engine.go:486-876 | From a first start a task is Running exactly while its executor is, otherwise it has the status of its one outcome, and a resumption starts from exactly the nodes that succeeded or were skipped. |
| Environments.PausesTheorem | workflow/pkg/engine/engine.go:595-632 | A run pauses at the first boundary it reaches of those at which that was asked for, and nowhere else. |
| Environments.OutcomeTheorem | workflow/pkg/engine/engine.go:532-876 | A first run that is not paused returns an error if and only if some node has no executor, or one that fails without the node being marked to be skipped; otherwise it returns nil with every task Completed, or Skipped where the executor failed. |
| Engine.ExecuteDAG | workflow/pkg/engine/engine.go:532-669 | Whatever the interleaving, the failing executors and the pauses asked for, the call returns, what it did is a run of the state machine from the seeded state that is true to them, it pauses exactly when asked, nil without a pause means all nodes completed, and a first call that is not paused ends as the executors alone decide. |
| Engine.RunGroup | workflow/pkg/engine/engine.go:570-583 | Launching under the slot limit ends with nothing queued and nothing in flight. |
| Engine.RunBatch | workflow/pkg/engine/engine.go:639-665 | A batch ends between two batches or in an error return. |
| Engine.Advance | workflow/pkg/engine/engine.go:595-668 | One turn of the loop pauses exactly if that was asked for, and otherwise returns or runs the ready nodes. |
| Engine.GoroutineStep | workflow/pkg/engine/engine.go:672-857 | Some goroutine can always move, and an execution ends as its executor decides. |
| LruCache.LruCache.constructor | tools/cache/cache.go:53-59 | A new cache is empty and consistent. |
| LruCache.LruCache.SetWithExpiration | tools/cache/cache.go:65-93 | The entry goes to the front, replacing the old one under its key; one least recently used entry leaves when a positive capacity is exceeded; index and list stay in bijection. |
| LruCache.LruCache.Get | tools/cache/cache.go:95-115 | Finds exactly the live entries; a hit moves to the front, an expired entry is removed, a miss changes nothing. |
| LruCache.LruCache.Delete | tools/cache/cache.go:117-124 | Removes exactly the entry under the key. |
| LruCache.LruCache.Incr | tools/cache/cache.go:128-162 | Returns and stores one more than the live value counts as, integers as themselves, fractions cut off, texts as parsed, or 1; a positive ttl sets the expiry to that much from now, without one a live entry keeps its expiry and a new one never expires; capacity holds. |
| Decimals.ParseTheorem | tools/cache/cache.go:165-180 | Every text is read as its sign and its leading digits say, to the nearest 64-bit integer, if nothing follows them or they alone exceed 64 bits, and as 0 otherwise. |
| Decimals.ParseDecimal | tools/cache/cache.go:165-180 | A number printed in decimal, with or without a minus sign, is read back as itself, or as the nearest 64-bit integer. |
| LruCache.LruCache.CleanupExpired | tools/cache/cache.go:208-223 | Leaves exactly the unexpired entries in their order. |
| LruCache.LruCache.SetCapacity | tools/cache/cache.go:284-292 | Keeps the most recently used entries that fit. |
| LruCache.LruCache.Keys | tools/cache/cache.go:197-206 | Lists the resident keys, most recently used first. |
| LruCache.LruCache.Clear | tools/cache/cache.go:182-188 | Empties the cache. |
| LruCache.LruCache.EvictBack | tools/cache/cache.go:261-270 | Removes the last element, if any, from list and index. |
| LruCache.LruCache.RemoveElement | tools/cache/cache.go:272-276 | Removes one element from list and index and keeps them in bijection. |
| LruCache.LruCache.Agrees | tools/cache/cache.go:38-46 | A key is in the index exactly when the list has an entry for it, and then leads to that entry. |
| LruCache.WithoutSize | tools/cache/cache.go:272-276 | Removing a key removes exactly its entry and keeps keys unique. |
| ExpiryTheory.LifeTheorem | tools/cache/cache.go:65-162 | After any run of Set, Get, Delete, Incr and cleanup, an entry comes from the last Set of its key, or Incr that found nothing live: it holds what that stored plus the increments since, and expires by the last positive ttl given to it, or else as that operation said. |
| LruTheory.InclusionTheorem | tools/cache/cache.go:65-124 | Run one sequence of Set, Get and Delete without expiry on two empty caches with capacities c1 <= c2, or c2 unbounded: the smaller list stays a subsequence of the larger one, with the rest of what capacity and agreement demand. |
| LruTheory.StepIncludes | tools/cache/cache.go:65-124 | Each single operation keeps that inclusion. |
| LruTheory.RecencyTheorem | tools/cache/cache.go:65-115 | Without Delete, the resident keys are exactly the most recently touched ones that fit, in touch order. |
| LruTheory.RecencyOrder | tools/cache/cache.go:65-115 | The recency list orders keys by their last touch. |
| LruTheory.RecencyDistinct | tools/cache/cache.go:65-115 | The recency list holds every touched key exactly once. |
| TokenBucket.TokenBucket.AllowN | tools/ratelimit/tokenbucket.go:44-64 | Decides and updates as the refill rule says: refill, cap, then take or refuse. |
| TokenBucket.TokenBucket.Available | tools/ratelimit/tokenbucket.go:67-78 | Reports exactly what AllowN would find, and changes nothing. |
| TokenBucket.StoredTokens | tools/ratelimit/tokenbucket.go:44-64 | What the bucket stores is the least room any past instant leaves: burst plus what was earned since, minus what was granted since. |
| TokenBucket.ExactLaw | tools/ratelimit/tokenbucket.go:44-78 | The tokens seen at any later instant are the minimum of the burst and the room left by creation and every earlier request. |
| TokenBucket.DecisionLaw | tools/ratelimit/tokenbucket.go:44-64 | A request is granted if and only if granting it overdraws no window that ends with it. |
| TokenBucket.WindowLaw | tools/ratelimit/tokenbucket.go:44-64 | From any request to any later one, no more is granted than the burst plus what the time between them earns. |
| TokenBucket.TokensInRange | tools/ratelimit/tokenbucket.go:44-64 | On a clock that never goes back the stored tokens stay between 0 and the burst. |
| TokenBucket.RateTheorem | tools/ratelimit/tokenbucket.go:29-64 | A bucket of a given rate and burst answers any sequence of requests in the one way in which each is granted exactly if, in the window from creation and in that from each earlier request, what was granted and it come to no more than the burst plus the rate times the length of the window. |
| TokenBucket.RateLevel | tools/ratelimit/tokenbucket.go:67-78 | The tokens shown at any time are the most that all those windows leave. |
| TokenBucket.RateWindow | tools/ratelimit/tokenbucket.go:44-64 | Between any two requests at most the burst plus the rate times the time between them is granted. |
| BucketStore.RateLimiterStore.GetBucket | frame/pkg/middleware/ratelimit.go:79-96 | Returns the key's bucket, creating a full one when there is none, and leaves the others alone. |
| BucketStore.RateLimiterStore.UseBucket | frame/pkg/middleware/ratelimit.go:41-58 | Takes from a bucket looked up before, whether or not the store still has it, and leaves the others alone. |
| BucketStore.RateLimiterStore.Allow | frame/pkg/middleware/ratelimit.go:41-96 | A request whose lookup and take nothing comes between. |
| BucketStore.RateLimiterStore.CheckIdle | frame/pkg/middleware/ratelimit.go:103-111 | One key of a pass: drops its bucket if it was unused for more than 10 minutes when the pass began. |
| BucketStore.RateLimiterStore.Cleanup | frame/pkg/middleware/ratelimit.go:98-114 | Whatever order it visits the keys in, a pass drops exactly the buckets unused for more than 600 seconds, and leaves the others under their keys. |
| KeyLimits.KeyTheorem | frame/pkg/middleware/ratelimit.go:41-96 | However the lookups and takes of all keys are interleaved, while nothing is swept the requests for one key are answered exactly as by a single bucket that was full when the key was first looked up. |
| SweepTheory.SweepTheorem | frame/pkg/middleware/ratelimit.go:41-114 | Over all interleavings of lookups, takes and sweeps in which no sweep deletes a bucket between its lookup and its use, a store that drops idle buckets answers every request like one that never does if and only if 600 * rate >= burst. |
| SweepTheory.SameAnswers | frame/pkg/middleware/ratelimit.go:41-114 | From any two stores that agree up to refilled buckets and the requests under way, sweeping and not sweeping give the same answers in such runs. |
| SweepTheory.SweepShows | frame/pkg/middleware/ratelimit.go:98-114 | For every slower rate there is such a run whose answers differ. |
| SweepTheory.TornTheorem | frame/pkg/middleware/ratelimit.go:41-114 | Over all runs, sweeps between lookup and use included, dropping idle buckets is without effect if and only if the burst is 0. |
| SweepTheory.TornShows | frame/pkg/middleware/ratelimit.go:41-114 | For every rate and every burst of at least 1, a run in which a sweep takes a bucket away from a request that has looked it up, and whose answers differ. |
| CacheLimiter.CountLimiter.Allow | tools/ratelimit/cache_limiter.go:58-64 | One attempt: the cache after Incr, and the new count compared with the limit. |
| CacheLimiter.IntervalLimiter.Check | tools/ratelimit/cache_limiter.go:32-38 | The first call: free exactly when the key is not live, and the cache as a lookup leaves it. |
| CacheLimiter.IntervalLimiter.Mark | tools/ratelimit/cache_limiter.go:39-41 | The second call: the mark is stored for the interval. |
| CacheLimiter.IntervalLimiter.Allow | tools/ratelimit/cache_limiter.go:31-43 | An attempt whose two calls nothing comes between: refused exactly when the key is live, otherwise the mark is set for the interval. |
| CacheLimiter.CountRun | tools/ratelimit/cache_limiter.go:58-64 | Over any run in which others use other keys and do not push this one out, an attempt is let through if and only if at most `limit` attempts, itself included, have followed each other without a gap longer than the window. |
| CacheLimiter.StretchTheorem | tools/cache/cache.go:128-162 | A stretch of attempts without such a gap lets at most `limit` through, and nothing after the first refusal. |
| CacheLimiter.WindowTheorem | tools/ratelimit/cache_limiter.go:58-64 | Any interval no longer than the window lets at most `limit` attempts through. |
| CacheLimiter.EvictionTheorem | tools/cache/cache.go:128-162 | After any undisturbed run, when another operation pushes the count out, the next attempt is let through if and only if the limit is positive; so the count law breaks there exactly when the streak exceeds a positive limit. |
| CacheLimiter.EvictionResets | tools/cache/cache.go:89-92 | A run at capacity 1 in which that happens. |
| CacheLimiter.IntervalTheorem | tools/ratelimit/cache_limiter.go:31-43 | When the two calls of every attempt follow each other at once, an attempt is granted if and only if no granted attempt lies within the interval before it. |
| CacheLimiter.SpaciousTheorem | tools/cache/cache.go:65-162 | A run does not push the key out of the cache if the others use fewer different keys than the capacity between two attempts, or if there is no capacity. |
| IntervalTheory.CheckTheorem | tools/ratelimit/cache_limiter.go:31-43 | In every interleaving of checks, marks and other uses of the cache, an attempt is granted if and only if no mark stored before its check lies within the interval. |
| IntervalTheory.RaceTheorem | tools/ratelimit/cache_limiter.go:31-43 | Of two granted attempts, the later lies within the interval of the earlier one's mark if and only if it checked before that mark was stored. |
| IntervalTheory.SerialTheorem | tools/ratelimit/cache_limiter.go:31-43 | When no attempt checks between another's check and mark, one is granted if and only if every attempt granted before stored its mark longer than the interval ago. |
| IntervalTheory.CrowdTheorem | tools/ratelimit/cache_limiter.go:31-43 | For every interval and every n there is a run in which n attempts are granted at one instant. |
| IntervalTheory.SpaciousTheorem | tools/cache/cache.go:65-162 | The condition on the others' keys, for overlapping attempts. |
| CacheLimiter.ForeignKeeps | tools/cache/cache.go:65-162 | Whatever is done under other keys leaves a key's entry as it was, or removes it once dead. |
| CacheLimiter.UnboundedSpares | tools/cache/cache.go:89-92 | In a cache without capacity nothing is pushed out. |
| CircuitBreaker.CircuitBreaker.Allow | frame/pkg/middleware/ratelimit.go:213-230 | Closed and half-open let calls through; open lets one through, turning half-open, only once more than the cool-down has passed. |
| CircuitBreaker.CircuitBreaker.RecordSuccess | frame/pkg/middleware/ratelimit.go:232-240 | Half-open closes and forgets its failures; nothing else changes. |
| CircuitBreaker.CircuitBreaker.RecordFailure | frame/pkg/middleware/ratelimit.go:242-269 | The new state: half-open reopens at once, otherwise the failures of the window and this one, opening at the threshold. |
| CircuitBreaker.CircuitBreaker.Prune | frame/pkg/middleware/ratelimit.go:249-257 | The in-place compaction leaves exactly the failures of the window, in order. |
| BreakerHistory.HistoryTheorem | frame/pkg/middleware/ratelimit.go:213-269 | On every run, a request is refused if and only if the breaker has been opened, nothing has been let through since, and no more than the cool-down has passed since it was opened last; a failure opens it while it probes or when enough failures since the last recovery lie in the window; it probes after a request let through although open, until an outcome comes in. |
| BreakerHistory.RecoveryTheorem | frame/pkg/middleware/ratelimit.go:232-269 | After a success while probing it does not open, and refuses nothing, before there have been as many failures again as the threshold. |
| CircuitBreaker.PruningTheorem | frame/pkg/middleware/ratelimit.go:213-269 | On every run on a clock that never goes back, the breaker answers like one that keeps every failure since the last reset. |
| CircuitBreaker.ClosedTheorem | frame/pkg/middleware/ratelimit.go:232-269 | With a positive threshold, which the middleware's defaults see to, closed always means fewer failures stored than the threshold; with a positive window every stored failure lies in the window of the last one. |
| CircuitBreaker.CoolDownTheorem | frame/pkg/middleware/ratelimit.go:213-230 | An open breaker stays open and refuses every call until the cool-down has passed, whatever is recorded meanwhile. |
| MemoryLock.MemoryLock.TryLock | workflow/pkg/lock/memory_lock.go:83-103 | Acquires exactly when the name is free or its entry expired, writing this token and expiry; otherwise changes nothing. |
| MemoryLock.MemoryLock.Unlock | workflow/pkg/lock/memory_lock.go:105-126 | Removes the entry only if it carries this lock's token. |
| MemoryLock.MemoryLock.Renew | workflow/pkg/lock/memory_lock.go:135-139 | Moves the expiry only of an entry that carries this lock's token. |
| MemoryLock.EntryBetween | workflow/pkg/lock/memory_lock.go:83-139 | Between one acquisition and the next the entry is this holder's with the last recorded expiry, or gone by its own Unlock; a stale holder never touches it. |
| MemoryLock.ReacquireTheorem | workflow/pkg/lock/memory_lock.go:83-139 | The next attempt on a name succeeds if and only if the holder has unlocked it or the last recorded expiry, renewals included, has been reached. |
| MemoryLock.FirstAcquire | workflow/pkg/lock/memory_lock.go:83-103 | The first attempt on a name always succeeds. |
| Tenants.TenantTable.UpdateTenantPath | saas/pkg/utils.go:12-28 | Fails exactly when the parent is missing; otherwise stores the parent's path and level extended, changes nothing else of the row and no other row, and keeps every row's path rendered from its chain of ancestors. |
| Decimals.DecimalTheorem | saas/pkg/utils.go:15-23 | An ID is printed digit by digit: the i-th character from the right is '0' plus the i-th decimal digit. |
| Tenants.PrefixTheorem | saas/pkg/utils.go:12-66 | One tenant's path is a string prefix of another's if and only if it is that tenant or an ancestor of it. |
| Tenants.PrefixOfChains | saas/pkg/utils.go:22-27 | Rendered chains of IDs are string prefixes exactly when the chains are; no ID is mistaken for the start of a longer one. |
| Tenants.BuildTree | saas/pkg/utils.go:77-99 | Terminates, and at every level lists exactly the rows under that parent, in query order. |
| Tenants.ForestCount | saas/pkg/utils.go:77-99 | A tree holds a tenant as often as its roots include an ancestor of it. |
| Tenants.SubtreeOnce | saas/pkg/utils.go:46-74 | The tree built from the prefix query holds the root and each of its descendants exactly once, and nothing else. |
| Tenants.GetTenantTree | saas/pkg/utils.go:46-74 | Fails exactly on an unknown root; otherwise returns the root's subtree, every descendant exactly once and under its parent, siblings in ascending ID order as the query lists them. |
| Tenants.GetFullTree | saas/pkg/utils.go:46-58 | Without a root, the tree holds every tenant exactly once and under its parent, siblings in ascending ID order. |
| Tenants.ForestHangs | saas/pkg/utils.go:77-99 | Every node of the tree carries the name and level of the row with its ID, and hangs under that row's parent. |
| Tenants.ForestAscends | saas/pkg/utils.go:46-99 | Rows queried by level and ID give a tree whose siblings ascend by ID at every level. |
| Migrations.Migrator.Up | frame/pkg/db/migration.go:65-87 | Applies all pending migrations in order, or stops in front of the first that fails; the schema is what those applied make of it. |
| Migrations.Migrator.UpTo | frame/pkg/db/migration.go:90-111 | Applies pending migrations through the given version, through all when that version is not pending, or stops in front of the first that fails; the schema is what those applied make of it. |
| Migrations.Migrator.Down | frame/pkg/db/migration.go:114-156 | Takes back the latest migrations, as many as asked for and at least one, stopping at one that fails or has no Down; the schema is what their Downs make of it. |
| Migrations.Migrator.Reset | frame/pkg/db/migration.go:159-170 | Takes back everything and restores the first schema if every Down undoes its Up, or stops at one that fails. |
| Migrations.Migrator.ApplyUp | frame/pkg/db/migration.go:232-245 | Changes schema and records together, for a migration without a record that does not fail, or neither; the next one in order extends the applied prefix. |
| Migrations.Migrator.ApplyDown | frame/pkg/db/migration.go:247-255 | Changes schema and records together or, on failure, neither; the last one applied shortens the applied prefix. |
| Migrations.Migrator.GetPending | frame/pkg/db/migration.go:278-287 | The pending migrations are what is left of the sorted list. |
| Migrations.SortByVersion | frame/pkg/db/migration.go:289-296 | The same migrations in ascending version order, repeated versions kept, strictly ascending when versions are distinct. |
| Migrations.LessTheorem | frame/pkg/db/migration.go:289-296 | One version comes before another exactly when, at the first position where they differ, it ends or has the smaller character. |
| Migrations.AscendingUnique | frame/pkg/db/migration.go:289-296 | There is only one ascending order of a set of versions, so sorting afresh on every call is harmless. |
| Tags.Parse | tools/tag/tag.go:44-86 | The parsed tag, by splitting at commas and cutting at the first colon or equals sign, everything trimmed. |
| Tags.ParseTheorem | tools/tag/tag.go:44-86 | Part by part: a first part `-` counts alone; otherwise it is the name, trimmed, with a trimmed value behind the first colon if there is one. |
| Tags.OptionsTheorem | tools/tag/tag.go:74-83 | Every other part is an option, trimmed, with a trimmed value behind the first equals sign or `true`; of several with one key the last counts, and there are no other keys. |
| Tags.TrimCuts | tools/tag/tag.go:59-78 | Trimming cuts off white space in front and behind and nothing else. |
| Tags.BuildWithOptions | tools/tag/tag.go:182-218 | Whatever order the option map is visited in, the text is the tag printed in some order of its options, the boolean ones first, and parses back to the same tag if and only if its parts are printable. |
| Tags.RoundTripTheorem | tools/tag/tag.go:44-218 | For every order of the options, printing then parsing returns the same name, value and options if and only if the parts are trimmed and comma-free, the name has no colon, option keys no equals sign, something is printed, and no options hang on the ignore tag. |
| Tags.ReprintTheorem | tools/tag/tag.go:44-218 | Printing what was parsed and parsing that again loses nothing, save for an empty tag or options on a `-` name. |
| Tags.ParsedFacts | tools/tag/tag.go:44-86 | Everything the parser returns is trimmed and free of the separators that delimit it. |
| Tags.SplitJoin | tools/tag/tag.go:54-54 | Splitting at commas undoes joining comma-free parts. |
| Tags.JoinSplit | tools/tag/tag.go:54-54 | Joining at commas undoes splitting. |

## Left out

- Cancellation of a running execution, event channels, observers, traces, debug breakpoints and human input: notification plumbing around the scheduler.
- Condition and switch branches: the set of activated successors is computed and then not used by scheduling (`workflow/pkg/engine/engine.go:850-854`).
- Input and output data of nodes: a resumed run starts from an empty variable map, so the results are about which nodes run.
- Executors and retries: an executor either fails or succeeds, arbitrarily, after whatever retries.
- Two executions of one workflow instance alive at the same time: a resume follows the return of the paused run.
- Guarantees.OrderTheorem: accesses to the shared maps are taken as single events; the root loop's read of the completed set without the lock (`workflow/pkg/engine/engine.go:572`) is modelled as such an event.
- Guarantees.ContainmentTheorem: resumptions after a failure are excluded, because there it is false; `Histories.NilTheorem` gives the exact condition.
- DagGraph.NewDAGGraph: node IDs are taken to be distinct and edges to join nodes of the workflow; a repeated ID would collapse two nodes into one, and an edge to an unknown ID would schedule a node that does not exist.
- Further assumptions of the execution model: at least one slot, and store calls that succeed.
- DagGraph.SortByOrderNo: the order of nodes with equal order numbers is left open, as the library sort leaves it.
- Edge ports, labels and conditions, which the graph stores and scheduling does not read.
- LruCache.LruCache.Incr: the sum does not wrap around at 64 bits, and floating-point values are reals within the range of integers.
- The cleanup goroutine of the cache, the access time it records, and the context and global caches built on it.
- The locks themselves: every critical section, which is one call of a cache, a lock or a breaker, or one lookup, take or check of a key in the bucket store, is one step.
- SweepTheory.SweepTheorem: lookups may come between the checks of one cleanup pass, which the store's lock rules out; the runs that show a difference do not need that.
- TokenBucket.TokenBucket.AllowN: amounts are exact reals, without floating-point rounding.
- CacheLimiter.CountLimiter.Allow: the answer on a cache error is left out, since the local cache returns none.
- Distributed caches and locks (Redis, etcd).
- MemoryLock.MemoryLock.TryLock: Lock's retry loop is a sequence of such attempts; context cancellation and the renewal goroutine's life cycle are left out, each renewal being one guarded step.
- MemoryLock.ReacquireTheorem: tokens are taken to be unique, as random tokens are meant to be.
- Tenants.TenantTable.UpdateTenantPath: the table is a map and queries are parameters that return the rows asked for; a stored tenant is not moved to another parent.
- Tenants.GetTenantTree: the query's order by level and ID is a premise of the sibling order only; the rest holds for any order.
- `saas/pkg/utils.go:31-43`, whose query is the same prefix query as the tree's (so that its result includes the tenant itself).
- Migrations.Migrator.Up: versions are distinct, as the unique index on the version column demands of the records; names, timestamps and the status listing are left out.
- Tags.Parse: the reflection helpers and the splitting of a whole tag string into tags are left out.
