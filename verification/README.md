# Models of GreenBoost's algorithmic cores

This project models the cores of GreenBoost whose correctness is not obvious from one
function body, and proves what they promise. The verification uses Dafny 4.11:
`dafny verify dfyconfig.toml`.

| files | what they model |
|---|---|
| `ClusterMap`, `ClusterSafety`, `ClusterResult`, `ClusterLoss`, `ClusterTermination`, `ClusterQueue`, `ClusterLocal` | `cluster_map`: a host thread and any number of feeder threads drain one FIFO of chunks, as a state machine over atomic steps with any interleaving, any pull counts and any failures |
| `Placement` | the apportionment behind the pull counts |
| `JobQueue`, `JobQueueSafety`, `JobQueueResult`, `JobQueueWorkers` | `ClusterJobQueue`: submit, cancel, close, and the threads behind them, as a state machine |
| `ExpertTier`, `TierRuns` | the LFRU promotion and demotion rule and what sequences of its swaps can do |
| `EvictSpec`, `EvictPolicy`, `EvictController`, `EvictLedger` | the nested eviction policies as mutable classes, refining one sequence of tracked items for each tier, and runs over all tiers |
| `SeekReader`, `EventLog`, `LogCompaction` | the event log: the backward block seek, append and rotation, archive compaction |
| `FeederSync` | pulling a feeder's log into the host's |
| `QuantPlan`, `QuantPlanner` | the greedy quantisation budget |
| `ControlLever` | the bounded lever and its setters |
| `RateLimiter`, `RateClock` | the per-client sliding window, and what a clock that steps back does to it |
| `WireFraming` | the framed wire protocol |
| `CpuList`, `CpuPin` | the CPU list notation, one CPU per core, the affinity mask, the command rewrite |
| `Basics` | what they share |

Loops, lists and dictionaries that the source updates in place are methods and classes here,
each proved against a specification function; the results are lemmas about those functions.
Threads are the exception: a protocol between threads is a state machine on values, whose
steps are the single queue, lock and future operations of the source.

## Where the code and its own documentation differ

The models follow the code. Each point below is a lemma.

- "Feeder loss never loses work" (gb_cluster.py:1878): the host sees the queue empty and only
  then samples the threads. A feeder that re-queues and dies between the two reads leaves its
  chunk behind, and `cluster_map` raises KeyError. What can be said before the call: every exit
  without a short answer returns the map of f if and only if no feeder may fail or the list is
  empty (`ClusterLoss.CompleteIffNoneFails`); for any nonempty list, chunk size, pull counts
  and feeder that may fail there is a losing run (`ClusterLoss.LosingRun`). With liveness
  sampled before emptiness no feeder's loss loses work (`ClusterResult.AliveFirstIsComplete`).
- The automatic chunk size is to "ensure at least (host + every feeder) chunks exist when there's
  enough work to split" (gb_cluster.py:1908-1921). Six items for a host and three feeders make
  three chunks (`ClusterQueue.SixForFour`); everyone has one exactly if there are no more items
  than participants, or more than all but one of them take up
  (`ClusterQueue.EveryoneHasAChunkIff`).
- `_reconcile_chunk` says that a short answer leaves holes and "no error anywhere"
  (gb_cluster.py:1795-1799). The final comprehension raises KeyError instead, in every case;
  `parallel_map_with_feeder` and the local-only path do return a shorter list in silence
  (`ClusterResult.ParallelMapResult`, `ClusterLocal.LocalIsMap`).
- `_tail_seek_start` claims to be safe under local disorder (gb_dataflux.py:781-786). With the
  code's block of 1 MiB, or any other, it is right for every cutoff if and only if at every
  block start whose first record is older than those of all later blocks no record before it is
  newer (`SeekReader.RightAtBlockIff`); `SeekReader.MisreadAtOneMiB` gives logs that fail.
- `sync_feeder_dataflux` says that a backlog drains over several calls (gb_cluster.py:497-498)
  and that it never raises. Lines beyond `max_lines` are skipped for good
  (`FeederSync.BacklogIsNotDrained`), and a line that is JSON but not an event raises after a
  part of the batch has been re-emitted, which is then re-emitted again
  (`FeederSync.StrangeLineRepeats`). Events are re-emitted at most once, at every point of a run
  and whatever is pulled next, if and only if no sync raises after re-emitting something
  (`FeederSync.AtMostOnceIff`).
- `plan_from_source` accepts a candidate within 1e-9 GiB of its target. That is more than one
  byte, so a budget that could be met may be reported as missed
  (`QuantPlan.SlackCanOvershoot`). A feasible budget is met if and only if the deciding role, the
  first up to which the roles can save enough, ends less than one byte above its target
  (`QuantPlan.FitsIff`, for roles whose last ladder type stands alone: with the default ladder,
  all of at least 143 bytes).
  "Only touched once every earlier role has given everything" likewise means up to that slack
  (`QuantPlan.LaterOnlyAfterEarlier`).
- `proportional_split` promises an exact sum. It fails exactly when no weight is positive and
  there are more units than nodes (`Placement.ExactSumIff`), and its minimums can be missed
  although there are units to meet them (`Placement.MinimumsCanBeMissed`). They are met exactly
  when no step of the loop leaves anybody short (`Placement.MinimumsIff`), and always when there
  are enough units for everyone to have the largest (`Placement.EnoughForTheLargest`). Neither
  failure happens in the pull counts (`Placement.PullCounts`).
- `one_per_core` promises the lowest CPU of every core. It keeps the promise where the sibling
  lists agree with each other (`CpuPin.OnePerCoreSpec`), not always where one list names a CPU
  that does not name it back (`CpuPin.OneSidedSiblings`), and exactly when, for every listed CPU,
  it names a lower one if and only if the lowest of some core below it names it
  (`CpuPin.LowestIff`).
- The pruned table of `_rate_ok` answers like the full history for a clock that never steps back
  (`RateLimiter.PruningIsInvisible`). The code reads the clock before it takes the lock. Whatever
  the bound on the table, the limiter counts what the full history counts if and only if no
  accepted time that may have been dropped is in the window of a later request
  (`RateClock.EveryBoundIff`); otherwise a window can hold more than the rate
  (`RateLimiter.BackwardClockExceedsRate`).
- An eviction looks its victim up under the item's present priority. After a priority has moved it
  raises KeyError (`EvictSpec.StalePriorityFails`), and so does every eviction after it while
  nothing changes (`EvictSpec.StaleTierIsStuck`).

## Model

| member | source | states |
|---|---|---|
| ClusterMap.EnqueueChunks | gb_cluster.py:1926-1931 | the enqueue loop leaves exactly the chunks of the specification in the queue |
| ClusterMap.StoreResults | gb_cluster.py:2008-2013 | the write-back loop of a merged batch, with its running offset and clamped slices, is the chunk-by-chunk store |
| ClusterSafety.ChunksPartition | gb_cluster.py:1926-1931 | the chunks are nonempty contiguous pieces of the list, all but the last exactly of the chunk size and that one no longer, and every index of [0, n) is in exactly one |
| ClusterSafety.StoreSpec | gb_cluster.py:2008-2013 | storing an answer that agrees with f as far as it goes writes f(items[i]) at each index it covers, keeps every other slot, and adds as many slots as the answer has results for its batch |
| ClusterSafety.StepConserves | gb_cluster.py:1950-2014 | no step of any thread changes the total of any per-chunk count over queue, host, feeders and finished chunks |
| ClusterSafety.StepInv | gb_cluster.py:1950-2014 | every step of every thread keeps the invariant: each index in one place, results right, a feeder holds chunks only while it works, the host leaves only after every thread is dead |
| ClusterSafety.RunInv | gb_cluster.py:1950-2014 | so does every run |
| ClusterResult.ExactlyOnePlace | gb_cluster.py:1926-2018 | in every reachable state each index is in exactly one of queued, held by the host, held by one feeder, or done; every result written is f of its item; results and shortfalls add up to what is done |
| ClusterResult.ItemsAccounted | gb_cluster.py:1926-2018 | in every reachable state results, shortfalls, queued and held items add up to n |
| ClusterResult.ExitCondition | gb_cluster.py:1990-2018 | at an exit the call returns the map of f if and only if the queue is empty and no worker came up short, and raises KeyError otherwise; the results number n less the shortfalls and the queued items |
| ClusterResult.AliveFirstIsComplete | gb_cluster.py:1990-1997 | with liveness sampled before emptiness every exit without a shortfall is complete, for every interleaving, pull count and set of failing feeders |
| ClusterResult.LossNeedsLatePut | gb_cluster.py:1981-1997 | in the coded order, when no worker came up short, work is lost only if some feeder put a chunk back after the host's last look at the queue; a feeder's end with nothing in hand does not count |
| ClusterResult.NoFailureIsComplete | gb_cluster.py:1990-2018 | a run in which no feeder fails and no worker comes up short returns the map of f |
| ClusterResult.ExitRace | gb_cluster.py:1981-1997 | a run of the coded order, one item and one feeder, that ends with the chunk in the queue and a KeyError |
| ClusterLoss.LosingRun | gb_cluster.py:1950-2018 | for any nonempty list, chunk size, pull counts and feeder: a run of the coded order in which only that feeder fails and every answer is complete, and which ends with a chunk in the queue and a KeyError |
| ClusterLoss.CompleteIffNoneFails | gb_cluster.py:1878-1878 | the exact condition before the call: in the coded order, with any given feeders allowed to fail, every exit without a shortfall returns the map of f if and only if none may fail or the list is empty |
| ClusterResult.ParallelMapResult | gb_cluster.py:1379-1426 | `parallel_map_with_feeder` returns n less the items left queued, and the map of f if and only if none is |
| ClusterTermination.StepLowers | gb_cluster.py:1950-2014 | every step but the host's polling lowers one bounded measure |
| ClusterTermination.WorkIsBounded | gb_cluster.py:1950-2014 | a run of C chunks and N feeders takes at most 5C + N(4C + 3) working steps |
| ClusterTermination.QuietMeansDrained | gb_cluster.py:1950-1997 | no deadlock: when no working step is possible and the host still loops, all threads are dead, nothing is held, the host polls, and a chunk is queued only if it is sampling the threads |
| ClusterTermination.PollingExits | gb_cluster.py:1990-1997 | with every thread dead, a queued chunk or none, polls count down, a further one is always possible, and at zero the host has left its loop or finds a chunk to take |
| ClusterTermination.QuietExits | gb_cluster.py:1990-1997 | in the coded order, once no working step is possible after any run, every schedule leaves the loop after at most feeders + 2 polls and is never stuck before that, whether a chunk is still queued or not |
| ClusterTermination.RequeuedOncePerFeeder | gb_cluster.py:1973-1983 | each feeder re-queues a chunk holding a given index at most once |
| ClusterQueue.ChunkNumber | gb_cluster.py:1926-1931 | the number of chunks is the number of items over the size, rounded up |
| ClusterQueue.AutoChunkSizeSpec | gb_cluster.py:1921-1922 | the automatic size is the least in 1 to 4 with which every participant needs at most one chunk, or 4 |
| ClusterQueue.EveryoneHasAChunkIff | gb_cluster.py:1908-1922 | with it there are at least as many chunks as items or participants, whichever is less, if and only if there are no more items than participants or more than all but one of them take up |
| ClusterQueue.SixForFour | gb_cluster.py:1908-1922 | six items for four participants make three chunks |
| ClusterQueue.FirstInFirstOut | gb_cluster.py:1720-1738 | over any run the queue is what was in it and then what was put back, in order, less what was taken from its front |
| ClusterQueue.InListOrder | gb_cluster.py:1926-1931 | while no feeder fails the chunks are taken in the order of the list |
| ClusterQueue.NoBatchExceedsPulls | gb_cluster.py:1720-1738 | in every reachable state nobody holds more chunks than the largest number of pulls allowed in a round |
| Placement.ProportionalSplit | gb_placement.py:148-179 | the loops over floors, leftovers and minimums compute the split of the specification |
| Placement.RankingSpec | gb_placement.py:168-168 | the ranking is a permutation of the nodes, largest remainder first, lower index first among equals |
| Placement.ExactSumIff | gb_placement.py:160-179 | the counts sum to the total if and only if some weight is positive or there are no more units than nodes |
| Placement.WithinQuota | gb_placement.py:164-170 | without minimums every node gets its share rounded down or up |
| Placement.LargestRemainderFirst | gb_placement.py:166-170 | a node rounded up outranks every node rounded down |
| Placement.InProportion | gb_placement.py:163-170 | for weights that are not negative, some positive, each count is less than one away from total * weight / sum of the weights, multiplied out |
| Placement.NegativeIsNone | gb_placement.py:163-164 | a negative weight counts as zero |
| Placement.UniformMinimumIff | gb_placement.py:171-178 | a minimum common to all nodes is met if and only if there are enough units for it |
| Placement.EnoughForTheLargest | gb_placement.py:171-178 | any minimums are met when there are enough units for every node to have the largest of them |
| Placement.StealMeets | gb_placement.py:173-178 | a node gets what it lacks or what the others have above its minimum, whichever is less, so it meets its minimum if and only if that is enough |
| Placement.StealKeeps | gb_placement.py:174-178 | another node keeps its own minimum if and only if that is no larger, or what is taken is no more than the units that go before its own |
| Placement.MinimumsIff | gb_placement.py:171-178 | all minimums are met if and only if no step of the loop fails the two tests above |
| Placement.MinimumsCanBeMissed | gb_placement.py:171-178 | 6 units, weights 1, 0, 1 and minimums 3, 3, 0 give 3, 0, 3 |
| Placement.AdaptivePullCount | gb_cluster.py:1741-1759 | exactly one without history; otherwise this participant's own count in the split of two for each over the known throughputs, with at least one for all |
| Placement.PullCounts | gb_cluster.py:1752-1759 | the counts of all participants are at least one each and sum to two for each |
| Placement.PullQuota | gb_cluster.py:1756-1759 | a throughput of zero counts as 0.01, and the minimum of one raises nobody above one, so a larger count is less than one above the exact share |
| ClusterLocal.LocalMap | gb_cluster.py:1892-1905 | the local-only loop concatenates the answers to the chunks |
| ClusterLocal.LocalIsMap | gb_cluster.py:1892-1905 | that is the map of f if and only if no call came up short |
| JobQueueSafety.NeverInvalidState | gb_cluster.py:2069-2122 | in every reachable state a worker claims only pending or cancelled futures and resolves only claimed ones, so neither call raises |
| JobQueueSafety.StepOwned | gb_cluster.py:2059-2122 | every step keeps each unsettled job in exactly one place, and with a worker exactly while its future is claimed |
| JobQueueSafety.StepSentinels | gb_cluster.py:2071-2131 | every step keeps the sentinels at least as many as the live threads once `close` has begun, and no job behind a sentinel |
| JobQueueSafety.StepHostLast | gb_cluster.py:2069-2073 | the host thread ends only by a sentinel, with no job queued any more |
| JobQueueSafety.StepInv | gb_cluster.py:2059-2134 | every step of client, host and feeders keeps the invariant |
| JobQueueSafety.ReachableInv | gb_cluster.py:2052-2134 | every reachable state satisfies it |
| JobQueueResult.ResolvedExactlyOnce | gb_cluster.py:2069-2122 | over every run the number of calls that resolve a future is 1 if it is resolved and 0 otherwise |
| JobQueueResult.AllSettledAfterClose | gb_cluster.py:2124-2134 | when `close(wait=True)` has returned every submitted future is resolved, by exactly one call and with an answer for its own item, or was cancelled by its owner and then resolved by none, whichever feeders failed |
| JobQueueResult.ExceptionsAreLocal | gb_cluster.py:2105-2121 | an exception in a future was raised by run_local for its item, never by a feeder |
| JobQueueResult.QueueComputesF | gb_cluster.py:2024-2036 | if host and feeders compute f, every uncancelled future holds f of its item |
| JobQueueResult.SubmitSpec | gb_cluster.py:2059-2067 | before `close` a submit creates a future that belongs to its item for good; afterwards it changes nothing |
| JobQueueResult.NoDeadlock | gb_cluster.py:2124-2134 | after `close` has begun some thread can move until the client has returned and every thread has ended |
| JobQueueResult.WorkIsBounded | gb_cluster.py:2069-2134 | each job costs at most five steps and closing at most seven for each thread, so `close` returns |
| JobQueueWorkers.RunsWhileClaimed | gb_cluster.py:2074-2122 | in every state that satisfies the invariant some thread runs a job if and only if its future is claimed |
| JobQueueWorkers.CancelledNeverRuns | gb_cluster.py:2074-2097 | from any reachable state with a cancelled future, in every continuation: no thread ever runs the job, nothing resolves the future, it stays cancelled, and once `close(wait=True)` has returned a worker has seen that |
| JobQueueWorkers.CancelWorksIff | gb_cluster.py:2074-2097 | a cancellation takes effect if and only if no worker has claimed the job yet, and otherwise changes nothing |
| JobQueueWorkers.StartedOnceUnlessCancelled | gb_cluster.py:2069-2134 | when `close(wait=True)` has returned every job has been started by exactly one worker, or by none if it was cancelled in time |
| JobQueueWorkers.FailingFeederStops | gb_cluster.py:2108-2122 | after a feeder's call has failed its thread takes, starts and finishes no further job; it ends its one local retry, if at all, once, and is dead exactly from then on |
| JobQueueWorkers.FailsAtMostOnce | gb_cluster.py:2122-2122 | in any run each feeder fails at most once |
| JobQueueWorkers.AliveUnlessFailed | gb_cluster.py:2069-2122 | before `close` a thread whose remote call has not failed is alive |
| JobQueueWorkers.TakenInOrder | gb_cluster.py:2059-2095 | once a job has been taken, every job still queued then or later was submitted after it |
| ExpertTier.ShiftOr | gb_expert_tier.h:52-52 | on 64 bits, shifting a 32-bit heat by 8 and or-ing a byte is adding it, and loses nothing |
| ExpertTier.ScoreRange | gb_expert_tier.h:45-53 | one frequency count outranks every recency bonus; neither the score nor the gate's threshold overflows 64 bits |
| ExpertTier.ScanColdest | gb_expert_tier.h:63-69 | the demotion scan finds the coldest resident of the specification |
| ExpertTier.ScanHottest | gb_expert_tier.h:71-84 | the promotion scan finds the hottest non-resident of the specification, or -1 |
| ExpertTier.PickLfru | gb_expert_tier.h:55-98 | null and range guards, scans and gate together give the swap of the specification, or 0; `PickByAge` and `SwapIff` say which swap that is, and when there is one |
| ExpertTier.Decay | gb_expert_tier.h:103-107 | halves the first ncand entries in place and keeps the rest |
| ExpertTier.ColdestIsLeast | gb_expert_tier.h:63-69 | no resident scores less, and none before it as little |
| ExpertTier.HottestIsGreatest | gb_expert_tier.h:71-82 | no non-resident scores more, and none before it as much |
| ExpertTier.NonResidentExists | gb_expert_tier.h:83-84 | with fewer residents than candidates, repeated or not, some candidate is not resident, so the -1 test never fires |
| ExpertTier.PickSpec | gb_expert_tier.h:86-97 | a swap takes the coldest resident for the hottest non-resident, which leads by the margin and by at least four counts; no swap means the gate is not cleared |
| ExpertTier.RecencyIff | gb_expert_tier.h:45-53 | between equal counts a chunk scores higher if and only if it was used later and less than 255 ticks ago, on the 32-bit clock that goes round |
| ExpertTier.ScoreOrder | gb_expert_tier.h:45-53 | scores are ordered by the count and then by that recency |
| ExpertTier.PickByAge | gb_expert_tier.h:63-82 | no resident has a lower count than the one demoted, nor the same one and a greater age up to 255 ticks; no non-resident a higher count than the one promoted, nor the same one and a lesser age |
| ExpertTier.SwapIff | gb_expert_tier.h:83-92 | there is a swap if and only if four times some non-resident's score is more than five times some resident's and 4096 |
| TierRuns.QuietIsNearOptimal | gb_expert_tier.h:86-92 | when no swap is made, no set of as many chunks scores more than 5/4 of the resident score plus 1024 for each resident |
| TierRuns.NoPingPong | gb_expert_tier.h:55-107 | over any run of decay passes, clock and `last` changes and swaps, no promoted chunk is demoted and no demoted one promoted, and there are at most min(nres, ncand - nres) swaps |
| TierRuns.FrozenQuiesces | gb_expert_tier.h:55-98 | with heat, last and clock frozen, that many picks leave nothing to swap |
| EvictSpec.ClampPriority | gb_evict_policy.py:263-271 | None gives 35, a value below the band 0, one above it 100, and a value in the band itself |
| EvictSpec.VictimIsLeast | gb_evict_policy.py:104-112 | the victim is the minimum by bucket, evict_first, live last_used and push order |
| EvictSpec.VictimWrittenOut | gb_evict_policy.py:104-166 | with the order written out: lowest bucket, then evict_first, then least last_used, then earliest push |
| EvictSpec.OldestSpec | gb_evict_policy.py:108-112 | the oldest of a list is the first whose last_used is least |
| EvictSpec.VictimByBucket | gb_evict_policy.py:161-166 | the lowest occupied bucket, its evict_first list if it has one, and the first oldest item there give that minimum |
| EvictSpec.DefaultIsPlainLru | gb_evict_policy.py:263-271 | with every priority at the default and no evict_first the victim is the plain least recently used item |
| EvictSpec.DrainPermutes | gb_evict_policy.py:168-172 | popping until empty yields every tracked item once |
| EvictSpec.DrainOrdered | gb_evict_policy.py:161-172 | in the order of eviction |
| EvictSpec.DrainStable | gb_evict_policy.py:104-118 | and in push order among ties |
| EvictSpec.StalePriorityFails | gb_evict_policy.py:168-178 | a pop raises KeyError although something is tracked if and only if the victim's present priority differs from its bucket and no other track of it is in the present bucket; for an item tracked once, if and only if they differ |
| EvictSpec.StaleTierIsStuck | gb_evict_policy.py:168-178 | as long as that item stays the victim and keeps that priority, every further pop raises and nothing changes |
| EvictSpec.FixedPriorityEvicts | gb_evict_policy.py:168-181 | while priorities do not change, a pop from a tier that tracks something never fails and takes out exactly the victim |
| EvictLedger.RunBalances | gb_evict_policy.py:220-244 | over any run of schedules, evictions, removals and re-tierings, with last_used and priorities changing in between: in every tier the accepted pushes are what is tracked and what has left |
| EvictLedger.OnePlaceIff | gb_evict_policy.py:220-244 | over any run each item is tracked in at most one place throughout, if and only if each push and re-tiering finds the item nowhere but where it says or where it puts it |
| EvictLedger.DisciplinedRun | gb_evict_policy.py:239-242 | so for callers that schedule in the item's tier, re-tier from it and leave priorities fixed, each item is tracked in at most one tier, once |
| EvictLedger.FromStart | gb_evict_policy.py:203-244 | for such a caller of a new controller both hold at once: in no tier anything is lost or repeated, and every item is in at most one |
| EvictLedger.WrongTierDuplicates | gb_evict_policy.py:239-244 | a re-tiering that names a wrong tier leaves the item tracked in two |
| EvictLedger.MovedPriorityDuplicates | gb_evict_policy.py:174-178 | so does one after the priority has changed |
| EvictLedger.RetierMoves | gb_evict_policy.py:239-244 | an item tracked in the named tier leaves it, arrives last in the other, and every other track stays |
| EvictPolicy.LRUEvictionPolicy.Push | gb_evict_policy.py:99-102 | appends to one of the two lists unless the item is in either |
| EvictPolicy.LRUEvictionPolicy.Peek | gb_evict_policy.py:104-112 | the first oldest of the evict_first list, else of the other, by the live last_used |
| EvictPolicy.LRUEvictionPolicy.Remove | gb_evict_policy.py:120-125 | takes the item out of its list, or raises KeyError and changes nothing |
| EvictPolicy.PrioritizedEvictionPolicy.Push | gb_evict_policy.py:158-159 | tracks the item last under its priority, or changes nothing if that bucket has it |
| EvictPolicy.PrioritizedEvictionPolicy.Peek | gb_evict_policy.py:161-166 | the bucket-by-bucket lookup returns the victim of the tracked sequence |
| EvictPolicy.PrioritizedEvictionPolicy.Remove | gb_evict_policy.py:174-181 | removes the item from the bucket of its present priority, forgets an emptied bucket, and raises KeyError if it is not there |
| EvictPolicy.PrioritizedEvictionPolicy.Pop | gb_evict_policy.py:168-172 | removes and returns the victim as far as its present bucket holds it; IndexError when empty; KeyError, with nothing changed, otherwise |
| EvictController.PerTierEvictionController.ScheduleForEviction | gb_evict_policy.py:220-221 | the schedule step of the runs: the item is tracked last in its own tier, and every other tier is left alone |
| EvictController.PerTierEvictionController.VictimOf | gb_evict_policy.py:223-225 | the victim of that tier, with nothing tracked or forgotten |
| EvictController.PerTierEvictionController.Evict | gb_evict_policy.py:227-228 | the eviction step of the runs, with the answer of pop on that tier |
| EvictController.PerTierEvictionController.Forget | gb_evict_policy.py:230-237 | the removal step of the runs: untracks the item if the tier has it under its priority, and tolerates an untracked one |
| EvictController.PerTierEvictionController.Retier | gb_evict_policy.py:239-244 | the re-tiering step of the runs: forgets in the old tier, then tracks last in the new one, also when they are the same |
| SeekReader.TailSeekStart | gb_dataflux.py:775-815 | the backward block loop computes the start of the specification, for every block size |
| SeekReader.ReadJsonlFile | gb_dataflux.py:818-852 | reads from that start with the partial line dropped, or scans an archive or a log without a cutoff in full: the records are those at strictly increasing positions, which are all the lines, after the one the seek falls in, that parse and are not older than the cutoff |
| SeekReader.SplitSpec | gb_dataflux.py:801-801 | the pieces hold no newline and, joined with newlines, are the text |
| SeekReader.SelectPositions | gb_dataflux.py:838-849 | the forward loop returns each line that parses and passes the cutoff once, in order, and nothing else |
| SeekReader.SeekPositions | gb_dataflux.py:833-849 | so does the seeking reader for the lines after the one it starts in |
| SeekReader.SeekEqualsScan | gb_dataflux.py:775-852 | on a log in time order this is the full scan, for every cutoff and block size, long lines and unparseable lines included |
| SeekReader.DisorderIsMissed | gb_dataflux.py:781-786 | for every log with a record older than an earlier one there are a cutoff and a block size that make the reader miss a record |
| SeekReader.RightIffSorted | gb_dataflux.py:775-852 | the reader is right for every cutoff and every block size if and only if the log is in time order |
| SeekReader.RightAtBlockIff | gb_dataflux.py:772-852 | at any one block size: the reader is right for every cutoff if and only if, at every block start whose first record is older than those of all later blocks, no record in the lines before it is newer |
| SeekReader.MisreadAtOneMiB | gb_dataflux.py:772-815 | with the code's 1 MiB block: a record, an older one and text that fills the last block make the reader miss the first |
| EventLog.Log.Emit | gb_dataflux.py:710-717 | appends the record and moves the log to the archive when over the cap; an event that does not serialise changes nothing |
| EventLog.Log.Rotate | gb_dataflux.py:731-740 | the chunked copy appends the whole log to the archive and leaves it empty |
| EventLog.EmitConserves | gb_dataflux.py:710-740 | one emit appends its record to archive and log together, leaves the log within the cap, and leaves the archive alone if and only if log and record fit the cap |
| EventLog.LogConserved | gb_dataflux.py:710-740 | over any run archive and log together are the emitted records in order, the log is within the cap of the last emit, and no record straddles the two |
| EventLog.NothingLostByRotation | gb_dataflux.py:710-852 | scanning archive and log gives exactly the emitted events that pass the cutoff, in order, whenever rotations happened |
| EventLog.EveryRecordReadBack | gb_dataflux.py:710-852 | if every record parses, a reader without a cutoff gets the value of each emitted record once, in order |
| EventLog.NothingLostBySeeking | gb_dataflux.py:710-852 | for records emitted in time order, scanning the archive and seeking in the log does too |
| LogCompaction.CompactArchive | gb_dataflux.py:1033-1084 | the compaction computes the count and the archive of the specification, and rewrites only if it drops something |
| LogCompaction.TrimOldest | gb_dataflux.py:1057-1061 | the pop loop with its running size is the trim of the specification |
| LogCompaction.SortSpec | gb_dataflux.py:1056-1056 | the sort is a permutation in time order that keeps file order within an instant |
| LogCompaction.TrimSpec | gb_dataflux.py:1057-1061 | trimming keeps exactly the longest suffix that fits the ceiling |
| LogCompaction.CompactionKeepsNewest | gb_dataflux.py:1037-1061 | what is kept is the longest fitting suffix of the unexpired, parseable records in stable time order |
| LogCompaction.StripSpec | gb_dataflux.py:1041-1041 | stripping takes whitespace from both ends, all of it and nothing else |
| LogCompaction.UnexpiredPositions | gb_dataflux.py:1040-1051 | the loop keeps each line that parses and has not expired once, in order, with its timestamp and stripped text |
| LogCompaction.DroppedSpec | gb_dataflux.py:1062-1084 | the answer is the number of lines that are expired or do not parse, blank ones apart, and of those trimmed for size; the archive is rewritten if and only if there are any |
| LogCompaction.CorruptIsDropped | gb_dataflux.py:1062-1070 | an archive with a line that does not parse is rewritten without it and counts it, even if nothing has expired |
| LogCompaction.SizeIsWritten | gb_dataflux.py:1058-1061 | the size that is compared with the ceiling is the number of bytes written |
| LogCompaction.CompactionIdempotent | gb_dataflux.py:1033-1084 | a second compaction with the same cutoff and ceiling drops nothing and changes nothing |
| FeederSync.Host.Sync | gb_cluster.py:505-563 | one call appends the fresh events of the pulled tail to the host's log and saves the newest timestamp if it emitted any; a failed ssh changes nothing; a strange line raises after the events before it |
| FeederSync.FreshPositions | gb_cluster.py:530-556 | a sync re-emits each pulled event newer than the last sync once, in order, up to the first line it raises on, and nothing else |
| FeederSync.SavedSpec | gb_cluster.py:508-563 | what is saved: nothing if the sync raises or re-emits nothing, else for that feeder alone the newest timestamp it has re-emitted; a feeder never synced counts from 0 |
| FeederSync.NothingTwice | gb_cluster.py:508-563 | at most once: whatever the log does between syncs, a sync re-emits only events strictly newer than all re-emitted before it, as long as no sync before it raised after re-emitting something |
| FeederSync.AtMostOnceIff | gb_cluster.py:508-563 | at every point of a run and for every next pull all batches are in strict order of time, if and only if no sync of the run raises after re-emitting something |
| FeederSync.SamePullIff | gb_cluster.py:530-563 | of two syncs that pull the same lines the second re-emits nothing if and only if the first did not raise or re-emitted nothing |
| FeederSync.SecondSync | gb_cluster.py:530-563 | on a growing log the second re-emits only new lines if the first did not raise; while the line it raised on is in reach it repeats exactly what the first re-emitted from the lines in reach, and nothing new |
| FeederSync.StrangeLineRepeats | gb_cluster.py:534-556 | two syncs of a log with a line that is not an event, which re-emit the same event twice |
| FeederSync.EmitsWhatIsReached | gb_cluster.py:508-563 | on a log that only grows, with rising positive timestamps, exactly the new events within reach of `tail` are re-emitted, once and in order |
| FeederSync.ExactlyOnceIff | gb_cluster.py:508-563 | every event is re-emitted exactly once and in order if and only if no sync finds an event among the new lines beyond its reach |
| FeederSync.FewNewLines | gb_cluster.py:495-498 | in particular with at most max_lines new lines before each sync |
| FeederSync.BacklogIsNotDrained | gb_cluster.py:495-498 | what the first sync does not reach is never re-emitted, however many syncs follow |
| FeederSync.NeverTaggedHost | gb_cluster.py:541-553 | each re-emitted event is that of a pulled line with its node kept, but for none, empty, "host" and the feeder's own, which become the feeder's name; so "host" is used only by a feeder of that name |
| QuantPlan.ChooseSpec | gb_gguf_plan.py:165-174 | the chosen index is the first on the ladder whose size meets the target |
| QuantPlan.ChooseWrittenOut | gb_gguf_plan.py:165-174 | with the arithmetic written out: the first type whose size saves what is needed or, if none does, is the last one's, up to 1e-9 GiB |
| QuantPlan.EstimateWrittenOut | gb_gguf_plan.py:153-182 | the estimate is the whole bytes of the untouched roles and of every other at its chosen type; the need is what the sources exceed the budget by, or nothing |
| QuantPlan.RaisingBudgetNeverHurts | gb_gguf_plan.py:156-180 | raising the budget moves no role down the ladder, for every ladder, monotone or not |
| QuantPlan.UnmetIsExcess | gb_gguf_plan.py:160-177 | what is left to save after all roles is the excess of the plan over the budget, or nothing |
| QuantPlan.FitsIffUnderOneByte | gb_gguf_plan.py:182-192 | the plan reports that it fits if and only if less than one byte is left to save |
| QuantPlan.FitsIff | gb_gguf_plan.py:160-192 | on the inputs, for roles whose last type stands alone: a feasible budget is met if and only if the deciding role's first type within the slack of its target is less than one byte above it, an infeasible one if and only if it is missed by less than a byte |
| QuantPlan.DecidingSpec | gb_gguf_plan.py:160-177 | the deciding role is the first up to which the roles can save what is needed, and its share is what the roles before it leave |
| QuantPlan.FeasibleNearlyFits | gb_gguf_plan.py:160-177 | if the fixed bytes and the fully squeezed roles fit, the plan exceeds the budget by at most 1e-9 GiB for each role |
| QuantPlan.SlackCanOvershoot | gb_gguf_plan.py:172-172 | an inventory whose plan misses by one byte a budget three times what full squeezing needs |
| QuantPlan.FullySqueezed | gb_gguf_plan.py:165-174 | a role asked for more than it can give ends within the slack of its smallest size, and at the last type exactly when no other is within the slack of it |
| QuantPlan.LaterOnlyAfterEarlier | gb_gguf_plan.py:127-132 | a later role is touched only if every earlier one has given all it can, up to the slack |
| QuantPlan.DefaultLastStandsAlone | gb_gguf_plan.py:72-78 | with the default ladder a role of at least 143 bytes that has given all it can is at the last type |
| QuantPlan.DeadRungs | gb_gguf_plan.py:50-78 | five types of the default ladder are never chosen |
| QuantPlan.Defaults | gb_gguf_plan.py:50-78 | the default ladder, sizes and priority list meet what the results ask of them |
| QuantPlanner.GroupByRole | gb_gguf_plan.py:143-146 | the dictionary maps each role that occurs to its tensors in order, and lists no other |
| QuantPlanner.GroupingCounts | gb_gguf_plan.py:148-154 | summing role by role counts every tensor outside the priority list once |
| QuantPlanner.FitRole | gb_gguf_plan.py:164-174 | the ladder scan for one role gives the index and size of the specification |
| QuantPlanner.PlanFromSource | gb_gguf_plan.py:143-193 | overrides, recorded sizes, estimate and verdict are those of the walk over the present roles |
| QuantPlanner.PlanMonotone | gb_gguf_plan.py:143-180 | for every inventory, raising the byte budget never makes any tensor's type more aggressive |
| QuantPlanner.PlanOverrides | gb_gguf_plan.py:162-180 | a tensor is overridden exactly when its role's index is not 0, with that ladder type, and never when its role is not in the priority list |
| ControlLever.Control.Lever | gb_control.py:327-385 | one call: the value aimed at, the verdict, what is recorded and which backend action ran with which value, as the rows up to `BackendValues` describe them |
| ControlLever.AimIsNearest | gb_control.py:342-358 | the value of a numeric lever is the one nearest to the target within the bounds and, once a value is recorded, within one step of it |
| ControlLever.FirstPull | gb_control.py:342-377 | a lever's first value is its clamped target; the minimum interval counts from time 0; what is recorded and called in each mode |
| ControlLever.NoTraceIff | gb_control.py:361-369 | a call leaves no trace if and only if its value is the recorded one or the last change is less than the minimum interval ago, and the first of these is reported first |
| ControlLever.AppliedIsCalled | gb_control.py:379-381 | what an applied call records is the value its backend was just called with |
| ControlLever.Control.Forget | gb_control.py:321-322 | forgets every recorded value and nothing else |
| ControlLever.LeverRuns | gb_control.py:342-381 | over any run of calls to any levers the recorded values of a numeric lever stay in its bounds, and successive ones differ by at most its step and are at least the minimum interval apart |
| ControlLever.BackendValues | gb_control.py:342-381 | over any run of calls to any levers every value a numeric lever's backend is called with is in its bounds and within one step of what is recorded then, and a successful one is recorded next |
| ControlLever.TraceEnds | gb_control.py:371-381 | what is recorded at the end of a run is the last value it recorded |
| ControlLever.BackendCalls | gb_control.py:362-381 | a dry run never calls the backend; any other calls it once for each call neither unchanged nor rate-limited |
| ControlLever.FailureChangesNothing | gb_control.py:379-385 | over any run: leaving out the calls whose action failed changes no recorded value or time of any lever |
| ControlLever.Converges | gb_control.py:342-381 | repeating a target, spaced and succeeding, reaches its clamped value in exactly ceil(distance / step) changes and then stays |
| ControlLever.NumericSetters | gb_control.py:389-668 | every numeric setter's bounds and step meet the two results above, and no target is more than 510 changes away |
| RateLimiter.Limiter.RateOk | gb_a2a.py:65-77 | one request: the answer, and the table after pruning and filtering |
| RateLimiter.RequestRefines | gb_a2a.py:65-77 | one request is accepted if and only if fewer than the rate of that client's accepted requests are less than 60 seconds old, and the table stays in step with the full history |
| RateLimiter.PruningIsInvisible | gb_a2a.py:68-70 | with a clock that never runs backwards every answer is that of the full history, whatever the bound on the table |
| RateLimiter.BackwardClockForgets | gb_a2a.py:66-71 | three requests with a clock that jumps back, the last of which is let through wrongly |
| RateLimiter.NoWindowExceedsRate | gb_a2a.py:71-77 | with a clock that never runs backwards no window (t - 60, t] holds more requests of a client that the limiter accepts than the rate, whatever the bound on the table |
| RateLimiter.BackwardClockExceedsRate | gb_a2a.py:66-77 | four requests with a clock that jumps back, all accepted at a rate of 2, three of them in one window |
| RateClock.CountsIff | gb_a2a.py:65-77 | for a fixed bound: every request is compared with the count of the full history, if and only if no time the limiter drops is in the window of that request or a later one of its client |
| RateClock.FewClientsIff | gb_a2a.py:68-71 | with no more clients than the bound, if and only if no client's request sees an accepted time expired and a later one comes within 60 seconds of it |
| RateClock.EveryBoundIff | gb_a2a.py:65-77 | whatever the bound, if and only if no accepted time that was seen expired, or whose client's last accepted time was, is in the window of a later request of its client |
| RateClock.NeverForgetsAnswers | gb_a2a.py:65-77 | on every run of that kind, ordered or not, the answers are those of the full history and no window holds more than the rate |
| RateClock.AcceptedIff | gb_a2a.py:65-77 | on such a run a request is accepted if and only if fewer than the rate of the requests already accepted from its client are less than 60 seconds old, counted as a set of requests |
| WireFraming.PackRoundTrip | gb_feeder_diag.py:38-42 | a number packed little-endian in enough bytes unpacks to itself |
| WireFraming.ParseHeader | gb_feeder_diag.py:38-42 | the header of a frame has 16 bytes and unpacks to its five fields |
| WireFraming.HeaderLayout | gb_feeder_diag.py:36-42 | the sixteen header bytes in wire order: the magic's letters, then type, flags, length and sequence number, least significant byte first |
| WireFraming.RecvAll | gb_feeder_diag.py:101-108 | however the stream splits, returns exactly the next n bytes, or EOFError when there are fewer |
| WireFraming.Peer.SendMsg | gb_feeder_diag.py:117-122 | appends one frame and advances the counter, or fails before changing anything |
| WireFraming.Peer.RecvMsg | gb_feeder_diag.py:124-135 | reads what the specification reads: the message or the error, the bytes left, the counter |
| WireFraming.Peer.ResetSeq | gb_feeder_diag.py:113-115 | both counters start over |
| WireFraming.ReadFrame | gb_feeder_diag.py:124-135 | reading a frame gives its message if its number is due, and otherwise a mismatch with the payload unread |
| WireFraming.UnpackRoundTrip | gb_feeder_diag.py:128-128 | any bytes are the little-endian bytes of the number they unpack to |
| WireFraming.ReceivedIsFrame | gb_feeder_diag.py:124-135 | a message is received only from its own frame with the number due |
| WireFraming.ReadsOnlyFrames | gb_feeder_diag.py:124-135 | whatever bytes arrive, the messages received are those of the frames the stream starts with, numbered on from the counter, and no further one follows |
| WireFraming.BadMagicIff | gb_feeder_diag.py:129-130 | a header is refused for its magic if and only if it does not start with the four letters, whatever its number, with the payload unread and the counter unchanged |
| WireFraming.CutMidway | gb_feeder_diag.py:101-135 | a frame cut inside is an EOFError, and the counter has moved on only if its header was read |
| WireFraming.RoundTrip | gb_feeder_diag.py:117-135 | for every list of messages, reading the concatenated frames gives it back, with both counters in step |
| WireFraming.AcceptedIffConsecutive | gb_feeder_diag.py:131-133 | any frames are read to their end if and only if their numbers are consecutive from the reader's counter |
| WireFraming.DropIsDetected | gb_feeder_diag.py:131-132 | a dropped frame stops the reader at the next one, after exactly the messages before it; a dropped last frame goes unnoticed |
| WireFraming.RepeatIsDetected | gb_feeder_diag.py:131-132 | a repeated frame stops the reader after exactly the messages up to it |
| WireFraming.SwapIsDetected | gb_feeder_diag.py:131-132 | exchanging two frames stops the reader at the first of them |
| WireFraming.CutStream | gb_feeder_diag.py:101-135 | wherever the connection breaks, the reader gets the messages whose frames arrived whole and then EOFError |
| CpuList.Print | gb_cluster.py:998-1010 | the printing loop prints the maximal runs of the sorted set, in order, for any integers |
| CpuList.Read | gb_cpu_pin.py:18-27 | the parsing loop computes the specification, with the signs, underscores and ASCII blanks that `int` accepts; a malformed part is a ValueError |
| CpuList.RunsSpec | gb_cluster.py:1000-1009 | the runs are nonempty, could not be longer, and together are the list |
| CpuList.RoundTrip | gb_cluster.py:998-1010 | parsing what was printed gives the sorted set of the CPUs if no number is negative, and a ValueError otherwise |
| CpuList.ParseAscending | gb_cpu_pin.py:27-27 | whatever is parsed is ascending and without duplicates |
| CpuList.ParseAnyRanges | gb_cpu_pin.py:18-27 | ranges in any order, overlapping or not, are read as the set of the CPUs in them |
| CpuList.BlanksIgnored | gb_cpu_pin.py:21-22 | blanks around the text or around one of its parts make no difference |
| CpuPin.OnePerCore | gb_cpu_pin.py:62-71 | the scan over the sorted CPUs with its set of taken ones |
| CpuPin.ChosenSpec | gb_cpu_pin.py:62-71 | whatever the sibling lists say, a CPU is chosen if and only if it is listed and no lower chosen CPU names it |
| CpuPin.LowestIff | gb_cpu_pin.py:62-71 | the chosen CPUs are the lowest of each core if and only if every listed CPU names a lower listed one exactly when the lowest of some core below it names it |
| CpuPin.OnePerCoreSpec | gb_cpu_pin.py:62-71 | when the sibling lists describe cores, the chosen CPUs are exactly the lowest listed CPU of each core, ascending |
| CpuPin.OneSidedSiblings | gb_cpu_pin.py:64-70 | two CPUs with one-sided sibling lists, both of which are chosen |
| CpuPin.OneChosenPerCpu | gb_cpu_pin.py:10-10 | so every listed CPU shares its core with exactly one chosen CPU |
| CpuPin.CpuMask | gb_cpu_pin.py:74-79 | the text is a hexadecimal number without leading zeros, of which bit k is set if and only if k is listed; a negative CPU is a ValueError |
| CpuPin.HexRoundTrip | gb_cpu_pin.py:79-79 | the digits read back as the number they were written for |
| CpuPin.SetBitAdds | gb_cpu_pin.py:78-78 | or-ing a bit that is not set adds its power of two |
| CpuPin.Command.Apply | gb_cpu_pin.py:100-114 | sets the thread count after `--threads`, else after `-t`, else appends it, and appends the mask; an IndexError or an already pinned command changes nothing |
| CpuPin.ThreadFlagSpec | gb_cpu_pin.py:102-109 | the count replaced is after the first `--threads` or, without that, the first `-t`; five flags leave a command alone |
| CpuPin.PinnedOnce | gb_cpu_pin.py:101-103 | a pinned command is left alone by the next call |

## Left out

- Threads: their locals and the shared queue are values in a state machine, so aliasing between threads is not modelled.
- The workers of `cluster_map` answer f of their items as far as their list goes; a worker that answers something else, or `None` (a failure of the feeder, an exception of the host), is covered only as a failing one.
- `on_progress`: a callback that raises inside a feeder's `try` after the results are written makes that feeder re-queue finished chunks.
- Placement.AdaptivePullCount: weights are real numbers and do not change during the call; `cluster_map` is modelled with any count of at least 1 in each round.
- Placement.MinimumsIff: the condition is stated on the counts before each step of the loop, which the two tests then decide.
- `_reconcile_chunk` reports a surplus as a negative shortfall; the model counts only missing results.
- ClusterTermination.WorkIsBounded: counts working steps, because the host polls every half second while a feeder is running and how long that takes is not known.
- JobQueueResult.AllSettledAfterClose: one client thread calls `submit` and `close`, so no submit races a close; a second `close(wait=True)` returns at once without waiting, as in the code.
- JobQueue: exceptions outside `Exception` (a thread killed by SystemExit) are not modelled.
- The caller of the LFRU rule is not part of this model; it is taken to put the promoted id in the victim's place in `resident[]`.
- EvictPolicy: the policy factories are fixed to the defaults; `LRUEvictionPolicy.pop` (which nothing here calls), `__len__`, `__iter__` and `counts` are not modelled. Tiers are strings and `last_used` is a real number.
- SeekReader, EventLog: JSON is a partial parser given as a parameter, of which no proper prefix of a line of the log parses; lines are ASCII and end in a newline only, events are objects, gzip is a lossless append.
- EventLog: one writer, successful file operations, and no crash in the middle of a rotation.
- The `read_events` memo and its merging of several logs.
- FeederSync: one sync at a time for a feeder, and the saved state is kept between them.
- QuantPlan: sizes are real numbers, so floating-point rounding is not modelled.
- QuantPlanner.PlanFromSource: the role of a tensor name is a parameter, the priority list has no duplicates, and the rounded `role_breakdown` is the exact size without its floor type.
- ControlLever: the backend actions are outcomes chosen by the caller; the levers that do not use `_lever` (evict_cold, phase reset, clock locking) and baseline capture.
- RateLimiter: times are real numbers; requests are taken in the order in which they get the lock.
- WireFraming: the handshake, authentication and the meaning of the message types.
- CpuList.Read: digits and blanks outside ASCII, which `int` also accepts, count as malformed.
- CpuPin: `read_topology`, `pcore_cpus` and `cpu_pin_args`, which read sysfs and compose the functions modelled here.
- Everything else in GreenBoost: kernel module and shim, transports, servers, tensor numerics, user interfaces.
