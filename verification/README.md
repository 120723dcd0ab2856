# Gregg, verified

A Dafny model of the parts of Gregg whose correctness is not visible from one function: the client's
cron observation cache and the protocol by which it follows a restarting remote, the scheduler documents'
size budget, the host telemetry state machines, and the text transformations of the updater and the
health endpoint. `dafny verify dfyconfig.toml` checks everything.

## How it is organised

| files | models |
|---|---|
| `CronModel`, `CronMerge`, `CronEviction`, `CronFleet` | the cron cache on values: what each operation does, merging, eviction, and what every run of operations keeps |
| `CronRepeat`, `CronOrder`, `CronWitness` | repeating a document, keeping finish order, and short runs in which a comment of the source fails |
| `CronState` | the cache as objects updated in place; every method is proved equal to the operation on values |
| `CronRemote`, `CronGate`, `CronSystems` | the remote observer, every interleaving of it with one client, and each system of the fleet as such a client |
| `CronLog`, `CronFollow`, `CronClock` | the cache as a window on an unbounded log, through restarts |
| `SchedulerWire`, `WireKeys`, `JsonText` | the documents, their field names, and JSON text with its exact size |
| `SchedulerText`, `SchedulerValidate`, `SchedulerReport`, `SchedulerBudget` | output truncation, the history validator, what it reports, the body bound |
| `JsonReader`, `SchedulerReader` | reading JSON text and documents back |
| `DriveRefresh`, `CounterRates`, `Drives`, `DriveReport`, `HostModel` | host telemetry |
| `LexicalPath`, `ShellQuote`, `Version`, `Health` | text with exact inverses or preserved meaning |
| `Basics`, `Utf8`, `Utf8Order`, `Decimal` | integer widths, windows of sequences, string order, UTF-8, numerals |

Strings are sequences of Unicode scalar values. Rust orders strings by their UTF-8 bytes, which is the order
of their code points (`ByteOrderIsCharacterOrder`). The cache's nested map owns its per-system states, so a mutable borrow is modelled as
loading an entry, updating it and storing it back.

## Where the code and its comments differ

The model follows the code. Each of these is stated with the exact condition under which the comment holds.

- A repeated history response is described as a no-op (`crates/gregg/src/cron.rs:352-354`). For one system it
  is one if and only if every job the document carries records for stays listed and within the 64, and the
  records held since the first one of its ring, plus the new ones, are no more than the depth
  (`RepeatIsNoOpIff`). For the whole cache the excess over the global ceiling must also be ahead of that first
  record (`RepeatIsNoOpForCacheIff`). Each condition can fail: a ring twice as deep as the cache, served twice,
  leaves its oldest half (`RepeatedDeepRingKeepsOldest`), a job the summary does not list is reported as added
  every time (`UnlistedJobIsAddedAgain`), and so is a record over the global ceiling
  (`EvictedRecordIsAddedAgain`).
- Eviction is described as always taking the record with the smallest finish time
  (`crates/gregg/src/cron.rs:584-588`). It looks at the first record of each job only, so it takes records in
  the order of the latest finish time listed up to each (`EvictionFollowsPeaks`, `EvictedIffRank`), which is
  oldest first for every ceiling if and only if each job's records are in finish order
  (`OldestFirstIffSorted`). A clock that moves forward is not enough: an evicted record that the next document
  still carries comes back behind newer ones and outlives them (`ReturningRecordOutlivesNewer`). Documents
  keep the order exactly when what they add is no older than what is held (`MergedInOrderIff`), and runs of
  such documents evict oldest first (`OrderlyRunEvictsOldestFirst`).
- The history revision is described as changing whenever the history does
  (`crates/gregg-protocol/src/scheduler.rs:361-366`). The observer's counter saturates, so the fetch gate is
  exact below the largest 64-bit revision (`GateIsExact`) and fails at it (`GateFailsWhenSaturated`).
- The number of jobs kept per system is described as a hard maximum (`crates/gregg/src/cron.rs:78-87`). It holds
  if and only if a summary is known or the held and mentioned names are no more than 64 (`JobCeilingIff`); two
  documents before the first summary leave 128 jobs (`TwoDocumentsPassTheCeiling`).
- The fast path of `retain_ids` agrees with filtering unless the counts match, every id is known and an id is
  listed twice (`RetainFiltersIff`, `DuplicateIdsKeepAbsentOne`).
- The truncation flag means "something was dropped" unless the text is one character that alone exceeds the
  budget, which is kept whole and flagged (`TruncateToEscapedBudget`); from a budget of six bytes on there is no
  such character (`SixBytesSuffice`).
- Normalized drive records are described as deterministic (`crates/gregg-host/src/drives.rs:28-31`). Their ranking
  does not depend on the order of the candidates if and only if no identity has two different candidates at its
  least name (`OrderIndependentIff`).
- A failed response built with the warming category is refused by the receiver, and no other is (`MakeFailed`);
  the strict constructor builds it all the same (`TryFailed`).

## Model

| member | source | states |
|---|---|---|
| CronGate.GateIsExact | crates/gregg/src/cron.rs:322-345 | in every interleaving of remote finishes and restarts with client reads, failures and resets, late and out-of-order documents included, the gate is closed if and only if the routes last answered with a summary and the last document read is the remote's history at the summary's epoch and revision |
| CronGate.GateFailsWhenSaturated | crates/greggd/src/scheduler/observation.rs:538-575 | at the largest revision a run exists in which the gate is closed and the remote has moved on to another history |
| CronGate.EveryRunKeeps | crates/gregg-protocol/src/scheduler.rs:361-366 | below saturation an (epoch, revision) pair names one history for ever, and the client's pair is that of a document the remote really published |
| CronGate.ClientReflectsReads | crates/gregg/src/cron.rs:280-321 | every field but the jobs is a function of the events: capability is the last answer of the routes, a failure marks the data stale and erases nothing, only a later answer clears the mark, and the gate's key is that of the last document |
| CronSystems.FleetFollowsGate | crates/gregg/src/cron.rs:503-566 | over every run of the cache's operations each system holds, records aside, what that client holds after the events meant for it, and is present exactly when something was recorded since it was last forgotten |
| CronSystems.SystemReflectsOps | crates/gregg/src/cron.rs:280-321 | so capability, stale marker, summary, timestamps and gate key of every system are functions of the operations |
| CronSystems.ForgettingSystems | crates/gregg/src/cron.rs:520-539 | a reset or a retain removes exactly the systems it is meant to and leaves the others as they are |
| CronFollow.CacheIsWindowOfLog | crates/gregg/src/cron.rs:355-389 | for a job that is listed and within the 64 whenever its system's document is applied, and that no global eviction reaches, whatever is evicted from other jobs: through polls, lost fetches and restarts the retained records are exactly the last `per_job` entries of the deduplicated log of everything served, ending after a fetch with the remote's ring |
| CronFollow.NothingServedIsLost | crates/gregg/src/cron.rs:191-198 | while the log fits the depth every record ever served is retained under its (epoch, sequence) identity, so records of two lifetimes with equal sequences both survive |
| CronFollow.EveryRunFine | crates/greggd/src/scheduler/observation.rs:538-575 | over every run the remote's ring is the newest window of its lifetime with increasing sequences, and the log ends with the ring last fetched |
| CronFollow.LifetimeIsItsRuns | crates/greggd/src/scheduler/observation.rs:538-575 | a lifetime is the runs that finished since the last restart, whole and in order, and the sequence numbers count every run from 1 |
| CronLog.DedupKeepsAll | crates/gregg/src/cron.rs:352-354 | the log loses no served identity and repeats none |
| CronLog.DedupAppend | crates/gregg/src/cron.rs:369-379 | deduplicating everything served equals merging each ring into the deduplicated log |
| CronLog.FetchExtends | crates/gregg/src/cron.rs:369-385 | merging a ring into the window of the log gives the window of the ring merged into the log |
| CronMerge.MergeKeeps | crates/gregg/src/cron.rs:369-379 | merging keeps the retained records in place, keeps identities distinct, and retains exactly the old and the served identities |
| CronMerge.MergeJobsAt | crates/gregg/src/cron.rs:361-386 | a job mentioned once receives exactly its own ring, then the newest `per_job` remain |
| CronMerge.MergeJobsOther | crates/gregg/src/cron.rs:361-386 | a job the document does not mention keeps its list |
| CronMerge.MergeJobsNames | crates/gregg/src/cron.rs:361-368 | a document adds exactly the names it mentions that are neither empty nor over 128 bytes |
| CronMerge.FirstDocumentIsCached | crates/gregg/src/cron.rs:355-389 | the first accepted document of a system is cached whole: exactly its job names, each with the newest part of its ring |
| CronMerge.HistoryAppliedAt | crates/gregg/src/cron.rs:355-389 | a job the document mentions is kept exactly when it stays listed and within the 64, and then holds its own ring merged and drained to the depth, whatever other jobs the document carries |
| CronMerge.HistoryAppliedOther | crates/gregg/src/cron.rs:355-389 | any other job keeps its list as long as it stays listed and within the 64 |
| CronMerge.RemainsIff | crates/gregg/src/cron.rs:402-421 | the sweep keeps a job if and only if no summary is known, or it is listed and fewer than 64 listed jobs sort after it |
| CronMerge.RetainedIffSpan | crates/gregg/src/cron.rs:369-385 | the newest n records of the merged list hold the whole ring if and only if n is at least the held records from the first one of the ring on plus the new ones |
| CronMerge.RepeatIsNoOpIff | crates/gregg/src/cron.rs:347-389 | repeating a document adds nothing to a system if and only if every job it carries records for stays listed and within the 64 and has that many records within the depth; and then it changes nothing |
| CronMerge.RepeatLeavesContentsIff | crates/gregg/src/cron.rs:347-389 | repeating a document leaves a system's contents alone if and only if every carried job that remains has that many records within the depth |
| CronMerge.FirstRingSpan | crates/gregg/src/cron.rs:380-385 | for a job with nothing retained that number is the length of the ring |
| CronMerge.RepeatedDeepRingKeepsOldest | crates/gregg/src/cron.rs:380-385 | a ring twice as deep as the cache, served twice, leaves its oldest half and loses its newest |
| CronMerge.RepeatChangesNoList | crates/gregg/src/cron.rs:347-389 | a document all of whose records are retained changes no record list, and drops exactly the jobs that are not listed or over the 64 |
| CronMerge.DropToCeilingKeepsLast | crates/gregg/src/cron.rs:416-420 | the ceiling removes exactly the excess jobs, the alphabetically first ones, and leaves the other lists alone |
| CronMerge.EvictStaleBounds | crates/gregg/src/cron.rs:402-421 | with a known summary only listed jobs remain, at most 64, with their lists untouched; a listed job goes only for the ceiling, which a summary of at most 64 rows never provokes |
| CronMerge.JobCeilingIff | crates/gregg/src/cron.rs:399-420 | after a document at most 64 jobs are held if and only if a summary is known or the held and mentioned names are at most 64 |
| CronWitness.TwoDocumentsPassTheCeiling | crates/gregg/src/cron.rs:399-405 | two accepted documents before any summary leave 128 jobs of one system, in every configuration |
| CronRepeat.RepeatIsNoOpForCacheIff | crates/gregg/src/cron.rs:552-566 | repeating a document adds nothing to the cache if and only if every job it carries records for meets the conditions on its system and at least the excess over the global ceiling is ahead of the first record of its ring; and then the whole cache stays as it is |
| CronRepeat.EnforcedAt | crates/gregg/src/cron.rs:589-609 | of each job the ceiling leaves the newest part, and no job disappears |
| CronWitness.UnlistedJobIsAddedAgain | crates/gregg/src/cron.rs:387-388 | a document for a job the summary does not list is not retained, so its repeat reports an addition again |
| CronWitness.EvictedRecordIsAddedAgain | crates/gregg/src/cron.rs:563-565 | under a ceiling of one, a document of two records keeps the second only, so its repeat adds the first again |
| CronEviction.BeforeIsTotalOrder | crates/gregg/src/cron.rs:640-651 | the eviction key (finish time, system, job) is a total order |
| CronEviction.EnforcedRemovesExcess | crates/gregg/src/cron.rs:589-609 | `enforce_total` removes exactly the excess, and only from the front of jobs |
| CronEviction.EvictionFollowsPeaks | crates/gregg/src/cron.rs:582-631 | whatever the contents, no evicted record comes after a survivor in the order of (latest finish time up to it in its job, system, job) |
| CronEviction.EvictedIffRank | crates/gregg/src/cron.rs:582-631 | eviction in closed form, whatever the contents: a record is evicted if and only if fewer records than the excess are ahead of it in that order |
| CronEviction.SortedEvictsOldestFirst | crates/gregg/src/cron.rs:582-609 | when every job is in finish order no evicted record comes after a survivor in (finish time, system, job) |
| CronEviction.OldestFirstIffSorted | crates/gregg/src/cron.rs:582-609 | eviction is oldest-first for every ceiling if and only if every job is in finish order |
| CronEviction.OldestFirstUnique | crates/gregg/src/cron.rs:584-588 | any oldest-first cut keeping as many records keeps the same records, so the result is a function of the contents |
| CronFleet.EveryRunHealthy | crates/gregg/src/cron.rs:459-609 | over every run of the cache's operations, for every configuration, the counter is the true number of records and at most the ceiling, and every job holds at most `per_job` records with distinct identities |
| CronFleet.StepHealthy | crates/gregg/src/cron.rs:503-566 | each operation keeps that invariant and the two configured bounds |
| CronFleet.NewBounds | crates/gregg/src/cron.rs:463-470 | each bound is the one asked for, or the nearest of 1 and 50, or of 1 and 4096 |
| CronFleet.OnlyListedJobsRemain | crates/gregg/src/cron.rs:555-566 | after a document for a system with a known summary, the cache holds only listed jobs of it, at most 64 |
| CronFleet.AppliedDocumentEvictsOldestFirst | crates/gregg/src/cron.rs:555-566 | when the merged jobs are in finish order, what a document makes the cache evict comes, in (finish time, system, job), before everything it keeps, and as many records are kept as the ceiling allows |
| CronOrder.MergedOrderedIff | crates/gregg/src/cron.rs:369-385 | merging an ordered ring into an ordered list and draining it gives an ordered list if and only if what is added is no older than the newest record held, or displaces everything held |
| CronOrder.MergedInOrderIff | crates/gregg/src/cron.rs:555-560 | from a cache in finish order, a document with ordered rings leaves every merged job in finish order if and only if that holds for each job it mentions that remains |
| CronOrder.OrderlyRunsStayInOrder | crates/gregg/src/cron.rs:503-609 | every run of the cache's operations whose documents are such keeps all jobs in finish order |
| CronOrder.OrderlyRunEvictsOldestFirst | crates/gregg/src/cron.rs:582-609 | throughout such a run every eviction is oldest first |
| CronClock.ClockForwardKeepsOrder | crates/gregg/src/cron.rs:380-385 | a followed job that no ceiling hits, whose runs finish by a clock that never steps back, is held in finish order through polls, lost fetches and restarts |
| CronWitness.ReturningRecordOutlivesNewer | crates/gregg/src/cron.rs:584-609 | a run with a forward clock and accepted documents reaches an ordered cache whose next step evicts two records and keeps an older one |
| CronState.CronSystemState.constructor | crates/gregg/src/cron.rs:253-273 | a system that has never been asked about knows nothing |
| CronState.CronSystemState.ApplySummary | crates/gregg/src/cron.rs:280-286 | the whole new state after a summary read |
| CronState.CronSystemState.MarkUnsupported | crates/gregg/src/cron.rs:307-311 | the whole new state; retained history stays |
| CronState.CronSystemState.MarkFailed | crates/gregg/src/cron.rs:318-321 | the whole new state; summary and history stay |
| CronState.CronSystemState.NeedsHistory | crates/gregg/src/cron.rs:337-345 | the gate as the three-way condition `GateIsExact` is about |
| CronState.CronSystemState.PushNew | crates/gregg/src/cron.rs:369-379 | the loop pushes exactly the records not yet retained and reports whether there was one |
| CronState.CronSystemState.MergeEntry | crates/gregg/src/cron.rs:361-386 | one job entry is merged and cut to the depth; a refused name changes nothing |
| CronState.CronSystemState.ApplyHistory | crates/gregg/src/cron.rs:355-389 | the new state is the merged and swept one, and `added` holds if and only if the document carried a record that was not retained |
| CronState.CronSystemState.EvictStaleJobs | crates/gregg/src/cron.rs:402-421 | the sweep and the ceiling loop compute the specified jobs |
| CronState.CronSystemState.DropToCeiling | crates/gregg/src/cron.rs:416-420 | the loop removes the alphabetically first job until 64 remain |
| CronState.CronSystemState.Recent | crates/gregg/src/cron.rs:433-439 | the newest `depth` records, oldest first |
| CronState.CronCache.constructor | crates/gregg/src/cron.rs:463-470 | an empty cache with both bounds clamped to their hard maxima |
| CronState.CronCache.SystemMut | crates/gregg/src/cron.rs:503-505 | the state held for an id, or a new unknown one |
| CronState.CronCache.ApplySummary | crates/gregg/src/cron.rs:542-550 | exactly that system changes; the invariant is kept |
| CronState.CronCache.ApplyHistory | crates/gregg/src/cron.rs:555-566 | merge, recount and eviction give the specified cache; `added` is exact; the invariant is kept |
| CronState.CronCache.ResetSystem | crates/gregg/src/cron.rs:520-529 | the system is gone, the counter is true again, and the result tells whether it existed |
| CronState.CronCache.RetainSystems | crates/gregg/src/cron.rs:535-539 | only live systems remain and the counter is true again |
| CronState.CronCache.MarkFailed | crates/gregg/src/cron.rs:318-321 | a failure recorded through the cache keeps the invariant |
| CronState.CronCache.MarkUnsupported | crates/gregg/src/cron.rs:307-311 | a missing route recorded through the cache keeps the invariant |
| CronState.CronCache.Recount | crates/gregg/src/cron.rs:573-580 | the counter becomes the number of retained records |
| CronState.CronCache.FindOldest | crates/gregg/src/cron.rs:612-631 | the nested scan returns the least key among the first records of all jobs, in whatever order the maps are walked, and nothing only when nothing is retained |
| CronState.CronCache.EnforceTotal | crates/gregg/src/cron.rs:589-609 | the loop terminates in the specified contents; the arm for a counter that disagrees with the contents is unreachable |
| JsonText.EscapedTextLen | crates/gregg-protocol/src/scheduler.rs:463-476 | the summed per-character cost is the number of UTF-8 bytes an escaper following section 7 of RFC 8259 writes |
| JsonText.UnescapeEscaped | crates/gregg-protocol/src/scheduler.rs:463-476 | reading an escaped text back gives the text, for every text |
| JsonText.EscapeIsShortest | crates/gregg-protocol/src/scheduler.rs:463-476 | no way of writing a character that a reader takes for it is shorter than its cost |
| JsonText.WriteLen | crates/gregg-protocol/src/scheduler.rs:387-450 | the computed size of a JSON value is the UTF-8 length of its text |
| JsonReader.ReadWritten | crates/gregg-protocol/src/scheduler.rs:387-450 | a JSON reader takes the written text of every value back to that value, whatever follows it |
| SchedulerReader.ParseUndoesSerialize | crates/gregg-protocol/src/scheduler.rs:387-450 | reading a body gives the document back, every field under its own key and absent options absent |
| SchedulerText.TruncateToEscapedBudget | crates/gregg-protocol/src/scheduler.rs:499-516 | for every text and budget: the longest character prefix whose escaped form fits, or the first character alone when it does not; flagged exactly when the text does not fit, which means that something was dropped if and only if the text is not a single over-long character |
| SchedulerText.SixBytesSuffice | crates/gregg-protocol/src/scheduler.rs:484-488 | from a budget of six the first character fits and the flag means that something was dropped |
| SchedulerText.OutputTextFromBytes | crates/gregg-protocol/src/scheduler.rs:524-529 | published text is the longest fitting prefix, flagged if either stage dropped something, and always passes the validator's output check |
| SchedulerValidate.ValidateHistory | crates/gregg-protocol/src/validate_scheduler.rs:588-630 | the validator reports exactly the specified violations in order |
| SchedulerReport.ReportIsExact | crates/gregg-protocol/src/validate_scheduler.rs:446-630 | every defect of a document is reported exactly once under its own path with its own numbers, a name used n times n - 1 times, and nothing else; in the order header, jobs and their fields, repeated names |
| SchedulerValidate.CheckHeader | crates/gregg-protocol/src/validate_scheduler.rs:591-616 | no violation if and only if version, both timestamps and the job count are in bounds; every header defect is reported exactly once and nothing else is |
| SchedulerValidate.CheckJobs | crates/gregg-protocol/src/validate_scheduler.rs:617-619 | every job is checked under its own index |
| SchedulerValidate.CheckJobHistory | crates/gregg-protocol/src/validate_scheduler.rs:484-532 | name, record count and records of one job |
| SchedulerValidate.CheckRecords | crates/gregg-protocol/src/validate_scheduler.rs:514-531 | each record is checked, and its sequence against its predecessor's |
| SchedulerValidate.CheckDuplicateNames | crates/gregg-protocol/src/validate_scheduler.rs:271-288 | one violation for every job whose name an earlier job has |
| SchedulerValidate.RecordAccepted | crates/gregg-protocol/src/validate_scheduler.rs:446-482 | a record adds no violation if and only if its timestamps are plausible, a childless outcome carries no child data, and both outputs fit escaped |
| SchedulerValidate.RecordsAccepted | crates/gregg-protocol/src/validate_scheduler.rs:514-531 | records add no violation if and only if each is well-formed and sequences strictly increase throughout |
| SchedulerValidate.NamesAccepted | crates/gregg-protocol/src/validate_scheduler.rs:271-288 | the name check adds no violation if and only if names are pairwise distinct |
| SchedulerValidate.AcceptedIffWellFormed | crates/gregg-protocol/src/validate_scheduler.rs:588-630 | a document is accepted if and only if it is well-formed as a whole |
| SchedulerBudget.AcceptedFitsBudget | crates/gregg-protocol/src/validate_scheduler.rs:632-643 | every accepted document, for all names, outputs, numbers and optional fields, serializes to at most 942,980 bytes, within the 1 MiB cap |
| SchedulerBudget.RecordSize | crates/gregg-protocol/src/scheduler.rs:398-433 | a well-formed record serializes to at most 1,392 bytes |
| SchedulerBudget.JobSize | crates/gregg-protocol/src/scheduler.rs:387-396 | a well-formed job history, its name escaped up to sixfold, serializes to at most 14,730 bytes |
| DriveRefresh.EveryRunDelivers | crates/gregg-host/src/slow_probe.rs:37-128 | in every interleaving the collections' results, a panic counting as an error, are sent and consumed in the order they were made, at most two are not consumed, `latest` is the last success consumed, and at an empty channel the last success sent |
| DriveRefresh.LatestIsKept | crates/gregg-host/src/slow_probe.rs:120-128 | once a refresh succeeded `latest` never goes back to none |
| DriveRefresh.SpawnFailureStaysEmpty | crates/gregg-host/src/slow_probe.rs:88-102 | a cache whose worker was not spawned serves none for ever |
| DriveRefresh.EveryRunBacksOff | crates/gregg-host/src/slow_probe.rs:40-82 | after n >= 1 consecutive panics the worker waits min(10 ms * 2^(n-1), 30 s), and 30 s after any other collection |
| DriveRefresh.WorkerLives | crates/gregg-host/src/slow_probe.rs:39-86 | while the cache is in use a spawned worker does not exit and waits for nothing but the next poll |
| DriveRefresh.FirstCollectionIsRequested | crates/gregg-host/src/slow_probe.rs:103-109 | the request queued at construction stays until the worker takes it, so the first collection needs no timeout |
| DriveRefresh.DropStopsWorker | crates/gregg-host/src/slow_probe.rs:43-86 | after a drop in any reachable state the worker starts at most one further collection and takes at most six further steps |
| DriveRefresh.DroppedWorkerNeverBlocks | crates/gregg-host/src/slow_probe.rs:131-135 | once the cache is gone the worker always has a step until it exits |
| DriveRefresh.Cache.Poll | crates/gregg-host/src/slow_probe.rs:120-128 | draining keeps the last success received, or the previous one when none succeeded |
| CounterRates.RateIsExact | crates/gregg-host/src/rate.rs:95-99 | the 128-bit multiply never overflows; a rate exists exactly for a non-empty interval whose quotient fits 64 bits, and is that quotient rounded down |
| CounterRates.RatesBetweenIff | crates/gregg-host/src/rate.rs:61-68 | rates exist if and only if time advanced, neither counter went back and both quotients fit 64 bits; each is its own counter's advance per second, rounded down |
| CounterRates.RatesConserve | crates/gregg-host/src/rate.rs:40-68 | over any continuous stretch, for either counter, the sum of rate times elapsed is at most 10^9 times the total advance and falls short by less than the total elapsed nanoseconds |
| CounterRates.BaselinesAreTheLog | crates/gregg-host/src/rate.rs:40-85 | over any mix of operations with duplicate-free id lists, baselines and results depend only on each identity's last observation since it was last forgotten, and rates are returned exactly for a measurable interval since then |
| CounterRates.RetainFiltersIff | crates/gregg-host/src/rate.rs:71-79 | retaining equals filtering if and only if the fast path is not taken with a duplicate id |
| CounterRates.DuplicateIdsKeepAbsentOne | crates/gregg-host/src/rate.rs:71-79 | listing one id twice keeps the baseline of an absent one |
| CounterRates.CounterBaselines.Observe | crates/gregg-host/src/rate.rs:40-68 | the observation is stored in every case, and rates are returned if and only if the identity was known and the interval is measurable, each the exact floor |
| CounterRates.CounterBaselines.RetainIds | crates/gregg-host/src/rate.rs:71-79 | the new baselines, fast path included |
| CounterRates.CounterBaselines.Clear | crates/gregg-host/src/rate.rs:83-85 | nothing is remembered |
| Drives.RankedIsBestPerIdentity | crates/gregg-host/src/drives.rs:32-54 | filter, two sorts and dedup give, in strict (name, identity) order, exactly the least-named usable candidate of each identity |
| Drives.RankedIffChosen | crates/gregg-host/src/drives.rs:32-54 | on the input alone: a candidate is kept if and only if it is sound field by field and no sound one of its identity has a smaller name, or the same name earlier |
| Drives.TrimIsInside | crates/gregg-host/src/drives.rs:38-40 | trimming removes whitespace at both ends, all of it and nothing else |
| Drives.BestIsLeast | crates/gregg-host/src/drives.rs:47-52 | the chosen candidate is usable input and no usable candidate of its identity has a smaller name |
| Drives.BestIsEarliest | crates/gregg-host/src/drives.rs:47-52 | of equal names the earliest listed is chosen |
| Drives.SortIsSorted | crates/gregg-host/src/drives.rs:47-51 | the sort orders and permutes |
| Drives.DedupKeepsFirsts | crates/gregg-host/src/drives.rs:52-52 | on a sorted list dedup keeps the first of every identity, once |
| Drives.OrderIndependentIff | crates/gregg-host/src/drives.rs:28-31 | every reordering of the input ranks equally if and only if no identity has two different usable candidates at its least name |
| Drives.TiesGoToTheFirst | crates/gregg-host/src/drives.rs:47-52 | with such a tie the first listed wins |
| Drives.NormalizeWithLimits | crates/gregg-host/src/drives.rs:32-65 | the records are, position by position, those of the first `max_drive_entries` of the ranking |
| Drives.Metrics | crates/gregg-host/src/drives.rs:56-64 | used plus free is total, and name and available bytes carry over |
| Drives.ValidateDrives | crates/gregg-protocol/src/validate_v2.rs:298-367 | the drive section reports exactly the specified violations |
| DriveReport.DriveReportIsExact | crates/gregg-protocol/src/validate_v2.rs:298-367 | every defect of a list of drives is reported once under its own index and field, in order, and nothing else |
| Drives.NormalizedPassesValidator | crates/gregg-protocol/src/validate_v2.rs:298-367 | under the default limits the validator can report only duplicate trimmed names on a normalized list, and does so exactly when two coincide |
| LexicalPath.NormalizeLexically | crates/gregg-update/src/stage.rs:142-169 | the loop computes the specified normal form |
| LexicalPath.NormalizationPreservesMeaning | crates/gregg-update/src/stage.rs:136-169 | from every working directory the normal form leads where the path does |
| LexicalPath.NormalizationIsCanonical | crates/gregg-update/src/stage.rs:136-169 | two paths normalize equally if and only if they lead to the same place from every working directory |
| LexicalPath.AbsolutePathsCanonical | crates/gregg-update/src/stage.rs:149-161 | for absolute paths one working directory decides |
| LexicalPath.NormalizationIsIdempotent | crates/gregg-update/src/stage.rs:142-169 | normalizing again changes nothing |
| LexicalPath.OnlyLeadingParents | crates/gregg-update/src/stage.rs:149-168 | parent components stay only as a leading run of a relative path, and the current directory only as the whole path |
| LexicalPath.SameFormIffSamePlace | crates/gregg-update/src/uninstall.rs:47-57 | two paths get the same absolute form if and only if they lead to the same place from the working directory |
| ShellQuote.QuoteRoundTrip | crates/gregg-update/src/stage.rs:34-36 | a POSIX shell reads the quoted form of any path as that path, one word |
| ShellQuote.HintReadsBack | crates/gregg-update/src/stage.rs:46-58 | the hint is read as `sudo`, the path as one word whatever it contains, then the operation's words |
| ShellQuote.OperationWords | crates/gregg-update/src/stage.rs:41-44 | the operations passed are read as their verbs and flags |
| Version.AcceptsExactlyPrints | crates/gregg-update/src/version.rs:10-31 | the accepted strings are exactly the canonical prints of three 64-bit numbers, and parsing undoes printing |
| Version.CompareIsTotalOrder | crates/gregg-update/src/version.rs:36-40 | a total order on accepted strings in which only identical strings are equal |
| Version.AvailableIffNewer | crates/gregg-update/src/lib.rs:148-168 | an update is offered if and only if the latest version is strictly greater |
| Version.PlanIsExact | crates/gregg-update/src/lib.rs:148-168 | for any two strings: an update is offered if and only if both are versions and the latest is newer, and an error is given if and only if one is not a version |
| Health.SanitizeHealthMessage | crates/gregg-protocol/src/health.rs:77-87 | the boundary search returns the bytes of the longest whole-character prefix of the cleaned text within 512 bytes |
| Health.ClampIsTight | crates/gregg-protocol/src/health.rs:71-87 | that prefix is unique, and fewer than four bytes are lost to the boundary |
| Health.ClampIsIdempotent | crates/gregg-protocol/src/health.rs:77-87 | clamping again changes nothing |
| Health.BoundaryIff | crates/gregg-protocol/src/health.rs:82-86 | character boundaries of the UTF-8 form are exactly the ends of whole-character prefixes |
| Health.DecodeEncoded | crates/gregg-protocol/src/health.rs:77-87 | the bytes of a character, section 3 of RFC 3629, stand for that character |
| Utf8Order.ByteOrderIsCharacterOrder | crates/gregg/src/cron.rs:640-651 | comparing strings by their UTF-8 bytes is comparing them by their characters |
| Health.AcceptedIff | crates/gregg-protocol/src/health.rs:142-204 | the ordered envelope checks accept exactly the coherent envelopes |
| Health.RejectedBecause | crates/gregg-protocol/src/health.rs:142-204 | the reason given is the first that applies, in the order version, snapshot, category, message |
| Health.WarmingWithMessage | crates/gregg-protocol/src/health.rs:257-272 | a warming envelope carries the clamped message and is accepted back |
| Health.MakeFailed | crates/gregg-protocol/src/health.rs:299-314 | a failed envelope carries the clamped message and is accepted back if and only if its category is not the warming one |
| Health.TryWarmingWithMessage | crates/gregg-protocol/src/health.rs:279-292 | the strict constructor refuses exactly the messages the receiver would refuse |
| Health.TryFailed | crates/gregg-protocol/src/health.rs:321-336 | the strict constructor refuses exactly the invalid messages, and still builds for the warming category an envelope the receiver refuses |

## Left out

- Threads, clocks and channels of the standard library: channel operations, timeouts, panics and drops are nondeterministic steps, and nothing is said about time passing.
- Direct use of `CronSystemState::apply_history` through `system_mut`: it bypasses the counter, so runs are over the cache's own operations plus failure and unsupported marks.
- Summary rows: only the job name is modelled, because the cache reads nothing else of them; `rendered_state` and the daemon's publication decision are not modelled.
- The summary validator and the 64 KiB summary cap: names and schedules are bounded there in raw bytes, so acceptance does not imply that cap.
- serde: serialization is the field order, omitted options and escapes the derive attributes fix; the readers here are references to state the round trip, not models of serde's deserializers.
- `from_utf8_lossy` and `to_string_lossy`: their results are arbitrary strings.
- `PathBuf` and `Path::components`: paths are lists of Unix components; Windows prefixes and the Windows hint are not modelled.
- `sort_by`: the standard library's stable sort is modelled by a stable insertion sort.
- Violation fields: a JSON path is a structured value, not its dotted text.
- SchedulerText.TruncateToEscapedBudget: positions count characters, not bytes; the kept text is the same.
- The rest of the v2 payload validator, the process, file and network code of the updater, the terminal interface and configuration.
