/** The fleet-wide cache on values: its operations, and what every run of them keeps. */
module CronFleet {
  import opened Basics
  import opened SchedulerWire
  import opened CronModel
  import opened CronMerge
  import opened CronEviction

  type Systems = map<string, SystemView>

  datatype CacheView = CacheView(perJob: nat, totalCap: nat, total: nat, systems: Systems)

  ghost function ShelfKeys(systems: Systems): set<JobKey> {
    set id, name | id in systems && name in systems[id].jobs :: JobKey(id, name)
  }

  /** All retained records, keyed by system and job. */
  ghost function ShelfOf(systems: Systems): Shelf {
    map k | k in ShelfKeys(systems) :: systems[k.system].jobs[k.job]
  }

  lemma ShelfKeysOf(systems: Systems)
    ensures ShelfOf(systems).Keys == ShelfKeys(systems)
  {
  }

  /** One system's jobs with the lists `shelf` has for them. */
  ghost function JobsFrom(id: string, jobs: JobMap, shelf: Shelf): JobMap {
    map name | name in jobs :: if JobKey(id, name) in shelf then shelf[JobKey(id, name)] else jobs[name]
  }

  /** `systems` with every job's list replaced by the one on `shelf`. */
  ghost function WithShelf(systems: Systems, shelf: Shelf): Systems {
    map id | id in systems :: systems[id].(jobs := JobsFrom(id, systems[id].jobs, shelf))
  }

  lemma PutThenRead(systems: Systems, shelf: Shelf)
    requires shelf.Keys == ShelfKeys(systems)
    ensures ShelfOf(WithShelf(systems, shelf)) == shelf
  {
    var put := WithShelf(systems, shelf);
    assert ShelfKeys(put) == ShelfKeys(systems);
    forall k | k in shelf ensures ShelfOf(put)[k] == shelf[k] {
      assert k in ShelfKeys(put);
    }
  }

  lemma ReadOneBack(systems: Systems, id: string)
    requires id in systems
    ensures JobsFrom(id, systems[id].jobs, ShelfOf(systems)) == systems[id].jobs
  {
    forall name | name in systems[id].jobs ensures JobKey(id, name) in ShelfKeys(systems) {
    }
  }

  lemma ReadThenPut(systems: Systems)
    ensures WithShelf(systems, ShelfOf(systems)) == systems
  {
    forall id | id in systems ensures JobsFrom(id, systems[id].jobs, ShelfOf(systems)) == systems[id].jobs {
      ReadOneBack(systems, id);
    }
  }

  function SystemOr(systems: Systems, id: string): SystemView {
    if id in systems then systems[id] else UnknownSystem
  }

  /** Taking the head off one job is taking it off that job's entry on the shelf. */
  lemma EvictFromSystem(systems: Systems, shelf: Shelf, k: JobKey)
    requires shelf.Keys == ShelfKeys(systems) && k in shelf && shelf[k] != []
    ensures var put := WithShelf(systems, shelf);
            && k.system in put && k.job in put[k.system].jobs
            && put[k.system].jobs[k.job] == shelf[k]
            && put[k.system := put[k.system].(jobs := put[k.system].jobs[k.job := shelf[k][1..]])]
               == WithShelf(systems, shelf[k := shelf[k][1..]])
  {
    var less := shelf[k := shelf[k][1..]];
    forall id | id in systems
      ensures JobsFrom(id, systems[id].jobs, less) ==
                var jobs := JobsFrom(id, systems[id].jobs, shelf);
                if id == k.system then jobs[k.job := shelf[k][1..]] else jobs
    {
    }
  }

  // ---- operations ----

  function Clamp(x: nat, low: nat, high: nat): nat
    requires low <= high
  {
    if x < low then low else if x > high then high else x
  }

  function New(perJob: nat, totalCap: nat): CacheView {
    CacheView(Clamp(perJob, 1, MAX_CACHE_HISTORY), Clamp(totalCap, 1, MAX_TOTAL_CRON_RECORDS), 0, map[])
  }

  /** `x` is the bound within the limits that is nearest to the one asked for. */
  ghost predicate Nearest(x: nat, low: nat, high: nat, asked: nat) {
    low <= x <= high && (x == asked || (asked < low && x == low) || (asked > high && x == high))
  }

  lemma NewBounds(perJob: nat, totalCap: nat)
    ensures Nearest(New(perJob, totalCap).perJob, 1, 50, perJob)
    ensures Nearest(New(perJob, totalCap).totalCap, 1, 4096, totalCap)
  {
  }

  datatype Op =
    | ApplySummary(id: string, summary: Summary, now: u64)
    | ApplyHistory(id: string, history: History)
    | MarkFailed(id: string, error: FetchError, now: u64)
    | MarkUnsupported(id: string)
    | ResetSystem(id: string)
    | RetainSystems(live: seq<string>)

  ghost function Merged(c: CacheView, id: string, history: History): Systems {
    c.systems[id := HistoryApplied(SystemOr(c.systems, id), history, c.perJob)]
  }

  ghost function EnforcedSystems(systems: Systems, cap: nat): Systems {
    WithShelf(systems, Enforced(ShelfOf(systems), cap))
  }

  ghost function Recounted(c: CacheView, systems: Systems): CacheView {
    c.(systems := systems, total := Count(ShelfOf(systems)))
  }

  function Retained(systems: Systems, live: seq<string>): Systems {
    map id | id in systems && id in live :: systems[id]
  }

  ghost function Step(c: CacheView, op: Op): CacheView {
    match op
    case ApplySummary(id, summary, now) =>
      c.(systems := c.systems[id := SummaryApplied(SystemOr(c.systems, id), summary, now)])
    case ApplyHistory(id, history) =>
      Recounted(c, EnforcedSystems(Merged(c, id, history), c.totalCap))
    case MarkFailed(id, error, now) =>
      c.(systems := c.systems[id := MarkedFailed(SystemOr(c.systems, id), error, now)])
    case MarkUnsupported(id) =>
      c.(systems := c.systems[id := MarkedUnsupported(SystemOr(c.systems, id))])
    case ResetSystem(id) =>
      if id in c.systems then Recounted(c, c.systems - {id}) else c
    case RetainSystems(live) =>
      Recounted(c, Retained(c.systems, live))
  }

  ghost function Run(c: CacheView, ops: seq<Op>): CacheView {
    if ops == [] then c else Step(Run(c, ops[..|ops| - 1]), ops[|ops| - 1])
  }

  // ---- what they keep ----

  ghost predicate Healthy(c: CacheView) {
    && 1 <= c.perJob <= MAX_CACHE_HISTORY
    && 1 <= c.totalCap <= MAX_TOTAL_CRON_RECORDS
    && c.total == Count(ShelfOf(c.systems)) <= c.totalCap
    && forall id :: id in c.systems ==> Bounded(c.systems[id].jobs, c.perJob)
  }

  /** A shelf that is part of another holds no more records. */
  lemma {:induction false} CountPart(part: Shelf, keys: set<JobKey>, whole: Shelf, more: set<JobKey>)
    requires keys <= more && keys <= part.Keys && more <= whole.Keys
    requires forall k :: k in keys ==> part[k] == whole[k]
    ensures CountIn(part, keys) <= CountIn(whole, more)
    decreases more
  {
    if more != {} {
      var k :| k in more;
      CountTake(whole, more, k);
      if k in keys {
        CountTake(part, keys, k);
      } else {
        assert keys == keys - {k};
      }
      CountPart(part, keys - {k}, whole, more - {k});
    }
  }

  lemma DroppingSystems(before: Systems, after: Systems)
    requires forall id :: id in after ==> id in before && after[id] == before[id]
    ensures Count(ShelfOf(after)) <= Count(ShelfOf(before))
  {
    CountPart(ShelfOf(after), ShelfOf(after).Keys, ShelfOf(before), ShelfOf(before).Keys);
  }

  /** Changing anything about a system but its jobs leaves every retained record where it is. */
  lemma TouchingSystem(before: Systems, id: string, s: SystemView)
    requires s.jobs == SystemOr(before, id).jobs
    ensures ShelfOf(before[id := s]) == ShelfOf(before)
  {
    var after := before[id := s];
    forall k ensures k in ShelfKeys(after) <==> k in ShelfKeys(before) {
    }
  }

  lemma SuffixDistinct(tail: seq<CronRecord>, whole: seq<CronRecord>)
    requires IsSuffix(tail, whole) && Distinct(whole)
    ensures Distinct(tail)
  {
    assert forall i :: 0 <= i < |tail| ==> tail[i] == whole[|whole| - |tail| + i];
  }

  lemma CutBounded(systems: Systems, shelf: Shelf, perJob: nat, id: string)
    requires CutOf(shelf, ShelfOf(systems)) && id in systems && Bounded(systems[id].jobs, perJob)
    ensures Bounded(WithShelf(systems, shelf)[id].jobs, perJob)
  {
    var jobs := WithShelf(systems, shelf)[id].jobs;
    forall name | name in jobs ensures |jobs[name]| <= perJob && Distinct(jobs[name]) {
      var k := JobKey(id, name);
      assert k in ShelfKeys(systems);
      assert IsSuffix(shelf[k], ShelfOf(systems)[k]);
      SuffixDistinct(shelf[k], systems[id].jobs[name]);
    }
  }

  lemma EnforcedSystemsBounded(systems: Systems, cap: nat, perJob: nat)
    requires forall id :: id in systems ==> Bounded(systems[id].jobs, perJob)
    ensures var after := EnforcedSystems(systems, cap);
            && Count(ShelfOf(after)) == (if Count(ShelfOf(systems)) > cap then cap else Count(ShelfOf(systems)))
            && forall id :: id in after ==> Bounded(after[id].jobs, perJob)
  {
    var shelf := Enforced(ShelfOf(systems), cap);
    EnforcedRemovesExcess(ShelfOf(systems), cap);
    PutThenRead(systems, shelf);
    forall id | id in systems ensures Bounded(WithShelf(systems, shelf)[id].jobs, perJob) {
      CutBounded(systems, shelf, perJob, id);
    }
  }

  lemma EmptyBounded(perJob: nat)
    ensures Bounded(map[], perJob)
  {
  }

  lemma ApplyHistoryHealthy(c: CacheView, id: string, history: History)
    requires Healthy(c)
    ensures Healthy(Step(c, ApplyHistory(id, history)))
  {
    hide HistoryApplied, EnforcedSystems, Count, Bounded;
    assert Bounded(SystemOr(c.systems, id).jobs, c.perJob) by { EmptyBounded(c.perJob); }
    HistoryAppliedBounded(SystemOr(c.systems, id), history, c.perJob);
    EnforcedSystemsBounded(Merged(c, id, history), c.totalCap, c.perJob);
  }

  lemma StepHealthy(c: CacheView, op: Op)
    requires Healthy(c)
    ensures Healthy(Step(c, op))
    ensures Step(c, op).perJob == c.perJob && Step(c, op).totalCap == c.totalCap
  {
    match op
    case ApplySummary(id, summary, now) =>
      TouchingSystem(c.systems, id, SummaryApplied(SystemOr(c.systems, id), summary, now));
    case ApplyHistory(id, history) =>
      ApplyHistoryHealthy(c, id, history);
    case MarkFailed(id, error, now) =>
      TouchingSystem(c.systems, id, MarkedFailed(SystemOr(c.systems, id), error, now));
    case MarkUnsupported(id) =>
      TouchingSystem(c.systems, id, MarkedUnsupported(SystemOr(c.systems, id)));
    case ResetSystem(id) =>
      if id in c.systems { DroppingSystems(c.systems, Step(c, op).systems); }
    case RetainSystems(live) =>
      DroppingSystems(c.systems, Step(c, op).systems);
  }

  /**
   * Over every run of the cache's operations, for every configured depth and ceiling: the counter is the
   * true number of retained records and never exceeds the ceiling, and every job holds at most `perJob`
   * records with pairwise distinct identities.
   */
  lemma {:induction false} EveryRunHealthy(perJob: nat, totalCap: nat, ops: seq<Op>)
    ensures Healthy(Run(New(perJob, totalCap), ops))
  {
    if ops == [] {
      assert ShelfKeys(map[]) == {};
      CountEmpty(ShelfOf(map[]), {});
    } else {
      EveryRunHealthy(perJob, totalCap, ops[..|ops| - 1]);
      StepHealthy(Run(New(perJob, totalCap), ops[..|ops| - 1]), ops[|ops| - 1]);
    }
  }

  /** With a known summary, applying a document leaves only listed jobs of that system, at most 64. */
  lemma OnlyListedJobsRemain(c: CacheView, id: string, history: History)
    requires SystemOr(c.systems, id).summary.Some?
    ensures var after := Step(c, ApplyHistory(id, history)).systems;
            && id in after
            && |after[id].jobs| <= 64
            && forall name :: name in after[id].jobs ==> Listed(SystemOr(c.systems, id).summary.value, name)
  {
    hide Enforced, Count;
    var s := SystemOr(c.systems, id);
    var merged := Merged(c, id, history);
    EvictStaleBounds(MergeJobs(s.jobs, history.epoch, history.jobs, c.perJob), s.summary.value);
    var jobs := JobsFrom(id, merged[id].jobs, Enforced(ShelfOf(merged), c.totalCap));
    assert jobs.Keys == merged[id].jobs.Keys;
    assert |jobs| == |jobs.Keys|;
  }

  /** What a document makes the cache evict is older than everything kept, and no more than the excess. */
  lemma AppliedDocumentEvictsOldestFirst(c: CacheView, id: string, history: History)
    requires InFinishOrder(ShelfOf(Merged(c, id, history)))
    ensures var merged := ShelfOf(Merged(c, id, history));
            var after := ShelfOf(Step(c, ApplyHistory(id, history)).systems);
            && CutOf(after, merged) && OldestFirst(merged, after)
            && Count(after) == if Count(merged) > c.totalCap then c.totalCap else Count(merged)
  {
    hide HistoryApplied, WithShelf, Count, InFinishOrder, OldestFirst, CutOf, Enforced;
    var systems := Merged(c, id, history);
    var merged := ShelfOf(systems);
    EnforcedRemovesExcess(merged, c.totalCap);
    OldestFirstIffSorted(merged);
    EnforcedKeys(merged, c.totalCap);
    ShelfKeysOf(systems);
    PutThenRead(systems, Enforced(merged, c.totalCap));
  }

  lemma EnforcedKeys(shelf: Shelf, cap: nat)
    ensures Enforced(shelf, cap).Keys == shelf.Keys
  {
    EnforcedRemovesExcess(shelf, cap);
  }
}
