/** The cron cache as the client daemon holds it: objects updated in place. */
module CronState {
  import opened Basics
  import opened SchedulerWire
  import opened StringOrder
  import opened CronModel
  import opened CronMerge
  import opened CronEviction
  import opened CronFleet
  import Utf8

  class CronSystemState {
    var capability: Capability
    var summary: Option<Summary>
    var epoch: Option<Epoch>
    var historyRevision: Option<u64>
    var lastAttempt: Option<u64>
    var lastSuccess: Option<u64>
    var lastError: Option<FetchError>
    var jobs: JobMap

    function View(): SystemView
      reads this
    {
      SystemView(capability, summary, epoch, historyRevision, lastAttempt, lastSuccess, lastError, jobs)
    }

    constructor ()
      ensures View() == UnknownSystem
    {
      capability := Unknown;
      summary, epoch, historyRevision := None, None, None;
      lastAttempt, lastSuccess, lastError := None, None, None;
      jobs := map[];
    }

    /** The state a map entry holds, or a new one. */
    constructor Load(held: SystemView)
      ensures View() == held
    {
      capability, summary, epoch, historyRevision := held.capability, held.summary, held.epoch, held.historyRevision;
      lastAttempt, lastSuccess, lastError, jobs := held.lastAttempt, held.lastSuccess, held.lastError, held.jobs;
    }

    method ApplySummary(s: Summary, now: u64)
      modifies this
      ensures View() == SummaryApplied(old(View()), s, now)
    {
      capability := Supported;
      lastAttempt := Some(now);
      lastSuccess := Some(now);
      lastError := None;
      summary := Some(s);
    }

    method MarkUnsupported()
      modifies this
      ensures View() == MarkedUnsupported(old(View()))
    {
      capability := Unsupported;
      lastError := None;
      summary := None;
    }

    method MarkFailed(error: FetchError, now: u64)
      modifies this
      ensures View() == MarkedFailed(old(View()), error, now)
    {
      lastError := Some(error);
      lastAttempt := Some(now);
    }

    method NeedsHistory(s: Summary) returns (needed: bool)
      ensures needed <==> CronModel.NeedsHistory(View(), s)
    {
      if capability != Supported { return true; }
      if historyRevision != Some(s.historyRevision) { return true; }
      return epoch != Some(s.epoch);
    }

    /** Push the records of one ring that are not retained yet. */
    static method PushNew(held: seq<CronRecord>, epoch: Epoch, ring: seq<RunRecord>)
      returns (records: seq<CronRecord>, pushed: bool)
      ensures records == Merge(held, epoch, ring)
      ensures pushed <==> !RingRetained(held, epoch, ring)
    {
      records, pushed := held, false;
      for r := 0 to |ring|
        invariant records == Merge(held, epoch, ring[..r])
        invariant pushed <==> !RingRetained(held, epoch, ring[..r])
      {
        var candidate := CronRecord(epoch, ring[r]);
        RetainedPrefix(held, epoch, ring[..r], ring[r]);
        assert ring[..r + 1][..r] == ring[..r];
        assert ring[..r + 1] == ring[..r] + [ring[r]];
        if Contains(records, candidate.Identity()) {
          continue;
        }
        records := records + [candidate];
        pushed := true;
      }
      assert ring[..|ring|] == ring;
    }

    /** Merge one job's ring, then drop from the front what exceeds the depth. */
    method MergeEntry(entry: JobHistory, source: Epoch, perJob: nat) returns (pushed: bool)
      modifies this`jobs
      ensures jobs == MergeJob(old(jobs), source, entry, perJob)
      ensures pushed <==> AcceptedName(entry.name) && !RingRetained(JobRecords(old(jobs), entry.name), source, entry.records)
    {
      if entry.name == "" || Utf8.Len(entry.name) > MAX_JOB_NAME_BYTES {
        return false;
      }
      var records;
      records, pushed := PushNew(JobRecords(jobs, entry.name), source, entry.records);
      if |records| > perJob {
        var excess := |records| - perJob;
        records := records[excess..];
      }
      jobs := jobs[entry.name := records];
    }

    /** Merge a document; `added` tells whether it carried a record that was not retained. */
    method ApplyHistory(history: History, perJob: nat) returns (added: bool)
      modifies this
      ensures View() == HistoryApplied(old(View()), history, perJob)
      ensures Bounded(old(jobs), perJob) ==> (added <==> !AllRetained(old(jobs), history.epoch, history.jobs))
    {
      hide MergeJob, AllRetained, RingRetained, EvictStale, Bounded, AcceptedName, JobRecords;
      NothingToRetain(jobs, history.epoch);
      epoch := Some(history.epoch);
      historyRevision := Some(history.historyRevision);
      added := false;
      ghost var before := old(jobs);
      for e := 0 to |history.jobs|
        invariant View() == old(View()).(epoch := Some(history.epoch),
                                         historyRevision := Some(history.historyRevision), jobs := jobs)
        invariant jobs == MergeJobs(before, history.epoch, history.jobs[..e], perJob)
        invariant Bounded(before, perJob) ==> (added <==> !AllRetained(before, history.epoch, history.jobs[..e]))
      {
        assert history.jobs[..e + 1][..e] == history.jobs[..e];
        RetainedOneMore(before, history.epoch, history.jobs[..e], history.jobs[e], perJob);
        assert history.jobs[..e + 1] == history.jobs[..e] + [history.jobs[e]];
        var pushed := MergeEntry(history.jobs[e], history.epoch, perJob);
        added := added || pushed;
      }
      assert history.jobs[..|history.jobs|] == history.jobs;
      EvictStaleJobs();
    }

    method EvictStaleJobs()
      modifies this`jobs
      ensures jobs == EvictStale(old(jobs), summary)
    {
      if summary.None? {
        return;
      }
      var live := set row | row in summary.value.jobs :: row.name;
      var allLive := forall name :: name in jobs ==> name in live;
      LiveJobsBySet(jobs, summary.value, live);
      if !allLive {
        jobs := map name | name in jobs && name in live :: jobs[name];
      }
      DropToCeiling();
    }

    /** Remove the alphabetically first job while there are too many. */
    method DropToCeiling()
      modifies this`jobs
      ensures jobs == CronModel.DropToCeiling(old(jobs))
    {
      while |jobs| > MAX_CRON_JOBS_PER_SYSTEM
        invariant CronModel.DropToCeiling(jobs) == CronModel.DropToCeiling(old(jobs))
        decreases |jobs|
      {
        LeastExists(jobs.Keys);
        var key :| key in jobs.Keys && forall other :: other in jobs.Keys ==> AtMost(key, other);
        LeastUnique(key, LeastKey(jobs), jobs.Keys);
        assert (jobs - {key}).Keys == jobs.Keys - {key};
        assert |jobs.Keys - {key}| == |jobs.Keys| - 1;
        jobs := jobs - {key};
      }
    }

    /** The newest `depth` records of one job, oldest first. */
    function Recent(name: string, depth: nat): (r: seq<CronRecord>)
      reads this
      ensures r == Newest(JobRecords(jobs, name), depth)
    {
      var records := JobRecords(jobs, name);
      if depth >= |records| then records else records[|records| - depth..]
    }
  }

  /**
   * The cache owns its per-system states by value. Borrowing one mutably is loading the entry,
   * updating it, and storing it back.
   */
  class CronCache {
    const perJob: nat
    const totalCap: nat
    var total: nat
    var systems: map<string, SystemView>

    ghost function View(): CacheView
      reads this
    {
      CacheView(perJob, totalCap, total, systems)
    }

    ghost predicate Valid()
      reads this
    {
      Healthy(View())
    }

    constructor (depth: nat, cap: nat)
      ensures Valid()
      ensures View() == New(depth, cap)
    {
      perJob := Clamp(depth, 1, MAX_CACHE_HISTORY);
      totalCap := Clamp(cap, 1, MAX_TOTAL_CRON_RECORDS);
      total := 0;
      systems := map[];
      new;
      EveryRunHealthy(depth, cap, []);
    }

    method SystemMut(id: string) returns (s: CronSystemState)
      ensures fresh(s) && s.View() == SystemOr(systems, id)
    {
      if id in systems {
        s := new CronSystemState.Load(systems[id]);
      } else {
        s := new CronSystemState();
      }
    }

    method ApplySummary(id: string, summary: Summary, now: u64)
      requires Valid()
      modifies this
      ensures Valid()
      ensures View() == Step(old(View()), Op.ApplySummary(id, summary, now))
    {
      hide Healthy;
      StepHealthy(View(), Op.ApplySummary(id, summary, now));
      var s := SystemMut(id);
      s.ApplySummary(summary, now);
      systems := systems[id := s.View()];
    }

    method MarkFailed(id: string, error: FetchError, now: u64)
      requires Valid()
      modifies this
      ensures Valid()
      ensures View() == Step(old(View()), Op.MarkFailed(id, error, now))
    {
      hide Healthy;
      StepHealthy(View(), Op.MarkFailed(id, error, now));
      var s := SystemMut(id);
      s.MarkFailed(error, now);
      systems := systems[id := s.View()];
    }

    method MarkUnsupported(id: string)
      requires Valid()
      modifies this
      ensures Valid()
      ensures View() == Step(old(View()), Op.MarkUnsupported(id))
    {
      hide Healthy;
      StepHealthy(View(), Op.MarkUnsupported(id));
      var s := SystemMut(id);
      s.MarkUnsupported();
      systems := systems[id := s.View()];
    }

    method ResetSystem(id: string) returns (removed: bool)
      requires Valid()
      modifies this
      ensures Valid()
      ensures View() == Step(old(View()), Op.ResetSystem(id))
      ensures removed <==> id in old(systems)
    {
      hide Healthy;
      StepHealthy(View(), Op.ResetSystem(id));
      removed := id in systems;
      if removed {
        systems := systems - {id};
        Recount();
      }
    }

    method RetainSystems(live: seq<string>)
      requires Valid()
      modifies this
      ensures Valid()
      ensures View() == Step(old(View()), Op.RetainSystems(live))
    {
      hide Healthy;
      StepHealthy(View(), Op.RetainSystems(live));
      systems := Retained(systems, live);
      Recount();
    }

    /** Merge a document for one system, recount, then enforce the global ceiling. */
    method ApplyHistory(id: string, history: History) returns (added: bool)
      requires Valid()
      modifies this
      ensures Valid()
      ensures View() == Step(old(View()), Op.ApplyHistory(id, history))
      ensures added <==> !AllRetained(SystemOr(old(systems), id).jobs, history.epoch, history.jobs)
    {
      ghost var before := View();
      ghost var merged := Merged(before, id, history);
      assert Bounded(SystemOr(systems, id).jobs, perJob);
      added := MergeHistory(id, history);
      Recount();
      EnforceTotal();
      assert View() == Recounted(before, EnforcedSystems(merged, totalCap));
      ApplyHistoryHealthy(before, id, history);
    }

    method MergeHistory(id: string, history: History) returns (added: bool)
      modifies this`systems
      ensures systems == Merged(old(View()), id, history)
      ensures Bounded(SystemOr(old(systems), id).jobs, perJob) ==>
                (added <==> !AllRetained(SystemOr(old(systems), id).jobs, history.epoch, history.jobs))
    {
      var s := SystemMut(id);
      added := s.ApplyHistory(history, perJob);
      systems := systems[id := s.View()];
    }

    /** Recount retained records from scratch. */
    method Recount()
      modifies this`total
      ensures total == Count(ShelfOf(systems))
    {
      ghost var shelf := ShelfOf(systems);
      var todo := set id, name | id in systems && name in systems[id].jobs :: JobKey(id, name);
      assert todo == shelf.Keys;
      var sum := 0;
      while todo != {}
        invariant todo <= shelf.Keys
        invariant Count(shelf) == sum + CountIn(shelf, todo)
        decreases todo
      {
        var k :| k in todo;
        CountTake(shelf, todo, k);
        sum := sum + |systems[k.system].jobs[k.job]|;
        todo := todo - {k};
      }
      total := sum;
    }

    /** The key of the record eviction would drop next, whichever order the maps are walked in. */
    method FindOldest() returns (best: Option<OldestRecord>)
      ensures best.None? <==> Count(ShelfOf(systems)) == 0
      ensures best.Some? ==>
        var shelf, k := ShelfOf(systems), JobKey(best.value.system, best.value.job);
        IsVictim(shelf, k) && best.value == KeyOf(k, shelf[k][0])
    {
      ghost var shelf := ShelfOf(systems);
      ghost var seen: set<JobKey> := {};
      best := None;
      var ids := systems.Keys;
      while ids != {}
        invariant ids <= systems.Keys
        invariant forall k :: k in shelf && k.system !in ids ==> k in seen
        invariant BestSoFar(shelf, seen, best)
        decreases ids
      {
        var id :| id in ids;
        var names := systems[id].jobs.Keys;
        while names != {}
          invariant names <= systems[id].jobs.Keys
          invariant forall k :: k in shelf && k.system !in ids ==> k in seen
          invariant forall name :: name in systems[id].jobs && name !in names ==> JobKey(id, name) in seen
          invariant BestSoFar(shelf, seen, best)
          decreases names
        {
          var name :| name in names;
          var records := systems[id].jobs[name];
          ghost var k := JobKey(id, name);
          assert k in shelf && shelf[k] == records;
          BestGrows(shelf, seen, best, k);
          names, seen := names - {name}, seen + {k};
          if records == [] {
            continue;
          }
          var candidate := OldestRecord(records[0].record.finished, id, name);
          best := if best.Some? && Before(best.value, candidate) then best else Some(candidate);
        }
        ids := ids - {id};
      }
      BestOfAll(shelf, seen, best);
    }

    /** Drop oldest-first until the global ceiling is satisfied. */
    method EnforceTotal()
      requires total == Count(ShelfOf(systems))
      modifies this
      ensures systems == EnforcedSystems(old(systems), totalCap)
      ensures total == Count(ShelfOf(systems))
    {
      hide Count, Enforced, ShelfOf, ShelfKeys, WithShelf, Before, KeyOf;
      ghost var shelf := ShelfOf(systems);
      ReadThenPut(systems);
      ShelfKeysOf(systems);
      while total > totalCap
        invariant shelf.Keys == ShelfKeys(old(systems))
        invariant systems == WithShelf(old(systems), shelf) && total == Count(shelf)
        invariant Enforced(shelf, totalCap) == Enforced(ShelfOf(old(systems)), totalCap)
        decreases total
      {
        PutThenRead(old(systems), shelf);
        var victim := FindOldest();
        match victim {
          case None =>
            // The counter and the contents never disagree.
            assert false;
          case Some(v) =>
            ghost var k := JobKey(v.system, v.job);
            VictimUnique(shelf, k, Victim(shelf));
            EnforcedStep(shelf, totalCap);
            EvictFromSystem(old(systems), shelf, k);
            var s := systems[v.system];
            systems := systems[v.system := s.(jobs := s.jobs[v.job := s.jobs[v.job][1..]])];
            total := total - 1;
            shelf := EvictOne(shelf);
        }
      }
      PutThenRead(old(systems), shelf);
      EnforcedStep(shelf, totalCap);
    }
  }

  ghost predicate BestSoFar(shelf: Shelf, seen: set<JobKey>, best: Option<OldestRecord>) {
    match best
    case None => forall k :: k in seen && k in shelf ==> shelf[k] == []
    case Some(b) =>
      var k := JobKey(b.system, b.job);
      LeastHead(shelf, seen, k) && b == KeyOf(k, shelf[k][0])
  }

  lemma BestGrows(shelf: Shelf, seen: set<JobKey>, best: Option<OldestRecord>, k: JobKey)
    requires BestSoFar(shelf, seen, best) && k in shelf
    ensures shelf[k] == [] ==> BestSoFar(shelf, seen + {k}, best)
    ensures shelf[k] != [] ==>
      BestSoFar(shelf, seen + {k}, if best.Some? && Before(best.value, KeyOf(k, shelf[k][0])) then best else Some(KeyOf(k, shelf[k][0])))
  {
    if best.Some? {
      LeastHeadGrow(shelf, seen, JobKey(best.value.system, best.value.job), k);
    } else if shelf[k] != [] {
      BeforeIsTotalOrder(KeyOf(k, shelf[k][0]), KeyOf(k, shelf[k][0]), KeyOf(k, shelf[k][0]));
    }
  }

  lemma BestOfAll(shelf: Shelf, seen: set<JobKey>, best: Option<OldestRecord>)
    requires BestSoFar(shelf, seen, best) && forall k :: k in shelf ==> k in seen
    ensures best.None? <==> Count(shelf) == 0
    ensures best.Some? ==> IsVictim(shelf, JobKey(best.value.system, best.value.job))
  {
    match best
    case None => CountEmpty(shelf, shelf.Keys);
    case Some(b) => CountTake(shelf, shelf.Keys, JobKey(b.system, b.job));
  }

  lemma LiveJobsBySet(jobs: JobMap, summary: Summary, live: set<string>)
    requires live == set row | row in summary.jobs :: row.name
    ensures LiveJobs(jobs, summary) == map name | name in jobs && name in live :: jobs[name]
    ensures (forall name :: name in jobs ==> name in live) ==> LiveJobs(jobs, summary) == jobs
  {
    forall name ensures name in live <==> Lists(summary, name) {
      if Lists(summary, name) { assert JobRow(name).name in live; }
    }
  }

  lemma NothingToRetain(jobs: JobMap, epoch: Epoch)
    ensures AllRetained(jobs, epoch, [])
  {
  }

  /** Whether one more job entry leaves the document fully retained. */
  lemma RetainedOneMore(jobs: JobMap, epoch: Epoch, entries: seq<JobHistory>, last: JobHistory, perJob: nat)
    ensures AllRetained(jobs, epoch, entries + [last]) <==>
              AllRetained(jobs, epoch, entries) &&
              (AcceptedName(last.name) ==> RingRetained(JobRecords(jobs, last.name), epoch, last.records))
    ensures Bounded(jobs, perJob) && AllRetained(jobs, epoch, entries) ==>
              JobRecords(MergeJobs(jobs, epoch, entries, perJob), last.name) == JobRecords(jobs, last.name)
  {
    var all := entries + [last];
    assert all[|entries|] == last && forall e :: 0 <= e < |entries| ==> all[e] == entries[e];
    if Bounded(jobs, perJob) && AllRetained(jobs, epoch, entries) {
      MergeJobsRetained(jobs, epoch, entries, perJob, last.name);
    }
  }

  lemma RetainedPrefix(records: seq<CronRecord>, epoch: Epoch, ring: seq<RunRecord>, last: RunRecord)
    ensures RingRetained(records, epoch, ring + [last]) <==>
              RingRetained(records, epoch, ring) && Contains(records, CronRecord(epoch, last).Identity())
    ensures RingRetained(records, epoch, ring) ==> Merge(records, epoch, ring) == records
  {
    var all := ring + [last];
    assert all[|ring|] == last && forall e :: 0 <= e < |ring| ==> all[e] == ring[e];
    if RingRetained(records, epoch, ring) { MergeKnown(records, epoch, ring); }
  }
}
