/**
 * What the cron cache holds, and what each of its operations does to it, on values.
 * The classes in `CronState` are proved against these functions.
 */
module CronModel {
  import opened Basics
  import opened SchedulerWire
  import opened StringOrder
  import Utf8

  const MAX_CRON_JOBS_PER_SYSTEM := 64
  const MAX_CACHE_HISTORY := 50
  const MAX_TOTAL_CRON_RECORDS := 4096

  datatype Capability = Unknown | Unsupported | Supported

  datatype FetchError =
    | Transport(message: string)
    | BodyTooLarge
    | Invalid(message: string)
    | Incoherent(message: string)

  datatype RecordId = RecordId(startedAt: u64, nonce: u64, sequence: u64)

  datatype CronRecord = CronRecord(epoch: Epoch, record: RunRecord) {
    function Identity(): RecordId {
      RecordId(epoch.startedAt, epoch.nonce, record.sequence)
    }
  }

  type JobMap = map<string, seq<CronRecord>>

  datatype SystemView = SystemView(
    capability: Capability,
    summary: Option<Summary>,
    epoch: Option<Epoch>,
    historyRevision: Option<u64>,
    lastAttempt: Option<u64>,
    lastSuccess: Option<u64>,
    lastError: Option<FetchError>,
    jobs: JobMap)

  const UnknownSystem := SystemView(Unknown, None, None, None, None, None, None, map[])

  // ---- merging one job's ring ----

  predicate Contains(records: seq<CronRecord>, id: RecordId) {
    exists i :: 0 <= i < |records| && records[i].Identity() == id
  }

  predicate Distinct(records: seq<CronRecord>) {
    forall i, j :: 0 <= i < j < |records| ==> records[i].Identity() != records[j].Identity()
  }

  /** Append the records of `ring` whose identity is not retained yet, in the order served. */
  function Merge(records: seq<CronRecord>, epoch: Epoch, ring: seq<RunRecord>): seq<CronRecord> {
    if ring == [] then records
    else
      var merged := Merge(records, epoch, ring[..|ring| - 1]);
      var candidate := CronRecord(epoch, ring[|ring| - 1]);
      if Contains(merged, candidate.Identity()) then merged else merged + [candidate]
  }

  function JobRecords(jobs: JobMap, name: string): seq<CronRecord> {
    if name in jobs then jobs[name] else []
  }

  predicate AcceptedName(name: string) {
    name != "" && Utf8.Len(name) <= MAX_JOB_NAME_BYTES
  }

  function MergeJob(jobs: JobMap, epoch: Epoch, entry: JobHistory, perJob: nat): JobMap {
    if AcceptedName(entry.name) then
      jobs[entry.name := Newest(Merge(JobRecords(jobs, entry.name), epoch, entry.records), perJob)]
    else jobs
  }

  function MergeJobs(jobs: JobMap, epoch: Epoch, entries: seq<JobHistory>, perJob: nat): JobMap {
    if entries == [] then jobs
    else MergeJob(MergeJobs(jobs, epoch, entries[..|entries| - 1], perJob), epoch, entries[|entries| - 1], perJob)
  }

  ghost predicate RingRetained(records: seq<CronRecord>, epoch: Epoch, ring: seq<RunRecord>) {
    forall i :: 0 <= i < |ring| ==> Contains(records, CronRecord(epoch, ring[i]).Identity())
  }

  /** Every record the document carries for an accepted name is retained under that name. */
  ghost predicate AllRetained(jobs: JobMap, epoch: Epoch, entries: seq<JobHistory>) {
    forall e :: 0 <= e < |entries| && AcceptedName(entries[e].name) ==>
      RingRetained(JobRecords(jobs, entries[e].name), epoch, entries[e].records)
  }

  // ---- bounding the jobs of one system ----

  predicate Lists(summary: Summary, name: string) {
    JobRow(name) in summary.jobs
  }

  function LiveJobs(jobs: JobMap, summary: Summary): JobMap {
    map name | name in jobs && Lists(summary, name) :: jobs[name]
  }

  ghost function LeastKey(jobs: JobMap): (name: string)
    requires jobs != map[]
    ensures IsLeast(name, jobs.Keys)
  {
    LeastExists(jobs.Keys);
    var name :| IsLeast(name, jobs.Keys);
    name
  }

  /** Remove the alphabetically first job until at most `MAX_CRON_JOBS_PER_SYSTEM` remain. */
  ghost function DropToCeiling(jobs: JobMap): JobMap
    decreases |jobs|
  {
    if |jobs| <= MAX_CRON_JOBS_PER_SYSTEM then jobs
    else
      var name := LeastKey(jobs);
      assert |jobs.Keys - {name}| == |jobs.Keys| - 1;
      assert (jobs - {name}).Keys == jobs.Keys - {name};
      DropToCeiling(jobs - {name})
  }

  ghost function EvictStale(jobs: JobMap, summary: Option<Summary>): JobMap {
    if summary.None? then jobs else DropToCeiling(LiveJobs(jobs, summary.value))
  }

  // ---- operations of one system ----

  function SummaryApplied(s: SystemView, summary: Summary, now: u64): SystemView {
    s.(capability := Supported, lastAttempt := Some(now), lastSuccess := Some(now), lastError := None,
       summary := Some(summary))
  }

  function MarkedUnsupported(s: SystemView): SystemView {
    s.(capability := Unsupported, lastError := None, summary := None)
  }

  function MarkedFailed(s: SystemView, error: FetchError, now: u64): SystemView {
    s.(lastError := Some(error), lastAttempt := Some(now))
  }

  predicate NeedsHistory(s: SystemView, summary: Summary) {
    || s.capability != Supported
    || s.historyRevision != Some(summary.historyRevision)
    || s.epoch != Some(summary.epoch)
  }

  ghost function HistoryApplied(s: SystemView, history: History, perJob: nat): SystemView {
    s.(epoch := Some(history.epoch), historyRevision := Some(history.historyRevision),
       jobs := EvictStale(MergeJobs(s.jobs, history.epoch, history.jobs, perJob), s.summary))
  }
}
