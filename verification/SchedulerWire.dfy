/** The scheduler documents a daemon serves and the constants that freeze their size. */
module SchedulerWire {
  import opened Basics

  const MAX_JOBS := 64
  const MAX_HISTORY_LIMIT := 10
  const MAX_OUTPUT_TEXT_BYTES := 512
  const MAX_JOB_NAME_BYTES := 128
  const MAX_HISTORY_BODY_BYTES := 1024 * 1024
  const SCHEMA_VERSION: u16 := 2

  /** One daemon lifetime. Two restarts in the same millisecond differ in `nonce`. */
  datatype Epoch = Epoch(startedAt: u64, nonce: u64)

  datatype Outcome = Success | Failed | SpawnFailed | WaitFailed | LoadExpired | Cancelled

  datatype Output = Output(text: string, truncated: bool)

  datatype RunRecord = RunRecord(
    sequence: u64,
    scheduled: u64,
    started: Option<u64>,
    finished: u64,
    outcome: Outcome,
    exitCode: Option<i32>,
    signal: Option<u32>,
    duration: Option<u64>,
    delay: u64,
    coalesced: bool,
    stdout: Output,
    stderr: Output)

  predicate Increasing(runs: seq<RunRecord>) {
    forall i, j :: 0 <= i < j < |runs| ==> runs[i].sequence < runs[j].sequence
  }

  datatype JobHistory = JobHistory(name: string, records: seq<RunRecord>)

  ghost predicate NamesDistinct(jobs: seq<JobHistory>) {
    forall i, j :: 0 <= i < j < |jobs| ==> jobs[i].name != jobs[j].name
  }

  datatype History = History(
    schemaVersion: u16,
    generatedAt: u64,
    epoch: Epoch,
    historyRevision: u64,
    jobs: seq<JobHistory>)

  /** A summary row. The cache reads nothing of it but the name. */
  datatype JobRow = JobRow(name: string)

  datatype Summary = Summary(
    schemaVersion: u16,
    generatedAt: u64,
    epoch: Epoch,
    historyRevision: u64,
    jobs: seq<JobRow>)
}
