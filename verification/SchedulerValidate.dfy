/** The validator of history documents, and the shape it accepts. */
module SchedulerValidate {
  import opened Basics
  import opened SchedulerWire
  import opened JsonText
  import opened WireKeys
  import Utf8

  const MAX_TIMESTAMP_UNIX_MS := 4_102_444_800_000

  datatype Kind =
    | UnsupportedSchemaVersion(found: u16)
    | TooManyJobs(count: nat, maxJobs: nat)
    | TooManyRecords(records: nat, maxRecords: nat)
    | FieldTooLong(len: nat, max: nat)
    | EmptyJobName
    | StatusWithoutChild(outcome: Outcome)
    | DurationWithoutChild(outcome: Outcome)
    | NonMonotonicSequence(sequence: u64, previous: u64)
    | DuplicateJobName(name: string)
    | TimestampOutOfRange(timestamp: u64)

  /** The JSON path of the offending field. */
  datatype Path = Field(key: Key) | Sub(of: Path, key: Key) | At(of: Path, index: nat)

  datatype Violation = Violation(kind: Kind, field: Path)

  type Log = seq<Violation>

  // ---- single checks, each adding to the violations found so far ----

  function Report(log: Log, bad: bool, kind: Kind, field: Path): (out: Log)
    ensures |out| == |log| + if bad then 1 else 0
  {
    if bad then log + [Violation(kind, field)] else log
  }

  function CheckTimestamp(log: Log, field: Path, value: u64): Log {
    Report(log, value > MAX_TIMESTAMP_UNIX_MS, TimestampOutOfRange(value), field)
  }

  function CheckText(log: Log, field: Path, value: string, max: nat): Log {
    Report(log, Utf8.Len(value) > max, FieldTooLong(Utf8.Len(value), max), field)
  }

  predicate ChildCapable(outcome: Outcome) {
    outcome == Success || outcome == Failed || outcome == WaitFailed || outcome == Cancelled
  }

  function CheckChildFields(log: Log, field: Path, r: RunRecord): Log {
    var log := Report(log, !ChildCapable(r.outcome) && (r.exitCode.Some? || r.signal.Some?),
                      StatusWithoutChild(r.outcome), Sub(field, ExitCodeKey));
    Report(log, !ChildCapable(r.outcome) && r.duration.Some?, DurationWithoutChild(r.outcome), Sub(field, DurationKey))
  }

  function CheckOutput(log: Log, field: Path, output: Output): Log {
    var escaped := TextEscapedLen(output.text);
    Report(log, escaped > MAX_OUTPUT_TEXT_BYTES, FieldTooLong(escaped, MAX_OUTPUT_TEXT_BYTES), Sub(field, TextKey))
  }

  function CheckTimes(log: Log, field: Path, r: RunRecord): Log {
    var log := CheckTimestamp(log, Sub(field, ScheduledKey), r.scheduled);
    var log := if r.started.Some? then CheckTimestamp(log, Sub(field, StartedKey), r.started.value) else log;
    CheckTimestamp(log, Sub(field, FinishedKey), r.finished)
  }

  function CheckRecord(log: Log, field: Path, r: RunRecord): Log {
    var log := CheckChildFields(CheckTimes(log, field, r), field, r);
    var log := Report(log, r.started.Some? && !ChildCapable(r.outcome), StatusWithoutChild(r.outcome), Sub(field, StartedKey));
    CheckOutput(CheckOutput(log, Sub(field, StdoutKey), r.stdout), Sub(field, StderrKey), r.stderr)
  }

  function CheckSequence(log: Log, field: Path, previous: Option<u64>, sequence: u64): Log {
    if previous.None? then log
    else Report(log, sequence <= previous.value, NonMonotonicSequence(sequence, previous.value), Sub(field, SequenceKey))
  }

  // ---- what the loops add up to ----

  function LastSequence(records: seq<RunRecord>): Option<u64> {
    if records == [] then None else Some(records[|records| - 1].sequence)
  }

  /** Each record is checked on its own, then its sequence against its predecessor's. */
  function RecordsChecked(log: Log, job: Path, records: seq<RunRecord>): Log {
    if records == [] then log
    else
      var front, r := records[..|records| - 1], records[|records| - 1];
      var field := At(Sub(job, RecordsKey), |front|);
      CheckSequence(CheckRecord(RecordsChecked(log, job, front), field, r), field, LastSequence(front), r.sequence)
  }

  function JobHeadChecked(log: Log, field: Path, h: JobHistory): Log {
    var log := CheckText(log, Sub(field, NameKey), h.name, MAX_JOB_NAME_BYTES);
    var log := Report(log, h.name == "", EmptyJobName, Sub(field, NameKey));
    Report(log, |h.records| > MAX_HISTORY_LIMIT, TooManyRecords(|h.records|, MAX_HISTORY_LIMIT), Sub(field, RecordsKey))
  }

  function JobChecked(log: Log, index: nat, h: JobHistory): Log {
    var field := At(Field(JobsKey), index);
    RecordsChecked(JobHeadChecked(log, field, h), field, h.records)
  }

  function JobsChecked(log: Log, jobs: seq<JobHistory>): Log {
    if jobs == [] then log
    else JobChecked(JobsChecked(log, jobs[..|jobs| - 1]), |jobs| - 1, jobs[|jobs| - 1])
  }

  predicate Named(jobs: seq<JobHistory>, name: string) {
    exists i :: 0 <= i < |jobs| && jobs[i].name == name
  }

  /** One violation for every job whose name an earlier job has. */
  function NamesChecked(log: Log, jobs: seq<JobHistory>): Log {
    if jobs == [] then log
    else
      var front, name := jobs[..|jobs| - 1], jobs[|jobs| - 1].name;
      Report(NamesChecked(log, front), Named(front, name), DuplicateJobName(name), Field(JobsKey))
  }

  function HeaderChecked(h: History): Log {
    var log := Report([], h.schemaVersion != SCHEMA_VERSION, UnsupportedSchemaVersion(h.schemaVersion), Field(SchemaVersionKey));
    var log := CheckTimestamp(log, Field(GeneratedAtKey), h.generatedAt);
    var log := CheckTimestamp(log, Sub(Field(EpochKey), EpochStartedAtKey), h.epoch.startedAt);
    Report(log, |h.jobs| > MAX_JOBS, TooManyJobs(|h.jobs|, MAX_JOBS), Field(JobsKey))
  }

  function Violations(h: History): Log {
    NamesChecked(JobsChecked(HeaderChecked(h), h.jobs), h.jobs)
  }

  // ---- the validator ----

  method CheckRecords(violations: Log, job: Path, records: seq<RunRecord>) returns (out: Log)
    ensures out == RecordsChecked(violations, job, records)
  {
    hide CheckRecord, CheckSequence;
    out := violations;
    var previous: Option<u64> := None;
    for position := 0 to |records|
      invariant previous == LastSequence(records[..position])
      invariant out == RecordsChecked(violations, job, records[..position])
    {
      var record, field := records[position], At(Sub(job, RecordsKey), position);
      ghost var prefix := records[..position + 1];
      assert prefix[..position] == records[..position] && prefix[position] == record;
      out := CheckRecord(out, field, record);
      out := CheckSequence(out, field, previous, record.sequence);
      previous := Some(record.sequence);
    }
    assert records[..|records|] == records;
  }

  method CheckJobHistory(violations: Log, index: nat, h: JobHistory) returns (out: Log)
    ensures out == JobChecked(violations, index, h)
  {
    var field := At(Field(JobsKey), index);
    out := CheckText(violations, Sub(field, NameKey), h.name, MAX_JOB_NAME_BYTES);
    if h.name == "" {
      out := out + [Violation(EmptyJobName, Sub(field, NameKey))];
    }
    if |h.records| > MAX_HISTORY_LIMIT {
      out := out + [Violation(TooManyRecords(|h.records|, MAX_HISTORY_LIMIT), Sub(field, RecordsKey))];
    }
    out := CheckRecords(out, field, h.records);
  }

  method CheckDuplicateNames(violations: Log, jobs: seq<JobHistory>) returns (out: Log)
    ensures out == NamesChecked(violations, jobs)
  {
    out := violations;
    var seen: seq<string> := [];
    for i := 0 to |jobs|
      invariant forall name :: name in seen <==> Named(jobs[..i], name)
      invariant out == NamesChecked(violations, jobs[..i])
    {
      var name := jobs[i].name;
      assert jobs[..i + 1][..i] == jobs[..i];
      assert jobs[..i + 1] == jobs[..i] + [jobs[i]];
      NamedOneMore(jobs[..i], jobs[i]);
      if name in seen {
        out := out + [Violation(DuplicateJobName(name), Field(JobsKey))];
      } else {
        seen := seen + [name];
      }
    }
    assert jobs[..|jobs|] == jobs;
  }

  lemma NamedOneMore(jobs: seq<JobHistory>, last: JobHistory)
    ensures forall name :: Named(jobs + [last], name) <==> Named(jobs, name) || name == last.name
  {
    var all := jobs + [last];
    assert all[|jobs|] == last && forall i :: 0 <= i < |jobs| ==> all[i] == jobs[i];
  }

  /** Every defect a header can have, each with the violation that reports it. */
  ghost predicate HeaderDefect(h: History, v: Violation) {
    match v.kind
    case UnsupportedSchemaVersion(found) => v.field == Field(SchemaVersionKey) && found == h.schemaVersion != 2
    case TimestampOutOfRange(t) =>
      && t > 4_102_444_800_000
      && ((v.field == Field(GeneratedAtKey) && t == h.generatedAt)
          || (v.field == Sub(Field(EpochKey), EpochStartedAtKey) && t == h.epoch.startedAt))
    case TooManyJobs(count, maxJobs) => v.field == Field(JobsKey) && maxJobs == 64 && count == |h.jobs| > 64
    case _ => false
  }

  ghost predicate WellFormedHeader(h: History) {
    && h.schemaVersion == SCHEMA_VERSION
    && h.generatedAt <= MAX_TIMESTAMP_UNIX_MS && h.epoch.startedAt <= MAX_TIMESTAMP_UNIX_MS
    && |h.jobs| <= MAX_JOBS
  }

  /** Every defect of the header is reported, once, and nothing else is. */
  method CheckHeader(h: History) returns (violations: Log)
    ensures violations == [] <==> WellFormedHeader(h)
    ensures forall v :: v in violations <==> HeaderDefect(h, v)
    ensures forall i, j :: 0 <= i < j < |violations| ==> violations[i] != violations[j]
    ensures violations == HeaderChecked(h)
  {
    violations := [];
    if h.schemaVersion != SCHEMA_VERSION {
      violations := violations + [Violation(UnsupportedSchemaVersion(h.schemaVersion), Field(SchemaVersionKey))];
    }
    violations := CheckTimestamp(violations, Field(GeneratedAtKey), h.generatedAt);
    violations := CheckTimestamp(violations, Sub(Field(EpochKey), EpochStartedAtKey), h.epoch.startedAt);
    if |h.jobs| > MAX_JOBS {
      violations := violations + [Violation(TooManyJobs(|h.jobs|, MAX_JOBS), Field(JobsKey))];
    }
  }

  method CheckJobs(violations: Log, jobs: seq<JobHistory>) returns (out: Log)
    ensures out == JobsChecked(violations, jobs)
  {
    out := violations;
    for index := 0 to |jobs|
      invariant out == JobsChecked(violations, jobs[..index])
    {
      assert jobs[..index + 1][..index] == jobs[..index];
      out := CheckJobHistory(out, index, jobs[index]);
    }
    assert jobs[..|jobs|] == jobs;
  }

  method ValidateHistory(h: History) returns (violations: Log)
    ensures violations == Violations(h)
  {
    violations := CheckHeader(h);
    violations := CheckJobs(violations, h.jobs);
    violations := CheckDuplicateNames(violations, h.jobs);
  }

  // ---- what is accepted ----

  ghost predicate WellFormedRecord(r: RunRecord) {
    && r.scheduled <= MAX_TIMESTAMP_UNIX_MS && r.finished <= MAX_TIMESTAMP_UNIX_MS
    && (r.started.Some? ==> r.started.value <= MAX_TIMESTAMP_UNIX_MS)
    && (r.outcome == SpawnFailed || r.outcome == LoadExpired ==>
          r.started == None && r.exitCode == None && r.signal == None && r.duration == None)
    && TextEscapedLen(r.stdout.text) <= MAX_OUTPUT_TEXT_BYTES
    && TextEscapedLen(r.stderr.text) <= MAX_OUTPUT_TEXT_BYTES
  }

  ghost predicate WellFormedJob(h: JobHistory) {
    && h.name != "" && Utf8.Len(h.name) <= MAX_JOB_NAME_BYTES
    && |h.records| <= MAX_HISTORY_LIMIT
    && WellFormedRecords(h.records)
  }

  ghost predicate WellFormed(h: History) {
    && WellFormedHeader(h)
    && WellFormedJobs(h.jobs)
    && NamesDistinct(h.jobs)
  }

  lemma RecordAccepted(log: Log, field: Path, r: RunRecord)
    ensures |CheckRecord(log, field, r)| >= |log|
    ensures |CheckRecord(log, field, r)| == |log| <==> WellFormedRecord(r)
  {
  }

  /** The sequence of `r` exceeds that of the record before it. */
  predicate Follows(front: seq<RunRecord>, r: RunRecord) {
    front != [] ==> front[|front| - 1].sequence < r.sequence
  }

  lemma IncreasingOneMore(front: seq<RunRecord>, r: RunRecord)
    ensures Increasing(front + [r]) <==> Increasing(front) && Follows(front, r)
  {
    var all := front + [r];
    if Increasing(all) {
      assert forall i :: 0 <= i < |front| ==> all[i] == front[i];
      if front != [] { assert all[|front| - 1].sequence < all[|front|].sequence; }
    } else if Increasing(front) && front != [] {
      var i, j :| 0 <= i < j < |all| && all[i].sequence >= all[j].sequence;
      assert i < |front| - 1 ==> front[i].sequence < front[|front| - 1].sequence;
    }
  }

  ghost predicate WellFormedRecords(records: seq<RunRecord>) {
    (forall i :: 0 <= i < |records| ==> WellFormedRecord(records[i])) && Increasing(records)
  }

  lemma RecordsOneMore(front: seq<RunRecord>, r: RunRecord)
    ensures WellFormedRecords(front + [r]) <==> WellFormedRecords(front) && WellFormedRecord(r) && Follows(front, r)
  {
    var all := front + [r];
    IncreasingOneMore(front, r);
    assert all[|front|] == r && forall i :: 0 <= i < |front| ==> all[i] == front[i];
  }

  lemma StepAccepted(log: Log, field: Path, front: seq<RunRecord>, r: RunRecord, out: Log)
    requires out == CheckSequence(CheckRecord(log, field, r), field, LastSequence(front), r.sequence)
    ensures |out| >= |log|
    ensures |out| == |log| <==> WellFormedRecord(r) && Follows(front, r)
  {
    RecordAccepted(log, field, r);
  }

  lemma {:induction false} RecordsAccepted(log: Log, job: Path, records: seq<RunRecord>, out: Log)
    requires out == RecordsChecked(log, job, records)
    ensures |out| >= |log|
    ensures |out| == |log| <==> WellFormedRecords(records)
  {
    hide CheckRecord, CheckSequence, WellFormedRecord;
    if records != [] {
      var front, r := records[..|records| - 1], records[|records| - 1];
      var before := RecordsChecked(log, job, front);
      RecordsAccepted(log, job, front, before);
      StepAccepted(before, At(Sub(job, RecordsKey), |front|), front, r, out);
      assert records == front + [r];
      RecordsOneMore(front, r);
    }
  }

  lemma HeadAccepted(log: Log, field: Path, h: JobHistory, out: Log)
    requires out == JobHeadChecked(log, field, h)
    ensures |out| >= |log|
    ensures |out| == |log| <==> h.name != "" && Utf8.Len(h.name) <= MAX_JOB_NAME_BYTES && |h.records| <= MAX_HISTORY_LIMIT
  {
  }

  lemma JobAccepted(log: Log, index: nat, h: JobHistory, out: Log)
    requires out == JobChecked(log, index, h)
    ensures |out| >= |log|
    ensures |out| == |log| <==> WellFormedJob(h)
  {
    var field := At(Field(JobsKey), index);
    var head := JobHeadChecked(log, field, h);
    HeadAccepted(log, field, h, head);
    RecordsAccepted(head, field, h.records, out);
  }

  ghost predicate WellFormedJobs(jobs: seq<JobHistory>) {
    forall i :: 0 <= i < |jobs| ==> WellFormedJob(jobs[i])
  }

  lemma JobsOneMore(front: seq<JobHistory>, last: JobHistory)
    ensures WellFormedJobs(front + [last]) <==> WellFormedJobs(front) && WellFormedJob(last)
  {
    var all := front + [last];
    assert all[|front|] == last && forall i :: 0 <= i < |front| ==> all[i] == front[i];
  }

  lemma {:induction false} JobsAccepted(log: Log, jobs: seq<JobHistory>, out: Log)
    requires out == JobsChecked(log, jobs)
    ensures |out| >= |log|
    ensures |out| == |log| <==> WellFormedJobs(jobs)
  {
    hide JobChecked, WellFormedJob;
    if jobs != [] {
      var front, last := jobs[..|jobs| - 1], jobs[|jobs| - 1];
      var before := JobsChecked(log, front);
      JobsAccepted(log, front, before);
      JobAccepted(before, |front|, last, out);
      assert jobs == front + [last];
      JobsOneMore(front, last);
    }
  }

  lemma NamesOneMore(front: seq<JobHistory>, last: JobHistory)
    ensures NamesDistinct(front + [last]) <==> NamesDistinct(front) && !Named(front, last.name)
  {
    var all := front + [last];
    assert all[|front|] == last && forall i :: 0 <= i < |front| ==> all[i] == front[i];
    if NamesDistinct(all) {
      forall i | 0 <= i < |front| ensures front[i].name != last.name {
        assert all[i].name != all[|front|].name;
      }
    }
  }

  lemma {:induction false} NamesAccepted(log: Log, jobs: seq<JobHistory>)
    ensures |NamesChecked(log, jobs)| >= |log|
    ensures |NamesChecked(log, jobs)| == |log| <==> NamesDistinct(jobs)
  {
    hide Named;
    if jobs != [] {
      var front, last := jobs[..|jobs| - 1], jobs[|jobs| - 1];
      NamesAccepted(log, front);
      assert jobs == front + [last];
      NamesOneMore(front, last);
    }
  }

  /** The validator reports nothing exactly for well-formed documents. */
  lemma AcceptedIffWellFormed(h: History)
    ensures Violations(h) == [] <==> WellFormed(h)
  {
    JobsAccepted(HeaderChecked(h), h.jobs, JobsChecked(HeaderChecked(h), h.jobs));
    NamesAccepted(JobsChecked(HeaderChecked(h), h.jobs), h.jobs);
  }
}
