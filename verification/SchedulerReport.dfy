/**
 * What the history validator reports, stated on the document alone: which violations, how often each, and in which
 * order.
 */
module SchedulerReport {
  import opened Basics
  import opened SchedulerWire
  import opened SchedulerValidate
  import opened JsonText
  import opened WireKeys
  import Utf8

  function JobPlace(j: nat): Path { At(Field(JobsKey), j) }

  function RecordPlace(j: nat, i: nat): Path { At(Sub(JobPlace(j), RecordsKey), i) }

  // ---- defects ----

  /** Outcomes of occurrences that never had a child process. */
  predicate Childless(o: Outcome) { o == SpawnFailed || o == LoadExpired }

  predicate JobHeadDefect(at: Path, h: JobHistory, v: Violation) {
    match v.kind
    case FieldTooLong(len, max) => v.field == Sub(at, NameKey) && max == 128 && len == Utf8.Len(h.name) > 128
    case EmptyJobName => v.field == Sub(at, NameKey) && h.name == ""
    case TooManyRecords(count, max) => v.field == Sub(at, RecordsKey) && max == 10 && count == |h.records| > 10
    case _ => false
  }

  predicate TimestampDefect(at: Path, r: RunRecord, v: Violation) {
    && v.kind.TimestampOutOfRange? && v.kind.timestamp > 4_102_444_800_000
    && (|| (v.field == Sub(at, ScheduledKey) && v.kind.timestamp == r.scheduled)
        || (v.field == Sub(at, StartedKey) && Some(v.kind.timestamp) == r.started)
        || (v.field == Sub(at, FinishedKey) && v.kind.timestamp == r.finished))
  }

  predicate ChildDefect(at: Path, r: RunRecord, v: Violation) {
    && Childless(r.outcome)
    && (|| (v == Violation(StatusWithoutChild(r.outcome), Sub(at, ExitCodeKey)) && (r.exitCode.Some? || r.signal.Some?))
        || (v == Violation(DurationWithoutChild(r.outcome), Sub(at, DurationKey)) && r.duration.Some?)
        || (v == Violation(StatusWithoutChild(r.outcome), Sub(at, StartedKey)) && r.started.Some?))
  }

  predicate OutputDefect(at: Path, r: RunRecord, v: Violation) {
    && v.kind.FieldTooLong? && v.kind.max == 512 && v.kind.len > 512
    && (|| (v.field == Sub(Sub(at, StdoutKey), TextKey) && v.kind.len == TextEscapedLen(r.stdout.text))
        || (v.field == Sub(Sub(at, StderrKey), TextKey) && v.kind.len == TextEscapedLen(r.stderr.text)))
  }

  predicate SequenceDefect(at: Path, records: seq<RunRecord>, i: nat, v: Violation)
    requires i < |records|
  {
    && i > 0 && records[i].sequence <= records[i - 1].sequence
    && v == Violation(NonMonotonicSequence(records[i].sequence, records[i - 1].sequence), Sub(at, SequenceKey))
  }

  predicate RecordDefect(at: Path, records: seq<RunRecord>, i: nat, v: Violation)
    requires i < |records|
  {
    || TimestampDefect(at, records[i], v) || ChildDefect(at, records[i], v) || OutputDefect(at, records[i], v)
    || SequenceDefect(at, records, i, v)
  }

  predicate JobDefect(j: nat, h: JobHistory, v: Violation) {
    || JobHeadDefect(JobPlace(j), h, v)
    || exists i: nat :: i < |h.records| && RecordDefect(RecordPlace(j, i), h.records, i, v)
  }

  /** Everything that can be wrong with a document, repeated names aside, with the violation that names it. */
  ghost predicate Defect(h: History, v: Violation) {
    HeaderDefect(h, v) || exists j: nat :: j < |h.jobs| && JobDefect(j, h.jobs[j], v)
  }

  function Occurrences(jobs: seq<JobHistory>, name: string): nat {
    if jobs == [] then 0
    else Occurrences(jobs[..|jobs| - 1], name) + if jobs[|jobs| - 1].name == name then 1 else 0
  }

  /** How often each violation is due: once for a defect, and once for every further job of a name. */
  ghost function Times(h: History, v: Violation): nat {
    if v.kind.DuplicateJobName? then
      (if v.field == Field(JobsKey) && Occurrences(h.jobs, v.kind.name) > 1 then Occurrences(h.jobs, v.kind.name) - 1 else 0)
    else if Defect(h, v) then 1 else 0
  }

  // ---- order ----

  /** Where in the walk through a document a violation is found. */
  datatype Position = Position(section: nat, job: nat, part: nat, record: nat, check: nat)

  predicate Earlier(a: Position, b: Position) {
    || a.section < b.section
    || (a.section == b.section && a.job < b.job)
    || (a.section == b.section && a.job == b.job && a.part < b.part)
    || (a.section == b.section && a.job == b.job && a.part == b.part && a.record < b.record)
    || (a.section == b.section && a.job == b.job && a.part == b.part && a.record == b.record && a.check < b.check)
  }

  function RecordCheck(kind: Kind, key: Key): nat {
    if key == ScheduledKey then 0
    else if key == StartedKey then (if kind.TimestampOutOfRange? then 1 else 5)
    else if key == FinishedKey then 2
    else if key == ExitCodeKey then 3
    else if key == DurationKey then 4
    else 8
  }

  /** The header; then each job's name, its record count and its records field by field; repeated names last. */
  function PositionOf(v: Violation): Position {
    if v.kind.DuplicateJobName? then Position(2, 0, 0, 0, 0)
    else
      match v.field
      case Field(k) => Position(0, 0, 0, 0, if k == SchemaVersionKey then 0 else if k == GeneratedAtKey then 1 else 3)
      case Sub(Field(_), _) => Position(0, 0, 0, 0, 2)
      case Sub(At(Field(_), j), k) => Position(1, j, if k != NameKey then 2 else if v.kind.FieldTooLong? then 0 else 1, 0, 0)
      case Sub(At(Sub(At(Field(_), j), _), i), k) => Position(1, j, 3, i, RecordCheck(v.kind, k))
      case Sub(Sub(At(Sub(At(Field(_), j), _), i), k), _) => Position(1, j, 3, i, if k == StdoutKey then 6 else 7)
      case _ => Position(3, 0, 0, 0, 0)
  }

  /** `log` is in strictly increasing order of position, all of it earlier than `end`. */
  ghost predicate Before(log: Log, end: Position) {
    && (forall a, b :: 0 <= a < b < |log| ==> Earlier(PositionOf(log[a]), PositionOf(log[b])))
    && forall a :: 0 <= a < |log| ==> Earlier(PositionOf(log[a]), end)
  }

  lemma Later(log: Log, end: Position, later: Position)
    requires Before(log, end) && (Earlier(end, later) || end == later)
    ensures Before(log, later)
  {
  }

  /** One check: it adds its violation exactly when it fails, at its own position. */
  lemma Reported(log: Log, bad: bool, kind: Kind, field: Path, next: Position)
    requires Before(log, PositionOf(Violation(kind, field))) && Earlier(PositionOf(Violation(kind, field)), next)
    ensures var out := Report(log, bad, kind, field);
            && Before(out, next)
            && forall v :: v in out <==> v in log || (bad && v == Violation(kind, field))
  {
    var v := Violation(kind, field);
    Later(log, PositionOf(v), next);
    if bad {
      var out := Report(log, bad, kind, field);
      assert forall a :: 0 <= a < |log| ==> out[a] == log[a];
    }
  }

  // ---- one record ----

  function RecordAt(j: nat, i: nat, check: nat): Position { Position(1, j, 3, i, check) }

  lemma TimesReported(log: Log, j: nat, i: nat, r: RunRecord, out: Log)
    requires Before(log, RecordAt(j, i, 0)) && out == CheckTimes(log, RecordPlace(j, i), r)
    ensures Before(out, RecordAt(j, i, 3))
    ensures forall v :: v in out <==> v in log || TimestampDefect(RecordPlace(j, i), r, v)
  {
    hide Before, Report;
    var at := RecordPlace(j, i);
    var a := CheckTimestamp(log, Sub(at, ScheduledKey), r.scheduled);
    Reported(log, r.scheduled > MAX_TIMESTAMP_UNIX_MS, TimestampOutOfRange(r.scheduled), Sub(at, ScheduledKey), RecordAt(j, i, 1));
    var b := if r.started.Some? then CheckTimestamp(a, Sub(at, StartedKey), r.started.value) else a;
    if r.started.Some? {
      Reported(a, r.started.value > MAX_TIMESTAMP_UNIX_MS, TimestampOutOfRange(r.started.value), Sub(at, StartedKey), RecordAt(j, i, 2));
    } else {
      Later(a, RecordAt(j, i, 1), RecordAt(j, i, 2));
    }
    Reported(b, r.finished > MAX_TIMESTAMP_UNIX_MS, TimestampOutOfRange(r.finished), Sub(at, FinishedKey), RecordAt(j, i, 3));
  }

  lemma ChildReported(log: Log, j: nat, i: nat, r: RunRecord, out: Log)
    requires Before(log, RecordAt(j, i, 3))
    requires var at := RecordPlace(j, i);
             out == Report(CheckChildFields(log, at, r), r.started.Some? && !ChildCapable(r.outcome),
                           StatusWithoutChild(r.outcome), Sub(at, StartedKey))
    ensures Before(out, RecordAt(j, i, 6))
    ensures forall v :: v in out <==> v in log || ChildDefect(RecordPlace(j, i), r, v)
  {
    hide Before, Report;
    var at := RecordPlace(j, i);
    assert ChildCapable(r.outcome) <==> !Childless(r.outcome);
    Reported(log, !ChildCapable(r.outcome) && (r.exitCode.Some? || r.signal.Some?), StatusWithoutChild(r.outcome),
             Sub(at, ExitCodeKey), RecordAt(j, i, 4));
    var a := Report(log, !ChildCapable(r.outcome) && (r.exitCode.Some? || r.signal.Some?), StatusWithoutChild(r.outcome), Sub(at, ExitCodeKey));
    Reported(a, !ChildCapable(r.outcome) && r.duration.Some?, DurationWithoutChild(r.outcome), Sub(at, DurationKey), RecordAt(j, i, 5));
    Reported(CheckChildFields(log, at, r), r.started.Some? && !ChildCapable(r.outcome), StatusWithoutChild(r.outcome),
             Sub(at, StartedKey), RecordAt(j, i, 6));
  }

  lemma OutputsReported(log: Log, j: nat, i: nat, r: RunRecord, out: Log)
    requires Before(log, RecordAt(j, i, 6))
    requires var at := RecordPlace(j, i);
             out == CheckOutput(CheckOutput(log, Sub(at, StdoutKey), r.stdout), Sub(at, StderrKey), r.stderr)
    ensures Before(out, RecordAt(j, i, 8))
    ensures forall v :: v in out <==> v in log || OutputDefect(RecordPlace(j, i), r, v)
  {
    hide Before, Report, TextEscapedLen;
    var at := RecordPlace(j, i);
    var x, y := TextEscapedLen(r.stdout.text), TextEscapedLen(r.stderr.text);
    Reported(log, x > MAX_OUTPUT_TEXT_BYTES, FieldTooLong(x, MAX_OUTPUT_TEXT_BYTES), Sub(Sub(at, StdoutKey), TextKey), RecordAt(j, i, 7));
    Reported(CheckOutput(log, Sub(at, StdoutKey), r.stdout), y > MAX_OUTPUT_TEXT_BYTES, FieldTooLong(y, MAX_OUTPUT_TEXT_BYTES),
             Sub(Sub(at, StderrKey), TextKey), RecordAt(j, i, 8));
  }

  lemma SequenceReported(log: Log, j: nat, records: seq<RunRecord>, i: nat, out: Log)
    requires i < |records| && Before(log, RecordAt(j, i, 8))
    requires out == CheckSequence(log, RecordPlace(j, i), LastSequence(records[..i]), records[i].sequence)
    ensures Before(out, RecordAt(j, i + 1, 0))
    ensures forall v :: v in out <==> v in log || SequenceDefect(RecordPlace(j, i), records, i, v)
  {
    hide Before, Report;
    if i == 0 {
      Later(log, RecordAt(j, i, 8), RecordAt(j, i + 1, 0));
    } else {
      var previous := records[i - 1].sequence;
      Reported(log, records[i].sequence <= previous, NonMonotonicSequence(records[i].sequence, previous),
               Sub(RecordPlace(j, i), SequenceKey), RecordAt(j, i + 1, 0));
    }
  }

  lemma RecordReported(log: Log, j: nat, records: seq<RunRecord>, i: nat, out: Log)
    requires i < |records| && Before(log, RecordAt(j, i, 0))
    requires out == CheckSequence(CheckRecord(log, RecordPlace(j, i), records[i]), RecordPlace(j, i),
                                  LastSequence(records[..i]), records[i].sequence)
    ensures Before(out, RecordAt(j, i + 1, 0))
    ensures forall v :: v in out <==> v in log || RecordDefect(RecordPlace(j, i), records, i, v)
  {
    hide Before, CheckTimes, CheckChildFields, CheckOutput, CheckSequence, TimestampDefect, ChildDefect, OutputDefect, SequenceDefect;
    var at, r := RecordPlace(j, i), records[i];
    var a := CheckTimes(log, at, r);
    TimesReported(log, j, i, r, a);
    var b := Report(CheckChildFields(a, at, r), r.started.Some? && !ChildCapable(r.outcome), StatusWithoutChild(r.outcome), Sub(at, StartedKey));
    ChildReported(a, j, i, r, b);
    var c := CheckOutput(CheckOutput(b, Sub(at, StdoutKey), r.stdout), Sub(at, StderrKey), r.stderr);
    OutputsReported(b, j, i, r, c);
    SequenceReported(c, j, records, i, out);
  }

  // ---- one job ----

  ghost predicate RecordsDefect(j: nat, records: seq<RunRecord>, n: nat, v: Violation)
    requires n <= |records|
  {
    exists i: nat :: i < n && RecordDefect(RecordPlace(j, i), records, i, v)
  }

  lemma {:induction false} RecordsReported(log: Log, j: nat, records: seq<RunRecord>, n: nat, out: Log)
    requires n <= |records| && Before(log, RecordAt(j, 0, 0)) && out == RecordsChecked(log, JobPlace(j), records[..n])
    ensures Before(out, RecordAt(j, n, 0))
    ensures forall v :: v in out <==> v in log || RecordsDefect(j, records, n, v)
    decreases n
  {
    hide Before, CheckRecord, CheckSequence, RecordDefect;
    if n > 0 {
      var i := n - 1;
      var before := RecordsChecked(log, JobPlace(j), records[..i]);
      RecordsReported(log, j, records, i, before);
      assert records[..n][..i] == records[..i];
      RecordReported(before, j, records, i, out);
      forall v ensures RecordsDefect(j, records, n, v) <==> RecordsDefect(j, records, i, v) || RecordDefect(RecordPlace(j, i), records, i, v) {
      }
    }
  }

  function JobAt(j: nat, part: nat): Position { Position(1, j, part, 0, 0) }

  lemma HeadReported(log: Log, j: nat, h: JobHistory, out: Log)
    requires Before(log, JobAt(j, 0)) && out == JobHeadChecked(log, JobPlace(j), h)
    ensures Before(out, JobAt(j, 3))
    ensures forall v :: v in out <==> v in log || JobHeadDefect(JobPlace(j), h, v)
  {
    hide Before, Report;
    var at, len := JobPlace(j), Utf8.Len(h.name);
    var a := CheckText(log, Sub(at, NameKey), h.name, MAX_JOB_NAME_BYTES);
    Reported(log, len > MAX_JOB_NAME_BYTES, FieldTooLong(len, MAX_JOB_NAME_BYTES), Sub(at, NameKey), JobAt(j, 1));
    var b := Report(a, h.name == "", EmptyJobName, Sub(at, NameKey));
    Reported(a, h.name == "", EmptyJobName, Sub(at, NameKey), JobAt(j, 2));
    Reported(b, |h.records| > MAX_HISTORY_LIMIT, TooManyRecords(|h.records|, MAX_HISTORY_LIMIT), Sub(at, RecordsKey), JobAt(j, 3));
  }

  lemma JobReported(log: Log, j: nat, h: JobHistory, out: Log)
    requires Before(log, JobAt(j, 0)) && out == JobChecked(log, j, h)
    ensures Before(out, JobAt(j + 1, 0))
    ensures forall v :: v in out <==> v in log || JobDefect(j, h, v)
  {
    hide Before, JobHeadChecked, JobHeadDefect, RecordsChecked, RecordDefect;
    var head := JobHeadChecked(log, JobPlace(j), h);
    HeadReported(log, j, h, head);
    assert h.records[..|h.records|] == h.records;
    RecordsReported(head, j, h.records, |h.records|, out);
    Later(out, RecordAt(j, |h.records|, 0), JobAt(j + 1, 0));
  }

  ghost predicate JobsDefect(jobs: seq<JobHistory>, n: nat, v: Violation)
    requires n <= |jobs|
  {
    exists j: nat :: j < n && JobDefect(j, jobs[j], v)
  }

  lemma {:induction false} JobsReported(log: Log, jobs: seq<JobHistory>, n: nat, out: Log)
    requires n <= |jobs| && Before(log, JobAt(0, 0)) && out == JobsChecked(log, jobs[..n])
    ensures Before(out, JobAt(n, 0))
    ensures forall v :: v in out <==> v in log || JobsDefect(jobs, n, v)
    decreases n
  {
    hide Before, JobChecked, JobDefect;
    if n > 0 {
      var j := n - 1;
      var before := JobsChecked(log, jobs[..j]);
      JobsReported(log, jobs, j, before);
      assert jobs[..n][..j] == jobs[..j];
      JobReported(before, j, jobs[j], out);
      forall v ensures JobsDefect(jobs, n, v) <==> JobsDefect(jobs, j, v) || JobDefect(j, jobs[j], v) {
      }
    }
  }

  // ---- the whole document ----

  lemma HeaderReported(h: History)
    ensures Before(HeaderChecked(h), JobAt(0, 0))
    ensures forall v :: v in HeaderChecked(h) <==> HeaderDefect(h, v)
  {
    hide Before, Report;
    var version, epoch := Field(SchemaVersionKey), Sub(Field(EpochKey), EpochStartedAtKey);
    assert Before([], Position(0, 0, 0, 0, 0)) by { NothingReported(); }
    Reported([], h.schemaVersion != SCHEMA_VERSION, UnsupportedSchemaVersion(h.schemaVersion), version, Position(0, 0, 0, 0, 1));
    var a := Report([], h.schemaVersion != SCHEMA_VERSION, UnsupportedSchemaVersion(h.schemaVersion), version);
    Reported(a, h.generatedAt > MAX_TIMESTAMP_UNIX_MS, TimestampOutOfRange(h.generatedAt), Field(GeneratedAtKey), Position(0, 0, 0, 0, 2));
    var b := CheckTimestamp(a, Field(GeneratedAtKey), h.generatedAt);
    Reported(b, h.epoch.startedAt > MAX_TIMESTAMP_UNIX_MS, TimestampOutOfRange(h.epoch.startedAt), epoch, Position(0, 0, 0, 0, 3));
    var c := CheckTimestamp(b, epoch, h.epoch.startedAt);
    Reported(c, |h.jobs| > MAX_JOBS, TooManyJobs(|h.jobs|, MAX_JOBS), Field(JobsKey), JobAt(0, 0));
  }

  lemma NothingReported()
    ensures Before([], Position(0, 0, 0, 0, 0))
  {
  }

  function Repeated(name: string): Violation { Violation(DuplicateJobName(name), Field(JobsKey)) }

  lemma {:induction false} NamedIffOccurs(jobs: seq<JobHistory>, name: string)
    ensures Named(jobs, name) <==> Occurrences(jobs, name) > 0
  {
    if jobs != [] {
      var front, last := jobs[..|jobs| - 1], jobs[|jobs| - 1];
      NamedIffOccurs(front, name);
      NamedOneMore(front, last);
      assert jobs == front + [last];
    }
  }

  /** The name check appends to what was found before, one violation for every further job of a name. */
  lemma {:induction false} NamesReported(log: Log, jobs: seq<JobHistory>, v: Violation)
    ensures log <= NamesChecked(log, jobs)
    ensures forall i :: |log| <= i < |NamesChecked(log, jobs)| ==> NamesChecked(log, jobs)[i].kind.DuplicateJobName?
    ensures multiset(NamesChecked(log, jobs))[v] == multiset(log)[v] +
              if v.kind.DuplicateJobName? && v == Repeated(v.kind.name) && Occurrences(jobs, v.kind.name) > 1 then Occurrences(jobs, v.kind.name) - 1 else 0
  {
    if jobs != [] {
      var front, last := jobs[..|jobs| - 1], jobs[|jobs| - 1];
      NamesReported(log, front, v);
      NamedIffOccurs(front, last.name);
    }
  }

  ghost predicate NoRepeats(log: Log) {
    forall a, b :: 0 <= a < b < |log| ==> log[a] != log[b]
  }

  lemma BeforeIsWithoutRepeats(log: Log, end: Position)
    requires Before(log, end)
    ensures NoRepeats(log)
  {
    hide PositionOf;
  }

  lemma {:induction false} CountedOnce(log: Log, v: Violation)
    requires NoRepeats(log)
    ensures multiset(log)[v] == if v in log then 1 else 0
  {
    if log != [] {
      var front, last := log[..|log| - 1], log[|log| - 1];
      CountedOnce(front, v);
      assert log == front + [last];
    }
  }

  /** No violation stands before one that the walk finds earlier. */
  ghost predicate InOrder(log: Log) {
    forall a, b :: 0 <= a < b < |log| ==> !Earlier(PositionOf(log[b]), PositionOf(log[a]))
  }

  /**
   * The report is exact: every defect of the document is named once, a name used n times is named n - 1 times, and
   * nothing else is reported; in the order header, jobs, repeated names, and within them in the order of the fields.
   */
  lemma ReportIsExact(h: History)
    ensures forall v :: multiset(Violations(h))[v] == Times(h, v)
    ensures InOrder(Violations(h))
  {
    hide Before, HeaderChecked, HeaderDefect, JobsChecked, NamesChecked, JobDefect, Occurrences;
    var header := HeaderChecked(h);
    var log := JobsChecked(header, h.jobs);
    HeaderReported(h);
    assert h.jobs[..|h.jobs|] == h.jobs;
    JobsReported(header, h.jobs, |h.jobs|, log);
    BeforeIsWithoutRepeats(log, JobAt(|h.jobs|, 0));
    forall v ensures multiset(Violations(h))[v] == Times(h, v) {
      NamesReported(log, h.jobs, v);
      CountedOnce(log, v);
      assert v in log <==> Defect(h, v);
      DefectsAreNotRepeats(h, v);
    }
    NamesReported(log, h.jobs, Repeated(""));
    InOrderWithNames(log, JobAt(|h.jobs|, 0), Violations(h));
  }

  lemma DefectsAreNotRepeats(h: History, v: Violation)
    ensures v.kind.DuplicateJobName? ==> !Defect(h, v)
  {
  }

  lemma InOrderWithNames(log: Log, end: Position, all: Log)
    requires Before(log, end) && end.section == 1 && log <= all
    requires forall i :: |log| <= i < |all| ==> all[i].kind.DuplicateJobName?
    ensures InOrder(all)
  {
    forall a, b | 0 <= a < b < |all| ensures !Earlier(PositionOf(all[b]), PositionOf(all[a])) {
      if b < |log| {
        assert Earlier(PositionOf(log[a]), PositionOf(log[b]));
      } else if a < |log| {
        assert Earlier(PositionOf(log[a]), end);
      }
    }
  }
}
