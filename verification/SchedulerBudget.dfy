/** The serialized size of history documents, and the bound the client's body cap relies on. */
module SchedulerBudget {
  import opened Basics
  import opened SchedulerWire
  import opened SchedulerValidate
  import opened JsonText
  import opened WireKeys
  import Decimal
  import Utf8

  // ---- serialization: field order and omitted options as the documents derive them ----

  function OptNum(x: Option<int>): Option<Json> {
    if x.None? then None else Some(Num(x.value))
  }

  function OutcomeName(o: Outcome): string {
    match o
    case Success => "success"
    case Failed => "failed"
    case SpawnFailed => "spawn_failed"
    case WaitFailed => "wait_failed"
    case LoadExpired => "load_expired"
    case Cancelled => "cancelled"
  }

  function OutputJson(o: Output): Json {
    Obj(Empty.With(TextKey, Str(o.text)).With(TruncatedKey, Bool(o.truncated)))
  }

  function TimeFields(r: RunRecord): Object {
    Empty
      .With(SequenceKey, Num(r.sequence))
      .With(ScheduledKey, Num(r.scheduled))
      .WithOpt(StartedKey, OptNum(r.started))
      .With(FinishedKey, Num(r.finished))
  }

  function StatusFields(o: Object, r: RunRecord): Object {
    o.With(OutcomeKey, Str(OutcomeName(r.outcome)))
      .WithOpt(ExitCodeKey, OptNum(r.exitCode))
      .WithOpt(SignalKey, OptNum(r.signal))
      .WithOpt(DurationKey, OptNum(r.duration))
  }

  function OutputFields(o: Object, r: RunRecord): Object {
    o.With(DelayKey, Num(r.delay))
      .With(CoalescedKey, Bool(r.coalesced))
      .With(StdoutKey, OutputJson(r.stdout))
      .With(StderrKey, OutputJson(r.stderr))
  }

  function RecordJson(r: RunRecord): Json {
    Obj(OutputFields(StatusFields(TimeFields(r), r), r))
  }

  function RecordItems(records: seq<RunRecord>): seq<Json> {
    seq(|records|, i requires 0 <= i < |records| => RecordJson(records[i]))
  }

  function JobJson(h: JobHistory): Json {
    Obj(Empty.With(NameKey, Str(h.name)).With(RecordsKey, Arr(RecordItems(h.records))))
  }

  function JobItems(jobs: seq<JobHistory>): seq<Json> {
    seq(|jobs|, i requires 0 <= i < |jobs| => JobJson(jobs[i]))
  }

  function EpochJson(e: Epoch): Json {
    Obj(Empty.With(EpochStartedAtKey, Num(e.startedAt)).With(NonceKey, Num(e.nonce)))
  }

  function HeaderFields(h: History): Object {
    Empty
      .With(SchemaVersionKey, Num(h.schemaVersion))
      .With(GeneratedAtKey, Num(h.generatedAt))
      .With(EpochKey, EpochJson(h.epoch))
      .With(HistoryRevisionKey, Num(h.historyRevision))
  }

  function HistoryJson(h: History): Json {
    Obj(HeaderFields(h).With(JobsKey, Arr(JobItems(h.jobs))))
  }

  /** Whether the serialized body is over the client's cap. */
  predicate BodyExceedsBudget(h: History) {
    Utf8.Len(Write(HistoryJson(h))) > MAX_HISTORY_BODY_BYTES
  }

  // ---- sizes of the parts ----

  lemma {:induction false} EscapedAtMostSixfold(s: string)
    ensures TextEscapedLen(s) <= 6 * Utf8.Len(s)
  {
    if s != [] { EscapedAtMostSixfold(s[..|s| - 1]); }
  }

  lemma NumSize(v: int, digits: nat)
    requires digits >= 1 && v < Decimal.Pow10(digits) && -v < Decimal.Pow10(digits)
    ensures Size(Num(v)) <= digits + if v < 0 then 1 else 0
  {
    Decimal.PrintLength(if v < 0 then -v else v, digits);
  }

  lemma U64Size(v: u64)
    ensures Size(Num(v)) <= 20
  {
    Decimal.SomePowers();
    NumSize(v, 20);
  }

  lemma TimestampSize(v: u64)
    requires v <= MAX_TIMESTAMP_UNIX_MS
    ensures Size(Num(v)) <= 13
  {
    Decimal.SomePowers();
    NumSize(v, 13);
  }

  lemma SmallIntSize(v: int)
    requires -0x8000_0000 <= v < 0x1_0000_0000
    ensures Size(Num(v)) <= 11
  {
    Decimal.SomePowers();
    NumSize(v, 10);
  }

  /** Adding a field costs its key, its value and at most four bytes of punctuation. */
  lemma FieldCost(o: Object, key: Key, v: Json, bound: nat)
    requires Size(v) <= bound
    ensures FieldsSize(o.With(key, v)) <= FieldsSize(o) + KeyLen(key) + 4 + bound
  {
  }

  lemma OptFieldCost(o: Object, key: Key, v: Option<Json>, bound: nat)
    requires v.Some? ==> Size(v.value) <= bound
    ensures FieldsSize(o.WithOpt(key, v)) <= FieldsSize(o) + KeyLen(key) + 4 + bound
  {
    if v.Some? { FieldCost(o, key, v.value, bound); }
  }

  lemma BoolSize(b: bool)
    ensures Size(Bool(b)) <= 5
  {
  }

  lemma OutcomeSize(o: Outcome)
    ensures Size(Str(OutcomeName(o))) <= 14
  {
    PlainLen(OutcomeName(o));
  }

  lemma OutputSize(o: Output)
    requires TextEscapedLen(o.text) <= MAX_OUTPUT_TEXT_BYTES
    ensures Size(OutputJson(o)) <= 542
  {
    FieldCost(Empty, TextKey, Str(o.text), 514);
    FieldCost(Empty.With(TextKey, Str(o.text)), TruncatedKey, Bool(o.truncated), 5);
  }

  lemma TimeFieldsSize(r: RunRecord)
    requires WellFormedRecord(r)
    ensures FieldsSize(TimeFields(r)) <= 131
  {
    var o1 := Empty.With(SequenceKey, Num(r.sequence));
    var o2 := o1.With(ScheduledKey, Num(r.scheduled));
    var o3 := o2.WithOpt(StartedKey, OptNum(r.started));
    assert FieldsSize(o1) <= 32 by { U64Size(r.sequence); FieldCost(Empty, SequenceKey, Num(r.sequence), 20); }
    assert FieldsSize(o2) <= 66 by { TimestampSize(r.scheduled); FieldCost(o1, ScheduledKey, Num(r.scheduled), 13); }
    assert FieldsSize(o3) <= 98 by {
      if r.started.Some? { TimestampSize(r.started.value); }
      OptFieldCost(o2, StartedKey, OptNum(r.started), 13);
    }
    TimestampSize(r.finished);
    FieldCost(o3, FinishedKey, Num(r.finished), 13);
  }

  lemma OptIntCost(o: Object, key: Key, v: Option<int>, bound: nat)
    requires v.Some? ==> Size(Num(v.value)) <= bound
    ensures FieldsSize(o.WithOpt(key, OptNum(v))) <= FieldsSize(o) + KeyLen(key) + 4 + bound
  {
    OptFieldCost(o, key, OptNum(v), bound);
  }

  lemma StatusFieldsSize(o: Object, r: RunRecord)
    ensures FieldsSize(StatusFields(o, r)) <= FieldsSize(o) + 105
  {
    hide Size, FieldsSize, OutcomeName;
    var o1 := o.With(OutcomeKey, Str(OutcomeName(r.outcome)));
    var o2 := o1.WithOpt(ExitCodeKey, OptNum(r.exitCode));
    var o3 := o2.WithOpt(SignalKey, OptNum(r.signal));
    OutcomeSize(r.outcome);
    FieldCost(o, OutcomeKey, Str(OutcomeName(r.outcome)), 14);
    if r.exitCode.Some? { SmallIntSize(r.exitCode.value); }
    OptIntCost(o1, ExitCodeKey, r.exitCode, 11);
    if r.signal.Some? { SmallIntSize(r.signal.value); }
    OptIntCost(o2, SignalKey, r.signal, 11);
    if r.duration.Some? { U64Size(r.duration.value); }
    OptIntCost(o3, DurationKey, r.duration, 20);
  }

  lemma OutputFieldsSize(o: Object, r: RunRecord)
    requires WellFormedRecord(r)
    ensures FieldsSize(OutputFields(o, r)) <= FieldsSize(o) + 1154
  {
    hide Size, FieldsSize, OutputJson;
    var o1 := o.With(DelayKey, Num(r.delay));
    var o2 := o1.With(CoalescedKey, Bool(r.coalesced));
    var o3 := o2.With(StdoutKey, OutputJson(r.stdout));
    assert FieldsSize(o1) <= FieldsSize(o) + 32 by { U64Size(r.delay); FieldCost(o, DelayKey, Num(r.delay), 20); }
    assert FieldsSize(o2) <= FieldsSize(o) + 50 by { BoolSize(r.coalesced); FieldCost(o1, CoalescedKey, Bool(r.coalesced), 5); }
    assert FieldsSize(o3) <= FieldsSize(o) + 602 by { OutputSize(r.stdout); FieldCost(o2, StdoutKey, OutputJson(r.stdout), 542); }
    OutputSize(r.stderr);
    FieldCost(o3, StderrKey, OutputJson(r.stderr), 542);
  }

  lemma RecordSize(r: RunRecord)
    requires WellFormedRecord(r)
    ensures Size(RecordJson(r)) <= 1392
  {
    TimeFieldsSize(r);
    StatusFieldsSize(TimeFields(r), r);
    OutputFieldsSize(StatusFields(TimeFields(r), r), r);
  }

  lemma {:induction false} ItemsBound(items: seq<Json>, bound: nat)
    requires forall i :: 0 <= i < |items| ==> Size(items[i]) <= bound
    ensures ItemsSize(items) <= |items| * (bound + 1)
  {
    if |items| > 1 {
      var front := items[..|items| - 1];
      ItemsBound(front, bound);
      OneMoreItem(|front|, bound + 1);
      assert Size(items[|front|]) <= bound;
    }
  }

  lemma OneMoreItem(n: nat, cost: nat)
    ensures n * cost + cost == (n + 1) * cost
  {
  }

  lemma RecordItemsSize(records: seq<RunRecord>)
    requires |records| <= MAX_HISTORY_LIMIT && WellFormedRecords(records)
    ensures ItemsSize(RecordItems(records)) <= 13_930
  {
    hide RecordJson, WellFormedRecord;
    var items := RecordItems(records);
    forall i | 0 <= i < |items| ensures Size(items[i]) <= 1392 {
      assert WellFormedRecord(records[i]);
      RecordSize(records[i]);
    }
    ItemsBound(items, 1392);
  }

  lemma JobSize(h: JobHistory)
    requires WellFormedJob(h)
    ensures Size(JobJson(h)) <= 14_730
  {
    var o1 := Empty.With(NameKey, Str(h.name));
    assert FieldsSize(o1) <= 778 by {
      EscapedAtMostSixfold(h.name);
      FieldCost(Empty, NameKey, Str(h.name), 770);
    }
    RecordItemsSize(h.records);
    FieldCost(o1, RecordsKey, Arr(RecordItems(h.records)), 13_932);
  }

  lemma EpochSize(e: Epoch)
    requires e.startedAt <= MAX_TIMESTAMP_UNIX_MS
    ensures Size(EpochJson(e)) <= 66
  {
    var o1 := Empty.With(EpochStartedAtKey, Num(e.startedAt));
    TimestampSize(e.startedAt);
    FieldCost(Empty, EpochStartedAtKey, Num(e.startedAt), 13);
    U64Size(e.nonce);
    FieldCost(o1, NonceKey, Num(e.nonce), 20);
  }

  lemma HeaderSize(h: History)
    requires h.generatedAt <= MAX_TIMESTAMP_UNIX_MS && h.epoch.startedAt <= MAX_TIMESTAMP_UNIX_MS
    ensures FieldsSize(HeaderFields(h)) <= 181
  {
    var o1 := Empty.With(SchemaVersionKey, Num(h.schemaVersion));
    var o2 := o1.With(GeneratedAtKey, Num(h.generatedAt));
    var o3 := o2.With(EpochKey, EpochJson(h.epoch));
    assert FieldsSize(o1) <= 29 by { SmallIntSize(h.schemaVersion); FieldCost(Empty, SchemaVersionKey, Num(h.schemaVersion), 11); }
    assert FieldsSize(o2) <= 66 by { TimestampSize(h.generatedAt); FieldCost(o1, GeneratedAtKey, Num(h.generatedAt), 13); }
    assert FieldsSize(o3) <= 141 by { EpochSize(h.epoch); FieldCost(o2, EpochKey, EpochJson(h.epoch), 66); }
    U64Size(h.historyRevision);
    FieldCost(o3, HistoryRevisionKey, Num(h.historyRevision), 20);
  }

  // ---- the theorem ----

  lemma WellFormedSize(h: History)
    requires WellFormed(h)
    ensures Size(HistoryJson(h)) <= 942_980
  {
    var items := JobItems(h.jobs);
    forall i | 0 <= i < |items| ensures Size(items[i]) <= 14_730 { JobSize(h.jobs[i]); }
    ItemsBound(items, 14_730);
    assert ItemsSize(items) <= MAX_JOBS * 14_731;
    HeaderSize(h);
    FieldCost(HeaderFields(h), JobsKey, Arr(items), 942_786);
  }

  /**
   * Every history document the validator accepts serializes within the client's body cap, whatever its
   * names, outputs, numbers and optional fields; the largest takes under 943,000 bytes.
   */
  lemma AcceptedFitsBudget(h: History)
    requires Violations(h) == []
    ensures !BodyExceedsBudget(h)
    ensures Utf8.Len(Write(HistoryJson(h))) <= 942_980
  {
    AcceptedIffWellFormed(h);
    WellFormedSize(h);
    WriteLen(HistoryJson(h));
  }
}
