/** Reading a history document back from its body: every field arrives under its own key. */
module SchedulerReader {
  import opened Basics
  import opened SchedulerWire
  import opened JsonText
  import opened WireKeys
  import opened SchedulerBudget
  import JsonReader

  // ---- fields ----

  function Get(o: Object, key: Key): Option<Json> {
    match o
    case Empty => None
    case Put(rest, k, v) => if k == key then Some(v) else Get(rest, key)
  }

  function NumAt(o: Object, key: Key): Option<int> {
    match Get(o, key)
    case Some(Num(v)) => Some(v)
    case _ => None
  }

  function BoolAt(o: Object, key: Key): Option<bool> {
    match Get(o, key)
    case Some(Bool(b)) => Some(b)
    case _ => None
  }

  function StrAt(o: Object, key: Key): Option<string> {
    match Get(o, key)
    case Some(Str(s)) => Some(s)
    case _ => None
  }

  function ObjAt(o: Object, key: Key): Object {
    match Get(o, key)
    case Some(Obj(fields)) => fields
    case _ => Empty
  }

  function ArrAt(o: Object, key: Key): Option<seq<Json>> {
    match Get(o, key)
    case Some(Arr(items)) => Some(items)
    case _ => None
  }

  predicate Within(x: Option<int>, low: int, high: int) {
    x.Some? && low <= x.value <= high
  }

  predicate AbsentOrWithin(x: Option<int>, low: int, high: int) {
    x.None? || low <= x.value <= high
  }

  // ---- documents ----

  function OutcomeFrom(name: string): Option<Outcome> {
    if name == "success" then Some(Success)
    else if name == "failed" then Some(Failed)
    else if name == "spawn_failed" then Some(SpawnFailed)
    else if name == "wait_failed" then Some(WaitFailed)
    else if name == "load_expired" then Some(LoadExpired)
    else if name == "cancelled" then Some(Cancelled)
    else None
  }

  function OutputFrom(o: Object): Option<Output> {
    var text, truncated := StrAt(o, TextKey), BoolAt(o, TruncatedKey);
    if text.None? || truncated.None? then None else Some(Output(text.value, truncated.value))
  }

  /** The numbers of a record; an absent optional one is `None`. */
  predicate NumbersFit(o: Object) {
    && Within(NumAt(o, SequenceKey), 0, U64_MAX) && Within(NumAt(o, ScheduledKey), 0, U64_MAX)
    && AbsentOrWithin(NumAt(o, StartedKey), 0, U64_MAX) && Within(NumAt(o, FinishedKey), 0, U64_MAX)
    && AbsentOrWithin(NumAt(o, ExitCodeKey), -0x8000_0000, 0x7FFF_FFFF) && AbsentOrWithin(NumAt(o, SignalKey), 0, 0xFFFF_FFFF)
    && AbsentOrWithin(NumAt(o, DurationKey), 0, U64_MAX) && Within(NumAt(o, DelayKey), 0, U64_MAX)
  }

  function RecordFrom(o: Object): Option<RunRecord> {
    if !NumbersFit(o) || StrAt(o, OutcomeKey).None? || BoolAt(o, CoalescedKey).None? then None
    else
      var outcome := OutcomeFrom(StrAt(o, OutcomeKey).value);
      var stdout, stderr := OutputFrom(ObjAt(o, StdoutKey)), OutputFrom(ObjAt(o, StderrKey));
      if outcome.None? || stdout.None? || stderr.None? then None
      else
        Some(RunRecord(NumAt(o, SequenceKey).value, NumAt(o, ScheduledKey).value, NumAt(o, StartedKey), NumAt(o, FinishedKey).value,
                       outcome.value, NumAt(o, ExitCodeKey), NumAt(o, SignalKey), NumAt(o, DurationKey), NumAt(o, DelayKey).value,
                       BoolAt(o, CoalescedKey).value, stdout.value, stderr.value))
  }

  function RecordsFrom(items: seq<Json>): Option<seq<RunRecord>> {
    if items == [] then Some([])
    else
      var front, last := RecordsFrom(items[..|items| - 1]), items[|items| - 1];
      if front.None? || !last.Obj? || RecordFrom(last.fields).None? then None
      else Some(front.value + [RecordFrom(last.fields).value])
  }

  function JobFrom(o: Object): Option<JobHistory> {
    var name, items := StrAt(o, NameKey), ArrAt(o, RecordsKey);
    if name.None? || items.None? || RecordsFrom(items.value).None? then None
    else Some(JobHistory(name.value, RecordsFrom(items.value).value))
  }

  function JobsFrom(items: seq<Json>): Option<seq<JobHistory>> {
    if items == [] then Some([])
    else
      var front, last := JobsFrom(items[..|items| - 1]), items[|items| - 1];
      if front.None? || !last.Obj? || JobFrom(last.fields).None? then None
      else Some(front.value + [JobFrom(last.fields).value])
  }

  function EpochFrom(o: Object): Option<Epoch> {
    var startedAt, nonce := NumAt(o, EpochStartedAtKey), NumAt(o, NonceKey);
    if !Within(startedAt, 0, U64_MAX) || !Within(nonce, 0, U64_MAX) then None else Some(Epoch(startedAt.value, nonce.value))
  }

  function HistoryFrom(o: Object): Option<History> {
    var version, generatedAt, revision := NumAt(o, SchemaVersionKey), NumAt(o, GeneratedAtKey), NumAt(o, HistoryRevisionKey);
    var epoch, items := EpochFrom(ObjAt(o, EpochKey)), ArrAt(o, JobsKey);
    if !Within(version, 0, 0xFFFF) || !Within(generatedAt, 0, U64_MAX) || !Within(revision, 0, U64_MAX) then None
    else if epoch.None? || items.None? || JobsFrom(items.value).None? then None
    else Some(History(version.value, generatedAt.value, epoch.value, revision.value, JobsFrom(items.value).value))
  }

  /** The document a body stands for. */
  function Parse(body: string): Option<History> {
    match JsonReader.ReadValue(body)
    case Some((Obj(fields), rest)) => if rest == "" then HistoryFrom(fields) else None
    case _ => None
  }

  // ---- reading undoes serializing ----

  lemma OutcomeReadsBack(o: Outcome)
    ensures OutcomeFrom(OutcomeName(o)) == Some(o)
  {
  }

  lemma GetWith(o: Object, k: Key, v: Json, key: Key)
    ensures Get(o.With(k, v), key) == if k == key then Some(v) else Get(o, key)
  {
  }

  lemma GetWithOpt(o: Object, k: Key, v: Option<Json>, key: Key)
    ensures Get(o.WithOpt(k, v), key) == if k == key && v.Some? then v else Get(o, key)
  {
  }

  lemma TimeFieldsReadBack(r: RunRecord, key: Key)
    ensures Get(TimeFields(r), key) ==
              match key
              case SequenceKey => Some(Num(r.sequence))
              case ScheduledKey => Some(Num(r.scheduled))
              case StartedKey => OptNum(r.started)
              case FinishedKey => Some(Num(r.finished))
              case _ => None
  {
    hide Get, OptNum;
    assert Get(Empty, key) == None by { GetEmpty(key); }
    var o1 := Empty.With(SequenceKey, Num(r.sequence));
    var o2 := o1.With(ScheduledKey, Num(r.scheduled));
    var o3 := o2.WithOpt(StartedKey, OptNum(r.started));
    GetWith(Empty, SequenceKey, Num(r.sequence), key);
    GetWith(o1, ScheduledKey, Num(r.scheduled), key);
    GetWithOpt(o2, StartedKey, OptNum(r.started), key);
    GetWith(o3, FinishedKey, Num(r.finished), key);
  }

  lemma GetEmpty(key: Key)
    ensures Get(Empty, key) == None
  {
  }

  lemma StatusFieldsReadBack(o: Object, r: RunRecord, key: Key)
    requires Get(o, OutcomeKey).None? && Get(o, ExitCodeKey).None? && Get(o, SignalKey).None? && Get(o, DurationKey).None?
    ensures Get(StatusFields(o, r), key) ==
              match key
              case OutcomeKey => Some(Str(OutcomeName(r.outcome)))
              case ExitCodeKey => OptNum(r.exitCode)
              case SignalKey => OptNum(r.signal)
              case DurationKey => OptNum(r.duration)
              case _ => Get(o, key)
  {
    hide Get, OptNum, OutcomeName;
    var o1 := o.With(OutcomeKey, Str(OutcomeName(r.outcome)));
    var o2 := o1.WithOpt(ExitCodeKey, OptNum(r.exitCode));
    var o3 := o2.WithOpt(SignalKey, OptNum(r.signal));
    GetWith(o, OutcomeKey, Str(OutcomeName(r.outcome)), key);
    GetWithOpt(o1, ExitCodeKey, OptNum(r.exitCode), key);
    GetWithOpt(o2, SignalKey, OptNum(r.signal), key);
    GetWithOpt(o3, DurationKey, OptNum(r.duration), key);
  }

  lemma OutputFieldsReadBack(o: Object, r: RunRecord, key: Key)
    ensures Get(OutputFields(o, r), key) ==
              match key
              case DelayKey => Some(Num(r.delay))
              case CoalescedKey => Some(Bool(r.coalesced))
              case StdoutKey => Some(OutputJson(r.stdout))
              case StderrKey => Some(OutputJson(r.stderr))
              case _ => Get(o, key)
  {
    hide Get, OutputJson;
    var o1 := o.With(DelayKey, Num(r.delay));
    var o2 := o1.With(CoalescedKey, Bool(r.coalesced));
    var o3 := o2.With(StdoutKey, OutputJson(r.stdout));
    GetWith(o, DelayKey, Num(r.delay), key);
    GetWith(o1, CoalescedKey, Bool(r.coalesced), key);
    GetWith(o2, StdoutKey, OutputJson(r.stdout), key);
    GetWith(o3, StderrKey, OutputJson(r.stderr), key);
  }

  lemma OutputReadsBack(o: Output)
    ensures OutputJson(o).Obj? && OutputFrom(OutputJson(o).fields) == Some(o)
  {
    GetWith(Empty, TextKey, Str(o.text), TextKey);
    GetWith(Empty.With(TextKey, Str(o.text)), TruncatedKey, Bool(o.truncated), TextKey);
  }

  /** Every field of a record is found under its own key, and an option that is `None` under none. */
  lemma RecordFieldsReadBack(r: RunRecord, o: Object, key: Key)
    requires Obj(o) == RecordJson(r)
    ensures Get(o, key) ==
              match key
              case SequenceKey => Some(Num(r.sequence))
              case ScheduledKey => Some(Num(r.scheduled))
              case StartedKey => OptNum(r.started)
              case FinishedKey => Some(Num(r.finished))
              case OutcomeKey => Some(Str(OutcomeName(r.outcome)))
              case ExitCodeKey => OptNum(r.exitCode)
              case SignalKey => OptNum(r.signal)
              case DurationKey => OptNum(r.duration)
              case DelayKey => Some(Num(r.delay))
              case CoalescedKey => Some(Bool(r.coalesced))
              case StdoutKey => Some(OutputJson(r.stdout))
              case StderrKey => Some(OutputJson(r.stderr))
              case _ => None
  {
    hide TimeFields, StatusFields, OutputFields, OutputJson, OutcomeName, OptNum;
    var times := TimeFields(r);
    TimeFieldsReadBack(r, key);
    TimeFieldsReadBack(r, OutcomeKey);
    TimeFieldsReadBack(r, ExitCodeKey);
    TimeFieldsReadBack(r, SignalKey);
    TimeFieldsReadBack(r, DurationKey);
    StatusFieldsReadBack(times, r, key);
    OutputFieldsReadBack(StatusFields(times, r), r, key);
  }

  lemma RecordNumbers(r: RunRecord, o: Object)
    requires Obj(o) == RecordJson(r)
    ensures NumAt(o, SequenceKey) == Some(r.sequence) && NumAt(o, ScheduledKey) == Some(r.scheduled)
    ensures NumAt(o, StartedKey) == r.started && NumAt(o, FinishedKey) == Some(r.finished)
    ensures NumAt(o, ExitCodeKey) == r.exitCode && NumAt(o, SignalKey) == r.signal
    ensures NumAt(o, DurationKey) == r.duration && NumAt(o, DelayKey) == Some(r.delay)
  {
    hide RecordJson, Get;
    RecordFieldsReadBack(r, o, SequenceKey);
    RecordFieldsReadBack(r, o, ScheduledKey);
    RecordFieldsReadBack(r, o, StartedKey);
    RecordFieldsReadBack(r, o, FinishedKey);
    RecordFieldsReadBack(r, o, ExitCodeKey);
    RecordFieldsReadBack(r, o, SignalKey);
    RecordFieldsReadBack(r, o, DurationKey);
    RecordFieldsReadBack(r, o, DelayKey);
  }

  lemma RecordTexts(r: RunRecord, o: Object)
    requires Obj(o) == RecordJson(r)
    ensures StrAt(o, OutcomeKey) == Some(OutcomeName(r.outcome)) && BoolAt(o, CoalescedKey) == Some(r.coalesced)
    ensures OutputFrom(ObjAt(o, StdoutKey)) == Some(r.stdout) && OutputFrom(ObjAt(o, StderrKey)) == Some(r.stderr)
  {
    hide RecordJson, Get, OutputFrom, OutputJson, OutcomeName;
    RecordFieldsReadBack(r, o, OutcomeKey);
    RecordFieldsReadBack(r, o, CoalescedKey);
    RecordFieldsReadBack(r, o, StdoutKey);
    RecordFieldsReadBack(r, o, StderrKey);
    OutputReadsBack(r.stdout);
    OutputReadsBack(r.stderr);
  }

  lemma RecordReadsBack(r: RunRecord)
    ensures RecordJson(r).Obj? && RecordFrom(RecordJson(r).fields) == Some(r)
  {
    hide RecordJson, NumAt, StrAt, BoolAt, ObjAt, OutputFrom, OutcomeFrom, OutcomeName;
    RecordIsObject(r);
    var o := RecordJson(r).fields;
    RecordNumbers(r, o);
    RecordTexts(r, o);
    OutcomeReadsBack(r.outcome);
  }

  lemma RecordIsObject(r: RunRecord)
    ensures RecordJson(r).Obj?
  {
  }

  lemma {:induction false} RecordsReadBack(records: seq<RunRecord>)
    ensures RecordsFrom(RecordItems(records)) == Some(records)
  {
    hide RecordJson, RecordFrom;
    if records != [] {
      var front, last := records[..|records| - 1], records[|records| - 1];
      RecordsReadBack(front);
      RecordReadsBack(last);
      assert RecordItems(records)[..|front|] == RecordItems(front);
      assert front + [last] == records;
    }
  }

  lemma JobReadsBack(h: JobHistory)
    ensures JobJson(h).Obj? && JobFrom(JobJson(h).fields) == Some(h)
  {
    hide RecordItems, RecordsFrom;
    RecordsReadBack(h.records);
    GetWith(Empty, NameKey, Str(h.name), NameKey);
    GetWith(Empty.With(NameKey, Str(h.name)), RecordsKey, Arr(RecordItems(h.records)), NameKey);
  }

  lemma EpochReadsBack(e: Epoch)
    ensures EpochJson(e).Obj? && EpochFrom(EpochJson(e).fields) == Some(e)
  {
    GetWith(Empty, EpochStartedAtKey, Num(e.startedAt), EpochStartedAtKey);
    GetWith(Empty.With(EpochStartedAtKey, Num(e.startedAt)), NonceKey, Num(e.nonce), EpochStartedAtKey);
  }

  lemma HistoryFieldsReadBack(h: History, o: Object, key: Key)
    requires Obj(o) == HistoryJson(h)
    ensures Get(o, key) ==
              match key
              case SchemaVersionKey => Some(Num(h.schemaVersion))
              case GeneratedAtKey => Some(Num(h.generatedAt))
              case EpochKey => Some(EpochJson(h.epoch))
              case HistoryRevisionKey => Some(Num(h.historyRevision))
              case JobsKey => Some(Arr(JobItems(h.jobs)))
              case _ => None
  {
    hide Get, EpochJson, JobItems;
    GetEmpty(key);
    var o1 := Empty.With(SchemaVersionKey, Num(h.schemaVersion));
    var o2 := o1.With(GeneratedAtKey, Num(h.generatedAt));
    var o3 := o2.With(EpochKey, EpochJson(h.epoch));
    GetWith(Empty, SchemaVersionKey, Num(h.schemaVersion), key);
    GetWith(o1, GeneratedAtKey, Num(h.generatedAt), key);
    GetWith(o2, EpochKey, EpochJson(h.epoch), key);
    GetWith(o3, HistoryRevisionKey, Num(h.historyRevision), key);
    GetWith(HeaderFields(h), JobsKey, Arr(JobItems(h.jobs)), key);
  }

  lemma {:induction false} JobsReadBack(jobs: seq<JobHistory>)
    ensures JobsFrom(JobItems(jobs)) == Some(jobs)
  {
    hide JobJson, JobFrom;
    if jobs != [] {
      var front, last := jobs[..|jobs| - 1], jobs[|jobs| - 1];
      JobsReadBack(front);
      JobReadsBack(last);
      assert JobItems(jobs)[..|front|] == JobItems(front);
      assert front + [last] == jobs;
    }
  }

  lemma HistoryReadsBack(h: History)
    ensures HistoryJson(h).Obj? && HistoryFrom(HistoryJson(h).fields) == Some(h)
  {
    hide JobItems, JobsFrom, Get, EpochJson, EpochFrom;
    var o := HeaderFields(h).With(JobsKey, Arr(JobItems(h.jobs)));
    hide HistoryJson;
    assert HistoryJson(h) == Obj(o) by { HistoryIsObject(h); }
    HistoryFieldsReadBack(h, o, SchemaVersionKey);
    HistoryFieldsReadBack(h, o, GeneratedAtKey);
    HistoryFieldsReadBack(h, o, EpochKey);
    HistoryFieldsReadBack(h, o, HistoryRevisionKey);
    HistoryFieldsReadBack(h, o, JobsKey);
    JobsReadBack(h.jobs);
    EpochReadsBack(h.epoch);
  }

  lemma HistoryIsObject(h: History)
    ensures HistoryJson(h) == Obj(HeaderFields(h).With(JobsKey, Arr(JobItems(h.jobs))))
  {
  }

  /** Reading the body undoes serializing, for every document: the measured text is the whole document. */
  lemma ParseUndoesSerialize(h: History)
    ensures Parse(Write(HistoryJson(h))) == Some(h)
  {
    hide HistoryJson, HistoryFrom;
    HistoryReadsBack(h);
    JsonReader.ReadWritten(HistoryJson(h), "");
    assert Write(HistoryJson(h)) + "" == Write(HistoryJson(h));
  }
}
