/** The field names of the scheduler history document. */
module WireKeys {

  datatype Key =
    | SchemaVersionKey | GeneratedAtKey | EpochKey | HistoryRevisionKey | JobsKey
    | EpochStartedAtKey | NonceKey
    | NameKey | RecordsKey
    | SequenceKey | ScheduledKey | StartedKey | FinishedKey | OutcomeKey | ExitCodeKey | SignalKey
    | DurationKey | DelayKey | CoalescedKey | StdoutKey | StderrKey
    | TextKey | TruncatedKey

  function Spelling(k: Key): string {
    match k
    case SchemaVersionKey => "schema_version"
    case GeneratedAtKey => "generated_at_unix_ms"
    case EpochKey => "epoch"
    case HistoryRevisionKey => "history_revision"
    case JobsKey => "jobs"
    case EpochStartedAtKey => "started_at_unix_ms"
    case NonceKey => "nonce"
    case NameKey => "name"
    case RecordsKey => "records"
    case SequenceKey => "sequence"
    case ScheduledKey => "scheduled_unix_ms"
    case StartedKey => "started_unix_ms"
    case FinishedKey => "finished_unix_ms"
    case OutcomeKey => "outcome"
    case ExitCodeKey => "exit_code"
    case SignalKey => "signal"
    case DurationKey => "duration_ms"
    case DelayKey => "delay_ms"
    case CoalescedKey => "coalesced"
    case StdoutKey => "stdout"
    case StderrKey => "stderr"
    case TextKey => "text"
    case TruncatedKey => "truncated"
  }

  /** A string of lower-case letters and underscores, which JSON writes as it stands. */
  predicate Plain(s: string) {
    forall i :: 0 <= i < |s| ==> s[i] == '_' || 'a' <= s[i] <= 'z'
  }

  function KeyLen(k: Key): nat {
    match k
    case SchemaVersionKey => 14
    case GeneratedAtKey => 20
    case EpochKey => 5
    case HistoryRevisionKey => 16
    case JobsKey => 4
    case EpochStartedAtKey => 18
    case NonceKey => 5
    case NameKey => 4
    case RecordsKey => 7
    case SequenceKey => 8
    case ScheduledKey => 17
    case StartedKey => 15
    case FinishedKey => 16
    case OutcomeKey => 7
    case ExitCodeKey => 9
    case SignalKey => 6
    case DurationKey => 11
    case DelayKey => 8
    case CoalescedKey => 9
    case StdoutKey => 6
    case StderrKey => 6
    case TextKey => 4
    case TruncatedKey => 9
  }

  lemma DocumentKeySpelled(k: Key)
    requires k.SchemaVersionKey? || k.GeneratedAtKey? || k.EpochKey? || k.HistoryRevisionKey? || k.JobsKey? ||
             k.EpochStartedAtKey? || k.NonceKey? || k.NameKey? || k.RecordsKey?
    ensures |Spelling(k)| == KeyLen(k) && Plain(Spelling(k))
  {
  }

  lemma RecordKeySpelled(k: Key)
    requires k.SequenceKey? || k.ScheduledKey? || k.StartedKey? || k.FinishedKey? || k.OutcomeKey? || k.ExitCodeKey? || k.SignalKey?
    ensures |Spelling(k)| == KeyLen(k) && Plain(Spelling(k))
  {
  }

  lemma KeySpelled(k: Key)
    ensures |Spelling(k)| == KeyLen(k) && Plain(Spelling(k))
  {
    if k.SchemaVersionKey? || k.GeneratedAtKey? || k.EpochKey? || k.HistoryRevisionKey? || k.JobsKey? ||
       k.EpochStartedAtKey? || k.NonceKey? || k.NameKey? || k.RecordsKey? {
      DocumentKeySpelled(k);
    } else if k.SequenceKey? || k.ScheduledKey? || k.StartedKey? || k.FinishedKey? || k.OutcomeKey? || k.ExitCodeKey? || k.SignalKey? {
      RecordKeySpelled(k);
    }
  }
}
