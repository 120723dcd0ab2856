/**
 * The history gate: in every interleaving of remote and client steps, `needs_history` is false exactly
 * when the last applied document is the remote's history at the summary's epoch and revision.
 */
module CronGate {
  import opened Basics
  import opened SchedulerWire
  import opened CronModel
  import opened CronRemote

  /** A history the remote has held, under the key it was published with. */
  datatype Publication = Publication(epoch: Epoch, revision: u64, jobs: seq<JobHistory>)

  datatype World = World(
    remote: Remote,
    published: set<Publication>,
    client: SystemView,
    lastApplied: Option<Publication>)

  function Current(r: Remote): Publication {
    Publication(r.epoch, r.revision, r.histories)
  }

  function PublicationOf(h: History): Publication {
    Publication(h.epoch, h.historyRevision, h.jobs)
  }

  datatype Event =
    | Finish(index: nat, run: RunRecord)
    | Restart(epoch: Epoch, names: seq<string>, limit: nat)
    | ReadSummary(summary: Summary, now: u64)
    | ReadHistory(history: History, perJob: nat)
    | Fail(error: FetchError, at: u64)
    | NotServed
    | Forget

  /** Restarts bring a fresh epoch. Reads return documents the remote really had, however late they arrive. */
  ghost predicate Enabled(w: World, e: Event) {
    match e
    case Restart(epoch, _, _) => forall p :: p in w.published ==> p.epoch != epoch
    case ReadSummary(s, _) => exists p :: p in w.published && p.epoch == s.epoch && p.revision == s.historyRevision
    case ReadHistory(h, _) => PublicationOf(h) in w.published
    case _ => true
  }

  ghost function WithRemote(w: World, r: Remote): World {
    w.(remote := r, published := w.published + {Current(r)})
  }

  ghost function Next(w: World, e: Event): World {
    match e
    case Finish(index, run) => WithRemote(w, RecordTerminal(w.remote, index, run))
    case Restart(epoch, names, limit) => WithRemote(w, Start(epoch, names, limit))
    case ReadSummary(s, now) => w.(client := SummaryApplied(w.client, s, now))
    case ReadHistory(h, perJob) =>
      w.(client := HistoryApplied(w.client, h, perJob), lastApplied := Some(PublicationOf(h)))
    case Fail(error, at) => w.(client := MarkedFailed(w.client, error, at))
    case NotServed => w.(client := MarkedUnsupported(w.client))
    case Forget => w.(client := UnknownSystem, lastApplied := None)
  }

  ghost function Begin(r: Remote): World {
    World(r, {Current(r)}, UnknownSystem, None)
  }

  ghost predicate IsRun(start: World, events: seq<Event>) {
    events == [] ||
    (IsRun(start, events[..|events| - 1]) && Enabled(After(start, events[..|events| - 1]), events[|events| - 1]))
  }

  ghost function After(start: World, events: seq<Event>): World {
    if events == [] then start else Next(After(start, events[..|events| - 1]), events[|events| - 1])
  }

  // ---- what every interleaving keeps ----

  predicate SameKey(p: Publication, q: Publication) {
    p.epoch == q.epoch && p.revision == q.revision
  }

  /** Below the saturation point a key names one history, and the current lifetime has published no later revision. */
  ghost predicate KeysNameHistories(w: World) {
    && Current(w.remote) in w.published
    && (forall p, q :: p in w.published && q in w.published && SameKey(p, q) && p.revision < U64_MAX ==> p.jobs == q.jobs)
    && (forall p :: p in w.published && p.epoch == w.remote.epoch ==> p.revision <= w.remote.revision)
  }

  /** The client's gate state is the key of the last applied document, which the remote really published. */
  ghost predicate GateTracksApplied(w: World) {
    match w.lastApplied
    case None => w.client.epoch == None && w.client.historyRevision == None
    case Some(p) =>
      p in w.published && w.client.epoch == Some(p.epoch) && w.client.historyRevision == Some(p.revision)
  }

  lemma NextKeeps(w: World, e: Event)
    requires KeysNameHistories(w) && GateTracksApplied(w) && Enabled(w, e)
    ensures KeysNameHistories(Next(w, e)) && GateTracksApplied(Next(w, e))
  {
  }

  lemma {:induction false} EveryRunKeeps(r: Remote, events: seq<Event>)
    requires IsRun(Begin(r), events)
    ensures KeysNameHistories(After(Begin(r), events)) && GateTracksApplied(After(Begin(r), events))
  {
    if events != [] {
      EveryRunKeeps(r, events[..|events| - 1]);
      NextKeeps(After(Begin(r), events[..|events| - 1]), events[|events| - 1]);
    }
  }

  /** The last applied document is what the remote held, every time it held `s`'s epoch and revision. */
  ghost predicate HoldsHistoryAt(w: World, s: Summary) {
    && w.lastApplied.Some?
    && w.lastApplied.value.epoch == s.epoch && w.lastApplied.value.revision == s.historyRevision
    && forall p :: p in w.published && p.epoch == s.epoch && p.revision == s.historyRevision ==>
         p.jobs == w.lastApplied.value.jobs
  }

  lemma GateIsExactAt(w: World, s: Summary)
    requires KeysNameHistories(w) && GateTracksApplied(w) && s.historyRevision < U64_MAX
    ensures !NeedsHistory(w.client, s) <==> w.client.capability == Supported && HoldsHistoryAt(w, s)
  {
  }

  // ---- the client's state is a function of the events ----

  /** The last event that decides whether the retained data is known to be current. */
  function StaleBecause(events: seq<Event>): Option<FetchError> {
    if events == [] then None
    else
      match events[|events| - 1]
      case Fail(error, _) => Some(error)
      case ReadSummary(_, _) => None
      case NotServed => None
      case Forget => None
      case _ => StaleBecause(events[..|events| - 1])
  }

  /** What the routes last answered: an error or a history document says nothing about them. */
  function LastAnswer(events: seq<Event>): Capability {
    if events == [] then Unknown
    else
      match events[|events| - 1]
      case ReadSummary(_, _) => Supported
      case NotServed => Unsupported
      case Forget => Unknown
      case _ => LastAnswer(events[..|events| - 1])
  }

  /** The last document read since the system was last forgotten. */
  function LastHistory(events: seq<Event>): Option<History> {
    if events == [] then None
    else
      match events[|events| - 1]
      case ReadHistory(h, _) => Some(h)
      case Forget => None
      case _ => LastHistory(events[..|events| - 1])
  }

  function LastSummary(events: seq<Event>): Option<Summary> {
    if events == [] then None
    else
      match events[|events| - 1]
      case ReadSummary(s, _) => Some(s)
      case NotServed => None
      case Forget => None
      case _ => LastSummary(events[..|events| - 1])
  }

  function LastAttempt(events: seq<Event>, successesOnly: bool): Option<u64> {
    if events == [] then None
    else
      match events[|events| - 1]
      case ReadSummary(_, now) => Some(now)
      case Fail(_, at) => if successesOnly then LastAttempt(events[..|events| - 1], successesOnly) else Some(at)
      case Forget => None
      case _ => LastAttempt(events[..|events| - 1], successesOnly)
  }

  /**
   * Every field but the jobs is a function of the reads so far: one failure marks the data stale without erasing
   * the summary, only a later answer clears the mark, and the gate's key is that of the last document.
   */
  lemma {:induction false} ClientReflectsReads(r: Remote, events: seq<Event>)
    ensures var w := After(Begin(r), events);
            var c, read := w.client, LastHistory(events);
            && c.capability == LastAnswer(events)
            && c.epoch == (if read.None? then None else Some(read.value.epoch))
            && c.historyRevision == (if read.None? then None else Some(read.value.historyRevision))
            && w.lastApplied == (if read.None? then None else Some(Publication(read.value.epoch, read.value.historyRevision, read.value.jobs)))
            && c.lastError == StaleBecause(events)
            && c.summary == LastSummary(events)
            && c.lastAttempt == LastAttempt(events, false)
            && c.lastSuccess == LastAttempt(events, true)
  {
    if events != [] {
      hide EvictStale, MergeJobs, RecordTerminal, Start, Current;
      ClientReflectsReads(r, events[..|events| - 1]);
    }
  }

  // ---- the theorem ----

  /**
   * Fetch-gate safety and precision. After any interleaving, for any summary below the saturated revision,
   * the gate is closed if and only if the routes last answered with a summary and the last document read is
   * the remote's history at that summary's epoch and revision.
   */
  lemma GateIsExact(r: Remote, events: seq<Event>, s: Summary)
    requires IsRun(Begin(r), events) && s.historyRevision < U64_MAX
    ensures var w := After(Begin(r), events);
            !NeedsHistory(w.client, s) <==> LastAnswer(events) == Supported && HoldsHistoryAt(w, s)
  {
    EveryRunKeeps(r, events);
    ClientReflectsReads(r, events);
    GateIsExactAt(After(Begin(r), events), s);
  }


  // ---- the saturated revision ----

  ghost function Finishes(run: RunRecord, n: nat): seq<Event> {
    seq(n, _ => Finish(0, run))
  }

  /** A client that never read anything, and a remote with one job, a one-record ring and `n` finished runs. */
  ghost predicate OnlyFinished(w: World, epoch: Epoch, n: nat) {
    && w.client == UnknownSystem
    && w.remote.limit == 1 && |w.remote.histories| == 1 && w.remote.epoch == epoch
    && w.remote.revision == (if n < U64_MAX then n else U64_MAX)
    && Current(w.remote) in w.published
  }

  lemma OneMoreFinish(w: World, epoch: Epoch, n: nat, run: RunRecord)
    requires OnlyFinished(w, epoch, n)
    ensures OnlyFinished(Next(w, Finish(0, run)), epoch, n + 1)
  {
  }

  lemma NoneFinished(epoch: Epoch, name: string)
    ensures OnlyFinished(Begin(Start(epoch, [name], 1)), epoch, 0)
  {
  }

  lemma {:induction false} ManyFinishes(epoch: Epoch, name: string, run: RunRecord, n: nat)
    ensures IsRun(Begin(Start(epoch, [name], 1)), Finishes(run, n))
    ensures OnlyFinished(After(Begin(Start(epoch, [name], 1)), Finishes(run, n)), epoch, n)
    decreases n
  {
    hide OnlyFinished, Start, Begin;
    if n == 0 {
      NoneFinished(epoch, name);
    } else {
      ManyFinishes(epoch, name, run, n - 1);
      assert Finishes(run, n)[..n - 1] == Finishes(run, n - 1);
      OneMoreFinish(After(Begin(Start(epoch, [name], 1)), Finishes(run, n - 1)), epoch, n - 1, run);
    }
  }

  lemma {:induction false} OneMore(start: World, events: seq<Event>, e: Event)
    requires IsRun(start, events) && Enabled(After(start, events), e)
    ensures IsRun(start, events + [e])
    ensures After(start, events + [e]) == Next(After(start, events), e)
  {
    assert (events + [e])[..|events|] == events;
  }

  ghost function SummaryAt(r: Remote): Summary {
    Summary(SCHEMA_VERSION, 0, r.epoch, r.revision, [])
  }

  ghost function HistoryAt(r: Remote): History {
    History(SCHEMA_VERSION, 0, r.epoch, r.revision, r.histories)
  }

  /** Another run of job 0, unlike the one its one-record ring holds. */
  ghost function AnotherRun(r: Remote, run: RunRecord): RunRecord
    requires |r.histories| == 1
  {
    var ring := r.histories[0].records;
    run.(delay := if ring != [] && ring[0].delay == 0 then 1 else 0)
  }

  lemma SaturatedStep(w: World, run: RunRecord)
    requires w.remote.limit == 1 && |w.remote.histories| == 1 && w.remote.revision == U64_MAX
    ensures var s := SummaryAt(w.remote);
            var fetched := Next(Next(w, ReadSummary(s, 0)), ReadHistory(HistoryAt(w.remote), 1));
            var after := Next(fetched, Finish(0, AnotherRun(w.remote, run)));
            !NeedsHistory(after.client, s) && !HoldsHistoryAt(after, s)
  {
    var s, other := SummaryAt(w.remote), AnotherRun(w.remote, run);
    var supported := SummaryApplied(w.client, s, 0);
    GateFields(supported, HistoryAt(w.remote), 1);
    SaturatedRingMoves(w.remote, other);
    hide HistoryApplied, RecordTerminal, AnotherRun;
    var next := RecordTerminal(w.remote, 0, other);
    var fetched := Next(Next(w, ReadSummary(s, 0)), ReadHistory(HistoryAt(w.remote), 1));
    var after := Next(fetched, Finish(0, other));
    assert after.client == HistoryApplied(supported, HistoryAt(w.remote), 1);
    assert after.lastApplied == Some(Current(w.remote));
    assert Current(next) in after.published;
  }

  lemma GateFields(s: SystemView, h: History, perJob: nat)
    ensures var after := HistoryApplied(s, h, perJob);
            after.capability == s.capability && after.epoch == Some(h.epoch) && after.historyRevision == Some(h.historyRevision)
  {
  }

  lemma SaturatedRingMoves(r: Remote, other: RunRecord)
    requires r.limit == 1 && |r.histories| == 1 && r.revision == U64_MAX
    requires r.histories[0].records != [] ==> r.histories[0].records[0].delay != other.delay
    ensures var next := RecordTerminal(r, 0, other);
            next.epoch == r.epoch && next.revision == U64_MAX && next.histories != r.histories
  {
    var next := RecordTerminal(r, 0, other);
    assert next.histories[0].records == [other.(sequence := r.nextSequence)];
    assert next.histories[0] != r.histories[0];
  }

  /**
   * The bound is needed: the observer's revision saturates, so at the largest revision there is a run in
   * which the gate is closed while the remote has gone on to another history.
   */
  lemma GateFailsWhenSaturated(epoch: Epoch, name: string, run: RunRecord)
    ensures exists events, s: Summary ::
              var w := After(Begin(Start(epoch, [name], 1)), events);
              && IsRun(Begin(Start(epoch, [name], 1)), events)
              && s.historyRevision == U64_MAX
              && !NeedsHistory(w.client, s) && !HoldsHistoryAt(w, s)
  {
    hide HistoryApplied, RecordTerminal, HoldsHistoryAt, NeedsHistory, SummaryApplied;
    var start := Begin(Start(epoch, [name], 1));
    var events := Finishes(run, U64_MAX);
    ManyFinishes(epoch, name, run, U64_MAX);
    var w := After(start, events);
    var e1, e2, e3 := ReadSummary(SummaryAt(w.remote), 0), ReadHistory(HistoryAt(w.remote), 1), Finish(0, AnotherRun(w.remote, run));
    OneMore(start, events, e1);
    OneMore(start, events + [e1], e2);
    OneMore(start, events + [e1] + [e2], e3);
    SaturatedStep(w, run);
    assert SummaryAt(w.remote).historyRevision == U64_MAX;
    assert IsRun(start, events + [e1] + [e2] + [e3]);
  }
}
