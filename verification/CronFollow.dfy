/** Whole runs of a remote and the cache, watched from one job of one system. */
module CronFollow {
  import opened Basics
  import opened SchedulerWire
  import opened CronModel
  import opened CronMerge
  import opened CronEviction
  import opened CronFleet
  import opened CronRemote
  import opened CronLog
  import opened CronRepeat

  /** The job being watched. */
  datatype Watch = Watch(id: string, name: string)

  datatype World = World(
    remote: Remote,
    at: nat,                      // where the remote keeps the watched job
    epochs: set<Epoch>,           // every epoch used so far
    lifetime: seq<RunRecord>,     // every run the watched job finished in the current lifetime
    seen: nat,                    // how many of those had finished at the last fetch
    cache: CacheView,
    served: seq<CronRecord>)      // everything fetched for the watched job, repeats included

  /**
   * Serving and applying a document is one event: remote steps in between do not touch the cache, so they can
   * be placed after it. A fetch that is lost is no event at all.
   */
  datatype Event =
    | Finish(index: nat, run: RunRecord)
    | Restart(epoch: Epoch, names: seq<string>, limit: nat, at: nat)
    | Fetch(generatedAt: u64)
    | Other(op: Op)

  function Document(r: Remote, generatedAt: u64): History {
    History(SCHEMA_VERSION, generatedAt, r.epoch, r.revision, r.histories)
  }

  /**
   * The document costs the watched job nothing. If it is for the job's own system, the job is listed and within the
   * 64 there; and whatever the global ceiling takes, from other jobs, is ahead of the job's first record.
   */
  ghost predicate Spares(x: Watch, c: CacheView, id: string, h: History) {
    var s, shelf, k := SystemOr(c.systems, id), ShelfOf(Merged(c, id, h)), JobKey(x.id, x.name);
    && (id == x.id ==> Remains(NamesAfter(s, h), s.summary, x.name))
    && (k in shelf && shelf[k] != [] ==> Spared(shelf, c.totalCap, k, 0))
  }

  /** The watched job's system stays in the fleet, and documents of other systems take nothing from it. */
  ghost predicate Undisturbed(x: Watch, c: CacheView, op: Op) {
    match op
    case ApplySummary(_, _, _) => true
    case ApplyHistory(id, h) => id != x.id && Spares(x, c, id, h)
    case MarkFailed(_, _, _) => true
    case MarkUnsupported(_) => true
    case ResetSystem(id) => id != x.id
    case RetainSystems(live) => x.id in live
  }

  ghost predicate Enabled(x: Watch, w: World, e: Event) {
    match e
    case Finish(_, _) => w.remote.nextSequence < U64_MAX
    case Restart(epoch, names, limit, at) =>
      && epoch !in w.epochs && limit <= w.cache.perJob
      && at < |names| && names[at] == x.name && forall i, j :: 0 <= i < j < |names| ==> names[i] != names[j]
    case Fetch(t) => Spares(x, w.cache, x.id, Document(w.remote, t))
    case Other(op) => Undisturbed(x, w.cache, op)
  }

  /** What the remote serves for the watched job right now. */
  function Ring(w: World): seq<RunRecord> {
    if w.at < |w.remote.histories| then w.remote.histories[w.at].records else []
  }

  ghost function Next(x: Watch, w: World, e: Event): World {
    match e
    case Finish(index, run) =>
      w.(remote := RecordTerminal(w.remote, index, run),
         lifetime := if index == w.at then w.lifetime + [run.(sequence := w.remote.nextSequence)] else w.lifetime)
    case Restart(epoch, names, limit, at) =>
      w.(remote := Start(epoch, names, limit), at := at, epochs := w.epochs + {epoch}, lifetime := [], seen := 0)
    case Fetch(t) =>
      w.(cache := Step(w.cache, ApplyHistory(x.id, Document(w.remote, t))),
         seen := |w.lifetime|, served := w.served + Tag(w.remote.epoch, Ring(w)))
    case Other(op) => w.(cache := Step(w.cache, op))
  }

  ghost predicate IsStart(x: Watch, w: World) {
    && AcceptedName(x.name)
    && w.at < |w.remote.histories| && w.remote.histories[w.at] == JobHistory(x.name, []) && NamesDistinct(w.remote.histories)
    && w.remote.limit <= w.cache.perJob
    && w.epochs == {w.remote.epoch}
    && w.lifetime == [] && w.seen == 0 && w.served == []
    && w.cache.systems == map[]
  }

  ghost predicate IsRun(x: Watch, start: World, events: seq<Event>) {
    events == [] ||
    (IsRun(x, start, events[..|events| - 1]) && Enabled(x, After(x, start, events[..|events| - 1]), events[|events| - 1]))
  }

  ghost function After(x: Watch, start: World, events: seq<Event>): World {
    if events == [] then start else Next(x, After(x, start, events[..|events| - 1]), events[|events| - 1])
  }

  // ---- invariants ----

  /** The remote's ring is the newest window of its lifetime, with sequences increasing. */
  ghost predicate RemoteFine(x: Watch, w: World) {
    && w.at < |w.remote.histories| && w.remote.histories[w.at].name == x.name
    && NamesDistinct(w.remote.histories)
    && w.remote.histories[w.at].records == Newest(w.lifetime, w.remote.limit)
    && Increasing(w.lifetime)
    && forall i :: 0 <= i < |w.lifetime| ==> w.lifetime[i].sequence < w.remote.nextSequence
  }

  ghost predicate LogFine(w: World) {
    && w.remote.epoch in w.epochs && w.remote.limit <= w.cache.perJob
    && (forall i :: 0 <= i < |Dedup(w.served)| ==> Dedup(w.served)[i].epoch in w.epochs)
    && LogTracks(Dedup(w.served), w.remote.epoch, w.lifetime, w.seen, w.remote.limit)
  }

  ghost function Held(x: Watch, c: CacheView): seq<CronRecord> {
    JobRecords(SystemOr(c.systems, x.id).jobs, x.name)
  }

  ghost predicate CacheFine(x: Watch, w: World) {
    Held(x, w.cache) == Newest(Dedup(w.served), w.cache.perJob)
  }

  ghost predicate Fine(x: Watch, w: World) {
    AcceptedName(x.name) && RemoteFine(x, w) && LogFine(w) && CacheFine(x, w)
  }

  // ---- cache steps ----

  /** A document that spares the watched job leaves it exactly as its system's merge does. */
  lemma SparedStep(x: Watch, c: CacheView, id: string, h: History)
    requires Spares(x, c, id, h)
    ensures Held(x, Step(c, ApplyHistory(id, h))) == JobRecords(SystemOr(Merged(c, id, h), x.id).jobs, x.name)
  {
    hide Merged, ShelfOf, EnforcedSystems, Enforced, Count, Spared, Remains;
    var systems, k := Merged(c, id, h), JobKey(x.id, x.name);
    var shelf := ShelfOf(systems);
    EnforcedAt(systems, c.totalCap, k);
    if k in shelf && shelf[k] != [] { SparedIff(shelf, c.totalCap, k, |shelf[k]|); }
  }

  lemma OtherKeeps(x: Watch, c: CacheView, op: Op)
    requires Undisturbed(x, c, op)
    ensures Held(x, Step(c, op)) == Held(x, c)
    ensures Step(c, op).perJob == c.perJob
  {
    if op.ApplyHistory? { SparedStep(x, c, op.id, op.history); }
  }

  lemma FetchKeepsLog(x: Watch, w: World, t: u64)
    requires RemoteFine(x, w) && LogFine(w)
    ensures LogFine(Next(x, w, Fetch(t)))
    ensures Newest(Dedup(Next(x, w, Fetch(t)).served), w.cache.perJob)
         == Newest(Merge(Newest(Dedup(w.served), w.cache.perJob), w.remote.epoch, Ring(w)), w.cache.perJob)
  {
    hide Merged, HistoryApplied, EnforcedSystems, Count, Merge, Dedup, LogTracks, Increasing, Newest;
    DedupAppend(w.served, w.remote.epoch, Ring(w));
    FetchExtends(Dedup(w.served), w.remote.epoch, w.lifetime, w.seen, w.remote.limit, w.cache.perJob);
    EpochsOfMerge(Dedup(w.served), w.remote.epoch, Ring(w), w.epochs);
  }

  lemma FetchKeepsCache(x: Watch, w: World, t: u64)
    requires Fine(x, w) && Enabled(x, w, Fetch(t))
    ensures var after := Next(x, w, Fetch(t)).cache;
            && after.perJob == w.cache.perJob
            && Held(x, after) == Newest(Merge(Held(x, w.cache), w.remote.epoch, Ring(w)), w.cache.perJob)
  {
    hide HistoryApplied, EnforcedSystems, Count, Dedup, LogTracks, Increasing, Newest, Merge, Spared, Remains;
    var h := Document(w.remote, t);
    SparedStep(x, w.cache, x.id, h);
    HistoryAppliedAt(SystemOr(w.cache.systems, x.id), h, w.cache.perJob, w.at);
  }

  lemma FetchKeeps(x: Watch, w: World, t: u64)
    requires Fine(x, w) && Enabled(x, w, Fetch(t))
    ensures Fine(x, Next(x, w, Fetch(t)))
  {
    hide Merged, HistoryApplied, EnforcedSystems, Count, Merge, Dedup, LogTracks, Increasing, LogFine;
    FetchKeepsLog(x, w, t);
    FetchKeepsCache(x, w, t);
  }

  lemma {:induction false} EpochsOfMerge(log: seq<CronRecord>, epoch: Epoch, ring: seq<RunRecord>, epochs: set<Epoch>)
    requires epoch in epochs && forall i :: 0 <= i < |log| ==> log[i].epoch in epochs
    ensures forall i :: 0 <= i < |Merge(log, epoch, ring)| ==> Merge(log, epoch, ring)[i].epoch in epochs
  {
    if ring != [] { EpochsOfMerge(log, epoch, ring[..|ring| - 1], epochs); }
  }

  // ---- remote steps ----

  lemma RecordTerminalAt(r: Remote, index: nat, run: RunRecord, at: nat)
    requires at < |r.histories| && NamesDistinct(r.histories)
    ensures var next := RecordTerminal(r, index, run);
            && |next.histories| == |r.histories| && NamesDistinct(next.histories)
            && next.histories[at].name == r.histories[at].name
            && (r.limit == 0 || index != at ==> next.histories[at] == r.histories[at])
            && (r.limit > 0 && index == at ==>
                  next.histories[at].records == Newest(r.histories[at].records + [run.(sequence := r.nextSequence)], r.limit))
  {
  }

  lemma IncreasingAppend(runs: seq<RunRecord>, last: RunRecord)
    requires Increasing(runs) && forall i :: 0 <= i < |runs| ==> runs[i].sequence < last.sequence
    ensures Increasing(runs + [last])
  {
  }

  lemma FinishKeepsRemote(x: Watch, w: World, index: nat, run: RunRecord)
    requires RemoteFine(x, w) && w.remote.nextSequence < U64_MAX
    ensures RemoteFine(x, Next(x, w, Finish(index, run)))
  {
    hide NamesDistinct, Increasing, Newest;
    RecordTerminalAt(w.remote, index, run, w.at);
    if index == w.at {
      var last := run.(sequence := w.remote.nextSequence);
      NewestAppend(w.lifetime, [last], w.remote.limit);
      IncreasingAppend(w.lifetime, last);
    }
  }

  lemma TrackingUnmoved(log: seq<CronRecord>, epoch: Epoch, lifetime: seq<RunRecord>, seen: nat, limit: nat, last: RunRecord)
    requires LogTracks(log, epoch, lifetime, seen, limit)
    ensures LogTracks(log, epoch, lifetime + [last], seen, limit)
  {
    assert (lifetime + [last])[..seen] == lifetime[..seen];
    forall i | 0 <= i < |log| && log[i].epoch == epoch
      ensures exists j :: 0 <= j < seen && log[i].record == (lifetime + [last])[j]
    {
      var j :| 0 <= j < seen && log[i].record == lifetime[j];
      assert (lifetime + [last])[j] == lifetime[j];
    }
  }

  lemma FinishKeeps(x: Watch, w: World, index: nat, run: RunRecord)
    requires Fine(x, w) && Enabled(x, w, Finish(index, run))
    ensures Fine(x, Next(x, w, Finish(index, run)))
  {
    hide Dedup, LogTracks, Held, RemoteFine, Newest;
    FinishKeepsRemote(x, w, index, run);
    TrackingUnmoved(Dedup(w.served), w.remote.epoch, w.lifetime, w.seen, w.remote.limit, run.(sequence := w.remote.nextSequence));
  }

  lemma EmptySuffix<T>(s: seq<T>)
    ensures IsSuffix([], s)
  {
  }

  lemma NewEpochTracked(log: seq<CronRecord>, epochs: set<Epoch>, epoch: Epoch, limit: nat)
    requires epoch !in epochs && forall i :: 0 <= i < |log| ==> log[i].epoch in epochs
    ensures LogTracks(log, epoch, [], 0, limit)
  {
    hide Newest, IsSuffix;
    var none: seq<RunRecord> := [];
    assert none[..0] == none && Newest(none, limit) == none;
    assert Tag(epoch, none) == [];
    EmptySuffix(log);
    assert forall i :: 0 <= i < |log| ==> log[i].epoch != epoch;
  }

  lemma RestartKeepsRemote(x: Watch, w: World, epoch: Epoch, names: seq<string>, limit: nat, at: nat)
    requires Enabled(x, w, Restart(epoch, names, limit, at))
    ensures RemoteFine(x, Next(x, w, Restart(epoch, names, limit, at)))
  {
  }

  lemma RestartKeeps(x: Watch, w: World, epoch: Epoch, names: seq<string>, limit: nat, at: nat)
    requires Fine(x, w) && Enabled(x, w, Restart(epoch, names, limit, at))
    ensures Fine(x, Next(x, w, Restart(epoch, names, limit, at)))
  {
    hide Dedup, Held, LogTracks, RemoteFine, Newest;
    RestartKeepsRemote(x, w, epoch, names, limit, at);
    NewEpochTracked(Dedup(w.served), w.epochs, epoch, limit);
  }

  lemma NextKeeps(x: Watch, w: World, e: Event)
    requires Fine(x, w) && Enabled(x, w, e)
    ensures Fine(x, Next(x, w, e))
  {
    match e
    case Finish(index, run) => FinishKeeps(x, w, index, run);
    case Restart(epoch, names, limit, at) => RestartKeeps(x, w, epoch, names, limit, at);
    case Fetch(t) => FetchKeeps(x, w, t);
    case Other(op) => OtherKeeps(x, w.cache, op);
  }

  lemma {:induction false} EveryRunFine(x: Watch, start: World, events: seq<Event>)
    requires IsStart(x, start) && IsRun(x, start, events)
    ensures Fine(x, After(x, start, events))
  {
    if events == [] {
      assert IsSuffix(Tag(start.remote.epoch, []), Dedup([]));
    } else {
      EveryRunFine(x, start, events[..|events| - 1]);
      NextKeeps(x, After(x, start, events[..|events| - 1]), events[|events| - 1]);
    }
  }

  // ---- the remote as its events tell ----

  /** Where the current lifetime keeps the watched job. */
  function PlaceAfter(at: nat, events: seq<Event>): nat {
    if events == [] then at
    else
      match events[|events| - 1]
      case Restart(_, _, _, place) => place
      case _ => PlaceAfter(at, events[..|events| - 1])
  }

  /** The runs of the watched job that finished since the last restart, as they finished. */
  function RunsAfter(at: nat, events: seq<Event>): seq<RunRecord> {
    if events == [] then []
    else
      var front := events[..|events| - 1];
      match events[|events| - 1]
      case Finish(index, run) => RunsAfter(at, front) + if index == PlaceAfter(at, front) then [run] else []
      case Restart(_, _, _, _) => []
      case _ => RunsAfter(at, front)
  }

  /** The next sequence number: one for every run of any job, from 1 on after a restart. */
  function SequenceAfter(first: nat, events: seq<Event>): nat {
    if events == [] then first
    else
      match events[|events| - 1]
      case Finish(_, _) => SequenceAfter(first, events[..|events| - 1]) + 1
      case Restart(_, _, _, _) => 1
      case _ => SequenceAfter(first, events[..|events| - 1])
  }

  ghost predicate SameRuns(lifetime: seq<RunRecord>, runs: seq<RunRecord>) {
    |lifetime| == |runs| && forall j :: 0 <= j < |runs| ==> lifetime[j] == runs[j].(sequence := lifetime[j].sequence)
  }

  /** A lifetime is the runs that finished in it, whole, numbered in the order they finished. */
  lemma {:induction false} LifetimeIsItsRuns(x: Watch, start: World, events: seq<Event>)
    requires IsStart(x, start) && IsRun(x, start, events)
    ensures var w := After(x, start, events);
            && w.at == PlaceAfter(start.at, events)
            && SameRuns(w.lifetime, RunsAfter(start.at, events))
            && w.remote.nextSequence == SequenceAfter(start.remote.nextSequence, events)
            && (events != [] && events[|events| - 1].Finish? && events[|events| - 1].index == w.at ==>
                  w.lifetime != [] && w.lifetime[|w.lifetime| - 1].sequence == SequenceAfter(start.remote.nextSequence, events[..|events| - 1]))
  {
    if events != [] {
      hide Step, Spares, Undisturbed, IsStart;
      LifetimeIsItsRuns(x, start, events[..|events| - 1]);
    }
  }

  // ---- the theorem ----

  /**
   * Through any number of polls, lost fetches, restarts and evictions from other jobs, what is retained for the watched job is exactly
   * the last `perJob` entries of the deduplicated log of everything served for it; and right after a fetch
   * it ends with the remote's current ring.
   */
  lemma CacheIsWindowOfLog(x: Watch, start: World, events: seq<Event>)
    requires IsStart(x, start) && IsRun(x, start, events)
    ensures var w := After(x, start, events);
            && Held(x, w.cache) == Newest(Dedup(w.served), w.cache.perJob)
            && (w.seen == |w.lifetime| ==>
                  IsSuffix(Tag(w.remote.epoch, Ring(w)), Held(x, w.cache)))
  {
    EveryRunFine(x, start, events);
    var w := After(x, start, events);
    assert w.lifetime[..|w.lifetime|] == w.lifetime;
    if w.seen == |w.lifetime| {
      SuffixOfWindow(Tag(w.remote.epoch, Ring(w)), Dedup(w.served), w.cache.perJob);
    }
  }

  /**
   * A restarted remote reuses sequence numbers, and both lifetimes' records survive: as long as the log fits
   * the depth, every record ever served is retained under its own identity.
   */
  lemma NothingServedIsLost(x: Watch, start: World, events: seq<Event>, i: nat)
    requires IsStart(x, start) && IsRun(x, start, events)
    requires var w := After(x, start, events);
             i < |w.served| && |Dedup(w.served)| <= w.cache.perJob
    ensures var w := After(x, start, events);
            Contains(Held(x, w.cache), w.served[i].Identity())
  {
    CacheIsWindowOfLog(x, start, events);
    var w := After(x, start, events);
    DedupKeepsAll(w.served);
    assert Contains(w.served, w.served[i].Identity());
  }
}
