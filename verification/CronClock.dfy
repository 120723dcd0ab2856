/** A followed job whose remote's clock never steps back is held in finish order. */
module CronClock {
  import opened Basics
  import opened SchedulerWire
  import opened CronModel
  import opened CronMerge
  import opened CronLog
  import opened CronOrder
  import opened CronFollow

  /** No run finishes earlier than a run that finished before it, across restarts. */
  ghost predicate ClockForward(events: seq<Event>) {
    forall i, j :: 0 <= i < j < |events| && events[i].Finish? && events[j].Finish? ==>
      events[i].run.finished <= events[j].run.finished
  }

  /** When the last run so far finished. */
  function LastFinish(events: seq<Event>): u64 {
    if events == [] then 0
    else
      var last := events[|events| - 1];
      if last.Finish? then last.run.finished else LastFinish(events[..|events| - 1])
  }

  lemma {:induction false} LastFinishFound(events: seq<Event>)
    ensures LastFinish(events) == 0 || exists i :: 0 <= i < |events| && events[i].Finish? && events[i].run.finished == LastFinish(events)
  {
    if events != [] && !events[|events| - 1].Finish? {
      var front := events[..|events| - 1];
      LastFinishFound(front);
      if LastFinish(front) != 0 {
        var i :| 0 <= i < |front| && front[i].Finish? && front[i].run.finished == LastFinish(front);
        assert events[i] == front[i];
      }
    }
  }

  /** Log and lifetime are in finish order, nothing finished after `now`, and what was not fetched yet is no older than the log. */
  ghost predicate Timely(log: seq<CronRecord>, lifetime: seq<RunRecord>, seen: nat, now: u64) {
    && Ordered(log) && RingOrdered(lifetime)
    && (forall i :: 0 <= i < |log| ==> log[i].record.finished <= now)
    && (forall j :: 0 <= j < |lifetime| ==> lifetime[j].finished <= now)
    && (forall i, j :: 0 <= i < |log| && seen <= j < |lifetime| ==> log[i].record.finished <= lifetime[j].finished)
  }

  lemma TimelyFinish(log: seq<CronRecord>, lifetime: seq<RunRecord>, seen: nat, now: u64, run: RunRecord)
    requires Timely(log, lifetime, seen, now) && now <= run.finished
    ensures Timely(log, lifetime + [run], seen, run.finished)
    ensures Timely(log, lifetime, seen, run.finished)
  {
  }

  lemma TimelyFetch(log: seq<CronRecord>, lifetime: seq<RunRecord>, seen: nat, now: u64, epoch: Epoch, novel: seq<RunRecord>)
    requires Timely(log, lifetime, seen, now) && seen <= |lifetime|
    requires |novel| <= |lifetime| - seen && novel == lifetime[|lifetime| - |novel|..]
    ensures Timely(log + Tag(epoch, novel), lifetime, |lifetime|, now)
  {
    var from := |lifetime| - |novel|;
    assert forall j :: 0 <= j < |novel| ==> novel[j] == lifetime[from + j];
  }

  lemma NextTimely(x: Watch, w: World, e: Event, now: u64)
    requires Fine(x, w) && Enabled(x, w, e)
    requires Timely(Dedup(w.served), w.lifetime, w.seen, now) && (e.Finish? ==> now <= e.run.finished)
    ensures var next := Next(x, w, e);
            Timely(Dedup(next.served), next.lifetime, next.seen, if e.Finish? then e.run.finished else now)
  {
    hide Timely, Dedup, Merge, Newest, Increasing, LogTracks;
    match e
    case Finish(index, run) =>
      TimelyFinish(Dedup(w.served), w.lifetime, w.seen, now, run.(sequence := w.remote.nextSequence));
    case Restart(_, _, _, _) => TimelyRestart(Dedup(w.served), w.lifetime, w.seen, now);
    case Fetch(t) =>
      var novel := FetchAppends(Dedup(w.served), w.remote.epoch, w.lifetime, w.seen, w.remote.limit);
      DedupAppend(w.served, w.remote.epoch, Ring(w));
      assert w.seen <= |w.lifetime| by { SeenInLifetime(w); }
      TimelyFetch(Dedup(w.served), w.lifetime, w.seen, now, w.remote.epoch, novel);
    case Other(_) =>
  }

  lemma SeenInLifetime(w: World)
    requires LogFine(w)
    ensures w.seen <= |w.lifetime|
  {
  }

  lemma TimelyRestart(log: seq<CronRecord>, lifetime: seq<RunRecord>, seen: nat, now: u64)
    requires Timely(log, lifetime, seen, now)
    ensures Timely(log, [], 0, now)
  {
  }

  lemma {:induction false} EveryRunTimely(x: Watch, start: World, events: seq<Event>)
    requires IsStart(x, start) && IsRun(x, start, events) && ClockForward(events)
    ensures var w := After(x, start, events);
            Timely(Dedup(w.served), w.lifetime, w.seen, LastFinish(events))
  {
    hide Timely, Fine, Next, Enabled, IsStart, Dedup;
    if events == [] {
      StartTimely(x, start);
    } else {
      var front, last := events[..|events| - 1], events[|events| - 1];
      EveryRunFine(x, start, front);
      ForwardFront(events);
      EveryRunTimely(x, start, front);
      NextTimely(x, After(x, start, front), last, LastFinish(front));
    }
  }

  lemma StartTimely(x: Watch, start: World)
    requires IsStart(x, start)
    ensures Timely(Dedup(start.served), start.lifetime, start.seen, 0)
  {
  }

  lemma ForwardFront(events: seq<Event>)
    requires ClockForward(events) && events != []
    ensures var front, last := events[..|events| - 1], events[|events| - 1];
            ClockForward(front) && (last.Finish? ==> LastFinish(front) <= last.run.finished)
  {
    var front, last := events[..|events| - 1], events[|events| - 1];
    LastFinishFound(front);
    if last.Finish? && LastFinish(front) != 0 {
      var i :| 0 <= i < |front| && front[i].Finish? && front[i].run.finished == LastFinish(front);
      assert events[i] == front[i] && events[|front|] == last;
    }
  }

  /**
   * Through any number of polls, lost fetches and restarts, a job that no ceiling hits and whose runs finish by a
   * clock that never steps back is held in finish order.
   */
  lemma ClockForwardKeepsOrder(x: Watch, start: World, events: seq<Event>)
    requires IsStart(x, start) && IsRun(x, start, events) && ClockForward(events)
    ensures Ordered(Held(x, After(x, start, events).cache))
  {
    EveryRunTimely(x, start, events);
    CacheIsWindowOfLog(x, start, events);
    var w := After(x, start, events);
    OrderedTail(Dedup(w.served), w.cache.perJob);
  }
}
