/** Each system of the fleet, seen on its own: what it holds is a function of what was done to it. */
module CronSystems {
  import opened Basics
  import opened SchedulerWire
  import opened CronModel
  import opened CronEviction
  import opened CronFleet
  import opened CronRemote
  import Gate = CronGate

  predicate Forgets(op: Op, id: string) {
    (op.ResetSystem? && op.id == id) || (op.RetainSystems? && id !in op.live)
  }

  /** What one operation on the cache is to system `id`: an event of its own protocol, or nothing. */
  function EventOf(op: Op, id: string): seq<Gate.Event> {
    if Forgets(op, id) then [Gate.Forget]
    else
      match op
      case ApplySummary(to, s, now) => if to == id then [Gate.ReadSummary(s, now)] else []
      case ApplyHistory(to, h) => if to == id then [Gate.ReadHistory(h, 0)] else []
      case MarkFailed(to, error, now) => if to == id then [Gate.Fail(error, now)] else []
      case MarkUnsupported(to) => if to == id then [Gate.NotServed] else []
      case _ => []
  }

  function EventsOf(ops: seq<Op>, id: string): seq<Gate.Event> {
    if ops == [] then [] else EventsOf(ops[..|ops| - 1], id) + EventOf(ops[|ops| - 1], id)
  }

  /** Whether anything was recorded for `id` since it was last forgotten. */
  function Known(ops: seq<Op>, id: string): bool {
    var events := EventsOf(ops, id);
    events != [] && !events[|events| - 1].Forget?
  }

  // ---- forgetting ----

  /** Forgetting removes exactly the systems it is meant to, and leaves the others as they are. */
  lemma ForgettingSystems(c: CacheView, op: Op)
    requires op.ResetSystem? || op.RetainSystems?
    ensures var after := Step(c, op).systems;
            forall id :: && (id in after <==> id in c.systems && if op.ResetSystem? then id != op.id else id in op.live)
                         && (id in after ==> after[id] == c.systems[id])
  {
  }

  // ---- one step ----

  ghost function Follow(s: SystemView, e: Gate.Event): SystemView {
    match e
    case ReadSummary(m, now) => SummaryApplied(s, m, now)
    case ReadHistory(h, _) => s.(epoch := Some(h.epoch), historyRevision := Some(h.historyRevision))
    case Fail(error, at) => MarkedFailed(s, error, at)
    case NotServed => MarkedUnsupported(s)
    case Forget => UnknownSystem
    case _ => s
  }

  /** Equal in everything but the retained records. */
  ghost predicate SameButJobs(a: SystemView, b: SystemView) {
    a == b.(jobs := a.jobs)
  }

  lemma StepFollows(c: CacheView, op: Op, id: string)
    ensures var before, after := SystemOr(c.systems, id), SystemOr(Step(c, op).systems, id);
            SameButJobs(after, if EventOf(op, id) == [] then before else Follow(before, EventOf(op, id)[0]))
    ensures id in Step(c, op).systems <==> if EventOf(op, id) == [] then id in c.systems else !EventOf(op, id)[0].Forget?
  {
    hide EvictStale, Enforced, Count, ShelfOf;
  }

  lemma GateFollows(start: Gate.World, events: seq<Gate.Event>, e: Gate.Event)
    requires e.ReadSummary? || e.ReadHistory? || e.Fail? || e.NotServed? || e.Forget?
    ensures SameButJobs(Gate.After(start, events + [e]).client, Follow(Gate.After(start, events).client, e))
  {
    assert (events + [e])[..|events|] == events;
    hide EvictStale;
  }

  // ---- every run ----

  /**
   * Over every run of the cache's operations, each system holds, records aside, exactly what the fetch protocol's
   * client holds after the events meant for it; it is present exactly when something was recorded since it was last
   * forgotten.
   */
  lemma {:induction false} FleetFollowsGate(perJob: nat, totalCap: nat, ops: seq<Op>, id: string, r: Remote)
    ensures var systems := Run(New(perJob, totalCap), ops).systems;
            && SameButJobs(SystemOr(systems, id), Gate.After(Gate.Begin(r), EventsOf(ops, id)).client)
            && (id in systems <==> Known(ops, id))
  {
    if ops != [] {
      hide Step, EventOf, Follow;
      var front, op := ops[..|ops| - 1], ops[|ops| - 1];
      var c, events, more := Run(New(perJob, totalCap), front), EventsOf(front, id), EventOf(op, id);
      FleetFollowsGate(perJob, totalCap, front, id, r);
      StepFollows(c, op, id);
      EventKinds(op, id);
      if more == [] {
        assert events + more == events;
      } else {
        assert more == [more[0]];
        GateFollows(Gate.Begin(r), events, more[0]);
        FollowSame(SystemOr(c.systems, id), Gate.After(Gate.Begin(r), events).client, more[0]);
      }
    }
  }

  lemma EventKinds(op: Op, id: string)
    ensures |EventOf(op, id)| <= 1
    ensures forall e :: e in EventOf(op, id) ==> e.ReadSummary? || e.ReadHistory? || e.Fail? || e.NotServed? || e.Forget?
  {
  }

  lemma FollowSame(a: SystemView, b: SystemView, e: Gate.Event)
    requires SameButJobs(a, b)
    ensures SameButJobs(Follow(a, e), Follow(b, e))
  {
  }

  /** So capability, stale marker, summary, timestamps and gate key of every system are functions of the operations. */
  lemma SystemReflectsOps(perJob: nat, totalCap: nat, ops: seq<Op>, id: string)
    ensures var s := SystemOr(Run(New(perJob, totalCap), ops).systems, id);
            var events := EventsOf(ops, id);
            var read := Gate.LastHistory(events);
            && s.capability == Gate.LastAnswer(events)
            && s.lastError == Gate.StaleBecause(events)
            && s.summary == Gate.LastSummary(events)
            && s.lastAttempt == Gate.LastAttempt(events, false)
            && s.lastSuccess == Gate.LastAttempt(events, true)
            && s.epoch == (if read.None? then None else Some(read.value.epoch))
            && s.historyRevision == (if read.None? then None else Some(read.value.historyRevision))
  {
    var r := Start(Epoch(0, 0), [], 0);
    FleetFollowsGate(perJob, totalCap, ops, id, r);
    Gate.ClientReflectsReads(r, EventsOf(ops, id));
  }
}
