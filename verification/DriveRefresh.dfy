/**
 * The drive refresh worker and its cache: two threads, a request channel and a result channel of one
 * slot each. Timeouts, collection outcomes and scheduling are left open; every interleaving is a run.
 */
module DriveRefresh {
  import opened Basics
  import opened HostModel

  const REFRESH_INTERVAL_MS := 30_000
  const RETRY_START_MS := 10

  datatype Result = Ok(drives: seq<DriveMetrics>) | Err

  datatype Outcome = Completed(result: Result) | Panicked

  datatype Phase = Waiting | Collecting | Sending(result: Result) | Exited

  datatype State = State(
    constructed: bool,            // the constructor has queued the first request and returned
    phase: Phase,
    retryDelay: nat,
    requestQueued: bool,
    senderAlive: bool,            // the cache still holds the request sender
    receiverAlive: bool,          // the cache still holds the result receiver
    dropped: bool,                // the cache is being, or has been, dropped
    slot: Option<Result>,         // the buffered result
    latest: Option<seq<DriveMetrics>>,
    collected: seq<Result>,       // results of all finished collections
    sent: seq<Result>,            // results that entered the channel
    consumed: seq<Result>,        // results `poll` received
    lost: seq<Result>,            // a result whose send found no receiver
    panics: nat,                  // panics since the last collection that did not panic
    startsAfterDrop: nat)

  // The worker runs from the spawn on; the constructor queues the first request after it.
  const Spawned := State(false, Waiting, 0, false, true, true, false, None, None, [], [], [], [], 0, 0)
  const SpawnFailed := State(true, Exited, 0, false, false, true, false, None, None, [], [], [], [], 0, 0)

  function Initial(started: bool): State { if started then Spawned else SpawnFailed }

  datatype Event =
    | Construct             // the constructor queues the first request and hands out the cache
    | Request               // the cache asks for a refresh without blocking
    | TakeRequest           // the worker's wait ends with a request,
    | Timeout               // with a timeout,
    | Disconnected          // or with the sender gone
    | Finish(outcome: Outcome)
    | Send
    | SendFails
    | PollTake              // one `try_recv` of `poll` that yields a result
    | PollEmpty             // the one that ends it
    | DropSender
    | DropReceiver

  predicate IsWorker(e: Event) {
    e.TakeRequest? || e.Timeout? || e.Disconnected? || e.Finish? || e.Send? || e.SendFails?
  }

  predicate Enabled(s: State, e: Event) {
    match e
    case Construct => !s.constructed
    case Request => s.constructed && !s.dropped
    case TakeRequest => s.phase.Waiting? && s.requestQueued
    case Timeout => s.phase.Waiting? && !s.requestQueued && s.senderAlive
    case Disconnected => s.phase.Waiting? && !s.requestQueued && !s.senderAlive
    case Finish(_) => s.phase.Collecting?
    case Send => s.phase.Sending? && s.receiverAlive && s.slot.None?
    case SendFails => s.phase.Sending? && !s.receiverAlive
    case PollTake => s.constructed && !s.dropped && s.slot.Some?
    case PollEmpty => s.constructed && !s.dropped && s.slot.None?
    case DropSender => s.constructed && !s.dropped
    case DropReceiver => s.dropped && s.receiverAlive
  }

  function NextDelay(delay: nat, panicked: bool): nat {
    if !panicked then 0
    else if delay == 0 then RETRY_START_MS
    else if 2 * delay < REFRESH_INTERVAL_MS then 2 * delay else REFRESH_INTERVAL_MS
  }

  /** How long the worker waits for a request before it collects anyway. */
  function Wait(s: State): nat {
    if s.retryDelay == 0 then REFRESH_INTERVAL_MS else s.retryDelay
  }

  function Started(s: State): State {
    s.(phase := Collecting, startsAfterDrop := s.startsAfterDrop + if s.dropped then 1 else 0)
  }

  /** A full slot or a missing worker makes the request a no-op. */
  function Requested(s: State): State {
    if s.senderAlive && !s.phase.Exited? then s.(requestQueued := true) else s
  }

  function Next(s: State, e: Event): State
    requires Enabled(s, e)
  {
    match e
    case Construct => Requested(s.(constructed := true))
    case Request => Requested(s)
    case TakeRequest => Started(s.(requestQueued := false))
    case Timeout => Started(s)
    case Disconnected => s.(phase := Exited)
    case Finish(outcome) =>
      var result := if outcome.Panicked? then Err else outcome.result;
      s.(phase := Sending(result), retryDelay := NextDelay(s.retryDelay, outcome.Panicked?),
         collected := s.collected + [result], panics := if outcome.Panicked? then s.panics + 1 else 0)
    case Send => s.(phase := Waiting, slot := Some(s.phase.result), sent := s.sent + [s.phase.result])
    case SendFails => s.(phase := Exited, lost := [s.phase.result])
    case PollTake =>
      s.(slot := None, consumed := s.consumed + [s.slot.value],
         latest := if s.slot.value.Ok? then Some(s.slot.value.drives) else s.latest)
    case PollEmpty => s
    case DropSender => s.(dropped := true, senderAlive := false)
    case DropReceiver => s.(receiverAlive := false)
  }

  ghost predicate IsRun(s: State, events: seq<Event>)
    decreases |events|
  {
    events == [] || (Enabled(s, events[0]) && IsRun(Next(s, events[0]), events[1..]))
  }

  function After(s: State, events: seq<Event>): State
    requires IsRun(s, events)
    decreases |events|
  {
    if events == [] then s else After(Next(s, events[0]), events[1..])
  }

  // ---- what every interleaving keeps ----

  function LastOk(results: seq<Result>): Option<seq<DriveMetrics>> {
    if results == [] then None
    else if results[|results| - 1].Ok? then Some(results[|results| - 1].drives)
    else LastOk(results[..|results| - 1])
  }

  function Opt(slot: Option<Result>): seq<Result> {
    if slot.Some? then [slot.value] else []
  }

  function InHand(s: State): seq<Result> {
    if s.phase.Sending? then [s.phase.result] else []
  }

  /** Results flow through the worker's hand and the slot to `poll`, in the order collected. */
  ghost predicate InOrder(s: State) {
    && s.sent == s.consumed + Opt(s.slot)
    && s.collected == s.sent + InHand(s) + s.lost
    && |s.lost| <= 1 && (s.lost != [] ==> s.phase.Exited?)
    && s.latest == LastOk(s.consumed)
  }

  /** The delay after `n` consecutive panics. */
  function Backoff(n: nat): nat {
    if n == 0 then 0
    else if 10 * Pow2(n - 1) < 30_000 then 10 * Pow2(n - 1)
    else 30_000
  }

  function Pow2(n: nat): (p: nat)
    ensures p >= 1
  {
    if n == 0 then 1 else 2 * Pow2(n - 1)
  }

  ghost predicate DropCounted(s: State) {
    && (s.senderAlive ==> !s.dropped && s.receiverAlive)
    && (!s.dropped ==> s.startsAfterDrop == 0)
    && s.startsAfterDrop + (if s.requestQueued then 1 else 0) <= 1
    && (!s.senderAlive && !s.dropped ==> s.phase.Exited? && !s.requestQueued)
  }

  ghost predicate Sound(s: State) {
    InOrder(s) && s.retryDelay == Backoff(s.panics) && DropCounted(s)
  }

  lemma LastOkAppend(results: seq<Result>, r: Result)
    ensures LastOk(results + [r]) == if r.Ok? then Some(r.drives) else LastOk(results)
  {
    assert (results + [r])[..|results|] == results;
  }

  lemma NextInOrder(s: State, e: Event)
    requires InOrder(s) && Enabled(s, e)
    ensures InOrder(Next(s, e))
  {
    hide LastOk;
    var next := Next(s, e);
    if e.PollTake? {
      LastOkAppend(s.consumed, s.slot.value);
      assert next.consumed + Opt(None) == s.sent;
    } else if e.Finish? {
      assert next.collected == next.sent + InHand(next) + next.lost;
    } else if e.Send? {
      assert next.sent == next.consumed + Opt(next.slot);
    }
  }

  lemma NextSound(s: State, e: Event)
    requires Sound(s) && Enabled(s, e)
    ensures Sound(Next(s, e))
  {
    NextInOrder(s, e);
  }

  lemma InitialSound(started: bool)
    ensures Sound(Initial(started))
  {
  }

  lemma {:induction false} RunSound(s: State, events: seq<Event>)
    requires Sound(s) && IsRun(s, events)
    ensures Sound(After(s, events))
    decreases |events|
  {
    if events != [] {
      NextSound(s, events[0]);
      RunSound(Next(s, events[0]), events[1..]);
    }
  }

  // ---- the same on the events alone ----

  /** What the collections of a run came to: their own result, or an error for one that panicked. */
  function Results(events: seq<Event>): seq<Result> {
    if events == [] then []
    else ResultOf(events[0]) + Results(events[1..])
  }

  function ResultOf(e: Event): seq<Result> {
    if !e.Finish? then [] else if e.outcome.Panicked? then [Err] else [e.outcome.result]
  }

  function Sends(events: seq<Event>): nat {
    if events == [] then 0 else (if events[0].Send? then 1 else 0) + Sends(events[1..])
  }

  function Takes(events: seq<Event>): nat {
    if events == [] then 0 else (if events[0].PollTake? then 1 else 0) + Takes(events[1..])
  }

  /** Consecutive panics once `events` follow `n` of them. */
  function Panics(n: nat, events: seq<Event>): nat
    decreases events
  {
    if events == [] then n
    else Panics(if !events[0].Finish? then n else if events[0].outcome.Panicked? then n + 1 else 0, events[1..])
  }

  lemma {:induction false} StateTellsEvents(s: State, events: seq<Event>)
    requires IsRun(s, events)
    ensures var after := After(s, events);
            && after.collected == s.collected + Results(events)
            && |after.sent| == |s.sent| + Sends(events)
            && |after.consumed| == |s.consumed| + Takes(events)
            && after.panics == Panics(s.panics, events)
    decreases |events|
  {
    if events != [] {
      hide Next, Enabled, ResultOf;
      NextTells(s, events[0]);
      StateTellsEvents(Next(s, events[0]), events[1..]);
      assert (s.collected + ResultOf(events[0])) + Results(events[1..]) == s.collected + (ResultOf(events[0]) + Results(events[1..]));
    }
  }

  lemma NextTells(s: State, e: Event)
    requires Enabled(s, e)
    ensures var after := Next(s, e);
            && after.collected == s.collected + ResultOf(e)
            && |after.sent| == |s.sent| + (if e.Send? then 1 else 0)
            && |after.consumed| == |s.consumed| + (if e.PollTake? then 1 else 0)
            && after.panics == if !e.Finish? then s.panics else if e.outcome.Panicked? then s.panics + 1 else 0
  {
    hide NextDelay, LastOk;
  }

  /**
   * In every run from construction: the collections' results are sent and consumed in the order they were
   * made, at most two of them are not consumed yet, `latest` is the last success consumed, and when `poll`
   * finds the channel empty it is the last success sent so far. A collection that panicked counts as an error.
   */
  lemma EveryRunDelivers(started: bool, events: seq<Event>)
    requires IsRun(Initial(started), events)
    ensures var s, results := After(Initial(started), events), Results(events);
            && Takes(events) <= Sends(events) <= |results| <= Takes(events) + 2
            && s.consumed == results[..Takes(events)] && s.sent == results[..Sends(events)]
            && s.latest == LastOk(results[..Takes(events)])
            && (Enabled(s, PollEmpty) ==> s.latest == LastOk(results[..Sends(events)]))
  {
    InitialSound(started);
    hide InOrder, Enabled;
    RunSound(Initial(started), events);
    StateTellsEvents(Initial(started), events);
    InOrderDelivers(After(Initial(started), events));
  }

  lemma InOrderDelivers(s: State)
    requires InOrder(s)
    ensures s.consumed <= s.sent <= s.collected && |s.collected| - |s.consumed| <= 2 && s.latest == LastOk(s.consumed)
    ensures Enabled(s, PollEmpty) ==> s.latest == LastOk(s.sent)
  {
    hide LastOk;
    Regroup(s.consumed, Opt(s.slot), InHand(s), s.lost);
    assert s.slot.None? ==> s.sent == s.consumed;
  }

  lemma Regroup<T>(a: seq<T>, b: seq<T>, c: seq<T>, d: seq<T>)
    ensures a + b + c + d == a + (b + c + d)
  {
  }

  /** Once a refresh has succeeded, `latest` never goes back to `None`, whatever follows. */
  lemma {:induction false} LatestIsKept(s: State, events: seq<Event>)
    requires IsRun(s, events) && s.latest.Some?
    ensures After(s, events).latest.Some?
    decreases |events|
  {
    if events != [] { LatestIsKept(Next(s, events[0]), events[1..]); }
  }

  /** A cache whose worker could not be spawned serves `None` for ever. */
  lemma {:induction false} SpawnFailureStaysEmpty(s: State, events: seq<Event>)
    requires IsRun(s, events) && s.phase.Exited? && s.slot.None? && s.latest.None?
    ensures After(s, events).latest.None?
    decreases |events|
  {
    if events != [] { SpawnFailureStaysEmpty(Next(s, events[0]), events[1..]); }
  }

  /** After `n >= 1` consecutive panics the delay is min(10 ms * 2^(n-1), 30 s); after any other collection it is zero. */
  lemma EveryRunBacksOff(started: bool, events: seq<Event>)
    requires IsRun(Initial(started), events)
    ensures var s, n := After(Initial(started), events), Panics(0, events);
            && s.retryDelay == Backoff(n)
            && Wait(s) == if n == 0 then 30_000 else Backoff(n)
  {
    InitialSound(started);
    RunSound(Initial(started), events);
    StateTellsEvents(Initial(started), events);
  }

  /** While the cache is in use, a spawned worker neither exits nor waits for anything but the next `poll`. */
  lemma WorkerLives(events: seq<Event>)
    requires IsRun(Initial(true), events)
    ensures var s := After(Initial(true), events);
            !s.dropped ==> && !s.phase.Exited?
                           && ((exists e :: IsWorker(e) && Enabled(s, e)) || (s.phase.Sending? && s.slot.Some?))
  {
    InitialSound(true);
    RunSound(Initial(true), events);
    AliveUntilDropped(Initial(true), events);
    var s := After(Initial(true), events);
    if !s.dropped {
      match s.phase
      case Waiting => assert Enabled(s, TakeRequest) || Enabled(s, Timeout);
      case Collecting => assert Enabled(s, Finish(Panicked));
      case Sending(_) => assert s.slot.None? ==> Enabled(s, Send);
    }
  }

  /** The request the constructor queues stays there until the worker takes it, whatever else happens. */
  lemma {:induction false} FirstRequestWaits(s: State, events: seq<Event>)
    requires IsRun(s, events) && TakeRequest !in events
    requires s.requestQueued || (!s.constructed && !s.dropped && s.senderAlive && !s.phase.Exited? && s.receiverAlive && Construct in events)
    ensures After(s, events).requestQueued
    decreases |events|
  {
    if events != [] {
      assert events == [events[0]] + events[1..];
      FirstRequestWaits(Next(s, events[0]), events[1..]);
    }
  }

  /** So the first collection of a cache needs no timeout. */
  lemma FirstCollectionIsRequested(events: seq<Event>)
    requires IsRun(Initial(true), events) && Construct in events && TakeRequest !in events
    ensures var s := After(Initial(true), events);
            s.requestQueued && (s.phase.Waiting? ==> Enabled(s, TakeRequest) && !Enabled(s, Timeout) && !Enabled(s, Disconnected))
  {
    FirstRequestWaits(Initial(true), events);
  }

  lemma {:induction false} AliveUntilDropped(s: State, events: seq<Event>)
    requires Sound(s) && IsRun(s, events) && (!s.dropped ==> s.senderAlive && !s.phase.Exited?)
    ensures var after := After(s, events);
            !after.dropped ==> after.senderAlive && after.receiverAlive && !after.phase.Exited?
    decreases |events|
  {
    if events != [] {
      NextSound(s, events[0]);
      AliveUntilDropped(Next(s, events[0]), events[1..]);
    }
  }

  // ---- dropping the cache ----

  /** How many steps the worker can still take once the cache is dropped. */
  function StepsLeft(s: State): nat {
    (if s.phase.Exited? then 0 else if s.phase.Waiting? then 1 else if s.phase.Sending? then 2 else 3)
    + (if s.requestQueued && !s.phase.Exited? then 3 else 0)
  }

  function Steps(events: seq<Event>): nat {
    if events == [] then 0 else (if IsWorker(events[0]) then 1 else 0) + Steps(events[1..])
  }

  function Starts(events: seq<Event>): nat {
    if events == [] then 0 else (if events[0].TakeRequest? || events[0].Timeout? then 1 else 0) + Starts(events[1..])
  }

  lemma {:induction false} DroppedWorkerRunsDown(s: State, events: seq<Event>)
    requires Sound(s) && s.dropped && IsRun(s, events)
    ensures Steps(events) + StepsLeft(After(s, events)) <= StepsLeft(s)
    ensures Starts(events) == After(s, events).startsAfterDrop - s.startsAfterDrop
    decreases |events|
  {
    if events != [] {
      NextSound(s, events[0]);
      DroppedWorkerRunsDown(Next(s, events[0]), events[1..]);
    }
  }

  /**
   * Dropping the cache in any reachable state: whatever happens next, the worker starts at most one
   * further collection and takes at most six further steps.
   */
  lemma DropStopsWorker(started: bool, before: seq<Event>, after: seq<Event>)
    requires IsRun(Initial(started), before)
    requires Enabled(After(Initial(started), before), DropSender)
    requires IsRun(Next(After(Initial(started), before), DropSender), after)
    ensures Starts(after) <= 1 && Steps(after) <= 6
  {
    InitialSound(started);
    RunSound(Initial(started), before);
    var s := After(Initial(started), before);
    NextSound(s, DropSender);
    DroppedWorkerRunsDown(Next(s, DropSender), after);
    RunSound(Next(s, DropSender), after);
  }

  /** ... and it is never stuck on the way: until it exits, the channels let it take a step. */
  lemma DroppedWorkerNeverBlocks(s: State)
    requires Sound(s) && s.dropped && !s.receiverAlive && !s.phase.Exited?
    ensures exists e :: IsWorker(e) && Enabled(s, e)
  {
    match s.phase
    case Waiting =>
      assert s.requestQueued ==> Enabled(s, TakeRequest);
      assert !s.requestQueued ==> Enabled(s, Disconnected);
    case Collecting => assert Enabled(s, Finish(Panicked));
    case Sending(_) => assert Enabled(s, SendFails);
  }

  // ---- `poll` itself ----

  class Cache {
    var latest: Option<seq<DriveMetrics>>

    constructor ()
      ensures latest == None
    {
      latest := None;
    }

    /** Drain the channel; `received` is what `try_recv` yields before it reports an empty channel. */
    method Poll(received: seq<Result>) returns (drives: Option<seq<DriveMetrics>>)
      modifies this
      ensures drives == latest == if LastOk(received).Some? then LastOk(received) else old(latest)
    {
      for i := 0 to |received|
        invariant latest == if LastOk(received[..i]).Some? then LastOk(received[..i]) else old(latest)
      {
        assert received[..i + 1] == received[..i] + [received[i]];
        LastOkAppend(received[..i], received[i]);
        match received[i]
        case Ok(drives) => latest := Some(drives);
        case Err =>
      }
      assert received[..|received|] == received;
      drives := latest;
    }
  }
}
